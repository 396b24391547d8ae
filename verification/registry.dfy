/**
 The sample registry: an append-only list of clips. Built-in clips are
 appended when the browser has read their metadata; uploads are appended
 under the fixed display name "New Sample". A clip's position in the
 registry is its identity everywhere else in the model.
 */
module Registry {
  import opened SeqUtil

  /** A clip: where it is loaded from and the name shown on its button. */
  datatype Sample = Sample(src: string, name: string)

  type Samples = seq<Sample>

  /** Display name given to every uploaded clip. */
  const UploadName: string := "New Sample"

  /** The instrument-category table, in declaration order (name, category). */
  const InstrumentCategories: seq<(string, string)> := [
    ("Bass", "Basses"),
    ("Drum", "Drums"),
    ("Piano", "Strings"),
    ("Silence", "Special"),
    ("StrangeBeat", "Special"),
    ("Violin", "Strings")
  ]

  /** The clips loaded at start-up (source, name); their registry order depends on load timing. */
  const BuiltIns: seq<(string, string)> := [
    ("bass.mp3", "Bass"),
    ("drum.mp3", "Drum"),
    ("piano.mp3", "Piano"),
    ("silence.mp3", "Silence"),
    ("strange-beat.mp3", "StrangeBeat"),
    ("violin.mp3", "Violin")
  ]

  /** Property lookup on a table of (key, value) pairs: the value of the first entry with that key. */
  function Lookup(table: seq<(string, string)>, key: string): Option<string>
  {
    if |table| == 0 then None
    else if table[0].0 == key then Some(table[0].1)
    else Lookup(table[1..], key)
  }

  /** A lookup fails exactly for a missing key, and otherwise returns a value stored under that key. */
  lemma {:induction false} LookupFinds(table: seq<(string, string)>, key: string)
    ensures Lookup(table, key).None? <==> forall i :: 0 <= i < |table| ==> table[i].0 != key
    ensures Lookup(table, key).Some? ==>
      exists i :: 0 <= i < |table| && table[i] == (key, Lookup(table, key).value)
  {
    if |table| > 0 && table[0].0 != key {
      LookupFinds(table[1..], key);
      assert forall i :: 1 <= i < |table| ==> table[i] == table[1..][i - 1];
    }
  }

  /** The category a sample name maps to, if any. */
  function CategoryOf(name: string): Option<string>
  {
    Lookup(InstrumentCategories, name)
  }

  /** Every built-in clip has a category, so each one gets a button under some category. */
  lemma BuiltInsHaveCategories()
    ensures forall i :: 0 <= i < |BuiltIns| ==> CategoryOf(BuiltIns[i].1).Some?
  {
    var t := InstrumentCategories;
    forall i | 0 <= i < |BuiltIns|
      ensures CategoryOf(BuiltIns[i].1).Some?
    {
      assert BuiltIns[i].1 == t[i].0;
      LookupFinds(t, BuiltIns[i].1);
    }
  }

  /** The name given to uploads has no category. */
  lemma UploadHasNoCategory()
    ensures CategoryOf(UploadName) == None
  {
    var t := InstrumentCategories;
    assert t[0].0 != UploadName && t[1].0 != UploadName && t[2].0 != UploadName;
    assert t[3].0 != UploadName && t[4].0 != UploadName && t[5].0 != UploadName;
  }

  /** A built-in clip finished loading its metadata and joins the registry. */
  function LoadSample(samples: Samples, src: string, name: string): (r: Samples)
    ensures |r| == |samples| + 1
    ensures r[..|samples|] == samples
    ensures r[|samples|] == Sample(src, name)
  {
    samples + [Sample(src, name)]
  }

  /**
   The upload button: with no file chosen nothing changes; otherwise the
   file's object URL joins the registry as "New Sample".
   */
  function Upload(samples: Samples, file: Option<string>): (r: Samples)
    ensures file.None? ==> r == samples
    ensures file.Some? ==> |r| == |samples| + 1 && r[..|samples|] == samples
    ensures file.Some? ==> r[|samples|] == Sample(file.value, UploadName)
  {
    match file
    case None => samples
    case Some(url) => samples + [Sample(url, UploadName)]
  }
}
