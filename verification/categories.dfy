/**
 Category browsing. The category drop-down lists each value of the
 instrument-category table once, in the order values first appear; the
 sample-button panel lists the registry entries whose name maps to the
 selected category, in registry order, each carrying its registry position.
 */
module Categories {
  import opened SeqUtil
  import opened Registry

  /** The values of a (key, value) table, in table order. */
  function Values(table: seq<(string, string)>): (r: seq<string>)
    ensures |r| == |table|
    ensures forall i :: 0 <= i < |table| ==> r[i] == table[i].1
  {
    seq(|table|, i requires 0 <= i < |table| => table[i].1)
  }

  /**
   `Array.from(new Set(xs))`: every value once, ordered by where it first
   occurs in `xs`.
   */
  function DistinctInOrder(xs: seq<string>): seq<string>
    decreases |xs|
  {
    if |xs| == 0 then []
    else
      var init := DistinctInOrder(xs[..|xs| - 1]);
      if xs[|xs| - 1] in init then init else init + [xs[|xs| - 1]]
  }

  /** The distinct list holds each value of `xs` exactly once and nothing else. */
  lemma {:induction false} DistinctInOrderElements(xs: seq<string>)
    ensures forall i, j :: 0 <= i < j < |DistinctInOrder(xs)| ==> DistinctInOrder(xs)[i] != DistinctInOrder(xs)[j]
    ensures forall x :: x in DistinctInOrder(xs) <==> x in xs
    decreases |xs|
  {
    if |xs| > 0 {
      var m := |xs| - 1;
      DistinctInOrderElements(xs[..m]);
      assert xs == xs[..m] + [xs[m]];
    }
  }

  /** The distinct list is ordered by where each value first occurs in `xs`. */
  lemma {:induction false} DistinctInOrderFirstAppearance(xs: seq<string>)
    ensures forall i, j :: 0 <= i < j < |DistinctInOrder(xs)| ==>
      IndexOf(xs, DistinctInOrder(xs)[i]) < IndexOf(xs, DistinctInOrder(xs)[j])
    decreases |xs|
  {
    if |xs| > 0 {
      var m := |xs| - 1;
      var init := DistinctInOrder(xs[..m]);
      var r := DistinctInOrder(xs);
      DistinctInOrderFirstAppearance(xs[..m]);
      DistinctInOrderElements(xs[..m]);
      forall i | 0 <= i < |init|
        ensures IndexOf(xs, init[i]) == IndexOf(xs[..m], init[i]) < m
      {
        IndexOfPrefix(xs, m, init[i]);
      }
      if xs[m] in init {
        assert r == init;
      } else {
        assert r == init + [xs[m]];
        IndexOfBefore(xs, m, xs[m]);
        forall i, j | 0 <= i < j < |r|
          ensures IndexOf(xs, r[i]) < IndexOf(xs, r[j])
        {
          if j == |init| {
            assert r[i] == init[i] && r[j] == xs[m];
          } else {
            assert r[i] == init[i] && r[j] == init[j];
          }
        }
      }
    }
  }

  /** The options of the category drop-down. */
  function CategoryList(): seq<string>
  {
    DistinctInOrder(Values(InstrumentCategories))
  }

  /** For the instrument table the drop-down reads Basses, Drums, Strings, Special. */
  lemma CategoryListContents()
    ensures CategoryList() == ["Basses", "Drums", "Strings", "Special"]
  {
    var vs := Values(InstrumentCategories);
    assert vs == ["Basses", "Drums", "Strings", "Special", "Special", "Strings"];
    var four := ["Basses", "Drums", "Strings", "Special"];
    assert DistinctInOrder(vs[..1]) == four[..1] by {
      assert vs[..1][..0] == [];
    }
    assert DistinctInOrder(vs[..2]) == four[..2] by {
      assert vs[..2][..1] == vs[..1];
    }
    assert DistinctInOrder(vs[..3]) == four[..3] by {
      assert vs[..3][..2] == vs[..2];
    }
    assert DistinctInOrder(vs[..4]) == four by {
      assert vs[..4][..3] == vs[..3];
    }
    assert DistinctInOrder(vs[..5]) == four by {
      assert vs[..5][..4] == vs[..4];
      assert four[3] == vs[4];
    }
    assert DistinctInOrder(vs) == four by {
      assert vs[..5] == vs[..|vs| - 1];
      assert four[2] == vs[5];
    }
  }

  /** Whether registry entry `i` has a button under category `selected`. */
  predicate Listed(samples: Samples, selected: string, i: int)
  {
    0 <= i < |samples| && CategoryOf(samples[i].name) == Some(selected)
  }

  /** Reference definition: the positions below `n` that have a button, in ascending order. */
  function Matching(samples: Samples, selected: string, n: nat): seq<nat>
    requires n <= |samples|
  {
    if n == 0 then []
    else Matching(samples, selected, n - 1) + if Listed(samples, selected, n - 1) then [n - 1] else []
  }

  /** The reference list holds exactly the listed positions below `n`, each once, ascending. */
  lemma {:induction false} MatchingExact(samples: Samples, selected: string, n: nat)
    requires n <= |samples|
    ensures forall j :: 0 <= j < |Matching(samples, selected, n)| ==>
      Listed(samples, selected, Matching(samples, selected, n)[j]) && Matching(samples, selected, n)[j] < n
    ensures forall i :: 0 <= i < n && Listed(samples, selected, i) ==> i in Matching(samples, selected, n)
    ensures forall j, j' :: 0 <= j < j' < |Matching(samples, selected, n)| ==>
      Matching(samples, selected, n)[j] < Matching(samples, selected, n)[j']
  {
    if n > 0 {
      var prev := Matching(samples, selected, n - 1);
      var cur := Matching(samples, selected, n);
      MatchingExact(samples, selected, n - 1);
      if Listed(samples, selected, n - 1) {
        assert cur == prev + [n - 1];
        assert forall j :: 0 <= j < |prev| ==> cur[j] == prev[j];
      } else {
        assert cur == prev;
      }
    }
  }

  /**
   The sample-button panel for the selected category: the registry
   positions of exactly the clips whose name maps to it, in registry order.
   Uploaded clips have no category and never get a button.
   */
  method SampleButtons(samples: Samples, selected: string) returns (ids: seq<nat>)
    ensures forall j :: 0 <= j < |ids| ==> Listed(samples, selected, ids[j])
    ensures forall i :: Listed(samples, selected, i) ==> i in ids
    ensures forall j, j' :: 0 <= j < j' < |ids| ==> ids[j] < ids[j']
    ensures forall j :: 0 <= j < |ids| ==> ids[j] < |samples| && samples[ids[j]].name != UploadName
  {
    ids := [];
    var i := 0;
    while i < |samples|
      invariant 0 <= i <= |samples|
      invariant ids == Matching(samples, selected, i)
    {
      if CategoryOf(samples[i].name) == Some(selected) {
        ids := ids + [i];
      }
      i := i + 1;
    }
    MatchingExact(samples, selected, |samples|);
    UploadHasNoCategory();
  }
}
