/**
 The track list together with the track containers on the page. Each
 container carries an id "trackDiv<n>" fixed when it is created; its
 delete button and its drop target read `n` back from that id and use it
 as a position in the track list.

 Position and id agree until the first deletion of a track other than the
 last one. From then on the handlers as written act on the wrong track,
 or on none, and a newly added track can get an id that is already in use.
 The corrected operations look a container's track up by its id and never
 reuse a live id.
 */
module Page {
  import opened SeqUtil
  import opened TrackList

  /** The track list, and position by position the id number of the container showing it. */
  datatype PageState = PageState(tracks: Tracks, divIds: seq<nat>)

  /** No id occurs twice. */
  predicate Distinct(ids: seq<nat>)
  {
    forall i, j :: 0 <= i < j < |ids| ==> ids[i] != ids[j]
  }

  /** Every track has exactly one container and no two containers share an id. */
  predicate InSync(p: PageState)
  {
    |p.tracks| == |p.divIds| && Distinct(p.divIds)
  }

  /** Container ids equal track positions. */
  predicate Aligned(p: PageState)
  {
    |p.tracks| == |p.divIds| && forall i :: 0 <= i < |p.divIds| ==> p.divIds[i] == i
  }

  /** The page as loaded: four empty tracks in containers 0 to 3. */
  const InitialPage: PageState := PageState(InitialTracks, [0, 1, 2, 3])

  /** The track shown in container `d`, if that container is on the page. */
  function TrackOf(p: PageState, d: nat): (r: Option<Track>)
    ensures InSync(p) ==> (r.Some? <==> d in p.divIds)
  {
    var k := IndexOf(p.divIds, d);
    if 0 <= k < |p.tracks| then Some(p.tracks[k]) else None
  }

  /** In a list without repeats, each entry is found at its own position. */
  lemma IndexOfDistinct(ids: seq<nat>, i: nat)
    requires i < |ids| && Distinct(ids)
    ensures IndexOf(ids, ids[i]) == i
  {
    var r := IndexOf(ids, ids[i]);
    assert ids[r] == ids[i];
  }

  /** On a consistent page the container at position `i` shows the track at position `i`. */
  lemma TrackAt(p: PageState, i: nat)
    requires InSync(p) && i < |p.divIds|
    ensures TrackOf(p, p.divIds[i]) == Some(p.tracks[i])
  {
    IndexOfDistinct(p.divIds, i);
  }

  /** Splicing one id out of a list without repeats leaves the other ids, still without repeats. */
  lemma SpliceDistinct(ids: seq<nat>, k: nat)
    requires k < |ids| && Distinct(ids)
    ensures Distinct(Splice1(ids, k))
    ensures forall x :: x in Splice1(ids, k) <==> x in ids && x != ids[k]
  {
    var r := Splice1(ids, k);
    forall x | x in r
      ensures x in ids && x != ids[k]
    {
      var i :| 0 <= i < |r| && r[i] == x;
      if i < k {
        assert r[i] == ids[i];
      } else {
        assert r[i] == ids[i + 1];
      }
    }
    forall x | x in ids && x != ids[k]
      ensures x in r
    {
      var i :| 0 <= i < |ids| && ids[i] == x;
      if i < k {
        assert r[i] == x;
      } else {
        assert r[i - 1] == x;
      }
    }
    forall i, j | 0 <= i < j < |r|
      ensures r[i] != r[j]
    {
      var i' := if i < k then i else i + 1;
      var j' := if j < k then j else j + 1;
      assert r[i] == ids[i'] && r[j] == ids[j'];
    }
  }

  lemma InitialPageAligned()
    ensures Aligned(InitialPage) && |InitialPage.tracks| == 4
  {
    var ids := InitialPage.divIds;
    assert ids[0] == 0 && ids[1] == 1 && ids[2] == 2 && ids[3] == 3;
  }

  // ---- As written ----

  /**
   Delete button of the container at position `c` on the page, as written:
   the track list is spliced at the number in that container's id, and that
   very container is removed, whichever other container has the same id.
   */
  function DeleteTrackAsWritten(p: PageState, c: nat): (r: PageState)
    requires c < |p.divIds|
    ensures r.tracks == DeleteTrack(p.tracks, p.divIds[c])
    ensures |r.divIds| == |p.divIds| - 1
    ensures forall i :: 0 <= i < c ==> r.divIds[i] == p.divIds[i]
    ensures forall i :: c <= i < |r.divIds| ==> r.divIds[i] == p.divIds[i + 1]
  {
    PageState(DeleteTrack(p.tracks, p.divIds[c]), Splice1(p.divIds, c))
  }

  /** Add-track button as written: the new container's id is the new track's position. */
  function AddTrackAsWritten(p: PageState): (r: PageState)
    ensures r.tracks == AddTrack(p.tracks).0
    ensures |r.tracks| == |p.tracks| + 1 && r.divIds == p.divIds + [|p.tracks|]
  {
    var (tracks, n) := AddTrack(p.tracks);
    PageState(tracks, p.divIds + [n])
  }

  /** Dropping a clip on container `d` as written: pushes onto position `d`. */
  function AddSampleAsWritten(p: PageState, d: nat, sample: nat): (r: Option<PageState>)
    ensures r.None? <==> d >= |p.tracks|
    ensures r.Some? ==> r.value.divIds == p.divIds && |r.value.tracks| == |p.tracks|
    ensures r.Some? ==> r.value.tracks[d] == p.tracks[d] + [sample]
    ensures r.Some? ==> forall u :: 0 <= u < |p.tracks| && u != d ==> r.value.tracks[u] == p.tracks[u]
  {
    match AddSample(p.tracks, d, sample)
    case None => None
    case Some(tracks) => Some(PageState(tracks, p.divIds))
  }

  /**
   Deleting container `d` of an aligned page, other than the last: one
   track fewer, ids below `d` still equal positions, ids from `d` on are one
   more than their position.
   */
  lemma AfterEarlyDelete(p: PageState, d: nat)
    requires Aligned(p) && d + 1 < |p.tracks|
    ensures |DeleteTrackAsWritten(p, d).tracks| == |p.tracks| - 1
    ensures |DeleteTrackAsWritten(p, d).divIds| == |p.tracks| - 1
    ensures forall i :: 0 <= i < d ==> DeleteTrackAsWritten(p, d).divIds[i] == i
    ensures forall i :: d <= i < |p.tracks| - 1 ==> DeleteTrackAsWritten(p, d).divIds[i] == i + 1
    ensures Distinct(DeleteTrackAsWritten(p, d).divIds)
  {
    assert Distinct(p.divIds);
    assert p.divIds[d] == d;
    SpliceDistinct(p.divIds, d);
  }

  /**
   After an early deletion, the last container still shows id `n - 1` on a
   list of only `n - 1` tracks. Its delete button splices a position that
   no longer exists: no track goes, the container does, and the page is out
   of sync.
   */
  lemma DeleteAsWrittenDesyncs(p: PageState, d: nat)
    requires Aligned(p) && d + 1 < |p.tracks|
    ensures |DeleteTrackAsWritten(p, d).divIds| == |p.tracks| - 1
    ensures DeleteTrackAsWritten(p, d).divIds[|p.tracks| - 2] == |p.tracks| - 1
    ensures DeleteTrackAsWritten(DeleteTrackAsWritten(p, d), |p.tracks| - 2).tracks
      == DeleteTrackAsWritten(p, d).tracks
    ensures |DeleteTrackAsWritten(DeleteTrackAsWritten(p, d), |p.tracks| - 2).divIds| == |p.tracks| - 2
    ensures !InSync(DeleteTrackAsWritten(DeleteTrackAsWritten(p, d), |p.tracks| - 2))
  {
    var q := DeleteTrackAsWritten(p, d);
    var n := |p.tracks|;
    AfterEarlyDelete(p, d);
    assert q.divIds[n - 2] == n - 1;
    var q2 := DeleteTrackAsWritten(q, n - 2);
    assert |q2.tracks| == n - 1 && |q2.divIds| == n - 2;
  }

  /** After an early deletion, a new track gets the id of the last container, which is still on the page. */
  lemma AddAsWrittenReusesId(p: PageState, d: nat)
    requires Aligned(p) && d + 1 < |p.tracks|
    ensures var q := DeleteTrackAsWritten(p, d); AddTrackAsWritten(q).divIds[|q.divIds|] in q.divIds
    ensures !InSync(AddTrackAsWritten(DeleteTrackAsWritten(p, d)))
  {
    var q := DeleteTrackAsWritten(p, d);
    var n := |p.tracks|;
    AfterEarlyDelete(p, d);
    var q2 := AddTrackAsWritten(q);
    assert q2.divIds[n - 2] == n - 1 && q2.divIds[n - 1] == n - 1;
  }

  /** After an early deletion, a clip dropped on the last container is lost: the handler throws. */
  lemma DropAsWrittenMissesTrack(p: PageState, d: nat, sample: nat)
    requires Aligned(p) && d + 1 < |p.tracks|
    ensures |p.tracks| - 1 in DeleteTrackAsWritten(p, d).divIds
    ensures AddSampleAsWritten(DeleteTrackAsWritten(p, d), |p.tracks| - 1, sample).None?
  {
    AfterEarlyDelete(p, d);
    assert DeleteTrackAsWritten(p, d).divIds[|p.tracks| - 2] == |p.tracks| - 1;
  }

  /**
   After an early deletion of container `d`, a clip dropped on a later
   container `e` lands on the track of container `e + 1`; the track of `e`
   is left as it was.
   */
  lemma DropAsWrittenHitsNeighbour(p: PageState, d: nat, e: nat, sample: nat)
    requires Aligned(p) && d < e && e + 1 < |p.tracks|
    ensures AddSampleAsWritten(DeleteTrackAsWritten(p, d), e, sample).Some?
    ensures TrackOf(DeleteTrackAsWritten(p, d), e + 1).Some?
    ensures TrackOf(AddSampleAsWritten(DeleteTrackAsWritten(p, d), e, sample).value, e)
      == TrackOf(DeleteTrackAsWritten(p, d), e)
    ensures TrackOf(AddSampleAsWritten(DeleteTrackAsWritten(p, d), e, sample).value, e + 1)
      == Some(TrackOf(DeleteTrackAsWritten(p, d), e + 1).value + [sample])
  {
    var q := DeleteTrackAsWritten(p, d);
    AfterEarlyDelete(p, d);
    assert q.divIds[e - 1] == e && q.divIds[e] == e + 1;
    var r := AddSampleAsWritten(q, e, sample).value;
    assert r.tracks[e - 1] == q.tracks[e - 1] && r.tracks[e] == q.tracks[e] + [sample];
    TrackAt(q, e - 1);
    TrackAt(q, e);
    TrackAt(r, e - 1);
    TrackAt(r, e);
  }

  /**
   While ids equal positions, the delete and drop handlers as written act on
   the track the container shows, and adding a track keeps ids equal to
   positions.
   */
  lemma AsWrittenAgreesWhileAligned(p: PageState, d: nat, sample: nat)
    requires Aligned(p)
    ensures InSync(p)
    ensures d < |p.divIds| ==> DeleteTrackAsWritten(p, d) == DeleteTrackById(p, p.divIds[d])
    ensures AddSampleAsWritten(p, d, sample) == AddSampleById(p, d, sample)
    ensures Aligned(AddTrackAsWritten(p))
  {
    assert Distinct(p.divIds);
    if d < |p.divIds| {
      assert p.divIds[d] == d;
      IndexOfDistinct(p.divIds, d);
    } else {
      assert d !in p.divIds;
    }
  }

  // ---- Corrected: containers are looked up by id ----

  /** The largest id in use, or 0 when there are none. */
  function MaxId(ids: seq<nat>): (m: nat)
    ensures forall i :: 0 <= i < |ids| ==> ids[i] <= m
  {
    if |ids| == 0 then 0
    else
      var rest := MaxId(ids[1..]);
      assert forall i :: 1 <= i < |ids| ==> ids[i] == ids[1..][i - 1];
      if ids[0] > rest then ids[0] else rest
  }

  /** Delete button of container `d`: removes the track that container shows, and the container. */
  function DeleteTrackById(p: PageState, d: nat): (r: PageState)
    requires InSync(p)
    ensures InSync(r)
    ensures forall x :: x in r.divIds <==> x in p.divIds && x != d
    ensures d in p.divIds ==> |r.tracks| == |p.tracks| - 1
    ensures d !in p.divIds ==> r == p
  {
    var k := IndexOf(p.divIds, d);
    if k == -1 then p
    else
      SpliceDistinct(p.divIds, k);
      PageState(DeleteTrack(p.tracks, k), Splice1(p.divIds, k))
  }

  /** Add-track button: a new empty track in a container whose id no other container has. */
  function AddTrackById(p: PageState): (r: (PageState, nat))
    requires InSync(p)
    ensures InSync(r.0)
    ensures r.1 !in p.divIds
    ensures TrackOf(r.0, r.1) == Some([])
    ensures |r.0.tracks| == |p.tracks| + 1 && |r.0.divIds| == |p.divIds| + 1
    ensures r.0.divIds[..|p.divIds|] == p.divIds && r.0.tracks[..|p.tracks|] == p.tracks
  {
    var id := if |p.divIds| == 0 then 0 else MaxId(p.divIds) + 1;
    var (tracks, n) := AddTrack(p.tracks);
    var r := PageState(tracks, p.divIds + [id]);
    assert id !in p.divIds by {
      if |p.divIds| > 0 {
        assert forall i :: 0 <= i < |p.divIds| ==> p.divIds[i] < id;
      }
    }
    assert Distinct(r.divIds) by {
      assert forall i :: 0 <= i < |p.divIds| ==> r.divIds[i] == p.divIds[i];
    }
    assert r.divIds[|p.divIds|] == id;
    IndexOfDistinct(r.divIds, |p.divIds|);
    assert tracks[..|p.tracks|] == p.tracks;
    (r, id)
  }

  /** Dropping a clip on container `d`: appends it to the track that container shows. */
  function AddSampleById(p: PageState, d: nat, sample: nat): (r: Option<PageState>)
    requires InSync(p)
    ensures r.None? <==> d !in p.divIds
    ensures r.Some? ==> InSync(r.value) && r.value.divIds == p.divIds
    ensures r.Some? ==> TrackOf(r.value, d) == Some(TrackOf(p, d).value + [sample])
  {
    var k := IndexOf(p.divIds, d);
    if k == -1 then None
    else
      match AddSample(p.tracks, k, sample)
      case None => None
      case Some(tracks) => Some(PageState(tracks, p.divIds))
  }

  /** Deleting container `d` leaves every other container showing the track it showed before. */
  lemma DeleteByIdKeepsOthers(p: PageState, d: nat, e: nat)
    requires InSync(p) && e != d
    ensures TrackOf(DeleteTrackById(p, d), e) == TrackOf(p, e)
  {
    var r := DeleteTrackById(p, d);
    var k := IndexOf(p.divIds, d);
    if k != -1 {
      if e in p.divIds {
        var ke := IndexOf(p.divIds, e);
        assert ke != k;
        assert r.divIds == Splice1(p.divIds, k) && r.tracks == Splice1(p.tracks, k);
        var target := if ke < k then ke else ke - 1;
        assert r.divIds[target] == e && r.tracks[target] == p.tracks[ke];
        TrackAt(p, ke);
        TrackAt(r, target);
      } else {
        assert e !in r.divIds;
      }
    }
  }

  /** Dropping a clip on container `d` changes no other container's track. */
  lemma AddSampleByIdKeepsOthers(p: PageState, d: nat, sample: nat, e: nat)
    requires InSync(p) && e != d && d in p.divIds
    ensures AddSampleById(p, d, sample).Some?
    ensures TrackOf(AddSampleById(p, d, sample).value, e) == TrackOf(p, e)
  {
  }
}
