/**
 The playback driver. Pressing play starts one independent loop per
 non-empty track. A loop keeps a cursor into its track; each time a clip
 ends the cursor moves to the next entry, wrapping to the first one after
 the last, and the clip at the cursor plays. The loop reads the track's
 current contents at every step, so entries removed meanwhile are no
 longer played.
 */
module Playback {
  import opened SeqUtil
  import opened TrackList

  /** A running track loop: the track's position when play was pressed, and its cursor. */
  datatype Loop = Loop(trackNumber: nat, cursor: nat)

  /** The cursor update on "ended": one further while that is inside the track, otherwise back to 0. */
  function Step(cursor: nat, len: nat): (next: nat)
    ensures len > 0 ==> next < len
    ensures next == cursor + 1 <==> cursor + 1 < len
    ensures next != cursor + 1 ==> next == 0
  {
    if cursor + 1 < len then cursor + 1 else 0
  }

  /** Starting a loop on a non-empty track: cursor 0, the track's first clip plays. */
  function PlayTrack(track: Track, trackNumber: nat): (r: (Loop, nat))
    requires |track| > 0
    ensures r.0.trackNumber == trackNumber && r.0.cursor == 0
    ensures r.0.cursor < |track| && r.1 == track[r.0.cursor]
  {
    (Loop(trackNumber, 0), track[0])
  }

  /**
   The "ended" handler, given the track's contents at that moment: the
   cursor steps and the clip under it plays. On a track that has been
   emptied meanwhile there is no clip to play; the handler throws and the
   loop stops (`None`).
   */
  function Ended(loop: Loop, track: Track): (r: Option<(Loop, nat)>)
    ensures r.None? <==> |track| == 0
    ensures r.Some? ==> r.value.0.trackNumber == loop.trackNumber
    ensures r.Some? ==> r.value.0.cursor == Step(loop.cursor, |track|)
    ensures r.Some? ==> r.value.0.cursor < |track| && r.value.1 == track[r.value.0.cursor]
  {
    if |track| == 0 then None
    else
      var next := Step(loop.cursor, |track|);
      Some((Loop(loop.trackNumber, next), track[next]))
  }

  /** The loop after `k` clips have ended on a track whose contents stay `track`. */
  function Replay(loop: Loop, track: Track, k: nat): Option<Loop>
  {
    if k == 0 then Some(loop)
    else
      match Replay(loop, track, k - 1)
      case None => None
      case Some(l) =>
        match Ended(l, track)
        case None => None
        case Some(e) => Some(e.0)
  }

  /** Quotient and remainder are the only ones with `k == q * n + r` and `0 <= r < n`. */
  lemma DivModUnique(k: int, n: int, q: int, r: int)
    requires n > 0 && 0 <= r < n && k == q * n + r
    ensures k % n == r
  {
    var q', r' := k / n, k % n;
    assert (q - q') * n == r' - r;
    if q > q' {
      MulAtLeast(q - q', n);
    } else if q < q' {
      MulAtLeast(q' - q, n);
    }
  }

  lemma MulAtLeast(a: int, n: int)
    requires a >= 1 && n > 0
    ensures a * n >= n
  {
  }

  /** One step from `k mod n` lands on `(k + 1) mod n`. */
  lemma StepMod(k: nat, n: nat)
    requires n > 0
    ensures Step(k % n, n) == (k + 1) % n
  {
    var q, r := k / n, k % n;
    if r + 1 < n {
      DivModUnique(k + 1, n, q, r + 1);
    } else {
      assert (q + 1) * n == q * n + n;
      DivModUnique(k + 1, n, q + 1, 0);
    }
  }

  /**
   Over an unchanged track of `n` clips a loop started by play has, after
   `k` clips ended, its cursor at `k mod n`.
   */
  lemma {:induction false} ReplayWraps(track: Track, trackNumber: nat, k: nat)
    requires |track| > 0
    ensures Replay(PlayTrack(track, trackNumber).0, track, k) == Some(Loop(trackNumber, k % |track|))
  {
    if k > 0 {
      ReplayWraps(track, trackNumber, k - 1);
      StepMod(k - 1, |track|);
    }
  }

  /**
   The play button: a loop for exactly the non-empty tracks, in ascending
   position order, each tagged with its position in the whole track list
   (empty tracks count in that numbering) and started at cursor 0.
   */
  method PlaySong(tracks: Tracks) returns (loops: seq<Loop>)
    ensures forall j :: 0 <= j < |loops| ==> loops[j].cursor == 0
    ensures forall j :: 0 <= j < |loops| ==>
      loops[j].trackNumber < |tracks| && |tracks[loops[j].trackNumber]| > 0
    ensures forall p :: 0 <= p < |tracks| && |tracks[p]| > 0 ==> Loop(p, 0) in loops
    ensures forall j, j' :: 0 <= j < j' < |loops| ==> loops[j].trackNumber < loops[j'].trackNumber
  {
    loops := [];
    var i := 0;
    while i < |tracks|
      invariant 0 <= i <= |tracks|
      invariant forall j :: 0 <= j < |loops| ==> loops[j].cursor == 0
      invariant forall j :: 0 <= j < |loops| ==>
        loops[j].trackNumber < i && |tracks[loops[j].trackNumber]| > 0
      invariant forall p :: 0 <= p < i && |tracks[p]| > 0 ==> Loop(p, 0) in loops
      invariant forall j, j' :: 0 <= j < j' < |loops| ==> loops[j].trackNumber < loops[j'].trackNumber
    {
      if |tracks[i]| > 0 {
        var (loop, _) := PlayTrack(tracks[i], i);
        loops := loops + [loop];
      }
      i := i + 1;
    }
  }
}
