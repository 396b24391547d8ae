/**
 The track list: an ordered list of tracks, each an ordered list of
 registry positions (the same clip may occur several times and on several
 tracks). Track numbers are positions in the list.

 An event handler that indexes a track that does not exist throws before
 it changes anything; those operations return `None`, leaving the caller's
 state as it was.
 */
module TrackList {
  import opened SeqUtil

  type Track = seq<nat>
  type Tracks = seq<Track>

  /** The four empty tracks the page starts with. */
  const InitialTracks: Tracks := [[], [], [], []]

  /** Every track entry names a clip that exists in a registry of `size` clips. */
  predicate WellFormed(tracks: Tracks, size: nat)
  {
    forall t, j :: 0 <= t < |tracks| && 0 <= j < |tracks[t]| ==> tracks[t][j] < size
  }

  /** `tracks[t].push(sample)`; an absent track number throws. */
  function AddSample(tracks: Tracks, t: nat, sample: nat): (r: Option<Tracks>)
    ensures r.None? <==> t >= |tracks|
    ensures r.Some? ==> |r.value| == |tracks|
    ensures r.Some? ==> r.value[t] == tracks[t] + [sample]
    ensures r.Some? ==> forall u :: 0 <= u < |tracks| && u != t ==> r.value[u] == tracks[u]
  {
    if t < |tracks| then Some(tracks[t := tracks[t] + [sample]]) else None
  }

  /**
   The remove button of a track entry: the first occurrence of the clip in
   the track is spliced out; a clip that no longer occurs leaves the track
   as it is.
   */
  function RemoveFirst(track: Track, sample: nat): (r: Track)
    ensures sample !in track ==> r == track
    ensures sample in track ==> |r| == |track| - 1
    ensures sample in track ==>
      exists k :: 0 <= k < |track| && track[k] == sample && sample !in track[..k]
        && r == track[..k] + track[k + 1..]
    ensures multiset(r) == multiset(track) - multiset{sample}
  {
    var k := IndexOf(track, sample);
    if k != -1 then
      assert track[..k] + track[k + 1..] == Splice1(track, k);
      Splice1(track, k)
    else
      assert multiset(track)[sample] == 0;
      track
  }

  /** The remove button applied to track `t`; an absent track number throws. */
  function RemoveSample(tracks: Tracks, t: nat, sample: nat): (r: Option<Tracks>)
    ensures r.None? <==> t >= |tracks|
    ensures r.Some? ==> |r.value| == |tracks|
    ensures r.Some? ==> r.value[t] == RemoveFirst(tracks[t], sample)
    ensures r.Some? ==> multiset(r.value[t]) == multiset(tracks[t]) - multiset{sample}
    ensures r.Some? ==> forall u :: 0 <= u < |tracks| && u != t ==> r.value[u] == tracks[u]
  {
    if t < |tracks| then Some(tracks[t := RemoveFirst(tracks[t], sample)]) else None
  }

  /** `tracks.splice(k, 1)`: track `k` goes, later tracks move down one. */
  function DeleteTrack(tracks: Tracks, k: nat): (r: Tracks)
    ensures k >= |tracks| ==> r == tracks
    ensures k < |tracks| ==> |r| == |tracks| - 1
    ensures forall u :: 0 <= u < k && u < |r| ==> r[u] == tracks[u]
    ensures forall u :: k <= u < |r| ==> r[u] == tracks[u + 1]
  {
    Splice1(tracks, k)
  }

  /** The add-track button: a new empty track whose number is the old track count. */
  function AddTrack(tracks: Tracks): (r: (Tracks, nat))
    ensures r.1 == |tracks| && |r.0| == |tracks| + 1
    ensures r.0[r.1] == []
    ensures forall u :: 0 <= u < |tracks| ==> r.0[u] == tracks[u]
  {
    (tracks + [[]], |tracks|)
  }

  // ---- Properties relating the operations ----

  /** Removing a clip from the end of a track that did not otherwise hold it gives the track back. */
  lemma RemoveAppended(track: Track, sample: nat)
    requires sample !in track
    ensures RemoveFirst(track + [sample], sample) == track
  {
    var grown := track + [sample];
    assert grown[..|track|] == track;
    IndexOfBefore(grown, |track|, sample);
  }

  /** Removing a clip that was just appended to a track that did not hold it restores the track list. */
  lemma AddThenRemove(tracks: Tracks, t: nat, sample: nat)
    requires t < |tracks| && sample !in tracks[t]
    ensures AddSample(tracks, t, sample).Some?
    ensures RemoveSample(AddSample(tracks, t, sample).value, t, sample) == Some(tracks)
  {
    RemoveAppended(tracks[t], sample);
    var added := tracks[t := tracks[t] + [sample]];
    assert added[t := tracks[t]] == tracks;
  }

  /** In general adding then removing the same clip leaves the track's contents, as a bag, unchanged. */
  lemma AddThenRemoveContents(tracks: Tracks, t: nat, sample: nat)
    requires t < |tracks|
    ensures AddSample(tracks, t, sample).Some?
    ensures multiset(RemoveSample(AddSample(tracks, t, sample).value, t, sample).value[t])
      == multiset(tracks[t])
  {
    var added := AddSample(tracks, t, sample).value;
    assert multiset(added[t]) == multiset(tracks[t]) + multiset{sample};
  }

  /** Deleting the track that was just added restores the track list. */
  lemma AddTrackThenDelete(tracks: Tracks)
    ensures DeleteTrack(AddTrack(tracks).0, AddTrack(tracks).1) == tracks
  {
    var (grown, id) := AddTrack(tracks);
    assert grown[..id] == tracks;
  }

  /** Adding an in-range clip keeps every entry a registry position. */
  lemma AddSampleKeepsWellFormed(tracks: Tracks, size: nat, t: nat, sample: nat)
    requires WellFormed(tracks, size) && sample < size
    ensures AddSample(tracks, t, sample).Some? ==> WellFormed(AddSample(tracks, t, sample).value, size)
  {
    if t < |tracks| {
      var r := AddSample(tracks, t, sample).value;
      forall u, j | 0 <= u < |r| && 0 <= j < |r[u]|
        ensures r[u][j] < size
      {
        if u == t && j == |tracks[t]| {
          assert r[u][j] == sample;
        } else {
          assert r[u][j] == tracks[u][j];
        }
      }
    }
  }

  /** Removing a clip keeps every entry a registry position. */
  lemma RemoveSampleKeepsWellFormed(tracks: Tracks, size: nat, t: nat, sample: nat)
    requires WellFormed(tracks, size)
    ensures RemoveSample(tracks, t, sample).Some? ==> WellFormed(RemoveSample(tracks, t, sample).value, size)
  {
    if t < |tracks| {
      var r := RemoveSample(tracks, t, sample).value;
      forall u, j | 0 <= u < |r| && 0 <= j < |r[u]|
        ensures r[u][j] < size
      {
        if u == t {
          assert r[t][j] in multiset(r[t]);
          assert r[t][j] in multiset(tracks[t]);
          var j' :| 0 <= j' < |tracks[t]| && tracks[t][j'] == r[t][j];
        } else {
          assert r[u] == tracks[u];
        }
      }
    }
  }

  /** Deleting a track keeps every entry a registry position. */
  lemma DeleteTrackKeepsWellFormed(tracks: Tracks, size: nat, k: nat)
    requires WellFormed(tracks, size)
    ensures WellFormed(DeleteTrack(tracks, k), size)
  {
    var r := DeleteTrack(tracks, k);
    forall u, j | 0 <= u < |r| && 0 <= j < |r[u]|
      ensures r[u][j] < size
    {
      if u < k {
        assert r[u] == tracks[u];
      } else {
        assert r[u] == tracks[u + 1];
      }
    }
  }

  /** Adding a track keeps every entry a registry position. */
  lemma AddTrackKeepsWellFormed(tracks: Tracks, size: nat)
    requires WellFormed(tracks, size)
    ensures WellFormed(AddTrack(tracks).0, size)
  {
    var r := AddTrack(tracks).0;
    forall u, j | 0 <= u < |r| && 0 <= j < |r[u]|
      ensures r[u][j] < size
    {
      assert u < |tracks| && r[u] == tracks[u];
    }
  }
}
