# Music maker: a model of the sequencer core

The music maker is a single-page browser application. The user arranges short audio clips ("samples") on
several tracks and plays all tracks together, each track looping. This project models the state behind the
page and the event handlers that change it:

- **the sample registry** (module `Registry`). It is an append-only list of clips. Built-in clips join when
  their metadata has loaded. Uploads join under the fixed name "New Sample". A clip's position in the
  registry is its identity everywhere else.
- **the track list** (module `TrackList`). It is a list of tracks. Each track is a list of registry positions.
  The module models adding a clip to a track, removing the first occurrence of a clip, deleting a track with
  splice semantics, and adding an empty track.
- **playback** (module `Playback`). The play button starts one loop per non-empty track. Each loop keeps a
  cursor that steps through its track and wraps to 0.
- **category browsing** (module `Categories`). The category drop-down lists the distinct values of the
  instrument table in first-appearance order. The sample-button panel lists the clips of the selected
  category.
- **the page's track containers** (module `Page`). Each track is shown in a container whose id carries a
  number. The delete and drop handlers read that number back and use it as a track position. This is where
  the defects listed under Findings live. A delete button belongs to one container, so the model
  identifies the clicked container by its position on the page, not by its id.

An event handler that indexes a track that does not exist throws before it changes anything. Those
operations return `Option` and `None` stands for "state unchanged". Tracks hold clip objects in the
application and removal finds the clip by object identity. The model stores registry positions instead. Two
equal positions name the same object, and separate uploads get separate positions.

The "ended" handler compares the advanced cursor against the track's current length and otherwise restarts
at 0. A loop whose track has shrunk below its cursor therefore restarts at 0 rather than at the cursor modulo
the new length. The model follows that code (`Playback.Step`). The "modulo the track length" reading holds
only for a track that does not change, and that case is what `Playback.ReplayWraps` proves.

## Model

| member | source | states |
|---|---|---|
| SeqUtil.IndexOf | music-maker.js:146 | `indexOf`: -1 exactly when the value is absent; otherwise the position of its first occurrence |
| SeqUtil.Splice1 | music-maker.js:148 | `splice(k, 1)`: the element at k goes, earlier elements stay, later ones shift down one, the bag loses exactly that element; an index past the end changes nothing |
| Registry.LookupFinds | music-maker.js:88 | a category lookup fails exactly when no table entry has the name, and a found category is stored under that name |
| Registry.BuiltInsHaveCategories | music-maker.js:28-33 | every built-in clip's name is a key of the instrument table, so each built-in clip is listed under some category |
| Registry.UploadHasNoCategory | music-maker.js:4-11 | "New Sample", the name every upload gets, is not a key of the instrument table |
| Registry.LoadSample | music-maker.js:18-24 | a loaded clip is appended; every earlier registry position keeps its clip |
| Registry.Upload | music-maker.js:205-213 | with no file chosen the registry is unchanged; otherwise exactly one clip named "New Sample" with the file's URL is appended and earlier positions keep their clips |
| TrackList.AddSample | music-maker.js:130-133 | fails exactly for an absent track; otherwise the clip is appended to that track and every other track is unchanged |
| TrackList.RemoveFirst | music-maker.js:146-150 | an absent clip leaves the track unchanged; a present clip loses its first occurrence only, with the entries before and after it kept in order |
| TrackList.RemoveSample | music-maker.js:144-150 | fails exactly for an absent track; otherwise that track loses the first occurrence of the clip, the rest kept in order, and every other track is unchanged |
| TrackList.DeleteTrack | music-maker.js:57-60 | the track at the position goes, earlier tracks stay, later ones move down one; a position past the end changes nothing |
| TrackList.AddTrack | music-maker.js:317-320 | a new empty track is appended; its number is the old track count; existing tracks are unchanged |
| TrackList.RemoveAppended | music-maker.js:133-148 | removing a clip just appended to a track that did not hold it gives the track back |
| TrackList.AddThenRemove | music-maker.js:130-150 | adding a clip to a track that did not hold it and then pressing its remove button restores the whole track list |
| TrackList.AddThenRemoveContents | music-maker.js:130-150 | adding then removing a clip always restores the track's contents as a bag |
| TrackList.AddTrackThenDelete | music-maker.js:317-342 | deleting the track that was just added restores the track list |
| TrackList.AddSampleKeepsWellFormed | music-maker.js:130-133 | adding an existing clip keeps every track entry a registry position |
| TrackList.RemoveSampleKeepsWellFormed | music-maker.js:146-148 | removing a clip keeps every track entry a registry position |
| TrackList.DeleteTrackKeepsWellFormed | music-maker.js:57-60 | deleting a track keeps every track entry a registry position |
| TrackList.AddTrackKeepsWellFormed | music-maker.js:319-320 | adding a track keeps every track entry a registry position |
| Playback.Step | music-maker.js:191 | the next cursor is inside a non-empty track; it is one further exactly when that is inside the track, and 0 otherwise |
| Playback.PlayTrack | music-maker.js:187-200 | a loop starts at cursor 0 on its track number and plays the track's first clip |
| Playback.Ended | music-maker.js:190-194 | on "ended" the loop stops exactly when its track is now empty; otherwise the cursor takes the step `Step` describes, which lands inside the track, the clip under it plays and the track number is kept |
| Playback.StepMod | music-maker.js:191 | one step from k mod n lands on (k + 1) mod n |
| Playback.ReplayWraps | music-maker.js:187-198 | on a track that stays the same, after k clips have ended the cursor is at k mod the track length |
| Playback.PlaySong | music-maker.js:176-184 | loops start for exactly the non-empty tracks, in ascending track order, each numbered by its position in the whole list and at cursor 0 |
| Categories.Values | music-maker.js:70 | `Object.values`: the table's values, one per entry, in declaration order |
| Categories.DistinctInOrderElements | music-maker.js:70 | the distinct list holds every value of the input, nothing else, and none twice |
| Categories.DistinctInOrderFirstAppearance | music-maker.js:70 | the distinct list is ordered by where each value first appears in the input |
| Categories.CategoryListContents | music-maker.js:68-76 | for the instrument table the drop-down offers Basses, Drums, Strings, Special, in that order |
| Categories.MatchingExact | music-maker.js:87-90 | the reference list of buttons below n holds exactly the registry positions whose name maps to the selected category, ascending |
| Categories.SampleButtons | music-maker.js:80-90 | the panel shows a button for exactly the clips whose category is the selected one, in registry order, each carrying its registry position, and never one for an upload |
| Page.TrackOf | music-maker.js:135 | on a consistent page a container's track is found exactly when the container is on the page |
| Page.TrackAt | music-maker.js:135 | on a consistent page, looking up the id of the container at a position finds the track at that position |
| Page.InitialPageAligned | music-maker.js:37-52 | the page starts with four tracks whose container ids equal their positions |
| Page.DeleteTrackAsWritten | music-maker.js:57-61 | the delete button of the clicked container splices the track list at the number in that container's id and removes exactly that container, other containers keeping their order, even when another container has the same id |
| Page.AddTrackAsWritten | music-maker.js:319-326 | the add-track handler as written appends an empty track, keeps the existing tracks, and numbers the new container by the new track's position |
| Page.AddSampleAsWritten | music-maker.js:163-167 | the drop handler as written appends the clip to the track at the container's id number and changes no other track or container; it throws exactly when no track has that position |
| Page.AfterEarlyDelete | music-maker.js:57-61 | after an aligned page loses a track other than the last, ids from that point on are one more than their positions |
| Page.DeleteAsWrittenDesyncs | music-maker.js:339-343 | after such a deletion the last container still carries id n - 1 over n - 1 tracks; its delete button removes that container but leaves the track list unchanged, so the page is out of sync |
| Page.AddAsWrittenReusesId | music-maker.js:319-326 | after such a deletion the new track's container gets an id that a container still on the page already has, so the page is out of sync |
| Page.DropAsWrittenMissesTrack | music-maker.js:163-167 | after such a deletion a clip dropped on the last container is lost |
| Page.DropAsWrittenHitsNeighbour | music-maker.js:389-393 | after such a deletion a clip dropped on a later container lands on the next container's track and its own track is left unchanged |
| Page.AsWrittenAgreesWhileAligned | music-maker.js:46-48 | while ids equal positions the handlers as written agree with the corrected ones, and adding a track keeps ids equal to positions |
| Page.DeleteTrackById | music-maker.js:57-61 | the corrected delete removes exactly the clicked container and one track and keeps the page consistent |
| Page.AddTrackById | music-maker.js:319-326 | the corrected add-track uses an unused id, shows a new empty track under it and keeps existing tracks and containers |
| Page.AddSampleById | music-maker.js:163-167 | the corrected drop fails exactly for a container not on the page and otherwise appends the clip to the track that container shows |
| Page.DeleteByIdKeepsOthers | music-maker.js:57-61 | the corrected delete leaves every other container showing the track it showed before |
| Page.AddSampleByIdKeepsOthers | music-maker.js:130-133 | the corrected drop changes no other container's track |

## Left out

- Everything the page draws is not modelled. That covers buttons, headers, radio options, the
  removal of a track entry's element, and drag-over handling. Only the container ids are kept, because the
  handlers compute track positions from them.
- Audio playback is not modelled: loading, `play()`, clip durations and the two-decimal duration label. The
  loops are pure cursor state, and the clip a loop plays is the registry position under its cursor.
- Volume control is not modelled: the per-track and per-clip volume sliders. That code has defects of its
  own, none of which touch the sequencer state. Line 248 uses an undefined `trackNumber`. Line 375 passes a
  track number where a clip number is expected. Uploaded clips have no audio element to set a volume on.
- Microphone recording and saving are not modelled: they are browser media APIs.
- Registry.LoadSample: the order in which built-in clips finish loading is decided by the browser. The
  model appends in whatever order the caller gives, and `BuiltIns` only lists the six clips.
- TrackList.AddSample: an out-of-range clip number makes the application push `undefined` and then throw
  while labelling the entry. The model pushes the number itself. All out-of-range numbers are then
  distinct, whereas in the application every such entry is the same `undefined`.
- TrackList.WellFormed is preserved only for in-range clip numbers, for the reason just given.
- Playback.Ended: a loop keeps the track list entry it was started with. A track deleted after play
  keeps looping on its detached contents; the model passes the loop's current track contents explicitly.
- Playback.PlaySong: the loops run concurrently and are not modelled as interleaved events. Each loop's
  behaviour is given by `Ended` and `Replay`.
- Track numbers and clip numbers reach the handlers as strings. The model treats them as the numbers they
  spell; property keys that are not numerals are not modelled.
- The remove button of a track entry captures its track number when the entry is added. After an early
  track deletion it acts on a different track, in the same way as the drop handler under Findings. It is
  not modelled separately.
- Adding a clip by clicking its button reads the track number from the checked radio option
  (music-maker.js:115-116). Added tracks' options carry the same number as their container's id (line 352), so
  after an early deletion this path shares the drop handler's defect under Findings. The delete handlers
  also leave the deleted track's radio option on the page. Radio options are not modelled.
- The drop handler of added containers reads the id from the event target. That can be a child element
  with no id, in which case the drop throws. This is not modelled.

## Findings

| source | as written | input that shows it | evidently intended | confidence | as-written member | corrected member |
|---|---|---|---|---|---|---|
| music-maker.js:57-60 | the delete button splices the track list at the number in its container's id, which stops being the track's position after any earlier track is deleted | on the initial page delete container 0, then delete container 3: the container goes but no track does | delete the track the clicked container shows | not executed | Page.DeleteAsWrittenDesyncs | Page.DeleteByIdKeepsOthers |
| music-maker.js:325-326 | a new container is numbered by the new track count minus one, which can equal a live container's number | on the initial page delete container 0, then add a track: two containers are numbered 3 | give each new container an unused id | not executed | Page.AddAsWrittenReusesId | Page.AddTrackById |
| music-maker.js:166-167 | the drop handler appends to the track at the container's id number | on the initial page delete container 0, then drop a clip on container 1: it lands on container 2's track | append to the track the container shows | not executed | Page.DropAsWrittenHitsNeighbour | Page.AddSampleById |
