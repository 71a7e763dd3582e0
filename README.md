# radarview track extraction, modelled in Dafny

radarview turns rows of roadside radar detections into vehicle tracks. For
each data row, `extract_tracks.py` runs four steps:

1. it renames detections that report a hardware port to the configured radar name;
2. it drops detections outside fixed speed and position bounds;
3. it adds global (UTM) coordinates to detections whose radar is configured exactly once;
4. it hands the survivors, with the row's timestamp, to `RadarTrackManager.update`.

The track manager keys each detection by `"<id>_<last character of the radar name>"`. It measures the tracks that are already live, starts a track for each new key, and counts a missed frame for each absent track. A track absent for more than `max_missing` frames is finalised: its length joins the run totals, and, when it is at least 100 long and ends inside the region of interest, its record joins the completed tracks and the per-road, per-type and pass-by statistics. A separate browser (`TrackScroller`) filters the completed tracks by road, vehicle type and stop state, and moves a cursor over them.

The project has one Dafny module per source file, plus shared modules:

- `wrappers.dfy` (`Wrappers`): `Option` and `Outcome`.
- `sequences.dfy` (`Sequences`): the order-preserving filter behind the list comprehensions, Python's `list.remove`, enumerations of a set in some order (for Python set iteration), and the counting dictionaries.
- `geometry.dfy` (`Geometry`): vectors, `fabs`, and the rotation. The distance routine and cosine/sine are parameters.
- `detections.dfy` (`Detections`): radar configurations, detections, data rows, and `DetectionList`. `DetectionList` is a list that callers share and that is changed in place.
- `radar_data_filter.dfy` (`RadarDataFilter`): `radarview/radar_data_filter.py`.
- `trackmanager.dfy` (`TrackManager`): `radarview/trackmanager.py`.
  - `Track` and `RadarTrackManager` are classes whose methods change their fields.
  - The manager's live tracks are mirrored as values in the ghost map `Active`. The specification function `NextActive` says what one frame does to them.
  - The ghost counter `finalized` has no Python counterpart. It counts every track finalised so far, valid or not. Every method that finalises tracks states how much it rises.
- `trackscroller.dfy` (`Scrolling`): `radarview/trackscroller.py`. The cursor is a class; the filter is a function.
- `extract_tracks.dfy` (`ExtractTracks`): the per-row step at `extract_tracks.py:37-40`. `CleanRow` gives the detections the manager receives.

Python set iteration order (the three loops of `update`, the two pass-through loops of `get_merged_dataset`) is left open. The loops take elements with `:|`, and each contract holds for the order actually taken, which is returned as a ghost enumeration of the set.

## Model

| member | source | states |
|---|---|---|
| TrackManager.Track.constructor | radarview/trackmanager.py:8-16 | a new track holds one sample in each history, a zero missing counter, the given type, road and radar, and a placeholder id |
| TrackManager.Track.AddMeasurement | radarview/trackmanager.py:18-22 | the counter goes back to 0, each history gains exactly the given sample at its end, the histories stay parallel, and type, road and radar are unchanged |
| TrackManager.PathLength | radarview/trackmanager.py:24-30 | a path length is never negative, and is 0 for at most one position |
| TrackManager.Track.Length | radarview/trackmanager.py:24-30 | the accumulating loop returns the summed distance between consecutive positions |
| TrackManager.IdleCount | radarview/trackmanager.py:32-37 | the idle count never exceeds the number of velocity samples |
| TrackManager.IdleCountIsIdleSamples | radarview/trackmanager.py:32-37 | the idle count is exactly the number of sample positions holding the zero velocity |
| TrackManager.AllIdleIffStationary | radarview/trackmanager.py:32-37 | the idle count equals the number of samples exactly when every sample is zero |
| TrackManager.Track.IdleTime | radarview/trackmanager.py:32-37 | the counting loop returns the idle count |
| TrackManager.Track.GetDict | radarview/trackmanager.py:39-52 | the exported record carries the track's fields, its histories, its length and its idle count |
| TrackManager.Measured | radarview/trackmanager.py:18-22 | a measured state has a zero counter, keeps every earlier sample, ends each history with the new sample, stays well formed, and changes nothing else |
| TrackManager.Key | radarview/trackmanager.py:70 | a detection's key ends with the last character of its radar name |
| TrackManager.KeyIdentity | radarview/trackmanager.py:70 | two detections share a key exactly when they carry the same id and their radar names end alike, so the key identifies a track and radars such as `A1` and `B1` feed one track |
| TrackManager.RoadLabel | radarview/trackmanager.py:88 | the road label exists exactly when the radar name starts with A to Q; it is then a 1- or 2-character prefix of the name, 2 exactly when a digit follows the letter |
| TrackManager.FrameMap | radarview/trackmanager.py:70 | every detection's key is in the frame map, and every entry is a detection of the row stored under its own key |
| TrackManager.FrameMapLastWins | radarview/trackmanager.py:70 | among detections sharing a key, the frame map keeps the last one |
| TrackManager.CheckFrame | radarview/trackmanager.py:69-91 | `update` fails on an empty radar name exactly when the row has one, and goes through exactly when every radar name is non-empty, every frame entry has UTM keys, and every new key's radar yields a road label |
| TrackManager.RadarTrackManager.constructor | radarview/trackmanager.py:55-67 | a new manager has no tracks, no completed tracks, zero counters (none finalised yet), and the given window and region |
| TrackManager.RadarTrackManager.IsValidTrack | radarview/trackmanager.py:124-131 | a track is valid exactly when its length reaches the minimum and its last position is in the region of interest |
| TrackManager.RadarTrackManager.UpdateStatistics | radarview/trackmanager.py:104-122 | the length is appended; the road and type counters are bumped; the pass-by count rises exactly for a track with no idle sample |
| TrackManager.RadarTrackManager.GetCompleteTracks | radarview/trackmanager.py:156-157 | returns the completed records, each long enough and ending in the region of interest |
| TrackManager.RadarTrackManager.Accounting | radarview/trackmanager.py:96-122 | one length per completed track; the road and type counters each sum to their number; pass-bys do not outnumber completed tracks, which do not outnumber finalised ones; the complete length never exceeds the total |
| TrackManager.CountersAgree | radarview/trackmanager.py:104-122 | the statistics derived from any list of records agree in size with it |
| TrackManager.StatisticsSnoc | radarview/trackmanager.py:104-122 | one more record extends each statistic by that record alone |
| TrackManager.StatsAfterValid | radarview/trackmanager.py:96-101 | finalising a valid track keeps the statistics consistent with the completed tracks |
| TrackManager.StatsAfterInvalid | radarview/trackmanager.py:96-97 | finalising an invalid track only raises the total length, which stays at least the complete length |
| TrackManager.RadarTrackManager.ApplyMeasurement | radarview/trackmanager.py:78-81 | one updated key: its track is measured from the frame, nothing else changes |
| TrackManager.RadarTrackManager.MeasureKnown | radarview/trackmanager.py:78-81 | the first loop measures exactly the update keys and leaves the other tracks and the statistics alone |
| TrackManager.RadarTrackManager.StartTrack | radarview/trackmanager.py:83-91 | one new key: a fresh track with that id, on the labelled road, is stored under it, and the track count rises by one |
| TrackManager.RadarTrackManager.StartNew | radarview/trackmanager.py:83-91 | the second loop starts exactly the new keys and raises the track count by their number |
| TrackManager.RadarTrackManager.Finalize | radarview/trackmanager.py:95-102 | the length joins the total; the record joins the completed tracks exactly when the track is valid; one more track is finalised; the statistics stay consistent |
| TrackManager.RadarTrackManager.Retire | radarview/trackmanager.py:94-102 | a miss past the window finalises the missed track, counts it as finalised, and removes its key |
| TrackManager.RadarTrackManager.CountMiss | radarview/trackmanager.py:94-95 | a miss within the window raises the track's counter and leaves the statistics alone |
| TrackManager.RadarTrackManager.MarkMissing | radarview/trackmanager.py:93-102 | the counter rises by one; the track is finalised, counted as finalised and removed exactly when it exceeds the window |
| TrackManager.RadarTrackManager.MissAbsent | radarview/trackmanager.py:93-102 | the third loop misses exactly the absent keys and finalises, in the returned order, exactly those past the window; the finalised count rises by their number |
| TrackManager.RadarTrackManager.ArriveFrame | radarview/trackmanager.py:74-91 | the first two loops, run on the key sets of lines 74-76, measure the update keys and start the new ones |
| TrackManager.RadarTrackManager.CloseFrame | radarview/trackmanager.py:93-102 | after the first two loops, the third one yields the next active tracks and finalises exactly the frame's expired keys, counting each one finalised |
| TrackManager.RadarTrackManager.ApplyFrame | radarview/trackmanager.py:71-102 | a ready frame takes the live tracks to `NextActive`, raises the track count by the number of new keys, adds the finalised tracks' lengths and valid records, and raises the finalised count by their number |
| TrackManager.RadarTrackManager.Update | radarview/trackmanager.py:69-102 | `update` either fails with the error its row raises and changes nothing, or applies the frame of the row's key map as `ApplyFrame` states, finalised count included |
| TrackManager.NextActive | radarview/trackmanager.py:71-102 | after a frame the live keys are the frame's keys plus the earlier live keys not finalised, and no finalised key stays live |
| TrackManager.PhasesCompose | radarview/trackmanager.py:74-102 | the three loops, on the key sets of lines 74-76, compose to `NextActive` |
| TrackManager.ExpiredAreFinalized | radarview/trackmanager.py:93-102 | the keys the third loop expires are the frame's finalised keys, and it finalises their pre-frame states |
| TrackManager.FrameKeysActive | radarview/trackmanager.py:74-91 | after a frame, every key of the frame map is live with counter 0, the frame's timestamp, position and velocity last; a known track keeps its earlier samples and fields; a new one has the key as id and the labelled road |
| TrackManager.AbsentTrackStep | radarview/trackmanager.py:93-102 | an absent track's counter rises by exactly one and nothing else changes; it leaves exactly when it passes the window, that is exactly when it is finalised |
| TrackManager.AbsentThroughout | radarview/trackmanager.py:93-102 | over a run of frames without its key, a track stays live exactly while its counter plus the number of frames is within the window, and an inactive key does not reappear |
| TrackManager.GraceOfTwoFrames | radarview/trackmanager.py:93-102 | with `max_missing = 2`, a just-measured track survives two absent frames and is removed on the third |
| Sequences.TallyCounts | radarview/trackmanager.py:108-118 | a counting dictionary maps exactly the values present to their number of occurrences |
| Sequences.TallySum | radarview/trackmanager.py:108-118 | the counts of a counting dictionary sum to the number of values counted |
| Sequences.RemoveFirst | radarview/radar_data_filter.py:115 | `list.remove` drops exactly the first element equal to the value and keeps the others in their order |
| Sequences.FilterSingleton | radarview/radar_data_filter.py:94-95 | a comprehension keeps exactly one element exactly when exactly one position satisfies its condition, duplicates counting separately; that element is the one kept |
| RadarDataFilter.RadarNames | radarview/radar_data_filter.py:11 | the radar names, one per configured radar, in configuration order |
| RadarDataFilter.MatchingRadars | radarview/radar_data_filter.py:94 | the radars matched are exactly the configured ones with that name; there is exactly one exactly when exactly one configuration entry carries the name (two identical entries count twice), and it is then that entry |
| RadarDataFilter.HasOneRadar | radarview/radar_data_filter.py:94-95 | the `len(matching_radar) == 1` test holds exactly when exactly one configuration entry carries the detection's radar name |
| RadarDataFilter.OutOfBounds | radarview/radar_data_filter.py:106-113 | a detection is kept exactly when its class is not excluded, its along-track speed is in `(-max, 0]`, and its across-track speed and both coordinates are strictly inside their bounds |
| RadarDataFilter.NotApproachingCar | radarview/radar_data_filter.py:120-122 | a detection is kept exactly when it is not a bicycle, its along-track speed is in `[-50, 0]` and its across-track speed in `[-2, 2]` |
| RadarDataFilter.RemoveExcluded | radarview/radar_data_filter.py:114-116 | removing each excluded detection by value leaves exactly the others, in order |
| RadarDataFilter.FilterDetections | radarview/radar_data_filter.py:104-116 | the same list is returned; it keeps, in order, exactly the detections within every bound and of no excluded class |
| RadarDataFilter.LeaveOnlyApproachingCars | radarview/radar_data_filter.py:118-125 | the same list is returned; it keeps, in order, exactly the non-bicycles approaching within the speed limits |
| RadarDataFilter.ToUtm | radarview/radar_data_filter.py:96-100 | a detection at the radar lands on the radar's UTM origin, a stationary one stays stationary, and for a radar facing along the easting axis (cosine 1, sine 0) the conversion is a pure translation |
| RadarDataFilter.ToUtmInverse | radarview/radar_data_filter.py:96-100 | for an angle whose cosine and sine square-sum to 1, rotating the global speed, and the global position relative to the radar's origin, back by that angle gives the local values |
| RadarDataFilter.XyToUtm | radarview/radar_data_filter.py:78-88 | a detection without exactly one matching radar is unchanged; the conversion never touches id, radar, class or UTM keys |
| RadarDataFilter.ConvertXyToUtm | radarview/radar_data_filter.py:75-89 | a converted copy of the same length, element by element |
| RadarDataFilter.WithUtm | radarview/radar_data_filter.py:94-100 | only the UTM keys change; they are written exactly when one radar matches |
| RadarDataFilter.UtmStep | radarview/radar_data_filter.py:93-101 | one element of `add_utm` extends the converted prefix and the result list by that element alone |
| RadarDataFilter.AddUtm | radarview/radar_data_filter.py:91-102 | every detection of the shared list gains its UTM keys where one radar matches; a fresh list holds exactly those, in order, all with UTM keys |
| RadarDataFilter.DigitsValue | radarview/radar_data_filter.py:134 | a string of n digits has a value below 10^n, so a five-digit port is below 100000 |
| RadarDataFilter.DigitsValueConcat | radarview/radar_data_filter.py:134 | positional notation: the digits of a followed by those of b are worth a's value times 10^|b| plus b's value |
| RadarDataFilter.DigitsValueLeading | radarview/radar_data_filter.py:134 | the leading digit is worth its value times 10^(n-1), and the other digits count as a number of their own |
| RadarDataFilter.SearchPortFrom | radarview/radar_data_filter.py:130 | a port found from a position on has five digits and fits in the string from there |
| RadarDataFilter.SearchPort | radarview/radar_data_filter.py:130-134 | `re.search` finds a port exactly when the tag and five digits occur, and the port is the value of the leftmost occurrence's digits |
| RadarDataFilter.SearchPortFromLeftmost | radarview/radar_data_filter.py:130 | the port search succeeds exactly when the tag and five digits occur, and yields the leftmost occurrence's digits |
| RadarDataFilter.NamesWithPort | radarview/radar_data_filter.py:135-136 | the names found are exactly those of radars on that port; there is exactly one exactly when exactly one configuration entry is on the port (two entries count twice, even with the same name), and it is then that entry's name |
| RadarDataFilter.RenamedByPort | radarview/radar_data_filter.py:128-137 | renaming touches only the radar field, which either stays or becomes a configured radar name |
| RadarDataFilter.RenamedByPortChanges | radarview/radar_data_filter.py:128-137 | only the radar field changes; a known name is kept; a detection is renamed exactly when its name is unknown, carries a port, and exactly one radar has that port, whose name it takes |
| RadarDataFilter.MapPortsToRadarNames | radarview/radar_data_filter.py:127-138 | the same row is returned; its list keeps its length and each detection is renamed as `RenamedByPort` says |
| RadarDataFilter.Positions | radarview/radar_data_filter.py:40-41 | one point per detection, its local position |
| RadarDataFilter.PairsWithin | radarview/radar_data_filter.py:71-72 | every pair found from row i on indexes a row at or after i and a column of the distance matrix |
| RadarDataFilter.PairsWithinMembers | radarview/radar_data_filter.py:71-72 | the pairs found from a position on are exactly the pairs within tolerance not before it |
| RadarDataFilter.PairsWithinOrdered | radarview/radar_data_filter.py:72 | the pairs come strictly in row-major order |
| RadarDataFilter.FindSameMeasurements | radarview/radar_data_filter.py:68-73 | two parallel index lists, both empty when either side is empty |
| RadarDataFilter.FindSameMeasurementsExact | radarview/radar_data_filter.py:68-73 | a pair is reported exactly when both indices are in range and within tolerance, each once, in row-major order |
| RadarDataFilter.FindSameInRange | radarview/radar_data_filter.py:44 | every reported index is within its side |
| RadarDataFilter.Merged | radarview/radar_data_filter.py:57-63 | a merged detection is the side-1 detection with id "-1" and radar "A1", its position and speed halfway between the two sides' |
| RadarDataFilter.PassThrough | radarview/radar_data_filter.py:50-54 | one pass-through loop appends the detection of each index of the set once, in the order returned |
| RadarDataFilter.MergedPairs | radarview/radar_data_filter.py:56-64 | one merged detection per pair |
| RadarDataFilter.GetMergedDataset | radarview/radar_data_filter.py:38-66 | the unmatched side-1 detections, then the unmatched side-2 detections, each in some enumeration of its index set, then the pairs' merged detections |
| RadarDataFilter.MergedSize | radarview/radar_data_filter.py:45-64 | the output size is the unmatched side-1 count plus the unmatched side-2 count plus the number of pairs |
| RadarDataFilter.MergedPairsAreMeans | radarview/radar_data_filter.py:56-64 | each merged detection comes from a pair within tolerance: means of position and speed, id "-1", radar "A1", the rest from side 1; neither index is passed through |
| RadarDataFilter.MergeWithEmptySide | radarview/radar_data_filter.py:44-54 | with one side empty the output is a permutation of the other side |
| Geometry.Abs | radarview/radar_data_filter.py:109 | `fabs` is non-negative and equals the value or its negation |
| Scrolling.StopsLabel | radarview/trackscroller.py:20 | "with" exactly for a track with idle samples, otherwise "without" |
| Scrolling.IsValidTrack | radarview/trackscroller.py:15-23 | a track passes exactly when its road and type are selected and its stop state ("with" if it has idle samples, else "without") is selected |
| Scrolling.FilteredTracks | radarview/trackscroller.py:12 | the filtered list is no longer than the dataset and holds exactly the dataset's tracks that pass |
| Scrolling.FilteredAppend | radarview/trackscroller.py:12 | filtering works element by element: the filter of a concatenation is the concatenation of the filters |
| Scrolling.AllSelectedKeepsAll | radarview/trackscroller.py:12 | with both stop states and every road and type of the dataset selected, the filtered list is the dataset |
| Scrolling.StepsStayInBounds | radarview/trackscroller.py:56-68 | both steps keep `iMin <= i <= max(iMin, iMax)` |
| Scrolling.StepsUndo | radarview/trackscroller.py:56-65 | a step that moved is undone by the opposite step |
| Scrolling.NextTimesReaches | radarview/trackscroller.py:56-58 | n presses of `next` move the cursor n places, stopping at the last track |
| Scrolling.TrackScroller.CursorInBounds | radarview/trackscroller.py:56-68 | whenever a track passes the filter, the cursor indexes one |
| Scrolling.TrackScroller.constructor | radarview/trackscroller.py:5-13 | the filtered list is fixed, the cursor starts at `iMin = 0`, and `iMax` is one less than the filtered count |
| Scrolling.TrackScroller.Next | radarview/trackscroller.py:56-61 | the cursor moves forward by exactly one while below `iMax`, else stays; only the cursor changes; the track shown is the one now under it |
| Scrolling.TrackScroller.Prev | radarview/trackscroller.py:63-68 | the cursor moves back by exactly one while above `iMin`, else stays; only the cursor changes; the track shown is the one now under it |
| ExtractTracks.Renamed | extract_tracks.py:37 | port renaming of a whole list, element by element |
| ExtractTracks.Located | extract_tracks.py:39 | the UTM keys of a whole list, element by element |
| ExtractTracks.CleanRow | extract_tracks.py:37-39 | the manager receives at most one detection per raw detection |
| ExtractTracks.CleanRowSound | extract_tracks.py:37-39 | every detection reaching the manager is within bounds, names exactly one configured radar and has UTM keys; every renamed in-bounds detection of a configured radar reaches it |
| ExtractTracks.UtmFrameNeverMissing | radarview/trackmanager.py:79-80 | a list whose detections all have UTM keys never fails `update` for want of them |
| ExtractTracks.LabelledFramePasses | radarview/trackmanager.py:69-91 | a list whose detections all have UTM keys and a labelled radar name always passes `update` |
| ExtractTracks.CleanRowHasUtm | extract_tracks.py:37-40 | a cleaned row never fails `update` for want of UTM keys |
| ExtractTracks.LabelledRadarsNeverFail | extract_tracks.py:37-40 | when every configured radar name starts with a road letter, every cleaned row passes `update` |
| ExtractTracks.CleanDetections | extract_tracks.py:37-39 | the row's own list becomes its renamed, in-bounds detections with UTM keys written in; a fresh list holds `CleanRow` of the row |
| ExtractTracks.ProcessRow | extract_tracks.py:37-40 | a row that passes takes the live tracks to `NextActive` of its cleaned frame, counts its new keys, and finalises exactly the frame's expired keys, adding their lengths to the total, their valid records to the completed tracks and their number to the finalised count; a row that fails leaves the manager unchanged with the error `update` raises |

## Left out

- The Euclidean distance (`scipy`), the polygon test (`shapely`) and cosine/sine (`math`) are foreign calls. They are parameters (`dist`, `inRoi`, `Trig`); the model relies only on distances being non-negative.
- Floating point: coordinates, speeds and lengths are `real`, so rounding is not modelled.
- `get_results_dict` (means and deviations with numpy, a division by the total length), `print_tracks`, `describe_track`, and the plotting in `update_axes` and `clean_axes` are not modelled. They are statistics over floats, console output and UI.
- `RadarDataFilter.filter`, the `is_point_in_polygon` stub, `radars_from_config`, and the file, JSON and argparse handling of `extract_tracks.py` and `visualize_tracks.py` are I/O or not on the extraction path. The extraction loop over the rows of a file is modelled for one row (`ProcessRow`).
- Detections are values, so dictionary aliasing is only modelled through `DetectionList`. The list `add_utm` returns shares its dictionaries with the input list in Python; the model gives both lists the same updated values.
- `deepcopy` in `get_complete_tracks`: records are immutable values, so the copy is the list itself.
- TrackManager.RadarTrackManager.Update: Python raises part-way through `update`, leaving the tracks already processed changed. The model checks the row first and leaves the manager unchanged on failure. When several errors are possible, which one Python raises depends on set order; the model reports the first of empty radar name, missing UTM keys, missing road label.
- TrackManager.RadarTrackManager.Update: it does not state that each new track object is freshly allocated (`StartTrack` does); its contract is about the track states, the counters and the completed records.
- TrackManager.Track.constructor: the placeholder id is the string "-1" rather than the integer -1, since every key is a string and the manager overwrites it at once.
- RadarDataFilter.AddUtm: the loop updates a local copy of the list and writes it back once after the loop. The final state is the same as updating each element in place.
- `approach_only` in `filter_detections` is unused by the source and is not modelled; the bounds are `DefaultBounds`, the defaults `extract_tracks.py` relies on.
- `\d` in the two regular expressions is modelled as the ASCII digits 0-9; Python's Unicode digits are not modelled.
- `max_missing` and the region of interest are constructor parameters; `min_length` is the constant 100 used by `update`.
