# MicroWatcher frame deduplication, in Dafny

MicroWatcher watches a camera for microbuses. A detector turns each frame into an
ordered batch of detections. Each detection is an integer bounding box and a
confidence score. The camera loop then decides, detection by detection, whether it
is a new sighting worth storing or a re-observation of a bus it has just stored.

This project models that decision and the dictionary `last_detection_time` that the
loop keeps across frames:

- Every detection of a frame is judged at the frame's single timestamp `now`.
- Its centre is the midpoint of its box.
- It is suppressed when some remembered entry has a centre strictly closer than the
  distance threshold (50 pixels) and a time strictly less than the detection delay
  (5 seconds) before `now`.
- Otherwise a record (box, score, time) goes to the database, and the box becomes a
  key of the dictionary, holding `now` and the centre. This overwrites any older
  entry under the same box.
- A suppressed detection changes nothing. In particular the entry that matched it
  is not refreshed. Nothing is ever removed from the dictionary.

Files:

- `dedup_spec.dfy` (module `DedupSpec`): the data, and the rule as pure functions.
  `Run` gives the table and the per-detection decisions after one batch. `Accepted`
  gives the records in order.
- `dedup_props.dfy` (module `DedupProps`): lemmas about the rule. They cover the
  distance test, the strict boundaries, the effect of each decision, the sequential
  semantics inside a batch, the records and the growth of the table.
- `camera_stream.dfy` (module `CameraStream`): the imperative loop. `ScanForMatch`
  is the scan over the dictionary's keys, with its early exit. The class
  `Deduplicator` holds the dictionary. Its method `HandleDetection` is the body of
  the per-detection loop, and `ProcessFrame` runs that loop over one frame. It is
  proved to produce exactly what `Run` and `Accepted` specify.

Representation:

- Centres, times, scores and thresholds are exact reals.
- The test `sqrt(dx² + dy²) < 50` is written as `dx² + dy² < 50²`, guarded by
  `0 < threshold`. `NearIffDistanceBelow` proves the two agree for every threshold.
- The loop's own thresholds are `DedupSpec.SourceConfig`, i.e. 50 pixels and 5
  seconds. The lemmas take the thresholds as a parameter.
- The scan in `ScanForMatch` picks the next key with `:|`. Its postcondition
  therefore holds for every order in which the dictionary might be iterated.

The code has no eviction and keys its entries by the exact box. So the table only
grows (`TableGrowth`), and a repeated box overwrites its own key
(`OverwrittenEntryIsStale`). The code itself produces only database records. The
per-detection decisions belong to the specification (`Outcome.decisions`), and
`ProcessFrame` returns the records.

## Model

| member | source | states |
|---|---|---|
| `CameraStream.ScanForMatch` | src/camera_stream.py:72-83 | The scan, with its early exit, reports a match exactly when some remembered entry is strictly within the distance threshold and strictly younger than the delay. This holds whatever order the keys are visited in. |
| `CameraStream.Deduplicator.constructor` | src/camera_stream.py:49-51 | The loop starts with an empty dictionary and the given thresholds, and no detection has been accepted yet. |
| `CameraStream.Deduplicator.HandleDetection` | src/camera_stream.py:66-95 | It keeps the class invariant: midpoint centres, and no more keys than detections accepted. One detection is accepted exactly when no entry of the dictionary as it stood is strictly near its centre and strictly younger than the delay. When accepted, only its own box is written, with the frame time and the box's midpoint. When suppressed, the dictionary is left exactly as it was. The count of accepted detections grows by one only on acceptance. |
| `CameraStream.Deduplicator.ProcessFrame` | src/camera_stream.py:64-95 | After one frame the dictionary is the table `Run` specifies for the old dictionary and the batch. The records returned are the accepted detections in order. The old keys are all kept. The count of accepted detections grows by the number of records. Every entry's centre stays the midpoint of its box, and the dictionary never has more keys than detections accepted so far. |
| `DedupSpec.Run` | src/camera_stream.py:64-95 | A batch yields exactly one decision per detection. Each accepted decision's record is that detection's box and score stamped with the frame time. No key of the starting table is lost. |
| `DedupSpec.Accepted` | src/camera_stream.py:85-92 | There are never more records than decisions. |
| `DedupSpec.AcceptedIndices` | src/camera_stream.py:65-92 | Gives the positions of the accepted decisions in strictly increasing order. Every accepted position appears, and the k-th record is the record of the k-th accepted position. |
| `DedupProps.NearIffDistanceBelow` | src/camera_stream.py:78-81 | Take the Euclidean distance between two centres, the non-negative root of their squared distance. The squared-distance test holds exactly when that distance is strictly below the threshold, for a threshold of any sign. |
| `DedupProps.DistanceBoundaryDoesNotMatch` | src/camera_stream.py:81 | An entry whose centre is exactly at the distance threshold does not suppress. |
| `DedupProps.AgeBoundaryDoesNotMatch` | src/camera_stream.py:81 | An entry exactly as old as the detection delay does not suppress. |
| `DedupProps.SourceBoundaries` | src/camera_stream.py:50-81 | With 50 pixels and 5 seconds: an entry suppresses a centre 49 pixels away at age 4. It does not suppress one exactly 50 pixels away, nor the nearer one at age exactly 5. |
| `DedupProps.RunPrefix` | src/camera_stream.py:65 | Judging a prefix of a batch gives the first decisions of the whole batch: later detections never change earlier decisions. |
| `DedupProps.AcceptIffNoLiveMatch` | src/camera_stream.py:72-85 | Detection i is accepted exactly when no entry of the table left by detections 0..i-1 is both strictly near its centre and strictly younger than the delay. |
| `DedupProps.DecisionEffect` | src/camera_stream.py:85-95 | A suppressed detection leaves the table unchanged: nothing is added and the matching entry's time is not refreshed. An accepted one adds its own box as a key, mapped to the frame time and its centre. Every other key keeps its value. |
| `DedupProps.OverwrittenEntryIsStale` | src/camera_stream.py:66-95 | One detection judged against any table: when it is accepted and its box is already a key, the entry it overwrites is at least as old as the detection delay. This holds provided every centre is its box's midpoint and the distance threshold is positive. |
| `DedupProps.OverwrittenEntryIsStaleAt` | src/camera_stream.py:65-95 | The same at any position i of a batch that starts from a table of midpoint centres, with a positive distance threshold. When detection i is accepted and its box is already a key of the table left by detections 0..i-1, that entry is at least as old as the detection delay. |
| `DedupProps.AcceptedStaysLive` | src/camera_stream.py:65-95 | An accepted detection's entry, holding the frame time and its centre, is still in the table at the end of the batch. |
| `DedupProps.EarlierAcceptSuppressesLater` | src/camera_stream.py:64-95 | When the delay is positive, an accepted detection suppresses every later detection in the same batch whose centre is strictly within the distance threshold of its own. |
| `DedupProps.SameDetectionTwice` | src/camera_stream.py:64-95 | When both thresholds are positive (the code's are 50 and 5), the same detection twice in one frame: the second copy is always suppressed and leaves the table as the first left it. |
| `DedupProps.OrderSensitivity` | src/camera_stream.py:65-95 | With a 5-pixel threshold and a 5-second delay, the boxes (-1, -1, 1, 1) and (0, 0, 2, 2), centred at (0, 0) and (1, 1), give accept-then-suppress in either order. Which one is recorded depends on input order alone. |
| `DedupProps.RecordsInInputOrder` | src/camera_stream.py:85-92 | A batch has at most as many records as detections. Each record carries an accepted detection's box and score with the frame time, and records appear in input order. |
| `DedupProps.RunKeepsMidpoints` | src/camera_stream.py:69-95 | If every entry's centre is the midpoint of its box before a batch, the same holds after it. |
| `DedupProps.TableGrowth` | src/camera_stream.py:49-95 | No key is ever removed. A batch adds at most as many keys as it produces records. |
| `DedupProps.ReobservationScenario` | src/camera_stream.py:53-95 | With 50 pixels and 5 seconds, over three frames: a bus centred at (100, 100) is recorded at time 0. A detection centred at (120, 110) is suppressed at time 2 and leaves the table unchanged. The same detection is recorded at time 6, because the first entry was never refreshed. |

## Left out

- Camera and display: opening the camera, reading frames, drawing boxes and showing the window (src/camera_stream.py:25-46, 54-57, 97-109) are OpenCV calls. The loop over frames is modelled as repeated calls of `ProcessFrame`.
- The debug print of each batch (src/camera_stream.py:61) is output only.
- Configuration: reading the YAML file (src/camera_stream.py:10-23) is file I/O. Its results would be parameters here.
- Clock: `time.time()` becomes the parameter `now` of `ProcessFrame`. No monotonicity of the clock is assumed.
- Record timestamp: the database record's timestamp is a formatted wall-clock string taken at insertion time. Here the record carries the numeric frame time `now` instead.
- Database: `insert_detection` (src/db_handler.py:11-16) is a MongoDB call that reports and swallows its own failures. The model appends the record to the returned sequence instead.
- Detector: src/detection.py is YOLOv5 inference over pandas. Only its output shape is used here: an integer box (coordinates truncated to integers at src/detection.py:33) and a score, already filtered by class name.
- Forecasting: src/prediction.py (resampling, regression, plotting) is library-bound floating-point work and is not part of this model.
- Floating point: coordinates, centres, distances and times are exact reals, not IEEE doubles. The square root is replaced by the equivalent squared comparison.
- Dictionary order: Python iterates a dictionary in insertion order. `ScanForMatch` visits keys in any order, which covers insertion order. The decision does not depend on the order, because the scan only decides whether a match exists.
- Eviction: there is none in the code, so there is none here.
