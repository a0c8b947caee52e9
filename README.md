# Vehicle speed tracker: the track registry and speed estimate

This project models the core of a traffic dashboard that estimates vehicle
speeds from video. Two loops, `process_video` in `app.py` and
`trackMultipleObjects` in `speed_detector.py`, read frames one at a time
and keep a registry of tracked cars. After each read the loop works as follows:

- It counts the frame.
- On every 10th frame it throws away the trackers, the ids and both
  location maps (the speed memo is kept), and rebuilds them from the
  cascade detector's boxes. Each box gets a new tracker and a fresh
  car id.
- It updates every tracker once and draws each box that was tracked.
- A car's speed is fixed once, at its first move while the top edge of
  its previous box lies between 275 and 285. The speed is the pixel
  distance between the two top-left corners, converted with 8.8 pixels
  per metre, 18 frames per second and 3.6 (m/s to km/h).
- The truncated speed is drawn as a label such as `52km/h` whenever the
  car moves while it has a speed and the top edge of its previous box is
  at 180 or lower on the screen (y >= 180).

The model also covers the dashboard's capture latch. It allows one capture
per camera.

Layout:

- `geometry.dfy` (`Geometry`): integer boxes, real tracker boxes, and
  Python's `int()` truncation toward zero.
- `speed.dfy` (`SpeedEstimation`): `estimateSpeed`. A speed is held
  exactly as a squared pixel displacement, and a real number `v` is its
  km/h value when `v >= 0` and `v * v` equals that square times
  (18 · 3.6 / 8.8)². `Truncated` is `int(speed)`, computed exactly by
  bisection.
- `overlay.dfy` (`Overlay`): what a frame shows. It holds rectangles and
  labels, plus the decimal rendering of the label text.
- `tracking.dfy` (`Tracking`): the registry as a value. It has one
  tracker update (`AdvanceTrack`), the update loop (`UpdatePrefix`), the
  detection rebuild (`Detect`), one frame (`StepFrame`) and a whole feed
  (`RunFeed`). The registry invariant `Valid` and the analysis lemmas are
  here too. `Tracked` is the part of `Valid` that the update loop needs,
  a `carLocation1` entry for each live id. The operations keep it in their
  own contracts, and separate lemmas prove that they keep all of `Valid`.
- `feed.dfy` (`Feed`): the reads, and where each of the two loops stops.
- `pipeline.dfy` (`Pipeline`): the loops as the program runs them.
  `TrackRegistry` is a class whose fields are the loop's local variables,
  updated in place. Each of its methods is proved to leave exactly the
  state the value model computes. `ProcessVideo` and
  `TrackMultipleObjects` are the two drivers.
- `speed_slots.dfy` (`SpeedSlots`): the speed memo as a 1000-slot list,
  as the program writes it (see Findings).
- `capture.dfy` (`Capture`): `can_capture` and the session's capture
  flags.

The cascade detector and the KCF trackers are oracles. Each frame comes
with the boxes the detector would return, which are used only on
detection frames. It also brings one `(success, box)` result per live
tracker, in tracker order. A tracker is represented by the box it was
seeded with.

The two loops differ in these ways that the model keeps:

- rectangle thickness: 2 in `process_video`, 4 in `trackMultipleObjects`;
- stop condition: `process_video` stops when `ret` is false or the frame is
  `None`, while `trackMultipleObjects` stops only when the image is `None`.

They also differ in ways the model leaves out (see "Left out"):

- the frame size: `process_video` resizes to 640×480, and
  `trackMultipleObjects` to 1280×720;
- only `process_video` returns early when the video cannot be opened;
- the output: `process_video` yields each frame, while
  `trackMultipleObjects` shows it with `cv2.imshow` and writes it to a
  video file;
- `trackMultipleObjects` also stops on the ESC key.

## Model

| member | source | states |
|---|---|---|
| SpeedEstimation.EstimateSpeed | app.py:33-39 | `estimateSpeed` on the two top-left corners, held as the squared pixel displacement dx² + dy². It has no contract of its own: `EstimateSpeedDenotes` gives its km/h meaning, and `EstimateSpeedSymmetric`, `EstimateSpeedReadsCorners` and `EstimateSpeedZero` its properties |
| SpeedEstimation.EstimateSpeedDenotes | app.py:33-39 | `estimateSpeed` returns the Euclidean distance between the two top-left corners, divided by 8.8 and multiplied by 18 and 3.6: a value is the speed iff it is non-negative and its square, divided by (18·3.6/8.8)², equals dx² + dy² |
| SpeedEstimation.EstimateSpeedSymmetric | speed_detector.py:15-28 | the estimate does not depend on the order of the two locations |
| SpeedEstimation.EstimateSpeedReadsCorners | speed_detector.py:23 | only the top-left corners matter; width and height are ignored |
| SpeedEstimation.EstimateSpeedZero | app.py:34 | the speed is 0 exactly when the two top-left corners coincide |
| SpeedEstimation.EstimateSpeedThreeFour | app.py:34-38 | a (3, 4) move is 5 pixels, i.e. 5/8.8·18·3.6 km/h, and `int` of it is 36 |
| SpeedEstimation.KmhPerPixelValue | app.py:35-38 | the conversion factor pixels → km/h is exactly 18·3.6/8.8 = 81/11 |
| SpeedEstimation.Speed.Truncated | app.py:109 | `int(speed)` by bisection over whole numbers. It has no contract of its own: `TruncatedBracket`, `TruncatedIsFloor`, `TruncatedUnique` and `TruncatedOfFloor` characterise it |
| SpeedEstimation.TruncatedBracket | app.py:109 | `int(speed)` for a non-negative speed: the n with 121n² ≤ 6561·d² < 121(n+1)² |
| SpeedEstimation.TruncatedIsFloor | app.py:109 | the truncated value n satisfies n ≤ v < n + 1 for the real speed v |
| SpeedEstimation.TruncatedUnique | app.py:109 | any k with 121k² ≤ 6561·d² < 121(k+1)² is the truncated value |
| SpeedEstimation.TruncatedOfFloor | app.py:109 | any whole number k with k ≤ v < k + 1, for the real speed v, is the truncated value |
| SpeedEstimation.DenotesUnique | app.py:33-39 | a speed stands for at most one real value |
| SpeedEstimation.DenotesZero | app.py:33-39 | the real value is 0 exactly when the squared displacement is 0 |
| SpeedEstimation.FloorRootSearchBracket | app.py:109 | started on a bracket 121·lo² ≤ t < 121·hi², the bisection stays inside it and returns the n with 121n² ≤ t < 121(n+1)² |
| Geometry.Trunc | app.py:94 | Python `int()` on a float: truncation toward zero, with the bracket on each side of zero |
| Geometry.HalfwayTrunc | app.py:110 | the label's x position `int(x1 + w1/2)` computed in integers. It has no contract of its own: `HalfwayTruncIsTrunc` proves it equal to `int()` of the exact midpoint |
| Geometry.HalfwayTruncIsTrunc | app.py:110 | the label's horizontal position, computed as half of 2x + w rounded toward zero, equals `int(x1 + w1/2)` |
| Geometry.Truncate | speed_detector.py:86 | `[int(v) for v in box]`: `Trunc` applied to each coordinate. It has no contract of its own; `Geometry.Trunc` states what each coordinate becomes |
| Geometry.TruncExact | speed_detector.py:86 | `int()` of a whole number is that number |
| Overlay.DecimalString | app.py:109 | the label digits: at least one, all decimal digits, no leading zero unless the number is 0 |
| Overlay.DecimalRoundTrip | app.py:109 | reading the label digits back gives the speed value |
| Overlay.SpeedText | app.py:109 | the label text `f"{n}km/h"`: the decimal digits of n followed by `km/h`. It has no contract of its own: `DecimalString`, `DecimalRoundTrip` and `SpeedTextInjective` characterise it |
| Overlay.SpeedTextInjective | app.py:109 | different truncated speeds give different labels `<n>km/h` |
| Overlay.DigitChar | app.py:109 | a digit value in 0..9 is drawn as a decimal digit, and as '0' exactly for 0 |
| Overlay.DigitValue | app.py:109 | a decimal digit reads back to a value below 10 that draws as that digit |
| Tracking.Initial | app.py:51-57 | the loop's locals before the first frame. It has no contract of its own; `InitialValid` proves it satisfies the registry invariant |
| Tracking.BoxMark | speed_detector.py:87 | `cv2.rectangle` from (x, y) to (x + w, y + h) with the loop's thickness. It has no contract of its own; `AdvanceTrack` states when it is drawn |
| Tracking.SpeedMark | app.py:109-111 | `cv2.putText` of the truncated speed's label at the previous box's horizontal middle, 5 pixels above its top edge. It has no contract of its own: `FirstSightingLabel` works one out, and `HalfwayTruncIsTrunc` and `SpeedTextInjective` give its position and text |
| Tracking.AdvanceTrack | app.py:91-111 | one tracker update: a failure changes and draws nothing. A success stores the truncated box in both location entries and draws it. The speed is written at most once, exactly when the box moved, none was set and the previous top edge is in 275..285, and its value is the estimate between the previous and the new box. A label is drawn exactly when the box moved, a speed exists and the previous top edge is ≥ 180 |
| Tracking.UpdateTrack | speed_detector.py:82-108 | one pass of the update loop leaves every live id with its `carLocation1` entry, and leaves the counters, trackers and ids alone |
| Tracking.UpdatePrefix | app.py:90-111 | any number of update passes keeps each live id's `carLocation1` entry and the roster |
| Tracking.UpdatePrefixMarks | app.py:90-111 | what the update loop draws: pass n adds exactly the marks one update of tracker n draws from its car's entries at the start of the loop |
| Tracking.UpdatePrefixTrack | app.py:90-111 | after n passes each of the first n live ids holds what one update made of its entries at the start, and every other id is untouched |
| Tracking.InitialValid | app.py:51-57 | the initial locals satisfy the registry invariant |
| Tracking.ValidTracked | app.py:51-111 | the registry invariant gives what the update loop relies on: one id per tracker and a `carLocation1` entry for each live id |
| Tracking.UpdateTrackValid | app.py:90-111 | one pass of the update loop keeps the registry invariant |
| Tracking.UpdatePrefixValid | app.py:90-111 | the whole update loop keeps the registry invariant |
| Tracking.WithOwnTrack | app.py:90-111 | writing back a car's own entries changes nothing |
| Tracking.TrackOfWithTrack | app.py:97-107 | writing one car's entries does not touch any other car's |
| Tracking.Clear | app.py:74-77 | `trackers = []` and the clearing of both location maps and the id list. It has no contract of its own; `DetectRebuilds` states what a detection leaves |
| Tracking.AddCar | app.py:80-87 | one detected box: a tracker, its `carLocation1` entry, its id, and the id counter moved on. It has no contract of its own; the `AddCars` lemmas characterise it |
| Tracking.AddCars | app.py:80-87 | the loop over the detected boxes, in detector order. It has no contract of its own: `AddCarsTrackers`, `AddCarsIds`, `AddCarsLocations`, `AddCarsTracked` and `AddCarsKeeps` characterise it |
| Tracking.Detect | app.py:70-87 | a detection frame's rebuild: `Clear`, then `AddCars`. It has no contract of its own: `DetectRebuilds` and `DetectValid` characterise it |
| Tracking.AddCarsTrackers | app.py:80-83 | each detected box appends one tracker, in detector order |
| Tracking.AddCarsIds | app.py:86-87 | each detected box appends the current id counter to the ids and raises the counter by one, so the new ids are consecutive and the old ones stay |
| Tracking.AddCarsRoster | app.py:80-87 | rebuilding an empty roster: trackers in detector order, one fresh consecutive id each from the id counter, and the counter raised by the number of boxes |
| Tracking.AddCarsLocations | app.py:85 | adding boxes to an empty `carLocation1` maps exactly the new ids, each to its detection box |
| Tracking.AddCarsTracked | app.py:83-86 | every tracker added gets an id with a `carLocation1` entry |
| Tracking.AddCarsKeeps | app.py:80-87 | adding trackers never touches the frame counter, the speeds or `carLocation2` |
| Tracking.DetectRebuilds | app.py:70-87 | a detection frame replaces the trackers, ids and `carLocation1` wholesale, empties `carLocation2`, and keeps the speeds and the counter |
| Tracking.DetectValid | speed_detector.py:58-79 | a detection keeps the registry invariant |
| Tracking.Detected | app.py:67-87 | counting a frame adds one to the counter, never touches speeds, and leaves every live id with a `carLocation1` entry |
| Tracking.DetectedValid | app.py:67-87 | counting a frame, and rebuilding on a detection frame, keeps the registry invariant |
| Tracking.StepFrame | app.py:59-113 | one frame leaves every live id with a `carLocation1` entry, so the next frame's lookups succeed |
| Tracking.StepFrameValid | app.py:59-113 | one frame keeps the registry invariant |
| Tracking.StepFrameRoster | app.py:67-87 | the counter rises by one. Detection happens exactly on multiples of 10, and then the new ids continue from the id counter, exceed every earlier id and have no speed yet. Otherwise trackers, ids and the id counter stay |
| Tracking.StepFrameCounters | app.py:67-87 | over one frame the frame counter rises by one, and the id counter by the number of boxes exactly when the frame is a detection frame |
| Tracking.StepFrameSpeed | app.py:100-107 | over one frame a speed already set never changes. An id without one gains one exactly when its update succeeds, it moved, and its previous top edge is in the band, and the value is the estimate for that move |
| Tracking.RunFeed | speed_detector.py:46-108 | a whole feed leaves every live id with a `carLocation1` entry and yields one set of marks per frame |
| Tracking.ResumableStart | speed_detector.py:46-108 | before any frame, the run of the feed is the run from the start |
| Tracking.ResumableStep | speed_detector.py:46-108 | processing frame k moves a partly run feed on by one frame and appends that frame's marks |
| Tracking.ResumableEnd | speed_detector.py:46-108 | once every frame is processed, the marks gathered are those of the whole run |
| Tracking.RunFeedValid | app.py:59-113 | a whole feed keeps the registry invariant |
| Tracking.RunFrameCount | app.py:67 | over a feed the frame counter rises by the number of frames |
| Tracking.RunIdCount | app.py:70-87 | over a feed the id counter rises by exactly the number of boxes found on detection frames |
| Tracking.RunSpeedWriteOnce | speed_detector.py:101-103 | a speed, once set, survives every later frame with its value, detection frames included |
| Tracking.ShortFeedTracksNothing | app.py:69-87 | starting with no trackers, a stretch of frames that ends before the count reaches the next multiple of 10 detects nothing, so no tracker or id appears and nothing is drawn |
| Tracking.ShortFeedFromStart | app.py:69 | a feed of at most 9 frames from the start draws nothing on any frame |
| Tracking.FirstSightingLabel | app.py:109-110 | a speed of √50 px drawn for previous box (100, 280, 20, 20) is the label "52km/h" at (110, 275) |
| Tracking.FirstSightingTrack | app.py:91-111 | a tracker moving from (100, 280) to (105, 285) gets speed √50 px, its box drawn at (105, 285)-(125, 305) and the label "52km/h" |
| Tracking.FirstSightingMeasured | app.py:67-111 | on a detection frame with that one car, the new id is the id counter, its speed is set, and the frame shows the box and the label |
| Feed.AppStops | app.py:61 | `process_video` stops on a read with `ret` false or no frame. It has no contract of its own; `AppFrames` states where the loop stops |
| Feed.DetectorStops | speed_detector.py:49 | `trackMultipleObjects` stops on a read with no image. It has no contract of its own; `DetectorFrames` states where the loop stops |
| Feed.AppFrames | app.py:59-62 | `process_video` processes exactly the frames read before the first read with `ret` false or no frame |
| Feed.DetectorFrames | speed_detector.py:46-50 | `trackMultipleObjects` processes exactly the frames read before the first read without an image |
| Feed.AppFramesPrefix | speed_detector.py:48-50 | the frames of `process_video` are a prefix of those of `trackMultipleObjects`, and the two agree when no read brings an image with `ret` false |
| Pipeline.TrackRegistry.constructor | app.py:51-57 | the loop's locals start as the initial registry |
| Pipeline.TrackRegistry.Rebuild | app.py:74-87 | in place: clear the roster, then one tracker and one fresh id per detected box; the new state is the value model's `Detect` |
| Pipeline.TrackRegistry.UpdateOne | app.py:91-111 | in place: one pass of the update loop, with the source's branches, leaves the state and the marks of `UpdateTrack` |
| Pipeline.TrackRegistry.UpdateTrackers | speed_detector.py:82-108 | in place: the update loop over all trackers leaves the state and marks of `UpdatePrefix` over all of them |
| Pipeline.TrackRegistry.Step | app.py:67-111 | in place: one frame leaves the state and marks of `StepFrame` |
| Pipeline.ProcessVideo | app.py:42-115 | the frames yielded carry exactly the marks `RunFeed` draws on the frames before the first failed read, with thickness 2 |
| Pipeline.TrackMultipleObjects | speed_detector.py:30-121 | the frames written carry exactly the marks `RunFeed` draws on the frames before the first read without an image, with thickness 4 |
| Capture.CaptureLatch.constructor | app.py:235-238 | every camera starts not captured |
| Capture.CaptureLatch.CanCapture | app.py:149-153 | the capture is granted exactly when the camera's flag was clear, and afterwards the flag is set and no other camera's flag has changed |
| Capture.CaptureOnce | app.py:149-153 | in a fresh session the first capture of a camera is granted, the second refused, and another camera's first capture still granted |
| SpeedSlots.ReadSlot | app.py:106 | indexing the 1000-slot list raises exactly for ids past its end |
| SpeedSlots.MemoOnList | app.py:106-107 | the memo step on the list fails exactly for ids past its end and otherwise keeps the list length |
| SpeedSlots.MemoOnListAgrees | speed_detector.py:102-103 | for ids inside the list, the list and the map model memoise the same speed |
| SpeedSlots.InitialSlots | app.py:55 | the list starts with 1000 empty slots |
| SpeedSlots.ThousandAndFirstCar | app.py:55-107 | a detection frame that takes the id counter past 1000 gives its last tracker an id ≥ 1000. When that tracker moves, the program reads `speed[carID]`, and on the 1000-slot list that read raises |
| SpeedSlots.IdsOutgrowSlots | speed_detector.py:40-79 | from the start, the id counter passes 1000 once detection frames have reported more than 1000 boxes |

## Left out

- The cascade detector and the KCF trackers are not modelled. Their outputs
  are oracle inputs per frame. This includes the grey-scale conversion and
  the detector's parameters.
- The pixels, `cv2.resize` (to 640×480 in `process_video`, to 1280×720
  in `trackMultipleObjects`) and `frame.copy()` are not
  modelled. The model deals only in boxes, and a frame's drawing is
  recorded as a list of marks.
- Colours, the font, the font scale and the label's stroke width are not
  modelled. Only the position, the text and the rectangle thickness are.
- Floating point is not modelled. `math.sqrt`, the division by 8.8 and
  the float `int()` are exact real arithmetic here. A speed whose float
  rounds across an integer could come out one km/h different in the
  program. The label position `int(x1 + w1/2)` is computed in integers
  and proved equal to `int()` of the exact midpoint.
- SpeedEstimation.DenotesUnique: proves that a speed stands for at most
  one real. That such a real exists, the square root of the scaled squared
  displacement, is not proved, because Dafny's reals have no square root.
  The truncated value `Truncated`, which is all the program shows, is
  computed and characterised without it.
- SpeedEstimation.EstimateSpeed: its value is held as the squared pixel
  displacement. Its meaning in km/h is stated by `Denotes` and
  `EstimateSpeedDenotes` rather than as a real-valued result, because
  Dafny has no square root.
- The `frameCounter % 1 == 0` guard is always true, so it is not modelled as
  a branch.
- `video.isOpened()` is not modelled: the error message and early return
  when a file cannot be opened, and `video.release()`.
- The Streamlit page is not modelled: the news list, the accident report
  form, the sidebar, and the loop that pulls one frame from each of the
  four feeds with `next()`. The model does not capture how the page
  handles their exhaustion: it catches `StopIteration`, shows a warning and
  leaves the loop.
- `capture_image` is not modelled: the time-stamped file name and
  `cv2.imwrite`. The latch is modelled only as far as it decides whether
  a capture happens.
- In `trackMultipleObjects`, the ESC key (`cv2.waitKey`), `cv2.imshow`,
  and the video writer are not modelled. They are user input and output
  only. The drivers here stop only at the end of the reads. The locals
  `fps` and `start_time` (`speed_detector.py`, lines 34 and 47) are set
  but never read, so they are left out too.
- Pipeline.ProcessVideo: the program's `yield` makes it a generator that
  its caller may drop early. The model returns the marks of all frames
  together.
- Capture.CaptureLatch.CanCapture: a camera name missing from the flags is
  a `KeyError` in the program, and the model requires the name to be
  present instead.
- Pipeline.ProcessVideo and Pipeline.TrackMultipleObjects require each
  frame to bring exactly one tracker result per live tracker (`Fits`).
  This is how the oracle stands in for calling `tracker.update` on each
  tracker.

## Findings

| source | as written | input that shows it | evidently intended | confidence | as-written member | corrected member |
|---|---|---|---|---|---|---|
| app.py:55 (also speed_detector.py:40) | `speed = [None] * 1000` is indexed by `carID`, but car ids grow by one per detected box and are never reused, so once more than 1000 boxes have been detected the next moving car makes `speed[carID]` raise `IndexError` and ends the loop | a feed whose detection frames report 1001 boxes in total, the last of whose trackers then moves | a speed memo with an entry for every id ever issued | not executed | SpeedSlots.ThousandAndFirstCar | Tracking.StepFrameSpeed |
