/**
 * The track registry of the video loop, as values: what one frame does to
 * the frame counter, the id counter, the tracker list, the id list, the two
 * location dictionaries and the speed memo, and what it draws.
 *
 * The cascade detector and the KCF trackers are oracles: each frame comes
 * with the boxes the detector would return (used only on detection frames)
 * and one update result per live tracker. A tracker itself is represented
 * by the box it was seeded with.
 */
module Tracking {
  import opened Wrappers
  import opened Geometry
  import opened SpeedEstimation
  import opened Overlay

  /** Detection runs on every 10th frame. */
  const DetectionInterval: nat := 10
  /** The calibration band for the previous box's top edge. */
  const BandLow: int := 275
  const BandHigh: int := 285
  /** Labels are drawn once the previous box's top edge is at least this low. */
  const LabelThreshold: int := 180
  /** Rectangle thickness in `process_video` and in `trackMultipleObjects`. */
  const AppThickness: nat := 2
  const DetectorThickness: nat := 4

  /** `success, box = tracker.update(frame)` */
  datatype TrackResult = TrackResult(success: bool, box: TrackerBox)

  /** A frame, as far as the loop can tell: what the detector and the live trackers report on it. */
  datatype FrameInput = FrameInput(cars: seq<Box>, results: seq<TrackResult>)

  /**
   * One id's entries: `carLocation1[id]` (the box the next update compares
   * against), `carLocation2[id]` (the box of the latest update) and `speed[id]`.
   */
  datatype Track = Track(previous: Option<Box>, current: Option<Box>, speed: Option<Speed>)

  /** The loop's state between frames. `speed` maps an id to its memoised speed; a missing id is `None`. */
  datatype Registry = Registry(
    frameCounter: nat,
    currentCarID: nat,
    trackers: seq<Box>,
    carIDs: seq<nat>,
    carLocation1: map<nat, Box>,
    carLocation2: map<nat, Box>,
    speed: map<nat, Speed>)

  predicate IsCycle(frameCounter: nat) {
    frameCounter % DetectionInterval == 0
  }

  predicate InBand(y: int) {
    BandLow <= y <= BandHigh
  }

  function Get<K, V>(m: map<K, V>, k: K): Option<V> {
    if k in m then Some(m[k]) else None
  }

  function Put<K, V>(m: map<K, V>, k: K, o: Option<V>): map<K, V> {
    if o.Some? then m[k := o.value] else m - {k}
  }

  lemma PutGet<K, V>(m: map<K, V>, k: K)
    ensures Put(m, k, Get(m, k)) == m
  {
  }

  /** The state before the first frame. */
  function Initial(): Registry {
    Registry(0, 0, [], [], map[], map[], map[])
  }

  /**
   * The registry invariant: one id per tracker, the live ids are the
   * `|carIDs|` ids issued last, in order, `carLocation1` holds exactly the
   * live ids, `carLocation2` only live ids, and every memoised speed belongs
   * to an id already issued.
   */
  ghost predicate Valid(r: Registry) {
    && |r.trackers| == |r.carIDs|
    && |r.carIDs| <= r.currentCarID
    && (forall j :: 0 <= j < |r.carIDs| ==> r.carIDs[j] == r.currentCarID - |r.carIDs| + j)
    && (forall id :: id in r.carLocation1 <==> r.currentCarID - |r.carIDs| <= id < r.currentCarID)
    && (forall id :: id in r.carLocation2 ==> id in r.carLocation1)
    && (forall id :: id in r.speed ==> id < r.currentCarID)
  }

  lemma InitialValid()
    ensures Valid(Initial())
  {
  }

  /** What the update loop relies on: one id per tracker, and a `carLocation1` entry for every live id. */
  ghost predicate Tracked(r: Registry) {
    && |r.trackers| == |r.carIDs|
    && (forall j :: 0 <= j < |r.carIDs| ==> r.carIDs[j] in r.carLocation1)
  }

  lemma ValidTracked(r: Registry)
    requires Valid(r)
    ensures Tracked(r)
  {
    forall j | 0 <= j < |r.carIDs|
      ensures r.carIDs[j] in r.carLocation1
    {
      assert r.carIDs[j] == r.currentCarID - |r.carIDs| + j;
    }
  }

  function TrackOf(r: Registry, id: nat): Track {
    Track(Get(r.carLocation1, id), Get(r.carLocation2, id), Get(r.speed, id))
  }

  function WithTrack(r: Registry, id: nat, t: Track): Registry {
    r.(carLocation1 := Put(r.carLocation1, id, t.previous),
       carLocation2 := Put(r.carLocation2, id, t.current),
       speed := Put(r.speed, id, t.speed))
  }

  lemma WithOwnTrack(r: Registry, id: nat)
    ensures WithTrack(r, id, TrackOf(r, id)) == r
  {
    PutGet(r.carLocation1, id);
    PutGet(r.carLocation2, id);
    PutGet(r.speed, id);
  }

  /** `cv2.rectangle(resultImage, (x, y), (x+w, y+h), ...)` */
  function BoxMark(b: Box, thickness: nat): Mark {
    Rectangle(b.x, b.y, b.x + b.w, b.y + b.h, thickness)
  }

  /**
   * `cv2.putText(resultImage, f"{int(speed)}km/h", (int(x1 + w1/2), int(y1-5)), ...)`;
   * the horizontal position is `int` of the float midpoint (`HalfwayTruncIsTrunc`).
   */
  function SpeedMark(previous: Box, s: Speed): Mark {
    Label(SpeedText(s.Truncated()), HalfwayTrunc(previous.x, previous.w), previous.y - 5)
  }

  /**
   * One tracker update for one live id. On success the truncated box is
   * drawn and becomes both locations; if it differs from the previous box,
   * a speed is memoised when none is and the previous top edge is in the
   * band, and a label is drawn when a speed exists and that edge is at
   * least 180.
   */
  function AdvanceTrack(t: Track, res: TrackResult, thickness: nat): (out: (Track, seq<Mark>))
    requires t.previous.Some?
    // a failed update changes nothing and draws nothing
    ensures !res.success ==> out == (t, [])
    // a successful one stores the truncated box twice and draws it first
    ensures res.success ==>
      && out.0.previous == Some(Truncate(res.box))
      && out.0.current == Some(Truncate(res.box))
      && 1 <= |out.1| <= 2
      && out.1[0] == BoxMark(Truncate(res.box), thickness)
    // the speed is written at most once
    ensures t.speed.Some? ==> out.0.speed == t.speed
    // it is written exactly when the box moved and the previous top edge is in the band
    ensures out.0.speed != t.speed <==>
      res.success && Truncate(res.box) != t.previous.value && t.speed.None? && InBand(t.previous.value.y)
    ensures out.0.speed != t.speed ==> out.0.speed == Some(EstimateSpeed(t.previous.value, Truncate(res.box)))
    // a label is drawn exactly when the box moved, a speed exists and the previous top edge is low enough
    ensures |out.1| == 2 <==>
      res.success && Truncate(res.box) != t.previous.value && out.0.speed.Some? &&
      t.previous.value.y >= LabelThreshold
    ensures |out.1| == 2 ==> out.1[1] == SpeedMark(t.previous.value, out.0.speed.value)
  {
    if !res.success then (t, [])
    else
      var current := Truncate(res.box);
      var previous := t.previous.value;
      var speed :=
        if previous != current && t.speed.None? && InBand(previous.y)
        then Some(EstimateSpeed(previous, current))
        else t.speed;
      var caption :=
        if previous != current && speed.Some? && previous.y >= LabelThreshold
        then [SpeedMark(previous, speed.value)]
        else [];
      (Track(Some(current), Some(current), speed), [BoxMark(current, thickness)] + caption)
  }

  /** The registry facts an update leaves alone. */
  predicate SameRoster(a: Registry, b: Registry) {
    && a.frameCounter == b.frameCounter
    && a.currentCarID == b.currentCarID
    && a.trackers == b.trackers
    && a.carIDs == b.carIDs
  }

  /** The body of `for idx, tracker in enumerate(trackers)`, for index `idx`. */
  function UpdateTrack(r: Registry, idx: nat, res: TrackResult, thickness: nat): (out: (Registry, seq<Mark>))
    requires Tracked(r) && idx < |r.carIDs|
    ensures Tracked(out.0) && SameRoster(r, out.0)
  {
    var id := r.carIDs[idx];
    var advanced := AdvanceTrack(TrackOf(r, id), res, thickness);
    (WithTrack(r, id, advanced.0), advanced.1)
  }

  /** The first `n` iterations of the update loop, with what they drew in order. */
  function UpdatePrefix(r: Registry, results: seq<TrackResult>, n: nat, thickness: nat): (out: (Registry, seq<Mark>))
    requires Tracked(r) && n <= |results| == |r.carIDs|
    ensures Tracked(out.0) && SameRoster(r, out.0)
  {
    if n == 0 then (r, [])
    else
      var before := UpdatePrefix(r, results, n - 1, thickness);
      var last := UpdateTrack(before.0, n - 1, results[n - 1], thickness);
      (last.0, before.1 + last.1)
  }

  /** `trackers = []` and `.clear()` of both location dictionaries and of the id list. */
  function Clear(r: Registry): Registry {
    r.(trackers := [], carIDs := [], carLocation1 := map[], carLocation2 := map[])
  }

  /** One iteration of `for (x, y, w, h) in cars`. */
  function AddCar(r: Registry, b: Box): Registry {
    r.(trackers := r.trackers + [b],
       carLocation1 := r.carLocation1[r.currentCarID := b],
       carIDs := r.carIDs + [r.currentCarID],
       currentCarID := r.currentCarID + 1)
  }

  function AddCars(r: Registry, cars: seq<Box>): Registry {
    if cars == [] then r else AddCar(AddCars(r, cars[..|cars| - 1]), cars[|cars| - 1])
  }

  /** A detection cycle: the registry is rebuilt from the detector's boxes. */
  function Detect(r: Registry, cars: seq<Box>): Registry {
    AddCars(Clear(r), cars)
  }

  /** The frame counter is bumped and, on a detection frame, the registry rebuilt. */
  function Detected(r: Registry, cars: seq<Box>): (d: Registry)
    ensures d.frameCounter == r.frameCounter + 1
    ensures d.speed == r.speed
    ensures Tracked(r) ==> Tracked(d)
  {
    var counted := r.(frameCounter := r.frameCounter + 1);
    if IsCycle(counted.frameCounter) then
      AddCarsKeeps(Clear(counted), cars);
      AddCarsTracked(Clear(counted), cars);
      Detect(counted, cars)
    else counted
  }

  /** How many trackers the update loop runs over on this frame. */
  function LiveTrackers(r: Registry, cars: seq<Box>): nat {
    |Detected(r, cars).trackers|
  }

  lemma TrackOfWithTrack(r: Registry, id: nat, t: Track, other: nat)
    ensures TrackOf(WithTrack(r, id, t), id) == t
    ensures other != id ==> TrackOf(WithTrack(r, id, t), other) == TrackOf(r, other)
  {
  }

  /** The first live id; the live ids are `Base(r)`, `Base(r) + 1`, ... */
  function Base(r: Registry): int {
    r.currentCarID - |r.carIDs|
  }

  /**
   * The update loop touches each live id once, in tracker order: after `n`
   * iterations the entries of each of the first `n` ids are what one update
   * made of its entries at the start of the loop, and every other id is
   * untouched.
   */
  lemma {:induction false} UpdatePrefixTrack(r: Registry, results: seq<TrackResult>, n: nat, thickness: nat, id: nat)
    requires Valid(r) && n <= |results| == |r.carIDs|
    ensures TrackOf(UpdatePrefix(r, results, n, thickness).0, id) ==
      if Base(r) <= id < Base(r) + n
      then AdvanceTrack(TrackOf(r, id), results[id - Base(r)], thickness).0
      else TrackOf(r, id)
  {
    if n > 0 {
      var mid := UpdatePrefix(r, results, n - 1, thickness).0;
      var k := r.carIDs[n - 1];
      var t := AdvanceTrack(TrackOf(mid, k), results[n - 1], thickness).0;
      assert UpdatePrefix(r, results, n, thickness).0 == WithTrack(mid, k, t);
      assert k == Base(r) + n - 1;
      UpdatePrefixTrack(r, results, n - 1, thickness, id);
      TrackOfWithTrack(mid, k, t, id);
      if id == k {
        assert !(Base(r) <= id < Base(r) + n - 1);
        assert TrackOf(mid, k) == TrackOf(r, k);
      } else if Base(r) <= id < Base(r) + n - 1 {
        assert TrackOf(mid, id) == AdvanceTrack(TrackOf(r, id), results[id - Base(r)], thickness).0;
      } else {
        assert !(Base(r) <= id < Base(r) + n);
        assert TrackOf(mid, id) == TrackOf(r, id);
      }
    }
  }

  /**
   * What the update loop draws: iteration `n - 1` adds to the marks of the
   * first `n - 1` iterations exactly what one update of tracker `n - 1`
   * draws from its car's entries at the start of the loop.
   */
  lemma UpdatePrefixMarks(r: Registry, results: seq<TrackResult>, n: nat, thickness: nat)
    requires Valid(r) && 0 < n <= |results| == |r.carIDs|
    ensures UpdatePrefix(r, results, n, thickness).1 ==
      UpdatePrefix(r, results, n - 1, thickness).1 +
      AdvanceTrack(TrackOf(r, r.carIDs[n - 1]), results[n - 1], thickness).1
  {
    assert r.carIDs[n - 1] == Base(r) + n - 1;
    UpdatePrefixTrack(r, results, n - 1, thickness, r.carIDs[n - 1]);
  }

  /** `AddCars` appends one tracker per detected box, in detector order. */
  lemma {:induction false} AddCarsTrackers(r: Registry, cars: seq<Box>)
    ensures AddCars(r, cars).trackers == r.trackers + cars
  {
    if cars != [] {
      var front := cars[..|cars| - 1];
      AddCarsTrackers(r, front);
      assert r.trackers + front + [cars[|cars| - 1]] == r.trackers + cars;
    }
  }

  /** `AddCars` appends the next `|cars|` ids, consecutive from the id counter, and moves the counter past them. */
  lemma {:induction false} AddCarsIds(r: Registry, cars: seq<Box>)
    ensures AddCars(r, cars).currentCarID == r.currentCarID + |cars|
    ensures |AddCars(r, cars).carIDs| == |r.carIDs| + |cars|
    ensures AddCars(r, cars).carIDs[..|r.carIDs|] == r.carIDs
    ensures forall j :: |r.carIDs| <= j < |AddCars(r, cars).carIDs| ==>
      AddCars(r, cars).carIDs[j] == r.currentCarID + (j - |r.carIDs|)
  {
    if cars != [] {
      var front := cars[..|cars| - 1];
      AddCarsIds(r, front);
      var a := AddCars(r, front);
      var ids := AddCars(r, cars).carIDs;
      assert ids == a.carIDs + [a.currentCarID];
      forall j | |r.carIDs| <= j < |ids|
        ensures ids[j] == r.currentCarID + (j - |r.carIDs|)
      {
        if j < |a.carIDs| {
          assert ids[j] == a.carIDs[j];
        }
      }
      assert ids[..|r.carIDs|] == a.carIDs[..|r.carIDs|];
    }
  }

  /**
   * `AddCars` on an empty roster: the boxes in detector order, and one
   * fresh consecutive id each from the id counter.
   */
  lemma AddCarsRoster(r: Registry, cars: seq<Box>)
    requires r.trackers == [] && r.carIDs == []
    ensures AddCars(r, cars).trackers == cars
    ensures |AddCars(r, cars).carIDs| == |cars|
    ensures forall j :: 0 <= j < |cars| ==> AddCars(r, cars).carIDs[j] == r.currentCarID + j
    ensures AddCars(r, cars).currentCarID == r.currentCarID + |cars|
  {
    AddCarsTrackers(r, cars);
    AddCarsIds(r, cars);
    assert r.trackers + cars == cars;
  }

  /** `AddCars` gives every tracker it adds an id with a `carLocation1` entry. */
  lemma {:induction false} AddCarsTracked(r: Registry, cars: seq<Box>)
    requires Tracked(r)
    ensures Tracked(AddCars(r, cars))
  {
    if cars != [] {
      AddCarsTracked(r, cars[..|cars| - 1]);
    }
  }

  /** `AddCars` leaves the frame counter, the speeds and `carLocation2` alone. */
  lemma {:induction false} AddCarsKeeps(r: Registry, cars: seq<Box>)
    ensures AddCars(r, cars).frameCounter == r.frameCounter
    ensures AddCars(r, cars).speed == r.speed
    ensures AddCars(r, cars).carLocation2 == r.carLocation2
  {
    if cars != [] {
      AddCarsKeeps(r, cars[..|cars| - 1]);
    }
  }

  /** `AddCars` from an empty `carLocation1` maps exactly the new ids, each to its detection box. */
  lemma {:induction false} AddCarsLocations(r: Registry, cars: seq<Box>)
    requires r.carLocation1 == map[]
    ensures AddCars(r, cars).currentCarID == r.currentCarID + |cars|
    ensures forall id :: id in AddCars(r, cars).carLocation1 <==> r.currentCarID <= id < r.currentCarID + |cars|
    ensures forall j :: 0 <= j < |cars| ==> AddCars(r, cars).carLocation1[r.currentCarID + j] == cars[j]
  {
    if cars != [] {
      var front := cars[..|cars| - 1];
      AddCarsLocations(r, front);
      var a := AddCars(r, front);
      forall j | 0 <= j < |cars|
        ensures AddCar(a, cars[|cars| - 1]).carLocation1[r.currentCarID + j] == cars[j]
      {
        if j < |cars| - 1 {
          assert cars[j] == front[j];
        }
      }
    }
  }

  /**
   * A detection cycle replaces the registry wholesale: the trackers are the
   * detected boxes in order, the ids are the next `|cars|` ids, each
   * `carLocation1` entry is its detection box, `carLocation2` is empty, and
   * speeds and the frame counter are left alone.
   */
  lemma DetectRebuilds(r: Registry, cars: seq<Box>)
    ensures Detect(r, cars).trackers == cars
    ensures |Detect(r, cars).carIDs| == |cars|
    ensures forall j :: 0 <= j < |cars| ==> Detect(r, cars).carIDs[j] == r.currentCarID + j
    ensures Detect(r, cars).currentCarID == r.currentCarID + |cars|
    ensures forall id :: id in Detect(r, cars).carLocation1 <==> r.currentCarID <= id < r.currentCarID + |cars|
    ensures forall j :: 0 <= j < |cars| ==> Detect(r, cars).carLocation1[r.currentCarID + j] == cars[j]
    ensures Detect(r, cars).carLocation2 == map[]
    ensures Detect(r, cars).speed == r.speed
    ensures Detect(r, cars).frameCounter == r.frameCounter
  {
    AddCarsRoster(Clear(r), cars);
    AddCarsLocations(Clear(r), cars);
    AddCarsKeeps(Clear(r), cars);
  }

  /** A detection keeps the invariant as long as every memoised speed belongs to an id already issued. */
  lemma DetectValid(r: Registry, cars: seq<Box>)
    ensures (forall id :: id in r.speed ==> id < r.currentCarID) ==> Valid(Detect(r, cars))
  {
    DetectRebuilds(r, cars);
  }

  /** One frame: count, maybe detect, then run every tracker once. */
  function StepFrame(r: Registry, f: FrameInput, thickness: nat): (out: (Registry, seq<Mark>))
    requires Tracked(r) && |f.results| == LiveTrackers(r, f.cars)
    ensures Tracked(out.0)
  {
    UpdatePrefix(Detected(r, f.cars), f.results, |f.results|, thickness)
  }

  /** One pass of the update loop keeps the registry invariant. */
  lemma UpdateTrackValid(r: Registry, idx: nat, res: TrackResult, thickness: nat)
    requires Valid(r) && idx < |r.carIDs|
    ensures Valid(UpdateTrack(r, idx, res, thickness).0)
  {
    assert r.carIDs[idx] == Base(r) + idx;
  }

  /** The whole update loop keeps the registry invariant. */
  lemma {:induction false} UpdatePrefixValid(r: Registry, results: seq<TrackResult>, n: nat, thickness: nat)
    requires Valid(r) && n <= |results| == |r.carIDs|
    ensures Valid(UpdatePrefix(r, results, n, thickness).0)
  {
    if n > 0 {
      var before := UpdatePrefix(r, results, n - 1, thickness).0;
      UpdatePrefixValid(r, results, n - 1, thickness);
      UpdateTrackValid(before, n - 1, results[n - 1], thickness);
      assert UpdatePrefix(r, results, n, thickness).0 == UpdateTrack(before, n - 1, results[n - 1], thickness).0;
    }
  }

  /** Counting a frame, and rebuilding on a detection frame, keeps the registry invariant. */
  lemma DetectedValid(r: Registry, cars: seq<Box>)
    requires Valid(r)
    ensures Valid(Detected(r, cars))
  {
    var counted := r.(frameCounter := r.frameCounter + 1);
    if IsCycle(counted.frameCounter) {
      DetectValid(counted, cars);
    }
  }

  /** A frame keeps the registry invariant. */
  lemma StepFrameValid(r: Registry, f: FrameInput, thickness: nat)
    requires Valid(r) && |f.results| == LiveTrackers(r, f.cars)
    ensures Valid(StepFrame(r, f, thickness).0)
  {
    DetectedValid(r, f.cars);
    UpdatePrefixValid(Detected(r, f.cars), f.results, |f.results|, thickness);
  }

  /**
   * The counters and the roster after one frame. The frame counter rises by
   * one; detection happens exactly when the new count is a multiple of 10,
   * and then the trackers are the detected boxes with the next consecutive
   * ids, larger than every earlier id and none of them with a speed yet;
   * otherwise the trackers, the ids and the id counter stay.
   */
  lemma StepFrameRoster(r: Registry, f: FrameInput, thickness: nat)
    requires Valid(r) && |f.results| == LiveTrackers(r, f.cars)
    ensures StepFrame(r, f, thickness).0.frameCounter == r.frameCounter + 1
    ensures IsCycle(r.frameCounter + 1) ==>
      && StepFrame(r, f, thickness).0.trackers == f.cars
      && |StepFrame(r, f, thickness).0.carIDs| == |f.cars|
      && (forall j :: 0 <= j < |f.cars| ==> StepFrame(r, f, thickness).0.carIDs[j] == r.currentCarID + j)
      && StepFrame(r, f, thickness).0.currentCarID == r.currentCarID + |f.cars|
      && (forall j :: 0 <= j < |f.cars| ==> StepFrame(r, f, thickness).0.carIDs[j] !in r.speed)
      && (forall j, k :: 0 <= j < |r.carIDs| && 0 <= k < |f.cars| ==>
            r.carIDs[j] < StepFrame(r, f, thickness).0.carIDs[k])
    ensures !IsCycle(r.frameCounter + 1) ==>
      && StepFrame(r, f, thickness).0.trackers == r.trackers
      && StepFrame(r, f, thickness).0.carIDs == r.carIDs
      && StepFrame(r, f, thickness).0.currentCarID == r.currentCarID
  {
    var counted := r.(frameCounter := r.frameCounter + 1);
    if IsCycle(counted.frameCounter) {
      DetectRebuilds(counted, f.cars);
    }
  }

  /** The two counters after one frame: one more frame, and one more id per box on a detection frame. */
  lemma StepFrameCounters(r: Registry, f: FrameInput, thickness: nat)
    requires Tracked(r) && |f.results| == LiveTrackers(r, f.cars)
    ensures StepFrame(r, f, thickness).0.frameCounter == r.frameCounter + 1
    ensures StepFrame(r, f, thickness).0.currentCarID ==
      r.currentCarID + (if IsCycle(r.frameCounter + 1) then |f.cars| else 0)
  {
    var counted := r.(frameCounter := r.frameCounter + 1);
    if IsCycle(counted.frameCounter) {
      AddCarsRoster(Clear(counted), f.cars);
    }
  }

  /**
   * The condition under which live id `id` has its speed measured on this
   * frame, in terms of the registry `d` the update loop starts from: its
   * update succeeded, the truncated box differs from `carLocation1[id]`,
   * and that entry's top edge lies in the band.
   */
  ghost predicate MeasuredNow(d: Registry, results: seq<TrackResult>, id: nat)
    requires |results| == |d.carIDs|
  {
    && Base(d) <= id < d.currentCarID
    && id in d.carLocation1
    && results[id - Base(d)].success
    && Truncate(results[id - Base(d)].box) != d.carLocation1[id]
    && InBand(d.carLocation1[id].y)
  }

  /**
   * Speeds over one frame, for any id. A memoised speed never changes. An
   * id without one gains one exactly when it is measured on this frame and
   * the value is the estimate between `carLocation1[id]` at the start of the
   * loop and the truncated tracker box.
   */
  lemma StepFrameSpeed(r: Registry, f: FrameInput, thickness: nat, id: nat)
    requires Valid(r) && |f.results| == LiveTrackers(r, f.cars)
    ensures id in r.speed ==>
      id in StepFrame(r, f, thickness).0.speed && StepFrame(r, f, thickness).0.speed[id] == r.speed[id]
    ensures id !in r.speed ==>
      (id in StepFrame(r, f, thickness).0.speed <==> MeasuredNow(Detected(r, f.cars), f.results, id))
    ensures id !in r.speed && id in StepFrame(r, f, thickness).0.speed ==>
      StepFrame(r, f, thickness).0.speed[id] ==
        EstimateSpeed(Detected(r, f.cars).carLocation1[id], Truncate(f.results[id - Base(Detected(r, f.cars))].box))
  {
    var d := Detected(r, f.cars);
    DetectedValid(r, f.cars);
    UpdatePrefixTrack(d, f.results, |f.results|, thickness, id);
    if Base(d) <= id < Base(d) + |f.results| {
      assert d.carIDs[id - Base(d)] == id;
    }
  }

  /** Every frame of the feed brings one tracker result per tracker live on it. */
  ghost predicate Fits(r: Registry, frames: seq<FrameInput>, thickness: nat)
    requires Tracked(r)
    decreases |frames|
  {
    frames == [] ||
      (|frames[0].results| == LiveTrackers(r, frames[0].cars) &&
       Fits(StepFrame(r, frames[0], thickness).0, frames[1..], thickness))
  }

  /** The loop over a feed: the final registry and the marks drawn on each frame. */
  function RunFeed(r: Registry, frames: seq<FrameInput>, thickness: nat): (out: (Registry, seq<seq<Mark>>))
    requires Tracked(r) && Fits(r, frames, thickness)
    ensures Tracked(out.0) && |out.1| == |frames|
    decreases |frames|
  {
    if frames == [] then (r, [])
    else
      var first := StepFrame(r, frames[0], thickness);
      var rest := RunFeed(first.0, frames[1..], thickness);
      (rest.0, [first.1] + rest.1)
  }

  /**
   * Part way through a feed: after its first `k` frames the registry is `r`
   * and `done` holds the marks of those frames, so that finishing the feed
   * from `r` gives the run of the whole feed from `start`.
   */
  ghost predicate Resumable(start: Registry, frames: seq<FrameInput>, thickness: nat, k: nat, r: Registry, done: seq<seq<Mark>>) {
    && Tracked(start) && Fits(start, frames, thickness)
    && k <= |frames| && Tracked(r) && Fits(r, frames[k..], thickness)
    && RunFeed(start, frames, thickness).1 == done + RunFeed(r, frames[k..], thickness).1
  }

  lemma ResumableStart(start: Registry, frames: seq<FrameInput>, thickness: nat)
    requires Tracked(start) && Fits(start, frames, thickness)
    ensures Resumable(start, frames, thickness, 0, start, [])
  {
    assert frames[0..] == frames;
  }

  /** Running frame `k` moves the run on by one frame. */
  lemma ResumableStep(start: Registry, frames: seq<FrameInput>, thickness: nat, k: nat, r: Registry, done: seq<seq<Mark>>)
    requires Resumable(start, frames, thickness, k, r, done) && k < |frames|
    ensures Tracked(r) && |frames[k].results| == LiveTrackers(r, frames[k].cars)
    ensures Resumable(start, frames, thickness, k + 1, StepFrame(r, frames[k], thickness).0,
      done + [StepFrame(r, frames[k], thickness).1])
  {
    assert frames[k..][0] == frames[k] && frames[k..][1..] == frames[k + 1..];
  }

  /** At the end of the feed the marks drawn are those of the whole run. */
  lemma ResumableEnd(start: Registry, frames: seq<FrameInput>, thickness: nat, r: Registry, done: seq<seq<Mark>>)
    requires Resumable(start, frames, thickness, |frames|, r, done)
    ensures done == RunFeed(start, frames, thickness).1
  {
    assert frames[|frames|..] == [];
  }

  /** How many boxes the detection frames among `frames` report, counting frames from `frameCounter + 1`. */
  function CycleDetections(frameCounter: nat, frames: seq<FrameInput>): nat
    decreases |frames|
  {
    if frames == [] then 0
    else
      (if IsCycle(frameCounter + 1) then |frames[0].cars| else 0) +
      CycleDetections(frameCounter + 1, frames[1..])
  }

  /** A whole feed keeps the registry invariant. */
  lemma {:induction false} RunFeedValid(r: Registry, frames: seq<FrameInput>, thickness: nat)
    requires Valid(r) && Fits(r, frames, thickness)
    ensures Valid(RunFeed(r, frames, thickness).0)
    decreases |frames|
  {
    if frames != [] {
      StepFrameValid(r, frames[0], thickness);
      RunFeedValid(StepFrame(r, frames[0], thickness).0, frames[1..], thickness);
    }
  }

  /** Over a feed the frame counter rises by the number of frames. */
  lemma {:induction false} RunFrameCount(r: Registry, frames: seq<FrameInput>, thickness: nat)
    requires Tracked(r) && Fits(r, frames, thickness)
    ensures RunFeed(r, frames, thickness).0.frameCounter == r.frameCounter + |frames|
    decreases |frames|
  {
    if frames != [] {
      StepFrameCounters(r, frames[0], thickness);
      RunFrameCount(StepFrame(r, frames[0], thickness).0, frames[1..], thickness);
    }
  }

  /**
   * Over a feed the id counter rises by exactly the number of boxes the
   * detection frames report, so it never decreases and no id is reused.
   */
  lemma {:induction false} RunIdCount(r: Registry, frames: seq<FrameInput>, thickness: nat)
    requires Tracked(r) && Fits(r, frames, thickness)
    ensures RunFeed(r, frames, thickness).0.currentCarID == r.currentCarID + CycleDetections(r.frameCounter, frames)
    decreases |frames|
  {
    if frames != [] {
      var next := StepFrame(r, frames[0], thickness).0;
      var found := if IsCycle(r.frameCounter + 1) then |frames[0].cars| else 0;
      StepFrameCounters(r, frames[0], thickness);
      assert next.currentCarID == r.currentCarID + found;
      RunIdCount(next, frames[1..], thickness);
      assert CycleDetections(r.frameCounter, frames) == found + CycleDetections(next.frameCounter, frames[1..]);
    }
  }

  /** Once memoised, a speed survives every later frame with its value, detection cycles included. */
  lemma {:induction false} RunSpeedWriteOnce(r: Registry, frames: seq<FrameInput>, thickness: nat, id: nat)
    requires Valid(r) && Fits(r, frames, thickness)
    requires id in r.speed
    ensures id in RunFeed(r, frames, thickness).0.speed
    ensures RunFeed(r, frames, thickness).0.speed[id] == r.speed[id]
    decreases |frames|
  {
    if frames != [] {
      StepFrameSpeed(r, frames[0], thickness, id);
      StepFrameValid(r, frames[0], thickness);
      RunSpeedWriteOnce(StepFrame(r, frames[0], thickness).0, frames[1..], thickness, id);
    }
  }

  /**
   * A feed that ends before its count reaches the next multiple of 10 never
   * detects: starting with no trackers, it creates no tracker and no id and
   * draws nothing on any frame. In particular a feed of at most 9 frames
   * from the start tracks nothing.
   */
  lemma {:induction false} ShortFeedTracksNothing(r: Registry, frames: seq<FrameInput>, thickness: nat)
    requires Tracked(r) && Fits(r, frames, thickness)
    requires r.trackers == [] && r.frameCounter % DetectionInterval + |frames| < DetectionInterval
    ensures RunFeed(r, frames, thickness).0.trackers == []
    ensures RunFeed(r, frames, thickness).0.carIDs == []
    ensures RunFeed(r, frames, thickness).0.currentCarID == r.currentCarID
    ensures forall k :: 0 <= k < |frames| ==> RunFeed(r, frames, thickness).1[k] == []
    decreases |frames|
  {
    if frames != [] {
      var next := StepFrame(r, frames[0], thickness).0;
      assert !IsCycle(r.frameCounter + 1);
      assert (r.frameCounter + 1) % DetectionInterval == r.frameCounter % DetectionInterval + 1;
      ShortFeedTracksNothing(next, frames[1..], thickness);
      assert StepFrame(r, frames[0], thickness).1 == [];
    }
  }

  lemma ShortFeedFromStart(frames: seq<FrameInput>, thickness: nat)
    requires |frames| < DetectionInterval
    requires Tracked(Initial()) && Fits(Initial(), frames, thickness)
    ensures RunFeed(Initial(), frames, thickness).0.carIDs == []
    ensures RunFeed(Initial(), frames, thickness).0.currentCarID == 0
    ensures forall k :: 0 <= k < |frames| ==> RunFeed(Initial(), frames, thickness).1[k] == []
  {
    ShortFeedTracksNothing(Initial(), frames, thickness);
  }

  lemma FirstSightingLabel(previous: Box, s: Speed)
    requires previous == Box(100, 280, 20, 20) && s.squaredPixels == 50
    ensures SpeedMark(previous, s) == Label("52km/h", 110, 275)
  {
    TruncExact(110);
    TruncatedUnique(s, 52);
    assert DecimalString(52) == "52";
  }

  lemma FirstSightingTrack(t: Track, res: TrackResult, thickness: nat)
    requires t == Track(Some(Box(100, 280, 20, 20)), None, None)
    requires res == TrackResult(true, TrackerBox(105.0, 285.0, 20.0, 20.0))
    ensures AdvanceTrack(t, res, thickness).0 ==
      Track(Some(Box(105, 285, 20, 20)), Some(Box(105, 285, 20, 20)), Some(Speed(50)))
    ensures |AdvanceTrack(t, res, thickness).1| == 2
    ensures AdvanceTrack(t, res, thickness).1[0] == Rectangle(105, 285, 125, 305, thickness)
    ensures AdvanceTrack(t, res, thickness).1[1] == Label("52km/h", 110, 275)
  {
    TruncExact(105);
    TruncExact(285);
    TruncExact(20);
    assert Truncate(res.box) == Box(105, 285, 20, 20);
    assert EstimateSpeed(t.previous.value, Truncate(res.box)) == Speed(50);
    var out := AdvanceTrack(t, res, thickness);
    FirstSightingLabel(t.previous.value, out.0.speed.value);
  }

  /**
   * A detection frame finds one car at (100, 280), 20 by 20 pixels, and its
   * tracker already sees it at (105, 285): the new id gets the speed of a
   * (5, 5) displacement, sqrt(50) / 8.8 * 18 * 3.6 km/h, and the frame shows
   * the box and the label "52km/h" at (110, 275).
   */
  lemma FirstSightingMeasured(r: Registry, f: FrameInput, thickness: nat)
    requires Valid(r) && IsCycle(r.frameCounter + 1)
    requires f == FrameInput([Box(100, 280, 20, 20)], [TrackResult(true, TrackerBox(105.0, 285.0, 20.0, 20.0))])
    ensures |f.results| == LiveTrackers(r, f.cars)
    ensures StepFrame(r, f, thickness).0.carIDs == [r.currentCarID]
    ensures StepFrame(r, f, thickness).0.speed == r.speed[r.currentCarID := Speed(50)]
    ensures |StepFrame(r, f, thickness).1| == 2
    ensures StepFrame(r, f, thickness).1[0] == Rectangle(105, 285, 125, 305, thickness)
    ensures StepFrame(r, f, thickness).1[1] == Label("52km/h", 110, 275)
  {
    var counted := r.(frameCounter := r.frameCounter + 1);
    DetectRebuilds(counted, f.cars);
    var d := Detected(r, f.cars);
    var id := r.currentCarID;
    assert d.carIDs == [id];
    assert TrackOf(d, id) == Track(Some(Box(100, 280, 20, 20)), None, None);
    FirstSightingTrack(TrackOf(d, id), f.results[0], thickness);
    var adv := AdvanceTrack(TrackOf(d, id), f.results[0], thickness);
    assert UpdatePrefix(d, f.results, 0, thickness) == (d, []);
    assert StepFrame(r, f, thickness) == (WithTrack(d, id, adv.0), [] + adv.1);
  }
}
