/**
 * The video loop as the program runs it: a registry object whose fields
 * are the loop's local state, updated in place frame by frame, and the two
 * drivers `process_video` and `trackMultipleObjects`. Every method is
 * proved to leave exactly the state the value model in `Tracking` computes.
 */
module Pipeline {
  import opened Wrappers
  import opened Geometry
  import opened SpeedEstimation
  import opened Overlay
  import opened Tracking
  import opened Feed

  class TrackRegistry {
    var frameCounter: nat
    var currentCarID: nat
    var trackers: seq<Box>
    var carIDs: seq<nat>
    var carLocation1: map<nat, Box>
    var carLocation2: map<nat, Box>
    var speed: map<nat, Speed>

    /** The fields as a registry value. */
    function State(): Registry
      reads this
    {
      Registry(frameCounter, currentCarID, trackers, carIDs, carLocation1, carLocation2, speed)
    }

    /** The locals before the `while True` loop; the speed memo starts with no entry. */
    constructor ()
      ensures State() == Initial()
    {
      frameCounter := 0;
      currentCarID := 0;
      trackers := [];
      carIDs := [];
      carLocation1 := map[];
      carLocation2 := map[];
      speed := map[];
    }

    /** The detection branch: clear the roster, then one tracker and one fresh id per detected box. */
    method Rebuild(cars: seq<Box>)
      modifies this
      ensures State() == Detect(old(State()), cars)
    {
      trackers := [];
      carLocation1 := map[];
      carLocation2 := map[];
      carIDs := [];
      for i := 0 to |cars|
        invariant State() == AddCars(Clear(old(State())), cars[..i])
      {
        assert cars[..i + 1][..i] == cars[..i];
        var b := cars[i];
        trackers := trackers + [b];
        carLocation1 := carLocation1[currentCarID := b];
        carIDs := carIDs + [currentCarID];
        currentCarID := currentCarID + 1;
      }
      assert cars[..|cars|] == cars;
    }

    /** The body of `for idx, tracker in enumerate(trackers)` for one index, returning what it draws. */
    method UpdateOne(idx: nat, res: TrackResult, thickness: nat) returns (drawn: seq<Mark>)
      requires Tracked(State()) && idx < |carIDs|
      modifies this
      ensures State() == UpdateTrack(old(State()), idx, res, thickness).0
      ensures drawn == UpdateTrack(old(State()), idx, res, thickness).1
    {
      ghost var before := State();
      var carID := carIDs[idx];
      ghost var advanced := AdvanceTrack(TrackOf(before, carID), res, thickness);
      if res.success {
        var b := Truncate(res.box);
        drawn := [BoxMark(b, thickness)];
        carLocation2 := carLocation2[carID := b];
        var previous := carLocation1[carID];
        carLocation1 := carLocation1[carID := b];
        if previous != b {
          if carID !in speed && InBand(previous.y) {
            speed := speed[carID := EstimateSpeed(previous, b)];
          }
          if carID in speed && previous.y >= LabelThreshold {
            drawn := drawn + [SpeedMark(previous, speed[carID])];
          }
        }
        assert drawn == advanced.1;
        assert carLocation1 == Put(before.carLocation1, carID, advanced.0.previous);
        assert carLocation2 == Put(before.carLocation2, carID, advanced.0.current);
        assert speed == Put(before.speed, carID, advanced.0.speed);
      } else {
        drawn := [];
        WithOwnTrack(before, carID);
      }
    }

    /** `for idx, tracker in enumerate(trackers)`, returning what it draws in order. */
    method UpdateTrackers(results: seq<TrackResult>, thickness: nat) returns (marks: seq<Mark>)
      requires Tracked(State()) && |results| == |carIDs|
      modifies this
      ensures State() == UpdatePrefix(old(State()), results, |results|, thickness).0
      ensures marks == UpdatePrefix(old(State()), results, |results|, thickness).1
    {
      ghost var start := State();
      marks := [];
      for idx := 0 to |trackers|
        invariant (State(), marks) == UpdatePrefix(start, results, idx, thickness)
      {
        var drawn := UpdateOne(idx, results[idx], thickness);
        marks := marks + drawn;
      }
    }

    /** One pass of the loop body once a frame has been read. */
    method Step(frame: FrameInput, thickness: nat) returns (marks: seq<Mark>)
      requires Tracked(State()) && |frame.results| == LiveTrackers(State(), frame.cars)
      modifies this
      ensures (State(), marks) == StepFrame(old(State()), frame, thickness)
    {
      frameCounter := frameCounter + 1;
      if frameCounter % DetectionInterval == 0 {
        Rebuild(frame.cars);
      }
      marks := UpdateTrackers(frame.results, thickness);
    }
  }

  /**
   * `process_video`: read until a read fails, and yield the marks of each
   * processed frame; these are the marks the value model draws on the
   * frames before the first failed read.
   */
  method ProcessVideo(attempts: seq<Read>) returns (outputs: seq<seq<Mark>>)
    requires Tracked(Initial()) && Fits(Initial(), AppFrames(attempts), AppThickness)
    ensures outputs == RunFeed(Initial(), AppFrames(attempts), AppThickness).1
  {
    ghost var frames := AppFrames(attempts);
    var registry := new TrackRegistry();
    outputs := [];
    ResumableStart(Initial(), frames, AppThickness);
    var k := 0;
    while k < |attempts|
      invariant k <= |frames|
      invariant Resumable(Initial(), frames, AppThickness, k, registry.State(), outputs)
    {
      var attempt := attempts[k];
      if !attempt.ret || attempt.image.None? {
        break;
      }
      var frame := attempt.image.value;
      ResumableStep(Initial(), frames, AppThickness, k, registry.State(), outputs);
      var marks := registry.Step(frame, AppThickness);
      outputs := outputs + [marks];
      k := k + 1;
    }
    ResumableEnd(Initial(), frames, AppThickness, registry.State(), outputs);
  }

  /**
   * `trackMultipleObjects`: read until a read brings no image, drawing with
   * rectangle thickness 4; the marks are those the value model draws on the
   * frames before the first read without an image.
   */
  method TrackMultipleObjects(attempts: seq<Read>) returns (outputs: seq<seq<Mark>>)
    requires Tracked(Initial()) && Fits(Initial(), DetectorFrames(attempts), DetectorThickness)
    ensures outputs == RunFeed(Initial(), DetectorFrames(attempts), DetectorThickness).1
  {
    ghost var frames := DetectorFrames(attempts);
    var registry := new TrackRegistry();
    outputs := [];
    ResumableStart(Initial(), frames, DetectorThickness);
    var k := 0;
    while k < |attempts|
      invariant k <= |frames|
      invariant Resumable(Initial(), frames, DetectorThickness, k, registry.State(), outputs)
    {
      var attempt := attempts[k];
      if attempt.image.None? {
        break;
      }
      var image := attempt.image.value;
      ResumableStep(Initial(), frames, DetectorThickness, k, registry.State(), outputs);
      var marks := registry.Step(image, DetectorThickness);
      outputs := outputs + [marks];
      k := k + 1;
    }
    ResumableEnd(Initial(), frames, DetectorThickness, registry.State(), outputs);
  }
}
