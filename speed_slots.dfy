/**
 * The speed memo as the program writes it: a list of 1000 slots indexed by
 * car id. Ids are issued without bound, so the 1001st detected car makes
 * `speed[carID]` raise `IndexError` as soon as its box moves. The rest of
 * the model uses the map `Registry.speed` instead, which is this list with
 * no upper bound on the id.
 */
module SpeedSlots {
  import opened Wrappers
  import opened Geometry
  import opened SpeedEstimation
  import opened Tracking

  const SlotCount: nat := 1000

  /** `speed = [None] * 1000` */
  function InitialSlots(): (slots: seq<Option<Speed>>)
    ensures |slots| == SlotCount
    ensures forall i :: 0 <= i < |slots| ==> slots[i].None?
  {
    seq(SlotCount, _ => None)
  }

  /** `speed[carID]` on a list: `None` stands for `IndexError`. */
  function ReadSlot(slots: seq<Option<Speed>>, id: nat): (r: Option<Option<Speed>>)
    ensures r.None? <==> id >= |slots|
    ensures r.Some? ==> r.value == slots[id]
  {
    if id < |slots| then Some(slots[id]) else None
  }

  /**
   * The memo step of the update loop on the list, for a box that moved:
   * `None` when the read of `speed[carID]` raises, and otherwise the list
   * after the write, which keeps its length.
   */
  function MemoOnList(slots: seq<Option<Speed>>, id: nat, previous: Box, current: Box): (r: Option<seq<Option<Speed>>>)
    ensures r.None? <==> id >= |slots|
    ensures r.Some? ==> |r.value| == |slots|
  {
    match ReadSlot(slots, id)
    case None => None
    case Some(slot) =>
      if slot.None? && InBand(previous.y)
      then Some(slots[id := Some(EstimateSpeed(previous, current))])
      else Some(slots)
  }

  /** Below 1000 the list and the map agree: the slot ends up holding what the map model memoises. */
  lemma MemoOnListAgrees(slots: seq<Option<Speed>>, id: nat, t: Track, res: TrackResult, thickness: nat)
    requires t.previous.Some? && res.success && Truncate(res.box) != t.previous.value
    requires id < |slots| && slots[id] == t.speed
    ensures MemoOnList(slots, id, t.previous.value, Truncate(res.box)) ==
      Some(slots[id := AdvanceTrack(t, res, thickness).0.speed])
  {
    if !(t.speed.None? && InBand(t.previous.value.y)) {
      assert slots[id := t.speed] == slots;
    }
  }

  /**
   * A detection frame that brings the id counter past 1000 and whose last
   * tracker moves: that tracker's id is 1000 or more, its box differs from
   * its `carLocation1` entry so the program reads `speed[carID]`, and on a
   * 1000-slot list that read raises. The map model takes the same frame
   * without error (`StepFrame` is defined on it).
   */
  lemma ThousandAndFirstCar(r: Registry, f: FrameInput, thickness: nat)
    requires Tracked(r) && IsCycle(r.frameCounter + 1)
    requires |f.results| == LiveTrackers(r, f.cars)
    requires r.currentCarID + |f.cars| > SlotCount
    requires f.cars != [] && f.results != [] && f.results[|f.results| - 1].success
    requires Truncate(f.results[|f.results| - 1].box) != f.cars[|f.cars| - 1]
    ensures |Detected(r, f.cars).carIDs| == |f.cars| &&
      Detected(r, f.cars).carIDs[|f.cars| - 1] == r.currentCarID + |f.cars| - 1
    ensures r.currentCarID + |f.cars| - 1 >= SlotCount
    ensures TrackOf(Detected(r, f.cars), r.currentCarID + |f.cars| - 1).previous == Some(f.cars[|f.cars| - 1])
    ensures forall slots: seq<Option<Speed>> :: |slots| == SlotCount ==>
      MemoOnList(slots, r.currentCarID + |f.cars| - 1, f.cars[|f.cars| - 1],
        Truncate(f.results[|f.results| - 1].box)).None?
  {
    DetectRebuilds(r.(frameCounter := r.frameCounter + 1), f.cars);
  }

  /** From the start, the id counter passes 1000 once the detection frames have reported more than 1000 boxes. */
  lemma IdsOutgrowSlots(frames: seq<FrameInput>, thickness: nat)
    requires Tracked(Initial()) && Fits(Initial(), frames, thickness)
    requires CycleDetections(0, frames) > SlotCount
    ensures RunFeed(Initial(), frames, thickness).0.currentCarID > SlotCount
  {
    RunIdCount(Initial(), frames, thickness);
  }
}
