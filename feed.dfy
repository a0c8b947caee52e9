/**
 * The frame source: `ret, frame = video.read()` pulled until the loop stops.
 * `process_video` stops when `not ret or frame is None`;
 * `trackMultipleObjects` stops only when the image is `None`.
 */
module Feed {
  import opened Wrappers
  import opened Tracking

  /** One `video.read()`: the success flag and the frame, if any. */
  datatype Read = Read(ret: bool, image: Option<FrameInput>)

  predicate AppStops(read: Read) {
    !read.ret || read.image.None?
  }

  predicate DetectorStops(read: Read) {
    read.image.None?
  }

  /** The frames `process_video` processes: those read before the first failed read. */
  function AppFrames(attempts: seq<Read>): (frames: seq<FrameInput>)
    ensures |frames| <= |attempts|
    ensures forall k :: 0 <= k < |frames| ==> !AppStops(attempts[k]) && attempts[k].image == Some(frames[k])
    ensures |frames| < |attempts| ==> AppStops(attempts[|frames|])
  {
    if attempts == [] || AppStops(attempts[0]) then []
    else [attempts[0].image.value] + AppFrames(attempts[1..])
  }

  /** The frames `trackMultipleObjects` processes: those read before the first read without an image. */
  function DetectorFrames(attempts: seq<Read>): (frames: seq<FrameInput>)
    ensures |frames| <= |attempts|
    ensures forall k :: 0 <= k < |frames| ==> !DetectorStops(attempts[k]) && attempts[k].image == Some(frames[k])
    ensures |frames| < |attempts| ==> DetectorStops(attempts[|frames|])
  {
    if attempts == [] || DetectorStops(attempts[0]) then []
    else [attempts[0].image.value] + DetectorFrames(attempts[1..])
  }

  /**
   * `process_video` never runs longer than `trackMultipleObjects` on the
   * same attempts: its frames are a prefix of the other's, and the two agree
   * when no read reports `ret == False` while still delivering an image.
   */
  lemma {:induction false} AppFramesPrefix(attempts: seq<Read>)
    ensures |AppFrames(attempts)| <= |DetectorFrames(attempts)|
    ensures AppFrames(attempts) == DetectorFrames(attempts)[..|AppFrames(attempts)|]
    ensures (forall k :: 0 <= k < |attempts| ==> attempts[k].image.Some? ==> attempts[k].ret) ==>
      AppFrames(attempts) == DetectorFrames(attempts)
  {
    if attempts != [] && !AppStops(attempts[0]) {
      AppFramesPrefix(attempts[1..]);
    }
  }
}
