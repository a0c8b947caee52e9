/**
 * The one-shot capture latch of the dashboard: one flag per camera, and
 * `can_capture` grants a capture the first time it is asked for a camera
 * and refuses it from then on.
 */
module Capture {
  /** The four cameras of the dashboard. */
  const Cameras: seq<string> := ["Depan", "Belakang", "Kanan", "Kiri"]

  class CaptureLatch {
    /** `st.session_state.camera_captured` */
    var cameraCaptured: map<string, bool>

    /** The session starts with every camera not yet captured. */
    constructor ()
      ensures cameraCaptured == map["Depan" := false, "Belakang" := false, "Kanan" := false, "Kiri" := false]
    {
      cameraCaptured := map["Depan" := false, "Belakang" := false, "Kanan" := false, "Kiri" := false];
    }

    /**
     * `can_capture(camera)`: grants exactly when the camera's flag was
     * clear, and the flag is set afterwards in every case; no other camera
     * is touched. A camera without a flag is a `KeyError` in the program,
     * so it is excluded here.
     */
    method CanCapture(camera: string) returns (ok: bool)
      requires camera in cameraCaptured
      modifies this
      ensures ok == !old(cameraCaptured[camera])
      ensures cameraCaptured == old(cameraCaptured)[camera := true]
    {
      if !cameraCaptured[camera] {
        cameraCaptured := cameraCaptured[camera := true];
        ok := true;
      } else {
        ok := false;
      }
    }
  }

  /**
   * A fresh session grants the first capture of a camera, refuses the
   * second, and still grants the first capture of any other camera.
   */
  method CaptureOnce(camera: string, other: string) returns (first: bool, second: bool, firstOther: bool)
    requires camera in Cameras && other in Cameras && camera != other
    ensures first && !second && firstOther
  {
    var latch := new CaptureLatch();
    first := latch.CanCapture(camera);
    second := latch.CanCapture(camera);
    firstOther := latch.CanCapture(other);
  }
}
