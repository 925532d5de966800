/** The interaction modes chosen by the mode buttons, and what each mode
    does to the orbit controls and the pointer. */
module Modes {

  const ROTATE: string := "rotate"
  const PAN: string := "pan"
  const SELECT: string := "select"

  /** The two orbit-control switches a mode button sets. */
  datatype Controls = Controls(enableRotate: bool, enablePan: bool)

  /** The switches for a mode: rotating only in "rotate", panning only in
      "pan", neither in any other mode (including "select"). */
  function ControlsFor(mode: string): (c: Controls)
    ensures c.enableRotate <==> mode == ROTATE
    ensures c.enablePan <==> mode == PAN
    ensures !(c.enableRotate && c.enablePan)
  {
    if mode == ROTATE then Controls(true, false)
    else if mode == PAN then Controls(false, true)
    else Controls(false, false)
  }

  /** The cursor a mode button leaves on the canvas. */
  function CursorFor(mode: string): (s: string)
    ensures s == "grab" <==> ControlsFor(mode) != Controls(false, false)
    ensures s != "grab" ==> s == "default"
  {
    if mode == ROTATE || mode == PAN then "grab" else "default"
  }

  /** Pointer events reach the picking logic only in this mode. */
  predicate PicksOnPointer(mode: string)
  {
    mode == SELECT
  }

  /** Whenever pointer picking is live the camera can neither orbit nor pan,
      so a press on a marker never also drags the view. */
  lemma PickingLocksCamera(mode: string)
    requires PicksOnPointer(mode)
    ensures ControlsFor(mode) == Controls(false, false)
    ensures CursorFor(mode) == "default"
  {
  }
}
