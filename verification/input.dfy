/** The projection toggle of the keyboard handler.

    `ProcessInput` runs once per frame of the render loop. Whenever the P key
    is down during that call, `perspectiveMode` is inverted; the flag starts
    out true. The toggle is level-triggered: holding P inverts the flag on
    every frame it is held, not once per press.
 */
module Input {

  /** `perspectiveMode` before the first frame. */
  const InitialPerspectiveMode: bool := true

  /** One `ProcessInput` call's effect on `perspectiveMode`, `pDown` telling
      whether P is down. */
  function TogglePerspective(perspectiveMode: bool, pDown: bool): (r: bool)
    ensures pDown ==> r != perspectiveMode
    ensures !pDown ==> r == perspectiveMode
  {
    if pDown then (if perspectiveMode then false else true) else perspectiveMode
  }

  /** `perspectiveMode` after one `ProcessInput` call per frame, where
      `pDown[i]` tells whether P was down during frame `i`. */
  function ModeAfterFrames(perspectiveMode: bool, pDown: seq<bool>): bool
    decreases |pDown|
  {
    if pDown == [] then perspectiveMode
    else ModeAfterFrames(TogglePerspective(perspectiveMode, pDown[0]), pDown[1..])
  }

  /** Number of frames during which P was down. */
  function PressedFrames(pDown: seq<bool>): nat
  {
    multiset(pDown)[true]
  }

  /** The flag is back at its start value exactly when P was down during an
      even number of frames. */
  lemma {:induction false} ModeFollowsParity(perspectiveMode: bool, pDown: seq<bool>)
    ensures ModeAfterFrames(perspectiveMode, pDown)
            == (if PressedFrames(pDown) % 2 == 0 then perspectiveMode else !perspectiveMode)
    decreases |pDown|
  {
    if pDown != [] {
      assert pDown == [pDown[0]] + pDown[1..];
      assert multiset(pDown) == multiset{pDown[0]} + multiset(pDown[1..]);
      ModeFollowsParity(TogglePerspective(perspectiveMode, pDown[0]), pDown[1..]);
    }
  }
}
