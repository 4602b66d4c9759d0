/** The input vocabulary the viewer receives from the gilrs gamepad library:
    its button and axis identifiers and the event kinds of `EventType`.
    Event timestamps, gamepad ids and the per-event `Code` are not part of
    the model (every pattern in the frame loop ignores them). */
module Events {

  /** gilrs `Button`. */
  datatype Button =
    | South | East | North | West | C | Z
    | LeftTrigger | LeftTrigger2 | RightTrigger | RightTrigger2
    | Select | Start | Mode | LeftThumb | RightThumb
    | DPadUp | DPadDown | DPadLeft | DPadRight
    | Unknown
  {
    /** gilrs `Button::is_dpad`. */
    predicate IsDPad() {
      this == DPadUp || this == DPadDown || this == DPadLeft || this == DPadRight
    }
  }

  /** gilrs `Axis`. */
  datatype Axis =
    | LeftStickX | LeftStickY | LeftZ
    | RightStickX | RightStickY | RightZ
    | DPadX | DPadY
    | Unknown

  /** gilrs `EventType`; analog values are reals (NaN is not modelled). */
  datatype Event =
    | ButtonPressed(Button)
    | ButtonRepeated(Button)
    | ButtonReleased(Button)
    | ButtonChanged(button: Button, value: real)
    | AxisChanged(axis: Axis, value: real)
    | Connected
    | Disconnected
    | Dropped
}
