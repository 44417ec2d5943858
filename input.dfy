/** The flat event model of src/input.rs that the Windows console decoder
    builds: `Event::Key(KeyEvent)`. The Windows decoder's `ShiftTab` is the
    `BackTab` this enum declares. */
module Input {
  import opened Io

  datatype Event =
    | Key(key: KeyEvent)
    | Mouse(mouse: MouseEvent)
    | FocusGained
    | FocusLost

  datatype KeyEvent =
    | Backspace
    | Up
    | Down
    | Left
    | Right
    | Home
    | End
    | PageUp
    | PageDown
    | Tab
    | BackTab
    | Delete
    | Insert
    | F(n: u8)
    | Char(c: char)
    | Ctrl(c: char)
    | Escape
    | Null

  datatype MouseEvent =
    | Press(button: MouseButton, x: u16, y: u16)
    | Release(x: u16, y: u16)
    | Hold(x: u16, y: u16)

  datatype MouseButton = Left | Right | Middle | WheelUp | WheelDown | WheelLeft | WheelRight
}
