/** The Windows console decoder of src/os/windows/input.rs: one input record,
    as read by ReadConsoleInputW, becomes one event or one error. The record
    is plain data here (the union layout of INPUT_RECORD is not modelled):
    its event type and the fields of the key-event part that the decoder
    reads. */
module WindowsInput {
  import opened Io
  import opened Input

  /** The key-event part of a record (KEY_EVENT_RECORD): the key-down flag,
      the virtual-key code, the UTF-16 code unit, and the control-key-state
      bit mask. */
  datatype KeyEventRecord = KeyEventRecord(
    keyDown: i32,
    virtualKeyCode: u16,
    unicodeChar: u16,
    controlKeyState: bv32)

  datatype InputRecord = InputRecord(eventType: u16, key: KeyEventRecord)

  const KEY_EVENT: u16 := 0x1
  const FOCUS_EVENT: u16 := 0x10

  const RIGHT_CTRL_PRESSED: bv32 := 0x0004
  const LEFT_CTRL_PRESSED: bv32 := 0x0008
  const SHIFT_PRESSED: bv32 := 0x0010

  /** The record dispatch of `poll_input`: focus records and records of any
      other unknown type are InvalidData, a key record whose key is not down
      is an error of kind Other, and only a key-down record is an event,
      always a key. */
  function DecodeRecord(record: InputRecord): (r: Result<Event>)
    ensures r.Ok? <==> record.eventType == KEY_EVENT && record.key.keyDown != 0
    ensures r.Ok? ==> r.value == Key(ParseKeyEvent(record.key))
    ensures r.Err? ==> r.error == Simple(if record.eventType == KEY_EVENT then Other else InvalidData)
  {
    if record.eventType == FOCUS_EVENT then
      Err(Simple(InvalidData))
    else if record.eventType == KEY_EVENT then
      if record.key.keyDown == 0 then
        Err(Simple(Other))
      else
        Ok(Key(ParseKeyEvent(record.key)))
    else
      Err(Simple(InvalidData))
  }

  /** Either Ctrl key is down. */
  predicate IsCtrl(state: bv32)
    ensures IsCtrl(state) <==> (state & 0x0004 != 0 || state & 0x0008 != 0)
  {
    state & (LEFT_CTRL_PRESSED | RIGHT_CTRL_PRESSED) != 0
  }

  /** A Shift key is down. */
  predicate IsShift(state: bv32)
    ensures IsShift(state) <==> state & 0x0010 != 0
  {
    state & SHIFT_PRESSED != 0
  }

  /** `char::from_u32(u32::from(unit)).unwrap_or(' ')`: a UTF-16 code unit
      that is a surrogate is no character and becomes a space. */
  function CharOf(unit: u16): (c: char)
    ensures !(0xD800 <= unit <= 0xDFFF) <==> c as int == unit as int
    ensures 0xD800 <= unit <= 0xDFFF ==> c == ' '
  {
    if 0xD800 <= unit <= 0xDFFF then ' ' else (unit as int) as char
  }

  /** `char::is_ascii_alphabetic`. */
  predicate IsAsciiAlphabetic(c: char) {
    'A' <= c <= 'Z' || 'a' <= c <= 'z'
  }

  /** `parse_key_event`: the virtual-key table, Tab or BackTab by the Shift
      bit, F1..F24, and otherwise the record's character, as Ctrl when a
      Ctrl key is down and the character is an ASCII letter. */
  function ParseKeyEvent(event: KeyEventRecord): (k: KeyEvent)
    ensures k.F? ==> 1 <= k.n <= 24
  {
    var ctrl := IsCtrl(event.controlKeyState);
    var shift := IsShift(event.controlKeyState);
    var vk := event.virtualKeyCode;
    if vk == 0x08 then Backspace
    else if vk == 0x09 then (if shift then BackTab else Tab)
    else if vk == 0x0D then Char('\n')
    else if vk == 0x1B then Escape
    else if vk == 0x21 then PageUp
    else if vk == 0x22 then PageDown
    else if vk == 0x23 then End
    else if vk == 0x24 then Home
    else if vk == 0x25 then KeyEvent.Left
    else if vk == 0x26 then Up
    else if vk == 0x27 then KeyEvent.Right
    else if vk == 0x28 then Down
    else if vk == 0x2D then Insert
    else if vk == 0x2E then Delete
    else if 0x70 <= vk <= 0x87 then F((vk - 0x6F) as int as u8)
    else
      var c := CharOf(event.unicodeChar);
      if ctrl && IsAsciiAlphabetic(c) then Ctrl(c) else Char(c)
  }

  // ---------------------------------------------------------------------
  // Properties.

  /** The virtual-key codes with a fixed meaning, whatever the modifiers and
      the character field say (VK_BACK, VK_RETURN, VK_ESCAPE, VK_PRIOR,
      VK_NEXT, VK_END, VK_HOME, the arrows, VK_INSERT, VK_DELETE). */
  const FIXED_KEYS: map<u16, KeyEvent> := map[
    0x08 := Backspace, 0x0D := Char('\n'), 0x1B := Escape,
    0x21 := PageUp, 0x22 := PageDown, 0x23 := End, 0x24 := Home,
    0x25 := KeyEvent.Left, 0x26 := Up, 0x27 := KeyEvent.Right, 0x28 := Down,
    0x2D := Insert, 0x2E := Delete]

  /** A focus record is rejected as InvalidData; it never becomes
      FocusGained or FocusLost. */
  lemma FocusRecordRejected(record: InputRecord)
    requires record.eventType == FOCUS_EVENT
    ensures DecodeRecord(record) == Err(Simple(InvalidData))
  {
  }

  /** A key-up record is an error of kind Other, never an event. */
  lemma KeyUpRejected(record: InputRecord)
    requires record.eventType == KEY_EVENT && record.key.keyDown == 0
    ensures DecodeRecord(record) == Err(Simple(Other))
  {
  }

  /** A record of any type other than key and focus is InvalidData. */
  lemma UnknownRecordRejected(record: InputRecord)
    requires record.eventType != KEY_EVENT && record.eventType != FOCUS_EVENT
    ensures DecodeRecord(record) == Err(Simple(InvalidData))
  {
  }

  /** No bit of the control-key state other than 0x0004, 0x0008 and 0x0010
      affects the result (Alt, NumLock, CapsLock and the rest are ignored). */
  lemma OnlyCtrlAndShiftBitsMatter(event: KeyEventRecord, state: bv32)
    requires state & 0x001C == event.controlKeyState & 0x001C
    ensures ParseKeyEvent(event.(controlKeyState := state)) == ParseKeyEvent(event)
  {
    ModifiersAgree(state, event.controlKeyState);
    var changed := event.(controlKeyState := state);
    assert changed.virtualKeyCode == event.virtualKeyCode;
    assert changed.unicodeChar == event.unicodeChar;
  }

  /** Two states that agree on bits 0x001C agree on Ctrl and on Shift. */
  lemma ModifiersAgree(a: bv32, b: bv32)
    requires a & 0x001C == b & 0x001C
    ensures IsCtrl(a) == IsCtrl(b) && IsShift(a) == IsShift(b)
  {
  }

  /** The fixed table applies regardless of modifier state and character. */
  lemma FixedKeyTable(event: KeyEventRecord)
    requires event.virtualKeyCode in FIXED_KEYS
    ensures ParseKeyEvent(event) == FIXED_KEYS[event.virtualKeyCode]
  {
  }

  /** VK_TAB is BackTab (Shift+Tab) exactly when Shift is down. */
  lemma TabKey(event: KeyEventRecord)
    requires event.virtualKeyCode == 0x09
    ensures ParseKeyEvent(event) == (if IsShift(event.controlKeyState) then BackTab else Tab)
  {
  }

  /** Function keys come exactly from VK_F1..VK_F24 (0x70..0x87), and VK
      code v is F(v - 0x6F). */
  lemma FunctionKeys(event: KeyEventRecord)
    ensures ParseKeyEvent(event).F? <==> 0x70 <= event.virtualKeyCode <= 0x87
    ensures ParseKeyEvent(event).F? ==>
      ParseKeyEvent(event).n as int == event.virtualKeyCode as int - 0x6F
  {
  }

  /** Any other virtual-key code reports the record's character, a
      surrogate code unit as a space: Ctrl(c) exactly when a Ctrl key is down
      and c is an ASCII letter, Char(c) otherwise, in the case it was typed. */
  lemma UnmappedKeys(event: KeyEventRecord)
    requires event.virtualKeyCode !in FIXED_KEYS && event.virtualKeyCode != 0x09
    requires !(0x70 <= event.virtualKeyCode <= 0x87)
    ensures var c := if 0xD800 <= event.unicodeChar <= 0xDFFF then ' '
                     else (event.unicodeChar as int) as char;
      (ParseKeyEvent(event) == Ctrl(c) <==> IsCtrl(event.controlKeyState) && IsAsciiAlphabetic(c)) &&
      (ParseKeyEvent(event) == Char(c) <==> !(IsCtrl(event.controlKeyState) && IsAsciiAlphabetic(c)))
  {
  }
}
