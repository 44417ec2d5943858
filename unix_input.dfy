/** The POSIX input decoder of src/os/unix/input.rs: the first byte read from
    stdin is classified as a control key, the start of an ANSI escape sequence
    (SS3 `ESC O` or CSI `ESC [`), or the lead byte of a UTF-8 character, and
    further bytes are pulled from the reader on demand.

    The reader (`Iterator<Item = io::Result<u8>>` over read(2)) is a sequence
    of pulls `s` and a cursor `pos`: each pull yields a byte or a read error,
    and pulling past the end of `s` yields `None` (read(2) returned 0). Every
    parser returns its result together with the cursor after it, so the number
    of bytes each path consumes is explicit. Nothing is ever pushed back. */
module UnixInput {
  import opened Io
  import Utf8

  // ---------------------------------------------------------------------
  // The event model the POSIX decoder builds (`crate::input::{Event, Key,
  // KeyModifiers, KeyState}`).

  datatype Key =
    | Backspace
    | Left
    | Right
    | Up
    | Down
    | Home
    | End
    | PageUp
    | PageDown
    | Tab
    | BackTab
    | Delete
    | Insert
    | F(n: u8)
    | Char(c: char)
    | Null
    | Esc

  datatype Modifier = Ctrl | Alt | Shift | Meta | Super | Hyper | CapsLock | NumLock

  /** A set of modifiers; NONE is the empty set. */
  type KeyModifiers = set<Modifier>

  const NONE: KeyModifiers := {}
  const CTRL: KeyModifiers := {Ctrl}
  const SHIFT: KeyModifiers := {Shift}

  datatype KeyState = Pressed | Released | Repeated

  datatype Event =
    | KeyEvent(key: Key, modifiers: KeyModifiers, state: KeyState)
    | FocusGained
    | FocusLost

  /** A key press as the decoder reports it. */
  function Press(key: Key, modifiers: KeyModifiers): Event {
    KeyEvent(key, modifiers, Pressed)
  }

  /** The shape of every event the decoder returns: a pressed key with no
      modifier, Ctrl alone or Shift alone. */
  predicate IsDecodedKey(e: Event) {
    e.KeyEvent? && e.state == Pressed && e.modifiers in {NONE, CTRL, SHIFT}
  }

  // ---------------------------------------------------------------------
  // The reader.

  /** The outcome of one `iter.next()` that returned `Some`. */
  datatype Item = Byte(b: u8) | ReadErr(e: IoError)

  /** A parser's result and the cursor after it. */
  datatype Step<T> = Step(result: T, pos: nat)

  /** `iter.next()`: the pull at the cursor, or `None` past the end. */
  function Next(s: seq<Item>, pos: nat): (r: Step<Option<Item>>)
    ensures r.result.Some? <==> pos < |s|
    ensures r.result.Some? ==> r.result.value == s[pos] && r.pos == pos + 1
    ensures r.result.None? ==> r.pos == pos
  {
    if pos < |s| then Step(Some(s[pos]), pos + 1) else Step(None, pos)
  }

  /** The reader that yields the given bytes, without read errors. */
  function ItemsOf(bs: seq<u8>): seq<Item> {
    seq(|bs|, i requires 0 <= i < |bs| => Byte(bs[i]))
  }

  /** The pulls from `pos` on yield the bytes `bs`, one by one. */
  predicate Yields(s: seq<Item>, pos: nat, bs: seq<u8>)
    decreases |bs|
  {
    bs == [] || (pos < |s| && s[pos] == Byte(bs[0]) && Yields(s, pos + 1, bs[1..]))
  }

  const ESC: u8 := 0x1B

  /** The error of the escape-sequence path, whatever went wrong. */
  const PARSE_ERROR: IoError := Custom(Other, "Could not parse event")

  /** The error of the UTF-8 path when the stream ends or four pulls do not
      complete a character. */
  const UTF8_ERROR: IoError := Custom(InvalidData, "Input char is not valid UTF-8")

  // ---------------------------------------------------------------------
  // The decoder.

  /** `try_parse_event`: decode one event whose first byte is `item`. Only an
      ESC or a non-ASCII lead byte pulls further bytes; at most four are
      pulled; every event returned is a pressed key with modifiers NONE,
      CTRL or SHIFT. */
  function TryParseEvent(item: u8, s: seq<Item>, pos: nat): (r: Step<Result<Event>>)
    ensures pos <= r.pos <= pos + 4
    ensures item != ESC && item < 0x80 ==> r.pos == pos
    ensures r.result.Ok? ==> IsDecodedKey(r.result.value)
  {
    if item == 0x0A then
      Step(Ok(Press(Char('j'), CTRL)), pos)
    else if item == 0x0D then
      Step(Ok(Press(Char('\n'), NONE)), pos)
    else if item == 0x09 then
      Step(Ok(Press(Tab, NONE)), pos)
    else if item == 0x7F then
      Step(Ok(Press(Backspace, NONE)), pos)
    else if item == 0x00 then
      Step(Ok(Press(Null, NONE)), pos)
    else if 0x01 <= item <= 0x1F then
      if item == ESC then
        TryParseAnsiSequence(s, pos)
      else
        Step(Ok(Press(Char((item + 96) as char), CTRL)), pos)
    else
      assert item < 0x80 ==> Utf8Pull([item], s, pos).pos == pos by {
        if item < 0x80 { AsciiLeadPullsNothing(item, s, pos); }
      }
      var u := Utf8Pull([item], s, pos);
      Step(if u.result.Ok? then Ok(Press(Char(u.result.value), NONE)) else Err(u.result.error), u.pos)
  }

  /** `parse_utf8_char`, stated by the bytes it pulls: `acc` holds the lead
      byte and the bytes pulled so far (at most four pulls). As soon as `acc`
      is accepted by `from_utf8` its first character is the result; a pull
      that finds the end of the stream fails with UTF8_ERROR, one that finds a
      read error fails with that error, and after four pulls the result is
      UTF8_ERROR without a further check. */
  function Utf8Pull(acc: seq<u8>, s: seq<Item>, pos: nat): (r: Step<Result<char>>)
    requires 1 <= |acc| <= 5
    ensures pos <= r.pos <= pos + 5 - |acc|
    decreases 5 - |acc|
  {
    if |acc| == 5 then
      Step(Err(UTF8_ERROR), pos)
    else if Utf8.IsValid(acc) then
      Step(Ok(Utf8.FirstChar(acc)), pos)
    else
      match Next(s, pos)
      case Step(Some(Byte(b)), p) => Utf8Pull(acc + [b], s, p)
      case Step(Some(ReadErr(e)), p) => Step(Err(e), p)
      case Step(None, p) => Step(Err(UTF8_ERROR), p)
  }

  /** `parse_utf8_char` as the source writes it: a loop of at most four
      rounds that checks the bytes collected so far and pulls one more. */
  method ParseUtf8Char(c: u8, s: seq<Item>, pos: nat) returns (r: Result<char>, next: nat)
    ensures Step(r, next) == Utf8Pull([c], s, pos)
  {
    var bytes := [c];
    next := pos;
    for i := 1 to 5
      invariant |bytes| == i
      invariant Utf8Pull(bytes, s, next) == Utf8Pull([c], s, pos)
    {
      if Utf8.IsValid(bytes) {
        return Ok(Utf8.FirstChar(bytes)), next;
      }
      var pulled := Next(s, next);
      next := pulled.pos;
      match pulled.result {
        case Some(Byte(b)) =>
          bytes := bytes + [b];
        case Some(ReadErr(e)) =>
          return Err(e), next;
        case None =>
          return Err(UTF8_ERROR), next;
      }
    }
    r := Err(UTF8_ERROR);
  }

  /** `try_parse_ansi_sequence`: after ESC, `O` then a byte in `P..=s` is
      the function key F(1 + byte - 'P'), `[` goes to the CSI decoder, and
      every other outcome (another byte, end of stream, a read error, a CSI
      mismatch) is PARSE_ERROR. At most three bytes are pulled. */
  function TryParseAnsiSequence(s: seq<Item>, pos: nat): (r: Step<Result<Event>>)
    ensures pos <= r.pos <= pos + 3
    ensures r.result.Err? ==> r.result.error == PARSE_ERROR
    ensures r.result.Ok? ==> IsDecodedKey(r.result.value)
    ensures r.result.Ok? && r.result.value.key.F? ==> 1 <= r.result.value.key.n <= 36
  {
    match Next(s, pos)
    case Step(Some(Byte(b)), p) =>
      if b == 'O' as u8 then
        match Next(s, p)
        case Step(Some(Byte(v)), p2) =>
          if 'P' as u8 <= v <= 's' as u8 then
            Step(Ok(Press(F(1 + v - 'P' as u8), NONE)), p2)
          else
            Step(Err(PARSE_ERROR), p2)
        case Step(_, p2) => Step(Err(PARSE_ERROR), p2)
      else if b == '[' as u8 then
        var csi := TryParseCsiSequence(s, p);
        Step(if csi.result.Some? then Ok(csi.result.value) else Err(PARSE_ERROR), csi.pos)
      else
        Step(Err(PARSE_ERROR), p)
    case Step(_, p) => Step(Err(PARSE_ERROR), p)
  }

  /** `try_parse_csi_sequence`: after `ESC [`, a final byte D/C/A/B/H/F is an
      arrow, Home or End key, `Z` is Shift+Tab, `[` followed by `A..=E` is
      F1..F5; anything else is no match. At most two bytes are pulled. */
  function TryParseCsiSequence(s: seq<Item>, pos: nat): (r: Step<Option<Event>>)
    ensures pos <= r.pos <= pos + 2
    ensures r.result.Some? ==> IsDecodedKey(r.result.value)
    ensures r.result.Some? && r.result.value.key.F? ==> 1 <= r.result.value.key.n <= 5
  {
    match Next(s, pos)
    case Step(Some(Byte(b)), p) =>
      if b == '[' as u8 then
        match Next(s, p)
        case Step(Some(Byte(v)), p2) =>
          if 'A' as u8 <= v <= 'E' as u8 then
            Step(Some(Press(F(1 + v - 'A' as u8), NONE)), p2)
          else
            Step(None, p2)
        case Step(_, p2) => Step(None, p2)
      else if b == 'D' as u8 then Step(Some(Press(Left, NONE)), p)
      else if b == 'C' as u8 then Step(Some(Press(Right, NONE)), p)
      else if b == 'A' as u8 then Step(Some(Press(Up, NONE)), p)
      else if b == 'B' as u8 then Step(Some(Press(Down, NONE)), p)
      else if b == 'H' as u8 then Step(Some(Press(Home, NONE)), p)
      else if b == 'F' as u8 then Step(Some(Press(End, NONE)), p)
      else if b == 'Z' as u8 then Step(Some(Press(Tab, SHIFT)), p)
      else Step(None, p)
    case Step(_, p) => Step(None, p)
  }

  // ---------------------------------------------------------------------
  // Properties of the single-byte cases.

  /** An ASCII lead byte is a whole character: nothing further is pulled. */
  lemma AsciiLeadPullsNothing(c: u8, s: seq<Item>, pos: nat)
    requires c < 0x80
    ensures Utf8Pull([c], s, pos) == Step(Ok(c as char), pos)
  {
    Utf8.CharEncodingIsValid([c]);
  }

  /** 0x0A is Ctrl+'j', 0x0D is Enter reported as '\n', 0x09 Tab, 0x7F
      Backspace and 0x00 Null; none of them pulls another byte. */
  lemma NamedControlBytes(s: seq<Item>, pos: nat)
    ensures TryParseEvent(0x0A, s, pos) == Step(Ok(Press(Char('j'), CTRL)), pos)
    ensures TryParseEvent(0x0D, s, pos) == Step(Ok(Press(Char('\n'), NONE)), pos)
    ensures TryParseEvent(0x09, s, pos) == Step(Ok(Press(Tab, NONE)), pos)
    ensures TryParseEvent(0x7F, s, pos) == Step(Ok(Press(Backspace, NONE)), pos)
    ensures TryParseEvent(0x00, s, pos) == Step(Ok(Press(Null, NONE)), pos)
  {
  }

  /** Every other byte in 0x01..0x1F except ESC is Ctrl with the character
      96 places higher (0x01 is Ctrl+'a'), and pulls nothing. */
  lemma CtrlCharacters(b: u8, s: seq<Item>, pos: nat)
    requires 0x01 <= b <= 0x1F && b != 0x09 && b != 0x0A && b != 0x0D && b != ESC
    ensures TryParseEvent(b, s, pos) == Step(Ok(Press(Char((b as int + 96) as char), CTRL)), pos)
    ensures 'a' as int <= b as int + 96 <= 0x7F
  {
  }

  /** A printable ASCII byte is the character itself, without modifiers,
      and pulls nothing. */
  lemma PrintableAscii(b: u8, s: seq<Item>, pos: nat)
    requires 0x20 <= b <= 0x7E
    ensures TryParseEvent(b, s, pos) == Step(Ok(Press(Char(b as char), NONE)), pos)
  {
    AsciiLeadPullsNothing(b, s, pos);
  }

  // ---------------------------------------------------------------------
  // Properties of the escape-sequence path.

  /** The escape sequences the decoder accepts, as the bytes that follow ESC:
      `O` and a byte in `P..=s`; `[` and one of D, C, A, B, H, F, Z; or
      `[ [` and a byte in `A..=E`. */
  predicate IsRecognizedEscape(items: seq<Item>) {
    (|items| == 2 && items[0] == Byte('O' as u8) && items[1].Byte? &&
     'P' as u8 <= items[1].b <= 's' as u8) ||
    (|items| == 2 && items[0] == Byte('[' as u8) && items[1].Byte? &&
     items[1].b in {'D' as u8, 'C' as u8, 'A' as u8, 'B' as u8, 'H' as u8, 'F' as u8, 'Z' as u8}) ||
    (|items| == 3 && items[0] == Byte('[' as u8) && items[1] == Byte('[' as u8) && items[2].Byte? &&
     'A' as u8 <= items[2].b <= 'E' as u8)
  }

  /** An escape sequence succeeds only on a recognized sequence, and then it
      has consumed exactly that sequence. */
  lemma EscapeAcceptedOnly(s: seq<Item>, pos: nat)
    ensures var r := TryParseEvent(ESC, s, pos);
      r.result.Ok? ==> r.pos <= |s| && IsRecognizedEscape(s[pos..r.pos])
  {
  }

  /** Every recognized sequence succeeds and consumes exactly its bytes. */
  lemma EscapeAcceptsRecognized(s: seq<Item>, pos: nat, k: nat)
    requires pos + k <= |s| && IsRecognizedEscape(s[pos..pos + k])
    ensures TryParseEvent(ESC, s, pos).result.Ok?
    ensures TryParseEvent(ESC, s, pos).pos == pos + k
  {
    assert s[pos] == s[pos..pos + k][0];
    assert s[pos + 1] == s[pos..pos + k][1];
    if k == 3 {
      assert s[pos + 2] == s[pos..pos + k][2];
    }
  }

  /** SS3 function keys: `ESC O v` with v in `P..=s` is F(1 + v - 'P'),
      F1 to F36, and the byte arithmetic stays in range. */
  lemma Ss3FunctionKey(v: u8, s: seq<Item>, pos: nat)
    requires pos + 2 <= |s| && s[pos] == Byte('O' as u8) && s[pos + 1] == Byte(v)
    requires 'P' as u8 <= v <= 's' as u8
    ensures 1 <= v as int - 'P' as int + 1 <= 36
    ensures TryParseEvent(ESC, s, pos) ==
            Step(Ok(Press(F((v as int - 'P' as int + 1) as u8), NONE)), pos + 2)
  {
  }

  /** CSI keys: `ESC [` then D, C, A, B, H, F is Left, Right, Up, Down, Home,
      End without modifiers, and `Z` is Tab with Shift; two bytes are
      consumed. */
  lemma CsiKeys(b: u8, s: seq<Item>, pos: nat)
    requires pos + 2 <= |s| && s[pos] == Byte('[' as u8) && s[pos + 1] == Byte(b)
    ensures var r := TryParseEvent(ESC, s, pos);
      (b == 'D' as u8 ==> r == Step(Ok(Press(Left, NONE)), pos + 2)) &&
      (b == 'C' as u8 ==> r == Step(Ok(Press(Right, NONE)), pos + 2)) &&
      (b == 'A' as u8 ==> r == Step(Ok(Press(Up, NONE)), pos + 2)) &&
      (b == 'B' as u8 ==> r == Step(Ok(Press(Down, NONE)), pos + 2)) &&
      (b == 'H' as u8 ==> r == Step(Ok(Press(Home, NONE)), pos + 2)) &&
      (b == 'F' as u8 ==> r == Step(Ok(Press(End, NONE)), pos + 2)) &&
      (b == 'Z' as u8 ==> r == Step(Ok(Press(Tab, SHIFT)), pos + 2))
  {
  }

  /** Legacy console function keys: `ESC [ [ v` with v in `A..=E` is F1..F5. */
  lemma CsiFunctionKey(v: u8, s: seq<Item>, pos: nat)
    requires pos + 3 <= |s| && s[pos] == Byte('[' as u8) && s[pos + 1] == Byte('[' as u8)
    requires s[pos + 2] == Byte(v) && 'A' as u8 <= v <= 'E' as u8
    ensures TryParseEvent(ESC, s, pos) ==
            Step(Ok(Press(F((v as int - 'A' as int + 1) as u8), NONE)), pos + 3)
  {
  }

  /** A read error right after ESC is not passed through: it becomes the
      generic parse error, and the failed pull counts as consumed. */
  lemma EscapeReadErrorHidden(e: IoError, s: seq<Item>, pos: nat)
    requires pos < |s| && s[pos] == ReadErr(e)
    ensures TryParseEvent(ESC, s, pos) == Step(Err(PARSE_ERROR), pos + 1)
  {
  }

  /** A truncated sequence (`ESC [` then end of stream) is an error, never an
      event; the `[` stays consumed. */
  lemma EscapeTruncated(s: seq<Item>, pos: nat)
    requires |s| == pos + 1 && s[pos] == Byte('[' as u8)
    ensures TryParseEvent(ESC, s, pos) == Step(Err(PARSE_ERROR), pos + 1)
  {
  }

  // ---------------------------------------------------------------------
  // Properties of the UTF-8 path.

  /** No non-empty proper prefix of `acc` is accepted by `from_utf8`: what
      holds of the bytes collected before each check. */
  predicate NoValidProperPrefix(acc: seq<u8>) {
    forall j :: 1 <= j < |acc| ==> !Utf8.IsValid(acc[..j])
  }

  lemma ItemsOfAppend(a: seq<u8>, b: seq<u8>)
    ensures ItemsOf(a + b) == ItemsOf(a) + ItemsOf(b)
  {
  }

  /** On success the bytes collected and pulled are exactly the encoding of
      the character returned. */
  lemma {:induction false} Utf8PullSound(acc: seq<u8>, s: seq<Item>, pos: nat)
    requires 1 <= |acc| <= 5 && NoValidProperPrefix(acc) && pos <= |s|
    ensures var r := Utf8Pull(acc, s, pos);
      r.result.Ok? ==> r.pos <= |s| && ItemsOf(acc) + s[pos..r.pos] == ItemsOf(Utf8.Encode(r.result.value))
    decreases 5 - |acc|
  {
    var r := Utf8Pull(acc, s, pos);
    if |acc| == 5 {
    } else if Utf8.IsValid(acc) {
      Utf8.ShortestValidIsChar(acc);
      Utf8.EncodeDecode(acc);
      assert s[pos..pos] == [];
    } else if pos < |s| && s[pos].Byte? {
      var b := s[pos].b;
      var acc' := acc + [b];
      assert r == Utf8Pull(acc', s, pos + 1);
      NoValidProperPrefixExtend(acc, b);
      Utf8PullSound(acc', s, pos + 1);
      if r.result.Ok? {
        ItemsOfAppend(acc, [b]);
        assert ItemsOf([b]) == [s[pos]];
        assert s[pos..r.pos] == [s[pos]] + s[pos + 1..r.pos];
        assert ItemsOf(acc) + s[pos..r.pos] == ItemsOf(acc') + s[pos + 1..r.pos];
      }
    }
  }

  /** Pulling one more byte after a failed check keeps every proper prefix
      rejected. */
  lemma NoValidProperPrefixExtend(acc: seq<u8>, b: u8)
    requires NoValidProperPrefix(acc) && !Utf8.IsValid(acc)
    ensures NoValidProperPrefix(acc + [b])
  {
    var acc' := acc + [b];
    forall j | 1 <= j < |acc'| ensures !Utf8.IsValid(acc'[..j]) {
      if j < |acc| { assert acc'[..j] == acc[..j]; } else { assert acc'[..j] == acc; }
    }
  }

  /** `parse_utf8_char` is sound: when it returns a character, the lead byte
      followed by the pulled bytes is that character's UTF-8 encoding. */
  lemma ParseUtf8CharSound(c: u8, s: seq<Item>, pos: nat)
    requires pos <= |s|
    ensures var r := Utf8Pull([c], s, pos);
      r.result.Ok? ==> r.pos <= |s| && [Byte(c)] + s[pos..r.pos] == ItemsOf(Utf8.Encode(r.result.value))
  {
    Utf8PullSound([c], s, pos);
  }

  /** Fed the rest of a character's encoding, the pulls complete exactly that
      encoding and return the character. */
  lemma {:induction false} Utf8PullComplete(e: seq<u8>, k: nat, s: seq<Item>, pos: nat)
    requires Utf8.IsCharEncoding(e) && 1 <= k <= |e|
    requires Yields(s, pos, e[k..])
    ensures Utf8Pull(e[..k], s, pos) == Step(Ok(Utf8.Decode(e)), pos + |e| - k)
    decreases |e| - k
  {
    if k == |e| {
      assert e[..k] == e;
      Utf8.CharEncodingIsValid(e);
    } else {
      Utf8.ProperPrefixInvalid(e, k);
      assert e[k..][0] == e[k] && e[k..][1..] == e[k + 1..];
      assert e[..k] + [e[k]] == e[..k + 1];
      Utf8PullComplete(e, k + 1, s, pos + 1);
    }
  }

  /** `parse_utf8_char` is complete: a lead byte followed by the rest of a
      character's encoding decodes to that character and consumes exactly the
      rest of the encoding. */
  lemma ParseUtf8CharComplete(ch: char, s: seq<Item>, pos: nat)
    requires Yields(s, pos, Utf8.Encode(ch)[1..])
    ensures Utf8Pull([Utf8.Encode(ch)[0]], s, pos) == Step(Ok(ch), pos + |Utf8.Encode(ch)| - 1)
  {
    var e := Utf8.Encode(ch);
    assert e[..1] == [e[0]];
    Utf8PullComplete(e, 1, s, pos);
  }

  /** A non-ASCII character typed as its UTF-8 bytes decodes to that
      character without modifiers. */
  lemma NonAsciiCharacter(ch: char, s: seq<Item>, pos: nat)
    requires ch as int >= 0x80
    requires Yields(s, pos, Utf8.Encode(ch)[1..])
    ensures TryParseEvent(Utf8.Encode(ch)[0], s, pos) ==
            Step(Ok(Press(Char(ch), NONE)), pos + |Utf8.Encode(ch)| - 1)
  {
    ParseUtf8CharComplete(ch, s, pos);
  }

  /** How the UTF-8 path fails: with UTF8_ERROR when a pull found the end of
      the stream or all pulls were made, or with the read error of the last
      pull, unchanged. */
  lemma {:induction false} Utf8PullErrors(acc: seq<u8>, s: seq<Item>, pos: nat)
    requires 1 <= |acc| <= 5
    ensures var r := Utf8Pull(acc, s, pos);
      r.result.Err? ==>
        (r.result.error == UTF8_ERROR && (r.pos >= |s| || r.pos == pos + 5 - |acc|)) ||
        (pos < r.pos <= |s| && s[r.pos - 1] == ReadErr(r.result.error))
    decreases 5 - |acc|
  {
    if |acc| < 5 && !Utf8.IsValid(acc) && pos < |s| && s[pos].Byte? {
      Utf8PullErrors(acc + [s[pos].b], s, pos + 1);
    }
  }

  /** A lead byte that is not a whole character (0x80..0xFF) needs more:
      at the end of the stream the result is UTF8_ERROR, and a read error
      on the first pull is returned as it is. */
  lemma Utf8FirstPull(c: u8, s: seq<Item>, pos: nat)
    requires c >= 0x80
    ensures pos >= |s| ==> Utf8Pull([c], s, pos) == Step(Err(UTF8_ERROR), pos)
    ensures pos < |s| && s[pos].ReadErr? ==> Utf8Pull([c], s, pos) == Step(Err(s[pos].e), pos + 1)
  {
    assert Utf8.Width(c) != 1;
  }

  /** When no prefix of length 1 to 4 of the lead byte and the next four
      bytes is accepted, a fifth byte is still pulled (four pulls in all)
      and the result is UTF8_ERROR. */
  lemma Utf8FifthBytePulled(c: u8, s: seq<Item>, pos: nat)
    requires pos + 4 <= |s|
    requires forall k :: pos <= k < pos + 4 ==> s[k].Byte?
    requires var t := [c, s[pos].b, s[pos + 1].b, s[pos + 2].b];
      forall j :: 1 <= j <= 4 ==> !Utf8.IsValid(t[..j])
    ensures Utf8Pull([c], s, pos) == Step(Err(UTF8_ERROR), pos + 4)
  {
    var t := [c, s[pos].b, s[pos + 1].b, s[pos + 2].b];
    assert t[..1] == [c] && !Utf8.IsValid(t[..1]);
    assert t[..2] == [c, s[pos].b] && !Utf8.IsValid(t[..2]);
    assert t[..3] == [c, s[pos].b, s[pos + 1].b] && !Utf8.IsValid(t[..3]);
    assert t[..4] == t && !Utf8.IsValid(t[..4]);
    assert [c] + [s[pos].b] == t[..2];
    assert t[..2] + [s[pos + 1].b] == t[..3];
    assert t[..3] + [s[pos + 2].b] == t;
    assert Utf8Pull([c], s, pos) == Utf8Pull(t[..2], s, pos + 1);
    assert Utf8Pull(t[..2], s, pos + 1) == Utf8Pull(t[..3], s, pos + 2);
    assert Utf8Pull(t[..3], s, pos + 2) == Utf8Pull(t, s, pos + 3);
    assert Utf8Pull(t, s, pos + 3) == Utf8Pull(t + [s[pos + 3].b], s, pos + 4);
  }

  // ---------------------------------------------------------------------
  // The round trip of test_parse_utf8.

  /** The UTF-8 encoding of a string, character by character. */
  function EncodeString(str: string): (bs: seq<u8>)
    ensures str == [] <==> bs == []
  {
    if str == [] then [] else Utf8.Encode(str[0]) + EncodeString(str[1..])
  }

  /** The test's loop: take one byte, hand it and the reader to
      `parse_utf8_char`, repeat `n` times; None where the test would panic. */
  function DecodeChars(s: seq<Item>, pos: nat, n: nat): (r: Option<string>)
    ensures r.Some? ==> |r.value| == n
    decreases n
  {
    if n == 0 then Some([])
    else
      match Next(s, pos)
      case Step(Some(Byte(b)), p) =>
        var u := Utf8Pull([b], s, p);
        if u.result.Err? then None
        else
          (match DecodeChars(s, u.pos, n - 1)
           case Some(rest) => Some([u.result.value] + rest)
           case None => None)
      case Step(_, _) => None
  }

  /** test_parse_utf8, for every string and every reader position (the test
      uses "abcéŷ¤£€ù%323" from the start of its bytes): pulls that yield the
      UTF-8 bytes of a string decode back to it character by character. */
  lemma {:induction false} DecodeEncodedString(str: string, s: seq<Item>, pos: nat)
    requires Yields(s, pos, EncodeString(str))
    ensures DecodeChars(s, pos, |str|) == Some(str)
  {
    if str != [] {
      var e := Utf8.Encode(str[0]);
      var rest := EncodeString(str[1..]);
      var n := |str| - 1;
      assert EncodeString(str) == e + rest;
      YieldsAppend(s, pos, e, rest);
      DecodeEncodedString(str[1..], s, pos + |e|);
      DecodeCharsStep(e, s, pos, n);
      assert [str[0]] + str[1..] == str;
    }
  }

  /** Pulls that yield `a + b` yield `a`, then `b`. */
  lemma {:induction false} YieldsAppend(s: seq<Item>, pos: nat, a: seq<u8>, b: seq<u8>)
    requires Yields(s, pos, a + b)
    ensures Yields(s, pos, a) && Yields(s, pos + |a|, b)
    decreases |a|
  {
    if a != [] {
      assert (a + b)[0] == a[0] && (a + b)[1..] == a[1..] + b;
      YieldsAppend(s, pos + 1, a[1..], b);
    } else {
      assert a + b == b;
    }
  }

  /** One round of the test's loop on the bytes of one character. */
  lemma DecodeCharsStep(e: seq<u8>, s: seq<Item>, pos: nat, n: nat)
    requires Utf8.IsCharEncoding(e) && Yields(s, pos, e)
    ensures var rest := DecodeChars(s, pos + |e|, n);
      DecodeChars(s, pos, n + 1) == if rest.Some? then Some([Utf8.Decode(e)] + rest.value) else None
  {
    assert e[..1] == [e[0]];
    Utf8PullComplete(e, 1, s, pos + 1);
  }
}
