# Terminal input decoding and the graphics base64 encoder, in Dafny

This project models three pieces of a small terminal library and proves what
they do:

- **The POSIX input decoder** (`src/os/unix/input.rs`). The first byte read
  from stdin is a control key, the start of an ANSI escape sequence (SS3
  `ESC O`, CSI `ESC [`), or the lead byte of a UTF-8 character. Further
  bytes are pulled from the reader on demand. The reader is a sequence of
  pulls (`Byte(b)` or a read error) and a cursor; pulling past the end is
  `None`. Every parser returns its result together with the cursor after it,
  so the number of bytes each path consumes is stated exactly.
  `parse_utf8_char` is a method with the source's `for` loop, proved equal to
  a recursive specification `Utf8Pull`.
- **The Windows console record decoder** (`src/os/windows/input.rs`). One
  input record, taken as plain data, becomes one event or one error. It
  covers the record-type and key-down dispatch of `poll_input` and
  `parse_key_event`.
- **The base64 encoder** (`src/graphics/base64.rs`). `base64_encode` is a
  method with the source's bit-counter loop and padding loop. It is proved
  equal to the definition of section 4 of RFC 4648 (`Rfc4648`: three bytes to
  four characters, final group padded). That definition is proved equal to
  the bit-level one: character k is the alphabet entry for bits 6k..6k+5 of
  the input, most significant bit first, zero-filled past the end.

UTF-8 (`utf8.dfy`) follows section 4 of RFC 3629. It gives the byte strings
that encode one character, the strings `std::str::from_utf8` accepts, and a
character's encoding and decoding, proved inverse to each other.

Files:

| file | contents |
|---|---|
| `io.dfy` | fixed-width integers, `io::Error`, `io::Result`, `Option` |
| `input.dfy` | the flat event enum of `src/input.rs` (the Windows decoder's target) |
| `utf8.dfy` | RFC 3629 encodings, `from_utf8` acceptance, encode and decode |
| `unix_input.dfy` | the POSIX decoder, its event model and its properties |
| `windows_input.dfy` | the Windows record decoder and its properties |
| `base64.dfy` | the encoder, the RFC 4648 definition, the bit-level specification |

## Model

| member | source | states |
|---|---|---|
| UnixInput.TryParseEvent | src/os/unix/input.rs:79-128 | At most four further bytes are pulled. A byte other than ESC below 0x80 pulls nothing. Every event returned is a pressed key with modifiers NONE, CTRL or SHIFT. |
| UnixInput.NamedControlBytes | src/os/unix/input.rs:83-108 | 0x0A is Ctrl+'j', 0x0D is Char('\n'), 0x09 is Tab, 0x7F is Backspace and 0x00 is Null. None of them pulls a byte. |
| UnixInput.CtrlCharacters | src/os/unix/input.rs:109-120 | Every other byte in 0x01..0x1F except ESC is Ctrl with the character 96 higher, pulling nothing. The character stays within 'a'..0x7F. |
| UnixInput.PrintableAscii | src/os/unix/input.rs:122-126 | A printable ASCII byte is that character with no modifiers, pulling nothing. |
| UnixInput.AsciiLeadPullsNothing | src/os/unix/input.rs:135-140 | An ASCII lead byte is accepted as it is and returned without any pull. |
| UnixInput.TryParseAnsiSequence | src/os/unix/input.rs:146-163 | At most three bytes are pulled after ESC. Every failure is the single "Could not parse event" error of kind Other. Events are pressed keys, and function keys lie in F1..F36. |
| UnixInput.TryParseCsiSequence | src/os/unix/input.rs:165-215 | At most two bytes are pulled after `ESC [`. A match is a pressed key, and function keys lie in F1..F5. |
| UnixInput.EscapeAcceptedOnly | src/os/unix/input.rs:146-215 | An escape sequence succeeds only when the pulled items are a recognized sequence (`O` + `P..=s`, `[` + one of DCABHFZ, `[ [` + `A..=E`). It consumes exactly that sequence. |
| UnixInput.EscapeAcceptsRecognized | src/os/unix/input.rs:146-215 | Every recognized sequence succeeds and consumes exactly its bytes: the converse of EscapeAcceptedOnly. |
| UnixInput.Ss3FunctionKey | src/os/unix/input.rs:152-157 | `ESC O v` with v in `P..=s` is F(1 + v - 'P'), in F1..F36, with no u8 overflow. It consumes two bytes. |
| UnixInput.CsiKeys | src/os/unix/input.rs:178-212 | `ESC [` then D, C, A, B, H or F is Left, Right, Up, Down, Home or End with no modifiers. `Z` is Tab with SHIFT. Two bytes are consumed. |
| UnixInput.CsiFunctionKey | src/os/unix/input.rs:170-175 | `ESC [ [ v` with v in `A..=E` is F1..F5, consuming three bytes. |
| UnixInput.EscapeReadErrorHidden | src/os/unix/input.rs:150-161 | A read error right after ESC becomes the generic parse error and stays consumed. It is not passed through. |
| UnixInput.EscapeTruncated | src/os/unix/input.rs:160-161 | `ESC [` followed by the end of the stream is the parse error, with `[` consumed. |
| UnixInput.Next | src/os/unix/input.rs:141 | A pull yields an item exactly when the cursor is before the end, and then it is the item at the cursor and the cursor advances by one. Past the end it yields nothing and the cursor stays. |
| UnixInput.Utf8Pull | src/os/unix/input.rs:130-144 | Starting from 1 to 5 collected bytes, the pulls stop after at most 5 - (bytes collected) further items. Its success and failure cases are stated by Utf8PullSound, Utf8PullComplete and Utf8PullErrors. |
| UnixInput.ParseUtf8Char | src/os/unix/input.rs:130-144 | The loop of at most four rounds returns exactly what `Utf8Pull` specifies, as result and cursor. |
| UnixInput.Utf8PullSound | src/os/unix/input.rs:135-141 | On success, the collected bytes and the pulled items together are the UTF-8 encoding of the returned character. |
| UnixInput.ParseUtf8CharSound | src/os/unix/input.rs:135-141 | On success, the lead byte followed by the pulled items is the encoding of the returned character. |
| UnixInput.Utf8PullComplete | src/os/unix/input.rs:137-141 | Fed the rest of a character's encoding, the pulls complete exactly that encoding and return the character. |
| UnixInput.ParseUtf8CharComplete | src/os/unix/input.rs:130-144 | A lead byte followed by the rest of a character's encoding gives that character. It consumes exactly the rest of the encoding. |
| UnixInput.NonAsciiCharacter | src/os/unix/input.rs:122-126 | A non-ASCII character typed as its UTF-8 bytes is Char(ch) with no modifiers, consuming its continuation bytes. |
| UnixInput.Utf8PullErrors | src/os/unix/input.rs:134-143 | A failure is either the InvalidData error, at end of stream or after all pulls, or the read error of the last pull, unchanged. |
| UnixInput.Utf8FirstPull | src/os/unix/input.rs:141 | A non-ASCII lead byte at end of stream gives the InvalidData error. A read error on the first pull is returned as it is. |
| UnixInput.Utf8FifthBytePulled | src/os/unix/input.rs:137-143 | When no prefix of length 1..4 is accepted, a fifth byte is still pulled (four pulls in all) and the result is the InvalidData error. |
| UnixInput.DecodeEncodedString | src/os/unix/input.rs:217-227 | For every string, pulls that yield its UTF-8 bytes decode back to it character by character (test_parse_utf8). |
| UnixInput.DecodeChars | src/os/unix/input.rs:222-225 | The test's loop run n times yields exactly n characters whenever no round fails. |
| UnixInput.DecodeCharsStep | src/os/unix/input.rs:222-225 | One round of the test's loop over one character's encoding yields that character, followed by what the later rounds yield. |
| Utf8.IsValid | src/os/unix/input.rs:138 | A non-empty string that `from_utf8` accepts starts with an ASCII byte or a lead byte 0xC2..0xF4, and ends with an ASCII byte or a continuation byte. |
| Utf8.FirstChar | src/os/unix/input.rs:138-139 | The first character of an accepted string is the one whose encoding is the string's first Width(lead) bytes. |
| Utf8.Encode | src/os/unix/input.rs:138-139 | The encoding of a character is a valid RFC 3629 one-character encoding of 1 to 4 bytes, and it decodes back to the character. |
| Utf8.EncodeDecode | src/os/unix/input.rs:138-139 | Every one-character encoding is the encoding of the character it decodes to, so encode and decode are inverse. |
| Utf8.ShortestValidIsChar | src/os/unix/input.rs:138-139 | An accepted string with no shorter accepted prefix is one character's encoding, and `chars().next()` is that character. |
| Utf8.ProperPrefixInvalid | src/os/unix/input.rs:138 | No proper prefix of a one-character encoding is accepted by `from_utf8`. |
| Utf8.CharEncodingIsValid | src/os/unix/input.rs:138-139 | A one-character encoding is accepted, and its first character is the one it encodes. |
| WindowsInput.DecodeRecord | src/os/windows/input.rs:81-101 | A record is an event exactly when it is a key record with key down, and then the event is Key(ParseKeyEvent(record)). Otherwise the error is Other for a key-up record and InvalidData for every other type. |
| WindowsInput.FocusRecordRejected | src/os/windows/input.rs:82-85 | A focus record is InvalidData, never FocusGained or FocusLost. |
| WindowsInput.KeyUpRejected | src/os/windows/input.rs:86-94 | A key record with key_down == 0 is an error of kind Other. |
| WindowsInput.UnknownRecordRejected | src/os/windows/input.rs:97-100 | Every other event type is InvalidData. |
| WindowsInput.ParseKeyEvent | src/os/windows/input.rs:104-141 | A function key it returns lies in F1..F24. |
| WindowsInput.IsCtrl | src/os/windows/input.rs:105 | Ctrl holds exactly when bit 0x0004 (right Ctrl) or bit 0x0008 (left Ctrl) of the control-key state is set. |
| WindowsInput.IsShift | src/os/windows/input.rs:106 | Shift holds exactly when bit 0x0010 of the control-key state is set. |
| WindowsInput.CharOf | src/os/windows/input.rs:133 | The code unit is taken as that character exactly when it is not a surrogate (0xD800..0xDFFF). A surrogate becomes a space. |
| WindowsInput.OnlyCtrlAndShiftBitsMatter | src/os/windows/input.rs:104-106 | Changing any control-key-state bit other than 0x0004, 0x0008 and 0x0010 leaves the key unchanged. |
| WindowsInput.FixedKeyTable | src/os/windows/input.rs:108-128 | VK codes 0x08, 0x0D, 0x1B, 0x21-0x28, 0x2D and 0x2E map to their fixed keys, whatever the modifiers and character. |
| WindowsInput.TabKey | src/os/windows/input.rs:110-116 | VK_TAB is BackTab (the source's ShiftTab) exactly when Shift is set, and Tab otherwise. |
| WindowsInput.FunctionKeys | src/os/windows/input.rs:131 | The result is a function key exactly for VK 0x70..0x87, and then it is F(vk - 0x6F). |
| WindowsInput.UnmappedKeys | src/os/windows/input.rs:132-139 | Any other VK gives the record's character, with a surrogate read as a space. It is Ctrl(c) exactly when Ctrl is set and c is an ASCII letter, and Char(c) otherwise, with no case change. |
| Base64.CharsetTable | src/graphics/base64.rs:4 | The alphabet string is table 1 of RFC 4648: 'A'..'Z', 'a'..'z', '0'..'9', '+', '/'. |
| Base64.PaddingNotInAlphabet | src/graphics/base64.rs:4-8 | '=' is not one of the 64 alphabet characters. |
| Base64.CollectSixBits | src/graphics/base64.rs:34-37 | The value collected is below 64, so it indexes the alphabet. |
| Base64.CollectSixBitsWindow | src/graphics/base64.rs:10-37 | For every offset 0..10, `collect_six_bits` takes the six bits starting at that offset, from the most significant bit, of x·256 + y. |
| Base64.Base64Encode | src/graphics/base64.rs:47-79 | The encoder's output is exactly the RFC 4648 section 4 encoding of the input. |
| Base64.CounterBounds | src/graphics/base64.rs:53-72 | While the bit counter's byte index is inside the input, another character is due. Once it reaches n, all ceil(8n/6) characters are out, so the loop ends exactly there. |
| Base64.EncodeStep | src/graphics/base64.rs:55-69 | At bit counter 6k, the offset is at most 10. The character pushed is the k-th sextet's letter, which is character k of the RFC encoding. |
| Base64.PaddedEncoding | src/graphics/base64.rs:74-76 | The RFC encoding is its first ceil(8n/6) characters followed by ((6 - 8n mod 6) / 2) mod 3 copies of '='. |
| Base64.RfcLength | src/graphics/base64.rs:52-76 | The encoding of n bytes has ceil(8n/6) + ((6 - 8n mod 6) / 2) mod 3 characters. |
| Base64.RfcIsBitLevel | src/graphics/base64.rs:53-76 | Character k < ceil(8n/6) is the alphabet entry for bits 6k..6k+5 of the input, zero-filled past the end, and the rest is '='. |
| Base64.Counts | src/graphics/base64.rs:52 | The padding count is 0, 2, 1 for n mod 3 = 0, 1, 2, and ceil(8n/6) plus the padding is 4·ceil(n/3). |
| Base64.EncodedLength | src/graphics/base64.rs:52-78 | The output has 4·ceil(n/3) characters, 0, 2 or 1 of them padding. The output is empty exactly when the input is. |
| Base64.EncodedAlphabet | src/graphics/base64.rs:69-76 | Every character before the padding is in the alphabet and is not '='. '=' fills the rest. |

## Left out

- I/O: the `poll` and `read` calls, `ReadIterator::next`, `WaitForSingleObject`, `ReadConsoleInputW` and `get_stdin_handle` are not modelled. The model starts from the first byte (POSIX) or from a record (Windows). The OS error codes and the timeout they produce are not modelled either.
- The `repr(C)` layout of `InputRecord`, `EventRecord` and `CharUnion` is not modelled. A record is plain data with the fields the decoder reads. `repeat_count`, `virtual_scan_code` and `ascii_char` are never read and are omitted.
- src/os/windows/mod.rs, src/graphics/image.rs, src/graphics/mod.rs, src/os/mod.rs, src/lib.rs and examples/graphics.rs are not part of this model. They are console-mode and terminal-size wrappers, file and image output, and module wiring.
- The POSIX decoder's `Key`, `KeyModifiers` and `KeyState` are not among the library's files. They are modelled from their use: `KeyModifiers` is a set of modifiers, with NONE the empty set.
- The Windows decoder's `KeyEvent::ShiftTab` is modelled as the `BackTab` that the flat enum declares.
- Mouse events and FocusGained/FocusLost are declared but never produced by either decoder.
- Base64Encode: `usize` arithmetic is taken as unbounded. `data.len() * 8` and the bit counter cannot overflow here, which they could only do for inputs near the address-space size.
- Base64.CollectSixBits: its own contract states only the bound below 64. Which bits it takes is stated by Base64.CollectSixBitsWindow.
- Three behaviours of the code that a reader might not expect, which the model keeps:
  - end of stream after ESC is the generic parse error, not a separate end-of-input error;
  - the Ctrl range is 0x01..0x1F, not 0x01..0x1A;
  - after four unsuccessful checks a fifth byte is still pulled before the error.
