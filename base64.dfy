/** The base64 encoder of src/graphics/base64.rs (standard alphabet with '='
    padding, section 4 of RFC 4648). The encoder walks the input with a bit
    counter: each step reads the byte holding the next bit and the byte after
    it (zero past the end) and extracts six bits at the counter's offset.

    It is proved equal to the RFC's own definition, which maps each group of
    three bytes to four characters and pads a final group of one or two
    bytes, and that definition is shown to be the bit-level one: character k
    is the alphabet entry for bits 6k..6k+5 of the input read most
    significant bit first, zero-filled past the end. */
module Base64 {

  /** Table 1 of RFC 4648: the character for the six-bit value v, by
      ranges: 'A'..'Z', 'a'..'z', '0'..'9', '+', '/'. */
  function AlphabetChar(v: int): char
    requires 0 <= v < 64
  {
    if v < 26 then (65 + v) as char
    else if v < 52 then (97 + v - 26) as char
    else if v < 62 then (48 + v - 52) as char
    else if v == 62 then '+'
    else '/'
  }

  /** `CHARSET`: the 64-character alphabet; the value v < 64 is written as
      CHARSET[v]. CharsetTable shows it is table 1. */
  const CHARSET: seq<char> := "ABCDEFGH" + "IJKLMNOP" + "QRSTUVWX" + "YZabcdef"
    + "ghijklmn" + "opqrstuv" + "wxyz0123" + "456789+/"
  /** `PADDING`. */
  const PADDING: char := '='

  /** The encoder's alphabet string is table 1 of RFC 4648. */
  lemma CharsetTable(v: int)
    requires 0 <= v < 64
    ensures |CHARSET| == 64 && CHARSET[v] == AlphabetChar(v)
  {
    if v < 32 {
      if v < 16 {
        if v < 8 { assert CHARSET[v] == "ABCDEFGH"[v]; }
        else { assert CHARSET[v] == "IJKLMNOP"[v - 8]; }
      } else {
        if v < 24 { assert CHARSET[v] == "QRSTUVWX"[v - 16]; }
        else { assert CHARSET[v] == "YZabcdef"[v - 24]; }
      }
    } else {
      if v < 48 {
        if v < 40 { assert CHARSET[v] == "ghijklmn"[v - 32]; }
        else { assert CHARSET[v] == "opqrstuv"[v - 40]; }
      } else {
        if v < 56 { assert CHARSET[v] == "wxyz0123"[v - 48]; }
        else { assert CHARSET[v] == "456789+/"[v - 56]; }
      }
    }
  }
  /** '=' is not one of the 64 characters of the alphabet. */
  lemma PaddingNotInAlphabet()
    ensures PADDING !in CHARSET
  {
    forall i | 0 <= i < |CHARSET| ensures CHARSET[i] != PADDING {
      CharsetTable(i);
    }
  }

  // ---------------------------------------------------------------------
  // Bits, counted from the most significant one.

  /** Bit j of a byte, bit 0 being the most significant. */
  function BitOf(b: bv8, j: nat): (r: bv8)
    requires j < 8
    ensures r <= 1
  {
    if j == 0 then (b >> 7) & 1
    else if j == 1 then (b >> 6) & 1
    else if j == 2 then (b >> 5) & 1
    else if j == 3 then (b >> 4) & 1
    else if j == 4 then (b >> 3) & 1
    else if j == 5 then (b >> 2) & 1
    else if j == 6 then (b >> 1) & 1
    else b & 1
  }

  /** Bit j of the 16-bit value x·256 + y, bit 0 being the most significant. */
  function Bit16(x: bv8, y: bv8, j: nat): bv8
    requires j < 16
  {
    if j < 8 then BitOf(x, j) else BitOf(y, j - 8)
  }

  /** The six bits j..j+5 of x·256 + y, as a number below 64. */
  function SixBits(x: bv8, y: bv8, j: nat): bv8
    requires j <= 10
  {
    (Bit16(x, y, j) << 5) | (Bit16(x, y, j + 1) << 4) | (Bit16(x, y, j + 2) << 3) |
    (Bit16(x, y, j + 3) << 2) | (Bit16(x, y, j + 4) << 1) | Bit16(x, y, j + 5)
  }

  /** `collect_six_bits`: combine the two bytes into a u16, mask the six
      bits at `offset` and shift them down; the result indexes the alphabet.
      CollectSixBitsWindow states which bits it takes. */
  function CollectSixBits(from: (bv8, bv8), offset: bv8): (r: bv8)
    requires offset <= 10
    ensures r < 64
  {
    var combined: bv16 := ((from.0 as bv16) << 8) | (from.1 as bv16);
    ((combined & (0xFC00 >> offset)) >> (10 - offset)) as bv8
  }

  /** `collect_six_bits` takes the six bits starting at bit `offset` (from
      the most significant) of the pair, for every offset its shifts allow. */
  lemma CollectSixBitsWindow(from: (bv8, bv8), offset: bv8)
    requires offset <= 10
    ensures CollectSixBits(from, offset) == SixBits(from.0, from.1, offset as int)
  {
  }

  // ---------------------------------------------------------------------
  // The bit-level specification.

  /** Byte i of the input, zero past the end. */
  function ByteAt(data: seq<bv8>, i: nat): bv8 {
    if i < |data| then data[i] else 0
  }

  /** Bit i of the input read most significant bit first, zero past the end. */
  function Bit(data: seq<bv8>, i: nat): (r: bv8)
    ensures r <= 1
    decreases |data|
  {
    if |data| == 0 then 0
    else if i < 8 then BitOf(data[0], i)
    else Bit(data[1..], i - 8)
  }

  /** The k-th group of six bits of the input: bits 6k..6k+5. */
  function Sextet(data: seq<bv8>, k: nat): (r: bv8)
    ensures r < 64
  {
    (Bit(data, 6 * k) << 5) | (Bit(data, 6 * k + 1) << 4) | (Bit(data, 6 * k + 2) << 3) |
    (Bit(data, 6 * k + 3) << 2) | (Bit(data, 6 * k + 4) << 1) | Bit(data, 6 * k + 5)
  }

  /** The alphabet character for a six-bit value. */
  function Letter(v: bv8): char
    requires v < 64
  {
    AlphabetChar(v as int)
  }

  /** Number of alphabet characters for n input bytes: ceil(8n / 6). */
  function SextetCount(n: nat): nat {
    (8 * n + 5) / 6
  }

  /** `padding_needed`: ((6 - 8n mod 6) / 2) mod 3. */
  function PaddingCount(n: nat): nat {
    ((6 - (n * 8) % 6) / 2) % 3
  }

  // ---------------------------------------------------------------------
  // The reference definition of RFC 4648 section 4.

  /** The four characters of a 24-bit quantum x, y, z: the top six bits of x,
      the low two of x with the top four of y, the low four of y with the top
      two of z, the low six of z. */
  function Quantum(x: bv8, y: bv8, z: bv8): (r: string)
    ensures |r| == 4
  {
    [Letter(x >> 2), Letter(((x & 3) << 4) | (y >> 4)),
     Letter(((y & 15) << 2) | (z >> 6)), Letter(z & 63)]
  }

  /** Base64 by 24-bit quanta: each full group of three bytes gives four
      characters; a final group of one byte is filled with zero bits and
      gives two characters and "==", one of two bytes three characters and
      "=". */
  function Rfc4648(data: seq<bv8>): string
    decreases |data|
  {
    if |data| == 0 then
      ""
    else if |data| == 1 then
      Quantum(data[0], 0, 0)[..2] + [PADDING, PADDING]
    else if |data| == 2 then
      Quantum(data[0], data[1], 0)[..3] + [PADDING]
    else
      Quantum(data[0], data[1], data[2]) + Rfc4648(data[3..])
  }

  // ---------------------------------------------------------------------
  // The encoder.

  /** `base64_encode`: a loop that emits one character per six bits until
      the bit counter reaches the end of the input, then the padding. */
  method Base64Encode(data: seq<bv8>) returns (encoded: string)
    ensures encoded == Rfc4648(data)
  {
    ghost var spec := Rfc4648(data);
    PaddedEncoding(data);
    encoded := "";
    var bitsEncoded: nat := 0;
    var paddingNeeded := ((6 - (|data| * 8) % 6) / 2) % 3;
    while true
      invariant bitsEncoded == 6 * |encoded|
      invariant bitsEncoded / 8 <= |data|
      invariant |encoded| <= SextetCount(|data|)
      invariant encoded == spec[..|encoded|]
      decreases 8 * |data| + 8 - bitsEncoded
    {
      var lowerByteIndex := bitsEncoded / 8;
      if lowerByteIndex == |data| {
        break;
      }
      var lowerByte := data[lowerByteIndex];
      var upperByte := if lowerByteIndex + 1 == |data| then 0 else data[lowerByteIndex + 1];
      var offset := (bitsEncoded % 8) as bv8;
      CounterBounds(|data|, |encoded|);
      EncodeStep(data, bitsEncoded, |encoded|);
      var c := CHARSET[CollectSixBits((lowerByte, upperByte), offset) as int];
      PrefixStep(spec, |encoded|);
      encoded := encoded + [c];
      bitsEncoded := bitsEncoded + 6;
    }
    CounterBounds(|data|, |encoded|);
    for i := 0 to paddingNeeded
      invariant encoded == spec[..SextetCount(|data|)] + seq(i, _ => PADDING)
    {
      encoded := encoded + [PADDING];
    }
  }

  // ---------------------------------------------------------------------
  // Lemmas.

  /** The RFC definition is its first ceil(8n/6) characters followed by
      the padding. */
  lemma PaddedEncoding(data: seq<bv8>)
    ensures SextetCount(|data|) <= |Rfc4648(data)|
    ensures Rfc4648(data)[..SextetCount(|data|)] + seq(PaddingCount(|data|), _ => PADDING)
            == Rfc4648(data)
  {
    RfcPadding(data);
    var r := Rfc4648(data)[..SextetCount(|data|)] + seq(PaddingCount(|data|), _ => PADDING);
    assert |r| == |Rfc4648(data)|;
    forall k | 0 <= k < |r| ensures r[k] == Rfc4648(data)[k] {
    }
  }

  /** Extending a prefix of s by one element. */
  lemma PrefixStep(s: string, k: nat)
    requires k < |s|
    ensures s[..k + 1] == s[..k] + [s[k]]
  {
  }

  /** The bit counter 6k of the encoder's loop, against the n input bytes:
      while its byte index is inside the input another character is due,
      and once it reaches n all ceil(8n/6) characters are out. */
  lemma CounterBounds(n: nat, k: nat)
    requires k <= SextetCount(n)
    ensures 6 * k < 8 * n + 8
    ensures 6 * k / 8 < n ==> k + 1 <= SextetCount(n) && (6 * k + 6) / 8 <= n
    ensures 6 * k / 8 == n ==> k == SextetCount(n)
  {
    var q := SextetCount(n);
    assert 6 * q <= 8 * n + 5 < 6 * q + 6;
    var b := 6 * k / 8;
    assert 8 * b <= 6 * k < 8 * b + 8;
  }

  /** One step of the encoder: at bit counter 6k, within the input, the six
      bits collected from the byte at 6k/8 and the next one (zero past the
      end) at offset 6k mod 8 are sextet k. */
  lemma EncodeStep(data: seq<bv8>, bits: nat, k: nat)
    requires bits == 6 * k && bits / 8 < |data| && k < SextetCount(|data|)
    ensures (bits % 8) as bv8 <= 10
    ensures var q := bits / 8;
      CollectSixBits((data[q], if q + 1 == |data| then 0 else data[q + 1]), (bits % 8) as bv8)
      == Sextet(data, k)
    ensures k < |Rfc4648(data)|
    ensures var q := bits / 8;
      CHARSET[CollectSixBits((data[q], if q + 1 == |data| then 0 else data[q + 1]), (bits % 8) as bv8) as int]
      == Rfc4648(data)[k]
  {
    EncodeWindow(data, bits, k);
    RfcLength(data);
    RfcAt(data, k);
    CharsetTable(Sextet(data, k) as int);
  }

  /** The six bits of one encoder step. */
  lemma EncodeWindow(data: seq<bv8>, bits: nat, k: nat)
    requires bits == 6 * k && bits / 8 < |data|
    ensures (bits % 8) as bv8 <= 10
    ensures var q := bits / 8;
      CollectSixBits((data[q], if q + 1 == |data| then 0 else data[q + 1]), (bits % 8) as bv8)
      == Sextet(data, k)
  {
    var q := bits / 8;
    var from := (data[q], if q + 1 == |data| then 0 else data[q + 1]);
    assert from == (ByteAt(data, q), ByteAt(data, q + 1));
    var off := (bits % 8) as bv8;
    if k % 4 == 0 {
      assert bits == 8 * q && off == 0;
      SextetFrom(data, k, q, 0);
    } else if k % 4 == 1 {
      assert bits == 8 * q + 6 && off == 6;
      SextetFrom(data, k, q, 6);
    } else if k % 4 == 2 {
      assert bits == 8 * q + 4 && off == 4;
      SextetFrom(data, k, q, 4);
    } else {
      assert bits == 8 * q + 2 && off == 2;
      SextetFrom(data, k, q, 2);
    }
    CollectSixBitsWindow(from, off);
  }

  /** Sextet k, when it starts at bit `off` of byte q, is the six bits at
      `off` of bytes q and q + 1. */
  lemma SextetFrom(data: seq<bv8>, k: nat, q: nat, off: nat)
    requires off <= 6 && 6 * k == 8 * q + off
    ensures Sextet(data, k) == SixBits(ByteAt(data, q), ByteAt(data, q + 1), off)
  {
    BitAt(data, 6 * k, q, off);
    BitAt(data, 6 * k + 1, q, off + 1);
    BitAt(data, 6 * k + 2, q, off + 2);
    BitAt(data, 6 * k + 3, q, off + 3);
    BitAt(data, 6 * k + 4, q, off + 4);
    BitAt(data, 6 * k + 5, q, off + 5);
  }

  /** Bit i = 8q + j of the input is bit j of the pair of bytes q and q + 1. */
  lemma {:induction false} BitAt(data: seq<bv8>, i: nat, q: nat, j: nat)
    requires j < 16 && i == 8 * q + j
    ensures Bit(data, i) == Bit16(ByteAt(data, q), ByteAt(data, q + 1), j)
    decreases q
  {
    if |data| == 0 {
      assert BitOf(0, if j < 8 then j else j - 8) == 0;
    } else if q == 0 {
      if j >= 8 {
        assert BitOf(0, j - 8) == 0;
      }
    } else {
      BitAt(data[1..], i - 8, q - 1, j);
    }
  }

  /** Skipping a group of three bytes skips 24 bits. */
  lemma BitShift(data: seq<bv8>, i: nat)
    requires |data| >= 3
    ensures Bit(data, i + 24) == Bit(data[3..], i)
  {
    assert data[1..][1..] == data[2..] && data[2..][1..] == data[3..];
    assert Bit(data, i + 24) == Bit(data[1..], i + 16);
    assert Bit(data[1..], i + 16) == Bit(data[2..], i + 8);
  }

  /** Skipping a group of three bytes skips four sextets. */
  lemma SextetShift(data: seq<bv8>, k: nat)
    requires |data| >= 3
    ensures Sextet(data, k + 4) == Sextet(data[3..], k)
  {
    var i := 6 * k;
    assert 6 * (k + 4) == i + 24;
    BitShift(data, i);
    BitShift(data, i + 1);
    BitShift(data, i + 2);
    BitShift(data, i + 3);
    BitShift(data, i + 4);
    BitShift(data, i + 5);
  }

  /** The four characters of a quantum are the letters of its four six-bit
      windows, at offsets 0 and 6 of x·256 + y, 4 of y·256 + z and 2 of
      z·256 + w, whatever byte w follows. */
  lemma QuantumWindows(x: bv8, y: bv8, z: bv8, w: bv8)
    ensures Quantum(x, y, z)[0] == Letter(SixBits(x, y, 0))
    ensures Quantum(x, y, z)[1] == Letter(SixBits(x, y, 6))
    ensures Quantum(x, y, z)[2] == Letter(SixBits(y, z, 4))
    ensures Quantum(x, y, z)[3] == Letter(SixBits(z, w, 2))
  {
    GroupWindows(x, y, z, w);
  }

  /** The RFC's split of a quantum, as six-bit windows. */
  lemma GroupWindows(x: bv8, y: bv8, z: bv8, w: bv8)
    ensures SixBits(x, y, 0) == x >> 2
    ensures SixBits(x, y, 6) == ((x & 3) << 4) | (y >> 4)
    ensures SixBits(y, z, 4) == ((y & 15) << 2) | (z >> 6)
    ensures SixBits(z, w, 2) == z & 63
  {
  }

  /** The first four characters of the RFC definition are the zero-filled
      first quantum, cut to ceil(8n/6) characters and padded. */
  lemma RfcFirstQuantum(data: seq<bv8>, k: nat)
    requires k < 4 && |data| > 0
    ensures |Rfc4648(data)| >= 4
    ensures Rfc4648(data)[k] ==
            if k < SextetCount(|data|)
            then Quantum(ByteAt(data, 0), ByteAt(data, 1), ByteAt(data, 2))[k]
            else PADDING
  {
    var n := |data|;
    var x, y, z := ByteAt(data, 0), ByteAt(data, 1), ByteAt(data, 2);
    if n == 1 {
      assert Rfc4648(data) == Quantum(x, 0, 0)[..2] + [PADDING, PADDING];
      assert SextetCount(n) == 2;
    } else if n == 2 {
      assert Rfc4648(data) == Quantum(x, y, 0)[..3] + [PADDING];
      assert SextetCount(n) == 3;
    } else {
      assert Rfc4648(data) == Quantum(x, y, z) + Rfc4648(data[3..]);
      assert SextetCount(n) >= 4;
    }
  }

  /** Character k < 4 of the encoding: one of the first group's sextets, or
      padding after a short final group. */
  lemma RfcFirstGroupAt(data: seq<bv8>, k: nat)
    requires k < 4 && |data| > 0
    ensures |Rfc4648(data)| >= 4
    ensures Rfc4648(data)[k] ==
            if k < SextetCount(|data|) then Letter(Sextet(data, k)) else PADDING
  {
    RfcFirstQuantum(data, k);
    QuantumWindows(ByteAt(data, 0), ByteAt(data, 1), ByteAt(data, 2), ByteAt(data, 3));
    if k == 0 {
      SextetFrom(data, 0, 0, 0);
    } else if k == 1 {
      SextetFrom(data, 1, 0, 6);
    } else if k == 2 {
      SextetFrom(data, 2, 1, 4);
    } else {
      SextetFrom(data, 3, 2, 2);
    }
  }

  /** Removing a group of three bytes removes four characters and keeps the
      padding. */
  lemma CountsStep(n: nat)
    requires n >= 3
    ensures SextetCount(n) == SextetCount(n - 3) + 4
    ensures PaddingCount(n) == PaddingCount(n - 3)
  {
    var q := SextetCount(n - 3);
    assert 6 * q <= 8 * (n - 3) + 5 < 6 * q + 6;
    assert 6 * (q + 4) <= 8 * n + 5 < 6 * (q + 4) + 6;
    ModShift((n - 3) * 8);
    assert n * 8 == (n - 3) * 8 + 24;
  }

  /** Adding 24 bits does not change the bit count modulo 6. */
  lemma ModShift(x: nat)
    ensures (x + 24) % 6 == x % 6
  {
    var d := x / 6;
    assert x + 24 == 6 * (d + 4) + x % 6;
  }

  /** The encoding of n bytes has ceil(8n/6) characters and
      ((6 - 8n mod 6) / 2) mod 3 padding characters. */
  lemma {:induction false} RfcLength(data: seq<bv8>)
    ensures |Rfc4648(data)| == SextetCount(|data|) + PaddingCount(|data|)
    decreases |data|
  {
    if |data| >= 3 {
      RfcLength(data[3..]);
      CountsStep(|data|);
    }
  }

  /** Past ceil(8n/6) characters, the RFC definition is padding. */
  lemma RfcPadding(data: seq<bv8>)
    ensures |Rfc4648(data)| == SextetCount(|data|) + PaddingCount(|data|)
    ensures forall k :: SextetCount(|data|) <= k < |Rfc4648(data)| ==> Rfc4648(data)[k] == PADDING
  {
    RfcLength(data);
    forall k | SextetCount(|data|) <= k < |Rfc4648(data)| ensures Rfc4648(data)[k] == PADDING {
      RfcAt(data, k);
    }
  }

  /** Character k of the RFC definition is the alphabet entry for bits
      6k..6k+5 of the input, or padding once the input's bits are used up. */
  lemma {:induction false} RfcAt(data: seq<bv8>, k: nat)
    requires k < |Rfc4648(data)|
    ensures Rfc4648(data)[k] ==
            if k < SextetCount(|data|) then Letter(Sextet(data, k)) else PADDING
    decreases |data|
  {
    if k < 4 {
      RfcFirstGroupAt(data, k);
    } else {
      RfcTail(data, k);
      RfcAt(data[3..], k - 4);
      CountsStep(|data|);
      SextetShift(data, k - 4);
    }
  }

  /** Past the first quantum, the RFC definition continues with the encoding
      of the rest of the input. */
  lemma RfcTail(data: seq<bv8>, k: nat)
    requires 4 <= k < |Rfc4648(data)|
    ensures |data| >= 3 && k - 4 < |Rfc4648(data[3..])|
    ensures Rfc4648(data)[k] == Rfc4648(data[3..])[k - 4]
  {
  }

  /** The RFC definition is the bit-level one: ceil(8n/6) alphabet
      characters, character k standing for bits 6k..6k+5, then
      ((6 - 8n mod 6) / 2) mod 3 padding characters. */
  lemma RfcIsBitLevel(data: seq<bv8>)
    ensures |Rfc4648(data)| == SextetCount(|data|) + PaddingCount(|data|)
    ensures forall k :: 0 <= k < SextetCount(|data|) ==> Rfc4648(data)[k] == Letter(Sextet(data, k))
    ensures forall k :: SextetCount(|data|) <= k < |Rfc4648(data)| ==> Rfc4648(data)[k] == PADDING
  {
    RfcLength(data);
    forall k | 0 <= k < |Rfc4648(data)|
      ensures Rfc4648(data)[k] == if k < SextetCount(|data|) then Letter(Sextet(data, k)) else PADDING
    {
      RfcAt(data, k);
    }
  }

  /** Both counts by the number of bytes in the last group: ceil(8n/6)
      characters and 0, 2 or 1 padding characters for n mod 3 = 0, 1, 2,
      4·ceil(n/3) in all. */
  lemma Counts(n: nat)
    ensures SextetCount(n) == 4 * (n / 3) + (if n % 3 == 0 then 0 else if n % 3 == 1 then 2 else 3)
    ensures PaddingCount(n) == (if n % 3 == 0 then 0 else if n % 3 == 1 then 2 else 1)
    ensures SextetCount(n) + PaddingCount(n) == 4 * ((n + 2) / 3)
  {
    var m, t := n / 3, n % 3;
    assert n == 3 * m + t;
    if t == 0 {
      Quotient(8 * n + 5, 6, 4 * m, 5);
      Quotient(n * 8, 6, 4 * m, 0);
      Quotient(n + 2, 3, m, 2);
    } else if t == 1 {
      Quotient(8 * n + 5, 6, 4 * m + 2, 1);
      Quotient(n * 8, 6, 4 * m + 1, 2);
      Quotient(n + 2, 3, m + 1, 0);
    } else {
      Quotient(8 * n + 5, 6, 4 * m + 3, 3);
      Quotient(n * 8, 6, 4 * m + 2, 4);
      Quotient(n + 2, 3, m + 1, 1);
    }
  }

  /** Quotient and remainder of x by 3 or 6, from a decomposition of x. */
  lemma Quotient(x: int, m: int, d: int, r: int)
    requires m == 3 || m == 6
    requires x == m * d + r && 0 <= r < m
    ensures x / m == d && x % m == r
  {
    if m == 3 {
      assert x == 3 * d + r;
    } else {
      assert x == 6 * d + r;
    }
  }

  /** Output length: 4·ceil(n/3) characters, of which 0, 2 or 1 are padding
      for n mod 3 = 0, 1, 2; the empty input gives the empty string. */
  lemma EncodedLength(data: seq<bv8>)
    ensures |Rfc4648(data)| == 4 * ((|data| + 2) / 3)
    ensures |Rfc4648(data)| - SextetCount(|data|) ==
            (if |data| % 3 == 0 then 0 else if |data| % 3 == 1 then 2 else 1)
    ensures |data| == 0 <==> Rfc4648(data) == ""
  {
    RfcLength(data);
    Counts(|data|);
  }

  /** Every character before the padding is drawn from the alphabet, so is
      not '=', and '=' fills the rest. */
  lemma EncodedAlphabet(data: seq<bv8>)
    ensures SextetCount(|data|) <= |Rfc4648(data)|
    ensures forall k :: 0 <= k < SextetCount(|data|) ==>
      Rfc4648(data)[k] in CHARSET && Rfc4648(data)[k] != PADDING
    ensures forall k :: SextetCount(|data|) <= k < |Rfc4648(data)| ==> Rfc4648(data)[k] == PADDING
  {
    RfcIsBitLevel(data);
    forall k | 0 <= k < SextetCount(|data|)
      ensures Rfc4648(data)[k] in CHARSET && Rfc4648(data)[k] != PADDING
    {
      CharsetTable(Sextet(data, k) as int);
    }
  }
}
