/** Fixed-width lower-hex codec for 64-bit trace and span identifiers.

    Java's `long` is modelled by its unsigned bit pattern, `uint64`; a Java
    `byte` by its signed value, `int8`. A nullable `CharSequence` is an
    `Option<seq<char>>`; a `TraceContext` is abstracted to its two trace-id
    halves. Every operation is stated against the reference notions of
    module Hex: the value of a digit string and the rendering of a number. */
module HexCodec {
  import opened Arith
  import opened Hex

  type uint64 = x: int | 0 <= x < TWO_TO_THE_64
  type uint8 = x: int | 0 <= x < 256
  type int8 = x: int | -128 <= x < 128

  datatype Option<T> = None | Some(value: T)

  /** Outcome of a strict parse; `NotLowerHexLong` stands for the
      NumberFormatException the strict entry points throw. */
  datatype ParseResult = Parsed(value: uint64) | NotLowerHexLong

  /** The two accessors of a trace context the codec reads. */
  datatype TraceContext = TraceContext(traceIdHigh: uint64, traceId: uint64)

  function Min(a: int, b: int): int {
    if a < b then a else b
  }

  /** The characters in [index, endIndex), empty when the range is empty. */
  function Window(s: seq<char>, index: int, endIndex: int): (w: seq<char>)
    requires 0 <= index && endIndex <= |s|
  {
    if index < endIndex then s[index..endIndex] else []
  }

  // ---------------------------------------------------------------- parsing

  /** One step of the decode loop: `result <<= 4; result |= d`. The shift
      clears the low nibble, so or-ing in d < 16 adds it. */
  function ShiftInNibble(acc: uint64, d: nat): uint64
    requires d < 16
  {
    (acc * 16 + d) % TWO_TO_THE_64
  }

  /** The decode loop from position i to endIndex with accumulator acc; the
      first character that is not a lower-hex digit makes the result 0. */
  function LenientFrom(s: seq<char>, i: int, endIndex: int, acc: uint64): (r: uint64)
    requires 0 <= i && endIndex <= |s|
    ensures r == LenientValue(Window(s, i, endIndex), acc)
    decreases endIndex - i
  {
    if i >= endIndex then
      LenientDone(acc);
      acc
    else
      var c := s[i];
      WindowHead(s, i, endIndex);
      if !IsLowerHexDigit(c) then
        0
      else
        var r := LenientFrom(s, i + 1, endIndex, ShiftInNibble(acc, DigitValue(c)));
        LenientStep(s, i, endIndex, acc);
        r
  }

  /** What decoding the digits w onto accumulator acc yields: 0 if any
      character is not a lower-hex digit, otherwise acc shifted left by one
      nibble per digit plus the value of w, kept to 64 bits. */
  function LenientValue(w: seq<char>, acc: int): int {
    if AllLowerHex(w) then (acc * Pow2(4 * |w|) + HexValue(w)) % TWO_TO_THE_64 else 0
  }

  lemma LenientDone(acc: uint64)
    ensures LenientValue([], acc) == acc
  {
    assert Pow2(0) == 1;
  }

  /** A non-empty window is its first character followed by the rest. */
  lemma WindowHead(s: seq<char>, i: int, endIndex: int)
    requires 0 <= i < endIndex <= |s|
    ensures Window(s, i, endIndex) == [s[i]] + Window(s, i + 1, endIndex)
    ensures AllLowerHex(Window(s, i, endIndex))
            <==> IsLowerHexDigit(s[i]) && AllLowerHex(Window(s, i + 1, endIndex))
  {
    var w, w' := Window(s, i, endIndex), Window(s, i + 1, endIndex);
    assert w == [s[i]] + w';
    if IsLowerHexDigit(s[i]) && AllLowerHex(w') {
      AllLowerHexConcat([s[i]], w');
    }
    if AllLowerHex(w) {
      assert w[0] == s[i];
      forall j | 0 <= j < |w'| ensures IsLowerHexDigit(w'[j]) {
        assert w'[j] == w[j + 1];
      }
    }
  }

  /** The inductive step of LenientFrom's contract. */
  lemma LenientStep(s: seq<char>, i: int, endIndex: int, acc: uint64)
    requires 0 <= i < endIndex <= |s| && IsLowerHexDigit(s[i])
    ensures LenientValue(Window(s, i + 1, endIndex), ShiftInNibble(acc, DigitValue(s[i])))
            == LenientValue(Window(s, i, endIndex), acc)
  {
    var w, w' := Window(s, i, endIndex), Window(s, i + 1, endIndex);
    WindowHead(s, i, endIndex);
    if AllLowerHex(w') {
      var d := DigitValue(s[i]);
      HexValueConcat([s[i]], w');
      assert HexValue([s[i]]) == d by {
        assert [s[i]][..0] == [];
      }
      Pow2Nibble(|w|);
      ShiftStepMod(acc, d, Pow2(4 * |w'|), HexValue(w'), Pow2(4 * |w|), HexValue(w));
    }
  }

  lemma ShiftStepMod(acc: int, d: int, p: int, h: int, pw: int, hw: int)
    requires pw == 16 * p && hw == d * p + h
    ensures (((acc * 16 + d) % TWO_TO_THE_64) * p + h) % TWO_TO_THE_64
            == (acc * pw + hw) % TWO_TO_THE_64
  {
    ModMulAdd(acc * 16 + d, p, h, TWO_TO_THE_64);
    assert (acc * 16 + d) * p + h == acc * pw + hw by {
      assert (acc * 16 + d) * p == acc * (16 * p) + d * p;
    }
  }

  /** lenientLowerHexToUnsignedLong: never fails; 0 unless every character
      of the window is a lower-hex digit, otherwise the window's value with
      any bits above 64 dropped. */
  function LenientLowerHexToUnsignedLong(lowerHex: seq<char>, index: int, endIndex: int): (r: uint64)
    requires 0 <= index && endIndex <= |lowerHex|
    ensures var w := Window(lowerHex, index, endIndex);
      r == if AllLowerHex(w) then HexValue(w) % TWO_TO_THE_64 else 0
  {
    LenientFrom(lowerHex, index, endIndex, 0)
  }

  /** The largest Java `int`. */
  const INT_MAX: int := 0x7fff_ffff

  /** `Math.min(index + 16, length)` computed with Java's 32-bit `int`
      addition: for an index above INT_MAX - 16 the sum wraps to a negative
      number, so the window is empty. */
  function WindowEnd(index: int, length: int): (e: int)
    requires 0 <= index <= INT_MAX
    ensures index + 16 <= INT_MAX ==> e == Min(index + 16, length)
    ensures index + 16 > INT_MAX ==> e < 0
  {
    var sum := if index + 16 > INT_MAX then index + 16 - 0x1_0000_0000 else index + 16;
    Min(sum, length)
  }

  /** lowerHexToUnsignedLong(lowerHex, index): decodes at most 16 characters
      from index; a zero result, whether from an invalid character, from
      all-zero digits or from an empty window, is rejected. */
  function LowerHexToUnsignedLongAt(lowerHex: seq<char>, index: int): (r: ParseResult)
    requires 0 <= index <= INT_MAX
    ensures var w := Window(lowerHex, index, WindowEnd(index, |lowerHex|));
      && (r.Parsed? <==> AllLowerHex(w) && HexValue(w) != 0)
      && (r.Parsed? ==> r.value == HexValue(w))
    ensures index + 16 > INT_MAX ==> r == NotLowerHexLong
  {
    var endIndex := WindowEnd(index, |lowerHex|);
    var result := LenientLowerHexToUnsignedLong(lowerHex, index, endIndex);
    WindowValueFits(lowerHex, index, endIndex);
    if result == 0 then NotLowerHexLong else Parsed(result)
  }

  lemma WindowValueFits(s: seq<char>, index: int, endIndex: int)
    requires 0 <= index && endIndex <= |s| && endIndex <= index + 16
    ensures var w := Window(s, index, endIndex);
      AllLowerHex(w) ==> HexValue(w) % TWO_TO_THE_64 == HexValue(w)
  {
    var w := Window(s, index, endIndex);
    if AllLowerHex(w) {
      Pow2Monotone(4 * |w|, 64);
      Pow2Of64();
      DivModUnique(HexValue(w), TWO_TO_THE_64, 0, HexValue(w));
    }
  }

  /** The last 16 characters, or the whole text when it is shorter. */
  function LastSixteen(s: seq<char>): (t: seq<char>)
    ensures |t| == Min(|s|, 16) && t == s[|s| - |t|..]
  {
    if |s| > 16 then s[|s| - 16..] else s
  }

  /** lowerHexToUnsignedLong(lowerHex): rejects lengths outside 1..32, then
      decodes only the trailing 16 characters. */
  function LowerHexToUnsignedLong(lowerHex: seq<char>): (r: ParseResult)
    ensures |lowerHex| < 1 || |lowerHex| > 32 ==> r == NotLowerHexLong
    ensures var t := LastSixteen(lowerHex);
      && (r.Parsed? <==> 1 <= |lowerHex| <= 32 && AllLowerHex(t) && HexValue(t) != 0)
      && (r.Parsed? ==> r.value == HexValue(t))
  {
    var length := |lowerHex|;
    if length < 1 || length > 32 then
      NotLowerHexLong
    else
      var beginIndex := if length > 16 then length - 16 else 0;
      assert Window(lowerHex, beginIndex, WindowEnd(beginIndex, length)) == LastSixteen(lowerHex);
      LowerHexToUnsignedLongAt(lowerHex, beginIndex)
  }

  // --------------------------------------------------------------- encoding

  /** The Java cast `(byte) x` of a value 0..255: the same bit pattern read
      as a signed byte. */
  function ToByte(x: uint8): (b: int8)
    ensures b % 256 == x
  {
    if x < 128 then x else x - 256
  }

  /** `(b >> 4) & 0xf`: the arithmetic shift is floor division by 16 and the
      mask is the non-negative remainder modulo 16. */
  function HighNibble(b: int8): (n: nat)
    ensures n == (b % 256) / 16
  {
    SignedByteDigits(b);
    (b / 16) % 16
  }

  /** `b & 0xf`. */
  function LowNibble(b: int8): (n: nat)
    ensures n == (b % 256) % 16
  {
    SignedByteDigits(b);
    b % 16
  }

  /** For a negative byte the unsigned value is b + 256, which has the same
      low digit and a high digit 16 above floor(b / 16). */
  lemma SignedByteDigits(b: int8)
    ensures (b / 16) % 16 == (b % 256) / 16
    ensures b % 16 == (b % 256) % 16
  {
    var q, r := b / 16, b % 16;
    if b < 0 {
      DivModUnique(b, 256, -1, b + 256);
      DivModUnique(b + 256, 16, q + 16, r);
      DivModUnique(q, 16, -1, q + 16);
    } else {
      DivModUnique(b, 256, 0, b);
      DivModUnique(q, 16, 0, q);
    }
  }

  /** The two characters writeHexByte stores for byte b. */
  function ByteChars(b: int8): (s: seq<char>)
    ensures s == Render(b % 256, 2)
  {
    RenderByte(b % 256);
    [HexDigits[HighNibble(b)], HexDigits[LowNibble(b)]]
  }

  /** `(v >>> shift) & 0xff`. */
  function ByteAt(v: uint64, shift: nat): uint8 {
    (v / Pow2(shift)) % 256
  }

  /** Byte k of v, most significant first, as writeHexLong extracts it. */
  function ByteOf(v: uint64, k: nat): int8
    requires k < 8
  {
    ToByte(ByteAt(v, 56 - 8 * k))
  }

  /** The two characters of byte k are digits 2k and 2k+1 of the rendering. */
  lemma ByteOfRenders(v: uint64, k: nat)
    requires k < 8
    ensures ByteChars(ByteOf(v, k)) == Render(v, 16)[2 * k..2 * k + 2]
  {
    var x := ByteAt(v, 56 - 8 * k);
    var t := Render(v, 16);
    DigitsOfByte(v, k);
    var b := ToByte(x);
    assert HighNibble(b) == x / 16 && LowNibble(b) == x % 16;
    assert ByteChars(b) == [t[2 * k], t[2 * k + 1]];
  }

  /** Digits 2k and 2k+1 of the rendering are the high and low digit of
      `(v >>> (56 - 8k)) & 0xff`. */
  lemma DigitsOfByte(v: uint64, k: nat)
    requires k < 8
    ensures var x := ByteAt(v, 56 - 8 * k);
      Render(v, 16)[2 * k] == HexDigits[x / 16] && Render(v, 16)[2 * k + 1] == HexDigits[x % 16]
  {
    var shift := 56 - 8 * k;
    RenderDigit(v, 16, 2 * k);
    RenderDigit(v, 16, 2 * k + 1);
    assert 4 * (16 - 1 - 2 * k) == shift + 4;
    assert 4 * (16 - 1 - (2 * k + 1)) == shift;
    ByteNibbles(v, shift);
  }

  lemma EncodingDigitsOfByte(v: uint64, k: nat)
    requires k < 8
    ensures ToLowerHex(v)[2 * k] == ByteChars(ByteOf(v, k))[0]
    ensures ToLowerHex(v)[2 * k + 1] == ByteChars(ByteOf(v, k))[1]
  {
    ByteOfRenders(v, k);
  }

  /** The nibbles of byte `(v >>> shift) & 0xff` are hex digits of v. */
  lemma ByteNibbles(v: int, shift: nat)
    ensures ((v / Pow2(shift)) % 256) / 16 == (v / Pow2(shift + 4)) % 16
    ensures ((v / Pow2(shift)) % 256) % 16 == (v / Pow2(shift)) % 16
  {
    var p := Pow2(shift);
    var q := v / p;
    ModOfMod(q, 16, 16);
    assert (q % 256) / 16 == (q / 16) % 16;
    Pow2Add(shift, 4);
    assert Pow2(4) == 16;
    assert Pow2(shift + 4) == p * 16;
    DivModOfProduct(v, p, 16);
    assert v / Pow2(shift + 4) == q / 16;
  }

  /** The value of toLowerHex(v): the 16-digit zero-padded rendering of v.
      ToLowerHexChars builds it the way the source does. */
  function ToLowerHex(v: uint64): seq<char> {
    Render(v, 16)
  }

  /** toLowerHex(high, low): 32 characters for a 128-bit id, 16 when the
      upper half is zero; the text denotes high * 2^64 + low. */
  function ToLowerHex128(high: uint64, low: uint64): (s: seq<char>)
    ensures |s| == (if high != 0 then 32 else 16) && AllLowerHex(s)
    ensures HexValue(s) == high * TWO_TO_THE_64 + low
    ensures s[|s| - 16..] == ToLowerHex(low)
    ensures high != 0 ==> s[..16] == ToLowerHex(high)
  {
    ToLowerHexValue(low);
    if high != 0 then
      var text := ToLowerHex(high) + ToLowerHex(low);
      ToLowerHexValue(high);
      Pow2Of64();
      HexValueConcat(ToLowerHex(high), ToLowerHex(low));
      assert text[16..] == ToLowerHex(low);
      text
    else
      ToLowerHex(low)
  }

  /** The encoding of v has value v. */
  lemma ToLowerHexValue(v: uint64)
    ensures HexValue(ToLowerHex(v)) == v
  {
    Pow2Of64();
    RenderValue(v, 16);
  }

  /** writeHexByte: stores the two digits of b at pos and pos + 1. */
  method WriteHexByte(data: array<char>, pos: int, b: int8)
    requires 0 <= pos && pos + 2 <= data.Length
    modifies data
    ensures data[pos..pos + 2] == ByteChars(b)
    ensures data[pos] == ByteChars(b)[0] && data[pos + 1] == ByteChars(b)[1]
    ensures forall i :: 0 <= i < data.Length && !(pos <= i < pos + 2) ==> data[i] == old(data[i])
  {
    data[pos + 0] := HexDigits[HighNibble(b)];
    data[pos + 1] := HexDigits[LowNibble(b)];
  }

  /** writeHexLong: stores the 16 digits of v at [pos, pos + 16), one byte
      at a time, most significant first. */
  method WriteHexLong(data: array<char>, pos: int, v: uint64)
    requires 0 <= pos && pos + 16 <= data.Length
    modifies data
    ensures data[pos..pos + 16] == ToLowerHex(v)
    ensures forall i :: 0 <= i < data.Length && !(pos <= i < pos + 16) ==> data[i] == old(data[i])
  {
    ghost var t := ToLowerHex(v);
    var k := 0;
    while k < 8
      invariant 0 <= k <= 8
      invariant forall i :: pos <= i < pos + 2 * k ==> data[i] == t[i - pos]
      invariant forall i :: 0 <= i < data.Length && !(pos <= i < pos + 2 * k) ==> data[i] == old(data[i])
    {
      var b := ByteOf(v, k);
      EncodingDigitsOfByte(v, k);
      WriteHexByte(data, pos + 2 * k, b);
      k := k + 1;
    }
    assert data[pos..pos + 16] == t;
  }

  /** toLowerHex(v) as the source builds it: a fresh 16-character buffer
      filled by writeHexLong. */
  method ToLowerHexChars(v: uint64) returns (s: seq<char>)
    ensures s == Render(v, 16)
  {
    var data := new char[16];
    WriteHexLong(data, 0, v);
    s := data[..];
  }

  /** toLowerHex(high, low) as the source builds it: a 32- or 16-character
      buffer, high written first only when it is non-zero. */
  method ToLowerHex128Chars(high: uint64, low: uint64) returns (s: seq<char>)
    ensures s == ToLowerHex128(high, low)
  {
    var data := new char[if high != 0 then 32 else 16];
    var pos := 0;
    if high != 0 {
      WriteHexLong(data, pos, high);
      pos := pos + 16;
    }
    WriteHexLong(data, pos, low);
    s := data[..];
    if high != 0 {
      assert s == s[..16] + s[16..];
    }
  }

  // --------------------------------------------------------------- equality

  /** hexEqualsByte: the two characters at pos are the digits of byte b. */
  function HexEqualsByte(data: seq<char>, pos: int, b: int8): (r: bool)
    requires 0 <= pos && pos + 2 <= |data|
    ensures r <==> data[pos..pos + 2] == Render(b % 256, 2)
  {
    assert ByteChars(b) == [HexDigits[HighNibble(b)], HexDigits[LowNibble(b)]];
    data[pos + 0] == HexDigits[HighNibble(b)] && data[pos + 1] == HexDigits[LowNibble(b)]
  }

  /** The byte-by-byte comparison chain for bytes k..7, stopping at the
      first mismatch. */
  function HexEqualsFrom(data: seq<char>, pos: int, v: uint64, k: nat): (r: bool)
    requires 0 <= pos && pos + 16 <= |data| && k <= 8
    ensures r <==> data[pos + 2 * k..pos + 16] == ToLowerHex(v)[2 * k..]
    decreases 8 - k
  {
    if k == 8 then
      true
    else
      ByteOfRenders(v, k);
      var t := ToLowerHex(v);
      var d := data[pos + 2 * k..pos + 16];
      assert d == data[pos + 2 * k..pos + 2 * k + 2] + data[pos + 2 * k + 2..pos + 16];
      assert t[2 * k..] == t[2 * k..2 * k + 2] + t[2 * k + 2..];
      HexEqualsByte(data, pos + 2 * k, ByteOf(v, k)) && HexEqualsFrom(data, pos, v, k + 1)
  }

  /** lowerHexEqualsUnsignedLong(data, pos, v): the 16 characters at pos
      are exactly the encoding of v. */
  function LowerHexEqualsUnsignedLongAt(data: seq<char>, pos: int, v: uint64): (r: bool)
    requires 0 <= pos && pos + 16 <= |data|
    ensures r <==> data[pos..pos + 16] == ToLowerHex(v)
  {
    HexEqualsFrom(data, pos, v, 0)
  }

  /** lowerHexEqualsUnsignedLong(lowerHex, v): false for null and for any
      length but 16, otherwise the text is compared with the encoding of v. */
  function LowerHexEqualsUnsignedLong(lowerHex: Option<seq<char>>, unsigned: uint64): (r: bool)
    ensures r <==> lowerHex == Some(ToLowerHex(unsigned))
  {
    if lowerHex.None? || |lowerHex.value| != 16 then false
    else
      assert lowerHex.value[0..16] == lowerHex.value;
      LowerHexEqualsUnsignedLongAt(lowerHex.value, 0, unsigned)
  }

  /** lowerHexEqualsTraceId: a 32-character text is compared half by half
      with high and low; a 16-character text matches only when high is zero.
      So the text matches the canonical encoding, or the 32-character form
      with the upper half written out even when it is zero. */
  function LowerHexEqualsTraceId(lowerHex: Option<seq<char>>, context: TraceContext): (r: bool)
    ensures r <==> (|| lowerHex == Some(ToLowerHex128(context.traceIdHigh, context.traceId))
                    || lowerHex == Some(ToLowerHex(context.traceIdHigh) + ToLowerHex(context.traceId)))
    ensures lowerHex.Some? && |lowerHex.value| == 16 && context.traceIdHigh != 0 ==> !r
    ensures lowerHex.Some? && |lowerHex.value| != 16 && |lowerHex.value| != 32 ==> !r
  {
    if lowerHex.None? then
      false
    else
      var s := lowerHex.value;
      var length := |s|;
      var high, low := context.traceIdHigh, context.traceId;
      if length == 32 then
        assert s == s[0..16] + s[16..32];
        LowerHexEqualsUnsignedLongAt(s, 0, high) && LowerHexEqualsUnsignedLongAt(s, 16, low)
      else if length != 16 || high != 0 then
        false
      else
        assert s[0..16] == s;
        LowerHexEqualsUnsignedLongAt(s, 0, low)
  }
}
