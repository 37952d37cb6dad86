/** Properties relating the operations of HexCodec to each other: the
    encode/decode round trips, what the strict parse keeps of long inputs,
    and the agreement of the equality checks with decoding. */
module HexCodecProperties {
  import opened Arith
  import opened Hex
  import opened HexCodec

  /** Decoding the 16 characters of toLowerHex(v) leniently yields v. */
  lemma LenientRoundTrip(v: uint64)
    ensures LenientLowerHexToUnsignedLong(ToLowerHex(v), 0, 16) == v
  {
    var t := ToLowerHex(v);
    assert Window(t, 0, 16) == t;
    ToLowerHexValue(v);
    DivModUnique(v, TWO_TO_THE_64, 0, v);
  }

  /** The strict parse of toLowerHex(v) yields v, except that 0 is rejected. */
  lemma StrictRoundTrip(v: uint64)
    ensures LowerHexToUnsignedLong(ToLowerHex(v)) == if v == 0 then NotLowerHexLong else Parsed(v)
  {
    var t := ToLowerHex(v);
    assert LastSixteen(t) == t;
    ToLowerHexValue(v);
  }

  /** A 16-character text that parses strictly is the encoding of its value. */
  lemma ParseThenEncode(s: seq<char>)
    requires |s| == 16 && LowerHexToUnsignedLong(s).Parsed?
    ensures ToLowerHex(LowerHexToUnsignedLong(s).value) == s
  {
    assert LastSixteen(s) == s;
    RenderHexValue(s);
  }

  /** Distinct identifiers have distinct encodings. */
  lemma ToLowerHexInjective(a: uint64, b: uint64)
    requires ToLowerHex(a) == ToLowerHex(b)
    ensures a == b
  {
    ToLowerHexValue(a);
    ToLowerHexValue(b);
  }

  /** Up to 16 characters in front of a 16-character text do not change what
      the strict parse returns. */
  lemma StrictParseIgnoresLeadingText(p: seq<char>, w: seq<char>)
    requires |p| <= 16 && |w| == 16
    ensures LowerHexToUnsignedLong(p + w) == LowerHexToUnsignedLong(w)
  {
    assert LastSixteen(p + w) == w;
    assert LastSixteen(w) == w;
  }

  /** For a digit string of 1 to 32 characters the strict parse yields its
      value with the bits above 64 dropped, and rejects it when those low 64
      bits are all zero. */
  lemma StrictParseTossesHighBits(s: seq<char>)
    requires 1 <= |s| <= 32 && AllLowerHex(s)
    ensures var low := HexValue(s) % TWO_TO_THE_64;
      LowerHexToUnsignedLong(s) == if low == 0 then NotLowerHexLong else Parsed(low)
  {
    LastSixteenValue(s);
  }

  /** The trailing 16 digits of a digit string hold its value modulo 2^64. */
  lemma LastSixteenValue(s: seq<char>)
    requires AllLowerHex(s)
    ensures AllLowerHex(LastSixteen(s))
    ensures HexValue(LastSixteen(s)) == HexValue(s) % TWO_TO_THE_64
  {
    var t := LastSixteen(s);
    Pow2Of64();
    if |s| <= 16 {
      Pow2Monotone(4 * |s|, 64);
      DivModUnique(HexValue(s), TWO_TO_THE_64, 0, HexValue(s));
    } else {
      var pre := s[..|s| - 16];
      assert s == pre + t;
      AllLowerHexSplit(pre, t);
      HexValueConcat(pre, t);
      DivModUnique(HexValue(s), TWO_TO_THE_64, HexValue(pre), HexValue(t));
    }
  }

  lemma AllLowerHexSplit(a: seq<char>, b: seq<char>)
    requires AllLowerHex(a + b)
    ensures AllLowerHex(a) && AllLowerHex(b)
  {
    forall i | 0 <= i < |a| ensures IsLowerHexDigit(a[i]) {
      assert a[i] == (a + b)[i];
    }
    forall i | 0 <= i < |b| ensures IsLowerHexDigit(b[i]) {
      assert b[i] == (a + b)[|a| + i];
    }
  }

  /** A window of '0' digits, including an empty window, is rejected by the
      windowed strict parse. */
  lemma ZeroWindowRejected(s: seq<char>, index: int)
    requires 0 <= index <= INT_MAX
    requires forall i :: index <= i < WindowEnd(index, |s|) ==> s[i] == '0'
    ensures LowerHexToUnsignedLongAt(s, index) == NotLowerHexLong
  {
    var w := Window(s, index, WindowEnd(index, |s|));
    forall i | 0 <= i < |w| ensures w[i] == '0' {
      assert w[i] == s[index + i];
    }
    HexValueOfZeros(w);
  }

  /** The one-argument strict parse is the windowed parse from the start of
      the trailing 16 characters, once the length is in range. */
  lemma StrictParseIsWindowed(s: seq<char>)
    requires 1 <= |s| <= 32
    ensures LowerHexToUnsignedLong(s) == LowerHexToUnsignedLongAt(s, if |s| > 16 then |s| - 16 else 0)
  {
    var b := if |s| > 16 then |s| - 16 else 0;
    var t := LastSixteen(s);
    assert Window(s, b, WindowEnd(b, |s|)) == t;
    var r, r' := LowerHexToUnsignedLong(s), LowerHexToUnsignedLongAt(s, b);
    assert r.Parsed? == r'.Parsed?;
    if r.Parsed? {
      assert r.value == HexValue(t) == r'.value;
    }
  }

  /** Java's `(byte)` cast followed by `(b >> 4) & 0xf` and `b & 0xf` splits
      the unsigned byte value into its two hex digits. */
  lemma SignedByteNibbles(x: uint8)
    ensures HighNibble(ToByte(x)) == x / 16 && LowNibble(ToByte(x)) == x % 16
    ensures ByteChars(ToByte(x)) == [HexDigits[x / 16], HexDigits[x % 16]]
  {
  }

  /** Byte values with the same two characters are equal. */
  lemma ByteCharsInjective(a: int8, b: int8)
    requires ByteChars(a) == ByteChars(b)
    ensures a == b
  {
    var x, y := a % 256, b % 256;
    HexDigitsAreLowerHex(HighNibble(a));
    HexDigitsAreLowerHex(HighNibble(b));
    HexDigitsAreLowerHex(LowNibble(a));
    HexDigitsAreLowerHex(LowNibble(b));
    assert ByteChars(a)[0] == ByteChars(b)[0] && ByteChars(a)[1] == ByteChars(b)[1];
    assert x / 16 == y / 16 && x % 16 == y % 16;
    assert x == y;
    if a < 0 { DivModUnique(a, 256, -1, a + 256); } else { DivModUnique(a, 256, 0, a); }
    if b < 0 { DivModUnique(b, 256, -1, b + 256); } else { DivModUnique(b, 256, 0, b); }
  }

  /** toLowerHex(high, low) is toLowerHex(low) when high is zero, and
      toLowerHex(high) followed by toLowerHex(low) otherwise. */
  lemma ToLowerHex128Shape(high: uint64, low: uint64)
    ensures high == 0 ==> ToLowerHex128(high, low) == ToLowerHex(low)
    ensures high != 0 ==> ToLowerHex128(high, low) == ToLowerHex(high) + ToLowerHex(low)
  {
    var s := ToLowerHex128(high, low);
    if high == 0 {
      assert s == s[|s| - 16..];
    } else {
      assert s == s[..16] + s[16..];
    }
  }

  /** The strict parse of a 128-bit encoding keeps the low half; the windowed
      parse at index 0 reads the high half back when it is non-zero. */
  lemma StrictParseOfTraceId(high: uint64, low: uint64)
    ensures LowerHexToUnsignedLong(ToLowerHex128(high, low))
            == if low == 0 then NotLowerHexLong else Parsed(low)
    ensures high != 0 ==> LowerHexToUnsignedLongAt(ToLowerHex128(high, low), 0) == Parsed(high)
  {
    var s := ToLowerHex128(high, low);
    assert LastSixteen(s) == ToLowerHex(low);
    ToLowerHexValue(low);
    if high != 0 {
      assert Window(s, 0, WindowEnd(0, |s|)) == ToLowerHex(high);
      ToLowerHexValue(high);
    }
  }

  /** Comparing a 16-character digit string with v, as the codec does without
      decoding, agrees with decoding it. */
  lemma EqualsAgreesWithDecoding(s: seq<char>, v: uint64)
    requires |s| == 16 && AllLowerHex(s)
    ensures LowerHexEqualsUnsignedLong(Some(s), v) <==> HexValue(s) == v
  {
    ToLowerHexValue(v);
    RenderHexValue(s);
  }

  /** A trace context matches its own encoding. */
  lemma TraceIdMatchesEncoding(context: TraceContext)
    ensures LowerHexEqualsTraceId(Some(ToLowerHex128(context.traceIdHigh, context.traceId)), context)
  {
  }

  /** A 64-bit trace id also matches its 32-character form with an all-zero
      upper half, which is not what toLowerHex(0, low) produces. */
  lemma TraceIdMatchesZeroPaddedForm(low: uint64)
    ensures var padded := ToLowerHex(0) + ToLowerHex(low);
      && LowerHexEqualsTraceId(Some(padded), TraceContext(0, low))
      && padded != ToLowerHex128(0, low)
  {
  }
}
