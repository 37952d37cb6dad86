/** Reference notions of lower-case hexadecimal text, independent of how the
    codec computes anything: the digit alphabet, the positional value of a
    digit string, and the fixed-width rendering of a number. */
module Hex {
  import opened Arith

  /** The digit alphabet: digit value d is written HexDigits[d]. */
  const HexDigits: seq<char> := "0123456789abcdef"

  predicate IsLowerHexDigit(c: char) {
    '0' <= c <= '9' || 'a' <= c <= 'f'
  }

  predicate AllLowerHex(s: seq<char>) {
    forall i :: 0 <= i < |s| ==> IsLowerHexDigit(s[i])
  }

  /** The value of one digit: `c - '0'` for a decimal digit, `c - 'a' + 10` otherwise. */
  function DigitValue(c: char): (d: nat)
    requires IsLowerHexDigit(c)
    ensures d < 16 && HexDigits[d] == c
  {
    if c <= '9' then c as int - '0' as int else c as int - 'a' as int + 10
  }

  lemma HexDigitsAreLowerHex(d: nat)
    requires d < 16
    ensures IsLowerHexDigit(HexDigits[d]) && DigitValue(HexDigits[d]) == d
  {
  }

  /** Big-endian base-16 value of a digit string; the empty string is 0. */
  function HexValue(s: seq<char>): (n: nat)
    requires AllLowerHex(s)
    ensures n < Pow2(4 * |s|)
  {
    if |s| == 0 then 0
    else
      var n' := HexValue(s[..|s| - 1]);
      Pow2Nibble(|s|);
      n' * 16 + DigitValue(s[|s| - 1])
  }

  /** The `width` least significant hex digits of `v`, most significant first,
      zero-padded on the left. */
  function Render(v: nat, width: nat): (s: seq<char>)
    ensures |s| == width && AllLowerHex(s)
  {
    if width == 0 then []
    else
      HexDigitsAreLowerHex(v % 16);
      Render(v / 16, width - 1) + [HexDigits[v % 16]]
  }

  lemma AllLowerHexConcat(a: seq<char>, b: seq<char>)
    requires AllLowerHex(a) && AllLowerHex(b)
    ensures AllLowerHex(a + b)
  {
    forall i | 0 <= i < |a + b|
      ensures IsLowerHexDigit((a + b)[i])
    {
      if i < |a| { assert (a + b)[i] == a[i]; } else { assert (a + b)[i] == b[i - |a|]; }
    }
  }

  /** The value of a concatenation: the left part is shifted by one digit
      position per character of the right part. */
  lemma {:induction false} HexValueConcat(a: seq<char>, b: seq<char>)
    requires AllLowerHex(a) && AllLowerHex(b)
    ensures AllLowerHex(a + b)
    ensures HexValue(a + b) == HexValue(a) * Pow2(4 * |b|) + HexValue(b)
    decreases |b|
  {
    AllLowerHexConcat(a, b);
    if |b| == 0 {
      assert a + b == a;
    } else {
      var b' := b[..|b| - 1];
      var c := b[|b| - 1];
      assert (a + b)[..|a + b| - 1] == a + b';
      HexValueConcat(a, b');
      Pow2Nibble(|b|);
      ShiftOneDigit(HexValue(a + b), HexValue(a + b'), HexValue(a), Pow2(4 * |b'|),
                    HexValue(b'), HexValue(b), DigitValue(c), Pow2(4 * |b|));
    }
  }

  lemma ShiftOneDigit(whole: int, whole': int, x: int, p: int, y: int, tail: int, d: int, p16: int)
    requires whole == whole' * 16 + d && whole' == x * p + y
    requires tail == y * 16 + d && p16 == p * 16
    ensures whole == x * p16 + tail
  {
    assert (x * p) * 16 == x * (p * 16);
  }

  /** A string of zero digits has value 0. */
  lemma {:induction false} HexValueOfZeros(s: seq<char>)
    requires forall i :: 0 <= i < |s| ==> s[i] == '0'
    ensures AllLowerHex(s) && HexValue(s) == 0
  {
    if |s| > 0 {
      HexValueOfZeros(s[..|s| - 1]);
    }
  }

  /** Reading back a rendering yields the number modulo 16^width. */
  lemma {:induction false} HexValueRender(v: nat, width: nat)
    ensures HexValue(Render(v, width)) == v % Pow2(4 * width)
  {
    if width > 0 {
      var s := Render(v, width);
      var hi := Render(v / 16, width - 1);
      var p := Pow2(4 * (width - 1));
      assert s[..width - 1] == hi;
      HexValueRender(v / 16, width - 1);
      HexDigitsAreLowerHex(v % 16);
      assert HexValue(s) == HexValue(hi) * 16 + v % 16;
      Pow2Nibble(width);
      DivModOfProduct(v, 16, p);
      assert 16 * p == Pow2(4 * width);
    }
  }

  /** The two-digit rendering of a byte value: high digit, then low digit. */
  lemma RenderByte(x: nat)
    requires x < 256
    ensures Render(x, 2) == [HexDigits[x / 16], HexDigits[x % 16]]
  {
    var q := x / 16;
    assert q < 16;
    DivModUnique(q, 16, 0, q);
    assert Render(x, 2) == Render(q, 1) + [HexDigits[x % 16]];
    assert Render(q, 1) == [HexDigits[q % 16]];
  }

  /** A number that fits in `width` digits is read back unchanged. */
  lemma RenderValue(v: nat, width: nat)
    requires v < Pow2(4 * width)
    ensures HexValue(Render(v, width)) == v
  {
    HexValueRender(v, width);
    DivModUnique(v, Pow2(4 * width), 0, v);
  }

  /** Rendering the value of a digit string at its own width gives it back. */
  lemma {:induction false} RenderHexValue(s: seq<char>)
    requires AllLowerHex(s)
    ensures Render(HexValue(s), |s|) == s
  {
    if |s| > 0 {
      var n := |s|;
      var h, d := HexValue(s[..n - 1]), DigitValue(s[n - 1]);
      DivModUnique(HexValue(s), 16, h, d);
      RenderHexValue(s[..n - 1]);
      assert s == s[..n - 1] + [s[n - 1]];
    }
  }

  lemma DivideTwice(v: int, p: int, q: int)
    requires p > 0 && q == 16 * p
    ensures (v / 16) / p == v / q
  {
    DivModOfProduct(v, 16, p);
  }

  /** Digit j of a rendering, counted from the most significant end. */
  lemma {:induction false} RenderDigit(v: nat, width: nat, j: nat)
    requires j < width
    ensures Render(v, width)[j] == HexDigits[(v / Pow2(4 * (width - 1 - j))) % 16]
  {
    if j < width - 1 {
      var hi := Render(v / 16, width - 1);
      assert Render(v, width)[j] == hi[j];
      RenderDigit(v / 16, width - 1, j);
      var k := width - 1 - j;
      assert width - 1 - 1 - j == k - 1;
      Pow2Nibble(k);
      DivideTwice(v, Pow2(4 * (k - 1)), Pow2(4 * k));
    } else {
      assert Pow2(4 * (width - 1 - j)) == 1;
    }
  }
}
