# HexCodec in Dafny

A model of Brave's `HexCodec`, the fixed-width lower-case hexadecimal codec
for 64-bit trace and span identifiers (and 128-bit trace identifiers written
as two 64-bit halves), with proofs about it.

- `arith.dfy` (module `Arith`) holds powers of two and the division and
  remainder facts the proofs use.
- `hex.dfy` (module `Hex`) holds the reference notions: the digit alphabet
  `HexDigits`, the positional value `HexValue` of a digit string, and the
  zero-padded rendering `Render(v, width)`. They are proved to be inverse
  (`RenderHexValue`, `HexValueRender`, `RenderValue`).
- `hex_codec.dfy` (module `HexCodec`) holds the codec:
  - the lenient parse as the source's shift-and-or loop;
  - the two strict parses, with `ParseResult.NotLowerHexLong` standing for
    the thrown `NumberFormatException`;
  - the encoders, with `writeHexByte` and `writeHexLong` as methods on an
    `array<char>` and `toLowerHex` as a function plus a method that builds
    it through `writeHexLong`;
  - the equality checks, as the source's byte-by-byte comparison chain.

  Every contract is stated against the notions of `Hex`.
- `hex_codec_properties.dfy` (module `HexCodecProperties`) relates the
  operations to each other: the round trips, and what the strict parse keeps
  of long input. It also shows that the equality checks agree with decoding.

Java's `long` is its unsigned bit pattern `uint64` (0 ≤ x < 2^64). The
lenient loop's `result <<= 4; result |= d` is `(acc * 16 + d) mod 2^64`, so
windows longer than 16 characters keep the low 64 bits, as in Java. A Java
`byte` is `int8`. The cast `(byte)` is `ToByte`. On a byte, `>> 4` is floor
division by 16 and `& 0xf` is the non-negative remainder modulo 16. A
nullable `CharSequence` is an `Option<seq<char>>`. A `seq<char>` stands for
the sequence of UTF-16 code units, and its length is the Java length. A Dafny
`char` cannot be a lone surrogate, but every surrogate is a non-digit, so
reading each one as any other non-digit character changes no result. A
`TraceContext` is reduced to the two values the codec reads, `traceIdHigh`
and `traceId`.

The 32-character branch of `lowerHexEqualsTraceId` (HexCodec.java:78-80)
compares the first half with `traceIdHigh` even when `traceIdHigh` is zero.
So besides `toLowerHex(high, low)` the check also accepts, for a zero upper
half, a 32-character text of sixteen `'0'`s followed by the encoding of
`traceId` (`HexCodecProperties.TraceIdMatchesZeroPaddedForm`). The contract
of `HexCodec.LowerHexEqualsTraceId` states both accepted forms.

## Model

| member | source | states |
|---|---|---|
| `Hex.DigitValue` | brave/src/main/java/brave/internal/HexCodec.java:39-42 | the value of a digit is below 16 and is the position of the character in the digit alphabet |
| `Hex.HexDigitsAreLowerHex` | brave/src/main/java/brave/internal/HexCodec.java:106-107 | every entry of the digit table is a lower-hex digit whose value is its index, so decoding inverts the table |
| `HexCodec.LenientFrom` | brave/src/main/java/brave/internal/HexCodec.java:36-47 | running the loop from i to endIndex onto accumulator acc yields 0 if any remaining character is not a digit, else acc shifted by four bits per digit plus the digits' value, modulo 2^64 |
| `HexCodec.LenientLowerHexToUnsignedLong` | brave/src/main/java/brave/internal/HexCodec.java:34-48 | never fails; 0 if the window holds a non-digit, otherwise the big-endian base-16 value of the window with bits above 64 dropped; an empty or reversed window gives 0 |
| `HexCodec.LowerHexToUnsignedLongAt` | brave/src/main/java/brave/internal/HexCodec.java:26-31 | succeeds exactly when the window [index, endIndex) is all digits with non-zero value, and then returns that value; endIndex is min(index+16, length) computed in 32-bit `int`, so for index above 2^31 - 17 the sum wraps negative, the window is empty and the parse fails |
| `HexCodec.LastSixteen` | brave/src/main/java/brave/internal/HexCodec.java:16-17 | the trimmed window is the last min(length, 16) characters |
| `HexCodec.LowerHexToUnsignedLong` | brave/src/main/java/brave/internal/HexCodec.java:12-20 | fails for length 0 or above 32; otherwise succeeds exactly when the trailing 16 characters (or all, if fewer) are digits with non-zero value, returning that value |
| `HexCodec.ToByte` | brave/src/main/java/brave/internal/HexCodec.java:96 | the cast to byte keeps the value modulo 256 |
| `HexCodec.HighNibble` | brave/src/main/java/brave/internal/HexCodec.java:110 | `(b >> 4) & 0xf` is the high digit of the byte's unsigned value |
| `HexCodec.LowNibble` | brave/src/main/java/brave/internal/HexCodec.java:111 | `b & 0xf` is the low digit of the byte's unsigned value |
| `HexCodec.ByteChars` | brave/src/main/java/brave/internal/HexCodec.java:109-112 | the two characters written for a byte are the two-digit rendering of its unsigned value |
| `HexCodec.ByteOfRenders` | brave/src/main/java/brave/internal/HexCodec.java:96-103 | byte k of v, taken most significant first by the shift and mask, is written as digits 2k and 2k+1 of the 16-digit rendering of v |
| `HexCodec.WriteHexByte` | brave/src/main/java/brave/internal/HexCodec.java:109-112 | stores the high digit at pos and the low digit at pos+1 and changes no other cell |
| `HexCodec.WriteHexLong` | brave/src/main/java/brave/internal/HexCodec.java:95-104 | stores the 16-digit rendering of v at [pos, pos+16) and changes no other cell |
| `HexCodec.ToLowerHexChars` | brave/src/main/java/brave/internal/HexCodec.java:88-92 | the text built through writeHexLong is the zero-padded 16-digit rendering of v |
| `HexCodec.ToLowerHexValue` | brave/src/main/java/brave/internal/HexCodec.java:88-92 | the encoding of v denotes v |
| `HexCodec.ToLowerHex128` | brave/src/main/java/brave/internal/HexCodec.java:55-65 | 32 digits when high is non-zero and 16 otherwise; the text denotes high * 2^64 + low, ends with the encoding of low, and starts with the encoding of high when high is non-zero |
| `HexCodec.ToLowerHex128Chars` | brave/src/main/java/brave/internal/HexCodec.java:55-65 | the text built through the buffer and pos logic is the 128-bit encoding |
| `HexCodec.HexEqualsByte` | brave/src/main/java/brave/internal/HexCodec.java:125-128 | true exactly when the two characters at pos are the two-digit rendering of the byte's unsigned value |
| `HexCodec.HexEqualsFrom` | brave/src/main/java/brave/internal/HexCodec.java:115-122 | the comparison chain from byte k on is true exactly when the text at pos+2k..pos+16 equals the same digits of the encoding of v |
| `HexCodec.LowerHexEqualsUnsignedLongAt` | brave/src/main/java/brave/internal/HexCodec.java:114-123 | true exactly when the 16 characters at pos are the encoding of v |
| `HexCodec.LowerHexEqualsUnsignedLong` | brave/src/main/java/brave/internal/HexCodec.java:67-70 | true exactly when the text is present and equals the encoding of v; null and every length but 16 give false |
| `HexCodec.LowerHexEqualsTraceId` | brave/src/main/java/brave/internal/HexCodec.java:72-85 | true exactly when the text is the 128-bit encoding of the context, or the two 16-digit halves written out even when the upper half is zero; a 16-character text never matches a non-zero upper half; null and lengths other than 16 and 32 give false |
| `HexCodecProperties.LenientRoundTrip` | brave/src/main/java/brave/internal/HexCodec.java:34-48 | the lenient parse of the 16 characters of toLowerHex(v) is v |
| `HexCodecProperties.StrictRoundTrip` | brave/src/main/java/brave/internal/HexCodec.java:12-31 | the strict parse of toLowerHex(v) is v for non-zero v and fails for 0 |
| `HexCodecProperties.ParseThenEncode` | brave/src/main/java/brave/internal/HexCodec.java:12-31 | a 16-character text that parses strictly is the encoding of the value it parses to |
| `HexCodecProperties.ToLowerHexInjective` | brave/src/main/java/brave/internal/HexCodec.java:88-92 | different identifiers have different encodings |
| `HexCodecProperties.StrictParseIgnoresLeadingText` | brave/src/main/java/brave/internal/HexCodec.java:16-19 | up to 16 characters before a 16-character text do not change the strict parse |
| `HexCodecProperties.StrictParseTossesHighBits` | brave/src/main/java/brave/internal/HexCodec.java:8-20 | for a digit string of 1 to 32 characters the strict parse returns its value modulo 2^64, and fails when that is 0 |
| `HexCodecProperties.LastSixteenValue` | brave/src/main/java/brave/internal/HexCodec.java:16-17 | the trailing 16 digits of a digit string denote its value modulo 2^64 |
| `HexCodecProperties.ZeroWindowRejected` | brave/src/main/java/brave/internal/HexCodec.java:26-31 | a window of only '0' digits, or an empty window, makes the windowed strict parse fail |
| `HexCodecProperties.StrictParseIsWindowed` | brave/src/main/java/brave/internal/HexCodec.java:12-20 | for lengths 1 to 32 the whole-text parse is the windowed parse from max(0, length-16) |
| `HexCodecProperties.SignedByteNibbles` | brave/src/main/java/brave/internal/HexCodec.java:96-111 | after the signed byte cast, the shift-and-mask nibbles are x / 16 and x % 16 of the unsigned byte x |
| `HexCodecProperties.ByteCharsInjective` | brave/src/main/java/brave/internal/HexCodec.java:109-112 | different bytes are written as different character pairs |
| `HexCodecProperties.ToLowerHex128Shape` | brave/src/main/java/brave/internal/HexCodec.java:55-65 | toLowerHex(0, low) is toLowerHex(low); for non-zero high it is toLowerHex(high) followed by toLowerHex(low) |
| `HexCodecProperties.StrictParseOfTraceId` | brave/src/main/java/brave/internal/HexCodec.java:12-31 | the whole-text strict parse of a 128-bit encoding gives the low half, and the windowed parse at 0 gives a non-zero high half |
| `HexCodecProperties.EqualsAgreesWithDecoding` | brave/src/main/java/brave/internal/HexCodec.java:67-70 | for a 16-digit text, the comparison without decoding is true exactly when the text's value is v |
| `HexCodecProperties.TraceIdMatchesEncoding` | brave/src/main/java/brave/internal/HexCodec.java:72-85 | a trace context matches its own 128-bit encoding |
| `HexCodecProperties.TraceIdMatchesZeroPaddedForm` | brave/src/main/java/brave/internal/HexCodec.java:78-84 | with a zero upper half, the 32-character form with sixteen leading '0's also matches, though it differs from toLowerHex(0, low) |

## Left out

- The text of the exception message and the construction of the `NumberFormatException` (`isntLowerHexLong`): only the failure outcome `NotLowerHexLong` is modelled.
- The package-private constructor: it has no behaviour.
- The rest of `TraceContext`: only `traceIdHigh()` and `traceId()` are read.
- `String`, `char[]` allocation and the `CharSequence` interface: texts are `seq<char>`. `null` is modelled only where the source checks for it (the equality checks). The strict and lenient parses do not handle it: they would throw `NullPointerException`.
- Out-of-range `charAt` and array indices: the callers' guarantees are preconditions. These are `index >= 0` and `endIndex <= length` for the parses, and `pos + 16 <= length` (or `pos + 2`) for the write and compare helpers.
- Texts and indices beyond the Java `int` range: the windowed parse requires `index <= 2^31 - 1`, which the parameter type guarantees in Java.
- The unrolled eight calls in `writeHexLong` and in the comparison chain are modelled as a loop over k = 0..7 and as a recursion over k. Both use the same shift `56 - 8k` and positions `pos + 2k`.
