/**
  Bytes, UTF-8 and the string escapes of the JSON writer and reader.

  A `char` of the source is a `Byte`. Masks and shifts by constants are written as
  `/` and `%` by the matching power of two; `0x80 | (0x3f & cp)` is `0x80 + cp % 64`.
 */
module JsonStrings {
  import opened Sequences

  type Byte = b: int | 0 <= b < 256
  type Bytes = seq<Byte>

  datatype Option<+T> = None | Some(value: T)

  const QUOTE: Byte := 0x22
  const BACKSLASH: Byte := 0x5C
  const SLASH: Byte := 0x2F
  const LOWER_B: Byte := 0x62
  const LOWER_F: Byte := 0x66
  const LOWER_N: Byte := 0x6E
  const LOWER_R: Byte := 0x72
  const LOWER_T: Byte := 0x74
  const LOWER_U: Byte := 0x75
  const REPLACEMENT_CHARACTER: nat := 0xFFFD

  // ---------- UTF-8 ----------

  /** The encoder; anything above U+10FFFF encodes as the empty string. */
  function CodePointToUtf8(cp: nat): Bytes {
    if cp <= 0x7F then [cp]
    else if cp <= 0x7FF then [0xC0 + cp / 64 % 32, 0x80 + cp % 64]
    else if cp <= 0xFFFF then [0xE0 + cp / 4096 % 16, 0x80 + cp / 64 % 64, 0x80 + cp % 64]
    else if cp <= 0x10FFFF then
      [0xF0 + cp / 262144 % 8, 0x80 + cp / 4096 % 64, 0x80 + cp / 64 % 64, 0x80 + cp % 64]
    else []
  }

  function Low6(b: int): int { b % 64 }

  /** One step of the writer's decoder: the code point and how many bytes it takes. */
  datatype Decoded = Decoded(cp: nat, length: nat)

  function Utf8ToCodepoint(s: Bytes): (r: Decoded)
    requires s != []
    ensures 1 <= r.length <= |s|
    ensures !(0xD800 <= r.cp <= 0xDFFF)
    ensures r.cp < 0x200000
    ensures s[0] < 0x80 <==> r.cp < 0x80
    ensures r.cp < 0x80 ==> r == Decoded(s[0], 1)
  {
    var b: int := s[0];
    if b < 0x80 then Decoded(b, 1)
    else if b < 0xE0 then
      if |s| < 2 then Decoded(REPLACEMENT_CHARACTER, 1)
      else
        var cp := b % 32 * 64 + Low6(s[1]);
        Decoded(if cp < 0x80 then REPLACEMENT_CHARACTER else cp, 2)
    else if b < 0xF0 then
      if |s| < 3 then Decoded(REPLACEMENT_CHARACTER, 1)
      else
        var cp := b % 16 * 4096 + Low6(s[1]) * 64 + Low6(s[2]);
        Decoded(if 0xD800 <= cp <= 0xDFFF || cp < 0x800 then REPLACEMENT_CHARACTER else cp, 3)
    else if b < 0xF8 then
      if |s| < 4 then Decoded(REPLACEMENT_CHARACTER, 1)
      else
        var cp := b % 8 * 262144 + Low6(s[1]) * 4096 + Low6(s[2]) * 64 + Low6(s[3]);
        Decoded(if cp < 0x10000 then REPLACEMENT_CHARACTER else cp, 4)
    else Decoded(REPLACEMENT_CHARACTER, 1)
  }

  predicate IsTail(b: Byte) { 0x80 <= b <= 0xBF }

  /** The length of the UTF8-char that `s` starts with, by the grammar in section 4 of RFC 3629; 0 if none. */
  function Utf8CharLength(s: Bytes): (n: nat)
    ensures n <= |s|
  {
    if |s| >= 1 && s[0] <= 0x7F then 1
    else if |s| >= 2 && 0xC2 <= s[0] <= 0xDF && IsTail(s[1]) then 2
    else if |s| >= 3 && IsTail(s[2])
      && (|| (s[0] == 0xE0 && 0xA0 <= s[1] <= 0xBF)
          || (0xE1 <= s[0] <= 0xEC && IsTail(s[1]))
          || (s[0] == 0xED && 0x80 <= s[1] <= 0x9F)
          || (0xEE <= s[0] <= 0xEF && IsTail(s[1]))) then 3
    else if |s| >= 4 && IsTail(s[2]) && IsTail(s[3])
      && (|| (s[0] == 0xF0 && 0x90 <= s[1] <= 0xBF)
          || (0xF1 <= s[0] <= 0xF3 && IsTail(s[1]))
          || (s[0] == 0xF4 && 0x80 <= s[1] <= 0x8F)) then 4
    else 0
  }

  predicate WellFormedUtf8(s: Bytes)
    decreases |s|
  {
    s == [] || (var n := Utf8CharLength(s); n > 0 && WellFormedUtf8(s[n..]))
  }

  // The UTF8-chars of two, three and four bytes, byte by byte.

  predicate TwoByteChar(a: int, b: int) { 0xC2 <= a <= 0xDF && 0x80 <= b <= 0xBF }

  predicate ThreeByteChar(a: int, b: int, c: int) {
    && 0xE0 <= a <= 0xEF && 0x80 <= b <= 0xBF && 0x80 <= c <= 0xBF
    && (a == 0xE0 ==> 0xA0 <= b)
    && (a == 0xED ==> b <= 0x9F)
  }

  predicate FourByteChar(a: int, b: int, c: int, d: int) {
    && 0xF0 <= a <= 0xF4 && 0x80 <= b <= 0xBF && 0x80 <= c <= 0xBF && 0x80 <= d <= 0xBF
    && (a == 0xF0 ==> 0x90 <= b)
    && (a == 0xF4 ==> b <= 0x8F)
  }

  lemma {:induction false} TwoByteRoundTrip(a: int, b: int)
    requires TwoByteChar(a, b)
    ensures var cp := a % 32 * 64 + Low6(b); 0x80 <= cp <= 0x7FF && CodePointToUtf8(cp) == [a, b]
  {
    var x, y := a - 0xC0, b - 0x80;
    assert a % 32 == x && Low6(b) == y;
  }

  lemma {:induction false} ThreeByteRoundTrip(a: int, b: int, c: int)
    requires ThreeByteChar(a, b, c)
    ensures var cp := a % 16 * 4096 + Low6(b) * 64 + Low6(c);
            0x800 <= cp <= 0xFFFF && !(0xD800 <= cp <= 0xDFFF) && CodePointToUtf8(cp) == [a, b, c]
  {
    var x, y, z := a - 0xE0, b - 0x80, c - 0x80;
    assert a % 16 == x && Low6(b) == y && Low6(c) == z;
    Encode3(x, y, z);
  }

  lemma {:induction false} FourByteValue(a: int, b: int, c: int, d: int)
    requires FourByteChar(a, b, c, d)
    ensures a % 8 * 262144 + Low6(b) * 4096 + Low6(c) * 64 + Low6(d)
         == (a - 0xF0) * 262144 + (b - 0x80) * 4096 + (c - 0x80) * 64 + (d - 0x80)
  {
  }

  lemma {:induction false} FourByteRange(a: int, b: int, c: int, d: int)
    requires FourByteChar(a, b, c, d)
    ensures 0x10000 <= (a - 0xF0) * 262144 + (b - 0x80) * 4096 + (c - 0x80) * 64 + (d - 0x80) <= 0x10FFFF
  {
  }

  lemma {:induction false} FourByteRoundTrip(a: int, b: int, c: int, d: int)
    requires FourByteChar(a, b, c, d)
    ensures var cp := a % 8 * 262144 + Low6(b) * 4096 + Low6(c) * 64 + Low6(d);
            0x10000 <= cp <= 0x10FFFF && CodePointToUtf8(cp) == [a, b, c, d]
  {
    FourByteValue(a, b, c, d);
    FourByteRange(a, b, c, d);
    Encode4(a - 0xF0, b - 0x80, c - 0x80, d - 0x80);
  }

  lemma {:induction false} Encode3(x: nat, y: nat, z: nat)
    requires x < 16 && y < 64 && z < 64 && 0x800 <= x * 4096 + y * 64 + z
    ensures CodePointToUtf8(x * 4096 + y * 64 + z) == [0xE0 + x, 0x80 + y, 0x80 + z]
  {
    Sextets(0, x, y, z);
  }

  lemma {:induction false} Encode4(w: nat, x: nat, y: nat, z: nat)
    requires w < 8 && x < 64 && y < 64 && z < 64
    requires 0x10000 <= w * 262144 + x * 4096 + y * 64 + z <= 0x10FFFF
    ensures CodePointToUtf8(w * 262144 + x * 4096 + y * 64 + z) == [0xF0 + w, 0x80 + x, 0x80 + y, 0x80 + z]
  {
    Sextets(w, x, y, z);
  }

  /** The base-64 digits of a code point. */
  lemma {:induction false} Sextets(w: nat, x: nat, y: nat, z: nat)
    requires x < 64 && y < 64 && z < 64
    ensures var cp := w * 262144 + x * 4096 + y * 64 + z;
            cp / 262144 == w && cp / 4096 % 64 == x && cp / 64 % 64 == y && cp % 64 == z
            && cp / 4096 == w * 64 + x
  {
    var cp := w * 262144 + x * 4096 + y * 64 + z;
    assert cp == (w * 4096 + x * 64 + y) * 64 + z;
    assert cp == (w * 64 + x) * 4096 + (y * 64 + z);
  }

  /** The bytes that make up the character at the front of `s`. */
  lemma {:induction false} CharBytes(s: Bytes)
    requires Utf8CharLength(s) > 0
    ensures var n := Utf8CharLength(s);
            && (n == 1 ==> s[0] <= 0x7F && s[..n] == [s[0]])
            && (n == 2 ==> TwoByteChar(s[0], s[1]) && s[..n] == [s[0], s[1]])
            && (n == 3 ==> ThreeByteChar(s[0], s[1], s[2]) && s[..n] == [s[0], s[1], s[2]])
            && (n == 4 ==> FourByteChar(s[0], s[1], s[2], s[3]) && s[..n] == [s[0], s[1], s[2], s[3]])
            && n <= 4
  {
  }

  /** On a well-formed character the writer's decoder and the encoder are inverse. */
  lemma {:induction false} DecodeEncode(s: Bytes)
    requires Utf8CharLength(s) > 0
    ensures s != [] && Utf8ToCodepoint(s).length == Utf8CharLength(s)
    ensures Utf8ToCodepoint(s).cp <= 0x10FFFF
    ensures CodePointToUtf8(Utf8ToCodepoint(s).cp) == s[..Utf8CharLength(s)]
  {
    CharBytes(s);
    var n := Utf8CharLength(s);
    if n == 2 {
      TwoByteRoundTrip(s[0], s[1]);
    } else if n == 3 {
      ThreeByteRoundTrip(s[0], s[1], s[2]);
    } else if n == 4 {
      FourByteRoundTrip(s[0], s[1], s[2], s[3]);
    }
  }

  /** The encoding of a scalar value is a character of the grammar. */
  lemma {:induction false} EncodedIsChar(cp: nat)
    requires cp <= 0x10FFFF && !(0xD800 <= cp <= 0xDFFF)
    ensures var e := CodePointToUtf8(cp); |e| > 0 && Utf8CharLength(e) == |e|
  {
    if 0x7FF < cp <= 0xFFFF {
      Encoded3IsChar(cp);
    } else if 0xFFFF < cp {
      Encoded4IsChar(cp);
    }
  }

  lemma {:induction false} Encoded3IsChar(cp: nat)
    requires 0x7FF < cp <= 0xFFFF && !(0xD800 <= cp <= 0xDFFF)
    ensures |CodePointToUtf8(cp)| == 3 && Utf8CharLength(CodePointToUtf8(cp)) == 3
  {
    var x, y, z := cp / 4096, cp / 64 % 64, cp % 64;
    assert cp == x * 4096 + y * 64 + z;
    Encode3(x, y, z);
    ThreeByteLength(0xE0 + x, 0x80 + y, 0x80 + z);
  }

  lemma {:induction false} Encoded4IsChar(cp: nat)
    requires 0xFFFF < cp <= 0x10FFFF
    ensures |CodePointToUtf8(cp)| == 4 && Utf8CharLength(CodePointToUtf8(cp)) == 4
  {
    var w, x, y, z := cp / 262144, cp / 4096 % 64, cp / 64 % 64, cp % 64;
    SextetsOf(cp);
    Encode4(w, x, y, z);
    FourByteLength(0xF0 + w, 0x80 + x, 0x80 + y, 0x80 + z);
  }

  lemma {:induction false} ThreeByteLength(a: Byte, b: Byte, c: Byte)
    requires ThreeByteChar(a, b, c)
    ensures Utf8CharLength([a, b, c]) == 3
  {
  }

  lemma {:induction false} FourByteLength(a: Byte, b: Byte, c: Byte, d: Byte)
    requires FourByteChar(a, b, c, d)
    ensures Utf8CharLength([a, b, c, d]) == 4
  {
  }

  lemma {:induction false} SextetsOf(cp: nat)
    ensures cp == cp / 262144 * 262144 + cp / 4096 % 64 * 4096 + cp / 64 % 64 * 64 + cp % 64
  {
    LowSextet(cp);
    LowSextet(cp / 64);
    LowSextet(cp / 4096);
    HighSextets(cp);
  }

  lemma {:induction false} LowSextet(x: nat)
    ensures x == x / 64 * 64 + x % 64
  {
  }

  lemma {:induction false} HighSextets(x: nat)
    ensures x / 64 / 64 == x / 4096 && x / 4096 / 64 == x / 262144
  {
  }

  /** Whether a string starts with a given character does not depend on what follows it. */
  lemma {:induction false} LengthIsLocal(e: Bytes, t: Bytes)
    requires Utf8CharLength(e) > 0
    ensures Utf8CharLength(e + t) == Utf8CharLength(e)
  {
    var n := Utf8CharLength(e);
    assert (e + t)[0] == e[0];
    if n >= 2 { assert (e + t)[1] == e[1]; }
    if n >= 3 { assert (e + t)[2] == e[2]; }
    if n >= 4 { assert (e + t)[3] == e[3]; }
  }

  // ---------- Writing a quoted string ----------

  function HexDigit(x: nat): (c: Byte)
    requires x < 16
  {
    if x < 10 then 0x30 + x else 0x61 + (x - 10)
  }

  function ToHex16Bit(x: nat): Bytes {
    [HexDigit(x / 4096 % 16), HexDigit(x / 256 % 16), HexDigit(x / 16 % 16), HexDigit(x % 16)]
  }

  function HexEscape(x: nat): Bytes { [BACKSLASH, LOWER_U] + ToHex16Bit(x) }

  /** The text written for the front of a string, and how many bytes it stands for. */
  datatype Escaped = Escaped(text: Bytes, length: nat)

  function CodePointEscape(cp: nat): Bytes {
    if cp < 0x20 then HexEscape(cp)
    else if cp < 0x80 then [cp]
    else if cp < 0x10000 then HexEscape(cp)
    else HexEscape(0xD800 + (cp - 0x10000) / 1024 % 1024) + HexEscape(0xDC00 + (cp - 0x10000) % 1024)
  }

  /** The two-character escapes. */
  function ShortEscape(c: Byte): Option<Byte> {
    if c == QUOTE then Some(QUOTE)
    else if c == BACKSLASH then Some(BACKSLASH)
    else if c == 0x08 then Some(LOWER_B)
    else if c == 0x0C then Some(LOWER_F)
    else if c == 0x0A then Some(LOWER_N)
    else if c == 0x0D then Some(LOWER_R)
    else if c == 0x09 then Some(LOWER_T)
    else None
  }

  function EscapeNext(s: Bytes, emitUtf8: bool): (e: Escaped)
    requires s != []
    ensures 1 <= e.length <= |s|
  {
    var c := s[0];
    var short := ShortEscape(c);
    if short.Some? then Escaped([BACKSLASH, short.value], 1)
    else if emitUtf8 then Escaped(if c < 0x20 then HexEscape(c) else [c], 1)
    else
      var d := Utf8ToCodepoint(s);
      Escaped(CodePointEscape(d.cp), d.length)
  }

  function EscapeAll(s: Bytes, emitUtf8: bool): Bytes
    decreases |s|
  {
    if s == [] then []
    else
      var e := EscapeNext(s, emitUtf8);
      e.text + EscapeAll(s[e.length..], emitUtf8)
  }

  /** `isprint` of the C locale. */
  predicate IsPrint(c: Byte) { 0x20 <= c <= 0x7E }

  predicate RequiresQuoting(c: Byte) { c == BACKSLASH || c == QUOTE || !IsPrint(c) }

  predicate AnyCharRequiresQuoting(s: Bytes) {
    exists i :: 0 <= i < |s| && RequiresQuoting(s[i])
  }

  /** The fast path writes the bytes as they are. */
  function Quoted(s: Bytes, emitUtf8: bool): Bytes {
    if !AnyCharRequiresQuoting(s) then [QUOTE] + s + [QUOTE]
    else [QUOTE] + EscapeAll(s, emitUtf8) + [QUOTE]
  }

  /** The fast path is what the walk would have written. */
  lemma {:induction false} PlainIsUnescaped(s: Bytes, emitUtf8: bool)
    requires !AnyCharRequiresQuoting(s)
    ensures EscapeAll(s, emitUtf8) == s
    decreases |s|
  {
    if s != [] {
      assert !RequiresQuoting(s[0]);
      forall i | 0 <= i < |s[1..]| ensures !RequiresQuoting(s[1..][i]) {
        assert s[1..][i] == s[i + 1];
      }
      PlainIsUnescaped(s[1..], emitUtf8);
      assert EscapeNext(s, emitUtf8) == Escaped([s[0]], 1);
      HeadTail(s);
    }
  }

  lemma {:induction false} QuotedIsEscaped(s: Bytes, emitUtf8: bool)
    ensures Quoted(s, emitUtf8) == [QUOTE] + EscapeAll(s, emitUtf8) + [QUOTE]
  {
    if !AnyCharRequiresQuoting(s) {
      PlainIsUnescaped(s, emitUtf8);
    }
  }

  // ---------- Scanning and decoding a quoted string ----------

  /** A scanner's verdict and the input it left. */
  datatype Scan = Scan(ok: bool, rest: Bytes)

  /** The scan after an opening quote, up to and including the matching closing quote. */
  function ScanString(s: Bytes, quote: Byte): (r: Scan)
    ensures |r.rest| <= |s|
    ensures r.ok ==> |r.rest| < |s|
    decreases |s|
  {
    if s == [] then Scan(false, [])
    else if s[0] == BACKSLASH then
      if |s| == 1 then Scan(false, []) else ScanString(s[2..], quote)
    else if s[0] == quote then Scan(true, s[1..])
    else ScanString(s[1..], quote)
  }

  datatype TextError =
    | EmptyEscape
    | BadEscape
    | FourDigitsExpected
    | HexDigitExpected
    | SixMoreExpected
    | SecondHalfExpected

  /** One decoding step: the bytes produced and the length of input consumed. */
  datatype Unescaped = Bad(error: TextError) | Good(text: Bytes, length: nat)

  datatype CodeUnit = NoUnit(error: TextError) | Unit(value: nat)

  function HexValue(c: Byte): Option<nat> {
    if 0x30 <= c <= 0x39 then Some(c - 0x30)
    else if 0x61 <= c <= 0x66 then Some(c - 0x61 + 10)
    else if 0x41 <= c <= 0x46 then Some(c - 0x41 + 10)
    else None
  }

  /** The four hexadecimal digits at the front of `s`. */
  function UnescapeHex(s: Bytes): (u: CodeUnit)
    ensures u.Unit? ==> |s| >= 4
  {
    if |s| < 4 then NoUnit(FourDigitsExpected)
    else
      var a, b, c, d := HexValue(s[0]), HexValue(s[1]), HexValue(s[2]), HexValue(s[3]);
      if a.Some? && b.Some? && c.Some? && d.Some? then
        Unit(((a.value * 16 + b.value) * 16 + c.value) * 16 + d.value)
      else NoUnit(HexDigitExpected)
  }

  function PairCodePoint(hi: nat, lo: nat): nat { 0x10000 + hi % 1024 * 1024 + lo % 1024 }

  /** What follows `\u`: one unit, or two when the first is a high surrogate. */
  function UnescapeCodePoint(s: Bytes): (r: Unescaped)
    ensures r.Good? ==> 4 <= r.length <= |s|
  {
    var first := UnescapeHex(s);
    if first.NoUnit? then Bad(first.error)
    else if 0xD800 <= first.value <= 0xDBFF then
      if |s| - 4 < 6 then Bad(SixMoreExpected)
      else if s[4] == BACKSLASH && s[5] == LOWER_U then
        var second := UnescapeHex(s[6..]);
        if second.NoUnit? then Bad(second.error)
        else Good(CodePointToUtf8(PairCodePoint(first.value, second.value)), 10)
      else Bad(SecondHalfExpected)
    else Good(CodePointToUtf8(first.value), 4)
  }

  function ShortUnescape(c: Byte): Option<Byte> {
    if c == QUOTE then Some(QUOTE)
    else if c == SLASH then Some(SLASH)
    else if c == BACKSLASH then Some(BACKSLASH)
    else if c == LOWER_B then Some(0x08)
    else if c == LOWER_F then Some(0x0C)
    else if c == LOWER_N then Some(0x0A)
    else if c == LOWER_R then Some(0x0D)
    else if c == LOWER_T then Some(0x09)
    else None
  }

  function UnescapeNext(s: Bytes): (r: Unescaped)
    requires s != []
    ensures r.Good? ==> 1 <= r.length <= |s|
  {
    if s[0] != BACKSLASH then Good([s[0]], 1)
    else if |s| == 1 then Bad(EmptyEscape)
    else if ShortUnescape(s[1]).Some? then Good([ShortUnescape(s[1]).value], 2)
    else if s[1] == LOWER_U then
      var u := UnescapeCodePoint(s[2..]);
      if u.Bad? then u else Good(u.text, u.length + 2)
    else Bad(BadEscape)
  }

  datatype Text = BadText(error: TextError) | GoodText(text: Bytes)

  function Prepend(p: Bytes, t: Text): Text {
    if t.BadText? then t else GoodText(p + t.text)
  }

  /** Decodes the bytes between the quotes; an unescaped double quote ends the text early. */
  function DecodeText(s: Bytes): Text
    decreases |s|
  {
    if s == [] || s[0] == QUOTE then GoodText([])
    else
      var u := UnescapeNext(s);
      if u.Bad? then BadText(u.error) else Prepend(u.text, DecodeText(s[u.length..]))
  }

  // ---------- Quoting and decoding together ----------

  /** The code point that comes back: a value above U+10FFFF loses its top bit in the surrogate pair. */
  function ReadableCodePoint(cp: nat): nat {
    if cp < 0x10000 then cp else 0x10000 + (cp - 0x10000) % 0x100000
  }

  /** What the front of a string becomes after it is written and read again. */
  function RepairNext(s: Bytes, emitUtf8: bool): Bytes
    requires s != []
  {
    if ShortEscape(s[0]).Some? || emitUtf8 then [s[0]]
    else CodePointToUtf8(ReadableCodePoint(Utf8ToCodepoint(s).cp))
  }

  /** What a whole string becomes after it is written and read again. */
  function Repaired(s: Bytes, emitUtf8: bool): Bytes
    decreases |s|
  {
    if s == [] then []
    else RepairNext(s, emitUtf8) + Repaired(s[EscapeNext(s, emitUtf8).length..], emitUtf8)
  }

  lemma {:induction false} HexDigitValue(x: nat)
    requires x < 16
    ensures HexValue(HexDigit(x)) == Some(x)
  {
  }

  lemma {:induction false} Nibbles(x: nat)
    requires x < 0x10000
    ensures x == ((x / 4096 % 16 * 16 + x / 256 % 16) * 16 + x / 16 % 16) * 16 + x % 16
  {
  }

  lemma {:induction false} FourDigits(a: nat, b: nat, c: nat, d: nat, t: Bytes)
    requires a < 16 && b < 16 && c < 16 && d < 16
    ensures UnescapeHex([HexDigit(a), HexDigit(b), HexDigit(c), HexDigit(d)] + t)
         == Unit(((a * 16 + b) * 16 + c) * 16 + d)
  {
    HexDigitValue(a);
    HexDigitValue(b);
    HexDigitValue(c);
    HexDigitValue(d);
  }

  lemma {:induction false} HexRoundTrip(x: nat, t: Bytes)
    requires x < 0x10000
    ensures UnescapeHex(ToHex16Bit(x) + t) == Unit(x)
  {
    Nibbles(x);
    FourDigits(x / 4096 % 16, x / 256 % 16, x / 16 % 16, x % 16, t);
  }

  lemma {:induction false} UnitRoundTrip(x: nat, t: Bytes)
    requires x < 0x10000 && !(0xD800 <= x <= 0xDBFF)
    ensures UnescapeNext(HexEscape(x) + t) == Good(CodePointToUtf8(x), 6)
  {
    var s := HexEscape(x) + t;
    assert s[2..] == ToHex16Bit(x) + t;
    HexRoundTrip(x, t);
  }

  lemma {:induction false} PairDecodes(s: Bytes, hi: nat, lo: nat)
    requires |s| >= 12 && s[0] == BACKSLASH && s[1] == LOWER_U && s[6] == BACKSLASH && s[7] == LOWER_U
    requires UnescapeHex(s[2..]) == Unit(hi) && UnescapeHex(s[8..]) == Unit(lo)
    requires 0xD800 <= hi <= 0xDBFF
    ensures UnescapeNext(s) == Good(CodePointToUtf8(PairCodePoint(hi, lo)), 12)
  {
    assert s[2..][6..] == s[8..];
  }

  lemma {:induction false} PairScans(hi: nat, lo: nat, t: Bytes)
    requires hi < 0x10000 && lo < 0x10000
    ensures var s := HexEscape(hi) + HexEscape(lo) + t;
            && s[0] == BACKSLASH && s[1] == LOWER_U && s[6] == BACKSLASH && s[7] == LOWER_U
            && UnescapeHex(s[2..]) == Unit(hi) && UnescapeHex(s[8..]) == Unit(lo)
  {
    var s := HexEscape(hi) + HexEscape(lo) + t;
    assert s[2..] == ToHex16Bit(hi) + (HexEscape(lo) + t);
    HexRoundTrip(hi, HexEscape(lo) + t);
    assert s[8..] == ToHex16Bit(lo) + t;
    HexRoundTrip(lo, t);
  }

  lemma {:induction false} PairRoundTrip(hi: nat, lo: nat, t: Bytes)
    requires 0xD800 <= hi <= 0xDBFF && lo < 0x10000
    ensures UnescapeNext(HexEscape(hi) + HexEscape(lo) + t) == Good(CodePointToUtf8(PairCodePoint(hi, lo)), 12)
  {
    PairScans(hi, lo, t);
    PairDecodes(HexEscape(hi) + HexEscape(lo) + t, hi, lo);
  }

  lemma {:induction false} PairArithmetic(x: nat)
    ensures PairCodePoint(0xD800 + x / 1024 % 1024, 0xDC00 + x % 1024) == 0x10000 + x % 0x100000
  {
    var u, v := x / 1024 % 1024, x % 1024;
    assert (0xD800 + u) % 1024 == u && (0xDC00 + v) % 1024 == v;
  }

  lemma {:induction false} SurrogateRoundTrip(cp: nat, t: Bytes)
    requires 0x10000 <= cp
    ensures UnescapeNext(CodePointEscape(cp) + t) == Good(CodePointToUtf8(ReadableCodePoint(cp)), 12)
  {
    var hi, lo := 0xD800 + (cp - 0x10000) / 1024 % 1024, 0xDC00 + (cp - 0x10000) % 1024;
    assert PairCodePoint(hi, lo) == ReadableCodePoint(cp) by { PairArithmetic(cp - 0x10000); }
    assert CodePointEscape(cp) == HexEscape(hi) + HexEscape(lo);
    PairRoundTrip(hi, lo, t);
  }

  lemma {:induction false} CodePointRoundTrip(cp: nat, t: Bytes)
    requires !(0xD800 <= cp <= 0xDFFF)
    requires cp < 0x80 ==> ShortEscape(cp).None?
    ensures UnescapeNext(CodePointEscape(cp) + t)
         == Good(CodePointToUtf8(ReadableCodePoint(cp)), |CodePointEscape(cp)|)
  {
    if 0x10000 <= cp {
      SurrogateRoundTrip(cp, t);
    } else if cp < 0x20 || 0x80 <= cp {
      UnitRoundTrip(cp, t);
    } else {
      assert ([cp] + t)[0] == cp;
    }
  }

  /** One escape decodes to the repaired front of the string, whatever follows. */
  lemma {:induction false} EscapeRoundTrip(s: Bytes, emitUtf8: bool, t: Bytes)
    requires s != []
    ensures var e := EscapeNext(s, emitUtf8);
            e.text != [] && e.text[0] != QUOTE
            && UnescapeNext(e.text + t) == Good(RepairNext(s, emitUtf8), |e.text|)
  {
    var c := s[0];
    if ShortEscape(c).None? {
      if emitUtf8 {
        if c < 0x20 { UnitRoundTrip(c, t); }
      } else {
        CodePointRoundTrip(Utf8ToCodepoint(s).cp, t);
      }
    }
  }

  /** Decoding an escaped string gives the repaired string. */
  lemma {:induction false} DecodeEscaped(s: Bytes, emitUtf8: bool)
    ensures DecodeText(EscapeAll(s, emitUtf8)) == GoodText(Repaired(s, emitUtf8))
    decreases |s|
  {
    if s != [] {
      var e := EscapeNext(s, emitUtf8);
      var t := EscapeAll(s[e.length..], emitUtf8);
      EscapeRoundTrip(s, emitUtf8, t);
      assert (e.text + t)[|e.text|..] == t;
      DecodeEscaped(s[e.length..], emitUtf8);
    }
  }

  lemma {:induction false} ScanHexEscape(x: nat, t: Bytes)
    ensures ScanString(HexEscape(x) + t, QUOTE) == ScanString(t, QUOTE)
  {
    var h := ToHex16Bit(x);
    var s := HexEscape(x) + t;
    assert s[2..] == [h[0]] + ([h[1]] + ([h[2]] + ([h[3]] + t)));
    ScanPlain(h[0], [h[1]] + ([h[2]] + ([h[3]] + t)));
    ScanPlain(h[1], [h[2]] + ([h[3]] + t));
    ScanPlain(h[2], [h[3]] + t);
    ScanPlain(h[3], t);
  }

  lemma {:induction false} ScanPlain(c: Byte, t: Bytes)
    requires c != QUOTE && c != BACKSLASH
    ensures ScanString([c] + t, QUOTE) == ScanString(t, QUOTE)
  {
    assert ([c] + t)[1..] == t;
  }

  /** An escape never contains the closing quote of the scan. */
  lemma {:induction false} ScanEscape(s: Bytes, emitUtf8: bool, t: Bytes)
    requires s != []
    ensures ScanString(EscapeNext(s, emitUtf8).text + t, QUOTE) == ScanString(t, QUOTE)
  {
    var c := s[0];
    var e := EscapeNext(s, emitUtf8);
    if ShortEscape(c).Some? {
      assert (e.text + t)[2..] == t;
    } else if emitUtf8 {
      if c < 0x20 { ScanHexEscape(c, t); } else { ScanPlain(c, t); }
    } else {
      var cp := Utf8ToCodepoint(s).cp;
      if cp < 0x20 || 0x80 <= cp < 0x10000 {
        ScanHexEscape(cp, t);
      } else if cp < 0x80 {
        ScanPlain(cp, t);
      } else {
        var hi, lo := 0xD800 + (cp - 0x10000) / 1024 % 1024, 0xDC00 + (cp - 0x10000) % 1024;
        assert e.text + t == HexEscape(hi) + (HexEscape(lo) + t);
        ScanHexEscape(hi, HexEscape(lo) + t);
        ScanHexEscape(lo, t);
      }
    }
  }

  /** The scan consumes exactly the escaped string and the closing quote. */
  lemma {:induction false} ScanEscaped(s: Bytes, emitUtf8: bool, t: Bytes)
    ensures ScanString(EscapeAll(s, emitUtf8) + [QUOTE] + t, QUOTE) == Scan(true, t)
    decreases |s|
  {
    if s == [] {
      assert EscapeAll(s, emitUtf8) + [QUOTE] + t == [QUOTE] + t;
      assert ([QUOTE] + t)[1..] == t;
    } else {
      var e := EscapeNext(s, emitUtf8);
      var u := EscapeAll(s[e.length..], emitUtf8);
      assert e.text + u + [QUOTE] + t == e.text + (u + [QUOTE] + t);
      ScanEscape(s, emitUtf8, u + [QUOTE] + t);
      ScanEscaped(s[e.length..], emitUtf8, t);
    }
  }

  /**
    Quoting, scanning past the opening quote and decoding between the quotes: the scan stops
    exactly at the end of the quoted text and the decoded string is the repaired one.
   */
  lemma {:induction false} QuoteScanDecode(s: Bytes, emitUtf8: bool, t: Bytes)
    ensures var q := Quoted(s, emitUtf8);
            && |q| >= 2 && q[0] == QUOTE
            && ScanString(q[1..] + t, QUOTE) == Scan(true, t)
            && DecodeText(q[1..|q| - 1]) == GoodText(Repaired(s, emitUtf8))
  {
    QuotedIsEscaped(s, emitUtf8);
    var q := Quoted(s, emitUtf8);
    assert q[1..] + t == EscapeAll(s, emitUtf8) + [QUOTE] + t;
    assert q[1..|q| - 1] == EscapeAll(s, emitUtf8);
    ScanEscaped(s, emitUtf8, t);
    DecodeEscaped(s, emitUtf8);
  }

  /** Emitting raw bytes repairs nothing. */
  lemma {:induction false} RawIsIdentity(s: Bytes)
    ensures Repaired(s, true) == s
    decreases |s|
  {
    if s != [] {
      RawIsIdentity(s[1..]);
      TakeDrop(s, 1);
    }
  }

  lemma {:induction false} RepairKeepsWellFormed(s: Bytes)
    requires Utf8CharLength(s) > 0
    ensures EscapeNext(s, false).length == Utf8CharLength(s)
    ensures RepairNext(s, false) == s[..Utf8CharLength(s)]
  {
    if ShortEscape(s[0]).Some? {
      CharBytes(s);
    } else {
      DecodeEncode(s);
      assert ReadableCodePoint(Utf8ToCodepoint(s).cp) == Utf8ToCodepoint(s).cp;
    }
  }

  lemma {:induction false} WellFormedIsKept(s: Bytes)
    requires WellFormedUtf8(s)
    ensures Repaired(s, false) == s
    decreases |s|
  {
    if s != [] {
      var n := Utf8CharLength(s);
      RepairKeepsWellFormed(s);
      WellFormedIsKept(s[n..]);
      TakeDrop(s, n);
    }
  }

  lemma {:induction false} RepairedIsWellFormed(s: Bytes)
    ensures WellFormedUtf8(Repaired(s, false))
    decreases |s|
  {
    if s != [] {
      var t := Repaired(s[EscapeNext(s, false).length..], false);
      RepairedIsWellFormed(s[EscapeNext(s, false).length..]);
      var d := Utf8ToCodepoint(s);
      if ShortEscape(s[0]).Some? {
        assert RepairNext(s, false) == CodePointToUtf8(s[0]);
        EncodedIsChar(s[0]);
      } else {
        EncodedIsChar(ReadableCodePoint(d.cp));
      }
      var r := RepairNext(s, false);
      LengthIsLocal(r, t);
      DropAppend(r, t);
    }
  }

  /** Escaping to ASCII gives a string back unchanged exactly when it was well-formed UTF-8. */
  lemma {:induction false} AsciiIdentityIffWellFormed(s: Bytes)
    ensures Repaired(s, false) == s <==> WellFormedUtf8(s)
  {
    RepairedIsWellFormed(s);
    if WellFormedUtf8(s) {
      WellFormedIsKept(s);
    }
  }
}
