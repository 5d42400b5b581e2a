/** Every way to spell a string in JSON, by its bytes: section 7 of RFC 8259. */
module JsonSpellings {
  import opened JsonStrings
  import opened Sequences

  /** A hexadecimal digit, and whether a letter is written in upper case. */
  datatype Digit = Digit(value: nat, upper: bool)

  function DigitByte(d: Digit): Byte
    requires d.value < 16
  {
    if d.value < 10 then 0x30 + d.value else if d.upper then 0x41 + (d.value - 10) else 0x61 + (d.value - 10)
  }

  datatype Quad = Quad(a: Digit, b: Digit, c: Digit, d: Digit)

  predicate IsQuad(q: Quad) { q.a.value < 16 && q.b.value < 16 && q.c.value < 16 && q.d.value < 16 }

  function QuadBytes(q: Quad): Bytes
    requires IsQuad(q)
  {
    [DigitByte(q.a), DigitByte(q.b), DigitByte(q.c), DigitByte(q.d)]
  }

  function QuadValue(q: Quad): nat { 4096 * q.a.value + 256 * q.b.value + 16 * q.c.value + q.d.value }

  datatype Short = Quotation | Solidus | Reverse | Backspace | FormFeed | LineFeed | Return | Tab

  /** The character after the backslash. */
  function ShortByte(e: Short): Byte {
    match e
    case Quotation => 0x22
    case Solidus => 0x2F
    case Reverse => 0x5C
    case Backspace => 0x62
    case FormFeed => 0x66
    case LineFeed => 0x6E
    case Return => 0x72
    case Tab => 0x74
  }

  function ShortMeans(e: Short): Byte {
    match e
    case Quotation => 0x22
    case Solidus => 0x2F
    case Reverse => 0x5C
    case Backspace => 0x08
    case FormFeed => 0x0C
    case LineFeed => 0x0A
    case Return => 0x0D
    case Tab => 0x09
  }

  /** One step of a spelling: a byte as it is, a short escape, a code unit, or a pair of surrogates. */
  datatype Piece = Raw(byte: Byte) | Escaped(short: Short) | Unit16(quad: Quad) | Pair(high: Quad, low: Quad)

  predicate IsPiece(p: Piece) {
    match p
    case Raw(byte) => byte != 0x22 && byte != 0x5C
    case Escaped(_) => true
    case Unit16(quad) => IsQuad(quad) && !(0xD800 <= QuadValue(quad) <= 0xDBFF)
    case Pair(high, low) => IsQuad(high) && IsQuad(low) && 0xD800 <= QuadValue(high) <= 0xDBFF
  }

  function PieceText(p: Piece): (t: Bytes)
    requires IsPiece(p)
    ensures t != []
  {
    match p
    case Raw(byte) => [byte]
    case Escaped(short) => [0x5C, ShortByte(short)]
    case Unit16(quad) => [0x5C, 0x75] + QuadBytes(quad)
    case Pair(high, low) => [0x5C, 0x75] + QuadBytes(high) + ([0x5C, 0x75] + QuadBytes(low))
  }

  /**
    The bytes it stands for. Of the second half of a pair only the low ten bits count; for a low
    surrogate that is the code point of the pair.
   */
  function PieceMeans(p: Piece): Bytes
    requires IsPiece(p)
  {
    match p
    case Raw(byte) => [byte]
    case Escaped(short) => [ShortMeans(short)]
    case Unit16(quad) => CodePointToUtf8(QuadValue(quad))
    case Pair(high, low) => CodePointToUtf8(0x10000 + 1024 * (QuadValue(high) - 0xD800) + QuadValue(low) % 1024)
  }

  type Spelling = seq<Piece>

  predicate IsSpelling(ps: Spelling) { forall k :: 0 <= k < |ps| ==> IsPiece(ps[k]) }

  function SpellingText(ps: Spelling): Bytes
    requires IsSpelling(ps)
  {
    if ps == [] then [] else PieceText(ps[0]) + SpellingText(ps[1..])
  }

  function SpellingMeans(ps: Spelling): Bytes
    requires IsSpelling(ps)
  {
    if ps == [] then [] else PieceMeans(ps[0]) + SpellingMeans(ps[1..])
  }

  // ---------- Decoding a spelling ----------

  lemma {:induction false} DigitReads(d: Digit)
    requires d.value < 16
    ensures HexValue(DigitByte(d)) == Some(d.value) && DigitByte(d) != 0x22 && DigitByte(d) != 0x5C
  {
  }

  lemma {:induction false} QuadReads(q: Quad, t: Bytes)
    requires IsQuad(q)
    ensures UnescapeHex(QuadBytes(q) + t) == Unit(QuadValue(q))
  {
    DigitReads(q.a);
    DigitReads(q.b);
    DigitReads(q.c);
    DigitReads(q.d);
    var s := QuadBytes(q) + t;
    assert s[0] == DigitByte(q.a) && s[1] == DigitByte(q.b) && s[2] == DigitByte(q.c) && s[3] == DigitByte(q.d);
  }

  lemma {:induction false} ShortReads(e: Short)
    ensures ShortUnescape(ShortByte(e)) == Some(ShortMeans(e))
  {
  }

  lemma {:induction false} UnitReads(q: Quad, t: Bytes)
    requires IsPiece(Unit16(q))
    ensures UnescapeNext(PieceText(Unit16(q)) + t) == Good(PieceMeans(Unit16(q)), 6)
  {
    var s := [0x5C, 0x75] + QuadBytes(q) + t;
    assert s[0] == 0x5C && s[1] == 0x75 && s[2..] == QuadBytes(q) + t;
    QuadReads(q, t);
  }

  lemma {:induction false} PairValue(hi: nat, lo: nat)
    requires 0xD800 <= hi <= 0xDBFF
    ensures PairCodePoint(hi, lo) == 0x10000 + 1024 * (hi - 0xD800) + lo % 1024
  {
    assert hi % 1024 == hi - 0xD800;
  }

  lemma {:induction false} PairReads(high: Quad, low: Quad, t: Bytes)
    requires IsPiece(Pair(high, low))
    ensures UnescapeNext(PieceText(Pair(high, low)) + t) == Good(PieceMeans(Pair(high, low)), 12)
  {
    var s := PieceText(Pair(high, low)) + t;
    assert s[2..] == QuadBytes(high) + ([0x5C, 0x75] + QuadBytes(low) + t);
    assert s[8..] == QuadBytes(low) + t;
    QuadReads(high, [0x5C, 0x75] + QuadBytes(low) + t);
    QuadReads(low, t);
    PairValue(QuadValue(high), QuadValue(low));
    PairDecodes(s, QuadValue(high), QuadValue(low));
  }

  /** Each piece is read as what it means, whatever follows. */
  lemma {:induction false} PieceReads(p: Piece, t: Bytes)
    requires IsPiece(p)
    ensures PieceText(p)[0] != 0x22 && UnescapeNext(PieceText(p) + t) == Good(PieceMeans(p), |PieceText(p)|)
  {
    match p
    case Raw(byte) => assert ([byte] + t)[0] == byte;
    case Escaped(short) =>
      ShortReads(short);
      assert ([0x5C, ShortByte(short)] + t)[1] == ShortByte(short);
    case Unit16(quad) => UnitReads(quad, t);
    case Pair(high, low) => PairReads(high, low, t);
  }

  /** Decoding undoes every spelling of a string, not only the writer's. */
  lemma {:induction false} SpellingDecodes(ps: Spelling)
    requires IsSpelling(ps)
    ensures DecodeText(SpellingText(ps)) == GoodText(SpellingMeans(ps))
  {
    if ps != [] {
      var t := SpellingText(ps[1..]);
      PieceReads(ps[0], t);
      DropAppend(PieceText(ps[0]), t);
      assert (PieceText(ps[0]) + t)[0] == PieceText(ps[0])[0];
      SpellingDecodes(ps[1..]);
    }
  }

  // ---------- Scanning a spelling ----------

  /** Between apostrophes there is no apostrophe as it is. */
  predicate Fits(ps: Spelling, quote: Byte) {
    forall k :: 0 <= k < |ps| ==> ps[k] != Raw(quote)
  }

  lemma {:induction false} ScanByte(c: Byte, quote: Byte, t: Bytes)
    requires c != quote && c != 0x5C
    ensures ScanString([c] + t, quote) == ScanString(t, quote)
  {
    assert ([c] + t)[1..] == t;
  }

  lemma {:induction false} ScanQuad(q: Quad, quote: Byte, t: Bytes)
    requires IsQuad(q) && (quote == 0x22 || quote == 0x27)
    ensures ScanString([0x5C, 0x75] + QuadBytes(q) + t, quote) == ScanString(t, quote)
  {
    var a, b, c, d := DigitByte(q.a), DigitByte(q.b), DigitByte(q.c), DigitByte(q.d);
    var s := [0x5C, 0x75] + QuadBytes(q) + t;
    assert s[2..] == [a] + ([b] + ([c] + ([d] + t)));
    DigitReads(q.a);
    DigitReads(q.b);
    DigitReads(q.c);
    DigitReads(q.d);
    ScanByte(a, quote, [b] + ([c] + ([d] + t)));
    ScanByte(b, quote, [c] + ([d] + t));
    ScanByte(c, quote, [d] + t);
    ScanByte(d, quote, t);
  }

  lemma {:induction false} ScanPiece(p: Piece, quote: Byte, t: Bytes)
    requires IsPiece(p) && (quote == 0x22 || quote == 0x27) && p != Raw(quote)
    ensures ScanString(PieceText(p) + t, quote) == ScanString(t, quote)
  {
    match p
    case Raw(byte) => ScanByte(byte, quote, t);
    case Escaped(short) => assert (PieceText(p) + t)[2..] == t;
    case Unit16(quad) => ScanQuad(quad, quote, t);
    case Pair(high, low) =>
      var second := [0x5C, 0x75] + QuadBytes(low);
      Associate([0x5C, 0x75] + QuadBytes(high), second, t);
      ScanQuad(high, quote, second + t);
      ScanQuad(low, quote, t);
  }

  /** The scan ends at the quote behind the spelling, and nowhere before it. */
  lemma {:induction false} SpellingScans(ps: Spelling, quote: Byte, t: Bytes)
    requires IsSpelling(ps) && Fits(ps, quote) && (quote == 0x22 || quote == 0x27)
    ensures ScanString(SpellingText(ps) + ([quote] + t), quote) == Scan(true, t)
  {
    if ps == [] {
      assert SpellingText(ps) + ([quote] + t) == [quote] + t && ([quote] + t)[1..] == t;
    } else {
      var more := SpellingText(ps[1..]) + ([quote] + t);
      Associate(PieceText(ps[0]), SpellingText(ps[1..]), [quote] + t);
      ScanPiece(ps[0], quote, more);
      SpellingScans(ps[1..], quote, t);
    }
  }

  // ---------- Nothing else is decoded ----------

  function DigitFor(c: Byte): Digit {
    if 0x30 <= c <= 0x39 then Digit(c - 0x30, false)
    else if 0x61 <= c <= 0x66 then Digit(c - 0x61 + 10, false)
    else if 0x41 <= c <= 0x46 then Digit(c - 0x41 + 10, true)
    else Digit(0, false)
  }

  lemma {:induction false} DigitSpells(c: Byte)
    requires HexValue(c).Some?
    ensures var d := DigitFor(c); d.value < 16 && DigitByte(d) == c && HexValue(c) == Some(d.value)
  {
  }

  function QuadFor(s: Bytes): Quad
    requires |s| >= 4
  {
    Quad(DigitFor(s[0]), DigitFor(s[1]), DigitFor(s[2]), DigitFor(s[3]))
  }

  lemma {:induction false} QuadSpells(s: Bytes)
    requires UnescapeHex(s).Unit?
    ensures var q := QuadFor(s); IsQuad(q) && QuadBytes(q) == s[..4] && UnescapeHex(s) == Unit(QuadValue(q))
  {
    DigitSpells(s[0]);
    DigitSpells(s[1]);
    DigitSpells(s[2]);
    DigitSpells(s[3]);
  }

  function ShortFor(c: Byte): Short {
    if c == 0x22 then Quotation else if c == 0x2F then Solidus else if c == 0x5C then Reverse
    else if c == 0x62 then Backspace else if c == 0x66 then FormFeed else if c == 0x6E then LineFeed
    else if c == 0x72 then Return else Tab
  }

  lemma {:induction false} ShortSpells(c: Byte)
    requires ShortUnescape(c).Some?
    ensures ShortByte(ShortFor(c)) == c
  {
  }

  lemma {:induction false} UnitSpells(s: Bytes) returns (p: Piece)
    requires |s| >= 2 && s[0] == 0x5C && s[1] == 0x75 && UnescapeCodePoint(s[2..]).Good?
    ensures IsPiece(p) && PieceText(p) <= s && |PieceText(p)| == UnescapeCodePoint(s[2..]).length + 2
  {
    var t := s[2..];
    var q := QuadFor(t);
    QuadSpells(t);
    assert t[..4] == s[2..6];
    if 0xD800 <= QuadValue(q) <= 0xDBFF {
      var r := QuadFor(t[6..]);
      QuadSpells(t[6..]);
      assert t[6..][..4] == s[8..12];
      p := Pair(q, r);
      assert PieceText(p) == s[..2] + s[2..6] + (s[6..8] + s[8..12]);
      assert s[..2] + s[2..6] + (s[6..8] + s[8..12]) == s[..12];
    } else {
      p := Unit16(q);
      assert PieceText(p) == s[..2] + s[2..6] == s[..6];
    }
  }

  lemma {:induction false} NextSpells(s: Bytes) returns (p: Piece)
    requires s != [] && s[0] != 0x22 && UnescapeNext(s).Good?
    ensures IsPiece(p) && PieceText(p) <= s && |PieceText(p)| == UnescapeNext(s).length
  {
    if s[0] != 0x5C {
      p := Raw(s[0]);
    } else if ShortUnescape(s[1]).Some? {
      p := Piece.Escaped(ShortFor(s[1]));
      ShortSpells(s[1]);
      assert PieceText(p) == s[..2];
    } else {
      p := UnitSpells(s);
    }
  }

  lemma {:induction false} SpellingCons(p: Piece, more: Spelling, s: Bytes, rest: Bytes)
    requires IsPiece(p) && IsSpelling(more) && PieceText(p) <= s
    requires s[|PieceText(p)|..] == SpellingText(more) + rest
    ensures IsSpelling([p] + more) && s == SpellingText([p] + more) + rest
  {
    var n := |PieceText(p)|;
    assert ([p] + more)[1..] == more;
    TakeDrop(s, n);
    Associate(PieceText(p), SpellingText(more), rest);
  }

  lemma {:induction false} DecodeGoesOn(s: Bytes)
    requires DecodeText(s).GoodText? && s != [] && s[0] != 0x22
    ensures UnescapeNext(s).Good? && DecodeText(s[UnescapeNext(s).length..]).GoodText?
  {
  }

  /** Text that is decoded at all is a spelling, up to a quote that is not escaped. */
  lemma {:induction false} DecodedIsSpelling(s: Bytes) returns (ps: Spelling, rest: Bytes)
    requires DecodeText(s).GoodText?
    ensures IsSpelling(ps) && s == SpellingText(ps) + rest && (rest == [] || rest[0] == 0x22)
    decreases |s|
  {
    if s == [] || s[0] == 0x22 {
      ps, rest := [], s;
    } else {
      DecodeGoesOn(s);
      var p := NextSpells(s);
      var more;
      more, rest := DecodedIsSpelling(s[|PieceText(p)|..]);
      SpellingCons(p, more, s, rest);
      ps := [p] + more;
    }
  }
}
