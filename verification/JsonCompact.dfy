/** The writer's text as a text of the grammar: which spelling it chooses, and that it adds nothing. */
module JsonCompact {
  import opened JsonStrings
  import opened JsonNumbers
  import opened JsonValues
  import opened JsonSpellings
  import opened JsonLayout
  import opened JsonGrammar
  import opened JsonWriter
  import opened JsonRefusals
  import opened Sequences

  // ---------- Strings ----------

  /** Four digits in lower case. */
  function LowerQuad(x: nat): Quad {
    Quad(Digit(x / 4096 % 16, false), Digit(x / 256 % 16, false), Digit(x / 16 % 16, false), Digit(x % 16, false))
  }

  predicate InLowerCase(q: Quad) { !q.a.upper && !q.b.upper && !q.c.upper && !q.d.upper }

  /**
    The form the writer prefers: printable ASCII as it is, a short escape where there is one apart
    from the slash, and four digits in lower case for everything else.
   */
  predicate Preferred(p: Piece) {
    match p
    case Raw(byte) => 0x20 <= byte <= 0x7F
    case Escaped(short) => short != Solidus
    case Unit16(quad) =>
      && InLowerCase(quad) && var v := QuadValue(quad);
      (v < 0x20 || 0x80 <= v) && v != 0x08 && v != 0x09 && v != 0x0A && v != 0x0C && v != 0x0D
    case Pair(high, low) => InLowerCase(high) && InLowerCase(low) && 0xDC00 <= QuadValue(low) <= 0xDFFF
  }

  lemma {:induction false} LowerQuadIs(x: nat)
    requires x < 0x10000
    ensures var q := LowerQuad(x); IsQuad(q) && InLowerCase(q) && QuadValue(q) == x && QuadBytes(q) == ToHex16Bit(x)
  {
    Nibbles(x);
  }

  function CodePointPiece(cp: nat): Piece {
    if 0x20 <= cp < 0x80 then Raw(cp)
    else if cp < 0x10000 then Unit16(LowerQuad(cp))
    else Pair(LowerQuad(0xD800 + (cp - 0x10000) / 1024 % 1024), LowerQuad(0xDC00 + (cp - 0x10000) % 1024))
  }

  function NextPiece(s: Bytes): Piece
    requires s != []
  {
    if ShortEscape(s[0]).Some? then Piece.Escaped(ShortFor(ShortEscape(s[0]).value))
    else CodePointPiece(Utf8ToCodepoint(s).cp)
  }

  lemma {:induction false} CodePointPieceIs(cp: nat)
    requires !(0xD800 <= cp <= 0xDFFF) && cp < 0x200000 && cp != 0x22 && cp != 0x5C
    requires cp != 0x08 && cp != 0x09 && cp != 0x0A && cp != 0x0C && cp != 0x0D
    ensures var p := CodePointPiece(cp); IsPiece(p) && Preferred(p) && PieceText(p) == CodePointEscape(cp)
  {
    if 0x20 <= cp < 0x80 {
    } else if cp < 0x10000 {
      LowerQuadIs(cp);
    } else {
      LowerQuadIs(0xD800 + (cp - 0x10000) / 1024 % 1024);
      LowerQuadIs(0xDC00 + (cp - 0x10000) % 1024);
    }
  }

  lemma {:induction false} ShortChosen(c: Byte)
    ensures var e := ShortEscape(c);
            if e.Some? then ShortByte(ShortFor(e.value)) == e.value && ShortFor(e.value) != Solidus
            else c != 0x22 && c != 0x5C && c != 0x08 && c != 0x09 && c != 0x0A && c != 0x0C && c != 0x0D
  {
  }

  lemma {:induction false} NextPieceIs(s: Bytes)
    requires s != []
    ensures var p := NextPiece(s);
            IsPiece(p) && Preferred(p) && PieceText(p) == EscapeNext(s, false).text
            && PieceMeans(p) == RepairNext(s, false)
  {
    ShortChosen(s[0]);
    if ShortEscape(s[0]).None? {
      CodePointPieceIs(Utf8ToCodepoint(s).cp);
    }
    EscapeRoundTrip(s, false, []);
    PieceReads(NextPiece(s), []);
  }

  /** The spelling the writer chooses for a string. */
  function WriterSpelling(s: Bytes): (ps: Spelling)
    ensures IsSpelling(ps) && forall k :: 0 <= k < |ps| ==> Preferred(ps[k])
    decreases |s|
  {
    if s == [] then []
    else
      NextPieceIs(s);
      [NextPiece(s)] + WriterSpelling(s[EscapeNext(s, false).length..])
  }

  /** It is the text that is written, and it stands for the string as repaired. */
  lemma {:induction false} WriterSpells(s: Bytes)
    ensures SpellingText(WriterSpelling(s)) == EscapeAll(s, false)
    ensures SpellingMeans(WriterSpelling(s)) == Repaired(s, false)
    decreases |s|
  {
    if s != [] {
      NextPieceIs(s);
      var more := WriterSpelling(s[EscapeNext(s, false).length..]);
      assert ([NextPiece(s)] + more)[1..] == more;
      WriterSpells(s[EscapeNext(s, false).length..]);
    }
  }

  function WrittenQuote(s: Bytes): Quote { Quote(WriterSpelling(s), false) }

  lemma {:induction false} WrittenQuoteIs(s: Bytes)
    ensures IsQuote(WrittenQuote(s)) && QuoteText(WrittenQuote(s)) == Quoted(s, false)
  {
    QuotedIsEscaped(s, false);
    WriterSpells(s);
    Associate([0x22], EscapeAll(s, false), [0x22]);
  }

  // ---------- Values ----------

  function WrittenNumber(i: int): Numeral {
    Numeral(if i < 0 then Minus else NoSign, Decimal(if i < 0 then -i else i), None, None)
  }

  /** One number, no sign but a minus, no zero in front. */
  predicate Shortest(n: Numeral) {
    n.sign != Plus && n.fraction.None? && n.exponent.None? && (|n.digits| > 1 ==> n.digits[0] != 0x30)
  }

  lemma {:induction false} DecimalShortest(v: nat)
    ensures Decimal(v) != [] && DecimalDigits(Decimal(v)) && (v > 0 ==> Decimal(v)[0] != 0x30)
    ensures |Decimal(v)| > 1 ==> Decimal(v)[0] != 0x30
  {
    if v >= 10 {
      DecimalShortest(v / 10);
    }
  }

  lemma {:induction false} WrittenNumberIs(i: int)
    ensures var n := WrittenNumber(i); IsNumeral(n) && Shortest(n) && NumeralText(n) == IntText(i)
  {
    DecimalShortest(if i < 0 then -i else i);
    var d := Decimal(if i < 0 then -i else i);
    assert d + ([] + []) == d;
  }

  /** The value with no gaps, apart from a blank behind a colon in the other style. */
  function Compact(v: Value, w: Style): Syntax
    requires Plain(v)
  {
    match v
    case Null => Word(NullWord)
    case Bool(b) => Word(if b then TrueWord else FalseWord)
    case Int(i) => Number(WrittenNumber(i as int))
    case UInt(u) => Number(WrittenNumber(u as int))
    case Str(s) => Text(WrittenQuote(s))
    case Arr(items) => Array(CompactItems(items, w), false, [])
    case Obj(members) => Object(CompactEntries(members, w), false, [])
  }

  function CompactItems(items: seq<Value>, w: Style): seq<Element>
    requires ItemsPlain(items)
  {
    if items == [] then [] else [Element([], Compact(items[0], w), [])] + CompactItems(items[1..], w)
  }

  function Lead(w: Style): Gap { if w.yaml then [Blank(0x20)] else [] }

  function CompactEntries(ms: seq<Member>, w: Style): seq<Entry>
    requires MembersPlain(ms)
  {
    if ms == [] then []
    else
      var x := Entry([], Spelt(WrittenQuote(ms[0].key)), [], Lead(w), Compact(ms[0].value, w), []);
      [x] + CompactEntries(ms[1..], w)
  }

  lemma {:induction false} LeadText(w: Style)
    ensures IsGap(Lead(w)) && [0x3A] + GapText(Lead(w)) == Separator(w)
  {
    if w.yaml {
      assert GapText([]) == [] && Lead(w)[1..] == [];
    }
  }

  /** The writer writes exactly that text. */
  lemma {:induction false} WritesCompact(v: Value, w: Style)
    requires Plain(v) && !w.dropNull
    ensures IsSyntax(Compact(v, w)) && SyntaxText(Compact(v, w)) == Write(v, w)
    decreases v, 1
  {
    match v
    case Int(i) => WrittenNumberIs(i as int);
    case UInt(u) => WrittenNumberIs(u as int);
    case Str(s) => WrittenQuoteIs(s);
    case Arr(items) =>
      WritesItems(items, w);
      Enclosing(0x5B, WriteItems(items, w), 0x5D);
    case Obj(members) =>
      WritesEntries(members, w);
      Enclosing(0x7B, WriteMembers(members, w), 0x7D);
    case _ =>
  }

  lemma {:induction false} Enclosing(open: Byte, inner: Bytes, close: Byte)
    ensures [open] + (inner + (EndText(false, []) + [close])) == [open] + inner + [close]
  {
    assert EndText(false, []) + [close] == [close];
  }

  lemma {:induction false} WritesItems(items: seq<Value>, w: Style)
    requires ItemsPlain(items) && !w.dropNull
    ensures AreElements(CompactItems(items, w))
    ensures ElementsText(CompactItems(items, w)) == WriteItems(items, w)
    ensures MoreElementsText(CompactItems(items, w)) == WriteMoreItems(items, w)
    decreases items, 0
  {
    if items != [] {
      var x, more := Element([], Compact(items[0], w), []), CompactItems(items[1..], w);
      WritesCompact(items[0], w);
      WritesItems(items[1..], w);
      assert ([x] + more)[1..] == more;
      assert ElementText(x) == Write(items[0], w);
      Associate([0x2C], Write(items[0], w), WriteMoreItems(items[1..], w));
    }
  }

  lemma {:induction false} EntryIs(x: Entry, m: Member, w: Style)
    requires HasParts(x) && IsSyntax(x.value) && !w.dropNull
    requires x.before == [] && x.colon == [] && x.lead == Lead(w) && x.after == []
    requires NameText(x.name) == Quoted(m.key, false) && SyntaxText(x.value) == Write(m.value, w)
    ensures EntryText(x) == WriteMember(m, w)
  {
    var q, v := Quoted(m.key, false), Write(m.value, w);
    LeadText(w);
    assert GapText([]) == [];
    assert [] + (q + ([] + ([0x3A] + (GapText(Lead(w)) + (v + []))))) == q + ([0x3A] + GapText(Lead(w))) + v;
  }

  lemma {:induction false} WritesEntries(ms: seq<Member>, w: Style)
    requires MembersPlain(ms) && !w.dropNull
    ensures AreEntries(CompactEntries(ms, w))
    ensures EntriesText(CompactEntries(ms, w)) == WriteMembers(ms, w)
    ensures MoreEntriesText(CompactEntries(ms, w)) == WriteMoreMembers(ms, w)
    decreases ms, 0
  {
    if ms != [] {
      var x := Entry([], Spelt(WrittenQuote(ms[0].key)), [], Lead(w), Compact(ms[0].value, w), []);
      var more := CompactEntries(ms[1..], w);
      WritesCompact(ms[0].value, w);
      WrittenQuoteIs(ms[0].key);
      LeadText(w);
      EntryIs(x, ms[0], w);
      WritesEntries(ms[1..], w);
      assert ([x] + more)[1..] == more;
      Associate([0x2C], WriteMember(ms[0], w), WriteMoreMembers(ms[1..], w));
    }
  }
}
