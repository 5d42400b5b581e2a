/** The tokens that the reader finds are tokens of the grammar. */
module JsonInverse {
  import opened JsonStrings
  import opened JsonNumbers
  import opened JsonReader
  import opened JsonSpellings
  import opened JsonLayout
  import opened JsonGrammar
  import opened JsonTokens
  import opened Sequences

  /** White space, and what the reader looks at behind it. */
  lemma {:induction false} SpacesSplit(s: Bytes, f: Features) returns (ws: Gap)
    ensures IsGap(ws) && AllBlank(ws) && s == GapText(ws) + SkipSpaces(s) && Lex(SkipSpaces(s), f) == Lex(s, f)
  {
    if s != [] && IsSpace(s[0]) {
      var more := SpacesSplit(s[1..], f);
      ws := [Blank(s[0])] + more;
      assert ws[1..] == more;
      HeadTail(s);
      Associate([s[0]], GapText(more), SkipSpaces(s));
    } else {
      ws := [];
      assert [] + s == s;
    }
  }

  /** A token behind white space, by its first byte. */
  predicate Starts(s: Bytes) { s != [] && !IsSpace(s[0]) }

  lemma {:induction false} LexStarts(s: Bytes, f: Features)
    requires Starts(s)
    ensures var st, t := Start(s[0], s[1..], f), Lex(s, f);
            && t.rest == st.scan.rest && t.token.kind == (if st.scan.ok then st.kind else ErrorToken)
            && t.token.text == s[..|s| - |t.rest|]
  {
    assert Lex(s, f) == LexCharacter(s, f);
  }

  // ---------- Punctuation and words ----------

  function MarkOf(kind: TokenType): Byte {
    match kind
    case ObjectBegin => 0x7B
    case ObjectEnd => 0x7D
    case ArrayBegin => 0x5B
    case ArrayEnd => 0x5D
    case ArraySeparator => 0x2C
    case _ => 0x3A
  }

  predicate IsMark(kind: TokenType) {
    || kind == ObjectBegin || kind == ObjectEnd || kind == ArrayBegin || kind == ArrayEnd
    || kind == ArraySeparator || kind == MemberSeparator
  }

  lemma {:induction false} StartOfMark(c: Byte, r: Bytes, f: Features)
    requires Start(c, r, f).scan.ok && IsMark(Start(c, r, f).kind)
    ensures c == MarkOf(Start(c, r, f).kind) && Start(c, r, f).scan.rest == r
  {
  }

  lemma {:induction false} MarkInverse(s: Bytes, f: Features)
    requires Starts(s) && IsMark(Lex(s, f).token.kind)
    ensures s == [MarkOf(Lex(s, f).token.kind)] + Lex(s, f).rest
  {
    LexStarts(s, f);
    StartOfMark(s[0], s[1..], f);
    HeadTail(s);
  }

  lemma {:induction false} MatchInverse(r: Bytes, word: Bytes)
    requires Match(r, word).ok
    ensures r == word + Match(r, word).rest
  {
    TakeDrop(r, |word|);
  }

  lemma {:induction false} StartOfLetters(c: Byte, r: Bytes, f: Features)
    requires Start(c, r, f).scan.ok
    ensures Start(c, r, f).kind == NullToken ==> c == 0x6E && Start(c, r, f).scan == Match(r, ULL)
    ensures Start(c, r, f).kind == TrueToken ==> c == 0x74 && Start(c, r, f).scan == Match(r, RUE)
    ensures Start(c, r, f).kind == FalseToken ==> c == 0x66 && Start(c, r, f).scan == Match(r, ALSE)
    ensures Start(c, r, f).kind == NaNToken ==>
              c == 0x4E && Start(c, r, f).scan == Match(r, AN) && f.allowSpecialFloats
  {
  }

  lemma {:induction false} LettersInverse(s: Bytes, f: Features) returns (a: Atom)
    requires Starts(s)
    requires var kind := Lex(s, f).token.kind;
             kind == NullToken || kind == TrueToken || kind == FalseToken || kind == NaNToken
    ensures s == AtomText(a) + Lex(s, f).rest && AtomKind(a) == Lex(s, f).token.kind && !a.InfinityWord?
    ensures a.NotANumberWord? ==> f.allowSpecialFloats
  {
    var c, r, kind := s[0], s[1..], Lex(s, f).token.kind;
    LexStarts(s, f);
    StartOfLetters(c, r, f);
    HeadTail(s);
    if kind == NullToken {
      a := NullWord;
      MatchInverse(r, ULL);
      Associate([c], ULL, Lex(s, f).rest);
      assert [c] + ULL == AtomText(a);
    } else if kind == TrueToken {
      a := TrueWord;
      MatchInverse(r, RUE);
      Associate([c], RUE, Lex(s, f).rest);
      assert [c] + RUE == AtomText(a);
    } else if kind == FalseToken {
      a := FalseWord;
      MatchInverse(r, ALSE);
      Associate([c], ALSE, Lex(s, f).rest);
      assert [c] + ALSE == AtomText(a);
    } else {
      a := NotANumberWord;
      MatchInverse(r, AN);
      Associate([c], AN, Lex(s, f).rest);
      assert [c] + AN == AtomText(a);
    }
  }

  lemma {:induction false} StartOfInfinity(c: Byte, r: Bytes, f: Features)
    requires var st := Start(c, r, f); st.scan.ok && (st.kind == PosInfToken || st.kind == NegInfToken)
    ensures f.allowSpecialFloats
    ensures var st := Start(c, r, f);
            || (c == 0x49 && st == Started(PosInfToken, Match(r, NFINITY)))
            || (r != [] && r[0] == 0x49 && st.scan == Match(r[1..], NFINITY) &&
                ((c == 0x2B && st.kind == PosInfToken) || (c == 0x2D && st.kind == NegInfToken)))
  {
  }

  lemma {:induction false} InfinityInverse(s: Bytes, f: Features) returns (sign: Sign)
    requires Starts(s) && (Lex(s, f).token.kind == PosInfToken || Lex(s, f).token.kind == NegInfToken)
    ensures f.allowSpecialFloats && s == AtomText(InfinityWord(sign)) + Lex(s, f).rest
    ensures AtomKind(InfinityWord(sign)) == Lex(s, f).token.kind
  {
    var c, r, rest := s[0], s[1..], Lex(s, f).rest;
    LexStarts(s, f);
    StartOfInfinity(c, r, f);
    HeadTail(s);
    if c == 0x49 {
      sign := NoSign;
      MatchInverse(r, NFINITY);
      Associate([c], NFINITY, rest);
    } else {
      sign := if c == 0x2B then Plus else Minus;
      MatchInverse(r[1..], NFINITY);
      HeadTail(r);
      Associate([r[0]], NFINITY, rest);
      Associate([c], [r[0]] + NFINITY, rest);
    }
    InfinityText(sign);
  }

  // ---------- Numbers ----------

  lemma {:induction false} DigitsInverse(s: Bytes) returns (ds: Bytes)
    ensures DecimalDigits(ds) && s == ds + SkipDigits(s)
  {
    if s != [] && IsDigit(s[0]) {
      var more := DigitsInverse(s[1..]);
      ds := [s[0]] + more;
      HeadTail(s);
      Associate([s[0]], more, SkipDigits(s));
    } else {
      ds := [];
      assert [] + s == s;
    }
  }

  lemma {:induction false} FractionInverse(s: Bytes) returns (fraction: Option<Bytes>)
    ensures (fraction.Some? ==> DecimalDigits(fraction.value)) && s == FractionText(fraction) + SkipFraction(s)
  {
    if s != [] && s[0] == 0x2E {
      var ds := DigitsInverse(s[1..]);
      fraction := Some(ds);
      HeadTail(s);
      Associate([0x2E], ds, SkipFraction(s));
    } else {
      fraction := None;
      assert [] + s == s;
    }
  }

  lemma {:induction false} ExponentInverse(s: Bytes) returns (exponent: Option<Exponent>)
    ensures (exponent.Some? ==> DecimalDigits(exponent.value.digits)) && s == ExponentText(exponent) + SkipExponent(s)
  {
    if s != [] && (s[0] == 0x65 || s[0] == 0x45) {
      HeadTail(s);
      if |s| > 1 && (s[1] == 0x2B || s[1] == 0x2D) {
        var ds := DigitsInverse(s[2..]);
        var x := Exponent(s[0] == 0x45, if s[1] == 0x2B then Plus else Minus, ds);
        exponent := Some(x);
        assert s == [s[0]] + ([s[1]] + s[2..]);
        Associate([s[1]], ds, SkipExponent(s));
        Associate([s[0]], [s[1]] + ds, SkipExponent(s));
      } else {
        var ds := DigitsInverse(s[1..]);
        exponent := Some(Exponent(s[0] == 0x45, NoSign, ds));
        assert [] + ds == ds;
        Associate([s[0]], ds, SkipExponent(s));
      }
    } else {
      exponent := None;
      assert [] + s == s;
    }
  }

  lemma {:induction false} SkipInverse(s: Bytes)
    returns (ds: Bytes, fraction: Option<Bytes>, exponent: Option<Exponent>)
    ensures DecimalDigits(ds) && (fraction.Some? ==> DecimalDigits(fraction.value))
    ensures exponent.Some? ==> DecimalDigits(exponent.value.digits)
    ensures s == ds + (FractionText(fraction) + ExponentText(exponent)) + SkipNumber(s)
  {
    ds := DigitsInverse(s);
    fraction := FractionInverse(SkipDigits(s));
    exponent := ExponentInverse(SkipFraction(SkipDigits(s)));
    Associate(FractionText(fraction), ExponentText(exponent), SkipNumber(s));
    Associate(ds, FractionText(fraction) + ExponentText(exponent), SkipNumber(s));
  }

  lemma {:induction false} StartOfNumber(c: Byte, r: Bytes, f: Features)
    requires Start(c, r, f).scan.ok && Start(c, r, f).kind == NumberToken
    ensures (0x30 <= c <= 0x39 || c == 0x2B || c == 0x2D) && Start(c, r, f).scan.rest == SkipNumber(r)
  {
  }

  lemma {:induction false} NumberInverse(s: Bytes, f: Features) returns (n: Numeral)
    requires Starts(s) && Lex(s, f).token.kind == NumberToken
    ensures IsNumeral(n) && s == NumeralText(n) + Lex(s, f).rest
  {
    var c, r, rest := s[0], s[1..], Lex(s, f).rest;
    LexStarts(s, f);
    StartOfNumber(c, r, f);
    HeadTail(s);
    var ds, fraction, exponent := SkipInverse(r);
    var more := FractionText(fraction) + ExponentText(exponent);
    if c == 0x2B || c == 0x2D {
      n := Numeral(if c == 0x2B then Plus else Minus, ds, fraction, exponent);
      Associate([c], ds + more, rest);
    } else {
      n := Numeral(NoSign, [c] + ds, fraction, exponent);
      Associate([c], ds, more);
      Associate([c], ds + more, rest);
      assert [] + ([c] + ds + more) == [c] + (ds + more);
    }
  }

  // ---------- Strings ----------

  /** What lies between the quotes. */
  function Inner(r: Bytes, quote: Byte): Bytes
    requires ScanString(r, quote).ok
  {
    r[..|r| - |ScanString(r, quote).rest| - 1]
  }

  lemma {:induction false} InnerGoesOn(r: Bytes, quote: Byte)
    requires ScanString(r, quote).ok && r[0] != quote
    ensures Inner(r, quote) != [] && Inner(r, quote)[0] == r[0]
  {
    if r[0] == BACKSLASH {
      assert ScanString(r, quote) == ScanString(r[2..], quote);
    } else {
      assert ScanString(r, quote) == ScanString(r[1..], quote);
    }
  }

  lemma {:induction false} InnerSteps(p: Piece, r: Bytes, quote: Byte)
    requires IsPiece(p) && (quote == 0x22 || quote == 0x27) && p != Raw(quote)
    requires ScanString(r, quote).ok && PieceText(p) <= Inner(r, quote)
    ensures var n := |PieceText(p)|;
            && r == PieceText(p) + r[n..] && ScanString(r[n..], quote) == ScanString(r, quote)
            && Inner(r[n..], quote) == Inner(r, quote)[n..]
  {
    var n := |PieceText(p)|;
    assert r[..n] == Inner(r, quote)[..n];
    TakeDrop(r, n);
    ScanPiece(p, quote, r[n..]);
  }

  /** A string that ends and is decoded is a spelling; between apostrophes, if no quotation mark is there. */
  lemma {:induction false} SpellingInverse(r: Bytes, quote: Byte) returns (ps: Spelling)
    requires (quote == 0x22 || quote == 0x27) && ScanString(r, quote).ok
    requires DecodeText(Inner(r, quote)).GoodText? && (quote == 0x27 ==> 0x22 !in Inner(r, quote))
    ensures IsSpelling(ps) && Fits(ps, quote) && r == SpellingText(ps) + ([quote] + ScanString(r, quote).rest)
    decreases |r|
  {
    if r[0] == quote {
      ps := [];
      assert ScanString(r, quote) == Scan(true, r[1..]);
      HeadTail(r);
      assert [] + r == r;
    } else {
      var inner := Inner(r, quote);
      InnerGoesOn(r, quote);
      DecodeGoesOn(inner);
      var p := NextSpells(inner);
      var n := |PieceText(p)|;
      assert PieceText(p)[0] == r[0];
      InnerSteps(p, r, quote);
      var more := SpellingInverse(r[n..], quote);
      SpellingCons(p, more, r, [quote] + ScanString(r, quote).rest);
      ps := [p] + more;
    }
  }

  lemma {:induction false} StartOfString(c: Byte, r: Bytes, f: Features)
    requires Start(c, r, f).scan.ok && Start(c, r, f).kind == StringToken
    ensures c == 0x22 || (c == 0x27 && f.allowSingleQuotes)
    ensures Start(c, r, f).scan == ScanString(r, c)
  {
  }

  lemma {:induction false} TextInside(s: Bytes, rest: Bytes)
    requires |rest| + 2 <= |s|
    ensures var text := s[..|s| - |rest|]; text[1..|text| - 1] == s[1..][..|s[1..]| - |rest| - 1]
  {
  }

  /** The text of a string token. */
  function InnerText(t: Token): Bytes
    requires |t.text| >= 2
  {
    t.text[1..|t.text| - 1]
  }

  lemma {:induction false} QuoteInverse(s: Bytes, f: Features) returns (q: Quote)
    requires Starts(s) && Lex(s, f).token.kind == StringToken
    requires var t := Lex(s, f).token;
             DecodeText(InnerText(t)).GoodText? && (t.text[0] == 0x27 ==> 0x22 !in t.text)
    ensures IsQuote(q) && (q.single ==> f.allowSingleQuotes) && s == QuoteText(q) + Lex(s, f).rest
  {
    var c, r, rest := s[0], s[1..], Lex(s, f).rest;
    LexStarts(s, f);
    StartOfString(c, r, f);
    TextInside(s, rest);
    assert Inner(r, c) == InnerText(Lex(s, f).token);
    var ps := SpellingInverse(r, c);
    q := Quote(ps, c == 0x27);
    HeadTail(s);
    Associate(SpellingText(ps), [c], rest);
    Associate([c], SpellingText(ps) + [c], rest);
  }
}
