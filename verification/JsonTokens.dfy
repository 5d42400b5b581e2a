/** The tokens of the grammar, as the reader finds them. */
module JsonTokens {
  import opened JsonStrings
  import opened JsonNumbers
  import opened JsonReader
  import opened JsonSpellings
  import opened JsonLayout
  import opened JsonGrammar
  import opened JsonRoundTrip
  import opened Sequences

  /** What may follow a value or a name. */
  predicate Ends(t: Bytes) {
    t == [] || IsBlank(t[0]) || t[0] == 0x2F || t[0] == 0x2C || t[0] == 0x5D || t[0] == 0x7D || t[0] == 0x3A
  }

  // ---------- Numbers ----------

  lemma {:induction false} DigitsSkip(ds: Bytes, t: Bytes)
    requires DecimalDigits(ds) && (t == [] || !(0x30 <= t[0] <= 0x39))
    ensures SkipDigits(ds + t) == t
  {
    if ds == [] {
      assert ds + t == t;
    } else {
      assert (ds + t)[0] == ds[0] && (ds + t)[1..] == ds[1..] + t;
      DigitsSkip(ds[1..], t);
    }
  }

  lemma {:induction false} FractionSkips(fraction: Option<Bytes>, t: Bytes)
    requires fraction.Some? ==> DecimalDigits(fraction.value)
    requires t == [] || (!(0x30 <= t[0] <= 0x39) && t[0] != 0x2E)
    ensures SkipFraction(FractionText(fraction) + t) == t
  {
    if fraction.None? {
      assert [] + t == t;
    } else {
      var s := FractionText(fraction) + t;
      assert s[0] == 0x2E && s[1..] == fraction.value + t;
      DigitsSkip(fraction.value, t);
    }
  }

  lemma {:induction false} BareExponentSkips(c: Byte, ds: Bytes, t: Bytes)
    requires (c == 0x45 || c == 0x65) && DecimalDigits(ds) && Ends(t)
    ensures SkipExponent([c] + ds + t) == t
  {
    var s := [c] + ds + t;
    assert s[0] == c && s[1..] == ds + t;
    assert |s| > 1 ==> s[1] == if ds == [] then t[0] else ds[0];
    DigitsSkip(ds, t);
  }

  lemma {:induction false} SignedExponentSkips(c: Byte, sign: Byte, ds: Bytes, t: Bytes)
    requires (c == 0x45 || c == 0x65) && (sign == 0x2B || sign == 0x2D) && DecimalDigits(ds) && Ends(t)
    ensures SkipExponent([c] + [sign] + ds + t) == t
  {
    var s := [c] + [sign] + ds + t;
    assert s[0] == c && s[1] == sign && s[2..] == ds + t;
    DigitsSkip(ds, t);
  }

  lemma {:induction false} ExponentSkips(exponent: Option<Exponent>, t: Bytes)
    requires exponent.Some? ==> DecimalDigits(exponent.value.digits)
    requires Ends(t)
    ensures SkipExponent(ExponentText(exponent) + t) == t
  {
    if exponent.None? {
      assert [] + t == t;
    } else {
      var x := exponent.value;
      var c: Byte := if x.upper then 0x45 else 0x65;
      if x.sign == NoSign {
        assert [] + x.digits == x.digits;
        BareExponentSkips(c, x.digits, t);
      } else {
        var sign := SignText(x.sign)[0];
        Associate([c], [sign], x.digits);
        SignedExponentSkips(c, sign, x.digits, t);
      }
    }
  }

  /** Everything behind the first digits, and then what follows the number. */
  lemma {:induction false} NumeralSkips(n: Numeral, ds: Bytes, t: Bytes)
    requires IsNumeral(n) && DecimalDigits(ds) && Ends(t)
    ensures SkipNumber(ds + (FractionText(n.fraction) + ExponentText(n.exponent)) + t) == t
  {
    var fr, ex := FractionText(n.fraction), ExponentText(n.exponent);
    Associate(ds, fr + ex, t);
    Associate(fr, ex, t);
    ExponentStarts(n.exponent, t);
    FractionStarts(n.fraction, ex + t);
    DigitsSkip(ds, fr + (ex + t));
    FractionSkips(n.fraction, ex + t);
    ExponentSkips(n.exponent, t);
  }

  lemma {:induction false} ExponentStarts(exponent: Option<Exponent>, t: Bytes)
    requires Ends(t)
    ensures var s := ExponentText(exponent) + t; s == [] || (!(0x30 <= s[0] <= 0x39) && s[0] != 0x2E)
  {
    if exponent.None? {
      assert [] + t == t;
    }
  }

  lemma {:induction false} FractionStarts(fraction: Option<Bytes>, t: Bytes)
    requires t == [] || !(0x30 <= t[0] <= 0x39)
    ensures var s := FractionText(fraction) + t; s == [] || !(0x30 <= s[0] <= 0x39)
  {
    if fraction.None? {
      assert [] + t == t;
    }
  }

  /** What stands behind a sign is not the first letter of infinity. */
  lemma {:induction false} NotInfinity(n: Numeral, t: Bytes)
    requires IsNumeral(n) && Ends(t)
    ensures var s := n.digits + (FractionText(n.fraction) + ExponentText(n.exponent)) + t; s == [] || s[0] != 0x49
  {
    var fr, ex := FractionText(n.fraction), ExponentText(n.exponent);
    var s := n.digits + (fr + ex) + t;
    if n.digits != [] {
      assert s[0] == n.digits[0];
    } else if fr != [] {
      assert s[0] == fr[0];
    } else if ex != [] {
      assert s[0] == ex[0];
    } else {
      assert s == t;
    }
  }

  lemma {:induction false} UnsignedLexes(n: Numeral, t: Bytes, f: Features)
    requires IsNumeral(n) && Ends(t) && n.sign == NoSign
    ensures Lex(NumeralText(n) + t, f) == Lexed(true, Token(NumberToken, NumeralText(n)), t)
  {
    var ds, more := n.digits[1..], FractionText(n.fraction) + ExponentText(n.exponent);
    NumeralSkips(n, ds, t);
    HeadTail(n.digits);
    assert NumeralText(n) == [n.digits[0]] + (ds + more);
    LexText(n.digits[0], ds + more, t, NumberToken, f);
  }

  lemma {:induction false} SignedLexes(n: Numeral, t: Bytes, f: Features)
    requires IsNumeral(n) && Ends(t) && n.sign != NoSign
    ensures Lex(NumeralText(n) + t, f) == Lexed(true, Token(NumberToken, NumeralText(n)), t)
  {
    var c, more := SignText(n.sign)[0], FractionText(n.fraction) + ExponentText(n.exponent);
    NumeralSkips(n, n.digits, t);
    NotInfinity(n, t);
    assert NumeralText(n) == [c] + (n.digits + more);
    LexText(c, n.digits + more, t, NumberToken, f);
  }

  /** A number is one token, up to what follows it. */
  lemma {:induction false} NumeralLexes(n: Numeral, t: Bytes, f: Features)
    requires IsNumeral(n) && Ends(t)
    ensures Lex(NumeralText(n) + t, f) == Lexed(true, Token(NumberToken, NumeralText(n)), t)
  {
    if n.sign == NoSign {
      UnsignedLexes(n, t, f);
    } else {
      SignedLexes(n, t, f);
    }
  }

  lemma {:induction false} PlusDecodes(text: Bytes)
    requires text != [] && text[0] == 0x2B
    ensures NumberMeaning(text) == NotInteger
  {
  }

  /** Anything that starts behind the digits keeps the text from being an integer. */
  lemma {:induction false} MixedDecodes(minus: bool, ds: Bytes, more: Bytes)
    requires (minus || ds != []) && DecimalDigits(ds) && more != [] && !(0x30 <= more[0] <= 0x39)
    ensures NumberMeaning((if minus then [0x2D] else []) + (ds + more)) == NotInteger
  {
    var text := (if minus then [0x2D] else []) + (ds + more);
    var body := if minus then text[1..] else text;
    assert body == ds + more && body[|ds|] == more[0];
    assert text[0] == if minus then 0x2D else ds[0];
  }

  lemma {:induction false} PlainDecodes(minus: bool, ds: Bytes)
    requires (minus || ds != []) && DecimalDigits(ds)
    ensures var v: int := DigitsValue(ds);
            NumberMeaning((if minus then [0x2D] else []) + ds) ==
            if minus then (if v <= 0x8000_0000_0000_0000 then IntNumber((-v) as Int64) else NotInteger)
            else if v <= 0x7FFF_FFFF_FFFF_FFFF then IntNumber(v as Int64)
            else if v <= 0xFFFF_FFFF_FFFF_FFFF then UIntNumber(v as UInt64)
            else NotInteger
  {
    var text := (if minus then [0x2D] else []) + ds;
    assert (if minus then text[1..] else text) == ds;
    assert text[0] == if minus then 0x2D else ds[0];
  }

  /** The decoder sees the same number in the text. */
  lemma {:induction false} NumeralDecodes(n: Numeral)
    requires IsNumeral(n)
    ensures NumeralText(n) != []
    ensures NumberMeaning(NumeralText(n))
         == match NumeralMeans(n) case Int(i) => IntNumber(i) case UInt(u) => UIntNumber(u) case _ => NotInteger
  {
    var more := FractionText(n.fraction) + ExponentText(n.exponent);
    if n.sign == Plus {
      PlusDecodes(NumeralText(n));
    } else if n.fraction.Some? || n.exponent.Some? {
      MixedDecodes(n.sign == Minus, n.digits, more);
    } else {
      assert n.digits + more == n.digits;
      PlainDecodes(n.sign == Minus, n.digits);
    }
  }

  // ---------- Words ----------

  lemma {:induction false} MatchWord(word: Bytes, t: Bytes)
    ensures Match(word + t, word) == Scan(true, t)
  {
    DropAppend(word, t);
  }

  lemma {:induction false} WordLexes(c: Byte, word: Bytes, kind: TokenType, t: Bytes, f: Features)
    requires !IsSpace(c) && Start(c, word + t, f) == Started(kind, Match(word + t, word)) && kind != ErrorToken
    ensures Lex([c] + word + t, f) == Lexed(true, Token(kind, [c] + word), t)
  {
    MatchWord(word, t);
    LexText(c, word, t, kind, f);
  }

  function AtomKind(a: Atom): TokenType {
    match a
    case NullWord => NullToken
    case TrueWord => TrueToken
    case FalseWord => FalseToken
    case NotANumberWord => NaNToken
    case InfinityWord(sign) => if sign == Minus then NegInfToken else PosInfToken
  }

  lemma {:induction false} PlainInfinity(t: Bytes, f: Features)
    requires f.allowSpecialFloats
    ensures Lex([0x49] + NFINITY + t, f) == Lexed(true, Token(PosInfToken, [0x49] + NFINITY), t)
  {
    WordLexes(0x49, NFINITY, PosInfToken, t, f);
  }

  lemma {:induction false} AfterSign(kind: TokenType, s: Bytes, t: Bytes, f: Features)
    requires f.allowSpecialFloats && (kind == PosInfToken || kind == NegInfToken) && s == [0x49] + NFINITY + t
    ensures Signed(kind, s, f) == Started(kind, Scan(true, t))
  {
    assert s[0] == 0x49 && s[1..] == NFINITY + t;
    MatchWord(NFINITY, t);
  }

  lemma {:induction false} SignedInfinity(c: Byte, kind: TokenType, t: Bytes, f: Features)
    requires f.allowSpecialFloats && ((c == 0x2B && kind == PosInfToken) || (c == 0x2D && kind == NegInfToken))
    ensures Lex([c] + ([0x49] + NFINITY) + t, f) == Lexed(true, Token(kind, [c] + ([0x49] + NFINITY)), t)
  {
    AfterSign(kind, [0x49] + NFINITY + t, t, f);
    LexText(c, [0x49] + NFINITY, t, kind, f);
  }

  lemma {:induction false} InfinityText(sign: Sign)
    ensures AtomText(InfinityWord(sign))
         == if sign == NoSign then [0x49] + NFINITY else [SignText(sign)[0]] + ([0x49] + NFINITY)
  {
    assert [0x49] + NFINITY == [0x49, 0x6E, 0x66, 0x69, 0x6E, 0x69, 0x74, 0x79];
  }

  lemma {:induction false} InfinityLexes(sign: Sign, t: Bytes, f: Features)
    requires f.allowSpecialFloats
    ensures Lex(AtomText(InfinityWord(sign)) + t, f)
         == Lexed(true, Token(AtomKind(InfinityWord(sign)), AtomText(InfinityWord(sign))), t)
  {
    InfinityText(sign);
    if sign == NoSign {
      PlainInfinity(t, f);
    } else {
      SignedInfinity(SignText(sign)[0], AtomKind(InfinityWord(sign)), t, f);
    }
  }

  lemma {:induction false} NaNLexes(t: Bytes, f: Features)
    requires f.allowSpecialFloats
    ensures Lex([0x4E, 0x61, 0x4E] + t, f) == Lexed(true, Token(NaNToken, [0x4E, 0x61, 0x4E]), t)
  {
    WordLexes(0x4E, [0x61, 0x4E], NaNToken, t, f);
    assert [0x4E] + [0x61, 0x4E] == [0x4E, 0x61, 0x4E];
  }

  lemma {:induction false} LetterLexes(a: Atom, t: Bytes, f: Features)
    requires a.NullWord? || a.TrueWord? || a.FalseWord?
    ensures Lex(AtomText(a) + t, f) == Lexed(true, Token(AtomKind(a), AtomText(a)), t)
  {
    if a.NullWord? {
      assert AtomText(a) == [LOWER_N] + ULL;
      LexWord(LOWER_N, ULL, NullToken, t, f);
    } else if a.TrueWord? {
      assert AtomText(a) == [LOWER_T] + RUE;
      LexWord(LOWER_T, RUE, TrueToken, t, f);
    } else {
      assert AtomText(a) == [LOWER_F] + ALSE;
      LexWord(LOWER_F, ALSE, FalseToken, t, f);
    }
  }

  lemma {:induction false} AtomLexes(a: Atom, t: Bytes, f: Features)
    requires a.NotANumberWord? || a.InfinityWord? ==> f.allowSpecialFloats
    ensures Lex(AtomText(a) + t, f) == Lexed(true, Token(AtomKind(a), AtomText(a)), t)
  {
    match a
    case NotANumberWord => NaNLexes(t, f);
    case InfinityWord(sign) => InfinityLexes(sign, t, f);
    case _ => LetterLexes(a, t, f);
  }

  // ---------- Strings ----------

  lemma {:induction false} MarkStarts(q: Quote, s: Bytes, t: Bytes, f: Features)
    requires (q.single ==> f.allowSingleQuotes) && ScanString(s, Mark(q)) == Scan(true, t)
    ensures !IsSpace(Mark(q)) && Start(Mark(q), s, f) == Started(StringToken, Scan(true, t))
  {
  }

  lemma {:induction false} Between(m: Byte, body: Bytes)
    ensures var text := [m] + (body + [m]); |text| >= 2 && text[1..|text| - 1] == body
  {
  }

  lemma {:induction false} QuoteLexes(q: Quote, t: Bytes, f: Features)
    requires IsQuote(q) && (q.single ==> f.allowSingleQuotes)
    ensures Lex(QuoteText(q) + t, f) == Lexed(true, Token(StringToken, QuoteText(q)), t)
  {
    var m, body := Mark(q), SpellingText(q.spelling);
    SpellingScans(q.spelling, m, t);
    Associate(body, [m], t);
    MarkStarts(q, body + [m] + t, t, f);
    LexText(m, body + [m], t, StringToken, f);
  }

  lemma {:induction false} QuoteDecodes(q: Quote)
    requires IsQuote(q)
    ensures var text := QuoteText(q);
            |text| >= 2 && DecodeText(text[1..|text| - 1]) == GoodText(SpellingMeans(q.spelling))
  {
    SpellingDecodes(q.spelling);
    Between(Mark(q), SpellingText(q.spelling));
  }
}
