/** Every text of the grammar is read as what it stands for. */
module JsonTexts {
  import opened JsonStrings
  import opened JsonValues
  import opened JsonReader
  import opened JsonSpellings
  import opened JsonLayout
  import opened JsonGrammar
  import opened JsonTokens
  import opened JsonRoundTrip
  import opened Sequences

  // ---------- Gaps in front of what is read ----------

  lemma {:induction false} GapBeforeValue(gap: Gap, s: Bytes, depth: nat, v0: Value, e: Env)
    requires Allowed(gap, e.f)
    ensures ReadValue(GapText(gap) + s, depth, v0, e) == ReadValue(s, depth, v0, e)
  {
    AllowedPasses(gap, s, e.f);
  }

  lemma {:induction false} LexSkipped(s: Bytes, f: Features)
    ensures Lex(SkipSpaces(s), f) == Lex(s, f)
  {
    if s != [] && IsSpace(s[0]) { LexSkipped(s[1..], f); }
  }

  lemma {:induction false} ValueSkipped(s: Bytes, depth: nat, v0: Value, e: Env)
    ensures ReadValue(SkipSpaces(s), depth, v0, e) == ReadValue(s, depth, v0, e)
  {
    LexSkipped(s, e.f);
    assert SkipCommentTokens(SkipSpaces(s), e.f) == SkipCommentTokens(s, e.f);
  }

  lemma {:induction false} GapBeforeObject(gap: Gap, s: Bytes, depth: nat, name: Bytes, ms: seq<Member>, e: Env)
    requires IsGap(gap)
    ensures ReadObject(GapText(gap) + s, depth, name, ms, e) == ReadObject(s, depth, name, ms, e)
  {
    GapPasses(gap, s, e.f);
  }

  lemma {:induction false} GapAfterElement(gap: Gap, s: Bytes, depth: nat, items: seq<Value>, e: Env)
    requires IsGap(gap)
    ensures AfterElement(GapText(gap) + s, depth, items, e) == AfterElement(s, depth, items, e)
  {
    GapPasses(gap, s, e.f);
  }

  // ---------- Scalars ----------

  lemma {:induction false} ReadAtom(a: Atom, rest: Bytes, depth: nat, v0: Value, e: Env)
    requires (a.NotANumberWord? || a.InfinityWord? ==> e.f.allowSpecialFloats) && depth <= e.f.stackLimit
    ensures ReadValue(AtomText(a) + rest, depth, v0, e) == Done(true, AtomMeans(a), rest, [])
  {
    var s := AtomText(a) + rest;
    AtomLexes(a, rest, e.f);
    ReadToken(s, Lexed(true, Token(AtomKind(a), AtomText(a)), rest), depth, v0, e);
  }

  /** A token that is neither a bracket nor a comment nor the end of a value. */
  lemma {:induction false} ReadToken(s: Bytes, t: Lexed, depth: nat, v0: Value, e: Env)
    requires Lex(s, e.f) == t && depth <= e.f.stackLimit
    requires t.token.kind != ObjectBegin && t.token.kind != ArrayBegin && t.token.kind != CommentToken
    requires !EndsValue(t.token.kind) && t.token.kind != EndOfStream
    ensures (t.token.kind == StringToken ==> |t.token.text| >= 2) && t.token.text != []
    ensures ReadValue(s, depth, v0, e) == ReadScalar(t, v0, e)
  {
    assert LexPastComments(s, e.f) == t;
    assert SkipCommentTokens(s, e.f) == t;
  }

  lemma {:induction false} ReadNumeral(n: Numeral, rest: Bytes, depth: nat, v0: Value, e: Env)
    requires NumeralTaken(n, e) && Ends(rest) && depth <= e.f.stackLimit
    ensures ReadValue(NumeralText(n) + rest, depth, v0, e) == Done(true, NumeralMeans(n), rest, [])
  {
    NumeralLexes(n, rest, e.f);
    NumeralDecodes(n);
    ReadToken(NumeralText(n) + rest, Lexed(true, Token(NumberToken, NumeralText(n)), rest), depth, v0, e);
  }

  lemma {:induction false} ReadQuote(q: Quote, rest: Bytes, depth: nat, v0: Value, e: Env)
    requires IsQuote(q) && (q.single ==> e.f.allowSingleQuotes) && depth <= e.f.stackLimit
    ensures ReadValue(QuoteText(q) + rest, depth, v0, e) == Done(true, Str(SpellingMeans(q.spelling)), rest, [])
  {
    QuoteLexes(q, rest, e.f);
    QuoteDecodes(q);
    ReadToken(QuoteText(q) + rest, Lexed(true, Token(StringToken, QuoteText(q)), rest), depth, v0, e);
  }

  // ---------- First and last bytes ----------

  lemma {:induction false} QuoteStarts(q: Quote)
    requires IsQuote(q)
    ensures QuoteText(q) != [] && (QuoteText(q)[0] == 0x22 || QuoteText(q)[0] == 0x27)
  {
  }

  lemma {:induction false} NumeralStarts(n: Numeral)
    requires IsNumeral(n)
    ensures var t := NumeralText(n); t != [] && (t[0] == 0x2B || t[0] == 0x2D || 0x30 <= t[0] <= 0x39)
  {
    var more := n.digits + (FractionText(n.fraction) + ExponentText(n.exponent));
    if n.sign == NoSign {
      assert [] + more == more && more[0] == n.digits[0];
    }
  }

  lemma {:induction false} SyntaxStarts(d: Syntax)
    requires IsSyntax(d)
    ensures var t := SyntaxText(d); t != [] && !IsBlank(t[0]) && t[0] != 0x5D && t[0] != 0xEF
  {
    match d
    case Word(atom) =>
    case Number(numeral) => NumeralStarts(numeral);
    case Text(quote) => QuoteStarts(quote);
    case _ =>
  }

  /** A gap in front of a bracket, a comma or a colon ends what stands before it. */
  lemma {:induction false} GapEnds(gap: Gap, s: Bytes)
    requires IsGap(gap) && Ends(s)
    ensures Ends(GapText(gap) + s)
  {
    if gap == [] {
      assert GapText(gap) + s == s;
    } else {
      assert (GapText(gap) + s)[0] == FillerText(gap[0])[0];
    }
  }

  // ---------- Arrays ----------

  lemma {:induction false} ArrayEnters(before: Gap, s: Bytes, depth: nat, items: seq<Value>, e: Env)
    requires Allowed(before, e.f) && s != [] && !IsBlank(s[0]) && s[0] != 0x5D
    ensures var t := SkipSpaces(GapText(before) + s);
            && ReadArray(GapText(before) + s, depth, items, e) == ReadElement(t, depth, items, e)
            && ReadValue(t, depth + 1, Null, e) == ReadValue(s, depth + 1, Null, e)
  {
    GapStarts(before, s);
    ValueSkipped(GapText(before) + s, depth + 1, Null, e);
    GapBeforeValue(before, s, depth + 1, Null, e);
  }

  lemma {:induction false} ElementThrows(before: Gap, s: Bytes, depth: nat, items: seq<Value>, e: Env)
    requires Allowed(before, e.f) && s != [] && !IsBlank(s[0]) && s[0] != 0x5D
    requires ReadValue(s, depth + 1, Null, e).Thrown?
    ensures ReadArray(GapText(before) + s, depth, items, e) == ReadValue(s, depth + 1, Null, e)
  {
    ArrayEnters(before, s, depth, items, e);
  }

  lemma {:induction false} ElementReads(
      before: Gap, s: Bytes, depth: nat, items: seq<Value>, e: Env, x: Value, after: Gap, z: Bytes)
    requires Allowed(before, e.f) && s != [] && !IsBlank(s[0]) && s[0] != 0x5D && IsGap(after)
    requires ReadValue(s, depth + 1, Null, e) == Done(true, x, GapText(after) + z, [])
    ensures ReadArray(GapText(before) + s, depth, items, e) == AfterElement(z, depth, items + [x], e)
  {
    ArrayEnters(before, s, depth, items, e);
    GapAfterElement(after, z, depth, items + [x], e);
  }

  lemma {:induction false} CommaAfterElement(z: Bytes, next: Bytes, depth: nat, items: seq<Value>, e: Env)
    requires z == [0x2C] + next
    ensures AfterElement(z, depth, items, e) == ReadArray(next, depth, items, e)
  {
    LexPunctuation(0x2C, ArraySeparator, next, e.f);
  }

  /** The end of an array: its bracket, with or without a last comma in front. */
  lemma {:induction false} ArrayCloses(comma: bool, inside: Gap, rest: Bytes, depth: nat, items: seq<Value>, e: Env)
    requires IsGap(inside) && AllBlank(inside) && items != [] && (comma || inside == [])
    requires comma ==> e.f.allowTrailingCommas && !e.f.allowDroppedNullPlaceholders
    ensures AfterElement(EndText(comma, inside) + ([0x5D] + rest), depth, items, e) == Done(true, Arr(items), rest, [])
  {
    var close: Bytes := [0x5D] + rest;
    if comma {
      Associate([0x2C], GapText(inside), close);
      CommaAfterElement([0x2C] + (GapText(inside) + close), GapText(inside) + close, depth, items, e);
      GapPasses(inside, close, e.f);
      OthersStay(close);
      assert close[1..] == rest;
    } else {
      assert EndText(comma, inside) + close == close;
      LexPunctuation(0x5D, ArrayEnd, rest, e.f);
    }
  }

  lemma {:induction false} EmptyArray(inside: Gap, rest: Bytes, depth: nat, e: Env)
    requires IsGap(inside) && AllBlank(inside)
    ensures ReadArray(EndText(false, inside) + ([0x5D] + rest), depth, [], e) == Done(true, Arr([]), rest, [])
  {
    var close: Bytes := [0x5D] + rest;
    assert [] + GapText(inside) == GapText(inside);
    GapPasses(inside, close, e.f);
    OthersStay(close);
    assert close[1..] == rest;
  }

  lemma {:induction false} ElementParts(b: Bytes, v: Bytes, a: Bytes, more: Bytes, tail: Bytes)
    ensures b + (v + a) + more + tail == b + (v + (a + (more + tail)))
  {
  }

  lemma {:induction false} MoreItems(items: seq<Element>, tail: Bytes)
    requires AreElements(items)
    ensures items == [] ==> MoreElementsText(items) + tail == tail
    ensures items != [] ==> MoreElementsText(items) + tail == [0x2C] + (ElementsText(items) + tail)
  {
    if items == [] {
      assert [] + tail == tail;
    } else {
      Associate([0x2C], ElementsText(items), tail);
    }
  }

  /** The text of the first element, taken apart. */
  lemma {:induction false} FirstElement(items: seq<Element>, tail: Bytes)
    requires items != [] && AreElements(items)
    ensures ElementsText(items) + tail
         == GapText(items[0].before) + ElementPart(items[0], MoreElementsText(items[1..]) + tail)
  {
    var x := items[0];
    ElementParts(GapText(x.before), SyntaxText(x.value), GapText(x.after), MoreElementsText(items[1..]), tail);
  }

  lemma {:induction false} ValueStarts(d: Syntax, t: Bytes, s: Bytes)
    requires IsSyntax(d) && s == SyntaxText(d) + t
    ensures s != [] && !IsBlank(s[0]) && s[0] != 0x5D
  {
    SyntaxStarts(d);
    assert s[0] == SyntaxText(d)[0];
  }

  /** What follows the value of an element. */
  predicate FollowsElement(items: seq<Element>, tail: Bytes, z: Bytes)
    requires items != [] && AreElements(items)
  {
    && z != [] && (z[0] == 0x2C || z[0] == 0x5D)
    && (if items[1..] == [] then z == tail else z == [0x2C] + (ElementsText(items[1..]) + tail))
  }

  lemma {:induction false} ElementFollows(items: seq<Element>, comma: bool, inside: Gap, rest: Bytes)
    requires items != [] && AreElements(items) && (comma || inside == [])
    ensures var tail := EndText(comma, inside) + ([0x5D] + rest);
            FollowsElement(items, tail, MoreElementsText(items[1..]) + tail)
  {
    var tail := EndText(comma, inside) + ([0x5D] + rest);
    MoreItems(items[1..], tail);
    if !comma {
      assert tail == [0x5D] + rest;
    }
  }

  function ElementPart(x: Element, z: Bytes): Bytes
    requires HasGaps(x) && IsSyntax(x.value)
  {
    SyntaxText(x.value) + (GapText(x.after) + z)
  }

  lemma {:induction false} ElementValueReads(x: Element, z: Bytes, depth: nat, e: Env)
    requires HasGaps(x) && IsSyntax(x.value) && Taken(x.value, e) && z != [] && (z[0] == 0x2C || z[0] == 0x5D)
    ensures ReadValue(ElementPart(x, z), depth, Null, e)
         == Expected(Meaning(x.value, e), GapText(x.after) + z, depth, Levels(x.value) - 1, e.f)
    ensures var s := ElementPart(x, z); s != [] && !IsBlank(s[0]) && s[0] != 0x5D
    decreases x
  {
    GapEnds(x.after, z);
    ValueStarts(x.value, GapText(x.after) + z, ElementPart(x, z));
    ReadSyntax(x.value, GapText(x.after) + z, depth, Null, e);
  }

  lemma {:induction false} ReadItems(
      items: seq<Element>, done: seq<Value>, comma: bool, inside: Gap, rest: Bytes, depth: nat, e: Env)
    requires items != [] && AreElements(items) && ItemsTaken(items, e) && depth <= e.f.stackLimit
    requires IsGap(inside) && AllBlank(inside) && (comma || inside == [])
    requires comma ==> e.f.allowTrailingCommas && !e.f.allowDroppedNullPlaceholders
    ensures ReadArray(ElementsText(items) + (EndText(comma, inside) + ([0x5D] + rest)), depth, done, e)
         == Expected(Arr(done + Meanings(items, e)), rest, depth, ItemsLevels(items), e.f)
    decreases items, 1
  {
    var tail := EndText(comma, inside) + ([0x5D] + rest);
    var z := MoreElementsText(items[1..]) + tail;
    FirstElement(items, tail);
    ElementFollows(items, comma, inside, rest);
    ReadItem(items, done, comma, inside, rest, depth, e, z);
  }

  lemma {:induction false} ReadItem(
      items: seq<Element>, done: seq<Value>, comma: bool, inside: Gap, rest: Bytes, depth: nat, e: Env, z: Bytes)
    requires items != [] && AreElements(items) && ItemsTaken(items, e) && depth <= e.f.stackLimit
    requires IsGap(inside) && AllBlank(inside) && (comma || inside == [])
    requires comma ==> e.f.allowTrailingCommas && !e.f.allowDroppedNullPlaceholders
    requires FollowsElement(items, EndText(comma, inside) + ([0x5D] + rest), z)
    ensures ReadArray(GapText(items[0].before) + ElementPart(items[0], z), depth, done, e)
         == Expected(Arr(done + Meanings(items, e)), rest, depth, ItemsLevels(items), e.f)
    decreases items, 0, 1
  {
    var x, v := items[0], Meaning(items[0].value, e);
    ElementValueReads(x, z, depth + 1, e);
    ElementStep(x.before, ElementPart(x, z), depth, done, e, v, x.after, z, Levels(x.value));
    if depth + Levels(x.value) <= e.f.stackLimit {
      ReadAfterItem(items, done, comma, inside, rest, depth, e, z, v);
    } else {
      ItemsTooDeep(items, done, rest, depth, e);
    }
  }

  lemma {:induction false} ItemsTooDeep(items: seq<Element>, done: seq<Value>, rest: Bytes, depth: nat, e: Env)
    requires items != [] && AreElements(items) && depth + Levels(items[0].value) > e.f.stackLimit
    ensures Expected(Arr(done + Meanings(items, e)), rest, depth, ItemsLevels(items), e.f) == Thrown(StackLimitExceeded)
  {
  }

  lemma {:induction false} ElementStep(
      before: Gap, s: Bytes, depth: nat, items: seq<Value>, e: Env, v: Value, after: Gap, z: Bytes, h: nat)
    requires Allowed(before, e.f) && s != [] && !IsBlank(s[0]) && s[0] != 0x5D && IsGap(after)
    requires h > 0 && ReadValue(s, depth + 1, Null, e) == Expected(v, GapText(after) + z, depth + 1, h - 1, e.f)
    ensures ReadArray(GapText(before) + s, depth, items, e)
         == if depth + h > e.f.stackLimit then Thrown(StackLimitExceeded) else AfterElement(z, depth, items + [v], e)
  {
    if depth + h > e.f.stackLimit {
      ElementThrows(before, s, depth, items, e);
    } else {
      ElementReads(before, s, depth, items, e, v, after, z);
    }
  }

  lemma {:induction false} ReadAfterItem(
      items: seq<Element>, done: seq<Value>, comma: bool, inside: Gap, rest: Bytes, depth: nat, e: Env, z: Bytes,
          v: Value)
    requires items != [] && AreElements(items) && ItemsTaken(items, e)
    requires depth + Levels(items[0].value) <= e.f.stackLimit && v == Meaning(items[0].value, e)
    requires IsGap(inside) && AllBlank(inside) && (comma || inside == [])
    requires comma ==> e.f.allowTrailingCommas && !e.f.allowDroppedNullPlaceholders
    requires FollowsElement(items, EndText(comma, inside) + ([0x5D] + rest), z)
    ensures AfterElement(z, depth, done + [v], e)
         == Expected(Arr(done + Meanings(items, e)), rest, depth, ItemsLevels(items), e.f)
    decreases items, 0, 0
  {
    if items[1..] == [] {
      ArrayCloses(comma, inside, rest, depth, done + [v], e);
      assert Meanings(items, e) == [v];
    } else {
      var tail := EndText(comma, inside) + ([0x5D] + rest);
      CommaAfterElement(z, ElementsText(items[1..]) + tail, depth, done + [v], e);
      ReadItems(items[1..], done + [v], comma, inside, rest, depth, e);
      Associate(done, [v], Meanings(items[1..], e));
      ExpectedMax(Arr(done + Meanings(items, e)), rest, depth, Levels(items[0].value), ItemsLevels(items[1..]), e.f);
    }
  }

  // ---------- Objects ----------

  predicate KeyFits(key: Bytes, ms: seq<Member>, f: Features) {
    |key| < KEY_LIMIT && (f.rejectDupKeys ==> !HasMember(ms, key))
  }

  /** A name token, by the key it stands for. */
  lemma {:induction false} NameTokenReads(t: Lexed, key: Bytes, depth: nat, ms: seq<Member>, e: Env)
    requires (t.token.kind == StringToken && |t.token.text| >= 2) || (t.token.kind == NumberToken && t.token.text != [])
    requires ReadName(t.token, e) == GoodName(key) && KeyFits(key, ms, e.f)
    ensures ReadNamed(t, depth, ms, e) == ReadMember(t.rest, depth, key, ms, e)
  {
  }

  /** A name at the front of what is left of an object. */
  lemma {:induction false} NameReads(s: Bytes, t: Lexed, key: Bytes, depth: nat, name: Bytes, ms: seq<Member>, e: Env)
    requires Lex(s, e.f) == t && KeyFits(key, ms, e.f)
    requires (t.token.kind == StringToken && |t.token.text| >= 2) || (t.token.kind == NumberToken && t.token.text != [])
    requires ReadName(t.token, e) == GoodName(key)
    ensures ReadObject(s, depth, name, ms, e) == ReadMember(t.rest, depth, key, ms, e)
  {
    assert LexPastComments(s, e.f) == t;
    NameTokenReads(t, key, depth, ms, e);
  }

  lemma {:induction false} SpeltName(q: Quote, e: Env)
    requires IsQuote(q)
    ensures |QuoteText(q)| >= 2
    ensures ReadName(Token(StringToken, QuoteText(q)), e) == GoodName(SpellingMeans(q.spelling))
  {
    QuoteDecodes(q);
  }

  lemma {:induction false} ReadQuotedName(q: Quote, t: Bytes, depth: nat, name: Bytes, ms: seq<Member>, e: Env)
    requires IsQuote(q) && (q.single ==> e.f.allowSingleQuotes)
    requires KeyFits(SpellingMeans(q.spelling), ms, e.f)
    ensures ReadObject(QuoteText(q) + t, depth, name, ms, e) == ReadMember(t, depth, SpellingMeans(q.spelling), ms, e)
  {
    var token := Lexed(true, Token(StringToken, QuoteText(q)), t);
    QuoteLexes(q, t, e.f);
    SpeltName(q, e);
    NameReads(QuoteText(q) + t, token, SpellingMeans(q.spelling), depth, name, ms, e);
  }

  lemma {:induction false} CountedName(n: Numeral, e: Env)
    requires NumeralTaken(n, e) && e.f.allowNumericKeys
    ensures NumeralText(n) != []
              && ReadName(Token(NumberToken, NumeralText(n)), e) == GoodName(NameMeans(Counted(n), e))
  {
    NumeralDecodes(n);
  }

  lemma {:induction false} ReadCountedName(n: Numeral, t: Bytes, depth: nat, name: Bytes, ms: seq<Member>, e: Env)
    requires NumeralTaken(n, e) && e.f.allowNumericKeys && Ends(t)
    requires KeyFits(NameMeans(Counted(n), e), ms, e.f)
    ensures ReadObject(NumeralText(n) + t, depth, name, ms, e) == ReadMember(t, depth, NameMeans(Counted(n), e), ms, e)
  {
    var token := Lexed(true, Token(NumberToken, NumeralText(n)), t);
    NumeralLexes(n, t, e.f);
    CountedName(n, e);
    NameReads(NumeralText(n) + t, token, NameMeans(Counted(n), e), depth, name, ms, e);
  }

  lemma {:induction false} ReadNameText(n: Label, t: Bytes, depth: nat, name: Bytes, ms: seq<Member>, e: Env)
    requires IsName(n) && NameTaken(n, e) && Ends(t) && KeyFits(NameMeans(n, e), ms, e.f)
    ensures ReadObject(NameText(n) + t, depth, name, ms, e) == ReadMember(t, depth, NameMeans(n, e), ms, e)
  {
    match n
    case Spelt(quote) => ReadQuotedName(quote, t, depth, name, ms, e);
    case Counted(numeral) => ReadCountedName(numeral, t, depth, name, ms, e);
  }

  lemma {:induction false} ReadColon(colon: Gap, lead: Gap, s: Bytes, depth: nat, key: Bytes, ms: seq<Member>, e: Env)
    requires IsGap(colon) && AllBlank(colon) && Allowed(lead, e.f)
    ensures ColonThen(GapText(colon) + ([0x3A] + (GapText(lead) + s)), s, depth + 1, GetMember(ms, key), e)
  {
    var w := GapText(lead) + s;
    GapPasses(colon, [0x3A] + w, e.f);
    LexPunctuation(0x3A, MemberSeparator, w, e.f);
    GapBeforeValue(lead, s, depth + 1, GetMember(ms, key), e);
  }

  lemma {:induction false} ColonReads(
      s: Bytes, t: Bytes, depth: nat, key: Bytes, ms: seq<Member>, e: Env, x: Value, z: Bytes)
    requires ColonThen(s, t, depth + 1, GetMember(ms, key), e)
    requires ReadValue(t, depth + 1, GetMember(ms, key), e) == Done(true, x, z, [])
    ensures ReadMember(s, depth, key, ms, e) == AfterMember(z, depth, key, SetMember(ms, key, x), e)
  {
  }

  lemma {:induction false} CommaAfterMember(z: Bytes, next: Bytes, depth: nat, key: Bytes, ms: seq<Member>, e: Env)
    requires z == [0x2C] + next
    ensures AfterMember(z, depth, key, ms, e) == ReadObject(next, depth, key, ms, e)
  {
    LexPunctuation(0x2C, ArraySeparator, next, e.f);
  }

  lemma {:induction false} BraceAfterMember(z: Bytes, rest: Bytes, depth: nat, key: Bytes, ms: seq<Member>, e: Env)
    requires z == [0x7D] + rest
    ensures AfterMember(z, depth, key, ms, e) == Done(true, Obj(ms), rest, [])
  {
    LexPunctuation(0x7D, ObjectEnd, rest, e.f);
  }

  /** Behind a comment the comma or the brace is found as it is without one. */
  lemma {:induction false} CommentAfterMember(g: Filler, s: Bytes, depth: nat, key: Bytes, ms: seq<Member>, e: Env)
    requires IsFiller(g) && !g.Blank?
    ensures var u := LexPastComments(s, e.f);
            AfterMember(FillerText(g) + s, depth, key, ms, e)
            == if u.token.kind
                == ObjectEnd then Done(true, Obj(ms), u.rest, []) else ReadObject(u.rest, depth, key, ms, e)
  {
    CommentLexes(g, s, e.f);
    if s != [] && s[0] == 0x0A {
      HeadTail(s);
      BlankLexes(0x0A, s[1..], e.f);
    }
  }

  lemma {:induction false} GapAfterMember(gap: Gap, z: Bytes, depth: nat, key: Bytes, ms: seq<Member>, e: Env)
    requires IsGap(gap) && z != [] && (z[0] == 0x2C || z[0] == 0x7D)
    ensures AfterMember(GapText(gap) + z, depth, key, ms, e) == AfterMember(z, depth, key, ms, e)
  {
    if gap == [] {
      assert GapText(gap) + z == z;
    } else {
      var more := GapText(gap[1..]) + z;
      Associate(FillerText(gap[0]), GapText(gap[1..]), z);
      if gap[0].Blank? {
        BlankLexes(gap[0].byte, more, e.f);
        GapAfterMember(gap[1..], z, depth, key, ms, e);
      } else {
        CommentAfterMember(gap[0], more, depth, key, ms, e);
        GapPasses(gap[1..], z, e.f);
        ResumedMember(z, depth, key, ms, e);
      }
    }
  }

  lemma {:induction false} ResumedMember(z: Bytes, depth: nat, key: Bytes, ms: seq<Member>, e: Env)
    requires z != [] && (z[0] == 0x2C || z[0] == 0x7D)
    ensures var u := LexPastComments(z, e.f);
            AfterMember(z, depth, key, ms, e)
            == if u.token.kind
                == ObjectEnd then Done(true, Obj(ms), u.rest, []) else ReadObject(u.rest, depth, key, ms, e)
  {
    HeadTail(z);
    if z[0] == 0x2C {
      LexPunctuation(0x2C, ArraySeparator, z[1..], e.f);
    } else {
      LexPunctuation(0x7D, ObjectEnd, z[1..], e.f);
    }
  }

  lemma {:induction false} BraceCloses(s: Bytes, rest: Bytes, depth: nat, name: Bytes, ms: seq<Member>, e: Env)
    requires s == [0x7D] + rest && (name == [] || e.f.allowTrailingCommas)
    ensures ReadObject(s, depth, name, ms, e) == Done(true, Obj(ms), rest, [])
  {
    LexPunctuation(0x7D, ObjectEnd, rest, e.f);
  }

  /** The end of an object: its brace, with or without a last comma in front. */
  lemma {:induction false} ObjectCloses(
      comma: bool, inside: Gap, rest: Bytes, depth: nat, key: Bytes, ms: seq<Member>, e: Env)
    requires IsGap(inside) && (comma || inside == []) && (comma ==> e.f.allowTrailingCommas || key == [])
    ensures AfterMember(EndText(comma, inside) + ([0x7D] + rest), depth, key, ms, e) == Done(true, Obj(ms), rest, [])
  {
    var close: Bytes := [0x7D] + rest;
    if comma {
      Associate([0x2C], GapText(inside), close);
      CommaAfterMember([0x2C] + (GapText(inside) + close), GapText(inside) + close, depth, key, ms, e);
      GapBeforeObject(inside, close, depth, key, ms, e);
      BraceCloses(close, rest, depth, key, ms, e);
    } else {
      assert EndText(comma, inside) + close == close;
      BraceAfterMember(close, rest, depth, key, ms, e);
    }
  }

  lemma {:induction false} EmptyObject(inside: Gap, rest: Bytes, depth: nat, e: Env)
    requires IsGap(inside)
    ensures ReadObject(EndText(false, inside) + ([0x7D] + rest), depth, [], [], e) == Done(true, Obj([]), rest, [])
  {
    assert [] + GapText(inside) == GapText(inside);
    GapBeforeObject(inside, [0x7D] + rest, depth, [], [], e);
    BraceCloses([0x7D] + rest, rest, depth, [], [], e);
  }

  // ---------- Members ----------

  lemma {:induction false} MoreEntries(entries: seq<Entry>, tail: Bytes)
    requires AreEntries(entries)
    ensures entries == [] ==> MoreEntriesText(entries) + tail == tail
    ensures entries != [] ==> MoreEntriesText(entries) + tail == [0x2C] + (EntriesText(entries) + tail)
  {
    if entries == [] {
      assert [] + tail == tail;
    } else {
      Associate([0x2C], EntriesText(entries), tail);
    }
  }

  /** What stands from the value of an entry on, and from behind its name on. */
  function ValuePart(x: Entry, z: Bytes): Bytes
    requires HasParts(x) && IsSyntax(x.value)
  {
    SyntaxText(x.value) + (GapText(x.after) + z)
  }

  function ColonPart(x: Entry, z: Bytes): Bytes
    requires HasParts(x) && IsSyntax(x.value)
  {
    GapText(x.colon) + ([0x3A] + (GapText(x.lead) + ValuePart(x, z)))
  }

  lemma {:induction false} EntryParts(
      b: Bytes, n: Bytes, c: Bytes, l: Bytes, v: Bytes, a: Bytes, more: Bytes, tail: Bytes)
    ensures b + (n + (c + ([0x3A] + (l + (v + a))))) + more + tail
         == b + (n + (c + ([0x3A] + (l + (v + (a + (more + tail)))))))
  {
    var z := more + tail;
    Associate(b + (n + (c + ([0x3A] + (l + (v + a))))), more, tail);
    Associate(b, n + (c + ([0x3A] + (l + (v + a)))), z);
    Associate(n, c + ([0x3A] + (l + (v + a))), z);
    Associate(c, [0x3A] + (l + (v + a)), z);
    Associate([0x3A], l + (v + a), z);
    Associate(l, v + a, z);
    Associate(v, a, z);
  }

  lemma {:induction false} FirstEntry(entries: seq<Entry>, tail: Bytes)
    requires entries != [] && AreEntries(entries)
    ensures EntriesText(entries) + tail
         == GapText(entries[0].before)
            + (NameText(entries[0].name) + ColonPart(entries[0], MoreEntriesText(entries[1..]) + tail))
  {
    var x := entries[0];
    EntryParts(GapText(x.before), NameText(x.name), GapText(x.colon), GapText(x.lead), SyntaxText(x.value),
               GapText(x.after), MoreEntriesText(entries[1..]), tail);
  }

  lemma {:induction false} ReadEntries(
      entries: seq<Entry>, done: seq<Member>, name: Bytes, comma: bool, inside: Gap, rest: Bytes, depth: nat, e: Env)
    requires entries != [] && AreEntries(entries) && EntriesTaken(done, entries, comma, e) && depth <= e.f.stackLimit
    requires IsGap(inside) && (comma || inside == [])
    ensures ReadObject(EntriesText(entries) + (EndText(comma, inside) + ([0x7D] + rest)), depth, name, done, e)
         == Expected(Obj(Stored(done, entries, e)), rest, depth, EntriesLevels(entries), e.f)
    decreases entries, 2
  {
    var tail := EndText(comma, inside) + ([0x7D] + rest);
    var x, key := entries[0], NameMeans(entries[0].name, e);
    var z := MoreEntriesText(entries[1..]) + tail;
    FirstEntry(entries, tail);
    GapBeforeObject(x.before, NameText(x.name) + ColonPart(x, z), depth, name, done, e);
    GapEnds(x.colon, [0x3A] + (GapText(x.lead) + ValuePart(x, z)));
    ReadNameText(x.name, ColonPart(x, z), depth, name, done, e);
    ReadColon(x.colon, x.lead, ValuePart(x, z), depth, key, done, e);
    EntryFollows(entries, comma, inside, rest);
    ReadEntry(entries, done, comma, inside, rest, depth, e, z);
  }

  /** What follows the value of an entry. */
  predicate FollowsEntry(entries: seq<Entry>, tail: Bytes, z: Bytes)
    requires entries != [] && AreEntries(entries)
  {
    && z != [] && (z[0] == 0x2C || z[0] == 0x7D)
    && (if entries[1..] == [] then z == tail else z == [0x2C] + (EntriesText(entries[1..]) + tail))
  }

  lemma {:induction false} EntryFollows(entries: seq<Entry>, comma: bool, inside: Gap, rest: Bytes)
    requires entries != [] && AreEntries(entries) && (comma || inside == [])
    ensures var tail := EndText(comma, inside) + ([0x7D] + rest);
            FollowsEntry(entries, tail, MoreEntriesText(entries[1..]) + tail)
  {
    MoreEntries(entries[1..], EndText(comma, inside) + ([0x7D] + rest));
    EndStarts(comma, inside, rest);
  }

  lemma {:induction false} EntryValueReads(x: Entry, z: Bytes, depth: nat, v0: Value, e: Env)
    requires HasParts(x) && IsSyntax(x.value) && Taken(x.value, e) && z != [] && (z[0] == 0x2C || z[0] == 0x7D)
    ensures ReadValue(ValuePart(x, z), depth, v0, e)
         == Expected(Meaning(x.value, e), GapText(x.after) + z, depth, Levels(x.value) - 1, e.f)
    decreases x
  {
    GapEnds(x.after, z);
    ReadSyntax(x.value, GapText(x.after) + z, depth, v0, e);
  }

  lemma {:induction false} ReadEntry(
      entries: seq<Entry>, done: seq<Member>, comma: bool, inside: Gap, rest: Bytes, depth: nat, e: Env, z: Bytes)
    requires entries != [] && AreEntries(entries) && EntriesTaken(done, entries, comma, e) && depth <= e.f.stackLimit
    requires IsGap(inside) && (comma || inside == [])
    requires FollowsEntry(entries, EndText(comma, inside) + ([0x7D] + rest), z)
    requires ColonThen(ColonPart(entries[0], z), ValuePart(entries[0], z), depth + 1,
                       GetMember(done, NameMeans(entries[0].name, e)), e)
    ensures ReadMember(ColonPart(entries[0], z), depth, NameMeans(entries[0].name, e), done, e)
         == Expected(Obj(Stored(done, entries, e)), rest, depth, EntriesLevels(entries), e.f)
    decreases entries, 1
  {
    var x, key, v := entries[0], NameMeans(entries[0].name, e), Meaning(entries[0].value, e);
    EntryValueReads(x, z, depth + 1, GetMember(done, key), e);
    EntryStep(ColonPart(x, z), ValuePart(x, z), depth, key, done, e, v, x.after, z, Levels(x.value));
    if depth + Levels(x.value) <= e.f.stackLimit {
      ReadAfterEntry(entries, done, comma, inside, rest, depth, e, z, key, v);
    } else {
      EntriesTooDeep(entries, done, rest, depth, e);
    }
  }

  lemma {:induction false} EntriesTooDeep(entries: seq<Entry>, done: seq<Member>, rest: Bytes, depth: nat, e: Env)
    requires entries != [] && AreEntries(entries) && depth + Levels(entries[0].value) > e.f.stackLimit
    ensures Expected(Obj(Stored(done, entries, e)), rest, depth, EntriesLevels(entries), e.f)
              == Thrown(StackLimitExceeded)
  {
  }

  lemma {:induction false} EntryStep(
      s: Bytes, t: Bytes, depth: nat, key: Bytes, ms: seq<Member>, e: Env, v: Value, after: Gap, z: Bytes, h: nat)
    requires ColonThen(s, t, depth + 1, GetMember(ms, key), e) && IsGap(after) && z != []
               && (z[0] == 0x2C || z[0] == 0x7D)
    requires h > 0
               && ReadValue(t, depth + 1, GetMember(ms, key), e)
                   == Expected(v, GapText(after) + z, depth + 1, h - 1, e.f)
    ensures ReadMember(s, depth, key, ms, e)
         == if depth + h > e.f.stackLimit then Thrown(StackLimitExceeded)
            else AfterMember(z, depth, key, SetMember(ms, key, v), e)
  {
    if depth + h > e.f.stackLimit {
      MemberThrows(s, t, depth, key, ms, e);
    } else {
      EntryGoesOn(s, t, depth, key, ms, e, v, after, z);
    }
  }

  lemma {:induction false} EntryGoesOn(
      s: Bytes, t: Bytes, depth: nat, key: Bytes, ms: seq<Member>, e: Env, v: Value, after: Gap, z: Bytes)
    requires ColonThen(s, t, depth + 1, GetMember(ms, key), e) && IsGap(after) && z != []
               && (z[0] == 0x2C || z[0] == 0x7D)
    requires ReadValue(t, depth + 1, GetMember(ms, key), e) == Done(true, v, GapText(after) + z, [])
    ensures ReadMember(s, depth, key, ms, e) == AfterMember(z, depth, key, SetMember(ms, key, v), e)
  {
    ColonReads(s, t, depth, key, ms, e, v, GapText(after) + z);
    GapAfterMember(after, z, depth, key, SetMember(ms, key, v), e);
  }

  lemma {:induction false} ReadAfterEntry(
      entries: seq<Entry>, done: seq<Member>, comma: bool, inside: Gap, rest: Bytes, depth: nat, e: Env,
      z: Bytes, key: Bytes, v: Value)
    requires entries != [] && AreEntries(entries) && EntriesTaken(done, entries, comma, e)
    requires depth + Levels(entries[0].value) <= e.f.stackLimit && IsGap(inside) && (comma || inside == [])
    requires key == NameMeans(entries[0].name, e) && v == Meaning(entries[0].value, e)
    requires FollowsEntry(entries, EndText(comma, inside) + ([0x7D] + rest), z)
    ensures AfterMember(z, depth, key, SetMember(done, key, v), e)
         == Expected(Obj(Stored(done, entries, e)), rest, depth, EntriesLevels(entries), e.f)
    decreases entries, 0, 0
  {
    var ms := SetMember(done, key, v);
    if entries[1..] == [] {
      ObjectCloses(comma, inside, rest, depth, key, ms, e);
    } else {
      var tail := EndText(comma, inside) + ([0x7D] + rest);
      CommaAfterMember(z, EntriesText(entries[1..]) + tail, depth, key, ms, e);
      ReadEntries(entries[1..], ms, key, comma, inside, rest, depth, e);
      ExpectedMax(Obj(Stored(done, entries, e)), rest, depth, Levels(entries[0].value), EntriesLevels(entries[1..]),
          e.f);
    }
  }

  lemma {:induction false} EndStarts(comma: bool, inside: Gap, rest: Bytes)
    requires comma || inside == []
    ensures var z := EndText(comma, inside) + ([0x7D] + rest); z[0] == 0x2C || z[0] == 0x7D
  {
    if !comma {
      assert EndText(comma, inside) + ([0x7D] + rest) == [0x7D] + rest;
    }
  }

  // ---------- Values ----------

  /** Every text of the grammar that the reader takes is read as what it stands for, at any depth. */
  lemma {:induction false} ReadSyntax(d: Syntax, rest: Bytes, depth: nat, v0: Value, e: Env)
    requires IsSyntax(d) && Taken(d, e) && Ends(rest)
    ensures ReadValue(SyntaxText(d) + rest, depth, v0, e)
         == Expected(Meaning(d, e), rest, depth, Levels(d) - 1, e.f)
    decreases d, 1
  {
    if depth <= e.f.stackLimit {
      match d
      case Word(atom) => ReadAtom(atom, rest, depth, v0, e);
      case Number(numeral) => ReadNumeral(numeral, rest, depth, v0, e);
      case Text(quote) => ReadQuote(quote, rest, depth, v0, e);
      case Array(_, _, _) => ReadArraySyntax(d, rest, depth, v0, e);
      case Object(_, _, _) => ReadObjectSyntax(d, rest, depth, v0, e);
    }
  }

  lemma {:induction false} Framed(open: Byte, body: Bytes, end: Bytes, close: Byte, rest: Bytes)
    ensures [open] + (body + (end + [close])) + rest == [open] + (body + (end + ([close] + rest)))
  {
    Associate([open], body + (end + [close]), rest);
    Associate(body, end + [close], rest);
    Associate(end, [close], rest);
  }

  lemma {:induction false} ReadArraySyntax(d: Syntax, rest: Bytes, depth: nat, v0: Value, e: Env)
    requires d.Array? && IsSyntax(d) && Taken(d, e) && depth <= e.f.stackLimit
    ensures ReadValue(SyntaxText(d) + rest, depth, v0, e) == Expected(Meaning(d, e), rest, depth, Levels(d) - 1, e.f)
    decreases d, 0
  {
    var inner := ElementsText(d.items) + (EndText(d.comma, d.inside) + ([0x5D] + rest));
    Framed(0x5B, ElementsText(d.items), EndText(d.comma, d.inside), 0x5D, rest);
    ReadOfBracket([0x5B] + inner, inner, depth, v0, e);
    if d.items == [] {
      assert inner == EndText(d.comma, d.inside) + ([0x5D] + rest);
      EmptyArray(d.inside, rest, depth, e);
    } else {
      ReadItems(d.items, [], d.comma, d.inside, rest, depth, e);
      assert [] + Meanings(d.items, e) == Meanings(d.items, e);
    }
  }

  lemma {:induction false} ReadObjectSyntax(d: Syntax, rest: Bytes, depth: nat, v0: Value, e: Env)
    requires d.Object? && IsSyntax(d) && Taken(d, e) && depth <= e.f.stackLimit
    ensures ReadValue(SyntaxText(d) + rest, depth, v0, e) == Expected(Meaning(d, e), rest, depth, Levels(d) - 1, e.f)
    decreases d, 0
  {
    var inner := EntriesText(d.entries) + (EndText(d.comma, d.inside) + ([0x7D] + rest));
    Framed(0x7B, EntriesText(d.entries), EndText(d.comma, d.inside), 0x7D, rest);
    ReadOfBrace([0x7B] + inner, inner, depth, v0, e);
    if d.entries == [] {
      assert inner == EndText(d.comma, d.inside) + ([0x7D] + rest);
      EmptyObject(d.inside, rest, depth, e);
    } else {
      ReadEntries(d.entries, [], [], d.comma, d.inside, rest, depth, e);
    }
  }
}
