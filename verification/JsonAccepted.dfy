/**
  Only texts of the grammar are accepted. Three things that the reader lets through lie outside it:
  what it takes for a comment, a zero byte, and a quotation mark between apostrophes.
 */
module JsonAccepted {
  import opened JsonStrings
  import opened JsonValues
  import opened JsonReader
  import opened JsonSpellings
  import opened JsonLayout
  import opened JsonGrammar
  import opened JsonTokens
  import opened JsonTexts
  import opened JsonDocuments
  import opened JsonInverse
  import opened Sequences

  /** None of the three among the tokens of `s`. */
  predicate Clean(s: Bytes, f: Features)
    decreases |s|
  {
    var t := Lex(s, f);
    if t.token.kind == EndOfStream then t.token.text == []
    else
      && t.token.kind != CommentToken && Clean(t.rest, f)
      && (t.token.kind == StringToken && t.token.text[0] == 0x27 ==> 0x22 !in t.token.text)
  }

  lemma {:induction false} CleanLexes(s: Bytes, f: Features)
    requires Clean(s, f)
    ensures LexPastComments(s, f) == Lex(s, f) && SkipCommentTokens(s, f) == Lex(s, f)
  {
  }

  /** The text of a token, behind its white space. */
  lemma {:induction false} TokenSplits(s: Bytes, f: Features) returns (ws: Gap, s1: Bytes)
    requires Clean(s, f) && Lex(s, f).token.kind != EndOfStream
    ensures IsGap(ws) && AllBlank(ws) && s == GapText(ws) + s1 && Starts(s1) && Lex(s1, f) == Lex(s, f)
    ensures Clean(s1, f) && Clean(Lex(s, f).rest, f)
  {
    ws := SpacesSplit(s, f);
    s1 := SkipSpaces(s);
  }

  /** A bracket, a comma or a colon behind white space. */
  lemma {:induction false} MarkSplits(s: Bytes, f: Features) returns (ws: Gap)
    requires Clean(s, f) && IsMark(Lex(s, f).token.kind)
    ensures IsGap(ws) && AllBlank(ws) && Clean(Lex(s, f).rest, f)
    ensures s == GapText(ws) + ([MarkOf(Lex(s, f).token.kind)] + Lex(s, f).rest)
  {
    var s1;
    ws, s1 := TokenSplits(s, f);
    MarkInverse(s1, f);
  }

  // ---------- Scalars ----------

  /** A value of the grammar at the front of `s`, with `rest` behind it. */
  predicate Fronts(s: Bytes, d: Syntax, value: Value, rest: Bytes, e: Env) {
    && IsSyntax(d) && Taken(d, e) && Meaning(d, e) == value && s == SyntaxText(d) + rest && Clean(rest, e.f)
  }

  lemma {:induction false} TokenText(s: Bytes, text: Bytes, f: Features)
    requires Starts(s) && s == text + Lex(s, f).rest
    ensures Lex(s, f).token.text == text
  {
    LexStarts(s, f);
    DropAppend(text, Lex(s, f).rest);
  }

  lemma {:induction false} NumberFronts(s: Bytes, v0: Value, e: Env) returns (n: Numeral)
    requires Starts(s) && Lex(s, e.f).token.kind == NumberToken && ReadScalar(Lex(s, e.f), v0, e).ok
    ensures NumeralTaken(n, e) && NumeralMeans(n) == ReadScalar(Lex(s, e.f), v0, e).value
    ensures s == NumeralText(n) + Lex(s, e.f).rest
  {
    n := NumberInverse(s, e.f);
    TokenText(s, NumeralText(n), e.f);
    NumeralDecodes(n);
  }

  lemma {:induction false} StringReads(t: Lexed, v0: Value, e: Env)
    requires t.token.kind == StringToken && |t.token.text| >= 2 && ReadScalar(t, v0, e).ok
    ensures ReadScalar(t, v0, e).value.Str?
    ensures DecodeText(InnerText(t.token)) == GoodText(ReadScalar(t, v0, e).value.s)
  {
  }

  lemma {:induction false} StringFronts(s: Bytes, v0: Value, e: Env) returns (q: Quote)
    requires Starts(s) && Clean(s, e.f)
    requires Lex(s, e.f).token.kind == StringToken && ReadScalar(Lex(s, e.f), v0, e).ok
    ensures IsQuote(q) && (q.single ==> e.f.allowSingleQuotes) && s == QuoteText(q) + Lex(s, e.f).rest
    ensures Str(SpellingMeans(q.spelling)) == ReadScalar(Lex(s, e.f), v0, e).value
  {
    StringReads(Lex(s, e.f), v0, e);
    q := QuoteInverse(s, e.f);
    TokenText(s, QuoteText(q), e.f);
    QuoteDecodes(q);
  }

  predicate IsWord(kind: TokenType) {
    || kind == NullToken || kind == TrueToken || kind == FalseToken || kind == NaNToken
    || kind == PosInfToken || kind == NegInfToken
  }

  lemma {:induction false} AtomReads(a: Atom, t: Lexed, v0: Value, e: Env)
    requires t.token.kind == AtomKind(a) && t.token.text == AtomText(a)
    ensures ReadScalar(t, v0, e) == Done(true, AtomMeans(a), t.rest, [])
  {
  }

  lemma {:induction false} WordFronts(s: Bytes, v0: Value, e: Env) returns (a: Atom)
    requires Starts(s) && IsWord(Lex(s, e.f).token.kind)
    ensures a.NotANumberWord? || a.InfinityWord? ==> e.f.allowSpecialFloats
    ensures AtomMeans(a) == ReadScalar(Lex(s, e.f), v0, e).value && s == AtomText(a) + Lex(s, e.f).rest
  {
    if Lex(s, e.f).token.kind == PosInfToken || Lex(s, e.f).token.kind == NegInfToken {
      var sign := InfinityInverse(s, e.f);
      a := InfinityWord(sign);
    } else {
      a := LettersInverse(s, e.f);
    }
    TokenText(s, AtomText(a), e.f);
    AtomReads(a, Lex(s, e.f), v0, e);
  }

  lemma {:induction false} ScalarKinds(t: Lexed, v0: Value, e: Env)
    requires t.token.kind == StringToken ==> |t.token.text| >= 2
    requires t.token.kind == NumberToken ==> t.token.text != []
    requires ReadScalar(t, v0, e).ok
    ensures t.token.kind == NumberToken || t.token.kind == StringToken || IsWord(t.token.kind)
  {
  }

  lemma {:induction false} ScalarInverse(s: Bytes, v0: Value, e: Env) returns (d: Syntax)
    requires Starts(s) && Clean(s, e.f) && Lex(s, e.f).token.kind != EndOfStream && ReadScalar(Lex(s, e.f), v0, e).ok
    ensures Fronts(s, d, ReadScalar(Lex(s, e.f), v0, e).value, Lex(s, e.f).rest, e)
  {
    var t := Lex(s, e.f);
    ScalarKinds(t, v0, e);
    if t.token.kind == NumberToken {
      var n := NumberFronts(s, v0, e);
      d := Number(n);
    } else if t.token.kind == StringToken {
      var q := StringFronts(s, v0, e);
      d := Text(q);
    } else {
      var a := WordFronts(s, v0, e);
      d := Word(a);
    }
  }

  // ---------- Values ----------

  predicate Accepted(r: Outcome) { r.Done? && r.ok }

  /** The first token of an accepted value is not the end. */
  lemma {:induction false} NotTheEnd(s: Bytes, depth: nat, v0: Value, e: Env)
    requires Clean(s, e.f) && Accepted(ReadValue(s, depth, v0, e)) && !e.f.allowDroppedNullPlaceholders
    ensures depth <= e.f.stackLimit
    ensures var t := Lex(s, e.f);
            && t.token.kind != EndOfStream
            && ReadValue(s, depth, v0, e) ==
               if t.token.kind == ObjectBegin then ReadObject(t.rest, depth, [], [], e)
               else if t.token.kind == ArrayBegin then ReadArray(t.rest, depth, [], e)
               else ReadScalar(t, v0, e)
  {
    CleanLexes(s, e.f);
    assert ReadValue(s, depth, v0, e) == ReadWithinLimit(s, depth, v0, e);
    assert Lex(s, e.f).token.kind == EndOfStream ==> ReadWithinLimit(s, depth, v0, e) == ReadScalar(Lex(s, e.f), v0, e);
    assert EndsValue(Lex(s, e.f).token.kind) ==> ReadWithinLimit(s, depth, v0, e) == ReadScalar(Lex(s, e.f), v0, e);
  }

  /** Whatever is accepted as a value is white space and a value of the grammar. */
  lemma {:induction false} ValueInverse(s: Bytes, depth: nat, v0: Value, e: Env) returns (ws: Gap, d: Syntax, s1: Bytes)
    requires Clean(s, e.f) && !e.f.allowDroppedNullPlaceholders
    requires Accepted(ReadValue(s, depth, v0, e))
    ensures IsGap(ws) && AllBlank(ws) && s == GapText(ws) + s1
    ensures var r := ReadValue(s, depth, v0, e); Fronts(s1, d, r.value, r.rest, e)
    decreases |s|, 1
  {
    NotTheEnd(s, depth, v0, e);
    ws, s1 := TokenSplits(s, e.f);
    var t := Lex(s, e.f);
    if t.token.kind == ObjectBegin {
      var entries, comma, inside := ObjectInverse(t.rest, depth, [], [], e);
      MarkInverse(s1, e.f);
      d := ObjectFronts(s1, t.rest, entries, comma, inside, ReadValue(s, depth, v0, e).rest, e);
    } else if t.token.kind == ArrayBegin {
      var items, comma, inside := ArrayInverse(t.rest, depth, [], e);
      MarkInverse(s1, e.f);
      d := ArrayFronts(s1, t.rest, items, comma, inside, ReadValue(s, depth, v0, e).rest, e);
    } else {
      d := ScalarInverse(s1, v0, e);
    }
  }

  lemma {:induction false} Wrapped(open: Byte, body: Bytes, end: Bytes, close: Byte, rest: Bytes)
    ensures [open] + (body + (end + ([close] + rest))) == [open] + (body + (end + [close])) + rest
  {
    Associate(end, [close], rest);
    Associate(body, end + [close], rest);
    Associate([open], body + (end + [close]), rest);
  }

  lemma {:induction false} ObjectFronts(
      s: Bytes, t: Bytes, entries: seq<Entry>, comma: bool, inside: Gap, rest: Bytes, e: Env) returns (d: Syntax)
    requires s == [0x7B] + t && HoldsEntries(t, [], entries, comma, inside, rest, e)
    ensures Fronts(s, d, Obj(Stored([], entries, e)), rest, e)
  {
    d := Object(entries, comma, inside);
    Wrapped(0x7B, EntriesText(entries), EndText(comma, inside), 0x7D, rest);
  }

  lemma {:induction false} ArrayFronts(
      s: Bytes, t: Bytes, items: seq<Element>, comma: bool, inside: Gap, rest: Bytes, e: Env) returns (d: Syntax)
    requires s == [0x5B] + t && HoldsItems(t, items, comma, inside, rest, e) && !e.f.allowDroppedNullPlaceholders
    ensures Fronts(s, d, Arr([] + Meanings(items, e)), rest, e)
  {
    d := Array(items, comma, inside);
    assert [] + Meanings(items, e) == Meanings(items, e);
    Wrapped(0x5B, ElementsText(items), EndText(comma, inside), 0x5D, rest);
  }

  // ---------- Arrays ----------

  /** What an accepted array holds from `s` on. */
  predicate HoldsItems(s: Bytes, items: seq<Element>, comma: bool, inside: Gap, rest: Bytes, e: Env) {
    && AreElements(items) && ItemsTaken(items, e) && IsGap(inside) && AllBlank(inside)
    && IsEnding(items == [], comma, inside) && (comma ==> e.f.allowTrailingCommas)
    && s == ElementsText(items) + (EndText(comma, inside) + ([0x5D] + rest)) && Clean(rest, e.f)
  }

  lemma {:induction false} ArrayInverse(s: Bytes, depth: nat, done: seq<Value>, e: Env)
    returns (items: seq<Element>, comma: bool, inside: Gap)
    requires Clean(s, e.f) && !e.f.allowDroppedNullPlaceholders
    requires Accepted(ReadArray(s, depth, done, e))
    ensures HoldsItems(s, items, comma, inside, ReadArray(s, depth, done, e).rest, e)
    ensures ReadArray(s, depth, done, e).value == Arr(done + Meanings(items, e))
    ensures items == [] && done != [] ==> e.f.allowTrailingCommas
    decreases |s|, 4
  {
    if ClosesArray(SkipSpaces(s), done, e.f) {
      items, comma := [], false;
      inside := BracketInverse(s, e.f);
      assert done + [] == done;
      EmptyItems(s, inside, SkipSpaces(s)[1..], e);
    } else {
      ElementAccepted(s, depth, done, e);
      items, comma, inside := ElementInverse(s, depth, done, e);
    }
  }

  lemma {:induction false} BracketInverse(s: Bytes, f: Features) returns (inside: Gap)
    requires Clean(s, f) && SkipSpaces(s) != [] && SkipSpaces(s)[0] == 0x5D
    ensures IsGap(inside) && AllBlank(inside)
    ensures s == GapText(inside) + ([0x5D] + SkipSpaces(s)[1..]) && Clean(SkipSpaces(s)[1..], f)
  {
    inside := SpacesSplit(s, f);
    HeadTail(SkipSpaces(s));
  }

  lemma {:induction false} EmptyItems(s: Bytes, inside: Gap, rest: Bytes, e: Env)
    requires IsGap(inside) && AllBlank(inside) && s == GapText(inside) + ([0x5D] + rest) && Clean(rest, e.f)
    ensures HoldsItems(s, [], false, inside, rest, e)
  {
    assert [] + GapText(inside) == GapText(inside);
    assert [] + s == s;
  }

  /** Behind an element: the end, or a comma and more. */
  predicate GoesOn(s: Bytes, after: Gap, more: seq<Element>, comma: bool, inside: Gap, rest: Bytes, e: Env) {
    && IsGap(after) && AreElements(more) && ItemsTaken(more, e) && IsGap(inside) && AllBlank(inside)
    && IsEnding(false, comma, inside) && (comma ==> e.f.allowTrailingCommas) && Clean(rest, e.f)
    && s == GapText(after) + (MoreElementsText(more) + (EndText(comma, inside) + ([0x5D] + rest)))
  }

  lemma {:induction false} ElementAccepted(s: Bytes, depth: nat, done: seq<Value>, e: Env)
    requires !ClosesArray(SkipSpaces(s), done, e.f) && Accepted(ReadArray(s, depth, done, e))
    ensures var v := ReadValue(s, depth + 1, Null, e);
            Accepted(v) && ReadArray(s, depth, done, e) == AfterElement(v.rest, depth, done + [v.value], e)
  {
    var s1 := SkipSpaces(s);
    ValueSkipped(s, depth + 1, Null, e);
    assert ReadArray(s, depth, done, e) == ReadElement(s1, depth, done, e);
    assert ReadElement(s1, depth, done, e) ==
           (var v := ReadValue(s1, depth + 1, Null, e);
            if v.Thrown? then v
            else if v.ok then AfterElement(v.rest, depth, done + [v.value], e)
            else Abandon(Arr(done + [v.value]), v.rest, ArrayEnd, v.errors, e.f));
  }

  lemma {:induction false} ElementInverse(s: Bytes, depth: nat, done: seq<Value>, e: Env)
    returns (items: seq<Element>, comma: bool, inside: Gap)
    requires Clean(s, e.f) && !e.f.allowDroppedNullPlaceholders
    requires var v := ReadValue(s, depth + 1, Null, e);
             Accepted(v) && Accepted(AfterElement(v.rest, depth, done + [v.value], e))
    ensures var v := ReadValue(s, depth + 1, Null, e);
            var r := AfterElement(v.rest, depth, done + [v.value], e);
            && items != [] && HoldsItems(s, items, comma, inside, r.rest, e)
            && r.value == Arr(done + Meanings(items, e))
    decreases |s|, 3
  {
    var v := ReadValue(s, depth + 1, Null, e);
    var ws, d, s1 := ValueInverse(s, depth + 1, Null, e);
    var after, more;
    var r := AfterElement(v.rest, depth, done + [v.value], e);
    after, more, comma, inside := AfterInverse(v.rest, depth, done + [v.value], r, e);
    var x := Element(ws, d, after);
    items := [x] + more;
    FirstFound(s, x, s1, v, more, comma, inside, r.rest, e);
    Associate(done, [v.value], Meanings(more, e));
  }

  lemma {:induction false} FirstFound(
      s: Bytes, x: Element, s1: Bytes, v: Outcome, more: seq<Element>, comma: bool, inside: Gap, rest: Bytes, e: Env)
    requires IsGap(x.before) && AllBlank(x.before) && s == GapText(x.before) + s1
    requires v.Done? && Fronts(s1, x.value, v.value, v.rest, e) && GoesOn(v.rest, x.after, more, comma, inside, rest, e)
    ensures HoldsItems(s, [x] + more, comma, inside, rest, e)
    ensures Meanings([x] + more, e) == [v.value] + Meanings(more, e)
  {
    var items := [x] + more;
    assert items[1..] == more;
    FirstElement(items, EndText(comma, inside) + ([0x5D] + rest));
  }

  lemma {:induction false} AfterInverse(s: Bytes, depth: nat, done: seq<Value>, r: Outcome, e: Env)
    returns (after: Gap, more: seq<Element>, comma: bool, inside: Gap)
    requires Clean(s, e.f) && !e.f.allowDroppedNullPlaceholders && done != []
    requires r == AfterElement(s, depth, done, e) && Accepted(r)
    ensures GoesOn(s, after, more, comma, inside, r.rest, e) && r.value == Arr(done + Meanings(more, e))
    decreases |s|, 2
  {
    AfterAccepted(s, depth, done, e);
    var t := Lex(s, e.f);
    after := MarkSplits(s, e.f);
    if t.token.kind == ArrayEnd {
      more, comma, inside := [], false, [];
      ItemsEnd(s, done, after, t.rest, e);
    } else {
      more, comma, inside := MoreInverse(s, after, t.rest, depth, done, e);
    }
  }

  lemma {:induction false} AfterAccepted(s: Bytes, depth: nat, done: seq<Value>, e: Env)
    requires Clean(s, e.f) && Accepted(AfterElement(s, depth, done, e))
    ensures var t := Lex(s, e.f);
            && (t.token.kind == ArrayEnd || t.token.kind == ArraySeparator)
            && AfterElement(s, depth, done, e) ==
               if t.token.kind == ArrayEnd then Done(true, Arr(done), t.rest, []) else ReadArray(t.rest, depth, done, e)
  {
    CleanLexes(s, e.f);
  }

  lemma {:induction false} MoreInverse(s: Bytes, after: Gap, t: Bytes, depth: nat, done: seq<Value>, e: Env)
    returns (more: seq<Element>, comma: bool, inside: Gap)
    requires IsGap(after) && s == GapText(after) + ([0x2C] + t) && Clean(t, e.f)
    requires !e.f.allowDroppedNullPlaceholders && done != [] && Accepted(ReadArray(t, depth, done, e))
    ensures GoesOn(s, after, more, comma, inside, ReadArray(t, depth, done, e).rest, e)
    ensures ReadArray(t, depth, done, e).value == Arr(done + Meanings(more, e))
    decreases |t|, 5
  {
    var last;
    more, last, inside := ArrayInverse(t, depth, done, e);
    comma := last || more == [];
    CommaFound(s, after, t, more, last, inside, ReadArray(t, depth, done, e).rest, e);
  }

  lemma {:induction false} ItemsEnd(s: Bytes, done: seq<Value>, after: Gap, rest: Bytes, e: Env)
    requires IsGap(after) && s == GapText(after) + ([0x5D] + rest) && Clean(rest, e.f)
    ensures GoesOn(s, after, [], false, [], rest, e) && done + Meanings([], e) == done
  {
    assert [] + ([0x5D] + rest) == [0x5D] + rest;
  }

  lemma {:induction false} CommaFound(
      s: Bytes, after: Gap, t: Bytes, more: seq<Element>, last: bool, inside: Gap, rest: Bytes, e: Env)
    requires IsGap(after) && s == GapText(after) + ([0x2C] + t) && HoldsItems(t, more, last, inside, rest, e)
    requires more == [] ==> e.f.allowTrailingCommas
    ensures GoesOn(s, after, more, last || more == [], inside, rest, e)
  {
    MoreItems(more, EndText(last || more == [], inside) + ([0x5D] + rest));
    if more == [] {
      LoneComma(inside, [0x5D] + rest);
    }
  }

  lemma {:induction false} LoneComma(inside: Gap, tail: Bytes)
    ensures [0x2C] + ([] + (EndText(false, inside) + tail)) == EndText(true, inside) + tail
  {
    assert [] + GapText(inside) == GapText(inside);
    assert [] + (GapText(inside) + tail) == GapText(inside) + tail;
    Associate([0x2C], GapText(inside), tail);
  }

  // ---------- Objects ----------

  /** What an accepted object holds from `s` on. */
  predicate HoldsEntries(
      s: Bytes, done: seq<Member>, entries: seq<Entry>, comma: bool, inside: Gap, rest: Bytes, e: Env)
  {
    && AreEntries(entries) && EntriesTaken(done, entries, comma, e) && IsGap(inside)
    && IsEnding(entries == [], comma, inside)
    && s == EntriesText(entries) + (EndText(comma, inside) + ([0x7D] + rest)) && Clean(rest, e.f)
  }

  lemma {:induction false} ObjectInverse(s: Bytes, depth: nat, name: Bytes, done: seq<Member>, e: Env)
    returns (entries: seq<Entry>, comma: bool, inside: Gap)
    requires Clean(s, e.f) && !e.f.allowDroppedNullPlaceholders
    requires Accepted(ReadObject(s, depth, name, done, e))
    ensures HoldsEntries(s, done, entries, comma, inside, ReadObject(s, depth, name, done, e).rest, e)
    ensures ReadObject(s, depth, name, done, e).value == Obj(Stored(done, entries, e))
    ensures entries == [] ==> name == [] || e.f.allowTrailingCommas
    decreases |s|, 6
  {
    CleanLexes(s, e.f);
    var t := Lex(s, e.f);
    if t.token.kind == ObjectEnd && (name == [] || e.f.allowTrailingCommas) {
      inside := MarkSplits(s, e.f);
      entries, comma := [], false;
      EmptyEntries(s, done, inside, t.rest, e);
    } else {
      NamedAccepted(t, depth, done, e);
      var before, n := NameInverse(s, e);
      entries, comma, inside := EntryInverse(s, before, n, depth, done, e);
    }
  }

  lemma {:induction false} EmptyEntries(s: Bytes, done: seq<Member>, inside: Gap, rest: Bytes, e: Env)
    requires IsGap(inside) && s == GapText(inside) + ([0x7D] + rest) && Clean(rest, e.f)
    ensures HoldsEntries(s, done, [], false, inside, rest, e)
  {
    assert [] + GapText(inside) == GapText(inside);
    assert [] + s == s;
  }

  /** An accepted member has a name, and a key that fits. */
  lemma {:induction false} NamedAccepted(t: Lexed, depth: nat, done: seq<Member>, e: Env)
    requires t.token.kind == StringToken ==> |t.token.text| >= 2
    requires t.token.kind == NumberToken ==> t.token.text != []
    requires Accepted(ReadNamed(t, depth, done, e))
    ensures ReadName(t.token, e).GoodName?
    ensures var key := ReadName(t.token, e).key;
            KeyFits(key, done, e.f) && ReadNamed(t, depth, done, e) == ReadMember(t.rest, depth, key, done, e)
  {
  }

  lemma {:induction false} NameInverse(s: Bytes, e: Env) returns (before: Gap, n: Label)
    requires Clean(s, e.f) && ReadName(Lex(s, e.f).token, e).GoodName?
    ensures IsGap(before) && IsName(n) && NameTaken(n, e)
    ensures NameMeans(n, e) == ReadName(Lex(s, e.f).token, e).key
    ensures s == GapText(before) + (NameText(n) + Lex(s, e.f).rest) && Clean(Lex(s, e.f).rest, e.f)
  {
    var s1;
    before, s1 := TokenSplits(s, e.f);
    if Lex(s, e.f).token.kind == StringToken {
      var q := StringName(s1, e);
      n := Spelt(q);
    } else {
      var numeral := NumberName(s1, e);
      n := Counted(numeral);
    }
  }

  lemma {:induction false} StringName(s: Bytes, e: Env) returns (q: Quote)
    requires Starts(s) && Clean(s, e.f)
    requires Lex(s, e.f).token.kind == StringToken && ReadName(Lex(s, e.f).token, e).GoodName?
    ensures IsQuote(q) && (q.single ==> e.f.allowSingleQuotes) && s == QuoteText(q) + Lex(s, e.f).rest
    ensures SpellingMeans(q.spelling) == ReadName(Lex(s, e.f).token, e).key
  {
    q := StringFronts(s, Null, e);
  }

  lemma {:induction false} NumberName(s: Bytes, e: Env) returns (n: Numeral)
    requires Starts(s) && Lex(s, e.f).token.kind == NumberToken && ReadName(Lex(s, e.f).token, e).GoodName?
    ensures NameTaken(Counted(n), e) && NameMeans(Counted(n), e) == ReadName(Lex(s, e.f).token, e).key
    ensures s == NumeralText(n) + Lex(s, e.f).rest
  {
    n := NumberFronts(s, Null, e);
    TokenText(s, NumeralText(n), e.f);
    CountedName(n, e);
  }

  lemma {:induction false} EntryInverse(s: Bytes, before: Gap, n: Label, depth: nat, done: seq<Member>, e: Env)
    returns (entries: seq<Entry>, comma: bool, inside: Gap)
    requires !e.f.allowDroppedNullPlaceholders
    requires IsGap(before) && IsName(n) && NameTaken(n, e) && KeyFits(NameMeans(n, e), done, e.f)
    requires var t := Lex(s, e.f);
             && s == GapText(before) + (NameText(n) + t.rest) && Clean(t.rest, e.f) && |t.rest| < |s|
             && Accepted(ReadMember(t.rest, depth, NameMeans(n, e), done, e))
    ensures entries != []
    ensures var r := ReadMember(Lex(s, e.f).rest, depth, NameMeans(n, e), done, e);
            HoldsEntries(s, done, entries, comma, inside, r.rest, e) && r.value == Obj(Stored(done, entries, e))
    decreases |s|, 5
  {
    var t, key := Lex(s, e.f).rest, NameMeans(n, e);
    var colon, c := ColonInverse(t, depth, key, done, e);
    var v := ReadValue(c, depth + 1, GetMember(done, key), e);
    var lead, d, s1 := ValueInverse(c, depth + 1, GetMember(done, key), e);
    var after, more;
    after, more, comma, inside := AfterMemberInverse(v.rest, depth, key, SetMember(done, key, v.value), e);
    var x := Entry(before, n, colon, lead, d, after);
    entries := [x] + more;
    var rest := ReadMember(t, depth, key, done, e).rest;
    ColonFound(t, x, c, s1, v.rest, MoreEntriesText(more) + (EndText(comma, inside) + ([0x7D] + rest)));
    FirstEntryFound(s, x, t, v.value, done, more, comma, inside, rest, e);
  }

  lemma {:induction false} ColonInverse(s: Bytes, depth: nat, key: Bytes, done: seq<Member>, e: Env)
    returns (colon: Gap, c: Bytes)
    requires Clean(s, e.f) && Accepted(ReadMember(s, depth, key, done, e))
    ensures IsGap(colon) && AllBlank(colon) && s == GapText(colon) + ([0x3A] + c) && Clean(c, e.f)
    ensures var v := ReadValue(c, depth + 1, GetMember(done, key), e);
            && Accepted(v)
            && ReadMember(s, depth, key, done, e) == AfterMember(v.rest, depth, key, SetMember(done, key, v.value), e)
  {
    ColonAccepted(s, depth, key, done, e);
    colon := MarkSplits(s, e.f);
    c := Lex(s, e.f).rest;
  }

  lemma {:induction false} ColonAccepted(s: Bytes, depth: nat, key: Bytes, done: seq<Member>, e: Env)
    requires Accepted(ReadMember(s, depth, key, done, e))
    ensures Lex(s, e.f).token.kind == MemberSeparator
    ensures var v := ReadValue(Lex(s, e.f).rest, depth + 1, GetMember(done, key), e);
            && Accepted(v)
            && ReadMember(s, depth, key, done, e) == AfterMember(v.rest, depth, key, SetMember(done, key, v.value), e)
  {
    var c := Lex(s, e.f).rest;
    assert ReadMember(s, depth, key, done, e) == ReadMemberValue(c, depth, key, done, e);
    assert ReadMemberValue(c, depth, key, done, e) ==
           (var v := ReadValue(c, depth + 1, GetMember(done, key), e);
            if v.Thrown? then v
            else if v.ok then AfterMember(v.rest, depth, key, SetMember(done, key, v.value), e)
            else Abandon(Obj(SetMember(done, key, v.value)), v.rest, ObjectEnd, v.errors, e.f));
  }

  lemma {:induction false} ColonFound(t: Bytes, x: Entry, c: Bytes, s1: Bytes, rest: Bytes, z: Bytes)
    requires HasParts(x) && IsSyntax(x.value)
    requires t == GapText(x.colon) + ([0x3A] + c) && c == GapText(x.lead) + s1 && s1 == SyntaxText(x.value) + rest
    requires rest == GapText(x.after) + z
    ensures t == ColonPart(x, z)
  {
  }

  /** Behind a member: the end, or a comma and more. */
  predicate MembersGoOn(
      s: Bytes, key: Bytes, done: seq<Member>, after: Gap,
      more: seq<Entry>, comma: bool, inside: Gap, rest: Bytes, e: Env)
  {
    && IsGap(after) && AreEntries(more) && EntriesTaken(done, more, comma, e) && IsGap(inside)
    && IsEnding(false, comma, inside) && (more == [] && comma ==> e.f.allowTrailingCommas || key == [])
    && s == GapText(after) + (MoreEntriesText(more) + (EndText(comma, inside) + ([0x7D] + rest))) && Clean(rest, e.f)
  }

  lemma {:induction false} FirstEntryFound(
      s: Bytes, x: Entry, t: Bytes, v: Value, done: seq<Member>,
      more: seq<Entry>, comma: bool, inside: Gap, rest: Bytes, e: Env)
    requires HasParts(x) && NameTaken(x.name, e) && KeyFits(NameMeans(x.name, e), done, e.f)
    requires AllBlank(x.colon) && AllBlank(x.lead)
    requires IsSyntax(x.value) && Taken(x.value, e) && Meaning(x.value, e) == v
    requires AreEntries(more) && IsGap(inside) && IsEnding(false, comma, inside) && Clean(rest, e.f)
    requires EntriesTaken(SetMember(done, NameMeans(x.name, e), v), more, comma, e)
    requires more == [] && comma ==> e.f.allowTrailingCommas || NameMeans(x.name, e) == []
    requires s == GapText(x.before) + (NameText(x.name) + t)
    requires t == ColonPart(x, MoreEntriesText(more) + (EndText(comma, inside) + ([0x7D] + rest)))
    ensures HoldsEntries(s, done, [x] + more, comma, inside, rest, e)
    ensures Stored(done, [x] + more, e) == Stored(SetMember(done, NameMeans(x.name, e), v), more, e)
  {
    var entries := [x] + more;
    assert entries[1..] == more;
    FirstEntry(entries, EndText(comma, inside) + ([0x7D] + rest));
  }

  lemma {:induction false} AfterMemberAccepted(s: Bytes, depth: nat, key: Bytes, done: seq<Member>, e: Env)
    requires Clean(s, e.f) && Accepted(AfterMember(s, depth, key, done, e))
    ensures var t := Lex(s, e.f);
            && (t.token.kind == ObjectEnd || t.token.kind == ArraySeparator)
            && AfterMember(s, depth, key, done, e) ==
               if t.token.kind == ObjectEnd then Done(true, Obj(done), t.rest, [])
               else ReadObject(t.rest, depth, key, done, e)
  {
  }

  lemma {:induction false} AfterMemberInverse(s: Bytes, depth: nat, key: Bytes, done: seq<Member>, e: Env)
    returns (after: Gap, more: seq<Entry>, comma: bool, inside: Gap)
    requires Clean(s, e.f) && !e.f.allowDroppedNullPlaceholders
    requires Accepted(AfterMember(s, depth, key, done, e))
    ensures MembersGoOn(s, key, done, after, more, comma, inside, AfterMember(s, depth, key, done, e).rest, e)
    ensures AfterMember(s, depth, key, done, e).value == Obj(Stored(done, more, e))
    decreases |s|, 2
  {
    AfterMemberAccepted(s, depth, key, done, e);
    var t := Lex(s, e.f);
    after := MarkSplits(s, e.f);
    if t.token.kind == ObjectEnd {
      more, comma, inside := [], false, [];
      EntriesEnd(s, key, done, after, t.rest, e);
    } else {
      more, comma, inside := MoreMembersInverse(s, after, t.rest, depth, key, done, e);
    }
  }

  lemma {:induction false} MoreMembersInverse(
      s: Bytes, after: Gap, t: Bytes, depth: nat, key: Bytes, done: seq<Member>, e: Env)
    returns (more: seq<Entry>, comma: bool, inside: Gap)
    requires IsGap(after) && s == GapText(after) + ([0x2C] + t) && Clean(t, e.f)
    requires !e.f.allowDroppedNullPlaceholders && Accepted(ReadObject(t, depth, key, done, e))
    ensures MembersGoOn(s, key, done, after, more, comma, inside, ReadObject(t, depth, key, done, e).rest, e)
    ensures ReadObject(t, depth, key, done, e).value == Obj(Stored(done, more, e))
    decreases |t|, 7
  {
    var last;
    more, last, inside := ObjectInverse(t, depth, key, done, e);
    comma := last || more == [];
    EntryCommaFound(s, key, done, after, t, more, last, inside, ReadObject(t, depth, key, done, e).rest, e);
  }

  lemma {:induction false} EntriesEnd(s: Bytes, key: Bytes, done: seq<Member>, after: Gap, rest: Bytes, e: Env)
    requires IsGap(after) && s == GapText(after) + ([0x7D] + rest) && Clean(rest, e.f)
    ensures MembersGoOn(s, key, done, after, [], false, [], rest, e)
  {
    assert [] + ([0x7D] + rest) == [0x7D] + rest;
  }

  lemma {:induction false} EntryCommaFound(
      s: Bytes, key: Bytes, done: seq<Member>, after: Gap, t: Bytes,
      more: seq<Entry>, last: bool, inside: Gap, rest: Bytes, e: Env)
    requires IsGap(after) && s == GapText(after) + ([0x2C] + t) && HoldsEntries(t, done, more, last, inside, rest, e)
    requires more == [] ==> key == [] || e.f.allowTrailingCommas
    ensures MembersGoOn(s, key, done, after, more, last || more == [], inside, rest, e)
  {
    MoreEntries(more, EndText(last || more == [], inside) + ([0x7D] + rest));
    if more == [] {
      LoneComma(inside, [0x7D] + rest);
    }
  }

  // ---------- Documents ----------

  /** A document of the grammar that the reader is set to accept. */
  predicate IsDocument(document: Bytes, mark: bool, before: Gap, d: Syntax, after: Gap, e: Env) {
    && IsSyntax(d) && Taken(d, e) && Levels(d) <= e.f.stackLimit && (e.f.strictRoot ==> d.Array? || d.Object?)
    && Allowed(before, e.f) && Allowed(after, e.f) && (mark ==> e.f.skipBom)
    && document == DocumentText(mark, before, d, after, [])
  }

  lemma {:induction false} EndInverse(s: Bytes, f: Features) returns (after: Gap)
    requires Clean(s, f) && Lex(s, f).token.kind == EndOfStream
    ensures IsGap(after) && AllBlank(after) && s == GapText(after) + []
  {
    after := SpacesSplit(s, f);
    if SkipSpaces(s) != [] {
      LexStarts(SkipSpaces(s), f);
    }
  }

  lemma {:induction false} MarkFound(document: Bytes, f: Features) returns (mark: bool)
    ensures mark ==> f.skipBom
    ensures document == (if mark then [0xEF, 0xBB, 0xBF] else []) + SkipBom(document, f)
  {
    mark := f.skipBom && BOM <= document;
    if mark {
      TakeDrop(document, 3);
    } else {
      assert [] + document == document;
    }
  }

  lemma {:induction false} WholeAccepted(document: Bytes, root: Value, e: Env)
    requires e.f.failIfExtra && Accepted(Parse(document, root, e))
    ensures var v := ReadValue(SkipBom(document, e.f), 1, root, e);
            Accepted(v) && SkipCommentTokens(v.rest, e.f).token.kind == EndOfStream
  {
  }

  lemma {:induction false} DocumentFound(document: Bytes, root: Value, e: Env)
    returns (mark: bool, before: Gap, d: Syntax, after: Gap)
    requires e.f.failIfExtra && !e.f.allowDroppedNullPlaceholders && Clean(SkipBom(document, e.f), e.f)
    requires Accepted(Parse(document, root, e))
    ensures IsDocument(document, mark, before, d, after, e)
  {
    var s := SkipBom(document, e.f);
    var v := ReadValue(s, 1, root, e);
    WholeAccepted(document, root, e);
    mark := MarkFound(document, e.f);
    var s1;
    before, d, s1 := ValueInverse(s, 1, root, e);
    CleanLexes(v.rest, e.f);
    after := EndInverse(v.rest, e.f);
    ParseText(mark, before, d, after, root, e);
  }

  lemma {:induction false} DocumentAccepted(
      document: Bytes, mark: bool, before: Gap, d: Syntax, after: Gap, root: Value, e: Env)
    requires IsDocument(document, mark, before, d, after, e)
    ensures Parse(document, root, e) == Done(true, Meaning(d, e), [], [])
  {
    ParseText(mark, before, d, after, root, e);
  }

  /** A document without the three oddities is accepted exactly if it is one of the grammar. */
  lemma {:induction false} AcceptedIff(document: Bytes, root: Value, e: Env)
    requires e.f.failIfExtra && !e.f.allowDroppedNullPlaceholders && Clean(SkipBom(document, e.f), e.f)
    ensures Accepted(Parse(document, root, e)) <==>
            exists mark, before, d, after :: IsDocument(document, mark, before, d, after, e)
  {
    if Accepted(Parse(document, root, e)) {
      var mark, before, d, after := DocumentFound(document, root, e);
    }
    if mark, before, d, after :| IsDocument(document, mark, before, d, after, e) {
      DocumentAccepted(document, mark, before, d, after, root, e);
    }
  }

  // ---------- Outside the grammar ----------

  lemma {:induction false} ZeroLexes(tail: Bytes, f: Features)
    ensures SkipCommentTokens([0] + tail, f) == Lexed(true, Token(EndOfStream, [0]), tail)
  {
    var s := [0] + tail;
    assert s[0] == 0 && s[1..] == tail && s[..1] == [0];
    assert Lex(s, f) == LexCharacter(s, f);
    assert LexPastComments(s, f) == Lex(s, f);
  }

  /** A zero byte hides whatever follows it, also where extra text is an error. */
  lemma {:induction false} ZeroHides(
      document: Bytes, mark: bool, before: Gap, d: Syntax, after: Gap, tail: Bytes, root: Value, e: Env)
    requires IsDocument(document, mark, before, d, after, e) && after != []
    ensures Parse(DocumentText(mark, before, d, after, [0] + tail), root, e) == Done(true, Meaning(d, e), tail, [])
  {
    var end := GapText(after) + ([0] + tail);
    assert Ends(end) by {
      assert end[0] == FillerText(after[0])[0];
    }
    ReadDocument(mark, before, d, after, [0] + tail, root, e);
    AllowedPasses(after, [0] + tail, e.f);
    ZeroLexes(tail, e.f);
    RootShape(d, e);
    ZeroOutcome(DocumentText(mark, before, d, after, [0] + tail), root, Meaning(d, e), end, tail, e);
  }

  lemma {:induction false} ZeroOutcome(document: Bytes, root: Value, value: Value, end: Bytes, tail: Bytes, e: Env)
    requires ReadValue(SkipBom(document, e.f), 1, root, e) == Done(true, value, end, [])
    requires SkipCommentTokens(end, e.f) == Lexed(true, Token(EndOfStream, [0]), tail)
    requires e.f.strictRoot ==> IsContainer(value)
    ensures Parse(document, root, e) == Done(true, value, tail, [])
  {
  }

  /** A quotation mark as it is ends the text of a string early; that can happen between apostrophes. */
  lemma {:induction false} QuoteCuts(ps: Spelling, more: Bytes)
    requires IsSpelling(ps)
    ensures DecodeText(SpellingText(ps) + ([0x22] + more)) == GoodText(SpellingMeans(ps))
  {
    var s := SpellingText(ps) + ([0x22] + more);
    if ps == [] {
      assert s == [0x22] + more;
    } else {
      var t := SpellingText(ps[1..]) + ([0x22] + more);
      Associate(PieceText(ps[0]), SpellingText(ps[1..]), [0x22] + more);
      PieceReads(ps[0], t);
      DropAppend(PieceText(ps[0]), t);
      assert s[0] == PieceText(ps[0])[0];
      QuoteCuts(ps[1..], more);
    }
  }
}
