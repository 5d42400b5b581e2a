/** The reader applied to what the writer wrote. */
module JsonRoundTrip {
  import opened JsonStrings
  import opened JsonNumbers
  import opened JsonValues
  import opened JsonReader
  import opened JsonWriter
  import opened Sequences

  // ---------- Tokens of written text ----------

  /** What may follow a written value. */
  predicate Delimits(c: Byte) { c == COMMA || c == RBRACKET || c == RBRACE || c == LINE_FEED }

  predicate Delimited(t: Bytes) { t == [] || Delimits(t[0]) }

  /** What follows a value inside a container. */
  predicate Enclosed(t: Bytes) { t != [] && (t[0] == COMMA || t[0] == RBRACKET || t[0] == RBRACE) }

  lemma {:induction false} LexText(c: Byte, body: Bytes, t: Bytes, kind: TokenType, f: Features)
    requires !IsSpace(c) && Start(c, body + t, f) == Started(kind, Scan(true, t)) && kind != ErrorToken
    ensures Lex([c] + body + t, f) == Lexed(true, Token(kind, [c] + body), t)
  {
    var s := [c] + body + t;
    assert s[0] == c && s[1..] == body + t;
    assert s[..|s| - |t|] == [c] + body;
  }

  /** A single character that is a token by itself. */
  predicate Punctuation(c: Byte, kind: TokenType) {
    || (c == COMMA && kind == ArraySeparator) || (c == COLON && kind == MemberSeparator)
    || (c == LBRACE && kind == ObjectBegin) || (c == RBRACE && kind == ObjectEnd)
    || (c == LBRACKET && kind == ArrayBegin) || (c == RBRACKET && kind == ArrayEnd)
  }

  lemma {:induction false} LexPunctuation(c: Byte, kind: TokenType, t: Bytes, f: Features)
    requires Punctuation(c, kind)
    ensures Lex([c] + t, f) == Lexed(true, Token(kind, [c]), t)
    ensures LexPastComments([c] + t, f) == Lexed(true, Token(kind, [c]), t)
    ensures SkipCommentTokens([c] + t, f) == Lexed(true, Token(kind, [c]), t)
  {
    assert [] + t == t && [c] + [] == [c];
    LexText(c, [], t, kind, f);
  }

  lemma {:induction false} LexQuoted(s: Bytes, t: Bytes, f: Features)
    ensures var q := Quoted(s, false);
            && |q| >= 2
            && Lex(q + t, f) == Lexed(true, Token(StringToken, q), t)
            && DecodeText(q[1..|q| - 1]) == GoodText(Repaired(s, false))
  {
    QuoteScanDecode(s, false, t);
    var q := Quoted(s, false);
    TakeDrop(q, 1);
    LexText(QUOTE, q[1..], t, StringToken, f);
    assert [QUOTE] + q[1..] == q;
  }

  lemma {:induction false} LexWord(c: Byte, word: Bytes, kind: TokenType, t: Bytes, f: Features)
    requires (c == LOWER_N && word == ULL && kind == NullToken)
          || (c == LOWER_T && word == RUE && kind == TrueToken)
          || (c == LOWER_F && word == ALSE && kind == FalseToken)
    ensures Lex([c] + word + t, f) == Lexed(true, Token(kind, [c] + word), t)
  {
    DropAppend(word, t);
    LexText(c, word, t, kind, f);
  }

  lemma {:induction false} SkipDigitsOf(ds: Bytes, t: Bytes)
    requires AllDigits(ds) && Delimited(t)
    ensures SkipDigits(ds + t) == t
  {
    if ds == [] {
      assert ds + t == t;
    } else {
      assert (ds + t)[1..] == ds[1..] + t;
      SkipDigitsOf(ds[1..], t);
    }
  }

  lemma {:induction false} SkipNumberOf(ds: Bytes, t: Bytes)
    requires AllDigits(ds) && Delimited(t)
    ensures SkipNumber(ds + t) == t
  {
    SkipDigitsOf(ds, t);
  }

  lemma {:induction false} LexDecimal(v: nat, t: Bytes, f: Features)
    requires Delimited(t)
    ensures Lex(Decimal(v) + t, f) == Lexed(true, Token(NumberToken, Decimal(v)), t)
  {
    DecimalRoundTrip(v);
    var d := Decimal(v);
    TakeDrop(d, 1);
    SkipNumberOf(d[1..], t);
    assert IsDigit(d[0]);
    LexText(d[0], d[1..], t, NumberToken, f);
    assert [d[0]] + d[1..] == d;
  }

  lemma {:induction false} LexNegative(v: nat, t: Bytes, f: Features)
    requires Delimited(t)
    ensures Lex([MINUS] + Decimal(v) + t, f) == Lexed(true, Token(NumberToken, [MINUS] + Decimal(v)), t)
  {
    DecimalRoundTrip(v);
    var d := Decimal(v);
    SkipNumberOf(d, t);
    assert (d + t)[0] == d[0] && IsDigit(d[0]);
    LexText(MINUS, d, t, NumberToken, f);
  }

  lemma {:induction false} LexInteger(v: int, t: Bytes, f: Features)
    requires Delimited(t)
    ensures Lex(IntText(v) + t, f) == Lexed(true, Token(NumberToken, IntText(v)), t)
  {
    if v < 0 { LexNegative(-v, t, f); } else { LexDecimal(v, t, f); }
  }

  // ---------- What comes back ----------

  /** An integer comes back in the signed type whenever it fits there. */
  function ReadBack(v: Value): Value {
    match v
    case UInt(u) => if u as int <= MAX_INT64 then Int(u as Int64) else v
    case Str(s) => Str(Repaired(s, false))
    case Arr(items) => Arr(ReadBackItems(items))
    case Obj(members) => Obj(StoreAll([], members))
    case _ => v
  }

  function ReadBackItems(items: seq<Value>): seq<Value> {
    if items == [] then [] else [ReadBack(items[0])] + ReadBackItems(items[1..])
  }

  /** Members stored one after another into `done`. */
  function StoreAll(done: seq<Member>, ms: seq<Member>): seq<Member>
    decreases ms
  {
    if ms == [] then done
    else StoreAll(SetMember(done, Repaired(ms[0].key, false), ReadBack(ms[0].value)), ms[1..])
  }

  /** No reals, and no key that the reader rejects for its length or, where it checks, as a duplicate. */
  predicate Writable(v: Value, f: Features) {
    match v
    case Real(_) => false
    case Arr(items) => ItemsWritable(items, f)
    case Obj(members) => MembersWritable([], members, f)
    case _ => true
  }

  predicate ItemsWritable(items: seq<Value>, f: Features) {
    items == [] || (Writable(items[0], f) && ItemsWritable(items[1..], f))
  }

  predicate MembersWritable(done: seq<Member>, ms: seq<Member>, f: Features)
    decreases ms
  {
    ms == [] ||
    (var key := Repaired(ms[0].key, false);
     && |key| < KEY_LIMIT
     && (f.rejectDupKeys ==> !HasMember(done, key))
     && Writable(ms[0].value, f)
     && MembersWritable(SetMember(done, key, ReadBack(ms[0].value)), ms[1..], f))
  }

  /** No array of a single null: without its null it would be an empty array. */
  predicate NoLoneNull(v: Value) {
    match v
    case Arr(items) => items != [Null] && NoLoneNulls(items)
    case Obj(members) => NoLoneNullMembers(members)
    case _ => true
  }

  predicate NoLoneNulls(items: seq<Value>) {
    items == [] || (NoLoneNull(items[0]) && NoLoneNulls(items[1..]))
  }

  predicate NoLoneNullMembers(ms: seq<Member>) {
    ms == [] || (NoLoneNull(ms[0].value) && NoLoneNullMembers(ms[1..]))
  }

  /** A writer that drops nulls needs a reader that supplies them. */
  predicate Agree(w: Style, f: Features) { w.dropNull ==> f.allowDroppedNullPlaceholders }

  /** A null that is dropped can be seen only by what encloses it. */
  predicate HasRoom(v: Value, rest: Bytes, w: Style) {
    Delimited(rest) && (w.dropNull && v.Null? ==> Enclosed(rest))
  }

  /** Reading a container's text at `depth`: an exception if its content is `h` levels high and does not fit. */
  function Expected(value: Value, rest: Bytes, depth: nat, h: nat, f: Features): Outcome {
    if depth + h > f.stackLimit then Thrown(StackLimitExceeded) else Done(true, value, rest, [])
  }

  lemma {:induction false} FirstByte(v: Value, w: Style)
    requires !v.Real? && !(w.dropNull && v.Null?)
    ensures var t := Write(v, w); t != [] && !IsSpace(t[0]) && t[0] != RBRACKET && t[0] != BOM[0]
  {
    match v
    case Int(i) => DecimalRoundTrip(if i < 0 then -(i as int) else i as int);
                   assert i >= 0 ==> IsDigit(Write(v, w)[0]);
    case UInt(u) => DecimalRoundTrip(u as nat); assert IsDigit(Write(v, w)[0]);
    case Str(s) => QuotedIsEscaped(s, false);
    case _ =>
  }

  predicate ScalarToken(kind: TokenType) {
    kind == NullToken || kind == TrueToken || kind == FalseToken || kind == NumberToken || kind == StringToken
  }

  lemma {:induction false} ReadValueOfToken(s: Bytes, t: Lexed, depth: nat, v0: Value, e: Env)
    requires Lex(s, e.f) == t && ScalarToken(t.token.kind) && depth <= e.f.stackLimit
    ensures (t.token.kind == StringToken ==> |t.token.text| >= 2) && t.token.text != []
    ensures ReadValue(s, depth, v0, e) == ReadScalar(t, v0, e)
  {
    assert LexPastComments(s, e.f) == t;
    assert SkipCommentTokens(s, e.f) == t;
  }

  lemma {:induction false} ReadWordWritten(v: Value, rest: Bytes, depth: nat, v0: Value, w: Style, e: Env)
    requires (v.Bool? || (v.Null? && !w.dropNull)) && depth <= e.f.stackLimit
    ensures ReadValue(Write(v, w) + rest, depth, v0, e) == Done(true, v, rest, [])
  {
    var c, word, kind := LOWER_N, ULL, NullToken;
    if v.Bool? {
      if v.b { c, word, kind := LOWER_T, RUE, TrueToken; } else { c, word, kind := LOWER_F, ALSE, FalseToken; }
    }
    assert Write(v, w) == [c] + word;
    LexWord(c, word, kind, rest, e.f);
    ReadValueOfToken(Write(v, w) + rest, Lexed(true, Token(kind, [c] + word), rest), depth, v0, e);
  }

  lemma {:induction false} ReadIntegerWritten(i: int, rest: Bytes, depth: nat, v0: Value, e: Env)
    requires MIN_INT64 <= i <= MAX_UINT64 && Delimited(rest) && depth <= e.f.stackLimit
    ensures ReadValue(IntText(i) + rest, depth, v0, e)
         == Done(true, if i <= MAX_INT64 then Int(i as Int64) else UInt(i as UInt64), rest, [])
  {
    LexInteger(i, rest, e.f);
    IntegerRoundTrip(i);
    ReadValueOfToken(IntText(i) + rest, Lexed(true, Token(NumberToken, IntText(i)), rest), depth, v0, e);
  }

  lemma {:induction false} ReadStringWritten(s: Bytes, rest: Bytes, depth: nat, v0: Value, e: Env)
    requires depth <= e.f.stackLimit
    ensures ReadValue(Quoted(s, false) + rest, depth, v0, e) == Done(true, Str(Repaired(s, false)), rest, [])
  {
    var q := Quoted(s, false);
    LexQuoted(s, rest, e.f);
    ReadValueOfToken(q + rest, Lexed(true, Token(StringToken, q), rest), depth, v0, e);
  }

  /** A reader that supplies nulls finds one in front of a comma or a closing bracket. */
  lemma {:induction false} ReadNothing(rest: Bytes, depth: nat, v0: Value, e: Env)
    requires Enclosed(rest) && e.f.allowDroppedNullPlaceholders && depth <= e.f.stackLimit
    ensures ReadValue(rest, depth, v0, e) == Done(true, Null, rest, [])
  {
    var c := rest[0];
    var kind := if c == COMMA then ArraySeparator else if c == RBRACKET then ArrayEnd else ObjectEnd;
    var t := Lexed(true, Token(kind, [c]), rest[1..]);
    HeadTail(rest);
    LexPunctuation(c, kind, rest[1..], e.f);
    assert SkipCommentTokens(rest, e.f) == t;
  }

  lemma {:induction false} ReadScalarWritten(v: Value, rest: Bytes, depth: nat, v0: Value, w: Style, e: Env)
    requires !v.Arr? && !v.Obj? && !v.Real? && HasRoom(v, rest, w) && depth <= e.f.stackLimit
    requires v.Null? ==> Agree(w, e.f)
    ensures ReadValue(Write(v, w) + rest, depth, v0, e) == Done(true, ReadBack(v), rest, [])
  {
    match v
    case Null =>
      if w.dropNull {
        assert [] + rest == rest;
        ReadNothing(rest, depth, v0, e);
      } else {
        ReadWordWritten(v, rest, depth, v0, w, e);
      }
    case Bool(b) => ReadWordWritten(v, rest, depth, v0, w, e);
    case Int(i) => ReadIntegerWritten(i as int, rest, depth, v0, e);
    case UInt(u) => ReadIntegerWritten(u as int, rest, depth, v0, e);
    case Str(s) => ReadStringWritten(s, rest, depth, v0, e);
  }

  /** Reading back what was written for any value, in front of any delimiter. */
  lemma {:induction false} ReadWritten(v: Value, rest: Bytes, depth: nat, v0: Value, w: Style, e: Env)
    requires Writable(v, e.f) && Agree(w, e.f) && (w.dropNull ==> NoLoneNull(v)) && HasRoom(v, rest, w)
    ensures ReadValue(Write(v, w) + rest, depth, v0, e) == Expected(ReadBack(v), rest, depth, Height(v) - 1, e.f)
    decreases v, 2
  {
    if depth <= e.f.stackLimit {
      if v.Arr? || v.Obj? {
        ReadContainerWritten(v, rest, depth, v0, w, e);
      } else {
        ReadScalarWritten(v, rest, depth, v0, w, e);
      }
    }
  }

  lemma {:induction false} ReadContainerWritten(v: Value, rest: Bytes, depth: nat, v0: Value, w: Style, e: Env)
    requires v.Arr? || v.Obj?
    requires Writable(v, e.f) && Agree(w, e.f) && (w.dropNull ==> NoLoneNull(v)) && depth <= e.f.stackLimit
    ensures ReadValue(Write(v, w) + rest, depth, v0, e) == Expected(ReadBack(v), rest, depth, Height(v) - 1, e.f)
    decreases v, 1
  {
    if v.Arr? {
      ArrayText(v.items, rest, depth, v0, w, e);
      ReadArrayWritten(v, rest, depth, w, e);
    } else {
      ObjectText(v.members, rest, depth, v0, w, e);
      ReadObjectWritten(v, rest, depth, w, e);
    }
  }

  lemma {:induction false} ReadOfBracket(s: Bytes, inner: Bytes, depth: nat, v0: Value, e: Env)
    requires s == [LBRACKET] + inner && depth <= e.f.stackLimit
    ensures ReadValue(s, depth, v0, e) == ReadArray(inner, depth, [], e)
  {
    LexPunctuation(LBRACKET, ArrayBegin, inner, e.f);
    assert SkipCommentTokens(s, e.f) == Lexed(true, Token(ArrayBegin, [LBRACKET]), inner);
  }

  lemma {:induction false} ReadOfBrace(s: Bytes, inner: Bytes, depth: nat, v0: Value, e: Env)
    requires s == [LBRACE] + inner && depth <= e.f.stackLimit
    ensures ReadValue(s, depth, v0, e) == ReadObject(inner, depth, [], [], e)
  {
    LexPunctuation(LBRACE, ObjectBegin, inner, e.f);
    assert SkipCommentTokens(s, e.f) == Lexed(true, Token(ObjectBegin, [LBRACE]), inner);
  }

  lemma {:induction false} ArrayText(items: seq<Value>, rest: Bytes, depth: nat, v0: Value, w: Style, e: Env)
    requires depth <= e.f.stackLimit
    ensures ReadValue(Write(Arr(items), w) + rest, depth, v0, e)
         == ReadArray(WriteItems(items, w) + ([RBRACKET] + rest), depth, [], e)
  {
    var inner := WriteItems(items, w) + ([RBRACKET] + rest);
    Bracket(LBRACKET, WriteItems(items, w), RBRACKET, rest);
    ReadOfBracket([LBRACKET] + inner, inner, depth, v0, e);
  }

  lemma {:induction false} ObjectText(ms: seq<Member>, rest: Bytes, depth: nat, v0: Value, w: Style, e: Env)
    requires depth <= e.f.stackLimit
    ensures ReadValue(Write(Obj(ms), w) + rest, depth, v0, e)
         == ReadObject(WriteMembers(ms, w) + ([RBRACE] + rest), depth, [], [], e)
  {
    var inner := WriteMembers(ms, w) + ([RBRACE] + rest);
    Bracket(LBRACE, WriteMembers(ms, w), RBRACE, rest);
    ReadOfBrace([LBRACE] + inner, inner, depth, v0, e);
  }

  lemma {:induction false} Bracket(open: Byte, inner: Bytes, close: Byte, rest: Bytes)
    ensures [open] + inner + [close] + rest == [open] + (inner + ([close] + rest))
  {
  }

  lemma {:induction false} ReadArrayWritten(v: Value, rest: Bytes, depth: nat, w: Style, e: Env)
    requires v.Arr? && Writable(v, e.f) && Agree(w, e.f) && (w.dropNull ==> NoLoneNull(v)) && depth <= e.f.stackLimit
    ensures ReadArray(WriteItems(v.items, w) + ([RBRACKET] + rest), depth, [], e)
         == Expected(Arr(ReadBackItems(v.items)), rest, depth, ItemsHeight(v.items), e.f)
    decreases v, 0
  {
    if v.items == [] {
      var s := [RBRACKET] + rest;
      assert WriteItems(v.items, w) + s == s;
      assert SkipSpaces(s) == s && s[1..] == rest;
    } else {
      ReadItemsWritten(v.items, [], rest, depth, w, e);
      assert [] + ReadBackItems(v.items) == ReadBackItems(v.items);
    }
  }

  // One element, by what its value leaves behind.

  predicate StartsElement(s: Bytes, items: seq<Value>, f: Features) {
    s != [] && !IsSpace(s[0]) && !ClosesArray(s, items, f)
  }

  lemma {:induction false} ArrayThrows(s: Bytes, depth: nat, items: seq<Value>, e: Env)
    requires StartsElement(s, items, e.f) && ReadValue(s, depth + 1, Null, e).Thrown?
    ensures ReadArray(s, depth, items, e) == ReadValue(s, depth + 1, Null, e)
  {
    assert SkipSpaces(s) == s;
  }

  lemma {:induction false} ArrayEnds(
      s: Bytes, x: Value, after: Bytes, rest: Bytes, depth: nat, items: seq<Value>, e: Env)
    requires StartsElement(s, items, e.f) && ReadValue(s, depth + 1, Null, e) == Done(true, x, after, [])
    requires after == [RBRACKET] + rest
    ensures ReadArray(s, depth, items, e) == Done(true, Arr(items + [x]), rest, [])
  {
    assert SkipSpaces(s) == s;
    LexPunctuation(RBRACKET, ArrayEnd, rest, e.f);
    assert AfterElement(after, depth, items + [x], e) == Done(true, Arr(items + [x]), rest, []);
  }

  lemma {:induction false} ArrayContinues(
      s: Bytes, x: Value, after: Bytes, next: Bytes, depth: nat, items: seq<Value>, e: Env)
    requires StartsElement(s, items, e.f) && ReadValue(s, depth + 1, Null, e) == Done(true, x, after, [])
    requires after == [COMMA] + next
    ensures ReadArray(s, depth, items, e) == ReadArray(next, depth, items + [x], e)
  {
    assert SkipSpaces(s) == s;
    LexPunctuation(COMMA, ArraySeparator, next, e.f);
    assert AfterElement(after, depth, items + [x], e) == ReadArray(next, depth, items + [x], e);
  }

  /** The first element begins at once; a dropped null is told from the end of the array by what came before. */
  lemma {:induction false} ItemsText(items: seq<Value>, done: seq<Value>, w: Style, f: Features, rest: Bytes)
    requires items != [] && !items[0].Real?
    requires w.dropNull && items == [Null] ==> !ClosesArray([RBRACKET] + rest, done, f)
    ensures var s := WriteItems(items, w) + ([RBRACKET] + rest);
            && s == Write(items[0], w) + (WriteMoreItems(items[1..], w) + ([RBRACKET] + rest))
            && StartsElement(s, done, f)
  {
    Associate(Write(items[0], w), WriteMoreItems(items[1..], w), [RBRACKET] + rest);
    if w.dropNull && items[0].Null? {
      var after := WriteMoreItems(items[1..], w) + ([RBRACKET] + rest);
      MoreItemsText(items[1..], w, rest);
      assert [] + after == after;
      assert items[1..] == [] ==> items == [Null];
    } else {
      FirstByte(items[0], w);
    }
  }

  /** What follows an element: the closing bracket, or a comma and the next elements. */
  lemma {:induction false} MoreItemsText(items: seq<Value>, w: Style, rest: Bytes)
    ensures var after := WriteMoreItems(items, w) + ([RBRACKET] + rest);
            && Delimited(after) && Enclosed(after)
            && (items == [] ==> after == [RBRACKET] + rest)
            && (items != [] ==> after == [COMMA] + (WriteItems(items, w) + ([RBRACKET] + rest)))
  {
    if items == [] {
      assert [] + ([RBRACKET] + rest) == [RBRACKET] + rest;
    } else {
      Associate([COMMA], Write(items[0], w), WriteMoreItems(items[1..], w));
      Associate([COMMA], WriteItems(items, w), [RBRACKET] + rest);
    }
  }

  lemma {:induction false} ReadItemsWritten(
      items: seq<Value>, done: seq<Value>, rest: Bytes, depth: nat, w: Style, e: Env)
    requires items != [] && ItemsWritable(items, e.f) && Agree(w, e.f) && depth <= e.f.stackLimit
    requires w.dropNull ==> NoLoneNulls(items) && (done != [] || items != [Null])
    ensures ReadArray(WriteItems(items, w) + ([RBRACKET] + rest), depth, done, e)
         == Expected(Arr(done + ReadBackItems(items)), rest, depth, ItemsHeight(items), e.f)
    decreases items, 0
  {
    var v, x := items[0], ReadBack(items[0]);
    var s := WriteItems(items, w) + ([RBRACKET] + rest);
    var after := WriteMoreItems(items[1..], w) + ([RBRACKET] + rest);
    ItemsText(items, done, w, e.f, rest);
    MoreItemsText(items[1..], w, rest);
    ReadWritten(v, after, depth + 1, Null, w, e);
    if depth + Height(v) > e.f.stackLimit {
      ArrayThrows(s, depth, done, e);
    } else if items[1..] == [] {
      ArrayEnds(s, x, after, rest, depth, done, e);
      assert ReadBackItems(items) == [x];
    } else {
      ArrayContinues(s, x, after, WriteItems(items[1..], w) + ([RBRACKET] + rest), depth, done, e);
      ReadItemsWritten(items[1..], done + [x], rest, depth, w, e);
      Associate(done, [x], ReadBackItems(items[1..]));
      ExpectedMax(Arr(done + ReadBackItems(items)), rest, depth, Height(v), ItemsHeight(items[1..]), e.f);
    }
  }

  lemma {:induction false} ExpectedMax(value: Value, rest: Bytes, depth: nat, a: nat, b: nat, f: Features)
    requires depth + a <= f.stackLimit
    ensures Expected(value, rest, depth, b, f) == Expected(value, rest, depth, Max(a, b), f)
  {
  }

  lemma {:induction false} ReadObjectWritten(v: Value, rest: Bytes, depth: nat, w: Style, e: Env)
    requires v.Obj? && Writable(v, e.f) && Agree(w, e.f) && (w.dropNull ==> NoLoneNull(v)) && depth <= e.f.stackLimit
    ensures ReadObject(WriteMembers(v.members, w) + ([RBRACE] + rest), depth, [], [], e)
         == Expected(Obj(StoreAll([], v.members)), rest, depth, MembersHeight(v.members), e.f)
    decreases v, 0
  {
    if v.members == [] {
      var s := [RBRACE] + rest;
      assert WriteMembers(v.members, w) + s == s;
      LexPunctuation(RBRACE, ObjectEnd, rest, e.f);
    } else {
      ReadMembersWritten(v.members, [], [], rest, depth, w, e);
    }
  }

  /** A member's name, as the reader meets it. */
  lemma {:induction false} ReadNameWritten(name: Bytes, key: Bytes, t: Bytes, depth: nat, ms: seq<Member>, e: Env)
    requires |Repaired(key, false)| < KEY_LIMIT
    requires e.f.rejectDupKeys ==> !HasMember(ms, Repaired(key, false))
    ensures ReadObject(Quoted(key, false) + t, depth, name, ms, e)
         == ReadMember(t, depth, Repaired(key, false), ms, e)
  {
    var q := Quoted(key, false);
    LexQuoted(key, t, e.f);
    assert LexPastComments(q + t, e.f) == Lexed(true, Token(StringToken, q), t);
  }

  lemma {:induction false} MembersText(ms: seq<Member>, w: Style, rest: Bytes)
    requires ms != []
    ensures WriteMembers(ms, w) + ([RBRACE] + rest)
         == Quoted(ms[0].key, false) + MemberBody(ms, w, rest)
  {
    var q, c, v, more := Quoted(ms[0].key, false), Separator(w), Write(ms[0].value, w), WriteMoreMembers(ms[1..], w);
    FiveParts(q, c, v, more, [RBRACE] + rest);
  }

  lemma {:induction false} FiveParts(q: Bytes, c: Bytes, v: Bytes, more: Bytes, rest: Bytes)
    ensures q + c + v + more + rest == q + (c + (v + (more + rest)))
  {
  }

  lemma {:induction false} MoreMembersText(ms: seq<Member>, w: Style, rest: Bytes)
    ensures var after := WriteMoreMembers(ms, w) + ([RBRACE] + rest);
            && Delimited(after) && Enclosed(after)
            && (ms == [] ==> after == [RBRACE] + rest)
            && (ms != [] ==> after == [COMMA] + (WriteMembers(ms, w) + ([RBRACE] + rest)))
  {
    if ms == [] {
      assert [] + ([RBRACE] + rest) == [RBRACE] + rest;
    } else {
      Associate([COMMA], WriteMember(ms[0], w), WriteMoreMembers(ms[1..], w));
      Associate([COMMA], WriteMembers(ms, w), [RBRACE] + rest);
    }
  }

  // One member, by what its value leaves behind.

  lemma {:induction false} MemberThrows(s: Bytes, t: Bytes, depth: nat, key: Bytes, ms: seq<Member>, e: Env)
    requires ColonThen(s, t, depth + 1, GetMember(ms, key), e)
    requires ReadValue(t, depth + 1, GetMember(ms, key), e).Thrown?
    ensures ReadMember(s, depth, key, ms, e) == ReadValue(t, depth + 1, GetMember(ms, key), e)
  {
  }

  lemma {:induction false} MemberEnds(
      s: Bytes, t: Bytes, x: Value, after: Bytes, rest: Bytes, depth: nat, key: Bytes, ms: seq<Member>, e: Env)
    requires ColonThen(s, t, depth + 1, GetMember(ms, key), e)
    requires ReadValue(t, depth + 1, GetMember(ms, key), e) == Done(true, x, after, [])
    requires after == [RBRACE] + rest
    ensures ReadMember(s, depth, key, ms, e) == Done(true, Obj(SetMember(ms, key, x)), rest, [])
  {
    LexPunctuation(RBRACE, ObjectEnd, rest, e.f);
    assert AfterMember([RBRACE] + rest, depth, key, SetMember(ms, key, x), e)
        == Done(true, Obj(SetMember(ms, key, x)), rest, []);
  }

  lemma {:induction false} MemberContinues(
      s: Bytes, t: Bytes, x: Value, after: Bytes, next: Bytes, depth: nat, key: Bytes, ms: seq<Member>, e: Env)
    requires ColonThen(s, t, depth + 1, GetMember(ms, key), e)
    requires ReadValue(t, depth + 1, GetMember(ms, key), e) == Done(true, x, after, [])
    requires after == [COMMA] + next
    ensures ReadMember(s, depth, key, ms, e) == ReadObject(next, depth, key, SetMember(ms, key, x), e)
  {
    LexPunctuation(COMMA, ArraySeparator, next, e.f);
    assert AfterMember([COMMA] + next, depth, key, SetMember(ms, key, x), e)
        == ReadObject(next, depth, key, SetMember(ms, key, x), e);
  }

  lemma {:induction false} ReadMembersWritten(
      ms: seq<Member>, done: seq<Member>, name: Bytes, rest: Bytes, depth: nat, w: Style, e: Env)
    requires ms != [] && MembersWritable(done, ms, e.f) && Agree(w, e.f) && (w.dropNull ==> NoLoneNullMembers(ms))
               && depth <= e.f.stackLimit
    ensures ReadObject(WriteMembers(ms, w) + ([RBRACE] + rest), depth, name, done, e)
         == Expected(Obj(StoreAll(done, ms)), rest, depth, MembersHeight(ms), e.f)
    decreases ms, 2
  {
    MembersText(ms, w, rest);
    ReadNameWritten(name, ms[0].key, MemberBody(ms, w, rest), depth, done, e);
    ReadMemberWritten(ms, done, rest, depth, w, e);
  }

  /** The text after the name of the first member. */
  function MemberBody(ms: seq<Member>, w: Style, rest: Bytes): Bytes
    requires ms != []
  {
    Separator(w) + (Write(ms[0].value, w) + (WriteMoreMembers(ms[1..], w) + ([RBRACE] + rest)))
  }

  lemma {:induction false} ReadMemberWritten(
      ms: seq<Member>, done: seq<Member>, rest: Bytes, depth: nat, w: Style, e: Env)
    requires ms != [] && MembersWritable(done, ms, e.f) && Agree(w, e.f) && (w.dropNull ==> NoLoneNullMembers(ms))
               && depth <= e.f.stackLimit
    ensures ReadMember(MemberBody(ms, w, rest), depth, Repaired(ms[0].key, false), done, e)
         == Expected(Obj(StoreAll(done, ms)), rest, depth, MembersHeight(ms), e.f)
    decreases ms, 1
  {
    var after := WriteMoreMembers(ms[1..], w) + ([RBRACE] + rest);
    var t := Write(ms[0].value, w) + after;
    ColonWritten(t, depth + 1, GetMember(done, Repaired(ms[0].key, false)), w, e);
    FirstMemberWritten(ms, done, rest, depth, w, e, after);
    ReadMemberValueWritten(ms, done, rest, depth, w, e, MemberBody(ms, w, rest), t);
  }

  lemma {:induction false} FirstMemberWritten(
      ms: seq<Member>, done: seq<Member>, rest: Bytes, depth: nat, w: Style, e: Env, after: Bytes)
    requires ms != [] && MembersWritable(done, ms, e.f) && Agree(w, e.f) && (w.dropNull ==> NoLoneNullMembers(ms))
    requires after == WriteMoreMembers(ms[1..], w) + ([RBRACE] + rest)
    ensures ReadValue(Write(ms[0].value, w) + after, depth + 1, GetMember(done, Repaired(ms[0].key, false)), e)
         == Expected(ReadBack(ms[0].value), after, depth + 1, Height(ms[0].value) - 1, e.f)
    decreases ms, 0, 0
  {
    MoreMembersText(ms[1..], w, rest);
    ReadWritten(ms[0].value, after, depth + 1, GetMember(done, Repaired(ms[0].key, false)), w, e);
  }

  lemma {:induction false} ReadMemberValueWritten(
      ms: seq<Member>, done: seq<Member>, rest: Bytes, depth: nat, w: Style, e: Env, s: Bytes, t: Bytes)
    requires ms != [] && MembersWritable(done, ms, e.f) && Agree(w, e.f) && (w.dropNull ==> NoLoneNullMembers(ms))
               && depth <= e.f.stackLimit
    requires var after := WriteMoreMembers(ms[1..], w) + ([RBRACE] + rest);
             var key := Repaired(ms[0].key, false);
             && ColonThen(s, t, depth + 1, GetMember(done, key), e)
             && ReadValue(t, depth + 1, GetMember(done, key), e)
             == Expected(ReadBack(ms[0].value), after, depth + 1, Height(ms[0].value) - 1, e.f)
    ensures ReadMember(s, depth, Repaired(ms[0].key, false), done, e)
         == Expected(Obj(StoreAll(done, ms)), rest, depth, MembersHeight(ms), e.f)
    decreases ms, 0, 1
  {
    var v, x, key := ms[0].value, ReadBack(ms[0].value), Repaired(ms[0].key, false);
    if depth + Height(v) > e.f.stackLimit {
      MemberThrows(s, t, depth, key, done, e);
    } else if ms[1..] == [] {
      var after := WriteMoreMembers(ms[1..], w) + ([RBRACE] + rest);
      MoreMembersText(ms[1..], w, rest);
      MemberEnds(s, t, x, after, rest, depth, key, done, e);
    } else {
      ReadMoreMembersWritten(ms, done, rest, depth, w, e, s, t);
    }
  }

  lemma {:induction false} ReadMoreMembersWritten(
      ms: seq<Member>, done: seq<Member>, rest: Bytes, depth: nat, w: Style, e: Env, s: Bytes, t: Bytes)
    requires |ms| > 1 && MembersWritable(done, ms, e.f) && Agree(w, e.f) && (w.dropNull ==> NoLoneNullMembers(ms))
               && depth + Height(ms[0].value) <= e.f.stackLimit
    requires var after := WriteMoreMembers(ms[1..], w) + ([RBRACE] + rest);
             var key := Repaired(ms[0].key, false);
             && ColonThen(s, t, depth + 1, GetMember(done, key), e)
             && ReadValue(t, depth + 1, GetMember(done, key), e) == Done(true, ReadBack(ms[0].value), after, [])
    ensures ReadMember(s, depth, Repaired(ms[0].key, false), done, e)
         == Expected(Obj(StoreAll(done, ms)), rest, depth, MembersHeight(ms), e.f)
    decreases ms, 0, 0
  {
    var v, x, key := ms[0].value, ReadBack(ms[0].value), Repaired(ms[0].key, false);
    var after := WriteMoreMembers(ms[1..], w) + ([RBRACE] + rest);
    MoreMembersText(ms[1..], w, rest);
    MemberContinues(s, t, x, after, WriteMembers(ms[1..], w) + ([RBRACE] + rest), depth, key, done, e);
    ReadMembersWritten(ms[1..], SetMember(done, key, x), key, rest, depth, w, e);
    ExpectedMax(Obj(StoreAll(done, ms)), rest, depth, Height(v), MembersHeight(ms[1..]), e.f);
  }

  /** A colon token after which a value reads as it does from `t`. */
  predicate ColonThen(s: Bytes, t: Bytes, depth: nat, v0: Value, e: Env) {
    var colon := Lex(s, e.f);
    colon.token.kind == MemberSeparator && ReadValue(colon.rest, depth, v0, e) == ReadValue(t, depth, v0, e)
  }

  /** The colon, with or without the blank after it. */
  lemma {:induction false} ColonWritten(t: Bytes, depth: nat, v0: Value, w: Style, e: Env)
    ensures ColonThen(Separator(w) + t, t, depth, v0, e)
  {
    if w.yaml {
      Associate([COLON], [SPACE], t);
      assert [COLON] + [SPACE] == Separator(w);
      LexPunctuation(COLON, MemberSeparator, [SPACE] + t, e.f);
      BlankBefore(t, depth, v0, e);
    } else {
      LexPunctuation(COLON, MemberSeparator, t, e.f);
    }
  }

  lemma {:induction false} BlankBefore(s: Bytes, depth: nat, v0: Value, e: Env)
    ensures ReadValue([SPACE] + s, depth, v0, e) == ReadValue(s, depth, v0, e)
  {
    assert ([SPACE] + s)[1..] == s;
    assert Lex([SPACE] + s, e.f) == Lex(s, e.f);
  }

  // ---------- Whole documents ----------

  lemma {:induction false} EndOfDocument(w: Style, e: Env)
    ensures Delimited(LineEnd(w))
    ensures SkipCommentTokens(LineEnd(w), e.f) == Lexed(true, Token(EndOfStream, []), [])
  {
    assert [LINE_FEED][1..] == [];
    assert LexCharacter([LINE_FEED], e.f) == Lex([], e.f);
  }

  /**
    Reading a written document, for every tree without reals, every setting of the reader and
    either line-end and colon style of the writer: the tree comes back as `ReadBack` says, unless
    it is higher than the stack limit, and then the reader throws. Only a strict-root reader
    refuses a scalar. The writer may drop nulls if the reader supplies them.
   */
  lemma {:induction false} ParseWritten(v: Value, root: Value, w: Style, e: Env)
    requires Writable(v, e.f) && Agree(w, e.f) && (w.dropNull ==> NoLoneNull(v) && !v.Null?)
    ensures Parse(Document(v, w), root, e)
         == if Height(v) > e.f.stackLimit then Thrown(StackLimitExceeded)
            else if e.f.strictRoot && !IsContainer(v) then Done(false, ReadBack(v), [], [RootNotContainer])
            else Done(true, ReadBack(v), [], [])
  {
    NoBom(v, w, e.f);
    EndOfDocument(w, e);
    ReadWritten(v, LineEnd(w), 1, root, w, e);
    SameShape(v);
    if Height(v) > e.f.stackLimit {
      ParseThrows(Document(v, w), root, e);
    } else {
      ParseDone(Document(v, w), root, e, ReadBack(v), LineEnd(w));
    }
  }

  lemma {:induction false} SameShape(v: Value)
    ensures IsContainer(ReadBack(v)) == IsContainer(v)
  {
  }

  lemma {:induction false} NoBom(v: Value, w: Style, f: Features)
    requires !v.Real? && !(w.dropNull && v.Null?)
    ensures SkipBom(Document(v, w), f) == Document(v, w)
  {
    FirstByte(v, w);
    assert Document(v, w)[0] == Write(v, w)[0];
  }

  lemma {:induction false} ParseThrows(document: Bytes, root: Value, e: Env)
    requires SkipBom(document, e.f) == document && ReadValue(document, 1, root, e).Thrown?
    ensures Parse(document, root, e) == ReadValue(document, 1, root, e)
  {
  }

  lemma {:induction false} ParseDone(document: Bytes, root: Value, e: Env, value: Value, end: Bytes)
    requires SkipBom(document, e.f) == document && ReadValue(document, 1, root, e) == Done(true, value, end, [])
    requires SkipCommentTokens(end, e.f) == Lexed(true, Token(EndOfStream, []), [])
    ensures Parse(document, root, e)
         == if e.f.strictRoot && !IsContainer(value) then Done(false, value, [], [RootNotContainer])
            else Done(true, value, [], [])
  {
    assert [] + [RootNotContainer] == [RootNotContainer];
  }
}
