/** What holds of every run of the reader, on every input and every setting. */
module JsonReaderFacts {
  import opened JsonStrings
  import opened JsonValues
  import opened JsonReader

  // ---------- Trees the reader may build ----------

  /** Every object in the tree keeps its members in strictly increasing key order. */
  predicate Ordered(v: Value) {
    match v
    case Arr(items) => ItemsOrdered(items)
    case Obj(members) => SortedKeys(members) && MembersOrdered(members)
    case _ => true
  }

  predicate ItemsOrdered(items: seq<Value>) {
    items == [] || (Ordered(items[0]) && ItemsOrdered(items[1..]))
  }

  predicate MembersOrdered(ms: seq<Member>) {
    ms == [] || (Ordered(ms[0].value) && MembersOrdered(ms[1..]))
  }

  /** A tree that fits in `h` levels. */
  predicate Fits(v: Value, h: int) { Height(v) <= h && Ordered(v) }

  predicate ItemsFit(items: seq<Value>, h: int) { ItemsHeight(items) <= h && ItemsOrdered(items) }

  predicate MembersFit(ms: seq<Member>, h: int) {
    MembersHeight(ms) <= h && MembersOrdered(ms) && SortedKeys(ms)
  }

  lemma {:induction false} AppendItem(items: seq<Value>, v: Value, h: int)
    requires ItemsFit(items, h) && Fits(v, h)
    ensures ItemsFit(items + [v], h)
  {
    if items == [] {
      assert ([] + [v])[1..] == [];
    } else {
      AppendItem(items[1..], v, h);
      assert (items + [v])[1..] == items[1..] + [v];
    }
  }

  lemma {:induction false} SetMemberFits(ms: seq<Member>, key: Bytes, v: Value, h: int)
    requires MembersHeight(ms) <= h && MembersOrdered(ms) && Fits(v, h)
    ensures MembersHeight(SetMember(ms, key, v)) <= h && MembersOrdered(SetMember(ms, key, v))
  {
    if ms == [] {
      assert [Member(key, v)][1..] == [];
    } else if ms[0].key == key {
      assert ([Member(key, v)] + ms[1..])[1..] == ms[1..];
    } else if KeyLess(key, ms[0].key) {
      assert ([Member(key, v)] + ms)[1..] == ms;
    } else {
      SetMemberFits(ms[1..], key, v, h);
      var tail := SetMember(ms[1..], key, v);
      assert ([ms[0]] + tail)[1..] == tail;
    }
  }

  lemma {:induction false} StoreFits(ms: seq<Member>, key: Bytes, v: Value, h: int)
    requires MembersFit(ms, h) && Fits(v, h)
    ensures MembersFit(SetMember(ms, key, v), h)
  {
    SetMemberFits(ms, key, v, h);
    SetMemberSorted(ms, key, v);
  }

  lemma {:induction false} GetMemberFits(ms: seq<Member>, key: Bytes, h: int)
    requires MembersHeight(ms) <= h && MembersOrdered(ms) && 1 <= h
    ensures Fits(GetMember(ms, key), h)
  {
    if ms != [] && ms[0].key != key {
      GetMemberFits(ms[1..], key, h);
    }
  }

  // ---------- The invariant of a run ----------

  /**
    A call at depth `depth` that does not throw fails exactly when it reports errors, and leaves a
    tree that fits in the levels the stack limit still allows.
   */
  predicate Sound(r: Outcome, depth: nat, limit: nat) {
    r.Done? ==> (r.ok <==> r.errors == []) && Fits(r.value, limit - depth + 1)
  }

  lemma {:induction false} ScalarSound(t: Lexed, v0: Value, e: Env, depth: nat, limit: nat)
    requires t.token.kind == StringToken ==> |t.token.text| >= 2
    requires t.token.kind == NumberToken ==> t.token.text != []
    requires depth <= limit && Fits(v0, limit - depth + 1)
    ensures Sound(ReadScalar(t, v0, e), depth, limit)
  {
    var r := ReadScalar(t, v0, e);
    assert r.value == v0 || r.value.Null? || r.value.Bool? || r.value.Int? || r.value.UInt? || r.value.Real?
             || r.value.Str?;
  }

  lemma {:induction false} ReadValueSound(s: Bytes, depth: nat, v0: Value, e: Env)
    requires depth <= e.f.stackLimit ==> Fits(v0, e.f.stackLimit - depth + 1)
    ensures Sound(ReadValue(s, depth, v0, e), depth, e.f.stackLimit)
    decreases |s|, 1
  {
    if depth <= e.f.stackLimit {
      ReadWithinLimitSound(s, depth, v0, e);
    }
  }

  lemma {:induction false} ReadWithinLimitSound(s: Bytes, depth: nat, v0: Value, e: Env)
    requires depth <= e.f.stackLimit && Fits(v0, e.f.stackLimit - depth + 1)
    ensures Sound(ReadWithinLimit(s, depth, v0, e), depth, e.f.stackLimit)
    decreases |s|, 0
  {
    var t := SkipCommentTokens(s, e.f);
    if t.token.kind == ObjectBegin {
      ReadObjectSound(t.rest, depth, [], [], e);
    } else if t.token.kind == ArrayBegin {
      ReadArraySound(t.rest, depth, [], e);
    } else if !(EndsValue(t.token.kind) && e.f.allowDroppedNullPlaceholders) {
      ScalarSound(t, v0, e, depth, e.f.stackLimit);
    }
  }

  lemma {:induction false} ReadArraySound(s: Bytes, depth: nat, items: seq<Value>, e: Env)
    requires depth <= e.f.stackLimit && ItemsFit(items, e.f.stackLimit - depth)
    ensures Sound(ReadArray(s, depth, items, e), depth, e.f.stackLimit)
    decreases |s|, 4
  {
    ReadElementSound(SkipSpaces(s), depth, items, e);
  }

  lemma {:induction false} ReadElementSound(s: Bytes, depth: nat, items: seq<Value>, e: Env)
    requires depth <= e.f.stackLimit && ItemsFit(items, e.f.stackLimit - depth)
    ensures Sound(ReadElement(s, depth, items, e), depth, e.f.stackLimit)
    decreases |s|, 3
  {
    var v := ReadValue(s, depth + 1, Null, e);
    ReadValueSound(s, depth + 1, Null, e);
    if v.Done? {
      AppendItem(items, v.value, e.f.stackLimit - depth);
      AfterElementSound(v.rest, depth, items + [v.value], e);
    }
  }

  lemma {:induction false} AfterElementSound(s: Bytes, depth: nat, items: seq<Value>, e: Env)
    requires depth <= e.f.stackLimit && ItemsFit(items, e.f.stackLimit - depth)
    ensures Sound(AfterElement(s, depth, items, e), depth, e.f.stackLimit)
    decreases |s|, 2
  {
    var t := LexPastComments(s, e.f);
    if t.token.kind == ArraySeparator {
      ReadArraySound(t.rest, depth, items, e);
    }
  }

  lemma {:induction false} ReadObjectSound(s: Bytes, depth: nat, name: Bytes, ms: seq<Member>, e: Env)
    requires depth <= e.f.stackLimit && MembersFit(ms, e.f.stackLimit - depth)
    ensures Sound(ReadObject(s, depth, name, ms, e), depth, e.f.stackLimit)
    decreases |s|, 5
  {
    ReadNamedSound(LexPastComments(s, e.f), depth, ms, e);
  }

  lemma {:induction false} ReadNamedSound(t: Lexed, depth: nat, ms: seq<Member>, e: Env)
    requires t.token.kind == StringToken ==> |t.token.text| >= 2
    requires t.token.kind == NumberToken ==> t.token.text != []
    requires depth <= e.f.stackLimit && MembersFit(ms, e.f.stackLimit - depth)
    ensures Sound(ReadNamed(t, depth, ms, e), depth, e.f.stackLimit)
    decreases |t.rest|, 4
  {
    var n := ReadName(t.token, e);
    if n.GoodName? {
      ReadMemberSound(t.rest, depth, n.key, ms, e);
    }
  }

  lemma {:induction false} ReadMemberSound(s: Bytes, depth: nat, key: Bytes, ms: seq<Member>, e: Env)
    requires depth <= e.f.stackLimit && MembersFit(ms, e.f.stackLimit - depth)
    ensures Sound(ReadMember(s, depth, key, ms, e), depth, e.f.stackLimit)
    decreases |s|, 3
  {
    var colon := Lex(s, e.f);
    if colon.token.kind == MemberSeparator {
      ReadMemberValueSound(colon.rest, depth, key, ms, e);
    }
  }

  lemma {:induction false} ReadMemberValueSound(s: Bytes, depth: nat, key: Bytes, ms: seq<Member>, e: Env)
    requires depth <= e.f.stackLimit && MembersFit(ms, e.f.stackLimit - depth)
    ensures Sound(ReadMemberValue(s, depth, key, ms, e), depth, e.f.stackLimit)
    decreases |s|, 2
  {
    var h := e.f.stackLimit - depth;
    if 1 <= h {
      GetMemberFits(ms, key, h);
    }
    var v := ReadValue(s, depth + 1, GetMember(ms, key), e);
    ReadValueSound(s, depth + 1, GetMember(ms, key), e);
    if v.Done? {
      StoreFits(ms, key, v.value, h);
      AfterMemberSound(v.rest, depth, key, SetMember(ms, key, v.value), e);
    }
  }

  lemma {:induction false} AfterMemberSound(s: Bytes, depth: nat, key: Bytes, ms: seq<Member>, e: Env)
    requires depth <= e.f.stackLimit && MembersFit(ms, e.f.stackLimit - depth)
    ensures Sound(AfterMember(s, depth, key, ms, e), depth, e.f.stackLimit)
    decreases |s|, 1
  {
    var t := Lex(s, e.f);
    if t.token.kind == ArraySeparator {
      ReadObjectSound(t.rest, depth, key, ms, e);
    } else if t.token.kind == CommentToken {
      ReadObjectSound(LexPastComments(t.rest, e.f).rest, depth, key, ms, e);
    }
  }

  /**
    On every document and every setting, a parse into a fresh root that does not throw returns
    success exactly when no error was recorded, and builds a tree with ordered objects that is no
    higher than the stack limit.
   */
  lemma {:induction false} ParseSound(document: Bytes, e: Env)
    ensures var r := Parse(document, Null, e);
            r.Done? ==> (r.ok <==> r.errors == []) && Fits(r.value, e.f.stackLimit)
  {
    ReadValueSound(SkipBom(document, e.f), 1, Null, e);
  }
}
