/** Written text that the reader refuses, or from which it drops nulls. */
module JsonRefusals {
  import opened JsonStrings
  import opened JsonValues
  import opened JsonReader
  import opened JsonWriter
  import opened JsonRoundTrip
  import opened Sequences

  /** No reals. */
  predicate Plain(v: Value) {
    match v
    case Real(_) => false
    case Arr(items) => ItemsPlain(items)
    case Obj(members) => MembersPlain(members)
    case _ => true
  }

  predicate ItemsPlain(items: seq<Value>) {
    items == [] || (Plain(items[0]) && ItemsPlain(items[1..]))
  }

  predicate MembersPlain(ms: seq<Member>) {
    ms == [] || (Plain(ms[0].value) && MembersPlain(ms[1..]))
  }

  predicate Refused(o: Outcome) { o.Thrown? || !o.ok }

  // ---------- One step that refuses ----------

  lemma {:induction false} ArrayRefuses(s: Bytes, depth: nat, items: seq<Value>, e: Env)
    requires StartsElement(s, items, e.f) && Refused(ReadValue(s, depth + 1, Null, e))
    ensures Refused(ReadArray(s, depth, items, e))
  {
    assert SkipSpaces(s) == s;
  }

  /** A key that is too long throws; one that is taken, where that matters, ends the object. */
  lemma {:induction false} NameRefuses(name: Bytes, key: Bytes, t: Bytes, depth: nat, ms: seq<Member>, e: Env)
    requires |Repaired(key, false)| >= KEY_LIMIT || (e.f.rejectDupKeys && HasMember(ms, Repaired(key, false)))
    ensures Refused(ReadObject(Quoted(key, false) + t, depth, name, ms, e))
  {
    var q := Quoted(key, false);
    LexQuoted(key, t, e.f);
    assert LexPastComments(q + t, e.f) == Lexed(true, Token(StringToken, q), t);
  }

  lemma {:induction false} MemberRefuses(s: Bytes, t: Bytes, depth: nat, key: Bytes, ms: seq<Member>, e: Env)
    requires ColonThen(s, t, depth + 1, GetMember(ms, key), e)
    requires Refused(ReadValue(t, depth + 1, GetMember(ms, key), e))
    ensures Refused(ReadMember(s, depth, key, ms, e))
  {
  }

  lemma {:induction false} ParseRefuses(document: Bytes, root: Value, e: Env)
    requires SkipBom(document, e.f) == document && Refused(ReadValue(document, 1, root, e))
    ensures Refused(Parse(document, root, e))
  {
  }

  // ---------- Trees with a key that the reader does not take ----------

  lemma {:induction false} ReadUnwritable(v: Value, rest: Bytes, depth: nat, v0: Value, w: Style, e: Env)
    requires Plain(v) && !Writable(v, e.f) && Agree(w, e.f) && (w.dropNull ==> NoLoneNull(v))
    ensures Refused(ReadValue(Write(v, w) + rest, depth, v0, e))
    decreases v, 2
  {
    if depth > e.f.stackLimit {
    } else if v.Arr? {
      ArrayText(v.items, rest, depth, v0, w, e);
      ReadItemsUnwritable(v.items, [], rest, depth, w, e);
    } else {
      ObjectText(v.members, rest, depth, v0, w, e);
      ReadMembersUnwritable(v.members, [], [], rest, depth, w, e);
    }
  }

  lemma {:induction false} ReadItemsUnwritable(
      items: seq<Value>, done: seq<Value>, rest: Bytes, depth: nat, w: Style, e: Env)
    requires ItemsPlain(items) && !ItemsWritable(items, e.f) && Agree(w, e.f) && depth <= e.f.stackLimit
    requires w.dropNull ==> NoLoneNulls(items) && (done != [] || items != [Null])
    ensures Refused(ReadArray(WriteItems(items, w) + ([RBRACKET] + rest), depth, done, e))
    decreases items, 1
  {
    var s := WriteItems(items, w) + ([RBRACKET] + rest);
    var after := WriteMoreItems(items[1..], w) + ([RBRACKET] + rest);
    ItemsText(items, done, w, e.f, rest);
    if !Writable(items[0], e.f) {
      ReadUnwritable(items[0], after, depth + 1, Null, w, e);
      ArrayRefuses(s, depth, done, e);
    } else {
      MoreItemsText(items[1..], w, rest);
      ReadWritten(items[0], after, depth + 1, Null, w, e);
      ReadOtherItemsUnwritable(items, done, rest, depth, w, e, s);
    }
  }

  /** The first element is read back, or throws; another one has to be refused. */
  lemma {:induction false} ReadOtherItemsUnwritable(
      items: seq<Value>, done: seq<Value>, rest: Bytes, depth: nat, w: Style, e: Env, s: Bytes)
    requires items != [] && ItemsPlain(items) && !ItemsWritable(items[1..], e.f) && Agree(w, e.f)
    requires depth <= e.f.stackLimit && (w.dropNull ==> NoLoneNulls(items)) && StartsElement(s, done, e.f)
    requires var after := WriteMoreItems(items[1..], w) + ([RBRACKET] + rest);
             ReadValue(s, depth + 1, Null, e)
             == Expected(ReadBack(items[0]), after, depth + 1, Height(items[0]) - 1, e.f)
    ensures Refused(ReadArray(s, depth, done, e))
    decreases items, 0
  {
    var v, x := items[0], ReadBack(items[0]);
    if depth + Height(v) > e.f.stackLimit {
      ArrayThrows(s, depth, done, e);
    } else {
      var after := WriteMoreItems(items[1..], w) + ([RBRACKET] + rest);
      MoreItemsText(items[1..], w, rest);
      ArrayContinues(s, x, after, WriteItems(items[1..], w) + ([RBRACKET] + rest), depth, done, e);
      ReadItemsUnwritable(items[1..], done + [x], rest, depth, w, e);
    }
  }

  predicate KeyTaken(key: Bytes, done: seq<Member>, f: Features) {
    |key| < KEY_LIMIT && (f.rejectDupKeys ==> !HasMember(done, key))
  }

  lemma {:induction false} ReadMembersUnwritable(
      ms: seq<Member>, done: seq<Member>, name: Bytes, rest: Bytes, depth: nat, w: Style, e: Env)
    requires MembersPlain(ms) && !MembersWritable(done, ms, e.f) && Agree(w, e.f) && depth <= e.f.stackLimit
    requires w.dropNull ==> NoLoneNullMembers(ms)
    ensures Refused(ReadObject(WriteMembers(ms, w) + ([RBRACE] + rest), depth, name, done, e))
    decreases ms, 1
  {
    var key := Repaired(ms[0].key, false);
    MembersText(ms, w, rest);
    if KeyTaken(key, done, e.f) {
      ReadNameWritten(name, ms[0].key, MemberBody(ms, w, rest), depth, done, e);
      ReadMemberUnwritable(ms, done, rest, depth, w, e, key);
    } else {
      NameRefuses(name, ms[0].key, MemberBody(ms, w, rest), depth, done, e);
    }
  }

  lemma {:induction false} ReadMemberUnwritable(
      ms: seq<Member>, done: seq<Member>, rest: Bytes, depth: nat, w: Style, e: Env, key: Bytes)
    requires ms != [] && MembersPlain(ms) && Agree(w, e.f) && depth <= e.f.stackLimit
    requires w.dropNull ==> NoLoneNullMembers(ms)
    requires !Writable(ms[0].value, e.f) ||
             !MembersWritable(SetMember(done, key, ReadBack(ms[0].value)), ms[1..], e.f)
    ensures Refused(ReadMember(MemberBody(ms, w, rest), depth, key, done, e))
    decreases ms, 0, 1
  {
    var after := WriteMoreMembers(ms[1..], w) + ([RBRACE] + rest);
    var t := Write(ms[0].value, w) + after;
    ColonWritten(t, depth + 1, GetMember(done, key), w, e);
    if !Writable(ms[0].value, e.f) {
      ReadUnwritable(ms[0].value, after, depth + 1, GetMember(done, key), w, e);
      MemberRefuses(MemberBody(ms, w, rest), t, depth, key, done, e);
    } else {
      MoreMembersText(ms[1..], w, rest);
      ReadWritten(ms[0].value, after, depth + 1, GetMember(done, key), w, e);
      ReadOtherMembersUnwritable(ms, done, rest, depth, w, e, key, MemberBody(ms, w, rest), t);
    }
  }

  /** The first member is read back, or throws; another one has to be refused. */
  lemma {:induction false} ReadOtherMembersUnwritable(
      ms: seq<Member>, done: seq<Member>, rest: Bytes, depth: nat, w: Style, e: Env, key: Bytes, s: Bytes, t: Bytes)
    requires ms != [] && MembersPlain(ms) && Agree(w, e.f) && depth <= e.f.stackLimit
    requires w.dropNull ==> NoLoneNullMembers(ms)
    requires !MembersWritable(SetMember(done, key, ReadBack(ms[0].value)), ms[1..], e.f)
    requires ColonThen(s, t, depth + 1, GetMember(done, key), e)
    requires var after := WriteMoreMembers(ms[1..], w) + ([RBRACE] + rest);
             ReadValue(t, depth + 1, GetMember(done, key), e)
             == Expected(ReadBack(ms[0].value), after, depth + 1, Height(ms[0].value) - 1, e.f)
    ensures Refused(ReadMember(s, depth, key, done, e))
    decreases ms, 0, 0
  {
    var v, x := ms[0].value, ReadBack(ms[0].value);
    if depth + Height(v) > e.f.stackLimit {
      MemberThrows(s, t, depth, key, done, e);
    } else {
      var after := WriteMoreMembers(ms[1..], w) + ([RBRACE] + rest);
      MoreMembersText(ms[1..], w, rest);
      MemberContinues(s, t, x, after, WriteMembers(ms[1..], w) + ([RBRACE] + rest), depth, key, done, e);
      ReadMembersUnwritable(ms[1..], SetMember(done, key, x), key, rest, depth, w, e);
    }
  }

  // ---------- A reader that does not supply the nulls the writer dropped ----------

  predicate NoNull(v: Value) {
    match v
    case Null => false
    case Arr(items) => NoNulls(items)
    case Obj(members) => NoNullMembers(members)
    case _ => true
  }

  predicate NoNulls(items: seq<Value>) {
    items == [] || (NoNull(items[0]) && NoNulls(items[1..]))
  }

  predicate NoNullMembers(ms: seq<Member>) {
    ms == [] || (NoNull(ms[0].value) && NoNullMembers(ms[1..]))
  }

  lemma {:induction false} NoNullsGrow(items: seq<Value>, x: Value)
    requires NoNulls(items) && NoNull(x)
    ensures NoNulls(items + [x])
  {
    if items == [] {
      assert ([] + [x])[1..] == [];
    } else {
      assert (items + [x])[1..] == items[1..] + [x];
      NoNullsGrow(items[1..], x);
    }
  }

  lemma {:induction false} NoNullStored(ms: seq<Member>, key: Bytes, x: Value)
    requires NoNullMembers(ms) && NoNull(x)
    ensures NoNullMembers(SetMember(ms, key, x))
  {
    var m := Member(key, x);
    if ms == [] {
      assert [m][1..] == [];
    } else if ms[0].key == key {
      assert ([m] + ms[1..])[1..] == ms[1..];
    } else if KeyLess(key, ms[0].key) {
      assert ([m] + ms)[1..] == ms;
    } else {
      NoNullStored(ms[1..], key, x);
      var tail := SetMember(ms[1..], key, x);
      assert ([ms[0]] + tail)[1..] == tail;
    }
  }

  /** The nulls are lost to this reader. */
  predicate Loses(w: Style, f: Features) { w.dropNull && !f.allowDroppedNullPlaceholders }

  /** Refused, or read up to `rest` without a null. */
  predicate Nullless(o: Outcome, rest: Bytes) { Refused(o) || (o.rest == rest && NoNull(o.value)) }

  lemma {:induction false} NothingIsRefused(rest: Bytes, depth: nat, v0: Value, e: Env)
    requires Enclosed(rest) && !e.f.allowDroppedNullPlaceholders
    ensures Refused(ReadValue(rest, depth, v0, e))
  {
    var c := rest[0];
    var kind := if c == COMMA then ArraySeparator else if c == RBRACKET then ArrayEnd else ObjectEnd;
    HeadTail(rest);
    LexPunctuation(c, kind, rest[1..], e.f);
    assert SkipCommentTokens(rest, e.f) == Lexed(true, Token(kind, [c]), rest[1..]);
  }

  /** Whatever such a reader makes of a written value has no nulls in it. */
  lemma {:induction false} ReadLosing(v: Value, rest: Bytes, depth: nat, v0: Value, w: Style, e: Env)
    requires Plain(v) && Loses(w, e.f) && HasRoom(v, rest, w)
    ensures Nullless(ReadValue(Write(v, w) + rest, depth, v0, e), rest)
    decreases v, 2
  {
    if depth > e.f.stackLimit {
    } else if v.Null? {
      assert [] + rest == rest;
      NothingIsRefused(rest, depth, v0, e);
    } else if v.Arr? {
      ArrayText(v.items, rest, depth, v0, w, e);
      if v.items == [] {
        CloseEmptyArray(rest, depth, [], w, e);
      } else {
        ReadItemsLosing(v.items, [], rest, depth, w, e);
      }
    } else if v.Obj? {
      ObjectText(v.members, rest, depth, v0, w, e);
      if v.members == [] {
        assert [] + ([RBRACE] + rest) == [RBRACE] + rest;
        LexPunctuation(RBRACE, ObjectEnd, rest, e.f);
      } else {
        ReadMembersLosing(v.members, [], [], rest, depth, w, e);
      }
    } else {
      ReadScalarWritten(v, rest, depth, v0, w, e);
    }
  }

  /** A bracket that closes an array at once. */
  lemma {:induction false} CloseEmptyArray(rest: Bytes, depth: nat, done: seq<Value>, w: Style, e: Env)
    requires ClosesArray([RBRACKET] + rest, done, e.f)
    ensures ReadArray([] + ([RBRACKET] + rest), depth, done, e) == Done(true, Arr(done), rest, [])
  {
    var s := [RBRACKET] + rest;
    assert [] + s == s;
    assert SkipSpaces(s) == s && s[1..] == rest;
  }

  lemma {:induction false} ReadItemsLosing(
      items: seq<Value>, done: seq<Value>, rest: Bytes, depth: nat, w: Style, e: Env)
    requires items != [] && ItemsPlain(items) && Loses(w, e.f) && NoNulls(done)
    ensures Nullless(ReadArray(WriteItems(items, w) + ([RBRACKET] + rest), depth, done, e), rest)
    decreases items, 1
  {
    if items == [Null] && ClosesArray([RBRACKET] + rest, done, e.f) {
      assert WriteItems(items, w) == [];
      CloseEmptyArray(rest, depth, done, w, e);
    } else {
      ItemsText(items, done, w, e.f, rest);
      ReadItemLosing(items, done, rest, depth, w, e, WriteItems(items, w) + ([RBRACKET] + rest));
    }
  }

  lemma {:induction false} ReadItemLosing(
      items: seq<Value>, done: seq<Value>, rest: Bytes, depth: nat, w: Style, e: Env, s: Bytes)
    requires items != [] && ItemsPlain(items) && Loses(w, e.f) && NoNulls(done)
    requires s == Write(items[0], w) + (WriteMoreItems(items[1..], w) + ([RBRACKET] + rest))
    requires StartsElement(s, done, e.f)
    ensures Nullless(ReadArray(s, depth, done, e), rest)
    decreases items, 0
  {
    var after := WriteMoreItems(items[1..], w) + ([RBRACKET] + rest);
    MoreItemsText(items[1..], w, rest);
    ReadLosing(items[0], after, depth + 1, Null, w, e);
    var o := ReadValue(s, depth + 1, Null, e);
    if Refused(o) {
      ArrayRefuses(s, depth, done, e);
    } else {
      NoNullsGrow(done, o.value);
      if items[1..] == [] {
        ArrayEnds(s, o.value, after, rest, depth, done, e);
      } else {
        ArrayContinues(s, o.value, after, WriteItems(items[1..], w) + ([RBRACKET] + rest), depth, done, e);
        ReadItemsLosing(items[1..], done + [o.value], rest, depth, w, e);
      }
    }
  }

  lemma {:induction false} ReadMembersLosing(
      ms: seq<Member>, done: seq<Member>, name: Bytes, rest: Bytes, depth: nat, w: Style, e: Env)
    requires ms != [] && MembersPlain(ms) && Loses(w, e.f) && NoNullMembers(done)
    ensures Nullless(ReadObject(WriteMembers(ms, w) + ([RBRACE] + rest), depth, name, done, e), rest)
    decreases ms, 1
  {
    var key := Repaired(ms[0].key, false);
    MembersText(ms, w, rest);
    if KeyTaken(key, done, e.f) {
      ReadNameWritten(name, ms[0].key, MemberBody(ms, w, rest), depth, done, e);
      ReadMemberLosing(ms, done, rest, depth, w, e, key);
    } else {
      NameRefuses(name, ms[0].key, MemberBody(ms, w, rest), depth, done, e);
    }
  }

  lemma {:induction false} ReadMemberLosing(
      ms: seq<Member>, done: seq<Member>, rest: Bytes, depth: nat, w: Style, e: Env, key: Bytes)
    requires ms != [] && MembersPlain(ms) && Loses(w, e.f) && NoNullMembers(done)
    ensures Nullless(ReadMember(MemberBody(ms, w, rest), depth, key, done, e), rest)
    decreases ms, 0, 1
  {
    var after := WriteMoreMembers(ms[1..], w) + ([RBRACE] + rest);
    var t := Write(ms[0].value, w) + after;
    ColonWritten(t, depth + 1, GetMember(done, key), w, e);
    MoreMembersText(ms[1..], w, rest);
    ReadLosing(ms[0].value, after, depth + 1, GetMember(done, key), w, e);
    ReadOtherMembersLosing(ms, done, rest, depth, w, e, key, MemberBody(ms, w, rest), t);
  }

  lemma {:induction false} ReadOtherMembersLosing(
      ms: seq<Member>, done: seq<Member>, rest: Bytes, depth: nat, w: Style, e: Env, key: Bytes, s: Bytes, t: Bytes)
    requires ms != [] && MembersPlain(ms) && Loses(w, e.f) && NoNullMembers(done)
    requires ColonThen(s, t, depth + 1, GetMember(done, key), e)
    requires var after := WriteMoreMembers(ms[1..], w) + ([RBRACE] + rest);
             Nullless(ReadValue(t, depth + 1, GetMember(done, key), e), after)
    ensures Nullless(ReadMember(s, depth, key, done, e), rest)
    decreases ms, 0, 0
  {
    var after := WriteMoreMembers(ms[1..], w) + ([RBRACE] + rest);
    MoreMembersText(ms[1..], w, rest);
    var o := ReadValue(t, depth + 1, GetMember(done, key), e);
    if Refused(o) {
      MemberRefuses(s, t, depth, key, done, e);
    } else {
      NoNullStored(done, key, o.value);
      if ms[1..] == [] {
        MemberEnds(s, t, o.value, after, rest, depth, key, done, e);
      } else {
        MemberContinues(s, t, o.value, after, WriteMembers(ms[1..], w) + ([RBRACE] + rest), depth, key, done, e);
        ReadMembersLosing(ms[1..], SetMember(done, key, o.value), key, rest, depth, w, e);
      }
    }
  }

  // ---------- What dropping nulls does to the text ----------

  /** Without nulls there is nothing to drop. */
  lemma {:induction false} NothingToDrop(v: Value, w: Style)
    requires NoNull(v)
    ensures Write(v, w) == Write(v, w.(dropNull := false))
  {
    match v
    case Arr(items) =>
      if items != [] { NothingToDrop(items[0], w); NothingToDropMore(items[1..], w); }
    case Obj(members) =>
      if members != [] {
        NothingToDrop(members[0].value, w);
        NothingToDropMembers(members[1..], w);
        assert WriteMembers(members, w) == WriteMembers(members, w.(dropNull := false));
      }
    case _ =>
  }

  lemma {:induction false} NothingToDropMore(items: seq<Value>, w: Style)
    requires NoNulls(items)
    ensures WriteMoreItems(items, w) == WriteMoreItems(items, w.(dropNull := false))
  {
    if items != [] { NothingToDrop(items[0], w); NothingToDropMore(items[1..], w); }
  }

  lemma {:induction false} NothingToDropMembers(ms: seq<Member>, w: Style)
    requires NoNullMembers(ms)
    ensures WriteMoreMembers(ms, w) == WriteMoreMembers(ms, w.(dropNull := false))
  {
    if ms != [] { NothingToDrop(ms[0].value, w); NothingToDropMembers(ms[1..], w); }
  }

  /** The tree with every array of a single null emptied. */
  function Emptied(v: Value): Value {
    match v
    case Arr(items) => if items == [Null] then Arr([]) else Arr(EmptiedItems(items))
    case Obj(members) => Obj(EmptiedMembers(members))
    case _ => v
  }

  function EmptiedItems(items: seq<Value>): seq<Value> {
    if items == [] then [] else [Emptied(items[0])] + EmptiedItems(items[1..])
  }

  function EmptiedMembers(ms: seq<Member>): seq<Member> {
    if ms == [] then [] else [Member(ms[0].key, Emptied(ms[0].value))] + EmptiedMembers(ms[1..])
  }

  /** A writer that drops nulls cannot tell the two apart. */
  lemma {:induction false} EmptiedWritesAlike(v: Value, w: Style)
    requires w.dropNull
    ensures Write(Emptied(v), w) == Write(v, w)
  {
    match v
    case Arr(items) =>
      if items == [Null] {
        assert items[1..] == [];
        assert WriteItems(items, w) == WriteItems([], w);
      } else if items != [] {
        EmptiedWritesAlike(items[0], w);
        EmptiedItemsAlike(items[1..], w);
        assert EmptiedItems(items)[1..] == EmptiedItems(items[1..]);
      }
    case Obj(members) =>
      if members != [] {
        EmptiedWritesAlike(members[0].value, w);
        EmptiedMembersAlike(members[1..], w);
        assert EmptiedMembers(members)[1..] == EmptiedMembers(members[1..]);
        assert WriteMembers(EmptiedMembers(members), w) == WriteMembers(members, w);
      }
    case _ =>
  }

  lemma {:induction false} EmptiedItemsAlike(items: seq<Value>, w: Style)
    requires w.dropNull
    ensures WriteMoreItems(EmptiedItems(items), w) == WriteMoreItems(items, w)
  {
    if items != [] {
      EmptiedWritesAlike(items[0], w);
      EmptiedItemsAlike(items[1..], w);
      assert EmptiedItems(items)[1..] == EmptiedItems(items[1..]);
    }
  }

  lemma {:induction false} EmptiedMembersAlike(ms: seq<Member>, w: Style)
    requires w.dropNull
    ensures WriteMoreMembers(EmptiedMembers(ms), w) == WriteMoreMembers(ms, w)
  {
    if ms != [] {
      EmptiedWritesAlike(ms[0].value, w);
      EmptiedMembersAlike(ms[1..], w);
      assert EmptiedMembers(ms)[1..] == EmptiedMembers(ms[1..]);
    }
  }

  lemma {:induction false} EmptiedHasNoLoneNull(v: Value)
    ensures NoLoneNull(Emptied(v)) && (Plain(v) ==> Plain(Emptied(v)))
    ensures NoLoneNull(v) ==> Emptied(v) == v
  {
    match v
    case Arr(items) =>
      if items != [Null] { EmptiedItemsHaveNone(items); EmptiedKeepsItems(items); }
    case Obj(members) => EmptiedMembersHaveNone(members);
    case _ =>
  }

  lemma {:induction false} EmptiedItemsHaveNone(items: seq<Value>)
    ensures NoLoneNulls(EmptiedItems(items)) && (ItemsPlain(items) ==> ItemsPlain(EmptiedItems(items)))
    ensures NoLoneNulls(items) ==> EmptiedItems(items) == items
  {
    if items != [] {
      EmptiedHasNoLoneNull(items[0]);
      EmptiedItemsHaveNone(items[1..]);
      assert EmptiedItems(items)[1..] == EmptiedItems(items[1..]);
    }
  }

  lemma {:induction false} EmptiedMembersHaveNone(ms: seq<Member>)
    ensures NoLoneNullMembers(EmptiedMembers(ms)) && (MembersPlain(ms) ==> MembersPlain(EmptiedMembers(ms)))
    ensures NoLoneNullMembers(ms) ==> EmptiedMembers(ms) == ms
  {
    if ms != [] {
      EmptiedHasNoLoneNull(ms[0].value);
      EmptiedMembersHaveNone(ms[1..]);
      assert EmptiedMembers(ms)[1..] == EmptiedMembers(ms[1..]);
    }
  }

  lemma {:induction false} EmptiedKeepsItems(items: seq<Value>)
    ensures EmptiedItems(items) == [Null] ==> items == [Null]
  {
    if items != [] && EmptiedItems(items) == [Null] {
      assert EmptiedItems(items)[0] == Emptied(items[0]) && EmptiedItems(items)[1..] == EmptiedItems(items[1..]);
      assert EmptiedItems(items[1..]) == [];
    }
  }
}
