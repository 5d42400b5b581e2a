/** Exactly which trees survive being written and read again. */
module JsonIdentity {
  import opened JsonStrings
  import opened JsonNumbers
  import opened JsonValues
  import opened JsonReader
  import opened JsonReaderFacts
  import opened JsonWriter
  import opened JsonRefusals
  import opened JsonRoundTrip
  import opened Sequences

  /** All strings and keys are well-formed UTF-8, and an unsigned integer is one the signed type cannot hold. */
  predicate Faithful(v: Value) {
    match v
    case UInt(u) => u as int > MAX_INT64
    case Str(s) => WellFormedUtf8(s)
    case Arr(items) => ItemsFaithful(items)
    case Obj(members) => MembersFaithful(members)
    case _ => true
  }

  predicate ItemsFaithful(items: seq<Value>) {
    items == [] || (Faithful(items[0]) && ItemsFaithful(items[1..]))
  }

  predicate MembersFaithful(ms: seq<Member>) {
    ms == [] || (WellFormedUtf8(ms[0].key) && Faithful(ms[0].value) && MembersFaithful(ms[1..]))
  }

  /** Every key, as it is read, is short enough for the reader. */
  predicate ShortKeys(v: Value) {
    match v
    case Arr(items) => ItemsShortKeys(items)
    case Obj(members) => MembersShortKeys(members)
    case _ => true
  }

  predicate ItemsShortKeys(items: seq<Value>) {
    items == [] || (ShortKeys(items[0]) && ItemsShortKeys(items[1..]))
  }

  predicate MembersShortKeys(ms: seq<Member>) {
    ms == [] ||
    (|Repaired(ms[0].key, false)| < KEY_LIMIT && ShortKeys(ms[0].value) && MembersShortKeys(ms[1..]))
  }

  // ---------- Whatever is read back is faithful ----------

  lemma {:induction false} SetMemberFaithful(ms: seq<Member>, key: Bytes, v: Value)
    requires MembersFaithful(ms) && WellFormedUtf8(key) && Faithful(v)
    ensures MembersFaithful(SetMember(ms, key, v))
  {
    var m := Member(key, v);
    if ms == [] {
      assert [m][1..] == [];
    } else if ms[0].key == key {
      assert ([m] + ms[1..])[1..] == ms[1..];
    } else if KeyLess(key, ms[0].key) {
      assert ([m] + ms)[1..] == ms;
    } else {
      SetMemberFaithful(ms[1..], key, v);
      var tail := SetMember(ms[1..], key, v);
      assert ([ms[0]] + tail)[1..] == tail;
    }
  }

  lemma {:induction false} ReadBackFaithful(v: Value)
    ensures Faithful(ReadBack(v))
  {
    match v
    case Str(s) => RepairedIsWellFormed(s);
    case Arr(items) => ReadBackItemsFaithful(items);
    case Obj(members) => StoreAllFaithful([], members);
    case _ =>
  }

  lemma {:induction false} ReadBackItemsFaithful(items: seq<Value>)
    ensures ItemsFaithful(ReadBackItems(items))
  {
    if items != [] {
      ReadBackFaithful(items[0]);
      ReadBackItemsFaithful(items[1..]);
      assert ([ReadBack(items[0])] + ReadBackItems(items[1..]))[1..] == ReadBackItems(items[1..]);
    }
  }

  lemma {:induction false} StoreAllFaithful(done: seq<Member>, ms: seq<Member>)
    requires MembersFaithful(done)
    ensures MembersFaithful(StoreAll(done, ms))
    decreases ms
  {
    if ms != [] {
      ReadBackFaithful(ms[0].value);
      RepairedIsWellFormed(ms[0].key);
      SetMemberFaithful(done, Repaired(ms[0].key, false), ReadBack(ms[0].value));
      StoreAllFaithful(SetMember(done, Repaired(ms[0].key, false), ReadBack(ms[0].value)), ms[1..]);
    }
  }

  // ---------- A faithful tree comes back unchanged ----------

  lemma {:induction false} FaithfulIsKept(v: Value)
    requires Ordered(v) && Faithful(v)
    ensures ReadBack(v) == v
  {
    match v
    case Str(s) => WellFormedIsKept(s);
    case Arr(items) => FaithfulItemsKept(items);
    case Obj(members) =>
      assert [] + members == members;
      FaithfulMembersKept([], members);
    case _ =>
  }

  lemma {:induction false} FaithfulItemsKept(items: seq<Value>)
    requires ItemsOrdered(items) && ItemsFaithful(items)
    ensures ReadBackItems(items) == items
  {
    if items != [] {
      FaithfulIsKept(items[0]);
      FaithfulItemsKept(items[1..]);
      assert [items[0]] + items[1..] == items;
    }
  }

  lemma {:induction false} FaithfulMembersKept(done: seq<Member>, ms: seq<Member>)
    requires SortedKeys(done + ms) && MembersOrdered(ms) && MembersFaithful(ms)
    ensures StoreAll(done, ms) == done + ms
    decreases ms
  {
    if ms == [] {
      assert done + ms == done;
    } else {
      WellFormedIsKept(ms[0].key);
      FaithfulIsKept(ms[0].value);
      NextKeyIsGreatest(done, ms);
      SetMemberAppends(done, ms[0].key, ms[0].value);
      MoveHead(done, ms);
      FaithfulMembersKept(done + [ms[0]], ms[1..]);
    }
  }

  lemma {:induction false} NextKeyIsGreatest(done: seq<Member>, ms: seq<Member>)
    requires SortedKeys(done + ms) && ms != []
    ensures forall i :: 0 <= i < |done| ==> KeyLess(done[i].key, ms[0].key)
  {
    var all := done + ms;
    forall i | 0 <= i < |done| ensures KeyLess(done[i].key, ms[0].key) {
      assert all[i] == done[i] && all[|done|] == ms[0];
    }
  }

  /** Being read back is the identity exactly on the faithful trees. */
  lemma {:induction false} ReadBackIsIdentity(v: Value)
    requires Ordered(v)
    ensures ReadBack(v) == v <==> Faithful(v)
  {
    ReadBackFaithful(v);
    if Faithful(v) { FaithfulIsKept(v); }
  }

  // ---------- Which trees are writable ----------

  /** The keys of a faithful ordered tree stay distinct when they are read. */
  lemma {:induction false} FaithfulIsWritable(v: Value, f: Features)
    requires Plain(v) && ShortKeys(v) && Ordered(v) && Faithful(v)
    ensures Writable(v, f)
  {
    match v
    case Arr(items) => FaithfulItemsWritable(items, f);
    case Obj(members) =>
      assert [] + members == members;
      FaithfulMembersWritable([], members, f);
    case _ =>
  }

  lemma {:induction false} FaithfulItemsWritable(items: seq<Value>, f: Features)
    requires ItemsPlain(items) && ItemsShortKeys(items) && ItemsOrdered(items) && ItemsFaithful(items)
    ensures ItemsWritable(items, f)
  {
    if items != [] {
      FaithfulIsWritable(items[0], f);
      FaithfulItemsWritable(items[1..], f);
    }
  }

  lemma {:induction false} FaithfulMembersWritable(done: seq<Member>, ms: seq<Member>, f: Features)
    requires MembersPlain(ms) && MembersShortKeys(ms) && MembersOrdered(ms) && MembersFaithful(ms)
    requires SortedKeys(done + ms)
    ensures MembersWritable(done, ms, f)
    decreases ms
  {
    if ms != [] {
      FaithfulIsWritable(ms[0].value, f);
      WellFormedIsKept(ms[0].key);
      FaithfulIsKept(ms[0].value);
      NextKeyIsGreatest(done, ms);
      SetMemberAppends(done, ms[0].key, ms[0].value);
      MoveHead(done, ms);
      FaithfulMembersWritable(done + [ms[0]], ms[1..], f);
    }
  }

  lemma {:induction false} WritableHasShortKeys(v: Value, f: Features)
    requires Writable(v, f)
    ensures ShortKeys(v)
  {
    match v
    case Arr(items) => WritableItemsShort(items, f);
    case Obj(members) => WritableMembersShort([], members, f);
    case _ =>
  }

  lemma {:induction false} WritableItemsShort(items: seq<Value>, f: Features)
    requires ItemsWritable(items, f)
    ensures ItemsShortKeys(items)
  {
    if items != [] {
      WritableHasShortKeys(items[0], f);
      WritableItemsShort(items[1..], f);
    }
  }

  lemma {:induction false} WritableMembersShort(done: seq<Member>, ms: seq<Member>, f: Features)
    requires MembersWritable(done, ms, f)
    ensures MembersShortKeys(ms)
    decreases ms
  {
    if ms != [] {
      WritableHasShortKeys(ms[0].value, f);
      WritableMembersShort(SetMember(done, Repaired(ms[0].key, false), ReadBack(ms[0].value)), ms[1..], f);
    }
  }

  // ---------- Being read back leaves no array of a single null ----------

  lemma {:induction false} ReadBackHasNoLoneNull(v: Value)
    requires NoLoneNull(v)
    ensures NoLoneNull(ReadBack(v))
  {
    match v
    case Arr(items) => ReadBackItemsHaveNone(items);
    case Obj(members) => StoreAllHasNone([], members);
    case _ =>
  }

  lemma {:induction false} ReadBackItemsHaveNone(items: seq<Value>)
    requires NoLoneNulls(items)
    ensures NoLoneNulls(ReadBackItems(items))
    ensures ReadBackItems(items) == [Null] ==> items == [Null]
  {
    if items != [] {
      ReadBackHasNoLoneNull(items[0]);
      ReadBackItemsHaveNone(items[1..]);
      var back := ReadBackItems(items);
      assert back[0] == ReadBack(items[0]) && back[1..] == ReadBackItems(items[1..]);
      assert back == [Null] ==> items[1..] == [];
    }
  }

  lemma {:induction false} StoreAllHasNone(done: seq<Member>, ms: seq<Member>)
    requires NoLoneNullMembers(done) && NoLoneNullMembers(ms)
    ensures NoLoneNullMembers(StoreAll(done, ms))
    decreases ms
  {
    if ms != [] {
      ReadBackHasNoLoneNull(ms[0].value);
      StoredHasNone(done, Repaired(ms[0].key, false), ReadBack(ms[0].value));
      StoreAllHasNone(SetMember(done, Repaired(ms[0].key, false), ReadBack(ms[0].value)), ms[1..]);
    }
  }

  lemma {:induction false} StoredHasNone(ms: seq<Member>, key: Bytes, v: Value)
    requires NoLoneNullMembers(ms) && NoLoneNull(v)
    ensures NoLoneNullMembers(SetMember(ms, key, v))
  {
    var m := Member(key, v);
    if ms == [] {
      assert [m][1..] == [];
    } else if ms[0].key == key {
      assert ([m] + ms[1..])[1..] == ms[1..];
    } else if KeyLess(key, ms[0].key) {
      assert ([m] + ms)[1..] == ms;
    } else {
      StoredHasNone(ms[1..], key, v);
      var tail := SetMember(ms[1..], key, v);
      assert ([ms[0]] + tail)[1..] == tail;
    }
  }

  // ---------- The round trip ----------

  /** When the reader can take a tree at all. */
  predicate Accepts(v: Value, f: Features) {
    ShortKeys(v) && Height(v) <= f.stackLimit && (f.strictRoot ==> IsContainer(v))
  }

  /**
    When the nulls of a tree are in its text: they are not dropped, or the reader supplies them
    wherever a comma or a bracket shows that something is missing.
   */
  predicate NullsKept(v: Value, w: Style, f: Features) {
    w.dropNull ==> if f.allowDroppedNullPlaceholders then NoLoneNull(v) && !v.Null? else NoNull(v)
  }

  predicate Survives(v: Value, w: Style, f: Features) {
    Faithful(v) && Accepts(v, f) && NullsKept(v, w, f)
  }

  predicate ComesBack(v: Value, root: Value, w: Style, e: Env) {
    Parse(Document(v, w), root, e) == Done(true, v, [], [])
  }

  /** On every setting of the writer and the reader, the surviving trees are exactly those that come back. */
  lemma {:induction false} RoundTripIff(v: Value, root: Value, w: Style, e: Env)
    requires Plain(v) && Ordered(v)
    ensures ComesBack(v, root, w, e) <==> Survives(v, w, e.f)
  {
    if Loses(w, e.f) {
      if NoNull(v) {
        NothingToDrop(v, w);
        NullsWrittenIff(v, root, w.(dropNull := false), e);
      } else {
        NullIsLost(v, root, w, e);
      }
    } else if w.dropNull && v.Null? {
      EmptyDocument(root, w, e);
    } else if w.dropNull && !NoLoneNull(v) {
      LoneNullIsLost(v, root, w, e);
    } else {
      NullsWrittenIff(v, root, w, e);
    }
  }

  /** The case in which the text has all that the tree has. */
  lemma {:induction false} NullsWrittenIff(v: Value, root: Value, w: Style, e: Env)
    requires Plain(v) && Ordered(v) && Agree(w, e.f) && (w.dropNull ==> NoLoneNull(v) && !v.Null?)
    ensures ComesBack(v, root, w, e) <==> Faithful(v) && Accepts(v, e.f)
  {
    if Writable(v, e.f) {
      WritableHasShortKeys(v, e.f);
      ReadBackIsIdentity(v);
      ParseWritten(v, root, w, e);
    } else {
      if Faithful(v) && ShortKeys(v) { FaithfulIsWritable(v, e.f); }
      NoBom(v, w, e.f);
      ReadUnwritable(v, LineEnd(w), 1, root, w, e);
      ParseRefuses(Document(v, w), root, e);
    }
  }

  /** With an array of a single null the text is that of another tree. */
  lemma {:induction false} LoneNullIsLost(v: Value, root: Value, w: Style, e: Env)
    requires Plain(v) && w.dropNull && Agree(w, e.f) && !NoLoneNull(v)
    ensures !ComesBack(v, root, w, e)
  {
    var u := Emptied(v);
    EmptiedWritesAlike(v, w);
    EmptiedHasNoLoneNull(v);
    if Writable(u, e.f) {
      ParseWritten(u, root, w, e);
      ReadBackHasNoLoneNull(u);
    } else {
      NoBom(u, w, e.f);
      ReadUnwritable(u, LineEnd(w), 1, root, w, e);
      ParseRefuses(Document(u, w), root, e);
    }
  }

  /** A reader that supplies no nulls makes none out of a text without them. */
  lemma {:induction false} NullIsLost(v: Value, root: Value, w: Style, e: Env)
    requires Plain(v) && Loses(w, e.f) && !NoNull(v)
    ensures !ComesBack(v, root, w, e)
  {
    if v.Null? {
      EmptyDocument(root, w, e);
    } else {
      NoBom(v, w, e.f);
      EndOfDocument(w, e);
      ReadLosing(v, LineEnd(w), 1, root, w, e);
    }
  }

  /** A dropped root leaves nothing to read. */
  lemma {:induction false} EmptyDocument(root: Value, w: Style, e: Env)
    requires w.dropNull
    ensures Refused(Parse(Document(Null, w), root, e))
  {
    var document := LineEnd(w);
    assert Document(Null, w) == document;
    assert SkipBom(document, e.f) == document;
    EndOfDocument(w, e);
    assert Refused(ReadValue(document, 1, root, e));
    ParseRefuses(document, root, e);
  }
}
