/** JSON values and the ordered member map of an object. */
module JsonValues {
  import opened JsonStrings
  import opened JsonNumbers

  /** `Real` keeps the text it was read from; the double itself is not modelled. */
  datatype Value =
    | Null
    | Bool(b: bool)
    | Int(i: Int64)
    | UInt(u: UInt64)
    | Real(text: Bytes)
    | Str(s: Bytes)
    | Arr(items: seq<Value>)
    | Obj(members: seq<Member>)

  datatype Member = Member(key: Bytes, value: Value)

  /** The order of member keys: unsigned byte order, a proper prefix first. */
  predicate KeyLess(a: Bytes, b: Bytes) {
    if b == [] then false
    else if a == [] then true
    else a[0] < b[0] || (a[0] == b[0] && KeyLess(a[1..], b[1..]))
  }

  /** An object's members are kept in strictly increasing key order. */
  predicate SortedKeys(ms: seq<Member>) {
    forall i, j :: 0 <= i < j < |ms| ==> KeyLess(ms[i].key, ms[j].key)
  }

  predicate HasMember(ms: seq<Member>, key: Bytes) {
    exists i :: 0 <= i < |ms| && ms[i].key == key
  }

  /** The value a key refers to; a new member starts as null. */
  function GetMember(ms: seq<Member>, key: Bytes): Value {
    if ms == [] then Null
    else if ms[0].key == key then ms[0].value
    else GetMember(ms[1..], key)
  }

  /** Stores under a key, at the place the order gives it. */
  function SetMember(ms: seq<Member>, key: Bytes, value: Value): seq<Member> {
    if ms == [] then [Member(key, value)]
    else if ms[0].key == key then [Member(key, value)] + ms[1..]
    else if KeyLess(key, ms[0].key) then [Member(key, value)] + ms
    else [ms[0]] + SetMember(ms[1..], key, value)
  }

  lemma {:induction false} KeyLessIrreflexive(a: Bytes)
    ensures !KeyLess(a, a)
  {
    if a != [] { KeyLessIrreflexive(a[1..]); }
  }

  lemma {:induction false} KeyLessAsymmetric(a: Bytes, b: Bytes)
    requires KeyLess(a, b)
    ensures a != b && !KeyLess(b, a)
  {
    if a != [] && a[0] == b[0] {
      KeyLessAsymmetric(a[1..], b[1..]);
    }
  }

  lemma {:induction false} KeyLessTransitive(a: Bytes, b: Bytes, c: Bytes)
    requires KeyLess(a, b) && KeyLess(b, c)
    ensures KeyLess(a, c)
  {
    if a != [] && a[0] == b[0] && b[0] == c[0] {
      KeyLessTransitive(a[1..], b[1..], c[1..]);
    }
  }

  lemma {:induction false} KeyLessTotal(a: Bytes, b: Bytes)
    ensures a == b || KeyLess(a, b) || KeyLess(b, a)
  {
    if a != [] && b != [] && a[0] == b[0] {
      KeyLessTotal(a[1..], b[1..]);
      if a[1..] == b[1..] {
        assert a == [a[0]] + a[1..] && b == [b[0]] + b[1..];
      }
    }
  }

  lemma {:induction false} SortedTail(ms: seq<Member>)
    requires SortedKeys(ms) && ms != []
    ensures SortedKeys(ms[1..])
  {
    forall i, j | 0 <= i < j < |ms[1..]| ensures KeyLess(ms[1..][i].key, ms[1..][j].key) {
      assert ms[1..][i] == ms[i + 1] && ms[1..][j] == ms[j + 1];
    }
  }

  /** A key above all others is appended. */
  lemma {:induction false} SetMemberAppends(ms: seq<Member>, key: Bytes, value: Value)
    requires forall i :: 0 <= i < |ms| ==> KeyLess(ms[i].key, key)
    ensures SetMember(ms, key, value) == ms + [Member(key, value)]
    ensures !HasMember(ms, key)
  {
    KeyLessIrreflexive(key);
    if ms != [] {
      KeyLessAsymmetric(ms[0].key, key);
      SetMemberAppends(ms[1..], key, value);
      assert ms == [ms[0]] + ms[1..];
    }
  }

  /** The keys after a store are the old ones and the new one. */
  lemma {:induction false} SetMemberKeys(ms: seq<Member>, key: Bytes, value: Value, m: Member)
    ensures m in SetMember(ms, key, value) ==> m == Member(key, value) || m in ms
    ensures Member(key, value) in SetMember(ms, key, value)
  {
    if ms != [] && ms[0].key != key && !KeyLess(key, ms[0].key) {
      SetMemberKeys(ms[1..], key, value, m);
      var tail := SetMember(ms[1..], key, value);
      assert SetMember(ms, key, value) == [ms[0]] + tail;
    }
  }

  /** A store keeps the order. */
  lemma {:induction false} SetMemberSorted(ms: seq<Member>, key: Bytes, value: Value)
    requires SortedKeys(ms)
    ensures SortedKeys(SetMember(ms, key, value))
  {
    if ms == [] {
    } else if ms[0].key == key {
      ReplaceSorted(ms, Member(key, value));
    } else if KeyLess(key, ms[0].key) {
      InsertFrontSorted(Member(key, value), ms);
    } else {
      KeyLessTotal(key, ms[0].key);
      SortedTail(ms);
      var tail := SetMember(ms[1..], key, value);
      SetMemberSorted(ms[1..], key, value);
      forall m | m in tail ensures KeyLess(ms[0].key, m.key) {
        SetMemberKeys(ms[1..], key, value, m);
      }
      ConsSorted(ms[0], tail);
    }
  }

  lemma {:induction false} ConsSorted(m: Member, ms: seq<Member>)
    requires SortedKeys(ms) && forall x :: x in ms ==> KeyLess(m.key, x.key)
    ensures SortedKeys([m] + ms)
  {
  }

  lemma {:induction false} ReplaceSorted(ms: seq<Member>, m: Member)
    requires SortedKeys(ms) && ms != [] && ms[0].key == m.key
    ensures SortedKeys([m] + ms[1..])
  {
  }

  lemma {:induction false} InsertFrontSorted(m: Member, ms: seq<Member>)
    requires SortedKeys(ms) && ms != [] && KeyLess(m.key, ms[0].key)
    ensures SortedKeys([m] + ms)
  {
    forall x | x in ms ensures KeyLess(m.key, x.key) {
      var i :| 0 <= i < |ms| && ms[i] == x;
      if i > 0 { KeyLessTransitive(m.key, ms[0].key, x.key); }
    }
    ConsSorted(m, ms);
  }

  // ---------- Height ----------

  function Max(a: nat, b: nat): nat { if a < b then b else a }

  /** How many values are nested in one another, the value itself included. */
  function Height(v: Value): (h: nat)
    ensures h >= 1
  {
    match v
    case Arr(items) => 1 + ItemsHeight(items)
    case Obj(members) => 1 + MembersHeight(members)
    case _ => 1
  }

  function ItemsHeight(items: seq<Value>): nat {
    if items == [] then 0 else Max(Height(items[0]), ItemsHeight(items[1..]))
  }

  function MembersHeight(ms: seq<Member>): nat {
    if ms == [] then 0 else Max(Height(ms[0].value), MembersHeight(ms[1..]))
  }
}
