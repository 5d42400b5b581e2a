/** Whole documents of the grammar, and the members of an object as a map. */
module JsonDocuments {
  import opened JsonStrings
  import opened JsonValues
  import opened JsonReader
  import opened JsonLayout
  import opened JsonGrammar
  import opened JsonTokens
  import opened JsonTexts
  import opened JsonRoundTrip

  // ---------- Documents ----------

  /** A byte order mark, if any, and a value in the middle of gaps and of what follows it. */
  function DocumentText(mark: bool, before: Gap, d: Syntax, after: Gap, tail: Bytes): Bytes
    requires IsSyntax(d)
  {
    (if mark then [0xEF, 0xBB, 0xBF] else []) + (GapText(before) + (SyntaxText(d) + (GapText(after) + tail)))
  }

  lemma {:induction false} NoMark(before: Gap, d: Syntax, t: Bytes, f: Features)
    requires IsGap(before) && IsSyntax(d)
    ensures SkipBom(GapText(before) + (SyntaxText(d) + t), f) == GapText(before) + (SyntaxText(d) + t)
  {
    var s := GapText(before) + (SyntaxText(d) + t);
    SyntaxStarts(d);
    assert (SyntaxText(d) + t)[0] == SyntaxText(d)[0];
    if before == [] {
      assert s == SyntaxText(d) + t;
    } else {
      assert s[0] == FillerText(before[0])[0];
    }
    assert s[0] != 0xEF;
  }

  lemma {:induction false} MarkSkips(s: Bytes, f: Features)
    requires f.skipBom
    ensures SkipBom([0xEF, 0xBB, 0xBF] + s, f) == s
  {
    var all := [0xEF, 0xBB, 0xBF] + s;
    assert all[..3] == [0xEF, 0xBB, 0xBF] && all[3..] == s;
  }

  /** The reader gets to the value and reads it. */
  lemma {:induction false} ReadDocument(
      mark: bool, before: Gap, d: Syntax, after: Gap, tail: Bytes, root: Value, e: Env)
    requires IsSyntax(d) && Taken(d, e) && Allowed(before, e.f) && IsGap(after) && Ends(GapText(after) + tail)
    requires mark ==> e.f.skipBom
    ensures ReadValue(SkipBom(DocumentText(mark, before, d, after, tail), e.f), 1, root, e)
         == Expected(Meaning(d, e), GapText(after) + tail, 1, Levels(d) - 1, e.f)
  {
    var t := GapText(after) + tail;
    var s := GapText(before) + (SyntaxText(d) + t);
    if mark {
      MarkSkips(s, e.f);
    } else {
      assert [] + s == s;
      NoMark(before, d, t, e.f);
    }
    GapBeforeValue(before, SyntaxText(d) + t, 1, root, e);
    ReadSyntax(d, t, 1, root, e);
  }

  lemma {:induction false} EndAfterGap(after: Gap, f: Features)
    requires Allowed(after, f)
    ensures SkipCommentTokens(GapText(after) + [], f) == Lexed(true, Token(EndOfStream, []), [])
  {
    AllowedPasses(after, [], f);
  }

  /** Every document of the grammar is read as what it stands for, unless it is too deep or its root is refused. */
  lemma {:induction false} ParseText(mark: bool, before: Gap, d: Syntax, after: Gap, root: Value, e: Env)
    requires IsSyntax(d) && Taken(d, e) && Allowed(before, e.f) && Allowed(after, e.f) && (mark ==> e.f.skipBom)
    ensures Parse(DocumentText(mark, before, d, after, []), root, e)
         == if Levels(d) > e.f.stackLimit then Thrown(StackLimitExceeded)
            else if e.f.strictRoot && !d.Array? && !d.Object? then Done(false, Meaning(d, e), [], [RootNotContainer])
            else Done(true, Meaning(d, e), [], [])
  {
    GapEnds(after, []);
    ReadDocument(mark, before, d, after, [], root, e);
    EndAfterGap(after, e.f);
    RootShape(d, e);
    WholeOutcome(DocumentText(mark, before, d, after, []), root, e, Meaning(d, e), GapText(after) + [], Levels(d));
  }

  lemma {:induction false} RootShape(d: Syntax, e: Env)
    requires IsSyntax(d)
    ensures IsContainer(Meaning(d, e)) <==> d.Array? || d.Object?
    ensures Levels(d) > 0
  {
    match d
    case Word(_) =>
    case Number(_) =>
    case _ =>
  }

  lemma {:induction false} WholeOutcome(document: Bytes, root: Value, e: Env, value: Value, end: Bytes, h: nat)
    requires h > 0 && ReadValue(SkipBom(document, e.f), 1, root, e) == Expected(value, end, 1, h - 1, e.f)
    requires SkipCommentTokens(end, e.f) == Lexed(true, Token(EndOfStream, []), [])
    ensures Parse(document, root, e)
         == if h > e.f.stackLimit then Thrown(StackLimitExceeded)
            else if e.f.strictRoot && !IsContainer(value) then Done(false, value, [], [RootNotContainer])
            else Done(true, value, [], [])
  {
    if h <= e.f.stackLimit {
      FinishWhole(Done(true, value, end, []), e);
    }
  }

  lemma {:induction false} ExtraOutcome(document: Bytes, root: Value, e: Env, value: Value, end: Bytes)
    requires ReadValue(SkipBom(document, e.f), 1, root, e) == Done(true, value, end, []) && IsContainer(value)
    requires SkipCommentTokens(end, e.f).token.kind != EndOfStream
    ensures var r := Parse(document, root, e);
            && r.Done? && r.value == value && (r.ok <==> !e.f.failIfExtra)
            && r.errors == if e.f.failIfExtra then [ExtraText] else []
  {
    FinishExtra(Done(true, value, end, []), e);
  }

  lemma {:induction false} TailLexes(tail: Bytes, f: Features)
    requires tail != [] && !IsBlank(tail[0]) && tail[0] != 0x2F && tail[0] != 0x27 && tail[0] != 0
    ensures SkipCommentTokens(tail, f).token.kind != EndOfStream
  {
    var s := Start(tail[0], tail[1..], f);
    assert s.kind != CommentToken;
    var t := LexCharacter(tail, f);
    assert t.token.kind == (if s.scan.ok then s.kind else ErrorToken);
    assert Lex(tail, f) == t;
    assert LexPastComments(tail, f) == t;
  }

  lemma {:induction false} FinishExtra(v: Outcome, e: Env)
    requires v.Done? && v.ok && v.errors == [] && IsContainer(v.value)
    requires SkipCommentTokens(v.rest, e.f).token.kind != EndOfStream
    ensures var r := Finish(v, e);
            (r.ok <==> !e.f.failIfExtra) && r.errors == if e.f.failIfExtra then [ExtraText] else []
  {
    assert [] + [ExtraText] == [ExtraText];
  }

  lemma {:induction false} FinishWhole(v: Outcome, e: Env)
    requires v.Done? && v.ok && v.errors == []
    requires SkipCommentTokens(v.rest, e.f) == Lexed(true, Token(EndOfStream, []), [])
    ensures Finish(v, e)
         == if e.f.strictRoot && !IsContainer(v.value) then Done(false, v.value, [], [RootNotContainer])
            else Done(true, v.value, [], [])
  {
    assert [] + [RootNotContainer] == [RootNotContainer];
  }

  /** Something more behind the value is an error exactly where it has to be. */
  lemma {:induction false} ParseExtra(mark: bool, before: Gap, d: Syntax, after: Gap, tail: Bytes, root: Value, e: Env)
    requires IsSyntax(d) && Taken(d, e) && Allowed(before, e.f) && Allowed(after, e.f) && (mark ==> e.f.skipBom)
    requires d.Array? || d.Object?
    requires Ends(GapText(after) + tail) && Levels(d) <= e.f.stackLimit
    requires tail != [] && !IsBlank(tail[0]) && tail[0] != 0x2F && tail[0] != 0x27 && tail[0] != 0
    ensures var r := Parse(DocumentText(mark, before, d, after, tail), root, e);
            && r.Done? && r.value == Meaning(d, e) && (r.ok <==> !e.f.failIfExtra)
            && r.errors == if e.f.failIfExtra then [ExtraText] else []
  {
    ReadDocument(mark, before, d, after, tail, root, e);
    AllowedPasses(after, tail, e.f);
    TailLexes(tail, e.f);
    ExtraOutcome(DocumentText(mark, before, d, after, tail), root, e, Meaning(d, e), GapText(after) + tail);
  }

  // ---------- Objects as maps ----------

  function AsMap(ms: seq<Member>): map<Bytes, Value> {
    if ms == [] then map[] else AsMap(ms[1..])[ms[0].key := ms[0].value]
  }

  lemma {:induction false} KeysOf(ms: seq<Member>, key: Bytes)
    ensures key in AsMap(ms) <==> HasMember(ms, key)
  {
    if ms != [] {
      KeysOf(ms[1..], key);
      if HasMember(ms[1..], key) {
        var i :| 0 <= i < |ms[1..]| && ms[1..][i].key == key;
        assert ms[i + 1].key == key;
      }
      if HasMember(ms, key) && ms[0].key != key {
        var i :| 0 <= i < |ms| && ms[i].key == key;
        assert ms[1..][i - 1].key == key;
      }
    }
  }

  lemma {:induction false} GetIsLookup(ms: seq<Member>, key: Bytes)
    ensures GetMember(ms, key) == if key in AsMap(ms) then AsMap(ms)[key] else Null
  {
    if ms != [] {
      GetIsLookup(ms[1..], key);
    }
  }

  lemma {:induction false} SmallerIsMissing(ms: seq<Member>, key: Bytes)
    requires SortedKeys(ms) && ms != [] && KeyLess(key, ms[0].key)
    ensures key !in AsMap(ms)
  {
    KeysOf(ms, key);
    KeyLessAsymmetric(key, ms[0].key);
    forall i | 0 <= i < |ms|
      ensures ms[i].key != key
    {
      assert i > 0 ==> KeyLess(ms[0].key, ms[i].key);
    }
  }

  /** Storing a member is an update of the map, whether the key is new or not. */
  lemma {:induction false} SetIsUpdate(ms: seq<Member>, key: Bytes, value: Value)
    requires SortedKeys(ms)
    ensures AsMap(SetMember(ms, key, value)) == AsMap(ms)[key := value]
  {
    var m := Member(key, value);
    if ms == [] {
      assert [m][1..] == [];
    } else if ms[0].key == key {
      assert ([m] + ms[1..])[1..] == ms[1..];
    } else if KeyLess(key, ms[0].key) {
      assert ([m] + ms)[1..] == ms;
    } else {
      var tail := SetMember(ms[1..], key, value);
      assert ([ms[0]] + tail)[1..] == tail;
      SortedTail(ms);
      SetIsUpdate(ms[1..], key, value);
    }
  }

  /** The entries of an object, one after another. */
  function Gathered(m: map<Bytes, Value>, entries: seq<Entry>, e: Env): map<Bytes, Value>
    requires AreEntries(entries)
    decreases entries
  {
    if entries == [] then m
    else Gathered(m[NameMeans(entries[0].name, e) := Meaning(entries[0].value, e)], entries[1..], e)
  }

  /** The members of an object are its entries in key order, the last of equal keys. */
  lemma {:induction false} StoredIsGathered(done: seq<Member>, entries: seq<Entry>, e: Env)
    requires AreEntries(entries) && SortedKeys(done)
    ensures SortedKeys(Stored(done, entries, e))
    ensures AsMap(Stored(done, entries, e)) == Gathered(AsMap(done), entries, e)
    decreases entries
  {
    if entries != [] {
      var key, v := NameMeans(entries[0].name, e), Meaning(entries[0].value, e);
      SetMemberSorted(done, key, v);
      SetIsUpdate(done, key, v);
      StoredIsGathered(SetMember(done, key, v), entries[1..], e);
    }
  }

  /** Keys are ordered by their first differing byte, and a proper prefix comes first. */
  lemma {:induction false} KeyLessIff(a: Bytes, b: Bytes)
    ensures KeyLess(a, b) <==> exists k :: DifferAt(a, b, k)
  {
    if b != [] && a != [] && a[0] == b[0] {
      KeyLessIff(a[1..], b[1..]);
      if k: nat :| DifferAt(a[1..], b[1..], k) {
        assert a[..k + 1] == [a[0]] + a[1..][..k] && b[..k + 1] == [b[0]] + b[1..][..k];
        assert DifferAt(a, b, k + 1);
      }
      if k: nat :| DifferAt(a, b, k) {
        assert k > 0;
        assert a[1..][..k - 1] == a[..k][1..] && b[1..][..k - 1] == b[..k][1..];
        assert DifferAt(a[1..], b[1..], k - 1);
      }
    } else if b != [] {
      assert a[..0] == [] && b[..0] == [];
      if a == [] || a[0] < b[0] {
        assert DifferAt(a, b, 0);
      } else {
        forall k: nat
          ensures !DifferAt(a, b, k)
        {
          if 0 < k <= |a| && k <= |b| {
            assert a[..k][0] == a[0] && b[..k][0] == b[0];
          }
        }
      }
    }
  }

  predicate DifferAt(a: Bytes, b: Bytes, k: nat) {
    k <= |a| && k < |b| && a[..k] == b[..k] && (k == |a| || a[k] < b[k])
  }
}
