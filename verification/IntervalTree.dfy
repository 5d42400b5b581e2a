/** A centred interval tree: its construction, its queries, and its own validity check. */
module IntervalTree {
  import opened Sequences

  datatype Interval<V> = Interval(start: int, stop: int, value: V)

  datatype Tree<V> =
    | Null
    | Node(center: int, intervals: seq<Interval<V>>, left: Tree<V>, right: Tree<V>)

  /** The constructor of an interval swaps ends that are given backwards. */
  predicate Normalised<V>(s: seq<Interval<V>>) {
    forall k :: 0 <= k < |s| ==> s[k].start <= s[k].stop
  }

  predicate Sorted<V>(s: seq<Interval<V>>) {
    forall j, k :: 0 <= j < k < |s| ==> s[j].start <= s[k].start
  }

  /** All intervals in the order in which a full visit meets them. */
  function Items<V>(t: Tree<V>): seq<Interval<V>> {
    match t
    case Null => []
    case Node(_, intervals, left, right) => Items(left) + intervals + Items(right)
  }

  function Height<V>(t: Tree<V>): nat {
    match t
    case Null => 0
    case Node(_, _, left, right) => 1 + if Height(left) < Height(right) then Height(right) else Height(left)
  }

  predicate StopsBelow<V>(s: seq<Interval<V>>, center: int) {
    forall k :: 0 <= k < |s| ==> s[k].stop < center
  }

  predicate StartsAbove<V>(s: seq<Interval<V>>, center: int) {
    forall k :: 0 <= k < |s| ==> s[k].start > center
  }

  predicate Straddle<V>(s: seq<Interval<V>>, center: int) {
    forall k :: 0 <= k < |s| ==> s[k].start <= center <= s[k].stop
  }

  /** What every node keeps. */
  predicate Sound<V>(t: Tree<V>) {
    match t
    case Null => true
    case Node(center, intervals, left, right) =>
      && Sorted(intervals) && Normalised(intervals)
      && Sound(left) && Sound(right)
      && StopsBelow(Items(left), center) && StartsAbove(Items(right), center)
      && (left.Node? || right.Node? ==> Straddle(intervals, center))
      && (left.Node? ==> Items(left) != []) && (right.Node? ==> Items(right) != [])
  }

  // ---------- Partition ----------

  datatype Side = Left | Middle | Right

  function SideOf<V>(i: Interval<V>, center: int): Side {
    if i.stop < center then Left else if i.start > center then Right else Middle
  }

  function Part<V>(s: seq<Interval<V>>, center: int, side: Side): seq<Interval<V>> {
    if s == [] then []
    else
      var front, last := Part(s[..|s| - 1], center, side), s[|s| - 1];
      if SideOf(last, center) == side then front + [last] else front
  }

  lemma {:induction false} PartNext<V>(s: seq<Interval<V>>, center: int, side: Side, n: nat)
    requires n < |s|
    ensures Part(s[..n + 1], center, side) ==
            Part(s[..n], center, side) + if SideOf(s[n], center) == side then [s[n]] else []
  {
    assert s[..n + 1][..n] == s[..n];
  }

  lemma {:induction false} PartMembers<V>(s: seq<Interval<V>>, center: int, side: Side)
    ensures forall i :: i in Part(s, center, side) ==> i in s && SideOf(i, center) == side
    ensures |Part(s, center, side)| <= |s|
  {
    if s != [] {
      PartMembers(s[..|s| - 1], center, side);
    }
  }

  predicate StartsUpTo<V>(s: seq<Interval<V>>, bound: int) {
    forall k :: 0 <= k < |s| ==> s[k].start <= bound
  }

  lemma {:induction false} SortedLast<V>(s: seq<Interval<V>>, last: Interval<V>)
    requires Sorted(s) && StartsUpTo(s, last.start)
    ensures Sorted(s + [last])
  {
  }

  lemma {:induction false} PartUpTo<V>(s: seq<Interval<V>>, center: int, side: Side, bound: int)
    requires StartsUpTo(s, bound)
    ensures StartsUpTo(Part(s, center, side), bound)
  {
    if s != [] {
      PartUpTo(s[..|s| - 1], center, side, bound);
    }
  }

  lemma {:induction false} PartSorted<V>(s: seq<Interval<V>>, center: int, side: Side)
    requires Sorted(s)
    ensures Sorted(Part(s, center, side))
  {
    if s != [] {
      var front, last := s[..|s| - 1], s[|s| - 1];
      PartSorted(front, center, side);
      PartUpTo(front, center, side, last.start);
      if SideOf(last, center) == side {
        SortedLast(Part(front, center, side), last);
      }
    }
  }

  /** Nothing is lost and nothing is doubled. */
  lemma {:induction false} PartConserves<V>(s: seq<Interval<V>>, center: int)
    ensures multiset(Part(s, center, Left)) + multiset(Part(s, center, Middle)) + multiset(Part(s, center, Right))
              == multiset(s)
  {
    if s != [] {
      PartConserves(s[..|s| - 1], center);
      assert s == s[..|s| - 1] + [s[|s| - 1]];
    }
  }

  // ---------- The centre ----------

  /** Integer division of the source truncates toward zero. */
  function Half(x: int): int { if x >= 0 then x / 2 else -(-x / 2) }

  lemma {:induction false} HalfBetween(a: int, b: int)
    requires a <= b
    ensures a <= Half(a + b) <= b
  {
  }

  method LeastStart<V>(s: seq<Interval<V>>) returns (k: nat)
    requires s != []
    ensures k < |s| && forall j :: 0 <= j < |s| ==> s[k].start <= s[j].start
  {
    k := 0;
    var i := 1;
    while i < |s|
      invariant 1 <= i <= |s| && k < i && forall j :: 0 <= j < i ==> s[k].start <= s[j].start
    {
      if s[i].start < s[k].start {
        k := i;
      }
      i := i + 1;
    }
  }

  method GreatestStop<V>(s: seq<Interval<V>>) returns (k: nat)
    requires s != []
    ensures k < |s| && forall j :: 0 <= j < |s| ==> s[j].stop <= s[k].stop
  {
    k := 0;
    var i := 1;
    while i < |s|
      invariant 1 <= i <= |s| && k < i && forall j :: 0 <= j < i ==> s[j].stop <= s[k].stop
    {
      if s[k].stop < s[i].stop {
        k := i;
      }
      i := i + 1;
    }
  }

  /** The intervals that reach furthest stay out of the side they would overrun. */
  lemma {:induction false} PartsAreSmaller<V>(s: seq<Interval<V>>, center: int, first: nat, last: nat)
    requires first < |s| && last < |s| && s[first].start <= center <= s[last].stop
    ensures |Part(s, center, Left)| < |s| && |Part(s, center, Right)| < |s|
  {
    PartSmaller(s, center, Left, last);
    PartSmaller(s, center, Right, first);
  }

  lemma {:induction false} PartSmaller<V>(s: seq<Interval<V>>, center: int, side: Side, k: nat)
    requires k < |s| && SideOf(s[k], center) != side
    ensures |Part(s, center, side)| < |s|
  {
    var n := |s| - 1;
    if k < n {
      PartSmaller(s[..n], center, side, k);
    } else {
      PartMembers(s[..n], center, side);
    }
  }

  // ---------- Construction ----------

  function Inserted<V>(s: seq<Interval<V>>, i: Interval<V>): seq<Interval<V>> {
    if s == [] || s[|s| - 1].start <= i.start then s + [i] else Inserted(s[..|s| - 1], i) + [s[|s| - 1]]
  }

  lemma {:induction false} InsertedUpTo<V>(s: seq<Interval<V>>, i: Interval<V>, bound: int)
    requires StartsUpTo(s, bound) && i.start <= bound
    ensures StartsUpTo(Inserted(s, i), bound)
  {
    if s != [] && s[|s| - 1].start > i.start {
      InsertedUpTo(s[..|s| - 1], i, bound);
    }
  }

  lemma {:induction false} InsertedSorted<V>(s: seq<Interval<V>>, i: Interval<V>)
    requires Sorted(s)
    ensures Sorted(Inserted(s, i))
  {
    if s == [] || s[|s| - 1].start <= i.start {
      SortedLast(s, i);
    } else {
      var front, last := s[..|s| - 1], s[|s| - 1];
      InsertedSorted(front, i);
      InsertedUpTo(front, i, last.start);
      SortedLast(Inserted(front, i), last);
    }
  }

  lemma {:induction false} InsertedConserves<V>(s: seq<Interval<V>>, i: Interval<V>)
    ensures multiset(Inserted(s, i)) == multiset(s) + multiset{i}
  {
    if s != [] && s[|s| - 1].start > i.start {
      InsertedConserves(s[..|s| - 1], i);
      assert s == s[..|s| - 1] + [s[|s| - 1]];
    }
  }

  /** Any sorting by start will do; the queries do not depend on the order of equal starts. */
  method SortByStart<V>(s: seq<Interval<V>>) returns (r: seq<Interval<V>>)
    ensures Sorted(r) && multiset(r) == multiset(s)
  {
    r := [];
    var n := 0;
    while n < |s|
      invariant 0 <= n <= |s| && Sorted(r) && multiset(r) == multiset(s[..n])
    {
      InsertedSorted(r, s[n]);
      InsertedConserves(r, s[n]);
      assert s[..n + 1] == s[..n] + [s[n]];
      r := Inserted(r, s[n]);
      n := n + 1;
    }
    assert s[..n] == s;
  }

  method Partition<V>(s: seq<Interval<V>>, center: int)
    returns (lefts: seq<Interval<V>>, middles: seq<Interval<V>>, rights: seq<Interval<V>>)
    ensures lefts == Part(s, center, Left) && middles == Part(s, center, Middle) && rights == Part(s, center, Right)
  {
    lefts, middles, rights := [], [], [];
    var n := 0;
    while n < |s|
      invariant 0 <= n <= |s|
      invariant lefts == Part(s[..n], center, Left) && middles == Part(s[..n], center, Middle)
      invariant rights == Part(s[..n], center, Right)
    {
      PartNext(s, center, Left, n);
      PartNext(s, center, Middle, n);
      PartNext(s, center, Right, n);
      if s[n].stop < center {
        lefts := lefts + [s[n]];
      } else if s[n].start > center {
        rights := rights + [s[n]];
      } else {
        middles := middles + [s[n]];
      }
      n := n + 1;
    }
    assert s[..n] == s;
  }

  /** The width of the depth counter: a depth of zero wraps around. */
  const DEPTHS: nat := 0x1_0000_0000_0000_0000

  function Lower(depth: nat): nat { if depth == 0 then DEPTHS - 1 else depth - 1 }

  /** The greatest height a depth setting allows. */
  function Allowed(depth: nat): nat { if depth == 0 then DEPTHS else depth }

  /** What construction promises of its result. */
  ghost predicate Holds<V>(t: Tree<V>, s: seq<Interval<V>>, depth: nat) {
    t.Node? && Sound(t) && multiset(Items(t)) == multiset(s) && Height(t) <= Allowed(depth)
  }

  method Build<V>(
      ivals: seq<Interval<V>>, depth: nat, minbucket: nat, maxbucket: nat, leftextent: int, rightextent: int)
    returns (t: Tree<V>)
    requires Normalised(ivals) && depth < DEPTHS
    requires (leftextent == 0 && rightextent == 0) || Sorted(ivals)
    requires ivals != [] || depth == 1 || (minbucket > 0 && maxbucket > 0) || leftextent != 0 || rightextent != 0
    ensures Holds(t, ivals, depth)
    decreases |ivals|
  {
    var center := Center(ivals);
    var sorted := ivals;
    if leftextent == 0 && rightextent == 0 {
      sorted := SortByStart(ivals);
      NormalisedSame(ivals, sorted);
    }
    if Lower(depth) == 0 || (|ivals| < minbucket && |ivals| < maxbucket) {
      t := Node(center, sorted, Null, Null);
      LeafHolds(t, ivals, depth);
      return;
    }
    var leftp, rightp := leftextent, rightextent;
    if leftextent == 0 && rightextent == 0 {
      var last := GreatestStop(sorted);
      leftp, rightp := sorted[0].start, sorted[last].stop;
    }
    CenterSplits(ivals, sorted, center);
    var lefts, middles, rights := Partition(sorted, center);
    PartsNormalised(sorted, center);
    PartSorted(sorted, center, Left);
    PartSorted(sorted, center, Right);
    var left, right := Null, Null;
    if lefts != [] {
      left := Build(lefts, Lower(depth), minbucket, maxbucket, leftp, center);
    }
    if rights != [] {
      right := Build(rights, Lower(depth), minbucket, maxbucket, center, rightp);
    }
    t := Node(center, middles, left, right);
    NodeHolds(t, ivals, sorted, depth);
  }

  /** The middle between the least start and the greatest stop; unset, and never read, without intervals. */
  method Center<V>(s: seq<Interval<V>>) returns (center: int)
    requires Normalised(s)
    ensures s != [] ==> exists a, b :: 0 <= a < |s| && 0 <= b < |s| && s[a].start <= center <= s[b].stop
  {
    if s == [] {
      return 0;
    }
    var a := LeastStart(s);
    var b := GreatestStop(s);
    assert s[a].start <= s[b].start <= s[b].stop;
    HalfBetween(s[a].start, s[b].stop);
    center := Half(s[a].start + s[b].stop);
  }

  lemma {:induction false} SameMembers<V>(s: seq<Interval<V>>, r: seq<Interval<V>>)
    requires multiset(r) == multiset(s)
    ensures |r| == |s| && forall i :: i in r <==> i in s
  {
    assert |multiset(r)| == |r| && |multiset(s)| == |s|;
    assert forall i :: i in r <==> i in multiset(r);
    assert forall i :: i in s <==> i in multiset(s);
  }

  lemma {:induction false} NormalisedSame<V>(s: seq<Interval<V>>, r: seq<Interval<V>>)
    requires Normalised(s) && multiset(r) == multiset(s)
    ensures Normalised(r) && |r| == |s|
  {
    SameMembers(s, r);
    forall k | 0 <= k < |r|
      ensures r[k].start <= r[k].stop
    {
      assert r[k] in s;
    }
  }

  lemma {:induction false} CenterSplits<V>(s: seq<Interval<V>>, r: seq<Interval<V>>, center: int)
    requires multiset(r) == multiset(s)
    requires s != [] ==> exists a, b :: 0 <= a < |s| && 0 <= b < |s| && s[a].start <= center <= s[b].stop
    ensures s != [] ==> |Part(r, center, Left)| < |s| && |Part(r, center, Right)| < |s|
    ensures s == [] ==> r == []
  {
    SameMembers(s, r);
    if s != [] {
      var a, b :| 0 <= a < |s| && 0 <= b < |s| && s[a].start <= center <= s[b].stop;
      assert s[a] in r && s[b] in r;
      var a' :| 0 <= a' < |r| && r[a'] == s[a];
      var b' :| 0 <= b' < |r| && r[b'] == s[b];
      PartsAreSmaller(r, center, a', b');
    }
  }

  lemma {:induction false} PartNormalised<V>(s: seq<Interval<V>>, center: int, side: Side, part: seq<Interval<V>>)
    requires Normalised(s) && part == Part(s, center, side)
    ensures Normalised(part) && forall k :: 0 <= k < |part| ==> SideOf(part[k], center) == side
  {
    PartMembers(s, center, side);
    forall k | 0 <= k < |part|
      ensures part[k].start <= part[k].stop && SideOf(part[k], center) == side
    {
      assert part[k] in part;
    }
  }

  lemma {:induction false} PartsNormalised<V>(s: seq<Interval<V>>, center: int)
    requires Normalised(s)
    ensures Normalised(Part(s, center, Left)) && Normalised(Part(s, center, Middle))
              && Normalised(Part(s, center, Right))
    ensures StopsBelow(Part(s, center, Left), center) && Straddle(Part(s, center, Middle), center)
    ensures StartsAbove(Part(s, center, Right), center)
  {
    PartNormalised(s, center, Left, Part(s, center, Left));
    PartNormalised(s, center, Middle, Part(s, center, Middle));
    PartNormalised(s, center, Right, Part(s, center, Right));
  }

  lemma {:induction false} LeafHolds<V>(t: Tree<V>, s: seq<Interval<V>>, depth: nat)
    requires t.Node? && t.left.Null? && t.right.Null? && multiset(t.intervals) == multiset(s)
    requires Sorted(t.intervals) && Normalised(t.intervals)
    ensures Holds(t, s, depth)
  {
    assert Items(t) == t.intervals;
  }

  lemma {:induction false} BelowSame<V>(s: seq<Interval<V>>, r: seq<Interval<V>>, center: int)
    requires multiset(r) == multiset(s)
    ensures StopsBelow(s, center) ==> StopsBelow(r, center)
    ensures StartsAbove(s, center) ==> StartsAbove(r, center)
  {
    SameMembers(s, r);
    assert forall k :: 0 <= k < |r| ==> r[k] in s;
  }

  /** A child made from one part of the intervals. */
  ghost predicate ChildHolds<V>(t: Tree<V>, s: seq<Interval<V>>, depth: nat) {
    if s == [] then t == Null else Holds(t, s, depth)
  }

  lemma {:induction false} ChildFacts<V>(t: Tree<V>, s: seq<Interval<V>>, depth: nat)
    requires ChildHolds(t, s, depth)
    ensures Sound(t) && multiset(Items(t)) == multiset(s) && Height(t) <= Allowed(depth) && (t.Node? ==> Items(t) != [])
  {
    SameMembers(s, Items(t));
  }

  lemma {:induction false} NodeHolds<V>(t: Tree<V>, ivals: seq<Interval<V>>, s: seq<Interval<V>>, depth: nat)
    requires t.Node? && multiset(s) == multiset(ivals) && Sorted(s) && Normalised(s) && Lower(depth) != 0
    requires t.intervals == Part(s, t.center, Middle)
    requires ChildHolds(t.left, Part(s, t.center, Left), Lower(depth))
    requires ChildHolds(t.right, Part(s, t.center, Right), Lower(depth))
    ensures Holds(t, ivals, depth)
  {
    var lefts, rights := Part(s, t.center, Left), Part(s, t.center, Right);
    ChildFacts(t.left, lefts, Lower(depth));
    ChildFacts(t.right, rights, Lower(depth));
    PartsNormalised(s, t.center);
    PartSorted(s, t.center, Middle);
    BelowSame(lefts, Items(t.left), t.center);
    BelowSame(rights, Items(t.right), t.center);
    PartConserves(s, t.center);
  }

  // ---------- Queries ----------

  /** The intervals a pruned visit calls back with, in its order. */
  function VisitNear<V>(t: Tree<V>, start: int, stop: int): seq<Interval<V>> {
    match t
    case Null => []
    case Node(center, intervals, left, right) =>
      (if intervals != [] && !(stop < intervals[0].start) then intervals else [])
      + (if start <= center then VisitNear(left, start, stop) else [])
      + (if stop >= center then VisitNear(right, start, stop) else [])
  }

  datatype Query = Overlapping(start: int, stop: int) | Contained(start: int, stop: int)

  predicate Matches<V>(q: Query, i: Interval<V>) {
    match q
    case Overlapping(start, stop) => i.stop >= start && i.start <= stop
    case Contained(start, stop) => start <= i.start && i.stop <= stop
  }

  /** A linear filter. */
  function Matching<V>(q: Query, s: seq<Interval<V>>): seq<Interval<V>> {
    if s == [] then [] else (if Matches(q, s[0]) then [s[0]] else []) + Matching(q, s[1..])
  }

  /** The two find functions: a filter over what the pruned visit meets. */
  function Find<V>(t: Tree<V>, q: Query): seq<Interval<V>> {
    Matching(q, VisitNear(t, q.start, q.stop))
  }

  lemma {:induction false} MatchingConcat<V>(q: Query, s: seq<Interval<V>>, r: seq<Interval<V>>)
    ensures Matching(q, s + r) == Matching(q, s) + Matching(q, r)
  {
    if s == [] {
      assert s + r == r;
    } else {
      MatchingConcat(q, s[1..], r);
      assert (s + r)[1..] == s[1..] + r;
      Associate(if Matches(q, s[0]) then [s[0]] else [], Matching(q, s[1..]), Matching(q, r));
    }
  }

  lemma {:induction false} MatchingNone<V>(q: Query, s: seq<Interval<V>>)
    requires forall k :: 0 <= k < |s| ==> !Matches(q, s[k])
    ensures Matching(q, s) == []
  {
    if s != [] {
      MatchingNone(q, s[1..]);
    }
  }

  lemma {:induction false} MatchingThree<V>(q: Query, a: seq<Interval<V>>, b: seq<Interval<V>>, c: seq<Interval<V>>)
    ensures multiset(Matching(q, a + b + c)) ==
            multiset(Matching(q, a)) + multiset(Matching(q, b)) + multiset(Matching(q, c))
  {
    MatchingConcat(q, a + b, c);
    MatchingConcat(q, a, b);
  }

  lemma {:induction false} AllNormalised<V>(t: Tree<V>)
    requires Sound(t)
    ensures Normalised(Items(t))
  {
    if t.Node? {
      AllNormalised(t.left);
      AllNormalised(t.right);
    }
  }

  /** What a visit leaves out of one node's parts cannot match. */
  lemma {:induction false} PrunedParts<V>(t: Tree<V>, q: Query)
    requires t.Node? && Sound(t)
    ensures !(t.intervals != [] && !(q.stop < t.intervals[0].start)) ==> Matching(q, t.intervals) == []
    ensures !(q.start <= t.center) ==> Matching(q, Items(t.left)) == []
    ensures !(q.stop >= t.center) ==> Matching(q, Items(t.right)) == []
  {
    AllNormalised(t.left);
    AllNormalised(t.right);
    if t.intervals != [] && q.stop < t.intervals[0].start {
      MatchingNone(q, t.intervals);
    }
    if q.start > t.center {
      MatchingNone(q, Items(t.left));
    }
    if q.stop < t.center {
      MatchingNone(q, Items(t.right));
    }
  }

  /** The part of a visit that one node's own list contributes. */
  function NearHere<V>(t: Tree<V>, q: Query): seq<Interval<V>>
    requires t.Node?
  {
    if t.intervals != [] && !(q.stop < t.intervals[0].start) then t.intervals else []
  }

  function NearLeft<V>(t: Tree<V>, q: Query): seq<Interval<V>>
    requires t.Node?
  {
    if q.start <= t.center then VisitNear(t.left, q.start, q.stop) else []
  }

  function NearRight<V>(t: Tree<V>, q: Query): seq<Interval<V>>
    requires t.Node?
  {
    if q.stop >= t.center then VisitNear(t.right, q.start, q.stop) else []
  }

  lemma {:induction false} FindParts<V>(t: Tree<V>, q: Query)
    requires t.Node?
    ensures multiset(Find(t, q)) ==
            multiset(Matching(q, NearHere(t, q))) + multiset(Matching(q, NearLeft(t, q)))
                + multiset(Matching(q, NearRight(t, q)))
  {
    MatchingThree(q, NearHere(t, q), NearLeft(t, q), NearRight(t, q));
  }

  lemma {:induction false} ItemsParts<V>(t: Tree<V>, q: Query)
    requires t.Node?
    ensures multiset(Matching(q, Items(t))) ==
            multiset(Matching(q, Items(t.left))) + multiset(Matching(q, t.intervals))
                + multiset(Matching(q, Items(t.right)))
  {
    MatchingThree(q, Items(t.left), t.intervals, Items(t.right));
  }

  lemma {:induction false} Rearrange<T>(here: multiset<T>, left: multiset<T>, right: multiset<T>)
    ensures here + left + right == left + here + right
  {
  }

  /** Pruning loses nothing and visits nothing twice. */
  lemma {:induction false} FindIsFilter<V>(t: Tree<V>, q: Query)
    requires Sound(t)
    ensures multiset(Find(t, q)) == multiset(Matching(q, Items(t)))
    decreases t, 1
  {
    if t.Node? {
      var here, left, right := Matching(q, t.intervals), Matching(q, Items(t.left)), Matching(q, Items(t.right));
      NodeFinds(t, q);
      ItemsParts(t, q);
      Rearrange(multiset(here), multiset(left), multiset(right));
    }
  }

  lemma {:induction false} NodeFinds<V>(t: Tree<V>, q: Query)
    requires t.Node? && Sound(t)
    ensures multiset(Find(t, q)) ==
            multiset(Matching(q, t.intervals)) + multiset(Matching(q, Items(t.left)))
                + multiset(Matching(q, Items(t.right)))
    decreases t, 0
  {
    PrunedParts(t, q);
    FindParts(t, q);
    if q.start <= t.center {
      FindIsFilter(t.left, q);
    }
    if q.stop >= t.center {
      FindIsFilter(t.right, q);
    }
  }

  /** A filter keeps every copy of what matches and nothing else. */
  lemma {:induction false} CountMatching<V>(q: Query, s: seq<Interval<V>>, i: Interval<V>)
    ensures multiset(Matching(q, s))[i] == if Matches(q, i) then multiset(s)[i] else 0
  {
    if s != [] {
      CountMatching(q, s[1..], i);
      HeadTail(s);
      var head := if Matches(q, s[0]) then [s[0]] else [];
      assert multiset(s) == multiset([s[0]]) + multiset(s[1..]);
      assert multiset(head + Matching(q, s[1..])) == multiset(head) + multiset(Matching(q, s[1..]));
    }
  }

  /** What a filter finds does not depend on the order of the intervals. */
  lemma {:induction false} MatchingSame<V>(q: Query, s: seq<Interval<V>>, r: seq<Interval<V>>)
    requires multiset(s) == multiset(r)
    ensures multiset(Matching(q, s)) == multiset(Matching(q, r))
  {
    var a, b := multiset(Matching(q, s)), multiset(Matching(q, r));
    forall i | i in a + b
      ensures a[i] == b[i]
    {
      CountMatching(q, s, i);
      CountMatching(q, r, i);
    }
    assert a <= b && b <= a;
  }

  /** Every query on a built tree returns exactly what a linear filter of the input returns. */
  lemma {:induction false} BuiltTreeAnswers<V>(t: Tree<V>, ivals: seq<Interval<V>>, depth: nat, q: Query)
    requires Holds(t, ivals, depth)
    ensures multiset(Find(t, q)) == multiset(Matching(q, ivals))
  {
    FindIsFilter(t, q);
    MatchingSame(q, Items(t), ivals);
  }

  // ---------- What a query means ----------

  /** A point of a closed range. */
  predicate Lies(x: int, start: int, stop: int) { start <= x <= stop }

  ghost predicate Meet<V>(i: Interval<V>, start: int, stop: int) {
    exists x :: Lies(x, start, stop) && Lies(x, i.start, i.stop)
  }

  ghost predicate LiesWithin(a: int, b: int, start: int, stop: int) {
    forall x :: Lies(x, a, b) ==> Lies(x, start, stop)
  }

  lemma {:induction false} OverlappingMeets<V>(i: Interval<V>, start: int, stop: int)
    requires i.start <= i.stop && start <= stop
    ensures Matches(Overlapping(start, stop), i) <==> Meet(i, start, stop)
  {
    var x := if start < i.start then i.start else start;
    if Matches(Overlapping(start, stop), i) {
      assert Lies(x, start, stop) && Lies(x, i.start, i.stop);
    }
  }

  lemma {:induction false} WithinIsEnds(a: int, b: int, start: int, stop: int)
    requires a <= b
    ensures LiesWithin(a, b, start, stop) <==> start <= a && b <= stop
  {
    if LiesWithin(a, b, start, stop) {
      assert Lies(a, a, b) && Lies(b, a, b);
    }
  }

  /**
    * Which intervals a query on a built tree returns, each as often as it was put in: those that
    * share a point with the closed range, or all of whose points lie in it. For a range given
    * backwards they are those that cover everything between its ends.
    */
  lemma {:induction false} BuiltTreeFinds<V>(t: Tree<V>, ivals: seq<Interval<V>>, depth: nat, q: Query, i: Interval<V>)
    requires Holds(t, ivals, depth) && i.start <= i.stop
    ensures q.Overlapping? && q.start <= q.stop ==>
              multiset(Find(t, q))[i] == if Meet(i, q.start, q.stop) then multiset(ivals)[i] else 0
    ensures q.Overlapping? && q.start > q.stop ==>
              multiset(Find(t, q))[i] == if LiesWithin(q.stop, q.start, i.start, i.stop) then multiset(ivals)[i] else 0
    ensures q.Contained? ==>
              multiset(Find(t, q))[i] == if LiesWithin(i.start, i.stop, q.start, q.stop) then multiset(ivals)[i] else 0
  {
    BuiltTreeAnswers(t, ivals, depth, q);
    CountMatching(q, ivals, i);
    WithinIsEnds(i.start, i.stop, q.start, q.stop);
    if q.Overlapping? && q.start <= q.stop {
      OverlappingMeets(i, q.start, q.stop);
    } else if q.start > q.stop {
      WithinIsEnds(q.stop, q.start, i.start, i.stop);
    }
  }

  /** A query for one point returns the intervals that contain it. */
  lemma {:induction false} PointQuery<V>(t: Tree<V>, ivals: seq<Interval<V>>, depth: nat, x: int, i: Interval<V>)
    requires Holds(t, ivals, depth) && i.start <= i.stop
    ensures multiset(Find(t, Overlapping(x, x)))[i] == if i.start <= x <= i.stop then multiset(ivals)[i] else 0
  {
    BuiltTreeFinds(t, ivals, depth, Overlapping(x, x), i);
    if i.start <= x <= i.stop {
      assert Lies(x, x, x) && Lies(x, i.start, i.stop);
    }
  }

  // ---------- The validity check ----------

  datatype Validity = Validity(valid: bool, first: int, second: int)

  function Min(a: int, b: int): int { if b < a then b else a }

  function LeastOfStarts<V>(s: seq<Interval<V>>, acc: int): int {
    if s == [] then acc else Min(LeastOfStarts(s[..|s| - 1], acc), s[|s| - 1].start)
  }

  function GreatestOfStops<V>(s: seq<Interval<V>>): int
    requires s != []
  {
    if |s| == 1 then s[0].stop
    else var m := GreatestOfStops(s[..|s| - 1]); if m < s[|s| - 1].stop then s[|s| - 1].stop else m
  }

  /** The check as written, with both extents folded by the minimum, over scalars from `low` to `high`. */
  function IsValid<V>(t: Tree<V>, low: int, high: int): Validity
    requires t.Node?
    decreases t, 1
  {
    var r := if t.intervals == [] then Validity(true, high, low)
             else Validity(true, LeastOfStarts(t.intervals, high), Min(low, GreatestOfStops(t.intervals)));
    var l := CheckLeft(t, r, low, high);
    if !l.valid then l
    else
      var b := CheckRight(t, l, low, high);
      if !b.valid then b else b.(valid := Sorted(t.intervals))
  }

  function CheckLeft<V>(t: Tree<V>, r: Validity, low: int, high: int): Validity
    requires t.Node?
    decreases t, 0
  {
    if t.left.Null? then r
    else
      var v := IsValid(t.left, low, high);
      Validity(r.valid && v.valid && !(v.second >= t.center), Min(r.first, v.first), Min(r.second, v.second))
  }

  function CheckRight<V>(t: Tree<V>, r: Validity, low: int, high: int): Validity
    requires t.Node?
    decreases t, 0
  {
    if t.right.Null? then r
    else
      var v := IsValid(t.right, low, high);
      Validity(r.valid && v.valid && !(v.first <= t.center), Min(r.first, v.first), Min(r.second, v.second))
  }

  predicate InRange<V>(s: seq<Interval<V>>, low: int, high: int) {
    forall k :: 0 <= k < |s| ==> low <= s[k].start <= s[k].stop <= high
  }

  lemma {:induction false} LeastConcat<V>(a: seq<Interval<V>>, b: seq<Interval<V>>, acc: int)
    ensures LeastOfStarts(a + b, acc) == Min(LeastOfStarts(a, acc), LeastOfStarts(b, acc))
              && LeastOfStarts(a, acc) <= acc
  {
    if b == [] {
      assert a + b == a;
      LeastAtMost(a, acc);
    } else {
      LeastConcat(a, b[..|b| - 1], acc);
      assert (a + b)[..|a + b| - 1] == a + b[..|b| - 1];
    }
  }

  lemma {:induction false} LeastAtMost<V>(s: seq<Interval<V>>, acc: int)
    ensures LeastOfStarts(s, acc) <= acc
  {
    if s != [] {
      LeastAtMost(s[..|s| - 1], acc);
    }
  }

  lemma {:induction false} LeastAbove<V>(s: seq<Interval<V>>, acc: int, center: int)
    requires StartsAbove(s, center) && acc > center
    ensures LeastOfStarts(s, acc) > center
  {
    if s != [] {
      LeastAbove(s[..|s| - 1], acc, center);
    }
  }

  lemma {:induction false} GreatestInRange<V>(s: seq<Interval<V>>, low: int, high: int)
    requires s != [] && InRange(s, low, high)
    ensures GreatestOfStops(s) >= low
  {
    if |s| > 1 {
      GreatestInRange(s[..|s| - 1], low, high);
    }
  }

  lemma {:induction false} RangeParts<V>(t: Tree<V>, low: int, high: int)
    requires t.Node? && InRange(Items(t), low, high)
    ensures InRange(Items(t.left), low, high) && InRange(t.intervals, low, high) && InRange(Items(t.right), low, high)
  {
    var l, m, r := Items(t.left), t.intervals, Items(t.right);
    assert forall k :: 0 <= k < |l| ==> l[k] == Items(t)[k];
    assert forall k :: 0 <= k < |m| ==> m[k] == Items(t)[|l| + k];
    assert forall k :: 0 <= k < |r| ==> r[k] == Items(t)[|l| + |m| + k];
  }

  lemma {:induction false} LeftChecks<V>(t: Tree<V>, r: Validity, low: int, high: int)
    requires t.Node? && Sound(t) && InRange(Items(t), low, high) && r.valid && r.second == low && r.first <= high
    ensures CheckLeft(t, r, low, high) == Validity(true, Min(r.first, LeastOfStarts(Items(t.left), high)), low)
    decreases t, 0
  {
    RangeParts(t, low, high);
    if t.left.Node? {
      SoundIsValid(t.left, low, high);
      assert low <= Items(t.left)[0].stop < t.center;
    }
  }

  lemma {:induction false} RightChecks<V>(t: Tree<V>, r: Validity, low: int, high: int)
    requires t.Node? && Sound(t) && InRange(Items(t), low, high) && r.valid && r.second == low && r.first <= high
    ensures CheckRight(t, r, low, high) == Validity(true, Min(r.first, LeastOfStarts(Items(t.right), high)), low)
    decreases t, 0
  {
    RangeParts(t, low, high);
    if t.right.Node? {
      SoundIsValid(t.right, low, high);
      assert t.center < Items(t.right)[0].start <= high;
      LeastAbove(Items(t.right), high, t.center);
    }
  }

  /**
    * The check accepts every sound tree. Its lower extent is the least start; its upper extent
    * is folded with the minimum and so is always the smallest scalar, whatever the stops are.
    */
  lemma {:induction false} SoundIsValid<V>(t: Tree<V>, low: int, high: int)
    requires t.Node? && Sound(t) && InRange(Items(t), low, high)
    ensures IsValid(t, low, high) == Validity(true, LeastOfStarts(Items(t), high), low)
    decreases t, 1
  {
    RangeParts(t, low, high);
    if t.intervals != [] {
      GreatestInRange(t.intervals, low, high);
    }
    LeastAtMost(t.intervals, high);
    LeastAtMost(Items(t.left), high);
    var r := Validity(true, LeastOfStarts(t.intervals, high), low);
    LeftChecks(t, r, low, high);
    RightChecks(t, CheckLeft(t, r, low, high), low, high);
    LeastConcat(Items(t.left), t.intervals, high);
    LeastConcat(Items(t.left) + t.intervals, Items(t.right), high);
  }

  /**
    * What the check finds out: every list is sorted, and everything below a right child starts
    * above the centre. Of a left child it only asks that the smallest scalar is below the centre.
    */
  predicate Passes<V>(t: Tree<V>, low: int, high: int) {
    match t
    case Null => true
    case Node(center, intervals, left, right) =>
      && Sorted(intervals)
      && Passes(left, low, high) && (left.Node? ==> low < center)
      && Passes(right, low, high) && (right.Node? ==> StartsAbove(Items(right), center) && center < high)
  }

  lemma {:induction false} LeastDecides<V>(s: seq<Interval<V>>, acc: int, center: int)
    ensures LeastOfStarts(s, acc) > center <==> StartsAbove(s, center) && acc > center
  {
    if s != [] {
      LeastDecides(s[..|s| - 1], acc, center);
    }
  }

  lemma {:induction false} LeftIff<V>(t: Tree<V>, r: Validity, low: int, high: int)
    requires t.Node? && InRange(Items(t.left), low, high) && r.valid && r.second == low && r.first <= high
    ensures var v := CheckLeft(t, r, low, high);
            && v.second == low && (v.valid <==> Passes(t.left, low, high) && (t.left.Node? ==> low < t.center))
            && (v.valid ==> v.first == Min(r.first, LeastOfStarts(Items(t.left), high)))
    decreases t, 0
  {
    if t.left.Node? {
      ValidIff(t.left, low, high);
    }
  }

  lemma {:induction false} RightIff<V>(t: Tree<V>, r: Validity, low: int, high: int)
    requires t.Node? && InRange(Items(t.right), low, high) && r.valid && r.second == low && r.first <= high
    ensures var v := CheckRight(t, r, low, high);
            && v.second == low
            && (v.valid <==> Passes(t.right, low, high) &&
                             (t.right.Node? ==> StartsAbove(Items(t.right), t.center) && t.center < high))
            && (v.valid ==> v.first == Min(r.first, LeastOfStarts(Items(t.right), high)))
    decreases t, 0
  {
    if t.right.Node? {
      ValidIff(t.right, low, high);
      LeastDecides(Items(t.right), high, t.center);
    }
  }

  /** The check succeeds exactly then, whether the tree is sound or not. */
  lemma {:induction false} ValidIff<V>(t: Tree<V>, low: int, high: int)
    requires t.Node? && InRange(Items(t), low, high)
    ensures var v := IsValid(t, low, high);
            && v.second == low && (v.valid <==> Passes(t, low, high))
            && (v.valid ==> v.first == LeastOfStarts(Items(t), high))
    decreases t, 1
  {
    RangeParts(t, low, high);
    if t.intervals != [] {
      GreatestInRange(t.intervals, low, high);
    }
    LeastAtMost(t.intervals, high);
    LeastAtMost(Items(t.left), high);
    var r := Validity(true, LeastOfStarts(t.intervals, high), low);
    LeftIff(t, r, low, high);
    var l := CheckLeft(t, r, low, high);
    if l.valid {
      RightIff(t, l, low, high);
    }
    LeastConcat(Items(t.left), t.intervals, high);
    LeastConcat(Items(t.left) + t.intervals, Items(t.right), high);
  }

  /** So an interval on the wrong side of a centre goes unnoticed. */
  lemma {:induction false} LeftIsNotChecked(low: int, high: int)
    requires low < 0 && high > 9
    ensures var t := Node(0, [Interval(0, 0, 0)], Node(5, [Interval(5, 9, 0)], Null, Null), Null);
            IsValid(t, low, high).valid && !Sound(t)
  {
    var leaf := Node(5, [Interval(5, 9, 0)], Null, Null);
    var t := Node(0, [Interval(0, 0, 0)], leaf, Null);
    assert Items(leaf) == [Interval(5, 9, 0)];
    assert Items(t) == [Interval(5, 9, 0), Interval(0, 0, 0)];
    assert Passes(leaf, low, high) && Passes(t, low, high);
    ValidIff(t, low, high);
    assert Items(leaf)[0].stop >= t.center;
  }

  lemma {:induction false} RangeSame<V>(s: seq<Interval<V>>, r: seq<Interval<V>>, low: int, high: int)
    requires InRange(s, low, high) && multiset(r) == multiset(s)
    ensures InRange(r, low, high)
  {
    SameMembers(s, r);
    forall k | 0 <= k < |r|
      ensures low <= r[k].start <= r[k].stop <= high
    {
      assert r[k] in s;
    }
  }

  /** The assertion at the end of construction holds, for scalars from `low` to `high`. */
  lemma {:induction false} BuiltTreeIsValid<V>(t: Tree<V>, ivals: seq<Interval<V>>, depth: nat, low: int, high: int)
    requires Holds(t, ivals, depth) && InRange(ivals, low, high)
    ensures IsValid(t, low, high).valid
  {
    RangeSame(ivals, Items(t), low, high);
    SoundIsValid(t, low, high);
  }
}
