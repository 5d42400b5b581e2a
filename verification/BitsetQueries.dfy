/** What the searches and counts of a bitset answer, on plain sequences of bits. */
module BitsetQueries {
  import opened BitBlocks
  import opened BitsetValues
  import opened BitsetShifts
  import opened BitsetEdits

  // ---------- Counting ----------

  function Ones(s: seq<bool>): nat {
    if s == [] then 0 else Ones(s[..|s| - 1]) + if s[|s| - 1] then 1 else 0
  }

  lemma {:induction false} OnesConcat(s: seq<bool>, t: seq<bool>)
    ensures Ones(s + t) == Ones(s) + Ones(t)
  {
    if t == [] {
      assert s + t == s;
    } else {
      var n := |t| - 1;
      OnesConcat(s, t[..n]);
      assert (s + t)[..|s| + n] == s + t[..n];
    }
  }

  lemma {:induction false} OnesNext(s: seq<bool>, i: nat)
    requires i < |s|
    ensures Ones(s[..i + 1]) == Ones(s[..i]) + if s[i] then 1 else 0
  {
    assert s[..i + 1][..i] == s[..i];
  }

  lemma {:induction false} OnesNone(n: nat)
    ensures Ones(Fill(n, false)) == 0
  {
    if n > 0 {
      OnesNone(n - 1);
      assert Fill(n, false)[..n - 1] == Fill(n - 1, false);
    }
  }

  // ---------- Searching ----------

  const NPOS: int := -1

  /** The first set position from `i` on. */
  function NextOn(s: seq<bool>, i: nat): (r: int)
    ensures r == NPOS || i <= r < |s|
    decreases |s| - i
  {
    if i >= |s| then NPOS else if s[i] then i else NextOn(s, i + 1)
  }

  lemma {:induction false} NextOnIs(s: seq<bool>, i: nat, r: nat)
    requires i <= r < |s| && s[r] && forall k :: i <= k < r ==> !s[k]
    ensures NextOn(s, i) == r
    decreases r - i
  {
    if i < r {
      NextOnIs(s, i + 1, r);
    }
  }

  lemma {:induction false} NextOnNone(s: seq<bool>, i: nat)
    requires forall k :: i <= k < |s| ==> !s[k]
    ensures NextOn(s, i) == NPOS
    decreases |s| - i
  {
    if i < |s| {
      NextOnNone(s, i + 1);
    }
  }

  /** The least set position from `i` on, or none: both directions. */
  lemma {:induction false} NextOnLeast(s: seq<bool>, i: nat)
    ensures var r := NextOn(s, i);
            && (r == NPOS <==> forall k :: i <= k < |s| ==> !s[k])
            && (r != NPOS ==> i <= r < |s| && s[r] && forall k :: i <= k < r ==> !s[k])
    decreases |s| - i
  {
    if i < |s| {
      NextOnLeast(s, i + 1);
    }
  }

  // ---------- Visiting ----------

  /** The set positions from `i` on, in ascending order. */
  function OnPositions(s: seq<bool>, i: nat): seq<nat>
    decreases |s| - i
  {
    if i >= |s| then [] else if s[i] then [i] + OnPositions(s, i + 1) else OnPositions(s, i + 1)
  }

  lemma {:induction false} OnPositionsNext(s: seq<bool>, i: nat)
    ensures var r := NextOn(s, i);
            OnPositions(s, i) == if r == NPOS then [] else [r] + OnPositions(s, r + 1)
    decreases |s| - i
  {
    if i < |s| {
      OnPositionsNext(s, i + 1);
    }
  }

  predicate Ascending(t: seq<nat>) {
    forall a, b :: 0 <= a < b < |t| ==> t[a] < t[b]
  }

  lemma {:induction false} AscendingCons(x: nat, t: seq<nat>)
    requires Ascending(t) && forall p :: p in t ==> x < p
    ensures Ascending([x] + t)
  {
    var u := [x] + t;
    forall a, b | 0 <= a < b < |u|
      ensures u[a] < u[b]
    {
      assert u[b] == t[b - 1] && u[b] in t;
      if a > 0 {
        assert u[a] == t[a - 1];
      }
    }
  }

  lemma {:induction false} OnPositionsMembers(s: seq<bool>, i: nat, p: nat)
    ensures p in OnPositions(s, i) <==> i <= p < |s| && s[p]
    decreases |s| - i
  {
    if i < |s| {
      OnPositionsMembers(s, i + 1, p);
    }
  }

  lemma {:induction false} OnPositionsAscend(s: seq<bool>, i: nat)
    ensures Ascending(OnPositions(s, i))
    decreases |s| - i
  {
    if i < |s| {
      OnPositionsAscend(s, i + 1);
      var tail := OnPositions(s, i + 1);
      forall p | p in tail
        ensures i < p
      {
        OnPositionsMembers(s, i + 1, p);
      }
      AscendingCons(i, tail);
    }
  }

  lemma {:induction false} OnPositionsCount(s: seq<bool>, i: nat)
    requires i <= |s|
    ensures |OnPositions(s, i)| == Ones(s) - Ones(s[..i])
    decreases |s| - i
  {
    if i == |s| {
      assert s[..i] == s;
    } else {
      OnPositionsCount(s, i + 1);
      OnesNext(s, i);
    }
  }

  /** Exactly the set positions, each once, in ascending order, and as many as the count. */
  ghost predicate VisitsExactly(t: seq<nat>, s: seq<bool>) {
    Ascending(t) && (forall p: nat :: p in t <==> p < |s| && s[p]) && |t| == Ones(s)
  }

  lemma {:induction false} OnPositionsExact(s: seq<bool>)
    ensures VisitsExactly(OnPositions(s, 0), s)
  {
    OnPositionsAscend(s, 0);
    OnPositionsCount(s, 0);
    forall p: nat
      ensures p in OnPositions(s, 0) <==> p < |s| && s[p]
    {
      OnPositionsMembers(s, 0, p);
    }
  }

  /** Visiting stops at the first position the callback refuses, after having visited it. */
  function TakeThrough(t: seq<nat>, more: nat -> bool): seq<nat> {
    if t == [] then [] else if more(t[0]) then [t[0]] + TakeThrough(t[1..], more) else [t[0]]
  }

  lemma {:induction false} TakeAll(t: seq<nat>, more: nat -> bool)
    requires forall p :: p in t ==> more(p)
    ensures TakeThrough(t, more) == t
  {
    if t != [] {
      TakeAll(t[1..], more);
    }
  }

  /** A callback that refuses none of the set positions sees exactly those. */
  lemma {:induction false} VisitsAll(s: seq<bool>, more: nat -> bool)
    requires forall p: nat :: p < |s| && s[p] ==> more(p)
    ensures VisitsExactly(TakeThrough(OnPositions(s, 0), more), s)
  {
    OnPositionsExact(s);
    TakeAll(OnPositions(s, 0), more);
  }

  // ---------- Blocks are determined by the bits they show ----------

  lemma {:induction false} SameBlocks(a: seq<Block>, b: seq<Block>, width: nat, s: seq<bool>)
    requires Shows(a, width, s) && Shows(b, width, s) && |a| == |b|
    ensures a == b
  {
    forall q | 0 <= q < |a|
      ensures a[q] == b[q]
    {
      forall r | 0 <= r < width
        ensures a[q][r] == b[q][r]
      {
        var p := q * width + r;
        Position(p, q, r, width);
        assert At(a, width, p) == At(b, width, p);
      }
    }
  }

  /** The blocks of a bitset that is all ones: the last one may be partly used. */
  function FullBlock(width: nat, n: nat, i: nat): Block
    requires width > 0
  {
    var extra := BitIndex(n, width);
    if extra > 0 && i == BlocksRequired(n, width) - 1 then Shr(Fill(width, true), width - extra) else Fill(width, true)
  }

  lemma {:induction false} FullShows(blocks: seq<Block>, width: nat, n: nat)
    requires width > 0 && |blocks| == BlocksRequired(n, width)
    requires forall i :: 0 <= i < |blocks| ==> blocks[i] == FullBlock(width, n, i)
    ensures Shows(blocks, width, Fill(n, true))
  {
    var extra := BitIndex(n, width);
    assert WellFormed(blocks, width);
    forall p: nat
      ensures At(blocks, width, p) == (p < n)
    {
      RequiredCovers(n, width, p);
      Compare(n, p, width);
      if extra > 0 {
        ShrBit(Fill(width, true), width - extra, BitIndex(p, width));
      }
    }
  }

  lemma {:induction false} ZerosShow(blocks: seq<Block>, width: nat, n: nat)
    requires width > 0 && forall i :: 0 <= i < |blocks| ==> blocks[i] == Fill(width, false)
    ensures Shows(blocks, width, Fill(n, false))
  {
    assert WellFormed(blocks, width);
  }

  /** The used bits of the blocks, end to end. */
  lemma {:induction false} FlatShows(blocks: seq<Block>, width: nat)
    requires WellFormed(blocks, width)
    ensures Shows(blocks, width, Flat(blocks))
  {
    assert Shows([], width, []);
    AlignedShows([], width, [], blocks);
    assert [] + blocks == blocks && [] + Flat(blocks) == Flat(blocks);
  }

  lemma {:induction false} FlatUsed(blocks: seq<Block>, width: nat, s: seq<bool>)
    requires Shows(blocks, width, s) && |blocks| == BlocksRequired(|s|, width)
    ensures |Flat(blocks)| >= |s| && Flat(blocks) == s + Fill(|Flat(blocks)| - |s|, false)
  {
    var flat := Flat(blocks);
    FlatShows(blocks, width);
    if |flat| < |s| {
      var p := |flat|;
      FlatLength(blocks, width);
      RequiredCovers(|s|, width, p);
      Position(p, |blocks|, 0, width);
    }
    forall p | 0 <= p < |flat|
      ensures flat[p] == (p < |s| && s[p])
    {
      assert At(blocks, width, p) == flat[p];
    }
  }
}
