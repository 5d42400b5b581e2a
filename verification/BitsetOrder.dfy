/** Bitsets compare by their number first and by their length second. */
module BitsetOrder {
  import opened Arithmetic
  import opened BitBlocks
  import opened BitsetValues
  import opened BitsetEdits
  import opened BitsetQueries
  import opened DynamicBitset
  import opened Sequences

  /** The number a sequence of bits stands for, the first bit being the least significant. */
  function Number(s: seq<bool>): nat {
    if s == [] then 0 else Number(s[..|s| - 1]) + if s[|s| - 1] then Power2(|s| - 1) else 0
  }

  predicate LessThan(a: seq<bool>, b: seq<bool>) {
    Number(a) < Number(b) || (Number(a) == Number(b) && |a| < |b|)
  }

  lemma {:induction false} NumberBound(s: seq<bool>)
    ensures Number(s) < Power2(|s|)
  {
    if s != [] {
      NumberBound(s[..|s| - 1]);
    }
  }

  /** Sequences of one length are told apart by their numbers. */
  lemma {:induction false} NumberInjective(s: seq<bool>, t: seq<bool>)
    requires |s| == |t| && Number(s) == Number(t)
    ensures s == t
  {
    if s != [] {
      var n := |s| - 1;
      NumberBound(s[..n]);
      NumberBound(t[..n]);
      NumberInjective(s[..n], t[..n]);
      assert s == s[..n] + [s[n]] && t == t[..n] + [t[n]];
    }
  }

  /** A strict total order: exactly one of less, equal and greater, and less is transitive. */
  lemma {:induction false} StrictTotalOrder(a: seq<bool>, b: seq<bool>, c: seq<bool>)
    ensures !LessThan(a, a)
    ensures LessThan(a, b) && LessThan(b, c) ==> LessThan(a, c)
    ensures a == b <==> !LessThan(a, b) && !LessThan(b, a)
    ensures !(LessThan(a, b) && LessThan(b, a))
  {
    if |a| == |b| && Number(a) == Number(b) {
      NumberInjective(a, b);
    }
  }

  // ---------- Numbers of blocks ----------

  lemma {:induction false} NumberConcat(s: seq<bool>, t: seq<bool>)
    ensures Number(s + t) == Number(s) + Power2(|s|) * Number(t)
  {
    if t == [] {
      assert s + t == s;
    } else {
      var n := |t| - 1;
      NumberConcat(s, t[..n]);
      assert (s + t)[..|s| + n] == s + t[..n];
      PowerAdd(|s|, n);
      Distribute(Power2(|s|), Number(t[..n]), Power2(n));
    }
  }

  lemma {:induction false} NumberZeros(n: nat)
    ensures Number(Fill(n, false)) == 0
  {
    if n > 0 {
      NumberZeros(n - 1);
      assert Fill(n, false)[..n - 1] == Fill(n - 1, false);
    }
  }

  lemma {:induction false} NumberOnes(n: nat)
    ensures Number(Fill(n, true)) == Power2(n) - 1
  {
    if n > 0 {
      NumberOnes(n - 1);
      assert Fill(n, true)[..n - 1] == Fill(n - 1, true);
    }
  }

  /** The mask arithmetic: a power of two less one has exactly the low bits set. */
  lemma {:induction false} LowOnesNumber(n: nat, width: nat)
    requires n <= width
    ensures Number(LowOnes(n, width)) == Power2(n) - 1
  {
    assert LowOnes(n, width) == Fill(n, true) + Fill(width - n, false);
    NumberOnes(n);
    NumberZeros(width - n);
    NumberConcat(Fill(n, true), Fill(width - n, false));
  }

  /** A higher digit outweighs everything below it. */
  lemma {:induction false} HighDigit(low: nat, low': nat, base: nat, high: nat, high': nat)
    requires low < base && high < high'
    ensures low + base * high < low' + base * high'
  {
    Distribute(base, high, high' - high);
    assert base * (high' - high) >= base by {
      Distribute(base, 1, high' - high - 1);
    }
  }

  lemma {:induction false} FlatConcat(a: seq<Block>, b: seq<Block>)
    ensures Flat(a + b) == Flat(a) + Flat(b)
  {
    if b == [] {
      assert a + b == a;
    } else {
      var n := |b| - 1;
      FlatConcat(a, b[..n]);
      assert (a + b)[..|a| + n] == a + b[..n];
      Associate(Flat(a), Flat(b[..n]), b[n]);
    }
  }

  lemma {:induction false} SplitAt(a: seq<Block>, i: nat)
    requires i < |a|
    ensures Number(Flat(a)) == Number(Flat(a[..i])) + Power2(|Flat(a[..i])|) * Number(a[i] + Flat(a[i + 1..]))
  {
    assert a == a[..i] + a[i..] && a[i..] == [a[i]] + a[i + 1..];
    FlatConcat(a[..i], a[i..]);
    FlatConcat([a[i]], a[i + 1..]);
    assert [a[i]][..0] == [] && Flat([a[i]]) == a[i];
    NumberConcat(Flat(a[..i]), a[i] + Flat(a[i + 1..]));
  }

  /** The topmost differing block decides. */
  lemma {:induction false} TopDecides(a: seq<Block>, b: seq<Block>, width: nat, i: nat)
    requires WellFormed(a, width) && WellFormed(b, width) && |a| == |b| && i < |a|
    requires a[i + 1..] == b[i + 1..] && Number(a[i]) < Number(b[i])
    ensures Number(Flat(a)) < Number(Flat(b))
  {
    var rest := Flat(a[i + 1..]);
    SplitAt(a, i);
    SplitAt(b, i);
    FlatLength(a[..i], width);
    FlatLength(b[..i], width);
    NumberConcat(a[i], rest);
    NumberConcat(b[i], rest);
    NumberBound(Flat(a[..i]));
    HighDigit(Number(Flat(a[..i])), Number(Flat(b[..i])), Power2(|Flat(a[..i])|),
              Number(a[i] + rest), Number(b[i] + rest));
  }

  lemma {:induction false} FlatZeros(a: seq<Block>, width: nat)
    requires forall i :: 0 <= i < |a| ==> a[i] == Fill(width, false)
    ensures Number(Flat(a)) == 0
  {
    if a != [] {
      var n := |a| - 1;
      FlatZeros(a[..n], width);
      NumberZeros(width);
      NumberConcat(Flat(a[..n]), a[n]);
    }
  }

  /** Zero blocks at the top do not count. */
  lemma {:induction false} ZeroTop(a: seq<Block>, width: nat, n: nat)
    requires n <= |a| && forall i :: n <= i < |a| ==> a[i] == Fill(width, false)
    ensures Number(Flat(a)) == Number(Flat(a[..n]))
  {
    assert a == a[..n] + a[n..];
    FlatConcat(a[..n], a[n..]);
    FlatZeros(a[n..], width);
    NumberConcat(Flat(a[..n]), Flat(a[n..]));
  }

  lemma {:induction false} NotZero(b: Block, rest: seq<bool>)
    requires b != Fill(|b|, false)
    ensures Number(b + rest) > 0
  {
    NumberConcat(b, rest);
    if Number(b) == 0 {
      NumberZeros(|b|);
      NumberInjective(b, Fill(|b|, false));
    }
  }

  lemma {:induction false} ShorterBound(a: seq<Block>, b: seq<Block>, width: nat)
    requires WellFormed(a, width) && WellFormed(b, width) && |a| <= |b|
    ensures Number(Flat(a)) < Power2(|Flat(b)|)
  {
    NumberBound(Flat(a));
    FlatLength(a, width);
    FlatLength(b, width);
    Longer(|a|, |b|, width);
    PowerGrows(|Flat(a)|, |Flat(b)|);
  }

  /** A set bit beyond the length of a shorter vector makes the longer one greater. */
  lemma {:induction false} LongerIsGreater(a: seq<Block>, b: seq<Block>, width: nat, i: nat)
    requires WellFormed(a, width) && WellFormed(b, width) && |a| <= i < |b| && b[i] != Fill(width, false)
    ensures Number(Flat(a)) < Number(Flat(b))
  {
    var low, top := Flat(b[..i]), Number(b[i] + Flat(b[i + 1..]));
    SplitAt(b, i);
    NotZero(b[i], Flat(b[i + 1..]));
    ShorterBound(a, b[..i], width);
    HighDigit(Number(Flat(a)), Number(low), Power2(|low|), 0, top);
  }

  lemma {:induction false} Longer(m: nat, n: nat, width: nat)
    requires m <= n
    ensures m * width <= n * width
  {
    Difference(n, m, width);
    assert (n - m) * width >= 0;
  }

  /** The number of a bitset is the number of its blocks: the unused bits are zero. */
  lemma {:induction false} NumberOfBlocks(blocks: seq<Block>, width: nat, s: seq<bool>)
    requires Shows(blocks, width, s) && |blocks| == BlocksRequired(|s|, width)
    ensures Number(Flat(blocks)) == Number(s)
  {
    FlatUsed(blocks, width, s);
    NumberZeros(|Flat(blocks)| - |s|);
    NumberConcat(s, Fill(|Flat(blocks)| - |s|, false));
  }

  // ---------- The comparison ----------

  method CompareBlocks(a: seq<Block>, b: seq<Block>, width: nat) returns (differ: bool, less: bool)
    requires WellFormed(a, width) && WellFormed(b, width) && |a| == |b|
    ensures differ ==> Number(Flat(a)) != Number(Flat(b)) && (less <==> Number(Flat(a)) < Number(Flat(b)))
    ensures !differ ==> a == b
  {
    var i := |a| - 1;
    while i >= 0
      invariant -1 <= i < |a| && a[i + 1..] == b[i + 1..]
      decreases i
    {
      if a[i] != b[i] {
        if Number(a[i]) < Number(b[i]) {
          TopDecides(a, b, width, i);
          return true, true;
        }
        if Number(a[i]) == Number(b[i]) {
          NumberInjective(a[i], b[i]);
        }
        TopDecides(b, a, width, i);
        return true, false;
      }
      assert a[i..] == [a[i]] + a[i + 1..] && b[i..] == [b[i]] + b[i + 1..];
      i := i - 1;
    }
    return false, false;
  }

  /** The highest block beyond the shorter vector that is not zero decides for the longer one. */
  method HighBlocksZero(long: seq<Block>, short: seq<Block>, width: nat) returns (zero: bool)
    requires WellFormed(long, width) && WellFormed(short, width) && |short| <= |long|
    ensures zero ==> Number(Flat(long)) == Number(Flat(long[..|short|]))
    ensures !zero ==> Number(Flat(short)) < Number(Flat(long))
  {
    var i := |long| - 1;
    while i >= |short|
      invariant |short| - 1 <= i < |long| && forall k :: i < k < |long| ==> long[k] == Fill(width, false)
      decreases i
    {
      if long[i] != Fill(width, false) {
        LongerIsGreater(short, long, width, i);
        return false;
      }
      i := i - 1;
    }
    ZeroTop(long, width, |short|);
    return true;
  }

  method LessOfLengths(lhs: Bitset, rhs: Bitset) returns (r: bool)
    requires lhs.Valid() && rhs.Valid() && lhs.width == rhs.width && lhs.bits != rhs.bits
    ensures r <==> LessThan(lhs.Contents(), rhs.Contents())
  {
    ConsistentShows(lhs.blocks, lhs.width, lhs.bits);
    ConsistentShows(rhs.blocks, rhs.width, rhs.bits);
    NumberOfBlocks(lhs.blocks, lhs.width, lhs.Contents());
    NumberOfBlocks(rhs.blocks, rhs.width, rhs.Contents());
    var rhsLonger := rhs.bits > lhs.bits;
    var long, short := if rhsLonger then rhs else lhs, if rhsLonger then lhs else rhs;
    RequiredGrows(short.bits, long.bits, lhs.width);
    var zero := HighBlocksZero(long.blocks, short.blocks, lhs.width);
    if !zero {
      return rhsLonger;
    }
    var common := |short.blocks|;
    var differ, less := CompareBlocks(lhs.blocks[..common], rhs.blocks[..common], lhs.width);
    assert short.blocks[..common] == short.blocks;
    return if differ then less else lhs.bits < rhs.bits;
  }

  /** The comparison operator. */
  method Less(lhs: Bitset, rhs: Bitset) returns (r: bool)
    requires lhs.Valid() && rhs.Valid() && lhs.width == rhs.width
    ensures r <==> LessThan(lhs.Contents(), rhs.Contents())
  {
    ConsistentShows(lhs.blocks, lhs.width, lhs.bits);
    ConsistentShows(rhs.blocks, rhs.width, rhs.bits);
    NumberOfBlocks(lhs.blocks, lhs.width, lhs.Contents());
    NumberOfBlocks(rhs.blocks, rhs.width, rhs.Contents());
    if lhs.bits == rhs.bits {
      var differ, less := CompareBlocks(lhs.blocks, rhs.blocks, lhs.width);
      return differ && less;
    }
    if lhs.bits == 0 {
      return true;
    }
    if rhs.bits == 0 {
      return false;
    }
    r := LessOfLengths(lhs, rhs);
  }

  /** The equality operator: equal sizes and equal blocks. */
  method Equal(lhs: Bitset, rhs: Bitset) returns (r: bool)
    requires lhs.Valid() && rhs.Valid() && lhs.width == rhs.width
    ensures r <==> lhs.Contents() == rhs.Contents()
  {
    r := lhs.bits == rhs.bits && lhs.blocks == rhs.blocks;
    ConsistentShows(lhs.blocks, lhs.width, lhs.bits);
    ConsistentShows(rhs.blocks, rhs.width, rhs.bits);
    if lhs.Contents() == rhs.Contents() {
      SameBlocks(lhs.blocks, rhs.blocks, lhs.width, lhs.Contents());
    }
  }
}
