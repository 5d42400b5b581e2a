/** The NEON driver: de-interleaved loads, byte lanes emptied before they can overflow, widening sums. */
module PopcountNeon {
  import opened BitBytes
  import opened PopcountWord
  import opened PopcountVector
  import opened PopcountHarleySeal
  import opened PopcountDriver

  /** Every fourth byte from position `j`: one register of a four-way de-interleaving load. */
  function Column(s: seq<Byte>, j: nat): Vec
    requires j < 4
  {
    if |s| < 4 then [] else [s[j]] + Column(s[4..], j)
  }

  lemma {:induction false} ColumnsPop(s: seq<Byte>)
    requires |s| % 4 == 0
    ensures Pop(s) == Pop(Column(s, 0)) + Pop(Column(s, 1)) + Pop(Column(s, 2)) + Pop(Column(s, 3))
  {
    if s == [] {
    } else {
      ColumnsPop(s[4..]);
      FirstFour(s);
      PopCons(s[0], Column(s[4..], 0));
      PopCons(s[1], Column(s[4..], 1));
      PopCons(s[2], Column(s[4..], 2));
      PopCons(s[3], Column(s[4..], 3));
    }
  }

  lemma {:induction false} FirstFour(s: seq<Byte>)
    requires |s| >= 4
    ensures Pop(s) == Ones8(s[0]) + Ones8(s[1]) + Ones8(s[2]) + Ones8(s[3]) + Pop(s[4..])
  {
    assert s[1..][1..] == s[2..] && s[2..][1..] == s[3..] && s[3..][1..] == s[4..];
    assert Pop(s[3..]) == Ones8(s[3]) + Pop(s[4..]);
    assert Pop(s[2..]) == Ones8(s[2]) + Pop(s[3..]);
    assert Pop(s[1..]) == Ones8(s[1]) + Pop(s[2..]);
  }

  lemma {:induction false} ColumnLength(s: seq<Byte>, j: nat)
    requires j < 4
    ensures |Column(s, j)| == |s| / 4
  {
    if |s| >= 4 {
      ColumnLength(s[4..], j);
    }
  }

  // ---------- Byte lanes ----------

  /** The number of ones of every byte. */
  function CountBytes(v: Vec): Lanes {
    if v == [] then [] else [Ones8(v[0])] + CountBytes(v[1..])
  }

  /** Byte lanes wrap at 256. */
  function AddBytes(a: Lanes, b: Lanes): Lanes
    requires |a| == |b|
  {
    if a == [] then [] else [(a[0] + b[0]) % 256] + AddBytes(a[1..], b[1..])
  }

  predicate AtMost(s: Lanes, bound: nat) {
    forall i :: 0 <= i < |s| ==> s[i] <= bound
  }

  lemma {:induction false} CountBytesSum(v: Vec)
    ensures |CountBytes(v)| == |v| && SumLanes(CountBytes(v)) == Pop(v) && AtMost(CountBytes(v), 8)
  {
    if v != [] {
      CountBytesSum(v[1..]);
      SumCons(Ones8(v[0]), CountBytes(v[1..]));
    }
  }

  /** No lane wraps while the bounds add up to a byte. */
  lemma {:induction false} AddBytesSum(a: Lanes, b: Lanes, x: nat, y: nat)
    requires |a| == |b| && AtMost(a, x) && AtMost(b, y) && x + y < 256
    ensures |AddBytes(a, b)| == |a| && SumLanes(AddBytes(a, b)) == SumLanes(a) + SumLanes(b)
    ensures AtMost(AddBytes(a, b), x + y)
  {
    if a != [] {
      AddBytesSum(a[1..], b[1..], x, y);
      assert (a[0] + b[0]) % 256 == a[0] + b[0];
      SumCons(a[0] + b[0], AddBytes(a[1..], b[1..]));
    }
  }

  /** Neighbouring lanes added into lanes twice as wide. */
  function PairAdd(s: Lanes): Lanes {
    if |s| < 2 then [] else [s[0] + s[1]] + PairAdd(s[2..])
  }

  lemma {:induction false} PairAddSum(s: Lanes)
    requires |s| % 2 == 0
    ensures SumLanes(PairAdd(s)) == SumLanes(s) && |PairAdd(s)| == |s| / 2
  {
    if s != [] {
      PairAddSum(s[2..]);
      SumCons(s[0] + s[1], PairAdd(s[2..]));
      assert s[1..][1..] == s[2..];
      assert SumLanes(s[1..]) == s[1] + SumLanes(s[2..]);
    }
  }

  // ---------- The loop ----------

  /** Sixteen byte lanes are folded into the two 64-bit lanes of the sum. */
  method Fold(sum: Lanes, t: Lanes, ghost lost: int, ghost total: nat) returns (sum': Lanes, ghost lost': int)
    requires |sum| == 2 && |t| == 16 && Counts(sum, lost, total)
    ensures |sum'| == 2 && Counts(sum', lost', total + SumLanes(t))
  {
    var t16 := PairAdd(t);
    PairAddSum(t);
    var t32 := PairAdd(t16);
    PairAddSum(t16);
    var t64 := PairAdd(t32);
    PairAddSum(t32);
    ghost var adding := AddLanesCounts(sum, t64);
    sum' := AddLanes(sum, t64);
    lost' := lost + adding;
  }

  datatype Temporaries = Temporaries(t0: Lanes, t1: Lanes, t2: Lanes, t3: Lanes)

  predicate Bounded(t: Temporaries, bound: nat) {
    |t.t0| == |t.t1| == |t.t2| == |t.t3| == 16 &&
    AtMost(t.t0, bound) && AtMost(t.t1, bound) && AtMost(t.t2, bound) && AtMost(t.t3, bound)
  }

  function TotalOf(t: Temporaries): nat { SumLanes(t.t0) + SumLanes(t.t1) + SumLanes(t.t2) + SumLanes(t.t3) }

  method AddColumn(t: Lanes, block: seq<Byte>, j: nat, ghost bound: nat) returns (t': Lanes)
    requires |block| == 64 && j < 4 && |t| == 16 && AtMost(t, bound) && bound + 8 < 256
    ensures |t'| == 16 && AtMost(t', bound + 8) && SumLanes(t') == SumLanes(t) + Pop(Column(block, j))
  {
    ColumnLength(block, j);
    CountBytesSum(Column(block, j));
    AddBytesSum(t, CountBytes(Column(block, j)), bound, 8);
    t' := AddBytes(t, CountBytes(Column(block, j)));
  }

  method AddBlock(t: Temporaries, block: seq<Byte>, ghost bound: nat) returns (t': Temporaries)
    requires |block| == 64 && Bounded(t, bound) && bound + 8 < 256
    ensures Bounded(t', bound + 8) && TotalOf(t') == TotalOf(t) + Pop(block)
  {
    ColumnsPop(block);
    var t0 := AddColumn(t.t0, block, 0, bound);
    var t1 := AddColumn(t.t1, block, 1, bound);
    var t2 := AddColumn(t.t2, block, 2, bound);
    var t3 := AddColumn(t.t3, block, 3, bound);
    t' := Temporaries(t0, t1, t2, t3);
  }

  method FoldAll(sum: Lanes, t: Temporaries, ghost lost: int, ghost total: nat) returns (sum': Lanes, ghost lost': int)
    requires |sum| == 2 && Bounded(t, 248) && Counts(sum, lost, total)
    ensures |sum'| == 2 && Counts(sum', lost', total + TotalOf(t))
  {
    sum', lost' := Fold(sum, t.t0, lost, total);
    sum', lost' := Fold(sum', t.t1, lost', total + SumLanes(t.t0));
    sum', lost' := Fold(sum', t.t2, lost', total + SumLanes(t.t0) + SumLanes(t.t1));
    sum', lost' := Fold(sum', t.t3, lost', total + SumLanes(t.t0) + SumLanes(t.t1) + SumLanes(t.t2));
  }

  lemma {:induction false} ZeroLanesAtMost(n: nat)
    ensures AtMost(ZeroLanes(n), 0)
  {
    if n > 0 {
      ZeroLanesAtMost(n - 1);
    }
  }

  method NoCounts() returns (t: Temporaries)
    ensures Bounded(t, 0) && TotalOf(t) == 0
  {
    ZeroSum(16);
    ZeroLanesAtMost(16);
    t := Temporaries(ZeroLanes(16), ZeroLanes(16), ZeroLanes(16), ZeroLanes(16));
  }

  lemma {:induction false} BlockPop(mem: seq<Byte>, i: nat)
    requires 64 * i + 64 <= |mem|
    ensures Pop(mem[..64 * (i + 1)]) == Pop(mem[..64 * i]) + Pop(mem[64 * i..64 * i + 64])
  {
    assert mem[..64 * (i + 1)] == mem[..64 * i] + mem[64 * i..64 * i + 64];
    PopConcat(mem[..64 * i], mem[64 * i..64 * i + 64]);
  }

  method AddBlockAt(mem: seq<Byte>, k: nat, t: Temporaries, ghost bound: nat) returns (t': Temporaries)
    requires 64 * k + 64 <= |mem| && Bounded(t, bound) && bound + 8 < 256
    ensures Bounded(t', bound + 8)
    ensures TotalOf(t') + Pop(mem[..64 * k]) == TotalOf(t) + Pop(mem[..64 * (k + 1)])
  {
    BlockPop(mem, k);
    t' := AddBlock(t, mem[64 * k..64 * k + 64], bound);
  }

  /** At most thirty-one blocks: no byte lane passes 248. */
  method Chunk(mem: seq<Byte>, i: nat, limit: nat) returns (t: Temporaries)
    requires i <= limit <= i + 31 && 64 * limit <= |mem|
    ensures Bounded(t, 248) && Pop(mem[..64 * i]) + TotalOf(t) == Pop(mem[..64 * limit])
  {
    t := NoCounts();
    var k := i;
    while k < limit
      invariant i <= k <= limit && Bounded(t, 8 * (k - i))
      invariant Pop(mem[..64 * i]) + TotalOf(t) == Pop(mem[..64 * k])
    {
      t := AddBlockAt(mem, k, t, 8 * (k - i));
      k := k + 1;
    }
  }

  method Blocks(mem: seq<Byte>, iters: nat) returns (cnt: nat)
    requires 64 * iters <= |mem|
    ensures cnt == Wrap(Pop(mem[..64 * iters]))
  {
    var sum, i := ZeroLanes(2), 0;
    ghost var lost := 0;
    ZeroSum(2);
    assert mem[..0] == [];
    while i < iters
      invariant 0 <= i <= iters && |sum| == 2
      invariant Counts(sum, lost, Pop(mem[..64 * i]))
    {
      var limit := if i + 31 < iters then i + 31 else iters;
      var t := Chunk(mem, i, limit);
      sum, lost := FoldAll(sum, t, lost, Pop(mem[..64 * i]));
      i := limit;
    }
    cnt := HorizontalSum(sum);
    SumIsTotal(sum, lost, Pop(mem[..64 * iters]));
  }

  method Words(data: seq<Word>) returns (cnt: nat)
    requires OfWidth(data, 8)
    ensures cnt == Wrap(PopAll(data))
  {
    cnt := 0;
    assert data[..0] == [];
    var i := 0;
    while i < |data|
      invariant 0 <= i <= |data| && cnt == Wrap(PopAll(data[..i]))
    {
      cnt := Accumulate(true, cnt, data, i);
      i := i + 1;
    }
    assert data[..i] == data;
  }

  /** The whole blocks at the front of memory. */
  method BlockStage(mem: seq<Byte>) returns (at: nat, size: nat, cnt: nat)
    ensures Counted(mem, at, size, cnt) && size == |mem| % 64
  {
    at, size, cnt := 0, |mem|, 0;
    assert mem[..0] == [];
    if size >= 64 {
      cnt := Blocks(mem, size / 64);
      at := 64 * (size / 64);
    }
    size := size % 64;
  }

  method WordLoop(mem: seq<Byte>, at: nat, size: nat, cnt: nat) returns (at': nat, size': nat, cnt': nat)
    requires Counted(mem, at, size, cnt)
    ensures Counted(mem, at', size', cnt') && size' < 8
  {
    var words := mem[at..at + Whole(size, 8)];
    ElementsPop(words, 8, size / 8);
    var c := Words(Elements(words, 8));
    at', size', cnt' := CountElements(mem, at, size, cnt, 8, c);
  }

  /** The number of ones in memory, at any address. */
  method Popcnt(mem: seq<Byte>, address: nat) returns (cnt: nat)
    ensures cnt == Wrap(Pop(mem)) && (|mem| < 0x2000_0000_0000_0000 ==> cnt == Pop(mem))
  {
    PopAtMost(mem);
    var at, size;
    at, size, cnt := BlockStage(mem);
    at, size, cnt := Align8(true, mem, address, at, size, cnt);
    at, size, cnt := WordLoop(mem, at, size, cnt);
    cnt := ByteStage(true, mem, at, size, cnt);
  }
}
