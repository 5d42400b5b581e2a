/** The x86 driver: alignment, dispatch on processor features, and the leftovers. */
module PopcountDriver {
  import opened BitBytes
  import opened PopcountWord
  import opened PopcountVector
  import opened PopcountHarleySeal

  /** Memory read as an array of `n`-byte elements. */
  function Elements(s: seq<Byte>, n: nat): seq<Vec>
    requires n > 0
  {
    if |s| < n then [] else [s[..n]] + Elements(s[n..], n)
  }

  lemma {:induction false} OneLess(count: nat, n: nat)
    requires count > 0
    ensures count * n - n == (count - 1) * n && count * n >= n
  {
  }

  lemma {:induction false} ElementsPop(s: seq<Byte>, n: nat, count: nat)
    requires n > 0 && |s| == count * n
    ensures |Elements(s, n)| == count && OfWidth(Elements(s, n), n) && PopAll(Elements(s, n)) == Pop(s)
  {
    if count == 0 {
      assert s == [];
    } else {
      OneLess(count, n);
      ElementsPop(s[n..], n, count - 1);
      PopAllFirst(s[..n], Elements(s[n..], n));
      PopConcat(s[..n], s[n..]);
      assert s[..n] + s[n..] == s;
    }
  }

  /** What every stage of the driver keeps: the count is that of the bytes already passed. */
  ghost predicate Counted(mem: seq<Byte>, at: nat, size: nat, cnt: nat) {
    at + size == |mem| && cnt == Wrap(Pop(mem[..at]))
  }

  lemma {:induction false} PopAdvance(mem: seq<Byte>, at: nat, n: nat)
    requires at + n <= |mem|
    ensures Wrap(Wrap(Pop(mem[..at])) + Pop(mem[at..at + n])) == Wrap(Pop(mem[..at + n]))
  {
    assert mem[..at + n] == mem[..at] + mem[at..at + n];
    PopConcat(mem[..at], mem[at..at + n]);
    WrapSum(Pop(mem[..at]), Pop(mem[at..at + n]));
  }

  lemma {:induction false} WrapAdvance(mem: seq<Byte>, at: nat, n: nat, c: nat)
    requires at + n <= |mem| && c == Wrap(Pop(mem[at..at + n]))
    ensures Wrap(Wrap(Pop(mem[..at])) + c) == Wrap(Pop(mem[..at + n]))
  {
    PopAdvance(mem, at, n);
    var p := Pop(mem[at..at + n]);
    WrapSum(p, Wrap(Pop(mem[..at])));
    assert Wrap(Wrap(p) + Wrap(Pop(mem[..at]))) == Wrap(p + Wrap(Pop(mem[..at])));
  }

  /** A byte as the low byte of a word. */
  function Extend(b: Byte): Word { [b] + Zero(7) }

  method CountByte(hard: bool, mem: seq<Byte>, at: nat, cnt: nat) returns (cnt': nat)
    requires at < |mem| && cnt == Wrap(Pop(mem[..at]))
    ensures cnt' == Wrap(Pop(mem[..at + 1]))
  {
    ZeroPop(7);
    PopCons(mem[at], Zero(7));
    var c := CountWord(hard, Extend(mem[at]));
    assert mem[at..at + 1] == [mem[at]];
    PopOne(mem[at]);
    PopAdvance(mem, at, 1);
    cnt' := Wrap(cnt + c);
  }

  method CountEight(mem: seq<Byte>, at: nat, cnt: nat) returns (cnt': nat)
    requires at + 8 <= |mem| && cnt == Wrap(Pop(mem[..at]))
    ensures cnt' == Wrap(Pop(mem[..at + 8]))
  {
    var c := CountWord(true, mem[at..at + 8]);
    PopAdvance(mem, at, 8);
    cnt' := Wrap(cnt + c);
  }

  // ---------- Alignment ----------

  predicate Unaligned(isa: Isa, address: nat) {
    if isa.Avx2? then address % 32 != 0 else address % 64 != 0
  }

  /** The least multiple of eight, and of the vector width, at or above an address. */
  function NextEight(address: nat): nat { (address + 7) / 8 * 8 }
  function NextVector(isa: Isa, address: nat): nat {
    if isa.Avx2? then (address + 31) / 32 * 32 else (address + 63) / 64 * 64
  }

  lemma {:induction false} NextEightIs(address: nat)
    ensures address <= NextEight(address) <= address + 7 && NextEight(address) % 8 == 0
  {
  }

  lemma {:induction false} NextVectorIs(isa: Isa, address: nat)
    ensures address <= NextVector(isa, address) < address + Width(isa) && !Unaligned(isa, NextVector(isa, address))
    ensures NextVector(isa, address) % 8 == 0
  {
  }

  /** Steps of eight from a multiple of eight cannot jump over an aligned address. */
  lemma {:induction false} StepsUpTo(isa: Isa, a: nat, goal: nat)
    requires a % 8 == 0 && goal % 8 == 0 && a <= goal && !Unaligned(isa, goal) && Unaligned(isa, a)
    ensures a + 8 <= goal && (a + 8) % 8 == 0
  {
  }

  lemma {:induction false} BytesUpTo(a: nat, goal: nat)
    requires goal % 8 == 0 && a <= goal && a % 8 != 0
    ensures a < goal
  {
  }

  /** Bytes up to a word boundary. The loop has no guard on the size: it needs seven bytes at most. */
  method AlignBytes(mem: seq<Byte>, address: nat, at: nat, size: nat, cnt: nat)
    returns (at': nat, size': nat, cnt': nat)
    requires Counted(mem, at, size, cnt) && size >= 7
    ensures Counted(mem, at', size', cnt') && (address + at') % 8 == 0 && at <= at' <= at + 7
  {
    at', size', cnt' := at, size, cnt;
    ghost var goal := NextEight(address + at);
    NextEightIs(address + at);
    while (address + at') % 8 != 0
      invariant Counted(mem, at', size', cnt') && at <= at' && address + at' <= goal
      decreases goal - (address + at')
    {
      BytesUpTo(address + at', goal);
      cnt' := CountByte(true, mem, at', cnt');
      at', size' := at' + 1, size' - 1;
    }
  }

  /** Words up to a vector boundary, again without a guard on the size. */
  method AlignWords(isa: Isa, mem: seq<Byte>, address: nat, at: nat, size: nat, cnt: nat)
    returns (at': nat, size': nat, cnt': nat)
    requires Counted(mem, at, size, cnt) && (address + at) % 8 == 0 && size >= Width(isa)
    ensures Counted(mem, at', size', cnt') && !Unaligned(isa, address + at') && at <= at' < at + Width(isa)
  {
    at', size', cnt' := at, size, cnt;
    ghost var goal := NextVector(isa, address + at);
    NextVectorIs(isa, address + at);
    while Unaligned(isa, address + at')
      invariant Counted(mem, at', size', cnt') && at <= at' && (address + at') % 8 == 0 && address + at' <= goal
      decreases goal - (address + at')
    {
      StepsUpTo(isa, address + at', goal);
      cnt' := CountEight(mem, at', cnt');
      at', size' := at' + 8, size' - 8;
    }
  }

  /** The smallest array for which the vector loops are used. */
  function Threshold(isa: Isa): nat { if isa.Avx2? then 512 else 1024 }

  /** A multiple of the element size. */
  function Whole(size: nat, n: nat): nat
    requires n > 0
  {
    size - size % n
  }

  method CountElements(mem: seq<Byte>, at: nat, size: nat, cnt: nat, n: nat, c: nat)
    returns (at': nat, size': nat, cnt': nat)
    requires Counted(mem, at, size, cnt) && n > 0
    requires c == Wrap(PopAll(Elements(mem[at..at + Whole(size, n)], n)))
    ensures Counted(mem, at', size', cnt') && size' == size % n
  {
    ghost var whole := Whole(size, n);
    ghost var s := mem[at..at + whole];
    assert whole == size / n * n;
    ElementsPop(s, n, size / n);
    WrapAdvance(mem, at, whole, c);
    cnt' := Wrap(cnt + c);
    at' := at + (size - size % n);
    size' := size % n;
  }

  method VectorStage(isa: Isa, mem: seq<Byte>, address: nat, at: nat, size: nat, cnt: nat)
    returns (at': nat, size': nat, cnt': nat)
    requires Counted(mem, at, size, cnt) && size >= Threshold(isa)
    ensures Counted(mem, at', size', cnt') && size' < Width(isa)
  {
    at', size', cnt' := AlignBytes(mem, address, at, size, cnt);
    at', size', cnt' := AlignWords(isa, mem, address, at', size', cnt');
    var c := CountVectors(isa, mem[at'..at' + Whole(size', Width(isa))], size' / Width(isa));
    at', size', cnt' := CountElements(mem, at', size', cnt', Width(isa), c);
  }

  method CountVectors(isa: Isa, s: seq<Byte>, count: nat) returns (c: nat)
    requires |s| == count * Width(isa)
    ensures c == Wrap(PopAll(Elements(s, Width(isa))))
  {
    ElementsPop(s, Width(isa), count);
    c := HarleySeal(isa, Elements(s, Width(isa)));
  }

  method WordStage(hard: bool, mem: seq<Byte>, at: nat, size: nat, cnt: nat) returns (at': nat, size': nat, cnt': nat)
    requires Counted(mem, at, size, cnt)
    ensures Counted(mem, at', size', cnt') && size' < 8
  {
    var s := mem[at..at + Whole(size, 8)];
    ElementsPop(s, 8, size / 8);
    var c := Unrolled(hard, Elements(s, 8));
    at', size', cnt' := CountElements(mem, at, size, cnt, 8, c);
  }

  /** Bytes up to a word boundary or to the end of the array. */
  method Align8(hard: bool, mem: seq<Byte>, address: nat, at: nat, size: nat, cnt: nat)
    returns (at': nat, size': nat, cnt': nat)
    requires Counted(mem, at, size, cnt)
    ensures Counted(mem, at', size', cnt') && (size' > 0 ==> (address + at') % 8 == 0)
  {
    at', size', cnt' := at, size, cnt;
    while size' > 0 && (address + at') % 8 != 0
      invariant Counted(mem, at', size', cnt')
    {
      cnt' := CountByte(hard, mem, at', cnt');
      at', size' := at' + 1, size' - 1;
    }
  }

  method ByteStage(hard: bool, mem: seq<Byte>, at: nat, size: nat, cnt: nat) returns (cnt': nat)
    requires Counted(mem, at, size, cnt)
    ensures cnt' == Wrap(Pop(mem))
  {
    cnt' := cnt;
    var i := 0;
    while i < size
      invariant 0 <= i <= size && cnt' == Wrap(Pop(mem[..at + i]))
    {
      cnt' := CountByte(hard, mem, at + i, cnt');
      i := i + 1;
    }
    assert mem[..at + i] == mem;
  }

  /** The number of ones in memory, at any address and for any set of processor features. */
  method Popcnt(mem: seq<Byte>, address: nat, avx512: bool, avx2: bool, hard: bool) returns (cnt: nat)
    ensures cnt == Wrap(Pop(mem)) && (|mem| < 0x2000_0000_0000_0000 ==> cnt == Pop(mem))
  {
    PopAtMost(mem);
    var at, size := 0, |mem|;
    cnt := 0;
    assert mem[..0] == [];
    if avx512 && size >= 1024 {
      at, size, cnt := VectorStage(Avx512, mem, address, at, size, cnt);
    }
    if avx2 && size >= 512 {
      at, size, cnt := VectorStage(Avx2, mem, address, at, size, cnt);
    }
    if hard {
      at, size, cnt := WordStage(true, mem, at, size, cnt);
      cnt := ByteStage(true, mem, at, size, cnt);
    } else {
      if size >= 8 {
        at, size, cnt := Align8(false, mem, address, at, size, cnt);
        at, size, cnt := WordStage(false, mem, at, size, cnt);
      }
      cnt := ByteStage(false, mem, at, size, cnt);
    }
  }
}
