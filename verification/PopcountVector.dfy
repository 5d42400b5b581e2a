/**
  * Vector population counts: carry-save addition, the nibble lookup with sums of absolute
  * differences, the byte-wise parallel sums, and their lanes of 64-bit counters.
  */
module PopcountVector {
  import opened Arithmetic
  import opened BitBytes
  import opened PopcountWord

  type Vec = seq<Byte>
  type Lanes = seq<nat>

  // ---------- Bitwise operations ----------

  function VAnd(a: Vec, b: Vec): Vec
    requires |a| == |b|
  {
    if a == [] then [] else [And8(a[0], b[0])] + VAnd(a[1..], b[1..])
  }

  function VOr(a: Vec, b: Vec): Vec
    requires |a| == |b|
  {
    if a == [] then [] else [Or8(a[0], b[0])] + VOr(a[1..], b[1..])
  }

  function VXor(a: Vec, b: Vec): Vec
    requires |a| == |b|
  {
    if a == [] then [] else [Xor8(a[0], b[0])] + VXor(a[1..], b[1..])
  }

  lemma {:induction false} VLength(a: Vec, b: Vec)
    requires |a| == |b|
    ensures |VAnd(a, b)| == |VOr(a, b)| == |VXor(a, b)| == |a|
  {
    if a != [] {
      VLength(a[1..], b[1..]);
    }
  }

  // ---------- Carry-save adders ----------

  function CsaHigh8(a: Byte, b: Byte, c: Byte): Byte { Or8(And8(a, b), And8(Xor8(a, b), c)) }
  function CsaLow8(a: Byte, b: Byte, c: Byte): Byte { Xor8(Xor8(a, b), c) }

  function CsaHigh(a: Vec, b: Vec, c: Vec): Vec
    requires |a| == |b| == |c|
  {
    VLength(a, b);
    VLength(VXor(a, b), c);
    VOr(VAnd(a, b), VAnd(VXor(a, b), c))
  }

  function CsaLow(a: Vec, b: Vec, c: Vec): Vec
    requires |a| == |b| == |c|
  {
    VLength(a, b);
    VXor(VXor(a, b), c)
  }

  /** A full adder on one bit. */
  predicate Adds(a: bool, b: bool, c: bool, h: bool, l: bool) {
    h == ((a && b) || ((a != b) && c)) && l == ((a != b) != c)
  }

  lemma {:induction false} CsaBit(a: bool, b: bool, c: bool, h: bool, l: bool)
    requires Adds(a, b, c, h, l)
    ensures Bit(a) + Bit(b) + Bit(c) == 2 * Bit(h) + Bit(l)
  {
  }

  lemma {:induction false} CsaOnes(a: Nibble, b: Nibble, c: Nibble, h: Nibble, l: Nibble)
    requires Bit(a.b0) + Bit(b.b0) + Bit(c.b0) == 2 * Bit(h.b0) + Bit(l.b0)
    requires Bit(a.b1) + Bit(b.b1) + Bit(c.b1) == 2 * Bit(h.b1) + Bit(l.b1)
    requires Bit(a.b2) + Bit(b.b2) + Bit(c.b2) == 2 * Bit(h.b2) + Bit(l.b2)
    requires Bit(a.b3) + Bit(b.b3) + Bit(c.b3) == 2 * Bit(h.b3) + Bit(l.b3)
    ensures Ones4(a) + Ones4(b) + Ones4(c) == 2 * Ones4(h) + Ones4(l)
  {
  }

  lemma {:induction false} CsaBits(a: Nibble, b: Nibble, c: Nibble, h: Nibble, l: Nibble)
    requires Adds(a.b0, b.b0, c.b0, h.b0, l.b0) && Adds(a.b1, b.b1, c.b1, h.b1, l.b1)
    requires Adds(a.b2, b.b2, c.b2, h.b2, l.b2) && Adds(a.b3, b.b3, c.b3, h.b3, l.b3)
    ensures Ones4(a) + Ones4(b) + Ones4(c) == 2 * Ones4(h) + Ones4(l)
  {
    CsaBit(a.b0, b.b0, c.b0, h.b0, l.b0);
    CsaBit(a.b1, b.b1, c.b1, h.b1, l.b1);
    CsaBit(a.b2, b.b2, c.b2, h.b2, l.b2);
    CsaBit(a.b3, b.b3, c.b3, h.b3, l.b3);
    CsaOnes(a, b, c, h, l);
  }

  lemma {:induction false} CsaNibble(a: Nibble, b: Nibble, c: Nibble, h: Nibble, l: Nibble)
    requires h == Or4(And4(a, b), And4(Xor4(a, b), c)) && l == Xor4(Xor4(a, b), c)
    ensures Ones4(a) + Ones4(b) + Ones4(c) == 2 * Ones4(h) + Ones4(l)
  {
    CsaBits(a, b, c, h, l);
  }

  lemma {:induction false} CsaByte(a: Byte, b: Byte, c: Byte)
    ensures Ones8(a) + Ones8(b) + Ones8(c) == 2 * Ones8(CsaHigh8(a, b, c)) + Ones8(CsaLow8(a, b, c))
  {
    var h, l := CsaHigh8(a, b, c), CsaLow8(a, b, c);
    CsaNibble(a.lo, b.lo, c.lo, h.lo, l.lo);
    CsaNibble(a.hi, b.hi, c.hi, h.hi, l.hi);
  }

  lemma {:induction false} CsaHead(a: Vec, b: Vec, c: Vec)
    requires |a| == |b| == |c| > 0
    ensures CsaHigh(a, b, c) == [CsaHigh8(a[0], b[0], c[0])] + CsaHigh(a[1..], b[1..], c[1..])
    ensures CsaLow(a, b, c) == [CsaLow8(a[0], b[0], c[0])] + CsaLow(a[1..], b[1..], c[1..])
  {
    var u, both := VXor(a, b), VAnd(a, b);
    VLength(a, b);
    VLength(a[1..], b[1..]);
    assert u[1..] == VXor(a[1..], b[1..]) && both[1..] == VAnd(a[1..], b[1..]);
    VLength(u, c);
    assert VAnd(u, c)[1..] == VAnd(u[1..], c[1..]);
  }

  /** Three vectors of ones are two of carries and one of sums. */
  lemma {:induction false} CsaIdentity(a: Vec, b: Vec, c: Vec)
    requires |a| == |b| == |c|
    ensures Pop(a) + Pop(b) + Pop(c) == 2 * Pop(CsaHigh(a, b, c)) + Pop(CsaLow(a, b, c))
    ensures |CsaHigh(a, b, c)| == |CsaLow(a, b, c)| == |a|
  {
    if a != [] {
      CsaHead(a, b, c);
      CsaByte(a[0], b[0], c[0]);
      CsaIdentity(a[1..], b[1..], c[1..]);
      PopCons(CsaHigh8(a[0], b[0], c[0]), CsaHigh(a[1..], b[1..], c[1..]));
      PopCons(CsaLow8(a[0], b[0], c[0]), CsaLow(a[1..], b[1..], c[1..]));
    }
  }

  lemma {:induction false} PopCons(b: Byte, s: Vec)
    ensures Pop([b] + s) == Ones8(b) + Pop(s)
  {
    assert ([b] + s)[1..] == s;
  }

  /** The bit of an immediate byte selected by three operand bits, the first the most significant. */
  function TernaryBit(x: bool, y: bool, z: bool, imm: Byte): bool {
    var n := if x then imm.hi else imm.lo;
    if y then (if z then n.b3 else n.b2) else if z then n.b1 else n.b0
  }

  function Ternary4(x: Nibble, y: Nibble, z: Nibble, imm: Byte): Nibble {
    Nibble(TernaryBit(x.b0, y.b0, z.b0, imm), TernaryBit(x.b1, y.b1, z.b1, imm),
           TernaryBit(x.b2, y.b2, z.b2, imm), TernaryBit(x.b3, y.b3, z.b3, imm))
  }

  function Ternary8(x: Byte, y: Byte, z: Byte, imm: Byte): Byte {
    Byte(Ternary4(x.lo, y.lo, z.lo, imm), Ternary4(x.hi, y.hi, z.hi, imm))
  }

  function VTernary(x: Vec, y: Vec, z: Vec, imm: Byte): Vec
    requires |x| == |y| == |z|
  {
    if x == [] then [] else [Ternary8(x[0], y[0], z[0], imm)] + VTernary(x[1..], y[1..], z[1..], imm)
  }

  const ODD: Byte := ToByte(0x96)
  const MAJORITY: Byte := ToByte(0xe8)

  lemma {:induction false} TernaryBits(a: bool, b: bool, c: bool)
    ensures TernaryBit(c, b, a, ODD) == ((a != b) != c)
    ensures TernaryBit(c, b, a, MAJORITY) == ((a && b) || ((a != b) && c))
  {
    assert ODD == Byte(Nibble(false, true, true, false), Nibble(true, false, false, true));
    assert MAJORITY == Byte(Nibble(false, false, false, true), Nibble(false, true, true, true));
  }

  lemma {:induction false} TernaryNibble(a: Nibble, b: Nibble, c: Nibble)
    ensures Ternary4(c, b, a, ODD) == Xor4(Xor4(a, b), c)
    ensures Ternary4(c, b, a, MAJORITY) == Or4(And4(a, b), And4(Xor4(a, b), c))
  {
    TernaryBits(a.b0, b.b0, c.b0);
    TernaryBits(a.b1, b.b1, c.b1);
    TernaryBits(a.b2, b.b2, c.b2);
    TernaryBits(a.b3, b.b3, c.b3);
  }

  /** The three-operand logic instruction with these two immediates is the same adder. */
  lemma {:induction false} TernaryIsCsa(a: Vec, b: Vec, c: Vec)
    requires |a| == |b| == |c|
    ensures VTernary(c, b, a, ODD) == CsaLow(a, b, c)
    ensures VTernary(c, b, a, MAJORITY) == CsaHigh(a, b, c)
  {
    if a != [] {
      CsaHead(a, b, c);
      TernaryIsCsa(a[1..], b[1..], c[1..]);
      TernaryNibble(a[0].lo, b[0].lo, c[0].lo);
      TernaryNibble(a[0].hi, b[0].hi, c[0].hi);
    }
  }

  // ---------- Element-wise bytes ----------

  /** The byte above within the same 16-bit lane; zeros come in at the top of the lane. */
  function LaneAbove(v: Vec, i: nat): Byte
    requires i < |v|
  {
    if i % 2 == 0 && i + 1 < |v| then v[i + 1] else ZERO
  }

  function Srli16By1(v: Vec): Vec { seq(|v|, i requires 0 <= i < |v| => Shr1Byte(v[i], LaneAbove(v, i))) }
  function Srli16By2(v: Vec): Vec { seq(|v|, i requires 0 <= i < |v| => Shr2Byte(v[i], LaneAbove(v, i))) }
  function Srli16By4(v: Vec): Vec { seq(|v|, i requires 0 <= i < |v| => Shr4Byte(v[i], LaneAbove(v, i))) }

  function VMask(v: Vec, mask: Byte): Vec { seq(|v|, i requires 0 <= i < |v| => And8(v[i], mask)) }

  /** Byte arithmetic wraps at 256. */
  function AddByte(a: Byte, b: Byte): Byte { ToByte((Val8(a) + Val8(b)) % 256) }
  function SubByte(a: Byte, b: Byte): Byte { ToByte((Val8(a) - Val8(b)) % 256) }

  function VAdd(a: Vec, b: Vec): Vec
    requires |a| == |b|
  {
    seq(|a|, i requires 0 <= i < |a| => AddByte(a[i], b[i]))
  }

  function VSub(a: Vec, b: Vec): Vec
    requires |a| == |b|
  {
    seq(|a|, i requires 0 <= i < |a| => SubByte(a[i], b[i]))
  }

  lemma {:induction false} SmallRemainder(v: int)
    requires 0 <= v < 256
    ensures v % 256 == v
  {
  }

  lemma {:induction false} ExactByte(v: int, b: Byte)
    requires v == Val8(b)
    ensures ToByte(v % 256) == b
  {
    ByteOfValue(b);
    SmallRemainder(v);
  }

  lemma {:induction false} ExactSum(a: Byte, b: Byte, r: Byte)
    requires Val8(a) + Val8(b) == Val8(r)
    ensures AddByte(a, b) == r
  {
    ExactByte(Val8(a) + Val8(b), r);
  }

  lemma {:induction false} ExactDifference(a: Byte, b: Byte, r: Byte)
    requires Val8(a) - Val8(b) == Val8(r)
    ensures SubByte(a, b) == r
  {
    ExactByte(Val8(a) - Val8(b), r);
  }

  // ---------- Sums of absolute differences ----------

  function Gap(x: nat, y: nat): nat { if x < y then y - x else x - y }

  function SadLane(a: seq<nat>, b: seq<nat>): nat
    requires |a| == |b|
  {
    if a == [] then 0 else Gap(a[0], b[0]) + SadLane(a[1..], b[1..])
  }

  /** One 64-bit sum for every eight bytes. */
  function Sad(a: seq<nat>, b: seq<nat>): Lanes
    requires |a| == |b|
  {
    if |a| < 8 then [] else [SadLane(a[..8], b[..8])] + Sad(a[8..], b[8..])
  }

  function SumLanes(s: Lanes): nat {
    if s == [] then 0 else s[0] + SumLanes(s[1..])
  }

  lemma {:induction false} SadLaneCounts(a: seq<nat>, b: seq<nat>, v: Vec)
    requires |a| == |b| == |v|
    requires forall i :: 0 <= i < |v| ==> Gap(a[i], b[i]) == Ones8(v[i])
    ensures SadLane(a, b) == Pop(v)
  {
    if a != [] {
      SadLaneCounts(a[1..], b[1..], v[1..]);
    }
  }

  lemma {:induction false} SadCounts(a: seq<nat>, b: seq<nat>, v: Vec)
    requires |a| == |b| == |v| && |v| % 8 == 0
    requires forall i :: 0 <= i < |v| ==> Gap(a[i], b[i]) == Ones8(v[i])
    ensures SumLanes(Sad(a, b)) == Pop(v) && |Sad(a, b)| == |v| / 8
  {
    if a != [] {
      SadLaneCounts(a[..8], b[..8], v[..8]);
      SadCounts(a[8..], b[8..], v[8..]);
      PopConcat(v[..8], v[8..]);
      assert v[..8] + v[8..] == v;
      SumCons(SadLane(a[..8], b[..8]), Sad(a[8..], b[8..]));
    }
  }

  lemma {:induction false} SumCons(x: nat, s: Lanes)
    ensures SumLanes([x] + s) == x + SumLanes(s)
  {
    assert ([x] + s)[1..] == s;
  }

  // ---------- 256 bits: nibble lookup ----------

  const LOOKUP1: seq<nat> := [4, 5, 5, 6, 5, 6, 6, 7, 5, 6, 6, 7, 6, 7, 7, 8,
                              4, 5, 5, 6, 5, 6, 6, 7, 5, 6, 6, 7, 6, 7, 7, 8]
  const LOOKUP2: seq<nat> := [4, 3, 3, 2, 3, 2, 2, 1, 3, 2, 2, 1, 2, 1, 1, 0,
                              4, 3, 3, 2, 3, 2, 2, 1, 3, 2, 2, 1, 2, 1, 1, 0]

  /** A table lookup inside each 128-bit lane; an index with its top bit set gives zero. */
  function Shuffle(table: seq<nat>, index: Vec): seq<nat>
    requires |table| == |index| == 32
  {
    seq(32, i requires 0 <= i < 32 => ShuffleByte(table, index[i], i))
  }

  function ShuffleByte(table: seq<nat>, b: Byte, i: nat): nat
    requires |table| == 32 && i < 32
  {
    if b.hi.b3 then 0 else table[(if i < 16 then 0 else 16) + Val4(b.lo)]
  }

  function Popcnt256(v: Vec): Lanes
    requires |v| == 32
  {
    Sad(Shuffle(LOOKUP1, VMask(v, M4)), Shuffle(LOOKUP2, VMask(Srli16By4(v), M4)))
  }

  lemma {:induction false} LookupNibble(n: Nibble)
    ensures var k := Val4(n);
            LOOKUP1[k] == LOOKUP1[16 + k] == 4 + Ones4(n) && LOOKUP2[k] == LOOKUP2[16 + k] == 4 - Ones4(n)
  {
  }

  lemma {:induction false} ShuffleNibble(n: Nibble, i: nat)
    requires i < 32
    ensures ShuffleByte(LOOKUP1, Byte(n, ZERO4), i) == 4 + Ones4(n)
    ensures ShuffleByte(LOOKUP2, Byte(n, ZERO4), i) == 4 - Ones4(n)
  {
    LookupNibble(n);
  }

  lemma {:induction false} LookupByte(b: Byte, up: Byte, i: nat)
    requires i < 32
    ensures Gap(ShuffleByte(LOOKUP1, And8(b, M4), i), ShuffleByte(LOOKUP2, And8(Shr4Byte(b, up), M4), i)) == Ones8(b)
  {
    assert And8(b, M4) == Byte(b.lo, ZERO4);
    assert And8(Shr4Byte(b, up), M4) == Byte(b.hi, ZERO4);
    ShuffleNibble(b.lo, i);
    ShuffleNibble(b.hi, i);
  }

  /** The four lanes add up to the ones of the vector. */
  lemma {:induction false} Popcnt256Counts(v: Vec)
    requires |v| == 32
    ensures SumLanes(Popcnt256(v)) == Pop(v) && |Popcnt256(v)| == 4
  {
    var a, b := Shuffle(LOOKUP1, VMask(v, M4)), Shuffle(LOOKUP2, VMask(Srli16By4(v), M4));
    forall i | 0 <= i < |v|
      ensures Gap(a[i], b[i]) == Ones8(v[i])
    {
      LookupByte(v[i], LaneAbove(v, i), i);
    }
    SadCounts(a, b, v);
  }

  // ---------- 512 bits: parallel sums inside every byte ----------

  function Pairs512(v: Vec): Vec { VSub(v, VMask(Srli16By1(v), M1)) }
  function Nibbles512(v: Vec): Vec { VAdd(VMask(v, M2), VMask(Srli16By2(v), M2)) }
  function Bytes512(v: Vec): Vec { VMask(VAdd(v, Srli16By4(v)), M4) }
  function Values(v: Vec): seq<nat> { seq(|v|, i requires 0 <= i < |v| => Val8(v[i])) }

  function Popcnt512(v: Vec): Lanes {
    var t3 := Bytes512(Nibbles512(Pairs512(v)));
    Sad(Values(t3), seq(|t3|, i => 0))
  }

  lemma {:induction false} PairSumByte(b: Byte, up: Byte)
    ensures SubByte(b, And8(Shr1Byte(b, up), M1)) == PairSums8(b)
  {
    PairSumsByte(b, up);
    ExactDifference(b, And8(Shr1Byte(b, up), M1), PairSums8(b));
  }

  lemma {:induction false} NibbleSumByte(b: Byte, up: Byte)
    ensures var p := PairSums8(b); AddByte(And8(p, M2), And8(Shr2Byte(p, up), M2)) == NibbleSums8(b)
  {
    var p := PairSums8(b);
    NibbleSumsByte(b, up);
    ExactSum(And8(p, M2), And8(Shr2Byte(p, up), M2), NibbleSums8(b));
  }

  lemma {:induction false} Pairs512Sums(v: Vec, t: Vec)
    requires t == Pairs512(v)
    ensures |t| == |v| && forall i :: 0 <= i < |v| ==> t[i] == PairSums8(v[i])
  {
    forall i | 0 <= i < |v|
      ensures t[i] == PairSums8(v[i])
    {
      PairSumByte(v[i], LaneAbove(v, i));
    }
  }

  lemma {:induction false} Nibbles512Sums(v: Vec, p: Vec, t: Vec)
    requires |p| == |v| && forall i :: 0 <= i < |v| ==> p[i] == PairSums8(v[i])
    requires t == Nibbles512(p)
    ensures |t| == |v| && forall i :: 0 <= i < |v| ==> t[i] == NibbleSums8(v[i])
  {
    forall i | 0 <= i < |v|
      ensures t[i] == NibbleSums8(v[i])
    {
      NibbleSumByte(v[i], LaneAbove(p, i));
    }
  }

  lemma {:induction false} LaneAboveSums(v: Vec, s: Vec, i: nat)
    requires |s| == |v| && forall k :: 0 <= k < |v| ==> s[k] == NibbleSums8(v[k])
    requires i < |v|
    ensures Val4(LaneAbove(s, i).lo) == Ones4(LaneAbove(v, i).lo)
  {
    if i % 2 == 0 && i + 1 < |v| {
      NibbleSum(v[i + 1].lo);
    }
  }

  lemma {:induction false} ByteSum(b: Byte, up: Byte, k: nat)
    requires k <= 4 && Val4(up.lo) == k
    ensures var s := NibbleSums8(b); And8(AddByte(s, Shr4Byte(s, up)), M4) == ToByte(Ones8(b))
  {
    var s := NibbleSums8(b);
    var n := Byte(ToNibble(Ones8(b)), ToNibble(Ones4(b.hi) + k));
    NeighbourSumsByte(b, up, k);
    ExactSum(s, Shr4Byte(s, up), n);
    MaskedByte(n, Ones8(b));
  }

  lemma {:induction false} Bytes512Sums(v: Vec, s: Vec, t: Vec)
    requires |s| == |v| && forall i :: 0 <= i < |v| ==> s[i] == NibbleSums8(v[i])
    requires t == Bytes512(s)
    ensures |t| == |v| && forall i :: 0 <= i < |v| ==> t[i] == ToByte(Ones8(v[i]))
  {
    forall i | 0 <= i < |v|
      ensures t[i] == ToByte(Ones8(v[i]))
    {
      LaneAboveSums(v, s, i);
      ByteSum(v[i], LaneAbove(s, i), Ones4(LaneAbove(v, i).lo));
    }
  }

  /** The lanes add up to the ones of the vector, whatever its width. */
  lemma {:induction false} Popcnt512Counts(v: Vec)
    requires |v| % 8 == 0
    ensures SumLanes(Popcnt512(v)) == Pop(v) && |Popcnt512(v)| == |v| / 8
  {
    var t1 := Pairs512(v);
    var t2 := Nibbles512(t1);
    var t3 := Bytes512(t2);
    Pairs512Sums(v, t1);
    Nibbles512Sums(v, t1, t2);
    Bytes512Sums(v, t2, t3);
    var a, zero := Values(t3), seq(|t3|, i => 0);
    GapsAreOnes(v, t3, a, zero);
    SadCounts(a, zero, v);
  }

  lemma {:induction false} GapsAreOnes(v: Vec, t: Vec, a: Lanes, zero: Lanes)
    requires |t| == |v| && forall i :: 0 <= i < |v| ==> t[i] == ToByte(Ones8(v[i]))
    requires a == Values(t) && zero == seq(|t|, i => 0)
    ensures |a| == |zero| == |v| && forall i :: 0 <= i < |v| ==> Gap(a[i], zero[i]) == Ones8(v[i])
  {
    forall i | 0 <= i < |v|
      ensures Gap(a[i], zero[i]) == Ones8(v[i])
    {
      SmallByte(Ones8(v[i]));
    }
  }

  // ---------- Lanes of 64-bit counters ----------

  function AddLanes(a: Lanes, b: Lanes): Lanes
    requires |a| == |b|
  {
    if a == [] then [] else [Wrap(a[0] + b[0])] + AddLanes(a[1..], b[1..])
  }

  /** A left shift of every lane, as a multiplication by a power of two. */
  function ScaleLanes(a: Lanes, factor: nat): Lanes {
    if a == [] then [] else [Wrap(a[0] * factor)] + ScaleLanes(a[1..], factor)
  }

  /** The lanes added together from the first to the last. */
  function HorizontalSum(s: Lanes): nat {
    if s == [] then 0 else Wrap(HorizontalSum(s[..|s| - 1]) + s[|s| - 1])
  }

  /** Lanes that add up to a total, but for the wraps already lost. */
  ghost predicate Counts(cnt: Lanes, lost: int, total: nat) {
    SumLanes(cnt) + 0x1_0000_0000_0000_0000 * lost == total
  }

  lemma {:induction false} WrapLoses(x: int) returns (q: int)
    ensures Wrap(x) + 0x1_0000_0000_0000_0000 * q == x
  {
    q := x / 0x1_0000_0000_0000_0000;
  }

  lemma {:induction false} WrapIs(r: nat, q: int, x: int)
    requires r + 0x1_0000_0000_0000_0000 * q == x && r < 0x1_0000_0000_0000_0000
    ensures r == Wrap(x)
  {
  }

  lemma {:induction false} AddLanesCounts(a: Lanes, b: Lanes) returns (q: int)
    requires |a| == |b|
    ensures |AddLanes(a, b)| == |a| && Counts(AddLanes(a, b), q, SumLanes(a) + SumLanes(b))
  {
    if a == [] {
      q := 0;
    } else {
      var tail := AddLanesCounts(a[1..], b[1..]);
      var head := WrapLoses(a[0] + b[0]);
      SumCons(Wrap(a[0] + b[0]), AddLanes(a[1..], b[1..]));
      q := head + tail;
    }
  }

  lemma {:induction false} ScaleLanesCounts(a: Lanes, factor: nat) returns (q: int)
    ensures |ScaleLanes(a, factor)| == |a| && Counts(ScaleLanes(a, factor), q, SumLanes(a) * factor)
  {
    if a == [] {
      q := 0;
    } else {
      var tail := ScaleLanesCounts(a[1..], factor);
      var head := WrapLoses(a[0] * factor);
      SumCons(Wrap(a[0] * factor), ScaleLanes(a[1..], factor));
      Distribute(factor, a[0], SumLanes(a[1..]));
      q := head + tail;
    }
  }

  lemma {:induction false} SumLast(s: Lanes)
    requires s != []
    ensures SumLanes(s) == SumLanes(s[..|s| - 1]) + s[|s| - 1]
  {
    if |s| > 1 {
      SumLast(s[1..]);
      assert s[1..][..|s| - 2] == s[..|s| - 1][1..];
    }
  }

  lemma {:induction false} HorizontalSumCounts(s: Lanes) returns (q: int)
    ensures HorizontalSum(s) + 0x1_0000_0000_0000_0000 * q == SumLanes(s)
  {
    if s == [] {
      q := 0;
    } else {
      var n := |s| - 1;
      var front := HorizontalSumCounts(s[..n]);
      var last := WrapLoses(HorizontalSum(s[..n]) + s[n]);
      SumLast(s);
      q := front + last;
    }
  }
}
