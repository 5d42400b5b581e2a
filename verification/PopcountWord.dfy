/** The population count of a 64-bit word by parallel sums in ever wider fields. */
module PopcountWord {
  import opened BitBytes
  import opened Sequences

  /** A 64-bit word is its eight bytes, the lowest first; narrower words serve the inductions. */
  type Word = seq<Byte>

  function Number(w: Word): nat {
    if w == [] then 0 else Val8(w[0]) + 256 * Number(w[1..])
  }

  /** The low `n` bytes of a number. */
  function ToWord(x: nat, n: nat): Word {
    if n == 0 then [] else [ToByte(x % 256)] + ToWord(x / 256, n - 1)
  }

  /** Unsigned 64-bit arithmetic wraps. */
  function Wrap(x: int): (r: nat)
    ensures r < 0x1_0000_0000_0000_0000
  {
    x % 0x1_0000_0000_0000_0000
  }

  function Sub(a: Word, b: Word): Word { ToWord(Wrap(Number(a) - Number(b)), |a|) }
  function Add(a: Word, b: Word): Word { ToWord(Wrap(Number(a) + Number(b)), |a|) }
  function Mul(a: Word, b: Word): Word { ToWord(Wrap(Number(a) * Number(b)), |a|) }

  function And(w: Word, mask: Byte): Word {
    if w == [] then [] else [And8(w[0], mask)] + And(w[1..], mask)
  }

  /** The byte above the first one, zero at the end. */
  function Above(w: Word): Byte
    requires w != []
  {
    if |w| == 1 then ZERO else w[1]
  }

  /** A byte of a right shift, the bits coming in from the byte above. */
  function Shr1Byte(b: Byte, up: Byte): Byte {
    Byte(Nibble(b.lo.b1, b.lo.b2, b.lo.b3, b.hi.b0), Nibble(b.hi.b1, b.hi.b2, b.hi.b3, up.lo.b0))
  }

  function Shr2Byte(b: Byte, up: Byte): Byte {
    Byte(Nibble(b.lo.b2, b.lo.b3, b.hi.b0, b.hi.b1), Nibble(b.hi.b2, b.hi.b3, up.lo.b0, up.lo.b1))
  }

  function Shr4Byte(b: Byte, up: Byte): Byte { Byte(b.hi, up.lo) }

  function Shr1(w: Word): Word {
    if w == [] then [] else [Shr1Byte(w[0], Above(w))] + Shr1(w[1..])
  }

  function Shr2(w: Word): Word {
    if w == [] then [] else [Shr2Byte(w[0], Above(w))] + Shr2(w[1..])
  }

  function Shr4(w: Word): Word {
    if w == [] then [] else [Shr4Byte(w[0], Above(w))] + Shr4(w[1..])
  }

  const NIBBLE5: Nibble := Nibble(true, false, true, false)
  const NIBBLE3: Nibble := Nibble(true, true, false, false)
  const NIBBLE15: Nibble := Nibble(true, true, true, true)
  /** Every byte of the masks is the same: 0x55, 0x33 and 0x0F. */
  const M1: Byte := Byte(NIBBLE5, NIBBLE5)
  const M2: Byte := Byte(NIBBLE3, NIBBLE3)
  const M4: Byte := Byte(NIBBLE15, ZERO4)
  const ONE: Byte := Byte(Nibble(true, false, false, false), ZERO4)
  const H01: Word := [ONE, ONE, ONE, ONE, ONE, ONE, ONE, ONE]

  function PairStep(x: Word): Word { Sub(x, And(Shr1(x), M1)) }
  function NibbleStep(x: Word): Word { Add(And(x, M2), And(Shr2(x), M2)) }
  function ByteStep(x: Word): Word { And(Add(x, Shr4(x)), M4) }
  function TopByte(x: Word): nat { Number(x) / 0x0100_0000_0000_0000 }

  /** Twelve operations, no loop; the count is the top byte of the product. */
  function Popcount64(x: Word): nat {
    TopByte(Mul(ByteStep(NibbleStep(PairStep(x))), H01))
  }

  // ---------- One byte through the steps ----------

  /** The two-bit sums of neighbouring bits. */
  function PairSums(n: Nibble): Nibble {
    Nibble(n.b0 != n.b1, n.b0 && n.b1, n.b2 != n.b3, n.b2 && n.b3)
  }

  function PairSums8(b: Byte): Byte { Byte(PairSums(b.lo), PairSums(b.hi)) }

  function PairSumsWord(w: Word): Word {
    if w == [] then [] else [PairSums8(w[0])] + PairSumsWord(w[1..])
  }

  /** The number of one bits of each nibble. */
  function NibbleSums8(b: Byte): Byte { Byte(ToNibble(Ones4(b.lo)), ToNibble(Ones4(b.hi))) }

  function NibbleSumsWord(w: Word): Word {
    if w == [] then [] else [NibbleSums8(w[0])] + NibbleSumsWord(w[1..])
  }

  /** The number of one bits of each byte, in its low nibble. */
  function ByteSumsWord(w: Word): Word {
    if w == [] then [] else [ToByte(Ones8(w[0]))] + ByteSumsWord(w[1..])
  }

  lemma {:induction false} SplitByte(v: nat, q: nat)
    requires v < 256
    ensures (v + 256 * q) % 256 == v && (v + 256 * q) / 256 == q
  {
  }

  /** A word is determined by its number. */
  lemma {:induction false} WordOfNumber(w: Word)
    ensures ToWord(Number(w), |w|) == w
  {
    if w != [] {
      ByteOfValue(w[0]);
      SplitByte(Val8(w[0]), Number(w[1..]));
      WordOfNumber(w[1..]);
      HeadTail(w);
    }
  }

  function Power256(n: nat): nat {
    if n == 0 then 1 else 256 * Power256(n - 1)
  }

  lemma {:induction false} NumberBound(w: Word)
    ensures Number(w) < Power256(|w|)
  {
    if w != [] {
      ByteOfValue(w[0]);
      NumberBound(w[1..]);
    }
  }

  lemma {:induction false} NumberOfEight(w: Word)
    requires |w| == 8
    ensures Number(w) < 0x1_0000_0000_0000_0000
  {
    NumberBound(w);
    assert Power256(3) == 0x100_0000 && Power256(6) == 0x1_0000_0000_0000;
  }

  /** Wrapping arithmetic whose result is known to be a word is exact. */
  lemma {:induction false} WrappedNumber(x: int, w: Word)
    requires x == Number(w) < 0x1_0000_0000_0000_0000
    ensures ToWord(Wrap(x), |w|) == w
  {
    assert Wrap(x) == x;
    WordOfNumber(w);
  }

  // ---------- The three additions ----------

  lemma {:induction false} PairSumsNibble(n: Nibble, a: Nibble)
    requires a == Nibble(n.b1, false, n.b3, false)
    ensures Val4(n) - Val4(a) == Val4(PairSums(n))
  {
  }

  lemma {:induction false} PairSumsByte(b: Byte, up: Byte)
    ensures Val8(b) - Val8(And8(Shr1Byte(b, up), M1)) == Val8(PairSums8(b))
  {
    var a := And8(Shr1Byte(b, up), M1);
    PairSumsNibble(b.lo, a.lo);
    PairSumsNibble(b.hi, a.hi);
  }

  lemma {:induction false} PairSumsNumber(w: Word)
    ensures Number(w) - Number(And(Shr1(w), M1)) == Number(PairSumsWord(w))
    ensures |PairSumsWord(w)| == |w|
  {
    if w != [] {
      PairSumsNumber(w[1..]);
      PairSumsByte(w[0], Above(w));
      assert Shr1(w)[1..] == Shr1(w[1..]);
      assert And(Shr1(w), M1)[1..] == And(Shr1(w[1..]), M1);
      assert PairSumsWord(w)[1..] == PairSumsWord(w[1..]);
    }
  }

  /** Adding the pair sums of a nibble counts its bits. */
  lemma {:induction false} NibbleSum(n: Nibble)
    ensures Val4(ToNibble(Ones4(n))) == Ones4(n) <= 4
    ensures var p := PairSums(n); Ones4(n) == Bit(p.b0) + 2 * Bit(p.b1) + Bit(p.b2) + 2 * Bit(p.b3)
  {
    ValueOfNibble(Ones4(n));
  }

  lemma {:induction false} NibbleSumsNibble(n: Nibble, a: Nibble, b: Nibble)
    requires var p := PairSums(n); a == Nibble(p.b0, p.b1, false, false) && b == Nibble(p.b2, p.b3, false, false)
    ensures Val4(a) + Val4(b) == Val4(ToNibble(Ones4(n)))
  {
    NibbleSum(n);
  }

  lemma {:induction false} NibbleSumsByte(b: Byte, up: Byte)
    ensures var p := PairSums8(b);
            Val8(And8(p, M2)) + Val8(And8(Shr2Byte(p, up), M2)) == Val8(NibbleSums8(b))
  {
    var p := PairSums8(b);
    var x, y := And8(p, M2), And8(Shr2Byte(p, up), M2);
    NibbleSumsNibble(b.lo, x.lo, y.lo);
    NibbleSumsNibble(b.hi, x.hi, y.hi);
  }

  lemma {:induction false} NibbleSumsNumber(w: Word)
    ensures var p := PairSumsWord(w);
            Number(And(p, M2)) + Number(And(Shr2(p), M2)) == Number(NibbleSumsWord(w))
    ensures |NibbleSumsWord(w)| == |w|
  {
    if w != [] {
      var p := PairSumsWord(w);
      NibbleSumsNumber(w[1..]);
      NibbleSumsByte(w[0], Above(p));
      assert p[1..] == PairSumsWord(w[1..]);
      assert And(p, M2)[1..] == And(p[1..], M2);
      assert Shr2(p)[1..] == Shr2(p[1..]);
      assert And(Shr2(p), M2)[1..] == And(Shr2(p[1..]), M2);
      assert NibbleSumsWord(w)[1..] == NibbleSumsWord(w[1..]);
    }
  }

  /** Each byte plus the byte shifted down by a nibble: the sums of neighbouring nibbles. */
  function NeighbourSumsWord(w: Word): Word {
    if w == [] then []
    else [Byte(ToNibble(Ones8(w[0])), ToNibble(Ones4(w[0].hi) + Ones4(Above(w).lo)))] + NeighbourSumsWord(w[1..])
  }

  lemma {:induction false} AboveSums(w: Word)
    requires w != []
    ensures NibbleSumsWord(w) != [] && Val4(Above(NibbleSumsWord(w)).lo) == Ones4(Above(w).lo)
  {
    if |w| == 1 {
      assert NibbleSumsWord(w[1..]) == [];
    } else {
      var tail := NibbleSumsWord(w[1..]);
      assert w[1..][0] == w[1] && tail[0] == NibbleSums8(w[1]);
      assert NibbleSumsWord(w) == [NibbleSums8(w[0])] + tail;
      NibbleSum(w[1].lo);
    }
  }

  lemma {:induction false} NeighbourSumsByte(b: Byte, up: Byte, k: nat)
    requires k <= 4 && Val4(up.lo) == k
    ensures var s := NibbleSums8(b);
            Val8(s) + Val8(Shr4Byte(s, up)) == Val8(Byte(ToNibble(Ones8(b)), ToNibble(Ones4(b.hi) + k)))
  {
    NibbleSum(b.lo);
    NibbleSum(b.hi);
    ValueOfNibble(Ones8(b));
    ValueOfNibble(Ones4(b.hi) + k);
  }

  lemma {:induction false} NeighbourByte(w: Word)
    requires w != []
    ensures var s := NibbleSumsWord(w);
            s != [] && Val8(s[0]) + Val8(Shr4(s)[0]) == Val8(NeighbourSumsWord(w)[0])
  {
    var s := NibbleSumsWord(w);
    AboveSums(w);
    assert s[0] == NibbleSums8(w[0]);
    assert Shr4(s)[0] == Shr4Byte(s[0], Above(s));
    NeighbourSumsByte(w[0], Above(s), Ones4(Above(w).lo));
    assert NeighbourSumsWord(w)[0] == Byte(ToNibble(Ones8(w[0])), ToNibble(Ones4(w[0].hi) + Ones4(Above(w).lo)));
  }

  lemma {:induction false} NeighbourNumber(w: Word)
    ensures var s := NibbleSumsWord(w); Number(s) + Number(Shr4(s)) == Number(NeighbourSumsWord(w))
    ensures |NeighbourSumsWord(w)| == |w|
  {
    if w != [] {
      var s := NibbleSumsWord(w);
      NeighbourNumber(w[1..]);
      NeighbourByte(w);
      assert s[1..] == NibbleSumsWord(w[1..]);
      assert Shr4(s)[1..] == Shr4(s[1..]);
      assert NeighbourSumsWord(w)[1..] == NeighbourSumsWord(w[1..]);
    }
  }

  lemma {:induction false} MaskedSums(w: Word)
    ensures And(NeighbourSumsWord(w), M4) == ByteSumsWord(w)
  {
    if w != [] {
      MaskedSums(w[1..]);
      var n := NeighbourSumsWord(w);
      assert n[1..] == NeighbourSumsWord(w[1..]);
      MaskedByte(n[0], Ones8(w[0]));
    }
  }

  lemma {:induction false} MaskedByte(b: Byte, v: nat)
    requires v <= 8 && b.lo == ToNibble(v)
    ensures And8(b, M4) == ToByte(v)
  {
    assert ToNibble(v / 16) == ZERO4;
  }

  // ---------- The multiplication ----------

  lemma {:induction false} SmallByte(v: nat)
    requires v <= 8
    ensures Val8(ToByte(v)) == v
  {
    assert v % 16 == v && v / 16 == 0;
    ValueOfNibble(v);
    ValueOfNibble(0);
  }

  lemma {:induction false} FirstDigit(b: Byte, tail: Word)
    ensures Number([b] + tail) == Val8(b) + 256 * Number(tail)
  {
    assert ([b] + tail)[1..] == tail;
  }

  lemma {:induction false} ByteSumsNumber(w: Word)
    requires w != []
    ensures Number(ByteSumsWord(w)) == Ones8(w[0]) + 256 * Number(ByteSumsWord(w[1..]))
    ensures Pop(w) == Ones8(w[0]) + Pop(w[1..])
  {
    SmallByte(Ones8(w[0]));
    FirstDigit(ToByte(Ones8(w[0])), ByteSumsWord(w[1..]));
  }

  /** A number by its eight base-256 digits. */
  function Digits(c0: nat, c1: nat, c2: nat, c3: nat, c4: nat, c5: nat, c6: nat, c7: nat): nat {
    c0 + 0x100 * c1 + 0x1_0000 * c2 + 0x100_0000 * c3 + 0x1_0000_0000 * c4
    + 0x100_0000_0000 * c5 + 0x1_0000_0000_0000 * c6 + 0x100_0000_0000_0000 * c7
  }

  /** Multiplying by a word of ones leaves the sum of the digits in the top byte. */
  lemma {:induction false} TopDigit(c0: nat, c1: nat, c2: nat, c3: nat, c4: nat, c5: nat, c6: nat, c7: nat)
    requires c0 <= 8 && c1 <= 8 && c2 <= 8 && c3 <= 8 && c4 <= 8 && c5 <= 8 && c6 <= 8 && c7 <= 8
    ensures Wrap(Digits(c0, c1, c2, c3, c4, c5, c6, c7) * 0x0101_0101_0101_0101) / 0x0100_0000_0000_0000
         == c0 + c1 + c2 + c3 + c4 + c5 + c6 + c7
  {
    var p1, p2, p3 := c0 + c1, c0 + c1 + c2, c0 + c1 + c2 + c3;
    var p4, p5, p6 := p3 + c4, p3 + c4 + c5, p3 + c4 + c5 + c6;
    var top := p6 + c7;
    var low := Digits(c0, p1, p2, p3, p4, p5, p6, 0);
    var high := Digits(top - c0, top - p1, top - p2, top - p3, top - p4, top - p5, top - p6, 0);
    var product := Digits(c0, c1, c2, c3, c4, c5, c6, c7) * 0x0101_0101_0101_0101;
    assert product == 0x1_0000_0000_0000_0000 * high + (0x0100_0000_0000_0000 * top + low);
    assert low < 0x0100_0000_0000_0000 && top < 256;
    TopOf(product, high, top, low);
  }

  lemma {:induction false} TopOf(product: nat, high: nat, top: nat, low: nat)
    requires product == 0x1_0000_0000_0000_0000 * high + (0x0100_0000_0000_0000 * top + low)
    requires low < 0x0100_0000_0000_0000 && top < 256
    ensures Wrap(product) / 0x0100_0000_0000_0000 == top
  {
    WrapOf(product, high, 0x0100_0000_0000_0000 * top + low);
    QuotientOf(top, low);
  }

  lemma {:induction false} WrapOf(x: nat, high: nat, r: nat)
    requires x == 0x1_0000_0000_0000_0000 * high + r && r < 0x1_0000_0000_0000_0000
    ensures Wrap(x) == r
  {
  }

  lemma {:induction false} QuotientOf(top: nat, low: nat)
    requires low < 0x0100_0000_0000_0000
    ensures (0x0100_0000_0000_0000 * top + low) / 0x0100_0000_0000_0000 == top
  {
  }

  lemma {:induction false} FourDigits(w: Word)
    requires |w| >= 4
    ensures Number(ByteSumsWord(w)) ==
            Ones8(w[0]) + 0x100 * Ones8(w[1]) + 0x1_0000 * Ones8(w[2]) + 0x100_0000 * Ones8(w[3])
            + 0x1_0000_0000 * Number(ByteSumsWord(w[4..]))
    ensures Pop(w) == Ones8(w[0]) + Ones8(w[1]) + Ones8(w[2]) + Ones8(w[3]) + Pop(w[4..])
  {
    ByteSumsNumber(w);
    ByteSumsNumber(w[1..]);
    ByteSumsNumber(w[2..]);
    ByteSumsNumber(w[3..]);
    assert w[1..][1..] == w[2..] && w[2..][1..] == w[3..] && w[3..][1..] == w[4..];
  }

  lemma {:induction false} ByteSumsDigits(w: Word)
    requires |w| == 8
    ensures Number(ByteSumsWord(w)) == Digits(Ones8(w[0]), Ones8(w[1]), Ones8(w[2]), Ones8(w[3]),
                                              Ones8(w[4]), Ones8(w[5]), Ones8(w[6]), Ones8(w[7]))
    ensures Pop(w) == Ones8(w[0]) + Ones8(w[1]) + Ones8(w[2]) + Ones8(w[3])
                    + Ones8(w[4]) + Ones8(w[5]) + Ones8(w[6]) + Ones8(w[7])
  {
    var high := w[4..];
    FourDigits(w);
    FourDigits(high);
    assert high[0] == w[4] && high[1] == w[5] && high[2] == w[6] && high[3] == w[7] && high[4..] == [];
  }

  lemma {:induction false} WordOfOnes()
    ensures Number(H01) == 0x0101_0101_0101_0101
  {
    assert Val8(ONE) == 1;
    assert H01[8..] == [] && H01[0..] == H01;
    assert Number(H01[7..]) == 0x01;
    assert Number(H01[6..]) == 0x0101;
    assert Number(H01[5..]) == 0x01_0101;
    assert Number(H01[4..]) == 0x0101_0101;
    assert Number(H01[3..]) == 0x01_0101_0101;
    assert Number(H01[2..]) == 0x0101_0101_0101;
    assert Number(H01[1..]) == 0x01_0101_0101_0101;
  }

  lemma {:induction false} NumberOfWord(x: nat, n: nat)
    requires x < Power256(n)
    ensures |ToWord(x, n)| == n && Number(ToWord(x, n)) == x
  {
    if n != 0 {
      NumberOfWord(x / 256, n - 1);
      ValueOfByte(x % 256);
      FirstDigit(ToByte(x % 256), ToWord(x / 256, n - 1));
    }
  }

  lemma {:induction false} ByteSumsLength(w: Word)
    ensures |ByteSumsWord(w)| == |w|
  {
    if w != [] {
      ByteSumsLength(w[1..]);
    }
  }

  // ---------- The steps together ----------

  lemma {:induction false} SubIs(a: Word, b: Word, w: Word)
    requires |a| == |w| && Number(a) - Number(b) == Number(w) < 0x1_0000_0000_0000_0000
    ensures Sub(a, b) == w
  {
    WrappedNumber(Number(a) - Number(b), w);
  }

  lemma {:induction false} AddIs(a: Word, b: Word, w: Word)
    requires |a| == |w| && Number(a) + Number(b) == Number(w) < 0x1_0000_0000_0000_0000
    ensures Add(a, b) == w
  {
    WrappedNumber(Number(a) + Number(b), w);
  }

  lemma {:induction false} AndLength(w: Word, mask: Byte)
    ensures |And(w, mask)| == |w|
  {
    if w != [] {
      AndLength(w[1..], mask);
    }
  }

  lemma {:induction false} PairStepIsSums(x: Word)
    requires |x| == 8
    ensures PairStep(x) == PairSumsWord(x)
  {
    PairSumsNumber(x);
    NumberOfEight(PairSumsWord(x));
    SubIs(x, And(Shr1(x), M1), PairSumsWord(x));
  }

  lemma {:induction false} NibbleStepIsSums(x: Word, p: Word)
    requires |x| == 8 && p == PairSumsWord(x) && |p| == 8
    ensures NibbleStep(p) == NibbleSumsWord(x)
  {
    NibbleSumsNumber(x);
    AndLength(p, M2);
    NumberOfEight(NibbleSumsWord(x));
    AddIs(And(p, M2), And(Shr2(p), M2), NibbleSumsWord(x));
  }

  lemma {:induction false} ByteStepIsSums(x: Word, s: Word)
    requires |x| == 8 && s == NibbleSumsWord(x) && |s| == 8
    ensures ByteStep(s) == ByteSumsWord(x)
  {
    NeighbourNumber(x);
    NumberOfEight(NeighbourSumsWord(x));
    AddIs(s, Shr4(s), NeighbourSumsWord(x));
    MaskedSums(x);
  }

  lemma {:induction false} ProductIsSum(x: Word, c: Word)
    requires |x| == 8 && c == ByteSumsWord(x)
    ensures TopByte(Mul(c, H01)) == Pop(x)
  {
    ByteSumsLength(x);
    ByteSumsDigits(x);
    WordOfOnes();
    TopDigit(Ones8(x[0]), Ones8(x[1]), Ones8(x[2]), Ones8(x[3]), Ones8(x[4]), Ones8(x[5]), Ones8(x[6]), Ones8(x[7]));
    WrappedIsKept(Number(c) * Number(H01), |c|);
  }

  lemma {:induction false} WrappedIsKept(x: nat, n: nat)
    requires n == 8
    ensures Number(ToWord(Wrap(x), n)) == Wrap(x)
  {
    assert Power256(3) == 0x100_0000 && Power256(6) == 0x1_0000_0000_0000;
    NumberOfWord(Wrap(x), n);
  }

  /** The word's population count, with no field ever overflowing into the next. */
  lemma {:induction false} Popcount64IsPop(x: Word)
    requires |x| == 8
    ensures Popcount64(x) == Pop(x)
  {
    PairStepIsSums(x);
    PairSumsNumber(x);
    NibbleStepIsSums(x, PairStep(x));
    NibbleSumsNumber(x);
    ByteStepIsSums(x, NibbleStep(PairStep(x)));
    ProductIsSum(x, ByteStep(NibbleStep(PairStep(x))));
  }
}
