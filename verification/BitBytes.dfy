/** Bytes as eight bits, their numeric value, and the number of one bits in memory. */
module BitBytes {

  datatype Nibble = Nibble(b0: bool, b1: bool, b2: bool, b3: bool)
  datatype Byte = Byte(lo: Nibble, hi: Nibble)

  function Bit(b: bool): nat { if b then 1 else 0 }

  function Ones4(n: Nibble): nat { Bit(n.b0) + Bit(n.b1) + Bit(n.b2) + Bit(n.b3) }

  function Ones8(b: Byte): nat { Ones4(b.lo) + Ones4(b.hi) }

  function Val4(n: Nibble): nat { Bit(n.b0) + 2 * Bit(n.b1) + 4 * Bit(n.b2) + 8 * Bit(n.b3) }

  function Val8(b: Byte): nat { Val4(b.lo) + 16 * Val4(b.hi) }

  function ToNibble(v: nat): Nibble
    requires v < 16
  {
    Nibble(v % 2 == 1, v % 4 >= 2, v % 8 >= 4, v >= 8)
  }

  function ToByte(v: nat): Byte
    requires v < 256
  {
    Byte(ToNibble(v % 16), ToNibble(v / 16))
  }

  function And4(a: Nibble, b: Nibble): Nibble { Nibble(a.b0 && b.b0, a.b1 && b.b1, a.b2 && b.b2, a.b3 && b.b3) }
  function Or4(a: Nibble, b: Nibble): Nibble { Nibble(a.b0 || b.b0, a.b1 || b.b1, a.b2 || b.b2, a.b3 || b.b3) }
  function Xor4(a: Nibble, b: Nibble): Nibble { Nibble(a.b0 != b.b0, a.b1 != b.b1, a.b2 != b.b2, a.b3 != b.b3) }

  function And8(a: Byte, b: Byte): Byte { Byte(And4(a.lo, b.lo), And4(a.hi, b.hi)) }
  function Or8(a: Byte, b: Byte): Byte { Byte(Or4(a.lo, b.lo), Or4(a.hi, b.hi)) }
  function Xor8(a: Byte, b: Byte): Byte { Byte(Xor4(a.lo, b.lo), Xor4(a.hi, b.hi)) }

  const ZERO4: Nibble := Nibble(false, false, false, false)
  const ZERO: Byte := Byte(ZERO4, ZERO4)

  lemma {:induction false} NibbleOfValue(n: Nibble)
    ensures Val4(n) < 16 && ToNibble(Val4(n)) == n
  {
  }

  lemma {:induction false} ValueOfNibble(v: nat)
    requires v < 16
    ensures Val4(ToNibble(v)) == v
  {
  }

  lemma {:induction false} ByteOfValue(b: Byte)
    ensures Val8(b) < 256 && ToByte(Val8(b)) == b
  {
    NibbleOfValue(b.lo);
    NibbleOfValue(b.hi);
    assert Val8(b) % 16 == Val4(b.lo) && Val8(b) / 16 == Val4(b.hi);
  }

  lemma {:induction false} ValueOfByte(v: nat)
    requires v < 256
    ensures Val8(ToByte(v)) == v
  {
    ValueOfNibble(v % 16);
    ValueOfNibble(v / 16);
  }

  // ---------- Memory ----------

  /** The number of one bits in a stretch of memory. */
  function Pop(s: seq<Byte>): nat {
    if s == [] then 0 else Ones8(s[0]) + Pop(s[1..])
  }

  lemma {:induction false} PopConcat(s: seq<Byte>, t: seq<Byte>)
    ensures Pop(s + t) == Pop(s) + Pop(t)
  {
    if s == [] {
      assert s + t == t;
    } else {
      PopConcat(s[1..], t);
      assert (s + t)[1..] == s[1..] + t;
    }
  }

  lemma {:induction false} PopOne(b: Byte)
    ensures Pop([b]) == Ones8(b)
  {
    assert [b][1..] == [];
  }

  lemma {:induction false} PopAtMost(s: seq<Byte>)
    ensures Pop(s) <= 8 * |s|
  {
    if s != [] {
      PopAtMost(s[1..]);
    }
  }
}
