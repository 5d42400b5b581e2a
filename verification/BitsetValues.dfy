/** What the operations of a bitset do, on plain sequences of bits and on vectors of blocks. */
module BitsetValues {
  import opened BitBlocks

  // ---------- Plain sequences ----------

  function Resized(s: seq<bool>, n: nat, v: bool): seq<bool> {
    if n <= |s| then s[..n] else s + Fill(n - |s|, v)
  }

  /** What happens to the bits of a range: set to a value, or flipped. */
  datatype Edit = SetTo(value: bool) | Flip

  function Edited(bit: bool, edit: Edit): bool {
    match edit
    case SetTo(value) => value
    case Flip => !bit
  }

  function RangeEdited(s: seq<bool>, pos: nat, len: nat, edit: Edit): seq<bool> {
    seq(|s|, p requires 0 <= p < |s| => if pos <= p < pos + len then Edited(s[p], edit) else s[p])
  }

  /** The operators that combine two bitsets. */
  datatype Operator = And | Or | Xor | Minus

  function CombinedBit(a: bool, b: bool, op: Operator): bool {
    match op
    case And => a && b
    case Or => a || b
    case Xor => a != b
    case Minus => a && !b
  }

  function Combined(s: seq<bool>, t: seq<bool>, op: Operator): seq<bool>
    requires |s| == |t|
  {
    seq(|s|, p requires 0 <= p < |s| => CombinedBit(s[p], t[p], op))
  }

  /** Towards higher positions; zeros come in at the bottom. */
  function ShiftedLeft(s: seq<bool>, shift: nat): seq<bool> {
    seq(|s|, p requires 0 <= p < |s| => p >= shift && s[p - shift])
  }

  function ShiftedRight(s: seq<bool>, shift: nat): seq<bool> {
    seq(|s|, p requires 0 <= p < |s| => p + shift < |s| && s[p + shift])
  }

  // ---------- Vectors of blocks ----------

  /** The first `n` bits. */
  function Bits(blocks: seq<Block>, width: nat, n: nat): seq<bool>
    requires WellFormed(blocks, width)
  {
    seq(n, p requires 0 <= p => At(blocks, width, p))
  }

  predicate UnusedAreZero(blocks: seq<Block>, width: nat, bits: nat)
    requires WellFormed(blocks, width)
  {
    var extra := BitIndex(bits, width);
    extra > 0 && |blocks| > 0 ==> BAnd(blocks[|blocks| - 1], Shl(Fill(width, true), extra)) == Fill(width, false)
  }

  /** The library's own consistency check. */
  predicate Consistent(blocks: seq<Block>, width: nat, bits: nat) {
    WellFormed(blocks, width) && UnusedAreZero(blocks, width, bits) && BlocksRequired(bits, width) == |blocks|
  }

  /** The blocks hold exactly these bits, and zeros from there on. */
  ghost predicate Shows(blocks: seq<Block>, width: nat, s: seq<bool>) {
    WellFormed(blocks, width) && forall p: nat :: At(blocks, width, p) == (p < |s| && s[p])
  }

  lemma {:induction false} ConsistentShows(blocks: seq<Block>, width: nat, bits: nat)
    requires Consistent(blocks, width, bits)
    ensures Shows(blocks, width, Bits(blocks, width, bits))
  {
    var s := Bits(blocks, width, bits);
    forall p: nat
      ensures At(blocks, width, p) == (p < |s| && s[p])
    {
      if p >= bits && BlockIndex(p, width) < |blocks| {
        RequiredCovers(bits, width, p);
        var q, r := BlockIndex(p, width), BitIndex(p, width);
        var masked := BAnd(blocks[q], Shl(Fill(width, true), BitIndex(bits, width)));
        assert masked[r] == blocks[q][r];
      }
    }
  }

  lemma {:induction false} ShowsConsistent(blocks: seq<Block>, width: nat, s: seq<bool>)
    requires Shows(blocks, width, s) && BlocksRequired(|s|, width) == |blocks|
    ensures Consistent(blocks, width, |s|) && Bits(blocks, width, |s|) == s
  {
    var extra := BitIndex(|s|, width);
    if extra > 0 {
      var last := |blocks| - 1;
      var masked := BAnd(blocks[last], Shl(Fill(width, true), extra));
      forall j | 0 <= j < width
        ensures !masked[j]
      {
        if j >= extra {
          var p := last * width + j;
          Position(p, last, j, width);
          assert At(blocks, width, p) == blocks[last][j];
          Compare(|s|, p, width);
        }
      }
      assert masked == Fill(width, false);
    }
  }

  // ---------- Sanitizing ----------

  function Sanitized(blocks: seq<Block>, width: nat, bits: nat): seq<Block>
    requires WellFormed(blocks, width)
  {
    if BitIndex(bits, width) > 0 && |blocks| > 0 then
      var last := |blocks| - 1;
      blocks[last := BAnd(blocks[last], BNot(Shl(Fill(width, true), BitIndex(bits, width))))]
    else
      blocks
  }

  /** Sanitizing clears what lies past the size and nothing else. */
  lemma {:induction false} SanitizedShows(blocks: seq<Block>, width: nat, s: seq<bool>)
    requires WellFormed(blocks, width) && |blocks| == BlocksRequired(|s|, width)
    requires forall p: nat :: p < |s| ==> At(blocks, width, p) == s[p]
    ensures Shows(Sanitized(blocks, width, |s|), width, s)
  {
    var after := Sanitized(blocks, width, |s|);
    forall p: nat
      ensures At(after, width, p) == (p < |s| && s[p])
    {
      RequiredCovers(|s|, width, p);
      SanitizedAt(blocks, width, |s|, p);
    }
  }

  lemma {:induction false} SanitizedAt(blocks: seq<Block>, width: nat, bits: nat, p: nat)
    requires WellFormed(blocks, width) && |blocks| == BlocksRequired(bits, width)
    ensures WellFormed(Sanitized(blocks, width, bits), width)
    ensures At(Sanitized(blocks, width, bits), width, p) == (p < bits && At(blocks, width, p))
  {
    RequiredCovers(bits, width, p);
    Compare(bits, p, width);
    Compose(p, width);
  }
}
