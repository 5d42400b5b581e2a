/** Blocks of bits, and the bit positions of a vector of blocks. */
module BitBlocks {

  /** A block is its bits, the least significant first. */
  type Block = seq<bool>

  function Fill(n: nat, v: bool): Block { seq(n, j => v) }

  function BNot(a: Block): Block { seq(|a|, j requires 0 <= j < |a| => !a[j]) }

  function BAnd(a: Block, b: Block): Block
    requires |a| == |b|
  {
    seq(|a|, j requires 0 <= j < |a| => a[j] && b[j])
  }

  function BOr(a: Block, b: Block): Block
    requires |a| == |b|
  {
    seq(|a|, j requires 0 <= j < |a| => a[j] || b[j])
  }

  function BXor(a: Block, b: Block): Block
    requires |a| == |b|
  {
    seq(|a|, j requires 0 <= j < |a| => a[j] != b[j])
  }

  /** Shifts by less than the width, as the language requires. */
  function Shl(a: Block, k: nat): Block
    requires k <= |a|
  {
    Fill(k, false) + a[..|a| - k]
  }

  function Shr(a: Block, k: nat): Block
    requires k <= |a|
  {
    a[k..] + Fill(k, false)
  }

  /** The block whose number is one less than a power of two. */
  function LowOnes(n: nat, width: nat): Block { seq(width, j => j < n) }

  /** The bits from `first` to `last`. */
  function BitMask(first: nat, last: nat, width: nat): Block
    requires first <= last < width
  {
    if last == width - 1 then Shl(Fill(width, true), first)
    else BXor(LowOnes(last + 1, width), LowOnes(first, width))
  }

  lemma {:induction false} MaskBits(first: nat, last: nat, width: nat, j: nat)
    requires first <= last < width && j < width
    ensures |BitMask(first, last, width)| == width && (BitMask(first, last, width)[j] <==> first <= j <= last)
  {
  }

  // ---------- Positions ----------

  /** The quotient and the remainder of a position by the block width, counted off block by block. */
  function BlockIndex(p: nat, width: nat): nat
    requires width > 0
  {
    if p < width then 0 else BlockIndex(p - width, width) + 1
  }

  function BitIndex(p: nat, width: nat): (r: nat)
    requires width > 0
    ensures r < width
  {
    if p < width then p else BitIndex(p - width, width)
  }

  predicate WellFormed(blocks: seq<Block>, width: nat) {
    width > 0 && forall i :: 0 <= i < |blocks| ==> |blocks[i]| == width
  }

  /** The bit at a position; everything past the last block reads as zero. */
  predicate At(blocks: seq<Block>, width: nat, p: nat)
    requires WellFormed(blocks, width)
  {
    BlockIndex(p, width) < |blocks| && blocks[BlockIndex(p, width)][BitIndex(p, width)]
  }

  lemma {:induction false} Multiple(d: int, width: nat)
    requires d >= 1
    ensures d * width >= width
  {
    assert (d - 1) * width >= 0;
  }

  lemma {:induction false} Difference(a: int, b: int, width: int)
    ensures (a - b) * width == a * width - b * width
  {
  }

  lemma {:induction false} Total(a: int, b: int, width: int)
    ensures (a + b) * width == a * width + b * width
  {
  }

  lemma {:induction false} BelowBlock(q: nat, r: nat, q': nat, r': nat, width: nat)
    requires r < width && q < q'
    ensures q * width + r < q' * width + r'
  {
    Difference(q', q, width);
    Multiple(q' - q, width);
  }

  lemma {:induction false} SamePlace(q: nat, r: nat, q': nat, r': nat, width: nat)
    requires r < width && r' < width && q * width + r == q' * width + r'
    ensures q == q' && r == r'
  {
    if q < q' {
      BelowBlock(q, r, q', r', width);
    } else if q' < q {
      BelowBlock(q', r', q, r, width);
    }
  }

  lemma {:induction false} Compose(p: nat, width: nat)
    requires width > 0
    ensures p == BlockIndex(p, width) * width + BitIndex(p, width)
  {
    if p >= width {
      Compose(p - width, width);
      Total(BlockIndex(p - width, width), 1, width);
    }
  }

  lemma {:induction false} IndexIsQuotient(p: nat, width: nat)
    requires width > 0
    ensures BlockIndex(p, width) == p / width && BitIndex(p, width) == p % width
  {
    Compose(p, width);
    SamePlace(BlockIndex(p, width), BitIndex(p, width), p / width, p % width, width);
  }

  /** The position whose block and bit are known. */
  lemma {:induction false} Position(p: int, q: nat, r: nat, width: nat)
    requires r < width && p == q * width + r
    ensures p >= 0 && BlockIndex(p, width) == q && BitIndex(p, width) == r
  {
    assert q * width >= 0;
    Compose(p, width);
    SamePlace(BlockIndex(p, width), BitIndex(p, width), q, r, width);
  }

  /** Positions compare by block first and then by bit. */
  lemma {:induction false} Compare(p: nat, a: nat, width: nat)
    requires width > 0
    ensures p <= a <==>
            || BlockIndex(p, width) < BlockIndex(a, width)
            || (BlockIndex(p, width) == BlockIndex(a, width) && BitIndex(p, width) <= BitIndex(a, width))
  {
    var q, r, q', r' := BlockIndex(p, width), BitIndex(p, width), BlockIndex(a, width), BitIndex(a, width);
    Compose(p, width);
    Compose(a, width);
    if q < q' {
      BelowBlock(q, r, q', r', width);
    } else if q' < q {
      BelowBlock(q', r', q, r, width);
    }
  }

  // ---------- The number of blocks ----------

  function BlocksRequired(nbits: nat, width: nat): nat
    requires width > 0
  {
    BlockIndex(nbits, width) + if BitIndex(nbits, width) > 0 then 1 else 0
  }

  /** A position below the size has a block; one in the last block but past the size is unused. */
  lemma {:induction false} RequiredCovers(nbits: nat, width: nat, p: nat)
    requires width > 0
    ensures p < nbits ==> BlockIndex(p, width) < BlocksRequired(nbits, width)
    ensures p >= nbits && BlockIndex(p, width) < BlocksRequired(nbits, width) ==>
              && BitIndex(nbits, width) > 0
              && BlockIndex(p, width) == BlockIndex(nbits, width)
              && BitIndex(p, width) >= BitIndex(nbits, width)
  {
    Compare(nbits, p, width);
  }
}
