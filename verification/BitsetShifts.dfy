/** Shifting whole vectors of blocks moves every bit by the same distance. */
module BitsetShifts {
  import opened BitBlocks
  import opened BitsetValues

  /** Block `i` after a shift by `s` blocks and `o` bits towards higher positions. */
  function LeftBlock(blocks: seq<Block>, width: nat, s: nat, o: nat, i: nat): Block
    requires WellFormed(blocks, width) && i < |blocks| && o < width
  {
    if i < s then Fill(width, false)
    else if o == 0 then blocks[i - s]
    else if i == s then Shl(blocks[0], o)
    else BOr(Shl(blocks[i - s], o), Shr(blocks[i - s - 1], width - o))
  }

  /** Block `i` after a shift by `s` blocks and `o` bits towards lower positions. */
  function RightBlock(blocks: seq<Block>, width: nat, s: nat, o: nat, i: nat): Block
    requires WellFormed(blocks, width) && i < |blocks| && o < width
  {
    if i + s >= |blocks| then Fill(width, false)
    else if o == 0 then blocks[i + s]
    else if i + s == |blocks| - 1 then Shr(blocks[|blocks| - 1], o)
    else BOr(Shr(blocks[i + s], o), Shl(blocks[i + s + 1], width - o))
  }

  /** The block and bit a position comes from. */
  lemma {:induction false} PositionBelow(p: nat, shift: nat, width: nat)
    requires width > 0
    ensures BitIndex(p, width) >= BitIndex(shift, width) ==>
              (p >= shift <==> BlockIndex(p, width) >= BlockIndex(shift, width))
    ensures BitIndex(p, width) < BitIndex(shift, width) ==>
              (p >= shift <==> BlockIndex(p, width) > BlockIndex(shift, width))
    ensures p >= shift && BitIndex(p, width) >= BitIndex(shift, width) ==>
              BlockIndex(p - shift, width) == BlockIndex(p, width) - BlockIndex(shift, width)
              && BitIndex(p - shift, width) == BitIndex(p, width) - BitIndex(shift, width)
    ensures p >= shift && BitIndex(p, width) < BitIndex(shift, width) ==>
              && BlockIndex(p - shift, width) == BlockIndex(p, width) - BlockIndex(shift, width) - 1
              && BitIndex(p - shift, width) == BitIndex(p, width) + width - BitIndex(shift, width)
  {
    var q, r, s, o := BlockIndex(p, width), BitIndex(p, width), BlockIndex(shift, width), BitIndex(shift, width);
    Compare(shift, p, width);
    Compose(p, width);
    Compose(shift, width);
    Difference(q, s, width);
    if p >= shift {
      if r >= o {
        Position(p - shift, q - s, r - o, width);
      } else {
        Difference(q - s, 1, width);
        Position(p - shift, q - s - 1, r + width - o, width);
      }
    }
  }

  lemma {:induction false} PositionAbove(p: nat, shift: nat, width: nat)
    requires width > 0
    ensures BitIndex(p, width) + BitIndex(shift, width) < width ==>
              BlockIndex(p + shift, width) == BlockIndex(p, width) + BlockIndex(shift, width)
              && BitIndex(p + shift, width) == BitIndex(p, width) + BitIndex(shift, width)
    ensures BitIndex(p, width) + BitIndex(shift, width) >= width ==>
              && BlockIndex(p + shift, width) == BlockIndex(p, width) + BlockIndex(shift, width) + 1
              && BitIndex(p + shift, width) == BitIndex(p, width) + BitIndex(shift, width) - width
  {
    var q, r, s, o := BlockIndex(p, width), BitIndex(p, width), BlockIndex(shift, width), BitIndex(shift, width);
    Compose(p, width);
    Compose(shift, width);
    Total(q, s, width);
    if r + o < width {
      Position(p + shift, q + s, r + o, width);
    } else {
      Total(q + s, 1, width);
      Position(p + shift, q + s + 1, r + o - width, width);
    }
  }

  /** Every block of `after` is the shifted block. */
  predicate ShiftsLeft(blocks: seq<Block>, after: seq<Block>, width: nat, s: nat, o: nat) {
    WellFormed(blocks, width) && WellFormed(after, width) && |after| == |blocks| && o < width &&
    forall i :: 0 <= i < |blocks| ==> after[i] == LeftBlock(blocks, width, s, o, i)
  }

  predicate ShiftsRight(blocks: seq<Block>, after: seq<Block>, width: nat, s: nat, o: nat) {
    WellFormed(blocks, width) && WellFormed(after, width) && |after| == |blocks| && o < width &&
    forall i :: 0 <= i < |blocks| ==> after[i] == RightBlock(blocks, width, s, o, i)
  }

  lemma {:induction false} ShlBit(a: Block, k: nat, j: nat)
    requires j < |a| && k <= |a|
    ensures |Shl(a, k)| == |a| && Shl(a, k)[j] == (j >= k && a[j - k])
  {
  }

  lemma {:induction false} ShrBit(a: Block, k: nat, j: nat)
    requires j < |a| && k <= |a|
    ensures |Shr(a, k)| == |a| && Shr(a, k)[j] == (j + k < |a| && a[j + k])
  {
  }

  lemma {:induction false} OrBit(a: Block, b: Block, j: nat)
    requires |a| == |b| && j < |a|
    ensures |BOr(a, b)| == |a| && BOr(a, b)[j] == (a[j] || b[j])
  {
  }

  /** Two neighbouring blocks read through a window that straddles them. */
  lemma {:induction false} JoinBit(high: Block, low: Block, o: nat, r: nat)
    requires |high| == |low| && r < |high| && 0 < o < |high|
    ensures |BOr(Shl(high, o), Shr(low, |high| - o))| == |high|
    ensures BOr(Shl(high, o), Shr(low, |high| - o))[r] == if r >= o then high[r - o] else low[r + |high| - o]
  {
    ShlBit(high, o, r);
    ShrBit(low, |high| - o, r);
    OrBit(Shl(high, o), Shr(low, |high| - o), r);
  }

  lemma {:induction false} JoinBitDown(low: Block, high: Block, o: nat, r: nat)
    requires |high| == |low| && r < |high| && 0 < o < |high|
    ensures |BOr(Shr(low, o), Shl(high, |low| - o))| == |low|
    ensures BOr(Shr(low, o), Shl(high, |low| - o))[r] == if r + o < |low| then low[r + o] else high[r + o - |low|]
  {
    ShrBit(low, o, r);
    ShlBit(high, |low| - o, r);
    OrBit(Shr(low, o), Shl(high, |low| - o), r);
  }

  lemma {:induction false} LeftBit(blocks: seq<Block>, width: nat, s: nat, o: nat, q: nat, r: nat)
    requires WellFormed(blocks, width) && q < |blocks| && r < width && o < width
    ensures |LeftBlock(blocks, width, s, o, q)| == width
    ensures r >= o ==> LeftBlock(blocks, width, s, o, q)[r] == (q >= s && blocks[q - s][r - o])
    ensures r < o ==> LeftBlock(blocks, width, s, o, q)[r] == (q > s && blocks[q - s - 1][r + width - o])
  {
    if q >= s && o > 0 {
      if q == s {
        ShlBit(blocks[0], o, r);
      } else {
        JoinBit(blocks[q - s], blocks[q - s - 1], o, r);
      }
    }
  }

  lemma {:induction false} RightBitBelow(blocks: seq<Block>, width: nat, s: nat, o: nat, q: nat, r: nat)
    requires WellFormed(blocks, width) && q < |blocks| && r + o < width
    ensures |RightBlock(blocks, width, s, o, q)| == width
    ensures RightBlock(blocks, width, s, o, q)[r] == (q + s < |blocks| && blocks[q + s][r + o])
  {
    if q + s < |blocks| && o > 0 {
      if q + s + 1 == |blocks| {
        ShrBit(blocks[q + s], o, r);
      } else {
        JoinBitDown(blocks[q + s], blocks[q + s + 1], o, r);
      }
    }
  }

  lemma {:induction false} RightBitAbove(blocks: seq<Block>, width: nat, s: nat, o: nat, q: nat, r: nat)
    requires WellFormed(blocks, width) && q < |blocks| && r < width && o < width <= r + o
    ensures |RightBlock(blocks, width, s, o, q)| == width
    ensures RightBlock(blocks, width, s, o, q)[r] == (q + s + 1 < |blocks| && blocks[q + s + 1][r + o - width])
  {
    if q + s < |blocks| {
      if q + s + 1 == |blocks| {
        ShrBit(blocks[q + s], o, r);
      } else {
        JoinBitDown(blocks[q + s], blocks[q + s + 1], o, r);
      }
    }
  }

  lemma {:induction false} LeftAt(blocks: seq<Block>, after: seq<Block>, width: nat, shift: nat, p: nat)
    requires width > 0 && ShiftsLeft(blocks, after, width, BlockIndex(shift, width), BitIndex(shift, width))
    ensures At(after, width, p) == (BlockIndex(p, width) < |blocks| && p >= shift && At(blocks, width, p - shift))
  {
    if BlockIndex(p, width) < |blocks| {
      PositionBelow(p, shift, width);
      LeftBit(blocks, width, BlockIndex(shift, width), BitIndex(shift, width),
              BlockIndex(p, width), BitIndex(p, width));
    }
  }

  lemma {:induction false} RightAt(blocks: seq<Block>, after: seq<Block>, width: nat, shift: nat, p: nat)
    requires width > 0 && ShiftsRight(blocks, after, width, BlockIndex(shift, width), BitIndex(shift, width))
    ensures At(after, width, p) == At(blocks, width, p + shift)
  {
    var q, r, s, o := BlockIndex(p, width), BitIndex(p, width), BlockIndex(shift, width), BitIndex(shift, width);
    PositionAbove(p, shift, width);
    if q < |blocks| {
      if r + o < width {
        RightBitBelow(blocks, width, s, o, q, r);
      } else {
        RightBitAbove(blocks, width, s, o, q, r);
      }
      assert after[q] == RightBlock(blocks, width, s, o, q);
    }
  }

  /** On a whole bitset, before the unused bits are cleared. */
  lemma {:induction false} LeftShows(blocks: seq<Block>, after: seq<Block>, width: nat, shift: nat, s: seq<bool>)
    requires Shows(blocks, width, s) && |blocks| == BlocksRequired(|s|, width)
    requires ShiftsLeft(blocks, after, width, BlockIndex(shift, width), BitIndex(shift, width))
    ensures forall p: nat :: p < |s| ==> At(after, width, p) == ShiftedLeft(s, shift)[p]
  {
    forall p: nat | p < |s|
      ensures At(after, width, p) == ShiftedLeft(s, shift)[p]
    {
      LeftAt(blocks, after, width, shift, p);
      RequiredCovers(|s|, width, p);
    }
  }

  /** A shift towards lower positions leaves the unused bits zero by itself. */
  lemma {:induction false} RightShows(blocks: seq<Block>, after: seq<Block>, width: nat, shift: nat, s: seq<bool>)
    requires Shows(blocks, width, s)
               && ShiftsRight(blocks, after, width, BlockIndex(shift, width), BitIndex(shift, width))
    ensures Shows(after, width, ShiftedRight(s, shift))
  {
    forall p: nat
      ensures At(after, width, p) == (p < |s| && ShiftedRight(s, shift)[p])
    {
      RightAt(blocks, after, width, shift, p);
    }
  }
}
