/** What growing, shrinking, appending and range updates do to every bit position. */
module BitsetEdits {
  import opened BitBlocks
  import opened BitsetValues
  import opened BitsetShifts

  // ---------- Growing and shrinking ----------

  /** A vector of blocks cut or extended with equal blocks. */
  function ResizedBlocks(blocks: seq<Block>, count: nat, fill: Block): seq<Block> {
    if count <= |blocks| then blocks[..count] else blocks + seq(count - |blocks|, i => fill)
  }

  lemma {:induction false} ResizedAt(blocks: seq<Block>, width: nat, count: nat, v: bool, p: nat)
    requires WellFormed(blocks, width)
    ensures WellFormed(ResizedBlocks(blocks, count, Fill(width, v)), width)
    ensures At(ResizedBlocks(blocks, count, Fill(width, v)), width, p) ==
            (BlockIndex(p, width) < count && if BlockIndex(p, width) < |blocks| then At(blocks, width, p) else v)
  {
  }

  /** The old last block, filled with ones above the bits in use. */
  function FilledBlock(b: Block, extra: nat): Block
    requires extra < |b|
  {
    BOr(b, Shl(Fill(|b|, true), extra))
  }

  lemma {:induction false} FilledBit(b: Block, extra: nat, r: nat)
    requires extra < |b| && r < |b|
    ensures |FilledBlock(b, extra)| == |b| && FilledBlock(b, extra)[r] == (r >= extra || b[r])
  {
    ShlBit(Fill(|b|, true), extra, r);
    OrBit(b, Shl(Fill(|b|, true), extra), r);
  }

  /** The block that `resize` and `append` write to: the partly used last one. */
  lemma {:induction false} LastBlock(blocks: seq<Block>, width: nat, s: seq<bool>, p: nat)
    requires Shows(blocks, width, s) && |blocks| == BlocksRequired(|s|, width)
    ensures p < |s| ==> BlockIndex(p, width) < |blocks|
    ensures var extra := BitIndex(|s|, width);
            extra > 0 && BlockIndex(p, width) == |blocks| - 1 ==> (p < |s| <==> BitIndex(p, width) < extra)
    ensures BitIndex(|s|, width) == 0 ==> (p < |s| <==> BlockIndex(p, width) < |blocks|)
    ensures BlockIndex(p, width) < |blocks| - 1 ==> p < |s|
    ensures BlockIndex(p, width) >= |blocks| ==> p >= |s|
  {
    RequiredCovers(|s|, width, p);
    Compare(|s|, p, width);
  }

  /** Growing with ones: new blocks full, and the old last block filled up. */
  lemma {:induction false} GrownWithOnes(
      blocks: seq<Block>, width: nat, s: seq<bool>, n: nat, grown: seq<Block>, after: seq<Block>)
    requires Shows(blocks, width, s) && |blocks| == BlocksRequired(|s|, width) && n > |s|
    requires grown == ResizedBlocks(blocks, BlocksRequired(n, width), Fill(width, true)) && |grown| >= |blocks|
    requires var extra := BitIndex(|s|, width);
             after == if |blocks| > 0 && extra > 0
                      then grown[|blocks| - 1 := FilledBlock(blocks[|blocks| - 1], extra)]
                      else grown
    ensures WellFormed(after, width) && |after| == BlocksRequired(n, width)
    ensures forall p: nat :: p < n ==> At(after, width, p) == Resized(s, n, true)[p]
  {
    if |blocks| > 0 && BitIndex(|s|, width) > 0 {
      FilledBit(blocks[|blocks| - 1], BitIndex(|s|, width), 0);
    }
    forall p: nat | p < n
      ensures At(after, width, p) == Resized(s, n, true)[p]
    {
      ResizedAt(blocks, width, BlocksRequired(n, width), true, p);
      RequiredCovers(n, width, p);
      LastBlock(blocks, width, s, p);
      if |blocks| > 0 && BitIndex(|s|, width) > 0 {
        FilledBit(blocks[|blocks| - 1], BitIndex(|s|, width), BitIndex(p, width));
      }
    }
  }

  lemma {:induction false} ResizedOtherwise(
      blocks: seq<Block>, width: nat, s: seq<bool>, n: nat, v: bool, after: seq<Block>)
    requires Shows(blocks, width, s) && |blocks| == BlocksRequired(|s|, width) && (!v || n <= |s|)
    requires after == ResizedBlocks(blocks, BlocksRequired(n, width), Fill(width, v))
    ensures WellFormed(after, width) && |after| == BlocksRequired(n, width)
    ensures forall p: nat :: p < n ==> At(after, width, p) == Resized(s, n, v)[p]
  {
    forall p: nat | p < n
      ensures At(after, width, p) == Resized(s, n, v)[p]
    {
      ResizedAt(blocks, width, BlocksRequired(n, width), v, p);
      RequiredCovers(n, width, p);
      LastBlock(blocks, width, s, p);
    }
  }

  // ---------- One bit more or less ----------

  lemma {:induction false} OneBitMore(blocks: seq<Block>, width: nat, s: seq<bool>, v: bool, after: seq<Block>)
    requires Shows(blocks, width, s) && WellFormed(after, width)
    requires forall p: nat :: At(after, width, p) == if p == |s| then v else At(blocks, width, p)
    ensures Shows(after, width, s + [v])
  {
  }

  lemma {:induction false} NextRequired(n: nat, width: nat)
    requires width > 0
    ensures BitIndex(n, width) > 0 ==> BlocksRequired(n + 1, width) == BlocksRequired(n, width)
    ensures BitIndex(n, width) == 0 ==> BlocksRequired(n + 1, width) == BlocksRequired(n, width) + 1
    ensures BitIndex(n, width) == 0 ==> BlockIndex(n, width) == BlocksRequired(n, width)
    ensures BitIndex(n, width) > 0 ==> BlockIndex(n, width) == BlocksRequired(n, width) - 1
  {
    var q, r := BlockIndex(n, width), BitIndex(n, width);
    Compose(n, width);
    if r + 1 < width {
      Position(n + 1, q, r + 1, width);
    } else {
      Total(q, 1, width);
      Position(n + 1, q + 1, 0, width);
    }
  }

  /** One bit written in place. */
  lemma {:induction false} WrittenAt(blocks: seq<Block>, width: nat, pos: nat, v: bool, p: nat)
    requires WellFormed(blocks, width) && BlockIndex(pos, width) < |blocks|
    ensures var q, r := BlockIndex(pos, width), BitIndex(pos, width);
            var after := blocks[q := blocks[q][r := v]];
            WellFormed(after, width) && At(after, width, p) == if p == pos then v else At(blocks, width, p)
  {
    Compare(p, pos, width);
    Compare(pos, p, width);
  }

  lemma {:induction false} OneBitOther(
      blocks: seq<Block>, width: nat, s: seq<bool>, pos: nat, v: bool, after: seq<Block>)
    requires Shows(blocks, width, s) && WellFormed(after, width) && pos < |s|
    requires forall p: nat :: At(after, width, p) == if p == pos then v else At(blocks, width, p)
    ensures Shows(after, width, s[pos := v])
  {
  }

  lemma {:induction false} PushedAt(blocks: seq<Block>, width: nat, n: nat, v: bool, p: nat)
    requires WellFormed(blocks, width) && BlockIndex(n, width) == |blocks| && BitIndex(n, width) == 0
    ensures var after := blocks + [Fill(width, false)[0 := v]];
            WellFormed(after, width) && At(after, width, p) == if p == n then v else At(blocks, width, p)
  {
    Compare(p, n, width);
    Compare(n, p, width);
  }

  // ---------- Two bitsets ----------

  function CombinedBlock(a: Block, b: Block, op: Operator): Block
    requires |a| == |b|
  {
    match op
    case And => BAnd(a, b)
    case Or => BOr(a, b)
    case Xor => BXor(a, b)
    case Minus => BAnd(a, BNot(b))
  }

  lemma {:induction false} CombinedShows(
      a: seq<Block>, b: seq<Block>, width: nat, s: seq<bool>, t: seq<bool>, op: Operator, after: seq<Block>)
    requires Shows(a, width, s) && Shows(b, width, t) && |s| == |t| && |a| == |b| == |after|
    requires forall k :: 0 <= k < |a| ==> after[k] == CombinedBlock(a[k], b[k], op)
    ensures Shows(after, width, Combined(s, t, op))
  {
    forall p: nat
      ensures At(after, width, p) == (p < |s| && Combined(s, t, op)[p])
    {
      assert At(a, width, p) == (p < |s| && s[p]) && At(b, width, p) == (p < |t| && t[p]);
      if BlockIndex(p, width) < |a| {
        CombinedAt(a[BlockIndex(p, width)], b[BlockIndex(p, width)], op, BitIndex(p, width));
      }
    }
  }

  lemma {:induction false} CombinedAt(a: Block, b: Block, op: Operator, r: nat)
    requires |a| == |b| && r < |a|
    ensures |CombinedBlock(a, b, op)| == |a| && CombinedBlock(a, b, op)[r] == CombinedBit(a[r], b[r], op)
  {
  }

  // ---------- Appending blocks ----------

  function Flat(blocks: seq<Block>): seq<bool> {
    if blocks == [] then [] else Flat(blocks[..|blocks| - 1]) + blocks[|blocks| - 1]
  }

  lemma {:induction false} RequiredPlus(n: nat, width: nat)
    requires width > 0
    ensures BlocksRequired(n + width, width) == BlocksRequired(n, width) + 1
    ensures BitIndex(n + width, width) == BitIndex(n, width)
  {
  }

  lemma {:induction false} AppendedAt(
      blocks: seq<Block>, width: nat, s: seq<bool>, block: Block, p: nat, after: seq<Block>)
    requires Shows(blocks, width, s) && |blocks| == BlocksRequired(|s|, width) && |block| == width
    requires after == Appended(blocks, block, BitIndex(|s|, width))
    ensures WellFormed(after, width)
    ensures At(after, width, p) == (p < |s| + width && (s + block)[p])
  {
    var extra := BitIndex(|s|, width);
    assert At(blocks, width, p) == (p < |s| && s[p]);
    LastBlock(blocks, width, s, p);
    RequiredPlus(|s|, width);
    LastBlockAfter(|s| + width, width, p);
    if p >= |s| {
      PositionBelow(p, |s|, width);
      var d := p - |s|;
      assert d < width ==> BlockIndex(d, width) == 0 && BitIndex(d, width) == d;
      assert d >= width ==> BlockIndex(d, width) >= 1;
    }
    if extra > 0 && BlockIndex(p, width) < |blocks| + 1 {
      AppendedBit(blocks, block, extra, width, BlockIndex(p, width), BitIndex(p, width));
    }
  }

  lemma {:induction false} LastBlockAfter(n: nat, width: nat, p: nat)
    requires width > 0
    ensures p < n ==> BlockIndex(p, width) < BlocksRequired(n, width)
  {
    RequiredCovers(n, width, p);
  }

  /** The new last block takes what does not fit in the old one. */
  function Appended(blocks: seq<Block>, block: Block, extra: nat): seq<Block>
    requires extra < |block| && forall i :: 0 <= i < |blocks| ==> |blocks[i]| == |block|
  {
    if extra == 0 || blocks == [] then blocks + [block]
    else
      var last := |blocks| - 1;
      blocks[last := BOr(blocks[last], Shl(block, extra))] + [Shr(block, |block| - extra)]
  }

  lemma {:induction false} AppendedBit(blocks: seq<Block>, block: Block, extra: nat, width: nat, q: nat, r: nat)
    requires WellFormed(blocks, width) && |block| == width && 0 < extra < width && blocks != []
    requires q <= |blocks| && r < width
    ensures var after := Appended(blocks, block, extra);
            |after| == |blocks| + 1 && WellFormed(after, width) &&
            after[q][r] == if q < |blocks| - 1 then blocks[q][r]
                           else if q == |blocks| - 1 then blocks[q][r] || (r >= extra && block[r - extra])
                           else r < extra && block[r + width - extra]
  {
    var last := |blocks| - 1;
    ShlBit(block, extra, r);
    ShrBit(block, width - extra, r);
    OrBit(blocks[last], Shl(block, extra), r);
  }

  lemma {:induction false} AppendedShows(blocks: seq<Block>, width: nat, s: seq<bool>, block: Block, after: seq<Block>)
    requires Shows(blocks, width, s) && |blocks| == BlocksRequired(|s|, width) && |block| == width
    requires after == Appended(blocks, block, BitIndex(|s|, width))
    ensures Shows(after, width, s + block) && |after| == BlocksRequired(|s + block|, width)
  {
    RequiredPlus(|s|, width);
    forall p: nat
      ensures At(after, width, p) == (p < |s + block| && (s + block)[p])
    {
      AppendedAt(blocks, width, s, block, p, after);
    }
    AppendedAt(blocks, width, s, block, 0, after);
  }

  lemma {:induction false} FlatNext(items: seq<Block>, k: nat)
    requires k < |items|
    ensures Flat(items[..k + 1]) == Flat(items[..k]) + items[k]
  {
    assert items[..k + 1][..k] == items[..k];
  }

  lemma {:induction false} FlatLength(items: seq<Block>, width: nat)
    requires forall i :: 0 <= i < |items| ==> |items[i]| == width
    ensures |Flat(items)| == |items| * width
  {
    if items != [] {
      var n := |items| - 1;
      FlatLength(items[..n], width);
      Total(n, 1, width);
    }
  }

  /** Whole blocks after a size that is a multiple of the width. */
  lemma {:induction false} AlignedShows(blocks: seq<Block>, width: nat, s: seq<bool>, items: seq<Block>)
    requires Shows(blocks, width, s) && |blocks| == BlocksRequired(|s|, width) && BitIndex(|s|, width) == 0
    requires forall i :: 0 <= i < |items| ==> |items[i]| == width
    ensures Shows(blocks + items, width, s + Flat(items))
              && |blocks + items| == BlocksRequired(|s + Flat(items)|, width)
    ensures BitIndex(|s + Flat(items)|, width) == 0
  {
    if items == [] {
      assert blocks + items == blocks && s + Flat(items) == s;
    } else {
      var n := |items| - 1;
      var front, bits := blocks + items[..n], s + Flat(items[..n]);
      AlignedShows(blocks, width, s, items[..n]);
      AppendedShows(front, width, bits, items[n], front + [items[n]]);
      RequiredPlus(|bits|, width);
      assert blocks + items == front + [items[n]];
      assert s + Flat(items) == bits + items[n];
    }
  }

  /** The last block completed by the next item, which leaves a carry of its own. */
  lemma {:induction false} CarryStep(front: seq<Block>, block: Block, item: Block, extra: nat)
    requires 0 < extra < |item| == |block| && forall i :: 0 <= i < |front| ==> |front[i]| == |item|
    ensures front + [BOr(block, Shl(item, extra))] + [Shr(item, |item| - extra)]
              == Appended(front + [block], item, extra)
  {
    var whole := front + [block];
    assert whole[|front| := BOr(block, Shl(item, extra))] == front + [BOr(block, Shl(item, extra))];
  }

  // ---------- Ranges ----------

  function EditBits(b: Block, first: nat, last: nat, edit: Edit): Block
    requires first <= last < |b|
  {
    MaskBits(first, last, |b|, 0);
    var mask := BitMask(first, last, |b|);
    match edit
    case SetTo(value) => if value then BOr(b, mask) else BAnd(b, BNot(mask))
    case Flip => BXor(b, mask)
  }

  /** A whole block at once. */
  function EditBlock(b: Block, edit: Edit): Block {
    match edit
    case SetTo(value) => Fill(|b|, value)
    case Flip => BNot(b)
  }

  lemma {:induction false} EditedBit(b: Block, first: nat, last: nat, edit: Edit, r: nat)
    requires first <= last < |b| && r < |b|
    ensures |EditBits(b, first, last, edit)| == |b|
    ensures EditBits(b, first, last, edit)[r] == if first <= r <= last then Edited(b[r], edit) else b[r]
  {
    MaskBits(first, last, |b|, r);
  }

  lemma {:induction false} FullEdit(b: Block, edit: Edit)
    requires |b| > 0
    ensures EditBits(b, 0, |b| - 1, edit) == EditBlock(b, edit)
  {
    forall r | 0 <= r < |b|
      ensures EditBits(b, 0, |b| - 1, edit)[r] == EditBlock(b, edit)[r]
    {
      EditedBit(b, 0, |b| - 1, edit, r);
    }
    EditedBit(b, 0, |b| - 1, edit, 0);
  }

  /** Block `q` of a range that begins and ends at a block and a bit. */
  function RangeBlock(b: Block, q: nat, fq: nat, fr: nat, lq: nat, lr: nat, edit: Edit): Block
    requires fq <= lq && fr < |b| && lr < |b| && (fq == lq ==> fr <= lr)
  {
    if q < fq || q > lq then b
    else EditBits(b, if q == fq then fr else 0, if q == lq then lr else |b| - 1, edit)
  }

  predicate EditsRange(
      blocks: seq<Block>, after: seq<Block>, width: nat, fq: nat, fr: nat, lq: nat, lr: nat, edit: Edit)
  {
    WellFormed(blocks, width) && |after| == |blocks| &&
    fq <= lq && fr < width && lr < width && (fq == lq ==> fr <= lr) &&
    forall q :: 0 <= q < |blocks| ==> after[q] == RangeBlock(blocks[q], q, fq, fr, lq, lr, edit)
  }

  lemma {:induction false} RangeBit(b: Block, q: nat, fq: nat, fr: nat, lq: nat, lr: nat, edit: Edit, r: nat)
    requires fq <= lq && fr < |b| && lr < |b| && (fq == lq ==> fr <= lr) && r < |b|
    ensures |RangeBlock(b, q, fq, fr, lq, lr, edit)| == |b|
    ensures RangeBlock(b, q, fq, fr, lq, lr, edit)[r] ==
            if (fq < q || (fq == q && fr <= r)) && (q < lq || (q == lq && r <= lr)) then Edited(b[r], edit) else b[r]
  {
    if fq <= q <= lq {
      EditedBit(b, if q == fq then fr else 0, if q == lq then lr else |b| - 1, edit, r);
    }
  }

  lemma {:induction false} RangeShows(
      blocks: seq<Block>, after: seq<Block>, width: nat, s: seq<bool>, pos: nat, len: nat, edit: Edit)
    requires Shows(blocks, width, s) && |blocks| == BlocksRequired(|s|, width) && len > 0 && pos + len <= |s|
    requires var end := pos + len - 1;
             EditsRange(blocks, after, width, BlockIndex(pos, width), BitIndex(pos, width),
                        BlockIndex(end, width), BitIndex(end, width), edit)
    ensures Shows(after, width, RangeEdited(s, pos, len, edit))
  {
    var end := pos + len - 1;
    var fq, fr, lq, lr := BlockIndex(pos, width), BitIndex(pos, width), BlockIndex(end, width), BitIndex(end, width);
    forall q | 0 <= q < |blocks|
      ensures |after[q]| == width
    {
      RangeBit(blocks[q], q, fq, fr, lq, lr, edit, 0);
    }
    forall p: nat
      ensures At(after, width, p) == (p < |s| && RangeEdited(s, pos, len, edit)[p])
    {
      var q, r := BlockIndex(p, width), BitIndex(p, width);
      assert At(blocks, width, p) == (p < |s| && s[p]);
      Compare(pos, p, width);
      Compare(p, end, width);
      if q < |blocks| {
        RangeBit(blocks[q], q, fq, fr, lq, lr, edit, r);
      } else {
        RequiredCovers(|s|, width, p);
      }
    }
  }

  /** Every block edited as a whole, before the unused bits are cleared. */
  lemma {:induction false} AllEdited(blocks: seq<Block>, after: seq<Block>, width: nat, s: seq<bool>, edit: Edit)
    requires Shows(blocks, width, s) && |blocks| == BlocksRequired(|s|, width) && |after| == |blocks|
    requires forall i :: 0 <= i < |blocks| ==> after[i] == EditBlock(blocks[i], edit)
    ensures WellFormed(after, width)
    ensures forall p: nat :: p < |s| ==> At(after, width, p) == RangeEdited(s, 0, |s|, edit)[p]
  {
    assert WellFormed(after, width);
    forall p: nat | p < |s|
      ensures At(after, width, p) == RangeEdited(s, 0, |s|, edit)[p]
    {
      RequiredCovers(|s|, width, p);
      assert At(blocks, width, p) == s[p];
    }
  }
}
