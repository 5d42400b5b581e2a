/** The bitset class: a vector of blocks updated in place, refining a plain sequence of bits. */
module DynamicBitset {
  import opened BitBlocks
  import opened BitsetValues
  import opened BitsetShifts
  import opened BitsetEdits
  import opened BitsetQueries
  import opened Sequences

  class Bitset {
    /** Bits per block. */
    const width: nat
    var blocks: seq<Block>
    var bits: nat

    ghost predicate Valid()
      reads this
    {
      Consistent(blocks, width, bits)
    }

    ghost function Contents(): seq<bool>
      reads this
      requires Valid()
    {
      Bits(blocks, width, bits)
    }

    constructor (width: nat)
      requires width > 0
      ensures Valid() && Contents() == [] && this.width == width
    {
      this.width := width;
      blocks := [];
      bits := 0;
    }

    function ExtraBits(): nat
      reads this
      requires width > 0
    {
      BitIndex(bits, width)
    }

    /** Clears the unused bits of the last block. */
    method Sanitize(ghost s: seq<bool>)
      requires WellFormed(blocks, width) && bits == |s| && |blocks| == BlocksRequired(bits, width)
      requires forall p: nat :: p < |s| ==> At(blocks, width, p) == s[p]
      modifies `blocks
      ensures Valid() && Contents() == s
    {
      ghost var before := blocks;
      var shift := BitIndex(bits, width);
      if shift > 0 {
        var last := |blocks| - 1;
        blocks := blocks[last := BAnd(blocks[last], BNot(Shl(Fill(width, true), shift)))];
      }
      assert blocks == Sanitized(before, width, bits);
      SanitizedShows(before, width, s);
      ShowsConsistent(blocks, width, s);
    }

    // ---------- Size ----------

    method Resize(nbits: nat, value: bool)
      requires Valid()
      modifies this
      ensures Valid() && Contents() == Resized(old(Contents()), nbits, value)
    {
      if nbits == bits {
        return;
      }
      ghost var s, before := Contents(), blocks;
      ConsistentShows(blocks, width, bits);
      var oldCount, newCount := |blocks|, BlocksRequired(nbits, width);
      var init := Fill(width, value);
      if newCount != oldCount {
        blocks := ResizedBlocks(blocks, newCount, init);
      }
      assert blocks == ResizedBlocks(before, newCount, init);
      if value && nbits > bits && oldCount > 0 {
        RequiredGrows(bits, nbits, width);
        var extra := ExtraBits();
        if extra > 0 {
          blocks := blocks[oldCount - 1 := BOr(blocks[oldCount - 1], Shl(init, extra))];
        }
      }
      if value && nbits > bits {
        RequiredGrows(bits, nbits, width);
        GrownWithOnes(before, width, s, nbits, ResizedBlocks(before, newCount, init), blocks);
      } else {
        ResizedOtherwise(before, width, s, nbits, value, blocks);
      }
      bits := nbits;
      Sanitize(Resized(s, nbits, value));
    }

    method Clear()
      requires Valid()
      modifies this
      ensures Valid() && Contents() == []
    {
      blocks := [];
      bits := 0;
    }

    method PushBack(value: bool)
      requires Valid()
      modifies this
      ensures Valid() && Contents() == old(Contents()) + [value]
    {
      ghost var s, before := Contents(), blocks;
      ConsistentShows(blocks, width, bits);
      NextRequired(bits, width);
      RoomLeft(bits, |blocks|, width);
      var newLastBit := bits;
      bits := bits + 1;
      if bits <= |blocks| * width {
        if value {
          SetBit(newLastBit, value);
        }
        forall p: nat
          ensures At(blocks, width, p) == if p == |s| then value else At(before, width, p)
        {
          WrittenAt(before, width, |s|, value, p);
        }
      } else {
        blocks := blocks + [Fill(width, false)[0 := value]];
        forall p: nat
          ensures At(blocks, width, p) == if p == |s| then value else At(before, width, p)
        {
          PushedAt(before, width, |s|, value, p);
        }
      }
      OneBitMore(before, width, s, value, blocks);
      ShowsConsistent(blocks, width, s + [value]);
    }

    method PopBack()
      requires Valid()
      modifies this
      ensures Valid() && Contents() == if old(Contents()) == [] then [] else old(Contents())[..|old(Contents())| - 1]
    {
      if bits == 0 {
        return;
      }
      ghost var s, before := Contents(), blocks;
      ConsistentShows(blocks, width, bits);
      bits := bits - 1;
      NextRequired(bits, width);
      ghost var t := s[..bits];
      if |blocks| > BlocksRequired(bits, width) {
        blocks := blocks[..|blocks| - 1];
        forall p: nat | p < |t|
          ensures At(blocks, width, p) == t[p]
        {
          RequiredCovers(bits, width, p);
          assert At(before, width, p) == s[p];
        }
        SanitizedShows(blocks, width, t);
        ShowsConsistent(blocks, width, t);
      } else {
        forall p: nat | p < |t|
          ensures At(blocks, width, p) == t[p]
        {
          assert At(before, width, p) == s[p];
        }
        Sanitize(t);
      }
    }

    // ---------- Appending ----------

    method AppendBlock(block: Block)
      requires Valid() && |block| == width
      modifies this
      ensures Valid() && Contents() == old(Contents()) + block
    {
      ghost var s, before := Contents(), blocks;
      ConsistentShows(blocks, width, bits);
      var extra := ExtraBits();
      if extra == 0 {
        blocks := blocks + [block];
      } else {
        var last := |blocks| - 1;
        blocks := blocks[last := BOr(blocks[last], Shl(block, extra))];
        blocks := blocks + [Shr(block, width - extra)];
      }
      bits := bits + width;
      assert blocks == Appended(before, block, extra);
      AppendedShows(before, width, s, block, blocks);
      ShowsConsistent(blocks, width, s + block);
    }

    method AppendBlocks(items: seq<Block>)
      requires Valid() && forall i :: 0 <= i < |items| ==> |items[i]| == width
      modifies this
      ensures Valid() && Contents() == old(Contents()) + Flat(items)
    {
      ghost var s, before := Contents(), blocks;
      ConsistentShows(blocks, width, bits);
      if items == [] {
        assert s + Flat(items) == s;
        return;
      }
      var extra := ExtraBits();
      if extra == 0 {
        blocks := blocks + items;
        bits := bits + |items| * width;
        FlatLength(items, width);
        AlignedShows(before, width, s, items);
        ShowsConsistent(blocks, width, s + Flat(items));
      } else {
        AppendStraddling(items, extra);
      }
    }

    /** The blocks together with the one still being filled. */
    ghost predicate Carrying(block: Block, t: seq<bool>)
      reads this
    {
      Shows(blocks + [block], width, t) && |blocks| + 1 == BlocksRequired(|t|, width) && bits + width == |t|
    }

    /** Every block is split over the last block and a new one. */
    method AppendStraddling(items: seq<Block>, extra: nat)
      requires Valid() && items != [] && extra == ExtraBits() > 0
      requires forall i :: 0 <= i < |items| ==> |items[i]| == width
      modifies this
      ensures Valid() && Contents() == old(Contents()) + Flat(items)
    {
      ghost var s := Contents();
      var block := AppendFirst(items[0], extra);
      ghost var t := s + items[0];
      FlatNext(items, 0);
      assert t == s + Flat(items[..1]);
      var k := 1;
      while k < |items|
        invariant 1 <= k <= |items| && |block| == width
        invariant t == s + Flat(items[..k])
        invariant Carrying(block, t) && BitIndex(|t|, width) == extra
      {
        block := AppendNext(block, items[k], extra, t);
        FlatNext(items, k);
        t := t + items[k];
        k := k + 1;
      }
      assert items[..k] == items;
      blocks := blocks + [block];
      bits := bits + width;
      ShowsConsistent(blocks, width, t);
    }

    method AppendFirst(item: Block, extra: nat) returns (block: Block)
      requires Valid() && extra == ExtraBits() > 0 && |item| == width
      modifies `blocks
      ensures |block| == width && Carrying(block, old(Contents()) + item)
      ensures BitIndex(|old(Contents()) + item|, width) == extra
    {
      ghost var s, before := Contents(), blocks;
      ConsistentShows(blocks, width, bits);
      var last := |blocks| - 1;
      blocks := blocks[last := BOr(blocks[last], Shl(item, extra))];
      block := Shr(item, width - extra);
      AppendedShows(before, width, s, item, blocks + [block]);
      RequiredPlus(|s|, width);
    }

    method AppendNext(carry: Block, item: Block, extra: nat, ghost t: seq<bool>) returns (block: Block)
      requires width > 0 && Carrying(carry, t) && BitIndex(|t|, width) == extra > 0 && |carry| == |item| == width
      modifies this
      ensures |block| == width && Carrying(block, t + item) && BitIndex(|t + item|, width) == extra
    {
      ghost var whole := blocks + [carry];
      assert forall i :: 0 <= i < |blocks| ==> blocks[i] == whole[i];
      CarryStep(blocks, carry, item, extra);
      block := BOr(carry, Shl(item, extra));
      blocks := blocks + [block];
      bits := bits + width;
      block := Shr(item, width - extra);
      AppendedShows(whole, width, t, item, blocks + [block]);
      RequiredPlus(|t|, width);
    }

    // ---------- Single bits ----------

    method SetBit(pos: nat, value: bool)
      requires WellFormed(blocks, width) && BlockIndex(pos, width) < |blocks|
      modifies `blocks
      ensures var q, r := BlockIndex(pos, width), BitIndex(pos, width);
              blocks == old(blocks)[q := old(blocks)[q][r := value]]
    {
      var q, mask := BlockIndex(pos, width), OneBit(BitIndex(pos, width), width);
      ghost var before := blocks[q];
      if value {
        blocks := blocks[q := BOr(blocks[q], mask)];
      } else {
        blocks := blocks[q := BAnd(blocks[q], BNot(mask))];
      }
      assert blocks[q] == before[BitIndex(pos, width) := value];
    }

    /** The forms of set, reset and flip that take one position. */
    method EditOne(pos: nat, edit: Edit)
      requires Valid() && pos < bits
      modifies `blocks
      ensures Valid() && Contents() == old(Contents())[pos := Edited(old(Contents())[pos], edit)]
    {
      ghost var s, before := Contents(), blocks;
      ConsistentShows(blocks, width, bits);
      RequiredCovers(bits, width, pos);
      match edit {
        case SetTo(value) => SetBit(pos, value);
        case Flip => FlipBit(pos);
      }
      ghost var v := Edited(s[pos], edit);
      assert At(before, width, pos) == s[pos];
      forall p: nat
        ensures At(blocks, width, p) == if p == pos then v else At(before, width, p)
      {
        WrittenAt(before, width, pos, v, p);
      }
      OneBitOther(before, width, s, pos, v, blocks);
      ShowsConsistent(blocks, width, s[pos := v]);
    }

    method FlipBit(pos: nat)
      requires WellFormed(blocks, width) && BlockIndex(pos, width) < |blocks|
      modifies `blocks
      ensures var q, r := BlockIndex(pos, width), BitIndex(pos, width);
              blocks == old(blocks)[q := old(blocks)[q][r := !old(blocks)[q][r]]]
    {
      var q, r := BlockIndex(pos, width), BitIndex(pos, width);
      ghost var before := blocks[q];
      blocks := blocks[q := BXor(blocks[q], OneBit(r, width))];
      assert blocks[q] == before[r := !before[r]];
    }

    // ---------- Set operators ----------

    /** The operators that combine two bitsets of one size; the operand may be the bitset itself. */
    method Combine(rhs: Bitset, op: Operator)
      requires Valid() && rhs.Valid() && rhs.width == width && rhs.bits == bits
      modifies `blocks
      ensures Valid() && Contents() == Combined(old(Contents()), old(rhs.Contents()), op)
    {
      ghost var s, t, before, others := Contents(), rhs.Contents(), blocks, rhs.blocks;
      ConsistentShows(blocks, width, bits);
      ConsistentShows(rhs.blocks, width, bits);
      var i := 0;
      while i < |blocks|
        invariant 0 <= i <= |blocks| == |before| == |others| == |rhs.blocks|
        invariant forall k :: 0 <= k < i ==> blocks[k] == CombinedBlock(before[k], others[k], op)
        invariant forall k :: i <= k < |before| ==> blocks[k] == before[k]
        invariant forall k :: i <= k < |others| ==> rhs.blocks[k] == others[k]
      {
        blocks := blocks[i := CombinedBlock(blocks[i], rhs.blocks[i], op)];
        i := i + 1;
      }
      CombinedShows(before, others, width, s, t, op, blocks);
      ShowsConsistent(blocks, width, Combined(s, t, op));
    }

    // ---------- Ranges ----------

    /** The range forms of set, reset and flip. */
    method EditRange(pos: nat, len: nat, edit: Edit)
      requires Valid() && pos < bits && pos + len <= bits && pos + len > 0
      modifies `blocks
      ensures Valid() && Contents() == RangeEdited(old(Contents()), pos, len, edit)
    {
      ghost var s, before := Contents(), blocks;
      if len == 0 {
        assert RangeEdited(s, pos, len, edit) == s;
        return;
      }
      ConsistentShows(blocks, width, bits);
      RequiredCovers(bits, width, pos + len - 1);
      Compare(pos, pos + len - 1, width);
      EditBlocks(BlockIndex(pos, width), BitIndex(pos, width),
                 BlockIndex(pos + len - 1, width), BitIndex(pos + len - 1, width), edit);
      RangeShows(before, blocks, width, s, pos, len, edit);
      ShowsConsistent(blocks, width, RangeEdited(s, pos, len, edit));
    }

    method EditBlocks(fq: nat, fr: nat, lq: nat, lr: nat, edit: Edit)
      requires WellFormed(blocks, width) && fq <= lq < |blocks| && fr < width && lr < width && (fq == lq ==> fr <= lr)
      modifies `blocks
      ensures EditsRange(old(blocks), blocks, width, fq, fr, lq, lr, edit)
    {
      ghost var before := blocks;
      if fq == lq {
        blocks := blocks[fq := EditBits(blocks[fq], fr, lr, edit)];
        return;
      }
      var firstFull, lastFull := fq, lq;
      if fr != 0 {
        firstFull := firstFull + 1;
        blocks := blocks[fq := EditBits(blocks[fq], fr, width - 1, edit)];
      }
      if lr != width - 1 {
        lastFull := lastFull - 1;
        blocks := blocks[lq := EditBits(blocks[lq], 0, lr, edit)];
      }
      EditFullBlocks(firstFull, lastFull, edit);
      forall q | 0 <= q < |before|
        ensures blocks[q] == RangeBlock(before[q], q, fq, fr, lq, lr, edit)
      {
        FullEdit(before[q], edit);
      }
    }

    method EditFullBlocks(first: nat, last: int, edit: Edit)
      requires first <= last + 1 <= |blocks|
      modifies `blocks
      ensures |blocks| == |old(blocks)|
      ensures forall q :: 0 <= q < |blocks| ==>
                blocks[q] == if first <= q <= last then EditBlock(old(blocks)[q], edit) else old(blocks)[q]
    {
      ghost var before := blocks;
      var i := first;
      while i <= last
        invariant first <= i <= last + 1 && |blocks| == |before|
        invariant forall q :: 0 <= q < |before| ==>
                    blocks[q] == if first <= q < i then EditBlock(before[q], edit) else before[q]
      {
        blocks := blocks[i := EditBlock(blocks[i], edit)];
        i := i + 1;
      }
    }

    /** The whole-bitset forms of set and flip. */
    method EditAll(edit: Edit)
      requires Valid()
      modifies `blocks
      ensures Valid() && Contents() == RangeEdited(old(Contents()), 0, bits, edit)
    {
      ghost var s, before := Contents(), blocks;
      ConsistentShows(blocks, width, bits);
      EditFullBlocks(0, |blocks| - 1, edit);
      AllEdited(before, blocks, width, s, edit);
      Sanitize(RangeEdited(s, 0, |s|, edit));
    }

    method Reset()
      requires Valid()
      modifies `blocks
      ensures Valid() && Contents() == Fill(bits, false)
    {
      EditAll(SetTo(false));
    }

    // ---------- Shifts ----------

    method ShiftLeft(shift: nat)
      requires Valid()
      modifies `blocks
      ensures Valid() && Contents() == ShiftedLeft(old(Contents()), shift)
    {
      ghost var s, before := Contents(), blocks;
      if shift == 0 {
        assert ShiftedLeft(s, 0) == s;
      } else if shift >= bits {
        Reset();
        assert ShiftedLeft(s, shift) == Fill(bits, false);
      } else {
        ConsistentShows(blocks, width, bits);
        RequiredCovers(bits, width, shift);
        ApplyLeftShift(BlockIndex(shift, width), BitIndex(shift, width));
        LeftShows(before, blocks, width, shift, s);
        Sanitize(ShiftedLeft(s, shift));
      }
    }

    /** Blocks are moved from the top down, so that each is read before it is overwritten. */
    method ApplyLeftShift(s: nat, o: nat)
      requires WellFormed(blocks, width) && s < |blocks| && o < width && (s > 0 || o > 0)
      modifies `blocks
      ensures ShiftsLeft(old(blocks), blocks, width, s, o)
    {
      ghost var before := blocks;
      if o == 0 {
        MoveBlocksUp(s);
      } else {
        ShiftBlocksUp(s, o);
      }
      blocks := seq(s, k => Fill(width, false)) + blocks[s..];
      LeftWellFormed(before, blocks, width, s, o);
    }

    method MoveBlocksUp(s: nat)
      requires WellFormed(blocks, width) && 0 < s < |blocks|
      modifies `blocks
      ensures |blocks| == |old(blocks)|
      ensures forall k :: s <= k < |blocks| ==> blocks[k] == LeftBlock(old(blocks), width, s, 0, k)
    {
      ghost var before := blocks;
      var i := |blocks| - 1;
      while i >= s
        invariant s - 1 <= i < |blocks| == |before|
        invariant forall k :: 0 <= k <= i ==> blocks[k] == before[k]
        invariant forall k :: i < k < |before| ==> blocks[k] == LeftBlock(before, width, s, 0, k)
        decreases i
      {
        blocks := blocks[i := blocks[i - s]];
        i := i - 1;
      }
    }

    method ShiftBlocksUp(s: nat, o: nat)
      requires WellFormed(blocks, width) && s < |blocks| && 0 < o < width
      modifies `blocks
      ensures |blocks| == |old(blocks)|
      ensures forall k :: s <= k < |blocks| ==> blocks[k] == LeftBlock(old(blocks), width, s, o, k)
    {
      ghost var before := blocks;
      var i := |blocks| - 1;
      while i > s
        invariant s <= i < |blocks| == |before|
        invariant forall k :: 0 <= k <= i ==> blocks[k] == before[k]
        invariant forall k :: i < k < |before| ==> blocks[k] == LeftBlock(before, width, s, o, k)
        decreases i
      {
        blocks := blocks[i := BOr(Shl(blocks[i - s], o), Shr(blocks[i - s - 1], width - o))];
        i := i - 1;
      }
      blocks := blocks[s := Shl(blocks[0], o)];
    }

    method ShiftRight(shift: nat)
      requires Valid()
      modifies `blocks
      ensures Valid() && Contents() == ShiftedRight(old(Contents()), shift)
    {
      ghost var s, before := Contents(), blocks;
      if shift == 0 {
        assert ShiftedRight(s, 0) == s;
      } else if shift >= bits {
        Reset();
        assert ShiftedRight(s, shift) == Fill(bits, false);
      } else {
        ConsistentShows(blocks, width, bits);
        RequiredCovers(bits, width, shift);
        ApplyRightShift(BlockIndex(shift, width), BitIndex(shift, width));
        RightShows(before, blocks, width, shift, s);
        ShowsConsistent(blocks, width, ShiftedRight(s, shift));
      }
    }

    method ApplyRightShift(s: nat, o: nat)
      requires WellFormed(blocks, width) && s < |blocks| && o < width && (s > 0 || o > 0)
      modifies `blocks
      ensures ShiftsRight(old(blocks), blocks, width, s, o)
    {
      ghost var before := blocks;
      var lastToShift := |blocks| - s - 1;
      var i := 0;
      if o == 0 {
        while i <= lastToShift
          invariant 0 <= i <= lastToShift + 1 && |blocks| == |before|
          invariant forall k :: i <= k < |before| ==> blocks[k] == before[k]
          invariant forall k :: 0 <= k < i ==> blocks[k] == RightBlock(before, width, s, o, k)
        {
          blocks := blocks[i := blocks[i + s]];
          i := i + 1;
        }
      } else {
        while i < lastToShift
          invariant 0 <= i <= lastToShift && |blocks| == |before|
          invariant forall k :: i <= k < |before| ==> blocks[k] == before[k]
          invariant forall k :: 0 <= k < i ==> blocks[k] == RightBlock(before, width, s, o, k)
        {
          blocks := blocks[i := BOr(Shr(blocks[i + s], o), Shl(blocks[i + s + 1], width - o))];
          i := i + 1;
        }
        blocks := blocks[lastToShift := Shr(blocks[|blocks| - 1], o)];
      }
      blocks := blocks[..lastToShift + 1] + seq(s, k => Fill(width, false));
      RightWellFormed(before, blocks, width, s, o);
    }

    // ---------- Queries ----------

    method All() returns (r: bool)
      requires Valid()
      ensures r <==> forall p :: 0 <= p < bits ==> Contents()[p]
    {
      ghost var s := Contents();
      ConsistentShows(blocks, width, bits);
      var extra, n := ExtraBits(), |blocks|;
      var i := 0;
      while i < n && blocks[i] == FullBlock(width, bits, i)
        invariant 0 <= i <= n && forall k :: 0 <= k < i ==> blocks[k] == FullBlock(width, bits, k)
      {
        i := i + 1;
      }
      r := i == n;
      AllIffFull(blocks, width, s);
    }

    method Any() returns (r: bool)
      requires Valid()
      ensures r <==> exists p :: 0 <= p < bits && Contents()[p]
    {
      ghost var s := Contents();
      ConsistentShows(blocks, width, bits);
      var i := 0;
      while i < |blocks|
        invariant 0 <= i <= |blocks| && forall k :: 0 <= k < i ==> blocks[k] == Fill(width, false)
      {
        if blocks[i] != Fill(width, false) {
          ghost var r := SomeBit(blocks[i]);
          ghost var p := i * width + r;
          Position(p, i, r, width);
          assert At(blocks, width, p);
          return true;
        }
        i := i + 1;
      }
      ZerosShow(blocks, width, bits);
      forall p | 0 <= p < bits
        ensures !s[p]
      {
        assert At(blocks, width, p) == s[p];
      }
      return false;
    }

    method Count() returns (count: nat)
      requires Valid()
      ensures count == Ones(Contents())
    {
      if bits == 0 {
        return 0;
      }
      ghost var s := Contents();
      ConsistentShows(blocks, width, bits);
      var last := |blocks| - 1;
      count := 0;
      var i := 0;
      while i < last
        invariant 0 <= i <= last && count == Ones(Flat(blocks[..i]))
      {
        var c := BlockCount(blocks[i], width);
        assert blocks[i][..width] == blocks[i];
        FlatNext(blocks, i);
        OnesConcat(Flat(blocks[..i]), blocks[i]);
        count := count + c;
        i := i + 1;
      }
      if blocks[last] != Fill(width, false) {
        var extra := ExtraBits();
        var c := BlockCount(blocks[last], if extra == 0 then width else extra);
        count := count + c;
      }
      CountIs(blocks, width, s, count);
    }

    /** The first position set, or none. */
    method FindFirst() returns (r: int)
      requires Valid()
      ensures r == NextOn(Contents(), 0)
    {
      ConsistentShows(blocks, width, bits);
      r := FindFrom(0, 0);
    }

    /** The first set bit from a block on, given that no bit between `from` and that block is set. */
    method FindFrom(first: nat, ghost from: nat) returns (r: int)
      requires Valid() && ClearBetween(blocks, width, from, first)
      requires forall p: nat :: BlockIndex(p, width) >= first ==> p >= from
      ensures r == NextOn(Contents(), from)
    {
      ConsistentShows(blocks, width, bits);
      var i := first;
      while i < |blocks|
        invariant first <= i && ClearBetween(blocks, width, from, i)
      {
        if blocks[i] != Fill(width, false) {
          var f := FirstOn(blocks[i]);
          FoundIn(blocks, width, Contents(), from, i, f);
          return i * width + f;
        }
        i := i + 1;
      }
      NothingFound(blocks, width, Contents(), from, i);
      return NPOS;
    }

    method FindNext(prev: nat) returns (r: int)
      requires Valid()
      ensures r == NextOn(Contents(), prev + 1)
    {
      if bits == 0 || prev >= bits - 1 {
        return NPOS;
      }
      ghost var s := Contents();
      ConsistentShows(blocks, width, bits);
      var firstBit := prev + 1;
      RequiredCovers(bits, width, firstBit);
      var firstBlock, index := BlockIndex(firstBit, width), BitIndex(firstBit, width);
      var shifted := Shr(blocks[firstBlock], index);
      if shifted != Fill(width, false) {
        var f := FirstOn(shifted);
        r := firstBit + f;
        NextInBlock(blocks, width, s, firstBit, f);
      } else {
        forall p: nat | firstBit <= p && BlockIndex(p, width) < firstBlock + 1
          ensures !At(blocks, width, p)
        {
          Compare(firstBit, p, width);
          assert !shifted[BitIndex(p, width) - index];
        }
        forall p: nat | BlockIndex(p, width) >= firstBlock + 1
          ensures p >= firstBit
        {
          Compare(firstBit, p, width);
        }
        r := FindFrom(firstBlock + 1, firstBit);
      }
    }

    /** Visits the set positions; a callback that answers false ends the visit. */
    method IterateBitsOn(more: nat -> bool) returns (visited: seq<nat>)
      requires Valid()
      ensures visited == TakeThrough(OnPositions(Contents(), 0), more)
      ensures (forall p: nat :: p < bits && Contents()[p] ==> more(p)) ==> VisitsExactly(visited, Contents())
    {
      ghost var s := Contents();
      if forall p: nat :: p < |s| && s[p] ==> more(p) {
        VisitsAll(s, more);
      }
      visited := Visit(more);
    }

    method Visit(more: nat -> bool) returns (visited: seq<nat>)
      requires Valid()
      ensures visited == TakeThrough(OnPositions(Contents(), 0), more)
    {
      ghost var s := Contents();
      visited := [];
      var bit := FindFirst();
      OnPositionsNext(s, 0);
      ghost var all, rest := TakeThrough(OnPositions(s, 0), more), TakeThrough(Remaining(s, bit), more);
      while bit != NPOS
        invariant bit == NPOS || 0 <= bit < |s|
        invariant rest == TakeThrough(Remaining(s, bit), more) && all == visited + rest
        decreases if bit == NPOS then 0 else |s| - bit
      {
        ghost var next := VisitStep(s, bit, more, rest);
        MovePiece(all, visited, [bit], next, rest);
        visited := visited + [bit];
        if !more(bit) {
          return;
        }
        bit := FindNext(bit);
        rest := next;
      }
    }
  }

  /** No bit from a position up to a block is set. */
  ghost predicate ClearBetween(blocks: seq<Block>, width: nat, from: nat, i: nat)
    requires WellFormed(blocks, width)
  {
    forall p: nat :: from <= p && BlockIndex(p, width) < i ==> !At(blocks, width, p)
  }

  lemma {:induction false} FoundIn(blocks: seq<Block>, width: nat, s: seq<bool>, from: nat, i: nat, f: nat)
    requires Shows(blocks, width, s) && ClearBetween(blocks, width, from, i)
    requires i < |blocks| && f < width && blocks[i][f] && forall k :: 0 <= k < f ==> !blocks[i][k]
    requires forall p: nat :: BlockIndex(p, width) >= i ==> p >= from
    ensures NextOn(s, from) == i * width + f
  {
    var r := i * width + f;
    Position(r, i, f, width);
    assert At(blocks, width, r);
    forall k | from <= k < r
      ensures !s[k]
    {
      Compare(r, k, width);
      assert At(blocks, width, k) == (k < |s| && s[k]);
    }
    NextOnIs(s, from, r);
  }

  lemma {:induction false} NothingFound(blocks: seq<Block>, width: nat, s: seq<bool>, from: nat, i: nat)
    requires Shows(blocks, width, s) && ClearBetween(blocks, width, from, i)
    requires i >= |blocks| == BlocksRequired(|s|, width)
    ensures NextOn(s, from) == NPOS
  {
    forall k | from <= k < |s|
      ensures !s[k]
    {
      RequiredCovers(|s|, width, k);
      assert At(blocks, width, k) == s[k];
    }
    NextOnNone(s, from);
  }

  /** The positions still to be visited. */
  function Remaining(s: seq<bool>, bit: int): seq<nat>
    requires bit == NPOS || 0 <= bit
  {
    if bit == NPOS then [] else [bit] + OnPositions(s, bit + 1)
  }

  lemma {:induction false} VisitStep(s: seq<bool>, bit: nat, more: nat -> bool, rest: seq<nat>) returns (next: seq<nat>)
    requires rest == TakeThrough(Remaining(s, bit), more)
    ensures rest == [bit] + next
              && next == if more(bit) then TakeThrough(Remaining(s, NextOn(s, bit + 1)), more) else []
  {
    var tail := OnPositions(s, bit + 1);
    assert ([bit] + tail)[1..] == tail;
    OnPositionsNext(s, bit + 1);
    next := if more(bit) then TakeThrough(tail, more) else [];
  }

  /** The number of ones among the low bits of a block. */
  method BlockCount(block: Block, nbits: nat) returns (count: nat)
    requires nbits <= |block|
    ensures count == Ones(block[..nbits])
  {
    count := 0;
    var i := 0;
    while i < nbits
      invariant 0 <= i <= nbits && count == Ones(block[..i])
    {
      OnesNext(block, i);
      count := count + if block[i] then 1 else 0;
      i := i + 1;
    }
  }

  /** The lowest set bit of a block that is not zero. */
  method FirstOn(block: Block) returns (f: nat)
    requires block != Fill(|block|, false)
    ensures f < |block| && block[f] && forall k :: 0 <= k < f ==> !block[k]
  {
    ghost var some := SomeBit(block);
    f := 0;
    while !block[f]
      invariant 0 <= f <= some && forall k :: 0 <= k < f ==> !block[k]
      decreases some - f
    {
      f := f + 1;
    }
  }

  lemma {:induction false} NoBit(block: Block)
    requires forall k :: 0 <= k < |block| ==> !block[k]
    ensures block == Fill(|block|, false)
  {
  }

  lemma {:induction false} SomeBit(block: Block) returns (r: nat)
    requires block != Fill(|block|, false)
    ensures r < |block| && block[r]
  {
    if forall k :: 0 <= k < |block| ==> !block[k] {
      NoBit(block);
    }
    r :| 0 <= r < |block| && block[r];
  }

  lemma {:induction false} AllIffFull(blocks: seq<Block>, width: nat, s: seq<bool>)
    requires Shows(blocks, width, s) && |blocks| == BlocksRequired(|s|, width)
    ensures (forall i :: 0 <= i < |blocks| ==> blocks[i] == FullBlock(width, |s|, i)) <==>
              forall p :: 0 <= p < |s| ==> s[p]
  {
    var full := seq(|blocks|, i requires 0 <= i < |blocks| => FullBlock(width, |s|, i));
    FullShows(full, width, |s|);
    if forall p :: 0 <= p < |s| ==> s[p] {
      assert s == Fill(|s|, true);
      SameBlocks(blocks, full, width, s);
    }
    if forall i :: 0 <= i < |blocks| ==> blocks[i] == full[i] {
      assert blocks == full;
      forall p | 0 <= p < |s|
        ensures s[p]
      {
        assert At(blocks, width, p) == s[p];
      }
    }
  }

  /** Full blocks, and the used part of the last one. */
  lemma {:induction false} CountIs(blocks: seq<Block>, width: nat, s: seq<bool>, count: nat)
    requires Shows(blocks, width, s) && |blocks| == BlocksRequired(|s|, width) && blocks != []
    requires var last, extra := blocks[|blocks| - 1], BitIndex(|s|, width);
             count == Ones(Flat(blocks[..|blocks| - 1])) +
                      if last == Fill(width, false) then 0 else Ones(last[..if extra == 0 then width else extra])
    ensures count == Ones(s)
  {
    var n, extra := |blocks| - 1, BitIndex(|s|, width);
    var front, last := Flat(blocks[..n]), blocks[|blocks| - 1];
    var used := if extra == 0 then width else extra;
    FlatUsed(blocks, width, s);
    FlatLength(blocks[..n], width);
    assert Flat(blocks) == front + last;
    Compose(|s|, width);
    Total(n, 1, width);
    assert |front| + used == |s|;
    assert Flat(blocks)[..|s|] == s;
    assert (front + last)[..|front| + used] == front + last[..used];
    OnesConcat(front, last[..used]);
    OnesNone(used);
    assert Fill(width, false)[..used] == Fill(used, false);
  }

  lemma {:induction false} NextInBlock(blocks: seq<Block>, width: nat, s: seq<bool>, from: nat, f: nat)
    requires Shows(blocks, width, s) && from < |s| && BlockIndex(from, width) < |blocks|
    requires var shifted := Shr(blocks[BlockIndex(from, width)], BitIndex(from, width));
             f < width && shifted[f] && forall k :: 0 <= k < f ==> !shifted[k]
    ensures NextOn(s, from) == from + f
  {
    var q, r := BlockIndex(from, width), BitIndex(from, width);
    Compose(from, width);
    forall k | 0 <= k <= f
      ensures At(blocks, width, from + k) == blocks[q][r + k] == Shr(blocks[q], r)[k]
    {
      Position(from + k, q, r + k, width);
    }
    assert At(blocks, width, from + f);
    forall k | from <= k < from + f
      ensures !s[k]
    {
      var j := k - from;
      assert At(blocks, width, from + j) == Shr(blocks[q], r)[j];
    }
    NextOnIs(s, from, from + f);
  }

  lemma {:induction false} LeftWellFormed(before: seq<Block>, after: seq<Block>, width: nat, s: nat, o: nat)
    requires WellFormed(before, width) && |after| == |before| && o < width
    requires forall k :: 0 <= k < |before| ==> after[k] == LeftBlock(before, width, s, o, k)
    ensures WellFormed(after, width)
  {
    forall k | 0 <= k < |before|
      ensures |after[k]| == width
    {
      LeftBit(before, width, s, o, k, 0);
    }
  }

  lemma {:induction false} RightWellFormed(before: seq<Block>, after: seq<Block>, width: nat, s: nat, o: nat)
    requires WellFormed(before, width) && |after| == |before| && o < width
    requires forall k :: 0 <= k < |before| ==> after[k] == RightBlock(before, width, s, o, k)
    ensures WellFormed(after, width)
  {
    forall k | 0 <= k < |before|
      ensures |after[k]| == width
    {
      RightBitBelow(before, width, s, o, k, 0);
    }
  }

  /** The block with a single one. */
  function OneBit(r: nat, width: nat): Block
    requires r < width
  {
    Fill(width, false)[r := true]
  }

  lemma {:induction false} RequiredGrows(n: nat, m: nat, width: nat)
    requires width > 0 && n <= m
    ensures BlocksRequired(n, width) <= BlocksRequired(m, width)
  {
    Compare(n, m, width);
  }

  /** There is room for one more bit exactly when the last block is partly used. */
  lemma {:induction false} RoomLeft(n: nat, count: nat, width: nat)
    requires width > 0 && count == BlocksRequired(n, width)
    ensures n + 1 <= count * width <==> BitIndex(n, width) > 0
  {
    Compose(n, width);
    Total(BlockIndex(n, width), 1, width);
  }
}
