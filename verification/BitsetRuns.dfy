/** Whole runs of operations on one bitset follow the same run on a plain sequence of bits. */
module BitsetRuns {
  import opened BitBlocks
  import opened BitsetValues
  import opened BitsetEdits
  import opened DynamicBitset

  datatype Op =
    | Resize(nbits: nat, value: bool)
    | PushBack(value: bool)
    | PopBack
    | Clear
    | AppendBlock(block: Block)
    | AppendBlocks(items: seq<Block>)
    | EditOne(pos: nat, edit: Edit)
    | EditRange(pos: nat, len: nat, edit: Edit)
    | EditAll(edit: Edit)
    | Combine(other: seq<bool>, operator: Operator)
    | ShiftLeft(shift: nat)
    | ShiftRight(shift: nat)

  /** What the operation asserts of its arguments. */
  predicate Applicable(op: Op, s: seq<bool>, width: nat) {
    match op
    case AppendBlock(block) => |block| == width
    case AppendBlocks(items) => forall i :: 0 <= i < |items| ==> |items[i]| == width
    case EditOne(pos, _) => pos < |s|
    case Combine(other, _) => |other| == |s|
    case EditRange(pos, len, _) => pos < |s| && 0 < pos + len <= |s|
    case _ => true
  }

  function Apply(op: Op, s: seq<bool>): seq<bool> {
    match op
    case Resize(nbits, value) => Resized(s, nbits, value)
    case PushBack(value) => s + [value]
    case PopBack => if s == [] then [] else s[..|s| - 1]
    case Clear => []
    case AppendBlock(block) => s + block
    case AppendBlocks(items) => s + Flat(items)
    case EditOne(pos, edit) => if pos < |s| then s[pos := Edited(s[pos], edit)] else s
    case Combine(other, operator) => if |other| == |s| then Combined(s, other, operator) else s
    case EditRange(pos, len, edit) => RangeEdited(s, pos, len, edit)
    case EditAll(edit) => RangeEdited(s, 0, |s|, edit)
    case ShiftLeft(shift) => ShiftedLeft(s, shift)
    case ShiftRight(shift) => ShiftedRight(s, shift)
  }

  function ApplyAll(ops: seq<Op>, s: seq<bool>): seq<bool> {
    if ops == [] then s else Apply(ops[|ops| - 1], ApplyAll(ops[..|ops| - 1], s))
  }

  /** Every operation finds its arguments in order. */
  predicate AllApplicable(ops: seq<Op>, s: seq<bool>, width: nat) {
    ops == [] || (AllApplicable(ops[..|ops| - 1], s, width) &&
                  Applicable(ops[|ops| - 1], ApplyAll(ops[..|ops| - 1], s), width))
  }

  lemma {:induction false} PrefixApplicable(ops: seq<Op>, s: seq<bool>, width: nat, i: nat)
    requires AllApplicable(ops, s, width) && i < |ops|
    ensures AllApplicable(ops[..i], s, width) && Applicable(ops[i], ApplyAll(ops[..i], s), width)
    ensures ApplyAll(ops[..i + 1], s) == Apply(ops[i], ApplyAll(ops[..i], s))
  {
    assert ops[..i + 1][..i] == ops[..i];
    if i < |ops| - 1 {
      PrefixApplicable(ops[..|ops| - 1], s, width, i);
      assert ops[..|ops| - 1][..i] == ops[..i];
    }
  }

  /** Another bitset, to combine with. */
  method Operand(width: nat, items: seq<bool>) returns (b: Bitset)
    requires width > 0
    ensures fresh(b) && b.Valid() && b.width == width && b.Contents() == items
  {
    b := new Bitset(width);
    var i := 0;
    while i < |items|
      invariant 0 <= i <= |items| && fresh(b) && b.Valid() && b.width == width && b.Contents() == items[..i]
    {
      b.PushBack(items[i]);
      i := i + 1;
    }
    assert items[..i] == items;
  }

  method Perform(b: Bitset, op: Op)
    requires b.Valid() && Applicable(op, b.Contents(), b.width)
    modifies b
    ensures b.Valid() && b.Contents() == Apply(op, old(b.Contents()))
  {
    match op {
      case Resize(nbits, value) => b.Resize(nbits, value);
      case PushBack(value) => b.PushBack(value);
      case PopBack => b.PopBack();
      case Clear => b.Clear();
      case AppendBlock(block) => b.AppendBlock(block);
      case AppendBlocks(items) => b.AppendBlocks(items);
      case EditOne(pos, edit) => b.EditOne(pos, edit);
      case Combine(other, operator) =>
        var rhs := Operand(b.width, other);
        b.Combine(rhs, operator);
      case EditRange(pos, len, edit) => b.EditRange(pos, len, edit);
      case EditAll(edit) => b.EditAll(edit);
      case ShiftLeft(shift) => b.ShiftLeft(shift);
      case ShiftRight(shift) => b.ShiftRight(shift);
    }
  }

  /** The consistency check holds after every operation of every run. */
  method Run(b: Bitset, ops: seq<Op>)
    requires b.Valid() && AllApplicable(ops, b.Contents(), b.width)
    modifies b
    ensures b.Valid() && b.Contents() == ApplyAll(ops, old(b.Contents()))
  {
    ghost var s := b.Contents();
    var i := 0;
    while i < |ops|
      invariant 0 <= i <= |ops| && b.Valid() && b.Contents() == ApplyAll(ops[..i], s)
    {
      PrefixApplicable(ops, s, b.width, i);
      Perform(b, ops[i]);
      i := i + 1;
    }
    assert ops[..i] == ops;
  }
}
