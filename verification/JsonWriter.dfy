/** What the compact JSON writer produces, as a function, and the writer itself. */
module JsonWriter {
  import opened JsonStrings
  import opened JsonStringCode
  import opened JsonNumbers
  import opened JsonValues
  import opened Sequences

  /** The writer's switches, and how the C library prints the double read from a text. */
  datatype Style = Style(yaml: bool, dropNull: bool, omitLineFeed: bool, doubleText: Bytes -> Bytes)

  const NULL_TEXT: Bytes := [0x6E, 0x75, 0x6C, 0x6C]
  const TRUE_TEXT: Bytes := [0x74, 0x72, 0x75, 0x65]
  const FALSE_TEXT: Bytes := [0x66, 0x61, 0x6C, 0x73, 0x65]

  function Separator(w: Style): Bytes { if w.yaml then [0x3A, 0x20] else [0x3A] }

  function Write(v: Value, w: Style): Bytes {
    match v
    case Null => if w.dropNull then [] else NULL_TEXT
    case Bool(b) => if b then TRUE_TEXT else FALSE_TEXT
    case Int(i) => IntText(i as int)
    case UInt(u) => Decimal(u as nat)
    case Real(text) => w.doubleText(text)
    case Str(s) => Quoted(s, false)
    case Arr(items) => [0x5B] + WriteItems(items, w) + [0x5D]
    case Obj(members) => [0x7B] + WriteMembers(members, w) + [0x7D]
  }

  function WriteItems(items: seq<Value>, w: Style): Bytes {
    if items == [] then [] else Write(items[0], w) + WriteMoreItems(items[1..], w)
  }

  /** Elements that each follow a comma. */
  function WriteMoreItems(items: seq<Value>, w: Style): Bytes {
    if items == [] then [] else [0x2C] + Write(items[0], w) + WriteMoreItems(items[1..], w)
  }

  function WriteMember(m: Member, w: Style): Bytes {
    Quoted(m.key, false) + Separator(w) + Write(m.value, w)
  }

  function WriteMembers(ms: seq<Member>, w: Style): Bytes {
    if ms == [] then [] else WriteMember(ms[0], w) + WriteMoreMembers(ms[1..], w)
  }

  /** Members that each follow a comma. */
  function WriteMoreMembers(ms: seq<Member>, w: Style): Bytes {
    if ms == [] then [] else [0x2C] + WriteMember(ms[0], w) + WriteMoreMembers(ms[1..], w)
  }

  function LineEnd(w: Style): Bytes { if w.omitLineFeed then [] else [0x0A] }

  function Document(v: Value, w: Style): Bytes { Write(v, w) + LineEnd(w) }

  /** The writer appends to its document while it walks the tree. */
  class FastWriter {
    const style: Style
    var document: Bytes

    constructor (style: Style)
      ensures this.style == style && document == []
    {
      this.style := style;
      document := [];
    }

    method WriteValue(v: Value)
      modifies this
      ensures document == old(document) + Write(v, style)
      decreases v, 1
    {
      match v
      case Null =>
        if !style.dropNull {
          document := document + NULL_TEXT;
        }
      case Bool(b) =>
        document := document + (if b then TRUE_TEXT else FALSE_TEXT);
      case Int(i) =>
        var text := ValueToString(i);
        document := document + text;
      case UInt(u) =>
        var text := UnsignedValueToString(u);
        document := document + text;
      case Real(text) =>
        document := document + style.doubleText(text);
      case Str(s) =>
        var text := ValueToQuotedString(s, false);
        document := document + text;
      case Arr(items) =>
        WriteArray(v);
      case Obj(members) =>
        WriteObject(v);
    }

    method WriteArray(v: Value)
      requires v.Arr?
      modifies this
      ensures document == old(document) + ([0x5B] + WriteItems(v.items, style) + [0x5D])
      decreases v, 0
    {
      var items := v.items;
      ghost var before := document;
      ghost var whole := before + ([0x5B] + WriteItems(items, style));
      document := document + [0x5B];
      Associate(before, [0x5B], WriteItems(items, style));
      for index := 0 to |items|
        invariant document + PendingItems(items, index, style) == whole
      {
        PendingItemsStep(items, index, style);
        ghost var pending, next := PendingItems(items, index, style), PendingItems(items, index + 1, style);
        ghost var start := document;
        if index > 0 {
          document := document + [0x2C];
        }
        WriteValue(items[index]);
        Associate(start, [0x2C], Write(items[index], style));
        MovePiece(whole, start, ItemPiece(items, index, style), next, pending);
      }
      document := document + [0x5D];
      Associate(before, [0x5B] + WriteItems(items, style), [0x5D]);
    }

    method WriteObject(v: Value)
      requires v.Obj?
      modifies this
      ensures document == old(document) + ([0x7B] + WriteMembers(v.members, style) + [0x7D])
      decreases v, 0
    {
      var ms := v.members;
      ghost var before := document;
      ghost var whole := before + ([0x7B] + WriteMembers(ms, style));
      document := document + [0x7B];
      Associate(before, [0x7B], WriteMembers(ms, style));
      for index := 0 to |ms|
        invariant document + PendingMembers(ms, index, style) == whole
      {
        PendingMembersStep(ms, index, style);
        ghost var pending, next := PendingMembers(ms, index, style), PendingMembers(ms, index + 1, style);
        ghost var start := document;
        if index > 0 {
          document := document + [0x2C];
        }
        ghost var afterComma := document;
        var name := ValueToQuotedString(ms[index].key, false);
        document := document + name;
        document := document + Separator(style);
        WriteValue(ms[index].value);
        AppendThree(afterComma, name, Separator(style), Write(ms[index].value, style));
        Associate(start, [0x2C], WriteMember(ms[index], style));
        MovePiece(whole, start, MemberPiece(ms, index, style), next, pending);
      }
      document := document + [0x7D];
      Associate(before, [0x7B] + WriteMembers(ms, style), [0x7D]);
    }

    /** Writes a whole document, replacing what was written before. */
    method WriteDocument(root: Value) returns (text: Bytes)
      modifies this
      ensures text == document == Document(root, style)
    {
      document := [];
      WriteValue(root);
      if !style.omitLineFeed {
        document := document + [0x0A];
      }
      text := document;
    }
  }

  lemma {:induction false} AppendThree(a: Bytes, b: Bytes, c: Bytes, d: Bytes)
    ensures a + b + c + d == a + (b + c + d)
  {
  }

  /** What is left to write of an array when `index` elements are out. */
  function PendingItems(items: seq<Value>, index: nat, w: Style): Bytes
    requires index <= |items|
  {
    if index == 0 then WriteItems(items, w) else WriteMoreItems(items[index..], w)
  }

  function ItemPiece(items: seq<Value>, index: nat, w: Style): Bytes
    requires index < |items|
  {
    if index == 0 then Write(items[index], w) else [0x2C] + Write(items[index], w)
  }

  lemma {:induction false} PendingItemsStep(items: seq<Value>, index: nat, w: Style)
    requires index < |items|
    ensures PendingItems(items, index, w) == ItemPiece(items, index, w) + PendingItems(items, index + 1, w)
  {
    DropDrop(items, index, 1);
  }

  function PendingMembers(ms: seq<Member>, index: nat, w: Style): Bytes
    requires index <= |ms|
  {
    if index == 0 then WriteMembers(ms, w) else WriteMoreMembers(ms[index..], w)
  }

  function MemberPiece(ms: seq<Member>, index: nat, w: Style): Bytes
    requires index < |ms|
  {
    if index == 0 then WriteMember(ms[index], w) else [0x2C] + WriteMember(ms[index], w)
  }

  lemma {:induction false} PendingMembersStep(ms: seq<Member>, index: nat, w: Style)
    requires index < |ms|
    ensures PendingMembers(ms, index, w) == MemberPiece(ms, index, w) + PendingMembers(ms, index + 1, w)
  {
    DropDrop(ms, index, 1);
  }
}
