/** A flat list of INI sections rewritten as nested open and close events. */
module IniSections {
  import opened Sequences

  type Path = seq<string>

  datatype Item = Item(parents: Path, name: string, inputs: seq<string>)

  const OPEN: string := "++"
  const CLOSE: string := "--"

  // ---------- Section names ----------

  function ToLower(s: string): string {
    seq(|s|, i requires 0 <= i < |s| => if 'A' <= s[i] <= 'Z' then (s[i] as int + 32) as char else s[i])
  }

  predicate IsDefault(section: string) { ToLower(section) == "default" }

  /** Pieces between the dots; a dot at the very end adds no empty piece. */
  function Pieces(s: string, piece: string): seq<string>
    decreases |s|
  {
    if s == [] then if piece == [] then [] else [piece]
    else if s[0] == '.' then [piece] + Pieces(s[1..], [])
    else Pieces(s[1..], piece + [s[0]])
  }

  function Split(s: string): (r: seq<string>)
    ensures r != []
  {
    if s == [] then [[]]
    else
      PiecesSome(s, []);
      Pieces(s, [])
  }

  lemma {:induction false} PiecesSome(s: string, piece: string)
    requires s != [] || piece != []
    ensures Pieces(s, piece) != []
    decreases |s|
  {
    if s != [] && s[0] != '.' {
      PiecesSome(s[1..], piece + [s[0]]);
    }
  }

  function RemoveQuotes(s: string): string {
    if |s| > 1 && (s[0] == '"' || s[0] == '\'') && s[0] == s[|s| - 1] then s[1..|s| - 1] else s
  }

  function Unquoted(p: Path): (r: Path)
    ensures |r| == |p|
  {
    seq(|p|, i requires 0 <= i < |p| => RemoveQuotes(p[i]))
  }

  /** The path of a section: none for the default section, otherwise at least one segment. */
  function Segments(section: string): (p: Path)
    ensures p == [] <==> IsDefault(section)
  {
    if IsDefault(section) then []
    else if '.' in section then Unquoted(Split(section))
    else [RemoveQuotes(section)]
  }

  // ---------- Bracketing ----------

  /** What is open after a list of events, or that the brackets do not match. */
  datatype State = Broken | At(path: Path)

  function Front(p: Path): Path
    requires p != []
  {
    p[..|p| - 1]
  }

  /** An open goes one deeper, a close leaves exactly what is open, an entry sits in or below what is open. */
  function Next(st: State, item: Item): State {
    if st.Broken? then Broken
    else if item.name == OPEN then
      if item.parents != [] && Front(item.parents) == st.path then At(item.parents) else Broken
    else if item.name == CLOSE then
      if item.parents != [] && item.parents == st.path then At(Front(item.parents)) else Broken
    else if st.path <= item.parents then st
    else Broken
  }

  function Run(items: seq<Item>): State {
    if items == [] then At([]) else Next(Run(items[..|items| - 1]), items[|items| - 1])
  }

  lemma {:induction false} RunLast(items: seq<Item>, item: Item)
    ensures Run(items + [item]) == Next(Run(items), item)
  {
    assert (items + [item])[..|items|] == items;
  }

  lemma {:induction false} RunPop(items: seq<Item>)
    requires items != [] && items[|items| - 1].name == CLOSE && !Run(items).Broken?
    ensures Run(items[..|items| - 1]) == At(items[|items| - 1].parents)
    ensures items[|items| - 1].parents != [] && Run(items) == At(Front(items[|items| - 1].parents))
  {
  }

  // ---------- Entries ----------

  /** One input of an entry, with the path and the name it belongs to. */
  datatype Value = Value(parents: Path, name: string, input: string)

  /** A value, and what is open where it stands. */
  datatype Placed = Placed(open: State, value: Value)

  function ItemValues(item: Item): seq<Value> {
    if item.name == OPEN || item.name == CLOSE then []
    else seq(|item.inputs|, i requires 0 <= i < |item.inputs| => Value(item.parents, item.name, item.inputs[i]))
  }

  function PlacedIn(open: State, values: seq<Value>): seq<Placed> {
    seq(|values|, i requires 0 <= i < |values| => Placed(open, values[i]))
  }

  /** Every input of every entry, with what the events before it leave open. */
  function Contents(items: seq<Item>): seq<Placed> {
    if items == [] then []
    else
      var front, last := items[..|items| - 1], items[|items| - 1];
      Contents(front) + PlacedIn(Run(front), ItemValues(last))
  }

  /** The values alone. */
  function Bare(placed: seq<Placed>): seq<Value> {
    seq(|placed|, i requires 0 <= i < |placed| => placed[i].value)
  }

  lemma {:induction false} ContentsLast(items: seq<Item>, item: Item)
    ensures Contents(items + [item]) == Contents(items) + PlacedIn(Run(items), ItemValues(item))
  {
    assert (items + [item])[..|items|] == items;
  }

  lemma {:induction false} ContentsEvent(items: seq<Item>, item: Item)
    requires item.name == OPEN || item.name == CLOSE
    ensures Contents(items + [item]) == Contents(items)
  {
    ContentsLast(items, item);
  }

  lemma {:induction false} BareAdd(placed: seq<Placed>, open: State, values: seq<Value>)
    ensures Bare(placed + PlacedIn(open, values)) == Bare(placed) + values
  {
  }

  /** What ends in an open is still there, event by event. */
  predicate StillThere(before: seq<Item>, after: seq<Item>) {
    forall i :: 0 <= i < |before| && before[i].name == OPEN ==> i < |after| && after[..i + 1] == before[..i + 1]
  }

  /** Whether an item would have to be merged with the one in front of it. */
  predicate Repeats(before: Item, item: Item) {
    item.name != OPEN && item.name != CLOSE && item.name == before.name && item.parents == before.parents
  }

  /** Equal keys in a row are one entry. */
  predicate Merged(items: seq<Item>) {
    forall k :: 0 <= k < |items| - 1 ==> !Repeats(items[k], items[k + 1])
  }

  predicate Keeps(before: seq<Item>, after: seq<Item>) {
    StillThere(before, after) && (Merged(before) ==> Merged(after))
  }

  lemma {:induction false} KeepsItself(items: seq<Item>)
    ensures Keeps(items, items)
  {
  }

  lemma {:induction false} MergedMore(items: seq<Item>, item: Item)
    requires Merged(items) && (items == [] || !Repeats(Last(items), item))
    ensures Merged(items + [item])
  {
  }

  lemma {:induction false} KeepsMore(before: seq<Item>, after: seq<Item>, item: Item)
    requires Keeps(before, after) && (after == [] || !Repeats(Last(after), item))
    ensures Keeps(before, after + [item])
  {
    if Merged(before) {
      MergedMore(after, item);
    }
    var all := after + [item];
    forall i | 0 <= i < |before| && before[i].name == OPEN
      ensures i < |all| && all[..i + 1] == before[..i + 1]
    {
      assert all[..i + 1] == after[..i + 1];
    }
  }

  /** The last item, if it is no open, can go or be replaced by one of its name. */
  lemma {:induction false} KeepsLast(before: seq<Item>, after: seq<Item>, last: seq<Item>)
    requires Keeps(before, after) && after != [] && Last(after).name != OPEN
    requires last == [] || (last == [last[0]] && last[0] == Last(after).(inputs := last[0].inputs))
    ensures Keeps(before, after[..|after| - 1] + last)
  {
    var front := after[..|after| - 1];
    if Merged(before) {
      MergedLast(after, last);
    }
    forall i | 0 <= i < |before| && before[i].name == OPEN
      ensures i < |front + last| && (front + last)[..i + 1] == before[..i + 1]
    {
      assert after[i] == after[..i + 1][i] == before[..i + 1][i] == before[i];
      assert (front + last)[..i + 1] == after[..i + 1];
    }
  }

  lemma {:induction false} MergedLast(items: seq<Item>, last: seq<Item>)
    requires Merged(items) && items != []
    requires last == [] || (last == [last[0]] && last[0] == Last(items).(inputs := last[0].inputs))
    ensures Merged(items[..|items| - 1] + last)
  {
    var changed := items[..|items| - 1] + last;
    forall k | 0 <= k < |changed| - 1
      ensures !Repeats(changed[k], changed[k + 1])
    {
      assert changed[k] == items[k] && !Repeats(items[k], items[k + 1]);
    }
  }

  lemma {:induction false} KeepsOn(a: seq<Item>, b: seq<Item>, c: seq<Item>)
    requires Keeps(a, b) && Keeps(b, c)
    ensures Keeps(a, c)
  {
    forall i | 0 <= i < |a| && a[i].name == OPEN
      ensures i < |c| && c[..i + 1] == a[..i + 1]
    {
      assert b[i] == b[..i + 1][i] == a[..i + 1][i] == a[i];
    }
  }

  // ---------- Closing and opening ----------

  /** The last event closes something, and the brackets match up to it. */
  ghost predicate Closing(output: seq<Item>) {
    output != [] && Last(output).name == CLOSE && !Run(output).Broken?
  }

  function Last(output: seq<Item>): Item
    requires output != []
  {
    output[|output| - 1]
  }

  /** Something before the last event does not match, so whatever happens to the last one is too late. */
  ghost predicate BrokenBefore(output: seq<Item>) {
    output != [] && Run(output[..|output| - 1]).Broken?
  }

  lemma {:induction false} BrokenStays(output: seq<Item>, item: Item)
    requires Run(output).Broken?
    ensures BrokenBefore(output + [item]) && Run(output + [item]).Broken?
  {
    RunLast(output, item);
    assert (output + [item])[..|output|] == output;
  }

  /** More closes, and nothing else new. */
  ghost predicate ClosesOn(output: seq<Item>, r: seq<Item>) {
    && r != [] && Last(r).name == CLOSE && Contents(r) == Contents(output) && Keeps(output, r)
    && (Closing(output) ==> Closing(r)) && (BrokenBefore(output) ==> BrokenBefore(r))
  }

  /** Repeats the last close for ever shorter paths, down to `n` segments. */
  method CloseDown(output: seq<Item>, n: nat) returns (r: seq<Item>)
    requires output != [] && Last(output).name == CLOSE && n > 0
    ensures ClosesOn(output, r)
    ensures Last(r).parents == Last(output).parents[..if n < |Last(output).parents| then n else |Last(output).parents|]
  {
    r := output;
    ghost var p, k := Last(output).parents, |Last(output).parents|;
    KeepsItself(output);
    assert p[..k] == p;
    while |Last(r).parents| > n
      invariant ClosesOn(output, r)
      invariant k <= |p| && Last(r).parents == p[..k] && k >= (if n < |p| then n else |p|)
      decreases k
    {
      var item := Last(r);
      var shorter := item.(parents := item.parents[..|item.parents| - 1]);
      k := k - 1;
      assert p[..k + 1][..k] == p[..k];
      CloseAgain(output, r, shorter);
      r := r + [shorter];
    }
  }

  lemma {:induction false} CloseAgain(output: seq<Item>, r: seq<Item>, shorter: Item)
    requires ClosesOn(output, r) && |Last(r).parents| > 1
    requires shorter == Last(r).(parents := Front(Last(r).parents))
    ensures ClosesOn(output, r + [shorter]) && Last(r + [shorter]) == shorter
  {
    RunLast(r, shorter);
    ContentsEvent(r, shorter);
    KeepsMore(output, r, shorter);
    if Closing(r) {
      RunPop(r);
    }
    if BrokenBefore(r) {
      BrokenStays(r, shorter);
    }
  }

  /** Opens the prefixes of a path from `from` segments on, all but the whole path. */
  method OpenUp(output: seq<Item>, path: Path, from: nat) returns (r: seq<Item>)
    requires path != [] && from < |path|
    ensures Opens(output, r, path, from, |path| - 1)
  {
    r := output;
    var i := from;
    KeepsItself(output);
    while i < |path| - 1
      invariant from <= i <= |path| - 1 && Opens(output, r, path, from, i)
    {
      var item := Item(path[..i + 1], OPEN, []);
      OpenStep(output, r, path, from, i, item);
      r := r + [item];
      i := i + 1;
    }
  }

  /** The opens of the prefixes from `from` to `i` segments, which match only what is open before them. */
  ghost predicate Opens(output: seq<Item>, r: seq<Item>, path: Path, from: nat, i: nat)
    requires from <= i <= |path|
  {
    && Run(r) == (if i == from then Run(output) else if Run(output) == At(path[..from]) then At(path[..i]) else Broken)
    && Contents(r) == Contents(output) && Keeps(output, r)
  }

  lemma {:induction false} OpenStep(output: seq<Item>, r: seq<Item>, path: Path, from: nat, i: nat, item: Item)
    requires from <= i < |path| && Opens(output, r, path, from, i) && item == Item(path[..i + 1], OPEN, [])
    ensures Opens(output, r + [item], path, from, i + 1)
  {
    RunLast(r, item);
    ContentsEvent(r, item);
    KeepsMore(output, r, item);
    assert Front(path[..i + 1]) == path[..i];
  }

  method CommonPrefix(a: Path, b: Path, n: nat) returns (common: nat)
    requires n <= |a| && n <= |b|
    ensures common <= n && a[..common] == b[..common] && (common < n ==> a[common] != b[common])
  {
    common := 0;
    while common < n && a[common] == b[common]
      invariant 0 <= common <= n && a[..common] == b[..common]
    {
      assert a[..common + 1] == a[..common] + [a[common]] && b[..common + 1] == b[..common] + [b[common]];
      common := common + 1;
    }
  }

  /** The part of a header after a close: shut what the new section does not share, open the rest. */
  method Reuse(output: seq<Item>, parents: Path) returns (r: seq<Item>)
    requires output != [] && Last(output).name == CLOSE && |parents| > 1
    ensures Closing(output) ==> Run(r) == At(Front(parents))
    ensures BrokenBefore(output) ==> Run(r).Broken?
    ensures Contents(r) == Contents(output) && Keeps(output, r)
  {
    r := CloseDown(output, |parents| - 1);
    var mpair := |Last(r).parents|;
    var common := CommonPrefix(Last(r).parents, parents, mpair);
    if common == mpair {
      PopClose(r);
      KeepsLast(output, r, []);
      assert r[..|r| - 1] + [] == r[..|r| - 1];
      r := r[..|r| - 1];
      assert Closing(output) ==> Run(r) == At(parents[..common]);
    } else {
      ghost var before, closed := Last(r).parents, r;
      r := CloseDown(r, common + 1);
      ClosedTo(r, before, parents, common);
      KeepsOn(output, closed, r);
    }
    ghost var shared := r;
    r := OpenUp(r, parents, common);
    KeepsOn(output, shared, r);
  }

  /** A close that is taken back leaves its path open. */
  lemma {:induction false} PopClose(r: seq<Item>)
    requires r != [] && Last(r).name == CLOSE
    ensures Closing(r) ==> Run(r[..|r| - 1]) == At(Last(r).parents)
    ensures BrokenBefore(r) ==> Run(r[..|r| - 1]).Broken?
    ensures Contents(r[..|r| - 1]) == Contents(r)
  {
    if Closing(r) {
      RunPop(r);
    }
    assert ItemValues(Last(r)) == [];
  }

  lemma {:induction false} ClosedTo(r: seq<Item>, before: Path, parents: Path, common: nat)
    requires r != [] && Last(r).name == CLOSE && common < |before| && common < |parents|
    requires Last(r).parents == before[..if common + 1 < |before| then common + 1 else |before|]
    requires before[..common] == parents[..common]
    ensures Closing(r) ==> Run(r) == At(parents[..common])
    ensures BrokenBefore(r) ==> Run(r).Broken?
  {
    assert Last(r).parents == before[..common + 1];
    if Closing(r) {
      RunPop(r);
      assert Front(before[..common + 1]) == before[..common];
    }
  }

  /** The events in front of a new section that is not the default one. */
  method CheckParentSegments(output: seq<Item>, section: string) returns (r: seq<Item>)
    requires !IsDefault(section)
    ensures Closing(output) || Run(output) == At([]) ==> Run(r) == At(Segments(section))
    ensures output != [] && Last(output).name == CLOSE && BrokenBefore(output) ==> Run(r).Broken?
    ensures (output == [] || Last(output).name != CLOSE) && Run(output) != At([]) ==> Run(r).Broken?
    ensures Contents(r) == Contents(output)
    ensures r != [] && Last(r) == Item(Segments(section), OPEN, []) && Keeps(output, r[..|r| - 1])
  {
    var parents := Segments(section);
    var outer := OpenParents(output, parents);
    var item := Item(parents, OPEN, []);
    RunLast(outer, item);
    ContentsEvent(outer, item);
    r := outer + [item];
    assert r[..|r| - 1] == outer;
  }

  /** The part of it that opens all but the last segment. */
  method OpenParents(output: seq<Item>, parents: Path) returns (r: seq<Item>)
    requires parents != []
    ensures Closing(output) || Run(output) == At([]) ==> Run(r) == At(Front(parents))
    ensures output != [] && Last(output).name == CLOSE && BrokenBefore(output) ==> Run(r).Broken?
    ensures (output == [] || Last(output).name != CLOSE) && Run(output) != At([]) ==> Run(r) != At(Front(parents))
    ensures Contents(r) == Contents(output) && Keeps(output, r)
  {
    r := output;
    assert |parents| == 1 ==> Front(parents) == [];
    if output != [] && Last(output).name == CLOSE {
      if |parents| > 1 {
        r := Reuse(output, parents);
      } else {
        r := CloseDown(output, 1);
        ClosedAll(r);
      }
    } else if |parents| > 1 {
      assert parents[..0] == [];
      r := OpenUp(output, parents, 0);
    } else {
      KeepsItself(output);
    }
  }

  lemma {:induction false} ClosedAll(r: seq<Item>)
    requires r != [] && Last(r).name == CLOSE && |Last(r).parents| <= 1
    ensures Closing(r) ==> Run(r) == At([])
    ensures BrokenBefore(r) ==> Run(r).Broken?
  {
    if Closing(r) {
      RunPop(r);
    }
  }

  // ---------- Lines ----------

  datatype Entry = Entry(name: string, inputs: seq<string>)

  /** The comment character, and how a line that is neither header nor comment is read. */
  datatype Format = Format(comment: char, entry: string -> Entry)

  datatype Line = Header(section: string) | Key(entry: Entry) | Ignored

  predicate Bracketed(s: string) { |s| > 1 && s[0] == '[' && s[|s| - 1] == ']' }

  function Inner(s: string): string
    requires Bracketed(s)
  {
    s[1..|s| - 1]
  }

  /** What a trimmed line is; a header may have double brackets. */
  function Classify(f: Format, line: string): Line {
    if Bracketed(line) then Header(if Bracketed(Inner(line)) then Inner(Inner(line)) else Inner(line))
    else if line == [] || line[0] == ';' || line[0] == '#' || line[0] == f.comment then Ignored
    else Key(f.entry(line))
  }

  /** The path and the name in a key with dots. */
  function KeyParents(name: string): Path {
    if '.' in name then Unquoted(Front(Split(name))) else []
  }

  function KeyName(name: string): string {
    if '.' in name then RemoveQuotes(Split(name)[|Split(name)| - 1]) else RemoveQuotes(name)
  }

  /** No key is called like an event. */
  predicate Plain(f: Format, lines: seq<string>) {
    forall i :: 0 <= i < |lines| ==>
      var line := Classify(f, lines[i]);
      line.Key? ==> KeyName(line.entry.name) != OPEN && KeyName(line.entry.name) != CLOSE
  }

  // ---------- Which files nest ----------

  /** Where the reader is: in a section whose path is open, or in the default one with a remainder open. */
  datatype Place = Inside(path: Path) | Default(remainder: Path)

  function Enter(place: Place, section: string): Place {
    if !IsDefault(section) then Inside(Segments(section))
    else if place.Inside? && place.path != [] then Default(Front(place.path))
    else Default(if place.Inside? then [] else place.remainder)
  }

  /** Nothing but another section may follow a return to the default section from two or more segments deep. */
  predicate Settled(place: Place) { place.Default? ==> place.remainder == [] }

  /** Where the lines lead, from the default section. */
  function PlaceAfter(f: Format, lines: seq<string>): Place {
    if lines == [] then Default([])
    else
      var before, line := PlaceAfter(f, lines[..|lines| - 1]), Classify(f, lines[|lines| - 1]);
      if line.Header? then Enter(before, line.section) else before
  }

  /** Every key line finds the place settled. */
  predicate KeysSettled(f: Format, lines: seq<string>) {
    lines == [] ||
    (var front, line := lines[..|lines| - 1], Classify(f, lines[|lines| - 1]);
     KeysSettled(f, front) && (line.Key? ==> Settled(PlaceAfter(f, front))))
  }

  /** The files whose events nest. */
  predicate Safe(f: Format, lines: seq<string>) { KeysSettled(f, lines) && Settled(PlaceAfter(f, lines)) }

  function PathOf(place: Place): Path { if place.Inside? then place.path else [] }

  function EntryValues(path: Path, e: Entry): seq<Value> {
    ItemValues(Item(path + KeyParents(e.name), KeyName(e.name), e.inputs))
  }

  /** Every input of every key, while exactly the path of its section is open. */
  function LineContents(f: Format, lines: seq<string>): seq<Placed> {
    if lines == [] then []
    else
      var front, line := lines[..|lines| - 1], Classify(f, lines[|lines| - 1]);
      var path := PathOf(PlaceAfter(f, front));
      LineContents(f, front) + if line.Key? then PlacedIn(At(path), EntryValues(path, line.entry)) else []
  }

  /** The lines that are headers of other sections than the default one. */
  function Headers(f: Format, lines: seq<string>): seq<nat> {
    if lines == [] then []
    else
      var n := |lines| - 1;
      Headers(f, lines[..n]) + if OpensSection(f, lines[n]) then [n] else []
  }

  predicate OpensSection(f: Format, line: string) {
    var l := Classify(f, line); l.Header? && !IsDefault(l.section)
  }

  function SectionOf(f: Format, line: string): Path
    requires OpensSection(f, line)
  {
    Segments(Classify(f, line).section)
  }

  /** A file that never returns to the default section nests. */
  lemma {:induction false} NoReturnIsSafe(f: Format, lines: seq<string>)
    requires forall i :: 0 <= i < |lines| ==>
               var line := Classify(f, lines[i]); line.Header? ==> !IsDefault(line.section)
    ensures Safe(f, lines)
  {
    if lines != [] {
      NoReturnIsSafe(f, lines[..|lines| - 1]);
    }
  }

  lemma {:induction false} HeaderText(f: Format, section: string)
    requires !Bracketed(section)
    ensures Classify(f, "[" + section + "]") == Header(section)
  {
    var line := "[" + section + "]";
    assert line[0] == '[' && line[|line| - 1] == ']' && Inner(line) == section;
  }

  lemma {:induction false} TwoSegments()
    ensures Segments("a.b") == ["a", "b"] && !IsDefault("a.b")
  {
    assert |ToLower("a.b")| == 3;
    assert "a.b"[1] == '.' && "a.b"[1..] == ".b" && ".b"[1..] == "b" && "b"[1..] == "";
    assert "" + ['a'] == "a" && "" + ['b'] == "b";
    assert Pieces("", "b") == ["b"];
    assert Pieces("b", "") == Pieces("", "b");
    assert Pieces(".b", "a") == ["a"] + Pieces("b", "");
    assert Pieces("a.b", "") == Pieces(".b", "a");
  }

  lemma {:induction false} LowerDefault()
    ensures IsDefault("default")
  {
  }

  // ---------- The reader ----------

  /** The events so far are those of the place, and the remainder can still be closed. */
  ghost predicate Follows(output: seq<Item>, place: Place) {
    match place
    case Inside(path) => path != [] && Run(output) == At(path)
    case Default(remainder) => Run(output) == At(remainder) && (remainder != [] ==> Closing(output))
  }

  /** Nothing that follows can make the events nest. */
  ghost predicate Doomed(output: seq<Item>, place: Place) {
    output != [] &&
    if place.Inside? then Run(output).Broken?
    else Run(output) != At([]) && (Last(output).name == CLOSE ==> BrokenBefore(output))
  }

  method AddClose(output: seq<Item>, path: Path) returns (r: seq<Item>)
    requires path != []
    ensures r != [] && Last(r) == Item(path, CLOSE, []) && Contents(r) == Contents(output) && Keeps(output, r)
    ensures Run(output) == At(path) ==> Closing(r) && Run(r) == At(Front(path))
    ensures Run(output).Broken? ==> BrokenBefore(r) && Run(r).Broken?
  {
    var item := Item(path, CLOSE, []);
    RunLast(output, item);
    ContentsEvent(output, item);
    KeepsMore(output, output, item);
    if Run(output).Broken? {
      BrokenStays(output, item);
    }
    r := output + [item];
  }

  /** A header line. */
  method ReadHeader(output: seq<Item>, current: string, section: string, ghost place: Place) returns (r: seq<Item>)
    requires PathOf(place) == Segments(current) && (place.Inside? <==> !IsDefault(current))
    ensures Follows(output, place) ==> Follows(r, Enter(place, section))
    ensures Doomed(output, place) ==> Doomed(r, Enter(place, section))
    ensures Contents(r) == Contents(output) && Keeps(output, r)
    ensures !IsDefault(section) ==>
              r != [] && Last(r) == Item(Segments(section), OPEN, []) && Keeps(output, r[..|r| - 1])
  {
    r := output;
    KeepsItself(output);
    if !IsDefault(current) {
      r := AddClose(r, Segments(current));
    }
    if !IsDefault(section) {
      ghost var closed := r;
      r := CheckParentSegments(r, section);
      DoomedInside(r, section);
      HeaderKeeps(output, closed, r);
    }
  }

  lemma {:induction false} HeaderKeeps(output: seq<Item>, closed: seq<Item>, r: seq<Item>)
    requires Keeps(output, closed) && r != [] && Keeps(closed, r[..|r| - 1]) && Last(r).name == OPEN
    ensures Keeps(output, r[..|r| - 1]) && Keeps(output, r)
  {
    var front := r[..|r| - 1];
    KeepsOn(output, closed, front);
    KeepsMore(output, front, Last(r));
    assert front + [Last(r)] == r;
  }

  lemma {:induction false} DoomedInside(r: seq<Item>, section: string)
    ensures Run(r).Broken? ==> Doomed(r, Inside(Segments(section)))
  {
  }

  /** A key line: a new entry, or more inputs for the entry before it. */
  method ReadKey(output: seq<Item>, current: string, e: Entry, ghost place: Place) returns (r: seq<Item>)
    requires PathOf(place) == Segments(current) && KeyName(e.name) != OPEN && KeyName(e.name) != CLOSE
    ensures Follows(output, place) && Settled(place) ==> Follows(r, place)
    ensures (Follows(output, place) && !Settled(place)) || Doomed(output, place) ==> Doomed(r, place)
    ensures Follows(output, place) && Settled(place) ==>
              Contents(r) == Contents(output) + PlacedIn(At(PathOf(place)), EntryValues(PathOf(place), e))
    ensures Bare(Contents(r)) == Bare(Contents(output)) + EntryValues(PathOf(place), e)
    ensures Keeps(output, r)
  {
    var name, parents := KeyName(e.name), Segments(current) + KeyParents(e.name);
    if output != [] && name == Last(output).name && parents == Last(output).parents {
      var item := Last(output).(inputs := Last(output).inputs + e.inputs);
      MoreInputs(output, e.inputs, item);
      KeepsLast(output, output, [item]);
      BareAdd(Contents(output), Run(output[..|output| - 1]), EntryValues(PathOf(place), e));
      r := output[..|output| - 1] + [item];
    } else {
      var item := Item(parents, name, e.inputs);
      RunLast(output, item);
      ContentsLast(output, item);
      KeepsMore(output, output, item);
      BareAdd(Contents(output), Run(output), EntryValues(PathOf(place), e));
      r := output + [item];
    }
  }

  lemma {:induction false} MoreInputs(output: seq<Item>, inputs: seq<string>, item: Item)
    requires output != [] && Last(output).name != OPEN && Last(output).name != CLOSE
    requires item == Last(output).(inputs := Last(output).inputs + inputs)
    ensures var front := output[..|output| - 1];
            var r := front + [item];
            && Run(r) == Run(output) && (Run(r).Broken? || Run(r) == Run(front))
            && Contents(r) == Contents(output) + PlacedIn(Run(front), ItemValues(item.(inputs := inputs)))
  {
    var front, more := output[..|output| - 1], ItemValues(item.(inputs := inputs));
    RunLast(front, item);
    ContentsLast(front, item);
    assert ItemValues(item) == ItemValues(Last(output)) + more;
    PlaceAdd(Run(front), ItemValues(Last(output)), more);
    Associate(Contents(front), PlacedIn(Run(front), ItemValues(Last(output))), PlacedIn(Run(front), more));
  }

  lemma {:induction false} PlaceAdd(open: State, a: seq<Value>, b: seq<Value>)
    ensures PlacedIn(open, a + b) == PlacedIn(open, a) + PlacedIn(open, b)
  {
  }

  /** What stays open at the end of the file: everything is closed, except in the default section. */
  function LeftOpen(place: Place): Path { if place.Default? then place.remainder else [] }

  method CloseAll(output: seq<Item>, current: string, ghost place: Place) returns (r: seq<Item>)
    requires PathOf(place) == Segments(current) && (place.Inside? <==> !IsDefault(current))
    ensures Follows(output, place) ==> Run(r) == At(LeftOpen(place))
    ensures Doomed(output, place) ==> Run(r) != At([])
    ensures Contents(r) == Contents(output) && Keeps(output, r)
  {
    r := output;
    if !IsDefault(current) {
      r := AddClose(r, Segments(current));
      ghost var closed := r;
      r := CloseDown(r, 1);
      ClosedAll(r);
      KeepsOn(output, closed, r);
    } else {
      KeepsItself(output);
    }
  }

  // ---------- The whole file ----------

  /** The reader is where the lines so far lead, or they already do not nest. */
  ghost predicate OnTrack(f: Format, done: seq<string>, output: seq<Item>) {
    && (KeysSettled(f, done) ==> Follows(output, PlaceAfter(f, done)) && Contents(output) == LineContents(f, done))
    && (!KeysSettled(f, done) ==> Doomed(output, PlaceAfter(f, done)))
    && Bare(Contents(output)) == Bare(LineContents(f, done))
  }

  /** The events up to a mark are those of a header: its own open comes last, and its path is what is open. */
  ghost predicate MarksHeader(f: Format, lines: seq<string>, output: seq<Item>, line: nat, mark: nat) {
    && line < |lines| && OpensSection(f, lines[line]) && 0 < mark <= |output|
    && output[mark - 1] == Item(SectionOf(f, lines[line]), OPEN, [])
    && (KeysSettled(f, lines[..line]) ==> Run(output[..mark]) == At(SectionOf(f, lines[line])))
    && Bare(Contents(output[..mark])) == Bare(LineContents(f, lines[..line]))
  }

  /** One mark for every header, in order. */
  ghost predicate Marked(f: Format, lines: seq<string>, output: seq<Item>, marks: seq<nat>) {
    var headers := Headers(f, lines);
    && |marks| == |headers|
    && (forall k :: 0 <= k < |marks| ==> MarksHeader(f, lines, output, headers[k], marks[k]))
    && forall j, k :: 0 <= j < k < |marks| ==> marks[j] < marks[k]
  }

  /** Marks stay good while the events are kept and lines are added. */
  lemma {:induction false} MarkStays(f: Format, lines: seq<string>, output: seq<Item>, line: nat, mark: nat,
                                     lines': seq<string>, output': seq<Item>)
    requires MarksHeader(f, lines, output, line, mark) && Keeps(output, output')
    requires |lines| <= |lines'| && lines'[..|lines|] == lines
    ensures MarksHeader(f, lines', output', line, mark)
  {
    assert output[mark - 1].name == OPEN;
    assert output'[..mark] == output[..mark];
    assert output'[mark - 1] == output'[..mark][mark - 1] == output[..mark][mark - 1];
    assert lines'[..line] == lines[..line] && lines'[line] == lines[line];
  }

  lemma {:induction false} MarksStay(
      f: Format, lines: seq<string>, output: seq<Item>, marks: seq<nat>, line: string, output': seq<Item>)
    requires Marked(f, lines, output, marks) && Keeps(output, output') && !OpensSection(f, line)
    ensures Marked(f, lines + [line], output', marks)
  {
    var lines' := lines + [line];
    assert lines'[..|lines|] == lines;
    assert Headers(f, lines') == Headers(f, lines);
    forall k | 0 <= k < |marks|
      ensures MarksHeader(f, lines', output', Headers(f, lines)[k], marks[k])
    {
      MarkStays(f, lines, output, Headers(f, lines)[k], marks[k], lines', output');
    }
  }

  lemma {:induction false} MarksKept(
      f: Format, lines: seq<string>, output: seq<Item>, marks: seq<nat>, output': seq<Item>)
    requires Marked(f, lines, output, marks) && Keeps(output, output')
    ensures Marked(f, lines, output', marks)
  {
    forall k | 0 <= k < |marks|
      ensures MarksHeader(f, lines, output', Headers(f, lines)[k], marks[k])
    {
      MarkStays(f, lines, output, Headers(f, lines)[k], marks[k], lines, output');
    }
  }

  /** A new header is marked right after its open. */
  lemma {:induction false} NewMark(f: Format, lines: seq<string>, line: string, output: seq<Item>)
    requires OpensSection(f, line) && output != [] && Last(output) == Item(SectionOf(f, line), OPEN, [])
    requires KeysSettled(f, lines) ==> Run(output) == At(SectionOf(f, line))
    requires Bare(Contents(output)) == Bare(LineContents(f, lines))
    ensures MarksHeader(f, lines + [line], output, |lines|, |output|)
  {
    assert (lines + [line])[..|lines|] == lines && output[..|output|] == output;
  }

  lemma {:induction false} MarksGrow(
      f: Format, lines: seq<string>, output: seq<Item>, marks: seq<nat>, line: string, output': seq<Item>)
    requires Marked(f, lines, output, marks) && OpensSection(f, line) && output' != []
    requires Last(output') == Item(SectionOf(f, line), OPEN, []) && Keeps(output, output'[..|output'| - 1])
    requires KeysSettled(f, lines) ==> Run(output') == At(SectionOf(f, line))
    requires Bare(Contents(output')) == Bare(LineContents(f, lines))
    ensures Marked(f, lines + [line], output', marks + [|output'|])
  {
    var lines', marks', front, n := lines + [line], marks + [|output'|], output'[..|output'| - 1], |lines|;
    assert lines'[..n] == lines && lines'[n] == line;
    assert Headers(f, lines') == Headers(f, lines) + [n];
    NewMark(f, lines, line, output');
    assert front + [Last(output')] == output';
    KeepsMore(output, front, Last(output'));
    forall k | 0 <= k < |marks|
      ensures MarksHeader(f, lines', output', Headers(f, lines)[k], marks[k]) && marks[k] < |output'|
    {
      MarkStays(f, lines, output, Headers(f, lines)[k], marks[k], lines', output');
      assert output[marks[k] - 1].name == OPEN;
    }
  }

  /**
    * After every header of a section exactly the prefixes of its path are open, as long as the keys
    * before it were settled; every input comes out while exactly its section is open; and everything
    * is closed at the end exactly for the safe files. For every file, safe or not, the inputs come
    * out complete, in order and between the right headers.
    */
  method FromConfig(f: Format, lines: seq<string>) returns (output: seq<Item>, ghost marks: seq<nat>)
    requires Plain(f, lines)
    ensures Marked(f, lines, output, marks)
    ensures KeysSettled(f, lines) ==> Contents(output) == LineContents(f, lines)
    ensures KeysSettled(f, lines) ==> Run(output) == At(LeftOpen(PlaceAfter(f, lines)))
    ensures Run(output) == At([]) <==> Safe(f, lines)
    ensures Bare(Contents(output)) == Bare(LineContents(f, lines)) && Merged(output)
  {
    var section;
    output, section, marks := ReadLines(f, lines);
    ghost var before := output;
    output := CloseAll(output, section, PlaceAfter(f, lines));
    MarksKept(f, lines, before, marks, output);
  }

  /** All lines, without the closes at the end. */
  method ReadLines(f: Format, lines: seq<string>)
    returns (output: seq<Item>, section: string, ghost marks: seq<nat>)
    requires Plain(f, lines)
    ensures PathOf(PlaceAfter(f, lines)) == Segments(section)
    ensures PlaceAfter(f, lines).Inside? <==> !IsDefault(section)
    ensures OnTrack(f, lines, output) && Marked(f, lines, output, marks) && Merged(output)
  {
    var i := 0;
    output, section, marks := [], "default", [];
    LowerDefault();
    assert lines[..0] == [];
    while i < |lines|
      invariant 0 <= i <= |lines| && PathOf(PlaceAfter(f, lines[..i])) == Segments(section)
      invariant PlaceAfter(f, lines[..i]).Inside? <==> !IsDefault(section)
      invariant OnTrack(f, lines[..i], output) && Marked(f, lines[..i], output, marks) && Merged(output)
    {
      assert lines[..i + 1] == lines[..i] + [lines[i]];
      output, section, marks := ReadLine(f, lines[..i], lines[i], output, section, marks);
      i := i + 1;
    }
    assert lines[..i] == lines;
  }

  method ReadLine(
      f: Format, ghost done: seq<string>, line: string, output: seq<Item>, section: string, ghost marks: seq<nat>)
    returns (r: seq<Item>, section': string, ghost marks': seq<nat>)
    requires Classify(f, line).Key? ==>
               KeyName(Classify(f, line).entry.name) != OPEN && KeyName(Classify(f, line).entry.name) != CLOSE
    requires PathOf(PlaceAfter(f, done)) == Segments(section) && (PlaceAfter(f, done).Inside? <==> !IsDefault(section))
    requires OnTrack(f, done, output) && Marked(f, done, output, marks)
    ensures var place := PlaceAfter(f, done + [line]);
            PathOf(place) == Segments(section') && (place.Inside? <==> !IsDefault(section'))
    ensures OnTrack(f, done + [line], r) && Marked(f, done + [line], r, marks') && (Merged(output) ==> Merged(r))
  {
    r, section', marks' := output, section, marks;
    ghost var place := PlaceAfter(f, done);
    var l := Classify(f, line);
    LineSteps(f, done, line);
    if l.Header? {
      r := ReadHeader(output, section, l.section, place);
      section' := l.section;
      if IsDefault(l.section) {
        LowerDefault();
        section' := "default";
        MarksStay(f, done, output, marks, line, r);
      } else {
        MarksGrow(f, done, output, marks, line, r);
        marks' := marks + [|r|];
      }
    } else {
      if l.Key? {
        r := ReadKey(output, section, l.entry, place);
        BareAdd(LineContents(f, done), At(PathOf(place)), EntryValues(PathOf(place), l.entry));
      } else {
        KeepsItself(output);
      }
      MarksStay(f, done, output, marks, line, r);
    }
  }

  lemma {:induction false} LineSteps(f: Format, done: seq<string>, line: string)
    ensures var lines, place, l := done + [line], PlaceAfter(f, done), Classify(f, line);
            && PlaceAfter(f, lines) == (if l.Header? then Enter(place, l.section) else place)
            && (KeysSettled(f, lines) <==> KeysSettled(f, done) && (l.Key? ==> Settled(place)))
            && LineContents(f, lines) == LineContents(f, done) +
               if l.Key? then PlacedIn(At(PathOf(place)), EntryValues(PathOf(place), l.entry)) else []
  {
    assert (done + [line])[..|done|] == done;
  }

  // ---------- A return to the default section ----------

  lemma {:induction false} ReturnPlace(f: Format, first: string, second: string, lines: seq<string>)
    requires OpensSection(f, first) && lines == [first] + [second]
    requires Classify(f, second).Header? && IsDefault(Classify(f, second).section)
    ensures Plain(f, lines) && KeysSettled(f, lines) && PlaceAfter(f, lines) == Default(Front(SectionOf(f, first)))
  {
    var none: seq<string> := [];
    LineSteps(f, none, first);
    LineSteps(f, [first], second);
    assert none + [first] == [first];
  }

  /** Leaving a section for the default one, at the end of the file, leaves all but its last segment open. */
  method ReturnLeavesOpen(f: Format, first: string, second: string) returns (output: seq<Item>)
    requires OpensSection(f, first)
    requires Classify(f, second).Header? && IsDefault(Classify(f, second).section)
    ensures Run(output) == At(Front(SectionOf(f, first)))
  {
    ghost var marks;
    var lines := [first] + [second];
    ReturnPlace(f, first, second, lines);
    output, marks := FromConfig(f, lines);
  }

  method ReturnExample(f: Format) returns (output: seq<Item>)
    ensures Run(output) == At(["a"]) && !Safe(f, ["[a.b]", "[default]"])
  {
    HeaderText(f, "a.b");
    HeaderText(f, "default");
    assert "[" + "a.b" + "]" == "[a.b]" && "[" + "default" + "]" == "[default]";
    TwoSegments();
    LowerDefault();
    assert ["[a.b]", "[default]"] == ["[a.b]"] + ["[default]"];
    ReturnPlace(f, "[a.b]", "[default]", ["[a.b]", "[default]"]);
    output := ReturnLeavesOpen(f, "[a.b]", "[default]");
  }
}
