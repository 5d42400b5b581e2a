/** What the names in an INI file mean, said without the way they are read. */
module IniNames {
  import opened IniSections

  /** Names joined with single dots. */
  function Dotted(p: Path): string {
    if p == [] then "" else if |p| == 1 then p[0] else p[0] + "." + Dotted(p[1..])
  }

  predicate NoDots(p: Path) { forall i :: 0 <= i < |p| ==> '.' !in p[i] }

  /** One dot at the very end does not count. */
  function Undotted(s: string): string {
    if s != [] && s[|s| - 1] == '.' then s[..|s| - 1] else s
  }

  // ---------- Splitting at the dots ----------

  lemma {:induction false} DottedCons(x: string, p: Path)
    requires p != []
    ensures Dotted([x] + p) == x + "." + Dotted(p)
  {
    assert ([x] + p)[1..] == p;
  }

  lemma {:induction false} UndottedAfter(a: string, s: string)
    requires s != []
    ensures Undotted(a + s) == a + Undotted(s)
  {
    assert (a + s)[|a + s| - 1] == s[|s| - 1];
  }

  predicate Joins(p: Path, s: string) { p != [] && NoDots(p) && Dotted(p) == Undotted(s) }

  /** The pieces are what lies between the dots. */
  lemma {:induction false} PiecesJoin(s: string, piece: string)
    requires '.' !in piece && (s != [] || piece != [])
    ensures Joins(Pieces(s, piece), piece + s)
    decreases |s|
  {
    if s == [] {
      assert piece + s == piece && piece[|piece| - 1] in piece;
    } else if s[0] != '.' {
      PiecesJoin(s[1..], piece + [s[0]]);
      assert piece + [s[0]] + s[1..] == piece + s;
    } else if s[1..] == [] {
      assert piece + s == piece + "." && (piece + s)[..|piece|] == piece;
      assert Pieces(s, piece) == [piece];
    } else {
      PiecesJoin(s[1..], []);
      assert [] + s[1..] == s[1..];
      JoinsCons(piece, Pieces(s[1..], []), s[1..]);
      assert piece + "." + s[1..] == piece + s;
    }
  }

  lemma {:induction false} JoinsCons(piece: string, p: Path, s: string)
    requires '.' !in piece && Joins(p, s) && s != []
    ensures Joins([piece] + p, piece + "." + s)
  {
    DottedCons(piece, p);
    UndottedAfter(piece + ".", s);
  }

  /** Dots and pieces determine each other, unless the last piece is empty. */
  lemma {:induction false} JoinPieces(p: Path, piece: string)
    requires p != [] && NoDots(p) && p[|p| - 1] != []
    ensures Pieces(Dotted(p), piece) == [piece + p[0]] + p[1..]
    decreases |p|
  {
    if |p| == 1 {
      WordPieces(p[0], [], piece);
      assert p[0] + [] == p[0] && p[1..] == [];
    } else {
      var rest := Dotted(p[1..]);
      WordPieces(p[0], "." + rest, piece);
      assert p[0] + "." + rest == p[0] + ("." + rest) && ("." + rest)[1..] == rest;
      assert p[1..][|p| - 2] == p[|p| - 1];
      JoinPieces(p[1..], []);
      assert [] + p[1] == p[1] && [p[1]] + p[1..][1..] == p[1..];
    }
  }

  lemma {:induction false} WordPieces(word: string, s: string, piece: string)
    requires '.' !in word
    ensures Pieces(word + s, piece) == Pieces(s, piece + word)
    decreases |word|
  {
    if word == [] {
      assert word + s == s && piece + word == piece;
    } else {
      assert (word + s)[0] == word[0] && (word + s)[1..] == word[1..] + s;
      WordPieces(word[1..], s, piece + [word[0]]);
      assert piece + [word[0]] + word[1..] == piece + word;
    }
  }

  lemma {:induction false} SplitJoins(s: string)
    ensures NoDots(Split(s)) && Dotted(Split(s)) == Undotted(s)
  {
    if s != [] {
      PiecesJoin(s, []);
      assert [] + s == s;
    }
  }

  // ---------- Quotes ----------

  /** `name` is `raw` without one pair of equal quote characters around it, if it has them. */
  predicate Quoteless(raw: string, name: string) {
    if |raw| >= 2 && (raw[0] == '"' || raw[0] == '\'') && raw[|raw| - 1] == raw[0]
    then |name| == |raw| - 2 && raw == [raw[0]] + name + [raw[0]]
    else name == raw
  }

  predicate AllQuoteless(raw: Path, names: Path) {
    |raw| == |names| && forall i :: 0 <= i < |raw| ==> Quoteless(raw[i], names[i])
  }

  predicate NoQuotes(s: string) { '"' !in s && '\'' !in s }

  lemma {:induction false} RemovedQuotes(s: string)
    ensures Quoteless(s, RemoveQuotes(s))
  {
    if RemoveQuotes(s) != s {
      assert s == [s[0]] + s[1..|s| - 1] + [s[0]];
    }
  }

  lemma {:induction false} UnquotedPath(p: Path)
    ensures AllQuoteless(p, Unquoted(p))
  {
    forall i | 0 <= i < |p|
      ensures Quoteless(p[i], Unquoted(p)[i])
    {
      RemovedQuotes(p[i]);
    }
  }

  lemma {:induction false} QuotelessMore(raw: Path, names: Path, last: string)
    requires AllQuoteless(raw, names)
    ensures AllQuoteless(raw + [last], names + [RemoveQuotes(last)])
  {
    RemovedQuotes(last);
  }

  // ---------- Sections ----------

  /** The default section by its letters. */
  lemma {:induction false} DefaultLetters(s: string)
    ensures IsDefault(s) <==>
            && |s| == 7 && (s[0] == 'd' || s[0] == 'D') && (s[1] == 'e' || s[1] == 'E')
            && (s[2] == 'f' || s[2] == 'F') && (s[3] == 'a' || s[3] == 'A') && (s[4] == 'u' || s[4] == 'U')
            && (s[5] == 'l' || s[5] == 'L') && (s[6] == 't' || s[6] == 'T')
  {
    var lower := ToLower(s);
    if |s| == 7 {
      forall i | 0 <= i < 7
        ensures lower[i] == "default"[i] <==> s[i] == "default"[i] || s[i] as int == "default"[i] as int - 32
      {
      }
      assert IsDefault(s) <==> forall i :: 0 <= i < 7 ==> lower[i] == "default"[i];
    }
  }

  /** The path of a section is its text cut at every dot, with quotes around a segment taken off. */
  lemma {:induction false} SegmentsJoin(section: string) returns (raw: Path)
    requires !IsDefault(section)
    ensures NoDots(raw) && Dotted(raw) == Undotted(section) && AllQuoteless(raw, Segments(section))
  {
    if '.' in section {
      raw := Split(section);
      SplitJoins(section);
      UnquotedPath(raw);
    } else {
      raw := [section];
      RemovedQuotes(section);
      assert section != [] ==> section[|section| - 1] in section;
    }
  }

  lemma {:induction false} DottedQuotes(p: Path, i: nat)
    requires i < |p| && NoQuotes(Dotted(p))
    ensures NoQuotes(p[i])
  {
    if |p| > 1 {
      var rest := Dotted(p[1..]);
      assert forall c :: c in p[0] || c in rest ==> c in p[0] + "." + rest;
      if i > 0 {
        DottedQuotes(p[1..], i - 1);
      }
    }
  }

  /** Without quote characters it is the segments themselves that the dots join. */
  lemma {:induction false} PlainSegmentsJoin(section: string)
    requires !IsDefault(section) && NoQuotes(section)
    ensures NoDots(Segments(section)) && Dotted(Segments(section)) == Undotted(section)
  {
    var raw := SegmentsJoin(section);
    assert NoQuotes(Undotted(section));
    forall i | 0 <= i < |raw|
      ensures Segments(section)[i] == raw[i]
    {
      DottedQuotes(raw, i);
    }
    assert Segments(section) == raw;
  }

  /** Every path can be written as a section. */
  lemma {:induction false} PathIsSection(p: Path)
    requires p != [] && NoDots(p) && p[|p| - 1] != [] && NoQuotes(Dotted(p)) && !IsDefault(Dotted(p))
    ensures Segments(Dotted(p)) == p
  {
    var section := Dotted(p);
    JoinPieces(p, []);
    assert [] + p[0] == p[0] && [p[0]] + p[1..] == p;
    DottedSome(p);
    if '.' in section {
      forall i | 0 <= i < |p|
        ensures RemoveQuotes(p[i]) == p[i]
      {
        DottedQuotes(p, i);
        RemovedQuotes(p[i]);
      }
    } else {
      assert p == [section];
      RemovedQuotes(section);
    }
  }

  lemma {:induction false} DottedSome(p: Path)
    requires p != [] && p[|p| - 1] != []
    ensures Dotted(p) != [] && (|p| > 1 ==> '.' in Dotted(p))
  {
    if |p| > 1 {
      assert (p[0] + "." + Dotted(p[1..]))[|p[0]|] == '.';
    }
  }

  // ---------- Keys ----------

  /** A key with dots is a path and a name; so is one without, with no path. */
  lemma {:induction false} KeyJoins(name: string) returns (raw: Path)
    ensures raw != [] && NoDots(raw) && Dotted(raw) == Undotted(name)
    ensures AllQuoteless(raw, KeyParents(name) + [KeyName(name)])
  {
    if '.' in name {
      raw := Split(name);
      SplitJoins(name);
      var front, last := Front(raw), raw[|raw| - 1];
      UnquotedPath(front);
      QuotelessMore(front, Unquoted(front), last);
      assert front + [last] == raw;
    } else {
      raw := [name];
      RemovedQuotes(name);
      assert name != [] ==> name[|name| - 1] in name;
    }
  }

  // ---------- Lines ----------

  /** A header for a path, in single or double brackets. */
  lemma {:induction false} HeaderForPath(f: Format, p: Path)
    requires p != [] && NoDots(p) && p[|p| - 1] != [] && NoQuotes(Dotted(p)) && !IsDefault(Dotted(p))
    requires Dotted(p)[0] != '['
    ensures OpensSection(f, "[" + Dotted(p) + "]") && SectionOf(f, "[" + Dotted(p) + "]") == p
    ensures OpensSection(f, "[[" + Dotted(p) + "]]") && SectionOf(f, "[[" + Dotted(p) + "]]") == p
  {
    var section := Dotted(p);
    PathIsSection(p);
    LineKinds(f, section);
  }

  /** Which lines are headers, and of what; which are passed over; the others are keys. */
  lemma {:induction false} LineKinds(f: Format, s: string)
    ensures s == [] || s[0] != '[' ==> Classify(f, "[" + s + "]") == Header(s)
    ensures Classify(f, "[[" + s + "]]") == Header(s)
    ensures s != [] && (s[0] == ';' || s[0] == '#' || (s[0] == f.comment && s[0] != '[')) ==> Classify(f, s).Ignored?
    ensures Classify(f, "").Ignored?
    ensures s != [] && s[0] != ';' && s[0] != '#' && s[0] != f.comment && s[0] != '[' ==>
              Classify(f, s) == Key(f.entry(s))
  {
    var single, double := "[" + s + "]", "[[" + s + "]]";
    assert single[0] == '[' && single[|single| - 1] == ']' && single[1..|single| - 1] == s;
    assert double[0] == '[' && double[|double| - 1] == ']' && double[1..|double| - 1] == single;
  }

  // ---------- Whole files ----------

  /** A path that a header without quotes can name. */
  predicate Writable(p: Path) {
    && p != [] && NoDots(p) && p[|p| - 1] != [] && NoQuotes(Dotted(p)) && !IsDefault(Dotted(p))
    && Dotted(p) != [] && Dotted(p)[0] != '['
  }

  function HeaderLine(p: Path): string { "[" + Dotted(p) + "]" }

  lemma {:induction false} AllHeaders(f: Format, lines: seq<string>)
    requires forall k :: 0 <= k < |lines| ==> OpensSection(f, lines[k])
    ensures |Headers(f, lines)| == |lines| && forall k :: 0 <= k < |lines| ==> Headers(f, lines)[k] == k
  {
    if lines != [] {
      AllHeaders(f, lines[..|lines| - 1]);
    }
  }

  lemma {:induction false} HeadersSettle(f: Format, lines: seq<string>)
    requires forall k :: 0 <= k < |lines| ==> OpensSection(f, lines[k])
    ensures KeysSettled(f, lines)
  {
    if lines != [] {
      HeadersSettle(f, lines[..|lines| - 1]);
    }
  }

  /** For every list of paths, the file of their headers opens each of them in turn and closes everything. */
  method OpenInTurn(f: Format, paths: seq<Path>) returns (output: seq<Item>, ghost marks: seq<nat>)
    requires forall k :: 0 <= k < |paths| ==> Writable(paths[k])
    ensures |marks| == |paths| && forall j, k :: 0 <= j < k < |marks| ==> marks[j] < marks[k]
    ensures forall k :: 0 <= k < |paths| ==> marks[k] <= |output| && Run(output[..marks[k]]) == At(paths[k])
    ensures Run(output) == At([])
  {
    var lines := seq(|paths|, k requires 0 <= k < |paths| => HeaderLine(paths[k]));
    forall k | 0 <= k < |paths|
      ensures OpensSection(f, lines[k]) && SectionOf(f, lines[k]) == paths[k]
    {
      HeaderForPath(f, paths[k]);
    }
    AllHeaders(f, lines);
    NoReturnIsSafe(f, lines);
    output, marks := FromConfig(f, lines);
    forall k | 0 <= k < |paths|
      ensures marks[k] <= |output| && Run(output[..marks[k]]) == At(paths[k])
    {
      HeadersSettle(f, lines[..k]);
      assert MarksHeader(f, lines, output, Headers(f, lines)[k], marks[k]);
    }
  }
}
