/** The characters that matter when arguments are quoted and split, by themselves. */
module QuotingRules {
  import opened ArgumentQuoting
  import opened Sequences

  predicate Plain(s: string) { forall k :: 0 <= k < |s| ==> s[k] != ' ' && s[k] != '\t' && s[k] != '"' }

  // ---------- When quoting changes an argument, and how ----------

  lemma {:induction false} EscapeFromPlain(s: string, slashes: nat)
    requires '"' !in s
    ensures EscapeFrom(s, slashes, false) == s
  {
    if s != [] {
      HeadTail(s);
      EscapeFromPlain(s[1..], if s[0] == '\\' then slashes + 1 else 0);
    }
  }

  lemma {:induction false} EscapeFromLonger(s: string, slashes: nat, quoted: bool)
    ensures |EscapeFrom(s, slashes, quoted)| >= |s| + (if quoted || '"' in s then 1 else 0)
  {
    if s != [] {
      HeadTail(s);
      EscapeFromLonger(s[1..], if s[0] == '\\' then slashes + 1 else 0, quoted);
    }
  }

  /** An argument is left alone exactly if it is not empty and has no space, tab or quote in it. */
  lemma {:induction false} EscapeKeepsIff(s: string)
    ensures Escape(s) == s <==> s != "" && Plain(s)
  {
    if s != [] {
      if Plain(s) {
        assert !HasBlank(s);
        EscapeFromPlain(s, 0);
      } else {
        var k :| 0 <= k < |s| && (s[k] == ' ' || s[k] == '\t' || s[k] == '"');
        assert Blank(s[k]) || s[k] in s;
        EscapeFromLonger(s, 0, HasBlank(s));
      }
    }
  }

  lemma {:induction false} EscapeFromWraps(s: string, slashes: nat)
    requires '"' !in s && (if s == [] then slashes == 0 else s[|s| - 1] != '\\')
    ensures EscapeFrom(s, slashes, true) == s + "\""
  {
    if s != [] {
      HeadTail(s);
      var tail := s[1..];
      EscapeFromWraps(tail, if s[0] == '\\' then slashes + 1 else 0);
      assert [s[0]] + (tail + "\"") == s + "\"";
    }
  }

  /** Spaces and tabs are protected by a pair of quotes. */
  lemma {:induction false} EscapeWraps(s: string)
    requires s != [] && (' ' in s || '\t' in s) && '"' !in s && s[|s| - 1] != '\\'
    ensures Escape(s) == "\"" + s + "\""
  {
    var k :| 0 <= k < |s| && (s[k] == ' ' || s[k] == '\t');
    assert Blank(s[k]);
    EscapeFromWraps(s, 0);
    assert "\"" + (s + "\"") == "\"" + s + "\"";
  }

  // ---------- The rule for backslashes ----------

  function Slashes(n: nat): string { seq(n, i => '\\') }

  lemma {:induction false} SlashesAre(n: nat)
    ensures Slashes(n) == Backslashes(n)
  {
    if n > 0 {
      SlashesAre(n - 1);
      assert Slashes(n) == ['\\'] + Slashes(n - 1);
    }
  }

  lemma {:induction false} Halves(n: nat)
    ensures (2 * n) % 2 == 0 && (2 * n) / 2 == n && (2 * n + 1) % 2 == 1 && (2 * n + 1) / 2 == n
  {
  }

  /** An even number of backslashes before a quote is halved, and the quote changes the mode. */
  lemma {:induction false} EvenRule(n: nat, m: nat, t: string, quoted: bool)
    requires m == 2 * n
    ensures ParseArgument(Slashes(m) + "\"" + t, quoted) == Prepend(Slashes(n), ParseArgument(t, !quoted))
  {
    SlashesAre(n);
    SlashesAre(m);
    Halves(n);
    ParseQuote(m, t, quoted);
  }

  /** After an odd number the quote is literal. */
  lemma {:induction false} OddRule(n: nat, m: nat, t: string, quoted: bool)
    requires m == 2 * n + 1
    ensures ParseArgument(Slashes(m) + "\"" + t, quoted) == Prepend(Slashes(n) + "\"", ParseArgument(t, quoted))
  {
    SlashesAre(n);
    SlashesAre(m);
    Halves(n);
    ParseQuote(m, t, quoted);
  }

  // ---------- Where a line is split ----------

  /** One or more spaces and tabs. */
  predicate Gap(s: string) { s != [] && forall k :: 0 <= k < |s| ==> s[k] == ' ' || s[k] == '\t' }

  /** A word that needs no quoting. */
  predicate Word(s: string) { s != [] && Plain(s) && '\\' !in s }

  lemma {:induction false} SkipGap(gap: string, s: string)
    requires (gap == [] || Gap(gap)) && (s == [] || (s[0] != ' ' && s[0] != '\t'))
    ensures SkipBlanks(gap + s) == s
  {
    if gap == [] {
      assert gap + s == s;
    } else {
      assert (gap + s)[0] == gap[0] && (gap + s)[1..] == gap[1..] + s;
      SkipGap(gap[1..], s);
    }
  }

  lemma {:induction false} WordParses(word: string, rest: string)
    requires (word == [] || Word(word)) && (rest == [] || rest[0] == ' ' || rest[0] == '\t')
    ensures ParseArgument(word + rest, false) == Parsed(word, rest)
  {
    var t := word + rest;
    if word == [] {
      assert t == rest;
    } else {
      assert t[0] == word[0] && t[1..] == word[1..] + rest;
      assert Run(t) == 0;
      WordParses(word[1..], rest);
      HeadTail(word);
    }
  }

  /** Words, each behind a gap. */
  function Laid(words: seq<string>, gaps: seq<string>): string
    requires |gaps| == |words|
  {
    if words == [] then [] else gaps[0] + words[0] + Laid(words[1..], gaps[1..])
  }

  /** A line of plain words is split at its spaces and tabs, and nowhere else. */
  lemma {:induction false} WordsSplit(words: seq<string>, gaps: seq<string>, end: string)
    requires |gaps| == |words| && (end == [] || Gap(end))
    requires forall k :: 0 <= k < |words| ==> Word(words[k]) && Gap(gaps[k])
    ensures Split(Laid(words, gaps) + end) == words
  {
    var t := Laid(words, gaps) + end;
    if words == [] {
      assert t == end && end + [] == end;
      SkipGap(end, []);
    } else {
      var rest := Laid(words[1..], gaps[1..]) + end;
      assert t == gaps[0] + (words[0] + rest);
      SkipGap(gaps[0], words[0] + rest);
      GapFirst(words[1..], gaps[1..], end);
      WordParses(words[0], rest);
      WordsSplit(words[1..], gaps[1..], end);
      HeadTail(words);
    }
  }

  lemma {:induction false} GapFirst(words: seq<string>, gaps: seq<string>, end: string)
    requires |gaps| == |words| && (end == [] || Gap(end))
    requires forall k :: 0 <= k < |words| ==> Word(words[k]) && Gap(gaps[k])
    ensures var t := Laid(words, gaps) + end; t == [] || t[0] == ' ' || t[0] == '\t'
  {
    if words != [] {
      assert (Laid(words, gaps) + end)[0] == gaps[0][0];
    }
  }
}
