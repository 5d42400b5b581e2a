/** Quoting an argument so that the Windows argument rule splits it off again unchanged. */
module ArgumentQuoting {
  import opened Sequences

  const BACKSLASH: char := '\\'
  const QUOTE: char := '"'

  predicate Blank(c: char) { c == ' ' || c == '\t' }

  function Backslashes(n: nat): string {
    if n == 0 then [] else [BACKSLASH] + Backslashes(n - 1)
  }

  // ---------- The argument rule ----------

  /** The number of backslashes at the front. */
  function Run(s: string): (n: nat)
    ensures n <= |s|
  {
    if s == [] || s[0] != BACKSLASH then 0 else 1 + Run(s[1..])
  }

  datatype Parsed = Parsed(arg: string, rest: string)

  function Prepend(front: string, p: Parsed): Parsed { Parsed(front + p.arg, p.rest) }

  /**
    * One argument: 2n backslashes and a quote are n backslashes and a change of quoting; 2n+1
    * backslashes and a quote are n backslashes and a literal quote; other backslashes are literal.
    */
  function ParseArgument(s: string, quoted: bool): (p: Parsed)
    ensures |p.rest| <= |s|
    decreases |s|
  {
    var n := Run(s);
    if n < |s| && s[n] == QUOTE then
      if n % 2 == 0 then Prepend(Backslashes(n / 2), ParseArgument(s[n + 1..], !quoted))
      else Prepend(Backslashes(n / 2) + [QUOTE], ParseArgument(s[n + 1..], quoted))
    else if n > 0 then
      Prepend(Backslashes(n), ParseArgument(s[n..], quoted))
    else if s == [] || (!quoted && Blank(s[0])) then
      Parsed([], s)
    else
      Prepend([s[0]], ParseArgument(s[1..], quoted))
  }

  function SkipBlanks(s: string): (r: string)
    ensures |r| <= |s| && (r != [] ==> !Blank(r[0]))
  {
    if s != [] && Blank(s[0]) then SkipBlanks(s[1..]) else s
  }

  /** An argument that is entered takes at least one character. */
  lemma {:induction false} ArgumentAdvances(s: string)
    requires s != [] && !Blank(s[0])
    ensures |ParseArgument(s, false).rest| < |s|
  {
    var n := Run(s);
    if n > 0 {
      var p := ParseArgument(s[n..], false);
    }
  }

  /** A command line split at the blanks outside quotes. */
  function Split(s: string): seq<string>
    decreases |s|
  {
    var t := SkipBlanks(s);
    if t == [] then []
    else
      var p := ParseArgument(t, false);
      ArgumentAdvances(t);
      [p.arg] + Split(p.rest)
  }

  // ---------- Quoting ----------

  predicate HasBlank(s: string) { exists k :: 0 <= k < |s| && Blank(s[k]) }

  /** The text for the rest of an argument, after `slashes` backslashes have been written. */
  function EscapeFrom(s: string, slashes: nat, quoted: bool): string {
    if s == [] then if quoted then Backslashes(slashes) + [QUOTE] else []
    else if s[0] == BACKSLASH then [BACKSLASH] + EscapeFrom(s[1..], slashes + 1, quoted)
    else if s[0] == QUOTE then Backslashes(slashes) + [BACKSLASH, QUOTE] + EscapeFrom(s[1..], 0, quoted)
    else [s[0]] + EscapeFrom(s[1..], 0, quoted)
  }

  function Escape(s: string): string {
    if s == [] then [QUOTE, QUOTE]
    else if HasBlank(s) then [QUOTE] + EscapeFrom(s, 0, true)
    else EscapeFrom(s, 0, false)
  }

  /** The arguments quoted and joined with single spaces. */
  function Join(args: seq<string>): string {
    if args == [] then []
    else if |args| == 1 then Escape(args[0])
    else Escape(args[0]) + [' '] + Join(args[1..])
  }

  // ---------- Splitting undoes quoting ----------

  lemma {:induction false} RunOf(k: nat, s: string)
    requires s != [] ==> s[0] != BACKSLASH
    ensures Run(Backslashes(k) + s) == k && |Backslashes(k)| == k
  {
    if k == 0 {
      assert Backslashes(k) + s == s;
    } else {
      RunOf(k - 1, s);
      assert (Backslashes(k) + s)[1..] == Backslashes(k - 1) + s;
    }
  }

  lemma {:induction false} BackslashesAdd(m: nat, n: nat)
    ensures Backslashes(m) + Backslashes(n) == Backslashes(m + n)
  {
    if m > 0 {
      BackslashesAdd(m - 1, n);
    }
  }

  /** Where an argument ends: at the end of the line or before a blank. */
  predicate Ends(rest: string) { rest == [] || Blank(rest[0]) }

  /** A run of backslashes before anything but a quote. */
  lemma {:induction false} ParseRun(k: nat, s: string, quoted: bool)
    requires s == [] || (s[0] != BACKSLASH && s[0] != QUOTE)
    ensures ParseArgument(Backslashes(k) + s, quoted) == Prepend(Backslashes(k), ParseArgument(s, quoted))
  {
    var t := Backslashes(k) + s;
    RunOf(k, s);
    assert t[k..] == s;
    if k == 0 {
      assert t == s;
    } else if s != [] {
      assert t[k] == s[0];
    }
  }

  /** A run of backslashes before a quote. */
  lemma {:induction false} ParseQuote(n: nat, s: string, quoted: bool)
    ensures ParseArgument(Backslashes(n) + [QUOTE] + s, quoted) ==
            if n % 2 == 0 then Prepend(Backslashes(n / 2), ParseArgument(s, !quoted))
            else Prepend(Backslashes(n / 2) + [QUOTE], ParseArgument(s, quoted))
  {
    var t := Backslashes(n) + [QUOTE] + s;
    RunOf(n, [QUOTE] + s);
    assert t == Backslashes(n) + ([QUOTE] + s);
    assert t[n + 1..] == s && t[n] == QUOTE;
  }

  lemma {:induction false} ParseEnd(rest: string)
    requires Ends(rest)
    ensures ParseArgument(rest, false) == Parsed([], rest)
  {
  }

  lemma {:induction false} ParsePlain(c: char, s: string, quoted: bool)
    requires c != BACKSLASH && c != QUOTE && (quoted || !Blank(c))
    ensures ParseArgument([c] + s, quoted) == Prepend([c], ParseArgument(s, quoted))
  {
    assert ([c] + s)[1..] == s;
  }

  lemma {:induction false} NoBlank(s: string)
    requires s != [] && !HasBlank(s)
    ensures !Blank(s[0]) && !HasBlank(s[1..])
  {
    forall k | 0 <= k < |s[1..]|
      ensures !Blank(s[1..][k])
    {
      assert s[1..][k] == s[k + 1];
    }
  }

  // How the text falls apart in front of each kind of character.

  lemma {:induction false} Regroup(b: string, h: string, e: string, r: string)
    ensures b + (h + e) + r == b + (h + (e + r))
  {
  }

  lemma {:induction false} RegroupQuote(b: string, b': string, e: string, r: string)
    ensures b + (b' + [BACKSLASH, QUOTE] + e) + r == b + b' + [BACKSLASH] + [QUOTE] + (e + r)
  {
  }

  lemma {:induction false} TextEnd(k: nat, rest: string)
    ensures Backslashes(k) + EscapeFrom([], k, true) + rest == Backslashes(k + k) + [QUOTE] + rest
    ensures Backslashes(k) + EscapeFrom([], k, false) + rest == Backslashes(k) + rest
  {
    BackslashesAdd(k, k);
  }

  lemma {:induction false} TextBackslash(s: string, k: nat, quoted: bool, rest: string)
    requires s != [] && s[0] == BACKSLASH
    ensures Backslashes(k) + EscapeFrom(s, k, quoted) + rest
              == Backslashes(k + 1) + EscapeFrom(s[1..], k + 1, quoted) + rest
    ensures Backslashes(k) + s == Backslashes(k + 1) + s[1..]
  {
    BackslashesAdd(k, 1);
    assert Backslashes(1) == [BACKSLASH];
    HeadTail(s);
  }

  lemma {:induction false} TextQuote(s: string, k: nat, quoted: bool, rest: string)
    requires s != [] && s[0] == QUOTE
    ensures Backslashes(k) + EscapeFrom(s, k, quoted) + rest ==
            Backslashes(k + k + 1) + [QUOTE] + (EscapeFrom(s[1..], 0, quoted) + rest)
  {
    BackslashesAdd(k, k);
    BackslashesAdd(k + k, 1);
    assert Backslashes(1) == [BACKSLASH];
    RegroupQuote(Backslashes(k), Backslashes(k), EscapeFrom(s[1..], 0, quoted), rest);
  }

  lemma {:induction false} TextPlain(s: string, k: nat, quoted: bool, rest: string)
    requires s != [] && s[0] != BACKSLASH && s[0] != QUOTE
    ensures Backslashes(k) + EscapeFrom(s, k, quoted) + rest
              == Backslashes(k) + ([s[0]] + (EscapeFrom(s[1..], 0, quoted) + rest))
  {
    Regroup(Backslashes(k), [s[0]], EscapeFrom(s[1..], 0, quoted), rest);
  }

  /** The text of an argument, from anywhere inside it, parses to the rest of the argument. */
  lemma {:induction false} ParseEscaped(s: string, k: nat, quoted: bool, rest: string, text: string)
    requires Ends(rest) && (quoted || !HasBlank(s))
    requires text == Backslashes(k) + EscapeFrom(s, k, quoted) + rest
    ensures ParseArgument(text, quoted) == Parsed(Backslashes(k) + s, rest)
    decreases |s|
  {
    if s == [] {
      TextEnd(k, rest);
      ParseLast(k, quoted, rest, text);
    } else {
      if !quoted {
        NoBlank(s);
      }
      if s[0] == BACKSLASH {
        TextBackslash(s, k, quoted, rest);
        ParseEscaped(s[1..], k + 1, quoted, rest, text);
      } else {
        var tail := EscapeFrom(s[1..], 0, quoted) + rest;
        NoBackslashes(EscapeFrom(s[1..], 0, quoted));
        NoBackslashes(s[1..]);
        ParseEscaped(s[1..], 0, quoted, rest, tail);
        if s[0] == QUOTE {
          TextQuote(s, k, quoted, rest);
          ParseAtQuote(k, tail, quoted, s[1..], rest, text);
        } else {
          TextPlain(s, k, quoted, rest);
          ParseAtPlain(k, s[0], tail, quoted, s[1..], rest, text);
        }
        HeadTail(s);
      }
    }
  }

  lemma {:induction false} ParseAtQuote(k: nat, tail: string, quoted: bool, arg: string, rest: string, text: string)
    requires ParseArgument(tail, quoted) == Parsed(arg, rest) && text == Backslashes(k + k + 1) + [QUOTE] + tail
    ensures ParseArgument(text, quoted) == Parsed(Backslashes(k) + ([QUOTE] + arg), rest)
  {
    ParseQuote(k + k + 1, tail, quoted);
    HalfOfOdd(k);
  }

  lemma {:induction false} ParseAtPlain(
      k: nat, c: char, tail: string, quoted: bool, arg: string, rest: string, text: string)
    requires c != BACKSLASH && c != QUOTE && (quoted || !Blank(c))
    requires ParseArgument(tail, quoted) == Parsed(arg, rest) && text == Backslashes(k) + ([c] + tail)
    ensures ParseArgument(text, quoted) == Parsed(Backslashes(k) + ([c] + arg), rest)
  {
    ParsePlain(c, tail, quoted);
    ParseRun(k, [c] + tail, quoted);
  }

  lemma {:induction false} HalfOfOdd(k: nat)
    ensures (k + k + 1) % 2 == 1 && (k + k + 1) / 2 == k && (k + k) % 2 == 0 && (k + k) / 2 == k
  {
  }

  lemma {:induction false} ParseLast(k: nat, quoted: bool, rest: string, text: string)
    requires Ends(rest) && text == if quoted then Backslashes(k + k) + [QUOTE] + rest else Backslashes(k) + rest
    ensures ParseArgument(text, quoted) == Parsed(Backslashes(k) + [], rest)
  {
    ParseEnd(rest);
    if quoted {
      ParseQuote(k + k, rest, true);
      HalfOfOdd(k);
    } else {
      ParseRun(k, rest, false);
    }
  }

  lemma {:induction false} NoBackslashes(s: string)
    ensures Backslashes(0) + s == s
  {
  }

  /** One quoted argument is read back, whatever blank-separated text follows. */
  lemma {:induction false} EscapeParses(s: string, rest: string, text: string)
    requires Ends(rest) && text == Escape(s) + rest
    ensures ParseArgument(text, false) == Parsed(s, rest)
  {
    if s == [] {
      EmptyParses(rest, text);
    } else {
      var quoted := HasBlank(s);
      var inner := EscapeFrom(s, 0, quoted);
      var body := inner + rest;
      NoBackslashes(inner);
      NoBackslashes(s);
      ParseEscaped(s, 0, quoted, rest, body);
      if quoted {
        OpenQuote(inner, rest, text, s);
      }
    }
  }

  /** A quote with no backslash before it changes the quoting. */
  lemma {:induction false} BareQuote(s: string, quoted: bool)
    ensures ParseArgument([QUOTE] + s, quoted) == ParseArgument(s, !quoted)
  {
    var t := [QUOTE] + s;
    assert t[1..] == s && Run(t) == 0;
    var p := ParseArgument(s, !quoted);
    NoBackslashes(p.arg);
  }

  lemma {:induction false} OpenQuote(inner: string, rest: string, text: string, arg: string)
    requires text == [QUOTE] + inner + rest && ParseArgument(inner + rest, true) == Parsed(arg, rest)
    ensures ParseArgument(text, false) == Parsed(arg, rest)
  {
    BareQuote(inner + rest, false);
    Associate([QUOTE], inner, rest);
  }

  lemma {:induction false} EmptyParses(rest: string, text: string)
    requires Ends(rest) && text == [QUOTE, QUOTE] + rest
    ensures ParseArgument(text, false) == Parsed([], rest)
  {
    ParseEnd(rest);
    BareQuote(rest, true);
    BareQuote([QUOTE] + rest, false);
    TwoQuotes(rest);
  }

  lemma {:induction false} TwoQuotes(rest: string)
    ensures [QUOTE, QUOTE] + rest == [QUOTE] + ([QUOTE] + rest)
  {
  }

  lemma {:induction false} EscapeStarts(s: string)
    ensures Escape(s) != [] && !Blank(Escape(s)[0])
  {
    if s != [] && !HasBlank(s) {
      NoBlank(s);
    }
  }

  lemma {:induction false} SplitFirst(arg: string, rest: string)
    requires Ends(rest)
    ensures Split(Escape(arg) + rest) == [arg] + Split(rest)
  {
    var t := Escape(arg) + rest;
    EscapeParses(arg, rest, t);
    EscapeStarts(arg);
    assert t != [] && t[0] == Escape(arg)[0] && SkipBlanks(t) == t;
  }

  /** Splitting a joined line gives back exactly the arguments it was joined from. */
  lemma {:induction false} SplitJoin(args: seq<string>)
    ensures Split(Join(args)) == args
  {
    if args == [] {
    } else if |args| == 1 {
      SplitFirst(args[0], []);
      assert Escape(args[0]) + [] == Escape(args[0]);
      assert Split([]) == [];
    } else {
      var rest := Join(args[1..]);
      SplitFirst(args[0], [' '] + rest);
      assert Escape(args[0]) + [' '] + rest == Escape(args[0]) + ([' '] + rest);
      SplitJoin(args[1..]);
      assert ([' '] + rest)[1..] == rest;
      SkipOne(rest);
      HeadTail(args);
    }
  }

  lemma {:induction false} SkipOne(s: string)
    ensures Split([' '] + s) == Split(s)
  {
    assert ([' '] + s)[1..] == s;
    assert SkipBlanks([' '] + s) == SkipBlanks(s);
  }

  // ---------- The loop that quotes ----------

  lemma {:induction false} PlainIsItself(s: string)
    requires forall k :: 0 <= k < |s| ==> s[k] != BACKSLASH && s[k] != QUOTE
    ensures EscapeFrom(s, 0, false) == s
  {
    if s != [] {
      PlainIsItself(s[1..]);
      HeadTail(s);
    }
  }

  method PushSlashes(buf: string, slashes: nat) returns (r: string)
    ensures r == buf + Backslashes(slashes)
  {
    r := buf;
    var n := slashes;
    while n > 0
      invariant 0 <= n <= slashes && r + Backslashes(n) == buf + Backslashes(slashes)
    {
      Associate(r, [BACKSLASH], Backslashes(n - 1));
      r := r + [BACKSLASH];
      n := n - 1;
    }
    assert r + Backslashes(0) == r;
  }

  /** Counts the characters to add, and looks for blanks. */
  method Measure(ac: string) returns (n: nat, hasSpace: bool)
    ensures hasSpace == HasBlank(ac)
    ensures n == |ac| <==> !hasSpace && forall k :: 0 <= k < |ac| ==> ac[k] != BACKSLASH && ac[k] != QUOTE
  {
    n, hasSpace := |ac|, false;
    var i := 0;
    while i < |ac|
      invariant 0 <= i <= |ac| <= n
      invariant hasSpace <==> exists k :: 0 <= k < i && Blank(ac[k])
      invariant n == |ac| <==> forall k :: 0 <= k < i ==> ac[k] != BACKSLASH && ac[k] != QUOTE
    {
      if ac[i] == QUOTE || ac[i] == BACKSLASH {
        n := n + 1;
      } else if Blank(ac[i]) {
        hasSpace := true;
      }
      i := i + 1;
    }
    if hasSpace {
      n := n + 2;
    }
  }

  method EscapeArgument(ac: string) returns (buf: string)
    ensures buf == Escape(ac)
  {
    if ac == [] {
      return [QUOTE, QUOTE];
    }
    var n, hasSpace := Measure(ac);
    if n == |ac| {
      PlainIsItself(ac);
      return ac;
    }
    buf := if hasSpace then [QUOTE] else [];
    ghost var whole := buf + EscapeFrom(ac, 0, hasSpace);
    var slashes, i := 0, 0;
    assert ac[0..] == ac;
    while i < |ac|
      invariant 0 <= i <= |ac| && buf + EscapeFrom(ac[i..], slashes, hasSpace) == whole
    {
      ghost var text, tail := EscapeFrom(ac[i..], slashes, hasSpace), ac[i + 1..];
      assert ac[i..][1..] == tail;
      if ac[i] == BACKSLASH {
        MovePiece(whole, buf, [BACKSLASH], EscapeFrom(tail, slashes + 1, hasSpace), text);
        slashes := slashes + 1;
        buf := buf + [BACKSLASH];
      } else if ac[i] == QUOTE {
        QuoteStep(whole, buf, Backslashes(slashes), EscapeFrom(tail, 0, hasSpace), text);
        buf := PushSlashes(buf, slashes);
        slashes := 0;
        buf := buf + [BACKSLASH];
        buf := buf + [QUOTE];
      } else {
        MovePiece(whole, buf, [ac[i]], EscapeFrom(tail, 0, hasSpace), text);
        slashes := 0;
        buf := buf + [ac[i]];
      }
      i := i + 1;
    }
    assert ac[i..] == [] && buf + [] == buf;
    NoBackslashes(EscapeFrom(ac, 0, false));
    if hasSpace {
      Associate(buf, Backslashes(slashes), [QUOTE]);
      buf := PushSlashes(buf, slashes);
      buf := buf + [QUOTE];
    }
  }

  lemma {:induction false} QuoteStep(whole: string, buf: string, b: string, e: string, text: string)
    requires buf + text == whole && text == b + [BACKSLASH, QUOTE] + e
    ensures buf + b + [BACKSLASH] + [QUOTE] + e == whole
  {
  }
}
