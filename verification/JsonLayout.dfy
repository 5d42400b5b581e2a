/** White space and comments, by their bytes, and how the reader passes over them. */
module JsonLayout {
  import opened JsonStrings
  import opened JsonReader
  import opened Sequences

  /** A blank character, a comment to the end of a line, or one between its marks. */
  datatype Filler = Blank(byte: Byte) | Line(body: Bytes, end: Bytes) | Block(body: Bytes)

  predicate IsBlank(c: Byte) { c == 0x20 || c == 0x09 || c == 0x0A || c == 0x0D }

  predicate NoLineEnd(s: Bytes) { forall k :: 0 <= k < |s| ==> s[k] != 0x0A && s[k] != 0x0D }

  predicate IsLineEnd(s: Bytes) { s == [0x0A] || s == [0x0D] || s == [0x0D, 0x0A] }

  /** No star and slash next to each other. */
  predicate NoBlockEnd(s: Bytes) { forall k :: 0 <= k < |s| - 1 ==> !(s[k] == 0x2A && s[k + 1] == 0x2F) }

  predicate IsFiller(g: Filler) {
    match g
    case Blank(byte) => IsBlank(byte)
    case Line(body, end) => NoLineEnd(body) && IsLineEnd(end)
    case Block(body) => NoBlockEnd(body)
  }

  function FillerText(g: Filler): Bytes {
    match g
    case Blank(byte) => [byte]
    case Line(body, end) => [0x2F, 0x2F] + (body + end)
    case Block(body) => [0x2F, 0x2A] + (body + [0x2A, 0x2F])
  }

  /** What may stand between two tokens. */
  type Gap = seq<Filler>

  predicate IsGap(gap: Gap) { forall k :: 0 <= k < |gap| ==> IsFiller(gap[k]) }

  predicate AllBlank(gap: Gap) { forall k :: 0 <= k < |gap| ==> gap[k].Blank? }

  function GapText(gap: Gap): Bytes {
    if gap == [] then [] else FillerText(gap[0]) + GapText(gap[1..])
  }

  // ---------- Blanks ----------

  lemma {:induction false} BlankLexes(c: Byte, s: Bytes, f: Features)
    requires IsBlank(c)
    ensures Lex([c] + s, f) == Lex(s, f) && LexPastComments([c] + s, f) == LexPastComments(s, f)
    ensures SkipSpaces([c] + s) == SkipSpaces(s)
  {
    assert ([c] + s)[1..] == s;
  }

  /** White space in front of a token is skipped, whatever its length and whatever follows. */
  lemma {:induction false} BlanksLex(ws: Bytes, s: Bytes, f: Features)
    requires forall k :: 0 <= k < |ws| ==> ws[k] == 0x20 || ws[k] == 0x09 || ws[k] == 0x0A || ws[k] == 0x0D
    ensures Lex(ws + s, f) == Lex(s, f) && SkipSpaces(ws + s) == SkipSpaces(s)
  {
    if ws == [] {
      assert ws + s == s;
    } else {
      HeadTail(ws);
      Associate([ws[0]], ws[1..], s);
      BlankLexes(ws[0], ws[1..] + s, f);
      BlanksLex(ws[1..], s, f);
    }
  }

  /** No other byte is skipped as white space. */
  lemma {:induction false} OthersStay(s: Bytes)
    requires s != [] && s[0] != 0x20 && s[0] != 0x09 && s[0] != 0x0A && s[0] != 0x0D
    ensures SkipSpaces(s) == s
  {
  }

  // ---------- Comments ----------

  lemma {:induction false} LineSkips(body: Bytes, end: Bytes, s: Bytes)
    requires NoLineEnd(body) && IsLineEnd(end)
    ensures var r := SkipCppStyleComment(body + end + s);
            r == s || (end == [0x0D] && s != [] && s[0] == 0x0A && r == s[1..])
  {
    var t := body + end + s;
    if body == [] {
      assert t == end + s;
      if end == [0x0D, 0x0A] {
        assert t[0] == 0x0D && t[1] == 0x0A && t[2..] == s;
      } else {
        assert t[1..] == s;
      }
    } else {
      assert t[0] == body[0] && t[1..] == body[1..] + end + s;
      LineSkips(body[1..], end, s);
    }
  }

  lemma {:induction false} BlockScans(body: Bytes, s: Bytes)
    requires NoBlockEnd(body)
    ensures ScanCStyleComment(body + [0x2A, 0x2F] + s) == Scan(true, s)
  {
    var t := body + [0x2A, 0x2F] + s;
    if body == [] {
      assert t[0] == 0x2A && t[1] == 0x2F && t[2..] == s;
    } else {
      assert t[0] == body[0] && t[1..] == body[1..] + [0x2A, 0x2F] + s;
      assert t[1] == if |body| > 1 then body[1] else 0x2A;
      NoBlockEndTail(body);
      BlockScans(body[1..], s);
    }
  }

  lemma {:induction false} NoBlockEndTail(body: Bytes)
    requires body != [] && NoBlockEnd(body)
    ensures NoBlockEnd(body[1..]) && (|body| > 1 ==> !(body[0] == 0x2A && body[1] == 0x2F))
  {
  }

  /** A comment is one token; what is left of it after the token reads like what follows it. */
  lemma {:induction false} CommentLexes(g: Filler, s: Bytes, f: Features)
    requires IsFiller(g) && !g.Blank?
    ensures var t := Lex(FillerText(g) + s, f);
            && t.token.kind == CommentToken
            && (t.rest == s || (s != [] && s[0] == 0x0A && t.rest == s[1..]))
  {
    var text := FillerText(g) + s;
    if g.Line? {
      assert text[0] == 0x2F && text[1..][0] == 0x2F && text[1..][1..] == g.body + g.end + s;
      LineSkips(g.body, g.end, s);
    } else {
      assert text[0] == 0x2F && text[1..][0] == 0x2A && text[1..][1..] == g.body + [0x2A, 0x2F] + s;
      BlockScans(g.body, s);
    }
  }

  lemma {:induction false} FillerPasses(g: Filler, s: Bytes, f: Features)
    requires IsFiller(g)
    ensures LexPastComments(FillerText(g) + s, f) == LexPastComments(s, f)
    ensures g.Blank? ==> Lex(FillerText(g) + s, f) == Lex(s, f) && SkipSpaces(FillerText(g) + s) == SkipSpaces(s)
  {
    if g.Blank? {
      BlankLexes(g.byte, s, f);
    } else {
      CommentLexes(g, s, f);
      if s != [] && s[0] == 0x0A {
        HeadTail(s);
        BlankLexes(0x0A, s[1..], f);
      }
    }
  }

  // ---------- Gaps ----------

  lemma {:induction false} GapPasses(gap: Gap, s: Bytes, f: Features)
    requires IsGap(gap)
    ensures LexPastComments(GapText(gap) + s, f) == LexPastComments(s, f)
    ensures AllBlank(gap) ==> Lex(GapText(gap) + s, f) == Lex(s, f) && SkipSpaces(GapText(gap) + s) == SkipSpaces(s)
  {
    if gap == [] {
      assert GapText(gap) + s == s;
    } else {
      var more := GapText(gap[1..]) + s;
      Associate(FillerText(gap[0]), GapText(gap[1..]), s);
      FillerPasses(gap[0], more, f);
      GapPasses(gap[1..], s, f);
    }
  }

  /** Where comments are allowed, or there are none. */
  predicate Allowed(gap: Gap, f: Features) { IsGap(gap) && (f.allowComments || AllBlank(gap)) }

  lemma {:induction false} AllowedPasses(gap: Gap, s: Bytes, f: Features)
    requires Allowed(gap, f)
    ensures SkipCommentTokens(GapText(gap) + s, f) == SkipCommentTokens(s, f)
  {
    GapPasses(gap, s, f);
  }

  /** What a gap leaves of the input once its blanks are skipped: what follows it, or one of its comments. */
  lemma {:induction false} GapStarts(gap: Gap, s: Bytes)
    requires IsGap(gap) && s != [] && !IsBlank(s[0])
    ensures var t := SkipSpaces(GapText(gap) + s); t != [] && (t[0] == s[0] || t[0] == 0x2F)
  {
    if gap == [] {
      assert GapText(gap) + s == s;
    } else {
      var more := GapText(gap[1..]) + s;
      Associate(FillerText(gap[0]), GapText(gap[1..]), s);
      if gap[0].Blank? {
        assert ([gap[0].byte] + more)[1..] == more;
        GapStarts(gap[1..], s);
      } else {
        assert (FillerText(gap[0]) + more)[0] == 0x2F;
      }
    }
  }
}
