/** The reader as it runs: a position in the document, a stack of values and a list of errors. */
module JsonReaderCode {
  import opened JsonStrings
  import opened JsonNumbers
  import opened JsonValues
  import opened Sequences
  import Spec = JsonReader
  import StringCode = JsonStringCode

  type Error = Spec.Error

  /** How a reading method came back: with a verdict, or through an exception. */
  datatype Status = Returned(ok: bool) | Threw(exception: Spec.Exception)

  // How a scan goes on from one position to the next.

  lemma {:induction false} LexAfterSpaces(s: Bytes, f: Spec.Features)
    ensures Spec.Lex(s, f) == Spec.Lex(Spec.SkipSpaces(s), f)
  {
    if s != [] && Spec.IsSpace(s[0]) { LexAfterSpaces(s[1..], f); }
  }

  lemma {:induction false} SpacesStep(d: Bytes, p: nat)
    requires p < |d| && Spec.IsSpace(d[p])
    ensures Spec.SkipSpaces(d[p..]) == Spec.SkipSpaces(d[p + 1..])
  {
    DropDrop(d, p, 1);
  }

  lemma {:induction false} SkipDigitsStep(d: Bytes, p: nat)
    requires p < |d| && IsDigit(d[p])
    ensures Spec.SkipDigits(d[p..]) == Spec.SkipDigits(d[p + 1..])
  {
    DropDrop(d, p, 1);
  }

  lemma {:induction false} StringStep(d: Bytes, p: nat, quote: Byte)
    requires p < |d| && quote != BACKSLASH
    ensures d[p] == quote ==> ScanString(d[p..], quote) == Scan(true, d[p + 1..])
    ensures d[p] == BACKSLASH && p + 1 < |d| ==> ScanString(d[p..], quote) == ScanString(d[p + 2..], quote)
    ensures d[p] == BACKSLASH && p + 1 == |d| ==> ScanString(d[p..], quote) == Scan(false, [])
    ensures d[p] != quote && d[p] != BACKSLASH ==> ScanString(d[p..], quote) == ScanString(d[p + 1..], quote)
  {
    DropDrop(d, p, 1);
    if p + 1 < |d| { DropDrop(d, p, 2); }
  }

  lemma {:induction false} CStyleStep(d: Bytes, p: nat)
    requires p + 1 < |d|
    ensures d[p] == STAR && d[p + 1] == SLASH ==> Spec.ScanCStyleComment(d[p..]) == Scan(true, d[p + 2..])
    ensures !(d[p] == STAR && d[p + 1] == SLASH) ==>
        Spec.ScanCStyleComment(d[p..]) == Spec.ScanCStyleComment(d[p + 1..])
  {
    DropDrop(d, p, 1);
    DropDrop(d, p, 2);
  }

  lemma {:induction false} CppStyleStep(d: Bytes, p: nat)
    requires p < |d|
    ensures d[p] == Spec.LINE_FEED ==> Spec.SkipCppStyleComment(d[p..]) == d[p + 1..]
    ensures d[p] == Spec.CARRIAGE_RETURN && p + 1 < |d| && d[p + 1] == Spec.LINE_FEED ==>
        Spec.SkipCppStyleComment(d[p..]) == d[p + 2..]
    ensures d[p] == Spec.CARRIAGE_RETURN && !(p + 1 < |d| && d[p + 1] == Spec.LINE_FEED) ==>
        Spec.SkipCppStyleComment(d[p..]) == d[p + 1..]
    ensures d[p] != Spec.LINE_FEED && d[p] != Spec.CARRIAGE_RETURN ==>
        Spec.SkipCppStyleComment(d[p..]) == Spec.SkipCppStyleComment(d[p + 1..])
  {
    DropDrop(d, p, 1);
    if p + 1 < |d| { DropDrop(d, p, 2); }
  }

  const STAR: Byte := Spec.STAR

  lemma {:induction false} MatchAt(d: Bytes, p: nat, pattern: Bytes)
    requires p + |pattern| <= |d|
    ensures pattern <= d[p..] <==> forall i :: 0 <= i < |pattern| ==> d[p + i] == pattern[i]
    ensures d[p..][|pattern|..] == d[p + |pattern|..]
  {
    DropDrop(d, p, |pattern|);
  }

  function LexedAs(t: Spec.Started, text: Bytes, rest: Bytes): Spec.Lexed {
    Spec.Lexed(t.scan.ok, Spec.Token(if t.scan.ok then t.kind else Spec.ErrorToken, text), rest)
  }

  /** A token's text, read off the document. */
  lemma {:induction false} LexAt(d: Bytes, p: nat, q: nat, f: Spec.Features)
    requires p < q <= |d| && !Spec.IsSpace(d[p])
    requires Spec.Start(d[p], d[p + 1..], f).scan.rest == d[q..]
    ensures Spec.Lex(d[p..], f) == LexedAs(Spec.Start(d[p], d[p + 1..], f), d[p..q], d[q..])
  {
    DropDrop(d, p, 1);
    assert |d[p..]| - |d[q..]| == q - p;
    assert d[p..][..q - p] == d[p..q];
  }

  /** The tokens that may be put back are one character long. */
  lemma {:induction false} EndTokenIsOneByte(s: Bytes, f: Spec.Features)
    ensures Spec.EndsValue(Spec.Lex(s, f).token.kind) ==> |Spec.Lex(s, f).token.text| == 1
    decreases |s|
  {
    if s != [] {
      if Spec.IsSpace(s[0]) {
        EndTokenIsOneByte(s[1..], f);
        assert Spec.LexCharacter(s, f) == Spec.Lex(s[1..], f);
      } else {
        var t := Spec.Start(s[0], s[1..], f);
        if Spec.EndsValue(t.kind) && t.scan.ok {
          assert t.scan.rest == s[1..];
          assert Spec.LexCharacter(s, f).token.text == s[..1];
        }
      }
    }
  }

  lemma {:induction false} EndTokenPastComments(s: Bytes, f: Spec.Features)
    ensures Spec.EndsValue(Spec.LexPastComments(s, f).token.kind) ==> |Spec.LexPastComments(s, f).token.text| == 1
    decreases |s|
  {
    EndTokenIsOneByte(s, f);
    if Spec.Lex(s, f).token.kind == Spec.CommentToken {
      EndTokenPastComments(Spec.Lex(s, f).rest, f);
    }
  }

  /** A token that ends a value can be taken back by one step. */
  lemma {:induction false} EndTokenLength(s: Bytes, f: Spec.Features)
    ensures var t := Spec.SkipCommentTokens(s, f);
            Spec.EndsValue(t.token.kind) ==> |t.token.text| == 1 && |t.rest| < |s|
  {
    EndTokenPastComments(s, f);
    EndTokenIsOneByte(s, f);
  }

  lemma {:induction false} ArrayCloses(s: Bytes, depth: nat, items: seq<Value>, e: Spec.Env)
    requires Spec.ClosesArray(s, items, e.f)
    ensures Spec.ReadArray(s, depth, items, e) == Spec.Done(true, Arr(items), Spec.Lex(s, e.f).rest, [])
  {
    assert Spec.SkipSpaces(s) == s;
    assert Spec.LexCharacter(s, e.f).rest == s[1..];
  }

  lemma {:induction false} ArrayGoesOn(s: Bytes, depth: nat, items: seq<Value>, e: Spec.Env)
    requires (s == [] || !Spec.IsSpace(s[0])) && !Spec.ClosesArray(s, items, e.f)
    ensures Spec.ReadArray(s, depth, items, e) == Spec.ReadElement(s, depth, items, e)
  {
    assert Spec.SkipSpaces(s) == s;
  }

  lemma {:induction false} ArraySpaces(s: Bytes, depth: nat, items: seq<Value>, e: Spec.Env)
    ensures Spec.ReadArray(s, depth, items, e) == Spec.ReadArray(Spec.SkipSpaces(s), depth, items, e)
  {
    var s1 := Spec.SkipSpaces(s);
    assert Spec.SkipSpaces(s1) == s1;
  }

  class OurReader {
    const env: Spec.Env
    var document: Bytes
    var current: nat
    /** The values under construction, the root first; the last one is the current value. */
    var nodes: seq<Value>
    var errors: seq<Error>

    constructor (env: Spec.Env)
      ensures this.env == env && InDocument()
    {
      this.env := env;
      document, current, nodes, errors := [], 0, [], [];
    }

    predicate InDocument()
      reads this
    {
      current <= |document|
    }

    function Remaining(): Bytes
      requires InDocument()
      reads this
    {
      document[current..]
    }

    /** The next character, or 0 without moving at the end. */
    method GetNextChar() returns (c: Byte)
      requires InDocument()
      modifies this`current
      ensures InDocument()
      ensures old(current) == |document| ==> c == 0 && current == old(current)
      ensures old(current) < |document| ==> c == document[old(current)] && current == old(current) + 1
    {
      if current == |document| {
        return 0;
      }
      c := document[current];
      current := current + 1;
    }

    method SkipSpaces()
      requires InDocument()
      modifies this`current
      ensures InDocument() && current >= old(current)
      ensures Remaining() == Spec.SkipSpaces(old(Remaining()))
    {
      while current != |document|
        invariant InDocument() && current >= old(current)
        invariant Spec.SkipSpaces(Remaining()) == Spec.SkipSpaces(old(Remaining()))
        decreases |document| - current
      {
        var c := document[current];
        if c == Spec.SPACE || c == Spec.TAB || c == Spec.CARRIAGE_RETURN || c == Spec.LINE_FEED {
          SpacesStep(document, current);
          current := current + 1;
        } else {
          break;
        }
      }
    }

    method SkipDigits()
      requires InDocument()
      modifies this`current
      ensures InDocument() && current >= old(current)
      ensures Remaining() == Spec.SkipDigits(old(Remaining()))
    {
      while current < |document| && IsDigit(document[current])
        invariant InDocument() && current >= old(current)
        invariant Spec.SkipDigits(Remaining()) == Spec.SkipDigits(old(Remaining()))
      {
        SkipDigitsStep(document, current);
        current := current + 1;
      }
    }

    /** Compares from the last character back, as the pattern is short. */
    method Match(pattern: Bytes) returns (ok: bool)
      requires InDocument()
      modifies this`current
      ensures InDocument() && current >= old(current)
      ensures Scan(ok, Remaining()) == Spec.Match(old(Remaining()), pattern)
    {
      if |document| - current < |pattern| {
        return false;
      }
      MatchAt(document, current, pattern);
      var index := |pattern|;
      while index > 0
        invariant 0 <= index <= |pattern|
        invariant forall i :: index <= i < |pattern| ==> document[current + i] == pattern[i]
      {
        index := index - 1;
        if document[current + index] != pattern[index] {
          return false;
        }
      }
      current := current + |pattern|;
      return true;
    }

    /** Scans after the first character of a number; false if a sign is followed by `I`. */
    method ReadNumber(checkInf: bool) returns (ok: bool)
      requires InDocument()
      modifies this`current
      ensures InDocument() && current >= old(current)
      ensures ok == !(checkInf && old(Remaining()) != [] && old(Remaining())[0] == Spec.UPPER_I)
      ensures Remaining() == if ok then Spec.SkipNumber(old(Remaining())) else old(Remaining())[1..]
    {
      if checkInf && current != |document| && document[current] == Spec.UPPER_I {
        DropDrop(document, current, 1);
        current := current + 1;
        return false;
      }
      SkipDigits();
      SkipFraction();
      SkipExponent();
      return true;
    }

    method SkipFraction()
      requires InDocument()
      modifies this`current
      ensures InDocument() && current >= old(current)
      ensures Remaining() == Spec.SkipFraction(old(Remaining()))
    {
      if current < |document| && document[current] == Spec.DOT {
        DropDrop(document, current, 1);
        current := current + 1;
        SkipDigits();
      }
    }

    method SkipExponent()
      requires InDocument()
      modifies this`current
      ensures InDocument() && current >= old(current)
      ensures Remaining() == Spec.SkipExponent(old(Remaining()))
    {
      if current < |document| && (document[current] == Spec.LOWER_E || document[current] == Spec.UPPER_E) {
        DropDrop(document, current, 1);
        current := current + 1;
        if current < |document| && (document[current] == Spec.PLUS || document[current] == MINUS) {
          DropDrop(document, current - 1, 2);
          current := current + 1;
        }
        SkipDigits();
      }
    }

    method ReadString(quote: Byte) returns (ok: bool)
      requires InDocument() && quote != BACKSLASH && quote != 0
      modifies this`current
      ensures InDocument() && current >= old(current)
      ensures Scan(ok, Remaining()) == ScanString(old(Remaining()), quote)
    {
      var c: Byte := 0;
      while current != |document|
        invariant InDocument() && current >= old(current)
        invariant ScanString(Remaining(), quote) == ScanString(old(Remaining()), quote)
        invariant c != quote
        decreases |document| - current
      {
        StringStep(document, current, quote);
        c := GetNextChar();
        if c == BACKSLASH {
          var _ := GetNextChar();
        } else if c == quote {
          break;
        }
      }
      return c == quote;
    }

    method ReadCStyleComment() returns (ok: bool)
      requires InDocument()
      modifies this`current
      ensures InDocument() && current >= old(current)
      ensures Scan(ok, Remaining()) == Spec.ScanCStyleComment(old(Remaining()))
    {
      while current + 1 < |document|
        invariant InDocument() && current >= old(current)
        invariant Spec.ScanCStyleComment(Remaining()) == Spec.ScanCStyleComment(old(Remaining()))
      {
        CStyleStep(document, current);
        var c := GetNextChar();
        if c == STAR && document[current] == SLASH {
          current := current + 1;
          return true;
        }
      }
      var c := GetNextChar();
      return c == SLASH;
    }

    method ReadCppStyleComment()
      requires InDocument()
      modifies this`current
      ensures InDocument() && current >= old(current)
      ensures Remaining() == Spec.SkipCppStyleComment(old(Remaining()))
    {
      while current != |document|
        invariant InDocument() && current >= old(current)
        invariant Spec.SkipCppStyleComment(Remaining()) == Spec.SkipCppStyleComment(old(Remaining()))
        decreases |document| - current
      {
        CppStyleStep(document, current);
        var c := GetNextChar();
        if c == Spec.LINE_FEED {
          return;
        }
        if c == Spec.CARRIAGE_RETURN {
          if current != |document| && document[current] == Spec.LINE_FEED {
            current := current + 1;
          }
          return;
        }
      }
    }

    method ReadComment() returns (ok: bool)
      requires InDocument()
      modifies this`current
      ensures InDocument() && current >= old(current)
      ensures Scan(ok, Remaining()) == Spec.ScanComment(old(Remaining()))
    {
      var c := GetNextChar();
      if old(current) < |document| {
        DropDrop(document, old(current), 1);
      }
      if c == STAR {
        ok := ReadCStyleComment();
      } else if c == SLASH {
        ReadCppStyleComment();
        ok := true;
      } else {
        ok := false;
      }
    }

    /** The token that starts with `c`, just read, unless `c` is the end. */
    method ReadTokenAfter(c: Byte) returns (ok: bool, kind: Spec.TokenType)
      requires InDocument() && !Spec.IsSpace(c)
      modifies this`current
      ensures InDocument() && current >= old(current)
      ensures ok == Spec.Start(c, old(Remaining()), env.f).scan.ok
      ensures Remaining() == Spec.Start(c, old(Remaining()), env.f).scan.rest
      ensures ok ==> kind == Spec.Start(c, old(Remaining()), env.f).kind
    {
      ok := true;
      if c == Spec.LBRACE {
        kind := Spec.ObjectBegin;
      } else if c == Spec.RBRACE {
        kind := Spec.ObjectEnd;
      } else if c == Spec.LBRACKET {
        kind := Spec.ArrayBegin;
      } else if c == Spec.RBRACKET {
        kind := Spec.ArrayEnd;
      } else if c == QUOTE {
        kind := Spec.StringToken;
        ok := ReadString(QUOTE);
      } else if c == Spec.APOSTROPHE && env.f.allowSingleQuotes {
        kind := Spec.StringToken;
        ok := ReadString(Spec.APOSTROPHE);
      } else if c == Spec.APOSTROPHE || c == SLASH {
        kind := Spec.CommentToken;
        ok := ReadComment();
      } else if 0x30 <= c <= 0x39 {
        kind := Spec.NumberToken;
        var _ := ReadNumber(false);
      } else if c == MINUS {
        ok, kind := ReadSigned(Spec.NegInfToken);
      } else if c == Spec.PLUS {
        ok, kind := ReadSigned(Spec.PosInfToken);
      } else if c == LOWER_T {
        kind := Spec.TrueToken;
        ok := Match(Spec.RUE);
      } else if c == LOWER_F {
        kind := Spec.FalseToken;
        ok := Match(Spec.ALSE);
      } else if c == LOWER_N {
        kind := Spec.NullToken;
        ok := Match(Spec.ULL);
      } else if c == Spec.UPPER_N && env.f.allowSpecialFloats {
        kind := Spec.NaNToken;
        ok := Match(Spec.AN);
      } else if c == Spec.UPPER_I && env.f.allowSpecialFloats {
        kind := Spec.PosInfToken;
        ok := Match(Spec.NFINITY);
      } else if c == Spec.COMMA {
        kind := Spec.ArraySeparator;
      } else if c == Spec.COLON {
        kind := Spec.MemberSeparator;
      } else if c == 0 {
        kind := Spec.EndOfStream;
      } else {
        ok, kind := false, Spec.ErrorToken;
      }
    }

    method ReadSigned(infinity: Spec.TokenType) returns (ok: bool, kind: Spec.TokenType)
      requires InDocument() && (infinity == Spec.PosInfToken || infinity == Spec.NegInfToken)
      modifies this`current
      ensures InDocument() && current >= old(current)
      ensures Spec.Started(kind, Scan(ok, Remaining())) == Spec.Signed(infinity, old(Remaining()), env.f)
    {
      var number := ReadNumber(true);
      if number {
        return true, Spec.NumberToken;
      }
      kind := infinity;
      ok := false;
      if env.f.allowSpecialFloats {
        ok := Match(Spec.NFINITY);
      }
    }

    method ReadToken() returns (ok: bool, token: Spec.Token)
      requires InDocument()
      modifies this`current
      ensures InDocument() && current >= old(current)
      ensures |token.text| <= current && token.text == document[current - |token.text|..current]
      ensures Spec.Lexed(ok, token, Remaining()) == Spec.Lex(old(Remaining()), env.f)
    {
      LexAfterSpaces(document[current..], env.f);
      SkipSpaces();
      var start := current;
      var c := GetNextChar();
      if start == |document| {
        return true, Spec.Token(Spec.EndOfStream, []);
      }
      ok, token := ReadTokenFrom(start, c);
    }

    /** The token that starts with `c`, which has just been read. */
    method ReadTokenFrom(start: nat, c: Byte) returns (ok: bool, token: Spec.Token)
      requires InDocument() && current == start + 1 && document[start] == c && !Spec.IsSpace(c)
      modifies this`current
      ensures InDocument() && current >= old(current)
      ensures |token.text| == current - start && token.text == document[start..current]
      ensures Spec.Lexed(ok, token, Remaining()) == Spec.Lex(document[start..], env.f)
    {
      var kind;
      ok, kind := ReadTokenAfter(c);
      LexAt(document, start, current, env.f);
      token := Spec.Token(if ok then kind else Spec.ErrorToken, document[start..current]);
    }

    method ReadTokenPastComments() returns (ok: bool, token: Spec.Token)
      requires InDocument()
      modifies this`current
      ensures InDocument() && current >= old(current)
      ensures |token.text| <= current && token.text == document[current - |token.text|..current]
      ensures Spec.Lexed(ok, token, Remaining()) == Spec.LexPastComments(old(Remaining()), env.f)
    {
      ok, token := ReadToken();
      while token.kind == Spec.CommentToken
        invariant InDocument() && current >= old(current)
        invariant |token.text| <= current && token.text == document[current - |token.text|..current]
        invariant Spec.LexPastComments(old(Remaining()), env.f)
               == if token.kind == Spec.CommentToken then Spec.LexPastComments(Remaining(), env.f)
                  else Spec.Lexed(ok, token, Remaining())
        decreases if token.kind == Spec.CommentToken then |document| - current + 1 else 0
      {
        ok, token := ReadToken();
      }
    }

    method SkipCommentTokens() returns (ok: bool, token: Spec.Token)
      requires InDocument()
      modifies this`current
      ensures InDocument() && current >= old(current)
      ensures |token.text| <= current && token.text == document[current - |token.text|..current]
      ensures Spec.Lexed(ok, token, Remaining()) == Spec.SkipCommentTokens(old(Remaining()), env.f)
      ensures Spec.EndsValue(token.kind) ==> |token.text| == 1
      ensures Spec.EndsValue(token.kind) || Spec.BeginsContainer(token.kind) ==> current > old(current)
    {
      EndTokenLength(Remaining(), env.f);
      if env.f.allowComments {
        ok, token := ReadTokenPastComments();
      } else {
        ok, token := ReadToken();
      }
    }

    /** Reads on to a token of the wanted type; errors met on the way are discarded. */
    method RecoverFromError(until: Spec.TokenType)
      requires InDocument()
      modifies this`current, this`errors
      ensures InDocument() && current >= old(current)
      ensures errors == old(errors)
      ensures Remaining() == Spec.Recover(old(Remaining()), until, env.f)
    {
      var errorCount := |errors|;
      while true
        invariant InDocument() && current >= old(current)
        invariant errors == old(errors)
        invariant Spec.Recover(Remaining(), until, env.f) == Spec.Recover(old(Remaining()), until, env.f)
        decreases |document| - current
      {
        var ok, skip := ReadToken();
        if !ok {
          errors := errors[..errorCount];
        }
        if skip.kind == until || skip.kind == Spec.EndOfStream {
          break;
        }
      }
      errors := errors[..errorCount];
    }

    // ---------- Values ----------

    function CurrentValue(): Value
      requires nodes != []
      reads this
    {
      nodes[|nodes| - 1]
    }

    method SetCurrentValue(value: Value)
      requires nodes != []
      modifies this`nodes
      ensures nodes == old(nodes)[..|old(nodes)| - 1] + [value]
    {
      nodes := nodes[..|nodes| - 1] + [value];
    }

    /** The state and status after a call that should behave like `r`, with `base` below the current value. */
    ghost predicate After(status: Status, r: Spec.Outcome, base: seq<Value>, before: seq<Error>)
      reads this
    {
      match r
      case Thrown(exception) => status == Threw(exception) && errors == before
      case Done(ok, value, rest, found) =>
        && status == Returned(ok)
        && InDocument() && Remaining() == rest
        && nodes == base + [value]
        && errors == before + found
    }

    method DecodeNumber(token: Spec.Token) returns (number: Value, found: seq<Error>)
      requires token.text != []
      ensures (match NumberMeaning(token.text)
               case IntNumber(i) => number == Int(i) && found == []
               case UIntNumber(u) => number == UInt(u) && found == []
               case NotInteger =>
                 if env.isDouble(token.text) then number == Real(token.text) && found == []
                 else found == [Spec.NotANumber])
    {
      var decoded := JsonNumbers.DecodeNumber(token.text);
      match decoded
      case IntNumber(i) => return Int(i), [];
      case UIntNumber(u) => return UInt(u), [];
      case NotInteger =>
        if env.isDouble(token.text) {
          return Real(token.text), [];
        }
        return Null, [Spec.NotANumber];
    }

    /** Reads a token that is a value by itself; on failure the current value stays what it was. */
    method ReadScalar(ok: bool, token: Spec.Token) returns (status: Status)
      requires InDocument() && nodes != []
      requires token.kind == Spec.StringToken ==> |token.text| >= 2
      requires token.kind == Spec.NumberToken ==> token.text != []
      modifies this`nodes, this`errors
      ensures After(status, Spec.ReadScalar(Spec.Lexed(ok, token, Remaining()), old(CurrentValue()), env),
                    old(nodes)[..|old(nodes)| - 1], old(errors))
    {
      TakeLast(nodes);
      var value, found := CurrentValue(), [];
      match token.kind {
        case NumberToken =>
          value, found := DecodeNumber(token);
        case StringToken =>
          var text := StringCode.DecodeString(token.text);
          match text {
            case GoodText(decoded) => value := Str(decoded);
            case BadText(error) => found := [Spec.BadString(error)];
          }
        case TrueToken => value := Bool(true);
        case FalseToken => value := Bool(false);
        case NullToken => value := Null;
        case NaNToken => value := Real(token.text);
        case PosInfToken => value := Real(token.text);
        case NegInfToken => value := Real(token.text);
        case _ => found := [Spec.ValueExpected];
      }
      if found == [] {
        SetCurrentValue(value);
        status := Returned(true);
      } else {
        errors := errors + found;
        status := Returned(false);
      }
    }

    /** Pops the child off the stack. */
    method Pop() returns (child: Value)
      requires nodes != []
      modifies this`nodes
      ensures child == old(CurrentValue()) && nodes == old(nodes)[..|old(nodes)| - 1]
    {
      child := CurrentValue();
      nodes := nodes[..|nodes| - 1];
    }

    /** Gives up on a container after an error that is already on record. */
    method Abandon(until: Spec.TokenType) returns (status: Status)
      requires InDocument() && nodes != []
      modifies this`current, this`errors
      ensures InDocument() && current >= old(current)
      ensures status == Returned(false) && errors == old(errors)
      ensures Remaining() == Spec.Recover(old(Remaining()), until, env.f)
    {
      RecoverFromError(until);
      status := Returned(false);
    }

    method ReadValue() returns (status: Status)
      requires InDocument() && nodes != []
      modifies this`current, this`nodes, this`errors
      ensures InDocument() && current >= old(current)
      ensures After(status, Spec.ReadValue(old(Remaining()), |old(nodes)|, old(CurrentValue()), env),
                    old(nodes)[..|old(nodes)| - 1], old(errors))
      decreases |document| - current, 2
    {
      if |nodes| > env.f.stackLimit {
        return Threw(Spec.StackLimitExceeded);
      }
      status := ReadWithinLimit();
    }

    method ReadWithinLimit() returns (status: Status)
      requires InDocument() && nodes != []
      modifies this`current, this`nodes, this`errors
      ensures InDocument() && current >= old(current)
      ensures After(status, Spec.ReadWithinLimit(old(Remaining()), |old(nodes)|, old(CurrentValue()), env),
                    old(nodes)[..|old(nodes)| - 1], old(errors))
      decreases |document| - current, 1
    {
      ghost var r := Spec.ReadWithinLimit(Remaining(), |nodes|, CurrentValue(), env);
      var ok, token := SkipCommentTokens();
      status := ReadStarted(ok, token, r);
    }

    /** Whether `r` is what the reader makes of a value that starts with this token. */
    ghost predicate Starts(r: Spec.Outcome, ok: bool, token: Spec.Token)
      requires InDocument() && nodes != []
      requires token.kind == Spec.StringToken ==> |token.text| >= 2
      requires token.kind == Spec.NumberToken ==> token.text != []
      reads this
    {
      if token.kind == Spec.ObjectBegin then r == Spec.ReadObject(Remaining(), |nodes|, [], [], env)
      else if token.kind == Spec.ArrayBegin then r == Spec.ReadArray(Remaining(), |nodes|, [], env)
      else if Spec.EndsValue(token.kind) && env.f.allowDroppedNullPlaceholders then
        r == Spec.Done(true, Null, token.text + Remaining(), [])
      else r == Spec.ReadScalar(Spec.Lexed(ok, token, Remaining()), CurrentValue(), env)
    }

    method ReadStarted(ok: bool, token: Spec.Token, ghost r: Spec.Outcome) returns (status: Status)
      requires InDocument() && nodes != []
      requires token.kind == Spec.StringToken ==> |token.text| >= 2
      requires token.kind == Spec.NumberToken ==> token.text != []
      requires Spec.EndsValue(token.kind) ==>
                 |token.text| == 1 <= current && token.text == document[current - 1..current]
      requires Starts(r, ok, token)
      modifies this`current, this`nodes, this`errors
      ensures InDocument() && current >= old(current) - (if Spec.EndsValue(token.kind) then 1 else 0)
      ensures After(status, r, old(nodes)[..|old(nodes)| - 1], old(errors))
      decreases if Spec.BeginsContainer(token.kind) then |document| - current + 1 else 0, 0
    {
      if token.kind == Spec.ObjectBegin {
        status := ReadObject();
      } else if token.kind == Spec.ArrayBegin {
        status := ReadArray();
      } else if Spec.EndsValue(token.kind) && env.f.allowDroppedNullPlaceholders {
        SupplyNull(token.text);
        EndOfAppend(errors, []);
        status := Returned(true);
      } else {
        status := ReadScalar(ok, token);
      }
    }

    /** Takes back a token of one byte, in front of which a null was dropped. */
    method SupplyNull(text: Bytes)
      requires InDocument() && nodes != [] && |text| == 1 <= current && text == document[current - 1..current]
      modifies this`current, this`nodes
      ensures InDocument() && current == old(current) - 1 && Remaining() == text + old(Remaining())
      ensures nodes == old(nodes)[..|old(nodes)| - 1] + [Null]
    {
      UnreadOne(document, current, text);
      current := current - 1;
      SetCurrentValue(Null);
    }

    /** Reads a value into a new node that starts as `v0`, and takes it off the stack again. */
    method ReadChild(v0: Value) returns (status: Status, child: Value)
      requires InDocument()
      modifies this`current, this`nodes, this`errors
      ensures InDocument() && current >= old(current)
      ensures ChildAfter(status, child, Spec.ReadValue(old(Remaining()), |old(nodes)| + 1, v0, env),
                         old(nodes), old(errors))
      decreases |document| - current, 3
    {
      DropLastAppend(nodes, v0);
      nodes := nodes + [v0];
      status := ReadValue();
      child := v0;
      if status.Returned? {
        DropLastAppend(old(nodes), CurrentValue());
        child := Pop();
      }
    }

    ghost predicate ChildAfter(status: Status, child: Value, r: Spec.Outcome, stack: seq<Value>, before: seq<Error>)
      reads this
    {
      match r
      case Thrown(exception) => status == Threw(exception) && errors == before
      case Done(ok, value, rest, found) =>
        && status == Returned(ok) && child == value
        && InDocument() && Remaining() == rest
        && nodes == stack
        && errors == before + found
    }

    method ReadArray() returns (status: Status)
      requires InDocument() && nodes != []
      modifies this`current, this`nodes, this`errors
      ensures InDocument() && current >= old(current)
      ensures After(status, Spec.ReadArray(old(Remaining()), |old(nodes)|, [], env),
                    old(nodes)[..|old(nodes)| - 1], old(errors))
      decreases |document| - current, 5
    {
      ghost var base, before, depth := nodes[..|nodes| - 1], errors, |nodes|;
      ghost var goal := Spec.ReadArray(Remaining(), depth, [], env);
      SetCurrentValue(Arr([]));
      var items: seq<Value> := [];
      var more := true;
      status := Returned(true);
      while more
        invariant InDocument() && current >= old(current)
        invariant more ==> nodes == base + [Arr(items)] && errors == before
        invariant more ==> Spec.ReadArray(Remaining(), depth, items, env) == goal
        invariant !more ==> After(status, goal, base, before)
        decreases if more then |document| - current + 1 else 0
      {
        var closed := ReachElement(items, depth);
        if closed {
          status, more := Returned(true), false;
        } else {
          status, items, more := ReadElement(items, base);
        }
      }
    }

    /** Skips to the next element, or past the bracket that closes the array. */
    method ReachElement(items: seq<Value>, ghost depth: nat) returns (closed: bool)
      requires InDocument()
      modifies this`current
      ensures InDocument() && current >= old(current)
      ensures Spec.ReadArray(old(Remaining()), depth, items, env)
           == if closed then Spec.Done(true, Arr(items), Remaining(), [])
              else Spec.ReadElement(Remaining(), depth, items, env)
    {
      ArraySpaces(Remaining(), depth, items, env);
      SkipSpaces();
      closed := Spec.ClosesArray(Remaining(), items, env.f);
      if closed {
        ArrayCloses(Remaining(), depth, items, env);
        var _, _ := ReadToken();
      } else {
        ArrayGoesOn(Remaining(), depth, items, env);
      }
    }

    /** Reads one element and the comma or bracket after it. */
    method ReadElement(items: seq<Value>, ghost base: seq<Value>)
      returns (status: Status, extended: seq<Value>, more: bool)
      requires InDocument() && nodes == base + [Arr(items)]
      modifies this`current, this`nodes, this`errors
      ensures InDocument() && current >= old(current)
      ensures more ==> current > old(current) && nodes == base + [Arr(extended)] && errors == old(errors)
      ensures more ==>
                Spec.ReadElement(old(Remaining()), |base| + 1, items, env)
                == Spec.ReadArray(Remaining(), |base| + 1, extended, env)
      ensures !more ==> After(status, Spec.ReadElement(old(Remaining()), |base| + 1, items, env), base, old(errors))
      decreases |document| - current, 4
    {
      ghost var v := Spec.ReadValue(Remaining(), |nodes| + 1, Null, env);
      var child;
      status, child := ReadChild(Null);
      more, extended := false, items + [child];
      if status.Threw? {
        return;
      }
      ghost var found := v.errors;
      EndOfAppend(old(errors), found);
      DropLastAppend(base, Arr(items));
      status, more := EndElement(status.ok, extended, base, old(errors), found);
    }

    /** Stores an element that was read and goes on, or gives up on the array. */
    method EndElement(
        read: bool, items: seq<Value>, ghost base: seq<Value>, ghost before: seq<Error>, ghost found: seq<Error>)
      returns (status: Status, more: bool)
      requires InDocument() && nodes != [] && nodes[..|nodes| - 1] == base
      requires errors == before + found && (read ==> errors == before)
      modifies this`current, this`nodes, this`errors
      ensures InDocument() && current >= old(current)
      ensures more ==> read && current > old(current) && nodes == base + [Arr(items)] && errors == before
      ensures more ==>
                Spec.AfterElement(old(Remaining()), |base| + 1, items, env)
                == Spec.ReadArray(Remaining(), |base| + 1, items, env)
      ensures !more ==>
                After(status,
                      if read then Spec.AfterElement(old(Remaining()), |base| + 1, items, env)
                      else Spec.Abandon(Arr(items), old(Remaining()), Spec.ArrayEnd, found, env.f),
                      base, before)
    {
      SetCurrentValue(Arr(items));
      if read {
        status, more := ReadAfterElement(items, base);
      } else {
        status := Abandon(Spec.ArrayEnd);
        more := false;
      }
    }

    method ReadAfterElement(items: seq<Value>, ghost base: seq<Value>) returns (status: Status, more: bool)
      requires InDocument() && nodes == base + [Arr(items)]
      modifies this`current, this`errors
      ensures InDocument() && current >= old(current)
      ensures more ==> current > old(current) && errors == old(errors)
      ensures more ==>
                Spec.AfterElement(old(Remaining()), |base| + 1, items, env)
                == Spec.ReadArray(Remaining(), |base| + 1, items, env)
      ensures !more ==> After(status, Spec.AfterElement(old(Remaining()), |base| + 1, items, env), base, old(errors))
    {
      var ok, token := ReadTokenPastComments();
      status, more := Returned(true), token.kind == Spec.ArraySeparator;
      if token.kind != Spec.ArrayEnd && token.kind != Spec.ArraySeparator {
        errors := errors + [Spec.MissingCommaOrBracket];
        status := Abandon(Spec.ArrayEnd);
      }
    }

    method ReadObject() returns (status: Status)
      requires InDocument() && nodes != []
      modifies this`current, this`nodes, this`errors
      ensures InDocument() && current >= old(current)
      ensures After(status, Spec.ReadObject(old(Remaining()), |old(nodes)|, [], [], env),
                    old(nodes)[..|old(nodes)| - 1], old(errors))
      decreases |document| - current, 8
    {
      ghost var base, before, depth := nodes[..|nodes| - 1], errors, |nodes|;
      ghost var goal := Spec.ReadObject(Remaining(), depth, [], [], env);
      SetCurrentValue(Obj([]));
      var name: Bytes, ms: seq<Member> := [], [];
      var more := true;
      status := Returned(true);
      while more
        invariant InDocument() && current >= old(current)
        invariant more ==> nodes == base + [Obj(ms)] && errors == before
        invariant more ==> Spec.ReadObject(Remaining(), depth, name, ms, env) == goal
        invariant !more ==> After(status, goal, base, before)
        decreases if more then |document| - current + 1 else 0
      {
        status, name, ms, more := NextMember(name, ms, base);
      }
    }

    /** Reads one member, or the brace that closes the object. */
    method NextMember(name: Bytes, ms: seq<Member>, ghost base: seq<Value>)
      returns (status: Status, key: Bytes, extended: seq<Member>, more: bool)
      requires InDocument() && nodes == base + [Obj(ms)]
      modifies this`current, this`nodes, this`errors
      ensures InDocument() && current >= old(current)
      ensures more ==> current > old(current) && nodes == base + [Obj(extended)] && errors == old(errors)
      ensures more ==>
                Spec.ReadObject(old(Remaining()), |base| + 1, name, ms, env)
                == Spec.ReadObject(Remaining(), |base| + 1, key, extended, env)
      ensures !more ==> After(status, Spec.ReadObject(old(Remaining()), |base| + 1, name, ms, env), base, old(errors))
      decreases |document| - current, 7
    {
      var ok, token := ReadTokenPastComments();
      if token.kind == Spec.ObjectEnd && (name == [] || env.f.allowTrailingCommas) {
        EndOfAppend(errors, []);
        status, key, extended, more := Returned(true), name, ms, false;
      } else {
        status, key, extended, more := ReadNamed(ok, token, ms, base);
      }
    }

    /** The member name a token stands for. */
    method ReadName(token: Spec.Token) returns (name: Spec.Name)
      requires token.kind == Spec.StringToken ==> |token.text| >= 2
      requires token.kind == Spec.NumberToken ==> token.text != []
      ensures name == Spec.ReadName(token, env)
    {
      if token.kind == Spec.StringToken {
        var text := StringCode.DecodeString(token.text);
        match text {
          case GoodText(decoded) => return Spec.GoodName(decoded);
          case BadText(error) => return Spec.NoName([Spec.BadString(error)]);
        }
      } else if token.kind == Spec.NumberToken && env.f.allowNumericKeys {
        var number := JsonNumbers.DecodeNumber(token.text);
        match number {
          case IntNumber(i) =>
            var text := ValueToString(i);
            return Spec.GoodName(text);
          case UIntNumber(u) =>
            var text := UnsignedValueToString(u);
            return Spec.GoodName(text);
          case NotInteger =>
            return if env.isDouble(token.text) then Spec.GoodName(env.doubleText(token.text))
                   else Spec.NoName([Spec.NotANumber]);
        }
      }
      return Spec.NoName([Spec.MissingNameOrBrace]);
    }

    method ReadNamed(ok: bool, token: Spec.Token, ms: seq<Member>, ghost base: seq<Value>)
      returns (status: Status, key: Bytes, extended: seq<Member>, more: bool)
      requires InDocument() && nodes == base + [Obj(ms)]
      requires token.kind == Spec.StringToken ==> |token.text| >= 2
      requires token.kind == Spec.NumberToken ==> token.text != []
      modifies this`current, this`nodes, this`errors
      ensures InDocument() && current >= old(current)
      ensures more ==> current > old(current) && nodes == base + [Obj(extended)] && errors == old(errors)
      ensures more ==>
                Spec.ReadNamed(Spec.Lexed(ok, token, old(Remaining())), |base| + 1, ms, env)
                == Spec.ReadObject(Remaining(), |base| + 1, key, extended, env)
      ensures !more ==>
                After(status, Spec.ReadNamed(Spec.Lexed(ok, token, old(Remaining())), |base| + 1, ms, env), base,
                    old(errors))
      decreases |document| - current, 6
    {
      status, key, extended, more := Returned(false), [], ms, false;
      var name := ReadName(token);
      if name.NoName? {
        errors := errors + name.errors;
        status := Abandon(Spec.ObjectEnd);
      } else if |name.key| >= Spec.KEY_LIMIT {
        status := Threw(Spec.KeyTooLong);
      } else if env.f.rejectDupKeys && HasMember(ms, name.key) {
        errors := errors + [Spec.DuplicateKey(name.key)];
        status := Abandon(Spec.ObjectEnd);
      } else {
        key := name.key;
        status, extended, more := ReadMember(key, ms, base);
      }
    }

    method ReadMember(key: Bytes, ms: seq<Member>, ghost base: seq<Value>)
      returns (status: Status, extended: seq<Member>, more: bool)
      requires InDocument() && nodes == base + [Obj(ms)]
      modifies this`current, this`nodes, this`errors
      ensures InDocument() && current >= old(current)
      ensures more ==> current > old(current) && nodes == base + [Obj(extended)] && errors == old(errors)
      ensures more ==>
                Spec.ReadMember(old(Remaining()), |base| + 1, key, ms, env)
                == Spec.ReadObject(Remaining(), |base| + 1, key, extended, env)
      ensures !more ==> After(status, Spec.ReadMember(old(Remaining()), |base| + 1, key, ms, env), base, old(errors))
      decreases |document| - current, 5
    {
      var ok, colon := ReadToken();
      if colon.kind == Spec.MemberSeparator {
        status, extended, more := ReadMemberValue(key, ms, base);
      } else {
        errors := errors + [Spec.MissingColon];
        extended, more := ms, false;
        status := Abandon(Spec.ObjectEnd);
      }
    }

    method ReadMemberValue(key: Bytes, ms: seq<Member>, ghost base: seq<Value>)
      returns (status: Status, extended: seq<Member>, more: bool)
      requires InDocument() && nodes == base + [Obj(ms)]
      modifies this`current, this`nodes, this`errors
      ensures InDocument() && current >= old(current)
      ensures more ==> current > old(current) && nodes == base + [Obj(extended)] && errors == old(errors)
      ensures more ==>
                Spec.ReadMemberValue(old(Remaining()), |base| + 1, key, ms, env)
                == Spec.ReadObject(Remaining(), |base| + 1, key, extended, env)
      ensures !more ==>
                After(status, Spec.ReadMemberValue(old(Remaining()), |base| + 1, key, ms, env), base, old(errors))
      decreases |document| - current, 4
    {
      ghost var v := Spec.ReadValue(Remaining(), |nodes| + 1, GetMember(ms, key), env);
      var child;
      status, child := ReadChild(GetMember(ms, key));
      more, extended := false, SetMember(ms, key, child);
      if status.Threw? {
        return;
      }
      ghost var found := v.errors;
      EndOfAppend(old(errors), found);
      DropLastAppend(base, Obj(ms));
      status, more := EndMember(status.ok, key, extended, base, old(errors), found);
    }

    /** Stores a member that was read and goes on, or gives up on the object. */
    method EndMember(
        read: bool, key: Bytes, ms: seq<Member>,
        ghost base: seq<Value>, ghost before: seq<Error>, ghost found: seq<Error>)
      returns (status: Status, more: bool)
      requires InDocument() && nodes != [] && nodes[..|nodes| - 1] == base
      requires errors == before + found && (read ==> errors == before)
      modifies this`current, this`nodes, this`errors
      ensures InDocument() && current >= old(current)
      ensures more ==> read && current > old(current) && nodes == base + [Obj(ms)] && errors == before
      ensures more ==>
                Spec.AfterMember(old(Remaining()), |base| + 1, key, ms, env)
                == Spec.ReadObject(Remaining(), |base| + 1, key, ms, env)
      ensures !more ==>
                After(status,
                      if read then Spec.AfterMember(old(Remaining()), |base| + 1, key, ms, env)
                      else Spec.Abandon(Obj(ms), old(Remaining()), Spec.ObjectEnd, found, env.f),
                      base, before)
    {
      SetCurrentValue(Obj(ms));
      if read {
        status, more := ReadAfterMember(key, ms, base);
      } else {
        status := Abandon(Spec.ObjectEnd);
        more := false;
      }
    }

    method ReadAfterMember(key: Bytes, ms: seq<Member>, ghost base: seq<Value>) returns (status: Status, more: bool)
      requires InDocument() && nodes == base + [Obj(ms)]
      modifies this`current, this`errors
      ensures InDocument() && current >= old(current)
      ensures more ==> current > old(current) && errors == old(errors)
      ensures more ==>
                Spec.AfterMember(old(Remaining()), |base| + 1, key, ms, env)
                == Spec.ReadObject(Remaining(), |base| + 1, key, ms, env)
      ensures !more ==> After(status, Spec.AfterMember(old(Remaining()), |base| + 1, key, ms, env), base, old(errors))
    {
      status, more := Returned(true), false;
      var ok, comma := ReadToken();
      if comma.kind != Spec.ObjectEnd && comma.kind != Spec.ArraySeparator && comma.kind != Spec.CommentToken {
        errors := errors + [Spec.MissingCommaOrBrace];
        status := Abandon(Spec.ObjectEnd);
        return;
      }
      if comma.kind == Spec.CommentToken {
        ok, comma := ReadTokenPastComments();
      }
      more := comma.kind != Spec.ObjectEnd;
    }

    /** Reads a document into `root`: the new root, and whether it is to be trusted. */
    method Parse(document: Bytes, root: Value) returns (status: Status, value: Value)
      modifies this
      ensures this.document == document
      ensures (match Spec.Parse(document, root, env)
               case Thrown(exception) => status == Threw(exception) && errors == [] && InDocument()
               case Done(ok, v, rest, found) =>
                 status == Returned(ok) && value == v && errors == found && InDocument() && Remaining() == rest)
    {
      this.document := document;
      current, errors, nodes := 0, [], [];
      SkipBom();
      ghost var v := Spec.ReadValue(Remaining(), 1, root, env);
      status, value := ReadChild(root);
      if status.Returned? {
        assert errors == v.errors;
        assert Spec.Done(status.ok, value, Remaining(), errors) == v;
        status := FinishParse(status.ok, value);
      }
    }

    method SkipBom()
      requires current == 0
      modifies this`current
      ensures InDocument() && Remaining() == Spec.SkipBom(document, env.f)
    {
      if env.f.skipBom && Spec.BOM <= document {
        current := 3;
      }
    }

    /** The checks after the root value. */
    method FinishParse(successful: bool, value: Value) returns (status: Status)
      requires InDocument()
      modifies this`current, this`errors
      ensures InDocument() && Remaining() == Spec.SkipCommentTokens(old(Remaining()), env.f).rest
      ensures (var r := Spec.Finish(Spec.Done(successful, value, old(Remaining()), old(errors)), env);
               status == Returned(r.ok) && errors == r.errors && Remaining() == r.rest)
    {
      var ok, token := SkipCommentTokens();
      if env.f.failIfExtra && token.kind != Spec.EndOfStream {
        errors := errors + [Spec.ExtraText];
        return Returned(false);
      }
      if env.f.strictRoot && !Spec.IsContainer(value) {
        errors := errors + [Spec.RootNotContainer];
        return Returned(false);
      }
      return Returned(successful);
    }
  }

  lemma {:induction false} UnreadOne(d: Bytes, p: nat, text: Bytes)
    requires |text| == 1 && 1 <= p <= |d| && text == d[p - 1..p]
    ensures d[p - 1..] == text + d[p..]
  {
  }

  lemma {:induction false} EndOfAppend<T>(s: seq<T>, t: seq<T>)
    ensures t == [] ==> s + t == s
  {
  }

  lemma {:induction false} DropLastAppend<T>(s: seq<T>, x: T)
    ensures (s + [x])[..|s + [x]| - 1] == s && (s + [x])[|s + [x]| - 1] == x
  {
  }

  lemma {:induction false} TakeLast<T>(s: seq<T>)
    requires s != []
    ensures s == s[..|s| - 1] + [s[|s| - 1]]
  {
  }
}
