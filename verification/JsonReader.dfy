/**
  What the JSON reader computes, as functions of the input still to be read: tokens, values,
  errors and the input left over. `rest` is always what lies from the reader's position on.
 */
module JsonReader {
  import opened JsonStrings
  import opened JsonNumbers
  import opened JsonValues

  datatype Features = Features(
    allowComments: bool,
    allowTrailingCommas: bool,
    strictRoot: bool,
    allowDroppedNullPlaceholders: bool,
    allowNumericKeys: bool,
    allowSingleQuotes: bool,
    failIfExtra: bool,
    rejectDupKeys: bool,
    allowSpecialFloats: bool,
    skipBom: bool,
    stackLimit: nat)

  /** The settings, and what the C library says of doubles: whether a text parses, and its printed form. */
  datatype Env = Env(f: Features, isDouble: Bytes -> bool, doubleText: Bytes -> Bytes)

  const LBRACE: Byte := 0x7B
  const RBRACE: Byte := 0x7D
  const LBRACKET: Byte := 0x5B
  const RBRACKET: Byte := 0x5D
  const COMMA: Byte := 0x2C
  const COLON: Byte := 0x3A
  const APOSTROPHE: Byte := 0x27
  const STAR: Byte := 0x2A
  const PLUS: Byte := 0x2B
  const DOT: Byte := 0x2E
  const SPACE: Byte := 0x20
  const TAB: Byte := 0x09
  const LINE_FEED: Byte := 0x0A
  const CARRIAGE_RETURN: Byte := 0x0D
  const LOWER_E: Byte := 0x65
  const UPPER_E: Byte := 0x45
  const UPPER_I: Byte := 0x49
  const UPPER_N: Byte := 0x4E

  const RUE: Bytes := [0x72, 0x75, 0x65]
  const ALSE: Bytes := [0x61, 0x6C, 0x73, 0x65]
  const ULL: Bytes := [0x75, 0x6C, 0x6C]
  const AN: Bytes := [0x61, 0x4E]
  const NFINITY: Bytes := [0x6E, 0x66, 0x69, 0x6E, 0x69, 0x74, 0x79]
  const BOM: Bytes := [0xEF, 0xBB, 0xBF]

  // ---------- Scanners ----------

  predicate IsSpace(c: Byte) { c == SPACE || c == TAB || c == CARRIAGE_RETURN || c == LINE_FEED }

  function SkipSpaces(s: Bytes): (r: Bytes)
    ensures |r| <= |s|
    ensures r != [] ==> !IsSpace(r[0])
  {
    if s != [] && IsSpace(s[0]) then SkipSpaces(s[1..]) else s
  }

  function Match(s: Bytes, pattern: Bytes): Scan {
    if pattern <= s then Scan(true, s[|pattern|..]) else Scan(false, s)
  }

  function SkipDigits(s: Bytes): (r: Bytes)
    ensures |r| <= |s|
  {
    if s != [] && IsDigit(s[0]) then SkipDigits(s[1..]) else s
  }

  function SkipFraction(s: Bytes): (r: Bytes)
    ensures |r| <= |s|
  {
    if s != [] && s[0] == DOT then SkipDigits(s[1..]) else s
  }

  function SkipExponent(s: Bytes): (r: Bytes)
    ensures |r| <= |s|
  {
    if s != [] && (s[0] == LOWER_E || s[0] == UPPER_E) then
      if |s| > 1 && (s[1] == PLUS || s[1] == MINUS) then SkipDigits(s[2..]) else SkipDigits(s[1..])
    else s
  }

  /** What follows the first character of a number. */
  function SkipNumber(s: Bytes): (r: Bytes)
    ensures |r| <= |s|
  {
    SkipExponent(SkipFraction(SkipDigits(s)))
  }

  /**
    A C comment after its opening. The scan looks for the end only while two characters are left,
    so a last character `/` also closes the comment.
   */
  function ScanCStyleComment(s: Bytes): (r: Scan)
    ensures |r.rest| <= |s|
  {
    if s == [] then Scan(false, [])
    else if |s| == 1 then Scan(s[0] == SLASH, [])
    else if s[0] == STAR && s[1] == SLASH then Scan(true, s[2..])
    else ScanCStyleComment(s[1..])
  }

  /** A C++ comment after its opening, up to and including the end of the line. */
  function SkipCppStyleComment(s: Bytes): (r: Bytes)
    ensures |r| <= |s|
  {
    if s == [] then []
    else if s[0] == LINE_FEED then s[1..]
    else if s[0] == CARRIAGE_RETURN then
      if |s| > 1 && s[1] == LINE_FEED then s[2..] else s[1..]
    else SkipCppStyleComment(s[1..])
  }

  function ScanComment(s: Bytes): (r: Scan)
    ensures |r.rest| <= |s|
  {
    if s == [] then Scan(false, [])
    else if s[0] == STAR then ScanCStyleComment(s[1..])
    else if s[0] == SLASH then Scan(true, SkipCppStyleComment(s[1..]))
    else Scan(false, s[1..])
  }

  // ---------- Tokens ----------

  datatype TokenType =
    | EndOfStream | ObjectBegin | ObjectEnd | ArrayBegin | ArrayEnd | StringToken | NumberToken
    | TrueToken | FalseToken | NullToken | NaNToken | PosInfToken | NegInfToken
    | ArraySeparator | MemberSeparator | CommentToken | ErrorToken

  datatype Token = Token(kind: TokenType, text: Bytes)

  datatype Lexed = Lexed(ok: bool, token: Token, rest: Bytes)

  /** A token type and the scan of the characters after the first one. */
  datatype Started = Started(kind: TokenType, scan: Scan)

  /** After a sign: a number, or `Infinity` where special floats are allowed. */
  function Signed(infinity: TokenType, s: Bytes, f: Features): (r: Started)
    requires infinity == PosInfToken || infinity == NegInfToken
    ensures |r.scan.rest| <= |s|
    ensures r.kind == NumberToken || r.kind == infinity
  {
    if s != [] && s[0] == UPPER_I then
      Started(infinity, if f.allowSpecialFloats then Match(s[1..], NFINITY) else Scan(false, s[1..]))
    else Started(NumberToken, Scan(true, SkipNumber(s)))
  }

  /** The token that starts with `c`; an apostrophe that is no quote is taken for a slash. */
  function Start(c: Byte, s: Bytes, f: Features): (r: Started)
    ensures |r.scan.rest| <= |s|
    ensures r.scan.ok && r.kind == StringToken ==> |r.scan.rest| < |s|
    ensures r.scan.ok ==> (r.kind == EndOfStream <==> c == 0)
    ensures r.scan.ok ==> r.kind != ErrorToken
  {
    if c == QUOTE then Started(StringToken, ScanString(s, QUOTE))
    else if c == COMMA then Started(ArraySeparator, Scan(true, s))
    else if c == COLON then Started(MemberSeparator, Scan(true, s))
    else if c == LBRACE then Started(ObjectBegin, Scan(true, s))
    else if c == RBRACE then Started(ObjectEnd, Scan(true, s))
    else if c == LBRACKET then Started(ArrayBegin, Scan(true, s))
    else if c == RBRACKET then Started(ArrayEnd, Scan(true, s))
    else if IsDigit(c) then Started(NumberToken, Scan(true, SkipNumber(s)))
    else if c == MINUS then Signed(NegInfToken, s, f)
    else if c == PLUS then Signed(PosInfToken, s, f)
    else if c == LOWER_T then Started(TrueToken, Match(s, RUE))
    else if c == LOWER_F then Started(FalseToken, Match(s, ALSE))
    else if c == LOWER_N then Started(NullToken, Match(s, ULL))
    else if c == UPPER_N && f.allowSpecialFloats then Started(NaNToken, Match(s, AN))
    else if c == UPPER_I && f.allowSpecialFloats then Started(PosInfToken, Match(s, NFINITY))
    else if c == APOSTROPHE && f.allowSingleQuotes then Started(StringToken, ScanString(s, APOSTROPHE))
    else if c == APOSTROPHE || c == SLASH then Started(CommentToken, ScanComment(s))
    else if c == 0 then Started(EndOfStream, Scan(true, s))
    else Started(ErrorToken, Scan(false, s))
  }

  /** The next token, after any white space. A zero byte reads as the end of the stream. */
  function Lex(s: Bytes, f: Features): (r: Lexed)
    ensures |r.token.text| + |r.rest| <= |s|
    ensures r.token.kind != EndOfStream ==> |r.rest| < |s|
    ensures r.ok <==> r.token.kind != ErrorToken
    ensures r.token.kind == StringToken ==> |r.token.text| >= 2
    ensures r.token.kind != EndOfStream ==> r.token.text != []
    decreases |s|, 1
  {
    if s == [] then Lexed(true, Token(EndOfStream, []), []) else LexCharacter(s, f)
  }

  function LexCharacter(s: Bytes, f: Features): (r: Lexed)
    requires s != []
    ensures |r.token.text| + |r.rest| <= |s|
    ensures r.token.kind != EndOfStream ==> |r.rest| < |s|
    ensures r.ok <==> r.token.kind != ErrorToken
    ensures r.token.kind == StringToken ==> |r.token.text| >= 2
    ensures r.token.kind != EndOfStream ==> r.token.text != []
    decreases |s|, 0
  {
    if IsSpace(s[0]) then Lex(s[1..], f)
    else
      var t := Start(s[0], s[1..], f);
      Lexed(t.scan.ok,
            Token(if t.scan.ok then t.kind else ErrorToken, s[..|s| - |t.scan.rest|]),
            t.scan.rest)
  }

  /** The first token that is not a comment. */
  function LexPastComments(s: Bytes, f: Features): (r: Lexed)
    ensures |r.token.text| + |r.rest| <= |s|
    ensures r.token.kind != EndOfStream ==> |r.rest| < |s|
    ensures r.ok <==> r.token.kind != ErrorToken
    ensures r.token.kind == StringToken ==> |r.token.text| >= 2
    ensures r.token.kind != EndOfStream ==> r.token.text != []
    ensures r.token.kind != CommentToken
    decreases |s|
  {
    var t := Lex(s, f);
    if t.token.kind == CommentToken then LexPastComments(t.rest, f) else t
  }

  function SkipCommentTokens(s: Bytes, f: Features): (r: Lexed)
    ensures |r.token.text| + |r.rest| <= |s|
    ensures r.token.kind != EndOfStream ==> |r.rest| < |s|
    ensures r.token.kind == StringToken ==> |r.token.text| >= 2
    ensures r.token.kind != EndOfStream ==> r.token.text != []
  {
    if f.allowComments then LexPastComments(s, f) else Lex(s, f)
  }

  /** Error recovery: reads on until a token of the wanted type or the end. */
  function Recover(s: Bytes, until: TokenType, f: Features): (r: Bytes)
    ensures |r| <= |s|
    decreases |s|
  {
    var t := Lex(s, f);
    if t.token.kind == until || t.token.kind == EndOfStream then t.rest else Recover(t.rest, until, f)
  }

  // ---------- Values ----------

  datatype Error =
    | ValueExpected
    | NotANumber
    | BadString(error: TextError)
    | DuplicateKey(key: Bytes)
    | MissingColon
    | MissingCommaOrBrace
    | MissingNameOrBrace
    | MissingCommaOrBracket
    | ExtraText
    | RootNotContainer

  datatype Exception = StackLimitExceeded | KeyTooLong

  datatype Outcome =
    | Thrown(exception: Exception)
    | Done(ok: bool, value: Value, rest: Bytes, errors: seq<Error>)

  const KEY_LIMIT: int := 0x4000_0000

  /** Gives up on a container: keeps what it holds so far and skips past its end. */
  function Abandon(value: Value, s: Bytes, until: TokenType, errors: seq<Error>, f: Features): (r: Outcome)
    ensures r.Done? && |r.rest| <= |s| && !r.ok
  {
    Done(false, value, Recover(s, until, f), errors)
  }

  /** A scalar token read into a value that was `v0`. */
  function ReadScalar(t: Lexed, v0: Value, e: Env): (r: Outcome)
    requires t.token.kind == StringToken ==> |t.token.text| >= 2
    requires t.token.kind == NumberToken ==> t.token.text != []
    ensures r.Done? && r.rest == t.rest && (r.ok ==> r.errors == [])
  {
    match t.token.kind
    case NumberToken =>
      (match NumberMeaning(t.token.text)
       case IntNumber(i) => Done(true, Int(i), t.rest, [])
       case UIntNumber(u) => Done(true, UInt(u), t.rest, [])
       case NotInteger =>
         if e.isDouble(t.token.text) then Done(true, Real(t.token.text), t.rest, [])
         else Done(false, v0, t.rest, [NotANumber]))
    case StringToken =>
      (match DecodeText(t.token.text[1..|t.token.text| - 1])
       case GoodText(text) => Done(true, Str(text), t.rest, [])
       case BadText(error) => Done(false, v0, t.rest, [BadString(error)]))
    case TrueToken => Done(true, Bool(true), t.rest, [])
    case FalseToken => Done(true, Bool(false), t.rest, [])
    case NullToken => Done(true, Null, t.rest, [])
    case NaNToken => Done(true, Real(t.token.text), t.rest, [])
    case PosInfToken => Done(true, Real(t.token.text), t.rest, [])
    case NegInfToken => Done(true, Real(t.token.text), t.rest, [])
    case _ => Done(false, v0, t.rest, [ValueExpected])
  }

  predicate EndsValue(kind: TokenType) {
    kind == ArraySeparator || kind == ObjectEnd || kind == ArrayEnd
  }

  predicate BeginsContainer(kind: TokenType) { kind == ObjectBegin || kind == ArrayBegin }

  /** Reads a value at nesting depth `depth` into a place that holds `v0`. */
  function ReadValue(s: Bytes, depth: nat, v0: Value, e: Env): (r: Outcome)
    ensures r.Done? ==> |r.rest| <= |s| && (r.ok ==> r.errors == [])
    decreases |s|, 1
  {
    if depth > e.f.stackLimit then Thrown(StackLimitExceeded) else ReadWithinLimit(s, depth, v0, e)
  }

  function ReadWithinLimit(s: Bytes, depth: nat, v0: Value, e: Env): (r: Outcome)
    ensures r.Done? ==> |r.rest| <= |s| && (r.ok ==> r.errors == [])
    decreases |s|, 0
  {
    var t := SkipCommentTokens(s, e.f);
    if t.token.kind == ObjectBegin then ReadObject(t.rest, depth, [], [], e)
    else if t.token.kind == ArrayBegin then ReadArray(t.rest, depth, [], e)
    else if EndsValue(t.token.kind) && e.f.allowDroppedNullPlaceholders then
      Done(true, Null, t.token.text + t.rest, [])
    else ReadScalar(t, v0, e)
  }

  /** Whether a bracket in front of an element, with `items` before it, closes the array. */
  predicate ClosesArray(s: Bytes, items: seq<Value>, f: Features) {
    s != [] && s[0] == RBRACKET && (items == [] || (f.allowTrailingCommas && !f.allowDroppedNullPlaceholders))
  }

  /** Reads array elements and the closing bracket; `items` are the elements read so far. */
  function ReadArray(s: Bytes, depth: nat, items: seq<Value>, e: Env): (r: Outcome)
    ensures r.Done? ==> |r.rest| <= |s| && (r.ok ==> r.errors == [])
    decreases |s|, 4
  {
    var s1 := SkipSpaces(s);
    if ClosesArray(s1, items, e.f) then Done(true, Arr(items), s1[1..], [])
    else ReadElement(s1, depth, items, e)
  }

  function ReadElement(s: Bytes, depth: nat, items: seq<Value>, e: Env): (r: Outcome)
    ensures r.Done? ==> |r.rest| <= |s| && (r.ok ==> r.errors == [])
    decreases |s|, 3
  {
    var v := ReadValue(s, depth + 1, Null, e);
    if v.Thrown? then v
    else if v.ok then AfterElement(v.rest, depth, items + [v.value], e)
    else Abandon(Arr(items + [v.value]), v.rest, ArrayEnd, v.errors, e.f)
  }

  function AfterElement(s: Bytes, depth: nat, items: seq<Value>, e: Env): (r: Outcome)
    ensures r.Done? ==> |r.rest| <= |s| && (r.ok ==> r.errors == [])
    decreases |s|, 2
  {
    var t := LexPastComments(s, e.f);
    if t.token.kind == ArrayEnd then Done(true, Arr(items), t.rest, [])
    else if t.token.kind == ArraySeparator then ReadArray(t.rest, depth, items, e)
    else Abandon(Arr(items), t.rest, ArrayEnd, [MissingCommaOrBracket], e.f)
  }

  datatype Name = NoName(errors: seq<Error>) | GoodName(key: Bytes)

  /** The member name that a token stands for. */
  function ReadName(t: Token, e: Env): Name
    requires t.kind == StringToken ==> |t.text| >= 2
    requires t.kind == NumberToken ==> t.text != []
  {
    if t.kind == StringToken then
      match DecodeText(t.text[1..|t.text| - 1])
      case GoodText(text) => GoodName(text)
      case BadText(error) => NoName([BadString(error)])
    else if t.kind == NumberToken && e.f.allowNumericKeys then
      match NumberMeaning(t.text)
      case IntNumber(i) => GoodName(IntText(i as int))
      case UIntNumber(u) => GoodName(Decimal(u as nat))
      case NotInteger =>
        if e.isDouble(t.text) then GoodName(e.doubleText(t.text)) else NoName([NotANumber])
    else NoName([MissingNameOrBrace])
  }

  /**
    Reads object members and the closing brace. `name` is the previous member's key: a brace that
    follows a comma is accepted when that key is empty, whatever the settings.
   */
  function ReadObject(s: Bytes, depth: nat, name: Bytes, ms: seq<Member>, e: Env): (r: Outcome)
    ensures r.Done? ==> |r.rest| <= |s| && (r.ok ==> r.errors == [])
    decreases |s|, 5
  {
    var t := LexPastComments(s, e.f);
    if t.token.kind == ObjectEnd && (name == [] || e.f.allowTrailingCommas) then
      Done(true, Obj(ms), t.rest, [])
    else ReadNamed(t, depth, ms, e)
  }

  /** Reads a member whose name is the token `t`. */
  function ReadNamed(t: Lexed, depth: nat, ms: seq<Member>, e: Env): (r: Outcome)
    requires t.token.kind == StringToken ==> |t.token.text| >= 2
    requires t.token.kind == NumberToken ==> t.token.text != []
    ensures r.Done? ==> |r.rest| <= |t.rest| && (r.ok ==> r.errors == [])
    decreases |t.rest|, 4
  {
    var n := ReadName(t.token, e);
    if n.NoName? then Abandon(Obj(ms), t.rest, ObjectEnd, n.errors, e.f)
    else if |n.key| >= KEY_LIMIT then Thrown(KeyTooLong)
    else if e.f.rejectDupKeys && HasMember(ms, n.key) then
      Abandon(Obj(ms), t.rest, ObjectEnd, [DuplicateKey(n.key)], e.f)
    else ReadMember(t.rest, depth, n.key, ms, e)
  }

  /** Reads the colon and what follows it after a member name. */
  function ReadMember(s: Bytes, depth: nat, key: Bytes, ms: seq<Member>, e: Env): (r: Outcome)
    ensures r.Done? ==> |r.rest| <= |s| && (r.ok ==> r.errors == [])
    decreases |s|, 3
  {
    var colon := Lex(s, e.f);
    if colon.token.kind == MemberSeparator then ReadMemberValue(colon.rest, depth, key, ms, e)
    else Abandon(Obj(ms), colon.rest, ObjectEnd, [MissingColon], e.f)
  }

  function ReadMemberValue(s: Bytes, depth: nat, key: Bytes, ms: seq<Member>, e: Env): (r: Outcome)
    ensures r.Done? ==> |r.rest| <= |s| && (r.ok ==> r.errors == [])
    decreases |s|, 2
  {
    var v := ReadValue(s, depth + 1, GetMember(ms, key), e);
    if v.Thrown? then v
    else if v.ok then AfterMember(v.rest, depth, key, SetMember(ms, key, v.value), e)
    else Abandon(Obj(SetMember(ms, key, v.value)), v.rest, ObjectEnd, v.errors, e.f)
  }

  /** After a comment in this place any token but a closing brace is taken for the comma. */
  function AfterMember(s: Bytes, depth: nat, key: Bytes, ms: seq<Member>, e: Env): (r: Outcome)
    ensures r.Done? ==> |r.rest| <= |s| && (r.ok ==> r.errors == [])
    decreases |s|, 1
  {
    var t := Lex(s, e.f);
    if t.token.kind == ObjectEnd then Done(true, Obj(ms), t.rest, [])
    else if t.token.kind == ArraySeparator then ReadObject(t.rest, depth, key, ms, e)
    else if t.token.kind == CommentToken then
      var u := LexPastComments(t.rest, e.f);
      if u.token.kind == ObjectEnd then Done(true, Obj(ms), u.rest, [])
      else ReadObject(u.rest, depth, key, ms, e)
    else Abandon(Obj(ms), t.rest, ObjectEnd, [MissingCommaOrBrace], e.f)
  }

  // ---------- Documents ----------

  function SkipBom(s: Bytes, f: Features): Bytes {
    if f.skipBom && BOM <= s then s[3..] else s
  }

  predicate IsContainer(v: Value) { v.Arr? || v.Obj? }

  /** The checks on what follows the root value, and on the root. */
  function Finish(v: Outcome, e: Env): (r: Outcome)
    requires v.Done?
    ensures r.Done? && r.value == v.value
  {
    var t := SkipCommentTokens(v.rest, e.f);
    if e.f.failIfExtra && t.token.kind != EndOfStream then
      Done(false, v.value, t.rest, v.errors + [ExtraText])
    else if e.f.strictRoot && !IsContainer(v.value) then
      Done(false, v.value, t.rest, v.errors + [RootNotContainer])
    else Done(v.ok, v.value, t.rest, v.errors)
  }

  /** Reads a whole document into a root that holds `root`. */
  function Parse(document: Bytes, root: Value, e: Env): Outcome {
    var v := ReadValue(SkipBom(document, e.f), 1, root, e);
    if v.Thrown? then v else Finish(v, e)
  }
}
