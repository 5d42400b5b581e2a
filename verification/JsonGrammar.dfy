/** JSON texts by their bytes, after RFC 8259 and with the reader's extensions, and what they stand for. */
module JsonGrammar {
  import opened JsonStrings
  import opened JsonNumbers
  import opened JsonValues
  import opened JsonReader
  import opened JsonSpellings
  import opened JsonLayout

  // ---------- Numbers ----------

  datatype Sign = NoSign | Minus | Plus

  function SignText(s: Sign): Bytes {
    match s
    case NoSign => []
    case Minus => [0x2D]
    case Plus => [0x2B]
  }

  datatype Exponent = Exponent(upper: bool, sign: Sign, digits: Bytes)

  datatype Numeral = Numeral(sign: Sign, digits: Bytes, fraction: Option<Bytes>, exponent: Option<Exponent>)

  predicate DecimalDigits(s: Bytes) { forall k :: 0 <= k < |s| ==> 0x30 <= s[k] <= 0x39 }

  /** The reader does without digits after a sign, a point or the letter of an exponent. */
  predicate IsNumeral(n: Numeral) {
    && (n.digits != [] || n.sign != NoSign) && DecimalDigits(n.digits)
    && (n.fraction.Some? ==> DecimalDigits(n.fraction.value))
    && (n.exponent.Some? ==> DecimalDigits(n.exponent.value.digits))
  }

  function FractionText(fraction: Option<Bytes>): Bytes {
    match fraction
    case None => []
    case Some(digits) => [0x2E] + digits
  }

  function ExponentText(exponent: Option<Exponent>): Bytes {
    match exponent
    case None => []
    case Some(e) => [if e.upper then 0x45 else 0x65] + (SignText(e.sign) + e.digits)
  }

  function NumeralText(n: Numeral): Bytes {
    SignText(n.sign) + (n.digits + (FractionText(n.fraction) + ExponentText(n.exponent)))
  }

  /**
    An integer without a plus sign that fits 64 bits is exact, and a minus sign alone is zero;
    everything else is a double by its text.
   */
  function NumeralMeans(n: Numeral): Value
    requires IsNumeral(n)
  {
    var v: int := DigitsValue(n.digits);
    if n.sign == Plus || n.fraction.Some? || n.exponent.Some? then Real(NumeralText(n))
    else if n.sign == Minus then if v <= 0x8000_0000_0000_0000 then Int((-v) as Int64) else Real(NumeralText(n))
    else if v <= 0x7FFF_FFFF_FFFF_FFFF then Int(v as Int64)
    else if v <= 0xFFFF_FFFF_FFFF_FFFF then UInt(v as UInt64)
    else Real(NumeralText(n))
  }

  // ---------- Documents ----------

  datatype Atom = NullWord | TrueWord | FalseWord | NotANumberWord | InfinityWord(sign: Sign)

  function AtomText(a: Atom): Bytes {
    match a
    case NullWord => [0x6E, 0x75, 0x6C, 0x6C]
    case TrueWord => [0x74, 0x72, 0x75, 0x65]
    case FalseWord => [0x66, 0x61, 0x6C, 0x73, 0x65]
    case NotANumberWord => [0x4E, 0x61, 0x4E]
    case InfinityWord(sign) => SignText(sign) + [0x49, 0x6E, 0x66, 0x69, 0x6E, 0x69, 0x74, 0x79]
  }

  function AtomMeans(a: Atom): Value {
    match a
    case NullWord => Null
    case TrueWord => Bool(true)
    case FalseWord => Bool(false)
    case _ => Real(AtomText(a))
  }

  /** A string in quotation marks, or between apostrophes. */
  datatype Quote = Quote(spelling: Spelling, single: bool)

  function Mark(q: Quote): Byte { if q.single then 0x27 else 0x22 }

  predicate IsQuote(q: Quote) { IsSpelling(q.spelling) && Fits(q.spelling, Mark(q)) }

  function QuoteText(q: Quote): Bytes
    requires IsQuote(q)
  {
    [Mark(q)] + (SpellingText(q.spelling) + [Mark(q)])
  }

  datatype Label = Spelt(quote: Quote) | Counted(numeral: Numeral)

  predicate IsName(n: Label) { if n.Spelt? then IsQuote(n.quote) else IsNumeral(n.numeral) }

  function NameText(n: Label): Bytes
    requires IsName(n)
  {
    if n.Spelt? then QuoteText(n.quote) else NumeralText(n.numeral)
  }

  /** A value with what stands around its tokens. `inside` fills an empty container, or follows a last comma. */
  datatype Syntax =
    | Word(atom: Atom)
    | Number(numeral: Numeral)
    | Text(quote: Quote)
    | Array(items: seq<Element>, comma: bool, inside: Gap)
    | Object(entries: seq<Entry>, comma: bool, inside: Gap)

  datatype Element = Element(before: Gap, value: Syntax, after: Gap)

  datatype Entry = Entry(before: Gap, name: Label, colon: Gap, lead: Gap, value: Syntax, after: Gap)

  /** The shape is right; nothing is said yet of what a reader allows. */
  predicate IsSyntax(d: Syntax) {
    match d
    case Word(_) => true
    case Number(numeral) => IsNumeral(numeral)
    case Text(quote) => IsQuote(quote)
    case Array(items, comma, inside) =>
      AreElements(items) && IsGap(inside) && IsEnding(items == [], comma, inside)
    case Object(entries, comma, inside) =>
      AreEntries(entries) && IsGap(inside) && IsEnding(entries == [], comma, inside)
  }

  /** A last comma needs something in front of it, and without one a full container has no gap of its own. */
  predicate IsEnding(empty: bool, comma: bool, inside: Gap) {
    if empty then !comma else comma || inside == []
  }

  predicate AreElements(items: seq<Element>) {
    items == [] || (HasGaps(items[0]) && IsSyntax(items[0].value) && AreElements(items[1..]))
  }

  predicate HasGaps(x: Element) { IsGap(x.before) && IsGap(x.after) }

  predicate AreEntries(entries: seq<Entry>) {
    entries == [] || (HasParts(entries[0]) && IsSyntax(entries[0].value) && AreEntries(entries[1..]))
  }

  predicate HasParts(x: Entry) {
    IsGap(x.before) && IsName(x.name) && IsGap(x.colon) && IsGap(x.lead) && IsGap(x.after)
  }

  // ---------- Their bytes ----------

  function SyntaxText(d: Syntax): Bytes
    requires IsSyntax(d)
  {
    match d
    case Word(atom) => AtomText(atom)
    case Number(numeral) => NumeralText(numeral)
    case Text(quote) => QuoteText(quote)
    case Array(items, comma, inside) => [0x5B] + (ElementsText(items) + (EndText(comma, inside) + [0x5D]))
    case Object(entries, comma, inside) => [0x7B] + (EntriesText(entries) + (EndText(comma, inside) + [0x7D]))
  }

  function EndText(comma: bool, inside: Gap): Bytes { (if comma then [0x2C] else []) + GapText(inside) }

  function ElementText(x: Element): Bytes
    requires HasGaps(x) && IsSyntax(x.value)
  {
    GapText(x.before) + (SyntaxText(x.value) + GapText(x.after))
  }

  function ElementsText(items: seq<Element>): Bytes
    requires AreElements(items)
  {
    if items == [] then [] else ElementText(items[0]) + MoreElementsText(items[1..])
  }

  function MoreElementsText(items: seq<Element>): Bytes
    requires AreElements(items)
  {
    if items == [] then [] else [0x2C] + (ElementText(items[0]) + MoreElementsText(items[1..]))
  }

  function EntryText(x: Entry): Bytes
    requires HasParts(x) && IsSyntax(x.value)
  {
    GapText(x.before) + (NameText(x.name) +
      (GapText(x.colon) + ([0x3A] + (GapText(x.lead) + (SyntaxText(x.value) + GapText(x.after))))))
  }

  function EntriesText(entries: seq<Entry>): Bytes
    requires AreEntries(entries)
  {
    if entries == [] then [] else EntryText(entries[0]) + MoreEntriesText(entries[1..])
  }

  function MoreEntriesText(entries: seq<Entry>): Bytes
    requires AreEntries(entries)
  {
    if entries == [] then [] else [0x2C] + (EntryText(entries[0]) + MoreEntriesText(entries[1..]))
  }

  // ---------- What they stand for ----------

  /** A key; a number stands for its shortest text. */
  function NameMeans(n: Label, e: Env): Bytes
    requires IsName(n)
  {
    match n
    case Spelt(quote) => SpellingMeans(quote.spelling)
    case Counted(numeral) =>
      (match NumeralMeans(numeral)
       case Int(i) => IntText(i as int)
       case UInt(u) => Decimal(u as nat)
       case _ => e.doubleText(NumeralText(numeral)))
  }

  function Meaning(d: Syntax, e: Env): Value
    requires IsSyntax(d)
  {
    match d
    case Word(atom) => AtomMeans(atom)
    case Number(numeral) => NumeralMeans(numeral)
    case Text(quote) => Str(SpellingMeans(quote.spelling))
    case Array(items, _, _) => Arr(Meanings(items, e))
    case Object(entries, _, _) => Obj(Stored([], entries, e))
  }

  function Meanings(items: seq<Element>, e: Env): seq<Value>
    requires AreElements(items)
  {
    if items == [] then [] else [Meaning(items[0].value, e)] + Meanings(items[1..], e)
  }

  /** The members in the order of their keys; of equal keys the last one counts. */
  function Stored(done: seq<Member>, entries: seq<Entry>, e: Env): seq<Member>
    requires AreEntries(entries)
    decreases entries
  {
    if entries == [] then done
    else Stored(SetMember(done, NameMeans(entries[0].name, e), Meaning(entries[0].value, e)), entries[1..], e)
  }

  /** How deep the containers go. */
  function Levels(d: Syntax): nat {
    match d
    case Array(items, _, _) => 1 + ItemsLevels(items)
    case Object(entries, _, _) => 1 + EntriesLevels(entries)
    case _ => 1
  }

  function ItemsLevels(items: seq<Element>): nat {
    if items == [] then 0 else Max(Levels(items[0].value), ItemsLevels(items[1..]))
  }

  function EntriesLevels(entries: seq<Entry>): nat {
    if entries == [] then 0 else Max(Levels(entries[0].value), EntriesLevels(entries[1..]))
  }

  // ---------- What a reader takes ----------

  predicate NumeralTaken(n: Numeral, e: Env) {
    IsNumeral(n) && (NumeralMeans(n).Real? ==> e.isDouble(NumeralText(n)))
  }

  predicate NameTaken(n: Label, e: Env) {
    match n
    case Spelt(quote) => quote.single ==> e.f.allowSingleQuotes
    case Counted(numeral) => e.f.allowNumericKeys && NumeralTaken(numeral, e)
  }

  /** A comment in front of the bracket of an empty array, or behind a last comma in one, is not taken. */
  predicate Taken(d: Syntax, e: Env)
    requires IsSyntax(d)
  {
    match d
    case Word(atom) => atom.NotANumberWord? || atom.InfinityWord? ==> e.f.allowSpecialFloats
    case Number(numeral) => NumeralTaken(numeral, e)
    case Text(quote) => quote.single ==> e.f.allowSingleQuotes
    case Array(items, comma, inside) =>
      && ItemsTaken(items, e) && AllBlank(inside)
      && (comma ==> e.f.allowTrailingCommas && !e.f.allowDroppedNullPlaceholders)
    case Object(entries, comma, inside) => EntriesTaken([], entries, comma, e)
  }

  predicate ItemsTaken(items: seq<Element>, e: Env)
    requires AreElements(items)
  {
    items == [] || (Allowed(items[0].before, e.f) && Taken(items[0].value, e) && ItemsTaken(items[1..], e))
  }

  /**
    No comment between a name and its colon; keys are short enough and, where that matters, new. A
    last comma is taken after an empty key even where it is not allowed.
   */
  predicate EntriesTaken(done: seq<Member>, entries: seq<Entry>, comma: bool, e: Env)
    requires AreEntries(entries)
    decreases entries
  {
    entries == [] ||
    (var x, key := entries[0], NameMeans(entries[0].name, e);
     && NameTaken(x.name, e) && AllBlank(x.colon) && Allowed(x.lead, e.f)
     && |key| < 0x4000_0000 && (e.f.rejectDupKeys ==> !HasMember(done, key))
     && (comma && |entries| == 1 ==> e.f.allowTrailingCommas || key == [])
     && Taken(x.value, e)
     && EntriesTaken(SetMember(done, key, Meaning(x.value, e)), entries[1..], comma, e))
  }
}
