/** Integers as decimal text: the writer's buffer and the reader's overflow-exact decoder. */
module JsonNumbers {
  import opened JsonStrings
  import opened Sequences

  const MAX_UINT64: int := 0xFFFF_FFFF_FFFF_FFFF
  const MAX_INT64: int := 0x7FFF_FFFF_FFFF_FFFF
  const MIN_INT64: int := -0x8000_0000_0000_0000

  /** Arithmetic on these types is checked never to wrap. */
  newtype UInt64 = x: int | 0 <= x <= 0xFFFF_FFFF_FFFF_FFFF
  newtype Int64 = x: int | -0x8000_0000_0000_0000 <= x <= 0x7FFF_FFFF_FFFF_FFFF

  const MINUS: Byte := 0x2D

  predicate IsDigit(c: Byte) { 0x30 <= c <= 0x39 }

  predicate AllDigits(s: Bytes) { forall i :: 0 <= i < |s| ==> IsDigit(s[i]) }

  /** The number that a string of decimal digits denotes. */
  function DigitsValue(s: Bytes): nat
    requires AllDigits(s)
  {
    if s == [] then 0 else DigitsValue(s[..|s| - 1]) * 10 + (s[|s| - 1] - 0x30)
  }

  // ---------- Decoding ----------

  datatype Number = IntNumber(i: Int64) | UIntNumber(u: UInt64) | NotInteger

  /**
    What a number token means, over unbounded integers: the exact integer when it fits the signed
    type, or the unsigned one when it is not negative; everything else is left to the double path.
   */
  function NumberMeaning(text: Bytes): Number
    requires text != []
  {
    var negative := text[0] == MINUS;
    var digits := if negative then text[1..] else text;
    if !AllDigits(digits) then NotInteger
    else
      var v: int := DigitsValue(digits);
      if negative then (if v <= -MIN_INT64 then IntNumber((-v) as Int64) else NotInteger)
      else if v <= MAX_INT64 then IntNumber(v as Int64)
      else if v <= MAX_UINT64 then UIntNumber(v as UInt64)
      else NotInteger
  }

  lemma {:induction false} DigitsStep(s: Bytes, k: nat)
    requires k < |s| && AllDigits(s[..k]) && IsDigit(s[k])
    ensures AllDigits(s[..k + 1])
    ensures DigitsValue(s[..k + 1]) == DigitsValue(s[..k]) * 10 + (s[k] - 0x30)
  {
    assert s[..k + 1][..k] == s[..k];
  }

  /** More digits only make the number larger. */
  lemma {:induction false} DigitsGrow(s: Bytes, k: nat)
    requires AllDigits(s) && k <= |s|
    ensures DigitsValue(s) >= DigitsValue(s[..k])
    ensures k < |s| ==> DigitsValue(s) >= DigitsValue(s[..k]) * 10
    decreases |s| - k
  {
    if k == |s| {
      assert s[..k] == s;
    } else {
      DigitsStep(s, k);
      DigitsGrow(s, k + 1);
    }
  }

  lemma {:induction false} OverflowIsNotInteger(text: Bytes, digits: Bytes, k: nat, limit: nat)
    requires text != [] && digits == if text[0] == MINUS then text[1..] else text
    requires limit == if text[0] == MINUS then -MIN_INT64 else MAX_UINT64
    requires k < |digits| && AllDigits(digits[..k]) && IsDigit(digits[k])
    requires DigitsValue(digits[..k]) * 10 + (digits[k] - 0x30) > limit
          || (k + 1 < |digits| && DigitsValue(digits[..k]) * 100 > limit)
    ensures NumberMeaning(text) == NotInteger
  {
    if AllDigits(digits) {
      DigitsStep(digits, k);
      DigitsGrow(digits, k + 1);
    }
  }

  /** The decoding loop: stops before any step that would exceed the limit, and never wraps. */
  method DecodeNumber(text: Bytes) returns (number: Number)
    requires text != []
    ensures number == NumberMeaning(text)
  {
    var current := 0;
    var isNegative := text[current] == MINUS;
    if isNegative {
      current := current + 1;
    }
    var threshold: UInt64 := if isNegative then 922_337_203_685_477_580 else 1_844_674_407_370_955_161;
    var maxLastDigit: UInt64 := if isNegative then 8 else 5;
    ghost var digits := if isNegative then text[1..] else text;
    ghost var from := |text| - |digits|;
    var value: UInt64 := 0;
    while current < |text|
      invariant from <= current <= |text|
      invariant AllDigits(digits[..current - from])
      invariant value as int == DigitsValue(digits[..current - from])
      invariant value as int <= if isNegative then -MIN_INT64 else MAX_UINT64
    {
      var c := text[current];
      current := current + 1;
      ghost var k := current - 1 - from;
      assert c == digits[k];
      if c < 0x30 || c > 0x39 {
        return NotInteger;
      }
      var digit := (c - 0x30) as UInt64;
      if value >= threshold {
        if value > threshold || current != |text| || digit > maxLastDigit {
          OverflowIsNotInteger(text, digits, k, if isNegative then -MIN_INT64 else MAX_UINT64);
          return NotInteger;
        }
      }
      DigitsStep(digits, k);
      value := value * 10 + digit;
    }
    assert digits[..current - from] == digits;
    if isNegative {
      var lastDigit := (value % 10) as Int64;
      number := IntNumber(-((value / 10) as Int64) * 10 - lastDigit);
    } else if value <= 0x7FFF_FFFF_FFFF_FFFF {
      number := IntNumber(value as Int64);
    } else {
      number := UIntNumber(value);
    }
  }

  // ---------- Writing ----------

  function Decimal(v: nat): Bytes {
    if v < 10 then [0x30 + v] else Decimal(v / 10) + [0x30 + v % 10]
  }

  /** Integer text: a minus sign only for negative numbers, no leading zeros. */
  function IntText(v: int): Bytes {
    if v < 0 then [MINUS] + Decimal(-v) else Decimal(v)
  }

  lemma {:induction false} DecimalRoundTrip(v: nat)
    ensures Decimal(v) != [] && AllDigits(Decimal(v)) && DigitsValue(Decimal(v)) == v
  {
    if v >= 10 {
      DecimalRoundTrip(v / 10);
      var d := Decimal(v / 10);
      assert Decimal(v)[..|d|] == d;
    } else {
      assert [0x30 + v][..0] == [];
    }
  }

  /** Reading the text of an integer gives that integer, in the signed type whenever it fits. */
  lemma {:induction false} IntegerRoundTrip(v: int)
    requires MIN_INT64 <= v <= MAX_UINT64
    ensures NumberMeaning(IntText(v)) == if v <= MAX_INT64 then IntNumber(v as Int64) else UIntNumber(v as UInt64)
  {
    if v < 0 {
      DecimalRoundTrip(-v);
      assert IntText(v)[1..] == Decimal(-v);
    } else {
      DecimalRoundTrip(v);
      assert IsDigit(IntText(v)[0]);
    }
  }

  function Power10(k: nat): nat {
    if k == 0 then 1 else 10 * Power10(k - 1)
  }

  lemma {:induction false} DecimalLength(v: nat, k: nat)
    requires 0 < k && v < Power10(k)
    ensures |Decimal(v)| <= k
    decreases k
  {
    if v >= 10 {
      assert k > 1 by { assert Power10(1) == 10 * Power10(0); }
      assert v / 10 < Power10(k - 1);
      DecimalLength(v / 10, k - 1);
    }
  }

  lemma {:induction false} UInt64Length(v: nat)
    requires v <= MAX_UINT64
    ensures |Decimal(v)| <= 20
  {
    assert Power10(5) == 100_000 by { assert Power10(2) == 100; assert Power10(4) == 10_000; }
    assert Power10(10) == 10_000_000_000 by { assert Power10(7) == 10_000_000; assert Power10(9) == 1_000_000_000; }
    assert Power10(15) == 1_000_000_000_000_000 by {
      assert Power10(12) == 1_000_000_000_000; assert Power10(14) == 100_000_000_000_000;
    }
    assert Power10(20) == 100_000_000_000_000_000_000 by {
      assert Power10(17) == 100_000_000_000_000_000; assert Power10(19) == 10_000_000_000_000_000_000;
    }
    DecimalLength(v, 20);
  }

  const BUFFER_SIZE: int := 25

  /** Fills the buffer backwards: a terminating zero, then the digits from the last to the first. */
  method UIntToString(value: UInt64, buffer: array<Byte>, end: nat) returns (current: nat)
    requires BUFFER_SIZE <= end <= buffer.Length
    modifies buffer
    ensures end - 21 <= current < end - 1
    ensures buffer[current..end - 1] == Decimal(value as nat)
    ensures buffer[end - 1] == 0
    ensures buffer[..current] == old(buffer[..current]) && buffer[end..] == old(buffer[end..])
  {
    UInt64Length(value as nat);
    ghost var whole := Decimal(value as nat);
    var v := value;
    current := end - 1;
    buffer[current] := 0;
    current := current - 1;
    buffer[current] := (v % 10 + 0x30) as Byte;
    v := v / 10;
    while v != 0
      invariant end - 1 - |whole| <= current <= end - 2
      invariant buffer[end - 1] == 0
      invariant v == 0 ==> whole == buffer[current..end - 1]
      invariant v != 0 ==> whole == Decimal(v as nat) + buffer[current..end - 1]
      invariant buffer[..current] == old(buffer[..current]) && buffer[end..] == old(buffer[end..])
    {
      ghost var done, before := buffer[current..end - 1], v;
      current := current - 1;
      buffer[current] := (v % 10 + 0x30) as Byte;
      v := v / 10;
      assert buffer[current..end - 1] == [(before % 10 + 0x30) as Byte] + done;
      DecimalStep(before as nat, done);
    }
  }

  lemma {:induction false} DecimalStep(v: nat, done: Bytes)
    ensures Decimal(v) + done
         == (if v < 10 then [] else Decimal(v / 10)) + ([v % 10 + 0x30] + done)
  {
    if v >= 10 {
      Associate(Decimal(v / 10), [v % 10 + 0x30], done);
    }
  }

  /** The text of an integer; the write position never passes the start of the buffer. */
  method ValueToString(value: Int64) returns (text: Bytes)
    ensures text == IntText(value as int)
  {
    var buffer := new Byte[BUFFER_SIZE](_ => 0);
    var current;
    if value == -0x8000_0000_0000_0000 {
      current := UIntToString(0x8000_0000_0000_0000, buffer, BUFFER_SIZE);
    } else if value < 0 {
      current := UIntToString((-value) as UInt64, buffer, BUFFER_SIZE);
    } else {
      current := UIntToString(value as UInt64, buffer, BUFFER_SIZE);
    }
    if value < 0 {
      current := PutMinus(buffer, current);
    }
    text := buffer[current..BUFFER_SIZE - 1];
  }

  method PutMinus(buffer: array<Byte>, start: nat) returns (current: nat)
    requires buffer.Length == BUFFER_SIZE && 0 < start < BUFFER_SIZE
    modifies buffer
    ensures current == start - 1 && buffer[current..BUFFER_SIZE - 1] == [MINUS] + old(buffer[start..BUFFER_SIZE - 1])
  {
    current := start - 1;
    buffer[current] := MINUS;
  }

  method UnsignedValueToString(value: UInt64) returns (text: Bytes)
    ensures text == Decimal(value as nat)
  {
    var buffer := new Byte[BUFFER_SIZE](_ => 0);
    var current := UIntToString(value, buffer, BUFFER_SIZE);
    text := buffer[current..BUFFER_SIZE - 1];
  }
}
