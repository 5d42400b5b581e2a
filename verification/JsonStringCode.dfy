/** The loops that write and decode quoted strings, proved against `JsonStrings`. */
module JsonStringCode {
  import opened JsonStrings
  import opened Sequences

  /** One pass of the writer's loop: the escape of the character at `c`, and the next position. */
  method EscapeCharacter(value: Bytes, c: nat, emitUtf8: bool) returns (text: Bytes, next: nat)
    requires c < |value|
    ensures c < next && Escaped(text, next - c) == EscapeNext(value[c..], emitUtf8)
  {
    next := c;
    var short := ShortEscape(value[c]);
    if short.Some? {
      text := [BACKSLASH, short.value];
    } else if emitUtf8 {
      if value[c] < 0x20 {
        text := HexEscape(value[c]);
      } else {
        text := [value[c]];
      }
    } else {
      var d := Utf8ToCodepoint(value[c..]);
      next := c + (d.length - 1);
      text := CodePointEscape(d.cp);
    }
    next := next + 1;
  }

  /** Walks the string and appends the escape of each character; `c` moves over whole code points. */
  method ValueToQuotedString(value: Bytes, emitUtf8: bool) returns (result: Bytes)
    ensures result == Quoted(value, emitUtf8)
  {
    if !AnyCharRequiresQuoting(value) {
      return [QUOTE] + value + [QUOTE];
    }
    result := [QUOTE];
    var c := 0;
    ghost var whole := [QUOTE] + EscapeAll(value, emitUtf8);
    while c != |value|
      invariant 0 <= c <= |value|
      invariant result + EscapeAll(value[c..], emitUtf8) == whole
      decreases |value| - c
    {
      var text, next := EscapeCharacter(value, c, emitUtf8);
      EscapeAllStep(value, c, text, next, emitUtf8);
      MovePiece(whole, result, text, EscapeAll(value[next..], emitUtf8), EscapeAll(value[c..], emitUtf8));
      result, c := result + text, next;
    }
    result := result + [QUOTE];
  }

  lemma {:induction false} EscapeAllStep(s: Bytes, c: nat, text: Bytes, next: nat, emitUtf8: bool)
    requires c < |s| && c < next && Escaped(text, next - c) == EscapeNext(s[c..], emitUtf8)
    ensures next <= |s| && EscapeAll(s[c..], emitUtf8) == text + EscapeAll(s[next..], emitUtf8)
  {
    DropDrop(s, c, next - c);
  }

  /** The value of the first `n` of the four hexadecimal digits of `s`. */
  ghost function HexPrefix(s: Bytes, n: nat): Option<nat>
    requires n <= |s|
  {
    if n == 0 then Some(0)
    else if HexPrefix(s, n - 1).Some? && HexValue(s[n - 1]).Some? then
      Some(HexPrefix(s, n - 1).value * 16 + HexValue(s[n - 1]).value)
    else None
  }

  lemma {:induction false} HexPrefixOfFour(s: Bytes)
    requires |s| >= 4
    ensures UnescapeHex(s)
         == if HexPrefix(s, 4).Some? then Unit(HexPrefix(s, 4).value) else NoUnit(HexDigitExpected)
  {
    assert HexPrefix(s, 1) == HexValue(s[0]);
    assert HexPrefix(s, 2).Some? <==> HexValue(s[0]).Some? && HexValue(s[1]).Some?;
    assert HexPrefix(s, 3).Some? <==> HexPrefix(s, 2).Some? && HexValue(s[2]).Some?;
  }

  lemma {:induction false} HexPrefixFails(s: Bytes, m: nat, n: nat)
    requires m <= n <= |s| && HexPrefix(s, m).None?
    ensures HexPrefix(s, n).None?
    decreases n - m
  {
    if m < n {
      HexPrefixFails(s, m + 1, n);
    }
  }

  method DecodeUnicodeEscapeSequence(text: Bytes, from: nat) returns (unit: CodeUnit, current: nat)
    requires from <= |text|
    ensures unit == UnescapeHex(text[from..])
    ensures unit.Unit? ==> current == from + 4
  {
    current := from;
    if |text| - from < 4 {
      return NoUnit(FourDigitsExpected), current;
    }
    ghost var s := text[from..];
    var unicode: nat := 0;
    for index := 0 to 4
      invariant current == from + index
      invariant HexPrefix(s, index) == Some(unicode)
    {
      var c := text[current];
      assert c == s[index];
      current := current + 1;
      unicode := unicode * 16;
      if 0x30 <= c <= 0x39 {
        unicode := unicode + (c - 0x30);
      } else if 0x61 <= c <= 0x66 {
        unicode := unicode + (c - 0x61 + 10);
      } else if 0x41 <= c <= 0x46 {
        unicode := unicode + (c - 0x41 + 10);
      } else {
        HexPrefixFails(s, index + 1, 4);
        HexPrefixOfFour(s);
        return NoUnit(HexDigitExpected), current;
      }
    }
    HexPrefixOfFour(s);
    unit := Unit(unicode);
  }

  /** Returns the code point of a `\u` escape, joining a surrogate pair. */
  method DecodeUnicodeCodePoint(text: Bytes, from: nat) returns (result: Unescaped, current: nat)
    requires from <= |text|
    ensures result == UnescapeCodePoint(text[from..])
    ensures result.Good? ==> current == from + result.length
  {
    var first;
    first, current := DecodeUnicodeEscapeSequence(text, from);
    if first.NoUnit? {
      return Bad(first.error), current;
    }
    if 0xD800 <= first.value <= 0xDBFF {
      if |text| - current < 6 {
        return Bad(SixMoreExpected), current;
      }
      if text[current] == BACKSLASH && text[current + 1] == LOWER_U {
        var second;
        assert text[from..][6..] == text[current + 2..];
        second, current := DecodeUnicodeEscapeSequence(text, current + 2);
        if second.NoUnit? {
          return Bad(second.error), current;
        }
        return Good(CodePointToUtf8(PairCodePoint(first.value, second.value)), 10), current;
      }
      return Bad(SecondHalfExpected), current;
    }
    return Good(CodePointToUtf8(first.value), 4), current;
  }

  /** Decodes a string token, quotes included. */
  method DecodeString(token: Bytes) returns (result: Text)
    requires |token| >= 2
    ensures result == DecodeText(token[1..|token| - 1])
  {
    var text := token[1..|token| - 1];
    var decoded := [];
    var current := 0;
    while current != |text|
      invariant 0 <= current <= |text|
      invariant DecodeText(text) == Prepend(decoded, DecodeText(text[current..]))
      decreases |text| - current
    {
      var c := text[current];
      ghost var rest := text[current..];
      current := current + 1;
      if c == QUOTE {
        break;
      }
      ghost var before := decoded;
      if c == BACKSLASH {
        if current == |text| {
          return BadText(EmptyEscape);
        }
        var escape := text[current];
        current := current + 1;
        var short := ShortUnescape(escape);
        if short.Some? {
          decoded := decoded + [short.value];
        } else if escape == LOWER_U {
          assert rest[2..] == text[current..];
          var u;
          u, current := DecodeUnicodeCodePoint(text, current);
          if u.Bad? {
            return BadText(u.error);
          }
          decoded := decoded + u.text;
        } else {
          return BadText(BadEscape);
        }
      } else {
        decoded := decoded + [c];
      }
      ghost var u := UnescapeNext(rest);
      assert rest[u.length..] == text[current..];
      assert decoded == before + u.text;
      PrependTwice(before, u.text, DecodeText(text[current..]));
    }
    result := GoodText(decoded);
  }

  lemma {:induction false} PrependTwice(p: Bytes, q: Bytes, t: Text)
    ensures Prepend(p, Prepend(q, t)) == Prepend(p + q, t)
  {
    if t.GoodText? {
      assert p + (q + t.text) == p + q + t.text;
    }
  }
}
