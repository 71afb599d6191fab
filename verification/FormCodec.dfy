/**
  The form encoding: UTF-8 text to percent escapes and decimal character references, and back. Bytes
  are characters below 256. The theorem says for exactly which texts decoding undoes encoding.
 */
module FormCodec {
  import opened Decimal

  function Byte(n: int): (c: char)
    ensures c as int < 256
    ensures 0 <= n < 256 ==> c as int == n
  {
    (n % 256) as char
  }

  // Unicode text, and its bytes (section 3 of RFC 3629).

  type Scalar = c: int | 0 <= c < 0x11_0000

  function Utf8(c: Scalar): (r: string)
    ensures 1 <= |r| <= 4
  {
    if c < 0x80 then [Byte(c)]
    else if c < 0x800 then [Byte(0xC0 + c / 64), Byte(0x80 + c % 64)]
    else if c < 0x1_0000 then [Byte(0xE0 + c / 4096), Byte(0x80 + c / 64 % 64), Byte(0x80 + c % 64)]
    else [Byte(0xF0 + c / 26_2144), Byte(0x80 + c / 4096 % 64), Byte(0x80 + c / 64 % 64), Byte(0x80 + c % 64)]
  }

  function Utf8Text(text: seq<Scalar>): string {
    if text == [] then [] else Utf8(text[0]) + Utf8Text(text[1..])
  }

  // Encoding.

  const SAFE := ".*-_^\\~'`|<>[]{}()"

  predicate IsLetter(letter: char) { 'a' <= letter <= 'z' || 'A' <= letter <= 'Z' }

  predicate IsUnreserved(letter: char) { IsLetter(letter) || IsDigit(letter) || letter in SAFE }

  function HexDigit(part: int): char
    requires 0 <= part < 16
  {
    if part < 10 then ('0' as int + part) as char else ('a' as int + part - 10) as char
  }

  function EncodeOne(letter: char): (r: string)
    requires letter as int < 256
    ensures |r| == 1 || |r| == 3
  {
    if IsUnreserved(letter) then [letter]
    else ['%', HexDigit(letter as int / 16), HexDigit(letter as int % 16)]
  }

  /** How many bytes a character has whose first byte is this. */
  function LengthOf(first: char): (n: nat)
    requires 0x80 <= first as int < 256
    ensures 2 <= n <= 4
  {
    if first as int / 32 == 6 then 2 else if first as int / 16 == 14 then 3 else 4
  }

  /** The bits of a character's first byte that belong to its value. */
  function FirstBits(first: char): int
    requires 0x80 <= first as int < 256
  {
    var b := first as int;
    if b / 32 == 6 then b % 32 else if b / 16 == 14 then b % 16 else b % 8
  }

  /** The value with the bits of some more bytes. */
  function MoreBits(value: int, bytes: string): int {
    if bytes == [] then value else MoreBits(value, bytes[..|bytes| - 1]) * 64 + bytes[|bytes| - 1] as int % 64
  }

  function EncodeValue(value: int): string {
    if 0 <= value <= 0xff then EncodeOne(value as char)
    else EncodeOne('&') + EncodeOne('#') + IntText(value) + EncodeOne(';')
  }

  predicate AreBytes(s: string) { forall i :: 0 <= i < |s| ==> s[i] as int < 256 }

  /** `mangleHttpResponse`: stops at a character that is cut off by the end. */
  function Mangle(s: string): string
    requires AreBytes(s)
  {
    if s == [] then []
    else if s[0] == ' ' then "+" + Mangle(s[1..])
    else if s[0] as int <= 0x7f then EncodeOne(s[0]) + Mangle(s[1..])
    else
      var length := LengthOf(s[0]);
      if length > |s| then []
      else EncodeValue(MoreBits(FirstBits(s[0]), s[1..length])) + Mangle(s[length..])
  }

  /** The value of a character of several bytes; none when the end cuts it off. */
  method ReadValue(input: string, i: nat) returns (complete: bool, value: int)
    requires i < |input| && AreBytes(input) && 0x80 <= input[i] as int
    ensures complete == (i + LengthOf(input[i]) <= |input|)
    ensures complete ==> value == MoreBits(FirstBits(input[i]), input[i..][1..LengthOf(input[i])])
  {
    ghost var s := input[i..];
    var length := LengthOf(input[i]);
    value := FirstBits(input[i]);
    var j := 1;
    while j < length
      invariant 1 <= j <= length && i + j <= |input|
      invariant value == MoreBits(FirstBits(input[i]), s[1..j])
    {
      if i + j >= |input| {
        return false, value;
      }
      assert s[1..j + 1][..j - 1] == s[1..j] && s[1..j + 1][j - 1] == input[i + j];
      value := value * 64;
      value := value + input[i + j] as int % 64;
      j := j + 1;
    }
    complete := true;
  }

  method MangleHttpResponse(input: string) returns (output: string)
    requires AreBytes(input)
    ensures output == Mangle(input)
  {
    hide EncodeOne, EncodeValue, MoreBits, FirstBits;
    output := [];
    var i := 0;
    while i < |input|
      invariant i <= |input|
      invariant output + Mangle(input[i..]) == Mangle(input)
    {
      var letter := input[i];
      if letter == ' ' {
        assert input[i..][1..] == input[i + 1..];
        output := output + "+";
      } else if letter as int <= 0x7f {
        assert input[i..][1..] == input[i + 1..];
        output := output + EncodeOne(letter);
      } else {
        var length := LengthOf(letter);
        var complete, value := ReadValue(input, i);
        if !complete {
          assert output + [] == output;
          return;
        }
        assert input[i..][length..] == input[i + length..];
        output := output + EncodeValue(value);
        i := i + (length - 1);
      }
      i := i + 1;
    }
    assert input[|input|..] == [];
  }

  // Decoding.

  /** How the decoder writes a character. (Its border between two and three bytes is off by one.) */
  function Utf8Encode(value: int): (r: string)
    ensures 1 <= |r| <= 4
  {
    if value < 0x80 then [Byte(value)]
    else if value > 0x800 then
      if value >= 0x1_0000 then
        [Byte(0xF0 + value / 26_2144), Byte(0x80 + value / 4096 % 64), Byte(0x80 + value / 64 % 64),
            Byte(0x80 + value % 64)]
      else
        [Byte(0xE0 + value / 4096), Byte(0x80 + value / 64 % 64), Byte(0x80 + value % 64)]
    else [Byte(0xC0 + value / 64), Byte(0x80 + value % 64)]
  }

  predicate IsHex(c: char) { IsDigit(c) || 'a' <= c <= 'f' || 'A' <= c <= 'F' }

  function HexValue(c: char): (n: int)
    requires IsHex(c)
    ensures 0 <= n < 16
  {
    if IsDigit(c) then DigitOf(c)
    else if 'a' <= c <= 'f' then c as int - 'a' as int + 10
    else c as int - 'A' as int + 10
  }

  /** `std::from_chars` on two characters in base 16; zero when nothing matches. */
  function FromHex(a: char, b: char): int {
    if a == '-' then if IsHex(b) then -HexValue(b) else 0
    else if !IsHex(a) then 0
    else if IsHex(b) then HexValue(a) * 16 + HexValue(b)
    else HexValue(a)
  }

  function UrlDecode(m: string, index: nat): int {
    if index + 3 > |m| then 0 else FromHex(m[index + 1], m[index + 2])
  }

  /** Whether `m` goes on, three characters from its start, with digits and an escaped semicolon. The
      decoder takes the three characters for an escaped hash if the last two read 23. */
  predicate IsReferenceTail(m: string) {
    && 5 < |m|
    && UrlDecode(m, 0) == '#' as int
    && IsDigit(m[3])
    && var end := 3 + DigitRun(m[3..], 0);
       && end + 2 < |m| && m[end] == '%' && m[end + 1] == '3' && (m[end + 2] == 'b' || m[end + 2] == 'B')
  }

  /** The number of a reference; one that is out of range leaves the ampersand. */
  function ReferenceValue(digits: string): int {
    var parsed := FromChars(digits, INT_MIN, INT_MAX);
    if parsed.value.Some? then parsed.value.value else '&' as int
  }

  /** What the first characters of `m` decode to, and how many they are. */
  datatype Unit = Unit(text: string, used: nat)

  function DecodeUnit(m: string): (unit: Unit)
    requires m != []
    ensures unit.used > 0
  {
    if m[0] == '+' then Unit(" ", 1)
    else if m[0] == '%' then
      var decoded := UrlDecode(m, 0);
      if decoded == '&' as int && 3 <= |m| && IsReferenceTail(m[3..]) then
        var n := DigitRun(m[6..], 0);
        Unit(Utf8Encode(ReferenceValue(m[6..6 + n])), 6 + n + 3)
      else
        Unit(Utf8Encode(decoded), 3)
    else Unit([m[0]], 1)
  }

  /** `demangleHttpResponse`. */
  function Demangle(m: string): string
    decreases |m|
  {
    if m == [] then []
    else
      var unit := DecodeUnit(m);
      unit.text + if unit.used >= |m| then [] else Demangle(m[unit.used..])
  }

  /** Looks for a character reference where an escaped ampersand stands. */
  method ReadReference(input: string, i: nat) returns (found: bool, decoded: int, next: nat)
    requires i < |input| && input[i] == '%' && UrlDecode(input, i) == '&' as int && i + 3 <= |input|
    ensures var m := input[i..];
            && found == IsReferenceTail(m[3..])
            && (found ==> i + 9 <= next && Unit(Utf8Encode(decoded), next - i) == DecodeUnit(m))
  {
    ghost var m := input[i..];
    found, decoded, next := false, '&' as int, i;
    assert m[3..] == input[i + 3..] && (|m| >= 6 ==> m[3..][3..] == m[6..]);
    if i + 8 >= |input| || UrlDecode(input, i + 3) != '#' as int || !IsDigit(input[i + 6]) {
      return;
    }
    var numberEnd := i + 7;
    while numberEnd < |input| && IsDigit(input[numberEnd])
      invariant i + 7 <= numberEnd <= |input|
      invariant forall k :: i + 6 <= k < numberEnd ==> IsDigit(input[k])
    {
      numberEnd := numberEnd + 1;
    }
    if numberEnd + 2 < |input| && input[numberEnd] == '%' && input[numberEnd + 1] == '3'
       && (input[numberEnd + 2] == 'b' || input[numberEnd + 2] == 'B') {
      var parsed := FromChars(input[i + 6..numberEnd], INT_MIN, INT_MAX);
      assert input[i + 6..numberEnd] == m[6..numberEnd - i];
      if parsed.value.Some? {
        decoded := parsed.value.value;
      }
      found, next := true, numberEnd + 3;
    }
  }

  lemma StepOn(input: string, i: nat, output: string)
    requires i < |input|
    ensures var unit := DecodeUnit(input[i..]);
            && output + Demangle(input[i..])
            == output + unit.text + Demangle(if i + unit.used < |input| then input[i + unit.used..] else [])
  {
    hide DecodeUnit;
    var m, unit := input[i..], DecodeUnit(input[i..]);
    var rest := Demangle(if i + unit.used < |input| then input[i + unit.used..] else []);
    if i + unit.used < |input| {
      assert m[unit.used..] == input[i + unit.used..];
    }
    assert output + (unit.text + rest) == output + unit.text + rest;
  }

  method DemangleHttpResponse(input: string) returns (output: string)
    ensures output == Demangle(input)
  {
    hide Demangle, IsReferenceTail, Utf8Encode;
    output := [];
    var i := 0;
    assert input[0..] == input && [] + Demangle(input) == Demangle(input);
    NothingDecodes(output);
    while i < |input|
      invariant output + Demangle(if i < |input| then input[i..] else []) == Demangle(input)
      decreases |input| - i
    {
      StepOn(input, i, output);
      if input[i] == '+' {
        output := output + " ";
        i := i + 1;
      } else if input[i] == '%' {
        var decoded := UrlDecode(input, i);
        var found, next := false, i + 3;
        if decoded == '&' as int && i + 3 <= |input| {
          var number;
          found, number, next := ReadReference(input, i);
          if found { decoded := number; } else { next := i + 3; }
        }
        output := output + Utf8Encode(decoded);
        i := next;
      } else {
        output := output + [input[i]];
        i := i + 1;
      }
    }
    NothingDecodes(output);
  }

  lemma NothingDecodes(output: string)
    ensures output + Demangle([]) == output
  {
  }
}
