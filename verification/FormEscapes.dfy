/**
  What the form decoder makes of escapes however they are spelled, and by whoever; and what the encoder writes,
  character by character.
 */
module FormEscapes {
  import opened Decimal
  import opened FormCodec
  import opened FormRoundTrip

  const LOWER_CASE := "0123456789abcdef"
  const UPPER_CASE := "0123456789ABCDEF"

  /** The characters that need no escape. */
  predicate LeftAlone(c: char) {
    || 'a' <= c <= 'z' || 'A' <= c <= 'Z' || '0' <= c <= '9'
    || c in {'.', '*', '-', '_', '^', '\\', '~', '\'', '`', '|', '<', '>', '[', ']', '{', '}', '(', ')'}
  }

  /** The character is this digit, in either case. */
  predicate Spells(c: char, digit: int)
    requires 0 <= digit < 16
  {
    c == LOWER_CASE[digit] || c == UPPER_CASE[digit]
  }

  lemma SpelledValue(c: char, digit: int)
    requires 0 <= digit < 16 && Spells(c, digit)
    ensures IsHex(c) && HexValue(c) == digit && c != '-' && c != '%'
  {
  }

  lemma UnspelledValue(c: char)
    requires forall digit :: 0 <= digit < 16 ==> !Spells(c, digit)
    ensures !IsHex(c)
  {
    if IsHex(c) {
      var digit := HexValue(c);
      HexIsSpelled(c);
    }
  }

  lemma HexIsSpelled(c: char)
    requires IsHex(c)
    ensures Spells(c, HexValue(c))
  {
  }

  /** Behind an escaped ampersand: any character, the digits 2 and 3, a decimal number, and an escaped semicolon. */
  predicate BeginsReference(rest: string) {
    exists n :: 0 < n <= |rest| - 6 && ReferenceOf(rest, n)
  }

  predicate ReferenceOf(rest: string, n: nat)
    requires 0 < n && n + 6 <= |rest|
  {
    && rest[1] == '2' && rest[2] == '3'
    && (forall i :: 3 <= i < 3 + n ==> '0' <= rest[i] <= '9')
    && rest[3 + n] == '%' && rest[4 + n] == '3' && rest[5 + n] in {'b', 'B'}
  }

  lemma HashIsSpelled(a: char, b: char)
    ensures FromHex(a, b) == 0x23 <==> a == '2' && b == '3'
  {
  }

  lemma RunInTail(m: string, n: nat)
    requires 3 + n < |m| && (forall i :: 3 <= i < 3 + n ==> IsDigit(m[i])) && !IsDigit(m[3 + n])
    ensures DigitRun(m[3..], 0) == n
  {
    forall i | 0 <= i < n ensures IsDigit(m[3..][i]) { assert m[3..][i] == m[i + 3]; }
    DigitRunIs(m[3..], 0, n);
  }

  /** The decoder looks for exactly that. */
  lemma ReferenceIsSeen(rest: string)
    ensures IsReferenceTail(rest) <==> BeginsReference(rest)
  {
    if 5 < |rest| { HashIsSpelled(rest[1], rest[2]); }
    if IsReferenceTail(rest) {
      var n := DigitRun(rest[3..], 0);
      forall i | 3 <= i < 3 + n ensures IsDigit(rest[i]) { assert rest[i] == rest[3..][i - 3]; }
      assert ReferenceOf(rest, n);
    }
    if n :| 0 < n <= |rest| - 6 && ReferenceOf(rest, n) {
      RunInTail(rest, n);
    }
  }

  /** The bytes of a value below 256 in UTF-8. */
  function Latin(value: int): (bytes: string)
    requires 0 <= value < 256
  {
    if value < 0x80 then [value as char] else [(0xC0 + value / 64) as char, (0x80 + value % 64) as char]
  }

  /** Each of the 256 values, its digits in either case, unless it begins a reference: the escape stands for the
      value and uses up three characters. */
  lemma EscapeMeans(a: char, b: char, value: int, rest: string)
    requires 0 <= value < 256 && Spells(a, value / 16) && Spells(b, value % 16)
    requires value == 0x26 ==> !BeginsReference(rest)
    ensures DecodeUnit(['%', a, b] + rest) == Unit(Latin(value), 3)
  {
    hide BeginsReference, IsReferenceTail, HexValue;
    var m := ['%', a, b] + rest;
    SpelledValue(a, value / 16);
    SpelledValue(b, value % 16);
    assert m[1] == a && m[2] == b && m[3..] == rest;
    assert UrlDecode(m, 0) == value;
    ReferenceIsSeen(rest);
  }

  /** A reference stands for its number, in UTF-8; one that is out of range for the ampersand. */
  lemma ReferenceMeans(x: char, digits: string, b: char, rest: string)
    requires digits != [] && AllDigits(digits) && b in {'b', 'B'}
    requires ValueOf(digits) <= INT_MAX ==> ValueOf(digits) < 0x11_0000 && ValueOf(digits) != 0x800
    ensures DecodeUnit("%26" + ([x, '2', '3'] + (digits + (['%', '3', b] + rest))))
         == Unit(if ValueOf(digits) <= INT_MAX then Utf8(ValueOf(digits)) else "&", 9 + |digits|)
  {
    hide Utf8, Utf8Encode, ReferenceValue, ValueOf, IsReferenceTail, UrlDecode, AllDigits;
    ReferenceParts(x, digits, b, rest);
    NumberIs(digits);
    if ValueOf(digits) <= INT_MAX {
      EncodesAsUtf8(ValueOf(digits));
    } else {
      EncodesAsUtf8(0x26);
      Utf8Parts(0x26);
    }
  }

  lemma ReferenceParts(x: char, digits: string, b: char, rest: string)
    requires digits != [] && AllDigits(digits) && b in {'b', 'B'}
    ensures var m := "%26" + ([x, '2', '3'] + (digits + (['%', '3', b] + rest)));
            && UrlDecode(m, 0) == 0x26 && IsReferenceTail(m[3..])
            && DigitRun(m[6..], 0) == |digits| && m[6..6 + |digits|] == digits
  {
    hide IsReferenceTail, FromHex;
    var tail := [x, '2', '3'] + (digits + (['%', '3', b] + rest));
    var m := "%26" + tail;
    assert m[3..] == tail && m[1] == '2' && m[2] == '6';
    assert UrlDecode(m, 0) == 0x26 by { AmpersandIsSpelled(); }
    assert ReferenceOf(tail, |digits|);
    ReferenceIsSeen(tail);
    RunInTail(tail, |digits|);
    assert tail[3..] == m[6..] && m[6..6 + |digits|] == digits;
  }

  lemma AmpersandIsSpelled()
    ensures FromHex('2', '6') == 0x26
  {
  }

  lemma NumberIs(digits: string)
    requires digits != [] && AllDigits(digits)
    ensures ReferenceValue(digits) == if ValueOf(digits) <= INT_MAX then ValueOf(digits) else 0x26
  {
    DigitRunIs(digits, 0, |digits|);
    assert digits[0..|digits|] == digits;
  }

  /** A broken escape is read as far as it can be: a digit alone stands for itself, none for zero, a sign makes
      the digit behind it negative. Three characters are used up, or what is left. */
  lemma BrokenEscape(m: string)
    requires m != [] && m[0] == '%'
    ensures |m| < 3 ==> DecodeUnit(m) == Unit("\0", 3)
    ensures |m| >= 3 && m[1] != '-' && (forall digit :: 0 <= digit < 16 ==> !Spells(m[1], digit)) ==>
              DecodeUnit(m) == Unit("\0", 3)
    ensures |m| >= 3 && (forall digit :: 0 <= digit < 16 ==> !Spells(m[2], digit)) ==>
              forall digit :: 0 <= digit < 16 && Spells(m[1], digit) ==> DecodeUnit(m) == Unit([digit as char], 3)
    ensures |m| >= 3 && m[1] == '-' ==>
              forall digit :: 0 < digit < 16 && Spells(m[2], digit) ==>
                                DecodeUnit(m) == Unit([(256 - digit) as char], 3)
  {
    hide HexValue, IsReferenceTail;
    if |m| >= 3 {
      if forall digit :: 0 <= digit < 16 ==> !Spells(m[1], digit) { UnspelledValue(m[1]); }
      if forall digit :: 0 <= digit < 16 ==> !Spells(m[2], digit) { UnspelledValue(m[2]); }
      forall digit | 0 <= digit < 16 && Spells(m[1], digit)
        ensures IsHex(m[1]) && HexValue(m[1]) == digit && m[1] != '-'
      {
        SpelledValue(m[1], digit);
      }
      forall digit | 0 <= digit < 16 && Spells(m[2], digit) ensures IsHex(m[2]) && HexValue(m[2]) == digit {
        SpelledValue(m[2], digit);
      }
    }
  }

  // Texts that somebody else has escaped.

  /** Every byte is escaped, its digits in either case. */
  predicate Escaped(text: string, bytes: string)
    requires AreBytes(bytes)
    decreases |bytes|
  {
    if bytes == [] then text == []
    else
      && 3 <= |text| && text[0] == '%'
      && Spells(text[1], bytes[0] as int / 16) && Spells(text[2], bytes[0] as int % 16)
      && Escaped(text[3..], bytes[1..])
  }

  function LatinText(bytes: string): string
    requires AreBytes(bytes)
  {
    if bytes == [] then [] else Latin(bytes[0] as int) + LatinText(bytes[1..])
  }

  /** Bytes that are all escaped are decoded one by one, each to a character of its own: they return exactly if all
      of them are below 128. (UTF-8 as browsers escape it comes back encoded twice.) */
  lemma {:induction false} EscapedReturns(text: string, bytes: string)
    requires AreBytes(bytes) && Escaped(text, bytes)
    ensures Demangle(text) == LatinText(bytes)
    ensures |LatinText(bytes)| >= |bytes|
    ensures Demangle(text) == bytes <==> forall i :: 0 <= i < |bytes| ==> bytes[i] as int < 0x80
    decreases |bytes|
  {
    hide Spells, DecodeUnit, BeginsReference;
    if bytes != [] {
      var first, rest := bytes[0] as int, bytes[1..];
      assert text == ['%', text[1], text[2]] + text[3..];
      NoReferenceInEscapes(text[3..], rest);
      EscapeMeans(text[1], text[2], first, text[3..]);
      EscapedReturns(text[3..], rest);
      assert bytes == [bytes[0]] + rest;
      if text[3..] == [] { assert LatinText(rest) == []; }
      if first < 0x80 {
        assert LatinText(bytes)[0] == bytes[0] && LatinText(bytes)[1..] == LatinText(rest);
      } else {
        assert |LatinText(bytes)| > |bytes|;
      }
    }
  }

  lemma NoReferenceInEscapes(text: string, bytes: string)
    requires AreBytes(bytes) && Escaped(text, bytes)
    ensures !BeginsReference(text)
  {
    hide Spells;
    if bytes != [] && |text| > 3 {
      assert text[3] == text[3..][0];
    }
  }

  // What the encoder writes.

  lemma Unreserved(c: char)
    ensures IsUnreserved(c) <==> LeftAlone(c)
  {
    var safe := ['.', '*', '-', '_', '^', '\\', '~', '\'', '`', '|', '<', '>', '[', ']', '{', '}', '(', ')'];
    assert SAFE == safe;
    assert c in SAFE <==> c in safe;
  }

  /** Every character, as it is written: a blank as a plus sign, some as they are, those below 256 with two digits
      in lower case, and the others as references. */
  lemma CharacterIsWritten(c: Scalar)
    ensures AreBytes(Utf8(c))
    ensures Mangle(Utf8(c)) ==
            if c == 0x20 then "+"
            else if c < 256 && LeftAlone(c as char) then [c as char]
            else if c < 256 then ['%', LOWER_CASE[c / 16], LOWER_CASE[c % 16]]
            else "%26%23" + IntText(c) + "%3b"
  {
    hide LeftAlone, Utf8, Mangle, Mangled;
    MangleIsMangled([c]);
    assert Utf8Text([c]) == Utf8(c) + [] == Utf8(c);
    assert MangledText([c]) == Mangled(c) + [] == Mangled(c);
    MangledShape(c);
    if c < 256 {
      Unreserved(c as char);
      DigitsAreLower(c);
      if LeftAlone(c as char) { AsciiOnly(c); }
    }
  }

  lemma DigitsAreLower(c: int)
    requires 0 <= c < 256
    ensures HexDigit(c / 16) == LOWER_CASE[c / 16] && HexDigit(c % 16) == LOWER_CASE[c % 16]
  {
  }

  lemma AsciiOnly(c: int)
    requires 0 <= c < 256 && LeftAlone(c as char)
    ensures 0x20 < c < 0x80
  {
  }

  /** A number of some bits, as it is written. */
  function Numbered(value: int): string {
    if 0 <= value < 256 && LeftAlone(value as char) then [value as char]
    else if 0 <= value < 256 then ['%', LOWER_CASE[value / 16], LOWER_CASE[value % 16]]
    else "%26%23" + IntText(value) + "%3b"
  }

  /** Some bits, and six more of each byte. */
  function WithSix(bits: int, bytes: string): int
    decreases |bytes|
  {
    if bytes == [] then bits else WithSix(bits * 64 + bytes[0] as int % 64, bytes[1..])
  }

  lemma {:induction false} SixByte(bits: int, bytes: string, last: char)
    ensures WithSix(bits, bytes + [last]) == WithSix(bits, bytes) * 64 + last as int % 64
    decreases |bytes|
  {
    if bytes == [] {
      assert bytes + [last] == [last] && [last][1..] == [];
    } else {
      assert (bytes + [last])[1..] == bytes[1..] + [last];
      SixByte(bits * 64 + bytes[0] as int % 64, bytes[1..], last);
    }
  }

  lemma {:induction false} SixEach(bits: int, bytes: string)
    ensures MoreBits(bits, bytes) == WithSix(bits, bytes)
    decreases |bytes|
  {
    if bytes != [] {
      var front, last := bytes[..|bytes| - 1], bytes[|bytes| - 1];
      assert bytes == front + [last];
      SixEach(bits, front);
      SixByte(bits, front, last);
    }
  }

  /** A character whose first byte has these bits, and `n` bytes behind it; one that is cut off ends everything. */
  function Written(bits: int, n: nat, rest: string): string
    requires AreBytes(rest)
  {
    if |rest| < n then [] else Numbered(WithSix(bits, rest[..n])) + Mangle(rest[n..])
  }

  /** Whatever bytes are written, be they UTF-8 or not: those below 128 each for itself, the others with the one, two
      or three bytes behind them, as many bits of the first as its kind has and six of each other. */
  lemma BytesAreWritten(first: char, rest: string)
    requires first as int < 256 && AreBytes(rest)
    ensures AreBytes([first] + rest)
    ensures var b := first as int;
            Mangle([first] + rest) ==
            if b == 0x20 then "+" + Mangle(rest)
            else if b < 0x80 then Numbered(b) + Mangle(rest)
            else if 0xC0 <= b < 0xE0 then Written(b % 32, 1, rest)
            else if 0xE0 <= b < 0xF0 then Written(b % 16, 2, rest)
            else Written(b % 8, 3, rest)
  {
    hide Numbered, EncodeOne, EncodeValue, MoreBits, FirstBits, LengthOf;
    var s := [first] + rest;
    assert s[1..] == rest && AreBytes(s);
    if first as int < 0x80 {
      OneIsWritten(first as int);
    } else {
      LengthAndBits(first);
      var n := LengthOf(first);
      if n <= |s| {
        assert s[1..n] == rest[..n - 1] && s[n..] == rest[n - 1..];
        SixEach(FirstBits(first), rest[..n - 1]);
        NumberIsWritten(MoreBits(FirstBits(first), rest[..n - 1]));
      }
    }
  }

  lemma LengthAndBits(first: char)
    requires 0x80 <= first as int < 256
    ensures var b := first as int;
            && LengthOf(first) == (if 0xC0 <= b < 0xE0 then 2 else if 0xE0 <= b < 0xF0 then 3 else 4)
            && FirstBits(first) == (if 0xC0 <= b < 0xE0 then b % 32 else if 0xE0 <= b < 0xF0 then b % 16 else b % 8)
  {
  }

  lemma OneIsWritten(c: int)
    requires 0 <= c < 256
    ensures EncodeOne(c as char) == Numbered(c)
  {
    hide LeftAlone;
    Unreserved(c as char);
    DigitsAreLower(c);
  }

  lemma NumberIsWritten(value: int)
    ensures EncodeValue(value) == Numbered(value)
  {
    hide LeftAlone, EncodeOne, IntText;
    if 0 <= value <= 0xff {
      OneIsWritten(value);
    } else {
      Signs();
    }
  }

  lemma Signs()
    ensures EncodeOne('&') == "%26" && EncodeOne('#') == "%23" && EncodeOne(';') == "%3b"
  {
  }
}
