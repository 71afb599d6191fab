/**
  Decoding what was encoded. Two things go wrong on the way: the scalar U+0800 is written with two
  bytes, and a text may by itself encode to what the decoder takes for a character reference. A text
  survives exactly when neither occurs in it.
 */
module FormRoundTrip {
  import opened Decimal
  import opened FormCodec

  type Text = seq<Scalar>

  const AMPERSAND: Scalar := 0x26
  const HASH: Scalar := 0x23
  const SEMICOLON: Scalar := 0x3b
  const TWO: Scalar := 0x32
  const THREE: Scalar := 0x33

  predicate IsDigitScalar(c: Scalar) { 0x30 <= c <= 0x39 }

  /** Scalars that are encoded as one character. */
  predicate IsSingle(c: Scalar) { c == 0x20 || (c < 0x80 && IsUnreserved(c as char)) }

  /** What one scalar is encoded to. */
  function Mangled(c: Scalar): (r: string)
    ensures r != []
  {
    if c == 0x20 then "+" else EncodeValue(c)
  }

  function MangledText(text: Text): string {
    if text == [] then [] else Mangled(text[0]) + MangledText(text[1..])
  }

  /** How many digits a text begins with. */
  function DigitCount(text: Text): (n: nat)
    ensures n <= |text| && (forall i :: 0 <= i < n ==> IsDigitScalar(text[i]))
    ensures n < |text| ==> !IsDigitScalar(text[n])
  {
    if text == [] || !IsDigitScalar(text[0]) then 0 else 1 + DigitCount(text[1..])
  }

  /** How many scalars the decoder takes for the hash behind an ampersand: a hash, or any scalar encoded as
      one character and then the digits 2 and 3; none otherwise. */
  function HashLength(text: Text): (k: nat)
    ensures k <= |text|
  {
    if text != [] && text[0] == HASH then 1
    else if 3 <= |text| && IsSingle(text[0]) && text[1] == TWO && text[2] == THREE then 3
    else 0
  }

  /** What stands behind an ampersand encodes to the rest of a character reference. */
  predicate LooksLikeReference(text: Text) {
    var k := HashLength(text);
    var rest := text[k..];
    var n := DigitCount(rest);
    k > 0 && n > 0 && n < |rest| && rest[n] == SEMICOLON
  }

  /** The texts that survive; something a caller can check beforehand. */
  predicate Survives(text: Text) {
    text == [] ||
    (&& text[0] != 0x800
     && !(text[0] == AMPERSAND && LooksLikeReference(text[1..]))
     && Survives(text[1..]))
  }

  // Encoding, scalar by scalar.

  /** A scalar's digits in base 64, the units of UTF-8. */
  lemma Base64Digits(c: int)
    requires 0 <= c < 0x11_0000
    ensures c == c / 64 * 64 + c % 64
    ensures c / 64 == c / 4096 * 64 + c / 64 % 64
    ensures c / 4096 == c / 26_2144 * 64 + c / 4096 % 64
    ensures c < 0x800 ==> c / 64 < 32
    ensures c < 0x1_0000 ==> c / 4096 < 16
    ensures c / 26_2144 < 8
  {
    assert c / 4096 == c / 64 / 64;
    assert c / 26_2144 == c / 4096 / 64;
  }

  lemma LeadByte(c: int, lead: char)
    requires (lead as int == 0xC0 + c && 0 <= c < 32) || (lead as int == 0xE0 + c && 0 <= c < 16)
             || (lead as int == 0xF0 + c && 0 <= c < 8)
    ensures 0x80 <= lead as int < 256 && FirstBits(lead) == c
    ensures LengthOf(lead) == if lead as int < 0xE0 then 2 else if lead as int < 0xF0 then 3 else 4
  {
  }

  lemma Bits1(value: int, a: char)
    ensures MoreBits(value, [a]) == value * 64 + a as int % 64
  {
    assert [a][..0] == [];
  }

  lemma Bits2(value: int, a: char, b: char)
    ensures MoreBits(value, [a, b]) == (value * 64 + a as int % 64) * 64 + b as int % 64
  {
    Bits1(value, a);
    assert [a, b][..1] == [a];
  }

  lemma Bits3(value: int, a: char, b: char, c: char)
    ensures MoreBits(value, [a, b, c]) == ((value * 64 + a as int % 64) * 64 + b as int % 64) * 64 + c as int % 64
  {
    Bits2(value, a, b);
    assert [a, b, c][..2] == [a, b];
  }

  lemma Utf8Shape(c: Scalar)
    ensures var u := Utf8(c);
            var a, b, d := Byte(0x80 + c % 64), Byte(0x80 + c / 64 % 64), Byte(0x80 + c / 4096 % 64);
            && u[0] as int < 256
            && if c < 0x80 then u == [c as char]
               else if c < 0x800 then u[1..] == [a] && u[0] as int == 0xC0 + c / 64 && |u| == 2
               else if c < 0x1_0000 then u[1..] == [b, a] && u[0] as int == 0xE0 + c / 4096 && |u| == 3
               else u[1..] == [d, b, a] && u[0] as int == 0xF0 + c / 26_2144 && |u| == 4
  {
    Base64Digits(c);
  }

  lemma Utf8Parts(c: Scalar)
    ensures AreBytes(Utf8(c))
    ensures c < 0x80 ==> Utf8(c) == [c as char]
    ensures c >= 0x80 ==>
              && 0x80 <= Utf8(c)[0] as int < 256
              && LengthOf(Utf8(c)[0]) == |Utf8(c)|
              && MoreBits(FirstBits(Utf8(c)[0]), Utf8(c)[1..]) == c
  {
    hide Utf8, LengthOf, FirstBits, MoreBits, Byte;
    var u := Utf8(c);
    Utf8Shape(c);
    assert u == [u[0]] + u[1..];
    if c >= 0x80 {
      Base64Digits(c);
      var a, b, d := Byte(0x80 + c % 64), Byte(0x80 + c / 64 % 64), Byte(0x80 + c / 4096 % 64);
      if c < 0x800 {
        LeadByte(c / 64, u[0]);
        Bits1(c / 64, a);
      } else if c < 0x1_0000 {
        LeadByte(c / 4096, u[0]);
        Bits2(c / 4096, b, a);
      } else {
        LeadByte(c / 26_2144, u[0]);
        Bits3(c / 26_2144, d, b, a);
      }
    }
  }

  lemma {:induction false} TextIsBytes(text: Text)
    ensures AreBytes(Utf8Text(text))
  {
    if text != [] {
      Utf8Parts(text[0]);
      TextIsBytes(text[1..]);
    }
  }

  /** The encoder works through UTF-8 text one scalar at a time. */
  lemma {:induction false} MangleIsMangled(text: Text)
    ensures AreBytes(Utf8Text(text)) && Mangle(Utf8Text(text)) == MangledText(text)
  {
    hide Utf8, MoreBits, FirstBits, EncodeOne, LengthOf;
    TextIsBytes(text);
    if text != [] {
      var c, u, rest := text[0], Utf8(text[0]), Utf8Text(text[1..]);
      var s := Utf8Text(text);
      Utf8Parts(c);
      MangleIsMangled(text[1..]);
      assert s == u + rest && s[0] == u[0];
      assert s[..|u|] == u && s[|u|..] == rest;
      if c >= 0x80 {
        assert s[1..|u|] == u[1..];
      }
    }
  }

  // Decoding, scalar by scalar.

  lemma HexDecodes(n: int)
    requires 0 <= n < 256
    ensures FromHex(HexDigit(n / 16), HexDigit(n % 16)) == n
  {
  }

  /** Every encoded scalar is one character, or a percent sign with two digits of its own, or a reference. */
  lemma MangledShape(c: Scalar)
    ensures var m := Mangled(c);
            && (IsSingle(c) ==> |m| == 1 && (m[0] == if c == 0x20 then '+' else c as char))
            && (!IsSingle(c) && c <= 0xff ==> m == ['%', HexDigit(c / 16), HexDigit(c % 16)])
            && (c > 0xff ==> m == "%26%23" + TextOf(c) + "%3b")
            && (IsDigitScalar(c) ==> IsSingle(c))
            && (IsDigit(m[0]) <==> IsDigitScalar(c))
  {
    hide HexDigit;
    if c > 0xff {
      LongShape(c);
    } else if c >= 0x80 && IsUnreserved(c as char) {
      assert false;
    }
  }

  lemma LongShape(c: Scalar)
    requires c > 0xff
    ensures Mangled(c) == "%26%23" + TextOf(c) + "%3b"
  {
    hide EncodeOne;
    Escapes();
    assert "%26" + "%23" == "%26%23";
  }

  lemma Escapes()
    ensures EncodeOne('&') == "%26" && EncodeOne('#') == "%23" && EncodeOne(';') == "%3b"
  {
  }

  /** Which scalar can have these characters at the front of its encoding. */
  lemma MangledFront(c: Scalar, rest: string)
    ensures var m := Mangled(c) + rest;
            && (m[0] == '2' <==> c == TWO) && (m[0] == '3' <==> c == THREE)
            && (!IsSingle(c) ==> 3 <= |m| && (FromHex(m[1], m[2]) == 0x23 <==> c == HASH)
                                 && (m[0] == '%' && m[1] == '3' && (m[2] == 'b' || m[2] == 'B') <==> c == SEMICOLON))
            && (IsSingle(c) ==> m[0] != '%')
  {
    hide EncodeOne, EncodeValue, Mangled;
    MangledShape(c);
    var m := Mangled(c) + rest;
    if IsSingle(c) {
    } else if c <= 0xff {
      HexDecodes(c);
      assert m[1] == HexDigit(c / 16) && m[2] == HexDigit(c % 16);
      HexIsThreeB(c);
    } else {
      assert m[1] == '2' && m[2] == '6';
    }
  }

  lemma HexIsThreeB(c: int)
    requires 0 <= c < 256
    ensures HexDigit(c / 16) == '3' && (HexDigit(c % 16) == 'b' || HexDigit(c % 16) == 'B') <==> c == 0x3b
  {
  }

  /** The digits of a text are the digits of its encoding. */
  lemma {:induction false} DigitsMangled(text: Text)
    ensures var n := DigitCount(text);
            && n <= |MangledText(text)|
            && MangledText(text)[n..] == MangledText(text[n..])
            && (forall i :: 0 <= i < n ==> MangledText(text)[i] == text[i] as char)
            && DigitRun(MangledText(text), 0) == n
    decreases |text|
  {
    var n, m := DigitCount(text), MangledText(text);
    if n > 0 {
      var rest := text[1..];
      MangledShape(text[0]);
      DigitsMangled(rest);
      assert m == [text[0] as char] + MangledText(rest);
      assert text[n..] == rest[n - 1..];
      forall i | 0 <= i < n ensures m[i] == text[i] as char {
        if i > 0 { assert m[i] == MangledText(rest)[i - 1] && text[i] == rest[i - 1]; }
      }
    } else if text != [] {
      MangledShape(text[0]);
      assert m[0] == Mangled(text[0])[0];
    }
    assert n < |m| ==> !IsDigit(m[n]) by {
      if n < |text| {
        MangledShape(text[n]);
        assert text[n..][0] == text[n];
        assert m[n..][0] == Mangled(text[n])[0];
      }
    }
    DigitRunIs(m, 0, n);
  }

  /** Whatever follows the hash looks like a reference's number to the decoder exactly when it is one. */
  lemma NumberMangled(text: Text)
    ensures var n, m := DigitCount(text), MangledText(text);
            && n <= |m| && DigitRun(m, 0) == n
            && (n > 0 <==> m != [] && IsDigit(m[0]))
            && (n + 2 < |m| && m[n] == '%' && m[n + 1] == '3' && (m[n + 2] == 'b' || m[n + 2] == 'B')
                <==> n < |text| && text[n] == SEMICOLON)
            && (n < |text| && text[n] == SEMICOLON ==> n + 3 <= |m| && m[n + 3..] == MangledText(text[n + 1..]))
  {
    hide Mangled, EncodeOne, EncodeValue, DigitCount;
    var n, m := DigitCount(text), MangledText(text);
    DigitsMangled(text);
    if text != [] {
      MangledShape(text[0]);
      assert m[0] == Mangled(text[0])[0];
    }
    var tail := m[n..];
    SemicolonMangled(text[n..]);
    assert forall i :: 0 <= i < |tail| ==> tail[i] == m[n + i];
    if n < |text| {
      assert text[n..][0] == text[n] && text[n..][1..] == text[n + 1..];
      if text[n] == SEMICOLON { assert tail[3..] == m[n + 3..]; }
    }
  }

  lemma SemicolonMangled(text: Text)
    ensures var m := MangledText(text);
            && (2 < |m| && m[0] == '%' && m[1] == '3' && (m[2] == 'b' || m[2] == 'B')
                <==> text != [] && text[0] == SEMICOLON)
            && (text != [] && text[0] == SEMICOLON ==> 3 <= |m| && m[3..] == MangledText(text[1..]))
  {
    hide Mangled, EncodeOne, EncodeValue;
    if text != [] {
      MangledFront(text[0], MangledText(text[1..]));
      MangledShape(text[0]);
      if text[0] == SEMICOLON {
        assert MangledText(text)[3..] == MangledText(text[1..]);
      }
    }
  }

  /** The three characters that the decoder takes for a hash are those of a hash, or of one character and "23". */
  lemma HashMangled(text: Text)
    ensures var k, m := HashLength(text), MangledText(text);
            && (k > 0 <==> UrlDecode(m, 0) == 0x23)
            && (k > 0 ==> 3 <= |m| && m[3..] == MangledText(text[k..]))
  {
    hide Mangled, EncodeOne, EncodeValue, HexDigit;
    var m := MangledText(text);
    if text != [] {
      var c, rest := text[0], text[1..];
      MangledShape(c);
      MangledFront(c, MangledText(rest));
      if !IsSingle(c) {
        if c == HASH { assert m[3..] == MangledText(rest); }
      } else {
        assert m == [m[0]] + MangledText(rest);
        SecondAndThird(text);
      }
    }
  }

  /** Behind a scalar that is one character stand the first characters of the next two. */
  lemma SecondAndThird(text: Text)
    requires text != [] && IsSingle(text[0])
    ensures var m := MangledText(text);
            && (3 <= |m| && m[1] == '2' && m[2] == '3' <==> 3 <= |text| && text[1] == TWO && text[2] == THREE)
            && (3 <= |m| && FromHex(m[1], m[2]) == 0x23 <==> 3 <= |m| && m[1] == '2' && m[2] == '3')
            && (3 <= |text| && text[1] == TWO && text[2] == THREE ==> m[3..] == MangledText(text[3..]))
            && text[0] != HASH
  {
    hide Mangled, EncodeOne, EncodeValue, HexDigit;
    var m := MangledText(text);
    MangledShape(text[0]);
    if 2 <= |text| {
      var rest := text[1..];
      assert m[1..] == MangledText(rest);
      MangledFront(rest[0], MangledText(rest[1..]));
      assert m[1] == MangledText(rest)[0];
      if rest[0] == TWO {
        MangledShape(TWO);
        assert m[2..] == MangledText(rest[1..]);
        if 3 <= |text| {
          assert rest[1..][0] == text[2] && rest[1..][1..] == text[3..];
          MangledFront(text[2], MangledText(text[3..]));
          assert m[2] == MangledText(rest[1..])[0];
          if text[2] == THREE {
            MangledShape(THREE);
            assert m[3..] == MangledText(text[3..]);
          }
        }
      }
    }
  }

  /** Behind an ampersand the decoder sees a reference exactly when the text looks like one. */
  lemma ReferenceMangled(text: Text)
    ensures var k, m := HashLength(text), MangledText(text);
            && (IsReferenceTail(m) <==> LooksLikeReference(text))
            && (LooksLikeReference(text) ==>
                  var n := DigitCount(text[k..]);
                  && DigitRun(m[3..], 0) == n && 3 + n + 3 <= |m|
                  && m[3 + n + 3..] == MangledText(text[k + n + 1..]))
  {
    hide MangledText, UrlDecode, HashLength, DigitCount;
    var k, m := HashLength(text), MangledText(text);
    HashMangled(text);
    if k > 0 {
      var rest := text[k..];
      var tail := m[3..];
      NumberMangled(rest);
      var n := DigitCount(rest);
      assert forall i :: 0 <= i < |tail| ==> tail[i] == m[3 + i];
      if n < |rest| && rest[n] == SEMICOLON {
        assert tail[n + 3..] == m[3 + n + 3..] && rest[n + 1..] == text[k + n + 1..];
      }
    } else {
      assert !IsReferenceTail(m);
    }
  }

  /** What a scalar is decoded to: itself, but for one. */
  function Decoded(c: Scalar): string { if c == 0x800 then Utf8Encode(0x800) else Utf8(c) }

  lemma EncodesAsUtf8(c: Scalar)
    ensures Utf8Encode(c) == Decoded(c)
    ensures c == 0x800 ==> |Decoded(c)| < |Utf8(c)|
  {
  }

  /** One scalar, one unit of decoding, unless it is an ampersand that begins what looks like a reference. */
  lemma ScalarDecodes(c: Scalar, rest: string)
    requires c == AMPERSAND ==> !IsReferenceTail(rest)
    ensures DecodeUnit(Mangled(c) + rest) == Unit(Decoded(c), |Mangled(c)|)
  {
    hide EncodeOne, EncodeValue, Mangled, HexDigit, Utf8Encode;
    var m := Mangled(c) + rest;
    MangledShape(c);
    EncodesAsUtf8(c);
    if IsSingle(c) {
      Utf8Shape(c);
    } else if c <= 0xff {
      HexDecodes(c);
      assert m[1] == HexDigit(c / 16) && m[2] == HexDigit(c % 16);
      assert m[3..] == rest;
    } else {
      LongDecodes(c, rest);
    }
  }

  /** Digits and an escaped semicolon, with something behind them. */
  lemma DigitsThenSemicolon(digits: string, rest: string)
    requires AllDigits(digits) && digits != []
    ensures var tail := digits + ("%3b" + rest);
            && DigitRun(tail, 0) == |digits| && IsDigit(tail[0]) && |digits| + 2 < |tail|
            && tail[..|digits|] == digits
            && tail[|digits|] == '%' && tail[|digits| + 1] == '3' && tail[|digits| + 2] == 'b'
  {
    var tail := digits + ("%3b" + rest);
    assert forall i :: 0 <= i < |digits| ==> tail[i] == digits[i];
    DigitRunIs(tail, 0, |digits|);
  }

  /** Behind an escaped hash, that is the tail of a reference. */
  lemma IsTail(digits: string, rest: string)
    requires AllDigits(digits) && digits != []
    ensures IsReferenceTail("%23" + (digits + ("%3b" + rest)))
  {
    hide DigitRun;
    var tail := digits + ("%3b" + rest);
    DigitsThenSemicolon(digits, rest);
    var m := "%23" + tail;
    assert m[3..] == tail;
    assert m[1] == '2' && m[2] == '3';
    assert m[3] == tail[0] && m[3 + |digits|] == tail[|digits|] && m[3 + |digits| + 1] == tail[|digits| + 1]
        && m[3 + |digits| + 2] == tail[|digits| + 2];
  }

  lemma LongDecodes(c: Scalar, rest: string)
    requires c > 0xff
    ensures DecodeUnit("%26%23" + TextOf(c) + "%3b" + rest) == Unit(Utf8Encode(c), 6 + |TextOf(c)| + 3)
  {
    hide Utf8Encode, TextOf, DigitRun, IsReferenceTail, ReferenceValue;
    var digits := TextOf(c);
    var m := "%26%23" + digits + "%3b" + rest;
    var tail := digits + ("%3b" + rest);
    DigitsThenSemicolon(digits, rest);
    IsTail(digits, rest);
    NumberIsRead(c);
    assert m == "%26" + ("%23" + tail);
    var front := "%23" + tail;
    assert m[0] == '%' && m[1] == '2' && m[2] == '6' && m[3..] == front;
    assert m[6..] == front[3..] == tail;
    assert m[6..6 + |digits|] == tail[..|digits|];
  }

  lemma NumberIsRead(c: Scalar)
    ensures ReferenceValue(TextOf(c)) == c
  {
    FromCharsReadsText(c, [], INT_MIN, INT_MAX);
    assert TextOf(c) + [] == TextOf(c);
  }

  /** How many scalars a false reference behind an ampersand takes, and what it is decoded to. */
  function ReferenceLength(text: Text): (n: nat)
    requires LooksLikeReference(text)
    ensures 2 < n <= |text|
  {
    HashLength(text) + DigitCount(text[HashLength(text)..]) + 1
  }

  function ReferenceText(text: Text): string
    requires LooksLikeReference(text)
  {
    var k := HashLength(text);
    var m := MangledText(text[k..]);
    DigitsMangled(text[k..]);
    Utf8Encode(ReferenceValue(m[..DigitCount(text[k..])]))
  }

  /** A false reference is decoded as one, and its text is lost. */
  lemma FalseReferenceDecodes(text: Text)
    requires LooksLikeReference(text)
    ensures var m := "%26" + MangledText(text);
            && DecodeUnit(m).text == ReferenceText(text)
            && DecodeUnit(m).used <= |m|
            && m[DecodeUnit(m).used..] == MangledText(text[ReferenceLength(text)..])
  {
    hide MangledText, IsReferenceTail, HashLength, DigitCount, LooksLikeReference, Utf8Encode;
    var tail := MangledText(text);
    var m := "%26" + tail;
    var k := HashLength(text);
    ReferenceMangled(text);
    HashMangled(text);
    assert HashLength(text) > 0 by { FalseReferenceHasHash(text); }
    assert m[1] == '2' && m[2] == '6' && m[3..] == tail;
    assert m[6..] == tail[3..];
    var n := DigitCount(text[k..]);
    assert m[6..6 + n] == tail[3..][..n];
    assert m[6 + n + 3..] == tail[3 + n + 3..];
  }

  lemma FalseReferenceHasHash(text: Text)
    requires LooksLikeReference(text)
    ensures HashLength(text) > 0
  {
  }

  // The theorem.

  lemma {:induction false} DigitsAreAscii(text: Text, n: nat)
    requires n <= |text| && forall i :: 0 <= i < n ==> text[i] < 0x80
    ensures |Utf8Text(text)| == n + |Utf8Text(text[n..])|
    decreases n
  {
    if n == 0 {
      assert text[0..] == text;
    } else {
      Utf8Parts(text[0]);
      DigitsAreAscii(text[1..], n - 1);
      assert text[1..][n - 1..] == text[n..];
    }
  }

  /** What a false reference is decoded to is shorter than its digits and the semicolon. */
  lemma ReferenceIsShort(digits: string)
    requires digits != [] && AllDigits(digits)
    ensures |Utf8Encode(ReferenceValue(digits))| < |digits| + 3
  {
    hide ReferenceValue, Utf8Encode;
    if |digits| == 1 { OneDigit(digits); }
  }

  /** Everything in a false reference is a single byte of text. */
  lemma FalseReferenceIsAscii(text: Text)
    requires LooksLikeReference(text)
    ensures forall i :: 0 <= i < ReferenceLength(text) ==> text[i] < 0x80
  {
    var k := HashLength(text);
    var rest := text[k..];
    forall i | 0 <= i < ReferenceLength(text) ensures text[i] < 0x80 {
      if k <= i { assert text[i] == rest[i - k]; }
    }
  }

  /** A false reference is longer than what it is decoded to. */
  lemma FalseReferenceShrinks(text: Text)
    requires LooksLikeReference(text)
    ensures var n := ReferenceLength(text);
            |ReferenceText(text)| + |Utf8Text(text[n..])| < 1 + |Utf8Text(text)|
  {
    hide MangledText, Utf8Text, Utf8Encode, ReferenceValue, HashLength, DigitCount;
    FalseReferenceIsAscii(text);
    DigitsAreAscii(text, ReferenceLength(text));
    var rest := text[HashLength(text)..];
    DigitsMangled(rest);
    ReferenceIsShort(MangledText(rest)[..DigitCount(rest)]);
    FalseReferenceHasHash(text);
  }

  lemma OneDigit(digits: string)
    requires |digits| == 1 && IsDigit(digits[0])
    ensures |Utf8Encode(ReferenceValue(digits))| == 1
  {
    DigitRunIs(digits, 0, 1);
    assert digits[0..1] == digits && digits[..0] == [];
    assert ValueOf(digits) == DigitOf(digits[0]);
  }

  /** The first step of decoding an encoded text. */
  lemma FirstStep(text: Text)
    requires text != []
    ensures var c, rest := text[0], text[1..];
            Demangle(MangledText(text)) ==
            if c == AMPERSAND && LooksLikeReference(rest) then
              ReferenceText(rest) + Demangle(MangledText(rest[ReferenceLength(rest)..]))
            else
              Decoded(c) + Demangle(MangledText(rest))
  {
    hide DecodeUnit, Mangled, LooksLikeReference, ReferenceText, ReferenceLength;
    var c, rest := text[0], text[1..];
    var m := MangledText(text);
    if c == AMPERSAND && LooksLikeReference(rest) {
      assert Mangled(AMPERSAND) == "%26" by { AmpersandMangled(); }
      FalseReferenceDecodes(rest);
    } else {
      ReferenceMangled(rest);
      ScalarDecodes(c, MangledText(rest));
      assert m[|Mangled(c)|..] == MangledText(rest);
    }
  }

  lemma AmpersandMangled()
    ensures Mangled(AMPERSAND) == "%26"
  {
    Escapes();
  }

  /** Decoding never gives more bytes than were encoded, and fewer when the text does not survive. */
  lemma {:induction false} NeverGrows(text: Text)
    ensures |Demangle(MangledText(text))| <= |Utf8Text(text)|
    ensures !Survives(text) ==> |Demangle(MangledText(text))| < |Utf8Text(text)|
    decreases |text|
  {
    hide MangledText, LooksLikeReference, ReferenceText, ReferenceLength, Utf8, Demangle;
    if text == [] {
      NothingToDecode();
    } else {
      var c, rest := text[0], text[1..];
      FirstStep(text);
      EncodesAsUtf8(c);
      if c == AMPERSAND && LooksLikeReference(rest) {
        Utf8Parts(c);
        FalseReferenceShrinks(rest);
        NeverGrows(rest[ReferenceLength(rest)..]);
      } else {
        NeverGrows(rest);
      }
    }
  }

  lemma NothingToDecode()
    ensures Demangle(MangledText([])) == []
  {
  }

  lemma {:induction false} SurvivorsReturn(text: Text)
    requires Survives(text)
    ensures Demangle(MangledText(text)) == Utf8Text(text)
    decreases |text|
  {
    hide MangledText, LooksLikeReference, ReferenceText, ReferenceLength, Utf8, Demangle;
    if text == [] {
      NothingToDecode();
    } else {
      FirstStep(text);
      SurvivorsReturn(text[1..]);
    }
  }

  /** Round trip: what decoding gives for an encoded text is that text exactly when it contains neither
      U+0800 nor what looks like a reference. */
  lemma RoundTrip(text: Text)
    ensures AreBytes(Utf8Text(text))
    ensures Demangle(Mangle(Utf8Text(text))) == Utf8Text(text) <==> Survives(text)
  {
    MangleIsMangled(text);
    NeverGrows(text);
    if Survives(text) { SurvivorsReturn(text); }
  }

  /** Not only literal references are lost: `&x2342;` is decoded to an asterisk. */
  lemma NotEvenAHash()
    ensures var text := [AMPERSAND, 0x78, TWO, THREE, 0x34, 0x32, SEMICOLON];
            Utf8Text(text) == "&x2342;" && !Survives(text)
  {
    var text: Text := [AMPERSAND, 0x78, TWO, THREE, 0x34, 0x32, SEMICOLON];
    assert text[1..] == [0x78, TWO, THREE, 0x34, 0x32, SEMICOLON];
    assert text[1..][3..] == [0x34, 0x32, SEMICOLON];
    var rest: Text := [0x34, 0x32, SEMICOLON];
    assert rest[1..] == [0x32, SEMICOLON] && rest[1..][1..] == [SEMICOLON];
    assert DigitCount([0x32, SEMICOLON]) == 1 + DigitCount([SEMICOLON]) == 1;
    assert DigitCount(rest) == 2;
    assert IsSingle(0x78);
    assert LooksLikeReference(text[1..]);
    Ascii(text);
  }

  lemma {:induction false} Ascii(text: Text)
    requires forall i :: 0 <= i < |text| ==> text[i] < 0x80
    ensures |Utf8Text(text)| == |text| && forall i :: 0 <= i < |text| ==> Utf8Text(text)[i] == text[i] as char
  {
    hide Utf8;
    if text != [] {
      Ascii(text[1..]);
      Utf8Parts(text[0]);
    }
  }
}
