/** Decimal text, as `std::to_chars` writes it and `std::from_chars` reads it. */
module Decimal {
  import opened Texts

  predicate IsDigit(c: char) { '0' <= c <= '9' }

  predicate AllDigits(s: string) { forall i :: 0 <= i < |s| ==> IsDigit(s[i]) }

  function DigitOf(c: char): (d: nat)
    requires IsDigit(c)
    ensures d < 10
  {
    c as int - '0' as int
  }

  function DigitChar(d: nat): (c: char)
    requires d < 10
    ensures IsDigit(c) && DigitOf(c) == d
  {
    ('0' as int + d) as char
  }

  function ValueOf(digits: string): nat
    requires AllDigits(digits)
  {
    if digits == [] then 0
    else 10 * ValueOf(digits[..|digits| - 1]) + DigitOf(digits[|digits| - 1])
  }

  /** The digits of a number, without leading zeros. */
  function TextOf(n: nat): (s: string)
    ensures s != [] && AllDigits(s) && ValueOf(s) == n
    ensures s[0] == '0' ==> n == 0
  {
    if n < 10 then [DigitChar(n)]
    else
      var front := TextOf(n / 10);
      assert (front + [DigitChar(n % 10)])[..|front|] == front;
      front + [DigitChar(n % 10)]
  }

  function IntText(v: int): (s: string)
    ensures s != []
  {
    if v < 0 then ['-'] + TextOf(-v) else TextOf(v)
  }

  function Power10(n: nat): nat { if n == 0 then 1 else 10 * Power10(n - 1) }

  /** A number is below a power of ten exactly when it has no more digits than that has zeros. */
  lemma {:induction false} NumberOfDigits(n: nat, k: nat)
    requires k > 0
    ensures |TextOf(n)| <= k <==> n < Power10(k)
    decreases k
  {
    if k == 1 {
      assert Power10(1) == 10;
    } else if n >= 10 {
      NumberOfDigits(n / 10, k - 1);
    } else {
      TenIsSmall(k);
    }
  }

  lemma {:induction false} TenIsSmall(k: nat)
    requires k > 0
    ensures 10 <= Power10(k)
  {
    if k > 1 { TenIsSmall(k - 1); }
  }

  /** How many digits `s` has from position `from` on. */
  function DigitRun(s: string, from: nat): (n: nat)
    requires from <= |s|
    ensures from + n <= |s|
    ensures forall i :: from <= i < from + n ==> IsDigit(s[i])
    ensures from + n < |s| ==> !IsDigit(s[from + n])
    decreases |s| - from
  {
    if from < |s| && IsDigit(s[from]) then 1 + DigitRun(s, from + 1) else 0
  }

  /** `used` characters matched; `value` is absent when nothing matched or the number is out of range,
      and then the caller's variable keeps what it had. */
  datatype Parsed = Parsed(value: Option<int>, used: nat)

  const INT_MIN := -0x8000_0000
  const INT_MAX := 0x7fff_ffff
  const INT64_MIN := -0x8000_0000_0000_0000
  const INT64_MAX := 0x7fff_ffff_ffff_ffff

  /** A conversion to a 32-bit integer: it keeps the low bits. */
  function AsInt32(n: int): (i: int)
    ensures INT_MIN <= i <= INT_MAX
    ensures INT_MIN <= n <= INT_MAX <==> i == n
  {
    var low := n % 0x1_0000_0000;
    if low <= INT_MAX then low else low - 0x1_0000_0000
  }

  function FromChars(s: string, low: int, high: int): (r: Parsed)
    ensures r.used <= |s|
  {
    var sign := if s != [] && s[0] == '-' then 1 else 0;
    var n := DigitRun(s, sign);
    if n == 0 then
      Parsed(None, 0)
    else
      var magnitude: int := ValueOf(s[sign..sign + n]);
      var v := if sign == 1 then -magnitude else magnitude;
      Parsed(if low <= v <= high then Some(v) else None, sign + n)
  }

  lemma {:induction false} DigitRunIs(s: string, from: nat, n: nat)
    requires from + n <= |s|
    requires forall i :: from <= i < from + n ==> IsDigit(s[i])
    requires from + n < |s| ==> !IsDigit(s[from + n])
    ensures DigitRun(s, from) == n
    decreases n
  {
    if n > 0 {
      DigitRunIs(s, from + 1, n - 1);
    }
  }

  /** The text begins with this number: a sign or none, `d` digits, and no further digit. */
  predicate BeginsWith(s: string, d: nat, n: int) {
    var sign := if s != [] && s[0] == '-' then 1 else 0;
    && 0 < d && sign + d <= |s| && AllDigits(s[sign..sign + d])
    && (sign + d < |s| ==> s[sign + d] < '0' || '9' < s[sign + d])
    && var magnitude: int := ValueOf(s[sign..sign + d]);
       n == if sign == 1 then -magnitude else magnitude
  }

  predicate StandsFor(s: string, n: int) { exists d :: 0 < d <= |s| && BeginsWith(s, d, n) }

  /** What a text is converted to: the number that it begins with, if that is in range. */
  lemma FromCharsExactly(s: string, n: int, low: int, high: int)
    ensures FromChars(s, low, high).value == Some(n) <==> low <= n <= high && StandsFor(s, n)
  {
    hide ValueOf;
    var sign := if s != [] && s[0] == '-' then 1 else 0;
    var run := DigitRun(s, sign);
    if run > 0 {
      var magnitude: int := ValueOf(s[sign..sign + run]);
      assert BeginsWith(s, run, if sign == 1 then -magnitude else magnitude);
    }
    if d :| 0 < d <= |s| && BeginsWith(s, d, n) {
      forall i | sign <= i < sign + d ensures IsDigit(s[i]) {
        assert s[i] == s[sign..sign + d][i - sign];
      }
      DigitRunIs(s, sign, d);
    }
  }

  /** Reading back what was written, whatever comes next, unless it is another digit. */
  lemma FromCharsReadsText(v: int, rest: string, low: int, high: int)
    requires low <= v <= high
    requires rest != [] ==> !IsDigit(rest[0])
    ensures FromChars(IntText(v) + rest, low, high) == Parsed(Some(v), |IntText(v)|)
  {
    var s := IntText(v) + rest;
    var digits := TextOf(if v < 0 then -v else v);
    var sign := if v < 0 then 1 else 0;
    assert sign == (if s[0] == '-' then 1 else 0);
    assert s[sign..sign + |digits|] == digits;
    forall i | sign <= i < sign + |digits| ensures IsDigit(s[i]) {
      assert s[i] == digits[i - sign];
    }
    assert sign + |digits| < |s| ==> s[sign + |digits|] == rest[0];
    DigitRunIs(s, sign, |digits|);
  }
}
