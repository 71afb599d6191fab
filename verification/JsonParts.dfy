/**
  JSON that is cut off: what the reader can read of a text it reads in the same way without what follows, and refuses
  without any of its own end.
 */
module JsonParts {
  import opened Decimal
  import opened JsonText
  import opened JsonInput
  import opened Texts

  lemma {:induction false} GapCut(s: string, n: nat, at: nat)
    requires at <= n <= |s|
    ensures SkipGap(s[..n], at) == Min(SkipGap(s, at), n)
    decreases n - at
  {
    if at < n && IsGap(s[at]) { GapCut(s, n, at + 1); }
  }

  lemma {:induction false} BodyCut(s: string, n: nat, at: nat)
    requires at <= n <= |s| && StringBody(s, at).Got?
    ensures StringBody(s[..n], at) == if StringBody(s, at).next <= n then StringBody(s, at) else Failed(ParseFault)
    decreases n - at
  {
    if at < n && s[at] != '"' {
      if s[at] != '\\' { BodyCut(s, n, at + 1); }
      else if at + 2 <= n { BodyCut(s, n, at + 2); }
    }
  }

  lemma {:induction false} ExpectCut(s: string, n: nat, at: nat, word: string)
    requires at <= n <= |s| && Expect(s, at, word).Got?
    ensures Expect(s[..n], at, word) == if at + |word| <= n then Expect(s, at, word) else Failed(ParseFault)
    decreases |word|
  {
    if word != [] && at < n { ExpectCut(s, n, at + 1, word[1..]); }
  }

  // Integers.

  lemma {:induction false} TailCut(s: string, n: nat, at: nat)
    requires at <= n <= |s|
    ensures NumberTail(s[..n], at) == Min(NumberTail(s, at), n)
    decreases n - at
  {
    if at < n && InNumber(s[at]) { TailCut(s, n, at + 1); }
  }

  lemma {:induction false} TailOver(s: string, at: nat, end: nat)
    requires at <= end <= |s| && forall i :: at <= i < end ==> InNumber(s[i])
    ensures NumberTail(s, at) == NumberTail(s, end)
    decreases end - at
  {
    if at < end { TailOver(s, at + 1, end); }
  }

  lemma {:induction false} RunCut(s: string, n: nat, at: nat)
    requires at <= n <= |s|
    ensures DigitRun(s[..n], at) == Min(DigitRun(s, at), n - at)
    decreases n - at
  {
    if at < n && IsDigit(s[at]) { RunCut(s, n, at + 1); }
  }

  /** All of what is taken for a number can be in a number. */
  lemma NumberLetters(s: string)
    ensures var used := FromChars(s, INT64_MIN, INT64_MAX).used;
            used <= |s| && forall i :: 0 <= i < used ==> InNumber(s[i])
  {
  }

  /** A number that is not over before the cut is taken for the same. */
  lemma NumberBefore(s: string, n: nat)
    requires n <= |s| && FromChars(s, INT64_MIN, INT64_MAX).value.Some?
    requires FromChars(s, INT64_MIN, INT64_MAX).used < n
    ensures FromChars(s[..n], INT64_MIN, INT64_MAX) == FromChars(s, INT64_MIN, INT64_MAX)
  {
    hide ValueOf, DigitRun;
    var sign := if s != [] && s[0] == '-' then 1 else 0;
    RunCut(s, n, sign);
    SliceBefore(s, n, sign, sign + DigitRun(s, sign));
  }

  lemma SliceBefore(s: string, n: nat, from: nat, to: nat)
    requires from <= to <= n <= |s|
    ensures s[..n][from..to] == s[from..to]
  {
  }

  lemma IntCut(s: string, n: nat, at: nat)
    requires at <= n <= |s| && IntAt(s, at).Got?
    ensures IntAt(s, at).next < n ==> IntAt(s[..n], at) == IntAt(s, at)
    ensures n <= IntAt(s, at).next ==> IntAt(s[..n], at).Failed?
  {
    hide FromChars, NumberTail, SkipGap;
    GapCut(s, n, at);
    var p := SkipGap(s, at);
    var parsed := FromChars(s[p..], INT64_MIN, INT64_MAX);
    var q := NumberTail(s, p + parsed.used);
    NumberLetters(s[p..]);
    if q < n {
      CutBehind(s, n, p);
      NumberBefore(s[p..], n - p);
      TailCut(s, n, p + parsed.used);
    } else {
      IntIsCut(s, n, at, p, parsed.used);
    }
  }

  lemma CutBehind(s: string, n: nat, p: nat)
    requires p <= n <= |s|
    ensures s[..n][p..] == s[p..][..n - p]
  {
  }

  lemma IntIsCut(s: string, n: nat, at: nat, p: nat, used: nat)
    requires at <= n <= |s| && p + used <= |s| && SkipGap(s[..n], at) == Min(p, n) && n <= NumberTail(s, p + used)
    requires forall i :: p <= i < p + used ==> InNumber(s[i])
    ensures IntAt(s[..n], at).Failed?
  {
    hide FromChars, SkipGap;
    var part, start := s[..n], Min(p, n);
    var parsed := FromChars(part[start..], INT64_MIN, INT64_MAX);
    NumberLetters(part[start..]);
    TailCovers(s, p + used);
    assert forall i :: start <= i < n ==> InNumber(part[i]);
    TailOver(part, start + parsed.used, n);
  }

  lemma {:induction false} TailCovers(s: string, at: nat)
    requires at <= |s|
    ensures forall i :: at <= i < NumberTail(s, at) ==> InNumber(s[i])
    decreases |s| - at
  {
    if at < |s| && InNumber(s[at]) { TailCovers(s, at + 1); }
  }

  lemma {:induction false} NumberTypeCut(s: string, n: nat, at: nat)
    requires at <= n <= |s| && NumberType(s, at) == TInteger
    ensures NumberType(s[..n], at) == TInteger
    decreases n - at
  {
    if at < n && IsDigit(s[at]) { NumberTypeCut(s, n, at + 1); }
  }

  /** The first character still tells the type. */
  lemma TypeCut(s: string, n: nat, at: nat)
    requires at < n <= |s| && TypeAt(s, at) != TFloat
    ensures TypeAt(s[..n], at) == TypeAt(s, at)
  {
    hide NumberType;
    if NumberType(s, at) == TInteger { NumberTypeCut(s, n, at); }
  }

  // Values.

  /** What a part gives: the same, if it holds all of what was read and, for an integer, one character more. */
  predicate Cut(whole: Read<Json>, part: Read<Json>, n: nat)
    requires whole.Got?
  {
    if whole.next < n || (whole.next == n && !whole.value.Int?) then part == whole else part.Failed?
  }

  lemma {:induction false} ValueCut(s: string, n: nat, at: nat)
    requires at <= n <= |s| && ValueAt(s, at).Got?
    ensures Cut(ValueAt(s, at), ValueAt(s[..n], at), n)
    decreases n - at, 0
  {
    hide IntAt, StringBody, Expect, ItemsAt, MembersAt, TypeAt, SkipGap;
    GapCut(s, n, at);
    var p := SkipGap(s, at);
    TypeTells(s, p);
    if p < n {
      TypeCut(s, n, p);
      GapOver(s, n, p);
      match TypeAt(s, p)
      case TInteger => IntCut(s, n, p);
      case TString => BodyCut(s, n, p + 1);
      case TBoolean => ExpectCut(s, n, p + 1, if s[p] == 't' then "rue" else "alse");
      case TNull => ExpectCut(s, n, p, "null");
      case TArray => ItemsCut(s, n, p + 1);
      case TObject => MembersCut(s, n, p + 1);
    } else {
      TypeTells(s[..n], n);
    }
  }

  lemma TypeTells(s: string, p: nat)
    ensures TypeAt(s, p) == TInvalid || p < |s|
    ensures p >= |s| ==> TypeAt(s, p) == TInvalid
    ensures TypeAt(s, p) != TInvalid ==> !IsGap(s[p])
  {
  }

  lemma GapOver(s: string, n: nat, p: nat)
    requires p < n <= |s| && !IsGap(s[p])
    ensures SkipGap(s, p) == p && SkipGap(s[..n], p) == p
  {
  }

  lemma {:induction false} ItemsCut(s: string, n: nat, at: nat)
    requires at <= n <= |s| && ItemsAt(s, at).Got?
    ensures if ItemsAt(s, at).next <= n then ItemsAt(s[..n], at) == ItemsAt(s, at) else ItemsAt(s[..n], at).Failed?
    decreases n - at, 1
  {
    hide ValueAt, SkipGap;
    GapCut(s, n, at);
    var p := SkipGap(s, at);
    if p < n && s[p] != ']' {
      ValueCut(s, n, p);
      var next := ValueAt(s, p).next;
      if next <= n { ItemsCut(s, n, next); }
    }
  }

  lemma {:induction false} MembersCut(s: string, n: nat, at: nat)
    requires at <= n <= |s| && MembersAt(s, at).Got?
    ensures if MembersAt(s, at).next <= n then MembersAt(s[..n], at) == MembersAt(s, at)
            else MembersAt(s[..n], at).Failed?
    decreases n - at, 1
  {
    hide ValueAt, SkipGap, StringBody;
    GapCut(s, n, at);
    var p := SkipGap(s, at);
    if p < n && s[p] != '}' {
      NameCut(s, n, p);
      var colon := StringAt(s, p).next;
      if colon <= n {
        ValueCut(s, n, colon);
        var next := ValueAt(s, colon).next;
        if next <= n { MembersCut(s, n, next); }
      }
    }
  }

  lemma NameCut(s: string, n: nat, p: nat)
    requires p < n <= |s| && !IsGap(s[p]) && StringAt(s, p).Got?
    ensures if StringAt(s, p).next <= n then StringAt(s[..n], p) == StringAt(s, p) else StringAt(s[..n], p).Failed?
  {
    hide StringBody;
    GapOver(s, n, p);
    BodyCut(s, n, p + 1);
  }
}
