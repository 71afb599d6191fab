/** Pieces of text, and where they stand in a longer one. */
module Texts {

  datatype Option<T> = None | Some(value: T)

  function Min(a: nat, b: nat): nat { if a < b then a else b }

  function Max(a: nat, b: nat): nat { if a < b then b else a }

  /** The text `t` stands in `s` at `at`. */
  predicate Has(s: string, at: nat, t: string) {
    at + |t| <= |s| && s[at..at + |t|] == t
  }

  lemma HasParts(s: string, at: nat, a: string, b: string)
    ensures Has(s, at, a + b) <==> Has(s, at, a) && Has(s, at + |a|, b)
    ensures Has(s, at, a + b) ==> at + |a| + |b| <= |s|
  {
    if at + |a| + |b| <= |s| {
      var whole := s[at..at + |a| + |b|];
      assert whole[..|a|] == s[at..at + |a|] && whole[|a|..] == s[at + |a|..at + |a| + |b|];
      if Has(s, at, a + b) {
        assert whole[..|a|] == a && whole[|a|..] == b;
      }
      if Has(s, at, a) && Has(s, at + |a|, b) {
        assert whole == whole[..|a|] + whole[|a|..];
      }
    }
  }

  function InLowerCase(c: char): char { if 'A' <= c <= 'Z' then (c as int + 32) as char else c }

  function AllLower(s: string): (r: string)
    ensures |r| == |s|
  {
    if s == [] then [] else AllLower(s[..|s| - 1]) + [InLowerCase(s[|s| - 1])]
  }

  lemma {:induction false} LowerTwice(s: string)
    ensures AllLower(AllLower(s)) == AllLower(s)
  {
    if s != [] {
      LowerTwice(s[..|s| - 1]);
      assert AllLower(s)[..|s| - 1] == AllLower(s[..|s| - 1]);
    }
  }

  function Join(parts: seq<string>): string {
    if parts == [] then [] else parts[0] + Join(parts[1..])
  }

  lemma JoinedThree(a: string, b: string, c: string)
    ensures a + (b + c) == a + b + c
  {
  }

  lemma {:induction false} JoinSplits(a: seq<string>, b: seq<string>)
    ensures Join(a + b) == Join(a) + Join(b)
  {
    if a == [] {
      assert a + b == b;
    } else {
      JoinSplits(a[1..], b);
      assert (a + b)[1..] == a[1..] + b;
      JoinedThree(a[0], Join(a[1..]), Join(b));
    }
  }

  /** One part more. */
  lemma JoinMore(parts: seq<string>, part: string)
    ensures Join(parts + [part]) == Join(parts) + part
  {
    JoinSplits(parts, [part]);
    assert Join([part]) == part + [] == part;
  }
}
