/**
  Machines that read one character at a time, and may rewrite it. Reading in pieces is reading at once.
 */
module Machine {

  function Run<S>(step: (S, char) -> S, from: S, s: seq<char>): S {
    if s == [] then from else step(Run(step, from, s[..|s| - 1]), s[|s| - 1])
  }

  function Rewritten<S>(step: (S, char) -> S, edit: (S, char) -> char, from: S, s: seq<char>): (r: seq<char>)
    ensures |r| == |s|
  {
    if s == [] then []
    else Rewritten(step, edit, from, s[..|s| - 1]) + [edit(Run(step, from, s[..|s| - 1]), s[|s| - 1])]
  }

  lemma {:induction false} Append<S>(step: (S, char) -> S, edit: (S, char) -> char, from: S, s: seq<char>, t: seq<char>)
    ensures Run(step, from, s + t) == Run(step, Run(step, from, s), t)
    ensures Rewritten(step, edit, from, s + t)
         == Rewritten(step, edit, from, s) + Rewritten(step, edit, Run(step, from, s), t)
  {
    if t == [] {
      assert s + t == s;
    } else {
      var front := t[..|t| - 1];
      Append(step, edit, from, s, front);
      assert (s + t)[..|s + t| - 1] == s + front;
    }
  }

  lemma Snoc<S>(step: (S, char) -> S, edit: (S, char) -> char, from: S, s: seq<char>, i: nat)
    requires i < |s|
    ensures Run(step, from, s[..i + 1]) == step(Run(step, from, s[..i]), s[i])
    ensures Rewritten(step, edit, from, s[..i + 1])
         == Rewritten(step, edit, from, s[..i]) + [edit(Run(step, from, s[..i]), s[i])]
  {
    assert s[..i + 1][..i] == s[..i];
  }

  /** A rewritten character means what it meant, and is not rewritten again. */
  ghost predicate Faithful<S(!new)>(step: (S, char) -> S, edit: (S, char) -> char) {
    forall scan, c :: step(scan, edit(scan, c)) == step(scan, c) && edit(scan, edit(scan, c)) == edit(scan, c)
  }

  lemma {:induction false} RewrittenReadsTheSame<S(!new)>(step: (S, char) -> S, edit: (S, char) -> char, from: S,
                                                   s: seq<char>)
    requires Faithful(step, edit)
    ensures Run(step, from, Rewritten(step, edit, from, s)) == Run(step, from, s)
    ensures Rewritten(step, edit, from, Rewritten(step, edit, from, s)) == Rewritten(step, edit, from, s)
  {
    if s != [] {
      var front := s[..|s| - 1];
      RewrittenReadsTheSame(step, edit, from, front);
      var low := Rewritten(step, edit, from, s);
      assert low[..|s| - 1] == Rewritten(step, edit, from, front);
    }
  }
}
