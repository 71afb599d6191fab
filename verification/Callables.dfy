/**
  Trees of remote callables, and how one is named by a path of names. Callables are numbered so that a
  parent comes before its children; the number stands for its address.
 */
module Callables {

  datatype Link = NoCallable | Callable(node: nat)

  datatype Tree = Tree(parent: seq<Link>, name: seq<string>, children: seq<seq<nat>>)

  const ROOT: nat := 0

  ghost predicate Valid(t: Tree) {
    && |t.parent| == |t.name| == |t.children| > 0
    && t.parent[ROOT] == NoCallable
    && (forall x :: 0 < x < |t.parent| ==> t.parent[x].Callable? && t.parent[x].node < x)
    && (forall x :: 0 < x < |t.parent| ==> x in t.children[t.parent[x].node])
    && (forall p, k :: 0 <= p < |t.parent| && 0 <= k < |t.children[p]| ==>
          t.children[p][k] < |t.parent| && t.parent[t.children[p][k]] == Callable(p))
    && (forall p, j, k :: 0 <= p < |t.parent| && 0 <= j < k < |t.children[p]| ==> t.children[p][j] != t.children[p][k])
  }

  /** `getChild` by index. */
  function ChildAt(t: Tree, node: nat, index: int): Link {
    if node < |t.children| && 0 <= index < |t.children[node]| then Callable(t.children[node][index]) else NoCallable
  }

  /** `getChild` by name: the first child with it. */
  function ChildNamed(t: Tree, node: nat, name: string): Link {
    if node < |t.children| then FirstNamed(t, t.children[node], name) else NoCallable
  }

  function FirstNamed(t: Tree, nodes: seq<nat>, name: string): Link
    decreases |nodes|
  {
    if nodes == [] then NoCallable
    else if nodes[0] < |t.name| && t.name[nodes[0]] == name then Callable(nodes[0])
    else FirstNamed(t, nodes[1..], name)
  }

  // Paths of names.

  /** `prependPath`. */
  function PathBefore(t: Tree, x: nat, separator: string): string
    requires Valid(t) && x < |t.parent|
  {
    if t.parent[x] == NoCallable then [] else PathBefore(t, t.parent[x].node, separator) + t.name[x] + separator
  }

  /** `constructPath`. */
  function PathOf(t: Tree, x: nat, separator: string): string
    requires Valid(t) && x < |t.parent|
  {
    if t.parent[x] == NoCallable then [] else PathBefore(t, t.parent[x].node, separator) + t.name[x]
  }

  predicate SeparatorAt(path: string, at: nat, separator: string) {
    at + |separator| <= |path| && path[at..at + |separator|] == separator
  }

  /** Where a name that begins at `at` is taken to end: at the last character of the next separator. */
  function NameEnd(path: string, at: nat, separator: string): (end: nat)
    requires separator != [] && at <= |path|
    ensures at <= end <= |path|
    decreases |path| - at
  {
    if at == |path| then |path|
    else if SeparatorAt(path, at, separator) then at + |separator| - 1
    else NameEnd(path, at + 1, separator)
  }

  function Found(t: Tree, path: string, start: nat, current: nat, separator: string): Link
    requires separator != []
    decreases |path| - start
  {
    if start >= |path| then Callable(current)
    else
      var end := NameEnd(path, start, separator);
      var child := ChildNamed(t, current, path[start..end]);
      if child == NoCallable then NoCallable else Found(t, path, end + 1, child.node, separator)
  }

  method MatchSeparator(path: string, end: nat, separator: string) returns (found: bool)
    requires separator != [] && end < |path|
    ensures found == SeparatorAt(path, end, separator)
  {
    var i := 0;
    while i < |separator| && end + i != |path| && path[end + i] == separator[i]
      invariant i < |separator| && end + i <= |path|
      invariant path[end..end + i] == separator[..i]
      decreases |separator| - i
    {
      assert path[end..end + i + 1] == path[end..end + i] + [path[end + i]]
          == separator[..i] + [separator[i]] == separator[..i + 1];
      if i + 1 == |separator| {
        assert separator[..i + 1] == separator;
        return true;
      }
      i := i + 1;
    }
    found := false;
  }

  method FindCallable(t: Tree, path: string, root: nat, separator: string) returns (current: Link)
    requires separator != []
    ensures current == Found(t, path, 0, root, separator)
  {
    var start := 0;
    current := Callable(root);
    while start < |path|
      invariant current.Callable?
      invariant Found(t, path, start, current.node, separator) == Found(t, path, 0, root, separator)
      decreases |path| - start
    {
      var end := start;
      var foundSeparator := false;
      while end != |path| && !foundSeparator
        invariant start <= end <= |path|
        invariant if foundSeparator then end == NameEnd(path, start, separator)
                  else NameEnd(path, end, separator) == NameEnd(path, start, separator)
        decreases |path| - end, !foundSeparator
      {
        foundSeparator := MatchSeparator(path, end, separator);
        if foundSeparator { end := end + |separator| - 1; } else { end := end + 1; }
      }
      current := ChildNamed(t, current.node, path[start..end]);
      if current == NoCallable {
        return;
      }
      start := end + 1;
    }
  }

  // The round trip.

  /** Children of one parent have names of their own. */
  ghost predicate SiblingsDiffer(t: Tree)
    requires Valid(t)
  {
    forall x, y :: 0 < x < |t.parent| && 0 < y < |t.parent| && t.parent[x] == t.parent[y] && t.name[x] == t.name[y] ==>
        x == y
  }

  predicate Free(name: string, separator: string) { forall i :: 0 <= i < |name| ==> name[i] !in separator }

  predicate NamesAreFree(t: Tree, separator: string) { forall i :: 0 <= i < |t.name| ==> Free(t.name[i], separator) }

  lemma {:induction false} FirstNamedIs(t: Tree, nodes: seq<nat>, x: nat)
    requires x in nodes && x < |t.name|
    requires forall y <- nodes :: y < |t.name| && (t.name[y] == t.name[x] ==> y == x)
    ensures FirstNamed(t, nodes, t.name[x]) == Callable(x)
    decreases |nodes|
  {
    if nodes[0] != x { FirstNamedIs(t, nodes[1..], x); }
  }

  lemma ChildIsFound(t: Tree, x: nat)
    requires Valid(t) && SiblingsDiffer(t) && 0 < x < |t.parent|
    ensures ChildNamed(t, t.parent[x].node, t.name[x]) == Callable(x)
  {
    var p := t.parent[x].node;
    forall y | y in t.children[p] ensures y < |t.name| && (t.name[y] == t.name[x] ==> y == x) {
      var k :| 0 <= k < |t.children[p]| && t.children[p][k] == y;
    }
    FirstNamedIs(t, t.children[p], x);
  }

  /** A name that holds no character of the separator ends where the separator is, or where the path ends. */
  lemma {:induction false} FreeNameEnds(path: string, at: nat, name: string, tail: string, separator: string)
    requires separator != [] && Free(name, separator)
    requires at + |name| <= |path| && path[at..at + |name|] == name && path[at + |name|..] == tail
    requires tail == [] || separator <= tail
    ensures NameEnd(path, at, separator) == if tail == [] then |path| else at + |name| + |separator| - 1
    decreases |name|
  {
    if name == [] {
      if tail != [] { assert path[at..at + |separator|] == tail[..|separator|]; }
    } else {
      assert path[at] == name[0];
      assert path[at + 1..at + |name|] == name[1..];
      FreeNameEnds(path, at + 1, name[1..], tail, separator);
    }
  }

  lemma Regroup(a: string, b: string, c: string, d: string)
    ensures a + b + c + d == a + (b + c + d) == a + (b + (c + d))
  {
  }

  /** One name further on the way. */
  lemma NextName(t: Tree, x: nat, front: string, separator: string, tail: string)
    requires Valid(t) && SiblingsDiffer(t) && NamesAreFree(t, separator) && |separator| == 1
    requires 0 < x < |t.parent|
    ensures var path := front + t.name[x] + separator + tail;
            Found(t, path, |front|, t.parent[x].node, separator)
                == Found(t, path, |front| + |t.name[x]| + 1, x, separator)
  {
    var name, p := t.name[x], t.parent[x].node;
    hide NameEnd, Valid, SiblingsDiffer, NamesAreFree, ChildNamed;
    var path := front + name + separator + tail;
    assert path[|front|..|front| + |name|] == name && path[|front| + |name|..] == separator + tail;
    FreeNameEnds(path, |front|, name, separator + tail, separator);
    ChildIsFound(t, x);
  }

  /** With a separator of one character, a walk along the path of `x` comes to `x`. */
  lemma {:induction false} WalksTo(t: Tree, x: nat, separator: string, tail: string)
    requires Valid(t) && SiblingsDiffer(t) && NamesAreFree(t, separator) && |separator| == 1
    requires x < |t.parent|
    ensures var before := PathBefore(t, x, separator);
            Found(t, before + tail, 0, ROOT, separator) == Found(t, before + tail, |before|, x, separator)
    decreases x
  {
    hide Found, SiblingsDiffer, NamesAreFree;
    if x == ROOT {
      assert t.parent[x] == NoCallable;
    } else {
      var front := PathBefore(t, t.parent[x].node, separator);
      WalksTo(t, t.parent[x].node, separator, t.name[x] + separator + tail);
      Regroup(front, t.name[x], separator, tail);
      NextName(t, x, front, separator, tail);
    }
  }

  lemma OneCharacter(t: Tree, x: nat, separator: string)
    requires Valid(t) && SiblingsDiffer(t) && NamesAreFree(t, separator) && |separator| == 1
    requires 0 < x < |t.parent|
    ensures Found(t, PathOf(t, x, separator), 0, ROOT, separator)
            == Callable(if t.name[x] == [] then t.parent[x].node else x)
  {
    hide Found, SiblingsDiffer, NamesAreFree;
    var front := PathBefore(t, t.parent[x].node, separator);
    WalksTo(t, t.parent[x].node, separator, t.name[x]);
    LastName(t, x, front, separator);
  }

  /** The last name on the way, if it is there. */
  lemma LastName(t: Tree, x: nat, front: string, separator: string)
    requires Valid(t) && SiblingsDiffer(t) && NamesAreFree(t, separator) && separator != []
    requires 0 < x < |t.parent|
    ensures Found(t, front + t.name[x], |front|, t.parent[x].node, separator)
            == Callable(if t.name[x] == [] then t.parent[x].node else x)
  {
    var name, p := t.name[x], t.parent[x].node;
    hide NameEnd, Valid, SiblingsDiffer, NamesAreFree, ChildNamed;
    var path := front + name;
    if name != [] {
      assert path[|front|..|front| + |name|] == name && path[|front| + |name|..] == [];
      FreeNameEnds(path, |front|, name, [], separator);
      ChildIsFound(t, x);
    }
  }

  lemma {:induction false} NobodyNamed(t: Tree, nodes: seq<nat>, name: string)
    requires forall k :: 0 <= k < |nodes| ==> nodes[k] < |t.name| && t.name[nodes[k]] != name
    ensures FirstNamed(t, nodes, name) == NoCallable
    decreases |nodes|
  {
    if nodes != [] { NobodyNamed(t, nodes[1..], name); }
  }

  /** The name of the child of the root that a path goes through first. */
  lemma {:induction false} PathBegins(t: Tree, x: nat, separator: string) returns (first: nat, tail: string)
    requires Valid(t) && 0 < x < |t.parent|
    ensures first < |t.parent|
    ensures PathBefore(t, x, separator) == t.name[first] + separator + tail
    decreases x
  {
    var p := t.parent[x].node;
    if p == ROOT {
      assert t.parent[p] == NoCallable;
      first, tail := x, [];
      assert [] + t.name[x] + separator == t.name[x] + separator + [];
    } else {
      first, tail := PathBegins(t, p, separator);
      tail := tail + t.name[x] + separator;
    }
  }

  /** Nobody has a name that ends with a character of the separator. */
  lemma NoSuchName(t: Tree, name: string, separator: string)
    requires Valid(t) && NamesAreFree(t, separator)
    requires name != [] && name[|name| - 1] in separator
    ensures ChildNamed(t, ROOT, name) == NoCallable
  {
    var nodes := t.children[ROOT];
    forall k | 0 <= k < |nodes| ensures nodes[k] < |t.name| && t.name[nodes[k]] != name {
      assert Free(t.name[nodes[k]], separator);
    }
    NobodyNamed(t, nodes, name);
  }

  /** A longer separator leaves its first characters in the name. */
  lemma LongSeparator(t: Tree, x: nat, separator: string)
    requires Valid(t) && NamesAreFree(t, separator) && |separator| > 1
    requires 0 < x < |t.parent| && t.parent[x].node != ROOT
    ensures Found(t, PathOf(t, x, separator), 0, ROOT, separator) == NoCallable
  {
    hide NameEnd, ChildNamed, PathBefore, Found;
    var first, tail := PathBegins(t, t.parent[x].node, separator);
    CutTooLate(t, t.name[first], separator, tail + t.name[x]);
    Regroup(t.name[first], separator, tail, t.name[x]);
  }

  lemma CutTooLate(t: Tree, name: string, separator: string, tail: string)
    requires Valid(t) && NamesAreFree(t, separator) && |separator| > 1 && Free(name, separator)
    ensures Found(t, name + (separator + tail), 0, ROOT, separator) == NoCallable
  {
    hide Valid, NamesAreFree, ChildNamed, NameEnd;
    var path := name + (separator + tail);
    assert path[0..|name|] == name && path[|name|..] == separator + tail;
    FreeNameEnds(path, 0, name, separator + tail, separator);
    var cut := path[0..|name| + |separator| - 1];
    assert cut[|cut| - 1] == separator[|separator| - 2];
    NoSuchName(t, cut, separator);
  }

  /** A callable right below the root has no separator in its path. */
  lemma ShortPath(t: Tree, x: nat, separator: string)
    requires Valid(t) && SiblingsDiffer(t) && NamesAreFree(t, separator) && separator != []
    requires 0 < x < |t.parent| && t.parent[x].node == ROOT
    ensures Found(t, PathOf(t, x, separator), 0, ROOT, separator) == Callable(if t.name[x] == [] then ROOT else x)
  {
    hide Found, SiblingsDiffer, NamesAreFree;
    assert t.parent[ROOT] == NoCallable;
    LastName(t, x, [], separator);
    assert [] + t.name[x] == t.name[x];
  }

  /** Looking up the path of a callable finds it exactly when it is the root, or when its own name is not
      empty and its path needs no separator or one of a single character. */
  lemma PathRoundTrip(t: Tree, x: nat, separator: string)
    requires Valid(t) && SiblingsDiffer(t) && NamesAreFree(t, separator) && separator != []
    requires x < |t.parent|
    ensures Found(t, PathOf(t, x, separator), 0, ROOT, separator) == Callable(x)
            <==> x == ROOT || (t.name[x] != [] && (|separator| == 1 || t.parent[x].node == ROOT))
  {
    if x == ROOT {
      assert t.parent[x] == NoCallable;
    } else if t.parent[x].node == ROOT {
      ShortPath(t, x, separator);
    } else if |separator| == 1 {
      OneCharacter(t, x, separator);
    } else {
      LongSeparator(t, x, separator);
    }
  }

  // Any path at all, of callables that exist and of those that do not.

  /** The first child with a name: there is one exactly if some child has the name, and none before it has. */
  lemma {:induction false} FirstNamedExactly(t: Tree, nodes: seq<nat>, name: string)
    requires forall k :: 0 <= k < |nodes| ==> nodes[k] < |t.name|
    ensures match FirstNamed(t, nodes, name)
            case NoCallable => forall k :: 0 <= k < |nodes| ==> t.name[nodes[k]] != name
            case Callable(y) =>
              exists k :: 0 <= k < |nodes| && nodes[k] == y && t.name[y] == name
                          && forall j :: 0 <= j < k ==> t.name[nodes[j]] != name
    decreases |nodes|
  {
    if nodes != [] {
      var rest := nodes[1..];
      FirstNamedExactly(t, rest, name);
      assert forall k :: 0 <= k < |rest| ==> rest[k] == nodes[k + 1];
      if t.name[nodes[0]] != name {
        match FirstNamed(t, rest, name)
        case NoCallable =>
        case Callable(y) =>
          var k :| 0 <= k < |rest| && rest[k] == y && t.name[y] == name
                   && forall j :: 0 <= j < k ==> t.name[rest[j]] != name;
          assert nodes[k + 1] == y;
          assert forall j :: 0 < j < k + 1 ==> nodes[j] == rest[j - 1];
      } else {
        assert nodes[0] == nodes[0] && t.name[nodes[0]] == name;
      }
    }
  }

  /** No child of `node` has this name. */
  ghost predicate Childless(t: Tree, node: nat, name: string)
    requires Valid(t) && node < |t.parent|
  {
    forall k :: 0 <= k < |t.children[node]| ==> t.name[t.children[node][k]] != name
  }

  lemma ChildNamedExactly(t: Tree, node: nat, name: string)
    requires Valid(t) && node < |t.parent|
    ensures var child := ChildNamed(t, node, name);
            && (child == NoCallable <==> Childless(t, node, name))
            && (child.Callable? ==> child.node < |t.parent| && child.node in t.children[node]
                                    && t.name[child.node] == name)
  {
    var nodes := t.children[node];
    FirstNamedExactly(t, nodes, name);
    if FirstNamed(t, nodes, name).Callable? {
      var y := FirstNamed(t, nodes, name).node;
      var k :| 0 <= k < |nodes| && nodes[k] == y && t.name[y] == name;
      assert y in nodes;
    }
  }

  /** The names between the occurrences of a character. */
  function Split(path: string, c: char): (names: seq<string>)
    ensures names != []
    decreases |path|
  {
    if c !in path then [path]
    else
      var i := FirstPlace(path, c);
      [path[..i]] + Split(path[i + 1..], c)
  }

  function FirstPlace(path: string, c: char): (i: nat)
    requires c in path
    ensures i < |path| && path[i] == c && c !in path[..i]
  {
    if path[0] == c then 0
    else
      assert path == [path[0]] + path[1..];
      var i := FirstPlace(path[1..], c);
      assert path[..i + 1] == [path[0]] + path[1..][..i];
      i + 1
  }

  /** An empty name at the end is none. */
  function Real(names: seq<string>): seq<string> {
    if names != [] && names[|names| - 1] == "" then names[..|names| - 1] else names
  }

  /** From child to child along some names. */
  function Walk(t: Tree, node: nat, names: seq<string>): Link
    decreases |names|
  {
    if names == [] then Callable(node)
    else
      match ChildNamed(t, node, names[0])
      case NoCallable => NoCallable
      case Callable(child) => Walk(t, child, names[1..])
  }

  lemma RealLater(name: string, later: seq<string>)
    requires later != []
    ensures Real([name] + later) == [name] + Real(later)
  {
  }

  /** For every path, the lookup walks along the names in it. */
  lemma {:induction false} LookupWalks(t: Tree, path: string, start: nat, node: nat, c: char)
    requires start <= |path|
    ensures Found(t, path, start, node, [c]) == Walk(t, node, Real(Split(path[start..], c)))
    decreases |path| - start
  {
    hide ChildNamed, NameEnd, Real;
    var rest := path[start..];
    if start == |path| {
      assert rest == "";
      AloneIsReal(rest);
    } else if c !in rest {
      LastNameEnds(path, start, c);
      AloneIsReal(rest);
      assert path[start..|path|] == rest && Split(rest, c) == [rest];
      var none: seq<string> := [];
      assert [rest][1..] == none;
    } else {
      var i := FirstPlace(rest, c);
      NameEndsThere(path, start, i, c);
      assert path[start..start + i] == rest[..i];
      assert path[start + i + 1..] == rest[i + 1..];
      var later := Split(rest[i + 1..], c);
      RealLater(rest[..i], later);
      assert ([rest[..i]] + Real(later))[1..] == Real(later);
      match ChildNamed(t, node, rest[..i])
      case NoCallable =>
      case Callable(child) => LookupWalks(t, path, start + i + 1, child, c);
    }
  }

  lemma AloneIsReal(name: string)
    ensures Real([name]) == if name == "" then [] else [name]
  {
  }

  lemma {:induction false} LastNameEnds(path: string, start: nat, c: char)
    requires start <= |path| && c !in path[start..]
    ensures NameEnd(path, start, [c]) == |path|
    decreases |path| - start
  {
    if start < |path| {
      assert path[start] == path[start..][0];
      assert path[start + 1..] == path[start..][1..];
      LastNameEnds(path, start + 1, c);
    }
  }

  lemma {:induction false} NameEndsThere(path: string, start: nat, i: nat, c: char)
    requires start + i < |path| && path[start + i] == c && c !in path[start..][..i]
    ensures NameEnd(path, start, [c]) == start + i
    decreases i
  {
    if i == 0 {
      assert path[start..start + 1] == [c];
    } else {
      assert path[start] == path[start..][..i][0];
      assert path[start + 1..][..i - 1] == path[start..][..i][1..];
      NameEndsThere(path, start + 1, i - 1, c);
    }
  }

  /** The names before the `k`th lead to a callable, and no child of that has the `k`th name. */
  ghost predicate IsLost(t: Tree, node: nat, names: seq<string>, k: nat)
    requires Valid(t) && k < |names|
  {
    match Walk(t, node, names[..k])
    case NoCallable => false
    case Callable(x) => x < |t.parent| && Childless(t, x, names[k])
  }

  /** A walk comes to nothing exactly if some name on the way is no child's of the callable reached so far. */
  lemma {:induction false} WalkFails(t: Tree, node: nat, names: seq<string>)
    requires Valid(t) && node < |t.parent|
    ensures Walk(t, node, names) == NoCallable <==> exists k :: 0 <= k < |names| && IsLost(t, node, names, k)
    ensures Walk(t, node, names).Callable? ==> Walk(t, node, names).node < |t.parent|
    decreases |names|
  {
    hide Valid, ChildNamed, Childless, IsLost;
    if names != [] {
      ChildNamedExactly(t, node, names[0]);
      LostAtOnce(t, node, names);
      match ChildNamed(t, node, names[0])
      case NoCallable =>
        assert IsLost(t, node, names, 0);
      case Callable(child) =>
        var later := names[1..];
        WalkFails(t, child, later);
        forall k | 0 < k < |names| ensures IsLost(t, node, names, k) <==> IsLost(t, child, later, k - 1) {
          LostLater(t, node, names, k);
        }
        if k :| 0 <= k < |later| && IsLost(t, child, later, k) {
          assert IsLost(t, node, names, k + 1);
        }
    }
  }

  lemma LostAtOnce(t: Tree, node: nat, names: seq<string>)
    requires Valid(t) && node < |t.parent| && names != []
    ensures IsLost(t, node, names, 0) <==> Childless(t, node, names[0])
  {
    assert names[..0] == [];
  }

  lemma LostLater(t: Tree, node: nat, names: seq<string>, k: nat)
    requires Valid(t) && 0 < k < |names| && ChildNamed(t, node, names[0]).Callable?
    ensures IsLost(t, node, names, k)
        <==> IsLost(t, ChildNamed(t, node, names[0]).node, names[1..], k - 1)
  {
    hide Valid, ChildNamed, Childless;
    assert names[..k][0] == names[0] && names[..k][1..] == names[1..][..k - 1];
  }

  /** For every path and a separator of one character: the lookup finds nothing if and only if some name in the
      path is no child's of the callable that the names before it lead to. */
  lemma UnknownPath(t: Tree, path: string, c: char)
    requires Valid(t)
    ensures var names := Real(Split(path, c));
            Found(t, path, 0, ROOT, [c]) == NoCallable <==> exists k :: 0 <= k < |names| && IsLost(t, ROOT, names, k)
  {
    hide Valid, Found, Walk, Real, Split, IsLost;
    assert path[0..] == path;
    assert ROOT < |t.parent| by { RootExists(t); }
    LookupWalks(t, path, 0, ROOT, c);
    WalkFails(t, ROOT, Real(Split(path, c)));
  }

  lemma RootExists(t: Tree)
    requires Valid(t)
    ensures ROOT < |t.parent|
  {
  }
}
