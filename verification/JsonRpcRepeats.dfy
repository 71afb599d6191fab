/**
  Requests in which names come more than once: which of them count. (Identifiers come once; a second one would start
  a second response inside of the first.)
 */
module JsonRpcRepeats {
  import opened JsonText
  import opened JsonRpc
  import opened Texts
  import Callables

  /** What a request comes to. */
  predicate Same(a: State, b: State) { a.calls == b.calls && Response(a) == Response(b) && a.failed == b.failed }

  /** A member after which everything is as it was before it. */
  lemma {:induction false} WithoutIt(server: Server, front: seq<Member>, extra: Member, rest: seq<Member>)
    requires var state := Steps(server, front); state.failed || Step(server, state, extra) == state
    ensures Steps(server, front + [extra] + rest) == Steps(server, front + rest)
    decreases |rest|
  {
    hide Step;
    if rest == [] {
      assert front + [extra] + rest == front + [extra] && front + rest == front;
      assert (front + [extra])[..|front|] == front;
    } else {
      var less, last := rest[..|rest| - 1], rest[|rest| - 1];
      WithoutIt(server, front, extra, less);
      var a, b := front + [extra] + rest, front + rest;
      assert a[..|a| - 1] == front + [extra] + less && b[..|b| - 1] == front + less;
      assert a[|a| - 1] == last == b[|b| - 1];
    }
  }

  lemma {:induction false} MethodIsSeen(server: Server, members: seq<Member>, i: nat)
    requires i < |members| && members[i].name == "method"
    ensures var state := Steps(server, members); state.failed || state.callee.Some?
    decreases |members|
  {
    if i < |members| - 1 {
      assert members[..|members| - 1][i] == members[i];
      MethodIsSeen(server, members[..|members| - 1], i);
    }
  }

  /** Only the first method counts, whatever there is behind it. */
  lemma OnlyFirstMethod(server: Server, front: seq<Member>, i: nat, second: Json, rest: seq<Member>)
    requires i < |front| && front[i].name == "method"
    ensures Same(Finished(server, front + [Member("method", second)] + rest), Finished(server, front + rest))
  {
    hide Steps;
    MethodIsSeen(server, front, i);
    WithoutIt(server, front, Member("method", second), rest);
  }

  /** The version may be said any number of times. */
  lemma VersionAgain(server: Server, front: seq<Member>, rest: seq<Member>)
    ensures Same(Finished(server, front + [Member("jsonrpc", Str("2.0"))] + rest), Finished(server, front + rest))
  {
    hide Steps;
    WithoutIt(server, front, Member("jsonrpc", Str("2.0")), rest);
  }

  /** Of parameters without a call between them the last count. */
  lemma {:induction false} LastParamsCount(server: Server, front: seq<Member>, first: Json, between: seq<Member>,
                                           second: Json, rest: seq<Member>)
    requires forall i :: 0 <= i < |between| ==> between[i].name != "params"
    requires var all := front + between; NoneNamed(all, "id") || NoneNamed(all, "method")
    ensures var later := [Member("params", second)] + rest;
            Same(Finished(server, front + [Member("params", first)] + between + later),
                 Finished(server, front + between + later))
  {
    hide Step;
    var more := front + [Member("params", first)];
    assert more[..|front|] == front;
    var all := front + between;
    assert forall i :: 0 <= i < |front| ==> front[i] == all[i];
    FirstDiffers(server, front, first);
    DiffersOn(server, front, more, between);
    DifferenceEnds(server, more + between, front + between, second, rest);
    assert more + between + ([Member("params", second)] + rest)
        == (more + between) + [Member("params", second)] + rest;
    assert front + between + ([Member("params", second)] + rest)
        == (front + between) + [Member("params", second)] + rest;
  }

  predicate NoneNamed(members: seq<Member>, name: string) {
    forall i :: 0 <= i < |members| ==> members[i].name != name
  }

  /** Two states that know the same but for the parameters, before a call. */
  predicate ButParams(a: State, b: State) {
    && a.(params := None) == b.(params := None)
    && !a.called && (a.failed || a.id.None? || a.callee.None?)
  }

  lemma {:induction false} NotKnown(server: Server, members: seq<Member>)
    ensures NoneNamed(members, "id") ==> Steps(server, members).id.None?
    ensures NoneNamed(members, "method") ==> Steps(server, members).callee.None?
    ensures Steps(server, members).called ==> Steps(server, members).id.Some? && Steps(server, members).callee.Some?
    decreases |members|
  {
    if members != [] { NotKnown(server, members[..|members| - 1]); }
  }

  lemma FirstDiffers(server: Server, front: seq<Member>, first: Json)
    requires NoneNamed(front, "id") || NoneNamed(front, "method")
    ensures ButParams(Steps(server, front + [Member("params", first)]), Steps(server, front))
  {
    var more := front + [Member("params", first)];
    assert more[..|front|] == front;
    NotKnown(server, front);
  }

  lemma {:induction false} DiffersOn(server: Server, front: seq<Member>, more: seq<Member>, between: seq<Member>)
    requires ButParams(Steps(server, more), Steps(server, front))
    requires forall i :: 0 <= i < |between| ==> between[i].name != "params"
    requires NoneNamed(front + between, "id") || NoneNamed(front + between, "method")
    ensures ButParams(Steps(server, more + between), Steps(server, front + between))
    decreases |between|
  {
    hide Step;
    if between == [] {
      assert front + between == front && more + between == more;
    } else {
      var less, last := between[..|between| - 1], between[|between| - 1];
      var a, b := more + between, front + between;
      assert a[..|a| - 1] == more + less && b[..|b| - 1] == front + less;
      assert forall i :: 0 <= i < |front + less| ==> (front + less)[i] == b[i];
      assert b[|b| - 1] == last == a[|a| - 1];
      DiffersOn(server, front, more, less);
      NotKnown(server, b);
      if !Steps(server, more + less).failed {
        OneStepOn(server, Steps(server, more + less), Steps(server, front + less), last);
      }
    }
  }

  lemma OneStepOn(server: Server, a: State, b: State, member: Member)
    requires ButParams(a, b) && member.name != "params" && !a.failed
    requires var next := Step(server, b, member); next.id.None? || next.callee.None?
    ensures ButParams(Step(server, a, member), Step(server, b, member))
  {
  }

  lemma {:induction false} DifferenceEnds(server: Server, a: seq<Member>, b: seq<Member>, second: Json,
                                          rest: seq<Member>)
    requires ButParams(Steps(server, a), Steps(server, b))
    ensures Same(Finished(server, a + [Member("params", second)] + rest),
                 Finished(server, b + [Member("params", second)] + rest))
  {
    hide Step;
    var last := Member("params", second);
    assert (a + [last])[..|a|] == a && (b + [last])[..|b|] == b;
    if Steps(server, a).failed {
      StaysFailed(server, a, [last] + rest);
      StaysFailed(server, b, [last] + rest);
      assert a + ([last] + rest) == a + [last] + rest && b + ([last] + rest) == b + [last] + rest;
    } else {
      ParamsStored(server, Steps(server, a), Steps(server, b), second);
      SameOn(server, a + [last], b + [last], rest);
    }
  }

  lemma ParamsStored(server: Server, a: State, b: State, second: Json)
    requires ButParams(a, b)
    ensures Step(server, a, Member("params", second)) == Step(server, b, Member("params", second))
  {
  }

  lemma {:induction false} StaysFailed(server: Server, front: seq<Member>, rest: seq<Member>)
    requires Steps(server, front).failed
    ensures Steps(server, front + rest) == Steps(server, front)
    decreases |rest|
  {
    hide Step;
    if rest == [] {
      assert front + rest == front;
    } else {
      var all := front + rest;
      assert all[..|all| - 1] == front + rest[..|rest| - 1];
      StaysFailed(server, front, rest[..|rest| - 1]);
    }
  }

  lemma {:induction false} SameOn(server: Server, a: seq<Member>, b: seq<Member>, rest: seq<Member>)
    requires Steps(server, a) == Steps(server, b)
    ensures Steps(server, a + rest) == Steps(server, b + rest)
    decreases |rest|
  {
    hide Step;
    if rest == [] {
      assert a + rest == a && b + rest == b;
    } else {
      var x, y := a + rest, b + rest;
      assert x[..|x| - 1] == a + rest[..|rest| - 1] && y[..|y| - 1] == b + rest[..|rest| - 1];
      SameOn(server, a, b, rest[..|rest| - 1]);
    }
  }

  /** But parameters that follow a call make another one: a proper request that names all three, and then parameters
      once more, calls the method twice, and the response holds both results. */
  lemma ParamsAgain(server: Server, members: seq<Member>, second: Json)
    requires Proper(server, members) && Lookup(members, "id").Some? && Lookup(members, "params").Some?
    requires NamesMethod(server, members) && server.procedure(TheCall(server, members)).Returned?
    ensures var first := TheCall(server, members);
            var again := Call(first.callee, Some(second));
            var state := Finished(server, members + [Member("params", second)]);
            && state.calls == [first, again]
            && Response(state) == Some(Obj(true, [Member("jsonrpc", Str("2.0")), Echo(Lookup(members, "id").value),
                                                  ReplyTo(server, first), ReplyTo(server, again)]))
  {
    hide Lookup, Callables.Found;
    StepsKnow(server, members);
    var more := members + [Member("params", second)];
    assert more[..|members|] == members;
    CallsAgain(server, Steps(server, members), second);
  }

  lemma CallsAgain(server: Server, state: State, second: Json)
    requires state.called && !state.failed && state.callee.Some? && state.id.Some?
    requires |state.calls| == 1 && |state.reply| == 1
    ensures var again := Call(state.callee.value, Some(second));
            var after := Step(server, state, Member("params", second));
            && after.calls == [state.calls[0], again] && after.called
            && Response(after) == Some(Obj(true, [Member("jsonrpc", Str("2.0")), Member("id", state.id.value),
                                                  state.reply[0], ReplyTo(server, again)]))
  {
    var again := Call(state.callee.value, Some(second));
    var after := Step(server, state, Member("params", second));
    assert after.calls == [state.calls[0], again] && after.reply == [state.reply[0], ReplyTo(server, again)];
    assert ReplyMembers(after) == [Member("jsonrpc", Str("2.0")), Member("id", state.id.value), state.reply[0],
                                   ReplyTo(server, again)];
  }
}
