/**
  The JSON-RPC 2.0 dispatcher. A request's members may come in any order: the dispatcher stores and
  restores reading positions so that the method is called once, when the identifier, the method and
  the parameters are all known, or after the last member. `Finished` says what a list of members
  causes; the class does it on the text of the request.
 */
module JsonRpc {
  import opened JsonText
  import opened Texts
  import Callables

  datatype Problem = Problem(code: int, message: string)

  /** What a callable does: it introduces its result, or raises an exception before that. */
  datatype Outcome = Returned(result: Json) | Raised(problem: Problem)

  /** A call of the callable with this number. */
  datatype Call = Call(callee: nat, params: Option<Json>)

  /** The callables behind the dispatcher, and what a call does. */
  datatype Server = Server(tree: Callables.Tree, procedure: Call -> Outcome)
  {
    /** The callable that a path leads to, if any. */
    function Find(path: string): Option<nat> {
      match Callables.Found(tree, path, 0, Callables.ROOT, ".")
      case NoCallable => None
      case Callable(node) => Some(node)
    }
  }

  const INVALID_REQUEST := -32600
  const METHOD_NOT_FOUND := -32601
  const INVALID_PARAMS := -32602

  /** `id` is present once the response was started; `reply` is what it holds behind the identifier. */
  datatype State = State(
    id: Option<Json>,
    callee: Option<nat>,
    params: Option<Json>,
    called: bool,
    failed: bool,
    reply: seq<Member>,
    calls: seq<Call>)

  const INITIAL := State(None, None, None, false, false, [], [])

  function ErrorMember(problem: Problem): Member {
    Member("error", Obj(true, [Member("code", Int(problem.code)), Member("message", Str(problem.message))]))
  }

  function IntroduceError(state: State, problem: Problem): State {
    state.(failed := true, reply := if state.id.Some? then state.reply + [ErrorMember(problem)] else state.reply)
  }

  /** Calls the method, if it is known. */
  function DoCall(server: Server, state: State): State {
    if state.callee.None? then state
    else
      var call := Call(state.callee.value, state.params);
      var during := state.(called := true, calls := state.calls + [call]);
      match server.procedure(call)
      case Returned(result) =>
        during.(reply := if during.id.Some? then during.reply + [Member("result", result)] else during.reply)
      case Raised(problem) => IntroduceError(during, problem)
  }

  /** An identifier that is no number, string or null is answered with null. */
  function IdWritten(value: Json): Json {
    if value.Int? || value.Str? then value else Null
  }

  const NOT_A_STRING := Problem(INVALID_PARAMS, "Expected JSON string")

  function Step(server: Server, state: State, member: Member): State {
    if member.name == "jsonrpc" then
      if !member.value.Str? then IntroduceError(state, NOT_A_STRING)
      else if member.value.s != "2.0" then IntroduceError(state, Problem(INVALID_REQUEST, "Unknown JSON-RPC version"))
      else state
    else if member.name == "id" then
      if state.called then state
      else
        var started := state.(id := Some(IdWritten(member.value)));
        if started.callee.Some? && started.params.Some? then DoCall(server, started) else started
    else if member.name == "method" then
      if state.callee.Some? then state
      else if !member.value.Str? then IntroduceError(state, NOT_A_STRING)
      else if server.Find(member.value.s).None? then
        IntroduceError(state, Problem(METHOD_NOT_FOUND, "Method not known"))
      else
        var found := state.(callee := server.Find(member.value.s));
        if found.id.Some? && found.params.Some? then DoCall(server, found) else found
    else if member.name == "params" then
      var stored := state.(params := Some(member.value));
      if stored.callee.Some? && stored.id.Some? then DoCall(server, stored) else stored
    else
      IntroduceError(state, Problem(INVALID_REQUEST, "Unexpected member in request"))
  }

  function Steps(server: Server, members: seq<Member>): State {
    if members == [] then INITIAL
    else
      var before := Steps(server, members[..|members| - 1]);
      if before.failed then before else Step(server, before, members[|members| - 1])
  }

  /** Behind the last member: a call that is still missing is made now. */
  function Finish(server: Server, state: State): State {
    if state.failed || state.called then state
    else if state.callee.None? then IntroduceError(state, Problem(METHOD_NOT_FOUND, "Method name not found in request"))
    else DoCall(server, state)
  }

  function Finished(server: Server, members: seq<Member>): State { Finish(server, Steps(server, members)) }

  function ReplyMembers(state: State): seq<Member>
    requires state.id.Some?
  {
    [Member("jsonrpc", Str("2.0")), Member("id", state.id.value)] + state.reply
  }

  /** The response, if one was started. */
  function Response(state: State): Option<Json> {
    if state.id.Some? then Some(Obj(true, ReplyMembers(state))) else None
  }

  // The order of members.

  function Lookup(members: seq<Member>, name: string): Option<Json> {
    if members == [] then None
    else if members[|members| - 1].name == name then Some(members[|members| - 1].value)
    else Lookup(members[..|members| - 1], name)
  }

  ghost predicate Distinct(members: seq<Member>) {
    forall i, j :: 0 <= i < j < |members| ==> members[i].name != members[j].name
  }

  /** A request as section 4 of the JSON-RPC 2.0 specification wants it, for a method that exists; the
      version may be left out. */
  ghost predicate Proper(server: Server, members: seq<Member>) {
    && Distinct(members)
    && (forall i :: 0 <= i < |members| ==> ProperMember(server, members[i]))
    && Lookup(members, "method").Some?
  }

  predicate ProperMember(server: Server, member: Member) {
    || member == Member("jsonrpc", Str("2.0"))
    || member.name == "id"
    || (member.name == "method" && member.value.Str? && server.Find(member.value.s).Some?)
    || member.name == "params"
  }

  /** These members ask for a method that exists. */
  predicate NamesMethod(server: Server, members: seq<Member>) {
    var path := Lookup(members, "method");
    path.Some? && path.value.Str? && server.Find(path.value.s).Some?
  }

  function TheCall(server: Server, members: seq<Member>): Call
    requires NamesMethod(server, members)
  {
    Call(server.Find(Lookup(members, "method").value.s).value, Lookup(members, "params"))
  }

  /** What a call adds to the response. */
  function ReplyTo(server: Server, call: Call): Member {
    match server.procedure(call)
    case Returned(result) => Member("result", result)
    case Raised(problem) => Complaint(problem)
  }

  /** An error object as section 5.1 of the JSON-RPC 2.0 specification has it. */
  function Complaint(problem: Problem): Member {
    Member("error", Obj(true, [Member("code", Int(problem.code)), Member("message", Str(problem.message))]))
  }

  /** Numbers and strings are given back, and nothing else is. */
  function Echo(id: Json): Member {
    match id
    case Int(i) => Member("id", Int(i))
    case Str(t) => Member("id", Str(t))
    case _ => Member("id", Null)
  }

  lemma {:induction false} LookupMember(members: seq<Member>, i: nat)
    requires Distinct(members) && i < |members|
    ensures Lookup(members, members[i].name) == Some(members[i].value)
  {
    if i < |members| - 1 {
      assert members[..|members| - 1][i] == members[i];
      LookupMember(members[..|members| - 1], i);
    }
  }

  lemma {:induction false} LookupIsMember(members: seq<Member>, name: string)
    ensures Lookup(members, name).Some? ==> Member(name, Lookup(members, name).value) in members
    ensures Lookup(members, name).None? ==> forall i :: 0 <= i < |members| ==> members[i].name != name
  {
    if members != [] {
      LookupIsMember(members[..|members| - 1], name);
      assert members == members[..|members| - 1] + [members[|members| - 1]];
    }
  }

  /** What the dispatcher knows after some members of a proper request, and whether it has called. */
  ghost predicate KnowsThus(server: Server, members: seq<Member>, state: State) {
    var id, path, params := Lookup(members, "id"), Lookup(members, "method"), Lookup(members, "params");
    && (path.Some? ==> NamesMethod(server, members))
    && (state.id.Some? <==> id.Some?) && (id.Some? ==> Member("id", state.id.value) == Echo(id.value))
    && state.callee == (if path.Some? then server.Find(path.value.s) else None)
    && state.params == params
    && state.called == (id.Some? && path.Some? && params.Some?)
    && if state.called then
         && state.calls == [TheCall(server, members)]
         && state.reply == [ReplyTo(server, TheCall(server, members))]
         && state.failed == server.procedure(TheCall(server, members)).Raised?
       else
         state.calls == [] && state.reply == [] && !state.failed
  }

  lemma {:induction false} StepsKnow(server: Server, members: seq<Member>)
    requires Distinct(members) && forall i :: 0 <= i < |members| ==> ProperMember(server, members[i])
    ensures KnowsThus(server, members, Steps(server, members))
  {
    if members != [] {
      var front, last := members[..|members| - 1], members[|members| - 1];
      StepsKnow(server, front);
      LookupIsMember(front, last.name);
      forall i | 0 <= i < |front| ensures front[i].name != last.name {
        assert front[i] == members[i];
      }
      StepKnows(server, members);
    }
  }

  lemma StepKnows(server: Server, members: seq<Member>)
    requires members != [] && ProperMember(server, members[|members| - 1])
    requires Lookup(members[..|members| - 1], members[|members| - 1].name).None?
    requires KnowsThus(server, members[..|members| - 1], Steps(server, members[..|members| - 1]))
    ensures KnowsThus(server, members, Steps(server, members))
  {
  }

  /** A proper request, whatever the order of its members: the method is called exactly once, with
      exactly the parameters; with an identifier the response holds the version, the identifier and what
      the call gave, in this order, and without one there is none. */
  lemma ProperRequest(server: Server, members: seq<Member>)
    requires Proper(server, members)
    ensures NamesMethod(server, members)
    ensures var call := TheCall(server, members);
            var state := Finished(server, members);
            && state.calls == [call]
            && state.failed == server.procedure(call).Raised?
            && Response(state) ==
               match Lookup(members, "id")
               case None => None
               case Some(id) =>
                 Some(Obj(true, [Member("jsonrpc", Str("2.0")), Echo(id), ReplyTo(server, call)]))
  {
    StepsKnow(server, members);
    LookupIsMember(members, "method");
    var state := Finished(server, members);
    if state.id.Some? {
      assert ReplyMembers(state) == [Member("jsonrpc", Str("2.0")), Member("id", state.id.value), state.reply[0]];
    }
  }

  // Every request without repeated names, whatever is wrong with it.

  function FirstWrong(server: Server, members: seq<Member>): (k: nat)
    ensures k <= |members|
    ensures forall i :: 0 <= i < k ==> ProperMember(server, members[i])
    ensures k < |members| ==> !ProperMember(server, members[k])
  {
    if members == [] || !ProperMember(server, members[0]) then 0
    else
      var rest := members[1..];
      assert forall i :: 0 <= i < |rest| ==> rest[i] == members[i + 1];
      1 + FirstWrong(server, rest)
  }

  /** What is complained about, with the codes of section 5.1 of the JSON-RPC 2.0 specification. */
  function Wrong(member: Member): Problem {
    if member.name == "method" then
      if member.value.Str? then Problem(-32601, "Method not known") else Problem(-32602, "Expected JSON string")
    else if member.name == "jsonrpc" then
      if member.value.Str? then Problem(-32600, "Unknown JSON-RPC version") else Problem(-32602, "Expected JSON string")
    else
      Problem(-32600, "Unexpected member in request")
  }

  /** The members before the first wrong one are enough for a call with a response. */
  predicate CallsEarly(server: Server, members: seq<Member>) {
    var sound := members[..FirstWrong(server, members)];
    NamesMethod(server, sound) && Lookup(sound, "id").Some? && Lookup(sound, "params").Some?
  }

  predicate AllSound(server: Server, members: seq<Member>) { FirstWrong(server, members) == |members| }

  /** The call: as soon as everything is known, or behind the last member; none behind a wrong one. */
  function CallsDue(server: Server, members: seq<Member>): seq<Call> {
    var sound := members[..FirstWrong(server, members)];
    if NamesMethod(server, sound) && (CallsEarly(server, members) || AllSound(server, members)) then
      [TheCall(server, sound)]
    else []
  }

  /** What the response holds behind the identifier: the reply to the call, and unless that raised an exception,
      the complaint about the first wrong member, or about there being no method. */
  function RepliesDue(server: Server, members: seq<Member>): seq<Member> {
    var calls := CallsDue(server, members);
    var replies := if calls == [] then [] else [ReplyTo(server, calls[0])];
    if calls != [] && server.procedure(calls[0]).Raised? then replies
    else if !AllSound(server, members) then replies + [Complaint(Wrong(members[FirstWrong(server, members)]))]
    else if calls == [] then [Complaint(Problem(-32601, "Method name not found in request"))]
    else replies
  }

  /** There is a response exactly if an identifier comes before anything wrong; it holds version, identifier, and
      what is due behind them. */
  function ResponseDue(server: Server, members: seq<Member>): Option<Json> {
    match Lookup(members[..FirstWrong(server, members)], "id")
    case None => None
    case Some(id) => Some(Obj(true, [Member("jsonrpc", Str("2.0")), Echo(id)] + RepliesDue(server, members)))
  }

  /** The answer to every request without repeated names, whatever is wrong with it. */
  lemma EveryAnswer(server: Server, members: seq<Member>)
    requires Distinct(members)
    ensures Finished(server, members).calls == CallsDue(server, members)
    ensures Response(Finished(server, members)) == ResponseDue(server, members)
  {
    hide Lookup, Step, ProperMember, FirstWrong, Callables.Found;
    var k := FirstWrong(server, members);
    var sound := members[..k];
    var before := Steps(server, sound);
    StepsKnow(server, sound);
    if before.failed {
      FailedStays(server, members, k);
    } else if k < |members| {
      WrongStep(server, members, k);
      FailedStays(server, members, k + 1);
    } else {
      assert sound == members;
    }
    assert before.id.Some? ==> Finished(server, members).reply == RepliesDue(server, members);
  }

  /** The first wrong member ends the request. */
  lemma WrongStep(server: Server, members: seq<Member>, k: nat)
    requires Distinct(members) && k < |members| && !ProperMember(server, members[k])
    requires KnowsThus(server, members[..k], Steps(server, members[..k])) && !Steps(server, members[..k]).failed
    ensures var before, after := Steps(server, members[..k]), Steps(server, members[..k + 1]);
            && after.failed && after.id == before.id && after.calls == before.calls
            && after.called == before.called
            && after.reply == before.reply + if before.id.Some? then [Complaint(Wrong(members[k]))] else []
  {
    hide Callables.Found, TheCall, ReplyTo;
    var sound := members[..k];
    assert members[..k + 1][..k] == sound;
    LookupIsMember(sound, "method");
  }

  lemma LookupTransfers(a: seq<Member>, b: seq<Member>, name: string)
    requires Distinct(b) && multiset(a) == multiset(b)
    requires Lookup(a, name).Some?
    ensures Lookup(b, name) == Lookup(a, name)
  {
    LookupIsMember(a, name);
    var m := Member(name, Lookup(a, name).value);
    assert m in multiset(b);
    var i :| 0 <= i < |b| && b[i] == m;
    LookupMember(b, i);
  }

  lemma SameLookup(a: seq<Member>, b: seq<Member>, name: string)
    requires Distinct(a) && Distinct(b) && multiset(a) == multiset(b)
    ensures Lookup(a, name) == Lookup(b, name)
  {
    if Lookup(a, name).Some? {
      LookupTransfers(a, b, name);
    } else if Lookup(b, name).Some? {
      LookupTransfers(b, a, name);
    }
  }

  /** Order independence: two orders of the same members cause the same calls and the same response. */
  lemma OrderDoesNotMatter(server: Server, a: seq<Member>, b: seq<Member>)
    requires Proper(server, a) && Proper(server, b) && multiset(a) == multiset(b)
    ensures var x, y := Finished(server, a), Finished(server, b);
            x.calls == y.calls && Response(x) == Response(y) && x.failed == y.failed
  {
    ProperRequest(server, a);
    ProperRequest(server, b);
    SameLookup(a, b, "id");
    SameLookup(a, b, "method");
    SameLookup(a, b, "params");
  }

  /** A request that names its method by the path of a callable calls that callable, if and only if it is the
      root or has a name of its own. */
  lemma CalledByPath(server: Server, members: seq<Member>, x: nat)
    requires Proper(server, members)
    requires Callables.Valid(server.tree) && Callables.SiblingsDiffer(server.tree)
    requires Callables.NamesAreFree(server.tree, ".") && x < |server.tree.parent|
    requires Lookup(members, "method") == Some(Str(Callables.PathOf(server.tree, x, ".")))
    ensures var calls := Finished(server, members).calls;
            |calls| == 1 && (calls[0].callee == x <==> x == Callables.ROOT || server.tree.name[x] != [])
  {
    hide Finished, Proper, Callables.Valid, Callables.SiblingsDiffer, Callables.NamesAreFree, Callables.Found, Lookup;
    ProperRequest(server, members);
    Callables.PathRoundTrip(server.tree, x, ".");
  }

  /** Not so for a request that fails: an unknown method is answered only if the identifier came first. */
  lemma FailuresDependOnOrder(server: Server)
    requires server.Find("nope").None?
    ensures var id, nope := Member("id", Int(1)), Member("method", Str("nope"));
            && Response(Finished(server, [id, nope])).Some?
            && Response(Finished(server, [nope, id])).None?
  {
    var id, nope := Member("id", Int(1)), Member("method", Str("nope"));
    assert [id, nope][..1] == [id] && [nope, id][..1] == [nope] && [id][..0] == [] && [nope][..0] == [];
    assert Steps(server, []) == INITIAL;
    assert Steps(server, [nope]).failed;
    assert Steps(server, [id]) == Step(server, INITIAL, id);
  }

  lemma StepKeepsId(server: Server, state: State, member: Member)
    requires state.called ==> state.id.Some?
    ensures var next := Step(server, state, member);
            && (next.called ==> next.id.Some?)
            && (next.id.Some? <==> state.id.Some? || member.name == "id")
  {
  }

  lemma {:induction false} IdIsKept(server: Server, members: seq<Member>)
    ensures var state := Steps(server, members);
            && (state.called ==> state.id.Some?)
            && (state.id.Some? <==>
                exists i :: 0 <= i < |members| && members[i].name == "id" && !Steps(server, members[..i]).failed)
  {
    hide Step;
    if members != [] {
      var n := |members| - 1;
      var front := members[..n];
      IdIsKept(server, front);
      StepKeepsId(server, Steps(server, front), members[n]);
      assert forall i :: 0 <= i < n ==> front[..i] == members[..i] && front[i] == members[i];
      if Steps(server, front).id.Some? {
        var i :| 0 <= i < n && front[i].name == "id" && !Steps(server, front[..i]).failed;
        assert members[i].name == "id" && !Steps(server, members[..i]).failed;
      }
    }
  }

  // Exactly when a response is started.

  /** A member that makes nothing fail: a proper one, or a method behind another, which is not looked at. */
  ghost predicate Harmless(server: Server, members: seq<Member>, j: nat)
    requires j < |members|
  {
    || ProperMember(server, members[j])
    || (members[j].name == "method" && exists k :: 0 <= k < j && members[k].name == "method")
  }

  ghost predicate AllHarmless(server: Server, members: seq<Member>, n: nat)
    requires n <= |members|
  {
    forall j :: 0 <= j < n ==> Harmless(server, members, j)
  }

  lemma {:induction false} FailedStays(server: Server, members: seq<Member>, i: nat)
    requires i <= |members| && Steps(server, members[..i]).failed
    ensures Steps(server, members) == Steps(server, members[..i])
    decreases |members| - i
  {
    if i == |members| {
      assert members[..i] == members;
    } else {
      assert members[..i + 1][..i] == members[..i];
      FailedStays(server, members, i + 1);
    }
  }

  lemma HarmlessStep(server: Server, members: seq<Member>)
    requires members != []
    ensures var n := |members| - 1;
            AllHarmless(server, members, n + 1)
            <==> AllHarmless(server, members[..n], n) && Harmless(server, members, n)
  {
    hide ProperMember;
    var n := |members| - 1;
    var front := members[..n];
    assert forall j :: 0 <= j < n ==> front[j] == members[j];
    assert forall j :: 0 <= j < n ==> (Harmless(server, front, j) <==> Harmless(server, members, j));
  }

  lemma StepBeforeId(server: Server, state: State, member: Member)
    requires member.name != "id" && state.id.None? && !state.called
    ensures var next := Step(server, state, member);
            && next.id.None? && !next.called
            && (!state.failed ==>
                  (next.failed <==> !(ProperMember(server, member) || (member.name == "method" && state.callee.Some?))))
            && (!next.failed ==> (next.callee.Some? <==> state.callee.Some? || member.name == "method"))
  {
    hide Callables.Found;
  }

  /** As long as there is no identifier nothing is called, and only members that are not harmless fail. */
  lemma {:induction false} BeforeId(server: Server, members: seq<Member>)
    requires forall i :: 0 <= i < |members| ==> members[i].name != "id"
    ensures var state := Steps(server, members);
            && state.id.None? && !state.called
            && (!state.failed <==> AllHarmless(server, members, |members|))
            && (!state.failed ==>
                (state.callee.Some? <==> exists k :: 0 <= k < |members| && members[k].name == "method"))
  {
    hide Step, ProperMember;
    if members != [] {
      var n := |members| - 1;
      var front := members[..n];
      BeforeId(server, front);
      StepBeforeId(server, Steps(server, front), members[n]);
      assert forall k :: 0 <= k < n ==> front[k] == members[k];
      HarmlessStep(server, members);
      if exists k :: 0 <= k < n && members[k].name == "method" {
        var k :| 0 <= k < n && members[k].name == "method";
        assert front[k].name == "method";
      }
    }
  }

  function FirstId(members: seq<Member>): (i: nat)
    ensures i <= |members|
    ensures i < |members| ==> members[i].name == "id"
    ensures forall j :: 0 <= j < i ==> members[j].name != "id"
  {
    if members == [] || members[0].name == "id" then 0
    else
      var rest := members[1..];
      assert forall j :: 0 <= j < |rest| ==> rest[j] == members[j + 1];
      1 + FirstId(rest)
  }

  /** A response is started if and only if there is an identifier and every member before it is harmless. */
  lemma ResponseStarts(server: Server, members: seq<Member>)
    ensures Response(Finished(server, members)).Some? <==>
            exists i :: 0 <= i < |members| && members[i].name == "id" && AllHarmless(server, members, i)
  {
    hide AllHarmless, Step;
    IdIsKept(server, members);
    var first := FirstId(members);
    var front := members[..first];
    BeforeId(server, front);
    HarmlessPrefix(server, members, first);
    if i :| 0 <= i < |members| && members[i].name == "id" && !Steps(server, members[..i]).failed {
      assert first <= i && members[..i][..first] == front;
      if Steps(server, front).failed {
        FailedStays(server, members[..i], first);
      }
    }
    if i :| 0 <= i < |members| && members[i].name == "id" && AllHarmless(server, members, i) {
      assert AllHarmless(server, members, first) by { FewerHarmless(server, members, first, i); }
    }
  }

  lemma HarmlessPrefix(server: Server, members: seq<Member>, n: nat)
    requires n <= |members|
    ensures AllHarmless(server, members[..n], n) <==> AllHarmless(server, members, n)
  {
    hide ProperMember;
    var front := members[..n];
    assert forall j :: 0 <= j < n ==> front[j] == members[j];
    assert forall j :: 0 <= j < n ==> (Harmless(server, front, j) <==> Harmless(server, members, j));
  }

  lemma FewerHarmless(server: Server, members: seq<Member>, n: nat, m: nat)
    requires n <= m <= |members| && AllHarmless(server, members, m)
    ensures AllHarmless(server, members, n)
  {
  }

  /** When no name is repeated: an identifier, and nothing but proper members before it. */
  lemma ResponseStartsDistinct(server: Server, members: seq<Member>)
    requires Distinct(members)
    ensures Response(Finished(server, members)).Some? <==>
            exists i :: 0 <= i < |members| && members[i].name == "id"
                        && forall j :: 0 <= j < i ==> ProperMember(server, members[j])
  {
    hide ProperMember, Steps;
    ResponseStarts(server, members);
    forall i | 0 <= i <= |members|
      ensures AllHarmless(server, members, i) <==> forall j :: 0 <= j < i ==> ProperMember(server, members[j])
    {
      assert forall j :: 0 <= j < i ==> (Harmless(server, members, j) <==> ProperMember(server, members[j]));
    }
  }
}
