/**
  `JsonRpcServerProtocol` on the text of requests: the dispatcher of one request, with its stored and
  restored positions, and the handling of batches.
 */
module JsonRpcServer {
  import opened JsonText
  import opened JsonInput
  import opened Texts
  import opened JsonSkip
  import opened JsonRpc
  import Callables

  /** From `at` on, `s` holds these members and the end of their object, each of a form that reading and
      skipping agree on. */
  ghost predicate Laid(s: string, at: nat, members: seq<Member>, end: nat)
    decreases |members|
  {
    && at <= |s|
    && var p := SkipGap(s, at);
       && p < |s|
       && if members == [] then
            s[p] == '}' && end == p + 1
          else
            && s[p] != '}'
            && StringAt(s, p).Got?
            && StringAt(s, p).value == members[0].name
            && LaidValue(s, StringAt(s, p).next, members[0].value)
            && Laid(s, ValueAt(s, StringAt(s, p).next).next, members[1..], end)
  }

  ghost predicate LaidValue(s: string, at: nat, v: Json) {
    && at <= |s|
    && ValueAt(s, at).Got? && ValueAt(s, at).value == v
    && SkipAt(s, at) == Got((), ValueAt(s, at).next)
    && (v.Int? ==> Fits(v.i))
  }

  lemma {:induction false} LaidEnds(s: string, at: nat, members: seq<Member>, end: nat)
    requires Laid(s, at, members, end)
    ensures at < end <= |s|
    decreases |members|
  {
    if members != [] {
      LaidEnds(s, ValueAt(s, StringAt(s, SkipGap(s, at)).next).next, members[1..], end);
    }
  }

  /** The reader for a value's type reads the value; the string reader refuses what is no string. */
  lemma ValueShape(s: string, at: nat)
    requires at <= |s| && ValueAt(s, at).Got?
    ensures var v, next, p := ValueAt(s, at).value, ValueAt(s, at).next, SkipGap(s, at);
            && SkipGap(s, p) == p
            && StringAt(s, at) == (if v.Str? then Got(v.s, next) else Failed(RemoteFault))
            && (v.Int? <==> TypeAt(s, p) == TInteger) && (v.Int? ==> IntAt(s, p) == Got(v.i, next))
            && (v.Str? <==> TypeAt(s, p) == TString) && (v.Str? ==> StringAt(s, p) == Got(v.s, next))
            && (v.Null? <==> TypeAt(s, p) == TNull) && (v.Null? ==> NullAt(s, p) == Got((), next))
            && TypeAt(s, p) != TFloat
            && SkipAt(s, p) == SkipAt(s, at)
  {
  }

  lemma {:induction false} MembersSnoc(members: seq<Member>, last: Member, first: bool, depth: nat)
    ensures MembersText(members + [last], first, depth)
         == MembersText(members, first, depth) + MemberText(last, first && members == [], depth)
  {
    hide MemberText;
    var all := members + [last];
    if members == [] {
      assert all[0] == last && all[1..] == [];
    } else {
      assert all[0] == members[0] && all[1..] == members[1..] + [last];
      MembersSnoc(members[1..], last, false, depth);
      assert MembersText(members[1..] + [last], false, depth)
          == MembersText(members[1..], false, depth) + MemberText(last, false, depth);
      assert MemberText(members[0], first, depth)
             + (MembersText(members[1..], false, depth) + MemberText(last, false, depth))
          == MembersText(members, first, depth) + MemberText(last, false, depth);
    }
  }

  /** What a callable hands over can be written. */
  ghost predicate WritesWell(server: Server) {
    forall call :: WritableOutcome(server.procedure(call))
  }

  predicate WritableOutcome(outcome: Outcome) {
    match outcome
    case Returned(result) => Writable(result)
    case Raised(problem) => Fits(problem.code)
  }

  /** How a response begins: in a batch it is an element of the array of responses. */
  function Lead(index: Option<nat>, depth: nat): string {
    if index.None? then [] else (if index.value > 0 then "," else []) + NewLine(depth)
  }

  /** The response as far as it is written. */
  function Written(state: State, index: Option<nat>, depth: nat): string {
    if state.id.None? then [] else Lead(index, depth) + "{" + MembersText(ReplyMembers(state), true, depth + 1)
  }

  /** One request being handled: what the closures of `respondInternal` share. */
  class Dispatch {
    const server: Server
    const input: Input
    const output: Output
    const index: Option<nat>
    var failed: bool
    var responding: bool
    var called: bool
    var callee: Option<nat>
    var paramsPosition: Option<nat>
    var calls: seq<Call>
    ghost var state: State
    ghost const base: string
    ghost const depth: nat

    ghost predicate Valid()
      reads this, input, output
    {
      && WritesWell(server)
      && input.Valid() && !output.skipNewline
      && failed == state.failed
      && responding == state.id.Some?
      && called == state.called
      && callee == state.callee
      && calls == state.calls
      && paramsPosition.Some? == state.params.Some?
      && (paramsPosition.Some? ==> LaidValue(input.contents, paramsPosition.value, state.params.value))
      && output.contents == base + Written(state, index, depth)
      && output.depth == depth + (if responding then 1 else 0)
    }

    constructor (server: Server, input: Input, output: Output, index: Option<nat>)
      requires WritesWell(server) && input.Valid() && !output.skipNewline
      ensures Valid() && state == INITIAL
      ensures this.server == server && this.input == input && this.output == output && this.index == index
      ensures base == output.contents && depth == output.depth
    {
      this.server, this.input, this.output, this.index := server, input, output, index;
      failed, responding, called, callee, paramsPosition, calls := false, false, false, None, None, [];
      state, base, depth := INITIAL, output.contents, output.depth;
    }

    /** A member is added to the response under way. */
    method WriteReplyMember(member: Member)
      requires !output.skipNewline && responding && state.id.Some? && Writable(member.value)
      requires output.contents == base + Written(state, index, depth) && output.depth == depth + 1
      modifies output, this`state
      ensures state == old(state).(reply := old(state).reply + [member])
      ensures !output.skipNewline
      ensures output.contents == base + Written(state, index, depth) && output.depth == depth + 1
    {
      hide Written, Introduction, Text;
      WrittenGrows(base, state, index, depth, member);
      output.IntroduceObjectMember(member.name, 2);
      output.WriteValue(member.value);
      state := state.(reply := state.reply + [member]);
    }

    method IntroduceError(problem: Problem)
      requires Valid() && Fits(problem.code)
      modifies this`failed, this`state, output
      ensures Valid() && state == JsonRpc.IntroduceError(old(state), problem)
    {
      failed := true;
      state := state.(failed := true);
      if !responding {
        return;
      }
      WriteReplyMember(ErrorMember(problem));
    }

    /** Copies the identifier to the response. */
    method EchoId(ghost v: Json)
      requires input.Valid() && LaidValue(input.contents, input.position, v)
      modifies input`position, input`resultBuffer, output`contents
      ensures input.Valid() && input.position == ValueAt(input.contents, old(input.position)).next
      ensures output.contents == old(output.contents) + Text(Echo(v).value, depth + 1)
    {
      hide ValueAt, IntAt, StringAt, NullAt, SkipAt;
      ValueShape(input.contents, input.position);
      var identified := input.IdentifyType();
      if identified == TInteger {
        var i := input.ReadInt();
        output.WriteInt(i.value);
      } else if identified == TString {
        var t := input.ReadString();
        output.WriteString(t.value);
      } else if identified == TNull {
        var n := input.ReadNull();
        output.WriteNull();
      } else {
        var skipped := SkipObjectElement(input);
        output.WriteNull();
      }
    }

    /** The beginning of the response, as far as the name of the identifier. */
    method StartResponse()
      requires !output.skipNewline
      modifies output
      ensures output.contents == old(output.contents) + Lead(index, old(output.depth)) + "{"
                + Introduction("jsonrpc", true, old(output.depth) + 1) + Quoted("2.0")
                + Introduction("id", false, old(output.depth) + 1)
      ensures output.depth == old(output.depth) + 1 && !output.skipNewline
    {
      hide Introduction, NewLine, Quoted;
      if index.Some? {
        output.IntroduceArrayElement(index.value);
      }
      assert output.contents == old(output.contents) + Lead(index, output.depth);
      output.StartWritingObject(3);
      output.IntroduceObjectMember("jsonrpc", 0);
      output.WriteString("2.0");
      output.IntroduceObjectMember("id", 1);
    }

    method WriteId(ghost v: Json)
      requires Valid() && !responding && !called && state.reply == []
      requires LaidValue(input.contents, input.position, v)
      modifies this`responding, this`state, input`position, input`resultBuffer, output
      ensures Valid() && state == old(state).(id := Some(Echo(v).value))
      ensures input.position == ValueAt(input.contents, old(input.position)).next
    {
      hide LaidValue, Lead, Introduction, Text, MembersText, Quoted;
      responding := true;
      assert output.contents == base by { assert base + [] == base; }
      StartResponse();
      EchoId(v);
      state := state.(id := Some(Echo(v).value));
      IdTextIs(base, Lead(index, depth), Echo(v).value, depth + 1);
      assert ReplyMembers(state) == [Member("jsonrpc", Str("2.0")), Member("id", Echo(v).value)];
    }

    /** Calls the method, reading its parameters where they stand; tells where the reading was before. */
    method CallMethod() returns (formerPosition: nat)
      requires Valid() && !failed
      modifies this`called, this`failed, this`calls, this`state, input`position, input`resultBuffer, output
      ensures Valid() && state == DoCall(server, old(state))
      ensures formerPosition == old(input.position)
      ensures input.position == if callee.None? || paramsPosition.None? then old(input.position)
                                else ValueAt(input.contents, paramsPosition.value).next
    {
      formerPosition := input.position;
      if callee.None? {
        return;
      }
      called := true;
      var params: Option<Json> := None;
      if paramsPosition.Some? {
        input.position := paramsPosition.value;
        var value := input.ReadValue();
        params := Some(value.value);
      }
      var call := Call(callee.value, params);
      calls := calls + [call];
      state := state.(called := true, calls := state.calls + [call]);
      var outcome := server.procedure(call);
      assert WritableOutcome(outcome);
      match outcome
      case Returned(result) =>
        if responding {
          WriteReplyMember(Member("result", result));
        }
      case Raised(problem) =>
        IntroduceError(problem);
    }

    /** `jsonrpc`: must be the version. */
    method OnVersion(ghost v: Json)
      requires Valid() && !failed && LaidValue(input.contents, input.position, v)
      modifies this`failed, this`state, input`position, input`resultBuffer, output
      ensures Valid() && state == Step(server, old(state), Member("jsonrpc", v))
      ensures !failed ==> input.position == ValueAt(input.contents, old(input.position)).next
    {
      hide ValueAt, StringAt, SkipAt, Written;
      ValueShape(input.contents, input.position);
      var version := input.ReadString();
      if version.Failed? {
        IntroduceError(NOT_A_STRING);
      } else if version.value != "2.0" {
        IntroduceError(Problem(INVALID_REQUEST, "Unknown JSON-RPC version"));
      }
    }

    method OnId(ghost v: Json)
      requires Valid() && !failed && LaidValue(input.contents, input.position, v)
      requires !called ==> !responding && state.reply == []
      modifies this, input`position, input`resultBuffer, output
      ensures Valid() && state == Step(server, old(state), Member("id", v))
      ensures !failed ==> input.position == ValueAt(input.contents, old(input.position)).next
    {
      hide LaidValue, ValueAt, SkipAt, Written;
      if !called {
        WriteId(v);
        if callee.Some? && paramsPosition.Some? {
          var formerPosition := CallMethod();
          input.position := formerPosition;
        }
      } else {
        SkipsLaid(input.contents, input.position, v);
        var skipped := SkipObjectElement(input);
      }
    }

    /** Reads the method's path and looks it up. */
    method FindMethod(ghost v: Json)
      requires Valid() && !failed && callee.None? && LaidValue(input.contents, input.position, v)
      modifies this`failed, this`callee, this`state, input`position, input`resultBuffer, output
      ensures Valid()
      ensures state == if !v.Str? then JsonRpc.IntroduceError(old(state), NOT_A_STRING)
                       else if server.Find(v.s).Some? then old(state).(callee := server.Find(v.s))
                       else JsonRpc.IntroduceError(old(state), Problem(METHOD_NOT_FOUND, "Method not known"))
      ensures !failed ==> input.position == ValueAt(input.contents, old(input.position)).next
    {
      hide ValueAt, StringAt, SkipAt, Written, Callables.Found;
      ghost var before := state;
      ValueShape(input.contents, input.position);
      var read := input.ReadString();
      if read.Failed? {
        IntroduceError(NOT_A_STRING);
        return;
      }
      var found := Callables.FindCallable(server.tree, read.value, Callables.ROOT, ".");
      if found.Callable? {
        callee := Some(found.node);
        state := state.(callee := callee);
        WrittenTheSame(before, state, index, depth);
      } else {
        IntroduceError(Problem(METHOD_NOT_FOUND, "Method not known"));
      }
    }

    method OnMethod(ghost v: Json)
      requires Valid() && !failed && LaidValue(input.contents, input.position, v)
      modifies this, input`position, input`resultBuffer, output
      ensures Valid() && state == Step(server, old(state), Member("method", v))
      ensures !failed ==> input.position == ValueAt(input.contents, old(input.position)).next
    {
      hide LaidValue, ValueAt, SkipAt, Written, DoCall;
      if callee.None? {
        FindMethod(v);
        if responding && paramsPosition.Some? && callee.Some? {
          var formerPosition := CallMethod();
          input.position := formerPosition;
        }
      } else {
        SkipsLaid(input.contents, input.position, v);
        var skipped := SkipObjectElement(input);
      }
    }

    method OnParams(ghost v: Json)
      requires Valid() && !failed && LaidValue(input.contents, input.position, v)
      modifies this, input`position, input`resultBuffer, output
      ensures Valid() && state == Step(server, old(state), Member("params", v))
      ensures !failed ==> input.position == ValueAt(input.contents, old(input.position)).next
    {
      hide ValueAt, SkipAt, Written;
      ghost var before := state;
      paramsPosition := Some(input.position);
      state := state.(params := Some(v));
      WrittenTheSame(before, state, index, depth);
      if callee.Some? && responding {
        var formerPosition := CallMethod();
      } else {
        var skipped := SkipObjectElement(input);
      }
    }

    /** One member of the request, after its name was read. */
    method OnMember(name: string, ghost v: Json)
      requires Valid() && !failed && LaidValue(input.contents, input.position, v)
      requires name == "id" && !called ==> !responding && state.reply == []
      modifies this, input`position, input`resultBuffer, output
      ensures Valid() && state == Step(server, old(state), Member(name, v))
      ensures !failed ==> input.position == ValueAt(input.contents, old(input.position)).next
    {
      hide LaidValue, Written, DoCall;
      if name == "jsonrpc" {
        OnVersion(v);
      } else if name == "id" {
        OnId(v);
      } else if name == "method" {
        OnMethod(v);
      } else if name == "params" {
        OnParams(v);
      } else {
        IntroduceError(Problem(INVALID_REQUEST, "Unexpected member in request"));
      }
    }
  }

  lemma WrittenGrows(base: string, state: State, index: Option<nat>, depth: nat, member: Member)
    requires state.id.Some?
    ensures base + Written(state, index, depth) + Introduction(member.name, false, depth + 1)
            + Text(member.value, depth + 1)
         == base + Written(state.(reply := state.reply + [member]), index, depth)
  {
    hide MembersText, Introduction, Text, Lead;
    var after := state.(reply := state.reply + [member]);
    assert ReplyMembers(after) == ReplyMembers(state) + [member];
    MembersSnoc(ReplyMembers(state), member, true, depth + 1);
    AddMember(base, Lead(index, depth) + "{", MembersText(ReplyMembers(state), true, depth + 1), member, depth + 1);
  }

  lemma AddMember(base: string, lead: string, members: string, member: Member, depth: nat)
    ensures base + (lead + members) + Introduction(member.name, false, depth) + Text(member.value, depth)
         == base + (lead + (members + MemberText(member, false, depth)))
  {
  }

  lemma IdTextIs(base: string, lead: string, id: Json, depth: nat)
    ensures base + lead + "{" + Introduction("jsonrpc", true, depth) + Quoted("2.0")
            + Introduction("id", false, depth) + Text(id, depth)
         == base + (lead + "{" + MembersText([Member("jsonrpc", Str("2.0")), Member("id", id)], true, depth))
  {
    hide Introduction, Text;
    var version, identifier := Member("jsonrpc", Str("2.0")), Member("id", id);
    assert [version, identifier][1..] == [identifier] && [identifier][1..] == [];
    assert MembersText([identifier], false, depth) == MemberText(identifier, false, depth) + [];
    assert Text(Str("2.0"), depth) == Quoted("2.0") by { StrText("2.0", depth); }
  }

  lemma StrText(s: string, depth: nat)
    ensures Text(Str(s), depth) == Quoted(s)
  {
  }

  lemma SkipsLaid(s: string, at: nat, v: Json)
    requires LaidValue(s, at, v)
    ensures at <= |s| && ValueAt(s, at).Got? && SkipAt(s, at) == Got((), ValueAt(s, at).next)
  {
  }

  lemma WrittenTheSame(a: State, b: State, index: Option<nat>, depth: nat)
    requires a.id == b.id && a.reply == b.reply
    ensures Written(a, index, depth) == Written(b, index, depth)
  {
  }

  /** The text of a response, or nothing when none was started. */
  function ResponseText(state: State, index: Option<nat>, depth: nat): string {
    if state.id.None? then [] else Lead(index, depth) + Text(Obj(true, ReplyMembers(state)), depth)
  }

  lemma ResponseCloses(base: string, state: State, index: Option<nat>, depth: nat)
    requires state.id.Some?
    ensures base + Written(state, index, depth) + NewLine(depth) + "}" == base + ResponseText(state, index, depth)
  {
    hide Lead, MembersText, NewLine;
  }

  lemma StepKeepsSilent(server: Server, state: State, member: Member)
    ensures var next := Step(server, state, member);
            next.id.None? ==> state.id.None? && next.reply == state.reply
  {
    hide Callables.Found;
  }

  lemma {:induction false} NoIdNoReply(server: Server, members: seq<Member>)
    requires Steps(server, members).id.None?
    ensures Steps(server, members).reply == []
  {
    hide Step;
    if members != [] {
      var before := Steps(server, members[..|members| - 1]);
      if !before.failed { StepKeepsSilent(server, before, members[|members| - 1]); }
      if before.id.None? { NoIdNoReply(server, members[..|members| - 1]); }
    }
  }

  /** Other members may be repeated. (A second identifier would begin a second response inside of the first.) */
  ghost predicate OneId(members: seq<Member>) {
    forall i, j :: 0 <= i < j < |members| ==> members[i].name != "id" || members[j].name != "id"
  }

  /** When a request's identifier comes up, nothing was answered yet. */
  lemma FreshId(server: Server, members: seq<Member>, i: nat)
    requires OneId(members) && i < |members| && members[i].name == "id"
    ensures var state := Steps(server, members[..i]);
            state.id.None? && state.reply == []
  {
    IdIsKept(server, members[..i]);
    NoIdNoReply(server, members[..i]);
  }

  /** `respondInternal` on the text of an object with at most one identifier. The response (if one is started)
      is added to the output, and a request that was handled successfully is left exactly behind its end. */
  method RespondInternal(server: Server, input: Input, output: Output, index: Option<nat>,
                         ghost members: seq<Member>, ghost end: nat)
      returns (success: bool, started: bool, calls: seq<Call>)
    requires WritesWell(server) && input.Valid() && !output.skipNewline
    requires OneId(members)
    requires var p := SkipGap(input.contents, input.position);
             p < |input.contents| && input.contents[p] == '{' && Laid(input.contents, p + 1, members, end)
    modifies input`position, input`resultBuffer, output
    ensures var state := Finished(server, members);
            && success == !state.failed
            && started == Response(state).Some?
            && calls == state.calls
            && output.contents == old(output.contents) + ResponseText(state, index, old(output.depth))
    ensures output.depth == old(output.depth) && !output.skipNewline
    ensures input.Valid() && (success ==> input.position == end)
  {
    hide Laid, Steps, DoCall, Written, ResponseText;
    var dispatch := new Dispatch(server, input, output, index);
    input.EatWhitespace();
    input.position := input.position + 1;
    ReadMembers(dispatch, members, end);
    CallAtLast(dispatch);
    if dispatch.responding {
      ResponseCloses(dispatch.base, dispatch.state, index, dispatch.depth);
      output.EndWritingObject();
    } else {
      NoResponse(dispatch.state, index, dispatch.depth);
    }
    success, started, calls := !dispatch.failed, dispatch.responding, dispatch.calls;
  }

  lemma NoResponse(state: State, index: Option<nat>, depth: nat)
    requires state.id.None?
    ensures Written(state, index, depth) == [] == ResponseText(state, index, depth)
  {
  }

  /** The call behind the last member, if it was not made before. */
  method CallAtLast(dispatch: Dispatch)
    requires dispatch.Valid()
    modifies dispatch, dispatch.input`position, dispatch.input`resultBuffer, dispatch.output
    ensures dispatch.Valid() && dispatch.state == Finish(dispatch.server, old(dispatch.state))
    ensures dispatch.input.position == old(dispatch.input.position)
  {
    hide DoCall, Written, LaidValue;
    if !dispatch.failed && !dispatch.called {
      if dispatch.callee.None? {
        dispatch.IntroduceError(Problem(METHOD_NOT_FOUND, "Method name not found in request"));
      } else {
        var formerPosition := dispatch.CallMethod();
        dispatch.input.position := formerPosition;
      }
    }
  }

  /** The loop over the members, and the step over the brace behind them. Where a failed request leaves
      the position is of no consequence. */
  method ReadMembers(dispatch: Dispatch, ghost members: seq<Member>, ghost end: nat)
    requires dispatch.Valid() && dispatch.state == INITIAL && OneId(members)
    requires Laid(dispatch.input.contents, dispatch.input.position, members, end)
    modifies dispatch, dispatch.input`position, dispatch.input`resultBuffer, dispatch.output
    ensures dispatch.Valid() && dispatch.state == Steps(dispatch.server, members)
    ensures !dispatch.failed ==> dispatch.input.position == end
  {
    hide LaidValue, Step, ValueAt, StringAt, Steps;
    var input := dispatch.input;
    ghost var i := 0;
    StepsNone(dispatch.server);
    assert members[..0] == [] && members[0..] == members;
    while true
      invariant dispatch.Valid() && !dispatch.failed && i <= |members|
      invariant dispatch.state == Steps(dispatch.server, members[..i])
      invariant Laid(input.contents, input.position, members[i..], end)
      decreases |members| - i
    {
      input.EatWhitespace();
      if input.contents[input.position] == '}' {
        break;
      }
      var name := input.ReadString();
      if name.value == "id" {
        FreshId(dispatch.server, members, i);
      }
      StepsOn(dispatch.server, members, i);
      assert members[i..][1..] == members[i + 1..];
      dispatch.OnMember(name.value, members[i].value);
      i := i + 1;
      if dispatch.failed {
        FailedStays(dispatch.server, members, i);
        return;
      }
    }
    assert members[..i] == members;
    input.position := input.position + 1;
  }

  lemma StepsNone(server: Server)
    ensures Steps(server, []) == INITIAL
  {
  }

  lemma StepsOn(server: Server, members: seq<Member>, i: nat)
    requires i < |members| && !Steps(server, members[..i]).failed
    ensures Steps(server, members[..i + 1]) == Step(server, Steps(server, members[..i]), members[i])
  {
    assert members[..i + 1][..i] == members[..i];
  }
}
