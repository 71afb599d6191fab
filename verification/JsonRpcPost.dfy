/**
  Single requests and batches as a POST body, from text to text. A batch is answered with exactly the
  responses its requests would get one by one, in their order, whether or not some of them fail.
 */
module JsonRpcPost {
  import opened JsonText
  import opened JsonInput
  import opened Texts
  import opened JsonRoundTrip
  import opened JsonSkip
  import opened JsonRpc
  import opened JsonRpcServer

  /** From `at` on, `s` holds these request objects and the end of their array. */
  ghost predicate LaidBatch(s: string, at: nat, requests: seq<seq<Member>>, end: nat)
    decreases |requests|
  {
    && at <= |s|
    && var p := SkipGap(s, at);
       && p < |s|
       && if requests == [] then
            s[p] == ']' && end == p + 1
          else
            && s[p] == '{'
            && SkipAt(s, p).Got?
            && OneId(requests[0])
            && Laid(s, p + 1, requests[0], SkipAt(s, p).next)
            && LaidBatch(s, SkipAt(s, p).next, requests[1..], end)
  }

  /** The responses of requests handled one by one: notifications have none. */
  function Responses(server: Server, requests: seq<seq<Member>>): seq<Json> {
    if requests == [] then []
    else
      var n := |requests| - 1;
      var last := Response(Finished(server, requests[n]));
      Responses(server, requests[..n]) + if last.Some? then [last.value] else []
  }

  function AllCalls(server: Server, requests: seq<seq<Member>>): seq<Call> {
    if requests == [] then []
    else
      var n := |requests| - 1;
      AllCalls(server, requests[..n]) + Finished(server, requests[n]).calls
  }

  lemma {:induction false} ItemsSnoc(items: seq<Json>, last: Json, first: bool, depth: nat)
    ensures ItemsText(items + [last], first, depth)
         == ItemsText(items, first, depth) + ItemText(last, first && items == [], depth)
  {
    hide ItemText;
    var all := items + [last];
    if items == [] {
      assert all[0] == last && all[1..] == [];
    } else {
      assert all[0] == items[0] && all[1..] == items[1..] + [last];
      ItemsSnoc(items[1..], last, false, depth);
      var a, b, c := ItemText(items[0], first, depth), ItemsText(items[1..], false, depth),
          ItemText(last, false, depth);
      assert a + (b + c) == a + b + c;
    }
  }

  /** One more response in a batch is one more element of the array. */
  lemma ElementIsAdded(base: string, server: Server, requests: seq<seq<Member>>, i: nat, depth: nat)
    requires i < |requests|
    ensures var before, state := Responses(server, requests[..i]), Finished(server, requests[i]);
            && Responses(server, requests[..i + 1])
                == before + (if Response(state).Some? then [Response(state).value] else [])
            && base + ItemsText(before, true, depth) + ResponseText(state, Some(|before|), depth)
            == base + ItemsText(Responses(server, requests[..i + 1]), true, depth)
  {
    hide Finished, Text, NewLine, ReplyMembers;
    assert requests[..i + 1][..i] == requests[..i];
    var before, state := Responses(server, requests[..i]), Finished(server, requests[i]);
    if Response(state).Some? {
      ItemsSnoc(before, Response(state).value, true, depth);
      var a, b := ItemsText(before, true, depth), ItemText(Response(state).value, before == [], depth);
      assert ResponseText(state, Some(|before|), depth) == b;
      JoinedThree(base, a, b);
    } else {
      assert before + [] == before;
      NothingAdded(base + ItemsText(before, true, depth), state, Some(|before|), depth);
    }
  }

  lemma NothingAdded(text: string, state: State, index: Option<nat>, depth: nat)
    requires state.id.None?
    ensures text + ResponseText(state, index, depth) == text
  {
  }

  /** The array branch of `post`. A request that failed is stepped over from where it began. */
  method PostBatch(server: Server, input: Input, output: Output, ghost requests: seq<seq<Member>>, ghost end: nat)
      returns (calls: seq<Call>)
    requires WritesWell(server) && input.Valid() && !output.skipNewline
    requires var p := SkipGap(input.contents, input.position);
             p < |input.contents| && input.contents[p] == '[' && LaidBatch(input.contents, p + 1, requests, end)
    modifies input`position, input`resultBuffer, output
    ensures output.contents == old(output.contents) + Text(Arr(false, Responses(server, requests)), old(output.depth))
    ensures output.depth == old(output.depth) && !output.skipNewline
    ensures calls == AllCalls(server, requests)
    ensures input.Valid() && input.position == end
  {
    hide Laid, Finished, ResponseText, Text, ItemsText, SkipAt, NewLine, Responses, AllCalls;
    var started := input.StartReadingArray();
    output.StartWritingArray(-1);
    ghost var base := output.contents;
    ghost var i := 0;
    var resultArrayIndex := 0;
    calls := [];
    assert requests[..0] == [] && requests[0..] == requests;
    NoItems(base, server, output.depth);
    while true
      invariant i <= |requests| && input.Valid() && !output.skipNewline && output.depth == old(output.depth) + 1
      invariant LaidBatch(input.contents, input.position, requests[i..], end)
      invariant resultArrayIndex == |Responses(server, requests[..i])|
      invariant output.contents == base + ItemsText(Responses(server, requests[..i]), true, output.depth)
      invariant calls == AllCalls(server, requests[..i])
      decreases |requests| - i
    {
      var more := input.NextArrayElement();
      if !more.value {
        break;
      }
      assert requests[i..][1..] == requests[i + 1..];
      CallsMore(server, requests, i);
      var previousPosition := input.position;
      ElementIsAdded(base, server, requests, i, output.depth);
      var success, wasStarted, called :=
        RespondInternal(server, input, output, Some(resultArrayIndex), requests[i],
            SkipAt(input.contents, input.position).next);
      if wasStarted {
        resultArrayIndex := resultArrayIndex + 1;
      }
      calls := calls + called;
      if !success {
        input.position := previousPosition;
        var skipped := SkipObjectElement(input);
      }
      i := i + 1;
    }
    assert requests[..i] == requests;
    var ended := input.EndReading();
    output.EndWritingArray();
    ArrayCloses(old(output.contents), Responses(server, requests), output.depth);
  }

  lemma NoItems(base: string, server: Server, depth: nat)
    ensures Responses(server, []) == [] && AllCalls(server, []) == []
    ensures base + ItemsText([], true, depth) == base
  {
  }

  lemma CallsMore(server: Server, requests: seq<seq<Member>>, i: nat)
    requires i < |requests|
    ensures AllCalls(server, requests[..i + 1]) == AllCalls(server, requests[..i]) + Finished(server, requests[i]).calls
  {
    assert requests[..i + 1][..i] == requests[..i];
  }

  lemma ArrayCloses(base: string, items: seq<Json>, depth: nat)
    ensures base + "[" + ItemsText(items, true, depth + 1) + NewLine(depth) + "]"
            == base + Text(Arr(false, items), depth)
  {
    hide ItemsText, NewLine;
    Regroup(base, "[", ItemsText(items, true, depth + 1), NewLine(depth), "]");
  }

  /** `post`: the request's text in, the response's text out. `result` tells whether HTTP should report success. */
  method Post(server: Server, contentType: string, request: string, ghost requests: seq<seq<Member>>, ghost end: nat)
      returns (result: bool, response: string, calls: seq<Call>)
    requires WritesWell(server)
    requires var p := SkipGap(request, 0);
             && (TypeAt(request, p) == TArray ==> LaidBatch(request, p + 1, requests, end))
             && (TypeAt(request, p) == TObject ==>
                   |requests| == 1 && OneId(requests[0]) && Laid(request, p + 1, requests[0], end))
    ensures var t := TypeAt(request, SkipGap(request, 0));
            if contentType == "application/json" && t == TArray then
              result && response == Text(Arr(false, Responses(server, requests)), 0)
                  && calls == AllCalls(server, requests)
            else if contentType == "application/json" && t == TObject then
              && result && calls == Finished(server, requests[0]).calls
              && response == match Response(Finished(server, requests[0]))
                             case None => []
                             case Some(v) => Text(v, 0)
            else
              !result && response == [] && calls == []
  {
    hide Laid, LaidBatch, Finished, Text, Responses, AllCalls, ReplyMembers;
    if contentType != "application/json" {
      return false, [], [];
    }
    var input := new Input(request);
    var output := new Output();
    var inputType := input.IdentifyType();
    result, calls := false, [];
    if inputType == TArray {
      calls := PostBatch(server, input, output, requests, end);
      result := true;
    } else if inputType == TObject {
      var success, started;
      success, started, calls := RespondInternal(server, input, output, None, requests[0], end);
      result := true;
    }
    response := output.contents;
  }

  // Requests as `Output` writes them.

  /** The values of a request are skipped one by one, and those that fail in a batch as a whole. */
  ghost predicate WrittenRequest(v: Json) {
    && v.Obj? && Writable(v) && OneId(SeenMembers(v.members))
    && forall i :: 0 <= i < |v.members| ==> PlainString(v.members[i].name, 1) && Plain(v.members[i].value, 0)
  }

  lemma WrittenIsPlain(v: Json)
    requires WrittenRequest(v)
    ensures Plain(v, 0)
  {
    hide PlainString;
    forall i | 0 <= i < |v.members| ensures Plain(v.members[i].value, 1) {
      PlainDeeper(v.members[i].value, 0);
    }
  }

  lemma {:induction false} MemberIsLaid(s: string, at: nat, member: Member, first: bool, depth: nat)
    requires Plain(member.value, 0) && Writable(member.value)
    requires Has(s, at, MemberText(member, first, depth)) && at <= |s|
    requires EndsNumber(s, at + |MemberText(member, first, depth)|) && Stops(s[at + |MemberText(member, first, depth)|])
    ensures var p := SkipGap(s, at);
            && p < |s| && s[p] == '"'
            && StringAt(s, p).Got? && StringAt(s, p).value == NoNewlines(member.name)
            && LaidValue(s, StringAt(s, p).next, Seen(member.value))
            && ValueAt(s, StringAt(s, p).next).next == at + |MemberText(member, first, depth)|
  {
    hide Has, Text, Quoted, ValueAt, StringAt, SkipLoop, SkipGap, Plain, Writable, MemberText, Seen;
    MemberPlaces(s, at, member, first, depth);
    var p := SkipGap(s, at);
    var colon := p + |Quoted(member.name)|;
    StringReads(s, p, member.name);
    GapBeforeValue(s, colon);
    GapBeforeValue(s, colon + 3);
    SkipLandsBehind(s, colon + 3, member.value, depth);
    FitsIfInt(member.value);
  }

  lemma FitsIfInt(v: Json)
    ensures v.Int? && Writable(v) ==> Fits(v.i)
    ensures v.Int? <==> Seen(v).Int?
    ensures v.Int? ==> Seen(v) == v
  {
  }

  /** What follows a member or an element stops the skipper. */
  lemma NextStops(s: string, at: nat, rest: string, closing: string, bracket: string)
    requires Has(s, at, rest + (closing + bracket))
    requires rest != [] ==> rest[0] == ','
    requires rest == [] ==> closing != [] && closing[0] == '\n'
    ensures EndsNumber(s, at) && Stops(s[at])
  {
    HasFirst(s, at, rest + (closing + bracket));
  }

  lemma LaidNothing(s: string, at: nat)
    requires at <= |s| && SkipGap(s, at) < |s| && s[SkipGap(s, at)] == '}'
    ensures Laid(s, at, [], SkipGap(s, at) + 1)
  {
  }

  lemma LaidMember(s: string, at: nat, member: Member, later: seq<Member>, end: nat)
    requires at <= |s| && SkipGap(s, at) < |s| && s[SkipGap(s, at)] == '"'
    requires var name := StringAt(s, SkipGap(s, at));
             && name.Got? && name.value == member.name && LaidValue(s, name.next, member.value)
             && Laid(s, ValueAt(s, name.next).next, later, end)
    ensures Laid(s, at, [member] + later, end)
  {
    hide SkipGap, StringAt, ValueAt;
    assert ([member] + later)[1..] == later;
  }

  lemma {:induction false} MembersAreLaid(s: string, at: nat, members: seq<Member>, first: bool, depth: nat,
                                          closing: string)
    requires forall i :: 0 <= i < |members| ==>
               Plain(members[i].value, 0) && Writable(members[i].value)
    requires AllGap(closing) && (members != [] ==> closing != [] && closing[0] == '\n')
    requires Has(s, at, MembersText(members, first, depth) + (closing + "}")) && at <= |s|
    ensures Laid(s, at, SeenMembers(members), at + |MembersText(members, first, depth)| + |closing| + 1)
    decreases |members|
  {
    hide Seen, NewLine, Has, MemberText, ValueAt, StringAt, SkipGap, EndsNumber, AllGap, Laid, LaidValue, Plain,
         Writable;
    var end := closing + "}";
    if members == [] {
      assert MembersText(members, first, depth) + end == end;
      NothingLeft(s, at, closing, "}");
      LaidNothing(s, at);
    } else {
      var text := MemberText(members[0], first, depth);
      var rest := MembersText(members[1..], false, depth);
      JoinedThree(text, rest, end);
      HasParts(s, at, text, rest + end);
      var next := at + |text|;
      MembersBegin(members[1..], depth);
      NextStops(s, next, rest, closing, "}");
      MemberIsLaid(s, at, members[0], first, depth);
      MembersAreLaid(s, next, members[1..], false, depth, closing);
      var seen := Member(NoNewlines(members[0].name), Seen(members[0].value));
      assert SeenMembers(members) == [seen] + SeenMembers(members[1..]);
      LaidMember(s, at, seen, SeenMembers(members[1..]), next + |rest| + |closing| + 1);
    }
  }

  /** A written request is laid out as the dispatcher needs it. */
  lemma RequestIsLaid(s: string, at: nat, v: Json, depth: nat)
    requires WrittenRequest(v) && Has(s, at, Text(v, depth)) && at <= |s|
    ensures at < |s| && s[at] == '{' && SkipGap(s, at) == at
    ensures SkipAt(s, at) == Got((), at + |Text(v, depth)|)
    ensures Laid(s, at + 1, SeenMembers(v.members), at + |Text(v, depth)|)
    ensures OneId(SeenMembers(v.members))
  {
    hide Has, MembersText, NewLine, Seen, SeenMembers, SkipLoop, ValueAt, Laid;
    var closing := Closing(v.sized, |v.members|, depth);
    var inner := MembersText(v.members, true, depth + 1) + (closing + "}");
    assert Text(v, depth) == "{" + inner;
    HasParts(s, at, "{", inner);
    HasFirst(s, at, "{");
    WrittenIsPlain(v);
    SkipLandsBehind(s, at, v, depth);
    TabsAreGap(depth);
    NewLineBegins(depth);
    MembersAreLaid(s, at + 1, v.members, true, depth + 1, closing);
  }

  lemma RequestIsObject(v: Json)
    requires WrittenRequest(v)
    ensures v.Obj?
  {
  }

  /** The members of each request of a batch, as a reader sees them. */
  function MembersOf(items: seq<Json>): seq<seq<Member>> {
    if items == [] then []
    else [if items[0].Obj? then SeenMembers(items[0].members) else []] + MembersOf(items[1..])
  }

  lemma {:induction false} ItemsAreLaid(s: string, at: nat, items: seq<Json>, first: bool, depth: nat, closing: string)
    requires forall i :: 0 <= i < |items| ==> WrittenRequest(items[i])
    requires AllGap(closing) && (items != [] ==> closing != [] && closing[0] == '\n')
    requires Has(s, at, ItemsText(items, first, depth) + (closing + "]")) && at <= |s|
    ensures LaidBatch(s, at, MembersOf(items), at + |ItemsText(items, first, depth)| + |closing| + 1)
    decreases |items|
  {
    hide Has, Text, ItemText, WrittenRequest, SeenMembers, SkipAt, Laid;
    var end := closing + "]";
    if items == [] {
      assert ItemsText(items, first, depth) + end == end;
      NothingLeft(s, at, closing, "]");
    } else {
      var text := ItemText(items[0], first, depth);
      var rest := ItemsText(items[1..], false, depth);
      JoinedThree(text, rest, end);
      HasParts(s, at, text, rest + end);
      ItemPlaces(s, at, items[0], first, depth);
      assert items[0].Obj? by { RequestIsObject(items[0]); }
      RequestIsLaid(s, SkipGap(s, at), items[0], depth);
      ItemsAreLaid(s, at + |text|, items[1..], false, depth, closing);
      assert MembersOf(items)[1..] == MembersOf(items[1..]);
    }
  }

  /** A whole batch, as it was written. */
  lemma BatchIsLaid(v: Json)
    requires v.Arr? && forall i :: 0 <= i < |v.items| ==> WrittenRequest(v.items[i])
    ensures var s := Text(v, 0);
            && s != [] && s[0] == '[' && SkipGap(s, 0) == 0
            && LaidBatch(s, 1, MembersOf(v.items), |s|)
  {
    hide Has, ItemsText, NewLine, WrittenRequest, LaidBatch;
    var s := Text(v, 0);
    var closing := Closing(v.sized, |v.items|, 0);
    var inner := ItemsText(v.items, true, 1) + (closing + "]");
    assert s == "[" + inner;
    HasItself(s);
    HasParts(s, 0, "[", inner);
    TabsAreGap(0);
    NewLineBegins(0);
    ItemsAreLaid(s, 1, v.items, true, 1, closing);
  }

  lemma HasItself(s: string)
    ensures Has(s, 0, s)
  {
  }

  /** The responses that are due for requests one by one. */
  function ResponsesDue(server: Server, requests: seq<seq<Member>>): seq<Json> {
    if requests == [] then []
    else
      var due := ResponseDue(server, requests[0]);
      (if due.Some? then [due.value] else []) + ResponsesDue(server, requests[1..])
  }

  function AllCallsDue(server: Server, requests: seq<seq<Member>>): seq<Call> {
    if requests == [] then [] else CallsDue(server, requests[0]) + AllCallsDue(server, requests[1..])
  }

  ghost predicate AllDistinct(requests: seq<seq<Member>>) {
    forall i :: 0 <= i < |requests| ==> Distinct(requests[i])
  }

  lemma {:induction false} DueMore(server: Server, front: seq<seq<Member>>, last: seq<Member>)
    ensures ResponsesDue(server, front + [last])
         == ResponsesDue(server, front) + var due := ResponseDue(server, last); if due.Some? then [due.value] else []
    ensures AllCallsDue(server, front + [last]) == AllCallsDue(server, front) + CallsDue(server, last)
    decreases |front|
  {
    hide ResponseDue, CallsDue;
    var all := front + [last];
    if front == [] {
      assert all == [last] && all[1..] == [];
    } else {
      assert all[0] == front[0] && all[1..] == front[1..] + [last];
      DueMore(server, front[1..], last);
    }
  }

  /** A batch without repeated names in its requests is given what is due. */
  lemma {:induction false} BatchDue(server: Server, requests: seq<seq<Member>>)
    requires AllDistinct(requests)
    ensures Responses(server, requests) == ResponsesDue(server, requests)
    ensures AllCalls(server, requests) == AllCallsDue(server, requests)
    decreases |requests|
  {
    hide ResponseDue, CallsDue, Finished, Response, Distinct, ResponsesDue, AllCallsDue;
    if requests == [] {
      NothingDue(server);
    } else {
      var front, last := requests[..|requests| - 1], requests[|requests| - 1];
      assert requests == front + [last];
      BatchDue(server, front);
      EveryAnswer(server, last);
      DueMore(server, front, last);
    }
  }

  lemma NothingDue(server: Server)
    ensures ResponsesDue(server, []) == [] && AllCallsDue(server, []) == []
  {
  }

  /** From a written batch to the written responses: those of the single requests, in order, without those of
      notifications; and when no request repeats a name, those that are due. */
  method AnswerBatch(server: Server, v: Json) returns (response: string, calls: seq<Call>)
    requires WritesWell(server)
    requires v.Arr? && Writable(v) && forall i :: 0 <= i < |v.items| ==> WrittenRequest(v.items[i])
    ensures response == Text(Arr(false, Responses(server, MembersOf(v.items))), 0)
    ensures calls == AllCalls(server, MembersOf(v.items))
    ensures AllDistinct(MembersOf(v.items)) ==>
              && response == Text(Arr(false, ResponsesDue(server, MembersOf(v.items))), 0)
              && calls == AllCallsDue(server, MembersOf(v.items))
  {
    hide LaidBatch, Responses, AllCalls, Laid, WrittenRequest, Text, ResponsesDue, AllCallsDue;
    var request := new Output();
    request.WriteValue(v);
    BatchIsLaid(v);
    assert [] + Text(v, 0) == Text(v, 0);
    var result;
    result, response, calls := Post(server, "application/json", request.contents, MembersOf(v.items), |Text(v, 0)|);
    if AllDistinct(MembersOf(v.items)) {
      BatchDue(server, MembersOf(v.items));
    }
  }

  /** From a written request without repeated names to the response that is due, whatever the order of its members
      and whatever is wrong with it; for a proper request that is one call, and with an identifier the response
      that names it. */
  method AnswerRequest(server: Server, v: Json) returns (response: string, calls: seq<Call>)
    requires WritesWell(server)
    requires WrittenRequest(v) && Distinct(SeenMembers(v.members))
    ensures calls == CallsDue(server, SeenMembers(v.members))
    ensures response == match ResponseDue(server, SeenMembers(v.members))
                        case None => []
                        case Some(due) => Text(due, 0)
    ensures Proper(server, SeenMembers(v.members)) ==>
              && NamesMethod(server, SeenMembers(v.members))
              && calls == [TheCall(server, SeenMembers(v.members))]
              && response == match Lookup(SeenMembers(v.members), "id")
                             case None => []
                             case Some(id) =>
                               Text(Obj(true, [Member("jsonrpc", Str("2.0")), Echo(id),
                                               ReplyTo(server, TheCall(server, SeenMembers(v.members)))]), 0)
  {
    hide Laid, Text, Finished, Lookup, Distinct, Plain, Writable, Proper, ResponseDue, CallsDue;
    var request := new Output();
    request.WriteValue(v);
    assert request.contents == Text(v, 0) by { assert [] + Text(v, 0) == Text(v, 0); }
    HasItself(Text(v, 0));
    RequestIsLaid(Text(v, 0), 0, v, 0);
    EveryAnswer(server, SeenMembers(v.members));
    if Proper(server, SeenMembers(v.members)) {
      ProperRequest(server, SeenMembers(v.members));
    }
    var result;
    result, response, calls :=
      Post(server, "application/json", request.contents, [SeenMembers(v.members)], |Text(v, 0)|);
  }
}
