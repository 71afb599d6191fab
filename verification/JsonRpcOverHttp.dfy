/**
  JSON-RPC over HTTP, from one byte stream to the other: POST requests whose bodies are JSON-RPC requests or
  batches arrive in any pieces; each is dispatched, its body is answered, and the answers are written one behind
  the other with their lengths filled in, so that they can be told apart and read again.
 */
module JsonRpcOverHttp {
  import opened Decimal
  import opened JsonText
  import opened JsonInput
  import opened JsonRoundTrip
  import opened JsonRpc
  import opened JsonRpcServer
  import opened JsonRpcPost
  import opened Texts
  import HttpPieces
  import HttpReplies
  import HttpRequests
  import HttpScan
  import HttpSession

  const JSON := "application/json"

  /** A request, or a batch of them, as it is written. */
  ghost predicate Asked(v: Json) {
    if v.Arr? then forall i :: 0 <= i < |v.items| ==> WrittenRequest(v.items[i]) else WrittenRequest(v)
  }

  function RepliesTo(server: Server, v: Json): string {
    match v
    case Arr(_, items) => Text(Arr(false, Responses(server, MembersOf(items))), 0)
    case Obj(_, members) =>
      (match Response(Finished(server, SeenMembers(members)))
       case None => []
       case Some(response) => Text(response, 0))
    case _ => []
  }

  function CallsFor(server: Server, v: Json): seq<Call> {
    match v
    case Arr(_, items) => AllCalls(server, MembersOf(items))
    case Obj(_, members) => Finished(server, SeenMembers(members)).calls
    case _ => []
  }

  /** The body of a POST is answered. */
  method AnswerBody(server: Server, contentType: string, body: string, ghost v: Json)
      returns (result: bool, response: string, calls: seq<Call>)
    requires WritesWell(server) && contentType == JSON && Asked(v) && body == Text(v, 0)
    ensures result && response == RepliesTo(server, v) && calls == CallsFor(server, v)
  {
    hide Laid, LaidBatch, Responses, AllCalls, WrittenRequest, Text, Finished, Response;
    ghost var requests: seq<seq<Member>>;
    if v.Arr? {
      BatchIsLaid(v);
      requests := MembersOf(v.items);
    } else {
      RequestIsObject(v);
      HasItself(body);
      RequestIsLaid(body, 0, v, 0);
      requests := [SeenMembers(v.members)];
    }
    result, response, calls := Post(server, contentType, body, requests, |body|);
  }

  /** This HTTP request posts that JSON. */
  ghost predicate Posts(request: HttpRequests.Request, v: Json) {
    && request.Type() == HttpSession.PostRequest
    && request.ContentType() == Some(JSON)
    && request.body == Text(v, 0)
    && Asked(v)
  }

  ghost predicate AllPost(requests: seq<HttpRequests.Request>, vs: seq<Json>) {
    |requests| == |vs| && forall i :: 0 <= i < |vs| ==> Posts(requests[i], vs[i])
  }

  /** The lengths of the answers fit into the width of a length. */
  predicate AllShort(server: Server, vs: seq<Json>) {
    forall v <- vs :: |RepliesTo(server, v)| <= INT_MAX
  }

  function AllReplies(server: Server, vs: seq<Json>): seq<string> {
    if vs == [] then [] else AllReplies(server, vs[..|vs| - 1]) + [RepliesTo(server, vs[|vs| - 1])]
  }

  function CallsForAll(server: Server, vs: seq<Json>): seq<Call> {
    if vs == [] then [] else CallsForAll(server, vs[..|vs| - 1]) + CallsFor(server, vs[|vs| - 1])
  }

  /** What the header parser, reset for each response, makes of a stream: the bodies; or nothing if it is not a
      row of responses. */
  function Bodies(stream: string): Option<seq<string>>
    decreases |stream|
  {
    if stream == [] then Some([])
    else
      var read := HttpScan.Run(HttpScan.START, stream);
      var size := HttpScan.BodySize(read.headers);
      if !read.phase.Done? || size < 0 || read.position == 0 || read.position + size > |stream| then None
      else
        var later := Bodies(stream[read.position + size..]);
        if later.None? then None else Some([stream[read.position..read.position + size]] + later.value)
  }

  function Replied(reply: string): string
    requires |reply| <= INT_MAX
  {
    HttpReplies.UnknownSizeText(JSON, reply)
  }

  /** One response at the front of a stream. */
  lemma OneBody(reply: string, rest: string)
    requires |reply| <= INT_MAX && Bodies(rest).Some?
    ensures Bodies(Replied(reply) + rest) == Some([reply] + Bodies(rest).value)
  {
    hide HttpScan.Run, HttpReplies.UnknownSizeText, HttpReplies.HeadWith, HttpScan.BodySize, TextOf;
    HttpReplies.PlaceholderIsFilled(JSON, reply);
    var pad := HttpReplies.UNSET_SIZE[1..][|TextOf(|reply|)|..];
    var head := HttpReplies.HeadWith(" " + (IntText(|reply|) + pad), JSON);
    HttpReplies.ResponseIsRead(|reply|, pad, JSON, reply + rest);
    JoinedThree(head, reply, rest);
    assert Replied(reply) == head + reply;
    HeadIsThere(" " + (IntText(|reply|) + pad));
    BodyIsCut(head, reply, rest);
  }

  lemma HeadIsThere(length: string)
    ensures HttpReplies.HeadWith(length, JSON) != []
  {
  }

  lemma BodyIsCut(head: string, reply: string, rest: string)
    requires head != []
    requires Bodies(rest).Some?
    requires var stream := head + reply + rest;
             var read := HttpScan.Run(HttpScan.START, stream);
             read.phase.Done? && read.position == |head| && HttpScan.BodySize(read.headers) == |reply|
    ensures Bodies(head + reply + rest) == Some([reply] + Bodies(rest).value)
  {
    hide HttpScan.Run, HttpScan.BodySize;
    var stream := head + reply + rest;
    assert stream[|head|..|head| + |reply|] == reply && stream[|head| + |reply|..] == rest;
  }

  lemma {:induction false} BodiesOf(replies: seq<string>, written: seq<string>)
    requires |written| == |replies|
    requires forall i :: 0 <= i < |replies| ==> |replies[i]| <= INT_MAX && written[i] == Replied(replies[i])
    ensures Bodies(Join(written)) == Some(replies)
    decreases |replies|
  {
    hide Replied;
    if replies == [] {
    } else {
      assert forall i :: 0 <= i < |replies| - 1 ==>
          written[1..][i] == written[i + 1] && replies[1..][i] == replies[i + 1];
      BodiesOf(replies[1..], written[1..]);
      OneBody(replies[0], Join(written[1..]));
      assert replies == [replies[0]] + replies[1..];
    }
  }

  lemma OneMore(server: Server, vs: seq<Json>, i: nat)
    requires i < |vs|
    ensures AllReplies(server, vs[..i + 1]) == AllReplies(server, vs[..i]) + [RepliesTo(server, vs[i])]
    ensures CallsForAll(server, vs[..i + 1]) == CallsForAll(server, vs[..i]) + CallsFor(server, vs[i])
  {
    assert vs[..i + 1][..i] == vs[..i];
  }

  lemma {:induction false} PlainCallAt(requests: seq<HttpRequests.Request>, i: nat)
    requires i < |requests|
    ensures HttpRequests.PlainCalls(requests)[i] == HttpRequests.PlainCall(requests[i])
  {
    hide HttpRequests.PlainCall;
    if i > 0 { PlainCallAt(requests[1..], i - 1); }
  }

  lemma PostedIsDeclared(request: HttpRequests.Request, v: Json)
    requires Posts(request, v)
    ensures !HttpRequests.Undeclared(request)
    ensures HttpRequests.PlainCall(request)
         == HttpSession.Post(HttpSession.Own(request.path), HttpSession.Own(JSON), Text(v, 0))
  {
    hide Text, Asked;
  }

  lemma AllDeclared(requests: seq<HttpRequests.Request>, vs: seq<Json>)
    requires AllPost(requests, vs)
    ensures forall request <- requests :: !HttpRequests.Undeclared(request)
  {
    hide Posts, HttpRequests.Undeclared;
    forall request | request in requests ensures !HttpRequests.Undeclared(request) {
      var i :| 0 <= i < |requests| && requests[i] == request;
      PostedIsDeclared(requests[i], vs[i]);
    }
  }

  /** From end to end: whatever pieces the network makes of a stream of POSTs, each body is answered once and in
      order, up to the first request that asks to close; and what is written is read as exactly these answers. */
  method ServeJsonRpc(server: Server, requests: seq<HttpRequests.Request>, ghost vs: seq<Json>)
      returns (open: bool, written: seq<string>, calls: seq<Call>)
    requires WritesWell(server) && HttpRequests.AllValid(requests)
    requires AllPost(requests, vs) && AllShort(server, vs)
    ensures open == HttpRequests.NoneCloses(requests)
    ensures |written| == |HttpRequests.Answered(requests)| <= |vs|
    ensures Bodies(Join(written)) == Some(AllReplies(server, vs[..|written|]))
    ensures calls == CallsForAll(server, vs[..|written|])
  {
    hide Posts, HttpRequests.AllValid, HttpRequests.NoneCloses, HttpRequests.Calls, HttpRequests.PlainCalls,
         HttpRequests.NoneOverreaches, HttpPieces.Alike, HttpRequests.PlainCall, RepliesTo, CallsFor, WritesWell, Asked,
         HttpRequests.Undeclared, HttpReplies.UnknownSizeText, Text, Bodies, HttpRequests.Answered;
    AllDeclared(requests, vs);
    HttpRequests.DeclaredCalls(HttpSession.INITIAL.kept, requests);
    var events;
    open, events := HttpRequests.ServeRequests(requests);
    ghost var answered := HttpRequests.Answered(requests);
    written, calls := [], [];
    ghost var replies: seq<string> := [];
    var i := 0;
    assert vs[..0] == [];
    while i < |events|
      invariant i <= |events| == |answered| <= |vs| && |written| == |replies| == i
      invariant events == HttpRequests.PlainCalls(answered)
      invariant replies == AllReplies(server, vs[..i]) && calls == CallsForAll(server, vs[..i])
      invariant forall k :: 0 <= k < i ==> |replies[k]| <= INT_MAX && written[k] == Replied(replies[k])
    {
      PlainCallAt(answered, i);
      PostedIsDeclared(requests[i], vs[i]);
      OneMore(server, vs, i);
      ReplyIsShort(server, vs, i);
      assert Asked(vs[i]) by { PostedIsAsked(requests[i], vs[i]); }
      var contentType, body := events[i].contentType.text, events[i].body;
      var result, response, called := AnswerBody(server, contentType, body, vs[i]);
      assert Join([response]) == response by { assert response + [] == response; }
      var text := HttpReplies.WriteUnknownSize(JSON, [response]);
      replies := replies + [response];
      written := written + [text];
      calls := calls + called;
      i := i + 1;
    }
    BodiesOf(replies, written);
  }

  lemma ReplyIsShort(server: Server, vs: seq<Json>, i: nat)
    requires AllShort(server, vs) && i < |vs|
    ensures |RepliesTo(server, vs[i])| <= INT_MAX
  {
  }

  lemma PostedIsAsked(request: HttpRequests.Request, v: Json)
    requires Posts(request, v)
    ensures Asked(v)
  {
  }
}
