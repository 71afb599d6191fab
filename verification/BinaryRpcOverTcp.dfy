/**
  Remote calls from end to end: a client's requests reach the server in whatever pieces the network makes of
  them, the server's replies reach the client in other pieces, and each call of the client reads the result that
  was computed for its own arguments.
 */
module BinaryRpcOverTcp {
  import opened BinaryFormat
  import opened BinaryRoundTrip
  import opened Callables
  import opened Frames
  import opened Texts
  import opened Responder
  import opened FramedConnection
  import opened Correlation
  import opened BinaryRpc
  import opened BinaryRpcCalls

  /** A call that a client makes; its place in the row of calls is the id of the request. */
  datatype Making = Making(callable: nat, arguments: seq<Value>)

  /** A call that can be made: a method that can be named, not too deep, plain arguments, and a request whose
      size fits. */
  ghost predicate Makeable(service: Service, order: nat, making: Making)
    requires Proper(service)
  {
    && making.callable < |service.signatures| && Nameable(service.tree, making.callable)
    && |IndexPath(service.tree, making.callable)| <= 3
    && var signature := service.signatures[making.callable];
       && TakesArguments(signature, making.arguments)
       && FieldsPlain(signature.parameters, Flags(false, signature.ask), making.arguments, 0)
       && |Request(service, order, making.callable, making.arguments)| < 0x1_0000
  }

  /** Fewer calls than there are ids. */
  ghost predicate AllMakeable(service: Service, makings: seq<Making>)
    requires Proper(service)
  {
    |makings| <= 0x1_0000_0000 && forall i :: 0 <= i < |makings| ==> Makeable(service, i, makings[i])
  }

  function ReplyTo(service: Service, makings: seq<Making>, i: nat): string
    requires Proper(service) && AllMakeable(service, makings) && i < |makings|
  {
    Reply(service, i, makings[i].callable, makings[i].arguments)
  }

  function Requests(service: Service, makings: seq<Making>): (frames: seq<string>)
    requires Proper(service) && AllMakeable(service, makings)
    ensures |frames| == |makings|
  {
    seq(|makings|, i requires 0 <= i < |makings| => Request(service, i, makings[i].callable, makings[i].arguments))
  }

  function Replies(service: Service, makings: seq<Making>): (frames: seq<string>)
    requires Proper(service) && AllMakeable(service, makings)
    ensures |frames| == |makings|
  {
    seq(|makings|, i requires 0 <= i < |makings| => ReplyTo(service, makings, i))
  }

  /** What the server is expected to do about one call. */
  function Expected(service: Service, makings: seq<Making>, i: nat): Event
    requires Proper(service) && AllMakeable(service, makings) && i < |makings|
  {
    Called(makings[i].callable, makings[i].arguments, ReplyTo(service, makings, i))
  }

  /** The client's calls, one after another: what it writes is the row of requests. */
  method MakeCalls(client: BinaryProtocolClient, service: Service, makings: seq<Making>) returns (stream: string)
    requires Proper(service) && AllMakeable(service, makings)
    requires client.sendOrder == 0
    modifies client
    ensures stream == Join(Requests(service, makings))
  {
    hide Request, Nameable, FieldsPlain, Join, IndexPath;
    ghost var requests := Requests(service, makings);
    stream := [];
    assert Join(requests[..0]) == [] by { NothingJoins(); }
    var i := 0;
    while i < |makings|
      invariant i <= |makings| && (i < |makings| ==> client.sendOrder == i)
      invariant stream == Join(requests[..i])
    {
      assert Makeable(service, i, makings[i]);
      var accepted, token, written := client.Send(service, makings[i].callable, makings[i].arguments);
      JoinMore(requests[..i], written);
      assert requests[..i + 1] == requests[..i] + [written];
      stream := stream + written;
      i := i + 1;
    }
    assert requests[..i] == requests;
  }

  lemma NothingJoins()
    ensures Join([]) == []
  {
  }

  // The server.

  /** A responder that does what the server does. */
  ghost predicate IsServer(respond: Responding<(), Event>, service: Service)
    requires Proper(service)
  {
    forall state: (), window: string :: respond(state, window) == Answered(service, state, window)
  }

  /** The server is a well-behaved responder on any input. */
  lemma ServerAnswersWell(respond: Responding<(), Event>, service: Service, input: string)
    requires Proper(service) && IsServer(respond, service) && input != []
    ensures AnswersWell(respond, (), input)
  {
    hide Follow, FieldsAt, Reply, FieldsFit;
    if HEADER <= |input| {
      var followed := Follow(service.tree, input, HEADER, ROOT);
      if followed.Arrived? {
        var signature := service.signatures[followed.callable];
        var arguments := FieldsAt(input, followed.at, signature.parameters, Flags(false, signature.ask), 0);
        if arguments.Got? {
          FieldsConsume(input, followed.at, signature.parameters, Flags(false, signature.ask), 0);
        }
      }
    }
  }

  lemma WholeIsServed(service: Service, order: nat, making: Making, more: string)
    requires Proper(service) && Makeable(service, order, making) && order < 0x1_0000_0000
    ensures var frame := Request(service, order, making.callable, making.arguments);
            Answered(service, (), frame + more) ==
            Answer(Ok, |frame|, (), frame + more,
                   [Called(making.callable, making.arguments,
                       Reply(service, order, making.callable, making.arguments))])
  {
    hide Answered, Reply, Request, FieldsPlain, Nameable, FieldsFit;
    assert order % 0x1_0000_0000 == order;
    RequestIsServed(service, order, making.callable, making.arguments, more);
  }

  lemma PartIsKept(service: Service, order: nat, making: Making, n: nat)
    requires Proper(service) && Makeable(service, order, making)
    requires n < |Request(service, order, making.callable, making.arguments)|
    ensures var part := Request(service, order, making.callable, making.arguments)[..n];
            Answered(service, (), part) == Answer(ReadOn, 0, (), part, [])
  {
    hide Answered, Reply, Request, FieldsPlain, Nameable, FieldsFit;
    PartsWait(service, order, making.callable, making.arguments);
  }

  lemma ServerServes(respond: Responding<(), Event>, service: Service, order: nat, making: Making)
    requires Proper(service) && IsServer(respond, service) && Makeable(service, order, making) && order < 0x1_0000_0000
    ensures Serves(respond, (), Request(service, order, making.callable, making.arguments),
                   [Called(making.callable, making.arguments,
                       Reply(service, order, making.callable, making.arguments))])
  {
    var frame := Request(service, order, making.callable, making.arguments);
    var event := Called(making.callable, making.arguments, Reply(service, order, making.callable, making.arguments));
    hide Answered, Reply, Request, Makeable, Proper;
    forall more: string ensures respond((), frame + more) == Answer(Ok, |frame|, (), frame + more, [event]) {
      WholeIsServed(service, order, making, more);
    }
    forall n | 0 < n < |frame| ensures respond((), frame[..n]) == Answer(ReadOn, 0, (), frame[..n], []) {
      PartIsKept(service, order, making, n);
    }
  }

  /** The server's half: whatever the pieces, each call is made once, in order, with its own arguments, and
      replied to under its own id. */
  method ServeCalls(service: Service, makings: seq<Making>, stream: string) returns (open: bool, events: seq<Event>)
    requires Proper(service) && AllMakeable(service, makings)
    requires stream == Join(Requests(service, makings))
    ensures open && |events| == |makings|
    ensures forall i :: 0 <= i < |makings| ==> events[i] == Expected(service, makings, i)
  {
    hide Answered, Makeable, Reply, Request;
    var respond := (state: (), window: string) => Answered(service, state, window);
    forall state: (), window: string | window != [] ensures AnswersWell(respond, state, window) {
      assert state == ();
      ServerAnswersWell(respond, service, window);
    }
    ghost var frames := Requests(service, makings);
    ghost var replies := seq(|makings|, i requires 0 <= i < |makings| => [Expected(service, makings, i)]);
    forall i | 0 <= i < |makings| ensures Serves(respond, (), frames[i], replies[i]) {
      ServerServes(respond, service, i, makings[i]);
    }
    open, events := ServeFrames(respond, (), stream, frames, replies);
    FlatSingles(replies);
  }

  lemma {:induction false} FlatSingles<E>(events: seq<seq<E>>)
    requires forall i :: 0 <= i < |events| ==> |events[i]| == 1
    ensures |Flat(events)| == |events|
    ensures forall i :: 0 <= i < |events| ==> Flat(events)[i] == events[i][0]
    decreases |events|
  {
    if events != [] {
      FlatSingles(events[1..]);
      forall i | 0 <= i < |events| ensures Flat(events)[i] == events[i][0] {
        if i > 0 { assert Flat(events)[i] == Flat(events[1..])[i - 1]; }
      }
    }
  }

  // The client.

  /** The replies can be told apart: each is a frame, under the id of its request. */
  lemma RepliesAreFrames(service: Service, makings: seq<Making>, i: nat)
    requires Proper(service) && AllMakeable(service, makings) && i < |makings|
    requires |ReplyTo(service, makings, i)| < 0x1_0000
    ensures IsFrame(ReplyTo(service, makings, i)) && Token(ReplyTo(service, makings, i)) == i
  {
    hide Token, NumberBytes, Encoded;
    var making := makings[i];
    assert Makeable(service, i, making);
    var content := ResultEncoded(service.signatures[making.callable],
        service.procedure(making.callable, making.arguments));
    WrappedParts(i, content, []);
    assert ReplyTo(service, makings, i) + [] == ReplyTo(service, makings, i);
  }

  /** What has been received so far of a row of frames is the first of them, and a part of the next. */
  lemma ReceivedFrames(frames: seq<Frame>, received: string, rest: string)
    requires received + rest == Join(frames)
    ensures Complete(received) <= frames
  {
    MoreBytes(received, rest);
    assert Join(frames) + [] == Join(frames);
    assert Complete([]) == [];
    JoinedFrames(frames, []);
  }

  /** The client's half: in every run over a stream of the replies, in any pieces and with the calls asking in
      any order, whatever a call is given to read begins with the reply to its own request. */
  lemma CallsReadTheirReplies(service: Service, makings: seq<Making>, calls: seq<Call>, rest: string, i: nat)
    requires Proper(service) && AllMakeable(service, makings)
    requires forall k :: 0 <= k < |makings| ==> |ReplyTo(service, makings, k)| < 0x1_0000
    requires Run(calls).received + rest == Join(Replies(service, makings))
    requires i < |Run(calls).log|
    ensures var talk := Run(calls).log[i];
            && talk.token < |makings|
            && ReplyTo(service, makings, talk.token) <= talk.view
  {
    hide ReplyTo, Run, AllMakeable, Token, SizeField, Correlated, Replies, Complete;
    var history := Run(calls);
    var frames := ReplyFrames(service, makings);
    ReceivedFrames(frames, history.received, rest);
    var complete := Complete(history.received);
    assert forall k :: 0 <= k < |complete| ==> complete[k] == frames[k];
    RunsAreCorrelated(calls);
    LogIsRight(history, i);
    var talk := history.log[i];
    var frame := First(talk.view);
    var k :| 0 <= k < |complete| && complete[k] == frame;
    SameToken(talk.view);
    assert frame == talk.view[..|frame|];
  }

  lemma ReplyFrames(service: Service, makings: seq<Making>) returns (frames: seq<Frame>)
    requires Proper(service) && AllMakeable(service, makings)
    requires forall k :: 0 <= k < |makings| ==> |ReplyTo(service, makings, k)| < 0x1_0000
    ensures frames == Replies(service, makings)
    ensures forall k :: 0 <= k < |makings| ==> frames[k] == ReplyTo(service, makings, k) && Token(frames[k]) == k
  {
    hide ReplyTo, AllMakeable, Token, SizeField;
    forall k | 0 <= k < |makings| ensures IsFrame(ReplyTo(service, makings, k))
        && Token(ReplyTo(service, makings, k)) == k {
      RepliesAreFrames(service, makings, k);
    }
    frames := Replies(service, makings);
  }

  lemma LogIsRight(history: History, i: nat)
    requires Correlated(history) && i < |history.log|
    ensures GivenRightly(history.log[i], Complete(history.received))
  {
  }

  lemma SameToken(view: string)
    requires HasFrame(view)
    ensures Token(First(view)) == Token(view)
  {
    assert First(view)[..4] == view[..4];
  }

  /** From end to end: what a call reads is the result of its own procedure on its own arguments. */
  lemma CallsReadTheirResults(service: Service, makings: seq<Making>, calls: seq<Call>, rest: string, i: nat)
    requires Proper(service) && AllMakeable(service, makings)
    requires forall k :: 0 <= k < |makings| ==> |ReplyTo(service, makings, k)| < 0x1_0000
    requires Run(calls).received + rest == Join(Replies(service, makings))
    requires i < |Run(calls).log|
    ensures var talk := Run(calls).log[i];
            && talk.token < |makings|
            && var making := makings[talk.token];
               var signature := service.signatures[making.callable];
               var result := service.procedure(making.callable, making.arguments);
               && ResultFits(signature.result, result)
               && (signature.result.Typed? ==>
                     (ValueAt(talk.view, HEADER, signature.result.schema, Flags(false, signature.ask), 0)
                      == Got(result, |ReplyTo(service, makings, talk.token)|)
                      <==> Plain(signature.result.schema, Flags(false, signature.ask), result, 0)))
  {
    hide Run, ValueAt, Plain, Reply, Replies, Fits;
    CallsReadTheirReplies(service, makings, calls, rest, i);
    var talk := Run(calls).log[i];
    var making := makings[talk.token];
    assert Makeable(service, talk.token, making);
    var reply := ReplyTo(service, makings, talk.token);
    var more := talk.view[|reply|..];
    assert talk.view == reply + more;
    if service.signatures[making.callable].result.Typed? {
      ResultReturns(service, talk.token, making.callable, making.arguments, more);
    }
  }
}
