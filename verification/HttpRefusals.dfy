/**
  Streams that a session does not follow to their end: a POST that does not say how long its body is, a header
  block that is broken, a request line with a blank too few. Whatever the pieces, the requests before are answered
  and then the connection is closed, without a call.
 */
module HttpRefusals {
  import opened Decimal
  import opened HttpPieces
  import opened HttpRequests
  import opened HttpScan
  import opened HttpSession
  import opened Responder
  import opened Texts
  import HttpGrammar
  import Machine
  import TcpServer

  /** Whatever earlier requests have left, the connection ends here, and nobody is called. */
  ghost predicate Refused(tail: string) {
    && tail != []
    && forall kept ::
         var answer := SessionAnswer(Fresh(kept), tail);
         answer.events == [] && (answer.reaction == Disconnect || answer.reaction == Thrown)
  }

  /** Nothing that follows a request changes its call, but for what a stray place shows. */
  lemma CallStays(kept: Kept, request: Request, a: string, b: string)
    ensures Blurred(CallOf(kept, request, a)) == Blurred(CallOf(kept, request, b))
    ensures !Overreaches(kept, request) ==> CallOf(kept, request, a) == CallOf(kept, request, b)
  {
    EditedFacts(request);
    var text := request.Edited().Text();
    var place := kept.contentType;
    if place.start + place.length <= |text| {
      assert (text + a)[place.start..place.start + place.length] == text[place.start..place.start + place.length];
      assert (text + b)[place.start..place.start + place.length] == text[place.start..place.start + place.length];
    }
  }

  lemma AlikeFront(a: Event, b: Event, more: seq<Event>, later: seq<Event>)
    requires Blurred(a) == Blurred(b) && Alike(more, later)
    ensures Alike([a] + more, [b] + later)
  {
  }

  lemma {:induction false} DrainsThenRefuses(kept: Kept, requests: seq<Request>, tail: string)
    requires AllValid(requests) && !kept.closing && Refused(tail)
    requires WellBehaved(SessionAnswer)
    ensures RequestsText(requests) + tail != []
    ensures var outcome := Drain(SessionAnswer, Fresh(kept), RequestsText(requests) + tail);
            && !outcome.open
            && Alike(outcome.events, Calls(kept, requests))
            && (NoneOverreaches(kept, requests) ==> outcome.events == Calls(kept, requests))
    decreases |requests|
  {
    hide SessionAnswer, Request.Text, Request.Valid, Request.Closing, AllValid, CallOf, AfterHeaders, Blurred, Alike,
         Overreaches;
    if requests == [] {
      assert [] + tail == tail;
      Nothing();
    } else {
      var first, rest := requests[0], requests[1..];
      NoneClosesStep(requests);
      TextIsNotEmpty(first);
      var ahead := RequestsText(rest) + tail;
      JoinedThree(first.Text(), RequestsText(rest), tail);
      AnswersRequest(kept, first, ahead);
      AfterClosing(kept, first);
      EditedFacts(first);
      CallStays(kept, first, ahead, RequestsText(rest));
      var after := KeptAfter(kept, first);
      var window := first.Edited().Text() + ahead;
      assert window[|first.Text()|..] == ahead;
      var call, expected := CallOf(kept, first, ahead), CallOf(kept, first, RequestsText(rest));
      if after.closing {
        Nothing();
        AlikeFront(call, expected, [], []);
        assert [call] + [] == [call] && [expected] + [] == [expected];
      } else {
        DrainsThenRefuses(after, rest, tail);
        AlikeFront(call, expected, Drain(SessionAnswer, Fresh(after), ahead).events, Calls(after, rest));
      }
    }
  }

  lemma Nothing()
    ensures Alike([], [])
  {
  }

  lemma AlikeChain(a: seq<Event>, b: seq<Event>, c: seq<Event>)
    requires Alike(a, b) && Alike(b, c)
    ensures Alike(a, c)
  {
    forall i | 0 <= i < |a| ensures Blurred(a[i]) == Blurred(c[i]) {
      assert Blurred(a[i]) == Blurred(b[i]);
    }
  }

  /** Well-formed requests and then something that is refused, in any pieces: the calls are those of the requests,
      but for what a stray place shows, and the connection is closed. */
  method ServeThenRefuse(requests: seq<Request>, tail: string) returns (open: bool, events: seq<Event>)
    requires AllValid(requests) && Refused(tail)
    ensures !open
    ensures Alike(events, Calls(INITIAL.kept, requests))
    ensures NoneOverreaches(INITIAL.kept, requests) ==> events == Calls(INITIAL.kept, requests)
  {
    hide SessionAnswer, AllValid, WellBehaved, NoneOverreaches, Calls, FeedAll, Drain, AllProper, Alike, Refused;
    var session;
    ghost var pieces;
    var stream := RequestsText(requests) + tail;
    AnyPieces([]);
    open, session, events, pieces := TcpServer.ServeConnection(SessionAnswer, INITIAL, stream);
    AnyPieces(pieces);
    DrainsThenRefuses(INITIAL.kept, requests, tail);
    assert [] + stream == stream;
    ghost var drained := Drain(SessionAnswer, INITIAL, stream);
    assert [] + drained.events == drained.events;
    AlikeChain(events, drained.events, Calls(INITIAL.kept, requests));
    CallsAreProper(INITIAL.kept, requests);
    if NoneOverreaches(INITIAL.kept, requests) {
      ProperIsSeen(events, Calls(INITIAL.kept, requests));
    }
  }

  // What is refused.

  /** No line says how long the body is. */
  ghost predicate Unsized(lines: seq<Line>) {
    forall i, n :: 0 <= i < |lines| ==> !SaysSize(lines[i], n)
  }

  ghost predicate SaysSize(line: Line, n: int) {
    && AllLower(line.name) == "content-length"
    && -0x8000_0000 <= n <= 0x7fff_ffff && StandsFor(line.value, n)
  }

  lemma UnsizedHeaders(lines: seq<Line>, at: nat)
    requires Unsized(lines)
    ensures BodySize(HeadersOf(lines, at)) == -1
  {
    hide HeadersOf, AllLower, StandsFor, BodySize;
    var headers := HeadersOf(lines, at);
    HeadersLength(lines, at);
    BodySizeExactly(headers);
    forall i, n | 0 <= i < |headers| ensures !Sizes(headers[i], n) {
      HeaderOfLine(lines, at, i);
      assert !SaysSize(lines[i], n);
    }
  }

  /** A POST without a Content-Length that can be read is refused, whatever follows its head. */
  lemma UnsizedPost(post: Request, rest: string, kept: Kept)
    requires post.Sound() && post.Type() == PostRequest && Unsized(post.lines)
    ensures Refused(post.Head() + rest)
    ensures var answer := SessionAnswer(Fresh(kept), post.Head() + rest);
            answer.reaction == Disconnect && answer.events == []
  {
    hide Machine.Run, Machine.Rewritten, BodySize, HeadersOf, Unsized, OwnContentType, Closes, Request.Sound,
         Request.FirstLine, ReadFirstLine, LinesText;
    var window := post.Head() + rest;
    ReadsHead(post);
    HeadIsThere(post);
    RunAppend(START, post.Head(), rest);
    DecidedStays(Run(START, post.Head()), rest);
    FirstLineIsUnderstood(post);
    UnsizedHeaders(post.lines, |post.FirstLine()| + 2);
  }

  /** So is one whose size is negative, or too large for the range of an `int`. */
  lemma OversizedPost(post: Request, i: nat, n: int, rest: string)
    requires post.Sound() && post.Type() == PostRequest
    requires i < |post.lines| && SaysSize(post.lines[i], n)
    requires forall j, m :: i < j < |post.lines| ==> !SaysSize(post.lines[j], m)
    requires n < 0 || |post.Head()| + n > 0x7fff_ffff
    ensures Refused(post.Head() + rest)
  {
    hide Machine.Run, Machine.Rewritten, BodySize, HeadersOf, OwnContentType, Closes, Request.Sound,
         Request.FirstLine, ReadFirstLine, LinesText, SaysSize;
    ReadsHead(post);
    HeadIsThere(post);
    RunAppend(START, post.Head(), rest);
    DecidedStays(Run(START, post.Head()), rest);
    FirstLineIsUnderstood(post);
    SizedHeaders(post.lines, |post.FirstLine()| + 2, i, n);
  }

  lemma SizedHeaders(lines: seq<Line>, at: nat, i: nat, n: int)
    requires i < |lines| && SaysSize(lines[i], n)
    requires forall j, m :: i < j < |lines| ==> !SaysSize(lines[j], m)
    ensures BodySize(HeadersOf(lines, at)) == n
  {
    hide HeadersOf, AllLower, StandsFor, BodySize;
    var headers := HeadersOf(lines, at);
    HeadersLength(lines, at);
    BodySizeExactly(headers);
    forall j, m | 0 <= j < |headers| ensures Sizes(headers[j], m) <==> SaysSize(lines[j], m) {
      HeaderOfLine(lines, at, j);
    }
    FromCharsExactly(lines[i].value, n, INT_MIN, INT_MAX);
    if k :| 0 <= k < |headers| && SizedBy(headers, k, BodySize(headers)) {
      assert Sizes(headers[i], n) && Sizes(headers[k], BodySize(headers));
      FromCharsExactly(lines[i].value, BodySize(headers), INT_MIN, INT_MAX);
    }
  }

  lemma HeadIsThere(post: Request)
    ensures |post.Head()| > 0
  {
  }

  /** A header block is refused if its request line ends without a line feed, if a header line has no colon before
      its value, or if the block ends without a line feed. */
  lemma BrokenBlock(reading: HttpGrammar.Reading)
    requires reading.Valid()
    requires reading.BrokenFirst? || (reading.Block? && (reading.tail.NoColon? || reading.tail.BrokenEnd?))
    ensures Refused(reading.Text())
  {
    hide Machine.Run, HttpGrammar.LinesText, HttpGrammar.Headers, HttpGrammar.EditedText, Refused;
    HttpGrammar.MachineIsExact(reading.Text(), reading);
    RefusedByMachine(reading.Text());
  }

  lemma RefusedByMachine(s: string)
    requires Run(START, s).phase.Refused?
    ensures s != [] ==> Refused(s)
  {
    hide Machine.Run, Machine.Rewritten, BodySize, AfterHeaders, ReadFirstLine, Proceed;
  }

  /** A request line with fewer than two blanks is refused as soon as it has ended. */
  lemma ShortLine(line: string, rest: string)
    requires HttpGrammar.NoReturn(line)
    requires forall i, j :: 0 <= i < j < |line| && line[i] == ' ' ==> line[j] != ' '
    ensures Refused(line + "\r" + rest)
  {
    hide Machine.Run, Machine.Rewritten, Step;
    var window := line + "\r" + rest;
    LineIsShort(line);
    var front := HttpGrammar.FirstReturn(line);
    HttpGrammar.MachineIsExact(line + "\r", front);
    RunAppend(START, line + "\r", rest);
    ScanProgress(Run(START, line + "\r"), rest);
  }

  /** Exactly the lines with two blanks are understood. */
  lemma LineIsShort(line: string)
    ensures ReadFirstLine(line).None? <==> forall i, j :: 0 <= i < j < |line| && line[i] == ' ' ==> line[j] != ' '
  {
    var a := FindSpace(line, 0);
    var b := FindSpace(line, a + 1);
    if b < |line| {
      assert line[a] == ' ' && line[b] == ' ';
    }
  }
}
