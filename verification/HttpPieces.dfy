/**
  The HTTP server on any bytes at all, well formed or not, in any pieces. What the network's pieces can change
  is what a stray place shows: that of a content type which an earlier request has left, when it reaches past
  the end of a later POST. Nothing else depends on them, and this does.
 */
module HttpPieces {
  import opened HttpScan
  import opened HttpSession
  import opened Responder
  import opened Texts
  import Machine

  predicate IsKnown(text: Text) { text.Stray? ==> text.outside == 0 }

  /** The call shows nothing but unread bytes. */
  predicate Known(event: Event) {
    match event
    case Get(path) => IsKnown(path)
    case Post(path, contentType, body) => IsKnown(path) && IsKnown(contentType)
    case NotImplemented => true
  }

  /** The call shows nothing but its own request. */
  predicate Proper(event: Event) {
    match event
    case Get(path) => path.Own?
    case Post(path, contentType, body) => path.Own? && contentType.Own?
    case NotImplemented => true
  }

  predicate AllKnown(events: seq<Event>) { forall i :: 0 <= i < |events| ==> Known(events[i]) }

  predicate AllProper(events: seq<Event>) { forall i :: 0 <= i < |events| ==> Proper(events[i]) }

  /** The same calls, but for what stray places show. */
  predicate Alike(a: seq<Event>, b: seq<Event>) {
    |a| == |b| && forall i :: 0 <= i < |a| ==> Blurred(a[i]) == Blurred(b[i])
  }

  /** Any stream in any pieces has the fate that it has at once, but for what stray places show. */
  lemma AnyPieces(pieces: seq<string>)
    ensures WellBehaved(SessionAnswer)
    ensures var a, b := FeedAll(SessionAnswer, INITIAL, pieces), Whole(SessionAnswer, INITIAL, Join(pieces));
            && a.open == b.open
            && Alike(a.events, b.events)
            && (a.open ==> a.state == b.state && a.kept == b.kept)
  {
    hide WellBehaved, Incremental, SeenThrough, SessionAnswer, BlurredAnswer, Blurred, FeedAll, Whole, SeenEvents;
    SessionIsIncremental();
    SeenPiecesDoNotMatter(Blurred, SessionAnswer, BlurredAnswer, INITIAL, pieces);
    var a, b := FeedAll(SessionAnswer, INITIAL, pieces), Whole(SessionAnswer, INITIAL, Join(pieces));
    assert SeenEvents(Blurred, a.events) == SeenEvents(Blurred, b.events);
    forall i | 0 <= i < |a.events| ensures Blurred(a.events[i]) == Blurred(b.events[i]) {
      assert SeenEvents(Blurred, a.events)[i] == SeenEvents(Blurred, b.events)[i];
    }
  }

  lemma ProperIsSeen(a: seq<Event>, b: seq<Event>)
    requires Alike(a, b) && AllProper(b)
    ensures a == b
  {
    forall i | 0 <= i < |a| ensures a[i] == b[i] {
      assert Proper(b[i]) && Blurred(a[i]) == Blurred(b[i]);
    }
  }

  /** These are the calls, all of them known, whatever the pieces. */
  ghost predicate Determines(stream: string, events: seq<Event>)
    requires WellBehaved(SessionAnswer)
  {
    && AllKnown(events)
    && forall pieces :: Join(pieces) == stream ==> FeedAll(SessionAnswer, INITIAL, pieces).events == events
  }

  ghost predicate OnlyTheStreamMatters(stream: string)
    requires WellBehaved(SessionAnswer)
  {
    exists events :: Determines(stream, events)
  }

  // A request that shows a stray place is a request whose call depends on where the network cuts.

  lemma ProceedAlone(kept: Kept, requestType: RequestType, head: Positive, size: int, path: Span,
                     window: seq<char>, k: nat)
    requires requestType != PostRequest ==> head <= |window|
    requires var answer := Proceed(kept, requestType, head, size, path, window);
             answer.events != [] && answer.consumed <= k <= |window|
    ensures requestType != PostRequest ==> head <= k
    ensures var answer := Proceed(kept, requestType, head, size, path, window);
            var short := Proceed(kept, requestType, head, size, path, window[..k]);
            && short == answer.(window := answer.window[..k], events := short.events)
            && |short.events| == |answer.events| == 1
            && answer.consumed >= head && answer.window == window
            && (k == answer.consumed && !Proper(answer.events[0]) ==> !Known(short.events[0]))
  {
  }

  /** The unread bytes that a call was made from are enough for it; but a stray place is not among them. */
  lemma AnsweredAlone(state: SessionState, window: seq<char>, k: nat)
    requires window != []
    requires var answer := SessionAnswer(state, window); answer.events != [] && answer.consumed <= k <= |window|
    ensures var answer := SessionAnswer(state, window);
            var short := SessionAnswer(state, window[..k]);
            && 0 < answer.consumed <= |window| == |answer.window|
            && short == answer.(window := answer.window[..k], events := short.events)
            && |short.events| == |answer.events| == 1
            && (k == answer.consumed && !Proper(answer.events[0]) ==> !Known(short.events[0]))
  {
    hide Machine.Run, Machine.Rewritten, Proceed, Step, Edit, Proper, Known;
    match state
    case Fresh(kept) =>
      var scan := Run(START, window);
      var edited := Lowered(START, window);
      PrefixLaw(window, []);
      var first := ReadFirstLine(scan.line).value;
      var kept' := AfterHeaders(kept, scan.headers);
      ProceedAlone(kept', first.requestType, scan.position, BodySize(scan.headers), first.path, edited, k);
      EndIsExact(window, k);
      DecidedEarly(window, k);
      assert edited[..k] == Lowered(START, window[..k]);
      PrefixLaw(window[..k], []);
    case AwaitingBody(kept, head, size, path) =>
      ProceedAlone(kept, PostRequest, head, size, path, window, k);
  }

  lemma {:induction false} StrayIsCut(state: SessionState, window: seq<char>) returns (k: nat)
    requires WellBehaved(SessionAnswer)
    requires window != [] && !AllProper(Drain(SessionAnswer, state, window).events)
    ensures 0 < k <= |window| && !AllKnown(Drain(SessionAnswer, state, window[..k]).events)
    decreases |window|
  {
    hide WellBehaved, SessionAnswer, Proper, Known;
    SessionAnswersWell(state, window);
    var answer := SessionAnswer(state, window);
    SilentOrDone(state, window);
    if answer.events != [] && !Proper(answer.events[0]) {
      k := answer.consumed;
      AnsweredAlone(state, window, k);
      var short := SessionAnswer(state, window[..k]);
      FirstCallIsMade(state, window[..k]);
      assert !Known(Drain(SessionAnswer, state, window[..k]).events[0]);
    } else {
      assert answer.reaction == Ok && answer.consumed < |window|;
      var left := answer.window[answer.consumed..];
      var rest := Drain(SessionAnswer, answer.state, left);
      var n :| 0 <= n < |answer.events + rest.events| && !Proper((answer.events + rest.events)[n]);
      assert n > 0 && !Proper(rest.events[n - 1]);
      var j := StrayIsCut(answer.state, left);
      k := answer.consumed + j;
      AnsweredAlone(state, window, k);
      SessionAnswersWell(state, window[..k]);
      var short := SessionAnswer(state, window[..k]);
      assert short.window[short.consumed..] == left[..j];
      var part := Drain(SessionAnswer, answer.state, left[..j]);
      var i :| 0 <= i < |part.events| && !Known(part.events[i]);
      assert (short.events + part.events)[|short.events| + i] == part.events[i];
    }
  }

  lemma SilentOrDone(state: SessionState, window: seq<char>)
    requires window != []
    ensures var answer := SessionAnswer(state, window);
            && |answer.events| <= 1
            && (answer.reaction == Ok ==> |answer.events| == 1)
            && (answer.reaction == ReadOn || answer.reaction == Thrown || answer.reaction == WrongReply ==>
                answer.events == [])
            && (answer.events != [] ==> answer.consumed <= |window|)
  {
    PrefixLaw(window, []);
  }

  lemma FirstCallIsMade(state: SessionState, window: seq<char>)
    requires WellBehaved(SessionAnswer)
    requires window != [] && SessionAnswer(state, window).events != []
    ensures var events := Drain(SessionAnswer, state, window).events;
            events != [] && events[0] == SessionAnswer(state, window).events[0]
  {
    hide WellBehaved, SessionAnswer;
    SilentOrDone(state, window);
    SessionAnswersWell(state, window);
  }

  /** For any stream at all: the calls are determined by the stream if and only if, when it arrives at once,
      no call shows a stray place. */
  lemma PiecesMatterForStraysOnly(stream: string)
    ensures WellBehaved(SessionAnswer)
    ensures OnlyTheStreamMatters(stream) <==> AllProper(Whole(SessionAnswer, INITIAL, stream).events)
  {
    hide WellBehaved, SessionAnswer, FeedAll, Whole, AllProper, AllKnown, Determines, Drain;
    AnyPieces([]);
    if AllProper(Whole(SessionAnswer, INITIAL, stream).events) {
      ProperIsDetermined(stream);
    }
    if events :| Determines(stream, events) {
      DeterminedIsProper(stream, events);
    }
  }

  lemma ProperIsDetermined(stream: string)
    requires WellBehaved(SessionAnswer)
    requires AllProper(Whole(SessionAnswer, INITIAL, stream).events)
    ensures Determines(stream, Whole(SessionAnswer, INITIAL, stream).events)
  {
    hide WellBehaved, SessionAnswer, FeedAll, Whole, Alike, Drain;
    var events := Whole(SessionAnswer, INITIAL, stream).events;
    assert AllKnown(events) by {
      forall i | 0 <= i < |events| ensures Known(events[i]) {
        assert Proper(events[i]);
      }
    }
    forall pieces | Join(pieces) == stream ensures FeedAll(SessionAnswer, INITIAL, pieces).events == events {
      AnyPieces(pieces);
      ProperIsSeen(FeedAll(SessionAnswer, INITIAL, pieces).events, events);
    }
  }

  lemma DeterminedIsProper(stream: string, events: seq<Event>)
    requires WellBehaved(SessionAnswer)
    requires Determines(stream, events)
    ensures AllProper(Whole(SessionAnswer, INITIAL, stream).events)
  {
    hide WellBehaved, SessionAnswer, Known, Proper, Drain, AllKnown;
    AtOnce(SessionAnswer, INITIAL, stream);
    var whole := Whole(SessionAnswer, INITIAL, stream);
    assert [] + stream == stream;
    if stream != [] {
      var drained := Drain(SessionAnswer, INITIAL, stream);
      assert [] + drained.events == drained.events;
      if !AllProper(drained.events) {
        var k := StrayIsCut(INITIAL, stream);
        CutIsSeen(stream, k);
      }
    }
  }

  /** What a piece causes at once is among what all pieces cause. */
  lemma CutIsSeen(stream: string, k: nat)
    requires WellBehaved(SessionAnswer)
    requires 0 < k <= |stream| && !AllKnown(Drain(SessionAnswer, INITIAL, stream[..k]).events)
    ensures Join([stream[..k], stream[k..]]) == stream
    ensures !AllKnown(FeedAll(SessionAnswer, INITIAL, [stream[..k], stream[k..]]).events)
  {
    hide WellBehaved, SessionAnswer, Known, Drain;
    var a, b := stream[..k], stream[k..];
    AtOnce(SessionAnswer, INITIAL, a);
    AtOnce(SessionAnswer, INITIAL, b);
    assert [a, b][..1] == [a] && [a, b][1..] == [b];
    assert a + b == stream;
    assert [] + a == a;
    var first := Drain(SessionAnswer, INITIAL, a);
    var before := FeedAll(SessionAnswer, INITIAL, [a]);
    assert before.events == [] + first.events == first.events;
    var all := FeedAll(SessionAnswer, INITIAL, [a, b]).events;
    var i :| 0 <= i < |first.events| && !Known(first.events[i]);
    assert all[i] == first.events[i];
  }
}
