/**
  What a server session promises to the receive buffer that feeds it, and what follows from the
  promise for any responder: what a connection dispatches does not depend on how the network cut
  the byte stream into pieces.

  A responder is a value: it takes its own state and the unread bytes and answers with its reaction,
  the number of bytes it consumed, its next state, the bytes as it left them (a responder may edit
  the bytes in place), and the calls it made meanwhile.
 */
module Responder {
  import opened Texts

  datatype Reaction = Ok | ReadOn | WrongReply | Disconnect | Thrown

  datatype Answer<S, E> =
    Answer(reaction: Reaction, consumed: nat, state: S, window: seq<char>, events: seq<E>)

  type Responding<!S, !E> = (S, seq<char>) -> Answer<S, E>

  /** What is left of a connection after some input: is it still open, the responder's state, the
      unread bytes, and everything dispatched. */
  datatype Outcome<S, E> = Outcome(open: bool, state: S, kept: seq<char>, events: seq<E>)

  /** On `Ok` a responder takes at least one byte and at most all of them; it never changes how many there are. */
  ghost predicate AnswersWell<S, E>(respond: Responding<S, E>, state: S, window: seq<char>) {
    var answer := respond(state, window);
    && |answer.window| == |window|
    && (answer.reaction == Ok ==> 0 < answer.consumed <= |window|)
    && (answer.reaction == ReadOn ==> answer.events == [])
  }

  ghost predicate WellBehaved<S(!new), E>(respond: Responding<S, E>) {
    forall state, window :: window != [] ==> AnswersWell(respond, state, window)
  }

  /** Feeds the unread bytes to the responder until it stops making progress. */
  ghost function Drain<S(!new), E>(respond: Responding<S, E>, state: S, window: seq<char>): (r: Outcome<S, E>)
    requires WellBehaved(respond)
    requires window != []
    decreases |window|
  {
    assert AnswersWell(respond, state, window);
    var answer := respond(state, window);
    match answer.reaction
    case Ok =>
      if answer.consumed == |window| then
        Outcome(true, answer.state, [], answer.events)
      else
        var rest := Drain(respond, answer.state, answer.window[answer.consumed..]);
        rest.(events := answer.events + rest.events)
    case ReadOn => Outcome(true, answer.state, answer.window, [])
    case WrongReply => Outcome(true, answer.state, answer.window, answer.events)
    case Disconnect => Outcome(false, answer.state, [], answer.events)
    case Thrown => Outcome(false, answer.state, [], answer.events)
  }

  /** One more piece of the stream reaches a connection. */
  ghost function Feed<S(!new), E>(respond: Responding<S, E>, before: Outcome<S, E>, piece: seq<char>): Outcome<S, E>
    requires WellBehaved(respond)
  {
    if !before.open || piece == [] then
      before
    else
      var after := Drain(respond, before.state, before.kept + piece);
      after.(events := before.events + after.events)
  }

  /** What a longer look at the same stream must not change: a request that was answered is answered
      the same way whatever follows it, and one that was not is answered as if the first look had
      never happened, although it may have changed the responder's state and the bytes. */
  ghost predicate LooksAgain<S, E>(respond: Responding<S, E>, state: S, window: seq<char>, more: seq<char>) {
    var answer := respond(state, window);
    var longer := respond(state, window + more);
    match answer.reaction
    case Ok => longer == answer.(window := answer.window + more)
    case ReadOn => respond(answer.state, answer.window + more) == longer
    case WrongReply => false
    case Disconnect => longer.reaction == Disconnect && longer.events == answer.events
    case Thrown => longer.reaction == Thrown && longer.events == answer.events
  }

  ghost predicate Incremental<S(!new), E>(respond: Responding<S, E>) {
    && WellBehaved(respond)
    && forall state, window, more :: window != [] && more != [] ==> LooksAgain(respond, state, window, more)
  }

  /** Two outcomes an outsider cannot tell apart: a closed connection has no state worth comparing. */
  ghost predicate SameFate<S, E>(a: Outcome<S, E>, b: Outcome<S, E>) {
    && a.open == b.open
    && a.events == b.events
    && (a.open ==> a == b)
  }

  /** Draining a window and then feeding more is the same as draining both at once. */
  lemma {:induction false} DrainSplits<S(!new), E>(respond: Responding<S, E>, state: S, window: seq<char>,
                                         more: seq<char>)
    requires Incremental(respond)
    requires window != [] && more != []
    ensures SameFate(Feed(respond, Drain(respond, state, window), more), Drain(respond, state, window + more))
    decreases |window|
  {
    assert AnswersWell(respond, state, window) && AnswersWell(respond, state, window + more);
    assert LooksAgain(respond, state, window, more);
    var answer := respond(state, window);
    var first := Drain(respond, state, window);
    if answer.reaction == Ok {
      var left := answer.window[answer.consumed..];
      assert (answer.window + more)[answer.consumed..] == left + more;
      if left == [] {
        assert left + more == more;
      } else {
        DrainSplits(respond, answer.state, left, more);
        var second := Drain(respond, answer.state, left);
        if second.open {
          var third := Drain(respond, second.state, second.kept + more);
          assert answer.events + (second.events + third.events) == answer.events + second.events + third.events;
        }
      }
    } else if answer.reaction == ReadOn {
      assert [] + Drain(respond, answer.state, answer.window + more).events
          == Drain(respond, answer.state, answer.window + more).events;
    }
  }

  ghost function FeedAll<S(!new), E>(respond: Responding<S, E>, initial: S, pieces: seq<seq<char>>): Outcome<S, E>
    requires WellBehaved(respond)
  {
    if pieces == [] then
      Outcome(true, initial, [], [])
    else
      Feed(respond, FeedAll(respond, initial, pieces[..|pieces| - 1]), pieces[|pieces| - 1])
  }

  /** What the whole stream would cause if it arrived at once. */
  ghost function Whole<S(!new), E>(respond: Responding<S, E>, initial: S, stream: seq<char>): Outcome<S, E>
    requires WellBehaved(respond)
  {
    Feed(respond, Outcome(true, initial, [], []), stream)
  }

  lemma {:induction false} OnePieceMore<S(!new), E>(respond: Responding<S, E>, initial: S, stream: seq<char>,
                                          piece: seq<char>)
    requires Incremental(respond)
    ensures SameFate(Feed(respond, Whole(respond, initial, stream), piece), Whole(respond, initial, stream + piece))
  {
    assert [] + stream == stream && [] + (stream + piece) == stream + piece && [] + piece == piece;
    if piece == [] {
      assert stream + piece == stream;
    } else if stream == [] {
      assert stream + piece == piece;
    } else {
      DrainSplits(respond, initial, stream, piece);
      var whole := Drain(respond, initial, stream + piece);
      assert [] + whole.events == whole.events;
      var before := Drain(respond, initial, stream);
      assert [] + before.events == before.events;
    }
  }

  /** Chunking independence, for every responder that looks again faithfully: what is dispatched, and
      what is left of the connection, depends on the byte stream only. */
  lemma {:induction false} PiecesDoNotMatter<S(!new), E>(respond: Responding<S, E>, initial: S, pieces: seq<seq<char>>)
    requires Incremental(respond)
    ensures SameFate(FeedAll(respond, initial, pieces), Whole(respond, initial, Join(pieces)))
  {
    if pieces != [] {
      var before := pieces[..|pieces| - 1];
      PiecesDoNotMatter(respond, initial, before);
      OnePieceMore(respond, initial, Join(before), pieces[|pieces| - 1]);
      assert before + [pieces[|pieces| - 1]] == pieces;
      JoinMore(before, pieces[|pieces| - 1]);
    }
  }

  // Responders that look again faithfully but for what some of their calls show.

  function SeenEvents<E, F>(see: E -> F, events: seq<E>): (r: seq<F>)
    ensures |r| == |events| && forall i :: 0 <= i < |events| ==> r[i] == see(events[i])
  {
    seq(|events|, i requires 0 <= i < |events| => see(events[i]))
  }

  function SeenAnswer<S, E, F>(see: E -> F, answer: Answer<S, E>): Answer<S, F> {
    Answer(answer.reaction, answer.consumed, answer.state, answer.window, SeenEvents(see, answer.events))
  }

  function SeenOutcome<S, E, F>(see: E -> F, outcome: Outcome<S, E>): Outcome<S, F> {
    Outcome(outcome.open, outcome.state, outcome.kept, SeenEvents(see, outcome.events))
  }

  /** `seen` is the same responder; only what its calls show is seen through `see`. */
  ghost predicate SeenThrough<S(!new), E, F>(see: E -> F, respond: Responding<S, E>, seen: Responding<S, F>) {
    forall state, window :: seen(state, window) == SeenAnswer(see, respond(state, window))
  }

  lemma SeenAppend<E, F>(see: E -> F, a: seq<E>, b: seq<E>)
    ensures SeenEvents(see, a + b) == SeenEvents(see, a) + SeenEvents(see, b)
  {
  }

  lemma {:induction false} DrainSeen<S(!new), E, F>(see: E -> F, respond: Responding<S, E>, seen: Responding<S, F>,
                                                    state: S, window: seq<char>)
    requires WellBehaved(respond) && WellBehaved(seen) && SeenThrough(see, respond, seen)
    requires window != []
    ensures Drain(seen, state, window) == SeenOutcome(see, Drain(respond, state, window))
    decreases |window|
  {
    hide SeenEvents;
    assert AnswersWell(respond, state, window) && AnswersWell(seen, state, window);
    var answer := respond(state, window);
    assert seen(state, window) == SeenAnswer(see, answer);
    if answer.reaction == Ok && answer.consumed < |window| {
      var left := answer.window[answer.consumed..];
      DrainSeen(see, respond, seen, answer.state, left);
      SeenAppend(see, answer.events, Drain(respond, answer.state, left).events);
    } else if answer.reaction == ReadOn {
      NothingSeen(see);
    }
  }

  lemma NothingSeen<E, F>(see: E -> F)
    ensures SeenEvents(see, []) == []
  {
  }

  lemma {:induction false} FeedAllSeen<S(!new), E, F>(see: E -> F, respond: Responding<S, E>, seen: Responding<S, F>,
                                                      initial: S, pieces: seq<seq<char>>)
    requires WellBehaved(respond) && WellBehaved(seen) && SeenThrough(see, respond, seen)
    ensures FeedAll(seen, initial, pieces) == SeenOutcome(see, FeedAll(respond, initial, pieces))
  {
    hide WellBehaved, SeenThrough, SeenEvents, Drain;
    if pieces == [] {
      NothingSeen(see);
    } else {
      var front, piece := pieces[..|pieces| - 1], pieces[|pieces| - 1];
      FeedAllSeen(see, respond, seen, initial, front);
      var before := FeedAll(respond, initial, front);
      if before.open && piece != [] {
        DrainSeen(see, respond, seen, before.state, before.kept + piece);
        SeenAppend(see, before.events, Drain(respond, before.state, before.kept + piece).events);
      }
    }
  }

  /** Chunking independence, but for what is not seen. */
  lemma SeenPiecesDoNotMatter<S(!new), E, F>(see: E -> F, respond: Responding<S, E>, seen: Responding<S, F>,
                                             initial: S, pieces: seq<seq<char>>)
    requires WellBehaved(respond) && Incremental(seen) && SeenThrough(see, respond, seen)
    ensures SameFate(SeenOutcome(see, FeedAll(respond, initial, pieces)),
                     SeenOutcome(see, Whole(respond, initial, Join(pieces))))
  {
    hide WellBehaved, SeenThrough, SeenEvents, Drain, Incremental, FeedAll;
    IncrementalBehavesWell(seen);
    PiecesDoNotMatter(seen, initial, pieces);
    FeedAllSeen(see, respond, seen, initial, pieces);
    AtOnce(seen, initial, Join(pieces));
    AtOnce(respond, initial, Join(pieces));
    FeedAllSeen(see, respond, seen, initial, [Join(pieces)]);
  }

  lemma IncrementalBehavesWell<S(!new), E>(respond: Responding<S, E>)
    requires Incremental(respond)
    ensures WellBehaved(respond)
  {
  }

  /** The whole stream is one piece of itself. */
  lemma AtOnce<S(!new), E>(respond: Responding<S, E>, initial: S, stream: seq<char>)
    requires WellBehaved(respond)
    ensures FeedAll(respond, initial, [stream]) == Whole(respond, initial, stream)
    ensures Join([stream]) == stream
  {
    hide WellBehaved, Drain;
    assert [stream][..0] == [];
    assert [stream][1..] == [];
    assert stream + [] == stream;
  }
}
