/**
  The receive buffer of a server connection: unread bytes live in a fixed array, or in a growing
  vector when a message is too long for it. The buffer slides and migrates them while a responder
  eats messages from the front. Its abstract value is one sequence, the window of unread bytes;
  every method is specified by what it does to that sequence.
 */
module TcpServer {
  import opened Responder
  import opened Texts

  const RESPONSE_MAX_SIZE: nat := 2048
  const RESPONSE_BUFFER_SIZE: nat := 3072

  class TcpServerBuffer<S(!new), E> {
    var responseArray: array<char>
    var longLeftovers: seq<char>
    var keptStart: nat
    var keptEnd: nat
    // The span offered to the network: where it starts in the storage in use, and its length.
    var spaceStart: nat
    var spaceLength: nat

    /** Between two receptions: the window is in bounds, the space begins where the window ends, in the
        same storage, stays inside it, and is never empty. The vector is in use exactly as long as the window
        would fill the array. */
    ghost predicate Valid()
      reads this
    {
      && responseArray.Length == 3072
      && keptStart <= keptEnd == spaceStart
      && 0 < spaceLength
      && (longLeftovers == [] <==> keptEnd - keptStart < 3072)
      && if longLeftovers == [] then
           spaceStart + spaceLength <= 3072 && spaceLength <= 2048
         else
           && keptStart == 0 && spaceLength == 3072
           && spaceStart + spaceLength == |longLeftovers|
    }

    /** The unread bytes, wherever they are stored. */
    ghost function Window(): seq<char>
      requires responseArray.Length == RESPONSE_BUFFER_SIZE
      requires keptStart <= keptEnd <= (if longLeftovers == [] then RESPONSE_BUFFER_SIZE else |longLeftovers|)
      reads this, responseArray
    {
      if longLeftovers == [] then responseArray[keptStart..keptEnd] else longLeftovers[keptStart..keptEnd]
    }

    constructor ()
      ensures Valid() && fresh(responseArray)
      ensures Window() == [] && spaceLength == 2048
    {
      responseArray := new char[RESPONSE_BUFFER_SIZE](_ => '\0');
      longLeftovers := [];
      keptStart, keptEnd := 0, 0;
      spaceStart, spaceLength := 0, RESPONSE_MAX_SIZE;
    }

    method Space() returns (length: nat)
      requires Valid()
      ensures length == spaceLength > 0
    {
      length := spaceLength;
    }

    /** The network writes into the space. The window does not include the bytes before `Receive` is told of them. */
    method Fill(data: seq<char>)
      requires Valid() && |data| <= spaceLength
      modifies this`longLeftovers, responseArray
      ensures Valid() && Window() == old(Window())
      ensures longLeftovers == [] <==> old(longLeftovers) == []
      ensures if longLeftovers == [] then responseArray[keptEnd..keptEnd + |data|] == data
              else longLeftovers[keptEnd..keptEnd + |data|] == data
    {
      if longLeftovers == [] {
        forall i | 0 <= i < |data| {
          responseArray[spaceStart + i] := data[i];
        }
      } else {
        longLeftovers := longLeftovers[..spaceStart] + data + longLeftovers[spaceStart + |data|..];
      }
    }

    /** Shows the window to the responder once. */
    method ReadBuffer(respond: Responding<S, E>, session: S)
        returns (reaction: Reaction, next: S, events: seq<E>)
      requires WellBehaved(respond)
      requires responseArray.Length == RESPONSE_BUFFER_SIZE
      requires keptStart < keptEnd <= (if longLeftovers == [] then RESPONSE_BUFFER_SIZE else |longLeftovers|)
      modifies this`longLeftovers, this`keptStart, responseArray
      ensures keptStart <= keptEnd && |longLeftovers| == old(|longLeftovers|)
      ensures var answer := respond(session, old(Window()));
              && reaction == answer.reaction && next == answer.state && events == answer.events
              && keptStart == old(keptStart) + (if reaction == Ok then answer.consumed else 0)
              && |answer.window| == old(|Window()|)
              && Window() == answer.window[if reaction == Ok then answer.consumed else 0..]
    {
      var input := if longLeftovers == [] then responseArray[keptStart..keptEnd] else longLeftovers[keptStart..keptEnd];
      assert AnswersWell(respond, session, input);
      var answer := respond(session, input);
      // The responder edits the bytes where they are.
      if longLeftovers == [] {
        forall i | 0 <= i < |input| {
          responseArray[keptStart + i] := answer.window[i];
        }
        assert responseArray[keptStart..keptEnd] == answer.window;
      } else {
        longLeftovers := longLeftovers[..keptStart] + answer.window + longLeftovers[keptEnd..];
        assert longLeftovers[keptStart..keptEnd] == answer.window;
      }
      reaction, next, events := answer.reaction, answer.state, answer.events;
      if reaction == Ok {
        keptStart := keptStart + answer.consumed;
      }
    }

    /** The loop of `receive`: reads messages until the responder wants more bytes, gives up, or none are left. */
    method ReadMessages(respond: Responding<S, E>, session: S)
        returns (reaction: Reaction, next: S, events: seq<E>)
      requires WellBehaved(respond)
      requires responseArray.Length == RESPONSE_BUFFER_SIZE
      requires keptStart < keptEnd <= (if longLeftovers == [] then RESPONSE_BUFFER_SIZE else |longLeftovers|)
      modifies this`longLeftovers, this`keptStart, responseArray
      ensures keptStart <= keptEnd && |longLeftovers| == old(|longLeftovers|)
      ensures var outcome := Drain(respond, session, old(Window()));
              && events == outcome.events
              && (outcome.open <==> reaction != Disconnect && reaction != Thrown)
              && (outcome.open ==> next == outcome.state && Window() == outcome.kept)
    {
      reaction, next, events := Ok, session, [];
      ghost var first := Window();
      ghost var window := first;
      while true
        invariant keptStart < keptEnd && |longLeftovers| == old(|longLeftovers|)
        invariant window == Window()
        invariant DrainsTo(respond, session, first, events, next, window)
        decreases keptEnd - keptStart
      {
        var called: seq<E>;
        ghost var state := next;
        assert AnswersWell(respond, state, window);
        reaction, next, called := ReadBuffer(respond, next);
        DrainStep(respond, session, first, events, state, window);
        events := events + called;
        window := Window();
        if reaction != Ok || keptStart >= keptEnd {
          break;
        }
      }
    }

    /** `length` bytes have arrived in the space (none, or an error, ends the connection). Everything the
        responder can answer is answered, and what it could not is kept for the next reception. */
    method Receive(respond: Responding<S, E>, session: S, error: bool, length: nat, ghost data: seq<char>)
        returns (expectingMore: bool, next: S, events: seq<E>)
      requires WellBehaved(respond)
      requires Valid() && length == |data| <= spaceLength
      requires if longLeftovers == [] then responseArray[keptEnd..keptEnd + length] == data
               else longLeftovers[keptEnd..keptEnd + length] == data
      modifies this, responseArray
      ensures responseArray == old(responseArray)
      ensures error || length == 0 ==> !expectingMore && events == []
      ensures !error && length > 0 ==>
                var outcome := Drain(respond, session, old(Window()) + data);
                && expectingMore == outcome.open
                && events == outcome.events
                && (expectingMore ==> Valid() && next == outcome.state && Window() == outcome.kept)
    {
      hide WellBehaved, Drain;
      next, events := session, [];
      if error || length == 0 {
        return false, next, events;
      }
      ghost var before := Window();
      keptEnd := keptEnd + length;
      if longLeftovers != [] {
        longLeftovers := longLeftovers[..keptEnd];
      }
      assert Window() == before + data;

      var reaction;
      var previousReadStart := keptStart;
      reaction, next, events := ReadMessages(respond, session);
      if reaction == Disconnect || reaction == Thrown {
        return false, next, events;
      }
      ghost var kept := Window();

      if longLeftovers != [] && previousReadStart != keptStart {
        var left := |longLeftovers| - keptStart;
        if left > RESPONSE_BUFFER_SIZE {
          longLeftovers := longLeftovers[keptStart..];
        } else {
          forall i | 0 <= i < left {
            responseArray[i] := longLeftovers[keptStart + i];
          }
          longLeftovers := [];
        }
        keptEnd := left;
        keptStart := 0;
      }
      assert Window() == kept;
      MakeSpace();
      expectingMore := true;
    }

    /** A piece of the stream arrives in the space. */
    method Take(respond: Responding<S, E>, session: S, piece: seq<char>)
        returns (expectingMore: bool, next: S, events: seq<E>)
      requires WellBehaved(respond)
      requires Valid() && 0 < |piece| <= spaceLength
      modifies this, responseArray
      ensures responseArray == old(responseArray)
      ensures var outcome := Drain(respond, session, old(Window()) + piece);
              && expectingMore == outcome.open
              && events == outcome.events
              && (expectingMore ==> Valid() && next == outcome.state && Window() == outcome.kept)
    {
      hide WellBehaved, Drain;
      Fill(piece);
      expectingMore, next, events := Receive(respond, session, false, |piece|, piece);
    }

    /** The end of `receive`: finds room for the next reception without losing a kept byte. */
    method MakeSpace()
      requires responseArray.Length == RESPONSE_BUFFER_SIZE
      requires if longLeftovers == [] then keptStart <= keptEnd <= RESPONSE_BUFFER_SIZE
               else keptStart == 0 && RESPONSE_BUFFER_SIZE <= keptEnd == |longLeftovers|
      modifies this, responseArray
      ensures responseArray == old(responseArray)
      ensures Valid() && Window() == old(Window())
      ensures longLeftovers == [] ==>
                var room := if Window() == [] then 3072 else Max(old(keptStart), 3072 - old(keptEnd));
                spaceLength == Min(2048, room)
    {
      ghost var kept := Window();
      if longLeftovers != [] {
        keptEnd := |longLeftovers|;
        longLeftovers := longLeftovers + seq(RESPONSE_BUFFER_SIZE, _ => '\0');
        spaceStart, spaceLength := keptEnd, |longLeftovers| - keptEnd;
        assert longLeftovers[keptStart..keptEnd] == kept;
      } else if keptStart == 0 && keptEnd == RESPONSE_BUFFER_SIZE {
        longLeftovers := responseArray[..] + seq(RESPONSE_BUFFER_SIZE, _ => '\0');
        spaceStart, spaceLength := keptEnd, |longLeftovers| - keptEnd;
        assert longLeftovers[keptStart..keptEnd] == kept;
      } else if keptStart == keptEnd {
        keptStart, keptEnd := 0, 0;
        spaceStart, spaceLength := 0, RESPONSE_MAX_SIZE;
      } else if keptStart > RESPONSE_BUFFER_SIZE - keptEnd {
        var copySize := keptEnd - keptStart;
        forall i | 0 <= i < copySize {
          responseArray[i] := responseArray[keptStart + i];
        }
        spaceStart, spaceLength := copySize, Min(keptStart, RESPONSE_MAX_SIZE);
        keptStart, keptEnd := 0, copySize;
        assert responseArray[keptStart..keptEnd] == kept;
      } else {
        spaceStart, spaceLength := keptEnd, Min(RESPONSE_BUFFER_SIZE - keptEnd, RESPONSE_MAX_SIZE);
      }
    }
  }

  /** The part of a drain that is still ahead: `done` was dispatched, and the rest is what draining `window` gives. */
  ghost predicate DrainsTo<S(!new), E>(respond: Responding<S, E>, session: S, first: seq<char>,
                                       done: seq<E>, state: S, window: seq<char>)
    requires WellBehaved(respond)
    requires first != [] && window != []
  {
    var rest := Drain(respond, state, window);
    Drain(respond, session, first) == rest.(events := done + rest.events)
  }

  /** One answer moves a drain forward, or ends it. */
  lemma DrainStep<S(!new), E>(respond: Responding<S, E>, session: S, first: seq<char>,
                              done: seq<E>, state: S, window: seq<char>)
    requires WellBehaved(respond)
    requires first != [] && window != []
    requires DrainsTo(respond, session, first, done, state, window)
    ensures AnswersWell(respond, state, window)
    ensures var answer := respond(state, window);
            var whole := Drain(respond, session, first);
            var done' := done + answer.events;
            if answer.reaction == Ok && answer.consumed < |window| then
              DrainsTo(respond, session, first, done', answer.state, answer.window[answer.consumed..])
            else
              && whole.events == done'
              && whole.open == (answer.reaction != Disconnect && answer.reaction != Thrown)
              && (whole.open ==> whole.state == answer.state
                                 && whole.kept == answer.window[if answer.reaction == Ok then answer.consumed else 0..])
  {
    assert AnswersWell(respond, state, window);
    var answer := respond(state, window);
    if answer.reaction == Ok && answer.consumed < |window| {
      var rest := Drain(respond, answer.state, answer.window[answer.consumed..]);
      assert done + (answer.events + rest.events) == done + answer.events + rest.events;
    }
  }

  /** A connection: the network delivers the stream in pieces of its own choosing, each as much as the
      offered space lets in, until it ends or the responder closes. Through every move of the buffer, the
      responder is fed these pieces; and for one that looks again faithfully they do not matter. */
  method ServeConnection<S(!new), E>(respond: Responding<S, E>, initial: S, stream: seq<char>)
      returns (open: bool, session: S, events: seq<E>, ghost pieces: seq<seq<char>>)
    requires WellBehaved(respond)
    ensures Join(pieces) == stream
    ensures var outcome := FeedAll(respond, initial, pieces);
            && open == outcome.open
            && events == outcome.events
            && (open ==> session == outcome.state)
    ensures Incremental(respond) ==>
              var whole := Whole(respond, initial, stream);
              && open == whole.open
              && events == whole.events
              && (open ==> session == whole.state)
  {
    hide WellBehaved, Incremental, Drain, FeedAll;
    var buffer := new TcpServerBuffer<S, E>();
    open, session, events := true, initial, [];
    pieces := [];
    NothingFed(respond, initial);
    var arrived := 0;
    while open && arrived < |stream|
      invariant fresh(buffer) && fresh(buffer.responseArray)
      invariant arrived <= |stream| && Join(pieces) == stream[..arrived]
      invariant open ==> buffer.Valid()
      invariant open ==> FeedAll(respond, initial, pieces) == Outcome(true, session, buffer.Window(), events)
      invariant !open ==> !FeedAll(respond, initial, pieces).open && FeedAll(respond, initial, pieces).events == events
      decreases |stream| - arrived
    {
      var room := buffer.Space();
      var length: nat :| 0 < length <= room && length <= |stream| - arrived;
      var piece := stream[arrived..arrived + length];
      assert stream[..arrived] + piece == stream[..arrived + length];
      JoinMore(pieces, piece);
      FeedOneMore(respond, initial, pieces, piece);
      var called;
      open, session, called := buffer.Take(respond, session, piece);
      events := events + called;
      arrived := arrived + length;
      pieces := pieces + [piece];
    }
    ghost var rest := stream[arrived..];
    assert stream[..arrived] + rest == stream;
    JoinMore(pieces, rest);
    FeedOneMore(respond, initial, pieces, rest);
    pieces := pieces + [rest];
    if Incremental(respond) {
      PiecesDoNotMatter(respond, initial, pieces);
    }
  }

  lemma NothingFed<S(!new), E>(respond: Responding<S, E>, initial: S)
    requires WellBehaved(respond)
    ensures FeedAll(respond, initial, []) == Outcome(true, initial, [], [])
  {
  }

  lemma FeedOneMore<S(!new), E>(respond: Responding<S, E>, initial: S, pieces: seq<seq<char>>, piece: seq<char>)
    requires WellBehaved(respond)
    ensures FeedAll(respond, initial, pieces + [piece]) == Feed(respond, FeedAll(respond, initial, pieces), piece)
  {
    hide WellBehaved, Drain;
    assert (pieces + [piece])[..|pieces|] == pieces;
  }

  /** Once a responder has closed, the rest of the stream changes nothing. */
  lemma {:induction false} ClosedStaysClosed<S(!new), E>(respond: Responding<S, E>, initial: S,
                                                         pieces: seq<seq<char>>, more: seq<seq<char>>)
    requires WellBehaved(respond)
    requires !FeedAll(respond, initial, pieces).open
    ensures FeedAll(respond, initial, pieces + more) == FeedAll(respond, initial, pieces)
  {
    hide WellBehaved, Drain, FeedAll;
    if more == [] {
      assert pieces + more == pieces;
    } else {
      var front, piece := more[..|more| - 1], more[|more| - 1];
      ClosedStaysClosed(respond, initial, pieces, front);
      FeedOneMore(respond, initial, pieces + front, piece);
      assert pieces + more == pieces + front + [piece];
    }
  }
}
