/**
  A connection whose stream is a row of frames, for a responder that answers each complete frame and waits for
  the rest of one that is cut off. Only frames matter here: nothing is asked of the responder on other input.
 */
module FramedConnection {
  import opened Responder
  import opened Texts
  import TcpServer

  /** A frame is answered with these events, whatever follows it, and a part of it is not answered. */
  ghost predicate Serves<S(!new), E>(respond: Responding<S, E>, state: S, frame: string, events: seq<E>) {
    && frame != []
    && (forall more: string :: respond(state, frame + more) == Answer(Ok, |frame|, state, frame + more, events))
    && (forall n :: 0 < n < |frame| ==> respond(state, frame[..n]) == Answer(ReadOn, 0, state, frame[..n], []))
  }

  ghost predicate ServesAll<S(!new), E>(respond: Responding<S, E>, state: S, frames: seq<string>, events: seq<seq<E>>) {
    |events| == |frames| && forall i :: 0 <= i < |frames| ==> Serves(respond, state, frames[i], events[i])
  }

  function Flat<E>(events: seq<seq<E>>): seq<E> {
    if events == [] then [] else events[0] + Flat(events[1..])
  }

  lemma {:induction false} FlatSplits<E>(a: seq<seq<E>>, b: seq<seq<E>>)
    ensures Flat(a + b) == Flat(a) + Flat(b)
  {
    if a == [] {
      assert a + b == b;
    } else {
      FlatSplits(a[1..], b);
      assert (a + b)[0] == a[0] && (a + b)[1..] == a[1..] + b;
      assert a[0] + (Flat(a[1..]) + Flat(b)) == a[0] + Flat(a[1..]) + Flat(b);
    }
  }

  /** How far a drain gets: `k` frames were complete, and less than the next one is left. */
  ghost predicate GotThrough<S, E>(outcome: Outcome<S, E>, state: S, frames: seq<string>, events: seq<seq<E>>,
      window: string, k: nat)
    requires |events| == |frames|
  {
    && k <= |frames|
    && outcome.open && outcome.state == state
    && outcome.events == Flat(events[..k])
    && Join(frames[..k]) + outcome.kept == window
    && (if k == |frames| then outcome.kept == [] else |outcome.kept| < |frames[k]|)
  }

  lemma {:induction false} DrainGetsThrough<S(!new), E>(respond: Responding<S, E>, state: S, frames: seq<string>,
      events: seq<seq<E>>,
                                                       window: string, rest: string) returns (k: nat)
    requires WellBehaved(respond) && ServesAll(respond, state, frames, events)
    requires window != [] && window + rest == Join(frames)
    ensures GotThrough(Drain(respond, state, window), state, frames, events, window, k)
    decreases |frames|
  {
    hide WellBehaved, Serves, Drain, GotThrough;
    assert Serves(respond, state, frames[0], events[0]);
    var frame, later := frames[0], frames[1..];
    if |window| < |frame| {
      k := 0;
      WaitsGetsThrough(respond, state, frames, events, window, rest);
    } else {
      var more := window[|frame|..];
      FrontIsFrame(frame, Join(later), window, rest);
      OneMoreFrame(respond, state, frame, events[0], more);
      if more == [] {
        k := 1;
        EndsAtAFrame(respond, state, later, events[1..]);
        OneFrameGetsThrough(respond, state, frames, events, window);
      } else {
        k := DrainGetsThrough(respond, state, later, events[1..], more, rest);
        ThroughOneMore(Drain(respond, state, more), state, frames, events, more, k);
        k := k + 1;
      }
    }
  }

  lemma FrontIsFrame(frame: string, later: string, window: string, rest: string)
    requires window + rest == frame + later && |window| >= |frame|
    ensures window == frame + window[|frame|..] && window[|frame|..] + rest == later
  {
    assert frame == (frame + later)[..|frame|] == (window + rest)[..|frame|] == window[..|frame|];
    assert later == (frame + later)[|frame|..] == (window + rest)[|frame|..] == window[|frame|..] + rest;
  }

  lemma WaitsGetsThrough<S(!new), E>(respond: Responding<S, E>, state: S, frames: seq<string>, events: seq<seq<E>>,
      window: string, rest: string)
    requires WellBehaved(respond) && |events| == |frames| > 0
    requires Serves(respond, state, frames[0], events[0])
    requires window + rest == Join(frames) && 0 < |window| < |frames[0]|
    ensures GotThrough(Drain(respond, state, window), state, frames, events, window, 0)
  {
    hide WellBehaved, Serves, Drain;
    assert window == (window + rest)[..|window|] == Join(frames)[..|window|] == frames[0][..|window|];
    WaitsForMore(respond, state, frames[0], events[0], |window|);
    assert [] + window == window;
  }

  lemma OneFrameGetsThrough<S(!new), E>(respond: Responding<S, E>, state: S, frames: seq<string>,
      events: seq<seq<E>>, window: string)
    requires WellBehaved(respond) && |events| == |frames| > 0
    requires window == frames[0] && (|frames| > 1 ==> |frames[1]| > 0)
    requires window != [] && Drain(respond, state, window) == Outcome(true, state, [], events[0])
    ensures GotThrough(Drain(respond, state, window), state, frames, events, window, 1)
  {
    hide WellBehaved, Drain;
    assert frames[..1] == [window] && events[..1] == [events[0]];
    assert Flat([events[0]]) == events[0] + [] == events[0];
    assert Join([window]) + [] == window;
  }

  /** A frame in front of what a drain got through. */
  lemma ThroughOneMore<S, E>(tail: Outcome<S, E>, state: S, frames: seq<string>, events: seq<seq<E>>, more: string,
                             k: nat)
    requires |events| == |frames| > 0
    requires GotThrough(tail, state, frames[1..], events[1..], more, k)
    ensures GotThrough(tail.(events := events[0] + tail.events), state, frames, events, frames[0] + more, k + 1)
  {
    assert frames[..k + 1][0] == frames[0] && frames[..k + 1][1..] == frames[1..][..k];
    assert events[..k + 1][0] == events[0] && events[..k + 1][1..] == events[1..][..k];
    assert frames[0] + (Join(frames[1..][..k]) + tail.kept) == frames[0] + Join(frames[1..][..k]) + tail.kept;
  }

  lemma EndsAtAFrame<S(!new), E>(respond: Responding<S, E>, state: S, later: seq<string>, events: seq<seq<E>>)
    requires ServesAll(respond, state, later, events)
    ensures later == [] || |later[0]| > 0
  {
    if later != [] { assert Serves(respond, state, later[0], events[0]); }
  }

  lemma WaitsForMore<S(!new), E>(respond: Responding<S, E>, state: S, frame: string, events: seq<E>, n: nat)
    requires WellBehaved(respond) && Serves(respond, state, frame, events) && 0 < n < |frame|
    ensures Drain(respond, state, frame[..n]) == Outcome(true, state, frame[..n], [])
  {
    assert AnswersWell(respond, state, frame[..n]);
  }

  lemma OneMoreFrame<S(!new), E>(respond: Responding<S, E>, state: S, frame: string, events: seq<E>, more: string)
    requires WellBehaved(respond) && Serves(respond, state, frame, events)
    ensures Drain(respond, state, frame + more) ==
            if more == [] then Outcome(true, state, [], events)
            else var tail := Drain(respond, state, more); tail.(events := events + tail.events)
  {
    assert AnswersWell(respond, state, frame + more);
    assert (frame + more)[|frame|..] == more;
  }

  lemma Cancels(front: string, a: string, b: string)
    ensures front + a == front + b ==> a == b
  {
    assert (front + a)[|front|..] == a && (front + b)[|front|..] == b;
  }

  /** What is left behind the frames that a connection got through. */
  lemma FramesAhead<S(!new), E>(respond: Responding<S, E>, before: Outcome<S, E>, state: S, frames: seq<string>,
                                events: seq<seq<E>>, window: string, more: string, k: nat)
    requires ServesAll(respond, state, frames, events)
    requires GotThrough(before, state, frames, events, window, k) && window + more == Join(frames)
    ensures k <= |frames| && ServesAll(respond, state, frames[k..], events[k..])
    ensures before.kept + more == Join(frames[k..])
  {
    hide Serves, Join;
    assert frames == frames[..k] + frames[k..];
    JoinSplits(frames[..k], frames[k..]);
    var front := Join(frames[..k]);
    assert front + (before.kept + more) == window + more;
    Cancels(front, before.kept + more, Join(frames[k..]));
    assert forall i :: 0 <= i < |frames[k..]| ==> frames[k..][i] == frames[k + i] && events[k..][i] == events[k + i];
  }

  /** Getting through some frames, and then through some more. */
  lemma ThroughBoth<S, E>(before: Outcome<S, E>, after: Outcome<S, E>, state: S, frames: seq<string>,
                          events: seq<seq<E>>, window: string, piece: string, k: nat, j: nat)
    requires |events| == |frames| && GotThrough(before, state, frames, events, window, k)
    requires GotThrough(after, state, frames[k..], events[k..], before.kept + piece, j)
    ensures GotThrough(after.(events := before.events + after.events), state, frames, events, window + piece, k + j)
  {
    hide Join, Flat;
    var later, ahead := frames[k..], events[k..];
    assert events[..k + j] == events[..k] + ahead[..j] && frames[..k + j] == frames[..k] + later[..j];
    FlatSplits(events[..k], ahead[..j]);
    JoinSplits(frames[..k], later[..j]);
    var a, b := Join(frames[..k]), Join(later[..j]);
    assert a + b + after.kept == a + (b + after.kept) == a + before.kept + piece;
  }

  /** Whatever the pieces, a connection over frames is always as far as its bytes go. */
  lemma {:induction false} PiecesGetThrough<S(!new), E>(respond: Responding<S, E>, state: S, frames: seq<string>,
                                                        events: seq<seq<E>>, pieces: seq<string>, rest: string)
      returns (k: nat)
    requires WellBehaved(respond) && ServesAll(respond, state, frames, events)
    requires Join(pieces) + rest == Join(frames)
    ensures GotThrough(FeedAll(respond, state, pieces), state, frames, events, Join(pieces), k)
    decreases |pieces|
  {
    hide WellBehaved, Serves, Drain;
    if pieces == [] {
      k := 0;
      EndsAtAFrame(respond, state, frames, events);
      assert [] + [] == Join([]) == Join(frames[..0]);
    } else {
      var front, piece := pieces[..|pieces| - 1], pieces[|pieces| - 1];
      assert pieces == front + [piece];
      JoinMore(front, piece);
      JoinedThree(Join(front), piece, rest);
      k := PiecesGetThrough(respond, state, frames, events, front, piece + rest);
      var before := FeedAll(respond, state, front);
      if piece == [] {
        assert Join(front) + piece == Join(front);
      } else {
        FramesAhead(respond, before, state, frames, events, Join(front), piece + rest, k);
        JoinedThree(before.kept, piece, rest);
        var j := DrainGetsThrough(respond, state, frames[k..], events[k..], before.kept + piece, rest);
        ThroughBoth(before, Drain(respond, state, before.kept + piece), state, frames, events, Join(front),
            piece, k, j);
        k := k + j;
      }
    }
  }

  /** At the end of the stream no frame is missing. */
  lemma AllThrough<S(!new), E>(respond: Responding<S, E>, outcome: Outcome<S, E>, state: S, frames: seq<string>,
                               events: seq<seq<E>>, k: nat)
    requires ServesAll(respond, state, frames, events)
    requires GotThrough(outcome, state, frames, events, Join(frames), k)
    ensures outcome.open && outcome.state == state && outcome.kept == [] && outcome.events == Flat(events)
  {
    hide Serves, Flat;
    assert Join(frames) + [] == Join(frames);
    FramesAhead(respond, outcome, state, frames, events, Join(frames), [], k);
    assert outcome.kept + [] == outcome.kept;
    if k == |frames| {
      assert events[..k] == events;
    }
  }

  /** A connection over frames: however the network cuts the stream, every frame is answered once, in order. */
  method ServeFrames<S(!new), E>(respond: Responding<S, E>, state: S, stream: string, ghost frames: seq<string>,
      ghost replies: seq<seq<E>>)
      returns (open: bool, events: seq<E>)
    requires WellBehaved(respond) && |replies| == |frames| && ServesAll(respond, state, frames, replies)
    requires stream == Join(frames)
    ensures open && events == Flat(replies)
  {
    hide Serves, GotThrough, Join, ServesAll, WellBehaved, Flat, FeedAll, Incremental, Whole;
    var session;
    ghost var pieces;
    open, session, events, pieces := TcpServer.ServeConnection(respond, state, stream);
    assert Join(pieces) + [] == Join(pieces);
    ghost var k := PiecesGetThrough(respond, state, frames, replies, pieces, []);
    AllThrough(respond, FeedAll(respond, state, pieces), state, frames, replies, k);
  }
}
