/**
  Runs of the waiting client: whatever the order of the responses, the pieces they come in, and the calls
  made, every complete response is kept for its own call or was given to it, and to no other.
 */
module Correlation {
  import opened LittleEndian
  import opened Frames
  import opened Texts
  import opened SyncClient

  datatype Call = Call(token: nat, pieces: seq<string>)

  /** A call was given these bytes to read. */
  datatype Talk = Talk(token: nat, view: string)

  /** A client, all the bytes it has received, and everything its calls were given. */
  datatype History = History(client: Client, received: string, log: seq<Talk>)

  function Talks(token: nat, views: seq<string>): (talks: seq<Talk>)
    ensures |talks| == |views| && forall i :: 0 <= i < |views| ==> talks[i] == Talk(token, views[i])
  {
    seq(|views|, i requires 0 <= i < |views| => Talk(token, views[i]))
  }

  function After(history: History, call: Call): History {
    var o := Search(history.client, call.pieces, call.token);
    History(o.client, history.received + Join(call.pieces[..o.used]), history.log + Talks(call.token, o.heard))
  }

  function Run(calls: seq<Call>): History {
    if calls == [] then History(Client(map[], []), [], [])
    else After(Run(calls[..|calls| - 1]), calls[|calls| - 1])
  }

  /** Every response has an id of its own. */
  predicate Distinct(frames: seq<Frame>) {
    forall i, j :: 0 <= i < j < |frames| ==> Token(frames[i]) != Token(frames[j])
  }

  predicate Mentions(frames: seq<Frame>, token: nat)
  {
    exists i :: 0 <= i < |frames| && Token(frames[i]) == token
  }

  /** A talk that handed out this frame, perhaps with later bytes behind it. */
  predicate Hands(talk: Talk, frame: Frame)
  {
    && talk.token == Token(frame)
    && HasFrame(talk.view)
    && First(talk.view) == frame
  }

  predicate KeptOrGiven(frame: Frame, responses: Responses, log: seq<Talk>)
  {
    || (Token(frame) in responses && responses[Token(frame)] == frame)
    || exists i :: 0 <= i < |log| && Hands(log[i], frame)
  }

  predicate GivenRightly(talk: Talk, frames: seq<Frame>) {
    && HasFrame(talk.view)
    && talk.token == Token(talk.view)
    && First(talk.view) in frames
  }

  /** What holds after every run. */
  predicate Correlated(history: History) {
    var frames := Complete(history.received);
    && history.client.leftovers == Rest(history.received)
    && history.received == Join(frames) + history.client.leftovers
    && StoredFrames(history.client.responses)
    && (forall token <- history.client.responses :: history.client.responses[token] in frames)
    && (forall f <- frames :: KeptOrGiven(f, history.client.responses, history.log))
    && (forall i :: 0 <= i < |history.log| ==> GivenRightly(history.log[i], frames))
  }

  /** Storing keeps what was there, and adds every frame for another call. */
  lemma {:induction false} StoringAdds(responses: Responses, frames: seq<Frame>, sought: nat)
    requires Distinct(frames)
    requires forall f <- frames :: Token(f) !in responses
    ensures var stored := Stored(responses, frames, sought);
            && (forall token <- responses :: token in stored && stored[token] == responses[token])
            && (forall f <- frames :: Token(f) != sought ==> Token(f) in stored && stored[Token(f)] == f)
            && (forall token <- stored :: token !in responses ==>
                  token != sought && stored[token] in frames && Token(stored[token]) == token)
    decreases |frames|
  {
    if frames != [] {
      var f, rest := frames[0], frames[1..];
      var next := if Token(f) == sought then responses else responses[Token(f) := f];
      forall g | g in rest ensures Token(g) !in next {
        var i :| 0 <= i < |rest| && rest[i] == g;
        assert frames[i + 1] == g;
      }
      StoringAdds(next, rest, sought);
    }
  }

  /** What is heard are the frames with the id sought. */
  lemma {:induction false} HearingIsRight(data: string, sought: nat)
    ensures forall v <- Heard(data, sought) :: GivenRightly(Talk(sought, v), Complete(data))
    ensures forall f <- Complete(data) :: (Token(f) == sought ==>
            exists v <- Heard(data, sought) :: Hands(Talk(sought, v), f))
    decreases |data|
  {
    if HasFrame(data) {
      var f, tail := First(data), data[SizeField(data)..];
      HearingIsRight(tail, sought);
      assert f[..4] == data[..4] && f[4..6] == data[4..6];
      if Token(data) == sought { assert Hands(Talk(sought, data), f) && data in Heard(data, sought); }
      forall v | v in Heard(tail, sought) ensures v in Heard(data, sought) {}
    }
  }

  lemma {:induction false} HeardMeansMentioned(data: string, sought: nat)
    ensures Heard(data, sought) != [] <==> Mentions(Complete(data), sought)
  {
    HearingIsRight(data, sought);
    var frames := Complete(data);
    if Heard(data, sought) != [] {
      var v := Heard(data, sought)[0];
      assert v in Heard(data, sought) && GivenRightly(Talk(sought, v), frames);
      var f := First(v);
      assert f[..4] == v[..4];
      var i :| 0 <= i < |frames| && frames[i] == f;
      assert Token(frames[i]) == sought;
    }
    if Mentions(frames, sought) {
      var i :| 0 <= i < |frames| && Token(frames[i]) == sought;
      assert frames[i] in frames;
    }
  }

  lemma DistinctParts(frames: seq<Frame>, more: seq<Frame>)
    requires Distinct(frames + more)
    ensures Distinct(frames) && Distinct(more)
    ensures forall f, g :: f in frames && g in more ==> Token(f) != Token(g)
  {
    var all := frames + more;
    assert forall i :: 0 <= i < |frames| ==> all[i] == frames[i];
    assert forall i :: 0 <= i < |more| ==> all[|frames| + i] == more[i];
    forall f, g | f in frames && g in more ensures Token(f) != Token(g) {
      var i :| 0 <= i < |frames| && frames[i] == f;
      var j :| 0 <= j < |more| && more[j] == g;
      assert all[i] == f && all[|frames| + j] == g;
    }
  }

  /** One more piece. */
  lemma PieceKeeps(history: History, piece: string, sought: nat)
    requires Correlated(history)
    requires Distinct(Complete(history.received + piece))
    ensures var data := history.client.leftovers + piece;
            && var next := Client(Stored(history.client.responses, Complete(data), sought), Rest(data));
               Correlated(History(next, history.received + piece, history.log + Talks(sought, Heard(data, sought))))
  {
    hide SizeField, Token, Complete, Rest, Join, Heard, Stored, HasFrame, Hands, GivenRightly, Distinct, StoredFrames;
    var old_, data := Complete(history.received), history.client.leftovers + piece;
    var new_ := Complete(data);
    MoreBytes(history.received, piece);
    FramesAndRest(history.received + piece);
    DistinctParts(old_, new_);
    var responses, heard := history.client.responses, Heard(data, sought);
    NoneStored(responses, old_, new_);
    StoringAdds(responses, new_, sought);
    HearingIsRight(data, sought);
    StoredStays(responses, new_, sought);
    var next := Stored(responses, new_, sought);
    var talks := Talks(sought, heard);
    var log := history.log + talks;
    forall f | f in old_ + new_ ensures KeptOrGiven(f, next, log) {
      if f in old_ {
        KeptLonger(f, responses, next, history.log, log);
      } else if Token(f) == sought {
        GivenNow(f, sought, heard, next, history.log);
      }
    }
    forall i | 0 <= i < |log| ensures GivenRightly(log[i], old_ + new_) {
      RightlyLonger(if i < |history.log| then history.log[i] else talks[i - |history.log|],
                    if i < |history.log| then old_ else new_, old_ + new_);
    }
  }

  lemma NoneStored(responses: Responses, frames: seq<Frame>, more: seq<Frame>)
    requires StoredFrames(responses)
    requires forall token <- responses :: responses[token] in frames
    requires Distinct(frames) && Distinct(more)
    requires forall f, g :: f in frames && g in more ==> Token(f) != Token(g)
    ensures forall g <- more :: Token(g) !in responses
  {
  }

  lemma StoredStays(responses: Responses, frames: seq<Frame>, sought: nat)
    requires StoredFrames(responses)
    requires Distinct(frames)
    requires forall f <- frames :: Token(f) !in responses
    ensures StoredFrames(Stored(responses, frames, sought))
  {
    StoringAdds(responses, frames, sought);
  }

  lemma KeptLonger(frame: Frame, responses: Responses, next: Responses, log: seq<Talk>, more: seq<Talk>)
    requires KeptOrGiven(frame, responses, log)
    requires forall token <- responses :: token in next && next[token] == responses[token]
    requires log <= more
    ensures KeptOrGiven(frame, next, more)
  {
    hide Hands;
    if i :| 0 <= i < |log| && Hands(log[i], frame) {
      assert more[i] == log[i];
    }
  }

  lemma GivenNow(frame: Frame, sought: nat, heard: seq<string>, responses: Responses, log: seq<Talk>)
    requires exists v <- heard :: Hands(Talk(sought, v), frame)
    ensures KeptOrGiven(frame, responses, log + Talks(sought, heard))
  {
    hide Hands;
    var v :| v in heard && Hands(Talk(sought, v), frame);
    var i :| 0 <= i < |heard| && heard[i] == v;
    assert (log + Talks(sought, heard))[|log| + i] == Talk(sought, v);
  }

  lemma RightlyLonger(talk: Talk, frames: seq<Frame>, more: seq<Frame>)
    requires GivenRightly(talk, frames)
    requires forall f <- frames :: f in more
    ensures GivenRightly(talk, more)
  {
  }

  lemma {:induction false} ListeningKeeps(history: History, pieces: seq<string>, sought: nat)
    requires Correlated(history)
    requires var o := Listen(history.client, pieces, sought);
             Distinct(Complete(history.received + Join(pieces[..o.used])))
    ensures var o := Listen(history.client, pieces, sought);
            Correlated(History(o.client, history.received + Join(pieces[..o.used]),
                               history.log + Talks(sought, o.heard)))
    decreases |pieces|
  {
    hide Complete, Rest, Heard, Stored, Correlated, Distinct;
    var o := Listen(history.client, pieces, sought);
    if pieces == [] {
      assert history.received + [] == history.received && history.log + Talks(sought, []) == history.log;
    } else {
      var data, tail := history.client.leftovers + pieces[0], pieces[1..];
      var next := Client(Stored(history.client.responses, Complete(data), sought), Rest(data));
      var now := history.received + pieces[0];
      assert pieces[..o.used][0] == pieces[0] && pieces[..o.used][1..] == tail[..o.used - 1];
      assert history.received + (pieces[0] + Join(tail[..o.used - 1])) == now + Join(tail[..o.used - 1]);
      EarlierIsDistinct(now, Join(tail[..o.used - 1]));
      PieceKeeps(history, pieces[0], sought);
      if Heard(data, sought) != [] || Rest(data) != [] {
        assert now + Join([]) == now;
      } else {
        var later := History(next, now, history.log);
        assert history.log + Talks(sought, []) == history.log;
        ListeningKeeps(later, tail, sought);
      }
    }
  }

  lemma EarlierIsDistinct(data: string, more: string)
    requires Distinct(Complete(data + more))
    ensures Distinct(Complete(data))
  {
    MoreBytes(data, more);
    DistinctParts(Complete(data), Complete(Rest(data) + more));
  }

  /** A stored response is read again each time it is asked for. */
  lemma AskingAgainKeeps(history: History, sought: nat)
    requires Correlated(history) && sought in history.client.responses
    ensures Correlated(history.(log := history.log + Talks(sought, [history.client.responses[sought]])))
  {
    hide Complete, Rest, Join, GivenRightly, Unsigned;
    var response: Frame := history.client.responses[sought];
    var log := history.log + Talks(sought, [response]);
    AFrameIsItsFirst(response);
    var frames := Complete(history.received);
    assert GivenRightly(Talk(sought, response), frames) by { AFrameIsGivenRightly(response, frames); }
    forall f: Frame | f in frames ensures KeptOrGiven(f, history.client.responses, log) {
      KeptLonger(f, history.client.responses, history.client.responses, history.log, log);
    }
  }

  lemma AFrameIsItsFirst(frame: Frame)
    ensures HasFrame(frame) && First(frame) == frame
  {
    assert frame[..|frame|] == frame;
  }

  lemma AFrameIsGivenRightly(frame: Frame, frames: seq<Frame>)
    requires frame in frames
    ensures GivenRightly(Talk(Token(frame), frame), frames)
  {
    AFrameIsItsFirst(frame);
  }

  lemma CallKeeps(history: History, call: Call)
    requires Correlated(history)
    requires Distinct(Complete(After(history, call).received))
    ensures Correlated(After(history, call))
  {
    hide Complete, Correlated, Distinct, Listen;
    if call.token in history.client.responses {
      assert history.received + Join(call.pieces[..0]) == history.received;
      AskingAgainKeeps(history, call.token);
    } else {
      ListeningKeeps(history, call.pieces, call.token);
    }
  }

  lemma ReceivedGrows(history: History, call: Call)
    requires Distinct(Complete(After(history, call).received))
    ensures Distinct(Complete(history.received))
  {
    var o := Search(history.client, call.pieces, call.token);
    EarlierIsDistinct(history.received, Join(call.pieces[..o.used]));
  }

  /** The theorem: in every run over responses with ids of their own. */
  lemma {:induction false} RunsAreCorrelated(calls: seq<Call>)
    requires Distinct(Complete(Run(calls).received))
    ensures Correlated(Run(calls))
    decreases |calls|
  {
    hide After, Distinct;
    if calls == [] {
      assert Rest([]) == [] && Complete([]) == [];
    } else {
      hide Correlated, Complete;
      var before := Run(calls[..|calls| - 1]);
      ReceivedGrows(before, calls[|calls| - 1]);
      RunsAreCorrelated(calls[..|calls| - 1]);
      CallKeeps(before, calls[|calls| - 1]);
    }
  }

  // When a call is answered.

  /** The first `k` pieces bring the response, and every piece before ends where a frame ends. */
  predicate BringsIt(leftovers: string, pieces: seq<string>, sought: nat, k: nat) {
    && 0 < k <= |pieces|
    && Mentions(Complete(leftovers + Join(pieces[..k])), sought)
    && forall j :: 0 < j < k ==> Rest(leftovers + Join(pieces[..j])) == []
  }

  lemma FirstPieces(leftovers: string, pieces: seq<string>, k: nat)
    requires 0 < k <= |pieces|
    ensures leftovers + Join(pieces[..k]) == leftovers + pieces[0] + Join(pieces[1..][..k - 1])
  {
    assert pieces[..k][0] == pieces[0] && pieces[..k][1..] == pieces[1..][..k - 1];
  }

  lemma MentionedEither(frames: seq<Frame>, more: seq<Frame>, token: nat)
    ensures Mentions(frames + more, token) <==> Mentions(frames, token) || Mentions(more, token)
  {
    var all := frames + more;
    if i :| 0 <= i < |frames| && Token(frames[i]) == token { assert all[i] == frames[i]; }
    if i :| 0 <= i < |more| && Token(more[i]) == token { assert all[|frames| + i] == more[i]; }
    if i :| 0 <= i < |all| && Token(all[i]) == token {
      assert all[i] == if i < |frames| then frames[i] else more[i - |frames|];
    }
  }

  /** How the pieces look behind one that ends where a frame ends and does not bring the response. */
  lemma OnePieceLater(leftovers: string, pieces: seq<string>, sought: nat, k: nat)
    requires 1 < k <= |pieces|
    requires Rest(leftovers + pieces[0]) == [] && !Mentions(Complete(leftovers + pieces[0]), sought)
    ensures BringsIt(leftovers, pieces, sought, k) <==> BringsIt([], pieces[1..], sought, k - 1)
  {
    hide Complete, Rest, Join, Mentions;
    var data, tail := leftovers + pieces[0], pieces[1..];
    forall j | 0 < j <= k
      ensures Rest(leftovers + Join(pieces[..j])) == Rest([] + Join(tail[..j - 1]))
      ensures Mentions(Complete(leftovers + Join(pieces[..j])), sought)
              <==> Mentions(Complete([] + Join(tail[..j - 1])), sought)
    {
      FirstPieces(leftovers, pieces, j);
      MoreBytes(data, Join(tail[..j - 1]));
      MentionedEither(Complete(data), Complete([] + Join(tail[..j - 1])), sought);
    }
    if BringsIt([], tail, sought, k - 1) {
      forall j | 0 < j < k ensures Rest(leftovers + Join(pieces[..j])) == [] {
        if j == 1 { NothingRests(tail); } else { assert Rest([] + Join(tail[..j - 1])) == []; }
      }
    }
    if BringsIt(leftovers, pieces, sought, k) {
      forall j | 0 < j < k - 1 ensures Rest([] + Join(tail[..j])) == [] {
        assert Rest(leftovers + Join(pieces[..j + 1])) == [];
      }
    }
  }

  lemma NothingRests(pieces: seq<string>)
    ensures Rest([] + Join(pieces[..0])) == []
  {
  }

  /** A call that has to wait is answered exactly when some number of pieces brings its response and no
      piece before ends inside of a frame. */
  lemma {:induction false} WhenAnswered(client: Client, pieces: seq<string>, sought: nat)
    ensures Listen(client, pieces, sought).heard != [] <==> exists k :: BringsIt(client.leftovers, pieces, sought, k)
    decreases |pieces|
  {
    hide Complete, Rest, Mentions, Heard;
    if pieces != [] {
      var data, tail := client.leftovers + pieces[0], pieces[1..];
      HeardMeansMentioned(data, sought);
      FirstPieces(client.leftovers, pieces, 1);
      assert data + Join(tail[..0]) == data;
      if Heard(data, sought) != [] {
        assert BringsIt(client.leftovers, pieces, sought, 1);
      } else if Rest(data) != [] {
        assert forall k :: BringsIt(client.leftovers, pieces, sought, k) ==> k == 1;
      } else {
        WhenAnswered(Client(Stored(client.responses, Complete(data), sought), []), tail, sought);
        if k: nat :| BringsIt(client.leftovers, pieces, sought, k) {
          assert k > 1;
          OnePieceLater(client.leftovers, pieces, sought, k);
        }
        if k: nat :| BringsIt([], tail, sought, k) {
          OnePieceLater(client.leftovers, pieces, sought, k + 1);
          assert BringsIt(client.leftovers, pieces, sought, k + 1);
        }
      }
    }
  }

  /** A response that comes in two pieces is missed by the call that waits for it, and found by the next. */
  lemma SplitResponseIsMissed(response: Frame, n: nat)
    requires 0 < n < |response|
    ensures var first := Search(Client(map[], []), [response[..n], response[n..]], Token(response));
            && first == Waited(Client(map[], response[..n]), [], 1)
            && Search(first.client, [response[n..]], Token(response)).heard == [response]
  {
    var start := response[..n];
    PieceOfFrame(response, n);
    NoFrames(start);
    assert [] + start == start && start + response[n..] == response;
    AFrameIsItsFirst(response);
    assert Heard([], Token(response)) == [];
    assert response[|response|..] == [];
  }

  /** A response that a call has read off the connection is gone: it was received and is not stored. */
  predicate Gone(history: History, token: nat) {
    Mentions(Complete(history.received), token) && token !in history.client.responses
  }

  lemma {:induction false} SoughtIsNotStored(responses: Responses, frames: seq<Frame>, sought: nat)
    ensures sought in Stored(responses, frames, sought) <==> sought in responses
    decreases |frames|
  {
    if frames != [] {
      var token := Token(frames[0]);
      SoughtIsNotStored(if token == sought || token in responses then responses else responses[token := frames[0]],
                        frames[1..], sought);
    }
  }

  /** What a call reads off the connection it does not store. */
  lemma {:induction false} HearingConsumes(history: History, pieces: seq<string>, sought: nat)
    requires history.client.leftovers == Rest(history.received)
    requires sought !in history.client.responses
    requires Listen(history.client, pieces, sought).heard != []
    ensures var o := Listen(history.client, pieces, sought);
            Gone(History(o.client, history.received + Join(pieces[..o.used]),
                         history.log + Talks(sought, o.heard)), sought)
    decreases |pieces|
  {
    hide Complete, Rest, Heard, Stored, Mentions;
    var o := Listen(history.client, pieces, sought);
    var data, tail := history.client.leftovers + pieces[0], pieces[1..];
    var next := Client(Stored(history.client.responses, Complete(data), sought), Rest(data));
    var now := history.received + pieces[0];
    SoughtIsNotStored(history.client.responses, Complete(data), sought);
    MoreBytes(history.received, pieces[0]);
    MentionedEither(Complete(history.received), Complete(data), sought);
    HeardMeansMentioned(data, sought);
    assert pieces[..o.used][0] == pieces[0] && pieces[..o.used][1..] == tail[..o.used - 1];
    assert history.received + (pieces[0] + Join(tail[..o.used - 1])) == now + Join(tail[..o.used - 1]);
    if Heard(data, sought) != [] || Rest(data) != [] {
      assert now + Join([]) == now;
    } else {
      HearingConsumes(History(next, now, history.log), tail, sought);
    }
  }

  /** A piece that brings no second response with an id leaves it gone, and lets nobody hear it. */
  lemma GoneForAPiece(history: History, piece: string, sought: nat, token: nat)
    requires Correlated(history) && Gone(history, token)
    requires Distinct(Complete(history.received + piece))
    ensures var data := history.client.leftovers + piece;
            && !Mentions(Complete(data), token)
            && token !in Stored(history.client.responses, Complete(data), sought)
            && Mentions(Complete(history.received + piece), token)
  {
    hide Complete, Rest, Stored, KeptOrGiven, GivenRightly;
    var frames, more := Complete(history.received), Complete(history.client.leftovers + piece);
    MoreBytes(history.received, piece);
    DistinctParts(frames, more);
    MentionedEither(frames, more, token);
    NoneStored(history.client.responses, frames, more);
    StoringAdds(history.client.responses, more, sought);
    var j :| 0 <= j < |frames| && Token(frames[j]) == token;
    assert frames[j] in frames;
    forall i | 0 <= i < |more| ensures Token(more[i]) != token {
      assert more[i] in more;
    }
  }

  lemma {:induction false} ListeningLeavesItGone(history: History, pieces: seq<string>, sought: nat, token: nat)
    requires Correlated(history) && Gone(history, token)
    requires var o := Listen(history.client, pieces, sought);
             Distinct(Complete(history.received + Join(pieces[..o.used])))
    ensures var o := Listen(history.client, pieces, sought);
            && Gone(History(o.client, history.received + Join(pieces[..o.used]),
                            history.log + Talks(sought, o.heard)), token)
            && (sought == token ==> o.heard == [])
    decreases |pieces|
  {
    hide Complete, Rest, Heard, Stored, Mentions, Correlated, Distinct;
    var o := Listen(history.client, pieces, sought);
    if pieces == [] {
      assert history.received + [] == history.received;
    } else {
      var data, tail := history.client.leftovers + pieces[0], pieces[1..];
      var next := Client(Stored(history.client.responses, Complete(data), sought), Rest(data));
      var now := history.received + pieces[0];
      assert pieces[..o.used][0] == pieces[0] && pieces[..o.used][1..] == tail[..o.used - 1];
      assert history.received + (pieces[0] + Join(tail[..o.used - 1])) == now + Join(tail[..o.used - 1]);
      EarlierIsDistinct(now, Join(tail[..o.used - 1]));
      GoneForAPiece(history, pieces[0], sought, token);
      HeardMeansMentioned(data, sought);
      if Heard(data, sought) != [] || Rest(data) != [] {
        assert now + Join([]) == now;
      } else {
        PieceKeeps(history, pieces[0], sought);
        assert history.log + Talks(sought, []) == history.log;
        ListeningLeavesItGone(History(next, now, history.log), tail, sought, token);
      }
    }
  }

  lemma {:induction false} RunsLeaveItGone(before: seq<Call>, later: seq<Call>, token: nat)
    requires Distinct(Complete(Run(before + later).received))
    requires Gone(Run(before), token)
    ensures Gone(Run(before + later), token)
    decreases |later|
  {
    hide Distinct, Complete, Listen, Correlated;
    if later == [] {
      assert before + later == before;
    } else {
      var front, call := later[..|later| - 1], later[|later| - 1];
      var all := before + later;
      assert all[..|all| - 1] == before + front && all[|all| - 1] == call;
      var history := Run(before + front);
      ReceivedGrows(history, call);
      RunsLeaveItGone(before, front, token);
      RunsAreCorrelated(before + front);
      if call.token in history.client.responses {
        assert history.received + Join(call.pieces[..0]) == history.received;
      } else {
        ListeningLeavesItGone(history, call.pieces, call.token, token);
      }
    }
  }

  lemma {:induction false} StoringKeeps(responses: Responses, frames: seq<Frame>, sought: nat, token: nat)
    requires token in responses
    ensures token in Stored(responses, frames, sought)
    decreases |frames|
  {
    if frames != [] {
      var other := Token(frames[0]);
      StoringKeeps(if other == sought || other in responses then responses else responses[other := frames[0]],
                  frames[1..], sought, token);
    }
  }

  lemma {:induction false} ListeningKeepsStored(client: Client, pieces: seq<string>, sought: nat, token: nat)
    requires token in client.responses
    ensures token in Listen(client, pieces, sought).client.responses
    decreases |pieces|
  {
    hide Complete, Rest, Heard, Stored;
    if pieces != [] {
      var data := client.leftovers + pieces[0];
      StoringKeeps(client.responses, Complete(data), sought, token);
      ListeningKeepsStored(Client(Stored(client.responses, Complete(data), sought), Rest(data)), pieces[1..], sought,
          token);
    }
  }

  /** A stored response stays stored. */
  lemma {:induction false} RunsKeepStored(before: seq<Call>, later: seq<Call>, token: nat)
    requires token in Run(before).client.responses
    ensures token in Run(before + later).client.responses
    decreases |later|
  {
    hide Listen;
    if later == [] {
      assert before + later == before;
    } else {
      var front, call := later[..|later| - 1], later[|later| - 1];
      var all := before + later;
      assert all[..|all| - 1] == before + front && all[|all| - 1] == call;
      RunsKeepStored(before, front, token);
      ListeningKeepsStored(Run(before + front).client, call.pieces, call.token, token);
    }
  }

  /** Asking whether a response is there uses it up, like reading it, when it is read off the connection: once
      a call has heard its response, a later call hears it again, whatever arrives in between and afterwards,
      if and only if the first found it stored, by a call for another one. */
  lemma HeardOnlyOnce(before: seq<Call>, call: Call, later: seq<Call>, again: Call)
    requires again.token == call.token
    requires Distinct(Complete(Run(before + [call] + later + [again]).received))
    requires Search(Run(before).client, call.pieces, call.token).heard != []
    ensures Search(Run(before + [call] + later).client, again.pieces, again.token).heard != []
            <==> call.token in Run(before).client.responses
  {
    hide Run, Distinct, Complete, Listen;
    if call.token in Run(before).client.responses {
      RunsKeepStored(before, [call] + later, call.token);
      assert before + ([call] + later) == before + [call] + later;
    } else {
      NotHeardAgain(before, call, later, again);
    }
  }

  lemma NotHeardAgain(before: seq<Call>, call: Call, later: seq<Call>, again: Call)
    requires again.token == call.token
    requires Distinct(Complete(Run(before + [call] + later + [again]).received))
    requires call.token !in Run(before).client.responses
    requires Search(Run(before).client, call.pieces, call.token).heard != []
    ensures Search(Run(before + [call] + later).client, again.pieces, again.token).heard == []
  {
    hide Distinct, Complete, Listen, Correlated, Gone;
    var first, middle, all := before + [call], before + [call] + later, before + [call] + later + [again];
    assert first[..|first| - 1] == before && all[..|all| - 1] == middle;
    ReceivedGrows(Run(middle), again);
    RunDistinct(first, later);
    ReceivedGrows(Run(before), call);
    RunsAreCorrelated(before);
    LeftoversAreRest(Run(before));
    HearingConsumes(Run(before), call.pieces, call.token);
    RunsLeaveItGone(first, later, call.token);
    RunsAreCorrelated(middle);
    GoneIsNotStored(Run(middle), call.token);
    ListeningLeavesItGone(Run(middle), again.pieces, again.token, call.token);
  }

  lemma GoneIsNotStored(history: History, token: nat)
    requires Gone(history, token)
    ensures token !in history.client.responses
  {
  }

  lemma LeftoversAreRest(history: History)
    requires Correlated(history)
    ensures history.client.leftovers == Rest(history.received)
  {
  }

  lemma {:induction false} RunDistinct(before: seq<Call>, later: seq<Call>)
    requires Distinct(Complete(Run(before + later).received))
    ensures Distinct(Complete(Run(before).received))
    decreases |later|
  {
    hide After, Distinct, Complete;
    if later == [] {
      assert before + later == before;
    } else {
      var all := before + later;
      assert all[..|all| - 1] == before + later[..|later| - 1];
      ReceivedGrows(Run(all[..|all| - 1]), all[|all| - 1]);
      RunDistinct(before, later[..|later| - 1]);
    }
  }
}
