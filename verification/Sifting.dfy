/**
  What a waiting call takes, keeps and leaves, exactly: for all frames, whatever their ids, even when ids come more
  than once.
 */
module Sifting {
  import opened Frames
  import opened Texts
  import opened SyncClient
  import opened Correlation

  /** A first frame with this id at `i`. */
  predicate FirstWith(frames: seq<Frame>, token: nat, i: nat) {
    i < |frames| && Token(frames[i]) == token && forall j :: 0 <= j < i ==> Token(frames[j]) != token
  }

  /** What is stored stays, and of the frames for each other call the first is added, and nothing else. */
  lemma {:induction false} StoredExactly(responses: Responses, frames: seq<Frame>, sought: nat, token: nat)
    ensures var stored := Stored(responses, frames, sought);
            && (token in stored <==> token in responses || (token != sought && Mentions(frames, token)))
            && (token in responses ==> token in stored && stored[token] == responses[token])
            && (token !in responses && token != sought ==>
                  forall i: nat :: FirstWith(frames, token, i) ==> token in stored && stored[token] == frames[i])
    decreases |frames|
  {
    if frames != [] {
      var first, rest := Token(frames[0]), frames[1..];
      var next := if first == sought || first in responses then responses else responses[first := frames[0]];
      StoredExactly(next, rest, sought, token);
      MentionedEither([frames[0]], rest, token);
      assert [frames[0]] + rest == frames;
      assert Mentions([frames[0]], token) <==> first == token by { assert [frames[0]][0] == frames[0]; }
      forall i: nat | FirstWith(frames, token, i) && i > 0 ensures FirstWith(rest, token, i - 1) {
        assert forall j :: 0 <= j < i - 1 ==> rest[j] == frames[j + 1];
      }
    }
  }

  lemma {:induction false} StoredTwice(responses: Responses, frames: seq<Frame>, more: seq<Frame>, sought: nat)
    ensures Stored(Stored(responses, frames, sought), more, sought) == Stored(responses, frames + more, sought)
    decreases |frames|
  {
    if frames == [] {
      assert frames + more == more;
    } else {
      var first := Token(frames[0]);
      assert (frames + more)[0] == frames[0] && (frames + more)[1..] == frames[1..] + more;
      StoredTwice(if first == sought || first in responses then responses else responses[first := frames[0]],
                  frames[1..], more, sought);
    }
  }

  /** The bytes from each frame with this id on. */
  function From(frames: seq<Frame>, rest: string, token: nat): seq<string> {
    if frames == [] then []
    else (if Token(frames[0]) == token then [Join(frames) + rest] else []) + From(frames[1..], rest, token)
  }

  /** A call is given the bytes from each frame with its id on, in order. */
  lemma {:induction false} HeardExactly(data: string, sought: nat)
    ensures Heard(data, sought) == From(Complete(data), Rest(data), sought)
    decreases |data|
  {
    if HasFrame(data) {
      HeardExactly(data[SizeField(data)..], sought);
      FramesAndRest(data);
      FirstKeepsToken(data);
      assert Complete(data)[1..] == Complete(data[SizeField(data)..]);
    }
  }

  /** Nothing is left over, and no response for the call has come. */
  predicate GoesOn(data: string, sought: nat) { Rest(data) == [] && !Mentions(Complete(data), sought) }

  /** A waiting call reads pieces until one brings its response or ends inside of a frame; it keeps all frames for
      other calls and the start of the last one, and is given its own from the last piece. */
  lemma {:induction false} ListensExactly(client: Client, pieces: seq<string>, sought: nat)
    requires pieces != []
    ensures var o := Listen(client, pieces, sought);
            && 0 < o.used <= |pieces|
            && (forall j :: 0 < j < o.used ==> GoesOn(client.leftovers + Join(pieces[..j]), sought))
            && var all := client.leftovers + Join(pieces[..o.used]);
               var last := if o.used == 1 then all else pieces[o.used - 1];
               && (GoesOn(all, sought) ==> o.used == |pieces|)
               && o.client == Client(Stored(client.responses, Complete(all), sought), Rest(all))
               && o.heard == Heard(last, sought)
    decreases |pieces|
  {
    hide Complete, Rest, Mentions, Heard, Stored;
    var o, data, tail := Listen(client, pieces, sought), client.leftovers + pieces[0], pieces[1..];
    HeardMeansMentioned(data, sought);
    FirstPieces(client.leftovers, pieces, 1);
    assert data + Join(tail[..0]) == data;
    if Heard(data, sought) == [] && Rest(data) == [] {
      var next := Client(Stored(client.responses, Complete(data), sought), []);
      if tail == [] {
        NothingMore(next, sought);
      } else {
        ListensExactly(next, tail, sought);
        forall k | 1 < k <= |pieces|
          ensures GoesOn(client.leftovers + Join(pieces[..k]), sought) <==> GoesOn([] + Join(tail[..k - 1]), sought)
        {
          PiecesLater(client.leftovers, pieces, sought, k);
        }
        var k := o.used;
        assert k > 1;
        PiecesLater(client.leftovers, pieces, sought, k);
        StoredTwice(client.responses, Complete(data), Complete([] + Join(tail[..k - 1])), sought);
        if k == 2 { OnePiece(tail); }
      }
    }
  }

  lemma OnePiece(pieces: seq<string>)
    requires pieces != []
    ensures [] + Join(pieces[..1]) == pieces[0]
  {
    assert pieces[..1][1..] == [];
  }

  lemma NothingMore(client: Client, sought: nat)
    ensures Listen(client, [], sought) == Waited(client, [], 0)
  {
  }

  lemma PiecesLater(leftovers: string, pieces: seq<string>, sought: nat, k: nat)
    requires 1 < k <= |pieces| && GoesOn(leftovers + pieces[0], sought)
    ensures var all, later := leftovers + Join(pieces[..k]), [] + Join(pieces[1..][..k - 1]);
            && Rest(all) == Rest(later) && Complete(all) == Complete(leftovers + pieces[0]) + Complete(later)
            && (GoesOn(all, sought) <==> GoesOn(later, sought))
  {
    hide Complete, Rest, Mentions;
    var later := [] + Join(pieces[1..][..k - 1]);
    FirstPieces(leftovers, pieces, k);
    MoreBytes(leftovers + pieces[0], Join(pieces[1..][..k - 1]));
    MentionedEither(Complete(leftovers + pieces[0]), Complete(later), sought);
  }
}
