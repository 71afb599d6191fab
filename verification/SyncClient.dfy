/**
  The client that waits for responses. They may come in any order and cut into any pieces; a call looks
  for its own and stores the others. A call names the pieces that arrive while it waits; it reads as many
  of them as it needs, and gives up when the connection fails or, if it only polls, when nothing is available.
 */
module SyncClient {
  import opened LittleEndian
  import opened Frames
  import opened Texts
  import opened Responder

  type Responses = map<nat, Frame>

  /** What the reader of responses says about some bytes. */
  datatype Look = Look(reaction: Reaction, token: nat, used: nat)

  function Examine(data: string, identified: bool, sought: nat): (look: Look)
    ensures look.reaction == Ok || look.reaction == WrongReply ==> look.used <= |data|
    ensures look.reaction != Disconnect
  {
    if |data| < HEADER then Look(if identified then Thrown else ReadOn, 0, 0)
    else if |data| < SizeField(data) then Look(ReadOn, Token(data), 0)
    else if !identified && Token(data) != sought then Look(WrongReply, Token(data), SizeField(data))
    else Look(Ok, sought, SizeField(data))
  }

  /** What a call hears in some bytes: each time the bytes from its response on. */
  function Heard(data: string, sought: nat): seq<string>
    decreases |data|
  {
    if HasFrame(data) then
      (if Token(data) == sought then [data] else []) + Heard(data[SizeField(data)..], sought)
    else []
  }

  /** The stored responses after some frames: those for others are added, and what is there stays. */
  function Stored(responses: Responses, frames: seq<Frame>, sought: nat): Responses
    decreases |frames|
  {
    if frames == [] then responses
    else
      var token := Token(frames[0]);
      Stored(if token == sought || token in responses then responses else responses[token := frames[0]],
             frames[1..], sought)
  }

  datatype Client = Client(responses: Responses, leftovers: string)

  datatype Waited = Waited(client: Client, heard: seq<string>, used: nat)

  /** Reading pieces until the response has come, or until one ends inside of a frame. */
  function Listen(client: Client, pieces: seq<string>, sought: nat): (o: Waited)
    ensures o.used <= |pieces|
    decreases |pieces|
  {
    if pieces == [] then Waited(client, [], 0)
    else
      var data := client.leftovers + pieces[0];
        var next := Client(Stored(client.responses, Complete(data), sought), Rest(data));
      if Heard(data, sought) != [] || Rest(data) != [] then
        Waited(next, Heard(data, sought), 1)
      else
        var later := Listen(next, pieces[1..], sought);
        later.(used := 1 + later.used)
  }

  function Search(client: Client, pieces: seq<string>, sought: nat): Waited {
    if sought in client.responses then Waited(client, [client.responses[sought]], 0)
    else Listen(client, pieces, sought)
  }

  /** Stored responses are complete frames, each under its own id. */
  predicate StoredFrames(responses: Responses) {
    forall token <- responses :: Token(responses[token]) == token
  }

  class SyncNetworkClient {
    var responses: Responses
    var leftovers: string

    ghost function State(): Client
      reads this
    {
      Client(responses, leftovers)
    }

    constructor ()
      ensures State() == Client(map[], [])
    {
      responses, leftovers := map[], [];
    }

    /** The reader: `heard` logs what the call's own operation was given to read. */
    method ReadResponse(data: string, identified: bool, sought: nat, heard: seq<string>)
        returns (look: Look, heard': seq<string>)
      ensures look == Examine(data, identified, sought)
      ensures |data| < 6 ==> look.reaction == if identified then Thrown else ReadOn
      ensures |data| >= 6 ==> look.token == if look.reaction == Ok then sought else Token(data)
      ensures heard' == if look.reaction == Ok then heard + [data] else heard
    {
      heard' := heard;
      if !identified && |data| < HEADER {
        return Look(ReadOn, 0, 0), heard';
      }
      if |data| < HEADER {
        return Look(Thrown, 0, 0), heard';
      }
      var receivedToken, size := Token(data), SizeField(data);
      if |data| < size {
        return Look(ReadOn, receivedToken, 0), heard';
      }
      if !identified && receivedToken != sought {
        return Look(WrongReply, receivedToken, size), heard';
      }
      heard' := heard + [data];
      look := Look(Ok, sought, size);
    }

    /** The frames that one more piece completes. */
    method Sift(sought: nat) returns (stuck: bool, heard: seq<string>)
      requires Framed(leftovers)
      modifies this
      ensures heard == Heard(old(leftovers), sought)
      ensures leftovers == Rest(old(leftovers))
      ensures stuck == (leftovers != [])
      ensures responses == Stored(old(responses), Complete(old(leftovers)), sought)
    {
      hide Unsigned, Framed;
      stuck, heard := false, [];
      while leftovers != []
        invariant Framed(leftovers)
        invariant heard + Heard(leftovers, sought) == Heard(old(leftovers), sought)
        invariant Rest(leftovers) == Rest(old(leftovers))
        invariant Stored(responses, Complete(leftovers), sought)
            == Stored(old(responses), Complete(old(leftovers)), sought)
        decreases |leftovers|
      {
        var look;
        ghost var before := heard;
        FrontOfFramed(leftovers);
        look, heard := ReadResponse(leftovers, false, sought, heard);
        if look.reaction == ReadOn {
          stuck := true;
          assert heard + [] == heard;
          return;
        }
        OneFrame(leftovers, responses, sought, before);
        if look.reaction == WrongReply {
          var token := look.token;
          if token !in responses {
            responses := responses[token := First(leftovers)];
          }
        }
        leftovers := leftovers[look.used..];
      }
      assert heard + [] == heard;
    }

    /** `getResponse` and `tryToGetResponse`. */
    method SearchRequests(sought: nat, pieces: seq<string>) returns (heard: seq<string>, used: nat)
      requires StoredFrames(responses)
      requires Framed(leftovers + Join(pieces))
      modifies this
      ensures Search(old(State()), pieces, sought) == Waited(State(), heard, used)
    {
      hide Framed, Join, Heard, Rest, Complete, Stored, SizeField, Token;
      heard, used := [], 0;
      if sought in responses {
        var look;
        look, heard := ReadResponse(responses[sought], true, sought, heard);
        assert look.reaction == Ok;
        return;
      }
      var wasReceived := false;
      while !wasReceived && used < |pieces|
        invariant used <= |pieces|
        invariant !wasReceived ==> heard == [] && Framed(leftovers + Join(pieces[used..]))
        invariant var all := Search(old(State()), pieces, sought);
                  if wasReceived then all == Waited(State(), heard, used)
                  else var later := Listen(State(), pieces[used..], sought);
                       all == later.(used := used + later.used)
      {
        ghost var before, rest := State(), pieces[used..];
        assert rest[0] == pieces[used] && rest[1..] == pieces[used + 1..];
        FramedPiece(leftovers, rest);
        leftovers := leftovers + pieces[used];
        used := used + 1;
        var stuck;
        stuck, heard := Sift(sought);
        wasReceived := heard != [];
        if stuck {
          return;
        }
      }
    }
  }

  lemma FrontOfFramed(data: string)
    requires Framed(data)
    ensures HasFrame(data) <==> Examine(data, false, 0).reaction != ReadOn
    ensures HasFrame(data) ==> Framed(data[SizeField(data)..])
  {
  }

  /** One frame's share of what is heard and stored. */
  lemma OneFrame(data: string, responses: Responses, sought: nat, heard: seq<string>)
    requires HasFrame(data)
    ensures var size := SizeField(data);
            var token, tail := Token(data), data[size..];
            && Rest(data) == Rest(tail)
            && heard + Heard(data, sought) == (if token == sought then heard + [data] else heard) + Heard(tail, sought)
            && Stored(responses, Complete(data), sought) ==
               Stored(if token == sought || token in responses then responses else responses[token := First(data)],
                      Complete(tail), sought)
  {
    hide Stored, First, Unsigned, Framed;
    FirstIsComplete(data);
    FirstKeepsToken(data);
    StoredStep(responses, Complete(data), sought);
    HeardFirst(data, sought, heard);
  }

  lemma FirstIsComplete(data: string)
    requires HasFrame(data)
    ensures Complete(data) != [] && Complete(data)[0] == First(data)
    ensures Complete(data)[1..] == Complete(data[SizeField(data)..])
  {
    hide First, Unsigned;
  }

  lemma HeardFirst(data: string, sought: nat, heard: seq<string>)
    requires HasFrame(data)
    ensures heard + Heard(data, sought)
         == (if Token(data) == sought then heard + [data] else heard) + Heard(data[SizeField(data)..], sought)
  {
    hide Unsigned;
    var later := Heard(data[SizeField(data)..], sought);
    assert heard + ([data] + later) == heard + [data] + later && [] + later == later;
  }

  lemma FirstKeepsToken(data: string)
    requires HasFrame(data)
    ensures Token(First(data)) == Token(data)
  {
    assert data[..SizeField(data)][..4] == data[..4];
  }

  lemma StoredStep(responses: Responses, frames: seq<Frame>, sought: nat)
    requires frames != []
    ensures var token := Token(frames[0]);
            Stored(responses, frames, sought) ==
            Stored(if token == sought || token in responses then responses else responses[token := frames[0]],
                   frames[1..], sought)
  {
  }

  lemma FramedPiece(leftovers: string, pieces: seq<string>)
    requires pieces != [] && Framed(leftovers + Join(pieces))
    ensures Framed(leftovers + pieces[0]) && Framed(Rest(leftovers + pieces[0]) + Join(pieces[1..]))
  {
    assert leftovers + (pieces[0] + Join(pieces[1..])) == leftovers + pieces[0] + Join(pieces[1..]);
    FramedSplits(leftovers + pieces[0], Join(pieces[1..]));
  }
}
