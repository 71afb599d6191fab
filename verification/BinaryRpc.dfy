/**
  Remote calls in the binary protocol: the client's request, which leads to a method by the indices of
  children, and the server that follows them, calls the method and replies.
 */
module BinaryRpc {
  import opened LittleEndian
  import opened BinaryFormat
  import opened Callables
  import opened Frames
  import opened Responder
  import Codec = BinaryCodec

  datatype Result = Void | Typed(schema: Schema)

  /** A method's own flag, its parameters with theirs, and its result. */
  datatype Signature = Signature(ask: Ask, parameters: seq<Field>, result: Result)

  /** The callables, and what the user's functions do. */
  datatype Service = Service(tree: Tree, signatures: seq<Signature>, procedure: (nat, seq<Value>) -> Value)

  /** What the server did: a call, and the reply it wrote. */
  datatype Event = Called(callable: nat, arguments: seq<Value>, reply: string)

  ghost predicate Proper(service: Service) {
    && Valid(service.tree)
    && |service.signatures| == |service.tree.parent|
    && forall x, arguments | 0 <= x < |service.signatures| && TakesArguments(service.signatures[x], arguments) ::
         ResultFits(service.signatures[x].result, service.procedure(x, arguments))
  }

  predicate TakesArguments(signature: Signature, arguments: seq<Value>) {
    |signature.parameters| == |arguments| && FieldsFit(signature.parameters, arguments)
  }

  predicate ResultFits(result: Result, value: Value) { result.Typed? ==> Fits(result.schema, value) }

  // The path.

  function IndexOf(nodes: seq<nat>, x: nat): (i: nat)
    requires x in nodes
    ensures i < |nodes| && nodes[i] == x
  {
    if nodes[0] == x then 0 else 1 + IndexOf(nodes[1..], x)
  }

  /** `childName`: the index of a callable among the children of its parent. */
  function OwnIndex(t: Tree, x: nat): (i: nat)
    requires Valid(t) && 0 < x < |t.parent|
    ensures i < |t.children[t.parent[x].node]| && t.children[t.parent[x].node][i] == x
  {
    IndexOf(t.children[t.parent[x].node], x)
  }

  function IndexPath(t: Tree, x: nat): seq<nat>
    requires Valid(t) && x < |t.parent|
  {
    if t.parent[x] == NoCallable then [] else IndexPath(t, t.parent[x].node) + [OwnIndex(t, x)]
  }

  /** An index is kept in one byte. */
  function IndexBytes(indices: seq<nat>): (s: string)
    ensures |s| == |indices|
  {
    if indices == [] then [] else IndexBytes(indices[..|indices| - 1]) + NumberBytes(UInt8, indices[|indices| - 1])
  }

  // The request.

  function ArgumentEncoded(field: Field, ask: Ask, value: Value): string
    requires FieldFits(field, value)
  {
    Encoded(field.schema, Flags(false, Or(ask, field.ask)), value)
  }

  function ArgumentsEncoded(fields: seq<Field>, ask: Ask, values: seq<Value>): string
    requires |fields| == |values| && FieldsFit(fields, values)
    decreases |fields|
  {
    if fields == [] then []
    else ArgumentEncoded(fields[0], ask, values[0]) + ArgumentsEncoded(fields[1..], ask, values[1..])
  }

  /** A frame around some content; its size field holds the lowest 16 bits of the size. */
  function Wrapped(id: string, content: string): (frame: string)
    requires |id| == 4
    ensures |frame| == HEADER + |content|
  {
    id + NumberBytes(UInt16, HEADER + |content|) + content
  }

  /** Filling in the size behind the id makes a frame of it. */
  lemma SizeFilledIn(id: string, size: string, a: string, b: string)
    requires |id| == 4 && |size| == 2
    ensures var contents := "" + id + size + a + b;
            contents[..4] + NumberBytes(UInt16, |contents|) + contents[HEADER..] == Wrapped(id, a + b)
  {
    var contents := "" + id + size + a + b;
    assert contents[..4] == id && contents[HEADER..] == a + b;
  }

  function Request(service: Service, order: nat, x: nat, arguments: seq<Value>): (frame: string)
    requires Proper(service) && x < |service.signatures| && TakesArguments(service.signatures[x], arguments)
    ensures HEADER <= |frame|
  {
    Wrapped(NumberBytes(UInt32, order),
            IndexBytes(IndexPath(service.tree, x))
            + ArgumentsEncoded(service.signatures[x].parameters, service.signatures[x].ask, arguments))
  }

  class BinaryProtocolClient {
    var sendOrder: nat

    constructor ()
      ensures sendOrder == 0
    {
      sendOrder := 0;
    }

    /** Moves the first `depth` indices up and puts one in front. */
    static method PutFirst(path: array<nat>, depth: nat, index: nat)
      requires depth < path.Length
      modifies path
      ensures path[..depth + 1] == [index] + old(path[..depth])
    {
      if depth > 0 {
        forall i | 0 <= i < depth { path[i + 1] := path[i]; }
      }
      path[0] := index;
    }

    /** The path of a method, filled from its end; too deep a path is refused. */
    static method CollectPath(t: Tree, x: nat) returns (fits: bool, indices: seq<nat>)
      requires Valid(t) && x < |t.parent|
      ensures fits <==> |IndexPath(t, x)| <= 3
      ensures fits ==> indices == IndexPath(t, x)
    {
      hide OwnIndex;
      var path := new nat[MAX_DEPTH];
      var depth := 0;
      var it: nat, parent := x, t.parent[x];
      assert IndexPath(t, x) == IndexPath(t, it) + [];
      while parent != NoCallable
        invariant it < |t.parent| && parent == t.parent[it]
        invariant depth <= MAX_DEPTH
        invariant IndexPath(t, x) == IndexPath(t, it) + path[..depth]
        decreases it
      {
        if depth >= MAX_DEPTH {
          return false, [];
        }
        ghost var before := path[..depth];
        assert IndexPath(t, it) + before == IndexPath(t, parent.node) + ([OwnIndex(t, it)] + before);
        PutFirst(path, depth, OwnIndex(t, it));
        depth := depth + 1;
        it, parent := parent.node, t.parent[parent.node];
      }
      assert [] + path[..depth] == path[..depth];
      fits, indices := true, path[..depth];
    }

    static method WritePath(out: Codec.Output, path: seq<nat>)
      modifies out
      ensures out.contents == old(out.contents) + IndexBytes(path)
    {
      var i := 0;
      while i < |path|
        invariant i <= |path|
        invariant out.contents == old(out.contents) + IndexBytes(path[..i])
      {
        assert path[..i + 1][..i] == path[..i];
        out.WriteInt(UInt8, path[i]);
        i := i + 1;
      }
      assert path[..i] == path;
    }

    method Send(service: Service, x: nat, arguments: seq<Value>) returns (accepted: bool, token: nat, written: string)
      requires Proper(service) && x < |service.signatures| && TakesArguments(service.signatures[x], arguments)
      modifies this
      ensures token == old(sendOrder) && sendOrder == (old(sendOrder) + 1) % 0x1_0000_0000
      ensures accepted <==> |IndexPath(service.tree, x)| <= 3
      ensures accepted ==> written == Request(service, token, x, arguments)
    {
      hide IndexPath, NumberBytes, IndexBytes, ArgumentsEncoded, FieldsFit, Valid;
      var signature := service.signatures[x];
      var out := new Codec.Output("");
      out.WriteInt(UInt32, sendOrder);
      token := sendOrder;
      sendOrder := (sendOrder + 1) % 0x1_0000_0000;
      out.WriteInt(UInt16, 0);
      var path;
      accepted, path := CollectPath(service.tree, x);
      if !accepted {
        return false, token, "";
      }
      WritePath(out, path);
      WriteArguments(out, signature.parameters, signature.ask, arguments);
      SizeFilledIn(NumberBytes(UInt32, token), NumberBytes(UInt16, 0), IndexBytes(path),
                   ArgumentsEncoded(signature.parameters, signature.ask, arguments));
      written := out.contents[..4] + NumberBytes(UInt16, |out.contents|) + out.contents[HEADER..];
    }

    static method WriteArguments(out: Codec.Output, fields: seq<Field>, ask: Ask, values: seq<Value>)
      requires |fields| == |values| && FieldsFit(fields, values)
      modifies out
      ensures out.contents == old(out.contents) + ArgumentsEncoded(fields, ask, values)
      decreases |fields|
    {
      hide Encoded, Fits;
      if fields != [] {
        out.WriteValue(fields[0].schema, Flags(false, Or(ask, fields[0].ask)), values[0]);
        WriteArguments(out, fields[1..], ask, values[1..]);
      }
    }
  }

  // The server.

  /** Where the indices lead: to a callable without children, past them, or to the end of the input. */
  datatype Followed = Arrived(callable: nat, at: nat) | Astray | CutShort

  function Follow(t: Tree, input: string, at: nat, target: nat): (f: Followed)
    requires Valid(t) && target < |t.parent| && at <= |input|
    ensures f.Arrived? ==> f.callable < |t.parent| && at <= f.at <= |input|
    decreases |input| - at
  {
    if ChildAt(t, target, 0) == NoCallable then Arrived(target, at)
    else
      var request := NumberAt(input, at, UInt8);
      if request.Failed? then CutShort
      else
        var child := ChildAt(t, target, request.value);
        if child == NoCallable then Astray else Follow(t, input, request.at, child.node)
  }

  function ResultEncoded(signature: Signature, value: Value): string
    requires ResultFits(signature.result, value)
  {
    if signature.result.Void? then [] else Encoded(signature.result.schema, Flags(false, signature.ask), value)
  }

  function Reply(service: Service, id: nat, x: nat, arguments: seq<Value>): string
    requires Proper(service) && x < |service.signatures| && TakesArguments(service.signatures[x], arguments)
  {
    Wrapped(NumberBytes(UInt32, id), ResultEncoded(service.signatures[x], service.procedure(x, arguments)))
  }

  function Answered(service: Service, state: (), input: string): Answer<(), Event>
    requires Proper(service)
  {
    if |input| < HEADER || |input| < SizeField(input) then Answer(ReadOn, 0, (), input, [])
    else
      var followed := Follow(service.tree, input, HEADER, ROOT);
      if followed == Astray then Answer(Disconnect, 0, (), input, [])
      else if followed == CutShort then Answer(Thrown, 0, (), input, [])
      else CallAnswered(service, input, followed.callable, followed.at)
  }

  function CallAnswered(service: Service, input: string, x: nat, at: nat): Answer<(), Event>
    requires Proper(service) && HEADER <= |input| && x < |service.signatures|
  {
    var signature := service.signatures[x];
    var arguments := FieldsAt(input, at, signature.parameters, Flags(false, signature.ask), 0);
    if arguments.Failed? then Answer(Thrown, 0, (), input, [])
    else
      Answer(Ok, arguments.at, (), input,
          [Called(x, arguments.value, Reply(service, Token(input), x, arguments.value))])
  }

  /** The callee takes its arguments by index, until there is none left. */
  method ReadArguments(reader: Codec.Input, fields: seq<Field>, flags: Flags) returns (r: Read<seq<Value>>)
    requires reader.Valid() && reader.depth == -1
    modifies reader, reader.sizes
    ensures r == FieldsAt(reader.contents, old(reader.position), fields, flags, 0)
    ensures r.Got? ==> reader.position == r.at
  {
    hide FieldAt, FieldFits;
    var values := [];
    var index := 0;
    var more := true;
    assert fields[0..] == fields;
    Codec.AheadOfAll(FieldsAt(reader.contents, reader.position, fields, flags, 0));
    while more
      invariant index <= |fields| + 1 && (index == |fields| + 1 ==> !more)
      invariant !more ==> index == |fields| + 1
      invariant reader.Valid() && reader.depth == -1
      invariant FieldsAt(reader.contents, old(reader.position), fields, flags, 0)
             == Codec.Ahead(values, FieldsAt(reader.contents, reader.position,
                                             if index <= |fields| then fields[index..] else [], flags, 0))
      decreases |fields| + 1 - index
    {
      if index < |fields| {
        ghost var rest := fields[index..];
        assert rest[0] == fields[index] && rest[1..] == fields[index + 1..];
        var v := reader.ReadField(fields[index], flags);
        if v.Failed? {
          return Failed(v.fault);
        }
        Codec.AheadStep(values, v.value, FieldsAt(reader.contents, v.at, rest[1..], flags, 0));
        values := values + [v.value];
      }
      more := index < |fields|;
      index := index + 1;
    }
    assert values + [] == values;
    r := Got(values, reader.position);
  }

  /** `BinaryProtocolServer::Session::respond`. */
  method Respond(service: Service, input: string) returns (answer: Answer<(), Event>)
    requires Proper(service)
    ensures answer == Answered(service, (), input)
  {
    hide Reply, Valid, ResultFits, Unsigned, FieldsAt, FieldsFit;
    if |input| < HEADER {
      return Answer(ReadOn, 0, (), input, []);
    }
    var reader := new Codec.Input(input);
    var messageId := reader.ReadInt(UInt32);
    var inputSize := reader.ReadInt(UInt16);
    if |input| < inputSize.value {
      return Answer(ReadOn, 0, (), input, []);
    }
    var target: nat := ROOT;
    RootIsThere(service);
    while ChildAt(service.tree, target, 0) != NoCallable
      invariant target < |service.tree.parent|
      invariant reader.Valid() && reader.depth == -1 && reader.contents == input && HEADER <= reader.position <= |input|
      invariant Follow(service.tree, input, HEADER, ROOT) == Follow(service.tree, input, reader.position, target)
      decreases |input| - reader.position
    {
      ChildIsThere(service.tree, target);
      var request := reader.ReadInt(UInt8);
      if request.Failed? {
        return Answer(Thrown, 0, (), input, []);
      }
      var child := ChildAt(service.tree, target, request.value);
      if child == NoCallable {
        return Answer(Disconnect, 0, (), input, []);
      }
      target := child.node;
    }
    var signature := service.signatures[target];
    var arguments := ReadArguments(reader, signature.parameters, Flags(false, signature.ask));
    if arguments.Failed? {
      return Answer(Thrown, 0, (), input, []);
    }
    var reply := WriteReply(service, messageId.value, target, arguments.value);
    answer := Answer(Ok, reader.position, (), input, [Called(target, arguments.value, reply)]);
  }

  lemma RootIsThere(service: Service)
    requires Proper(service)
    ensures ROOT < |service.tree.parent| == |service.signatures|
  {
  }

  lemma ChildIsThere(t: Tree, node: nat)
    requires Valid(t) && node < |t.parent|
    ensures forall index: int :: ChildAt(t, node, index).Callable? ==> ChildAt(t, node, index).node < |t.parent|
  {
  }

  /** The reply is written behind the id and a size that is filled in at the end. */
  method WriteReply(service: Service, id: nat, x: nat, arguments: seq<Value>) returns (reply: string)
    requires Proper(service) && x < |service.signatures| && TakesArguments(service.signatures[x], arguments)
    ensures reply == Reply(service, id, x, arguments)
  {
    hide NumberBytes, Encoded, Fits, TakesArguments;
    var out := new Codec.Output("");
    out.WriteInt(UInt32, id);
    out.WriteInt(UInt16, 0);
    var result := service.procedure(x, arguments);
    var signature := service.signatures[x];
    if signature.result.Typed? {
      out.WriteValue(signature.result.schema, Flags(false, signature.ask), result);
    }
    var content := ResultEncoded(signature, result);
    SizeFilledIn(NumberBytes(UInt32, id), NumberBytes(UInt16, 0), content, "");
    assert out.contents == "" + NumberBytes(UInt32, id) + NumberBytes(UInt16, 0) + content + "";
    assert content + "" == content;
    reply := out.contents[..4] + NumberBytes(UInt16, |out.contents|) + out.contents[HEADER..];
  }
}
