/**
  What a remote call in the binary protocol comes to: the request that the client writes for a method makes the
  server call that method with the same arguments, and the reply brings back its result.
 */
module BinaryRpcCalls {
  import opened LittleEndian
  import opened BinaryFormat
  import opened Texts
  import opened BinaryRoundTrip
  import opened Callables
  import opened Frames
  import opened Responder
  import opened BinaryRpc

  // Arguments are written as if their layout were unknown, and read as if it were known.

  lemma {:induction false} MembersAreAlike(fields: seq<Field>, ask: Ask, values: seq<Value>)
    requires |fields| == |values| && FieldsFit(fields, values)
    ensures FieldsEncoded(fields, Flags(true, ask), values) == FieldsEncoded(fields, Flags(false, ask), values)
    decreases |fields|
  {
    if fields != [] { MembersAreAlike(fields[1..], ask, values[1..]); }
  }

  /** What can be read with a known layout is written alike with and without. */
  lemma {:induction false} WrittenAlike(s: string, at: nat, schema: Schema, ask: Ask, depth: nat)
    requires ValueAt(s, at, schema, Flags(true, ask), depth).Got?
    ensures var v := ValueAt(s, at, schema, Flags(true, ask), depth).value;
            Encoded(schema, Flags(true, ask), v) == Encoded(schema, Flags(false, ask), v)
    decreases schema, 0
  {
    hide NumberAt, TextAt, BoolAt, SizeAt, ItemsRead, FieldsAt, FieldsEncoded, ItemsEncoded;
    var r := ValueAt(s, at, schema, Flags(true, ask), depth);
    if schema.Optional? {
      var present := BoolAt(s, at);
      if present.value { WrittenAlike(s, present.at, schema.inner, ask, depth); }
    } else if schema.Record? {
      MembersAreAlike(schema.fields, ask, r.value.values);
    } else if schema.Vector? {
      var size := SizeAt(s, at, ask);
      ItemsWrittenAlike(s, size.at, schema.inner, ask, depth + 1, ItemsRead(size.value));
    }
  }

  lemma {:induction false} ItemsWrittenAlike(s: string, at: nat, inner: Schema, ask: Ask, depth: nat, count: nat)
    requires ItemsAt(s, at, inner, Flags(true, ask), depth, count).Got?
    ensures var vs := ItemsAt(s, at, inner, Flags(true, ask), depth, count).value;
            ItemsEncoded(inner, Flags(true, ask), vs) == ItemsEncoded(inner, Flags(false, ask), vs)
    decreases inner, 1, count
  {
    hide ValueAt, Encoded, Fits;
    if count > 0 {
      var v := ValueAt(s, at, inner, Flags(true, ask), depth);
      WrittenAlike(s, at, inner, ask, depth);
      ItemsWrittenAlike(s, v.at, inner, ask, depth, count - 1);
      var vs := ItemsAt(s, v.at, inner, Flags(true, ask), depth, count - 1);
      assert ([v.value] + vs.value)[1..] == vs.value;
    }
  }

  lemma {:induction false} ArgumentsWrittenAlike(s: string, at: nat, fields: seq<Field>, ask: Ask)
    requires FieldsAt(s, at, fields, Flags(false, ask), 0).Got?
    ensures var vs := FieldsAt(s, at, fields, Flags(false, ask), 0).value;
            ArgumentsEncoded(fields, ask, vs) == FieldsEncoded(fields, Flags(false, ask), vs)
    decreases |fields|
  {
    hide ValueAt, Encoded, Fits;
    if fields != [] {
      var v := FieldAt(s, at, fields[0], Flags(false, ask), 0);
      WrittenAlike(s, at, fields[0].schema, Or(ask, fields[0].ask), 0);
      ArgumentsWrittenAlike(s, v.at, fields[1..], ask);
      var vs := FieldsAt(s, v.at, fields[1..], Flags(false, ask), 0);
      assert ([v.value] + vs.value)[1..] == vs.value;
    }
  }

  /** Arguments return exactly when they are plain. */
  lemma ArgumentsReturn(s: string, at: nat, fields: seq<Field>, ask: Ask, values: seq<Value>)
    requires |fields| == |values| && FieldsFit(fields, values)
    requires Has(s, at, ArgumentsEncoded(fields, ask, values))
    ensures FieldsAt(s, at, fields, Flags(false, ask), 0) == Got(values, at + |ArgumentsEncoded(fields, ask, values)|)
            <==> FieldsPlain(fields, Flags(false, ask), values, 0)
  {
    hide FieldsAt, FieldsPlain, FieldsEncoded, ArgumentsEncoded, FieldsFit;
    var flags := Flags(false, ask);
    if FieldsAt(s, at, fields, flags, 0).Got? && FieldsAt(s, at, fields, flags, 0).value == values {
      ArgumentsWrittenAlike(s, at, fields, ask);
      FieldsReturn(s, at, fields, flags, values, 0);
    }
    if FieldsPlain(fields, flags, values, 0) {
      var text := FieldsEncoded(fields, flags, values);
      assert text[0..|text|] == text;
      FieldsReturn(text, 0, fields, flags, values, 0);
      ArgumentsWrittenAlike(text, 0, fields, ask);
      FieldsReturn(s, at, fields, flags, values, 0);
    }
  }

  // The path.

  /** A method that can be named: a callable without children, each index on its path within a byte. */
  ghost predicate Nameable(t: Tree, x: nat)
    requires Valid(t)
  {
    && x < |t.parent| && t.children[x] == []
    && forall i <- IndexPath(t, x) :: i < 256
  }

  lemma IndexReads(s: string, at: nat, index: nat)
    requires index < 256 && Has(s, at, NumberBytes(UInt8, index))
    ensures NumberAt(s, at, UInt8) == Got(index, at + 1)
  {
    hide Bytes, Unsigned, Reading;
    NumberReads(s, at, UInt8, index);
    NumberReturns(UInt8, index);
  }

  lemma IndexBytesMore(before: seq<nat>, index: nat)
    ensures IndexBytes(before + [index]) == IndexBytes(before) + NumberBytes(UInt8, index)
  {
    assert (before + [index])[..|before|] == before;
  }

  /** The indices lead the server to the callable they were collected from. */
  lemma {:induction false} PathIsFollowed(t: Tree, s: string, at: nat, x: nat)
    requires Valid(t) && x < |t.parent|
    requires forall i <- IndexPath(t, x) :: i < 256
    requires Has(s, at, IndexBytes(IndexPath(t, x)))
    ensures Follow(t, s, at, ROOT) == Follow(t, s, at + |IndexPath(t, x)|, x)
    decreases x
  {
    hide NumberBytes, NumberAt, Follow, Has, IndexBytes;
    if t.parent[x] == NoCallable {
      assert x == ROOT;
    } else {
      var before, index := IndexPath(t, t.parent[x].node), OwnIndex(t, x);
      assert index in IndexPath(t, x) && forall i <- before :: i in IndexPath(t, x);
      IndexBytesMore(before, index);
      LastIndex(s, at, IndexBytes(before), index);
      PathIsFollowed(t, s, at, t.parent[x].node);
      OneStepDown(t, s, at + |before|, x);
    }
  }

  /** The index behind some text. */
  lemma LastIndex(s: string, at: nat, front: string, index: nat)
    requires index < 256 && Has(s, at, front + NumberBytes(UInt8, index))
    ensures Has(s, at, front)
    ensures at + |front| + 1 <= |s|
    ensures NumberAt(s, at + |front|, UInt8) == Got(index, at + |front| + 1)
  {
    hide Has, NumberBytes, NumberAt;
    HasParts(s, at, front, NumberBytes(UInt8, index));
    IndexReads(s, at + |front|, index);
  }

  lemma OneStepDown(t: Tree, s: string, at: nat, x: nat)
    requires Valid(t) && 0 < x < |t.parent| && at + 1 <= |s|
    requires NumberAt(s, at, UInt8) == Got(OwnIndex(t, x), at + 1)
    ensures Follow(t, s, at, t.parent[x].node) == Follow(t, s, at + 1, x)
  {
    var p, index := t.parent[x].node, OwnIndex(t, x);
    assert ChildAt(t, p, 0).Callable? && ChildAt(t, p, index) == Callable(x);
    hide Valid, ChildAt, NumberAt;
  }

  lemma PathArrives(t: Tree, s: string, at: nat, x: nat)
    requires Valid(t) && Nameable(t, x)
    requires Has(s, at, IndexBytes(IndexPath(t, x)))
    ensures Follow(t, s, at, ROOT) == Arrived(x, at + |IndexPath(t, x)|)
  {
    PathIsFollowed(t, s, at, x);
  }

  // The frame.

  /** A frame's parts are where they should be; its size field is right if the size fits into it. */
  lemma WrappedParts(order: nat, content: string, more: string)
    ensures var frame := Wrapped(NumberBytes(UInt32, order), content);
            && Token(frame + more) == order % 0x1_0000_0000
            && SizeField(frame + more) == |frame| % 0x1_0000
            && Has(frame + more, HEADER, content)
            && (IsFrame(frame) <==> |frame| < 0x1_0000)
  {
    hide Bytes, Unsigned, Span;
    var id, size := NumberBytes(UInt32, order), NumberBytes(UInt16, HEADER + |content|);
    var frame := Wrapped(id, content);
    BytesAreTheNumber(order, 4);
    BytesAreTheNumber(HEADER + |content|, 2);
    Spans();
    var all := frame + more;
    assert all[..4] == id == frame[..4] && all[4..6] == size == frame[4..6];
    assert all[HEADER..HEADER + |content|] == content;
  }

  /** Where the arguments begin. */
  function ArgumentsStart(service: Service, x: nat): nat
    requires Valid(service.tree) && x < |service.tree.parent|
  {
    HEADER + |IndexBytes(IndexPath(service.tree, x))|
  }

  lemma ContentParts(order: nat, path: string, tail: string, more: string)
    ensures var frame := Wrapped(NumberBytes(UInt32, order), path + tail);
            && Has(frame + more, HEADER, path)
            && Has(frame + more, HEADER + |path|, tail)
            && HEADER <= |frame + more|
            && SizeField(frame + more) <= |frame + more|
            && Token(frame + more) == order % 0x1_0000_0000
            && HEADER + |path| + |tail| == |frame|
  {
    hide Token, SizeField, Has, NumberBytes;
    var frame := Wrapped(NumberBytes(UInt32, order), path + tail);
    WrappedParts(order, path + tail, more);
    HasParts(frame + more, HEADER, path, tail);
  }

  /** The request gets the server as far as the call. */
  lemma RequestArrives(service: Service, order: nat, x: nat, arguments: seq<Value>, more: string)
    requires Proper(service) && Nameable(service.tree, x) && TakesArguments(service.signatures[x], arguments)
    ensures var input, signature := Request(service, order, x, arguments) + more, service.signatures[x];
            && HEADER <= |input| && SizeField(input) <= |input| && Token(input) == order % 0x1_0000_0000
            && Follow(service.tree, input, HEADER, ROOT) == Arrived(x, ArgumentsStart(service, x))
            && Has(input, ArgumentsStart(service, x), ArgumentsEncoded(signature.parameters, signature.ask, arguments))
  {
    var signature := service.signatures[x];
    hide IndexPath, IndexBytes, ArgumentsEncoded, FieldsFit, Follow, Has, Token, SizeField, Nameable, NumberBytes,
        Valid, Wrapped;
    var path := IndexBytes(IndexPath(service.tree, x));
    ContentParts(order, path, ArgumentsEncoded(signature.parameters, signature.ask, arguments), more);
    PathArrives(service.tree, Request(service, order, x, arguments) + more, HEADER, x);
  }

  lemma CallIsAnswered(service: Service, input: string, x: nat, at: nat, arguments: seq<Value>)
    requires Proper(service) && x < |service.signatures| && TakesArguments(service.signatures[x], arguments)
    requires var signature := service.signatures[x];
             HEADER <= |input| && Has(input, at, ArgumentsEncoded(signature.parameters, signature.ask, arguments))
    ensures var signature := service.signatures[x];
            var end := at + |ArgumentsEncoded(signature.parameters, signature.ask, arguments)|;
            CallAnswered(service, input, x, at)
            == Answer(Ok, end, (), input, [Called(x, arguments, Reply(service, Token(input), x, arguments))])
            <==> FieldsPlain(signature.parameters, Flags(false, signature.ask), arguments, 0)
  {
    hide ArgumentsEncoded, FieldsAt, FieldsPlain, FieldsFit, Reply, Has, Token, Valid;
    var signature := service.signatures[x];
    ArgumentsReturn(input, at, signature.parameters, signature.ask, arguments);
  }

  /** The request for a method makes the server call it with these arguments, use up exactly the frame and
      reply under the same id, whatever follows, exactly when the arguments are plain. */
  lemma RequestIsServed(service: Service, order: nat, x: nat, arguments: seq<Value>, more: string)
    requires Proper(service) && Nameable(service.tree, x) && TakesArguments(service.signatures[x], arguments)
    ensures var frame := Request(service, order, x, arguments);
            var signature := service.signatures[x];
            Answered(service, (), frame + more)
            == Answer(Ok, |frame|, (), frame + more,
                      [Called(x, arguments, Reply(service, order % 0x1_0000_0000, x, arguments))])
            <==> FieldsPlain(signature.parameters, Flags(false, signature.ask), arguments, 0)
  {
    var signature := service.signatures[x];
    hide IndexPath, IndexBytes, ArgumentsEncoded, CallAnswered, FieldsPlain, FieldsFit, Reply, Follow, Has, Token,
        SizeField, Nameable, NumberBytes, Valid;
    RequestArrives(service, order, x, arguments, more);
    CallIsAnswered(service, Request(service, order, x, arguments) + more, x, ArgumentsStart(service, x), arguments);
  }

  /** Every part of a request that lacks its end makes the server wait for more, exactly when the size of the
      request fits into its size field. */
  lemma PartsWait(service: Service, order: nat, x: nat, arguments: seq<Value>)
    requires Proper(service) && x < |service.signatures| && TakesArguments(service.signatures[x], arguments)
    ensures var frame := Request(service, order, x, arguments);
            (forall n :: 0 <= n < |frame| ==>
                Answered(service, (), frame[..n]) == Answer(ReadOn, 0, (), frame[..n], []))
            <==> |frame| < 0x1_0000
  {
    hide Follow, IndexPath, ArgumentsEncoded, FieldsAt, Reply, SizeField, Request;
    var frame := Request(service, order, x, arguments);
    forall n | HEADER <= n < |frame| ensures SizeField(frame[..n]) == |frame| % 0x1_0000 {
      SizeOfPart(service, order, x, arguments, n);
    }
    if |frame| >= 0x1_0000 {
      assert Answered(service, (), frame[..|frame| - 1]).reaction != ReadOn;
    }
  }

  lemma SizeOfPart(service: Service, order: nat, x: nat, arguments: seq<Value>, n: nat)
    requires Proper(service) && x < |service.signatures| && TakesArguments(service.signatures[x], arguments)
    requires HEADER <= n < |Request(service, order, x, arguments)|
    ensures SizeField(Request(service, order, x, arguments)[..n]) == |Request(service, order, x, arguments)| % 0x1_0000
  {
    hide IndexPath, ArgumentsEncoded, FieldsFit, Unsigned;
    var frame := Request(service, order, x, arguments);
    var content := frame[HEADER..];
    var signature := service.signatures[x];
    assert content == IndexBytes(IndexPath(service.tree, x))
        + ArgumentsEncoded(signature.parameters, signature.ask, arguments);
    WrappedParts(order, content, []);
    assert frame + [] == frame;
    assert frame[..n][4..6] == frame[4..6];
  }

  /** What the client reads in a reply is the procedure's result, exactly when that is plain. */
  lemma ResultReturns(service: Service, id: nat, x: nat, arguments: seq<Value>, more: string)
    requires Proper(service) && x < |service.signatures| && TakesArguments(service.signatures[x], arguments)
    requires service.signatures[x].result.Typed? && id < 0x1_0000_0000
    ensures var reply := Reply(service, id, x, arguments);
            var signature, result := service.signatures[x], service.procedure(x, arguments);
            && Token(reply + more) == id
            && (IsFrame(reply) <==> |reply| < 0x1_0000)
            && Fits(signature.result.schema, result)
            && (ValueAt(reply + more, HEADER, signature.result.schema, Flags(false, signature.ask), 0)
                == Got(result, |reply|)
                <==> Plain(signature.result.schema, Flags(false, signature.ask), result, 0))
  {
    hide ValueAt, Plain, Encoded, Fits, Token, SizeField, Has;
    var signature, result := service.signatures[x], service.procedure(x, arguments);
    WrappedParts(id, ResultEncoded(signature, result), more);
    BinaryRoundTrip.RoundTrip(Reply(service, id, x, arguments) + more, HEADER, signature.result.schema,
                              Flags(false, signature.ask), result, 0);
  }
}
