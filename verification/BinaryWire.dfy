/**
  The binary protocol on the wire, byte by byte; and what is made of bytes that nobody wrote: too few of them, nested
  too deep, or leading astray.
 */
module BinaryWire {
  import opened LittleEndian
  import opened BinaryFormat
  import opened Callables
  import opened Frames
  import opened Responder
  import opened BinaryRpc

  // Numbers.

  function OneByte(n: int): string { [(n % 256) as char] }

  function TwoBytes(n: int): string { [(n % 256) as char, (n / 256 % 256) as char] }

  function FourBytes(n: int): string {
    [(n % 256) as char, (n / 0x100 % 256) as char, (n / 0x1_0000 % 256) as char, (n / 0x100_0000 % 256) as char]
  }

  /** The lowest byte first, in as many bytes as the type has. */
  lemma {:induction false} LowestFirst(value: int, width: nat, k: nat)
    requires k < width
    ensures Bytes(value, width)[k] == (value / Span(k) % 256) as char
    decreases width
  {
    if k > 0 {
      LowestFirst(value / 256, width - 1, k - 1);
      DividedTwice(value, Span(k - 1));
    }
  }

  lemma DividedTwice(value: int, span: nat)
    requires span > 0
    ensures value / 256 / span == value / (256 * span)
  {
    var q, r := value / 256, value % 256;
    var a, b := q / span, q % span;
    assert value == 256 * q + r && q == span * a + b;
    assert 256 * (span * a) == (256 * span) * a;
    assert value == (256 * span) * a + (256 * b + r);
    assert 0 <= 256 * b + r < 256 * span;
    QuotientIs(value, 256 * span, a, 256 * b + r);
  }

  lemma QuotientIs(value: int, d: nat, a: int, r: nat)
    requires d > 0 && value == d * a + r && r < d
    ensures value / d == a
  {
    RemainderIs(value, d, a, r);
    assert d * (value / d) == d * a;
    Distributes(d, value / d, a);
    NoSmallMultiple(d, value / d - a);
  }

  lemma SmallSpans()
    ensures Span(0) == 1 && Span(1) == 0x100 && Span(2) == 0x1_0000 && Span(3) == 0x100_0000
  {
    assert Span(2) == 256 * Span(1);
    assert Span(3) == 256 * Span(2);
  }

  lemma NumbersOnTheWire(t: Number, value: int)
    ensures t == Int8 || t == UInt8 ==> NumberBytes(t, value) == OneByte(value)
    ensures t == Int16 || t == UInt16 ==> NumberBytes(t, value) == TwoBytes(value)
    ensures t == Int32 || t == UInt32 ==> NumberBytes(t, value) == FourBytes(value)
    ensures t == Int64 || t == UInt64 ==>
              NumberBytes(t, value) == FourBytes(value) + FourBytes(value / 0x1_0000 / 0x1_0000)
  {
    hide Bytes, Span;
    SmallSpans();
    var w := Width(t);
    forall k | 0 <= k < w ensures Bytes(value, w)[k] == (value / Span(k) % 256) as char { LowestFirst(value, w, k); }
    if w == 8 { UpperHalf(value); }
  }

  lemma UpperHalf(value: int)
    ensures forall k | 0 <= k < 4 :: value / Span(k + 4) == value / 0x1_0000 / 0x1_0000 / Span(k)
  {
    hide Span;
    forall k | 0 <= k < 4 ensures value / Span(k + 4) == value / 0x1_0000 / 0x1_0000 / Span(k) {
      SpanStep(k);
      SpanStep(k + 1);
      SpanStep(k + 2);
      SpanStep(k + 3);
      FourTimes(value, Span(k));
    }
  }

  lemma SpanStep(k: nat)
    ensures Span(k + 1) == 256 * Span(k)
  {
  }

  lemma FourTimes(value: int, span: nat)
    requires span > 0
    ensures value / (256 * (256 * (256 * (256 * span)))) == value / 0x1_0000 / 0x1_0000 / span
  {
    DividedTwice(value, 256 * (256 * (256 * span)));
    DividedTwice(value / 256, 256 * (256 * span));
    DividedTwice(value / 256 / 256, 256 * span);
    DividedTwice(value / 256 / 256 / 256, span);
    assert value / 256 / 256 == value / 0x1_0000;
  }

  // And back.

  function FromTwo(s: string, at: nat): nat
    requires at + 2 <= |s|
  {
    s[at] as int + 0x100 * s[at + 1] as int
  }

  function FromFour(s: string, at: nat): nat
    requires at + 4 <= |s|
  {
    FromTwo(s, at) + 0x1_0000 * FromTwo(s, at + 2)
  }

  function FromEight(s: string, at: nat): nat
    requires at + 8 <= |s|
  {
    FromFour(s, at) + 0x1_0000_0000 * FromFour(s, at + 4)
  }

  /** Two's complement: the upper half of the values is below zero. */
  function Signed(n: nat, values: nat): int { if n < values / 2 then n else n - values }

  /** What the bytes of each type are read as; types of eight bytes are passed on with a sign. */
  lemma NumbersFromTheWire(s: string, at: nat)
    requires forall i :: 0 <= i < |s| ==> s[i] as int < 256
    ensures at + 1 <= |s| ==> NumberAt(s, at, UInt8) == Got(s[at] as int, at + 1)
                              && NumberAt(s, at, Int8) == Got(Signed(s[at] as int, 0x100), at + 1)
    ensures at + 2 <= |s| ==> NumberAt(s, at, UInt16) == Got(FromTwo(s, at), at + 2)
                              && NumberAt(s, at, Int16) == Got(Signed(FromTwo(s, at), 0x1_0000), at + 2)
    ensures at + 4 <= |s| ==> NumberAt(s, at, UInt32) == Got(FromFour(s, at), at + 4)
                              && NumberAt(s, at, Int32) == Got(Signed(FromFour(s, at), 0x1_0000_0000), at + 4)
    ensures at + 8 <= |s| ==> var n := Signed(FromEight(s, at), 0x1_0000_0000_0000_0000);
                              NumberAt(s, at, UInt64) == NumberAt(s, at, Int64) == Got(n, at + 8)
  {
    hide Unsigned, Span;
    Spans();
    if at + 1 <= |s| { FirstBytes(s, at); }
  }

  lemma FirstBytes(s: string, at: nat)
    requires at < |s| && forall i :: 0 <= i < |s| ==> s[i] as int < 256
    ensures Unsigned(s[at..at + 1]) == s[at] as int
    ensures at + 2 <= |s| ==> Unsigned(s[at..at + 2]) == FromTwo(s, at)
    ensures at + 4 <= |s| ==> Unsigned(s[at..at + 4]) == FromFour(s, at)
    ensures at + 8 <= |s| ==> Unsigned(s[at..at + 8]) == FromEight(s, at)
  {
    hide Unsigned;
    FirstByte(s, at, at + 1);
    NoBytes(s, at + 1);
    if at + 2 <= |s| { FirstByte(s, at, at + 2); FirstByte(s, at + 1, at + 2); NoBytes(s, at + 2); }
    if at + 4 <= |s| { FourMore(s, at, at + 4); NoBytes(s, at + 4); }
    if at + 8 <= |s| { FourMore(s, at, at + 8); FourMore(s, at + 4, at + 8); NoBytes(s, at + 8); }
  }

  lemma NoBytes(s: string, at: nat)
    requires at <= |s|
    ensures Unsigned(s[at..at]) == 0
  {
  }

  lemma FirstByte(s: string, at: nat, end: nat)
    requires at < end <= |s| && s[at] as int < 256
    ensures Unsigned(s[at..end]) == s[at] as int + 256 * Unsigned(s[at + 1..end])
  {
    assert s[at..end][1..] == s[at + 1..end];
  }

  lemma FourMore(s: string, at: nat, end: nat)
    requires at + 4 <= end <= |s| && forall i :: 0 <= i < |s| ==> s[i] as int < 256
    ensures Unsigned(s[at..end]) == FromFour(s, at) + 0x1_0000_0000 * Unsigned(s[at + 4..end])
  {
    hide Unsigned;
    FirstByte(s, at, end);
    FirstByte(s, at + 1, end);
    FirstByte(s, at + 2, end);
    FirstByte(s, at + 3, end);
  }

  predicate IsUnsigned(t: Number) { t in {UInt8, UInt16, UInt32, UInt64} }

  /** Two numeric flags at once: unsigned if one of them is, and as wide as the wider, but four times that for
      widths of two and four bytes together. */
  lemma FlagsTogether(a: Number, b: Number)
    ensures Or(As(a), As(b)) == As(Together(As(a), b)) && Together(Any, b) == b
    ensures Or(Any, As(b)) == As(b) == Or(As(b), Any)
    ensures IsUnsigned(Together(As(a), b)) <==> IsUnsigned(a) || IsUnsigned(b)
    ensures Width(Together(As(a), b)) ==
            if {Width(a), Width(b)} == {2, 4} then 8 else if Width(a) < Width(b) then Width(b) else Width(a)
  {
    assert 2 in {Width(a), Width(b)} <==> Width(a) == 2 || Width(b) == 2;
    assert 4 in {Width(a), Width(b)} <==> Width(a) == 4 || Width(b) == 4;
  }

  // Values.

  /** Without numeric flags a size has two bytes; with one, the size is there twice. */
  lemma SizesOnTheWire(ask: Ask, size: int)
    ensures ask == Any ==> SizeBytes(ask, size) == TwoBytes(size)
    ensures ask.As? && Width(ask.number) <= 2 ==> SizeBytes(ask, size) == NumberBytes(ask.number, size) + TwoBytes(size)
    ensures ask.As? && Width(ask.number) > 2 ==>
              SizeBytes(ask, size) == NumberBytes(ask.number, size) + NumberBytes(UInt64, size)
  {
    hide NumberBytes;
    NumbersOnTheWire(UInt16, size);
  }

  /** Each kind of value, from what it holds. */
  lemma ValuesOnTheWire(flags: Flags, text: string, b: bool, i: int, own: Number)
    ensures Encoded(Text, flags, Str(text)) == SizeBytes(flags.ask, |text|) + text
    ensures Encoded(Boolean, flags, Bool(b)) == NumberBytes(Together(flags.ask, Int8), if b then 1 else 0)
    ensures flags.ask == Any ==> Encoded(Boolean, flags, Bool(b)) == if b then "\U{0001}" else "\0"
    ensures Encoded(Integer(own), flags, Int(i)) == NumberBytes(if flags.ask.Any? then own else flags.ask.number, i)
  {
    hide NumberBytes, SizeBytes;
    NumbersOnTheWire(Int8, if b then 1 else 0);
  }

  lemma OptionOnTheWire(inner: Schema, flags: Flags, v: Value)
    requires Fits(inner, v)
    ensures Encoded(Optional(inner), flags, None) == Encoded(Boolean, flags, Bool(false))
    ensures Encoded(Optional(inner), flags, Some(v)) == Encoded(Boolean, flags, Bool(true)) + Encoded(inner, flags, v)
  {
    hide NumberBytes;
    var absent := Encoded(Boolean, flags, Bool(false));
    assert absent + [] == absent;
  }

  /** A record is the row of its members, without sizes or names. */
  lemma RecordOnTheWire(field: Field, fields: seq<Field>, flags: Flags, v: Value, vs: seq<Value>)
    requires Fits(field.schema, v) && |fields| == |vs| && FieldsFit(fields, vs)
    ensures Fits(Record([field] + fields), Struct([v] + vs)) && Fits(Record([]), Struct([]))
    ensures Encoded(Record([]), flags, Struct([])) == []
    ensures Encoded(Record([field] + fields), flags, Struct([v] + vs))
         == Encoded(field.schema, Flags(true, Or(flags.ask, field.ask)), v) + FieldsEncoded(fields, flags, vs)
  {
    hide Encoded, Fits;
    var fs, values := [field] + fields, [v] + vs;
    assert fs[0] == field && fs[1..] == fields && values[0] == v && values[1..] == vs;
    RecordParts(fs, values, flags);
    RecordParts([], [], flags);
  }

  lemma RecordParts(fields: seq<Field>, vs: seq<Value>, flags: Flags)
    requires |fields| == |vs| && FieldsFit(fields, vs)
    ensures Fits(Record(fields), Struct(vs))
    ensures Encoded(Record(fields), flags, Struct(vs)) == FieldsEncoded(fields, flags, vs)
  {
  }

  /** A dictionary is its count, and then the names and values in turn; in a record only the values. */
  lemma DictionaryOnTheWire(inner: Schema, ask: Ask, entry: Entry, entries: seq<Entry>)
    requires Fits(inner, entry.value) && (forall e <- entries :: Fits(inner, e.value)) && |entries| < 0x7fff_ffff
    ensures Fits(Dictionary(inner), Dict([entry] + entries))
    ensures Encoded(Dictionary(inner), Flags(false, ask), Dict([entry] + entries))
         == SizeBytes(ask, 1 + |entries|) + (SizeBytes(ask, |entry.name|) + entry.name
                                             + Encoded(inner, Flags(false, ask), entry.value)
                                             + EntriesEncoded(inner, Flags(false, ask), entries))
    ensures EntriesEncoded(inner, Flags(false, ask), []) == EntriesEncoded(inner, Flags(true, ask), []) == []
    ensures Encoded(Dictionary(inner), Flags(true, ask), Dict([entry] + entries))
         == Encoded(inner, Flags(true, ask), entry.value) + EntriesEncoded(inner, Flags(true, ask), entries)
  {
    hide Encoded, Fits, SizeBytes, EntriesEncoded;
    var es := [entry] + entries;
    FirstEntry(inner, Flags(false, ask), entry, entries);
    FirstEntry(inner, Flags(true, ask), entry, entries);
    DictionaryParts(inner, Flags(false, ask), es);
    DictionaryParts(inner, Flags(true, ask), es);
  }

  lemma FirstEntry(inner: Schema, flags: Flags, entry: Entry, entries: seq<Entry>)
    requires Fits(inner, entry.value) && forall e <- entries :: Fits(inner, e.value)
    ensures EntriesEncoded(inner, flags, []) == []
    ensures EntriesEncoded(inner, flags, [entry] + entries)
         == (if flags.layoutKnown then [] else SizeBytes(flags.ask, |entry.name|) + entry.name)
            + Encoded(inner, flags, entry.value) + EntriesEncoded(inner, flags, entries)
  {
    hide Encoded, Fits, SizeBytes;
    var es := [entry] + entries;
    assert es[0] == entry && es[1..] == entries;
  }

  lemma DictionaryParts(inner: Schema, flags: Flags, es: seq<Entry>)
    requires (forall e <- es :: Fits(inner, e.value)) && |es| < 0x8000_0000
    ensures Fits(Dictionary(inner), Dict(es))
    ensures Encoded(Dictionary(inner), flags, Dict(es))
         == (if flags.layoutKnown then [] else SizeBytes(flags.ask, |es|)) + EntriesEncoded(inner, flags, es)
  {
    hide SizeBytes, EntriesEncoded;
  }

  /** An array is its count and its elements. */
  lemma ArrayOnTheWire(inner: Schema, flags: Flags, v: Value, vs: seq<Value>)
    requires Fits(inner, v) && (forall w <- vs :: Fits(inner, w)) && |vs| < 0x7fff_ffff
    ensures Fits(Vector(inner), List([v] + vs)) && ItemsEncoded(inner, flags, []) == []
    ensures Encoded(Vector(inner), flags, List([v] + vs))
         == SizeBytes(flags.ask, 1 + |vs|) + (Encoded(inner, flags, v) + ItemsEncoded(inner, flags, vs))
  {
    hide Encoded, Fits, SizeBytes;
    var items := [v] + vs;
    assert items[0] == v && items[1..] == vs;
    ArrayParts(inner, flags, items);
  }

  /** The arguments of a call are written one after another, dictionaries among them with counts and names. */
  lemma ArgumentsOnTheWire(field: Field, fields: seq<Field>, ask: Ask, v: Value, vs: seq<Value>)
    requires Fits(field.schema, v) && |fields| == |vs| && FieldsFit(fields, vs)
    ensures FieldsFit([field] + fields, [v] + vs) && ArgumentsEncoded([], ask, []) == []
    ensures ArgumentsEncoded([field] + fields, ask, [v] + vs)
         == Encoded(field.schema, Flags(false, Or(ask, field.ask)), v) + ArgumentsEncoded(fields, ask, vs)
  {
    hide Encoded, Fits, Or;
    var fs, values := [field] + fields, [v] + vs;
    assert fs[0] == field && fs[1..] == fields && values[0] == v && values[1..] == vs;
  }

  lemma ArrayParts(inner: Schema, flags: Flags, vs: seq<Value>)
    requires (forall v <- vs :: Fits(inner, v)) && |vs| < 0x8000_0000
    ensures Fits(Vector(inner), List(vs))
    ensures Encoded(Vector(inner), flags, List(vs)) == SizeBytes(flags.ask, |vs|) + ItemsEncoded(inner, flags, vs)
  {
    hide SizeBytes, ItemsEncoded;
  }

  // Frames.

  /** Numbers from their bytes. */
  lemma FrontsFromBytes(data: string)
    requires 6 <= |data| && forall i :: 0 <= i < 6 ==> data[i] as int < 256
    ensures Token(data) == data[0] as int + 0x100 * data[1] as int + 0x1_0000 * data[2] as int
                           + 0x100_0000 * data[3] as int
    ensures SizeField(data) == data[4] as int + 0x100 * data[5] as int
  {
    var a, b := data[..4], data[4..6];
    assert a[1..][1..] == [data[2], data[3]] && a[1..][1..][1..] == [data[3]] && b[1..] == [data[5]];
    assert Unsigned([data[3]]) == data[3] as int by { assert [data[3]][1..] == []; }
    assert Unsigned([data[5]]) == data[5] as int by { assert [data[5]][1..] == []; }
    assert Unsigned(a[1..][1..]) == data[2] as int + 256 * data[3] as int;
    assert Unsigned(a[1..]) == data[1] as int + 256 * (data[2] as int + 256 * data[3] as int);
  }

  /** The indices as they are sent, each in a byte. */
  function Sent(indices: seq<nat>): string {
    seq(|indices|, i requires 0 <= i < |indices| => (indices[i] % 256) as char)
  }

  lemma {:induction false} IndicesAreSent(indices: seq<nat>)
    ensures IndexBytes(indices) == Sent(indices)
    decreases |indices|
  {
    if indices != [] {
      var front := indices[..|indices| - 1];
      IndicesAreSent(front);
      NumbersOnTheWire(UInt8, indices[|indices| - 1]);
    }
  }

  /** A request is its id, its size, the indices that lead to the method and the arguments; a reply the same
      without indices, with the result. */
  lemma FramesOnTheWire(service: Service, order: nat, x: nat, arguments: seq<Value>)
    requires Proper(service) && x < |service.signatures| && TakesArguments(service.signatures[x], arguments)
    ensures var signature := service.signatures[x];
            var path := IndexPath(service.tree, x);
            var rest := ArgumentsEncoded(signature.parameters, signature.ask, arguments);
            Request(service, order, x, arguments)
            == FourBytes(order) + TwoBytes(6 + (|path| + |rest|)) + (Sent(path) + rest)
    ensures var signature, result := service.signatures[x], service.procedure(x, arguments);
            var rest := if signature.result.Void? then []
                        else Encoded(signature.result.schema, Flags(false, signature.ask), result);
            Reply(service, order, x, arguments) == FourBytes(order) + TwoBytes(6 + |rest|) + rest
  {
    hide Encoded, ArgumentsEncoded, IndexPath, NumberBytes, IndexBytes, FieldsFit, Fits, Valid, FourBytes, TwoBytes;
    var signature := service.signatures[x];
    var path, rest := IndexPath(service.tree, x), ArgumentsEncoded(signature.parameters, signature.ask, arguments);
    IndicesAreSent(path);
    assert |IndexBytes(path) + rest| == |path| + |rest|;
    NumbersOnTheWire(UInt32, order);
    NumbersOnTheWire(UInt16, 6 + (|path| + |rest|));
    NumbersOnTheWire(UInt16, 6 + |ResultEncoded(signature, service.procedure(x, arguments))|);
  }

  // The way down.

  /** Down the tree from a callable, each byte the number of a child. */
  function Down(t: Tree, node: nat, way: string): Link
    decreases |way|
  {
    if way == [] then Callable(node)
    else if node < |t.children| && way[0] as int < |t.children[node]|
      then Down(t, t.children[node][way[0] as int], way[1..])
    else NoCallable
  }

  predicate IsLeaf(t: Tree, node: nat) { node < |t.children| && t.children[node] == [] }

  /** Down to a callable with children, and then a number that none of them has. */
  predicate LeadsAstray(t: Tree, node: nat, way: string, next: char) {
    var link := Down(t, node, way);
    && link.Callable? && link.node < |t.children| && t.children[link.node] != []
    && Down(t, node, way + [next]) == NoCallable
  }

  predicate LeadsTo(t: Tree, s: string, at: nat, node: nat, f: Followed)
    requires at <= |s|
  {
    match f
    case Arrived(x, end) => IsLeaf(t, x) && at <= end <= |s| && Down(t, node, s[at..end]) == Callable(x)
    case Astray => exists end :: at <= end < |s| && LeadsAstray(t, node, s[at..end], s[end])
    case CutShort => var link := Down(t, node, s[at..]); link.Callable? && !IsLeaf(t, link.node)
  }

  /** All that the indices of a request can lead to, on any input: exactly down to a callable without children; to
      a number that is no child's; or to the end of the input above such a callable. */
  lemma {:induction false} WhereItLeads(t: Tree, s: string, at: nat, node: nat)
    requires Valid(t) && node < |t.parent| && at <= |s|
    requires forall i :: at <= i < |s| ==> s[i] as int < 256
    ensures LeadsTo(t, s, at, node, Follow(t, s, at, node))
    decreases |s| - at
  {
    hide Valid, NumberAt, Down, LeadsTo;
    ChildIsThere(t, node);
    AsManyChildren(t);
    if at == |s| || t.children[node] == [] {
      EndsHere(t, s, at, node);
    } else {
      ByteRead(s, at);
      var k := s[at] as int;
      if k >= |t.children[node]| {
        EndsHere(t, s, at, node);
      } else {
        var child := t.children[node][k];
        assert ChildAt(t, node, k) == Callable(child);
        WhereItLeads(t, s, at + 1, child);
        OneStepFurther(t, s, at, node, Follow(t, s, at + 1, child));
      }
    }
  }

  lemma AsManyChildren(t: Tree)
    requires Valid(t)
    ensures |t.children| == |t.parent|
  {
  }

  lemma EndsHere(t: Tree, s: string, at: nat, node: nat)
    requires at <= |s| && node < |t.children|
    ensures t.children[node] == [] ==> LeadsTo(t, s, at, node, Arrived(node, at))
    ensures t.children[node] != [] && at == |s| ==> LeadsTo(t, s, at, node, CutShort)
    ensures t.children[node] != [] && at < |s| && |t.children[node]| <= s[at] as int ==> LeadsTo(t, s, at, node, Astray)
  {
    assert s[at..at] == [];
    if t.children[node] != [] && at < |s| && |t.children[node]| <= s[at] as int {
      assert [] + [s[at]] == [s[at]];
      assert LeadsAstray(t, node, s[at..at], s[at]);
    }
  }

  lemma OneStepFurther(t: Tree, s: string, at: nat, node: nat, f: Followed)
    requires node < |t.children| && at < |s| && s[at] as int < |t.children[node]|
    requires LeadsTo(t, s, at + 1, t.children[node][s[at] as int], f)
    ensures LeadsTo(t, s, at, node, f)
  {
    hide Down, IsLeaf;
    OneDown(t, s, at, node);
    match f
    case Arrived(_, _) =>
    case Astray =>
      var child := t.children[node][s[at] as int];
      var end :| at + 1 <= end < |s| && LeadsAstray(t, child, s[at + 1..end], s[end]);
      assert LeadsAstray(t, node, s[at..end], s[end]);
    case CutShort => assert s[at..|s|] == s[at..] && s[at + 1..|s|] == s[at + 1..];
  }

  lemma ByteRead(s: string, at: nat)
    requires at < |s| && s[at] as int < 256
    ensures NumberAt(s, at, UInt8) == Got(s[at] as int, at + 1)
  {
    assert s[at..at + 1] == [s[at]] && [s[at]][1..] == [];
    assert Unsigned([s[at]]) == s[at] as int % 256 + 256 * Unsigned([]);
  }

  lemma OneDown(t: Tree, s: string, at: nat, node: nat)
    requires node < |t.children| && at < |s| && s[at] as int < |t.children[node]|
    ensures forall end :: at < end <= |s| ==>
              Down(t, node, s[at..end]) == Down(t, t.children[node][s[at] as int], s[at + 1..end])
    ensures forall end :: at < end < |s| ==>
              Down(t, node, s[at..end] + [s[end]])
              == Down(t, t.children[node][s[at] as int], s[at + 1..end] + [s[end]])
  {
    forall end | at < end <= |s|
      ensures Down(t, node, s[at..end]) == Down(t, t.children[node][s[at] as int], s[at + 1..end])
    {
      assert s[at..end][1..] == s[at + 1..end];
    }
    forall end | at < end < |s|
      ensures Down(t, node, s[at..end] + [s[end]])
           == Down(t, t.children[node][s[at] as int], s[at + 1..end] + [s[end]])
    {
      assert (s[at..end] + [s[end]])[1..] == s[at + 1..end] + [s[end]];
    }
  }

  /** The indices that the client collects lead down to the method. */
  lemma {:induction false} PathLeadsDown(t: Tree, x: nat)
    requires Valid(t) && x < |t.parent| && forall i <- IndexPath(t, x) :: i < 256
    ensures Down(t, ROOT, Sent(IndexPath(t, x))) == Callable(x)
    decreases x
  {
    if x != ROOT {
      var p, index := t.parent[x].node, OwnIndex(t, x);
      var before := IndexPath(t, p);
      assert index in IndexPath(t, x) && forall i <- before :: i in IndexPath(t, x);
      PathLeadsDown(t, p);
      assert Sent(IndexPath(t, x)) == Sent(before) + [index as char];
      DownFurther(t, ROOT, Sent(before), index as char);
    }
  }

  lemma {:induction false} DownFurther(t: Tree, node: nat, way: string, next: char)
    requires Down(t, node, way).Callable?
    ensures Down(t, node, way + [next]) == Down(t, Down(t, node, way).node, [next])
    decreases |way|
  {
    if way == [] {
      assert way + [next] == [next];
    } else {
      assert (way + [next])[1..] == way[1..] + [next];
      DownFurther(t, t.children[node][way[0] as int], way[1..], next);
    }
  }

  // The server.

  /** Where the size that a frame states is not there yet. */
  predicate IsPart(input: string) {
    |input| < 6 || |input| < input[4] as int + 0x100 * input[5] as int
  }

  /** What the server does about any bytes: it waits for the size that is stated; then it calls the one callable
      without children that the indices lead down to, with what it reads as arguments, or closes the connection if
      they lead to no child; whatever ends too early is an error. It never looks at more than the indices and
      arguments take. */
  lemma EveryAnswer(service: Service, input: string)
    requires Proper(service) && forall i :: 0 <= i < |input| ==> input[i] as int < 256
    ensures var a := Answered(service, (), input);
            && (IsPart(input) ==> a == Answer(ReadOn, 0, (), input, []))
            && (!IsPart(input) ==>
                  a.reaction in {Ok, Disconnect, Thrown} && (a.reaction != Ok ==> a.consumed == 0 && a.events == []))
            && (!IsPart(input) && a.reaction == Ok ==> IsCall(service, input, a))
            && (!IsPart(input) && a.reaction == Disconnect ==>
                  exists end :: 6 <= end < |input| && LeadsAstray(service.tree, ROOT, input[6..end], input[end]))
            && (!IsPart(input) && a.reaction == Thrown ==> EndsEarly(service, input))
  {
    hide FieldsAt, Reply, FieldsFit, Down, Unsigned, Follow;
    if |input| >= 6 {
      FrontsFromBytes(input);
      if !IsPart(input) {
        RootIsThere(service);
        WhereItLeads(service.tree, input, 6, ROOT);
        if Follow(service.tree, input, 6, ROOT).Arrived? { LeafIsCalled(service, input); }
      }
    }
  }

  /** One call, of a callable without children, by the numbers that lead to it, under the id in the frame. */
  predicate IsCall(service: Service, input: string, a: Answer<(), Event>)
    requires Proper(service) && 6 <= |input|
  {
    && |a.events| == 1
    && var Called(x, arguments, reply) := a.events[0];
       && x < |service.signatures| && IsLeaf(service.tree, x) && TakesArguments(service.signatures[x], arguments)
       && (exists end ::
             && 6 <= end <= |input| && Down(service.tree, ROOT, input[6..end]) == Callable(x)
             && ArgumentsRead(service, input, x, end) == Got(arguments, a.consumed))
       && reply == Reply(service, Token(input), x, arguments)
  }

  function ArgumentsRead(service: Service, input: string, x: nat, at: nat): Read<seq<Value>>
    requires x < |service.signatures|
  {
    FieldsAt(input, at, service.signatures[x].parameters, Flags(false, service.signatures[x].ask), 0)
  }

  predicate EndsEarly(service: Service, input: string)
    requires Proper(service) && 6 <= |input|
  {
    || (var link := Down(service.tree, ROOT, input[6..]); link.Callable? && !IsLeaf(service.tree, link.node))
    || exists end :: 6 <= end <= |input|
         && var link := Down(service.tree, ROOT, input[6..end]);
            link.Callable? && link.node < |service.signatures| && IsLeaf(service.tree, link.node)
            && ArgumentsRead(service, input, link.node, end).Failed?
  }

  lemma LeafIsCalled(service: Service, input: string)
    requires Proper(service) && 6 <= |input| && SizeField(input) <= |input|
    requires var f := Follow(service.tree, input, 6, ROOT);
             f.Arrived? && IsLeaf(service.tree, f.callable) && Down(service.tree, ROOT, input[6..f.at])
             == Callable(f.callable)
    ensures var a := Answered(service, (), input);
            if a.reaction == Ok then IsCall(service, input, a) else a.reaction == Thrown && EndsEarly(service, input)
  {
    hide FieldsAt, Reply, FieldsFit, Down, Token, SizeField, Valid, Follow;
    var f := Follow(service.tree, input, 6, ROOT);
    var r := ArgumentsRead(service, input, f.callable, f.at);
    assert f.at <= |input|;
  }
}
