/**
  The binary format: what the typed serialisers write into it, and what they read. Layouts are
  schemas; flags travel down from a container to what it holds.
 */
module BinaryFormat {
  import opened Decimal
  import opened LittleEndian

  /** A numeric type that a flag asks for; the bits of several flags are or-ed together. */
  datatype Ask = Any | As(number: Number)

  datatype Flags = Flags(layoutKnown: bool, ask: Ask)

  datatype Schema =
    | Integer(own: Number)
    | Boolean
    | Text
    | Optional(inner: Schema)
    | Record(fields: seq<Field>)
    | Dictionary(inner: Schema)
    | Vector(inner: Schema)
  datatype Field = Field(ask: Ask, schema: Schema)

  /** A dictionary is the pairs that it is given, in order. */
  datatype Value =
    | Int(i: int)
    | Bool(b: bool)
    | Str(s: string)
    | None
    | Some(value: Value)
    | Struct(values: seq<Value>)
    | Dict(entries: seq<Entry>)
    | List(items: seq<Value>)
  datatype Entry = Entry(name: string, value: Value)

  function Code(t: Number): (code: nat)
    ensures code < 8
  {
    match t
    case Int8 => 0 case UInt8 => 1 case Int16 => 2 case UInt16 => 3
    case Int32 => 4 case UInt32 => 5 case Int64 => 6 case UInt64 => 7
  }

  function FromCode(code: nat): (t: Number)
    requires code < 8
    ensures Code(t) == code
  {
    if code == 0 then Int8 else if code == 1 then UInt8 else if code == 2 then Int16 else if code == 3 then UInt16
    else if code == 4 then Int32 else if code == 5 then UInt32 else if code == 6 then Int64 else UInt64
  }

  /** The bits of two codes. */
  function OrBits(a: nat, b: nat): (code: nat)
    requires a < 8 && b < 8
    ensures code < 8
  {
    (if a / 4 == 1 || b / 4 == 1 then 4 else 0)
    + (if a / 2 % 2 == 1 || b / 2 % 2 == 1 then 2 else 0)
    + (if a % 2 == 1 || b % 2 == 1 then 1 else 0)
  }

  function Or(a: Ask, b: Ask): Ask {
    if a.Any? then b else if b.Any? then a else As(FromCode(OrBits(Code(a.number), Code(b.number))))
  }

  function Together(ask: Ask, t: Number): Number {
    if ask.Any? then t else FromCode(OrBits(Code(ask.number), Code(t)))
  }

  /** The type an integer is written as: what the flags ask for, or its own. */
  function TypeOf(ask: Ask, own: Number): Number { if ask.Any? then own else ask.number }

  // Writing.

  function NumberBytes(t: Number, value: int): (s: string)
    ensures |s| == Width(t)
  {
    Bytes(value, Width(t))
  }

  /** A size is written once more when the flags ask for a numeric type. */
  function SizeBytes(ask: Ask, size: int): string {
    (if ask.As? then NumberBytes(ask.number, size) else []) + NumberBytes(Together(ask, UInt16), size)
  }

  function TextBytes(ask: Ask, s: string): string { SizeBytes(ask, |s|) + s }

  function BoolBytes(ask: Ask, b: bool): string { NumberBytes(Together(ask, Int8), if b then 1 else 0) }

  /** A value has the layout of a schema. */
  predicate Fits(schema: Schema, value: Value)
    decreases schema, 0
  {
    match schema
    case Integer(_) => value.Int?
    case Boolean => value.Bool?
    case Text => value.Str?
    case Optional(inner) => value.None? || (value.Some? && Fits(inner, value.value))
    case Record(fields) => value.Struct? && |value.values| == |fields| && FieldsFit(fields, value.values)
    case Dictionary(inner) => value.Dict? && forall e <- value.entries :: Fits(inner, e.value)
    case Vector(inner) => value.List? && forall v <- value.items :: Fits(inner, v)
  }

  predicate FieldsFit(fields: seq<Field>, values: seq<Value>)
    requires |fields| == |values|
    decreases fields, 1
  {
    fields == [] || (FieldFits(fields[0], values[0]) && FieldsFit(fields[1..], values[1..]))
  }

  predicate FieldFits(field: Field, value: Value)
    decreases field, 2
  {
    Fits(field.schema, value)
  }

  function Encoded(schema: Schema, flags: Flags, value: Value): string
    requires Fits(schema, value)
    decreases schema, 0
  {
    match schema
    case Integer(own) => NumberBytes(TypeOf(flags.ask, own), value.i)
    case Boolean => BoolBytes(flags.ask, value.b)
    case Text => TextBytes(flags.ask, value.s)
    case Optional(inner) =>
      BoolBytes(flags.ask, value.Some?) + if value.Some? then Encoded(inner, flags, value.value) else []
    case Record(fields) => FieldsEncoded(fields, flags, value.values)
    case Dictionary(inner) =>
      (if flags.layoutKnown then [] else SizeBytes(flags.ask, AsInt32(|value.entries|)))
          + EntriesEncoded(inner, flags, value.entries)
    case Vector(inner) => SizeBytes(flags.ask, AsInt32(|value.items|)) + ItemsEncoded(inner, flags, value.items)
  }

  function Inside(flags: Flags, field: Field): Flags { Flags(true, Or(flags.ask, field.ask)) }

  function FieldsEncoded(fields: seq<Field>, flags: Flags, values: seq<Value>): string
    requires |fields| == |values| && FieldsFit(fields, values)
    decreases fields, 1
  {
    if fields == [] then []
    else FieldEncoded(fields[0], flags, values[0]) + FieldsEncoded(fields[1..], flags, values[1..])
  }

  function FieldEncoded(field: Field, flags: Flags, value: Value): string
    requires FieldFits(field, value)
    decreases field, 2
  {
    Encoded(field.schema, Inside(flags, field), value)
  }

  function NameEncoded(flags: Flags, name: string): string {
    if flags.layoutKnown then [] else TextBytes(flags.ask, name)
  }

  function EntriesEncoded(inner: Schema, flags: Flags, entries: seq<Entry>): string
    requires forall e <- entries :: Fits(inner, e.value)
    decreases inner, 2, |entries|
  {
    if entries == [] then []
    else EntryEncoded(inner, flags, entries[0]) + EntriesEncoded(inner, flags, entries[1..])
  }

  function EntryEncoded(inner: Schema, flags: Flags, entry: Entry): string
    requires Fits(inner, entry.value)
    decreases inner, 1
  {
    NameEncoded(flags, entry.name) + Encoded(inner, flags, entry.value)
  }

  function ItemsEncoded(inner: Schema, flags: Flags, items: seq<Value>): string
    requires forall v <- items :: Fits(inner, v)
    decreases inner, 1, |items|
  {
    if items == [] then [] else Encoded(inner, flags, items[0]) + ItemsEncoded(inner, flags, items[1..])
  }

  // Reading.

  /** The faults: the input ends too early; arrays are nested too deep; a dictionary has no names because its
      layout passes for known; a record without fields asks to skip something. */
  datatype Fault = Incomplete | TooDeep | NoName | CannotSkip
  datatype Read<T> = Got(value: T, at: nat) | Failed(fault: Fault)

  const MAX_DEPTH := 3

  function NumberAt(s: string, at: nat, t: Number): (r: Read<int>)
    ensures r.Got? <==> at + Width(t) <= |s|
    ensures r.Got? ==> r.at == at + Width(t)
  {
    if at + Width(t) > |s| then Failed(Incomplete)
    else Got(Reading(t, Unsigned(s[at..at + Width(t)])), at + Width(t))
  }

  function SizeWidth(ask: Ask): nat {
    (if ask.As? then Width(ask.number) else 0) + Width(Together(ask, UInt16))
  }

  function SizeAt(s: string, at: nat, ask: Ask): (r: Read<int>)
    ensures r.Got? ==> r.at == at + SizeWidth(ask) <= |s|
  {
    if ask.Any? then NumberAt(s, at, UInt16)
    else
      var twice := NumberAt(s, at, ask.number);
      if twice.Failed? then twice else NumberAt(s, twice.at, Together(ask, UInt16))
  }

  function TextAt(s: string, at: nat, ask: Ask): (r: Read<string>)
    ensures r.Got? ==> r.at == at + SizeWidth(ask) + |r.value| <= |s|
  {
    var size := SizeAt(s, at, ask);
    if size.Failed? then Failed(size.fault)
    else if size.value < 0 || size.at + size.value > |s| then Failed(Incomplete)
    else Got(s[size.at..size.at + size.value], size.at + size.value)
  }

  function BoolAt(s: string, at: nat): (r: Read<bool>)
    ensures r.Got? ==> r.at == at + 1 <= |s|
  {
    if at + 1 > |s| then Failed(Incomplete) else Got(s[at] != '\0', at + 1)
  }

  /** `depth` is the number of arrays that are open, at most MAX_DEPTH. */
  function ValueAt(s: string, at: nat, schema: Schema, flags: Flags, depth: nat): (r: Read<Value>)
    ensures r.Got? ==> Fits(schema, r.value)
    decreases schema, 0
  {
    match schema
    case Integer(own) =>
      var n := NumberAt(s, at, TypeOf(flags.ask, own));
      if n.Failed? then Failed(n.fault) else Got(Int(n.value), n.at)
    case Boolean =>
      var b := BoolAt(s, at);
      if b.Failed? then Failed(b.fault) else Got(Bool(b.value), b.at)
    case Text =>
      var t := TextAt(s, at, flags.ask);
      if t.Failed? then Failed(t.fault) else Got(Str(t.value), t.at)
    case Optional(inner) =>
      var present := BoolAt(s, at);
      if present.Failed? then Failed(present.fault)
      else if !present.value then Got(None, present.at)
      else
        var v := ValueAt(s, present.at, inner, flags, depth);
        if v.Failed? then v else Got(Some(v.value), v.at)
    case Record(fields) =>
      if fields == [] then Failed(CannotSkip)
      else
        var vs := FieldsAt(s, at, fields, flags, depth);
        if vs.Failed? then Failed(vs.fault) else Got(Struct(vs.value), vs.at)
    case Dictionary(inner) =>
      if flags.layoutKnown then Failed(NoName)
      else
        var size := SizeAt(s, at, flags.ask);
        if size.Failed? then Failed(size.fault)
        else
          var es := EntriesAt(s, size.at, inner, flags, depth, if size.value < 0 then 0 else size.value);
          if es.Failed? then Failed(es.fault) else Got(Dict(es.value), es.at)
    case Vector(inner) =>
      if depth >= MAX_DEPTH then Failed(TooDeep)
      else
        var size := SizeAt(s, at, flags.ask);
        if size.Failed? then Failed(size.fault)
        else
          var vs := ItemsAt(s, size.at, inner, flags, depth + 1, ItemsRead(size.value));
          if vs.Failed? then Failed(vs.fault) else Got(List(vs.value), vs.at)
  }

  /** How many elements the loop over an array reads: the count is taken down before it is tested. */
  function ItemsRead(size: int): nat { var count := AsInt32(size) - 1; if count < 0 then 0 else count }

  function FieldsAt(s: string, at: nat, fields: seq<Field>, flags: Flags, depth: nat): (r: Read<seq<Value>>)
    ensures r.Got? ==> |r.value| == |fields| && FieldsFit(fields, r.value)
    decreases fields, 1
  {
    if fields == [] then Got([], at)
    else
      var v := FieldAt(s, at, fields[0], flags, depth);
      if v.Failed? then Failed(v.fault)
      else
        var vs := FieldsAt(s, v.at, fields[1..], flags, depth);
        if vs.Failed? then vs else Got([v.value] + vs.value, vs.at)
  }

  function FieldAt(s: string, at: nat, field: Field, flags: Flags, depth: nat): (r: Read<Value>)
    ensures r.Got? ==> FieldFits(field, r.value)
    decreases field, 2
  {
    ValueAt(s, at, field.schema, Inside(flags, field), depth)
  }

  function EntryAt(s: string, at: nat, inner: Schema, flags: Flags, depth: nat): (r: Read<Entry>)
    ensures r.Got? ==> Fits(inner, r.value.value)
    decreases inner, 1
  {
    var name := TextAt(s, at, flags.ask);
    if name.Failed? then Failed(name.fault)
    else
      var v := ValueAt(s, name.at, inner, flags, depth);
      if v.Failed? then Failed(v.fault) else Got(Entry(name.value, v.value), v.at)
  }

  function EntriesAt(s: string, at: nat, inner: Schema, flags: Flags, depth: nat, count: nat): (r: Read<seq<Entry>>)
    ensures r.Got? ==> |r.value| == count && forall e <- r.value :: Fits(inner, e.value)
    decreases inner, 2, count
  {
    if count == 0 then Got([], at)
    else
      var e := EntryAt(s, at, inner, flags, depth);
      if e.Failed? then Failed(e.fault)
      else
        var es := EntriesAt(s, e.at, inner, flags, depth, count - 1);
        if es.Failed? then es else Got([e.value] + es.value, es.at)
  }

  function ItemsAt(s: string, at: nat, inner: Schema, flags: Flags, depth: nat, count: nat): (r: Read<seq<Value>>)
    ensures r.Got? ==> |r.value| == count && forall v <- r.value :: Fits(inner, v)
    decreases inner, 2, count
  {
    if count == 0 then Got([], at)
    else
      var v := ValueAt(s, at, inner, flags, depth);
      if v.Failed? then Failed(v.fault)
      else
        var vs := ItemsAt(s, v.at, inner, flags, depth, count - 1);
        if vs.Failed? then vs else Got([v.value] + vs.value, vs.at)
  }
}
