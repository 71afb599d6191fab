/**
  What the reader of the binary format makes of bytes that the writer would not have written: arrays whose count is
  one more than their elements, other bytes for true, sizes that are stated twice differently, input that ends too
  early, and arrays inside of arrays inside of arrays.
 */
module BinaryReading {
  import opened LittleEndian
  import opened BinaryFormat
  import opened BinaryRoundTrip
  import opened Texts

  /** How a writer of its own may spell things: the byte for true, and what it says where a size is said first. */
  datatype Style = Style(yes: char, first: int)

  function Truth(style: Style, b: bool): char { if b then style.yes else '\0' }

  function Size(style: Style, ask: Ask, size: int): string {
    (if ask.As? then NumberBytes(ask.number, style.first) else []) + NumberBytes(Together(ask, UInt16), size)
  }

  /** Bytes for a value, with one more in the count of an array than it has elements. */
  function Spelt(style: Style, schema: Schema, flags: Flags, value: Value): string
    requires Fits(schema, value)
    decreases schema, 0
  {
    match schema
    case Integer(own) => NumberBytes(if flags.ask.Any? then own else flags.ask.number, value.i)
    case Boolean => [Truth(style, value.b)]
    case Text => Size(style, flags.ask, |value.s|) + value.s
    case Optional(inner) =>
      [Truth(style, value.Some?)] + if value.Some? then Spelt(style, inner, flags, value.value) else []
    case Record(fields) => FieldsSpelt(style, fields, flags, value.values)
    case Dictionary(inner) => Size(style, flags.ask, |value.entries|) + EntriesSpelt(style, inner, flags, value.entries)
    case Vector(inner) => Size(style, flags.ask, |value.items| + 1) + ItemsSpelt(style, inner, flags, value.items)
  }

  function FieldSpelt(style: Style, field: Field, flags: Flags, value: Value): string
    requires FieldFits(field, value)
    decreases field, 2
  {
    Spelt(style, field.schema, Flags(true, Or(flags.ask, field.ask)), value)
  }

  function FieldsSpelt(style: Style, fields: seq<Field>, flags: Flags, values: seq<Value>): string
    requires |fields| == |values| && FieldsFit(fields, values)
    decreases fields, 1
  {
    if fields == [] then []
    else FieldSpelt(style, fields[0], flags, values[0]) + FieldsSpelt(style, fields[1..], flags, values[1..])
  }

  function EntrySpelt(style: Style, inner: Schema, flags: Flags, entry: Entry): string
    requires Fits(inner, entry.value)
    decreases inner, 1
  {
    Size(style, flags.ask, |entry.name|) + entry.name + Spelt(style, inner, flags, entry.value)
  }

  function EntriesSpelt(style: Style, inner: Schema, flags: Flags, entries: seq<Entry>): string
    requires forall e <- entries :: Fits(inner, e.value)
    decreases inner, 2, |entries|
  {
    if entries == [] then []
    else EntrySpelt(style, inner, flags, entries[0]) + EntriesSpelt(style, inner, flags, entries[1..])
  }

  function ItemsSpelt(style: Style, inner: Schema, flags: Flags, items: seq<Value>): string
    requires forall v <- items :: Fits(inner, v)
    decreases inner, 1, |items|
  {
    if items == [] then [] else Spelt(style, inner, flags, items[0]) + ItemsSpelt(style, inner, flags, items[1..])
  }

  predicate SizeHeld(ask: Ask, size: nat) { size < 0x8000_0000 && Holds(Together(ask, UInt16), size) }

  /** Numbers and sizes that their types hold, no dictionaries in records and no records without members. */
  predicate Held(schema: Schema, flags: Flags, value: Value)
    requires Fits(schema, value)
    decreases schema, 0
  {
    match schema
    case Integer(own) => Holds(if flags.ask.Any? then own else flags.ask.number, value.i)
    case Boolean => true
    case Text => SizeHeld(flags.ask, |value.s|)
    case Optional(inner) => value.Some? ==> Held(inner, flags, value.value)
    case Record(fields) => fields != [] && FieldsHeld(fields, flags, value.values)
    case Dictionary(inner) =>
      && !flags.layoutKnown && SizeHeld(flags.ask, |value.entries|)
      && forall e <- value.entries :: SizeHeld(flags.ask, |e.name|) && Held(inner, flags, e.value)
    case Vector(inner) =>
      SizeHeld(flags.ask, |value.items| + 1) && forall v <- value.items :: Held(inner, flags, v)
  }

  predicate FieldHeld(field: Field, flags: Flags, value: Value)
    requires FieldFits(field, value)
    decreases field, 2
  {
    Held(field.schema, Flags(true, Or(flags.ask, field.ask)), value)
  }

  predicate FieldsHeld(fields: seq<Field>, flags: Flags, values: seq<Value>)
    requires |fields| == |values| && FieldsFit(fields, values)
    decreases fields, 1
  {
    fields == [] || (FieldHeld(fields[0], flags, values[0]) && FieldsHeld(fields[1..], flags, values[1..]))
  }

  /** No more than `room` arrays are inside of each other. */
  predicate Shallow(value: Value, room: nat)
    decreases value
  {
    match value
    case Some(v) => Shallow(v, room)
    case Struct(values) => forall v <- values :: Shallow(v, room)
    case Dict(entries) => forall e <- entries :: Shallow(e.value, room)
    case List(items) => room > 0 && forall v <- items :: Shallow(v, room - 1)
    case _ => true
  }

  // Numbers.

  lemma HeldNumber(s: string, at: nat, t: Number, value: int)
    requires Has(s, at, NumberBytes(t, value)) && Holds(t, value)
    ensures NumberAt(s, at, t) == Got(value, at + Width(t))
  {
    NumberReads(s, at, t, value);
    NumberReturns(t, value);
  }

  /** Of two sizes the second counts. */
  lemma SecondSizeCounts(style: Style, s: string, at: nat, ask: Ask, size: int)
    requires Has(s, at, Size(style, ask, size)) && Holds(Together(ask, UInt16), size)
    ensures SizeAt(s, at, ask) == Got(size, at + |Size(style, ask, size)|)
  {
    hide NumberBytes, NumberAt, Holds, Returned;
    var first := if ask.As? then NumberBytes(ask.number, style.first) else [];
    HasParts(s, at, first, NumberBytes(Together(ask, UInt16), size));
    if ask.As? { NumberReads(s, at, ask.number, style.first); }
    HeldNumber(s, at + |first|, Together(ask, UInt16), size);
  }

  lemma HeldSize(style: Style, s: string, at: nat, ask: Ask, size: nat)
    requires Has(s, at, Size(style, ask, size)) && SizeHeld(ask, size)
    ensures SizeAt(s, at, ask) == Got(size, at + |Size(style, ask, size)|)
  {
    hide Size, SizeAt, Holds;
    SecondSizeCounts(style, s, at, ask, size);
  }

  lemma HeldText(style: Style, s: string, at: nat, ask: Ask, text: string)
    requires Has(s, at, Size(style, ask, |text|) + text) && SizeHeld(ask, |text|)
    ensures TextAt(s, at, ask) == Got(text, at + |Size(style, ask, |text|)| + |text|)
  {
    hide Size, SizeAt, Holds, SizeWidth;
    HasParts(s, at, Size(style, ask, |text|), text);
    SecondSizeCounts(style, s, at, ask, |text|);
  }

  // The theorem.

  predicate Yields(style: Style, s: string, at: nat, schema: Schema, flags: Flags, value: Value, depth: nat)
    requires Fits(schema, value)
  {
    ValueAt(s, at, schema, flags, depth) == Got(value, at + |Spelt(style, schema, flags, value)|)
  }

  /** Any value is read from its bytes in any style, exactly when no more than three arrays are inside of each other. */
  lemma {:induction false} SpeltReads(style: Style, s: string, at: nat, schema: Schema, flags: Flags, value: Value,
                                      depth: nat)
    requires Fits(schema, value) && Held(schema, flags, value) && style.yes != '\0' && depth <= 3
    requires Has(s, at, Spelt(style, schema, flags, value))
    ensures ValueAt(s, at, schema, flags, depth) == Got(value, at + |Spelt(style, schema, flags, value)|)
            <==> Shallow(value, 3 - depth)
  {
    hide ValueAt, Spelt, Held, Fits, Shallow, Has;
    if Shallow(value, 3 - depth) { ShallowReads(style, s, at, schema, flags, value, depth); }
    if ValueAt(s, at, schema, flags, depth).Got? { OnlyShallow(s, at, schema, flags, depth); }
  }

  lemma {:induction false} ShallowReads(style: Style, s: string, at: nat, schema: Schema, flags: Flags, value: Value,
                                        depth: nat)
    requires Fits(schema, value) && Held(schema, flags, value) && style.yes != '\0' && depth <= 3
    requires Has(s, at, Spelt(style, schema, flags, value)) && Shallow(value, 3 - depth)
    ensures Yields(style, s, at, schema, flags, value, depth)
    decreases schema, 0
  {
    hide NumberBytes, NumberAt, Size, SizeAt, TextAt, Holds, ItemsRead, Has, ItemsSpelt, EntriesSpelt, FieldsSpelt,
        ItemsAt, EntriesAt, FieldsAt, SizeHeld;
    match schema
    case Integer(own) => HeldNumber(s, at, if flags.ask.Any? then own else flags.ask.number, value.i);
    case Boolean =>
      assert [Truth(style, value.b)] + [] == [Truth(style, value.b)];
      TruthRead(style, s, at, value.b, []);
    case Text => HeldText(style, s, at, flags.ask, value.s);
    case Optional(inner) =>
      TruthRead(style, s, at, value.Some?, if value.Some? then Spelt(style, inner, flags, value.value) else []);
      if value.Some? { ShallowReads(style, s, at + 1, inner, flags, value.value, depth); }
    case Record(fields) => ShallowFields(style, s, at, fields, flags, value.values, depth);
    case Dictionary(inner) => ShallowDictionary(style, s, at, inner, flags, value, depth);
    case Vector(inner) => ShallowArray(style, s, at, inner, flags, value, depth);
  }

  lemma {:induction false} ShallowDictionary(style: Style, s: string, at: nat, inner: Schema, flags: Flags,
                                             value: Value, depth: nat)
    requires Fits(Dictionary(inner), value) && Held(Dictionary(inner), flags, value)
    requires style.yes != '\0' && depth <= 3 && Shallow(value, 3 - depth)
    requires Has(s, at, Spelt(style, Dictionary(inner), flags, value))
    ensures Yields(style, s, at, Dictionary(inner), flags, value, depth)
    decreases inner, 5
  {
    hide Size, SizeAt, Has, EntriesSpelt, EntriesAt, SizeHeld;
    HasParts(s, at, Size(style, flags.ask, |value.entries|), EntriesSpelt(style, inner, flags, value.entries));
    HeldSize(style, s, at, flags.ask, |value.entries|);
    ShallowEntries(style, s, at + |Size(style, flags.ask, |value.entries|)|, inner, flags, value.entries, depth);
  }

  lemma {:induction false} ShallowArray(style: Style, s: string, at: nat, inner: Schema, flags: Flags, value: Value,
                                        depth: nat)
    requires Fits(Vector(inner), value) && Held(Vector(inner), flags, value)
    requires style.yes != '\0' && depth <= 3 && Shallow(value, 3 - depth)
    requires Has(s, at, Spelt(style, Vector(inner), flags, value))
    ensures Yields(style, s, at, Vector(inner), flags, value, depth)
    decreases inner, 5
  {
    hide Size, SizeAt, Has, ItemsRead, ItemsSpelt, ItemsAt, SizeHeld;
    HasParts(s, at, Size(style, flags.ask, |value.items| + 1), ItemsSpelt(style, inner, flags, value.items));
    HeldSize(style, s, at, flags.ask, |value.items| + 1);
    OneFewer(flags.ask, |value.items|);
    ShallowItems(style, s, at + |Size(style, flags.ask, |value.items| + 1)|, inner, flags, value.items, depth + 1);
  }

  lemma OneFewer(ask: Ask, count: nat)
    requires SizeHeld(ask, count + 1)
    ensures ItemsRead(count + 1) == count
  {
  }

  lemma TruthRead(style: Style, s: string, at: nat, b: bool, more: string)
    requires Has(s, at, [Truth(style, b)] + more) && style.yes != '\0'
    ensures BoolAt(s, at) == Got(b, at + 1) && Has(s, at + 1, more)
  {
    HasParts(s, at, [Truth(style, b)], more);
    assert s[at] == s[at..at + 1][0];
  }

  lemma {:induction false} ShallowFields(style: Style, s: string, at: nat, fields: seq<Field>, flags: Flags,
                                         values: seq<Value>, depth: nat)
    requires |fields| == |values| && FieldsFit(fields, values) && FieldsHeld(fields, flags, values)
    requires style.yes != '\0' && depth <= 3 && forall v <- values :: Shallow(v, 3 - depth)
    requires Has(s, at, FieldsSpelt(style, fields, flags, values))
    ensures FieldsAt(s, at, fields, flags, depth) == Got(values, at + |FieldsSpelt(style, fields, flags, values)|)
    decreases fields, 1
  {
    hide FieldFits, FieldHeld, FieldSpelt, FieldAt, Shallow, Has;
    if fields != [] {
      var first := FieldSpelt(style, fields[0], flags, values[0]);
      HasParts(s, at, first, FieldsSpelt(style, fields[1..], flags, values[1..]));
      assert values[0] in values && forall v <- values[1..] :: v in values;
      ShallowField(style, s, at, fields[0], flags, values[0], depth);
      ShallowFields(style, s, at + |first|, fields[1..], flags, values[1..], depth);
      assert [values[0]] + values[1..] == values;
    }
  }

  lemma {:induction false} ShallowField(style: Style, s: string, at: nat, field: Field, flags: Flags, value: Value,
                                        depth: nat)
    requires FieldFits(field, value) && FieldHeld(field, flags, value)
    requires style.yes != '\0' && depth <= 3 && Shallow(value, 3 - depth)
    requires Has(s, at, FieldSpelt(style, field, flags, value))
    ensures FieldAt(s, at, field, flags, depth) == Got(value, at + |FieldSpelt(style, field, flags, value)|)
    decreases field, 2
  {
    hide Fits, Held, Spelt, ValueAt, Shallow, Has, Or;
    ShallowReads(style, s, at, field.schema, Flags(true, Or(flags.ask, field.ask)), value, depth);
  }

  lemma {:induction false} ShallowEntries(style: Style, s: string, at: nat, inner: Schema, flags: Flags,
                                          entries: seq<Entry>, depth: nat)
    requires forall e <- entries :: Fits(inner, e.value) && SizeHeld(flags.ask, |e.name|) && Held(inner, flags, e.value)
    requires style.yes != '\0' && depth <= 3 && forall e <- entries :: Shallow(e.value, 3 - depth)
    requires Has(s, at, EntriesSpelt(style, inner, flags, entries))
    ensures EntriesAt(s, at, inner, flags, depth, |entries|)
         == Got(entries, at + |EntriesSpelt(style, inner, flags, entries)|)
    decreases inner, 2, |entries|
  {
    hide Fits, Held, EntrySpelt, EntryAt, Shallow, Has, SizeHeld;
    if entries != [] {
      var first, rest := EntrySpelt(style, inner, flags, entries[0]), entries[1..];
      assert entries[0] in entries && forall e <- rest :: e in entries;
      HasParts(s, at, first, EntriesSpelt(style, inner, flags, rest));
      ShallowEntry(style, s, at, inner, flags, entries[0], depth);
      ShallowEntries(style, s, at + |first|, inner, flags, rest, depth);
      assert [entries[0]] + rest == entries;
    }
  }

  lemma {:induction false} ShallowEntry(style: Style, s: string, at: nat, inner: Schema, flags: Flags, entry: Entry,
                                        depth: nat)
    requires Fits(inner, entry.value) && SizeHeld(flags.ask, |entry.name|) && Held(inner, flags, entry.value)
    requires style.yes != '\0' && depth <= 3 && Shallow(entry.value, 3 - depth)
    requires Has(s, at, EntrySpelt(style, inner, flags, entry))
    ensures EntryAt(s, at, inner, flags, depth) == Got(entry, at + |EntrySpelt(style, inner, flags, entry)|)
    decreases inner, 1
  {
    hide Fits, Held, Spelt, ValueAt, Shallow, Has, SizeHeld, Size, TextAt;
    var name := Size(style, flags.ask, |entry.name|) + entry.name;
    HasParts(s, at, name, Spelt(style, inner, flags, entry.value));
    HeldText(style, s, at, flags.ask, entry.name);
    ShallowReads(style, s, at + |name|, inner, flags, entry.value, depth);
  }

  lemma {:induction false} ShallowItems(style: Style, s: string, at: nat, inner: Schema, flags: Flags,
                                        items: seq<Value>, depth: nat)
    requires forall v <- items :: Fits(inner, v) && Held(inner, flags, v)
    requires style.yes != '\0' && depth <= 3 && forall v <- items :: Shallow(v, 3 - depth)
    requires Has(s, at, ItemsSpelt(style, inner, flags, items))
    ensures ItemsAt(s, at, inner, flags, depth, |items|) == Got(items, at + |ItemsSpelt(style, inner, flags, items)|)
    decreases inner, 2, |items|
  {
    hide Fits, Held, Spelt, ValueAt, Shallow, Has;
    if items != [] {
      var first, rest := Spelt(style, inner, flags, items[0]), items[1..];
      assert items[0] in items && forall v <- rest :: v in items;
      HasParts(s, at, first, ItemsSpelt(style, inner, flags, rest));
      ShallowReads(style, s, at, inner, flags, items[0], depth);
      ShallowItems(style, s, at + |first|, inner, flags, rest, depth);
      assert [items[0]] + rest == items;
    }
  }

  // Arrays in arrays.

  /** From any bytes at all, no more than three arrays inside of each other are read. */
  lemma {:induction false} OnlyShallow(s: string, at: nat, schema: Schema, flags: Flags, depth: nat)
    requires depth <= 3 && ValueAt(s, at, schema, flags, depth).Got?
    ensures Shallow(ValueAt(s, at, schema, flags, depth).value, 3 - depth)
    decreases schema, 0
  {
    hide NumberAt, SizeAt, TextAt, BoolAt, ItemsRead, ItemsAt, EntriesAt, FieldsAt, Fits;
    match schema
    case Optional(inner) =>
      var present := BoolAt(s, at);
      if present.value { OnlyShallow(s, present.at, inner, flags, depth); }
    case Record(fields) => OnlyShallowFields(s, at, fields, flags, depth);
    case Dictionary(inner) =>
      var size := SizeAt(s, at, flags.ask);
      OnlyShallowEntries(s, size.at, inner, flags, depth, if size.value < 0 then 0 else size.value);
    case Vector(inner) =>
      var size := SizeAt(s, at, flags.ask);
      OnlyShallowItems(s, size.at, inner, flags, depth + 1, ItemsRead(size.value));
    case _ =>
  }

  lemma {:induction false} OnlyShallowFields(s: string, at: nat, fields: seq<Field>, flags: Flags, depth: nat)
    requires depth <= 3 && FieldsAt(s, at, fields, flags, depth).Got?
    ensures forall v <- FieldsAt(s, at, fields, flags, depth).value :: Shallow(v, 3 - depth)
    decreases fields, 1
  {
    hide ValueAt, Fits, Shallow;
    if fields != [] {
      OnlyShallowField(s, at, fields[0], flags, depth);
      OnlyShallowFields(s, FieldAt(s, at, fields[0], flags, depth).at, fields[1..], flags, depth);
    }
  }

  lemma {:induction false} OnlyShallowField(s: string, at: nat, field: Field, flags: Flags, depth: nat)
    requires depth <= 3 && FieldAt(s, at, field, flags, depth).Got?
    ensures Shallow(FieldAt(s, at, field, flags, depth).value, 3 - depth)
    decreases field, 2
  {
    OnlyShallow(s, at, field.schema, Inside(flags, field), depth);
  }

  lemma {:induction false} OnlyShallowEntries(s: string, at: nat, inner: Schema, flags: Flags, depth: nat, count: nat)
    requires depth <= 3 && EntriesAt(s, at, inner, flags, depth, count).Got?
    ensures forall e <- EntriesAt(s, at, inner, flags, depth, count).value :: Shallow(e.value, 3 - depth)
    decreases inner, 2, count
  {
    hide ValueAt, Fits, Shallow, TextAt;
    if count > 0 {
      OnlyShallow(s, TextAt(s, at, flags.ask).at, inner, flags, depth);
      OnlyShallowEntries(s, EntryAt(s, at, inner, flags, depth).at, inner, flags, depth, count - 1);
    }
  }

  lemma {:induction false} OnlyShallowItems(s: string, at: nat, inner: Schema, flags: Flags, depth: nat, count: nat)
    requires depth <= 3 && ItemsAt(s, at, inner, flags, depth, count).Got?
    ensures forall v <- ItemsAt(s, at, inner, flags, depth, count).value :: Shallow(v, 3 - depth)
    decreases inner, 2, count
  {
    hide ValueAt, Fits, Shallow;
    if count > 0 {
      OnlyShallow(s, at, inner, flags, depth);
      OnlyShallowItems(s, ValueAt(s, at, inner, flags, depth).at, inner, flags, depth, count - 1);
    }
  }

  // Input that ends too early.

  /** What reading a part must come to: the same, or the fault of incomplete input if the end is missing. */
  predicate Agrees<T(==)>(part: Read<T>, whole: Read<T>, length: nat)
  {
    whole.Got? ==> part == if whole.at <= length then whole else Failed(Incomplete)
  }

  /** Whatever can be read is read alike without what follows, and is incomplete without any of its own bytes. */
  lemma {:induction false} PartsAreIncomplete(s: string, n: nat, at: nat, schema: Schema, flags: Flags, depth: nat)
    requires at <= n <= |s|
    ensures Agrees(ValueAt(s[..n], at, schema, flags, depth), ValueAt(s, at, schema, flags, depth), n)
    decreases schema, 0
  {
    hide NumberAt, SizeAt, TextAt, ItemsRead, ItemsAt, EntriesAt, FieldsAt, Fits, SizeWidth;
    var whole := ValueAt(s, at, schema, flags, depth);
    if whole.Got? {
      match schema
      case Integer(own) => PartOfNumber(s, n, at, TypeOf(flags.ask, own));
      case Boolean =>
      case Text => PartOfText(s, n, at, flags.ask);
      case Optional(inner) =>
        if s[at] != '\0' { EndsBehind(s, at + 1, inner, flags, depth); }
        if s[at] != '\0' && at < n { PartsAreIncomplete(s, n, at + 1, inner, flags, depth); }
      case Record(fields) =>
        PartOfFields(s, n, at, fields, flags, depth);
      case Dictionary(inner) =>
        PartOfSize(s, n, at, flags.ask);
        var size := SizeAt(s, at, flags.ask);
        var count := if size.value < 0 then 0 else size.value;
        EntriesEndBehind(s, size.at, inner, flags, depth, count);
        if size.at <= n { PartOfEntries(s, n, size.at, inner, flags, depth, count); }
      case Vector(inner) =>
        PartOfSize(s, n, at, flags.ask);
        var size := SizeAt(s, at, flags.ask);
        ItemsEndBehind(s, size.at, inner, flags, depth + 1, ItemsRead(size.value));
        if size.at <= n { PartOfItems(s, n, size.at, inner, flags, depth + 1, ItemsRead(size.value)); }
    }
  }

  lemma EndsBehind(s: string, at: nat, schema: Schema, flags: Flags, depth: nat)
    ensures var r := ValueAt(s, at, schema, flags, depth); r.Got? ==> at <= r.at
  {
    hide ValueAt, Consumed;
    if ValueAt(s, at, schema, flags, depth).Got? { ValueConsumes(s, at, schema, flags, depth); }
  }

  lemma FieldsEndBehind(s: string, at: nat, fields: seq<Field>, flags: Flags, depth: nat)
    ensures var r := FieldsAt(s, at, fields, flags, depth); r.Got? ==> at <= r.at
  {
    hide FieldsAt, FieldsConsumed;
    if FieldsAt(s, at, fields, flags, depth).Got? { FieldsConsume(s, at, fields, flags, depth); }
  }

  lemma EntriesEndBehind(s: string, at: nat, inner: Schema, flags: Flags, depth: nat, count: nat)
    requires !flags.layoutKnown
    ensures var r := EntriesAt(s, at, inner, flags, depth, count); r.Got? ==> at <= r.at
  {
    hide EntriesAt, EntriesConsumed;
    if EntriesAt(s, at, inner, flags, depth, count).Got? { EntriesConsume(s, at, inner, flags, depth, count); }
  }

  lemma ItemsEndBehind(s: string, at: nat, inner: Schema, flags: Flags, depth: nat, count: nat)
    ensures var r := ItemsAt(s, at, inner, flags, depth, count); r.Got? ==> at <= r.at
  {
    hide ItemsAt, ItemsConsumed;
    if ItemsAt(s, at, inner, flags, depth, count).Got? { ItemsConsume(s, at, inner, flags, depth, count); }
  }

  lemma PartOfNumber(s: string, n: nat, at: nat, t: Number)
    requires at <= n <= |s|
    ensures Agrees(NumberAt(s[..n], at, t), NumberAt(s, at, t), n)
  {
    hide Unsigned, Reading;
    if at + Width(t) <= n { assert s[..n][at..at + Width(t)] == s[at..at + Width(t)]; }
  }

  lemma PartOfSize(s: string, n: nat, at: nat, ask: Ask)
    requires at <= n <= |s|
    ensures Agrees(SizeAt(s[..n], at, ask), SizeAt(s, at, ask), n)
  {
    hide NumberAt, SizeWidth;
    if ask.Any? {
      PartOfNumber(s, n, at, UInt16);
    } else {
      PartOfNumber(s, n, at, ask.number);
      var twice := NumberAt(s, at, ask.number);
      if twice.Got? && twice.at <= n { PartOfNumber(s, n, twice.at, Together(ask, UInt16)); }
    }
  }

  lemma PartOfText(s: string, n: nat, at: nat, ask: Ask)
    requires at <= n <= |s|
    ensures Agrees(TextAt(s[..n], at, ask), TextAt(s, at, ask), n)
  {
    hide SizeAt, SizeWidth;
    PartOfSize(s, n, at, ask);
    var r, size := TextAt(s, at, ask), SizeAt(s, at, ask);
    if r.Got? && r.at <= n { assert s[..n][size.at..r.at] == s[size.at..r.at]; }
  }

  lemma {:induction false} PartOfFields(s: string, n: nat, at: nat, fields: seq<Field>, flags: Flags, depth: nat)
    requires at <= n <= |s|
    ensures Agrees(FieldsAt(s[..n], at, fields, flags, depth), FieldsAt(s, at, fields, flags, depth), n)
    decreases fields, 1
  {
    hide ValueAt, Fits;
    if fields != [] {
      var v := FieldAt(s, at, fields[0], flags, depth);
      PartOfField(s, n, at, fields[0], flags, depth);
      if v.Got? {
        FieldsEndBehind(s, v.at, fields[1..], flags, depth);
        if v.at <= n { PartOfFields(s, n, v.at, fields[1..], flags, depth); }
      }
    }
  }

  lemma {:induction false} PartOfField(s: string, n: nat, at: nat, field: Field, flags: Flags, depth: nat)
    requires at <= n <= |s|
    ensures Agrees(FieldAt(s[..n], at, field, flags, depth), FieldAt(s, at, field, flags, depth), n)
    decreases field, 2
  {
    PartsAreIncomplete(s, n, at, field.schema, Inside(flags, field), depth);
  }

  lemma {:induction false} PartOfEntries(s: string, n: nat, at: nat, inner: Schema, flags: Flags, depth: nat,
                                         count: nat)
    requires at <= n <= |s| && !flags.layoutKnown
    ensures Agrees(EntriesAt(s[..n], at, inner, flags, depth, count), EntriesAt(s, at, inner, flags, depth, count), n)
    decreases inner, 2, count
  {
    hide EntryAt, Fits;
    if count > 0 {
      var e := EntryAt(s, at, inner, flags, depth);
      PartOfEntry(s, n, at, inner, flags, depth);
      if e.Got? {
        EntriesEndBehind(s, e.at, inner, flags, depth, count - 1);
        if e.at <= n { PartOfEntries(s, n, e.at, inner, flags, depth, count - 1); }
      }
    }
  }

  lemma {:induction false} PartOfEntry(s: string, n: nat, at: nat, inner: Schema, flags: Flags, depth: nat)
    requires at <= n <= |s|
    ensures Agrees(EntryAt(s[..n], at, inner, flags, depth), EntryAt(s, at, inner, flags, depth), n)
    decreases inner, 1
  {
    hide TextAt, ValueAt, Fits, SizeWidth;
    PartOfText(s, n, at, flags.ask);
    var name := TextAt(s, at, flags.ask);
    if name.Got? {
      EndsBehind(s, name.at, inner, flags, depth);
      if name.at <= n { PartsAreIncomplete(s, n, name.at, inner, flags, depth); }
    }
  }

  lemma {:induction false} PartOfItems(s: string, n: nat, at: nat, inner: Schema, flags: Flags, depth: nat, count: nat)
    requires at <= n <= |s|
    ensures Agrees(ItemsAt(s[..n], at, inner, flags, depth, count), ItemsAt(s, at, inner, flags, depth, count), n)
    decreases inner, 2, count
  {
    hide ValueAt, Fits;
    if count > 0 {
      var v := ValueAt(s, at, inner, flags, depth);
      PartsAreIncomplete(s, n, at, inner, flags, depth);
      if v.Got? {
        ItemsEndBehind(s, v.at, inner, flags, depth, count - 1);
        if v.at <= n { PartOfItems(s, n, v.at, inner, flags, depth, count - 1); }
      }
    }
  }

  /** A size below zero, which eight bytes can hold: no text has it, and a dictionary with it is empty. */
  lemma NegativeSizes(style: Style, s: string, at: nat, inner: Schema, known: bool, ask: Ask, size: int, depth: nat)
    requires Has(s, at, Size(style, ask, size)) && -0x8000_0000_0000_0000 <= size < 0
    requires Together(ask, UInt16) == UInt64
    ensures ValueAt(s, at, Text, Flags(known, ask), depth) == Failed(Incomplete)
    ensures ValueAt(s, at, Dictionary(inner), Flags(false, ask), depth) == Got(Dict([]), at + |Size(style, ask, size)|)
  {
    hide Size, SizeAt, Together;
    SecondSizeCounts(style, s, at, ask, size);
  }

  /** What no bytes can help: a fourth array, a dictionary in a record, a record without members. */
  lemma NeverRead(s: string, at: nat, inner: Schema, flags: Flags, depth: nat)
    ensures depth >= 3 ==> ValueAt(s, at, Vector(inner), flags, depth) == Failed(TooDeep)
    ensures flags.layoutKnown ==> ValueAt(s, at, Dictionary(inner), flags, depth) == Failed(NoName)
    ensures ValueAt(s, at, Record([]), flags, depth) == Failed(CannotSkip)
  {
  }
}
