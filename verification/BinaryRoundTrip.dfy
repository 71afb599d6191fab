/**
  Reading back what was written in the binary format: for which schemas, flags and values the reader returns
  the value and stops exactly where it ends.
 */
module BinaryRoundTrip {
  import opened Decimal
  import opened LittleEndian
  import opened BinaryFormat
  import opened Texts

  // The condition.

  predicate BoolPlain(ask: Ask) { Width(Together(ask, Int8)) == 1 }

  predicate TextPlain(ask: Ask, s: string) { Holds(Together(ask, UInt16), |s|) }

  predicate CountPlain(ask: Ask, count: nat) { count < 0x8000_0000 && Holds(Together(ask, UInt16), count) }

  /** What a caller can check before writing: integers that their types hold, booleans not widened by a flag,
      lengths that their size fields hold, records with at least one field, dictionaries outside of records, and
      no array but an empty one. */
  predicate Plain(schema: Schema, flags: Flags, value: Value, depth: nat)
    requires Fits(schema, value)
    decreases schema, 0
  {
    match schema
    case Integer(own) => Holds(TypeOf(flags.ask, own), value.i)
    case Boolean => BoolPlain(flags.ask)
    case Text => TextPlain(flags.ask, value.s)
    case Optional(inner) => BoolPlain(flags.ask) && (value.Some? ==> Plain(inner, flags, value.value, depth))
    case Record(fields) => fields != [] && FieldsPlain(fields, flags, value.values, depth)
    case Dictionary(inner) =>
      && !flags.layoutKnown && CountPlain(flags.ask, |value.entries|)
      && EntriesPlain(inner, flags, value.entries, depth)
    case Vector(inner) => depth < 3 && value.items == []
  }

  predicate FieldPlain(field: Field, flags: Flags, value: Value, depth: nat)
    requires FieldFits(field, value)
    decreases field, 2
  {
    Plain(field.schema, Inside(flags, field), value, depth)
  }

  predicate FieldsPlain(fields: seq<Field>, flags: Flags, values: seq<Value>, depth: nat)
    requires |fields| == |values| && FieldsFit(fields, values)
    decreases fields, 1
  {
    fields == [] ||
    (FieldPlain(fields[0], flags, values[0], depth) && FieldsPlain(fields[1..], flags, values[1..], depth))
  }

  predicate EntriesPlain(inner: Schema, flags: Flags, entries: seq<Entry>, depth: nat)
    requires forall e <- entries :: Fits(inner, e.value)
    decreases inner, 2, |entries|
  {
    entries == [] || (EntryPlain(inner, flags, entries[0], depth) && EntriesPlain(inner, flags, entries[1..], depth))
  }

  predicate EntryPlain(inner: Schema, flags: Flags, entry: Entry, depth: nat)
    requires Fits(inner, entry.value)
    decreases inner, 1
  {
    TextPlain(flags.ask, entry.name) && Plain(inner, flags, entry.value, depth)
  }

  // Numbers, sizes, texts and booleans.

  function Returned(t: Number, value: int): int { Reading(t, Unsigned(Bytes(value, Width(t)))) }

  lemma NumberReads(s: string, at: nat, t: Number, value: int)
    requires Has(s, at, NumberBytes(t, value))
    ensures NumberAt(s, at, t) == Got(Returned(t, value), at + Width(t))
  {
  }

  function SizeRead(ask: Ask, size: int): int { Returned(Together(ask, UInt16), size) }

  lemma SizeReads(s: string, at: nat, ask: Ask, size: int)
    requires Has(s, at, SizeBytes(ask, size))
    ensures |SizeBytes(ask, size)| == SizeWidth(ask)
    ensures SizeAt(s, at, ask) == Got(SizeRead(ask, size), at + SizeWidth(ask))
  {
    hide NumberBytes, NumberAt, Returned;
    var twice := if ask.As? then NumberBytes(ask.number, size) else [];
    HasParts(s, at, twice, NumberBytes(Together(ask, UInt16), size));
    if ask.As? { NumberReads(s, at, ask.number, size); }
    NumberReads(s, at + |twice|, Together(ask, UInt16), size);
  }

  /** Sizes have 16 unsigned bits, or 64 under a flag for a type of 32 bits or more. */
  lemma SizeTypes(ask: Ask)
    ensures Together(ask, UInt16) == UInt16 || Together(ask, UInt16) == UInt64
  {
  }

  lemma SizeIsShort(ask: Ask, size: int)
    requires -0x8000_0000 <= size
    ensures 0 <= size ==> SizeRead(ask, size) <= size
    ensures size < 0 ==> SizeRead(ask, size) < 0x1_0000
    ensures size < 0x8000_0000 ==> -0x8000_0000 <= SizeRead(ask, size)
    ensures 0 <= size < 0x8000_0000 && Holds(Together(ask, UInt16), size) ==> SizeRead(ask, size) == size
    ensures 0 <= size && !Holds(Together(ask, UInt16), size) ==> SizeRead(ask, size) < size
  {
    hide Bytes, Unsigned, Together, Width, Span;
    var t := Together(ask, UInt16);
    SizeTypes(ask);
    NumberReturns(t, size);
    BytesAreTheNumber(size, Width(t));
    ReadingIsHeld(t, size % Span(Width(t)));
    WidthsOfSizes();
  }

  lemma WidthsOfSizes()
    ensures Span(Width(UInt16)) == 0x1_0000 && Span(Width(UInt64)) == 0x1_0000_0000_0000_0000
  {
    Spans();
  }

  /** A text returns exactly when its length fits into the size field. */
  lemma TextReads(s: string, at: nat, ask: Ask, text: string)
    requires Has(s, at, TextBytes(ask, text))
    ensures TextAt(s, at, ask) == Got(text, at + |TextBytes(ask, text)|) <==> TextPlain(ask, text)
    ensures |TextBytes(ask, text)| == SizeWidth(ask) + |text|
  {
    hide SizeBytes, SizeAt, SizeRead, Holds, SizeWidth;
    HasParts(s, at, SizeBytes(ask, |text|), text);
    SizeReads(s, at, ask, |text|);
    SizeIsShort(ask, |text|);
    if TextPlain(ask, text) { HeldSizes(ask, |text|); }
  }

  lemma HeldSizes(ask: Ask, size: nat)
    requires Holds(Together(ask, UInt16), size)
    ensures size < 0x8000_0000 || SizeRead(ask, size) == size
  {
    NumberReturns(Together(ask, UInt16), size);
  }

  lemma LowByte(value: int, width: nat)
    requires 0 <= value < 256 && width > 0
    ensures Bytes(value, width)[0] == value as char
  {
  }

  /** A boolean always returns, but takes back one byte only. */
  lemma BoolReads(s: string, at: nat, ask: Ask, b: bool)
    requires Has(s, at, BoolBytes(ask, b))
    ensures BoolAt(s, at) == Got(b, at + 1)
    ensures 1 <= |BoolBytes(ask, b)| && (|BoolBytes(ask, b)| == 1 <==> BoolPlain(ask))
  {
    hide Bytes;
    var bytes := BoolBytes(ask, b);
    LowByte(if b then 1 else 0, Width(Together(ask, Int8)));
    assert s[at] == bytes[0];
  }

  /** How many elements are read of an array never is how many there were, unless there were none. */
  lemma ArraysFallShort(ask: Ask, count: nat)
    ensures ItemsRead(SizeRead(ask, AsInt32(count))) == count <==> count == 0
    ensures CountPlain(ask, count) && count > 0 ==> ItemsRead(SizeRead(ask, AsInt32(count))) == count - 1
  {
    hide Holds, SizeRead;
    SizeIsShort(ask, AsInt32(count));
    SizeTypes(ask);
    if count == 0 { ZeroHolds(ask); }
  }

  lemma ZeroHolds(ask: Ask)
    ensures Holds(Together(ask, UInt16), 0)
  {
    SizeTypes(ask);
  }

  /** A dictionary's count returns exactly when it fits. */
  lemma CountReturns(ask: Ask, count: nat)
    ensures (if SizeRead(ask, AsInt32(count)) < 0 then 0 else SizeRead(ask, AsInt32(count))) == count
            <==> CountPlain(ask, count)
  {
    hide Holds, SizeRead;
    SizeIsShort(ask, AsInt32(count));
    if count == 0 { ZeroHolds(ask); }
  }

  // How much is read is a matter of what is read; and the reader never leaves its input.

  function Consumed(schema: Schema, flags: Flags, value: Value): nat
    requires Fits(schema, value)
    decreases schema, 0
  {
    match schema
    case Integer(own) => Width(TypeOf(flags.ask, own))
    case Boolean => 1
    case Text => SizeWidth(flags.ask) + |value.s|
    case Optional(inner) => 1 + if value.Some? then Consumed(inner, flags, value.value) else 0
    case Record(fields) => FieldsConsumed(fields, flags, value.values)
    case Dictionary(inner) => (if flags.layoutKnown then 0 else SizeWidth(flags.ask))
        + EntriesConsumed(inner, flags, value.entries)
    case Vector(inner) => SizeWidth(flags.ask) + ItemsConsumed(inner, flags, value.items)
  }

  function FieldConsumed(field: Field, flags: Flags, value: Value): nat
    requires FieldFits(field, value)
    decreases field, 2
  {
    Consumed(field.schema, Inside(flags, field), value)
  }

  function FieldsConsumed(fields: seq<Field>, flags: Flags, values: seq<Value>): nat
    requires |fields| == |values| && FieldsFit(fields, values)
    decreases fields, 1
  {
    if fields == [] then 0
    else FieldConsumed(fields[0], flags, values[0]) + FieldsConsumed(fields[1..], flags, values[1..])
  }

  function EntriesConsumed(inner: Schema, flags: Flags, entries: seq<Entry>): nat
    requires forall e <- entries :: Fits(inner, e.value)
    decreases inner, 2, |entries|
  {
    if entries == [] then 0 else EntryConsumed(inner, flags, entries[0]) + EntriesConsumed(inner, flags, entries[1..])
  }

  function EntryConsumed(inner: Schema, flags: Flags, entry: Entry): nat
    requires Fits(inner, entry.value)
    decreases inner, 1
  {
    (if flags.layoutKnown then 0 else SizeWidth(flags.ask) + |entry.name|) + Consumed(inner, flags, entry.value)
  }

  function ItemsConsumed(inner: Schema, flags: Flags, items: seq<Value>): nat
    requires forall v <- items :: Fits(inner, v)
    decreases inner, 1, |items|
  {
    if items == [] then 0 else Consumed(inner, flags, items[0]) + ItemsConsumed(inner, flags, items[1..])
  }

  lemma {:induction false} ValueConsumes(s: string, at: nat, schema: Schema, flags: Flags, depth: nat)
    requires ValueAt(s, at, schema, flags, depth).Got?
    ensures var r := ValueAt(s, at, schema, flags, depth);
            r.at == at + Consumed(schema, flags, r.value) && (at <= |s| ==> r.at <= |s|)
    decreases schema, 0
  {
    hide NumberAt, TextAt, BoolAt, SizeAt, SizeWidth, ItemsRead, Fits;
    match schema
    case Optional(inner) =>
      var present := BoolAt(s, at);
      if present.value { ValueConsumes(s, present.at, inner, flags, depth); }
    case Record(fields) => FieldsConsume(s, at, fields, flags, depth);
    case Dictionary(inner) =>
      var size := SizeAt(s, at, flags.ask);
      EntriesConsume(s, size.at, inner, flags, depth, if size.value < 0 then 0 else size.value);
    case Vector(inner) =>
      var size := SizeAt(s, at, flags.ask);
      ItemsConsume(s, size.at, inner, flags, depth + 1, ItemsRead(size.value));
    case _ =>
  }

  lemma {:induction false} FieldConsumes(s: string, at: nat, field: Field, flags: Flags, depth: nat)
    requires FieldAt(s, at, field, flags, depth).Got?
    ensures var r := FieldAt(s, at, field, flags, depth);
            r.at == at + FieldConsumed(field, flags, r.value) && (at <= |s| ==> r.at <= |s|)
    decreases field, 2
  {
    ValueConsumes(s, at, field.schema, Inside(flags, field), depth);
  }

  lemma {:induction false} FieldsConsume(s: string, at: nat, fields: seq<Field>, flags: Flags, depth: nat)
    requires FieldsAt(s, at, fields, flags, depth).Got?
    ensures var r := FieldsAt(s, at, fields, flags, depth);
            r.at == at + FieldsConsumed(fields, flags, r.value) && (at <= |s| ==> r.at <= |s|)
    decreases fields, 1
  {
    hide FieldAt, FieldConsumed, FieldFits;
    if fields != [] {
      FieldConsumes(s, at, fields[0], flags, depth);
      var v := FieldAt(s, at, fields[0], flags, depth);
      FieldsConsume(s, v.at, fields[1..], flags, depth);
      var vs := FieldsAt(s, v.at, fields[1..], flags, depth);
      assert ([v.value] + vs.value)[1..] == vs.value;
    }
  }

  lemma {:induction false} EntryConsumes(s: string, at: nat, inner: Schema, flags: Flags, depth: nat)
    requires !flags.layoutKnown
    requires EntryAt(s, at, inner, flags, depth).Got?
    ensures var r := EntryAt(s, at, inner, flags, depth);
            r.at == at + EntryConsumed(inner, flags, r.value) && (at <= |s| ==> r.at <= |s|)
    decreases inner, 1
  {
    hide TextAt, ValueAt, Consumed, SizeWidth, Fits;
    ValueConsumes(s, TextAt(s, at, flags.ask).at, inner, flags, depth);
  }

  lemma {:induction false} EntriesConsume(s: string, at: nat, inner: Schema, flags: Flags, depth: nat, count: nat)
    requires !flags.layoutKnown
    requires EntriesAt(s, at, inner, flags, depth, count).Got?
    ensures var r := EntriesAt(s, at, inner, flags, depth, count);
            r.at == at + EntriesConsumed(inner, flags, r.value) && (at <= |s| ==> r.at <= |s|)
    decreases inner, 2, count
  {
    hide EntryAt, EntryConsumed, Fits;
    if count > 0 {
      EntryConsumes(s, at, inner, flags, depth);
      var e := EntryAt(s, at, inner, flags, depth);
      EntriesConsume(s, e.at, inner, flags, depth, count - 1);
      var es := EntriesAt(s, e.at, inner, flags, depth, count - 1);
      assert ([e.value] + es.value)[1..] == es.value;
    }
  }

  lemma {:induction false} ItemsConsume(s: string, at: nat, inner: Schema, flags: Flags, depth: nat, count: nat)
    requires ItemsAt(s, at, inner, flags, depth, count).Got?
    ensures var r := ItemsAt(s, at, inner, flags, depth, count);
            r.at == at + ItemsConsumed(inner, flags, r.value) && (at <= |s| ==> r.at <= |s|)
    decreases inner, 2, count
  {
    hide ValueAt, Consumed, Fits;
    if count > 0 {
      ValueConsumes(s, at, inner, flags, depth);
      var v := ValueAt(s, at, inner, flags, depth);
      ItemsConsume(s, v.at, inner, flags, depth, count - 1);
      var vs := ItemsAt(s, v.at, inner, flags, depth, count - 1);
      assert ([v.value] + vs.value)[1..] == vs.value;
    }
  }

  /** No more is read than was written. */
  lemma {:induction false} ReadsNoMore(schema: Schema, flags: Flags, value: Value)
    requires Fits(schema, value)
    ensures Consumed(schema, flags, value) <= |Encoded(schema, flags, value)|
    decreases schema, 0
  {
    match schema
    case Optional(inner) => if value.Some? { ReadsNoMore(inner, flags, value.value); }
    case Record(fields) => FieldsReadNoMore(fields, flags, value.values);
    case Dictionary(inner) => EntriesReadNoMore(inner, flags, value.entries);
    case Vector(inner) => ItemsReadNoMore(inner, flags, value.items);
    case _ =>
  }

  lemma {:induction false} FieldReadsNoMore(field: Field, flags: Flags, value: Value)
    requires FieldFits(field, value)
    ensures FieldConsumed(field, flags, value) <= |FieldEncoded(field, flags, value)|
    decreases field, 2
  {
    ReadsNoMore(field.schema, Inside(flags, field), value);
  }

  lemma {:induction false} FieldsReadNoMore(fields: seq<Field>, flags: Flags, values: seq<Value>)
    requires |fields| == |values| && FieldsFit(fields, values)
    ensures FieldsConsumed(fields, flags, values) <= |FieldsEncoded(fields, flags, values)|
    decreases fields, 1
  {
    if fields != [] {
      FieldReadsNoMore(fields[0], flags, values[0]);
      FieldsReadNoMore(fields[1..], flags, values[1..]);
    }
  }

  lemma {:induction false} EntryReadsNoMore(inner: Schema, flags: Flags, entry: Entry)
    requires Fits(inner, entry.value)
    ensures EntryConsumed(inner, flags, entry) <= |EntryEncoded(inner, flags, entry)|
    decreases inner, 1
  {
    hide Encoded, Consumed, Fits;
    ReadsNoMore(inner, flags, entry.value);
  }

  lemma {:induction false} EntriesReadNoMore(inner: Schema, flags: Flags, entries: seq<Entry>)
    requires forall e <- entries :: Fits(inner, e.value)
    ensures EntriesConsumed(inner, flags, entries) <= |EntriesEncoded(inner, flags, entries)|
    decreases inner, 2, |entries|
  {
    hide EntryEncoded, EntryConsumed, Fits;
    if entries != [] {
      EntryReadsNoMore(inner, flags, entries[0]);
      EntriesReadNoMore(inner, flags, entries[1..]);
    }
  }

  lemma {:induction false} ItemsReadNoMore(inner: Schema, flags: Flags, items: seq<Value>)
    requires forall v <- items :: Fits(inner, v)
    ensures ItemsConsumed(inner, flags, items) <= |ItemsEncoded(inner, flags, items)|
    decreases inner, 1, |items|
  {
    if items != [] {
      ReadsNoMore(inner, flags, items[0]);
      ItemsReadNoMore(inner, flags, items[1..]);
    }
  }

  // The theorem.

  /** Reading gives the value and the place behind it. */
  predicate Returns(s: string, at: nat, schema: Schema, flags: Flags, value: Value, depth: nat)
    requires Fits(schema, value)
  {
    ValueAt(s, at, schema, flags, depth) == Got(value, at + |Encoded(schema, flags, value)|)
  }

  /** Reading where a value stands returns it exactly when the value is plain. */
  lemma {:induction false} RoundTrip(s: string, at: nat, schema: Schema, flags: Flags, value: Value, depth: nat)
    requires Fits(schema, value)
    requires Has(s, at, Encoded(schema, flags, value))
    ensures Returns(s, at, schema, flags, value, depth) <==> Plain(schema, flags, value, depth)
    decreases schema, 0
  {
    hide Returns, Plain, Fits, Encoded, Has;
    match schema
    case Integer(_) => IntegerReturns(s, at, schema, flags, value, depth);
    case Boolean => BooleanReturns(s, at, schema, flags, value, depth);
    case Text => TextReturns(s, at, schema, flags, value, depth);
    case Optional(inner) => OptionalReturns(s, at, inner, flags, value, depth);
    case Record(fields) => RecordReturns(s, at, fields, flags, value, depth);
    case Dictionary(inner) => DictionaryReturns(s, at, inner, flags, value, depth);
    case Vector(inner) => VectorReturns(s, at, inner, flags, value, depth);
  }

  lemma IntegerReturns(s: string, at: nat, schema: Schema, flags: Flags, value: Value, depth: nat)
    requires schema.Integer? && Fits(schema, value) && Has(s, at, Encoded(schema, flags, value))
    ensures Returns(s, at, schema, flags, value, depth) <==> Plain(schema, flags, value, depth)
  {
    hide Bytes, Unsigned, Reading, Holds, Width;
    NumberReads(s, at, TypeOf(flags.ask, schema.own), value.i);
    NumberReturns(TypeOf(flags.ask, schema.own), value.i);
  }

  lemma BooleanReturns(s: string, at: nat, schema: Schema, flags: Flags, value: Value, depth: nat)
    requires schema.Boolean? && Fits(schema, value) && Has(s, at, Encoded(schema, flags, value))
    ensures Returns(s, at, schema, flags, value, depth) <==> Plain(schema, flags, value, depth)
  {
    hide BoolBytes, BoolAt, BoolPlain;
    BoolReads(s, at, flags.ask, value.b);
  }

  lemma TextReturns(s: string, at: nat, schema: Schema, flags: Flags, value: Value, depth: nat)
    requires schema.Text? && Fits(schema, value) && Has(s, at, Encoded(schema, flags, value))
    ensures Returns(s, at, schema, flags, value, depth) <==> Plain(schema, flags, value, depth)
  {
    hide TextAt, TextPlain, TextBytes;
    TextReads(s, at, flags.ask, value.s);
  }

  lemma {:induction false} OptionalReturns(s: string, at: nat, inner: Schema, flags: Flags, value: Value, depth: nat)
    requires Fits(Optional(inner), value)
    requires Has(s, at, Encoded(Optional(inner), flags, value))
    ensures Returns(s, at, Optional(inner), flags, value, depth) <==> Plain(Optional(inner), flags, value, depth)
    decreases inner, 5
  {
    hide BoolBytes, BoolPlain, BoolAt;
    var bytes := BoolBytes(flags.ask, value.Some?);
    HasParts(s, at, bytes, if value.Some? then Encoded(inner, flags, value.value) else []);
    BoolReads(s, at, flags.ask, value.Some?);
    if value.Some? {
      if BoolPlain(flags.ask) {
        RoundTrip(s, at + 1, inner, flags, value.value, depth);
      } else if ValueAt(s, at + 1, inner, flags, depth).Got? {
        ValueConsumes(s, at + 1, inner, flags, depth);
        ReadsNoMore(inner, flags, value.value);
      }
    }
  }

  lemma {:induction false} RecordReturns(s: string, at: nat, fields: seq<Field>, flags: Flags, value: Value, depth: nat)
    requires Fits(Record(fields), value)
    requires Has(s, at, Encoded(Record(fields), flags, value))
    ensures Returns(s, at, Record(fields), flags, value, depth) <==> Plain(Record(fields), flags, value, depth)
    decreases fields, 5
  {
    hide FieldsAt, FieldsEncoded, FieldsPlain, FieldsFit, Has;
    if fields != [] { FieldsReturn(s, at, fields, flags, value.values, depth); }
  }

  lemma {:induction false} FieldReturns(s: string, at: nat, field: Field, flags: Flags, value: Value, depth: nat)
    requires FieldFits(field, value)
    requires Has(s, at, FieldEncoded(field, flags, value))
    ensures FieldAt(s, at, field, flags, depth) == Got(value, at + |FieldEncoded(field, flags, value)|)
            <==> FieldPlain(field, flags, value, depth)
    decreases field, 2
  {
    RoundTrip(s, at, field.schema, Inside(flags, field), value, depth);
  }

  lemma {:induction false} FieldsReturn(s: string, at: nat, fields: seq<Field>, flags: Flags, values: seq<Value>,
                                        depth: nat)
    requires |fields| == |values| && FieldsFit(fields, values)
    requires Has(s, at, FieldsEncoded(fields, flags, values))
    ensures FieldsAt(s, at, fields, flags, depth) == Got(values, at + |FieldsEncoded(fields, flags, values)|)
            <==> FieldsPlain(fields, flags, values, depth)
    decreases fields, 1
  {
    hide FieldAt, FieldEncoded, FieldPlain, FieldFits, FieldConsumed, Has;
    if fields != [] {
      var first := FieldEncoded(fields[0], flags, values[0]);
      HasParts(s, at, first, FieldsEncoded(fields[1..], flags, values[1..]));
      FieldReturns(s, at, fields[0], flags, values[0], depth);
      FieldsReturn(s, at + |first|, fields[1..], flags, values[1..], depth);
      assert [values[0]] + values[1..] == values;
      if FieldsAt(s, at, fields, flags, depth) == Got(values, at + |FieldsEncoded(fields, flags, values)|) {
        var v := FieldAt(s, at, fields[0], flags, depth);
        var vs := FieldsAt(s, v.at, fields[1..], flags, depth);
        assert ([v.value] + vs.value)[0] == v.value && ([v.value] + vs.value)[1..] == vs.value;
        FieldConsumes(s, at, fields[0], flags, depth);
        FieldReadsNoMore(fields[0], flags, values[0]);
        FieldsConsume(s, v.at, fields[1..], flags, depth);
        FieldsReadNoMore(fields[1..], flags, values[1..]);
      }
    }
  }

  lemma {:induction false} DictionaryReturns(s: string, at: nat, inner: Schema, flags: Flags, value: Value, depth: nat)
    requires Fits(Dictionary(inner), value)
    requires Has(s, at, Encoded(Dictionary(inner), flags, value))
    ensures Returns(s, at, Dictionary(inner), flags, value, depth) <==> Plain(Dictionary(inner), flags, value, depth)
    decreases inner, 5
  {
    hide SizeBytes, SizeAt, SizeRead, CountPlain, EntriesPlain, EntriesEncoded, EntriesAt, SizeWidth, AsInt32, Has;
    if !flags.layoutKnown {
      var entries := value.entries;
      var size := AsInt32(|entries|);
      HasParts(s, at, SizeBytes(flags.ask, size), EntriesEncoded(inner, flags, entries));
      SizeReads(s, at, flags.ask, size);
      CountReturns(flags.ask, |entries|);
      EntriesReturn(s, at + SizeWidth(flags.ask), inner, flags, entries, depth);
    }
  }

  lemma {:induction false} EntryReturns(s: string, at: nat, inner: Schema, flags: Flags, entry: Entry, depth: nat)
    requires !flags.layoutKnown && Fits(inner, entry.value)
    requires Has(s, at, EntryEncoded(inner, flags, entry))
    ensures EntryAt(s, at, inner, flags, depth) == Got(entry, at + |EntryEncoded(inner, flags, entry)|)
            <==> EntryPlain(inner, flags, entry, depth)
    decreases inner, 1
  {
    hide TextAt, TextBytes, TextPlain, ValueAt, Encoded, Plain, Fits, Has, Consumed;
    var first, second := TextBytes(flags.ask, entry.name), Encoded(inner, flags, entry.value);
    HasParts(s, at, first, second);
    TextReads(s, at, flags.ask, entry.name);
    RoundTrip(s, at + |first|, inner, flags, entry.value, depth);
    if EntryAt(s, at, inner, flags, depth) == Got(entry, at + |EntryEncoded(inner, flags, entry)|) {
      ValueConsumes(s, TextAt(s, at, flags.ask).at, inner, flags, depth);
      ReadsNoMore(inner, flags, entry.value);
    }
  }

  lemma {:induction false} EntriesReturn(s: string, at: nat, inner: Schema, flags: Flags, entries: seq<Entry>,
                                         depth: nat)
    requires !flags.layoutKnown && forall e <- entries :: Fits(inner, e.value)
    requires Has(s, at, EntriesEncoded(inner, flags, entries))
    ensures EntriesAt(s, at, inner, flags, depth, |entries|)
            == Got(entries, at + |EntriesEncoded(inner, flags, entries)|)
            <==> EntriesPlain(inner, flags, entries, depth)
    decreases inner, 2, |entries|
  {
    hide EntryAt, EntryEncoded, EntryPlain, EntryConsumed, Fits, Has;
    if entries != [] {
      var first := EntryEncoded(inner, flags, entries[0]);
      HasParts(s, at, first, EntriesEncoded(inner, flags, entries[1..]));
      EntryReturns(s, at, inner, flags, entries[0], depth);
      EntriesReturn(s, at + |first|, inner, flags, entries[1..], depth);
      assert [entries[0]] + entries[1..] == entries;
      if EntriesAt(s, at, inner, flags, depth, |entries|)
          == Got(entries, at + |EntriesEncoded(inner, flags, entries)|) {
        FirstEntryReturned(s, at, inner, flags, entries, depth);
      }
    }
  }

  /** If entries return, their first one did. */
  lemma FirstEntryReturned(s: string, at: nat, inner: Schema, flags: Flags, entries: seq<Entry>, depth: nat)
    requires !flags.layoutKnown && entries != [] && forall e <- entries :: Fits(inner, e.value)
    requires EntriesAt(s, at, inner, flags, depth, |entries|)
             == Got(entries, at + |EntriesEncoded(inner, flags, entries)|)
    ensures var next := at + |EntryEncoded(inner, flags, entries[0])|;
            && EntryAt(s, at, inner, flags, depth) == Got(entries[0], next)
            && EntriesAt(s, next, inner, flags, depth, |entries| - 1)
               == Got(entries[1..], next + |EntriesEncoded(inner, flags, entries[1..])|)
  {
    hide EntryAt, EntryEncoded, EntryConsumed, Fits;
    var e := EntryAt(s, at, inner, flags, depth);
    var es := EntriesAt(s, e.at, inner, flags, depth, |entries| - 1);
    assert ([e.value] + es.value)[0] == e.value && ([e.value] + es.value)[1..] == es.value;
    EntryConsumes(s, at, inner, flags, depth);
    EntryReadsNoMore(inner, flags, entries[0]);
    EntriesConsume(s, e.at, inner, flags, depth, |entries| - 1);
    EntriesReadNoMore(inner, flags, entries[1..]);
  }

  lemma VectorReturns(s: string, at: nat, inner: Schema, flags: Flags, value: Value, depth: nat)
    requires Fits(Vector(inner), value)
    requires Has(s, at, Encoded(Vector(inner), flags, value))
    ensures Returns(s, at, Vector(inner), flags, value, depth) <==> Plain(Vector(inner), flags, value, depth)
  {
    hide SizeBytes, SizeAt, SizeRead, SizeWidth, AsInt32, ItemsRead, Has;
    if depth < MAX_DEPTH {
      var items := value.items;
      HasParts(s, at, SizeBytes(flags.ask, AsInt32(|items|)), ItemsEncoded(inner, flags, items));
      SizeReads(s, at, flags.ask, AsInt32(|items|));
      ArraysFallShort(flags.ask, |items|);
      var read := ItemsAt(s, at + SizeWidth(flags.ask), inner, flags, depth + 1,
                          ItemsRead(SizeRead(flags.ask, AsInt32(|items|))));
      assert read.Got? ==> (|read.value| == |items| <==> items == []);
    }
  }

  // What is left of an array.

  lemma FrontOf<T>(items: seq<T>, count: nat)
    requires 0 < count <= |items|
    ensures items[..count][0] == items[0] && items[..count][1..] == items[1..][..count - 1]
    ensures [items[0]] + items[1..][..count - 1] == items[..count]
  {
  }

  lemma {:induction false} FirstItemsReturn(s: string, at: nat, inner: Schema, flags: Flags, items: seq<Value>,
      depth: nat, count: nat)
    requires forall v <- items :: Fits(inner, v) && Plain(inner, flags, v, depth)
    requires count <= |items|
    requires Has(s, at, ItemsEncoded(inner, flags, items))
    ensures ItemsAt(s, at, inner, flags, depth, count)
            == Got(items[..count], at + |ItemsEncoded(inner, flags, items[..count])|)
    decreases count
  {
    hide ValueAt, Encoded, Plain, Fits, Has;
    if count > 0 {
      var first, rest := Encoded(inner, flags, items[0]), items[1..];
      assert items[0] in items && forall v <- rest :: v in items;
      HasParts(s, at, first, ItemsEncoded(inner, flags, rest));
      RoundTrip(s, at, inner, flags, items[0], depth);
      FirstItemsReturn(s, at + |first|, inner, flags, rest, depth, count - 1);
      FrontOf(items, count);
    }
  }

  /** An array loses its last element, and the reader stops in front of it. */
  lemma ArraysLoseTheLast(s: string, at: nat, inner: Schema, flags: Flags, items: seq<Value>, depth: nat)
    requires items != [] && depth < 3 && CountPlain(flags.ask, |items|)
    requires forall v <- items :: Fits(inner, v) && Plain(inner, flags, v, depth + 1)
    requires Has(s, at, Encoded(Vector(inner), flags, List(items)))
    ensures var front := items[..|items| - 1];
            ValueAt(s, at, Vector(inner), flags, depth)
            == Got(List(front), at + SizeWidth(flags.ask) + |ItemsEncoded(inner, flags, front)|)
  {
    hide SizeBytes, SizeAt, SizeRead, SizeWidth, AsInt32, ItemsRead, Has, Plain, ItemsEncoded, CountPlain;
    HasParts(s, at, SizeBytes(flags.ask, AsInt32(|items|)), ItemsEncoded(inner, flags, items));
    SizeReads(s, at, flags.ask, AsInt32(|items|));
    ArraysFallShort(flags.ask, |items|);
    FirstItemsReturn(s, at + SizeWidth(flags.ask), inner, flags, items, depth + 1, |items| - 1);
  }
}
