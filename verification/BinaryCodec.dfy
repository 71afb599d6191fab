/** The writer and the reader of the binary format, driven by the typed serialisers. */
module BinaryCodec {
  import opened Decimal
  import opened LittleEndian
  import opened BinaryFormat

  class Output {
    var contents: string

    constructor (contents: string)
      ensures this.contents == contents
    {
      this.contents := contents;
    }

    method WriteInt(t: Number, value: int)
      modifies this
      ensures contents == old(contents) + NumberBytes(t, value)
    {
      contents := contents + NumberBytes(t, value);
    }

    method WriteSize(ask: Ask, size: int)
      modifies this
      ensures contents == old(contents) + SizeBytes(ask, size)
    {
      if ask.As? { WriteInt(ask.number, size); }
      WriteInt(Together(ask, UInt16), size);
    }

    method WriteString(ask: Ask, value: string)
      modifies this
      ensures contents == old(contents) + TextBytes(ask, value)
    {
      hide SizeBytes;
      WriteSize(ask, |value|);
      assert old(contents) + SizeBytes(ask, |value|) + value == old(contents) + (SizeBytes(ask, |value|) + value);
      contents := contents + value;
    }

    method WriteBool(ask: Ask, value: bool)
      modifies this
      ensures contents == old(contents) + BoolBytes(ask, value)
    {
      WriteInt(Together(ask, Int8), if value then 1 else 0);
    }

    method StartWritingObject(flags: Flags, size: int)
      modifies this
      ensures contents == old(contents) + if flags.layoutKnown then [] else SizeBytes(flags.ask, size)
    {
      if !flags.layoutKnown { WriteSize(flags.ask, size); }
    }

    method IntroduceObjectMember(flags: Flags, name: string)
      modifies this
      ensures contents == old(contents) + NameEncoded(flags, name)
    {
      if !flags.layoutKnown { WriteString(flags.ask, name); }
    }

    /** The typed serialisers. */
    method WriteValue(schema: Schema, flags: Flags, value: Value)
      requires Fits(schema, value)
      modifies this
      ensures contents == old(contents) + Encoded(schema, flags, value)
      decreases schema, 0
    {
      hide NumberBytes, SizeBytes, TextBytes, BoolBytes, NameEncoded, FieldsEncoded, EntriesEncoded, ItemsEncoded,
          FieldsFit;
      match schema
      case Integer(own) => WriteInt(TypeOf(flags.ask, own), value.i);
      case Boolean => WriteBool(flags.ask, value.b);
      case Text => WriteString(flags.ask, value.s);
      case Optional(inner) =>
        WriteBool(flags.ask, value.Some?);
        if value.Some? { WriteValue(inner, flags, value.value); }
      case Record(fields) =>
        StartWritingObject(Flags(true, flags.ask), |fields|);
        WriteFields(fields, flags, value.values);
      case Dictionary(inner) =>
        StartWritingObject(flags, AsInt32(|value.entries|));
        WriteEntries(inner, flags, value.entries);
      case Vector(inner) =>
        WriteSize(flags.ask, AsInt32(|value.items|));
        WriteItems(inner, flags, value.items);
    }

    method WriteField(field: Field, flags: Flags, value: Value)
      requires FieldFits(field, value)
      modifies this
      ensures contents == old(contents) + FieldEncoded(field, flags, value)
      decreases field, 2
    {
      WriteValue(field.schema, Inside(flags, field), value);
    }

    /** The members of an object follow one another by recursion over their indices. */
    method WriteFields(fields: seq<Field>, flags: Flags, values: seq<Value>)
      requires |fields| == |values| && FieldsFit(fields, values)
      modifies this
      ensures contents == old(contents) + FieldsEncoded(fields, flags, values)
      decreases fields, 1
    {
      hide FieldEncoded, FieldFits;
      if fields != [] {
        WriteField(fields[0], flags, values[0]);
        WriteFields(fields[1..], flags, values[1..]);
      }
    }

    method WriteEntries(inner: Schema, flags: Flags, entries: seq<Entry>)
      requires forall e <- entries :: Fits(inner, e.value)
      modifies this
      ensures contents == old(contents) + EntriesEncoded(inner, flags, entries)
      decreases inner, 2
    {
      hide NameEncoded, Encoded, Fits;
      var index := 0;
      while index < |entries|
        invariant index <= |entries|
        invariant contents + EntriesEncoded(inner, flags, entries[index..])
            == old(contents) + EntriesEncoded(inner, flags, entries)
      {
        var e := entries[index];
        var rest := entries[index..];
        assert rest[0] == e && rest[1..] == entries[index + 1..];
        ghost var more := EntriesEncoded(inner, flags, rest[1..]);
        assert contents + (NameEncoded(flags, e.name) + Encoded(inner, flags, e.value) + more)
            == contents + NameEncoded(flags, e.name) + Encoded(inner, flags, e.value) + more;
        IntroduceObjectMember(flags, e.name);
        WriteValue(inner, flags, e.value);
        index := index + 1;
      }
      assert entries[index..] == [] && contents + [] == contents;
    }

    method WriteItems(inner: Schema, flags: Flags, items: seq<Value>)
      requires forall v <- items :: Fits(inner, v)
      modifies this
      ensures contents == old(contents) + ItemsEncoded(inner, flags, items)
      decreases inner, 2
    {
      hide Encoded, Fits;
      var index := 0;
      while index < |items|
        invariant index <= |items|
        invariant contents + ItemsEncoded(inner, flags, items[index..])
            == old(contents) + ItemsEncoded(inner, flags, items)
      {
        var rest := items[index..];
        assert rest[0] == items[index] && rest[1..] == items[index + 1..];
        ghost var more := ItemsEncoded(inner, flags, rest[1..]);
        assert contents + (Encoded(inner, flags, items[index]) + more)
            == contents + Encoded(inner, flags, items[index]) + more;
        WriteValue(inner, flags, items[index]);
        index := index + 1;
      }
      assert items[index..] == [] && contents + [] == contents;
    }
  }

  /** What was read so far, put before what is read next. */
  function Ahead<T>(done: seq<T>, next: Read<seq<T>>): Read<seq<T>> {
    if next.Failed? then next else Got(done + next.value, next.at)
  }

  lemma AheadStep<T>(done: seq<T>, one: T, next: Read<seq<T>>)
    ensures Ahead(done, if next.Failed? then next else Got([one] + next.value, next.at)) == Ahead(done + [one], next)
  {
    if next.Got? { assert done + ([one] + next.value) == done + [one] + next.value; }
  }

  lemma AheadOfAll<T>(next: Read<seq<T>>)
    ensures Ahead([], next) == next
  {
    if next.Got? { assert [] + next.value == next.value; }
  }

  class Input {
    const contents: string
    var position: nat
    const sizes: array<int>
    var depth: int

    ghost predicate Valid()
      reads this
    {
      sizes.Length == MAX_DEPTH && -1 <= depth < MAX_DEPTH
    }

    constructor (contents: string)
      ensures Valid() && fresh(sizes)
      ensures this.contents == contents && position == 0 && depth == -1
    {
      this.contents := contents;
      position := 0;
      sizes := new int[MAX_DEPTH];
      depth := -1;
    }

    method ReadInt(t: Number) returns (r: Read<int>)
      modifies this`position
      ensures r == NumberAt(contents, old(position), t)
      ensures r.Got? ==> position == r.at
    {
      if position + Width(t) > |contents| {
        return Failed(Incomplete);
      }
      r := Got(Reading(t, Unsigned(contents[position..position + Width(t)])), position + Width(t));
      position := position + Width(t);
    }

    method ReadSize(ask: Ask) returns (r: Read<int>)
      modifies this`position
      ensures r == SizeAt(contents, old(position), ask)
      ensures r.Got? ==> position == r.at
    {
      hide NumberAt;
      if ask.As? {
        r := ReadInt(ask.number);
        if r.Failed? {
          return;
        }
      }
      r := ReadInt(Together(ask, UInt16));
    }

    method ReadString(ask: Ask) returns (r: Read<string>)
      modifies this`position
      ensures r == TextAt(contents, old(position), ask)
      ensures r.Got? ==> position == r.at
    {
      hide SizeAt;
      var length := ReadSize(ask);
      if length.Failed? {
        return Failed(length.fault);
      }
      if length.value < 0 || position + length.value > |contents| {
        return Failed(Incomplete);
      }
      r := Got(contents[position..position + length.value], position + length.value);
      position := position + length.value;
    }

    method ReadBool() returns (r: Read<bool>)
      modifies this`position
      ensures r == BoolAt(contents, old(position))
      ensures r.Got? ==> position == r.at
    {
      if position + 1 > |contents| {
        return Failed(Incomplete);
      }
      r := Got(contents[position] != '\0', position + 1);
      position := position + 1;
    }

    method StartReadingArray(ask: Ask) returns (r: Read<int>)
      requires Valid()
      modifies this, sizes
      ensures r == if old(depth) == MAX_DEPTH - 1 then Failed(TooDeep) else SizeAt(contents, old(position), ask)
      ensures r.Got? ==> Valid() && position == r.at && depth == old(depth) + 1 && sizes[depth] == AsInt32(r.value)
      ensures r.Got? ==> forall k :: 0 <= k < depth ==> sizes[k] == old(sizes[k])
    {
      depth := depth + 1;
      if depth == MAX_DEPTH {
        return Failed(TooDeep);
      }
      r := ReadSize(ask);
      if r.Got? { sizes[depth] := AsInt32(r.value); }
    }

    method NextArrayElement() returns (more: bool)
      requires Valid() && depth >= 0
      modifies sizes
      ensures sizes[depth] == old(sizes[depth]) - 1
      ensures forall k :: 0 <= k < depth ==> sizes[k] == old(sizes[k])
      ensures more <==> sizes[depth] > 0
    {
      sizes[depth] := sizes[depth] - 1;
      more := sizes[depth] > 0;
    }

    method EndReadingArray()
      requires Valid() && depth >= 0
      modifies this`depth, sizes
      ensures Valid() && depth == old(depth) - 1
      ensures forall k :: 0 <= k <= depth ==> sizes[k] == old(sizes[k])
    {
      sizes[depth] := -1;
      depth := depth - 1;
    }

    /** Nothing of what surrounds a value is disturbed by reading it. */
    twostate predicate Kept(at: nat)
      reads this, sizes
    {
      && old(Valid())
      && Valid() && position == at && depth == old(depth)
      && forall k :: 0 <= k <= depth ==> sizes[k] == old(sizes[k])
    }

    /** The typed serialisers. */
    method ReadValue(schema: Schema, flags: Flags) returns (r: Read<Value>)
      requires Valid()
      modifies this, sizes
      ensures r == ValueAt(contents, old(position), schema, flags, old(depth) + 1)
      ensures r.Got? ==> Kept(r.at)
      decreases schema, 0
    {
      hide NumberAt, TextAt, BoolAt, SizeAt, FieldsAt, EntriesAt, ItemsAt, Fits;
      match schema
      case Integer(own) =>
        var n := ReadInt(TypeOf(flags.ask, own));
        r := if n.Failed? then Failed(n.fault) else Got(Int(n.value), n.at);
      case Boolean =>
        var b := ReadBool();
        r := if b.Failed? then Failed(b.fault) else Got(Bool(b.value), b.at);
      case Text =>
        var t := ReadString(flags.ask);
        r := if t.Failed? then Failed(t.fault) else Got(Str(t.value), t.at);
      case Optional(inner) =>
        var present := ReadBool();
        if present.Failed? {
          return Failed(present.fault);
        }
        if !present.value {
          return Got(None, present.at);
        }
        var v := ReadValue(inner, flags);
        r := if v.Failed? then v else Got(Some(v.value), v.at);
      case Record(fields) =>
        var vs := ReadFields(fields, flags);
        r := if vs.Failed? then Failed(vs.fault) else Got(Struct(vs.value), vs.at);
      case Dictionary(inner) =>
        if flags.layoutKnown {
          return Failed(NoName);
        }
        var es := ReadEntries(inner, flags);
        r := if es.Failed? then Failed(es.fault) else Got(Dict(es.value), es.at);
      case Vector(inner) =>
        var vs := ReadItems(inner, flags);
        r := if vs.Failed? then Failed(vs.fault) else Got(List(vs.value), vs.at);
    }

    method ReadField(field: Field, flags: Flags) returns (r: Read<Value>)
      requires Valid()
      modifies this, sizes
      ensures r == FieldAt(contents, old(position), field, flags, old(depth) + 1)
      ensures r.Got? ==> Kept(r.at)
      decreases field, 2
    {
      r := ReadValue(field.schema, Inside(flags, field));
    }

    /** An object of known layout: members by index, until there is none behind the one just read. */
    method ReadFields(fields: seq<Field>, flags: Flags) returns (r: Read<seq<Value>>)
      requires Valid()
      modifies this, sizes
      ensures r == if fields == [] then Failed(CannotSkip)
              else FieldsAt(contents, old(position), fields, flags, old(depth) + 1)
      ensures r.Got? ==> Kept(r.at)
      decreases fields, 1
    {
      hide FieldAt, FieldFits;
      if fields == [] {
        return Failed(CannotSkip);
      }
      var values := [];
      var index := 0;
      var more := true;
      assert fields[0..] == fields;
      AheadOfAll(FieldsAt(contents, position, fields, flags, depth + 1));
      while more
        invariant index <= |fields|
        invariant more <==> index < |fields|
        invariant Kept(position)
        invariant FieldsAt(contents, old(position), fields, flags, old(depth) + 1)
               == Ahead(values, FieldsAt(contents, position, fields[index..], flags, old(depth) + 1))
        decreases |fields| - index
      {
        ghost var rest := fields[index..];
        assert rest[0] == fields[index] && rest[1..] == fields[index + 1..];
        var v := ReadField(fields[index], flags);
        if v.Failed? {
          return Failed(v.fault);
        }
        AheadStep(values, v.value, FieldsAt(contents, v.at, rest[1..], flags, depth + 1));
        values := values + [v.value];
        more := index < |fields| - 1;
        index := index + 1;
      }
      assert values + [] == values && fields[index..] == [];
      r := Got(values, position);
    }

    method ReadEntries(inner: Schema, flags: Flags) returns (r: Read<seq<Entry>>)
      requires Valid()
      modifies this, sizes
      ensures var size := SizeAt(contents, old(position), flags.ask);
              r == if size.Failed? then Failed(size.fault)
                   else EntriesAt(contents, size.at, inner, flags, old(depth) + 1,
                                  if size.value < 0 then 0 else size.value)
      ensures r.Got? ==> Kept(r.at)
      decreases inner, 1
    {
      hide SizeAt, TextAt, ValueAt, Fits;
      var size := ReadSize(flags.ask);
      if size.Failed? {
        return Failed(size.fault);
      }
      ghost var count: nat := if size.value < 0 then 0 else size.value;
      var entries := [];
      var index := 0;
      AheadOfAll(EntriesAt(contents, position, inner, flags, depth + 1, count));
      while index < size.value
        invariant index <= count
        invariant Kept(position)
        invariant EntriesAt(contents, size.at, inner, flags, old(depth) + 1, count)
               == Ahead(entries, EntriesAt(contents, position, inner, flags, old(depth) + 1, count - index))
      {
        var name := ReadString(flags.ask);
        if name.Failed? {
          return Failed(name.fault);
        }
        var v := ReadValue(inner, flags);
        if v.Failed? {
          return Failed(v.fault);
        }
        AheadStep(entries, Entry(name.value, v.value),
            EntriesAt(contents, v.at, inner, flags, depth + 1, count - index - 1));
        entries := entries + [Entry(name.value, v.value)];
        index := index + 1;
      }
      assert entries + [] == entries;
      r := Got(entries, position);
    }

    method ReadItems(inner: Schema, flags: Flags) returns (r: Read<seq<Value>>)
      requires Valid()
      modifies this, sizes
      ensures var size := SizeAt(contents, old(position), flags.ask);
              r == if old(depth) + 1 >= MAX_DEPTH then Failed(TooDeep)
                   else if size.Failed? then Failed(size.fault)
                   else ItemsAt(contents, size.at, inner, flags, old(depth) + 2, ItemsRead(size.value))
      ensures r.Got? ==> Kept(r.at)
      decreases inner, 1
    {
      hide SizeAt, ValueAt, Fits, AsInt32;
      var size := StartReadingArray(flags.ask);
      if size.Failed? {
        return Failed(size.fault);
      }
      var items := [];
      ghost var left := ItemsRead(size.value);
      var more := NextArrayElement();
      AheadOfAll(ItemsAt(contents, position, inner, flags, depth + 1, left));
      while more
        invariant Valid() && depth == old(depth) + 1
        invariant forall k :: 0 <= k < depth ==> sizes[k] == old(sizes[k])
        invariant left == if more then sizes[depth] else 0
        invariant more <==> left > 0
        invariant ItemsAt(contents, size.at, inner, flags, depth + 1, ItemsRead(size.value))
               == Ahead(items, ItemsAt(contents, position, inner, flags, depth + 1, left))
        decreases left
      {
        var v := ReadValue(inner, flags);
        if v.Failed? {
          return Failed(v.fault);
        }
        AheadStep(items, v.value, ItemsAt(contents, v.at, inner, flags, depth + 1, left - 1));
        items := items + [v.value];
        left := left - 1;
        more := NextArrayElement();
      }
      assert items + [] == items;
      r := Got(items, position);
      EndReadingArray();
    }
  }
}
