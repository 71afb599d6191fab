/**
  The JSON reader. The functions say what reading at a position gives; a fault is the exception that
  the reader raises there. The class does it with a moving position.
 */
module JsonInput {
  import opened Decimal
  import opened JsonText

  datatype Fault = ParseFault | RemoteFault

  /** A value and the position behind it, or the exception raised instead. */
  datatype Read<T> = Got(value: T, next: nat) | Failed(fault: Fault)

  /** The reader does not tell separators from white space. */
  predicate IsGap(c: char) { c == ' ' || c == '\t' || c == '\n' || c == '\r' || c == ',' || c == ':' }

  function SkipGap(s: string, at: nat): (p: nat)
    requires at <= |s|
    ensures at <= p <= |s| && (p < |s| ==> !IsGap(s[p]))
    decreases |s| - at
  {
    if at < |s| && IsGap(s[at]) then SkipGap(s, at + 1) else at
  }

  function Unescaped(c: char): string {
    if c == '\\' then "\\" else if c == '"' then "\"" else if c == 'n' then "\n" else []
  }

  /** The rest of a string whose opening quote was read. */
  function StringBody(s: string, at: nat): (r: Read<string>)
    requires at <= |s|
    ensures r.Got? ==> at < r.next <= |s|
    decreases |s| - at
  {
    if at == |s| then Failed(ParseFault)
    else if s[at] == '"' then Got([], at + 1)
    else if s[at] == '\\' then
      if at + 1 == |s| then Failed(ParseFault)
      else Prefixed(Unescaped(s[at + 1]), StringBody(s, at + 2))
    else Prefixed([s[at]], StringBody(s, at + 1))
  }

  function Prefixed(prefix: string, r: Read<string>): Read<string> {
    if r.Got? then Got(prefix + r.value, r.next) else r
  }

  function StringAt(s: string, at: nat): (r: Read<string>)
    requires at <= |s|
    ensures r.Got? ==> at < r.next <= |s|
  {
    var p := SkipGap(s, at);
    if p == |s| then Failed(ParseFault)
    else if s[p] != '"' then Failed(RemoteFault)
    else StringBody(s, p + 1)
  }

  predicate InNumber(c: char) { IsDigit(c) || c == '.' || c == 'e' || c == 'E' || c == '-' }

  function NumberTail(s: string, at: nat): (p: nat)
    requires at <= |s|
    ensures at <= p <= |s| && (p < |s| ==> !InNumber(s[p]))
    decreases |s| - at
  {
    if at < |s| && InNumber(s[at]) then NumberTail(s, at + 1) else at
  }

  /** A number must be followed by something: the reader looks at the next character. */
  function IntAt(s: string, at: nat): (r: Read<int>)
    requires at <= |s|
    ensures r.Got? ==> at < r.next < |s|
  {
    var p := SkipGap(s, at);
    var parsed := FromChars(s[p..], INT64_MIN, INT64_MAX);
    if parsed.value.None? then Failed(RemoteFault)
    else
      var q := NumberTail(s, p + parsed.used);
      if q == |s| then Failed(ParseFault) else Got(parsed.value.value, q)
  }

  /** The remaining letters of a literal. */
  function Expect(s: string, at: nat, word: string): (r: Read<()>)
    requires at <= |s|
    ensures r.Got? ==> r.next == at + |word| <= |s|
    decreases |word|
  {
    if word == [] then Got((), at)
    else if at == |s| then Failed(ParseFault)
    else if s[at] != word[0] then Failed(RemoteFault)
    else Expect(s, at + 1, word[1..])
  }

  function BoolAt(s: string, at: nat): (r: Read<bool>)
    requires at <= |s|
    ensures r.Got? ==> at < r.next <= |s|
  {
    var p := SkipGap(s, at);
    if p == |s| then Failed(ParseFault)
    else if s[p] == 't' || s[p] == 'f' then
      match Expect(s, p + 1, if s[p] == 't' then "rue" else "alse")
      case Got(_, next) => Got(s[p] == 't', next)
      case Failed(fault) => Failed(fault)
    else Failed(RemoteFault)
  }

  function NullAt(s: string, at: nat): (r: Read<()>)
    requires at <= |s|
    ensures r.Got? ==> at < r.next <= |s|
  {
    Expect(s, SkipGap(s, at), "null")
  }

  datatype Type = TInteger | TFloat | TString | TBoolean | TNull | TArray | TObject | TInvalid

  /** Whether the number that starts before `at` goes on as a float. */
  function NumberType(s: string, at: nat): (t: Type)
    ensures t.TInteger? || t.TFloat?
    decreases |s| - at
  {
    if at >= |s| then TInteger
    else if s[at] == '.' || s[at] == 'e' || s[at] == 'E' then TFloat
    else if !IsDigit(s[at]) then TInteger
    else NumberType(s, at + 1)
  }

  function TypeAt(s: string, at: nat): Type {
    if at >= |s| then TInvalid
    else if s[at] == '"' then TString
    else if s[at] == '-' || IsDigit(s[at]) then NumberType(s, at)
    else if s[at] == 'n' then TNull
    else if s[at] == 't' || s[at] == 'f' then TBoolean
    else if s[at] == '[' then TArray
    else if s[at] == '{' then TObject
    else TInvalid
  }

  /** Reads whatever value comes next. Floating-point numbers are not part of the model. */
  function ValueAt(s: string, at: nat): (r: Read<Json>)
    requires at <= |s|
    ensures r.Got? ==> at < r.next <= |s|
    decreases |s| - at, 0
  {
    var p := SkipGap(s, at);
    match TypeAt(s, p)
    case TInteger => (match IntAt(s, p) case Got(i, next) => Got(Int(i), next) case Failed(f) => Failed(f))
    case TString => (match StringAt(s, p) case Got(t, next) => Got(Str(t), next) case Failed(f) => Failed(f))
    case TBoolean => (match BoolAt(s, p) case Got(b, next) => Got(Bool(b), next) case Failed(f) => Failed(f))
    case TNull => (match NullAt(s, p) case Got(_, next) => Got(Null, next) case Failed(f) => Failed(f))
    case TArray =>
      (match ItemsAt(s, p + 1)
       case Got(items, next) => Got(Arr(true, items), next)
       case Failed(f) => Failed(f))
    case TObject =>
      (match MembersAt(s, p + 1)
       case Got(members, next) => Got(Obj(true, members), next)
       case Failed(f) => Failed(f))
    case _ => Failed(RemoteFault)
  }

  /** The rest of an array whose bracket, and perhaps some elements, were read. */
  function ItemsAt(s: string, at: nat): (r: Read<seq<Json>>)
    requires at <= |s|
    ensures r.Got? ==> at < r.next <= |s|
    decreases |s| - at, 1
  {
    var p := SkipGap(s, at);
    if p == |s| then Failed(ParseFault)
    else if s[p] == ']' then Got([], p + 1)
    else
      match ValueAt(s, p)
      case Failed(f) => Failed(f)
      case Got(item, next) =>
        match ItemsAt(s, next)
        case Failed(f) => Failed(f)
        case Got(items, end) => Got([item] + items, end)
  }

  function MembersAt(s: string, at: nat): (r: Read<seq<Member>>)
    requires at <= |s|
    ensures r.Got? ==> at < r.next <= |s|
    decreases |s| - at, 1
  {
    var p := SkipGap(s, at);
    if p == |s| then Failed(ParseFault)
    else if s[p] == '}' then Got([], p + 1)
    else
      match StringAt(s, p)
      case Failed(f) => Failed(f)
      case Got(name, colon) =>
        match ValueAt(s, colon)
        case Failed(f) => Failed(f)
        case Got(value, next) =>
          match MembersAt(s, next)
          case Failed(f) => Failed(f)
          case Got(members, end) => Got([Member(name, value)] + members, end)
  }

  /** `BasicJson::Input`. A failed read has raised its exception; the position is then of no further use. */
  class Input {
    const contents: string
    var position: nat
    var resultBuffer: string

    ghost predicate Valid()
      reads this
    {
      position <= |contents|
    }

    constructor (contents: string)
      ensures this.contents == contents && position == 0 && Valid()
    {
      this.contents := contents;
      position := 0;
      resultBuffer := [];
    }

    method EatWhitespace()
      requires Valid()
      modifies this`position
      ensures Valid() && position == SkipGap(contents, old(position))
    {
      while position < |contents| && IsGap(contents[position])
        invariant Valid() && SkipGap(contents, position) == SkipGap(contents, old(position))
      {
        position := position + 1;
      }
    }

    method ReadString() returns (r: Read<string>)
      requires Valid()
      modifies this`position, this`resultBuffer
      ensures Valid() && r == StringAt(contents, old(position))
      ensures r.Got? ==> position == r.next && resultBuffer == r.value
    {
      EatWhitespace();
      if position == |contents| {
        return Failed(ParseFault);
      }
      if contents[position] != '"' {
        return Failed(RemoteFault);
      }
      position := position + 1;
      resultBuffer := [];
      ghost var start := position;
      PrefixNone(StringBody(contents, start));
      while true
        invariant Valid() && start <= position
        invariant Prefixed(resultBuffer, StringBody(contents, position)) == StringBody(contents, start)
        decreases |contents| - position
      {
        ghost var before, body := resultBuffer, StringBody(contents, position);
        if position == |contents| {
          return Failed(ParseFault);
        }
        var readingChar := contents[position];
        position := position + 1;
        if readingChar == '"' {
          assert resultBuffer + [] == resultBuffer;
          return Got(resultBuffer, position);
        }
        if readingChar == '\\' {
          if position == |contents| {
            return Failed(ParseFault);
          }
          readingChar := contents[position];
          position := position + 1;
          if readingChar == '\\' {
            resultBuffer := resultBuffer + "\\";
          } else if readingChar == '"' {
            resultBuffer := resultBuffer + "\"";
          } else if readingChar == 'n' {
            resultBuffer := resultBuffer + "\n";
          }
          PrefixTwice(before, Unescaped(readingChar), StringBody(contents, position));
          assert resultBuffer == before + Unescaped(readingChar);
        } else {
          resultBuffer := resultBuffer + [readingChar];
          PrefixTwice(before, [readingChar], StringBody(contents, position));
        }
      }
    }

    method ReadInt() returns (r: Read<int>)
      requires Valid()
      modifies this`position
      ensures Valid() && r == IntAt(contents, old(position))
      ensures r.Got? ==> position == r.next
    {
      EatWhitespace();
      var parsed := FromChars(contents[position..], INT64_MIN, INT64_MAX);
      if parsed.value.None? {
        return Failed(RemoteFault);
      }
      position := position + parsed.used;
      ghost var tail := position;
      while position < |contents| && InNumber(contents[position])
        invariant Valid() && tail <= position && NumberTail(contents, position) == NumberTail(contents, tail)
      {
        position := position + 1;
      }
      if position == |contents| {
        return Failed(ParseFault);
      }
      r := Got(parsed.value.value, position);
    }

    method ReadLetters(word: string) returns (r: Read<()>)
      requires Valid()
      modifies this`position
      ensures Valid() && r == Expect(contents, old(position), word)
      ensures r.Got? ==> position == r.next
    {
      var i := 0;
      while i < |word|
        invariant i <= |word| && Valid()
        invariant Expect(contents, position, word[i..]) == Expect(contents, old(position), word)
      {
        assert word[i..][1..] == word[i + 1..];
        if position == |contents| {
          return Failed(ParseFault);
        }
        if contents[position] != word[i] {
          return Failed(RemoteFault);
        }
        position := position + 1;
        i := i + 1;
      }
      assert word[|word|..] == [];
      r := Got((), position);
    }

    method ReadBool() returns (r: Read<bool>)
      requires Valid()
      modifies this`position
      ensures Valid() && r == BoolAt(contents, old(position))
      ensures r.Got? ==> position == r.next
    {
      EatWhitespace();
      if position == |contents| {
        return Failed(ParseFault);
      }
      var readingChar := contents[position];
      position := position + 1;
      var letters;
      if readingChar == 't' {
        letters := ReadLetters("rue");
      } else if readingChar == 'f' {
        letters := ReadLetters("alse");
      } else {
        return Failed(RemoteFault);
      }
      match letters
      case Got(_, next) => r := Got(readingChar == 't', next);
      case Failed(fault) => r := Failed(fault);
    }

    method ReadNull() returns (r: Read<()>)
      requires Valid()
      modifies this`position
      ensures Valid() && r == NullAt(contents, old(position))
      ensures r.Got? ==> position == r.next
    {
      EatWhitespace();
      r := ReadLetters("null");
    }

    method IdentifyType() returns (t: Type)
      requires Valid()
      modifies this`position
      ensures Valid() && position == SkipGap(contents, old(position)) && t == TypeAt(contents, position)
    {
      EatWhitespace();
      if position >= |contents| {
        return TInvalid;
      }
      var nextChar := contents[position];
      if nextChar == '"' { return TString; }
      if nextChar == '-' || IsDigit(nextChar) {
        var i := position;
        while i < |contents|
          invariant position <= i <= |contents| && NumberType(contents, i) == NumberType(contents, position)
        {
          if contents[i] == '.' || contents[i] == 'e' || contents[i] == 'E' { return TFloat; }
          if contents[i] < '0' || contents[i] > '9' { return TInteger; }
          i := i + 1;
        }
        return TInteger;
      }
      if nextChar == 'n' { return TNull; }
      if nextChar == 't' || nextChar == 'f' { return TBoolean; }
      if nextChar == '[' { return TArray; }
      if nextChar == '{' { return TObject; }
      return TInvalid;
    }

    method StartReadingArray() returns (r: Read<()>)
      requires Valid()
      modifies this`position
      ensures Valid()
      ensures var p := SkipGap(contents, old(position));
              r == if p == |contents| then Failed(ParseFault)
                   else if contents[p] != '[' then Failed(RemoteFault) else Got((), p + 1)
      ensures r.Got? ==> position == r.next
    {
      EatWhitespace();
      if position == |contents| { return Failed(ParseFault); }
      if contents[position] != '[' { return Failed(RemoteFault); }
      position := position + 1;
      r := Got((), position);
    }

    method NextArrayElement() returns (r: Read<bool>)
      requires Valid()
      modifies this`position
      ensures Valid()
      ensures position == SkipGap(contents, old(position))
      ensures r == if position == |contents| then Failed(ParseFault) else Got(contents[position] != ']', position)
    {
      EatWhitespace();
      if position == |contents| { return Failed(ParseFault); }
      r := Got(contents[position] != ']', position);
    }

    /** Steps over the bracket or brace that closes a container. */
    method EndReading() returns (r: Read<()>)
      requires Valid()
      modifies this`position
      ensures Valid()
      ensures var p := SkipGap(contents, old(position));
              r == if p == |contents| then Failed(ParseFault) else Got((), p + 1)
      ensures r.Got? ==> position == r.next
    {
      EatWhitespace();
      if position == |contents| { return Failed(ParseFault); }
      position := position + 1;
      r := Got((), position);
    }

    /** Reads the next value, whatever its type. */
    method ReadValue() returns (r: Read<Json>)
      requires Valid()
      modifies this`position, this`resultBuffer
      ensures Valid() && r == ValueAt(contents, old(position))
      ensures r.Got? ==> position == r.next
      decreases |contents| - position, 0
    {
      var at := position;
      var t := IdentifyType();
      match t
      case TInteger =>
        var i := ReadInt();
        r := match i case Got(v, next) => Got(Int(v), next) case Failed(f) => Failed(f);
      case TString =>
        var i := ReadString();
        r := match i case Got(v, next) => Got(Str(v), next) case Failed(f) => Failed(f);
      case TBoolean =>
        var i := ReadBool();
        r := match i case Got(v, next) => Got(Bool(v), next) case Failed(f) => Failed(f);
      case TNull =>
        var i := ReadNull();
        r := match i case Got(v, next) => Got(Null, next) case Failed(f) => Failed(f);
      case TArray =>
        var started := StartReadingArray();
        var items := ReadVector([]);
        r := match items case Got(v, next) => Got(Arr(true, v), next) case Failed(f) => Failed(f);
      case TObject =>
        position := position + 1;
        var members := ReadMembers();
        r := match members case Got(v, next) => Got(Obj(true, v), next) case Failed(f) => Failed(f);
      case _ => r := Failed(RemoteFault);
    }

    /** The serialiser of vectors reads into a vector that may already have elements, as many as it likes. */
    method ReadVector(target: seq<Json>) returns (r: Read<seq<Json>>)
      requires Valid()
      modifies this`position, this`resultBuffer
      ensures Valid() && r == ItemsAt(contents, old(position))
      ensures r.Got? ==> position == r.next
      decreases |contents| - position, 1
    {
      hide ItemsAt, ValueAt;
      var value := target;
      var index := 0;
      ghost var start := position;
      PrefixItemsNone(ItemsAt(contents, start));
      while true
        invariant Valid() && start <= position && index <= |value|
        invariant ItemsAt(contents, start) == PrefixedItems(value[..index], ItemsAt(contents, position))
        decreases |contents| - position
      {
        ItemsStep(contents, position);
        var more := NextArrayElement();
        if more.Failed? { return Failed(more.fault); }
        if !more.value { break; }
        ghost var before := value[..index];
        if |value| < index + 1 {
          value := value + [Null];
        }
        assert value[..index] == before;
        var item := ReadValue();
        if item.Failed? { return Failed(item.fault); }
        value := value[index := item.value];
        index := index + 1;
        assert value[..index] == before + [item.value];
        PrefixItemsTwice(before, [item.value], ItemsAt(contents, position));
      }
      if |value| > index {
        value := value[..index];
      }
      var end := EndReading();
      assert value == value[..index] == value[..index] + [];
      r := Got(value, position);
    }

    method ReadMembers() returns (r: Read<seq<Member>>)
      requires Valid()
      modifies this`position, this`resultBuffer
      ensures Valid() && r == MembersAt(contents, old(position))
      ensures r.Got? ==> position == r.next
      decreases |contents| - position, 1
    {
      hide MembersAt, ValueAt, StringAt;
      var members: seq<Member> := [];
      ghost var start := position;
      PrefixItemsNone(MembersAt(contents, start));
      while true
        invariant Valid() && start <= position
        invariant MembersAt(contents, start) == PrefixedItems(members, MembersAt(contents, position))
        decreases |contents| - position
      {
        MembersStep(contents, position);
        EatWhitespace();
        if position == |contents| { return Failed(ParseFault); }
        if contents[position] == '}' { break; }
        var name := ReadString();
        if name.Failed? { return Failed(name.fault); }
        var value := ReadValue();
        if value.Failed? { return Failed(value.fault); }
        PrefixItemsTwice(members, [Member(name.value, value.value)], MembersAt(contents, position));
        members := members + [Member(name.value, value.value)];
      }
      var end := EndReading();
      assert members == members + [];
      r := Got(members, position);
    }
  }

  function PrefixedItems<T>(prefix: seq<T>, r: Read<seq<T>>): Read<seq<T>> {
    if r.Got? then Got(prefix + r.value, r.next) else r
  }

  lemma ItemsStep(s: string, at: nat)
    requires at <= |s|
    ensures var p, r := SkipGap(s, at), ItemsAt(s, at);
            if p == |s| then r == Failed(ParseFault)
            else if s[p] == ']' then r == Got([], p + 1)
            else match ValueAt(s, p)
                 case Failed(f) => r == Failed(f)
                 case Got(item, next) => r == PrefixedItems([item], ItemsAt(s, next))
  {
  }

  lemma MembersStep(s: string, at: nat)
    requires at <= |s|
    ensures var p, r := SkipGap(s, at), MembersAt(s, at);
            if p == |s| then r == Failed(ParseFault)
            else if s[p] == '}' then r == Got([], p + 1)
            else match StringAt(s, p)
                 case Failed(f) => r == Failed(f)
                 case Got(name, colon) =>
                   match ValueAt(s, colon)
                   case Failed(f) => r == Failed(f)
                   case Got(value, next) => r == PrefixedItems([Member(name, value)], MembersAt(s, next))
  {
  }

  lemma PrefixItemsNone<T>(r: Read<seq<T>>)
    ensures PrefixedItems([], r) == r
  {
    if r.Got? { assert [] + r.value == r.value; }
  }

  lemma PrefixNone(r: Read<string>)
    ensures Prefixed([], r) == r
  {
    if r.Got? { assert [] + r.value == r.value; }
  }

  lemma PrefixItemsTwice<T>(a: seq<T>, b: seq<T>, r: Read<seq<T>>)
    ensures PrefixedItems(a, PrefixedItems(b, r)) == PrefixedItems(a + b, r)
  {
    if r.Got? { assert a + (b + r.value) == a + b + r.value; }
  }

  lemma PrefixTwice(a: string, b: string, r: Read<string>)
    ensures Prefixed(a, Prefixed(b, r)) == Prefixed(a + b, r)
  {
    if r.Got? { assert a + (b + r.value) == a + b + r.value; }
  }
}
