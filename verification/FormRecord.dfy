/**
  Flat records in the form encoding: names as they are, values encoded, `=` between them and `&` between the
  members. The values' own separators are escaped, so the members can be told apart again.
 */
module FormRecord {
  import opened FormCodec
  import opened FormRoundTrip
  import opened Texts

  datatype Pair = Pair(name: string, value: string)

  /** `NoEquals`: a member without a sign that begins its value, where the library throws. */
  datatype Fault = NoEquals
  datatype Read<T> = Got(value: T) | Failed(fault: Fault)

  /** A name is written as it is, up to its first zero byte. */
  function UpToZero(name: string): (w: string)
    ensures w <= name
    ensures '\0' !in w && (|w| < |name| ==> name[|w|] == '\0')
  {
    if name == [] || name[0] == '\0' then [] else [name[0]] + UpToZero(name[1..])
  }

  lemma ZeroIsFirst(name: string, end: nat)
    requires end <= |name| && forall i :: 0 <= i < end ==> name[i] != '\0'
    requires end < |name| ==> name[end] == '\0'
    ensures UpToZero(name) == name[..end]
  {
    hide UpToZero;
    var w := UpToZero(name);
    assert w <= name && '\0' !in w;
  }

  predicate Writable(pairs: seq<Pair>) { forall p <- pairs :: AreBytes(p.value) }

  function MemberText(pair: Pair): (text: string)
    requires AreBytes(pair.value)
    ensures text != []
  {
    UpToZero(pair.name) + "=" + Mangle(pair.value)
  }

  function Row(pairs: seq<Pair>): string
    requires Writable(pairs)
  {
    if pairs == [] then []
    else MemberText(pairs[0]) + if |pairs| == 1 then [] else "&" + Row(pairs[1..])
  }

  class Output {
    var contents: string
    var objectIndex: int

    constructor ()
      ensures contents == [] && objectIndex == -1
    {
      contents, objectIndex := [], -1;
    }

    method StartWritingObject()
      requires objectIndex == -1
      modifies this
      ensures contents == old(contents) && objectIndex == 0
    {
      objectIndex := 0;
    }

    /** What appending `name.data()` appends. */
    static method CString(name: string) returns (text: string)
      ensures text == UpToZero(name)
    {
      var end := 0;
      while end < |name| && name[end] != '\0'
        invariant end <= |name| && forall i :: 0 <= i < end ==> name[i] != '\0'
      {
        end := end + 1;
      }
      ZeroIsFirst(name, end);
      text := name[..end];
    }

    method IntroduceObjectMember(name: string)
      requires 0 <= objectIndex
      modifies this
      ensures contents == old(contents) + (if old(objectIndex) != 0 then "&" else []) + UpToZero(name) + "="
      ensures objectIndex == old(objectIndex) + 1
    {
      if objectIndex != 0 { contents := contents + "&"; }
      var text := CString(name);
      contents := contents + text + "=";
      objectIndex := objectIndex + 1;
    }

    method WriteString(value: string)
      requires AreBytes(value)
      modifies this`contents
      ensures contents == old(contents) + Mangle(value)
    {
      var mangled := MangleHttpResponse(value);
      contents := contents + mangled;
    }

    method EndWritingObject()
      modifies this`objectIndex
      ensures objectIndex == -1
    {
      objectIndex := -1;
    }

    method WriteRecord(pairs: seq<Pair>)
      requires Writable(pairs) && objectIndex == -1
      modifies this
      ensures contents == old(contents) + Row(pairs) && objectIndex == -1
    {
      hide Mangle, UpToZero, AreBytes, Row, Ahead;
      AheadEnds(pairs);
      StartWritingObject();
      var i := 0;
      while i < |pairs|
        invariant i <= |pairs| && objectIndex == i
        invariant old(contents) + Row(pairs) == contents + Ahead(pairs, i)
      {
        AheadStep(pairs, i, contents);
        IntroduceObjectMember(pairs[i].name);
        WriteString(pairs[i].value);
        i := i + 1;
      }
      assert contents + [] == contents;
      EndWritingObject();
    }
  }

  /** What is still to be written when `i` members are. */
  function Ahead(pairs: seq<Pair>, i: nat): string
    requires Writable(pairs) && i <= |pairs|
  {
    if i == |pairs| then [] else (if i == 0 then [] else "&") + Row(pairs[i..])
  }

  lemma AheadEnds(pairs: seq<Pair>)
    requires Writable(pairs)
    ensures Ahead(pairs, 0) == Row(pairs) && Ahead(pairs, |pairs|) == []
  {
    hide AreBytes, MemberText;
    assert pairs[0..] == pairs;
    assert [] + Row(pairs) == Row(pairs);
  }

  lemma AheadStep(pairs: seq<Pair>, i: nat, contents: string)
    requires Writable(pairs) && i < |pairs|
    ensures contents + Ahead(pairs, i)
         == contents + (if i != 0 then "&" else []) + UpToZero(pairs[i].name) + "=" + Mangle(pairs[i].value)
             + Ahead(pairs, i + 1)
  {
    hide Mangle, UpToZero, AreBytes;
    AheadIs(pairs, i);
    Regroup(contents, if i != 0 then "&" else [], UpToZero(pairs[i].name), Mangle(pairs[i].value), Ahead(pairs, i + 1));
  }

  lemma AheadIs(pairs: seq<Pair>, i: nat)
    requires Writable(pairs) && i < |pairs|
    ensures Ahead(pairs, i) == (if i != 0 then "&" else []) + (MemberText(pairs[i]) + Ahead(pairs, i + 1))
  {
    hide Mangle, UpToZero, AreBytes, MemberText;
    var rest := pairs[i..];
    assert rest[0] == pairs[i] && rest[1..] == pairs[i + 1..];
  }

  lemma Regroup(contents: string, sign: string, name: string, value: string, tail: string)
    ensures contents + (sign + (name + "=" + value + tail)) == contents + sign + name + "=" + value + tail
  {
  }

  // Reading.

  /** The next place of a character, or the end. */
  function Find(s: string, at: nat, c: char): (end: nat)
    requires at <= |s|
    ensures at <= end <= |s|
    ensures forall i :: at <= i < end ==> s[i] != c
    ensures end < |s| ==> s[end] == c
    decreases |s| - at
  {
    if at < |s| && s[at] != c then Find(s, at + 1, c) else at
  }

  /** Where a member's name begins. */
  function NameStart(s: string, at: nat): (start: nat)
    requires at < |s|
    ensures at <= start <= at + 1
  {
    if s[at] == '&' then at + 1 else at
  }

  /** A member, and where the next one begins. */
  datatype Member = Member(pair: Pair, next: nat) | NoMember

  function MemberAt(s: string, at: nat): (m: Member)
    requires at < |s|
    ensures m.Member? ==> at < m.next
  {
    var start := NameStart(s, at);
    var equals := Find(s, start, '=');
    if equals == |s| then NoMember
    else
      var end := Find(s, equals + 1, '&');
      Member(Pair(Demangle(s[start..equals]), Demangle(s[equals + 1..end])), end + 1)
  }

  function RecordAt(s: string, at: nat): Read<seq<Pair>>
    decreases |s| - at
  {
    if at >= |s| then Got([])
    else
      var member := MemberAt(s, at);
      if member == NoMember then Failed(NoEquals)
      else
        var rest := RecordAt(s, member.next);
        if rest.Failed? then rest else Got([member.pair] + rest.value)
  }

  class Input {
    const contents: string
    var position: nat

    constructor (contents: string)
      ensures this.contents == contents && position == 0
    {
      this.contents := contents;
      position := 0;
    }

    method GetEnd() returns (end: nat)
      requires position <= |contents|
      ensures end == Find(contents, position, '&')
    {
      end := position;
      while end < |contents| && contents[end] != '&'
        invariant position <= end <= |contents|
        invariant Find(contents, end, '&') == Find(contents, position, '&')
      {
        end := end + 1;
      }
    }

    method ReadString() returns (value: string)
      requires position <= |contents|
      modifies this
      ensures position == Find(contents, old(position), '&')
      ensures value == Demangle(contents[old(position)..position])
    {
      var end := GetEnd();
      value := DemangleHttpResponse(contents[position..end]);
      position := end;
    }

    /** Skips a value; at an empty one it takes the sign behind it for the one before it. */
    method SkipObjectElement()
      requires position <= |contents|
      modifies this
      ensures position == SkipsTo(contents, old(position))
    {
      if position < |contents| && contents[position] == '&' { position := position + 1; }
      ghost var start := position;
      while position < |contents| && contents[position] != '&'
        invariant start <= position <= |contents|
        invariant Find(contents, position, '&') == Find(contents, start, '&')
      {
        position := position + 1;
      }
    }

    /** One turn of the loop of `readObject`, for a callee that reads a string for each member. */
    method ReadMember() returns (m: Member)
      requires position < |contents|
      modifies this
      ensures m == MemberAt(contents, old(position))
      ensures m.Member? ==> position == m.next
    {
      hide Demangle;
      if contents[position] == '&' { position := position + 1; }
      var start := position;
      while position < |contents| && contents[position] != '='
        invariant start <= position <= |contents|
        invariant Find(contents, position, '=') == Find(contents, start, '=')
      {
        position := position + 1;
      }
      var name := DemangleHttpResponse(contents[start..position]);
      if position == |contents| {
        return NoMember;
      }
      position := position + 1;
      var value := ReadString();
      position := position + 1;
      m := Member(Pair(name, value), position);
    }

    method ReadRecord() returns (r: Read<seq<Pair>>)
      requires position <= |contents|
      modifies this
      ensures r == RecordAt(contents, old(position))
    {
      hide MemberAt;
      var pairs := [];
      NothingYet(RecordAt(contents, position));
      while position < |contents|
        invariant RecordAt(contents, old(position)) == After(pairs, RecordAt(contents, position))
        decreases |contents| - position
      {
        var member := ReadMember();
        if member == NoMember {
          return Failed(NoEquals);
        }
        OneMore(pairs, member.pair, RecordAt(contents, position));
        pairs := pairs + [member.pair];
      }
      assert pairs + [] == pairs;
      r := Got(pairs);
    }
  }

  function After(pairs: seq<Pair>, rest: Read<seq<Pair>>): Read<seq<Pair>> {
    if rest.Failed? then rest else Got(pairs + rest.value)
  }

  lemma NothingYet(rest: Read<seq<Pair>>)
    ensures After([], rest) == rest
  {
    if rest.Got? { assert [] + rest.value == rest.value; }
  }

  lemma OneMore(pairs: seq<Pair>, pair: Pair, rest: Read<seq<Pair>>)
    ensures After(pairs, if rest.Failed? then rest else Got([pair] + rest.value)) == After(pairs + [pair], rest)
  {
    if rest.Got? { assert pairs + ([pair] + rest.value) == pairs + [pair] + rest.value; }
  }

  function SkipsTo(s: string, at: nat): nat
    requires at <= |s|
  {
    if at < |s| && s[at] == '&' then Find(s, at + 1, '&') else Find(s, at, '&')
  }

  // The round trip.

  predicate NoSeparators(s: string) { forall i :: 0 <= i < |s| ==> s[i] != '&' && s[i] != '=' }

  lemma OneHasNoSeparators(letter: char)
    requires letter as int < 256
    ensures NoSeparators(EncodeOne(letter))
  {
  }

  lemma {:induction false} ValuesHaveNoSeparators(value: int)
    requires 0 <= value
    ensures NoSeparators(EncodeValue(value))
  {
    OneHasNoSeparators('&');
    OneHasNoSeparators('#');
    OneHasNoSeparators(';');
    if value <= 0xff { OneHasNoSeparators(value as char); }
  }

  lemma {:induction false} MoreBitsArePositive(value: int, bytes: string)
    requires 0 <= value
    ensures 0 <= MoreBits(value, bytes)
    decreases |bytes|
  {
    if bytes != [] { MoreBitsArePositive(value, bytes[..|bytes| - 1]); }
  }

  /** An encoded value never holds a separator. */
  lemma {:induction false} MangledHasNoSeparators(s: string)
    requires AreBytes(s)
    ensures NoSeparators(Mangle(s))
    decreases |s|
  {
    hide EncodeOne, EncodeValue, FirstBits, LengthOf, MoreBits;
    if s != [] {
      if s[0] as int <= 0x7f {
        MangledHasNoSeparators(s[1..]);
        OneHasNoSeparators(s[0]);
      } else if LengthOf(s[0]) <= |s| {
        MangledHasNoSeparators(s[LengthOf(s[0])..]);
        FirstBitsArePositive(s[0]);
        MoreBitsArePositive(FirstBits(s[0]), s[1..LengthOf(s[0])]);
        ValuesHaveNoSeparators(MoreBits(FirstBits(s[0]), s[1..LengthOf(s[0])]));
      }
    }
  }

  lemma FirstBitsArePositive(first: char)
    requires 0x80 <= first as int < 256
    ensures 0 <= FirstBits(first)
  {
  }

  /** Names that return: none of these characters is escaped in them. An ampersand may stand in a name, but
      not at its start. */
  predicate Returns(name: string) {
    && (forall i :: 0 <= i < |name| ==> name[i] !in {'=', '%', '+', '\0'})
    && (name != [] ==> name[0] != '&')
  }

  /** An escape is longer than what it stands for, unless it is a lone percent at the end. */
  lemma EscapeShrinks(m: string)
    requires m != [] && m[0] == '%'
    ensures var unit := DecodeUnit(m);
            if |m| == 1 then unit.text == "\0" else |unit.text| < unit.used && |unit.text| < |m|
  {
    hide ReferenceValue;
    if UrlDecode(m, 0) == '&' as int && 3 <= |m| && IsReferenceTail(m[3..]) {
      assert m[3..][3..] == m[6..];
    }
  }

  lemma {:induction false} DecodingNeverGrows(m: string)
    ensures |Demangle(m)| <= |m|
    decreases |m|
  {
    hide UrlDecode, IsReferenceTail, Utf8Encode, ReferenceValue;
    if m != [] {
      var unit := DecodeUnit(m);
      if m[0] == '%' { EscapeShrinks(m); }
      if unit.used < |m| { DecodingNeverGrows(m[unit.used..]); }
    }
  }

  /** Exactly the names without escapes are decoded as themselves. */
  lemma {:induction false} DecodesAsItself(name: string)
    requires '\0' !in name
    ensures Demangle(name) == name <==> '%' !in name && '+' !in name
    decreases |name|
  {
    hide UrlDecode, IsReferenceTail, Utf8Encode, ReferenceValue;
    if name != [] {
      var unit, rest := DecodeUnit(name), name[1..];
      assert name == [name[0]] + rest;
      if name[0] == '%' {
        EscapeShrinks(name);
        if unit.used < |name| { DecodingNeverGrows(name[unit.used..]); }
        PercentIsLost(name);
      } else if name[0] == '+' {
        assert Demangle(name)[0] == ' ';
      } else {
        DecodesAsItself(rest);
        assert Demangle(name) == [name[0]] + Demangle(rest);
        if Demangle(name) == name {
          assert Demangle(rest) == Demangle(name)[1..] == rest;
        }
      }
    }
  }

  lemma PercentIsLost(name: string)
    requires name != [] && name[0] == '%'
    requires var unit := DecodeUnit(name);
             && (if |name| == 1 then unit.text == "\0" else |unit.text| < unit.used && |unit.text| < |name|)
             && (unit.used < |name| ==> |Demangle(name[unit.used..])| <= |name| - unit.used)
    ensures Demangle(name) != name
  {
    hide DecodeUnit;
    var unit := DecodeUnit(name);
    if |name| == 1 {
      assert Demangle(name) == unit.text + [] == "\0";
      assert Demangle(name)[0] != name[0];
    }
  }

  lemma NamesReturn(name: string)
    requires Returns(name)
    ensures Demangle(name) == name && UpToZero(name) == name
  {
    DecodesAsItself(name);
  }

  lemma {:induction false} FindIs(s: string, at: nat, c: char, end: nat)
    requires at <= end <= |s|
    requires forall i :: at <= i < end ==> s[i] != c
    requires end < |s| ==> s[end] == c
    ensures Find(s, at, c) == end
    decreases end - at
  {
    if at < end { FindIs(s, at + 1, c, end); }
  }

  lemma SignIsFound(s: string, at: nat, part: string, c: char)
    requires Has(s, at, part) && c !in part
    requires at + |part| < |s| ==> s[at + |part|] == c
    ensures Find(s, at, c) == at + |part|
  {
    forall i | at <= i < at + |part| ensures s[i] != c {
      assert s[i] == s[at..at + |part|][i - at];
    }
    FindIs(s, at, c, at + |part|);
  }

  lemma NameBegins(s: string, at: nat, name: string)
    requires Returns(name) && Has(s, at, name + "=")
    ensures NameStart(s, at) == at && Find(s, at, '=') == at + |name|
  {
    HasParts(s, at, name, "=");
    SignIsFound(s, at, name, '=');
    assert s[at] == (name + "=")[0];
  }

  /** A member that ends where the text ends, or at the sign before the next. */
  lemma MemberReturns(s: string, at: nat, pair: Pair)
    requires Returns(pair.name) && AreBytes(pair.value)
    requires Has(s, at, MemberText(pair))
    requires at + |MemberText(pair)| < |s| ==> s[at + |MemberText(pair)|] == '&'
    ensures MemberAt(s, at) == Member(Pair(pair.name, Demangle(Mangle(pair.value))), at + |MemberText(pair)| + 1)
  {
    hide Mangle, Demangle, UpToZero, Find, NameStart, Returns, AreBytes;
    var front, value := pair.name + "=", Mangle(pair.value);
    NamesReturn(pair.name);
    HasParts(s, at, front, value);
    HasParts(s, at, pair.name, "=");
    NameBegins(s, at, pair.name);
    MangledHasNoSeparators(pair.value);
    SignIsFound(s, at + |front|, value, '&');
  }

  /** No other name returns: a sign cuts it short, and so does a zero byte; an ampersand at its start is
      skipped; and escapes are decoded. */
  lemma OnlyTheseReturn(s: string, at: nat, pair: Pair)
    requires AreBytes(pair.value) && Has(s, at, MemberText(pair))
    requires MemberAt(s, at).Member? && MemberAt(s, at).pair.name == pair.name
    ensures Returns(pair.name)
  {
    hide Mangle, Demangle, UpToZero, Find;
    var written := UpToZero(pair.name);
    HasParts(s, at, written + "=", Mangle(pair.value));
    HasParts(s, at, written, "=");
    assert s[at + |written|] == s[at + |written|..at + |written| + 1][0] == '=';
    var start := NameStart(s, at);
    assert start > at ==> s[at] == '&' && written != [];
    var equals := Find(s, start, '=');
    assert equals <= at + |written|;
    DecodingNeverGrows(s[start..equals]);
    assert |written| == |pair.name| && written == pair.name && start == at && equals == at + |written|;
    assert s[at..equals] == pair.name;
    DecodesAsItself(pair.name);
    NoSignInName(s, at, pair.name);
  }

  lemma NoSignInName(s: string, at: nat, name: string)
    requires Has(s, at, name) && at + |name| < |s| && NameStart(s, at) == at && Find(s, at, '=') == at + |name|
    ensures '=' !in name && (name != [] ==> name[0] != '&')
  {
    forall i | 0 <= i < |name| ensures name[i] != '=' {
      assert name[i] == s[at..at + |name|][i] == s[at + i];
    }
  }

  /** A pair that returns as it is. */
  predicate PairReturns(pair: Pair)
    requires AreBytes(pair.value)
  {
    Returns(pair.name) && Demangle(Mangle(pair.value)) == pair.value
  }

  /** A row of any pairs returns exactly if each of its pairs does. */
  lemma {:induction false} RowReturns(s: string, at: nat, pairs: seq<Pair>)
    requires Writable(pairs) && Has(s, at, Row(pairs)) && at + |Row(pairs)| == |s|
    ensures RecordAt(s, at) == Got(pairs) <==> forall p <- pairs :: PairReturns(p)
    decreases |pairs|
  {
    hide MemberAt, MemberText, PairReturns, AreBytes, Mangle, Demangle;
    if pairs != [] {
      var first, rest := pairs[0], pairs[1..];
      var member := MemberText(first);
      assert pairs == [first] + rest;
      RowBegins(s, at, pairs);
      FirstPair(s, at, first);
      if PairReturns(first) {
        if rest == [] {
          assert RecordAt(s, at + |member| + 1) == Got([]);
        } else {
          HasParts(s, at, member, "&" + Row(rest));
          HasParts(s, at + |member|, "&", Row(rest));
          RowReturns(s, at + |member| + 1, rest);
        }
        FirstOfMore(first, rest, RecordAt(s, at + |member| + 1));
      }
    }
  }

  lemma FirstOfMore(first: Pair, rest: seq<Pair>, read: Read<seq<Pair>>)
    ensures (if read.Failed? then read else Got([first] + read.value)) == Got([first] + rest) <==> read == Got(rest)
  {
    if read.Got? && [first] + read.value == [first] + rest {
      assert ([first] + read.value)[1..] == ([first] + rest)[1..];
    }
  }

  lemma RowBegins(s: string, at: nat, pairs: seq<Pair>)
    requires Writable(pairs) && pairs != [] && Has(s, at, Row(pairs)) && at + |Row(pairs)| == |s|
    ensures var member := MemberText(pairs[0]);
            && Has(s, at, member)
            && if |pairs| == 1 then at + |member| == |s| else at + |member| < |s| && s[at + |member|] == '&'
  {
    hide MemberText, AreBytes, Mangle;
    var member, rest := MemberText(pairs[0]), pairs[1..];
    if rest == [] {
      assert Row(pairs) == member + [] == member;
    } else {
      HasParts(s, at, member, "&" + Row(rest));
      HasParts(s, at + |member|, "&", Row(rest));
      assert s[at + |member|] == s[at + |member|..at + |member| + 1][0];
    }
  }

  /** The first pair of a row is read as it is exactly if it returns, and then up to its end. */
  lemma FirstPair(s: string, at: nat, pair: Pair)
    requires AreBytes(pair.value) && Has(s, at, MemberText(pair))
    requires at + |MemberText(pair)| < |s| ==> s[at + |MemberText(pair)|] == '&'
    ensures PairReturns(pair) ==> MemberAt(s, at) == Member(pair, at + |MemberText(pair)| + 1)
    ensures MemberAt(s, at).Member? && MemberAt(s, at).pair == pair ==> PairReturns(pair)
  {
    hide MemberAt, MemberText, Mangle, Demangle;
    if Returns(pair.name) {
      MemberReturns(s, at, pair);
    } else if MemberAt(s, at).Member? && MemberAt(s, at).pair.name == pair.name {
      OnlyTheseReturn(s, at, pair);
    }
  }

  /** Every value is a text that survives being encoded. */
  predicate AllSurvive(texts: seq<Text>) { forall t <- texts :: Survives(t) }

  /** Pairs of names and texts, as bytes. */
  function Pairs(names: seq<string>, texts: seq<Text>): (pairs: seq<Pair>)
    requires |names| == |texts|
    ensures |pairs| == |names|
  {
    seq(|names|, i requires 0 <= i < |names| => Pair(names[i], Utf8Text(texts[i])))
  }

  lemma PairsAreWritable(names: seq<string>, texts: seq<Text>)
    requires |names| == |texts|
    ensures Writable(Pairs(names, texts))
  {
    forall i | 0 <= i < |names| ensures AreBytes(Utf8Text(texts[i])) {
      RoundTrip(texts[i]);
    }
  }

  /** A record returns, pair by pair, empty values included, exactly when all its names return and all its
      values survive. */
  lemma RecordRoundTrip(names: seq<string>, texts: seq<Text>)
    requires |names| == |texts|
    ensures var pairs := Pairs(names, texts);
            && Writable(pairs)
            && (RecordAt(Row(pairs), 0) == Got(pairs) <==> (forall n <- names :: Returns(n)) && AllSurvive(texts))
  {
    hide Mangle, Demangle, Utf8Text, Survives, Row, RecordAt, Returns, AreBytes;
    var pairs := Pairs(names, texts);
    PairsAreWritable(names, texts);
    assert Row(pairs)[0..|Row(pairs)|] == Row(pairs);
    RowReturns(Row(pairs), 0, pairs);
    forall i | 0 <= i < |texts| ensures PairReturns(pairs[i]) <==> Returns(names[i]) && Survives(texts[i]) {
      RoundTrip(texts[i]);
      assert AreBytes(pairs[i].value) && Mangle(pairs[i].value) == Mangle(Utf8Text(texts[i]));
    }
    if forall p <- pairs :: PairReturns(p) {
      forall t | t in texts ensures Survives(t) {
        var i :| 0 <= i < |texts| && texts[i] == t;
        assert PairReturns(pairs[i]);
      }
      forall n | n in names ensures Returns(n) {
        var i :| 0 <= i < |names| && names[i] == n;
        assert PairReturns(pairs[i]);
      }
    }
  }

  /** The text of a value is empty exactly if the value is, or begins with a character that its end cuts off. */
  lemma WrittenEmpty(value: string)
    requires AreBytes(value)
    ensures Mangle(value) == [] <==> value == [] || (value[0] as int > 0x7f && LengthOf(value[0]) > |value|)
  {
    if value != [] && value[0] as int > 0x7f && LengthOf(value[0]) <= |value| {
      var number := MoreBits(FirstBits(value[0]), value[1..LengthOf(value[0])]);
      assert EncodeValue(number) != [];
    }
  }

  /** Skipping a value ends where the value ends exactly when nothing follows it, or it is not empty and does not
      begin with a character that is cut off: such a value is written as an empty one. */
  lemma SkipLandsBehind(s: string, at: nat, value: string)
    requires AreBytes(value) && Has(s, at, Mangle(value))
    requires at + |Mangle(value)| < |s| ==> s[at + |Mangle(value)|] == '&'
    ensures SkipsTo(s, at) == at + |Mangle(value)|
            <==> at == |s| || (value != [] && (value[0] as int > 0x7f ==> LengthOf(value[0]) <= |value|))
  {
    hide Mangle;
    MangledHasNoSeparators(value);
    WrittenEmpty(value);
    SignIsFound(s, at, Mangle(value), '&');
    assert Mangle(value) != [] ==> s[at] == Mangle(value)[0];
  }

  // Any text.

  /** A member: behind one ampersand at most, a name that the first sign behind it ends, and a value up to the next
      ampersand or the end. */
  predicate StandsAt(s: string, at: nat, start: nat, equals: nat, end: nat) {
    && at < |s| && start == (if s[at] == '&' then at + 1 else at)
    && start <= equals < end <= |s| && s[equals] == '='
    && (forall i :: start <= i < equals ==> s[i] != '=')
    && (forall i :: equals < i < end ==> s[i] != '&') && (end < |s| ==> s[end] == '&')
  }

  function Joined(pair: Pair, rest: Read<seq<Pair>>): Read<seq<Pair>> {
    match rest
    case Got(pairs) => Got([pair] + pairs)
    case Failed(fault) => Failed(fault)
  }

  /** Whatever text is read: each member gives its name and value, both decoded. */
  lemma MemberIsRead(s: string, at: nat, start: nat, equals: nat, end: nat)
    requires StandsAt(s, at, start, equals, end)
    ensures RecordAt(s, at)
         == Joined(Pair(Demangle(s[start..equals]), Demangle(s[equals + 1..end])), RecordAt(s, end + 1))
  {
    hide Demangle, Find;
    FindIs(s, start, '=', equals);
    FindIs(s, equals + 1, '&', end);
  }

  /** Without another sign there is no member; past the end there are none; everything else is a member and what is
      behind it. */
  lemma WhatElse(s: string, at: nat)
    ensures at >= |s| ==> RecordAt(s, at) == Got([])
    ensures at < |s| && (forall i :: at <= i < |s| ==> s[i] != '=') ==> RecordAt(s, at) == Failed(NoEquals)
    ensures at < |s| && (exists i :: at <= i < |s| && s[i] == '=') ==>
              exists start, equals, end :: StandsAt(s, at, start, equals, end)
  {
    hide Demangle, Find;
    if at < |s| {
      var start := NameStart(s, at);
      var equals := Find(s, start, '=');
      if equals < |s| { assert StandsAt(s, at, start, equals, Find(s, equals + 1, '&')); }
    }
  }

  /** Skipping passes one ampersand at most, and ends at the next one or at the end. */
  lemma SkipsExactly(s: string, at: nat)
    requires at <= |s|
    ensures var end, start := SkipsTo(s, at), if at < |s| && s[at] == '&' then at + 1 else at;
            && start <= end <= |s| && (end < |s| ==> s[end] == '&')
            && forall i :: start <= i < end ==> s[i] != '&'
  {
  }
}
