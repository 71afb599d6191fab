/** Trees of JSON values, the text that the writer makes of them, and the writer. */
module JsonText {
  import opened Decimal

  /** Arrays and objects are announced with their size or without (`UNKNOWN_SIZE`). */
  datatype Json =
    | Null
    | Bool(b: bool)
    | Int(i: int)
    | Str(s: string)
    | Arr(sized: bool, items: seq<Json>)
    | Obj(sized: bool, members: seq<Member>)
  datatype Member = Member(name: string, value: Json)

  predicate NeedsEscape(c: char) { c == '\\' || c == '\n' || c == '"' }

  function Escaped(s: string): string {
    if s == [] then []
    else (if NeedsEscape(s[0]) then ['\\', s[0]] else [s[0]]) + Escaped(s[1..])
  }

  function Quoted(s: string): string { "\"" + Escaped(s) + "\"" }

  function Tabs(depth: nat): string {
    if depth == 0 then [] else ['\t'] + Tabs(depth - 1)
  }

  function NewLine(depth: nat): string { "\n" + Tabs(depth) }

  function Text(v: Json, depth: nat): string
    decreases v, 1
  {
    match v
    case Null => "null"
    case Bool(b) => if b then "true" else "false"
    case Int(i) => IntText(i)
    case Str(s) => Quoted(s)
    case Arr(sized, items) => "[" + ItemsText(items, true, depth + 1) + Closing(sized, |items|, depth) + "]"
    case Obj(sized, members) => "{" + MembersText(members, true, depth + 1) + Closing(sized, |members|, depth) + "}"
  }

  /** An empty container whose size was announced closes on the line it opened on. */
  function Closing(sized: bool, count: nat, depth: nat): string {
    if sized && count == 0 then [] else NewLine(depth)
  }

  function ItemsText(items: seq<Json>, first: bool, depth: nat): string
    decreases items, 0
  {
    if items == [] then []
    else ItemText(items[0], first, depth) + ItemsText(items[1..], false, depth)
  }

  function ItemText(item: Json, first: bool, depth: nat): string
    decreases item, 2
  {
    (if first then [] else ",") + NewLine(depth) + Text(item, depth)
  }

  function MembersText(members: seq<Member>, first: bool, depth: nat): string
    decreases members, 0
  {
    if members == [] then []
    else MemberText(members[0], first, depth) + MembersText(members[1..], false, depth)
  }

  function MemberText(member: Member, first: bool, depth: nat): string
    decreases member, 0
  {
    Introduction(member.name, first, depth) + Text(member.value, depth)
  }

  function Introduction(name: string, first: bool, depth: nat): string {
    (if first then [] else ",") + NewLine(depth) + Quoted(name) + " : "
  }

  /** Numbers are formatted into 20 bytes that must still hold a terminator. */
  predicate Fits(i: int) { INT64_MIN <= i <= INT64_MAX && |IntText(i)| < 20 }

  predicate Writable(v: Json)
    decreases v, 1
  {
    match v
    case Int(i) => Fits(i)
    case Arr(_, items) => forall i :: 0 <= i < |items| ==> Writable(items[i])
    case Obj(_, members) => forall i :: 0 <= i < |members| ==> Writable(members[i].value)
    case _ => true
  }

  /** Exactly the integers that the 20 bytes can hold with their terminator. */
  lemma FitsExactly(i: int)
    requires INT64_MIN <= i <= INT64_MAX
    ensures Fits(i) <==> -1_000_000_000_000_000_000 < i
  {
    assert Power10(6) == 1_000_000;
    assert Power10(12) == 1_000_000_000_000;
    assert Power10(18) == 1_000_000_000_000_000_000;
    assert Power10(19) == 10_000_000_000_000_000_000;
    if i < 0 {
      NumberOfDigits(-i, 18);
    } else {
      NumberOfDigits(i, 19);
    }
  }

  lemma Regroup(a: string, b: string, c: string, d: string, e: string)
    ensures a + b + c + d + e == a + (b + c + d + e)
  {
  }

  lemma IntroducedItem(item: Json, first: bool, depth: nat, before: string)
    ensures before + ((if first then [] else ",") + NewLine(depth)) + Text(item, depth)
            == before + ItemText(item, first, depth)
  {
  }

  lemma IntroducedMember(member: Member, first: bool, depth: nat, before: string)
    ensures before + Introduction(member.name, first, depth) + Text(member.value, depth)
         == before + MemberText(member, first, depth)
  {
  }

  /** `BasicJson::Output`. */
  class Output {
    var contents: string
    var depth: nat
    var skipNewline: bool

    constructor ()
      ensures contents == [] && depth == 0 && !skipNewline
    {
      contents, depth, skipNewline := [], 0, false;
    }

    method Append(text: string)
      modifies this`contents
      ensures contents == old(contents) + text
    {
      contents := contents + text;
    }

    method WriteInt(value: int)
      requires Fits(value)
      modifies this`contents
      ensures contents == old(contents) + IntText(value)
    {
      Append(IntText(value));
    }

    method StartNewLine()
      modifies this`contents, this`skipNewline
      ensures !skipNewline
      ensures contents == old(contents) + if old(skipNewline) then [] else NewLine(depth)
    {
      if skipNewline {
        skipNewline := false;
        return;
      }
      contents := contents + "\n";
      var i := 0;
      while i < depth
        invariant i <= depth
        invariant !skipNewline
        invariant contents + Tabs(depth - i) == old(contents) + NewLine(depth)
      {
        assert contents + Tabs(depth - i) == contents + "\t" + Tabs(depth - i - 1);
        contents := contents + "\t";
        i := i + 1;
      }
    }

    method WriteString(value: string)
      modifies this`contents
      ensures contents == old(contents) + Quoted(value)
    {
      contents := contents + "\"";
      var i := 0;
      while i < |value|
        invariant i <= |value|
        invariant contents + Escaped(value[i..]) == old(contents) + "\"" + Escaped(value)
      {
        assert value[i..][1..] == value[i + 1..];
        ghost var before, unit := contents, if NeedsEscape(value[i]) then ['\\', value[i]] else [value[i]];
        if value[i] == '\\' || value[i] == '\n' || value[i] == '"' {
          contents := contents + "\\";
        }
        contents := contents + [value[i]];
        assert contents == before + unit;
        assert before + (unit + Escaped(value[i + 1..])) == contents + Escaped(value[i + 1..]);
        i := i + 1;
      }
      assert value[|value|..] == [] && contents == old(contents) + "\"" + Escaped(value);
      contents := contents + "\"";
    }

    method WriteBool(value: bool)
      modifies this`contents
      ensures contents == old(contents) + Text(Bool(value), 0)
    {
      if value { Append("true"); } else { Append("false"); }
    }

    method WriteNull()
      modifies this`contents
      ensures contents == old(contents) + "null"
    {
      Append("null");
    }

    /** `size` is negative when it is not known. */
    method StartWritingArray(size: int)
      requires !skipNewline
      modifies this
      ensures contents == old(contents) + "[" && depth == old(depth) + 1 && skipNewline == (size == 0)
    {
      contents := contents + "[";
      depth := depth + 1;
      if size == 0 { skipNewline := true; }
    }

    method IntroduceArrayElement(index: nat)
      requires !skipNewline
      modifies this`contents, this`skipNewline
      ensures contents == old(contents) + (if index > 0 then "," else []) + NewLine(depth) && !skipNewline
    {
      if index > 0 { contents := contents + ","; }
      StartNewLine();
    }

    method EndWritingArray()
      requires depth > 0
      modifies this
      ensures depth == old(depth) - 1 && !skipNewline
      ensures contents == old(contents) + (if old(skipNewline) then [] else NewLine(depth)) + "]"
    {
      depth := depth - 1;
      StartNewLine();
      contents := contents + "]";
    }

    method StartWritingObject(size: int)
      requires !skipNewline
      modifies this
      ensures contents == old(contents) + "{" && depth == old(depth) + 1 && skipNewline == (size == 0)
    {
      contents := contents + "{";
      depth := depth + 1;
      if size == 0 { skipNewline := true; }
    }

    method IntroduceObjectMember(name: string, index: nat)
      requires !skipNewline
      modifies this`contents, this`skipNewline
      ensures contents == old(contents) + Introduction(name, index == 0, depth) && !skipNewline
    {
      hide Quoted, NewLine;
      if index > 0 { contents := contents + ","; }
      StartNewLine();
      WriteString(name);
      contents := contents + " : ";
      assert contents == old(contents) + ((if index == 0 then [] else ",") + NewLine(depth) + Quoted(name) + " : ");
    }

    method EndWritingObject()
      requires depth > 0
      modifies this
      ensures depth == old(depth) - 1 && !skipNewline
      ensures contents == old(contents) + (if old(skipNewline) then [] else NewLine(depth)) + "}"
    {
      depth := depth - 1;
      StartNewLine();
      contents := contents + "}";
    }

    /** Writes a tree the way the serialisers do, through the interface above. */
    method WriteValue(v: Json)
      requires Writable(v) && !skipNewline
      modifies this
      ensures contents == old(contents) + Text(v, depth)
      ensures depth == old(depth) && !skipNewline
      decreases v, 2
    {
      match v
      case Null => WriteNull();
      case Bool(b) => WriteBool(b);
      case Int(i) => WriteInt(i);
      case Str(s) => WriteString(s);
      case Arr(_, _) => WriteItems(v);
      case Obj(_, _) => WriteMembers(v);
    }

    method WriteItems(v: Json)
      requires v.Arr? && Writable(v) && !skipNewline
      modifies this
      ensures contents == old(contents) + Text(v, depth)
      ensures depth == old(depth) && !skipNewline
      decreases v, 1
    {
      hide ItemsText, NewLine;
      StartWritingArray(if v.sized then |v.items| else -1);
      WriteEachItem(v);
      EndWritingArray();
      Regroup(old(contents), "[", ItemsText(v.items, true, depth + 1), Closing(v.sized, |v.items|, depth), "]");
    }

    method WriteEachItem(v: Json)
      requires v.Arr? && Writable(v) && skipNewline == (v.sized && v.items == [])
      modifies this
      ensures contents == old(contents) + ItemsText(v.items, true, depth)
      ensures depth == old(depth) && skipNewline == old(skipNewline)
      decreases v, 0
    {
      hide NewLine, ItemText;
      var i := 0;
      while i < |v.items|
        invariant i <= |v.items| && depth == old(depth) && skipNewline == (v.sized && v.items == [])
        invariant contents + ItemsText(v.items[i..], i == 0, depth) == old(contents) + ItemsText(v.items, true, depth)
      {
        assert v.items[i..][1..] == v.items[i + 1..];
        ghost var before, rest := contents, ItemsText(v.items[i + 1..], false, depth);
        ghost var unit := ItemText(v.items[i], i == 0, depth);
        IntroduceArrayElement(i);
        WriteValue(v.items[i]);
        assert contents == before + unit by { IntroducedItem(v.items[i], i == 0, depth, before); }
        assert before + (unit + rest) == contents + rest;
        i := i + 1;
      }
      assert v.items[|v.items|..] == [];
    }

    method WriteMembers(v: Json)
      requires v.Obj? && Writable(v) && !skipNewline
      modifies this
      ensures contents == old(contents) + Text(v, depth)
      ensures depth == old(depth) && !skipNewline
      decreases v, 1
    {
      hide MembersText, NewLine;
      StartWritingObject(if v.sized then |v.members| else -1);
      WriteEachMember(v);
      EndWritingObject();
      Regroup(old(contents), "{", MembersText(v.members, true, depth + 1), Closing(v.sized, |v.members|, depth), "}");
    }

    method WriteEachMember(v: Json)
      requires v.Obj? && Writable(v) && skipNewline == (v.sized && v.members == [])
      modifies this
      ensures contents == old(contents) + MembersText(v.members, true, depth)
      ensures depth == old(depth) && skipNewline == old(skipNewline)
      decreases v, 0
    {
      hide NewLine, MemberText, Introduction;
      var i := 0;
      while i < |v.members|
        invariant i <= |v.members| && depth == old(depth) && skipNewline == (v.sized && v.members == [])
        invariant contents + MembersText(v.members[i..], i == 0, depth)
            == old(contents) + MembersText(v.members, true, depth)
      {
        assert v.members[i..][1..] == v.members[i + 1..];
        ghost var before, rest := contents, MembersText(v.members[i + 1..], false, depth);
        ghost var unit := MemberText(v.members[i], i == 0, depth);
        IntroduceObjectMember(v.members[i].name, i);
        WriteValue(v.members[i].value);
        assert contents == before + unit by { IntroducedMember(v.members[i], i == 0, depth, before); }
        assert before + (unit + rest) == contents + rest;
        i := i + 1;
      }
      assert v.members[|v.members|..] == [];
    }
  }
}
