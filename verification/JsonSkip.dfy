/**
  Skipping a value without reading it. The skipper counts brackets outside strings; a string ends for
  it at the first quote or backslash. It must land exactly behind the value.
 */
module JsonSkip {
  import opened JsonText
  import opened JsonInput
  import opened Texts
  import opened JsonRoundTrip
  import opened Decimal

  predicate Stops(c: char) { c == ' ' || c == '\t' || c == '\r' || c == '\n' || c == ',' }

  predicate Opens(c: char) { c == '{' || c == '[' }

  predicate Closes(c: char) { c == '}' || c == ']' }

  /** Behind the quote or the backslash that ends the skipping of a string. */
  function SkipString(s: string, at: nat): (r: Read<()>)
    requires at <= |s|
    ensures r.Got? ==> at < r.next <= |s|
    decreases |s| - at
  {
    if at == |s| then Failed(ParseFault)
    else if s[at] == '"' || s[at] == '\\' then Got((), at + 1)
    else SkipString(s, at + 1)
  }

  /** The skipper's loop, from the top. */
  function SkipLoop(s: string, at: nat, depth: int): (r: Read<()>)
    requires at <= |s|
    ensures r.Got? ==> at <= r.next <= |s|
    ensures r.Got? && at < |s| && (depth != 0 || !Stops(s[at])) ==> at < r.next
    decreases |s| - at
  {
    if at == |s| then Got((), at)
    else if Opens(s[at]) then SkipLoop(s, at + 1, depth + 1)
    else if Closes(s[at]) then
      if depth - 1 <= 0 then Got((), at + 1) else SkipLoop(s, at + 1, depth - 1)
    else if depth == 0 && Stops(s[at]) then Got((), at)
    else if s[at] == '"' then
      match SkipString(s, at + 1)
      case Failed(fault) => Failed(fault)
      case Got(_, next) => SkipLoop(s, next, depth)
    else SkipLoop(s, at + 1, depth)
  }

  function SkipAt(s: string, at: nat): (r: Read<()>)
    requires at <= |s|
    ensures r.Got? ==> at <= r.next <= |s|
  {
    var p := SkipGap(s, at);
    if p == |s| then Failed(ParseFault) else SkipLoop(s, p, 0)
  }

  /** The inner loop: on to the next quote or backslash, and over it. */
  method SkipThroughString(input: Input) returns (r: Read<()>)
    requires input.Valid()
    modifies input`position
    ensures input.Valid() && r == SkipString(input.contents, old(input.position))
    ensures r.Got? ==> input.position == r.next
  {
    var s := input.contents;
    ghost var inside := input.position;
    var readingChar := ' ';
    while readingChar != '"' && readingChar != '\\'
      invariant input.Valid() && inside <= input.position
      invariant if readingChar == '"' || readingChar == '\\' then SkipString(s, inside) == Got((), input.position)
                else SkipString(s, input.position) == SkipString(s, inside)
      decreases |s| - input.position, readingChar != '"' && readingChar != '\\'
    {
      if input.position == |s| {
        return Failed(ParseFault);
      }
      readingChar := s[input.position];
      input.position := input.position + 1;
    }
    r := Got((), input.position);
  }

  /** `skipObjectElement`. */
  method SkipObjectElement(input: Input) returns (r: Read<()>)
    requires input.Valid()
    modifies input`position
    ensures input.Valid() && r == SkipAt(input.contents, old(input.position))
    ensures r.Got? ==> input.position == r.next
  {
    var s := input.contents;
    input.EatWhitespace();
    ghost var start := input.position;
    var depth := 0;
    if input.position == |s| {
      return Failed(ParseFault);
    }
    while input.position < |s|
      invariant input.Valid() && start <= input.position
      invariant SkipLoop(s, input.position, depth) == SkipLoop(s, start, 0)
      decreases |s| - input.position
    {
      var readingChar := s[input.position];
      if readingChar == '{' || readingChar == '[' {
        depth := depth + 1;
        input.position := input.position + 1;
      } else if readingChar == '}' || readingChar == ']' {
        depth := depth - 1;
        input.position := input.position + 1;
        if depth <= 0 {
          return Got((), input.position);
        }
      } else if depth == 0 && (readingChar == ' ' || readingChar == '\t'
                               || readingChar == '\r' || readingChar == '\n' || readingChar == ',') {
        return Got((), input.position);
      } else if readingChar == '"' {
        input.position := input.position + 1;
        var skipped := SkipThroughString(input);
        if skipped.Failed? {
          return skipped;
        }
      } else {
        input.position := input.position + 1;
      }
    }
    r := Got((), input.position);
  }

  // Where skipping agrees with reading.

  /** Where the skipper stands with a text: inside of a string, as it takes it, and at which depth. */
  datatype Stand = Stand(inside: bool, depth: nat)

  /** One character of a string's text takes the skipper on, unless it stops there: a quote has it inside, a
      backslash outside; outside, brackets count, and a blank, a comma or a line break ends the value. */
  function FollowsOne(from: Stand, c: char): Option<Stand> {
    if c == '"' then Some(from.(inside := true))
    else if c == '\\' then Some(from.(inside := false))
    else if c == '\n' then if from.depth == 0 then None else Some(from.(inside := false))
    else if from.inside then Some(from)
    else if c in {'{', '['} then Some(from.(depth := from.depth + 1))
    else if c in {'}', ']'} then if from.depth <= 1 then None else Some(from.(depth := from.depth - 1))
    else if from.depth == 0 && c in {' ', '\t', '\r', '\n', ','} then None
    else Some(from)
  }

  function Follows(from: Stand, t: string): Option<Stand>
    decreases |t|
  {
    if t == [] then Some(from)
    else
      match FollowsOne(from, t[0])
      case None => None
      case Some(next) => Follows(next, t[1..])
  }

  /** Strings that the skipper follows at this depth: at their end it is inside, where it was. */
  predicate PlainString(t: string, depth: nat) { Follows(Stand(true, depth), t) == Some(Stand(true, depth)) }

  predicate Plain(v: Json, depth: nat)
    decreases v, 1
  {
    match v
    case Str(s) => PlainString(s, depth)
    case Arr(_, items) => forall i :: 0 <= i < |items| ==> Plain(items[i], depth + 1)
    case Obj(_, members) =>
      forall i :: 0 <= i < |members| ==>
        PlainString(members[i].name, depth + 1) && Plain(members[i].value, depth + 1)
    case _ => true
  }

  /** The skipper walks over `t` at this depth. */
  predicate WalksOver(c: char, depth: int) {
    !Opens(c) && !Closes(c) && c != '"' && (depth == 0 ==> !Stops(c))
  }

  lemma {:induction false} Walks(s: string, at: nat, t: string, depth: int)
    requires Has(s, at, t) && forall i :: 0 <= i < |t| ==> WalksOver(t[i], depth)
    ensures SkipLoop(s, at, depth) == SkipLoop(s, at + |t|, depth)
    decreases |t|
  {
    if t != [] {
      assert t == t[..1] + t[1..];
      HasParts(s, at, t[..1], t[1..]);
      HasFirst(s, at, t);
      Walks(s, at + 1, t[1..], depth);
    }
  }

  function Unit(c: char): string { if NeedsEscape(c) then ['\\', c] else [c] }

  /** The skipper's loop, or its inner loop. */
  function Continue(s: string, at: nat, stand: Stand): (r: Read<()>)
    requires at <= |s|
    ensures r.Got? ==> at <= r.next <= |s|
  {
    if !stand.inside then SkipLoop(s, at, stand.depth)
    else
      match SkipString(s, at)
      case Failed(fault) => Failed(fault)
      case Got(_, next) => SkipLoop(s, next, stand.depth)
  }

  /** The written form of one character takes the skipper on, or makes it stop at once. */
  lemma UnitFollows(s: string, at: nat, c: char, stand: Stand)
    requires Has(s, at, Unit(c)) && at + |Unit(c)| <= |s|
    ensures match FollowsOne(stand, c)
            case Some(next) => Continue(s, at, stand) == Continue(s, at + |Unit(c)|, next)
            case None => Continue(s, at, stand).Got? && Continue(s, at, stand).next <= at + |Unit(c)|
  {
    hide Has, Continue, FollowsOne;
    HasFirst(s, at, Unit(c));
    if NeedsEscape(c) {
      assert Unit(c) == ['\\'] + [c];
      HasParts(s, at, ['\\'], [c]);
      HasFirst(s, at + 1, [c]);
      CharacterFollows(s, at, stand);
      assert FollowsOne(stand, '\\') == Some(Stand(false, stand.depth)) by { BackslashLeaves(stand); }
      EscapedFollows(s, at + 1, stand.depth);
      EscapedStands(stand, c);
    } else {
      CharacterFollows(s, at, stand);
    }
  }

  lemma CharacterFollows(s: string, at: nat, stand: Stand)
    requires at < |s| && s[at] != '\n' && (s[at] == '"' ==> !stand.inside)
    ensures match FollowsOne(stand, s[at])
            case Some(next) => Continue(s, at, stand) == Continue(s, at + 1, next)
            case None => Continue(s, at, stand).Got? && Continue(s, at, stand).next <= at + 1
  {
  }

  /** Behind a backslash the skipper is outside. */
  lemma EscapedFollows(s: string, at: nat, depth: nat)
    requires at < |s| && NeedsEscape(s[at])
    ensures match FollowsOne(Stand(false, depth), s[at])
            case Some(next) => Continue(s, at, Stand(false, depth)) == Continue(s, at + 1, next)
            case None =>
              Continue(s, at, Stand(false, depth)).Got? && Continue(s, at, Stand(false, depth)).next <= at + 1
  {
  }

  lemma BackslashLeaves(stand: Stand)
    ensures FollowsOne(stand, '\\') == Some(Stand(false, stand.depth))
  {
  }

  lemma EscapedStands(stand: Stand, c: char)
    requires NeedsEscape(c)
    ensures FollowsOne(stand, c) == FollowsOne(Stand(false, stand.depth), c)
  {
  }

  lemma {:induction false} BodyFollows(s: string, at: nat, t: string, stand: Stand)
    requires Has(s, at, Escaped(t) + "\"") && at <= |s|
    ensures at + |Escaped(t)| + 1 <= |s|
    ensures var end := at + |Escaped(t)| + 1;
            var after := Follows(stand, t);
            if after.Some? && after.value.inside then
              Continue(s, at, stand) == SkipLoop(s, end, after.value.depth)
            else
              Continue(s, at, stand) != Got((), end)
    decreases |t|
  {
    hide Has, SkipLoop, FollowsOne;
    if t == [] {
      assert Escaped(t) + "\"" == "\"";
      HasFirst(s, at, "\"");
      EndFollows(s, at, stand);
    } else {
      var unit, rest := Unit(t[0]), Escaped(t[1..]) + "\"";
      assert Escaped(t) + "\"" == unit + rest;
      HasParts(s, at, unit, rest);
      HasLength(s, at + |unit|, rest);
      UnitFollows(s, at, t[0], stand);
      var next := FollowsOne(stand, t[0]);
      if next.Some? {
        BodyFollows(s, at + |unit|, t[1..], next.value);
      }
    }
  }

  lemma HasLength(s: string, at: nat, t: string)
    requires Has(s, at, t)
    ensures at + |t| <= |s|
  {
  }

  /** The quote that ends a string is its end for a skipper that is inside; one that is outside goes on. */
  lemma EndFollows(s: string, at: nat, stand: Stand)
    requires at < |s| && s[at] == '"'
    ensures if stand.inside then Continue(s, at, stand) == SkipLoop(s, at + 1, stand.depth)
            else Continue(s, at, stand) != Got((), at + 1)
  {
  }

  lemma StringFollows(s: string, at: nat, t: string, depth: nat)
    requires Has(s, at, Quoted(t)) && at <= |s|
    ensures at + |Quoted(t)| <= |s|
    ensures var after := Follows(Stand(true, depth), t);
            if after.Some? && after.value.inside then
              SkipLoop(s, at, depth) == SkipLoop(s, at + |Quoted(t)|, after.value.depth)
            else
              SkipLoop(s, at, depth) != Got((), at + |Quoted(t)|)
  {
    hide Has, Follows;
    HasFirst(s, at, Quoted(t));
    assert Quoted(t) == "\"" + (Escaped(t) + "\"");
    HasParts(s, at, "\"", Escaped(t) + "\"");
    BodyFollows(s, at + 1, t, Stand(true, depth));
  }

  /** Exactly the strings that are skipped as they are read: the text is followed to its end with the skipper
      inside; and behind the string the input ends, or the depth is none and something stops the skipper. */
  lemma StringIsSkipped(s: string, at: nat, t: string)
    requires Has(s, at, Quoted(t)) && at <= |s|
    ensures var end := at + |Quoted(t)|;
            var after := Follows(Stand(true, 0), t);
            && end <= |s|
            && StringAt(s, at) == Got(NoNewlines(t), end)
            && (SkipAt(s, at) == Got((), end) <==>
                && after.Some? && after.value.inside
                && (end == |s| || (after.value.depth == 0 && s[end] in {' ', '\t', '\r', '\n', ','})))
  {
    hide Has, Follows;
    HasFirst(s, at, Quoted(t));
    StringReads(s, at, t);
    StringFollows(s, at, t, 0);
  }

  /** Strings without backslashes and line breaks are followed everywhere, quotes or not. */
  lemma {:induction false} SimpleIsPlain(t: string, depth: nat)
    requires '\\' !in t && '\n' !in t
    ensures PlainString(t, depth)
    decreases |t|
  {
    if t != [] {
      assert t == [t[0]] + t[1..];
      SimpleIsPlain(t[1..], depth);
    }
  }

  /** What is followed is followed one level deeper. */
  lemma {:induction false} FollowsDeeper(from: Stand, t: string)
    requires Follows(from, t).Some?
    ensures var after := Follows(from, t).value;
            Follows(from.(depth := from.depth + 1), t) == Some(after.(depth := after.depth + 1))
    decreases |t|
  {
    if t != [] {
      FollowsDeeper(FollowsOne(from, t[0]).value, t[1..]);
    }
  }

  lemma {:induction false} PlainDeeper(v: Json, depth: nat)
    requires Plain(v, depth)
    ensures Plain(v, depth + 1)
    decreases v
  {
    hide PlainString;
    match v
    case Str(s) => PlainStringDeeper(s, depth);
    case Arr(_, items) =>
      forall i | 0 <= i < |items| ensures Plain(items[i], depth + 2) {
        PlainDeeper(items[i], depth + 1);
      }
    case Obj(_, members) =>
      forall i | 0 <= i < |members|
        ensures PlainString(members[i].name, depth + 2) && Plain(members[i].value, depth + 2)
      {
        PlainStringDeeper(members[i].name, depth + 1);
        PlainDeeper(members[i].value, depth + 1);
      }
    case _ =>
  }

  lemma PlainStringDeeper(t: string, depth: nat)
    requires PlainString(t, depth)
    ensures PlainString(t, depth + 1)
  {
    FollowsDeeper(Stand(true, depth), t);
  }

  /** What is left for the skipper behind a value: nothing more, if a container ended at the outermost depth. */
  function After(s: string, end: nat, v: Json, depth: int): Read<()>
    requires end <= |s|
  {
    if (v.Arr? || v.Obj?) && depth <= 0 then Got((), end) else SkipLoop(s, end, depth)
  }

  lemma {:induction false} ValueSkips(s: string, at: nat, v: Json, indent: nat, depth: nat)
    requires Plain(v, depth) && Has(s, at, Text(v, indent)) && at <= |s|
    ensures at + |Text(v, indent)| <= |s|
    ensures SkipLoop(s, at, depth) == After(s, at + |Text(v, indent)|, v, depth)
    decreases v, 1
  {
    hide Has, SkipLoop;
    match v
    case Null => ScalarWalks(s, at, v, indent, depth);
    case Bool(b) => ScalarWalks(s, at, v, indent, depth);
    case Int(i) => ScalarWalks(s, at, v, indent, depth);
    case Str(t) => StringFollows(s, at, t, depth);
    case Arr(_, _) => ArraySkips(s, at, v, indent, depth);
    case Obj(_, _) => ObjectSkips(s, at, v, indent, depth);
  }

  lemma ScalarWalks(s: string, at: nat, v: Json, indent: nat, depth: nat)
    requires (v.Null? || v.Bool? || v.Int?) && Has(s, at, Text(v, indent)) && at <= |s|
    ensures at + |Text(v, indent)| <= |s|
    ensures SkipLoop(s, at, depth) == SkipLoop(s, at + |Text(v, indent)|, depth)
  {
    hide Has, SkipLoop;
    HasLength(s, at, Text(v, indent));
    Walks(s, at, Text(v, indent), depth);
  }

  /** The closing of a container, with the bracket behind it. */
  lemma ClosingSkips(s: string, at: nat, closing: string, bracket: string, depth: nat)
    requires Has(s, at, closing + bracket) && |bracket| == 1 && Closes(bracket[0])
    requires forall i :: 0 <= i < |closing| ==> closing[i] == '\n' || closing[i] == '\t'
    ensures at + |closing| + 1 <= |s|
    ensures SkipLoop(s, at, depth + 1)
         == if depth == 0 then Got((), at + |closing| + 1) else SkipLoop(s, at + |closing| + 1, depth)
  {
    HasParts(s, at, closing, bracket);
    Walks(s, at, closing, depth + 1);
    HasFirst(s, at + |closing|, bracket);
  }

  lemma {:induction false} ArraySkips(s: string, at: nat, v: Json, indent: nat, depth: nat)
    requires v.Arr? && Plain(v, depth) && Has(s, at, Text(v, indent)) && at <= |s|
    ensures at + |Text(v, indent)| <= |s|
    ensures SkipLoop(s, at, depth) == After(s, at + |Text(v, indent)|, v, depth)
    decreases v, 0
  {
    hide Has, ItemsText, NewLine;
    var closing := Closing(v.sized, |v.items|, indent);
    var items := ItemsText(v.items, true, indent + 1);
    assert Text(v, indent) == "[" + (items + (closing + "]"));
    HasParts(s, at, "[", items + (closing + "]"));
    HasFirst(s, at, "[");
    HasParts(s, at + 1, items, closing + "]");
    ItemsSkip(s, at + 1, v.items, true, indent + 1, depth + 1);
    ClosingIsBlank(v.sized, |v.items|, indent);
    ClosingSkips(s, at + 1 + |items|, closing, "]", depth);
  }

  lemma {:induction false} ObjectSkips(s: string, at: nat, v: Json, indent: nat, depth: nat)
    requires v.Obj? && Plain(v, depth) && Has(s, at, Text(v, indent)) && at <= |s|
    ensures at + |Text(v, indent)| <= |s|
    ensures SkipLoop(s, at, depth) == After(s, at + |Text(v, indent)|, v, depth)
    decreases v, 0
  {
    hide Has, MembersText, NewLine;
    var closing := Closing(v.sized, |v.members|, indent);
    var members := MembersText(v.members, true, indent + 1);
    assert Text(v, indent) == "{" + (members + (closing + "}"));
    HasParts(s, at, "{", members + (closing + "}"));
    HasFirst(s, at, "{");
    HasParts(s, at + 1, members, closing + "}");
    MembersSkip(s, at + 1, v.members, true, indent + 1, depth + 1);
    ClosingIsBlank(v.sized, |v.members|, indent);
    ClosingSkips(s, at + 1 + |members|, closing, "}", depth);
  }

  lemma ClosingIsBlank(sized: bool, count: nat, indent: nat)
    ensures forall i :: 0 <= i < |Closing(sized, count, indent)| ==>
              Closing(sized, count, indent)[i] == '\n' || Closing(sized, count, indent)[i] == '\t'
  {
    NewLineIsBlank(indent);
  }

  lemma {:induction false} NewLineIsBlank(indent: nat)
    ensures forall i :: 0 <= i < |Tabs(indent)| ==> Tabs(indent)[i] == '\t'
    ensures forall i :: 0 <= i < |NewLine(indent)| ==> NewLine(indent)[i] == '\n' || NewLine(indent)[i] == '\t'
  {
    if indent > 0 { NewLineIsBlank(indent - 1); }
  }

  lemma {:induction false} ItemsSkip(s: string, at: nat, items: seq<Json>, first: bool, indent: nat, depth: nat)
    requires depth > 0 && at <= |s| && Has(s, at, ItemsText(items, first, indent))
    requires forall i :: 0 <= i < |items| ==> Plain(items[i], depth)
    ensures at + |ItemsText(items, first, indent)| <= |s|
    ensures SkipLoop(s, at, depth) == SkipLoop(s, at + |ItemsText(items, first, indent)|, depth)
    decreases items, 0
  {
    hide Has, Text, NewLine;
    if items != [] {
      var lead := (if first then [] else ",") + NewLine(indent);
      var text := Text(items[0], indent);
      var rest := ItemsText(items[1..], false, indent);
      assert ItemsText(items, first, indent) == lead + (text + rest);
      HasParts(s, at, lead, text + rest);
      HasParts(s, at + |lead|, text, rest);
      NewLineIsBlank(indent);
      Walks(s, at, lead, depth);
      ValueSkips(s, at + |lead|, items[0], indent, depth);
      ItemsSkip(s, at + |lead| + |text|, items[1..], false, indent, depth);
    }
  }

  lemma {:induction false} MembersSkip(s: string, at: nat, members: seq<Member>, first: bool, indent: nat, depth: nat)
    requires depth > 0 && at <= |s| && Has(s, at, MembersText(members, first, indent))
    requires forall i :: 0 <= i < |members| ==> PlainString(members[i].name, depth) && Plain(members[i].value, depth)
    ensures at + |MembersText(members, first, indent)| <= |s|
    ensures SkipLoop(s, at, depth) == SkipLoop(s, at + |MembersText(members, first, indent)|, depth)
    decreases members, 0
  {
    hide Has, MemberText, SkipLoop;
    if members != [] {
      var text := MemberText(members[0], first, indent);
      HasParts(s, at, text, MembersText(members[1..], false, indent));
      MemberSkips(s, at, members[0], first, indent, depth);
      MembersSkip(s, at + |text|, members[1..], false, indent, depth);
    }
  }

  lemma {:induction false} MemberSkips(s: string, at: nat, member: Member, first: bool, indent: nat, depth: nat)
    requires depth > 0 && at <= |s| && Has(s, at, MemberText(member, first, indent))
    requires PlainString(member.name, depth) && Plain(member.value, depth)
    ensures at + |MemberText(member, first, indent)| <= |s|
    ensures SkipLoop(s, at, depth) == SkipLoop(s, at + |MemberText(member, first, indent)|, depth)
    decreases member, 0
  {
    hide Has, Text, NewLine, Quoted, SkipLoop;
    var lead := (if first then [] else ",") + NewLine(indent);
    var name := Quoted(member.name);
    var text := Text(member.value, indent);
    assert MemberText(member, first, indent) == lead + (name + (" : " + text));
    HasParts(s, at, lead, name + (" : " + text));
    HasParts(s, at + |lead|, name, " : " + text);
    HasParts(s, at + |lead| + |name|, " : ", text);
    NewLineIsBlank(indent);
    Walks(s, at, lead, depth);
    StringFollows(s, at + |lead|, member.name, depth);
    Walks(s, at + |lead| + |name|, " : ", depth);
    ValueSkips(s, at + |lead| + |name| + 3, member.value, indent, depth);
  }

  /** Skipping agrees with reading: from the start of a value whose strings the skipper follows, it lands exactly
      behind it if and only if the value is a container, or the text ends there, or a blank or a comma follows.
      (A closing bracket right behind a scalar is eaten.) */
  lemma SkipLandsBehind(s: string, at: nat, v: Json, indent: nat)
    requires Plain(v, 0) && Writable(v) && at <= |s| && Has(s, at, Text(v, indent))
    ensures var end := at + |Text(v, indent)|;
            && end <= |s|
            && (SkipAt(s, at) == Got((), end) <==>
                  v.Arr? || v.Obj? || end == |s| || s[end] in {' ', '\t', '\r', '\n', ','})
            && (v.Int? ==> (EndsNumber(s, end) ==> ValueAt(s, at) == Got(Seen(v), end)))
            && (!v.Int? ==> ValueAt(s, at) == Got(Seen(v), end))
  {
    hide Has, Text, ValueAt, Seen;
    TextBegins(v, indent);
    HasFirst(s, at, Text(v, indent));
    ValueSkips(s, at, v, indent, 0);
    if !v.Int? || EndsNumber(s, at + |Text(v, indent)|) {
      ValueReads(s, at, v, indent);
    }
  }

  /** A backslash in a string makes the skipper run past it, although the reader reads it. */
  lemma BackslashMisleads()
    ensures var s := Quoted("\\") + ",";
            ValueAt(s, 0) == Got(Str("\\"), 4) && SkipAt(s, 0) == Failed(ParseFault)
  {
    var s := Quoted("\\") + ",";
    assert s == ['"', '\\', '\\', '"', ','];
    assert NoNewlines("\\") == "\\" && Quoted("\\") == ['"', '\\', '\\', '"'];
    assert Has(s, 0, Text(Str("\\"), 0));
    ValueReads(s, 0, Str("\\"), 0);
    assert SkipString(s, 1) == Got((), 2);
    assert SkipString(s, 4) == SkipString(s, 5) == Failed(ParseFault);
    assert SkipLoop(s, 2, 0) == SkipLoop(s, 3, 0) == Failed(ParseFault);
  }

  /** A line break in a string makes the skipper stop inside it. */
  lemma LineBreakMisleads()
    ensures var s := Quoted("\n") + ",";
            ValueAt(s, 0) == Got(Str(""), 4) && SkipAt(s, 0) == Got((), 2)
  {
    var s := Quoted("\n") + ",";
    assert s == ['"', '\\', '\n', '"', ','];
    assert NoNewlines("\n") == "" && Quoted("\n") == ['"', '\\', '\n', '"'];
    assert Has(s, 0, Text(Str("\n"), 0));
    ValueReads(s, 0, Str("\n"), 0);
    assert SkipString(s, 1) == Got((), 2);
    assert SkipLoop(s, 2, 0) == Got((), 2);
  }
}
