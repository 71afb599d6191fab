/**
  Reading back what was written, and skipping it: both end exactly where the value's text ends.
 */
module JsonRoundTrip {
  import opened Decimal
  import opened JsonText
  import opened JsonInput
  import opened Texts

  lemma HasFirst(s: string, at: nat, t: string)
    requires Has(s, at, t) && t != []
    ensures at < |s| && s[at] == t[0]
  {
    assert s[at..at + |t|][0] == s[at];
  }

  predicate AllGap(t: string) { forall i :: 0 <= i < |t| ==> IsGap(t[i]) }

  lemma {:induction false} GapSkipped(s: string, at: nat, gap: string)
    requires Has(s, at, gap) && AllGap(gap)
    ensures SkipGap(s, at) == SkipGap(s, at + |gap|)
    decreases |gap|
  {
    if gap != [] {
      assert gap == gap[..1] + gap[1..];
      HasParts(s, at, gap[..1], gap[1..]);
      HasFirst(s, at, gap);
      GapSkipped(s, at + 1, gap[1..]);
    }
  }

  lemma {:induction false} TabsAreGap(depth: nat)
    ensures AllGap(NewLine(depth)) && AllGap(Tabs(depth))
  {
    if depth > 0 { TabsAreGap(depth - 1); }
  }

  // What a reader sees of a tree: line breaks in strings are gone, and sizes were never written.

  function NoNewlines(s: string): string {
    if s == [] then [] else (if s[0] == '\n' then [] else [s[0]]) + NoNewlines(s[1..])
  }

  function Seen(v: Json): Json
    decreases v, 1
  {
    match v
    case Str(s) => Str(NoNewlines(s))
    case Arr(_, items) => Arr(true, SeenItems(items))
    case Obj(_, members) => Obj(true, SeenMembers(members))
    case _ => v
  }

  function SeenItems(items: seq<Json>): (r: seq<Json>)
    ensures |r| == |items|
    decreases items, 0
  {
    if items == [] then [] else [Seen(items[0])] + SeenItems(items[1..])
  }

  function SeenMembers(members: seq<Member>): (r: seq<Member>)
    ensures |r| == |members|
    decreases members, 0
  {
    if members == [] then [] else [SeenMember(members[0])] + SeenMembers(members[1..])
  }

  function SeenMember(member: Member): Member
    decreases member, 0
  {
    Member(NoNewlines(member.name), Seen(member.value))
  }

  /** What a caller can check of a tree before writing it. */
  predicate Faithful(v: Json)
    decreases v, 1
  {
    match v
    case Str(s) => '\n' !in s
    case Arr(sized, items) => sized && forall i :: 0 <= i < |items| ==> Faithful(items[i])
    case Obj(sized, members) =>
      sized && forall i :: 0 <= i < |members| ==> '\n' !in members[i].name && Faithful(members[i].value)
    case _ => true
  }

  lemma {:induction false} NewlinesCount(s: string)
    ensures |NoNewlines(s)| <= |s|
    ensures NoNewlines(s) == s <==> '\n' !in s
  {
    if s != [] {
      NewlinesCount(s[1..]);
      assert s == [s[0]] + s[1..];
      if s[0] == '\n' {
        assert |NoNewlines(s)| < |s|;
      } else {
        assert NoNewlines(s)[1..] == NoNewlines(s[1..]);
      }
    }
  }

  /** A reader sees the very tree that was written exactly when no string holds a line break and all sizes were
      announced. */
  lemma {:induction false} SeenIsFaithful(v: Json)
    ensures Seen(v) == v <==> Faithful(v)
    decreases v, 1
  {
    match v
    case Str(s) => NewlinesCount(s);
    case Arr(_, items) => SeenItemsFaithful(items);
    case Obj(_, members) => SeenMembersFaithful(members);
    case _ =>
  }

  lemma {:induction false} SeenItemsFaithful(items: seq<Json>)
    ensures SeenItems(items) == items <==> forall i :: 0 <= i < |items| ==> Faithful(items[i])
    decreases items, 0
  {
    if items != [] {
      var rest := items[1..];
      SeenIsFaithful(items[0]);
      SeenItemsFaithful(rest);
      assert items == [items[0]] + rest;
      assert SeenItems(items) == items <==> Seen(items[0]) == items[0] && SeenItems(rest) == rest by {
        assert SeenItems(items)[0] == Seen(items[0]) && SeenItems(items)[1..] == SeenItems(rest);
      }
      assert forall i :: 0 <= i < |rest| ==> rest[i] == items[i + 1];
      if Faithful(items[0]) && forall i :: 0 <= i < |rest| ==> Faithful(rest[i]) {
        forall i | 0 <= i < |items| ensures Faithful(items[i]) {
          if i > 0 { assert items[i] == rest[i - 1]; }
        }
      }
    }
  }

  lemma {:induction false} SeenMembersFaithful(members: seq<Member>)
    ensures SeenMembers(members) == members <==>
            forall i :: 0 <= i < |members| ==> '\n' !in members[i].name && Faithful(members[i].value)
    decreases members, 0
  {
    if members != [] {
      var rest := members[1..];
      NewlinesCount(members[0].name);
      SeenIsFaithful(members[0].value);
      SeenMembersFaithful(rest);
      assert members == [members[0]] + rest;
      assert SeenMembers(members) == members <==> SeenMember(members[0]) == members[0] && SeenMembers(rest) == rest by {
        assert SeenMembers(members)[0] == SeenMember(members[0]) && SeenMembers(members)[1..] == SeenMembers(rest);
      }
      assert forall i :: 0 <= i < |rest| ==> rest[i] == members[i + 1];
      if SeenMember(members[0]) == members[0]
         && forall i :: 0 <= i < |rest| ==> '\n' !in rest[i].name && Faithful(rest[i].value) {
        forall i | 0 <= i < |members| ensures '\n' !in members[i].name && Faithful(members[i].value) {
          if i > 0 { assert members[i] == rest[i - 1]; }
        }
      }
    }
  }

  // Reading.

  lemma {:induction false} BodyReads(s: string, at: nat, t: string)
    requires Has(s, at, Escaped(t) + "\"")
    ensures StringBody(s, at) == Got(NoNewlines(t), at + |Escaped(t)| + 1)
    decreases |t|
  {
    HasFirst(s, at, Escaped(t) + "\"");
    if t != [] {
      var unit := if NeedsEscape(t[0]) then ['\\', t[0]] else [t[0]];
      var rest := Escaped(t[1..]) + "\"";
      assert Escaped(t) + "\"" == unit + rest;
      HasParts(s, at, unit, rest);
      BodyReads(s, at + |unit|, t[1..]);
      if NeedsEscape(t[0]) {
        assert s[at..at + 2][1] == s[at + 1];
      }
    }
  }

  lemma StringReads(s: string, at: nat, t: string)
    requires Has(s, at, Quoted(t))
    ensures StringAt(s, at) == Got(NoNewlines(t), at + |Quoted(t)|)
  {
    HasFirst(s, at, Quoted(t));
    assert Quoted(t) == "\"" + (Escaped(t) + "\"");
    HasParts(s, at, "\"", Escaped(t) + "\"");
    BodyReads(s, at + 1, t);
  }

  lemma {:induction false} Expected(s: string, at: nat, word: string)
    requires Has(s, at, word)
    ensures Expect(s, at, word) == Got((), at + |word|)
    decreases |word|
  {
    if word != [] {
      assert word == word[..1] + word[1..];
      HasParts(s, at, word[..1], word[1..]);
      HasFirst(s, at, word);
      Expected(s, at + 1, word[1..]);
    }
  }

  /** A number's text ends here: there is a next character, and it is not one of a number. */
  predicate EndsNumber(s: string, at: nat) { at < |s| && !InNumber(s[at]) }

  lemma IntTextBegins(i: int)
    ensures var t := IntText(i);
            if i < 0 then t[0] == '-' else t == TextOf(i) && IsDigit(t[0])
  {
  }

  lemma IntReads(s: string, at: nat, i: int)
    requires Fits(i) && Has(s, at, IntText(i)) && EndsNumber(s, at + |IntText(i)|)
    ensures IntAt(s, at) == Got(i, at + |IntText(i)|)
    ensures TypeAt(s, at) == TInteger && SkipGap(s, at) == at
  {
    hide IntText, FromChars, Fits;
    var end := at + |IntText(i)|;
    IntTextBegins(i);
    HasFirst(s, at, IntText(i));
    assert s[at..] == IntText(i) + s[end..];
    assert INT64_MIN <= i <= INT64_MAX by { FitsInRange(i); }
    FromCharsReadsText(i, s[end..], INT64_MIN, INT64_MAX);
    if i >= 0 { DigitsAreInteger(s, at, TextOf(i)); }
  }

  lemma FitsInRange(i: int)
    requires Fits(i)
    ensures INT64_MIN <= i <= INT64_MAX
  {
  }

  lemma {:induction false} DigitsAreInteger(s: string, at: nat, digits: string)
    requires AllDigits(digits) && Has(s, at, digits) && EndsNumber(s, at + |digits|)
    ensures NumberType(s, at) == TInteger
    decreases |digits|
  {
    if digits != [] {
      assert digits == digits[..1] + digits[1..];
      HasParts(s, at, digits[..1], digits[1..]);
      HasFirst(s, at, digits);
      DigitsAreInteger(s, at + 1, digits[1..]);
    }
  }

  /** The text of a value begins at once. */
  lemma TextBegins(v: Json, depth: nat)
    ensures var t := Text(v, depth);
            t != [] && !IsGap(t[0]) && t[0] != ']' && t[0] != '}'
  {
    if v.Int? && v.i >= 0 { assert IsDigit(TextOf(v.i)[0]); }
  }

  /** Round trip: from the text of a value, wherever it stands, a reader gets the value (as far as it
      can be seen) and stops exactly behind it. An integer needs something behind it. */
  lemma {:induction false} ValueReads(s: string, at: nat, v: Json, depth: nat)
    requires Writable(v) && Has(s, at, Text(v, depth))
    requires v.Int? ==> EndsNumber(s, at + |Text(v, depth)|)
    ensures ValueAt(s, at) == Got(Seen(v), at + |Text(v, depth)|)
    decreases v, 1
  {
    hide Has;
    match v
    case Null => NullReads(s, at);
    case Bool(b) => BoolReads(s, at, b);
    case Int(i) => IntReads(s, at, i);
    case Str(text) =>
      HasFirst(s, at, Quoted(text));
      StringReads(s, at, text);
    case Arr(_, _) => ArrayReads(s, at, v, depth);
    case Obj(_, _) => ObjectReads(s, at, v, depth);
  }

  lemma NullReads(s: string, at: nat)
    requires Has(s, at, "null")
    ensures ValueAt(s, at) == Got(Null, at + 4)
  {
    HasFirst(s, at, "null");
    Expected(s, at, "null");
  }

  lemma BoolReads(s: string, at: nat, b: bool)
    requires Has(s, at, Text(Bool(b), 0))
    ensures ValueAt(s, at) == Got(Bool(b), at + |Text(Bool(b), 0)|)
  {
    var t, tail := Text(Bool(b), 0), if b then "rue" else "alse";
    assert t == t[..1] + tail;
    HasFirst(s, at, t);
    HasParts(s, at, t[..1], tail);
    Expected(s, at + 1, tail);
  }

  lemma {:induction false} ArrayReads(s: string, at: nat, v: Json, depth: nat)
    requires v.Arr? && Writable(v) && Has(s, at, Text(v, depth))
    ensures ValueAt(s, at) == Got(Seen(v), at + |Text(v, depth)|)
    decreases v, 0
  {
    hide Has, ItemsText, SeenItems, ItemsAt, NewLine;
    var closing := Closing(v.sized, |v.items|, depth);
    var inner := ItemsText(v.items, true, depth + 1) + (closing + "]");
    assert Text(v, depth) == "[" + inner;
    HasParts(s, at, "[", inner);
    HasFirst(s, at, "[");
    TabsAreGap(depth);
    NewLineBegins(depth);
    ItemsRead(s, at + 1, v.items, true, depth + 1, closing);
  }

  lemma {:induction false} ObjectReads(s: string, at: nat, v: Json, depth: nat)
    requires v.Obj? && Writable(v) && Has(s, at, Text(v, depth))
    ensures ValueAt(s, at) == Got(Seen(v), at + |Text(v, depth)|)
    decreases v, 0
  {
    hide Has, MembersText, SeenMembers, MembersAt, NewLine;
    var closing := Closing(v.sized, |v.members|, depth);
    var inner := MembersText(v.members, true, depth + 1) + (closing + "}");
    assert Text(v, depth) == "{" + inner;
    HasParts(s, at, "{", inner);
    HasFirst(s, at, "{");
    TabsAreGap(depth);
    NewLineBegins(depth);
    MembersRead(s, at + 1, v.members, true, depth + 1, closing);
  }

  lemma NewLineBegins(depth: nat)
    ensures NewLine(depth) != [] && NewLine(depth)[0] == '\n'
  {
  }

  /** What comes behind an element ends a number, whether it is the next element or the closing. */
  lemma NextEndsNumber(s: string, at: nat, rest: string, closing: string, bracket: string)
    requires Has(s, at, rest + (closing + bracket))
    requires rest != [] ==> rest[0] == ','
    requires rest == [] ==> closing != [] && closing[0] == '\n'
    ensures EndsNumber(s, at)
  {
    HasFirst(s, at, rest + (closing + bracket));
  }

  lemma {:induction false} ItemsRead(s: string, at: nat, items: seq<Json>, first: bool, depth: nat, closing: string)
    requires forall i :: 0 <= i < |items| ==> Writable(items[i])
    requires AllGap(closing) && (items != [] ==> closing != [] && closing[0] == '\n')
    requires Has(s, at, ItemsText(items, first, depth) + (closing + "]")) && at <= |s|
    ensures ItemsAt(s, at) == Got(SeenItems(items), at + |ItemsText(items, first, depth)| + |closing| + 1)
    decreases items, 0
  {
    hide Seen, NewLine, Has, Text, ItemText, ItemsAt, ValueAt;
    var end := closing + "]";
    if items == [] {
      assert ItemsText(items, first, depth) + end == end;
      NothingLeft(s, at, closing, "]");
      ItemsStep(s, at);
    } else {
      var text := ItemText(items[0], first, depth);
      var rest := ItemsText(items[1..], false, depth);
      assert ItemsText(items, first, depth) + end == text + (rest + end);
      HasParts(s, at, text, rest + end);
      var next := at + |text|;
      RestBegins(items[1..], depth);
      NextEndsNumber(s, next, rest, closing, "]");
      ItemReads(s, at, items[0], first, depth);
      ItemsStep(s, at);
      ItemsRead(s, next, items[1..], false, depth, closing);
    }
  }

  lemma NothingLeft(s: string, at: nat, closing: string, bracket: string)
    requires AllGap(closing) && Has(s, at, closing + bracket) && |bracket| == 1 && !IsGap(bracket[0])
    ensures at + |closing| < |s| && SkipGap(s, at) == at + |closing| && s[at + |closing|] == bracket[0]
  {
    HasParts(s, at, closing, bracket);
    GapSkipped(s, at, closing);
    HasFirst(s, at + |closing|, bracket);
  }

  /** Where an element stands behind its separators. */
  lemma ItemPlaces(s: string, at: nat, item: Json, first: bool, depth: nat)
    requires Has(s, at, ItemText(item, first, depth)) && at <= |s|
    ensures var p := SkipGap(s, at);
            && p < |s| && !IsGap(s[p]) && s[p] != ']'
            && Has(s, p, Text(item, depth))
            && p + |Text(item, depth)| == at + |ItemText(item, first, depth)|
  {
    hide NewLine, Has, Text;
    var lead := (if first then [] else ",") + NewLine(depth);
    var text := Text(item, depth);
    HasParts(s, at, lead, text);
    TabsAreGap(depth);
    GapSkipped(s, at, lead);
    TextBegins(item, depth);
    HasFirst(s, at + |lead|, text);
  }

  lemma {:induction false} ItemReads(s: string, at: nat, item: Json, first: bool, depth: nat)
    requires Writable(item) && Has(s, at, ItemText(item, first, depth)) && at <= |s|
    requires EndsNumber(s, at + |ItemText(item, first, depth)|)
    ensures var p := SkipGap(s, at);
            && p < |s| && s[p] != ']'
            && ValueAt(s, p) == Got(Seen(item), at + |ItemText(item, first, depth)|)
    decreases item, 2
  {
    hide Seen, Has, Text, ItemText, ValueAt;
    ItemPlaces(s, at, item, first, depth);
    ValueReads(s, SkipGap(s, at), item, depth);
  }

  lemma RestBegins(items: seq<Json>, depth: nat)
    ensures var t := ItemsText(items, false, depth);
            if items == [] then t == [] else t != [] && t[0] == ','
  {
  }

  lemma {:induction false} MembersRead(s: string, at: nat, members: seq<Member>, first: bool, depth: nat,
                                       closing: string)
    requires forall i :: 0 <= i < |members| ==> Writable(members[i].value)
    requires AllGap(closing) && (members != [] ==> closing != [] && closing[0] == '\n')
    requires Has(s, at, MembersText(members, first, depth) + (closing + "}")) && at <= |s|
    ensures MembersAt(s, at) == Got(SeenMembers(members), at + |MembersText(members, first, depth)| + |closing| + 1)
    decreases members, 0
  {
    hide Seen, NewLine, Has, MemberText, MembersAt, ValueAt, StringAt;
    var end := closing + "}";
    if members == [] {
      assert MembersText(members, first, depth) + end == end;
      NothingLeft(s, at, closing, "}");
      MembersStep(s, at);
    } else {
      var text := MemberText(members[0], first, depth);
      var rest := MembersText(members[1..], false, depth);
      assert MembersText(members, first, depth) + end == text + (rest + end);
      HasParts(s, at, text, rest + end);
      var next := at + |text|;
      MembersBegin(members[1..], depth);
      NextEndsNumber(s, next, rest, closing, "}");
      MemberReads(s, at, members[0], first, depth);
      MembersStep(s, at);
      MembersRead(s, next, members[1..], false, depth, closing);
    }
  }

  lemma MembersBegin(members: seq<Member>, depth: nat)
    ensures var t := MembersText(members, false, depth);
            if members == [] then t == [] else t != [] && t[0] == ','
  {
  }

  /** Where the parts of a member stand: its name behind the separators, its value behind the colon. */
  lemma MemberPlaces(s: string, at: nat, member: Member, first: bool, depth: nat)
    requires Has(s, at, MemberText(member, first, depth)) && at <= |s|
    ensures var p := SkipGap(s, at);
            var colon := p + |Quoted(member.name)|;
            && p < |s| && s[p] == '"'
            && Has(s, p, Quoted(member.name))
            && colon + 3 <= |s| && SkipGap(s, colon) == SkipGap(s, colon + 3)
            && Has(s, colon + 3, Text(member.value, depth))
            && colon + 3 + |Text(member.value, depth)| == at + |MemberText(member, first, depth)|
  {
    hide NewLine, Has, Text, Quoted;
    var lead := (if first then [] else ",") + NewLine(depth);
    var name := Quoted(member.name);
    var text := Text(member.value, depth);
    assert MemberText(member, first, depth) == lead + (name + (" : " + text));
    HasParts(s, at, lead, name + (" : " + text));
    HasParts(s, at + |lead|, name, " : " + text);
    HasParts(s, at + |lead| + |name|, " : ", text);
    TabsAreGap(depth);
    GapSkipped(s, at, lead);
    QuotedBegins(member.name);
    HasFirst(s, at + |lead|, name);
    GapSkipped(s, at + |lead| + |name|, " : ");
  }

  lemma {:induction false} MemberReads(s: string, at: nat, member: Member, first: bool, depth: nat)
    requires Writable(member.value) && Has(s, at, MemberText(member, first, depth)) && at <= |s|
    requires EndsNumber(s, at + |MemberText(member, first, depth)|)
    ensures var p := SkipGap(s, at);
            && p < |s| && s[p] == '"'
            && StringAt(s, p).Got? && StringAt(s, p).value == NoNewlines(member.name)
            && ValueAt(s, StringAt(s, p).next) == Got(Seen(member.value), at + |MemberText(member, first, depth)|)
    decreases member, 0
  {
    hide Seen, Has, Text, Quoted, ValueAt, StringAt, SkipGap, MemberText;
    MemberPlaces(s, at, member, first, depth);
    var p := SkipGap(s, at);
    var colon := p + |Quoted(member.name)|;
    StringReads(s, p, member.name);
    ValueReads(s, colon + 3, member.value, depth);
    GapBeforeValue(s, colon);
    GapBeforeValue(s, colon + 3);
  }

  lemma QuotedBegins(t: string)
    ensures Quoted(t) != [] && Quoted(t)[0] == '"'
  {
  }

  /** Reading starts behind the separators. */
  lemma GapBeforeValue(s: string, at: nat)
    requires at <= |s|
    ensures ValueAt(s, at) == ValueAt(s, SkipGap(s, at))
  {
  }

  /** Whole documents: containers and everything else but a bare integer. */
  lemma DocumentReads(v: Json)
    requires Writable(v) && !v.Int?
    ensures ValueAt(Text(v, 0), 0) == Got(Seen(v), |Text(v, 0)|)
  {
    ValueReads(Text(v, 0), 0, v, 0);
  }

  /** A document that is a bare integer cannot be read: the reader looks for what comes behind it. */
  lemma BareIntegerFails(i: int)
    requires Fits(i)
    ensures IntAt(IntText(i), 0) == Failed(ParseFault)
  {
    var s := IntText(i);
    FromCharsReadsText(i, [], INT64_MIN, INT64_MAX);
    assert s + [] == s && s[0..] == s;
    if i >= 0 { assert IsDigit(s[0]); }
  }
}
