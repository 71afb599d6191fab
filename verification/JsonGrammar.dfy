/**
  JSON texts as RFC 8259 defines them: a strict reader that knows nothing of how the library writes and reads.
  What the library writes is JSON for exactly the trees whose strings hold no control character, with exactly the
  tree's meaning; and whatever is JSON, in any layout, the library reads as what it means. (Floating-point numbers
  and escapes with `u` are not part of this model.)
 */
module JsonGrammar {
  import opened Decimal
  import opened JsonText
  import opened JsonInput
  import opened JsonRoundTrip
  import opened Texts

  /** A value and the position behind it, or no JSON. */
  datatype Strict<T> = Accepted(value: T, next: nat) | Refused

  // Section 2: white space.

  predicate IsSpace(c: char) { c == ' ' || c == '\t' || c == '\n' || c == '\r' }

  function Spaces(s: string, at: nat): (p: nat)
    requires at <= |s|
    ensures at <= p <= |s| && (p < |s| ==> !IsSpace(s[p]))
    decreases |s| - at
  {
    if at < |s| && IsSpace(s[at]) then Spaces(s, at + 1) else at
  }

  // Section 7: strings.

  /** What an escape of two characters means; `simple` leaves those that the library knows. */
  function Meaning(c: char, simple: bool): Option<char> {
    if c == '"' then Some('"')
    else if c == '\\' then Some('\\')
    else if c == 'n' then Some('\n')
    else if simple then None
    else if c == '/' then Some('/')
    else if c == 'b' then Some(8 as char)
    else if c == 'f' then Some(12 as char)
    else if c == 'r' then Some('\r')
    else if c == 't' then Some('\t')
    else None
  }

  /** The rest of a string, behind its opening quote or some of its characters. */
  function Body(s: string, at: nat, simple: bool): (r: Strict<string>)
    requires at <= |s|
    ensures r.Accepted? ==> at < r.next <= |s|
    decreases |s| - at
  {
    if at == |s| || s[at] < ' ' then Refused
    else if s[at] == '"' then Accepted([], at + 1)
    else if s[at] == '\\' then
      if at + 1 == |s| || Meaning(s[at + 1], simple).None? then Refused
      else Behind([Meaning(s[at + 1], simple).value], Body(s, at + 2, simple))
    else Behind([s[at]], Body(s, at + 1, simple))
  }

  function Behind(prefix: string, r: Strict<string>): Strict<string> {
    if r.Accepted? then Accepted(prefix + r.value, r.next) else Refused
  }

  // Section 6: numbers, without fraction and exponent.

  function Number(s: string, at: nat): (r: Strict<int>)
    requires at <= |s|
    ensures r.Accepted? ==> at < r.next <= |s|
  {
    var sign := if at < |s| && s[at] == '-' then 1 else 0;
    var n := DigitRun(s, at + sign);
    var end := at + sign + n;
    if n == 0 || (n > 1 && s[at + sign] == '0') || (end < |s| && s[end] in {'.', 'e', 'E'}) then Refused
    else
      var magnitude: int := ValueOf(s[at + sign..end]);
      Accepted(if sign == 1 then -magnitude else magnitude, end)
  }

  function Literal(s: string, at: nat, word: string, value: Json): (r: Strict<Json>)
    requires at <= |s|
    ensures r.Accepted? ==> r.next == at + |word| <= |s|
  {
    if Has(s, at, word) then Accepted(value, at + |word|) else Refused
  }

  // Sections 3 to 5: values, objects and arrays.

  function Value(s: string, at: nat, simple: bool): (r: Strict<Json>)
    requires at <= |s|
    ensures r.Accepted? ==> at < r.next <= |s|
    decreases |s| - at, 0
  {
    if at == |s| then Refused
    else if s[at] == 'n' then Literal(s, at, "null", Null)
    else if s[at] == 't' then Literal(s, at, "true", Bool(true))
    else if s[at] == 'f' then Literal(s, at, "false", Bool(false))
    else if s[at] == '"' then
      match Body(s, at + 1, simple)
      case Refused => Refused
      case Accepted(t, next) => Accepted(Str(t), next)
    else if s[at] == '[' then
      var p := Spaces(s, at + 1);
      if p < |s| && s[p] == ']' then Accepted(Arr(true, []), p + 1)
      else
        match Elements(s, p, simple)
        case Refused => Refused
        case Accepted(items, next) => Accepted(Arr(true, items), next)
    else if s[at] == '{' then
      var p := Spaces(s, at + 1);
      if p < |s| && s[p] == '}' then Accepted(Obj(true, []), p + 1)
      else
        match Members(s, p, simple)
        case Refused => Refused
        case Accepted(members, next) => Accepted(Obj(true, members), next)
    else
      match Number(s, at)
      case Refused => Refused
      case Accepted(i, next) => Accepted(Int(i), next)
  }

  /** At least one element, commas between them, and the closing bracket. */
  function Elements(s: string, at: nat, simple: bool): (r: Strict<seq<Json>>)
    requires at <= |s|
    ensures r.Accepted? ==> at < r.next <= |s|
    decreases |s| - at, 1
  {
    match Value(s, at, simple)
    case Refused => Refused
    case Accepted(item, next) =>
      var p := Spaces(s, next);
      if p == |s| then Refused
      else if s[p] == ']' then Accepted([item], p + 1)
      else if s[p] != ',' then Refused
      else
        match Elements(s, Spaces(s, p + 1), simple)
        case Refused => Refused
        case Accepted(items, end) => Accepted([item] + items, end)
  }

  /** At least one member, commas between them, and the closing brace. */
  function Members(s: string, at: nat, simple: bool): (r: Strict<seq<Member>>)
    requires at <= |s|
    ensures r.Accepted? ==> at < r.next <= |s|
    decreases |s| - at, 1
  {
    match OneMember(s, at, simple)
    case Refused => Refused
    case Accepted(member, next) =>
      var p := Spaces(s, next);
      if p == |s| then Refused
      else if s[p] == '}' then Accepted([member], p + 1)
      else if s[p] != ',' then Refused
      else
        match Members(s, Spaces(s, p + 1), simple)
        case Refused => Refused
        case Accepted(members, end) => Accepted([member] + members, end)
  }

  /** A name, a colon and a value. */
  function OneMember(s: string, at: nat, simple: bool): (r: Strict<Member>)
    requires at <= |s|
    ensures r.Accepted? ==> at < r.next <= |s|
    decreases |s| - at, 0
  {
    if at == |s| || s[at] != '"' then Refused
    else
      match Body(s, at + 1, simple)
      case Refused => Refused
      case Accepted(name, next) =>
        var p := Spaces(s, next);
        if p == |s| || s[p] != ':' then Refused
        else
          match Value(s, Spaces(s, p + 1), simple)
          case Refused => Refused
          case Accepted(value, end) => Accepted(Member(name, value), end)
  }

  // What the library writes.

  predicate CleanString(t: string) { forall i :: 0 <= i < |t| ==> t[i] >= ' ' }

  /** No string or name of the tree holds a control character. */
  predicate Clean(v: Json)
    decreases v, 1
  {
    match v
    case Str(t) => CleanString(t)
    case Arr(_, items) => CleanItems(items)
    case Obj(_, members) => CleanMembers(members)
    case _ => true
  }

  predicate CleanItems(items: seq<Json>)
    decreases items, 0
  {
    items == [] || (Clean(items[0]) && CleanItems(items[1..]))
  }

  predicate CleanMembers(members: seq<Member>)
    decreases members, 0
  {
    members == [] || (CleanMember(members[0]) && CleanMembers(members[1..]))
  }

  predicate CleanMember(member: Member)
    decreases member, 0
  {
    CleanString(member.name) && Clean(member.value)
  }

  /** The tree that a text can say: it does not say whether sizes were announced. */
  function Said(v: Json): Json
    decreases v, 1
  {
    match v
    case Arr(_, items) => Arr(true, SaidItems(items))
    case Obj(_, members) => Obj(true, SaidMembers(members))
    case _ => v
  }

  function SaidItems(items: seq<Json>): (r: seq<Json>)
    ensures |r| == |items|
    decreases items, 0
  {
    if items == [] then [] else [Said(items[0])] + SaidItems(items[1..])
  }

  function SaidMembers(members: seq<Member>): (r: seq<Member>)
    ensures |r| == |members|
    decreases members, 0
  {
    if members == [] then [] else [SaidMember(members[0])] + SaidMembers(members[1..])
  }

  function SaidMember(member: Member): Member
    decreases member, 0
  {
    Member(member.name, Said(member.value))
  }

  lemma {:induction false} SpacesPassed(s: string, at: nat, gap: string)
    requires Has(s, at, gap) && at <= |s| && forall i :: 0 <= i < |gap| ==> IsSpace(gap[i])
    ensures at + |gap| <= |s| && Spaces(s, at) == Spaces(s, at + |gap|)
    decreases |gap|
  {
    if gap != [] {
      assert gap == gap[..1] + gap[1..];
      HasParts(s, at, gap[..1], gap[1..]);
      HasFirst(s, at, gap);
      SpacesPassed(s, at + 1, gap[1..]);
    }
  }

  lemma {:induction false} LineIsSpace(depth: nat)
    ensures forall i :: 0 <= i < |Tabs(depth)| ==> Tabs(depth)[i] == '\t'
    ensures forall i :: 0 <= i < |NewLine(depth)| ==> IsSpace(NewLine(depth)[i])
  {
    if depth > 0 { LineIsSpace(depth - 1); }
  }

  lemma SecondOf(s: string, at: nat, c: char)
    requires Has(s, at, ['\\', c])
    ensures at + 1 < |s| && s[at + 1] == c
  {
    assert s[at..at + 2][1] == s[at + 1];
  }

  lemma {:induction false} BodyIsJson(s: string, at: nat, t: string, simple: bool)
    requires Has(s, at, Escaped(t) + "\"") && at <= |s|
    ensures Body(s, at, simple) == if CleanString(t) then Accepted(t, at + |Escaped(t)| + 1) else Refused
    decreases |t|
  {
    hide Has;
    HasFirst(s, at, Escaped(t) + "\"");
    if t != [] {
      var unit := if NeedsEscape(t[0]) then ['\\', t[0]] else [t[0]];
      var rest := Escaped(t[1..]) + "\"";
      assert Escaped(t) + "\"" == unit + rest;
      HasParts(s, at, unit, rest);
      BodyIsJson(s, at + |unit|, t[1..], simple);
      if NeedsEscape(t[0]) {
        SecondOf(s, at, t[0]);
      }
      assert t == [t[0]] + t[1..];
      assert CleanString(t) <==> t[0] >= ' ' && CleanString(t[1..]);
    }
  }

  lemma StringIsJson(s: string, at: nat, t: string, simple: bool)
    requires Has(s, at, Quoted(t)) && at <= |s|
    ensures at + |Quoted(t)| <= |s| && at < |s| && s[at] == '"'
    ensures Body(s, at + 1, simple) == if CleanString(t) then Accepted(t, at + |Quoted(t)|) else Refused
  {
    HasFirst(s, at, Quoted(t));
    assert Quoted(t) == "\"" + (Escaped(t) + "\"");
    HasParts(s, at, "\"", Escaped(t) + "\"");
    BodyIsJson(s, at + 1, t, simple);
  }

  /** Behind a number's text its number is over. */
  predicate EndsInteger(s: string, at: nat) {
    at < |s| ==> !IsDigit(s[at]) && s[at] !in {'.', 'e', 'E'}
  }

  lemma IntegerIsJson(s: string, at: nat, i: int)
    requires Has(s, at, IntText(i)) && at <= |s| && EndsInteger(s, at + |IntText(i)|)
    ensures at < |s| && s[at] !in {'n', 't', 'f', '"', '[', '{'}
    ensures Number(s, at) == Accepted(i, at + |IntText(i)|)
  {
    hide TextOf, Has, ValueOf, DigitRun, Number, IntText, EndsInteger;
    var digits := TextOf(if i < 0 then -i else i);
    var sign: string := if i < 0 then "-" else "";
    IntTextBegins(i);
    HasFirst(s, at, IntText(i));
    SignAndDigits(i);
    HasParts(s, at, sign, digits);
    NoOtherSign(s, at, i);
    DigitsEnd(s, at + |sign|, digits);
    NoLeadingZero(if i < 0 then -i else i);
    assert s[at + |sign|] == digits[0] by { HasFirst(s, at + |sign|, digits); }
    DigitsAreNumber(s, at, |sign|, digits);
  }

  lemma SignAndDigits(i: int)
    ensures IntText(i) == (if i < 0 then "-" else "") + TextOf(if i < 0 then -i else i)
  {
    hide TextOf;
  }

  lemma NoOtherSign(s: string, at: nat, i: int)
    requires at < |s| && s[at] == IntText(i)[0]
    ensures s[at] == '-' <==> i < 0
  {
    hide TextOf;
    assert IsDigit(TextOf(if i < 0 then -i else i)[0]);
  }

  lemma DigitsEnd(s: string, at: nat, digits: string)
    requires Has(s, at, digits) && AllDigits(digits) && EndsInteger(s, at + |digits|)
    ensures at + |digits| <= |s| && DigitRun(s, at) == |digits| && s[at..at + |digits|] == digits
  {
    hide Has, DigitRun;
    DigitsStand(s, at, digits);
  }

  lemma DigitsAreNumber(s: string, at: nat, sign: nat, digits: string)
    requires at < |s| && sign == (if s[at] == '-' then 1 else 0) && digits != [] && at + sign + |digits| <= |s|
    requires DigitRun(s, at + sign) == |digits| && s[at + sign..at + sign + |digits|] == digits
    requires EndsInteger(s, at + sign + |digits|) && (|digits| > 1 ==> s[at + sign] != '0')
    ensures var magnitude: int := ValueOf(digits);
            Number(s, at) == Accepted(if sign == 1 then -magnitude else magnitude, at + sign + |digits|)
  {
    hide ValueOf, DigitRun, IsDigit;
  }

  lemma DigitsStand(s: string, at: nat, digits: string)
    requires Has(s, at, digits) && AllDigits(digits) && (at + |digits| < |s| ==> !IsDigit(s[at + |digits|]))
    ensures at + |digits| <= |s| && DigitRun(s, at) == |digits| && s[at..at + |digits|] == digits
  {
    forall k | at <= k < at + |digits| ensures IsDigit(s[k]) {
      assert s[k] == s[at..at + |digits|][k - at];
    }
    DigitRunIs(s, at, |digits|);
  }

  lemma NoLeadingZero(n: nat)
    ensures TextOf(n)[0] == '0' ==> |TextOf(n)| == 1
  {
  }

  lemma {:induction false} ValueIsJson(s: string, at: nat, v: Json, depth: nat, simple: bool)
    requires Has(s, at, Text(v, depth)) && at <= |s|
    requires v.Int? ==> EndsInteger(s, at + |Text(v, depth)|)
    ensures at + |Text(v, depth)| <= |s|
    ensures Value(s, at, simple) == if Clean(v) then Accepted(Said(v), at + |Text(v, depth)|) else Refused
    decreases v, 1
  {
    hide Has, Number, Body, Elements, Members;
    TextBegins(v, depth);
    HasFirst(s, at, Text(v, depth));
    match v
    case Null => LiteralIsJson(s, at, "null", Null);
    case Bool(b) => LiteralIsJson(s, at, if b then "true" else "false", v);
    case Int(i) => IntegerIsJson(s, at, i);
    case Str(t) => StringIsJson(s, at, t, simple);
    case Arr(_, _) => ArrayIsJson(s, at, v, depth, simple);
    case Obj(_, _) => ObjectIsJson(s, at, v, depth, simple);
  }

  lemma LiteralIsJson(s: string, at: nat, word: string, v: Json)
    requires Has(s, at, word) && at <= |s|
    ensures at + |word| <= |s| && Literal(s, at, word, v) == Accepted(v, at + |word|)
  {
  }

  lemma {:induction false} ArrayIsJson(s: string, at: nat, v: Json, depth: nat, simple: bool)
    requires v.Arr? && Has(s, at, Text(v, depth)) && at <= |s|
    ensures at + |Text(v, depth)| <= |s|
    ensures Value(s, at, simple) == if Clean(v) then Accepted(Said(v), at + |Text(v, depth)|) else Refused
    decreases v, 0
  {
    hide Has, NewLine, Elements, CleanItems, SaidItems, ItemsText;
    var closing := Closing(v.sized, |v.items|, depth);
    var items := ItemsText(v.items, true, depth + 1);
    var end := closing + "]";
    assert Text(v, depth) == "[" + (items + end);
    HasParts(s, at, "[", items + end);
    HasFirst(s, at, "[");
    LineIsSpace(depth);
    NewLineBegins(depth);
    NothingSaid();
    if v.items == [] {
      assert items + end == end;
      ClosingFound(s, at + 1, closing, "]");
    } else {
      FirstElement(s, at + 1, v.items, depth + 1, end);
      ElementsAreJson(s, at + 1 + |NewLine(depth + 1)|, v.items, depth + 1, closing, simple);
    }
  }

  /** Where the first element of an array stands, and where one behind a comma stands. */
  lemma FirstElement(s: string, at: nat, items: seq<Json>, depth: nat, end: string)
    requires items != [] && at <= |s| && Has(s, at, ItemsText(items, true, depth) + end)
    ensures var next := at + |NewLine(depth)|;
            && next < |s| && Spaces(s, at) == next && s[next] != ']'
            && Has(s, next, Text(items[0], depth) + (ItemsText(items[1..], false, depth) + end))
            && |ItemsText(items, true, depth)|
               == |NewLine(depth)| + |Text(items[0], depth)| + |ItemsText(items[1..], false, depth)|
  {
    hide Has, NewLine, Text, Spaces;
    var line, text, more := NewLine(depth), Text(items[0], depth), ItemsText(items[1..], false, depth);
    assert ItemsText(items, true, depth) == line + text + more;
    assert ItemsText(items, true, depth) + end == line + (text + (more + end));
    ElementBehindLine(s, at, items[0], depth, more + end);
  }

  lemma NextElement(s: string, at: nat, items: seq<Json>, depth: nat, end: string)
    requires items != [] && at <= |s| && Has(s, at, ItemsText(items, false, depth) + end)
    ensures var next := at + 1 + |NewLine(depth)|;
            && next < |s| && Spaces(s, at) == at && s[at] == ',' && Spaces(s, at + 1) == next
            && Has(s, next, Text(items[0], depth) + (ItemsText(items[1..], false, depth) + end))
            && |ItemsText(items, false, depth)|
               == 1 + |NewLine(depth)| + |Text(items[0], depth)| + |ItemsText(items[1..], false, depth)|
  {
    hide Has, NewLine, Text;
    var line, text, more := NewLine(depth), Text(items[0], depth), ItemsText(items[1..], false, depth);
    assert ItemsText(items, false, depth) == "," + line + text + more;
    assert ItemsText(items, false, depth) + end == "," + (line + (text + (more + end)));
    HasParts(s, at, ",", line + (text + (more + end)));
    HasFirst(s, at, ",");
    ElementBehindLine(s, at + 1, items[0], depth, more + end);
  }

  lemma ElementBehindLine(s: string, at: nat, item: Json, depth: nat, rest: string)
    requires at <= |s| && Has(s, at, NewLine(depth) + (Text(item, depth) + rest))
    ensures var next := at + |NewLine(depth)|;
            && next < |s| && Spaces(s, at) == next && s[next] != ']'
            && Has(s, next, Text(item, depth) + rest)
  {
    hide Has, NewLine, Text;
    HasParts(s, at, NewLine(depth), Text(item, depth) + rest);
    LineIsSpace(depth);
    SpacesPassed(s, at, NewLine(depth));
    TextBegins(item, depth);
    TextIsNoSpace(s, at + |NewLine(depth)|, item, depth, rest);
  }

  lemma NothingSaid()
    ensures CleanItems([]) && CleanMembers([])
    ensures SaidItems([]) == [] && SaidMembers([]) == []
    ensures forall first: bool, depth :: ItemsText([], first, depth) == [] && MembersText([], first, depth) == []
  {
  }

  /** Where a closing bracket stands behind a line break. */
  lemma ClosingFound(s: string, at: nat, closing: string, bracket: string)
    requires Has(s, at, closing + bracket) && at <= |s| && |bracket| == 1 && !IsSpace(bracket[0])
    requires forall i :: 0 <= i < |closing| ==> IsSpace(closing[i])
    ensures at + |closing| < |s| && Spaces(s, at) == at + |closing| && s[at + |closing|] == bracket[0]
  {
    HasParts(s, at, closing, bracket);
    SpacesPassed(s, at, closing);
    HasFirst(s, at + |closing|, bracket);
  }

  lemma TextIsNoSpace(s: string, at: nat, v: Json, depth: nat, rest: string)
    requires Has(s, at, Text(v, depth) + rest) && at <= |s|
    requires var t := Text(v, depth); t != [] && !IsGap(t[0]) && t[0] != ']' && t[0] != '}'
    ensures at < |s| && Spaces(s, at) == at && s[at] != ']'
  {
    hide Text;
    HasFirst(s, at, Text(v, depth) + rest);
  }

  /** What stands behind an element: a comma, or the closing. */
  lemma BehindElement(s: string, at: nat, rest: string, closing: string, bracket: string)
    requires Has(s, at, rest + (closing + bracket)) && at <= |s|
    requires rest != [] ==> rest[0] == ','
    requires rest == [] ==> closing != [] && closing[0] == '\n'
    ensures EndsInteger(s, at)
  {
    HasFirst(s, at, rest + (closing + bracket));
  }

  /** The element at the front, and what follows it. */
  lemma ElementsAhead(s: string, at: nat, simple: bool)
    requires at <= |s|
    ensures var item := Value(s, at, simple);
            item == Refused ==> Elements(s, at, simple) == Refused
    ensures var item := Value(s, at, simple);
            item.Accepted? ==>
              var p := Spaces(s, item.next);
              p < |s| ==>
                && (s[p] == ']' ==> Elements(s, at, simple) == Accepted([item.value], p + 1))
                && (s[p] == ',' ==>
                      Elements(s, at, simple) == match Elements(s, Spaces(s, p + 1), simple)
                                                 case Refused => Refused
                                                 case Accepted(later, end) => Accepted([item.value] + later, end))
  {
    hide Value, Spaces;
  }

  lemma MembersAhead(s: string, at: nat, simple: bool)
    requires at <= |s|
    ensures var member := OneMember(s, at, simple);
            member == Refused ==> Members(s, at, simple) == Refused
    ensures var member := OneMember(s, at, simple);
            member.Accepted? ==>
              var p := Spaces(s, member.next);
              p < |s| ==>
                && (s[p] == '}' ==> Members(s, at, simple) == Accepted([member.value], p + 1))
                && (s[p] == ',' ==>
                      Members(s, at, simple) == match Members(s, Spaces(s, p + 1), simple)
                                                case Refused => Refused
                                                case Accepted(later, end) => Accepted([member.value] + later, end))
  {
    hide OneMember, Spaces;
  }

  lemma {:induction false} ElementsAreJson(s: string, at: nat, items: seq<Json>, depth: nat, closing: string,
                                           simple: bool)
    requires items != [] && at <= |s|
    requires closing != [] && closing[0] == '\n' && forall i :: 0 <= i < |closing| ==> IsSpace(closing[i])
    requires Has(s, at, Text(items[0], depth) + (ItemsText(items[1..], false, depth) + (closing + "]")))
    ensures var end := at + |Text(items[0], depth)| + |ItemsText(items[1..], false, depth)| + |closing| + 1;
            && end <= |s|
            && Elements(s, at, simple)
            == if CleanItems(items) then Accepted(SaidItems(items), end) else Refused
    decreases items, 0
  {
    hide Has, NewLine, Text, ItemsText, Value, Elements, Spaces, Clean, Said;
    ElementsAhead(s, at, simple);
    var text, later := Text(items[0], depth), items[1..];
    var rest, end := ItemsText(later, false, depth), closing + "]";
    HasParts(s, at, text, rest + end);
    RestBegins(later, depth);
    BehindElement(s, at + |text|, rest, closing, "]");
    ValueIsJson(s, at, items[0], depth, simple);
    if later == [] {
      NothingSaid();
      assert rest + end == end;
      ClosingFound(s, at + |text|, closing, "]");
      assert SaidItems(items) == [Said(items[0])] + SaidItems(later) == [Said(items[0])];
    } else {
      NextElement(s, at + |text|, later, depth, end);
      ElementsAreJson(s, at + |text| + 1 + |NewLine(depth)|, later, depth, closing, simple);
    }
  }

  lemma {:induction false} ObjectIsJson(s: string, at: nat, v: Json, depth: nat, simple: bool)
    requires v.Obj? && Has(s, at, Text(v, depth)) && at <= |s|
    ensures at + |Text(v, depth)| <= |s|
    ensures Value(s, at, simple) == if Clean(v) then Accepted(Said(v), at + |Text(v, depth)|) else Refused
    decreases v, 0
  {
    hide Has, NewLine, Members, CleanMembers, SaidMembers, MembersText;
    var closing := Closing(v.sized, |v.members|, depth);
    var members := MembersText(v.members, true, depth + 1);
    var end := closing + "}";
    assert Text(v, depth) == "{" + (members + end);
    HasParts(s, at, "{", members + end);
    HasFirst(s, at, "{");
    LineIsSpace(depth);
    NewLineBegins(depth);
    NothingSaid();
    if v.members == [] {
      assert members + end == end;
      ClosingFound(s, at + 1, closing, "}");
    } else {
      FirstMember(s, at + 1, v.members, depth + 1, end);
      MembersAreJson(s, at + 1 + |NewLine(depth + 1)|, v.members, depth + 1, closing, simple);
    }
  }

  /** Where the first member of an object stands, and where one behind a comma stands. */
  lemma FirstMember(s: string, at: nat, members: seq<Member>, depth: nat, end: string)
    requires members != [] && at <= |s| && Has(s, at, MembersText(members, true, depth) + end)
    ensures var next := at + |NewLine(depth)|;
            && next < |s| && Spaces(s, at) == next && s[next] == '"'
            && Has(s, next, Bare(members[0], depth) + (MembersText(members[1..], false, depth) + end))
            && |MembersText(members, true, depth)|
               == |NewLine(depth)| + |Bare(members[0], depth)| + |MembersText(members[1..], false, depth)|
  {
    hide Has, NewLine, Bare, MemberText, Spaces;
    var line, text, more := NewLine(depth), Bare(members[0], depth), MembersText(members[1..], false, depth);
    BareMember(members[0], true, depth);
    assert MembersText(members, true, depth) == line + text + more;
    assert MembersText(members, true, depth) + end == line + (text + (more + end));
    MemberBehindLine(s, at, members[0], depth, more + end);
  }

  lemma NextMember(s: string, at: nat, members: seq<Member>, depth: nat, end: string)
    requires members != [] && at <= |s| && Has(s, at, MembersText(members, false, depth) + end)
    ensures var next := at + 1 + |NewLine(depth)|;
            && next < |s| && Spaces(s, at) == at && s[at] == ',' && Spaces(s, at + 1) == next
            && Has(s, next, Bare(members[0], depth) + (MembersText(members[1..], false, depth) + end))
            && |MembersText(members, false, depth)|
               == 1 + |NewLine(depth)| + |Bare(members[0], depth)| + |MembersText(members[1..], false, depth)|
  {
    hide Has, NewLine, Bare, MemberText;
    var line, text, more := NewLine(depth), Bare(members[0], depth), MembersText(members[1..], false, depth);
    BareMember(members[0], false, depth);
    assert MembersText(members, false, depth) == "," + line + text + more;
    assert MembersText(members, false, depth) + end == "," + (line + (text + (more + end)));
    HasParts(s, at, ",", line + (text + (more + end)));
    HasFirst(s, at, ",");
    MemberBehindLine(s, at + 1, members[0], depth, more + end);
  }

  lemma MemberBehindLine(s: string, at: nat, member: Member, depth: nat, rest: string)
    requires at <= |s| && Has(s, at, NewLine(depth) + (Bare(member, depth) + rest))
    ensures var next := at + |NewLine(depth)|;
            && next < |s| && Spaces(s, at) == next && s[next] == '"'
            && Has(s, next, Bare(member, depth) + rest)
  {
    hide Has, NewLine, Bare;
    HasParts(s, at, NewLine(depth), Bare(member, depth) + rest);
    LineIsSpace(depth);
    SpacesPassed(s, at, NewLine(depth));
    BareIsNoSpace(s, at + |NewLine(depth)|, member, depth, rest);
  }

  /** A member without what introduces its line. */
  function Bare(member: Member, depth: nat): string { Quoted(member.name) + (" : " + Text(member.value, depth)) }

  lemma BareMember(member: Member, first: bool, depth: nat)
    ensures MemberText(member, first, depth) == (if first then [] else ",") + (NewLine(depth) + Bare(member, depth))
  {
    hide Text, Quoted, NewLine;
  }

  lemma BareIsNoSpace(s: string, at: nat, member: Member, depth: nat, rest: string)
    requires Has(s, at, Bare(member, depth) + rest) && at <= |s|
    ensures at < |s| && Spaces(s, at) == at && s[at] == '"'
  {
    hide Text, Quoted;
    QuotedBegins(member.name);
    HasFirst(s, at, Bare(member, depth) + rest);
  }

  lemma {:induction false} MemberIsJson(s: string, at: nat, member: Member, depth: nat, simple: bool)
    requires Has(s, at, Bare(member, depth)) && at <= |s| && EndsInteger(s, at + |Bare(member, depth)|)
    ensures at + |Bare(member, depth)| <= |s|
    ensures OneMember(s, at, simple)
         == if CleanMember(member) then Accepted(SaidMember(member), at + |Bare(member, depth)|) else Refused
    decreases member, 0
  {
    hide Has, Text, Quoted, Value, Body, Clean, CleanString, Said;
    var name, text := Quoted(member.name), Text(member.value, depth);
    HasParts(s, at, name, " : " + text);
    assert " : " + text == " " + (":" + (" " + text));
    var colon := at + |name| + 1;
    HasParts(s, at + |name|, " ", ":" + (" " + text));
    HasParts(s, colon, ":", " " + text);
    HasParts(s, colon + 1, " ", text);
    HasFirst(s, colon, ":");
    StringIsJson(s, at, member.name, simple);
    SpacesPassed(s, at + |name|, " ");
    SpacesPassed(s, colon + 1, " ");
    TextBegins(member.value, depth);
    assert text + [] == text;
    TextIsNoSpace(s, colon + 2, member.value, depth, []);
    ValueIsJson(s, colon + 2, member.value, depth, simple);
  }

  lemma {:induction false} MembersAreJson(s: string, at: nat, members: seq<Member>, depth: nat, closing: string,
                                          simple: bool)
    requires members != [] && at <= |s|
    requires closing != [] && closing[0] == '\n' && forall i :: 0 <= i < |closing| ==> IsSpace(closing[i])
    requires Has(s, at, Bare(members[0], depth) + (MembersText(members[1..], false, depth) + (closing + "}")))
    ensures var end := at + |Bare(members[0], depth)| + |MembersText(members[1..], false, depth)| + |closing| + 1;
            && end <= |s|
            && Members(s, at, simple)
            == if CleanMembers(members) then Accepted(SaidMembers(members), end) else Refused
    decreases members, 0
  {
    hide Has, NewLine, Bare, MembersText, OneMember, Members, Spaces, CleanMember, SaidMember;
    MembersAhead(s, at, simple);
    var text, later := Bare(members[0], depth), members[1..];
    var rest, end := MembersText(later, false, depth), closing + "}";
    HasParts(s, at, text, rest + end);
    MembersBegin(later, depth);
    BehindElement(s, at + |text|, rest, closing, "}");
    MemberIsJson(s, at, members[0], depth, simple);
    if later == [] {
      NothingSaid();
      assert rest + end == end;
      ClosingFound(s, at + |text|, closing, "}");
      assert SaidMembers(members) == [SaidMember(members[0])] + SaidMembers(later) == [SaidMember(members[0])];
    } else {
      NextMember(s, at + |text|, later, depth, end);
      MembersAreJson(s, at + |text| + 1 + |NewLine(depth)|, later, depth, closing, simple);
    }
  }

  /** The writer's theorem: the text of a tree is JSON if and only if no string in it holds a control character,
      and then it means the tree. */
  lemma WritesJson(v: Json, depth: nat)
    ensures Value(Text(v, depth), 0, false) == if Clean(v) then Accepted(Said(v), |Text(v, depth)|) else Refused
  {
    ValueIsJson(Text(v, depth), 0, v, depth, false);
  }

  // What the library reads.

  /** Every integer of the tree fits into 64 bits. */
  predicate InRange(v: Json)
    decreases v, 1
  {
    match v
    case Int(i) => INT64_MIN <= i <= INT64_MAX
    case Arr(_, items) => ItemsInRange(items)
    case Obj(_, members) => MembersInRange(members)
    case _ => true
  }

  predicate ItemsInRange(items: seq<Json>)
    decreases items, 0
  {
    items == [] || (InRange(items[0]) && ItemsInRange(items[1..]))
  }

  predicate MembersInRange(members: seq<Member>)
    decreases members, 0
  {
    members == [] || (MemberInRange(members[0]) && MembersInRange(members[1..]))
  }

  predicate MemberInRange(member: Member)
    decreases member, 0
  {
    InRange(member.value)
  }

  lemma {:induction false} SpacesAreGap(s: string, at: nat)
    requires at <= |s|
    ensures SkipGap(s, at) == SkipGap(s, Spaces(s, at))
    decreases |s| - at
  {
    if at < |s| && IsSpace(s[at]) { SpacesAreGap(s, at + 1); }
  }

  /** A separator and the white space around it are passed. */
  lemma SeparatorIsGap(s: string, at: nat)
    requires at <= |s| && Spaces(s, at) < |s| && s[Spaces(s, at)] in {',', ':'}
    ensures SkipGap(s, at) == SkipGap(s, Spaces(s, Spaces(s, at) + 1))
  {
    SpacesAreGap(s, at);
    SpacesAreGap(s, Spaces(s, at) + 1);
  }

  lemma {:induction false} BodyIsRead(s: string, at: nat)
    requires at <= |s| && Body(s, at, true).Accepted?
    ensures StringBody(s, at) == Got(Body(s, at, true).value, Body(s, at, true).next)
    decreases |s| - at
  {
    if s[at] == '\\' {
      BodyIsRead(s, at + 2);
    } else if s[at] != '"' {
      BodyIsRead(s, at + 1);
    }
  }

  lemma {:induction false} RunShifts(s: string, at: nat, from: nat)
    requires at + from <= |s|
    ensures DigitRun(s[at..], from) == DigitRun(s, at + from)
    decreases |s| - at - from
  {
    if at + from < |s| && IsDigit(s[at + from]) { RunShifts(s, at, from + 1); }
  }

  lemma {:induction false} RunIsInteger(s: string, at: nat)
    requires at <= |s|
    requires var end := at + DigitRun(s, at); end < |s| ==> s[end] !in {'.', 'e', 'E'}
    ensures NumberType(s, at) == TInteger
    decreases |s| - at
  {
    if at < |s| && IsDigit(s[at]) { RunIsInteger(s, at + 1); }
  }

  lemma NumberIsRead(s: string, at: nat)
    requires at <= |s| && Number(s, at).Accepted?
    requires INT64_MIN <= Number(s, at).value <= INT64_MAX && EndsNumber(s, Number(s, at).next)
    ensures SkipGap(s, at) == at && TypeAt(s, at) == TInteger
    ensures IntAt(s, at) == Got(Number(s, at).value, Number(s, at).next)
  {
    hide FromChars, ValueOf, DigitRun;
    SameNumber(s, at);
    var sign := if s[at] == '-' then 1 else 0;
    if sign == 0 { RunIsInteger(s, at); }
    BeginsNumber(s, at);
  }

  lemma BeginsNumber(s: string, at: nat)
    requires at <= |s| && Number(s, at).Accepted?
    ensures at < |s| && (s[at] == '-' || IsDigit(s[at])) && SkipGap(s, at) == at
    ensures s[at] == '-' ==> NumberType(s, at) == TInteger
  {
  }

  /** The library converts the same digits. */
  lemma SameNumber(s: string, at: nat)
    requires at <= |s| && Number(s, at).Accepted? && INT64_MIN <= Number(s, at).value <= INT64_MAX
    ensures FromChars(s[at..], INT64_MIN, INT64_MAX)
         == Parsed(Some(Number(s, at).value), Number(s, at).next - at)
  {
    hide ValueOf;
    var sign := if s[at] == '-' then 1 else 0;
    var n := DigitRun(s, at + sign);
    RunShifts(s, at, sign);
    SliceOfTail(s, at, sign, sign + n);
  }

  lemma SliceOfTail(s: string, at: nat, from: nat, to: nat)
    requires from <= to && at + to <= |s|
    ensures s[at..][from..to] == s[at + from..at + to]
  {
  }

  lemma LiteralIsRead(s: string, at: nat)
    requires at < |s| && s[at] in {'n', 't', 'f'} && Value(s, at, true).Accepted?
    ensures ValueAt(s, at) == Got(Value(s, at, true).value, Value(s, at, true).next)
  {
    if s[at] == 'n' {
      NullReads(s, at);
    } else {
      BoolReads(s, at, s[at] == 't');
    }
  }

  lemma {:induction false} ValueIsRead(s: string, at: nat)
    requires at <= |s| && Value(s, at, true).Accepted? && InRange(Value(s, at, true).value)
    requires Value(s, at, true).value.Int? ==> EndsNumber(s, Value(s, at, true).next)
    ensures SkipGap(s, at) == at
    ensures ValueAt(s, at) == Got(Value(s, at, true).value, Value(s, at, true).next)
    decreases |s| - at, 0
  {
    hide Elements, Members, Number, Body, ItemsAt, MembersAt, IntAt, StringBody, Has;
    if s[at] in {'n', 't', 'f'} {
      LiteralIsRead(s, at);
    } else if s[at] == '"' {
      BodyIsRead(s, at + 1);
    } else if s[at] == '[' {
      ArrayIsRead(s, at);
    } else if s[at] == '{' {
      ObjectIsRead(s, at);
    } else {
      NumberIsRead(s, at);
    }
  }

  lemma {:induction false} ArrayIsRead(s: string, at: nat)
    requires at < |s| && s[at] == '[' && Value(s, at, true).Accepted? && InRange(Value(s, at, true).value)
    ensures ValueAt(s, at) == Got(Value(s, at, true).value, Value(s, at, true).next)
    decreases |s| - at - 1, 3
  {
    hide Value, ValueAt, Elements, Members, ItemsAt, MembersAt, Spaces, SkipGap;
    var p := Spaces(s, at + 1);
    ArraySteps(s, at);
    SpacesAreGap(s, at + 1);
    if p < |s| && s[p] == ']' {
      BracketIsNoGap(s, p);
      ItemsStep(s, at + 1);
    } else {
      ElementsAreRead(s, p);
      SameItems(s, at + 1, p);
    }
  }

  /** Both readers at an opening bracket. */
  lemma ArraySteps(s: string, at: nat)
    requires at < |s| && s[at] == '['
    ensures ValueAt(s, at) == match ItemsAt(s, at + 1)
                              case Failed(f) => Failed(f)
                              case Got(v, next) => Got(Arr(true, v), next)
    ensures var p := Spaces(s, at + 1);
            Value(s, at, true) ==
            if p < |s| && s[p] == ']' then Accepted(Arr(true, []), p + 1)
            else match Elements(s, p, true)
                 case Refused => Refused
                 case Accepted(v, next) => Accepted(Arr(true, v), next)
    ensures forall v: seq<Json> :: InRange(Arr(true, v)) <==> ItemsInRange(v)
  {
    hide Elements, Members, ItemsAt, MembersAt, Spaces;
  }

  lemma BracketIsNoGap(s: string, at: nat)
    requires at < |s| && s[at] in {']', '}', '"'}
    ensures SkipGap(s, at) == at
  {
  }

  /** Reading on starts behind the gap. */
  lemma SameItems(s: string, at: nat, p: nat)
    requires at <= |s| && p <= |s| && SkipGap(s, at) == SkipGap(s, p)
    ensures ItemsAt(s, at) == ItemsAt(s, p) && MembersAt(s, at) == MembersAt(s, p)
  {
    hide SkipGap, ValueAt, StringAt;
    ItemsStep(s, at);
    ItemsStep(s, p);
    MembersStep(s, at);
    MembersStep(s, p);
  }

  lemma {:induction false} ElementsAreRead(s: string, at: nat)
    requires at <= |s| && Elements(s, at, true).Accepted? && ItemsInRange(Elements(s, at, true).value)
    ensures ItemsAt(s, at) == Got(Elements(s, at, true).value, Elements(s, at, true).next)
    decreases |s| - at, 1
  {
    hide Value, ValueAt, InRange, SkipGap, Spaces;
    var item := Value(s, at, true);
    var p := Spaces(s, item.next);
    OneElement(s, at);
    ValueIsRead(s, at);
    ItemsStep(s, at);
    SpacesAreGap(s, item.next);
    if s[p] == ']' {
      BracketIsNoGap(s, p);
      ItemsStep(s, item.next);
      assert [item.value] + [] == [item.value];
    } else {
      SeparatorIsGap(s, item.next);
      ElementsAreRead(s, Spaces(s, p + 1));
      SameItems(s, item.next, Spaces(s, p + 1));
    }
  }

  /** What an element of an accepted array is, and what follows it. */
  lemma OneElement(s: string, at: nat)
    requires at <= |s| && Elements(s, at, true).Accepted? && ItemsInRange(Elements(s, at, true).value)
    ensures var item := Value(s, at, true);
            && item.Accepted? && InRange(item.value) && EndsNumber(s, item.next)
            && at < |s| && s[at] != ']'
            && var p := Spaces(s, item.next);
               && p < |s|
               && if s[p] == ']' then Elements(s, at, true) == Accepted([item.value], p + 1)
                  else
                    && s[p] == ','
                    && var later := Elements(s, Spaces(s, p + 1), true);
                       && later.Accepted? && ItemsInRange(later.value)
                       && Elements(s, at, true) == Accepted([item.value] + later.value, later.next)
  {
    hide InRange, Body, Members;
    var item := Value(s, at, true);
    var all := Elements(s, at, true).value;
    var p := Spaces(s, item.next);
    assert all[0] == item.value;
    if s[p] != ']' {
      assert all[1..] == Elements(s, Spaces(s, p + 1), true).value;
    }
  }

  lemma {:induction false} ObjectIsRead(s: string, at: nat)
    requires at < |s| && s[at] == '{' && Value(s, at, true).Accepted? && InRange(Value(s, at, true).value)
    ensures ValueAt(s, at) == Got(Value(s, at, true).value, Value(s, at, true).next)
    decreases |s| - at - 1, 3
  {
    hide Value, ValueAt, Elements, Members, ItemsAt, MembersAt, Spaces, SkipGap;
    var p := Spaces(s, at + 1);
    ObjectSteps(s, at);
    SpacesAreGap(s, at + 1);
    if p < |s| && s[p] == '}' {
      BracketIsNoGap(s, p);
      MembersStep(s, at + 1);
    } else {
      MembersAreRead(s, p);
      SameItems(s, at + 1, p);
    }
  }

  /** Both readers at an opening bracket. */
  lemma ObjectSteps(s: string, at: nat)
    requires at < |s| && s[at] == '{'
    ensures ValueAt(s, at) == match MembersAt(s, at + 1)
                              case Failed(f) => Failed(f)
                              case Got(v, next) => Got(Obj(true, v), next)
    ensures var p := Spaces(s, at + 1);
            Value(s, at, true) ==
            if p < |s| && s[p] == '}' then Accepted(Obj(true, []), p + 1)
            else match Members(s, p, true)
                 case Refused => Refused
                 case Accepted(v, next) => Accepted(Obj(true, v), next)
    ensures forall v: seq<Member> :: InRange(Obj(true, v)) <==> MembersInRange(v)
  {
    hide Elements, Members, ItemsAt, MembersAt, Spaces;
  }

  lemma {:induction false} MembersAreRead(s: string, at: nat)
    requires at <= |s| && Members(s, at, true).Accepted? && MembersInRange(Members(s, at, true).value)
    ensures MembersAt(s, at) == Got(Members(s, at, true).value, Members(s, at, true).next)
    decreases |s| - at, 2
  {
    hide OneMember, ValueAt, StringAt, MemberInRange, SkipGap, Spaces;
    var member := OneMember(s, at, true);
    var p := Spaces(s, member.next);
    FrontMember(s, at);
    MemberIsRead(s, at);
    MembersStep(s, at);
    SpacesAreGap(s, member.next);
    if s[p] == '}' {
      BracketIsNoGap(s, p);
      MembersStep(s, member.next);
      assert [member.value] + [] == [member.value];
    } else {
      SeparatorIsGap(s, member.next);
      MembersAreRead(s, Spaces(s, p + 1));
      SameItems(s, member.next, Spaces(s, p + 1));
    }
  }

  lemma {:induction false} MemberIsRead(s: string, at: nat)
    requires at <= |s| && OneMember(s, at, true).Accepted? && MemberInRange(OneMember(s, at, true).value)
    requires EndsNumber(s, OneMember(s, at, true).next)
    ensures var member := OneMember(s, at, true);
            && at < |s| && s[at] == '"' && SkipGap(s, at) == at
            && StringAt(s, at).Got? && StringAt(s, at).value == member.value.name
            && ValueAt(s, StringAt(s, at).next) == Got(member.value.value, member.next)
    decreases |s| - at, 1
  {
    hide Value, Body, StringBody, ValueAt, Spaces;
    BodyIsRead(s, at + 1);
    BracketIsNoGap(s, at);
    var next := Body(s, at + 1, true).next;
    SeparatorIsGap(s, next);
    var start := Spaces(s, Spaces(s, next) + 1);
    ValueIsRead(s, start);
    GapBeforeValue(s, next);
  }

  lemma FrontMember(s: string, at: nat)
    requires at <= |s| && Members(s, at, true).Accepted? && MembersInRange(Members(s, at, true).value)
    ensures var member := OneMember(s, at, true);
            && member.Accepted? && MemberInRange(member.value) && EndsNumber(s, member.next)
            && var p := Spaces(s, member.next);
               && p < |s|
               && if s[p] == '}' then Members(s, at, true) == Accepted([member.value], p + 1)
                  else
                    && s[p] == ','
                    && var later := Members(s, Spaces(s, p + 1), true);
                       && later.Accepted? && MembersInRange(later.value)
                       && Members(s, at, true) == Accepted([member.value] + later.value, later.next)
  {
    hide MemberInRange, OneMember, Elements;
    var member := OneMember(s, at, true);
    var all := Members(s, at, true).value;
    var p := Spaces(s, member.next);
    assert all[0] == member.value;
    if s[p] != '}' {
      assert all[1..] == Members(s, Spaces(s, p + 1), true).value;
    }
  }

  /** The reader's theorem: a JSON text in any layout, whose escapes the library knows and whose integers fit, is
      read as what it means, and up to where it ends; an integer needs something behind it. */
  lemma ReadsJson(s: string, at: nat)
    requires at <= |s|
    requires var start := Spaces(s, at);
             && Value(s, start, true).Accepted? && InRange(Value(s, start, true).value)
             && (Value(s, start, true).value.Int? ==> EndsNumber(s, Value(s, start, true).next))
    ensures var meant := Value(s, Spaces(s, at), true);
            ValueAt(s, at) == Got(meant.value, meant.next)
  {
    hide Value, ValueAt;
    var start := Spaces(s, at);
    SpacesAreGap(s, at);
    ValueIsRead(s, start);
    GapBeforeValue(s, at);
  }

  // Beyond what is JSON.

  /** Between values, white space, commas and colons are all the same. */
  lemma GapCharacters(c: char)
    ensures IsGap(c) <==> c in {' ', '\t', '\n', '\r', ',', ':'}
  {
  }

  /** In a string, the other escapes are dropped. */
  lemma OtherEscapesVanish(s: string, at: nat)
    requires at + 1 < |s| && s[at] == '\\' && s[at + 1] !in {'"', '\\', 'n'}
    ensures StringBody(s, at) == StringBody(s, at + 2)
  {
    if StringBody(s, at + 2).Got? {
      assert [] + StringBody(s, at + 2).value == StringBody(s, at + 2).value;
    }
  }

  lemma {:induction false} TailPassed(s: string, at: nat, tail: string)
    requires Has(s, at, tail) && at + |tail| < |s| && !InNumber(s[at + |tail|])
    requires forall i :: 0 <= i < |tail| ==> InNumber(tail[i])
    ensures NumberTail(s, at) == at + |tail|
    decreases |tail|
  {
    if tail != [] {
      assert tail == tail[..1] + tail[1..];
      HasParts(s, at, tail[..1], tail[1..]);
      HasFirst(s, at, tail);
      TailPassed(s, at + 1, tail[1..]);
    }
  }

  /** Where an integer is asked for, a number with a fraction or an exponent is read as the integer that it begins
      with, and passed to its end. */
  lemma FractionIsPassed(s: string, at: nat, i: int, tail: string)
    requires INT64_MIN <= i <= INT64_MAX && Has(s, at, IntText(i) + tail)
    requires tail != [] ==> tail[0] in {'.', 'e', 'E', '-'}
    requires forall k :: 0 <= k < |tail| ==> '0' <= tail[k] <= '9' || tail[k] in {'.', 'e', 'E', '-'}
    requires var end := at + |IntText(i)| + |tail|;
             end < |s| && !('0' <= s[end] <= '9') && s[end] !in {'.', 'e', 'E', '-'}
    ensures IntAt(s, at) == Got(i, at + |IntText(i)| + |tail|)
  {
    hide FromChars, Has, NumberTail, IntText;
    var text := IntText(i);
    HasParts(s, at, text, tail);
    var rest := s[at + |text|..];
    NumberAhead(s, at, text);
    if tail != [] { HasFirst(s, at + |text|, tail); }
    FromCharsReadsText(i, rest, INT64_MIN, INT64_MAX);
    HasFirst(s, at, text);
    IntTextBegins(i);
    TailPassed(s, at + |text|, tail);
  }

  lemma NumberAhead(s: string, at: nat, text: string)
    requires Has(s, at, text)
    ensures at + |text| <= |s| && s[at..] == text + s[at + |text|..]
  {
  }

  /** The type of what comes next is told by its first character, and by the digits behind it. */
  lemma TypeIsTold(s: string, at: nat)
    requires at < |s|
    ensures TypeAt(s, at) == TString <==> s[at] == '"'
    ensures TypeAt(s, at) == TNull <==> s[at] == 'n'
    ensures TypeAt(s, at) == TBoolean <==> s[at] in {'t', 'f'}
    ensures TypeAt(s, at) == TArray <==> s[at] == '['
    ensures TypeAt(s, at) == TObject <==> s[at] == '{'
    ensures TypeAt(s, at) == TInteger || TypeAt(s, at) == TFloat <==> '0' <= s[at] <= '9' || s[at] == '-'
    ensures s[at] == '-' ==> TypeAt(s, at) == TInteger
    ensures TypeAt(s, at) == TFloat ==>
              var end := at + DigitRun(s, at); end < |s| && s[end] in {'.', 'e', 'E'}
  {
    if '0' <= s[at] <= '9' { TypeOfRun(s, at); }
  }

  lemma {:induction false} TypeOfRun(s: string, at: nat)
    requires at <= |s|
    ensures NumberType(s, at) == TFloat <==> var end := at + DigitRun(s, at); end < |s| && s[end] in {'.', 'e', 'E'}
    decreases |s| - at
  {
    if at < |s| && IsDigit(s[at]) { TypeOfRun(s, at + 1); }
  }

  /** A string is asked for: without a quote it is none, and without the quote that ends it the input is over. */
  lemma NoString(s: string, at: nat)
    requires at <= |s|
    ensures var p := SkipGap(s, at);
            && (p == |s| ==> StringAt(s, at) == Failed(ParseFault))
            && (p < |s| && s[p] != '"' ==> StringAt(s, at) == Failed(RemoteFault))
            && (p < |s| && s[p] == '"' && '"' !in s[p + 1..] ==> StringAt(s, at) == Failed(ParseFault))
  {
    var p := SkipGap(s, at);
    if p < |s| && s[p] == '"' && '"' !in s[p + 1..] { NoEnd(s, p + 1); }
  }

  lemma {:induction false} NoEnd(s: string, at: nat)
    requires at <= |s| && '"' !in s[at..]
    ensures StringBody(s, at) == Failed(ParseFault)
    decreases |s| - at
  {
    if at < |s| {
      assert s[at] == s[at..][0];
      assert s[at + 1..] == s[at..][1..];
      NoEnd(s, at + 1);
      if at + 1 < |s| {
        assert s[at + 2..] == s[at + 1..][1..];
        NoEnd(s, at + 2);
      }
    }
  }

  /** Each level is a tab further in. */
  lemma {:induction false} LineLayout(depth: nat)
    ensures NewLine(depth) == ['\n'] + seq(depth, _ => '\t')
  {
    if depth > 0 {
      LineLayout(depth - 1);
      assert Tabs(depth) == ['\t'] + Tabs(depth - 1);
      assert NewLine(depth - 1)[1..] == Tabs(depth - 1) && NewLine(depth - 1)[1..] == seq(depth - 1, _ => '\t');
    }
  }
}
