/**
  The header block as text: every text at all is a part of one, a whole one with something behind it, or one that
  is broken at some place. The machine of `HttpScan` is always where the text is: this module says so for every
  text, without saying how characters are read.
 */
module HttpGrammar {
  import opened HttpScan
  import opened Texts
  import Machine

  predicate AllBlank(s: string) { forall i :: 0 <= i < |s| ==> s[i] in {' ', '\t'} }

  predicate IsName(s: string) { forall i :: 0 <= i < |s| ==> s[i] !in {' ', '\t', ':'} }

  predicate IsSeparator(s: string) { s != [] && forall i :: 0 <= i < |s| ==> s[i] in {' ', '\t', ':'} }

  predicate NoReturn(s: string) { forall i :: 0 <= i < |s| ==> s[i] != '\r' }

  /** The beginning of a header line. A carriage return at the very start of one would end the block. */
  datatype Start = Start(indent: string, name: string)
  {
    predicate Valid() { AllBlank(indent) && IsName(name) && (indent == [] && name != [] ==> name[0] != '\r') }

    /** What may stand between the name and the value; a name that is empty must be followed by a colon. */
    predicate Precedes(separator: string) {
      Valid() && IsSeparator(separator) && (name == [] ==> separator[0] == ':')
    }

    function Text(): string { indent + name }

    function Edited(): Start { Start(indent, AllLower(name)) }
  }

  /** A header line as far as its value. */
  datatype Line = Line(start: Start, separator: string, value: string)
  {
    predicate Valid() {
      && start.Precedes(separator) && ':' in separator
      && NoReturn(value) && (value != [] ==> value[0] !in {' ', '\t', ':'})
    }

    function Text(): string { start.Text() + separator + value }

    function Edited(): Line { Line(start.Edited(), separator, value) }

    function AsHeader(at: nat): Header { Header(AllLower(start.name), value, at + |start.Text()| + |separator|) }
  }

  /** A complete line ends with a carriage return and a character that is taken for a line feed, whatever it is. */
  datatype Ended = Ended(line: Line, feed: char)
  {
    function Text(): string { line.Text() + ['\r', feed] }

    function Edited(): Ended { Ended(line.Edited(), feed) }
  }

  function LinesText(lines: seq<Ended>): string {
    if lines == [] then [] else LinesText(lines[..|lines| - 1]) + lines[|lines| - 1].Text()
  }

  function EditedText(lines: seq<Ended>): string {
    if lines == [] then [] else EditedText(lines[..|lines| - 1]) + lines[|lines| - 1].Edited().Text()
  }

  function Headers(lines: seq<Ended>, at: nat): seq<Header> {
    if lines == [] then []
    else
      var front := lines[..|lines| - 1];
      Headers(front, at) + [lines[|lines| - 1].line.AsHeader(at + |LinesText(front)|)]
  }

  predicate AllValid(lines: seq<Ended>) { forall i :: 0 <= i < |lines| ==> lines[i].line.Valid() }

  /** What stands behind the complete lines. */
  datatype Tail =
    | Nothing
    | Indented(indent: string)
    | Named(start: Start)
    | Separated(start: Start, separator: string)
    | Valued(line: Line)
    | Returned(line: Line)
    | LastReturn
    | Whole(body: string)
    | BrokenEnd(c: char, rest: string)
    | NoColon(start: Start, separator: string, c: char, rest: string)
  {
    predicate Valid() {
      match this
      case Indented(indent) => indent != [] && AllBlank(indent)
      case Named(start) => start.Valid() && start.name != []
      case Separated(start, separator) => start.Precedes(separator)
      case Valued(line) => line.Valid() && line.value != []
      case Returned(line) => line.Valid()
      case BrokenEnd(c, _) => c != '\n'
      case NoColon(start, separator, c, _) =>
        start.Precedes(separator) && ':' !in separator && c !in {' ', '\t', ':'}
      case _ => true
    }

    function Text(): string {
      match this
      case Nothing => []
      case Indented(indent) => indent
      case Named(start) => start.Text()
      case Separated(start, separator) => start.Text() + separator
      case Valued(line) => line.Text()
      case Returned(line) => line.Text() + "\r"
      case LastReturn => "\r"
      case Whole(body) => "\r\n" + body
      case BrokenEnd(c, rest) => ['\r', c] + rest
      case NoColon(start, separator, c, rest) => start.Text() + separator + [c] + rest
    }

    /** The tail with its name in lower case. */
    function Edited(): Tail {
      match this
      case Named(start) => Named(start.Edited())
      case Separated(start, separator) => Separated(start.Edited(), separator)
      case Valued(line) => Valued(line.Edited())
      case Returned(line) => Returned(line.Edited())
      case NoColon(start, separator, c, rest) => NoColon(start.Edited(), separator, c, rest)
      case _ => this
    }

    /** Where the machine is behind this tail, when the tail begins at `at`. */
    function State(at: nat, line: string, headers: seq<Header>): Scan {
      match this
      case Nothing => Scan(LineStart, at, line, headers)
      case Indented(indent) => Scan(Indent, at + |indent|, line, headers)
      case Named(start) => Scan(Name(AllLower(start.name)), at + |start.Text()|, line, headers)
      case Separated(start, separator) =>
        Scan(Separator(AllLower(start.name), ':' in separator), at + |start.Text()| + |separator|, line, headers)
      case Valued(l) =>
        var start := at + |l.start.Text()| + |l.separator|;
        Scan(Value(AllLower(l.start.name), start, l.value), at + |l.Text()|, line, headers)
      case Returned(l) => Scan(LineFeed, at + |l.Text()| + 1, line, headers + [l.AsHeader(at)])
      case LastReturn => Scan(LastLineFeed, at + 1, line, headers)
      case Whole(_) => Scan(Done, at + 2, line, headers)
      case BrokenEnd(_, _) => Scan(Refused, at + 1, line, headers)
      case NoColon(start, separator, _, _) => Scan(Refused, at + |start.Text()| + |separator|, line, headers)
    }
  }

  /** A text, as a part of a block. */
  datatype Reading =
    | FirstPart(line: string)
    | FirstReturn(line: string)
    | BrokenFirst(line: string, c: char, rest: string)
    | Block(line: string, lines: seq<Ended>, tail: Tail)
  {
    predicate Valid() {
      && NoReturn(line)
      && (BrokenFirst? ==> c != '\n')
      && (Block? ==> AllValid(lines) && tail.Valid())
    }

    function Text(): string {
      match this
      case FirstPart(line) => line
      case FirstReturn(line) => line + "\r"
      case BrokenFirst(line, c, rest) => line + ['\r', c] + rest
      case Block(line, lines, tail) => line + "\r\n" + LinesText(lines) + tail.Text()
    }

    /** The text with the names of headers in lower case. */
    function Shown(): string {
      match this
      case Block(line, lines, tail) => line + "\r\n" + EditedText(lines) + tail.Edited().Text()
      case _ => Text()
    }

    function State(): Scan {
      match this
      case FirstPart(line) => Scan(FirstLine, |line|, line, [])
      case FirstReturn(line) => Scan(FirstLineFeed, |line| + 1, line, [])
      case BrokenFirst(line, _, _) => Scan(Refused, |line| + 1, line, [])
      case Block(line, lines, tail) =>
        tail.State(|line| + 2 + |LinesText(lines)|, line, Headers(lines, |line| + 2))
    }
  }

  // One character more.

  function MoreTail(tail: Tail, c: char): Tail
    requires !tail.Returned?
  {
    match tail
    case Nothing =>
      if c == '\r' then LastReturn
      else if c in {' ', '\t'} then Indented([c])
      else Begun([], c)
    case Indented(indent) => if c in {' ', '\t'} then Indented(indent + [c]) else Begun(indent, c)
    case Named(start) =>
      if c in {' ', '\t', ':'} then Separated(start, [c]) else Named(Start(start.indent, start.name + [c]))
    case Separated(start, separator) =>
      if c in {' ', '\t', ':'} then Separated(start, separator + [c])
      else if ':' !in separator then NoColon(start, separator, c, [])
      else if c == '\r' then Returned(Line(start, separator, []))
      else Valued(Line(start, separator, [c]))
    case Valued(line) =>
      if c == '\r' then Returned(line) else Valued(Line(line.start, line.separator, line.value + [c]))
    case LastReturn => if c == '\n' then Whole([]) else BrokenEnd(c, [])
    case Whole(body) => Whole(body + [c])
    case BrokenEnd(d, rest) => BrokenEnd(d, rest + [c])
    case NoColon(start, separator, d, rest) => NoColon(start, separator, d, rest + [c])
  }

  /** The first character of a line behind its indentation. */
  function Begun(indent: string, c: char): Tail {
    if c == ':' then Separated(Start(indent, []), ":") else Named(Start(indent, [c]))
  }

  function More(reading: Reading, c: char): Reading {
    match reading
    case FirstPart(line) => if c == '\r' then FirstReturn(line) else FirstPart(line + [c])
    case FirstReturn(line) => if c == '\n' then Block(line, [], Nothing) else BrokenFirst(line, c, [])
    case BrokenFirst(line, d, rest) => BrokenFirst(line, d, rest + [c])
    case Block(line, lines, tail) =>
      if tail.Returned? then Block(line, lines + [Ended(tail.line, c)], Nothing)
      else Block(line, lines, MoreTail(tail, c))
  }

  function ReadingOf(s: string): Reading {
    if s == [] then FirstPart([]) else More(ReadingOf(s[..|s| - 1]), s[|s| - 1])
  }

  lemma LowerMore(name: string, c: char)
    ensures AllLower(name + [c]) == AllLower(name) + [Lower(c)]
  {
    assert (name + [c])[..|name|] == name;
  }

  lemma LowerOne(c: char)
    ensures AllLower([c]) == [Lower(c)] && AllLower([]) == []
  {
    LowerMore([], c);
    assert [] + [c] == [c];
  }

  lemma TailText(tail: Tail, c: char)
    requires tail.Valid() && !tail.Returned?
    ensures MoreTail(tail, c).Valid() && MoreTail(tail, c).Text() == tail.Text() + [c]
  {
    hide AllLower, MoreTail, Tail.Valid, Tail.Text;
    match tail
    case Separated(_, _) => SeparatedText(tail, c);
    case Named(_) => NamedText(tail, c);
    case _ => OtherText(tail, c);
  }

  lemma SeparatedText(tail: Tail, c: char)
    requires tail.Separated? && tail.Valid()
    ensures MoreTail(tail, c).Valid() && MoreTail(tail, c).Text() == tail.Text() + [c]
  {
  }

  lemma NamedText(tail: Tail, c: char)
    requires tail.Named? && tail.Valid()
    ensures MoreTail(tail, c).Valid() && MoreTail(tail, c).Text() == tail.Text() + [c]
  {
  }

  lemma OtherText(tail: Tail, c: char)
    requires tail.Valid() && !tail.Returned? && !tail.Separated? && !tail.Named?
    ensures MoreTail(tail, c).Valid() && MoreTail(tail, c).Text() == tail.Text() + [c]
  {
  }

  lemma TailState(tail: Tail, c: char, at: nat, line: string, headers: seq<Header>)
    requires tail.Valid() && !tail.Returned?
    ensures Step(tail.State(at, line, headers), c) == MoreTail(tail, c).State(at, line, headers)
  {
    hide AllLower, MoreTail, Step, Tail.State, Tail.Valid;
    match tail
    case Separated(_, _) => SeparatedState(tail, c, at, line, headers);
    case Named(_) => NamedState(tail, c, at, line, headers);
    case Nothing => FirstState(tail, c, at, line, headers);
    case Indented(_) => FirstState(tail, c, at, line, headers);
    case _ => OtherState(tail, c, at, line, headers);
  }

  lemma SeparatedState(tail: Tail, c: char, at: nat, line: string, headers: seq<Header>)
    requires tail.Separated?
    ensures Step(tail.State(at, line, headers), c) == MoreTail(tail, c).State(at, line, headers)
  {
    hide AllLower;
  }

  lemma NamedState(tail: Tail, c: char, at: nat, line: string, headers: seq<Header>)
    requires tail.Named?
    ensures Step(tail.State(at, line, headers), c) == MoreTail(tail, c).State(at, line, headers)
  {
    hide AllLower;
    LowerMore(tail.start.name, c);
    assert c == ':' <==> ':' in [c];
  }

  lemma FirstState(tail: Tail, c: char, at: nat, line: string, headers: seq<Header>)
    requires tail.Nothing? || tail.Indented?
    ensures Step(tail.State(at, line, headers), c) == MoreTail(tail, c).State(at, line, headers)
  {
    hide AllLower;
    LowerOne(c);
    assert [] + [Lower(c)] == [Lower(c)];
    assert ':' in ":";
  }

  lemma OtherState(tail: Tail, c: char, at: nat, line: string, headers: seq<Header>)
    requires !tail.Returned? && !tail.Separated? && !tail.Named? && !tail.Nothing? && !tail.Indented?
    ensures Step(tail.State(at, line, headers), c) == MoreTail(tail, c).State(at, line, headers)
  {
    hide AllLower, AfterName;
  }

  /** Only the characters of names are edited. */
  lemma TailShown(tail: Tail, c: char, at: nat, line: string, headers: seq<Header>)
    requires tail.Valid() && !tail.Returned?
    ensures MoreTail(tail, c).Edited().Text()
         == tail.Edited().Text() + [Edit(tail.State(at, line, headers), c)]
  {
    hide AllLower, MoreTail, Step, Tail.State, Tail.Text, Tail.Edited, Tail.Valid;
    TailState(tail, c, at, line, headers);
    EditedTail(tail, c);
    PhaseOfTail(MoreTail(tail, c), at, line, headers);
    if MoreTail(tail, c).Named? { NameGrows(tail, c); } else { OthersGrow(tail, c); }
  }

  lemma PhaseOfTail(tail: Tail, at: nat, line: string, headers: seq<Header>)
    ensures tail.State(at, line, headers).phase.Name? <==> tail.Named?
  {
  }

  lemma EditedTail(tail: Tail, c: char)
    requires tail.Valid() && !tail.Returned?
    ensures MoreTail(tail, c).Valid()
  {
    TailText(tail, c);
  }

  lemma NameGrows(tail: Tail, c: char)
    requires tail.Valid() && !tail.Returned? && MoreTail(tail, c).Named?
    ensures MoreTail(tail, c).Edited().Text() == tail.Edited().Text() + [Lower(c)]
  {
    hide AllLower;
    LowerOne(c);
    match tail
    case Named(start) => LowerMore(start.name, c);
    case _ =>
  }

  lemma OthersGrow(tail: Tail, c: char)
    requires tail.Valid() && !tail.Returned? && !MoreTail(tail, c).Named?
    ensures MoreTail(tail, c).Edited().Text() == tail.Edited().Text() + [c]
  {
    hide AllLower, Tail.Valid;
    LowerOne(c);
  }

  lemma LinesMore(lines: seq<Ended>, last: Ended, at: nat)
    ensures LinesText(lines + [last]) == LinesText(lines) + last.Text()
    ensures EditedText(lines + [last]) == EditedText(lines) + last.Edited().Text()
    ensures Headers(lines + [last], at) == Headers(lines, at) + [last.line.AsHeader(at + |LinesText(lines)|)]
  {
    hide Ended.Text, Ended.Edited, Line.AsHeader;
    assert (lines + [last])[..|lines|] == lines;
  }

  lemma NoLines(at: nat)
    ensures LinesText([]) == [] && EditedText([]) == [] && Headers([], at) == []
  {
  }

  lemma MoreReads(reading: Reading, c: char)
    requires reading.Valid()
    ensures var more := More(reading, c);
            && more.Valid() && more.Text() == reading.Text() + [c]
            && Step(reading.State(), c) == more.State()
            && more.Shown() == reading.Shown() + [Edit(reading.State(), c)]
  {
    match reading
    case Block(_, _, _) => MoreOfBlock(reading, c);
    case FirstReturn(line) =>
      NoLines(|line| + 2);
      AtFirst(line);
    case _ =>
  }

  lemma MoreOfBlock(reading: Reading, c: char)
    requires reading.Block? && reading.Valid()
    ensures var more := More(reading, c);
            && more.Valid() && more.Text() == reading.Text() + [c]
            && Step(reading.State(), c) == more.State()
            && more.Shown() == reading.Shown() + [Edit(reading.State(), c)]
  {
    hide MoreTail, Tail.Text, Tail.State, Tail.Edited, Tail.Valid, LinesText, EditedText, Headers, Line.Valid, Step,
         Edit, Ended.Text, Ended.Edited;
    var line, lines, tail := reading.line, reading.lines, reading.tail;
    var at := |line| + 2;
    if tail.Returned? {
      LineEnds(tail, c, at + |LinesText(lines)|, line, Headers(lines, at));
      LinesMore(lines, Ended(tail.line, c), at);
    } else {
      TailText(tail, c);
      TailState(tail, c, at + |LinesText(lines)|, line, Headers(lines, at));
      TailShown(tail, c, at + |LinesText(lines)|, line, Headers(lines, at));
    }
  }

  lemma AtFirst(line: string)
    ensures Nothing.Valid() && Nothing.Text() == [] && Nothing.Edited() == Nothing
    ensures Nothing.State(|line| + 2, line, []) == Scan(LineStart, |line| + 2, line, [])
  {
  }

  /** Whatever stands behind the carriage return of a header line ends it. */
  lemma LineEnds(tail: Tail, c: char, at: nat, line: string, headers: seq<Header>)
    requires tail.Returned? && tail.Valid()
    ensures var last := Ended(tail.line, c);
            && last.line.Valid() && last.Text() == tail.Text() + [c]
            && last.Edited().Text() == tail.Edited().Text() + [Edit(tail.State(at, line, headers), c)]
            && Step(tail.State(at, line, headers), c)
               == Nothing.State(at + |last.Text()|, line, headers + [last.line.AsHeader(at)])
    ensures Nothing.Valid() && Nothing.Text() == [] && Nothing.Edited() == Nothing
  {
    hide AllLower;
  }

  /** Every text has a reading, and the machine is where the reading says, with the names lower-cased on the way. */
  lemma {:induction false} MachineReads(s: string)
    ensures var reading := ReadingOf(s);
            && reading.Valid() && reading.Text() == s
            && Run(START, s) == reading.State() && Lowered(START, s) == reading.Shown()
  {
    hide Step, Edit, More, Reading.Valid, Reading.Text, Reading.State, Reading.Shown, Machine.Run, Machine.Rewritten;
    if s == [] {
      NothingRead(START);
      EmptyReading();
    } else {
      var front, last := s[..|s| - 1], s[|s| - 1];
      MachineReads(front);
      MoreReads(ReadingOf(front), last);
      RunSnoc(START, s, |s| - 1);
      assert s[..|s|] == s && s == front + [last];
    }
  }

  lemma EmptyReading()
    ensures var reading := FirstPart([]);
            reading.Valid() && reading.Text() == [] && reading.State() == START && reading.Shown() == []
  {
  }

  // One character less: no text has two readings.

  function Front(s: string): string
    requires s != []
  {
    s[..|s| - 1]
  }

  /** Where a line stood before the last character of its separator or value, or before its value. */
  function LessTail(tail: Tail): Tail
    requires tail.Valid() && !tail.Nothing?
  {
    match tail
    case Indented(indent) => if |indent| == 1 then Nothing else Indented(Front(indent))
    case Named(start) =>
      if |start.name| > 1 then Named(Start(start.indent, Front(start.name)))
      else if start.indent == [] then Nothing
      else Indented(start.indent)
    case Separated(start, separator) =>
      if |separator| > 1 then Separated(start, Front(separator))
      else if start.name != [] then Named(start)
      else if start.indent == [] then Nothing
      else Indented(start.indent)
    case Valued(line) =>
      if |line.value| > 1 then Valued(Line(line.start, line.separator, Front(line.value)))
      else Separated(line.start, line.separator)
    case Returned(line) => if line.value != [] then Valued(line) else Separated(line.start, line.separator)
    case LastReturn => Nothing
    case Whole(body) => if body == [] then LastReturn else Whole(Front(body))
    case BrokenEnd(c, rest) => if rest == [] then LastReturn else BrokenEnd(c, Front(rest))
    case NoColon(start, separator, c, rest) =>
      if rest == [] then Separated(start, separator) else NoColon(start, separator, c, Front(rest))
  }

  lemma TailGrewFrom(tail: Tail)
    requires tail.Valid() && !tail.Nothing?
    ensures var less, text := LessTail(tail), tail.Text();
            && less.Valid() && !less.Returned? && text != []
            && MoreTail(less, text[|text| - 1]) == tail
  {
    hide LessTail, MoreTail, Tail.Text, Tail.Valid;
    match tail
    case Separated(_, separator) => SeparatorGrewFrom(tail);
    case Valued(_) => ValueGrewFrom(tail);
    case Named(start) => NameGrewFrom(tail);
    case _ => OtherGrewFrom(tail);
  }

  lemma NameGrewFrom(tail: Tail)
    requires tail.Named? && tail.Valid()
    ensures var less, text := LessTail(tail), tail.Text();
            && less.Valid() && !less.Returned? && text != []
            && MoreTail(less, text[|text| - 1]) == tail
  {
    var name := tail.start.name;
    assert name == Front(name) + [name[|name| - 1]];
  }

  lemma OtherGrewFrom(tail: Tail)
    requires tail.Valid() && !tail.Nothing? && !tail.Separated? && !tail.Valued? && !tail.Named?
    ensures var less, text := LessTail(tail), tail.Text();
            && less.Valid() && !less.Returned? && text != []
            && MoreTail(less, text[|text| - 1]) == tail
  {
    match tail
    case Indented(indent) => assert indent == Front(indent) + [indent[|indent| - 1]];
    case Whole(body) => if body != [] { assert body == Front(body) + [body[|body| - 1]]; }
    case BrokenEnd(_, rest) => if rest != [] { assert rest == Front(rest) + [rest[|rest| - 1]]; }
    case NoColon(_, _, _, rest) => if rest != [] { assert rest == Front(rest) + [rest[|rest| - 1]]; }
    case _ =>
  }

  lemma SeparatorGrewFrom(tail: Tail)
    requires tail.Separated? && tail.Valid()
    ensures var less, text := LessTail(tail), tail.Text();
            && less.Valid() && !less.Returned? && text != []
            && MoreTail(less, text[|text| - 1]) == tail
  {
    if |tail.separator| > 1 { LongSeparator(tail); } else { FirstOfSeparator(tail); }
  }

  lemma LongSeparator(tail: Tail)
    requires tail.Separated? && tail.Valid() && |tail.separator| > 1
    ensures var less, text := LessTail(tail), tail.Text();
            && less.Valid() && !less.Returned? && text != []
            && MoreTail(less, text[|text| - 1]) == tail
  {
    var separator := tail.separator;
    assert separator == Front(separator) + [separator[|separator| - 1]];
  }

  lemma FirstOfSeparator(tail: Tail)
    requires tail.Separated? && tail.Valid() && |tail.separator| == 1
    ensures var less, text := LessTail(tail), tail.Text();
            && less.Valid() && !less.Returned? && text != []
            && MoreTail(less, text[|text| - 1]) == tail
  {
    if tail.start.name == [] { assert tail.separator == ":"; }
  }

  lemma ValueGrewFrom(tail: Tail)
    requires tail.Valued? && tail.Valid()
    ensures var less, text := LessTail(tail), tail.Text();
            && less.Valid() && !less.Returned? && text != []
            && MoreTail(less, text[|text| - 1]) == tail
  {
    var line := tail.line;
    assert line.value == Front(line.value) + [line.value[|line.value| - 1]];
    assert line.Text()[|line.Text()| - 1] == line.value[|line.value| - 1];
  }

  function Less(reading: Reading): Reading
    requires reading.Valid() && reading.Text() != []
  {
    match reading
    case FirstPart(line) => FirstPart(Front(line))
    case FirstReturn(line) => FirstPart(line)
    case BrokenFirst(line, c, rest) => if rest == [] then FirstReturn(line) else BrokenFirst(line, c, Front(rest))
    case Block(line, lines, tail) =>
      if !tail.Nothing? then Block(line, lines, LessTail(tail))
      else if lines == [] then FirstReturn(line)
      else Block(line, lines[..|lines| - 1], Returned(lines[|lines| - 1].line))
  }

  lemma GrewFrom(reading: Reading)
    requires reading.Valid() && reading.Text() != []
    ensures var less, text := Less(reading), reading.Text();
            less.Valid() && More(less, text[|text| - 1]) == reading
  {
    hide MoreTail, LessTail, Tail.Text, Tail.Valid, LinesText, Line.Valid;
    match reading
    case FirstPart(line) => assert line == Front(line) + [line[|line| - 1]];
    case FirstReturn(_) =>
    case BrokenFirst(line, c, rest) => if rest != [] { assert rest == Front(rest) + [rest[|rest| - 1]]; }
    case Block(line, lines, tail) => BlockGrewFrom(line, lines, tail);
  }

  lemma BlockGrewFrom(line: string, lines: seq<Ended>, tail: Tail)
    requires Block(line, lines, tail).Valid()
    ensures var reading := Block(line, lines, tail);
            var less, text := Less(reading), reading.Text();
            text != [] && less.Valid() && More(less, text[|text| - 1]) == reading
  {
    hide MoreTail, LessTail, Tail.Text, Tail.Valid, LinesText, Line.Valid, Line.Text;
    AtFirst(line);
    if !tail.Nothing? {
      TailGrewFrom(tail);
      var front, text := line + "\r\n" + LinesText(lines), tail.Text();
      assert (front + text)[|front + text| - 1] == text[|text| - 1];
    } else if lines == [] {
      NoLines(0);
    } else {
      var front, last := lines[..|lines| - 1], lines[|lines| - 1];
      assert lines == front + [last];
      LinesMore(front, last, 0);
      assert lines[|lines| - 1].line.Valid();
      ReturnedIsValid(last.line);
    }
  }

  lemma ReturnedIsValid(line: Line)
    requires line.Valid()
    ensures Returned(line).Valid()
  {
  }

  /** A reading of a text is the reading of the text. */
  lemma {:induction false} ReadingIsUnique(reading: Reading)
    requires reading.Valid()
    ensures ReadingOf(reading.Text()) == reading
    decreases |reading.Text()|
  {
    hide More, Less, Reading.Valid, Reading.Text;
    var text := reading.Text();
    if text == [] {
      OnlyEmptyReading(reading);
    } else {
      LessText(reading);
      ReadingIsUnique(Less(reading));
    }
  }

  lemma LessText(reading: Reading)
    requires reading.Valid() && reading.Text() != []
    ensures var less, text := Less(reading), reading.Text();
            && less.Valid() && less.Text() == text[..|text| - 1]
            && More(less, text[|text| - 1]) == reading
  {
    hide More, Less, Reading.Valid, Reading.Text, Reading.State, Reading.Shown, Step, Edit;
    GrewFrom(reading);
    var text := reading.Text();
    MoreReads(Less(reading), text[|text| - 1]);
  }

  lemma OnlyEmptyReading(reading: Reading)
    requires reading.Text() == []
    ensures reading == FirstPart([])
  {
    hide LinesText, Tail.Text;
  }

  /** The machine on every text, told from any way to take the text for a part of a block, a whole one, or a broken
      one; and there always is such a way. */
  lemma MachineIsExact(s: string, reading: Reading)
    ensures ReadingOf(s).Valid() && ReadingOf(s).Text() == s
    ensures reading.Valid() && reading.Text() == s ==>
              Run(START, s) == reading.State() && Lowered(START, s) == reading.Shown()
  {
    hide Reading.Valid, Reading.Text, Reading.State, Reading.Shown, Machine.Run, Machine.Rewritten;
    MachineReads(s);
    if reading.Valid() && reading.Text() == s {
      ReadingIsUnique(reading);
    }
  }
}
