/**
  Well-formed HTTP requests as text (section 3 of RFC 7230, read as liberally as the server reads it),
  and the theorems of the server side: whatever pieces the network makes of a stream of well-formed
  requests, each is dispatched exactly once, in order, with its own path and body; and exactly when each is
  dispatched with its own content type, too.
 */
module HttpRequests {
  import opened Decimal
  import opened HttpPieces
  import opened HttpScan
  import opened HttpSession
  import opened Responder
  import opened Texts
  import Machine
  import TcpServer

  datatype Line = Line(indent: string, name: string, separator: string, value: string)
  {
    ghost predicate Valid() {
      && (forall i :: 0 <= i < |indent| ==> indent[i] in {' ', '\t'})
      && name != []
      && (forall i :: 0 <= i < |name| ==> name[i] !in {' ', '\t', ':', '\r'})
      && (forall i :: 0 <= i < |separator| ==> separator[i] in {' ', '\t', ':'})
      && ':' in separator
      && (forall i :: 0 <= i < |value| ==> value[i] != '\r')
      && (value != [] ==> value[0] !in {' ', '\t', ':'})
    }

    function Text(): string { indent + name + separator + value + "\r\n" }

    /** The line as the parser leaves it. */
    function Edited(): Line { this.(name := AllLower(name)) }

    /** The header this line is, when it begins at `at`. */
    function AsHeader(at: nat): Header {
      Header(AllLower(name), value, at + |indent| + |name| + |separator|)
    }
  }

  function EditedLines(lines: seq<Line>): (r: seq<Line>)
    ensures |r| == |lines|
  {
    if lines == [] then [] else EditedLines(lines[..|lines| - 1]) + [lines[|lines| - 1].Edited()]
  }

  function LinesText(lines: seq<Line>): string {
    if lines == [] then [] else LinesText(lines[..|lines| - 1]) + lines[|lines| - 1].Text()
  }

  function HeadersOf(lines: seq<Line>, at: nat): seq<Header> {
    if lines == [] then []
    else
      var front := lines[..|lines| - 1];
      HeadersOf(front, at) + [lines[|lines| - 1].AsHeader(at + |LinesText(front)|)]
  }

  datatype Request = Request(verb: string, path: string, protocol: string, lines: seq<Line>, body: seq<char>)
  {
    function FirstLine(): string { verb + " " + path + " " + protocol }

    function Head(): string { FirstLine() + "\r\n" + LinesText(lines) + "\r\n" }

    function Text(): string { Head() + body }

    function Headers(): seq<Header> { HeadersOf(lines, |FirstLine()| + 2) }

    function Type(): RequestType {
      if protocol != "HTTP/1.1" && protocol != "HTTP/1.0" then WeirdRequest
      else if verb == "GET" then GetRequest
      else if verb == "POST" then PostRequest
      else WeirdRequest
    }

    /** The head is well formed. */
    ghost predicate Sound() {
      && (forall i :: 0 <= i < |verb| ==> verb[i] != ' ' && verb[i] != '\r')
      && (forall i :: 0 <= i < |path| ==> path[i] != ' ' && path[i] != '\r')
      && (forall i :: 0 <= i < |protocol| ==> protocol[i] != '\r')
      && (forall i :: 0 <= i < |lines| ==> lines[i].Valid())
    }

    /** A POST says how long its body is; what other requests bring along is read as the next request. */
    ghost predicate Valid() {
      && Sound()
      && if Type() == PostRequest then BodySize(Headers()) == |body| && |Text()| <= INT_MAX
         else body == []
    }

    /** The request as the parser leaves it: its header names in lower case. */
    function Edited(): Request { this.(lines := EditedLines(lines)) }

    /** What the last Content-Type line says. */
    function ContentType(): Option<string> { LastType(lines) }

    ghost predicate Closing() {
      exists i :: 0 <= i < |lines| && AllLower(lines[i].name) == "connection" && lines[i].value == "close"
    }
  }

  function LastType(lines: seq<Line>): Option<string> {
    if lines == [] then None
    else if AllLower(lines[|lines| - 1].name) == "content-type" then Some(lines[|lines| - 1].value)
    else LastType(lines[..|lines| - 1])
  }

  /** Whether and where a request's own content type stands. */
  lemma {:induction false} TypeIsWhereItSays(lines: seq<Line>, at: nat, before: string, after: string)
    requires |before| == at
    ensures var own := OwnContentType(HeadersOf(lines, at));
            && own.Some? == LastType(lines).Some?
            && (own.Some? ==>
                  var text := before + LinesText(lines) + after;
                  && own.value.start + own.value.length <= at + |LinesText(lines)|
                  && text[own.value.start..own.value.start + own.value.length] == LastType(lines).value)
  {
    hide Line.Text;
    if lines != [] {
      var front, last := lines[..|lines| - 1], lines[|lines| - 1];
      HeadersLength(front, at);
      assert HeadersOf(lines, at)[..|front|] == HeadersOf(front, at);
      assert before + LinesText(lines) + after == before + LinesText(front) + (last.Text() + after);
      if AllLower(last.name) == "content-type" {
        ValueIsInLine(before + LinesText(front), last, after);
      } else {
        TypeIsWhereItSays(front, at, before, last.Text() + after);
      }
    }
  }

  lemma ValueIsInLine(before: string, line: Line, after: string)
    ensures var start := |before| + |line.indent| + |line.name| + |line.separator|;
            && start + |line.value| <= |before| + |line.Text()|
            && (before + (line.Text() + after))[start..start + |line.value|] == line.value
  {
    var lead := before + line.indent + line.name + line.separator;
    assert before + (line.Text() + after) == lead + line.value + ("\r\n" + after);
  }

  lemma {:induction false} HeadersLength(lines: seq<Line>, at: nat)
    ensures |HeadersOf(lines, at)| == |lines|
  {
    if lines != [] { HeadersLength(lines[..|lines| - 1], at); }
  }

  // How the header machine goes through a well-formed head.

  lemma ReadsOne(from: Scan, s: string)
    requires |s| == 1
    ensures Run(from, s) == Step(from, s[0])
    ensures Lowered(from, s) == [Edit(from, s[0])]
  {
    RunSnoc(from, s, 0);
    NothingRead(from);
    assert s[..1] == s && s[..0] == [];
  }

  lemma ReadsTwo(from: Scan, a: char, b: char)
    ensures Run(from, [a, b]) == Step(Step(from, a), b)
    ensures Lowered(from, [a, b]) == [Edit(from, a), Edit(Step(from, a), b)]
  {
    hide Step, Edit;
    ReadsOne(from, [a]);
    RunSnoc(from, [a, b], 1);
    assert [a, b][..2] == [a, b] && [a, b][..1] == [a];
  }

  lemma ReadsLast(from: Scan, s: string)
    requires s != []
    ensures var front, last := s[..|s| - 1], s[|s| - 1];
            && Run(from, s) == Step(Run(from, front), last)
            && Lowered(from, s) == Lowered(from, front) + [Edit(Run(from, front), last)]
            && s == front + [last]
  {
    hide Step, Edit;
    RunSnoc(from, s, |s| - 1);
    assert s[..|s|] == s;
  }

  lemma {:induction false} ReadsFirstLine(s: string)
    requires forall i :: 0 <= i < |s| ==> s[i] != '\r'
    ensures Run(START, s) == Scan(FirstLine, |s|, s, [])
    ensures Lowered(START, s) == s
  {
    hide Machine.Run, Machine.Rewritten;
    if s == [] {
      NothingRead(START);
    } else {
      ReadsFirstLine(s[..|s| - 1]);
      ReadsLast(START, s);
    }
  }

  lemma {:induction false} ReadsIndent(from: Scan, s: string)
    requires from.phase.LineStart?
    requires forall i :: 0 <= i < |s| ==> IsBlank(s[i])
    ensures Run(from, s) == from.(phase := if s == [] then LineStart else Indent, position := from.position + |s|)
    ensures Lowered(from, s) == s
  {
    hide Machine.Run, Machine.Rewritten;
    if s == [] {
      NothingRead(from);
    } else {
      ReadsIndent(from, s[..|s| - 1]);
      ReadsLast(from, s);
    }
  }

  lemma {:induction false} ReadsName(from: Scan, s: string)
    requires from.phase.LineStart? || from.phase.Indent?
    requires s != [] && forall i :: 0 <= i < |s| ==> !IsBlank(s[i]) && s[i] != ':' && s[i] != '\r'
    ensures Run(from, s) == from.(phase := Name(AllLower(s)), position := from.position + |s|)
    ensures Lowered(from, s) == AllLower(s)
  {
    hide Machine.Run, Machine.Rewritten;
    ReadsLast(from, s);
    if |s| == 1 { NothingRead(from); } else { ReadsName(from, s[..|s| - 1]); }
  }

  lemma {:induction false} ReadsSeparator(from: Scan, s: string, name: string)
    requires from.phase == Name(name)
    requires s != [] && forall i :: 0 <= i < |s| ==> IsBlank(s[i]) || s[i] == ':'
    ensures Run(from, s) == from.(phase := Separator(name, ':' in s), position := from.position + |s|)
    ensures Lowered(from, s) == s
  {
    hide Machine.Run, Machine.Rewritten;
    ReadsLast(from, s);
    if |s| == 1 { NothingRead(from); } else { ReadsSeparator(from, s[..|s| - 1], name); }
  }

  lemma {:induction false} ReadsValue(from: Scan, s: string, name: string)
    requires from.phase == Separator(name, true)
    requires s != [] && !IsBlank(s[0]) && s[0] != ':'
    requires forall i :: 0 <= i < |s| ==> s[i] != '\r'
    ensures Run(from, s) == from.(phase := Value(name, from.position, s), position := from.position + |s|)
    ensures Lowered(from, s) == s
  {
    hide Machine.Run, Machine.Rewritten;
    ReadsLast(from, s);
    if |s| == 1 { NothingRead(from); } else { ReadsValue(from, s[..|s| - 1], name); }
  }

  lemma ReadsLine(from: Scan, line: Line)
    requires from.phase.LineStart? && line.Valid()
    ensures Run(from, line.Text())
         == from.(position := from.position + |line.Text()|, headers := from.headers + [line.AsHeader(from.position)])
    ensures Lowered(from, line.Text()) == line.Edited().Text()
  {
    hide Machine.Run, Machine.Rewritten;
    var l := line;
    var a := Run(from, l.indent);
    ReadsIndent(from, l.indent);
    RunAppend(from, l.indent, l.name);
    var b := Run(a, l.name);
    ReadsName(a, l.name);
    RunAppend(from, l.indent + l.name, l.separator);
    var c := Run(b, l.separator);
    ReadsSeparator(b, l.separator, AllLower(l.name));
    RunAppend(from, l.indent + l.name + l.separator, l.value);
    var d := Run(c, l.value);
    if l.value == [] { NothingRead(c); } else { ReadsValue(c, l.value, AllLower(l.name)); }
    RunAppend(from, l.indent + l.name + l.separator + l.value, "\r\n");
    ReadsTwo(d, '\r', '\n');
  }

  lemma NoLines(at: nat)
    ensures LinesText([]) == [] && EditedLines([]) == [] && HeadersOf([], at) == []
  {
  }

  lemma NextLine(lines: seq<Line>, line: Line, at: nat)
    ensures LinesText(lines + [line]) == LinesText(lines) + line.Text()
    ensures EditedLines(lines + [line]) == EditedLines(lines) + [line.Edited()]
    ensures HeadersOf(lines + [line], at) == HeadersOf(lines, at) + [line.AsHeader(at + |LinesText(lines)|)]
  {
    hide Line.Text, Line.Edited, Line.AsHeader;
    assert (lines + [line])[..|lines|] == lines;
  }

  lemma {:induction false} ReadsLines(from: Scan, lines: seq<Line>)
    requires from.phase.LineStart? && forall i :: 0 <= i < |lines| ==> lines[i].Valid()
    ensures Run(from, LinesText(lines))
         == from.(position := from.position + |LinesText(lines)|,
                  headers := from.headers + HeadersOf(lines, from.position))
    ensures Lowered(from, LinesText(lines)) == LinesText(EditedLines(lines))
  {
    hide Machine.Run, Machine.Rewritten, Step, Edit, Line.Text, Line.AsHeader, Line.Edited, Line.Valid,
         LinesText, EditedLines, HeadersOf;
    if lines == [] {
      NothingRead(from);
      NoLines(from.position);
    } else {
      var front, last := lines[..|lines| - 1], lines[|lines| - 1];
      assert lines == front + [last];
      NextLine(front, last, from.position);
      NextLine(EditedLines(front), last.Edited(), 0);
      ReadsLines(from, front);
      RunAppend(from, LinesText(front), last.Text());
      ReadsLine(Run(from, LinesText(front)), last);
    }
  }

  lemma ReadsRequestLine(line: string)
    requires forall i :: 0 <= i < |line| ==> line[i] != '\r'
    ensures Run(START, line + "\r\n") == Scan(LineStart, |line| + 2, line, [])
    ensures Lowered(START, line + "\r\n") == line + "\r\n"
  {
    hide Machine.Run, Machine.Rewritten;
    ReadsFirstLine(line);
    RunAppend(START, line, "\r\n");
    ReadsTwo(Run(START, line), '\r', '\n');
  }

  lemma ReadsHead(request: Request)
    requires request.Sound()
    ensures Run(START, request.Head()) == Scan(Done, |request.Head()|, request.FirstLine(), request.Headers())
    ensures Lowered(START, request.Head()) == request.Edited().Head()
  {
    hide Machine.Run, Machine.Rewritten, LinesText, HeadersOf, EditedLines;
    var line := request.FirstLine();
    ReadsRequestLine(line);
    RunAppend(START, line + "\r\n", LinesText(request.lines));
    ReadsLines(Run(START, line + "\r\n"), request.lines);
    RunAppend(START, line + "\r\n" + LinesText(request.lines), "\r\n");
    ReadsTwo(Run(START, line + "\r\n" + LinesText(request.lines)), '\r', '\n');
  }

  lemma {:induction false} SpaceIsFound(line: string, from: nat, at: nat)
    requires from <= at <= |line|
    requires forall i :: from <= i < at ==> line[i] != ' '
    requires at < |line| ==> line[at] == ' '
    ensures FindSpace(line, from) == at
    decreases at - from
  {
    if from < at { SpaceIsFound(line, from + 1, at); }
  }

  lemma FirstLineIsUnderstood(request: Request)
    requires request.Sound()
    ensures ReadFirstLine(request.FirstLine())
         == Some(RequestLine(request.Type(), Span(|request.verb| + 1, |request.path|)))
  {
    hide Line.Valid, HeadersOf, BodySize, Request.Text, Request.Headers;
    var line, v, p := request.FirstLine(), |request.verb|, |request.path|;
    assert line[v] == ' ' && line[v + 1 + p] == ' ';
    forall i | v + 1 <= i < v + 1 + p ensures line[i] != ' ' {
      assert line[i] == request.path[i - v - 1];
    }
    SpaceIsFound(line, 0, v);
    SpaceIsFound(line, v + 1, v + 1 + p);
    assert line[..v] == request.verb && line[v + 1 + p + 1..] == request.protocol;
  }

  // From heads to calls.

  function KeptAfter(kept: Kept, request: Request): Kept { AfterHeaders(kept, request.Headers()) }

  /** The call a request causes, when `rest` is unread behind it. One that does not state its content type is
      shown with whatever stands where an earlier request's content type stood. */
  ghost function CallOf(kept: Kept, request: Request, rest: string): Event {
    match request.Type()
    case GetRequest => Get(Own(request.path))
    case PostRequest =>
      var text := request.Edited().Text();
      var declared := request.ContentType();
      Post(Own(request.path),
           if declared.Some? then Own(declared.value) else View(text + rest, kept.contentType, |text|),
           request.body)
    case _ => NotImplemented
  }

  lemma EditedLineFacts(line: Line, at: nat)
    ensures |line.Edited().Text()| == |line.Text()|
    ensures line.Edited().AsHeader(at) == line.AsHeader(at)
    ensures AllLower(line.Edited().name) == AllLower(line.name) && line.Edited().value == line.value
  {
    LowerTwice(line.name);
  }

  lemma {:induction false} EditedLength(lines: seq<Line>)
    ensures |LinesText(EditedLines(lines))| == |LinesText(lines)|
  {
    hide Line.Edited, Line.Text, Line.AsHeader, AllLower;
    if lines != [] {
      var front, last := lines[..|lines| - 1], lines[|lines| - 1];
      EditedLength(front);
      EditedLineFacts(last, 0);
      EditedSplits(lines);
    }
  }

  lemma EditedSplits(lines: seq<Line>)
    requires lines != []
    ensures var edited, n := EditedLines(lines), |lines| - 1;
            edited[..n] == EditedLines(lines[..n]) && edited[n] == lines[n].Edited()
  {
  }

  lemma {:induction false} EditedHeaders(lines: seq<Line>, at: nat)
    ensures HeadersOf(EditedLines(lines), at) == HeadersOf(lines, at)
  {
    hide Line.Edited, Line.Text, Line.AsHeader, AllLower, LinesText;
    if lines != [] {
      var front, last := lines[..|lines| - 1], lines[|lines| - 1];
      EditedHeaders(front, at);
      EditedLength(front);
      EditedLineFacts(last, at + |LinesText(front)|);
      EditedSplits(lines);
    }
  }

  lemma {:induction false} EditedType(lines: seq<Line>)
    ensures LastType(EditedLines(lines)) == LastType(lines)
  {
    hide Line.Edited, AllLower;
    if lines != [] {
      var front, last := lines[..|lines| - 1], lines[|lines| - 1];
      EditedType(front);
      EditedLineFacts(last, 0);
      EditedSplits(lines);
    }
  }

  lemma EditedFacts(request: Request)
    ensures var edited := request.Edited();
            && |edited.Head()| == |request.Head()| && |edited.Text()| == |request.Text()|
            && edited.Headers() == request.Headers() && edited.ContentType() == request.ContentType()
  {
    hide LinesText, HeadersOf, EditedLines, LastType;
    EditedLength(request.lines);
    EditedHeaders(request.lines, |request.FirstLine()| + 2);
    EditedType(request.lines);
  }

  lemma PathIsRight(request: Request, rest: string)
    ensures var text, head := request.Edited().Text(), request.Edited().Head();
            && View(text + rest, Span(|request.verb| + 1, |request.path|), |text|) == Own(request.path)
            && View(text + rest, Span(|request.verb| + 1, |request.path|), |head|) == Own(request.path)
  {
    hide LinesText, EditedLines;
    var edited := request.Edited();
    var v := request.verb + " ";
    var tail := " " + request.protocol + "\r\n" + LinesText(edited.lines) + "\r\n" + request.body + rest;
    assert edited.Text() + rest == v + request.path + tail;
  }

  lemma TypeIsRight(request: Request, rest: string)
    ensures var text := request.Edited().Text();
            var own := OwnContentType(request.Headers());
            && own.Some? == request.ContentType().Some?
            && (own.Some? ==> View(text + rest, own.value, |text|) == Own(request.ContentType().value))
  {
    hide LinesText, HeadersOf, OwnContentType, LastType, EditedLines, Request.FirstLine;
    var edited := request.Edited();
    EditedFacts(request);
    var line := edited.FirstLine() + "\r\n";
    var after := "\r\n" + request.body + rest;
    assert edited.Text() + rest == line + LinesText(edited.lines) + after;
    TypeIsWhereItSays(edited.lines, |line|, line, after);
  }

  lemma HeadIsRead(request: Request, rest: string)
    requires request.Sound()
    ensures Run(START, request.Text() + rest)
         == Scan(Done, |request.Head()|, request.FirstLine(), request.Headers())
    ensures Lowered(START, request.Text() + rest) == request.Edited().Text() + rest
    ensures 0 < |request.Head()| <= |request.Text()| == |request.Edited().Text()|
    ensures request.Text()[|request.Head()|..] == request.Edited().Text()[|request.Head()|..] == request.body
  {
    hide Machine.Run, Machine.Rewritten, Request.FirstLine, Request.Headers, Step, Edit;
    var head, edited := request.Head(), request.Edited();
    assert request.Text() + rest == head + (request.body + rest);
    ReadsHead(request);
    RunAppend(START, head, request.body + rest);
    DecidedStays(Run(START, head), request.body + rest);
    EditedFacts(request);
    assert edited.Text() + rest == edited.Head() + (request.body + rest);
  }

  /** A session answers a well-formed request with exactly its call, and eats exactly its text. */
  lemma AnswersRequest(kept: Kept, request: Request, rest: string)
    requires request.Valid()
    ensures SessionAnswer(Fresh(kept), request.Text() + rest)
         == Answer(if KeptAfter(kept, request).closing then Disconnect else Ok,
                   |request.Text()|,
                   Fresh(KeptAfter(kept, request)),
                   request.Edited().Text() + rest,
                   [CallOf(kept, request, rest)])
  {
    hide Run, Lowered, OwnContentType, Request.FirstLine, Request.Headers, Request.Head, Request.Text, Request.Edited,
         Request.ContentType, ReadFirstLine;
    HeadIsRead(request, rest);
    FirstLineIsUnderstood(request);
    PathIsRight(request, rest);
    TypeIsRight(request, rest);
    EditedFacts(request);
    var text := request.Edited().Text();
    assert (text + rest)[|request.Head()|..|request.Head()| + |request.body|] == request.body;
  }

  function RequestsText(requests: seq<Request>): string {
    if requests == [] then [] else requests[0].Text() + RequestsText(requests[1..])
  }

  ghost predicate AllValid(requests: seq<Request>) {
    forall i :: 0 <= i < |requests| ==> requests[i].Valid()
  }

  /** The calls of a stream of requests that arrives at once: nothing is answered after one that asks to close
      the connection. */
  ghost function Calls(kept: Kept, requests: seq<Request>): seq<Event>
    decreases |requests|
  {
    if requests == [] then []
    else
      var after := KeptAfter(kept, requests[0]);
      [CallOf(kept, requests[0], RequestsText(requests[1..]))]
      + if after.closing then [] else Calls(after, requests[1..])
  }

  ghost predicate NoneCloses(requests: seq<Request>) {
    forall i :: 0 <= i < |requests| ==> !requests[i].Closing()
  }

  lemma {:induction false} DrainsRequests(kept: Kept, requests: seq<Request>)
    requires AllValid(requests) && requests != [] && !kept.closing
    requires WellBehaved(SessionAnswer)
    ensures RequestsText(requests) != []
    ensures var outcome := Drain(SessionAnswer, Fresh(kept), RequestsText(requests));
            && outcome.events == Calls(kept, requests)
            && outcome.open == NoneCloses(requests)
            && (outcome.open ==> outcome.kept == [])
    decreases |requests|
  {
    hide SessionAnswer, Request.Text, Request.Valid, Request.Closing, NoneCloses, AllValid, CallOf, AfterHeaders;
    var first, rest := requests[0], requests[1..];
    NoneClosesStep(requests);
    assert |first.Text()| > 0 by { TextIsNotEmpty(first); }
    AnswersRequest(kept, first, RequestsText(rest));
    AfterClosing(kept, first);
    EditedFacts(first);
    var after := KeptAfter(kept, first);
    var window := first.Edited().Text() + RequestsText(rest);
    assert window[|first.Text()|..] == RequestsText(rest);
    if rest == [] {
      assert Calls(after, rest) == [];
      NothingCloses();
    } else if !after.closing {
      DrainsRequests(after, rest);
    }
  }

  lemma NoneClosesStep(requests: seq<Request>)
    requires requests != []
    ensures NoneCloses(requests) <==> !requests[0].Closing() && NoneCloses(requests[1..])
    ensures AllValid(requests) ==> requests[0].Valid() && AllValid(requests[1..])
  {
    hide Request.Closing, Request.Valid;
    var rest := requests[1..];
    assert forall i :: 0 <= i < |rest| ==> rest[i] == requests[i + 1];
    if !requests[0].Closing() && NoneCloses(rest) {
      forall i | 0 <= i < |requests| ensures !requests[i].Closing() {
        if i > 0 { assert requests[i] == rest[i - 1]; }
      }
    }
  }

  lemma NothingCloses()
    ensures NoneCloses([])
  {
  }

  lemma TextIsNotEmpty(request: Request)
    ensures |request.Text()| > 0
  {
  }

  lemma AfterClosing(kept: Kept, request: Request)
    ensures KeptAfter(kept, request).closing <==> kept.closing || request.Closing()
  {
    hide OwnContentType;
    LinesClose(request.lines, |request.FirstLine()| + 2);
  }

  lemma {:induction false} HeaderOfLine(lines: seq<Line>, at: nat, i: nat)
    requires i < |lines|
    ensures |HeadersOf(lines, at)| == |lines|
    ensures HeadersOf(lines, at)[i].name == AllLower(lines[i].name) && HeadersOf(lines, at)[i].value == lines[i].value
  {
    hide AllLower, Line.Text, LinesText;
    HeadersLength(lines, at);
    HeadersLength(lines[..|lines| - 1], at);
    if i < |lines| - 1 {
      HeaderOfLine(lines[..|lines| - 1], at, i);
      assert HeadersOf(lines, at)[..|lines| - 1] == HeadersOf(lines[..|lines| - 1], at);
    }
  }

  lemma LinesClose(lines: seq<Line>, at: nat)
    ensures Closes(HeadersOf(lines, at)) <==>
            exists i :: 0 <= i < |lines| && AllLower(lines[i].name) == "connection" && lines[i].value == "close"
  {
    hide HeadersOf, AllLower;
    HeadersLength(lines, at);
    forall i | 0 <= i < |lines|
      ensures HeadersOf(lines, at)[i].name == AllLower(lines[i].name)
      ensures HeadersOf(lines, at)[i].value == lines[i].value
    {
      HeaderOfLine(lines, at, i);
    }
  }

  // A content type that an earlier request has left.

  ghost predicate Undeclared(request: Request) {
    request.Type() == PostRequest && request.ContentType().None?
  }

  /** The place that an earlier request's content type has left reaches past the end of this request. */
  ghost predicate Overreaches(kept: Kept, request: Request) {
    && Undeclared(request)
    && kept.contentType.length > 0
    && kept.contentType.start + kept.contentType.length > |request.Text()|
  }

  ghost predicate NoneOverreaches(kept: Kept, requests: seq<Request>)
    decreases |requests|
  {
    requests == [] ||
    var after := KeptAfter(kept, requests[0]);
    !Overreaches(kept, requests[0]) && (after.closing || NoneOverreaches(after, requests[1..]))
  }

  lemma CallIsProper(kept: Kept, request: Request, rest: string)
    ensures Proper(CallOf(kept, request, rest)) <==> !Overreaches(kept, request)
  {
    EditedFacts(request);
  }

  lemma {:induction false} CallsAreProper(kept: Kept, requests: seq<Request>)
    ensures AllProper(Calls(kept, requests)) <==> NoneOverreaches(kept, requests)
    decreases |requests|
  {
    hide CallOf, AfterHeaders, Proper, Overreaches;
    if requests != [] {
      var rest := requests[1..];
      CallIsProper(kept, requests[0], RequestsText(rest));
      var after := KeptAfter(kept, requests[0]);
      var later := if after.closing then [] else Calls(after, rest);
      CallsAreProper(after, rest);
      ProperStep(CallOf(kept, requests[0], RequestsText(rest)), later);
    }
  }

  lemma ProperStep(first: Event, later: seq<Event>)
    ensures AllProper([first] + later) <==> Proper(first) && AllProper(later)
  {
    hide Proper;
    var all := [first] + later;
    assert forall i :: 0 <= i < |later| ==> all[i + 1] == later[i];
    assert all[0] == first;
  }

  lemma WholeIsCalls(requests: seq<Request>)
    requires AllValid(requests)
    ensures WellBehaved(SessionAnswer)
    ensures var whole := Whole(SessionAnswer, INITIAL, RequestsText(requests));
            && whole.events == Calls(INITIAL.kept, requests)
            && whole.open == NoneCloses(requests)
            && (whole.open ==> whole.kept == [])
  {
    hide SessionAnswer, AllValid, NoneCloses, WellBehaved, Drain;
    AnyPieces([]);
    if requests == [] {
      NothingCloses();
    } else {
      var stream := RequestsText(requests);
      DrainsRequests(INITIAL.kept, requests);
      assert [] + stream == stream;
      var drained := Drain(SessionAnswer, INITIAL, stream);
      assert [] + drained.events == drained.events;
    }
  }

  /** The theorem of the server side: for every stream of well-formed requests and every way the network
      cuts it, the calls are those of the requests, but for what a stray place shows; and they are exactly
      those if no POST is one that a left content type overreaches. */
  method ServeRequests(requests: seq<Request>) returns (open: bool, events: seq<Event>)
    requires AllValid(requests)
    ensures open == NoneCloses(requests)
    ensures Alike(events, Calls(INITIAL.kept, requests))
    ensures NoneOverreaches(INITIAL.kept, requests) ==> events == Calls(INITIAL.kept, requests)
  {
    hide SessionAnswer, AllValid, NoneCloses, WellBehaved, NoneOverreaches, Calls, FeedAll, Whole, AllProper, Alike;
    WholeIsCalls(requests);
    var session;
    ghost var pieces;
    open, session, events, pieces := TcpServer.ServeConnection(SessionAnswer, INITIAL, RequestsText(requests));
    AnyPieces(pieces);
    CallsAreProper(INITIAL.kept, requests);
    if NoneOverreaches(INITIAL.kept, requests) {
      ProperIsSeen(events, Calls(INITIAL.kept, requests));
    }
  }

  /** And only then: what is dispatched for a stream of well-formed requests depends on nothing but the
      stream if and only if no POST in it is one that a left content type overreaches. */
  lemma OverreachingMatters(requests: seq<Request>)
    requires AllValid(requests)
    ensures WellBehaved(SessionAnswer)
    ensures OnlyTheStreamMatters(RequestsText(requests)) <==> NoneOverreaches(INITIAL.kept, requests)
  {
    hide SessionAnswer, AllValid, WellBehaved, NoneOverreaches, Calls, Whole, AllProper, OnlyTheStreamMatters;
    WholeIsCalls(requests);
    PiecesMatterForStraysOnly(RequestsText(requests));
    CallsAreProper(INITIAL.kept, requests);
  }

  /** What a request asks for, read off the request alone. */
  function PlainCall(request: Request): Event {
    match request.Type()
    case GetRequest => Get(Own(request.path))
    case PostRequest =>
      var declared := request.ContentType();
      Post(Own(request.path), Own(if declared.Some? then declared.value else ""), request.body)
    case _ => NotImplemented
  }

  function PlainCalls(requests: seq<Request>): (r: seq<Event>)
    ensures |r| == |requests|
  {
    if requests == [] then [] else [PlainCall(requests[0])] + PlainCalls(requests[1..])
  }

  /** A POST without a content type is shown as having none exactly when the content type that was stated
      last on the connection, if any, was empty: the session never forgets its place. */
  lemma UndeclaredType(kept: Kept, request: Request, rest: string)
    requires Undeclared(request)
    ensures CallOf(kept, request, rest).contentType == Own("") <==> kept.contentType.length == 0
  {
    EditedFacts(request);
  }

  lemma CallIsPlain(kept: Kept, request: Request, rest: string)
    ensures CallOf(kept, request, rest) == PlainCall(request)
            <==> (Undeclared(request) ==> kept.contentType.length == 0)
  {
    if Undeclared(request) {
      UndeclaredType(kept, request, rest);
    }
  }

  /** The content type that was stated last: `before`, unless one of the requests states one. */
  function LastStated(before: string, request: Request): string {
    if request.ContentType().Some? then request.ContentType().value else before
  }

  /** A POST without a content type comes only while the last one stated, if any, was empty. */
  ghost predicate NoneShadowed(before: string, requests: seq<Request>)
    decreases |requests|
  {
    requests == [] ||
    ((Undeclared(requests[0]) ==> before == "") && NoneShadowed(LastStated(before, requests[0]), requests[1..]))
  }

  lemma KeptLength(kept: Kept, before: string, request: Request)
    requires kept.contentType.length == |before|
    ensures KeptAfter(kept, request).contentType.length == |LastStated(before, request)|
  {
    hide HeadersOf, OwnContentType, LastType, LinesText, EditedLines, View;
    TypeIsRight(request, "");
    EditedFacts(request);
  }

  lemma {:induction false} CallsArePlain(kept: Kept, before: string, requests: seq<Request>)
    requires !kept.closing && NoneCloses(requests)
    requires kept.contentType.length == |before|
    ensures Calls(kept, requests) == PlainCalls(requests) <==> NoneShadowed(before, requests)
    decreases |requests|
  {
    hide CallOf, AfterHeaders, PlainCall, Request.Closing, NoneCloses, Undeclared, LastStated;
    if requests != [] {
      var first, rest := requests[0], requests[1..];
      NoneClosesStep(requests);
      AfterClosing(kept, first);
      CallIsPlain(kept, first, RequestsText(rest));
      KeptLength(kept, before, first);
      var after := KeptAfter(kept, first);
      CallsArePlain(after, LastStated(before, first), rest);
      assert Calls(kept, requests)[1..] == Calls(after, rest);
      assert PlainCalls(requests)[1..] == PlainCalls(rest);
    }
  }

  lemma {:induction false} PlainIsProper(requests: seq<Request>)
    ensures AllProper(PlainCalls(requests))
  {
    hide Proper;
    if requests != [] {
      PlainIsProper(requests[1..]);
      OnePlainIsProper(requests[0]);
      ProperStep(PlainCall(requests[0]), PlainCalls(requests[1..]));
    }
  }

  lemma OnePlainIsProper(request: Request)
    ensures Proper(PlainCall(request))
  {
  }

  /** When nobody closes, each request is dispatched exactly once, in order, with nothing but its own contents,
      whatever the pieces, if and only if no POST without a content type comes while one is left standing. */
  lemma EachExactlyOnce(requests: seq<Request>)
    requires AllValid(requests) && NoneCloses(requests)
    ensures WellBehaved(SessionAnswer)
    ensures (forall pieces :: Join(pieces) == RequestsText(requests) ==>
               FeedAll(SessionAnswer, INITIAL, pieces).events == PlainCalls(requests))
            <==> NoneShadowed("", requests)
  {
    hide SessionAnswer, AllValid, WellBehaved, NoneCloses, Calls, Whole, AllProper, FeedAll, Alike, PlainCalls,
        NoneShadowed;
    WholeIsCalls(requests);
    var stream := RequestsText(requests);
    CallsArePlain(INITIAL.kept, "", requests);
    AtOnce(SessionAnswer, INITIAL, stream);
    PlainIsProper(requests);
    if NoneShadowed("", requests) {
      forall pieces | Join(pieces) == stream
        ensures FeedAll(SessionAnswer, INITIAL, pieces).events == PlainCalls(requests)
      {
        AnyPieces(pieces);
        ProperIsSeen(FeedAll(SessionAnswer, INITIAL, pieces).events, PlainCalls(requests));
      }
    }
  }

  /** The requests that are answered: those up to the first that asks to close the connection. */
  ghost function Answered(requests: seq<Request>): (answered: seq<Request>)
    ensures answered <= requests
  {
    if requests == [] then []
    else if requests[0].Closing() then [requests[0]]
    else
      assert requests == [requests[0]] + requests[1..];
      [requests[0]] + Answered(requests[1..])
  }

  /** When every POST states its content type, the calls are read off the requests. */
  lemma {:induction false} DeclaredCalls(kept: Kept, requests: seq<Request>)
    requires !kept.closing && forall request <- requests :: !Undeclared(request)
    ensures Calls(kept, requests) == PlainCalls(Answered(requests))
    ensures NoneOverreaches(kept, requests)
    decreases |requests|
  {
    hide CallOf, AfterHeaders, PlainCall, Request.Closing, Undeclared;
    if requests != [] {
      var first, rest := requests[0], requests[1..];
      AfterClosing(kept, first);
      CallIsPlain(kept, first, RequestsText(rest));
      NotOverreached(kept, first);
      if first.Closing() {
        OnePlainCall(first);
      } else {
        DeclaredCalls(KeptAfter(kept, first), rest);
        assert Answered(requests)[1..] == Answered(rest);
      }
    }
  }

  lemma OnePlainCall(request: Request)
    ensures PlainCalls([request]) == [PlainCall(request)]
  {
    hide PlainCall;
    assert [request][1..] == [];
  }

  lemma NotOverreached(kept: Kept, request: Request)
    requires !Undeclared(request)
    ensures !Overreaches(kept, request)
  {
  }

  lemma {:induction false} LowerAlready(s: string)
    requires forall i :: 0 <= i < |s| ==> !IsUpper(s[i])
    ensures AllLower(s) == s
  {
    if s != [] {
      LowerAlready(s[..|s| - 1]);
      assert s == s[..|s| - 1] + [s[|s| - 1]];
    }
  }

  const LENGTH := Line([], "content-length", ":", "3")
  const TYPE := Line([], "content-type", ":", "a/b")
  const TYPED := Request("POST", "/", "HTTP/1.1", [TYPE, LENGTH], "abc")
  const UNTYPED := Request("POST", "/", "HTTP/1.1", [LENGTH], "abc")

  lemma LengthIsUnderstood(lines: seq<Line>, at: nat)
    requires lines != [] && lines[|lines| - 1] == LENGTH
    ensures BodySize(HeadersOf(lines, at)) == 3
  {
    LowerAlready("content-length");
    FromCharsReadsText(3, [], INT_MIN, INT_MAX);
    assert IntText(3) + [] == "3";
    HeadersLength(lines, at);
  }

  lemma BothLines()
    ensures TYPED.ContentType() == Some(TYPE.value) && UNTYPED.ContentType() == None
    ensures |LinesText(TYPED.lines)| == |TYPE.Text()| + |LENGTH.Text()| && |LinesText(UNTYPED.lines)| == |LENGTH.Text()|
  {
    hide LinesText, LastType;
    LowerAlready(TYPE.name);
    LastTypeOfTwo(TYPE, LENGTH);
  }

  lemma LinesAreValid()
    ensures TYPE.Valid() && LENGTH.Valid()
  {
    assert ":"[0] == ':';
  }

  lemma PlainPostIsValid(lines: seq<Line>)
    requires lines != [] && lines[|lines| - 1] == LENGTH && |LinesText(lines)| < 200
    requires forall i :: 0 <= i < |lines| ==> lines[i].Valid()
    ensures Request("POST", "/", "HTTP/1.1", lines, "abc").Valid()
  {
    hide BodySize, HeadersOf, LinesText, Line.Valid;
    LengthIsUnderstood(lines, |"POST / HTTP/1.1"| + 2);
  }

  lemma BothValid()
    ensures TYPED.Valid() && UNTYPED.Valid()
  {
    hide LinesText, Line.Valid, Request.Valid;
    LinesAreValid();
    BothLines();
    PlainPostIsValid(TYPED.lines);
    PlainPostIsValid(UNTYPED.lines);
  }

  lemma LastTypeOfTwo(a: Line, b: Line)
    requires AllLower(a.name) == "content-type" && |b.name| != 12
    ensures LastType([a, b]) == Some(a.value) && LastType([b]) == None
    ensures |LinesText([a, b])| == |a.Text()| + |b.Text()| && |LinesText([b])| == |b.Text()|
  {
    hide Line.Text, AllLower;
    var one, two := [b], [a, b];
    assert two[..1] == [a] && [a][..0] == [] && one[..0] == [];
    assert LinesText([a]) == a.Text();
    assert LinesText(two) == LinesText(two[..1]) + b.Text();
  }

  lemma OneLine(line: Line, at: nat)
    ensures LinesText([line]) == line.Text()
    ensures EditedLines([line]) == [line.Edited()]
    ensures HeadersOf([line], at) == [line.AsHeader(at)]
  {
    hide Line.Text, Line.Edited, Line.AsHeader;
    NextLine([], line, at);
    assert [] + [line] == [line];
  }

  lemma NextType(headers: seq<Header>, header: Header)
    ensures OwnContentType(headers + [header])
         == if header.name == "content-type" then Some(Span(header.start, |header.value|)) else OwnContentType(headers)
  {
    assert (headers + [header])[..|headers|] == headers;
  }

  lemma UntypedText()
    ensures UNTYPED.Edited() == UNTYPED
    ensures |UNTYPED.Text()| == 40 && UNTYPED.Text()[30..33] == "h:3" && UNTYPED.Text()[34..37] == "\n\r\n"
  {
    hide LinesText, EditedLines;
    LowerAlready(LENGTH.name);
    OneLine(LENGTH, 0);
    var front, text := UNTYPED.FirstLine() + "\r\n", LENGTH.Text();
    assert |front| == 17 && |text| == 18 && text[13..16] == "h:3";
    assert UNTYPED.Text() == front + text + "\r\nabc";
    assert UNTYPED.Text()[17..35] == text;
    assert UNTYPED.Text()[30..33] == text[13..16];
  }

  lemma PlainHeader(line: Line, at: nat)
    requires forall i :: 0 <= i < |line.name| ==> !IsUpper(line.name[i])
    ensures line.AsHeader(at) == Header(line.name, line.value, at + |line.indent| + |line.name| + |line.separator|)
  {
    LowerAlready(line.name);
  }

  lemma TypeOfTwo(at: nat)
    ensures OwnContentType(HeadersOf([TYPE, LENGTH], at)) == Some(Span(at + 13, 3))
    ensures !Closes(HeadersOf([TYPE, LENGTH], at))
  {
    hide Closes, OwnContentType, HeadersOf, LinesText, EditedLines, Line.Text, Line.AsHeader;
    PlainHeader(TYPE, at);
    PlainHeader(LENGTH, at + |TYPE.Text()|);
    OneLine(TYPE, at);
    NextLine([TYPE], LENGTH, at);
    assert [TYPE, LENGTH] == [TYPE] + [LENGTH];
    var first, second := TYPE.AsHeader(at), LENGTH.AsHeader(at + |TYPE.Text()|);
    NextType([], first);
    assert [] + [first] == [first];
    NextType([first], second);
    assert HeadersOf([TYPE, LENGTH], at) == [first, second];
    assert first.name == "content-type" && |first.name| == 12 && |second.name| == 14 && |"connection"| == 10;
    NoneIsConnection([first, second]);
  }

  /** Two well-formed requests, the second without a content type: the responder is shown one all the same,
      three characters out of the middle of the request. */
  lemma TypeOutlivesItsRequest(rest: string)
    ensures AllValid([TYPED, UNTYPED]) && UNTYPED.ContentType() == None
    ensures CallOf(KeptAfter(INITIAL.kept, TYPED), UNTYPED, rest) == Post(Own("/"), Own("h:3"), "abc")
  {
    hide Request.Valid, HeadersOf, OwnContentType, LastType, EditedLines, LinesText, Closes;
    BothValid();
    BothLines();
    UntypedText();
    TypeOfTwo(17);
    var text := UNTYPED.Text();
    assert (text + rest)[30..33] == text[30..33];
  }

  const LONG := Line([], "x", ":", seq(40, _ => 'a'))
  const PADDED := Request("POST", "/", "HTTP/1.1", [LONG, TYPE, LENGTH], "abc")

  lemma PaddedType()
    ensures PADDED.Valid()
    ensures KeptAfter(INITIAL.kept, PADDED) == Kept(Span(74, 3), false)
  {
    hide Request.Valid, HeadersOf, OwnContentType, LinesText, Closes, Line.Text, Line.Valid, Line.AsHeader;
    PaddedLines();
    PaddedHeaders(17);
    PlainPostIsValid(PADDED.lines);
    assert PADDED.Headers() == HeadersOf(PADDED.lines, 17);
    assert KeptAfter(INITIAL.kept, PADDED) == AfterHeaders(INITIAL.kept, HeadersOf(PADDED.lines, 17));
  }

  lemma PaddedLines()
    ensures forall i :: 0 <= i < 3 ==> PADDED.lines[i].Valid()
    ensures |LinesText(PADDED.lines)| < 200
  {
    hide LinesText, Line.Valid, EditedLines, HeadersOf;
    LinesAreValid();
    LongIsValid();
    OneLine(LONG, 0);
    NextLine([LONG], TYPE, 0);
    NextLine([LONG, TYPE], LENGTH, 0);
    assert [LONG] + [TYPE] == [LONG, TYPE];
    assert PADDED.lines == [LONG, TYPE] + [LENGTH];
  }

  lemma LongIsValid()
    ensures LONG.Valid()
  {
    assert ":"[0] == ':';
  }

  lemma PaddedHeaders(at: nat)
    ensures OwnContentType(HeadersOf(PADDED.lines, at)) == Some(Span(at + 57, 3))
    ensures !Closes(HeadersOf(PADDED.lines, at))
  {
    hide Closes, OwnContentType, HeadersOf, LinesText, EditedLines, Line.Text, Line.AsHeader;
    var third := LENGTH.AsHeader(at + |LinesText([LONG, TYPE])|);
    PlainHeader(LONG, at);
    PlainHeader(TYPE, at + 44);
    PlainHeader(LENGTH, at + |LinesText([LONG, TYPE])|);
    OneLine(LONG, at);
    NextLine([LONG], TYPE, at);
    NextLine([LONG, TYPE], LENGTH, at);
    assert [LONG] + [TYPE] == [LONG, TYPE];
    assert PADDED.lines == [LONG, TYPE] + [LENGTH];
    LongLength();
    var first, second := LONG.AsHeader(at), TYPE.AsHeader(at + 44);
    NextType([first], second);
    assert [first] + [second] == [first, second];
    NextType([first, second], third);
    assert HeadersOf(PADDED.lines, at) == [first, second, third];
    assert |first.name| == 1 && |second.name| == 12 && |third.name| == 14 && |"connection"| == 10;
    NoneIsConnection([first, second, third]);
  }

  lemma LongLength()
    ensures |LONG.Text()| == 44
  {
  }

  lemma NoneIsConnection(headers: seq<Header>)
    requires forall i :: 0 <= i < |headers| ==> headers[i].name != "connection"
    ensures !Closes(headers)
  {
  }

  /** What the first piece of two causes, when the stream is cut between two requests. */
  lemma CutBetween(front: seq<Request>, back: seq<Request>)
    requires AllValid(front) && AllValid(back)
    ensures WellBehaved(SessionAnswer)
    ensures Join([RequestsText(front), RequestsText(back)]) == RequestsText(front) + RequestsText(back)
    ensures Calls(INITIAL.kept, front)
         <= FeedAll(SessionAnswer, INITIAL, [RequestsText(front), RequestsText(back)]).events
  {
    hide SessionAnswer, AllValid, WellBehaved, Calls, Whole, FeedAll;
    WholeIsCalls(front);
    var a, b := RequestsText(front), RequestsText(back);
    AtOnce(SessionAnswer, INITIAL, a);
    AtOnce(SessionAnswer, INITIAL, b);
    assert [a] + [b] == [a, b];
    JoinMore([a], b);
    TcpServer.FeedOneMore(SessionAnswer, INITIAL, [a], b);
  }

  /** One stream of three well-formed requests, cut in two ways: the responder is shown different content
      types for the second, which states none. Cut behind the second request, it is shown three characters
      of the buffer's memory; uncut, three characters of the third request. */
  lemma SameStreamOtherCalls() returns (cut: seq<string>, uncut: seq<string>)
    ensures WellBehaved(SessionAnswer)
    ensures AllValid([PADDED, UNTYPED, UNTYPED])
    ensures Join(cut) == Join(uncut) == PADDED.Text() + UNTYPED.Text() + UNTYPED.Text()
    ensures var here := FeedAll(SessionAnswer, INITIAL, cut).events;
            |here| > 1 && here[1] == Post(Own("/"), Stray("", 3), "abc")
    ensures var there := FeedAll(SessionAnswer, INITIAL, uncut).events;
            |there| > 1 && there[1] == Post(Own("/"), Stray("\n\r\n", 0), "abc")
  {
    hide SessionAnswer, WellBehaved, Request.Valid, Request.Text, Request.Edited, KeptAfter, CallOf, FeedAll, Whole;
    PaddedType();
    BothValid();
    ThreeTexts();
    var p, u := PADDED.Text(), UNTYPED.Text();
    cut, uncut := [p + u, u], [p + u + u];
    CutBetween([PADDED, UNTYPED], [UNTYPED]);
    WholeIsCalls([PADDED, UNTYPED, UNTYPED]);
    AtOnce(SessionAnswer, INITIAL, p + u + u);
    UntypedIsShown();
    SecondCall([]);
    SecondCall([UNTYPED]);
  }

  lemma ThreeTexts()
    ensures RequestsText([UNTYPED]) == UNTYPED.Text()
    ensures RequestsText([PADDED, UNTYPED]) == PADDED.Text() + UNTYPED.Text()
    ensures RequestsText([PADDED, UNTYPED, UNTYPED]) == PADDED.Text() + UNTYPED.Text() + UNTYPED.Text()
  {
    hide Request.Text;
    var p, u := PADDED, UNTYPED;
    assert [u][1..] == [] && [p, u][1..] == [u] && [p, u, u][1..] == [u, u] && [u, u][1..] == [u];
    assert RequestsText([u]) == u.Text() + [] == u.Text();
    assert RequestsText([u, u]) == u.Text() + RequestsText([u]);
    JoinedThree(p.Text(), u.Text(), u.Text());
  }

  lemma SecondCall(more: seq<Request>)
    requires KeptAfter(INITIAL.kept, PADDED) == Kept(Span(74, 3), false)
    ensures var calls := Calls(INITIAL.kept, [PADDED, UNTYPED] + more);
            |calls| > 1 && calls[1] == CallOf(Kept(Span(74, 3), false), UNTYPED, RequestsText(more))
  {
    hide CallOf, KeptAfter, RequestsText;
    var all := [PADDED, UNTYPED] + more;
    assert all[1..] == [UNTYPED] + more && ([UNTYPED] + more)[1..] == more;
  }

  lemma UntypedIsShown()
    ensures CallOf(Kept(Span(74, 3), false), UNTYPED, []) == Post(Own("/"), Stray("", 3), "abc")
    ensures CallOf(Kept(Span(74, 3), false), UNTYPED, UNTYPED.Text()) == Post(Own("/"), Stray("\n\r\n", 0), "abc")
  {
    hide Request.Text, LinesText, LastType, EditedLines;
    BothLines();
    UntypedText();
    var text := UNTYPED.Text();
    assert (text + text)[74..77] == text[34..37];
    assert text + [] == text;
  }
}
