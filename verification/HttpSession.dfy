/**
  The HTTP server's side of one connection: the header parser, and the session that turns the unread
  bytes into calls of the user's GET and POST responders. `Respond` says what a session does with any
  bytes at all, well formed or not; the class does the same with loops, offsets kept between calls,
  and header names lower-cased in place.
 */
module HttpSession {
  import opened Decimal
  import Machine
  import opened HttpScan
  import opened Responder
  import opened Texts

  datatype RequestType = Uninvestigated | GetRequest | PostRequest | WeirdRequest

  /** A place in the message: where it starts and how long it is. */
  datatype Span = Span(start: nat, length: nat)

  /** What the session passes to its responders. A place that reaches past the end of the request is `Stray`:
      `inside` are the characters there, as far as there are unread bytes; behind these it shows `outside`
      characters more, which are whatever the buffer's memory holds. */
  datatype Text = Own(text: string) | Stray(inside: string, outside: nat)

  datatype Event =
    | Get(path: Text)
    | Post(path: Text, contentType: Text, body: seq<char>)
    | NotImplemented

  /** The fields that no reset touches: they outlive the request that set them. */
  datatype Kept = Kept(contentType: Span, closing: bool)

  type Positive = n: nat | n > 0 witness 1

  datatype SessionState =
    | Fresh(kept: Kept)
    | AwaitingBody(kept: Kept, head: Positive, size: nat, path: Span)

  const INITIAL := Fresh(Kept(Span(0, 0), false))

  function FindSpace(line: string, from: nat): (i: nat)
    ensures from <= i && (from <= |line| ==> i <= |line|) && (from > |line| ==> i == from)
    ensures i < |line| ==> line[i] == ' '
    ensures forall j :: from <= j < i && j < |line| ==> line[j] != ' '
    decreases |line| - from
  {
    if from < |line| && line[from] != ' ' then FindSpace(line, from + 1) else from
  }

  datatype RequestLine = RequestLine(requestType: RequestType, path: Span)

  /** The request line. A line with fewer than two spaces makes `substr` throw. */
  function ReadFirstLine(line: string): Option<RequestLine> {
    var separator1 := FindSpace(line, 0);
    var separator2 := FindSpace(line, separator1 + 1);
    if separator2 >= |line| then
      None
    else
      var methodName := line[..separator1];
      var protocol := line[separator2 + 1..];
      var requestType :=
        if protocol != "HTTP/1.1" && protocol != "HTTP/1.0" then WeirdRequest
        else if methodName == "GET" then GetRequest
        else if methodName == "POST" then PostRequest
        else WeirdRequest;
      Some(RequestLine(requestType, Span(separator1 + 1, separator2 - separator1 - 1)))
  }

  function Verdict(scan: Scan): Reaction {
    if !scan.phase.FirstLine? && ReadFirstLine(scan.line).None? then Thrown
    else if scan.phase.Done? then Ok
    else if scan.phase.Refused? then Disconnect
    else ReadOn
  }

  /** The place of the last Content-Type. */
  function OwnContentType(headers: seq<Header>): Option<Span> {
    if headers == [] then None
    else
      var last := headers[|headers| - 1];
      if last.name == "content-type" then Some(Span(last.start, |last.value|))
      else OwnContentType(headers[..|headers| - 1])
  }

  predicate Closes(headers: seq<Header>) {
    exists i :: 0 <= i < |headers| && headers[i].name == "connection" && headers[i].value == "close"
  }

  /** What the headers leave in the fields that are never reset. */
  function AfterHeaders(kept: Kept, headers: seq<Header>): Kept {
    var own := OwnContentType(headers);
    Kept(if own.Some? then own.value else kept.contentType, kept.closing || Closes(headers))
  }

  /** What is shown of a place in the unread bytes, by a request that ends at `end`. */
  function View(window: seq<char>, place: Span, end: nat): (r: Text)
    requires end <= |window|
    ensures r.Own? <==> place.length == 0 || place.start + place.length <= end
    ensures r.Own? ==> |r.text| == place.length
    ensures r.Stray? ==> |r.inside| + r.outside == place.length
    ensures r.Stray? ==> (r.outside == 0 <==> place.start + place.length <= |window|)
  {
    var stop := place.start + place.length;
    if place.length == 0 then Own("")
    else if stop <= end then Own(window[place.start..stop])
    else
      var inside := window[Min(place.start, |window|)..Min(stop, |window|)];
      Stray(inside, place.length - |inside|)
  }

  /** Whatever the place, the characters that stand there are shown, and as many unknown ones as there are no more. */
  lemma ShowsWhatStands(window: seq<char>, place: Span, end: nat)
    requires end <= |window|
    ensures match View(window, place, end)
            case Own(text) =>
              |text| == place.length && forall k :: 0 <= k < |text| ==> text[k] == window[place.start + k]
            case Stray(inside, outside) =>
              && |inside| + outside == place.length && (outside > 0 ==> place.start + |inside| >= |window|)
              && forall k :: 0 <= k < |inside| && place.start + k < |window| ==> inside[k] == window[place.start + k]
  {
  }

  /** What follows once the head of a request is known. A negative size, or one past the range of `int`,
      leaves the defined behaviour of the program; the model stops there, as it does on an exception. */
  function Proceed(kept: Kept, requestType: RequestType, head: Positive, size: int, path: Span, window: seq<char>)
      : (answer: Answer<SessionState, Event>)
    requires requestType != PostRequest ==> head <= |window|
  {
    var stop := Answer(Disconnect, 0, Fresh(kept), window, []);
    if requestType != PostRequest then
      var event := if requestType == GetRequest then Get(View(window, path, head)) else NotImplemented;
      Answer(if kept.closing then Disconnect else Ok, head, Fresh(kept), window, [event])
    else if size == -1 then
      stop
    else if size < 0 || head + size > INT_MAX then
      stop.(reaction := Thrown)
    else if |window| < head + size then
      Answer(ReadOn, 0, AwaitingBody(kept, head, size, path), window, [])
    else
      var event := Post(View(window, path, head + size), View(window, kept.contentType, head + size),
                        window[head..head + size]);
      Answer(if kept.closing then Disconnect else Ok, head + size, Fresh(kept), window, [event])
  }

  function SessionAnswer(state: SessionState, window: seq<char>): Answer<SessionState, Event> {
    match state
    case AwaitingBody(kept, head, size, path) =>
      Proceed(kept, PostRequest, head, size, path, window)
    case Fresh(kept) =>
      var scan := Run(START, window);
      var edited := Lowered(START, window);
      var kept' := AfterHeaders(kept, scan.headers);
      var verdict := Verdict(scan);
      if verdict == Ok then
        PrefixLaw(window, []);
        var first := ReadFirstLine(scan.line).value;
        Proceed(kept', first.requestType, scan.position, BodySize(scan.headers), first.path, edited)
      else
        Answer(verdict, 0, Fresh(kept'), edited, [])
  }

  class Session {
    var parsePosition: nat
    var bodySize: int
    var requestType: RequestType
    var path: Span
    var contentType: Span
    var closing: bool
    // The headers passed to `headerReader` since the last reset, and what that reset left standing.
    ghost var reported: seq<Header>
    ghost var base: Kept

    /** The fields hold what reading `headers` leaves in them. */
    ghost predicate HasRead(headers: seq<Header>)
      reads `bodySize, `contentType, `closing, `reported, `base
    {
      && bodySize == BodySize(headers)
      && Kept(contentType, closing) == AfterHeaders(base, headers)
      && reported == Reported(headers)
    }

    ghost predicate HasReadLine(line: string)
      reads `requestType, `path
    {
      ReadFirstLine(line) == Some(RequestLine(requestType, path))
    }

    /** Parsing can begin, or go on, with the input `s`: what precedes `parsePosition` was read and edited before. */
    ghost predicate Resumable(s: seq<char>)
      reads this
    {
      && parsePosition <= |s|
      && var scan := Run(START, s[..parsePosition]);
         && HasRead(scan.headers)
         && Lowered(START, s[..parsePosition]) == s[..parsePosition]
         && (parsePosition > 0 ==> scan.phase.LineStart? && HasReadLine(scan.line))
    }

    /** The parser ran out of input `s`: it can go on with anything longer. The parser may already have
        stepped over the line feed that is still to come. */
    ghost predicate Paused(s: seq<char>)
      reads this
    {
      if parsePosition <= |s| then
        Resumable(s)
      else
        && parsePosition == |s| + 1
        && var scan := Run(START, s);
           && HasRead(scan.headers)
           && Lowered(START, s) == s
           && scan.phase.LineFeed? && HasReadLine(scan.line)
    }

    lemma PausedResumes(s: seq<char>, more: seq<char>)
      requires Paused(s) && more != []
      ensures Resumable(s + more)
    {
      hide Machine.Run, Machine.Rewritten;
      if parsePosition <= |s| {
        assert (s + more)[..parsePosition] == s[..parsePosition];
      } else {
        assert (s + more)[..|s|] == s;
        assert (s + more)[..parsePosition][..|s|] == s;
        RunSnoc(START, s + more, |s|);
      }
    }

    method FirstLineReader(line: string) returns (thrown: bool)
      modifies this`requestType, this`path
      ensures thrown == ReadFirstLine(line).None?
      ensures !thrown ==> HasReadLine(line)
    {
      var separator1 := 0;
      while separator1 < |line| && line[separator1] != ' '
        invariant separator1 <= |line| && FindSpace(line, 0) == FindSpace(line, separator1)
      {
        separator1 := separator1 + 1;
      }
      var methodName := line[..separator1];
      if methodName == "GET" {
        requestType := GetRequest;
      } else if methodName == "POST" {
        requestType := PostRequest;
      } else {
        requestType := WeirdRequest;
      }
      ghost var from := separator1 + 1;
      var separator2 := separator1 + 1;
      while separator2 < |line| && line[separator2] != ' '
        invariant from <= separator2 && FindSpace(line, from) == FindSpace(line, separator2)
        invariant from <= |line| ==> separator2 <= |line|
      {
        separator2 := separator2 + 1;
      }
      path := Span(separator1 + 1, separator2 - separator1 - 1);
      if separator2 + 1 > |line| {
        return true;
      }
      var protocol := line[separator2 + 1..];
      if protocol != "HTTP/1.1" && protocol != "HTTP/1.0" {
        requestType := WeirdRequest;
      }
      thrown := false;
    }

    method HeaderReader(name: string, value: string, location: Span)
      requires location.length == |value|
      modifies this`contentType, this`closing, this`reported
      ensures reported == old(reported) + [Header(name, value, location.start)]
      ensures contentType == if name == "content-type" then location else old(contentType)
      ensures closing == (old(closing) || (name == "connection" && value == "close"))
    {
      reported := reported + [Header(name, value, location.start)];
      if name == "content-type" {
        contentType := location;
      } else if name == "connection" {
        if value == "close" {
          closing := true;
        }
      }
    }

    /** One header line is complete. */
    method UseHeader(name: string, value: string, start: nat, ghost before: seq<Header>)
      requires HasRead(before)
      modifies this`bodySize, this`contentType, this`closing, this`reported
      ensures HasRead(before + [Header(name, value, start)])
    {
      ghost var after := before + [Header(name, value, start)];
      assert after[..|before|] == before;
      if name == "content-length" {
        var parsed := FromChars(value, INT_MIN, INT_MAX);
        if parsed.value.Some? {
          bodySize := parsed.value.value;
        }
      } else {
        HeaderReader(name, value, Span(start, |value|));
      }
    }

    /** While the parser stands at `position` of the message `s`, the characters before it are edited. */
    ghost predicate Shows(input: array<char>, s: seq<char>, position: nat)
      reads input
    {
      && position <= |s| == input.Length
      && input[..] == Lowered(START, s[..position]) + s[position..]
    }

    lemma ShowsNext(input: array<char>, s: seq<char>, position: nat)
      requires Shows(input, s, position) && position < |s|
      ensures input[position] == s[position]
      ensures Run(START, s[..position + 1]) == Step(Run(START, s[..position]), s[position])
      ensures Edit(Run(START, s[..position]), s[position]) == s[position] ==> Shows(input, s, position + 1)
      ensures input[..][position := Edit(Run(START, s[..position]), s[position])]
           == Lowered(START, s[..position + 1]) + s[position + 1..]
    {
      RunSnoc(START, s, position);
    }

    /** The phase in which the name read so far is `name`, and the character `c` belongs to it or ends it. */
    static predicate InName(phase: Phase, name: string, c: char) {
      || phase == Name(name)
      || (name == [] && !IsBlank(c) && (phase.Indent? || (phase.LineStart? && c != '\r')))
    }

    /** `scan` is where the parser stands, inside the line that began at `before`. */
    ghost predicate InLine(before: Scan, scan: Scan, s: seq<char>, position: nat) {
      && position <= |s|
      && scan == Run(START, s[..position])
      && scan.headers == before.headers && scan.line == before.line
      && !Decided(scan.phase) && !scan.phase.FirstLine?
    }

    /** Skips the blanks at the start of a line. */
    method SkipBlanks(input: array<char>, from: nat, ghost s: seq<char>, ghost before: Scan)
        returns (position: nat, ghost scan: Scan)
      requires Shows(input, s, from) && from < |s| && s[from] != '\r'
      requires before == Run(START, s[..from]) && before.phase.LineStart?
      ensures from <= position && Shows(input, s, position) && InLine(before, scan, s, position)
      ensures position < |s| ==> InName(scan.phase, [], s[position])
    {
      hide Machine.Run, Machine.Rewritten;
      position, scan := from, before;
      while position < input.Length
        invariant from <= position && Shows(input, s, position) && InLine(before, scan, s, position)
        invariant if position == from then scan.phase.LineStart? else scan.phase.Indent?
      {
        ShowsNext(input, s, position);
        if input[position] != ' ' && input[position] != '\t' {
          break;
        }
        scan := Step(scan, s[position]);
        position := position + 1;
      }
    }

    /** Goes through a header's name, lower-casing it in place. */
    method ReadName(input: array<char>, start: nat, ghost s: seq<char>, ghost before: Scan, ghost from: Scan)
        returns (position: nat, attributeName: string, ghost scan: Scan)
      requires Shows(input, s, start) && InLine(before, from, s, start)
      requires start < |s| && InName(from.phase, [], s[start])
      modifies input
      ensures start <= position && Shows(input, s, position) && InLine(before, scan, s, position)
      ensures position < |s| ==> InName(scan.phase, attributeName, s[position])
                                 && (IsBlank(s[position]) || s[position] == ':')
    {
      hide Machine.Run, Machine.Rewritten;
      position, attributeName, scan := start, [], from;
      ghost var name: string := [];
      while position < input.Length
        invariant start <= position && Shows(input, s, position) && InLine(before, scan, s, position)
        invariant name == input[start..position]
        invariant if position < |s| then InName(scan.phase, name, s[position]) else scan.phase.Name?
      {
        ShowsNext(input, s, position);
        if input[position] == ' ' || input[position] == '\t' || input[position] == ':' {
          attributeName := input[start..position];
          break;
        }
        if input[position] <= 'Z' && input[position] >= 'A' {
          input[position] := (input[position] as int + ('a' as int - 'A' as int)) as char;
        }
        name := name + [Lower(s[position])];
        scan := Step(scan, s[position]);
        position := position + 1;
      }
    }

    /** Looks for the value behind a header's name. */
    method FindValue(input: array<char>, start: nat, ghost s: seq<char>, ghost before: Scan, ghost from: Scan,
                     ghost name: string)
        returns (position: nat, colonFound: bool, ghost scan: Scan)
      requires Shows(input, s, start) && InLine(before, from, s, start)
      requires start < |s| && InName(from.phase, name, s[start]) && (IsBlank(s[start]) || s[start] == ':')
      ensures start < position && Shows(input, s, position) && InLine(before, scan, s, position)
      ensures scan.phase == Separator(name, colonFound)
      ensures position < |s| ==> !IsBlank(s[position]) && s[position] != ':'
    {
      hide Machine.Run, Machine.Rewritten;
      position, colonFound, scan := start, false, from;
      while position < input.Length
        invariant start <= position && Shows(input, s, position) && InLine(before, scan, s, position)
        invariant if position == start then scan == from && !colonFound else scan.phase == Separator(name, colonFound)
      {
        ShowsNext(input, s, position);
        if input[position] == ':' {
          colonFound := true;
        }
        if input[position] != ' ' && input[position] != '\t' && input[position] != ':' {
          break;
        }
        scan := Step(scan, s[position]);
        position := position + 1;
      }
    }

    /** `value` was read so far of the value that starts at `start`. */
    static predicate InValue(scan: Scan, name: string, start: nat, value: string) {
      || scan.phase == Value(name, start, value)
      || (value == [] && scan.position == start && scan.phase == Separator(name, true))
    }

    /** Finds the end of a header's value. */
    method ReadValue(input: array<char>, start: nat, ghost s: seq<char>, ghost before: Scan, ghost from: Scan,
                     ghost name: string)
        returns (position: nat, attributeValue: string, ghost scan: Scan)
      requires Shows(input, s, start) && InLine(before, from, s, start)
      requires start < |s| && from.phase == Separator(name, true) && !IsBlank(s[start]) && s[start] != ':'
      ensures start <= position && Shows(input, s, position) && InLine(before, scan, s, position)
      ensures position < |s| ==> s[position] == '\r' && InValue(scan, name, start, attributeValue)
    {
      hide Machine.Run, Machine.Rewritten;
      position, attributeValue, scan := start, [], from;
      ghost var value: string := [];
      assert s[..start] == s[0..start];
      ScanProgress(START, s[..start]);
      while position < input.Length
        invariant start <= position == scan.position && Shows(input, s, position) && InLine(before, scan, s, position)
        invariant value == input[start..position]
        invariant InValue(scan, name, start, value)
      {
        ShowsNext(input, s, position);
        if input[position] == '\r' {
          attributeValue := input[start..position];
          break;
        }
        value := value + [s[position]];
        scan := Step(scan, s[position]);
        position := position + 1;
      }
    }

    /** The parser stands at the start of a header line, in the message `s`. */
    ghost predicate AtLine(input: array<char>, s: seq<char>)
      reads this, input
    {
      && parsePosition < |s| && Shows(input, s, parsePosition)
      && var scan := Run(START, s[..parsePosition]);
         scan.phase.LineStart? && HasRead(scan.headers) && HasReadLine(scan.line)
    }

    /** The end of the input was reached inside a header line. */
    lemma PausedInLine(input: array<char>, s: seq<char>, scan: Scan)
      requires parsePosition < |s| && Shows(input, s, |s|)
      requires var before := Run(START, s[..parsePosition]);
               before.phase.LineStart? && HasRead(before.headers) && HasReadLine(before.line)
               && InLine(before, scan, s, |s|)
      ensures StoppedAt(input, s, ReadOn)
    {
      hide Machine.Run, Machine.Rewritten;
      assert s[..|s|] == s;
      DecidedEarly(s, parsePosition);
      EditedReadsTheSame(START, s[..parsePosition]);
      assert input[..][..parsePosition] == Lowered(START, s[..parsePosition]);
    }

    /** What the parser leaves when it returns `reaction` on the message `s`. */
    ghost predicate StoppedAt(input: array<char>, s: seq<char>, reaction: Reaction)
      reads this, input
    {
      && reaction == Verdict(Run(START, s))
      && (reaction != Thrown ==> input[..] == Lowered(START, s) && HasRead(Run(START, s).headers))
      && (reaction == ReadOn ==> Paused(input[..]))
      && (reaction == Ok ==> HasReadLine(Run(START, s).line) && parsePosition == Run(START, s).position)
    }

    lemma ShowsAll(input: array<char>, s: seq<char>, position: nat)
      requires Shows(input, s, position)
      requires position == |s| || Decided(Run(START, s[..position]).phase)
      ensures input[..] == Lowered(START, s)
    {
      assert s[..|s|] == s;
      DecidedEarly(s, position);
      if Decided(Run(START, s[..position]).phase) {
        DecidedStays(Run(START, s[..position]), s[position..]);
      }
    }

    /** Uses a complete header line, and steps over its line end. */
    method FinishLine(input: array<char>, ghost s: seq<char>, ghost before: Scan, ghost scan: Scan, at: nat,
                      name: string, start: nat, value: string)
        returns (done: bool, position: nat)
      requires Shows(input, s, at) && InLine(before, scan, s, at) && at < |s|
      requires s[at] == '\r' && InValue(scan, name, start, value)
      requires HasRead(before.headers) && HasReadLine(before.line)
      modifies this`parsePosition, this`bodySize, this`contentType, this`closing, this`reported
      ensures done ==> StoppedAt(input, s, ReadOn)
      ensures !done ==> AtLine(input, s) && position == parsePosition == at + 2
    {
      hide Step, Machine.Run, Machine.Rewritten, StoppedAt, HasRead, HasReadLine;
      UseHeader(name, value, start, before.headers);
      LineEnds(input, s, before, scan, at, name, start, value);
      position := at + 2;
      parsePosition := position;
      done := position >= input.Length;
      if done {
        assert s[..|s|] == s;
        PausedBehindLine(input, s);
      }
    }

    /** The input ended behind a line, or behind its carriage return. */
    lemma PausedBehindLine(input: array<char>, s: seq<char>)
      requires Shows(input, s, |s|)
      requires var after := Run(START, s);
               && HasRead(after.headers) && HasReadLine(after.line) && parsePosition > 0
               && if after.phase.LineFeed? then parsePosition == |s| + 1
                  else after.phase.LineStart? && parsePosition == |s|
      ensures StoppedAt(input, s, ReadOn)
    {
      hide Machine.Run, Machine.Rewritten, HasRead, Step;
      assert s[..|s|] == s;
      EditedReadsTheSame(START, s);
      assert input[..] == Lowered(START, s);
      assert input[..][..|s|] == input[..];
    }

    /** Goes through a header line as far as the end of its name. */
    method FindName(input: array<char>, ghost s: seq<char>, ghost before: Scan)
        returns (position: nat, attributeName: string, ghost scan: Scan)
      requires AtLine(input, s) && s[parsePosition] != '\r' && before == Run(START, s[..parsePosition])
      modifies input
      ensures parsePosition <= position && Shows(input, s, position) && InLine(before, scan, s, position)
      ensures position < |s| ==> InName(scan.phase, attributeName, s[position])
                                 && (IsBlank(s[position]) || s[position] == ':')
    {
      hide Machine.Run, Machine.Rewritten;
      attributeName := [];
      position, scan := SkipBlanks(input, parsePosition, s, before);
      if position < input.Length {
        position, attributeName, scan := ReadName(input, position, s, before, scan);
      }
    }

    /** Goes on to the start of the value; without a colon on the way there is none. */
    method FindHeader(input: array<char>, ghost s: seq<char>, ghost before: Scan)
        returns (done: bool, reaction: Reaction, position: nat, attributeName: string, ghost scan: Scan)
      requires AtLine(input, s) && s[parsePosition] != '\r' && before == Run(START, s[..parsePosition])
      modifies input
      ensures done ==> StoppedAt(input, s, reaction) && reaction != Ok
      ensures !done ==> parsePosition <= position < |s| && Shows(input, s, position)
      ensures !done ==> InLine(before, scan, s, position)
      ensures !done ==> scan.phase == Separator(attributeName, true) && !IsBlank(s[position]) && s[position] != ':'
    {
      hide Machine.Run, Machine.Rewritten;
      done, reaction := true, ReadOn;
      position, attributeName, scan := FindName(input, s, before);
      var colonFound := false;
      if position < input.Length {
        position, colonFound, scan := FindValue(input, position, s, before, scan, attributeName);
      }
      if position >= input.Length {
        PausedInLine(input, s, scan);
        return;
      }
      if !colonFound {
        reaction := Disconnect;
        StoppedInLine(input, s, before, scan, position);
        return;
      }
      done := false;
    }

    /** One header line: `done` says that the parser stopped in it, and with what reaction. */
    method ReadHeaderLine(input: array<char>, ghost s: seq<char>)
        returns (done: bool, reaction: Reaction, position: nat)
      requires AtLine(input, s) && s[parsePosition] != '\r'
      modifies this`parsePosition, this`bodySize, this`contentType, this`closing, this`reported, input
      ensures done ==> StoppedAt(input, s, reaction) && reaction != Ok
      ensures !done ==> AtLine(input, s) && position == parsePosition > old(parsePosition)
    {
      hide Machine.Run, Machine.Rewritten;
      ghost var before := Run(START, s[..parsePosition]);
      ghost var scan;
      var attributeName, attributeValue;
      done, reaction, position, attributeName, scan := FindHeader(input, s, before);
      if done {
        return;
      }
      var attributeValueStart := position;
      position, attributeValue, scan := ReadValue(input, position, s, before, scan, attributeName);
      if position >= input.Length {
        PausedInLine(input, s, scan);
        return true, ReadOn, position;
      }
      reaction := ReadOn;
      done, position := FinishLine(input, s, before, scan, position, attributeName, attributeValueStart,
          attributeValue);
    }

    /** A value's carriage return, and the character after it, whatever it is, end a header line. */
    lemma LineEnds(input: array<char>, s: seq<char>, before: Scan, scan: Scan, position: nat,
                   name: string, start: nat, value: string)
      requires Shows(input, s, position) && InLine(before, scan, s, position) && position < |s|
      requires s[position] == '\r' && InValue(scan, name, start, value)
      ensures var after := Run(START, s[..position + 1]);
              && after.phase.LineFeed? && after.headers == before.headers + [Header(name, value, start)]
              && after.line == before.line && Shows(input, s, position + 1)
      ensures position + 1 < |s| ==>
                var after := Run(START, s[..position + 2]);
                && after.phase.LineStart? && after.headers == before.headers + [Header(name, value, start)]
                && after.line == before.line && Shows(input, s, position + 2)
    {
      hide Machine.Run, Machine.Rewritten;
      ScanProgress(START, s[..position]);
      ShowsNext(input, s, position);
      if position + 1 < |s| {
        ShowsNext(input, s, position + 1);
      }
    }

    lemma StoppedInLine(input: array<char>, s: seq<char>, before: Scan, scan: Scan, position: nat)
      requires Shows(input, s, position) && InLine(before, scan, s, position) && position < |s|
      requires Step(scan, s[position]) == scan.(phase := Refused)
      requires HasRead(before.headers) && HasReadLine(before.line)
      ensures StoppedAt(input, s, Disconnect)
    {
      hide Machine.Run, Machine.Rewritten;
      ShowsNext(input, s, position);
      ShowsAll(input, s, position + 1);
      DecidedEarly(s, position + 1);
    }

    /** Looks for the end of the request line. */
    method FindLineEnd(input: array<char>, ghost s: seq<char>) returns (position: nat)
      requires s == input[..]
      ensures position <= |s| && Shows(input, s, position)
      ensures Run(START, s[..position]) == Scan(FirstLine, position, s[..position], [])
      ensures position < |s| ==> s[position] == '\r'
    {
      hide Machine.Run, Machine.Rewritten;
      NothingRead(START);
      assert s[..0] == [] && s[0..] == s;
      position := 0;
      while position < input.Length && input[position] != '\r'
        invariant position <= |s| && Shows(input, s, position)
        invariant Run(START, s[..position]) == Scan(FirstLine, position, s[..position], [])
      {
        ShowsNext(input, s, position);
        assert s[..position + 1] == s[..position] + [s[position]];
        position := position + 1;
      }
    }

    /** The request line. On success the parser stands behind it. */
    method ReadRequestLine(input: array<char>, ghost s: seq<char>) returns (done: bool, reaction: Reaction)
      requires parsePosition == 0 && Resumable(input[..]) && s == input[..]
      modifies this`parsePosition, this`requestType, this`path
      ensures done ==> StoppedAt(input, s, reaction) && reaction != Ok
      ensures !done ==> AtLine(input, s)
    {
      hide Machine.Run, Machine.Rewritten;
      var position := FindLineEnd(input, s);
      done, reaction := true, ReadOn;
      if position == input.Length {
        NoLineYet(input, s);
        return;
      }
      LineIsRead(input, s, position);
      NothingRead(START);
      assert s[..0] == [];
      var thrown := FirstLineReader(input[..position]);
      if thrown {
        reaction := Thrown;
        return;
      }
      done, reaction := StepOverLineFeed(input, s, position + 1);
    }

    /** The line feed behind the request line, and the first look at what follows it. */
    method StepOverLineFeed(input: array<char>, ghost s: seq<char>, at: nat) returns (done: bool, reaction: Reaction)
      requires parsePosition == 0 && 0 < at <= |s| == input.Length && s == input[..]
      requires HasRead([])
      requires Run(START, s[..at]) == Scan(FirstLineFeed, at, s[..at - 1], []) && Shows(input, s, at)
      requires HasReadLine(s[..at - 1])
      modifies this`parsePosition
      ensures done ==> StoppedAt(input, s, reaction) && reaction != Ok
      ensures !done ==> AtLine(input, s)
    {
      hide Machine.Run, Machine.Rewritten;
      done, reaction := true, ReadOn;
      NothingRead(START);
      assert s[..0] == input[..][..0] == Lowered(START, s)[..0] == [];
      if at == input.Length {
        assert s[..|s|] == s;
        return;
      }
      ShowsNext(input, s, at);
      DecidedEarly(s, at + 1);
      if input[at] != '\n' {
        reaction := Disconnect;
        ShowsAll(input, s, at + 1);
        return;
      }
      parsePosition := at + 1;
      if parsePosition == input.Length {
        assert s[..|s|] == s;
        PausedBehindLine(input, s);
        return;
      }
      done := false;
    }

    lemma NoLineYet(input: array<char>, s: seq<char>)
      requires Resumable(s) && parsePosition == 0 && Shows(input, s, |s|) && s == input[..]
      requires Run(START, s[..|s|]) == Scan(FirstLine, |s|, s, [])
      ensures StoppedAt(input, s, ReadOn)
    {
      assert s[..|s|] == s;
    }

    lemma LineIsRead(input: array<char>, s: seq<char>, position: nat)
      requires Shows(input, s, position) && position < |s| && s[position] == '\r'
      requires Run(START, s[..position]) == Scan(FirstLine, position, s[..position], [])
      ensures Shows(input, s, position + 1)
      ensures Run(START, s[..position + 1]) == Scan(FirstLineFeed, position + 1, s[..position], [])
      ensures Run(START, s).line == s[..position] && !Run(START, s).phase.FirstLine?
    {
      hide Machine.Run, Machine.Rewritten;
      ShowsNext(input, s, position);
      DecidedEarly(s, position + 1);
      ScanProgress(Run(START, s[..position + 1]), s[position + 1..]);
    }

    /** Parses the header block as far as the input goes, from where it stopped the last time. */
    method Parse(input: array<char>) returns (reaction: Reaction, at: nat)
      requires Resumable(input[..])
      modifies this`parsePosition, this`bodySize, this`requestType, this`path, this`contentType, this`closing,
          this`reported, input
      ensures StoppedAt(input, old(input[..]), reaction)
      ensures reaction == Ok ==> at == parsePosition
    {
      hide Machine.Run, Machine.Rewritten;
      ghost var s := input[..];
      at := 0;
      var done;
      if parsePosition == 0 {
        done, reaction := ReadRequestLine(input, s);
        if done {
          return;
        }
      } else if parsePosition == input.Length {
        assert s[..|s|] == s;
        return ReadOn, at;
      }
      var position := parsePosition;
      while input[position] != '\r'
        invariant AtLine(input, s) && position == parsePosition
        decreases |s| - position
      {
        done, reaction, position := ReadHeaderLine(input, s);
        if done {
          return;
        }
      }
      reaction := FinishBlock(input, s);
      at := parsePosition;
    }

    /** The empty line that ends the block. */
    method FinishBlock(input: array<char>, ghost s: seq<char>) returns (reaction: Reaction)
      requires AtLine(input, s) && s[parsePosition] == '\r'
      modifies this`parsePosition
      ensures StoppedAt(input, s, reaction)
    {
      hide Machine.Run, Machine.Rewritten;
      if parsePosition + 1 >= input.Length {
        PausedBeforeEnd(input, s);
        return ReadOn;
      }
      BlockEnds(input, s);
      if input[parsePosition + 1] != '\n' {
        return Disconnect;
      }
      parsePosition := parsePosition + 2;
      reaction := Ok;
    }

    lemma PausedBeforeEnd(input: array<char>, s: seq<char>)
      requires AtLine(input, s) && s[parsePosition] == '\r' && parsePosition + 1 == |s|
      ensures StoppedAt(input, s, ReadOn)
    {
      ShowsNext(input, s, parsePosition);
      assert s[..|s|] == s;
      PausedInLine(input, s, Run(START, s));
    }

    lemma BlockEnds(input: array<char>, s: seq<char>)
      requires AtLine(input, s) && s[parsePosition] == '\r' && parsePosition + 1 < |s|
      ensures input[..] == Lowered(START, s) && input[parsePosition + 1] == s[parsePosition + 1]
      ensures var before := Run(START, s[..parsePosition]);
              var scan := Run(START, s);
              && scan.headers == before.headers && scan.line == before.line
              && if s[parsePosition + 1] == '\n' then scan.phase == Done && scan.position == parsePosition + 2
                 else scan.phase == Refused
    {
      hide Machine.Run, Machine.Rewritten;
      ShowsNext(input, s, parsePosition);
      ShowsNext(input, s, parsePosition + 1);
      ShowsAll(input, s, parsePosition + 2);
      DecidedEarly(s, parsePosition + 2);
      ScanProgress(START, s[..parsePosition]);
    }

    /** Between two calls of `Respond`. */
    ghost predicate Valid()
      reads this
    {
      if bodySize == -1 then
        parsePosition == 0 && reported == [] && base == Kept(contentType, closing)
      else
        0 < parsePosition && 0 <= bodySize && requestType == PostRequest
    }

    ghost function State(): SessionState
      requires Valid()
      reads this
    {
      if bodySize == -1 then Fresh(base)
      else AwaitingBody(Kept(contentType, closing), parsePosition, bodySize, path)
    }

    constructor ()
      ensures Valid() && State() == INITIAL
    {
      parsePosition, bodySize := 0, -1;
      requestType, path, contentType, closing := Uninvestigated, Span(0, 0), Span(0, 0), false;
      reported, base := [], INITIAL.kept;
    }

    method Restore()
      modifies this`parsePosition, this`bodySize, this`requestType, this`reported, this`base
      ensures Valid() && State() == Fresh(Kept(contentType, closing))
    {
      parsePosition, bodySize := 0, -1;
      requestType := Uninvestigated;
      reported, base := [], Kept(contentType, closing);
    }

    /** What the session does with the unread bytes, edited where they are. */
    method Respond(input: array<char>) returns (reaction: Reaction, consuming: nat, events: seq<Event>)
      requires Valid()
      modifies this, input
      ensures var answer := SessionAnswer(old(State()), old(input[..]));
              && reaction == answer.reaction
              && events == answer.events
              && (reaction == Ok ==> consuming == answer.consumed)
              && (reaction == Ok || reaction == ReadOn ==>
                    Valid() && State() == answer.state && input[..] == answer.window)
    {
      ghost var state, s := State(), input[..];
      consuming, events := 0, [];
      if bodySize == -1 {
        NothingRead(START);
        assert s[..0] == [];
        var position;
        reaction, position := Parse(input);
        if reaction != Ok {
          Restore();
          return;
        }
        PrefixLaw(s, []);
      }
      reaction, consuming, events := Dispatch(input);
    }

    /** The part of `respond` behind the parsing of the head. */
    method Dispatch(input: array<char>) returns (reaction: Reaction, consuming: nat, events: seq<Event>)
      requires 0 < parsePosition
      requires requestType != PostRequest ==> parsePosition <= input.Length
      modifies this
      ensures var answer := Proceed(old(Kept(contentType, closing)), old(requestType), old(parsePosition),
                                    old(bodySize), old(path), input[..]);
              && reaction == answer.reaction
              && events == answer.events
              && (reaction == Ok ==> consuming == answer.consumed)
              && (reaction == Ok || reaction == ReadOn ==> Valid() && State() == answer.state)
    {
      consuming, events := 0, [];
      if requestType == PostRequest {
        if bodySize == -1 {
          return Disconnect, consuming, events;
        }
        if bodySize < 0 || parsePosition + bodySize > INT_MAX {
          return Thrown, consuming, events;
        }
      } else {
        bodySize := 0;
      }
      consuming := parsePosition + bodySize;
      if requestType == GetRequest || requestType == PostRequest {
        if requestType == PostRequest {
          if bodySize == -1 || input.Length < parsePosition + bodySize {
            return ReadOn, input.Length, events;
          }
        }
        if requestType == GetRequest {
          events := [Get(View(input[..], path, consuming))];
        } else {
          var body := input[parsePosition..parsePosition + bodySize];
          assert body == input[..][parsePosition..parsePosition + bodySize];
          events := [Post(View(input[..], path, consuming), View(input[..], contentType, consuming), body)];
        }
      } else {
        events := [NotImplemented];
      }
      Restore();
      reaction := if closing then Disconnect else Ok;
    }
  }

  lemma {:induction false} HeadersAddUp(headers: seq<Header>, more: seq<Header>)
    requires headers <= more
    ensures OwnContentType(headers).Some? ==> OwnContentType(more).Some?
    ensures Closes(headers) ==> Closes(more)
  {
    if |more| > |headers| {
      HeadersAddUp(headers, more[..|more| - 1]);
    } else {
      assert headers == more;
    }
  }

  lemma SessionAnswersWell(state: SessionState, window: seq<char>)
    requires window != []
    ensures AnswersWell(SessionAnswer, state, window)
  {
    PrefixLaw(window, []);
  }

  // What a session answers does not depend on what follows a request, but for what a stray place shows.

  function BlurredText(text: Text): Text { if text.Stray? then Stray("", 0) else text }

  /** A call, but for what stray places show. */
  function Blurred(event: Event): Event {
    match event
    case Get(path) => Get(BlurredText(path))
    case Post(path, contentType, body) => Post(BlurredText(path), BlurredText(contentType), body)
    case NotImplemented => NotImplemented
  }

  function BlurredAnswer(state: SessionState, window: seq<char>): Answer<SessionState, Event> {
    SeenAnswer(Blurred, SessionAnswer(state, window))
  }

  function BlurredProceed(kept: Kept, requestType: RequestType, head: Positive, size: int, path: Span,
                          window: seq<char>)
      : Answer<SessionState, Event>
    requires requestType != PostRequest ==> head <= |window|
  {
    SeenAnswer(Blurred, Proceed(kept, requestType, head, size, path, window))
  }

  /** Once the head is known, more bytes can only complete the body. */
  lemma ProceedLooksAgain(kept: Kept, requestType: RequestType, head: Positive, size: int, path: Span,
                          window: seq<char>, more: seq<char>)
    requires requestType != PostRequest ==> head <= |window|
    ensures var answer := BlurredProceed(kept, requestType, head, size, path, window);
            var longer := BlurredProceed(kept, requestType, head, size, path, window + more);
            && (answer.reaction == Ok || answer.events != [] ==> longer == answer.(window := answer.window + more))
            && (answer.reaction == ReadOn ==>
                  && answer.state.AwaitingBody? && answer.window == window
                  && BlurredAnswer(answer.state, window + more) == longer)
            && (answer.reaction == Disconnect || answer.reaction == Thrown ==>
                  longer.reaction == answer.reaction && longer.events == answer.events)
            && answer.reaction != WrongReply
  {
    if requestType == PostRequest && 0 <= size && head + size <= |window| {
      assert (window + more)[head..head + size] == window[head..head + size];
    }
    ViewStays(window, more, path, if requestType == PostRequest && 0 <= size then head + size else head);
    ViewStays(window, more, kept.contentType, if requestType == PostRequest && 0 <= size then head + size else head);
  }

  lemma ViewStays(window: seq<char>, more: seq<char>, place: Span, end: nat)
    ensures end <= |window| ==> BlurredText(View(window + more, place, end)) == BlurredText(View(window, place, end))
  {
    if place.start + place.length <= end <= |window| {
      assert (window + more)[place.start..place.start + place.length]
          == window[place.start..place.start + place.length];
    }
  }

  lemma DecidedHeadLooksAgain(kept: Kept, window: seq<char>, more: seq<char>)
    requires window != [] && Decided(Run(START, window).phase)
    ensures LooksAgain(BlurredAnswer, Fresh(kept), window, more)
  {
    hide Machine.Run, Machine.Rewritten, Proceed, Step, Edit, SeenEvents;
    var scan := Run(START, window);
    RunAppend(START, window, more);
    PrefixLaw(window, []);
    PrefixLaw(window, more);
    PrefixLaw(window + more, []);
    DecidedStays(scan, more);
    if Verdict(scan) == Ok {
      var first := ReadFirstLine(scan.line).value;
      var kept' := AfterHeaders(kept, scan.headers);
      var edited := Lowered(START, window);
      assert Lowered(START, window + more) == edited + more;
      ProceedLooksAgain(kept', first.requestType, scan.position, BodySize(scan.headers), first.path, edited, more);
    }
  }

  lemma OpenHeadLooksAgain(kept: Kept, window: seq<char>, more: seq<char>)
    requires window != [] && !Decided(Run(START, window).phase)
    ensures LooksAgain(BlurredAnswer, Fresh(kept), window, more)
  {
    hide Machine.Run, Machine.Rewritten, Proceed, Step, Edit, SeenEvents;
    var scan := Run(START, window);
    var longer := Run(START, window + more);
    var edited := Lowered(START, window);
    RunAppend(START, window, more);
    RunAppend(START, edited, more);
    EditedReadsTheSame(START, window);
    ScanProgress(scan, more);
    PrefixLaw(window + more, []);
    PrefixLaw(edited + more, []);
    HeadersAddUp(scan.headers, longer.headers);
    assert AfterHeaders(AfterHeaders(kept, scan.headers), longer.headers) == AfterHeaders(kept, longer.headers);
    assert Run(START, edited + more) == longer;
    assert Lowered(START, edited + more) == Lowered(START, window + more);
  }

  /** A second look, at the bytes and with the fields that the first look left, is a first look. */
  lemma SessionLooksAgain(state: SessionState, window: seq<char>, more: seq<char>)
    requires window != [] && more != []
    ensures LooksAgain(BlurredAnswer, state, window, more)
  {
    match state
    case Fresh(kept) =>
      if Decided(Run(START, window).phase) {
        DecidedHeadLooksAgain(kept, window, more);
      } else {
        OpenHeadLooksAgain(kept, window, more);
      }
    case AwaitingBody(kept, head, size, path) =>
      ProceedLooksAgain(kept, PostRequest, head, size, path, window, more);
  }

  lemma SessionIsIncremental()
    ensures WellBehaved(SessionAnswer) && Incremental(BlurredAnswer)
    ensures SeenThrough(Blurred, SessionAnswer, BlurredAnswer)
  {
    hide SessionAnswer, Blurred;
    forall state, window: seq<char> | window != []
      ensures AnswersWell(SessionAnswer, state, window) && AnswersWell(BlurredAnswer, state, window)
    {
      SessionAnswersWell(state, window);
    }
    forall state, window: seq<char>, more: seq<char> | window != [] && more != []
      ensures LooksAgain(BlurredAnswer, state, window, more)
    {
      SessionLooksAgain(state, window, more);
    }
  }
}
