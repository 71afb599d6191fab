/**
  The HTTP header block, one character at a time. `Step` is the meaning of the header parser: what
  each character does given everything before it. Reading a stream in pieces is then reading it at
  once, and the parser with its nested loops (module HttpSession) is proved to compute this.
 */
module HttpScan {
  import opened Decimal
  import opened Texts
  import Machine

  /** A header line: its lower-cased name, its value, and where the value starts in the message. */
  datatype Header = Header(name: string, value: string, start: nat)

  datatype Phase =
    | FirstLine
    | FirstLineFeed
    | LineStart
    | Indent
    | Name(name: string)
    | Separator(name: string, colon: bool)
    | Value(name: string, start: nat, value: string)
    | LineFeed
    | LastLineFeed
    | Done
    | Refused

  /** `position` characters were read (reading stops at the end of the block or at an error). */
  datatype Scan = Scan(phase: Phase, position: nat, line: string, headers: seq<Header>)

  const START := Scan(FirstLine, 0, "", [])

  predicate IsBlank(c: char) { c == ' ' || c == '\t' }

  predicate IsUpper(c: char) { 'A' <= c <= 'Z' }

  function Lower(c: char): (r: char)
    ensures !IsUpper(r)
    ensures r != c ==> IsUpper(c)
  {
    if IsUpper(c) then (c as int + 32) as char else c
  }

  function AfterName(name: string, c: char): Phase {
    if c == ':' then Separator(name, true)
    else if IsBlank(c) then Separator(name, false)
    else Name(name + [Lower(c)])
  }

  function Step(scan: Scan, c: char): Scan {
    var at := scan.position;
    var next := scan.(position := at + 1);
    match scan.phase
    case FirstLine => if c == '\r' then next.(phase := FirstLineFeed) else next.(line := scan.line + [c])
    case FirstLineFeed => if c == '\n' then next.(phase := LineStart) else scan.(phase := Refused)
    case LineStart =>
      if c == '\r' then next.(phase := LastLineFeed)
      else if IsBlank(c) then next.(phase := Indent)
      else next.(phase := AfterName([], c))
    case Indent => if IsBlank(c) then next else next.(phase := AfterName([], c))
    case Name(name) => next.(phase := AfterName(name, c))
    case Separator(name, colon) =>
      if c == ':' then next.(phase := Separator(name, true))
      else if IsBlank(c) then next
      else if !colon then scan.(phase := Refused)
      else if c == '\r' then next.(phase := LineFeed, headers := scan.headers + [Header(name, [], at)])
      else next.(phase := Value(name, at, [c]))
    case Value(name, start, value) =>
      if c == '\r' then next.(phase := LineFeed, headers := scan.headers + [Header(name, value, start)])
      else next.(phase := Value(name, start, value + [c]))
    case LineFeed => next.(phase := LineStart)
    case LastLineFeed => if c == '\n' then next.(phase := Done) else scan.(phase := Refused)
    case Done => scan
    case Refused => scan
  }

  function Run(from: Scan, s: seq<char>): Scan {
    Machine.Run(Step, from, s)
  }

  /** The characters the parser changes in place: those of header names. */
  function Edit(scan: Scan, c: char): char {
    if Step(scan, c).phase.Name? then Lower(c) else c
  }

  function Lowered(from: Scan, s: seq<char>): (r: seq<char>)
    ensures |r| == |s|
  {
    Machine.Rewritten(Step, Edit, from, s)
  }

  predicate Decided(phase: Phase) { phase.Done? || phase.Refused? }

  lemma NothingRead(from: Scan)
    ensures Run(from, []) == from && Lowered(from, []) == []
  {
  }

  lemma RunAppend(from: Scan, s: seq<char>, t: seq<char>)
    ensures Run(from, s + t) == Run(Run(from, s), t)
    ensures Lowered(from, s + t) == Lowered(from, s) + Lowered(Run(from, s), t)
  {
    Machine.Append(Step, Edit, from, s, t);
  }

  lemma RunSnoc(from: Scan, s: seq<char>, i: nat)
    requires i < |s|
    ensures Run(from, s[..i + 1]) == Step(Run(from, s[..i]), s[i])
    ensures Lowered(from, s[..i + 1]) == Lowered(from, s[..i]) + [Edit(Run(from, s[..i]), s[i])]
  {
    Machine.Snoc(Step, Edit, from, s, i);
  }

  /** A decided scan reads no further, and edits no further. */
  lemma {:induction false} DecidedStays(from: Scan, s: seq<char>)
    requires Decided(from.phase)
    ensures Run(from, s) == from
    ensures Lowered(from, s) == s
  {
    if s != [] {
      DecidedStays(from, s[..|s| - 1]);
    }
  }

  /** Reading the edited characters again has the same meaning, and edits nothing more. */
  lemma EditedReadsTheSame(from: Scan, s: seq<char>)
    ensures Run(from, Lowered(from, s)) == Run(from, s)
    ensures Lowered(from, Lowered(from, s)) == Lowered(from, s)
  {
    forall scan, c ensures Step(scan, Edit(scan, c)) == Step(scan, c) && Edit(scan, Edit(scan, c)) == Edit(scan, c) {
    }
    Machine.RewrittenReadsTheSame(Step, Edit, from, s);
  }

  /** Until it is decided, a scan has read every character; what it has recorded stays recorded. */
  lemma {:induction false} ScanProgress(from: Scan, s: seq<char>)
    ensures var after := Run(from, s);
            && from.position <= after.position <= from.position + |s|
            && (!Decided(after.phase) ==> after.position == from.position + |s|)
            && (!from.phase.FirstLine? ==> !after.phase.FirstLine? && after.line == from.line)
            && from.headers <= after.headers
  {
    if s != [] {
      ScanProgress(from, s[..|s| - 1]);
    }
  }

  /** What was decided by a part of the text was decided by all of it. */
  lemma DecidedEarly(s: seq<char>, k: nat)
    requires k <= |s|
    ensures Decided(Run(START, s[..k]).phase) ==> Run(START, s) == Run(START, s[..k])
    ensures Run(START, s) == Run(Run(START, s[..k]), s[k..])
    ensures Lowered(START, s) == Lowered(START, s[..k]) + Lowered(Run(START, s[..k]), s[k..])
  {
    RunAppend(START, s[..k], s[k..]);
    assert s[..k] + s[k..] == s;
    if Decided(Run(START, s[..k]).phase) {
      DecidedStays(Run(START, s[..k]), s[k..]);
    }
  }

  /** A block ends neither before nor after the position its scan reports. */
  lemma EndIsExact(s: seq<char>, k: nat)
    requires Run(START, s).phase.Done? && k <= |s|
    ensures Run(START, s).position <= |s|
    ensures Decided(Run(START, s[..k]).phase) <==> k >= Run(START, s).position
  {
    ScanProgress(START, s);
    ScanProgress(START, s[..k]);
    DecidedEarly(s, k);
    if !Decided(Run(START, s[..k]).phase) {
      StepsForward(Run(START, s[..k]), s[k..]);
    }
  }

  /** Prefix law: a block that was read to its end (or refused) is read to the same end whatever follows,
      and every part of it that stops short of that end is undecided. */
  lemma PrefixLaw(s: seq<char>, t: seq<char>)
    ensures Decided(Run(START, s).phase) ==> Run(START, s + t) == Run(START, s)
    ensures Run(START, s).phase.Done? ==>
              var end := Run(START, s).position;
              && 0 < end <= |s|
              && Run(START, s[..end]) == Run(START, s)
              && forall k :: 0 <= k < end ==> !Decided(Run(START, s[..k]).phase)
  {
    DecidedEarly(s + t, |s|);
    assert (s + t)[..|s|] == s;
    if Run(START, s).phase.Done? {
      var end := Run(START, s).position;
      EndIsExact(s, 0);
      EndIsExact(s, end);
      DecidedEarly(s, end);
      forall k | 0 <= k < end ensures !Decided(Run(START, s[..k]).phase) {
        EndIsExact(s, k);
      }
    }
  }

  /** Every successful step moves the position, so a block cannot end where an undecided scan stands. */
  lemma {:induction false} StepsForward(from: Scan, s: seq<char>)
    requires !Decided(from.phase)
    ensures Run(from, s).phase.Done? ==> from.position < Run(from, s).position
  {
    if s != [] {
      StepsForward(from, s[..|s| - 1]);
      ScanProgress(from, s[..|s| - 1]);
    }
  }

  /** What the last usable Content-Length says; -1 when there is none. */
  function BodySize(headers: seq<Header>): int {
    if headers == [] then -1
    else
      var last := headers[|headers| - 1];
      var parsed := FromChars(last.value, INT_MIN, INT_MAX);
      if last.name == "content-length" && parsed.value.Some? then parsed.value.value
      else BodySize(headers[..|headers| - 1])
  }

  /** The headers that are passed on to `headerReader`, in order. */
  function Reported(headers: seq<Header>): seq<Header> {
    if headers == [] then []
    else
      var last := headers[|headers| - 1];
      Reported(headers[..|headers| - 1]) + if last.name == "content-length" then [] else [last]
  }

  function Others(headers: seq<Header>): seq<Header> {
    if headers == [] then []
    else (if headers[0].name != "content-length" then [headers[0]] else []) + Others(headers[1..])
  }

  lemma {:induction false} OthersMore(headers: seq<Header>, last: Header)
    ensures Others(headers + [last]) == Others(headers) + if last.name != "content-length" then [last] else []
    decreases |headers|
  {
    var all := headers + [last];
    if headers == [] {
      assert all[1..] == [];
    } else {
      assert all[0] == headers[0] && all[1..] == headers[1..] + [last];
      OthersMore(headers[1..], last);
    }
  }

  /** What is passed on: each header that is not a Content-Length as often as it stands there, in order, and
      nothing else. */
  lemma {:induction false} ReportedExactly(headers: seq<Header>)
    ensures Reported(headers) == Others(headers)
    ensures forall h :: multiset(Reported(headers))[h] == if h.name == "content-length" then 0 else multiset(headers)[h]
  {
    if headers != [] {
      var front, last := headers[..|headers| - 1], headers[|headers| - 1];
      assert headers == front + [last];
      ReportedExactly(front);
      OthersMore(front, last);
    }
  }

  /** This header says that the body has `n` bytes. */
  ghost predicate Sizes(header: Header, n: int) {
    header.name == "content-length" && -0x8000_0000 <= n <= 0x7fff_ffff && StandsFor(header.value, n)
  }

  /** The last header that says how long the body is. */
  ghost predicate SizedBy(headers: seq<Header>, i: nat, n: int)
    requires i < |headers|
  {
    Sizes(headers[i], n) && forall j, m :: i < j < |headers| ==> !Sizes(headers[j], m)
  }

  /** The size of the body is what the last header says that says one; it is -1 when none does. */
  lemma {:induction false} BodySizeExactly(headers: seq<Header>)
    ensures var n := BodySize(headers);
            || (exists i :: 0 <= i < |headers| && SizedBy(headers, i, n))
            || (n == -1 && forall i, m :: 0 <= i < |headers| ==> !Sizes(headers[i], m))
  {
    if headers != [] {
      var front, last := headers[..|headers| - 1], headers[|headers| - 1];
      var parsed := FromChars(last.value, INT_MIN, INT_MAX).value;
      forall m ensures Sizes(last, m) <==> last.name == "content-length" && parsed == Some(m) {
        FromCharsExactly(last.value, m, INT_MIN, INT_MAX);
      }
      if last.name == "content-length" && parsed.Some? {
        assert SizedBy(headers, |headers| - 1, parsed.value);
      } else {
        BodySizeExactly(front);
        assert forall i :: 0 <= i < |front| ==> front[i] == headers[i];
        var n := BodySize(front);
        if i :| 0 <= i < |front| && SizedBy(front, i, n) {
          StillSizedBy(headers, last, i, n);
        }
      }
    }
  }

  lemma StillSizedBy(headers: seq<Header>, last: Header, i: nat, n: int)
    requires i < |headers| - 1 && SizedBy(headers[..|headers| - 1], i, n)
    requires headers[|headers| - 1] == last && forall m :: !Sizes(last, m)
    ensures SizedBy(headers, i, n)
  {
    var front := headers[..|headers| - 1];
    assert forall j :: 0 <= j < |front| ==> front[j] == headers[j];
  }
}
