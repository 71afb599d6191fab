/**
  The server's successful responses. Their length is either known beforehand, or filled in over a placeholder of
  fixed width when everything has been written; the header parser finds the body in both.
 */
module HttpReplies {
  import opened Decimal
  import opened HttpScan
  import opened HttpRequests
  import opened Texts
  import Buffers

  const INTRO := "HTTP/1.1 200 OK\r\nContent-Length:"
  const UNSET_SIZE := " 0         "
  const TYPE_INTRO := "\r\nContent-Type: "
  const HEAD_END := "\r\n\r\n"

  /** Where the digits of the length go: behind the introduction and a space. */
  const DIGITS_AT: nat := |INTRO| + 1

  predicate CarriageFree(s: string) { forall i :: 0 <= i < |s| ==> s[i] != '\r' }

  /** The header with some text for the length. */
  function HeadWith(length: string, contentType: string): string {
    INTRO + length + TYPE_INTRO + contentType + HEAD_END
  }

  /** `std::to_chars` into a text. */
  function Overwritten(s: string, at: nat, digits: string): string
    requires at + |digits| <= |s|
  {
    s[..at] + digits + s[at + |digits|..]
  }

  function UnknownSizeText(contentType: string, body: string): string
    requires |body| <= INT_MAX
  {
    TenDigits(|body|);
    Overwritten(HeadWith(UNSET_SIZE, contentType) + body, DIGITS_AT, TextOf(|body|))
  }

  function KnownSizeText(contentType: string, size: int, body: string): string {
    HeadWith(" " + IntText(AsInt32(size)), contentType) + body
  }

  lemma TenDigits(n: nat)
    requires n <= INT_MAX
    ensures |TextOf(n)| <= 10
  {
    assert Power10(10) == 10_000_000_000;
    NumberOfDigits(n, 10);
  }

  // Writing.

  lemma Regroup(before: string, a: string, b: string, c: string, d: string, e: string)
    ensures before + a + b + c + d + e == before + (a + b + c + d + e)
  {
  }

  lemma NothingToFill(fills: seq<string>)
    ensures Join(fills[..0]) == []
  {
  }

  lemma OneMoreFill(before: string, fills: seq<string>, i: nat)
    requires i < |fills|
    ensures before + Join(fills[..i + 1]) == before + Join(fills[..i]) + fills[i]
  {
    assert fills[..i + 1] == fills[..i] + [fills[i]];
    JoinMore(fills[..i], fills[i]);
    assert before + (Join(fills[..i]) + fills[i]) == before + Join(fills[..i]) + fills[i];
  }

  /** `startCorrectResponse` into an expanding buffer, and what the responder appends. */
  method StartExpanding(buffer: Buffers.ExpandingBuffer, length: string, contentType: string)
    requires buffer.Valid()
    modifies buffer, buffer.basic
    ensures buffer.Valid() && buffer.View() == old(buffer.View()) + HeadWith(length, contentType)
    ensures buffer.size == old(buffer.size) + |HeadWith(length, contentType)|
  {
    hide INTRO, TYPE_INTRO, HEAD_END;
    ghost var before := buffer.View();
    buffer.AppendSpan(INTRO);
    buffer.AppendSpan(length);
    buffer.AppendSpan(TYPE_INTRO);
    buffer.AppendSpan(contentType);
    buffer.AppendSpan(HEAD_END);
    Regroup(before, INTRO, length, TYPE_INTRO, contentType, HEAD_END);
  }

  method FillExpanding(buffer: Buffers.ExpandingBuffer, fills: seq<string>)
    requires buffer.Valid()
    modifies buffer, buffer.basic
    ensures buffer.Valid() && buffer.View() == old(buffer.View()) + Join(fills)
    ensures buffer.size == old(buffer.size) + |Join(fills)|
  {
    hide Join;
    ghost var before := buffer.View();
    NothingToFill(fills);
    assert before + [] == before;
    var i := 0;
    while i < |fills|
      invariant i <= |fills| && buffer.Valid()
      invariant buffer.View() == before + Join(fills[..i])
      invariant buffer.size == old(buffer.size) + |Join(fills[..i])|
    {
      OneMoreFill(before, fills, i);
      buffer.AppendSpan(fills[i]);
      i := i + 1;
    }
    assert fills[..i] == fills;
  }

  /** The digits have room in the head. */
  lemma LongHead(contentType: string)
    ensures DIGITS_AT + 10 <= |HeadWith(UNSET_SIZE, contentType)|
  {
  }

  /** `writeUnknownSize`, for a responder that appends these spans. */
  method WriteUnknownSize(contentType: string, fills: seq<string>) returns (written: string)
    requires |Join(fills)| <= INT_MAX
    ensures written == UnknownSizeText(contentType, Join(fills))
  {
    hide Join, TextOf, HeadWith, Overwritten;
    var buffer := new Buffers.ExpandingBuffer(1024);
    StartExpanding(buffer, UNSET_SIZE, contentType);
    LongHead(contentType);
    var headerSize := buffer.size;
    FillExpanding(buffer, fills);
    var view := buffer.View();
    assert view == HeadWith(UNSET_SIZE, contentType) + Join(fills);
    TenDigits(buffer.size - headerSize);
    written := Overwritten(view, DIGITS_AT, TextOf(buffer.size - headerSize));
  }

  method StartStreaming(buffer: Buffers.StreamingBuffer, length: string, contentType: string)
    requires buffer.Valid() && buffer.WrittenInFull()
    modifies buffer, buffer.basic
    ensures buffer.Valid() && buffer.WrittenInFull()
    ensures buffer.Total() == old(buffer.Total()) + HeadWith(length, contentType)
  {
    hide INTRO, TYPE_INTRO, HEAD_END, Join;
    ghost var before := buffer.Total();
    buffer.AppendSpan(INTRO);
    buffer.AppendSpan(length);
    buffer.AppendSpan(TYPE_INTRO);
    buffer.AppendSpan(contentType);
    buffer.AppendSpan(HEAD_END);
    Regroup(before, INTRO, length, TYPE_INTRO, contentType, HEAD_END);
  }

  method FillStreaming(buffer: Buffers.StreamingBuffer, fills: seq<string>)
    requires buffer.Valid() && buffer.WrittenInFull()
    modifies buffer, buffer.basic
    ensures buffer.Valid() && buffer.WrittenInFull()
    ensures buffer.Total() == old(buffer.Total()) + Join(fills)
  {
    hide Join;
    ghost var before := buffer.Total();
    NothingToFill(fills);
    assert before + [] == before;
    var i := 0;
    while i < |fills|
      invariant i <= |fills| && buffer.Valid() && buffer.WrittenInFull()
      invariant buffer.Total() == before + Join(fills[..i])
    {
      OneMoreFill(before, fills, i);
      buffer.AppendSpan(fills[i]);
      i := i + 1;
    }
    assert fills[..i] == fills;
  }

  /** `writeKnownSize`, for a responder that appends these spans. */
  method WriteKnownSize(contentType: string, size: int, fills: seq<string>) returns (chunks: seq<string>)
    ensures Join(chunks) == KnownSizeText(contentType, size, Join(fills))
    ensures forall i :: 0 <= i < |chunks| ==> 0 < |chunks[i]| <= 1024 && (i < |chunks| - 1 ==> |chunks[i]| == 1024)
  {
    hide Join, HeadWith, IntText;
    var buffer := new Buffers.StreamingBuffer(1024);
    StartStreaming(buffer, " " + IntText(AsInt32(size)), contentType);
    FillStreaming(buffer, fills);
    buffer.Destroy();
    chunks := buffer.written;
  }

  // Reading.

  /** How much of a content type passes for the separator before it. */
  function LeadLength(contentType: string): (n: nat)
    ensures n <= |contentType|
    ensures forall i :: 0 <= i < n ==> IsBlank(contentType[i]) || contentType[i] == ':'
    ensures n < |contentType| ==> !IsBlank(contentType[n]) && contentType[n] != ':'
  {
    if contentType != [] && (IsBlank(contentType[0]) || contentType[0] == ':') then 1 + LeadLength(contentType[1..])
    else 0
  }

  function LengthLine(value: string): Line { Line([], "Content-Length", ": ", value) }

  function TypeLine(contentType: string): Line {
    var n := LeadLength(contentType);
    Line([], "Content-Type", ": " + contentType[..n], contentType[n..])
  }

  /** The head of a response, as the parser reads it: the status line is three words, like that of a request. */
  function AsRead(value: string, contentType: string): Request {
    Request("HTTP/1.1", "200", "OK", [LengthLine(value), TypeLine(contentType)], [])
  }

  lemma HeadIsRequestHead(value: string, contentType: string)
    ensures AsRead(value, contentType).Head() == HeadWith(" " + value, contentType)
  {
    hide LeadLength, Line.Text, LinesText;
    var a, b := LengthLine(value), TypeLine(contentType);
    TwoLines(a, b);
    LengthText(value);
    TypeText(contentType);
    Assembles("HTTP/1.1 200 OK", "\r\n", "Content-Length:", " ", value, "Content-Type: ", contentType);
    assert INTRO == "HTTP/1.1 200 OK" + "\r\n" + "Content-Length:";
    assert TYPE_INTRO == "\r\n" + "Content-Type: " && HEAD_END == "\r\n" + "\r\n";
    assert AsRead(value, contentType).FirstLine() == "HTTP/1.1 200 OK";
  }

  lemma LengthText(value: string)
    ensures LengthLine(value).Text() == ("Content-Length:" + " ") + value + "\r\n"
  {
    assert [] + "Content-Length" + ": " == "Content-Length:" + " ";
  }

  lemma TypeText(contentType: string)
    ensures TypeLine(contentType).Text() == "Content-Type: " + contentType + "\r\n"
  {
    hide LeadLength;
    var n := LeadLength(contentType);
    var lead, rest := contentType[..n], contentType[n..];
    assert lead + rest == contentType;
    assert [] + "Content-Type" + (": " + lead) + rest == "Content-Type: " + (lead + rest);
  }

  lemma Assembles(first: string, end: string, name: string, blank: string, value: string, type_: string,
                  contentType: string)
    ensures first + end + ((name + blank) + value + end + (type_ + contentType + end)) + end
         == (first + end + name) + (blank + value) + (end + type_) + contentType + (end + end)
  {
  }

  lemma TwoLines(a: Line, b: Line)
    ensures LinesText([a, b]) == a.Text() + b.Text()
    ensures forall at: nat :: HeadersOf([a, b], at) == [a.AsHeader(at), b.AsHeader(at + |a.Text()|)]
  {
    hide Line.Text, Line.AsHeader;
    var two := [a, b];
    assert two[..1] == [a] && [a][..0] == [];
    assert LinesText([a]) == a.Text();
    forall at: nat ensures HeadersOf(two, at) == [a.AsHeader(at), b.AsHeader(at + |a.Text()|)] {
      assert HeadersOf([a], at) == [a.AsHeader(at)];
    }
  }

  lemma LengthLineIsValid(value: string)
    requires CarriageFree(value) && (value != [] ==> !IsBlank(value[0]) && value[0] != ':')
    ensures LengthLine(value).Valid()
  {
    assert LengthLine(value).separator[0] == ':';
  }

  lemma TypeLineIsValid(contentType: string)
    requires CarriageFree(contentType)
    ensures TypeLine(contentType).Valid()
  {
    hide LeadLength;
    assert TypeLine(contentType).separator[0] == ':';
  }

  lemma LinesAreRead(value: string, contentType: string)
    requires CarriageFree(value) && (value != [] ==> !IsBlank(value[0]) && value[0] != ':')
    requires CarriageFree(contentType)
    ensures AsRead(value, contentType).Valid()
  {
    hide Line.Valid, LengthLine, TypeLine, BodySize, HeadersOf, LinesText;
    LengthLineIsValid(value);
    TypeLineIsValid(contentType);
  }

  lemma LengthName()
    ensures AllLower("Content-Length") == "content-length" && AllLower("Content-Type") != "content-length"
  {
    LowersTo("Content-Length", "content-length");
  }

  lemma {:induction false} LowersTo(s: string, t: string)
    requires |s| == |t| && forall i :: 0 <= i < |s| ==> Lower(s[i]) == t[i]
    ensures AllLower(s) == t
  {
    if s != [] {
      LowersTo(s[..|s| - 1], t[..|t| - 1]);
      assert t == t[..|t| - 1] + [t[|t| - 1]];
    }
  }

  /** The parser takes its size from the length line. */
  lemma SizeIsRead(n: int, pad: string, contentType: string, at: nat)
    requires INT_MIN <= n <= INT_MAX && (pad != [] ==> !IsDigit(pad[0]))
    ensures BodySize(HeadersOf([LengthLine(IntText(n) + pad), TypeLine(contentType)], at)) == n
  {
    hide AllLower, LeadLength, IntText, FromChars;
    var a, b := LengthLine(IntText(n) + pad), TypeLine(contentType);
    TwoLines(a, b);
    LengthName();
    FromCharsReadsText(n, pad, INT_MIN, INT_MAX);
    var headers := [a.AsHeader(at), b.AsHeader(at + |a.Text()|)];
    assert headers[..1] == [a.AsHeader(at)];
    assert BodySize(headers[..1]) == n;
  }

  /** A head whose length is some number, perhaps with blanks behind it, and then a body. */
  lemma ResponseIsRead(n: int, pad: string, contentType: string, body: string)
    requires INT_MIN <= n <= INT_MAX && (forall i :: 0 <= i < |pad| ==> IsBlank(pad[i])) && CarriageFree(contentType)
    ensures var head := HeadWith(" " + (IntText(n) + pad), contentType);
            var read := Run(START, head + body);
            && read.phase == Done && read.position == |head| && BodySize(read.headers) == n
            && (head + body)[read.position..] == body
  {
    hide Machine.Run, LinesText, HeadersOf, TypeLine, BodySize, HeadWith, IntText, CarriageFree;
    var value := IntText(n) + pad;
    var request := AsRead(value, contentType);
    NumberIsPlain(n, pad);
    LinesAreRead(value, contentType);
    ReadsHead(request);
    HeadIsRequestHead(value, contentType);
    SizeIsRead(n, pad, contentType, |request.FirstLine()| + 2);
    var head := HeadWith(" " + value, contentType);
    RunAppend(START, head, body);
    DecidedStays(Run(START, head), body);
  }

  lemma NumberIsPlain(n: int, pad: string)
    requires forall i :: 0 <= i < |pad| ==> IsBlank(pad[i])
    ensures var value := IntText(n) + pad;
            && CarriageFree(value) && value != [] && !IsBlank(value[0]) && value[0] != ':'
            && (pad != [] ==> !IsDigit(pad[0]))
  {
    assert forall i :: 0 <= i < |IntText(n)| ==> IsDigit(IntText(n)[i]) || IntText(n)[i] == '-';
  }

  /** What the placeholder looks like with digits over it. */
  lemma FilledIn(before: string, placeholder: string, digits: string, tail: string)
    requires |digits| <= |placeholder|
    ensures Overwritten(before + placeholder + tail, |before|, digits)
            == before + (digits + placeholder[|digits|..]) + tail
  {
    var text := before + placeholder + tail;
    assert text[..|before|] == before;
    assert text[|before| + |digits|..] == placeholder[|digits|..] + tail;
    assert before + digits + (placeholder[|digits|..] + tail) == before + (digits + placeholder[|digits|..]) + tail;
  }

  lemma HeadApart(a: string, b: string, contentType: string, body: string)
    ensures HeadWith(a + b, contentType) + body == (INTRO + a) + b + (TYPE_INTRO + contentType + HEAD_END + body)
  {
    hide INTRO, TYPE_INTRO, HEAD_END;
  }

  /** Filling in the length leaves the rest of the placeholder as blanks. */
  lemma PlaceholderIsFilled(contentType: string, body: string)
    requires |body| <= INT_MAX
    ensures var digits := TextOf(|body|);
            |digits| <= 10 &&
            var pad := UNSET_SIZE[1..][|digits|..];
            && UnknownSizeText(contentType, body) == HeadWith(" " + (IntText(|body|) + pad), contentType) + body
            && (forall i :: 0 <= i < |pad| ==> IsBlank(pad[i]))
  {
    hide TextOf, Overwritten, HeadWith, TYPE_INTRO, HEAD_END;
    TenDigits(|body|);
    var digits, placeholder := TextOf(|body|), UNSET_SIZE[1..];
    var pad := placeholder[|digits|..];
    assert UNSET_SIZE == " " + placeholder;
    HeadApart(" ", placeholder, contentType, body);
    HeadApart(" ", digits + pad, contentType, body);
    FilledIn(INTRO + " ", placeholder, digits, TYPE_INTRO + contentType + HEAD_END + body);
    forall i | 0 <= i < |pad| ensures IsBlank(pad[i]) { assert pad[i] == UNSET_SIZE[1 + |digits| + i]; }
  }

  /** A response of unknown size: whatever the body, the parser finds its size and where it begins, although the
      size was written over a placeholder. */
  lemma UnknownSizeRoundTrip(contentType: string, body: string)
    requires |body| <= INT_MAX && CarriageFree(contentType)
    ensures var text := UnknownSizeText(contentType, body);
            var read := Run(START, text);
            && read.phase == Done && BodySize(read.headers) == |body|
            && read.position <= |text| && text[read.position..] == body
  {
    hide Machine.Run, UnknownSizeText, HeadWith, BodySize, TextOf;
    PlaceholderIsFilled(contentType, body);
    var pad := UNSET_SIZE[1..][|TextOf(|body|)|..];
    ResponseIsRead(|body|, pad, contentType, body);
  }

  /** A response of known size: the parser finds the body, and finds its size exactly when that fits into 32 bits. */
  lemma KnownSizeRoundTrip(contentType: string, size: int, body: string)
    requires CarriageFree(contentType)
    ensures var text := KnownSizeText(contentType, size, body);
            var read := Run(START, text);
            && read.phase == Done
            && read.position <= |text| && text[read.position..] == body
            && (BodySize(read.headers) == size <==> INT_MIN <= size <= INT_MAX)
  {
    hide Machine.Run, HeadWith, BodySize, IntText;
    assert IntText(AsInt32(size)) + [] == IntText(AsInt32(size));
    ResponseIsRead(AsInt32(size), [], contentType, body);
  }

  // The texts themselves.

  function Blanks(n: nat): string { seq(n, _ => ' ') }

  /** What the responses look like: a status line, a length of ten places or as wide as it is, a type and the body. */
  lemma ResponseTexts(contentType: string, size: int, body: string)
    requires INT_MIN <= size <= INT_MAX && |body| <= INT_MAX
    ensures KnownSizeText(contentType, size, body)
         == "HTTP/1.1 200 OK\r\nContent-Length: " + IntText(size) + "\r\nContent-Type: " + contentType + "\r\n\r\n"
            + body
    ensures |TextOf(|body|)| <= 10
    ensures UnknownSizeText(contentType, body)
         == "HTTP/1.1 200 OK\r\nContent-Length: " + (TextOf(|body|) + Blanks(10 - |TextOf(|body|)|))
            + "\r\nContent-Type: " + contentType + "\r\n\r\n" + body
  {
    hide UnknownSizeText, IntText, TextOf;
    PlaceholderIsFilled(contentType, body);
    var digits := TextOf(|body|);
    var pad := UNSET_SIZE[1..][|digits|..];
    assert |pad| == 9 - |digits| || |pad| == 10 - |digits|;
    PadIsBlank(pad, 10 - |digits|);
    Starts(IntText(size), contentType);
    Starts(digits + pad, contentType);
    WholeNumber(|body|);
  }

  lemma WholeNumber(n: nat)
    ensures IntText(n) == TextOf(n)
  {
  }

  lemma PadIsBlank(pad: string, n: nat)
    requires |pad| == n && forall i :: 0 <= i < |pad| ==> pad[i] == ' '
    ensures pad == Blanks(n)
  {
  }

  lemma Starts(length: string, contentType: string)
    ensures HeadWith(" " + length, contentType)
         == "HTTP/1.1 200 OK\r\nContent-Length: " + length + "\r\nContent-Type: " + contentType + "\r\n\r\n"
  {
    assert INTRO + (" " + length) == (INTRO + " ") + length;
    assert INTRO + " " == "HTTP/1.1 200 OK\r\nContent-Length: ";
  }
}
