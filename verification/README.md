# Bomba, verified

A Dafny model of Bomba, a header-only library for remote procedure calls and serialisation, with proofs
about its framing, its buffers, its parsers and its codecs. `dafny verify dfyconfig.toml` checks everything.

The code that changes things step by step is modelled as methods over arrays, fields and loops; each is proved
to do what a function says, and what the library promises is proved about these functions. Bytes are characters
below 256. A fixed buffer is an array; a vector that is resized is a sequence in a field. Exceptions and error
codes are values (`Thrown`, `Failed`, `None`).

## What is proved

- **The server's side of a connection.** `TcpServer` is the receive buffer: a fixed array and, for long messages, a
  vector, between which the unread bytes move. Whatever the moves, the buffer is one sequence, its window.
  `Responder` says what a responder must promise so that the way the network cuts the stream does not matter.
  `HttpScan` is the header block as a machine that reads one character at a time; `HttpSession` is the parser with
  its nested loops, kept positions and lower-casing in place, proved to compute the machine, and the session around
  it. A session keeps the promise but for one thing, and `HttpPieces` says for every stream what that is: the content
  type that an earlier request has left, shown by a later POST that it reaches past the end of. `HttpRequests` closes
  the circle: a stream of well-formed requests, in any pieces, is dispatched request by request, with the exact
  conditions. `HttpGrammar` says what the parser reads in every text, by a grammar of its own; `HttpRefusals` what
  becomes of a connection on which something comes that is refused. `HttpReplies` writes the responses and reads them
  back.
- **JSON.** `JsonText` writes, `JsonInput` reads, `JsonSkip` skips, `JsonRoundTrip` says what comes back.
  `JsonGrammar` is JSON as RFC 8259 defines it, independent of both: what is written is JSON, and JSON is read, for
  what it means. `JsonParts` is about texts that are cut off.
- **JSON-RPC.** `JsonRpc` is the dispatcher on members, `JsonRpcServer` the dispatcher on text, with its stored and
  restored positions; `JsonRpcRepeats` is about names that come more than once; `JsonRpcPost` handles single requests and batches from text to text; `JsonRpcOverHttp` puts the
  whole way together, from a stream of POSTs in any pieces to the stream of their responses.
- **Forms.** `FormCodec` and `FormRoundTrip` (percent escapes and character references, with the exact set of texts
  that survive), `FormEscapes` (escapes in every spelling, and any bytes), `FormRecord` (flat records of names and
  values).
- **The binary protocol.** `LittleEndian`, `BinaryFormat`, `BinaryCodec` and `BinaryRoundTrip` (the codec and the exact
  condition under which a value returns), `BinaryWire` (everything byte by byte, and the server on any bytes),
  `BinaryReading` (bytes that the writer would not have written), `BinaryRpc` and `BinaryRpcCalls` (a request leads to
  its method), `SyncClient`, `Correlation` and `Sifting` (responses out of order), `FramedConnection` and `BinaryRpcOverTcp` (the whole way
  from a client's call to the result that it reads).
- **Underneath.** `Buffers` (the expanding and the streaming output buffer), `Callables` (paths of names),
  `Decimal`, `Texts`, `Frames` and `Machine`.

## Where the code falls short

The model keeps the code as it is. Each of these has a lemma with the exact condition or a concrete input.

- A session never forgets the place of the last content type it saw. A later POST without one is shown what stands
  there now (`HttpRequests.UndeclaredType`, `HttpRequests.TypeOutlivesItsRequest`); each request is shown with its own
  contents only exactly if that never happens (`HttpRequests.EachExactlyOnce`). When the place reaches past the end of
  the POST, what is shown depends on how the network has cut the stream, and exactly then
  (`HttpRequests.OverreachingMatters`, `HttpRequests.SameStreamOtherCalls`).
- Control characters in JSON strings are written as they are, so that the text is JSON exactly if there are none
  (`JsonGrammar.WritesJson`); escapes other than of quote, backslash and line break vanish
  (`JsonGrammar.OtherEscapesVanish`). JSON strings lose their line breaks (`JsonRoundTrip.SeenIsFaithful`), integers below -10^18 + 1 do not fit into the
  writer's buffer (`JsonText.FitsExactly`), and a document that is a bare integer cannot be read
  (`JsonRoundTrip.BareIntegerFails`).
- The JSON skipper swallows the bracket behind a scalar (`JsonSkip.SkipLandsBehind`) and loses its way in most strings
  with a backslash or a line break, exactly as `JsonSkip.StringIsSkipped` says: in those that do not end behind a
  quote again, or hold what stops the skipper before that (`JsonSkip.BackslashMisleads`, `JsonSkip.LineBreakMisleads`).
- A JSON-RPC error is answered only when the identifier precedes the first member that is wrong
  (`JsonRpc.ResponseStarts`, `JsonRpc.FailuresDependOnOrder`). Parameters that come once more behind a complete request
  call the method once more (`JsonRpcRepeats.ParamsAgain`).
- Form decoding takes some texts for character references, even without a hash in them, and writes U+0800 wrongly
  (`FormRoundTrip.RoundTrip`, `FormRoundTrip.NotEvenAHash`). Bytes above 127 that somebody else has escaped one by one,
  as browsers do, come back encoded twice (`FormEscapes.EscapedReturns`). Skipping an empty form value skips the next member, too
  (`FormRecord.SkipLandsBehind`). Names are written without escapes but read with them (`FormRecord.RecordRoundTrip`).
- In the binary format arrays lose their last element, booleans under a wide numeric flag and dictionaries inside
  records cannot be read back, and longer texts than 65535 bytes are cut (`BinaryRoundTrip.RoundTrip`,
  `BinaryRoundTrip.ArraysLoseTheLast`).
- The waiting client misses a response that arrives in two pieces (`Correlation.WhenAnswered`,
  `Correlation.SplitResponseIsMissed`), and asking whether a response is there uses it up unless it was
  stored before (`Correlation.HeardOnlyOnce`).
- A path with a separator of more than one character finds nothing below the first level, and a callable without a
  name of its own is mistaken for its parent (`Callables.PathRoundTrip`).
- A response size that was announced beforehand is cut down to 32 bits (`HttpReplies.KnownSizeRoundTrip`).

## Model

| member | source | states |
|---|---|---|
| `Responder.DrainSplits` | bomba_tcp_server.hpp:75-84 | for any responder that looks again faithfully, draining a window and then feeding more bytes has the same fate as draining both at once |
| `Responder.OnePieceMore` | bomba_tcp_server.hpp:64-137 | a connection that has taken a stream and takes one more piece ends up as if the longer stream had arrived at once |
| `Responder.PiecesDoNotMatter` | bomba_tcp_server.hpp:64-137 | chunking independence: state, unread bytes and everything dispatched depend on the byte stream, not on its pieces |
| `Responder.SeenPiecesDoNotMatter` | bomba_tcp_server.hpp:64-137 | for a responder that looks again faithfully but for some of what its calls show, everything else depends on the byte stream only |
| `TcpServer.TcpServerBuffer.constructor` | bomba_tcp_server.hpp:30-40 | a new buffer has an empty window and offers 2048 bytes of space |
| `TcpServer.TcpServerBuffer.Space` | bomba_tcp_server.hpp:139-141 | the offered space is never empty |
| `TcpServer.TcpServerBuffer.Fill` | bomba_tcp_server.hpp:166-172 | what the network writes into the space lies right behind the window, in the storage in use, and leaves the window as it was |
| `TcpServer.TcpServerBuffer.ReadBuffer` | bomba_tcp_server.hpp:44-61 | the responder sees exactly the window; on OK the window loses exactly what was consumed, otherwise it keeps everything, as the responder edited it |
| `TcpServer.TcpServerBuffer.ReadMessages` | bomba_tcp_server.hpp:75-81 | the loop terminates and does what draining the window does |
| `TcpServer.TcpServerBuffer.Receive` | bomba_tcp_server.hpp:64-137 | the new window is the old one and the received bytes without what was consumed, through every move between array and vector; afterwards the space is in bounds, starts where the window ends and is not empty, and the vector is in use exactly if 3072 bytes or more are unread; an error or an end of stream closes |
| `TcpServer.TcpServerBuffer.Take` | bomba_tcp_server.hpp:166-175 | a piece that arrives in the space is drained together with what was unread |
| `TcpServer.TcpServerBuffer.MakeSpace` | bomba_tcp_server.hpp:102-134 | none of the five moves changes the window, and each leaves room: 3072 bytes behind a vector, and in the array what is free before or behind the window, whichever is more, up to 2048 |
| `TcpServer.DrainStep` | bomba_tcp_server.hpp:77-81 | one answer moves a drain forward by what it consumed, or ends it |
| `TcpServer.ServeConnection` | bomba_tcp_server.hpp:64-137 | for every responder and any pieces that fit the space, a connection dispatches what feeding it these pieces dispatches, whatever the moves of the buffer; for one that looks again faithfully, that is what the whole stream dispatches |
| `TcpServer.ClosedStaysClosed` | bomba_tcp_server.hpp:82-84 | once a responder has closed, the rest of the stream changes nothing |
| `HttpScan.RunAppend` | bomba_http.hpp:24-140 | reading a stream in two parts is reading it at once, edits included |
| `HttpScan.DecidedStays` | bomba_http.hpp:132-139 | a finished or refused header block does not depend on what follows |
| `HttpScan.EditedReadsTheSame` | bomba_http.hpp:80-81 | lower-casing header names in place does not change what a later parse reads |
| `HttpScan.DecidedEarly` | bomba_http.hpp:132-139 | a verdict that a prefix reaches is the verdict of the whole input |
| `HttpScan.EndIsExact` | bomba_http.hpp:132-139 | the block ends at the very character that completes it, and at no earlier one |
| `HttpScan.PrefixLaw` | bomba_http.hpp:24-140 | on every strict prefix of a header block the parser waits, on every extension it finishes at the same place with the same result |
| `HttpScan.ReportedExactly` | bomba_http.hpp:118-122 | of all headers exactly those that are not called content-length are reported, each as often as it comes, in their order |
| `HttpScan.BodySizeExactly` | bomba_http.hpp:118-122 | the size is the number of the last content-length that begins with a number in range, and -1 if there is none |
| `Decimal.FromCharsExactly` | bomba_http.hpp:118-122 | a text gives a number exactly if it begins with it, has no further digit, and the number is in range |
| `HttpGrammar.MachineIsExact` | bomba_http.hpp:24-140 | every text has exactly one reading as lines of indentation, name, separator and value, complete, broken or cut off, and the parser ends where that reading says, with its headers, their places and its edits |
| `HttpGrammar.ReadingIsUnique` | bomba_http.hpp:24-140 | two valid readings of one text are the same |
| `HttpSession.Session.PausedResumes` | bomba_http.hpp:48-55 | a parser that ran out of input can go on with any longer input |
| `HttpSession.Session.FirstLineReader` | bomba_http.hpp:632-654 | method, path and protocol of a request line; it throws exactly when the line has fewer than two blanks |
| `HttpSession.Session.HeaderReader` | bomba_http.hpp:655-662 | the place of the content type is kept, and `connection: close` |
| `HttpSession.Session.UseHeader` | bomba_http.hpp:118-122 | a Content-Length sets the body's size, every other header is reported, exactly once (`HttpScan.ReportedExactly`) |
| `HttpSession.Session.SkipBlanks` | bomba_http.hpp:62-72 | reads what the machine reads between the start of a line and its name |
| `HttpSession.Session.ReadName` | bomba_http.hpp:74-86 | reads and lower-cases a header's name, and changes nothing else in the input |
| `HttpSession.Session.FindValue` | bomba_http.hpp:88-101 | finds where a value starts, and whether there was a colon before it |
| `HttpSession.Session.ReadValue` | bomba_http.hpp:106-116 | reads a value to its carriage return |
| `HttpSession.Session.FinishLine` | bomba_http.hpp:118-129 | uses the line and steps over its end; at the end of the input it has stopped so that it can resume |
| `HttpSession.Session.ReadHeaderLine` | bomba_http.hpp:55-130 | one header line: the parser stands at the next, or has stopped with the machine's verdict |
| `HttpSession.Session.ReadRequestLine` | bomba_http.hpp:27-50 | the first line, with its line end, or the machine's verdict on the input so far |
| `HttpSession.Session.FinishBlock` | bomba_http.hpp:132-139 | the end of the block: OK right behind it, or the machine's verdict |
| `HttpSession.Session.Parse` | bomba_http.hpp:24-140 | resuming from kept positions gives the verdict of the machine on the whole input; the input is edited exactly as the machine edits it, the fields hold what the headers say, each header was reported once |
| `HttpSession.Session.Restore` | bomba_http.hpp:669-672 | the parser is reset; content type and closing are not |
| `HttpSession.Session.Respond` | bomba_http.hpp:667-791 | does what the session's answer function says: reaction, bytes consumed, calls made, bytes edited, state kept; that function is pinned by `HttpRequests.AnswersRequest` and `HttpRefusals.UnsizedPost` |
| `HttpSession.Session.Dispatch` | bomba_http.hpp:683-790 | waits for the whole body of a POST, then dispatches once with path, body, and the characters at the place kept for the content type, wherever that is; without a usable length it disconnects |
| `HttpSession.ShowsWhatStands` | bomba_http.hpp:744-759 | for any place, what a call shows are the characters that stand there, and unknown ones behind the unread bytes only |
| `HttpSession.SessionAnswersWell` | bomba_http.hpp:667-791 | on OK a session consumes between one byte and the whole input, and it dispatches nothing while it waits |
| `HttpSession.SessionLooksAgain` | bomba_http.hpp:667-791 | but for what a place past its end shows: a request that was answered is answered the same whatever follows; one that was not is answered later as if the first look had not happened, although the state and the bytes were changed |
| `HttpSession.SessionIsIncremental` | bomba_http.hpp:667-791 | for all states and all inputs, the session keeps the promise that chunking independence needs, but for what such places show |
| `HttpPieces.AnyPieces` | bomba_http.hpp:667-791 | any bytes at all in any pieces: the same calls in the same order, the same unread bytes and state, but for what places past the end of their request show |
| `HttpPieces.AnsweredAlone` | bomba_http.hpp:757-758 | the bytes a call consumes are enough for it; but a place that reaches past them is then outside of the unread bytes |
| `HttpPieces.PiecesMatterForStraysOnly` | bomba_http.hpp:667-791 | for every stream of bytes, the calls are determined by the stream if and only if none of them shows a place past the end of its request |
| `HttpRequests.ReadsLine` | bomba_http.hpp:55-130 | a well-formed header line is read as its header and edited to its lower-cased name |
| `HttpRequests.ReadsHead` | bomba_http.hpp:24-140 | the head of a well-formed request is read to its end, with its first line and all its headers |
| `HttpRequests.FirstLineIsUnderstood` | bomba_http.hpp:632-654 | the request line of a well-formed request gives its type and the place of its path |
| `HttpRequests.PathIsRight` | bomba_http.hpp:744-748 | the place kept for the path holds the request's path, in the edited message |
| `HttpRequests.TypeIsRight` | bomba_http.hpp:757-759 | the place kept for the content type holds the last one stated |
| `HttpRequests.AnswersRequest` | bomba_http.hpp:667-791 | a well-formed request, whatever follows it, is answered with its own call and consumed exactly; what follows shows only where a left content type overreaches |
| `HttpRequests.DrainsRequests` | bomba_http.hpp:667-791 | a row of requests at once is dispatched one by one, in order |
| `HttpRequests.ServeRequests` | bomba_tcp_server.hpp:64-137 | for every stream of well-formed requests and every way the network cuts it, the calls are those of the requests, but for what a left content type shows past the end of a POST, and exactly those if there is no such POST; the connection is open exactly if none asked to close it |
| `HttpRequests.OverreachingMatters` | bomba_http.hpp:757-758 | the calls of a stream of well-formed requests depend on nothing but the stream if and only if no POST without a content type comes while a non-empty one that was left reaches past its end |
| `HttpRequests.DeclaredCalls` | bomba_http.hpp:744-759 | when every POST states its content type, the calls are read off the requests, up to the first that closes |
| `HttpRequests.EachExactlyOnce` | bomba_http.hpp:744-759 | when nobody closes: in all pieces, each request is dispatched once with nothing but its own contents, if and only if no POST without a content type comes while the last one stated is not empty |
| `HttpRequests.UndeclaredType` | bomba_http.hpp:628-630 | a POST without a content type is shown as having none exactly if the last one stated, if any, was empty |
| `HttpRequests.TypeOutlivesItsRequest` | bomba_http.hpp:669-672 | two well-formed requests after which the responder is shown, as a content type, three characters from the middle of the second |
| `HttpRequests.SameStreamOtherCalls` | bomba_http.hpp:757-758 | one stream of three well-formed requests and two cuttings: the second request is shown with bytes of the third in one, and of the memory behind the unread bytes in the other |
| `HttpRefusals.UnsizedPost` | bomba_http.hpp:683-686 | a well-formed POST without a Content-Length that can be read, whatever follows its head and whatever came before: the connection is closed and nobody is called |
| `HttpRefusals.OversizedPost` | bomba_http.hpp:683-700 | so it is for a length below zero or beyond the range of positions |
| `HttpRefusals.BrokenBlock` | bomba_http.hpp:95-101 | so it is for a request line without a line feed, a header line without a colon, and a block without its last line feed |
| `HttpRefusals.ShortLine` | bomba_http.hpp:632-654 | so it is for a request line with fewer than two blanks, as soon as it has ended |
| `HttpRefusals.ServeThenRefuse` | bomba_tcp_server.hpp:64-137 | well-formed requests and then any of these, in any pieces: the calls of the requests, and a closed connection |
| `HttpReplies.WriteUnknownSize` | bomba_http.hpp:727-736 | writes the header with a placeholder and the body, then the body's length over the placeholder |
| `HttpReplies.WriteKnownSize` | bomba_http.hpp:737-741 | the chunks that are streamed, of 1024 bytes each but for the last, make up header and body |
| `HttpReplies.ResponseIsRead` | bomba_http.hpp:700-725 | for every content type without a carriage return, the parser reads a response's head to its end and gets its size |
| `HttpReplies.UnknownSizeRoundTrip` | bomba_http.hpp:699-742 | for every body and every content type without a carriage return, the parser finds the body's length and the body, although the length was written over a placeholder of fixed width |
| `HttpReplies.KnownSizeRoundTrip` | bomba_http.hpp:710-741 | the parser finds the body, and the announced size exactly if it fits into 32 bits |
| `HttpReplies.ResponseTexts` | bomba_http.hpp:699-742 | both kinds of response, character by character: status line, length, type, body; the length that is filled in has ten places |
| `Buffers.ExpandingBuffer.BufferFull` | bomba_core.hpp:541-552 | the move into the vector and each doubling keep the contents and make room |
| `Buffers.ExpandingBuffer.AppendChar` | bomba_core.hpp:423-431 | the contents grow by one character, the count by one, and there is room again |
| `Buffers.ExpandingBuffer.AppendSpan` | bomba_core.hpp:433-446 | the contents grow by the span, through any number of migrations; the loop terminates |
| `Buffers.ExpandingBuffer.Clear` | bomba_core.hpp:573-576 | the contents are forgotten; the count is not touched |
| `Buffers.StreamingBuffer.Flush` | bomba_core.hpp:492-497 | what was pending is handed to the writer, once, and nothing if there is none |
| `Buffers.StreamingBuffer.BufferFull` | bomba_core.hpp:476-481 | a full buffer is handed over and starts again, losing nothing |
| `Buffers.StreamingBuffer.AppendChar` | bomba_core.hpp:423-431 | what was handed over and what is pending grow by one character |
| `Buffers.StreamingBuffer.AppendSpan` | bomba_core.hpp:433-446 | what was handed over and what is pending grow by the span, and only full buffers are handed over |
| `Buffers.StreamingBuffer.Destroy` | bomba_core.hpp:499-501 | at the end everything that was appended has been handed over |
| `JsonText.FitsExactly` | bomba_json.hpp:266-272 | the integers that the 20-byte buffer holds with its terminator are exactly those above -10^18 |
| `JsonText.Output.WriteString` | bomba_json.hpp:292-300 | a quoted string, with quote, backslash and line break behind a backslash |
| `JsonText.Output.StartNewLine` | bomba_json.hpp:273-280 | a line break and a tab for each level, or nothing behind a member's name |
| `JsonText.Output.IntroduceArrayElement` | bomba_json.hpp:317-321 | a comma before every element but the first, on a line of its own |
| `JsonText.Output.IntroduceObjectMember` | bomba_json.hpp:334-340 | a comma, a line, the quoted name and a colon (`JsonGrammar.WritesJson` says that this is JSON) |
| `JsonText.Output.WriteValue` | bomba_json.hpp:286-346 | writes the text of a tree at the current depth and returns to that depth; the text is JSON for that tree (`JsonGrammar.WritesJson`) |
| `JsonInput.Input.EatWhitespace` | bomba_json.hpp:60-70 | skips blanks, commas and colons |
| `JsonInput.Input.ReadString` | bomba_json.hpp:126-149 | the string's body, without backslashes and without what a backslash hides |
| `JsonInput.Input.ReadInt` | bomba_json.hpp:102-116 | the integer and the end of its number, which must not be the end of the input |
| `JsonInput.Input.ReadBool` | bomba_json.hpp:150-169 | `true` or `false`, spelled out, or a fault |
| `JsonInput.Input.IdentifyType` | bomba_json.hpp:73-101 | what the first character, and for numbers the rest, tells about the type |
| `JsonInput.Input.NextArrayElement` | bomba_json.hpp:186-191 | whether another element follows, without consuming it |
| `JsonInput.Input.ReadValue` | bomba_json.hpp:73-214 | reads a tree of any depth as the reading function says, and stops where it says |
| `JsonInput.Input.ReadVector` | bomba_core.hpp:1056-1068 | reads an array into a vector of any previous length: the vector ends up with exactly the elements read |
| `JsonInput.Input.ReadMembers` | bomba_json.hpp:198-214 | reads the members of an object in order |
| `JsonRoundTrip.SeenIsFaithful` | bomba_json.hpp:137-144 | what comes back is the tree itself exactly if no string in it has a line break |
| `JsonRoundTrip.ValueReads` | bomba_json.hpp:42-214 | from the text of any writable tree, at any depth and wherever it stands, the reader gets the tree, up to line breaks, and stops exactly behind it |
| `JsonRoundTrip.ItemsRead` | bomba_json.hpp:186-197 | the elements of an array return in order, empty arrays included |
| `JsonRoundTrip.MembersRead` | bomba_json.hpp:198-214 | the members of an object return in order with their names |
| `JsonRoundTrip.DocumentReads` | bomba_json.hpp:42-345 | a document that is not a bare integer returns, and is read to its end |
| `JsonRoundTrip.BareIntegerFails` | bomba_json.hpp:108-112 | no document that is a bare integer can be read |
| `JsonGrammar.WritesJson` | bomba_json.hpp:286-346 | what is written for a tree is a JSON text in the sense of RFC 8259, with exactly this tree as its meaning, if and only if no string or name of it holds a control character |
| `JsonGrammar.ReadsJson` | bomba_json.hpp:42-214 | every JSON text in any layout, with escapes of quote, backslash and line break only and integers of 64 bits, is read as what it means, up to its end |
| `JsonGrammar.OtherEscapesVanish` | bomba_json.hpp:137-144 | a backslash with any other character behind it is left out |
| `JsonGrammar.FractionIsPassed` | bomba_json.hpp:102-116 | an integer is read from a number with a fraction or an exponent, and these are passed over |
| `JsonGrammar.TypeIsTold` | bomba_json.hpp:73-101 | the type of every JSON value is told by its beginning |
| `JsonGrammar.NoString` | bomba_json.hpp:126-149 | where a string should be, another value is a fault, and so is a string without its closing quote |
| `JsonParts.ValueCut` | bomba_json.hpp:42-214 | whatever the reader can read, JSON or not, it reads in the same way without what follows, and refuses without any part of its end; an integer also needs one character behind it |
| `JsonSkip.SkipThroughString` | bomba_json.hpp:232-236 | goes on behind the next quote or backslash |
| `JsonSkip.SkipObjectElement` | bomba_json.hpp:216-241 | the skipper does what the skipping function says |
| `JsonSkip.StringIsSkipped` | bomba_json.hpp:216-241 | for every string: it is always read, and it is skipped as it is read if and only if its text, followed character by character, leaves the skipper inside, and nothing behind it leads on |
| `JsonSkip.SimpleIsPlain` | bomba_json.hpp:216-241 | strings without backslash and line break, with quotes or without, are followed at every depth |
| `JsonSkip.ValueSkips` | bomba_json.hpp:216-241 | over the text of a value the skipper keeps its depth; brackets and quotes inside strings do not count |
| `JsonSkip.SkipLandsBehind` | bomba_json.hpp:216-241 | for every value whose strings are followed, the skipper stops exactly where the reader stops if and only if the value is a container or is followed by a blank, a comma or the end |
| `JsonSkip.BackslashMisleads` | bomba_json.hpp:234-236 | a string with a backslash that is read correctly and skipped wrongly |
| `JsonSkip.LineBreakMisleads` | bomba_json.hpp:234-236 | a string with a line break that is skipped wrongly |
| `JsonRpc.StepsKnow` | bomba_json_rpc.hpp:101-105 | after every member the dispatcher knows what precedes and has called if and only if identifier, method and parameters are all known |
| `JsonRpc.ProperRequest` | bomba_json_rpc.hpp:106-163 | a request whose path leads to a callable calls that callable exactly once with exactly its parameters; with an identifier the response is version, identifier and result or error, without one there is none; a number or string comes back as the identifier that it was, anything else as null |
| `JsonRpc.CalledByPath` | bomba_json_rpc.hpp:120-127 | a request that names its method by the path of a callable calls that callable if and only if it is the root or has a name |
| `JsonRpc.OrderDoesNotMatter` | bomba_json_rpc.hpp:77-164 | any two orders of the members cause the same calls and the same response |
| `JsonRpc.FailuresDependOnOrder` | bomba_json_rpc.hpp:66-69 | an unknown method is answered with the identifier first, and not answered with it last |
| `JsonRpc.ResponseStarts` | bomba_json_rpc.hpp:66-144 | for all requests, a response is started if and only if there is an identifier and each member before it is proper, or a method behind another |
| `JsonRpc.ResponseStartsDistinct` | bomba_json_rpc.hpp:66-144 | when no name is repeated: if and only if there is an identifier and nothing but proper members before it |
| `JsonRpc.EveryAnswer` | bomba_json_rpc.hpp:36-164 | for every request without repeated names, whatever is wrong with it: which call is made, if any, whether there is a response, and what is in it, with codes and messages, in terms of its members and the first wrong one |
| `JsonRpcRepeats.OnlyFirstMethod` | bomba_json_rpc.hpp:120-131 | of several methods only the first counts, known or not |
| `JsonRpcRepeats.VersionAgain` | bomba_json_rpc.hpp:106-111 | the version may be said anywhere and any number of times |
| `JsonRpcRepeats.LastParamsCount` | bomba_json_rpc.hpp:132-138 | of several parameters the last before the call count |
| `JsonRpcRepeats.ParamsAgain` | bomba_json_rpc.hpp:132-138 | parameters behind a request that names all three make a second call and a second result |
| `JsonRpcServer.Dispatch.WriteId` | bomba_json_rpc.hpp:43-65 | starts the response with version and identifier: numbers and strings as they are, null for everything else |
| `JsonRpcServer.Dispatch.CallMethod` | bomba_json_rpc.hpp:80-99 | calls the method on the stored parameters and returns the position to come back to |
| `JsonRpcServer.Dispatch.OnMethod` | bomba_json_rpc.hpp:120-131 | looks the method up and calls it if everything else is known, coming back to behind its name |
| `JsonRpcServer.Dispatch.OnParams` | bomba_json_rpc.hpp:132-138 | stores the position of the parameters, and calls or skips them |
| `JsonRpcServer.Dispatch.OnMember` | bomba_json_rpc.hpp:106-144 | one turn of the loop: the state moves as the dispatcher's step says, the text written is that of the state, the input stands behind the member |
| `JsonRpcServer.ReadMembers` | bomba_json_rpc.hpp:106-144 | the loop over the members, ended early by a failure |
| `JsonRpcServer.RespondInternal` | bomba_json_rpc.hpp:36-164 | for every request laid out so that reading and skipping agree, with at most one identifier: the calls made, the response written and the result are those of its members; after success the input stands exactly behind the object |
| `JsonRpcPost.PostBatch` | bomba_json_rpc.hpp:183-201 | a batch's output is exactly the responses that were started, in order, with contiguous indices; a failed request is stepped over to where a success would have ended |
| `JsonRpcPost.Post` | bomba_json_rpc.hpp:170-214 | the content type decides, then the first character: array, object, or nothing |
| `JsonRpcPost.RequestIsLaid` | bomba_json_rpc.hpp:106-164 | a written request, with values the skipper can skip, is laid out as the dispatcher needs it |
| `JsonRpcPost.BatchIsLaid` | bomba_json_rpc.hpp:183-201 | so is a written batch |
| `JsonRpcPost.AnswerBatch` | bomba_json_rpc.hpp:183-201 | from a written batch to the written responses of its requests one by one; for requests without repeated names these are the ones due (`JsonRpcPost.BatchDue`) |
| `JsonRpcPost.AnswerRequest` | bomba_json_rpc.hpp:202-205 | from any written request without repeated names, in any order of members, to the calls and the written response that are due; from one that is proper to one call, and its response under the identifier it came with |
| `JsonRpcPost.BatchDue` | bomba_json_rpc.hpp:183-201 | the responses and calls of a batch are those due for its requests one by one, whatever is wrong with some of them |
| `JsonRpcOverHttp.AnswerBody` | bomba_json_rpc.hpp:170-214 | the body of a POST, a request or a batch as it is written, gives exactly its replies and its calls |
| `JsonRpcOverHttp.BodiesOf` | bomba_http.hpp:24-140 | responses written one behind the other are told apart again by their lengths, and their bodies are the replies |
| `JsonRpcOverHttp.ServeJsonRpc` | bomba_json_rpc.hpp:217-227 | from end to end: for every stream of POSTs with JSON-RPC bodies and any pieces of it, each body is answered once, in order, up to the first request that asks to close, and the stream of responses is read as exactly these answers |
| `FormCodec.ReadValue` | bomba_http.hpp:243-261 | the value of a character of several bytes, unless the end cuts it off |
| `FormCodec.MangleHttpResponse` | bomba_http.hpp:218-275 | encodes as the encoding function says, all four lengths of UTF-8 |
| `FormCodec.ReadReference` | bomba_http.hpp:195-209 | recognises a character reference behind an escaped ampersand |
| `FormCodec.DemangleHttpResponse` | bomba_http.hpp:165-215 | decodes as the decoding function says, which `FormEscapes.EscapeMeans` pins for every escape in either case |
| `FormRoundTrip.MangleIsMangled` | bomba_http.hpp:236-274 | the encoding of a text's bytes is the encoding of its scalars, one after another |
| `FormRoundTrip.ReferenceMangled` | bomba_http.hpp:196-208 | behind an ampersand the decoder sees a reference exactly if the text looks like one |
| `FormRoundTrip.ScalarDecodes` | bomba_http.hpp:165-215 | every scalar outside of a false reference decodes as itself, but for U+0800 |
| `FormRoundTrip.FalseReferenceDecodes` | bomba_http.hpp:196-208 | what a false reference is decoded to, and where the decoder goes on |
| `FormRoundTrip.FirstStep` | bomba_http.hpp:165-215 | decoding an encoded text, one scalar or false reference at a time |
| `FormRoundTrip.NeverGrows` | bomba_http.hpp:165-275 | decoding gives no more bytes than were encoded, and fewer if the text does not survive |
| `FormRoundTrip.RoundTrip` | bomba_http.hpp:165-275 | for every text, decoding undoes encoding if and only if it holds neither U+0800 nor anything that looks like a reference |
| `FormRoundTrip.NotEvenAHash` | bomba_http.hpp:197-197 | a text without a hash that is decoded as a reference |
| `FormEscapes.EscapeMeans` | bomba_http.hpp:187-194 | each of the 256 escapes, its digits in either case, stands for its value and uses up three characters, unless it begins a reference |
| `FormEscapes.ReferenceIsSeen` | bomba_http.hpp:195-204 | what is taken for the rest of a reference, character by character |
| `FormEscapes.ReferenceMeans` | bomba_http.hpp:195-211 | a reference stands for its number in UTF-8, and one that is out of range for an ampersand |
| `FormEscapes.BrokenEscape` | bomba_http.hpp:187-194 | an escape with one digit, none, or a sign, or cut off by the end |
| `FormEscapes.EscapedReturns` | bomba_http.hpp:165-215 | bytes that are all escaped, in any case, return if and only if all of them are below 128; the others are encoded once more |
| `FormEscapes.CharacterIsWritten` | bomba_http.hpp:218-275 | each character is written as a plus sign, as itself, as an escape in lower case or as a reference, exactly as listed |
| `FormEscapes.BytesAreWritten` | bomba_http.hpp:236-274 | what is written for any bytes, UTF-8 or not, one character at a time |
| `FormRecord.Output.IntroduceObjectMember` | bomba_http.hpp:477-483 | the sign between members, the name as it is up to its first zero byte, and the sign before the value |
| `FormRecord.Output.WriteRecord` | bomba_http.hpp:472-486 | writes a row of members |
| `FormRecord.Input.ReadString` | bomba_http.hpp:365-367 | decodes up to the next sign and stops there |
| `FormRecord.Input.ReadRecord` | bomba_http.hpp:388-406 | reads the members as the reading function says |
| `FormRecord.MangledHasNoSeparators` | bomba_http.hpp:218-275 | an encoded value never holds one of the two signs |
| `FormRecord.DecodesAsItself` | bomba_http.hpp:165-215 | exactly the texts without percent and plus are decoded as themselves |
| `FormRecord.RowReturns` | bomba_http.hpp:388-406 | every row of any pairs returns pair by pair, empty values included, if and only if each pair does |
| `FormRecord.RecordRoundTrip` | bomba_http.hpp:388-486 | names and texts return exactly if every text survives and no name holds a zero byte, an equals, percent or plus sign, or begins with an ampersand |
| `FormRecord.Input.SkipObjectElement` | bomba_http.hpp:407-412 | skips as the skipping function says |
| `FormRecord.SkipLandsBehind` | bomba_http.hpp:407-412 | skipping a value ends where it ends if and only if nothing follows, or the value is not empty and does not begin with a character that its end cuts off |
| `FormRecord.MemberIsRead` | bomba_http.hpp:388-406 | in any text, a member is what is behind at most one ampersand, up to the first equals sign, and from there to the next ampersand or the end, both decoded |
| `FormRecord.WhatElse` | bomba_http.hpp:388-406 | every text that is not over is such a member and what follows it, or has no equals sign left and is a fault |
| `FormRecord.SkipsExactly` | bomba_http.hpp:407-412 | skipping in any text ends at the next ampersand behind at most one, or at the end |
| `LittleEndian.BytesAreTheNumber` | bomba_binary_protocol.hpp:19-36 | the bytes of a number, read without sign, are the number modulo the span of its width |
| `LittleEndian.NumberReturns` | bomba_binary_protocol.hpp:18-53 | for each of the eight types, a number returns exactly if the type holds it |
| `BinaryWire.LowestFirst` | bomba_binary_protocol.hpp:19-36 | each byte of a number, the lowest first |
| `BinaryWire.NumbersOnTheWire` | bomba_binary_protocol.hpp:19-36 | the bytes of each of the eight types |
| `BinaryWire.NumbersFromTheWire` | bomba_binary_protocol.hpp:38-53 | what any bytes are read as under each of the eight types, signs included |
| `BinaryWire.FlagsTogether` | bomba_core.hpp:116-126 | numeric flags that come together: unsigned if one of them is, as wide as the wider, but eight bytes for two and four |
| `BinaryCodec.Output.WriteSize` | bomba_binary_protocol.hpp:185-189 | a size is written twice when a numeric flag is set |
| `BinaryCodec.Output.WriteString` | bomba_binary_protocol.hpp:199-202 | a size and the text |
| `BinaryCodec.Output.WriteBool` | bomba_binary_protocol.hpp:203-205 | one byte, or as many as a numeric flag asks for |
| `BinaryCodec.Output.WriteValue` | bomba_binary_protocol.hpp:193-238 | appends the encoding of a value of any schema, under the flags that come down to it |
| `BinaryCodec.Output.WriteEntries` | bomba_core.hpp:1095-1104 | the entries of a dictionary, named unless the layout passes for known |
| `BinaryCodec.Output.WriteItems` | bomba_core.hpp:1047-1054 | the elements of an array |
| `BinaryCodec.Input.ReadInt` | bomba_binary_protocol.hpp:72-83 | a number of the type asked for, or a fault when the input is too short |
| `BinaryCodec.Input.ReadSize` | bomba_binary_protocol.hpp:84-88 | reads past the first size when a numeric flag is set |
| `BinaryCodec.Input.ReadString` | bomba_binary_protocol.hpp:107-117 | a size and that many bytes, or a fault |
| `BinaryCodec.Input.StartReadingArray` | bomba_binary_protocol.hpp:132-137 | opens an array at the next depth, up to three, without disturbing those around it |
| `BinaryCodec.Input.NextArrayElement` | bomba_binary_protocol.hpp:138-141 | takes the count down before it tests it |
| `BinaryCodec.Input.EndReadingArray` | bomba_binary_protocol.hpp:142-145 | goes back to the array around |
| `BinaryCodec.Input.ReadValue` | bomba_binary_protocol.hpp:97-172 | reads a value of any schema as the reading function says, and leaves depth and outer counts as they were |
| `BinaryCodec.Input.ReadFields` | bomba_object.hpp:420-446 | the members of a record, by index, until there is none left |
| `BinaryCodec.Input.ReadEntries` | bomba_core.hpp:1106-1111 | as many named entries as the size says |
| `BinaryCodec.Input.ReadItems` | bomba_core.hpp:1056-1068 | the loop over an array's elements |
| `BinaryWire.SizesOnTheWire` | bomba_binary_protocol.hpp:185-189 | two bytes for a size, and under a numeric flag the size in that type before it |
| `BinaryWire.ValuesOnTheWire` | bomba_binary_protocol.hpp:193-205 | the bytes of integers, booleans and texts |
| `BinaryWire.RecordOnTheWire` | bomba_object.hpp:420-446 | a record is the row of its members, without sizes or names |
| `BinaryWire.DictionaryOnTheWire` | bomba_core.hpp:1095-1104 | a dictionary is its count, and names and values in turn; in a record only the values |
| `BinaryWire.ArrayOnTheWire` | bomba_core.hpp:1047-1054 | an array is its count and its elements |
| `BinaryRoundTrip.TextReads` | bomba_binary_protocol.hpp:107-117 | a text returns exactly if its length fits into the size field |
| `BinaryRoundTrip.BoolReads` | bomba_binary_protocol.hpp:118-128 | a boolean's value always returns, and its end exactly if no flag has widened it |
| `BinaryRoundTrip.ArraysFallShort` | bomba_binary_protocol.hpp:138-141 | the number of elements read is the number written only for empty arrays |
| `BinaryRoundTrip.ValueConsumes` | bomba_binary_protocol.hpp:97-172 | how far the reader goes is a function of what it has read, and it never leaves its input |
| `BinaryRoundTrip.ReadsNoMore` | bomba_binary_protocol.hpp:185-238 | that is never farther than what was written for it |
| `BinaryRoundTrip.RoundTrip` | bomba_binary_protocol.hpp:18-238 | for every schema, all flags and every value, reading where it was written returns it and advances by exactly its encoding if and only if it is plain: integers held by their types, booleans not widened, lengths within their fields, records not empty, dictionaries outside of records, arrays empty |
| `BinaryRoundTrip.ArraysLoseTheLast` | bomba_binary_protocol.hpp:138-141 | an array of plain elements comes back without its last, and the reader stops in front of that |
| `BinaryReading.SpeltReads` | bomba_binary_protocol.hpp:84-172 | values of any schema, arrays in arrays among them, spelt with any byte for true, any number where a size is said first, and one more in each array's count than it has elements: such bytes are read as exactly this value if and only if no more than three arrays are inside of each other |
| `BinaryReading.OnlyShallow` | bomba_binary_protocol.hpp:132-145 | from any bytes at all, no more than three arrays inside of each other are read |
| `BinaryReading.PartsAreIncomplete` | bomba_binary_protocol.hpp:72-117 | whatever can be read is read alike without what follows, and is incomplete without any of its own bytes |
| `BinaryReading.SecondSizeCounts` | bomba_binary_protocol.hpp:84-88 | of two sizes that differ the second counts |
| `BinaryReading.NegativeSizes` | bomba_binary_protocol.hpp:84-88 | a size below zero: no text has it, and a dictionary with it is empty |
| `BinaryReading.NeverRead` | bomba_binary_protocol.hpp:132-137 | a fourth array, a dictionary in a record and a record without members cannot be read from any bytes |
| `Callables.FindCallable` | bomba_core.hpp:808-831 | the lookup, with its search for the separator, does what the lookup function says, which `Callables.LookupWalks` pins for every path |
| `Callables.WalksTo` | bomba_core.hpp:808-852 | with a separator of one character, the lookup of a path goes through every callable on the way |
| `Callables.LongSeparator` | bomba_core.hpp:814-818 | with a longer one it finds nothing below the first level |
| `Callables.PathRoundTrip` | bomba_core.hpp:808-851 | looking up a callable's path finds it if and only if it is the root, or has a name and needs no separator or one of a single character |
| `Callables.FirstNamedExactly` | bomba_rpc_object.hpp:728-738 | of the children with a name the first is found, and none exactly if there is none |
| `Callables.LookupWalks` | bomba_core.hpp:808-831 | for every path and every separator of one character, the lookup is the walk down the tree along the names that the path is split into |
| `Callables.UnknownPath` | bomba_core.hpp:824-826 | for every path, nothing is found if and only if some name on the way is no child's of the callable reached so far |
| `BinaryRpc.BinaryProtocolClient.CollectPath` | bomba_binary_protocol.hpp:340-348 | shifting indices up an array collects the path from the root, and a path of more than three is refused |
| `BinaryRpc.BinaryProtocolClient.Send` | bomba_binary_protocol.hpp:331-359 | writes the request: id, total size filled in afterwards, path, arguments; ids count up and wrap around |
| `BinaryRpc.ReadArguments` | bomba_rpc_object.hpp:443-453 | the callee takes its arguments by index |
| `BinaryRpc.Respond` | bomba_binary_protocol.hpp:256-292 | waits for the frame, follows the path, calls, and replies, as the server's answer function says; astray it disconnects, cut short it throws |
| `BinaryRpc.WriteReply` | bomba_binary_protocol.hpp:277-289 | the reply: the same id, the size filled in, the result |
| `BinaryRpcCalls.ArgumentsReturn` | bomba_rpc_object.hpp:412-426 | arguments are written as if their layout were unknown and read as if it were known; they return exactly if they are plain |
| `BinaryRpcCalls.PathIsFollowed` | bomba_binary_protocol.hpp:269-275 | the indices lead the server to the callable they were collected from |
| `BinaryRpcCalls.RequestIsServed` | bomba_binary_protocol.hpp:256-292 | a request calls exactly its method with the same arguments, uses up exactly its frame and is replied to under the same id, whatever follows it, if and only if the arguments are plain |
| `BinaryRpcCalls.PartsWait` | bomba_binary_protocol.hpp:258-267 | every strict prefix of a request makes the server wait without a call, if and only if the request's size fits its field |
| `BinaryRpcCalls.ResultReturns` | bomba_binary_protocol.hpp:306-324 | a reply carries the id and, exactly if it is shorter than 65536 bytes, its own size; the client reads the result exactly if that is plain |
| `BinaryWire.FrontsFromBytes` | bomba_binary_protocol.hpp:256-267 | id and size of a frame, from its first six bytes |
| `BinaryWire.FramesOnTheWire` | bomba_binary_protocol.hpp:331-359 | requests and replies byte by byte: id, size, the indices of the path, the arguments or the result |
| `BinaryWire.ArgumentsOnTheWire` | bomba_rpc_object.hpp:412-426 | arguments are written in turn, dictionaries among them with counts and names |
| `BinaryWire.PathLeadsDown` | bomba_binary_protocol.hpp:340-348 | the indices that the client sends lead down the children of the tree to the method |
| `BinaryWire.WhereItLeads` | bomba_binary_protocol.hpp:269-275 | on any input, following indices ends at a callable without children to which they lead down, at a number that is no child's, or at the end of the input |
| `BinaryWire.EveryAnswer` | bomba_binary_protocol.hpp:256-292 | what the server does about any bytes: it waits exactly for the size that is stated; it calls only the callable that the indices lead down to, once, with what it reads there; it closes the connection only where they lead to no child, and fails only where something ends too early |
| `Frames.FramesAndRest` | bomba_binary_protocol.hpp:310-319 | received bytes are complete frames and a rest that holds none |
| `Frames.MoreBytes` | bomba_sync_client.hpp:56-66 | more bytes only add frames behind the ones there are |
| `SyncClient.SyncNetworkClient.ReadResponse` | bomba_binary_protocol.hpp:307-323 | one look at the bytes: wait, somebody else's, or the call's own, which it then reads |
| `SyncClient.SyncNetworkClient.Sift` | bomba_sync_client.hpp:57-67 | the frames one piece completes: the call's own are heard, the others stored under their ids, the rest kept |
| `SyncClient.SyncNetworkClient.SearchRequests` | bomba_sync_client.hpp:31-69 | a stored response first, then piece by piece; it gives up inside of a frame |
| `Correlation.PieceKeeps` | bomba_sync_client.hpp:56-67 | one more piece keeps the correlation of responses and calls |
| `Correlation.RunsAreCorrelated` | bomba_sync_client.hpp:31-69 | in every run over responses with ids of their own, in any order and any pieces: the bytes received are the processed frames and the leftovers; each processed frame is stored under its id or was given to a call for it; no call was given another's |
| `Correlation.WhenAnswered` | bomba_sync_client.hpp:45-68 | a call that has to wait is answered exactly if some number of pieces brings its response and no piece before ends inside of a frame |
| `Correlation.SplitResponseIsMissed` | bomba_sync_client.hpp:61-62 | any response that comes in two pieces is missed by the call that waits for it and found by the next |
| `Correlation.HeardOnlyOnce` | bomba_binary_protocol.hpp:364-368 | once any call, a poll included, has heard its response, a later call hears it again if and only if the first found it stored |
| `Sifting.StoredExactly` | bomba_sync_client.hpp:57-67 | for all frames, repeated ids included: what was stored stays, the first frame for each other call is stored, and nothing else |
| `Sifting.HeardExactly` | bomba_sync_client.hpp:57-67 | a call is given the bytes from each frame with its id on, in order |
| `Sifting.ListensExactly` | bomba_sync_client.hpp:45-68 | how many pieces a call reads, what it stores, keeps and hears, for all pieces |
| `FramedConnection.DrainGetsThrough` | bomba_tcp_server.hpp:75-81 | a window over a row of frames is drained frame by frame, and a part of the next is kept |
| `FramedConnection.PiecesGetThrough` | bomba_tcp_server.hpp:64-137 | after any pieces, the frames that are complete were answered in order and less than the next one is kept |
| `FramedConnection.ServeFrames` | bomba_tcp_server.hpp:64-137 | however the network cuts a stream of frames, each is answered once, in order |
| `BinaryRpcOverTcp.MakeCalls` | bomba_binary_protocol.hpp:331-359 | the client's calls, one after another, write the row of requests that the server's theorem is about |
| `BinaryRpcOverTcp.ServerAnswersWell` | bomba_binary_protocol.hpp:256-292 | on any input at all the server consumes at least a header and no more than there is |
| `BinaryRpcOverTcp.ServerServes` | bomba_binary_protocol.hpp:256-292 | the server answers each request that can be made, and waits for each part of one |
| `BinaryRpcOverTcp.ServeCalls` | bomba_binary_protocol.hpp:256-292 | for every row of calls and any pieces of the stream, each call is made once, in order, with its own arguments, and replied to under its own id |
| `BinaryRpcOverTcp.CallsReadTheirReplies` | bomba_binary_protocol.hpp:306-363 | in every run of the client over a stream of the replies, what a call is given begins with the reply to its own request |
| `BinaryRpcOverTcp.CallsReadTheirResults` | bomba_binary_protocol.hpp:306-363 | from end to end: what a call reads is the result of its own method on its own arguments, exactly if that result is plain |

## Left out

- Sockets, event loops, threads, timing and the TLS client: the network is a source of pieces, chosen by whoever quantifies over them.
- Errors of the network: a call that waits ends when no more pieces come; the buffer's `receive` is told of the error.
- Responders and callables of the user are functions; what they do besides answering is not modelled.
- Compile-time reflection: members and arguments are a given list of schemas. Skipping a false argument under a flag that omits it is not modelled.
- Floating-point numbers in every format.
- The texts of HTTP error responses (204, 400, 404, 500, 501): a session's events say which responder was called, not what was sent.
- The HTTP client. It reads several responses with one parser that it does not reset between them; the binary client is the one modelled.
- Frames smaller than their header are not claimed to be handled well; the parser, the session, the form decoder, the readers and the binary server are modelled on all inputs.
- The memory behind the unread bytes of a connection: a place that reaches there shows as many unknown characters (`Stray` with a number `outside`).
- A sum of positions beyond 32 bits, a negative content length and a request line with fewer than two blanks end in `Thrown`.
- JSON: escapes with `\u`, which the code does not decode, floating-point numbers, and reading a map into one that is not empty. A header value that begins with a colon loses it.
- JsonSkip.SkipLandsBehind: says for containers that strings which are followed are enough; a container may also be skipped correctly although the skipper loses its way in two of its strings.
- HttpReplies.ResponseIsRead: is about content types without a carriage return, as are the two round trips; a header cannot hold one.
- JsonInput.Input.ReadValue: floating-point numbers, which the code reads, are a fault here.
- BinaryCodec.Input.ReadString: a size that is negative (a flag for 64 bits, a size beyond 2^63) is a fault; the code then builds a view that ends before it begins.
- JsonRpcServer.Dispatch.WriteId: asks for a value behind which reading and skipping stop at the same place; with any other, such as a string in which the skipper loses its way, the dispatcher goes on from wherever it was led.
- JsonRpcServer.Dispatch.OnMethod: asks for such a value, because a second method is skipped and the first is read.
- JsonRpcServer.Dispatch.OnParams: asks for such a value, because parameters are skipped first and read later.
- JsonRpcServer.Dispatch.OnMember: asks for such a value, whatever the member.
- JsonRpcServer.ReadMembers: asks for such values, and for at most one identifier: a second one before the call would begin a second response inside of the first.
- JsonRpcPost.PostBatch: asks for such values and at most one identifier in each request of the batch.
- JsonRpcPost.Post: asks for such values and at most one identifier in each request.
- JsonRpcServer.RespondInternal: is about requests with at most one identifier and values on which reading and skipping agree; leaves open where the input stands after a failed request; its caller restores the position and skips.
- JsonRpcPost.AnswerRequest: is about written requests without repeated names; `JsonRpcRepeats` says on members which of repeated names count, and `JsonRpcServer.RespondInternal` covers them on text.
- The JSON-RPC service description, file servers, dynamic lambdas and the JavaScript client: plumbing.
- FormRecord.RecordRoundTrip: is about text values; integers, and `true`, are written as they are and are not modelled in records.
- BinaryRoundTrip.RoundTrip: a dictionary is the pairs it is given, in order; when names repeat, a map would keep the last. Targets of reading are empty. Arrays of fixed size are not modelled.
- BinaryRpcCalls.RequestIsServed: asks for a method that is a leaf whose indices fit into a byte each, as the protocol does.
- SyncClient.SyncNetworkClient.Sift: asks that no frame be smaller than its header.
- SyncClient.SyncNetworkClient.SearchRequests: asks that no frame on the connection be smaller than its header; the loop would not end otherwise.
- Callables.PathRoundTrip: asks for names without characters of the separator, and different names for siblings.
- An explicit `flush` of a streaming buffer in the middle of its use, which the library never does, would repeat bytes; it is not in the model's runs.
