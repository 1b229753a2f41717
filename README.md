# httpfromtcp: HTTP/1.1 framing, modelled in Dafny

httpfromtcp is a small HTTP/1.1 server written in Go over raw TCP. This
project models the server's framing core and proves properties of it:

- the request side: reading a request line and header fields from a
  connection that delivers bytes in arbitrary pieces;
- the response side: the status line, header blocks, plain and chunked
  bodies, and trailers, written in a fixed order;
- the plain-text error response a handler failure produces.

Modules, one per core file plus two support modules:

| module | file | models |
|---|---|---|
| `HeaderFields` | `header_fields.dfy` | `internal/headers/headers.go`: the header map (`class Headers`) with `Set`, `Overwrite`, `Get` and the one-line-per-call `Parse`. These are also written as functions on map values (`SetField`, `OverwriteField`, `Lookup`, `ParseField`), and the methods are proved equal to them. |
| `Requests` | `requests.dfy` | `internal/request/request.go`. `requestLineFromString` and `parseRequestLine` are pure functions. `parseSingle` and `parse` are the methods `Request.ParseSingle` and `Request.Parse`, proved against `Step` and `Run`. `RequestFromReader` is a method over an `array<char>` buffer that starts at 8 bytes, doubles when full and is compacted after every parse. The `io.Reader` is `ChunkReader`, which hands out a fixed sequence of chunks. |
| `StatusLines` | `status_line.dfy` | `internal/response/status_line.go`: the reason table and `WriteStatusLine`, plus a reader of the status line for the round trip. |
| `ResponseHeaders` | `response_headers.dfy` | `internal/response/headers.go`: `GetDefaultHeaders`, and `WriteHeaders` with its serialising loop (`SerializeFields`). |
| `ResponseWriter` | `writer.dfy` | `internal/response/writer.go`: the `Writer` class with its `state` field and six write methods, and the grammar of call sequences it accepts. |
| `ChunkedCoding` | `chunked.dfy` | A decoder for the chunked coding of section 7.1 of RFC 9112. It is the decoder that reads back what the writer writes: `WriteChunkedBody`, `WriteChunkedBodyEnd` and `WriteTrailers` write decodes back to the body and the trailers. |
| `Server` | `server.dfy` | `internal/server/handler.go`: `HandlerError` and `respondWithError`. |
| `Sinks` | `sinks.dfy` | The `io.Writer` the response side writes to. A sink has limited room; a write beyond it is cut short and reports an error. |
| `Wire` | `wire.dfy` | The Go library functions the core relies on, over ASCII strings: `bytes.Index`, `strings.Split`, `strings.TrimLeft(s, " ")`, `strings.TrimSpace`, `strings.ToLower`, and the `%d`/`%v`/`%x` formatting of integers, each with its inverse. |
| `Results` | `results.dfy` | `Option` and `Result`. |

Modelling choices:

- **Bytes and strings.** Go byte slices and strings are both Dafny `string`, one character per octet.
- **Error values.** Go's error strings become enumerations: `HeaderError`, `LineError`, `ParseError`, `RequestError` and `WriterError`, one value per distinct message.
- **Map iteration order.** Go visits a map in an unspecified order. Every serialiser therefore returns a ghost `order`, and its contract holds for whatever ordering of the keys that is.

## Model

| member | source | states |
|---|---|---|
| HeaderFields.HasWhitespace | internal/headers/headers.go:75-82 | validateKeyWhitespace reports an error exactly when some character of the key is white space |
| HeaderFields.SetField | internal/headers/headers.go:47-58 | an invalid name is refused with the map unchanged; otherwise the lower-cased name is present afterwards, every other entry is kept, and the value is appended after ", " to an existing value or inserted alone |
| HeaderFields.OverwriteField | internal/headers/headers.go:60-67 | an invalid name is refused; otherwise the lower-cased name maps to exactly the new value and all other entries are kept |
| HeaderFields.Lookup | internal/headers/headers.go:69-73 | Get finds a value exactly when the lower-cased name is present, and then returns the stored value; otherwise it returns "" and false |
| HeaderFields.Headers.Get | internal/headers/headers.go:69-73 | the method on the header map: found exactly when the lower-cased name is among the fields, the stored value then, "" otherwise |
| HeaderFields.ParseField | internal/headers/headers.go:19-45 | Parse never consumes more than it is given; an error consumes nothing, is not done and leaves the map as it was; done means exactly the 2 bytes of CRLF were consumed with the map unchanged |
| HeaderFields.Headers.constructor | internal/headers/headers.go:14-17 | NewHeaders starts with an empty map |
| HeaderFields.Headers.Set | internal/headers/headers.go:47-58 | the method updates the `fields` field as SetField says, and reports InvalidKey with the map untouched otherwise |
| HeaderFields.Headers.Overwrite | internal/headers/headers.go:60-67 | the method updates `fields` as OverwriteField says |
| HeaderFields.Headers.Parse | internal/headers/headers.go:19-45 | the method's count, done flag, error and new map are those of ParseField on the old map |
| HeaderFields.ParseNeedsMoreIff | internal/headers/headers.go:20-23 | Parse asks for more data (0, not done, no error, map untouched) if and only if no CRLF has arrived |
| HeaderFields.ParseDoneIff | internal/headers/headers.go:24-26 | Parse reports done if and only if the data starts with CRLF, and then consumes exactly those 2 bytes |
| HeaderFields.ParseFieldLine | internal/headers/headers.go:27-44 | a field line (leading spaces, a token, ":", a value without CR or LF, CRLF) is consumed through its CRLF; the trimmed value is stored under the lower-cased name, combined with an earlier value as Set does |
| HeaderFields.ParseRejectsWhitespaceInName | internal/headers/headers.go:31-36 | a line `spaces + name + ":" + value + CRLF`, whose name (after its leading spaces, before the first colon) holds white space, gives MalformedKey, with nothing consumed, not done and the map intact |
| HeaderFields.ParseRejectsSpaceBeforeColon | internal/headers/headers_test.go:90-96 | `name :value` (a space before the colon, with or without leading spaces) is refused with MalformedKey, 0 consumed, not done, the map intact |
| HeaderFields.ParseRejectsLineWithoutColon | internal/headers/headers.go:27-30 | a line without a colon fails with nothing consumed: NoColon when the data holds no colon at all, MalformedKey when the first colon is on a later line |
| HeaderFields.ColonWithinLine | internal/headers/headers.go:31-38 | once the name passes the white-space check, the first colon lies before the first CRLF, so the value slice `data[idxSep+1:idx]` is never inverted |
| HeaderFields.ParseFieldExtend | internal/headers/headers.go:19-45 | a Parse that consumed bytes gives the same result on any longer input, and a Parse that failed still fails |
| HeaderFields.SingleField | internal/headers/headers.go:27-44 | `name: value` followed by CRLF, on an empty map, consumes the line and stores the value under the lower-cased name |
| HeaderFields.HostFieldExample | internal/headers/headers_test.go:11-19 | `Host: localhost:42069` then the blank line: 23 + 2 = 25 bytes, done, value stored under "host" |
| HeaderFields.SetAllAccumulates | internal/headers/headers.go:52-54 | repeated Set calls on a present name accumulate the values in the order they came, separated by ", " |
| HeaderFields.SetAllFresh | internal/headers/headers.go:47-58 | on a fresh name, a run of Set calls stores exactly the values joined by ", " |
| HeaderFields.RepeatedFieldExample | internal/headers/headers_test.go:73-80 | the repeated-field test: the three `Set-Person` lines take 27, 29 and 28 bytes and the blank line 2, 86 in all, each Parse call working on what the previous ones left; Get("Set-Person") then returns "lane-loves-go, prime-loves-zig, tj-loves-ocaml" |
| HeaderFields.RepeatedFields | internal/headers/headers.go:19-58 | three field lines with one name and the blank line, parsed call after call: each call consumes one line and combines its value with the earlier ones, and the last call ends at the blank line |
| HeaderFields.FieldOnMap | internal/headers/headers.go:27-44 | a `name: value` line on any map is consumed through its CRLF, and the map becomes what Set of that value makes it |
| HeaderFields.GetAfterSet | internal/headers/headers.go:69-73 | Get is case-insensitive: after a Set on a fresh name, every spelling with the same lower case finds the value |
| HeaderFields.GetAfterOverwrite | internal/headers/headers.go:60-73 | after Overwrite, Get returns exactly the new value whatever was stored before |
| Requests.AcceptedTarget | internal/request/request.go:154-157 | which targets url.ParseRequestURI accepts: no control byte, non-empty, `*`, an origin-form path starting with "/", or a scheme followed by an opaque part, an authority or a path, with complete percent escapes |
| Requests.OriginFormAccepted | internal/request/request.go:154-157 | every "/"-path without control bytes, '%' or '?' is accepted as a target |
| Requests.InvalidNotAccepted | internal/request/request.go:154-157 | the target "invalid" (no scheme, no leading "/") is refused |
| Requests.RequestLineFromString | internal/request/request.go:137-181 | an accepted line has version "1.1", a non-empty upper-case method, and an accepted target without spaces |
| Requests.RequestLineIff | internal/request/request.go:137-181 | requestLineFromString returns a line if and only if that line is well formed and the string is exactly its rendering `METHOD SP target SP HTTP/1.1` |
| Requests.RenderedLineAccepted | internal/request/request.go:137-181 | every well-formed line, rendered, parses back to itself |
| Requests.AcceptedLineRenders | internal/request/request.go:137-181 | every accepted string is the rendering of the line it parses to |
| Requests.MalformedLineIff | internal/request/request.go:139-142 | the "malformed request line" error occurs exactly when the line does not hold exactly two spaces |
| Requests.ParseRequestLine | internal/request/request.go:125-136 | never more bytes than given; bytes are consumed exactly when a line is returned; an error consumes nothing |
| Requests.ParseRequestLineCases | internal/request/request.go:125-136 | parseRequestLine asks for more data exactly when no CRLF has arrived; once one has, it decides on the text before it and consumes through that CRLF |
| Requests.ParseRequestLineRoundTrip | internal/request/request.go:125-136 | a rendered well-formed line followed by CRLF gives the line back and consumes its length plus 2 |
| Requests.ParseRequestLineExtend | internal/request/request.go:125-136 | once parseRequestLine has decided (a line or an error), more bytes change nothing |
| Requests.Step | internal/request/request.go:89-123 | parseSingle consumes at most what it is given, and a step that consumes nothing leaves the state alone |
| Requests.StepMonotone | internal/request/request.go:89-123 | the status moves only forward (Initialized, ParsingHeaders, Done); past Initialized the request line stays; Done is reached only on the blank line; a step on a Done request fails with "request already parsed" |
| Requests.StepTakesLine | internal/request/request.go:91-103 | the step that leaves Initialized is exactly the one where parseRequestLine returned a line, and it stores that line |
| Requests.StepExtend | internal/request/request.go:89-123 | a step that consumed bytes, or failed, does the same on a longer input |
| Requests.Run | internal/request/request.go:74-87 | parse never reports more bytes than it is given |
| Requests.RunKeepsLine | internal/request/request.go:74-87 | once past Initialized, parse never changes the request line nor returns to Initialized |
| Requests.RunStops | internal/request/request.go:76-85 | parse stops only at Done or where a further step would consume nothing |
| Requests.RunResume | internal/request/request.go:63-68 | parse over the old bytes and then again over the unparsed rest plus new bytes equals parse over everything at once; this is what makes the buffered loop sound |
| Requests.RunFailExtend | internal/request/request.go:74-87 | a parse failure stays a failure whatever bytes follow |
| Requests.Request.constructor | internal/request/request.go:38-40 | a new request is Initialized with no header map |
| Requests.Request.ParseSingle | internal/request/request.go:89-123 | the method's count, error and new state are exactly Step on the old state; on an error nothing changes |
| Requests.Request.Parse | internal/request/request.go:74-87 | the loop's total and new state are exactly Run on the old state; on an error it reports 0 |
| Requests.FromBytes | internal/request/request.go:36-72 | a request that is read successfully is Done |
| Requests.FromBytesExtend | internal/request/request.go:36-72 | a parsed request is final, unchanged by later bytes (such as a body), and a parse error stays a parse error |
| Requests.RunTakesLine | internal/request/request.go:91-103 | a well-formed request line is taken in one step and parse continues after its CRLF with no fields |
| Requests.RunEndsAtBlankLine | internal/request/request.go:104-116 | in the header state the blank line ends parsing, Done, with 2 bytes used |
| Requests.BareRequest | internal/request/request.go:36-72 | a rendered well-formed request line followed by an empty header block parses to that line with no fields, whatever follows |
| Requests.ChunkReader.constructor | internal/request/request_test.go:12-16 | a reader is built over its chunks |
| Requests.ChunkReader.Read | internal/request/request_test.go:20-34 | Read copies the first chunk, cut to the room offered, into the buffer at the given offset and leaves the rest of the buffer alone; the bytes handed out and the bytes remaining make up the old remaining bytes; EOF comes with nothing when no chunk is left |
| Requests.Grow | internal/request/request.go:45-49 | a full buffer is replaced by one twice as long holding the old bytes at the front |
| Requests.Compact | internal/request/request.go:67-68 | `copy(buffer, buffer[n:])` moves the unparsed bytes to the front, and readToIndex becomes the count of those bytes |
| Requests.Fill | internal/request/request.go:45-51 | one read: after an optional grow, the buffered bytes are kept and followed by the bytes the reader handed out; an EOF leaves the reader empty |
| Requests.ParseBuffered | internal/request/request.go:63-68 | one parse of the buffer continues the parse of everything read so far, and the unparsed rest ends up at the front of the buffer; an error is the error of parsing everything read |
| Requests.RequestFromReader | internal/request/request.go:36-72 | the result is what parsing every byte taken in gives: the Done request, "Incomplete Request" at EOF before Done, or the parse error. The result does not depend on how the reader cuts its input into chunks; it agrees with parsing the reader's whole input at once. On "Incomplete Request" the reader is drained: its old input is the bytes parsed plus the bytes dropped, and bytes are dropped only when EOF came together with the last chunk; with such a reader, the bytes parsed are fewer than the whole input |
| Requests.ReadAndParse | internal/request/request.go:44-68 | one turn of the loop: a read, and unless it reported EOF a parse of the buffer that continues the parse of everything read so far; at EOF the request state is untouched and the reader is empty |
| Requests.BarePrefixIncomplete | internal/request/request.go:52-56 | every proper prefix of a bare request (request line, CRLF, blank line) leaves the parse short of Done, so it ends in "Incomplete Request" |
| Requests.EofWithLastRequest | internal/request/request.go:51-56 | a reader that hands out the whole request `GET / HTTP/1.1` CRLF CRLF together with EOF gets "Incomplete Request": the bytes of the last read are never parsed |
| StatusLines.Reason | internal/response/status_line.go:16-20 | a reason phrase never holds CR or LF |
| StatusLines.ReasonTable | internal/response/status_line.go:16-24 | 200 is "OK", 400 "Bad Request", 500 "Internal Server Error", and every other code gets the empty phrase, written as "HTTP/1.1 <code> " then CRLF |
| StatusLines.WriteStatusLine | internal/response/status_line.go:22-26 | one write of `HTTP/1.1 <code> <reason>` CRLF; the sink gets as much of it as it has room for, with an error exactly when it lacked room |
| StatusLines.StatusLine | internal/response/status_line.go:22-26 | the status line `HTTP/1.1 <code> <reason>` CRLF holds exactly one CRLF, the one it ends with |
| StatusLines.StatusLineReadsBack | internal/response/status_line.go:22-26 | a client reading the status line back gets the code, its phrase and the line length, whatever follows |
| ResponseHeaders.SerializeFields | internal/response/headers.go:20-24 | the loop builds one `key: value` CRLF line per map entry, in an order that lists every key once, then the blank line |
| ResponseHeaders.WriteHeaders | internal/response/headers.go:19-27 | that block is written in one write, as much of it as the sink takes |
| ResponseHeaders.GetDefaultHeaders | internal/response/headers.go:11-17 | the returned header map is fresh and holds what the three Set calls make |
| ResponseHeaders.DefaultFields | internal/response/headers.go:11-17 | the defaults are exactly content-length (the decimal length), connection "close" and content-type "text/plain" |
| ResponseHeaders.BlockSizeAnyOrder | internal/response/headers.go:19-27 | whatever order the keys are visited in, the block is |key| + |value| + 4 bytes per entry plus 2 for the blank line; an empty map gives just CRLF |
| ResponseHeaders.BlockReadsBack | internal/response/headers.go:19-27 | a block of lower-case token names and plain values, read back with the header-line parser, gives exactly the map it was written from and uses exactly its bytes |
| ResponseHeaders.DefaultFieldsPlain | internal/response/headers.go:11-17 | the default headers are such a map, so their block reads back |
| ResponseWriter.Writer.constructor | internal/response/writer.go:23-28 | a new writer waits for the status line |
| ResponseWriter.Writer.WriteStatusLine | internal/response/writer.go:30-43 | out of order: the ordering error, nothing written and the state kept. Otherwise the writer's own status line is written, as much as the sink takes, and the state moves to headers even when the write falls short |
| ResponseWriter.Writer.WriteHeaders | internal/response/writer.go:45-57 | same shape, with the header block for some ordering of the keys; the state moves to the body |
| ResponseWriter.Writer.WriteBody | internal/response/writer.go:59-66 | same shape, with the body; the state moves to trailers; the count is what the sink took |
| ResponseWriter.Writer.WriteChunkedBody | internal/response/writer.go:68-94 | same shape, with the size in lower-case hex and CRLF, the bytes, and CRLF; the state stays at the body; the count covers only the writes that went through whole |
| ResponseWriter.Writer.WriteChunkedBodyEnd | internal/response/writer.go:96-102 | same shape, with "0" CRLF; the state moves to trailers |
| ResponseWriter.Writer.WriteTrailers | internal/response/writer.go:104-115 | same shape, with the trailer block in header format; the state stays at trailers |
| ResponseWriter.WriteInTurn | internal/response/writer.go:73-93 | three writes that stop at the first short one leave the same bytes as one write of all three, and count only the whole writes |
| ResponseWriter.WriterStatusLineAgrees | internal/response/writer.go:35-41 | the writer's reason table equals the one in status_line.go, so both writers emit the same status line for every code |
| ResponseWriter.CompletedBounds | internal/response/writer.go:73-93 | the count WriteChunkedBody reports never exceeds the bytes the sink took, and is the whole output when the sink had room |
| ResponseWriter.ChunkExample | internal/response/writer.go:68-94 | chunks "abc" and "de" go on the wire as `3` CRLF `abc` CRLF `2` CRLF `de` CRLF |
| ResponseWriter.EndNeedsTrailers | internal/response/writer.go:96-115 | the end call alone writes "0" CRLF; the final CRLF of the chunked body comes only from a following WriteTrailers |
| ResponseWriter.Monotone | internal/response/writer.go:30-115 | no call moves the state backwards |
| ResponseWriter.ReplayIff | internal/response/writer.go:30-115 | a new writer accepts every call of a sequence if and only if the sequence is a status line, headers, any number of chunks, then at most one plain body or chunk end, then only trailers (or a prefix of such a sequence) |
| ResponseWriter.ReplayMonotone | internal/response/writer.go:30-115 | a run of accepted calls never leaves the writer in an earlier state |
| ChunkedCoding.ChunkedRoundTrip | internal/response/writer.go:68-115 | non-empty chunks, the last chunk and a trailer block of plain fields decode back to the concatenated chunks and the trailer map, using exactly the bytes written |
| ChunkedCoding.ChunkedWire | internal/response/writer.go:68-115 | the calls WriteChunkedBody per chunk, WriteChunkedBodyEnd and WriteTrailers are accepted in the body state and write exactly the chunked coding the decoder reads |
| ChunkedCoding.ReplayChunks | internal/response/writer.go:68-72 | any number of chunk calls are accepted in the body state and leave it there |
| Server.RespondWithError | internal/server/handler.go:16-22 | the three writes leave on the sink the prefix of status line + default header block + message that the sink has room for, whatever the write errors |
| Server.ErrorResponse | internal/server/handler.go:16-22 | the bytes of the error response begin with a status line that reads back as the handler's code and its phrase, and end with the message |
| Server.ErrorResponseReadsBack | internal/server/handler.go:16-22 | a client reading the error response gets the code and phrase from the status line, exactly the default fields from the headers, a content-length equal to the message length, and the message as the rest |
| Server.ErrorResponseLength | internal/server/handler.go:16-22 | the response's length is the same whatever order the header keys came out in |
| Server.DefaultContentLength | internal/response/headers.go:11-17 | the default fields announce the content length they were built for |
| Sinks.Sink.Write | internal/response/writer.go:65 | io.Writer's contract: a write takes as much as there is room for, and reports an error exactly when that is less than everything |
| Sinks.WritesCompose | internal/server/handler.go:16-22 | two writes in a row leave what one write of both pieces would |
| Wire.IndexOf | internal/headers/headers.go:20 | bytes.Index: the first occurrence, or -1 when there is none |
| Wire.Split | internal/request/request.go:139 | strings.Split always gives at least one part, and no part holds the separator |
| Wire.JoinSplit | internal/request/request.go:139 | strings.Split loses nothing: joining the parts with the separator gives back the string |
| Wire.SplitJoin | internal/request/request.go:139 | splitting parts that do not contain the separator, once joined, gives back those parts |
| Wire.SplitCount | internal/request/request.go:139-140 | strings.Split gives one more part than there are separators |
| Wire.TrimSpace | internal/headers/headers.go:37-39 | strings.TrimSpace leaves no white space at either end and never lengthens the value |
| Wire.TrimSpaceDropsOnlySpace | internal/headers/headers.go:37-39 | strings.TrimSpace returns a slice of the value, and everything it cut off before and after that slice is white space |
| Wire.TrimLeftSpaces | internal/headers/headers.go:32 | strings.TrimLeft(key, " ") removes exactly the leading spaces and nothing else |
| Wire.Lower | internal/headers/headers.go:51 | strings.ToLower, character by character, on ASCII |
| Wire.LowerIdempotent | internal/headers/headers.go:69-73 | lower-casing twice is lower-casing once, so stored names are found again |
| Wire.Decimal | internal/response/headers.go:13 | the `%v` rendering of an integer is non-empty, made of digits after an optional '-', with the '-' exactly when the integer is negative |
| Wire.Hex | internal/response/writer.go:76 | the `%x` rendering is lower-case hex digits with no leading zero |
| Wire.NoLineEnd | internal/headers/headers.go:20 | bytes.Index finds no CRLF in data without a CR before its last byte |
| Wire.DecimalRoundTrip | internal/response/headers.go:13 | the `%v` decimal rendering of an integer reads back as that integer |
| Wire.HexRoundTrip | internal/response/writer.go:76 | the `%x` rendering of the chunk size reads back as that size |

## Left out

- `cmd/httpserver/main.go`, `cmd/tcplistener/main.go`, `cmd/udpsender/main.go`, `main.go` and `internal/response/codes.go` are not part of this model. Neither is the accept loop that calls handlers.
- The request body: `request.go` stops at the blank line after the headers and has no body state. The model follows the code, and bytes after the blank line are left unread.
- Requests.AcceptedTarget: an approximation of Go's `url.ParseRequestURI`. It covers control bytes, the empty string, `*`, origin-form paths, schemes (opaque part, authority and path) and percent escapes in the path. It does not model IPv6 hosts, ports, or the validation of user information.
- HeaderFields.IsValidKey: `isValidKey` is defined outside headers.go; it is modelled as the token rule of section 5.6.2 of RFC 9110, one or more tchars.
- Wire.IsSpace, Wire.Lower and Wire.TrimSpace: ASCII only. Go's Unicode white space and case mapping for non-ASCII runes are not modelled.
- Requests.RequestFromReader: agreement with the reader's whole input is stated only for readers that do not hand out bytes together with EOF. The source drops such bytes; for those readers the contract states instead which bytes were dropped and that the result is "Incomplete Request". Failures are compared only by kind, "Incomplete Request" against parse error. The reason is that the header error kind depends on where the input is cut: a line without a colon gives NoColon while no colon has arrived, and MalformedKey once a later line brings one.
- Read errors other than EOF, and write errors other than a short write, are not modelled. Errors are enumeration values, not formatted messages.
- The debug `fmt.Printf` calls in `request.go` are left out.
- Map iteration order is not modelled as Go's randomised order. It is a ghost ordering, and every contract holds for every ordering.
- Integers are unbounded. `int` overflow of buffer sizes and counts is not modelled.
- Requests.ChunkReader.Read: the test reader's cap of `numBytesPerRead` bytes per call is expressed by the chunk sequence itself. Any cutting of the input into pieces is a chunk sequence.
