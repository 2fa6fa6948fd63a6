# httpserver request pipeline in Dafny

This project models the per-connection pipeline of the small Rust HTTP
server: `handle_connection` in `src/server.rs` and the route table it reads.
The socket and the thread are taken away. What is left is a chain of pure
steps, and each step is a Dafny function with a contract:

- **Framing** (`framing.dfy`): the read loop appends 1024-byte reads until a
  read is short or empty. The socket is replaced by the list of outcomes its
  reads would return.
- **Parser** (`parser.dfy`): the request text is split on CRLF. The request
  line is split on single spaces. Header lines run up to the first empty line
  and are split on `:`. The line after the empty line is the body. Every
  `unwrap`/`expect` that bad input reaches is a `ParseError`. A renderer is
  the parser's partner: parsing a rendered well-formed request gives the
  request back.
- **Routing** (`routing.dfy`): `HttpMethod`, `HttpRoute`, the registration
  functions `any`/`get`/`post` as map updates, the method-token mapping, and
  exact-key lookup.
- **Response** (`response.dfy`, `bufwriter.dfy`): the status line, the
  optional `Content-Encoding: gzip` line, `Content-Length`, the blank line
  and the payload. They are written through a model of `std::io::BufWriter`.
  A reader of that layout is the partner: it recovers the gzip flag, the
  declared length and the payload.
- **Connection** (`connection.dfy`): gzip negotiation and the whole
  pipeline from the reads to the response. `Serve` and `HandleConnection`
  end with everything written into the response writer, which is the
  corrected send. `ServeAsSent` and `HandleConnectionAsSent` end with the
  bytes that src/server.rs:183 actually hands to the socket (see
  "## Findings").
- **Server** (`server.dfy`): connections one after another sharing the
  table's `Mutex`, including the lock poisoning that a missing route
  causes.
- **Examples** (`parser_examples.dfy`, `connection_examples.dfy`): the
  example route table of `src/main.rs`, and concrete requests such as
  `GET / HTTP/1.1` answered with `HELLO`.

The Rust standard-library behaviour that the code relies on is modelled in:

- `text.dfy`: `str::split`, `str::trim` with the Unicode White_Space set,
  `to_lowercase` on ASCII, `contains`, and `{}` formatting of an unsigned
  integer.
- `utf8.dfy`: UTF-8 encoding per RFC 3629, with a decoder as its partner.

Two parsing details follow the code and differ from RFC 9112. The first
concerns the field syntax of section 5, the second the request line of
section 3:

- A header line is split on every colon, and the value is only the text
  between the first and the second colon (`Host: a:7878` gives `a`).
- Request-line tokens after the third are ignored.

## Model

| member | source | states |
|---|---|---|
| Framing.ReadRequest | src/server.rs:85-96 | The request bytes are the concatenation of the reads up to and including the first one that is not full. A failed read before that point is an I/O failure, and a script of only full reads never ends. |
| Framing.StopIsUnique | src/server.rs:87-96 | At most one read stops the loop. Framing.StopsOrStalls gives the existence half, and an all-full script never stops. |
| Framing.StopsOrStalls | src/server.rs:87-96 | Either some read stops the loop or every read fills the buffer, so the three outcomes of the loop cover every input. |
| Framing.AppendedChunks | src/server.rs:81-96 | Every appended read except the last has exactly 1024 bytes. The last one is shorter and may be empty, so the request is k*1024 bytes plus the last read. |
| Framing.LengthOfFullRun | src/server.rs:92-93 | A run of full reads followed by one more read contributes 1024 bytes per full read plus the last read. |
| Text.Split | src/server.rs:108 | `split` on a non-empty separator gives at least one part. No part contains the separator, and joining the parts with it restores the text. |
| Text.SplitJoin | src/server.rs:108 | For a separator that cannot overlap itself, splitting text joined from separator-free parts gives exactly those parts. |
| Text.SplitCons | src/server.rs:112 | A separator-free prefix followed by the separator is split off as the first part. |
| Text.IndexOf | src/server.rs:123 | Finds the leftmost occurrence of a pattern, or reports that there is none. |
| Text.ContainsMeansOccurs | src/server.rs:144 | `contains` holds exactly when the pattern occurs at some position. |
| Text.ContainsSingle | src/server.rs:123 | A one-character pattern occurs exactly when the character occurs. |
| Text.Trim | src/server.rs:126 | The result has no surrounding whitespace. The input is the result framed by whitespace runs. |
| Text.TrimUnique | src/server.rs:126 | Trimming a trimmed core framed by whitespace runs gives that core, whatever the runs are. |
| Text.TrimIdempotent | src/server.rs:126 | Trimming twice is trimming once. |
| Text.Lower | src/server.rs:125 | Lower-casing keeps the length and maps each character through the ASCII lower-case mapping. |
| Text.LowerFixpoint | src/server.rs:125 | Lower-casing is idempotent, and it leaves a text unchanged exactly when the text has no upper-case letter. |
| Text.Decimal | src/server.rs:181 | The `{}` numeral is a non-empty run of digits with no leading zero. |
| Text.DecimalRoundTrip | src/server.rs:181 | Reading the numeral back gives the number. |
| Text.DecimalLength | src/server.rs:181 | A numeral has at most one digit more than a tenth of its value. |
| Utf8.EncodeChar | src/server.rs:173 | One character is 1 to 4 bytes. The lead byte announces the length, the other bytes are continuation bytes, and ASCII is one byte equal to its code. |
| Utf8.Encode | src/server.rs:173 | The encoding is at least as long as the text. It is equally long exactly when the text is ASCII, and it is then the character codes. |
| Utf8.EncodeAppend | src/server.rs:173 | Encoding distributes over concatenation. |
| Utf8.DecodeEncode | src/server.rs:173 | Decoding the bytes of a text gives the text back. |
| Parser.FirstBlank | src/server.rs:118 | Finds the first empty line, or reports that there is none. |
| Parser.ParseHeader | src/server.rs:123-127 | A header line parses exactly when it has a colon. The key is lower-case and the value is trimmed, and neither contains a colon. |
| Parser.HeaderFields | src/server.rs:123-126 | The key is the lower-cased text before the first colon. The value is the trimmed text up to the second colon, so the rest of the line is dropped. |
| Parser.ParseHeaders | src/server.rs:121-128 | Every header line parses, one header per line in order, or the first line without a colon fails the whole parse. |
| Parser.ParseHeadAndBody | src/server.rs:119-136 | Given the first empty line b: the headers are lines 1 to b-1, and the body is line b+1 if present, else absent. |
| Parser.ParseAfterRequestLine | src/server.rs:118-136 | Once the request line has three tokens, a text with no empty line fails with NoBlankLine. Otherwise the headers and the body are read around the first empty line. |
| Parser.Parse | src/server.rs:108-139 | Fewer than three request-line tokens fail. Method, url and version are tokens 0-2. The headers are the lines before the first empty line, and the body is the line after it. |
| Parser.ParseFailures | src/server.rs:111-128 | Characterises exactly when the parse fails for want of an empty line and exactly when it succeeds. |
| Parser.RequestLineTokens | src/server.rs:112-115 | A request line of three space-free fields splits into those fields. |
| Parser.HeaderRoundTrip | src/server.rs:123-127 | The rendered line of a well-formed header parses back to the header. |
| Parser.RenderSplits | src/server.rs:108 | The rendered text splits on CRLF into the rendered lines. |
| Parser.ParseHeaderLines | src/server.rs:121-128 | The rendered lines of well-formed headers parse back to those headers. |
| Parser.HeaderLinesParse | src/server.rs:118-128 | In a rendered request the first empty line follows the headers, and the lines before it parse to the headers. |
| Parser.ParseRender | src/server.rs:108-136 | Parsing the rendering of any well-formed request gives that request back. |
| ParserExamples.HostWithPort | src/server.rs:123-126 | `Host: a:7878` parses to key `host` and value `a`. |
| ParserExamples.NegotiationHeaderParses | src/server.rs:125-126 | `Accept-Encoding:x-gzip` parses to key `accept-encoding` and value `x-gzip`. |
| ParserExamples.HelloRequestText | src/server.rs:108 | The four lines of the example request joined by CRLF are the text `GET / HTTP/1.1\r\nHost: x\r\n\r\n`. |
| ParserExamples.HelloRequestParses | src/server.rs:108-136 | That text parses to GET, `/`, HTTP/1.1 with one header `host: x`. Its body is the empty line after the blank line. |
| Routing.Register | src/server.rs:52-63 | Registration adds or overwrites exactly one key and leaves every other entry as it was. |
| Routing.Any | src/server.rs:52-55 | `any` registers under (ANY, path) and changes nothing else. |
| Routing.Get | src/server.rs:56-59 | `get` registers under (GET, path) and changes nothing else. |
| Routing.Post | src/server.rs:60-63 | `post` registers under (POST, path) and changes nothing else. |
| Routing.MethodOf | src/server.rs:151-158 | Only the token `POST` maps to POST. Every other token maps to GET, so ANY, HEAD, DELETE and PATCH never come out. |
| Routing.Lookup | src/server.rs:160-164 | Lookup succeeds exactly when the exact (method, path) key is present, and returns that key's handler. |
| Routing.LookupAfterRegister | src/server.rs:56-63 | After registering a key, lookup finds the new handler on that key and the old table everywhere else. |
| Routing.NoCrossMethodMatch | src/server.rs:56-63 | A GET registration does not answer POST lookups, and a POST registration does not answer GET lookups. |
| Routing.AnyRouteUnreachable | src/server.rs:151-160 | A route registered with `any` never changes what a request finds. |
| Routing.PathsMatchExactly | src/server.rs:160-164 | A path that differs from the registered one in any way misses. |
| BufWriter.Write | src/server.rs:176-182 | A write keeps every byte and the order. A write shorter than the capacity that fits in the spare room, an exact fill included, is appended to the buffer and leaves the inner vector unchanged, one of at least the capacity empties the buffer, and one that needs a flush but fits afterwards is all the buffer holds. |
| BufWriter.WriteEach | src/server.rs:177-182 | Several writes hold their bytes in order. |
| BufWriter.FittingWritesStayBuffered | src/server.rs:176-181 | A write that fits in the buffer of a writer that has never flushed stays in the buffer. |
| BufWriter.FittingChunksStayBuffered | src/server.rs:177-181 | Writes that together fit in the buffer stay in the buffer. |
| Response.Payload | src/server.rs:167-174 | Without gzip the payload decodes as UTF-8 to the handler's text. With gzip it is the compressor applied to the UTF-8 bytes. |
| Response.LengthLine | src/server.rs:181 | The length line is the field name, then a run of digits whose value is the payload length, then the end of the head. |
| Response.HeadIsText | src/server.rs:177-181 | The head bytes are the UTF-8 encoding of the status line, the encoding line only with gzip, and the length line. |
| Response.HeadChunks | src/server.rs:177-181 | The head writes are the status line, the encoding line only with gzip, then the length line. |
| Response.WriteHead | src/server.rs:177-181 | The writer holds the head after the head writes. |
| Response.WriteResponse | src/server.rs:176-182 | The writer holds the head followed by the payload. |
| Response.Respond | src/server.rs:167-182 | The response is the head followed by the payload. A client reading it finds the gzip marker exactly when gzip was negotiated, a Content-Length equal to the payload's byte length, and the payload. |
| Response.ReadRespond | src/server.rs:177-182 | Reading the head followed by any payload recovers the gzip flag, the length and the payload. |
| Response.ReadLengthOf | src/server.rs:181 | The length line is read back as the length, followed by the payload. |
| Response.SentAsWritten | src/server.rs:176-183 | What is handed to the socket is at most 8192 bytes and is a tail of the full response. |
| Response.HeadStaysBuffered | src/server.rs:177-181 | A head shorter than the buffer is not flushed. |
| Response.ShortResponseSentWhole | src/server.rs:176-183 | When head and payload together fit in the buffer, the whole response is sent. |
| Response.LargeResponseSendsNothing | src/server.rs:176-183 | A payload of at least 8192 bytes makes the sent bytes empty, and they read as no response. |
| Response.MidResponseLosesHead | src/server.rs:176-183 | A payload that fits the buffer only without the head is sent without the head. |
| Response.LargePageSendsNothing | src/server.rs:167-183 | A page of 8192 ASCII characters served without gzip sends nothing. |
| Response.GzipPayloadIsText | src/server.rs:168-171 | With gzip, any decompressor that inverts the compressor on this payload recovers the handler's text. |
| Connection.AcceptsGzip | src/server.rs:142-149 | Gzip is on exactly when some header has key `accept-encoding` and a value containing `gzip`. |
| Connection.Serve | src/server.rs:108-182 | A parse failure is reported as such. A parsed request gets a response exactly when its (method, path) route is registered, and the response reads back as the handler's payload. |
| Connection.HandleConnection | src/server.rs:83-182 | The response is Serve applied to the decoded bytes of the reads up to the stopping read. A failed read or a loop that never stops gives no response. |
| Connection.ServeAsSent | src/server.rs:108-183 | What is handed to the socket as written fails exactly when Serve fails. On success it is at most 8192 bytes and a tail of the whole response. |
| Connection.HandleConnectionAsSent | src/server.rs:83-183 | The connection as written fails exactly when HandleConnection fails. On success it hands over ServeAsSent of the decoded request. |
| Connection.ServeSentWholeWhenItFits | src/server.rs:176-183 | When the whole response is at most 8192 bytes, what is sent is the whole response. |
| Connection.ServeLosesLargePayload | src/server.rs:167-183 | A served payload of at least 8192 bytes reaches the socket as no bytes at all. |
| Connection.HandleConnectionSentWholeWhenItFits | src/server.rs:83-183 | The connection as written agrees with HandleConnection whenever the response fits in 8192 bytes. |
| Connection.ServeRendered | src/server.rs:108-182 | A well-formed request is answered with its route's handler text, gzip-compressed exactly when asked. It fails only when the route is missing. |
| Connection.ServeParsed | src/server.rs:142-165 | Once the text parses, the outcome depends only on the route's presence and the gzip flag. |
| Connection.PlainResponseCarriesText | src/server.rs:167-182 | Without gzip the client decodes the response payload back to the handler's text. |
| Connection.OtherMethodsServedAsGet | src/server.rs:151-165 | Any parsed request whose method is not `POST` is served by the GET route of its path. |
| Server.ServeLocked | src/server.rs:160-163 | With a healthy lock a connection gets what src/server.rs:183 sends (Connection.ServeAsSent). With a poisoned lock every parsed request is refused. The connection leaves the lock poisoned exactly when it was poisoned already or the request parses and misses its route. |
| Server.ServeInTurn | src/server.rs:160-163 | Connections taken in the order they lock the table get one result each. |
| Server.PoisonedLockRefusesParsed | src/server.rs:162 | Once the lock is poisoned, every request that parses is refused. |
| Server.MissPoisonsLaterConnections | src/server.rs:160-163 | After a parsed request that misses its route, every later request that parses is refused, whatever its route. |
| Server.InTurnAgreesBeforeMiss | src/server.rs:160-165 | Until some request misses its route, each connection gets exactly what src/server.rs:183 sends for its request (Connection.ServeAsSent). |
| Server.ServeEach | src/server.rs:83-183 | Independent connections: each one gets what Serve gives for its own request. |
| Server.ServeEachSplits | src/server.rs:83-183 | With independent connections, earlier connections do not change what later ones get. |
| Server.InTurnIsEachWithoutMiss | src/server.rs:160-165 | While no request misses its route and every response fits in the 8192-byte buffer, the server as written is the same as independent connections that send the whole response. |
| ConnectionExamples.MissingRouteStopsServer | src/server.rs:160-163 | `HEAD /home` is served on its own, but is refused after an earlier `GET /home/`, which has no route. |
| Connection.EmptyRequestFails | src/server.rs:111-115 | The empty request fails on the request line. |
| ConnectionExamples.XGzipAsks | src/server.rs:144-146 | The value `x-gzip` asks for gzip. |
| ConnectionExamples.UpperGzipDoesNotAsk | src/server.rs:144-146 | The value `GZIP` does not ask for gzip. |
| Connection.NegotiationHeaderAsks | src/server.rs:123-146 | A header line asks for gzip exactly when its key lower-cases to `accept-encoding` and its trimmed value, up to a second colon, contains `gzip`. So any spelling of the key counts, and the value is matched case-sensitively. |
| ConnectionExamples.GzipNegotiationCases | src/server.rs:142-149 | `Accept-Encoding:x-gzip` parses to a header that asks for gzip, and the value `GZIP` does not ask. |
| ConnectionExamples.ExampleTable | src/main.rs:8-21 | The example table has exactly six routes: GET /my-path, /, /favicon.ico, /home and /sleep, and POST /home. |
| ConnectionExamples.ExampleGetHome | src/main.rs:14 | The example table answers GET /home with the home handler. |
| ConnectionExamples.ExamplePostHome | src/main.rs:19-21 | The example table answers POST /home with `POST HOME HANDLED`. |
| ConnectionExamples.ExampleMissesSlashedPath | src/main.rs:8-21 | The example table has no GET /home/. |
| ConnectionExamples.ExampleMissesPostRoot | src/main.rs:8-21 | The example table has no POST /. |
| ConnectionExamples.HeadServedByGetHandler | src/server.rs:151-165 | `HEAD /home` is answered by the GET handler of /home. |
| ConnectionExamples.TrailingSlashHasNoRoute | src/server.rs:160-164 | `GET /home/` gets no response from the example table. |
| ConnectionExamples.HelloScenario | src/server.rs:108-182 | `GET / HTTP/1.1` with `Host: x`, against a table that answers `HELLO`, gets a plain response with Content-Length 5 and the bytes of `HELLO`. |

## Left out

- TCP bind and accept and `thread::spawn` (src/server.rs:40-51) are network I/O and concurrency. `Connection.Serve` and `Connection.HandleConnection` end with everything written into the response writer, which is the corrected send. `Connection.ServeAsSent` and `Connection.HandleConnectionAsSent` end with the bytes that `stream.write` (src/server.rs:183) is given. The write itself is not modelled.
- The `Arc<Mutex<…>>` around the table is modelled only in module Server, by the state of its lock: connections taken in the order they lock it, and the poisoning that a panic while holding it causes. Threads running at the same time, and which order they reach the lock in, are not modelled.
- Connection.HandleConnection: models one connection on its own, so a missing route ends only that connection with `NoRoute`. In the source that panic also poisons the table's lock, and every later connection that parses then panics at `lock().unwrap()`. `Server.ServeInTurn` models that effect across connections.
- `String::from_utf8_lossy` (src/server.rs:98) is the `decode` parameter of `Connection.HandleConnection`, because it is library code. The model does not describe how it replaces invalid bytes.
- The flate2 `GzEncoder` (src/server.rs:169-171) is the `compress` parameter. The model does not model a compression or finishing failure; those are `expect` panics in the source.
- Handlers are function values from the parsed request to the body text. Their file reads and sleeps (`src/routes.rs`, `src/main.rs:15-18`) are not modelled, so `login` and `home` are parameters of `ConnectionExamples.ExampleTable`.
- Connection.HandleConnection: when the script of reads ends while every read was full, the result is `Stalled`. The real socket would block forever instead.
- Text.Lower: models `to_lowercase` on ASCII letters only. Other upper-case letters are kept as they are.
- Parser.Request keeps method, url, version and headers as plain values. The source holds them in `Option` fields that are all `Some` after a successful parse.
- The debug `println!` output and the diagnostic `&` split of the body (src/server.rs:84, 107, 137-141) are not observable in the result.
- The socket write of src/server.rs:183 uses `write`, not `write_all`, so a short write could send even less. This is not modelled.

## Findings

| source | as written | input that shows it | evidently intended | confidence | as-written member | corrected member |
|---|---|---|---|---|---|---|
| src/server.rs:176-183 | The bytes sent are `response_writer.buffer()`, which is only what the 8 KiB `BufWriter` has not yet flushed to its inner vector. | A handler returning 8192 ASCII characters without gzip. The head writes (41 bytes) stay in the buffer. The payload does not fit, so the head is flushed into the inner vector and the payload, being at least the capacity, goes straight there too. The buffer handed to the socket is then empty. | Send the whole response: the head followed by the payload. | high (follows from the documented flushing rule of `BufWriter`); not executed | Response.LargePageSendsNothing | Response.Respond |
| src/server.rs:160-163 | `get(&route).unwrap()` panics while the guard from `routes.lock()` is held, so a request for a missing route poisons the table's mutex. Every later `routes.lock().unwrap()` then panics. | `GET /home/` against the table of src/main.rs, then `HEAD /home`. The second request alone is served by the GET /home handler, but after the first it is refused. | A missing route ends only its own connection, for example by releasing the lock before failing or by answering 404. | high (follows from the documented poisoning rule of `std::sync::Mutex`); not executed | Server.MissPoisonsLaterConnections | Server.ServeEach |

For the first row, `Response.SentAsWritten` and `Connection.ServeAsSent` are the source as written. `Response.MidResponseLosesHead` shows a second symptom: a payload that fits the buffer only without the head is sent with no head. `Response.Respond` is the whole of `Response.WriteResponse`'s contents. It is what `Connection.Serve` uses, and `Response.ReadRespond` proves that a client reads it back.

For the second row, `Server.ServeInTurn` is the source as written, both for the lock and for the send: a served connection gets what `Connection.ServeAsSent` gives. `ConnectionExamples.MissingRouteStopsServer` exhibits the input. `Server.ServeEach` is the corrected behaviour for both rows: independent connections that send the whole response. `Server.ServeEachSplits` proves that earlier connections do not affect later ones, and `Server.InTurnIsEachWithoutMiss` proves that the two agree while no request misses its route and every response fits in the writer's buffer.
