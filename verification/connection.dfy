/** The whole of `handle_connection` (src/server.rs:83-184) without the
    socket: the reads, the decoding of the request bytes, the parse, gzip
    negotiation, routing, the handler call and the response bytes. Every
    `unwrap`/`expect` that the source hits on bad input is a `Failure`. */
module Connection {
  import opened Wrappers
  import opened Text
  import opened Utf8
  import opened Framing
  import opened Parser
  import opened Routing
  import opened Response
  import opened BufWriter

  /** A header that asks for gzip: the (already lower-cased) key is
      `accept-encoding` and the value holds the substring `gzip`, compared
      case-sensitively (src/server.rs:144-145). This is looser than the
      content coding negotiation of section 12.5.3 of RFC 9110: `x-gzip`
      and `gzip;q=0` both count. */
  predicate AsksForGzip(h: Header) {
    h.key == "accept-encoding" && Contains(h.value, "gzip")
  }

  /** The negotiation loop (src/server.rs:142-149): the flag, once set, is
      never cleared, so it ends up true exactly when some header asks. */
  function AcceptsGzip(headers: seq<Header>): (r: bool)
    ensures r <==> exists i :: 0 <= i < |headers| && AsksForGzip(headers[i])
  {
    if |headers| == 0 then false
    else
      var rest := AcceptsGzip(headers[1..]);
      assert forall i :: 1 <= i < |headers| ==> headers[i] == headers[1..][i - 1];
      AsksForGzip(headers[0]) || rest
  }

  /** Why a connection gets no response: the read failed or never ended,
      the request is malformed, no handler is registered for it, or (when
      connections share the table, see module Server) an earlier
      connection poisoned the table's lock. */
  datatype Abort = ReadAborted(cause: ReadError) | Malformed(error: ParseError) | NoRoute | LockPoisoned

  /** The route the source looks up for a parsed request. */
  function RouteOf(req: Request): Route {
    Route(MethodOf(req.methodName), req.url)
  }

  /** From the decoded request text to everything written into the
      response writer (src/server.rs:108-182): the whole response, which
      is what a correct send hands to the socket. What src/server.rs:183
      actually hands over is `ServeAsSent`. */
  function Serve(table: RouteTable, text: string, compress: Compressor): (r: Result<seq<byte>, Abort>)
    ensures Parse(text).Failure? ==> r == Failure(Malformed(Parse(text).error))
    ensures Parse(text).Success? ==> (r.Success? <==> RouteOf(Parse(text).value) in table)
    ensures r.Success? ==>
      var req := Parse(text).value;
      var payload := Payload(table[RouteOf(req)](req), AcceptsGzip(req.headers), compress);
      && r.value == HeadBytes(AcceptsGzip(req.headers), |payload|) + payload
      && Read(r.value) == Some(Message(AcceptsGzip(req.headers), |payload|, payload))
  {
    match Parse(text)
    case Failure(e) => Failure(Malformed(e))
    case Success(req) =>
      var gzip := AcceptsGzip(req.headers);
      match Lookup(table, MethodOf(req.methodName), req.url)
      case None => Failure(NoRoute)
      case Some(handler) => Success(Respond(handler(req), gzip, compress))
  }

  /** `handle_connection` from the socket's reads to everything written
      into the response writer, as `Serve` ends. `decode` stands for
      `String::from_utf8_lossy` (src/server.rs:98). */
  function HandleConnection(
    table: RouteTable,
    outcomes: seq<ReadOutcome>,
    decode: seq<byte> -> string,
    compress: Compressor): (r: Result<seq<byte>, Abort>)
    requires WithinBuffer(outcomes)
    ensures forall k :: StopsAt(outcomes, k) && outcomes[k].Data? ==>
      r == Serve(table, decode(Concat(outcomes[..k + 1])), compress)
    ensures forall k :: StopsAt(outcomes, k) && outcomes[k].ReadFailed? ==> r == Failure(ReadAborted(IoError))
    ensures (forall i :: 0 <= i < |outcomes| ==> IsFull(outcomes[i])) ==> r == Failure(ReadAborted(Stalled))
  {
    match ReadRequest(outcomes)
    case Failure(e) => Failure(ReadAborted(e))
    case Success(data) => Serve(table, decode(data), compress)
  }

  /** `Serve` as src/server.rs:183 has it: only the bytes still waiting
      in the writer's buffer are handed to the socket. They are at most
      8 KiB and a tail of the whole response. */
  function ServeAsSent(table: RouteTable, text: string, compress: Compressor): (r: Result<seq<byte>, Abort>)
    ensures r.Failure? <==> Serve(table, text, compress).Failure?
    ensures r.Failure? ==> r == Serve(table, text, compress)
    ensures r.Success? ==>
      var whole := Serve(table, text, compress).value;
      |r.value| <= CAPACITY && |r.value| <= |whole| && r.value == whole[|whole| - |r.value|..]
  {
    match Parse(text)
    case Failure(e) => Failure(Malformed(e))
    case Success(req) =>
      var gzip := AcceptsGzip(req.headers);
      match Lookup(table, MethodOf(req.methodName), req.url)
      case None => Failure(NoRoute)
      case Some(handler) => Success(SentAsWritten(Payload(handler(req), gzip, compress), gzip))
  }

  /** `handle_connection` as written, ending with the bytes of
      src/server.rs:183. */
  function HandleConnectionAsSent(
    table: RouteTable,
    outcomes: seq<ReadOutcome>,
    decode: seq<byte> -> string,
    compress: Compressor): (r: Result<seq<byte>, Abort>)
    requires WithinBuffer(outcomes)
    ensures forall k :: StopsAt(outcomes, k) && outcomes[k].Data? ==>
      r == ServeAsSent(table, decode(Concat(outcomes[..k + 1])), compress)
    ensures r.Failure? <==> HandleConnection(table, outcomes, decode, compress).Failure?
    ensures r.Failure? ==> r == HandleConnection(table, outcomes, decode, compress)
  {
    match ReadRequest(outcomes)
    case Failure(e) => Failure(ReadAborted(e))
    case Success(data) => ServeAsSent(table, decode(data), compress)
  }

  // ---------------------------------------------------------------------
  // Properties of the pipeline
  // ---------------------------------------------------------------------

  /** A response that fits in the writer's buffer is sent whole. */
  lemma ServeSentWholeWhenItFits(table: RouteTable, text: string, compress: Compressor)
    requires Serve(table, text, compress).Success? ==> |Serve(table, text, compress).value| <= CAPACITY
    ensures ServeAsSent(table, text, compress) == Serve(table, text, compress)
  {
    if Serve(table, text, compress).Success? {
      var req := Parse(text).value;
      var gzip := AcceptsGzip(req.headers);
      ShortResponseSentWhole(Payload(table[RouteOf(req)](req), gzip, compress), gzip);
    }
  }

  /** A served payload of at least 8 KiB reaches the socket as nothing. */
  lemma ServeLosesLargePayload(table: RouteTable, text: string, compress: Compressor)
    requires Serve(table, text, compress).Success?
    requires var req := Parse(text).value;
      |Payload(table[RouteOf(req)](req), AcceptsGzip(req.headers), compress)| >= CAPACITY
    ensures ServeAsSent(table, text, compress) == Success([])
  {
    var req := Parse(text).value;
    var gzip := AcceptsGzip(req.headers);
    LargeResponseSendsNothing(Payload(table[RouteOf(req)](req), gzip, compress), gzip);
  }

  /** The connection as written agrees with the whole response whenever
      that response fits in the writer's buffer. */
  lemma HandleConnectionSentWholeWhenItFits(
    table: RouteTable,
    outcomes: seq<ReadOutcome>,
    decode: seq<byte> -> string,
    compress: Compressor)
    requires WithinBuffer(outcomes)
    requires HandleConnection(table, outcomes, decode, compress).Success? ==>
      |HandleConnection(table, outcomes, decode, compress).value| <= CAPACITY
    ensures HandleConnectionAsSent(table, outcomes, decode, compress) == HandleConnection(table, outcomes, decode, compress)
  {
    match ReadRequest(outcomes)
    case Failure(_) =>
    case Success(data) => ServeSentWholeWhenItFits(table, decode(data), compress);
  }

  /** For a request a client renders well-formed, the server answers with
      the registered handler's text, gzip-compressed exactly when a header
      asks for it, and fails only when the route is missing. */
  lemma ServeRendered(table: RouteTable, req: Request, compress: Compressor)
    requires WellFormed(req)
    ensures Serve(table, Render(req), compress) ==
      if RouteOf(req) in table
      then Success(Respond(table[RouteOf(req)](req), AcceptsGzip(req.headers), compress))
      else Failure(NoRoute)
  {
    ParseRender(req);
  }

  /** A request that is served when its route is registered. */
  lemma ServeParsed(table: RouteTable, text: string, req: Request, compress: Compressor)
    requires Parse(text) == Success(req)
    ensures Serve(table, text, compress) ==
      if RouteOf(req) in table
      then Success(Respond(table[RouteOf(req)](req), AcceptsGzip(req.headers), compress))
      else Failure(NoRoute)
  {
  }

  /** Without gzip the client decodes the payload back to the handler's
      text. */
  lemma PlainResponseCarriesText(table: RouteTable, text: string, compress: Compressor)
    requires Serve(table, text, compress).Success?
    requires !AcceptsGzip(Parse(text).value.headers)
    ensures var req := Parse(text).value;
      var m := Read(Serve(table, text, compress).value);
      m.Some? && !m.value.gzipped && Utf8.Decode(m.value.payload) == Some(table[RouteOf(req)](req))
  {
  }

  /** The method token only selects GET or POST: any parsed request whose
      token is not `POST` is served by the GET route of its path. */
  lemma OtherMethodsServedAsGet(table: RouteTable, text: string, compress: Compressor)
    requires Parse(text).Success? && Parse(text).value.methodName != "POST"
    ensures var req := Parse(text).value;
      Serve(table, text, compress) ==
        if Route(GET, req.url) in table
        then Success(Respond(table[Route(GET, req.url)](req), AcceptsGzip(req.headers), compress))
        else Failure(NoRoute)
  {
  }

  /** The empty request fails on the request line. */
  lemma EmptyRequestFails(table: RouteTable, compress: Compressor)
    ensures Serve(table, "", compress) == Failure(Malformed(MissingRequestToken))
  {
    SplitOfFree("", CRLF);
    TokensOfEmpty();
  }

  /** Gzip negotiation on one header line: the key is matched after
      lower-casing, so any spelling of it counts; the value, up to a second
      colon and trimmed, is searched for `gzip` case-sensitively. */
  lemma NegotiationHeaderAsks(k: string, v: string, rest: string)
    requires ':' !in k && ':' !in v
    requires rest == "" || rest[0] == ':'
    ensures ParseHeader(k + ":" + v + rest).Success?
    ensures AsksForGzip(ParseHeader(k + ":" + v + rest).value) <==>
      Lower(k) == "accept-encoding" && Contains(Trim(v), "gzip")
  {
    HeaderFields(k, v, rest);
  }
}
