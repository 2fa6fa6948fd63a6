/** Concrete connections to the server: gzip negotiation on literal
    header values, the route table of src/main.rs:8-21, and requests
    served from it. */
module ConnectionExamples {
  import opened Wrappers
  import opened Text
  import opened Utf8
  import opened Parser
  import opened Routing
  import opened Response
  import opened ParserExamples
  import opened Connection
  import opened Server

  lemma XGzipAsks()
    ensures AsksForGzip(Header("accept-encoding", "x-gzip"))
  {
    assert OccursAt("x-gzip", "gzip", 2);
    ContainsMeansOccurs("x-gzip", "gzip");
  }

  lemma UpperGzipDoesNotAsk()
    ensures !AsksForGzip(Header("accept-encoding", "GZIP"))
  {
    ContainsMeansOccurs("GZIP", "gzip");
    assert forall j :: !OccursAt("GZIP", "gzip", j) by {
      assert "GZIP"[0] != "gzip"[0];
    }
  }

  /** The key of the negotiation header is matched after lower-casing, so
      any spelling of it counts; the value is searched for `gzip` as it
      stands, so `x-gzip` asks for gzip and `GZIP` does not. */
  lemma GzipNegotiationCases()
    ensures ParseHeader("Accept-Encoding:x-gzip") == Success(Header("accept-encoding", "x-gzip"))
    ensures AsksForGzip(Header("accept-encoding", "x-gzip"))
    ensures !AsksForGzip(Header("accept-encoding", "GZIP"))
  {
    NegotiationHeaderParses();
    XGzipAsks();
    UpperGzipDoesNotAsk();
  }

  /** The route table that src/main.rs:8-21 builds. The handlers that read
      files are parameters; the sleeping handler answers its empty text. */
  function ExampleTable(login: Handler, home: Handler): (r: RouteTable)
    ensures r.Keys == {
      Route(GET, "/my-path"), Route(GET, "/"), Route(GET, "/favicon.ico"),
      Route(GET, "/home"), Route(GET, "/sleep"), Route(POST, "/home")}
  {
    var t0 := Get(EmptyTable, "/my-path", (req: Request) => "ABC");
    var t1 := Get(t0, "/", login);
    var t2 := Get(t1, "/favicon.ico", (req: Request) => "NOT_FOUND");
    var t3 := Get(t2, "/home", home);
    var t4 := Get(t3, "/sleep", (req: Request) => "");
    Post(t4, "/home", (req: Request) => "POST HOME HANDLED")
  }

  lemma ExampleGetHome(login: Handler, home: Handler)
    ensures Lookup(ExampleTable(login, home), GET, "/home") == Some(home)
  {
  }

  lemma ExamplePostHome(login: Handler, home: Handler, req: Request)
    ensures var h := Lookup(ExampleTable(login, home), POST, "/home");
      h.Some? && h.value(req) == "POST HOME HANDLED"
  {
  }

  lemma ExampleMissesSlashedPath(login: Handler, home: Handler)
    ensures Lookup(ExampleTable(login, home), GET, "/home/") == None
  {
    var keys := ExampleTable(login, home).Keys;
    assert "/home/"[1] != "/sleep"[1];
    assert Route(GET, "/home/") !in keys;
  }

  lemma ExampleMissesPostRoot(login: Handler, home: Handler)
    ensures Lookup(ExampleTable(login, home), POST, "/") == None
  {
    var keys := ExampleTable(login, home).Keys;
    assert Route(POST, "/") !in keys;
  }

  const HEAD_HOME: Request := Request("HEAD", "/home", "HTTP/1.1", [], None)

  lemma HeadHomeParses()
    ensures Parse(Render(HEAD_HOME)) == Success(HEAD_HOME)
  {
    assert WellFormed(HEAD_HOME);
    ParseRender(HEAD_HOME);
  }

  lemma HeadRoutesAsGet()
    ensures RouteOf(HEAD_HOME) == Route(GET, "/home") && !AcceptsGzip(HEAD_HOME.headers)
  {
  }

  /** A HEAD request for /home is answered by the GET handler of /home,
      with the full body. */
  lemma HeadServedByGetHandler(login: Handler, home: Handler, compress: Compressor)
    ensures Serve(ExampleTable(login, home), Render(HEAD_HOME), compress) == Success(Respond(home(HEAD_HOME), false, compress))
  {
    HeadHomeParses();
    HeadRoutesAsGet();
    ExampleGetHome(login, home);
    ServeParsed(ExampleTable(login, home), Render(HEAD_HOME), HEAD_HOME, compress);
  }

  const SLASHED_HOME: Request := Request("GET", "/home/", "HTTP/1.1", [], None)

  lemma SlashedHomeParses()
    ensures Parse(Render(SLASHED_HOME)) == Success(SLASHED_HOME)
  {
    assert WellFormed(SLASHED_HOME);
    ParseRender(SLASHED_HOME);
  }

  /** A path with a trailing slash is not registered and gets no response. */
  lemma TrailingSlashHasNoRoute(login: Handler, home: Handler, compress: Compressor)
    ensures Serve(ExampleTable(login, home), Render(SLASHED_HOME), compress) == Failure(NoRoute)
  {
    SlashedHomeParses();
    ExampleMissesSlashedPath(login, home);
    ServeParsed(ExampleTable(login, home), Render(SLASHED_HOME), SLASHED_HOME, compress);
  }

  const HELLO_TABLE: RouteTable := Get(EmptyTable, "/", (req: Request) => "HELLO")

  lemma HelloRoute(req: Request)
    ensures Lookup(HELLO_TABLE, MethodOf("GET"), "/").Some?
    ensures HELLO_TABLE[Route(GET, "/")](req) == "HELLO"
  {
  }

  lemma HostDoesNotAsk()
    ensures !AcceptsGzip([Header("host", "x")])
  {
    assert !AsksForGzip([Header("host", "x")][0]);
  }

  lemma HelloBytes()
    ensures Encode("HELLO") == [72, 69, 76, 76, 79]
  {
    assert IsAscii("HELLO");
  }

  /** The scenario of a client fetching `/` from a handler that answers
      `HELLO`: plain text, Content-Length 5. */
  lemma HelloScenario(compress: Compressor)
    ensures var r := Serve(HELLO_TABLE, HELLO_REQUEST, compress);
      r.Success? && Read(r.value) == Some(Message(false, 5, [72, 69, 76, 76, 79]))
  {
    var req := Request("GET", "/", "HTTP/1.1", [Header("host", "x")], Some(""));
    HelloRequestParses();
    HelloRoute(req);
    HostDoesNotAsk();
    ServeParsed(HELLO_TABLE, HELLO_REQUEST, req, compress);
    HelloBytes();
  }

  /** A request for `/home/`, which has no route, poisons the table's
      lock: a later `HEAD /home`, which alone is served, is then refused. */
  lemma MissingRouteStopsServer(login: Handler, home: Handler, compress: Compressor)
    ensures Serve(ExampleTable(login, home), Render(HEAD_HOME), compress).Success?
    ensures ServeInTurn(Healthy, ExampleTable(login, home), [Render(SLASHED_HOME), Render(HEAD_HOME)], compress)[1]
         == Failure(LockPoisoned)
  {
    var table := ExampleTable(login, home);
    var texts := [Render(SLASHED_HOME), Render(HEAD_HOME)];
    HeadServedByGetHandler(login, home, compress);
    SlashedHomeParses();
    ExampleMissesSlashedPath(login, home);
    assert Misses(table, texts[0]);
    HeadHomeParses();
    MissPoisonsLaterConnections(Healthy, table, texts, compress, 0, 1);
  }
}
