/** The request parser of `handle_connection` (src/server.rs:98-139): a
    simplified reading of the HTTP/1.1 message layout of RFC 9112 (section
    2.1 message format, section 3 request line, section 5 field lines).
    It works on the already-decoded request text. */
module Parser {
  import opened Wrappers
  import opened Text

  const CRLF: string := "\r\n"

  /** `HttpHeader` (src/server.rs:75-79). */
  datatype Header = Header(key: string, value: string)

  /** `HttpRequest` (src/server.rs:66-73) as it stands after a successful
      parse, when every field the source wraps in `Option` except the body
      has been filled in. */
  datatype Request = Request(
    methodName: string,
    url: string,
    version: string,
    headers: seq<Header>,
    body: Option<string>)

  /** The points where the source panics on malformed input. */
  datatype ParseError =
    | MissingRequestToken   // `resource_parts.get(1 or 2).unwrap()`, src/server.rs:114-115
    | NoBlankLine           // `expect("failed to find first blank")`, src/server.rs:118
    | HeaderWithoutColon    // `expect("no value")`, src/server.rs:126

  /** The lines of the request text: `request.split("\r\n")`. */
  function Lines(text: string): seq<string> {
    Split(text, CRLF)
  }

  /** The tokens of the request line: `resource.split(" ")`. */
  function Tokens(line: string): seq<string> {
    Split(line, " ")
  }

  /** Line `b` is the first empty line. */
  predicate BlankAt(lines: seq<string>, b: int) {
    0 <= b < |lines| && lines[b] == "" && forall j :: 0 <= j < b ==> lines[j] != ""
  }

  /** `lines.iter().position(|l| *l == "")`. */
  function FirstBlank(lines: seq<string>): (r: Option<nat>)
    ensures r.Some? ==> BlankAt(lines, r.value)
    ensures r.None? ==> forall j :: 0 <= j < |lines| ==> lines[j] != ""
  {
    if |lines| == 0 then None
    else if lines[0] == "" then Some(0)
    else
      match FirstBlank(lines[1..])
      case None => None
      case Some(b) => Some(b + 1)
  }

  /** One header line (src/server.rs:123-127): the key is the text before
      the first colon, lower-cased; the value is the text between the first
      and the second colon (or the end of the line), trimmed. */
  function ParseHeader(line: string): (r: Result<Header, ParseError>)
    ensures r.Success? <==> ':' in line
    ensures r.Failure? ==> r.error == HeaderWithoutColon
    ensures r.Success? ==> ':' !in r.value.key && ':' !in r.value.value
    ensures r.Success? ==> Lower(r.value.key) == r.value.key && Trimmed(r.value.value)
  {
    var parts := Split(line, ":");
    ContainsSingle(line, ':');
    if |parts| < 2 then
      Failure(HeaderWithoutColon)
    else
      ContainsSingle(parts[0], ':');
      ContainsSingle(parts[1], ':');
      LowerFixpoint(parts[0]);
      var key := Lower(parts[0]);
      assert ':' !in key;
      var value := Trim(parts[1]);
      assert ':' !in value by {
        var lead, trail :| parts[1] == lead + value + trail;
      }
      Success(Header(key, value))
  }

  /** The header lines, in order (src/server.rs:121-128): the loop either
      stops at the first line without a colon or converts every line. */
  function ParseHeaders(lines: seq<string>): (r: Result<seq<Header>, ParseError>)
    ensures r.Success? <==> forall i :: 0 <= i < |lines| ==> ':' in lines[i]
    ensures r.Failure? ==> r.error == HeaderWithoutColon
    ensures r.Success? ==> |r.value| == |lines|
    ensures r.Success? ==> forall i :: 0 <= i < |lines| ==> ParseHeader(lines[i]) == Success(r.value[i])
  {
    if forall i :: 0 <= i < |lines| ==> ':' in lines[i] then
      Success(seq(|lines|, i requires 0 <= i < |lines| => ParseHeader(lines[i]).value))
    else
      Failure(HeaderWithoutColon)
  }

  /** The header lines sitting before blank line `b` all have a colon. */
  predicate HeaderLinesOk(lines: seq<string>, b: int)
    requires 1 <= b < |lines|
  {
    forall i :: 1 <= i < b ==> ':' in lines[i]
  }

  /** An empty request line has a single (empty) token. */
  lemma TokensOfEmpty()
    ensures Tokens("") == [""]
  {
    SplitOfFree("", " ");
  }

  /** The request once the first empty line `b` is known
      (src/server.rs:119-136): the lines between the request line and `b`
      are the headers, the line after `b`, if any, is the body. */
  function ParseHeadAndBody(lines: seq<string>, tokens: seq<string>, b: nat): (r: Result<Request, ParseError>)
    requires |tokens| >= 3 && 1 <= b < |lines| && BlankAt(lines, b)
    ensures r.Success? <==> HeaderLinesOk(lines, b)
    ensures r.Failure? ==> r.error == HeaderWithoutColon
    ensures r.Success? ==>
      && r.value.methodName == tokens[0] && r.value.url == tokens[1] && r.value.version == tokens[2]
    ensures r.Success? ==>
      var n := |r.value.headers|;
      && n + 1 == b
      && (forall i :: 0 <= i < n ==> ParseHeader(lines[i + 1]) == Success(r.value.headers[i]))
      && r.value.body == (if n + 2 < |lines| then Some(lines[n + 2]) else None)
  {
    var headerLines := lines[1..b];
    assert forall i :: 0 <= i < b - 1 ==> headerLines[i] == lines[i + 1];
    match ParseHeaders(headerLines)
    case Failure(e) => Failure(e)
    case Success(headers) =>
      var body := if b + 1 < |lines| then Some(lines[b + 1]) else None;
      Success(Request(tokens[0], tokens[1], tokens[2], headers, body))
  }

  /** The request after its request line (src/server.rs:118-136). */
  function ParseAfterRequestLine(lines: seq<string>, tokens: seq<string>): (r: Result<Request, ParseError>)
    requires |lines| > 0 && tokens == Tokens(lines[0]) && |tokens| >= 3
    ensures FirstBlank(lines).None? ==> r == Failure(NoBlankLine)
    ensures FirstBlank(lines).Some? ==> r == ParseHeadAndBody(lines, tokens, FirstBlank(lines).value)
  {
    TokensOfEmpty();
    match FirstBlank(lines)
    case None => Failure(NoBlankLine)
    case Some(b) => ParseHeadAndBody(lines, tokens, b)
  }

  /** The whole parse (src/server.rs:108-139). Failures come in the
      source's order: request-line tokens, then the blank line, then the
      header colons. */
  function Parse(text: string): (r: Result<Request, ParseError>)
    ensures |Tokens(Lines(text)[0])| < 3 ==> r == Failure(MissingRequestToken)
    ensures r.Success? ==>
      var tokens := Tokens(Lines(text)[0]);
      |tokens| >= 3 && r.value.methodName == tokens[0] && r.value.url == tokens[1] && r.value.version == tokens[2]
    ensures r.Success? ==>
      var lines := Lines(text);
      var n := |r.value.headers|;
      && BlankAt(lines, n + 1)
      && (forall i :: 0 <= i < n ==> ParseHeader(lines[i + 1]) == Success(r.value.headers[i]))
      && r.value.body == (if n + 2 < |lines| then Some(lines[n + 2]) else None)
  {
    var lines := Lines(text);
    var tokens := Tokens(lines[0]);
    if |tokens| < 3 then Failure(MissingRequestToken)
    else ParseAfterRequestLine(lines, tokens)
  }

  /** Exactly when each failure happens: too few request-line tokens; else
      no empty line at all; else a line before the first empty line that
      has no colon. */
  lemma ParseFailures(text: string)
    ensures var lines := Lines(text);
      Parse(text) == Failure(NoBlankLine) <==>
        |Tokens(lines[0])| >= 3 && forall j :: 0 <= j < |lines| ==> lines[j] != ""
    ensures var lines := Lines(text);
      Parse(text).Success? <==>
        |Tokens(lines[0])| >= 3 && exists b :: BlankAt(lines, b) && 1 <= b && HeaderLinesOk(lines, b)
  {
    var lines := Lines(text);
    TokensOfEmpty();
    match FirstBlank(lines)
    case None =>
    case Some(b) =>
      assert forall b' :: BlankAt(lines, b') ==> b' == b;
      assert forall i :: 1 <= i < b ==> lines[i] == lines[1..b][i - 1];
  }

  // ---------------------------------------------------------------------
  // Rendering: the partner of the parser
  // ---------------------------------------------------------------------

  function RequestLine(req: Request): string {
    req.methodName + " " + req.url + " " + req.version
  }

  function HeaderLine(h: Header): string {
    h.key + ": " + h.value
  }

  /** The lines of a request as a client writes them: request line, one
      line per header, the blank line, then the body line if there is one. */
  function RenderLines(req: Request): seq<string> {
    [RequestLine(req)]
    + HeaderLines(req.headers)
    + [""]
    + (if req.body.Some? then [req.body.value] else [])
  }

  function Render(req: Request): string {
    Join(RenderLines(req), CRLF)
  }

  predicate NoCR(s: string) {
    '\r' !in s
  }

  /** A header that the parser reproduces exactly: a lower-case key and a
      trimmed value, neither holding a colon. */
  predicate WellFormedHeader(h: Header) {
    && NoCR(h.key) && NoCR(h.value)
    && ':' !in h.key && ':' !in h.value
    && Lower(h.key) == h.key && Trimmed(h.value)
  }

  /** A request whose rendering the parser reads back field by field. */
  predicate WellFormed(req: Request) {
    && NoCR(req.methodName) && NoCR(req.url) && NoCR(req.version)
    && ' ' !in req.methodName && ' ' !in req.url && ' ' !in req.version
    && (forall i :: 0 <= i < |req.headers| ==> WellFormedHeader(req.headers[i]))
    && (req.body.Some? ==> NoCR(req.body.value))
  }

  lemma NoCRHasNoCRLF(s: string)
    requires NoCR(s)
    ensures !Contains(s, CRLF)
  {
    forall j | 0 <= j && j + 2 <= |s| ensures !OccursAt(s, CRLF, j) {
      assert s[j..j + 2][0] == s[j];
    }
  }

  /** A header is split at its first colon and its value is trimmed, so
      text after a second colon is dropped: `Host: a:7878` has value `a`. */
  lemma {:induction false} HeaderFields(k: string, v: string, rest: string)
    requires ':' !in k && ':' !in v
    requires rest == "" || rest[0] == ':'
    ensures ParseHeader(k + ":" + v + rest) == Success(Header(Lower(k), Trim(v)))
  {
    ContainsSingle(k, ':');
    ContainsSingle(v, ':');
    assert k + ":" + v + rest == k + ":" + (v + rest);
    SplitCons(k, ":", v + rest);
    if rest == "" {
      assert v + rest == v;
      SplitOfFree(v, ":");
    } else {
      assert v + rest == v + ":" + rest[1..];
      SplitCons(v, ":", rest[1..]);
    }
  }

  lemma TrimAfterSpace(value: string)
    requires Trimmed(value)
    ensures Trim(" " + value) == value
  {
    assert " " + value == " " + value + "";
    TrimUnique(" ", value, "");
  }

  lemma HeaderLineFields(h: Header)
    requires ':' !in h.key && ':' !in h.value
    ensures ParseHeader(HeaderLine(h)) == Success(Header(Lower(h.key), Trim(" " + h.value)))
  {
    var v := " " + h.value;
    assert HeaderLine(h) == h.key + ":" + v + "";
    HeaderFields(h.key, v, "");
  }

  lemma HeaderRoundTrip(h: Header)
    requires WellFormedHeader(h)
    ensures ParseHeader(HeaderLine(h)) == Success(h)
  {
    HeaderLineFields(h);
    TrimAfterSpace(h.value);
  }

  lemma CRLFNoBorder()
    ensures NoBorder(CRLF)
  {
    assert CRLF[1..][0] != CRLF[..1][0];
  }

  /** The rendered text splits back into the rendered lines. */
  lemma {:induction false} RenderSplits(req: Request)
    requires WellFormed(req)
    ensures Lines(Render(req)) == RenderLines(req)
  {
    var lines := RenderLines(req);
    var n := |req.headers|;
    forall i | 0 <= i < |lines| ensures !Contains(lines[i], CRLF) {
      if 1 <= i <= n {
        assert lines[i] == HeaderLine(req.headers[i - 1]);
      }
      NoCRHasNoCRLF(lines[i]);
    }
    CRLFNoBorder();
    SplitJoin(lines, CRLF);
  }

  lemma {:induction false} RequestLineTokens(req: Request)
    requires WellFormed(req)
    ensures Tokens(RequestLine(req)) == [req.methodName, req.url, req.version]
  {
    var parts := [req.methodName, req.url, req.version];
    assert Join([req.version], " ") == req.version;
    assert Join([req.url, req.version], " ") == req.url + " " + req.version by {
      assert [req.url, req.version][1..] == [req.version];
    }
    assert Join(parts, " ") == req.methodName + " " + (req.url + " " + req.version) by {
      assert parts[1..] == [req.url, req.version];
    }
    assert RequestLine(req) == Join(parts, " ");
    forall i | 0 <= i < 3 ensures !Contains(parts[i], " ") {
      ContainsSingle(parts[i], ' ');
    }
    SplitJoin(parts, " ");
  }

  function HeaderLines(headers: seq<Header>): (lines: seq<string>)
    ensures |lines| == |headers|
  {
    seq(|headers|, i requires 0 <= i < |headers| => HeaderLine(headers[i]))
  }

  /** The header lines of well-formed headers parse back to the headers. */
  lemma ParseHeaderLines(headers: seq<Header>)
    requires forall i :: 0 <= i < |headers| ==> WellFormedHeader(headers[i])
    ensures ParseHeaders(HeaderLines(headers)) == Success(headers)
  {
    var lines := HeaderLines(headers);
    forall i | 0 <= i < |headers|
      ensures ':' in lines[i] && ParseHeader(lines[i]) == Success(headers[i])
    {
      assert lines[i][|headers[i].key|] == ':';
      HeaderRoundTrip(headers[i]);
    }
    assert ParseHeaders(lines).value == headers;
  }

  lemma {:induction false} HeaderLinesParse(req: Request)
    requires WellFormed(req)
    ensures var lines := RenderLines(req);
      && BlankAt(lines, |req.headers| + 1)
      && ParseHeaders(lines[1..|req.headers| + 1]) == Success(req.headers)
  {
    var lines := RenderLines(req);
    var n := |req.headers|;
    assert lines[1..n + 1] == HeaderLines(req.headers);
    forall j | 0 <= j < n + 1 ensures lines[j] != "" {
      if j > 0 {
        assert lines[j] == HeaderLines(req.headers)[j - 1];
        assert lines[j][|req.headers[j - 1].key|] == ':';
      }
    }
    ParseHeaderLines(req.headers);
  }

  /** Parsing reads back every well-formed request exactly: method, url
      and version, the headers in order, and the body line. */
  lemma {:induction false} ParseRender(req: Request)
    requires WellFormed(req)
    ensures Parse(Render(req)) == Success(req)
  {
    RenderSplits(req);
    RequestLineTokens(req);
    HeaderLinesParse(req);
    var n := |req.headers|;
    assert FirstBlank(RenderLines(req)) == Some(n + 1);
  }
}
