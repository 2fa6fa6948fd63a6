/** Concrete requests read by the parser of src/server.rs:108-139. */
module ParserExamples {
  import opened Wrappers
  import opened Text
  import opened Parser

  lemma HostIsLowered()
    ensures Lower("Host") == "host"
  {
  }

  lemma HostValueA()
    ensures Trim(" a") == "a"
  {
    assert " a" == " " + "a" + "";
    TrimUnique(" ", "a", "");
  }

  /** Only the text between the first and the second colon is the value,
      so the port of a `Host` header is lost; the key is lower-cased. */
  lemma HostWithPort()
    ensures ParseHeader("Host: a:7878") == Success(Header("host", "a"))
  {
    assert "Host: a:7878" == "Host" + ":" + " a" + ":7878";
    HostIsLowered();
    HostValueA();
    HeaderFields("Host", " a", ":7878");
  }

  lemma NegotiationKeyIsLowered()
    ensures Lower("Accept-Encoding") == "accept-encoding"
  {
  }

  lemma XGzipIsTrimmed()
    ensures Trim("x-gzip") == "x-gzip"
  {
    assert "x-gzip" == "" + "x-gzip" + "";
    TrimUnique("", "x-gzip", "");
  }

  /** Any spelling of the negotiation header's name is lower-cased. */
  lemma NegotiationHeaderParses()
    ensures ParseHeader("Accept-Encoding:x-gzip") == Success(Header("accept-encoding", "x-gzip"))
  {
    assert "Accept-Encoding:x-gzip" == "Accept-Encoding" + ":" + "x-gzip" + "";
    NegotiationKeyIsLowered();
    XGzipIsTrimmed();
    HeaderFields("Accept-Encoding", "x-gzip", "");
  }

  /** The request a typical client sends for `/`, line by line. */
  const HELLO_LINES: seq<string> := ["GET / HTTP/1.1", "Host: x", "", ""]

  const HELLO_REQUEST: string := Join(HELLO_LINES, CRLF)

  /** The lines joined are the client's text. */
  lemma HelloRequestText()
    ensures HELLO_REQUEST == "GET / HTTP/1.1\r\nHost: x\r\n\r\n"
  {
  }

  lemma HelloRequestLines()
    ensures Lines(HELLO_REQUEST) == HELLO_LINES
  {
    CRLFNoBorder();
    forall i | 0 <= i < |HELLO_LINES| ensures !Contains(HELLO_LINES[i], CRLF) {
      NoCRHasNoCRLF(HELLO_LINES[i]);
    }
    SplitJoin(HELLO_LINES, CRLF);
  }

  lemma HelloRequestLine()
    ensures RequestLine(Request("GET", "/", "HTTP/1.1", [], None)) == "GET / HTTP/1.1"
  {
  }

  lemma HelloRequestTokens()
    ensures Tokens("GET / HTTP/1.1") == ["GET", "/", "HTTP/1.1"]
  {
    HelloRequestLine();
    RequestLineTokens(Request("GET", "/", "HTTP/1.1", [], None));
  }

  lemma HostValueX()
    ensures Trim(" x") == "x"
  {
    assert " x" == " " + "x" + "";
    TrimUnique(" ", "x", "");
  }

  lemma HelloHeader()
    ensures ParseHeader("Host: x") == Success(Header("host", "x"))
  {
    assert "Host: x" == "Host" + ":" + " x" + "";
    HostIsLowered();
    HostValueX();
    HeaderFields("Host", " x", "");
  }

  lemma SingleHeader(line: string, h: Header)
    requires ParseHeader(line) == Success(h)
    ensures ParseHeaders([line]) == Success([h])
  {
    assert ':' in line;
    assert forall i :: 0 <= i < |[line]| ==> ':' in [line][i];
    var r := ParseHeaders([line]);
    assert ParseHeader([line][0]) == Success(r.value[0]);
    assert r.value == [h];
  }

  lemma HelloHeaders()
    ensures ParseHeaders(HELLO_LINES[1..2]) == Success([Header("host", "x")])
  {
    assert HELLO_LINES[1..2] == ["Host: x"];
    HelloHeader();
    SingleHeader("Host: x", Header("host", "x"));
  }

  lemma HelloBlankLine()
    ensures FirstBlank(HELLO_LINES) == Some(2)
  {
    assert HELLO_LINES[1..][1..] == ["", ""];
  }

  /** The request text of a typical client: the trailing blank line leaves
      an empty body line. */
  lemma HelloRequestParses()
    ensures Parse(HELLO_REQUEST) == Success(Request("GET", "/", "HTTP/1.1", [Header("host", "x")], Some("")))
  {
    HelloRequestLines();
    HelloRequestTokens();
    HelloBlankLine();
    HelloHeaders();
  }
}
