/** Response framing of `handle_connection` (src/server.rs:167-182): a fixed
    status line, `Content-Encoding: gzip` only when compression was
    negotiated, a `Content-Length` equal to the payload's byte length
    (sections 8.4 and 8.6 of RFC 9110), a blank line, then the payload. The
    gzip encoder is a parameter of the model. */
module Response {
  import opened Wrappers
  import opened Text
  import opened Utf8
  import opened BufWriter

  const STATUS_LINE: string := "HTTP/1.1 200 OK\r\n"
  const GZIP_HEADER: string := "Content-Encoding: gzip\r\n"
  const LENGTH_FIELD: string := "Content-Length: "
  const HEAD_END: string := "\r\n\r\n"

  /** The gzip stream writer (`GzEncoder` with `Compression::best()`,
      finished before use). */
  type Compressor = seq<byte> -> seq<byte>

  /** The bytes that follow the head: the UTF-8 bytes of the handler's
      text, compressed when gzip was negotiated (src/server.rs:167-174).
      Without gzip, a client decoding the payload as UTF-8 gets the text
      back. */
  function Payload(contents: string, gzip: bool, compress: Compressor): (r: seq<byte>)
    ensures !gzip ==> Utf8.Decode(r) == Some(contents)
    ensures gzip ==> r == compress(Encode(contents))
  {
    DecodeEncode(contents);
    if gzip then compress(Encode(contents)) else Encode(contents)
  }

  lemma FixedTextsAreAscii()
    ensures IsAscii(STATUS_LINE) && IsAscii(GZIP_HEADER) && IsAscii(LENGTH_FIELD) && IsAscii(HEAD_END)
  {
  }

  lemma DecimalIsAscii(n: nat)
    ensures IsAscii(Decimal(n))
  {
  }

  /** The text of the third write, `format!("Content-Length: {}\r\n\r\n", n)`:
      the field name, a numeral whose value is the length, and the end of
      the head. */
  function LengthLine(length: nat): (s: string)
    ensures IsAscii(s)
    ensures |LENGTH_FIELD| + |HEAD_END| < |s|
    ensures s[..|LENGTH_FIELD|] == LENGTH_FIELD && s[|s| - |HEAD_END|..] == HEAD_END
    ensures var digits := s[|LENGTH_FIELD|..|s| - |HEAD_END|];
      AllDigits(digits) && DecimalValue(digits) == length
  {
    DecimalRoundTrip(length);
    FixedTextsAreAscii();
    DecimalIsAscii(length);
    LENGTH_FIELD + Decimal(length) + HEAD_END
  }

  /** Everything the server writes before the payload: the status line,
      the optional encoding line, the length line (src/server.rs:177-181). */
  function HeadBytes(gzip: bool, length: nat): seq<byte> {
    FixedTextsAreAscii();
    AsciiBytes(STATUS_LINE) + EncodingLine(gzip) + AsciiBytes(LengthLine(length))
  }

  /** The head is the UTF-8 encoding of the head's text, as `as_bytes`
      gives it. */
  lemma HeadIsText(gzip: bool, length: nat)
    ensures HeadBytes(gzip, length) == Encode(STATUS_LINE + (if gzip then GZIP_HEADER else "") + LengthLine(length))
  {
    FixedTextsAreAscii();
    var enc := if gzip then GZIP_HEADER else "";
    assert IsAscii(enc);
    AsciiBytesAppend(STATUS_LINE, enc);
    AsciiBytesAppend(STATUS_LINE + enc, LengthLine(length));
    assert EncodingLine(gzip) == AsciiBytes(enc);
    AsciiBytesIsEncode(STATUS_LINE + enc + LengthLine(length));
  }

  /** The head as the separate writes of src/server.rs:177-181: status
      line, encoding line only when gzip was negotiated, length line. */
  function HeadChunks(gzip: bool, length: nat): (chunks: seq<seq<byte>>)
    ensures Flatten(chunks) == HeadBytes(gzip, length)
  {
    FixedTextsAreAscii();
    var chunks := [AsciiBytes(STATUS_LINE)] + (if gzip then [AsciiBytes(GZIP_HEADER)] else []) + [AsciiBytes(LengthLine(length))];
    FlattenPieces(AsciiBytes(STATUS_LINE), EncodingLine(gzip), AsciiBytes(LengthLine(length)), gzip);
    chunks
  }

  lemma FlattenPieces(status: seq<byte>, enc: seq<byte>, len: seq<byte>, present: bool)
    requires present || enc == []
    ensures Flatten([status] + (if present then [enc] else []) + [len]) == status + enc + len
  {
    var chunks := [status] + (if present then [enc] else []) + [len];
    assert Flatten([len]) == len by {
      assert [len][1..] == [];
    }
    if present {
      assert chunks[1..] == [enc, len];
      assert chunks[1..][1..] == [len];
    } else {
      assert chunks[1..] == [len];
    }
  }

  /** The head written into a fresh buffered writer. */
  function WriteHead(gzip: bool, length: nat): (w: Writer)
    ensures Valid(w)
    ensures Contents(w) == HeadBytes(gzip, length)
  {
    WriteEach(Fresh, HeadChunks(gzip, length))
  }

  /** The writes of src/server.rs:176-182: the head, then the payload. */
  function WriteResponse(payload: seq<byte>, gzip: bool): (w: Writer)
    ensures Valid(w)
    ensures Contents(w) == HeadBytes(gzip, |payload|) + payload
  {
    Write(WriteHead(gzip, |payload|), payload)
  }

  /** The response bytes: everything written, as the inner vector holds it
      once the writer is flushed. A client reading them finds the gzip
      marker exactly when gzip was negotiated, a Content-Length equal to
      the payload's length, and the payload. */
  function Respond(contents: string, gzip: bool, compress: Compressor): (r: seq<byte>)
    ensures r == HeadBytes(gzip, |Payload(contents, gzip, compress)|) + Payload(contents, gzip, compress)
    ensures Read(r) == Some(Message(gzip, |Payload(contents, gzip, compress)|, Payload(contents, gzip, compress)))
  {
    var payload := Payload(contents, gzip, compress);
    ReadRespond(payload, gzip);
    Contents(WriteResponse(payload, gzip))
  }

  /** What src/server.rs:183 hands to the socket as written:
      `response_writer.buffer()`, which holds only the bytes that have not
      been flushed to the inner vector. */
  function SentAsWritten(payload: seq<byte>, gzip: bool): (r: seq<byte>)
    ensures |r| <= CAPACITY
    ensures var whole := HeadBytes(gzip, |payload|) + payload;
      |r| <= |whole| && r == whole[|whole| - |r|..]
  {
    var w := WriteResponse(payload, gzip);
    assert Contents(w)[|w.inner|..] == w.buffer;
    w.buffer
  }

  lemma HeadIsShort(gzip: bool, length: nat)
    ensures |HeadBytes(gzip, length)| <= 62 + length / 10
  {
    DecimalLength(length);
  }

  /** A head shorter than the buffer stays in the buffer. */
  lemma HeadStaysBuffered(gzip: bool, length: nat)
    requires |HeadBytes(gzip, length)| < CAPACITY
    ensures WriteHead(gzip, length) == Writer([], HeadBytes(gzip, length))
  {
    FittingChunksStayBuffered(Fresh, HeadChunks(gzip, length));
  }

  /** While the whole response fits in the buffer, what is sent is the
      whole response. */
  lemma ShortResponseSentWhole(payload: seq<byte>, gzip: bool)
    requires |HeadBytes(gzip, |payload|)| + |payload| <= CAPACITY
    ensures SentAsWritten(payload, gzip) == HeadBytes(gzip, |payload|) + payload
  {
    HeadIsShort(gzip, |payload|);
    HeadStaysBuffered(gzip, |payload|);
  }

  /** A payload of at least the buffer's capacity is written past the
      buffer after the head has been flushed: nothing is sent at all. */
  lemma LargeResponseSendsNothing(payload: seq<byte>, gzip: bool)
    requires |payload| >= CAPACITY
    ensures SentAsWritten(payload, gzip) == []
    ensures Read(SentAsWritten(payload, gzip)) == None
  {
  }

  /** A payload that fits the buffer but not together with the head makes
      the head be flushed first: only the payload is sent, with no status
      line and no Content-Length. */
  lemma MidResponseLosesHead(payload: seq<byte>, gzip: bool)
    requires |payload| < CAPACITY < |HeadBytes(gzip, |payload|)| + |payload|
    ensures SentAsWritten(payload, gzip) == payload
  {
    HeadIsShort(gzip, |payload|);
    HeadStaysBuffered(gzip, |payload|);
  }

  /** A page of 8192 ASCII characters served without gzip reaches the
      client as nothing. */
  lemma LargePageSendsNothing(compress: Compressor)
    ensures var page := seq(CAPACITY, i => 'a');
      SentAsWritten(Payload(page, false, compress), false) == []
  {
    var page := seq(CAPACITY, i => 'a');
    assert IsAscii(page);
    LargeResponseSendsNothing(Payload(page, false, compress), false);
  }

  // ---------------------------------------------------------------------
  // Reading a response: the partner of the encoder
  // ---------------------------------------------------------------------

  /** What a client learns from a response of this server: whether the
      payload is marked gzip-encoded, the declared Content-Length, and the
      bytes after the head. */
  datatype Message = Message(gzipped: bool, contentLength: nat, payload: seq<byte>)

  /** Bytes read as Latin-1 characters; on ASCII bytes this is ASCII. */
  function AsciiText(bs: seq<byte>): (s: string)
    ensures |s| == |bs| && forall i :: 0 <= i < |bs| ==> s[i] as int == bs[i]
  {
    seq(|bs|, i requires 0 <= i < |bs| => bs[i] as char)
  }

  /** The bytes begin with the given ASCII text. */
  predicate StartsWith(bytes: seq<byte>, text: string) {
    |text| <= |bytes| && AsciiText(bytes[..|text|]) == text
  }

  /** Length of the run of ASCII digits that starts `s`. */
  function DigitRun(s: string): (n: nat)
    ensures n <= |s| && AllDigits(s[..n])
    ensures n < |s| ==> !IsDigit(s[n])
  {
    if |s| == 0 || !IsDigit(s[0]) then 0
    else
      var n := 1 + DigitRun(s[1..]);
      assert forall i :: 1 <= i < n ==> s[..n][i] == s[1..][..n - 1][i - 1];
      n
  }

  /** Parses the response layout the server writes; `None` for anything
      else. */
  function Read(bytes: seq<byte>): Option<Message> {
    if !StartsWith(bytes, STATUS_LINE) then None
    else ReadFields(bytes[|STATUS_LINE|..])
  }

  /** Parses what follows the status line: the optional encoding line,
      then the length line. */
  function ReadFields(bytes: seq<byte>): Option<Message> {
    var gzipped := StartsWith(bytes, GZIP_HEADER);
    var afterEncoding := if gzipped then bytes[|GZIP_HEADER|..] else bytes;
    match ReadLength(afterEncoding)
    case None => None
    case Some((length, payload)) => Some(Message(gzipped, length, payload))
  }

  /** Parses the length line: the field name, a non-empty run of digits and
      the blank line; yields the declared length and the bytes after it. */
  function ReadLength(bytes: seq<byte>): Option<(nat, seq<byte>)> {
    if !StartsWith(bytes, LENGTH_FIELD) then None
    else ReadDecimal(bytes[|LENGTH_FIELD|..])
  }

  function ReadDecimal(bytes: seq<byte>): Option<(nat, seq<byte>)> {
    var text := AsciiText(bytes);
    var n := DigitRun(text);
    if n == 0 || !StartsWith(bytes[n..], HEAD_END) then None
    else Some((DecimalValue(text[..n]), bytes[n + |HEAD_END|..]))
  }

  lemma AsciiBytesAppend(a: string, b: string)
    requires IsAscii(a) && IsAscii(b)
    ensures IsAscii(a + b) && AsciiBytes(a + b) == AsciiBytes(a) + AsciiBytes(b)
  {
  }

  lemma AsciiTextOfBytes(s: string)
    requires IsAscii(s)
    ensures AsciiText(AsciiBytes(s)) == s
  {
  }

  lemma AsciiTextAppend(a: seq<byte>, b: seq<byte>)
    ensures AsciiText(a + b) == AsciiText(a) + AsciiText(b)
  {
  }

  /** Bytes that begin with the encoding of an ASCII text start with that
      text, and what follows it is the rest. */
  lemma StartsWithEncoding(text: string, more: seq<byte>)
    requires IsAscii(text)
    ensures StartsWith(AsciiBytes(text) + more, text)
    ensures (AsciiBytes(text) + more)[|text|..] == more
  {
    assert (AsciiBytes(text) + more)[..|text|] == AsciiBytes(text);
  }

  /** A run of digits ends at the first character that is not one. */
  lemma DigitRunStops(digits: string, tail: string)
    requires AllDigits(digits) && |tail| > 0 && !IsDigit(tail[0])
    ensures DigitRun(digits + tail) == |digits|
  {
    var s := digits + tail;
    assert s[|digits|] == tail[0];
    assert forall i :: 0 <= i < |digits| ==> s[..DigitRun(s)][i] == digits[i] || DigitRun(s) <= i;
  }

  /** The length line never starts like the encoding line: the two differ
      in their ninth character. */
  lemma LengthLineIsNotGzipHeader(length: nat, more: seq<byte>)
    ensures !StartsWith(AsciiBytes(LengthLine(length)) + more, GZIP_HEADER)
  {
    var bytes := AsciiBytes(LengthLine(length)) + more;
    assert bytes[8] == 'L' as int;
    assert GZIP_HEADER[8] == 'E';
    if |GZIP_HEADER| <= |bytes| {
      assert AsciiText(bytes[..|GZIP_HEADER|])[8] == 'L';
    }
  }

  lemma {:induction false} ReadDecimalOf(length: nat, payload: seq<byte>)
    ensures ReadDecimal(AsciiBytes(Decimal(length)) + AsciiBytes(HEAD_END) + payload) == Some((length, payload))
  {
    FixedTextsAreAscii();
    DecimalIsAscii(length);
    var digits := Decimal(length);
    var bytes := AsciiBytes(digits) + (AsciiBytes(HEAD_END) + payload);
    assert bytes == AsciiBytes(digits) + AsciiBytes(HEAD_END) + payload;
    AsciiTextAppend(AsciiBytes(digits), AsciiBytes(HEAD_END) + payload);
    AsciiTextOfBytes(digits);
    var text := AsciiText(bytes);
    assert text == digits + AsciiText(AsciiBytes(HEAD_END) + payload);
    DigitRunStops(digits, AsciiText(AsciiBytes(HEAD_END) + payload));
    var n := |digits|;
    assert text[..n] == digits;
    StartsWithEncoding(digits, AsciiBytes(HEAD_END) + payload);
    StartsWithEncoding(HEAD_END, payload);
    DecimalRoundTrip(length);
  }

  lemma {:induction false} ReadLengthOf(length: nat, payload: seq<byte>)
    ensures ReadLength(AsciiBytes(LengthLine(length)) + payload) == Some((length, payload))
  {
    FixedTextsAreAscii();
    DecimalIsAscii(length);
    var digits := Decimal(length);
    AsciiBytesAppend(LENGTH_FIELD, digits);
    AsciiBytesAppend(LENGTH_FIELD + digits, HEAD_END);
    var afterField := AsciiBytes(digits) + AsciiBytes(HEAD_END) + payload;
    assert AsciiBytes(LengthLine(length)) + payload == AsciiBytes(LENGTH_FIELD) + afterField;
    StartsWithEncoding(LENGTH_FIELD, afterField);
    ReadDecimalOf(length, payload);
  }

  /** The bytes after the status line. */
  function EncodingLine(gzip: bool): seq<byte> {
    FixedTextsAreAscii();
    if gzip then AsciiBytes(GZIP_HEADER) else []
  }

  lemma {:induction false} ReadFieldsOf(payload: seq<byte>, gzip: bool)
    ensures ReadFields(EncodingLine(gzip) + AsciiBytes(LengthLine(|payload|)) + payload)
         == Some(Message(gzip, |payload|, payload))
  {
    FixedTextsAreAscii();
    var lengthPart := AsciiBytes(LengthLine(|payload|)) + payload;
    assert EncodingLine(gzip) + AsciiBytes(LengthLine(|payload|)) + payload == EncodingLine(gzip) + lengthPart;
    if gzip {
      StartsWithEncoding(GZIP_HEADER, lengthPart);
    } else {
      assert EncodingLine(gzip) + lengthPart == lengthPart;
      LengthLineIsNotGzipHeader(|payload|, payload);
    }
    ReadLengthOf(|payload|, payload);
  }

  lemma {:induction false} ReadRespond(payload: seq<byte>, gzip: bool)
    ensures Read(HeadBytes(gzip, |payload|) + payload) == Some(Message(gzip, |payload|, payload))
  {
    FixedTextsAreAscii();
    var afterStatus := EncodingLine(gzip) + AsciiBytes(LengthLine(|payload|)) + payload;
    assert HeadBytes(gzip, |payload|) + payload == AsciiBytes(STATUS_LINE) + afterStatus;
    StartsWithEncoding(STATUS_LINE, afterStatus);
    ReadFieldsOf(payload, gzip);
  }

  /** With gzip, a decompressor that inverts the compressor on this payload
      recovers the handler's text. */
  lemma GzipPayloadIsText(contents: string, compress: Compressor, decompress: Compressor)
    requires decompress(compress(Encode(contents))) == Encode(contents)
    ensures Utf8.Decode(decompress(Payload(contents, true, compress))) == Some(contents)
  {
    DecodeEncode(contents);
  }
}
