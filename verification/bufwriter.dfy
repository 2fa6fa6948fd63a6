/** `std::io::BufWriter` over an in-memory `Vec<u8>`, as `handle_connection`
    uses it to assemble the response (src/server.rs:176-183). The writer
    keeps a buffer of fixed capacity (the standard library's default of
    8 KiB) in front of the inner vector: a write that fits in the spare
    room is buffered; a write that does not first flushes the buffer into
    the inner vector; a write at least as long as the whole capacity then
    goes straight to the inner vector. */
module BufWriter {
  import opened Utf8

  /** The default buffer capacity of `BufWriter::new`. */
  const CAPACITY: nat := 8192

  /** The inner vector and the bytes still waiting in the buffer. */
  datatype Writer = Writer(inner: seq<byte>, buffer: seq<byte>)

  /** `BufWriter::new(Vec::new())`. */
  const Fresh: Writer := Writer([], [])

  predicate Valid(w: Writer) {
    |w.buffer| <= CAPACITY
  }

  /** Everything written so far, flushed or not: what the inner vector
      holds once the writer is flushed. */
  function Contents(w: Writer): seq<byte> {
    w.inner + w.buffer
  }

  /** One `write` call. Every byte is accepted: the inner vector never
      refuses one. */
  function Write(w: Writer, data: seq<byte>): (r: Writer)
    requires Valid(w)
    ensures Valid(r)
    ensures Contents(r) == Contents(w) + data
    ensures |data| <= CAPACITY - |w.buffer| && |data| < CAPACITY ==> r == Writer(w.inner, w.buffer + data)
    ensures |data| >= CAPACITY ==> r.buffer == []
    ensures CAPACITY - |w.buffer| < |data| < CAPACITY ==> r.buffer == data
  {
    var spare := CAPACITY - |w.buffer|;
    if |data| < spare then Writer(w.inner, w.buffer + data)
    else
      var flushed := if |data| > spare then Writer(w.inner + w.buffer, []) else w;
      if |data| >= CAPACITY then Writer(flushed.inner + data, flushed.buffer)
      else Writer(flushed.inner, flushed.buffer + data)
  }

  /** Writes that together fit in the buffer never reach the inner vector:
      the buffer then holds all of them. */
  lemma FittingWritesStayBuffered(w: Writer, data: seq<byte>)
    requires Valid(w) && w.inner == [] && |w.buffer| + |data| < CAPACITY
    ensures Write(w, data) == Writer([], w.buffer + data)
  {
  }

  /** The bytes of several writes, in order. */
  function Flatten(chunks: seq<seq<byte>>): seq<byte> {
    if |chunks| == 0 then [] else chunks[0] + Flatten(chunks[1..])
  }

  /** One `write` call per chunk, in order. */
  function WriteEach(w: Writer, chunks: seq<seq<byte>>): (r: Writer)
    requires Valid(w)
    ensures Valid(r)
    ensures Contents(r) == Contents(w) + Flatten(chunks)
    decreases |chunks|
  {
    if |chunks| == 0 then w
    else
      var next := Write(w, chunks[0]);
      var r := WriteEach(next, chunks[1..]);
      assert Flatten(chunks) == chunks[0] + Flatten(chunks[1..]);
      assert Contents(r) == (Contents(w) + chunks[0]) + Flatten(chunks[1..]);
      r
  }

  lemma {:induction false} FittingChunksStayBuffered(w: Writer, chunks: seq<seq<byte>>)
    requires Valid(w) && w.inner == [] && |w.buffer| + |Flatten(chunks)| < CAPACITY
    ensures WriteEach(w, chunks) == Writer([], w.buffer + Flatten(chunks))
    decreases |chunks|
  {
    if |chunks| > 0 {
      FittingWritesStayBuffered(w, chunks[0]);
      FittingChunksStayBuffered(Write(w, chunks[0]), chunks[1..]);
    }
  }
}
