/** The read loop of `handle_connection` (src/server.rs:85-96): reads into a
    1024-byte buffer are appended to the request until a read returns zero
    bytes or fewer bytes than the buffer holds. The socket is replaced by the
    sequence of outcomes its successive reads would produce. */
module Framing {
  import opened Wrappers
  import opened Utf8

  /** `BUFFER_SIZE` (src/server.rs:81). */
  const BUFFER_SIZE: nat := 1024

  /** What one `stream.read(&mut buf)` call returns. */
  datatype ReadOutcome = Data(bytes: seq<byte>) | ReadFailed

  /** Why no request text was obtained: a read reported an error (the
      `expect` at src/server.rs:88), or every read the socket will ever
      answer filled the buffer, so the loop would still be waiting. */
  datatype ReadError = IoError | Stalled

  /** A read can never return more than the buffer holds. */
  predicate WithinBuffer(outcomes: seq<ReadOutcome>) {
    forall i :: 0 <= i < |outcomes| ==> outcomes[i].Data? ==> |outcomes[i].bytes| <= BUFFER_SIZE
  }

  /** A read after which the loop goes round again. */
  predicate IsFull(o: ReadOutcome) {
    o.Data? && |o.bytes| == BUFFER_SIZE
  }

  /** Read `k` is the first one after which the loop does not go round again. */
  predicate StopsAt(outcomes: seq<ReadOutcome>, k: int) {
    0 <= k < |outcomes| && !IsFull(outcomes[k]) && forall i :: 0 <= i < k ==> IsFull(outcomes[i])
  }

  /** The bytes delivered by a run of successful reads, in order. */
  function Concat(outcomes: seq<ReadOutcome>): seq<byte> {
    if |outcomes| == 0 then []
    else (if outcomes[0].Data? then outcomes[0].bytes else []) + Concat(outcomes[1..])
  }

  /** The accumulated request bytes. */
  function ReadRequest(outcomes: seq<ReadOutcome>): (r: Result<seq<byte>, ReadError>)
    requires WithinBuffer(outcomes)
    ensures forall k :: StopsAt(outcomes, k) && outcomes[k].Data? ==> r == Success(Concat(outcomes[..k + 1]))
    ensures forall k :: StopsAt(outcomes, k) && outcomes[k].ReadFailed? ==> r == Failure(IoError)
    ensures (forall i :: 0 <= i < |outcomes| ==> IsFull(outcomes[i])) ==> r == Failure(Stalled)
  {
    if |outcomes| == 0 then Failure(Stalled)
    else
      match outcomes[0]
      case ReadFailed => Failure(IoError)
      case Data(bytes) =>
        assert Concat(outcomes[..1]) == bytes by {
          assert outcomes[..1][1..] == [];
        }
        if |bytes| == 0 then Success([])
        else if |bytes| < BUFFER_SIZE then Success(bytes)
        else
          assert forall k :: 1 <= k ==> (StopsAt(outcomes, k) <==> StopsAt(outcomes[1..], k - 1)) by {
            assert forall i :: 1 <= i < |outcomes| ==> outcomes[i] == outcomes[1..][i - 1];
          }
          assert forall k :: 1 <= k < |outcomes| ==> outcomes[..k + 1] == [outcomes[0]] + outcomes[1..][..k];
          match ReadRequest(outcomes[1..])
          case Success(rest) => Success(bytes + rest)
          case Failure(e) => Failure(e)
  }

  /** The loop stops at exactly one read, or never when every read is full;
      so the three cases of `ReadRequest` cover every sequence of reads. */
  lemma StopIsUnique(outcomes: seq<ReadOutcome>, k: int, k': int)
    requires StopsAt(outcomes, k) && StopsAt(outcomes, k')
    ensures k == k'
  {
  }

  lemma {:induction false} StopsOrStalls(outcomes: seq<ReadOutcome>)
    ensures (exists k :: StopsAt(outcomes, k)) || forall i :: 0 <= i < |outcomes| ==> IsFull(outcomes[i])
    decreases |outcomes|
  {
    if |outcomes| > 0 && IsFull(outcomes[0]) {
      StopsOrStalls(outcomes[1..]);
      if k :| StopsAt(outcomes[1..], k) {
        assert StopsAt(outcomes, k + 1);
      } else {
        assert forall i :: 1 <= i < |outcomes| ==> outcomes[i] == outcomes[1..][i - 1];
      }
    } else if |outcomes| > 0 {
      assert StopsAt(outcomes, 0);
    }
  }

  /** Every read but the last that contributed bytes filled the buffer,
      and the last one was short (possibly empty). */
  lemma AppendedChunks(outcomes: seq<ReadOutcome>, k: int)
    requires WithinBuffer(outcomes) && StopsAt(outcomes, k) && outcomes[k].Data?
    ensures ReadRequest(outcomes).Success?
    ensures |ReadRequest(outcomes).value| == k * BUFFER_SIZE + |outcomes[k].bytes|
    ensures |outcomes[k].bytes| < BUFFER_SIZE
  {
    LengthOfFullRun(outcomes[..k + 1], k);
  }

  lemma {:induction false} LengthOfFullRun(outcomes: seq<ReadOutcome>, k: nat)
    requires |outcomes| == k + 1 && outcomes[k].Data?
    requires forall i :: 0 <= i < k ==> IsFull(outcomes[i])
    ensures |Concat(outcomes)| == k * BUFFER_SIZE + |outcomes[k].bytes|
    decreases k
  {
    if k > 0 {
      LengthOfFullRun(outcomes[1..], k - 1);
    }
  }
}
