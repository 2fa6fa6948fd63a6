/** Connections sharing the route table (src/server.rs:26-51, 160-163).
    Each connection runs on its own thread, and all of them lock the one
    `Mutex` around the table to look their route up. The model takes the
    connections in the order in which they reach that lock.

    A connection that panics while it holds the lock poisons it. In the
    source this happens when the route is missing: `get(&route).unwrap()`
    panics inside the block that holds the guard. From then on
    `lock().unwrap()` panics in every later connection that gets that far.
    A request that fails to parse panics before it reaches the lock and
    leaves it as it was. What a served connection gets is what
    src/server.rs:183 sends, `Connection.ServeAsSent`. */
module Server {
  import opened Wrappers
  import opened Parser
  import opened Routing
  import opened Utf8
  import opened BufWriter
  import opened Response
  import opened Connection

  datatype Lock = Healthy | Poisoned

  /** The request parses but its route is not registered: the source
      panics while holding the table's lock. */
  predicate Misses(table: RouteTable, text: string) {
    Parse(text).Success? && RouteOf(Parse(text).value) !in table
  }

  /** What one connection does with the table's lock: whether it gets as
      far as taking it, whether it panics while holding it, and what it
      is sent when the lock is healthy. */
  datatype Attempt = Attempt(takesLock: bool, panicsHolding: bool, served: Result<seq<byte>, Abort>)

  function AttemptOf(table: RouteTable, text: string, compress: Compressor): (a: Attempt)
    ensures a.takesLock <==> Parse(text).Success?
    ensures a.panicsHolding <==> Misses(table, text)
    ensures a.panicsHolding ==> a.takesLock
    ensures a.served == ServeAsSent(table, text, compress)
  {
    Attempt(Parse(text).Success?, Misses(table, text), ServeAsSent(table, text, compress))
  }

  /** One connection against the lock it finds: what it gets and the
      state it leaves the lock in. */
  function Step(lock: Lock, a: Attempt): (Result<seq<byte>, Abort>, Lock) {
    if !a.takesLock then (a.served, lock)
    else if lock == Poisoned then (Failure(LockPoisoned), Poisoned)
    else if a.panicsHolding then (a.served, Poisoned)
    else (a.served, Healthy)
  }

  /** One connection as written, given the state of the lock it finds. It
      returns what the connection gets and the state it leaves the lock in. */
  function ServeLocked(lock: Lock, table: RouteTable, text: string, compress: Compressor): (o: (Result<seq<byte>, Abort>, Lock))
    ensures lock == Healthy ==> o.0 == ServeAsSent(table, text, compress)
    ensures lock == Poisoned ==>
      o.0 == if Parse(text).Success? then Failure(LockPoisoned) else ServeAsSent(table, text, compress)
    ensures o.1 == Poisoned <==> lock == Poisoned || Misses(table, text)
  {
    Step(lock, AttemptOf(table, text, compress))
  }

  /** Attempts one after another from the given lock state. */
  function InTurn(lock: Lock, attempts: seq<Attempt>): (rs: seq<Result<seq<byte>, Abort>>)
    ensures |rs| == |attempts|
    decreases |attempts|
  {
    if |attempts| == 0 then []
    else
      var (r, next) := Step(lock, attempts[0]);
      [r] + InTurn(next, attempts[1..])
  }

  /** Connections one after another as written, starting from `lock`. */
  function ServeInTurn(lock: Lock, table: RouteTable, texts: seq<string>, compress: Compressor): (rs: seq<Result<seq<byte>, Abort>>)
    ensures |rs| == |texts|
  {
    InTurn(lock, Attempts(table, texts, compress))
  }

  function Attempts(table: RouteTable, texts: seq<string>, compress: Compressor): (attempts: seq<Attempt>)
    ensures |attempts| == |texts|
    ensures forall i :: 0 <= i < |texts| ==> attempts[i] == AttemptOf(table, texts[i], compress)
  {
    seq(|texts|, i requires 0 <= i < |texts| => AttemptOf(table, texts[i], compress))
  }

  lemma {:induction false} PoisonedRefuses(attempts: seq<Attempt>, i: nat)
    requires i < |attempts| && attempts[i].takesLock
    ensures InTurn(Poisoned, attempts)[i] == Failure(LockPoisoned)
    decreases i
  {
    if i > 0 {
      PoisonedRefuses(attempts[1..], i - 1);
    }
  }

  lemma {:induction false} PanicPoisons(lock: Lock, attempts: seq<Attempt>, i: nat, j: nat)
    requires i < j < |attempts| && attempts[i].panicsHolding && attempts[i].takesLock && attempts[j].takesLock
    ensures InTurn(lock, attempts)[j] == Failure(LockPoisoned)
    decreases i
  {
    var next := Step(lock, attempts[0]).1;
    if i == 0 {
      PoisonedRefuses(attempts[1..], j - 1);
    } else {
      PanicPoisons(next, attempts[1..], i - 1, j - 1);
    }
  }

  lemma {:induction false} HealthyBeforePanic(attempts: seq<Attempt>, i: nat)
    requires i < |attempts|
    requires forall j :: 0 <= j < i ==> !attempts[j].panicsHolding
    ensures InTurn(Healthy, attempts)[i] == attempts[i].served
    decreases i
  {
    if i > 0 {
      assert !attempts[0].panicsHolding;
      HealthyBeforePanic(attempts[1..], i - 1);
    }
  }

  /** Once the lock is poisoned, every request that parses is refused. */
  lemma PoisonedLockRefusesParsed(table: RouteTable, texts: seq<string>, compress: Compressor, i: nat)
    requires i < |texts| && Parse(texts[i]).Success?
    ensures ServeInTurn(Poisoned, table, texts, compress)[i] == Failure(LockPoisoned)
  {
    PoisonedRefuses(Attempts(table, texts, compress), i);
  }

  /** One request for a missing route makes every later request that
      parses fail, whatever route it asks for. */
  lemma MissPoisonsLaterConnections(lock: Lock, table: RouteTable, texts: seq<string>, compress: Compressor, i: nat, j: nat)
    requires i < j < |texts| && Misses(table, texts[i]) && Parse(texts[j]).Success?
    ensures ServeInTurn(lock, table, texts, compress)[j] == Failure(LockPoisoned)
  {
    PanicPoisons(lock, Attempts(table, texts, compress), i, j);
  }

  /** Until a request misses its route, connections as written are sent
      what `ServeAsSent` gives them. */
  lemma InTurnAgreesBeforeMiss(table: RouteTable, texts: seq<string>, compress: Compressor, i: nat)
    requires i < |texts|
    requires forall j :: 0 <= j < i ==> !Misses(table, texts[j])
    ensures ServeInTurn(Healthy, table, texts, compress)[i] == ServeAsSent(table, texts[i], compress)
  {
    HealthyBeforePanic(Attempts(table, texts, compress), i);
  }

  /** Connections that do not share a poisonable lock and that send the
      whole response: what a connection gets depends on its own request
      only. */
  function ServeEach(table: RouteTable, texts: seq<string>, compress: Compressor): (rs: seq<Result<seq<byte>, Abort>>)
    ensures |rs| == |texts|
    ensures forall i :: 0 <= i < |texts| ==> rs[i] == Serve(table, texts[i], compress)
    decreases |texts|
  {
    if |texts| == 0 then []
    else
      var rest := ServeEach(table, texts[1..], compress);
      assert forall i :: 1 <= i < |texts| ==> texts[i] == texts[1..][i - 1];
      [Serve(table, texts[0], compress)] + rest
  }

  /** Earlier connections do not change what later ones get. */
  lemma {:induction false} ServeEachSplits(table: RouteTable, a: seq<string>, b: seq<string>, compress: Compressor)
    ensures ServeEach(table, a + b, compress) == ServeEach(table, a, compress) + ServeEach(table, b, compress)
    decreases |a|
  {
    if |a| == 0 {
      assert a + b == b;
    } else {
      assert (a + b)[0] == a[0];
      assert (a + b)[1..] == a[1..] + b;
      ServeEachSplits(table, a[1..], b, compress);
    }
  }

  /** While no request misses its route and every response fits in the
      writer's buffer, the server as written behaves like independent
      connections. */
  lemma InTurnIsEachWithoutMiss(table: RouteTable, texts: seq<string>, compress: Compressor)
    requires forall j :: 0 <= j < |texts| ==> !Misses(table, texts[j])
    requires forall j :: 0 <= j < |texts| && Serve(table, texts[j], compress).Success? ==>
      |Serve(table, texts[j], compress).value| <= CAPACITY
    ensures ServeInTurn(Healthy, table, texts, compress) == ServeEach(table, texts, compress)
  {
    var inTurn := ServeInTurn(Healthy, table, texts, compress);
    forall i | 0 <= i < |texts|
      ensures inTurn[i] == Serve(table, texts[i], compress)
    {
      InTurnAgreesBeforeMiss(table, texts, compress, i);
      ServeSentWholeWhenItFits(table, texts[i], compress);
    }
  }
}
