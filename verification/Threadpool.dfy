/** The pool's objects, one thread of control at a time: the handlers over their shared queue,
    and the loop that serves it. */
module Threadpool {
  import opened Wrappers
  import opened Pool
  import LFQ = LockFreeQueue

  const QUEUE_CAPACITY: nat := 100

  const NO_CONNECTION := Connection(-1, "")

  /** What the handlers do to the outside world, in order. */
  class Wire {
    var log: seq<Effect>

    constructor ()
      ensures log == []
    {
      log := [];
    }
  }

  class ConnectionHandler {
    const queue: LFQ.LockFreeQueue?<Connection>
    const ready: bool
    const id: nat
    const wire: Wire
    const answer: string -> Option<string>

    constructor (queue: LFQ.LockFreeQueue?<Connection>, ready: bool, id: nat, wire: Wire,
                 answer: string -> Option<string>)
      ensures this.queue == queue && this.ready == ready && this.id == id && this.wire == wire && this.answer == answer
    {
      this.queue, this.ready, this.id, this.wire, this.answer := queue, ready, id, wire, answer;
    }

    /** Handle, send if there is an answer, close: one whole life of the connection. */
    method HandleConnection(ticket: nat, conn: Connection)
      modifies wire
      ensures wire.log == old(wire.log) + Life(ticket, id, conn, answer(conn.request))
    {
      var response := answer(conn.request);
      wire.log := wire.log + [Handled(ticket, id, conn.request, response)];
      if response.Some? {
        wire.log := wire.log + [Sent(ticket, id, conn.fd, response.value)];
      }
      wire.log := wire.log + [Closed(ticket, id, conn.fd)];
    }

    /** One round of the loop: pop, and serve what was popped. */
    method Round(ticket: nat, spurious: bool) returns (served: bool)
      requires queue != null && queue.Valid()
      modifies wire, queue, queue.arr
      ensures queue.Valid() && served == (old(queue.Contents()) != [] && !spurious)
      ensures served ==>
        var conn := old(queue.Contents())[0];
        && queue.Contents() == old(queue.Contents())[1..]
        && wire.log == old(wire.log) + Life(ticket, id, conn, answer(conn.request))
      ensures !served ==> queue.Contents() == old(queue.Contents()) && wire.log == old(wire.log)
    {
      var conn := queue.Pop(spurious, NO_CONNECTION);
      if conn.Some? {
        HandleConnection(ticket, conn.value);
      }
      served := conn.Some?;
    }

    /** The serving loop, cut off after one round per element of `spurious`, each saying whether
        that round's exchange fails for no reason. `first` numbers the oldest queued connection.
        The connections served are the oldest ones, in order, each wholly; a round without a
        spurious failure serves one as long as there is one. */
    method Start(first: nat, spurious: seq<bool>) returns (served: Outcome<nat>)
      requires queue != null ==> queue.Valid()
      modifies wire, if queue == null then {} else {queue, queue.arr}
      ensures queue == null ==> served.Fault? && wire.log == old(wire.log)
      ensures queue != null && !ready ==>
        && served.Err? && wire.log == old(wire.log)
        && queue.Valid() && queue.Contents() == old(queue.Contents())
      ensures queue != null && ready ==>
        && queue.Valid()
        && served == Ok(Min(|old(queue.Contents())|, Effective(spurious, |spurious|)))
        && queue.Contents() == old(queue.Contents())[served.value..]
        && wire.log == old(wire.log) + Lives(first, id, old(queue.Contents()), served.value, answer)
    {
      if queue == null {
        return Fault;
      }
      if !ready {
        return Err;
      }
      var n := Serve(first, spurious);
      return Ok(n);
    }

    method Serve(first: nat, spurious: seq<bool>) returns (n: nat)
      requires queue != null && queue.Valid()
      modifies wire, queue, queue.arr
      ensures queue.Valid() && n == Min(|old(queue.Contents())|, Effective(spurious, |spurious|))
      ensures queue.Contents() == old(queue.Contents())[n..]
      ensures wire.log == old(wire.log) + Lives(first, id, old(queue.Contents()), n, answer)
    {
      hide LFQ.Window, Life;
      ghost var all, before := queue.Contents(), wire.log;
      n := 0;
      for round := 0 to |spurious|
        invariant queue.Valid()
        invariant n == Min(|all|, Effective(spurious, round))
        invariant queue.Contents() == all[n..]
        invariant wire.log == before + Lives(first, id, all, n, answer)
      {
        var more := Round(first + n, spurious[round]);
        if more {
          n := n + 1;
        }
      }
    }
  }

  function Min(a: nat, b: nat): nat {
    if a < b then a else b
  }

  /** Among the first `n` rounds, those that do not fail spuriously. */
  function Effective(spurious: seq<bool>, n: nat): (r: nat)
    requires n <= |spurious|
    ensures r <= n
  {
    if n == 0 then 0 else Effective(spurious, n - 1) + if spurious[n - 1] then 0 else 1
  }

  /** The lives of the first `n` connections, one after the other, numbered from `first`. */
  ghost function Lives(first: nat, worker: nat, conns: seq<Connection>, n: nat,
                       answer: string -> Option<string>): seq<Effect>
    requires n <= |conns|
  {
    if n == 0 then []
    else Lives(first, worker, conns, n - 1, answer) +
         Life(first + n - 1, worker, conns[n - 1], answer(conns[n - 1].request))
  }

  /** The order of a life is the order of the pool's own steps. */
  lemma HandlingStepsMakeALife(p: PoolState, i: nat, answer: Option<string>) returns (p': PoolState)
    requires Shaped(p) && i < |p.workers| && p.workers[i].Handling?
    ensures Shaped(p') && p'.q == p.q && p'.workers == p.workers[i := Popping]
    ensures p'.log == p.log + Life(p.workers[i].ticket, i, p.workers[i].conn, answer)
  {
    p' := PoolStep(p, Handle(i, answer));
    if answer.Some? {
      p' := PoolStep(p', Send(i));
    }
    p' := PoolStep(p', Close(i));
  }

  class Threadpool {
    const queue: LFQ.LockFreeQueue<Connection>
    const handlers: array<ConnectionHandler?>
    ghost const wire: Wire
    ghost const answer: string -> Option<string>

    /** Every handler is ready, serves the pool's one queue, and runs the pool's one request handler. */
    ghost predicate Valid()
      reads this, queue, queue.arr, queue.nextArr, handlers
    {
      && queue.Valid() && queue.capacity == 100 && (handlers as object) != queue.arr
      && forall i :: 0 <= i < handlers.Length ==> handlers[i] != null && Serves(handlers[i], i)
    }

    ghost predicate Serves(h: ConnectionHandler, i: nat) {
      h.queue == queue && h.ready && h.id == i && h.wire == wire && h.answer == answer
    }

    /** Every thread gets a handler of its own over the one shared queue. */
    constructor (numThreads: nat, wire: Wire, answer: string -> Option<string>)
      ensures Valid() && fresh(queue) && fresh(queue.arr) && fresh(handlers) && handlers.Length == numThreads
      ensures this.wire == wire && this.answer == answer && queue.Contents() == []
    {
      hide LFQ.Window;
      var q := new LFQ.LockFreeQueue(QUEUE_CAPACITY, NO_CONNECTION);
      var hs := new ConnectionHandler?[numThreads](_ => null);
      for i := 0 to numThreads
        invariant q.Valid() && q.Contents() == []
        invariant forall j :: 0 <= j < i ==>
          && hs[j] != null && hs[j].queue == q && hs[j].ready && hs[j].id == j
          && hs[j].wire == wire && hs[j].answer == answer
        modifies hs
      {
        hs[i] := new ConnectionHandler(q, true, i, wire, answer);
      }
      queue, handlers := q, hs;
      this.wire, this.answer := wire, answer;
    }

    /** Adding a task never reports a full queue: with 99 connections waiting it drops them all. */
    method AddTask(conn: Connection)
      requires Valid()
      modifies queue, queue.arr
      ensures Valid()
      ensures |old(queue.Contents())| < 99 ==> queue.Contents() == old(queue.Contents()) + [conn]
      ensures |old(queue.Contents())| == 99 ==> queue.Contents() == []
    {
      var _ := queue.Push(conn);
    }
  }

  // ----- The objects together -----

  /** One turn of a worker: the rounds it makes before another one has its turn. */
  datatype Turn = Turn(worker: nat, spurious: seq<bool>)

  /** The lives of the first connections, one after the other, each led by the worker that served it. */
  ghost function LivesBy(workers: seq<nat>, conns: seq<Connection>, answer: string -> Option<string>): seq<Effect>
    requires |workers| <= |conns|
  {
    if workers == [] then []
    else
      var k := |workers| - 1;
      LivesBy(workers[..k], conns, answer) + Life(k, workers[k], conns[k], answer(conns[k].request))
  }

  function Repeat(worker: nat, n: nat): (r: seq<nat>)
    ensures |r| == n && forall i :: 0 <= i < n ==> r[i] == worker
  {
    seq(n, _ => worker)
  }

  lemma {:induction false} LivesInTurn(workers: seq<nat>, worker: nat, n: nat, conns: seq<Connection>,
                                       answer: string -> Option<string>)
    requires |workers| + n <= |conns|
    ensures LivesBy(workers + Repeat(worker, n), conns, answer) ==
            LivesBy(workers, conns, answer) + Lives(|workers|, worker, conns[|workers|..], n, answer)
  {
    hide Life;
    var all := workers + Repeat(worker, n);
    if n == 0 {
      assert all == workers;
    } else {
      LivesInTurn(workers, worker, n - 1, conns, answer);
      assert all[..|all| - 1] == workers + Repeat(worker, n - 1);
      assert conns[|workers|..][n - 1] == conns[|all| - 1];
    }
  }

  /** The workers in the order in which they make rounds without a spurious failure. */
  function Schedule(turns: seq<Turn>): seq<nat> {
    if turns == [] then []
    else
      var turn := turns[|turns| - 1];
      Schedule(turns[..|turns| - 1]) + Repeat(turn.worker, Effective(turn.spurious, |turn.spurious|))
  }

  function First(s: seq<nat>, n: nat): (r: seq<nat>)
    ensures |r| == Min(|s|, n)
  {
    if |s| <= n then s else s[..n]
  }

  lemma NextTurn(turns: seq<Turn>, t: nat, n: nat)
    requires t < |turns|
    ensures var before := First(Schedule(turns[..t]), n);
      First(Schedule(turns[..t + 1]), n) ==
      before + Repeat(turns[t].worker, Min(n - |before|, Effective(turns[t].spurious, |turns[t].spurious|)))
  {
    hide Effective, First;
    assert turns[..t + 1][..t] == turns[..t];
    FirstGrows(Schedule(turns[..t]), turns[t].worker, Effective(turns[t].spurious, |turns[t].spurious|), n);
  }

  lemma FirstGrows(s: seq<nat>, worker: nat, e: nat, n: nat)
    ensures First(s + Repeat(worker, e), n) == First(s, n) + Repeat(worker, Min(n - |First(s, n)|, e))
  {
  }

  /** A pool is built and at most 99 connections are added. */
  method FillPool(numThreads: nat, wire: Wire, answer: string -> Option<string>, conns: seq<Connection>)
    returns (pool: Threadpool)
    requires |conns| <= 99
    ensures fresh(pool) && fresh(pool.queue) && fresh(pool.queue.arr) && pool.Valid()
    ensures pool.handlers.Length == numThreads && pool.wire == wire && pool.answer == answer
    ensures pool.queue.Contents() == conns
  {
    hide LFQ.Window;
    pool := new Threadpool(numThreads, wire, answer);
    for i := 0 to |conns|
      invariant pool.Valid() && pool.queue.Contents() == conns[..i]
      modifies pool.queue, pool.queue.arr
    {
      pool.AddTask(conns[i]);
    }
    assert conns[..|conns|] == conns;
  }

  /** The workers of such a pool take turns in any order. What then stands on the wire is the lives of
      the oldest connections, in the order in which they were added, each with the answer to its own
      request and led by the worker whose round it was; the other connections still wait. */
  method RunPool(numThreads: nat, answer: string -> Option<string>, conns: seq<Connection>, turns: seq<Turn>)
    returns (wire: Wire, pool: Threadpool)
    requires |conns| <= 99 && forall i :: 0 <= i < |turns| ==> turns[i].worker < numThreads
    ensures var workers := First(Schedule(turns), |conns|);
      wire.log == LivesBy(workers, conns, answer) && pool.Valid() && pool.queue.Contents() == conns[|workers|..]
  {
    hide LFQ.Window, Life, LivesBy, Effective, Schedule, First, Repeat;
    wire := new Wire();
    pool := FillPool(numThreads, wire, answer, conns);
    NobodyYet(turns, conns, answer);
    for t := 0 to |turns|
      invariant pool.Valid()
      invariant var workers := First(Schedule(turns[..t]), |conns|);
        wire.log == LivesBy(workers, conns, answer) && pool.queue.Contents() == conns[|workers|..]
      modifies wire, pool.queue, pool.queue.arr
    {
      TakeTurn(pool, turns[t], conns, First(Schedule(turns[..t]), |conns|));
      NextTurn(turns, t, |conns|);
    }
    assert turns[..|turns|] == turns;
  }

  lemma NobodyYet(turns: seq<Turn>, conns: seq<Connection>, answer: string -> Option<string>)
    ensures First(Schedule(turns[..0]), |conns|) == [] && LivesBy([], conns, answer) == [] && conns[0..] == conns
  {
  }

  method TakeTurn(pool: Threadpool, turn: Turn, conns: seq<Connection>, workers: seq<nat>)
    requires pool.Valid() && turn.worker < pool.handlers.Length && |workers| <= |conns|
    requires pool.wire.log == LivesBy(workers, conns, pool.answer) && pool.queue.Contents() == conns[|workers|..]
    modifies pool.wire, pool.queue, pool.queue.arr
    ensures pool.Valid()
    ensures var served := Min(|conns| - |workers|, Effective(turn.spurious, |turn.spurious|));
      && pool.wire.log == LivesBy(workers + Repeat(turn.worker, served), conns, pool.answer)
      && pool.queue.Contents() == conns[|workers| + served..]
  {
    hide LFQ.Window, Life, LivesBy, Lives, Effective;
    var h := pool.handlers[turn.worker];
    assert pool.Serves(h, turn.worker);
    ghost var served := Min(|conns| - |workers|, Effective(turn.spurious, |turn.spurious|));
    LivesInTurn(workers, turn.worker, served, conns, pool.answer);
    assert conns[|workers|..][served..] == conns[|workers| + served..];
    var _ := h.Start(|workers|, turn.spurious);
  }
}
