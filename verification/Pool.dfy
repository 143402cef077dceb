/** The worker pool: every consumer of the queue is a worker that answers and closes the
    connection it popped, then pops again. */
module Pool {
  import opened Wrappers
  import opened QueueProtocol
  import opened QueueSafety

  datatype Connection = Connection(fd: int, request: string)

  /** Where a worker stands in its loop. Tickets name connections; equal connections may be added twice. */
  datatype WorkerPc =
    | Popping
    | Handling(ticket: nat, conn: Connection)
    | Sending(ticket: nat, conn: Connection, response: string)
    | Closing(ticket: nat, conn: Connection)

  /** What happens to a connection: the handler ran, the response was sent, the socket was closed. */
  datatype Effect =
    | Handled(ticket: nat, worker: nat, request: string, answer: Option<string>)
    | Sent(ticket: nat, worker: nat, fd: int, response: string)
    | Closed(ticket: nat, worker: nat, fd: int)

  datatype PoolState = PoolState(q: World<Connection>, workers: seq<WorkerPc>, log: seq<Effect>)

  /** The handler's answer is part of the event: it depends on files this model does not own. */
  datatype PoolEvent =
    | QueueStep(ev: Event<Connection>)
    | Handle(worker: nat, answer: Option<string>)
    | Send(worker: nat)
    | Close(worker: nat)

  predicate CanDo(p: PoolState, ev: PoolEvent) {
    match ev
    case QueueStep(e) =>
      Enabled(p.q.c, e) && forall i :: 0 <= i < |p.workers| && e.ByConsumer(i) ==> p.workers[i].Popping?
    case Handle(i, _) => i < |p.workers| && p.workers[i].Handling?
    case Send(i) => i < |p.workers| && p.workers[i].Sending?
    case Close(i) => i < |p.workers| && p.workers[i].Closing?
  }

  ghost predicate Shaped(p: PoolState) {
    |p.workers| == |p.q.c.consumers| == |p.q.h.tickets|
  }

  function PoolStep(p: PoolState, ev: PoolEvent): (p': PoolState)
    requires Shaped(p) && CanDo(p, ev)
    ensures Shaped(p')
  {
    match ev
    case QueueStep(e) =>
      var q' := Step(p.q, e);
      if e.DecSize?
      then
        var i := e.consumer;
        PoolState(q', p.workers[i := Handling(p.q.h.tickets[i], p.q.c.consumers[i].value)], p.log)
      else p.(q := q')
    case Handle(i, answer) =>
      var w := p.workers[i];
      var next := if answer.Some? then Sending(w.ticket, w.conn, answer.value) else Closing(w.ticket, w.conn);
      p.(workers := p.workers[i := next],
         log := p.log + [Handled(w.ticket, i, w.conn.request, answer)])
    case Send(i) =>
      var w := p.workers[i];
      p.(workers := p.workers[i := Closing(w.ticket, w.conn)],
         log := p.log + [Sent(w.ticket, i, w.conn.fd, w.response)])
    case Close(i) =>
      var w := p.workers[i];
      p.(workers := p.workers[i := Popping], log := p.log + [Closed(w.ticket, i, w.conn.fd)])
  }

  ghost predicate PoolInitial(p: PoolState) {
    Shaped(p) && Initial(p.q) && p.log == [] && forall i :: 0 <= i < |p.workers| ==> p.workers[i].Popping?
  }

  /** The queue's lag bound, for the events that are steps of the queue. */
  ghost predicate PoolAdmissible(p: PoolState, ev: PoolEvent)
    requires Shaped(p)
  {
    ev.QueueStep? ==> Admissible(p.q, ev.ev)
  }

  // ----- The life of one connection -----

  /** The effects on ticket `k`, in order. */
  function Of(log: seq<Effect>, k: nat): seq<Effect> {
    if log == [] then []
    else
      var rest := Of(log[..|log| - 1], k);
      if log[|log| - 1].ticket == k then rest + [log[|log| - 1]] else rest
  }

  lemma OfAppend(log: seq<Effect>, e: Effect, k: nat)
    ensures Of(log + [e], k) == if e.ticket == k then Of(log, k) + [e] else Of(log, k)
  {
    assert (log + [e])[..|log|] == log;
  }

  /** The whole life of a connection: handled by one worker with some answer, sent that answer if
      there is one, closed. */
  function Life(k: nat, worker: nat, conn: Connection, answer: Option<string>): seq<Effect> {
    [Handled(k, worker, conn.request, answer)]
    + (if answer.Some? then [Sent(k, worker, conn.fd, answer.value)] else [])
    + [Closed(k, worker, conn.fd)]
  }

  /** A life begins with the handler and ends with the close; in between stands the answer, if there is one. */
  lemma LifeInOrder(k: nat, worker: nat, conn: Connection, answer: Option<string>)
    ensures var s := Life(k, worker, conn, answer);
      && |s| == (if answer.Some? then 3 else 2)
      && s[0] == Handled(k, worker, conn.request, answer) && s[|s| - 1] == Closed(k, worker, conn.fd)
      && (answer.Some? ==> s[1] == Sent(k, worker, conn.fd, answer.value))
  {
  }

  ghost predicate Lived(s: seq<Effect>, k: nat, worker: nat, conn: Connection) {
    exists answer :: s == Life(k, worker, conn, answer)
  }

  /** What has happened so far to the connection on which worker `i` is working. */
  ghost predicate Midway(s: seq<Effect>, pc: WorkerPc, i: nat) {
    match pc
    case Popping => true
    case Handling(k, conn) => s == []
    case Sending(k, conn, r) => s == [Handled(k, i, conn.request, Some(r))]
    case Closing(k, conn) =>
      || s == [Handled(k, i, conn.request, None)]
      || exists r :: s == [Handled(k, i, conn.request, Some(r)), Sent(k, i, conn.fd, r)]
  }

  ghost predicate WorksOn(p: PoolState, i: nat, k: nat) {
    i < |p.workers| && !p.workers[i].Popping? && p.workers[i].ticket == k
  }

  /** Worker `i` works on a connection that was delivered to it. */
  ghost predicate WorkerOk(p: PoolState, i: nat)
    requires Shaped(p) && Consistent(p.q) && |p.q.h.claims| <= |p.q.h.pushed| && i < |p.workers|
  {
    var pc := p.workers[i];
    !pc.Popping? ==>
      && p.q.c.consumers[i].Out? && Delivered(p.q.h, pc.ticket)
      && pc.ticket < |p.q.h.claims| && p.q.h.claims[pc.ticket] == i && pc.conn == p.q.h.pushed[pc.ticket]
      && Midway(Of(p.log, pc.ticket), pc, i)
  }

  ghost predicate TicketOk(p: PoolState, k: nat)
    requires Shaped(p) && Consistent(p.q) && |p.q.h.claims| <= |p.q.h.pushed|
  {
    if !Delivered(p.q.h, k) then Of(p.log, k) == []
    else k < |p.q.h.claims| &&
         (WorksOn(p, p.q.h.claims[k], k) || Lived(Of(p.log, k), k, p.q.h.claims[k], p.q.h.pushed[k]))
  }

  ghost predicate PoolInv(p: PoolState) {
    && Shaped(p) && Safe(p.q)
    && (forall i :: 0 <= i < |p.workers| ==> WorkerOk(p, i))
    && (forall k: nat :: TicketOk(p, k))
  }

  lemma PoolInitialOk(p: PoolState)
    requires PoolInitial(p)
    ensures PoolInv(p)
  {
    InitialIsSafe(p.q);
  }

  lemma QueueStepKeepsWorker(p: PoolState, e: Event<Connection>, i: nat)
    requires PoolInv(p) && CanDo(p, QueueStep(e)) && Safe(Step(p.q, e)) && i < |p.workers|
    ensures WorkerOk(PoolStep(p, QueueStep(e)), i)
  {
    DeliveredStep(p.q, e);
    assert WorkerOk(p, i);
    if e == DecSize(i) {
      assert IndexOk(p.q, i) && p.q.c.consumers[i].Holding();
      assert !Delivered(p.q.h, p.q.h.tickets[i]);
      assert TicketOk(p, p.q.h.tickets[i]);
    }
  }

  lemma QueueStepKeepsTicket(p: PoolState, e: Event<Connection>, k: nat)
    requires PoolInv(p) && CanDo(p, QueueStep(e)) && Safe(Step(p.q, e))
    ensures TicketOk(PoolStep(p, QueueStep(e)), k)
  {
    var p' := PoolStep(p, QueueStep(e));
    DeliveredStep(p.q, e);
    assert p.q.h.pushed <= p'.q.h.pushed && p.q.h.claims <= p'.q.h.claims;
    assert TicketOk(p, k);
    if Delivered(p.q.h, k) {
      var i := p.q.h.claims[k];
      assert WorksOn(p, i, k) ==> WorksOn(p', i, k);
    } else if e.DecSize? && p.q.h.tickets[e.consumer] == k {
      assert IndexOk(p.q, e.consumer);
      assert WorksOn(p', e.consumer, k);
    }
  }

  lemma QueueStepKeepsInv(p: PoolState, e: Event<Connection>)
    requires PoolInv(p) && CanDo(p, QueueStep(e)) && Admissible(p.q, e)
    ensures PoolInv(PoolStep(p, QueueStep(e)))
  {
    StepKeepsSafe(p.q, e);
    forall i | 0 <= i < |p.workers| ensures WorkerOk(PoolStep(p, QueueStep(e)), i) {
      QueueStepKeepsWorker(p, e, i);
    }
    forall k: nat ensures TicketOk(PoolStep(p, QueueStep(e)), k) {
      QueueStepKeepsTicket(p, e, k);
    }
  }

  /** Exactly the decrement delivers, and it delivers the ticket the consumer holds. */
  lemma DeliveredStep<T>(w: World<T>, e: Event<T>)
    requires Consistent(w) && Enabled(w.c, e)
    ensures forall k: nat :: Delivered(Step(w, e).h, k) <==>
              Delivered(w.h, k) || (e.DecSize? && w.h.tickets[e.consumer] == k)
  {
    var h, h' := w.h, Step(w, e).h;
    assert forall d :: 0 <= d < |h.deliveries| ==> h'.deliveries[d] == h.deliveries[d];
    if e.DecSize? {
      assert h'.deliveries[|h.deliveries|].ticket == h.tickets[e.consumer];
    }
    forall k: nat ensures Delivered(h, k) ==> Delivered(h', k) {
      if Delivered(h, k) {
        var d :| 0 <= d < |h.deliveries| && h.deliveries[d].ticket == k;
        assert h'.deliveries[d].ticket == k;
      }
    }
  }

  /** A worker's step appends one effect, on the ticket it works on. */
  lemma WorkStepLogs(p: PoolState, ev: PoolEvent, e: Effect)
    requires PoolInv(p) && CanDo(p, ev) && !ev.QueueStep?
    requires PoolStep(p, ev).log == p.log + [e]
    ensures e.ticket == p.workers[ev.worker].ticket
    ensures forall k: nat :: Of(PoolStep(p, ev).log, k) ==
              if k == e.ticket then Of(p.log, k) + [e] else Of(p.log, k)
  {
    assert e == PoolStep(p, ev).log[|p.log|];
    forall k: nat ensures Of(p.log + [e], k) == if k == e.ticket then Of(p.log, k) + [e] else Of(p.log, k) {
      OfAppend(p.log, e, k);
    }
  }

  lemma WorkStepKeepsWorkers(p: PoolState, ev: PoolEvent, j: nat)
    requires PoolInv(p) && CanDo(p, ev) && !ev.QueueStep? && j < |p.workers|
    ensures WorkerOk(PoolStep(p, ev), j)
  {
    hide Consistent, Slots, Values, Of;
    var e := PoolStep(p, ev).log[|p.log|];
    WorkStepLogs(p, ev, e);
    assert WorkerOk(p, ev.worker) && WorkerOk(p, j);
    assert j != ev.worker && !p.workers[j].Popping? ==> p.workers[j].ticket != e.ticket;
  }

  lemma WorkStepKeepsTickets(p: PoolState, ev: PoolEvent, k: nat)
    requires PoolInv(p) && CanDo(p, ev) && !ev.QueueStep?
    ensures TicketOk(PoolStep(p, ev), k)
  {
    hide Consistent, Slots, Values, Of;
    var p', i := PoolStep(p, ev), ev.worker;
    var pc, e := p.workers[i], p'.log[|p.log|];
    WorkStepLogs(p, ev, e);
    assert WorkerOk(p, i) && TicketOk(p, k);
    if k == pc.ticket {
      if ev.Close? {
        CloseCompletes(Of(p.log, k), pc, i);
      } else {
        assert WorksOn(p', i, k);
      }
    } else if Delivered(p.q.h, k) && WorksOn(p, p.q.h.claims[k], k) {
      assert WorksOn(p', p'.q.h.claims[k], k);
    }
  }

  lemma WorkStepKeepsInv(p: PoolState, ev: PoolEvent)
    requires PoolInv(p) && CanDo(p, ev) && !ev.QueueStep?
    ensures PoolInv(PoolStep(p, ev))
  {
    forall j | 0 <= j < |p.workers| ensures WorkerOk(PoolStep(p, ev), j) {
      WorkStepKeepsWorkers(p, ev, j);
    }
    forall k: nat ensures TicketOk(PoolStep(p, ev), k) {
      WorkStepKeepsTickets(p, ev, k);
    }
  }

  lemma CloseCompletes(s: seq<Effect>, pc: WorkerPc, i: nat)
    requires pc.Closing? && Midway(s, pc, i)
    ensures Lived(s + [Closed(pc.ticket, i, pc.conn.fd)], pc.ticket, i, pc.conn)
  {
    var s' := s + [Closed(pc.ticket, i, pc.conn.fd)];
    if s == [Handled(pc.ticket, i, pc.conn.request, None)] {
      assert s' == Life(pc.ticket, i, pc.conn, None);
    } else {
      var r :| s == [Handled(pc.ticket, i, pc.conn.request, Some(r)), Sent(pc.ticket, i, pc.conn.fd, r)];
      assert s' == Life(pc.ticket, i, pc.conn, Some(r));
    }
  }

  // ----- Runs of the pool -----

  ghost predicate IsPoolRun(ps: seq<PoolState>, evs: seq<PoolEvent>) {
    && |ps| == |evs| + 1 && PoolInitial(ps[0])
    && (forall n :: 0 <= n < |ps| ==> Shaped(ps[n]))
    && (forall n :: 0 <= n < |evs| ==>
          CanDo(ps[n], evs[n]) && PoolAdmissible(ps[n], evs[n]) && ps[n + 1] == PoolStep(ps[n], evs[n]))
  }

  lemma {:induction false} PoolRunKeepsInv(ps: seq<PoolState>, evs: seq<PoolEvent>, n: nat)
    requires IsPoolRun(ps, evs) && n < |ps|
    ensures PoolInv(ps[n])
  {
    if n == 0 {
      PoolInitialOk(ps[0]);
    } else {
      PoolRunKeepsInv(ps, evs, n - 1);
      if evs[n - 1].QueueStep? {
        QueueStepKeepsInv(ps[n - 1], evs[n - 1].ev);
      } else {
        WorkStepKeepsInv(ps[n - 1], evs[n - 1]);
      }
    }
  }

  /** At every moment of every run, what has happened to the k-th added connection is a prefix of
      one life, led by the single worker whose exchange was the k-th: handled, sent at most one
      answer, and that before being closed, closed at most once. */
  lemma ConnectionsAreConserved(ps: seq<PoolState>, evs: seq<PoolEvent>, n: nat, k: nat)
    requires IsPoolRun(ps, evs) && n < |ps|
    ensures var p := ps[n];
      if Delivered(p.q.h, k)
      then k < |p.q.h.claims| <= |p.q.h.pushed| &&
           exists answer :: Of(p.log, k) <= Life(k, p.q.h.claims[k], p.q.h.pushed[k], answer)
      else Of(p.log, k) == []
  {
    PoolRunKeepsInv(ps, evs, n);
    var p := ps[n];
    assert TicketOk(p, k);
    if Delivered(p.q.h, k) {
      var i, conn, s := p.q.h.claims[k], p.q.h.pushed[k], Of(p.log, k);
      if WorksOn(p, i, k) {
        assert WorkerOk(p, i);
        match p.workers[i]
        case Popping =>
        case Handling(_, _) =>
          assert s <= Life(k, i, conn, None);
        case Sending(_, _, r) =>
          assert s <= Life(k, i, conn, Some(r));
        case Closing(_, _) =>
          if s == [Handled(k, i, conn.request, None)] {
            assert s <= Life(k, i, conn, None);
          } else {
            var r :| s == [Handled(k, i, conn.request, Some(r)), Sent(k, i, conn.fd, r)];
            assert s <= Life(k, i, conn, Some(r));
          }
      } else {
        var answer :| s == Life(k, i, conn, answer);
        assert s <= Life(k, i, conn, answer);
      }
    }
  }

  /** Nothing is going on: the queue is empty, nobody is inside `push` or `pop`, no worker works. */
  ghost predicate Quiet(p: PoolState) {
    && |p.q.h.claims| == |p.q.h.pushed| && p.q.c.producer.Idle?
    && (forall i :: 0 <= i < |p.q.c.consumers| ==> p.q.c.consumers[i].Out?)
    && (forall i :: 0 <= i < |p.workers| ==> p.workers[i].Popping?)
  }

  /** When the pool comes to rest, every connection ever added has lived its whole life: it was
      handled once, answered at most once, and closed exactly once. */
  lemma AllClosedAtRest(ps: seq<PoolState>, evs: seq<PoolEvent>, n: nat, k: nat)
    requires IsPoolRun(ps, evs) && n < |ps| && Quiet(ps[n]) && k < |ps[n].q.h.pushed|
    ensures k < |ps[n].q.h.claims| && Lived(Of(ps[n].log, k), k, ps[n].q.h.claims[k], ps[n].q.h.pushed[k])
  {
    PoolRunKeepsInv(ps, evs, n);
    var p := ps[n];
    assert HeldBy(p.q, p.q.h.claims[k], k) || Delivered(p.q.h, k);
    assert TicketOk(p, k);
  }
}
