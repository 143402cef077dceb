/** The lock-free queue as an interleaving of atomic steps: one producer inside
    `push`, any number of consumers inside `pop`, one shared-memory access per step. */
module QueueProtocol {
  import opened RingIndex

  /** Where the producer stands inside `push`. */
  datatype ProducerPc<T> =
    | Idle
    | Loaded(elem: T, tail: nat)
    | Written(elem: T, tail: nat)
    | Stored

  /** Where a consumer stands inside `pop`. */
  datatype ConsumerPc<T> =
    | Out
    | HasHead(head: nat)
    | NonEmpty(head: nat)
    | Claimed(head: nat)
    | HasValue(value: T)
  {
    /** The exchange succeeded and the size has not been decremented yet. */
    predicate Holding() {
      Claimed? || HasValue?
    }

    /** The consumer will still touch shared memory through the index it loaded. */
    predicate InFlight() {
      HasHead? || NonEmpty? || Claimed?
    }
  }

  /** The shared fields and the program counters; nothing here is ghost state of the proof. */
  datatype Config<T> = Config(
    arr: seq<T>, head: nat, tail: nat, size: nat,
    producer: ProducerPc<T>, consumers: seq<ConsumerPc<T>>)

  datatype Event<T> =
    | LoadTail(elem: T)
    | WriteSlot
    | StoreTail
    | IncSize
    | LoadHead(consumer: nat)
    | CheckTail(consumer: nat)
    | Cas(consumer: nat, spurious: bool)
    | ReadSlot(consumer: nat, residue: T)
    | DecSize(consumer: nat)
  {
    predicate ByConsumer(i: nat) {
      (LoadHead? || CheckTail? || Cas? || ReadSlot? || DecSize?) && consumer == i
    }
  }

  predicate Enabled<T>(c: Config<T>, ev: Event<T>) {
    match ev
    case LoadTail(_) => c.producer.Idle?
    case WriteSlot => c.producer.Loaded? && c.producer.tail < |c.arr|
    case StoreTail => c.producer.Written? && c.producer.tail < |c.arr|
    case IncSize => c.producer.Stored?
    case LoadHead(i) => i < |c.consumers| && c.consumers[i].Out?
    case CheckTail(i) => i < |c.consumers| && c.consumers[i].HasHead?
    case Cas(i, _) => i < |c.consumers| && c.consumers[i].NonEmpty? && c.consumers[i].head < |c.arr|
    case ReadSlot(i, _) => i < |c.consumers| && c.consumers[i].Claimed? && c.consumers[i].head < |c.arr|
    case DecSize(i) => i < |c.consumers| && c.consumers[i].HasValue?
  }

  /** The weak exchange succeeds unless it fails spuriously or the head has another value. */
  predicate Claims<T>(c: Config<T>, ev: Event<T>) {
    ev.Cas? && Enabled(c, ev) && !ev.spurious && c.head == c.consumers[ev.consumer].head
  }

  /** The check of the head against the tail makes `pop` return nothing. */
  predicate SeesEmpty<T>(c: Config<T>, ev: Event<T>) {
    ev.CheckTail? && Enabled(c, ev) && c.tail == c.consumers[ev.consumer].head
  }

  /** What `full()` answers on this configuration. */
  predicate Full<T>(c: Config<T>) {
    c.tail < |c.arr| && Next(|c.arr|, c.tail) == c.head
  }

  function Goto<T>(c: Config<T>, i: nat, pc: ConsumerPc<T>): Config<T>
    requires i < |c.consumers|
  {
    c.(consumers := c.consumers[i := pc])
  }

  /** One atomic step. Reading a slot moves its element out, which may leave any residue behind. */
  function Do<T>(c: Config<T>, ev: Event<T>): Config<T>
    requires Enabled(c, ev)
  {
    match ev
    case LoadTail(e) => c.(producer := Loaded(e, c.tail))
    case WriteSlot => c.(arr := c.arr[c.producer.tail := c.producer.elem],
                         producer := Written(c.producer.elem, c.producer.tail))
    case StoreTail => c.(tail := Next(|c.arr|, c.producer.tail), producer := Stored)
    case IncSize => c.(size := (c.size + 1) % WORD, producer := Idle)
    case LoadHead(i) => Goto(c, i, HasHead(c.head))
    case CheckTail(i) =>
      var head := c.consumers[i].head;
      Goto(c, i, if head == c.tail then Out else NonEmpty(head))
    case Cas(i, spurious) =>
      var head := c.consumers[i].head;
      if !spurious && c.head == head
      then Goto(c, i, Claimed(head)).(head := Next(|c.arr|, head))
      else Goto(c, i, Out)
    case ReadSlot(i, residue) =>
      var head := c.consumers[i].head;
      Goto(c, i, HasValue(c.arr[head])).(arr := c.arr[head := residue])
    case DecSize(i) => Goto(c, i, Out).(size := (c.size + WORD - 1) % WORD)
  }

  /** A value that `pop` returned. */
  datatype Delivery<T> = Delivery(consumer: nat, ticket: nat, value: T)

  /** What an observer of the run writes down; no step of the queue reads it.
      Ticket `k` is the k-th stored element and, independently, the k-th successful exchange. */
  datatype History<T> = History(
    pushed: seq<T>, claims: seq<nat>, tickets: seq<nat>, deliveries: seq<Delivery<T>>)

  datatype World<T> = World(c: Config<T>, h: History<T>)

  function Observe<T>(w: World<T>, ev: Event<T>): History<T>
    requires Enabled(w.c, ev) && |w.h.tickets| == |w.c.consumers|
  {
    var h := w.h;
    match ev
    case StoreTail => h.(pushed := h.pushed + [w.c.producer.elem])
    case LoadHead(i) => h.(tickets := h.tickets[i := |h.claims|])
    case Cas(i, _) =>
      if Claims(w.c, ev)
      then h.(claims := h.claims + [i], tickets := h.tickets[i := |h.claims|])
      else h
    case DecSize(i) =>
      h.(deliveries := h.deliveries + [Delivery(i, h.tickets[i], w.c.consumers[i].value)])
    case _ => h
  }

  function Step<T>(w: World<T>, ev: Event<T>): (w': World<T>)
    requires Enabled(w.c, ev) && |w.h.tickets| == |w.c.consumers|
    ensures |w'.h.tickets| == |w'.c.consumers| == |w.c.consumers| && |w'.c.arr| == |w.c.arr|
  {
    World(Do(w.c, ev), Observe(w, ev))
  }

  ghost predicate Initial<T>(w: World<T>) {
    && 0 < |w.c.arr| < WORD
    && w.c.head == w.c.tail == w.c.size == 0
    && w.c.producer.Idle?
    && (forall i :: 0 <= i < |w.c.consumers| ==> w.c.consumers[i].Out?)
    && w.h.pushed == [] && w.h.claims == [] && w.h.deliveries == []
    && |w.h.tickets| == |w.c.consumers|
  }

  // ----- What holds in every reachable state, whatever the producer does -----

  /** The indices are the tickets, taken modulo the capacity. */
  ghost predicate Indices<T>(w: World<T>) {
    && 0 < |w.c.arr| < WORD
    && |w.h.tickets| == |w.c.consumers|
    && w.c.head == |w.h.claims| % |w.c.arr|
    && w.c.tail == |w.h.pushed| % |w.c.arr|
    && (w.c.producer.Loaded? || w.c.producer.Written? ==> w.c.producer.tail == w.c.tail)
    && (forall i :: 0 <= i < |w.c.consumers| ==> IndexOk(w, i))
  }

  ghost predicate IndexOk<T>(w: World<T>, i: nat)
    requires i < |w.c.consumers| && |w.h.tickets| == |w.c.consumers| && 0 < |w.c.arr|
  {
    var pc, k := w.c.consumers[i], w.h.tickets[i];
    && (pc.InFlight() ==> pc.head == k % |w.c.arr|)
    && (pc.HasHead? || pc.NonEmpty? ==> k <= |w.h.claims|)
    && (pc.Holding() ==> k < |w.h.claims| && w.h.claims[k] == i)
  }

  /** Consumers between their exchange and their decrement. */
  function HoldingCount<T>(pcs: seq<ConsumerPc<T>>): nat {
    if pcs == [] then 0 else HoldingCount(pcs[1..]) + if pcs[0].Holding() then 1 else 0
  }

  /** The value the size counter would have without wrap-around. */
  function TrueSize<T>(w: World<T>): int {
    |w.h.pushed| - |w.h.claims| - (if w.c.producer.Stored? then 1 else 0) + HoldingCount(w.c.consumers)
  }

  ghost predicate SizeOk<T>(w: World<T>) {
    w.c.size == TrueSize(w) % WORD
  }

  ghost predicate HeldBy<T>(w: World<T>, i: nat, k: nat)
    requires |w.h.tickets| == |w.c.consumers|
  {
    i < |w.c.consumers| && w.c.consumers[i].Holding() && w.h.tickets[i] == k
  }

  ghost predicate Delivered<T>(h: History<T>, k: nat) {
    exists d :: 0 <= d < |h.deliveries| && h.deliveries[d].ticket == k
  }

  /** Every claimed ticket is either still held by its claimer or was delivered to it once. */
  ghost predicate Ledger<T>(w: World<T>)
    requires |w.h.tickets| == |w.c.consumers|
  {
    var ds := w.h.deliveries;
    && (forall d :: 0 <= d < |ds| ==>
          ds[d].ticket < |w.h.claims| && ds[d].consumer == w.h.claims[ds[d].ticket])
    && (forall d, e :: 0 <= d < e < |ds| ==> ds[d].ticket != ds[e].ticket)
    && (forall d, i :: 0 <= d < |ds| && 0 <= i < |w.c.consumers| && w.c.consumers[i].Holding() ==>
          w.h.tickets[i] != ds[d].ticket)
    && (forall k :: 0 <= k < |w.h.claims| ==> HeldBy(w, w.h.claims[k], k) || Delivered(w.h, k))
  }

  ghost predicate Consistent<T>(w: World<T>) {
    Indices(w) && SizeOk(w) && Ledger(w)
  }

  lemma InitialIsConsistent<T>(w: World<T>)
    requires Initial(w)
    ensures Consistent(w)
  {
    NoneHolding(w.c.consumers);
  }

  lemma {:induction false} NoneHolding<T>(pcs: seq<ConsumerPc<T>>)
    requires forall i :: 0 <= i < |pcs| ==> !pcs[i].Holding()
    ensures HoldingCount(pcs) == 0
  {
    if pcs != [] {
      NoneHolding(pcs[1..]);
    }
  }

  lemma {:induction false} HoldingCountUpdate<T>(pcs: seq<ConsumerPc<T>>, i: nat, pc: ConsumerPc<T>)
    requires i < |pcs|
    ensures HoldingCount(pcs[i := pc]) ==
            HoldingCount(pcs) - (if pcs[i].Holding() then 1 else 0) + (if pc.Holding() then 1 else 0)
  {
    if i == 0 {
      assert pcs[i := pc][1..] == pcs[1..];
    } else {
      assert pcs[i := pc][1..] == pcs[1..][i - 1 := pc];
      HoldingCountUpdate(pcs[1..], i - 1, pc);
    }
  }

  lemma StepKeepsIndices<T>(w: World<T>, ev: Event<T>)
    requires Indices(w) && Enabled(w.c, ev)
    ensures Indices(Step(w, ev))
  {
    if ev.StoreTail? {
      NextOfTicket(|w.c.arr|, |w.h.pushed|);
    } else if Claims(w.c, ev) {
      NextOfTicket(|w.c.arr|, |w.h.claims|);
    }
    var w' := Step(w, ev);
    forall i | 0 <= i < |w'.c.consumers| ensures IndexOk(w', i) {
      assert IndexOk(w, i);
    }
  }

  lemma WrapUp(a: int, size: nat)
    requires size == a % WORD
    ensures (size + 1) % WORD == (a + 1) % WORD
    ensures (size + WORD - 1) % WORD == (a - 1) % WORD
  {
  }

  lemma StepKeepsSize<T>(w: World<T>, ev: Event<T>)
    requires Indices(w) && SizeOk(w) && Enabled(w.c, ev)
    ensures SizeOk(Step(w, ev))
  {
    var c, c' := w.c, Do(w.c, ev);
    WrapUp(TrueSize(w), c.size);
    if ev.LoadHead? || ev.CheckTail? || ev.Cas? || ev.ReadSlot? || ev.DecSize? {
      HoldingCountUpdate(c.consumers, ev.consumer, c'.consumers[ev.consumer]);
      assert c'.consumers == c.consumers[ev.consumer := c'.consumers[ev.consumer]];
    }
    assert TrueSize(Step(w, ev)) == TrueSize(w) + (if ev.IncSize? then 1 else if ev.DecSize? then -1 else 0);
  }

  /** A step that neither claims nor delivers leaves the ledger as it is. */
  lemma LedgerFrame<T>(w: World<T>, w': World<T>)
    requires |w.h.tickets| == |w.c.consumers| == |w'.c.consumers| == |w'.h.tickets|
    requires Ledger(w) && w'.h.claims == w.h.claims && w'.h.deliveries == w.h.deliveries
    requires forall i :: 0 <= i < |w.c.consumers| ==>
               w'.c.consumers[i].Holding() == w.c.consumers[i].Holding()
    requires forall i :: 0 <= i < |w.c.consumers| && w.c.consumers[i].Holding() ==>
               w'.h.tickets[i] == w.h.tickets[i]
    ensures Ledger(w')
  {
    forall k | 0 <= k < |w'.h.claims|
      ensures HeldBy(w', w'.h.claims[k], k) || Delivered(w'.h, k)
    {
      assert HeldBy(w, w.h.claims[k], k) || Delivered(w.h, k);
    }
  }

  lemma ClaimKeepsLedger<T>(w: World<T>, ev: Event<T>)
    requires Indices(w) && Ledger(w) && Claims(w.c, ev)
    ensures Ledger(Step(w, ev))
  {
    var w' := Step(w, ev);
    forall k | 0 <= k < |w'.h.claims|
      ensures HeldBy(w', w'.h.claims[k], k) || Delivered(w'.h, k)
    {
      if k < |w.h.claims| {
        assert HeldBy(w, w.h.claims[k], k) || Delivered(w.h, k);
        assert Delivered(w.h, k) ==> Delivered(w'.h, k);
      } else {
        assert HeldBy(w', ev.consumer, k);
      }
    }
  }

  lemma DeliveryKeepsLedger<T>(w: World<T>, ev: Event<T>)
    requires Indices(w) && Ledger(w) && Enabled(w.c, ev) && ev.DecSize?
    ensures Ledger(Step(w, ev))
  {
    var w' := Step(w, ev);
    var i := ev.consumer;
    assert IndexOk(w, i);
    assert w'.h.deliveries[|w.h.deliveries|] == Delivery(i, w.h.tickets[i], w.c.consumers[i].value);
    assert forall d :: 0 <= d < |w.h.deliveries| ==> w'.h.deliveries[d] == w.h.deliveries[d];
    forall k | 0 <= k < |w'.h.claims|
      ensures HeldBy(w', w'.h.claims[k], k) || Delivered(w'.h, k)
    {
      assert HeldBy(w, w.h.claims[k], k) || Delivered(w.h, k);
    }
    forall j | 0 <= j < |w.c.consumers| && w'.c.consumers[j].Holding()
      ensures w'.h.tickets[j] != w.h.tickets[i]
    {
      assert IndexOk(w, j);
    }
  }

  lemma StepKeepsLedger<T>(w: World<T>, ev: Event<T>)
    requires Indices(w) && Ledger(w) && Enabled(w.c, ev)
    ensures Ledger(Step(w, ev))
  {
    if Claims(w.c, ev) {
      ClaimKeepsLedger(w, ev);
    } else if ev.DecSize? {
      DeliveryKeepsLedger(w, ev);
    } else {
      LedgerFrame(w, Step(w, ev));
    }
  }

  lemma StepKeepsConsistent<T>(w: World<T>, ev: Event<T>)
    requires Consistent(w) && Enabled(w.c, ev)
    ensures Consistent(Step(w, ev))
  {
    StepKeepsIndices(w, ev);
    StepKeepsSize(w, ev);
    StepKeepsLedger(w, ev);
  }
}
