/** Whole runs of the queue: exactly-once delivery, size accounting, lock-freedom. */
module QueueRuns {
  import opened Wrappers
  import opened QueueProtocol
  import opened QueueSafety

  /** `ws` are the worlds passed through while the events `evs` happen one after another. */
  ghost predicate IsPath<T>(ws: seq<World<T>>, evs: seq<Event<T>>) {
    && |ws| == |evs| + 1
    && (forall n :: 0 <= n < |ws| ==> |ws[n].h.tickets| == |ws[n].c.consumers|)
    && (forall n :: 0 <= n < |evs| ==> Enabled(ws[n].c, evs[n]) && ws[n + 1] == Step(ws[n], evs[n]))
  }

  ghost predicate IsRun<T>(ws: seq<World<T>>, evs: seq<Event<T>>) {
    IsPath(ws, evs) && Initial(ws[0])
  }

  ghost predicate RespectsLag<T>(ws: seq<World<T>>, evs: seq<Event<T>>)
    requires IsPath(ws, evs)
  {
    forall n :: 0 <= n < |evs| ==> Admissible(ws[n], evs[n])
  }

  lemma {:induction false} RunIsConsistent<T>(ws: seq<World<T>>, evs: seq<Event<T>>, n: nat)
    requires IsRun(ws, evs) && n < |ws|
    ensures Consistent(ws[n]) && ws[n].c.size == TrueSize(ws[n]) % 0x1_0000_0000
  {
    if n == 0 {
      InitialIsConsistent(ws[0]);
    } else {
      RunIsConsistent(ws, evs, n - 1);
      StepKeepsConsistent(ws[n - 1], evs[n - 1]);
    }
  }

  lemma {:induction false} PathIsSafe<T>(ws: seq<World<T>>, evs: seq<Event<T>>, n: nat)
    requires IsPath(ws, evs) && Safe(ws[0]) && RespectsLag(ws, evs) && n < |ws|
    ensures Safe(ws[n])
  {
    if n != 0 {
      PathIsSafe(ws, evs, n - 1);
      StepKeepsSafe(ws[n - 1], evs[n - 1]);
    }
  }

  lemma RunIsSafe<T>(ws: seq<World<T>>, evs: seq<Event<T>>, n: nat)
    requires IsRun(ws, evs) && RespectsLag(ws, evs) && n < |ws|
    ensures Safe(ws[n])
  {
    InitialIsSafe(ws[0]);
    PathIsSafe(ws, evs, n);
  }

  // ----- Exactly-once delivery -----

  ghost predicate Queued<T>(w: World<T>, k: nat) {
    |w.h.claims| <= k < |w.h.pushed|
  }

  ghost predicate Held<T>(w: World<T>, k: nat)
    requires |w.h.tickets| == |w.c.consumers|
  {
    exists i :: HeldBy(w, i, k)
  }

  /** In every reachable state each stored element is in exactly one of three places: still
      queued, held by exactly one `pop`, or delivered exactly once. Nothing else was ever
      delivered, and what was delivered under ticket `k` is the k-th stored element, handed
      to the consumer whose exchange was the k-th to succeed. */
  lemma ExactlyOnce<T>(ws: seq<World<T>>, evs: seq<Event<T>>, n: nat)
    requires IsRun(ws, evs) && RespectsLag(ws, evs) && n < |ws|
    ensures var w := ws[n];
      forall k :: 0 <= k < |w.h.pushed| ==>
        && (Queued(w, k) || Held(w, k) || Delivered(w.h, k))
        && !(Queued(w, k) && Held(w, k)) && !(Queued(w, k) && Delivered(w.h, k))
        && !(Held(w, k) && Delivered(w.h, k))
    ensures var w := ws[n];
      forall i, j, k :: HeldBy(w, i, k) && HeldBy(w, j, k) ==> i == j
    ensures var w := ws[n];
      forall d, e :: 0 <= d < e < |w.h.deliveries| ==> w.h.deliveries[d].ticket != w.h.deliveries[e].ticket
    ensures var w := ws[n];
      forall d :: 0 <= d < |w.h.deliveries| ==>
        var x := w.h.deliveries[d];
        x.ticket < |w.h.claims| <= |w.h.pushed| && x.value == w.h.pushed[x.ticket] && x.consumer == w.h.claims[x.ticket]
  {
    RunIsSafe(ws, evs, n);
    var w := ws[n];
    assert forall i :: 0 <= i < |w.c.consumers| ==> IndexOk(w, i);
    forall k | 0 <= k < |w.h.pushed|
      ensures Queued(w, k) || Held(w, k) || Delivered(w.h, k)
      ensures !(Queued(w, k) && Held(w, k)) && !(Queued(w, k) && Delivered(w.h, k))
      ensures !(Held(w, k) && Delivered(w.h, k))
    {
      if k < |w.h.claims| {
        assert HeldBy(w, w.h.claims[k], k) || Delivered(w.h, k);
      }
    }
  }

  // ----- Conservation of elements -----

  function Values<T>(ds: seq<Delivery<T>>): seq<T> {
    if ds == [] then [] else Values(ds[..|ds| - 1]) + [ds[|ds| - 1].value]
  }

  /** For every consumer the ticket it holds, if it holds one. */
  ghost function HeldTickets<T>(w: World<T>): (held: seq<Option<nat>>)
    requires |w.h.tickets| == |w.c.consumers|
    ensures |held| == |w.c.consumers|
    ensures forall i :: 0 <= i < |held| ==> held[i] == if w.c.consumers[i].Holding() then Some(w.h.tickets[i]) else None
  {
    seq(|w.c.consumers|, i requires 0 <= i < |w.c.consumers| =>
      if w.c.consumers[i].Holding() then Some(w.h.tickets[i]) else None)
  }

  ghost function HeldElem<T>(pushed: seq<T>, t: Option<nat>): multiset<T> {
    if t.Some? && t.value < |pushed| then multiset{pushed[t.value]} else multiset{}
  }

  /** The elements whose tickets are held. */
  ghost function HeldElems<T>(pushed: seq<T>, held: seq<Option<nat>>): multiset<T> {
    if held == [] then multiset{} else HeldElem(pushed, held[0]) + HeldElems(pushed, held[1..])
  }

  ghost predicate Conserved<T>(w: World<T>)
    requires |w.h.tickets| == |w.c.consumers| && |w.h.claims| <= |w.h.pushed|
  {
    multiset(w.h.pushed[..|w.h.claims|]) == multiset(Values(w.h.deliveries)) + HeldElems(w.h.pushed, HeldTickets(w))
  }

  lemma SumSwap<T>(a: multiset<T>, b: multiset<T>, c: multiset<T>)
    ensures a + (b + c) == (a + b) + c == (a + c) + b
  {
  }

  lemma {:induction false} HeldElemsTake<T>(pushed: seq<T>, held: seq<Option<nat>>, i: nat, t: nat)
    requires i < |held| && held[i] == None && t < |pushed|
    ensures HeldElems(pushed, held[i := Some(t)]) == HeldElems(pushed, held) + multiset{pushed[t]}
  {
    var held' := held[i := Some(t)];
    if i == 0 {
      assert held'[1..] == held[1..];
    } else {
      assert held'[1..] == held[1..][i - 1 := Some(t)];
      HeldElemsTake(pushed, held[1..], i - 1, t);
      SumSwap(HeldElem(pushed, held[0]), HeldElems(pushed, held[1..]), multiset{pushed[t]});
    }
  }

  lemma {:induction false} HeldElemsStore<T>(pushed: seq<T>, e: T, held: seq<Option<nat>>)
    requires forall i :: 0 <= i < |held| && held[i].Some? ==> held[i].value < |pushed|
    ensures HeldElems(pushed + [e], held) == HeldElems(pushed, held)
  {
    if held != [] {
      HeldElemsStore(pushed, e, held[1..]);
    }
  }

  lemma {:induction false} NoneHeld<T>(pushed: seq<T>, held: seq<Option<nat>>)
    requires forall i :: 0 <= i < |held| ==> held[i] == None
    ensures HeldElems(pushed, held) == multiset{}
  {
    if held != [] {
      NoneHeld(pushed, held[1..]);
    }
  }

  /** What a step does to what is stored, claimed, held and delivered. */
  lemma StepMoves<T>(w: World<T>, ev: Event<T>)
    requires |w.h.tickets| == |w.c.consumers| && Enabled(w.c, ev)
    ensures var h, h' := w.h, Step(w, ev).h;
      && h'.pushed == (if ev.StoreTail? then h.pushed + [w.c.producer.elem] else h.pushed)
      && h'.claims == (if Claims(w.c, ev) then h.claims + [ev.consumer] else h.claims)
      && h'.deliveries == if ev.DecSize?
           then h.deliveries + [Delivery(ev.consumer, h.tickets[ev.consumer], w.c.consumers[ev.consumer].value)]
           else h.deliveries
    ensures var held, held' := HeldTickets(w), HeldTickets(Step(w, ev));
      if Claims(w.c, ev) then held[ev.consumer] == None && held' == held[ev.consumer := Some(|w.h.claims|)]
      else if ev.DecSize?
      then held'[ev.consumer] == None && held == held'[ev.consumer := Some(w.h.tickets[ev.consumer])]
      else held' == held
  {
  }

  lemma ClaimConserves<T>(w: World<T>, ev: Event<T>)
    requires Indices(w) && InBounds(w) && Conserved(w) && Claims(w.c, ev)
    ensures |w.h.claims| < |w.h.pushed| && Conserved(Step(w, ev))
  {
    ClaimIsSound(w, ev);
    StepMoves(w, ev);
    hide Step, Indices, InBounds, HeldElems, HeldTickets, Values;
    var pushed, n := w.h.pushed, |w.h.claims|;
    HeldElemsTake(pushed, HeldTickets(w), ev.consumer, n);
    PrefixGrows(pushed, n);
    SumSwap(multiset(Values(w.h.deliveries)), HeldElems(pushed, HeldTickets(w)), multiset{pushed[n]});
  }

  lemma PrefixGrows<T>(s: seq<T>, n: nat)
    requires n < |s|
    ensures multiset(s[..n + 1]) == multiset(s[..n]) + multiset{s[n]}
  {
    assert s[..n + 1] == s[..n] + [s[n]];
  }

  lemma ValuesAppend<T>(ds: seq<Delivery<T>>, d: Delivery<T>)
    ensures multiset(Values(ds + [d])) == multiset(Values(ds)) + multiset{d.value}
  {
    assert (ds + [d])[..|ds|] == ds;
  }

  lemma DeliveryConserves<T>(w: World<T>, i: nat)
    requires Indices(w) && InBounds(w) && Conserved(w) && Enabled(w.c, DecSize(i))
    requires w.h.tickets[i] < |w.h.pushed| && w.c.consumers[i].value == w.h.pushed[w.h.tickets[i]]
    ensures Conserved(Step(w, DecSize(i)))
  {
    var w', x := Step(w, DecSize(i)), w.c.consumers[i].value;
    StepMoves(w, DecSize(i));
    hide Step, Indices, InBounds, HeldElems, HeldTickets, Values;
    ValuesAppend(w.h.deliveries, Delivery(i, w.h.tickets[i], x));
    HeldElemsTake(w.h.pushed, HeldTickets(w'), i, w.h.tickets[i]);
    SumSwap(multiset(Values(w.h.deliveries)), HeldElems(w.h.pushed, HeldTickets(w')), multiset{x});
  }

  lemma StoreConserves<T>(w: World<T>, ev: Event<T>)
    requires Indices(w) && InBounds(w) && Conserved(w) && Enabled(w.c, ev) && ev.StoreTail?
    ensures Conserved(Step(w, ev))
  {
    forall i | 0 <= i < |w.c.consumers| && w.c.consumers[i].Holding() ensures w.h.tickets[i] < |w.h.pushed| {
      assert IndexOk(w, i);
    }
    StepMoves(w, ev);
    hide Step, Indices, InBounds, HeldElems, Values;
    HeldElemsStore(w.h.pushed, w.c.producer.elem, HeldTickets(w));
    assert Step(w, ev).h.pushed[..|w.h.claims|] == w.h.pushed[..|w.h.claims|];
  }

  lemma HeldValue<T>(w: World<T>, i: nat)
    requires Safe(w) && i < |w.c.consumers| && w.c.consumers[i].HasValue?
    ensures w.h.tickets[i] < |w.h.pushed| && w.c.consumers[i].value == w.h.pushed[w.h.tickets[i]]
  {
    assert IndexOk(w, i);
  }

  lemma StepConserves<T>(w: World<T>, ev: Event<T>)
    requires Safe(w) && Enabled(w.c, ev) && Conserved(w)
    requires |Step(w, ev).h.claims| <= |Step(w, ev).h.pushed|
    ensures Conserved(Step(w, ev))
  {
    if ev.DecSize? {
      HeldValue(w, ev.consumer);
    }
    hide Consistent, InBounds, Slots, QueueSafety.Values, Values, HeldElems, HeldTickets, Step;
    IndicesOf(w);
    if Claims(w.c, ev) {
      ClaimConserves(w, ev);
    } else if ev.DecSize? {
      DeliveryConserves(w, ev.consumer);
    } else if ev.StoreTail? {
      StoreConserves(w, ev);
    } else {
      StepMoves(w, ev);
    }
  }

  lemma IndicesOf<T>(w: World<T>)
    requires Consistent(w)
    ensures Indices(w) && |w.h.tickets| == |w.c.consumers|
  {
  }

  /** In every reachable state the claimed prefix of the stored elements is, as a bag, what was
      delivered plus what is held: nothing lost, nothing duplicated, nothing invented. */
  lemma {:induction false} ElementsAreConserved<T>(ws: seq<World<T>>, evs: seq<Event<T>>, n: nat)
    requires IsRun(ws, evs) && RespectsLag(ws, evs) && n < |ws|
    ensures |ws[n].h.claims| <= |ws[n].h.pushed| && Conserved(ws[n])
  {
    RunIsSafe(ws, evs, n);
    if n == 0 {
      NoneHeld(ws[0].h.pushed, HeldTickets(ws[0]));
    } else {
      ElementsAreConserved(ws, evs, n - 1);
      RunIsSafe(ws, evs, n - 1);
      StepConserves(ws[n - 1], evs[n - 1]);
    }
  }

  // ----- Slot integrity -----

  /** No event of consumer `i` happens at the positions from `a` up to `b`. */
  ghost predicate Untouched<T>(evs: seq<Event<T>>, i: nat, a: nat, b: nat) {
    a <= b <= |evs| && forall m :: a <= m < b ==> !evs[m].ByConsumer(i)
  }

  lemma {:induction false} ConsumerFrame<T>(ws: seq<World<T>>, evs: seq<Event<T>>, i: nat, a: nat, b: nat)
    requires IsPath(ws, evs) && Untouched(evs, i, a, b) && i < |ws[a].c.consumers|
    ensures |ws[b].c.consumers| == |ws[a].c.consumers|
    ensures ws[b].c.consumers[i] == ws[a].c.consumers[i] && ws[b].h.tickets[i] == ws[a].h.tickets[i]
    ensures ws[a].h.pushed <= ws[b].h.pushed && ws[a].h.claims <= ws[b].h.claims
    decreases b - a
  {
    if a < b {
      ConsumerFrame(ws, evs, i, a, b - 1);
      assert ws[b] == Step(ws[b - 1], evs[b - 1]);
    }
  }

  /** A consumer whose exchange was the k-th to succeed reads the k-th stored element, whatever
      the producer and the other consumers do between the exchange and the read. */
  lemma SlotIntegrity<T>(ws: seq<World<T>>, evs: seq<Event<T>>, a: nat, b: nat)
    requires IsRun(ws, evs) && RespectsLag(ws, evs) && a < b < |evs|
    requires Claims(ws[a].c, evs[a]) && evs[b].ReadSlot? && evs[b].consumer == evs[a].consumer
    requires Untouched(evs, evs[a].consumer, a + 1, b)
    ensures |ws[a].h.claims| < |ws[a].h.pushed| && ws[a].h.pushed <= ws[b + 1].h.pushed
    ensures ws[b + 1].c.consumers[evs[a].consumer] == HasValue(ws[a].h.pushed[|ws[a].h.claims|])
  {
    var i := evs[a].consumer;
    RunIsSafe(ws, evs, a);
    ClaimIsSound(ws[a], evs[a]);
    ConsumerFrame(ws, evs, i, a + 1, b);
    RunIsSafe(ws, evs, b);
    assert IndexOk(ws[b], i) && SlotHolds(ws[b], ws[b].h.tickets[i]);
    assert ws[b + 1] == Step(ws[b], evs[b]);
  }

  // ----- Size accounting -----

  /** At quiescence the counter is the number of queued elements. */
  lemma QuietSizeIsLength<T>(ws: seq<World<T>>, evs: seq<Event<T>>, n: nat)
    requires IsRun(ws, evs) && RespectsLag(ws, evs) && n < |ws|
    requires !ws[n].c.producer.Stored? && forall i :: 0 <= i < |ws[n].c.consumers| ==> !ws[n].c.consumers[i].Holding()
    ensures ws[n].c.size == |ws[n].h.pushed| - |ws[n].h.claims|
  {
    RunIsSafe(ws, evs, n);
    NoneHolding(ws[n].c.consumers);
  }
}
