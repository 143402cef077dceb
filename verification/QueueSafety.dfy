/** What the lag bound buys: with it, every slot belongs to its ticket, the
    exchange and the emptiness check mean what they look like, and every element
    is delivered exactly once. */
module QueueSafety {
  import opened RingIndex
  import opened QueueProtocol

  /** The environment hypothesis on the producer's tail store. `push` does not check it:
      the store must leave the tail less than one lap ahead of the head and of every
      ticket on which a consumer is still working. */
  ghost predicate LagBound<T>(w: World<T>)
    requires |w.h.tickets| == |w.c.consumers|
  {
    && |w.h.pushed| + 1 < |w.h.claims| + |w.c.arr|
    && (forall i :: 0 <= i < |w.c.consumers| && w.c.consumers[i].InFlight() ==>
          |w.h.pushed| + 1 < w.h.tickets[i] + |w.c.arr|)
  }

  ghost predicate Admissible<T>(w: World<T>, ev: Event<T>)
    requires |w.h.tickets| == |w.c.consumers|
  {
    ev.StoreTail? ==> LagBound(w)
  }

  ghost predicate InBounds<T>(w: World<T>)
    requires |w.h.tickets| == |w.c.consumers|
  {
    && |w.h.claims| <= |w.h.pushed| < |w.h.claims| + |w.c.arr|
    && (forall i :: 0 <= i < |w.c.consumers| && w.c.consumers[i].InFlight() ==>
          |w.h.pushed| < w.h.tickets[i] + |w.c.arr|)
    && (forall i :: 0 <= i < |w.c.consumers| && w.c.consumers[i].NonEmpty? ==>
          w.h.tickets[i] < |w.h.pushed|)
  }

  /** Ticket `k` has its element in its slot. */
  ghost predicate SlotHolds<T>(w: World<T>, k: nat)
    requires 0 < |w.c.arr| && k < |w.h.pushed|
  {
    w.c.arr[k % |w.c.arr|] == w.h.pushed[k]
  }

  ghost predicate Slots<T>(w: World<T>)
    requires Indices(w) && InBounds(w)
  {
    && (forall k :: |w.h.claims| <= k < |w.h.pushed| ==> SlotHolds(w, k))
    && (forall i :: 0 <= i < |w.c.consumers| && w.c.consumers[i].Claimed? ==>
          IndexOk(w, i) && SlotHolds(w, w.h.tickets[i]))
    && (w.c.producer.Written? ==> w.c.arr[w.c.tail] == w.c.producer.elem)
  }

  ghost predicate Values<T>(w: World<T>)
    requires Indices(w) && Ledger(w) && InBounds(w)
  {
    && (forall i :: 0 <= i < |w.c.consumers| && w.c.consumers[i].HasValue? ==>
          IndexOk(w, i) && w.c.consumers[i].value == w.h.pushed[w.h.tickets[i]])
    && (forall d :: 0 <= d < |w.h.deliveries| ==>
          w.h.deliveries[d].value == w.h.pushed[w.h.deliveries[d].ticket])
  }

  ghost predicate Safe<T>(w: World<T>) {
    Consistent(w) && InBounds(w) && Slots(w) && Values(w)
  }

  lemma InitialIsSafe<T>(w: World<T>)
    requires Initial(w)
    ensures Safe(w)
  {
    InitialIsConsistent(w);
  }

  /** A successful exchange claims the ticket that was loaded, and that ticket was stored. */
  lemma ClaimIsSound<T>(w: World<T>, ev: Event<T>)
    requires Indices(w) && InBounds(w) && Claims(w.c, ev)
    ensures w.h.tickets[ev.consumer] == |w.h.claims| < |w.h.pushed|
  {
    assert IndexOk(w, ev.consumer);
    var k := w.h.tickets[ev.consumer];
    if k < |w.h.claims| {
      SlotsDiffer(|w.c.arr|, k, |w.h.claims|);
    }
  }

  /** The boundary check sees equal indices exactly when every stored element was claimed
      at that moment and no exchange happened since the head was loaded. */
  lemma EmptyIsSound<T>(w: World<T>, ev: Event<T>)
    requires Indices(w) && InBounds(w) && Enabled(w.c, ev) && ev.CheckTail?
    ensures SeesEmpty(w.c, ev) <==> w.h.tickets[ev.consumer] == |w.h.pushed|
    ensures SeesEmpty(w.c, ev) ==> |w.h.claims| == |w.h.pushed|
  {
    assert IndexOk(w, ev.consumer);
    var k := w.h.tickets[ev.consumer];
    if k < |w.h.pushed| {
      SlotsDiffer(|w.c.arr|, k, |w.h.pushed|);
    }
  }

  lemma StepKeepsBounds<T>(w: World<T>, ev: Event<T>)
    requires Indices(w) && InBounds(w) && Enabled(w.c, ev) && Admissible(w, ev)
    ensures InBounds(Step(w, ev))
  {
    if Claims(w.c, ev) {
      ClaimIsSound(w, ev);
    } else if ev.CheckTail? {
      EmptyIsSound(w, ev);
      assert IndexOk(w, ev.consumer);
    }
  }

  lemma WriteKeepsSlots<T>(w: World<T>, ev: Event<T>)
    requires Indices(w) && InBounds(w) && Slots(w) && Enabled(w.c, ev) && ev.WriteSlot?
    requires Indices(Step(w, ev)) && InBounds(Step(w, ev))
    ensures Slots(Step(w, ev))
  {
    var w' := Step(w, ev);
    forall k: nat | k < |w.h.pushed| < k + |w.c.arr| && SlotHolds(w, k)
      ensures SlotHolds(w', k)
    {
      SlotsDiffer(|w.c.arr|, k, |w.h.pushed|);
    }
    forall i | 0 <= i < |w'.c.consumers| && w'.c.consumers[i].Claimed?
      ensures IndexOk(w', i) && SlotHolds(w', w'.h.tickets[i])
    {
      assert IndexOk(w, i) && SlotHolds(w, w.h.tickets[i]) && w.c.consumers[i].InFlight();
    }
  }

  /** Moving the element of one ticket out of its slot leaves every other live slot alone. */
  lemma ReadLeavesSlot<T>(w: World<T>, ev: Event<T>, k': nat)
    requires Indices(w) && InBounds(w) && Enabled(w.c, ev) && ev.ReadSlot?
    requires k' != w.h.tickets[ev.consumer] && k' <= |w.h.pushed| < k' + |w.c.arr|
    ensures Step(w, ev).c.arr[k' % |w.c.arr|] == w.c.arr[k' % |w.c.arr|]
  {
    var i, n := ev.consumer, |w.c.arr|;
    var k := w.h.tickets[i];
    assert IndexOk(w, i) && w.c.consumers[i].InFlight();
    if k < k' {
      SlotsDiffer(n, k, k');
    } else {
      SlotsDiffer(n, k', k);
    }
  }

  lemma ReadKeepsSlots<T>(w: World<T>, ev: Event<T>)
    requires Indices(w) && InBounds(w) && Slots(w) && Enabled(w.c, ev) && ev.ReadSlot?
    requires Indices(Step(w, ev)) && InBounds(Step(w, ev))
    ensures Slots(Step(w, ev))
  {
    var w' := Step(w, ev);
    assert IndexOk(w, ev.consumer);
    forall k | |w'.h.claims| <= k < |w'.h.pushed| ensures SlotHolds(w', k) {
      assert SlotHolds(w, k);
      ReadLeavesSlot(w, ev, k);
    }
    forall j | 0 <= j < |w'.c.consumers| && w'.c.consumers[j].Claimed?
      ensures IndexOk(w', j) && SlotHolds(w', w'.h.tickets[j])
    {
      assert IndexOk(w, j) && SlotHolds(w, w.h.tickets[j]) && w.c.consumers[j].InFlight();
      ReadLeavesSlot(w, ev, w.h.tickets[j]);
    }
    if w.c.producer.Written? {
      ReadLeavesSlot(w, ev, |w.h.pushed|);
    }
  }

  lemma StepKeepsSlots<T>(w: World<T>, ev: Event<T>)
    requires Indices(w) && InBounds(w) && Slots(w) && Enabled(w.c, ev) && Admissible(w, ev)
    requires Indices(Step(w, ev)) && InBounds(Step(w, ev))
    ensures Slots(Step(w, ev))
  {
    if ev.WriteSlot? {
      WriteKeepsSlots(w, ev);
    } else if ev.ReadSlot? {
      ReadKeepsSlots(w, ev);
    } else {
      var w' := Step(w, ev);
      if Claims(w.c, ev) {
        ClaimIsSound(w, ev);
      }
      forall k | |w'.h.claims| <= k < |w'.h.pushed| ensures SlotHolds(w', k) {
        assert k < |w.h.pushed| ==> SlotHolds(w, k);
      }
      forall i | 0 <= i < |w'.c.consumers| && w'.c.consumers[i].Claimed?
        ensures IndexOk(w', i) && SlotHolds(w', w'.h.tickets[i])
      {
        assert IndexOk(w', i);
        assert w.c.consumers[i].Claimed? ==> SlotHolds(w, w.h.tickets[i]);
        assert !w.c.consumers[i].Claimed? ==> SlotHolds(w, |w.h.claims|);
      }
    }
  }

  lemma StepKeepsHeldValue<T>(w: World<T>, ev: Event<T>, i: nat)
    requires Safe(w) && Enabled(w.c, ev) && Indices(Step(w, ev)) && i < |w.c.consumers|
    ensures Step(w, ev).c.consumers[i].HasValue? ==>
      var w' := Step(w, ev);
      && IndexOk(w', i) && w'.h.tickets[i] < |w'.h.pushed|
      && w'.c.consumers[i].value == w'.h.pushed[w'.h.tickets[i]]
  {
    assert IndexOk(w, i) && IndexOk(Step(w, ev), i);
    assert w.c.consumers[i].Claimed? ==> SlotHolds(w, w.h.tickets[i]);
  }

  lemma StepKeepsValues<T>(w: World<T>, ev: Event<T>)
    requires Safe(w) && Enabled(w.c, ev)
    requires Consistent(Step(w, ev)) && InBounds(Step(w, ev))
    ensures Values(Step(w, ev))
  {
    var w' := Step(w, ev);
    forall i | 0 <= i < |w'.c.consumers| && w'.c.consumers[i].HasValue?
      ensures IndexOk(w', i) && w'.c.consumers[i].value == w'.h.pushed[w'.h.tickets[i]]
    {
      StepKeepsHeldValue(w, ev, i);
    }
    forall d | 0 <= d < |w'.h.deliveries|
      ensures w'.h.deliveries[d].value == w'.h.pushed[w'.h.deliveries[d].ticket]
    {
      if d < |w.h.deliveries| {
        assert w'.h.deliveries[d] == w.h.deliveries[d];
      } else {
        assert IndexOk(w, ev.consumer);
      }
    }
  }

  /** Safety is inductive: only the tail store needs the hypothesis. */
  lemma StepKeepsSafe<T>(w: World<T>, ev: Event<T>)
    requires Safe(w) && Enabled(w.c, ev) && Admissible(w, ev)
    ensures Safe(Step(w, ev))
  {
    StepKeepsConsistent(w, ev);
    StepKeepsBounds(w, ev);
    StepKeepsSlots(w, ev);
    StepKeepsValues(w, ev);
  }
}
