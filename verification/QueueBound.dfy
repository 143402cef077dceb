/** The lag bound is exact: a tail store that violates it can be continued, without another
    store, into a step that visibly misbehaves. Consulting `full()` is not a substitute. */
module QueueBound {
  import opened RingIndex
  import opened QueueProtocol
  import opened QueueSafety
  import opened QueueRuns

  /** `pop` reports emptiness over an unclaimed element, claims with an outdated ticket or one
      that was never stored, or takes out of its slot something other than its element. */
  ghost predicate Misbehaves<T>(w: World<T>, ev: Event<T>)
    requires |w.h.tickets| == |w.c.consumers| && Enabled(w.c, ev)
  {
    || (SeesEmpty(w.c, ev) && |w.h.claims| < |w.h.pushed|)
    || (Claims(w.c, ev) && !(w.h.tickets[ev.consumer] == |w.h.claims| < |w.h.pushed|))
    || (ev.ReadSlot? && !(w.h.tickets[ev.consumer] < |w.h.pushed| &&
                          w.c.arr[w.c.consumers[ev.consumer].head] == w.h.pushed[w.h.tickets[ev.consumer]]))
  }

  lemma SafeNeverMisbehaves<T>(w: World<T>, ev: Event<T>)
    requires Safe(w) && Enabled(w.c, ev)
    ensures !Misbehaves(w, ev)
  {
    if ev.CheckTail? {
      EmptyIsSound(w, ev);
    } else if Claims(w.c, ev) {
      ClaimIsSound(w, ev);
    } else if ev.ReadSlot? {
      assert IndexOk(w, ev.consumer) && SlotHolds(w, w.h.tickets[ev.consumer]);
    }
  }

  /** A path from `w` whose first event is the pending tail store and which stores no more. */
  ghost predicate StoresOnce<T>(w: World<T>, ws: seq<World<T>>, evs: seq<Event<T>>) {
    && IsPath(ws, evs) && ws[0] == w && evs != [] && evs[0].StoreTail?
    && forall n :: 0 < n < |evs| ==> !evs[n].StoreTail?
  }

  ghost predicate EndsBadly<T>(w: World<T>, ws: seq<World<T>>, evs: seq<Event<T>>) {
    StoresOnce(w, ws, evs) && Misbehaves(ws[|evs| - 1], evs[|evs| - 1])
  }

  lemma BoundedStoreNeverEndsBadly<T>(w: World<T>, ws: seq<World<T>>, evs: seq<Event<T>>)
    requires Safe(w) && LagBound(w) && StoresOnce(w, ws, evs)
    ensures !EndsBadly(w, ws, evs)
  {
    PathIsSafe(ws, evs, |evs| - 1);
    SafeNeverMisbehaves(ws[|evs| - 1], evs[|evs| - 1]);
  }

  // ----- Building a bad continuation -----

  lemma Extend<T>(w: World<T>, ws: seq<World<T>>, evs: seq<Event<T>>, ev: Event<T>)
    returns (ws': seq<World<T>>, evs': seq<Event<T>>)
    requires StoresOnce(w, ws, evs) && !ev.StoreTail? && Enabled(ws[|evs|].c, ev)
    ensures ws' == ws + [Step(ws[|evs|], ev)] && evs' == evs + [ev]
    ensures StoresOnce(w, ws', evs')
    ensures Indices(ws[|evs|]) ==> Indices(Step(ws[|evs|], ev))
  {
    ws', evs' := ws + [Step(ws[|evs|], ev)], evs + [ev];
    if Indices(ws[|evs|]) {
      StepKeepsIndices(ws[|evs|], ev);
    }
  }

  lemma Store<T>(w: World<T>) returns (ws: seq<World<T>>, evs: seq<Event<T>>)
    requires Safe(w) && Enabled(w.c, StoreTail)
    ensures StoresOnce(w, ws, evs) && |evs| == 1 && ws[1] == Step(w, StoreTail) && Indices(ws[1])
  {
    ws, evs := [w, Step(w, StoreTail)], [StoreTail];
    StepKeepsIndices(w, StoreTail);
  }

  /** From `v` to `v'` consumer `j` alone has moved, nothing was stored, and `v'` is well-indexed. */
  ghost predicate OnlyMoved<T>(v: World<T>, v': World<T>, j: nat) {
    && Indices(v') && |v'.c.consumers| == |v.c.consumers| == |v.h.tickets| && |v'.c.arr| == |v.c.arr|
    && v'.h.pushed == v.h.pushed
    && forall i :: 0 <= i < |v.c.consumers| && i != j ==>
         v'.c.consumers[i] == v.c.consumers[i] && v'.h.tickets[i] == v.h.tickets[i]
  }

  /** Consumer `j` leaves its `pop`, wherever it stands, without claiming anything. */
  lemma Leave<T>(w: World<T>, ws0: seq<World<T>>, evs0: seq<Event<T>>, j: nat, residue: T)
    returns (ws: seq<World<T>>, evs: seq<Event<T>>)
    requires StoresOnce(w, ws0, evs0) && Indices(ws0[|evs0|]) && j < |ws0[|evs0|].c.consumers|
    ensures StoresOnce(w, ws, evs) && OnlyMoved(ws0[|evs0|], ws[|evs|], j)
    ensures ws[|evs|].c.consumers[j].Out? && ws[|evs|].h.claims == ws0[|evs0|].h.claims
  {
    ws, evs := ws0, evs0;
    assert IndexOk(ws[|evs|], j);
    match ws[|evs|].c.consumers[j]
    case Out =>
    case HasHead(_) =>
      ws, evs := Extend(w, ws, evs, CheckTail(j));
      if ws[|evs|].c.consumers[j].NonEmpty? {
        ws, evs := Extend(w, ws, evs, Cas(j, true));
      }
    case NonEmpty(_) =>
      ws, evs := Extend(w, ws, evs, Cas(j, true));
    case Claimed(_) =>
      ws, evs := Extend(w, ws, evs, ReadSlot(j, residue));
      ws, evs := Extend(w, ws, evs, DecSize(j));
    case HasValue(_) =>
      ws, evs := Extend(w, ws, evs, DecSize(j));
  }

  /** The store fills the ring: any consumer, once it is outside `pop`, finds the queue empty. */
  lemma FullRingLooksEmpty<T>(w: World<T>, j: nat, residue: T)
    returns (ws: seq<World<T>>, evs: seq<Event<T>>)
    requires Safe(w) && Enabled(w.c, StoreTail) && j < |w.c.consumers|
    requires |w.h.pushed| + 1 == |w.h.claims| + |w.c.arr|
    ensures EndsBadly(w, ws, evs)
  {
    ws, evs := Store(w);
    LapLater(|w.c.arr|, |w.h.claims|);
    ws, evs := Leave(w, ws, evs, j, residue);
    ws, evs := Extend(w, ws, evs, LoadHead(j));
    ws, evs := Extend(w, ws, evs, CheckTail(j));
  }

  /** The store reaches the slot a consumer has just loaded: that consumer reports emptiness. */
  lemma LoadedHeadLooksEmpty<T>(w: World<T>, i: nat)
    returns (ws: seq<World<T>>, evs: seq<Event<T>>)
    requires Safe(w) && Enabled(w.c, StoreTail) && i < |w.c.consumers| && w.c.consumers[i].HasHead?
    requires |w.h.pushed| + 1 == w.h.tickets[i] + |w.c.arr|
    ensures EndsBadly(w, ws, evs)
  {
    assert IndexOk(w, i);
    ws, evs := Store(w);
    LapLater(|w.c.arr|, w.h.tickets[i]);
    ws, evs := Extend(w, ws, evs, CheckTail(i));
  }

  /** The store frees the slot of a claimed element: the next write overwrites it. */
  lemma ClaimedSlotIsOverwritten<T>(w: World<T>, i: nat, other: T)
    returns (ws: seq<World<T>>, evs: seq<Event<T>>)
    requires Safe(w) && Enabled(w.c, StoreTail) && i < |w.c.consumers| && w.c.consumers[i].Claimed?
    requires |w.h.pushed| + 1 == w.h.tickets[i] + |w.c.arr|
    requires w.h.tickets[i] < |w.h.pushed| && other != w.h.pushed[w.h.tickets[i]]
    ensures EndsBadly(w, ws, evs)
  {
    assert IndexOk(w, i);
    ws, evs := Store(w);
    LapLater(|w.c.arr|, w.h.tickets[i]);
    ws, evs := Extend(w, ws, evs, IncSize);
    ws, evs := Extend(w, ws, evs, LoadTail(other));
    ws, evs := Extend(w, ws, evs, WriteSlot);
    assert ws[|evs|].c.arr[w.c.consumers[i].head] == other;
    ws, evs := Extend(w, ws, evs, ReadSlot(i, other));
  }

  /** One undisturbed `pop` by consumer `j`. */
  lemma PopOnce<T>(w: World<T>, ws0: seq<World<T>>, evs0: seq<Event<T>>, j: nat, residue: T)
    returns (ws: seq<World<T>>, evs: seq<Event<T>>)
    requires StoresOnce(w, ws0, evs0)
    requires var v := ws0[|evs0|];
      Indices(v) && j < |v.c.consumers| && v.c.consumers[j].Out? &&
      |v.h.claims| < |v.h.pushed| < |v.h.claims| + |v.c.arr|
    ensures StoresOnce(w, ws, evs)
    ensures var v, v' := ws0[|evs0|], ws[|evs|];
      OnlyMoved(v, v', j) && v'.c.consumers[j].Out? && |v'.h.claims| == |v.h.claims| + 1
  {
    var v := ws0[|evs0|];
    SlotsDiffer(|v.c.arr|, |v.h.claims|, |v.h.pushed|);
    ws, evs := Extend(w, ws0, evs0, LoadHead(j));
    ws, evs := Extend(w, ws, evs, CheckTail(j));
    ws, evs := Extend(w, ws, evs, Cas(j, false));
    ws, evs := Extend(w, ws, evs, ReadSlot(j, residue));
    ws, evs := Extend(w, ws, evs, DecSize(j));
  }

  /** Consumer `j` empties the queue while the others stand still. */
  lemma {:induction false} Drain<T>(w: World<T>, ws0: seq<World<T>>, evs0: seq<Event<T>>, j: nat, residue: T)
    returns (ws: seq<World<T>>, evs: seq<Event<T>>)
    requires StoresOnce(w, ws0, evs0)
    requires var v := ws0[|evs0|];
      Indices(v) && j < |v.c.consumers| && v.c.consumers[j].Out? &&
      |v.h.claims| <= |v.h.pushed| < |v.h.claims| + |v.c.arr|
    ensures StoresOnce(w, ws, evs)
    ensures OnlyMoved(ws0[|evs0|], ws[|evs|], j) && |ws[|evs|].h.claims| == |ws[|evs|].h.pushed|
    decreases |ws0[|evs0|].h.pushed| - |ws0[|evs0|].h.claims|
  {
    var v := ws0[|evs0|];
    if |v.h.claims| == |v.h.pushed| {
      ws, evs := ws0, evs0;
    } else {
      ws, evs := PopOnce(w, ws0, evs0, j, residue);
      ws, evs := Drain(w, ws, evs, j, residue);
    }
  }

  /** The store gives the head a way back to an index a consumer is about to exchange: once another
      consumer has drained the queue, that exchange succeeds on a ticket that was never stored. */
  lemma StaleExchangeSucceeds<T>(w: World<T>, i: nat, j: nat, residue: T)
    returns (ws: seq<World<T>>, evs: seq<Event<T>>)
    requires Safe(w) && Enabled(w.c, StoreTail) && i < |w.c.consumers| && w.c.consumers[i].NonEmpty?
    requires j < |w.c.consumers| && j != i
    requires |w.h.pushed| + 1 == w.h.tickets[i] + |w.c.arr| && |w.h.pushed| + 1 < |w.h.claims| + |w.c.arr|
    ensures EndsBadly(w, ws, evs)
  {
    assert IndexOk(w, i);
    ws, evs := Store(w);
    LapLater(|w.c.arr|, w.h.tickets[i]);
    ws, evs := Leave(w, ws, evs, j, residue);
    ws, evs := Drain(w, ws, evs, j, residue);
    assert Claims(ws[|evs|].c, Cas(i, false));
    ws, evs := Extend(w, ws, evs, Cas(i, false));
  }

  /** A lone consumer is never behind the head: nobody else moves it. */
  ghost predicate AloneIsCurrent<T>(w: World<T>)
    requires |w.h.tickets| == |w.c.consumers|
  {
    |w.c.consumers| == 1 && (w.c.consumers[0].HasHead? || w.c.consumers[0].NonEmpty?) ==>
      w.h.tickets[0] == |w.h.claims|
  }

  lemma UnboundedStoreEndsBadly<T>(w: World<T>, a: T, b: T)
    returns (ws: seq<World<T>>, evs: seq<Event<T>>)
    requires Safe(w) && Enabled(w.c, StoreTail) && !LagBound(w)
    requires w.c.consumers != [] && AloneIsCurrent(w) && a != b
    ensures EndsBadly(w, ws, evs)
  {
    if |w.h.pushed| + 1 == |w.h.claims| + |w.c.arr| {
      ws, evs := FullRingLooksEmpty(w, 0, a);
    } else {
      var i :| 0 <= i < |w.c.consumers| && w.c.consumers[i].InFlight() &&
        |w.h.pushed| + 1 == w.h.tickets[i] + |w.c.arr|;
      assert IndexOk(w, i);
      match w.c.consumers[i]
      case HasHead(_) =>
        ws, evs := LoadedHeadLooksEmpty(w, i);
      case NonEmpty(_) =>
        ws, evs := StaleExchangeSucceeds(w, i, if i == 0 then 1 else 0, a);
      case Claimed(_) =>
        ws, evs := ClaimedSlotIsOverwritten(w, i, if w.h.pushed[w.h.tickets[i]] == a then b else a);
    }
  }

  /** The bound, state by state: with two consumers or more it holds in a safe state with a pending
      tail store if and only if nothing that can follow before the next store misbehaves. With one
      consumer this needs that the consumer is not behind the head, which no run can bring about. */
  lemma LagBoundIsExactAt<T(!new)>(w: World<T>, a: T, b: T)
    requires Safe(w) && Enabled(w.c, StoreTail)
    requires w.c.consumers != [] && AloneIsCurrent(w) && a != b
    ensures LagBound(w) <==> forall ws: seq<World<T>>, evs: seq<Event<T>> :: !EndsBadly(w, ws, evs)
  {
    if LagBound(w) {
      forall ws: seq<World<T>>, evs: seq<Event<T>> ensures !EndsBadly(w, ws, evs) {
        if StoresOnce(w, ws, evs) {
          BoundedStoreNeverEndsBadly(w, ws, evs);
        }
      }
    } else {
      var ws, evs := UnboundedStoreEndsBadly(w, a, b);
    }
  }

  lemma {:induction false} AloneStaysCurrent<T>(ws: seq<World<T>>, evs: seq<Event<T>>, n: nat)
    requires IsRun(ws, evs) && n < |ws|
    ensures AloneIsCurrent(ws[n])
  {
    if n != 0 {
      AloneStaysCurrent(ws, evs, n - 1);
      assert ws[n] == Step(ws[n - 1], evs[n - 1]);
    }
  }

  /** At every pending tail store of every run that has respected the bound so far, with any number
      of consumers and wherever they stand: the bound holds if and only if nothing that can follow
      before the next store misbehaves. */
  lemma LagBoundIsExact<T(!new)>(ws0: seq<World<T>>, evs0: seq<Event<T>>, n: nat, a: T, b: T)
    requires IsRun(ws0, evs0) && RespectsLag(ws0, evs0) && n < |ws0| && Enabled(ws0[n].c, StoreTail)
    requires ws0[n].c.consumers != [] && a != b
    ensures LagBound(ws0[n]) <==> forall ws: seq<World<T>>, evs: seq<Event<T>> :: !EndsBadly(ws0[n], ws, evs)
  {
    RunIsSafe(ws0, evs0, n);
    AloneStaysCurrent(ws0, evs0, n);
    LagBoundIsExactAt(ws0[n], a, b);
  }

  // ----- full() is no substitute for the bound -----

  /** A run in which `full()` was false before every `push`. */
  ghost predicate PushesOnlyWithRoom<T>(ws: seq<World<T>>, evs: seq<Event<T>>) {
    IsRun(ws, evs) && forall n :: 0 <= n < |evs| && evs[n].LoadTail? ==> !Full(ws[n].c)
  }

  lemma Then<T>(ws: seq<World<T>>, evs: seq<Event<T>>, ev: Event<T>)
    returns (ws': seq<World<T>>, evs': seq<Event<T>>)
    requires PushesOnlyWithRoom(ws, evs) && Enabled(ws[|evs|].c, ev)
    requires ev.LoadTail? ==> !Full(ws[|evs|].c)
    ensures PushesOnlyWithRoom(ws', evs') && |evs'| == |evs| + 1
    ensures evs'[|evs|] == ev && ws'[|evs|] == ws[|evs|] && ws'[|evs'|] == Step(ws[|evs|], ev)
  {
    ws', evs' := ws + [Step(ws[|evs|], ev)], evs + [ev];
  }

  lemma ThenPush<T>(ws: seq<World<T>>, evs: seq<Event<T>>, e: T)
    returns (ws': seq<World<T>>, evs': seq<Event<T>>)
    requires PushesOnlyWithRoom(ws, evs)
    requires ws[|evs|].c.producer.Idle? && ws[|evs|].c.tail < |ws[|evs|].c.arr| && !Full(ws[|evs|].c)
    ensures PushesOnlyWithRoom(ws', evs')
    ensures var w, w' := ws[|evs|], ws'[|evs'|];
      && w'.c == w.c.(arr := w.c.arr[w.c.tail := e], tail := Next(|w.c.arr|, w.c.tail), size := (w.c.size + 1) % WORD)
      && w'.h == w.h.(pushed := w.h.pushed + [e])
  {
    ws', evs' := Then(ws, evs, LoadTail(e));
    ws', evs' := Then(ws', evs', WriteSlot);
    ws', evs' := Then(ws', evs', StoreTail);
    ws', evs' := Then(ws', evs', IncSize);
  }

  lemma ThenClaim<T>(ws: seq<World<T>>, evs: seq<Event<T>>, i: nat)
    returns (ws': seq<World<T>>, evs': seq<Event<T>>)
    requires PushesOnlyWithRoom(ws, evs)
    requires var c := ws[|evs|].c;
      i < |c.consumers| && c.consumers[i].Out? && c.head != c.tail && c.head < |c.arr|
    ensures PushesOnlyWithRoom(ws', evs')
    ensures var w, w' := ws[|evs|], ws'[|evs'|];
      && w'.c == w.c.(head := Next(|w.c.arr|, w.c.head), consumers := w.c.consumers[i := Claimed(w.c.head)])
      && w'.h == w.h.(claims := w.h.claims + [i], tickets := w.h.tickets[i := |w.h.claims|])
  {
    ws', evs' := Then(ws, evs, LoadHead(i));
    ws', evs' := Then(ws', evs', CheckTail(i));
    ws', evs' := Then(ws', evs', Cas(i, false));
    var w, w' := ws[|evs|], ws'[|evs'|];
    assert w'.c.consumers == w.c.consumers[i := Claimed(w.c.head)];
    assert w'.h.tickets == w.h.tickets[i := |w.h.claims|];
  }

  /** Two slots, two consumers. Every `push` happens while `full()` is false, yet the first
      consumer's read takes the third element instead of the first. */
  lemma FullIsNotEnough<T>(a: T, b: T, c: T) returns (ws: seq<World<T>>, evs: seq<Event<T>>)
    requires a != c
    ensures PushesOnlyWithRoom(ws, evs) && evs != []
    ensures Misbehaves(ws[|evs| - 1], evs[|evs| - 1]) && evs[|evs| - 1] == ReadSlot(0, c)
    ensures ws[|evs|].c.consumers[0] == HasValue(c)
    ensures ws[|evs|].h.pushed == [a, b, c] && ws[|evs|].h.tickets == [0, 1]
  {
    var w := World(Config([a, a], 0, 0, 0, Idle, [Out, Out]), History([], [], [0, 0], []));
    ws, evs := [w], [];
    ws, evs := ThenPush(ws, evs, a);
    ws, evs := ThenClaim(ws, evs, 0);
    ws, evs := ThenPush(ws, evs, b);
    ws, evs := ThenClaim(ws, evs, 1);
    ws, evs := ThenPush(ws, evs, c);
    assert ws[|evs|].c.arr == [c, b] && ws[|evs|].h.pushed == [a, b, c];
    ws, evs := Then(ws, evs, ReadSlot(0, c));
  }
}
