/** Lock-freedom of `pop`: a lost exchange is always somebody else's success. */
module QueueProgress {
  import opened QueueProtocol
  import opened QueueRuns

  /** The exchange fails because the head has moved, not spuriously. */
  predicate LosesRace<T>(c: Config<T>, ev: Event<T>) {
    ev.Cas? && Enabled(c, ev) && !ev.spurious && c.head != c.consumers[ev.consumer].head
  }

  /** The head load that opened the attempt in which consumer `i` stands at position `n`. */
  lemma {:induction false} FindLoad<T>(ws: seq<World<T>>, evs: seq<Event<T>>, n: nat, i: nat) returns (l: nat)
    requires IsRun(ws, evs) && n < |ws| && i < |ws[n].c.consumers|
    requires ws[n].c.consumers[i].HasHead? || ws[n].c.consumers[i].NonEmpty?
    ensures l < n && evs[l] == LoadHead(i)
    ensures forall m :: l < m < n && evs[m].ByConsumer(i) ==> evs[m].CheckTail?
    ensures ws[n].h.tickets[i] == |ws[l].h.claims|
  {
    hide Step;
    assert n != 0;
    var ev := evs[n - 1];
    assert ws[n] == Step(ws[n - 1], ev);
    AttemptStep(ws[n - 1], ev, i);
    if ev == LoadHead(i) {
      l := n - 1;
    } else {
      l := FindLoad(ws, evs, n - 1, i);
    }
  }

  /** An attempt begins with a head load, and goes on with a tail check. */
  lemma AttemptStep<T>(w: World<T>, ev: Event<T>, i: nat)
    requires |w.h.tickets| == |w.c.consumers| && Enabled(w.c, ev) && i < |w.c.consumers|
    requires Step(w, ev).c.consumers[i].HasHead? || Step(w, ev).c.consumers[i].NonEmpty?
    ensures ev == LoadHead(i) ==> Step(w, ev).h.tickets[i] == |w.h.claims|
    ensures ev != LoadHead(i) ==>
      && (w.c.consumers[i].HasHead? || w.c.consumers[i].NonEmpty?)
      && Step(w, ev).h.tickets[i] == w.h.tickets[i] && (ev.ByConsumer(i) ==> ev.CheckTail?)
  {
  }

  /** The claim count only grows by successful exchanges. */
  lemma {:induction false} FindClaim<T>(ws: seq<World<T>>, evs: seq<Event<T>>, a: nat, b: nat) returns (m: nat)
    requires IsPath(ws, evs) && a <= b < |ws| && |ws[a].h.claims| < |ws[b].h.claims|
    ensures a <= m < b && Claims(ws[m].c, evs[m])
    decreases b - a
  {
    assert a < b;
    assert ws[b] == Step(ws[b - 1], evs[b - 1]);
    if Claims(ws[b - 1].c, evs[b - 1]) {
      m := b - 1;
    } else {
      m := FindClaim(ws, evs, a, b - 1);
    }
  }

  /** Unconditionally: when an exchange loses, another consumer's exchange succeeded after the
      loser loaded the head and before the loser's own attempt. */
  lemma LostRaceHasWinner<T>(ws: seq<World<T>>, evs: seq<Event<T>>, n: nat) returns (l: nat, m: nat)
    requires IsRun(ws, evs) && n < |evs| && LosesRace(ws[n].c, evs[n])
    ensures l < m < n && evs[l] == LoadHead(evs[n].consumer)
    ensures forall k :: l < k < n && evs[k].ByConsumer(evs[n].consumer) ==> evs[k].CheckTail?
    ensures Claims(ws[m].c, evs[m]) && evs[m].consumer != evs[n].consumer
  {
    var i := evs[n].consumer;
    l := FindLoad(ws, evs, n, i);
    RunIsConsistent(ws, evs, n);
    assert IndexOk(ws[n], i);
    assert ws[l + 1] == Step(ws[l], evs[l]);
    m := FindClaim(ws, evs, l + 1, n);
    assert evs[m].ByConsumer(evs[m].consumer);
  }

  // ----- Counting lost races -----

  function Losses<T>(ws: seq<World<T>>, evs: seq<Event<T>>, n: nat): nat
    requires n <= |evs| < |ws|
  {
    if n == 0 then 0
    else Losses(ws, evs, n - 1) + if LosesRace(ws[n - 1].c, evs[n - 1]) then 1 else 0
  }

  /** Consumer `i` will lose its exchange: the ticket it loaded is already claimed. */
  predicate Stale<T>(w: World<T>, i: nat)
    requires i < |w.c.consumers| && |w.h.tickets| == |w.c.consumers|
  {
    (w.c.consumers[i].HasHead? || w.c.consumers[i].NonEmpty?) && w.h.tickets[i] < |w.h.claims|
  }

  function StaleCount<T>(w: World<T>, n: nat): nat
    requires n <= |w.c.consumers| && |w.h.tickets| == |w.c.consumers|
  {
    if n == 0 then 0 else StaleCount(w, n - 1) + if Stale(w, n - 1) then 1 else 0
  }

  lemma {:induction false} StaleCountBelow<T>(w: World<T>, n: nat, i: nat)
    requires n <= |w.c.consumers| && |w.h.tickets| == |w.c.consumers|
    ensures StaleCount(w, n) <= n
    ensures i < n && !Stale(w, i) ==> StaleCount(w, n) <= n - 1
  {
    if n != 0 {
      StaleCountBelow(w, n - 1, i);
    }
  }

  /** No consumer but `i` becomes stale. */
  lemma {:induction false} StaleCountStep<T>(w: World<T>, w': World<T>, n: nat, i: nat)
    requires |w.h.tickets| == |w.c.consumers| == |w'.c.consumers| == |w'.h.tickets| && n <= |w.c.consumers|
    requires forall j :: 0 <= j < n && Stale(w', j) ==> Stale(w, j)
    ensures StaleCount(w', n) <= StaleCount(w, n)
    ensures i < n && Stale(w, i) && !Stale(w', i) ==> StaleCount(w', n) <= StaleCount(w, n) - 1
  {
    if n != 0 {
      StaleCountStep(w, w', n - 1, i);
    }
  }

  lemma LossBudgetStep<T>(w: World<T>, ev: Event<T>)
    requires Indices(w) && Enabled(w.c, ev)
    ensures var w', n := Step(w, ev), |w.c.consumers|;
      StaleCount(w', n) + (if LosesRace(w.c, ev) then 1 else 0)
        <= StaleCount(w, n) + (if Claims(w.c, ev) then n - 1 else 0)
  {
    var w', n := Step(w, ev), |w.c.consumers|;
    if Claims(w.c, ev) {
      StaleCountBelow(w', n, ev.consumer);
    } else {
      if ev.Cas? {
        assert IndexOk(w, ev.consumer);
        StaleCountStep(w, w', n, ev.consumer);
      } else {
        StaleCountStep(w, w', n, 0);
      }
    }
  }

  lemma ClaimCount<T>(w: World<T>, ev: Event<T>)
    requires |w.h.tickets| == |w.c.consumers| && Enabled(w.c, ev)
    ensures |Step(w, ev).h.claims| == |w.h.claims| + if Claims(w.c, ev) then 1 else 0
  {
  }

  lemma BudgetGrows(size: nat, k: nat)
    ensures (size - 1) * 0 == 0 && (size - 1) * (k + 1) == (size - 1) * k + size - 1
  {
  }

  /** In every run with N consumers, k successful exchanges pay for all lost ones: there are at
      most (N - 1) * k of them, counting the consumers that are bound to lose. */
  lemma {:induction false} LossesArePaidFor<T>(ws: seq<World<T>>, evs: seq<Event<T>>, n: nat)
    requires IsRun(ws, evs) && n <= |evs|
    ensures |ws[n].c.consumers| == |ws[0].c.consumers|
    ensures Losses(ws, evs, n) + StaleCount(ws[n], |ws[n].c.consumers|)
              <= (|ws[0].c.consumers| - 1) * |ws[n].h.claims|
  {
    var size := |ws[0].c.consumers|;
    if n == 0 {
      StaleCountZero(ws[0], size);
      BudgetGrows(size, 0);
    } else {
      LossesArePaidFor(ws, evs, n - 1);
      RunIsConsistent(ws, evs, n - 1);
      var w := ws[n - 1];
      hide Step, Consistent;
      IndicesOf(w);
      LossBudgetStep(w, evs[n - 1]);
      ClaimCount(w, evs[n - 1]);
      BudgetGrows(size, |w.h.claims|);
      assert ws[n] == Step(w, evs[n - 1]);
    }
  }

  lemma {:induction false} StaleCountZero<T>(w: World<T>, n: nat)
    requires n <= |w.c.consumers| && |w.h.tickets| == |w.c.consumers| && w.h.claims == []
    ensures StaleCount(w, n) == 0
  {
    if n != 0 {
      StaleCountZero(w, n - 1);
    }
  }
}
