/** The cache over the fetcher: called alone, and with any number of requests interleaved. */
module FileCache {
  import opened Wrappers
  import FI = FileIndex

  /** What a request for `path` is answered, where the disk fetcher would answer `fetched`. */
  function Lookup<D>(cache: map<string, D>, path: string, fetched: Option<D>): Option<D> {
    if path in cache then Some(cache[path]) else fetched
  }

  /** The cache after a request for `path`: a successful fetch is remembered, a failure is not. */
  function Remembered<D>(cache: map<string, D>, path: string, fetched: Option<D>): map<string, D> {
    if path in cache || fetched.None? then cache else cache[path := fetched.value]
  }

  class CacheFileFetcher {
    const fetcher: FI.DiskFileFetcher
    var cache: map<string, FI.FileData>

    constructor ()
      ensures cache == map[] && fresh(fetcher) && fetcher.descriptors == map[]
    {
      cache := map[];
      fetcher := new FI.DiskFileFetcher();
    }

    /** A hit is answered from the cache; a miss is fetched, and remembered unless it failed. */
    method GetFile(path: string, disk: map<string, string>) returns (r: Option<FI.FileData>)
      modifies this`cache
      ensures r == Lookup(old(cache), path, FI.Fetch(fetcher.descriptors, disk, path))
      ensures cache == Remembered(old(cache), path, FI.Fetch(fetcher.descriptors, disk, path))
    {
      if path !in cache {
        var returned := fetcher.GetFile(path, disk);
        if returned.None? {
          return None;
        }
        cache := cache[path := returned.value];
      }
      return Some(cache[path]);
    }
  }

  // ----- Interleaved requests -----

  /** What the fetcher would answer for every path, at one moment. */
  type Files<!D> = string -> Option<D>

  /** Where a request stands; `began` numbers the state of the files at which it began. */
  datatype RequestPc<D> =
    | Out
    | Finding(path: string, began: nat)
    | Fetching(path: string, began: nat)
    | Inserting(path: string, began: nat, data: D)
    | Reading(path: string, began: nat)
    | Done(path: string, began: nat, result: Option<D>)

  /** One answer of the disk fetcher, and the state the files were in when it was given. */
  datatype Answer<D> = Answer(path: string, moment: nat, result: Option<D>)

  /** `states` are the states the files have been in, the last one being the present; `log` is what
      the disk fetcher has returned so far. */
  datatype Shared<!D> = Shared(
    states: seq<Files<D>>, cache: map<string, D>, requests: seq<RequestPc<D>>, log: seq<Answer<D>>)

  datatype Event<!D> =
    | Begin(request: nat, path: string)
    | Find(request: nat)
    | FetchFile(request: nat)
    | Insert(request: nat)
    | Read(request: nat)
    | Finish(request: nat)
    | ChangeFiles(files: Files<D>)

  predicate Enabled<D>(s: Shared<D>, ev: Event<D>) {
    s.states != [] &&
    match ev
    case Begin(i, _) => i < |s.requests| && s.requests[i].Out?
    case Find(i) => i < |s.requests| && s.requests[i].Finding?
    case FetchFile(i) => i < |s.requests| && s.requests[i].Fetching?
    case Insert(i) => i < |s.requests| && s.requests[i].Inserting?
    case Read(i) => i < |s.requests| && s.requests[i].Reading?
    case Finish(i) => i < |s.requests| && s.requests[i].Done?
    case ChangeFiles(_) => true
  }

  function Goto<D>(s: Shared<D>, i: nat, pc: RequestPc<D>): Shared<D>
    requires i < |s.requests|
  {
    s.(requests := s.requests[i := pc])
  }

  /** Reading goes through operator[], which inserts `blank` where the path is missing. */
  function Step<D>(s: Shared<D>, ev: Event<D>, blank: D): Shared<D>
    requires Enabled(s, ev)
  {
    match ev
    case Begin(i, path) => Goto(s, i, Finding(path, |s.states| - 1))
    case Find(i) =>
      var r := s.requests[i];
      Goto(s, i, if r.path in s.cache then Reading(r.path, r.began) else Fetching(r.path, r.began))
    case FetchFile(i) =>
      var r, now := s.requests[i], |s.states| - 1;
      var result := s.states[now](r.path);
      Goto(s, i, if result.Some? then Inserting(r.path, r.began, result.value) else Done(r.path, r.began, None))
        .(log := s.log + [Answer(r.path, now, result)])
    case Insert(i) =>
      var r := s.requests[i];
      Goto(s, i, Reading(r.path, r.began)).(cache := s.cache[r.path := r.data])
    case Read(i) =>
      var r := s.requests[i];
      var cache := if r.path in s.cache then s.cache else s.cache[r.path := blank];
      Goto(s, i, Done(r.path, r.began, Some(cache[r.path]))).(cache := cache)
    case Finish(i) => Goto(s, i, Out)
    case ChangeFiles(files) => s.(states := s.states + [files])
  }

  /** The disk fetcher has returned `result` for `path`, with the files in state `since` or a later one. */
  ghost predicate WasReturned<D>(log: seq<Answer<D>>, path: string, result: Option<D>, since: nat) {
    exists j :: 0 <= j < |log| && log[j].path == path && log[j].result == result && since <= log[j].moment
  }

  /** What is logged is what the files said at that moment. */
  ghost predicate LogOk<D>(s: Shared<D>) {
    forall j :: 0 <= j < |s.log| ==>
      s.log[j].moment < |s.states| && s.log[j].result == s.states[s.log[j].moment](s.log[j].path)
  }

  ghost predicate RequestOk<D>(s: Shared<D>, r: RequestPc<D>) {
    r.Out? || (
      && r.began < |s.states|
      && (r.Inserting? ==> WasReturned(s.log, r.path, Some(r.data), r.began))
      && (r.Reading? ==> r.path in s.cache)
      && (r.Done? ==> WasReturned(s.log, r.path, r.result, if r.result.Some? then 0 else r.began)))
  }

  ghost predicate CacheOk<D>(s: Shared<D>) {
    && s.states != [] && LogOk(s)
    && (forall path :: path in s.cache ==> WasReturned(s.log, path, Some(s.cache[path]), 0))
    && (forall i :: 0 <= i < |s.requests| ==> RequestOk(s, s.requests[i]))
  }

  ghost predicate Initial<D>(s: Shared<D>) {
    |s.states| == 1 && s.cache == map[] && s.log == [] && forall i :: 0 <= i < |s.requests| ==> s.requests[i].Out?
  }

  lemma LogGrows<D>(log: seq<Answer<D>>, log': seq<Answer<D>>, path: string, result: Option<D>, since: nat)
    requires log <= log' && WasReturned(log, path, result, since)
    ensures WasReturned(log', path, result, since) && WasReturned(log', path, result, 0)
  {
    var j :| 0 <= j < |log| && log[j].path == path && log[j].result == result && since <= log[j].moment;
    assert log'[j] == log[j];
  }

  /** A request that does not move keeps what it relies on. */
  lemma RequestStaysOk<D>(s: Shared<D>, s': Shared<D>, r: RequestPc<D>)
    requires RequestOk(s, r) && |s.states| <= |s'.states| && s.log <= s'.log && s.cache.Keys <= s'.cache.Keys
    ensures RequestOk(s', r)
  {
    hide WasReturned;
    if r.Inserting? {
      LogGrows(s.log, s'.log, r.path, Some(r.data), r.began);
    } else if r.Done? {
      LogGrows(s.log, s'.log, r.path, r.result, if r.result.Some? then 0 else r.began);
    }
  }

  /** What the moving request relies on afterwards. */
  lemma MoverIsOk<D>(s: Shared<D>, ev: Event<D>, blank: D, i: nat)
    requires CacheOk(s) && Enabled(s, ev) && !ev.ChangeFiles? && i == ev.request
    ensures RequestOk(Step(s, ev, blank), Step(s, ev, blank).requests[i])
  {
    var s', r := Step(s, ev, blank), s.requests[i];
    assert RequestOk(s, r);
    if ev.FetchFile? {
      assert s'.log[|s.log|] == Answer(r.path, |s.states| - 1, s.states[|s.states| - 1](r.path));
    }
  }

  lemma EntriesStayOk<D>(s: Shared<D>, ev: Event<D>, blank: D)
    requires CacheOk(s) && Enabled(s, ev)
    ensures var s' := Step(s, ev, blank);
      forall path :: path in s'.cache ==> WasReturned(s'.log, path, Some(s'.cache[path]), 0)
  {
    hide WasReturned;
    var s' := Step(s, ev, blank);
    if ev.Insert? || ev.Read? {
      var r := s.requests[ev.request];
      assert RequestOk(s, r);
      if ev.Insert? {
        LogGrows(s.log, s.log, r.path, Some(r.data), r.began);
      }
    }
    forall path | path in s.cache ensures WasReturned(s'.log, path, Some(s.cache[path]), 0) {
      LogGrows(s.log, s'.log, path, Some(s.cache[path]), 0);
    }
  }

  lemma StepGrows<D>(s: Shared<D>, ev: Event<D>, blank: D)
    requires Enabled(s, ev)
    ensures var s' := Step(s, ev, blank);
      s.states <= s'.states && s.log <= s'.log && s.cache.Keys <= s'.cache.Keys && |s'.requests| == |s.requests|
    ensures LogOk(s) ==> LogOk(Step(s, ev, blank))
    ensures var s' := Step(s, ev, blank); forall i :: 0 <= i < |s.requests| && (ev.ChangeFiles? || i != ev.request) ==>
      s'.requests[i] == s.requests[i]
  {
  }

  lemma StepKeepsCacheOk<D>(s: Shared<D>, ev: Event<D>, blank: D)
    requires CacheOk(s) && Enabled(s, ev)
    ensures CacheOk(Step(s, ev, blank))
    ensures s.states <= Step(s, ev, blank).states && s.cache.Keys <= Step(s, ev, blank).cache.Keys
  {
    hide Step, WasReturned, LogOk, RequestOk;
    var s' := Step(s, ev, blank);
    StepGrows(s, ev, blank);
    EntriesStayOk(s, ev, blank);
    forall i | 0 <= i < |s'.requests| ensures RequestOk(s', s'.requests[i]) {
      if ev.ChangeFiles? || i != ev.request {
        RequestStaysOk(s, s', s.requests[i]);
      } else {
        MoverIsOk(s, ev, blank, i);
      }
    }
  }

  /** The read step finds what it reads: operator[] never inserts. */
  lemma ReadNeverInserts<D>(s: Shared<D>, ev: Event<D>, blank: D)
    requires CacheOk(s) && Enabled(s, ev) && ev.Read?
    ensures Step(s, ev, blank).cache == s.cache
  {
    assert RequestOk(s, s.requests[ev.request]);
  }

  ghost predicate IsRun<D>(ss: seq<Shared<D>>, evs: seq<Event<D>>, blank: D) {
    && |ss| == |evs| + 1 && Initial(ss[0])
    && forall n :: 0 <= n < |evs| ==> Enabled(ss[n], evs[n]) && ss[n + 1] == Step(ss[n], evs[n], blank)
  }

  lemma {:induction false} RunKeepsCacheOk<D>(ss: seq<Shared<D>>, evs: seq<Event<D>>, blank: D, n: nat)
    requires IsRun(ss, evs, blank) && n < |ss|
    ensures CacheOk(ss[n])
  {
    if n != 0 {
      RunKeepsCacheOk(ss, evs, blank, n - 1);
      StepKeepsCacheOk(ss[n - 1], evs[n - 1], blank);
    }
  }

  /** Every answered request returns what the disk fetcher returned for its path at some earlier
      moment of the run, a failure being returned since the request began. What is cached was
      returned by the disk fetcher, so failures are never cached. Reading never inserts. */
  lemma CacheIsTransparent<D>(ss: seq<Shared<D>>, evs: seq<Event<D>>, blank: D, n: nat)
    requires IsRun(ss, evs, blank) && n < |ss|
    ensures LogOk(ss[n])
    ensures forall i :: 0 <= i < |ss[n].requests| && ss[n].requests[i].Done? ==>
      var r := ss[n].requests[i]; WasReturned(ss[n].log, r.path, r.result, if r.result.Some? then 0 else r.began)
    ensures forall path :: path in ss[n].cache ==> WasReturned(ss[n].log, path, Some(ss[n].cache[path]), 0)
    ensures n < |evs| && evs[n].Read? ==> ss[n + 1].cache == ss[n].cache
  {
    RunKeepsCacheOk(ss, evs, blank, n);
    hide WasReturned, LogOk, Step;
    forall i | 0 <= i < |ss[n].requests| && ss[n].requests[i].Done?
      ensures var r := ss[n].requests[i];
        WasReturned(ss[n].log, r.path, r.result, if r.result.Some? then 0 else r.began)
    {
      assert RequestOk(ss[n], ss[n].requests[i]);
    }
    if n < |evs| && evs[n].Read? {
      ReadNeverInserts(ss[n], evs[n], blank);
    }
  }

  /** The steps of one request that is not interrupted. */
  function Uninterrupted<D>(s: Shared<D>, i: nat, blank: D): (s': Shared<D>)
    requires Enabled(s, Find(i))
    ensures var path, now := s.requests[i].path, |s.states| - 1;
      && i < |s'.requests|
      && s'.requests[i] == Done(path, s.requests[i].began, Lookup(s.cache, path, s.states[now](path)))
      && s'.cache == Remembered(s.cache, path, s.states[now](path))
  {
    var found := Step(s, Find(i), blank);
    if found.requests[i].Reading? then Step(found, Read(i), blank)
    else
      var fetched := Step(found, FetchFile(i), blank);
      if fetched.requests[i].Done? then fetched else Step(Step(fetched, Insert(i), blank), Read(i), blank)
  }

  /** While the files do not change, every request is answered as without the cache. */
  lemma UnchangedFilesUncached<D>(ss: seq<Shared<D>>, evs: seq<Event<D>>, blank: D, n: nat, i: nat)
    requires IsRun(ss, evs, blank) && n < |ss| && |ss[n].states| == 1
    requires i < |ss[n].requests| && ss[n].requests[i].Done?
    ensures ss[n].requests[i].result == ss[n].states[0](ss[n].requests[i].path)
  {
    RunKeepsCacheOk(ss, evs, blank, n);
    assert RequestOk(ss[n], ss[n].requests[i]);
  }

  /** Once cached, a path is answered from the cache for ever: entries are never evicted. */
  lemma {:induction false} NeverEvicted<D>(ss: seq<Shared<D>>, evs: seq<Event<D>>, blank: D, a: nat, b: nat)
    requires IsRun(ss, evs, blank) && a <= b < |ss|
    ensures ss[a].cache.Keys <= ss[b].cache.Keys
    decreases b - a
  {
    if a < b {
      NeverEvicted(ss, evs, blank, a, b - 1);
      RunKeepsCacheOk(ss, evs, blank, b - 1);
      StepKeepsCacheOk(ss[b - 1], evs[b - 1], blank);
    }
  }
}
