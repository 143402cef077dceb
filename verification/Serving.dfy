/** The whole server: the pool whose handlers compute what the HTTP handler computes. */
module Serving {
  import opened Wrappers
  import opened Pool
  import opened HttpMessage
  import opened HttpParser
  import opened HttpHandler
  import opened HttpAnswers

  type Fetcher = string -> Option<FI.FileData>

  /** Every handler answers what the HTTP handler answers to the request it was given, over the state
      `fetchers[n]` of the files at that moment. The files may change from step to step. */
  ghost predicate AnswersBy(ps: seq<PoolState>, evs: seq<PoolEvent>, fetchers: seq<Fetcher>)
    requires IsPoolRun(ps, evs)
  {
    |fetchers| == |evs| && forall n :: 0 <= n < |evs| ==> AnswerFits(ps[n], evs[n], fetchers[n])
  }

  ghost predicate AnswerFits(p: PoolState, ev: PoolEvent, fetcher: Fetcher)
    requires CanDo(p, ev)
  {
    ev.Handle? ==> HttpHandler.Handled(p.workers[ev.worker].conn.request, fetcher) == Ok(ev.answer)
  }

  /** The answer is the handler's, over one of the first `n` states of the files. */
  ghost predicate Answered(request: string, answer: Option<string>, fetchers: seq<Fetcher>, n: nat) {
    exists m :: 0 <= m < n && m < |fetchers| && HttpHandler.Handled(request, fetchers[m]) == Ok(answer)
  }

  ghost predicate LogAnswered(log: seq<Effect>, fetchers: seq<Fetcher>, n: nat) {
    forall i :: 0 <= i < |log| && log[i].Handled? ==> Answered(log[i].request, log[i].answer, fetchers, n)
  }

  /** A step logs at most one effect, and a handler's effect shows its request and its answer. */
  lemma StepLogs(p: PoolState, ev: PoolEvent)
    requires Shaped(p) && CanDo(p, ev)
    ensures p.log <= PoolStep(p, ev).log && |PoolStep(p, ev).log| <= |p.log| + 1
    ensures |PoolStep(p, ev).log| == |p.log| + 1 && PoolStep(p, ev).log[|p.log|].Handled? ==>
      var e := PoolStep(p, ev).log[|p.log|];
      ev.Handle? && e.request == p.workers[ev.worker].conn.request && e.answer == ev.answer
  {
  }

  lemma {:induction false} RunLogAnswered(ps: seq<PoolState>, evs: seq<PoolEvent>, fetchers: seq<Fetcher>, n: nat)
    requires IsPoolRun(ps, evs) && AnswersBy(ps, evs, fetchers) && n < |ps|
    ensures LogAnswered(ps[n].log, fetchers, n)
  {
    if n != 0 {
      RunLogAnswered(ps, evs, fetchers, n - 1);
      var p, ev := ps[n - 1], evs[n - 1];
      StepLogs(p, ev);
      hide HttpHandler.Handled;
      assert AnswerFits(p, ev, fetchers[n - 1]);
      forall i | 0 <= i < |ps[n].log| && ps[n].log[i].Handled?
        ensures Answered(ps[n].log[i].request, ps[n].log[i].answer, fetchers, n)
      {
        if i < |p.log| {
          assert ps[n].log[i] == p.log[i];
          assert Answered(p.log[i].request, p.log[i].answer, fetchers, n - 1);
        } else {
          assert HttpHandler.Handled(ps[n].log[i].request, fetchers[n - 1]) == Ok(ps[n].log[i].answer);
        }
      }
    }
  }

  lemma {:induction false} FirstOfLife(log: seq<Effect>, k: nat, j: nat) returns (i: nat)
    requires j < |Of(log, k)|
    ensures i < |log| && log[i] == Of(log, k)[j]
  {
    var last := |log| - 1;
    if j < |Of(log[..last], k)| {
      i := FirstOfLife(log[..last], k, j);
    } else {
      i := last;
    }
  }

  /** When the server comes to rest, every connection ever added was handled, answered and closed, by
      the one worker that claimed it, and its answer is the HTTP handler's answer to its own request
      over a state the files were in during the run. */
  lemma RequestsAreAnswered(ps: seq<PoolState>, evs: seq<PoolEvent>, fetchers: seq<Fetcher>, n: nat, k: nat)
    returns (answer: Option<string>)
    requires IsPoolRun(ps, evs) && AnswersBy(ps, evs, fetchers)
    requires n < |ps| && Quiet(ps[n]) && k < |ps[n].q.h.pushed|
    ensures k < |ps[n].q.h.claims| && Answered(ps[n].q.h.pushed[k].request, answer, fetchers, n)
    ensures Of(ps[n].log, k) == Life(k, ps[n].q.h.claims[k], ps[n].q.h.pushed[k], answer)
  {
    AllClosedAtRest(ps, evs, n, k);
    var p, conn := ps[n], ps[n].q.h.pushed[k];
    answer :| Of(p.log, k) == Life(k, p.q.h.claims[k], conn, answer);
    RunLogAnswered(ps, evs, fetchers, n);
    var i := FirstOfLife(p.log, k, 0);
    assert p.log[i] == Effect.Handled(k, p.q.h.claims[k], conn.request, answer);
  }

  /** No request that makes the parser read outside its input has been handled, a refused one was
      closed without an answer, and an accepted one was sent exactly the response to it, printed. */
  lemma EachGetsItsOwn(ps: seq<PoolState>, evs: seq<PoolEvent>, fetchers: seq<Fetcher>, n: nat, k: nat)
    requires IsPoolRun(ps, evs) && AnswersBy(ps, evs, fetchers)
    requires n < |ps| && Quiet(ps[n]) && k < |ps[n].q.h.pushed|
    ensures k < |ps[n].q.h.claims|
    ensures var conn, worker := ps[n].q.h.pushed[k], ps[n].q.h.claims[k];
      match ParseRequest(conn.request)
      case Fault => false
      case Err => Of(ps[n].log, k) == Life(k, worker, conn, None)
      case Ok(r) =>
        exists m :: 0 <= m < n && m < |fetchers| &&
          Of(ps[n].log, k) ==
          Life(k, worker, conn, Some(PrintResponse(ResponseTo(r.verb, fetchers[m](FilePath(r.path))))))
  {
    hide IsPoolRun, AnswersBy, Quiet, ParseRequest, PrintResponse, Life, Of;
    var answer := RequestsAreAnswered(ps, evs, fetchers, n, k);
    var conn := ps[n].q.h.pushed[k];
    var m :| 0 <= m < n && m < |fetchers| && HttpHandler.Handled(conn.request, fetchers[m]) == Ok(answer);
  }

  /** At rest after a run over a site that stayed as it is, the k-th request is `request`. */
  ghost predicate AtRest(site: Site, ps: seq<PoolState>, evs: seq<PoolEvent>, fetchers: seq<Fetcher>, n: nat, k: nat,
                         request: string) {
    && IsPoolRun(ps, evs) && AnswersBy(ps, evs, fetchers) && n < |ps| && Quiet(ps[n])
    && (forall m :: 0 <= m < |fetchers| ==> fetchers[m] == Uncached(site.Index(), site.disk))
    && k < |ps[n].q.h.pushed| && ps[n].q.h.pushed[k].request == request
  }

  /** The k-th connection lived one whole life with this answer. */
  ghost predicate WasAnswered(p: PoolState, k: nat, answer: string) {
    && k < |p.q.h.claims| && k < |p.q.h.pushed|
    && Of(p.log, k) == Life(k, p.q.h.claims[k], p.q.h.pushed[k], Some(answer))
  }

  lemma AnswerAtRest(site: Site, ps: seq<PoolState>, evs: seq<PoolEvent>, fetchers: seq<Fetcher>, n: nat, k: nat,
                     request: string, answer: string)
    requires AtRest(site, ps, evs, fetchers, n, k, request)
    requires HttpHandler.Handled(request, Through(map[], site.Index(), site.disk)) == Ok(Some(answer))
    ensures WasAnswered(ps[n], k, answer)
  {
    hide IsPoolRun, AnswersBy, Quiet, HttpHandler.Handled, Life, Of, Through, Uncached, CacheAgrees;
    var given := RequestsAreAnswered(ps, evs, fetchers, n, k);
    EmptyCacheAgrees(site.Index(), site.disk);
    AgreeingCacheIsUnseen(map[], site.Index(), site.disk, request);
  }

  /** Every client that asked for a file below the root, by any method, was sent that file or its
      Brotli representation, with the media type of its suffix, once; then its connection was closed. */
  lemma EveryClientGetsItsFile(site: Site, ps: seq<PoolState>, evs: seq<PoolEvent>, fetchers: seq<Fetcher>,
                               n: nat, k: nat, s: string, r: Request, dir: string, stem: string, suffix: string)
    requires AtRest(site, ps, evs, fetchers, n, k, s) && AsksFor(s, r, dir + "/" + (stem + "." + suffix))
    requires stem != "" && '/' !in stem && '.' !in suffix && '/' !in suffix
    requires FI.WellNamed(site.tree) && "../webdir" + (dir + "/" + (stem + "." + suffix)) in site.Files()
    ensures WasAnswered(ps[n], k,
              FileAnswer(site, r.verb, "../webdir" + (dir + "/" + (stem + "." + suffix)), MediaType(suffix),
                         suffix == "html" || suffix == "css" || suffix == "js"))
  {
    hide AsksFor, HttpHandler.Handled, Through, CacheAgrees, WasAnswered, FileAnswer, MediaType, FI.WellNamed;
    EmptyCacheAgrees(site.Index(), site.disk);
    SuffixedFileIsAnswered(site, map[], s, r, dir, stem, suffix);
    AnswerAtRest(site, ps, evs, fetchers, n, k, s,
      FileAnswer(site, r.verb, "../webdir" + (dir + "/" + (stem + "." + suffix)), MediaType(suffix),
                 suffix == "html" || suffix == "css" || suffix == "js"));
  }

  /** The same for a file whose name has no dot, or only a leading one: sent as plain text. */
  lemma PlainFilesAreServedToo(site: Site, ps: seq<PoolState>, evs: seq<PoolEvent>, fetchers: seq<Fetcher>,
                               n: nat, k: nat, s: string, r: Request, dir: string, name: string)
    requires AtRest(site, ps, evs, fetchers, n, k, s) && AsksFor(s, r, dir + "/" + name)
    requires (name == "" || '.' !in name[1..]) && '/' !in name
    requires FI.WellNamed(site.tree) && "../webdir" + (dir + "/" + name) in site.Files()
    ensures WasAnswered(ps[n], k, FileAnswer(site, r.verb, "../webdir" + (dir + "/" + name), "text/plain", false))
  {
    hide AsksFor, HttpHandler.Handled, Through, CacheAgrees, WasAnswered, FileAnswer, FI.WellNamed;
    EmptyCacheAgrees(site.Index(), site.disk);
    PlainFileIsAnswered(site, map[], s, r, dir, name);
    AnswerAtRest(site, ps, evs, fetchers, n, k, s,
      FileAnswer(site, r.verb, "../webdir" + (dir + "/" + name), "text/plain", false));
  }

  /** Every client that asked for something that is not below the root was sent 404 once, and closed. */
  lemma OthersGetNotFound(site: Site, ps: seq<PoolState>, evs: seq<PoolEvent>, fetchers: seq<Fetcher>,
                          n: nat, k: nat, s: string, r: Request, file: string)
    requires AtRest(site, ps, evs, fetchers, n, k, s) && AsksFor(s, r, file) && "../webdir" + file !in site.Files()
    ensures WasAnswered(ps[n], k, "HTTP/1.1 404 Not Found\r\n\r\n")
  {
    hide AsksFor, HttpHandler.Handled, Through, CacheAgrees, WasAnswered;
    EmptyCacheAgrees(site.Index(), site.disk);
    MissingFileIsAnswered(site, map[], s, r, file);
    AnswerAtRest(site, ps, evs, fetchers, n, k, s, "HTTP/1.1 404 Not Found\r\n\r\n");
  }

  lemma EmptyCacheAgrees(ds: map<string, FI.FileDescriptor>, disk: map<string, string>)
    ensures CacheAgrees(map[], ds, disk)
  {
  }
}
