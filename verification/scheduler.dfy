/** Admission accounting of the main loop, as a sequential event system.
    The loop takes a permit before spawning the task for each URL in turn;
    a task gives its permit back when it finishes and leaves one outcome.
    Real concurrency is not modelled: an interleaving is a sequence of
    events. */
module Scheduler {
  import opened Common

  /** The main loop admits the next URL, or a running task finishes with
      `outcome`. */
  datatype Event<O> = Admit | Finish(task: nat, outcome: O)

  /** The gate: `limit` permits, `available` of them free; the first
      `admitted` URLs have been spawned, the tasks in `running` hold a
      permit, and `results` holds the outcome of each finished task. */
  datatype Gate<O> = Gate(limit: nat, available: nat, admitted: nat, running: set<nat>, results: map<nat, O>)

  /** Why a run is refused before any URL is admitted. */
  datatype ConfigError = NoUrls | ZeroConcurrency

  /** The task numbers 0 .. k-1. */
  function Tasks(k: nat): (s: set<nat>)
    ensures |s| == k
    ensures forall t: nat :: t in s <==> t < k
  {
    if k == 0 then {} else Tasks(k - 1) + {k - 1}
  }

  /** The gate before the first URL. */
  function Initial<O>(limit: nat): (g: Gate<O>)
    ensures g.limit == limit && g.available == limit && g.admitted == 0
    ensures forall n: nat :: Inv(g, n)
  {
    Gate(limit, limit, 0, {}, map[])
  }

  /** The accounting invariant for a run over `n` URLs: permits held plus
      permits free equal the limit, and every admitted task is either
      running or has exactly one outcome, never both. */
  ghost predicate Inv<O>(g: Gate<O>, n: nat) {
    && g.admitted <= n
    && |g.running| + g.available == g.limit
    && (forall t :: t in g.running ==> t !in g.results)
    && (forall t :: t in g.running ==> t < g.admitted)
    && (forall t :: t in g.results ==> t < g.admitted)
    && (forall t: nat :: t < g.admitted ==> t in g.running || t in g.results)
  }

  /** Whether `e` can happen now: admission needs a free permit and a URL
      left; only a running task can finish. */
  predicate Enabled<O>(g: Gate<O>, n: nat, e: Event<O>)
    ensures Enabled(g, n, e) && Inv(g, n) && e.Admit? ==> |g.running| < g.limit && g.admitted < n
    ensures Enabled(g, n, e) && Inv(g, n) && e.Finish? ==> e.task < g.admitted && e.task !in g.results
  {
    match e
    case Admit => g.admitted < n && g.available > 0
    case Finish(t, _) => t in g.running
  }

  /** The effect of an enabled event. Admission takes a permit for the next
      URL; finishing returns the task's permit and records its outcome,
      leaving every other task's outcome as it was. */
  function Step<O>(g: Gate<O>, n: nat, e: Event<O>): (g': Gate<O>)
    requires Enabled(g, n, e)
    ensures g'.limit == g.limit
    ensures e.Admit? ==> g'.admitted == g.admitted + 1 && g'.results == g.results
    ensures e.Finish? ==> g'.admitted == g.admitted && g'.results == g.results[e.task := e.outcome]
  {
    match e
    case Admit =>
      g.(available := g.available - 1, admitted := g.admitted + 1, running := g.running + {g.admitted})
    case Finish(t, o) =>
      g.(available := g.available + 1, running := g.running - {t}, results := g.results[t := o])
  }

  /** Every enabled event keeps the invariant, so the permits in use never
      exceed the limit and no task reports twice. */
  lemma StepPreservesInv<O>(g: Gate<O>, n: nat, e: Event<O>)
    requires Inv(g, n)
    requires Enabled(g, n, e)
    ensures Inv(Step(g, n, e), n)
    ensures |Step(g, n, e).running| <= g.limit
    ensures e.Finish? ==> e.task !in g.results
  {
    match e
    case Admit => AdmitPreservesInv(g, n);
    case Finish(t, o) => FinishPreservesInv(g, n, t, o);
  }

  /** Admitting the next URL keeps the invariant. */
  lemma AdmitPreservesInv<O>(g: Gate<O>, n: nat)
    requires Inv(g, n)
    requires Enabled(g, n, Admit)
    ensures Inv(Step(g, n, Admit), n)
  {
    var g' := Step(g, n, Admit);
    assert g.admitted !in g.running;
    assert |g'.running| == |g.running| + 1;
  }

  /** A running task finishing keeps the invariant, and it had not
      reported before. */
  lemma FinishPreservesInv<O>(g: Gate<O>, n: nat, t: nat, o: O)
    requires Inv(g, n)
    requires Enabled(g, n, Finish(t, o))
    ensures Inv(Step(g, n, Finish(t, o)), n)
    ensures t !in g.results
  {
    var g' := Step(g, n, Finish(t, o));
    assert |g'.running| == |g.running| - 1;
  }

  /** Running a sequence of events; None when some event is not enabled at
      its turn (an interleaving that cannot happen). */
  function Run<O>(g: Gate<O>, n: nat, events: seq<Event<O>>): (r: Option<Gate<O>>)
    ensures r.Some? ==> r.value.limit == g.limit && g.admitted <= r.value.admitted
    ensures r.Some? ==> g.results.Keys <= r.value.results.Keys
    ensures r.Some? ==> r.value.admitted <= g.admitted + |events|
    decreases |events|
  {
    if |events| == 0 then Some(g)
    else if Enabled(g, n, events[0]) then Run(Step(g, n, events[0]), n, events[1..])
    else None
  }

  /** The invariant holds after every possible interleaving. */
  lemma {:induction false} RunPreservesInv<O>(g: Gate<O>, n: nat, events: seq<Event<O>>)
    requires Inv(g, n)
    ensures Run(g, n, events).Some? ==> Inv(Run(g, n, events).value, n)
    ensures Run(g, n, events).Some? ==> |Run(g, n, events).value.running| <= g.limit
    decreases |events|
  {
    if |events| > 0 && Enabled(g, n, events[0]) {
      StepPreservesInv(g, n, events[0]);
      RunPreservesInv(Step(g, n, events[0]), n, events[1..]);
    }
  }

  /** Once every URL is admitted and no task is running, every URL has
      exactly one outcome and every permit is back. */
  lemma AllReported<O>(g: Gate<O>, n: nat)
    requires Inv(g, n)
    requires g.admitted == n && g.running == {}
    ensures g.results.Keys == Tasks(n)
    ensures |g.results| == n
    ensures g.available == g.limit
  {
    assert g.results.Keys == Tasks(n);
  }

  /** The run set-up as the source writes it: no URLs ends the program
      before the gate exists; any concurrency value is accepted as the
      number of permits. */
  function ConfigureAsWritten(limit: nat, n: nat): (r: Result<nat, ConfigError>)
    ensures r.Ok? <==> n > 0
    ensures r.Ok? ==> r.value == limit
  {
    if n == 0 then Err(NoUrls) else Ok(limit)
  }

  /** As written, a concurrency of 0 admits no URL ever: from the initial
      gate no event is enabled, so the main loop waits for a permit
      forever. */
  lemma ZeroLimitAdmitsNothing<O>(n: nat, events: seq<Event<O>>)
    requires n > 0
    ensures ConfigureAsWritten(0, n) == Ok(0)
    ensures Run(Initial<O>(ConfigureAsWritten(0, n).value), n, events).Some? ==> events == []
  {
    var g := Initial<O>(ConfigureAsWritten(0, n).value);
    if |events| > 0 {
      assert !Enabled(g, n, events[0]);
    }
  }

  /** The run set-up with a concurrency of 0 rejected as a configuration
      error, like an empty URL list. */
  function Configure(limit: nat, n: nat): (r: Result<nat, ConfigError>)
    ensures r.Ok? <==> n > 0 && limit > 0
    ensures r == Err(ZeroConcurrency) <==> n > 0 && limit == 0
    ensures r.Ok? ==> r.value == limit
  {
    if n == 0 then Err(NoUrls)
    else if limit == 0 then Err(ZeroConcurrency)
    else Ok(limit)
  }

  /** With at least one permit the run never gets stuck: until every URL
      is admitted and every task has finished, either the next URL can be
      admitted or some task can finish. */
  lemma PositiveLimitNeverStuck<O>(g: Gate<O>, n: nat)
    requires Inv(g, n)
    requires g.limit > 0
    ensures (g.admitted == n && g.running == {}) || (g.admitted < n && g.available > 0) || g.running != {}
  {
  }

  /** Every interleaving from the gate the source sets up, whatever the
      concurrency (0 included), keeps the accounting invariant and never
      holds more permits than the concurrency. */
  lemma ConfiguredRunsKeepInv<O>(limit: nat, n: nat, events: seq<Event<O>>)
    requires ConfigureAsWritten(limit, n).Ok?
    ensures var g := Initial<O>(ConfigureAsWritten(limit, n).value);
            Run(g, n, events).Some? ==>
              Inv(Run(g, n, events).value, n) && |Run(g, n, events).value.running| <= limit
  {
    RunPreservesInv(Initial<O>(ConfigureAsWritten(limit, n).value), n, events);
  }

  /** With the corrected set-up, no interleaving gets stuck: after any run
      of events either every URL is admitted and every task has finished,
      or the next URL can be admitted, or some running task can finish. */
  lemma ConfiguredRunsNeverStuck<O>(limit: nat, n: nat, events: seq<Event<O>>)
    requires Configure(limit, n).Ok?
    ensures var g := Initial<O>(Configure(limit, n).value);
            Run(g, n, events).Some? ==>
              var h := Run(g, n, events).value;
              (h.admitted == n && h.running == {}) || Enabled(h, n, Admit) || h.running != {}
  {
    var g := Initial<O>(limit);
    RunPreservesInv(g, n, events);
    if Run(g, n, events).Some? {
      PositiveLimitNeverStuck(Run(g, n, events).value, n);
    }
  }

  /** Outcomes are final: along any interleaving from a gate meeting the
      invariant, a recorded outcome is never replaced. */
  lemma {:induction false} RunKeepsOutcomes<O>(g: Gate<O>, n: nat, events: seq<Event<O>>)
    requires Inv(g, n)
    ensures Run(g, n, events).Some? ==>
              forall t :: t in g.results ==> t in Run(g, n, events).value.results &&
                                              Run(g, n, events).value.results[t] == g.results[t]
    decreases |events|
  {
    if |events| > 0 && Enabled(g, n, events[0]) {
      StepPreservesInv(g, n, events[0]);
      RunKeepsOutcomes(Step(g, n, events[0]), n, events[1..]);
    }
  }
}
