/**
 * The duty of the two caches: a published success answers every later caller for its key until its time
 * is over, whatever happens in between. And what a caller keeps from step to step.
 */
module FreshAnswers {
  import opened Common
  import opened SingleFlight

  /** A run together with the steps it takes. */
  ghost predicate Trace<V(!new)>(run: seq<State<V>>, steps: seq<Step<V>>, p: Policy) {
    && |run| == |steps| + 1 && Initial(run[0])
    && forall i :: 0 <= i < |steps| ==> TakesStep(run[i], steps[i], run[i + 1], p)
  }

  ghost predicate TakesStep<V(!new)>(s: State<V>, step: Step<V>, s': State<V>, p: Policy) {
    Enabled(s, step, p) && s' == After(s, step, p)
  }

  lemma {:induction false} EveryRunHasSteps<V(!new)>(run: seq<State<V>>, p: Policy) returns (steps: seq<Step<V>>)
    requires Run(run, p)
    ensures Trace(run, steps, p)
  {
    hide Initial, Enabled, After;
    steps := [];
    for i := 0 to |run| - 1
      invariant |steps| == i
      invariant forall j :: 0 <= j < i ==> TakesStep(run[j], steps[j], run[j + 1], p)
    {
      assert Next(run[i], run[i + 1], p);
      var step :| Enabled(run[i], step, p) && run[i + 1] == After(run[i], step, p);
      steps := steps + [step];
    }
  }

  /** The step ends a flight for `key` with a success. */
  predicate Succeeds<V>(s: State<V>, step: Step<V>, key: string) {
    step.Publish? && step.t in s.callers && s.callers[step.t].Publishing? && s.callers[step.t].key == key
    && s.callers[step.t].outcome.Ok?
  }

  /** The reading from which the answer published by this step is kept: the one after the call, or the leader's own. */
  function KeptFrom<V>(s: State<V>, step: Step<V>, p: Policy): int
    requires step.Publish? && step.t in s.callers
  {
    if p.fromCompletion then step.completedAt else s.callers[step.t].now
  }

  /** The cache holds `value` for `key` until `until`, from this flight. */
  ghost predicate Holds<V>(s: State<V>, key: string, value: V, until: int, flight: FlightId) {
    key in s.shared.cache && s.shared.cache[key] == Entry(value, until, flight)
  }

  lemma SuccessIsStored<V>(s: State<V>, step: Step<V>, p: Policy, key: string)
    requires Enabled(s, step, p) && Succeeds(s, step, key)
    ensures var c := s.callers[step.t];
            Holds(After(s, step, p), key, c.outcome.value, KeptFrom(s, step, p) + p.ttl, c.flight)
  {
  }

  /** No step but a success for the same key touches the entry. */
  lemma EntrySurvives<V>(s: State<V>, step: Step<V>, p: Policy, key: string, value: V, until: int, flight: FlightId)
    requires Enabled(s, step, p) && !Succeeds(s, step, key) && Holds(s, key, value, until, flight)
    ensures Holds(After(s, step, p), key, value, until, flight)
  {
    hide EnterCaller;
  }

  /** Between a success and the next one for its key the cache holds the first one. */
  lemma {:induction false} SuccessIsKept<V(!new)>(run: seq<State<V>>, steps: seq<Step<V>>, p: Policy, key: string,
                                                  i: nat, j: nat)
    requires Trace(run, steps, p) && i < j <= |steps| && Succeeds(run[i], steps[i], key)
    requires forall m :: i < m < j ==> !Succeeds(run[m], steps[m], key)
    ensures var c := run[i].callers[steps[i].t];
            Holds(run[j], key, c.outcome.value, KeptFrom(run[i], steps[i], p) + p.ttl, c.flight)
    decreases j
  {
    assert TakesStep(run[j - 1], steps[j - 1], run[j - 1 + 1], p);
    var c := run[i].callers[steps[i].t];
    var until := KeptFrom(run[i], steps[i], p) + p.ttl;
    if j == i + 1 {
      SuccessIsStored(run[i], steps[i], p, key);
    } else {
      SuccessIsKept(run, steps, p, key, i, j - 1);
      hide Trace, Enabled, After, Succeeds, Holds, KeptFrom;
      EntrySurvives(run[j - 1], steps[j - 1], p, key, c.outcome.value, until, c.flight);
    }
  }

  lemma FreshEntryAnswers<V>(s: State<V>, t: CallerId, p: Policy, key: string, value: V, until: int, flight: FlightId)
    requires Enabled(s, Step<V>.Enter(t), p) && Holds(s, key, value, until, flight)
    requires s.callers[t].key == key && s.callers[t].now < until
    ensures After(s, Step<V>.Enter(t), p)
            == s.(callers := s.callers[t := Done(key, s.callers[t].now, Ok(value), Hit(flight))])
  {
  }

  /** Callers are never removed and keep their key and reading; whoever has an outcome keeps it; `Done` is final. */
  lemma CallerKeeps<V>(s: State<V>, step: Step<V>, p: Policy, t: CallerId)
    requires Enabled(s, step, p) && t in s.callers
    ensures var before := s.callers[t];
            t in After(s, step, p).callers &&
            var after := After(s, step, p).callers[t];
            && after.key == before.key && after.now == before.now
            && (before.Done? ==> after == before)
            && (HasOutcome(before) ==> HasOutcome(after) && after.outcome == before.outcome)
  {
    hide EnterShared, PublishShared;
  }

  predicate HasOutcome<V>(c: Caller<V>) { c.Returned? || c.Publishing? || c.Done? }

  lemma {:induction false} CallerKeepsLater<V(!new)>(run: seq<State<V>>, steps: seq<Step<V>>, p: Policy, t: CallerId,
                                                     i: nat, j: nat)
    requires Trace(run, steps, p) && i <= j <= |steps| && t in run[i].callers
    ensures t in run[j].callers
    ensures var before, after := run[i].callers[t], run[j].callers[t];
            && after.key == before.key && after.now == before.now
            && (before.Done? ==> after == before)
            && (HasOutcome(before) ==> HasOutcome(after) && after.outcome == before.outcome)
    decreases j
  {
    if i < j {
      CallerKeepsLater(run, steps, p, t, i, j - 1);
      assert TakesStep(run[j - 1], steps[j - 1], run[j - 1 + 1], p);
      hide Trace, Enabled, After, HasOutcome;
      CallerKeeps(run[j - 1], steps[j - 1], p, t);
    }
  }

  /**
   * After a success for `key` and before the next one, every caller for `key` whose reading is before the
   * end of its time to live is answered with it, at once and for good: it never waits and never leads.
   */
  lemma FreshAnswerIsHit<V(!new)>(run: seq<State<V>>, steps: seq<Step<V>>, p: Policy, key: string, i: nat, j: nat,
                                  later: nat)
    requires Trace(run, steps, p) && i < j < later <= |steps| && Succeeds(run[i], steps[i], key)
    requires forall m :: i < m < j ==> !Succeeds(run[m], steps[m], key)
    requires steps[j].Enter? && steps[j].t in run[j].callers && run[j].callers[steps[j].t].key == key
    requires run[j].callers[steps[j].t].now < KeptFrom(run[i], steps[i], p) + p.ttl
    ensures var leader, t := run[i].callers[steps[i].t], steps[j].t;
            && run[j + 1].shared == run[j].shared
            && t in run[later].callers
            && run[later].callers[t] == Done(key, run[j].callers[t].now, leader.outcome, Hit(leader.flight))
  {
    SuccessIsKept(run, steps, p, key, i, j);
    assert TakesStep(run[j], steps[j], run[j + 1], p);
    var c, t := run[i].callers[steps[i].t], steps[j].t;
    var until := KeptFrom(run[i], steps[i], p) + p.ttl;
    assert steps[j] == Step<V>.Enter(t);
    FreshEntryAnswers(run[j], t, p, key, c.outcome.value, until, c.flight);
    hide Trace, Enabled, After, Succeeds, Holds, KeptFrom;
    CallerKeepsLater(run, steps, p, t, j + 1, later);
  }

  /** `poolExists`: within 30 seconds of the leader's own reading its success answers everybody. */
  lemma PoolAnswerIsReused(run: seq<State<bool>>, steps: seq<Step<bool>>, key: string, i: nat, j: nat)
    requires Trace(run, steps, POOL_POLICY) && i < j < |steps| && Succeeds(run[i], steps[i], key)
    requires forall m :: i < m < j ==> !Succeeds(run[m], steps[m], key)
    requires steps[j].Enter? && steps[j].t in run[j].callers && run[j].callers[steps[j].t].key == key
    requires run[j].callers[steps[j].t].now - run[i].callers[steps[i].t].now < 30_000_000_000
    ensures var t := steps[j].t;
            Finished(run[j + 1], t) && run[j + 1].callers[t].via.Hit? &&
            run[j + 1].callers[t].outcome == run[i].callers[steps[i].t].outcome
  {
    FreshAnswerIsHit(run, steps, POOL_POLICY, key, i, j, j + 1);
  }

  /** `cachedTokens`: within the TTL of the reading taken after the call its success answers everybody. */
  lemma TokenAnswerIsReused<V(!new)>(run: seq<State<V>>, steps: seq<Step<V>>, ttl: int, key: string, i: nat, j: nat)
    requires Trace(run, steps, TokenPolicy(ttl)) && i < j < |steps| && Succeeds(run[i], steps[i], key)
    requires forall m :: i < m < j ==> !Succeeds(run[m], steps[m], key)
    requires steps[j].Enter? && steps[j].t in run[j].callers && run[j].callers[steps[j].t].key == key
    requires run[j].callers[steps[j].t].now - steps[i].completedAt < ttl
    ensures var t := steps[j].t;
            Finished(run[j + 1], t) && run[j + 1].callers[t].via.Hit? &&
            run[j + 1].callers[t].outcome == run[i].callers[steps[i].t].outcome
  {
    FreshAnswerIsHit(run, steps, TokenPolicy(ttl), key, i, j, j + 1);
  }

  /** A leader answers with what its own remote call gave, and with nothing else. */
  lemma LeaderAnswersItsCall<V(!new)>(run: seq<State<V>>, steps: seq<Step<V>>, p: Policy, i: nat, later: nat)
    requires Trace(run, steps, p) && i < later <= |steps| && steps[i].Return?
    ensures var t := steps[i].t;
            t in run[later].callers && HasOutcome(run[later].callers[t])
            && run[later].callers[t].outcome == steps[i].outcome
  {
    assert TakesStep(run[i], steps[i], run[i + 1], p);
    var t := steps[i].t;
    assert run[i + 1].callers[t].Returned? && run[i + 1].callers[t].outcome == steps[i].outcome;
    hide Trace, Enabled, After;
    CallerKeepsLater(run, steps, p, t, i + 1, later);
  }
}
