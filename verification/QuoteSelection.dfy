/**
 * Concurrent quoting (dex/univ3/quote_client.go): goroutines answer in any order, and the pools found and the
 * candidate chosen do not depend on that order.
 */
module QuoteSelection {
  import opened Common
  import opened PoolKeys
  import opened QuotePath
  import opened QuoteRoutes

  // ---- bestQuotedCandidate ------------------------------------------------------------------------------

  /** What `quoteCandidate` returns for one candidate: an amount that may be nil, and an error that may be nil. */
  datatype Answer<E> = Answer(amount: Option<int>, err: Option<E>)

  datatype Arrival<E> = Arrival(index: nat, answer: Answer<E>)

  ghost predicate Arrived<E>(arrivals: seq<Arrival<E>>, i: nat) {
    exists k :: 0 <= k < |arrivals| && arrivals[k].index == i
  }

  /** Every candidate is answered, and an answer carries the index it belongs to. */
  ghost predicate IsSchedule<E>(arrivals: seq<Arrival<E>>, answers: seq<Answer<E>>) {
    && (forall k ::
         0 <= k < |arrivals| ==> arrivals[k].index < |answers| && arrivals[k].answer == answers[arrivals[k].index])
    && (forall i :: 0 <= i < |answers| ==> Arrived(arrivals, i))
  }

  predicate Usable<E>(a: Answer<E>) { a.err.None? && a.amount.Some? && a.amount.value > 0 }

  /** `expected` is `isExpectedQuoterFailure`. */
  predicate Infrastructure<E>(a: Answer<E>, expected: E -> bool) { a.err.Some? && !expected(a.err.value) }

  datatype Selection<E> = Best(index: nat) | Failed(err: E) | NoneUsable | Canceled(err: E)

  /**
   * The selection by what it means: the first of the largest amounts, or the first infrastructure error, or nothing.
   */
  ghost predicate IsSelection<E>(answers: seq<Answer<E>>, expected: E -> bool, s: Selection<E>) {
    match s
    case Best(i) =>
      && i < |answers| && Usable(answers[i])
      && (forall j :: 0 <= j < |answers| && Usable(answers[j]) ==> answers[j].amount.value <= answers[i].amount.value)
      && (forall j :: 0 <= j < i && Usable(answers[j]) ==> answers[j].amount.value < answers[i].amount.value)
    case Failed(e) =>
      && (forall j :: 0 <= j < |answers| ==> !Usable(answers[j]))
      && (exists i :: 0 <= i < |answers| && Infrastructure(answers[i], expected) && answers[i].err == Some(e)
                      && forall j :: 0 <= j < i ==> !Infrastructure(answers[j], expected))
    case NoneUsable =>
      forall j :: 0 <= j < |answers| ==> !Usable(answers[j]) && !Infrastructure(answers[j], expected)
    case Canceled(_) => false
  }

  /** The amounts that arrived are kept with their candidates. */
  function Priced<E>(viable: seq<Candidate>, answers: seq<Answer<E>>): seq<Candidate>
    requires |viable| == |answers|
  {
    seq(|viable|, i requires 0 <= i < |viable| =>
      if Usable(answers[i]) then viable[i].(amountOut := Some(answers[i].amount.value)) else viable[i])
  }

  /** The collecting loop: whatever the order, every slot ends up with its own answer. */
  method Collect<E>(n: nat, arrivals: seq<Arrival<E>>, ghost answers: seq<Answer<E>>)
    returns (amounts: array<Option<int>>, errorsByIndex: array<Option<E>>)
    requires n == |answers| && IsSchedule(arrivals, answers)
    ensures fresh(amounts) && fresh(errorsByIndex) && amounts.Length == n && errorsByIndex.Length == n
    ensures forall i :: 0 <= i < n ==> Answer(amounts[i], errorsByIndex[i]) == answers[i]
  {
    amounts := new Option<int>[n](_ => None);
    errorsByIndex := new Option<E>[n](_ => None);
    for k := 0 to |arrivals|
      invariant forall j ::
                  0 <= j < k ==>
                      Answer(amounts[arrivals[j].index], errorsByIndex[arrivals[j].index]) == arrivals[j].answer
    {
      var result := arrivals[k];
      amounts[result.index] := result.answer.amount;
      errorsByIndex[result.index] := result.answer.err;
    }
    forall i | 0 <= i < n ensures Answer(amounts[i], errorsByIndex[i]) == answers[i] {
      assert Arrived(arrivals, i);
      var k :| 0 <= k < |arrivals| && arrivals[k].index == i;
    }
  }

  ghost predicate BestSoFar<E>(answers: seq<Answer<E>>, seen: nat, best: Option<nat>)
    requires seen <= |answers|
  {
    match best
    case None => forall j :: 0 <= j < seen ==> !Usable(answers[j])
    case Some(i) =>
      && i < seen && Usable(answers[i])
      && (forall j :: 0 <= j < seen && Usable(answers[j]) ==> answers[j].amount.value <= answers[i].amount.value)
      && (forall j :: 0 <= j < i && Usable(answers[j]) ==> answers[j].amount.value < answers[i].amount.value)
  }

  ghost predicate FirstErrorSoFar<E>(answers: seq<Answer<E>>, seen: nat, first: Option<E>, expected: E -> bool)
    requires seen <= |answers|
  {
    if first.None? then forall j :: 0 <= j < seen ==> !Infrastructure(answers[j], expected)
    else exists i :: 0 <= i < seen && Infrastructure(answers[i], expected) && answers[i].err == first
                     && forall j :: 0 <= j < i ==> !Infrastructure(answers[j], expected)
  }

  lemma NothingSeen<E>(answers: seq<Answer<E>>, expected: E -> bool)
    ensures BestSoFar(answers, 0, None) && FirstErrorSoFar(answers, 0, None, expected)
  {
  }

  lemma BestStep<E>(answers: seq<Answer<E>>, i: nat, best: Option<nat>)
    requires i < |answers| && BestSoFar(answers, i, best)
    ensures best.Some? ==> best.value < i && Usable(answers[best.value])
    ensures BestSoFar(answers, i + 1,
                      if Usable(answers[i])
                         && (best.None? || answers[i].amount.value > answers[best.value].amount.value)
                      then Some(i) else best)
  {
  }

  lemma FirstErrorStep<E>(answers: seq<Answer<E>>, i: nat, first: Option<E>, expected: E -> bool)
    requires i < |answers| && FirstErrorSoFar(answers, i, first, expected)
    ensures FirstErrorSoFar(answers, i + 1,
                            if Infrastructure(answers[i], expected) && first.None? then answers[i].err else first,
                            expected)
  {
  }

  lemma SelectionAtEnd<E>(answers: seq<Answer<E>>, best: Option<nat>, first: Option<E>, expected: E -> bool)
    requires BestSoFar(answers, |answers|, best) && FirstErrorSoFar(answers, |answers|, first, expected)
    ensures IsSelection(answers, expected,
                        if best.Some? then Best(best.value)
                        else if first.Some? then Failed(first.value) else NoneUsable)
  {
  }

  /** `cancelled` is the error of the context after the last answer. */
  method BestQuotedCandidate<E>(viable: array<Candidate>, arrivals: seq<Arrival<E>>, ghost answers: seq<Answer<E>>,
                                cancelled: Option<E>, expected: E -> bool)
    returns (s: Selection<E>)
    requires viable.Length == |answers| && IsSchedule(arrivals, answers)
    modifies viable
    ensures cancelled.Some? ==> s == Canceled(cancelled.value) && viable[..] == old(viable[..])
    ensures cancelled.None? ==> IsSelection(answers, expected, s) && viable[..] == Priced(old(viable[..]), answers)
  {
    hide IsSchedule, BestSoFar, FirstErrorSoFar, IsSelection, Arrived;
    NothingSeen(answers, expected);
    var n := viable.Length;
    var amounts, errorsByIndex := Collect(n, arrivals, answers);
    if cancelled.Some? {
      return Canceled(cancelled.value);
    }
    ghost var before := viable[..];
    var best: Option<nat> := None;
    var firstInfrastructureError: Option<E> := None;
    for i := 0 to n
      invariant forall j :: 0 <= j < n ==> Answer(amounts[j], errorsByIndex[j]) == answers[j]
      invariant forall j :: 0 <= j < i ==> viable[j] == Priced(before, answers)[j]
      invariant forall j :: i <= j < n ==> viable[j] == before[j]
      invariant BestSoFar(answers, i, best)
      invariant FirstErrorSoFar(answers, i, firstInfrastructureError, expected)
    {
      assert Answer(amounts[i], errorsByIndex[i]) == answers[i];
      BestStep(answers, i, best);
      FirstErrorStep(answers, i, firstInfrastructureError, expected);
      if errorsByIndex[i].Some? {
        if !expected(errorsByIndex[i].value) && firstInfrastructureError.None? {
          firstInfrastructureError := errorsByIndex[i];
        }
        continue;
      }
      if amounts[i].None? || amounts[i].value <= 0 {
        continue;
      }
      viable[i] := viable[i].(amountOut := Some(amounts[i].value));
      if best.None? || amounts[i].value > viable[best.value].amountOut.value {
        best := Some(i);
      }
    }
    assert viable[..] == Priced(before, answers);
    SelectionAtEnd(answers, best, firstInfrastructureError, expected);
    if best.None? {
      return if firstInfrastructureError.Some? then Failed(firstInfrastructureError.value) else NoneUsable;
    }
    return Best(best.value);
  }

  /** The meaning leaves exactly one selection, so no two completion orders can disagree. */
  lemma SelectionIsUnique<E>(answers: seq<Answer<E>>, expected: E -> bool, s: Selection<E>, t: Selection<E>)
    requires IsSelection(answers, expected, s) && IsSelection(answers, expected, t)
    ensures s == t
  {
    if s.Best? && t.Best? {
      assert answers[s.index].amount.value == answers[t.index].amount.value;
    } else if s.Failed? && t.Failed? {
      var i :| 0 <= i < |answers| && Infrastructure(answers[i], expected) && answers[i].err == Some(s.err)
               && forall j :: 0 <= j < i ==> !Infrastructure(answers[j], expected);
      var j :| 0 <= j < |answers| && Infrastructure(answers[j], expected) && answers[j].err == Some(t.err)
               && forall k :: 0 <= k < j ==> !Infrastructure(answers[k], expected);
      assert i == j;
    }
  }

  /** What arrives for each candidate is the same in every order of arrival. */
  lemma ScheduleIgnoresOrder<E>(arrivals: seq<Arrival<E>>, other: seq<Arrival<E>>, answers: seq<Answer<E>>)
    requires multiset(arrivals) == multiset(other) && IsSchedule(arrivals, answers)
    ensures IsSchedule(other, answers)
  {
    forall k | 0 <= k < |other|
      ensures other[k].index < |answers| && other[k].answer == answers[other[k].index]
    {
      assert other[k] in multiset(arrivals);
      var j :| 0 <= j < |arrivals| && arrivals[j] == other[k];
    }
    forall i | 0 <= i < |answers| ensures Arrived(other, i) {
      assert Arrived(arrivals, i);
      var k :| 0 <= k < |arrivals| && arrivals[k].index == i;
      assert arrivals[k] in multiset(other);
      var j :| 0 <= j < |other| && other[j] == arrivals[k];
    }
  }

  /** Two orders of the same arrivals are schedules of the same answers, so they end in the same selection. */
  lemma SelectionIgnoresOrder<E>(arrivals: seq<Arrival<E>>, other: seq<Arrival<E>>, a: seq<Answer<E>>,
                                 b: seq<Answer<E>>,
                                 expected: E -> bool, s: Selection<E>, t: Selection<E>)
    requires multiset(arrivals) == multiset(other) && |a| == |b| && IsSchedule(arrivals, a) && IsSchedule(other, b)
    requires IsSelection(a, expected, s) && IsSelection(b, expected, t)
    ensures a == b && s == t
  {
    ScheduleIgnoresOrder(arrivals, other, a);
    forall i | 0 <= i < |a| ensures a[i] == b[i] {
      assert Arrived(other, i);
      var k :| 0 <= k < |other| && other[k].index == i;
    }
    hide IsSchedule;
    SelectionIsUnique(a, expected, s, t);
  }

  // ---- resolveCandidatePools ----------------------------------------------------------------------------

  datatype PoolArrival<E> = PoolArrival(key: string, outcome: Result<bool, E>)

  predicate Malformed(c: Candidate) { |c.hops.tokens| != |c.hops.fees| + 1 || |c.path| == 0 }

  function HopKey(c: Candidate, i: nat): string
    requires !Malformed(c) && i < |c.hops.fees|
  {
    PoolKey(c.hops.tokens[i], c.hops.tokens[i + 1], c.hops.fees[i])
  }

  predicate IsHopKey(c: Candidate, key: string)
    requires !Malformed(c)
  {
    exists i :: 0 <= i < |c.hops.fees| && HopKey(c, i) == key
  }

  predicate IsPoolKey(cs: seq<Candidate>, key: string)
    requires forall i :: 0 <= i < |cs| ==> !Malformed(cs[i])
  {
    exists i :: 0 <= i < |cs| && IsHopKey(cs[i], key)
  }

  datatype PoolRequest = PoolRequest(tokenA: Address, tokenB: Address, fee: Uint32)

  /** The request stored under a key asks for the pool of that key. */
  ghost predicate RequestsOk(requests: map<string, PoolRequest>) {
    forall key :: key in requests ==> PoolKey(requests[key].tokenA, requests[key].tokenB, requests[key].fee) == key
  }

  /** The first loop: every pool of every candidate, each under its key. */
  method UniqueRequests(cs: seq<Candidate>) returns (r: Option<map<string, PoolRequest>>)
    ensures r.None? <==> exists i :: 0 <= i < |cs| && Malformed(cs[i])
    ensures r.Some? ==> RequestsOk(r.value) && forall key :: key in r.value <==> IsPoolKey(cs, key)
  {
    hide PoolKey;
    var unique: map<string, PoolRequest> := map[];
    for n := 0 to |cs|
      invariant forall i :: 0 <= i < n ==> !Malformed(cs[i])
      invariant RequestsOk(unique)
      invariant forall key :: key in unique <==> exists i :: 0 <= i < n && IsHopKey(cs[i], key)
    {
      var candidate := cs[n];
      if |candidate.hops.tokens| != |candidate.hops.fees| + 1 || |candidate.path| == 0 {
        return None;
      }
      ghost var before := unique;
      unique := AddRequests(unique, candidate);
    }
    return Some(unique);
  }

  method AddRequests(before: map<string, PoolRequest>, c: Candidate) returns (unique: map<string, PoolRequest>)
    requires RequestsOk(before) && !Malformed(c)
    ensures RequestsOk(unique) && forall key :: key in unique <==> key in before || IsHopKey(c, key)
  {
    hide PoolKey;
    unique := before;
    for i := 0 to |c.hops.fees|
      invariant RequestsOk(unique)
      invariant forall key :: key in unique <==> key in before || exists k :: 0 <= k < i && HopKey(c, k) == key
    {
      var request := PoolRequest(c.hops.tokens[i], c.hops.tokens[i + 1], c.hops.fees[i]);
      unique := unique[PoolKey(request.tokenA, request.tokenB, c.hops.fees[i]) := request];
      assert HopKey(c, i) in unique;
    }
  }

  ghost predicate KeyArrived<E>(arrivals: seq<PoolArrival<E>>, key: string) {
    exists k :: 0 <= k < |arrivals| && arrivals[k].key == key
  }

  /** One answer for every key, in any order. */
  ghost predicate IsPoolSchedule<E>(arrivals: seq<PoolArrival<E>>, answers: map<string, Result<bool, E>>) {
    && (forall k ::
         0 <= k < |arrivals| ==> arrivals[k].key in answers && arrivals[k].outcome == answers[arrivals[k].key])
    && (forall key :: key in answers ==> KeyArrived(arrivals, key))
  }

  /** The pools that could be looked up. */
  ghost function Known<E>(answers: map<string, Result<bool, E>>): map<string, bool> {
    map key | key in answers && answers[key].Ok? :: answers[key].value
  }

  ghost predicate AnyFailed<E>(answers: map<string, Result<bool, E>>) {
    exists key :: key in answers && answers[key].Err?
  }

  /** A missing key reads as false. */
  predicate PoolsExist(c: Candidate, states: map<string, bool>) {
    !Malformed(c) && forall i :: 0 <= i < |c.hops.fees| ==> HopKey(c, i) in states && states[HopKey(c, i)]
  }

  method CandidatePoolsExist(c: Candidate, states: map<string, bool>) returns (b: bool)
    ensures b == PoolsExist(c, states)
  {
    hide PoolKey;
    if |c.hops.tokens| != |c.hops.fees| + 1 || |c.path| == 0 {
      return false;
    }
    for i := 0 to |c.hops.fees|
      invariant forall k :: 0 <= k < i ==> HopKey(c, k) in states && states[HopKey(c, k)]
    {
      var key := PoolKey(c.hops.tokens[i], c.hops.tokens[i + 1], c.hops.fees[i]);
      assert key == HopKey(c, i);
      if key !in states || !states[key] {
        return false;
      }
    }
    return true;
  }

  /** `e` is the first error to arrive. */
  ghost predicate FirstToFail<E>(arrivals: seq<PoolArrival<E>>, e: E) {
    exists k ::
      0 <= k < |arrivals| && arrivals[k].outcome == Err(e) && forall j :: 0 <= j < k ==> arrivals[j].outcome.Ok?
  }

  method CollectPools<E>(arrivals: seq<PoolArrival<E>>, ghost answers: map<string, Result<bool, E>>)
    returns (states: map<string, bool>, firstError: Option<E>)
    requires IsPoolSchedule(arrivals, answers)
    ensures states == Known(answers)
    ensures firstError.Some? <==> AnyFailed(answers)
    ensures firstError.Some? ==> FirstToFail(arrivals, firstError.value)
    ensures firstError.Some? ==> exists key :: key in answers && answers[key] == Err(firstError.value)
  {
    states := map[];
    firstError := None;
    for k := 0 to |arrivals|
      invariant forall key :: key in states ==> key in answers && answers[key] == Ok(states[key])
      invariant forall j :: 0 <= j < k && arrivals[j].outcome.Ok? ==> arrivals[j].key in states
      invariant firstError.None? ==> forall j :: 0 <= j < k ==> arrivals[j].outcome.Ok?
      invariant firstError.Some? ==> FirstToFail(arrivals, firstError.value)
      invariant firstError.Some? ==> exists key :: key in answers && answers[key] == Err(firstError.value)
    {
      var result := arrivals[k];
      assert result.key in answers;
      if result.outcome.Err? {
        if firstError.None? {
          firstError := Some(result.outcome.error);
        }
        continue;
      }
      states := states[result.key := result.outcome.value];
    }
  }

  datatype ResolveError<E> = MalformedCandidate | CanceledWith(err: E) | NoUsableRoute(first: E)

  ghost predicate AnyPoolsExist(cs: seq<Candidate>, states: map<string, bool>) {
    exists i :: 0 <= i < |cs| && PoolsExist(cs[i], states)
  }

  ghost predicate AnyMalformed(cs: seq<Candidate>) { exists i :: 0 <= i < |cs| && Malformed(cs[i]) }

  /**
   * The outcome of pool discovery when nobody cancels: of the answers only, never of their order, but for the error
   * reported.
   */
  ghost predicate IsResolution<E>(cs: seq<Candidate>, answers: map<string, Result<bool, E>>,
                                  r: Result<map<string, bool>, ResolveError<E>>) {
    match r
    case Ok(states) => states == Known(answers) && (AnyFailed(answers) ==> AnyPoolsExist(cs, states))
    case Err(NoUsableRoute(first)) =>
      !AnyPoolsExist(cs, Known(answers)) && exists key :: key in answers && answers[key] == Err(first)
    case Err(_) => false
  }

  method AnyCandidateUsable(cs: seq<Candidate>, states: map<string, bool>) returns (b: bool)
    ensures b == AnyPoolsExist(cs, states)
  {
    hide PoolsExist;
    for i := 0 to |cs|
      invariant forall j :: 0 <= j < i ==> !PoolsExist(cs[j], states)
    {
      var exist := CandidatePoolsExist(cs[i], states);
      if exist {
        return true;
      }
    }
    return false;
  }

  /** `before` and `after` are the errors of the context at the two places where it is asked. */
  method ResolveCandidatePools<E>(cs: seq<Candidate>, before: Option<E>, arrivals: seq<PoolArrival<E>>,
                                  ghost answers: map<string, Result<bool, E>>, after: Option<E>)
    returns (r: Result<map<string, bool>, ResolveError<E>>)
    requires !AnyMalformed(cs) ==>
               IsPoolSchedule(arrivals, answers) && forall key :: key in answers <==> IsPoolKey(cs, key)
    ensures AnyMalformed(cs) ==> r == Err(MalformedCandidate)
    ensures !AnyMalformed(cs) && before.Some? ==> r == Err(CanceledWith(before.value))
    ensures !AnyMalformed(cs) && before.None? && after.Some? ==> r == Err(CanceledWith(after.value))
    ensures !AnyMalformed(cs) && before.None? && after.None? ==>
              IsResolution(cs, answers, r) && (r.Err? ==> FirstToFail(arrivals, r.error.first))
    ensures r.Ok? ==> forall key :: key in r.value <==> key in answers && answers[key].Ok?
    ensures r.Ok? ==> forall key :: key in r.value ==> answers[key] == Ok(r.value[key])
  {
    var unique := UniqueRequests(cs);
    hide IsPoolSchedule, IsPoolKey, RequestsOk, FirstToFail, Malformed, AnyPoolsExist;
    if unique.None? {
      return Err(MalformedCandidate);
    }
    if before.Some? {
      return Err(CanceledWith(before.value));
    }
    var states, firstError := CollectPools(arrivals, answers);
    if after.Some? {
      return Err(CanceledWith(after.value));
    }
    if firstError.Some? {
      var usable := AnyCandidateUsable(cs, states);
      return if usable then Ok(states) else Err(NoUsableRoute(firstError.value));
    }
    return Ok(states);
  }

  /** Two orders of the same arrivals agree on success and on the pools found. */
  lemma ResolutionIgnoresOrder<E>(cs: seq<Candidate>, arrivals: seq<PoolArrival<E>>, other: seq<PoolArrival<E>>,
                                  answers: map<string, Result<bool, E>>,
                                  r: Result<map<string, bool>, ResolveError<E>>,
                                  q: Result<map<string, bool>, ResolveError<E>>)
    requires multiset(arrivals) == multiset(other) && IsPoolSchedule(arrivals, answers)
    requires IsResolution(cs, answers, r) && IsResolution(cs, answers, q)
    ensures IsPoolSchedule(other, answers)
    ensures r.Ok? == q.Ok? && (r.Ok? ==> r.value == q.value)
    ensures r.Ok? <==> !AnyFailed(answers) || AnyPoolsExist(cs, Known(answers))
  {
    forall k | 0 <= k < |other| ensures other[k].key in answers && other[k].outcome == answers[other[k].key] {
      assert other[k] in multiset(arrivals);
      var j :| 0 <= j < |arrivals| && arrivals[j] == other[k];
    }
    forall key | key in answers ensures KeyArrived(other, key) {
      assert KeyArrived(arrivals, key);
      var k :| 0 <= k < |arrivals| && arrivals[k].key == key;
      assert arrivals[k] in multiset(other);
      var j :| 0 <= j < |other| && other[j] == arrivals[k];
    }
  }

  /** A candidate is usable exactly when the pool of every two neighbours along it was looked up and exists. */
  lemma UsableMeansEveryPoolAnswered<E>(c: Candidate, answers: map<string, Result<bool, E>>)
    ensures PoolsExist(c, Known(answers)) <==>
            && |c.hops.tokens| == |c.hops.fees| + 1 && |c.path| > 0
            && forall i :: 0 <= i < |c.hops.fees| ==>
                             var key := PoolKey(c.hops.tokens[i], c.hops.tokens[i + 1], c.hops.fees[i]);
                             key in answers && answers[key] == Ok(true)
  {
    hide PoolKey;
    if !Malformed(c) {
      forall i | 0 <= i < |c.hops.fees|
        ensures HopKey(c, i) == PoolKey(c.hops.tokens[i], c.hops.tokens[i + 1], c.hops.fees[i])
      {
      }
    }
  }

  /** The pool of tokens `i` and `i + 1` of a candidate at fee `i` is the one of the key. */
  ghost predicate Neighbours(c: Candidate, i: nat, key: string) {
    i < |c.hops.fees| && i + 1 < |c.hops.tokens|
    && PoolKey(c.hops.tokens[i], c.hops.tokens[i + 1], c.hops.fees[i]) == key
  }

  /** The keys that are looked up: those of all neighbours of all candidates. */
  lemma PoolKeysExactly(cs: seq<Candidate>, key: string)
    requires forall i :: 0 <= i < |cs| ==> !Malformed(cs[i])
    ensures IsPoolKey(cs, key) <==> exists n: nat, i: nat :: n < |cs| && Neighbours(cs[n], i, key)
  {
    hide PoolKey;
    if IsPoolKey(cs, key) {
      var n :| 0 <= n < |cs| && IsHopKey(cs[n], key);
      var i :| 0 <= i < |cs[n].hops.fees| && HopKey(cs[n], i) == key;
      assert Neighbours(cs[n], i, key);
    }
    forall n: nat, i: nat | n < |cs| && Neighbours(cs[n], i, key) ensures IsPoolKey(cs, key) {
      assert HopKey(cs[n], i) == key;
      assert IsHopKey(cs[n], key);
    }
  }

  /** A selected candidate was answered without an error and with a positive amount; otherwise nobody was. */
  lemma SelectionSays<E>(answers: seq<Answer<E>>, expected: E -> bool, s: Selection<E>)
    requires IsSelection(answers, expected, s)
    ensures s.Best? ==>
              s.index < |answers| && answers[s.index].err == None
              && answers[s.index].amount.Some? && answers[s.index].amount.value > 0
    ensures !s.Best? ==>
              forall i :: 0 <= i < |answers| ==>
                answers[i].err.Some? || answers[i].amount.None? || answers[i].amount.value <= 0
    ensures s.Failed? <==> !s.Best? && exists i :: 0 <= i < |answers| && Unexpected(answers[i], expected)
  {
  }

  predicate Unexpected<E>(a: Answer<E>, expected: E -> bool) { a.err.Some? && !expected(a.err.value) }
}
