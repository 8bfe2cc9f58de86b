/** Collecting and ranking quotes (dex/engine.go). Amounts in dollars are reals. */
module QuoteEngine {
  import opened Common
  import opened Decimals

  const THIN_LIQUIDITY_RATIO: real := 0.05
  const WARN_THIN_LIQUIDITY := "THIN_LIQUIDITY"
  const WARN_PRICE_IMPACT_HIGH := "PRICE_IMPACT_HIGH"

  datatype Candidate = Candidate(channel: string, fromChain: string, toChain: string, toToken: string,
                                 sourceIssuer: string, liquidityUsd: real) {
    predicate CrossChain() { fromChain != toChain }
  }

  /** `amount` is the first route's output in whole units of the token. */
  datatype Quoted = Quoted(routeId: string, amount: real, priceImpactPct: real, warnings: seq<string>)

  datatype FailureCode = RateLimited | Timeout | ProviderError | NoRoute | ConfigurationError

  /** What `classifyQuoteFailure` asks of an error, in its order. */
  datatype QuoteError = QuoteError(isConfiguration: bool, status429: Option<int>, isDeadline: bool,
                                   textSaysRateLimited: bool)

  /** What a candidate's goroutine leaves behind: an error, no answer, or an answer with routes, best first. */
  datatype Answer = Error(err: QuoteError) | Nothing | Answered(channel: string, routes: seq<Quoted>)

  datatype Failure = Failure(position: nat, fromChain: string, toChain: string, toToken: string, sourceIssuer: string,
                             code: FailureCode, retryAfterSeconds: int)

  /** `position` is where the candidate stood; the source program does not keep it. */
  datatype Route = Route(position: nat, routeId: string, crossChain: bool, channel: string,
                         toAmountUsd: real, expectedFillUsd: real,
                         liquidityUsd: real, warnings: seq<string>, rank: nat, recommended: bool)

  datatype Request = Request(fromAmount: string, fromAmountUsd: real, toPriceUsd: real)

  datatype Reason =
    | NoReason | InvalidRequest | NoCandidate | InvalidAmount
    | QuoteConfigurationError | QuoteTimeout | QuoteRateLimited | QuoteProviderError | NoRouteAvailable

  datatype Response = Response(routes: seq<Route>, failures: seq<Failure>, reason: Reason)

  // ---- one candidate --------------------------------------------------------------------------------------

  function Classify(e: QuoteError): (FailureCode, int) {
    if e.isConfiguration then (ConfigurationError, 0)
    else if e.status429.Some? then (RateLimited, e.status429.value)
    else if e.isDeadline then (Timeout, 0)
    else if e.textSaysRateLimited then (RateLimited, 0)
    else (ProviderError, 0)
  }

  predicate HasRoute(a: Answer) { a.Answered? && a.routes != [] }

  function FailureOf(i: nat, c: Candidate, a: Answer): Failure
    requires !HasRoute(a)
  {
    var code := match a
      case Error(e) => Classify(e)
      case Nothing => (ProviderError, 0)
      case Answered(_, _) => (NoRoute, 0);
    Failure(i, c.fromChain, c.toChain, c.toToken, c.sourceIssuer, code.0, code.1)
  }

  function ExpectedFill(q: Request, c: Candidate, best: Quoted): real {
    var gross := best.amount * q.toPriceUsd;
    if best.priceImpactPct > 0.0 then gross * (1.0 - best.priceImpactPct / 100.0)
    else if q.fromAmountUsd > 0.0 && c.liquidityUsd > 0.0 then
      gross * (c.liquidityUsd / (c.liquidityUsd + q.fromAmountUsd))
    else 0.0
  }

  predicate ThinLiquidity(q: Request, c: Candidate) {
    q.fromAmountUsd > 0.0 && c.liquidityUsd > 0.0 && q.fromAmountUsd > c.liquidityUsd * THIN_LIQUIDITY_RATIO
  }

  function RouteOf(q: Request, i: nat, c: Candidate, a: Answer): Route
    requires HasRoute(a)
  {
    var best := a.routes[0];
    Route(i, best.routeId, c.CrossChain(), if a.channel == "" then c.channel else a.channel,
          best.amount * q.toPriceUsd, ExpectedFill(q, c, best), c.liquidityUsd,
          best.warnings + (if ThinLiquidity(q, c) then [WARN_THIN_LIQUIDITY] else []), 0, false)
  }

  function RoutesOf(q: Request, cands: seq<Candidate>, answers: seq<Answer>): seq<Route>
    requires |cands| == |answers|
  {
    if cands == [] then []
    else
      var n := |cands| - 1;
      RoutesOf(q, cands[..n], answers[..n]) + if HasRoute(answers[n]) then [RouteOf(q, n, cands[n], answers[n])] else []
  }

  function FailuresOf(cands: seq<Candidate>, answers: seq<Answer>): seq<Failure>
    requires |cands| == |answers|
  {
    if cands == [] then []
    else
      var n := |cands| - 1;
      FailuresOf(cands[..n], answers[..n]) + if HasRoute(answers[n]) then [] else [FailureOf(n, cands[n], answers[n])]
  }

  // ---- ranking --------------------------------------------------------------------------------------------

  predicate IsUnsafe(r: Route) { WARN_PRICE_IMPACT_HIGH in r.warnings || WARN_THIN_LIQUIDITY in r.warnings }

  /** `IsRouteUnsafe`. */
  method IsRouteUnsafe(r: Route) returns (b: bool)
    ensures b == IsUnsafe(r)
  {
    for i := 0 to |r.warnings|
      invariant forall k ::
                  0 <= k < i ==> r.warnings[k] != WARN_PRICE_IMPACT_HIGH && r.warnings[k] != WARN_THIN_LIQUIDITY
    {
      if r.warnings[i] == WARN_PRICE_IMPACT_HIGH || r.warnings[i] == WARN_THIN_LIQUIDITY {
        return true;
      }
    }
    return false;
  }

  function Key(r: Route): real { if r.expectedFillUsd == 0.0 then r.toAmountUsd else r.expectedFillUsd }

  /** The comparison handed to `sort.SliceStable`. */
  predicate Less(a: Route, b: Route) {
    if IsUnsafe(a) != IsUnsafe(b) then !IsUnsafe(a)
    else if Key(a) != Key(b) then Key(a) > Key(b)
    else !a.crossChain && b.crossChain
  }

  /** The order of the result: what does not compare keeps the order of the candidates. */
  predicate Precedes(a: Route, b: Route) { Less(a, b) || (!Less(b, a) && a.position < b.position) }

  predicate InOrder(s: seq<Route>) { forall i, j :: 0 <= i < j < |s| ==> Precedes(s[i], s[j]) }

  predicate ByPosition(s: seq<Route>) { forall i, j :: 0 <= i < j < |s| ==> s[i].position < s[j].position }

  lemma PrecedesIsTotalOrder(a: Route, b: Route, c: Route)
    ensures Precedes(a, b) && Precedes(b, c) ==> Precedes(a, c)
    ensures !(Precedes(a, b) && Precedes(b, a))
    ensures a.position != b.position ==> Precedes(a, b) || Precedes(b, a)
  {
    hide IsUnsafe, Key;
  }

  function Insert(r: Route, s: seq<Route>): seq<Route> {
    if s != [] && Less(r, s[|s| - 1]) then Insert(r, s[..|s| - 1]) + [s[|s| - 1]] else s + [r]
  }

  lemma {:induction false} InsertKeepsRoutes(r: Route, s: seq<Route>)
    ensures multiset(Insert(r, s)) == multiset(s) + multiset{r}
    decreases |s|
  {
    hide Less;
    if s != [] && Less(r, s[|s| - 1]) {
      assert s == s[..|s| - 1] + [s[|s| - 1]];
      InsertKeepsRoutes(r, s[..|s| - 1]);
    }
  }

  lemma {:induction false} InsertStable(r: Route, s: seq<Route>)
    requires InOrder(s) && forall i :: 0 <= i < |s| ==> s[i].position < r.position
    ensures InOrder(Insert(r, s))
    decreases |s|
  {
    hide Less, Precedes;
    if s != [] {
      var front, last := s[..|s| - 1], s[|s| - 1];
      if Less(r, last) {
        InsertStable(r, front);
        InsertKeepsRoutes(r, front);
        InsertedBefore(r, last);
        var rest := Insert(r, front);
        forall i | 0 <= i < |rest| ensures Precedes(rest[i], last) {
          assert rest[i] in multiset(rest);
          assert rest[i] == r || rest[i] in front;
        }
      } else {
        forall i | 0 <= i < |s| ensures Precedes(s[i], r) {
          InsertedAfter(s[i], last, r);
        }
      }
    }
  }

  lemma InsertedBefore(r: Route, last: Route)
    requires Less(r, last)
    ensures Precedes(r, last)
  {
  }

  lemma InsertedAfter(x: Route, last: Route, r: Route)
    requires !Less(r, last) && last.position < r.position && (x == last || Precedes(x, last))
    ensures Precedes(x, r)
  {
    assert Precedes(last, r);
    PrecedesIsTotalOrder(x, last, r);
  }

  /** `sort.SliceStable`. */
  method StableSort(s: seq<Route>) returns (sorted: seq<Route>)
    requires ByPosition(s)
    ensures InOrder(sorted) && multiset(sorted) == multiset(s)
  {
    hide Precedes, Less;
    sorted := [];
    for i := 0 to |s|
      invariant InOrder(sorted) && multiset(sorted) == multiset(s[..i])
    {
      forall k | 0 <= k < |sorted| ensures sorted[k].position < s[i].position {
        assert sorted[k] in multiset(s[..i]);
      }
      InsertStable(s[i], sorted);
      InsertKeepsRoutes(s[i], sorted);
      sorted := Insert(s[i], sorted);
      assert s[..i + 1] == s[..i] + [s[i]];
    }
    assert s[..|s|] == s;
  }

  function Ranked(sorted: seq<Route>): seq<Route> {
    seq(|sorted|, i requires 0 <= i < |sorted| =>
      sorted[i].(rank := i + 1, recommended := i == 0 && !IsUnsafe(sorted[i])))
  }

  /** The ranking of some routes: the same routes in order, numbered from 1, the first recommended if it is safe. */
  ghost predicate IsRanking(routes: seq<Route>, ranked: seq<Route>) {
    exists sorted :: InOrder(sorted) && multiset(sorted) == multiset(routes) && ranked == Ranked(sorted)
  }

  // ---- Engine.Quote ---------------------------------------------------------------------------------------

  predicate FailedWith(answers: seq<Answer>, code: FailureCode) {
    exists i :: 0 <= i < |answers| && answers[i].Error? && Classify(answers[i].err).0 == code
  }

  predicate ProviderFailed(answers: seq<Answer>) { exists i :: 0 <= i < |answers| && !answers[i].Answered? }

  function ReasonOf(answers: seq<Answer>, expired: bool): Reason {
    if exists i :: 0 <= i < |answers| && HasRoute(answers[i]) then NoReason
    else if FailedWith(answers, ConfigurationError) then QuoteConfigurationError
    else if expired || FailedWith(answers, Timeout) then QuoteTimeout
    else if FailedWith(answers, RateLimited) then QuoteRateLimited
    else if ProviderFailed(answers) then QuoteProviderError
    else NoRouteAvailable
  }

  lemma {:induction false} RoutesPositions(q: Request, cands: seq<Candidate>, answers: seq<Answer>)
    requires |cands| == |answers|
    ensures ByPosition(RoutesOf(q, cands, answers))
    ensures forall i :: 0 <= i < |RoutesOf(q, cands, answers)| ==>
              var p := RoutesOf(q, cands, answers)[i].position; p < |cands| && HasRoute(answers[p])
    ensures RoutesOf(q, cands, answers) == [] <==> forall i :: 0 <= i < |answers| ==> !HasRoute(answers[i])
  {
    hide HasRoute;
    if cands != [] {
      var n := |cands| - 1;
      RoutesPositions(q, cands[..n], answers[..n]);
    }
  }

  /** The loop over the results. `failedWith` gathers what the counters and flags are asked for afterwards. */
  method Partition(q: Request, cands: seq<Candidate>, answers: seq<Answer>)
    returns (routes: seq<Route>, failures: seq<Failure>, providerErrors: nat, configurationErrors: nat,
             timedOut: bool, rateLimited: bool)
    requires |cands| == |answers|
    ensures routes == RoutesOf(q, cands, answers) && failures == FailuresOf(cands, answers)
    ensures (configurationErrors > 0) == FailedWith(answers, ConfigurationError)
            && (providerErrors > 0) == ProviderFailed(answers)
    ensures timedOut == FailedWith(answers, Timeout) && rateLimited == FailedWith(answers, RateLimited)
  {
    hide ExpectedFill, ThinLiquidity, Classify;
    routes, failures, providerErrors, configurationErrors := [], [], 0, 0;
    timedOut, rateLimited := false, false;
    for i := 0 to |cands|
      invariant routes == RoutesOf(q, cands[..i], answers[..i]) && failures == FailuresOf(cands[..i], answers[..i])
      invariant (configurationErrors > 0) == FailedWith(answers[..i], ConfigurationError)
      invariant (providerErrors > 0) == ProviderFailed(answers[..i])
      invariant timedOut == FailedWith(answers[..i], Timeout) && rateLimited == FailedWith(answers[..i], RateLimited)
    {
      var c, a := cands[i], answers[i];
      StepPrefix(q, cands, answers, i);
      if a.Error? {
        providerErrors := providerErrors + 1;
        var code := Classify(a.err);
        if code.0 == ConfigurationError {
          configurationErrors := configurationErrors + 1;
        }
        timedOut := timedOut || code.0 == Timeout;
        rateLimited := rateLimited || code.0 == RateLimited;
        failures := failures + [Failure(i, c.fromChain, c.toChain, c.toToken, c.sourceIssuer, code.0, code.1)];
        continue;
      }
      if a.Nothing? {
        providerErrors := providerErrors + 1;
        failures := failures + [Failure(i, c.fromChain, c.toChain, c.toToken, c.sourceIssuer, ProviderError, 0)];
        continue;
      }
      if |a.routes| == 0 {
        failures := failures + [Failure(i, c.fromChain, c.toChain, c.toToken, c.sourceIssuer, NoRoute, 0)];
        continue;
      }
      var route := BuildRoute(q, i, c, a);
      routes := routes + [route];
    }
    assert cands[..|cands|] == cands && answers[..|answers|] == answers;
  }

  lemma StepPrefix(q: Request, cands: seq<Candidate>, answers: seq<Answer>, i: nat)
    requires |cands| == |answers| && i < |cands|
    ensures RoutesOf(q, cands[..i + 1], answers[..i + 1]) ==
              RoutesOf(q, cands[..i], answers[..i])
              + if HasRoute(answers[i]) then [RouteOf(q, i, cands[i], answers[i])] else []
    ensures FailuresOf(cands[..i + 1], answers[..i + 1]) ==
              FailuresOf(cands[..i], answers[..i])
              + if HasRoute(answers[i]) then [] else [FailureOf(i, cands[i], answers[i])]
    ensures forall code :: FailedWith(answers[..i + 1], code) <==>
                             FailedWith(answers[..i], code) || (answers[i].Error? && Classify(answers[i].err).0 == code)
    ensures ProviderFailed(answers[..i + 1]) <==> ProviderFailed(answers[..i]) || !answers[i].Answered?
  {
    hide RouteOf, FailureOf, Classify, HasRoute;
    var more, fewer := answers[..i + 1], answers[..i];
    assert cands[..i + 1][..i] == cands[..i] && more[..i] == fewer;
    assert more[i] == answers[i] && forall k :: 0 <= k < i ==> more[k] == fewer[k];
    forall code ensures FailedWith(more, code) <==>
        FailedWith(fewer, code) || (answers[i].Error? && Classify(answers[i].err).0 == code) {
      if FailedWith(fewer, code) {
        var k :| 0 <= k < |fewer| && fewer[k].Error? && Classify(fewer[k].err).0 == code;
        assert more[k].Error? && Classify(more[k].err).0 == code;
      }
    }
    if ProviderFailed(fewer) {
      var k :| 0 <= k < |fewer| && !fewer[k].Answered?;
      assert !more[k].Answered?;
    }
  }

  method BuildRoute(q: Request, i: nat, c: Candidate, a: Answer) returns (route: Route)
    requires HasRoute(a)
    ensures route == RouteOf(q, i, c, a)
  {
    var best := a.routes[0];
    var toAmountUsd := best.amount * q.toPriceUsd;
    var expectedFillUsd := 0.0;
    if best.priceImpactPct > 0.0 {
      expectedFillUsd := toAmountUsd * (1.0 - best.priceImpactPct / 100.0);
    } else if q.fromAmountUsd > 0.0 && c.liquidityUsd > 0.0 {
      var ratio := c.liquidityUsd / (c.liquidityUsd + q.fromAmountUsd);
      expectedFillUsd := toAmountUsd * ratio;
    }
    var channel := a.channel;
    if channel == "" {
      channel := c.channel;
    }
    var warnings := best.warnings;
    if q.fromAmountUsd > 0.0 && c.liquidityUsd > 0.0 && q.fromAmountUsd > c.liquidityUsd * THIN_LIQUIDITY_RATIO {
      warnings := warnings + [WARN_THIN_LIQUIDITY];
    }
    assert best.warnings + [] == best.warnings;
    return Route(i, best.routeId, c.CrossChain(), channel, toAmountUsd, expectedFillUsd, c.liquidityUsd, warnings, 0,
      false);
  }

  /**
   * `request` is missing if the request or the quote function is nil; `expired` says whether the deadline
   * of the request has passed when the results are in.
   */
  method Quote(request: Option<Request>, cands: seq<Candidate>, answers: seq<Answer>, expired: bool)
    returns (response: Response)
    requires |cands| == |answers|
    ensures request.None? ==> response == Response([], [], InvalidRequest)
    ensures request.Some? && cands == [] ==> response == Response([], [], NoCandidate)
    ensures request.Some? && cands != [] && !IsInteger(request.value.fromAmount) ==>
              response == Response([], [], InvalidAmount)
    ensures request.Some? && cands != [] && IsInteger(request.value.fromAmount) ==>
              && IsRanking(RoutesOf(request.value, cands, answers), response.routes)
              && response.failures == FailuresOf(cands, answers)
              && response.reason == ReasonOf(answers, expired)
  {
    if request.None? {
      return Response([], [], InvalidRequest);
    }
    if |cands| == 0 {
      return Response([], [], NoCandidate);
    }
    if !IsInteger(request.value.fromAmount) {
      return Response([], [], InvalidAmount);
    }
    hide IsInteger;
    response := Rank(request.value, cands, answers, expired);
  }

  /** `Quote` from the collected results on. */
  method Rank(q: Request, cands: seq<Candidate>, answers: seq<Answer>, expired: bool) returns (response: Response)
    requires |cands| == |answers|
    ensures IsRanking(RoutesOf(q, cands, answers), response.routes)
    ensures response.failures == FailuresOf(cands, answers)
    ensures response.reason == ReasonOf(answers, expired)
  {
    var out, failures, providerErrors, configurationErrors, timedOut, rateLimited := Partition(q, cands, answers);
    RoutesPositions(q, cands, answers);
    hide RoutesOf, FailuresOf, InOrder, HasRoute;
    var sorted := StableSort(out);
    var routes := Number(sorted);
    assert multiset(sorted) == multiset(out);
    assert |sorted| == |multiset(sorted)| && |out| == |multiset(out)|;
    var reason := NoReason;
    if |out| == 0 {
      reason :=
        if configurationErrors > 0 then QuoteConfigurationError
        else if expired || timedOut then QuoteTimeout
        else if rateLimited then QuoteRateLimited
        else if providerErrors > 0 then QuoteProviderError
        else NoRouteAvailable;
    }
    return Response(routes, failures, reason);
  }

  /** The loop that numbers the routes. */
  method Number(sorted: seq<Route>) returns (routes: seq<Route>)
    ensures routes == Ranked(sorted)
  {
    hide IsUnsafe;
    routes := sorted;
    for i := 0 to |sorted|
      invariant |routes| == |sorted|
      invariant forall k :: 0 <= k < i ==> routes[k] == Ranked(sorted)[k]
      invariant forall k :: i <= k < |sorted| ==> routes[k] == sorted[k]
    {
      var isUnsafe := IsRouteUnsafe(routes[i]);
      routes := routes[i := routes[i].(rank := i + 1, recommended := i == 0 && !isUnsafe)];
    }
  }

  // ---- what the response says -----------------------------------------------------------------------------

  /** `Less` and the stability of the sort, spelled out. */
  lemma PrecedesMeans(a: Route, b: Route)
    ensures Precedes(a, b) <==>
            || (!IsUnsafe(a) && IsUnsafe(b))
            || (IsUnsafe(a) == IsUnsafe(b) &&
                (Key(a) > Key(b) ||
                 (Key(a) == Key(b) && ((!a.crossChain && b.crossChain)
                   || (a.crossChain == b.crossChain && a.position < b.position)))))
  {
  }

  function Scaled(amount: real, part: real): real { amount * part }

  lemma ScaledPositive(amount: real, part: real)
    requires amount > 0.0 && part > 0.0
    ensures Scaled(amount, part) > 0.0
  {
  }

  lemma ScaledRest(amount: real, part: real)
    ensures Scaled(amount, 1.0 - part) == amount - Scaled(amount, part)
  {
  }

  lemma ScaledNegative(amount: real, part: real)
    ensures Scaled(amount, 0.0 - part) == 0.0 - Scaled(amount, part)
  {
  }

  lemma ScaledZero(amount: real)
    ensures Scaled(amount, 0.0) == 0.0
  {
  }

  lemma Share(amount: real, part: real)
    requires amount > 0.0
    ensures part < 1.0 <==> Scaled(amount, part) < amount
    ensures Scaled(amount, part) < 0.0 <==> part < 0.0
    ensures Scaled(amount, part) == 0.0 <==> part == 0.0
  {
    hide Scaled;
    ShareSign(amount, part);
    ShareSign(amount, 1.0 - part);
    ScaledRest(amount, part);
  }

  lemma ShareSign(amount: real, part: real)
    requires amount > 0.0
    ensures Scaled(amount, part) > 0.0 <==> part > 0.0
    ensures Scaled(amount, part) < 0.0 <==> part < 0.0
  {
    hide Scaled;
    ScaledNegative(amount, part);
    ScaledZero(amount);
    if part > 0.0 {
      ScaledPositive(amount, part);
    } else if part < 0.0 {
      ScaledPositive(amount, 0.0 - part);
    }
  }

  lemma LiquidityShare(liquidity: real, spent: real)
    requires liquidity > 0.0 && spent > 0.0
    ensures 0.0 < liquidity / (liquidity + spent) < 1.0
  {
    var share, whole := liquidity / (liquidity + spent), liquidity + spent;
    assert Scaled(whole, share) == liquidity;
    hide Scaled;
    Share(whole, share);
  }

  /** Whether the code has no basis for an estimate. */
  predicate NoEstimate(q: Request, c: Candidate, best: Quoted) {
    best.priceImpactPct <= 0.0 && (q.fromAmountUsd <= 0.0 || c.liquidityUsd <= 0.0)
  }

  /** The part of the quoted value that is expected to be filled. */
  function FillShare(q: Request, c: Candidate, best: Quoted): real {
    if best.priceImpactPct > 0.0 then 1.0 - best.priceImpactPct / 100.0
    else if q.fromAmountUsd > 0.0 && c.liquidityUsd > 0.0 then c.liquidityUsd / (c.liquidityUsd + q.fromAmountUsd)
    else 0.0
  }

  lemma FillShareBounds(q: Request, c: Candidate, best: Quoted)
    ensures var share := FillShare(q, c, best);
            && share < 1.0
            && (share < 0.0 <==> best.priceImpactPct > 100.0)
            && (share == 0.0 <==> NoEstimate(q, c, best) || best.priceImpactPct == 100.0)
  {
    if best.priceImpactPct <= 0.0 && q.fromAmountUsd > 0.0 && c.liquidityUsd > 0.0 {
      LiquidityShare(c.liquidityUsd, q.fromAmountUsd);
    }
  }

  lemma FillIsShare(q: Request, c: Candidate, best: Quoted)
    ensures ExpectedFill(q, c, best) == Scaled(best.amount * q.toPriceUsd, FillShare(q, c, best))
  {
  }

  /**
   * The expected fill is below the quoted value, and negative exactly for a price impact above 100 percent.
   * It is zero, so that the route ranks by its full quoted value, exactly without an estimate and for a price
   * impact of 100 percent.
   */
  lemma ExpectedFillBounds(q: Request, c: Candidate, best: Quoted)
    requires best.amount * q.toPriceUsd > 0.0
    ensures var gross, fill := best.amount * q.toPriceUsd, ExpectedFill(q, c, best);
            && fill < gross
            && (fill < 0.0 <==> best.priceImpactPct > 100.0)
            && (fill == 0.0 <==> NoEstimate(q, c, best) || best.priceImpactPct == 100.0)
  {
    var gross := best.amount * q.toPriceUsd;
    FillShareBounds(q, c, best);
    FillIsShare(q, c, best);
    Share(gross, FillShare(q, c, best));
    hide ExpectedFill, FillShare, NoEstimate, Scaled;
  }

  /**
   * What the route of an answer ranks by and when it is unsafe: its expected fill, or its quoted value when that
   * is zero; and exactly if the provider warned of either danger or the trade exceeds 5 percent of the liquidity.
   */
  lemma RouteOfMeans(q: Request, i: nat, c: Candidate, a: Answer)
    requires HasRoute(a) && a.routes[0].amount * q.toPriceUsd > 0.0
    ensures var r, best := RouteOf(q, i, c, a), a.routes[0];
            && Key(r) <= r.toAmountUsd
            && (Key(r) == r.toAmountUsd <==> NoEstimate(q, c, best) || best.priceImpactPct == 100.0)
            && (IsUnsafe(r) <==>
                 WARN_PRICE_IMPACT_HIGH in best.warnings || WARN_THIN_LIQUIDITY in best.warnings || ThinLiquidity(q, c))
  {
    var best := a.routes[0];
    ExpectedFillBounds(q, c, best);
    hide ExpectedFill, NoEstimate;
    var r := RouteOf(q, i, c, a);
    assert ThinLiquidity(q, c) ==> r.warnings[|best.warnings|] == WARN_THIN_LIQUIDITY;
  }

  predicate IsRouteOf(r: Route, q: Request, cands: seq<Candidate>, answers: seq<Answer>, i: nat)
    requires |cands| == |answers|
  {
    i < |cands| && HasRoute(answers[i]) && r.(rank := 0, recommended := false) == RouteOf(q, i, cands[i], answers[i])
  }

  lemma {:induction false} RoutesMembers(q: Request, cands: seq<Candidate>, answers: seq<Answer>, r: Route)
    requires |cands| == |answers|
    ensures r in RoutesOf(q, cands, answers) <==>
              r.rank == 0 && !r.recommended && IsRouteOf(r, q, cands, answers, r.position)
    ensures |RoutesOf(q, cands, answers)| + |FailuresOf(cands, answers)| == |cands|
    decreases |cands|
  {
    hide ExpectedFill, ThinLiquidity, FailureOf, HasRoute;
    if cands != [] {
      var n := |cands| - 1;
      RoutesMembers(q, cands[..n], answers[..n], r);
      var p := r.position;
      assert p < n ==> cands[..n][p] == cands[p] && answers[..n][p] == answers[p];
    }
  }

  predicate IsFailureOf(f: Failure, cands: seq<Candidate>, answers: seq<Answer>, i: nat)
    requires |cands| == |answers|
  {
    i < |cands| && !HasRoute(answers[i]) && f == FailureOf(i, cands[i], answers[i])
  }

  lemma FailureInPrefix(f: Failure, cands: seq<Candidate>, answers: seq<Answer>, n: nat)
    requires |cands| == |answers| == n + 1
    ensures IsFailureOf(f, cands, answers, f.position) <==>
              IsFailureOf(f, cands[..n], answers[..n], f.position)
              || (!HasRoute(answers[n]) && f == FailureOf(n, cands[n], answers[n]))
  {
    if !HasRoute(answers[n]) {
      FailurePosition(n, cands[n], answers[n]);
    }
    hide FailureOf, HasRoute;
    var p := f.position;
    assert p < n ==> cands[..n][p] == cands[p] && answers[..n][p] == answers[p];
  }

  lemma {:induction false} FailuresMembers(cands: seq<Candidate>, answers: seq<Answer>, f: Failure)
    requires |cands| == |answers|
    ensures f in FailuresOf(cands, answers) <==> IsFailureOf(f, cands, answers, f.position)
    decreases |cands|
  {
    hide FailureOf, HasRoute, IsFailureOf;
    if cands != [] {
      var n := |cands| - 1;
      FailuresMembers(cands[..n], answers[..n], f);
      FailureInPrefix(f, cands, answers, n);
    } else {
      NoFailure(f, cands, answers);
    }
  }

  lemma NoFailure(f: Failure, cands: seq<Candidate>, answers: seq<Answer>)
    requires cands == [] && answers == []
    ensures !IsFailureOf(f, cands, answers, f.position)
  {
  }

  lemma FailurePosition(i: nat, c: Candidate, a: Answer)
    requires !HasRoute(a)
    ensures FailureOf(i, c, a).position == i
  {
  }

  /** Unnumbered, the ranked routes are the routes that were ranked. */
  lemma RankedMembers(routes: seq<Route>, sorted: seq<Route>, i: nat)
    requires multiset(sorted) == multiset(routes) && i < |sorted|
    requires forall r :: r in routes ==> r.rank == 0 && !r.recommended
    ensures Ranked(sorted)[i].(rank := 0, recommended := false) == sorted[i] && sorted[i] in routes
  {
    assert sorted[i] in multiset(sorted);
  }

  lemma RankedRoutesOf(q: Request, cands: seq<Candidate>, answers: seq<Answer>, ranked: seq<Route>)
    requires |cands| == |answers| && IsRanking(RoutesOf(q, cands, answers), ranked)
    ensures |ranked| == |RoutesOf(q, cands, answers)|
    ensures forall k :: 0 <= k < |ranked| ==> IsRouteOf(ranked[k], q, cands, answers, ranked[k].position)
  {
    var routes := RoutesOf(q, cands, answers);
    var sorted :| InOrder(sorted) && multiset(sorted) == multiset(routes) && ranked == Ranked(sorted);
    forall r: Route ensures r in routes <==>
        r.rank == 0 && !r.recommended && IsRouteOf(r, q, cands, answers, r.position) {
      RoutesMembers(q, cands, answers, r);
    }
    hide RoutesOf, InOrder, IsRouteOf;
    assert |multiset(sorted)| == |sorted| && |multiset(routes)| == |routes|;
    forall k | 0 <= k < |ranked| ensures IsRouteOf(ranked[k], q, cands, answers, ranked[k].position) {
      RankedMembers(routes, sorted, k);
      RankedIsRoute(sorted[k], k, q, cands, answers);
    }
  }

  lemma RankedIsRoute(r: Route, k: nat, q: Request, cands: seq<Candidate>, answers: seq<Answer>)
    requires |cands| == |answers| && IsRouteOf(r, q, cands, answers, r.position)
    ensures var ranked := r.(rank := k + 1, recommended := k == 0 && !IsUnsafe(r));
            IsRouteOf(ranked, q, cands, answers, ranked.position)
  {
    hide HasRoute;
  }

  lemma RouteIsRanked(q: Request, cands: seq<Candidate>, answers: seq<Answer>, ranked: seq<Route>, i: nat)
    requires |cands| == |answers| && IsRanking(RoutesOf(q, cands, answers), ranked)
    requires i < |cands| && HasRoute(answers[i])
    ensures exists k :: 0 <= k < |ranked| && IsRouteOf(ranked[k], q, cands, answers, i)
  {
    var routes := RoutesOf(q, cands, answers);
    var r := RouteOf(q, i, cands[i], answers[i]);
    RoutesMembers(q, cands, answers, r);
    hide RoutesOf, InOrder, HasRoute, RouteOf;
    var sorted :| InOrder(sorted) && multiset(sorted) == multiset(routes) && ranked == Ranked(sorted);
    assert r in multiset(sorted) by { assert r in routes; }
    var k :| 0 <= k < |sorted| && sorted[k] == r;
    RankedIsRoute(r, k, q, cands, answers);
    assert IsRouteOf(ranked[k], q, cands, answers, i);
  }

  /** Every candidate becomes one route or one failure and none becomes both. */
  lemma EveryCandidateOnce(q: Request, cands: seq<Candidate>, answers: seq<Answer>, ranked: seq<Route>, i: nat)
    requires |cands| == |answers| && i < |cands| && IsRanking(RoutesOf(q, cands, answers), ranked)
    ensures |ranked| + |FailuresOf(cands, answers)| == |cands|
    ensures HasRoute(answers[i]) ==> exists k :: 0 <= k < |ranked| && IsRouteOf(ranked[k], q, cands, answers, i)
    ensures !HasRoute(answers[i]) ==> FailureOf(i, cands[i], answers[i]) in FailuresOf(cands, answers)
    ensures HasRoute(answers[i]) ==> forall f :: f in FailuresOf(cands, answers) ==> f.position != i
    ensures forall k :: 0 <= k < |ranked| ==> IsRouteOf(ranked[k], q, cands, answers, ranked[k].position)
  {
    RankedRoutesOf(q, cands, answers, ranked);
    RoutesCount(q, cands, answers);
    forall f: Failure | f in FailuresOf(cands, answers) ensures HasRoute(answers[i]) ==> f.position != i {
      FailuresMembers(cands, answers, f);
    }
    hide RoutesOf, FailuresOf, IsRouteOf, IsRanking;
    if HasRoute(answers[i]) {
      RouteIsRanked(q, cands, answers, ranked, i);
    } else {
      FailurePosition(i, cands[i], answers[i]);
      FailuresMembers(cands, answers, FailureOf(i, cands[i], answers[i]));
    }
  }

  lemma RoutesCount(q: Request, cands: seq<Candidate>, answers: seq<Answer>)
    requires |cands| == |answers|
    ensures |RoutesOf(q, cands, answers)| + |FailuresOf(cands, answers)| == |cands|
  {
    RoutesMembers(q, cands, answers, Route(0, "", false, "", 0.0, 0.0, 0.0, [], 0, false));
  }

  /** Ranked 1 to n; exactly the first is recommended if some route is safe, and none otherwise. */
  lemma OneRecommendation(routes: seq<Route>, ranked: seq<Route>)
    requires IsRanking(routes, ranked)
    ensures |ranked| == |routes|
    ensures forall i :: 0 <= i < |ranked| ==> ranked[i].rank == i + 1
    ensures forall i, j :: 0 <= i < j < |ranked| ==> Precedes(ranked[i], ranked[j])
    ensures forall i ::
              0 <= i < |ranked| ==> (ranked[i].recommended <==> i == 0 && exists r :: r in routes && !IsUnsafe(r))
  {
    var sorted :| InOrder(sorted) && multiset(sorted) == multiset(routes) && ranked == Ranked(sorted);
    assert |multiset(sorted)| == |sorted| && |multiset(routes)| == |routes|;
    forall i, j | 0 <= i < j < |ranked| ensures Precedes(ranked[i], ranked[j]) {
      assert Precedes(sorted[i], sorted[j]);
    }
    if exists r :: r in routes && !IsUnsafe(r) {
      var r :| r in routes && !IsUnsafe(r);
      assert r in multiset(sorted) by { assert r in multiset(routes); }
      var k :| 0 <= k < |sorted| && sorted[k] == r;
      assert k > 0 ==> Precedes(sorted[0], sorted[k]);
      assert !IsUnsafe(sorted[0]);
    }
    if sorted != [] && !IsUnsafe(sorted[0]) {
      assert sorted[0] in multiset(routes);
    }
  }

  lemma FirstIsUnique(s: seq<Route>, t: seq<Route>)
    requires InOrder(s) && InOrder(t) && s != [] && t != [] && multiset(s) == multiset(t)
    ensures s[0] == t[0]
  {
    assert s[0] in multiset(t) && t[0] in multiset(s);
    hide Precedes;
    var i :| 0 <= i < |t| && t[i] == s[0];
    var j :| 0 <= j < |s| && s[j] == t[0];
    if i > 0 && j > 0 {
      assert Precedes(s[0], s[j]) && Precedes(t[0], t[i]);
      PrecedesIsTotalOrder(s[0], t[0], s[0]);
    }
  }

  lemma WithoutFirst(s: seq<Route>)
    requires s != [] && InOrder(s)
    ensures InOrder(s[1..]) && multiset(s[1..]) == multiset(s) - multiset{s[0]} && s == [s[0]] + s[1..]
  {
    hide Precedes;
    assert s == [s[0]] + s[1..];
  }

  /** Different candidates never tie, so the ranking is determined by the answers. */
  lemma {:induction false} SortingIsUnique(s: seq<Route>, t: seq<Route>)
    requires InOrder(s) && InOrder(t) && multiset(s) == multiset(t)
    ensures s == t
    decreases |s|
  {
    hide InOrder;
    assert |multiset(s)| == |s| && |multiset(t)| == |t|;
    if s != [] {
      FirstIsUnique(s, t);
      WithoutFirst(s);
      WithoutFirst(t);
      SortingIsUnique(s[1..], t[1..]);
    }
  }

  lemma RankingIsUnique(routes: seq<Route>, r: seq<Route>, q: seq<Route>)
    requires IsRanking(routes, r) && IsRanking(routes, q)
    ensures r == q
  {
    var s :| InOrder(s) && multiset(s) == multiset(routes) && r == Ranked(s);
    var t :| InOrder(t) && multiset(t) == multiset(routes) && q == Ranked(t);
    SortingIsUnique(s, t);
  }
}
