/** What a response of the quote engine says about each candidate, field by field. */
module QuoteReport {
  import opened Common
  import opened Decimals
  import opened QuoteEngine

  // ---- failures -------------------------------------------------------------------------------------------

  /** The first of the four questions that is answered with yes decides; nobody but a rate limit names a time. */
  predicate SaysWhy(f: Failure, a: Answer) {
    && (f.code == ConfigurationError <==> a.Error? && a.err.isConfiguration)
    && (f.code == RateLimited <==>
          a.Error? && !a.err.isConfiguration
          && (a.err.status429.Some? || (!a.err.isDeadline && a.err.textSaysRateLimited)))
    && (f.code == Timeout <==> a.Error? && !a.err.isConfiguration && a.err.status429.None? && a.err.isDeadline)
    && (f.code == NoRoute <==> a.Answered?)
    && f.retryAfterSeconds == (if a.Error? && !a.err.isConfiguration && a.err.status429.Some?
                               then a.err.status429.value else 0)
  }

  predicate NamesCandidate(f: Failure, i: nat, c: Candidate) {
    && f.position == i && f.fromChain == c.fromChain && f.toChain == c.toChain && f.toToken == c.toToken
    && f.sourceIssuer == c.sourceIssuer
  }

  lemma FailureSays(i: nat, c: Candidate, a: Answer)
    requires !HasRoute(a)
    ensures NamesCandidate(FailureOf(i, c, a), i, c) && SaysWhy(FailureOf(i, c, a), a)
  {
  }

  // ---- routes ---------------------------------------------------------------------------------------------

  /** The estimate as an equation: by the price impact in percent, or by the share of the liquidity. */
  predicate FillSays(fill: real, gross: real, impact: real, spent: real, liquidity: real) {
    if impact > 0.0 then 100.0 * fill == gross * (100.0 - impact)
    else if spent > 0.0 && liquidity > 0.0 then fill * (liquidity + spent) == gross * liquidity
    else fill == 0.0
  }

  predicate SaysRoute(r: Route, q: Request, i: nat, c: Candidate, a: Answer)
    requires HasRoute(a)
  {
    var best := a.routes[0];
    && r.position == i && r.routeId == best.routeId && r.crossChain == (c.fromChain != c.toChain)
    && (a.channel != "" ==> r.channel == a.channel) && (a.channel == "" ==> r.channel == c.channel)
    && r.liquidityUsd == c.liquidityUsd
    && r.toAmountUsd == best.amount * q.toPriceUsd
    && FillSays(r.expectedFillUsd, best.amount * q.toPriceUsd, best.priceImpactPct, q.fromAmountUsd, c.liquidityUsd)
    && best.warnings <= r.warnings
    && r.warnings[|best.warnings|..] ==
       (if q.fromAmountUsd > 0.0 && c.liquidityUsd > 0.0 && 20.0 * q.fromAmountUsd > c.liquidityUsd
        then ["THIN_LIQUIDITY"] else [])
  }

  lemma FillIsFound(q: Request, c: Candidate, best: Quoted)
    ensures FillSays(ExpectedFill(q, c, best), best.amount * q.toPriceUsd, best.priceImpactPct, q.fromAmountUsd,
                     c.liquidityUsd)
  {
    var gross := best.amount * q.toPriceUsd;
    if best.priceImpactPct > 0.0 {
      ImpactFill(gross, best.priceImpactPct);
    } else if q.fromAmountUsd > 0.0 && c.liquidityUsd > 0.0 {
      LiquidityFill(gross, c.liquidityUsd, q.fromAmountUsd);
    }
  }

  lemma ImpactFill(gross: real, impact: real)
    ensures 100.0 * (gross * (1.0 - impact / 100.0)) == gross * (100.0 - impact)
  {
    var part := 1.0 - impact / 100.0;
    assert 100.0 * part == 100.0 - impact;
    assert 100.0 * (gross * part) == gross * (100.0 * part);
  }

  lemma LiquidityFill(gross: real, liquidity: real, spent: real)
    requires liquidity > 0.0 && spent > 0.0
    ensures gross * (liquidity / (liquidity + spent)) * (liquidity + spent) == gross * liquidity
  {
    var share := liquidity / (liquidity + spent);
    assert share * (liquidity + spent) == liquidity;
    assert gross * share * (liquidity + spent) == gross * (share * (liquidity + spent));
  }

  lemma RouteSays(q: Request, i: nat, c: Candidate, a: Answer)
    requires HasRoute(a)
    ensures SaysRoute(RouteOf(q, i, c, a), q, i, c, a)
  {
    FillIsFound(q, c, a.routes[0]);
    hide ExpectedFill, FillSays;
  }

  // ---- the whole response ---------------------------------------------------------------------------------

  predicate SomeFailure(failures: seq<Failure>, code: FailureCode) {
    exists k :: 0 <= k < |failures| && failures[k].code == code
  }

  /** The reason can be read off the rest of the response and the clock. */
  predicate ReasonFollows(response: Response, expired: bool) {
    response.reason ==
    if response.routes != [] then NoReason
    else if SomeFailure(response.failures, ConfigurationError) then QuoteConfigurationError
    else if expired || SomeFailure(response.failures, Timeout) then QuoteTimeout
    else if SomeFailure(response.failures, RateLimited) then QuoteRateLimited
    else if SomeFailure(response.failures, ProviderError) then QuoteProviderError
    else NoRouteAvailable
  }

  /** Every failure is one candidate's and tells why; every route is one candidate's and tells what was quoted. */
  ghost predicate SaysEverything(response: Response, q: Request, cands: seq<Candidate>, answers: seq<Answer>)
    requires |cands| == |answers|
  {
    && |response.routes| + |response.failures| == |cands|
    && (forall k :: 0 <= k < |response.failures| ==>
          var f := response.failures[k];
          && f.position < |cands| && !HasRoute(answers[f.position])
          && NamesCandidate(f, f.position, cands[f.position]) && SaysWhy(f, answers[f.position]))
    && (forall k :: 0 <= k < |response.routes| ==>
          var r := response.routes[k];
          && r.position < |cands| && HasRoute(answers[r.position])
          && SaysRoute(r, q, r.position, cands[r.position], answers[r.position]))
  }

  lemma FailureFor(cands: seq<Candidate>, answers: seq<Answer>, i: nat, code: FailureCode)
    requires |cands| == |answers| && i < |cands| && !HasRoute(answers[i])
    requires FailureOf(i, cands[i], answers[i]).code == code
    ensures SomeFailure(FailuresOf(cands, answers), code)
  {
    FailurePosition(i, cands[i], answers[i]);
    FailuresMembers(cands, answers, FailureOf(i, cands[i], answers[i]));
    hide FailuresOf, FailureOf;
  }

  lemma FailureFrom(cands: seq<Candidate>, answers: seq<Answer>, code: FailureCode) returns (i: nat)
    requires |cands| == |answers| && SomeFailure(FailuresOf(cands, answers), code)
    ensures i < |cands| && !HasRoute(answers[i]) && FailureOf(i, cands[i], answers[i]).code == code
  {
    hide FailuresOf, FailureOf, HasRoute;
    var k :| 0 <= k < |FailuresOf(cands, answers)| && FailuresOf(cands, answers)[k].code == code;
    var f := FailuresOf(cands, answers)[k];
    FailuresMembers(cands, answers, f);
    i := f.position;
  }

  /** A code that stands for an error stands among the failures exactly if an error has it. */
  lemma CodesOfErrors(cands: seq<Candidate>, answers: seq<Answer>, code: FailureCode)
    requires |cands| == |answers| && code != NoRoute && code != ProviderError
    ensures FailedWith(answers, code) <==> SomeFailure(FailuresOf(cands, answers), code)
  {
    hide FailuresOf, SomeFailure;
    if FailedWith(answers, code) {
      var i :| 0 <= i < |answers| && answers[i].Error? && Classify(answers[i].err).0 == code;
      FailureFor(cands, answers, i, code);
    }
    if SomeFailure(FailuresOf(cands, answers), code) {
      var i := FailureFrom(cands, answers, code);
      assert answers[i].Error?;
    }
  }

  /** Without another error code among them the failures tell whether a provider failed. */
  lemma ProviderErrors(cands: seq<Candidate>, answers: seq<Answer>)
    requires |cands| == |answers|
    requires !FailedWith(answers, ConfigurationError) && !FailedWith(answers, Timeout)
             && !FailedWith(answers, RateLimited)
    ensures ProviderFailed(answers) <==> SomeFailure(FailuresOf(cands, answers), ProviderError)
  {
    hide FailuresOf, SomeFailure;
    if ProviderFailed(answers) {
      var i :| 0 <= i < |answers| && !answers[i].Answered?;
      FailureFor(cands, answers, i, ProviderError);
    }
    if SomeFailure(FailuresOf(cands, answers), ProviderError) {
      var i := FailureFrom(cands, answers, ProviderError);
      assert !answers[i].Answered?;
    }
  }

  lemma ReasonIsSaid(q: Request, cands: seq<Candidate>, answers: seq<Answer>, expired: bool, response: Response)
    requires |cands| == |answers| && IsRanking(RoutesOf(q, cands, answers), response.routes)
    requires response.failures == FailuresOf(cands, answers) && response.reason == ReasonOf(answers, expired)
    ensures ReasonFollows(response, expired)
  {
    RoutesPositions(q, cands, answers);
    OneRecommendation(RoutesOf(q, cands, answers), response.routes);
    CodesOfErrors(cands, answers, ConfigurationError);
    CodesOfErrors(cands, answers, Timeout);
    CodesOfErrors(cands, answers, RateLimited);
    hide RoutesOf, FailuresOf, FailedWith, ProviderFailed, SomeFailure, HasRoute, IsRanking;
    if !FailedWith(answers, ConfigurationError) && !FailedWith(answers, Timeout) && !FailedWith(answers, RateLimited) {
      ProviderErrors(cands, answers);
    }
  }

  lemma RankedSays(q: Request, cands: seq<Candidate>, answers: seq<Answer>, r: Route)
    requires |cands| == |answers| && IsRouteOf(r, q, cands, answers, r.position)
    ensures SaysRoute(r, q, r.position, cands[r.position], answers[r.position])
  {
    RouteSays(q, r.position, cands[r.position], answers[r.position]);
    hide RouteOf, FillSays;
    assert r.(rank := 0, recommended := false) == RouteOf(q, r.position, cands[r.position], answers[r.position]);
  }

  /** What `Quote` returns for a readable request. */
  lemma ResponseSays(q: Request, cands: seq<Candidate>, answers: seq<Answer>, expired: bool, response: Response)
    requires |cands| == |answers| && IsRanking(RoutesOf(q, cands, answers), response.routes)
    requires response.failures == FailuresOf(cands, answers) && response.reason == ReasonOf(answers, expired)
    ensures SaysEverything(response, q, cands, answers) && ReasonFollows(response, expired)
  {
    ReasonIsSaid(q, cands, answers, expired, response);
    RankedRoutesOf(q, cands, answers, response.routes);
    RoutesCount(q, cands, answers);
    hide RoutesOf, FailuresOf, FailureOf, IsRanking, IsRouteOf, HasRoute, SaysRoute, SaysWhy, NamesCandidate, ReasonOf,
      ReasonFollows;
    forall k | 0 <= k < |response.failures|
      ensures var f := response.failures[k];
              && f.position < |cands| && !HasRoute(answers[f.position])
              && NamesCandidate(f, f.position, cands[f.position]) && SaysWhy(f, answers[f.position])
    {
      FailureIsSaid(cands, answers, response.failures[k]);
    }
    forall k | 0 <= k < |response.routes|
      ensures var r := response.routes[k];
              && r.position < |cands| && HasRoute(answers[r.position])
              && SaysRoute(r, q, r.position, cands[r.position], answers[r.position])
    {
      RouteIsSaid(q, cands, answers, response.routes[k]);
    }
  }

  lemma FailureIsSaid(cands: seq<Candidate>, answers: seq<Answer>, f: Failure)
    requires |cands| == |answers| && f in FailuresOf(cands, answers)
    ensures && f.position < |cands| && !HasRoute(answers[f.position])
            && NamesCandidate(f, f.position, cands[f.position]) && SaysWhy(f, answers[f.position])
  {
    FailuresMembers(cands, answers, f);
    FailureSays(f.position, cands[f.position], answers[f.position]);
    hide FailuresOf, FailureOf, HasRoute;
  }

  lemma RouteIsSaid(q: Request, cands: seq<Candidate>, answers: seq<Answer>, r: Route)
    requires |cands| == |answers| && IsRouteOf(r, q, cands, answers, r.position)
    ensures && r.position < |cands| && HasRoute(answers[r.position])
            && SaysRoute(r, q, r.position, cands[r.position], answers[r.position])
  {
    RankedSays(q, cands, answers, r);
    hide RouteOf, SaysRoute;
  }

  /** The amounts that are accepted: a printed number with or without a sign, and no text with anything else in it. */
  lemma AcceptedAmounts(n: nat, s: string, k: nat)
    ensures IsInteger(Format(n)) && IsInteger("-" + Format(n)) && IsInteger("+" + Format(n))
    ensures 0 < k < |s| && !IsDigit(s[k]) ==> !IsInteger(s)
    ensures !IsInteger("") && !IsInteger("-") && !IsInteger("+")
  {
    hide Format;
    var d := Format(n);
    assert ("-" + d)[1..] == d && ("+" + d)[1..] == d;
    assert IsDigit(d[0]);
    if 0 < k < |s| && !IsDigit(s[k]) {
      assert !AreDigits(s);
      assert s[1..][k - 1] == s[k];
    }
  }
}
