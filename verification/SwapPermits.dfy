/**
 * Calldata of a quote and permits in front of it (dex/univ3/quote_client.go, dex/univ3/permit.go). Signatures
 * and the checks against the chain are a parameter: they yield a permit call or an error.
 */
module SwapPermits {
  import opened Common
  import opened PoolKeys
  import opened QuotePath
  import opened SwapCalls

  // ---- EncodePermitMulticall ----------------------------------------------------------------------------

  /** What `validatePermitRequest` lets through. */
  datatype Permit = Permit(token: Address, value: nat, deadline: nat)

  datatype PermitError =
    | NotASwap(cause: DecodeError) | NotOneSwap(count: nat) | InvalidPermit | WrongToken | ValueTooLow
    | PermitCallFailed
    | WrongRouter | ApprovalNotCovered | DeadlineNotCovered | NativeInput | BadRouteData

  /** The call that `encodePermitCall` packs; the signature is left out. */
  function PermitCall(permit: Permit, ifNecessary: bool): Call {
    Other(SelfPermit(permit.token, permit.value, permit.deadline, ifNecessary))
  }

  /** Another call in front of the calls of a plain multicall, or in front of the call itself. */
  function Prepended(first: OtherCall, swap: Call): Call {
    if swap.Multicall? && swap.kind.Plain? then Multicall(Plain, [Other(first)] + swap.calls)
    else Multicall(Plain, [Other(first), swap])
  }

  /** The calldata holds one swap, of the permitted token and within the permitted value. */
  predicate SwapCovered(swap: Call, permit: Permit) {
    var r := Decode(swap, ROUTER_V1, 0);
    r.Ok? && |r.value| == 1 && r.value[0].tokenIn == permit.token && r.value[0].amountIn <= permit.value
  }

  /**
   * The first call of a plain multicall is the permit as it was signed: its token, its value and its deadline. The
   * calls behind it are those of the swap calldata.
   */
  predicate CarriesPermit(result: Call, permit: Permit, ifNecessary: bool, swap: Call) {
    && result.Multicall? && result.kind.Plain? && result.calls != []
    && result.calls[0].Other? && result.calls[0].call.SelfPermit?
    && (var p := result.calls[0].call;
        && p.token == permit.token && p.value == permit.value && p.deadline == permit.deadline
        && p.ifNecessary == ifNecessary)
    && result.calls[1..] == if swap.Multicall? && swap.kind.Plain? then swap.calls else [swap]
  }

  /** The permit is for the input token of the one swap in the calldata, and not for less than its amount. */
  predicate CoversInput(permit: Permit, swap: Call) {
    var r := Decode(swap, ROUTER_V1, 0);
    r.Ok? && |r.value| == 1 && permit.token == r.value[0].tokenIn && permit.value >= r.value[0].amountIn
  }

  /** `permit` is the validated request, if it is valid; `permitCallOk` says whether `encodePermitCall` succeeds. */
  method EncodePermitMulticall(swap: Call, permit: Option<Permit>, ifNecessary: bool, permitCallOk: bool)
    returns (r: Result<Call, PermitError>)
    ensures r.Ok? <==> permit.Some? && permitCallOk && SwapCovered(swap, permit.value)
    ensures r.Ok? ==> r.value == Prepended(PermitCall(permit.value, ifNecessary).call, swap)
    ensures r.Ok? ==> CarriesPermit(r.value, permit.value, ifNecessary, swap) && CoversInput(permit.value, swap)
  {
    hide Decode;
    var infos := DecodeSwapInfos(swap, ROUTER_V1, 0);
    if infos.Err? {
      return Err(NotASwap(infos.error));
    }
    if |infos.value| != 1 {
      return Err(NotOneSwap(|infos.value|));
    }
    if permit.None? {
      return Err(InvalidPermit);
    }
    var info := infos.value[0];
    if info.tokenIn != permit.value.token {
      return Err(WrongToken);
    }
    if permit.value.value < info.amountIn {
      return Err(ValueTooLow);
    }
    if !permitCallOk {
      return Err(PermitCallFailed);
    }
    var calls: seq<Call> := [PermitCall(permit.value, ifNecessary)];
    if swap.Multicall? && swap.kind.Plain? {
      calls := calls + swap.calls;
    } else {
      calls := calls + [swap];
    }
    return Ok(Multicall(Plain, calls));
  }

  /** Calls of other selectors in front change nothing. */
  lemma {:induction false} SkipFirst(first: OtherCall, calls: seq<Call>, n: nat, v: int, depth: nat)
    requires n <= |calls|
    ensures DecodeItems(Multicall(Plain, [Other(first)] + calls), n + 1, v, depth)
            == DecodeItems(Multicall(Plain, calls), n, v, depth)
    decreases n
  {
    hide Decode;
    var more, fewer := Multicall(Plain, [Other(first)] + calls), Multicall(Plain, calls);
    if n == 0 {
      assert !more.calls[0].Supported();
      assert DecodeItems(more, 0, v, depth) == Ok([]);
    } else {
      SkipFirst(first, calls, n - 1, v, depth);
      assert more.calls[n] == fewer.calls[n - 1];
    }
  }

  /** A plain multicall around swaps of the right version leaves them as they are. */
  lemma {:induction false} PlainMergesNothing(infos: seq<SwapInfo>, v: int)
    requires forall i :: 0 <= i < |infos| ==> infos[i].version == v
    ensures MergeAll(infos, Plain, v) == Ok(infos)
  {
    if infos != [] {
      PlainMergesNothing(infos[..|infos| - 1], v);
      assert infos == infos[..|infos| - 1] + [infos[|infos| - 1]];
    }
  }

  lemma PrependedToSwap(first: OtherCall, swap: Call)
    requires !(swap.Multicall? && swap.kind.Plain?) && Decode(swap, ROUTER_V1, 0).Ok?
    ensures Decode(Prepended(first, swap), ROUTER_V1, 0) ==
              if swap.V2Single? then Err(VersionMismatch(ROUTER_02)) else Decode(swap, ROUTER_V1, 0)
  {
    hide DecodePath;
    var infos := Decode(swap, ROUTER_V1, 0).value;
    assert !swap.Multicall?;
    assert |infos| == 1 && infos[0].version == if swap.V2Single? then ROUTER_02 else ROUTER_V1;
    assert Decode(swap, ROUTER_V1, 1) == Ok(infos);
    var calls := [swap];
    assert [Other(first)] + calls == [Other(first), swap];
    hide Decode;
    SkipFirst(first, calls, 1, ROUTER_V1, 0);
    assert DecodeItems(Multicall(Plain, calls), 0, ROUTER_V1, 0) == Ok([]);
    assert [] + infos == infos;
    assert DecodeItems(Multicall(Plain, calls), 1, ROUTER_V1, 0) == Ok(infos);
    DecodePlain(Prepended(first, swap), infos);
    if !swap.V2Single? {
      PlainMergesNothing(infos, ROUTER_V1);
    } else {
      assert infos[..0] == [];
    }
  }

  lemma DecodePlain(c: Call, infos: seq<SwapInfo>)
    requires c.Multicall? && c.kind.Plain? && DecodeItems(c, |c.calls|, ROUTER_V1, 0) == Ok(infos) && infos != []
    ensures Decode(c, ROUTER_V1, 0) == MergeAll(infos, Plain, ROUTER_V1)
  {
  }

  lemma PrependedToMulticall(first: OtherCall, swap: Call)
    requires swap.Multicall? && swap.kind.Plain?
    ensures Decode(Prepended(first, swap), ROUTER_V1, 0) == Decode(swap, ROUTER_V1, 0)
  {
    hide Decode, DecodeItems, MergeAll;
    SkipFirst(first, swap.calls, |swap.calls|, ROUTER_V1, 0);
    assert swap == Multicall(Plain, swap.calls);
    MulticallOf(swap, 0);
    MulticallOf(Prepended(first, swap), 0);
  }

  /**
   * The calldata with the permit decodes to the very swap that was decoded without it, exactly unless the input
   * is a bare swap for the other router: that one passes the decoder alone but not inside the multicall.
   */
  lemma PermitPreservesSwap(first: OtherCall, swap: Call)
    requires Decode(swap, ROUTER_V1, 0).Ok?
    ensures Decode(Prepended(first, swap), ROUTER_V1, 0) == Decode(swap, ROUTER_V1, 0) <==> !swap.V2Single?
    ensures swap.V2Single? ==> Decode(Prepended(first, swap), ROUTER_V1, 0) == Err(VersionMismatch(ROUTER_02))
  {
    hide Decode;
    if swap.Multicall? && swap.kind.Plain? {
      PrependedToMulticall(first, swap);
    } else {
      PrependedToSwap(first, swap);
    }
  }

  /** A bare swap for the second router with a permit that covers it: accepted, and no longer decodable. */
  lemma PermitLosesSwap(a: Address)
    ensures var swap, permit := V2Single(SingleArgs(a, a, 0, a, 1, 1, 0)), Permit(a, 1, 1);
            SwapCovered(swap, permit) &&
            Decode(Prepended(PermitCall(permit, false).call, swap), ROUTER_V1, 0) == Err(VersionMismatch(ROUTER_02))
  {
    var swap, permit := V2Single(SingleArgs(a, a, 0, a, 1, 1, 0)), Permit(a, 1, 1);
    assert SwapCovered(swap, permit);
    hide Decode;
    PermitPreservesSwap(PermitCall(permit, false).call, swap);
  }

  // ---- buildSwapCalldata --------------------------------------------------------------------------------

  datatype Request = Request(amountIn: nat, tokenOut: Address, inputNative: bool, outputNative: bool,
                             recipient: Address,
                             feeBips: nat, feeReceiver: Address)

  /** Whether the router receives the output first and pays it out in a second call. */
  predicate PaysThroughRouter(q: Request) { q.outputNative || q.feeBips > 0 }

  /** The second call: everything in hand goes to the recipient, less the fee, if it reaches the gross minimum. */
  function Payment(q: Request, grossMinimum: nat): OtherCall {
    if !q.outputNative then SweepTokenWithFee(q.tokenOut, grossMinimum, q.recipient, q.feeBips, q.feeReceiver)
    else if q.feeBips > 0 then UnwrapWeth9WithFee(grossMinimum, q.recipient, q.feeBips, q.feeReceiver)
    else UnwrapWeth9(grossMinimum, q.recipient)
  }

  /** `None` stands for the errors of the encoders; the quote has checked the minimum and the deadline before. */
  method BuildSwapCalldata(q: Request, swapRouter: Address, hops: Hops, path: Bytes, grossMinimum: nat, deadline: nat)
    returns (r: Option<Call>)
    requires ValidHops(hops) && path == EncodePath(hops)
    ensures r.Some? <==> deadline > 0 && grossMinimum > 0
                         && (|hops.fees| > 1 ==> q.amountIn > 0 && SwapRecipient(q, swapRouter) != ZERO_ADDRESS)
    ensures r.Some? ==> r.value == QuotedCall(q, swapRouter, hops, grossMinimum, deadline)
  {
    if deadline <= 0 || grossMinimum <= 0 {
      return None;
    }
    var swapRecipient := q.recipient;
    if q.outputNative || q.feeBips > 0 {
      swapRecipient := swapRouter;
    }
    var swapCall: Call;
    if |hops.fees| == 1 {
      swapCall := V1Single(SingleArgs(hops.tokens[0], hops.tokens[1], hops.fees[0], swapRecipient, q.amountIn,
        grossMinimum, 0), deadline);
    } else {
      if swapRecipient == ZERO_ADDRESS || q.amountIn <= 0 {
        return None;
      }
      DecodeInvertsEncode(hops);
      hide EncodePath;
      var decoded := DecodeV3Path(path);
      if decoded.Err? {
        return None;
      }
      swapCall := V1Path(PathArgs(path, swapRecipient, deadline, q.amountIn, grossMinimum));
    }
    var calls := [swapCall];
    if q.outputNative {
      if q.feeBips > 0 {
        calls := calls + [Other(UnwrapWeth9WithFee(grossMinimum, q.recipient, q.feeBips, q.feeReceiver))];
      } else {
        calls := calls + [Other(UnwrapWeth9(grossMinimum, q.recipient))];
      }
    } else if q.feeBips > 0 {
      calls := calls + [Other(SweepTokenWithFee(q.tokenOut, grossMinimum, q.recipient, q.feeBips, q.feeReceiver))];
    }
    if |calls| == 1 {
      return Some(calls[0]);
    }
    return Some(Multicall(Plain, calls));
  }

  function SwapRecipient(q: Request, swapRouter: Address): Address {
    if PaysThroughRouter(q) then swapRouter else q.recipient
  }

  function QuotedSwap(q: Request, swapRouter: Address, hops: Hops, grossMinimum: nat, deadline: nat): Call
    requires ValidHops(hops)
  {
    if |hops.fees| == 1 then
      V1Single(SingleArgs(hops.tokens[0], hops.tokens[1], hops.fees[0], SwapRecipient(q, swapRouter), q.amountIn,
        grossMinimum, 0), deadline)
    else V1Path(PathArgs(EncodePath(hops), SwapRecipient(q, swapRouter), deadline, q.amountIn, grossMinimum))
  }

  function QuotedCall(q: Request, swapRouter: Address, hops: Hops, grossMinimum: nat, deadline: nat): Call
    requires ValidHops(hops)
  {
    var swap := QuotedSwap(q, swapRouter, hops, grossMinimum, deadline);
    if PaysThroughRouter(q) then Multicall(Plain, [swap, Other(Payment(q, grossMinimum))]) else swap
  }

  /** The swap a wallet must find in the calldata of a quote: the route, the amounts and the deadline quoted. */
  predicate SaysQuote(info: SwapInfo, q: Request, swapRouter: Address, hops: Hops, grossMinimum: nat, deadline: nat) {
    && info.tokens == hops.tokens && info.fees == hops.fees && hops.tokens != [] && hops.fees != []
    && (if |hops.fees| == 1 then info.fee == hops.fees[0] && info.path == []
        else info.fee == 0 && ValidHops(hops) && info.path == EncodePath(hops))
    && info.tokenIn == hops.tokens[0] && info.tokenOut == hops.tokens[|hops.tokens| - 1]
    && info.recipient == SwapRecipient(q, swapRouter) && info.deadline == Some(deadline) && info.blockhash == None
    && info.amountIn == q.amountIn && info.amountOutMinimum == grossMinimum && info.sqrtPriceLimit == 0
       && info.version == ROUTER_V1
  }

  lemma SwapSaysQuote(q: Request, swapRouter: Address, hops: Hops, grossMinimum: nat, deadline: nat, depth: nat)
    requires ValidHops(hops) && q.amountIn > 0 && grossMinimum > 0 && deadline > 0
             && SwapRecipient(q, swapRouter) != ZERO_ADDRESS
    requires depth <= MAX_MULTICALL_DEPTH
    ensures var r := Decode(QuotedSwap(q, swapRouter, hops, grossMinimum, deadline), ROUTER_V1, depth);
            r.Ok? && |r.value| == 1 && SaysQuote(r.value[0], q, swapRouter, hops, grossMinimum, deadline)
  {
    DecodeInvertsEncode(hops);
    hide DecodePath, EncodePath, DecodeItems;
    if |hops.fees| == 1 {
      assert hops.tokens == [hops.tokens[0], hops.tokens[1]] && hops.fees == [hops.fees[0]];
    }
  }

  /**
   * The output reaches the recipient once: the swap sends it there, or it sends it to the router and is followed
   * by exactly one call that pays the recipient with the gross minimum and the fee of the quote.
   */
  lemma QuotePaysRecipient(q: Request, swapRouter: Address, hops: Hops, grossMinimum: nat, deadline: nat)
    requires ValidHops(hops) && SwapRecipient(q, swapRouter) != ZERO_ADDRESS && q.amountIn > 0 && grossMinimum > 0
             && deadline > 0
    ensures var c := QuotedCall(q, swapRouter, hops, grossMinimum, deadline);
            var info := Decode(QuotedSwap(q, swapRouter, hops, grossMinimum, deadline), ROUTER_V1, 0);
            && info.Ok? && |info.value| == 1
            && (!c.Multicall? ==> info.value[0].recipient == q.recipient && !q.outputNative && q.feeBips == 0)
            && (c.Multicall? ==>
                  && info.value[0].recipient == swapRouter && |c.calls| == 2 && c.calls[1].Other?
                  && var pay := c.calls[1].call;
                     && (pay.UnwrapWeth9? || pay.UnwrapWeth9WithFee? || pay.SweepTokenWithFee?)
                     && (pay.SweepTokenWithFee? <==> !q.outputNative)
                        && (pay.SweepTokenWithFee? ==> pay.token == q.tokenOut)
                     && pay.minimum == grossMinimum && pay.recipient == q.recipient
                     && (if pay.UnwrapWeth9? then q.feeBips == 0
                         else pay.feeBips == q.feeBips > 0 && pay.feeReceiver == q.feeReceiver))
  {
    SwapSaysQuote(q, swapRouter, hops, grossMinimum, deadline, 0);
    hide Decode, ValidHops;
  }

  /** Decoding the calldata of a quote gives back the quote. */
  lemma QuoteDecodes(q: Request, swapRouter: Address, hops: Hops, grossMinimum: nat, deadline: nat)
    requires ValidHops(hops) && q.amountIn > 0 && grossMinimum > 0 && deadline > 0
             && SwapRecipient(q, swapRouter) != ZERO_ADDRESS
    ensures var r := Decode(QuotedCall(q, swapRouter, hops, grossMinimum, deadline), ROUTER_V1, 0);
            r.Ok? && |r.value| == 1 && SaysQuote(r.value[0], q, swapRouter, hops, grossMinimum, deadline)
  {
    SwapSaysQuote(q, swapRouter, hops, grossMinimum, deadline, 0);
    SwapSaysQuote(q, swapRouter, hops, grossMinimum, deadline, 1);
    var swap := QuotedSwap(q, swapRouter, hops, grossMinimum, deadline);
    var c := QuotedCall(q, swapRouter, hops, grossMinimum, deadline);
    assert swap.Supported();
    if c.Multicall? {
      var infos := Decode(swap, ROUTER_V1, 1).value;
      hide Decode, ValidHops, QuotedSwap;
      assert DecodeItems(c, 0, ROUTER_V1, 0) == Ok([]);
      assert [] + infos == infos;
      assert DecodeItems(c, 1, ROUTER_V1, 0) == Ok(infos);
      assert !c.calls[1].Supported();
      assert DecodeItems(c, 2, ROUTER_V1, 0) == Ok(infos);
      DecodePlain(c, infos);
      PlainMergesNothing(infos, ROUTER_V1);
    }
  }

  // ---- AttachPermit -------------------------------------------------------------------------------------

  /** The parts of a route that matter here; `None` where the text does not parse. */
  datatype Route = Route(to: Option<Address>, data: Option<Call>, value: string, approval: Option<Approval>,
                         expiresAt: int)

  datatype Approval = Approval(token: Option<Address>, spender: Option<Address>, amount: Option<int>)

  /** The checks of `AttachPermit` on the route and the permit, and those of `EncodePermitMulticall`. */
  predicate RouteCovered(route: Route, swapRouter: Address, permit: Permit) {
    && route.approval.Some? && route.to == Some(swapRouter) && route.approval.value.spender == Some(swapRouter)
    && route.approval.value.token == Some(permit.token)
    && route.approval.value.amount.Some? && 0 < route.approval.value.amount.value <= permit.value
    && 0 < route.expiresAt <= permit.deadline
    && route.value in {"", "0"} && route.data.Some? && SwapCovered(route.data.value, permit)
  }

  method AttachPermit(route: Route, swapRouter: Address, permit: Option<Permit>, ifNecessary: bool, permitCallOk: bool)
    returns (r: Result<Call, PermitError>)
    ensures r.Ok? <==> permit.Some? && permitCallOk && RouteCovered(route, swapRouter, permit.value)
    ensures r.Ok? ==> r.value == Prepended(PermitCall(permit.value, ifNecessary).call, route.data.value)
    ensures r.Ok? ==>
              && CarriesPermit(r.value, permit.value, ifNecessary, route.data.value)
              && CoversInput(permit.value, route.data.value)
              && permit.value.deadline >= route.expiresAt > 0 && (route.value == "" || route.value == "0")
              && route.to == Some(swapRouter) && route.approval.value.spender == Some(swapRouter)
              && route.approval.value.token == Some(permit.value.token) && route.approval.value.amount.Some?
              && permit.value.value >= route.approval.value.amount.value > 0
  {
    hide Decode;
    if route.approval.None? {
      return Err(NativeInput);
    }
    var approval := route.approval.value;
    if route.to != Some(swapRouter) || approval.spender != Some(swapRouter) {
      return Err(WrongRouter);
    }
    if permit.None? {
      return Err(InvalidPermit);
    }
    if approval.token != Some(permit.value.token) {
      return Err(WrongToken);
    }
    if approval.amount.None? || approval.amount.value <= 0 || permit.value.value < approval.amount.value {
      return Err(ApprovalNotCovered);
    }
    if route.expiresAt <= 0 || permit.value.deadline < route.expiresAt {
      return Err(DeadlineNotCovered);
    }
    if route.value != "" && route.value != "0" {
      return Err(NativeInput);
    }
    if route.data.None? {
      return Err(BadRouteData);
    }
    r := EncodePermitMulticall(route.data.value, permit, ifNecessary, permitCallOk);
  }

  /** The route that `Quote` returns for an input that is not native. */
  function QuotedRoute(q: Request, swapRouter: Address, hops: Hops, grossMinimum: nat, deadline: nat): Route
    requires ValidHops(hops)
  {
    Route(Some(swapRouter), Some(QuotedCall(q, swapRouter, hops, grossMinimum, deadline)), "",
          Some(Approval(Some(hops.tokens[0]), Some(swapRouter), Some(q.amountIn))), deadline)
  }

  /**
   * From quote to permit: a permit for the quoted token that covers the quoted amount and outlives the quote is
   * accepted, and the calldata with the permit still says the quote.
   */
  lemma QuoteThenPermit(q: Request, swapRouter: Address, hops: Hops, grossMinimum: nat, deadline: nat, permit: Permit,
                        ifNecessary: bool)
    requires ValidHops(hops) && q.amountIn > 0 && grossMinimum > 0 && deadline > 0
             && SwapRecipient(q, swapRouter) != ZERO_ADDRESS
    ensures RouteCovered(QuotedRoute(q, swapRouter, hops, grossMinimum, deadline), swapRouter, permit) <==>
            permit.token == hops.tokens[0] && permit.value >= q.amountIn && permit.deadline >= deadline
    ensures var d := Decode(Prepended(PermitCall(permit, ifNecessary).call,
            QuotedCall(q, swapRouter, hops, grossMinimum, deadline)), ROUTER_V1, 0);
            d.Ok? && |d.value| == 1 && SaysQuote(d.value[0], q, swapRouter, hops, grossMinimum, deadline)
  {
    QuoteDecodes(q, swapRouter, hops, grossMinimum, deadline);
    PermitPreservesSwap(PermitCall(permit, ifNecessary).call, QuotedCall(q, swapRouter, hops, grossMinimum, deadline));
    assert !QuotedCall(q, swapRouter, hops, grossMinimum, deadline).V2Single?;
    hide Decode, QuotedCall, ValidHops;
  }
}
