/**
 * Decoding of nested router calldata (dex/univ3/client.go). Calldata is a tree: what its selector says,
 * its unpacked arguments, and for a multicall the calldata inside.
 */
module SwapCalls {
  import opened Common
  import opened PoolKeys
  import opened QuotePath

  const ROUTER_V1 := 1
  const ROUTER_02 := 2
  const MAX_MULTICALL_DEPTH := 8

  type Hash = b: Bytes | |b| == 32
    witness [0, 0, 0, 0, 0, 0, 0, 0, 0, 0, 0, 0, 0, 0, 0, 0, 0, 0, 0, 0, 0, 0, 0, 0, 0, 0, 0, 0, 0, 0, 0, 0]

  datatype SingleArgs = SingleArgs(tokenIn: Address, tokenOut: Address, fee: Uint32, recipient: Address,
                                   amountIn: nat, amountOutMinimum: nat, sqrtPriceLimit: nat)

  datatype PathArgs = PathArgs(path: Bytes, recipient: Address, deadline: nat, amountIn: nat, amountOutMinimum: nat)

  /** The three multicalls of the two routers. */
  datatype Kind = Plain | WithDeadline(deadline: nat) | WithBlockhash(hash: Hash)

  /** Calls of the routers that are neither swaps nor multicalls. */
  datatype OtherCall =
    | SelfPermit(token: Address, value: nat, deadline: nat, ifNecessary: bool)
    | UnwrapWeth9(minimum: nat, recipient: Address)
    | UnwrapWeth9WithFee(minimum: nat, recipient: Address, feeBips: nat, feeReceiver: Address)
    | SweepTokenWithFee(token: Address, minimum: nat, recipient: Address, feeBips: nat, feeReceiver: Address)
    | UnknownSelector

  datatype Call =
    | TooShort                                  // fewer than four bytes
    | Other(call: OtherCall)
    | Malformed                                 // a swap selector whose arguments do not unpack
    | V1Single(args: SingleArgs, deadline: nat)
    | V1Path(pathArgs: PathArgs)
    | V2Single(args: SingleArgs)
    | Multicall(kind: Kind, calls: seq<Call>)
    | BadMulticall(plain: bool)                 // a multicall selector whose envelope does not unpack
  {
    /** `hasSupportedSelector`. */
    predicate Supported() { !TooShort? && !Other? }
  }

  datatype SwapInfo = SwapInfo(tokenIn: Address, tokenOut: Address, fee: Uint32, recipient: Address,
                               deadline: Option<nat>, blockhash: Option<Hash>, amountIn: nat, amountOutMinimum: nat,
                               sqrtPriceLimit: nat, version: int, path: Bytes, tokens: seq<Address>, fees: seq<Uint32>)

  datatype DecodeError =
    | CalldataTooShort | NestedTooDeep | UnsupportedSelector | BadSwap
    | InvalidRouterVersion | RequiresRouter02 | BadEnvelope
    | NoSwapFound | VersionMismatch(found: int) | HashConflict

  type Decoded = Result<seq<SwapInfo>, DecodeError>

  function SingleInfo(a: SingleArgs, deadline: Option<nat>, version: int): SwapInfo {
    SwapInfo(a.tokenIn, a.tokenOut, a.fee, a.recipient, deadline, None, a.amountIn, a.amountOutMinimum,
      a.sqrtPriceLimit,
             version, [], [a.tokenIn, a.tokenOut], [a.fee])
  }

  /** `decodeExactInputV1` checks the path, the recipient and the three numbers. */
  predicate GoodPath(a: PathArgs) {
    DecodePath(a.path).Ok? && a.recipient != ZERO_ADDRESS && a.deadline > 0 && a.amountIn > 0 && a.amountOutMinimum > 0
  }

  function PathInfo(a: PathArgs): SwapInfo
    requires GoodPath(a)
  {
    EncodeInvertsDecode(a.path);
    var hops := DecodePath(a.path).value;
    SwapInfo(hops.tokens[0], hops.tokens[|hops.tokens| - 1], 0, a.recipient, Some(a.deadline), None, a.amountIn,
      a.amountOutMinimum, 0,
             ROUTER_V1, a.path, hops.tokens, hops.fees)
  }

  // ---- the decoder --------------------------------------------------------------------------------------

  predicate ValidVersion(v: int) { v == ROUTER_V1 || v == ROUTER_02 }

  function Earlier(deadline: nat, other: Option<nat>): nat {
    if other.None? || deadline < other.value then deadline else other.value
  }

  /** What a multicall does to a swap found inside it. */
  function Merge(info: SwapInfo, kind: Kind, v: int): Result<SwapInfo, DecodeError> {
    if info.version != v then Err(VersionMismatch(info.version))
    else match kind
      case Plain => Ok(info)
      case WithDeadline(d) => Ok(info.(deadline := Some(Earlier(d, info.deadline))))
      case WithBlockhash(h) =>
        if info.blockhash.Some? && info.blockhash.value != h then Err(HashConflict) else Ok(info.(blockhash := Some(h)))
  }

  function MergeAll(infos: seq<SwapInfo>, kind: Kind, v: int): Decoded {
    if infos == [] then Ok([])
    else match MergeAll(infos[..|infos| - 1], kind, v)
      case Err(e) => Err(e)
      case Ok(done) =>
        match Merge(infos[|infos| - 1], kind, v)
        case Err(e) => Err(e)
        case Ok(info) => Ok(done + [info])
  }

  function Decode(c: Call, v: int, depth: nat): Decoded
    decreases c, 1, 0
  {
    if c.TooShort? then Err(CalldataTooShort)
    else if depth > MAX_MULTICALL_DEPTH then Err(NestedTooDeep)
    else match c
      case Other(_) => Err(UnsupportedSelector)
      case Malformed => Err(BadSwap)
      case V1Single(args, deadline) => Ok([SingleInfo(args, Some(deadline), ROUTER_V1)])
      case V1Path(args) => if GoodPath(args) then Ok([PathInfo(args)]) else Err(BadSwap)
      case V2Single(args) => Ok([SingleInfo(args, None, ROUTER_02)])
      case BadMulticall(plain) =>
        if !ValidVersion(v) then Err(InvalidRouterVersion)
        else if !plain && v != ROUTER_02 then Err(RequiresRouter02)
        else Err(BadEnvelope)
      case Multicall(kind, calls) =>
        if !ValidVersion(v) then Err(InvalidRouterVersion)
        else if !kind.Plain? && v != ROUTER_02 then Err(RequiresRouter02)
        else match DecodeItems(c, |calls|, v, depth)
          case Err(e) => Err(e)
          case Ok(infos) => if infos == [] then Err(NoSwapFound) else MergeAll(infos, kind, v)
  }

  /** The swaps of the first `n` calls inside a multicall. */
  function DecodeItems(c: Call, n: nat, v: int, depth: nat): Decoded
    requires c.Multicall? && n <= |c.calls|
    decreases c, 0, n
  {
    if n == 0 then Ok([])
    else match DecodeItems(c, n - 1, v, depth)
      case Err(e) => Err(e)
      case Ok(before) =>
        if !c.calls[n - 1].Supported() then Ok(before)
        else match Decode(c.calls[n - 1], v, depth + 1)
          case Err(NoSwapFound) => Ok(before)
          case Err(e) => Err(e)
          case Ok(infos) => Ok(before + infos)
  }

  /** `decodeSwapInfos`. */
  method DecodeSwapInfos(c: Call, v: int, depth: nat) returns (r: Decoded)
    ensures r == Decode(c, v, depth)
    decreases c
  {
    hide GoodPath, Merge;
    if c.TooShort? {
      return Err(CalldataTooShort);
    }
    if depth > MAX_MULTICALL_DEPTH {
      return Err(NestedTooDeep);
    }
    match c {
      case Other(_) => return Err(UnsupportedSelector);
      case Malformed => return Err(BadSwap);
      case V1Single(args, deadline) => return Ok([SingleInfo(args, Some(deadline), ROUTER_V1)]);
      case V1Path(args) =>
        var info := DecodeExactInput(args);
        return if info.Ok? then Ok([info.value]) else Err(info.error);
      case V2Single(args) => return Ok([SingleInfo(args, None, ROUTER_02)]);
      case BadMulticall(plain) =>
        if !ValidVersion(v) {
          return Err(InvalidRouterVersion);
        }
        return if !plain && v != ROUTER_02 then Err(RequiresRouter02) else Err(BadEnvelope);
      case Multicall(kind, calls) =>
        if !ValidVersion(v) {
          return Err(InvalidRouterVersion);
        }
        if !kind.Plain? && v != ROUTER_02 {
          return Err(RequiresRouter02);
        }
        r := DecodeInside(c, v, depth);
        if r.Err? {
          return;
        }
        if |r.value| == 0 {
          return Err(NoSwapFound);
        }
        r := MergeInPlace(r.value, kind, v);
    }
  }

  /** `decodeExactInputV1`. */
  method DecodeExactInput(a: PathArgs) returns (r: Result<SwapInfo, DecodeError>)
    ensures r == if GoodPath(a) then Ok(PathInfo(a)) else Err(BadSwap)
  {
    var hops := DecodeV3Path(a.path);
    if hops.Err? {
      return Err(BadSwap);
    }
    if a.recipient == ZERO_ADDRESS {
      return Err(BadSwap);
    }
    if a.deadline <= 0 || a.amountIn <= 0 || a.amountOutMinimum <= 0 {
      return Err(BadSwap);
    }
    EncodeInvertsDecode(a.path);
    var tokens := hops.value.tokens;
    return Ok(SwapInfo(tokens[0], tokens[|tokens| - 1], 0, a.recipient, Some(a.deadline), None, a.amountIn,
      a.amountOutMinimum, 0,
                       ROUTER_V1, a.path, tokens, hops.value.fees));
  }

  /** The loop over the calls inside. */
  method DecodeInside(c: Call, v: int, depth: nat) returns (r: Decoded)
    requires c.Multicall?
    ensures r == DecodeItems(c, |c.calls|, v, depth)
    decreases c, 0
  {
    hide Decode;
    var infos: seq<SwapInfo> := [];
    for index := 0 to |c.calls|
      invariant DecodeItems(c, index, v, depth) == Ok(infos)
    {
      var inner := c.calls[index];
      if !inner.Supported() {
        continue;
      }
      var innerInfos := DecodeSwapInfos(inner, v, depth + 1);
      if innerInfos.Err? {
        if innerInfos.error == NoSwapFound {
          continue;
        }
        DecodeItemsStops(c, index + 1, v, depth);
        return Err(innerInfos.error);
      }
      infos := infos + innerInfos.value;
    }
    return Ok(infos);
  }

  lemma {:induction false} DecodeItemsStops(c: Call, n: nat, v: int, depth: nat)
    requires c.Multicall? && n <= |c.calls| && DecodeItems(c, n, v, depth).Err?
    ensures DecodeItems(c, |c.calls|, v, depth) == DecodeItems(c, n, v, depth)
    decreases |c.calls| - n
  {
    hide Decode;
    if n < |c.calls| {
      DecodeItemsStops(c, n + 1, v, depth);
    }
  }

  /** The loop that checks every swap found and overwrites its deadline and block hash. */
  method MergeInPlace(found: seq<SwapInfo>, kind: Kind, v: int) returns (r: Decoded)
    ensures r == MergeAll(found, kind, v)
  {
    var infos := found;
    for i := 0 to |found|
      invariant |infos| == |found| && infos[i..] == found[i..]
      invariant MergeAll(found[..i], kind, v) == Ok(infos[..i])
    {
      assert found[..i + 1][..i] == found[..i];
      var info := infos[i];
      assert info == found[i] by { assert infos[i..][0] == found[i..][0]; }
      if info.version != v {
        MergeAllStops(found, i + 1, kind, v);
        return Err(VersionMismatch(info.version));
      }
      if kind.WithDeadline? {
        if info.deadline.None? || kind.deadline < info.deadline.value {
          info := info.(deadline := Some(kind.deadline));
        }
      }
      if kind.WithBlockhash? {
        if info.blockhash.Some? && info.blockhash.value != kind.hash {
          MergeAllStops(found, i + 1, kind, v);
          return Err(HashConflict);
        }
        if info.blockhash.None? {
          info := info.(blockhash := Some(kind.hash));
        }
      }
      ghost var before := infos;
      infos := infos[i := info];
      assert infos[..i + 1] == before[..i] + [info];
      assert infos[i + 1..] == found[i..][1..];
    }
    assert found[..|found|] == found && infos[..|found|] == infos;
    return Ok(infos);
  }

  lemma {:induction false} MergeAllStops(infos: seq<SwapInfo>, n: nat, kind: Kind, v: int)
    requires n <= |infos| && MergeAll(infos[..n], kind, v).Err?
    ensures MergeAll(infos, kind, v) == MergeAll(infos[..n], kind, v)
    decreases |infos| - n
  {
    hide Merge;
    if n < |infos| {
      assert infos[..n + 1][..n] == infos[..n];
      MergeAllStops(infos, n + 1, kind, v);
    } else {
      assert infos[..n] == infos;
    }
  }

  // ---- the leaves of a call tree ------------------------------------------------------------------------

  /** A swap and the multicalls around it, innermost first. */
  datatype Leaf = Leaf(info: SwapInfo, around: seq<Kind>)

  function Wrapped(leaf: Leaf, kind: Kind): Leaf { leaf.(around := leaf.around + [kind]) }

  function WrapAll(leaves: seq<Leaf>, kind: Kind): (r: seq<Leaf>)
    ensures |r| == |leaves| && forall i :: 0 <= i < |r| ==> r[i] == Wrapped(leaves[i], kind)
  {
    seq(|leaves|, i requires 0 <= i < |leaves| => Wrapped(leaves[i], kind))
  }

  /** The swaps of a tree from left to right. */
  function Leaves(c: Call): seq<Leaf>
    decreases c, 1, 0
  {
    match c
    case V1Single(args, deadline) => [Leaf(SingleInfo(args, Some(deadline), ROUTER_V1), [])]
    case V1Path(args) => if GoodPath(args) then [Leaf(PathInfo(args), [])] else []
    case V2Single(args) => [Leaf(SingleInfo(args, None, ROUTER_02), [])]
    case Multicall(kind, calls) => WrapAll(LeavesInside(c, |calls|), kind)
    case _ => []
  }

  function LeavesInside(c: Call, n: nat): seq<Leaf>
    requires c.Multicall? && n <= |c.calls|
    decreases c, 0, n
  {
    if n == 0 then [] else LeavesInside(c, n - 1) + Leaves(c.calls[n - 1])
  }

  /** The least of the swap's own deadline and those around it. */
  function Deadline(own: Option<nat>, around: seq<Kind>): Option<nat> {
    if around == [] then own
    else
      var before := Deadline(own, around[..|around| - 1]);
      if around[|around| - 1].WithDeadline? then Some(Earlier(around[|around| - 1].deadline, before)) else before
  }

  function Blockhash(around: seq<Kind>): Option<Hash> {
    if around == [] then None
    else if Blockhash(around[..|around| - 1]).Some? then Blockhash(around[..|around| - 1])
    else if around[|around| - 1].WithBlockhash? then Some(around[|around| - 1].hash)
    else None
  }

  predicate HashesAgree(around: seq<Kind>) {
    forall i, j :: 0 <= i < |around| && 0 <= j < |around| && around[i].WithBlockhash? && around[j].WithBlockhash? ==>
                     around[i].hash == around[j].hash
  }

  function Meaning(leaf: Leaf): SwapInfo {
    leaf.info.(deadline := Deadline(leaf.info.deadline, leaf.around), blockhash := Blockhash(leaf.around))
  }

  function Meanings(leaves: seq<Leaf>): (r: seq<SwapInfo>)
    ensures |r| == |leaves| && forall i :: 0 <= i < |r| ==> r[i] == Meaning(leaves[i])
  {
    seq(|leaves|, i requires 0 <= i < |leaves| => Meaning(leaves[i]))
  }

  /** `Deadline` is the minimum and `Blockhash` the hash that all the block hash multicalls name. */
  lemma {:induction false} MeaningOfEnclosing(own: Option<nat>, around: seq<Kind>)
    ensures var d := Deadline(own, around);
            && (d.None? <==> own.None? && forall i :: 0 <= i < |around| ==> !around[i].WithDeadline?)
            && (d.Some? ==> own == d || exists i :: 0 <= i < |around| && around[i] == WithDeadline(d.value))
            && (d.Some? && own.Some? ==> d.value <= own.value)
            && (d.Some? ==> forall i :: 0 <= i < |around| && around[i].WithDeadline? ==> d.value <= around[i].deadline)
    ensures var h := Blockhash(around);
            && (h.None? <==> forall i :: 0 <= i < |around| ==> !around[i].WithBlockhash?)
            && (h.Some? ==> exists i :: 0 <= i < |around| && around[i] == WithBlockhash(h.value))
  {
    if around != [] {
      var front := around[..|around| - 1];
      MeaningOfEnclosing(own, front);
      assert around == front + [around[|around| - 1]];
    }
  }

  /** What must hold of a tree regardless of the swaps in it: nesting, selectors, envelopes, arguments. */
  predicate WellFormed(c: Call, v: int, depth: nat)
    decreases c, 1, 0
  {
    depth <= MAX_MULTICALL_DEPTH &&
    match c
    case V1Single(_, _) => true
    case V2Single(_) => true
    case V1Path(args) => GoodPath(args)
    case Multicall(kind, calls) =>
      && ValidVersion(v) && (kind.Plain? || v == ROUTER_02)
      && forall i :: 0 <= i < |calls| && calls[i].Supported() ==> WellFormed(calls[i], v, depth + 1)
    case _ => false
  }

  predicate LeafFits(leaf: Leaf, v: int) { leaf.info.version == v && HashesAgree(leaf.around) }

  predicate LeavesFit(leaves: seq<Leaf>, v: int) { forall i :: 0 <= i < |leaves| ==> LeafFits(leaves[i], v) }

  /** A bare swap is taken whatever its version; inside a multicall every swap must be of the router's version. */
  predicate Acceptable(c: Call, v: int, depth: nat) {
    WellFormed(c, v, depth) && Leaves(c) != [] && (c.Multicall? ==> LeavesFit(Leaves(c), v))
  }

  /** What one call must decode to. */
  ghost predicate Expected(c: Call, v: int, depth: nat, r: Decoded) {
    && (r.Ok? <==> Acceptable(c, v, depth))
    && (r.Ok? ==> r.value == Meanings(Leaves(c)))
    && (r == Err(NoSwapFound) <==> WellFormed(c, v, depth) && Leaves(c) == [])
  }

  predicate ItemOk(item: Call, v: int, depth: nat) {
    item.Supported() ==> WellFormed(item, v, depth) && (item.Multicall? ==> LeavesFit(Leaves(item), v))
  }

  lemma LeafHasNothingAround(c: Call)
    requires !c.Multicall?
    ensures |Leaves(c)| <= 1
    ensures forall i :: 0 <= i < |Leaves(c)| ==> Leaves(c)[i].around == [] && Meaning(Leaves(c)[i]) == Leaves(c)[i].info
  {
  }

  lemma MeaningsConcat(a: seq<Leaf>, b: seq<Leaf>)
    ensures Meanings(a + b) == Meanings(a) + Meanings(b)
  {
  }

  lemma HashesOfWrapped(around: seq<Kind>, kind: Kind)
    ensures HashesAgree(around + [kind]) <==>
            HashesAgree(around) && (kind.WithBlockhash? && Blockhash(around).Some? ==>
                Blockhash(around).value == kind.hash)
  {
    MeaningOfEnclosing(None, around);
    var more := around + [kind];
    assert forall i :: 0 <= i < |around| ==> more[i] == around[i];
    assert more[|around|] == kind;
    if HashesAgree(more) {
      assert HashesAgree(around);
    }
  }

  /** Merging on the way out adds exactly the multicall at hand. */
  lemma MergeMeansWrapped(leaf: Leaf, kind: Kind, v: int)
    requires HashesAgree(leaf.around)
    ensures var r := Merge(Meaning(leaf), kind, v);
            && (r.Ok? <==> LeafFits(Wrapped(leaf, kind), v))
            && (r.Ok? ==> r.value == Meaning(Wrapped(leaf, kind)))
            && (r.Err? ==> r.error != NoSwapFound)
  {
    HashesOfWrapped(leaf.around, kind);
    assert (leaf.around + [kind])[..|leaf.around|] == leaf.around;
    hide HashesAgree;
  }

  lemma LeavesFitSnoc(leaves: seq<Leaf>, leaf: Leaf, v: int)
    ensures LeavesFit(leaves + [leaf], v) <==> LeavesFit(leaves, v) && LeafFits(leaf, v)
  {
    hide LeafFits;
    var all := leaves + [leaf];
    assert all[|leaves|] == leaf && forall i :: 0 <= i < |leaves| ==> all[i] == leaves[i];
  }

  lemma MeaningsSnoc(leaves: seq<Leaf>, leaf: Leaf)
    ensures Meanings(leaves + [leaf]) == Meanings(leaves) + [Meaning(leaf)]
  {
    hide Meaning;
  }

  lemma WrapAllSnoc(leaves: seq<Leaf>, leaf: Leaf, kind: Kind)
    ensures WrapAll(leaves + [leaf], kind) == WrapAll(leaves, kind) + [Wrapped(leaf, kind)]
  {
    hide Wrapped;
  }

  lemma {:induction false} MergeAllMeansWrapped(leaves: seq<Leaf>, kind: Kind, v: int)
    requires forall i :: 0 <= i < |leaves| ==> HashesAgree(leaves[i].around)
    ensures var r := MergeAll(Meanings(leaves), kind, v);
            && (r.Ok? <==> LeavesFit(WrapAll(leaves, kind), v))
            && (r.Ok? ==> r.value == Meanings(WrapAll(leaves, kind)))
            && (r.Err? ==> r.error != NoSwapFound)
  {
    hide HashesAgree, Merge, Meaning, LeafFits, Wrapped;
    if leaves != [] {
      var front, last := leaves[..|leaves| - 1], leaves[|leaves| - 1];
      assert leaves == front + [last];
      MergeAllMeansWrapped(front, kind, v);
      MergeMeansWrapped(last, kind, v);
      MeaningsSnoc(front, last);
      WrapAllSnoc(front, last, kind);
      MeaningsSnoc(WrapAll(front, kind), Wrapped(last, kind));
      LeavesFitSnoc(WrapAll(front, kind), Wrapped(last, kind), v);
      hide LeavesFit, Meanings, WrapAll;
      assert Meanings(leaves)[..|leaves| - 1] == Meanings(front);
    }
  }

  lemma {:induction false} DecodeItemsExpected(c: Call, n: nat, v: int, depth: nat)
    requires c.Multicall? && n <= |c.calls|
    ensures var r := DecodeItems(c, n, v, depth);
            && (r.Ok? <==> forall i :: 0 <= i < n ==> ItemOk(c.calls[i], v, depth + 1))
            && (r.Ok? ==> r.value == Meanings(LeavesInside(c, n)))
            && (r.Err? ==> r.error != NoSwapFound)
    decreases c, 0, n
  {
    hide Decode, WellFormed, Leaves, LeavesFit;
    if n > 0 {
      var item := c.calls[n - 1];
      DecodeItemsExpected(c, n - 1, v, depth);
      MeaningsConcat(LeavesInside(c, n - 1), Leaves(item));
      if item.Supported() {
        DecodeExpected(item, v, depth + 1);
        assert LeavesFit([], v) by { EmptyFits(v); }
      } else {
        assert Leaves(item) == [] by { UnsupportedHasNoLeaves(item); }
      }
    }
  }

  lemma EmptyFits(v: int)
    ensures LeavesFit([], v)
  {
  }

  lemma UnsupportedHasNoLeaves(c: Call)
    requires !c.Supported()
    ensures Leaves(c) == []
  {
  }

  lemma {:induction false} LeavesInsideAgree(c: Call, n: nat, v: int)
    requires c.Multicall? && n <= |c.calls|
    requires forall i :: 0 <= i < n && c.calls[i].Multicall? ==> LeavesFit(Leaves(c.calls[i]), v)
    ensures forall k :: 0 <= k < |LeavesInside(c, n)| ==> HashesAgree(LeavesInside(c, n)[k].around)
    decreases n
  {
    hide Leaves;
    if n > 0 {
      LeavesInsideAgree(c, n - 1, v);
      if !c.calls[n - 1].Multicall? {
        LeafHasNothingAround(c.calls[n - 1]);
      }
    }
  }

  /** A swap that fits with one more multicall around it fits without. */
  lemma {:induction false} LeavesInsideFit(c: Call, n: nat, v: int)
    requires c.Multicall? && n <= |c.calls| && LeavesFit(WrapAll(LeavesInside(c, n), c.kind), v)
    ensures forall i :: 0 <= i < n ==> LeavesFit(Leaves(c.calls[i]), v)
    decreases n
  {
    hide Leaves, HashesAgree;
    if n > 0 {
      var before, last := LeavesInside(c, n - 1), Leaves(c.calls[n - 1]);
      var all := LeavesInside(c, n);
      forall k | 0 <= k < |before| ensures LeafFits(WrapAll(before, c.kind)[k], v) {
        assert WrapAll(all, c.kind)[k] == WrapAll(before, c.kind)[k];
      }
      LeavesInsideFit(c, n - 1, v);
      forall k | 0 <= k < |last| ensures LeafFits(last[k], v) {
        assert all[|before| + k] == last[k];
        assert LeafFits(WrapAll(all, c.kind)[|before| + k], v);
        HashesOfWrapped(last[k].around, c.kind);
      }
    }
  }

  /** The decoder returns exactly the leaves, in order, with what the multicalls around them say. */
  lemma {:induction false} DecodeExpected(c: Call, v: int, depth: nat)
    ensures Expected(c, v, depth, Decode(c, v, depth))
    decreases c, 1, 0
  {
    hide GoodPath;
    if c.Multicall? {
      DecodeMulticallExpected(c, v, depth);
    } else {
      LeafHasNothingAround(c);
      hide Meaning;
    }
  }

  /** The inner calls decode without an error, apart from swaps that do not fit the multicall at hand. */
  lemma ItemsOkMeansWellFormed(c: Call, v: int, depth: nat)
    requires c.Multicall?
    ensures (forall i :: 0 <= i < |c.calls| ==> ItemOk(c.calls[i], v, depth + 1)) ==>
              forall i :: 0 <= i < |c.calls| && c.calls[i].Supported() ==> WellFormed(c.calls[i], v, depth + 1)
    ensures LeavesFit(Leaves(c), v)
            && (forall i :: 0 <= i < |c.calls| && c.calls[i].Supported() ==> WellFormed(c.calls[i], v, depth + 1)) ==>
              forall i :: 0 <= i < |c.calls| ==> ItemOk(c.calls[i], v, depth + 1)
  {
    assert Leaves(c) == WrapAll(LeavesInside(c, |c.calls|), c.kind);
    hide WellFormed, LeavesInside, Leaves, LeavesFit;
    if LeavesFit(Leaves(c), v) {
      LeavesInsideFit(c, |c.calls|, v);
    }
  }

  lemma {:induction false} DecodeMulticallExpected(c: Call, v: int, depth: nat)
    requires c.Multicall?
    ensures Expected(c, v, depth, Decode(c, v, depth))
    decreases c, 0, |c.calls| + 1
  {
    var items := DecodeItems(c, |c.calls|, v, depth);
    var inside := LeavesInside(c, |c.calls|);
    DecodeItemsExpected(c, |c.calls|, v, depth);
    ItemsOkMeansWellFormed(c, v, depth);
    assert Leaves(c) == WrapAll(inside, c.kind);
    assert inside == [] ==> LeavesFit(Leaves(c), v);
    assert WellFormed(c, v, depth) <==>
             && depth <= MAX_MULTICALL_DEPTH && ValidVersion(v) && (c.kind.Plain? || v == ROUTER_02)
             && forall i :: 0 <= i < |c.calls| && c.calls[i].Supported() ==> WellFormed(c.calls[i], v, depth + 1);
    hide WellFormed, Leaves, LeavesInside, LeavesFit, MergeAll, DecodeItems, ItemOk;
    if items.Ok? {
      LeavesInsideAgree(c, |c.calls|, v);
      MergeAllMeansWrapped(inside, c.kind, v);
    }
  }

  // ---- what single calls say ----------------------------------------------------------------------------

  /** Every argument of a single-pool swap reaches the result; the second router has no deadline of its own. */
  lemma SingleSwapIsRead(a: SingleArgs, deadline: nat, v: int, depth: nat)
    requires depth <= 8
    ensures var first, second := Decode(V1Single(a, deadline), v, depth), Decode(V2Single(a), v, depth);
            && first.Ok? && |first.value| == 1 && second.Ok? && |second.value| == 1
            && SaysSingle(first.value[0], a) && SaysSingle(second.value[0], a)
            && first.value[0].version == 1 && first.value[0].deadline == Some(deadline)
            && second.value[0].version == 2 && second.value[0].deadline == None
  {
  }

  predicate SaysSingle(info: SwapInfo, a: SingleArgs) {
    && info.tokenIn == a.tokenIn && info.tokenOut == a.tokenOut && info.fee == a.fee && info.recipient == a.recipient
    && info.amountIn == a.amountIn && info.amountOutMinimum == a.amountOutMinimum
    && info.sqrtPriceLimit == a.sqrtPriceLimit && info.blockhash == None
    && info.path == [] && info.tokens == [a.tokenIn, a.tokenOut] && info.fees == [a.fee]
  }

  /** A swap along a path is accepted exactly with a good path, a recipient and positive numbers. */
  lemma PathSwapIsRead(a: PathArgs, v: int, depth: nat)
    requires depth <= 8
    ensures var r := Decode(V1Path(a), v, depth);
            && (r.Ok? <==> DecodePath(a.path).Ok? && a.recipient != ZERO_ADDRESS
                           && a.deadline > 0 && a.amountIn > 0 && a.amountOutMinimum > 0)
            && (r.Err? ==> r.error == BadSwap)
            && (r.Ok? ==> |r.value| == 1 && SaysPath(r.value[0], a))
  {
    hide DecodePath;
    EncodeInvertsDecode(a.path);
  }

  predicate SaysPath(info: SwapInfo, a: PathArgs) {
    && DecodePath(a.path).Ok? && |info.tokens| > 0
    && info.tokens == DecodePath(a.path).value.tokens && info.fees == DecodePath(a.path).value.fees
    && info.path == a.path && info.tokenIn == info.tokens[0] && info.tokenOut == info.tokens[|info.tokens| - 1]
    && info.recipient == a.recipient && info.deadline == Some(a.deadline) && info.blockhash == None
    && info.amountIn == a.amountIn && info.amountOutMinimum == a.amountOutMinimum
    && info.fee == 0 && info.sqrtPriceLimit == 0 && info.version == 1
  }

  /** A multicall needs a known router, and one with a deadline or a block hash the second router. */
  lemma MulticallNeedsItsRouter(kind: Kind, calls: seq<Call>, v: int, depth: nat)
    requires depth <= 8
    ensures var r := Decode(Multicall(kind, calls), v, depth);
            && (v != 1 && v != 2 ==> r == Err(InvalidRouterVersion))
            && (v == 1 && !kind.Plain? ==> r == Err(RequiresRouter02))
            && (r.Ok? ==> v == 2 || (v == 1 && kind.Plain?))
  {
    hide DecodeItems, MergeAll;
  }

  /** `n` plain multicalls around a call. */
  function Nested(c: Call, n: nat): Call {
    if n == 0 then c else Multicall(Plain, [Nested(c, n - 1)])
  }

  lemma PlainAround(c: Call, infos: seq<SwapInfo>, depth: nat)
    requires c.Supported() && depth <= 8
    requires Decode(c, 1, depth + 1) in {Ok(infos), Err(NestedTooDeep)}
    requires |infos| == 1 && infos[0].version == 1
    ensures Decode(Multicall(Plain, [c]), 1, depth) == Decode(c, 1, depth + 1)
  {
    hide Decode;
    var m := Multicall(Plain, [c]);
    assert DecodeItems(m, 0, 1, depth) == Ok([]);
    assert [] + infos == infos;
    assert DecodeItems(m, 1, 1, depth) == Decode(c, 1, depth + 1);
    assert infos[..0] == [] && [] + [infos[0]] == infos;
    assert MergeAll(infos, Plain, 1) == Ok(infos);
    MulticallOf(m, depth);
  }

  lemma MulticallOf(c: Call, depth: nat)
    requires c.Multicall? && c.kind.Plain? && depth <= 8
    ensures Decode(c, 1, depth) ==
            match DecodeItems(c, |c.calls|, 1, depth)
            case Err(e) => Err(e)
            case Ok(infos) => if infos == [] then Err(NoSwapFound) else MergeAll(infos, Plain, 1)
  {
    hide DecodeItems, MergeAll;
  }

  lemma {:induction false} NestedDecodes(a: SingleArgs, deadline: nat, n: nat, depth: nat)
    ensures var r := Decode(Nested(V1Single(a, deadline), n), 1, depth);
            if n + depth <= 8 then r == Decode(V1Single(a, deadline), 1, 0) else r == Err(NestedTooDeep)
  {
    var c := Nested(V1Single(a, deadline), n);
    if n > 0 && depth <= 8 {
      var inner := Nested(V1Single(a, deadline), n - 1);
      NestedDecodes(a, deadline, n - 1, depth + 1);
      assert inner.Supported();
      assert c == Multicall(Plain, [inner]);
      PlainAround(inner, [SingleInfo(a, Some(deadline), ROUTER_V1)], depth);
    }
  }

  /** A swap is found under at most eight multicalls. */
  lemma NestingLimit(a: SingleArgs, deadline: nat, n: nat)
    ensures Decode(Nested(V1Single(a, deadline), n), 1, 0).Ok? <==> n <= 8
  {
    NestedDecodes(a, deadline, n, 0);
  }
}
