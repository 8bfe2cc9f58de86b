/** The routes a quote looks at: fee tiers and base tokens of a configuration, then every path of one or two hops. */
module QuoteRoutes {
  import opened Common
  import opened Hex
  import opened PoolKeys
  import opened QuotePath
  import opened Sentences
  import opened Sequences

  const MAX_FEE_TIERS := 6
  const MAX_QUOTE_BASE_TOKENS := 6
  const MAX_QUOTE_CANDIDATES := 128
  const DEFAULT_FEE_TIERS: seq<Uint32> := [100, 500, 3000, 10000]

  // ---- requiredClientAddress ----------------------------------------------------------------------------

  /** White space around the address is ignored; the zero address is refused. */
  function RequiredAddress(raw: string): Option<Address> {
    var s := TrimSpace(raw);
    if |s| != 42 || s[0] != '0' || s[1] !in "xX" || !AllHex(s[2..]) then None
    else if ReadHex(s[2..]) == ZERO_ADDRESS then None
    else Some(ReadHex(s[2..]))
  }

  /** "0x" and the digits of the address, of either case; `address.Hex()` mixes them for its checksum. */
  predicate IsTextOf(s: string, a: Address) {
    |s| == 42 && s[..2] == "0x" && SameDigits(s[2..], HexDigits(a))
  }

  lemma LowerHexIsText(a: Address)
    ensures IsTextOf(LowerHex(a), a)
  {
    ReadHexInvertsHexDigits(a);
    assert LowerHex(a)[2..] == HexDigits(a);
  }

  /** Every address but zero is read back from its text, whatever the case of the digits. */
  lemma RequiredAddressReadsBack(a: Address, s: string)
    requires IsTextOf(s, a)
    ensures RequiredAddress(s) == if a == ZERO_ADDRESS then None else Some(a)
  {
    ReadHexInvertsHexDigits(a);
    ReadHexIgnoresCase(s[2..], HexDigits(a));
    assert s[0] == s[..2][0] && s[1] == s[..2][1];
    assert !IsSpace(s[0]) && !IsSpace(s[41]) by { assert s[41] == s[2..][39]; }
    assert TrimSpace(s) == s;
    hide ReadHex, HexDigits;
  }

  /**
   * The accepted texts: white space, then "0x" or "0X" and the digits of an address that is not zero, in any case,
   * then white space.
   */
  lemma RequiredAddressExactly(raw: string, a: Address)
    ensures var s := TrimSpace(raw);
            RequiredAddress(raw) == Some(a) <==>
            && a != ZERO_ADDRESS && |s| == 42 && s[0] == '0' && (s[1] == 'x' || s[1] == 'X')
            && SameDigits(s[2..], HexDigits(a))
  {
    hide TrimSpace, ReadHex, HexDigits, SameDigits;
    var s := TrimSpace(raw);
    if |s| == 42 && AllHex(s[2..]) {
      DigitsOfRead(s[2..]);
    }
    if |s| == 42 && SameDigits(s[2..], HexDigits(a)) {
      ReadHexInvertsHexDigits(a);
      SameDigitsRead(s[2..], a);
    }
  }

  lemma SameDigitsRead(s: string, a: Address)
    requires SameDigits(s, HexDigits(a))
    ensures AllHex(s) && |s| % 2 == 0 && ReadHex(s) == a
  {
    ReadHexInvertsHexDigits(a);
    ReadHexIgnoresCase(s, HexDigits(a));
  }

  // ---- normalizeClientConfig: fee tiers -----------------------------------------------------------------

  datatype ConfigError =
    | TooManyTiers | FeeTooLarge(index: nat) | TooManyBases | BadBase(index: nat) | TooManyCandidates(count: nat)

  function EffectiveTiers(tiers: seq<Uint32>): seq<Uint32> { if tiers == [] then DEFAULT_FEE_TIERS else tiers }

  predicate StrictlyAscending(s: seq<Uint32>) { forall i, j :: 0 <= i < j < |s| ==> s[i] < s[j] }

  function Insert(x: Uint32, s: seq<Uint32>): seq<Uint32> {
    if s == [] || x < s[0] then [x] + s else [s[0]] + Insert(x, s[1..])
  }

  /** `sort.Slice` ascending. */
  function Sorted(s: seq<Uint32>): seq<Uint32> {
    if s == [] then [] else Insert(s[0], Sorted(s[1..]))
  }

  lemma {:induction false} InsertIntoAscending(x: Uint32, s: seq<Uint32>)
    requires StrictlyAscending(s) && x !in s
    ensures StrictlyAscending(Insert(x, s)) && (forall y :: y in Insert(x, s) <==> y == x || y in s)
    decreases |s|
  {
    if s != [] && s[0] < x {
      InsertIntoAscending(x, s[1..]);
      assert s == [s[0]] + s[1..];
      var t := Insert(x, s[1..]);
      forall j | 0 <= j < |t| ensures s[0] < t[j] { assert t[j] in t; }
    }
  }

  lemma {:induction false} SortedIsAscending(s: seq<Uint32>)
    requires NoDuplicates(s)
    ensures StrictlyAscending(Sorted(s)) && (forall y :: y in Sorted(s) <==> y in s)
  {
    if s != [] {
      SortedIsAscending(s[1..]);
      InsertIntoAscending(s[0], Sorted(s[1..]));
      assert s == [s[0]] + s[1..];
    }
  }

  predicate TierResult(config: seq<Uint32>, r: Result<seq<Uint32>, ConfigError>) {
    var tiers := EffectiveTiers(config);
    match r
    case Ok(normalized) =>
      && |tiers| <= MAX_FEE_TIERS && (forall i :: 0 <= i < |tiers| ==> tiers[i] <= MAX_UINT24)
      && StrictlyAscending(normalized) && (forall i :: 0 <= i < |tiers| ==> tiers[i] in normalized)
      && (forall i :: 0 <= i < |normalized| ==> normalized[i] in tiers)
    case Err(TooManyTiers) => |tiers| > MAX_FEE_TIERS
    case Err(FeeTooLarge(k)) =>
      |tiers| <= MAX_FEE_TIERS && k < |tiers| && tiers[k] > MAX_UINT24
      && forall i :: 0 <= i < k ==> tiers[i] <= MAX_UINT24
    case Err(_) => false
  }

  method NormalizeTiers(config: seq<Uint32>) returns (r: Result<seq<Uint32>, ConfigError>)
    ensures TierResult(config, r)
  {
    var tiers := config;
    if |tiers| == 0 {
      tiers := DEFAULT_FEE_TIERS;
    }
    if |tiers| > MAX_FEE_TIERS {
      return Err(TooManyTiers);
    }
    var seen: set<Uint32> := {};
    var normalized: seq<Uint32> := [];
    for i := 0 to |tiers|
      invariant forall k :: 0 <= k < i ==> tiers[k] <= MAX_UINT24 && tiers[k] in normalized
      invariant forall fee :: fee in seen <==> fee in normalized
      invariant forall k :: 0 <= k < |normalized| ==> normalized[k] in tiers
      invariant NoDuplicates(normalized)
    {
      if tiers[i] > MAX_UINT24 {
        return Err(FeeTooLarge(i));
      }
      if tiers[i] !in seen {
        seen := seen + {tiers[i]};
        normalized := normalized + [tiers[i]];
      }
    }
    SortedIsAscending(normalized);
    r := Ok(Sorted(normalized));
    assert forall k :: 0 <= k < |r.value| ==> r.value[k] in normalized;
  }

  // ---- normalizeClientConfig: base tokens ---------------------------------------------------------------

  /** First occurrences only. */
  function FirstOccurrences<T(==)>(s: seq<T>): seq<T> {
    if s == [] then []
    else if s[|s| - 1] in s[..|s| - 1] then FirstOccurrences(s[..|s| - 1])
    else FirstOccurrences(s[..|s| - 1]) + [s[|s| - 1]]
  }

  lemma {:induction false} FirstOccurrencesMembers<T>(s: seq<T>)
    ensures NoDuplicates(FirstOccurrences(s)) && |FirstOccurrences(s)| <= |s|
    ensures forall x :: x in FirstOccurrences(s) <==> x in s
  {
    if s != [] {
      FirstOccurrencesMembers(s[..|s| - 1]);
      assert s == s[..|s| - 1] + [s[|s| - 1]];
    }
  }

  function Parsed(raws: seq<string>): seq<Address>
    requires forall i :: 0 <= i < |raws| ==> RequiredAddress(raws[i]).Some?
  {
    seq(|raws|, i requires 0 <= i < |raws| => RequiredAddress(raws[i]).value)
  }

  predicate AllParse(raws: seq<string>) { forall i :: 0 <= i < |raws| ==> RequiredAddress(raws[i]).Some? }

  predicate BaseResult(raws: seq<string>, wrapped: Address, r: Result<seq<Address>, ConfigError>) {
    match r
    case Ok(bases) =>
      |raws| <= MAX_QUOTE_BASE_TOKENS && AllParse(raws) && bases == FirstOccurrences(Parsed(raws) + [wrapped])
    case Err(TooManyBases) => |raws| > MAX_QUOTE_BASE_TOKENS
    case Err(BadBase(k)) =>
      |raws| <= MAX_QUOTE_BASE_TOKENS && k < |raws| && RequiredAddress(raws[k]).None? && AllParse(raws[..k])
    case Err(_) => false
  }

  function Texts(bases: seq<Address>, hex: Address -> string): (r: seq<string>)
    ensures |r| == |bases|
  {
    seq(|bases|, i requires 0 <= i < |bases| => hex(bases[i]))
  }

  /** `hex` is `address.Hex()`; the texts are what goes back into the configuration. */
  method NormalizeBases(raws: seq<string>, wrapped: Address, hex: Address -> string)
    returns (r: Result<seq<Address>, ConfigError>, texts: seq<string>)
    ensures BaseResult(raws, wrapped, r)
    ensures r.Ok? ==> texts == Texts(FirstOccurrences(Parsed(raws)), hex)
  {
    hide RequiredAddress;
    texts := [];
    if |raws| > MAX_QUOTE_BASE_TOKENS {
      return Err(TooManyBases), [];
    }
    var seen: set<Address> := {};
    var bases: seq<Address> := [];
    for i := 0 to |raws|
      invariant AllParse(raws[..i])
      invariant bases == FirstOccurrences(Parsed(raws[..i])) && texts == Texts(bases, hex)
      invariant forall a :: a in seen <==> a in Parsed(raws[..i])
    {
      var base := RequiredAddress(raws[i]);
      if base.None? {
        return Err(BadBase(i)), [];
      }
      ghost var before := Parsed(raws[..i]);
      assert raws[..i + 1] == raws[..i] + [raws[i]];
      assert Parsed(raws[..i + 1]) == before + [base.value];
      assert (before + [base.value])[..|before|] == before;
      if base.value !in seen {
        seen := seen + {base.value};
        bases := bases + [base.value];
        texts := texts + [hex(base.value)];
      }
    }
    assert raws[..|raws|] == raws;
    assert (Parsed(raws) + [wrapped])[..|raws|] == Parsed(raws);
    if wrapped !in seen {
      bases := bases + [wrapped];
    }
    return Ok(bases), texts;
  }

  // ---- normalizeClientConfig: the bound -----------------------------------------------------------------

  datatype Routing = Routing(feeTiers: seq<Uint32>, baseTokens: seq<Address>)

  function CandidateLimit(tiers: nat, bases: nat): nat { tiers + bases * tiers * tiers }

  method NormalizeRouting(configTiers: seq<Uint32>, configBases: seq<string>, wrapped: Address, hex: Address -> string)
    returns (r: Result<Routing, ConfigError>, texts: seq<string>)
    requires wrapped != ZERO_ADDRESS
    ensures r.Ok? ==>
              && Normal(r.value) && TierResult(configTiers, Ok(r.value.feeTiers))
              && BaseResult(configBases, wrapped, Ok(r.value.baseTokens))
              && texts == Texts(FirstOccurrences(Parsed(configBases)), hex)
    ensures r.Err? && !r.error.TooManyCandidates? ==>
              TierResult(configTiers, Err(r.error)) || BaseResult(configBases, wrapped, Err(r.error))
    ensures r.Err? && r.error.TooManyCandidates? ==>
              exists tiers, bases :: TierResult(configTiers, Ok(tiers)) && BaseResult(configBases, wrapped, Ok(bases))
                                     && r.error.count == CandidateLimit(|tiers|, |bases|) > MAX_QUOTE_CANDIDATES
  {
    hide EffectiveTiers, StrictlyAscending, AllParse, Normal, FirstOccurrences, Texts, RequiredAddress;
    var tiers := NormalizeTiers(configTiers);
    if tiers.Err? {
      return Err(tiers.error), [];
    }
    var bases;
    bases, texts := NormalizeBases(configBases, wrapped, hex);
    if bases.Err? {
      return Err(bases.error), [];
    }
    var limit := |tiers.value| + |bases.value| * |tiers.value| * |tiers.value|;
    if limit > MAX_QUOTE_CANDIDATES {
      return Err(TooManyCandidates(limit)), [];
    }
    NormalizedIsNormal(configTiers, tiers.value, configBases, wrapped, bases.value);
    return Ok(Routing(tiers.value, bases.value)), texts;
  }

  /** What the rest of the client relies on. */
  predicate Normal(c: Routing) {
    && |c.feeTiers| > 0 && StrictlyAscending(c.feeTiers)
       && (forall i :: 0 <= i < |c.feeTiers| ==> c.feeTiers[i] <= MAX_UINT24)
    && NoDuplicates(c.baseTokens) && ZERO_ADDRESS !in c.baseTokens
    && CandidateLimit(|c.feeTiers|, |c.baseTokens|) <= MAX_QUOTE_CANDIDATES
  }

  lemma NormalizedIsNormal(configTiers: seq<Uint32>, tiers: seq<Uint32>, configBases: seq<string>, wrapped: Address,
                           bases: seq<Address>)
    requires TierResult(configTiers, Ok(tiers)) && BaseResult(configBases, wrapped, Ok(bases))
             && wrapped != ZERO_ADDRESS
    requires CandidateLimit(|tiers|, |bases|) <= MAX_QUOTE_CANDIDATES
    ensures Normal(Routing(tiers, bases))
  {
    var effective := EffectiveTiers(configTiers);
    assert effective[0] in tiers;
    forall i | 0 <= i < |tiers| ensures tiers[i] <= MAX_UINT24 { assert tiers[i] in effective; }
    FirstOccurrencesMembers(Parsed(configBases) + [wrapped]);
    assert forall i :: 0 <= i < |configBases| ==> Parsed(configBases)[i] != ZERO_ADDRESS;
  }

  lemma LaterMembers(s: seq<Uint32>, x: Uint32)
    requires StrictlyAscending(s) && s != []
    ensures x in s[1..] <==> x in s && x != s[0]
  {
    assert s == [s[0]] + s[1..];
    if x in s[1..] {
      var i :| 0 <= i < |s[1..]| && s[1..][i] == x;
      assert s[i + 1] == x;
    }
  }

  lemma {:induction false} AscendingIsDetermined(s: seq<Uint32>, t: seq<Uint32>)
    requires StrictlyAscending(s) && StrictlyAscending(t) && forall x :: x in s <==> x in t
    ensures s == t
    decreases |s|
  {
    assert s != [] ==> s[0] in t;
    assert t != [] ==> t[0] in s;
    if s != [] && t != [] {
      assert s[0] == t[0];
      forall x ensures x in s[1..] <==> x in t[1..] {
        LaterMembers(s, x);
        LaterMembers(t, x);
      }
      AscendingIsDetermined(s[1..], t[1..]);
      assert s == [s[0]] + s[1..] && t == [t[0]] + t[1..];
    }
  }

  lemma TiersNormalizeToThemselves(config: seq<Uint32>, tiers: seq<Uint32>, r: Result<seq<Uint32>, ConfigError>)
    requires TierResult(config, Ok(tiers)) && TierResult(tiers, r)
    ensures r == Ok(tiers)
  {
    var effective := EffectiveTiers(config);
    assert effective[0] in tiers;
    assert EffectiveTiers(tiers) == tiers;
    DistinctIsNotLonger(tiers, effective);
    forall i | 0 <= i < |tiers| ensures tiers[i] <= MAX_UINT24 { assert tiers[i] in effective; }
    if r.Ok? {
      AscendingIsDetermined(tiers, r.value);
    }
  }

  lemma {:induction false} FirstOccurrencesOfDistinct<T>(s: seq<T>)
    requires NoDuplicates(s)
    ensures FirstOccurrences(s) == s
  {
    if s != [] {
      FirstOccurrencesOfDistinct(s[..|s| - 1]);
      assert s == s[..|s| - 1] + [s[|s| - 1]];
    }
  }

  lemma BasesNormalizeToThemselves(raws: seq<string>, wrapped: Address, bases: seq<Address>, hex: Address -> string,
                                   r: Result<seq<Address>, ConfigError>)
    requires BaseResult(raws, wrapped, Ok(bases)) && forall a: Address :: IsTextOf(hex(a), a)
    requires BaseResult(Texts(FirstOccurrences(Parsed(raws)), hex), wrapped, r)
    ensures r == Ok(bases)
  {
    var parsed := Parsed(raws);
    var distinct := FirstOccurrences(parsed);
    var texts := Texts(distinct, hex);
    FirstOccurrencesMembers(parsed);
    forall i | 0 <= i < |texts| ensures RequiredAddress(texts[i]) == Some(distinct[i]) {
      assert distinct[i] in parsed;
      assert distinct[i] != ZERO_ADDRESS;
      RequiredAddressReadsBack(distinct[i], texts[i]);
    }
    hide RequiredAddress;
    assert Parsed(texts) == distinct;
    FirstOccurrencesOfDistinct(distinct);
    assert (distinct + [wrapped])[..|distinct|] == distinct && (parsed + [wrapped])[..|parsed|] == parsed;
  }

  /** A normalized configuration normalizes to itself: the tiers and base tokens given back are a fixed point. */
  lemma NormalizingAgain(configTiers: seq<Uint32>, tiers: seq<Uint32>, tiersAgain: Result<seq<Uint32>, ConfigError>,
                         raws: seq<string>, wrapped: Address, bases: seq<Address>,
                         basesAgain: Result<seq<Address>, ConfigError>,
                         hex: Address -> string)
    requires TierResult(configTiers, Ok(tiers)) && BaseResult(raws, wrapped, Ok(bases))
    requires forall a: Address :: IsTextOf(hex(a), a)
    requires TierResult(tiers, tiersAgain)
             && BaseResult(Texts(FirstOccurrences(Parsed(raws)), hex), wrapped, basesAgain)
    ensures tiersAgain == Ok(tiers) && basesAgain == Ok(bases)
  {
    TiersNormalizeToThemselves(configTiers, tiers, tiersAgain);
    BasesNormalizeToThemselves(raws, wrapped, bases, hex, basesAgain);
  }

  // ---- candidateRoutes ----------------------------------------------------------------------------------

  /** `amountOut` is what `bestQuotedCandidate` fills in. */
  datatype Candidate = Candidate(hops: Hops, path: Bytes, amountOut: Option<nat>)

  function Route(h: Hops): Candidate { Candidate(h, EncodePath(h), None) }

  function OneHop(tokenIn: Address, tokenOut: Address, fee: Uint32): Candidate {
    Route(Hops([tokenIn, tokenOut], [fee]))
  }

  function TwoHops(tokenIn: Address, base: Address, tokenOut: Address, first: Uint32, second: Uint32): Candidate {
    Route(Hops([tokenIn, base, tokenOut], [first, second]))
  }

  function Direct(tokenIn: Address, tokenOut: Address, tiers: seq<Uint32>): seq<Candidate> {
    if tiers == [] then []
    else Direct(tokenIn, tokenOut, tiers[..|tiers| - 1]) + [OneHop(tokenIn, tokenOut, tiers[|tiers| - 1])]
  }

  function After(tokenIn: Address, base: Address, tokenOut: Address, first: Uint32,
                 tiers: seq<Uint32>): seq<Candidate> {
    if tiers == [] then []
    else
      After(tokenIn, base, tokenOut, first, tiers[..|tiers| - 1])
      + [TwoHops(tokenIn, base, tokenOut, first, tiers[|tiers| - 1])]
  }

  function Through(tokenIn: Address, base: Address, tokenOut: Address, firsts: seq<Uint32>,
                   tiers: seq<Uint32>): seq<Candidate>
    decreases |firsts|
  {
    if firsts == [] then []
    else Through(tokenIn, base, tokenOut, firsts[..|firsts| - 1], tiers)
         + After(tokenIn, base, tokenOut, firsts[|firsts| - 1], tiers)
  }

  predicate Skipped(tokenIn: Address, base: Address, tokenOut: Address) {
    base == tokenIn || base == tokenOut || base == ZERO_ADDRESS
  }

  function Indirect(tokenIn: Address, tokenOut: Address, bases: seq<Address>, tiers: seq<Uint32>): seq<Candidate>
    decreases |bases|
  {
    if bases == [] then []
    else
      var base := bases[|bases| - 1];
      Indirect(tokenIn, tokenOut, bases[..|bases| - 1], tiers)
      + if Skipped(tokenIn, base, tokenOut) then [] else Through(tokenIn, base, tokenOut, tiers, tiers)
  }

  function Candidates(c: Routing, tokenIn: Address, tokenOut: Address): seq<Candidate> {
    Direct(tokenIn, tokenOut, c.feeTiers) + Indirect(tokenIn, tokenOut, c.baseTokens, c.feeTiers)
  }

  lemma DirectStep(tokenIn: Address, tokenOut: Address, tiers: seq<Uint32>, i: nat)
    requires i < |tiers|
    ensures Direct(tokenIn, tokenOut, tiers[..i + 1]) == Direct(tokenIn, tokenOut, tiers[..i])
            + [OneHop(tokenIn, tokenOut, tiers[i])]
  {
    assert tiers[..i + 1][..i] == tiers[..i];
  }

  lemma IndirectStep(tokenIn: Address, tokenOut: Address, bases: seq<Address>, tiers: seq<Uint32>, b: nat)
    requires b < |bases|
    ensures Indirect(tokenIn, tokenOut, bases[..b + 1], tiers) ==
              Indirect(tokenIn, tokenOut, bases[..b], tiers)
              + if Skipped(tokenIn, bases[b], tokenOut) then [] else Through(tokenIn, bases[b], tokenOut, tiers, tiers)
  {
    assert bases[..b + 1][..b] == bases[..b];
  }

  /** The first loop of `candidateRoutes`. */
  method DirectCandidates(tiers: seq<Uint32>, tokenIn: Address, tokenOut: Address) returns (candidates: seq<Candidate>)
    ensures candidates == Direct(tokenIn, tokenOut, tiers)
  {
    assert tiers[..0] == [] && Direct(tokenIn, tokenOut, []) == [] && tiers[..|tiers|] == tiers;
    hide EncodePath, Direct;
    candidates := [];
    for i := 0 to |tiers|
      invariant candidates == Direct(tokenIn, tokenOut, tiers[..i])
    {
      var path := EncodeV3Path(Hops([tokenIn, tokenOut], [tiers[i]]));
      candidates := candidates + [Candidate(Hops([tokenIn, tokenOut], [tiers[i]]), path, None)];
      DirectStep(tokenIn, tokenOut, tiers, i);
    }
  }

  method CandidateRoutes(c: Routing, tokenIn: Address, tokenOut: Address) returns (candidates: seq<Candidate>)
    ensures candidates == Candidates(c, tokenIn, tokenOut)
  {
    var bases := c.baseTokens;
    assert bases[..0] == [] && Indirect(tokenIn, tokenOut, [], c.feeTiers) == [] && bases[..|bases|] == bases;
    hide Direct, Indirect, Through;
    var direct := DirectCandidates(c.feeTiers, tokenIn, tokenOut);
    candidates := direct;
    for b := 0 to |bases|
      invariant candidates == direct + Indirect(tokenIn, tokenOut, bases[..b], c.feeTiers)
    {
      IndirectStep(tokenIn, tokenOut, bases, c.feeTiers, b);
      var base := bases[b];
      if base == tokenIn || base == tokenOut || base == ZERO_ADDRESS {
        assert Skipped(tokenIn, base, tokenOut);
        continue;
      }
      assert !Skipped(tokenIn, base, tokenOut);
      var through := CandidatesThrough(c.feeTiers, tokenIn, base, tokenOut);
      Associate(direct, Indirect(tokenIn, tokenOut, bases[..b], c.feeTiers), through);
      candidates := candidates + through;
    }
  }

  /** The loops over pairs of fees of `candidateRoutes`. */
  method CandidatesThrough(tiers: seq<Uint32>, tokenIn: Address, base: Address, tokenOut: Address)
    returns (candidates: seq<Candidate>)
    ensures candidates == Through(tokenIn, base, tokenOut, tiers, tiers)
  {
    hide EncodePath, Encoded;
    candidates := [];
    for i := 0 to |tiers|
      invariant candidates == Through(tokenIn, base, tokenOut, tiers[..i], tiers)
    {
      var before := candidates;
      for j := 0 to |tiers|
        invariant candidates == before + After(tokenIn, base, tokenOut, tiers[i], tiers[..j])
      {
        var hops := Hops([tokenIn, base, tokenOut], [tiers[i], tiers[j]]);
        var path := EncodeV3Path(hops);
        candidates := candidates + [Candidate(hops, path, None)];
        assert tiers[..j + 1][..j] == tiers[..j];
      }
      assert tiers[..|tiers|] == tiers && tiers[..i + 1][..i] == tiers[..i];
    }
    assert tiers[..|tiers|] == tiers;
  }

  // ---- the routes are all routes of one or two hops, each once ------------------------------------------

  predicate IsDirect(h: Hops, tokenIn: Address, tokenOut: Address, tiers: seq<Uint32>) {
    h.tokens == [tokenIn, tokenOut] && |h.fees| == 1 && h.fees[0] in tiers
  }

  predicate IsThrough(h: Hops, tokenIn: Address, base: Address, tokenOut: Address, firsts: seq<Uint32>,
                      tiers: seq<Uint32>) {
    h.tokens == [tokenIn, base, tokenOut] && |h.fees| == 2 && h.fees[0] in firsts && h.fees[1] in tiers
  }

  predicate IsIndirect(h: Hops, tokenIn: Address, tokenOut: Address, bases: seq<Address>, tiers: seq<Uint32>) {
    |h.tokens| == 3 && h.tokens[1] in bases && !Skipped(tokenIn, h.tokens[1], tokenOut)
    && IsThrough(h, tokenIn, h.tokens[1], tokenOut, tiers, tiers)
  }

  lemma {:induction false} DirectExactly(tokenIn: Address, tokenOut: Address, tiers: seq<Uint32>)
    requires NoDuplicates(tiers)
    ensures NoDuplicates(Direct(tokenIn, tokenOut, tiers)) && |Direct(tokenIn, tokenOut, tiers)| == |tiers|
    ensures forall c ::
              c in Direct(tokenIn, tokenOut, tiers) <==>
                  c == Route(c.hops) && IsDirect(c.hops, tokenIn, tokenOut, tiers)
  {
    hide EncodePath;
    if tiers != [] {
      var front, last := tiers[..|tiers| - 1], tiers[|tiers| - 1];
      DirectExactly(tokenIn, tokenOut, front);
      AppendDistinct(Direct(tokenIn, tokenOut, front), [OneHop(tokenIn, tokenOut, last)]);
      forall c: Candidate ensures c in Direct(tokenIn, tokenOut, tiers) <==>
          c == Route(c.hops) && IsDirect(c.hops, tokenIn, tokenOut, tiers) {
        assert |c.hops.fees| == 1 ==> c.hops.fees == [c.hops.fees[0]];
        if |c.hops.fees| == 1 { InFront(tiers, c.hops.fees[0]); }
      }
    }
  }

  lemma {:induction false} AfterExactly(tokenIn: Address, base: Address, tokenOut: Address, first: Uint32,
                                        tiers: seq<Uint32>)
    requires NoDuplicates(tiers)
    ensures var r := After(tokenIn, base, tokenOut, first, tiers);
            && NoDuplicates(r) && |r| == |tiers|
            && forall c :: c in r <==> c == Route(c.hops) && IsThrough(c.hops, tokenIn, base, tokenOut, [first], tiers)
  {
    hide EncodePath;
    if tiers != [] {
      var front, last := tiers[..|tiers| - 1], tiers[|tiers| - 1];
      AfterExactly(tokenIn, base, tokenOut, first, front);
      var before := After(tokenIn, base, tokenOut, first, front);
      AppendDistinct(before, [TwoHops(tokenIn, base, tokenOut, first, last)]);
      forall c: Candidate ensures c in before + [TwoHops(tokenIn, base, tokenOut, first, last)]
                      <==> c == Route(c.hops) && IsThrough(c.hops, tokenIn, base, tokenOut, [first], tiers) {
        assert |c.hops.fees| == 2 ==> c.hops.fees == [c.hops.fees[0], c.hops.fees[1]];
        if |c.hops.fees| == 2 { InFront(tiers, c.hops.fees[1]); }
      }
    }
  }

  lemma {:induction false} ThroughExactly(tokenIn: Address, base: Address, tokenOut: Address, firsts: seq<Uint32>,
                                          tiers: seq<Uint32>)
    requires NoDuplicates(tiers) && NoDuplicates(firsts)
    ensures var r := Through(tokenIn, base, tokenOut, firsts, tiers);
            && NoDuplicates(r) && |r| == |firsts| * |tiers|
            && forall c :: c in r <==> c == Route(c.hops) && IsThrough(c.hops, tokenIn, base, tokenOut, firsts, tiers)
    decreases |firsts|
  {
    hide EncodePath, After;
    if firsts != [] {
      var front, last := firsts[..|firsts| - 1], firsts[|firsts| - 1];
      ThroughExactly(tokenIn, base, tokenOut, front, tiers);
      AfterExactly(tokenIn, base, tokenOut, last, tiers);
      var before, after := Through(tokenIn, base, tokenOut, front, tiers), After(tokenIn, base, tokenOut, last, tiers);
      assert last !in front;
      AppendDistinct(before, after);
      assert |firsts| * |tiers| == |front| * |tiers| + |tiers|;
      forall c: Candidate ensures c in before + after <==>
          c == Route(c.hops) && IsThrough(c.hops, tokenIn, base, tokenOut, firsts, tiers) {
        if |c.hops.fees| == 2 { InFront(firsts, c.hops.fees[0]); }
      }
    }
  }

  lemma {:induction false} IndirectExactly(tokenIn: Address, tokenOut: Address, bases: seq<Address>, tiers: seq<Uint32>)
    requires NoDuplicates(tiers) && NoDuplicates(bases)
    ensures var r := Indirect(tokenIn, tokenOut, bases, tiers);
            && NoDuplicates(r) && |r| <= |bases| * (|tiers| * |tiers|)
            && forall c :: c in r <==> c == Route(c.hops) && IsIndirect(c.hops, tokenIn, tokenOut, bases, tiers)
    decreases |bases|
  {
    hide EncodePath, Through, Skipped;
    if bases != [] {
      var front, base := bases[..|bases| - 1], bases[|bases| - 1];
      IndirectExactly(tokenIn, tokenOut, front, tiers);
      ThroughExactly(tokenIn, base, tokenOut, tiers, tiers);
      var before := Indirect(tokenIn, tokenOut, front, tiers);
      var through := if Skipped(tokenIn, base, tokenOut) then [] else Through(tokenIn, base, tokenOut, tiers, tiers);
      assert base !in front;
      AppendDistinct(before, through);
      assert |bases| * (|tiers| * |tiers|) == |front| * (|tiers| * |tiers|) + |tiers| * |tiers|;
      forall c: Candidate ensures c in before + through <==>
          c == Route(c.hops) && IsIndirect(c.hops, tokenIn, tokenOut, bases, tiers) {
        if |c.hops.tokens| == 3 { InFront(bases, c.hops.tokens[1]); }
      }
    }
  }

  predicate IsCandidate(c: Routing, h: Hops, tokenIn: Address, tokenOut: Address) {
    IsDirect(h, tokenIn, tokenOut, c.feeTiers) || IsIndirect(h, tokenIn, tokenOut, c.baseTokens, c.feeTiers)
  }

  /** Every route of one or two hops is listed once, and never more than 128 of them. */
  lemma CandidatesExactly(c: Routing, tokenIn: Address, tokenOut: Address)
    requires Normal(c)
    ensures NoDuplicates(Candidates(c, tokenIn, tokenOut)) && |Candidates(c, tokenIn, tokenOut)| <= MAX_QUOTE_CANDIDATES
    ensures forall r ::
              r in Candidates(c, tokenIn, tokenOut) <==> r == Route(r.hops) && IsCandidate(c, r.hops, tokenIn, tokenOut)
  {
    hide EncodePath, Direct, Indirect;
    DirectExactly(tokenIn, tokenOut, c.feeTiers);
    IndirectExactly(tokenIn, tokenOut, c.baseTokens, c.feeTiers);
    AppendDistinct(Direct(tokenIn, tokenOut, c.feeTiers), Indirect(tokenIn, tokenOut, c.baseTokens, c.feeTiers));
    var t, b := |c.feeTiers|, |c.baseTokens|;
    assert b * t * t == b * (t * t);
  }

  lemma CandidateIsValid(c: Routing, h: Hops, tokenIn: Address, tokenOut: Address)
    requires Normal(c) && IsCandidate(c, h, tokenIn, tokenOut)
    requires tokenIn != tokenOut && tokenIn != ZERO_ADDRESS && tokenOut != ZERO_ADDRESS
    ensures ValidHops(h)
  {
  }

  /** The encoded paths are pairwise different and every one decodes to the route it was made from. */
  lemma CandidatePathsAreDistinct(c: Routing, tokenIn: Address, tokenOut: Address)
    requires Normal(c)
    requires tokenIn != tokenOut && tokenIn != ZERO_ADDRESS && tokenOut != ZERO_ADDRESS
    ensures var cs := Candidates(c, tokenIn, tokenOut);
            && (forall i :: 0 <= i < |cs| ==> DecodePath(cs[i].path) == Ok(cs[i].hops))
            && (forall i, j :: 0 <= i < j < |cs| ==> cs[i].path != cs[j].path)
  {
    hide Candidates, DecodePath, EncodePath, Normal;
    CandidatesExactly(c, tokenIn, tokenOut);
    var cs := Candidates(c, tokenIn, tokenOut);
    forall i | 0 <= i < |cs| ensures DecodePath(cs[i].path) == Ok(cs[i].hops) && cs[i] == Route(cs[i].hops) {
      assert cs[i] in cs;
      CandidateIsValid(c, cs[i].hops, tokenIn, tokenOut);
      DecodeInvertsEncode(cs[i].hops);
    }
    forall i, j | 0 <= i < j < |cs| ensures cs[i].path != cs[j].path {
      assert cs[i] != cs[j];
      assert DecodePath(cs[i].path) == Ok(cs[i].hops) && DecodePath(cs[j].path) == Ok(cs[j].hops);
    }
  }

  /** The bounds and defaults of the configuration, and the order in which the tokens are kept. */
  lemma RoutingLimits(config: seq<Uint32>, raws: seq<string>, wrapped: Address, r: Result<seq<Uint32>, ConfigError>,
                      c: Routing)
    ensures TierResult([], r) <==> r == Ok([100, 500, 3000, 10000])
    ensures TierResult(config, Err(TooManyTiers)) <==> |config| > 6
    ensures BaseResult(raws, wrapped, Err(TooManyBases)) <==> |raws| > 6
    ensures Normal(c) ==> |c.feeTiers| + |c.baseTokens| * |c.feeTiers| * |c.feeTiers| <= 128
  {
    var defaults: seq<Uint32> := [100, 500, 3000, 10000];
    assert TierResult([], Ok(defaults)) by {
      assert StrictlyAscending(defaults);
    }
    if TierResult([], r) {
      assert r.Ok?;
      AscendingIsDetermined(r.value, defaults);
    }
  }

  /** What is kept of the first tokens stands in front of what is added for the later ones. */
  lemma {:induction false} FirstOccurrencesInOrder<T>(s: seq<T>, n: nat)
    requires n <= |s|
    ensures FirstOccurrences(s[..n]) <= FirstOccurrences(s)
    decreases |s| - n
  {
    if n == |s| {
      assert s[..n] == s;
    } else {
      FirstOccurrencesInOrder(s, n + 1);
      assert s[..n + 1][..n] == s[..n];
    }
  }

  lemma {:induction false} DirectAt(tokenIn: Address, tokenOut: Address, tiers: seq<Uint32>)
    ensures |Direct(tokenIn, tokenOut, tiers)| == |tiers|
    ensures forall i :: 0 <= i < |tiers| ==>
                          Direct(tokenIn, tokenOut, tiers)[i] == Route(Hops([tokenIn, tokenOut], [tiers[i]]))
  {
    hide EncodePath;
    if tiers != [] {
      DirectAt(tokenIn, tokenOut, tiers[..|tiers| - 1]);
    }
  }

  /** The routes of one hop come first, in the order of the tiers, so they win a tie. */
  lemma DirectRoutesFirst(c: Routing, tokenIn: Address, tokenOut: Address, i: nat)
    requires Normal(c) && i < |Candidates(c, tokenIn, tokenOut)|
    ensures |c.feeTiers| <= |Candidates(c, tokenIn, tokenOut)|
    ensures var h := Candidates(c, tokenIn, tokenOut)[i].hops;
            if i < |c.feeTiers| then h == Hops([tokenIn, tokenOut], [c.feeTiers[i]])
            else |h.tokens| == 3 && h.tokens[0] == tokenIn && h.tokens[2] == tokenOut
  {
    hide EncodePath, Direct, Indirect, Skipped;
    DirectAt(tokenIn, tokenOut, c.feeTiers);
    IndirectExactly(tokenIn, tokenOut, c.baseTokens, c.feeTiers);
    var direct := Direct(tokenIn, tokenOut, c.feeTiers);
    var indirect := Indirect(tokenIn, tokenOut, c.baseTokens, c.feeTiers);
    if i >= |direct| {
      assert Candidates(c, tokenIn, tokenOut)[i] == indirect[i - |direct|];
      assert indirect[i - |direct|] in indirect;
    }
  }
}
