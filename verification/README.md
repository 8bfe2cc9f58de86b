# Verified model of the wallet SDK's core

A Dafny model of the parts of the wallet SDK where a mistake would be hard to see in a test: the reconfiguration of
trading clients while they are in use, the single-flight caches, concurrent quoting, the BIP-39 and BIP-32 codecs, the
reconstruction of EVM transfers, the decoding and rewriting of router calldata, coin selection, route ranking and
Substrate derivation paths. To verify it, run `dafny verify dfyconfig.toml`.

Code that works step by step is a method or a class with the loops and fields of the source, proved equal to a
specification function or to a predicate that says what the result means; the theorems are lemmas about those. The
two concurrent protocols are state machines whose steps are the locked sections of the source, with an invariant over
every run.

| file | models |
|---|---|
| `TradeClients`, `TradeInstalls`, `TradePackage`, `TradeProtocol` | `mobile/trade`: building and swapping clients, what a request installs, the package variables, `Init` against concurrent readers |
| `SingleFlight`, `FreshAnswers`, `PoolKeys` | `poolExists` and `cachedTokens` as one protocol; the duty to answer from the cache; the cache key of a pool |
| `QuotePath`, `QuoteRoutes`, `QuoteSelection`, `QuoteAmounts` | the rest of `dex/univ3/quote_client.go`: path codec, route enumeration, schedule independence, amounts |
| `SwapCalls`, `SwapPermits` | `dex/univ3/client.go`, `dex/univ3/permit.go` over call trees, and the calldata a quote builds |
| `Bip39`, `Bip39Standard`, `Sentences` | `crypto/bip/bip39.go`, and its sentences as BIP 39 describes them |
| `Bip32`, `Bip32Messages`, `PrimeField` | `crypto/bip/bip32.go`, `crypto/bip/bip32utils.go`, and what BIP 32 derives a child from |
| `EvmTransfers` | `rpc/evm/handler.go` |
| `UtxoSelection`, `SubstratePaths` | `signing/utxolist.go`, `crypto/key/privatekey.go` |
| `QuoteEngine`, `QuoteReport` | `dex/engine.go`, and what a response says about each candidate |
| `Common`, `Numbers`, `Decimals`, `Hex`, `Sequences` | result types, number systems, `strconv`, hexadecimal text, sequences |

## Where the code meets its promise only under a condition

Each of these is proved as an equivalence. The first six also have a lemma with an input where the promise fails; in the
last two the equivalence itself names the inputs.

* `SelectUtxo` adds in 64 bits. It returns the shortest covering prefix exactly when that prefix sums below 2^64;
  otherwise it goes on past it or refuses although the coins suffice (`ShortestExactlyWithoutWrap`, `RefusedThoughCovered`).
* If the own call of a transaction is traced as an eligible value call and no other frame moves anything along the same
  pair of addresses, its value is counted once exactly when some frame has a trace address that is empty but not nil, and
  twice otherwise, as with a root frame whose trace address is nil (`ValueCountedOnceExactly`, `ValueCountedTwice`). In
  general nothing is reported along the pair exactly when nothing is counted at the top and no positive sum is traced, as
  with a traced root that is no plain call (`NothingReportedExactly`, `ValueNotCounted`).
* Under a failed root the only frames that still move value are value calls without an error and without a trace address;
  nothing native is reported exactly when these have no positive sum (`FailedRootMovesExactly`, `MovesUnderFailedRoot`).
* A bare `exactInputSingle` of the second router decodes under version 1, because the version is compared only inside a
  multicall. With a permit in front it no longer decodes; every other accepted calldata does, to the same swap
  (`PermitPreservesSwap`, `PermitLosesSwap`).
* Junction identifiers of short words are all different, but a number and a word can share one: exactly when the word
  fits eight bytes and spells the number. Numbers collide whenever they have the same value (`NumberAndWordCollide`, `CollidingNames`).
* Private and public child derivation fail on different inputs: the private one when the sum of the scalars is 0 modulo
  the group order, the public one when the left half of the hash is
  (`WhenDerivationsSucceed`). For every private key that
  is not 0 modulo the order some hash makes either fail alone (`PrivateFailsAlone`, `PublicFailsAlone`). When both succeed they agree.
* A public key that was deserialized keeps pointing into the buffer it was read from. Deriving a child appends the index
  behind it, over the checksum, so the buffer deserializes again exactly when the index equals its checksum
  (`AppendChildIndex`, `DerivingSpoilsBuffer`).
* A route of positive value ranks by its full quoted value exactly when its expected fill is zero, which a price impact of 100 percent makes
  it; above 100 percent the expected fill is negative (`ExpectedFillBounds`, `RouteOfMeans`).

Two assumptions are part of the statements: upper-casing keeps decimal digits (`Init`), and the curve satisfies its group
law over an odd prime field, has a scalar order of 32 bytes and no point with x = 0 (the key codecs).

## Parameters and abstractions

SHA-256, HMAC, RIPEMD and blake2b are functions of which only the output length is used. Curve addition, base point
multiplication and `ModSqrt` are functions with the laws stated in `Lawful` and `OddField`; `ModSqrt` may return either
root. Remote calls, clock readings, cancellations and the order in which goroutines finish or maps are visited are
arbitrary. Calldata is a tree of what its selector and unpacked arguments say. Dollar amounts are reals. A Go `int` that
cannot overflow on its inputs is an unbounded integer; 64-bit sums, byte and 24-bit truncations are modelled as such.

## Model

| member | source | states |
|---|---|---|
| TradePackage.Network.AddClient | mobile/trade/univ2.go:18-48 | One round of the build loop: it goes on exactly with an accepted configuration whose name and id are free, and then this very configuration, settings included, is served under both keys, by the existing client that has it or by the candidate; otherwise the candidate and everything created so far is closed. |
| TradePackage.Network.NewClients | mobile/trade/univ2.go:14-50 | The whole build: it succeeds exactly if every configuration is accepted and no two share a name or an id, and then the map serves exactly these configurations; everything it opens and closes is recorded in order, for univ2 and univ3 alike. |
| TradePackage.Network.CloseRetired | mobile/trade/univ2.go:72-91 | Closes each client that the old map holds and the new one does not exactly once, in some order. |
| TradePackage.Package.Init | mobile/trade/trade.go:28-110 | Succeeds exactly on acceptable requests. Then for every requested configuration the client under its name and its id has exactly that configuration, the old client if it had it and a new one otherwise, and nothing else is installed; the retired clients are closed after the swap. A failed one leaves both maps untouched and closes only what it created. |
| TradePackage.Package.AcquireUniv3 | mobile/trade/univ3.go:95-103 | Under the invariant of the maps, yields a client exactly if it is installed and the trimmed, upper-cased text is its name key or its id key. |
| TradePackage.LookupFindsByEitherKey | mobile/trade/univ2.go:93-101 | The same for any client map: exactly the installed client whose name or id is asked for is found. |
| TradePackage.FoundUnderBothKeys | mobile/trade/univ2.go:93-101 | Every installed client is found by the name of its chain and by its decimal id. |
| TradePackage.InitKeepsOpenInstalled | mobile/trade/trade.go:62-108 | If exactly the installed clients are open before an `Init`, the same holds after it, failed or not, and every close was the first of its client. |
| TradeClients.BuildIsSound | mobile/trade/univ3.go:14-50 | From any state of the build loop only new clients are opened and only open ones closed; failure leaves what was open before the build, success adds exactly the clients created, and clients are reused or new. |
| TradeClients.BuildInstalls | mobile/trade/univ3.go:14-50 | No later configuration takes a key from an earlier client: all clients of a finished build are reachable under both keys and none that was created is left out. |
| TradeClients.PlanIsSound | mobile/trade/trade.go:62-83 | On every error path of `Init` the connections opened for it are closed again and nothing that was installed is closed. |
| TradeInstalls.BuildInstallsExactly | mobile/trade/univ2.go:14-61 | For any existing map, a build succeeds exactly on accepted configurations without a common key, and serves each of them, compared in all its fields, and nothing else. |
| TradeInstalls.PlanInstallsExactly | mobile/trade/trade.go:28-86 | A request takes effect exactly if its JSON parses, both builds succeed and bridgers is accepted; then both maps serve exactly what it asks for. |
| TradeInstalls.KeptExactly | mobile/trade/univ3.go:42-93 | A client of the old map is retired exactly if none of the requested configurations is its own: a changed setting retires it, an unchanged configuration never does. |
| TradeProtocol.NextInvariant | mobile/trade/trade.go:86-108 | Every step of readers and `Init` keeps the invariant: installed clients are open, held clients are installed, nothing is closed twice. |
| TradeProtocol.RunInvariant | mobile/trade/trade.go:28-110 | The invariant holds at the end of every interleaving. |
| TradeProtocol.HeldClientsAreOpen | mobile/trade/univ2.go:93-101 | In every interleaving a client that was acquired and not released is open and was never closed. |
| TradeProtocol.ClosedOnceAndUnheld | mobile/trade/univ3.go:74-93 | Every close is the first of its client, and nobody holds the client at that moment. |
| TradeProtocol.QuiescentIsInstalled | mobile/trade/trade.go:86-110 | Whenever no `Init` is under way, the open clients are exactly the installed ones, under both keys. |
| TradeProtocol.MapsChangeUnderWriteLock | mobile/trade/trade.go:86-106 | The installed maps change only under the write lock, with no reader inside, and never for a failed `Init`. |
| TradeProtocol.LookupYieldsInstalled | mobile/trade/univ3.go:95-103 | A reader gets the installed client of the chain it asked for, open. |
| TradeProtocol.HeldUntilRelease | mobile/trade/univ2.go:93-101 | Whatever step is taken, a reader keeps its client, installed and open, until it releases it itself. |
| SingleFlight.LoadCache.Enter | dex/univ3/quote_client.go:721-741 | The first locked section: a fresh entry, the flight to wait for, or a new flight. |
| SingleFlight.LoadCache.Publish | dex/univ3/quote_client.go:752-761 | The second locked section: the result is published, a success cached until its time to live is over, the flight removed and its channel closed. |
| SingleFlight.StepInvariant | dex/bridgers/client.go:935-972 | Each step of either cache keeps the invariant that ties flights, map entries, cached values and callers together. |
| SingleFlight.RunInvariant | dex/univ3/quote_client.go:721-762 | The invariant holds in every interleaving. |
| SingleFlight.OneCallPerKey | dex/univ3/quote_client.go:730-751 | Two callers that lead a flight for the same key are the same caller: at most one remote call per key is outstanding. |
| SingleFlight.ClosedOnceAndRemoved | dex/univ3/quote_client.go:752-761 | A flight's channel is closed at most once; it is unclosed exactly while it is the registered flight of its key, and closed exactly when its leader has returned with its result. |
| SingleFlight.WaiterSeesLeader | dex/univ3/quote_client.go:730-737 | A waiter that was not cancelled returns what the leader of its flight returned, for the same key. |
| SingleFlight.SlotsAreBounded | dex/univ3/quote_client.go:744-751 | The slots in use are exactly the callers between acquiring and releasing one, never more than the capacity. |
| SingleFlight.HitIsFreshAnswer | dex/bridgers/client.go:935-972 | A hit returns a successful answer that a leader for the same key returned, younger than the TTL: from its completion in one cache, from the leader's own clock reading in the other. |
| SingleFlight.PoolLookups | dex/univ3/quote_client.go:721-762 | For `poolExists`: at most 8 slots, and a hit's leader read its clock less than 30 seconds before the caller. |
| SingleFlight.PublishedIsFinal | dex/univ3/quote_client.go:752-761 | A finished flight never changes again, whatever step is taken. |
| SingleFlight.WhoPublished | dex/bridgers/client.go:958-970 | Every finished flight was published by one step of its leader, and where the TTL counts from completion its entry counts from the clock reading of that step. |
| SingleFlight.TokenLookups | dex/bridgers/client.go:935-972 | For `cachedTokens`: a hit is younger than the TTL, counted from the reading its leader took after the call. |
| SingleFlight.NoDeadlock | dex/univ3/quote_client.go:730-761 | While some caller has no answer, a step that cancels nobody is possible. |
| SingleFlight.RunsAreShort | dex/univ3/quote_client.go:721-762 | A run takes at most six steps for each caller, so with `NoDeadlock` every caller gets its answer. |
| FreshAnswers.FreshAnswerIsHit | dex/univ3/quote_client.go:721-762 | After a success for a key and before the next one, every caller for it whose reading lies within the time to live is answered with it at once and for good: it neither waits nor leads, whatever happened in between. |
| FreshAnswers.EntrySurvives | dex/univ3/quote_client.go:752-761 | No step but a later success for the same key touches a cached answer. |
| FreshAnswers.PoolAnswerIsReused | dex/univ3/quote_client.go:725-757 | For `poolExists`: less than 30 seconds after the clock reading of the leader its success answers everybody. |
| FreshAnswers.TokenAnswerIsReused | dex/bridgers/client.go:938-967 | For `cachedTokens`: within the TTL of the reading taken after the call its success answers everybody. |
| FreshAnswers.LeaderAnswersItsCall | dex/bridgers/client.go:955-972 | From the return of its remote call on, a leader has the outcome of that call and no other. |
| FreshAnswers.CallerKeeps | dex/univ3/quote_client.go:721-762 | No step changes the key or the reading of a caller, an outcome once it has one, or an answer once given. |
| PoolKeys.PoolKeyIdentifiesPool | dex/univ3/quote_client.go:713-719 | Two requests have the same key exactly when they name the same unordered pair and fee. |
| QuotePath.EncodeV3Path | dex/univ3/quote_client.go:599-612 | The loop writes the tokens with the low three bytes of each fee between them, and nothing for mismatched lengths. |
| QuotePath.DecodeV3Path | dex/univ3/quote_client.go:614-632 | The loop splits a path of the right length and refuses one with a zero token or a hop from a token to itself. |
| QuotePath.DecodeInvertsEncode | dex/univ3/quote_client.go:599-632 | For all token and fee lists, decoding the encoding gives them back exactly when they form a valid route with 24-bit fees. |
| QuotePath.EncodeInvertsDecode | dex/univ3/quote_client.go:599-632 | A path decodes exactly when it encodes a valid route, and the decoded route encodes to the same bytes. |
| QuotePath.EncodedLayout | dex/univ3/quote_client.go:599-612 | A path has 20 bytes and 23 more for each hop; token and fee of hop `i` begin at byte 23 `i`, the fee in three bytes with the highest first. |
| QuoteRoutes.RequiredAddressReadsBack | dex/univ3/quote_client.go:231-241 | Every address but zero is read back from its text, whatever the case of the digits. |
| QuoteRoutes.RequiredAddressExactly | dex/univ3/quote_client.go:231-241 | A text yields an address exactly if, apart from white space around it, it is "0x" or "0X" and the 40 digits of that address, which is not zero. |
| QuoteRoutes.NormalizeTiers | dex/univ3/quote_client.go:150-172 | Fee tiers: the defaults if none are given, at most six, each within 24 bits, or the first offending index; otherwise the same tiers, once each, ascending. |
| QuoteRoutes.NormalizeBases | dex/univ3/quote_client.go:174-194 | Base tokens: at most six that parse, or the first that does not; otherwise their first occurrences, whose texts go back into the configuration, with the wrapped token added if absent. |
| QuoteRoutes.NormalizeRouting | dex/univ3/quote_client.go:150-198 | An accepted configuration is normal, in particular within 128 candidates; every refusal names a real violation. |
| QuoteRoutes.NormalizingAgain | dex/univ3/quote_client.go:150-212 | The tiers and base tokens that normalizing writes back normalize to themselves. |
| QuoteRoutes.RoutingLimits | dex/univ3/quote_client.go:150-198 | No tiers mean 100, 500, 3000 and 10000; more than six tiers or base tokens are refused for that, and a normal configuration has at most 128 candidates. |
| QuoteRoutes.FirstOccurrencesInOrder | dex/univ3/quote_client.go:174-194 | What is kept of the first base tokens stands in front of what is added for later ones. |
| QuoteRoutes.CandidateRoutes | dex/univ3/quote_client.go:577-597 | The nested loops produce the direct routes, then those through each base token that is neither end nor zero. |
| QuoteRoutes.CandidatesExactly | dex/univ3/quote_client.go:577-597 | Under a normal configuration the candidates are all routes of one or two hops over the tiers and base tokens, each once, at most 128. |
| QuoteRoutes.CandidatePathsAreDistinct | dex/univ3/quote_client.go:577-632 | Their encoded paths are pairwise different and each decodes to its own route. |
| QuoteRoutes.DirectRoutesFirst | dex/univ3/quote_client.go:577-597 | The routes of one hop come first, in the order of the tiers, so that they win a tie. |
| QuoteSelection.Collect | dex/univ3/quote_client.go:399-404 | Whatever the order of arrival, every slot holds its own answer. |
| QuoteSelection.BestQuotedCandidate | dex/univ3/quote_client.go:382-433 | For every completion order: the lowest index with the largest positive amount, else the lowest-index infrastructure error, else nothing; the amounts are written back to their candidates. |
| QuoteSelection.SelectionIsUnique | dex/univ3/quote_client.go:409-432 | That description fits only one outcome, so completion orders cannot disagree. |
| QuoteSelection.SelectionSays | dex/univ3/quote_client.go:409-432 | A selected candidate was answered without an error and with a positive amount; otherwise no candidate was, and an error is reported exactly if an unexpected one occurred. |
| QuoteSelection.ScheduleIgnoresOrder | dex/univ3/quote_client.go:382-404 | Any reordering of the arrivals carries the same answers. |
| QuoteSelection.SelectionIgnoresOrder | dex/univ3/quote_client.go:382-432 | Two orders of the same arrivals end in the same selection. |
| QuoteSelection.UniqueRequests | dex/univ3/quote_client.go:647-656 | Exactly the pools along the candidates are asked for, each under its key; a malformed candidate stops it. |
| QuoteSelection.PoolKeysExactly | dex/univ3/quote_client.go:647-656 | The keys that are looked up are those of all neighbouring tokens, with the fee between them, of all candidates. |
| QuoteSelection.CandidatePoolsExist | dex/univ3/quote_client.go:701-711 | Every hop's pool is known and exists. |
| QuoteSelection.ResolveCandidatePools | dex/univ3/quote_client.go:646-699 | For every completion order: success exactly if no lookup failed or some candidate is usable anyway, with the same map of pools; otherwise the first error to arrive. |
| QuoteSelection.ResolutionIgnoresOrder | dex/univ3/quote_client.go:646-699 | Two orders of the same arrivals agree on success and on the map of pools; success means that no lookup failed or some candidate is usable anyway. |
| QuoteSelection.UsableMeansEveryPoolAnswered | dex/univ3/quote_client.go:701-711 | A candidate is usable exactly when the pool of every two neighbouring tokens at their fee was looked up successfully and exists. |
| QuoteAmounts.GrossMinimumIsTight | dex/univ3/quote_client.go:561-566 | The gross minimum is within one unit below the exact slippage-adjusted amount, and below the quoted amount. |
| QuoteAmounts.QuotientOfReducedTerms | dex/univ3/quote_client.go:561-566 | Reducing the rational before the division does not change the quotient. |
| QuoteAmounts.MoreSlippageLowersMinimum | dex/univ3/quote_client.go:561-566 | A larger percentage, whatever its denominator, never raises the minimum. |
| QuoteAmounts.DeductionIsMonotone | dex/univ3/quote_client.go:568-575 | The deduction is monotone in the amount exactly for fees up to 10000 basis points, so for all accepted ones. |
| QuoteAmounts.DeductionLeavesSomething | dex/univ3/quote_client.go:568-575 | A positive amount stays positive exactly for fees below 10000 basis points: the zero-output error of `Quote` cannot occur. |
| QuoteAmounts.QuoteAmounts | dex/univ3/quote_client.go:324-332 | Fails exactly when slippage takes the minimum to zero; otherwise amount and minimum are the gross ones less the fee, rounded down to whole units, and any pool output at or above the gross minimum leaves the user at least `AmountOutMin`, which is at most `AmountOut`. |
| SwapCalls.DecodeSwapInfos | dex/univ3/client.go:77-156 | The recursive decoder with its two loops computes the recursive specification, errors included. |
| SwapCalls.DecodeExactInput | dex/univ3/client.go:340-415 | `exactInput` needs a decodable path, a recipient and positive numbers, and yields the ends and hops of its path. |
| SwapCalls.MergeInPlace | dex/univ3/client.go:134-151 | The loop that overwrites deadlines and block hashes, stopping at the first swap of another version or block hash. |
| SwapCalls.DecodeExpected | dex/univ3/client.go:77-169 | Decoding succeeds exactly on well-formed trees with at least one swap, all of the router's version and with equal block hashes around them if inside a multicall; the result is the leaves from left to right; a tree without swaps is the only source of `ErrNoSwapFound`. |
| SwapCalls.MeaningOfEnclosing | dex/univ3/client.go:138-150 | The deadline of a leaf is the minimum of its own and all enclosing ones; its block hash is one that an enclosing multicall names. |
| SwapCalls.SingleSwapIsRead | dex/univ3/client.go:306-338 | Every argument of a single-pool swap of either router reaches the result, price limit included; only the first router has a deadline. |
| SwapCalls.PathSwapIsRead | dex/univ3/client.go:340-415 | A swap along a path is accepted exactly with a path that decodes, a recipient and positive numbers, and every argument reaches the result. |
| SwapCalls.MulticallNeedsItsRouter | dex/univ3/client.go:105-112 | A multicall decodes only for a known router, and one with a deadline or a block hash only for the second. |
| SwapCalls.NestingLimit | dex/univ3/client.go:77-130 | A swap is found under `n` plain multicalls exactly if `n` is at most eight. |
| SwapPermits.EncodePermitMulticall | dex/univ3/permit.go:359-433 | Succeeds exactly if the calldata holds one swap of the permitted token and within the permitted value. The result is a plain multicall that begins with the permit call for the input token of that swap, with the permitted value, which is at least its amount, the permitted deadline and the form asked for; the calls behind it are those of the calldata. |
| SwapPermits.PermitPreservesSwap | dex/univ3/permit.go:411-432 | The calldata with the permit decodes to the same swap, exactly unless the input was a bare swap of the other router. |
| SwapPermits.PermitLosesSwap | dex/univ3/permit.go:379-432 | Such a bare swap with a permit that covers it: accepted, and no longer decodable. |
| SwapPermits.BuildSwapCalldata | dex/univ3/quote_client.go:821-886 | The calldata of a quote: single hop or path, and the unwrap, unwrap-with-fee or sweep-with-fee call that follows if the router receives the output. |
| SwapPermits.QuotePaysRecipient | dex/univ3/quote_client.go:828-876 | The output goes to the recipient directly, or to the router and then to the recipient by exactly one call with the gross minimum and the fee of the quote. |
| SwapPermits.QuoteDecodes | dex/univ3/quote_client.go:821-903 | Decoding the calldata of a quote gives back its route, amounts, recipient and deadline. |
| SwapPermits.AttachPermit | dex/univ3/permit.go:435-477 | Succeeds exactly if router, spender, token, amount, deadline and native value of the route fit the permit and the calldata does; the result begins with the permit as it was signed, valid until the route expires. |
| SwapPermits.QuoteThenPermit | dex/univ3/permit.go:379-477 | For a quoted route the permit is accepted exactly if it is for the input token, covers the amount and outlives the quote, and the result still decodes to the quote. |
| Bip39.Codec.SetWordList | crypto/bip/bip39.go:56-62 | The index knows exactly the listed words and a position of each. |
| Bip39.Codec.AddChecksum | crypto/bip/bip39.go:202-217 | Appends the leading bits of the hash to the number, bit by bit. |
| Bip39.Codec.NewMnemonic | crypto/bip/bip39.go:119-142 | The words of the base-2048 digits of entropy and checksum, for exactly the five legal sizes. |
| Bip39.Codec.EntropyFromMnemonic | crypto/bip/bip39.go:79-117 | The first decoder, with its errors in order: word count, first unknown word, checksum. |
| Bip39.Codec.MnemonicToByteArray | crypto/bip/bip39.go:144-180 | The second decoder, raw and with checksum; its own comparison never fails once the first decoder accepted. |
| Bip39.DecodeSentence | crypto/bip/bip39.go:79-142 | For all entropy of a legal size the first decoder recovers it from its mnemonic. |
| Bip39.SecondDecodeSentence | crypto/bip/bip39.go:119-180 | So does the raw second decoder; without raw it returns the number with its checksum. |
| Bip39.SentenceOfDecoded | crypto/bip/bip39.go:79-142 | Every accepted word list is the sentence of the entropy it decodes to. |
| Bip39.RebuildsAcceptedMnemonic | crypto/bip/bip39.go:79-142 | `NewMnemonic` rebuilds every accepted mnemonic up to white space. |
| Bip39.MnemonicsAreInjective | crypto/bip/bip39.go:119-142 | Different entropy has different mnemonics. |
| Bip39.MaskTables | crypto/bip/bip39.go:79-117 | The mask and shift tables belong to the word counts. |
| Bip39Standard.SentenceIsStandard | crypto/bip/bip39.go:119-217 | Word `i` of a mnemonic stands at the `i`-th base-2048 digit of the number made of the entropy and, below it, the leading bits of the first byte of its hash, one for every four bytes. |
| Bip39Standard.StandardNumberSplits | crypto/bip/bip39.go:202-217 | Of that number the low bits are the quotient of the first hash byte, and the rest is the entropy. |
| Bip39Standard.DecodesStandardSentences | crypto/bip/bip39.go:79-142 | The first decoder accepts exactly the sentences of this form over 16, 20, 24, 28 or 32 bytes, and returns those bytes. |
| Bip39Standard.DecodingErrors | crypto/bip/bip39.go:79-117 | A number of words other than 12, 15, 18, 21 and 24, then the first unknown word, then the checksum are refused, in this order. |
| Bip32.CompressPublicKey | crypto/bip/bip32utils.go:120-132 | A parity prefix and the padded x coordinate. |
| Bip32.ExpandPublicKey | crypto/bip/bip32utils.go:134-154 | Takes the root of the curve equation whose parity the prefix asks for. |
| Bip32.ExpandInvertsCompress | crypto/bip/bip32utils.go:120-154 | For every curve point over an odd prime field, whichever root `ModSqrt` returns. |
| Bip32.CompressInvertsExpand | crypto/bip/bip32utils.go:120-154 | Every 33-byte string with a compression prefix is reproduced. |
| Bip32.InfinityRoundTrip | crypto/bip/bip32utils.go:120-154 | Infinity survives exactly when the curve has no point with x = 0, or only that one. |
| Bip32.NewChildKey | crypto/bip/bip32.go:78-127 | The child key field by field, private or public, hardened or not, with its errors; what it is derived from is stated by the `Bip32Messages` lemmas. |
| Bip32.AddThenCompress | crypto/bip/bip32utils.go:97-118 | Adding scalars and then compressing equals adding compressed points. |
| Bip32.WhenDerivationsSucceed | crypto/bip/bip32utils.go:156-174 | Exactly when non-hardened private and public derivation succeed. |
| Bip32.PrivateFailsAlone | crypto/bip/bip32utils.go:156-164 | For every private key that is not 0 modulo the order some hash makes only the private derivation fail. |
| Bip32.PublicFailsAlone | crypto/bip/bip32utils.go:166-174 | For every private key that is not 0 modulo the order some hash makes only the public derivation fail. |
| Bip32.DerivationsCommute | crypto/bip/bip32.go:78-220 | Whenever both succeed they agree in every field: key, chain code, depth, fingerprint, number and version. |
| Bip32Messages.HardenedChild | crypto/bip/bip32.go:78-207 | A hardened child comes from the hash of a zero byte, the private key and the index: it exists exactly if the left half plus the parent is not 0 modulo the order, which is then its scalar; the right half is its chain code. |
| Bip32Messages.NormalPrivateChild | crypto/bip/bip32.go:78-207 | The same for any other child of a private key, from its compressed public key and the index. |
| Bip32Messages.PublicChildren | crypto/bip/bip32.go:78-207 | A public key has no hardened child; any other comes from its own bytes and the index, and is the sum of the point of the left half and its own, unless that half is 0 modulo the order. |
| Bip32Messages.HardenedMessagesBeginWithZero | crypto/bip/bip32.go:182-195 | Hashes that agree on the messages beginning with a zero byte give the same hardened children. |
| Bip32Messages.NormalMessagesDoNot | crypto/bip/bip32.go:182-195 | Hashes that agree on all other messages give the same normal children. |
| Bip32Messages.CompressedForm | crypto/bip/bip32utils.go:120-132 | A compressed point is 2 or 3, by the parity of y, and x in 32 bytes. |
| Bip32.BytesLessIsLess | crypto/bip/bip32utils.go:156-164 | Comparing bytes of equal length compares the numbers. |
| Bip32.ValidScalar | crypto/bip/bip32utils.go:156-164 | A reduced scalar is a valid key exactly unless it is 0. |
| Bip32.DeserializeInvertsSerialize | crypto/bip/bip32.go:240-307 | Reading a serialized key gives it back exactly when its fields have their sizes. |
| Bip32.SerializeInvertsDeserialize | crypto/bip/bip32.go:240-307 | An accepted serialization is the serialization of the key it yields. |
| Bip32Messages.SerializedLayout | crypto/bip/bip32.go:240-307 | Where the fields stand in the 82 bytes of a serialized key, with the checksum of the first 78 at the end. |
| Bip32.DerivedKeySerializes | crypto/bip/bip32.go:78-127 | Derived private keys survive serialization. |
| Bip32.DerivedPublicKeySerializes | crypto/bip/bip32.go:78-127 | So do derived public keys, if the parent's key belongs to some scalar. |
| Bip32.AppendChildIndex | crypto/bip/bip32.go:182-195 | For a public key that points into the buffer it was deserialized from, the child index is written into that buffer behind the key. |
| Bip32.DerivingSpoilsBuffer | crypto/bip/bip32.go:182-307 | Afterwards the buffer deserializes, to the same key, exactly if the index equals the checksum that stood there. |
| PrimeField.RootsOfSameSquare | crypto/bip/bip32utils.go:134-154 | Two roots of the same value modulo a prime are equal or add up to it. |
| EvmTransfers.GetTxTransfers | rpc/evm/handler.go:706-859 | The transfers are the token logs, the value of the transaction unless the root is traced, and the internal transfers; the changes are the nonzero net amounts. Of every contract but the native one a change is what the logs say an address received less what it sent, and each log is listed once; an empty list is the error. |
| EvmTransfers.ReadLogs | rpc/evm/handler.go:711-742 | Token transfers from the logs with three topics, the transfer signature and a nonzero amount, in order, from the address in the second topic to the one in the third; the balances are what was received less what was sent; a topic too short to hold an address panics. |
| EvmTransfers.TokensAreReported | rpc/evm/handler.go:711-856 | From the logs alone: a token transfer is listed as often as a log stands for it, and an address has a reported change exactly if what it received and what it sent of the contract differ, namely by that difference. |
| EvmTransfers.AmountReadsHex | rpc/evm/handler.go:727-732 | Every number printed in base 16 is read back, with or without prefix and sign. |
| EvmTransfers.EligibleExactly | rpc/evm/handler.go:757-812 | A frame counts exactly if it is a plain call with a nonzero amount between two addresses and neither it nor a frame above it by trace address has an error. |
| EvmTransfers.ScanFrames | rpc/evm/handler.go:744-756 | Whether a root frame is traced, and the trace addresses of the failed frames. |
| EvmTransfers.IsInFailedFrame | rpc/evm/handler.go:757-770 | The frame failed itself or some prefix of its trace address did. |
| EvmTransfers.Aggregate | rpc/evm/handler.go:787-822 | The sums per sender and recipient over exactly the eligible value-carrying calls. |
| EvmTransfers.EmitInternal | rpc/evm/handler.go:824-838 | One transfer for every pair with a positive sum, in any order of the maps, and the balances follow. |
| EvmTransfers.BalanceMap.Update | rpc/evm/handler.go:861-869 | Adds to one entry of the nested map and nothing else. |
| EvmTransfers.BalanceMap.Changes | rpc/evm/handler.go:845-856 | One nonzero change for every address and contract whose transfers do not cancel out. |
| EvmTransfers.ChangesSumToZero | rpc/evm/handler.go:706-859 | The balance changes of every contract sum to zero. |
| EvmTransfers.ReportIgnoresMapOrder | rpc/evm/handler.go:824-856 | Two runs over the same transaction report the same multisets of transfers and changes. |
| EvmTransfers.NativeTotal | rpc/evm/handler.go:772-838 | The native coin reported between two addresses is the value at the top, if counted there, plus the positive traced sum. |
| EvmTransfers.ValueCountedOnceExactly | rpc/evm/handler.go:744-785 | When the transaction's own call is traced as an eligible value call and nothing else moves along its pair, its value counts once exactly if some trace address is empty and not nil, else twice. |
| EvmTransfers.ValueCountedTwice | rpc/evm/handler.go:744-785 | A root frame with a nil trace address: one wei sent, two reported. |
| EvmTransfers.NothingReportedExactly | rpc/evm/handler.go:772-838 | Nothing native is reported along the transaction exactly if nothing is counted at the top and no positive sum is traced. |
| EvmTransfers.ValueNotCounted | rpc/evm/handler.go:772-800 | A traced root that is no plain call: the value is reported nowhere. |
| EvmTransfers.FailedRootMovesExactly | rpc/evm/handler.go:757-822 | Under a failed root nothing counts at the top, the eligible frames are exactly the value calls without error and without trace address, and nothing moves exactly if these have no positive sum. |
| EvmTransfers.MovesUnderFailedRoot | rpc/evm/handler.go:757-822 | A failed root and a frame without a trace address beside it: one wei is reported. |
| UtxoSelection.UtxoList.SelectUtxo | signing/utxolist.go:62-102 | The list becomes the coins taken from some ascending order until the 64-bit total reaches the target, or stays sorted with the error. |
| UtxoSelection.UtxoList.CalcValue | signing/utxolist.go:104-122 | The wrapped sum of the elements that are not nil, or "0" if one is unreadable. |
| UtxoSelection.Take | signing/utxolist.go:81-95 | Unreadable coins are skipped; the loop stops with the first coin that makes the accumulator reach the target. |
| UtxoSelection.CoinsExactly | signing/utxolist.go:81-92 | Of the coins exactly those whose value parses as a 64-bit number take part, each as often as it is listed. |
| UtxoSelection.CalcSays | signing/utxolist.go:104-122 | The printed text is "0" for a nil list or one with an unreadable coin, and otherwise parses to the sum modulo 2^64. |
| UtxoSelection.ShortestExactlyWithoutWrap | signing/utxolist.go:78-101 | The selection is the shortest covering prefix exactly when that prefix sums below 2^64; otherwise it is longer or refused. |
| UtxoSelection.SelectionWhenTotalFits | signing/utxolist.go:78-101 | If all coins sum below 2^64: success exactly if they suffice, with the shortest prefix. |
| UtxoSelection.ExcessBelowLastCoin | signing/utxolist.go:62-102 | The excess over the target is less than the last coin. |
| UtxoSelection.NoIrredundantChoiceIsLarger | signing/utxolist.go:62-102 | No covering set from which no coin can be dropped has more coins. |
| UtxoSelection.TotalOfSorting | signing/utxolist.go:72-76 | Sorting does not change what the readable coins are worth. |
| UtxoSelection.SelectAndCalc | signing/utxolist.go:62-122 | Selecting and then asking for the value, with coins worth less than 2^64: success exactly if they suffice; the coins kept cover the target with an excess below the last coin, no irredundant choice has more of them, and the printed value is their exact sum. |
| UtxoSelection.RefusedThoughCovered | signing/utxolist.go:92-98 | Two coins that suffice and are refused. |
| QuoteEngine.Partition | dex/engine.go:242-324 | The loop over the results: a route or a failure for each, with the counters the reason is chosen by. |
| QuoteEngine.ExpectedFillBounds | dex/engine.go:273-282 | The expected fill is below the quoted value; it is negative exactly for a price impact above 100 percent, and zero exactly without a basis for an estimate and at 100 percent. |
| QuoteEngine.RouteOfMeans | dex/engine.go:273-333 | A route ranks by at most its quoted value, and by all of it exactly when the expected fill is zero; it is unsafe exactly if the provider warned or the trade exceeds 5 percent of the liquidity. |
| QuoteEngine.IsRouteUnsafe | dex/engine.go:414-424 | A route is unsafe if it carries either of the two warnings. |
| QuoteEngine.Quote | dex/engine.go:157-373 | A missing request, no candidates or an unreadable amount end the call with their own reason, in this order; otherwise the routes are a ranking of the candidates' routes, the failures those of the others in order, and the reason follows the code's precedence. |
| QuoteReport.ResponseSays | dex/engine.go:242-373 | Every failure names its candidate and why, every route carries what was quoted for its candidate, and the reason follows from the routes, the codes of the failures and the clock. |
| QuoteReport.FailureSays | dex/engine.go:375-412 | Configuration first, then status 429 with its retry time, then the deadline, then a text that speaks of a rate limit; without an error, an empty answer means no route, and no answer a provider error. |
| QuoteReport.RouteSays | dex/engine.go:273-324 | The expected fill as an equation: 100 times the fill is the value times 100 less the impact; or the fill times liquidity and spent amount together is the value times the liquidity; the channel falls back to the candidate's, and the thin-liquidity warning is added exactly above one twentieth of the liquidity. |
| QuoteReport.AcceptedAmounts | dex/engine.go:169-172 | Printed integers with or without a sign are readable amounts; texts with anything else behind the first character are not. |
| QuoteEngine.EveryCandidateOnce | dex/engine.go:251-324 | Every candidate becomes exactly one route or exactly one failure, with the right contents. |
| QuoteEngine.PrecedesMeans | dex/engine.go:326-342 | Safe before unsafe, then the larger key, then same-chain, then the order of the candidates. |
| QuoteEngine.OneRecommendation | dex/engine.go:326-347 | Ranks 1 to n in that order; only the first is recommended, exactly if some route is safe. |
| QuoteEngine.RankingIsUnique | dex/engine.go:326-347 | The ranking is determined by the answers. |
| SubstratePaths.ScaleCompactLength | crypto/key/privatekey.go:155-173 | The four forms; the long one drops zero bytes down to four. |
| SubstratePaths.CompactReadsBack | crypto/key/privatekey.go:155-173 | For every 64-bit number and whatever follows, the number and the rest are read back. |
| SubstratePaths.CompactIsPrefixFree | crypto/key/privatekey.go:155-173 | Uniquely decodable. |
| SubstratePaths.CompactIsShortest | crypto/key/privatekey.go:155-173 | Nothing shorter reads as the same number. |
| SubstratePaths.CompactSpells | crypto/key/privatekey.go:155-173 | The bytes of the four forms: the mode in the two lowest bits of the first byte, the lowest byte first, and in the long form no more than four bytes unless needed. |
| SubstratePaths.WordsNeverCollide | crypto/key/privatekey.go:140-153 | Words of at most 31 bytes that are not numbers have the same identifier only if they are equal. |
| SubstratePaths.NumbersCollideByValue | crypto/key/privatekey.go:140-145 | Numbers have the same identifier exactly if they have the same value. |
| SubstratePaths.NumberAndWordCollide | crypto/key/privatekey.go:140-153 | A number and a word have the same identifier exactly if the word fits eight bytes and spells the number. |
| SubstratePaths.CollidingNames | crypto/key/privatekey.go:140-153 | "a" and "24836" collide, and so do "7" and "007". |
| SubstratePaths.IdentifierSays | crypto/key/privatekey.go:140-153 | A number stands in the first eight bytes, lowest first; a name below 32 bytes behind four times its length; any other name is the hash of its compact length and its bytes. |
| SubstratePaths.ParseSubstratePath | crypto/key/privatekey.go:104-123 | Accepts exactly the concatenations of slash-free names after "//", and yields their junctions in order. |
| SubstratePaths.PathOfInjective | crypto/key/privatekey.go:104-123 | A path has only one reading. |
| SubstratePaths.PlainPathsNeverCollide | crypto/key/privatekey.go:104-153 | Paths of such words have the same junctions only if they are the same path. |

## Left out

- HTTP and JSON-RPC transport, rate limiting, and every chain handler but the EVM transfer reconstruction: plumbing.
- ABI byte layout and reflection: calldata is a tree; a call whose arguments do not unpack is one constructor.
- Hash functions, curve arithmetic, `ModSqrt`: parameters with the laws the statements name.
- Shamir sharing, keystores, JWE, RSA, AES: calls into packages that are not part of this model.
- Field copying in provider mappings and setters, and the signing builders: easy members only.
- The Jupiter, Bungee, proxy and bridgers variables that `Init` also assigns: bridgers enters as accepted or refused.
- Building permit data, EIP-712 hashing, signer recovery and the checks against the chain: they enter as a permit call that succeeds or fails.
- Message texts and rounding of dollar amounts; NaN and infinities do not occur in reals.
- The wall clock: readings are arbitrary integers and need not increase.
- SwapCalls.DecodeSwapInfos: errors are kinds; the index of the multicall item in the message is not kept.
- UtxoSelection.UtxoList.SelectUtxo: a nil element is not an input, since the sort and the loop dereference the elements; a list so short that neither does is left out.
- QuoteSelection.BestQuotedCandidate: the semaphore of the quoter calls is left out; it only delays arrivals, which are arbitrary here.
- QuoteRoutes.NormalizeRouting: the checks of chain name, RPC address, contract addresses and deadline are left out, and so is the error for no fee tier at all, which the defaults make impossible.
- TradePackage.Package.Init: assigns only the univ2 and univ3 maps here; the other variables are named above.
- SwapPermits.EncodePermitMulticall: the request enters validated, or as invalid, and signature and chain checks as one flag.
- SwapPermits.AttachPermit: texts of the route enter parsed, `None` where they do not parse; which of several violations is reported is not part of the contract.
- Bip32.NewChildKey: a public key without bytes, on which indexing would panic, is not an input; keys are values, and the one write through a shared buffer is `AppendChildIndex`.
- EvmTransfers.GetTxTransfers: nil elements of the logs or of the traced frames, which would panic, are not represented.
- SubstratePaths.WordsNeverCollide: names above 31 bytes are hashed, and nothing is claimed about collisions of the hash.
