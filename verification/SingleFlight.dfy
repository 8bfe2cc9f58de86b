/**
 * The single-flight cache protocol of `poolExists` (dex/univ3/quote_client.go) and `cachedTokens`
 * (dex/bridgers/client.go). Goroutines interleave freely; each locked section is one step, and the
 * clock readings, the outcomes of the remote calls and the cancellations are arbitrary.
 */
module SingleFlight {
  import opened Common

  /** Where the two caches differ: the semaphore of the remote calls and what the TTL counts from. */
  datatype Policy = Policy(slots: Option<Positive>, ttl: int, fromCompletion: bool)

  /** `poolExists`: eight slots, 30 seconds (in nanoseconds) from the clock reading before the lock. */
  const POOL_POLICY := Policy(Some(8), 30_000_000_000, false)

  /** `cachedTokens`: no slots, the configured TTL from a clock reading after the call. */
  function TokenPolicy(ttl: int): Policy { Policy(None, ttl, true) }

  type Outcome<+V> = Result<V, string>

  type FlightId = nat
  type CallerId = nat

  /** `source` is the flight that stored the entry; the source program does not keep it. */
  datatype Entry<+V> = Entry(value: V, expiresAt: int, source: FlightId)

  /** A load record. `closes` counts how often its channel was closed; `base` is what the TTL counted from. */
  datatype Flight<+V> = Flight(key: string, leader: CallerId, closes: nat, result: Option<Outcome<V>>, base: int)

  /** What the mutex protects. */
  datatype Shared<+V> = Shared(cache: map<string, Entry<V>>, inFlight: map<string, FlightId>,
                               flights: map<FlightId, Flight<V>>, next: FlightId)

  datatype Via = Hit(source: FlightId) | Joined(flight: FlightId) | Led(flight: FlightId) | GaveUp

  datatype Caller<+V> =
    | Clocked(key: string, now: int)
    | Waiting(key: string, now: int, flight: FlightId)
    | Leading(key: string, now: int, flight: FlightId)
    | Calling(key: string, now: int, flight: FlightId)                             // the remote call is outstanding
    | Returned(key: string, now: int, flight: FlightId, outcome: Outcome<V>)       // slot not given back yet
    | Publishing(key: string, now: int, flight: FlightId, outcome: Outcome<V>)
    | Done(key: string, now: int, outcome: Outcome<V>, via: Via)
  {
    predicate Leads() { Leading? || Calling? || Returned? || Publishing? }
    predicate HoldsSlot() { Calling? || Returned? }
    function LedFlight(): FlightId
      requires Leads()
    {
      flight
    }
  }

  datatype State<+V> = State(shared: Shared<V>, slotsHeld: nat, callers: map<CallerId, Caller<V>>)

  // ---- the two locked sections -----------------------------------------------------------------------

  predicate FreshHit<V>(s: Shared<V>, key: string, now: int) {
    key in s.cache && now < s.cache[key].expiresAt
  }

  function EnterCaller<V>(s: Shared<V>, key: string, now: int): Caller<V> {
    if FreshHit(s, key, now) then Done(key, now, Ok(s.cache[key].value), Hit(s.cache[key].source))
    else if key in s.inFlight then Waiting(key, now, s.inFlight[key])
    else Leading(key, now, s.next)
  }

  function EnterShared<V>(s: Shared<V>, key: string, now: int, t: CallerId): Shared<V> {
    if FreshHit(s, key, now) || key in s.inFlight then s
    else s.(inFlight := s.inFlight[key := s.next],
            flights := s.flights[s.next := Flight(key, t, 0, None, 0)],
            next := s.next + 1)
  }

  function PublishShared<V>(s: Shared<V>, key: string, flight: FlightId, outcome: Outcome<V>, base: int,
                            ttl: int): Shared<V>
    requires flight in s.flights
  {
    var f := s.flights[flight];
    s.(flights := s.flights[flight := f.(result := Some(outcome), closes := f.closes + 1, base := base)],
       cache := if outcome.Ok? then s.cache[key := Entry(outcome.value, base + ttl, flight)] else s.cache,
       inFlight := map k | k in s.inFlight && k != key :: s.inFlight[k])
  }

  /** The fields of the client that the mutex guards, and the two sections as its methods. */
  class LoadCache<V> {
    var cache: map<string, Entry<V>>
    var inFlight: map<string, FlightId>
    var flights: map<FlightId, Flight<V>>
    var next: FlightId

    ghost function View(): Shared<V>
      reads this
    {
      Shared(cache, inFlight, flights, next)
    }

    constructor ()
      ensures View() == Shared(map[], map[], map[], 0)
    {
      cache := map[];
      inFlight := map[];
      flights := map[];
      next := 0;
    }

    /** From `Lock` to the `Unlock` of whichever branch is taken. */
    method Enter(key: string, now: int, t: CallerId) returns (caller: Caller<V>)
      modifies this
      ensures caller == EnterCaller(old(View()), key, now)
      ensures View() == EnterShared(old(View()), key, now, t)
    {
      if key in cache && now < cache[key].expiresAt {
        return Done(key, now, Ok(cache[key].value), Hit(cache[key].source));
      }
      if key in inFlight {
        return Waiting(key, now, inFlight[key]);
      }
      var flight := next;
      flights := flights[flight := Flight(key, t, 0, None, 0)];
      next := next + 1;
      inFlight := inFlight[key := flight];
      return Leading(key, now, flight);
    }

    /** The second locked section: publish, store a success, remove the flight, close its channel. */
    method Publish(key: string, flight: FlightId, outcome: Outcome<V>, base: int, ttl: int)
      requires flight in flights
      modifies this
      ensures View() == PublishShared(old(View()), key, flight, outcome, base, ttl)
    {
      flights := flights[flight := flights[flight].(result := Some(outcome), base := base)];
      if outcome.Ok? {
        cache := cache[key := Entry(outcome.value, base + ttl, flight)];
      }
      inFlight := map k | k in inFlight && k != key :: inFlight[k];
      flights := flights[flight := flights[flight].(closes := flights[flight].closes + 1)];
    }
  }

  // ---- the steps ---------------------------------------------------------------------------------------

  datatype Step<+V> =
    | Call(t: CallerId, key: string, now: int)
    | Enter(t: CallerId)
    | Acquire(t: CallerId)
    | AbandonSlot(t: CallerId, err: string)
    | Return(t: CallerId, outcome: Outcome<V>)
    | Release(t: CallerId)
    | Publish(t: CallerId, completedAt: int)
    | Wake(t: CallerId)
    | AbandonWait(t: CallerId, err: string)

  predicate SlotFree<V>(s: State<V>, p: Policy) {
    p.slots.None? || s.slotsHeld < p.slots.value
  }

  predicate Enabled<V>(s: State<V>, step: Step<V>, p: Policy) {
    match step
    case Call(t, _, _) => t !in s.callers
    case Enter(t) => t in s.callers && s.callers[t].Clocked?
    case Acquire(t) => t in s.callers && s.callers[t].Leading? && SlotFree(s, p)
    case AbandonSlot(t, _) => t in s.callers && s.callers[t].Leading? && p.slots.Some?
    case Return(t, _) => t in s.callers && s.callers[t].Calling?
    case Release(t) => t in s.callers && s.callers[t].Returned? && s.slotsHeld > 0
    case Publish(t, _) => t in s.callers && s.callers[t].Publishing? && s.callers[t].flight in s.shared.flights
    case Wake(t) =>
      t in s.callers && s.callers[t].Waiting? && s.callers[t].flight in s.shared.flights &&
      s.shared.flights[s.callers[t].flight].closes > 0 && s.shared.flights[s.callers[t].flight].result.Some?
    case AbandonWait(t, _) => t in s.callers && s.callers[t].Waiting?
  }

  function After<V>(s: State<V>, step: Step<V>, p: Policy): State<V>
    requires Enabled(s, step, p)
  {
    match step
    case Call(t, key, now) => s.(callers := s.callers[t := Clocked(key, now)])
    case Enter(t) =>
      var c := s.callers[t];
      s.(shared := EnterShared(s.shared, c.key, c.now, t),
         callers := s.callers[t := EnterCaller(s.shared, c.key, c.now)])
    case Acquire(t) =>
      var c := s.callers[t];
      s.(slotsHeld := s.slotsHeld + 1, callers := s.callers[t := Calling(c.key, c.now, c.flight)])
    case AbandonSlot(t, err) =>
      var c := s.callers[t];
      s.(callers := s.callers[t := Publishing(c.key, c.now, c.flight, Err(err))])
    case Return(t, outcome) =>
      var c := s.callers[t];
      s.(callers := s.callers[t := Returned(c.key, c.now, c.flight, outcome)])
    case Release(t) =>
      var c := s.callers[t];
      s.(slotsHeld := s.slotsHeld - 1, callers := s.callers[t := Publishing(c.key, c.now, c.flight, c.outcome)])
    case Publish(t, completedAt) =>
      var c := s.callers[t];
      var base := if p.fromCompletion then completedAt else c.now;
      s.(shared := PublishShared(s.shared, c.key, c.flight, c.outcome, base, p.ttl),
         callers := s.callers[t := Done(c.key, c.now, c.outcome, Led(c.flight))])
    case Wake(t) =>
      var c := s.callers[t];
      s.(callers := s.callers[t := Done(c.key, c.now, s.shared.flights[c.flight].result.value, Joined(c.flight))])
    case AbandonWait(t, err) =>
      var c := s.callers[t];
      s.(callers := s.callers[t := Done(c.key, c.now, Err(err), GaveUp)])
  }

  predicate Initial<V>(s: State<V>) {
    s == State(Shared(map[], map[], map[], 0), 0, map[])
  }

  ghost predicate Next<V(!new)>(s: State<V>, s': State<V>, p: Policy) {
    exists step :: Enabled(s, step, p) && s' == After(s, step, p)
  }

  ghost predicate Run<V(!new)>(run: seq<State<V>>, p: Policy) {
    |run| > 0 && Initial(run[0]) && forall i :: 0 <= i < |run| - 1 ==> Next(run[i], run[i + 1], p)
  }

  ghost predicate Reachable<V(!new)>(s: State<V>, p: Policy) {
    exists run :: Run(run, p) && run[|run| - 1] == s
  }

  // ---- the invariant -----------------------------------------------------------------------------------

  /**
   * An unfinished flight is registered under its key and its leader is at work; a finished one has the leader's answer.
   */
  ghost predicate FlightOk<V>(s: State<V>, f: FlightId, p: Policy)
    requires f in s.shared.flights
  {
    var flight := s.shared.flights[f];
    && f < s.shared.next
    && flight.leader in s.callers
    && flight.closes <= 1
    && (flight.closes == 1 <==> flight.result.Some?)
    && var leader := s.callers[flight.leader];
       leader.key == flight.key &&
       if flight.closes == 0 then
         && flight.key in s.shared.inFlight && s.shared.inFlight[flight.key] == f
         && leader.Leads() && leader.LedFlight() == f
       else
         && leader.Done? && leader.via == Led(f) && leader.outcome == flight.result.value
         && (p.fromCompletion || flight.base == leader.now)
  }

  ghost predicate LeaderOk<V>(s: Shared<V>, t: CallerId, key: string, f: FlightId) {
    f in s.flights && s.flights[f].leader == t && s.flights[f].key == key && s.flights[f].closes == 0
  }

  ghost predicate Answered<V>(s: Shared<V>, key: string, f: FlightId, outcome: Outcome<V>) {
    f in s.flights && s.flights[f].key == key && s.flights[f].closes == 1 && s.flights[f].result == Some(outcome)
  }

  ghost predicate CallerOk<V>(s: Shared<V>, t: CallerId, c: Caller<V>, p: Policy) {
    match c
    case Clocked(_, _) => true
    case Waiting(key, _, f) => f in s.flights && s.flights[f].key == key
    case Leading(key, _, f) => LeaderOk(s, t, key, f)
    case Calling(key, _, f) => LeaderOk(s, t, key, f)
    case Returned(key, _, f, _) => LeaderOk(s, t, key, f)
    case Publishing(key, _, f, _) => LeaderOk(s, t, key, f)
    case Done(key, now, outcome, via) =>
      match via
      case GaveUp => true
      case Joined(f) => Answered(s, key, f, outcome)
      case Led(f) => Answered(s, key, f, outcome) && s.flights[f].leader == t
      case Hit(f) => Answered(s, key, f, outcome) && outcome.Ok? && now < s.flights[f].base + p.ttl
  }

  ghost predicate EntryOk<V>(s: Shared<V>, key: string, p: Policy)
    requires key in s.cache
  {
    var e := s.cache[key];
    Answered(s, key, e.source, Ok(e.value)) && e.expiresAt == s.flights[e.source].base + p.ttl
  }

  ghost predicate RegisteredOk<V>(s: Shared<V>, key: string)
    requires key in s.inFlight
  {
    s.inFlight[key] in s.flights && s.flights[s.inFlight[key]].key == key && s.flights[s.inFlight[key]].closes == 0
  }

  ghost predicate FlightsOk<V>(s: State<V>, p: Policy) { forall f :: f in s.shared.flights ==> FlightOk(s, f, p) }
  ghost predicate CallersOk<V>(s: State<V>, p: Policy) {
    forall t :: t in s.callers ==> CallerOk(s.shared, t, s.callers[t], p)
  }
  ghost predicate MapsOk<V>(s: Shared<V>, p: Policy) {
    (forall k :: k in s.inFlight ==> RegisteredOk(s, k)) && (forall k :: k in s.cache ==> EntryOk(s, k, p))
  }

  ghost function SlotHolders<V>(callers: map<CallerId, Caller<V>>): set<CallerId> {
    set t | t in callers && callers[t].HoldsSlot()
  }

  ghost predicate SlotsOk<V>(s: State<V>, p: Policy) {
    s.slotsHeld == |SlotHolders(s.callers)| && (p.slots.Some? ==> s.slotsHeld <= p.slots.value)
  }

  ghost predicate Invariant<V>(s: State<V>, p: Policy) {
    FlightsOk(s, p) && CallersOk(s, p) && MapsOk(s.shared, p) && SlotsOk(s, p)
  }

  function Replaced(s: set<CallerId>, t: CallerId, member: bool): set<CallerId> {
    if member then s + {t} else s - {t}
  }

  lemma SizeReplaced(s: set<CallerId>, t: CallerId, member: bool)
    ensures |Replaced(s, t, member)| == |s| + (if member then 1 else 0) - (if t in s then 1 else 0)
  {
    if t in s {
      assert s + {t} == s;
    } else {
      assert s - {t} == s;
    }
  }

  lemma HoldersReplaced<V>(callers: map<CallerId, Caller<V>>, t: CallerId, c: Caller<V>)
    ensures SlotHolders(callers[t := c]) == Replaced(SlotHolders(callers), t, c.HoldsSlot())
  {
  }

  lemma HoldersUpdate<V>(callers: map<CallerId, Caller<V>>, t: CallerId, c: Caller<V>)
    ensures var before, after := SlotHolders(callers), SlotHolders(callers[t := c]);
            |after| == |before| + (if c.HoldsSlot() then 1 else 0)
                       - (if t in callers && callers[t].HoldsSlot() then 1 else 0)
  {
    HoldersReplaced(callers, t, c);
    assert t in SlotHolders(callers) <==> t in callers && callers[t].HoldsSlot();
    hide SlotHolders, Replaced;
    SizeReplaced(SlotHolders(callers), t, c.HoldsSlot());
  }

  /** A caller moves on without touching what the mutex protects, and stays the leader if it was one. */
  lemma CallerMovesOn<V>(s: State<V>, t: CallerId, c: Caller<V>, slotsHeld: nat, p: Policy)
    requires Invariant(s, p)
    requires CallerOk(s.shared, t, c, p)
    requires t in s.callers ==> !s.callers[t].Done?
    requires t in s.callers && s.callers[t].Leads() ==>
               c.Leads() && c.LedFlight() == s.callers[t].LedFlight() && c.key == s.callers[t].key
    requires SlotsOk(s.(callers := s.callers[t := c], slotsHeld := slotsHeld), p)
    ensures Invariant(s.(callers := s.callers[t := c], slotsHeld := slotsHeld), p)
  {
    hide SlotsOk, MapsOk, CallerOk;
    var s' := s.(callers := s.callers[t := c], slotsHeld := slotsHeld);
    assert FlightsOk(s', p) by {
      forall f | f in s'.shared.flights ensures FlightOk(s', f, p) {
        assert FlightOk(s, f, p);
      }
    }
    assert CallersOk(s', p) by {
      forall u | u in s'.callers ensures CallerOk(s'.shared, u, s'.callers[u], p) {
        assert u != t ==> CallerOk(s.shared, u, s.callers[u], p);
      }
    }
  }

  lemma SlotsAfter<V>(s: State<V>, step: Step<V>, p: Policy)
    requires Invariant(s, p) && Enabled(s, step, p)
    ensures SlotsOk(After(s, step, p), p)
  {
    hide FlightsOk, CallersOk, MapsOk, EnterShared, PublishShared;
    var s' := After(s, step, p);
    HoldersUpdate(s.callers, step.t, s'.callers[step.t]);
    assert s'.callers == s.callers[step.t := s'.callers[step.t]];
  }

  predicate TouchesOnlyCaller<V>(s: State<V>, step: Step<V>) {
    && !step.Publish?
    && (step.Enter? && step.t in s.callers ==>
          var c := s.callers[step.t]; FreshHit(s.shared, c.key, c.now) || c.key in s.shared.inFlight)
  }

  lemma EnteredIsOk<V>(s: State<V>, t: CallerId, key: string, now: int, p: Policy)
    requires MapsOk(s.shared, p) && (FreshHit(s.shared, key, now) || key in s.shared.inFlight)
    ensures CallerOk(s.shared, t, EnterCaller(s.shared, key, now), p)
  {
    if FreshHit(s.shared, key, now) {
      assert EntryOk(s.shared, key, p);
    } else {
      assert RegisteredOk(s.shared, key);
    }
  }

  lemma WokenIsOk<V>(s: State<V>, t: CallerId, c: Caller<V>, p: Policy)
    requires FlightsOk(s, p) && c.Waiting? && CallerOk(s.shared, t, c, p)
    requires s.shared.flights[c.flight].closes > 0 && s.shared.flights[c.flight].result.Some?
    ensures CallerOk(s.shared, t, Done(c.key, c.now, s.shared.flights[c.flight].result.value, Joined(c.flight)), p)
  {
    assert FlightOk(s, c.flight, p);
  }

  lemma CallerStaysOk<V>(s: State<V>, step: Step<V>, p: Policy)
    requires Invariant(s, p) && Enabled(s, step, p) && TouchesOnlyCaller(s, step)
    ensures CallerOk(s.shared, step.t, After(s, step, p).callers[step.t], p)
  {
    hide SlotsOk, PublishShared, EnterCaller, FlightsOk, MapsOk, LeaderOk, Answered;
    assert step.t in s.callers ==> CallerOk(s.shared, step.t, s.callers[step.t], p);
    if step.Enter? {
      var c := s.callers[step.t];
      EnteredIsOk(s, step.t, c.key, c.now, p);
    } else if step.Wake? {
      WokenIsOk(s, step.t, s.callers[step.t], p);
    }
  }

  lemma CallerStepInvariant<V>(s: State<V>, step: Step<V>, p: Policy)
    requires Invariant(s, p) && Enabled(s, step, p) && TouchesOnlyCaller(s, step)
    ensures Invariant(After(s, step, p), p)
  {
    SlotsAfter(s, step, p);
    CallerStaysOk(s, step, p);
    hide FlightsOk, CallersOk, MapsOk, SlotsOk, CallerOk, PublishShared;
    var s' := After(s, step, p);
    var c := s'.callers[step.t];
    assert s' == s.(callers := s.callers[step.t := c], slotsHeld := s'.slotsHeld);
    CallerMovesOn(s, step.t, c, s'.slotsHeld, p);
  }

  /** Nothing said about a flight depends on the flights started later. */
  lemma CallerOkLater<V>(s: Shared<V>, s': Shared<V>, t: CallerId, c: Caller<V>, p: Policy)
    requires CallerOk(s, t, c, p)
    requires forall f :: f in s.flights ==> f in s'.flights && s'.flights[f] == s.flights[f]
    ensures CallerOk(s', t, c, p)
  {
  }

  predicate StartsFlight<V>(s: Shared<V>, key: string, now: int) { !FreshHit(s, key, now) && key !in s.inFlight }

  lemma NewFlightMaps<V>(s: Shared<V>, key: string, now: int, t: CallerId, p: Policy)
    requires MapsOk(s, p) && StartsFlight(s, key, now) && s.next !in s.flights
    ensures MapsOk(EnterShared(s, key, now, t), p) && LeaderOk(EnterShared(s, key, now, t), t, key, s.next)
  {
    var s' := EnterShared(s, key, now, t);
    forall k | k in s'.inFlight ensures RegisteredOk(s', k) {
      assert k != key ==> RegisteredOk(s, k);
    }
    forall k | k in s'.cache ensures EntryOk(s', k, p) {
      assert EntryOk(s, k, p);
    }
  }

  lemma OldFlightStays<V>(s: State<V>, t: CallerId, g: FlightId, p: Policy)
    requires t in s.callers && s.callers[t].Clocked? && StartsFlight(s.shared, s.callers[t].key, s.callers[t].now)
    requires g in s.shared.flights && g != s.shared.next && FlightOk(s, g, p)
    ensures FlightOk(After(s, Step<V>.Enter(t), p), g, p)
  {
  }

  lemma NewFlightIsOk<V>(s: State<V>, t: CallerId, p: Policy)
    requires t in s.callers && s.callers[t].Clocked? && StartsFlight(s.shared, s.callers[t].key, s.callers[t].now)
    ensures var s' := After(s, Step<V>.Enter(t), p);
            s.shared.next in s'.shared.flights && FlightOk(s', s.shared.next, p)
  {
  }

  lemma NewFlightInvariant<V>(s: State<V>, t: CallerId, p: Policy)
    requires Invariant(s, p) && Enabled(s, Step<V>.Enter(t), p) && !TouchesOnlyCaller(s, Step<V>.Enter(t))
    ensures Invariant(After(s, Step<V>.Enter(t), p), p)
  {
    SlotsAfter(s, Step<V>.Enter(t), p);
    var s' := After(s, Step<V>.Enter(t), p);
    var c := s.callers[t];
    var f := s.shared.next;
    assert f in s.shared.flights ==> FlightOk(s, f, p);
    assert StartsFlight(s.shared, c.key, c.now) && s'.shared == EnterShared(s.shared, c.key, c.now, t);
    assert s'.callers == s.callers[t := Leading(c.key, c.now, f)];
    assert forall g :: g in s.shared.flights ==> g in s'.shared.flights && s'.shared.flights[g] == s.shared.flights[g];
    assert s'.shared.flights.Keys == s.shared.flights.Keys + {f};
    NewFlightMaps(s.shared, c.key, c.now, t, p);
    NewFlightIsOk(s, t, p);
    LeadingIsOk(s'.shared, t, c.key, c.now, f, p);
    hide After, SlotsOk, MapsOk, FlightOk, CallerOk, EnterShared, LeaderOk;
    forall g | g in s'.shared.flights ensures FlightOk(s', g, p) {
      if g != f {
        assert FlightOk(s, g, p);
        OldFlightStays(s, t, g, p);
      }
    }
    forall u | u in s'.callers ensures CallerOk(s'.shared, u, s'.callers[u], p) {
      if u != t {
        assert CallerOk(s.shared, u, s.callers[u], p);
        CallerOkLater(s.shared, s'.shared, u, s.callers[u], p);
      }
    }
  }

  lemma LeadingIsOk<V>(s: Shared<V>, t: CallerId, key: string, now: int, f: FlightId, p: Policy)
    requires LeaderOk(s, t, key, f)
    ensures CallerOk(s, t, Caller<V>.Leading(key, now, f), p)
  {
  }

  /** Publishing finishes one unfinished flight of its own leader, so what other callers rely on stays. */
  lemma CallerOkPublished<V>(s: Shared<V>, f: FlightId, outcome: Outcome<V>, base: int, u: CallerId, c: Caller<V>,
                             p: Policy)
    requires f in s.flights && s.flights[f].closes == 0 && s.flights[f].leader != u
    requires CallerOk(s, u, c, p)
    ensures CallerOk(PublishShared(s, s.flights[f].key, f, outcome, base, p.ttl), u, c, p)
  {
  }

  /** A flight other than the one published: its key is another one, or it was finished before. */
  lemma OtherFlightStays<V>(s: State<V>, t: CallerId, completedAt: int, g: FlightId, p: Policy)
    requires Enabled(s, Step<V>.Publish(t, completedAt), p)
    requires LeaderOk(s.shared, t, s.callers[t].key, s.callers[t].flight) && FlightOk(s, s.callers[t].flight, p)
    requires g in s.shared.flights && g != s.callers[t].flight && FlightOk(s, g, p)
    ensures FlightOk(After(s, Step<V>.Publish(t, completedAt), p), g, p)
  {
    assert s.shared.flights[g].closes == 0 ==> s.shared.flights[g].key != s.callers[t].key;
  }

  lemma PublishedFlights<V>(s: State<V>, t: CallerId, completedAt: int, p: Policy)
    requires Invariant(s, p) && Enabled(s, Step<V>.Publish(t, completedAt), p)
    ensures FlightsOk(After(s, Step<V>.Publish(t, completedAt), p), p)
  {
    var s' := After(s, Step<V>.Publish(t, completedAt), p);
    var c := s.callers[t];
    assert CallerOk(s.shared, t, c, p);
    assert LeaderOk(s.shared, t, c.key, c.flight);
    assert FlightOk(s, c.flight, p);
    assert FlightOk(s', c.flight, p);
    assert s'.shared.flights.Keys == s.shared.flights.Keys;
    hide CallerOk, CallersOk, MapsOk, SlotsOk, After, FlightOk;
    forall g | g in s'.shared.flights ensures FlightOk(s', g, p) {
      assert FlightOk(s, g, p);
      if g != c.flight { OtherFlightStays(s, t, completedAt, g, p); }
    }
  }

  lemma PublishedMaps<V>(s: Shared<V>, t: CallerId, f: FlightId, outcome: Outcome<V>, base: int, p: Policy)
    requires MapsOk(s, p) && f in s.flights && LeaderOk(s, t, s.flights[f].key, f)
    requires s.flights[f].key in s.inFlight && s.inFlight[s.flights[f].key] == f
    ensures MapsOk(PublishShared(s, s.flights[f].key, f, outcome, base, p.ttl), p)
  {
    var s' := PublishShared(s, s.flights[f].key, f, outcome, base, p.ttl);
    forall k | k in s'.inFlight ensures RegisteredOk(s', k) {
      assert RegisteredOk(s, k);
    }
    forall k | k in s'.cache ensures EntryOk(s', k, p) {
      assert k in s.cache ==> EntryOk(s, k, p);
    }
  }

  lemma PublisherIsOk<V>(s: Shared<V>, t: CallerId, now: int, f: FlightId, outcome: Outcome<V>, base: int, p: Policy)
    requires f in s.flights && LeaderOk(s, t, s.flights[f].key, f)
    ensures CallerOk(PublishShared(s, s.flights[f].key, f, outcome, base, p.ttl), t,
            Done(s.flights[f].key, now, outcome, Led(f)), p)
  {
  }

  lemma PublishInvariant<V>(s: State<V>, t: CallerId, completedAt: int, p: Policy)
    requires Invariant(s, p) && Enabled(s, Step<V>.Publish(t, completedAt), p)
    ensures Invariant(After(s, Step<V>.Publish(t, completedAt), p), p)
  {
    SlotsAfter(s, Step<V>.Publish(t, completedAt), p);
    PublishedFlights(s, t, completedAt, p);
    var s' := After(s, Step<V>.Publish(t, completedAt), p);
    var c := s.callers[t];
    var f := c.flight;
    assert CallerOk(s.shared, t, c, p);
    assert LeaderOk(s.shared, t, c.key, f);
    assert FlightOk(s, f, p);
    hide SlotsOk, FlightsOk, MapsOk, PublishShared, CallerOk, FlightOk;
    var base := if p.fromCompletion then completedAt else c.now;
    assert s'.shared == PublishShared(s.shared, c.key, f, c.outcome, base, p.ttl);
    PublishedMaps(s.shared, t, f, c.outcome, base, p);
    PublisherIsOk(s.shared, t, c.now, f, c.outcome, base, p);
    forall u | u in s'.callers ensures CallerOk(s'.shared, u, s'.callers[u], p) {
      if u != t {
        assert CallerOk(s.shared, u, s.callers[u], p);
        CallerOkPublished(s.shared, f, c.outcome, base, u, s.callers[u], p);
      }
    }
  }

  lemma StepInvariant<V>(s: State<V>, step: Step<V>, p: Policy)
    requires Invariant(s, p) && Enabled(s, step, p)
    ensures Invariant(After(s, step, p), p)
  {
    hide FlightsOk, CallersOk, MapsOk, SlotsOk, After;
    if TouchesOnlyCaller(s, step) {
      CallerStepInvariant(s, step, p);
    } else if step.Publish? {
      PublishInvariant(s, step.t, step.completedAt, p);
    } else {
      NewFlightInvariant(s, step.t, p);
    }
  }

  lemma {:induction false} RunInvariant<V(!new)>(run: seq<State<V>>, p: Policy)
    requires Run(run, p)
    ensures Invariant(run[|run| - 1], p)
    decreases |run|
  {
    if |run| == 1 {
      assert SlotHolders(run[0].callers) == {};
    } else {
      hide Invariant, Initial, After, Enabled;
      var last := |run| - 2;
      RunInvariant(run[..last + 1], p);
      assert Next(run[last], run[last + 1], p);
      var step :| Enabled(run[last], step, p) && run[last + 1] == After(run[last], step, p);
      StepInvariant(run[last], step, p);
    }
  }

  // ---- what every reachable state satisfies -------------------------------------------------------------

  predicate Finished<V>(s: State<V>, t: CallerId) { t in s.callers && s.callers[t].Done? }

  /** `t` got its answer as the leader of flight `f`. */
  predicate LedBy<V>(s: State<V>, f: FlightId, t: CallerId) { Finished(s, t) && s.callers[t].via == Led(f) }

  lemma OneCallPerKey<V(!new)>(s: State<V>, p: Policy, t: CallerId, u: CallerId)
    requires Reachable(s, p)
    requires t in s.callers && s.callers[t].Leads() && u in s.callers && s.callers[u].Leads()
    requires s.callers[t].key == s.callers[u].key
    ensures t == u
  {
    var run :| Run(run, p) && run[|run| - 1] == s;
    RunInvariant(run, p);
    assert CallerOk(s.shared, t, s.callers[t], p) && CallerOk(s.shared, u, s.callers[u], p);
    assert FlightOk(s, s.callers[t].LedFlight(), p) && FlightOk(s, s.callers[u].LedFlight(), p);
  }

  /**
   * A channel is closed exactly once, with its map entry removed; until then the flight is the registered one of its
   * key.
   */
  lemma ClosedOnceAndRemoved<V(!new)>(s: State<V>, p: Policy, f: FlightId)
    requires Reachable(s, p) && f in s.shared.flights
    ensures var flight := s.shared.flights[f];
            && flight.closes <= 1
            && (flight.closes == 0 <==> flight.key in s.shared.inFlight && s.shared.inFlight[flight.key] == f)
            && (flight.closes == 1 <==> LedBy(s, f, flight.leader))
            && (flight.closes == 1 ==> flight.result == Some(s.callers[flight.leader].outcome))
  {
    var run :| Run(run, p) && run[|run| - 1] == s;
    RunInvariant(run, p);
    var flight := s.shared.flights[f];
    assert FlightOk(s, f, p);
    assert flight.key in s.shared.inFlight ==> RegisteredOk(s.shared, flight.key);
  }

  /** A waiter that was not cancelled returns what the leader of its flight returned, for the same key. */
  lemma WaiterSeesLeader<V(!new)>(s: State<V>, p: Policy, t: CallerId)
    requires Reachable(s, p) && Finished(s, t) && s.callers[t].via.Joined?
    ensures var f := s.callers[t].via.flight;
            f in s.shared.flights &&
            var leader := s.shared.flights[f].leader;
            LedBy(s, f, leader) && s.callers[leader].key == s.callers[t].key
              && s.callers[leader].outcome == s.callers[t].outcome
  {
    var run :| Run(run, p) && run[|run| - 1] == s;
    RunInvariant(run, p);
    assert CallerOk(s.shared, t, s.callers[t], p);
    assert FlightOk(s, s.callers[t].via.flight, p);
  }

  lemma SlotsAreBounded<V(!new)>(s: State<V>, p: Policy)
    requires Reachable(s, p)
    ensures s.slotsHeld == |SlotHolders(s.callers)|
    ensures p.slots.Some? ==> s.slotsHeld <= p.slots.value
  {
    var run :| Run(run, p) && run[|run| - 1] == s;
    RunInvariant(run, p);
  }

  /** A hit is a leader's successful answer for the same key, not older than the TTL by the reading the policy names. */
  lemma HitIsFreshAnswer<V(!new)>(s: State<V>, p: Policy, t: CallerId)
    requires Reachable(s, p) && Finished(s, t) && s.callers[t].via.Hit?
    ensures var f := s.callers[t].via.source;
            && s.callers[t].outcome.Ok?
            && f in s.shared.flights
            && s.callers[t].now - s.shared.flights[f].base < p.ttl
            && var leader := s.shared.flights[f].leader;
               && LedBy(s, f, leader) && s.callers[leader].key == s.callers[t].key
                  && s.callers[leader].outcome == s.callers[t].outcome
               && (!p.fromCompletion ==> s.callers[t].now - s.callers[leader].now < p.ttl)
  {
    var run :| Run(run, p) && run[|run| - 1] == s;
    RunInvariant(run, p);
    assert CallerOk(s.shared, t, s.callers[t], p);
    assert FlightOk(s, s.callers[t].via.source, p);
  }

  /** `poolExists`: the hit is less than 30 seconds younger than its leader's reading, and at most 8 calls are out. */
  lemma PoolLookups(s: State<bool>, t: CallerId)
    requires Reachable(s, POOL_POLICY)
    ensures s.slotsHeld <= 8
    ensures Finished(s, t) && s.callers[t].via.Hit? ==>
              exists leader ::
                  LedBy(s, s.callers[t].via.source, leader) && s.callers[leader].outcome == s.callers[t].outcome
                               && s.callers[leader].key == s.callers[t].key
                               && s.callers[t].now - s.callers[leader].now < 30_000_000_000
  {
    SlotsAreBounded(s, POOL_POLICY);
    if Finished(s, t) && s.callers[t].via.Hit? {
      HitIsFreshAnswer(s, POOL_POLICY, t);
    }
  }

  // ---- where a stored answer comes from -----------------------------------------------------------------

  /** A finished flight never changes again. */
  lemma PublishedIsFinal<V>(s: State<V>, step: Step<V>, p: Policy, f: FlightId)
    requires Invariant(s, p) && Enabled(s, step, p)
    requires f in s.shared.flights && s.shared.flights[f].closes == 1
    ensures f in After(s, step, p).shared.flights && After(s, step, p).shared.flights[f] == s.shared.flights[f]
  {
    assert FlightOk(s, f, p);
    if step.Publish? {
      assert CallerOk(s.shared, step.t, s.callers[step.t], p);
    }
  }

  /** Step `i` of the run publishes flight `f` for `leader`, who reads the clock as `completedAt` afterwards. */
  ghost predicate PublishedAt<V>(run: seq<State<V>>, i: nat, f: FlightId, leader: CallerId, completedAt: int,
                                 p: Policy) {
    && i + 1 < |run| && Enabled(run[i], Step<V>.Publish(leader, completedAt), p)
    && run[i + 1] == After(run[i], Step<V>.Publish(leader, completedAt), p)
    && run[i].callers[leader].flight == f
  }

  lemma OnlyPublishFinishes<V>(s: State<V>, step: Step<V>, p: Policy, f: FlightId)
    requires Enabled(s, step, p)
    requires f in After(s, step, p).shared.flights && After(s, step, p).shared.flights[f].closes == 1
    requires f in s.shared.flights ==> s.shared.flights[f].closes != 1
    ensures f in s.shared.flights && step.Publish? && s.callers[step.t].flight == f
  {
    hide EnterCaller;
    var c := After(s, step, p).callers[step.t];
  }

  lemma FinishedNow<V>(s: State<V>, step: Step<V>, p: Policy, f: FlightId)
    requires Invariant(s, p) && Enabled(s, step, p)
    requires f in After(s, step, p).shared.flights && After(s, step, p).shared.flights[f].closes == 1
    requires f in s.shared.flights ==> s.shared.flights[f].closes != 1
    ensures var flight := After(s, step, p).shared.flights[f];
            && step.Publish? && step.t == flight.leader && s.callers[step.t].flight == f
            && (p.fromCompletion ==> flight.base == step.completedAt)
  {
    OnlyPublishFinishes(s, step, p, f);
    assert CallerOk(s.shared, step.t, s.callers[step.t], p);
    hide FlightsOk, CallersOk, MapsOk, SlotsOk;
  }

  lemma StillPublished<V>(run: seq<State<V>>, n: nat, i: nat, f: FlightId, leader: CallerId, completedAt: int,
                          p: Policy)
    requires n <= |run| && PublishedAt(run[..n], i, f, leader, completedAt, p)
    ensures PublishedAt(run, i, f, leader, completedAt, p)
  {
    hide Enabled, After;
  }

  ghost predicate Publication<V(!new)>(run: seq<State<V>>, f: FlightId, flight: Flight<V>, p: Policy) {
    exists i: nat, completedAt: int :: PublishedAt(run, i, f, flight.leader, completedAt, p)
                                       && (p.fromCompletion ==> flight.base == completedAt)
  }

  lemma LaterPublication<V(!new)>(run: seq<State<V>>, n: nat, f: FlightId, flight: Flight<V>, p: Policy)
    requires n <= |run| && Publication(run[..n], f, flight, p)
    ensures Publication(run, f, flight, p)
  {
    hide PublishedAt;
    var i: nat, completedAt: int :| PublishedAt(run[..n], i, f, flight.leader, completedAt, p)
                                    && (p.fromCompletion ==> flight.base == completedAt);
    StillPublished(run, n, i, f, flight.leader, completedAt, p);
  }

  /** Every finished flight was published by one step of the run, whose completion reading its entry counts from. */
  lemma {:induction false} WhoPublished<V(!new)>(run: seq<State<V>>, p: Policy, f: FlightId)
    requires Run(run, p)
    requires f in run[|run| - 1].shared.flights && run[|run| - 1].shared.flights[f].closes == 1
    ensures Publication(run, f, run[|run| - 1].shared.flights[f], p)
    decreases |run|
  {
    if |run| > 1 {
      var last := |run| - 2;
      var earlier := run[..last + 1];
      hide Invariant, After, Enabled, Initial, Publication;
      RunInvariant(earlier, p);
      assert Next(run[last], run[last + 1], p);
      var step :| Enabled(run[last], step, p) && run[last + 1] == After(run[last], step, p);
      hide Next, Run;
      var flight := run[|run| - 1].shared.flights[f];
      if f in run[last].shared.flights && run[last].shared.flights[f].closes == 1 {
        PublishedIsFinal(run[last], step, p, f);
        WhoPublished(earlier, p, f);
        LaterPublication(run, last + 1, f, flight, p);
      } else {
        FinishedNow(run[last], step, p, f);
        PublishedLast(run, step.completedAt, f, flight, p);
      }
    }
  }

  lemma PublishedLast<V(!new)>(run: seq<State<V>>, completedAt: int, f: FlightId, flight: Flight<V>, p: Policy)
    requires |run| > 1 && PublishedAt(run, |run| - 2, f, flight.leader, completedAt, p)
    requires p.fromCompletion ==> flight.base == completedAt
    ensures Publication(run, f, flight, p)
  {
    hide PublishedAt;
  }

  /** `cachedTokens`: a hit is younger than the TTL, counted from the reading its leader took after the call. */
  lemma TokenLookups<V(!new)>(run: seq<State<V>>, ttl: int, t: CallerId)
    requires Run(run, TokenPolicy(ttl)) && Finished(run[|run| - 1], t) && run[|run| - 1].callers[t].via.Hit?
    ensures var s := run[|run| - 1];
            exists i: nat, leader: CallerId, completedAt: int ::
              && PublishedAt(run, i, s.callers[t].via.source, leader, completedAt, TokenPolicy(ttl))
              && LedBy(s, s.callers[t].via.source, leader) && s.callers[leader].outcome == s.callers[t].outcome
              && s.callers[t].now - completedAt < ttl
  {
    var s := run[|run| - 1];
    var f := s.callers[t].via.source;
    assert Reachable(s, TokenPolicy(ttl));
    HitIsFreshAnswer(s, TokenPolicy(ttl), t);
    ClosedOnceAndRemoved(s, TokenPolicy(ttl), f);
    WhoPublished(run, TokenPolicy(ttl), f);
  }

  // ---- progress -----------------------------------------------------------------------------------------

  /** The steps that need no new caller and no cancellation. */
  predicate Ordinary<V>(step: Step<V>) { !step.Call? && !step.AbandonSlot? && !step.AbandonWait? }

  ghost predicate CanProceed<V(!new)>(s: State<V>, p: Policy) {
    exists step: Step<V> :: Ordinary(step) && Enabled(s, step, p)
  }

  lemma HolderCanProceed<V(!new)>(s: State<V>, p: Policy, t: CallerId)
    requires Invariant(s, p) && t in s.callers && s.callers[t].HoldsSlot()
    ensures CanProceed(s, p)
  {
    assert t in SlotHolders(s.callers);
    if s.callers[t].Calling? {
      var step := Step<V>.Return(t, Err(""));
      assert Ordinary(step) && Enabled(s, step, p);
    } else {
      var step := Step<V>.Release(t);
      assert Ordinary(step) && Enabled(s, step, p);
    }
  }

  lemma LeaderCanProceed<V(!new)>(s: State<V>, p: Policy, t: CallerId)
    requires Invariant(s, p) && t in s.callers && s.callers[t].Leads()
    ensures CanProceed(s, p)
  {
    assert CallerOk(s.shared, t, s.callers[t], p);
    if s.callers[t].HoldsSlot() {
      HolderCanProceed(s, p, t);
    } else if s.callers[t].Publishing? {
      var step := Step<V>.Publish(t, 0);
      assert Ordinary(step) && Enabled(s, step, p);
    } else if SlotFree(s, p) {
      var step := Step<V>.Acquire(t);
      assert Ordinary(step) && Enabled(s, step, p);
    } else {
      assert |SlotHolders(s.callers)| > 0;
      var u :| u in SlotHolders(s.callers);
      HolderCanProceed(s, p, u);
    }
  }

  lemma WaiterCanProceed<V(!new)>(s: State<V>, p: Policy, t: CallerId)
    requires Invariant(s, p) && t in s.callers && s.callers[t].Waiting?
    ensures CanProceed(s, p)
  {
    hide SlotsOk, MapsOk;
    assert CallerOk(s.shared, t, s.callers[t], p);
    var f := s.callers[t].flight;
    assert FlightOk(s, f, p);
    if s.shared.flights[f].closes == 0 {
      LeaderCanProceed(s, p, s.shared.flights[f].leader);
    } else {
      var step := Step<V>.Wake(t);
      assert Ordinary(step) && Enabled(s, step, p);
    }
  }

  /** No deadlock: while some caller has no answer, some step that cancels nobody can be taken. */
  lemma NoDeadlock<V(!new)>(s: State<V>, p: Policy, t: CallerId)
    requires Reachable(s, p) && t in s.callers && !s.callers[t].Done?
    ensures CanProceed(s, p)
  {
    var run :| Run(run, p) && run[|run| - 1] == s;
    RunInvariant(run, p);
    hide Run, Reachable, Invariant;
    if s.callers[t].Clocked? {
      var step := Step<V>.Enter(t);
      assert Ordinary(step) && Enabled(s, step, p);
    } else if s.callers[t].Waiting? {
      WaiterCanProceed(s, p, t);
    } else {
      LeaderCanProceed(s, p, t);
    }
  }

  /** How far a caller has come; every step moves exactly one caller forward. */
  function Progress<V>(c: Caller<V>): nat {
    match c
    case Clocked(_, _) => 1
    case Waiting(_, _, _) => 2
    case Leading(_, _, _) => 2
    case Calling(_, _, _) => 3
    case Returned(_, _, _, _) => 4
    case Publishing(_, _, _, _) => 5
    case Done(_, _, _, _) => 6
  }

  ghost function TotalProgress<V>(callers: map<CallerId, Caller<V>>): nat {
    if callers == map[] then 0 else
      var t :| t in callers;
      Progress(callers[t]) + TotalProgress(callers - {t})
  }

  lemma {:induction false} TotalProgressWithout<V>(callers: map<CallerId, Caller<V>>, t: CallerId)
    requires t in callers
    ensures TotalProgress(callers) == Progress(callers[t]) + TotalProgress(callers - {t})
    decreases |callers|
  {
    var u :| u in callers && TotalProgress(callers) == Progress(callers[u]) + TotalProgress(callers - {u});
    if u != t {
      assert |callers - {u}| < |callers| by { assert (callers - {u}).Keys == callers.Keys - {u}; }
      TotalProgressWithout(callers - {u}, t);
      assert |callers - {t}| < |callers| by { assert (callers - {t}).Keys == callers.Keys - {t}; }
      TotalProgressWithout(callers - {t}, u);
      assert callers - {u} - {t} == callers - {t} - {u};
    }
  }

  lemma StepAdvances<V>(s: State<V>, step: Step<V>, p: Policy)
    requires Enabled(s, step, p)
    ensures TotalProgress(After(s, step, p).callers) > TotalProgress(s.callers)
  {
    var t := step.t;
    var after := After(s, step, p).callers;
    assert t in after && after - {t} == s.callers - {t};
    TotalProgressWithout(after, t);
    if t in s.callers {
      TotalProgressWithout(s.callers, t);
    } else {
      assert s.callers - {t} == s.callers;
    }
  }

  lemma {:induction false} TotalProgressBound<V>(callers: map<CallerId, Caller<V>>)
    ensures TotalProgress(callers) <= 6 * |callers|
    decreases |callers|
  {
    if callers != map[] {
      var t :| t in callers;
      assert (callers - {t}).Keys == callers.Keys - {t};
      assert |callers| == |callers - {t}| + 1;
      TotalProgressBound(callers - {t});
      TotalProgressWithout(callers, t);
    }
  }

  lemma {:induction false} StepsTaken<V(!new)>(run: seq<State<V>>, p: Policy)
    requires Run(run, p)
    ensures |run| - 1 <= TotalProgress(run[|run| - 1].callers)
    decreases |run|
  {
    if |run| > 1 {
      var last := |run| - 2;
      StepsTaken(run[..last + 1], p);
      assert Next(run[last], run[last + 1], p);
      var step :| Enabled(run[last], step, p) && run[last + 1] == After(run[last], step, p);
      StepAdvances(run[last], step, p);
    }
  }

  /** No run takes more than six steps for each caller, so with `NoDeadlock` every caller gets an answer. */
  lemma RunsAreShort<V(!new)>(run: seq<State<V>>, p: Policy)
    requires Run(run, p)
    ensures |run| - 1 <= 6 * |run[|run| - 1].callers|
  {
    StepsTaken(run, p);
    TotalProgressBound(run[|run| - 1].callers);
  }
}
