/**
 * mobile/trade: building, reusing and retiring the univ2 and univ3 clients. Both files of the source
 * run the same algorithm on their own client type; here one algorithm runs on both families.
 *
 * A client is a handle with an identity (`serial`) and the normalized configuration it was built
 * from. What happens to its connection is recorded as `Opened` and `Closed` events.
 */
module TradeClients {
  import opened Common
  import opened Decimals
  import opened Sentences
  import opened Sequences

  /** `settings` stands for the further fields that are compared. */
  datatype Settings = Settings(chainName: string, chainID: Uint64, settings: seq<string>)

  predicate Trimmed(s: string) { TrimSpace(s) == s }

  /** A normalized configuration: the name of the chain has no white space around it. */
  type Config = c: Settings | Trimmed(c.chainName) witness Settings("", 0, [])

  datatype Family = Univ2 | Univ3

  datatype Client = Client(family: Family, serial: nat, config: Config)

  type Clients = map<string, Client>

  datatype Event = Opened(client: Client) | Closed(client: Client)

  /** `strings.ToUpper`, of which only its effect on digits is used. */
  type Upper = string -> string

  ghost predicate KeepsDigits(upper: Upper) {
    forall n: nat :: upper(Format(n)) == Format(n)
  }

  function NameKey(config: Config, upper: Upper): string { upper(config.chainName) }

  function IdKey(config: Config): string { Format(config.chainID) }

  function CloseAll(clients: seq<Client>): (events: seq<Event>)
    ensures |events| == |clients| && forall i :: 0 <= i < |clients| ==> events[i] == Closed(clients[i])
  {
    seq(|clients|, i requires 0 <= i < |clients| => Closed(clients[i]))
  }

  // ---- what a sequence of events does to the open connections ---------------------------------------

  function Apply(open: set<Client>, e: Event): set<Client> {
    match e
    case Opened(c) => open + {c}
    case Closed(c) => open - {c}
  }

  function OpenAfter(open: set<Client>, events: seq<Event>): set<Client>
    decreases |events|
  {
    if events == [] then open else OpenAfter(Apply(open, events[0]), events[1..])
  }

  function ClosesAfter(closes: multiset<Client>, events: seq<Event>): multiset<Client>
    decreases |events|
  {
    if events == [] then closes
    else ClosesAfter(if events[0].Closed? then closes + multiset{events[0].client} else closes, events[1..])
  }

  /** Only a new handle is opened, and only an open one is closed. */
  predicate Legal(open: set<Client>, closes: multiset<Client>, events: seq<Event>)
    decreases |events|
  {
    events == [] ||
    (match events[0]
     case Opened(c) => c !in open && c !in closes && Legal(open + {c}, closes, events[1..])
     case Closed(c) => c in open && Legal(open - {c}, closes + multiset{c}, events[1..]))
  }

  lemma {:induction false} EventsConcat(open: set<Client>, closes: multiset<Client>, a: seq<Event>, b: seq<Event>)
    ensures OpenAfter(open, a + b) == OpenAfter(OpenAfter(open, a), b)
    ensures ClosesAfter(closes, a + b) == ClosesAfter(ClosesAfter(closes, a), b)
    ensures Legal(open, closes, a + b) <==>
            Legal(open, closes, a) && Legal(OpenAfter(open, a), ClosesAfter(closes, a), b)
    decreases |a|
  {
    if a == [] {
      assert a + b == b;
    } else {
      assert (a + b)[0] == a[0] && (a + b)[1..] == a[1..] + b;
      EventsConcat(Apply(open, a[0]), if a[0].Closed? then closes + multiset{a[0].client} else closes, a[1..], b);
    }
  }

  function Members(clients: seq<Client>): set<Client> {
    set i | 0 <= i < |clients| :: clients[i]
  }

  lemma MembersSnoc(clients: seq<Client>, c: Client)
    ensures Members(clients + [c]) == Members(clients) + {c}
  {
    var more := clients + [c];
    assert more[|clients|] == c && forall i :: 0 <= i < |clients| ==> more[i] == clients[i];
  }

  lemma {:induction false} ClosingAll(open: set<Client>, closes: multiset<Client>, clients: seq<Client>)
    requires NoDuplicates(clients) && Members(clients) <= open
    ensures Legal(open, closes, CloseAll(clients))
    ensures OpenAfter(open, CloseAll(clients)) == open - Members(clients)
    ensures forall c :: c in ClosesAfter(closes, CloseAll(clients)) <==> c in closes || c in Members(clients)
  {
    if clients != [] {
      var c, rest := clients[0], clients[1..];
      assert Members(clients) == {c} + Members(rest) && c !in Members(rest);
      assert CloseAll(clients)[1..] == CloseAll(rest);
      ClosingAll(open - {c}, closes + multiset{c}, rest);
    }
  }

  // ---- building a set of clients -----------------------------------------------------------------------

  datatype Build =
    | Built(clients: Clients, created: seq<Client>, events: seq<Event>, next: nat)
    | Failed(events: seq<Event>, next: nat)
  {
    function After(earlier: seq<Event>): Build {
      this.(events := earlier + events)
    }
  }

  datatype Round = Next(clients: Clients, created: seq<Client>, events: seq<Event>) | Stop(events: seq<Event>)

  /**
   * One round of the loop of `newUniv2Clients` and `newUniv3Clients`. `attempt` is what
   * `NewClient(config)` would give: a normalized configuration, or an error.
   */
  function BuildRound(family: Family, attempt: Option<Config>, existing: Clients, upper: Upper,
                      clients: Clients, created: seq<Client>, next: nat): Round
  {
    if attempt.None? then Stop(CloseAll(created))
    else
      var config := attempt.value;
      var candidate := Client(family, next, config);
      var nameKey, idKey := NameKey(config, upper), IdKey(config);
      if nameKey in clients || idKey in clients then
        Stop([Opened(candidate), Closed(candidate)] + CloseAll(created))
      else if nameKey in existing && existing[nameKey].config == config then
        Next(clients[nameKey := existing[nameKey]][idKey := existing[nameKey]], created,
          [Opened(candidate), Closed(candidate)])
      else
        Next(clients[nameKey := candidate][idKey := candidate], created + [candidate], [Opened(candidate)])
  }

  function NextSerial(attempt: Option<Config>, next: nat): nat {
    if attempt.Some? then next + 1 else next
  }

  /** The whole loop, from a state (`clients`, `created`). */
  function BuildFrom(family: Family, attempts: seq<Option<Config>>, existing: Clients, upper: Upper,
                     clients: Clients, created: seq<Client>, next: nat): Build
    decreases |attempts|
  {
    if attempts == [] then Built(clients, created, [], next)
    else
      match BuildRound(family, attempts[0], existing, upper, clients, created, next)
      case Stop(events) => Failed(events, NextSerial(attempts[0], next))
      case Next(clients', created', events) =>
        BuildFrom(family, attempts[1..], existing, upper, clients', created',
          NextSerial(attempts[0], next)).After(events)
  }

  function BuildClients(family: Family, attempts: seq<Option<Config>>, existing: Clients, upper: Upper,
                        next: nat): Build {
    BuildFrom(family, attempts, existing, upper, map[], [], next)
  }

  /** All handles known so far are older than `next`. */
  predicate Older(open: set<Client>, closes: multiset<Client>, next: nat) {
    (forall c :: c in open ==> c.serial < next) && (forall c :: c in closes ==> c.serial < next)
  }

  /** Every client is reachable under the name and under the id of its own configuration. */
  predicate BothKeys(clients: Clients, upper: Upper) {
    forall k :: k in clients ==>
      && NameKey(clients[k].config, upper) in clients && clients[NameKey(clients[k].config, upper)] == clients[k]
      && IdKey(clients[k].config) in clients && clients[IdKey(clients[k].config)] == clients[k]
      && (k == NameKey(clients[k].config, upper) || k == IdKey(clients[k].config))
  }

  /** Nothing is closed but handles that are listed or not older than `next`. */
  predicate ClosesOnly(events: seq<Event>, listed: set<Client>, next: nat) {
    forall i :: 0 <= i < |events| && events[i].Closed? ==> events[i].client in listed || events[i].client.serial >= next
  }

  /** The effect of a build, from any state of its loop. */
  ghost predicate BuildEffect(b: Build, open: set<Client>, closes: multiset<Client>, existing: Clients,
                              created: seq<Client>, next: nat)
  {
    && b.next >= next
    && Legal(open, closes, b.events)
    && ClosesOnly(b.events, Members(created), next)
    && Older(OpenAfter(open, b.events), ClosesAfter(closes, b.events), b.next)
    && match b
       case Built(clients, made, _, _) =>
         && NoDuplicates(made) && Members(created) <= Members(made)
         && (forall c :: c in Members(made) ==> c in Members(created) || c.serial >= next)
         && OpenAfter(open, b.events) == open + Members(made)
         && clients.Values <= existing.Values + Members(made)
       case Failed(_, _) =>
         OpenAfter(open, b.events) == open - Members(created)
  }

  lemma {:induction false} DiscardStep(open: set<Client>, closes: multiset<Client>, c: Client, rest: seq<Event>)
    requires c !in open && c !in closes
    ensures OpenAfter(open, [Opened(c), Closed(c)] + rest) == OpenAfter(open, rest)
    ensures ClosesAfter(closes, [Opened(c), Closed(c)] + rest) == ClosesAfter(closes + multiset{c}, rest)
    ensures Legal(open, closes, [Opened(c), Closed(c)] + rest) <==> Legal(open, closes + multiset{c}, rest)
  {
    var two := [Opened(c), Closed(c)];
    EventsConcat(open, closes, two, rest);
    assert two[1..] == [Closed(c)] && two[1..][1..] == [];
    assert open + {c} - {c} == open;
    assert OpenAfter(open + {c}, [Closed(c)]) == open;
    assert ClosesAfter(closes, two) == ClosesAfter(closes, [Closed(c)]) == closes + multiset{c};
    assert Legal(open + {c}, closes, [Closed(c)]) by { assert Legal(open, closes + multiset{c}, []); }
  }

  lemma OpenStep(open: set<Client>, closes: multiset<Client>, c: Client, rest: seq<Event>)
    requires c !in open && c !in closes
    ensures OpenAfter(open, [Opened(c)] + rest) == OpenAfter(open + {c}, rest)
    ensures ClosesAfter(closes, [Opened(c)] + rest) == ClosesAfter(closes, rest)
    ensures Legal(open, closes, [Opened(c)] + rest) <==> Legal(open + {c}, closes, rest)
  {
    assert ([Opened(c)] + rest)[1..] == rest;
  }

  /** A candidate that is discarded again leaves no trace but its number. */
  lemma DiscardEffect(b: Build, candidate: Client, open: set<Client>, closes: multiset<Client>,
                      existing: Clients, created: seq<Client>, next: nat)
    requires Older(open, closes, next) && candidate.serial == next
    requires BuildEffect(b, open, closes + multiset{candidate}, existing, created, next + 1)
    ensures BuildEffect(b.After([Opened(candidate), Closed(candidate)]), open, closes, existing, created, next)
  {
    hide Legal, OpenAfter, ClosesAfter, NoDuplicates, Members;
    DiscardStep(open, closes, candidate, b.events);
    assert b.After([Opened(candidate), Closed(candidate)]).events == [Opened(candidate), Closed(candidate)] + b.events;
  }

  lemma CreateEffect(b: Build, candidate: Client, open: set<Client>, closes: multiset<Client>,
                     existing: Clients, created: seq<Client>, next: nat)
    requires Older(open, closes, next) && candidate.serial == next
    requires BuildEffect(b, open + {candidate}, closes, existing, created + [candidate], next + 1)
    ensures BuildEffect(b.After([Opened(candidate)]), open, closes, existing, created, next)
  {
    MembersSnoc(created, candidate);
    hide Legal, OpenAfter, ClosesAfter, NoDuplicates, Members;
    OpenStep(open, closes, candidate, b.events);
    assert b.After([Opened(candidate)]).events == [Opened(candidate)] + b.events;
    assert candidate !in open;
    if b.Failed? {
      assert open + {candidate} - (Members(created) + {candidate}) == open - Members(created);
    } else {
      assert candidate in Members(b.created);
      assert open + {candidate} + Members(b.created) == open + Members(b.created);
    }
  }

  lemma CloseEffect(open: set<Client>, closes: multiset<Client>, existing: Clients, created: seq<Client>, next: nat)
    requires Older(open, closes, next) && NoDuplicates(created) && Members(created) <= open
    ensures BuildEffect(Failed(CloseAll(created), next), open, closes, existing, created, next)
  {
    ClosingAll(open, closes, created);
  }

  lemma NothingEffect(open: set<Client>, closes: multiset<Client>, existing: Clients, clients: Clients,
                      created: seq<Client>, next: nat)
    requires Older(open, closes, next) && NoDuplicates(created) && Members(created) <= open
    requires clients.Values <= existing.Values + Members(created)
    ensures BuildEffect(Built(clients, created, [], next), open, closes, existing, created, next)
  {
    assert open + Members(created) == open;
  }

  lemma InsertValues(clients: Clients, k1: string, k2: string, c: Client)
    ensures clients[k1 := c][k2 := c].Values <= clients.Values + {c}
  {
  }

  lemma NoDuplicatesSnoc(clients: seq<Client>, c: Client)
    requires NoDuplicates(clients) && c !in Members(clients)
    ensures NoDuplicates(clients + [c])
  {
  }

  /** What the loop keeps from round to round. */
  predicate BuildState(open: set<Client>, closes: multiset<Client>, existing: Clients, clients: Clients,
                       created: seq<Client>, next: nat) {
    && Older(open, closes, next) && NoDuplicates(created) && Members(created) <= open
    && clients.Values <= existing.Values + Members(created)
  }

  lemma ReuseKeepsState(open: set<Client>, closes: multiset<Client>, existing: Clients, clients: Clients,
                        created: seq<Client>,
                        candidate: Client, nameKey: string, idKey: string)
    requires BuildState(open, closes, existing, clients, created, candidate.serial) && nameKey in existing
    ensures BuildState(open, closes + multiset{candidate}, existing,
                       clients[nameKey := existing[nameKey]][idKey := existing[nameKey]], created, candidate.serial + 1)
  {
    hide NoDuplicates, Members;
    InsertValues(clients, nameKey, idKey, existing[nameKey]);
  }

  lemma CreateKeepsState(open: set<Client>, closes: multiset<Client>, existing: Clients, clients: Clients,
                         created: seq<Client>,
                         candidate: Client, nameKey: string, idKey: string)
    requires BuildState(open, closes, existing, clients, created, candidate.serial)
    ensures BuildState(open + {candidate}, closes, existing, clients[nameKey := candidate][idKey := candidate],
                       created + [candidate], candidate.serial + 1)
  {
    InsertValues(clients, nameKey, idKey, candidate);
    MembersSnoc(created, candidate);
    NoDuplicatesSnoc(created, candidate);
    hide NoDuplicates, Members;
  }

  lemma RejectIsSound(open: set<Client>, closes: multiset<Client>, existing: Clients, clients: Clients,
                      created: seq<Client>,
                      candidate: Client)
    requires BuildState(open, closes, existing, clients, created, candidate.serial)
    ensures BuildEffect(Failed([Opened(candidate), Closed(candidate)] + CloseAll(created), candidate.serial + 1),
                        open, closes, existing, created, candidate.serial)
  {
    hide NoDuplicates, Members, BuildEffect, CloseAll;
    var b := Failed(CloseAll(created), candidate.serial + 1);
    CloseEffect(open, closes + multiset{candidate}, existing, created, candidate.serial + 1);
    DiscardEffect(b, candidate, open, closes, existing, created, candidate.serial);
  }

  lemma {:induction false} BuildIsSound(family: Family, attempts: seq<Option<Config>>, existing: Clients, upper: Upper,
                                        clients: Clients, created: seq<Client>, next: nat,
                                        open: set<Client>, closes: multiset<Client>)
    requires BuildState(open, closes, existing, clients, created, next)
    ensures BuildEffect(BuildFrom(family, attempts, existing, upper, clients, created, next), open, closes, existing,
            created, next)
    decreases |attempts|
  {
    if attempts == [] {
      NothingEffect(open, closes, existing, clients, created, next);
    } else if attempts[0].None? {
      CloseEffect(open, closes, existing, created, next);
    } else {
      var config := attempts[0].value;
      var candidate := Client(family, next, config);
      var nameKey, idKey := NameKey(config, upper), IdKey(config);
      assert Older(open, closes, next);
      hide BuildEffect, BuildState, CloseAll, NameKey, IdKey, Trimmed;
      if nameKey in clients || idKey in clients {
        RejectIsSound(open, closes, existing, clients, created, candidate);
      } else if nameKey in existing && existing[nameKey].config == config {
        var clients' := clients[nameKey := existing[nameKey]][idKey := existing[nameKey]];
        ReuseKeepsState(open, closes, existing, clients, created, candidate, nameKey, idKey);
        BuildIsSound(family, attempts[1..], existing, upper, clients', created, next + 1,
                     open, closes + multiset{candidate});
        var b := BuildFrom(family, attempts[1..], existing, upper, clients', created, next + 1);
        DiscardEffect(b, candidate, open, closes, existing, created, next);
      } else {
        var clients' := clients[nameKey := candidate][idKey := candidate];
        CreateKeepsState(open, closes, existing, clients, created, candidate, nameKey, idKey);
        BuildIsSound(family, attempts[1..], existing, upper, clients', created + [candidate], next + 1,
                     open + {candidate}, closes);
        var b := BuildFrom(family, attempts[1..], existing, upper, clients', created + [candidate], next + 1);
        CreateEffect(b, candidate, open, closes, existing, created, next);
      }
    }
  }

  predicate OfFamily(clients: Clients, family: Family) {
    forall k :: k in clients ==> clients[k].family == family
  }

  lemma InsertKeepsBothKeys(clients: Clients, client: Client, upper: Upper)
    requires BothKeys(clients, upper)
    requires NameKey(client.config, upper) !in clients && IdKey(client.config) !in clients
    ensures BothKeys(clients[NameKey(client.config, upper) := client][IdKey(client.config) := client], upper)
  {
    hide NameKey, IdKey;
  }

  lemma InsertKeepsValues(clients: Clients, k1: string, k2: string, c: Client)
    requires k1 !in clients && k2 !in clients
    ensures clients.Values + {c} == clients[k1 := c][k2 := c].Values
  {
    var more := clients[k1 := c][k2 := c];
    assert more[k2] == c;
    forall v | v in clients.Values ensures v in more.Values {
      var k :| k in clients && clients[k] == v;
      assert more[k] == v;
    }
  }

  /** No later configuration takes a key away from an earlier client, and no new client is left out. */
  lemma {:induction false} BuildInstalls(family: Family, attempts: seq<Option<Config>>, existing: Clients, upper: Upper,
                                         clients: Clients, created: seq<Client>, next: nat)
    requires BothKeys(clients, upper) && Members(created) <= clients.Values
    requires OfFamily(existing, family) && OfFamily(clients, family)
    ensures var b := BuildFrom(family, attempts, existing, upper, clients, created, next);
            b.Built? ==>
              BothKeys(b.clients, upper) && Members(b.created) <= b.clients.Values && OfFamily(b.clients, family)
    decreases |attempts|
  {
    hide BothKeys, Members;
    if attempts != [] && attempts[0].Some? {
      var config := attempts[0].value;
      var candidate := Client(family, next, config);
      var nameKey, idKey := NameKey(config, upper), IdKey(config);
      if nameKey !in clients && idKey !in clients {
        var reuse := nameKey in existing && existing[nameKey].config == config;
        var client := if reuse then existing[nameKey] else candidate;
        InsertKeepsBothKeys(clients, client, upper);
        InsertKeepsValues(clients, nameKey, idKey, client);
        MembersSnoc(created, candidate);
        BuildInstalls(family, attempts[1..], existing, upper, clients[nameKey := client][idKey := client],
                      if reuse then created else created + [candidate], next + 1);
      }
    }
  }

  // ---- a whole reconfiguration ----------------------------------------------------------------------------

  /** One call of `Init`: whether its JSON parses, what each `NewClient` gives, whether bridgers is accepted. */
  datatype Request = Request(parses: bool, univ2: seq<Option<Config>>, univ3: seq<Option<Config>>, bridgersOk: bool)

  /** What `Init` does before it touches the installed maps, and what it would install. */
  datatype Plan =
    | Abandon(events: seq<Event>, next: nat)
    | Swap(events: seq<Event>, next: nat, univ2: Clients, univ3: Clients)

  function PlanFor(req: Request, univ2: Clients, univ3: Clients, upper: Upper, next: nat): Plan {
    if !req.parses then Abandon([], next)
    else
      var b2 := BuildClients(Univ2, req.univ2, univ2, upper, next);
      if b2.Failed? then Abandon(b2.events, b2.next)
      else
        var b3 := BuildClients(Univ3, req.univ3, univ3, upper, b2.next);
        if b3.Failed? then Abandon(b2.events + b3.events + CloseAll(b2.created), b3.next)
        else if !req.bridgersOk then
          Abandon(b2.events + b3.events + CloseAll(b2.created) + CloseAll(b3.created), b3.next)
        else Swap(b2.events + b3.events, b3.next, b2.clients, b3.clients)
  }

  /** An order in which the retired clients may be closed: each of them once. */
  predicate RetireOrder(order: seq<Client>, previous: Clients, current: Clients) {
    NoDuplicates(order) && Members(order) == previous.Values - current.Values
  }

  /** The installed maps are in order: both keys, the right family. */
  predicate Installed(univ2: Clients, univ3: Clients, upper: Upper) {
    BothKeys(univ2, upper) && BothKeys(univ3, upper) && OfFamily(univ2, Univ2) && OfFamily(univ3, Univ3)
  }

  lemma ClosesOnlyConcat(a: seq<Event>, b: seq<Event>, x: set<Client>, y: set<Client>, next: nat, later: nat)
    requires ClosesOnly(a, x, next) && ClosesOnly(b, y, later) && next <= later
    ensures ClosesOnly(a + b, x + y, next)
  {
  }

  /**
   * What a plan does to the connections: legally, closing nothing that was there before; an abandoned
   * one leaves the open connections as they were, a swap leaves them and the new ones open.
   */
  ghost predicate PlanEffect(plan: Plan, open: set<Client>, closes: multiset<Client>, univ2: Clients, univ3: Clients,
                             upper: Upper, next: nat) {
    && plan.next >= next
    && Legal(open, closes, plan.events)
    && ClosesOnly(plan.events, {}, next)
    && Older(OpenAfter(open, plan.events), ClosesAfter(closes, plan.events), plan.next)
    && match plan
       case Abandon(_, _) => OpenAfter(open, plan.events) == open
       case Swap(_, _, new2, new3) =>
         && Installed(new2, new3, upper)
         && OpenAfter(open, plan.events) == open + new2.Values + new3.Values
  }

  lemma NoMembers()
    ensures Members([]) == {} && NoDuplicates<Client>([])
  {
  }

  /** Both builds run one after the other. */
  lemma BothBuilds(b2: Build, b3: Build, open: set<Client>, closes: multiset<Client>, univ2: Clients, univ3: Clients,
                   next: nat)
    requires Older(open, closes, next) && b2.Built? && b3.Built?
    requires BuildEffect(b2, open, closes, univ2, [], next)
    requires BuildEffect(b3, OpenAfter(open, b2.events), ClosesAfter(closes, b2.events), univ3, [], b2.next)
    ensures var both := b2.events + b3.events;
            && Legal(open, closes, both) && ClosesOnly(both, {}, next)
            && Older(OpenAfter(open, both), ClosesAfter(closes, both), b3.next)
            && OpenAfter(open, both) == open + Members(b2.created) + Members(b3.created)
            && NoDuplicates(b2.created) && NoDuplicates(b3.created) && b3.next >= next
            && (forall c :: c in Members(b2.created) + Members(b3.created) ==> c.serial >= next)
            && Members(b2.created) !! Members(b3.created)
  {
    EventsConcat(open, closes, b2.events, b3.events);
    NoMembers();
    ClosesOnlyConcat(b2.events, b3.events, {}, {}, next, b2.next);
    hide Legal, OpenAfter, ClosesAfter, NoDuplicates, Members;
  }

  /** Closing what was created after a failure takes the connections back to where they were. */
  lemma CloseCreated(earlier: seq<Event>, created: seq<Client>, before: set<Client>, open: set<Client>,
                     closes: multiset<Client>, next: nat, end: nat)
    requires Legal(open, closes, earlier) && ClosesOnly(earlier, {}, next) && next <= end
    requires Older(OpenAfter(open, earlier), ClosesAfter(closes, earlier), end)
    requires NoDuplicates(created) && forall c :: c in Members(created) ==> c.serial >= next
    requires OpenAfter(open, earlier) == before + Members(created) && before !! Members(created)
    ensures var all := earlier + CloseAll(created);
            && Legal(open, closes, all) && ClosesOnly(all, {}, next) && OpenAfter(open, all) == before
            && Older(before, ClosesAfter(closes, all), end)
  {
    EventsConcat(open, closes, earlier, CloseAll(created));
    ClosingAll(OpenAfter(open, earlier), ClosesAfter(closes, earlier), created);
    assert forall i :: 0 <= i < |created| ==> created[i] in Members(created);
    hide Legal, OpenAfter, ClosesAfter, NoDuplicates, Members;
  }

  lemma SecondFails(b2: Build, b3: Build, open: set<Client>, closes: multiset<Client>, univ2: Clients, univ3: Clients,
                    upper: Upper, next: nat)
    requires Older(open, closes, next) && b2.Built? && b3.Failed?
    requires BuildEffect(b2, open, closes, univ2, [], next)
    requires BuildEffect(b3, OpenAfter(open, b2.events), ClosesAfter(closes, b2.events), univ3, [], b2.next)
    ensures PlanEffect(Abandon(b2.events + b3.events + CloseAll(b2.created), b3.next), open, closes, univ2, univ3,
            upper, next)
  {
    EventsConcat(open, closes, b2.events, b3.events);
    NoMembers();
    ClosesOnlyConcat(b2.events, b3.events, {}, {}, next, b2.next);
    hide Legal, OpenAfter, ClosesAfter, NoDuplicates, Members;
    CloseCreated(b2.events + b3.events, b2.created, open, open, closes, next, b3.next);
  }

  lemma BridgersFails(b2: Build, b3: Build, open: set<Client>, closes: multiset<Client>, univ2: Clients, univ3: Clients,
                      upper: Upper, next: nat)
    requires Older(open, closes, next) && b2.Built? && b3.Built?
    requires BuildEffect(b2, open, closes, univ2, [], next)
    requires BuildEffect(b3, OpenAfter(open, b2.events), ClosesAfter(closes, b2.events), univ3, [], b2.next)
    ensures PlanEffect(Abandon(b2.events + b3.events + CloseAll(b2.created) + CloseAll(b3.created), b3.next),
                       open, closes, univ2, univ3, upper, next)
  {
    BothBuilds(b2, b3, open, closes, univ2, univ3, next);
    hide Legal, OpenAfter, ClosesAfter, NoDuplicates, Members, BuildEffect;
    var both := b2.events + b3.events;
    assert open + Members(b3.created) + Members(b2.created) == OpenAfter(open, both);
    CloseCreated(both, b2.created, open + Members(b3.created), open, closes, next, b3.next);
    CloseCreated(both + CloseAll(b2.created), b3.created, open, open, closes, next, b3.next);
  }

  lemma SwapSucceeds(b2: Build, b3: Build, open: set<Client>, closes: multiset<Client>, univ2: Clients, univ3: Clients,
                     upper: Upper, next: nat)
    requires Older(open, closes, next) && b2.Built? && b3.Built? && univ2.Values + univ3.Values <= open
    requires BuildEffect(b2, open, closes, univ2, [], next)
    requires BuildEffect(b3, OpenAfter(open, b2.events), ClosesAfter(closes, b2.events), univ3, [], b2.next)
    requires Installed(b2.clients, b3.clients, upper)
    requires Members(b2.created) <= b2.clients.Values && Members(b3.created) <= b3.clients.Values
    ensures PlanEffect(Swap(b2.events + b3.events, b3.next, b2.clients, b3.clients), open, closes, univ2, univ3, upper,
            next)
  {
    BothBuilds(b2, b3, open, closes, univ2, univ3, next);
    hide Legal, OpenAfter, ClosesAfter, NoDuplicates, Members, Installed;
    assert open + Members(b2.created) + Members(b3.created) == open + b2.clients.Values + b3.clients.Values;
  }

  /** Every outcome of `Init`, from any connections that include the installed ones. */
  lemma PlanIsSound(req: Request, univ2: Clients, univ3: Clients, upper: Upper, open: set<Client>,
                    closes: multiset<Client>, next: nat)
    requires Older(open, closes, next) && Installed(univ2, univ3, upper) && univ2.Values + univ3.Values <= open
    ensures PlanEffect(PlanFor(req, univ2, univ3, upper, next), open, closes, univ2, univ3, upper, next)
  {
    hide NoDuplicates, Members, BothKeys, Legal, OpenAfter, ClosesAfter, BuildFrom;
    if !req.parses {
      NothingHappens(open, closes);
      assert PlanFor(req, univ2, univ3, upper, next) == Abandon([], next);
    } else {
      NoMembers();
      NoKeys(upper);
      var b2 := BuildClients(Univ2, req.univ2, univ2, upper, next);
      BuildIsSound(Univ2, req.univ2, univ2, upper, map[], [], next, open, closes);
      if b2.Built? {
        var b3 := BuildClients(Univ3, req.univ3, univ3, upper, b2.next);
        BuildIsSound(Univ3, req.univ3, univ3, upper, map[], [], b2.next, OpenAfter(open, b2.events),
          ClosesAfter(closes, b2.events));
        if b3.Failed? {
          SecondFails(b2, b3, open, closes, univ2, univ3, upper, next);
        } else if !req.bridgersOk {
          BridgersFails(b2, b3, open, closes, univ2, univ3, upper, next);
        } else {
          BuildInstalls(Univ2, req.univ2, univ2, upper, map[], [], next);
          BuildInstalls(Univ3, req.univ3, univ3, upper, map[], [], b2.next);
          SwapSucceeds(b2, b3, open, closes, univ2, univ3, upper, next);
        }
      }
    }
  }

  lemma NothingHappens(open: set<Client>, closes: multiset<Client>)
    ensures Legal(open, closes, []) && OpenAfter(open, []) == open && ClosesAfter(closes, []) == closes
  {
  }

  lemma NoKeys(upper: Upper)
    ensures BothKeys(map[], upper)
  {
  }

  /** After a swap, closing the retired clients leaves exactly the installed ones open. */
  lemma RetireIsSound(open: set<Client>, closes: multiset<Client>, old2: Clients, old3: Clients, new2: Clients,
                      new3: Clients,
                      order2: seq<Client>, order3: seq<Client>)
    requires open == old2.Values + old3.Values + new2.Values + new3.Values
    requires OfFamily(old2, Univ2) && OfFamily(new2, Univ2) && OfFamily(old3, Univ3) && OfFamily(new3, Univ3)
    requires RetireOrder(order2, old2, new2) && RetireOrder(order3, old3, new3)
    ensures var events := CloseAll(order2) + CloseAll(order3);
            && Legal(open, closes, events)
            && OpenAfter(open, events) == new2.Values + new3.Values
            && (forall i :: 0 <= i < |events| ==> events[i].Closed? && events[i].client !in new2.Values + new3.Values)
  {
    hide Legal, OpenAfter, ClosesAfter, NoDuplicates, OfFamily;
    ValuesOfFamily(old2, Univ2);
    ValuesOfFamily(new2, Univ2);
    ValuesOfFamily(old3, Univ3);
    ValuesOfFamily(new3, Univ3);
    SetsOfFamilies(old2.Values, old3.Values, new2.Values, new3.Values);
    ClosingAll(open, closes, order2);
    ClosingAll(open - Members(order2), ClosesAfter(closes, CloseAll(order2)), order3);
    EventsConcat(open, closes, CloseAll(order2), CloseAll(order3));
    assert forall i :: 0 <= i < |order2| ==> order2[i] in Members(order2);
    assert forall i :: 0 <= i < |order3| ==> order3[i] in Members(order3);
  }

  lemma SetsOfFamilies(old2: set<Client>, old3: set<Client>, new2: set<Client>, new3: set<Client>)
    requires forall c :: c in old2 || c in new2 ==> c.family == Univ2
    requires forall c :: c in old3 || c in new3 ==> c.family == Univ3
    ensures old2 - new2 <= old2 + old3 + new2 + new3
    ensures old3 - new3 <= old2 + old3 + new2 + new3 - (old2 - new2)
    ensures old2 + old3 + new2 + new3 - (old2 - new2) - (old3 - new3) == new2 + new3
    ensures (old2 - new2) + (old3 - new3) !! new2 + new3
  {
  }

  lemma ValuesOfFamily(clients: Clients, family: Family)
    requires OfFamily(clients, family)
    ensures forall c :: c in clients.Values ==> c.family == family
  {
  }
}
