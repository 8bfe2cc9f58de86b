/** The package variables of mobile/trade and the methods that change them (trade.go, univ2.go, univ3.go). */
module TradePackage {
  import opened Common
  import opened Decimals
  import opened Sentences
  import opened Sequences
  import opened TradeClients
  import opened TradeInstalls

  /** The outside world of connections: hands out clients and records what is opened and closed. */
  class Network {
    var next: nat
    var log: seq<Event>

    /** `univ2.NewClient` or `univ3.NewClient`; nothing stays open when it fails. */
    method NewClient(family: Family, attempt: Option<Config>) returns (client: Option<Client>)
      modifies this
      ensures attempt.None? ==> client == None && next == old(next) && log == old(log)
      ensures attempt.Some? ==>
                && client == Some(Client(family, old(next), attempt.value))
                && next == old(next) + 1 && log == old(log) + [Opened(client.value)]
    {
      if attempt.None? { return None; }
      client := Some(Client(family, next, attempt.value));
      next := next + 1;
      log := log + [Opened(client.value)];
    }

    method Close(client: Client)
      modifies this`log
      ensures log == old(log) + [Closed(client)]
    {
      log := log + [Closed(client)];
    }

    /** `closeUniv2ClientList` and `closeUniv3ClientList`. */
    method CloseClientList(clients: seq<Client>)
      modifies this`log
      ensures log == old(log) + CloseAll(clients)
    {
      for i := 0 to |clients|
        invariant log == old(log) + CloseAll(clients)[..i]
      {
        Close(clients[i]);
      }
      assert CloseAll(clients)[..|clients|] == CloseAll(clients);
    }

    /** One round of the loop of `newUniv2Clients` and `newUniv3Clients`; a failing round closes what was created. */
    method AddClient(family: Family, attempt: Option<Config>, existing: Clients, upper: Upper,
                     clients0: Clients, created0: seq<Client>)
      returns (ok: bool, clients: Clients, created: seq<Client>)
      modifies this
      ensures next == NextSerial(attempt, old(next))
      ensures var round := BuildRound(family, attempt, existing, upper, clients0, created0, old(next));
              && log == old(log) + round.events && ok == round.Next?
              && (ok ==> clients == round.clients && created == round.created)
      ensures ok <==> attempt.Some? && NameKey(attempt.value, upper) !in clients0 && IdKey(attempt.value) !in clients0
      ensures ok ==> ServedIn(attempt.value, clients, existing, family, upper, old(next))
    {
      hide NameKey, IdKey, Trimmed, CloseAll;
      ghost var next0 := next;
      clients, created := clients0, created0;
      var candidate := NewClient(family, attempt);
      if candidate.None? {
        CloseClientList(created);
        return false, clients, created;
      }
      var normalized := candidate.value.config;
      var nameKey := NameKey(normalized, upper);
      var idKey := IdKey(normalized);
      if nameKey in clients {
        Discard(candidate.value, created);
        return false, clients, created;
      }
      if idKey in clients {
        Discard(candidate.value, created);
        return false, clients, created;
      }
      var client := candidate.value;
      if nameKey in existing && existing[nameKey].config == normalized {
        Close(candidate.value);
        client := existing[nameKey];
      } else {
        created := created + [client];
      }
      ServedWhenAdded(normalized, clients, existing, family, upper, next0, client);
      clients := clients[nameKey := client];
      clients := clients[idKey := client];
      return true, clients, created;
    }

    /** What both key conflicts do: close the candidate, then everything created so far. */
    method Discard(candidate: Client, created: seq<Client>)
      modifies this`log
      ensures log == old(log) + ([Closed(candidate)] + CloseAll(created))
    {
      hide CloseAll;
      Close(candidate);
      CloseClientList(created);
    }

    /** `newUniv2Clients` and `newUniv3Clients`. */
    method NewClients(family: Family, attempts: seq<Option<Config>>, existing: Clients, upper: Upper)
      returns (ok: bool, clients: Clients, created: seq<Client>)
      modifies this
      ensures var b := BuildClients(family, attempts, existing, upper, old(next));
              && log == old(log) + b.events && next == b.next && ok == b.Built?
              && (ok ==> clients == b.clients && created == b.created)
      ensures ok <==> Buildable(attempts, upper)
      ensures ok ==> Configured(ConfigsOf(attempts), clients, existing, family, upper, old(next))
    {
      hide Buildable, Configured, ConfigsOf, BuildClients, BuildRound, CloseAll, Trimmed, NextSerial, Remaining;
      ghost var b := BuildClients(family, attempts, existing, upper, next);
      BuildInstallsExactly(family, attempts, existing, upper, next);
      RemainingStart(family, attempts, existing, upper, next);
      ok, clients, created := true, map[], [];
      ghost var start, emitted: seq<Event> := log, [];
      var i := 0;
      while i < |attempts|
        invariant 0 <= i <= |attempts| && log == start + emitted && ok
        invariant Remaining(b, family, attempts, i, existing, upper, clients, created, next, emitted)
      {
        RemainingStep(b, family, attempts, i, existing, upper, clients, created, next, emitted);
        ghost var round := BuildRound(family, attempts[i], existing, upper, clients, created, next);
        Associate(start, emitted, round.events);
        ok, clients, created := AddClient(family, attempts[i], existing, upper, clients, created);
        if !ok {
          return;
        }
        emitted := emitted + round.events;
        i := i + 1;
      }
      RemainingEnd(b, family, attempts, existing, upper, clients, created, next, emitted);
    }

    /** `closeRetiredUniv2Clients` and `closeRetiredUniv3Clients`; Go iterates the maps in any order. */
    method CloseRetired(previous: Clients, current: Clients) returns (order: seq<Client>)
      modifies this`log
      ensures RetireOrder(order, previous, current)
      ensures log == old(log) + CloseAll(order)
    {
      var kept: set<Client> := {};
      var keys := current.Keys;
      while keys != {}
        invariant keys <= current.Keys && log == old(log)
        invariant forall c :: c in kept <==> exists k :: k in current && k !in keys && current[k] == c
        decreases keys
      {
        var k :| k in keys;
        kept := kept + {current[k]};
        keys := keys - {k};
      }
      assert kept == current.Values;
      var retired: set<Client> := {};
      order := [];
      keys := previous.Keys;
      assert CloseAll(order) == [];
      while keys != {}
        invariant keys <= previous.Keys
        invariant retired == Members(order) && NoDuplicates(order)
        invariant forall c ::
                    c in retired <==> c !in kept && exists k :: k in previous && k !in keys && previous[k] == c
        invariant log == old(log) + CloseAll(order)
        decreases keys
      {
        var k :| k in keys;
        keys := keys - {k};
        var client := previous[k];
        if client !in kept && client !in retired {
          MembersSnoc(order, client);
          retired := retired + {client};
          assert CloseAll(order + [client]) == CloseAll(order) + [Closed(client)];
          order := order + [client];
          Close(client);
        }
      }
    }
  }

  /** The whole build `b` is what the first `i` rounds emitted and what the other attempts add from here. */
  ghost predicate Remaining(b: Build, family: Family, attempts: seq<Option<Config>>, i: nat, existing: Clients,
                            upper: Upper,
                            clients: Clients, created: seq<Client>, next: nat, emitted: seq<Event>)
    requires i <= |attempts|
  {
    b == BuildFrom(family, attempts[i..], existing, upper, clients, created, next).After(emitted)
  }

  lemma RemainingStart(family: Family, attempts: seq<Option<Config>>, existing: Clients, upper: Upper, next: nat)
    ensures Remaining(BuildClients(family, attempts, existing, upper, next), family, attempts, 0, existing, upper,
            map[], [], next, [])
  {
    assert attempts[0..] == attempts;
    var b := BuildClients(family, attempts, existing, upper, next);
    assert b.After([]) == b;
  }

  lemma RemainingEnd(b: Build, family: Family, attempts: seq<Option<Config>>, existing: Clients, upper: Upper,
                     clients: Clients, created: seq<Client>, next: nat, emitted: seq<Event>)
    requires Remaining(b, family, attempts, |attempts|, existing, upper, clients, created, next, emitted)
    ensures b == Built(clients, created, emitted, next)
  {
  }

  /** One round of the build, with the events of the earlier rounds in front. */
  lemma RemainingStep(b: Build, family: Family, attempts: seq<Option<Config>>, i: nat, existing: Clients, upper: Upper,
                      clients: Clients, created: seq<Client>, next: nat, emitted: seq<Event>)
    requires i < |attempts| && Remaining(b, family, attempts, i, existing, upper, clients, created, next, emitted)
    ensures
      var later := NextSerial(attempts[i], next);
      match BuildRound(family, attempts[i], existing, upper, clients, created, next)
      case Stop(events) => b == Failed(emitted + events, later)
      case Next(clients', created', events) =>
        Remaining(b, family, attempts, i + 1, existing, upper, clients', created', later, emitted + events)
  {
    hide BuildRound;
    assert attempts[i..][0] == attempts[i] && attempts[i..][1..] == attempts[i + 1..];
    match BuildRound(family, attempts[i], existing, upper, clients, created, next)
    case Stop(_) =>
    case Next(clients', created', events) =>
      var rest := BuildFrom(family, attempts[i + 1..], existing, upper, clients', created',
          NextSerial(attempts[i], next));
      assert emitted + (events + rest.events) == emitted + events + rest.events;
  }

  /** The outcomes of `Init` by the two builds. */
  lemma PlanOutcome(req: Request, univ2: Clients, univ3: Clients, upper: Upper, next: nat, b2: Build, b3: Build)
    requires b2 == BuildClients(Univ2, req.univ2, univ2, upper, next)
    requires b3 == BuildClients(Univ3, req.univ3, univ3, upper, b2.next)
    ensures PlanFor(req, univ2, univ3, upper, next) ==
            if !req.parses then Abandon([], next)
            else if b2.Failed? then Abandon(b2.events, b2.next)
            else if b3.Failed? then Abandon(b2.events + b3.events + CloseAll(b2.created), b3.next)
            else if !req.bridgersOk then
              Abandon(b2.events + b3.events + CloseAll(b2.created) + CloseAll(b3.created), b3.next)
            else Swap(b2.events + b3.events, b3.next, b2.clients, b3.clients)
  {
    hide BuildClients, CloseAll, Trimmed;
  }

  class Package {
    const net: Network
    var univ2Clients: Clients
    var univ3Clients: Clients

    constructor ()
      ensures fresh(net) && univ2Clients == map[] && univ3Clients == map[] && net.log == []
    {
      net := new Network;
      univ2Clients := map[];
      univ3Clients := map[];
      new;
      net.next := 0;
      net.log := [];
    }

    /**
     * `Init`, run by one goroutine. On failure the installed maps are untouched and the events are
     * those of the abandoned plan; on success the maps are replaced before anything is retired, and
     * they hold exactly the configurations of the request.
     */
    method Init(req: Request, upper: Upper) returns (ok: bool, order2: seq<Client>, order3: seq<Client>)
      modifies this, net
      ensures var plan := PlanFor(req, old(univ2Clients), old(univ3Clients), upper, old(net.next));
              && net.next == plan.next
              && ok == plan.Swap?
              && (plan.Abandon? ==>
                    && univ2Clients == old(univ2Clients) && univ3Clients == old(univ3Clients)
                    && net.log == old(net.log) + plan.events)
              && (plan.Swap? ==>
                    && univ2Clients == plan.univ2 && univ3Clients == plan.univ3
                    && RetireOrder(order2, old(univ2Clients), plan.univ2)
                    && RetireOrder(order3, old(univ3Clients), plan.univ3)
                    && net.log == old(net.log) + plan.events + CloseAll(order2) + CloseAll(order3))
      ensures ok <==> Acceptable(req, upper)
      ensures ok ==> Replaced(req, old(univ2Clients), old(univ3Clients), univ2Clients, univ3Clients, upper,
                              old(net.next))
    {
      ghost var b2 := BuildClients(Univ2, req.univ2, univ2Clients, upper, net.next);
      ghost var b3 := BuildClients(Univ3, req.univ3, univ3Clients, upper, b2.next);
      PlanOutcome(req, univ2Clients, univ3Clients, upper, net.next, b2, b3);
      PlanInstallsExactly(req, univ2Clients, univ3Clients, upper, net.next);
      hide PlanFor, Acceptable, Replaced, Buildable, Configured, ConfigsOf, BuildClients, RetireOrder, CloseAll,
        Trimmed;
      order2, order3 := [], [];
      if !req.parses {
        return false, [], [];
      }
      var currentUniv2 := univ2Clients;
      var currentUniv3 := univ3Clients;
      ghost var log0 := net.log;
      var ok2, univ2ByChain, createdUniv2 := net.NewClients(Univ2, req.univ2, currentUniv2, upper);
      if !ok2 {
        return false, [], [];
      }
      var ok3, univ3ByChain, createdUniv3 := net.NewClients(Univ3, req.univ3, currentUniv3, upper);
      Associate(log0, b2.events, b3.events);
      if !ok3 {
        net.CloseClientList(createdUniv2);
        Associate(log0, b2.events + b3.events, CloseAll(createdUniv2));
        return false, [], [];
      }
      if !req.bridgersOk {
        net.CloseClientList(createdUniv2);
        net.CloseClientList(createdUniv3);
        Associate(log0, b2.events + b3.events, CloseAll(createdUniv2));
        Associate(log0, b2.events + b3.events + CloseAll(createdUniv2), CloseAll(createdUniv3));
        return false, [], [];
      }
      var previousUniv2 := univ2Clients;
      var previousUniv3 := univ3Clients;
      univ2Clients := univ2ByChain;
      univ3Clients := univ3ByChain;
      order2 := net.CloseRetired(previousUniv2, univ2ByChain);
      order3 := net.CloseRetired(previousUniv3, univ3ByChain);
      return true, order2, order3;
    }

    /** `acquireUniv2Client` without its lock. */
    method AcquireUniv2(chain: string, upper: Upper) returns (client: Option<Client>)
      ensures client == Lookup(univ2Clients, chain, upper)
      ensures BothKeys(univ2Clients, upper) ==>
                forall c :: client == Some(c) <==> Answers(univ2Clients, c, chain, upper)
    {
      hide BothKeys, TrimSpace;
      client := None;
      var key := upper(TrimSpace(chain));
      if key in univ2Clients {
        client := Some(univ2Clients[key]);
      }
      if BothKeys(univ2Clients, upper) {
        LookupFindsByEitherKey(univ2Clients, chain, upper);
      }
    }

    /** `acquireUniv3Client` without its lock. */
    method AcquireUniv3(chain: string, upper: Upper) returns (client: Option<Client>)
      ensures client == Lookup(univ3Clients, chain, upper)
      ensures BothKeys(univ3Clients, upper) ==>
                forall c :: client == Some(c) <==> Answers(univ3Clients, c, chain, upper)
    {
      hide BothKeys, TrimSpace;
      client := None;
      var key := upper(TrimSpace(chain));
      if key in univ3Clients {
        client := Some(univ3Clients[key]);
      }
      if BothKeys(univ3Clients, upper) {
        LookupFindsByEitherKey(univ3Clients, chain, upper);
      }
    }
  }

  // ---- lookups --------------------------------------------------------------------------------------------

  function Lookup(clients: Clients, chain: string, upper: Upper): Option<Client> {
    var key := upper(TrimSpace(chain));
    if key in clients then Some(clients[key]) else None
  }

  /** `c` is installed and the text, trimmed and upper-cased, is the name key or the id key of its configuration. */
  predicate Answers(clients: Clients, c: Client, chain: string, upper: Upper) {
    c in clients.Values && upper(TrimSpace(chain)) in {NameKey(c.config, upper), IdKey(c.config)}
  }

  /** Exactly the installed client whose name or id is asked for is found. */
  lemma LookupFindsByEitherKey(clients: Clients, chain: string, upper: Upper)
    requires BothKeys(clients, upper)
    ensures forall c :: Lookup(clients, chain, upper) == Some(c) <==> Answers(clients, c, chain, upper)
  {
    var key := upper(TrimSpace(chain));
    hide TrimSpace;
    forall c ensures Lookup(clients, chain, upper) == Some(c) <==> Answers(clients, c, chain, upper) {
      if Answers(clients, c, chain, upper) {
        var k :| k in clients && clients[k] == c;
        assert NameKey(c.config, upper) in clients && IdKey(c.config) in clients;
      }
    }
  }

  /** An installed client answers to the name of its chain and to its decimal id. */
  lemma FoundUnderBothKeys(clients: Clients, k: string, upper: Upper)
    requires BothKeys(clients, upper) && KeepsDigits(upper) && k in clients
    ensures Lookup(clients, clients[k].config.chainName, upper) == Some(clients[k])
    ensures Lookup(clients, Format(clients[k].config.chainID), upper) == Some(clients[k])
  {
    var id := Format(clients[k].config.chainID);
    hide Format;
    assert !IsSpace(id[0]) && !IsSpace(id[|id| - 1]) by { assert IsDigit(id[0]) && IsDigit(id[|id| - 1]); }
  }

  /**
   * One call of `Init` from a state where exactly the installed clients are open: afterwards, failed
   * or not, exactly the installed clients are open, and every close was the first of its client.
   */
  lemma InitKeepsOpenInstalled(req: Request, univ2: Clients, univ3: Clients, upper: Upper,
                               open: set<Client>, closes: multiset<Client>, next: nat,
                               order2: seq<Client>, order3: seq<Client>)
    requires Older(open, closes, next) && Installed(univ2, univ3, upper) && open == univ2.Values + univ3.Values
    ensures var plan := PlanFor(req, univ2, univ3, upper, next);
            && (plan.Abandon? ==> Legal(open, closes, plan.events) && OpenAfter(open, plan.events) == open)
            && (plan.Swap? && RetireOrder(order2, univ2, plan.univ2) && RetireOrder(order3, univ3, plan.univ3) ==>
                  var events := plan.events + CloseAll(order2) + CloseAll(order3);
                  && Legal(open, closes, events)
                  && OpenAfter(open, events) == plan.univ2.Values + plan.univ3.Values
                  && Installed(plan.univ2, plan.univ3, upper))
  {
    hide PlanFor, NoDuplicates, Members, BothKeys;
    var plan := PlanFor(req, univ2, univ3, upper, next);
    PlanIsSound(req, univ2, univ3, upper, open, closes, next);
    if plan.Swap? && RetireOrder(order2, univ2, plan.univ2) && RetireOrder(order3, univ3, plan.univ3) {
      var open', closes' := OpenAfter(open, plan.events), ClosesAfter(closes, plan.events);
      RetireIsSound(open', closes', univ2, univ3, plan.univ2, plan.univ3, order2, order3);
      EventsConcat(open, closes, plan.events, CloseAll(order2) + CloseAll(order3));
      assert plan.events + (CloseAll(order2) + CloseAll(order3)) == plan.events + CloseAll(order2) + CloseAll(order3);
    }
  }
}
