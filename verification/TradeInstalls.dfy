/**
 * What `Init` installs, said on the configurations of the request alone: whether a build succeeds, and
 * which client then stands under which key.
 */
module TradeInstalls {
  import opened Common
  import opened Decimals
  import opened Sequences
  import opened TradeClients

  /** The two keys a configuration is installed under: upper-cased name and decimal id of its chain. */
  predicate IsKeyOf(key: string, config: Config, upper: Upper) {
    key == NameKey(config, upper) || key == IdKey(config)
  }

  /** Every configuration is accepted by its `NewClient`, and no two of them share a key. */
  ghost predicate Buildable(attempts: seq<Option<Config>>, upper: Upper) {
    AllSome(attempts) && Separate(ConfigsOf(attempts), upper)
  }

  ghost predicate AllSome(attempts: seq<Option<Config>>) {
    forall i :: 0 <= i < |attempts| ==> attempts[i].Some?
  }

  predicate Apart(a: Config, b: Config, upper: Upper) {
    !IsKeyOf(NameKey(a, upper), b, upper) && !IsKeyOf(IdKey(a), b, upper)
  }

  ghost predicate Separate(configs: seq<Config>, upper: Upper) {
    forall i, j :: 0 <= i < j < |configs| ==> Apart(configs[i], configs[j], upper)
  }

  /** The configurations that were accepted, in order. */
  function ConfigsOf(attempts: seq<Option<Config>>): (configs: seq<Config>)
    ensures (forall i :: 0 <= i < |attempts| ==> attempts[i].Some?) ==>
              |configs| == |attempts| && forall i :: 0 <= i < |attempts| ==> configs[i] == attempts[i].value
  {
    if attempts == [] then []
    else (if attempts[0].Some? then [attempts[0].value] else []) + ConfigsOf(attempts[1..])
  }

  /**
   * `c` has exactly this configuration. It is the client that stood under the name before, when that one
   * has the same configuration in all its fields, and otherwise a client made since number `since`.
   */
  predicate Serves(c: Client, config: Config, existing: Clients, family: Family, upper: Upper, since: nat) {
    var name := NameKey(config, upper);
    && c.config == config
    && if name in existing && existing[name].config == config
       then c == existing[name]
       else c.family == family && c.serial >= since
  }

  /** The configuration is served under both its keys. */
  predicate ServedIn(config: Config, clients: Clients, existing: Clients, family: Family, upper: Upper, since: nat) {
    var name, id := NameKey(config, upper), IdKey(config);
    name in clients && id in clients && clients[name] == clients[id] &&
    Serves(clients[name], config, existing, family, upper, since)
  }

  ghost predicate Requested(k: string, configs: seq<Config>, upper: Upper) {
    exists i :: 0 <= i < |configs| && IsKeyOf(k, configs[i], upper)
  }

  /** Each configuration is served, and nothing else is installed. */
  ghost predicate Configured(configs: seq<Config>, clients: Clients, existing: Clients, family: Family, upper: Upper,
                             since: nat) {
    && (forall i :: 0 <= i < |configs| ==> ServedIn(configs[i], clients, existing, family, upper, since))
    && (forall k :: k in clients ==> Requested(k, configs, upper))
  }

  lemma SeparateSnoc(done: seq<Config>, config: Config, upper: Upper)
    requires Separate(done, upper)
    ensures Separate(done + [config], upper) <==> forall i :: 0 <= i < |done| ==> Apart(done[i], config, upper)
  {
    hide Apart;
    var more := done + [config];
    if Separate(more, upper) {
      forall i | 0 <= i < |done| ensures Apart(done[i], config, upper) {
        assert Apart(more[i], more[|done|], upper);
      }
    }
  }

  lemma SeparatePrefix(a: seq<Config>, b: seq<Config>, upper: Upper)
    requires Separate(a + b, upper)
    ensures Separate(a, upper)
  {
    hide Apart;
    forall i, j | 0 <= i < j < |a| ensures Apart(a[i], a[j], upper) {
      assert Apart((a + b)[i], (a + b)[j], upper);
    }
  }

  lemma ServedUnder(k: string, config: Config, clients: Clients, existing: Clients, family: Family, upper: Upper,
                    since: nat)
    requires IsKeyOf(k, config, upper) && ServedIn(config, clients, existing, family, upper, since)
    ensures k in clients && clients[k].config == config
  {
    hide NameKey, IdKey, Trimmed;
  }

  lemma ApartKeys(a: Config, b: Config, upper: Upper, k: string)
    ensures Apart(a, b, upper) && IsKeyOf(k, a, upper) ==> !IsKeyOf(k, b, upper)
    ensures !Apart(a, b, upper) ==>
              IsKeyOf(NameKey(b, upper), a, upper) || IsKeyOf(IdKey(b), a, upper)
  {
    hide NameKey, IdKey, Trimmed;
  }

  /** The keys are free exactly when the configuration can be added. */
  lemma FreeKeys(done: seq<Config>, config: Config, clients: Clients, existing: Clients, family: Family, upper: Upper,
                 since: nat)
    requires Configured(done, clients, existing, family, upper, since) && Separate(done, upper)
    ensures Separate(done + [config], upper) <==> NameKey(config, upper) !in clients && IdKey(config) !in clients
  {
    SeparateSnoc(done, config, upper);
    var name, id := NameKey(config, upper), IdKey(config);
    assert IsKeyOf(name, config, upper) && IsKeyOf(id, config, upper);
    hide NameKey, IdKey, Trimmed, Serves, Separate, ServedIn, IsKeyOf, Apart;
    if name !in clients && id !in clients {
      forall i | 0 <= i < |done| ensures Apart(done[i], config, upper) {
        ApartKeys(done[i], config, upper, name);
        if !Apart(done[i], config, upper) {
          var k := if IsKeyOf(name, done[i], upper) then name else id;
          ServedUnder(k, done[i], clients, existing, family, upper, since);
        }
      }
    } else {
      var k := if name in clients then name else id;
      assert Requested(k, done, upper);
      var i :| 0 <= i < |done| && IsKeyOf(k, done[i], upper);
      ApartKeys(done[i], config, upper, k);
    }
  }

  /** Adding a client under two free keys takes nothing from the others. */
  lemma StillServed(config: Config, clients: Clients, existing: Clients, family: Family, upper: Upper, since: nat,
                    name: string, id: string, client: Client)
    requires ServedIn(config, clients, existing, family, upper, since) && name !in clients && id !in clients
    ensures ServedIn(config, clients[name := client][id := client], existing, family, upper, since)
  {
    hide Serves, NameKey, IdKey, Trimmed;
  }

  lemma RequestedSnoc(k: string, done: seq<Config>, config: Config, upper: Upper)
    ensures Requested(k, done + [config], upper) <==> Requested(k, done, upper) || IsKeyOf(k, config, upper)
  {
    hide IsKeyOf;
    var more := done + [config];
    if Requested(k, done, upper) {
      var i :| 0 <= i < |done| && IsKeyOf(k, done[i], upper);
      assert IsKeyOf(k, more[i], upper);
    } else if IsKeyOf(k, config, upper) {
      assert IsKeyOf(k, more[|done|], upper);
    }
  }

  lemma KeysSnoc(done: seq<Config>, config: Config, clients: Clients, upper: Upper, name: string, id: string,
                 client: Client)
    requires forall k :: k in clients ==> Requested(k, done, upper)
    requires IsKeyOf(name, config, upper) && IsKeyOf(id, config, upper)
    ensures forall k :: k in clients[name := client][id := client] ==> Requested(k, done + [config], upper)
  {
    hide IsKeyOf, Requested;
    forall k | k in clients[name := client][id := client] ensures Requested(k, done + [config], upper) {
      RequestedSnoc(k, done, config, upper);
    }
  }

  lemma ServedSnoc(done: seq<Config>, config: Config, clients: Clients, existing: Clients, family: Family,
                   upper: Upper, since: nat, name: string, id: string, client: Client)
    requires forall i :: 0 <= i < |done| ==> ServedIn(done[i], clients, existing, family, upper, since)
    requires name !in clients && id !in clients
    requires ServedIn(config, clients[name := client][id := client], existing, family, upper, since)
    ensures forall i :: 0 <= i < |done + [config]| ==>
              ServedIn((done + [config])[i], clients[name := client][id := client], existing, family, upper, since)
  {
    hide ServedIn;
    forall i | 0 <= i < |done + [config]|
      ensures ServedIn((done + [config])[i], clients[name := client][id := client], existing, family, upper, since)
    {
      if i < |done| {
        StillServed(done[i], clients, existing, family, upper, since, name, id, client);
      }
    }
  }

  lemma ServedWhenAdded(config: Config, clients: Clients, existing: Clients, family: Family, upper: Upper, since: nat,
                        client: Client)
    requires Serves(client, config, existing, family, upper, since)
    ensures ServedIn(config, clients[NameKey(config, upper) := client][IdKey(config) := client], existing, family,
                     upper, since)
  {
    hide Serves, NameKey, IdKey, Trimmed;
  }

  lemma AddingConfigures(done: seq<Config>, config: Config, client: Client, clients: Clients, existing: Clients,
                         family: Family, upper: Upper, since: nat)
    requires Configured(done, clients, existing, family, upper, since)
    requires NameKey(config, upper) !in clients && IdKey(config) !in clients
    requires Serves(client, config, existing, family, upper, since)
    ensures Configured(done + [config], clients[NameKey(config, upper) := client][IdKey(config) := client],
                       existing, family, upper, since)
  {
    var name, id := NameKey(config, upper), IdKey(config);
    ServedWhenAdded(config, clients, existing, family, upper, since, client);
    assert IsKeyOf(name, config, upper) && IsKeyOf(id, config, upper);
    hide Serves, ServedIn, NameKey, IdKey, Trimmed, IsKeyOf, Requested;
    KeysSnoc(done, config, clients, upper, name, id, client);
    ServedSnoc(done, config, clients, existing, family, upper, since, name, id, client);
  }

  lemma ConfigsCons(attempts: seq<Option<Config>>)
    requires attempts != [] && attempts[0].Some?
    ensures ConfigsOf(attempts) == [attempts[0].value] + ConfigsOf(attempts[1..])
    ensures AllSome(attempts) <==> AllSome(attempts[1..])
  {
    assert forall i :: 1 <= i < |attempts| ==> attempts[1..][i - 1] == attempts[i];
  }

  /** What one round does with two free keys. */
  lemma RoundServes(family: Family, config: Config, existing: Clients, upper: Upper, clients: Clients,
                    created: seq<Client>, next: nat, since: nat)
    requires NameKey(config, upper) !in clients && IdKey(config) !in clients && since <= next
    ensures var round := BuildRound(family, Some(config), existing, upper, clients, created, next);
            && round.Next?
            && var c := round.clients[NameKey(config, upper)];
            && Serves(c, config, existing, family, upper, since)
            && round.clients == clients[NameKey(config, upper) := c][IdKey(config) := c]
  {
    hide NameKey, IdKey, Trimmed, CloseAll;
  }

  lemma RoundStops(family: Family, config: Config, existing: Clients, upper: Upper, clients: Clients,
                   created: seq<Client>, next: nat)
    requires NameKey(config, upper) in clients || IdKey(config) in clients
    ensures BuildRound(family, Some(config), existing, upper, clients, created, next).Stop?
  {
    hide NameKey, IdKey, Trimmed, CloseAll;
  }

  /** One round of the loop: it goes on exactly when both keys are free, and then serves its configuration. */
  lemma RoundConfigures(family: Family, config: Config, existing: Clients, upper: Upper, done: seq<Config>,
                        clients: Clients, created: seq<Client>, next: nat, since: nat)
    requires Configured(done, clients, existing, family, upper, since) && Separate(done, upper) && since <= next
    ensures var round := BuildRound(family, Some(config), existing, upper, clients, created, next);
            && (round.Next? <==> Separate(done + [config], upper))
            && (round.Next? ==> Configured(done + [config], round.clients, existing, family, upper, since))
  {
    hide Configured, Separate, NameKey, IdKey, Trimmed, Serves, BuildRound;
    FreeKeys(done, config, clients, existing, family, upper, since);
    if NameKey(config, upper) in clients || IdKey(config) in clients {
      RoundStops(family, config, existing, upper, clients, created, next);
    } else {
      RoundServes(family, config, existing, upper, clients, created, next, since);
      var round := BuildRound(family, Some(config), existing, upper, clients, created, next);
      AddingConfigures(done, config, round.clients[NameKey(config, upper)], clients, existing, family, upper, since);
    }
  }

  lemma BuildCons(family: Family, attempts: seq<Option<Config>>, existing: Clients, upper: Upper, clients: Clients,
                  created: seq<Client>, next: nat)
    requires attempts != []
    ensures var round := BuildRound(family, attempts[0], existing, upper, clients, created, next);
            BuildFrom(family, attempts, existing, upper, clients, created, next) ==
            if round.Stop? then Failed(round.events, NextSerial(attempts[0], next))
            else BuildFrom(family, attempts[1..], existing, upper, round.clients, round.created,
                           NextSerial(attempts[0], next)).After(round.events)
  {
    hide BuildRound, Trimmed;
  }

  /** The loop from any of its states: it succeeds exactly when the rest fits, and then installs it. */
  lemma {:induction false} BuildConfigures(family: Family, attempts: seq<Option<Config>>, existing: Clients,
                                           upper: Upper, done: seq<Config>, clients: Clients, created: seq<Client>,
                                           next: nat, since: nat)
    requires Configured(done, clients, existing, family, upper, since) && Separate(done, upper) && since <= next
    ensures var b := BuildFrom(family, attempts, existing, upper, clients, created, next);
            var configs := done + ConfigsOf(attempts);
            && (b.Built? <==> AllSome(attempts) && Separate(configs, upper))
            && (b.Built? ==> Configured(configs, b.clients, existing, family, upper, since))
    decreases |attempts|
  {
    if attempts == [] {
      assert done + ConfigsOf(attempts) == done;
      return;
    }
    BuildCons(family, attempts, existing, upper, clients, created, next);
    hide BuildFrom;
    if attempts[0].Some? {
      var config, rest := attempts[0].value, ConfigsOf(attempts[1..]);
      ConfigsCons(attempts);
      Associate(done, [config], rest);
      RoundConfigures(family, config, existing, upper, done, clients, created, next, since);
      var round := BuildRound(family, attempts[0], existing, upper, clients, created, next);
      hide Configured, Separate, AllSome, BuildRound, Trimmed, ConfigsOf;
      if round.Next? {
        BuildConfigures(family, attempts[1..], existing, upper, done + [config], round.clients, round.created,
                        next + 1, since);
      } else if Separate(done + [config] + rest, upper) {
        SeparatePrefix(done + [config], rest, upper);
      }
    } else {
      assert !AllSome(attempts);
    }
  }

  /**
   * A whole build succeeds exactly on accepted configurations without a common key. Then each of them is
   * served under its name and its id, by the existing client with that very configuration or by a new
   * one, and the map has no other key.
   */
  lemma BuildInstallsExactly(family: Family, attempts: seq<Option<Config>>, existing: Clients, upper: Upper, next: nat)
    ensures var b := BuildClients(family, attempts, existing, upper, next);
            && (b.Built? <==> Buildable(attempts, upper))
            && (b.Built? ==> Configured(ConfigsOf(attempts), b.clients, existing, family, upper, next))
  {
    BuildConfigures(family, attempts, existing, upper, [], map[], [], next, next);
    assert [] + ConfigsOf(attempts) == ConfigsOf(attempts);
  }

  /** The requests that `Init` accepts. */
  ghost predicate Acceptable(req: Request, upper: Upper) {
    req.parses && Buildable(req.univ2, upper) && Buildable(req.univ3, upper) && req.bridgersOk
  }

  /** What an accepted request leaves installed in place of the two previous maps. */
  ghost predicate Replaced(req: Request, old2: Clients, old3: Clients, new2: Clients, new3: Clients, upper: Upper,
                           since: nat) {
    && Configured(ConfigsOf(req.univ2), new2, old2, Univ2, upper, since)
    && Configured(ConfigsOf(req.univ3), new3, old3, Univ3, upper, since)
  }

  lemma {:induction false} BuildNumbersGrow(family: Family, attempts: seq<Option<Config>>, existing: Clients,
                                            upper: Upper, clients: Clients, created: seq<Client>, next: nat)
    ensures BuildFrom(family, attempts, existing, upper, clients, created, next).next >= next
    decreases |attempts|
  {
    if attempts != [] {
      match BuildRound(family, attempts[0], existing, upper, clients, created, next)
      case Stop(_) =>
      case Next(clients', created', _) =>
        BuildNumbersGrow(family, attempts[1..], existing, upper, clients', created', NextSerial(attempts[0], next));
    }
  }

  lemma SinceEarlier(configs: seq<Config>, clients: Clients, existing: Clients, family: Family, upper: Upper,
                     since: nat, earlier: nat)
    requires Configured(configs, clients, existing, family, upper, since) && earlier <= since
    ensures Configured(configs, clients, existing, family, upper, earlier)
  {
    hide NameKey, IdKey, Trimmed, Requested;
    forall i | 0 <= i < |configs| ensures ServedIn(configs[i], clients, existing, family, upper, earlier) {
      assert ServedIn(configs[i], clients, existing, family, upper, since);
    }
  }

  /** `Init` succeeds exactly on acceptable requests, and installs what they ask for. */
  lemma PlanInstallsExactly(req: Request, univ2: Clients, univ3: Clients, upper: Upper, next: nat)
    ensures var plan := PlanFor(req, univ2, univ3, upper, next);
            && (plan.Swap? <==> Acceptable(req, upper))
            && (plan.Swap? ==> Replaced(req, univ2, univ3, plan.univ2, plan.univ3, upper, next))
  {
    hide Configured, Buildable, BuildFrom;
    if req.parses {
      BuildInstallsExactly(Univ2, req.univ2, univ2, upper, next);
      BuildNumbersGrow(Univ2, req.univ2, univ2, upper, map[], [], next);
      var b2 := BuildClients(Univ2, req.univ2, univ2, upper, next);
      if b2.Built? {
        BuildInstallsExactly(Univ3, req.univ3, univ3, upper, b2.next);
        var b3 := BuildClients(Univ3, req.univ3, univ3, upper, b2.next);
        if b3.Built? {
          SinceEarlier(ConfigsOf(req.univ3), b3.clients, univ3, Univ3, upper, b2.next, next);
        }
      }
    }
  }

  /** No client has a configuration that was not asked for. */
  lemma InstalledIsRequested(configs: seq<Config>, current: Clients, previous: Clients, family: Family, upper: Upper,
                             since: nat, c: Client)
    requires Configured(configs, current, previous, family, upper, since) && c in current.Values
    ensures c.config in configs
  {
    hide ServedIn, IsKeyOf, Trimmed;
    var k :| k in current && current[k] == c;
    assert Requested(k, configs, upper);
    var i :| 0 <= i < |configs| && IsKeyOf(k, configs[i], upper);
    ServedUnder(k, configs[i], current, previous, family, upper, since);
  }

  /** A client of the previous map stays exactly when one of the requested configurations is its own. */
  lemma KeptExactly(configs: seq<Config>, previous: Clients, current: Clients, family: Family, upper: Upper,
                    since: nat, order: seq<Client>, c: Client)
    requires BothKeys(previous, upper) && Configured(configs, current, previous, family, upper, since)
    requires RetireOrder(order, previous, current) && c in previous.Values
    ensures c in order <==> c.config !in configs
  {
    hide NameKey, IdKey, Trimmed, NoDuplicates, Requested;
    assert c in order <==> c in Members(order);
    var k :| k in previous && previous[k] == c;
    assert NameKey(previous[k].config, upper) in previous && previous[NameKey(c.config, upper)] == c;
    if c.config in configs {
      var i :| 0 <= i < |configs| && configs[i] == c.config;
      assert ServedIn(configs[i], current, previous, family, upper, since);
    } else if c in current.Values {
      InstalledIsRequested(configs, current, previous, family, upper, since, c);
    }
  }
}
