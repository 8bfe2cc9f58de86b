/**
 * `Init` against concurrent readers. `tradeInitMu` serializes whole calls of `Init`; `tradeMu` is a
 * readers-writer lock that a reader keeps from `acquireUniv2Client` or `acquireUniv3Client` until it
 * calls the returned release. Every access to shared state is one step; goroutines interleave freely.
 */
module TradeProtocol {
  import opened Common
  import opened TradeClients
  import opened TradePackage

  type ReaderId = nat

  datatype Reader =
    | Outside
    | Locked(family: Family, chain: string)   // holds the read lock, has not looked up yet
    | Holding(client: Client)                 // was given a client, has not released it

  /** Where the goroutine that holds `tradeInitMu` is. */
  datatype InitState =
    | NoInit
    | Started(req: Request)
    | Working(plan: Plan, todo: seq<Event>)
    | Writing(plan: Plan, old2: Clients, old3: Clients, written: nat)   // holds the write lock
    | Retiring(todo: seq<Event>)

  datatype State = State(univ2: Clients, univ3: Clients,
                         open: set<Client>, closes: multiset<Client>, next: nat,
                         init: InitState, readers: map<ReaderId, Reader>)

  datatype Step =
    | ReaderLock(r: ReaderId, family: Family, chain: string)
    | ReaderLookup(r: ReaderId)
    | ReaderRelease(r: ReaderId)
    | InitBegin(req: Request)
    | InitRead
    | InitEvent
    | InitAbandoned
    | InitWriteLock
    | InitWrite
    | InitWriteUnlock(order2: seq<Client>, order3: seq<Client>)
    | InitEnd

  function ReaderOf(s: State, r: ReaderId): Reader {
    if r in s.readers then s.readers[r] else Outside
  }

  /** `tradeMu.Lock` is granted only when no reader holds the lock, and keeps readers out. */
  predicate NoReaders(s: State) {
    forall r :: r in s.readers ==> s.readers[r].Outside?
  }

  function Perform(s: State, e: Event): State {
    s.(open := Apply(s.open, e),
       closes := if e.Closed? then s.closes + multiset{e.client} else s.closes)
  }

  predicate Enabled(s: State, step: Step, upper: Upper) {
    match step
    case ReaderLock(r, _, _) => ReaderOf(s, r).Outside? && !s.init.Writing?
    case ReaderLookup(r) => ReaderOf(s, r).Locked?
    case ReaderRelease(r) => ReaderOf(s, r).Holding?
    case InitBegin(_) => s.init.NoInit?
    case InitRead => s.init.Started?
    case InitEvent => (s.init.Working? || s.init.Retiring?) && s.init.todo != []
    case InitAbandoned => s.init.Working? && s.init.todo == [] && s.init.plan.Abandon?
    case InitWriteLock => s.init.Working? && s.init.todo == [] && s.init.plan.Swap? && NoReaders(s)
    case InitWrite => s.init.Writing? && s.init.written < 2 && s.init.plan.Swap?
    case InitWriteUnlock(order2, order3) =>
      s.init.Writing? && s.init.written == 2 && s.init.plan.Swap? &&
      RetireOrder(order2, s.init.old2, s.init.plan.univ2) && RetireOrder(order3, s.init.old3, s.init.plan.univ3)
    case InitEnd => s.init.Retiring? && s.init.todo == []
  }

  function After(s: State, step: Step, upper: Upper): State
    requires Enabled(s, step, upper)
  {
    match step
    case ReaderLock(r, family, chain) => s.(readers := s.readers[r := Locked(family, chain)])
    case ReaderLookup(r) =>
      var reader := s.readers[r];
      var found := Lookup(if reader.family.Univ2? then s.univ2 else s.univ3, reader.chain, upper);
      s.(readers := s.readers[r := if found.Some? then Holding(found.value) else Outside])
    case ReaderRelease(r) => s.(readers := s.readers[r := Outside])
    case InitBegin(req) => s.(init := Started(req))
    case InitRead =>
      var plan := PlanFor(s.init.req, s.univ2, s.univ3, upper, s.next);
      s.(init := Working(plan, plan.events), next := plan.next)
    case InitEvent =>
      var s' := Perform(s, s.init.todo[0]);
      s'.(init := if s.init.Working? then Working(s.init.plan, s.init.todo[1..]) else Retiring(s.init.todo[1..]))
    case InitAbandoned => s.(init := NoInit)
    case InitWriteLock => s.(init := Writing(s.init.plan, s.univ2, s.univ3, 0))
    case InitWrite =>
      if s.init.written == 0 then s.(univ2 := s.init.plan.univ2, init := s.init.(written := 1))
      else s.(univ3 := s.init.plan.univ3, init := s.init.(written := 2))
    case InitWriteUnlock(order2, order3) => s.(init := Retiring(CloseAll(order2) + CloseAll(order3)))
    case InitEnd => s.(init := NoInit)
  }

  ghost predicate Next(s: State, s': State, upper: Upper) {
    exists step :: Enabled(s, step, upper) && s' == After(s, step, upper)
  }

  predicate Initial(s: State) {
    s == State(map[], map[], {}, multiset{}, 0, NoInit, map[])
  }

  ghost predicate Run(run: seq<State>, upper: Upper) {
    |run| > 0 && Initial(run[0]) && forall i :: 0 <= i < |run| - 1 ==> Next(run[i], run[i + 1], upper)
  }

  ghost predicate Reachable(s: State, upper: Upper) {
    exists run :: Run(run, upper) && run[|run| - 1] == s
  }

  // ---- the invariant ---------------------------------------------------------------------------------

  function Both(univ2: Clients, univ3: Clients): set<Client> { univ2.Values + univ3.Values }

  function InstalledClients(s: State): set<Client> { Both(s.univ2, s.univ3) }

  ghost predicate InitInvariant(s: State, upper: Upper) {
    match s.init
    case NoInit => s.open == InstalledClients(s)
    case Started(_) => s.open == InstalledClients(s)
    case Working(plan, todo) =>
      && Legal(s.open, s.closes, todo)
      && (forall i :: 0 <= i < |todo| && todo[i].Closed? ==> todo[i].client !in InstalledClients(s))
      && (match plan
          case Abandon(_, _) => OpenAfter(s.open, todo) == InstalledClients(s)
          case Swap(_, _, new2, new3) =>
            Installed(new2, new3, upper) && OpenAfter(s.open, todo) == InstalledClients(s) + Both(new2, new3))
    case Writing(plan, old2, old3, written) =>
      && NoReaders(s) && written <= 2 && plan.Swap?
      && Installed(plan.univ2, plan.univ3, upper) && Installed(old2, old3, upper)
      && s.univ2 == (if written == 0 then old2 else plan.univ2)
      && s.univ3 == (if written <= 1 then old3 else plan.univ3)
      && s.open == Both(old2, old3) + Both(plan.univ2, plan.univ3)
    case Retiring(todo) =>
      && Legal(s.open, s.closes, todo)
      && (forall i :: 0 <= i < |todo| ==> todo[i].Closed? && todo[i].client !in InstalledClients(s))
      && OpenAfter(s.open, todo) == InstalledClients(s)
  }

  /** The numbers of all handles, also of those still to be opened, are used up. */
  ghost predicate SerialsUsed(s: State) {
    && (s.init.Working? ==> Older(OpenAfter(s.open, s.init.todo), ClosesAfter(s.closes, s.init.todo), s.next))
    && (!s.init.Working? ==> Older(s.open, s.closes, s.next))
  }

  ghost predicate Invariant(s: State, upper: Upper) {
    && Installed(s.univ2, s.univ3, upper)
    && InstalledClients(s) <= s.open
    && (forall c :: c in s.open ==> c !in s.closes)
    && (forall c :: s.closes[c] <= 1)
    && (forall r :: r in s.readers && s.readers[r].Holding? ==> s.readers[r].client in InstalledClients(s))
    && SerialsUsed(s)
    && InitInvariant(s, upper)
  }

  lemma InitialInvariant(s: State, upper: Upper)
    requires Initial(s)
    ensures Invariant(s, upper)
  {
  }

  lemma OpenAfterClosing(open: set<Client>, installed: set<Client>, e: Event)
    requires installed <= open && (e.Closed? ==> e.client !in installed)
    ensures installed <= Apply(open, e)
  {
  }

  lemma WorkingEvent(s: State, upper: Upper)
    requires Invariant(s, upper) && Enabled(s, InitEvent, upper) && s.init.Working?
    ensures Invariant(After(s, InitEvent, upper), upper)
  {
    hide Installed, Older, Both;
    var todo := s.init.todo;
    OpenAfterClosing(s.open, InstalledClients(s), todo[0]);
    assert forall i :: 0 <= i < |todo[1..]| ==> todo[1..][i] == todo[i + 1];
  }

  lemma RetiringEvent(s: State, upper: Upper)
    requires Invariant(s, upper) && Enabled(s, InitEvent, upper) && s.init.Retiring?
    ensures Invariant(After(s, InitEvent, upper), upper)
  {
    hide Installed, Both, Older;
    var todo := s.init.todo;
    OpenAfterClosing(s.open, InstalledClients(s), todo[0]);
    RetiringSerials(s);
    assert forall i :: 0 <= i < |todo[1..]| ==> todo[1..][i] == todo[i + 1];
  }

  lemma RetiringSerials(s: State)
    requires Older(s.open, s.closes, s.next) && s.init.Retiring? && s.init.todo != []
    requires s.init.todo[0].Closed? && s.init.todo[0].client in s.open
    ensures var s' := Perform(s, s.init.todo[0]); Older(s'.open, s'.closes, s'.next)
  {
  }

  /** A plan closes nothing that is installed when it is made. */
  lemma PlanCloses(s: State, upper: Upper)
    requires Older(s.open, s.closes, s.next) && InstalledClients(s) <= s.open && s.init.Started?
    requires ClosesOnly(PlanFor(s.init.req, s.univ2, s.univ3, upper, s.next).events, {}, s.next)
    ensures var todo := PlanFor(s.init.req, s.univ2, s.univ3, upper, s.next).events;
            forall i :: 0 <= i < |todo| && todo[i].Closed? ==> todo[i].client !in InstalledClients(s)
  {
    hide PlanFor;
  }

  lemma ReadStep(s: State, upper: Upper)
    requires Invariant(s, upper) && Enabled(s, InitRead, upper)
    ensures Invariant(After(s, InitRead, upper), upper)
  {
    var plan := PlanFor(s.init.req, s.univ2, s.univ3, upper, s.next);
    PlanIsSound(s.init.req, s.univ2, s.univ3, upper, s.open, s.closes, s.next);
    PlanCloses(s, upper);
    assert After(s, InitRead, upper) == s.(init := Working(plan, plan.events), next := plan.next);
    hide PlanFor, Enabled, After;
    PlannedInvariant(s, plan, upper);
  }

  lemma PlannedInvariant(s: State, plan: Plan, upper: Upper)
    requires Invariant(s, upper) && s.init.Started?
    requires PlanEffect(plan, s.open, s.closes, s.univ2, s.univ3, upper, s.next)
    requires forall i ::
               0 <= i < |plan.events| && plan.events[i].Closed? ==> plan.events[i].client !in InstalledClients(s)
    ensures Invariant(s.(init := Working(plan, plan.events), next := plan.next), upper)
  {
    hide Installed, Legal, OpenAfter, ClosesAfter, ClosesOnly, Older;
    if plan.Swap? {
      assert s.open + Both(plan.univ2, plan.univ3) == s.open + plan.univ2.Values + plan.univ3.Values;
    }
    hide Both;
  }

  lemma WriteLockStep(s: State, upper: Upper)
    requires Invariant(s, upper) && Enabled(s, InitWriteLock, upper)
    ensures Invariant(After(s, InitWriteLock, upper), upper)
  {
    hide Installed, Older, Apply;
  }

  lemma WriteStep(s: State, upper: Upper)
    requires Invariant(s, upper) && Enabled(s, InitWrite, upper)
    ensures Invariant(After(s, InitWrite, upper), upper)
  {
    hide Both, Installed, Older;
    if s.init.written == 0 {
      FirstWrite(s, upper);
    } else {
      SecondWrite(s, upper);
    }
  }

  lemma Mixed(old2: Clients, old3: Clients, new2: Clients, new3: Clients)
    ensures Both(new2, old3) <= Both(old2, old3) + Both(new2, new3)
  {
  }

  lemma FirstWrite(s: State, upper: Upper)
    requires Invariant(s, upper) && s.init.Writing? && s.init.written == 0
    ensures Invariant(s.(univ2 := s.init.plan.univ2, init := s.init.(written := 1)), upper)
  {
    hide BothKeys, OfFamily, Older, Both;
    Mixed(s.init.old2, s.init.old3, s.init.plan.univ2, s.init.plan.univ3);
  }

  lemma SecondWrite(s: State, upper: Upper)
    requires Invariant(s, upper) && s.init.Writing? && s.init.written == 1
    ensures Invariant(s.(univ3 := s.init.plan.univ3, init := s.init.(written := 2)), upper)
  {
    hide BothKeys, OfFamily, Older, Both;
  }

  lemma EndSteps(s: State, step: Step, upper: Upper)
    requires Invariant(s, upper) && Enabled(s, step, upper) && (step.InitAbandoned? || step.InitEnd?)
    ensures Invariant(After(s, step, upper), upper)
  {
    hide Installed, Older, Both;
  }

  lemma RetireInvariant(s: State, todo: seq<Event>, upper: Upper)
    requires Invariant(s, upper) && !s.init.Working?
    requires Legal(s.open, s.closes, todo) && OpenAfter(s.open, todo) == InstalledClients(s)
    requires forall i :: 0 <= i < |todo| ==> todo[i].Closed? && todo[i].client !in InstalledClients(s)
    ensures Invariant(s.(init := Retiring(todo)), upper)
  {
    hide Installed, Older, Legal, OpenAfter, ClosesAfter, Both;
  }

  lemma UnlockEvents(s: State, order2: seq<Client>, order3: seq<Client>, upper: Upper)
    requires Invariant(s, upper) && Enabled(s, InitWriteUnlock(order2, order3), upper)
    ensures var todo := CloseAll(order2) + CloseAll(order3);
            && Legal(s.open, s.closes, todo) && OpenAfter(s.open, todo) == InstalledClients(s)
            && forall i :: 0 <= i < |todo| ==> todo[i].Closed? && todo[i].client !in InstalledClients(s)
  {
    hide BothKeys, OfFamily, Older, Legal, OpenAfter, ClosesAfter, CloseAll, RetireOrder, Trimmed;
    var plan := s.init.plan;
    assert s.open == Both(s.init.old2, s.init.old3) + Both(plan.univ2, plan.univ3)
           && InstalledClients(s) == Both(plan.univ2, plan.univ3);
    assert Installed(plan.univ2, plan.univ3, upper) && Installed(s.init.old2, s.init.old3, upper);
    FourMaps(s.init.old2, s.init.old3, plan.univ2, plan.univ3);
    hide Invariant;
    RetireIsSound(s.open, s.closes, s.init.old2, s.init.old3, plan.univ2, plan.univ3, order2, order3);
  }

  lemma FourMaps(a: Clients, b: Clients, c: Clients, d: Clients)
    ensures Both(a, b) + Both(c, d) == a.Values + b.Values + c.Values + d.Values
  {
  }

  lemma UnlockStep(s: State, step: Step, upper: Upper)
    requires Invariant(s, upper) && Enabled(s, step, upper) && step.InitWriteUnlock?
    ensures Invariant(After(s, step, upper), upper)
  {
    hide Invariant, Legal, OpenAfter, CloseAll, InstalledClients, RetireOrder, Installed;
    UnlockEvents(s, step.order2, step.order3, upper);
    RetireInvariant(s, CloseAll(step.order2) + CloseAll(step.order3), upper);
  }

  lemma ReaderSteps(s: State, step: Step, upper: Upper)
    requires Invariant(s, upper) && Enabled(s, step, upper)
    requires step.ReaderLock? || step.ReaderLookup? || step.ReaderRelease? || step.InitBegin?
    ensures Invariant(After(s, step, upper), upper)
  {
    hide Installed, Legal, OpenAfter, ClosesAfter, Older;
    if step.ReaderLookup? {
      assert s.readers[step.r].Locked?;
    }
  }

  lemma NextInvariant(s: State, s': State, upper: Upper)
    requires Invariant(s, upper) && Next(s, s', upper)
    ensures Invariant(s', upper)
  {
    hide Invariant, PlanFor, Perform;
    var step :| Enabled(s, step, upper) && s' == After(s, step, upper);
    match step
    case InitEvent => if s.init.Working? { WorkingEvent(s, upper); } else { RetiringEvent(s, upper); }
    case InitRead => ReadStep(s, upper);
    case InitWriteUnlock(_, _) => UnlockStep(s, step, upper);
    case InitWriteLock => WriteLockStep(s, upper);
    case InitWrite => WriteStep(s, upper);
    case InitAbandoned => EndSteps(s, step, upper);
    case InitEnd => EndSteps(s, step, upper);
    case _ => ReaderSteps(s, step, upper);
  }

  lemma {:induction false} RunInvariant(run: seq<State>, upper: Upper)
    requires Run(run, upper)
    ensures Invariant(run[|run| - 1], upper)
  {
    hide Invariant, Next, Initial;
    if |run| == 1 {
      InitialInvariant(run[0], upper);
    } else {
      var front := run[..|run| - 1];
      assert front[|front| - 1] == run[|run| - 2];
      RunInvariant(front, upper);
      NextInvariant(run[|run| - 2], run[|run| - 1], upper);
    }
  }

  lemma ReachableInvariant(s: State, upper: Upper)
    requires Reachable(s, upper)
    ensures Invariant(s, upper)
  {
    hide Invariant, Initial, Next;
    var run :| Run(run, upper) && run[|run| - 1] == s;
    RunInvariant(run, upper);
  }

  /** Which steps touch the connections and which the maps. */
  lemma StepFrame(s: State, step: Step, upper: Upper)
    requires Enabled(s, step, upper)
    ensures var s' := After(s, step, upper);
            && (!step.InitEvent? ==> s'.open == s.open && s'.closes == s.closes)
            && (step.InitEvent? ==>
                 s'.closes == if s.init.todo[0].Closed? then s.closes + multiset{s.init.todo[0].client} else s.closes)
            && (!step.InitWrite? ==> s'.univ2 == s.univ2 && s'.univ3 == s.univ3)
            && (step.InitEvent? ==> s'.readers == s.readers)
  {
    hide PlanFor, Lookup, CloseAll, RetireOrder;
  }

  // ---- what follows for every interleaving -------------------------------------------------------------

  /** A client that was acquired and not yet released is open. */
  lemma HeldClientsAreOpen(s: State, r: ReaderId, upper: Upper)
    requires Reachable(s, upper) && ReaderOf(s, r).Holding?
    ensures ReaderOf(s, r).client in s.open && s.closes[ReaderOf(s, r).client] == 0
  {
    ReachableInvariant(s, upper);
    hide Reachable;
  }

  /** What a close says about the state before it. */
  lemma ClosingStep(s: State, step: Step, c: Client, upper: Upper)
    requires Enabled(s, step, upper) && After(s, step, upper).closes[c] > s.closes[c]
    ensures step.InitEvent? && s.init.todo[0] == Closed(c) && After(s, step, upper).closes[c] == s.closes[c] + 1
    ensures After(s, step, upper).readers == s.readers
  {
    StepFrame(s, step, upper);
    hide After;
  }

  lemma ClosedWasOpen(s: State, c: Client, upper: Upper)
    requires Invariant(s, upper) && Enabled(s, InitEvent, upper) && s.init.todo[0] == Closed(c)
    ensures c in s.open && c !in InstalledClients(s)
  {
    hide Installed, Older, OpenAfter, ClosesAfter, InstalledClients, Both;
  }

  /** No client is closed twice, and no step closes a client that somebody holds. */
  lemma ClosedOnceAndUnheld(s: State, s': State, c: Client, r: ReaderId, upper: Upper)
    requires Reachable(s, upper) && Next(s, s', upper) && s'.closes[c] > s.closes[c]
    ensures s.closes[c] == 0 && s'.closes[c] == 1
    ensures ReaderOf(s, r) != Holding(c) && ReaderOf(s', r) != Holding(c)
  {
    ReachableInvariant(s, upper);
    hide Reachable, After, Enabled, InitInvariant, Installed, SerialsUsed, InstalledClients;
    var step :| Enabled(s, step, upper) && s' == After(s, step, upper);
    ClosingStep(s, step, c, upper);
    ClosedWasOpen(s, c, upper);
  }

  /** Whenever no `Init` is under way, exactly the installed clients are open, under both of their keys. */
  lemma QuiescentIsInstalled(s: State, upper: Upper)
    requires Reachable(s, upper) && s.init.NoInit?
    ensures s.open == InstalledClients(s) && Installed(s.univ2, s.univ3, upper)
  {
    ReachableInvariant(s, upper);
    hide Reachable;
  }

  lemma OnlyWritesChangeMaps(s: State, step: Step, upper: Upper)
    requires Enabled(s, step, upper)
    requires After(s, step, upper).univ2 != s.univ2 || After(s, step, upper).univ3 != s.univ3
    ensures s.init.Writing?
  {
    StepFrame(s, step, upper);
    assert step.InitWrite?;
  }

  /** The installed maps change only under the write lock, which an abandoned plan never takes. */
  lemma MapsChangeUnderWriteLock(s: State, s': State, upper: Upper)
    requires Reachable(s, upper) && Next(s, s', upper)
    requires s.univ2 != s'.univ2 || s.univ3 != s'.univ3
    ensures s.init.Writing? && s.init.plan.Swap? && NoReaders(s)
  {
    ReachableInvariant(s, upper);
    WritingHasPlan(s, upper);
    hide Reachable, After, Enabled, Invariant, NoReaders;
    var step :| Enabled(s, step, upper) && s' == After(s, step, upper);
    OnlyWritesChangeMaps(s, step, upper);
  }

  lemma WritingHasPlan(s: State, upper: Upper)
    requires Invariant(s, upper)
    ensures s.init.Writing? ==> s.init.plan.Swap? && NoReaders(s)
  {
    hide Installed, SerialsUsed, InstalledClients, Both, NoReaders;
  }

  /** Whatever step is taken, a reader keeps its client, installed and open, until it releases it itself. */
  lemma HeldUntilRelease(s: State, step: Step, r: ReaderId, upper: Upper)
    requires Reachable(s, upper) && Enabled(s, step, upper) && ReaderOf(s, r).Holding? && step != ReaderRelease(r)
    ensures var s' := After(s, step, upper);
            ReaderOf(s', r) == ReaderOf(s, r) && ReaderOf(s, r).client in s'.open
              && ReaderOf(s, r).client in InstalledClients(s')
  {
    ReachableInvariant(s, upper);
    hide Reachable;
    var s' := After(s, step, upper);
    NextInvariant(s, s', upper) by { assert Next(s, s', upper); }
    ReadersKeepClients(s, step, r, upper);
    hide PlanFor, Lookup, CloseAll, RetireOrder, Installed, Older, After, OpenAfter, ClosesAfter, InitInvariant,
         SerialsUsed;
  }

  lemma ReadersKeepClients(s: State, step: Step, r: ReaderId, upper: Upper)
    requires Enabled(s, step, upper) && ReaderOf(s, r).Holding? && step != ReaderRelease(r)
    ensures ReaderOf(After(s, step, upper), r) == ReaderOf(s, r)
  {
    hide PlanFor, Lookup, CloseAll, RetireOrder;
  }

  /** A reader that looks up a chain gets the installed client of that chain, and then holds it. */
  lemma LookupYieldsInstalled(s: State, r: ReaderId, upper: Upper)
    requires Reachable(s, upper) && Enabled(s, ReaderLookup(r), upper)
    ensures var s' := After(s, ReaderLookup(r), upper);
            var reader := ReaderOf(s, r);
            var found := Lookup(if reader.family.Univ2? then s.univ2 else s.univ3, reader.chain, upper);
            && ReaderOf(s', r) == (if found.Some? then Holding(found.value) else Outside)
            && (found.Some? ==> found.value in s'.open)
            && !s.init.Writing?
  {
    ReachableInvariant(s, upper);
    hide Reachable;
    assert r in s.readers;
  }
}
