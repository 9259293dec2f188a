/** Agreement of the demultiplexer's table with the registry of the network service mesh. */
module Registry {
  import opened Wrappers
  import opened Endpoint
  import opened AgentState

  /** Every endpoint that requests are routed to is registered, under its own name. */
  ghost predicate RoutableRegistered(a: Agent) {
    forall n :: n in a.table ==> a.table[n].epName in a.registry && a.registry[a.table[n].epName] == n
  }

  /** Every registered name belongs to an endpoint that requests are routed to. */
  ghost predicate RegisteredRoutable(a: Agent) {
    forall name :: name in a.registry ==>
      a.registry[name] in a.table && a.table[a.registry[name]].epName == name
  }

  /** The step registers a service that is still in the table. */
  predicate Reregisters(a: Agent, e: Event) {
    e.CreateEvent? && Registers(a, e.setup, e.registered) && e.cfg.networkService in a.table
  }

  /** Requests, closes and failed steps do not touch the registration side. */
  lemma StepRegistrations(a: Agent, e: Event)
    requires !e.CreateEvent?
    ensures var b := Step(a, e);
            || (b.registry == a.registry && b.table.Keys == a.table.Keys &&
                forall n :: n in a.table ==> b.table[n].epName == a.table[n].epName)
            || (e.DeleteEvent? && e.cfg.networkService in a.table &&
                b.registry == a.registry - {a.table[e.cfg.networkService].epName} &&
                b.table == a.table - {e.cfg.networkService})
  {
    match e
    case DeleteEvent(cfg, order, ws, removed, _) =>
      var n := cfg.networkService;
      if n in a.table {
        var closed := With(a, n, CloseAll(a.table[n].cfg, View(a, n), order, ws).0);
        assert closed.table - {n} == a.table - {n};
      }
    case RequestEvent(_, _, _) =>
    case CloseEvent(_, _) =>
  }

  lemma StepKeepsRoutableRegistered(a: Agent, e: Event)
    requires RoutableRegistered(a) && Possible(a, e)
    ensures RoutableRegistered(Step(a, e))
  {
    if !e.CreateEvent? {
      StepRegistrations(a, e);
    }
  }

  /** From exact agreement a step leads to exact agreement unless it registers a present service again. */
  lemma StepKeepsRegisteredRoutableIff(a: Agent, e: Event)
    requires RoutableRegistered(a) && RegisteredRoutable(a) && Possible(a, e)
    ensures RegisteredRoutable(Step(a, e)) <==> !Reregisters(a, e)
  {
    if !e.CreateEvent? {
      StepRegistrations(a, e);
    } else if Reregisters(a, e) {
      var stale := a.table[e.cfg.networkService].epName;
      assert stale in Step(a, e).registry && stale != e.registered.value;
    }
  }

  /** Only a registration can connect the agent, and nothing disconnects it. */
  lemma StepConnects(a: Agent, e: Event)
    ensures Step(a, e).connected <==> a.connected || (e.CreateEvent? && e.setup == SetupOk)
  {
    match e
    case CreateEvent(_, _, _, _) =>
    case DeleteEvent(cfg, order, ws, removed, _) =>
      assert DeleteEndpoint(a, cfg.networkService, order, ws, removed).0.connected == a.connected;
    case RequestEvent(_, _, _) =>
    case CloseEvent(_, _) =>
  }

  /**
   The setup is lazy and done once: after any run the agent is connected exactly if the surroundings let some
   creation set it up, even if the registration that followed failed.
   */
  lemma {:induction false} ConnectedOnce(events: seq<Event>)
    ensures Run(events).connected <==>
            exists i :: 0 <= i < |events| && events[i].CreateEvent? && events[i].setup == SetupOk
  {
    if events == [] {
    } else {
      var init, last := events[..|events| - 1], events[|events| - 1];
      ConnectedOnce(init);
      StepConnects(Run(init), last);
      assert forall i :: 0 <= i < |init| ==> init[i] == events[i];
    }
  }

  /** After every run, whatever fails, each routable endpoint is registered. */
  lemma {:induction false} RunKeepsRoutableRegistered(events: seq<Event>, i: nat)
    requires i <= |events| && PossibleRun(events)
    ensures RoutableRegistered(Before(events, i))
  {
    if i == 0 {
      assert Before(events, 0) == INITIAL;
    } else {
      RunKeepsRoutableRegistered(events, i - 1);
      BeforeStep(events, i - 1);
      StepKeepsRoutableRegistered(Before(events, i - 1), events[i - 1]);
    }
  }

  ghost predicate NeverStale(events: seq<Event>, i: nat)
    requires i <= |events|
  {
    forall j :: 0 <= j <= i ==> RegisteredRoutable(Before(events, j))
  }

  ghost predicate NeverReregisters(events: seq<Event>, i: nat)
    requires i <= |events|
  {
    forall j :: 0 <= j < i ==> !Reregisters(Before(events, j), events[j])
  }

  lemma RegistryMoment(events: seq<Event>, i: nat)
    requires i < |events| && PossibleRun(events) && RegisteredRoutable(Before(events, i))
    ensures RegisteredRoutable(Before(events, i + 1)) <==> !Reregisters(Before(events, i), events[i])
  {
    RunKeepsRoutableRegistered(events, i);
    BeforeStep(events, i);
    StepKeepsRegisteredRoutableIff(Before(events, i), events[i]);
  }

  /** One more step of the registry law. */
  lemma RegistryLawNext(events: seq<Event>, i: nat)
    requires i < |events| && PossibleRun(events)
    requires NeverStale(events, i) <==> NeverReregisters(events, i)
    ensures NeverStale(events, i + 1) <==> NeverReregisters(events, i + 1)
  {
    assert NeverStale(events, i + 1) <==> NeverStale(events, i) && RegisteredRoutable(Before(events, i + 1));
    if NeverStale(events, i) {
      RegistryMoment(events, i);
    }
  }

  lemma StartsExact(events: seq<Event>)
    ensures NeverStale(events, 0) && NeverReregisters(events, 0)
  {
    assert Before(events, 0) == INITIAL;
  }

  /** The registry law: nothing stale is ever registered, if and only if no present service is registered again. */
  lemma {:induction false} RegistryLaw(events: seq<Event>, i: nat)
    requires i <= |events| && PossibleRun(events)
    ensures NeverStale(events, i) <==> NeverReregisters(events, i)
  {
    if i == 0 {
      StartsExact(events);
    } else {
      RegistryLaw(events, i - 1);
      RegistryLawNext(events, i - 1);
    }
  }

  // ---------- deletions that fail ----------

  /** Deleting an endpoint fails only for want of a memif directory or because the registry refuses. */
  lemma DeleteEndpointOutcome(a: Agent, n: string, order: seq<string>, ws: string -> Workspace, removed: bool)
    requires AgentInv(a) && n in a.table && Enumerates(order, a.table[n].conns)
    ensures DeleteEndpoint(a, n, order, ws, removed).1.None? <==>
            && removed
            && (a.table[n].cfg.interfaceType == MemInterface ==>
                  forall id :: id in a.table[n].conns ==> ws(id) == Ready)
    ensures DeleteEndpoint(a, n, order, ws, removed).1.None? ==>
              n !in DeleteEndpoint(a, n, order, ws, removed).0.table
  {
    CloseAllFailsOnlyForMemif(a.table[n].cfg, View(a, n), order, ws);
  }

  /** The registry accepts the removal, and no memif directory is missing when connections are closed. */
  ghost predicate Unhindered(a: Agent, e: Event) {
    e.DeleteEvent? ==>
      e.removed &&
      (e.cfg.networkService in a.table && a.table[e.cfg.networkService].cfg.interfaceType == MemInterface ==>
         forall id :: id in a.table[e.cfg.networkService].conns ==> e.ws(id) == Ready)
  }

  /** The step deletes service `n`, and nothing hinders it. */
  ghost predicate Removal(a: Agent, e: Event, n: string) {
    e.DeleteEvent? && e.cfg.networkService == n && Unhindered(a, e)
  }

  /** The step registers service `n`. */
  predicate Registration(a: Agent, e: Event, n: string) {
    e.CreateEvent? && e.cfg.networkService == n && Registers(a, e.setup, e.registered)
  }

  /** A deletion that nothing hinders removes entry and registration; any other leaves both. */
  lemma DeletionStep(a: Agent, e: Event)
    requires AgentInv(a) && Possible(a, e) && e.DeleteEvent? && e.cfg.networkService in a.table
    ensures var n := e.cfg.networkService;
            if Unhindered(a, e) then
              n !in Step(a, e).table && Step(a, e).registry == a.registry - {a.table[n].epName}
            else
              n in Step(a, e).table && Step(a, e).table[n].epName == a.table[n].epName
  {
    DeleteEndpointOutcome(a, e.cfg.networkService, e.order, e.ws, e.removed);
  }

  /** A service in the table stays there under its registered name, unless it is removed or registered anew. */
  lemma EntryStep(a: Agent, e: Event, n: string)
    requires AgentInv(a) && Possible(a, e) && n in a.table && !Removal(a, e, n) && !Registration(a, e, n)
    ensures n in Step(a, e).table && Step(a, e).table[n].epName == a.table[n].epName
  {
    if !e.CreateEvent? {
      if e.DeleteEvent? && e.cfg.networkService == n {
        DeletionStep(a, e);
      } else {
        StepRegistrations(a, e);
      }
    }
  }

  ghost predicate Undisturbed(events: seq<Event>, n: string, i: nat, j: nat)
    requires i <= j <= |events|
  {
    forall k :: i <= k < j ==>
      !Removal(Before(events, k), events[k], n) && !Registration(Before(events, k), events[k], n)
  }

  lemma {:induction false} EntryStays(events: seq<Event>, n: string, i: nat, j: nat)
    requires i <= j <= |events| && PossibleRun(events) && n in Before(events, i).table && Undisturbed(events, n, i, j)
    ensures n in Before(events, j).table && Before(events, j).table[n].epName == Before(events, i).table[n].epName
    decreases j
  {
    if i == j {
    } else {
      EntryStays(events, n, i, j - 1);
      BeforeStep(events, j - 1);
      RunKeepsInv(events[..j - 1]);
      EntryStep(Before(events, j - 1), events[j - 1], n);
    }
  }

  /**
   A failed deletion can be made up for at any later time: whatever happens in between, short of another
   registration of the service, the endpoint stays routable and registered under the same name, and the first
   deletion that nothing hinders removes both its entry and its registration.
   */
  lemma LaterRemoval(events: seq<Event>, n: string, i: nat, j: nat)
    requires i <= j < |events| && PossibleRun(events) && n in Before(events, i).table && Undisturbed(events, n, i, j)
    requires Removal(Before(events, j), events[j], n)
    ensures var epName := Before(events, i).table[n].epName;
            && n in Before(events, j).table && epName in Before(events, j).registry
            && n !in Before(events, j + 1).table && epName !in Before(events, j + 1).registry
  {
    EntryStays(events, n, i, j);
    RunKeepsRoutableRegistered(events, j);
    BeforeStep(events, j);
    RunKeepsInv(events[..j]);
    DeletionStep(Before(events, j), events[j]);
  }

  /** If the registry refuses to remove an endpoint, its connections are gone but it stays registered and routable. */
  lemma FailedRemovalIsRetryable(
    a: Agent, n: string, order: seq<string>, ws: string -> Workspace, ws': string -> Workspace)
    requires AgentInv(a) && n in a.table && Enumerates(order, a.table[n].conns)
    requires CloseAll(a.table[n].cfg, View(a, n), order, ws).1.None?
    ensures var (b, err) := DeleteEndpoint(a, n, order, ws, false);
            && err == Some(RemovalFailed) && b.registry == a.registry && n in b.table
            && b.table[n] == Entry(a.table[n].epName, a.table[n].cfg, map[])
            && var (c, err') := DeleteEndpoint(b, n, [], ws', true);
               err'.None? && n !in c.table && a.table[n].epName !in c.registry
  {
    CloseAllSucceeds(a.table[n].cfg, View(a, n), order, ws);
  }
}
