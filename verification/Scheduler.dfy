/** What the key-value scheduler, which drives the descriptor, guarantees, and what follows for the table. */
module Scheduler {
  import opened AgentState
  import opened Registry

  /** A service is created only when it is not configured, and deleted with the configuration it was created with. */
  predicate Scheduled(a: Agent, e: Event) {
    match e
    case CreateEvent(cfg, _, _, _) => cfg.networkService !in a.configured
    case DeleteEvent(cfg, _, _, _, _) => cfg.networkService in a.configured && a.configured[cfg.networkService] == cfg
    case RequestEvent(_, _, _) => true
    case CloseEvent(_, _) => true
  }

  ghost predicate ScheduledRun(events: seq<Event>) {
    forall i :: 0 <= i < |events| ==> Scheduled(Before(events, i), events[i])
  }

  /** A configured service is always in the demultiplexer's table, so deleting it finds it there. */
  ghost predicate ConfiguredPresent(a: Agent) {
    forall n :: n in a.configured ==> n in a.table && a.table[n].cfg == a.configured[n]
  }

  lemma StepKeepsConfiguredPresent(a: Agent, e: Event)
    requires ConfiguredPresent(a) && Scheduled(a, e)
    ensures ConfiguredPresent(Step(a, e))
  {
  }

  lemma {:induction false} RunKeepsConfiguredPresent(events: seq<Event>, i: nat)
    requires i <= |events| && ScheduledRun(events)
    ensures ConfiguredPresent(Before(events, i))
  {
    if i == 0 {
      assert Before(events, 0) == INITIAL;
    } else {
      RunKeepsConfiguredPresent(events, i - 1);
      BeforeStep(events, i - 1);
      StepKeepsConfiguredPresent(Before(events, i - 1), events[i - 1]);
    }
  }

  /** The last deletion of service `n` so far was hindered. */
  ghost predicate LastHindered(events: seq<Event>, n: string) {
    if events == [] then false
    else
      var init, e := events[..|events| - 1], events[|events| - 1];
      if e.DeleteEvent? && e.cfg.networkService == n then !Unhindered(Run(init), e) else LastHindered(init, n)
  }

  lemma LastHinderedNext(events: seq<Event>, i: nat, n: string)
    requires i < |events|
    ensures LastHindered(events[..i + 1], n) <==>
            if events[i].DeleteEvent? && events[i].cfg.networkService == n
            then !Unhindered(Before(events, i), events[i])
            else LastHindered(events[..i], n)
  {
    assert events[..i + 1][..i] == events[..i];
  }

  /** What a step does to the set of configured services. */
  lemma ConfiguredAfter(a: Agent, e: Event, n: string)
    ensures n in Step(a, e).configured <==>
            match e
            case CreateEvent(cfg, setup, registered, _) =>
              n in a.configured || (n == cfg.networkService && Registers(a, setup, registered))
            case DeleteEvent(cfg, _, _, _, _) => n in a.configured && n != cfg.networkService
            case RequestEvent(_, _, _) => n in a.configured
            case CloseEvent(_, _) => n in a.configured
  {
  }

  /** What a step does to the set of services in the table. */
  lemma TableAfter(a: Agent, e: Event, n: string)
    requires AgentInv(a) && Possible(a, e) && Scheduled(a, e) && ConfiguredPresent(a)
    ensures n in Step(a, e).table <==>
            match e
            case CreateEvent(cfg, setup, registered, _) =>
              n in a.table || (n == cfg.networkService && Registers(a, setup, registered))
            case DeleteEvent(cfg, _, _, _, _) => n in a.table && (n != cfg.networkService || !Unhindered(a, e))
            case RequestEvent(_, _, _) => n in a.table
            case CloseEvent(_, _) => n in a.table
  {
    if !e.CreateEvent? {
      StepRegistrations(a, e);
      if e.DeleteEvent? {
        DeletionStep(a, e);
      }
    }
  }

  /** The table holds the configured services and those whose last deletion was hindered. */
  ghost predicate TableTraced(events: seq<Event>, i: nat)
    requires i <= |events|
  {
    forall n :: n in Before(events, i).table <==>
      n in Before(events, i).configured || LastHindered(events[..i], n)
  }

  lemma TableMoment(events: seq<Event>, i: nat, n: string)
    requires i < |events| && PossibleRun(events) && ScheduledRun(events)
    requires n in Before(events, i).table <==> n in Before(events, i).configured || LastHindered(events[..i], n)
    ensures n in Before(events, i + 1).table <==>
            n in Before(events, i + 1).configured || LastHindered(events[..i + 1], n)
  {
    BeforeStep(events, i);
    RunKeepsInv(events[..i]);
    RunKeepsConfiguredPresent(events, i);
    TableAfter(Before(events, i), events[i], n);
    ConfiguredAfter(Before(events, i), events[i], n);
    LastHinderedNext(events, i, n);
  }

  /**
   The trace law: at every moment of a scheduled run a service is in the table if and only if it is configured or
   its last deletion was hindered. The scheduler, to which deleting never fails, does not learn of the latter.
   */
  lemma {:induction false} TableLaw(events: seq<Event>, i: nat)
    requires i <= |events| && PossibleRun(events) && ScheduledRun(events)
    ensures TableTraced(events, i)
  {
    if i == 0 {
      assert Before(events, 0) == INITIAL;
    } else {
      TableLaw(events, i - 1);
      forall n ensures n in Before(events, i).table <==>
          n in Before(events, i).configured || LastHindered(events[..i], n)
      {
        TableMoment(events, i - 1, n);
      }
    }
  }

  /** The step registers a service again whose last deletion was hindered. */
  ghost predicate Revives(events: seq<Event>, i: nat)
    requires i < |events|
  {
    && events[i].CreateEvent? && Registers(Before(events, i), events[i].setup, events[i].registered)
    && LastHindered(events[..i], events[i].cfg.networkService)
  }

  /** Under a scheduler, only such a step registers a service that is still in the table. */
  lemma ReregistersIffRevives(events: seq<Event>, i: nat)
    requires i < |events| && PossibleRun(events) && ScheduledRun(events)
    ensures Reregisters(Before(events, i), events[i]) <==> Revives(events, i)
  {
    TableLaw(events, i);
    assert Scheduled(Before(events, i), events[i]);
  }

  ghost predicate NeverRegistered(events: seq<Event>, n: string, i: nat, j: nat)
    requires i <= j <= |events|
  {
    forall k :: i <= k < j ==> !Registration(Before(events, k), events[k], n)
  }

  lemma {:induction false} StaysUnconfigured(events: seq<Event>, n: string, i: nat, j: nat)
    requires i <= j <= |events| && NeverRegistered(events, n, i, j) && n !in Before(events, i).configured
    ensures n !in Before(events, j).configured
    decreases j
  {
    if i == j {
    } else {
      StaysUnconfigured(events, n, i, j - 1);
      BeforeStep(events, j - 1);
      ConfiguredAfter(Before(events, j - 1), events[j - 1], n);
    }
  }

  /**
   What follows: an endpoint whose deletion was hindered is never deleted again. It stays routable and registered,
   without being configured, for as long as its service is not registered anew.
   */
  lemma ForgottenEndpointStays(events: seq<Event>, n: string, i: nat, j: nat)
    requires i <= j <= |events| && PossibleRun(events) && ScheduledRun(events) && NeverRegistered(events, n, i, j)
    requires n in Before(events, i).table && n !in Before(events, i).configured
    ensures n !in Before(events, j).configured && n in Before(events, j).table
    ensures var epName := Before(events, j).table[n].epName;
            epName == Before(events, i).table[n].epName && epName in Before(events, j).registry
  {
    forall k | i <= k < j ensures !Removal(Before(events, k), events[k], n) {
      StaysUnconfigured(events, n, i, k);
      assert Scheduled(Before(events, k), events[k]);
    }
    StaysUnconfigured(events, n, i, j);
    EntryStays(events, n, i, j);
    RunKeepsRoutableRegistered(events, j);
  }

  ghost predicate UnhinderedRun(events: seq<Event>) {
    forall i :: 0 <= i < |events| ==> Unhindered(Before(events, i), events[i])
  }

  lemma {:induction false} NeverHindered(events: seq<Event>, i: nat, n: string)
    requires i <= |events| && UnhinderedRun(events)
    ensures !LastHindered(events[..i], n)
  {
    if i == 0 {
      assert events[..0] == [];
    } else {
      NeverHindered(events, i - 1, n);
      LastHinderedNext(events, i - 1, n);
    }
  }

  /** In particular, if no deletion is hindered, the table holds exactly the configured services. */
  lemma TableIsConfigured(events: seq<Event>, i: nat)
    requires i <= |events| && PossibleRun(events) && ScheduledRun(events) && UnhinderedRun(events)
    ensures Before(events, i).table.Keys == Before(events, i).configured.Keys
  {
    TableLaw(events, i);
    forall n ensures n in Before(events, i).table <==> n in Before(events, i).configured {
      NeverHindered(events, i, n);
    }
  }
}
