/** Everything together, for an agent whose scheduler and publisher behave and whose endpoints are compatible. */
module Capstone {
  import opened Endpoint
  import opened AgentState
  import opened Agreement
  import opened Separation
  import opened LabelMode
  import opened Registry
  import opened Scheduler
  import opened Announcements

  /** Endpoints of different services are separated, and all their labels survive in keys. */
  ghost predicate Compatible(cfgs: set<EndpointConfig>) {
    SeparateConfigs(cfgs) && forall c :: c in cfgs ==> Clear(c)
  }

  /** No step registers a service whose last deletion was hindered, and clients keep their labels. */
  ghost predicate WellUsed(events: seq<Event>) {
    forall i :: 0 <= i < |events| ==> !Revives(events, i) && ClientsKeepLabels(Before(events, i), events[i])
  }

  /** What one step of a well-used agent means for the conditions of the laws. */
  lemma WellUsedMoment(events: seq<Event>, i: nat)
    requires i < |events| && PossibleRun(events) && ScheduledRun(events)
    ensures !Revives(events, i) && ClientsKeepLabels(Before(events, i), events[i]) <==>
            !Reregisters(Before(events, i), events[i]) && LabelsKept(Before(events, i), events[i])
  {
    ReregistersIffRevives(events, i);
  }

  lemma WellUsedIff(events: seq<Event>)
    requires PossibleRun(events) && ScheduledRun(events)
    ensures WellUsed(events) <==> NeverReregisters(events, |events|) && LabelsKeptThroughout(events)
  {
    forall i | 0 <= i < |events|
      ensures !Revives(events, i) && ClientsKeepLabels(Before(events, i), events[i]) <==>
              !Reregisters(Before(events, i), events[i]) && LabelsKept(Before(events, i), events[i])
    {
      WellUsedMoment(events, i);
    }
  }

  /** At every moment, interfaces are those of live connections and registrations those of routable endpoints. */
  ghost predicate ExactAtAllTimes(events: seq<Event>) {
    forall i :: 0 <= i <= |events| ==> Agree(Before(events, i)) && RegisteredRoutable(Before(events, i))
  }

  lemma ExactAtAllTimesIff(events: seq<Event>)
    ensures ExactAtAllTimes(events) <==>
            NeverStale(events, |events|) && forall i :: 0 <= i <= |events| ==> Agree(Before(events, i))
  {
  }

  lemma ExactIffWellUsed(events: seq<Event>, cfgs: set<EndpointConfig>)
    requires PossibleRun(events) && ScheduledRun(events) && CreatesFrom(events, cfgs) && SeparateConfigs(cfgs)
    ensures ExactAtAllTimes(events) <==> WellUsed(events)
    ensures WellUsed(events) ==> StoreExactThroughout(events)
  {
    RegistryLaw(events, |events|);
    MixedModeAgreement(events, cfgs);
    WellUsedIff(events);
    ExactAtAllTimesIff(events);
  }

  lemma RoutableAndTraced(events: seq<Event>)
    requires PossibleRun(events) && ScheduledRun(events)
    ensures RoutableRegistered(Run(events)) && TableTraced(events, |events|)
  {
    assert events[..|events|] == events;
    RunKeepsRoutableRegistered(events, |events|);
    TableLaw(events, |events|);
  }

  lemma PublishedIfClear(events: seq<Event>, cfgs: set<EndpointConfig>)
    requires PublishedRun(events) && CreatesFrom(events, cfgs) && forall c :: c in cfgs ==> Clear(c)
    ensures PublishedExact(Run(events)) && PublishedTold(Run(events))
  {
    PublishedAreConfigured(events);
  }

  /**
   In every scheduled run - any requests, reconnects and closes, any failures to connect, register, unregister or
   build an interface - routable endpoints are registered, the table holds the configured services and those whose
   last deletion was hindered, and exactly the notifications of the configured services are published. Moreover, the
   interfaces are exactly those of the live connections and the registry holds nothing but routable endpoints, at
   every moment, if and only if the agent is well used.
   */
  lemma EverythingAgrees(events: seq<Event>, cfgs: set<EndpointConfig>)
    requires PossibleRun(events) && PublishedRun(events) && CreatesFrom(events, cfgs) && Compatible(cfgs)
    ensures RoutableRegistered(Run(events)) && TableTraced(events, |events|)
    ensures PublishedExact(Run(events)) && PublishedTold(Run(events))
    ensures ExactAtAllTimes(events) <==> WellUsed(events)
    ensures WellUsed(events) ==> StoreExactThroughout(events)
  {
    RoutableAndTraced(events);
    PublishedIfClear(events, cfgs);
    ExactIffWellUsed(events, cfgs);
  }

  /** Endpoints in index mode ask nothing of their clients. */
  lemma IndexModeNeedsNoCare(events: seq<Event>, cfgs: set<EndpointConfig>, i: nat)
    requires i < |events| && CreatesFrom(events, cfgs) && forall c :: c in cfgs ==> c.IndexMode()
    ensures ClientsKeepLabels(Before(events, i), events[i])
  {
    ConfigsInTable(events, cfgs, i);
  }
}
