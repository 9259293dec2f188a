/**
 Runs that show what goes wrong: a service that is created again after a deletion that failed, and a client that
 comes back while its memif directory cannot be made. The surroundings allow them and a scheduler drives them.
 */
module Witnesses {
  import opened Wrappers
  import opened Endpoint
  import opened AgentState
  import opened Agreement
  import opened AgreementSteps
  import opened Registry
  import opened Scheduler

  /** The registry refuses to remove the endpoint, which has no connections. */
  function RefusedDeletion(c: EndpointConfig): Event {
    DeleteEvent(c, [], (_: string) => Ready, false, (_: nat) => true)
  }

  function Arrival(conn: Connection, wsOpen: Workspace): Event {
    RequestEvent(conn, Ready, wsOpen)
  }

  /** A run that the surroundings and the scheduler allow. */
  ghost predicate Allowed(events: seq<Event>) {
    PossibleRun(events) && ScheduledRun(events)
  }

  lemma AllowedNext(events: seq<Event>, e: Event)
    requires Allowed(events) && Possible(Run(events), e) && Scheduled(Run(events), e)
    ensures Allowed(events + [e]) && Run(events + [e]) == Step(Run(events), e)
  {
    PossibleNext(events, e);
    var longer := events + [e];
    forall i | 0 <= i < |longer| ensures Scheduled(Before(longer, i), longer[i]) {
      assert longer[..i] == if i < |events| then events[..i] else events;
    }
  }

  // ---------- a deletion that failed, and then another creation ----------

  /** The endpoint is in the table without connections and registered, and nothing else is. */
  ghost predicate Idle(a: Agent, c: EndpointConfig, epName: string) {
    && a.connected && a.store == map[]
    && a.table == map[c.networkService := Entry(epName, c, map[])]
    && a.registry == map[epName := c.networkService]
  }

  lemma Created(c: EndpointConfig, epName: string)
    ensures var events := [Creation(c, epName)];
            Allowed(events) && Idle(Run(events), c, epName) && Run(events).configured == map[c.networkService := c]
  {
    AllowedNext([], Creation(c, epName));
    assert [] + [Creation(c, epName)] == [Creation(c, epName)];
  }

  function Forgotten(c: EndpointConfig, epName: string): seq<Event> {
    [Creation(c, epName)] + [RefusedDeletion(c)]
  }

  /** A scheduled agent does get an endpoint that is routable and not configured. */
  lemma ForgottenIsAllowed(c: EndpointConfig, epName: string)
    ensures var events := Forgotten(c, epName);
            Allowed(events) && Idle(Run(events), c, epName) && Run(events).configured == map[]
  {
    Created(c, epName);
    AllowedNext([Creation(c, epName)], RefusedDeletion(c));
  }

  /** Creating the service again leaves its first registration behind, for an endpoint of any kind. */
  lemma RecreationLeavesStale(c: EndpointConfig, epName: string, epName': string)
    requires epName != epName'
    ensures var events := Forgotten(c, epName) + [Creation(c, epName')];
            Allowed(events) && !RegisteredRoutable(Run(events))
  {
    ForgottenIsAllowed(c, epName);
    AllowedNext(Forgotten(c, epName), Creation(c, epName'));
    StepKeepsRegisteredRoutableIff(Run(Forgotten(c, epName)), Creation(c, epName'));
  }

  lemma ForgottenAgrees(c: EndpointConfig, epName: string)
    ensures Agree(Run(Forgotten(c, epName)))
  {
    ForgottenIsAllowed(c, epName);
  }

  /** The first client of an idle endpoint is connected. */
  lemma FirstArrival(a: Agent, c: EndpointConfig, conn: Connection, epName: string)
    requires Idle(a, c, epName) && conn.networkService == c.networkService && Accepts(c, conn)
    ensures var b := Step(a, Arrival(conn, Ready));
            && Live(b, c.networkService, conn.id) && b.table[c.networkService].cfg == c
            && b.registry == a.registry && b.configured == a.configured && b.connected
    ensures RequestNamesKept(a, conn, Ready, Ready)
  {
    RequestOutcome(c, View(a, c.networkService), conn, Ready, Ready);
  }

  /** A client comes to the endpoint that was to be deleted, and is served. */
  lemma ServedAfterDeletion(c: EndpointConfig, conn: Connection, epName: string)
    requires conn.networkService == c.networkService && Accepts(c, conn)
    ensures var events := Forgotten(c, epName) + [Arrival(conn, Ready)];
            && Allowed(events) && Agree(Run(events)) && Live(Run(events), c.networkService, conn.id)
            && Run(events).connected && Run(events).configured == map[]
            && Run(events).registry == map[epName := c.networkService]
  {
    var events := Forgotten(c, epName);
    ForgottenIsAllowed(c, epName);
    ForgottenAgrees(c, epName);
    AllowedNext(events, Arrival(conn, Ready));
    FirstArrival(Run(events), c, conn, epName);
    RequestKeepsAgreementIff(Run(events), conn, Ready, Ready);
  }

  /** Creating the service again then leaves the interface of that client behind, too. */
  lemma RecreationOrphansInterface(c: EndpointConfig, conn: Connection, epName: string, epName': string)
    requires epName != epName' && conn.networkService == c.networkService && Accepts(c, conn)
    ensures var earlier := Forgotten(c, epName) + [Arrival(conn, Ready)];
            && Allowed(earlier + [Creation(c, epName')])
            && Agree(Run(earlier)) && !Agree(Run(earlier + [Creation(c, epName')]))
  {
    var earlier := Forgotten(c, epName) + [Arrival(conn, Ready)];
    ServedAfterDeletion(c, conn, epName);
    AllowedNext(earlier, Creation(c, epName'));
    RunKeepsInv(earlier);
    assert !NamesKept(Run(earlier), Creation(c, epName'));
    StepKeepsAgreementIff(Run(earlier), Creation(c, epName'));
  }

  // ---------- a memif client that comes back ----------

  /** A memif client asks again, and the directory is there for the disconnect only. */
  lemma LosingReconnect(a: Agent, c: EndpointConfig, conn: Connection)
    requires c.interfaceType == MemInterface && Accepts(c, conn)
    requires Live(a, conn.networkService, conn.id) && a.table[conn.networkService].cfg == c
    ensures !Live(Step(a, Arrival(conn, MkdirFails)), conn.networkService, conn.id)
  {
    var st := View(a, conn.networkService);
    RequestOutcome(c, st, conn, Ready, MkdirFails);
    FailedRequest(c, st, conn, Ready, MkdirFails);
  }

  /** A connected client asks again, and loses its connection. */
  lemma ReconnectLosesClient(c: EndpointConfig, conn: Connection, epName: string)
    requires c.interfaceType == MemInterface && conn.networkService == c.networkService && Accepts(c, conn)
    ensures var earlier := [Creation(c, epName)] + [Arrival(conn, Ready)];
            && Allowed(earlier + [Arrival(conn, MkdirFails)])
            && Live(Run(earlier), c.networkService, conn.id)
            && !Live(Run(earlier + [Arrival(conn, MkdirFails)]), c.networkService, conn.id)
  {
    var created := [Creation(c, epName)];
    var earlier := created + [Arrival(conn, Ready)];
    Created(c, epName);
    AllowedNext(created, Arrival(conn, Ready));
    FirstArrival(Run(created), c, conn, epName);
    AllowedNext(earlier, Arrival(conn, MkdirFails));
    LosingReconnect(Run(earlier), c, conn);
  }
}
