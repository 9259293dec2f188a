/**
 The whole agent as a value: the demultiplexer's table of endpoints, the registry of the network service mesh,
 the interface store, and the published notifications. Every operation runs under one lock, so a run is a
 sequence of steps. Outcomes the program does not control are part of the step.
 */
module AgentState {
  import opened Wrappers
  import opened Endpoint
  import NotificationKeys

  /** An endpoint in the demultiplexer's table: its registered name, and the endpoint itself. */
  datatype Entry = Entry(epName: string, cfg: EndpointConfig, conns: Connections)

  /**
   `registry` maps a registered endpoint name to its service. `configured` is what the scheduler has created
   and not yet deleted.
   */
  datatype Agent = Agent(
    connected: bool,
    table: map<string, Entry>,
    registry: map<string, string>,
    store: Store,
    configured: map<string, EndpointConfig>,
    published: set<string>)

  const INITIAL := Agent(false, map[], map[], map[], map[], {})

  /** How the one-time connection to the mesh goes. */
  datatype Setup = SetupOk | ConnectFails | InitFails | SocketCleanupFails | ListenFails

  // ---------- the demultiplexer ----------

  /** `registered` is the name the registry answers with, if it accepts. */
  function AddEndpoint(a: Agent, cfg: EndpointConfig, setup: Setup, registered: Option<string>)
    : (Agent, Option<Error>)
  {
    if !a.connected && setup != SetupOk then (a, Some(SetupFailed))
    else
      match registered
      case None => (a.(connected := true), Some(RegistrationFailed))
      case Some(epName) =>
        (a.(connected := true,
            registry := a.registry[epName := cfg.networkService],
            table := a.table[cfg.networkService := Entry(epName, cfg, map[])]), None)
  }

  /** A registration gets through: the agent is connected or can be, and the registry accepts. */
  predicate Registers(a: Agent, setup: Setup, registered: Option<string>) {
    (a.connected || setup == SetupOk) && registered.Some?
  }

  function View(a: Agent, service: string): EpState
    requires service in a.table
  {
    EpState(a.table[service].conns, a.store)
  }

  /** `a` with the connections of one endpoint, and the store, replaced. */
  function With(a: Agent, service: string, st: EpState): Agent
    requires service in a.table
  {
    a.(table := a.table[service := a.table[service].(conns := st.conns)], store := st.store)
  }

  function DeleteEndpoint(a: Agent, service: string, order: seq<string>, ws: string -> Workspace, removed: bool)
    : (Agent, Option<Error>)
  {
    if service !in a.table then (a, Some(NoSuchService))
    else
      var entry := a.table[service];
      var (st, err) := CloseAll(entry.cfg, View(a, service), order, ws);
      var closed := With(a, service, st);
      if err.Some? then (closed, err)
      else if !removed then (closed, Some(RemovalFailed))
      else (closed.(registry := a.registry - {entry.epName}, table := closed.table - {service}), None)
  }

  function RouteRequest(a: Agent, conn: Connection, wsClose: Workspace, wsOpen: Workspace): (Agent, Option<Error>) {
    var service := conn.networkService;
    if service !in a.table then (a, Some(NoSuchService))
    else
      var (st, err) := Request(a.table[service].cfg, View(a, service), conn, wsClose, wsOpen);
      (With(a, service, st), err)
  }

  function RouteClose(a: Agent, conn: Connection, ws: Workspace): (Agent, Option<Error>) {
    var service := conn.networkService;
    if service !in a.table then (a, Some(NoSuchService))
    else
      var (st, err) := CloseConnection(a.table[service].cfg, View(a, service), conn, ws);
      (With(a, service, st), err)
  }

  // ---------- the descriptor ----------

  /** The notifications that announce an endpoint. */
  function Notifications(cfg: EndpointConfig): set<string> {
    set l | l in cfg.advertisedLabels :: NotificationKeys.Key(cfg.networkService, l.key, l.value)
  }

  /** The key that announces label `i` of an endpoint. */
  function LabelKey(cfg: EndpointConfig, i: nat): string
    requires i < |cfg.advertisedLabels|
  {
    NotificationKeys.Key(cfg.networkService, cfg.advertisedLabels[i].key, cfg.advertisedLabels[i].value)
  }

  /** The keys of those labels, by position, for which the publisher does what it is asked. */
  function Effective(cfg: EndpointConfig, works: nat -> bool): set<string> {
    set i: nat | i < |cfg.advertisedLabels| && works(i) :: LabelKey(cfg, i)
  }

  /** `put` says for each label whether its publication succeeds; without a publisher none does. */
  function Create(a: Agent, cfg: EndpointConfig, setup: Setup, registered: Option<string>, put: nat -> bool)
    : (Agent, Option<Error>)
  {
    var (b, err) := AddEndpoint(a, cfg, setup, registered);
    if err.Some? then (b, err)
    else
      (b.(configured := b.configured[cfg.networkService := cfg],
          published := b.published + Effective(cfg, put)), None)
  }

  /** A failure to delete the endpoint is logged and otherwise ignored. */
  function Delete(a: Agent, cfg: EndpointConfig, order: seq<string>, ws: string -> Workspace, removed: bool,
                  unput: nat -> bool): Agent
  {
    var b := DeleteEndpoint(a, cfg.networkService, order, ws, removed).0;
    b.(configured := b.configured - {cfg.networkService},
       published := b.published - Effective(cfg, unput))
  }

  // ---------- runs ----------

  datatype Event =
    | CreateEvent(cfg: EndpointConfig, setup: Setup, registered: Option<string>, put: nat -> bool)
    | DeleteEvent(cfg: EndpointConfig, order: seq<string>, ws: string -> Workspace, removed: bool,
                  unput: nat -> bool)
    | RequestEvent(conn: Connection, wsClose: Workspace, wsOpen: Workspace)
    | CloseEvent(conn: Connection, wsClose: Workspace)

  /** A creation in which everything succeeds. */
  function Creation(c: EndpointConfig, epName: string): Event {
    CreateEvent(c, SetupOk, Some(epName), (_: nat) => true)
  }

  function Step(a: Agent, e: Event): Agent {
    match e
    case CreateEvent(cfg, setup, registered, put) => Create(a, cfg, setup, registered, put).0
    case DeleteEvent(cfg, order, ws, removed, unput) => Delete(a, cfg, order, ws, removed, unput)
    case RequestEvent(conn, wsClose, wsOpen) => RouteRequest(a, conn, wsClose, wsOpen).0
    case CloseEvent(conn, ws) => RouteClose(a, conn, ws).0
  }

  /** The state after all events of a run. */
  function Run(events: seq<Event>): Agent {
    if events == [] then INITIAL
    else Step(Run(events[..|events| - 1]), events[|events| - 1])
  }

  /** The state before event `i`, or the final one if `i` is the length of the run. */
  function Before(events: seq<Event>, i: nat): Agent
    requires i <= |events|
  {
    Run(events[..i])
  }

  lemma BeforeStep(events: seq<Event>, i: nat)
    requires i < |events|
    ensures Before(events, i + 1) == Step(Before(events, i), events[i])
  {
    assert events[..i + 1][..i] == events[..i];
  }

  /**
   What the surroundings guarantee of a step: ranging over a map visits each key once, and the registry
   never hands out a name that is still registered.
   */
  predicate Possible(a: Agent, e: Event) {
    match e
    case CreateEvent(_, _, registered, _) => registered.Some? ==> registered.value !in a.registry
    case DeleteEvent(cfg, order, _, _, _) =>
      cfg.networkService in a.table ==> Enumerates(order, a.table[cfg.networkService].conns)
    case RequestEvent(_, _, _) => true
    case CloseEvent(_, _) => true
  }

  ghost predicate PossibleRun(events: seq<Event>) {
    forall i :: 0 <= i < |events| ==> Possible(Before(events, i), events[i])
  }

  lemma RunNext(events: seq<Event>, e: Event)
    ensures Run(events + [e]) == Step(Run(events), e)
  {
  }

  lemma PossibleNext(events: seq<Event>, e: Event)
    requires PossibleRun(events) && Possible(Run(events), e)
    ensures PossibleRun(events + [e]) && Run(events + [e]) == Step(Run(events), e)
  {
    var longer := events + [e];
    forall i | 0 <= i < |longer| ensures Possible(Before(longer, i), longer[i]) {
      if i < |events| {
        assert longer[..i] == events[..i];
      } else {
        assert longer[..i] == events;
      }
    }
  }

  // ---------- what every run keeps ----------

  ghost predicate AgentInv(a: Agent) {
    && (a.table != map[] ==> a.connected)
    && forall n :: n in a.table ==> a.table[n].cfg.networkService == n && Inv(a.table[n].cfg, a.table[n].conns)
  }

  lemma WithKeepsInv(a: Agent, service: string, st: EpState)
    requires AgentInv(a) && service in a.table && Inv(a.table[service].cfg, st.conns)
    ensures AgentInv(With(a, service, st))
  {
  }

  lemma AddKeepsInv(a: Agent, cfg: EndpointConfig, setup: Setup, registered: Option<string>)
    requires AgentInv(a)
    ensures AgentInv(AddEndpoint(a, cfg, setup, registered).0)
  {
  }

  lemma DeleteKeepsInv(a: Agent, service: string, order: seq<string>, ws: string -> Workspace, removed: bool)
    requires AgentInv(a)
    ensures AgentInv(DeleteEndpoint(a, service, order, ws, removed).0)
  {
    if service in a.table {
      CloseAllKeepsInv(a.table[service].cfg, View(a, service), order, ws);
      WithKeepsInv(a, service, CloseAll(a.table[service].cfg, View(a, service), order, ws).0);
    }
  }

  /** `AgentInv` does not look at what the descriptor adds. */
  lemma InvIgnores(a: Agent, configured: map<string, EndpointConfig>, published: set<string>)
    requires AgentInv(a)
    ensures AgentInv(a.(configured := configured, published := published))
  {
  }

  lemma StepKeepsInv(a: Agent, e: Event)
    requires AgentInv(a)
    ensures AgentInv(Step(a, e))
  {
    match e
    case CreateEvent(cfg, setup, registered, _) =>
      AddKeepsInv(a, cfg, setup, registered);
      InvIgnores(AddEndpoint(a, cfg, setup, registered).0, Step(a, e).configured, Step(a, e).published);
    case DeleteEvent(cfg, order, ws, removed, _) =>
      DeleteKeepsInv(a, cfg.networkService, order, ws, removed);
      var b := DeleteEndpoint(a, cfg.networkService, order, ws, removed).0;
      InvIgnores(b, Step(a, e).configured, Step(a, e).published);
    case RequestEvent(conn, wsClose, wsOpen) =>
      var n := conn.networkService;
      if n in a.table {
        RequestKeepsInv(a.table[n].cfg, View(a, n), conn, wsClose, wsOpen);
        WithKeepsInv(a, n, Request(a.table[n].cfg, View(a, n), conn, wsClose, wsOpen).0);
      }
    case CloseEvent(conn, ws) =>
      var n := conn.networkService;
      if n in a.table {
        CloseConnectionKeepsInv(a.table[n].cfg, View(a, n), conn, ws);
        WithKeepsInv(a, n, CloseConnection(a.table[n].cfg, View(a, n), conn, ws).0);
      }
  }

  /**
   In every reachable state a single-client endpoint has at most one connection, live indices of an index-mode
   endpoint are pairwise distinct, every stored connection can be closed again, and whenever an endpoint is in
   the table the registry client is there to remove it.
   */
  lemma {:induction false} RunKeepsInv(events: seq<Event>)
    ensures AgentInv(Run(events))
  {
    if events == [] {
    } else {
      RunKeepsInv(events[..|events| - 1]);
      StepKeepsInv(Run(events[..|events| - 1]), events[|events| - 1]);
    }
  }

  // ---------- configurations ----------

  /** Only registration changes which configurations are in the table. */
  lemma ConfigsStay(a: Agent, e: Event, n: string)
    requires !e.CreateEvent? && n in Step(a, e).table
    ensures n in a.table && Step(a, e).table[n].cfg == a.table[n].cfg
  {
  }

  /** Only these endpoints are ever configured. */
  predicate CreatesFrom(events: seq<Event>, cfgs: set<EndpointConfig>) {
    forall i :: 0 <= i < |events| && events[i].CreateEvent? ==> events[i].cfg in cfgs
  }

  lemma {:induction false} ConfigsInTable(events: seq<Event>, cfgs: set<EndpointConfig>, i: nat)
    requires i <= |events| && CreatesFrom(events, cfgs)
    ensures forall n :: n in Before(events, i).table ==> Before(events, i).table[n].cfg in cfgs
  {
    if i == 0 {
      assert Before(events, 0) == INITIAL;
    } else {
      ConfigsInTable(events, cfgs, i - 1);
      BeforeStep(events, i - 1);
      var a, e := Before(events, i - 1), events[i - 1];
      if !e.CreateEvent? {
        forall n | n in Step(a, e).table ensures n in a.table && Step(a, e).table[n].cfg == a.table[n].cfg {
          ConfigsStay(a, e, n);
        }
      }
    }
  }
}
