/**
 Endpoints in label mode: the interface suffix is recomputed from the labels of whatever message arrives. On an
 agent with endpoints of either mode the store agrees with the tables exactly as long as the clients of label-mode
 endpoints keep distinct and constant labels.
 */
module LabelMode {
  import opened Wrappers
  import opened Decimal
  import opened Endpoint
  import opened AgentState
  import opened Agreement
  import opened AgreementSteps
  import opened Separation

  function Suffix(cfg: EndpointConfig, conn: Connection): string {
    conn.Label(cfg.interfaceNameSuffixFromLabel)
  }

  /** Some client other than `id` is connected under this label value. */
  ghost predicate LabelTaken(entry: Entry, id: string, suffix: string) {
    exists id' :: id' in entry.conns && id' != id && Suffix(entry.cfg, entry.conns[id'].conn) == suffix
  }

  /** The client is not connected, or connected under the label value it now presents. */
  predicate SameLabel(entry: Entry, conn: Connection) {
    conn.id in entry.conns ==> Suffix(entry.cfg, entry.conns[conn.id].conn) == Suffix(entry.cfg, conn)
  }

  ghost predicate RequestKeepsLabels(entry: Entry, conn: Connection, wsClose: Workspace, wsOpen: Workspace) {
    && (Refused(entry.cfg, conn, wsClose).None? ==> SameLabel(entry, conn))
    && (Succeeds(entry.cfg, entry.conns, conn, wsClose, wsOpen) ==>
          !LabelTaken(entry, conn.id, Suffix(entry.cfg, conn)))
  }

  ghost predicate CloseKeepsLabels(entry: Entry, conn: Connection, ws: Workspace) {
    Refused(entry.cfg, conn, ws).None? ==>
      && SameLabel(entry, conn)
      && (conn.id !in entry.conns ==> !LabelTaken(entry, conn.id, Suffix(entry.cfg, conn)))
  }

  /** What clients of label-mode endpoints must see to; clients of index-mode endpoints need not care. */
  ghost predicate ClientsKeepLabels(a: Agent, e: Event) {
    match e
    case CreateEvent(_, _, _, _) => true
    case DeleteEvent(_, _, _, _, _) => true
    case RequestEvent(conn, wsClose, wsOpen) =>
      ToIndexMode(a, conn) || RequestKeepsLabels(a.table[conn.networkService], conn, wsClose, wsOpen)
    case CloseEvent(conn, ws) =>
      ToIndexMode(a, conn) || CloseKeepsLabels(a.table[conn.networkService], conn, ws)
  }

  /** Besides, no endpoint is registered over live connections. */
  ghost predicate LabelsKept(a: Agent, e: Event) {
    && (e.CreateEvent? ==> AddNamesKept(a, e.cfg, e.setup, e.registered))
    && ClientsKeepLabels(a, e)
  }

  lemma SameNameIffSameLabel(cfg: EndpointConfig, conn: Connection, i: nat, conn': Connection, i': nat)
    requires !cfg.IndexMode()
    ensures KeyFor(cfg, conn, i) == KeyFor(cfg, conn', i') <==> Suffix(cfg, conn) == Suffix(cfg, conn')
  {
    var p := cfg.interfaceNamePrefix;
    assert Suffix(cfg, conn) == KeyFor(cfg, conn, i).name[|p|..];
    assert Suffix(cfg, conn') == KeyFor(cfg, conn', i').name[|p|..];
  }

  lemma TakenIffLabelTaken(a: Agent, conn: Connection)
    requires AgentInv(a) && Separate(a) && !ToIndexMode(a, conn)
    ensures var n := conn.networkService;
            var cfg := a.table[n].cfg;
            TakenByOther(a, n, conn.id, KeyFor(cfg, conn, 0)) <==>
            LabelTaken(a.table[n], conn.id, Suffix(cfg, conn))
  {
    var n := conn.networkService;
    var entry := a.table[n];
    forall id | id in entry.conns
      ensures KeyOf(a, n, id) == KeyFor(entry.cfg, conn, 0) <==>
              Suffix(entry.cfg, entry.conns[id].conn) == Suffix(entry.cfg, conn)
    {
      SameNameIffSameLabel(entry.cfg, entry.conns[id].conn, entry.conns[id].index, conn, 0);
    }
    forall n', id' | Live(a, n', id') && n' != n ensures KeyOf(a, n', id') != KeyFor(entry.cfg, conn, 0) {
      OtherServicesDiffer(a, n, conn, 0, n', id');
    }
    if LabelTaken(entry, conn.id, Suffix(entry.cfg, conn)) {
      var id :| && id in entry.conns && id != conn.id
                && Suffix(entry.cfg, entry.conns[id].conn) == Suffix(entry.cfg, conn);
      assert Live(a, n, id);
    }
  }

  lemma OwnNameIffSameLabel(a: Agent, conn: Connection)
    requires !ToIndexMode(a, conn)
    ensures var n := conn.networkService;
            && ClosingKey(a, n, conn) == OpeningKey(a, n, conn) == KeyFor(a.table[n].cfg, conn, 0)
            && (Live(a, n, conn.id) ==>
                  (ClosingKey(a, n, conn) == KeyOf(a, n, conn.id) <==> SameLabel(a.table[n], conn)))
  {
    var n := conn.networkService;
    if Live(a, n, conn.id) {
      var held := a.table[n].conns[conn.id];
      SameNameIffSameLabel(a.table[n].cfg, held.conn, held.index, conn, 0);
    }
  }

  lemma RequestNamesAreLabels(a: Agent, conn: Connection, wsClose: Workspace, wsOpen: Workspace)
    requires AgentInv(a) && Separate(a) && !ToIndexMode(a, conn)
    ensures RequestNamesKept(a, conn, wsClose, wsOpen) <==>
            RequestKeepsLabels(a.table[conn.networkService], conn, wsClose, wsOpen)
  {
    OwnNameIffSameLabel(a, conn);
    TakenIffLabelTaken(a, conn);
  }

  lemma CloseNamesAreLabels(a: Agent, conn: Connection, ws: Workspace)
    requires AgentInv(a) && Separate(a) && !ToIndexMode(a, conn)
    ensures CloseNamesKept(a, conn, ws) <==> CloseKeepsLabels(a.table[conn.networkService], conn, ws)
  {
    var n := conn.networkService;
    OwnNameIffSameLabel(a, conn);
    TakenIffLabelTaken(a, conn);
    if !Live(a, n, conn.id) {
      NotLiveTaken(a, n, conn.id, ClosingKey(a, n, conn));
    }
  }

  /** Among separated endpoints, respecting the names in use means exactly keeping labels constant and distinct. */
  lemma NamesAreLabels(a: Agent, e: Event)
    requires AgentInv(a) && Separate(a)
    ensures NamesKept(a, e) <==> LabelsKept(a, e)
  {
    match e
    case CreateEvent(_, _, _, _) =>
    case DeleteEvent(_, _, _, _, _) =>
    case RequestEvent(conn, wsClose, wsOpen) =>
      if ToIndexMode(a, conn) {
        RequestNamesAreFresh(a, conn, wsClose, wsOpen);
      } else {
        RequestNamesAreLabels(a, conn, wsClose, wsOpen);
      }
    case CloseEvent(conn, ws) =>
      if ToIndexMode(a, conn) {
        CloseNamesAreOwn(a, conn, ws);
      } else {
        CloseNamesAreLabels(a, conn, ws);
      }
  }

  ghost predicate LabelsKeptThroughout(events: seq<Event>) {
    forall i :: 0 <= i < |events| ==> LabelsKept(Before(events, i), events[i])
  }

  /** The store holds the interfaces of the live connections: prefix + index in index mode, else prefix + label. */
  ghost predicate StoreIsNamed(a: Agent) {
    forall k :: k in a.store <==>
      exists n, id :: Live(a, n, id) &&
        var cfg, c := a.table[n].cfg, a.table[n].conns[id];
        k == InterfaceKey(if cfg.interfaceType == MemInterface then VppBackend else LinuxBackend,
                          cfg.interfaceNamePrefix + if cfg.IndexMode() then Itoa(c.index) else Suffix(cfg, c.conn))
  }

  lemma AgreeingStoreIsNamed(a: Agent)
    requires Agree(a)
    ensures StoreIsNamed(a)
  {
    assert forall n, id :: Live(a, n, id) ==>
             var cfg, c := a.table[n].cfg, a.table[n].conns[id];
             KeyOf(a, n, id) == InterfaceKey(if cfg.interfaceType == MemInterface then VppBackend else LinuxBackend,
                                             cfg.interfaceNamePrefix +
                                             if cfg.IndexMode() then Itoa(c.index) else Suffix(cfg, c.conn));
    forall k ensures k in a.store <==> Taken(a, k) {
    }
  }

  /** At every moment the store is named after the live connections, and its interfaces are exactly theirs. */
  ghost predicate StoreExactThroughout(events: seq<Event>) {
    forall i :: 0 <= i <= |events| ==> StoreIsNamed(Before(events, i)) && StoreIsExact(Before(events, i))
  }

  lemma AgreeingMoment(events: seq<Event>, i: nat)
    requires i <= |events| && Agree(Before(events, i))
    ensures StoreIsNamed(Before(events, i)) && StoreIsExact(Before(events, i))
  {
    RunKeepsInv(events[..i]);
    AgreeingStoreIsNamed(Before(events, i));
    AgreeingStoreIsExact(Before(events, i));
  }

  /**
   Agreement with endpoints of both modes: over any run of pairwise separated endpoints, store and tables agree at
   every moment if and only if every step keeps the labels; then the store holds exactly the interfaces of the live
   connections, with backend, name, host name and addresses by type, mode and configuration.
   */
  lemma MixedModeAgreement(events: seq<Event>, cfgs: set<EndpointConfig>)
    requires PossibleRun(events) && CreatesFrom(events, cfgs) && SeparateConfigs(cfgs)
    ensures (forall i :: 0 <= i <= |events| ==> Agree(Before(events, i))) <==> LabelsKeptThroughout(events)
    ensures LabelsKeptThroughout(events) ==> StoreExactThroughout(events)
  {
    AgreementLaw(events);
    forall i | 0 <= i < |events|
      ensures NamesKept(Before(events, i), events[i]) <==> LabelsKept(Before(events, i), events[i])
    {
      SeparateAtAllTimes(events, cfgs, i);
      NamesAreLabels(Before(events, i), events[i]);
    }
    forall i | 0 <= i <= |events| && Agree(Before(events, i))
      ensures StoreIsNamed(Before(events, i)) && StoreIsExact(Before(events, i))
    {
      AgreeingMoment(events, i);
    }
  }

  /** In particular, for a single endpoint in label mode nothing but labels matters. */
  lemma LabelModeAgreement(events: seq<Event>, c: EndpointConfig)
    requires PossibleRun(events) && CreatesFrom(events, {c}) && !c.IndexMode()
    ensures (forall i :: 0 <= i <= |events| ==> Agree(Before(events, i))) <==> LabelsKeptThroughout(events)
    ensures LabelsKeptThroughout(events) ==> StoreExactThroughout(events)
  {
    MixedModeAgreement(events, {c});
  }

  // ---------- runs that show both conditions are needed ----------

  const ENDPOINT := EndpointConfig("svc", [], false, "conn-", "app", KernelInterface, [], "")

  function Client(id: string, app: string): Connection {
    Connection(id, "svc", map["app" := app], "")
  }

  const START := [Creation(ENDPOINT, "nse"), RequestEvent(Client("a", "nat"), Ready, Ready)]

  lemma Announced()
    ensures var a := Before(START, 1);
            && a.table == map["svc" := Entry("nse", ENDPOINT, map[])]
            && Possible(INITIAL, START[0]) && Before(START, 0) == INITIAL && Agree(a)
  {
    assert START[..1] == [START[0]] && START[..1][..0] == [] && START[..0] == [];
    assert Run([]) == INITIAL;
    BeforeStep(START, 0);
  }

  lemma FirstClient(a: Agent)
    requires a.table == map["svc" := Entry("nse", ENDPOINT, map[])]
    ensures RouteRequest(a, Client("a", "nat"), Ready, Ready).0.table ==
            map["svc" := Entry("nse", ENDPOINT, map["a" := NsmConnection(0, Client("a", "nat"))])]
  {
  }

  lemma StartState()
    ensures PossibleRun(START) && Agree(Run(START))
    ensures Run(START).table == map["svc" := Entry("nse", ENDPOINT, map["a" := NsmConnection(0, Client("a", "nat"))])]
  {
    Announced();
    var a := Before(START, 1);
    BeforeStep(START, 1);
    assert START[..2] == START;
    FirstClient(a);
    RequestKeepsAgreementIff(a, Client("a", "nat"), Ready, Ready);
  }

  /** A run that the surroundings allow and after which store and tables disagree. */
  ghost predicate Breaks(events: seq<Event>) {
    PossibleRun(events) && !Agree(Run(events))
  }

  lemma CarelessStepBreaks(e: Event)
    requires Possible(Run(START), e) && !LabelsKept(Run(START), e)
    ensures Breaks(START + [e])
  {
    StartState();
    RunKeepsInv(START);
    PossibleNext(START, e);
    NamesAreLabels(Run(START), e);
    StepKeepsAgreementIff(Run(START), e);
  }

  /** One client is connected. */
  ghost predicate Serves(a: Agent, id: string, app: string) {
    && "svc" in a.table && a.table["svc"].cfg == ENDPOINT
    && a.table["svc"].conns == map[id := NsmConnection(0, Client(id, app))]
  }

  lemma SameLabelIsCareless(a: Agent, id: string, id': string, app: string)
    requires Serves(a, id, app) && id != id'
    ensures !LabelsKept(a, RequestEvent(Client(id', app), Ready, Ready))
  {
    assert id in a.table["svc"].conns;
    assert LabelTaken(a.table["svc"], id', Suffix(ENDPOINT, Client(id', app)));
  }

  lemma OtherLabelIsCareless(a: Agent, id: string, app: string, app': string)
    requires Serves(a, id, app) && app != app'
    ensures !LabelsKept(a, RequestEvent(Client(id, app'), Ready, Ready))
    ensures !LabelsKept(a, CloseEvent(Client(id, app'), Ready))
  {
    assert !SameLabel(a.table["svc"], Client(id, app'));
  }

  /** A second client with the same label, and a client that comes back or closes under another label. */
  lemma LabelsMustBeDistinctAndConstant()
    ensures Breaks(START + [RequestEvent(Client("b", "nat"), Ready, Ready)])
    ensures Breaks(START + [RequestEvent(Client("a", "dns"), Ready, Ready)])
    ensures Breaks(START + [CloseEvent(Client("a", "dns"), Ready)])
  {
    StartState();
    SameLabelIsCareless(Run(START), "a", "b", "nat");
    OtherLabelIsCareless(Run(START), "a", "nat", "dns");
    CarelessStepBreaks(RequestEvent(Client("b", "nat"), Ready, Ready));
    CarelessStepBreaks(RequestEvent(Client("a", "dns"), Ready, Ready));
    CarelessStepBreaks(CloseEvent(Client("a", "dns"), Ready));
  }
}
