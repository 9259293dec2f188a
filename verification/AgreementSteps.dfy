/**
 For each kind of step, and for whole runs, the exact condition under which the interface store keeps agreeing
 with the connection tables.
 */
module AgreementSteps {
  import opened Wrappers
  import opened Endpoint
  import opened AgentState
  import opened Agreement

  lemma WithView(a: Agent, n: string)
    requires n in a.table
    ensures With(a, n, View(a, n)) == a
  {
  }

  lemma WithTwice(a: Agent, n: string, s: EpState, t: EpState)
    requires n in a.table
    ensures With(With(a, n, s), n, t) == With(a, n, t)
  {
  }

  /** Agreement depends on the tables and the store alone. */
  lemma AgreeDepends(a: Agent, b: Agent)
    requires a.table == b.table && a.store == b.store
    ensures Agree(a) <==> Agree(b)
  {
    assert forall n, id :: Live(a, n, id) <==> Live(b, n, id);
    assert forall k :: Taken(a, k) <==> Taken(b, k);
  }

  // ---------- closing one connection ----------

  /** The interface that closing `conn` would delete. */
  function ClosingKey(a: Agent, n: string, conn: Connection): InterfaceKey
    requires n in a.table
  {
    KeyFor(a.table[n].cfg, conn, IndexFor(a.table[n].cfg, a.table[n].conns, conn))
  }

  ghost predicate CloseNamesKept(a: Agent, conn: Connection, ws: Workspace) {
    var n := conn.networkService;
    n in a.table && Refused(a.table[n].cfg, conn, ws).None? ==> DropsOwn(a, n, conn.id, ClosingKey(a, n, conn))
  }

  lemma RouteCloseIsDrop(a: Agent, conn: Connection, ws: Workspace)
    ensures var n := conn.networkService;
            RouteClose(a, conn, ws).0 ==
            if n in a.table && Refused(a.table[n].cfg, conn, ws).None?
            then Drop(a, n, conn.id, ClosingKey(a, n, conn)) else a
  {
    if conn.networkService in a.table {
      WithView(a, conn.networkService);
    }
  }

  lemma CloseKeepsAgreementIff(a: Agent, conn: Connection, ws: Workspace)
    requires Agree(a)
    ensures Agree(RouteClose(a, conn, ws).0) <==> CloseNamesKept(a, conn, ws)
  {
    var n := conn.networkService;
    RouteCloseIsDrop(a, conn, ws);
    if n in a.table && Refused(a.table[n].cfg, conn, ws).None? {
      if DropsOwn(a, n, conn.id, ClosingKey(a, n, conn)) {
        DropKeeps(a, n, conn.id, ClosingKey(a, n, conn));
      } else {
        DropBreaks(a, n, conn.id, ClosingKey(a, n, conn));
      }
    }
  }

  // ---------- a connection request ----------

  /** The interface that a successful request by `conn` writes. */
  function OpeningKey(a: Agent, n: string, conn: Connection): InterfaceKey
    requires n in a.table
  {
    KeyFor(a.table[n].cfg, conn, RequestIndex(a.table[n].cfg, a.table[n].conns, conn))
  }

  /** A reconnecting client asks under the name it is connected with, and the new name is no other client's. */
  ghost predicate RequestNamesKept(a: Agent, conn: Connection, wsClose: Workspace, wsOpen: Workspace) {
    var n := conn.networkService;
    n in a.table ==>
      var entry := a.table[n];
      && (Live(a, n, conn.id) && Refused(entry.cfg, conn, wsClose).None? ==>
            ClosingKey(a, n, conn) == KeyOf(a, n, conn.id))
      && (Succeeds(entry.cfg, entry.conns, conn, wsClose, wsOpen) ==>
            !TakenByOther(a, n, conn.id, OpeningKey(a, n, conn)))
  }

  /** A request is a drop, if the client is connected, followed by a put, if the request succeeds. */
  lemma RouteRequestIsDropAndPut(a: Agent, conn: Connection, wsClose: Workspace, wsOpen: Workspace)
    requires conn.networkService in a.table
    ensures var n := conn.networkService;
            var entry := a.table[n];
            var mid := if Live(a, n, conn.id) && Refused(entry.cfg, conn, wsClose).None?
                       then Drop(a, n, conn.id, ClosingKey(a, n, conn)) else a;
            RouteRequest(a, conn, wsClose, wsOpen).0 ==
            if Succeeds(entry.cfg, entry.conns, conn, wsClose, wsOpen)
            then Put(mid, n, conn, RequestIndex(entry.cfg, entry.conns, conn)) else mid
  {
    var n := conn.networkService;
    var entry := a.table[n];
    WithView(a, n);
    RequestOutcome(entry.cfg, View(a, n), conn, wsClose, wsOpen);
    if Succeeds(entry.cfg, entry.conns, conn, wsClose, wsOpen) {
      SuccessIsDropAndPut(a, conn, wsClose, wsOpen);
    } else {
      FailedRequest(entry.cfg, View(a, n), conn, wsClose, wsOpen);
    }
  }

  lemma SuccessIsDropAndPut(a: Agent, conn: Connection, wsClose: Workspace, wsOpen: Workspace)
    requires conn.networkService in a.table
    requires var entry := a.table[conn.networkService]; Succeeds(entry.cfg, entry.conns, conn, wsClose, wsOpen)
    ensures var n := conn.networkService;
            var mid := if Live(a, n, conn.id) then Drop(a, n, conn.id, ClosingKey(a, n, conn)) else a;
            RouteRequest(a, conn, wsClose, wsOpen).0 ==
            Put(mid, n, conn, RequestIndex(a.table[n].cfg, a.table[n].conns, conn))
  {
    var n := conn.networkService;
    var entry := a.table[n];
    var index := RequestIndex(entry.cfg, entry.conns, conn);
    RequestOutcome(entry.cfg, View(a, n), conn, wsClose, wsOpen);
    RequestStore(entry.cfg, View(a, n), conn, wsClose, wsOpen);
    NoOthers(entry.conns, conn.id);
    var iface := InterfaceFor(entry.cfg, conn, index);
    var c := NsmConnection(index, conn);
    if Live(a, n, conn.id) {
      var k := ClosingKey(a, n, conn);
      var dropped := EpState(entry.conns - {conn.id}, a.store - {k});
      WithTwice(a, n, dropped, EpState(dropped.conns[conn.id := c], dropped.store[iface.key := iface]));
    }
  }

  lemma DroppedConnection(a: Agent, n: string, id: string, k: InterfaceKey)
    requires n in a.table
    ensures !Live(Drop(a, n, id, k), n, id)
    ensures Drop(a, n, id, k).table[n].cfg == a.table[n].cfg
  {
  }

  /** An interface without a connection. */
  ghost predicate Orphan(a: Agent, k: InterfaceKey) {
    k in a.store && !Taken(a, k)
  }

  lemma OrphanSurvivesPut(a: Agent, n: string, conn: Connection, index: nat, k: InterfaceKey)
    requires n in a.table && !Live(a, n, conn.id) && Orphan(a, k)
    requires k != KeyFor(a.table[n].cfg, conn, index)
    ensures Orphan(Put(a, n, conn, index), k)
  {
    var b := Put(a, n, conn, index);
    if Taken(b, k) {
      var n', id' :| Live(b, n', id') && KeyOf(b, n', id') == k;
      PutLive(a, n, conn, index, n', id');
    }
  }

  lemma ReconnectKeepsAgreementIff(a: Agent, conn: Connection, wsClose: Workspace, wsOpen: Workspace)
    requires Agree(a) && Live(a, conn.networkService, conn.id)
    requires Refused(a.table[conn.networkService].cfg, conn, wsClose).None?
    ensures Agree(RouteRequest(a, conn, wsClose, wsOpen).0) <==> RequestNamesKept(a, conn, wsClose, wsOpen)
  {
    var n := conn.networkService;
    var entry := a.table[n];
    var k, k' := ClosingKey(a, n, conn), OpeningKey(a, n, conn);
    var mid := Drop(a, n, conn.id, k);
    RouteRequestIsDropAndPut(a, conn, wsClose, wsOpen);
    DroppedConnection(a, n, conn.id, k);
    var index := RequestIndex(entry.cfg, entry.conns, conn);
    if k == KeyOf(a, n, conn.id) {
      DropKeeps(a, n, conn.id, k);
      DropTaken(a, n, conn.id, k, k');
      PutIff(mid, n, conn, index);
    } else {
      DropBreaks(a, n, conn.id, k);
      assert Orphan(mid, KeyOf(a, n, conn.id));
      assert !entry.cfg.IndexMode();
      OrphanSurvivesPut(mid, n, conn, index, KeyOf(a, n, conn.id));
    }
  }

  lemma FirstRequestKeepsAgreementIff(a: Agent, conn: Connection, wsClose: Workspace, wsOpen: Workspace)
    requires Agree(a) && conn.networkService in a.table && !Live(a, conn.networkService, conn.id)
    ensures Agree(RouteRequest(a, conn, wsClose, wsOpen).0) <==> RequestNamesKept(a, conn, wsClose, wsOpen)
  {
    var n := conn.networkService;
    var entry := a.table[n];
    RouteRequestIsDropAndPut(a, conn, wsClose, wsOpen);
    PutIff(a, n, conn, RequestIndex(entry.cfg, entry.conns, conn));
    assert TakenByOther(a, n, conn.id, OpeningKey(a, n, conn)) <==> Taken(a, OpeningKey(a, n, conn));
  }

  lemma RequestKeepsAgreementIff(a: Agent, conn: Connection, wsClose: Workspace, wsOpen: Workspace)
    requires Agree(a)
    ensures Agree(RouteRequest(a, conn, wsClose, wsOpen).0) <==> RequestNamesKept(a, conn, wsClose, wsOpen)
  {
    var n := conn.networkService;
    if n in a.table {
      if !Live(a, n, conn.id) {
        FirstRequestKeepsAgreementIff(a, conn, wsClose, wsOpen);
      } else if Refused(a.table[n].cfg, conn, wsClose).None? {
        ReconnectKeepsAgreementIff(a, conn, wsClose, wsOpen);
      } else {
        WithView(a, n);
      }
    }
  }

  // ---------- deleting an endpoint ----------

  /** Closing all connections of an endpoint, as far as it gets, keeps agreement: each deletes its own interface. */
  lemma {:induction false} CloseAllKeepsAgreement(
    a: Agent, n: string, order: seq<string>, ws: string -> Workspace)
    requires Agree(a) && n in a.table && Inv(a.table[n].cfg, a.table[n].conns)
    ensures Agree(With(a, n, CloseAll(a.table[n].cfg, View(a, n), order, ws).0))
    decreases |order|
  {
    var entry, st := a.table[n], View(a, n);
    WithView(a, n);
    if order == [] {
    } else if order[0] !in entry.conns {
      CloseAllKeepsAgreement(a, n, order[1..], ws);
    } else {
      var id := order[0];
      var conn := entry.conns[id].conn;
      CloseStored(entry.cfg, st, id, ws(id));
      if Refused(entry.cfg, conn, ws(id)).None? {
        var next := Drop(a, n, id, KeyOf(a, n, id));
        assert Live(a, n, id);
        DropKeeps(a, n, id, KeyOf(a, n, id));
        CloseConnectionKeepsInv(entry.cfg, st, conn, ws(id));
        CloseAllKeepsAgreement(next, n, order[1..], ws);
        WithTwice(a, n, View(next, n), CloseAll(entry.cfg, View(next, n), order[1..], ws).0);
      }
    }
  }

  /** Removing an entry without connections changes nothing that agreement looks at. */
  lemma RemoveIdleEntry(a: Agent, n: string)
    requires Agree(a) && n in a.table && a.table[n].conns == map[]
    ensures Agree(a.(table := a.table - {n}))
  {
    var b := a.(table := a.table - {n});
    assert forall n', id :: Live(a, n', id) ==> Live(b, n', id);
    assert forall n', id :: Live(b, n', id) ==>
             && Live(a, n', id) && KeyOf(b, n', id) == KeyOf(a, n', id)
             && InterfaceOf(b, n', id) == InterfaceOf(a, n', id);
    forall k | k in b.store ensures Taken(b, k) {
      var n', id :| Live(a, n', id) && KeyOf(a, n', id) == k;
      assert Live(b, n', id);
    }
  }

  lemma DeleteKeepsAgreement(a: Agent, n: string, order: seq<string>, ws: string -> Workspace, removed: bool)
    requires AgentInv(a) && Agree(a)
    requires n in a.table ==> Enumerates(order, a.table[n].conns)
    ensures Agree(DeleteEndpoint(a, n, order, ws, removed).0)
  {
    if n in a.table {
      var entry := a.table[n];
      var (st, err) := CloseAll(entry.cfg, View(a, n), order, ws);
      CloseAllKeepsAgreement(a, n, order, ws);
      if err.None? {
        CloseAllSucceeds(entry.cfg, View(a, n), order, ws);
        var closed := With(a, n, st);
        RemoveIdleEntry(closed, n);
        if removed {
          AgreeDepends(closed.(table := closed.table - {n}), DeleteEndpoint(a, n, order, ws, removed).0);
        }
      }
    }
  }

  // ---------- adding an endpoint ----------

  /** No live connection is lost by the table entry that a successful registration writes. */
  predicate AddNamesKept(a: Agent, cfg: EndpointConfig, setup: Setup, registered: Option<string>) {
    Registers(a, setup, registered) && cfg.networkService in a.table ==>
      a.table[cfg.networkService].conns == map[]
  }

  /** The table after a successful registration. */
  function Entered(a: Agent, n: string, entry: Entry): Agent {
    a.(table := a.table[n := entry])
  }

  lemma EnteredLive(a: Agent, n: string, entry: Entry, n': string, id: string)
    requires entry.conns == map[]
    ensures Live(Entered(a, n, entry), n', id) <==> Live(a, n', id) && n' != n
    ensures Live(Entered(a, n, entry), n', id) ==>
              KeyOf(Entered(a, n, entry), n', id) == KeyOf(a, n', id) &&
              InterfaceOf(Entered(a, n, entry), n', id) == InterfaceOf(a, n', id)
  {
  }

  lemma EnteringKeeps(a: Agent, n: string, entry: Entry)
    requires Agree(a) && entry.conns == map[]
    requires n in a.table ==> a.table[n].conns == map[]
    ensures Agree(Entered(a, n, entry))
  {
    var b := Entered(a, n, entry);
    forall n', id ensures (Live(b, n', id) <==> Live(a, n', id)) &&
        (Live(b, n', id) ==> KeyOf(b, n', id) == KeyOf(a, n', id) && InterfaceOf(b, n', id) == InterfaceOf(a, n', id))
    {
      EnteredLive(a, n, entry, n', id);
    }
    forall k | k in b.store ensures Taken(b, k) {
      var n', id :| Live(a, n', id) && KeyOf(a, n', id) == k;
      assert Live(b, n', id) && KeyOf(b, n', id) == k;
    }
  }

  lemma EnteringBreaks(a: Agent, n: string, entry: Entry)
    requires Agree(a) && entry.conns == map[]
    requires n in a.table && a.table[n].conns != map[]
    ensures !Agree(Entered(a, n, entry))
  {
    var b := Entered(a, n, entry);
    assert a.table[n].conns.Keys != {};
    var id :| id in a.table[n].conns;
    assert Live(a, n, id);
    var k := KeyOf(a, n, id);
    forall n', id' | Live(b, n', id') ensures KeyOf(b, n', id') != k {
      EnteredLive(a, n, entry, n', id');
    }
    assert Orphan(b, k);
  }

  lemma AddKeepsAgreementIff(a: Agent, cfg: EndpointConfig, setup: Setup, registered: Option<string>)
    requires Agree(a)
    ensures Agree(AddEndpoint(a, cfg, setup, registered).0) <==> AddNamesKept(a, cfg, setup, registered)
  {
    var n := cfg.networkService;
    var b := AddEndpoint(a, cfg, setup, registered).0;
    if AddEndpoint(a, cfg, setup, registered).1.Some? {
      AgreeDepends(a, b);
    } else {
      var entry := Entry(registered.value, cfg, map[]);
      AgreeDepends(Entered(a, n, entry), b);
      if n in a.table && a.table[n].conns != map[] {
        EnteringBreaks(a, n, entry);
      } else {
        EnteringKeeps(a, n, entry);
      }
    }
  }

  // ---------- steps and runs ----------

  /** What a caller must see to before a step. Deleting an endpoint needs nothing. */
  ghost predicate NamesKept(a: Agent, e: Event) {
    match e
    case CreateEvent(cfg, setup, registered, _) => AddNamesKept(a, cfg, setup, registered)
    case DeleteEvent(_, _, _, _, _) => true
    case RequestEvent(conn, wsClose, wsOpen) => RequestNamesKept(a, conn, wsClose, wsOpen)
    case CloseEvent(conn, ws) => CloseNamesKept(a, conn, ws)
  }

  /** The step law: from agreement a step leads to agreement exactly if it respects the names in use. */
  lemma StepKeepsAgreementIff(a: Agent, e: Event)
    requires AgentInv(a) && Agree(a) && Possible(a, e)
    ensures Agree(Step(a, e)) <==> NamesKept(a, e)
  {
    match e
    case CreateEvent(cfg, setup, registered, _) =>
      AddKeepsAgreementIff(a, cfg, setup, registered);
      AgreeDepends(AddEndpoint(a, cfg, setup, registered).0, Step(a, e));
    case DeleteEvent(cfg, order, ws, removed, _) =>
      DeleteKeepsAgreement(a, cfg.networkService, order, ws, removed);
      AgreeDepends(DeleteEndpoint(a, cfg.networkService, order, ws, removed).0, Step(a, e));
    case RequestEvent(conn, wsClose, wsOpen) =>
      RequestKeepsAgreementIff(a, conn, wsClose, wsOpen);
    case CloseEvent(conn, ws) =>
      CloseKeepsAgreementIff(a, conn, ws);
  }

  ghost predicate AgreesThroughout(events: seq<Event>, i: nat)
    requires i <= |events|
  {
    forall j :: 0 <= j <= i ==> Agree(Before(events, j))
  }

  ghost predicate NamesKeptThroughout(events: seq<Event>, i: nat)
    requires i <= |events|
  {
    forall j :: 0 <= j < i ==> NamesKept(Before(events, j), events[j])
  }

  lemma AgreesNext(events: seq<Event>, i: nat)
    requires i < |events|
    ensures AgreesThroughout(events, i + 1) <==> AgreesThroughout(events, i) && Agree(Before(events, i + 1))
    ensures NamesKeptThroughout(events, i + 1) <==>
            NamesKeptThroughout(events, i) && NamesKept(Before(events, i), events[i])
    ensures AgreesThroughout(events, i) ==> Agree(Before(events, i))
  {
  }

  lemma AgreementMoment(events: seq<Event>, i: nat)
    requires i < |events| && PossibleRun(events) && Agree(Before(events, i))
    ensures Agree(Before(events, i + 1)) <==> NamesKept(Before(events, i), events[i])
  {
    BeforeStep(events, i);
    RunKeepsInv(events[..i]);
    StepKeepsAgreementIff(Before(events, i), events[i]);
  }

  lemma InitiallyAgree()
    ensures Agree(INITIAL)
  {
  }

  lemma {:induction false} AgreementUpTo(events: seq<Event>, i: nat)
    requires i <= |events| && PossibleRun(events)
    ensures AgreesThroughout(events, i) <==> NamesKeptThroughout(events, i)
  {
    if i == 0 {
      InitiallyAgree();
      assert Before(events, 0) == INITIAL;
    } else {
      AgreementUpTo(events, i - 1);
      AgreesNext(events, i - 1);
      if AgreesThroughout(events, i - 1) {
        AgreementMoment(events, i - 1);
      }
    }
  }

  /**
   The agreement law, for every run in either naming mode and with any failures: the store agrees with the
   tables at every moment if and only if every step respects the names in use.
   */
  lemma AgreementLaw(events: seq<Event>)
    requires PossibleRun(events)
    ensures (forall i :: 0 <= i <= |events| ==> Agree(Before(events, i))) <==>
            (forall i :: 0 <= i < |events| ==> NamesKept(Before(events, i), events[i]))
  {
    AgreementUpTo(events, |events|);
  }
}
