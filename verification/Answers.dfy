/** What the agent answers: for every operation and every error, exactly when it is returned. */
module Answers {
  import opened Wrappers
  import opened Endpoint
  import opened AgentState

  /** The interface is to be named by a label that the message does not have. */
  predicate LacksLabel(cfg: EndpointConfig, conn: Connection) {
    cfg.interfaceNameSuffixFromLabel != "" && cfg.interfaceNameSuffixFromLabel !in conn.labels
  }

  predicate UnknownType(cfg: EndpointConfig) {
    cfg.interfaceType != DefaultInterface && cfg.interfaceType != KernelInterface && cfg.interfaceType != MemInterface
  }

  /** The only reasons for which an interface cannot be built; a missing label is found before the others. */
  lemma RefusedExactly(cfg: EndpointConfig, conn: Connection, ws: Workspace)
    ensures Refused(cfg, conn, ws) == Some(MissingLabel) <==> LacksLabel(cfg, conn)
    ensures Refused(cfg, conn, ws) == Some(UnsupportedType) <==> !LacksLabel(cfg, conn) && UnknownType(cfg)
    ensures Refused(cfg, conn, ws) == Some(BaseDirUnknown) <==>
            !LacksLabel(cfg, conn) && cfg.interfaceType == MemInterface && ws == BaseDirUndefined
    ensures Refused(cfg, conn, ws) == Some(DirectoryNotCreated) <==>
            !LacksLabel(cfg, conn) && cfg.interfaceType == MemInterface && ws == MkdirFails
    ensures Refused(cfg, conn, ws).None? <==>
            !LacksLabel(cfg, conn) && !UnknownType(cfg) && (cfg.interfaceType == MemInterface ==> ws == Ready)
  {
  }

  // ---------- requests ----------

  /** A request is answered with success exactly in this case, in every state. */
  lemma RequestSucceedsIff(a: Agent, conn: Connection, wsClose: Workspace, wsOpen: Workspace)
    ensures RouteRequest(a, conn, wsClose, wsOpen).1.None? <==>
            && conn.networkService in a.table
            && var (cfg, conns) := (a.table[conn.networkService].cfg, a.table[conn.networkService].conns);
               && !LacksLabel(cfg, conn) && !UnknownType(cfg)
               && (cfg.interfaceType == MemInterface ==>
                     wsOpen == Ready && (conn.id in conns ==> wsClose == Ready))
               && (cfg.singleClient ==> conns - {conn.id} == map[])
  {
    if conn.networkService in a.table {
      var entry := a.table[conn.networkService];
      RequestOutcome(entry.cfg, View(a, conn.networkService), conn, wsClose, wsOpen);
      RefusedExactly(entry.cfg, conn, wsClose);
      RefusedExactly(entry.cfg, conn, wsOpen);
    }
  }

  /** Another client is connected to a single-client endpoint. */
  predicate Occupied(entry: Entry, conn: Connection) {
    entry.cfg.singleClient && entry.conns - {conn.id} != map[]
  }

  /** What the first unusable directory, if any, is met with: at the disconnect of a connected client, or later. */
  function Met(entry: Entry, conn: Connection, wsClose: Workspace, wsOpen: Workspace): Workspace {
    if conn.id in entry.conns && wsClose != Ready then wsClose else wsOpen
  }

  /** Requests to one endpoint: the answer of every failure. */
  lemma EndpointRequestAnswer(entry: Entry, store: Store, conn: Connection, wsClose: Workspace, wsOpen: Workspace)
    requires Inv(entry.cfg, entry.conns)
    ensures var (cfg, met) := (entry.cfg, Met(entry, conn, wsClose, wsOpen));
            Request(cfg, EpState(entry.conns, store), conn, wsClose, wsOpen).1 ==
            if Occupied(entry, conn) then Some(SecondClient) else Refused(cfg, conn, met)
  {
    var cfg, st := entry.cfg, EpState(entry.conns, store);
    NoOthers(entry.conns, conn.id);
    SmallerMap(entry.conns, conn.id);
    if conn.id in entry.conns && Refused(cfg, conn, wsClose).Some? {
      RequestStopsAtClose(cfg, st, conn, wsClose, wsOpen);
    } else {
      RequestIsOpen(cfg, st, conn, wsClose, wsOpen);
      OpenEffect(cfg, Disconnected(cfg, st, conn), conn, wsOpen);
    }
  }

  /** Every error a routed request can be answered with, and exactly when. */
  lemma RequestErrors(a: Agent, conn: Connection, wsClose: Workspace, wsOpen: Workspace, e: Error)
    requires AgentInv(a)
    ensures RouteRequest(a, conn, wsClose, wsOpen).1 == Some(e) <==>
            if conn.networkService !in a.table then e == NoSuchService
            else
              var entry := a.table[conn.networkService];
              var met := Met(entry, conn, wsClose, wsOpen);
              if Occupied(entry, conn) then e == SecondClient
              else if LacksLabel(entry.cfg, conn) then e == MissingLabel
              else if UnknownType(entry.cfg) then e == UnsupportedType
              else
                && entry.cfg.interfaceType == MemInterface
                && ((e == BaseDirUnknown && met == BaseDirUndefined) || (e == DirectoryNotCreated && met == MkdirFails))
  {
    if conn.networkService in a.table {
      var entry := a.table[conn.networkService];
      EndpointRequestAnswer(entry, a.store, conn, wsClose, wsOpen);
      RefusedExactly(entry.cfg, conn, Met(entry, conn, wsClose, wsOpen));
    }
  }

  // ---------- closes ----------

  /** A close is answered with success exactly if the interface could be built, for an unknown connection, too. */
  lemma CloseSucceedsIff(a: Agent, conn: Connection, ws: Workspace)
    ensures RouteClose(a, conn, ws).1.None? <==>
            && conn.networkService in a.table
            && var cfg := a.table[conn.networkService].cfg;
               && !LacksLabel(cfg, conn) && !UnknownType(cfg)
               && (cfg.interfaceType == MemInterface ==> ws == Ready)
    ensures RouteClose(a, conn, ws).1.None? ==>
              conn.id !in RouteClose(a, conn, ws).0.table[conn.networkService].conns
    ensures RouteClose(a, conn, ws).1.Some? ==> RouteClose(a, conn, ws).0 == a
  {
    var n := conn.networkService;
    if n in a.table {
      RefusedExactly(a.table[n].cfg, conn, ws);
      CloseEffect(a.table[n].cfg, View(a, n), conn, ws);
      assert With(a, n, View(a, n)) == a;
    }
  }

  lemma CloseErrors(a: Agent, conn: Connection, ws: Workspace, e: Error)
    ensures RouteClose(a, conn, ws).1 == Some(e) <==>
            if conn.networkService !in a.table then e == NoSuchService
            else
              var cfg := a.table[conn.networkService].cfg;
              if LacksLabel(cfg, conn) then e == MissingLabel
              else if UnknownType(cfg) then e == UnsupportedType
              else
                && cfg.interfaceType == MemInterface
                && ((e == BaseDirUnknown && ws == BaseDirUndefined) || (e == DirectoryNotCreated && ws == MkdirFails))
  {
    var n := conn.networkService;
    if n in a.table {
      RefusedExactly(a.table[n].cfg, conn, ws);
      CloseEffect(a.table[n].cfg, View(a, n), conn, ws);
    }
  }

  // ---------- endpoints ----------

  /** A creation succeeds exactly if the agent is or gets connected and the registry accepts; else it only connects. */
  lemma CreateAnswer(a: Agent, cfg: EndpointConfig, setup: Setup, registered: Option<string>, put: nat -> bool)
    ensures var (b, err) := Create(a, cfg, setup, registered, put);
            var connects := a.connected || setup == SetupOk;
            && (err == Some(SetupFailed) <==> !connects)
            && (err == Some(RegistrationFailed) <==> connects && registered.None?)
            && (err.None? <==> connects && registered.Some?)
            && (err.Some? ==> b == a.(connected := connects))
            && (err.None? ==>
                  var n := cfg.networkService;
                  && n in b.table && b.table[n].cfg == cfg && b.table[n].conns == map[]
                  && b.table[n].epName == registered.value && registered.value in b.registry
                  && b.registry[registered.value] == n && n in b.configured && b.configured[n] == cfg
                  && b.table - {n} == a.table - {n} && b.store == a.store)
  {
  }

  /** If a directory is unusable, the registry is not asked: the endpoint keeps what is not closed yet. */
  lemma DeleteStops(a: Agent, n: string, order: seq<string>, ws: string -> Workspace, removed: bool, i: nat)
    requires AgentInv(a) && n in a.table && Enumerates(order, a.table[n].conns)
    requires a.table[n].cfg.interfaceType == MemInterface && StopsAt(order, ws, i)
    ensures var (b, err) := DeleteEndpoint(a, n, order, ws, removed);
            && err == Some(if ws(order[i]) == BaseDirUndefined then BaseDirUnknown else DirectoryNotCreated)
            && b.registry == a.registry && n in b.table && b.table[n].epName == a.table[n].epName
            && b.table[n].conns == a.table[n].conns - IdsUpTo(order, i)
            && b.store == a.store - KeysUpTo(a.table[n].cfg, a.table[n].conns, order, i)
  {
    CloseAllStops(a.table[n].cfg, View(a, n), order, ws, i);
  }

  /** Otherwise the answer depends on the registry alone. */
  lemma DeleteAnswer(a: Agent, n: string, order: seq<string>, ws: string -> Workspace, removed: bool)
    requires AgentInv(a) && (n in a.table ==> Enumerates(order, a.table[n].conns))
    requires n in a.table && a.table[n].cfg.interfaceType == MemInterface ==> !exists i :: StopsAt(order, ws, i)
    ensures DeleteEndpoint(a, n, order, ws, removed).1 ==
            if n !in a.table then Some(NoSuchService) else if removed then None else Some(RemovalFailed)
  {
    if n in a.table {
      CloseAllFailsOnlyForMemif(a.table[n].cfg, View(a, n), order, ws);
      if a.table[n].cfg.interfaceType == MemInterface && exists id :: id in order && ws(id) != Ready {
        var i := FirstUnusable(order, ws);
        assert false;
      }
    }
  }
}
