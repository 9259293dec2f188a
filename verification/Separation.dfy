/**
 Endpoints whose interfaces can never get the same name. On an agent whose endpoints are pairwise separated, an
 index-mode endpoint never touches a name in use, and no endpoint touches the interfaces of another.
 */
module Separation {
  import opened Decimal
  import opened Names
  import opened Endpoint
  import opened AgentState
  import opened Agreement
  import opened AgreementSteps

  /**
   Two index-mode endpoints: no name of one is a name of the other. A single-client endpoint numbers its interface
   0, so the shorter of two colliding prefixes does no harm if it belongs to a single-client endpoint.
   */
  predicate Apart(c: EndpointConfig, d: EndpointConfig) {
    var p, q := c.interfaceNamePrefix, d.interfaceNamePrefix;
    || BackendOf(c) != BackendOf(d)
    || (p != q && (Extends(p, q) ==> c.singleClient) && (Extends(q, p) ==> d.singleClient))
  }

  /** In label mode the label may continue the prefix in any way, so neither prefix may begin the other. */
  predicate Separated(c: EndpointConfig, d: EndpointConfig) {
    if c.IndexMode() && d.IndexMode() then Apart(c, d)
    else
      || BackendOf(c) != BackendOf(d)
      || (!(c.interfaceNamePrefix <= d.interfaceNamePrefix) && !(d.interfaceNamePrefix <= c.interfaceNamePrefix))
  }

  /** The endpoints in the table are pairwise separated. */
  ghost predicate Separate(a: Agent) {
    forall n, n' :: n in a.table && n' in a.table && n != n' ==> Separated(a.table[n].cfg, a.table[n'].cfg)
  }

  /** Different services are configured with separated endpoints. */
  ghost predicate SeparateConfigs(cfgs: set<EndpointConfig>) {
    forall c, d :: c in cfgs && d in cfgs && c.networkService != d.networkService ==> Separated(c, d)
  }

  lemma SeparateAtAllTimes(events: seq<Event>, cfgs: set<EndpointConfig>, i: nat)
    requires i <= |events| && CreatesFrom(events, cfgs) && SeparateConfigs(cfgs)
    ensures AgentInv(Before(events, i)) && Separate(Before(events, i))
  {
    ConfigsInTable(events, cfgs, i);
    RunKeepsInv(events[..i]);
  }

  // ---------- names never meet ----------

  /** The indices an endpoint computes: a single-client one finds 0 free, or 1 beside its one client. */
  predicate Computes(c: EndpointConfig, i: nat) {
    c.singleClient ==> i <= 1
  }

  lemma ComputedIndices(cfg: EndpointConfig, conns: Connections, conn: Connection)
    requires Inv(cfg, conns)
    ensures Computes(cfg, IndexFor(cfg, conns, conn))
    ensures Computes(cfg, RequestIndex(cfg, conns, conn))
  {
    AllocatedIndex(conns);
    AllocatedIndex(Others(conns, conn.id));
    SmallerMap(conns, conn.id);
  }

  /** A one-digit index after the shorter prefix cannot make up for the longer prefix. */
  lemma ShortNamesDiffer(p: string, i: nat, q: string, j: nat)
    requires Extends(p, q) && i <= 1
    ensures p + Itoa(i) != q + Itoa(j)
  {
    assert |p + Itoa(i)| == |p| + 1;
    assert |q + Itoa(j)| >= |q| + 1;
  }

  lemma NumberedNamesDiffer(c: EndpointConfig, i: nat, d: EndpointConfig, j: nat)
    requires Apart(c, d) && BackendOf(c) == BackendOf(d) && Computes(c, i) && Computes(d, j)
    ensures c.interfaceNamePrefix + Itoa(i) != d.interfaceNamePrefix + Itoa(j)
  {
    var p, q := c.interfaceNamePrefix, d.interfaceNamePrefix;
    if Extends(p, q) {
      ShortNamesDiffer(p, i, q, j);
    } else if Extends(q, p) {
      ShortNamesDiffer(q, j, p, i);
    } else {
      CollisionLaw(p, q);
    }
  }

  lemma SharedNameComparable(p: string, x: string, q: string, y: string)
    ensures p + x == q + y ==> p <= q || q <= p
  {
    if p + x == q + y {
      assert p == (q + y)[..|p|] && q == (p + x)[..|q|];
    }
  }

  /** No interface of one endpoint is an interface of the other. */
  lemma KeysDiffer(c: EndpointConfig, conn: Connection, i: nat, d: EndpointConfig, conn': Connection, j: nat)
    requires Separated(c, d) && Computes(c, i) && Computes(d, j)
    ensures KeyFor(c, conn, i) != KeyFor(d, conn', j)
  {
    if BackendOf(c) == BackendOf(d) {
      if c.IndexMode() && d.IndexMode() {
        NumberedNamesDiffer(c, i, d, j);
      } else {
        SplitName(c, conn, i);
        SplitName(d, conn', j);
        SharedNameComparable(c.interfaceNamePrefix, KeyFor(c, conn, i).name[|c.interfaceNamePrefix|..],
                             d.interfaceNamePrefix, KeyFor(d, conn', j).name[|d.interfaceNamePrefix|..]);
      }
    }
  }

  lemma SplitName(c: EndpointConfig, conn: Connection, i: nat)
    ensures var name := KeyFor(c, conn, i).name;
            |name| >= |c.interfaceNamePrefix| && name == c.interfaceNamePrefix + name[|c.interfaceNamePrefix|..]
  {
  }

  /** Live connections of other services have other interfaces than any that service `n` computes. */
  lemma OtherServicesDiffer(a: Agent, n: string, conn: Connection, i: nat, n': string, id': string)
    requires AgentInv(a) && Separate(a) && n in a.table && Live(a, n', id') && n' != n
    requires Computes(a.table[n].cfg, i)
    ensures KeyOf(a, n', id') != KeyFor(a.table[n].cfg, conn, i)
  {
    var entry := a.table[n'];
    KeysDiffer(entry.cfg, entry.conns[id'].conn, entry.conns[id'].index, a.table[n].cfg, conn, i);
  }

  // ---------- index mode: names are always fresh ----------

  /** An index that none of the other clients of an endpoint holds gives a name no one else holds. */
  lemma FreshName(a: Agent, n: string, id: string, conn: Connection, index: nat)
    requires AgentInv(a) && Separate(a) && n in a.table && a.table[n].cfg.IndexMode()
    requires Computes(a.table[n].cfg, index) && !UsesIndex(Others(a.table[n].conns, id), index)
    ensures !TakenByOther(a, n, id, KeyFor(a.table[n].cfg, conn, index))
  {
    var cfg := a.table[n].cfg;
    forall n', id' | Live(a, n', id') && (n' != n || id' != id)
      ensures KeyOf(a, n', id') != KeyFor(cfg, conn, index)
    {
      if n' == n {
        var c' := a.table[n].conns[id'];
        assert id' in Others(a.table[n].conns, id) && Others(a.table[n].conns, id)[id'] == c';
        IndexFromName(cfg.interfaceNamePrefix, index, c'.index);
      } else {
        OtherServicesDiffer(a, n, conn, index, n', id');
      }
    }
  }

  /** The message is for an index-mode endpoint, or for none. */
  predicate ToIndexMode(a: Agent, conn: Connection) {
    conn.networkService in a.table ==> a.table[conn.networkService].cfg.IndexMode()
  }

  lemma RequestNamesAreFresh(a: Agent, conn: Connection, wsClose: Workspace, wsOpen: Workspace)
    requires AgentInv(a) && Separate(a) && ToIndexMode(a, conn)
    ensures RequestNamesKept(a, conn, wsClose, wsOpen)
  {
    var n := conn.networkService;
    if n in a.table {
      AllocatedIndex(Others(a.table[n].conns, conn.id));
      ComputedIndices(a.table[n].cfg, a.table[n].conns, conn);
      FreshName(a, n, conn.id, conn, RequestIndex(a.table[n].cfg, a.table[n].conns, conn));
    }
  }

  lemma NotLiveTaken(a: Agent, n: string, id: string, k: InterfaceKey)
    requires !Live(a, n, id)
    ensures Taken(a, k) <==> TakenByOther(a, n, id, k)
  {
  }

  lemma CloseNamesAreOwn(a: Agent, conn: Connection, ws: Workspace)
    requires AgentInv(a) && Separate(a) && ToIndexMode(a, conn)
    ensures CloseNamesKept(a, conn, ws)
  {
    var n := conn.networkService;
    if n in a.table && !Live(a, n, conn.id) {
      NoOthers(a.table[n].conns, conn.id);
      AllocatedIndex(a.table[n].conns);
      ComputedIndices(a.table[n].cfg, a.table[n].conns, conn);
      FreshName(a, n, conn.id, conn, FreeIndex(a.table[n].conns));
      NotLiveTaken(a, n, conn.id, ClosingKey(a, n, conn));
    }
  }

  /** Closing an unknown connection computes and deletes a name, but changes nothing. */
  lemma CloseUnknownIsNoOp(a: Agent, conn: Connection, ws: Workspace)
    requires AgentInv(a) && Separate(a) && Agree(a)
    requires ToIndexMode(a, conn) && !Live(a, conn.networkService, conn.id)
    ensures RouteClose(a, conn, ws).0 == a
  {
    var n := conn.networkService;
    RouteCloseIsDrop(a, conn, ws);
    CloseNamesAreOwn(a, conn, ws);
    if n in a.table && Refused(a.table[n].cfg, conn, ws).None? {
      assert !Taken(a, ClosingKey(a, n, conn));
      DropNothing(a, n, conn.id, ClosingKey(a, n, conn));
    }
  }

  lemma DropNothing(a: Agent, n: string, id: string, k: InterfaceKey)
    requires Agree(a) && n in a.table && !Live(a, n, id) && !Taken(a, k)
    ensures Drop(a, n, id, k) == a
  {
    assert k !in a.store;
    assert a.store - {k} == a.store;
    assert a.table[n].conns - {id} == a.table[n].conns;
    WithView(a, n);
  }

  // ---------- either mode: services are isolated ----------

  /** The interface `k` is the same in both agents, or in neither. */
  predicate SameInterface(a: Agent, b: Agent, k: InterfaceKey) {
    (k in b.store <==> k in a.store) && (k in a.store ==> b.store[k] == a.store[k])
  }

  /** The entry of service `n`, and the interfaces of its live connections, are the same in `a` and `b`. */
  ghost predicate Untouched(a: Agent, b: Agent, n: string) {
    && n in a.table && n in b.table && b.table[n] == a.table[n]
    && forall id :: id in a.table[n].conns ==> SameInterface(a, b, KeyOf(a, n, id))
  }

  lemma RequestTouchesTwo(a: Agent, conn: Connection, wsClose: Workspace, wsOpen: Workspace, k: InterfaceKey)
    requires conn.networkService in a.table
    requires k != ClosingKey(a, conn.networkService, conn) && k != OpeningKey(a, conn.networkService, conn)
    ensures SameInterface(a, RouteRequest(a, conn, wsClose, wsOpen).0, k)
  {
    RouteRequestIsDropAndPut(a, conn, wsClose, wsOpen);
  }

  /** Routing isolation: whatever a request for one service leads to, no other service is touched. */
  lemma RequestIsIsolated(a: Agent, conn: Connection, wsClose: Workspace, wsOpen: Workspace, n: string)
    requires AgentInv(a) && Separate(a) && n in a.table && n != conn.networkService
    ensures var b := RouteRequest(a, conn, wsClose, wsOpen).0;
            b.table.Keys == a.table.Keys && Untouched(a, b, n)
  {
    var m := conn.networkService;
    if m in a.table {
      ComputedIndices(a.table[m].cfg, a.table[m].conns, conn);
      forall id | id in a.table[n].conns
        ensures SameInterface(a, RouteRequest(a, conn, wsClose, wsOpen).0, KeyOf(a, n, id))
      {
        assert Live(a, n, id);
        OtherServicesDiffer(a, m, conn, IndexFor(a.table[m].cfg, a.table[m].conns, conn), n, id);
        OtherServicesDiffer(a, m, conn, RequestIndex(a.table[m].cfg, a.table[m].conns, conn), n, id);
        RequestTouchesTwo(a, conn, wsClose, wsOpen, KeyOf(a, n, id));
      }
    }
  }

  lemma CloseTouchesOne(a: Agent, conn: Connection, ws: Workspace, k: InterfaceKey)
    requires conn.networkService in a.table && k != ClosingKey(a, conn.networkService, conn)
    ensures SameInterface(a, RouteClose(a, conn, ws).0, k)
  {
    RouteCloseIsDrop(a, conn, ws);
  }

  /** So it is for a close, even of a connection that the endpoint does not know. */
  lemma CloseIsIsolated(a: Agent, conn: Connection, ws: Workspace, n: string)
    requires AgentInv(a) && Separate(a) && n in a.table && n != conn.networkService
    ensures var b := RouteClose(a, conn, ws).0;
            b.table.Keys == a.table.Keys && Untouched(a, b, n)
  {
    var m := conn.networkService;
    if m in a.table {
      ComputedIndices(a.table[m].cfg, a.table[m].conns, conn);
      forall id | id in a.table[n].conns
        ensures SameInterface(a, RouteClose(a, conn, ws).0, KeyOf(a, n, id))
      {
        assert Live(a, n, id);
        OtherServicesDiffer(a, m, conn, IndexFor(a.table[m].cfg, a.table[m].conns, conn), n, id);
        CloseTouchesOne(a, conn, ws, KeyOf(a, n, id));
      }
    }
  }
}
