/**
 The endpoint as an object that updates its table of connections in place and sends transactions to the
 configuration client. Each method is proved against the value-level specification in `Endpoint`.
 */
module NsmEndpoint {
  import opened Wrappers
  import opened Endpoint
  import Decimal

  datatype Txn = UpdateTxn(iface: Interface) | DeleteTxn(key: InterfaceKey)

  function Apply(store: Store, txn: Txn): Store {
    match txn
    case UpdateTxn(iface) => store[iface.key := iface]
    case DeleteTxn(key) => store - {key}
  }

  function ApplyAll(store: Store, txns: seq<Txn>): Store
    decreases |txns|
  {
    if txns == [] then store else ApplyAll(Apply(store, txns[0]), txns[1..])
  }

  lemma {:induction false} ApplyLast(store: Store, txns: seq<Txn>, txn: Txn)
    ensures ApplyAll(store, txns + [txn]) == Apply(ApplyAll(store, txns), txn)
    decreases |txns|
  {
    if txns == [] {
      assert ([] + [txn])[1..] == [];
    } else {
      assert (txns + [txn])[1..] == txns[1..] + [txn];
      ApplyLast(Apply(store, txns[0]), txns[1..], txn);
    }
  }

  /** The local client: transactions are queued and applied first in, first out. */
  class ConfigClient {
    var applied: Store
    var pending: seq<Txn>

    constructor ()
      ensures Drained() == map[]
    {
      applied, pending := map[], [];
    }

    /** The interface store once every queued transaction is applied. */
    ghost function Drained(): Store
      reads this
    {
      ApplyAll(applied, pending)
    }

    method Send(txn: Txn)
      modifies this
      ensures Drained() == Apply(old(Drained()), txn)
    {
      ApplyLast(applied, pending, txn);
      pending := pending + [txn];
    }

    /** The scheduler applies the oldest transaction; what the store is heading for does not change. */
    method Process()
      requires pending != []
      modifies this
      ensures Drained() == old(Drained())
      ensures |pending| == |old(pending)| - 1 && applied == Apply(old(applied), old(pending)[0])
    {
      applied := Apply(applied, pending[0]);
      pending := pending[1..];
    }
  }

  /** Closing in the order `first`, then on in the order `second`. */
  lemma {:induction false} CloseAllConcat(
    cfg: EndpointConfig, st: EpState, first: seq<string>, second: seq<string>, ws: string -> Workspace)
    ensures CloseAll(cfg, st, first + second, ws) ==
            var (mid, err) := CloseAll(cfg, st, first, ws);
            if err.Some? then (mid, err) else CloseAll(cfg, mid, second, ws)
    decreases |first|
  {
    if first == [] {
      assert first + second == second;
    } else {
      assert (first + second)[1..] == first[1..] + second;
      if first[0] !in st.conns {
        CloseAllConcat(cfg, st, first[1..], second, ws);
      } else {
        var (next, err) := CloseConnection(cfg, st, st.conns[first[0]].conn, ws(first[0]));
        if err.None? {
          CloseAllConcat(cfg, next, first[1..], second, ws);
        }
      }
    }
  }

  /** Any visited part of a map extends to a full enumeration. */
  lemma {:induction false} CompleteOrder(visited: seq<string>, rest: set<string>, conns: Connections)
    returns (more: seq<string>)
    requires forall i, j :: 0 <= i < j < |visited| ==> visited[i] != visited[j]
    requires forall id :: id in visited ==> id in conns && id !in rest
    requires forall id :: id in conns <==> id in visited || id in rest
    ensures Enumerates(visited + more, conns)
    decreases |rest|
  {
    if rest == {} {
      more := [];
      assert visited + more == visited;
    } else {
      var id :| id in rest;
      var later := CompleteOrder(visited + [id], rest - {id}, conns);
      more := [id] + later;
      assert visited + more == visited + [id] + later;
    }
  }

  /** From `start`, the connections in `visited` are closed, those in `rest` are left, and `now` is the state. */
  ghost predicate Progress(cfg: EndpointConfig, start: EpState, visited: seq<string>, rest: set<string>, now: EpState,
                           ws: string -> Workspace)
  {
    && Inv(cfg, now.conns) && now.conns.Keys == rest
    && (forall id :: id in start.conns <==> id in visited || id in rest)
    && (forall id :: id in visited ==> id !in rest)
    && (forall i, j :: 0 <= i < j < |visited| ==> visited[i] != visited[j])
    && CloseAll(cfg, start, visited, ws) == (now, None)
  }

  lemma CloseNext(cfg: EndpointConfig, st: EpState, id: string, ws: string -> Workspace)
    requires id in st.conns
    ensures CloseAll(cfg, st, [id], ws) == CloseConnection(cfg, st, st.conns[id].conn, ws(id))
  {
    assert [id][1..] == [];
  }

  lemma ProgressStep(cfg: EndpointConfig, start: EpState, visited: seq<string>, rest: set<string>, now: EpState,
                     ws: string -> Workspace, id: string)
    requires Progress(cfg, start, visited, rest, now, ws) && id in rest
    ensures var (next, err) := CloseConnection(cfg, now, now.conns[id].conn, ws(id));
            && CloseAll(cfg, start, visited + [id], ws) == (next, err)
            && (err.None? ==> Progress(cfg, start, visited + [id], rest - {id}, next, ws))
  {
    CloseAllConcat(cfg, start, visited, [id], ws);
    CloseNext(cfg, now, id, ws);
    CloseConnectionKeepsInv(cfg, now, now.conns[id].conn, ws(id));
    CloseStored(cfg, now, id, ws(id));
  }

  /** After a failure the remaining connections may stand in any order: the outcome is that of a full enumeration. */
  lemma ProgressFails(cfg: EndpointConfig, start: EpState, visited: seq<string>, rest: set<string>, now: EpState,
                      ws: string -> Workspace, id: string) returns (order: seq<string>)
    requires Progress(cfg, start, visited, rest, now, ws) && id in rest
    requires CloseConnection(cfg, now, now.conns[id].conn, ws(id)).1.Some?
    ensures Enumerates(order, start.conns)
    ensures CloseAll(cfg, start, order, ws) == CloseConnection(cfg, now, now.conns[id].conn, ws(id))
  {
    ProgressStep(cfg, start, visited, rest, now, ws, id);
    var seen := visited + [id];
    var more := CompleteOrder(seen, rest - {id}, start.conns);
    order := seen + more;
    CloseAllConcat(cfg, start, seen, more, ws);
  }

  class NSMEndpoint {
    const cfg: EndpointConfig
    const localclient: ConfigClient
    var connections: Connections

    constructor (cfg: EndpointConfig, localclient: ConfigClient)
      ensures this.cfg == cfg && this.localclient == localclient && connections == map[]
    {
      this.cfg, this.localclient, this.connections := cfg, localclient, map[];
    }

    ghost function State(): EpState
      reads this, localclient
    {
      EpState(connections, localclient.Drained())
    }

    method UsesConnectionIndex(index: int) returns (uses: bool)
      ensures uses <==> UsesIndex(connections, index)
    {
      var rest := connections.Keys;
      while rest != {}
        invariant rest <= connections.Keys
        invariant forall id :: id in connections && id !in rest ==> connections[id].index != index
        decreases |rest|
      {
        var id :| id in rest;
        if index == connections[id].index {
          return true;
        }
        rest := rest - {id};
      }
      return false;
    }

    /** The search ends, at the least index that is not in use. */
    method AllocateConnectionIndex() returns (index: nat)
      ensures index == FreeIndex(connections)
      ensures !UsesIndex(connections, index) && index <= |connections|
      ensures forall i :: 0 <= i < index ==> UsesIndex(connections, i)
    {
      AllocatedIndex(connections);
      index := 0;
      var uses := UsesConnectionIndex(index);
      while uses
        invariant uses <==> UsesIndex(connections, index)
        invariant forall i :: 0 <= i < index ==> UsesIndex(connections, i)
        decreases FreeIndex(connections) - index
      {
        index := index + 1;
        uses := UsesConnectionIndex(index);
      }
      FreeIndexUnique(connections, index);
    }

    method GetConnectionIndex(conn: Connection) returns (index: nat)
      ensures index == if conn.id in connections then connections[conn.id].index else FreeIndex(connections)
    {
      if conn.id !in connections {
        index := AllocateConnectionIndex();
      } else {
        index := connections[conn.id].index;
      }
    }

    method BuildInterfaceConfig(conn: Connection, ws: Workspace) returns (r: Result<Built, Error>)
      ensures r == Build(cfg, connections, conn, ws)
    {
      var name := cfg.interfaceNamePrefix;
      var index := 0;
      if cfg.interfaceNameSuffixFromLabel != "" {
        if cfg.interfaceNameSuffixFromLabel !in conn.labels {
          return Failure(MissingLabel);
        }
        name := name + conn.labels[cfg.interfaceNameSuffixFromLabel];
      } else {
        index := GetConnectionIndex(conn);
        name := name + Decimal.Itoa(index);
      }
      var ips, phys := [], "";
      if cfg.singleClient {
        ips, phys := cfg.ipAddresses, cfg.physAddress;
      }
      match cfg.interfaceType {
        case DefaultInterface =>
          return Success(Built(Interface(InterfaceKey(LinuxBackend, name), conn.interfaceName, ips, phys), index));
        case KernelInterface =>
          return Success(Built(Interface(InterfaceKey(LinuxBackend, name), conn.interfaceName, ips, phys), index));
        case MemInterface =>
          if ws == BaseDirUndefined {
            return Failure(BaseDirUnknown);
          }
          if ws == MkdirFails {
            return Failure(DirectoryNotCreated);
          }
          return Success(Built(Interface(InterfaceKey(VppBackend, name), "", ips, phys), index));
        case UnknownInterface(_) =>
          return Failure(UnsupportedType);
      }
    }

    method CloseConnection(conn: Connection, ws: Workspace) returns (err: Option<Error>)
      modifies this`connections, localclient
      ensures (State(), err) == Endpoint.CloseConnection(cfg, old(State()), conn, ws)
    {
      var config := BuildInterfaceConfig(conn, ws);
      if config.Failure? {
        return Some(config.error);
      }
      localclient.Send(DeleteTxn(config.value.iface.key));
      connections := connections - {conn.id};
      return None;
    }

    method Request(conn: Connection, wsClose: Workspace, wsOpen: Workspace) returns (err: Option<Error>)
      modifies this`connections, localclient
      ensures (State(), err) == Endpoint.Request(cfg, old(State()), conn, wsClose, wsOpen)
    {
      if conn.id in connections {
        err := CloseConnection(conn, wsClose);
        if err.Some? {
          return;
        }
      }
      if cfg.singleClient && |connections| > 0 {
        return Some(SecondClient);
      }
      var config := BuildInterfaceConfig(conn, wsOpen);
      if config.Failure? {
        return Some(config.error);
      }
      connections := connections[conn.id := NsmConnection(config.value.index, conn)];
      localclient.Send(UpdateTxn(config.value.iface));
      return None;
    }

    /** The endpoint is the last of its composite, so closing is all there is to do. */
    method Close(conn: Connection, ws: Workspace) returns (err: Option<Error>)
      modifies this`connections, localclient
      ensures (State(), err) == Endpoint.CloseConnection(cfg, old(State()), conn, ws)
    {
      err := CloseConnection(conn, ws);
    }

    /** Closes all connections, ranging over the map while deleting from it; `order` is the order it happened in. */
    method CloseConnections(ws: string -> Workspace) returns (err: Option<Error>, ghost order: seq<string>)
      requires Inv(cfg, connections)
      modifies this`connections, localclient
      ensures Enumerates(order, old(connections))
      ensures (State(), err) == CloseAll(cfg, old(State()), order, ws)
    {
      ghost var start := State();
      var rest := connections.Keys;
      order := [];
      while rest != {}
        invariant Progress(cfg, start, order, rest, State(), ws)
        decreases |rest|
      {
        var id :| id in rest;
        ghost var now := State();
        ProgressStep(cfg, start, order, rest, now, ws, id);
        err := CloseConnection(connections[id].conn, ws(id));
        if err.Some? {
          order := ProgressFails(cfg, start, order, rest, now, ws, id);
          return;
        }
        order := order + [id];
        rest := rest - {id};
      }
      err := None;
    }
  }
}
