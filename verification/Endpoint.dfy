/**
 One NSM endpoint as a value: its configuration, its table of live connections, and the interface
 configuration it maintains. The functions here are the specification that the methods of the class
 `NSMEndpoint` are proved against; the lemmas say what the specification guarantees.
 */
module Endpoint {
  import opened Wrappers
  import opened Decimal

  datatype ConnectionLabel = ConnectionLabel(key: string, value: string)

  datatype InterfaceType = DefaultInterface | KernelInterface | MemInterface | UnknownInterface(number: int)

  /** Configuration of an endpoint; `interfaceNameSuffixFromLabel` is empty in index mode. */
  datatype EndpointConfig = EndpointConfig(
    networkService: string,
    advertisedLabels: seq<ConnectionLabel>,
    singleClient: bool,
    interfaceNamePrefix: string,
    interfaceNameSuffixFromLabel: string,
    interfaceType: InterfaceType,
    ipAddresses: seq<string>,
    physAddress: string)
  {
    predicate IndexMode() {
      interfaceNameSuffixFromLabel == ""
    }
  }

  /** A connection message; `interfaceName` is the host interface name among the mechanism parameters. */
  datatype Connection = Connection(
    id: string, networkService: string, labels: map<string, string>, interfaceName: string)
  {
    /** Reading a missing label gives the empty string. */
    function Label(key: string): string {
      if key in labels then labels[key] else ""
    }
  }

  datatype NsmConnection = NsmConnection(index: nat, conn: Connection)

  type Connections = map<string, NsmConnection>

  datatype Backend = LinuxBackend | VppBackend

  /** Interfaces of different backends are different configuration items even under one name. */
  datatype InterfaceKey = InterfaceKey(backend: Backend, name: string)

  datatype Interface = Interface(
    key: InterfaceKey, hostIfName: string, ipAddresses: seq<string>, physAddress: string)

  type Store = map<InterfaceKey, Interface>

  /** What the environment answers when a memif socket directory is needed. */
  datatype Workspace = Ready | BaseDirUndefined | MkdirFails

  datatype Error =
    | MissingLabel
    | BaseDirUnknown
    | DirectoryNotCreated
    | UnsupportedType
    | SecondClient
    | NoSuchService
    | SetupFailed
    | RegistrationFailed
    | RemovalFailed

  // ---------- index allocation ----------

  predicate UsesIndex(conns: Connections, index: int) {
    exists id :: id in conns && conns[id].index == index
  }

  function UsedIndices(conns: Connections): set<int> {
    set id | id in conns :: conns[id].index
  }

  /** The least number from `from` on that is not in `used`. */
  function LeastUnused(used: set<int>, from: nat): nat
    decreases |used|
  {
    if from in used then LeastUnused(used - {from}, from + 1) else from
  }

  /** The index a new connection is given. */
  function FreeIndex(conns: Connections): nat {
    LeastUnused(UsedIndices(conns), 0)
  }

  lemma {:induction false} LeastUnusedIsLeast(used: set<int>, from: nat)
    ensures from <= LeastUnused(used, from) <= from + |used|
    ensures LeastUnused(used, from) !in used
    ensures forall i :: from <= i < LeastUnused(used, from) ==> i in used
    decreases |used|
  {
    if from !in used {
    } else {
      var rest := used - {from};
      assert |rest| == |used| - 1;
      LeastUnusedIsLeast(rest, from + 1);
      forall i | from <= i < LeastUnused(used, from) ensures i in used {
        assert i == from || i in rest;
      }
    }
  }

  lemma {:induction false} ImageSize(conns: Connections)
    ensures |UsedIndices(conns)| <= |conns|
    decreases |conns|
  {
    if conns.Keys == {} {
    } else {
      var id :| id in conns;
      var rest := conns - {id};
      SmallerMap(conns, id);
      ImageSize(rest);
      var used, others := UsedIndices(conns), UsedIndices(rest) + {conns[id].index};
      forall i | i in used ensures i in others {
        var id' :| id' in conns && conns[id'].index == i;
        assert id' == id || (id' in rest && rest[id'].index == i);
      }
      assert others == used + (others - used);
    }
  }

  lemma SmallerMap(conns: Connections, id: string)
    ensures |conns - {id}| == if id in conns then |conns| - 1 else |conns|
  {
    if id in conns {
      assert conns == (conns - {id})[id := conns[id]];
    } else {
      assert conns - {id} == conns;
    }
  }

  /** Pigeonhole: the allocated index never exceeds the number of connections, and it is the least free one. */
  lemma AllocatedIndex(conns: Connections)
    ensures FreeIndex(conns) <= |conns|
    ensures !UsesIndex(conns, FreeIndex(conns))
    ensures forall i :: 0 <= i < FreeIndex(conns) ==> UsesIndex(conns, i)
  {
    ImageSize(conns);
    LeastUnusedIsLeast(UsedIndices(conns), 0);
    assert forall i :: i in UsedIndices(conns) <==> UsesIndex(conns, i);
  }

  /** Nothing else is least and free. */
  lemma FreeIndexUnique(conns: Connections, index: nat)
    requires !UsesIndex(conns, index)
    requires forall i :: 0 <= i < index ==> UsesIndex(conns, i)
    ensures index == FreeIndex(conns)
  {
    AllocatedIndex(conns);
  }

  // ---------- building the interface configuration ----------

  function BackendOf(cfg: EndpointConfig): Backend {
    if cfg.interfaceType.MemInterface? then VppBackend else LinuxBackend
  }

  /** Why no interface can be built for `conn`, if none can; this does not depend on the other connections. */
  function Refused(cfg: EndpointConfig, conn: Connection, ws: Workspace): Option<Error> {
    if !cfg.IndexMode() && cfg.interfaceNameSuffixFromLabel !in conn.labels then
      Some(MissingLabel)
    else
      match cfg.interfaceType
      case DefaultInterface => None
      case KernelInterface => None
      case MemInterface =>
        (match ws
         case Ready => None
         case BaseDirUndefined => Some(BaseDirUnknown)
         case MkdirFails => Some(DirectoryNotCreated))
      case UnknownInterface(_) => Some(UnsupportedType)
  }

  /** The index `conn` has, or would be given. */
  function IndexFor(cfg: EndpointConfig, conns: Connections, conn: Connection): nat {
    if !cfg.IndexMode() then 0
    else if conn.id in conns then conns[conn.id].index
    else FreeIndex(conns)
  }

  function KeyFor(cfg: EndpointConfig, conn: Connection, index: nat): InterfaceKey {
    InterfaceKey(BackendOf(cfg),
                 cfg.interfaceNamePrefix +
                 if cfg.IndexMode() then Itoa(index) else conn.Label(cfg.interfaceNameSuffixFromLabel))
  }

  function InterfaceFor(cfg: EndpointConfig, conn: Connection, index: nat): (iface: Interface)
    ensures iface.key == KeyFor(cfg, conn, index)
  {
    Interface(KeyFor(cfg, conn, index),
              if BackendOf(cfg) == LinuxBackend then conn.interfaceName else "",
              if cfg.singleClient then cfg.ipAddresses else [],
              if cfg.singleClient then cfg.physAddress else "")
  }

  datatype Built = Built(iface: Interface, index: nat)

  function Build(cfg: EndpointConfig, conns: Connections, conn: Connection, ws: Workspace): Result<Built, Error> {
    match Refused(cfg, conn, ws)
    case Some(e) => Failure(e)
    case None =>
      var index := IndexFor(cfg, conns, conn);
      Success(Built(InterfaceFor(cfg, conn, index), index))
  }

  /** What the interface of a connection is to be, for each type and naming mode. */
  ghost predicate Rendered(cfg: EndpointConfig, c: NsmConnection, iface: Interface) {
    var suffix := cfg.interfaceNameSuffixFromLabel;
    && (iface.key.backend == VppBackend <==> cfg.interfaceType == MemInterface)
    && (suffix == "" ==> iface.key.name == cfg.interfaceNamePrefix + Itoa(c.index))
    && (suffix != "" ==>
          suffix in c.conn.labels && iface.key.name == cfg.interfaceNamePrefix + c.conn.labels[suffix])
    && iface.hostIfName == (if cfg.interfaceType == MemInterface then "" else c.conn.interfaceName)
    && iface.ipAddresses == (if cfg.singleClient then cfg.ipAddresses else [])
    && iface.physAddress == (if cfg.singleClient then cfg.physAddress else "")
  }

  /** Nothing else is rendered: type, name and configuration determine the interface. */
  lemma RenderedExactly(cfg: EndpointConfig, conn: Connection, index: nat, iface: Interface)
    requires cfg.interfaceNameSuffixFromLabel == "" || cfg.interfaceNameSuffixFromLabel in conn.labels
    ensures Rendered(cfg, NsmConnection(index, conn), iface) <==> iface == InterfaceFor(cfg, conn, index)
  {
    assert iface == Interface(InterfaceKey(iface.key.backend, iface.key.name),
                              iface.hostIfName, iface.ipAddresses, iface.physAddress);
  }

  /** A successful build renders the interface, under index 0 in label mode, else the held or the least free one. */
  lemma BuildRenders(cfg: EndpointConfig, conns: Connections, conn: Connection, ws: Workspace)
    requires Build(cfg, conns, conn, ws).Success?
    ensures var built := Build(cfg, conns, conn, ws).value;
            && Rendered(cfg, NsmConnection(built.index, conn), built.iface)
            && (cfg.interfaceNameSuffixFromLabel != "" ==> built.index == 0)
            && (cfg.interfaceNameSuffixFromLabel == "" ==>
                  if conn.id in conns then built.index == conns[conn.id].index
                  else !UsesIndex(conns, built.index) && forall i :: 0 <= i < built.index ==> UsesIndex(conns, i))
  {
    AllocatedIndex(conns);
    RenderedExactly(cfg, conn, IndexFor(cfg, conns, conn), InterfaceFor(cfg, conn, IndexFor(cfg, conns, conn)));
  }

  // ---------- the operations ----------

  /** The connections of one endpoint beside the interface store once every queued transaction is applied. */
  datatype EpState = EpState(conns: Connections, store: Store)

  function CloseConnection(cfg: EndpointConfig, st: EpState, conn: Connection, ws: Workspace)
    : (EpState, Option<Error>)
  {
    match Build(cfg, st.conns, conn, ws)
    case Failure(e) => (st, Some(e))
    case Success(built) => (EpState(st.conns - {conn.id}, st.store - {built.iface.key}), None)
  }

  function Open(cfg: EndpointConfig, st: EpState, conn: Connection, ws: Workspace): (EpState, Option<Error>) {
    if cfg.singleClient && |st.conns| > 0 then (st, Some(SecondClient))
    else
      match Build(cfg, st.conns, conn, ws)
      case Failure(e) => (st, Some(e))
      case Success(built) =>
        (EpState(st.conns[conn.id := NsmConnection(built.index, conn)],
                 st.store[built.iface.key := built.iface]), None)
  }

  /** A request: a client that is already connected is first disconnected, then connected afresh. */
  function Request(cfg: EndpointConfig, st: EpState, conn: Connection, wsClose: Workspace, wsOpen: Workspace)
    : (EpState, Option<Error>)
  {
    if conn.id in st.conns then
      var (closed, err) := CloseConnection(cfg, st, conn, wsClose);
      if err.Some? then (closed, err) else Open(cfg, closed, conn, wsOpen)
    else
      Open(cfg, st, conn, wsOpen)
  }

  /** Closing all connections in the order `order`, stopping at the first failure. */
  function CloseAll(cfg: EndpointConfig, st: EpState, order: seq<string>, ws: string -> Workspace)
    : (EpState, Option<Error>)
    decreases |order|
  {
    if order == [] then (st, None)
    else if order[0] !in st.conns then CloseAll(cfg, st, order[1..], ws)
    else
      var (next, err) := CloseConnection(cfg, st, st.conns[order[0]].conn, ws(order[0]));
      if err.Some? then (next, err) else CloseAll(cfg, next, order[1..], ws)
  }

  // ---------- what every operation keeps ----------

  /** The type is supported and the label that names the interface is there. */
  predicate Accepts(cfg: EndpointConfig, conn: Connection) {
    !cfg.interfaceType.UnknownInterface? &&
    (cfg.IndexMode() || cfg.interfaceNameSuffixFromLabel in conn.labels)
  }

  ghost predicate Inv(cfg: EndpointConfig, conns: Connections) {
    && (forall id :: id in conns ==> conns[id].conn.id == id && Accepts(cfg, conns[id].conn))
    && (cfg.IndexMode() ==>
          forall id, id' :: id in conns && id' in conns && conns[id].index == conns[id'].index ==> id == id')
    && (!cfg.IndexMode() ==> forall id :: id in conns ==> conns[id].index == 0)
    && (cfg.singleClient ==> |conns| <= 1 && forall id :: id in conns ==> conns[id].index == 0)
  }

  lemma CloseConnectionKeepsInv(cfg: EndpointConfig, st: EpState, conn: Connection, ws: Workspace)
    requires Inv(cfg, st.conns)
    ensures Inv(cfg, CloseConnection(cfg, st, conn, ws).0.conns)
  {
    var conns := CloseConnection(cfg, st, conn, ws).0.conns;
    assert |st.conns - {conn.id}| <= |st.conns| by {
      SmallerMap(st.conns, conn.id);
    }
  }

  lemma OpenKeepsInv(cfg: EndpointConfig, st: EpState, conn: Connection, ws: Workspace)
    requires Inv(cfg, st.conns) && conn.id !in st.conns
    ensures Inv(cfg, Open(cfg, st, conn, ws).0.conns)
  {
    AllocatedIndex(st.conns);
  }

  lemma RequestKeepsInv(cfg: EndpointConfig, st: EpState, conn: Connection, wsClose: Workspace, wsOpen: Workspace)
    requires Inv(cfg, st.conns)
    ensures Inv(cfg, Request(cfg, st, conn, wsClose, wsOpen).0.conns)
  {
    if conn.id in st.conns {
      CloseConnectionKeepsInv(cfg, st, conn, wsClose);
      var (closed, err) := CloseConnection(cfg, st, conn, wsClose);
      if err.None? {
        OpenKeepsInv(cfg, closed, conn, wsOpen);
      }
    } else {
      OpenKeepsInv(cfg, st, conn, wsOpen);
    }
  }

  lemma {:induction false} CloseAllKeepsInv(
    cfg: EndpointConfig, st: EpState, order: seq<string>, ws: string -> Workspace)
    requires Inv(cfg, st.conns)
    ensures Inv(cfg, CloseAll(cfg, st, order, ws).0.conns)
    decreases |order|
  {
    if order == [] {
    } else if order[0] !in st.conns {
      CloseAllKeepsInv(cfg, st, order[1..], ws);
    } else {
      var conn, w := st.conns[order[0]].conn, ws(order[0]);
      CloseConnectionKeepsInv(cfg, st, conn, w);
      CloseAllKeepsInv(cfg, CloseConnection(cfg, st, conn, w).0, order[1..], ws);
    }
  }

  // ---------- single requests ----------

  /** `conns` without the client that is asking. */
  function Others(conns: Connections, id: string): Connections {
    conns - {id}
  }

  /** The index a request by `conn` leads to, were it to succeed. */
  function RequestIndex(cfg: EndpointConfig, conns: Connections, conn: Connection): nat {
    if cfg.IndexMode() then FreeIndex(Others(conns, conn.id)) else 0
  }

  /** Exactly when a request succeeds. A single-client endpoint refuses only a client that is not the connected one. */
  predicate Succeeds(cfg: EndpointConfig, conns: Connections, conn: Connection, wsClose: Workspace, wsOpen: Workspace) {
    && Refused(cfg, conn, wsOpen).None?
    && (conn.id in conns ==> Refused(cfg, conn, wsClose).None?)
    && (cfg.singleClient ==> Others(conns, conn.id) == map[])
  }

  lemma NoOthers(conns: Connections, id: string)
    ensures id !in conns ==> Others(conns, id) == conns
    ensures |Others(conns, id)| > 0 <==> Others(conns, id) != map[]
  {
  }

  lemma CloseEffect(cfg: EndpointConfig, st: EpState, conn: Connection, ws: Workspace)
    ensures CloseConnection(cfg, st, conn, ws) ==
            match Refused(cfg, conn, ws)
            case Some(e) => (st, Some(e))
            case None =>
              (EpState(st.conns - {conn.id}, st.store - {KeyFor(cfg, conn, IndexFor(cfg, st.conns, conn))}), None)
  {
  }

  lemma OpenEffect(cfg: EndpointConfig, st: EpState, conn: Connection, ws: Workspace)
    ensures var i := IndexFor(cfg, st.conns, conn);
            var iface := InterfaceFor(cfg, conn, i);
            Open(cfg, st, conn, ws) ==
            if cfg.singleClient && |st.conns| > 0 then (st, Some(SecondClient))
            else
              match Refused(cfg, conn, ws)
              case Some(e) => (st, Some(e))
              case None => (EpState(st.conns[conn.id := NsmConnection(i, conn)], st.store[iface.key := iface]), None)
  {
  }

  /** The connections and the store once a client that asks again has been disconnected. */
  function Disconnected(cfg: EndpointConfig, st: EpState, conn: Connection): EpState {
    if conn.id in st.conns
    then EpState(st.conns - {conn.id}, st.store - {KeyFor(cfg, conn, IndexFor(cfg, st.conns, conn))})
    else st
  }

  lemma RequestIsOpen(cfg: EndpointConfig, st: EpState, conn: Connection, wsClose: Workspace, wsOpen: Workspace)
    requires conn.id in st.conns ==> Refused(cfg, conn, wsClose).None?
    ensures Request(cfg, st, conn, wsClose, wsOpen) == Open(cfg, Disconnected(cfg, st, conn), conn, wsOpen)
  {
    if conn.id in st.conns {
      CloseEffect(cfg, st, conn, wsClose);
    }
  }

  lemma RequestStopsAtClose(cfg: EndpointConfig, st: EpState, conn: Connection, wsClose: Workspace, wsOpen: Workspace)
    requires conn.id in st.conns && Refused(cfg, conn, wsClose).Some?
    ensures Request(cfg, st, conn, wsClose, wsOpen) == (st, Some(Refused(cfg, conn, wsClose).value))
  {
    CloseEffect(cfg, st, conn, wsClose);
  }

  lemma DisconnectedOthers(cfg: EndpointConfig, st: EpState, conn: Connection)
    ensures Disconnected(cfg, st, conn).conns == Others(st.conns, conn.id)
    ensures IndexFor(cfg, Others(st.conns, conn.id), conn) == RequestIndex(cfg, st.conns, conn)
    ensures |Others(st.conns, conn.id)| > 0 <==> Others(st.conns, conn.id) != map[]
  {
    NoOthers(st.conns, conn.id);
  }

  /** A successful request leaves the asking client connected beside the untouched others. */
  lemma RequestOutcome(cfg: EndpointConfig, st: EpState, conn: Connection, wsClose: Workspace, wsOpen: Workspace)
    ensures var (next, err) := Request(cfg, st, conn, wsClose, wsOpen);
            var i := RequestIndex(cfg, st.conns, conn);
            && (err.None? <==> Succeeds(cfg, st.conns, conn, wsClose, wsOpen))
            && (err.None? ==>
                  next.conns == Others(st.conns, conn.id)[conn.id := NsmConnection(i, conn)])
  {
    if conn.id in st.conns && Refused(cfg, conn, wsClose).Some? {
      RequestStopsAtClose(cfg, st, conn, wsClose, wsOpen);
    } else {
      RequestIsOpen(cfg, st, conn, wsClose, wsOpen);
      DisconnectedOthers(cfg, st, conn);
      OpenEffect(cfg, Disconnected(cfg, st, conn), conn, wsOpen);
    }
  }

  /**
   Requests are failure-atomic with one exception: a reconnect over a memif whose directory was available
   for the disconnect and is not for the connect. Then, and only then, the client loses its connection.
   */
  lemma RequestFailureAtomic(cfg: EndpointConfig, st: EpState, conn: Connection, wsClose: Workspace, wsOpen: Workspace)
    requires Inv(cfg, st.conns)
    requires Request(cfg, st, conn, wsClose, wsOpen).1.Some?
    ensures Request(cfg, st, conn, wsClose, wsOpen).0.conns != st.conns <==>
            && conn.id in st.conns
            && cfg.interfaceType == MemInterface
            && Refused(cfg, conn, wsClose).None?
            && Refused(cfg, conn, wsOpen).Some?
    ensures Request(cfg, st, conn, wsClose, wsOpen).0.conns == st.conns ==>
              Request(cfg, st, conn, wsClose, wsOpen).0 == st
  {
    FailedRequest(cfg, st, conn, wsClose, wsOpen);
    RequestOutcome(cfg, st, conn, wsClose, wsOpen);
    if conn.id in st.conns {
      SmallerMap(st.conns, conn.id);
      assert conn.id !in st.conns - {conn.id};
      if Refused(cfg, conn, wsClose).None? && cfg.singleClient {
        assert |Others(st.conns, conn.id)| == 0;
      }
    }
  }

  /** A single-client endpoint never mistakes its own client for a second one. */
  lemma ReconnectIsNoSecondClient(
    cfg: EndpointConfig, st: EpState, conn: Connection, wsClose: Workspace, wsOpen: Workspace)
    requires Inv(cfg, st.conns) && conn.id in st.conns
    ensures Request(cfg, st, conn, wsClose, wsOpen).1 != Some(SecondClient)
  {
    SmallerMap(st.conns, conn.id);
    if Refused(cfg, conn, wsClose).Some? {
      RequestStopsAtClose(cfg, st, conn, wsClose, wsOpen);
    } else {
      RequestIsOpen(cfg, st, conn, wsClose, wsOpen);
      OpenEffect(cfg, Disconnected(cfg, st, conn), conn, wsOpen);
    }
  }

  /** A successful reconnect in index mode never moves a client to a higher index. */
  lemma ReconnectNeverRaisesIndex(
    cfg: EndpointConfig, st: EpState, conn: Connection, wsClose: Workspace, wsOpen: Workspace)
    requires Inv(cfg, st.conns) && cfg.IndexMode() && conn.id in st.conns
    requires Request(cfg, st, conn, wsClose, wsOpen).1.None?
    ensures Request(cfg, st, conn, wsClose, wsOpen).0.conns[conn.id].index <= st.conns[conn.id].index
  {
    RequestOutcome(cfg, st, conn, wsClose, wsOpen);
    AllocatedIndex(Others(st.conns, conn.id));
    assert !UsesIndex(Others(st.conns, conn.id), st.conns[conn.id].index);
  }

  /** A failed request leaves everything as it was, or as the disconnect of a connected client left it. */
  lemma FailedRequest(cfg: EndpointConfig, st: EpState, conn: Connection, wsClose: Workspace, wsOpen: Workspace)
    requires Request(cfg, st, conn, wsClose, wsOpen).1.Some?
    ensures Request(cfg, st, conn, wsClose, wsOpen).0 ==
            if conn.id in st.conns && Refused(cfg, conn, wsClose).None?
            then EpState(st.conns - {conn.id}, st.store - {KeyFor(cfg, conn, IndexFor(cfg, st.conns, conn))})
            else st
  {
    if conn.id in st.conns && Refused(cfg, conn, wsClose).Some? {
      RequestStopsAtClose(cfg, st, conn, wsClose, wsOpen);
    } else {
      RequestIsOpen(cfg, st, conn, wsClose, wsOpen);
      OpenEffect(cfg, Disconnected(cfg, st, conn), conn, wsOpen);
    }
  }

  /** What a successful request does to the store: one interface replaces the client's previous one. */
  lemma RequestStore(cfg: EndpointConfig, st: EpState, conn: Connection, wsClose: Workspace, wsOpen: Workspace)
    requires Request(cfg, st, conn, wsClose, wsOpen).1.None?
    ensures var iface := InterfaceFor(cfg, conn, RequestIndex(cfg, st.conns, conn));
            Request(cfg, st, conn, wsClose, wsOpen).0.store ==
            (if conn.id in st.conns then st.store - {KeyFor(cfg, conn, IndexFor(cfg, st.conns, conn))} else st.store)
              [iface.key := iface]
  {
    if conn.id in st.conns && Refused(cfg, conn, wsClose).Some? {
      RequestStopsAtClose(cfg, st, conn, wsClose, wsOpen);
    } else {
      RequestIsOpen(cfg, st, conn, wsClose, wsOpen);
      DisconnectedOthers(cfg, st, conn);
      OpenEffect(cfg, Disconnected(cfg, st, conn), conn, wsOpen);
    }
  }

  lemma Rewritten(store: Store, k: InterfaceKey)
    requires k in store
    ensures (store - {k})[k := store[k]] == store
  {
  }

  /** A successful repetition of a successful request leaves table and store as they are. */
  lemma RepeatedSuccess(
    cfg: EndpointConfig, st: EpState, conn: Connection, first: EpState, second: EpState,
    wsClose: Workspace, wsOpen: Workspace, wsClose': Workspace, wsOpen': Workspace)
    requires Request(cfg, st, conn, wsClose, wsOpen) == (first, None)
    requires Request(cfg, first, conn, wsClose', wsOpen') == (second, None)
    ensures second == first
  {
    RequestOutcome(cfg, st, conn, wsClose, wsOpen);
    RequestOutcome(cfg, first, conn, wsClose', wsOpen');
    assert Others(first.conns, conn.id) == Others(st.conns, conn.id);
    assert second.conns == first.conns;
    RequestStore(cfg, st, conn, wsClose, wsOpen);
    RequestStore(cfg, first, conn, wsClose', wsOpen');
    assert IndexFor(cfg, first.conns, conn) == RequestIndex(cfg, st.conns, conn);
    Rewritten(first.store, KeyFor(cfg, conn, RequestIndex(cfg, st.conns, conn)));
  }

  /**
   Repeating a successful request changes nothing, neither in the table nor in the store, except over a memif
   whose directory is available for the disconnect and not for the connect.
   */
  lemma RepeatedRequestIsIdempotent(
    cfg: EndpointConfig, st: EpState, conn: Connection, first: EpState,
    wsClose: Workspace, wsOpen: Workspace, wsClose': Workspace, wsOpen': Workspace)
    requires Inv(cfg, st.conns)
    requires Request(cfg, st, conn, wsClose, wsOpen) == (first, None)
    ensures Request(cfg, first, conn, wsClose', wsOpen').0 == first <==>
            !(cfg.interfaceType == MemInterface && wsClose' == Ready && wsOpen' != Ready)
  {
    RequestKeepsInv(cfg, st, conn, wsClose, wsOpen);
    RequestOutcome(cfg, st, conn, wsClose, wsOpen);
    var (second, err) := Request(cfg, first, conn, wsClose', wsOpen');
    if err.None? {
      RepeatedSuccess(cfg, st, conn, first, second, wsClose, wsOpen, wsClose', wsOpen');
      RequestOutcome(cfg, first, conn, wsClose', wsOpen');
    } else {
      RequestFailureAtomic(cfg, first, conn, wsClose', wsOpen');
    }
  }

  // ---------- closing everything ----------

  /** `order` lists the ids of `conns`, each once: one of the orders in which a map may be ranged over. */
  predicate Enumerates(order: seq<string>, conns: Connections) {
    && (forall i :: 0 <= i < |order| ==> order[i] in conns)
    && (forall id :: id in conns ==> id in order)
    && (forall i, j :: 0 <= i < j < |order| ==> order[i] != order[j])
  }

  /** The interface a stored connection stands for. */
  function StoredKey(cfg: EndpointConfig, c: NsmConnection): InterfaceKey {
    KeyFor(cfg, c.conn, c.index)
  }

  /** The interfaces that the connections of one endpoint stand for. */
  function Keys(cfg: EndpointConfig, conns: Connections): set<InterfaceKey> {
    set id | id in conns :: StoredKey(cfg, conns[id])
  }

  lemma KeysSplit(cfg: EndpointConfig, conns: Connections, id: string)
    requires id in conns
    ensures Keys(cfg, conns) == Keys(cfg, conns - {id}) + {StoredKey(cfg, conns[id])}
  {
    var all, rest := Keys(cfg, conns), conns - {id};
    forall k | k in all ensures k in Keys(cfg, rest) + {StoredKey(cfg, conns[id])} {
      var id' :| id' in conns && StoredKey(cfg, conns[id']) == k;
      assert id' == id || (id' in rest && rest[id'] == conns[id']);
    }
  }

  /** Closing a stored connection frees its id and deletes its own interface, in either naming mode. */
  lemma CloseStored(cfg: EndpointConfig, st: EpState, id: string, ws: Workspace)
    requires Inv(cfg, st.conns) && id in st.conns
    ensures CloseConnection(cfg, st, st.conns[id].conn, ws) ==
            match Refused(cfg, st.conns[id].conn, ws)
            case Some(e) => (st, Some(e))
            case None => (EpState(st.conns - {id}, st.store - {StoredKey(cfg, st.conns[id])}), None)
  {
  }

  lemma DeletedInTurn(store: Store, k: InterfaceKey, ks: set<InterfaceKey>)
    ensures store - {k} - ks == store - (ks + {k})
  {
  }

  lemma EnumerationTail(order: seq<string>, conns: Connections)
    requires Enumerates(order, conns) && order != []
    ensures Enumerates(order[1..], conns - {order[0]})
  {
    var tail := order[1..];
    forall i | 0 <= i < |tail| ensures tail[i] in conns - {order[0]} {
      assert tail[i] == order[i + 1];
    }
  }

  /** Closing the first connection of the order, and then the rest. */
  lemma CloseAllStep(cfg: EndpointConfig, st: EpState, order: seq<string>, ws: string -> Workspace)
    requires Inv(cfg, st.conns) && Enumerates(order, st.conns) && order != []
    ensures order[0] in st.conns
    ensures var id := order[0];
            var next := EpState(st.conns - {id}, st.store - {StoredKey(cfg, st.conns[id])});
            && Inv(cfg, next.conns) && Enumerates(order[1..], next.conns)
            && CloseAll(cfg, st, order, ws) ==
               match Refused(cfg, st.conns[id].conn, ws(id))
               case Some(e) => (st, Some(e))
               case None => CloseAll(cfg, next, order[1..], ws)
  {
    var id := order[0];
    EnumerationTail(order, st.conns);
    CloseStored(cfg, st, id, ws(id));
    CloseConnectionKeepsInv(cfg, st, st.conns[id].conn, Ready);
    CloseStored(cfg, st, id, Ready);
  }

  /**
   Whatever the iteration order, success means that no connection and none of their interfaces is left
   and that nothing else is touched.
   */
  lemma {:induction false} CloseAllSucceeds(
    cfg: EndpointConfig, st: EpState, order: seq<string>, ws: string -> Workspace)
    requires Inv(cfg, st.conns) && Enumerates(order, st.conns)
    requires CloseAll(cfg, st, order, ws).1.None?
    ensures CloseAll(cfg, st, order, ws).0 == EpState(map[], st.store - Keys(cfg, st.conns))
    decreases |order|
  {
    if order == [] {
      assert st.conns.Keys == {};
      assert st.conns == map[];
      assert Keys(cfg, st.conns) == {};
      assert st.store - {} == st.store;
    } else {
      var id := order[0];
      CloseAllStep(cfg, st, order, ws);
      var next := EpState(st.conns - {id}, st.store - {StoredKey(cfg, st.conns[id])});
      CloseAllSucceeds(cfg, next, order[1..], ws);
      KeysSplit(cfg, st.conns, id);
      DeletedInTurn(st.store, StoredKey(cfg, st.conns[id]), Keys(cfg, next.conns));
    }
  }

  /** Closing everything fails exactly when some connection meets an unusable memif directory. */
  lemma {:induction false} CloseAllFailsOnlyForMemif(
    cfg: EndpointConfig, st: EpState, order: seq<string>, ws: string -> Workspace)
    requires Inv(cfg, st.conns) && Enumerates(order, st.conns)
    ensures CloseAll(cfg, st, order, ws).1.Some? <==>
            cfg.interfaceType == MemInterface && exists id :: id in st.conns && ws(id) != Ready
    decreases |order|
  {
    if order == [] {
    } else {
      var id := order[0];
      var c := st.conns[id];
      CloseAllStep(cfg, st, order, ws);
      assert Refused(cfg, c.conn, ws(id)).Some? <==> cfg.interfaceType == MemInterface && ws(id) != Ready;
      if Refused(cfg, c.conn, ws(id)).None? {
        var next := EpState(st.conns - {id}, st.store - {StoredKey(cfg, c)});
        CloseAllFailsOnlyForMemif(cfg, next, order[1..], ws);
        assert forall i :: i in st.conns <==> i == id || i in next.conns;
      }
    }
  }

  /** The first connection in the order whose directory is unusable. */
  ghost predicate StopsAt(order: seq<string>, ws: string -> Workspace, i: nat) {
    i < |order| && ws(order[i]) != Ready && forall j :: 0 <= j < i ==> ws(order[j]) == Ready
  }

  lemma {:induction false} FirstUnusable(order: seq<string>, ws: string -> Workspace) returns (i: nat)
    requires exists id :: id in order && ws(id) != Ready
    ensures StopsAt(order, ws, i)
  {
    if ws(order[0]) != Ready {
      i := 0;
    } else {
      var id :| id in order && ws(id) != Ready;
      assert id in order[1..];
      var k := FirstUnusable(order[1..], ws);
      i := k + 1;
    }
  }

  /** The ids of the first `i` connections in the order. */
  function IdsUpTo(order: seq<string>, i: nat): set<string>
    requires i <= |order|
  {
    set id | id in order[..i]
  }

  /** The interfaces of the first `i` connections in the order. */
  function KeysUpTo(cfg: EndpointConfig, conns: Connections, order: seq<string>, i: nat): set<InterfaceKey>
    requires i <= |order| && Enumerates(order, conns)
  {
    set id | id in order[..i] && id in conns :: StoredKey(cfg, conns[id])
  }

  /** The first `i` connections and their interfaces are gone, and nothing else. */
  function ClosedUpTo(cfg: EndpointConfig, st: EpState, order: seq<string>, i: nat): EpState
    requires i <= |order| && Enumerates(order, st.conns)
  {
    EpState(st.conns - IdsUpTo(order, i), st.store - KeysUpTo(cfg, st.conns, order, i))
  }

  lemma NoneClosed(cfg: EndpointConfig, st: EpState, order: seq<string>)
    requires Enumerates(order, st.conns)
    ensures ClosedUpTo(cfg, st, order, 0) == st
  {
    assert st.conns - IdsUpTo(order, 0) == st.conns;
    assert st.store - KeysUpTo(cfg, st.conns, order, 0) == st.store;
  }

  lemma UpToNext(cfg: EndpointConfig, conns: Connections, order: seq<string>, i: nat)
    requires i < |order| && Enumerates(order, conns)
    ensures order[i] in conns && order[i] !in IdsUpTo(order, i)
    ensures IdsUpTo(order, i + 1) == IdsUpTo(order, i) + {order[i]}
    ensures KeysUpTo(cfg, conns, order, i + 1) == KeysUpTo(cfg, conns, order, i) + {StoredKey(cfg, conns[order[i]])}
  {
    assert order[..i + 1] == order[..i] + [order[i]];
  }

  lemma ClosedNext(cfg: EndpointConfig, st: EpState, order: seq<string>, i: nat)
    requires i < |order| && Enumerates(order, st.conns)
    ensures var closed := ClosedUpTo(cfg, st, order, i);
            && order[i] in st.conns && order[i] in closed.conns && closed.conns[order[i]] == st.conns[order[i]]
            && ClosedUpTo(cfg, st, order, i + 1) ==
               EpState(closed.conns - {order[i]}, closed.store - {StoredKey(cfg, st.conns[order[i]])})
  {
    UpToNext(cfg, st.conns, order, i);
    DeletedInTurn(st.store, StoredKey(cfg, st.conns[order[i]]), KeysUpTo(cfg, st.conns, order, i));
    var ids, keys := IdsUpTo(order, i), KeysUpTo(cfg, st.conns, order, i);
    assert st.conns - (ids + {order[i]}) == st.conns - ids - {order[i]};
    assert st.store - (keys + {StoredKey(cfg, st.conns[order[i]])}) ==
           st.store - keys - {StoredKey(cfg, st.conns[order[i]])};
  }

  /** Closing a connection as it is held. */
  lemma CloseHeld(cfg: EndpointConfig, st: EpState, c: NsmConnection, ws: Workspace)
    requires c.conn.id in st.conns && st.conns[c.conn.id] == c && Accepts(cfg, c.conn)
    requires !cfg.IndexMode() ==> c.index == 0
    requires cfg.interfaceType == MemInterface
    ensures CloseConnection(cfg, st, c.conn, ws) ==
            match ws
            case Ready => (EpState(st.conns - {c.conn.id}, st.store - {StoredKey(cfg, c)}), None)
            case BaseDirUndefined => (st, Some(BaseDirUnknown))
            case MkdirFails => (st, Some(DirectoryNotCreated))
  {
    CloseEffect(cfg, st, c.conn, ws);
  }

  lemma ClosingOneMore(cfg: EndpointConfig, st: EpState, order: seq<string>, ws: string -> Workspace, i: nat)
    requires Inv(cfg, st.conns) && Enumerates(order, st.conns) && cfg.interfaceType == MemInterface && i < |order|
    ensures CloseAll(cfg, ClosedUpTo(cfg, st, order, i), order[i..], ws) ==
            match ws(order[i])
            case Ready => CloseAll(cfg, ClosedUpTo(cfg, st, order, i + 1), order[i + 1..], ws)
            case BaseDirUndefined => (ClosedUpTo(cfg, st, order, i), Some(BaseDirUnknown))
            case MkdirFails => (ClosedUpTo(cfg, st, order, i), Some(DirectoryNotCreated))
  {
    ClosedNext(cfg, st, order, i);
    CloseHeld(cfg, ClosedUpTo(cfg, st, order, i), st.conns[order[i]], ws(order[i]));
    assert order[i..][1..] == order[i + 1..];
  }

  lemma {:induction false} ClosingUpTo(
    cfg: EndpointConfig, st: EpState, order: seq<string>, ws: string -> Workspace, i: nat)
    requires Inv(cfg, st.conns) && Enumerates(order, st.conns) && cfg.interfaceType == MemInterface
    requires i <= |order| && forall j :: 0 <= j < i ==> ws(order[j]) == Ready
    ensures CloseAll(cfg, st, order, ws) == CloseAll(cfg, ClosedUpTo(cfg, st, order, i), order[i..], ws)
  {
    if i == 0 {
      NoneClosed(cfg, st, order);
      assert order[0..] == order;
    } else {
      ClosingUpTo(cfg, st, order, ws, i - 1);
      ClosingOneMore(cfg, st, order, ws, i - 1);
    }
  }

  /**
   Closing everything over a memif stops at the first unusable directory: the connections before and their
   interfaces are gone, and nothing else; the answer tells what is wrong with the directory.
   */
  lemma CloseAllStops(cfg: EndpointConfig, st: EpState, order: seq<string>, ws: string -> Workspace, i: nat)
    requires Inv(cfg, st.conns) && Enumerates(order, st.conns)
    requires cfg.interfaceType == MemInterface && StopsAt(order, ws, i)
    ensures CloseAll(cfg, st, order, ws) ==
            (EpState(st.conns - IdsUpTo(order, i), st.store - KeysUpTo(cfg, st.conns, order, i)),
             Some(if ws(order[i]) == BaseDirUndefined then BaseDirUnknown else DirectoryNotCreated))
  {
    ClosingUpTo(cfg, st, order, ws, i);
    ClosingOneMore(cfg, st, order, ws, i);
  }
}
