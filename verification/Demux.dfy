/**
 The demultiplexer as an object over many endpoints that share one configuration client, and the endpoint
 descriptor in front of it. Every method is proved to be the corresponding step of `AgentState`.
 */
module Demux {
  import opened Wrappers
  import opened Endpoint
  import opened NsmEndpoint
  import opened AgentState

  /** The registry of the network service mesh, which accepts or refuses. */
  class NseRegistry {
    var entries: map<string, string>

    constructor ()
      ensures entries == map[]
    {
      entries := map[];
    }

    method RegisterNSE(service: string, answer: Option<string>) returns (name: Option<string>)
      modifies this
      ensures name == answer
      ensures entries == if answer.Some? then old(entries)[answer.value := service] else old(entries)
    {
      if answer.Some? {
        entries := entries[answer.value := service];
      }
      return answer;
    }

    method RemoveNSE(name: string, accepts: bool) returns (ok: bool)
      modifies this
      ensures ok == accepts
      ensures entries == if accepts then old(entries) - {name} else old(entries)
    {
      if accepts {
        entries := entries - {name};
      }
      return accepts;
    }
  }

  datatype EndpointReg = EndpointReg(epName: string, service: NSMEndpoint)

  /** What a registration means. */
  ghost function EntryOf(reg: EndpointReg): Entry
    reads reg.service
  {
    Entry(reg.epName, reg.service.cfg, reg.service.connections)
  }

  class NSMEndpointDemux {
    var connected: bool
    var nsmRegistry: NseRegistry?
    var endpoints: map<string, EndpointReg>
    const remote: NseRegistry
    ghost const localclient: ConfigClient
    ghost var Repr: set<NSMEndpoint>

    constructor (remote: NseRegistry, ghost localclient: ConfigClient)
      requires remote.entries == map[] && localclient.Drained() == map[]
      ensures Valid() && Abs() == INITIAL && Repr == {}
      ensures this.remote == remote && this.localclient == localclient
    {
      this.remote, this.localclient := remote, localclient;
      connected, nsmRegistry, endpoints, Repr := false, null, map[], {};
    }

    /**
     Whoever has an endpoint in the table has a registry client; different names stand for different endpoint
     objects over one client, each of them in order.
     */
    ghost predicate Valid()
      reads this, Repr
    {
      && (connected ==> nsmRegistry == remote)
      && (endpoints != map[] ==> connected)
      && (forall n :: n in endpoints ==> endpoints[n].service in Repr)
      && (forall n :: n in endpoints ==> Registered(n))
      && (forall n, n' :: n in endpoints && n' in endpoints && n != n' ==>
            endpoints[n].service != endpoints[n'].service)
    }

    ghost predicate Registered(n: string)
      requires n in endpoints
      reads this, Repr
    {
      var service := endpoints[n].service;
      && service in Repr
      && service.localclient == localclient
      && service.cfg.networkService == n
      && Inv(service.cfg, service.connections)
    }

    /** The abstract state; what belongs to the descriptor is left empty. */
    ghost function Abs(): Agent
      requires Valid()
      reads this, Repr, remote, localclient
    {
      Agent(connected, Table(), remote.entries, localclient.Drained(), map[], {})
    }

    ghost function Table(): map<string, Entry>
      requires Valid()
      reads this, Repr
    {
      map n | n in endpoints :: EntryOf(endpoints[n])
    }

    /** Only the connections of one endpoint, and the client, may have changed. */
    twostate predicate OnlyOneChanged(nseName: string)
      reads this, Repr, remote
      requires old(Valid())
    {
      && nseName in endpoints
      && connected == old(connected) && nsmRegistry == old(nsmRegistry)
      && endpoints == old(endpoints) && Repr == old(Repr)
      && remote.entries == old(remote.entries)
      && forall o :: o in Repr && o != endpoints[nseName].service ==> o.connections == old(o.connections)
    }

    twostate lemma StillValid(nseName: string)
      requires old(Valid()) && OnlyOneChanged(nseName)
      requires Inv(endpoints[nseName].service.cfg, endpoints[nseName].service.connections)
      ensures Valid()
    {
      forall n | n in endpoints ensures Registered(n) {
        assert old(Registered(n));
      }
    }

    /** What an operation of one endpoint means for the whole: only its entry and the store have changed. */
    twostate lemma OneEndpointChanged(nseName: string)
      requires old(Valid()) && Valid() && OnlyOneChanged(nseName)
      ensures Abs() == With(old(Abs()), nseName, endpoints[nseName].service.State())
    {
      var entry := old(Table())[nseName].(conns := endpoints[nseName].service.connections);
      forall n | n in endpoints ensures Table()[n] == old(Table())[nseName := entry][n] {
        assert old(Registered(n)) && Registered(n);
      }
      assert Table() == old(Table())[nseName := entry];
    }

    /** Only the registry has changed. */
    twostate predicate OnlyRegistryChanged()
      reads this, Repr, localclient
      requires old(Valid())
    {
      && connected == old(connected) && nsmRegistry == old(nsmRegistry)
      && endpoints == old(endpoints) && Repr == old(Repr)
      && localclient.Drained() == old(localclient.Drained())
      && forall o :: o in Repr ==> o.connections == old(o.connections)
    }

    twostate lemma RegistryChanged()
      requires old(Valid()) && OnlyRegistryChanged()
      ensures Valid() && Abs() == old(Abs()).(registry := remote.entries)
    {
      forall n | n in endpoints ensures Registered(n) {
        assert old(Registered(n));
      }
      assert Table() == old(Table());
    }

    /** The one-time connection to the mesh, and the server for requests. */
    method Connect(setup: Setup) returns (ok: bool)
      requires Valid()
      modifies this`nsmRegistry, this`connected
      ensures Valid() && endpoints == old(endpoints)
      ensures ok == (old(connected) || setup == SetupOk)
      ensures Abs() == if ok then old(Abs()).(connected := true) else old(Abs())
      ensures ok ==> connected
    {
      if !connected {
        if setup != SetupOk {
          return false;
        }
        nsmRegistry := remote;
        connected := true;
      }
      return true;
    }

    /** A registration enters the table, where it may replace another. */
    method Enter(nseName: string, reg: EndpointReg)
      requires Valid() && connected && reg.service !in Repr
      requires reg.service.localclient == localclient && reg.service.connections == map[]
      requires reg.service.cfg.networkService == nseName
      modifies this`endpoints, this`Repr
      ensures Valid() && Repr == old(Repr) + {reg.service}
      ensures Abs() == old(Abs()).(table := old(Abs()).table[nseName := Entry(reg.epName, reg.service.cfg, map[])])
    {
      endpoints := endpoints[nseName := reg];
      Repr := Repr + {reg.service};
      EnteredValid(nseName);
      EnteredTable(nseName);
    }

    /** One registration is new, and its endpoint was not in the table before. */
    twostate predicate Entered(nseName: string)
      reads this, Repr
      requires old(Valid())
    {
      && nseName in endpoints && endpoints == old(endpoints)[nseName := endpoints[nseName]]
      && Repr == old(Repr) + {endpoints[nseName].service} && endpoints[nseName].service !in old(Repr)
      && forall o :: o in old(Repr) ==> o.connections == old(o.connections)
    }

    twostate lemma EnteredValid(nseName: string)
      requires old(Valid()) && Entered(nseName) && Registered(nseName)
      requires connected && nsmRegistry == remote
      ensures Valid()
    {
      forall n | n in endpoints && n != nseName
        ensures Registered(n) && endpoints[n] == old(endpoints)[n] && endpoints[n].service in old(Repr)
      {
        assert old(Registered(n));
      }
    }

    twostate lemma EnteredTable(nseName: string)
      requires old(Valid()) && Valid() && nseName in endpoints
      requires endpoints == old(endpoints)[nseName := endpoints[nseName]]
      requires forall o :: o in old(Repr) ==> o.connections == old(o.connections)
      ensures Table() == old(Table())[nseName := EntryOf(endpoints[nseName])]
    {
      var expected := old(Table())[nseName := EntryOf(endpoints[nseName])];
      forall n | n in endpoints ensures n in expected && expected[n] == EntryOf(endpoints[n]) {
        if n != nseName {
          EntryStays(n);
        }
      }
      TableIs(expected);
    }

    twostate lemma EntryStays(n: string)
      requires old(Valid()) && n in old(endpoints) && n in endpoints && endpoints[n] == old(endpoints[n])
      requires forall o :: o in old(Repr) ==> o.connections == old(o.connections)
      ensures old(Table())[n] == EntryOf(endpoints[n])
    {
      assert old(endpoints[n]).service in old(Repr);
    }

    lemma TableIs(expected: map<string, Entry>)
      requires Valid()
      requires expected.Keys == endpoints.Keys
      requires forall n :: n in endpoints ==> expected[n] == EntryOf(endpoints[n])
      ensures Table() == expected
    {
    }

    /** A registration leaves the table. */
    method Leave(nseName: string)
      requires Valid()
      modifies this`endpoints
      ensures Valid()
      ensures Abs() == old(Abs()).(table := old(Abs()).table - {nseName})
    {
      endpoints := endpoints - {nseName};
      forall n | n in endpoints ensures Registered(n) {
        assert old(Registered(n));
      }
      assert Table() == old(Table()) - {nseName};
    }

    method AddEndpoint(service: NSMEndpoint, setup: Setup, answer: Option<string>) returns (err: Option<Error>)
      requires Valid() && service !in Repr
      requires service.localclient == localclient && service.connections == map[]
      modifies this, remote
      ensures Valid()
      ensures (Abs(), err) == AgentState.AddEndpoint(old(Abs()), service.cfg, setup, answer)
      ensures Repr <= old(Repr) + {service}
    {
      var ready := Connect(setup);
      if !ready {
        return Some(SetupFailed);
      }
      ghost var before := Abs();
      var nseName := service.cfg.networkService;
      label Ready:
      var name := nsmRegistry.RegisterNSE(nseName, answer);
      RegistryChanged@Ready();
      if name.None? {
        return Some(RegistrationFailed);
      }
      Enter(nseName, EndpointReg(name.value, service));
      return None;
    }

    /** Closes the connections of one endpoint, as far as that gets. */
    method CloseEndpoint(nseName: string, ws: string -> Workspace)
      returns (err: Option<Error>, ghost order: seq<string>)
      requires Valid() && nseName in endpoints
      modifies localclient, Repr
      ensures Valid() && OnlyOneChanged(nseName)
      ensures Enumerates(order, old(Abs()).table[nseName].conns)
      ensures var (st, e) := CloseAll(old(Abs()).table[nseName].cfg, View(old(Abs()), nseName), order, ws);
              Abs() == With(old(Abs()), nseName, st) && err == e
    {
      var service := endpoints[nseName].service;
      ghost var before := service.State();
      err, order := service.CloseConnections(ws);
      CloseAllKeepsInv(service.cfg, before, order, ws);
      StillValid(nseName);
      OneEndpointChanged(nseName);
    }

    method DeleteEndpoint(nseName: string, ws: string -> Workspace, accepts: bool)
      returns (err: Option<Error>, ghost order: seq<string>)
      requires Valid()
      modifies this, remote, localclient, Repr
      ensures Valid()
      ensures nseName in old(endpoints) ==> Enumerates(order, old(endpoints[nseName].service.connections))
      ensures (Abs(), err) == AgentState.DeleteEndpoint(old(Abs()), nseName, order, ws, accepts)
    {
      order := [];
      if nseName !in endpoints {
        return Some(NoSuchService), order;
      }
      var ep := endpoints[nseName];
      err, order := CloseEndpoint(nseName, ws);
      if err.Some? {
        return;
      }
      label Closed:
      var ok := nsmRegistry.RemoveNSE(ep.epName, accepts);
      RegistryChanged@Closed();
      if !ok {
        return Some(RemovalFailed), order;
      }
      Leave(nseName);
    }

    method Request(conn: Connection, wsClose: Workspace, wsOpen: Workspace) returns (err: Option<Error>)
      requires Valid()
      modifies localclient, Repr
      ensures Valid()
      ensures (Abs(), err) == RouteRequest(old(Abs()), conn, wsClose, wsOpen)
    {
      var nseName := conn.networkService;
      if nseName !in endpoints {
        return Some(NoSuchService);
      }
      var ep := endpoints[nseName];
      RequestKeepsInv(ep.service.cfg, ep.service.State(), conn, wsClose, wsOpen);
      err := ep.service.Request(conn, wsClose, wsOpen);
      StillValid(nseName);
      OneEndpointChanged(nseName);
    }

    method Close(conn: Connection, ws: Workspace) returns (err: Option<Error>)
      requires Valid()
      modifies localclient, Repr
      ensures Valid()
      ensures (Abs(), err) == RouteClose(old(Abs()), conn, ws)
    {
      var nseName := conn.networkService;
      if nseName !in endpoints {
        return Some(NoSuchService);
      }
      var ep := endpoints[nseName];
      CloseConnectionKeepsInv(ep.service.cfg, ep.service.State(), conn, ws);
      err := ep.service.Close(conn, ws);
      StillValid(nseName);
      OneEndpointChanged(nseName);
    }
  }
}
