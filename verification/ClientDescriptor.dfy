/** The client descriptor over the mesh SDK, as objects; the methods are proved to be the operations of `Clients`. */
module ClientDescriptor {
  import opened Wrappers
  import opened Endpoint
  import opened Clients

  /** The mesh SDK, which hands out and takes back handles. */
  class NsmSdk {
    var next: nat
    var clients: set<nat>
    var conns: set<nat>

    constructor ()
      ensures State() == Clients.START.handles
    {
      next, clients, conns := 0, {}, {};
    }

    function State(): Handles
      reads this
    {
      Handles(next, clients, conns)
    }

    method NewClient() returns (client: nat)
      modifies this
      ensures client == old(next)
      ensures State() == Handles(old(next) + 1, old(clients) + {client}, old(conns))
    {
      client := next;
      next, clients := next + 1, clients + {client};
    }

    method Connect() returns (conn: nat)
      modifies this
      ensures conn == old(next)
      ensures State() == Handles(old(next) + 1, old(clients), old(conns) + {conn})
    {
      conn := next;
      next, conns := next + 1, conns + {conn};
    }

    method Close(conn: nat, ok: bool)
      modifies this
      ensures State() == Clients.Close(old(State()), conn, ok)
    {
      if ok {
        conns := conns - {conn};
      }
    }

    method Destroy(client: nat, ok: bool)
      modifies this
      ensures State() == Clients.Destroy(old(State()), client, ok)
    {
      if ok {
        clients := clients - {client};
      }
    }
  }

  class NSMClientDescriptor {
    const sdk: NsmSdk

    constructor (sdk: NsmSdk)
      ensures this.sdk == sdk
    {
      this.sdk := sdk;
    }

    method Create(t: InterfaceType, o: Answers) returns (metadata: Option<Metadata>)
      modifies sdk
      ensures (sdk.State(), metadata) == Clients.Create(old(sdk.State()), t, o)
    {
      if !o.newClient {
        return None;
      }
      var client := sdk.NewClient();
      if !o.connect {
        sdk.Destroy(client, o.destroy);
        return None;
      }
      var conn := sdk.Connect();
      if !Buildable(t, o.baseDir) {
        sdk.Close(conn, o.close);
        sdk.Destroy(client, o.destroy);
        return None;
      }
      return Some(Metadata(client, conn));
    }

    method Delete(metadata: Metadata, t: InterfaceType, o: Answers) returns (left: Option<Status>)
      modifies sdk
      ensures (sdk.State(), left) == Clients.Delete(old(sdk.State()), metadata, t, o)
    {
      if !Buildable(t, o.baseDir) {
        return Some(LeftOpen);
      }
      sdk.Close(metadata.conn, o.close);
      if !o.close {
        return Some(LeftOpen);
      }
      sdk.Destroy(metadata.client, o.destroy);
      return if !o.destroy then Some(LeftClosed) else None;
    }
  }
}
