/** The endpoint descriptor: creates and deletes endpoints, and announces them if there is a publisher. */
module EndpointDescriptor {
  import opened Wrappers
  import opened Endpoint
  import opened NsmEndpoint
  import opened AgentState
  import opened Demux

  /** Publishes keys; whether a call succeeds is not up to the caller. */
  class NotificationPublisher {
    var published: set<string>

    constructor ()
      ensures published == {}
    {
      published := {};
    }

    method Put(key: string, succeeds: bool)
      modifies this
      ensures published == old(published) + if succeeds then {key} else {}
    {
      if succeeds {
        published := published + {key};
      }
    }

    method Delete(key: string, succeeds: bool)
      modifies this
      ensures published == old(published) - if succeeds then {key} else {}
    {
      if succeeds {
        published := published - {key};
      }
    }
  }

  /** The keys that announce the labels of an endpoint, in order. */
  function LabelKeys(cfg: EndpointConfig): (keys: seq<string>)
    ensures |keys| == |cfg.advertisedLabels|
    ensures forall i :: 0 <= i < |keys| ==> keys[i] == LabelKey(cfg, i)
  {
    seq(|cfg.advertisedLabels|, i requires 0 <= i < |cfg.advertisedLabels| => LabelKey(cfg, i))
  }

  /** Those of the first `i` keys for which the publisher does what it is asked. */
  ghost function Accepted(keys: seq<string>, i: nat, accepts: nat -> bool): set<string>
    requires i <= |keys|
  {
    if i == 0 then {}
    else Accepted(keys, i - 1, accepts) + if accepts(i - 1) then {keys[i - 1]} else {}
  }

  lemma {:induction false} AcceptedKeys(keys: seq<string>, i: nat, accepts: nat -> bool, k: string)
    requires i <= |keys|
    ensures k in Accepted(keys, i, accepts) <==> exists j: nat :: j < i && accepts(j) && k == keys[j]
  {
    if i == 0 {
    } else {
      AcceptedKeys(keys, i - 1, accepts, k);
      assert (exists j: nat :: j < i && accepts(j) && k == keys[j]) <==>
             (exists j: nat :: j < i - 1 && accepts(j) && k == keys[j]) || (accepts(i - 1) && k == keys[i - 1]);
    }
  }

  /** All labels together are the keys of the endpoint for which the publisher works. */
  lemma AllAccepted(cfg: EndpointConfig, accepts: nat -> bool)
    ensures Accepted(LabelKeys(cfg), |LabelKeys(cfg)|, accepts) == Effective(cfg, accepts)
  {
    var keys := LabelKeys(cfg);
    forall k ensures k in Accepted(keys, |keys|, accepts) <==> k in Effective(cfg, accepts) {
      AcceptedKeys(keys, |keys|, accepts, k);
    }
  }

  lemma WithdrawOne(published: set<string>, withdrawn: set<string>, next: set<string>)
    ensures published - withdrawn - next == published - (withdrawn + next)
  {
  }

  method PutEach(publisher: NotificationPublisher, keys: seq<string>, put: nat -> bool)
    modifies publisher
    ensures publisher.published == old(publisher.published) + Accepted(keys, |keys|, put)
  {
    for i := 0 to |keys|
      invariant publisher.published == old(publisher.published) + Accepted(keys, i, put)
    {
      publisher.Put(keys[i], put(i));
    }
  }

  method DeleteEach(publisher: NotificationPublisher, keys: seq<string>, unput: nat -> bool)
    modifies publisher
    ensures publisher.published == old(publisher.published) - Accepted(keys, |keys|, unput)
  {
    for i := 0 to |keys|
      invariant publisher.published == old(publisher.published) - Accepted(keys, i, unput)
    {
      WithdrawOne(old(publisher.published), Accepted(keys, i, unput), if unput(i) then {keys[i]} else {});
      publisher.Delete(keys[i], unput(i));
    }
  }

  /** `a` with what belongs to the descriptor filled in. */
  function Described(a: Agent, configured: map<string, EndpointConfig>, published: set<string>): Agent {
    a.(configured := configured, published := published)
  }

  /** The demultiplexer does not care about what belongs to the descriptor. */
  lemma CreateDescribed(a: Agent, configured: map<string, EndpointConfig>, published: set<string>,
                        cfg: EndpointConfig, setup: Setup, answer: Option<string>, put: nat -> bool)
    ensures var (b, err) := AddEndpoint(a, cfg, setup, answer);
            AgentState.Create(Described(a, configured, published), cfg, setup, answer, put) ==
            if err.Some? then (Described(b, configured, published), err)
            else (Described(b, configured[cfg.networkService := cfg], published + Effective(cfg, put)), None)
  {
  }

  lemma DeleteDescribed(a: Agent, configured: map<string, EndpointConfig>, published: set<string>,
                        cfg: EndpointConfig, order: seq<string>, ws: string -> Workspace, removed: bool,
                        unput: nat -> bool)
    ensures AgentState.Delete(Described(a, configured, published), cfg, order, ws, removed, unput) ==
            Described(DeleteEndpoint(a, cfg.networkService, order, ws, removed).0,
                      configured - {cfg.networkService}, published - Effective(cfg, unput))
  {
  }

  class NSMEndpointDescriptor {
    const localclient: ConfigClient
    const notifPublisher: NotificationPublisher?
    const epDemux: NSMEndpointDemux
    ghost var configured: map<string, EndpointConfig>

    constructor (epDemux: NSMEndpointDemux, localclient: ConfigClient, notifPublisher: NotificationPublisher?)
      requires epDemux.Valid() && epDemux.localclient == localclient && epDemux.Abs() == INITIAL
      requires notifPublisher != null ==> notifPublisher.published == {}
      ensures Valid() && Abs() == INITIAL
      ensures this.epDemux == epDemux && this.localclient == localclient && this.notifPublisher == notifPublisher
    {
      this.epDemux, this.localclient, this.notifPublisher, configured := epDemux, localclient, notifPublisher, map[];
    }

    ghost predicate Valid()
      reads this, epDemux, epDemux.Repr
    {
      epDemux.Valid() && epDemux.localclient == localclient
    }

    ghost function Published(): set<string>
      reads notifPublisher
    {
      if notifPublisher == null then {} else notifPublisher.published
    }

    /** The state of the whole agent. */
    ghost function Abs(): Agent
      requires Valid()
      reads this, epDemux, epDemux.Repr, epDemux.remote, localclient, notifPublisher
    {
      Described(epDemux.Abs(), configured, Published())
    }

    /** Publications succeed only if there is a publisher. */
    function WithPublisher(accepts: nat -> bool): nat -> bool {
      (i: nat) => notifPublisher != null && accepts(i)
    }

    lemma EffectiveAreAccepted(cfg: EndpointConfig, accepts: nat -> bool)
      ensures Effective(cfg, WithPublisher(accepts)) ==
              if notifPublisher == null then {} else Accepted(LabelKeys(cfg), |LabelKeys(cfg)|, accepts)
    {
      AllAccepted(cfg, accepts);
    }

    /** Announces an endpoint that has just been added. */
    method Announce(cfg: EndpointConfig, put: nat -> bool)
      requires Valid()
      modifies this`configured, notifPublisher
      ensures Valid() && epDemux.Abs() == old(epDemux.Abs())
      ensures configured == old(configured)[cfg.networkService := cfg]
      ensures Published() == old(Published()) + Effective(cfg, WithPublisher(put))
    {
      if notifPublisher != null {
        PutEach(notifPublisher, LabelKeys(cfg), put);
      }
      EffectiveAreAccepted(cfg, put);
      configured := configured[cfg.networkService := cfg];
      epDemux.RegistryChanged();
    }

    /** Withdraws the announcements of an endpoint, whether or not it could be deleted. */
    method Withdraw(cfg: EndpointConfig, unput: nat -> bool)
      requires Valid()
      modifies this`configured, notifPublisher
      ensures Valid() && epDemux.Abs() == old(epDemux.Abs())
      ensures configured == old(configured) - {cfg.networkService}
      ensures Published() == old(Published()) - Effective(cfg, WithPublisher(unput))
    {
      if notifPublisher != null {
        DeleteEach(notifPublisher, LabelKeys(cfg), unput);
      }
      EffectiveAreAccepted(cfg, unput);
      configured := configured - {cfg.networkService};
      epDemux.RegistryChanged();
    }

    /** Hands a new endpoint to the demultiplexer. */
    method Add(cfg: EndpointConfig, setup: Setup, answer: Option<string>) returns (err: Option<Error>)
      requires Valid()
      modifies epDemux, epDemux.remote
      ensures Valid()
      ensures (epDemux.Abs(), err) == AddEndpoint(old(epDemux.Abs()), cfg, setup, answer)
    {
      var ep := new NSMEndpoint(cfg, localclient);
      err := epDemux.AddEndpoint(ep, setup, answer);
    }

    method Create(cfg: EndpointConfig, setup: Setup, answer: Option<string>, put: nat -> bool)
      returns (err: Option<Error>)
      requires Valid()
      modifies this`configured, epDemux, epDemux.remote, notifPublisher
      ensures Valid()
      ensures (Abs(), err) == AgentState.Create(old(Abs()), cfg, setup, answer, WithPublisher(put))
    {
      ghost var before, published := epDemux.Abs(), Published();
      CreateDescribed(before, configured, published, cfg, setup, answer, WithPublisher(put));
      err := Add(cfg, setup, answer);
      if err.Some? {
        return;
      }
      Announce(cfg, put);
    }

    method Delete(cfg: EndpointConfig, ws: string -> Workspace, accepts: bool, unput: nat -> bool)
      returns (ghost order: seq<string>)
      requires Valid()
      modifies this`configured, epDemux, epDemux.remote, epDemux.Repr, localclient, notifPublisher
      ensures Valid()
      ensures cfg.networkService in old(Abs()).table ==> Enumerates(order, old(Abs()).table[cfg.networkService].conns)
      ensures Abs() == AgentState.Delete(old(Abs()), cfg, order, ws, accepts, WithPublisher(unput))
    {
      var err;
      ghost var before, published := epDemux.Abs(), Published();
      err, order := epDemux.DeleteEndpoint(cfg.networkService, ws, accepts);
      DeleteDescribed(before, configured, published, cfg, order, ws, accepts, WithPublisher(unput));
      Withdraw(cfg, unput);
    }
  }
}
