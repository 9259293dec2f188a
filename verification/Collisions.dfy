/**
 The non-collision condition of index mode is not only sufficient: two endpoints on one agent, each for one or
 for many clients, are safe in all runs if and only if they are `Apart`.
 */
module Collisions {
  import opened Wrappers
  import opened Decimal
  import opened Names
  import opened Endpoint
  import opened AgentState
  import opened Agreement
  import opened AgreementSteps
  import opened Separation
  import opened IndexMode

  /** An endpoint whose clients get numbered interfaces. */
  predicate Numbered(c: EndpointConfig) {
    c.IndexMode() && !c.interfaceType.UnknownInterface?
  }

  /** So many clients can be connected at once. */
  predicate Admits(c: EndpointConfig, m: nat) {
    c.singleClient ==> m <= 1
  }

  /** Only these two endpoints are ever configured, and never over live connections. */
  ghost predicate OnlyTwo(events: seq<Event>, c: EndpointConfig, d: EndpointConfig) {
    && CreatesFrom(events, {c, d})
    && forall i :: 0 <= i < |events| && events[i].CreateEvent? ==>
         AddNamesKept(Before(events, i), events[i].cfg, events[i].setup, events[i].registered)
  }

  lemma TwoApartAreCareful(events: seq<Event>, c: EndpointConfig, d: EndpointConfig)
    requires Numbered(c) && Numbered(d) && Apart(c, d) && OnlyTwo(events, c, d)
    ensures CarefulRun(events)
  {
    ApartIsSymmetric(c, d);
    forall i | 0 <= i < |events| ensures Careful(Before(events, i), events[i]) {
      ConfigsInTable(events, {c, d}, i);
      RunKeepsInv(events[..i]);
    }
  }

  // ---------- filling two endpoints with clients ----------

  function Client(n: string, k: nat): Connection {
    Connection(Itoa(k), n, map[], "")
  }

  function Arrivals(n: string, m: nat): seq<Event> {
    if m == 0 then [] else Arrivals(n, m - 1) + [RequestEvent(Client(n, m - 1), Ready, Ready)]
  }

  /** Clients 0 .. m-1 are connected, each under its own number. */
  ghost predicate Filled(conns: Connections, m: nat) {
    && (forall k: nat :: k < m ==> Itoa(k) in conns && conns[Itoa(k)].index == k)
    && (forall id :: id in conns ==> conns[id].index < m && id == Itoa(conns[id].index))
  }

  lemma FilledNext(conns: Connections, m: nat, conn: Connection)
    requires Filled(conns, m) && conn.id == Itoa(m)
    ensures conn.id !in conns && FreeIndex(conns) == m
    ensures Filled(conns[conn.id := NsmConnection(m, conn)], m + 1)
  {
    forall i | 0 <= i < m ensures UsesIndex(conns, i) {
      assert Itoa(i) in conns;
    }
    FreeIndexUnique(conns, m);
    if conn.id in conns {
      ItoaInjective(conns[conn.id].index, m);
    }
  }

  /** From `a` to `b` exactly the clients 0 .. m-1 of service `n` have arrived. */
  ghost predicate Arrived(a: Agent, b: Agent, n: string, m: nat) {
    && n in a.table && b.table.Keys == a.table.Keys
    && b.table[n].cfg == a.table[n].cfg && Filled(b.table[n].conns, m)
    && (forall n' :: n' in a.table && n' != n ==> b.table[n'] == a.table[n'])
  }

  /** The next client is accepted under the next number. */
  lemma NextClient(cfg: EndpointConfig, st: EpState, n: string, m: nat)
    requires Filled(st.conns, m) && Numbered(cfg) && Admits(cfg, m + 1)
    ensures Request(cfg, st, Client(n, m), Ready, Ready).0.conns ==
            st.conns[Itoa(m) := NsmConnection(m, Client(n, m))]
    ensures Filled(st.conns[Itoa(m) := NsmConnection(m, Client(n, m))], m + 1)
  {
    FilledNext(st.conns, m, Client(n, m));
    NoOthers(st.conns, Itoa(m));
    if cfg.singleClient {
      assert st.conns.Keys == {};
    }
    RequestOutcome(cfg, st, Client(n, m), Ready, Ready);
  }

  lemma OneArrival(a: Agent, b: Agent, n: string, m: nat)
    requires Arrived(a, b, n, m) && Numbered(a.table[n].cfg) && Admits(a.table[n].cfg, m + 1)
    ensures Arrived(a, Step(b, RequestEvent(Client(n, m), Ready, Ready)), n, m + 1)
  {
    NextClient(b.table[n].cfg, View(b, n), n, m);
  }

  lemma {:induction false} AfterArrivals(before: seq<Event>, n: string, m: nat)
    requires n in Run(before).table && Run(before).table[n].conns == map[]
    requires Numbered(Run(before).table[n].cfg) && Admits(Run(before).table[n].cfg, m)
    ensures Arrived(Run(before), Run(before + Arrivals(n, m)), n, m)
  {
    var events := before + Arrivals(n, m);
    if m == 0 {
      assert events == before;
    } else {
      AfterArrivals(before, n, m - 1);
      RunNext(before + Arrivals(n, m - 1), RequestEvent(Client(n, m - 1), Ready, Ready));
      assert events == before + Arrivals(n, m - 1) + [RequestEvent(Client(n, m - 1), Ready, Ready)];
      OneArrival(Run(before), Run(before + Arrivals(n, m - 1)), n, m - 1);
    }
  }

  lemma {:induction false} ArrivalsAreRequests(n: string, m: nat)
    ensures forall i :: 0 <= i < |Arrivals(n, m)| ==> Arrivals(n, m)[i].RequestEvent?
  {
    if m == 0 {
    } else {
      ArrivalsAreRequests(n, m - 1);
    }
  }

  // ---------- the breaking run ----------

  /** Both endpoints are created, then `i` clients connect to the first and `j` to the second. */
  function Meeting(c: EndpointConfig, d: EndpointConfig, i: nat, j: nat): seq<Event> {
    [Creation(c, "nse-c"), Creation(d, "nse-d")] + Arrivals(c.networkService, i) + Arrivals(d.networkService, j)
  }

  lemma BothCreated(c: EndpointConfig, d: EndpointConfig)
    requires c.networkService != d.networkService
    ensures var events := [Creation(c, "nse-c"), Creation(d, "nse-d")];
            && Run(events).table == map[c.networkService := Entry("nse-c", c, map[]),
                                        d.networkService := Entry("nse-d", d, map[])]
            && PossibleRun(events) && OnlyTwo(events, c, d)
  {
    var events := [Creation(c, "nse-c"), Creation(d, "nse-d")];
    assert events[..0] == [];
    assert events[..1] == [Creation(c, "nse-c")];
    assert events[..1][..0] == [];
    BeforeStep(events, 0);
    BeforeStep(events, 1);
    assert events[..2] == events;
    assert Before(events, 1).registry == map["nse-c" := c.networkService];
  }

  lemma MoreRequests(before: seq<Event>, after: seq<Event>, c: EndpointConfig, d: EndpointConfig)
    requires PossibleRun(before) && OnlyTwo(before, c, d)
    requires forall i :: 0 <= i < |after| ==> after[i].RequestEvent?
    ensures PossibleRun(before + after) && OnlyTwo(before + after, c, d)
  {
    var events := before + after;
    forall i | 0 <= i < |before| ensures Before(events, i) == Before(before, i) {
      assert events[..i] == before[..i];
    }
  }

  lemma MeetingIsPossible(c: EndpointConfig, d: EndpointConfig, i: nat, j: nat)
    requires c.networkService != d.networkService
    ensures PossibleRun(Meeting(c, d, i, j)) && OnlyTwo(Meeting(c, d, i, j), c, d)
  {
    var two := [Creation(c, "nse-c"), Creation(d, "nse-d")];
    BothCreated(c, d);
    ArrivalsAreRequests(c.networkService, i);
    MoreRequests(two, Arrivals(c.networkService, i), c, d);
    ArrivalsAreRequests(d.networkService, j);
    MoreRequests(two + Arrivals(c.networkService, i), Arrivals(d.networkService, j), c, d);
  }

  /** After it, clients 0 .. i-1 and 0 .. j-1 are connected, each under its number. */
  lemma MeetingState(c: EndpointConfig, d: EndpointConfig, i: nat, j: nat)
    requires Numbered(c) && Numbered(d) && c.networkService != d.networkService && Admits(c, i) && Admits(d, j)
    ensures var a := Run(Meeting(c, d, i, j));
            && c.networkService in a.table && a.table[c.networkService].cfg == c
            && d.networkService in a.table && a.table[d.networkService].cfg == d
            && Filled(a.table[c.networkService].conns, i) && Filled(a.table[d.networkService].conns, j)
  {
    var two := [Creation(c, "nse-c"), Creation(d, "nse-d")];
    BothCreated(c, d);
    AfterArrivals(two, c.networkService, i);
    AfterArrivals(two + Arrivals(c.networkService, i), d.networkService, j);
  }

  /** If the names of two endpoints meet at indices they can reach, enough clients break agreement. */
  lemma MeetingBreaks(c: EndpointConfig, d: EndpointConfig, i: nat, j: nat)
    requires Numbered(c) && Numbered(d) && c.networkService != d.networkService
    requires Admits(c, i + 1) && Admits(d, j + 1)
    requires BackendOf(c) == BackendOf(d)
    requires c.interfaceNamePrefix + Itoa(i) == d.interfaceNamePrefix + Itoa(j)
    ensures var events := Meeting(c, d, i + 1, j + 1);
            PossibleRun(events) && OnlyTwo(events, c, d) && !Agree(Run(events))
  {
    var n, n' := c.networkService, d.networkService;
    MeetingIsPossible(c, d, i + 1, j + 1);
    MeetingState(c, d, i + 1, j + 1);
    var a := Run(Meeting(c, d, i + 1, j + 1));
    assert Live(a, n, Itoa(i)) && Live(a, n', Itoa(j));
    assert KeyOf(a, n, Itoa(i)) == KeyOf(a, n', Itoa(j));
  }

  /** Endpoints that are not apart meet at indices they can reach. */
  lemma NotApartMeet(c: EndpointConfig, d: EndpointConfig) returns (i: nat, j: nat)
    requires !Apart(c, d)
    ensures Admits(c, i + 1) && Admits(d, j + 1)
    ensures BackendOf(c) == BackendOf(d) && c.interfaceNamePrefix + Itoa(i) == d.interfaceNamePrefix + Itoa(j)
  {
    var p, q := c.interfaceNamePrefix, d.interfaceNamePrefix;
    i, j := 0, 0;
    if p != q {
      if Extends(p, q) && !c.singleClient {
        i := ExtendsMeets(p, q, 0);
      } else {
        j := ExtendsMeets(q, p, 0);
      }
    }
  }

  /**
   Two numbered endpoints may share an agent, whatever happens, exactly if they are apart. A single-client
   endpoint is never in the way of a longer prefix.
   */
  lemma SafeTogetherIffApart(c: EndpointConfig, d: EndpointConfig)
    requires Numbered(c) && Numbered(d) && c.networkService != d.networkService
    ensures (forall events :: PossibleRun(events) && OnlyTwo(events, c, d) ==> Agree(Run(events))) <==> Apart(c, d)
  {
    if Apart(c, d) {
      forall events | PossibleRun(events) && OnlyTwo(events, c, d) ensures Agree(Run(events)) {
        TwoApartAreCareful(events, c, d);
        IndexModeAgreement(events);
      }
    } else {
      var i, j := NotApartMeet(c, d);
      MeetingBreaks(c, d, i, j);
    }
  }
}
