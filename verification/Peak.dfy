/** A bound on interface indices over whole runs: none reaches the largest number of clients seen together. */
module Peak {
  import opened Endpoint
  import opened AgentState

  function Size(a: Agent, n: string): nat {
    if n in a.table then |a.table[n].conns| else 0
  }

  /** The largest number of simultaneous connections of service `n` so far. */
  function Highest(events: seq<Event>, n: string): nat {
    var now := Size(Run(events), n);
    if events == [] then now
    else
      var earlier := Highest(events[..|events| - 1], n);
      if earlier < now then now else earlier
  }

  ghost predicate Holds(a: Agent, n: string, id: string, index: nat) {
    n in a.table && id in a.table[n].conns && a.table[n].conns[id].index == index
  }

  /** An index held after a request was held before, or is below the new number of connections. */
  lemma RequestIndices(
    cfg: EndpointConfig, st: EpState, conn: Connection, wsClose: Workspace, wsOpen: Workspace, id: string)
    requires id in Request(cfg, st, conn, wsClose, wsOpen).0.conns
    ensures var next := Request(cfg, st, conn, wsClose, wsOpen).0.conns;
            (id in st.conns && next[id].index == st.conns[id].index) || next[id].index < |next|
  {
    RequestOutcome(cfg, st, conn, wsClose, wsOpen);
    if Request(cfg, st, conn, wsClose, wsOpen).1.None? {
      var others := Others(st.conns, conn.id);
      AllocatedIndex(others);
      var next := Request(cfg, st, conn, wsClose, wsOpen).0.conns;
      assert |next| == |others| + 1;
    } else {
      FailedRequest(cfg, st, conn, wsClose, wsOpen);
    }
  }

  lemma {:induction false} CloseAllIndices(
    cfg: EndpointConfig, st: EpState, order: seq<string>, ws: string -> Workspace, id: string)
    requires id in CloseAll(cfg, st, order, ws).0.conns
    ensures id in st.conns && CloseAll(cfg, st, order, ws).0.conns[id] == st.conns[id]
    decreases |order|
  {
    if order == [] {
    } else if order[0] !in st.conns {
      CloseAllIndices(cfg, st, order[1..], ws, id);
    } else {
      var (next, err) := CloseConnection(cfg, st, st.conns[order[0]].conn, ws(order[0]));
      if err.None? {
        CloseAllIndices(cfg, next, order[1..], ws, id);
      }
    }
  }

  lemma StepIndices(a: Agent, e: Event, n: string, id: string, index: nat)
    requires Holds(Step(a, e), n, id, index)
    ensures Holds(a, n, id, index) || index < Size(Step(a, e), n)
  {
    match e
    case CreateEvent(_, _, _, _) =>
    case DeleteEvent(cfg, order, ws, removed, _) =>
      if cfg.networkService == n && n in a.table {
        CloseAllIndices(a.table[n].cfg, View(a, n), order, ws, id);
      }
    case RequestEvent(conn, wsClose, wsOpen) =>
      if conn.networkService == n && n in a.table {
        RequestIndices(a.table[n].cfg, View(a, n), conn, wsClose, wsOpen, id);
      }
    case CloseEvent(_, _) =>
  }

  /** Through any mix of requests, reconnects, closes and failures, every index stays below the peak. */
  lemma {:induction false} IndexBelowPeak(events: seq<Event>, n: string, id: string, index: nat)
    requires Holds(Run(events), n, id, index)
    ensures index < Highest(events, n)
  {
    if events == [] {
    } else {
      var before := events[..|events| - 1];
      StepIndices(Run(before), events[|events| - 1], n, id, index);
      if Holds(Run(before), n, id, index) {
        IndexBelowPeak(before, n, id, index);
      }
    }
  }

  /** The peak is the maximum over all moments of the run: an upper bound that is attained. */
  lemma {:induction false} HighestIsBound(events: seq<Event>, n: string, i: nat)
    requires i <= |events|
    ensures Size(Before(events, i), n) <= Highest(events, n)
  {
    if i == |events| {
      assert events[..i] == events;
    } else {
      var before := events[..|events| - 1];
      assert events[..i] == before[..i];
      HighestIsBound(before, n, i);
    }
  }

  lemma {:induction false} HighestIsAttained(events: seq<Event>, n: string) returns (i: nat)
    ensures i <= |events| && Size(Before(events, i), n) == Highest(events, n)
  {
    if Size(Run(events), n) == Highest(events, n) {
      assert events[..|events|] == events;
      i := |events|;
    } else {
      var before := events[..|events| - 1];
      i := HighestIsAttained(before, n);
      assert events[..i] == before[..i];
    }
  }
}
