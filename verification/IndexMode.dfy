/** Agents whose endpoints are all in index mode: agreement over every run, provided that the endpoints are apart. */
module IndexMode {
  import opened Decimal
  import opened Endpoint
  import opened AgentState
  import opened Agreement
  import opened AgreementSteps
  import opened Separation

  ghost predicate NonColliding(a: Agent) {
    Separate(a) && forall n :: n in a.table ==> a.table[n].cfg.IndexMode()
  }

  /** What is asked of a new endpoint; the other steps need no care. */
  ghost predicate Careful(a: Agent, e: Event) {
    e.CreateEvent? ==>
      && e.cfg.IndexMode()
      && (forall n :: n in a.table && n != e.cfg.networkService ==> Apart(a.table[n].cfg, e.cfg))
      && AddNamesKept(a, e.cfg, e.setup, e.registered)
  }

  ghost predicate CarefulRun(events: seq<Event>) {
    forall i :: 0 <= i < |events| ==> Careful(Before(events, i), events[i])
  }

  lemma ApartIsSymmetric(c: EndpointConfig, d: EndpointConfig)
    ensures Apart(c, d) <==> Apart(d, c)
  {
  }

  lemma StepKeepsNonColliding(a: Agent, e: Event)
    requires NonColliding(a) && Careful(a, e)
    ensures NonColliding(Step(a, e))
  {
    if e.CreateEvent? {
      forall n | n in a.table ensures Apart(a.table[n].cfg, e.cfg) <==> Apart(e.cfg, a.table[n].cfg) {
        ApartIsSymmetric(a.table[n].cfg, e.cfg);
      }
    } else {
      forall n | n in Step(a, e).table ensures n in a.table && Step(a, e).table[n].cfg == a.table[n].cfg {
        ConfigsStay(a, e, n);
      }
    }
  }

  lemma CarefulStepKeepsNames(a: Agent, e: Event)
    requires AgentInv(a) && NonColliding(a) && Careful(a, e)
    ensures NamesKept(a, e)
  {
    match e
    case CreateEvent(_, _, _, _) =>
    case DeleteEvent(_, _, _, _, _) =>
    case RequestEvent(conn, wsClose, wsOpen) => RequestNamesAreFresh(a, conn, wsClose, wsOpen);
    case CloseEvent(conn, ws) => CloseNamesAreOwn(a, conn, ws);
  }

  lemma {:induction false} CarefulRunStaysCareful(events: seq<Event>, i: nat)
    requires i <= |events| && CarefulRun(events)
    ensures NonColliding(Before(events, i))
  {
    if i == 0 {
      assert Before(events, 0) == INITIAL;
    } else {
      CarefulRunStaysCareful(events, i - 1);
      CarefulMoment(events, i - 1);
    }
  }

  lemma CarefulMoment(events: seq<Event>, i: nat)
    requires i < |events| && CarefulRun(events) && NonColliding(Before(events, i))
    ensures NonColliding(Before(events, i + 1)) && NamesKept(Before(events, i), events[i])
  {
    BeforeStep(events, i);
    RunKeepsInv(events[..i]);
    StepKeepsNonColliding(Before(events, i), events[i]);
    CarefulStepKeepsNames(Before(events, i), events[i]);
  }

  /** The interfaces are those named prefix + index of the live connections. */
  ghost predicate NamedByIndex(a: Agent) {
    forall k :: k in a.store <==>
      exists n, id :: Live(a, n, id) &&
        var entry := a.table[n];
        k == InterfaceKey(if entry.cfg.interfaceType == MemInterface then VppBackend else LinuxBackend,
                          entry.cfg.interfaceNamePrefix + Itoa(entry.conns[id].index))
  }

  lemma NamesInIndexMode(a: Agent)
    requires Agree(a) && NonColliding(a)
    ensures NamedByIndex(a)
  {
    forall k ensures k in a.store <==> Taken(a, k) {
    }
    assert forall n, id :: Live(a, n, id) ==>
             var entry := a.table[n];
             KeyOf(a, n, id) ==
             InterfaceKey(if entry.cfg.interfaceType == MemInterface then VppBackend else LinuxBackend,
                          entry.cfg.interfaceNamePrefix + Itoa(entry.conns[id].index));
  }

  lemma CarefulRunAgrees(events: seq<Event>)
    requires PossibleRun(events) && CarefulRun(events)
    ensures Agree(Before(events, |events|))
  {
    forall i | 0 <= i < |events| ensures NamesKept(Before(events, i), events[i]) {
      CarefulRunStaysCareful(events, i);
      CarefulMoment(events, i);
    }
    AgreementLaw(events);
  }

  /**
   Whole-agent agreement: after any run over index-mode endpoints with non-colliding prefixes, whatever fails
   on the way, the interfaces in the store are exactly those named prefix + index, one per live connection.
   */
  lemma IndexModeAgreement(events: seq<Event>)
    requires PossibleRun(events) && CarefulRun(events)
    ensures var a := Run(events);
            Agree(a) && NonColliding(a) && NamedByIndex(a) && StoreIsExact(a)
  {
    assert events[..|events|] == events;
    CarefulRunStaysCareful(events, |events|);
    CarefulRunAgrees(events);
    RunKeepsInv(events);
    NamesInIndexMode(Run(events));
    AgreeingStoreIsExact(Run(events));
  }
}
