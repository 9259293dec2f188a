/**
 The client descriptor acquires two handles of the mesh SDK, a client and a connection, step by step, and
 releases them again. Over all runs: which handles are open.
 */
module Clients {
  import opened Wrappers
  import opened Endpoint

  /** Open handles; `next` is larger than any handle ever given out. */
  datatype Handles = Handles(next: nat, clients: set<nat>, conns: set<nat>)

  datatype Metadata = Metadata(client: nat, conn: nat)

  /** What the surroundings answer to the calls of one operation, in so far as they are made. */
  datatype Answers = Answers(newClient: bool, connect: bool, baseDir: bool, close: bool, destroy: bool)

  /**
   What became of created metadata: the scheduler holds it, or a deletion of it returned early, before or after
   the connection was closed. Deleted metadata is forgotten.
   */
  datatype Status = Held | LeftOpen | LeftClosed

  /** The interface of a client can be configured: only a memif depends on the environment. */
  predicate Buildable(t: InterfaceType, baseDir: bool) {
    match t
    case DefaultInterface => true
    case KernelInterface => true
    case MemInterface => baseDir
    case UnknownInterface(_) => false
  }

  function Close(h: Handles, conn: nat, ok: bool): Handles {
    if ok then h.(conns := h.conns - {conn}) else h
  }

  function Destroy(h: Handles, client: nat, ok: bool): Handles {
    if ok then h.(clients := h.clients - {client}) else h
  }

  /** Creating a client connection; every failure releases what was acquired, ignoring the outcome of that. */
  function Create(h: Handles, t: InterfaceType, o: Answers): (Handles, Option<Metadata>) {
    if !o.newClient then (h, None)
    else
      var client := h.next;
      var h1 := h.(next := client + 1, clients := h.clients + {client});
      if !o.connect then (Destroy(h1, client, o.destroy), None)
      else
        var conn := h1.next;
        var h2 := h1.(next := conn + 1, conns := h1.conns + {conn});
        if !Buildable(t, o.baseDir) then (Destroy(Close(h2, conn, o.close), client, o.destroy), None)
        else (h2, Some(Metadata(client, conn)))
  }

  /** Deleting returns at the first failure; the answer is the status that leaves behind, if it fails. */
  function Delete(h: Handles, m: Metadata, t: InterfaceType, o: Answers): (Handles, Option<Status>) {
    if !Buildable(t, o.baseDir) then (h, Some(LeftOpen))
    else if !o.close then (h, Some(LeftOpen))
    else
      var closed := Close(h, m.conn, true);
      if !o.destroy then (closed, Some(LeftClosed)) else (Destroy(closed, m.client, true), None)
  }

  // ---------- runs ----------

  datatype State = State(handles: Handles, books: map<Metadata, Status>)

  datatype Event = CreateEvent(t: InterfaceType, o: Answers) | DeleteEvent(m: Metadata, t: InterfaceType, o: Answers)

  const START := State(Handles(0, {}, {}), map[])

  /** A connection that an earlier deletion closed stays closed. */
  function Lasting(before: Status, left: Status): Status {
    if before == LeftClosed then LeftClosed else left
  }

  function Step(s: State, e: Event): State {
    match e
    case CreateEvent(t, o) =>
      var (h, m) := Create(s.handles, t, o);
      State(h, if m.Some? then s.books[m.value := Held] else s.books)
    case DeleteEvent(m, t, o) =>
      var (h, left) := Delete(s.handles, m, t, o);
      State(h, if left.Some? && m in s.books then s.books[m := Lasting(s.books[m], left.value)] else s.books - {m})
  }

  function Run(events: seq<Event>): State {
    if events == [] then START else Step(Run(events[..|events| - 1]), events[|events| - 1])
  }

  /** Only metadata that was created is deleted, and not once it is deleted; a deletion that failed may be retried. */
  predicate Scheduled(s: State, e: Event) {
    e.DeleteEvent? ==> e.m in s.books
  }

  /** A kernel interface can always be built, a memif if the base directory is known, and nothing else. */
  predicate CanBuild(t: InterfaceType, baseDir: bool) {
    t == DefaultInterface || t == KernelInterface || (t == MemInterface && baseDir)
  }

  /** A creation that fails gets rid of what it acquired. */
  predicate CleansUp(e: Event) {
    e.CreateEvent? && e.o.newClient ==>
      if !e.o.connect then e.o.destroy
      else !CanBuild(e.t, e.o.baseDir) ==> e.o.close && e.o.destroy
  }

  ghost predicate ClientInBooks(s: State, c: nat) {
    exists m :: m in s.books && m.client == c
  }

  ghost predicate ConnInBooks(s: State, c: nat) {
    exists m :: m in s.books && m.conn == c && s.books[m] != LeftClosed
  }

  /** Handles are fresh when given out, and no two entries share one. */
  ghost predicate Distinct(s: State) {
    && (forall m :: m in s.books ==> m.client < s.handles.next && m.conn < s.handles.next)
    && (forall m, m' :: m in s.books && m' in s.books && (m.client == m'.client || m.conn == m'.conn) ==> m == m')
    && (forall c :: c in s.handles.clients ==> c < s.handles.next)
    && (forall c :: c in s.handles.conns ==> c < s.handles.next)
  }

  /** Exactly the handles that are on the books are open. */
  ghost predicate Conserved(s: State) {
    && (forall c :: c in s.handles.clients <==> ClientInBooks(s, c))
    && (forall c :: c in s.handles.conns <==> ConnInBooks(s, c))
  }

  lemma StepKeepsDistinct(s: State, e: Event)
    requires Distinct(s) && Scheduled(s, e)
    ensures Distinct(Step(s, e))
  {
  }

  /**
   A creation that succeeds enters two fresh handles; one that fails tries to release what it acquired, and leaves
   no trace exactly if that works.
   */
  lemma CreateOutcome(h: Handles, t: InterfaceType, o: Answers)
    requires forall c :: c in h.clients || c in h.conns ==> c < h.next
    ensures var (h', m) := Create(h, t, o);
            && (m.Some? <==> o.newClient && o.connect && CanBuild(t, o.baseDir))
            && (m.Some? ==>
                  && h'.clients == h.clients + {m.value.client} && h'.conns == h.conns + {m.value.conn}
                  && m.value.client !in h.clients && m.value.conn !in h.conns && m.value.client != m.value.conn)
            && (m.None? ==> ((h'.clients == h.clients && h'.conns == h.conns) <==> CleansUp(CreateEvent(t, o))))
  {
  }

  /** What a creation that fails leaves behind: a client that is not destroyed, a connection that is not closed. */
  lemma CreateLeftovers(h: Handles, t: InterfaceType, o: Answers)
    requires forall c :: c in h.clients || c in h.conns ==> c < h.next
    requires !(o.newClient && o.connect && CanBuild(t, o.baseDir))
    ensures var h' := Create(h, t, o).0;
            && h.clients <= h'.clients && h.conns <= h'.conns
            && (h'.clients != h.clients <==> o.newClient && !o.destroy)
            && (h'.conns != h.conns <==> o.newClient && o.connect && !o.close)
  {
    var h' := Create(h, t, o).0;
    assert h.next !in h.clients && h.next + 1 !in h.conns;
    if o.newClient && !o.destroy {
      assert h.next in h'.clients;
    } else {
      assert h'.clients == h.clients;
    }
    if o.newClient && o.connect && !o.close {
      assert h.next + 1 in h'.conns;
    } else {
      assert h'.conns == h.conns;
    }
  }

  /** A deletion succeeds exactly if nothing fails; whatever fails, nothing after it is released. */
  lemma DeleteOutcome(h: Handles, m: Metadata, t: InterfaceType, o: Answers)
    ensures var (h', left) := Delete(h, m, t, o);
            var closes := CanBuild(t, o.baseDir) && o.close;
            && (left.None? <==> closes && o.destroy)
            && (left == Some(LeftClosed) <==> closes && !o.destroy)
            && (left == Some(LeftOpen) <==> !closes)
            && h'.conns == (if closes then h.conns - {m.conn} else h.conns)
            && h'.clients == (if closes && o.destroy then h.clients - {m.client} else h.clients)
  {
  }

  lemma CreateConserves(s: State, e: Event)
    requires Distinct(s) && Conserved(s) && e.CreateEvent?
    ensures Conserved(Step(s, e)) <==> CleansUp(e)
  {
  }

  lemma DeleteConserves(s: State, e: Event)
    requires Distinct(s) && Conserved(s) && e.DeleteEvent? && Scheduled(s, e)
    ensures Conserved(Step(s, e))
  {
  }

  ghost predicate ScheduledRun(events: seq<Event>) {
    forall i :: 0 <= i < |events| ==> Scheduled(Run(events[..i]), events[i])
  }

  lemma {:induction false} RunKeepsDistinct(events: seq<Event>, i: nat)
    requires i <= |events| && ScheduledRun(events)
    ensures Distinct(Run(events[..i]))
  {
    if i == 0 {
      assert events[..0] == [];
    } else {
      RunKeepsDistinct(events, i - 1);
      assert events[..i][..i - 1] == events[..i - 1];
      StepKeepsDistinct(Run(events[..i - 1]), events[i - 1]);
    }
  }

  ghost predicate ConservedThroughout(events: seq<Event>, i: nat)
    requires i <= |events|
  {
    forall j :: 0 <= j <= i ==> Conserved(Run(events[..j]))
  }

  ghost predicate CleansUpThroughout(events: seq<Event>, i: nat)
    requires i <= |events|
  {
    forall j :: 0 <= j < i ==> CleansUp(events[j])
  }

  lemma ConservationMoment(events: seq<Event>, i: nat)
    requires i < |events| && ScheduledRun(events) && Conserved(Run(events[..i]))
    ensures Conserved(Run(events[..i + 1])) <==> CleansUp(events[i])
  {
    RunKeepsDistinct(events, i);
    assert events[..i + 1][..i] == events[..i];
    assert Scheduled(Run(events[..i]), events[i]);
    if events[i].CreateEvent? {
      CreateConserves(Run(events[..i]), events[i]);
    } else {
      DeleteConserves(Run(events[..i]), events[i]);
    }
  }

  lemma ConservedNext(events: seq<Event>, i: nat)
    requires i < |events|
    ensures ConservedThroughout(events, i + 1) <==> ConservedThroughout(events, i) && Conserved(Run(events[..i + 1]))
    ensures CleansUpThroughout(events, i + 1) <==> CleansUpThroughout(events, i) && CleansUp(events[i])
    ensures ConservedThroughout(events, i) ==> Conserved(Run(events[..i]))
  {
  }

  /**
   Conservation over all runs, with any retries: at every moment the open clients are exactly those of metadata that
   is not deleted yet, and the open connections those of it that no deletion has closed, if and only if every failed
   creation's cleanup works.
   */
  lemma {:induction false} HandleConservation(events: seq<Event>, i: nat)
    requires i <= |events| && ScheduledRun(events)
    ensures ConservedThroughout(events, i) <==> CleansUpThroughout(events, i)
  {
    if i == 0 {
      assert events[..0] == [];
    } else {
      HandleConservation(events, i - 1);
      ConservedNext(events, i - 1);
      if ConservedThroughout(events, i - 1) {
        ConservationMoment(events, i - 1);
      }
    }
  }

  /** In particular, once the books are empty nothing is open. */
  lemma NothingLeaks(events: seq<Event>)
    requires ScheduledRun(events) && Run(events).books == map[]
    requires forall j :: 0 <= j < |events| ==> CleansUp(events[j])
    ensures Run(events).handles.clients == {} && Run(events).handles.conns == {}
  {
    HandleConservation(events, |events|);
    assert events[..|events|] == events;
    assert Conserved(Run(events[..|events|]));
  }
}
