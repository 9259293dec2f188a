/**
 Agreement of the connection tables with the interface store: one interface per live connection, and nothing
 else. For every step the exact condition under which it is kept.
 */
module Agreement {
  import opened Endpoint
  import opened AgentState

  ghost predicate Live(a: Agent, n: string, id: string) {
    n in a.table && id in a.table[n].conns
  }

  /** The interface a live connection stands for. */
  function KeyOf(a: Agent, n: string, id: string): InterfaceKey
    requires n in a.table && id in a.table[n].conns
  {
    StoredKey(a.table[n].cfg, a.table[n].conns[id])
  }

  function InterfaceOf(a: Agent, n: string, id: string): Interface
    requires n in a.table && id in a.table[n].conns
  {
    InterfaceFor(a.table[n].cfg, a.table[n].conns[id].conn, a.table[n].conns[id].index)
  }

  ghost predicate Taken(a: Agent, k: InterfaceKey) {
    exists n, id :: Live(a, n, id) && KeyOf(a, n, id) == k
  }

  ghost predicate TakenByOther(a: Agent, n: string, id: string, k: InterfaceKey) {
    exists n', id' :: Live(a, n', id') && KeyOf(a, n', id') == k && (n' != n || id' != id)
  }

  /** Every live connection has its own interface in the store, and the store holds no other interface. */
  ghost predicate Agree(a: Agent) {
    && (forall n, id :: Live(a, n, id) ==>
          KeyOf(a, n, id) in a.store && a.store[KeyOf(a, n, id)] == InterfaceOf(a, n, id))
    && (forall n, id, n', id' :: Live(a, n, id) && Live(a, n', id') && KeyOf(a, n, id) == KeyOf(a, n', id') ==>
          n == n' && id == id')
    && (forall k :: k in a.store ==> Taken(a, k))
  }

  // ---------- what agreement says about each interface ----------

  ghost predicate Stored(a: Agent, iface: Interface) {
    iface.key in a.store && a.store[iface.key] == iface
  }

  ghost predicate RenderedFromLive(a: Agent, iface: Interface) {
    exists n, id :: Live(a, n, id) && Rendered(a.table[n].cfg, a.table[n].conns[id], iface)
  }

  /** Every interface in the store is rendered from a live connection, in all its parts, and all of these are there. */
  ghost predicate StoreIsExact(a: Agent) {
    && (forall k :: k in a.store ==> a.store[k].key == k)
    && (forall iface :: Stored(a, iface) <==> RenderedFromLive(a, iface))
  }

  lemma LiveIsRendered(a: Agent, n: string, id: string, iface: Interface)
    requires AgentInv(a) && Live(a, n, id)
    ensures Rendered(a.table[n].cfg, a.table[n].conns[id], iface) <==> iface == InterfaceOf(a, n, id)
  {
    var c := a.table[n].conns[id];
    assert Accepts(a.table[n].cfg, c.conn);
    assert c == NsmConnection(c.index, c.conn);
    RenderedExactly(a.table[n].cfg, c.conn, c.index, iface);
  }

  lemma StoredIsRendered(a: Agent, iface: Interface)
    requires AgentInv(a) && Agree(a)
    ensures Stored(a, iface) <==> RenderedFromLive(a, iface)
  {
    if Stored(a, iface) {
      var n, id :| Live(a, n, id) && KeyOf(a, n, id) == iface.key;
      LiveIsRendered(a, n, id, iface);
    }
    if n, id :| Live(a, n, id) && Rendered(a.table[n].cfg, a.table[n].conns[id], iface) {
      LiveIsRendered(a, n, id, iface);
    }
  }

  lemma StoredUnderOwnKey(a: Agent, k: InterfaceKey)
    requires Agree(a) && k in a.store
    ensures a.store[k].key == k
  {
    var n, id :| Live(a, n, id) && KeyOf(a, n, id) == k;
  }

  /** Backend, name, host name and addresses of every stored interface, given by type, mode and configuration. */
  lemma AgreeingStoreIsExact(a: Agent)
    requires AgentInv(a) && Agree(a)
    ensures StoreIsExact(a)
  {
    forall k | k in a.store ensures a.store[k].key == k {
      StoredUnderOwnKey(a, k);
    }
    forall iface ensures Stored(a, iface) <==> RenderedFromLive(a, iface) {
      StoredIsRendered(a, iface);
    }
  }

  // ---------- the two elementary changes ----------

  /** A connection is dropped from the table while interface `k` is deleted. */
  function Drop(a: Agent, n: string, id: string, k: InterfaceKey): Agent
    requires n in a.table
  {
    With(a, n, EpState(a.table[n].conns - {id}, a.store - {k}))
  }

  /** A connection is entered under `index` while its interface is written. */
  function Put(a: Agent, n: string, conn: Connection, index: nat): Agent
    requires n in a.table
  {
    var iface := InterfaceFor(a.table[n].cfg, conn, index);
    With(a, n, EpState(a.table[n].conns[conn.id := NsmConnection(index, conn)], a.store[iface.key := iface]))
  }

  lemma DropLive(a: Agent, n: string, id: string, k: InterfaceKey, n': string, id': string)
    requires n in a.table
    ensures Live(Drop(a, n, id, k), n', id') <==> Live(a, n', id') && (n' != n || id' != id)
    ensures Live(Drop(a, n, id, k), n', id') ==>
              KeyOf(Drop(a, n, id, k), n', id') == KeyOf(a, n', id') &&
              InterfaceOf(Drop(a, n, id, k), n', id') == InterfaceOf(a, n', id')
  {
  }

  lemma PutLive(a: Agent, n: string, conn: Connection, index: nat, n': string, id': string)
    requires n in a.table
    ensures var b := Put(a, n, conn, index);
            if n' == n && id' == conn.id then
              Live(b, n', id') && InterfaceOf(b, n', id') == InterfaceFor(a.table[n].cfg, conn, index) &&
              KeyOf(b, n', id') == KeyFor(a.table[n].cfg, conn, index)
            else
              && (Live(b, n', id') <==> Live(a, n', id'))
              && (Live(b, n', id') ==>
                    KeyOf(b, n', id') == KeyOf(a, n', id') && InterfaceOf(b, n', id') == InterfaceOf(a, n', id'))
  {
  }

  /** After dropping a connection a name is taken exactly if another connection has it. */
  lemma DropTaken(a: Agent, n: string, id: string, k: InterfaceKey, k': InterfaceKey)
    requires n in a.table
    ensures Taken(Drop(a, n, id, k), k') <==> TakenByOther(a, n, id, k')
  {
    var b := Drop(a, n, id, k);
    if n', id' :| Live(b, n', id') && KeyOf(b, n', id') == k' {
      DropLive(a, n, id, k, n', id');
      assert Live(a, n', id') && KeyOf(a, n', id') == k';
    }
    if n', id' :| Live(a, n', id') && KeyOf(a, n', id') == k' && (n' != n || id' != id) {
      DropLive(a, n, id, k, n', id');
      assert Live(b, n', id') && KeyOf(b, n', id') == k';
    }
  }

  /** Deleting is right exactly if the deleted interface is the connection's own, or no one's. */
  ghost predicate DropsOwn(a: Agent, n: string, id: string, k: InterfaceKey) {
    if Live(a, n, id) then k == KeyOf(a, n, id) else !Taken(a, k)
  }

  lemma DropKeeps(a: Agent, n: string, id: string, k: InterfaceKey)
    requires Agree(a) && n in a.table && DropsOwn(a, n, id, k)
    ensures Agree(Drop(a, n, id, k))
  {
    var b := Drop(a, n, id, k);
    forall n', id' ensures Live(b, n', id') ==>
              Live(a, n', id') && KeyOf(b, n', id') == KeyOf(a, n', id') && KeyOf(a, n', id') != k &&
              InterfaceOf(b, n', id') == InterfaceOf(a, n', id')
    {
      DropLive(a, n, id, k, n', id');
    }
    forall k' | k' in b.store ensures Taken(b, k') {
      assert Taken(a, k');
      DropTaken(a, n, id, k, k');
    }
  }

  /** A wrong deletion leaves an interface without a connection, or a connection without its interface. */
  lemma DropBreaks(a: Agent, n: string, id: string, k: InterfaceKey)
    requires Agree(a) && n in a.table && !DropsOwn(a, n, id, k)
    ensures !Agree(Drop(a, n, id, k))
    ensures Live(a, n, id) ==>
              KeyOf(a, n, id) in Drop(a, n, id, k).store && !Taken(Drop(a, n, id, k), KeyOf(a, n, id))
  {
    var b := Drop(a, n, id, k);
    if Live(a, n, id) {
      DropTaken(a, n, id, k, KeyOf(a, n, id));
    } else {
      var n', id' :| Live(a, n', id') && KeyOf(a, n', id') == k;
      DropLive(a, n, id, k, n', id');
      assert Live(b, n', id') && KeyOf(b, n', id') !in b.store;
    }
  }

  /** Entering a connection is right exactly if its name is new. */
  lemma PutIff(a: Agent, n: string, conn: Connection, index: nat)
    requires Agree(a) && n in a.table && !Live(a, n, conn.id)
    ensures Agree(Put(a, n, conn, index)) <==> !Taken(a, KeyFor(a.table[n].cfg, conn, index))
  {
    var b := Put(a, n, conn, index);
    var k := KeyFor(a.table[n].cfg, conn, index);
    PutLive(a, n, conn, index, n, conn.id);
    if Taken(a, k) {
      var n', id' :| Live(a, n', id') && KeyOf(a, n', id') == k;
      PutLive(a, n, conn, index, n', id');
      assert Live(b, n', id') && Live(b, n, conn.id) && KeyOf(b, n', id') == KeyOf(b, n, conn.id);
    } else {
      PutKeeps(a, n, conn, index);
    }
  }

  lemma PutKeeps(a: Agent, n: string, conn: Connection, index: nat)
    requires Agree(a) && n in a.table && !Live(a, n, conn.id)
    requires !Taken(a, KeyFor(a.table[n].cfg, conn, index))
    ensures Agree(Put(a, n, conn, index))
  {
    var b := Put(a, n, conn, index);
    var k := KeyFor(a.table[n].cfg, conn, index);
    forall n', id' ensures
        if n' == n && id' == conn.id then
          Live(b, n', id') && KeyOf(b, n', id') == k && InterfaceOf(b, n', id') == b.store[k]
        else
          && (Live(b, n', id') <==> Live(a, n', id'))
          && (Live(a, n', id') ==> KeyOf(b, n', id') == KeyOf(a, n', id') != k &&
                                   InterfaceOf(b, n', id') == InterfaceOf(a, n', id'))
    {
      PutLive(a, n, conn, index, n', id');
    }
    forall k' | k' in b.store ensures Taken(b, k') {
      if k' == k {
        assert Live(b, n, conn.id);
      } else {
        var n', id' :| Live(a, n', id') && KeyOf(a, n', id') == k';
        assert Live(b, n', id') && KeyOf(b, n', id') == k';
      }
    }
  }
}
