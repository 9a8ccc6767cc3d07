/**
 The tables of the name server as values: for each node the slots in which its servers are stored, what they stand for,
 and what each packet makes of them.
 */
module ServerTables {
  import opened Bytes
  import opened Hiding
  import opened Hash
  import opened ProbeTable
  import opened Control
  import opened NsSpec

  /** The slots of the table of a node. */
  type Row = seq<Slot<Server>>

  // ---------- The table of one node ----------

  /** The table holds exactly the servers of the node, each under the hash of its port. */
  ghost predicate Serves(table: map<u32, Server>, id: u32, db: map<Addr, Server>) {
    forall port: u32 {:trigger HashU32(port)} {:trigger Addr(id, port)} ::
      && (HashU32(port) in table <==> Addr(id, port) in db)
      && (Addr(id, port) in db ==> HashU32(port) in table && table[HashU32(port)] == db[Addr(id, port)])
  }

  /** Looking a key of the table up gives the server whose port hashes to it. */
  lemma {:induction false} ServesKey(table: map<u32, Server>, id: u32, db: map<Addr, Server>, key: u32)
    requires Serves(table, id, db) && Keyed(db) && key in table
    ensures var x := table[key]; x.node == id && HashU32(x.port) == key && x.At() in db && db[x.At()] == x
  {
    HashIsBijective(key);
    assert HashU32(UnhashU32(key)) in table;
  }

  lemma {:induction false} ServesPut(table: map<u32, Server>, id: u32, db: map<Addr, Server>, x: Server)
    requires Serves(table, id, db) && x.node == id
    ensures Serves(table[HashU32(x.port) := x], id, db[x.At() := x])
  {
    forall port: u32 ensures HashU32(port) == HashU32(x.port) <==> port == x.port {
      HashIsInjective(port, x.port);
    }
  }

  /** Every slot holds a server of the node, under the hash of its port. */
  ghost predicate AllOwn(s: Row, id: u32) {
    forall i {:trigger s[i]} :: 0 <= i < |s| && s[i].Live? ==>
      s[i].item.node == id && s[i].key == HashU32(s[i].item.port) && s[i].item.service != 0 && s[i].item.port != 0
  }

  /** The same, out of sight. */
  ghost predicate Owned(s: Row, id: u32) {
    forall u {:trigger Look(u)} :: Look(u) && u == s ==> AllOwn(u, id)
  }

  lemma {:induction false} ResettledOwn(s: Row, n: nat, size: nat, id: u32)
    requires n <= |s| && AllOwn(s, id)
    ensures AllOwn(Resettled(s, n, size), id)
  {
    if n > 0 {
      ResettledOwn(s, n - 1, size, id);
    }
  }

  lemma {:induction false} EnteredOwn(s: Row, id: u32, x: Server)
    requires Owned(s, id) && x.node == id && x.service != 0 && x.port != 0
    ensures Owned(Entered(s, HashU32(x.port), x), id)
  {
    assert Look(s);
    ResettledOwn(s, |s|, |s| + Growth, id);
  }

  lemma {:induction false} TombstonedOwn(s: Row, id: u32, key: u32)
    requires Owned(s, id)
    ensures Owned(Tombstoned(s, key), id)
  {
    assert Look(s);
  }

  /** A server that is found belongs to the node, and is found under the hash of its port. */
  lemma {:induction false} FoundOwn(s: Row, id: u32, key: u32)
    requires Owned(s, id) && key in View(s)
    ensures var x := View(s)[key]; x.node == id && HashU32(x.port) == key && x.service != 0 && x.port != 0
  {
    assert Look(s);
    ViewIsFind(s, key);
  }

  /** The table can be searched and holds the servers of its node, which are those registered. */
  ghost predicate Table(s: Row, id: u32, db: map<Addr, Server>) {
    Reachable(s) && Owned(s, id) && Serves(View(s), id, db)
  }

  lemma {:induction false} NoServers(id: u32, db: map<Addr, Server>)
    requires forall port: u32 {:trigger Addr(id, port)} :: Addr(id, port) !in db
    ensures Table([], id, db)
  {
    var none: Row := [];
    EmptyTable(none);
    Seen(none);
  }

  /** Changes at other nodes do not matter. */
  lemma {:induction false} ServesElsewhere(table: map<u32, Server>, id: u32, db: map<Addr, Server>,
                                           db': map<Addr, Server>)
    requires Serves(table, id, db) && Of(db, id) == Of(db', id)
    ensures Serves(table, id, db')
  {
    forall port: u32
      ensures Addr(id, port) in db <==> Addr(id, port) in db'
      ensures Addr(id, port) in db ==> db[Addr(id, port)] == db'[Addr(id, port)] {
      assert Addr(id, port) in Of(db, id) <==> Addr(id, port) in Of(db', id);
      assert Addr(id, port) in Of(db, id) ==> Of(db, id)[Addr(id, port)] == Of(db', id)[Addr(id, port)];
    }
  }

  /** What is registered when a server has been taken out of its table: another of its port may come to light. */
  function DbMinus(s: Row, db: map<Addr, Server>, a: Addr): map<Addr, Server> {
    var left := Tombstoned(s, HashU32(a.port));
    if HashU32(a.port) in View(left) then db[a := View(left)[HashU32(a.port)]] else db - {a}
  }

  lemma {:induction false} TableMinus(s: Row, id: u32, db: map<Addr, Server>, port: u32)
    requires Table(s, id, db) && Keyed(db)
    ensures Table(Tombstoned(s, HashU32(port)), id, DbMinus(s, db, Addr(id, port)))
    ensures Keyed(DbMinus(s, db, Addr(id, port))) && NotOf(DbMinus(s, db, Addr(id, port)), id) == NotOf(db, id)
    ensures OnceEach(s) ==>
              OnceEach(Tombstoned(s, HashU32(port))) && DbMinus(s, db, Addr(id, port)) == db - {Addr(id, port)}
  {
    var key, a := HashU32(port), Addr(id, port);
    var t := Tombstoned(s, key);
    Seen(s);
    Seen(t);
    TombstonedOwn(s, id, key);
    ViewIsFind(s, key);
    if Find(s, key).Some? {
      RemoveDone(s, key);
      RemoveChained(s, key);
    }
    ServesMinus(s, t, id, db, port);
    if key in View(t) {
      FoundOwn(t, id, key);
      HashIsInjective(View(t)[key].port, port);
    }
  }

  lemma {:induction false} ServesMinus(s: Row, t: Row, id: u32, db: map<Addr, Server>, port: u32)
    requires Serves(View(s), id, db) && t == Tombstoned(s, HashU32(port))
    requires forall k: u32 :: k != HashU32(port) ==> Find(t, k) == Find(s, k)
    ensures Serves(View(t), id, DbMinus(s, db, Addr(id, port)))
  {
    forall q: u32
      ensures HashU32(q) == HashU32(port) <==> q == port
      ensures q != port ==> (HashU32(q) in View(t) <==> HashU32(q) in View(s))
      ensures q != port && HashU32(q) in View(s) ==> View(t)[HashU32(q)] == View(s)[HashU32(q)]
    {
      HashIsInjective(q, port);
      ViewIsFind(s, HashU32(q));
      ViewIsFind(t, HashU32(q));
    }
  }

  /** A port that is not registered is not in the table either. */
  lemma {:induction false} AbsentMinus(s: Row, id: u32, db: map<Addr, Server>, port: u32)
    requires Table(s, id, db) && Addr(id, port) !in db
    ensures Tombstoned(s, HashU32(port)) == s && DbMinus(s, db, Addr(id, port)) == db && db - {Addr(id, port)} == db
  {
    ViewIsFind(s, HashU32(port));
  }

  lemma {:induction false} TablePut(s: Row, id: u32, db: map<Addr, Server>, x: Server)
    requires Table(s, id, db) && x.node == id && x.service != 0 && x.port != 0 && (OnceEach(s) || NumLive(s, |s|) < |s|)
    ensures Table(Entered(s, HashU32(x.port), x), id, db[x.At() := x])
    ensures OnceEach(s) ==> (OnceEach(Entered(s, HashU32(x.port), x)) <==> Free(s, HashU32(x.port)))
  {
    EnteredDone(s, HashU32(x.port), x);
    EnteredOwn(s, id, x);
    ServesPut(View(s), id, db, x);
  }

  // ---------- The tables of all nodes ----------

  /** The table of a node; an empty one for a node that is not known. */
  function RowOf(rows: map<u32, Row>, id: u32): Row {
    if id in rows then rows[id] else []
  }

  /** All tables but that of one node are the same. */
  ghost predicate RowsBut(was: map<u32, Row>, now: map<u32, Row>, id: u32, row: Row) {
    forall i: u32 {:trigger RowOf(now, i)} :: RowOf(now, i) == if i == id then row else RowOf(was, i)
  }

  lemma {:induction false} RowsButTwice(was: map<u32, Row>, mid: map<u32, Row>, now: map<u32, Row>, id: u32, row: Row)
    requires RowsBut(was, mid, id, RowOf(was, id)) && RowsBut(mid, now, id, row)
    ensures RowsBut(was, now, id, row)
  {
    forall i: u32 ensures RowOf(now, i) == if i == id then row else RowOf(was, i) {
      assert RowOf(mid, i) == RowOf(was, i);
    }
  }

  /** The tables of the other nodes are the same. */
  ghost predicate OthersSame(was: map<u32, Row>, now: map<u32, Row>, id: u32) {
    forall i: u32 {:trigger RowOf(now, i)} :: i != id ==> RowOf(now, i) == RowOf(was, i)
  }

  lemma {:induction false} OthersSameStep(was: map<u32, Row>, now: map<u32, Row>, id: u32, row: Row)
    requires OthersSame(was, now, id)
    ensures OthersSame(was, now[id := row], id)
  {
    forall i: u32 | i != id ensures RowOf(now[id := row], i) == RowOf(was, i) {
      assert RowOf(now, i) == RowOf(was, i);
    }
  }

  /** No port is twice in the table of its node. */
  ghost predicate Ordered(rows: map<u32, Row>) {
    forall i: u32 {:trigger RowOf(rows, i)} :: OnceEach(RowOf(rows, i))
  }

  lemma {:induction false} OrderedBut(was: map<u32, Row>, now: map<u32, Row>, id: u32, row: Row)
    requires Ordered(was) && RowsBut(was, now, id, row)
    ensures Ordered(now) <==> OnceEach(row)
  {
    if OnceEach(row) {
      forall i: u32 ensures OnceEach(RowOf(now, i)) {
        assert OnceEach(RowOf(was, i));
      }
    } else {
      assert RowOf(now, id) == row;
    }
  }

  /** The tables of all nodes hold the registered servers. */
  ghost predicate AllServed(rows: map<u32, Row>, db: map<Addr, Server>) {
    && (forall i {:trigger rows[i]} :: i in rows ==> Table(rows[i], i, db))
    && (forall a {:trigger a in db} :: a in db ==> a.node in rows)
  }

  lemma {:induction false} AllServedNew(rows: map<u32, Row>, db: map<Addr, Server>, id: u32)
    requires AllServed(rows, db) && id !in rows
    ensures AllServed(rows[id := []], db)
  {
    NoServers(id, db);
  }

  /** One table changes, and the servers of its node with it. */
  lemma {:induction false} AllServedBut(rows: map<u32, Row>, db: map<Addr, Server>, id: u32, row: Row,
                                        db': map<Addr, Server>)
    requires AllServed(rows, db) && id in rows && Table(row, id, db') && NotOf(db, id) == NotOf(db', id)
    ensures AllServed(rows[id := row], db')
  {
    forall i | i in rows && i != id ensures Table(rows[i], i, db') {
      OfOthers(db, db', id, i);
      ServesElsewhere(View(rows[i]), i, db, db');
    }
    forall a | a in db' && a.node != id ensures a.node in rows {
      assert a in NotOf(db', id);
    }
  }

  lemma {:induction false} AllServedPut(rows: map<u32, Row>, db: map<Addr, Server>, x: Server, row: Row)
    requires AllServed(rows, db) && x.node in rows && Table(row, x.node, db[x.At() := x])
    ensures AllServed(rows[x.node := row], db[x.At() := x])
  {
    assert NotOf(db, x.node) == NotOf(db[x.At() := x], x.node);
    AllServedBut(rows, db, x.node, row, db[x.At() := x]);
  }

  lemma {:induction false} OfOthers(db: map<Addr, Server>, db': map<Addr, Server>, id: u32, i: u32)
    requires NotOf(db, id) == NotOf(db', id) && i != id
    ensures Of(db, i) == Of(db', i)
  {
    forall a: Addr | a.node == i ensures a in db <==> a in db' ensures a in db ==> db[a] == db'[a] {
      assert a in db <==> a in NotOf(db, id);
      assert a in db' <==> a in NotOf(db', id);
      assert a in db ==> NotOf(db, id)[a] == db[a];
      assert a in db' ==> NotOf(db', id)[a] == db'[a];
    }
  }

  // ---------- The order of iteration ----------

  lemma {:induction false} ItemsMember<V>(s: seq<Slot<V>>, n: nat, x: V)
    requires n <= |s|
    ensures x in Items(s, n) <==> exists i :: 0 <= i < n && s[i].Live? && s[i].item == x
  {
    if n > 0 {
      ItemsMember(s, n - 1, x);
    }
  }

  /** Every slot holds its server under the hash of its port. */
  ghost predicate Hashed(s: seq<Slot<Server>>) {
    forall i :: 0 <= i < |s| && s[i].Live? ==> s[i].key == HashU32(s[i].item.port)
  }

  lemma {:induction false} ItemsOnce(s: seq<Slot<Server>>, n: nat)
    requires n <= |s| && Unique(s) && Hashed(s)
    ensures Once(Items(s, n))
  {
    if n > 0 {
      ItemsOnce(s, n - 1);
      if s[n - 1].Live? {
        ItemsMember(s, n - 1, s[n - 1].item);
        var before := Items(s, n - 1);
        forall k | 0 <= k < |before| ensures before[k] != s[n - 1].item {
          assert before[k] in before;
        }
      }
    }
  }

  lemma {:induction false} ServesHashed(s: seq<Slot<Server>>, id: u32, db: map<Addr, Server>)
    requires Chained(s) && Unique(s) && Serves(View(s), id, db) && Keyed(db)
    ensures Hashed(s)
  {
    forall i | 0 <= i < |s| && s[i].Live? ensures s[i].key == HashU32(s[i].item.port) {
      ViewOfUnique(s, s[i].key);
      ServesKey(View(s), id, db, s[i].key);
    }
  }

  /** Iterating over a table visits the servers of its node, each once. */
  lemma {:induction false} ItemsList(s: seq<Slot<Server>>, id: u32, db: map<Addr, Server>)
    requires Chained(s) && Unique(s) && Serves(View(s), id, db) && Keyed(db)
    ensures Lists(Items(s, |s|), db, OnNode(id))
  {
    ServesHashed(s, id, db);
    ItemsOnce(s, |s|);
    forall x: Server ensures x in Items(s, |s|) <==> x.At() in db && db[x.At()] == x && OnNode(id)(x) {
      ItemsMember(s, |s|, x);
      if x.At() in db && db[x.At()] == x && x.node == id {
        ViewOfUnique(s, HashU32(x.port));
      }
      if i :| 0 <= i < |s| && s[i].Live? && s[i].item == x {
        ViewOfUnique(s, s[i].key);
        ServesKey(View(s), id, db, s[i].key);
      }
    }
  }

  // ---------- Emptying a table while iterating over it ----------

  /** The slots when the first n have been emptied. */
  function Tombed(s: seq<Slot<Server>>, n: nat): (u: seq<Slot<Server>>)
    ensures |u| == |s|
  {
    seq(|s|, i requires 0 <= i < |s| => if i < n && s[i].Live? then Deleted else s[i])
  }

  lemma {:induction false} FindsLive(s: seq<Slot<Server>>, i: nat)
    requires Chained(s) && Unique(s) && i < |s| && s[i].Live?
    ensures Find(s, s[i].key) == Some(i) && s[i].key in View(s) && View(s)[s[i].key] == s[i].item
  {
    FirstIsFound(s, s[i].key, i);
    ViewIsFind(s, s[i].key);
  }

  /**
   The server at the iterator is registered, is found at its own slot, and emptying the slot goes one step further.
   */
  lemma {:induction false} DrainStep(s: seq<Slot<Server>>, i: nat, now: seq<Slot<Server>>, id: u32,
                                     db: map<Addr, Server>)
    requires i < |s| && s[i].Live? && now == Tombed(s, i)
    requires Reachable(now) && OnceEach(now) && Serves(View(now), id, db) && Keyed(db)
    ensures var x := s[i].item;
            && x.node == id && x.At() in db && db[x.At()] == x
            && Find(now, HashU32(x.port)) == Some(i) && now[i := Deleted] == Tombed(s, i + 1)
  {
    Seen(now);
    assert now[i] == s[i];
    FindsLive(now, i);
    ServesKey(View(now), id, db, s[i].key);
  }

  /** The iterator moves on over slots that hold nothing. */
  lemma {:induction false} DrainSkip(s: seq<Slot<Server>>, i: nat, j: nat)
    requires i <= j <= |s| && NoneLive(Tombed(s, i), i, j)
    ensures Tombed(s, j) == Tombed(s, i) && Items(s, j) == Items(s, i)
    ensures j < |s| ==> Tombed(s, i)[j] == s[j]
  {
    forall k | i <= k < j ensures !s[k].Live? {
      assert Tombed(s, i)[k] == s[k];
    }
    ItemsSkip(s, i, j);
  }

  /** At the end the node has no servers left. */
  lemma {:induction false} DrainEnd(s: seq<Slot<Server>>, id: u32, db: map<Addr, Server>)
    requires Serves(View(Tombed(s, |s|)), id, db)
    ensures NotOf(db, id) == db
  {
    var now := Tombed(s, |s|);
    forall a | a in db && a.node == id ensures false {
      assert HashU32(a.port) in View(now);
      ViewIsFind(now, HashU32(a.port));
    }
  }

  lemma {:induction false} DeparturesLast(local: u32, lookups: seq<Lookup>, servers: seq<Server>, x: Server)
    ensures Departures(local, lookups, servers + [x]) ==
            Departures(local, lookups, servers) + Departure(local, lookups, x)
  {
    assert (servers + [x])[..|servers + [x]| - 1] == servers;
  }

  // ---------- What packets make of the tables ----------

  /** The table of a node after a packet; those of other nodes than the one it comes from are the same. */
  function RowNext(local: u32, s: Row, id: u32, p: Packet): Row {
    if id != p.from.node then s else
    match p.ctrl
    case Bye(_) => Tombed(s, |s|)
    case DelClient(client) => if Closes(local, p.from, client) then Tombstoned(s, HashU32(client.port)) else s
    case NewServer(srv) =>
      (match Registers(local, p.from, srv)
       case None => s
       case Some(x) => Entered(s, HashU32(x.port), x))
    case DelServer(srv) =>
      (match Claimed(local, p.from, srv)
       case None => s
       case Some(a) => Tombstoned(s, HashU32(a.port)))
    case _ => s
  }

  function RowRun(local: u32, ps: seq<Packet>, id: u32): Row {
    if ps == [] then [] else RowNext(local, RowRun(local, ps[..|ps| - 1], id), id, ps[|ps| - 1])
  }

  /** If the packet registers a server, no tombstone lies ahead of its port in the table s of its node. */
  ghost predicate Unhindered(local: u32, s: Row, p: Packet) {
    p.ctrl.NewServer? && Registers(local, p.from, p.ctrl.srv).Some? ==>
      Free(s, HashU32(Registers(local, p.from, p.ctrl.srv).value.port))
  }

  /** No packet of the run meets a tombstone. */
  ghost predicate Smooth(local: u32, ps: seq<Packet>) {
    ps == [] ||
    (Smooth(local, ps[..|ps| - 1]) &&
     Unhindered(local, RowRun(local, ps[..|ps| - 1], ps[|ps| - 1].from.node), ps[|ps| - 1]))
  }

  lemma {:induction false} SmoothPrefix(local: u32, ps: seq<Packet>, i: nat)
    requires i <= |ps| && Smooth(local, ps)
    ensures Smooth(local, ps[..i])
    decreases |ps|
  {
    if i < |ps| {
      assert ps[..|ps| - 1][..i] == ps[..i];
      SmoothPrefix(local, ps[..|ps| - 1], i);
    } else {
      assert ps[..i] == ps;
    }
  }

  /** All tables change as the packet says. */
  ghost predicate RowsNext(local: u32, was: map<u32, Row>, now: map<u32, Row>, p: Packet) {
    RowsBut(was, now, p.from.node, RowNext(local, RowOf(was, p.from.node), p.from.node, p))
  }

  // ---------- When no tombstone is in the way ----------

  lemma {:induction false} Emptied(s: Row, id: u32, db: map<Addr, Server>)
    requires Table(s, id, db)
    ensures Table(Tombed(s, |s|), id, NotOf(db, id)) && OnceEach(Tombed(s, |s|))
    ensures forall k: u32 :: Free(Tombed(s, |s|), k)
  {
    var t := Tombed(s, |s|);
    assert Look(s);
    Seen(t);
    forall k: u32 ensures k !in View(t) {
      ViewIsFind(t, k);
    }
  }

  /** A server disappears with this packet. */
  ghost predicate Removes(local: u32, db: map<Addr, Server>, p: Packet) {
    exists a :: a in db && a !in DbNext(local, db, p)
  }

  /** The addresses that registered after the last removal from their node. */
  ghost function SettledNext(local: u32, db: map<Addr, Server>, p: Packet, settled: set<Addr>): set<Addr> {
    if Removes(local, db, p) then Unsettled(settled, p.from.node)
    else if p.ctrl.NewServer? &&
      Registers(local, p.from, p.ctrl.srv).Some? then settled + {Registers(local, p.from, p.ctrl.srv).value.At()}
    else settled
  }

  ghost function Settled(local: u32, ps: seq<Packet>): set<Addr> {
    if ps == [] then {}
    else SettledNext(local, Run(local, Start, ps[..|ps| - 1]).db, ps[|ps| - 1], Settled(local, ps[..|ps| - 1]))
  }

  /** The packet registers no port again for which tombstones can be in the way. */
  ghost predicate InOrder(local: u32, db: map<Addr, Server>, p: Packet, settled: set<Addr>) {
    p.ctrl.NewServer? && Registers(local, p.from, p.ctrl.srv).Some? ==>
      var a := Registers(local, p.from, p.ctrl.srv).value.At();
      a in db ==> a in settled
  }

  /** A port registers again only while no server of its node has been removed since it registered last. */
  ghost predicate Orderly(local: u32, ps: seq<Packet>) {
    forall i: nat {:trigger ps[..i]} :: i < |ps| ==>
        InOrder(local, Run(local, Start, ps[..i]).db, ps[i], Settled(local, ps[..i]))
  }

  /** A removal from a node unsettles its addresses. */
  function Unsettled(settled: set<Addr>, node: u32): set<Addr> {
    set b | b in settled && b.node != node
  }

  /** The settled ports can be put again. */
  ghost predicate SettledFree(s: Row, id: u32, settled: set<Addr>) {
    forall port: u32 {:trigger Addr(id, port)} :: Addr(id, port) in settled ==> Free(s, HashU32(port))
  }

  /** The table of a node as it is in a run without hindrance. */
  ghost predicate Good(s: Row, id: u32, db: map<Addr, Server>, settled: set<Addr>) {
    Table(s, id, db) && OnceEach(s) && SettledFree(s, id, settled) && Keyed(db)
  }

  lemma {:induction false} GoodUnhindered(local: u32, s: Row, db: map<Addr, Server>, settled: set<Addr>, p: Packet)
    requires Good(s, p.from.node, db, settled) && InOrder(local, db, p, settled)
    ensures Unhindered(local, s, p)
  {
    if p.ctrl.NewServer? && Registers(local, p.from, p.ctrl.srv).Some? {
      var x := Registers(local, p.from, p.ctrl.srv).value;
      assert x.At() == Addr(p.from.node, x.port);
      if x.At() !in db {
        Seen(s);
        AbsentIsFree(s, HashU32(x.port));
      }
    }
  }

  lemma {:induction false} GoodElsewhere(local: u32, s: Row, id: u32, db: map<Addr, Server>, settled: set<Addr>,
                                         p: Packet)
    requires Good(s, id, db, settled) && id != p.from.node
    ensures Good(s, id, DbNext(local, db, p), SettledNext(local, db, p, settled))
  {
    StepOfNode(local, db, p, id);
    ServesElsewhere(View(s), id, db, DbNext(local, db, p));
  }

  lemma {:induction false} GoodPut(s: Row, id: u32, db: map<Addr, Server>, settled: set<Addr>, x: Server)
    requires Good(s, id, db, settled) && x.node == id && x.service != 0 && x.port != 0 && Free(s, HashU32(x.port))
    ensures Good(Entered(s, HashU32(x.port), x), id, db[x.At() := x], settled + {x.At()})
  {
    var t := Entered(s, HashU32(x.port), x);
    TablePut(s, id, db, x);
    EnteredDone(s, HashU32(x.port), x);
    forall port: u32 | Addr(id, port) in settled + {x.At()} ensures Free(t, HashU32(port)) {
      HashIsInjective(port, x.port);
    }
  }

  lemma {:induction false} GoodMinus(s: Row, id: u32, db: map<Addr, Server>, settled: set<Addr>, port: u32)
    requires Good(s, id, db, settled)
    ensures Good(Tombstoned(s, HashU32(port)), id, db - {Addr(id, port)}, Unsettled(settled, id))
    ensures Addr(id, port) !in db ==> Tombstoned(s, HashU32(port)) == s
  {
    TableMinus(s, id, db, port);
    ViewIsFind(s, HashU32(port));
  }

  /** The node that a packet comes from. */
  lemma {:induction false} GoodHere(local: u32, s: Row, db: map<Addr, Server>, settled: set<Addr>, p: Packet)
    requires Good(s, p.from.node, db, settled) && Unhindered(local, s, p)
    ensures Good(RowNext(local, s, p.from.node, p), p.from.node, DbNext(local, db, p),
                 SettledNext(local, db, p, settled))
  {
    var id := p.from.node;
    match p.ctrl {
      case Bye(_) =>
        Emptied(s, id, db);
        if !Removes(local, db, p) {
          NoneRemoved(s, id, db, p, local);
        }
      case DelClient(client) =>
        if Closes(local, p.from, client) {
          GoodLess(local, s, db, settled, p, client.port);
        }
      case NewServer(srv) =>
        if Registers(local, p.from, srv).Some? {
          GoodPut(s, id, db, settled, Registers(local, p.from, srv).value);
        }
      case DelServer(srv) =>
        if Claimed(local, p.from, srv).Some? {
          GoodLess(local, s, db, settled, p, Claimed(local, p.from, srv).value.port);
        }
      case _ =>
    }
  }

  /** A packet that takes one address out. */
  lemma {:induction false} GoodLess(local: u32, s: Row, db: map<Addr, Server>, settled: set<Addr>, p: Packet, port: u32)
    requires Good(s, p.from.node, db, settled) && !p.ctrl.NewServer?
    requires DbNext(local, db, p) == db - {Addr(p.from.node, port)}
    ensures Good(Tombstoned(s, HashU32(port)), p.from.node, DbNext(local, db, p), SettledNext(local, db, p, settled))
  {
    var a := Addr(p.from.node, port);
    GoodMinus(s, p.from.node, db, settled, port);
    if a in db {
      assert a !in DbNext(local, db, p);
    } else {
      assert db - {a} == db;
    }
  }

  lemma {:induction false} NoneRemoved(s: Row, id: u32, db: map<Addr, Server>, p: Packet, local: u32)
    requires p.ctrl.Bye? && p.from.node == id && !Removes(local, db, p)
    ensures NotOf(db, id) == db
  {
    forall a | a in db ensures a.node != id {
      assert a in DbNext(local, db, p);
    }
  }

  lemma {:induction false} GoodRun(local: u32, ps: seq<Packet>, id: u32)
    requires Smooth(local, ps)
    ensures Good(RowRun(local, ps, id), id, Run(local, Start, ps).db, Settled(local, ps))
  {
    if ps == [] {
      NoServers(id, map[]);
      EmptyTable<Server>([]);
      Seen<Server>([]);
    } else {
      var front, p := ps[..|ps| - 1], ps[|ps| - 1];
      GoodRun(local, front, id);
      if id == p.from.node {
        GoodHere(local, RowRun(local, front, id), Run(local, Start, front).db, Settled(local, front), p);
      } else {
        GoodElsewhere(local, RowRun(local, front, id), id, Run(local, Start, front).db, Settled(local, front), p);
      }
    }
  }

  /** No packet meets a tombstone if ports register again only while no server of their node has been removed since. */
  lemma {:induction false} OrderlySmooth(local: u32, ps: seq<Packet>)
    requires Orderly(local, ps)
    ensures Smooth(local, ps)
  {
    if ps != [] {
      var n := |ps| - 1;
      forall i: nat | i < n
        ensures InOrder(local, Run(local, Start, ps[..n][..i]).db, ps[..n][i], Settled(local, ps[..n][..i])) {
        assert ps[..n][..i] == ps[..i];
      }
      OrderlySmooth(local, ps[..n]);
      GoodRun(local, ps[..n], ps[n].from.node);
      assert InOrder(local, Run(local, Start, ps[..n]).db, ps[n], Settled(local, ps[..n]));
      GoodUnhindered(local, RowRun(local, ps[..n], ps[n].from.node), Run(local, Start, ps[..n]).db,
                     Settled(local, ps[..n]), ps[n]);
    }
  }
}
