/**
 The name server of src/ns.c over its real tables: nodes and their services in hash maps, observers in a linked list.
 Each handler is proved to do and to send what the state machine says.
 */
module NameServer {
  import opened Bytes
  import opened Hiding
  import opened Hash
  import opened ProbeTable
  import opened HashMap
  import opened LinkedList
  import opened Control
  import opened NsSpec
  import opened Observers
  import opened ServerTables

  class Node {
    const id: u32
    const services: Map<Server>

    constructor (id: u32)
      ensures this.id == id && fresh(services) && fresh(services.data)
      ensures services.Valid() && services.data[..] == []
    {
      this.id := id;
      services := new Map();
    }

    /** The services are those in these slots. */
    ghost predicate Holds(s: Row)
      reads services, services.data
    {
      services.Valid() && services.data[..] == s
    }

    /** Puts a server into the table. */
    method Store(x: Server, ghost s: Row)
      requires Holds(s)
      modifies services, services.data
      ensures services.data == old(services.data) || fresh(services.data)
      ensures Holds(Entered(s, HashU32(x.port), x))
    {
      var _ := services.Reput(HashU32(x.port), x);
    }

    /** Takes a port out of the table. */
    method Discard(port: u32, ghost s: Row)
      requires Holds(s) && HashU32(port) in View(s)
      modifies services`count, services.data
      ensures Holds(Tombstoned(s, HashU32(port)))
    {
      var _ := services.Remove(HashU32(port));
    }
  }

  // ---------- The table of nodes ----------

  /** The table of nodes holds each node under the hash of its id. */
  ghost predicate Indexed(index: map<u32, Node>, byId: map<u32, Node>) {
    forall id: u32 {:trigger HashU32(id)} {:trigger id in byId} ::
      && (HashU32(id) in index <==> id in byId)
      && (id in byId ==> HashU32(id) in index && index[HashU32(id)] == byId[id] && byId[id].id == id)
  }

  lemma {:induction false} IndexedNew(index: map<u32, Node>, byId: map<u32, Node>, node: Node)
    requires Indexed(index, byId)
    ensures Indexed(index[HashU32(node.id) := node], byId[node.id := node])
  {
    forall i: u32 ensures HashU32(i) == HashU32(node.id) <==> i == node.id {
      HashIsInjective(i, node.id);
    }
  }

  /** What the tables stand for: the nodes and the slots of their tables by id, and the registered servers. */
  datatype Tables = Tables(byId: map<u32, Node>, rows: map<u32, Row>, db: map<Addr, Server>) {
    function WithNode(node: Node): Tables {
      Tables(byId[node.id := node], rows[node.id := []], db)
    }

    function WithServer(x: Server): Tables {
      Tables(byId, rows[x.node := Entered(RowOf(rows, x.node), HashU32(x.port), x)], db[x.At() := x])
    }

    function Without(a: Addr): Tables {
      Tables(byId, rows[a.node := Tombstoned(RowOf(rows, a.node), HashU32(a.port))],
             DbMinus(RowOf(rows, a.node), db, a))
    }
  }

  /** They agree, whatever is in them; out of sight, and seen where Agreeing is called. */
  ghost predicate Agree(index: map<u32, Node>, t: Tables) {
    forall u {:trigger Look(u)} :: Look(u) && u == t ==>
      Indexed(index, u.byId) && u.rows.Keys == u.byId.Keys && AllServed(u.rows, u.db) && Keyed(u.db)
  }

  lemma {:induction false} Agreeing(index: map<u32, Node>, t: Tables)
    ensures Agree(index, t) <==>
              Indexed(index, t.byId) && t.rows.Keys == t.byId.Keys && AllServed(t.rows, t.db) && Keyed(t.db)
  {
    assert Look(t);
  }

  lemma {:induction false} AgreeNode(index: map<u32, Node>, t: Tables, id: u32)
    requires Agree(index, t)
    ensures HashU32(id) in index <==> id in t.byId
    ensures id in t.byId <==> id in t.rows
    ensures id in t.byId ==> t.byId[id].id == id && index[HashU32(id)] == t.byId[id] && Table(t.rows[id], id, t.db)
  {
    Agreeing(index, t);
  }

  lemma {:induction false} AgreeWithNode(index: map<u32, Node>, t: Tables, node: Node)
    requires Agree(index, t) && node.id !in t.byId
    ensures Agree(index[HashU32(node.id) := node], t.WithNode(node))
  {
    Agreeing(index, t);
    Agreeing(index[HashU32(node.id) := node], t.WithNode(node));
    IndexedNew(index, t.byId, node);
    AllServedNew(t.rows, t.db, node.id);
  }

  lemma {:induction false} AgreeWithServer(index: map<u32, Node>, t: Tables, x: Server)
    requires Agree(index, t) && x.node in t.rows && x.service != 0 && x.port != 0 && OnceEach(t.rows[x.node])
    ensures Agree(index, t.WithServer(x))
  {
    Agreeing(index, t);
    TablePut(t.rows[x.node], x.node, t.db, x);
    AllServedPut(t.rows, t.db, x, Entered(t.rows[x.node], HashU32(x.port), x));
    KeyedPut(t.db, x);
    Agrees(index, t.WithServer(x));
  }

  lemma {:induction false} Agrees(index: map<u32, Node>, t: Tables)
    requires Indexed(index, t.byId) && t.rows.Keys == t.byId.Keys && AllServed(t.rows, t.db) && Keyed(t.db)
    ensures Agree(index, t)
  {
    Agreeing(index, t);
  }

  lemma {:induction false} KeyedPut(db: map<Addr, Server>, x: Server)
    requires Keyed(db) && x.service != 0 && x.port != 0
    ensures Keyed(db[x.At() := x])
  {
  }

  lemma {:induction false} AgreeWithout(index: map<u32, Node>, t: Tables, a: Addr)
    requires Agree(index, t) && a.node in t.rows
    ensures Agree(index, t.Without(a))
  {
    Agreeing(index, t);
    TableMinus(t.rows[a.node], a.node, t.db, a.port);
    AllServedBut(t.rows, t.db, a.node, Tombstoned(t.rows[a.node], HashU32(a.port)), t.Without(a).db);
    Agrees(index, t.Without(a));
  }

  // ---------- Observers ----------

  lemma {:induction false} ValuesKept(items: seq<Item<Lookup>>, drop: Lookup -> bool)
    ensures Values(Kept(items, drop)) == Purge(Values(items), drop)
  {
    if items != [] {
      ValuesKept(items[1..], drop);
      assert Values(items)[1..] == Values(items[1..]);
    }
  }

  // ---------- Querying ----------

  function MatchedBy(f: Filter): Server -> bool {
    (x: Server) => ServerMatch(x, f)
  }

  function MatchedOn(f: Filter, ids: set<u32>): Server -> bool {
    (x: Server) => x.node in ids && ServerMatch(x, f)
  }

  /** The servers that match, in order. */
  function Pick(servers: seq<Server>, f: Filter): seq<Server> {
    if servers == [] then []
    else
      var n := |servers| - 1;
      Pick(servers[..n], f) + if ServerMatch(servers[n], f) then [servers[n]] else []
  }

  lemma {:induction false} PickLast(servers: seq<Server>, x: Server, f: Filter)
    ensures Pick(servers + [x], f) == Pick(servers, f) + if ServerMatch(x, f) then [x] else []
  {
    assert (servers + [x])[..|servers + [x]| - 1] == servers;
  }

  lemma {:induction false} PickOnce(servers: seq<Server>, f: Filter)
    requires Once(servers)
    ensures Once(Pick(servers, f)) && forall x :: x in Pick(servers, f) <==> x in servers && ServerMatch(x, f)
  {
    if servers != [] {
      var n := |servers| - 1;
      PickOnce(servers[..n], f);
      assert servers == servers[..n] + [servers[n]];
      assert servers[n] !in servers[..n];
      OncePlus(Pick(servers[..n], f), if ServerMatch(servers[n], f) then [servers[n]] else []);
    }
  }

  lemma {:induction false} OncePlus(s: seq<Server>, u: seq<Server>)
    requires Once(s) && Once(u) && forall x :: x in s ==> x !in u
    ensures Once(s + u)
  {
    var all := s + u;
    forall i, j | 0 <= i < j < |all| ensures all[i] != all[j] {
      if i < |s| <= j {
        assert s[i] in s && u[j - |s|] in u;
      }
    }
  }

  /** One more node searched. */
  lemma {:induction false} PickLists(found: seq<Server>, ids: set<u32>, f: Filter, servers: seq<Server>, id: u32,
                                     db: map<Addr, Server>)
    requires Lists(found, db, MatchedOn(f, ids)) && Lists(servers, db, OnNode(id)) && id !in ids
    ensures Lists(found + Pick(servers, f), db, MatchedOn(f, ids + {id}))
  {
    PickOnce(servers, f);
    OncePlus(found, Pick(servers, f));
  }

  function Ids(nodes: seq<Node>): set<u32> {
    set n | n in nodes :: n.id
  }

  /** The node at the iterator is in its place and has not been searched. */
  lemma {:induction false} NodeNext(s: seq<Slot<Node>>, i: nat, byId: map<u32, Node>)
    requires Reachable(s) && OnceEach(s) && Indexed(View(s), byId) && i < |s| && s[i].Live?
    ensures var n := s[i].item; n.id in byId && byId[n.id] == n && n.id !in Ids(Items(s, i))
    ensures Ids(Items(s, i + 1)) == Ids(Items(s, i)) + {s[i].item.id}
  {
    NodeKey(s, i, byId);
    forall n | n in Items(s, i) ensures n.id != s[i].item.id {
      ItemsMember(s, i, n);
      var k :| 0 <= k < i && s[k].Live? && s[k].item == n;
      NodeKey(s, k, byId);
      Seen(s);
    }
  }

  lemma {:induction false} NodeKey(s: seq<Slot<Node>>, i: nat, byId: map<u32, Node>)
    requires Reachable(s) && OnceEach(s) && Indexed(View(s), byId) && i < |s| && s[i].Live?
    ensures var n := s[i].item; n.id in byId && byId[n.id] == n && s[i].key == HashU32(n.id)
  {
    Seen(s);
    FirstIsFound(s, s[i].key, i);
    ViewIsFind(s, s[i].key);
    HashIsBijective(s[i].key);
    assert HashU32(UnhashU32(s[i].key)) in View(s);
  }

  /** In the end all have been. */
  lemma {:induction false} NodesAll(s: seq<Slot<Node>>, byId: map<u32, Node>)
    requires Reachable(s) && OnceEach(s) && Indexed(View(s), byId)
    ensures forall id :: id in byId ==> id in Ids(Items(s, |s|))
  {
    forall id | id in byId ensures id in Ids(Items(s, |s|)) {
      ViewIsFind(s, HashU32(id));
      var i := Find(s, HashU32(id)).value;
      ItemsMember(s, |s|, s[i].item);
      assert s[i].item == byId[id];
    }
  }

  lemma {:induction false} MatchedEverywhere(found: seq<Server>, ids: set<u32>, f: Filter, db: map<Addr, Server>)
    requires Lists(found, db, MatchedOn(f, ids)) && forall a :: a in db ==> a.node in ids
    ensures Lists(found, db, MatchedBy(f))
  {
    forall x: Server ensures x in found <==> x.At() in db && db[x.At()] == x && MatchedBy(f)(x) {
    }
  }

  lemma {:induction false} MatchedIsWanted(found: seq<Server>, l: Lookup, db: map<Addr, Server>)
    requires Lists(found, db, MatchedBy(Filter(l.service, l.instance, 0)))
    ensures Lists(found, db, WantedBy(l))
  {
    forall x: Server ensures MatchedBy(Filter(l.service, l.instance, 0))(x) <==> WantedBy(l)(x) {
      MatchIsWants(x, l);
    }
  }

  /** The packet was handled as the state machine handles it. */
  ghost predicate Did(local: u32, s: State, p: Packet, order: seq<Server>, rest: seq<Server>, before: seq<Msg>,
                      now: State, after: seq<Msg>) {
    && Orders(local, s, p, order, rest)
    && now == NsSpec.Next(local, s, p)
    && after == before + Outputs(local, s, p, order, rest)
  }

  /**
   The server that the packet names was taken out, and its removal announced; another of its port may have come to
   light.
   */
  ghost predicate Undone(local: u32, s: State, rows: map<u32, Row>, p: Packet, before: seq<Msg>, now: State,
                         after: seq<Msg>)
    requires p.ctrl.DelServer?
  {
    && after == before + Outputs(local, s, p, [], [])
    && now == match Claimed(local, p.from, p.ctrl.srv)
              case None => s
              case Some(a) => State(DbMinus(RowOf(rows, a.node), s.db, a), s.lookups)
  }

  /** The socket, as the messages sent on it so far. */
  class Socket {
    var sent: seq<Msg>

    constructor ()
      ensures sent == []
    {
      sent := [];
    }

    method Send(to: Addr, ctrl: Ctrl)
      modifies this
      ensures sent == old(sent) + [Msg(to, ctrl)]
    {
      sent := sent + [Msg(to, ctrl)];
    }
  }

  class NameServer {
    const local: u32
    const sock: Socket
    const nodes: Map<Node>
    const lookups: List<Lookup>
    ghost var t: Tables
    ghost var Repr: set<object>

    // ---------- What the tables stand for ----------

    ghost predicate Owns()
      reads this, Repr
    {
      && this in Repr && nodes in Repr && nodes.data in Repr && lookups in Repr && sock !in Repr
      && (forall x :: x in lookups.items ==> x in Repr)
      && forall i {:trigger t.byId[i]} :: i in t.byId ==> t.byId[i].services in Repr && t.byId[i].services.data in Repr
    }

    /** Two nodes share no table, and none shares its array with the table of nodes. */
    ghost predicate Apart(i: u32, j: u32)
      requires Owns()
      reads this, Repr
    {
      && (i in t.byId && j in t.byId && i != j ==>
            t.byId[i].services != t.byId[j].services && t.byId[i].services.data != t.byId[j].services.data)
      && (i in t.byId ==> t.byId[i].services.data as object != nodes.data as object)
    }

    ghost predicate Holds(i: u32)
      requires Owns()
      reads this, Repr
    {
      i in t.byId ==> i in t.rows && t.byId[i].id == i && t.byId[i].Holds(t.rows[i])
    }

    /** What holds of the table of nodes and of the observers. */
    ghost predicate Rest()
      reads nodes, nodes.data, lookups, lookups.items
    {
      nodes.Valid() && nodes.OneEach() && nodes.NoTombstones() && lookups.Valid() &&
        AllLocal(local, Values(lookups.items))
    }

    /** What always holds of the tables. */
    ghost predicate Right()
      requires Owns()
      reads this, Repr
    {
      && (forall i, j {:trigger Apart(i, j)} :: Apart(i, j))
      && (forall i {:trigger Holds(i)} :: Holds(i))
      && Rest() && Agree(nodes.Contents(), t)
    }

    /** Right, out of sight. */
    ghost predicate Kept()
      reads this, Repr
    {
      Owns() && forall k: u32 {:trigger Look(k)} :: Look(k) && k == local ==> Right()
    }

    /** And no port is twice in the table of its node. */
    ghost predicate Valid()
      reads this, Repr
    {
      Kept() && Ordered(t.rows)
    }

    /** The state of the machine. */
    ghost function Now(): State
      reads this, lookups, lookups.items
    {
      State(t.db, Values(lookups.items))
    }

    ghost predicate Known(n: Node)
      reads this
    {
      n.id in t.byId && t.byId[n.id] == n && n.id in t.rows
    }

    constructor (local: u32)
      ensures Valid() && fresh(Repr) && this.local == local && Now() == Start && t == Tables(map[], map[], map[])
      ensures fresh(sock) && sock.sent == []
    {
      this.local := local;
      sock := new Socket();
      nodes := new Map();
      lookups := new List();
      t := Tables(map[], map[], map[]);
      new;
      Repr := {this, nodes, nodes.data, lookups};
      Empty();
    }

    lemma {:induction false} Empty()
      requires Owns() && t == Tables(map[], map[], map[])
      requires nodes.Valid() && nodes.OneEach() && nodes.NoTombstones() && nodes.Contents() == map[]
      requires lookups.Valid() && lookups.items == []
      ensures Valid()
    {
      Agreeing(map[], t);
      EmptyTable<Server>([]);
      Seen<Server>([]);
    }

    // ---------- What a change leaves right ----------

    /** The table of node i is as it was. */
    twostate predicate Same(i: u32)
      requires Owns() && old(Owns())
      reads this, Repr
    {
      && i in t.byId && i in old(t).byId && t.byId[i] == old(t).byId[i] && t.byId[i].id == i
      && i in t.rows && i in old(t).rows && t.rows[i] == old(t).rows[i]
      && unchanged(t.byId[i].services) && unchanged(t.byId[i].services.data)
    }

    /** The table of node i is a new one, or its own rewritten, in place or not. */
    twostate predicate Renewed(i: u32)
      requires Owns() && old(Owns())
      reads this, Repr
    {
      && i in t.byId && i in t.rows && t.byId[i].id == i && t.byId[i].Holds(t.rows[i])
      && (if i in old(t).byId then t.byId[i] == old(t).byId[i] else t.byId[i].services !in old(Repr))
      && (t.byId[i].services.data !in old(Repr) ||
          (i in old(t).byId && t.byId[i].services.data == old(t.byId[i].services.data)))
      && t.byId[i].services.data as object != nodes.data as object
    }

    /** When at most the table of one node was changed. */
    twostate predicate OnlyTable(changed: set<u32>)
      requires Owns() && old(Owns())
      reads this, Repr
    {
      && (forall i {:trigger Same(i)} :: i in t.byId && i !in changed ==> Same(i))
      && (forall i {:trigger i in changed} :: i in changed ==> Renewed(i))
      && (forall i, j {:trigger i in changed, j in changed} :: i in changed && j in changed ==> i == j)
      && (nodes.data == old(nodes.data) || fresh(nodes.data))
    }

    twostate lemma {:induction false} StillApart(changed: set<u32>)
      requires old(Owns()) && old(Right()) && Owns() && OnlyTable(changed)
      ensures forall i, j {:trigger Apart(i, j)} :: Apart(i, j)
    {
      forall i: u32, j: u32 ensures Apart(i, j) {
        assert old(Apart(i, j)) && old(Apart(j, i));
        assert i in t.byId && i !in changed ==> Same(i);
        assert j in t.byId && j !in changed ==> Same(j);
        assert i in changed ==> Renewed(i);
        assert j in changed ==> Renewed(j);
      }
    }

    twostate lemma {:induction false} StillHolds(changed: set<u32>)
      requires old(Owns()) && old(Right()) && Owns() && OnlyTable(changed)
      ensures forall i {:trigger Holds(i)} :: Holds(i)
    {
      forall i: u32 ensures Holds(i) {
        assert old(Holds(i));
        assert i in t.byId && i !in changed ==> Same(i);
        assert i in changed ==> Renewed(i);
      }
    }

    /** What is left to see to when at most one table was changed. */
    twostate lemma {:induction false} StillKept(changed: set<u32>)
      requires old(Kept()) && Owns() && OnlyTable(changed)
      requires Rest() && Agree(nodes.Contents(), t)
      ensures Kept()
    {
      assert Look(local);
      StillApart(changed);
      StillHolds(changed);
    }

    /** What is known of a node. */
    lemma {:induction false} NodeSeen(node: Node)
      requires Kept() && Known(node)
      ensures node.Holds(t.rows[node.id]) && Agree(nodes.Contents(), t)
      ensures node.services in Repr && node.services.data in Repr
      ensures node.services.data as object != nodes.data as object
    {
      assert Look(local);
      assert Holds(node.id) && Apart(node.id, node.id);
    }

    /** Its servers, besides. */
    lemma {:induction false} NodeServes(node: Node)
      requires Kept() && Known(node)
      ensures Table(t.rows[node.id], node.id, t.db)
    {
      assert Look(local);
      AgreeNode(nodes.Contents(), t, node.id);
    }

    lemma {:induction false} NodeOrdered(node: Node)
      requires Valid() && Known(node)
      ensures OnceEach(t.rows[node.id])
    {
      assert RowOf(t.rows, node.id) == t.rows[node.id];
    }

    // ---------- Telling observers ----------

    /** The loop over the observers, telling those that want the server. */
    method Notify(srv: Server, arrived: bool)
      requires lookups.Valid()
      modifies sock
      ensures sock.sent == old(sock.sent) +
              Notices(Now().lookups, |Now().lookups|, srv, if arrived then NewServer(srv) else DelServer(srv))
    {
      var ctrl := if arrived then NewServer(srv) else DelServer(srv);
      ghost var all := Now().lookups;
      ghost var i: nat := 0;
      var li := lookups.head;
      while li != null
        invariant i <= |lookups.items| && li == if i < |lookups.items| then lookups.items[i] else null
        invariant sock.sent == old(sock.sent) + Notices(all, i, srv, ctrl)
        decreases |lookups.items| - i
      {
        assert lookups.NextRight(i);
        var lookup := li.data;
        li := li.next;
        i := i + 1;
        if lookup.service != 0 && lookup.service != srv.service {
          continue;
        }
        if lookup.instance != 0 && lookup.instance != srv.instance {
          continue;
        }
        NoticesMore(old(sock.sent), all, i, srv, ctrl);
        sock.Send(lookup.who, ctrl);
      }
    }

    lemma {:induction false} NoticesMore(before: seq<Msg>, all: seq<Lookup>, i: nat, srv: Server, ctrl: Ctrl)
      requires 0 < i <= |all| && Wants(all[i - 1], srv)
      ensures before + Notices(all, i - 1, srv, ctrl) + [Msg(all[i - 1].who, ctrl)] ==
              before + Notices(all, i, srv, ctrl)
    {
    }

    method TellArrival(srv: Server)
      requires Kept()
      modifies sock
      ensures sock.sent == old(sock.sent) + Arrival(local, Now().lookups, srv)
    {
      assert Look(local);
      if srv.node == local {
        sock.Send(Broadcast, NewServer(srv));
      }
      Notify(srv, true);
    }

    method TellDeparture(srv: Server)
      requires Kept()
      modifies sock
      ensures sock.sent == old(sock.sent) + Departure(local, Now().lookups, srv)
    {
      assert Look(local);
      if srv.node == local {
        sock.Send(Broadcast, DelServer(srv));
      }
      Notify(srv, false);
    }

    // ---------- Nodes ----------

    /** The node with this id, entered in the table if it is new; the tables of services are the same. */
    method NodeGet(id: u32) returns (node: Node)
      requires Kept()
      modifies `t, `Repr, nodes, nodes.data
      ensures Kept() && fresh(Repr - old(Repr)) && Known(node) && node.id == id && t.db == old(t).db
      ensures t == if id in old(t).byId then old(t) else old(t).WithNode(node)
      ensures RowsBut(old(t).rows, t.rows, id, RowOf(old(t).rows, id)) && (old(Valid()) ==> Valid())
      ensures id !in old(t).byId ==> fresh(node.services) && fresh(node.services.data)
    {
      var mi := FindNode(id);
      if mi.Some? {
        return mi.value;
      }
      node := new Node(id);
      NewRow(node);
      Enter(node);
    }

    /** A new node has an empty table. */
    lemma {:induction false} NewRow(node: Node)
      requires node.id !in t.rows
      ensures RowsBut(t.rows, t.WithNode(node).rows, node.id, RowOf(t.rows, node.id))
      ensures Ordered(t.rows) ==> Ordered(t.WithNode(node).rows)
    {
      if Ordered(t.rows) {
        OrderedBut(t.rows, t.WithNode(node).rows, node.id, RowOf(t.rows, node.id));
      }
    }

    method FindNode(id: u32) returns (node: Option<Node>)
      requires Kept()
      ensures node.Some? <==> id in t.byId
      ensures node.Some? ==> Known(node.value) && node.value.id == id
      ensures id in t.byId <==> id in t.rows
    {
      assert Look(local);
      AgreeNode(nodes.Contents(), t, id);
      node := nodes.Get(HashU32(id));
    }

    /** The tables of all nodes but this one are as they were. */
    twostate predicate Others(id: u32)
      reads *
    {
      forall i {:trigger t.byId[i]} :: i in t.byId && i != id ==>
        i in old(t).byId && t.byId[i] == old(t).byId[i] && t.byId[i].id == i && i in t.rows
        && unchanged(t.byId[i].services) && unchanged(t.byId[i].services.data)
    }

    lemma {:induction false} EachNode()
      requires Kept()
      ensures forall i {:trigger t.byId[i]} :: i in t.byId ==>
                t.byId[i].id == i && i in t.rows && t.byId[i].services.data as object != nodes.data as object
      ensures Rest()
    {
      assert Look(local);
      forall i | i in t.byId
        ensures t.byId[i].id == i && i in t.rows && t.byId[i].services.data as object != nodes.data as object {
        assert Holds(i) && Apart(i, i);
      }
    }

    /** Enters a new node in the table. */
    method Enter(node: Node)
      requires Kept() && node.id !in t.byId && node.Holds([])
      requires node.services !in Repr && node.services.data !in Repr
      modifies `t, `Repr, nodes, nodes.data
      ensures Kept() && t == old(t).WithNode(node)
      ensures Repr == old(Repr) + {nodes.data, node.services, node.services.data}
      ensures nodes.data == old(nodes.data) || fresh(nodes.data)
    {
      PutNode(node);
      Repr := Repr + {nodes.data, node.services, node.services.data};
      Entering(node);
    }

    method PutNode(node: Node)
      requires Kept() && node.id !in t.byId && node.services !in Repr && node.services.data !in Repr
      modifies `t, nodes, nodes.data
      ensures t == old(t).WithNode(node)
      ensures nodes.data == old(nodes.data) || fresh(nodes.data)
      ensures Rest() && Agree(nodes.Contents(), t) && Others(node.id)
      ensures unchanged(node.services) && unchanged(node.services.data)
      ensures node.services.data as object != nodes.data as object
    {
      EachNode();
      InIndex(node);
      nodes.Put(HashU32(node.id), node);
      t := t.WithNode(node);
    }

    /** A new node can be put into the table of nodes, which then agrees with what it stands for. */
    lemma {:induction false} InIndex(node: Node)
      requires Kept() && node.id !in t.byId
      ensures nodes.Reputtable(HashU32(node.id))
      ensures Agree(nodes.Contents()[HashU32(node.id) := node], t.WithNode(node))
    {
      assert Look(local);
      CleanIsFree(nodes.data[..], HashU32(node.id));
      AgreeWithNode(nodes.Contents(), t, node);
    }

    twostate lemma {:induction false} Entering(node: Node)
      requires old(Kept()) && node.id !in old(t).byId && old(node.Holds([]))
      requires node.services !in old(Repr) && node.services.data !in old(Repr)
      requires t == old(t).WithNode(node) && unchanged(node.services) && unchanged(node.services.data)
      requires Repr == old(Repr) + {nodes.data, node.services, node.services.data} && sock !in Repr
      requires lookups.items == old(lookups.items)
      requires nodes.data == old(nodes.data) || fresh(nodes.data)
      requires Rest() && Agree(nodes.Contents(), t) && Others(node.id)
      requires node.services.data as object != nodes.data as object
      ensures Kept()
    {
      assert Owns();
      EnteringOnly(node);
      StillKept({node.id});
    }

    twostate lemma {:induction false} EnteringOnly(node: Node)
      requires old(Owns()) && node.id !in old(t).byId && node.Holds([])
      requires node.services !in old(Repr) && node.services.data !in old(Repr)
      requires t == old(t).WithNode(node) && Owns()
      requires nodes.data == old(nodes.data) || fresh(nodes.data)
      requires Others(node.id) && node.services.data as object != nodes.data as object
      ensures OnlyTable({node.id})
    {
    }

    // ---------- Servers ----------

    /**
     Registers a server at its address, in place of one that is there; nothing when service or port is zero. No port is
     twice in a table afterwards exactly when no tombstone lay ahead of the server that was replaced.
     */
    method ServerAdd(service: u32, instance: bv32, id: u32, port: u32) returns (srv: Option<Server>)
      requires Valid()
      modifies Repr
      ensures Kept() && fresh(Repr - old(Repr))
      ensures Valid() <==> service == 0 || port == 0 || Free(RowOf(old(t).rows, id), HashU32(port))
      ensures srv == if service == 0 || port == 0 then None else Some(Server(service, instance, id, port))
      ensures Now() == if srv.Some? then old(Now()).(db := old(t).db[srv.value.At() := srv.value]) else old(Now())
      ensures var row := RowOf(old(t).rows, id);
              RowsBut(old(t).rows, t.rows, id, if srv.Some? then Entered(row, HashU32(port), srv.value) else row)
    {
      if service == 0 || port == 0 {
        return None;
      }
      var x := Server(service, instance, id, port);
      var node := NodeGet(id);
      NodeOrdered(node);
      assert t.rows[id] == RowOf(t.rows, id);
      Register(node, x);
      AddedRows(old(t).rows, t.rows, x);
      return Some(x);
    }

    /** No port is twice in a table exactly when no tombstone lay ahead of this one. */
    lemma {:induction false} AddedRows(was: map<u32, Row>, now: map<u32, Row>, x: Server)
      requires Ordered(was) && RowsBut(was, now, x.node, Entered(RowOf(was, x.node), HashU32(x.port), x))
      requires Reachable(RowOf(was, x.node))
      ensures Ordered(now) <==> Free(RowOf(was, x.node), HashU32(x.port))
    {
      var row := RowOf(was, x.node);
      OrderedBut(was, now, x.node, Entered(row, HashU32(x.port), x));
      assert OnceEach(row);
      EnteredDone(row, HashU32(x.port), x);
    }

    method Register(node: Node, x: Server)
      requires Kept() && Known(node) && x.node == node.id && x.service != 0 && x.port != 0 && OnceEach(t.rows[node.id])
      modifies `t, `Repr, node.services, node.services.data
      ensures Kept() && t == old(t).WithServer(x) && Reachable(old(t).rows[node.id])
      ensures Repr == old(Repr) + {node.services.data}
      ensures node.services.data == old(node.services.data) || fresh(node.services.data)
    {
      NodeSeen(node);
      NodeServes(node);
      AgreeWithServer(nodes.Contents(), t, x);
      node.Store(x, t.rows[node.id]);
      t := t.WithServer(x);
      Repr := Repr + {node.services.data};
      Changing(node);
    }

    /** The objects of the name server are as they were, but for itself and the table of one node. */
    twostate predicate OthersAsWere(node: Node)
      reads *
    {
      forall o: object {:trigger o in old(Repr)} ::
        o in old(Repr) && o != this && o != node.services && o != old(node.services.data) ==> unchanged(o)
    }

    /** What is left to see to when the table of one node was changed. */
    twostate lemma {:induction false} Changing(node: Node)
      requires old(Kept()) && old(Known(node)) && OtherRows(node.id) && OthersAsWere(node)
      requires Repr == old(Repr) + {node.services.data}
      requires node.services.data == old(node.services.data) || fresh(node.services.data)
      requires node.Holds(t.rows[node.id]) && Agree(old(nodes.Contents()), t)
      ensures Kept()
    {
      RestUntouched(node);
      ChangedOnly(node);
      StillKept({node.id});
    }

    twostate lemma {:induction false} LookupsKept()
      requires unchanged(lookups)
      requires (forall x {:trigger x in old(lookups.items)} :: x in old(lookups.items) ==> unchanged(x))
      requires old(lookups.Valid())
      ensures lookups.Valid()
    {
      forall i: nat ensures lookups.NextRight(i) && lookups.PrevRight(i) {
        assert i < |lookups.items| ==> lookups.items[i] in old(lookups.items);
        assert old(lookups.NextRight(i)) && old(lookups.PrevRight(i));
      }
    }

    twostate lemma {:induction false} RestUntouched(node: Node)
      requires old(Kept()) && old(Known(node)) && OtherRows(node.id) && OthersAsWere(node)
      requires Repr == old(Repr) + {node.services.data}
      requires node.services.data == old(node.services.data) || fresh(node.services.data)
      ensures Owns() && Rest() && Others(node.id) && nodes.data == old(nodes.data)
      ensures nodes.Contents() == old(nodes.Contents())
      ensures node.services.data as object != nodes.data as object
    {
      assert Look(local);
      assert old(Apart(node.id, node.id)) && old(Holds(node.id));
      assert unchanged(lookups) && unchanged(nodes) && unchanged(nodes.data);
      assert old(Rest()) && lookups.items == old(lookups.items);
      forall x | x in old(lookups.items) ensures unchanged(x) {
        assert x in old(Repr);
      }
      LookupsKept();
      forall i | i in t.byId && i != node.id
        ensures t.byId[i].id == i && i in t.rows && unchanged(t.byId[i].services)
        ensures unchanged(t.byId[i].services.data) {
        assert old(Apart(i, node.id)) && old(Holds(i));
      }
    }

    /** The nodes are the same, and so are the tables of the others. */
    twostate predicate OtherRows(id: u32)
      reads this
    {
      && t.byId == old(t).byId && t.rows.Keys == old(t).rows.Keys
      && (forall i {:trigger t.rows[i]} :: i in t.rows && i != id ==> i in old(t).rows && t.rows[i] == old(t).rows[i])
    }

    /** A change to the table of one node. */
    twostate lemma {:induction false} ChangedOnly(node: Node)
      requires old(Owns()) && old(Known(node)) && Owns() && OtherRows(node.id)
      requires node.services.data == old(node.services.data) || fresh(node.services.data)
      requires node.Holds(t.rows[node.id]) && Others(node.id) && nodes.data == old(nodes.data)
      requires node.services.data as object != nodes.data as object
      ensures OnlyTable({node.id})
    {
    }

    /** Takes the server at this port out of the table of its node. */
    method Unregister(node: Node, port: u32)
      requires Kept() && Known(node) && Addr(node.id, port) in t.db
      modifies `t, node.services`count, node.services.data
      ensures Kept() && t == old(t).Without(Addr(node.id, port))
    {
      NodeSeen(node);
      NodeServes(node);
      AgreeWithout(nodes.Contents(), t, Addr(node.id, port));
      node.Discard(port, t.rows[node.id]);
      t := t.Without(Addr(node.id, port));
      Changing(node);
    }

    /**
     Removes the server at this port and tells those concerned. If the port is in the table twice, the other server
     comes to light.
     */
    method ServerDel(node: Node, port: u32) returns (rc: int)
      requires Kept() && Known(node)
      modifies sock, `t, node.services`count, node.services.data
      ensures Kept() && rc == (if Addr(node.id, port) in old(t).db then 0 else -ENOENT)
      ensures rc != 0 ==> t == old(t) && sock.sent == old(sock.sent)
      ensures rc == 0 ==> t == old(t).Without(Addr(node.id, port))
      ensures rc == 0 ==> sock.sent == old(sock.sent) + Departure(local, Now().lookups, old(t).db[Addr(node.id, port)])
      ensures RowsBut(old(t).rows, t.rows, node.id, Tombstoned(old(t).rows[node.id], HashU32(port)))
      ensures t.db == DbMinus(old(t).rows[node.id], old(t).db, Addr(node.id, port))
      ensures old(Valid()) ==> Valid() && t.db == old(t).db - {Addr(node.id, port)}
    {
      var mi := FindServer(node, port);
      MinusOrdered(node, port);
      if mi.None? {
        return -ENOENT;
      }
      Unregister(node, port);
      TellDeparture(mi.value);
      return 0;
    }

    /** With every port there once, removing is removing from the registered servers. */
    lemma {:induction false} MinusOrdered(node: Node, port: u32)
      requires Kept() && Known(node)
      ensures var next := t.Without(Addr(node.id, port));
              && RowsBut(t.rows, next.rows, node.id, Tombstoned(t.rows[node.id], HashU32(port)))
              && (Ordered(t.rows) ==> Ordered(next.rows) && next.db == t.db - {Addr(node.id, port)})
              && next.db == DbMinus(t.rows[node.id], t.db, Addr(node.id, port))
              && (Addr(node.id, port) !in t.db ==> next.rows == t.rows && next.db == t.db)
    {
      var row := t.rows[node.id];
      NodeServes(node);
      TablesKeyed();
      TableMinus(row, node.id, t.db, port);
      if Addr(node.id, port) !in t.db {
        AbsentMinus(row, node.id, t.db, port);
      }
      if Ordered(t.rows) {
        NodeOrdered(node);
        OrderedBut(t.rows, t.Without(Addr(node.id, port)).rows, node.id, Tombstoned(row, HashU32(port)));
      }
    }

    lemma {:induction false} TablesKeyed()
      requires Kept()
      ensures Keyed(t.db)
    {
      assert Look(local);
      Agreeing(nodes.Contents(), t);
    }

    method FindServer(node: Node, port: u32) returns (srv: Option<Server>)
      requires Kept() && Known(node)
      ensures srv == if Addr(node.id, port) in t.db then Some(t.db[Addr(node.id, port)]) else None
    {
      NodeSeen(node);
      NodeServes(node);
      assert Addr(node.id, port).node == node.id;
      srv := node.services.Get(HashU32(port));
    }

    /** Removes the server at this address, if there is one, from the table of its node. */
    method DelAt(a: Addr) returns (rc: int)
      requires Kept()
      modifies Repr, sock
      ensures Kept() && fresh(Repr - old(Repr)) && Now().lookups == old(Now()).lookups
      ensures rc == (if a in old(t).db then 0 else -ENOENT)
      ensures sock.sent == old(sock.sent) + if a in old(t).db then Departure(local, Now().lookups, old(t).db[a]) else []
      ensures RowsBut(old(t).rows, t.rows, a.node, Tombstoned(RowOf(old(t).rows, a.node), HashU32(a.port)))
      ensures t.db == DbMinus(RowOf(old(t).rows, a.node), old(t).db, a)
      ensures old(Valid()) ==> Valid() && t.db == old(t).db - {a}
    {
      var node := NodeGet(a.node);
      ghost var mid := t.rows;
      assert t.rows[a.node] == RowOf(mid, a.node);
      rc := ServerDel(node, a.port);
      RowsButTwice(old(t).rows, mid, t.rows, a.node, Tombstoned(RowOf(old(t).rows, a.node), HashU32(a.port)));
    }

    /** The loop of BYE over the servers of a node, each of which is removed while the iterator stands on it. */
    method Drain(node: Node) returns (ghost order: seq<Server>)
      requires Valid() && Known(node)
      modifies sock, `t, node.services`count, node.services.data
      ensures Valid() && t.byId == old(t).byId && t.db == NotOf(old(t).db, node.id)
      ensures Lists(order, old(t).db, OnNode(node.id))
      ensures sock.sent == old(sock.sent) + Departures(local, Now().lookups, order)
      ensures var row := old(t).rows[node.id]; RowsBut(old(t).rows, t.rows, node.id, Tombed(row, |row|))
    {
      order := NodeOrder(node);
      NodeSeen(node);
      DrainAll(node, node.services.data[..]);
    }

    method DrainAll(node: Node, ghost s: Row)
      requires Valid() && Known(node) && s == node.services.data[..] == t.rows[node.id]
      modifies sock, `t, node.services`count, node.services.data
      ensures Valid() && t.byId == old(t).byId && t.db == NotOf(old(t).db, node.id)
      ensures sock.sent == old(sock.sent) + Departures(local, Now().lookups, Items(s, |s|))
      ensures RowsBut(old(t).rows, t.rows, node.id, Tombed(s, |s|))
    {
      var iter: Option<nat> := node.services.IterFirst();
      DrainSkip(s, 0, node.services.Pos(iter));
      ghost var gone: seq<Server> := [];
      while iter.Some?
        invariant Valid() && Known(node) && Emptied(node, s, iter, gone)
        invariant Draining(node, old(t), old(sock.sent), gone)
        decreases |s| - node.services.Pos(iter)
      {
        ghost var x := s[iter.value].item;
        iter := DrainOne(node, iter.value, s, old(t), old(sock.sent), gone);
        gone := gone + [x];
      }
      Drained(node, s);
    }

    /** The iterator stands at a live slot or the end; the servers before it are gone. */
    ghost predicate Emptied(node: Node, s: Row, iter: Option<nat>, gone: seq<Server>)
      reads node.services, node.services.data
    {
      && node.services.Pos(iter) <= |s| && (iter.Some? ==> iter.value < |s| && s[iter.value].Live?)
      && node.services.data[..] == Tombed(s, node.services.Pos(iter))
      && gone == Items(s, node.services.Pos(iter))
    }

    /** What has been sent for the servers that are gone, and what is left of the others. */
    ghost predicate Draining(node: Node, was: Tables, before: seq<Msg>, gone: seq<Server>)
      reads this, sock, lookups, lookups.items
    {
      && t.byId == was.byId && NotOf(t.db, node.id) == NotOf(was.db, node.id)
      && sock.sent == before + Departures(local, Now().lookups, gone)
      && OthersSame(was.rows, t.rows, node.id)
    }

    lemma {:induction false} Drained(node: Node, s: Row)
      requires Kept() && Known(node) && node.services.data[..] == Tombed(s, |s|)
      ensures NotOf(t.db, node.id) == t.db && RowOf(t.rows, node.id) == Tombed(s, |s|)
    {
      NodeSeen(node);
      NodeServes(node);
      DrainEnd(s, node.id, t.db);
    }

    lemma {:induction false} DrainsHere(node: Node, i: nat, s: Row)
      requires Valid() && Known(node) && i < |s| && s[i].Live? && node.services.data[..] == Tombed(s, i)
      ensures var x, now := s[i].item, node.services.data[..];
              && x.node == node.id && x.At() in t.db && t.db[x.At()] == x
              && now[i] == s[i] && now == t.rows[node.id] && Tombstoned(now, HashU32(x.port)) == Tombed(s, i + 1)
              && NotOf(t.db - {x.At()}, node.id) == NotOf(t.db, node.id)
    {
      NodeSeen(node);
      NodeServes(node);
      NodeOrdered(node);
      TablesKeyed();
      DrainStep(s, i, node.services.data[..], node.id, t.db);
    }

    /** One turn of that loop. */
    method DrainOne(node: Node, i: nat, ghost s: Row, ghost was: Tables, ghost before: seq<Msg>,
                    ghost gone: seq<Server>)
      returns (iter: Option<nat>)
      requires Valid() && Known(node) && i < |s| && Emptied(node, s, Some(i), gone) && Draining(node, was, before, gone)
      modifies sock, `t, node.services`count, node.services.data
      ensures Valid() && Known(node) && Emptied(node, s, iter, gone + [s[i].item]) && i < node.services.Pos(iter)
      ensures Draining(node, was, before, gone + [s[i].item])
    {
      DelCurrent(node, i, s, was, before, gone);
      iter := node.services.IterNext(i);
      DrainSkip(s, i + 1, node.services.Pos(iter));
    }

    lemma {:induction false} Regroup(a: seq<Msg>, b: seq<Msg>, c: seq<Msg>)
      ensures a + b + c == a + (b + c)
    {
    }

    method DelCurrent(node: Node, i: nat, ghost s: Row, ghost was: Tables, ghost before: seq<Msg>,
                      ghost gone: seq<Server>)
      requires Valid() && Known(node) && i < |s| && s[i].Live? && node.services.data[..] == Tombed(s, i)
      requires Draining(node, was, before, gone)
      modifies sock, `t, node.services`count, node.services.data
      ensures Valid() && Known(node) && node.services.data[..] == Tombed(s, i + 1)
      ensures Draining(node, was, before, gone + [s[i].item])
    {
      DrainsHere(node, i, s);
      OthersSameStep(was.rows, t.rows, node.id, Tombed(s, i + 1));
      DeparturesLast(local, Now().lookups, gone, s[i].item);
      Regroup(before, Departures(local, Now().lookups, gone), Departure(local, Now().lookups, s[i].item));
      var _ := ServerDel(node, node.services.data[i].item.port);
      NodeSeen(node);
    }

    /** Announces the local servers to one address. */
    method AnnounceServers(to: Addr) returns (ghost order: seq<Server>)
      requires Valid()
      modifies sock, `t, `Repr, nodes, nodes.data
      ensures Valid() && fresh(Repr - old(Repr)) && t.db == old(t).db
      ensures RowsBut(old(t).rows, t.rows, local, RowOf(old(t).rows, local))
      ensures Lists(order, t.db, OnNode(local)) && sock.sent == old(sock.sent) + Announce(to, order)
    {
      var node := NodeGet(local);
      order := Announcing(node, to);
    }

    method Announcing(node: Node, to: Addr) returns (ghost order: seq<Server>)
      requires Valid() && Known(node)
      modifies sock
      ensures Lists(order, t.db, OnNode(node.id)) && sock.sent == old(sock.sent) + Announce(to, order)
    {
      ghost var s := node.services.data[..];
      order := NodeOrder(node);
      var iter: Option<nat> := node.services.IterFirst();
      while iter.Some?
        invariant node.services.Pos(iter) <= |s| && (iter.Some? ==> iter.value < |s| && s[iter.value].Live?)
        invariant sock.sent == old(sock.sent) + Announce(to, Items(s, node.services.Pos(iter)))
        decreases |s| - node.services.Pos(iter)
      {
        sock.Send(to, NewServer(node.services.data[iter.value].item));
        iter := node.services.IterNext(iter.value);
      }
    }

    /** Passes a message on to each local server. */
    method Propagate(ctrl: Ctrl) returns (ghost order: seq<Server>)
      requires Valid()
      modifies sock, `t, `Repr, nodes, nodes.data
      ensures Valid() && fresh(Repr - old(Repr)) && t.db == old(t).db
      ensures RowsBut(old(t).rows, t.rows, local, RowOf(old(t).rows, local))
      ensures Lists(order, t.db, OnNode(local)) && sock.sent == old(sock.sent) + Tell(order, ctrl)
    {
      var node := NodeGet(local);
      order := Telling(node, ctrl);
    }

    method Telling(node: Node, ctrl: Ctrl) returns (ghost order: seq<Server>)
      requires Valid() && Known(node)
      modifies sock
      ensures Lists(order, t.db, OnNode(node.id)) && sock.sent == old(sock.sent) + Tell(order, ctrl)
    {
      ghost var s := node.services.data[..];
      order := NodeOrder(node);
      var iter: Option<nat> := node.services.IterFirst();
      while iter.Some?
        invariant node.services.Pos(iter) <= |s| && (iter.Some? ==> iter.value < |s| && s[iter.value].Live?)
        invariant sock.sent == old(sock.sent) + Tell(Items(s, node.services.Pos(iter)), ctrl)
        decreases |s| - node.services.Pos(iter)
      {
        var srv := node.services.data[iter.value].item;
        sock.Send(Addr(srv.node, srv.port), ctrl);
        iter := node.services.IterNext(iter.value);
      }
    }

    /** The order in which the services of a node are visited. */
    lemma {:induction false} NodeOrder(node: Node) returns (order: seq<Server>)
      requires Valid() && Known(node)
      ensures order == Items(node.services.data[..], node.services.data.Length)
      ensures Lists(order, t.db, OnNode(node.id))
    {
      NodeSeen(node);
      NodeServes(node);
      NodeOrdered(node);
      TablesKeyed();
      Seen(node.services.data[..]);
      ItemsList(node.services.data[..], node.id, t.db);
      order := Items(node.services.data[..], node.services.data.Length);
    }

    /** All servers that match, node by node. */
    method ServerQuery(f: Filter) returns (found: seq<Server>)
      requires Valid()
      ensures Lists(found, t.db, MatchedBy(f))
    {
      found := [];
      ghost var s := nodes.data[..];
      NodesSeen();
      var iter: Option<nat> := nodes.IterFirst();
      while iter.Some?
        invariant nodes.Pos(iter) <= |s| && (iter.Some? ==> iter.value < |s| && s[iter.value].Live?)
        invariant Lists(found, t.db, MatchedOn(f, Ids(Items(s, nodes.Pos(iter)))))
        decreases |s| - nodes.Pos(iter)
      {
        found := QueryOne(iter.value, f, found);
        iter := nodes.IterNext(iter.value);
      }
      NodesAll(s, t.byId);
      MatchedEverywhere(found, Ids(Items(s, |s|)), f, t.db);
    }

    lemma {:induction false} NodesSeen()
      requires Valid()
      ensures Reachable(nodes.data[..]) && OnceEach(nodes.data[..]) && Indexed(View(nodes.data[..]), t.byId)
      ensures t.rows.Keys == t.byId.Keys && forall a {:trigger a in t.db} :: a in t.db ==> a.node in t.byId
    {
      assert Look(local);
      Agreeing(nodes.Contents(), t);
    }

    /** One turn of that loop. */
    method QueryOne(i: nat, f: Filter, found: seq<Server>) returns (more: seq<Server>)
      requires Valid() && i < nodes.data.Length && nodes.data[i].Live?
      requires Lists(found, t.db, MatchedOn(f, Ids(Items(nodes.data[..], i))))
      ensures Lists(more, t.db, MatchedOn(f, Ids(Items(nodes.data[..], i + 1))))
    {
      NodesSeen();
      NodeNext(nodes.data[..], i, t.byId);
      var node := nodes.data[i].item;
      var picked := NodeQuery(node, f);
      ghost var order := NodeOrder(node);
      PickLists(found, Ids(Items(nodes.data[..], i)), f, order, node.id, t.db);
      more := found + picked;
    }

    /** The inner loop of the query. */
    method NodeQuery(node: Node, f: Filter) returns (picked: seq<Server>)
      requires Valid() && Known(node)
      ensures picked == Pick(Items(node.services.data[..], node.services.data.Length), f)
    {
      picked := [];
      ghost var s := node.services.data[..];
      var iter: Option<nat> := node.services.IterFirst();
      while iter.Some?
        invariant node.services.Pos(iter) <= |s| && (iter.Some? ==> iter.value < |s| && s[iter.value].Live?)
        invariant picked == Pick(Items(s, node.services.Pos(iter)), f)
        decreases |s| - node.services.Pos(iter)
      {
        var srv := node.services.data[iter.value].item;
        PickLast(Items(s, iter.value), srv, f);
        if ServerMatch(srv, f) {
          picked := picked + [srv];
        }
        iter := node.services.IterNext(iter.value);
      }
    }

    // ---------- The list of observers ----------

    method AddLookup(l: Lookup)
      requires Valid() && l.who.node == local
      modifies `Repr, lookups, lookups.items
      ensures Valid() && fresh(Repr - old(Repr)) && t == old(t) && Now().lookups == old(Now()).lookups + [l]
    {
      EachNode();
      var item := new Item(l);
      lookups.Append(item);
      Repr := Repr + {item};
      assert Values(lookups.items) == old(Values(lookups.items)) + [l];
      LookupsChanged();
    }

    /** The safe loop over the observers that removes those chosen. */
    method DropLookups(drop: Lookup -> bool)
      requires Valid()
      modifies lookups, lookups.items
      ensures Valid() && t == old(t) && Repr == old(Repr) && Now().lookups == Purge(old(Now()).lookups, drop)
    {
      EachNode();
      ghost var was := lookups.items;
      var _ := lookups.RemoveIf(drop);
      ValuesKept(was, drop);
      forall x | x in lookups.items ensures x in was {
        KeptMembers(was, drop, x);
      }
      LookupsChanged();
    }

    /** What is left to see to when the observers were changed. */
    twostate lemma {:induction false} LookupsChanged()
      requires old(Kept()) && t == old(t) && old(Repr) <= Repr && sock !in Repr
      requires forall o: object {:trigger o in old(Repr)} ::
               o in old(Repr) && o != this && o != lookups && o !in old(lookups.items) ==> unchanged(o)
      requires lookups.Valid() && AllLocal(local, Values(lookups.items)) && forall x :: x in lookups.items ==> x in Repr
      ensures Kept()
    {
      TablesSame();
      StillKept({});
    }

    twostate lemma {:induction false} TablesSame()
      requires old(Kept()) && t == old(t) && old(Repr) <= Repr && sock !in Repr
      requires forall o: object {:trigger o in old(Repr)} ::
               o in old(Repr) && o != this && o != lookups && o !in old(lookups.items) ==> unchanged(o)
      requires lookups.Valid() && AllLocal(local, Values(lookups.items)) && forall x :: x in lookups.items ==> x in Repr
      ensures Owns() && OnlyTable({}) && Rest() && nodes.Contents() == old(nodes.Contents())
      ensures Agree(nodes.Contents(), t)
    {
      assert Look(local);
      assert unchanged(nodes) && unchanged(nodes.data);
      forall i | i in t.byId
        ensures i in t.rows && t.byId[i].id == i && unchanged(t.byId[i].services)
        ensures unchanged(t.byId[i].services.data) {
        assert old(Holds(i));
      }
    }

    // ---------- The handlers ----------

    method CtrlHello(from: Addr) returns (ghost order: seq<Server>)
      requires Valid()
      modifies Repr, sock
      ensures Valid() && fresh(Repr - old(Repr))
      ensures var p := Packet(from, Hello);
              && RowsNext(local, old(t).rows, t.rows, p)
              && Did(local, old(Now()), p, order, [], old(sock.sent), Now(), sock.sent)
    {
      sock.Send(from, Hello);
      order := AnnounceServers(from);
    }

    method CtrlBye(from: Addr, node: u32) returns (ghost order: seq<Server>, ghost rest: seq<Server>)
      requires Valid()
      modifies Repr, sock
      ensures Valid() && fresh(Repr - old(Repr))
      ensures var p := Packet(from, Bye(node));
              && Did(local, old(Now()), p, order, rest, old(sock.sent), Now(), sock.sent)
              && RowsNext(local, old(t).rows, t.rows, p)
    {
      order := NodeLeaving(from.node);
      rest := Propagate(Bye(from.node));
    }

    /** The first part of BYE. */
    method NodeLeaving(id: u32) returns (ghost order: seq<Server>)
      requires Valid()
      modifies Repr, sock
      ensures Valid() && fresh(Repr - old(Repr)) && Now() == State(NotOf(old(t).db, id), old(Now()).lookups)
      ensures Lists(order, old(t).db, OnNode(id))
      ensures sock.sent == old(sock.sent) + Departures(local, Now().lookups, order)
      ensures var row := RowOf(old(t).rows, id); RowsBut(old(t).rows, t.rows, id, Tombed(row, |row|))
    {
      var n := NodeGet(id);
      assert t.rows[id] == RowOf(t.rows, id);
      order := Drain(n);
    }

    method CtrlDelClient(from: Addr, client: Addr) returns (rc: int, ghost rest: seq<Server>)
      requires Valid()
      modifies Repr, sock
      ensures Valid() && fresh(Repr - old(Repr))
      ensures var p := Packet(from, DelClient(client));
              && Did(local, old(Now()), p, [], rest, old(sock.sent), Now(), sock.sent)
              && RowsNext(local, old(t).rows, t.rows, p)
              && (rc < 0 <==> !Accepted(local, old(Now()), p))
      ensures rc >= 0 <==> from.node == client.node && (from.node == local ==> from.port == client.port)
    {
      rest := [];
      if from.node != client.node {
        return -EINVAL, rest;
      }
      if from.node == local && from.port != client.port {
        return -EINVAL, rest;
      }
      DropLookups(At(client));
      rest := Leave(client);
      rc := 0;
    }

    /** The rest of DEL_CLIENT, once the observers at the address are gone. */
    method Leave(client: Addr) returns (ghost rest: seq<Server>)
      requires Valid()
      modifies Repr, sock
      ensures Valid() && fresh(Repr - old(Repr))
      ensures Now() == State(old(t).db - {client}, old(Now()).lookups)
      ensures RowsBut(old(t).rows, t.rows, client.node,
                      Tombstoned(RowOf(old(t).rows, client.node), HashU32(client.port)))
      ensures Lists(rest, t.db, OnNode(local))
      ensures sock.sent == old(sock.sent) +
              ((if client in old(t).db then Departure(local, Now().lookups, old(t).db[client]) else []) +
               Tell(rest, DelClient(client)))
    {
      ghost var gone := if client in t.db then Departure(local, Now().lookups, t.db[client]) else [];
      var _ := DelAt(client);
      rest := Propagate(DelClient(client));
      Regroup(old(sock.sent), gone, Tell(rest, DelClient(client)));
    }

    /** No port is twice in a table afterwards exactly when the packet met no tombstone. */
    method CtrlNewServer(from: Addr, srv: Server) returns (rc: int)
      requires Valid()
      modifies Repr, sock
      ensures Kept() && fresh(Repr - old(Repr))
      ensures var p := Packet(from, NewServer(srv));
              && (Valid() <==> Unhindered(local, RowOf(old(t).rows, from.node), p))
              && Did(local, old(Now()), p, [], [], old(sock.sent), Now(), sock.sent)
              && RowsNext(local, old(t).rows, t.rows, p)
              && (rc < 0 <==> !Accepted(local, old(Now()), p))
      ensures rc >= 0 <==>
                if from.node == local then srv.service != 0 && from.port != 0
                else srv.service != 0 && srv.port != 0 && from.node == srv.node
    {
      var at := srv.At();
      if from.node == local {
        at := from;
      }
      if from.node != at.node {
        return -EINVAL;
      }
      var added := Admit(srv.service, srv.instance, at.node, at.port);
      rc := if added.None? then -EINVAL else 0;
    }

    /** Registers a server and tells those concerned. */
    method Admit(service: u32, instance: bv32, id: u32, port: u32) returns (srv: Option<Server>)
      requires Valid()
      modifies Repr, sock
      ensures Kept() && fresh(Repr - old(Repr))
      ensures Valid() <==> service == 0 || port == 0 || Free(RowOf(old(t).rows, id), HashU32(port))
      ensures srv == if service == 0 || port == 0 then None else Some(Server(service, instance, id, port))
      ensures Now() == if srv.Some? then old(Now()).(db := old(t).db[srv.value.At() := srv.value]) else old(Now())
      ensures var row := RowOf(old(t).rows, id);
              RowsBut(old(t).rows, t.rows, id, if srv.Some? then Entered(row, HashU32(port), srv.value) else row)
      ensures sock.sent == old(sock.sent) + if srv.Some? then Arrival(local, Now().lookups, srv.value) else []
    {
      srv := ServerAdd(service, instance, id, port);
      if srv.Some? {
        TellArrival(srv.value);
      }
    }

    /**
     Takes the server out whether or not its port is in the table twice. If it is, the server that registered the port
     before takes its place, and otherwise all is as the state machine says.
     */
    method CtrlDelServer(from: Addr, srv: Server) returns (rc: int)
      requires Kept()
      modifies Repr, sock
      ensures Kept() && fresh(Repr - old(Repr))
      ensures var p := Packet(from, DelServer(srv));
              && RowsNext(local, old(t).rows, t.rows, p)
              && Undone(local, old(Now()), old(t).rows, p, old(sock.sent), Now(), sock.sent)
              && (old(Valid()) ==> Valid() && Did(local, old(Now()), p, [], [], old(sock.sent), Now(), sock.sent))
              && (rc < 0 <==> !Accepted(local, old(Now()), p))
      ensures rc >= 0 <==>
                if from.node == local then from in old(t).db
                else from.node == srv.node && Addr(srv.node, srv.port) in old(t).db
    {
      var at := srv.At();
      if from.node == local {
        at := from;
      }
      if from.node != at.node {
        return -EINVAL;
      }
      if from.node == local && from.port != at.port {
        return -EINVAL;
      }
      rc := DelAt(at);
    }

    method CtrlNewLookup(from: Addr, service: u32, instance: bv32) returns (rc: int, ghost order: seq<Server>)
      requires Valid()
      modifies Repr, sock
      ensures Valid() && fresh(Repr - old(Repr))
      ensures var p := Packet(from, NewLookup(service, instance));
              && Did(local, old(Now()), p, order, [], old(sock.sent), Now(), sock.sent)
              && RowsNext(local, old(t).rows, t.rows, p)
              && (rc < 0 <==> !Accepted(local, old(Now()), p))
      ensures rc >= 0 <==> from.node == local
    {
      if from.node != local {
        return -EINVAL, [];
      }
      var lookup := Lookup(service, instance, from);
      AddLookup(lookup);
      var found := ServerQuery(Filter(service, instance, 0));
      MatchedIsWanted(found, lookup, t.db);
      order := found;
      Answer(from, found);
      rc := 0;
    }

    /** The loop that sends the answer to a lookup, and its end mark. */
    method Answer(to: Addr, found: seq<Server>)
      modifies sock
      ensures sock.sent == old(sock.sent) + (Announce(to, found) + [Msg(to, EndMark)])
    {
      for i := 0 to |found|
        invariant sock.sent == old(sock.sent) + Announce(to, found[..i])
      {
        sock.Send(to, NewServer(found[i]));
      }
      sock.Send(to, EndMark);
      assert found[..|found|] == found;
    }

    method CtrlDelLookup(from: Addr, service: u32, instance: bv32)
      requires Valid()
      modifies Repr, sock
      ensures Valid() && fresh(Repr - old(Repr))
      ensures var p := Packet(from, DelLookup(service, instance));
              && RowsNext(local, old(t).rows, t.rows, p)
              && Did(local, old(Now()), p, [], [], old(sock.sent), Now(), sock.sent)
    {
      DropLookups(Asked(from, service, instance));
    }

    /** One packet from the control port. */
    method Receive(p: Packet) returns (rc: int, ghost order: seq<Server>, ghost rest: seq<Server>)
      requires Kept() && (Valid() || p.ctrl.DelServer?)
      modifies Repr, sock
      ensures Kept() && fresh(Repr - old(Repr)) && RowsNext(local, old(t).rows, t.rows, p)
      ensures old(Valid()) ==> (Valid() <==> Unhindered(local, RowOf(old(t).rows, p.from.node), p))
      ensures old(Valid()) ==> Did(local, old(Now()), p, order, rest, old(sock.sent), Now(), sock.sent)
      ensures p.ctrl.DelServer? ==> Undone(local, old(Now()), old(t).rows, p, old(sock.sent), Now(), sock.sent)
      ensures rc < 0 <==> !Accepted(local, old(Now()), p)
    {
      rc, order, rest := 0, [], [];
      match p.ctrl {
        case Hello => order := CtrlHello(p.from);
        case Bye(node) => order, rest := CtrlBye(p.from, node);
        case DelClient(client) => rc, rest := CtrlDelClient(p.from, client);
        case NewServer(srv) => rc := CtrlNewServer(p.from, srv);
        case DelServer(srv) => rc := CtrlDelServer(p.from, srv);
        case NewLookup(service, instance) => rc, order := CtrlNewLookup(p.from, service, instance);
        case DelLookup(service, instance) => CtrlDelLookup(p.from, service, instance);
        case Other =>
      }
    }

    /** The tables hold the state after these packets. */
    ghost predicate Reached(ps: seq<Packet>)
      reads this, lookups, lookups.items
    {
      Now() == Run(local, Start, ps) && forall i: u32 {:trigger RowOf(t.rows, i)} ::
        RowOf(t.rows, i) == RowRun(local, ps, i)
    }

    /** One more packet. */
    method ServeOne(ps: seq<Packet>, i: nat, ghost its: seq<Iteration>) returns (ghost it: Iteration)
      requires i < |ps| && Valid() && Reached(ps[..i]) && Smooth(local, ps[..i])
      requires |its| == i && Possible(local, ps[..i], its) && sock.sent == Sent(local, ps[..i], its)
      modifies Repr, sock
      ensures Kept() && fresh(Repr - old(Repr)) && Reached(ps[..i + 1]) && (Valid() <==> Smooth(local, ps[..i + 1]))
      ensures Possible(local, ps[..i + 1], its + [it]) && sock.sent == Sent(local, ps[..i + 1], its + [it])
    {
      assert ps[..i + 1][..i] == ps[..i];
      var rc;
      ghost var order, rest;
      rc, order, rest := Receive(ps[i]);
      it := Iteration(order, rest);
      SentMore(local, ps, i, its, it);
    }

    /**
     The main loop: control packets one after the other, from the start, up to the first that meets a tombstone. The
     tables are in order afterwards exactly when the last does not.
     */
    method Serve(ps: seq<Packet>) returns (ghost its: seq<Iteration>)
      requires Valid() && Now() == Start && t.rows == map[] && sock.sent == []
      requires ps != [] ==> Smooth(local, ps[..|ps| - 1])
      modifies Repr, sock
      ensures Kept() && fresh(Repr - old(Repr)) && Reached(ps) && (Valid() <==> Smooth(local, ps))
      ensures |its| == |ps| && Possible(local, ps, its) && sock.sent == Sent(local, ps, its)
      ensures forall a {:trigger SeeAll(map[], a, sock.sent)} :: a != Broadcast ==>
                Covers(SeeAll(map[], a, sock.sent), Run(local, Start, ps), a)
    {
      its := [];
      ReachedStart();
      for i := 0 to |ps|
        invariant Kept() && fresh(Repr - old(Repr)) && |its| == i && (Valid() <==> Smooth(local, ps[..i]))
        invariant Reached(ps[..i]) && sock.sent == Sent(local, ps[..i], its) && Possible(local, ps[..i], its)
      {
        SmoothBefore(local, ps, i);
        ghost var it := ServeOne(ps, i, its);
        its := its + [it];
      }
      assert ps[..|ps|] == ps;
      AllCovered(local, ps, its);
    }

    lemma {:induction false} ReachedStart()
      requires Now() == Start && t.rows == map[]
      ensures Reached([])
    {
    }

  }
  lemma {:induction false} AllCovered(local: u32, ps: seq<Packet>, its: seq<Iteration>)
    requires |its| == |ps| && Possible(local, ps, its)
    ensures forall a {:trigger SeeAll(map[], a, Sent(local, ps, its))} :: a != Broadcast ==>
              Covers(SeeAll(map[], a, Sent(local, ps, its)), Run(local, Start, ps), a)
  {
    forall a: Addr | a != Broadcast ensures Covers(SeeAll(map[], a, Sent(local, ps, its)), Run(local, Start, ps), a) {
      AlwaysCovered(local, ps, its, a);
    }
  }

  lemma {:induction false} SmoothBefore(local: u32, ps: seq<Packet>, i: nat)
    requires i < |ps| && Smooth(local, ps[..|ps| - 1])
    ensures Smooth(local, ps[..i])
  {
    SmoothPrefix(local, ps[..|ps| - 1], i);
    assert ps[..|ps| - 1][..i] == ps[..i];
  }

  lemma {:induction false} SentMore(local: u32, ps: seq<Packet>, i: nat, its: seq<Iteration>, it: Iteration)
    requires i < |ps| && |its| == i && Possible(local, ps[..i], its)
    requires Orders(local, Run(local, Start, ps[..i]), ps[i], it.order, it.rest)
    ensures Possible(local, ps[..i + 1], its + [it])
    ensures Sent(local, ps[..i + 1], its + [it]) ==
            Sent(local, ps[..i], its) + Outputs(local, Run(local, Start, ps[..i]), ps[i], it.order, it.rest)
  {
    assert ps[..i + 1][..i] == ps[..i] && (its + [it])[..i] == its;
  }

  // ---------- The limit of tombstones ----------

  function FromRemote(node: u32, ctrl: Ctrl): Packet { Packet(Addr(node, CtrlPort), ctrl) }

  /** Ports 1 and 257 have the same home slot. Port 1 makes room in front of port 257, which registers again. */
  function Crowded(node: u32): seq<Packet> {
    [FromRemote(node, NewServer(Server(1, 0, node, 1))), FromRemote(node, NewServer(Server(1, 0, node, 257))),
     FromRemote(node, DelServer(Server(1, 0, node, 1))), FromRemote(node, NewServer(Server(1, 1, node, 257)))]
  }

  lemma {:induction false} SameHome()
    ensures Home(256, HashU32(1)) == Home(256, HashU32(257)) && HashU32(1) != HashU32(257)
  {
  }

  /** The table of the node after the first three packets, and after all four. */
  lemma {:induction false} CrowdedRows(local: u32, node: u32)
    requires node != local
    ensures var ps, x, y := Crowded(node), Server(1, 0, node, 1), Server(1, 0, node, 257);
            && RowRun(local, ps[..3], node) == AfterRemoval(HashU32(1), HashU32(257), x, y)
            && RowRun(local, ps, node) ==
               Entered(AfterRemoval(HashU32(1), HashU32(257), x, y), HashU32(257), Server(1, 1, node, 257))
            && Smooth(local, ps[..3])
  {
    var ps, x := Crowded(node), Server(1, 0, node, 1);
    assert ps[..3] == [ps[0], ps[1], ps[2]] && ps[..3][..2] == [ps[0], ps[1]] && [ps[0], ps[1]][..1] == [ps[0]] &&
           [ps[0]][..0] == [];
    assert RowRun(local, [ps[0]], node) == Entered([], HashU32(1), x);
    assert RowRun(local, [ps[0], ps[1]], node) == RowNext(local, RowRun(local, [ps[0]], node), node, ps[1]);
    assert RowRun(local, ps[..3], node) == RowNext(local, RowRun(local, [ps[0], ps[1]], node), node, ps[2]);
    FirstTwoSmooth(node);
    assert Smooth(local, []) && Smooth(local, [ps[0]]) && Smooth(local, [ps[0], ps[1]]);
  }

  lemma {:induction false} FirstTwoSmooth(node: u32)
    ensures Free<Server>([], HashU32(1)) && Free(Entered([], HashU32(1), Server(1, 0, node, 1)), HashU32(257))
  {
    var none: Row := [];
    EmptyTable(none);
    Seen(none);
    EnteredDone(none, HashU32(1), Server(1, 0, node, 1));
    SameHome();
    assert Free(none, HashU32(257));
  }

  /** The state machine's view of the run, and of a DEL_SERVER as fifth packet: the port is not registered any more. */
  lemma {:induction false} CrowdedState(local: u32, node: u32)
    requires node != local
    ensures var ps := Crowded(node);
            && Addr(node, 257) in Run(local, Start, ps).db
            && Addr(node, 257) !in Run(local, Start, ps + [FromRemote(node, DelServer(Server(1, 1, node, 257)))]).db
  {
    var ps, p := Crowded(node), FromRemote(node, DelServer(Server(1, 1, node, 257)));
    assert (ps + [p])[..|ps + [p]| - 1] == ps;
  }

  /** The four packets, handled by a name server that starts empty, leave port 257 in its table twice. */
  method ListedTwice(local: u32, node: u32) returns (ns: NameServer)
    requires node != local
    ensures fresh(ns) && fresh(ns.Repr) && fresh(ns.sock) && ns.local == local && ns.Kept() && !ns.Valid()
    ensures ns.Reached(Crowded(node))
    ensures !OnceEach(RowOf(ns.t.rows, node))
  {
    SameHome();
    CrowdedRows(local, node);
    PutTwice(HashU32(1), HashU32(257), Server(1, 0, node, 1), Server(1, 0, node, 257), Server(1, 1, node, 257));
    Seen(AfterRemoval(HashU32(1), HashU32(257), Server(1, 0, node, 1), Server(1, 0, node, 257)));
    ns := new NameServer(local);
    ghost var _ := ns.Serve(Crowded(node));
    assert RowOf(ns.t.rows, node) == RowRun(local, Crowded(node), node);
    Seen(RowOf(ns.t.rows, node));
  }

  /**
   A DEL_SERVER as fifth packet takes out one of the two: the port is still listed, with the data it registered first,
   although by the state machine it is not registered any more.
   */
  method ListedStill(local: u32, node: u32) returns (ns: NameServer)
    requires node != local
    ensures ns.Kept() && ns.t.db == Run(local, Start, Crowded(node)).db[Addr(node, 257) := Server(1, 0, node, 257)]
    ensures Addr(node, 257) !in Run(local, Start,
                                    Crowded(node) + [FromRemote(node, DelServer(Server(1, 1, node, 257)))]).db
  {
    SameHome();
    CrowdedRows(local, node);
    CrowdedState(local, node);
    PutTwice(HashU32(1), HashU32(257), Server(1, 0, node, 1), Server(1, 0, node, 257), Server(1, 1, node, 257));
    ns := ListedTwice(local, node);
    assert RowOf(ns.t.rows, node) == RowRun(local, Crowded(node), node);
    var rc;
    ghost var order, rest;
    rc, order, rest := ns.Receive(FromRemote(node, DelServer(Server(1, 1, node, 257))));
  }
}
