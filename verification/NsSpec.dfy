/**
 The name server of src/ns.c as a state machine: what each control packet does to the registered servers and the
 observers, what is sent, and what holds over every run.
 */
module NsSpec {
  import opened Bytes
  import opened Control

  /** The registered servers by address, and the observers in order of arrival. */
  datatype State = State(db: map<Addr, Server>, lookups: seq<Lookup>)

  const Start := State(map[], [])

  /** The address a server packet is about: the sender's own for local senders, and none if a remote one is spoofed. */
  function Claimed(local: u32, from: Addr, srv: Server): Option<Addr> {
    if from.node == local then Some(from) else if from.node == srv.node then Some(srv.At()) else None
  }

  /** The server that a NEW_SERVER packet registers, if it is accepted. */
  function Registers(local: u32, from: Addr, srv: Server): Option<Server> {
    match Claimed(local, from, srv)
    case None => None
    case Some(a) =>
      if srv.service == 0 || a.port == 0 then None else Some(Server(srv.service, srv.instance, a.node, a.port))
  }

  /** Whether a DEL_CLIENT packet is accepted. */
  predicate Closes(local: u32, from: Addr, client: Addr) {
    from.node == client.node && (from.node == local ==> from.port == client.port)
  }

  /** The observers that a DEL_CLIENT packet removes. */
  function At(client: Addr): Lookup -> bool {
    (l: Lookup) => l.who == client
  }

  /** The observers that a DEL_LOOKUP packet removes. */
  function Asked(from: Addr, service: u32, instance: bv32): Lookup -> bool {
    (l: Lookup) => l.who == from && l.service == service && !(l.instance != 0 && l.instance != instance)
  }

  function Purge(lookups: seq<Lookup>, drop: Lookup -> bool): (kept: seq<Lookup>)
    ensures forall l {:trigger l in kept} :: l in kept <==> l in lookups && !drop(l)
  {
    if lookups == [] then [] else (if drop(lookups[0]) then [] else [lookups[0]]) + Purge(lookups[1..], drop)
  }

  /** The servers of one node. */
  function Of(db: map<Addr, Server>, node: u32): map<Addr, Server> {
    map a | a in db && a.node == node :: db[a]
  }

  function NotOf(db: map<Addr, Server>, node: u32): map<Addr, Server> {
    map a | a in db && a.node != node :: db[a]
  }

  /** The registered servers after a packet; the observers have no part in it. */
  function DbNext(local: u32, db: map<Addr, Server>, p: Packet): map<Addr, Server> {
    match p.ctrl
    case Bye(_) => NotOf(db, p.from.node)
    case DelClient(client) => if Closes(local, p.from, client) then db - {client} else db
    case NewServer(srv) =>
      (match Registers(local, p.from, srv)
       case None => db
       case Some(x) => db[x.At() := x])
    case DelServer(srv) =>
      (match Claimed(local, p.from, srv)
       case None => db
       case Some(a) => db - {a})
    case _ => db
  }

  function LookupsNext(local: u32, lookups: seq<Lookup>, p: Packet): seq<Lookup> {
    match p.ctrl
    case DelClient(client) => if Closes(local, p.from, client) then Purge(lookups, At(client)) else lookups
    case NewLookup(service, instance) =>
      if p.from.node == local then lookups + [Lookup(service, instance, p.from)] else lookups
    case DelLookup(service, instance) => Purge(lookups, Asked(p.from, service, instance))
    case _ => lookups
  }

  function Next(local: u32, s: State, p: Packet): State {
    State(DbNext(local, s.db, p), LookupsNext(local, s.lookups, p))
  }

  /** What is sent, given the orders in which tables are iterated. */
  function Outputs(local: u32, s: State, p: Packet, order: seq<Server>, rest: seq<Server>): seq<Msg> {
    match p.ctrl
    case Hello => [Msg(p.from, Hello)] + Announce(p.from, order)
    case Bye(_) => Departures(local, s.lookups, order) + Tell(rest, Bye(p.from.node))
    case DelClient(client) =>
      if Closes(local, p.from, client)
      then (if client in s.db then Departure(local, LookupsNext(local, s.lookups, p), s.db[client]) else []) +
        Tell(rest, p.ctrl)
      else []
    case NewServer(srv) =>
      (match Registers(local, p.from, srv)
       case None => []
       case Some(x) => Arrival(local, s.lookups, x))
    case DelServer(srv) =>
      (match Claimed(local, p.from, srv)
       case None => []
       case Some(a) => if a in s.db then Departure(local, s.lookups, s.db[a]) else [])
    case NewLookup(service, instance) =>
      if p.from.node == local then Announce(p.from, order) + [Msg(p.from, EndMark)] else []
    case _ => []
  }

  /** Whether the packet is obeyed; the others are only logged. */
  predicate Accepted(local: u32, s: State, p: Packet) {
    match p.ctrl
    case DelClient(client) => Closes(local, p.from, client)
    case NewServer(srv) => Registers(local, p.from, srv).Some?
    case DelServer(srv) => Claimed(local, p.from, srv).Some? && Claimed(local, p.from, srv).value in s.db
    case NewLookup(_, _) => p.from.node == local
    case _ => true
  }

  /** The orders list what the handlers iterate over: `order` before servers are removed, `rest` afterwards. */
  ghost predicate Orders(local: u32, s: State, p: Packet, order: seq<Server>, rest: seq<Server>) {
    match p.ctrl
    case Hello => Lists(order, s.db, OnNode(local))
    case Bye(_) => Lists(order, s.db, OnNode(p.from.node)) && LocalAfter(local, s, p, rest)
    case DelClient(client) => Closes(local, p.from, client) ==> LocalAfter(local, s, p, rest)
    case NewLookup(service, instance) =>
      p.from.node == local ==> Lists(order, s.db, WantedBy(Lookup(service, instance, p.from)))
    case _ => true
  }

  ghost predicate LocalAfter(local: u32, s: State, p: Packet, rest: seq<Server>) {
    Lists(rest, DbNext(local, s.db, p), OnNode(local))
  }

  // ---------- Invariants ----------

  /** Every server is stored under its own address and neither its service nor its port is zero. */
  ghost predicate Keyed(db: map<Addr, Server>) {
    forall a {:trigger db[a]} :: a in db ==> db[a].At() == a && db[a].service != 0 && a.port != 0
  }

  ghost predicate AllLocal(local: u32, lookups: seq<Lookup>) {
    forall l {:trigger l in lookups} :: l in lookups ==> l.who.node == local
  }

  ghost predicate Inv(local: u32, s: State) {
    Keyed(s.db) && AllLocal(local, s.lookups)
  }

  lemma {:induction false} NextKeeps(local: u32, s: State, p: Packet)
    requires Inv(local, s)
    ensures Inv(local, Next(local, s, p))
  {
  }

  /** The state after a run. */
  function Run(local: u32, s: State, ps: seq<Packet>): State {
    if ps == [] then s else Next(local, Run(local, s, ps[..|ps| - 1]), ps[|ps| - 1])
  }

  lemma {:induction false} RunKeeps(local: u32, s: State, ps: seq<Packet>)
    requires Inv(local, s)
    ensures Inv(local, Run(local, s, ps))
  {
    if ps != [] {
      RunKeeps(local, s, ps[..|ps| - 1]);
      NextKeeps(local, Run(local, s, ps[..|ps| - 1]), ps[|ps| - 1]);
    }
  }

  /** A packet that is not obeyed changes nothing, and nothing is sent for it. */
  lemma {:induction false} Rejected(local: u32, s: State, p: Packet, order: seq<Server>, rest: seq<Server>)
    requires !Accepted(local, s, p)
    ensures Next(local, s, p) == s && Outputs(local, s, p, order, rest) == []
  {
    if p.ctrl.DelServer? && Claimed(local, p.from, p.ctrl.srv).Some? {
      assert s.db - {Claimed(local, p.from, p.ctrl.srv).value} == s.db;
    }
  }

  // ---------- Projection on a node ----------

  /** A packet acts on the servers of its own node only, and there as if there were no others. */
  lemma {:induction false} StepOfNode(local: u32, db: map<Addr, Server>, p: Packet, m: u32)
    ensures Of(DbNext(local, db, p), m) == if p.from.node == m then DbNext(local, Of(db, m), p) else Of(db, m)
  {
  }

  function FromNode(ps: seq<Packet>, m: u32): seq<Packet> {
    if ps == [] then [] else FromNode(ps[..|ps| - 1], m) + if ps[|ps| - 1].from.node == m then [ps[|ps| - 1]] else []
  }

  /** The servers of a node after a run are those after its own packets alone. */
  lemma {:induction false} RunOfNode(local: u32, s: State, ps: seq<Packet>, m: u32)
    ensures Of(Run(local, s, ps).db, m) == Of(Run(local, s, FromNode(ps, m)).db, m)
  {
    if ps != [] {
      var n := |ps| - 1;
      RunOfNode(local, s, ps[..n], m);
      StepOfNode(local, Run(local, s, ps[..n]).db, ps[n], m);
      var own := FromNode(ps[..n], m);
      if ps[n].from.node != m {
        assert FromNode(ps, m) == own;
      } else {
        var all := own + [ps[n]];
        assert all[..|all| - 1] == own && all[|all| - 1] == ps[n];
        assert FromNode(ps, m) == all;
        StepOfNode(local, Run(local, s, own).db, ps[n], m);
      }
    }
  }

  // ---------- Provenance ----------

  /** The packet that registered a server which is still there after n packets. */
  ghost predicate Introduces(local: u32, s: State, ps: seq<Packet>, i: nat, x: Server) {
    && i < |ps|
    && ps[i].ctrl.NewServer? && ps[i].ctrl.srv.service == x.service && ps[i].ctrl.srv.instance == x.instance
    && ps[i].from.node == x.node
    && (if x.node == local then ps[i].from == x.At() else ps[i].ctrl.srv.At() == x.At())
    && forall j: nat {:trigger ps[..j]} :: i < j <= |ps| ==>
         x.At() in Run(local, s, ps[..j]).db && Run(local, s, ps[..j]).db[x.At()] == x
  }

  /** Every server was registered by a packet of its own node, a local one by its own port, and has been there since. */
  lemma {:induction false} Provenance(local: u32, ps: seq<Packet>, a: Addr) returns (i: nat)
    requires a in Run(local, Start, ps).db
    ensures Introduces(local, Start, ps, i, Run(local, Start, ps).db[a])
    ensures Run(local, Start, ps).db[a].At() == a
  {
    var n := |ps| - 1;
    var before := Run(local, Start, ps[..n]);
    var x := Run(local, Start, ps).db[a];
    RunKeeps(local, Start, ps);
    if a in before.db && before.db[a] == x {
      i := Provenance(local, ps[..n], a);
      assert ps[..n][i] == ps[i];
      forall j: nat | i < j <= |ps|
        ensures a in Run(local, Start, ps[..j]).db && Run(local, Start, ps[..j]).db[a] == x {
        assert if j <= n then ps[..j] == ps[..n][..j] else ps[..j] == ps;
      }
    } else {
      i := n;
      assert ps[..n + 1] == ps;
    }
  }

  // ---------- Messages to observers ----------

  /** A notice goes to an observer that wants the server. */
  lemma {:induction false} NoticeGoesTo(lookups: seq<Lookup>, n: nat, srv: Server, ctrl: Ctrl, m: Msg)
    requires n <= |lookups|
    ensures m in Notices(lookups, n, srv, ctrl) <==>
              m.ctrl == ctrl && exists i :: 0 <= i < n && lookups[i].who == m.to && Wants(lookups[i], srv)
  {
    if n > 0 {
      NoticeGoesTo(lookups, n - 1, srv, ctrl, m);
    }
  }

  /** How often a message occurs. */
  function Count(msgs: seq<Msg>, m: Msg): nat {
    if msgs == [] then 0 else Count(msgs[..|msgs| - 1], m) + if msgs[|msgs| - 1] == m then 1 else 0
  }

  /** How many of the first n observers are at this address and want the server. */
  function NumWanting(lookups: seq<Lookup>, n: nat, srv: Server, to: Addr): (k: nat)
    requires n <= |lookups|
    ensures k <= n
  {
    if n == 0 then 0
    else NumWanting(lookups, n - 1, srv, to) + if lookups[n - 1].who == to && Wants(lookups[n - 1], srv) then 1 else 0
  }

  lemma {:induction false} CountPlus(m1: seq<Msg>, m2: seq<Msg>, m: Msg)
    ensures Count(m1 + m2, m) == Count(m1, m) + Count(m2, m)
  {
    if m2 == [] {
      assert m1 + m2 == m1;
    } else {
      assert (m1 + m2)[..|m1 + m2| - 1] == m1 + m2[..|m2| - 1];
      CountPlus(m1, m2[..|m2| - 1], m);
    }
  }

  lemma {:induction false} CountOne(one: Msg, m: Msg)
    ensures Count([one], m) == if one == m then 1 else 0
  {
    assert [one][..0] == [];
    assert Count([], m) == 0;
  }

  lemma {:induction false} CountNotices(lookups: seq<Lookup>, n: nat, srv: Server, ctrl: Ctrl, m: Msg)
    requires n <= |lookups|
    ensures Count(Notices(lookups, n, srv, ctrl), m) == if m.ctrl == ctrl then NumWanting(lookups, n, srv, m.to) else 0
  {
    if n > 0 {
      var l := lookups[n - 1];
      CountNotices(lookups, n - 1, srv, ctrl, m);
      CountPlus(Notices(lookups, n - 1, srv, ctrl), if Wants(l, srv) then [Msg(l.who, ctrl)] else [], m);
      CountOne(Msg(l.who, ctrl), m);
    }
  }

  /** The notices of removal that an address gets for a server that goes, the broadcast counted as an address. */
  function NumTold(local: u32, lookups: seq<Lookup>, srv: Server, to: Addr): nat {
    NumWanting(lookups, |lookups|, srv, to) + if srv.node == local && to == Broadcast then 1 else 0
  }

  lemma {:induction false} CountDeparture(local: u32, lookups: seq<Lookup>, y: Server, x: Server, to: Addr)
    ensures Count(Departure(local, lookups, y), Msg(to, DelServer(x))) ==
            if x == y then NumTold(local, lookups, x, to) else 0
  {
    var m := Msg(to, DelServer(x));
    CountPlus(if y.node == local then [Msg(Broadcast, DelServer(y))] else [],
              Notices(lookups, |lookups|, y, DelServer(y)), m);
    CountOne(Msg(Broadcast, DelServer(y)), m);
    CountNotices(lookups, |lookups|, y, DelServer(y), m);
  }

  lemma {:induction false} CountDepartures(local: u32, lookups: seq<Lookup>, servers: seq<Server>, x: Server, to: Addr)
    requires Once(servers)
    ensures Count(Departures(local, lookups, servers), Msg(to, DelServer(x))) ==
            if x in servers then NumTold(local, lookups, x, to) else 0
  {
    if servers != [] {
      var n := |servers| - 1;
      CountDepartures(local, lookups, servers[..n], x, to);
      CountPlus(Departures(local, lookups, servers[..n]), Departure(local, lookups, servers[n]), Msg(to, DelServer(x)));
      CountDeparture(local, lookups, servers[n], x, to);
      assert servers == servers[..n] + [servers[n]];
    }
  }

  lemma {:induction false} CountTell(servers: seq<Server>, ctrl: Ctrl, m: Msg)
    requires ctrl != m.ctrl
    ensures Count(Tell(servers, ctrl), m) == 0
  {
    if servers != [] {
      var n := |servers| - 1;
      CountTell(servers[..n], ctrl, m);
      assert Tell(servers, ctrl)[..n] == Tell(servers[..n], ctrl);
    }
  }

  /**
   BYE removes the servers of its node and no others. Every address gets one notice for each of its observers that
   wants a removed server, and the broadcast address one for each removed local server.
   */
  lemma {:induction false} NodeLeaves(local: u32, s: State, p: Packet, order: seq<Server>, rest: seq<Server>, x: Server,
                                      to: Addr)
    requires p.ctrl.Bye? && Orders(local, s, p, order, rest)
    ensures var t := Next(local, s, p);
            && t.lookups == s.lookups
            && Of(t.db, p.from.node) == map[]
            && (forall m :: m != p.from.node ==> Of(t.db, m) == Of(s.db, m))
            && Count(Outputs(local, s, p, order, rest), Msg(to, DelServer(x))) ==
               if x.node == p.from.node && x.At() in s.db && s.db[x.At()] == x
               then NumTold(local, s.lookups, x, to) else 0
  {
    var m := Msg(to, DelServer(x));
    CountPlus(Departures(local, s.lookups, order), Tell(rest, Bye(p.from.node)), m);
    CountDepartures(local, s.lookups, order, x, to);
    CountTell(rest, Bye(p.from.node), m);
  }

  // ---------- Clients leaving ----------

  /** t is s with some elements left out. */
  ghost predicate Subsequence<T>(t: seq<T>, s: seq<T>)
    decreases |s|
  {
    t == [] || (s != [] && ((t[0] == s[0] && Subsequence(t[1..], s[1..])) || Subsequence(t, s[1..])))
  }

  lemma {:induction false} PurgeKeepsOrder(lookups: seq<Lookup>, drop: Lookup -> bool)
    ensures Subsequence(Purge(lookups, drop), lookups)
  {
    if lookups != [] {
      var rest := Purge(lookups[1..], drop);
      PurgeKeepsOrder(lookups[1..], drop);
      if drop(lookups[0]) {
        assert Purge(lookups, drop) == rest;
      } else {
        assert ([lookups[0]] + rest)[1..] == rest;
      }
    }
  }

  lemma {:induction false} PurgeKeepsAll(lookups: seq<Lookup>, drop: Lookup -> bool, l: Lookup)
    ensures multiset(Purge(lookups, drop))[l] == if drop(l) then 0 else multiset(lookups)[l]
  {
    if lookups != [] {
      PurgeKeepsAll(lookups[1..], drop, l);
      assert lookups == [lookups[0]] + lookups[1..];
    }
  }

  /**
   A DEL_CLIENT acts when it comes from the client's node, and on the local node from the client itself. Its address
   then has neither observers nor a server, all other observers are there in their order, and nothing has been sent to
   the address: its observers are gone before its server is announced as removed. Any other one does nothing.
   */
  lemma {:induction false} ClientLeaves(local: u32, s: State, from: Addr, client: Addr, order: seq<Server>,
                                        rest: seq<Server>)
    requires Inv(local, s) && client != Broadcast
    requires Orders(local, s, Packet(from, DelClient(client)), order, rest)
    ensures var p := Packet(from, DelClient(client));
            var t, out := Next(local, s, p), Outputs(local, s, p, order, rest);
            if from.node == client.node && (from.node == local ==> from == client)
            then
              && t.db == s.db - {client}
              && Subsequence(t.lookups, s.lookups)
              && (forall l :: multiset(t.lookups)[l] == if l.who == client then 0 else multiset(s.lookups)[l])
              && forall m :: m in out ==> m.to != client
            else t == s && out == []
  {
    var p := Packet(from, DelClient(client));
    var left := LookupsNext(local, s.lookups, p);
    if Closes(local, from, client) {
      PurgeKeepsOrder(s.lookups, At(client));
      forall l: Lookup ensures multiset(left)[l] == if l.who == client then 0 else multiset(s.lookups)[l] {
        PurgeKeepsAll(s.lookups, At(client), l);
      }
    }
    forall m | m in Outputs(local, s, p, order, rest) ensures m.to != client {
      if client in s.db && m in Notices(left, |left|, s.db[client], DelServer(s.db[client])) {
        NoticeGoesTo(left, |left|, s.db[client], DelServer(s.db[client]), m);
        var i :| 0 <= i < |left| && left[i].who == m.to;
        assert left[i] in left;
      } else if m in Tell(rest, p.ctrl) {
        var i :| 0 <= i < |rest| && m == Tell(rest, p.ctrl)[i];
        assert rest[i] in rest;
      }
    }
  }
}
