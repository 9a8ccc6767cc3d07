/**
 What each control packet does, said in terms of the packet and the tables alone: which packets are obeyed, what is
 registered afterwards, who observes, and how often each message is sent to whom. And, over every run from the start,
 which servers are registered and who observes.
 */
module NsLaws {
  import opened Bytes
  import opened Control
  import opened NsSpec

  /** An observer asks for the server: zero stands for any. */
  predicate Asks(l: Lookup, x: Server) {
    (l.service == 0 || l.service == x.service) && (l.instance == 0 || l.instance == x.instance)
  }

  /** How many observers at an address ask for the server. */
  function NumAsking(lookups: seq<Lookup>, x: Server, to: Addr): nat {
    if lookups == [] then 0
    else
      var n := |lookups| - 1;
      NumAsking(lookups[..n], x, to) + if lookups[n].who == to && Asks(lookups[n], x) then 1 else 0
  }

  lemma {:induction false} WantingIsAsking(lookups: seq<Lookup>, n: nat, x: Server, to: Addr)
    requires n <= |lookups|
    ensures NumWanting(lookups, n, x, to) == NumAsking(lookups[..n], x, to)
  {
    if n > 0 {
      WantingIsAsking(lookups, n - 1, x, to);
      assert lookups[..n][..n - 1] == lookups[..n - 1];
    }
  }

  /** Node and port of a broadcast. */
  const Everyone := Addr(0xffff_ffff, 0xffff_fffe)

  /** How often an address is told of a server: for each of its observers that asks, and all nodes of a local one. */
  function Told(local: u32, lookups: seq<Lookup>, x: Server, to: Addr): nat {
    NumAsking(lookups, x, to) + if x.node == local && to == Everyone then 1 else 0
  }

  lemma {:induction false} CountTold(local: u32, lookups: seq<Lookup>, x: Server, ctrl: Ctrl, m: Msg)
    ensures Count((if x.node == local then [Msg(Broadcast, ctrl)] else []) + Notices(lookups, |lookups|, x, ctrl), m) ==
            if m.ctrl == ctrl then Told(local, lookups, x, m.to) else 0
  {
    CountPlus(if x.node == local then [Msg(Broadcast, ctrl)] else [], Notices(lookups, |lookups|, x, ctrl), m);
    CountOne(Msg(Broadcast, ctrl), m);
    CountNotices(lookups, |lookups|, x, ctrl, m);
    WantingIsAsking(lookups, |lookups|, x, m.to);
    assert lookups[..|lookups|] == lookups;
    assert Count([], m) == 0;
  }

  // ---------- Servers ----------

  /** The address of a server packet: a local sender's own, whatever the packet says. */
  function AddressOf(local: u32, from: Addr, srv: Server): Addr {
    if from.node == local then from else Addr(srv.node, srv.port)
  }

  /**
   Node and port of a local server are its sender's, and a remote sender must name its own node. Neither service nor
   port is zero.
   */
  predicate MayRegister(local: u32, from: Addr, srv: Server) {
    srv.service != 0 && (if from.node == local then from.port != 0 else from.node == srv.node && srv.port != 0)
  }

  /** NEW_SERVER. */
  lemma {:induction false} NewServerLaw(local: u32, s: State, from: Addr, srv: Server, order: seq<Server>,
                                        rest: seq<Server>, m: Msg)
    ensures var p, a := Packet(from, NewServer(srv)), AddressOf(local, from, srv);
            var x := Server(srv.service, srv.instance, a.node, a.port);
            if MayRegister(local, from, srv)
            then
              && Next(local, s, p) == State(s.db[a := x], s.lookups)
              && Count(Outputs(local, s, p, order, rest), m) ==
                 if m.ctrl == NewServer(x) then Told(local, s.lookups, x, m.to) else 0
            else Next(local, s, p) == s && Outputs(local, s, p, order, rest) == []
  {
    var a := AddressOf(local, from, srv);
    var x := Server(srv.service, srv.instance, a.node, a.port);
    CountTold(local, s.lookups, x, NewServer(x), m);
  }

  /** DEL_SERVER. */
  lemma {:induction false} DelServerLaw(local: u32, s: State, from: Addr, srv: Server, order: seq<Server>,
                                        rest: seq<Server>, m: Msg)
    ensures var p, a := Packet(from, DelServer(srv)), AddressOf(local, from, srv);
            if (from.node == local || from.node == srv.node) && a in s.db
            then
              && Next(local, s, p) == State(s.db - {a}, s.lookups)
              && Count(Outputs(local, s, p, order, rest), m) ==
                 if m.ctrl == DelServer(s.db[a]) then Told(local, s.lookups, s.db[a], m.to) else 0
            else Next(local, s, p) == s && Outputs(local, s, p, order, rest) == []
  {
    var a := AddressOf(local, from, srv);
    if (from.node == local || from.node == srv.node) && a in s.db {
      CountTold(local, s.lookups, s.db[a], DelServer(s.db[a]), m);
    } else {
      assert s.db - {a} == s.db || !(from.node == local || from.node == srv.node);
    }
  }

  // ---------- Nodes and clients that come and go ----------

  lemma {:induction false} CountAnnounce(to: Addr, servers: seq<Server>, m: Msg)
    requires Once(servers)
    ensures Count(Announce(to, servers), m) ==
            if m.to == to && m.ctrl.NewServer? && m.ctrl.srv in servers then 1 else 0
  {
    if servers != [] {
      var n := |servers| - 1;
      CountAnnounce(to, servers[..n], m);
      assert Announce(to, servers)[..n] == Announce(to, servers[..n]);
      assert servers == servers[..n] + [servers[n]];
    }
  }

  /** HELLO is answered with HELLO and with one NEW_SERVER for each local server, to its sender only. */
  lemma {:induction false} HelloLaw(local: u32, s: State, from: Addr, order: seq<Server>, rest: seq<Server>, m: Msg)
    requires Orders(local, s, Packet(from, Hello), order, rest)
    ensures var p := Packet(from, Hello);
            && Next(local, s, p) == s
            && Outputs(local, s, p, order, rest)[..1] == [Msg(from, Hello)]
            && Count(Outputs(local, s, p, order, rest), m) ==
               if m.to != from then 0
               else match m.ctrl
                    case Hello => 1
                    case NewServer(x) => if x.node == local && x.At() in s.db && s.db[x.At()] == x then 1 else 0
                    case _ => 0
  {
    CountPlus([Msg(from, Hello)], Announce(from, order), m);
    CountOne(Msg(from, Hello), m);
    CountAnnounce(from, order, m);
  }

  /** One message to each of the servers of a node. */
  lemma {:induction false} CountTold1(db: map<Addr, Server>, node: u32, servers: seq<Server>, ctrl: Ctrl, m: Msg)
    requires Lists(servers, db, OnNode(node)) && Keyed(db)
    ensures Count(Tell(servers, ctrl), m) == if m.ctrl == ctrl && m.to.node == node && m.to in db then 1 else 0
  {
    if m.to in db && m.to.node == node {
      assert db[m.to] in servers;
    }
    CountAt(servers, ctrl, m);
  }

  lemma {:induction false} CountAt(servers: seq<Server>, ctrl: Ctrl, m: Msg)
    requires forall x, y :: x in servers && y in servers && x.At() == y.At() ==> x == y
    requires Once(servers)
    ensures Count(Tell(servers, ctrl), m) ==
            if m.ctrl == ctrl && exists x :: x in servers && x.At() == m.to then 1 else 0
  {
    if servers != [] {
      var n := |servers| - 1;
      CountAt(servers[..n], ctrl, m);
      assert Tell(servers, ctrl)[..n] == Tell(servers[..n], ctrl);
      assert servers == servers[..n] + [servers[n]];
      assert servers[n] !in servers[..n];
    }
  }

  lemma {:induction false} CountGone(local: u32, lookups: seq<Lookup>, servers: seq<Server>, m: Msg)
    requires Once(servers)
    ensures Count(Departures(local, lookups, servers), m) ==
            if m.ctrl.DelServer? && m.ctrl.srv in servers then Told(local, lookups, m.ctrl.srv, m.to) else 0
  {
    if servers != [] {
      var n := |servers| - 1;
      CountGone(local, lookups, servers[..n], m);
      CountPlus(Departures(local, lookups, servers[..n]), Departure(local, lookups, servers[n]), m);
      CountTold(local, lookups, servers[n], DelServer(servers[n]), m);
      assert servers == servers[..n] + [servers[n]];
      assert servers[n] !in servers[..n];
    }
  }

  /**
   BYE: the servers of the sender's node are gone, each with its notices, and each local server left gets one BYE that
   names this node.
   */
  lemma {:induction false} ByeLaw(local: u32, s: State, from: Addr, node: u32, order: seq<Server>, rest: seq<Server>,
                                  m: Msg)
    requires Orders(local, s, Packet(from, Bye(node)), order, rest) && Keyed(s.db)
    ensures var p := Packet(from, Bye(node));
            && Next(local, s, p).lookups == s.lookups
            && (forall a :: a in Next(local, s, p).db <==> a in s.db && a.node != from.node)
            && (forall a :: a in Next(local, s, p).db ==> Next(local, s, p).db[a] == s.db[a])
            && Count(Outputs(local, s, p, order, rest), m) ==
               match m.ctrl
               case DelServer(x) =>
                 if x.node == from.node && x.At() in s.db && s.db[x.At()] == x then Told(local, s.lookups, x, m.to)
                 else 0
               case Bye(n) =>
                 if n == from.node && m.to.node == local && local != from.node && m.to in s.db then 1 else 0
               case _ => 0
  {
    CountPlus(Departures(local, s.lookups, order), Tell(rest, Bye(from.node)), m);
    CountGone(local, s.lookups, order, m);
    CountTold1(NotOf(s.db, from.node), local, rest, Bye(from.node), m);
  }

  /** A client is closed by its own node, and on the local node by its own port. */
  predicate MayClose(local: u32, from: Addr, client: Addr) {
    from.node == client.node && (from.node == local ==> from == client)
  }

  /**
   DEL_CLIENT: the observers at the address are gone first, then its server with the notices to the others, and each
   local server left gets the packet.
   */
  lemma {:induction false} DelClientLaw(local: u32, s: State, from: Addr, client: Addr, order: seq<Server>,
                                        rest: seq<Server>, m: Msg)
    requires Orders(local, s, Packet(from, DelClient(client)), order, rest) && Keyed(s.db)
    ensures var p := Packet(from, DelClient(client));
            var t := Next(local, s, p);
            if MayClose(local, from, client)
            then
              && t.db == s.db - {client}
              && Subsequence(t.lookups, s.lookups)
              && (forall l :: multiset(t.lookups)[l] == if l.who == client then 0 else multiset(s.lookups)[l])
              && Count(Outputs(local, s, p, order, rest), m) ==
                 match m.ctrl
                 case DelServer(x) =>
                   if client in s.db && s.db[client] == x then Told(local, t.lookups, x, m.to) else 0
                 case DelClient(c) => if c == client && m.to.node == local && m.to in t.db then 1 else 0
                 case _ => 0
            else t == s && Outputs(local, s, p, order, rest) == []
  {
    var p := Packet(from, DelClient(client));
    if MayClose(local, from, client) {
      var left := LookupsNext(local, s.lookups, p);
      PurgeKeepsOrder(s.lookups, At(client));
      forall l: Lookup ensures multiset(left)[l] == if l.who == client then 0 else multiset(s.lookups)[l] {
        PurgeKeepsAll(s.lookups, At(client), l);
      }
      var gone := if client in s.db then Departure(local, left, s.db[client]) else [];
      CountPlus(gone, Tell(rest, DelClient(client)), m);
      if client in s.db {
        CountTold(local, left, s.db[client], DelServer(s.db[client]), m);
      }
      assert Count([], m) == 0;
      CountTold1(s.db - {client}, local, rest, DelClient(client), m);
    }
  }

  // ---------- Observers ----------

  /** NEW_LOOKUP: of local senders only; one observer more, who is told every server it asks for, and then zeros. */
  lemma {:induction false} NewLookupLaw(local: u32, s: State, from: Addr, service: u32, instance: bv32,
                                        order: seq<Server>, rest: seq<Server>, m: Msg)
    requires Orders(local, s, Packet(from, NewLookup(service, instance)), order, rest) && Keyed(s.db)
    ensures var p, l := Packet(from, NewLookup(service, instance)), Lookup(service, instance, from);
            var out := Outputs(local, s, p, order, rest);
            if from.node == local
            then
              && Next(local, s, p) == State(s.db, s.lookups + [l])
              && out != [] && out[|out| - 1] == Msg(from, NewServer(Server(0, 0, 0, 0)))
              && Count(out, m) ==
                 if m.to != from || !m.ctrl.NewServer? then 0
                 else if m.ctrl.srv == Server(0, 0, 0, 0) then 1
                 else if m.ctrl.srv.At() in s.db && s.db[m.ctrl.srv.At()] == m.ctrl.srv && Asks(l, m.ctrl.srv) then 1
                 else 0
            else Next(local, s, p) == s && out == []
  {
    var p := Packet(from, NewLookup(service, instance));
    if from.node == local {
      CountPlus(Announce(from, order), [Msg(from, EndMark)], m);
      CountOne(Msg(from, EndMark), m);
      CountAnnounce(from, order, m);
    }
  }

  /** The observers that a DEL_LOOKUP removes: the sender's, for this service, and for this instance or any. */
  predicate Withdraws(from: Addr, service: u32, instance: bv32, l: Lookup) {
    l.who == from && l.service == service && (l.instance == 0 || l.instance == instance)
  }

  /** DEL_LOOKUP: these observers are gone, all others are there as before and in their order, and nothing is sent. */
  lemma {:induction false} DelLookupLaw(local: u32, s: State, from: Addr, service: u32, instance: bv32,
                                        order: seq<Server>, rest: seq<Server>)
    ensures var p := Packet(from, DelLookup(service, instance));
            var t := Next(local, s, p);
            && t.db == s.db && Outputs(local, s, p, order, rest) == []
            && Subsequence(t.lookups, s.lookups)
            && (forall l :: multiset(t.lookups)[l] ==
                            if Withdraws(from, service, instance, l) then 0 else multiset(s.lookups)[l])
  {
    var left := LookupsNext(local, s.lookups, Packet(from, DelLookup(service, instance)));
    PurgeKeepsOrder(s.lookups, Asked(from, service, instance));
    forall l: Lookup
      ensures multiset(left)[l] == if Withdraws(from, service, instance, l) then 0 else multiset(s.lookups)[l] {
      PurgeKeepsAll(s.lookups, Asked(from, service, instance), l);
    }
  }

  // ---------- Runs ----------

  /** The packet registers the server x, which is then at its address. */
  predicate Publishes(local: u32, p: Packet, x: Server) {
    && p.ctrl.NewServer? && MayRegister(local, p.from, p.ctrl.srv)
    && x.service == p.ctrl.srv.service && x.instance == p.ctrl.srv.instance
    && x.At() == AddressOf(local, p.from, p.ctrl.srv)
  }

  /** The packet removes or replaces what is registered at the address. */
  predicate Touches(local: u32, p: Packet, a: Addr) {
    match p.ctrl
    case Bye(_) => p.from.node == a.node
    case DelClient(client) => client == a && MayClose(local, p.from, client)
    case NewServer(srv) => AddressOf(local, p.from, srv) == a && MayRegister(local, p.from, srv)
    case DelServer(srv) => AddressOf(local, p.from, srv) == a && (p.from.node == local || p.from.node == srv.node)
    case _ => false
  }

  /** Packet i registers x, and nothing has touched its address since. */
  predicate Stands(local: u32, ps: seq<Packet>, i: nat, x: Server) {
    i < |ps| && Publishes(local, ps[i], x) && forall j :: i < j < |ps| ==> !Touches(local, ps[j], x.At())
  }

  lemma {:induction false} TouchesIs(local: u32, db: map<Addr, Server>, p: Packet, x: Server)
    requires Keyed(db)
    ensures var t, a := DbNext(local, db, p), x.At();
            (a in t && t[a] == x) <==> Publishes(local, p, x) || (a in db && db[a] == x && !Touches(local, p, a))
  {
    match p.ctrl
    case DelClient(client) =>
    case NewServer(srv) =>
    case DelServer(srv) =>
    case _ =>
  }

  /** Over every run, the servers are those that some packet registered and none has removed or replaced since. */
  lemma {:induction false} Registry(local: u32, ps: seq<Packet>, x: Server)
    ensures var db := Run(local, Start, ps).db;
            (x.At() in db && db[x.At()] == x) <==> exists i: nat :: Stands(local, ps, i, x)
  {
    if ps != [] {
      var n := |ps| - 1;
      var front := ps[..n];
      Registry(local, front, x);
      RunKeeps(local, Start, front);
      TouchesIs(local, Run(local, Start, front).db, ps[n], x);
      if i: nat :| Stands(local, front, i, x) {
        if !Touches(local, ps[n], x.At()) {
          assert Stands(local, ps, i, x);
        }
      }
      if Publishes(local, ps[n], x) {
        assert Stands(local, ps, n, x);
      }
      if i: nat :| Stands(local, ps, i, x) {
        if i < n {
          assert Stands(local, front, i, x);
        }
      }
    }
  }

  /** The packet removes observers like this one. */
  predicate Dismisses(local: u32, p: Packet, l: Lookup) {
    match p.ctrl
    case DelClient(client) => client == l.who && MayClose(local, p.from, client)
    case DelLookup(service, instance) => Withdraws(p.from, service, instance, l)
    case _ => false
  }

  /** Packet i made this observer, and nothing has removed it since. */
  predicate Observes(local: u32, ps: seq<Packet>, i: nat, l: Lookup) {
    && i < |ps| && l.who.node == local && ps[i] == Packet(l.who, NewLookup(l.service, l.instance))
    && forall j :: i < j < |ps| ==> !Dismisses(local, ps[j], l)
  }

  /** Over every run, the observers are those that some packet made and none has removed since. */
  lemma {:induction false} Audience(local: u32, ps: seq<Packet>, l: Lookup)
    ensures l in Run(local, Start, ps).lookups <==> exists i: nat :: Observes(local, ps, i, l)
  {
    if ps != [] {
      var n := |ps| - 1;
      var front := ps[..n];
      Audience(local, front, l);
      DismissesIs(local, Run(local, Start, front).lookups, ps[n], l);
      if i: nat :| Observes(local, front, i, l) {
        if !Dismisses(local, ps[n], l) {
          assert Observes(local, ps, i, l);
        }
      }
      if l.who.node == local && ps[n] == Packet(l.who, NewLookup(l.service, l.instance)) {
        assert Observes(local, ps, n, l);
      }
      if i: nat :| Observes(local, ps, i, l) {
        if i < n {
          assert Observes(local, front, i, l);
        }
      }
    }
  }

  lemma {:induction false} DismissesIs(local: u32, lookups: seq<Lookup>, p: Packet, l: Lookup)
    ensures l in LookupsNext(local, lookups, p) <==>
              || (l.who.node == local && p == Packet(l.who, NewLookup(l.service, l.instance)))
              || (l in lookups && !Dismisses(local, p, l))
  {
    match p.ctrl
    case NewLookup(service, instance) =>
      var asked := Lookup(service, instance, p.from);
      assert l in lookups + [asked] <==> l in lookups || l == asked;
    case _ =>
  }
}
