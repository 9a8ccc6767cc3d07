/**
 Two name servers that keep each other informed over reliable channels that preserve order: the registrations in
 flight always make up the difference between what one has and what the other knows of it.
 */
module Replication {
  import opened Bytes
  import opened Control
  import opened NsSpec

  /** What the name server of node b hears of messages sent by another. */
  function Heard(msgs: seq<Msg>, b: u32): seq<Ctrl> {
    if msgs == [] then []
    else
      var m := msgs[|msgs| - 1];
      Heard(msgs[..|msgs| - 1], b) + if m.to == Broadcast || m.to == Addr(b, CtrlPort) then [m.ctrl] else []
  }

  /** What node b makes of packets from the name server of node a. */
  function Absorb(b: u32, a: u32, db: map<Addr, Server>, ctrls: seq<Ctrl>): map<Addr, Server> {
    if ctrls == [] then db else DbNext(b, Absorb(b, a, db, ctrls[..|ctrls| - 1]),
                                       Packet(Addr(a, CtrlPort), ctrls[|ctrls| - 1]))
  }

  lemma {:induction false} AbsorbPlus(b: u32, a: u32, db: map<Addr, Server>, c1: seq<Ctrl>, c2: seq<Ctrl>)
    ensures Absorb(b, a, db, c1 + c2) == Absorb(b, a, Absorb(b, a, db, c1), c2)
  {
    if c2 == [] {
      assert c1 + c2 == c1;
    } else {
      assert (c1 + c2)[..|c1 + c2| - 1] == c1 + c2[..|c2| - 1];
      AbsorbPlus(b, a, db, c1, c2[..|c2| - 1]);
    }
  }

  lemma {:induction false} AbsorbFirst(b: u32, a: u32, db: map<Addr, Server>, ctrls: seq<Ctrl>)
    requires ctrls != []
    ensures Absorb(b, a, db, ctrls) == Absorb(b, a, DbNext(b, db, Packet(Addr(a, CtrlPort), ctrls[0])), ctrls[1..])
  {
    AbsorbPlus(b, a, db, [ctrls[0]], ctrls[1..]);
    assert [ctrls[0]] + ctrls[1..] == ctrls;
    assert [ctrls[0]][..0] == [];
    assert Absorb(b, a, db, []) == db;
  }

  lemma {:induction false} HeardPlus(m1: seq<Msg>, m2: seq<Msg>, b: u32)
    ensures Heard(m1 + m2, b) == Heard(m1, b) + Heard(m2, b)
  {
    if m2 == [] {
      assert m1 + m2 == m1;
    } else {
      assert (m1 + m2)[..|m1 + m2| - 1] == m1 + m2[..|m2| - 1];
      HeardPlus(m1, m2[..|m2| - 1], b);
    }
  }

  lemma {:induction false} Unheard(msgs: seq<Msg>, b: u32)
    requires forall m :: m in msgs ==> m.to != Broadcast && m.to != Addr(b, CtrlPort)
    ensures Heard(msgs, b) == []
  {
    if msgs != [] {
      Unheard(msgs[..|msgs| - 1], b);
    }
  }

  // ---------- What is heard of the messages of each kind ----------

  /** Observers are local. */
  lemma {:induction false} NoticesUnheard(local: u32, lookups: seq<Lookup>, x: Server, ctrl: Ctrl, b: u32)
    requires AllLocal(local, lookups) && local != b && local != BroadcastNode
    ensures Heard(Notices(lookups, |lookups|, x, ctrl), b) == []
  {
    var msgs := Notices(lookups, |lookups|, x, ctrl);
    forall m | m in msgs ensures m.to != Broadcast && m.to != Addr(b, CtrlPort) {
      NoticeGoesTo(lookups, |lookups|, x, ctrl, m);
      var i :| 0 <= i < |lookups| && lookups[i].who == m.to;
      assert lookups[i] in lookups;
    }
    Unheard(msgs, b);
  }

  lemma {:induction false} TellUnheard(local: u32, servers: seq<Server>, ctrl: Ctrl, b: u32)
    requires local != b && local != BroadcastNode && forall x :: x in servers ==> x.node == local
    ensures Heard(Tell(servers, ctrl), b) == []
  {
    var msgs := Tell(servers, ctrl);
    forall m | m in msgs ensures m.to != Broadcast && m.to != Addr(b, CtrlPort) {
      var i :| 0 <= i < |msgs| && m == msgs[i];
      assert servers[i] in servers;
    }
    Unheard(msgs, b);
  }

  /** The servers that are announced as gone. */
  function Gone(servers: seq<Server>): seq<Ctrl> {
    if servers == [] then [] else Gone(servers[..|servers| - 1]) + [DelServer(servers[|servers| - 1])]
  }

  lemma {:induction false} ArrivalHeard(local: u32, lookups: seq<Lookup>, x: Server, b: u32)
    requires AllLocal(local, lookups) && local != b && local != BroadcastNode
    ensures Heard(Arrival(local, lookups, x), b) == if x.node == local then [NewServer(x)] else []
  {
    NoticesUnheard(local, lookups, x, NewServer(x), b);
    HeardFirst(Msg(Broadcast, NewServer(x)), x.node == local, Notices(lookups, |lookups|, x, NewServer(x)), b);
  }

  lemma {:induction false} DepartureHeard(local: u32, lookups: seq<Lookup>, x: Server, b: u32)
    requires AllLocal(local, lookups) && local != b && local != BroadcastNode
    ensures Heard(Departure(local, lookups, x), b) == if x.node == local then [DelServer(x)] else []
  {
    NoticesUnheard(local, lookups, x, DelServer(x), b);
    HeardFirst(Msg(Broadcast, DelServer(x)), x.node == local, Notices(lookups, |lookups|, x, DelServer(x)), b);
  }

  /** A broadcast followed by messages that are not heard. */
  lemma {:induction false} HeardFirst(m: Msg, sent: bool, more: seq<Msg>, b: u32)
    requires m.to == Broadcast && Heard(more, b) == []
    ensures Heard((if sent then [m] else []) + more, b) == if sent then [m.ctrl] else []
  {
    HeardPlus(if sent then [m] else [], more, b);
    assert [m][..0] == [];
    assert Heard([], b) == [];
    assert Heard([m], b) == [m.ctrl];
  }

  lemma {:induction false} DeparturesHeard(local: u32, lookups: seq<Lookup>, servers: seq<Server>, all: bool, b: u32)
    requires AllLocal(local, lookups) && local != b && local != BroadcastNode
    requires forall x :: x in servers ==> (x.node == local <==> all)
    ensures Heard(Departures(local, lookups, servers), b) == if all then Gone(servers) else []
  {
    if servers != [] {
      var n := |servers| - 1;
      DeparturesHeard(local, lookups, servers[..n], all, b);
      HeardPlus(Departures(local, lookups, servers[..n]), Departure(local, lookups, servers[n]), b);
      DepartureHeard(local, lookups, servers[n], b);
      assert servers[n] in servers;
    }
  }

  lemma {:induction false} AnnounceHeard(to: Addr, servers: seq<Server>, b: u32)
    ensures Heard(Announce(to, servers), b) == if to == Broadcast || to == Addr(b, CtrlPort) then News(servers) else []
  {
    if servers != [] {
      var n := |servers| - 1;
      assert Announce(to, servers)[..n] == Announce(to, servers[..n]);
      AnnounceHeard(to, servers[..n], b);
    }
  }

  function News(servers: seq<Server>): seq<Ctrl> {
    if servers == [] then [] else News(servers[..|servers| - 1]) + [NewServer(servers[|servers| - 1])]
  }

  // ---------- What it changes ----------

  /** Servers of node a that are announced are known afterwards, in place of others at their addresses. */
  lemma {:induction false} AbsorbNews(b: u32, a: u32, db: map<Addr, Server>, servers: seq<Server>, k: Addr)
    requires a != b && forall x :: x in servers ==> x.node == a && x.service != 0 && x.port != 0
    ensures var after := Absorb(b, a, db, News(servers));
            && (k in after <==> k in db || HasAt(servers, k))
            && (k in after ==>
                (after[k] in servers && after[k].At() == k) || (k in db && after[k] == db[k] && !HasAt(servers, k)))
  {
    if servers != [] {
      var n := |servers| - 1;
      var x := servers[n];
      AbsorbNews(b, a, db, servers[..n], k);
      NewsLength(servers);
      assert News(servers)[..|News(servers)| - 1] == News(servers[..n]);
      assert x in servers;
      assert Absorb(b, a, db, News(servers)) == Absorb(b, a, db, News(servers[..n]))[x.At() := x];
      HasAtLast(servers, k);
    }
  }

  ghost predicate HasAt(servers: seq<Server>, k: Addr) {
    exists x :: x in servers && x.At() == k
  }

  lemma {:induction false} HasAtLast(servers: seq<Server>, k: Addr)
    requires servers != []
    ensures HasAt(servers, k) <==> HasAt(servers[..|servers| - 1], k) || servers[|servers| - 1].At() == k
  {
    assert servers == servers[..|servers| - 1] + [servers[|servers| - 1]];
  }

  lemma {:induction false} NewsLength(servers: seq<Server>)
    ensures |News(servers)| == |servers| == |Gone(servers)|
  {
    if servers != [] {
      NewsLength(servers[..|servers| - 1]);
    }
  }

  lemma {:induction false} AbsorbGone(b: u32, a: u32, db: map<Addr, Server>, servers: seq<Server>, k: Addr)
    requires a != b && forall x :: x in servers ==> x.node == a
    ensures var after := Absorb(b, a, db, Gone(servers));
            && (k in after <==> k in db && !HasAt(servers, k))
            && (k in after ==> after[k] == db[k])
  {
    if servers != [] {
      var n := |servers| - 1;
      AbsorbGone(b, a, db, servers[..n], k);
      NewsLength(servers);
      assert Gone(servers)[..|Gone(servers)| - 1] == Gone(servers[..n]);
      HasAtLast(servers, k);
    }
  }

  /** A snapshot of the local servers of a, absorbed by one that knows them all or none of them. */
  lemma {:induction false} AbsorbSnapshot(b: u32, a: u32, s: State, order: seq<Server>, db: map<Addr, Server>)
    requires a != b && Inv(a, s) && Lists(order, s.db, OnNode(a))
    requires db == Of(s.db, a) || db == map[]
    ensures Absorb(b, a, db, News(order)) == Of(s.db, a)
  {
    forall x | x in order ensures x.node == a && x.service != 0 && x.port != 0 {
      assert s.db[x.At()] == x;
    }
    var after := Absorb(b, a, db, News(order));
    forall k: Addr ensures k in after <==> k in Of(s.db, a)
                   ensures k in after && k in Of(s.db, a) ==> after[k] == s.db[k] {
      AbsorbNews(b, a, db, order, k);
      if k in s.db && k.node == a {
        assert s.db[k].At() == k && s.db[k] in order;
      }
    }
  }

  // ---------- One packet at node a ----------

  /** What node b hears of a packet handled by node a takes the local servers of a from before to after. */
  lemma {:induction false} HeardKeepsUp(a: u32, b: u32, s: State, p: Packet, order: seq<Server>, rest: seq<Server>)
    requires a != b && a != BroadcastNode && Inv(a, s) && Orders(a, s, p, order, rest)
    ensures Absorb(b, a, Of(s.db, a), Heard(Outputs(a, s, p, order, rest), b)) == Of(Next(a, s, p).db, a)
  {
    var out := Outputs(a, s, p, order, rest);
    var mine := Of(s.db, a);
    assert Absorb(b, a, mine, []) == mine;
    match p.ctrl
    case Hello => HelloKeepsUp(a, b, s, p, order, rest);
    case Bye(_) => ByeKeepsUp(a, b, s, p, order, rest);
    case DelClient(client) => ClientKeepsUp(a, b, s, p, order, rest);
    case NewServer(srv) => ArrivalKeepsUp(a, b, s, p, order, rest);
    case DelServer(srv) => DepartureKeepsUp(a, b, s, p, order, rest);
    case NewLookup(_, _) => LookupKeepsUp(a, b, s, p, order, rest);
    case _ =>
  }

  lemma {:induction false} ClientKeepsUp(a: u32, b: u32, s: State, p: Packet, order: seq<Server>, rest: seq<Server>)
    requires a != b && a != BroadcastNode && Inv(a, s) && Orders(a, s, p, order, rest) && p.ctrl.DelClient?
    ensures Absorb(b, a, Of(s.db, a), Heard(Outputs(a, s, p, order, rest), b)) == Of(Next(a, s, p).db, a)
  {
    var mine := Of(s.db, a);
    assert Absorb(b, a, mine, []) == mine;
    if Closes(a, p.from, p.ctrl.client) {
      ClientHeard(a, b, s, p, order, rest);
      RemovalKeepsUp(a, b, s, p.ctrl.client);
    }
  }

  lemma {:induction false} ArrivalKeepsUp(a: u32, b: u32, s: State, p: Packet, order: seq<Server>, rest: seq<Server>)
    requires a != b && a != BroadcastNode && Inv(a, s) && Orders(a, s, p, order, rest) && p.ctrl.NewServer?
    ensures Absorb(b, a, Of(s.db, a), Heard(Outputs(a, s, p, order, rest), b)) == Of(Next(a, s, p).db, a)
  {
    var mine := Of(s.db, a);
    assert Absorb(b, a, mine, []) == mine;
    match Registers(a, p.from, p.ctrl.srv)
    case None =>
    case Some(x) =>
      ArrivalHeard(a, s.lookups, x, b);
      AbsorbArrival(a, b, s, x);
  }

  lemma {:induction false} AbsorbArrival(a: u32, b: u32, s: State, x: Server)
    requires a != b && x.service != 0 && x.port != 0
    ensures Absorb(b, a, Of(s.db, a), if x.node == a then [NewServer(x)] else []) == Of(s.db[x.At() := x], a)
  {
    AbsorbOne(b, a, Of(s.db, a), NewServer(x));
  }

  lemma {:induction false} DepartureKeepsUp(a: u32, b: u32, s: State, p: Packet, order: seq<Server>, rest: seq<Server>)
    requires a != b && a != BroadcastNode && Inv(a, s) && Orders(a, s, p, order, rest) && p.ctrl.DelServer?
    ensures Absorb(b, a, Of(s.db, a), Heard(Outputs(a, s, p, order, rest), b)) == Of(Next(a, s, p).db, a)
  {
    var mine := Of(s.db, a);
    assert Absorb(b, a, mine, []) == mine;
    match Claimed(a, p.from, p.ctrl.srv)
    case None =>
    case Some(k) =>
      RemovalKeepsUp(a, b, s, k);
      if k in s.db {
        DepartureHeard(a, s.lookups, s.db[k], b);
      }
  }

  lemma {:induction false} LookupKeepsUp(a: u32, b: u32, s: State, p: Packet, order: seq<Server>, rest: seq<Server>)
    requires a != b && a != BroadcastNode && Inv(a, s) && Orders(a, s, p, order, rest) && p.ctrl.NewLookup?
    ensures Absorb(b, a, Of(s.db, a), Heard(Outputs(a, s, p, order, rest), b)) == Of(Next(a, s, p).db, a)
  {
    var mine := Of(s.db, a);
    assert Absorb(b, a, mine, []) == mine;
    if p.from.node == a {
      HeardPlus(Announce(p.from, order), [Msg(p.from, EndMark)], b);
      AnnounceHeard(p.from, order, b);
      Unheard([Msg(p.from, EndMark)], b);
    }
  }

  lemma {:induction false} AbsorbOne(b: u32, a: u32, db: map<Addr, Server>, ctrl: Ctrl)
    ensures Absorb(b, a, db, [ctrl]) == DbNext(b, db, Packet(Addr(a, CtrlPort), ctrl))
    ensures Absorb(b, a, db, []) == db
  {
    assert [ctrl][..0] == [];
    assert Absorb(b, a, db, []) == db;
  }

  /** What is heard when a server at address k goes, if there is one. */
  lemma {:induction false} RemovalKeepsUp(a: u32, b: u32, s: State, k: Addr)
    requires a != b && Inv(a, s)
    ensures var heard := if k in s.db && k.node == a then [DelServer(s.db[k])] else [];
            Absorb(b, a, Of(s.db, a), heard) == Of(s.db - {k}, a)
  {
    var mine := Of(s.db, a);
    if k in s.db && k.node == a {
      AbsorbOne(b, a, mine, DelServer(s.db[k]));
      assert mine - {k} == Of(s.db - {k}, a);
    } else {
      AbsorbOne(b, a, mine, Hello);
      assert mine == Of(s.db - {k}, a);
    }
  }

  lemma {:induction false} ClientHeard(a: u32, b: u32, s: State, p: Packet, order: seq<Server>, rest: seq<Server>)
    requires a != b && a != BroadcastNode && Inv(a, s) && Orders(a, s, p, order, rest)
    requires p.ctrl.DelClient? && Closes(a, p.from, p.ctrl.client)
    ensures var k := p.ctrl.client;
            Heard(Outputs(a, s, p, order, rest), b) == if k in s.db && k.node == a then [DelServer(s.db[k])] else []
  {
    var k := p.ctrl.client;
    var left := LookupsNext(a, s.lookups, p);
    TellUnheard(a, rest, p.ctrl, b);
    if k in s.db {
      HeardPlus(Departure(a, left, s.db[k]), Tell(rest, p.ctrl), b);
      DepartureHeard(a, left, s.db[k], b);
    } else {
      assert [] + Tell(rest, p.ctrl) == Tell(rest, p.ctrl);
    }
  }

  lemma {:induction false} HelloKeepsUp(a: u32, b: u32, s: State, p: Packet, order: seq<Server>, rest: seq<Server>)
    requires a != b && a != BroadcastNode && Inv(a, s) && Orders(a, s, p, order, rest) && p.ctrl.Hello?
    ensures Absorb(b, a, Of(s.db, a), Heard(Outputs(a, s, p, order, rest), b)) == Of(s.db, a)
  {
    var mine := Of(s.db, a);
    var echo := [Msg(p.from, Hello)];
    HeardPlus(echo, Announce(p.from, order), b);
    AnnounceHeard(p.from, order, b);
    assert echo[..0] == [];
    assert Heard([], b) == [];
    if p.from == Broadcast || p.from == Addr(b, CtrlPort) {
      assert Heard(echo, b) == [Hello];
      AbsorbPlus(b, a, mine, [Hello], News(order));
      AbsorbOne(b, a, mine, Hello);
      AbsorbSnapshot(b, a, s, order, mine);
    } else {
      assert Heard(echo, b) == [];
      assert Absorb(b, a, mine, []) == mine;
    }
  }

  /** Of a BYE the other hears the departures of local servers only. */
  lemma {:induction false} ByeHeard(a: u32, b: u32, s: State, p: Packet, order: seq<Server>, rest: seq<Server>)
    requires a != b && a != BroadcastNode && Inv(a, s) && Orders(a, s, p, order, rest) && p.ctrl.Bye?
    ensures Heard(Outputs(a, s, p, order, rest), b) == if p.from.node == a then Gone(order) else []
  {
    HeardPlus(Departures(a, s.lookups, order), Tell(rest, Bye(p.from.node)), b);
    TellUnheard(a, rest, Bye(p.from.node), b);
    DeparturesHeard(a, s.lookups, order, p.from.node == a, b);
  }

  lemma {:induction false} ByeKeepsUp(a: u32, b: u32, s: State, p: Packet, order: seq<Server>, rest: seq<Server>)
    requires a != b && a != BroadcastNode && Inv(a, s) && Orders(a, s, p, order, rest) && p.ctrl.Bye?
    ensures Absorb(b, a, Of(s.db, a), Heard(Outputs(a, s, p, order, rest), b)) == Of(Next(a, s, p).db, a)
  {
    var mine := Of(s.db, a);
    ByeHeard(a, b, s, p, order, rest);
    if p.from.node == a {
      AbsorbLast(b, a, s, order);
      assert Of(NotOf(s.db, a), a) == map[];
    } else {
      AbsorbOne(b, a, mine, Hello);
      assert Of(NotOf(s.db, p.from.node), a) == mine;
    }
  }

  /** All local servers announced as gone. */
  lemma {:induction false} AbsorbLast(b: u32, a: u32, s: State, order: seq<Server>)
    requires a != b && Inv(a, s) && Lists(order, s.db, OnNode(a))
    ensures Absorb(b, a, Of(s.db, a), Gone(order)) == map[]
  {
    forall k: Addr ensures k !in Absorb(b, a, Of(s.db, a), Gone(order)) {
      AbsorbGone(b, a, Of(s.db, a), order, k);
      if k in s.db && k.node == a {
        assert s.db[k] in order && s.db[k].At() == k;
      }
    }
  }

  // ---------- Two name servers ----------

  /** Two name servers, and what is in flight between them. */
  datatype World = World(a: State, b: State, toB: seq<Ctrl>, toA: seq<Ctrl>)

  function Mirrored(w: World): World {
    World(w.b, w.a, w.toA, w.toB)
  }

  /** The name server of node a handles a packet that does not come from node b; b will hear what concerns it. */
  ghost predicate Handles(a: u32, b: u32, w: World, v: World, p: Packet, order: seq<Server>, rest: seq<Server>) {
    && Orders(a, w.a, p, order, rest)
    && v.a == Next(a, w.a, p) && v.b == w.b
    && v.toB == w.toB + Heard(Outputs(a, w.a, p, order, rest), b)
    && if p.from == Addr(b, CtrlPort) then w.toA != [] && p.ctrl == w.toA[0] && v.toA == w.toA[1..]
       else p.from.node != b && v.toA == w.toA
  }

  ghost predicate Step(a: u32, b: u32, w: World, v: World) {
    || (exists p, order, rest :: Handles(a, b, w, v, p, order, rest))
    || (exists p, order, rest :: Handles(b, a, Mirrored(w), Mirrored(v), p, order, rest))
  }

  /** What b knows of a, with the messages in flight, is what a has. */
  ghost predicate Follows(a: u32, b: u32, w: World) {
    Absorb(b, a, Of(w.b.db, a), w.toB) == Of(w.a.db, a)
  }

  ghost predicate Agreeing(a: u32, b: u32, w: World) {
    && Inv(a, w.a) && Inv(b, w.b)
    && Follows(a, b, w) && Follows(b, a, Mirrored(w))
  }

  /** Both start empty, or one starts empty when the other has queued its answer to a HELLO. */
  ghost predicate Begins(a: u32, b: u32, w: World) {
    && Inv(a, w.a) && w.b == Start && w.toA == []
    && Of(w.a.db, b) == map[]
    && (w == World(Start, Start, [], []) ||
        exists order :: Lists(order, w.a.db, OnNode(a)) && w.toB == [Hello] + News(order))
  }

  lemma {:induction false} BeginsAgreeing(a: u32, b: u32, w: World)
    requires a != b && Begins(a, b, w)
    ensures Agreeing(a, b, w)
  {
    assert Of(w.b.db, a) == map[] && Of(w.b.db, b) == map[];
    assert Absorb(b, a, map[], []) == map[];
    assert Absorb(a, b, map[], []) == map[];
    if w != World(Start, Start, [], []) {
      var order :| Lists(order, w.a.db, OnNode(a)) && w.toB == [Hello] + News(order);
      AbsorbPlus(b, a, map[], [Hello], News(order));
      AbsorbOne(b, a, map[], Hello);
      AbsorbSnapshot(b, a, w.a, order, map[]);
    }
  }

  /** Handling a packet keeps both in step. */
  lemma {:induction false} HandlesAgreeing(a: u32, b: u32, w: World, v: World, p: Packet, order: seq<Server>,
                                           rest: seq<Server>)
    requires a != b && a != BroadcastNode && Agreeing(a, b, w) && Handles(a, b, w, v, p, order, rest)
    ensures Agreeing(a, b, v)
  {
    NextKeeps(a, w.a, p);
    AbsorbPlus(b, a, Of(w.b.db, a), w.toB, Heard(Outputs(a, w.a, p, order, rest), b));
    HeardKeepsUp(a, b, w.a, p, order, rest);
    StepOfNode(a, w.a.db, p, b);
    if p.from == Addr(b, CtrlPort) {
      AbsorbFirst(a, b, Of(w.a.db, b), w.toA);
    }
  }

  lemma {:induction false} StepAgreeing(a: u32, b: u32, w: World, v: World)
    requires a != b && a != BroadcastNode && b != BroadcastNode && Agreeing(a, b, w) && Step(a, b, w, v)
    ensures Agreeing(a, b, v)
  {
    if p, order, rest :| Handles(a, b, w, v, p, order, rest) {
      HandlesAgreeing(a, b, w, v, p, order, rest);
    } else {
      var p, order, rest :| Handles(b, a, Mirrored(w), Mirrored(v), p, order, rest);
      HandlesAgreeing(b, a, Mirrored(w), Mirrored(v), p, order, rest);
    }
  }

  ghost predicate IsRun(a: u32, b: u32, ws: seq<World>) {
    ws != [] && Begins(a, b, ws[0]) && forall i :: 0 < i < |ws| ==> Step(a, b, ws[i - 1], ws[i])
  }

  /** In every run, at every point: what is in flight makes up the difference, and when nothing is, the two agree. */
  lemma {:induction false} Replicated(a: u32, b: u32, ws: seq<World>, n: nat)
    requires a != b && a != BroadcastNode && b != BroadcastNode && IsRun(a, b, ws) && n < |ws|
    ensures Agreeing(a, b, ws[n])
    ensures ws[n].toB == [] ==> Of(ws[n].b.db, a) == Of(ws[n].a.db, a)
    ensures ws[n].toA == [] ==> Of(ws[n].a.db, b) == Of(ws[n].b.db, b)
  {
    if n == 0 {
      BeginsAgreeing(a, b, ws[0]);
    } else {
      Replicated(a, b, ws, n - 1);
      StepAgreeing(a, b, ws[n - 1], ws[n]);
    }
  }
}
