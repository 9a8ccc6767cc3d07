/** What an observer knows: the notices sent to its address, taken together, against the servers it asked for. */
module Observers {
  import opened Bytes
  import opened Control
  import opened NsSpec

  /** What a client makes of a message sent to address a: a map of the servers it has heard of. */
  function See(view: map<Addr, Server>, a: Addr, m: Msg): map<Addr, Server> {
    if m.to != a || m.ctrl == EndMark then view
    else
      match m.ctrl
      case NewServer(x) => view[x.At() := x]
      case DelServer(x) => view - {x.At()}
      case _ => view
  }

  function SeeAll(view: map<Addr, Server>, a: Addr, msgs: seq<Msg>): map<Addr, Server> {
    if msgs == [] then view else See(SeeAll(view, a, msgs[..|msgs| - 1]), a, msgs[|msgs| - 1])
  }

  /** Some observer at the address wants the server. */
  predicate Wanted(lookups: seq<Lookup>, a: Addr, x: Server) {
    exists l :: l in lookups && l.who == a && Wants(l, x)
  }

  function Selected(db: map<Addr, Server>, selected: Server -> bool): map<Addr, Server> {
    map k | k in db && selected(db[k]) :: db[k]
  }

  /** The registered servers that observers at the address want. */
  function Matching(lookups: seq<Lookup>, db: map<Addr, Server>, a: Addr): map<Addr, Server> {
    map k | k in db && Wanted(lookups, a, db[k]) :: db[k]
  }

  /** Every matching server is known, with its current data. */
  ghost predicate Covers(view: map<Addr, Server>, s: State, a: Addr) {
    forall k {:trigger k in view} {:trigger s.db[k]} :: k in s.db && Wanted(s.lookups, a, s.db[k]) ==>
        k in view && view[k] == s.db[k]
  }

  // ---------- Sequences of messages ----------

  lemma {:induction false} SeePlus(view: map<Addr, Server>, a: Addr, m1: seq<Msg>, m2: seq<Msg>)
    ensures SeeAll(view, a, m1 + m2) == SeeAll(SeeAll(view, a, m1), a, m2)
  {
    if m2 == [] {
      assert m1 + m2 == m1;
    } else {
      assert (m1 + m2)[..|m1 + m2| - 1] == m1 + m2[..|m2| - 1];
      SeePlus(view, a, m1, m2[..|m2| - 1]);
    }
  }

  lemma {:induction false} SeeElsewhere(view: map<Addr, Server>, a: Addr, msgs: seq<Msg>)
    requires forall m :: m in msgs && m.to == a ==> !m.ctrl.NewServer? && !m.ctrl.DelServer?
    ensures SeeAll(view, a, msgs) == view
  {
    if msgs != [] {
      SeeElsewhere(view, a, msgs[..|msgs| - 1]);
    }
  }

  /** However many observers at the address are told, the effect is that of one notice. */
  lemma {:induction false} SeeNotices(view: map<Addr, Server>, a: Addr, lookups: seq<Lookup>, n: nat, x: Server,
                                      ctrl: Ctrl)
    requires n <= |lookups| && (ctrl == NewServer(x) || ctrl == DelServer(x)) && ctrl != EndMark
    ensures SeeAll(view, a, Notices(lookups, n, x, ctrl)) ==
            if Wanted(lookups[..n], a, x) then See(view, a, Msg(a, ctrl)) else view
  {
    if n > 0 {
      var l := lookups[n - 1];
      var before := Notices(lookups, n - 1, x, ctrl);
      SeeNotices(view, a, lookups, n - 1, x, ctrl);
      SeePlus(view, a, before, if Wants(l, x) then [Msg(l.who, ctrl)] else []);
      assert lookups[..n] == lookups[..n - 1] + [l];
      assert Wanted(lookups[..n], a, x) <==> Wanted(lookups[..n - 1], a, x) || (l.who == a && Wants(l, x));
    }
  }

  lemma {:induction false} SeeArrival(view: map<Addr, Server>, a: Addr, local: u32, lookups: seq<Lookup>, x: Server)
    requires a != Broadcast && x.service != 0
    ensures SeeAll(view, a, Arrival(local, lookups, x)) == if Wanted(lookups, a, x) then view[x.At() := x] else view
  {
    var first := if x.node == local then [Msg(Broadcast, NewServer(x))] else [];
    SeePlus(view, a, first, Notices(lookups, |lookups|, x, NewServer(x)));
    SeeElsewhere(view, a, first);
    SeeNotices(view, a, lookups, |lookups|, x, NewServer(x));
    assert lookups[..|lookups|] == lookups;
  }

  lemma {:induction false} SeeDeparture(view: map<Addr, Server>, a: Addr, local: u32, lookups: seq<Lookup>, x: Server)
    requires a != Broadcast
    ensures SeeAll(view, a, Departure(local, lookups, x)) == if Wanted(lookups, a, x) then view - {x.At()} else view
  {
    var first := if x.node == local then [Msg(Broadcast, DelServer(x))] else [];
    SeePlus(view, a, first, Notices(lookups, |lookups|, x, DelServer(x)));
    SeeElsewhere(view, a, first);
    SeeNotices(view, a, lookups, |lookups|, x, DelServer(x));
    assert lookups[..|lookups|] == lookups;
  }

  lemma {:induction false} SeeAnnounce(view: map<Addr, Server>, a: Addr, order: seq<Server>, k: Addr)
    requires forall x :: x in order ==> x.service != 0
    ensures var seen := SeeAll(view, a, Announce(a, order));
            && (k in seen <==> k in view || exists x :: x in order && x.At() == k)
            && (k in seen ==>
                (seen[k] in order && seen[k].At() == k) ||
                  (k in view && seen[k] == view[k] && forall x :: x in order ==> x.At() != k))
  {
    if order != [] {
      var n := |order| - 1;
      SeeAnnounce(view, a, order[..n], k);
      assert Announce(a, order)[..n] == Announce(a, order[..n]);
      assert order == order[..n] + [order[n]];
    }
  }

  /** Being told of the selected servers adds them to the view. */
  lemma {:induction false} SeeSelected(view: map<Addr, Server>, a: Addr, db: map<Addr, Server>, order: seq<Server>,
                                       selected: Server -> bool)
    requires Keyed(db) && Lists(order, db, selected)
    ensures SeeAll(view, a, Announce(a, order)) == view + Selected(db, selected)
  {
    forall x | x in order ensures x.service != 0 {
      assert db[x.At()] == x;
    }
    forall k ensures k in SeeAll(view, a, Announce(a, order)) <==> k in view + Selected(db, selected)
             ensures k in view + Selected(db, selected) ==>
                       SeeAll(view, a, Announce(a, order))[k] == (view + Selected(db, selected))[k]
    {
      SeeAnnounce(view, a, order, k);
      if k in db && selected(db[k]) {
        assert db[k] in order;
      }
    }
  }

  lemma {:induction false} SeeDepartures(view: map<Addr, Server>, a: Addr, local: u32, lookups: seq<Lookup>,
                                         servers: seq<Server>)
    requires a != Broadcast
    ensures SeeAll(view, a, Departures(local, lookups, servers)) ==
            map k | k in view && !GoneFrom(servers, lookups, a, k) :: view[k]
  {
    if servers != [] {
      var n := |servers| - 1;
      SeeDepartures(view, a, local, lookups, servers[..n]);
      SeePlus(view, a, Departures(local, lookups, servers[..n]), Departure(local, lookups, servers[n]));
      SeeDeparture(SeeAll(view, a, Departures(local, lookups, servers[..n])), a, local, lookups, servers[n]);
      forall k: Addr ensures GoneFrom(servers, lookups, a, k) <==>
                             GoneFrom(servers[..n], lookups, a, k) ||
                               (servers[n].At() == k && Wanted(lookups, a, servers[n])) {
        GoneOneMore(servers, lookups, a, k);
      }
    }
  }

  /** A server at this address that is wanted is among those that go. */
  ghost predicate GoneFrom(servers: seq<Server>, lookups: seq<Lookup>, a: Addr, k: Addr) {
    exists x :: x in servers && x.At() == k && Wanted(lookups, a, x)
  }

  lemma {:induction false} GoneOneMore(servers: seq<Server>, lookups: seq<Lookup>, a: Addr, k: Addr)
    requires servers != []
    ensures var n := |servers| - 1;
            GoneFrom(servers, lookups, a, k) <==>
            GoneFrom(servers[..n], lookups, a, k) || (servers[n].At() == k && Wanted(lookups, a, servers[n]))
  {
    assert servers == servers[..|servers| - 1] + [servers[|servers| - 1]];
  }

  lemma {:induction false} SeeTell(view: map<Addr, Server>, a: Addr, servers: seq<Server>, ctrl: Ctrl)
    requires !ctrl.NewServer? && !ctrl.DelServer?
    ensures SeeAll(view, a, Tell(servers, ctrl)) == view
  {
    SeeElsewhere(view, a, Tell(servers, ctrl));
  }

  // ---------- One packet ----------

  /** The view at address a after a packet. */
  function ViewNext(local: u32, s: State, p: Packet, a: Addr, view: map<Addr, Server>): map<Addr, Server> {
    match p.ctrl
    case Hello => if p.from == a then view + Selected(s.db, OnNode(local)) else view
    case Bye(_) =>
      map k | k in view && !(k in s.db && k.node == p.from.node && Wanted(s.lookups, a, s.db[k])) :: view[k]
    case DelClient(client) =>
      if Closes(local, p.from, client) && client in s.db &&
        Wanted(LookupsNext(local, s.lookups, p), a, s.db[client]) then view - {client} else view
    case NewServer(srv) =>
      (match Registers(local, p.from, srv)
       case None => view
       case Some(x) => if Wanted(s.lookups, a, x) then view[x.At() := x] else view)
    case DelServer(srv) =>
      (match Claimed(local, p.from, srv)
       case None => view
       case Some(k) => if k in s.db && Wanted(s.lookups, a, s.db[k]) then view - {k} else view)
    case NewLookup(service, instance) =>
      if p.from.node == local && p.from == a
      then view + Selected(s.db, WantedBy(Lookup(service, instance, p.from)))
      else view
    case _ => view
  }

  /** The messages sent for a packet take the view there. */
  lemma {:induction false} SeeOutputs(local: u32, s: State, p: Packet, order: seq<Server>, rest: seq<Server>, a: Addr,
                                      view: map<Addr, Server>)
    requires Inv(local, s) && Orders(local, s, p, order, rest) && a != Broadcast
    ensures SeeAll(view, a, Outputs(local, s, p, order, rest)) == ViewNext(local, s, p, a, view)
  {
    match p.ctrl
    case Hello =>
      SeeAnswer(view, a, p.from, [Msg(p.from, Hello)], order, [], s.db, OnNode(local));
      assert Outputs(local, s, p, order, rest) == [Msg(p.from, Hello)] + Announce(p.from, order) + [];
    case Bye(_) =>
      SeePlus(view, a, Departures(local, s.lookups, order), Tell(rest, Bye(p.from.node)));
      SeeTell(SeeAll(view, a, Departures(local, s.lookups, order)), a, rest, Bye(p.from.node));
      SeeDepartures(view, a, local, s.lookups, order);
      SeeBye(local, s, p.from.node, order, a);
    case DelClient(client) =>
      if Closes(local, p.from, client) {
        var left := LookupsNext(local, s.lookups, p);
        var gone := if client in s.db then Departure(local, left, s.db[client]) else [];
        SeePlus(view, a, gone, Tell(rest, p.ctrl));
        SeeTell(SeeAll(view, a, gone), a, rest, p.ctrl);
        if client in s.db {
          SeeDeparture(view, a, local, left, s.db[client]);
        }
      }
    case NewServer(srv) =>
      match Registers(local, p.from, srv) {
        case None =>
        case Some(x) => SeeArrival(view, a, local, s.lookups, x);
      }
    case DelServer(srv) =>
      match Claimed(local, p.from, srv) {
        case None =>
        case Some(k) =>
          if k in s.db {
            SeeDeparture(view, a, local, s.lookups, s.db[k]);
          }
      }
    case NewLookup(service, instance) =>
      if p.from.node == local {
        SeeAnswer(view, a, p.from, [], order, [Msg(p.from, EndMark)], s.db,
                  WantedBy(Lookup(service, instance, p.from)));
        assert Outputs(local, s, p, order, rest) == [] + Announce(p.from, order) + [Msg(p.from, EndMark)];
      }
    case _ =>
  }

  /** An answer to one address: the announcements between messages that carry no server. */
  lemma {:induction false} SeeAnswer(view: map<Addr, Server>, a: Addr, to: Addr, head: seq<Msg>, order: seq<Server>,
                                     tail: seq<Msg>, db: map<Addr, Server>, selected: Server -> bool)
    requires Keyed(db) && Lists(order, db, selected)
    requires forall m :: m in head ==> m == Msg(to, Hello)
    requires tail == [] || tail == [Msg(to, EndMark)]
    ensures SeeAll(view, a, head + Announce(to, order) + tail) == if to == a then view + Selected(db, selected)
            else view
  {
    SeePlus(view, a, head + Announce(to, order), tail);
    SeePlus(view, a, head, Announce(to, order));
    SeeElsewhere(view, a, head);
    if to == a {
      SeeSelected(view, a, db, order, selected);
    } else {
      SeeElsewhere(view, a, Announce(to, order));
    }
    var between := SeeAll(view, a, head + Announce(to, order));
    assert tail != [] ==> tail[..0] == [];
    assert SeeAll(between, a, tail) == between;
  }

  lemma {:induction false} SeeBye(local: u32, s: State, node: u32, order: seq<Server>, a: Addr)
    requires Keyed(s.db) && Lists(order, s.db, OnNode(node))
    ensures forall k {:trigger GoneFrom(order, s.lookups, a, k)} :: GoneFrom(order, s.lookups, a, k) <==>
              k in s.db && k.node == node && Wanted(s.lookups, a, s.db[k])
  {
    forall k | k in s.db && k.node == node && Wanted(s.lookups, a, s.db[k])
      ensures s.db[k] in order && s.db[k].At() == k {
      assert s.db[k].At() == k;
    }
  }

  /** Whatever happens, no matching server is missed or known with old data. */
  lemma {:induction false} StepCovers(local: u32, s: State, p: Packet, a: Addr, view: map<Addr, Server>)
    requires Inv(local, s) && Covers(view, s, a)
    ensures Covers(ViewNext(local, s, p, a, view), Next(local, s, p), a)
  {
    var t := Next(local, s, p);
    forall k | k in t.db && Wanted(t.lookups, a, t.db[k])
      ensures var v := ViewNext(local, s, p, a, view); k in v && v[k] == t.db[k]
    {
      KeyCovered(local, s, p, a, view, k);
    }
  }

  lemma {:induction false} KeyCovered(local: u32, s: State, p: Packet, a: Addr, view: map<Addr, Server>, k: Addr)
    requires Keyed(s.db) && Covers(view, s, a) && k in DbNext(local, s.db, p)
    requires Wanted(LookupsNext(local, s.lookups, p), a, DbNext(local, s.db, p)[k])
    ensures var v := ViewNext(local, s, p, a, view); k in v && v[k] == DbNext(local, s.db, p)[k]
  {
    WantedAfter(local, s, p, a, DbNext(local, s.db, p)[k]);
  }

  /** Only a NEW_LOOKUP from the address makes it want more. */
  lemma {:induction false} WantedAfter(local: u32, s: State, p: Packet, a: Addr, x: Server)
    requires Wanted(LookupsNext(local, s.lookups, p), a, x)
    ensures Wanted(s.lookups, a, x) ||
            (p.ctrl.NewLookup? && p.from == a && p.from.node == local &&
             Wants(Lookup(p.ctrl.service, p.ctrl.instance, a), x))
  {
    var l :| l in LookupsNext(local, s.lookups, p) && l.who == a && Wants(l, x);
    assert l in s.lookups || (p.ctrl.NewLookup? && p.from.node == local &&
                              l == Lookup(p.ctrl.service, p.ctrl.instance, p.from));
  }

  /**
   What leaves a server in the view that the address does not ask for, or no longer: a registration that replaces a
   wanted server by one that is not wanted, observers that go while servers they want remain, and a HELLO from the
   address itself.
   */
  predicate Spoils(local: u32, s: State, p: Packet, a: Addr) {
    match p.ctrl
    case Hello => p.from == a && exists k :: k in s.db && s.db[k].node == local && !Wanted(s.lookups, a, s.db[k])
    case NewServer(srv) =>
      (match Registers(local, p.from, srv)
       case None => false
       case Some(x) => x.At() in s.db && Wanted(s.lookups, a, s.db[x.At()]) && !Wanted(s.lookups, a, x))
    case DelClient(_) =>
      exists k :: k in s.db && Wanted(s.lookups, a, s.db[k]) && !Wanted(LookupsNext(local, s.lookups, p), a, s.db[k])
    case DelLookup(_, _) =>
      exists k :: k in s.db && Wanted(s.lookups, a, s.db[k]) && !Wanted(LookupsNext(local, s.lookups, p), a, s.db[k])
    case _ => false
  }

  /** An exact view stays exact in all other cases, and only in those. */
  lemma {:induction false} StepExact(local: u32, s: State, p: Packet, a: Addr)
    requires Inv(local, s)
    ensures ViewNext(local, s, p, a, Matching(s.lookups, s.db, a)) ==
            Matching(LookupsNext(local, s.lookups, p), DbNext(local, s.db, p), a)
            <==> !Spoils(local, s, p, a)
  {
    var seen := ViewNext(local, s, p, a, Matching(s.lookups, s.db, a));
    var due := Matching(LookupsNext(local, s.lookups, p), DbNext(local, s.db, p), a);
    match p.ctrl
    case DelClient(client) => ClientExact(local, s, p.from, client, a);
    case Hello => HelloExact(local, s, p.from, a);
    case DelLookup(_, _) => DelLookupExact(local, s, p, a);
    case NewLookup(_, _) => LookupExact(local, s, p, a);
    case NewServer(srv) => ServerExact(local, s, p.from, srv, a);
    case _ => assert seen == due;
  }

  lemma {:induction false} HelloExact(local: u32, s: State, from: Addr, a: Addr)
    ensures var p := Packet(from, Hello);
            ViewNext(local, s, p, a, Matching(s.lookups, s.db, a)) == Matching(s.lookups, s.db, a) <==>
                !Spoils(local, s, p, a)
  {
    var seen, due := ViewNext(local, s, Packet(from, Hello), a, Matching(s.lookups, s.db, a)),
      Matching(s.lookups, s.db, a);
    if k :| from == a && k in s.db && s.db[k].node == local && !Wanted(s.lookups, a, s.db[k]) {
      assert k in seen && k !in due;
    } else {
      assert seen == due;
    }
  }

  lemma {:induction false} ServerExact(local: u32, s: State, from: Addr, srv: Server, a: Addr)
    ensures var p := Packet(from, NewServer(srv));
            ViewNext(local, s, p, a, Matching(s.lookups, s.db, a)) == Matching(s.lookups, DbNext(local, s.db, p), a)
            <==> !Spoils(local, s, p, a)
  {
    var p := Packet(from, NewServer(srv));
    var seen, due := ViewNext(local, s, p, a, Matching(s.lookups, s.db, a)),
      Matching(s.lookups, DbNext(local, s.db, p), a);
    if Spoils(local, s, p, a) {
      var k := Registers(local, from, srv).value.At();
      assert k in seen && k !in due;
    } else {
      assert seen == due;
    }
  }

  lemma {:induction false} DelLookupExact(local: u32, s: State, p: Packet, a: Addr)
    requires p.ctrl.DelLookup?
    ensures Matching(s.lookups, s.db, a) == Matching(LookupsNext(local, s.lookups, p), s.db, a) <==>
              !Spoils(local, s, p, a)
  {
    var seen, due := Matching(s.lookups, s.db, a), Matching(LookupsNext(local, s.lookups, p), s.db, a);
    if k :| k in s.db && Wanted(s.lookups, a, s.db[k]) && !Wanted(LookupsNext(local, s.lookups, p), a, s.db[k]) {
      assert k in seen && k !in due;
    } else {
      forall k | k in s.db && Wanted(LookupsNext(local, s.lookups, p), a, s.db[k])
        ensures Wanted(s.lookups, a, s.db[k]) {
        WantedAfter(local, s, p, a, s.db[k]);
      }
      assert seen == due;
    }
  }

  lemma {:induction false} LookupExact(local: u32, s: State, p: Packet, a: Addr)
    requires Inv(local, s) && p.ctrl.NewLookup?
    ensures ViewNext(local, s, p, a, Matching(s.lookups, s.db, a)) ==
            Matching(LookupsNext(local, s.lookups, p), DbNext(local, s.db, p), a)
  {
    var after := LookupsNext(local, s.lookups, p);
    var l := Lookup(p.ctrl.service, p.ctrl.instance, p.from);
    forall x
      ensures Wanted(after, a, x) <==> Wanted(s.lookups, a, x) || (p.from.node == local && p.from == a && Wants(l, x)) {
      if Wanted(s.lookups, a, x) {
        var w :| w in s.lookups && w.who == a && Wants(w, x);
        assert w in after;
      } else if p.from.node == local && p.from == a && Wants(l, x) {
        assert l in after;
      }
    }
  }

  lemma {:induction false} ClientExact(local: u32, s: State, from: Addr, client: Addr, a: Addr)
    requires Inv(local, s)
    ensures var p := Packet(from, DelClient(client));
            ViewNext(local, s, p, a, Matching(s.lookups, s.db, a)) ==
              Matching(LookupsNext(local, s.lookups, p), DbNext(local, s.db, p), a)
            <==> !Spoils(local, s, p, a)
  {
    var p := Packet(from, DelClient(client));
    forall x ensures Wanted(Purge(s.lookups, At(client)), a, x) <==> client != a && Wanted(s.lookups, a, x) {
      WantedElsewhere(s.lookups, client, a, x);
    }
    if !Closes(local, from, client) {
      assert !Spoils(local, s, p, a);
    } else if client == a {
      OwnClientExact(local, s, from, a);
    } else {
      assert !Spoils(local, s, p, a);
      assert ViewNext(local, s, p, a, Matching(s.lookups, s.db, a)) ==
             Matching(LookupsNext(local, s.lookups, p), DbNext(local, s.db, p), a);
    }
  }

  /** The address itself closes, and takes its observers with it. */
  lemma {:induction false} OwnClientExact(local: u32, s: State, from: Addr, a: Addr)
    requires Closes(local, from, a) && forall x :: !Wanted(Purge(s.lookups, At(a)), a, x)
    ensures var p := Packet(from, DelClient(a));
            ViewNext(local, s, p, a, Matching(s.lookups, s.db, a)) ==
              Matching(LookupsNext(local, s.lookups, p), DbNext(local, s.db, p), a)
            <==> !Spoils(local, s, p, a)
  {
    var p := Packet(from, DelClient(a));
    var seen := ViewNext(local, s, p, a, Matching(s.lookups, s.db, a));
    assert Matching(LookupsNext(local, s.lookups, p), DbNext(local, s.db, p), a) == map[];
    assert seen == Matching(s.lookups, s.db, a);
    if k :| k in s.db && Wanted(s.lookups, a, s.db[k]) {
      assert k in seen;
      assert !Wanted(LookupsNext(local, s.lookups, p), a, s.db[k]);
    } else {
      assert seen == map[];
    }
  }

  lemma {:induction false} WantedElsewhere(lookups: seq<Lookup>, client: Addr, a: Addr, x: Server)
    ensures Wanted(Purge(lookups, At(client)), a, x) <==> client != a && Wanted(lookups, a, x)
  {
    if client != a && Wanted(lookups, a, x) {
      var l :| l in lookups && l.who == a && Wants(l, x);
      assert l in Purge(lookups, At(client));
    }
  }

  // ---------- Runs ----------

  /** The orders in which tables are iterated while a packet is handled. */
  datatype Iteration = Iteration(order: seq<Server>, rest: seq<Server>)

  /** Everything sent over a run. */
  function Sent(local: u32, ps: seq<Packet>, its: seq<Iteration>): seq<Msg>
    requires |its| == |ps|
  {
    if ps == [] then []
    else
      var n := |ps| - 1;
      Sent(local, ps[..n], its[..n]) + Outputs(local, Run(local, Start, ps[..n]), ps[n], its[n].order, its[n].rest)
  }

  ghost predicate Possible(local: u32, ps: seq<Packet>, its: seq<Iteration>)
    requires |its| == |ps|
  {
    ps == [] ||
    var n := |ps| - 1;
    Possible(local, ps[..n], its[..n]) && Orders(local, Run(local, Start, ps[..n]), ps[n], its[n].order, its[n].rest)
  }

  /** In every run the notices sent to an address include every server wanted there, with its current data. */
  lemma {:induction false} AlwaysCovered(local: u32, ps: seq<Packet>, its: seq<Iteration>, a: Addr)
    requires |its| == |ps| && Possible(local, ps, its) && a != Broadcast
    ensures Covers(SeeAll(map[], a, Sent(local, ps, its)), Run(local, Start, ps), a)
  {
    if ps != [] {
      var n := |ps| - 1;
      var s := Run(local, Start, ps[..n]);
      var sent := Sent(local, ps[..n], its[..n]);
      AlwaysCovered(local, ps[..n], its[..n], a);
      RunKeeps(local, Start, ps[..n]);
      SeePlus(map[], a, sent, Outputs(local, s, ps[n], its[n].order, its[n].rest));
      SeeOutputs(local, s, ps[n], its[n].order, its[n].rest, a, SeeAll(map[], a, sent));
      StepCovers(local, s, ps[n], a, SeeAll(map[], a, sent));
    }
  }

  /** No packet of the run leaves an unwanted server in the view. */
  predicate Unspoilt(local: u32, ps: seq<Packet>, a: Addr) {
    ps == [] ||
    var n := |ps| - 1;
    Unspoilt(local, ps[..n], a) && !Spoils(local, Run(local, Start, ps[..n]), ps[n], a)
  }

  /** In such a run they add up to exactly the wanted servers. */
  lemma {:induction false} ExactWhenUnspoilt(local: u32, ps: seq<Packet>, its: seq<Iteration>, a: Addr)
    requires |its| == |ps| && Possible(local, ps, its) && a != Broadcast && Unspoilt(local, ps, a)
    ensures var t := Run(local, Start, ps); SeeAll(map[], a, Sent(local, ps, its)) == Matching(t.lookups, t.db, a)
  {
    if ps != [] {
      var n := |ps| - 1;
      var s := Run(local, Start, ps[..n]);
      var sent := Sent(local, ps[..n], its[..n]);
      ExactWhenUnspoilt(local, ps[..n], its[..n], a);
      RunKeeps(local, Start, ps[..n]);
      SeePlus(map[], a, sent, Outputs(local, s, ps[n], its[n].order, its[n].rest));
      SeeOutputs(local, s, ps[n], its[n].order, its[n].rest, a, SeeAll(map[], a, sent));
      StepExact(local, s, ps[n], a);
    }
  }

  /** An observer of everything at the address. */
  predicate Wildcard(lookups: seq<Lookup>, a: Addr) {
    exists l :: l in lookups && l.who == a && l.service == 0 && l.instance == 0
  }

  lemma {:induction false} WildcardWants(lookups: seq<Lookup>, a: Addr, x: Server)
    requires Wildcard(lookups, a)
    ensures Wanted(lookups, a, x)
  {
    var l :| l in lookups && l.who == a && l.service == 0 && l.instance == 0;
    assert Wants(l, x);
  }

  /** No packet leaves an unwanted server in the view of an address that asks for everything before it and after it. */
  lemma {:induction false} WildcardUnspoilt(local: u32, s: State, p: Packet, a: Addr)
    requires Wildcard(s.lookups, a) && Wildcard(LookupsNext(local, s.lookups, p), a)
    ensures !Spoils(local, s, p, a)
  {
    forall x: Server ensures Wanted(s.lookups, a, x) && Wanted(LookupsNext(local, s.lookups, p), a, x) {
      WildcardWants(s.lookups, a, x);
      WildcardWants(LookupsNext(local, s.lookups, p), a, x);
    }
  }

  /** From packet i on the address asks for everything. */
  ghost predicate WildcardFrom(local: u32, ps: seq<Packet>, i: nat, a: Addr) {
    forall j: nat {:trigger ps[..j]} :: i <= j <= |ps| ==> Wildcard(Run(local, Start, ps[..j]).lookups, a)
  }

  lemma {:induction false} WildcardStays(local: u32, ps: seq<Packet>, i: nat, a: Addr)
    requires i <= |ps| && Unspoilt(local, ps[..i], a) && WildcardFrom(local, ps, i, a)
    ensures Unspoilt(local, ps, a)
  {
    assert ps[..|ps|] == ps;
    if i < |ps| {
      var n := |ps| - 1;
      assert ps[..n][..i] == ps[..i];
      WildcardBefore(local, ps, i, a);
      WildcardStays(local, ps[..n], i, a);
      WildcardUnspoilt(local, Run(local, Start, ps[..n]), ps[n], a);
    }
  }

  lemma {:induction false} WildcardBefore(local: u32, ps: seq<Packet>, i: nat, a: Addr)
    requires i < |ps| && WildcardFrom(local, ps, i, a)
    ensures WildcardFrom(local, ps[..|ps| - 1], i, a) && Wildcard(Run(local, Start, ps[..|ps| - 1]).lookups, a)
    ensures Wildcard(Run(local, Start, ps).lookups, a)
  {
    var n := |ps| - 1;
    assert ps[..|ps|] == ps;
    forall j: nat {:trigger ps[..n][..j]} | i <= j <= n ensures Wildcard(Run(local, Start, ps[..n][..j]).lookups, a) {
      assert ps[..n][..j] == ps[..j];
    }
  }

  /**
   An address that asks for everything, from some packet on to the end, knows exactly the registered servers, if nothing
   had been left in its view by then.
   */
  lemma {:induction false} WildcardExact(local: u32, ps: seq<Packet>, its: seq<Iteration>, i: nat, a: Addr)
    requires |its| == |ps| && Possible(local, ps, its) && a != Broadcast
    requires i <= |ps| && Unspoilt(local, ps[..i], a) && WildcardFrom(local, ps, i, a)
    ensures SeeAll(map[], a, Sent(local, ps, its)) == Run(local, Start, ps).db
  {
    var t := Run(local, Start, ps);
    WildcardStays(local, ps, i, a);
    ExactWhenUnspoilt(local, ps, its, a);
    assert ps[..|ps|] == ps;
    forall x: Server ensures Wanted(t.lookups, a, x) {
      WildcardWants(t.lookups, a, x);
    }
    assert Matching(t.lookups, t.db, a) == t.db;
  }

  /**
   A packet under which an observer with a filter stays exact: no HELLO from the address, none of its observers
   withdrawn, and no port registered again for another service or instance.
   */
  predicate Steady(local: u32, s: State, p: Packet, a: Addr) {
    match p.ctrl
    case Hello => p.from != a
    case DelClient(client) => client != a
    case DelLookup(_, _) => p.from != a
    case NewServer(srv) =>
      (match Registers(local, p.from, srv)
       case None => true
       case Some(x) => x.At() in s.db ==> s.db[x.At()].service == x.service && s.db[x.At()].instance == x.instance)
    case _ => true
  }

  lemma {:induction false} SteadyUnspoilt(local: u32, s: State, p: Packet, a: Addr)
    requires Steady(local, s, p, a)
    ensures !Spoils(local, s, p, a)
  {
    match p.ctrl
    case NewServer(srv) =>
      if Registers(local, p.from, srv).Some? {
        SameWanted(s.lookups, a, Registers(local, p.from, srv).value, s.db);
      }
    case DelClient(client) =>
      forall x: Server | Wanted(s.lookups, a, x) ensures Wanted(LookupsNext(local, s.lookups, p), a, x) {
        WantedElsewhere(s.lookups, client, a, x);
      }
    case DelLookup(service, instance) =>
      forall x: Server | Wanted(s.lookups, a, x) ensures Wanted(LookupsNext(local, s.lookups, p), a, x) {
        var l :| l in s.lookups && l.who == a && Wants(l, x);
        assert l in Purge(s.lookups, Asked(p.from, service, instance));
      }
    case _ =>
  }

  lemma {:induction false} SameWanted(lookups: seq<Lookup>, a: Addr, x: Server, db: map<Addr, Server>)
    requires x.At() in db ==> db[x.At()].service == x.service && db[x.At()].instance == x.instance
    ensures x.At() in db && Wanted(lookups, a, db[x.At()]) ==> Wanted(lookups, a, x)
  {
    if x.At() in db && Wanted(lookups, a, db[x.At()]) {
      var l :| l in lookups && l.who == a && Wants(l, db[x.At()]);
      assert Wants(l, x);
    }
  }

  predicate AllSteady(local: u32, ps: seq<Packet>, a: Addr) {
    ps == [] ||
    var n := |ps| - 1;
    AllSteady(local, ps[..n], a) && Steady(local, Run(local, Start, ps[..n]), ps[n], a)
  }

  lemma {:induction false} AllSteadyUnspoilt(local: u32, ps: seq<Packet>, a: Addr)
    requires AllSteady(local, ps, a)
    ensures Unspoilt(local, ps, a)
  {
    if ps != [] {
      var n := |ps| - 1;
      AllSteadyUnspoilt(local, ps[..n], a);
      SteadyUnspoilt(local, Run(local, Start, ps[..n]), ps[n], a);
    }
  }

  /** Over a run of such packets an address knows exactly the servers that its observers want. */
  lemma {:induction false} FilteredExact(local: u32, ps: seq<Packet>, its: seq<Iteration>, a: Addr)
    requires |its| == |ps| && Possible(local, ps, its) && a != Broadcast && AllSteady(local, ps, a)
    ensures var t := Run(local, Start, ps); SeeAll(map[], a, Sent(local, ps, its)) == Matching(t.lookups, t.db, a)
  {
    AllSteadyUnspoilt(local, ps, a);
    ExactWhenUnspoilt(local, ps, its, a);
  }

  /** A client asks for instance 2 of service 1; a remote port registers that, then instance 3. */
  function Reregistration(local: u32, node: u32): seq<Packet> {
    var from := Addr(node, CtrlPort);
    [Packet(Addr(local, 9), NewLookup(1, 2)),
     Packet(from, NewServer(Server(1, 2, node, 7))),
     Packet(from, NewServer(Server(1, 3, node, 7)))]
  }

  /** The port that changes its instance stays known to the client, as no removal is sent. */
  lemma {:induction false} ReplacedUnnoticed(local: u32, node: u32, its: seq<Iteration>)
    requires |its| == 3 && node != local && local != BroadcastNode
    requires Possible(local, Reregistration(local, node), its)
    ensures var ps, a := Reregistration(local, node), Addr(local, 9);
            var t := Run(local, Start, ps);
            Matching(t.lookups, t.db, a) == map[] &&
              SeeAll(map[], a, Sent(local, ps, its)) == map[Addr(node, 7) := Server(1, 2, node, 7)]
  {
    var ps, a := Reregistration(local, node), Addr(local, 9);
    var s := Run(local, Start, ps[..2]);
    AfterTwo(local, node);
    ExactAfterTwo(local, ps, its[..2], a);
    ThirdUnnoticed(local, node, s, its[2], SeeAll(map[], a, Sent(local, ps[..2], its[..2])));
    SeePlus(map[], a, Sent(local, ps[..2], its[..2]), Outputs(local, s, ps[2], its[2].order, its[2].rest));
  }

  lemma {:induction false} AfterTwo(local: u32, node: u32)
    requires node != local
    ensures var x, a := Server(1, 2, node, 7), Addr(local, 9);
            Run(local, Start, Reregistration(local, node)[..2]) == State(map[x.At() := x], [Lookup(1, 2, a)])
  {
    var ps := Reregistration(local, node);
    RunOfTwo(local, ps[0], ps[1]);
    assert ps[..2] == [ps[0], ps[1]];
  }

  /** The third packet, when the client knows exactly what it wants. */
  lemma {:induction false} ThirdUnnoticed(local: u32, node: u32, s: State, it: Iteration, view: map<Addr, Server>)
    requires node != local && local != BroadcastNode
    requires s == State(map[Addr(node, 7) := Server(1, 2, node, 7)], [Lookup(1, 2, Addr(local, 9))])
    requires view == Matching(s.lookups, s.db, Addr(local, 9))
    ensures var p, a := Reregistration(local, node)[2], Addr(local, 9);
            && Matching(Next(local, s, p).lookups, Next(local, s, p).db, a) == map[]
            && SeeAll(view, a, Outputs(local, s, p, it.order, it.rest)) == map[Addr(node, 7) := Server(1, 2, node, 7)]
  {
    var p, a, x := Reregistration(local, node)[2], Addr(local, 9), Server(1, 2, node, 7);
    assert Lookup(1, 2, a) in s.lookups && Wanted(s.lookups, a, x);
    assert view == map[x.At() := x];
    SeeOutputs(local, s, p, it.order, it.rest, a, view);
  }

  lemma {:induction false} RunOfTwo(local: u32, p: Packet, q: Packet)
    ensures Run(local, Start, [p, q]) == Next(local, Next(local, Start, p), q)
    ensures Run(local, Start, [p]) == Next(local, Start, p)
  {
    assert [p][..0] == [];
    assert Run(local, Start, [p]) == Next(local, Start, p);
    assert [p, q][..1] == [p];
  }

  lemma {:induction false} ExactAfterTwo(local: u32, ps: seq<Packet>, its: seq<Iteration>, a: Addr)
    requires |ps| == 3 && |its| == 2 && Possible(local, ps[..2], its) && a != Broadcast
    requires ps[0].ctrl.NewLookup? && ps[1].ctrl.NewServer? && ps[0].from == a && a.node == local
    ensures var t := Run(local, Start, ps[..2]);
            SeeAll(map[], a, Sent(local, ps[..2], its)) == Matching(t.lookups, t.db, a)
  {
    RunOfTwo(local, ps[0], ps[1]);
    assert ps[..2] == [ps[0], ps[1]] && ps[..2][..1] == [ps[0]] && [ps[0]][..0] == [];
    assert Run(local, Start, []) == Start;
    assert !Spoils(local, Start, ps[0], a);
    assert Unspoilt(local, [], a);
    assert Unspoilt(local, [ps[0]], a);
    assert Unspoilt(local, ps[..2], a);
    ExactWhenUnspoilt(local, ps[..2], its, a);
  }

  // ---------- The answer to a lookup ----------

  /** What a reader that stops at the record of zeros collects. */
  function ReadAnswer(msgs: seq<Msg>): seq<Server> {
    if msgs == [] || !msgs[0].ctrl.NewServer? || msgs[0].ctrl == EndMark then []
    else [msgs[0].ctrl.srv] + ReadAnswer(msgs[1..])
  }

  lemma {:induction false} ReadAnnounced(to: Addr, order: seq<Server>, more: seq<Msg>)
    requires forall x :: x in order ==> x.service != 0
    ensures ReadAnswer(Announce(to, order) + [Msg(to, EndMark)] + more) == order
  {
    var all := Announce(to, order) + [Msg(to, EndMark)] + more;
    if order != [] {
      assert all[1..] == Announce(to, order[1..]) + [Msg(to, EndMark)] + more;
      ReadAnnounced(to, order[1..], more);
      assert all[0].ctrl.srv in order;
    }
  }

  /**
   A local lookup is answered, at once and before anything else is sent to the client, by exactly the matching servers
   of all nodes, each once; the record of zeros ends the answer and is no server.
   */
  lemma {:induction false} LookupAnswered(local: u32, s: State, from: Addr, service: u32, instance: bv32,
                                          order: seq<Server>, rest: seq<Server>, more: seq<Msg>)
    requires Inv(local, s) && from.node == local
    requires Orders(local, s, Packet(from, NewLookup(service, instance)), order, rest)
    ensures var p := Packet(from, NewLookup(service, instance));
            var answer := ReadAnswer(Outputs(local, s, p, order, rest) + more);
            && Once(answer)
            && (forall x :: x in answer <==>
                x.At() in s.db && s.db[x.At()] == x && ServerMatch(x, Filter(service, instance, 0)))
            && (forall x :: x in answer ==> NewServer(x) != EndMark)
  {
    forall x | x in order ensures x.service != 0 {
      assert s.db[x.At()] == x;
    }
    ReadAnnounced(from, order, more);
    forall x ensures ServerMatch(x, Filter(service, instance, 0)) <==> Wants(Lookup(service, instance, from), x) {
      MatchIsWants(x, Lookup(service, instance, from));
    }
  }
}
