/** Control packets of the name service, servers and observers, and which observer wants which server (src/ns.c). */
module Control {
  import opened Bytes

  datatype Addr = Addr(node: u32, port: u32)

  datatype Server = Server(service: u32, instance: bv32, node: u32, port: u32) {
    function At(): Addr {
      Addr(node, port)
    }
  }

  /** An observer: who asked, and for what; zero stands for any. */
  datatype Lookup = Lookup(service: u32, instance: bv32, who: Addr)

  datatype Filter = Filter(service: u32, instance: bv32, ifilter: bv32)

  datatype Ctrl =
    | Hello
    | Bye(node: u32)
    | DelClient(client: Addr)
    | NewServer(srv: Server)
    | DelServer(srv: Server)
    | NewLookup(service: u32, instance: bv32)
    | DelLookup(service: u32, instance: bv32)
    | Other

  datatype Packet = Packet(from: Addr, ctrl: Ctrl)

  datatype Msg = Msg(to: Addr, ctrl: Ctrl)

  const BroadcastNode: u32 := 0xffff_ffff
  const CtrlPort: u32 := 0xffff_fffe
  const Broadcast := Addr(BroadcastNode, CtrlPort)

  /** The record of zeros that ends the answer to a lookup. */
  const EndMark: Ctrl := NewServer(Server(0, 0, 0, 0))

  // ---------- Matching ----------

  function ServerMatch(srv: Server, f: Filter): bool {
    var ifilter := if f.ifilter == 0 && f.instance != 0 then 0xffff_ffff else f.ifilter;
    !(f.service != 0 && srv.service != f.service) && (srv.instance & ifilter) == f.instance
  }

  /** The filter written out in the loops over observers. */
  predicate Wants(l: Lookup, srv: Server) {
    !(l.service != 0 && l.service != srv.service) && !(l.instance != 0 && l.instance != srv.instance)
  }

  function OnNode(node: u32): Server -> bool {
    (x: Server) => x.node == node
  }

  function WantedBy(l: Lookup): Server -> bool {
    (x: Server) => Wants(l, x)
  }

  /** A lookup without a mask asks for the same servers in both ways. */
  lemma {:induction false} MatchIsWants(srv: Server, l: Lookup)
    ensures ServerMatch(srv, Filter(l.service, l.instance, 0)) <==> Wants(l, srv)
  {
    assert srv.instance & 0xffff_ffff == srv.instance;
    assert srv.instance & 0 == 0;
  }

  // ---------- Messages ----------

  function Announce(to: Addr, servers: seq<Server>): (msgs: seq<Msg>)
    ensures |msgs| == |servers|
  {
    seq(|servers|, i requires 0 <= i < |servers| => Msg(to, NewServer(servers[i])))
  }

  /** The same message to each of these servers. */
  function Tell(servers: seq<Server>, ctrl: Ctrl): (msgs: seq<Msg>)
    ensures |msgs| == |servers|
  {
    seq(|servers|, i requires 0 <= i < |servers| => Msg(servers[i].At(), ctrl))
  }

  /** The message to each of the first n observers that want the server. */
  function Notices(lookups: seq<Lookup>, n: nat, srv: Server, ctrl: Ctrl): (msgs: seq<Msg>)
    requires n <= |lookups|
  {
    if n == 0 then []
    else Notices(lookups, n - 1, srv, ctrl) + if Wants(lookups[n - 1], srv) then [Msg(lookups[n - 1].who, ctrl)] else []
  }

  /** What is sent when a server is registered. */
  function Arrival(local: u32, lookups: seq<Lookup>, srv: Server): seq<Msg> {
    (if srv.node == local then [Msg(Broadcast, NewServer(srv))] else []) +
      Notices(lookups, |lookups|, srv, NewServer(srv))
  }

  /** What is sent when a server disappears. */
  function Departure(local: u32, lookups: seq<Lookup>, srv: Server): seq<Msg> {
    (if srv.node == local then [Msg(Broadcast, DelServer(srv))] else []) +
      Notices(lookups, |lookups|, srv, DelServer(srv))
  }

  function Departures(local: u32, lookups: seq<Lookup>, servers: seq<Server>): seq<Msg> {
    if servers == [] then []
    else Departures(local, lookups, servers[..|servers| - 1]) + Departure(local, lookups, servers[|servers| - 1])
  }

  // ---------- Enumerations ----------

  ghost predicate Once(s: seq<Server>) {
    forall i, j {:trigger s[i], s[j]} :: 0 <= i < j < |s| ==> s[i] != s[j]
  }

  /** The sequence lists the registered servers that are selected, each once. */
  ghost predicate Lists(order: seq<Server>, db: map<Addr, Server>, selected: Server -> bool) {
    && Once(order)
    && forall x {:trigger x in order} :: x in order <==> x.At() in db && db[x.At()] == x && selected(x)
  }
}
