/**
 The waiter of src/waiter.c: tickets in order of addition, and the array of descriptors handed to poll, which is only
 resized when a ticket is added.
 */
module Waiter {
  import opened Bytes

  const TwoTo64 := 0x1_0000_0000_0000_0000
  type u64 = x: int | 0 <= x < TwoTo64

  const Forever: u64 := TwoTo64 - 1
  const MaxDelta := 0x7fff_ffff

  datatype Kind = NullKind | FdKind | TimeoutKind

  /** A ticket; `arg` is the union of descriptor and interval. */
  class Ticket {
    var kind: Kind
    var arg: u32
    var start: u64
    var updated: bool

    constructor ()
      ensures kind == NullKind && arg == 0 && start == 0 && !updated
    {
      kind, arg, start, updated := NullKind, 0, 0, false;
    }

    method SetNull()
      modifies `kind
      ensures kind == NullKind
    {
      kind := NullKind;
    }

    method SetFd(fd: u32)
      modifies `kind, `arg
      ensures kind == FdKind && arg == fd
    {
      kind := FdKind;
      arg := fd;
    }

    method SetTimeout(ms: u32, now: u64)
      modifies `kind, `arg, `start
      ensures kind == TimeoutKind && arg == ms && start == now
    {
      kind := TimeoutKind;
      arg := ms;
      start := now;
    }

    /** 0 when the ticket has fired, else -1. */
    method Check() returns (rc: int)
      ensures rc == if updated then 0 else -1
    {
      rc := if updated then 0 else -1;
    }

    method Clear() returns (rc: int)
      modifies `updated
      ensures !updated && rc == if old(updated) then 0 else -1
    {
      rc := Check();
      updated := false;
    }

    function Key(): Option<u32>
      reads `kind, `arg
    {
      if kind.TimeoutKind? then Some(arg) else None
    }

    /** Whether the ticket fires at this time, when `fd` is the descriptor that ended the poll. */
    function Fires(fd: Option<u32>, now: u64): bool
      reads `kind, `arg, `start
    {
      match kind
      case TimeoutKind => now >= Due()
      case FdKind => fd == Some(arg)
      case NullKind => false
    }

    /** The time the ticket is due, in 64-bit arithmetic. */
    function Due(): u64
      reads `start, `arg
    {
      (start + arg) % TwoTo64
    }
  }

  /** The descriptors to poll. */
  class Pollset {
    const fds: array<u32>
    var nfds: nat
    var cause: int

    constructor (capacity: nat)
      ensures fds.Length == capacity && nfds == 0 && fresh(fds)
    {
      fds := new u32[capacity](_ => 0);
      nfds, cause := 0, 0;
    }

    /** Requires room: the function stores without looking. */
    method AddFd(fd: u32)
      requires nfds < fds.Length
      modifies `nfds, fds
      ensures nfds == old(nfds) + 1 && fds[..nfds] == old(fds[..nfds]) + [fd]
    {
      fds[nfds] := fd;
      nfds := nfds + 1;
    }

    /** What poll answered: rc, and which descriptors are ready; the cause is the first of them. */
    method Wait(rc: int, ready: nat -> bool)
      requires nfds <= fds.Length
      modifies `cause
      ensures rc <= 0 ==> cause == old(cause)
      ensures rc > 0 ==> cause == FirstReady(ready, nfds)
    {
      if rc <= 0 {
        return;
      }
      cause := -1;
      var i := 0;
      while i < nfds
        invariant 0 <= i <= nfds && cause == -1
        invariant forall j: nat :: j < i ==> !ready(j)
      {
        if ready(i) {
          cause := i;
          FirstReadyIs(ready, nfds, i);
          return;
        }
        i := i + 1;
      }
      FirstReadyIs(ready, nfds, -1);
    }

    method Reset()
      modifies `nfds
      ensures nfds == 0
    {
      nfds := 0;
    }

    ghost predicate Ok()
      reads this
    {
      cause < nfds <= fds.Length
    }

    /** The descriptor that ended the poll. */
    function CauseFd(): Option<u32>
      requires Ok()
      reads this, fds
    {
      if cause >= 0 then Some(fds[cause]) else None
    }

    method Caused(fd: u32) returns (b: bool)
      requires Ok()
      ensures b <==> CauseFd() == Some(fd)
    {
      b := cause >= 0 && fds[cause] == fd;
    }
  }

  function FirstReady(ready: nat -> bool, n: nat): (i: int)
    ensures -1 <= i < n
  {
    if n == 0 then -1 else if FirstReady(ready, n - 1) >= 0 then FirstReady(ready, n - 1)
      else if ready(n - 1) then n - 1 else -1
  }

  lemma {:induction false} FirstReadyIs(ready: nat -> bool, n: nat, i: int)
    requires -1 <= i < n && (i >= 0 ==> ready(i))
    requires forall j: nat :: j < (if i < 0 then n else i) ==> !ready(j)
    ensures FirstReady(ready, n) == i
  {
    if n > 0 {
      FirstReadyIs(ready, n - 1, if i < n - 1 then i else -1);
    }
  }

  // ---------- The tickets ----------

  ghost predicate Apart(ts: seq<Ticket>, i: nat, j: nat) {
    i < |ts| && j < |ts| && ts[i] == ts[j] ==> i == j
  }

  ghost predicate Distinct(ts: seq<Ticket>) {
    forall i: nat, j: nat {:trigger Apart(ts, i, j)} :: Apart(ts, i, j)
  }

  function NumFds(ts: seq<Ticket>, n: nat): (c: nat)
    requires n <= |ts|
    reads ts`kind
    ensures c <= n
  {
    if n == 0 then 0 else NumFds(ts, n - 1) + if ts[n - 1].kind.FdKind? then 1 else 0
  }

  function Fds(ts: seq<Ticket>, n: nat): (fds: seq<u32>)
    requires n <= |ts|
    reads ts`kind, ts`arg
    ensures |fds| == NumFds(ts, n)
  {
    if n == 0 then [] else Fds(ts, n - 1) + if ts[n - 1].kind.FdKind? then [ts[n - 1].arg] else []
  }

  /** The earliest time a timeout among the first n tickets is due. */
  function Earliest(ts: seq<Ticket>, n: nat): u64
    requires n <= |ts|
    reads ts
  {
    if n == 0 then Forever
    else if ts[n - 1].kind.TimeoutKind? && ts[n - 1].Due() < Earliest(ts, n - 1) then ts[n - 1].Due()
    else Earliest(ts, n - 1)
  }

  lemma {:induction false} NumFdsGrows(ts: seq<Ticket>, n: nat)
    requires n <= |ts|
    ensures NumFds(ts, n) <= NumFds(ts, |ts|)
    decreases |ts| - n
  {
    if n < |ts| {
      NumFdsGrows(ts, n + 1);
    }
  }

  /** What poll is given for its timeout: -1 is for ever; no poll at all when the time has passed. */
  function PollTime(term: u64, now: u64): Option<int> {
    if term == Forever then Some(-1)
    else if now >= term then None
    else if term - now > MaxDelta then Some(MaxDelta)
    else Some(term - now)
  }

  /** When timeouts are due, the last value of the clock standing for never. */
  ghost function Expiries(ts: seq<Ticket>): set<int>
    reads ts
  {
    (set i | 0 <= i < |ts| && ts[i].kind == TimeoutKind :: (ts[i].start + ts[i].arg) % 0x1_0000_0000_0000_0000) -
      {0xffff_ffff_ffff_ffff}
  }

  /**
   Poll is skipped exactly when a timeout is due by now, and waits for ever exactly when none ever is. Otherwise it
   waits for the earliest, or, if that is later, for the largest number of milliseconds that poll takes.
   */
  ghost predicate InTime(times: set<int>, now: u64, ms: Option<int>) {
    && (ms == None <==> exists time :: time in times && time <= now)
    && (ms == Some(-1) <==> times == {})
    && (ms.Some? && ms.value != -1 ==>
          && 0 < ms.value <= 0x7fff_ffff && (forall time :: time in times ==> now + ms.value <= time)
          && (ms.value < 0x7fff_ffff ==> now + ms.value in times))
  }

  /** Poll is given the right time. */
  lemma {:induction false} PollInTime(ts: seq<Ticket>, now: u64)
    ensures InTime(Expiries(ts), now, PollTime(Earliest(ts, |ts|), now))
  {
    var term := Earliest(ts, |ts|);
    EarliestMet(ts, |ts|);
    forall time | time in Expiries(ts) ensures term <= time < Forever {
      var i: nat :| i < |ts| && ts[i].kind == TimeoutKind && ts[i].Due() == time;
      EarliestBelow(ts, i, |ts|);
    }
    assert term == Forever || term in Expiries(ts);
  }

  lemma {:induction false} EarliestMet(ts: seq<Ticket>, n: nat)
    requires n <= |ts|
    ensures Earliest(ts, n) < Forever ==>
              exists i: nat {:trigger ts[i]} :: i < n && ts[i].kind == TimeoutKind && ts[i].Due() == Earliest(ts, n)
  {
    if n > 0 {
      EarliestMet(ts, n - 1);
    }
  }

  lemma {:induction false} EarliestBelow(ts: seq<Ticket>, i: nat, n: nat)
    requires i < n <= |ts| && ts[i].kind.TimeoutKind?
    ensures Earliest(ts, n) <= ts[i].Due()
  {
    if i < n - 1 {
      EarliestBelow(ts, i, n - 1);
    }
  }

  /** Whose callbacks run: tickets that fire and had not fired before. */
  function Fresh(ts: seq<Ticket>, fd: Option<u32>, now: u64, n: nat): seq<Ticket>
    requires n <= |ts|
    reads ts
  {
    if n == 0 then [] else Fresh(ts, fd, now, n - 1) + if ts[n - 1].Fires(fd, now) &&
      !ts[n - 1].updated then [ts[n - 1]] else []
  }

  /** The first that is ready among n. */
  predicate FirstOf(ready: nat -> bool, n: nat, c: nat) {
    c < n && ready(c) && forall j: nat :: j < c ==> !ready(j)
  }

  lemma {:induction false} FirstReadyFirst(ready: nat -> bool, n: nat)
    ensures FirstReady(ready, n) >= 0 ==> FirstOf(ready, n, FirstReady(ready, n))
    ensures FirstReady(ready, n) < 0 ==> forall c: nat :: c < n ==> !ready(c)
    ensures forall c: nat :: FirstOf(ready, n, c) ==> FirstReady(ready, n) == c
  {
    if n > 0 {
      FirstReadyFirst(ready, n - 1);
    }
  }

  lemma {:induction false} WithOneMore(ts: seq<Ticket>, t: Ticket)
    requires Distinct(ts) && t !in ts && !t.kind.FdKind?
    ensures Distinct(ts + [t]) && NumFds(ts + [t], |ts| + 1) <= |ts|
  {
    forall i: nat, j: nat ensures Apart(ts + [t], i, j) {
      assert Apart(ts, i, j);
    }
  }

  /** The capacity that the additions of tickets leave when there are `count` of them. */
  function Room(count: nat): nat {
    if count == 0 then 0 else 32 * ((count - 1) / 32) + 33
  }

  lemma {:induction false} RoomSuffices(count: nat)
    ensures count > 0 ==> count + 1 <= Room(count)
    ensures Room(count) <= Room(count + 1)
    ensures count % 32 == 0 ==> Room(count + 1) == count + 33
    ensures count % 32 != 0 ==> Room(count + 1) == Room(count)
  {
  }

  // ---------- Groups of timeouts ----------

  /** The interval of each timeout ticket. */
  function Keys(ts: seq<Ticket>): (keys: seq<Option<u32>>)
    reads ts`kind, ts`arg
    ensures |keys| == |ts| && forall i :: 0 <= i < |ts| ==> keys[i] == ts[i].Key()
  {
    if ts == [] then [] else Keys(ts[..|ts| - 1]) + [ts[|ts| - 1].Key()]
  }

  /** The first ticket with this key. */
  function Leader(keys: seq<Option<u32>>, key: Option<u32>): (j: nat)
    ensures j <= |keys|
    ensures key in keys ==> j < |keys| && keys[j] == key
    ensures forall i :: 0 <= i < j ==> keys[i] != key
  {
    if keys == [] then 0 else if keys[0] == key then 0 else 1 + Leader(keys[1..], key)
  }

  /** The last of the first n tickets with this key, or -1. */
  function Latest(keys: seq<Option<u32>>, key: Option<u32>, n: nat): (j: int)
    requires n <= |keys|
    ensures -1 <= j < n && (j >= 0 ==> keys[j] == key)
    ensures forall i :: j < i < n ==> keys[i] != key
  {
    if n == 0 then -1 else if keys[n - 1] == key then n - 1 else Latest(keys, key, n - 1)
  }

  /** What ticket k holds once the tickets before i have been handled: its leader's start if its predecessor has. */
  function Synced(keys: seq<Option<u32>>, starts: seq<u64>, i: nat, k: nat): u64
    requires |keys| == |starts| && k < |keys|
  {
    if keys[k].Some? && Latest(keys, keys[k], k) < i then starts[Leader(keys, keys[k])] else starts[k]
  }

  function AllSynced(keys: seq<Option<u32>>, starts: seq<u64>, i: nat): (now: seq<u64>)
    requires |keys| == |starts|
    ensures |now| == |keys|
  {
    seq(|keys|, k requires 0 <= k < |keys| => Synced(keys, starts, i, k))
  }

  /** The next entry from j on with this key, or the end. */
  function NextWith(keys: seq<Option<u32>>, key: Option<u32>, j: nat): (next: nat)
    requires j <= |keys|
    ensures j <= next <= |keys| && (next < |keys| ==> keys[next] == key)
    ensures forall k :: j <= k < next ==> keys[k] != key
    decreases |keys| - j
  {
    if j == |keys| || keys[j] == key then j else NextWith(keys, key, j + 1)
  }

  /** A timeout hands its start on to the next timeout of its interval. */
  function HandOn(keys: seq<Option<u32>>, now: seq<u64>, i: nat): (later: seq<u64>)
    requires |keys| == |now| && i < |keys|
    ensures |later| == |keys|
  {
    var next := NextWith(keys, keys[i], i + 1);
    if keys[i].Some? && next < |keys| then now[next := now[i]] else now
  }

  /** The first n tickets doing so in turn. */
  function HandedOn(keys: seq<Option<u32>>, starts: seq<u64>, n: nat): (now: seq<u64>)
    requires |keys| == |starts| && n <= |keys|
    ensures |now| == |keys|
  {
    if n == 0 then starts else HandOn(keys, HandedOn(keys, starts, n - 1), n - 1)
  }

  /** The next ticket with the key of ticket i, and no other, has i for its predecessor. */
  lemma {:induction false} Successor(keys: seq<Option<u32>>, i: nat, k: nat)
    requires i < |keys| && k < |keys|
    ensures Latest(keys, keys[k], k) == i <==> k == NextWith(keys, keys[i], i + 1)
  {
  }

  /** Every timeout with the start of the first timeout of its interval, and the other tickets as they were. */
  function Shared(keys: seq<Option<u32>>, starts: seq<u64>): (now: seq<u64>)
    requires |keys| == |starts|
    ensures |now| == |keys|
  {
    seq(|keys|, k requires 0 <= k < |keys| => if keys[k].Some? then starts[Leader(keys, keys[k])] else starts[k])
  }

  lemma {:induction false} HandedOnIs(keys: seq<Option<u32>>, starts: seq<u64>, n: nat)
    requires |keys| == |starts| && n <= |keys|
    ensures HandedOn(keys, starts, n) == AllSynced(keys, starts, n)
  {
    if n > 0 {
      HandedOnIs(keys, starts, n - 1);
      HandOnAll(keys, starts, n - 1);
    }
  }

  lemma {:induction false} HandOnAll(keys: seq<Option<u32>>, starts: seq<u64>, n: nat)
    requires |keys| == |starts| && n < |keys|
    ensures HandOn(keys, AllSynced(keys, starts, n), n) == AllSynced(keys, starts, n + 1)
  {
    forall k | 0 <= k < |keys|
      ensures HandOn(keys, AllSynced(keys, starts, n), n)[k] == AllSynced(keys, starts, n + 1)[k] {
      HandOnIs(keys, starts, n, k);
    }
  }

  lemma {:induction false} HandOnIs(keys: seq<Option<u32>>, starts: seq<u64>, n: nat, k: nat)
    requires |keys| == |starts| && n < |keys| && k < |keys|
    ensures HandOn(keys, AllSynced(keys, starts, n), n)[k] == Synced(keys, starts, n + 1, k)
  {
    Successor(keys, n, k);
  }

  /** One hand-over each is enough: the start of the first timeout of an interval reaches all of them. */
  lemma {:induction false} HandingOnShares(keys: seq<Option<u32>>, starts: seq<u64>)
    requires |keys| == |starts|
    ensures HandedOn(keys, starts, |keys|) == Shared(keys, starts)
  {
    HandedOnIs(keys, starts, |keys|);
  }

  /**
   The first timeout of an interval keeps its start, and so do tickets of other kinds. Timeouts of one interval agree
   afterwards, and sharing again changes nothing.
   */
  lemma {:induction false} SharedAgree(keys: seq<Option<u32>>, starts: seq<u64>, i: nat, j: nat)
    requires |keys| == |starts| && i < |keys| && j < |keys|
    ensures keys[i].None? || (forall k :: 0 <= k < i ==> keys[k] != keys[i]) ==> Shared(keys, starts)[i] == starts[i]
    ensures keys[i].Some? && keys[i] == keys[j] ==> Shared(keys, starts)[i] == Shared(keys, starts)[j]
    ensures Shared(keys, Shared(keys, starts)) == Shared(keys, starts)
  {
  }

  /** The start times of the tickets. */
  function Starts(ts: seq<Ticket>): (starts: seq<u64>)
    reads ts`start
    ensures |starts| == |ts| && forall i :: 0 <= i < |ts| ==> starts[i] == ts[i].start
  {
    if ts == [] then [] else Starts(ts[..|ts| - 1]) + [ts[|ts| - 1].start]
  }

  /** The keys and start times of the tickets. */
  ghost predicate Have(ts: seq<Ticket>, keys: seq<Option<u32>>, starts: seq<u64>)
    reads ts`kind, ts`arg, ts`start
  {
    && |keys| == |starts| == |ts|
    && forall i {:trigger ts[i]} {:trigger keys[i]} {:trigger starts[i]} :: 0 <= i < |ts| ==>
         ts[i].Key() == keys[i] && ts[i].start == starts[i]
  }

  class Waiter {
    var tickets: seq<Ticket>
    var pollset: Pollset?
    var count: nat

    /** The array of descriptors has room for a descriptor per ticket and one more. */
    ghost predicate Valid()
      reads this, pollset
    {
      && Distinct(tickets) && count == |tickets|
      && (count > 0 ==> pollset != null)
      && (pollset != null ==> Room(count) <= pollset.fds.Length)
    }

    constructor ()
      ensures Valid() && tickets == [] && pollset == null
    {
      tickets, pollset, count := [], null, 0;
    }

    /** Adds a ticket; every 32nd replaces the array by one with room for the next 32. */
    method AddNull() returns (ticket: Ticket)
      requires Valid()
      modifies this
      ensures Valid() && fresh(ticket) && tickets == old(tickets) + [ticket]
      ensures ticket.kind == NullKind && !ticket.updated
      ensures pollset != null && (pollset == old(pollset) || fresh(pollset))
    {
      ticket := new Ticket();
      tickets := tickets + [ticket];
      RoomSuffices(count);
      if count % 32 == 0 {
        pollset := new Pollset(count + 33);
      }
      count := count + 1;
      forall i: nat, j: nat ensures Apart(tickets, i, j) {
        assert Apart(old(tickets), i, j);
      }
      ticket.SetNull();
    }

    method AddFd(fd: u32) returns (ticket: Ticket)
      requires Valid()
      modifies this
      ensures Valid() && fresh(ticket) && tickets == old(tickets) + [ticket]
      ensures ticket.kind == FdKind && ticket.arg == fd && !ticket.updated
    {
      ticket := AddNull();
      ticket.SetFd(fd);
    }

    method AddTimeout(ms: u32, now: u64) returns (ticket: Ticket)
      requires Valid()
      modifies this
      ensures Valid() && fresh(ticket) && tickets == old(tickets) + [ticket]
      ensures ticket.kind == TimeoutKind && ticket.arg == ms && ticket.start == now && !ticket.updated
    {
      ticket := AddNull();
      ticket.SetTimeout(ms, now);
    }

    /** The array is kept, however few tickets remain. */
    method Delete(ticket: Ticket)
      requires Valid() && ticket in tickets
      modifies this
      ensures Valid() && pollset == old(pollset)
      ensures exists k ::
                0 <= k < |old(tickets)| && old(tickets)[k] == ticket
                && tickets == old(tickets)[..k] + old(tickets)[k + 1..]
    {
      var k :| 0 <= k < |tickets| && tickets[k] == ticket;
      RoomSuffices(count - 1);
      tickets := tickets[..k] + tickets[k + 1..];
      forall i: nat, j: nat ensures Apart(tickets, i, j) {
        assert Apart(old(tickets), if i < k then i else i + 1, if j < k then j else j + 1);
      }
      count := count - 1;
    }

    /**
     Each timeout passes its start on to the next timeout of the same interval only; even so all timeouts of one
     interval end up with the original start of the first, and every other ticket as it was.
     */
    method Synchronize()
      requires Valid()
      modifies tickets`start
      ensures Have(tickets, old(Keys(tickets)), old(HandedOn(Keys(tickets), Starts(tickets), |tickets|)))
    {
      HandAllOver(Keys(tickets), Starts(tickets));
    }

    /** The outer loop. */
    method HandAllOver(ghost keys: seq<Option<u32>>, ghost starts: seq<u64>)
      requires Valid() && Have(tickets, keys, starts)
      modifies tickets`start
      ensures Have(tickets, keys, HandedOn(keys, starts, |tickets|))
    {
      ghost var now := starts;
      var node := 0;
      while node < |tickets|
        invariant 0 <= node <= |tickets| && now == HandedOn(keys, starts, node)
        invariant Have(tickets, keys, now)
      {
        HandOver(node, keys, now);
        now := HandOn(keys, now, node);
        node := node + 1;
      }
    }

    /** The body of the outer loop, for one ticket. */
    method HandOver(node: nat, ghost keys: seq<Option<u32>>, ghost now: seq<u64>)
      requires Valid() && node < |tickets| && Have(tickets, keys, now)
      modifies tickets`start
      ensures Have(tickets, keys, HandOn(keys, now, node))
    {
      var ticket := tickets[node];
      var onode := node + 1;
      if ticket.kind != TimeoutKind {
        return;
      }
      while onode < |tickets|
        invariant node < onode <= |tickets|
        invariant NextWith(keys, keys[node], onode) == NextWith(keys, keys[node], node + 1)
      {
        var oticket := tickets[onode];
        if oticket.kind == TimeoutKind && oticket.arg == ticket.arg {
          oticket.start := ticket.start;
          forall k | 0 <= k < |tickets| ensures tickets[k].start == HandOn(keys, now, node)[k] {
            assert Apart(tickets, k, onode);
          }
          return;
        }
        onode := onode + 1;
      }
    }

    /** Enough room to poll: a place for each descriptor ticket. */
    ghost predicate CanPoll()
      reads this, tickets`kind, pollset
    {
      && Distinct(tickets) && pollset != null
      && NumFds(tickets, |tickets|) <= pollset.fds.Length
    }

    lemma {:induction false} ValidCanPoll()
      requires Valid() && pollset != null
      ensures CanPoll()
    {
      RoomSuffices(count);
    }

    /**
     The first loop of a wait: the earliest time due, and all descriptors stored in ticket order, within the array.
     */
    method Collect() returns (term: u64)
      requires CanPoll()
      modifies pollset, pollset.fds
      ensures term == Earliest(tickets, |tickets|)
      ensures pollset.nfds == NumFds(tickets, |tickets|) <= pollset.fds.Length
      ensures pollset.fds[..pollset.nfds] == Fds(tickets, |tickets|)
    {
      pollset.Reset();
      term := Forever;
      var node := 0;
      while node < |tickets|
        invariant 0 <= node <= |tickets| && CanPoll() && term == Earliest(tickets, node)
        invariant pollset.nfds == NumFds(tickets, node) <= pollset.fds.Length
        invariant pollset.fds[..pollset.nfds] == Fds(tickets, node)
      {
        term := CollectOne(node, term);
        node := node + 1;
      }
    }

    /** One turn of that loop. */
    method CollectOne(node: nat, term: u64) returns (next: u64)
      requires CanPoll() && node < |tickets| && term == Earliest(tickets, node)
      requires pollset.nfds == NumFds(tickets, node) <= pollset.fds.Length
      requires pollset.fds[..pollset.nfds] == Fds(tickets, node)
      modifies pollset`nfds, pollset.fds
      ensures next == Earliest(tickets, node + 1) && pollset.nfds == NumFds(tickets, node + 1) <= pollset.fds.Length
      ensures pollset.fds[..pollset.nfds] == Fds(tickets, node + 1)
    {
      next := term;
      var ticket := tickets[node];
      NumFdsGrows(tickets, node + 1);
      match ticket.kind {
        case TimeoutKind =>
          if ticket.Due() < term {
            next := ticket.Due();
          }
        case FdKind =>
          pollset.AddFd(ticket.arg);
        case NullKind =>
      }
    }

    /**
     The second loop: marks the tickets that fire, restarts the timeouts among them, and calls back the fresh ones.
     */
    method Fire(rc: nat, now: u64) returns (called: seq<Ticket>)
      requires Distinct(tickets) && pollset != null && (rc > 0 ==> pollset.Ok())
      modifies tickets`start, tickets`updated
      ensures var fd := if rc > 0 then pollset.CauseFd() else None;
              && called == old(Fresh(tickets, fd, now, |tickets|))
              && forall i {:trigger tickets[i]} :: 0 <= i < |tickets| ==>
                && tickets[i].updated == old(tickets[i].updated || tickets[i].Fires(fd, now))
                && tickets[i].start ==
                   old(if tickets[i].kind.TimeoutKind? && tickets[i].Fires(fd, now) then now else tickets[i].start)
    {
      called := [];
      ghost var fd := if rc > 0 then pollset.CauseFd() else None;
      var node := 0;
      while node < |tickets|
        invariant 0 <= node <= |tickets| && called == old(Fresh(tickets, fd, now, node))
        invariant forall i {:trigger tickets[i]} :: 0 <= i < node ==>
          && tickets[i].updated == old(tickets[i].updated || tickets[i].Fires(fd, now))
          && tickets[i].start ==
             old(if tickets[i].kind.TimeoutKind? && tickets[i].Fires(fd, now) then now else tickets[i].start)
        invariant forall i {:trigger tickets[i]} :: node <= i < |tickets| ==>
          tickets[i].updated == old(tickets[i].updated) && tickets[i].start == old(tickets[i].start)
      {
        var ticket := tickets[node];
        forall i | 0 <= i < |tickets| ensures tickets[i] == ticket ==> i == node {
          assert Apart(tickets, i, node);
        }
        var firing := false;
        match ticket.kind {
          case TimeoutKind =>
            if now >= ticket.Due() {
              ticket.start := now;
              firing := !ticket.updated;
            }
          case FdKind =>
            if rc > 0 {
              var caused := pollset.Caused(ticket.arg);
              firing := caused && !ticket.updated;
            }
          case NullKind =>
        }
        if firing {
          ticket.updated := true;
          called := called + [ticket];
        }
        node := node + 1;
      }
    }

    /** Polls, unless the time has passed, and finds the descriptor that ended the poll. */
    method Poll(term: u64, now: u64, polled: int, ready: nat -> bool) returns (ms: Option<int>, rc: int)
      requires pollset != null && pollset.nfds <= pollset.fds.Length
      modifies pollset`cause
      ensures ms == PollTime(term, now) && rc == if ms.None? then 0 else polled
      ensures rc > 0 ==> pollset.cause == FirstReady(ready, pollset.nfds)
    {
      rc := 0;
      ms := PollTime(term, now);
      if ms.Some? {
        rc := polled;
        pollset.Wait(polled, ready);
      }
    }

    /** The body of a wait. */
    method WaitOnce(now: u64, polled: int, ready: nat -> bool, later: u64)
      returns (ms: Option<int>, called: seq<Ticket>)
      requires CanPoll()
      modifies tickets`start, tickets`updated, pollset, pollset.fds
      ensures ms == old(PollTime(Earliest(tickets, |tickets|), now))
      ensures pollset.nfds == NumFds(tickets, |tickets|) <= pollset.fds.Length
      ensures pollset.fds[..pollset.nfds] == old(Fds(tickets, |tickets|))
      ensures var rc, fds := if ms.None? then 0 else polled, old(Fds(tickets, |tickets|));
              var fd := if rc > 0 && FirstReady(ready, |fds|) >= 0 then Some(fds[FirstReady(ready, |fds|)]) else None;
              && called == (if rc < 0 then [] else old(Fresh(tickets, fd, later, |tickets|)))
              && forall i {:trigger tickets[i]} :: 0 <= i < |tickets| ==>
                && tickets[i].updated == old(tickets[i].updated || (rc >= 0 && tickets[i].Fires(fd, later)))
                && tickets[i].start ==
                   old(if rc >= 0 && tickets[i].kind.TimeoutKind? && tickets[i].Fires(fd, later) then later
                       else tickets[i].start)
    {
      var term := Collect();
      var rc;
      ms, rc := Poll(term, now, polled, ready);
      called := [];
      if rc < 0 {
        return;
      }
      called := Fire(rc, later);
    }

    /**
     Waits once. Parameters stand for the clock before and after, and for what poll answers. Unless poll fails, the
     timeouts that are due fire and start again; if it finds a descriptor ready, all tickets of the first such
     descriptor fire. A callback is run for each ticket that has not fired before, in the order of the tickets.
     */
    method Wait(now: u64, polled: int, ready: nat -> bool, later: u64) returns (ms: Option<int>, called: seq<Ticket>)
      requires CanPoll()
      modifies tickets`start, tickets`updated, pollset, pollset.fds
      ensures InTime(old(Expiries(tickets)), now, ms)
      ensures pollset.nfds <= pollset.fds.Length && pollset.fds[..pollset.nfds] == old(Fds(tickets, |tickets|))
      ensures forall i {:trigger tickets[i]} :: 0 <= i < |tickets| ==>
                var was, start := old(tickets[i].updated), old(tickets[i].start);
                match tickets[i].kind
                case NullKind => tickets[i].updated == was && tickets[i].start == start
                case TimeoutKind =>
                  var fires := !(ms.Some? && polled < 0) && later >= (start + tickets[i].arg) % 0x1_0000_0000_0000_0000;
                  tickets[i].updated == (was || fires) && tickets[i].start == if fires then later else start
                case FdKind =>
                  var fires := ms.Some? && polled > 0 &&
                               exists c: nat :: FirstOf(ready, pollset.nfds, c) && pollset.fds[c] == tickets[i].arg;
                  tickets[i].updated == (was || fires) && tickets[i].start == start
      ensures var rc, fds := if ms.None? then 0 else polled, old(Fds(tickets, |tickets|));
              var fd := if rc > 0 && FirstReady(ready, |fds|) >= 0 then Some(fds[FirstReady(ready, |fds|)]) else None;
              called == (if rc < 0 then [] else old(Fresh(tickets, fd, later, |tickets|)))
    {
      PollInTime(tickets, now);
      FirstReadyFirst(ready, |Fds(tickets, |tickets|)|);
      ms, called := WaitOnce(now, polled, ready, later);
    }

    /** A wait, and what it means for one timeout. */
    method WaitFor(ghost i: nat, now: u64, polled: int, ready: nat -> bool, later: u64)
      requires CanPoll() && i < |tickets| && tickets[i].kind.TimeoutKind? && !tickets[i].updated
      modifies tickets`start, tickets`updated, pollset, pollset.fds
      ensures tickets[i].updated ==> later >= old(tickets[i].Due())
      ensures polled >= 0 && later >= old(tickets[i].Due()) ==> tickets[i].updated
    {
      assert tickets[i].kind.TimeoutKind?;
      var _, _ := Wait(now, polled, ready, later);
    }

    /**
     Waits with a ticket of its own in the list, for which the array is not resized. Returns -1 when that ticket fired.
     */
    method WaitTimeout(ms: u32, start: u64, now: u64, polled: int, ready: nat -> bool, later: u64) returns (rc: int)
      requires Valid() && pollset != null
      modifies this, tickets`start, tickets`updated, pollset, pollset.fds
      ensures Valid() && tickets == old(tickets) && pollset == old(pollset)
      ensures rc == 0 || rc == -1
      ensures rc == -1 ==> later >= (start + ms) % TwoTo64
      ensures polled >= 0 && later >= (start + ms) % TwoTo64 ==> rc == -1
    {
      var ticket := new Ticket();
      ticket.SetTimeout(ms, start);
      WaitWith(ticket, now, polled, ready, later);
      var checked := ticket.Check();
      rc := if checked == 0 then -1 else 0;
    }

    /** A wait with one more timeout, which is taken out again. */
    method WaitWith(ticket: Ticket, now: u64, polled: int, ready: nat -> bool, later: u64)
      requires Valid() && pollset != null && ticket !in tickets && ticket.kind.TimeoutKind? && !ticket.updated
      modifies this, ticket, tickets`start, tickets`updated, pollset, pollset.fds
      ensures Valid() && tickets == old(tickets) && pollset == old(pollset)
      ensures ticket.updated ==> later >= old(ticket.Due())
      ensures polled >= 0 && later >= old(ticket.Due()) ==> ticket.updated
    {
      ghost var was := tickets;
      WithOneMore(was, ticket);
      tickets := tickets + [ticket];
      count := count + 1;
      assert tickets[|was|] == ticket;
      WaitFor(|was|, now, polled, ready, later);
      tickets := tickets[..|tickets| - 1];
      count := count - 1;
    }
  }
}

/** In which order the waiter hands descriptors to poll, and runs callbacks. */
module WaiterOrder {
  import opened Bytes
  import opened Waiter

  /** The tickets for descriptors before ticket i. */
  ghost function FdsBefore(ts: seq<Ticket>, i: nat): set<nat>
    requires i <= |ts|
    reads ts`kind
  {
    set j: nat | j < i && ts[j].kind == FdKind
  }

  /** Descriptors stand in the order of their tickets. */
  lemma {:induction false} FdsRanked(ts: seq<Ticket>, n: nat)
    requires n <= |ts|
    ensures |FdsBefore(ts, n)| == |Fds(ts, n)|
    ensures forall i: nat {:trigger FdsBefore(ts, i)} :: i < n && ts[i].kind == FdKind ==>
              |FdsBefore(ts, i)| < |Fds(ts, n)| && Fds(ts, n)[|FdsBefore(ts, i)|] == ts[i].arg
  {
    if n > 0 {
      FdsRanked(ts, n - 1);
      var before := FdsBefore(ts, n - 1);
      assert FdsBefore(ts, n) == if ts[n - 1].kind == FdKind then before + {n - 1} else before;
    }
  }

  ghost predicate IsFresh(t: Ticket, fd: Option<u32>, now: u64)
    reads t
  {
    t.Fires(fd, now) && !t.updated
  }

  /** The tickets before ticket i that fire now and have not fired before. */
  ghost function FreshBefore(ts: seq<Ticket>, fd: Option<u32>, now: u64, i: nat): set<nat>
    requires i <= |ts|
    reads ts
  {
    set j: nat | j < i && IsFresh(ts[j], fd, now)
  }

  lemma {:induction false} FreshCounted(ts: seq<Ticket>, fd: Option<u32>, now: u64, n: nat)
    requires n <= |ts|
    ensures |FreshBefore(ts, fd, now, n)| == |Fresh(ts, fd, now, n)|
  {
    if n > 0 {
      FreshCounted(ts, fd, now, n - 1);
      var before := FreshBefore(ts, fd, now, n - 1);
      assert FreshBefore(ts, fd, now, n) == if IsFresh(ts[n - 1], fd, now) then before + {n - 1} else before;
    }
  }

  /** Callbacks run in the order of the tickets, once for each that fires and has not fired before. */
  lemma {:induction false} FreshRanked(ts: seq<Ticket>, fd: Option<u32>, now: u64, n: nat, i: nat)
    requires i < n <= |ts|
    ensures |FreshBefore(ts, fd, now, n)| == |Fresh(ts, fd, now, n)|
    ensures IsFresh(ts[i], fd, now) ==>
              |FreshBefore(ts, fd, now, i)| < |Fresh(ts, fd, now, n)| &&
              Fresh(ts, fd, now, n)[|FreshBefore(ts, fd, now, i)|] == ts[i]
  {
    FreshCounted(ts, fd, now, n);
    if i < n - 1 {
      FreshRanked(ts, fd, now, n - 1, i);
    } else {
      FreshCounted(ts, fd, now, i);
    }
  }
}
