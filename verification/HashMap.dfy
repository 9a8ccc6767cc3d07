/** The hash map of src/map.c: an array of slots updated in place, proved against the table functions. */
module HashMap {
  import opened Bytes
  import opened ProbeTable

  class Map<V> {
    var count: nat
    var data: array<Slot<V>>

    /** The count is the number of live slots, and every live entry can be reached from its home. */
    ghost predicate Valid()
      reads this, data
    {
      count == NumLive(data[..], data.Length) && Reachable(data[..])
    }

    ghost predicate OneEach()
      reads this, data
    {
      OnceEach(data[..])
    }

    ghost function Contents(): map<u32, V>
      reads this, data
    {
      View(data[..])
    }

    ghost predicate NoTombstones()
      reads this, data
    {
      Clean(data[..])
    }

    /** Putting this key keeps every key live once. */
    ghost predicate Reputtable(key: u32)
      reads this, data
    {
      Free(data[..], key)
    }

    constructor ()
      ensures Valid() && OneEach() && NoTombstones() && Contents() == map[] && count == 0 && data.Length == 0
      ensures fresh(data)
    {
      count := 0;
      data := new Slot<V>[0];
      new;
      EmptyTable(data[..]);
      Seen(data[..]);
    }

    /** The slot to write for a key, or -1 when all slots are live; claims the slot in the count when it was free. */
    method Hash(key: u32) returns (rc: int)
      requires Valid()
      modifies `count
      ensures rc == -1 <==> old(count) == data.Length
      ensures rc >= 0 <==> old(count) < data.Length
      ensures rc >= 0 ==> Claim(data[..], key) == Some(rc)
      ensures count == old(count) + if rc >= 0 && !data[rc].Live? then 1 else 0
    {
      if count == data.Length {
        return -1;
      }
      ClaimFirst(data[..], key);
      var n: nat := data.Length;
      var k: int := key;
      var idx: nat := k % n;
      var i := 0;
      while i < n
        invariant 0 <= i <= n && idx < n
        invariant Claim(data[..], key) == Probe(data[..], key, idx, n - i)
        invariant count == old(count)
      {
        var e := data[idx];
        if e.Empty? || e.Deleted? {
          count := count + 1;
          return idx;
        }
        if e.key == key {
          return idx;
        }
        idx := Next(n, idx);
        i := i + 1;
      }
      return -2;
    }

    /**
     Stores the item under the key, rebuilding the table first when it is full, and returns what its slot held. The map
     is updated at the key in any case; the key stays live once exactly when no tombstone lay ahead of it.
     */
    method Reput(key: u32, item: V) returns (replaced: Option<V>)
      requires Valid()
      modifies this, data
      ensures Valid() && (fresh(data) || data == old(data))
      ensures data.Length == old(data.Length) + if old(count) == old(data.Length) then Growth else 0
      ensures old(OneEach()) || old(count) < old(data.Length) ==> Contents() == old(Contents())[key := item]
      ensures old(OneEach()) ==> (OneEach() <==> old(Reputtable(key)))
      ensures old(OneEach()) ==>
                replaced == if old(Reputtable(key)) && key in old(Contents()) then Some(old(Contents())[key]) else None
      ensures old(NoTombstones()) ==> NoTombstones()
      ensures OneEach() ==> Reputtable(key)
      ensures forall k: u32 {:trigger Free(data[..], k)} :: k != key && old(Reputtable(k)) ==> Free(data[..], k)
      ensures data[..] == Entered(old(data[..]), key, item)
      ensures count <= old(count) + 1
      decreases if count == data.Length then 2 else 0, 1
    {
      var rc := ClaimSlot(key);
      replaced := Store(rc, key, item);
    }

    /** The loop of Reput: rebuild until a slot can be claimed, which takes at most one rebuild. */
    method ClaimSlot(key: u32) returns (rc: nat)
      requires Valid()
      modifies this, data
      ensures Reachable(data[..]) && Claim(data[..], key) == Some(rc)
      ensures count == NumLive(data[..], data.Length) + if data[rc].Live? then 0 else 1
      ensures fresh(data) || data == old(data)
      ensures old(OneEach()) || old(count) < old(data.Length) ==> Contents() == old(Contents())
      ensures old(OneEach()) ==> OneEach()
      ensures Reputtable(key) <==> old(Reputtable(key))
      ensures old(NoTombstones()) ==> NoTombstones()
      ensures forall k: u32 {:trigger Free(data[..], k)} :: old(Reputtable(k)) ==> Free(data[..], k)
      ensures data[..] == if old(count) == old(data.Length)
                          then Resettled(old(data[..]), old(data.Length), old(data.Length) + Growth)
                          else old(data[..])
      ensures count <= old(count) + 1
      decreases if count == data.Length then 2 else 0, 0
    {
      ghost var was := data[..];
      var r := Hash(key);
      while r < 0
        invariant data == old(data) || fresh(data)
        invariant r < 0 ==> data == old(data) && data[..] == was && count == old(count) == data.Length
        invariant r >= 0 ==> Claim(data[..], key) == Some(r) && Reachable(data[..])
        invariant r >= 0 ==> count == NumLive(data[..], data.Length) + if data[r].Live? then 0 else 1
        invariant count <= old(count) + 1
        invariant old(count) < |was| ==> data == old(data) && data[..] == was
        invariant r >= 0 && old(count) == |was| ==>
                    fresh(data) && NoTombstones() && OneEach() && data.Length == |was| + Growth
        invariant OnceEach(was) ==> OneEach() && Contents() == View(was)
        invariant Free(data[..], key) <==> Free(was, key)
        invariant forall k: u32 {:trigger Free(data[..], k)} :: Free(was, k) ==> Free(data[..], k)
        invariant r >= 0 && old(count) == |was| ==> data[..] == Resettled(was, |was|, |was| + Growth)
        decreases if r < 0 then 1 else 0
      {
        Rehash();
        FullHasNone(was);
        Seen(was);
        CleanIsFree(was, key);
        AllFree(data[..]);
        r := Hash(key);
      }
      rc := r;
    }

    /** The end of Reput. */
    method Store(rc: nat, key: u32, item: V) returns (replaced: Option<V>)
      requires Reachable(data[..]) && Claim(data[..], key) == Some(rc)
      requires count == NumLive(data[..], data.Length) + if data[rc].Live? then 0 else 1
      modifies data
      ensures Valid() && Contents() == old(Contents())[key := item]
      ensures old(OneEach()) ==> (OneEach() <==> old(Reputtable(key)))
      ensures old(OneEach()) ==>
                replaced == if old(Reputtable(key)) && key in old(Contents()) then Some(old(Contents())[key]) else None
      ensures old(NoTombstones()) ==> NoTombstones()
      ensures OneEach() ==> Reputtable(key)
      ensures forall k: u32 {:trigger Free(data[..], k)} :: k != key && old(Reputtable(k)) ==> Free(data[..], k)
      ensures data[..] == Stored(old(data[..]), key, item)
    {
      ghost var now := data[..];
      Seen(now);
      PutDone(now, key, item);
      replaced := if data[rc].Live? then Some(data[rc].item) else None;
      data[rc] := Live(key, item);
      assert data[..] == now[rc := Live(key, item)];
      Seen(data[..]);
      PutStillFree(now, key, item, data[..]);
    }

    method Put(key: u32, item: V)
      requires Valid()
      modifies this, data
      ensures Valid() && (fresh(data) || data == old(data))
      ensures data.Length == old(data.Length) + if old(count) == old(data.Length) then Growth else 0
      ensures old(OneEach()) || old(count) < old(data.Length) ==> Contents() == old(Contents())[key := item]
      ensures old(OneEach()) ==> (OneEach() <==> old(Reputtable(key)))
      ensures old(NoTombstones()) ==> NoTombstones()
      ensures data[..] == Entered(old(data[..]), key, item)
      ensures count <= old(count) + 1
      decreases if count == data.Length then 2 else 0, 2
    {
      var _ := Reput(key, item);
    }

    /** A larger table with the live entries put again one by one; a key live twice keeps its last entry. */
    method Rehash()
      requires Valid()
      modifies this, data
      ensures Valid() && OneEach() && NoTombstones() && fresh(data)
      ensures data.Length == old(data.Length) + Growth && count <= old(count)
      ensures Contents() == Entries(old(data[..]), old(data.Length))
      ensures data[..] == Resettled(old(data[..]), old(data.Length), data.Length)
      ensures old(OneEach()) ==> Contents() == old(Contents()) && count == old(count)
      decreases 1
    {
      var oldT := data;
      ghost var s := data[..];
      data := new Slot<V>[oldT.Length + Growth](_ => Empty);
      count := 0;
      EmptyTable(data[..]);
      Seen(data[..]);
      assert data[..] == Resettled(s, 0, |s| + Growth);
      for i := 0 to oldT.Length
        invariant Valid() && OneEach() && NoTombstones() && fresh(data) && data != oldT
        invariant oldT[..] == s && data.Length == |s| + Growth && count <= NumLive(s, i)
        invariant Contents() == Entries(s, i) && data[..] == Resettled(s, i, |s| + Growth)
      {
        if oldT[i].Live? {
          CleanIsFree(data[..], oldT[i].key);
          Put(oldT[i].key, oldT[i].item);
        }
      }
      Seen(s);
      Seen(data[..]);
      if Unique(s) {
        EntriesAreView(s);
        SameSize(data[..], s);
      }
    }

    /** The slot of a live entry for the key. */
    method FindEntry(key: u32) returns (e: Option<nat>)
      requires Valid()
      ensures e == Find(data[..], key)
    {
      if data.Length == 0 {
        return None;
      }
      var n: nat := data.Length;
      var k: int := key;
      var idx: nat := k % n;
      var i := 0;
      while i < n
        invariant 0 <= i <= n && idx < n
        invariant Find(data[..], key) == Seek(data[..], key, idx, n - i)
      {
        var at := idx;
        idx := Next(n, idx);
        i := i + 1;
        if data[at].Empty? {
          break;
        }
        if data[at].Live? && data[at].key == key {
          return Some(at);
        }
      }
      return None;
    }

    method Contains(key: u32) returns (found: bool)
      requires Valid()
      ensures found <==> key in Contents()
    {
      var e := FindEntry(key);
      ViewIsFind(data[..], key);
      found := e.Some?;
    }

    method Get(key: u32) returns (item: Option<V>)
      requires Valid()
      ensures item == if key in Contents() then Some(Contents()[key]) else None
    {
      var e := FindEntry(key);
      ViewIsFind(data[..], key);
      item := if e.Some? then Some(data[e.value].item) else None;
    }

    /** Turns the entry found for the key into a tombstone. */
    method Remove(key: u32) returns (rc: int)
      requires Valid()
      modifies `count, data
      ensures Valid() && rc == (if key in old(Contents()) then 0 else 1)
      ensures rc == 1 ==> data[..] == old(data[..]) && count == old(count)
      ensures rc == 0 ==>
                old(Find(data[..], key)).Some? && data[..] == old(data[..][Find(data[..], key).value := Deleted]) &&
                  count == old(count) - 1
      ensures old(OneEach()) ==> OneEach() && Contents() == old(Contents()) - {key}
      ensures rc == 0 ==> (key !in Contents() <==> old(NoOther(data[..], key)))
    {
      var e := FindEntry(key);
      ghost var s := data[..];
      ViewIsFind(s, key);
      rc := 1;
      if e.Some? {
        Seen(s);
        RemoveDone(s, key);
        data[e.value] := Deleted;
        assert data[..] == s[e.value := Deleted];
        Seen(data[..]);
        count := count - 1;
        rc := 0;
      }
    }

    /** The length is the number of keys as long as every key is live once. */
    method Length() returns (n: nat)
      requires Valid()
      ensures n == count && (OneEach() ==> n == |Contents()|)
    {
      n := count;
      Seen(data[..]);
      if Unique(data[..]) {
        CountIsSize(data[..], data.Length);
        EntriesAreView(data[..]);
      }
    }

    /** Empties the table and hands every live item to the caller, in slot order. */
    method Clear() returns (released: seq<V>)
      requires Valid()
      modifies `count, data
      ensures Valid() && OneEach() && NoTombstones() && Contents() == map[] && count == 0
      ensures released == Items(old(data[..]), data.Length)
    {
      released := [];
      for i := 0 to data.Length
        invariant forall k :: 0 <= k < i ==> data[k].Empty?
        invariant forall k :: i <= k < data.Length ==> data[k] == old(data[k])
        invariant released == Items(old(data[..]), i)
      {
        if data[i].Empty? {
          continue;
        }
        if !data[i].Deleted? {
          released := released + [data[i].item];
        }
        data[i] := Empty;
      }
      count := 0;
      EmptyTable(data[..]);
      Seen(data[..]);
    }

    /** The slot an iterator stands at, or the end of the table. */
    ghost function Pos(iter: Option<nat>): nat
      reads this
    {
      if iter.Some? then iter.value else data.Length
    }

    /** The iterator stands at the first live slot from `start` on. */
    ghost predicate From(start: nat, iter: Option<nat>)
      reads this, data
    {
      && start <= Pos(iter) <= data.Length && NoneLive(data[..], start, Pos(iter))
      && (iter.Some? ==> iter.value < data.Length && data[iter.value].Live?)
    }

    method IterFrom(start: nat) returns (iter: Option<nat>)
      requires start <= data.Length
      ensures From(start, iter)
    {
      var i := start;
      while i < data.Length
        invariant start <= i <= data.Length && NoneLive(data[..], start, i)
      {
        if data[i].Live? {
          return Some(i);
        }
        i := i + 1;
      }
      return None;
    }

    method IterFirst() returns (iter: Option<nat>)
      ensures From(0, iter) && Items(data[..], Pos(iter)) == []
    {
      iter := IterFrom(0);
      ItemsSkip(data[..], 0, Pos(iter));
    }

    method IterNext(at: nat) returns (iter: Option<nat>)
      requires at < data.Length
      ensures From(at + 1, iter)
      ensures Items(data[..], Pos(iter)) == Items(data[..], at) + if data[at].Live? then [data[at].item] else []
    {
      iter := IterFrom(at + 1);
      ItemsSkip(data[..], at + 1, Pos(iter));
    }
  }
}
