/** The intrusive doubly linked list of src/list.h: items rewired in place, proved against one sequence of items. */
module LinkedList {

  class Item<T> {
    const data: T
    var next: Item?<T>
    var prev: Item?<T>

    constructor (data: T)
      ensures this.data == data && next == null && prev == null
    {
      this.data := data;
      next, prev := null, null;
    }
  }

  ghost predicate Apart<T>(s: seq<Item<T>>, i: nat, j: nat) {
    i < |s| && j < |s| && s[i] == s[j] ==> i == j
  }

  ghost predicate NoDuplicates<T>(s: seq<Item<T>>) {
    forall i: nat, j: nat {:trigger Apart(s, i, j)} :: Apart(s, i, j)
  }

  /** The sequence with an item inserted at position k. */
  function Inserted<T>(s: seq<Item<T>>, k: nat, x: Item<T>): (t: seq<Item<T>>)
    requires k <= |s|
    ensures |t| == |s| + 1
  {
    seq(|s| + 1, i requires 0 <= i <= |s| => if i < k then s[i] else if i == k then x else s[i - 1])
  }

  /** The sequence without its k-th item. */
  function Cut<T>(s: seq<Item<T>>, k: nat): (t: seq<Item<T>>)
    requires k < |s|
    ensures |t| == |s| - 1
  {
    seq(|s| - 1, i requires 0 <= i < |s| - 1 => if i < k then s[i] else s[i + 1])
  }

  lemma {:induction false} InsertedApart<T>(s: seq<Item<T>>, k: nat, x: Item<T>)
    requires NoDuplicates(s) && k <= |s| && x !in s
    ensures NoDuplicates(Inserted(s, k, x))
  {
    var t := Inserted(s, k, x);
    forall i: nat, j: nat ensures Apart(t, i, j) {
      if i != j && i != k && j != k {
        assert Apart(s, if i < k then i else i - 1, if j < k then j else j - 1);
      }
    }
  }

  lemma {:induction false} CutApart<T>(s: seq<Item<T>>, k: nat)
    requires NoDuplicates(s) && k < |s|
    ensures NoDuplicates(Cut(s, k)) && s[k] !in Cut(s, k)
  {
    var t := Cut(s, k);
    forall i: nat, j: nat ensures Apart(t, i, j) {
      assert Apart(s, if i < k then i else i + 1, if j < k then j else j + 1);
    }
    forall i | 0 <= i < |t| ensures t[i] != s[k] {
      assert Apart(s, if i < k then i else i + 1, k);
    }
  }

  /** The items that a sweep leaves, in order. */
  function Kept<T>(s: seq<Item<T>>, drop: T -> bool): seq<Item<T>> {
    if s == [] then [] else if drop(s[0].data) then Kept(s[1..], drop) else [s[0]] + Kept(s[1..], drop)
  }

  lemma {:induction false} KeptMembers<T>(s: seq<Item<T>>, drop: T -> bool, x: Item<T>)
    ensures x in Kept(s, drop) <==> x in s && !drop(x.data)
  {
    if s != [] {
      KeptMembers(s[1..], drop, x);
    }
  }

  /** The values of the items. */
  function Values<T>(s: seq<Item<T>>): (v: seq<T>)
    ensures |v| == |s| && forall i :: 0 <= i < |s| ==> v[i] == s[i].data
  {
    seq(|s|, i requires 0 <= i < |s| => s[i].data)
  }

  /** The sequence after the first i turns of a sweep. */
  function Swept<T>(s: seq<Item<T>>, i: nat, drop: T -> bool): seq<Item<T>>
    requires i <= |s|
  {
    if i == 0 then s else if drop(s[0].data) then Swept(s[1..], i - 1, drop) else [s[0]] + Swept(s[1..], i - 1, drop)
  }

  lemma {:induction false} CutAfter<T>(x: Item<T>, rest: seq<Item<T>>, k: nat)
    requires k < |rest|
    ensures Cut([x] + rest, k + 1) == [x] + Cut(rest, k)
  {
  }

  /** Turn i finds item i, followed by item i + 1, and takes it out if it is to be dropped. */
  lemma {:induction false} SweptStep<T>(s: seq<Item<T>>, i: nat, drop: T -> bool) returns (k: nat)
    requires i < |s|
    ensures var now := Swept(s, i, drop);
            && k < |now| && now[k] == s[i]
            && (if i + 1 < |s| then k + 1 < |now| && now[k + 1] == s[i + 1] else k + 1 == |now|)
            && Swept(s, i + 1, drop) == if drop(s[i].data) then Cut(now, k) else now
  {
    if i == 0 {
      k := 0;
      assert [s[0]] + s[1..] == s && Cut(s, 0) == s[1..];
    } else {
      k := SweptStep(s[1..], i - 1, drop);
      if !drop(s[0].data) {
        CutAfter(s[0], Swept(s[1..], i - 1, drop), k);
        k := k + 1;
      }
    }
  }

  lemma {:induction false} SweptMembers<T>(s: seq<Item<T>>, i: nat, drop: T -> bool, x: Item<T>)
    requires i <= |s| && x in Swept(s, i, drop)
    ensures x in s
  {
    if i > 0 && x in Swept(s[1..], i - 1, drop) {
      SweptMembers(s[1..], i - 1, drop, x);
    }
  }

  /** Turn i of a sweep over s, which finds `now` and leaves `next`, with item i at position k. */
  ghost predicate Turn<T>(s: seq<Item<T>>, i: nat, drop: T -> bool, now: seq<Item<T>>, next: seq<Item<T>>, k: nat)
    requires i < |s|
  {
    && k < |now| && now[k] == s[i]
    && (if i + 1 < |s| then k + 1 < |now| && now[k + 1] == s[i + 1] else k + 1 == |now|)
    && next == (if drop(s[i].data) then Cut(now, k) else now)
    && forall j {:trigger now[j]} :: 0 <= j < |now| ==> now[j] in s
  }

  lemma {:induction false} SweptAll<T>(s: seq<Item<T>>, drop: T -> bool)
    ensures Swept(s, |s|, drop) == Kept(s, drop)
  {
    if s != [] {
      SweptAll(s[1..], drop);
    }
  }

  /** All the turns of a sweep: the sequences between them and the positions. */
  lemma {:induction false} Sweep<T>(s: seq<Item<T>>, drop: T -> bool) returns (stage: seq<seq<Item<T>>>, at: seq<nat>)
    ensures |stage| == |s| + 1 && |at| == |s| && stage[0] == s && stage[|s|] == Kept(s, drop)
    ensures forall i {:trigger at[i]} :: 0 <= i < |s| ==> Turn(s, i, drop, stage[i], stage[i + 1], at[i])
  {
    stage, at := [s], [];
    for i := 0 to |s|
      invariant |stage| == i + 1 && |at| == i && stage[0] == s && stage[i] == Swept(s, i, drop)
      invariant forall j {:trigger at[j]} :: 0 <= j < i ==> Turn(s, j, drop, stage[j], stage[j + 1], at[j])
    {
      var k := SweptStep(s, i, drop);
      forall j | 0 <= j < |stage[i]| ensures stage[i][j] in s {
        SweptMembers(s, i, drop, stage[i][j]);
      }
      stage, at := stage + [Swept(s, i + 1, drop)], at + [k];
    }
    SweptAll(s, drop);
  }

  class List<T> {
    var head: Item?<T>
    var tail: Item?<T>
    ghost var items: seq<Item<T>>

    ghost predicate NextRight(i: nat)
      reads this, items
    {
      i < |items| ==> items[i].next == if i + 1 < |items| then items[i + 1] else null
    }

    ghost predicate PrevRight(i: nat)
      reads this, items
    {
      i < |items| ==> items[i].prev == if i > 0 then items[i - 1] else null
    }

    /** The ends and every next pointer follow the sequence. */
    ghost predicate Forward()
      reads this, items
    {
      && NoDuplicates(items)
      && head == (if items == [] then null else items[0])
      && tail == (if items == [] then null else items[|items| - 1])
      && forall i {:trigger NextRight(i)} :: NextRight(i)
    }

    /** Every prev pointer does. */
    ghost predicate Backward()
      reads this, items
    {
      forall i {:trigger PrevRight(i)} :: PrevRight(i)
    }

    ghost predicate Valid()
      reads this, items
    {
      Forward() && Backward()
    }

    constructor ()
      ensures Valid() && items == []
    {
      head, tail, items := null, null, [];
    }

    method Append(item: Item<T>)
      requires Valid() && item !in items
      modifies this, items, item
      ensures Valid() && items == old(items) + [item]
    {
      ghost var was := items;
      ghost var n := |was|;
      InsertedApart(was, n, item);
      assert Inserted(was, n, item) == was + [item];
      item.next := null;
      item.prev := tail;
      if tail != null {
        tail.next := item;
      } else {
        head := item;
      }
      tail := item;
      items := items + [item];
      forall i: nat ensures NextRight(i) && PrevRight(i) {
        assert old(NextRight(i)) && old(PrevRight(i)) && (n > 0 ==> Apart(was, i, n - 1));
      }
    }

    /** Leaves the prev pointer of the old head as it was: the list is consistent again only if it was empty. */
    method Prepend(item: Item<T>)
      requires Valid() && item !in items
      modifies this, item
      ensures Forward() && items == [item] + old(items)
      ensures Backward() <==> old(items) == []
      ensures old(items) != [] ==> old(items)[0].prev == null
    {
      InsertedApart(items, 0, item);
      assert Inserted(items, 0, item) == [item] + items;
      assert PrevRight(0);
      item.prev := null;
      item.next := head;
      if head == null {
        tail := item;
      }
      head := item;
      items := [item] + items;
      forall i: nat ensures NextRight(i) {
        assert i > 0 ==> old(NextRight(i - 1));
      }
      assert PrevRight(1) <==> old(items) == [];
      if old(items) == [] {
        forall i: nat ensures PrevRight(i) {
        }
      }
    }

    /** After an item of the list, or at the front. */
    method Insert(after: Item?<T>, item: Item<T>)
      requires Valid() && item !in items && (after != null ==> after in items)
      modifies this, items, item
      ensures Forward() && (Backward() <==> after != null || old(items) == [])
      ensures after == null ==> items == [item] + old(items)
      ensures after != null ==> exists k ::
              0 <= k < |old(items)| && old(items)[k] == after && items == Inserted(old(items), k + 1, item)
    {
      if after == null {
        Prepend(item);
      } else {
        InsertAfter(after, item);
      }
    }

    method InsertAfter(after: Item<T>, item: Item<T>)
      requires Valid() && item !in items && after in items
      modifies this, items, item
      ensures Valid()
      ensures exists k :: 0 <= k < |old(items)| && old(items)[k] == after && items == Inserted(old(items), k + 1, item)
    {
      ghost var was := items;
      ghost var k: nat :| k < |items| && items[k] == after;
      InsertedApart(items, k + 1, item);
      assert NextRight(k);
      item.prev := after;
      item.next := after.next;
      after.next := item;
      if item.next != null {
        item.next.prev := item;
      }
      if tail == after {
        tail := item;
      }
      assert tail == was[|was| - 1] || k == |was| - 1 by {
        assert Apart(was, |was| - 1, k);
      }
      items := Inserted(items, k + 1, item);
      forall i: nat ensures NextRight(i) && PrevRight(i) {
        ghost var j := if i <= k then i else i - 1;
        assert old(NextRight(j)) && old(PrevRight(j)) && Apart(was, j, k) && Apart(was, j, k + 1);
      }
    }

    method Remove(item: Item<T>)
      requires Valid() && item in items
      modifies this, items
      ensures Valid() && item !in items && item.next == null && item.prev == null
      ensures exists k :: 0 <= k < |old(items)| && old(items)[k] == item && items == Cut(old(items), k)
      ensures forall x :: x in items ==> x in old(items)
    {
      ghost var k: nat :| k < |items| && items[k] == item;
      Unlink(item, k);
    }

    method Unlink(item: Item<T>, ghost k: nat)
      requires Valid() && k < |items| && items[k] == item
      modifies this, items
      ensures Valid() && item !in items && item.next == null && item.prev == null && items == Cut(old(items), k)
    {
      ghost var was := items;
      CutApart(items, k);
      assert NextRight(k) && PrevRight(k) && Apart(was, 0, k) && Apart(was, k, |was| - 1);
      if item.next != null {
        item.next.prev := item.prev;
      }
      if head == item {
        head := item.next;
        if head == null {
          tail := null;
        }
      } else {
        item.prev.next := item.next;
        if tail == item {
          tail := item.prev;
        }
      }
      item.prev, item.next := null, null;
      items := Cut(items, k);
      forall i: nat ensures NextRight(i) && PrevRight(i) {
        ghost var j := if i < k then i else i + 1;
        assert old(NextRight(j)) && old(PrevRight(j)) && Apart(was, j, k) && Apart(was, j, k + 1) &&
               (k > 0 ==> Apart(was, j, k - 1));
      }
    }

    method Pop() returns (item: Item?<T>)
      requires Valid()
      modifies this, items
      ensures Valid() && (item == null <==> old(items) == [])
      ensures item == null ==> items == []
      ensures item != null ==> item.next == null && item.prev == null && old(items) == [item] + items
    {
      item := head;
      if item == null {
        return;
      }
      ghost var was := items;
      Remove(item);
      At(was, 0, items);
    }

    /** The position of an item is determined. */
    lemma {:induction false} At(s: seq<Item<T>>, k: nat, t: seq<Item<T>>)
      requires NoDuplicates(s) && k < |s|
      requires exists j :: 0 <= j < |s| && s[j] == s[k] && t == Cut(s, j)
      ensures t == Cut(s, k)
    {
      var j: nat :| j < |s| && s[j] == s[k] && t == Cut(s, j);
      assert Apart(s, j, k);
    }

    method RemoveAt(item: Item<T>, ghost k: nat)
      requires Valid() && k < |items| && items[k] == item
      modifies this, items
      ensures Valid() && items == Cut(old(items), k) && forall x :: x in items ==> x in old(items)
    {
      ghost var was := items;
      assert was[k] in items;
      Remove(item);
      At(was, k, items);
    }

    /**
     The safe iteration, with a body that removes the items it chooses: the successor is read before the body runs, so
     every item is visited once and in order, whatever is removed.
     */
    method RemoveIf(drop: T -> bool) returns (visited: seq<Item<T>>)
      requires Valid()
      modifies this, items
      ensures Valid() && visited == old(items)
      ensures items == Kept(old(items), drop)
    {
      visited := [];
      ghost var was := items;
      ghost var stage, at := Sweep(was, drop);
      ghost var i: nat := 0;
      var iter := head;
      while iter != null
        invariant Valid() && i <= |was| && visited == was[..i]
        invariant iter == if i < |was| then was[i] else null
        invariant items == stage[i]
        decreases |was| - i
      {
        ghost var k := at[i];
        assert NextRight(k);
        var backup := iter.next;
        visited := visited + [iter];
        if drop(iter.data) {
          RemoveAt(iter, k);
        }
        i := i + 1;
        iter := backup;
      }
    }
  }
}
