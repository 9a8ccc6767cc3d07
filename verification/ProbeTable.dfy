/**
 The open-addressing table of src/map.c as a sequence of slots: where a key is looked for, where it is put, and which
 finite map the table stands for.
 */
module ProbeTable {
  import opened Bytes
  import opened Hiding

  datatype Slot<+V> = Empty | Deleted | Live(key: u32, item: V)

  /** The slot after i, cyclically. */
  function Next(n: nat, i: nat): (r: nat)
    requires i < n
    ensures r < n
  {
    if i + 1 == n then 0 else i + 1
  }

  function Home(n: nat, key: u32): (h: nat)
    requires n > 0
    ensures h < n
  {
    var k: int := key;
    k % n
  }

  /** Slot j comes before slot i on the way from h. */
  predicate Ahead(h: nat, j: nat, i: nat) {
    if h <= i then h <= j < i else j >= h || j < i
  }

  // ---------- Looking a key up ----------

  /** The search loop: at slot idx, with `left` slots not yet seen. */
  function Seek<V>(s: seq<Slot<V>>, key: u32, idx: nat, left: nat): (r: Option<nat>)
    requires idx < |s|
    ensures r.Some? ==> r.value < |s| && s[r.value].Live? && s[r.value].key == key
    decreases left
  {
    if left == 0 || s[idx].Empty? then None
    else if s[idx].Live? && s[idx].key == key then Some(idx)
    else Seek(s, key, Next(|s|, idx), left - 1)
  }

  function Find<V>(s: seq<Slot<V>>, key: u32): (r: Option<nat>)
    ensures r.Some? ==> r.value < |s| && s[r.value].Live? && s[r.value].key == key
  {
    if |s| == 0 then None else Seek(s, key, Home(|s|, key), |s|)
  }

  /** Slot i holds the key, and no slot ahead of it does. */
  ghost predicate IsFirst<V>(s: seq<Slot<V>>, key: u32, i: nat) {
    && i < |s| && s[i].Live? && s[i].key == key
    && forall j {:trigger s[j]} :: 0 <= j < |s| && Ahead(Home(|s|, key), j, i) ==> !(s[j].Live? && s[j].key == key)
  }

  /** No empty slot lies between the home of a live entry and the entry. */
  ghost predicate Chained<V>(s: seq<Slot<V>>) {
    forall i, j {:trigger s[i], s[j]} ::
      0 <= i < |s| && 0 <= j < |s| && s[i].Live? && Ahead(Home(|s|, s[i].key), j, i) ==> !s[j].Empty?
  }

  /** No key is live twice. */
  ghost predicate Unique<V>(s: seq<Slot<V>>) {
    forall i, j {:trigger s[i], s[j]} ::
      0 <= i < |s| && 0 <= j < |s| && s[i].Live? && s[j].Live? && s[i].key == s[j].key ==> i == j
  }

  /** Slots from h on that the search has passed when it stands at idx with `left` to go. */
  ghost predicate Passed(n: nat, h: nat, idx: nat, left: nat) {
    idx < n && h < n && left <= n && idx == (if h + (n - left) < n then h + (n - left) else h - left)
  }

  lemma {:induction false} SeekFirst<V>(s: seq<Slot<V>>, key: u32, idx: nat, left: nat)
    requires |s| > 0 && Passed(|s|, Home(|s|, key), idx, left) && Chained(s)
    requires forall j :: 0 <= j < |s| && (left == 0 || Ahead(Home(|s|, key), j, idx)) ==>
               !(s[j].Live? && s[j].key == key)
    requires left < |s| || idx == Home(|s|, key)
    ensures var r := Seek(s, key, idx, left);
            if r.Some? then IsFirst(s, key, r.value)
            else forall i :: 0 <= i < |s| ==> !(s[i].Live? && s[i].key == key)
    decreases left
  {
    if left > 0 && !s[idx].Empty? && !(s[idx].Live? && s[idx].key == key) {
      SeekFirst(s, key, Next(|s|, idx), left - 1);
    }
  }

  /** The search finds the first slot that holds the key, if any does. */
  lemma {:induction false} FindFirst<V>(s: seq<Slot<V>>, key: u32)
    requires Chained(s)
    ensures Find(s, key).Some? ==> IsFirst(s, key, Find(s, key).value)
    ensures Find(s, key).None? ==> forall i :: 0 <= i < |s| ==> !(s[i].Live? && s[i].key == key)
  {
    if |s| > 0 {
      SeekFirst(s, key, Home(|s|, key), |s|);
    }
  }

  lemma {:induction false} Trichotomy(h: nat, i: nat, j: nat)
    ensures i == j || Ahead(h, i, j) || Ahead(h, j, i)
  {
  }

  lemma {:induction false} FirstIsFound<V>(s: seq<Slot<V>>, key: u32, i: nat)
    requires Chained(s) && IsFirst(s, key, i)
    ensures Find(s, key) == Some(i)
  {
    FindFirst(s, key);
    Trichotomy(Home(|s|, key), Find(s, key).value, i);
  }

  // ---------- The map a table stands for ----------

  /** The keys that are found in the first n slots, with the items found for them. */
  function Found<V>(s: seq<Slot<V>>, n: nat): map<u32, V>
    requires n <= |s|
  {
    if n == 0 then map[]
    else if s[n - 1].Live? && Find(s, s[n - 1].key) == Some(n - 1) then Found(s, n - 1)[s[n - 1].key := s[n - 1].item]
    else Found(s, n - 1)
  }

  /** Every key that can be found, with the item found for it. */
  function View<V>(s: seq<Slot<V>>): map<u32, V> {
    Found(s, |s|)
  }

  lemma {:induction false} FoundIsFind<V>(s: seq<Slot<V>>, n: nat, key: u32)
    requires n <= |s|
    ensures key in Found(s, n) <==> Find(s, key).Some? && Find(s, key).value < n
    ensures key in Found(s, n) ==> Found(s, n)[key] == s[Find(s, key).value].item
  {
    if n > 0 {
      FoundIsFind(s, n - 1, key);
    }
  }

  lemma {:induction false} ViewIsFind<V>(s: seq<Slot<V>>, key: u32)
    ensures key in View(s) <==> Find(s, key).Some?
    ensures key in View(s) ==> View(s)[key] == s[Find(s, key).value].item
  {
    FoundIsFind(s, |s|, key);
  }

  /** With every key live once, the map has exactly the live entries. */
  lemma {:induction false} ViewOfUnique<V>(s: seq<Slot<V>>, key: u32)
    requires Chained(s) && Unique(s)
    ensures key in View(s) <==> exists i :: 0 <= i < |s| && s[i].Live? && s[i].key == key
    ensures forall i :: 0 <= i < |s| && s[i].Live? && s[i].key == key ==> key in View(s) && View(s)[key] == s[i].item
  {
    FindFirst(s, key);
    ViewIsFind(s, key);
  }

  // ---------- Counting live slots ----------

  function NumLive<V>(s: seq<Slot<V>>, n: nat): (c: nat)
    requires n <= |s|
    ensures c <= n
  {
    if n == 0 then 0 else NumLive(s, n - 1) + if s[n - 1].Live? then 1 else 0
  }

  lemma {:induction false} NumLiveUpdate<V>(s: seq<Slot<V>>, i: nat, x: Slot<V>, n: nat)
    requires i < |s| && n <= |s|
    ensures NumLive(s[i := x], n) ==
            NumLive(s, n) + if i < n then (if x.Live? then 1 else 0) - (if s[i].Live? then 1 else 0) else 0
  {
    if n > 0 {
      NumLiveUpdate(s, i, x, n - 1);
    }
  }

  lemma {:induction false} FullIsAllLive<V>(s: seq<Slot<V>>, n: nat)
    requires n <= |s|
    ensures NumLive(s, n) == n <==> forall i :: 0 <= i < n ==> s[i].Live?
  {
    if n > 0 {
      FullIsAllLive(s, n - 1);
    }
  }

  lemma {:induction false} NumLiveOfEmpty<V>(s: seq<Slot<V>>, n: nat)
    requires n <= |s| && forall i :: 0 <= i < n ==> s[i].Empty?
    ensures NumLive(s, n) == 0
  {
    if n > 0 {
      NumLiveOfEmpty(s, n - 1);
    }
  }

  // ---------- Choosing the slot for a key ----------

  /** The loop that chooses a slot to write: the first that is not live or holds the key already. */
  function Probe<V>(s: seq<Slot<V>>, key: u32, idx: nat, left: nat): (r: Option<nat>)
    requires idx < |s|
    ensures r.Some? ==> r.value < |s| && (s[r.value].Live? ==> s[r.value].key == key)
    decreases left
  {
    if left == 0 then None
    else if !s[idx].Live? || s[idx].key == key then Some(idx)
    else Probe(s, key, Next(|s|, idx), left - 1)
  }

  function Claim<V>(s: seq<Slot<V>>, key: u32): (r: Option<nat>)
    ensures r.Some? ==> r.value < |s| && (s[r.value].Live? ==> s[r.value].key == key)
  {
    if |s| == 0 then None else Probe(s, key, Home(|s|, key), |s|)
  }

  ghost predicate OtherKeysAhead<V>(s: seq<Slot<V>>, key: u32, i: nat)
    requires i < |s|
  {
    forall j {:trigger s[j]} :: 0 <= j < |s| && Ahead(Home(|s|, key), j, i) ==> s[j].Live? && s[j].key != key
  }

  lemma {:induction false} ProbeFirst<V>(s: seq<Slot<V>>, key: u32, idx: nat, left: nat)
    requires |s| > 0 && Passed(|s|, Home(|s|, key), idx, left)
    requires forall j :: 0 <= j < |s| && (left == 0 || Ahead(Home(|s|, key), j, idx)) ==> s[j].Live? && s[j].key != key
    requires left < |s| || idx == Home(|s|, key)
    ensures var r := Probe(s, key, idx, left);
            if r.Some? then OtherKeysAhead(s, key, r.value) else forall i :: 0 <= i < |s| ==> s[i].Live?
    decreases left
  {
    if left > 0 && s[idx].Live? && s[idx].key != key {
      ProbeFirst(s, key, Next(|s|, idx), left - 1);
    }
  }

  /** A slot is found for every key unless all slots are live. */
  lemma {:induction false} ClaimFirst<V>(s: seq<Slot<V>>, key: u32)
    ensures Claim(s, key).Some? ==> OtherKeysAhead(s, key, Claim(s, key).value)
    ensures NumLive(s, |s|) < |s| ==> Claim(s, key).Some?
  {
    if |s| > 0 {
      ProbeFirst(s, key, Home(|s|, key), |s|);
      FullIsAllLive(s, |s|);
    }
  }

  // ---------- Putting ----------

  /** No tombstone lies ahead of a live entry for the key. */
  ghost predicate NoTombstoneAhead<V>(s: seq<Slot<V>>, key: u32) {
    forall i, j {:trigger s[i], s[j]} ::
      0 <= i < |s| && 0 <= j < |s| && s[i].Live? && s[i].key == key && Ahead(Home(|s|, key), j, i) ==> !s[j].Deleted?
  }

  lemma {:induction false} PutChained<V>(s: seq<Slot<V>>, key: u32, item: V)
    requires Chained(s) && Claim(s, key).Some?
    ensures var t := s[Claim(s, key).value := Live(key, item)];
            && Chained(t)
            && Find(t, key) == Claim(s, key)
            && forall k :: k != key ==> Find(t, k) == Find(s, k)
  {
    var i := Claim(s, key).value;
    var t := s[i := Live(key, item)];
    ClaimFirst(s, key);
    assert Chained(t);
    FirstIsFound(t, key, i);
    forall k: u32 | k != key ensures Find(t, k) == Find(s, k) {
      FindFirst(s, k);
      FindFirst(t, k);
      if Find(s, k).Some? {
        var f := Find(s, k).value;
        assert IsFirst(t, k, f);
        FirstIsFound(t, k, f);
      }
    }
  }

  /** Putting updates the map at the key, whatever tombstones there are. */
  lemma {:induction false} PutView<V>(s: seq<Slot<V>>, key: u32, item: V)
    requires Chained(s) && Claim(s, key).Some?
    ensures View(s[Claim(s, key).value := Live(key, item)]) == View(s)[key := item]
  {
    var t := s[Claim(s, key).value := Live(key, item)];
    PutChained(s, key, item);
    forall k: u32 ensures k in View(t) <==> k in View(s)[key := item]
                  ensures k in View(t) ==> View(t)[k] == View(s)[key := item][k] {
      ViewIsFind(s, k);
      ViewIsFind(t, k);
    }
  }

  /** Keys stay live once exactly when the key is absent or no tombstone lies ahead of it. */
  lemma {:induction false} PutUnique<V>(s: seq<Slot<V>>, key: u32, item: V)
    requires Chained(s) && Unique(s) && Claim(s, key).Some?
    ensures Unique(s[Claim(s, key).value := Live(key, item)]) <==> NoTombstoneAhead(s, key)
    ensures NoTombstoneAhead(s, key) <==> (key in View(s) ==> Find(s, key) == Claim(s, key))
  {
    var i := Claim(s, key).value;
    var t := s[i := Live(key, item)];
    ClaimFirst(s, key);
    FindFirst(s, key);
    ViewIsFind(s, key);
    if key in View(s) && Find(s, key) != Some(i) {
      var f := Find(s, key).value;
      assert t[f].Live? && t[i].Live? && t[f].key == t[i].key;
      assert Ahead(Home(|s|, key), i, f) && s[i].Deleted?;
    }
  }

  /** Everything about putting, for a table in use. */
  lemma {:induction false} PutDone<V>(s: seq<Slot<V>>, key: u32, item: V)
    requires Chained(s) && Claim(s, key).Some?
    ensures var i := Claim(s, key).value;
            var t := s[i := Live(key, item)];
            && Chained(t)
            && NumLive(t, |t|) == NumLive(s, |s|) + (if s[i].Live? then 0 else 1)
            && View(t) == View(s)[key := item]
            && (Unique(s) ==> (Unique(t) <==> NoTombstoneAhead(s, key)))
            && (Unique(s) ==> (s[i].Live? <==> NoTombstoneAhead(s, key) && key in View(s)))
            && (s[i].Live? ==> key in View(s) && View(s)[key] == s[i].item)
  {
    var i := Claim(s, key).value;
    PutChained(s, key, item);
    PutView(s, key, item);
    NumLiveUpdate(s, i, Live(key, item), |s|);
    ViewIsFind(s, key);
    if s[i].Live? {
      ClaimFirst(s, key);
      FirstIsFound(s, key, i);
    }
    if Unique(s) {
      PutUnique(s, key, item);
    }
  }

  /** Putting leaves no tombstone ahead of the key itself, when it is live once, or of a key that had none. */
  lemma {:induction false} PutFree<V>(s: seq<Slot<V>>, key: u32, item: V, k: u32)
    requires Chained(s) && Claim(s, key).Some?
    ensures var t := s[Claim(s, key).value := Live(key, item)];
            && (k != key && NoTombstoneAhead(s, k) ==> NoTombstoneAhead(t, k))
            && (Unique(t) ==> NoTombstoneAhead(t, key))
  {
    var c := Claim(s, key).value;
    var t := s[c := Live(key, item)];
    ClaimFirst(s, key);
    if k != key && NoTombstoneAhead(s, k) {
      forall i, j | 0 <= i < |t| && 0 <= j < |t| && t[i].Live? && t[i].key == k && Ahead(Home(|t|, k), j, i)
        ensures !t[j].Deleted? {
        assert s[i] == t[i] && (j != c ==> s[j] == t[j]);
      }
    }
    if Unique(t) {
      forall i, j | 0 <= i < |t| && 0 <= j < |t| && t[i].Live? && t[i].key == key && Ahead(Home(|t|, key), j, i)
        ensures !t[j].Deleted? {
        assert t[c].Live? && t[c].key == key && i == c;
        assert s[j].Live?;
      }
    }
  }

  ghost predicate NoTombstones<V>(s: seq<Slot<V>>) {
    forall i :: 0 <= i < |s| ==> !s[i].Deleted?
  }

  lemma {:induction false} NoneAhead<V>(s: seq<Slot<V>>, key: u32)
    requires NoTombstones(s)
    ensures NoTombstoneAhead(s, key)
  {
  }

  lemma {:induction false} FullHasNone<V>(s: seq<Slot<V>>)
    requires NumLive(s, |s|) == |s|
    ensures NoTombstones(s)
  {
    FullIsAllLive(s, |s|);
  }

  // ---------- Removing ----------

  lemma {:induction false} RemoveChained<V>(s: seq<Slot<V>>, key: u32)
    requires Chained(s) && Find(s, key).Some?
    ensures var t := s[Find(s, key).value := Deleted];
            Chained(t) && forall k :: k != key ==> Find(t, k) == Find(s, k)
  {
    var i := Find(s, key).value;
    var t := s[i := Deleted];
    assert Chained(t);
    forall k: u32 | k != key ensures Find(t, k) == Find(s, k) {
      FindFirst(s, k);
      FindFirst(t, k);
      if Find(s, k).Some? {
        assert IsFirst(t, k, Find(s, k).value);
        FirstIsFound(t, k, Find(s, k).value);
      }
    }
  }

  /** The key is live nowhere but where it is found. */
  ghost predicate NoOther<V>(s: seq<Slot<V>>, key: u32) {
    forall i :: 0 <= i < |s| && s[i].Live? && s[i].key == key ==> Find(s, key) == Some(i)
  }

  /** Removing takes the key out of the map exactly when it was live once. */
  lemma {:induction false} RemoveKey<V>(s: seq<Slot<V>>, key: u32)
    requires Chained(s) && Find(s, key).Some?
    ensures key !in View(s[Find(s, key).value := Deleted]) <==> NoOther(s, key)
  {
    var t := s[Find(s, key).value := Deleted];
    RemoveChained(s, key);
    FindFirst(t, key);
    ViewIsFind(t, key);
    if i :| 0 <= i < |s| && s[i].Live? && s[i].key == key && Find(s, key) != Some(i) {
      assert t[i].Live? && t[i].key == key;
    }
  }

  lemma {:induction false} RemoveUnique<V>(s: seq<Slot<V>>, i: nat)
    requires Unique(s) && i < |s|
    ensures Unique(s[i := Deleted])
  {
  }

  /** In terms of what Find finds in the two tables. */
  lemma {:induction false} ViewMinus<V>(s: seq<Slot<V>>, i: nat, t: seq<Slot<V>>, key: u32)
    requires i < |s| && t == s[i := Deleted]
    requires forall k: u32 :: k != key ==> Find(t, k) == Find(s, k)
    requires Find(t, key).None?
    ensures View(t) == View(s) - {key}
  {
    forall k: u32 ensures k in View(t) <==> k in View(s) - {key}
                  ensures k in View(t) ==> View(t)[k] == View(s)[k] {
      ViewIsFind(s, k);
      ViewIsFind(t, k);
    }
  }

  lemma {:induction false} RemoveView<V>(s: seq<Slot<V>>, key: u32)
    requires Chained(s) && Unique(s) && Find(s, key).Some?
    ensures var t := s[Find(s, key).value := Deleted]; Unique(t) && View(t) == View(s) - {key}
  {
    var t := s[Find(s, key).value := Deleted];
    RemoveUnique(s, Find(s, key).value);
    RemoveChained(s, key);
    RemoveKey(s, key);
    ViewIsFind(t, key);
    ViewMinus(s, Find(s, key).value, t, key);
  }

  /** Everything about removing a key that is found. */
  lemma {:induction false} RemoveDone<V>(s: seq<Slot<V>>, key: u32)
    requires Chained(s) && Find(s, key).Some?
    ensures var t := s[Find(s, key).value := Deleted];
            && Chained(t)
            && NumLive(t, |t|) == NumLive(s, |s|) - 1
            && (key !in View(t) <==> NoOther(s, key))
            && (Unique(s) ==> Unique(t) && View(t) == View(s) - {key})
  {
    NumLiveUpdate(s, Find(s, key).value, Deleted, |s|);
    RemoveChained(s, key);
    RemoveKey(s, key);
    if Unique(s) {
      RemoveView(s, key);
    }
  }

  // ---------- For clients ----------

  /** The same properties out of sight: what they say about slots is seen where Seen is called. */
  ghost predicate Reachable<V>(s: seq<Slot<V>>) {
    forall t {:trigger Look(t)} :: Look(t) && t == s ==> Chained(t)
  }

  ghost predicate OnceEach<V>(s: seq<Slot<V>>) {
    forall t {:trigger Look(t)} :: Look(t) && t == s ==> Unique(t)
  }

  ghost predicate Clean<V>(s: seq<Slot<V>>) {
    forall t {:trigger Look(t)} :: Look(t) && t == s ==> NoTombstones(t)
  }

  ghost predicate Free<V>(s: seq<Slot<V>>, key: u32) {
    forall t {:trigger Look(t)} :: Look(t) && t == s ==> NoTombstoneAhead(t, key)
  }

  lemma {:induction false} Seen<V>(s: seq<Slot<V>>)
    ensures Reachable(s) <==> Chained(s)
    ensures OnceEach(s) <==> Unique(s)
    ensures Clean(s) <==> NoTombstones(s)
    ensures forall key: u32 :: Free(s, key) <==> NoTombstoneAhead(s, key)
  {
    assert Look(s);
  }

  lemma {:induction false} CleanIsFree<V>(s: seq<Slot<V>>, key: u32)
    requires Clean(s)
    ensures Free(s, key)
  {
    Seen(s);
    NoneAhead(s, key);
  }

  lemma {:induction false} PutStillFree<V>(s: seq<Slot<V>>, key: u32, item: V, t: seq<Slot<V>>)
    requires Reachable(s) && Claim(s, key).Some? && t == Stored(s, key, item)
    ensures forall k: u32 {:trigger Free(t, k)} :: k != key && Free(s, k) ==> Free(t, k)
    ensures OnceEach(t) ==> Free(t, key)
  {
    Seen(s);
    Seen(t);
    forall k: u32 ensures (k != key && Free(s, k) ==> Free(t, k)) && (OnceEach(t) ==> Free(t, key)) {
      PutFree(s, key, item, k);
    }
  }

  lemma {:induction false} AllFree<V>(s: seq<Slot<V>>)
    requires Clean(s)
    ensures forall key: u32 {:trigger Free(s, key)} :: Free(s, key)
  {
    forall key: u32 ensures Free(s, key) {
      CleanIsFree(s, key);
    }
  }

  /** A key that is absent can always be put. */
  lemma {:induction false} AbsentIsFree<V>(s: seq<Slot<V>>, key: u32)
    requires Chained(s) && key !in View(s)
    ensures NoTombstoneAhead(s, key)
  {
    FindFirst(s, key);
    ViewIsFind(s, key);
  }

  // ---------- Rebuilding ----------

  /** The table with the item stored under the key, in the slot chosen for it. */
  function Stored<V>(s: seq<Slot<V>>, key: u32, item: V): (t: seq<Slot<V>>)
    ensures |t| == |s|
  {
    if Claim(s, key).Some? then s[Claim(s, key).value := Live(key, item)] else s
  }

  /** The live entries of the first n slots of s, put into an empty table of this size one after the other. */
  function Resettled<V>(s: seq<Slot<V>>, n: nat, size: nat): (t: seq<Slot<V>>)
    requires n <= |s|
    ensures |t| == size
  {
    if n == 0 then seq(size, _ => Empty)
    else if s[n - 1].Live? then Stored(Resettled(s, n - 1, size), s[n - 1].key, s[n - 1].item)
    else Resettled(s, n - 1, size)
  }

  const Growth := 256

  /** What a table comes to when an item is put: a full one is rebuilt first, with more slots. */
  function Entered<V>(s: seq<Slot<V>>, key: u32, item: V): seq<Slot<V>> {
    Stored(if NumLive(s, |s|) == |s| then Resettled(s, |s|, |s| + Growth) else s, key, item)
  }

  /** What it comes to when a key is removed. */
  function Tombstoned<V>(s: seq<Slot<V>>, key: u32): seq<Slot<V>> {
    if Find(s, key).Some? then s[Find(s, key).value := Deleted] else s
  }

  /** The live entries among the first n slots, later ones taking precedence. */
  function Entries<V>(s: seq<Slot<V>>, n: nat): map<u32, V>
    requires n <= |s|
  {
    if n == 0 then map[]
    else if s[n - 1].Live? then Entries(s, n - 1)[s[n - 1].key := s[n - 1].item]
    else Entries(s, n - 1)
  }

  lemma {:induction false} EntriesAt<V>(s: seq<Slot<V>>, n: nat, key: u32)
    requires n <= |s| && Unique(s)
    ensures key in Entries(s, n) <==> exists i :: 0 <= i < n && s[i].Live? && s[i].key == key
    ensures forall i :: 0 <= i < n && s[i].Live? && s[i].key == key ==>
              key in Entries(s, n) && Entries(s, n)[key] == s[i].item
  {
    if n > 0 {
      EntriesAt(s, n - 1, key);
    }
  }

  lemma {:induction false} EntriesAreView<V>(s: seq<Slot<V>>)
    requires Chained(s) && Unique(s)
    ensures Entries(s, |s|) == View(s)
  {
    forall k: u32 ensures k in Entries(s, |s|) <==> k in View(s)
                  ensures k in View(s) ==> Entries(s, |s|)[k] == View(s)[k] {
      EntriesAt(s, |s|, k);
      ViewOfUnique(s, k);
    }
  }

  lemma {:induction false} EmptyTable<V>(s: seq<Slot<V>>)
    requires forall i :: 0 <= i < |s| ==> s[i].Empty?
    ensures Chained(s) && Unique(s) && View(s) == map[] && NumLive(s, |s|) == 0
  {
    if k :| k in View(s) {
      ViewIsFind(s, k);
    }
    NumLiveOfEmpty(s, |s|);
  }

  /** The number of live slots is the size of the map. */
  lemma {:induction false} CountIsSize<V>(s: seq<Slot<V>>, n: nat)
    requires n <= |s| && Unique(s)
    ensures NumLive(s, n) == |Entries(s, n)|
  {
    if n > 0 {
      CountIsSize(s, n - 1);
      if s[n - 1].Live? {
        EntriesAt(s, n - 1, s[n - 1].key);
        assert s[n - 1].key !in Entries(s, n - 1);
      }
    }
  }

  lemma {:induction false} SameSize<V>(s: seq<Slot<V>>, t: seq<Slot<V>>)
    requires Chained(s) && Unique(s) && Chained(t) && Unique(t) && View(s) == View(t)
    ensures NumLive(s, |s|) == NumLive(t, |t|)
  {
    EntriesAreView(s);
    EntriesAreView(t);
    CountIsSize(s, |s|);
    CountIsSize(t, |t|);
  }

  /** A rebuilt table has no tombstones and no key twice, and stands for the live entries in their order. */
  lemma {:induction false} ResettledDone<V>(s: seq<Slot<V>>, n: nat, size: nat)
    requires n <= |s| < size
    ensures var t := Resettled(s, n, size);
            Chained(t) && Unique(t) && NoTombstones(t) && View(t) == Entries(s, n) && NumLive(t, size) <= n
  {
    if n == 0 {
      EmptyTable(Resettled<V>(s, 0, size));
    } else {
      var t := Resettled(s, n - 1, size);
      ResettledDone(s, n - 1, size);
      if s[n - 1].Live? {
        ClaimFirst(t, s[n - 1].key);
        PutDone(t, s[n - 1].key, s[n - 1].item);
        NoneAhead(t, s[n - 1].key);
      }
    }
  }

  /** Everything about putting a key into a table that is rebuilt first when it is full. */
  lemma {:induction false} EnteredDone<V>(s: seq<Slot<V>>, key: u32, item: V)
    requires Reachable(s) && (OnceEach(s) || NumLive(s, |s|) < |s|)
    ensures var t := Entered(s, key, item);
            && Reachable(t) && View(t) == View(s)[key := item]
            && (OnceEach(s) ==> (OnceEach(t) <==> Free(s, key)))
            && (OnceEach(t) ==> Free(t, key))
    ensures forall k: u32 {:trigger Free(Entered(s, key, item), k)} :: k != key && Free(s, k) ==>
              Free(Entered(s, key, item), k)
  {
    var full := NumLive(s, |s|) == |s|;
    var u := if full then Resettled(s, |s|, |s| + Growth) else s;
    Seen(s);
    Seen(u);
    if full {
      ResettledDone(s, |s|, |s| + Growth);
      EntriesAreView(s);
      FullHasNone(s);
      AllFree(u);
      AllFree(s);
    }
    ClaimFirst(u, key);
    PutDone(u, key, item);
    Seen(Stored(u, key, item));
    PutStillFree(u, key, item, Stored(u, key, item));
  }

  // ---------- The limit of tombstones ----------

  /** The table after putting one key and a second. */
  function BothEntered<V>(one: u32, two: u32, x: V, y: V): (s: seq<Slot<V>>) {
    Entered(Entered([], one, x), two, y)
  }

  /** And after removing the first. */
  function AfterRemoval<V>(one: u32, two: u32, x: V, y: V): (s: seq<Slot<V>>) {
    Tombstoned(BothEntered(one, two, x, y), one)
  }

  lemma {:induction false} AfterRemovalIs<V>(one: u32, two: u32, x: V, y: V)
    requires one != two && Home(256, one) == Home(256, two)
    ensures var s, h := AfterRemoval(one, two, x, y), Home(256, one);
            |s| == 256 && s[h].Deleted? && s[Next(256, h)] == Live(two, y) && NumLive(s, 256) == 1
    ensures var s, h := AfterRemoval(one, two, x, y), Home(256, one);
            forall i :: 0 <= i < 256 && i != h && i != Next(256, h) ==> s[i].Empty?
  {
    var h := Home(256, one);
    var n := Next(256, h);
    var none: seq<Slot<V>> := seq(256, _ => Empty);
    NumLiveOfEmpty(none, 256);
    assert Entered([], one, x) == Stored(none, one, x);
    assert Claim(none, one) == Some(h);
    var s1 := none[h := Live(one, x)];
    NumLiveUpdate(none, h, Live(one, x), 256);
    assert Probe(s1, two, n, 255) == Some(n);
    assert Claim(s1, two) == Some(n);
    var s2 := s1[n := Live(two, y)];
    NumLiveUpdate(s1, n, Live(two, y), 256);
    assert Find(s2, one) == Some(h);
    NumLiveUpdate(s2, h, Deleted, 256);
  }

  /**
   Putting the second key again there makes it live twice, so that removing it once does not remove it, and what is
   found for it then is what was put first.
   */
  lemma {:induction false} PutTwice<V>(one: u32, two: u32, x: V, y: V, again: V)
    requires one != two && Home(256, one) == Home(256, two)
    ensures var s := AfterRemoval(one, two, x, y);
            var t := Entered(s, two, again);
            && !NoTombstoneAhead(s, two) && !Unique(t)
            && two in View(Tombstoned(t, two)) && View(Tombstoned(t, two))[two] == y
  {
    var s := AfterRemoval(one, two, x, y);
    var h := Home(256, one);
    var n := Next(256, h);
    AfterRemovalIs(one, two, x, y);
    assert s[n].Live? && s[h].Deleted? && Ahead(h, h, n);
    assert Claim(s, two) == Some(h);
    var t := s[h := Live(two, again)];
    assert t[h].Live? && t[n].Live? && t[h].key == t[n].key;
    assert Find(t, two) == Some(h);
    var u := t[h := Deleted];
    assert Seek(u, two, n, 255) == Some(n);
    assert Find(u, two) == Some(n);
    ViewIsFind(u, two);
  }

  // ---------- Iterating ----------

  /** The items of the first n slots in slot order, the order of iteration. */
  function Items<V>(s: seq<Slot<V>>, n: nat): seq<V>
    requires n <= |s|
  {
    if n == 0 then [] else Items(s, n - 1) + if s[n - 1].Live? then [s[n - 1].item] else []
  }

  ghost predicate NoneLive<V>(s: seq<Slot<V>>, lo: nat, hi: nat)
    requires hi <= |s|
  {
    forall i :: lo <= i < hi ==> !s[i].Live?
  }

  lemma {:induction false} ItemsSkip<V>(s: seq<Slot<V>>, lo: nat, hi: nat)
    requires lo <= hi <= |s| && NoneLive(s, lo, hi)
    ensures Items(s, hi) == Items(s, lo)
    decreases hi
  {
    if lo < hi {
      ItemsSkip(s, lo, hi - 1);
    }
  }
}
