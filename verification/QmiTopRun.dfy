/**
 What the decoder does with a whole message whose TLVs are well framed, in any order and with unknown types among them.
 */
module QmiTopRun {
  import opened Bytes
  import opened Hiding
  import opened QmiDescriptor
  import opened QmiValue
  import opened QmiAccept
  import opened QmiScript
  import opened QmiFrame
  import opened QmiRun
  import opened QmiFramed
  import opened QmiNested

  /** A well-framed message of `len` bytes for the decoder, and the memory it is decoded into. */
  datatype Task = Task(fs: seq<Field>, size: nat, base: nat, inb: seq<u8>, pos: nat, len: nat, items: seq<Item>,
                       was: seq<u8>)
  {
    ghost predicate Valid() {
      && WfFields(fs, size, true) && Separate(fs) && base + size <= |was|
      && (forall g, h :: 0 <= g < h < |fs| ==> fs[g].tlv != fs[h].tlv)
      && OkItems(fs, items, |items|, true)
      && len == |ScriptBytes(fs, items, |items|, true)| && StandsAt(ScriptBytes(fs, items, |items|, true), inb, pos)
    }

    /** Valid, out of sight. */
    ghost predicate Sound() {
      forall u {:trigger Look(u)} :: Look(u) && u == this ==> u.Valid()
    }

    /** The first k items take `used` bytes. */
    ghost predicate Used(k: nat, used: nat)
      requires k <= |items|
    {
      forall u {:trigger Look(u)} :: Look(u) && u == this ==> used == |ScriptBytes(u.fs, u.items, k, true)|
    }

    /**
     Every count is picked up over zero bytes, all unknown types may be skipped, and every nested string is short enough
     for its length prefix.
     */
    ghost predicate Decodable() {
      Clean(fs, items, |items|) && Tolerated(items, |items|) && ItemsFit(fs, items, |items|)
    }

    /** The struct after the first k items. */
    ghost function Fields(k: nat): seq<Val>
      requires k <= |items|
    {
      Apply(items, k, LoadAll(fs, was, base, |fs|, Program))
    }

    /** The whole run. */
    ghost function All(): Out {
      Run(fs, was, base, inb, pos, len, true, 0)
    }
  }

  ghost predicate TlvRan(fs: seq<Field>, mem: seq<u8>, base: nat, inb: seq<u8>, src: nat, stale: nat, reach: nat,
                         r: Out) {
    forall u {:trigger Look(u)} :: Look(u) && u == r ==> u == RunTlv(fs, mem, base, inb, src, stale, reach)
  }

  ghost predicate TopRan(fs: seq<Field>, mem: seq<u8>, base: nat, inb: seq<u8>, pos: nat, inLen: nat, decoded: nat,
                         stale: nat, reach: nat, r: Out) {
    forall u {:trigger Look(u)} :: Look(u) && u == r ==>
        u == RunTop(fs, mem, base, inb, pos, inLen, decoded, stale, reach)
  }

  lemma {:induction false} TopNext(fs: seq<Field>, mem: seq<u8>, base: nat, inb: seq<u8>, pos: nat, inLen: nat,
                                   decoded: nat, stale: nat, reach: nat, r: Out, all: Out)
    requires decoded < inLen && TlvRan(fs, mem, base, inb, pos + decoded, stale, reach, r)
    requires TopRan(fs, mem, base, inb, pos, inLen, decoded, stale, reach, all)
    ensures if r.rc < 0 then all == r
            else TopRan(fs, r.mem, base, inb, pos, inLen, decoded + r.rc, r.count, r.reach, all)
  {
    assert Look(r);
    assert Look(all);
  }

  lemma {:induction false} TopDone(fs: seq<Field>, mem: seq<u8>, base: nat, inb: seq<u8>, pos: nat, inLen: nat,
                                   stale: nat, reach: nat, all: Out)
    requires TopRan(fs, mem, base, inb, pos, inLen, inLen, stale, reach, all)
    ensures all == Out(inLen, mem, reach, stale)
  {
    assert Look(all);
  }

  predicate ItemFits(fs: seq<Field>, it: Item) {
    it.Known? && it.i < |fs| ==> StringsFit(fs[it.i], it.v, true)
  }

  /** The nested strings of the first k items are shorter than their length prefixes can count. */
  predicate ItemsFit(fs: seq<Field>, items: seq<Item>, k: nat)
    requires k <= |items|
  {
    k == 0 || (ItemsFit(fs, items, k - 1) && ItemFits(fs, items[k - 1]))
  }

  predicate GoodItem(fs: seq<Field>, it: Item, stale: nat) {
    match it
    case Known(i, v) => i < |fs| ==> GoodField(fs[i], v, stale, true)
    case Unknown(tlv, _) => tlv >= 16
  }

  function StaleNext(it: Item, stale: nat): nat {
    if it.Known? then NumElems(it.v) else stale
  }

  /** The items from k on come through. */
  predicate GoodItems(fs: seq<Field>, items: seq<Item>, k: nat, stale: nat)
    requires k <= |items|
    decreases |items| - k
  {
    k == |items| || (GoodItem(fs, items[k], stale) && GoodItems(fs, items, k + 1, StaleNext(items[k], stale)))
  }

  predicate CalmItem(fs: seq<Field>, it: Item) {
    it.Known? && it.i < |fs| ==> CalmField(fs[it.i], it.v, true)
  }

  predicate CalmItems(fs: seq<Field>, items: seq<Item>, k: nat)
    requires k <= |items|
    decreases |items| - k
  {
    k == |items| || (CalmItem(fs, items[k]) && CalmItems(fs, items, k + 1))
  }

  /** The items come through exactly when the message is decodable. */
  lemma {:induction false} GoodFromHere(fs: seq<Field>, items: seq<Item>, k: nat)
    requires k <= |items|
    ensures GoodItems(fs, items, 0, 0) <==>
            Clean(fs, items, k) && Tolerated(items, k) && ItemsFit(fs, items, k) &&
              GoodItems(fs, items, k, Stale(fs, items, k))
  {
    if k > 0 {
      GoodFromHere(fs, items, k - 1);
      GoodItemIs(fs, items[k - 1], Stale(fs, items, k - 1));
      assert Stale(fs, items, k) == StaleNext(items[k - 1], Stale(fs, items, k - 1));
    }
  }

  lemma {:induction false} GoodItemIs(fs: seq<Field>, it: Item, stale: nat)
    ensures GoodItem(fs, it, stale) <==>
              CleanItem(fs, it, stale) && (it.Unknown? ==> it.tlv >= 16) && ItemFits(fs, it)
  {
  }

  lemma {:induction false} CalmWhenTight(fs: seq<Field>, items: seq<Item>, k: nat, n: nat)
    requires k <= n == |items| && Tight(fs) && ItemsFit(fs, items, n)
    ensures CalmItems(fs, items, k)
    decreases n - k
  {
    if k < n {
      ItemsFitAt(fs, items, n, k);
      CalmWhenTight(fs, items, k + 1, n);
    }
  }

  lemma {:induction false} ItemsFitAt(fs: seq<Field>, items: seq<Item>, n: nat, k: nat)
    requires k < n <= |items| && ItemsFit(fs, items, n)
    ensures ItemFits(fs, items[k])
    decreases n
  {
    if k < n - 1 {
      ItemsFitAt(fs, items, n - 1, k);
    }
  }

  // ---------- One item in the input ----------

  /** Type, length and payload of a TLV in the input. */
  lemma {:induction false} TlvParts(tlv: u8, payload: seq<u8>, inb: seq<u8>, p: nat)
    requires StandsAt(Tlv(tlv, payload), inb, p) && |payload| < 0x1_0000
    ensures p + 3 <= |inb| && Peek(inb, p, 3)[0] == tlv && Word(Peek(inb, p, 3)[1], Peek(inb, p, 3)[2]) == |payload|
    ensures StandsAt(payload, inb, p + 3)
  {
    var n := |payload|;
    HeaderBytes(tlv, n);
    var h := Header(tlv, n);
    Chunk(inb, p, Tlv(tlv, payload), [], h, h, p);
    Chunk(inb, p, Tlv(tlv, payload), h, payload, Tlv(tlv, payload), p + 3);
    assert inb[p] == h[0] && inb[p + 1] == h[1] && inb[p + 2] == h[2];
  }

  /** Item k in place in the input, behind the `used` bytes of those before. */
  lemma {:induction false} ItemHere(j: Task, k: nat, used: nat) returns (n: nat)
    requires j.Sound() && k < |j.items| && j.Used(k, used)
    ensures n >= 3 && used + n <= j.len && j.Used(k + 1, used + n)
    ensures OkItem(j.fs, j.items[k], true) && n == |ItemBytes(j.fs, j.items[k], true)|
    ensures StandsAt(ItemBytes(j.fs, j.items[k], true), j.inb, j.pos + used)
  {
    assert Look(j);
    var it := ItemBytes(j.fs, j.items[k], true);
    n := |it|;
    OkItemsAt(j.fs, j.items, |j.items|, k, true);
    SomeBytes(j.fs, j.items[k]);
    ScriptBytesBegins(j.fs, j.items, k + 1, |j.items|, true);
    NextChunk(j.inb, j.pos, ScriptBytes(j.fs, j.items, |j.items|, true), ScriptBytes(j.fs, j.items, k, true), it,
              ScriptBytes(j.fs, j.items, k + 1, true), used);
  }

  lemma {:induction false} SomeBytes(fs: seq<Field>, it: Item)
    requires OkItem(fs, it, true)
    ensures |ItemBytes(fs, it, true)| >= 3
  {
    assert it.Known? ==> !it.v.Absent?;
  }

  lemma {:induction false} NextChunk(inb: seq<u8>, p: nat, all: seq<u8>, a: seq<u8>, b: seq<u8>, c: seq<u8>, used: nat)
    requires StandsAt(all, inb, p) && c == a + b && Begins(c, all) && used == |a|
    ensures StandsAt(b, inb, p + used) && used + |b| == |c| <= |all|
  {
    Chunk(inb, p, all, a, b, c, p + used);
  }

  /** The TLV of a value stands at src and takes n bytes. */
  ghost predicate TlvAt(f: Field, v: Val, inb: seq<u8>, src: nat, n: nat) {
    forall u {:trigger Look(u)} :: Look(u) && u == v ==>
      && OkVal(f, u, true) && |Payload(f, u, true)| < 0x1_0000 && n == 3 + |Payload(f, u, true)|
      && StandsAt(Tlv(f.tlv, Payload(f, u, true)), inb, src)
  }

  lemma {:induction false} KnownHere(j: Task, k: nat, used: nat, i: nat, v: Val) returns (n: nat)
    requires j.Sound() && k < |j.items| && j.Used(k, used) && j.items[k] == Known(i, v)
    ensures n >= 3 && used + n <= j.len && j.Used(k + 1, used + n)
    ensures i < |j.fs| && TlvAt(j.fs[i], v, j.inb, j.pos + used, n)
  {
    n := ItemHere(j, k, used);
    assert ItemBytes(j.fs, j.items[k], true) == Tlv(j.fs[i].tlv, Payload(j.fs[i], v, true));
  }

  lemma {:induction false} UnknownHere(j: Task, k: nat, used: nat) returns (n: nat)
    requires j.Sound() && k < |j.items| && j.Used(k, used) && j.items[k].Unknown?
    ensures n >= 3 && used + n <= j.len && j.Used(k + 1, used + n)
    ensures n == 3 + |j.items[k].payload| < 0x1_0003
    ensures StandsAt(Tlv(j.items[k].tlv, j.items[k].payload), j.inb, j.pos + used)
    ensures forall g :: 0 <= g < |j.fs| ==> j.fs[g].tlv != j.items[k].tlv
  {
    n := ItemHere(j, k, used);
  }

  lemma {:induction false} FieldOfTlv(fs: seq<Field>, i: nat)
    requires i < |fs| && forall g, h :: 0 <= g < h < |fs| ==> fs[g].tlv != fs[h].tlv
    ensures FieldOf(fs, fs[i].tlv) == Some(i)
  {
    var k := FieldOf(fs, fs[i].tlv);
    if k.Some? {
      var l := k.value;
      assert !(l < i) && !(i < l);
    }
  }

  /** What one item comes to, r being its run and `need` its bytes. */
  ghost predicate KnownRan(f: Field, v: Val, base: nat, was: seq<u8>, stale: nat, r: Out, need: nat, end: nat) {
    && OwnedOnly(f, r.mem, was, base) && (r.rc >= 0 ==> r.count < Wrap)
    && Outcome(r, r.rc >= 0 && Load(f, r.mem, base, Program) == v, GoodField(f, v, stale, true), CalmField(f, v, true),
               need, end)
    && (GoodField(f, v, stale, true) ==> r.count == NumElems(v))
    && (r.rc >= 0 && Delimited(f) ==> r.rc == need)
  }

  lemma {:induction false} KnownRuns(j: Task, i: nat, v: Val, src: nat, n: nat, mem: seq<u8>, stale: nat, reach: nat,
                                     end: nat) returns (r: Out)
    requires j.Sound() && i < |j.fs| && TlvAt(j.fs[i], v, j.inb, src, n) && |mem| == |j.was| && stale < Wrap
    requires reach <= end && src + n <= end
    ensures TlvRan(j.fs, mem, j.base, j.inb, src, stale, reach, r)
    ensures KnownRan(j.fs[i], v, j.base, mem, stale, r, n, end)
  {
    FieldHere(j, i);
    r := TlvRuns(j.fs, i, j.size, v, mem, j.base, j.inb, src, n, stale, reach, end);
  }

  lemma {:induction false} FieldHere(j: Task, i: nat)
    requires j.Sound() && i < |j.fs|
    ensures LaidField(j.fs[i], j.size, true) && j.base + j.size <= |j.was| && FieldOf(j.fs, j.fs[i].tlv) == Some(i)
  {
    assert Look(j);
    FieldOfTlv(j.fs, i);
    assert WfField(j.fs[i], j.size, true) && SeparateField(j.fs[i]);
  }

  /** The TLV of field i. */
  lemma {:induction false} TlvRuns(fs: seq<Field>, i: nat, size: nat, v: Val, mem: seq<u8>, base: nat, inb: seq<u8>,
                                   src: nat, n: nat, stale: nat, reach: nat, end: nat) returns (r: Out)
    requires i < |fs| && FieldOf(fs, fs[i].tlv) == Some(i) && LaidField(fs[i], size, true) && base + size <= |mem|
    requires stale < Wrap && reach <= end
    requires TlvAt(fs[i], v, inb, src, n) && src + n <= end
    ensures TlvRan(fs, mem, base, inb, src, stale, reach, r) && KnownRan(fs[i], v, base, mem, stale, r, n, end)
  {
    assert Look(v);
    var f, k := fs[i], |Payload(fs[i], v, true)|;
    TlvParts(f.tlv, Payload(f, v, true), inb, src);
    PayloadStands(f, v, true, inb, src + 3);
    var q := RunField(f, mem, base, inb, src + 3, stale, k, true, Max(reach, src + 3));
    FieldRuns(f, size, true, v, mem, base, inb, src + 3, stale, k, Max(reach, src + 3), end);
    FieldWritten(f, size, mem, base, inb, src + 3, stale, k, Max(reach, src + 3));
    r := TlvIs(fs, mem, base, inb, src, stale, reach, i, k, q);
  }

  lemma {:induction false} FieldWritten(f: Field, size: nat, mem: seq<u8>, base: nat, inb: seq<u8>, src: nat,
                                        stale: nat, tlvLen: nat, reach: nat)
    requires LaidField(f, size, true)
    ensures OwnedOnly(f, RunField(f, mem, base, inb, src, stale, tlvLen, true, reach).mem, mem, base)
  {
    assert Look(f);
    FieldWrites(f, size, true, mem, base, inb, src, stale, tlvLen, true, reach);
  }

  lemma {:induction false} TlvIs(fs: seq<Field>, mem: seq<u8>, base: nat, inb: seq<u8>, src: nat, stale: nat,
                                 reach: nat, i: nat, n: nat, q: Out) returns (r: Out)
    requires i < |fs| && FieldOf(fs, Peek(inb, src, 3)[0]) == Some(i)
    requires n == Word(Peek(inb, src, 3)[1], Peek(inb, src, 3)[2])
    requires q == RunField(fs[i], mem, base, inb, src + 3, stale, n, true, Max(reach, src + 3))
    ensures TlvRan(fs, mem, base, inb, src, stale, reach, r)
    ensures r == Out(if q.rc < 0 then q.rc else 3 + q.rc, q.mem, q.reach, q.count)
  {
    r := RunTlv(fs, mem, base, inb, src, stale, reach);
  }

  lemma {:induction false} UnknownIs(fs: seq<Field>, mem: seq<u8>, base: nat, inb: seq<u8>, src: nat, stale: nat,
                                     reach: nat, tlv: u8, payload: seq<u8>) returns (r: Out)
    requires StandsAt(Tlv(tlv, payload), inb, src) && |payload| < 0x1_0000
    requires forall g :: 0 <= g < |fs| ==> fs[g].tlv != tlv
    ensures TlvRan(fs, mem, base, inb, src, stale, reach, r)
    ensures r == Out(if tlv < 16 then -EINVAL else 3 + |payload|, mem, Max(reach, src + 3), stale)
  {
    TlvParts(tlv, payload, inb, src);
    r := RunTlv(fs, mem, base, inb, src, stale, reach);
  }

  // ---------- A message ----------

  /** The first k items have come through. */
  ghost predicate Held(j: Task, mem: seq<u8>, k: nat)
    requires k <= |j.items|
  {
    forall u {:trigger Look(u)} :: Look(u) && u == mem ==>
        |u| == |j.was| && LoadAll(j.fs, u, j.base, |j.fs|, Program) == j.Fields(k)
  }

  /** The field of item k holds something else. */
  ghost predicate Spoilt(j: Task, mem: seq<u8>, k: nat)
    requires k < |j.items|
  {
    forall u {:trigger Look(u)} :: Look(u) && u == mem ==>
      var it := j.items[k];
      it.Known? && it.i < |j.fs| && Load(j.fs[it.i], u, j.base, Program) != it.v
  }

  /** Item k is good, or calm, as said. */
  ghost predicate Deemed(j: Task, k: nat, stale: nat, good: bool, calm: bool)
    requires k < |j.items|
  {
    forall u {:trigger Look(u)} :: Look(u) && u == j.items[k] ==>
        good == GoodItem(j.fs, u, stale) && calm == CalmItem(j.fs, u)
  }

  /** The run of an item consumes its bytes, if it succeeds. */
  ghost predicate Aligned(j: Task, k: nat)
    requires k < |j.items|
  {
    j.items[k].Known? && j.items[k].i < |j.fs| ==> Delimited(j.fs[j.items[k].i])
  }

  /** Item k wrote nothing but its field. */
  ghost predicate Touched(j: Task, k: nat, now: seq<u8>, was: seq<u8>)
    requires k < |j.items|
  {
    match j.items[k]
    case Unknown(_, _) => now == was
    case Known(i, _) => i < |j.fs| && OwnedOnly(j.fs[i], now, was, j.base)
  }

  /** What item k, of n bytes, comes to, when the struct was `was` before. */
  ghost predicate ItemRan(j: Task, k: nat, was: seq<u8>, n: nat, stale: nat, r: Out, good: bool, calm: bool, end: nat)
    requires k < |j.items|
  {
    && |r.mem| == |was| && Touched(j, k, r.mem, was) && (r.rc >= 0 ==> r.count < Wrap)
    && (good ==> r.rc == n && r.count == StaleNext(j.items[k], stale) && Holding(j, k, r.mem))
    && (!good && calm ==> r.rc < 0)
    && (good || calm ==> r.reach <= end)
    && (!good && r.rc >= 0 ==> Spoilt(j, r.mem, k))
    && (r.rc >= 0 && Aligned(j, k) ==> r.rc == n)
  }

  /** The field of item k holds its value. */
  ghost predicate Holding(j: Task, k: nat, mem: seq<u8>)
    requires k < |j.items|
  {
    j.items[k].Known? && j.items[k].i < |j.fs| ==> Load(j.fs[j.items[k].i], mem, j.base, Program) == j.items[k].v
  }

  lemma {:induction false} ItemRuns(j: Task, k: nat, used: nat, mem: seq<u8>, stale: nat, reach: nat, end: nat)
    returns (n: nat, r: Out, good: bool, calm: bool)
    requires j.Sound() && k < |j.items| && j.Used(k, used) && |mem| == |j.was| && stale < Wrap && reach <= end
    requires j.pos + j.len <= end
    ensures 0 < n && used + n <= j.len && j.Used(k + 1, used + n)
    ensures TlvRan(j.fs, mem, j.base, j.inb, j.pos + used, stale, reach, r)
    ensures Deemed(j, k, stale, good, calm) && ItemRan(j, k, mem, n, stale, r, good, calm, end)
  {
    good, calm := GoodItem(j.fs, j.items[k], stale), CalmItem(j.fs, j.items[k]);
    match j.items[k]
    case Unknown(tlv, payload) =>
      n := UnknownHere(j, k, used);
      r := UnknownIs(j.fs, mem, j.base, j.inb, j.pos + used, stale, reach, tlv, payload);
    case Known(i, v) =>
      n := KnownHere(j, k, used, i, v);
      r := KnownRuns(j, i, v, j.pos + used, n, mem, stale, reach, end);
  }

  lemma {:induction false} HeldMore(j: Task, k: nat, was: seq<u8>, now: seq<u8>)
    requires j.Sound() && k < |j.items| && |was| == |j.was| && Touched(j, k, now, was) && Holding(j, k, now)
    ensures Held(j, was, k) ==> Held(j, now, k + 1)
  {
    assert Look(j) && Look(was);
    if j.items[k].Known? {
      UpdateOne(j.fs, j.size, true, was, now, j.base, j.items[k].i, |j.fs|, Program);
    }
  }

  // ---------- The run ----------

  /** Before item k, at byte `used` of the message; `all` is what the run comes to. */
  datatype Stage = Stage(j: Task, k: nat, used: nat, mem: seq<u8>, stale: nat, reach: nat, all: Out)
  {
    ghost predicate Live() {
      && j.Sound() && k <= |j.items| && j.Used(k, used) && |mem| == |j.was| && stale < Wrap
      && TopRan(j.fs, mem, j.base, j.inb, j.pos, j.len, used, stale, reach, all)
    }

    /** Live, out of sight. */
    ghost predicate Ready() {
      forall u {:trigger Look(u)} :: Look(u) && u == this ==> u.Live()
    }

    ghost function End(): nat {
      Max(reach, j.pos + j.len)
    }
  }

  /** From one item to the next, t being the stage behind it. */
  ghost predicate Advanced(s: Stage, t: Stage, good: bool, calm: bool)
    requires s.k < |s.j.items|
  {
    && t.j == s.j && t.k == s.k + 1 && t.all == s.all
    && Touched(s.j, s.k, t.mem, s.mem) && |t.mem| == |s.mem|
    && (good ==>
        t.Ready() && t.stale == StaleNext(s.j.items[s.k], s.stale) && t.reach <= s.End() && Holding(s.j, s.k, t.mem))
    && (!good && calm ==> s.all.rc < 0 && s.all.reach <= s.End())
    && (!good && s.all.rc >= 0 ==> Spoilt(s.j, t.mem, s.k))
    && (s.all.rc >= 0 && Aligned(s.j, s.k) ==> t.Ready())
  }

  lemma {:induction false} Advance(s: Stage) returns (t: Stage, good: bool, calm: bool)
    requires s.Ready() && s.k < |s.j.items|
    ensures Deemed(s.j, s.k, s.stale, good, calm) && Advanced(s, t, good, calm)
  {
    var n, r;
    n, r, good, calm := Ahead(s);
    t := StageBehind(s, n, r);
  }

  /** The next item, and the run from there. */
  lemma {:induction false} Ahead(s: Stage) returns (n: nat, r: Out, good: bool, calm: bool)
    requires s.Ready() && s.k < |s.j.items|
    ensures s.j.Used(s.k + 1, s.used + n)
    ensures Deemed(s.j, s.k, s.stale, good, calm) && ItemRan(s.j, s.k, s.mem, n, s.stale, r, good, calm, s.End())
    ensures if r.rc < 0 then s.all == r
            else TopRan(s.j.fs, r.mem, s.j.base, s.j.inb, s.j.pos, s.j.len, s.used + r.rc, r.count, r.reach, s.all)
  {
    n, r, good, calm := ItemOf(s);
    RestOf(s, r);
  }

  lemma {:induction false} ItemOf(s: Stage) returns (n: nat, r: Out, good: bool, calm: bool)
    requires s.Ready() && s.k < |s.j.items|
    ensures s.used < s.j.len && s.j.Used(s.k + 1, s.used + n)
    ensures TlvRan(s.j.fs, s.mem, s.j.base, s.j.inb, s.j.pos + s.used, s.stale, s.reach, r)
    ensures Deemed(s.j, s.k, s.stale, good, calm) && ItemRan(s.j, s.k, s.mem, n, s.stale, r, good, calm, s.End())
  {
    Alive(s);
    n, r, good, calm := ItemRuns(s.j, s.k, s.used, s.mem, s.stale, s.reach, s.End());
  }

  lemma {:induction false} RestOf(s: Stage, r: Out)
    requires s.Ready() && s.used < s.j.len
    requires TlvRan(s.j.fs, s.mem, s.j.base, s.j.inb, s.j.pos + s.used, s.stale, s.reach, r)
    ensures if r.rc < 0 then s.all == r
            else TopRan(s.j.fs, r.mem, s.j.base, s.j.inb, s.j.pos, s.j.len, s.used + r.rc, r.count, r.reach, s.all)
  {
    Alive(s);
    TopNext(s.j.fs, s.mem, s.j.base, s.j.inb, s.j.pos, s.j.len, s.used, s.stale, s.reach, r, s.all);
  }

  lemma {:induction false} Alive(s: Stage)
    requires s.Ready()
    ensures s.j.Sound() && s.k <= |s.j.items| && s.j.Used(s.k, s.used) && |s.mem| == |s.j.was| && s.stale < Wrap
    ensures TopRan(s.j.fs, s.mem, s.j.base, s.j.inb, s.j.pos, s.j.len, s.used, s.stale, s.reach, s.all)
  {
    assert Look(s);
  }

  /** The stage behind an item of n bytes, r being its run. */
  lemma {:induction false} StageBehind(s: Stage, n: nat, r: Out) returns (t: Stage)
    requires s.Ready() && s.k < |s.j.items| && s.j.Used(s.k + 1, s.used + n) && |r.mem| == |s.mem|
    requires r.rc < 0 || TopRan(s.j.fs, r.mem, s.j.base, s.j.inb, s.j.pos, s.j.len, s.used + r.rc, r.count, r.reach,
                                s.all)
    ensures t == Stage(s.j, s.k + 1, s.used + n, r.mem, r.count, r.reach, s.all)
    ensures r.rc == n && r.count < Wrap ==> t.Ready()
  {
    t := Stage(s.j, s.k + 1, s.used + n, r.mem, r.count, r.reach, s.all);
    if r.rc == n && r.count < Wrap {
      assert t.used == s.used + r.rc;
      assert TopRan(t.j.fs, t.mem, t.j.base, t.j.inb, t.j.pos, t.j.len, t.used, t.stale, t.reach, t.all);
      StillAlive(s, t);
    }
  }

  lemma {:induction false} StillAlive(s: Stage, t: Stage)
    requires s.Ready() && t.j == s.j && t.k <= |t.j.items| && t.j.Used(t.k, t.used)
    requires |t.mem| == |s.mem| && t.stale < Wrap
    requires TopRan(t.j.fs, t.mem, t.j.base, t.j.inb, t.j.pos, t.j.len, t.used, t.stale, t.reach, t.all)
    ensures t.Ready()
  {
    Alive(s);
  }

  lemma {:induction false} AtEnd(s: Stage)
    requires s.Ready() && s.k == |s.j.items|
    ensures s.all == Out(s.j.len, s.mem, s.reach, s.stale)
  {
    assert Look(s);
    assert Look(s.j);
    TopDone(s.j.fs, s.mem, s.j.base, s.j.inb, s.j.pos, s.j.len, s.stale, s.reach, s.all);
  }

  /** No field is sent twice, and every item consumes its bytes: then a wrong value stays wrong. */
  ghost predicate Traceable(j: Task) {
    DistinctFields(j.items) && forall k {:trigger Aligned(j, k)} :: 0 <= k < |j.items| ==> Aligned(j, k)
  }

  /** Traceable, out of sight. */
  ghost predicate KeptTraceable(j: Task) {
    forall u {:trigger Look(u)} :: Look(u) && u == j ==> Traceable(u)
  }

  /** The run failed, or the struct does not read as the items say. */
  ghost predicate Missed(j: Task, r: Out) {
    forall u {:trigger Look(u)} :: Look(u) && u == r ==> u.rc >= 0 ==>
        LoadAll(j.fs, u.mem, j.base, |j.fs|, Program) != j.Fields(|j.items|)
  }

  /** What the run over the items from k on comes to. */
  ghost predicate TopCame(j: Task, k: nat, stale: nat, r: Out)
    requires k <= |j.items|
  {
    var good, end := GoodItems(j.fs, j.items, k, stale), j.pos + j.len;
    && (good ==> r.rc == j.len && Held(j, r.mem, |j.items|) && r.reach <= end)
    && (!good && CalmItems(j.fs, j.items, k) ==> r.rc < 0 && r.reach <= end)
    && (!good && KeptTraceable(j) ==> Missed(j, r))
  }

  /** The same, out of sight. */
  ghost predicate Came(j: Task, k: nat, stale: nat, r: Out)
    requires k <= |j.items|
  {
    forall u {:trigger Look(u)} :: Look(u) && u == r ==> TopCame(j, k, stale, u)
  }

  lemma {:induction false} ItemsRun(s: Stage)
    requires s.Ready() && s.k <= |s.j.items| && Held(s.j, s.mem, s.k) && s.reach <= s.j.pos + s.j.len
    ensures Came(s.j, s.k, s.stale, s.all)
    decreases |s.j.items| - s.k, 1
  {
    if s.k == |s.j.items| {
      AtEnd(s);
    } else {
      var t, good, calm := Advance(s);
      RestRuns(s, t, good, calm);
      ItemsMore(s.j, s.k, s.stale, s.all, good, calm);
    }
  }

  /** The items behind item k, t being the stage there. */
  lemma {:induction false} RestRuns(s: Stage, t: Stage, good: bool, calm: bool)
    requires s.Ready() && s.k < |s.j.items| && Held(s.j, s.mem, s.k) && s.reach <= s.j.pos + s.j.len
    requires Advanced(s, t, good, calm)
    ensures good ==> Came(s.j, s.k + 1, StaleNext(s.j.items[s.k], s.stale), s.all)
    ensures !good && KeptTraceable(s.j) ==> Missed(s.j, s.all)
    decreases |s.j.items| - s.k, 0
  {
    if good {
      HeldNext(s, t);
      ItemsRun(t);
    } else if KeptTraceable(s.j) && s.all.rc >= 0 {
      TraceableHere(s.j, s.k);
      StaysSpoilt(s.k, t);
    }
  }

  lemma {:induction false} HeldNext(s: Stage, t: Stage)
    requires s.Ready() && s.k < |s.j.items| && Held(s.j, s.mem, s.k) && Touched(s.j, s.k, t.mem, s.mem)
    requires Holding(s.j, s.k, t.mem)
    ensures Held(s.j, t.mem, s.k + 1)
  {
    assert Look(s);
    HeldMore(s.j, s.k, s.mem, t.mem);
  }

  lemma {:induction false} TraceableHere(j: Task, k: nat)
    requires KeptTraceable(j) && k < |j.items|
    ensures Aligned(j, k)
  {
    assert Look(j);
  }

  lemma {:induction false} ItemsMore(j: Task, k: nat, stale: nat, all: Out, good: bool, calm: bool)
    requires k < |j.items| && Deemed(j, k, stale, good, calm)
    requires good ==> Came(j, k + 1, StaleNext(j.items[k], stale), all)
    requires !good && calm ==> all.rc < 0 && all.reach <= j.pos + j.len
    requires !good && KeptTraceable(j) ==> Missed(j, all)
    ensures Came(j, k, stale, all)
  {
    assert Look(all);
    assert Look(j.items[k]);
  }

  /** Once the field of item l is spoilt, the items behind it do not put it right. */
  lemma {:induction false} StaysSpoilt(l: nat, s: Stage)
    requires s.Ready() && l < s.k <= |s.j.items| && Spoilt(s.j, s.mem, l) && KeptTraceable(s.j) && s.all.rc >= 0
    ensures Missed(s.j, s.all)
    decreases |s.j.items| - s.k
  {
    if s.k == |s.j.items| {
      SpoiltAtEnd(l, s);
    } else {
      var t, good, calm := Advance(s);
      StillSpoilt(l, s, t);
      StaysSpoilt(l, t);
    }
  }

  lemma {:induction false} SpoiltAtEnd(l: nat, s: Stage)
    requires s.Ready() && l < s.k == |s.j.items| && Spoilt(s.j, s.mem, l) && KeptTraceable(s.j)
    ensures Missed(s.j, s.all)
  {
    var j := s.j;
    AtEnd(s);
    assert Look(s.mem);
    assert Look(j);
    LoadAllAt(j.fs, s.mem, j.base, |j.fs|, j.items[l].i, Program);
    ApplyGives(j.items, |j.items|, LoadAll(j.fs, j.was, j.base, |j.fs|, Program), l);
  }

  lemma {:induction false} StillSpoilt(l: nat, s: Stage, t: Stage)
    requires s.Ready() && l < s.k < |s.j.items| && Spoilt(s.j, s.mem, l) && KeptTraceable(s.j)
    requires Touched(s.j, s.k, t.mem, s.mem)
    ensures Aligned(s.j, s.k) && Spoilt(s.j, t.mem, l)
  {
    var j := s.j;
    assert Look(s) && Look(s.mem);
    assert Look(j);
    assert Aligned(j, s.k);
    if j.items[s.k].Known? {
      FieldKept(j.fs, j.size, true, s.mem, t.mem, j.base, j.items[s.k].i, j.items[l].i);
    }
  }

  /**
   The decoder's work on a well-framed message. It is decodable exactly when all its items come through, and then they
   do: the struct reads as the items say. Otherwise it is refused when no count can be misread; and when no field is
   sent twice and counts do not run over the end of a TLV, it is refused or the struct reads as something else.
   */
  lemma {:induction false} MessageRuns(j: Task)
    requires j.Valid()
    ensures var r, end := j.All(), j.pos + j.len;
            && (j.Decodable() ==>
                r.rc == j.len && LoadAll(j.fs, r.mem, j.base, |j.fs|, Program) == j.Fields(|j.items|) && r.reach <= end)
            && (!j.Decodable() && Tight(j.fs) && ItemsFit(j.fs, j.items, |j.items|) ==> r.rc < 0 && r.reach <= end)
            && (Traceable(j) && r.rc >= 0 && LoadAll(j.fs, r.mem, j.base, |j.fs|, Program) == j.Fields(|j.items|) ==>
                j.Decodable())
  {
    var n := |j.items|;
    GoodFromHere(j.fs, j.items, n);
    assert Held(j, j.was, 0);
    ItemsRun(Stage(j, 0, 0, j.was, 0, 0, j.All()));
    assert Look(j.All());
    if Tight(j.fs) && ItemsFit(j.fs, j.items, n) {
      CalmWhenTight(j.fs, j.items, 0, n);
    }
    assert Look(j.All().mem);
  }
}
