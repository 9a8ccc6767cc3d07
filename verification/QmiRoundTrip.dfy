/** What is read from a C struct and sent is a value the decoder accepts; permuting and extending messages. */
module QmiRoundTrip {
  import opened Bytes
  import opened QmiDescriptor
  import opened QmiValue
  import opened QmiScript
  import opened QmiTopRun
  import E = QmiEncode
  import D = QmiDecode

  /** What the encoder reads and may send is a value in the sense of the decoder. */
  lemma {:induction false} LoadedOk(f: Field, size: nat, top: bool, mem: seq<u8>, base: nat)
    requires WfField(f, size, top) && base + size <= |mem|
    requires var v := LoadValue(f, mem, base, Codec); Sendable(f, v) && |Payload(f, v, top)| < 0x1_0000
    ensures OkVal(f, LoadValue(f, mem, base, Codec), top)
    decreases f, 1
  {
    var n, v := CountIn(f, mem, base, Codec), LoadValue(f, mem, base, Codec);
    LoadValueIs(f, mem, base, Codec);
    CountBound(f, mem, base);
    match f.kind
    case Basic(_) =>
      E.BasicValue(f, size, top, mem, base);
      SpanMono(0, n, f.elemSize);
      CountFits(f, size, top, n);
    case Str =>
    case Struct(sub) =>
      StructsLoadedOk(f, size, top, mem, base, sub, v.recs, n);
      CountFits(f, size, top, n);
  }

  lemma {:induction false} StructsLoadedOk(f: Field, size: nat, top: bool, mem: seq<u8>, base: nat, sub: seq<Field>,
                                           rs: seq<seq<Val>>, n: nat)
    requires WfField(f, size, top) && base + size <= |mem| && f.kind == Struct(sub) && n <= Capacity(f)
    requires rs == LoadRecs(sub, mem, base + f.off, f.elemSize, n, Codec) && Sendable(f, Recs(rs))
    requires |WireRecs(sub, rs, n)| < 0x1_0000
    ensures OkRecs(sub, rs, n) && n < 0x1_0000
    decreases f, 0
  {
    SpanMono(n, Capacity(f), f.elemSize);
    RecsLoadedOk(sub, f.elemSize, mem, base + f.off, n, n, rs);
    RecsAtLeast(sub, f.elemSize, rs, n);
  }

  /** A length member read through lenSize bytes. */
  lemma {:induction false} CountBound(f: Field, mem: seq<u8>, base: nat)
    ensures f.count.Counted? ==> CountIn(f, mem, base, Codec) < Pow256(f.count.lenSize)
  {
    if f.count.Counted? {
      LeBound(Peek(mem, base + f.count.lenOff, f.count.lenSize));
    }
  }

  /** Each struct takes at least one byte. */
  lemma {:induction false} RecsAtLeast(fs: seq<Field>, size: nat, rs: seq<seq<Val>>, n: nat)
    requires WfFields(fs, size, false) && |fs| > 0 && n <= |rs| && OkRecs(fs, rs, n)
    ensures n <= |WireRecs(fs, rs, n)|
  {
    if n > 0 {
      RecsAtLeast(fs, size, rs, n - 1);
      RecsNonEmpty(fs, size, rs, n);
    }
  }

  lemma {:induction false} CountFits(f: Field, size: nat, top: bool, n: nat)
    requires WfField(f, size, top) && n <= Capacity(f) && n < 0x1_0000
    requires f.count.Counted? ==> n < Pow256(f.count.lenSize)
    requires f.count.Fixed? ==> n == f.elemLen
    requires f.count.One? ==> n == 1
    ensures CountOk(f, n)
  {
    assert Pow256(2) == 256 * Pow256(1);
  }

  lemma {:induction false} RecsLoadedOk(fs: seq<Field>, size: nat, mem: seq<u8>, p: nat, n: nat, i: nat,
                                        rs: seq<seq<Val>>)
    requires WfFields(fs, size, false) && i <= n && p + Span(n, size) <= |mem|
    requires rs == LoadRecs(fs, mem, p, size, n, Codec)
    requires (forall k :: 0 <= k < n ==> AllSendable(fs, rs[k])) && |WireRecs(fs, rs, n)| < 0x1_0000
    ensures OkRecs(fs, rs, i)
    decreases fs, |fs| + 1, i
  {
    if i > 0 {
      RecsLoadedOk(fs, size, mem, p, n, i - 1, rs);
      RecLoadedOk(fs, size, mem, p, n, i - 1, rs);
    }
  }

  lemma {:induction false} RecLoadedOk(fs: seq<Field>, size: nat, mem: seq<u8>, p: nat, n: nat, i: nat,
                                       rs: seq<seq<Val>>)
    requires WfFields(fs, size, false) && i < n && p + Span(n, size) <= |mem|
    requires rs == LoadRecs(fs, mem, p, size, n, Codec)
    requires AllSendable(fs, rs[i]) && |WireRecs(fs, rs, n)| < 0x1_0000
    ensures OkVals(fs, rs[i], |fs|)
    decreases fs, |fs| + 1, 0
  {
    LoadRecsAt(fs, mem, p, size, n, i, Codec);
    RecWithin(fs, rs, n, i);
    SpanMono(i, n, size);
    AllLoadedOk(fs, size, mem, p + Span(i, size), |fs|);
  }

  lemma {:induction false} RecWithin(fs: seq<Field>, rs: seq<seq<Val>>, n: nat, i: nat)
    requires i < n <= |rs| && |rs[i]| == |fs|
    ensures |Wire(fs, rs[i], |fs|, false)| <= |WireRecs(fs, rs, n)|
  {
    E.RecStep(fs, rs, i);
    WireRecsMono(fs, rs, i + 1, n);
  }

  lemma {:induction false} AllLoadedOk(fs: seq<Field>, size: nat, mem: seq<u8>, base: nat, g: nat)
    requires WfFields(fs, size, false) && g <= |fs| && base + size <= |mem|
    requires var vs := LoadAll(fs, mem, base, |fs|, Codec);
             AllSendable(fs, vs) && |Wire(fs, vs, |fs|, false)| < 0x1_0000
    ensures OkVals(fs, LoadAll(fs, mem, base, |fs|, Codec), g)
    decreases fs, g
  {
    if g > 0 {
      AllLoadedOk(fs, size, mem, base, g - 1);
      ValLoadedOk(fs, size, mem, base, g - 1);
    }
  }

  lemma {:induction false} ValLoadedOk(fs: seq<Field>, size: nat, mem: seq<u8>, base: nat, g: nat)
    requires WfFields(fs, size, false) && g < |fs| && base + size <= |mem|
    requires var vs := LoadAll(fs, mem, base, |fs|, Codec);
             AllSendable(fs, vs) && |Wire(fs, vs, |fs|, false)| < 0x1_0000
    ensures OkVal(fs[g], LoadAll(fs, mem, base, |fs|, Codec)[g], false)
    decreases fs, 0
  {
    var vs := LoadAll(fs, mem, base, |fs|, Codec);
    LoadAllAt(fs, mem, base, |fs|, g, Codec);
    E.FlagRead(fs[g], size, false, mem, base);
    WireMono(fs, vs, g + 1, |fs|, false);
    WireStep(fs, vs, g, false);
    assert WfField(fs[g], size, false);
    assert !vs[g].Absent?;
    LoadedOk(fs[g], size, false, mem, base);
  }

  /** A struct's values as the items of its message. */
  lemma {:induction false} MessageItems(fs: seq<Field>, size: nat, mem: seq<u8>)
    requires WfFields(fs, size, true) && size <= |mem|
    requires var vs := LoadAll(fs, mem, 0, |fs|, Codec); AllSendable(fs, vs) && |Wire(fs, vs, |fs|, true)| < 0x1_0000
    ensures var items := Present(LoadAll(fs, mem, 0, |fs|, Codec), |fs|);
            OkItems(fs, items, |items|, true) && Tolerated(items, |items|)
  {
    var vs := LoadAll(fs, mem, 0, |fs|, Codec);
    forall h | 0 <= h < |fs| && !vs[h].Absent? ensures OkItem(fs, Known(h, vs[h]), true) {
      FieldLoadedOk(fs, size, mem, h);
    }
    PresentOk(fs, vs, |fs|);
  }

  lemma {:induction false} PresentOk(fs: seq<Field>, vs: seq<Val>, g: nat)
    requires g <= |fs| == |vs| && forall h :: 0 <= h < g && !vs[h].Absent? ==> OkItem(fs, Known(h, vs[h]), true)
    ensures var items := Present(vs, g); OkItems(fs, items, |items|, true) && Tolerated(items, |items|)
  {
    if g > 0 {
      PresentOk(fs, vs, g - 1);
      if !vs[g - 1].Absent? {
        OkItemsMore(fs, Present(vs, g - 1), Known(g - 1, vs[g - 1]));
      }
    }
  }

  lemma {:induction false} OkItemsMore(fs: seq<Field>, items: seq<Item>, it: Item)
    requires OkItems(fs, items, |items|, true) && Tolerated(items, |items|) && OkItem(fs, it, true) && it.Known?
    ensures OkItems(fs, items + [it], |items| + 1, true) && Tolerated(items + [it], |items| + 1)
  {
    OkItemsPrefix(fs, items, items + [it], |items|, true);
    ToleratedPrefix(items, items + [it], |items|);
  }

  lemma {:induction false} FieldLoadedOk(fs: seq<Field>, size: nat, mem: seq<u8>, g: nat)
    requires WfFields(fs, size, true) && g < |fs| && size <= |mem|
    requires var vs := LoadAll(fs, mem, 0, |fs|, Codec);
             AllSendable(fs, vs) && |Wire(fs, vs, |fs|, true)| < 0x1_0000 && !vs[g].Absent?
    ensures var v := LoadAll(fs, mem, 0, |fs|, Codec)[g]; OkItem(fs, Known(g, v), true)
  {
    var vs := LoadAll(fs, mem, 0, |fs|, Codec);
    LoadAllAt(fs, mem, 0, |fs|, g, Codec);
    E.FlagRead(fs[g], size, true, mem, 0);
    WireMono(fs, vs, g + 1, |fs|, true);
    WireStep(fs, vs, g, true);
    assert WfField(fs[g], size, true);
    LoadedOk(fs[g], size, true, mem, 0);
  }

  /** Each field is sent once, in the order of the table. */
  lemma {:induction false} PresentOnce(vs: seq<Val>, g: nat)
    requires g <= |vs|
    ensures DistinctFields(Present(vs, g))
    ensures forall k :: 0 <= k < |Present(vs, g)| ==> Present(vs, g)[k].Known? && Present(vs, g)[k].i < g
  {
    if g > 0 {
      PresentOnce(vs, g - 1);
    }
  }

  /** The strings of the message fit when those of the struct do. */
  lemma {:induction false} PresentFit(fs: seq<Field>, vs: seq<Val>, g: nat)
    requires g <= |fs| == |vs|
    ensures ItemsFit(fs, Present(vs, g), |Present(vs, g)|) <==>
              forall h :: 0 <= h < g ==> StringsFit(fs[h], vs[h], true)
  {
    if g > 0 {
      PresentFit(fs, vs, g - 1);
      if !vs[g - 1].Absent? {
        ItemsFitMore(fs, Present(vs, g - 1), Known(g - 1, vs[g - 1]));
      }
    }
  }

  lemma {:induction false} ItemsFitMore(fs: seq<Field>, items: seq<Item>, it: Item)
    ensures ItemsFit(fs, items + [it], |items| + 1) <==> ItemsFit(fs, items, |items|) && ItemFits(fs, it)
  {
    ItemsFitPrefix(fs, items, items + [it], |items|);
  }

  lemma {:induction false} ItemsFitPrefix(fs: seq<Field>, a: seq<Item>, b: seq<Item>, k: nat)
    requires k <= |a| && k <= |b| && a[..k] == b[..k]
    ensures ItemsFit(fs, a, k) == ItemsFit(fs, b, k)
  {
    if k > 0 {
      assert a[..k - 1] == a[..k][..k - 1] == b[..k - 1];
      assert a[k - 1] == a[..k][k - 1] == b[k - 1];
      ItemsFitPrefix(fs, a, b, k - 1);
    }
  }

  lemma {:induction false} ToleratedPrefix(a: seq<Item>, b: seq<Item>, k: nat)
    requires k <= |a| && k <= |b| && a[..k] == b[..k] && Tolerated(a, k)
    ensures Tolerated(b, k)
  {
    if k > 0 {
      assert a[..k - 1] == a[..k][..k - 1] == b[..k - 1];
      assert a[k - 1] == a[..k][k - 1] == b[k - 1];
      ToleratedPrefix(a, b, k - 1);
    }
  }

  /** The presence flags of the struct are zero. */
  predicate FlagsClear(fs: seq<Field>, out: seq<u8>) {
    forall g :: 0 <= g < |fs| && fs[g].flag.Some? ==> fs[g].flag.value < |out| && out[fs[g].flag.value] == 0
  }

  /** Decoding a message over a struct whose presence flags are clear gives the values the encoder read. */
  lemma {:induction false} ReplayGivesValues(fs: seq<Field>, size: nat, mem: seq<u8>, out: seq<u8>)
    requires WfFields(fs, size, true) && size <= |mem| && size <= |out|
    requires FlagsClear(fs, out)
    ensures var vs := LoadAll(fs, mem, 0, |fs|, Codec);
            var items := Present(vs, |fs|);
            Apply(items, |items|, LoadAll(fs, out, 0, |fs|, Program)) == vs
  {
    var vs, start := LoadAll(fs, mem, 0, |fs|, Codec), LoadAll(fs, out, 0, |fs|, Program);
    forall k | 0 <= k < |fs| && vs[k].Absent? ensures start[k].Absent? {
      AbsentHere(fs, size, mem, out, k);
    }
    ApplyPresent(vs, |fs|, start);
    assert vs[..|fs|] + start[|fs|..] == vs;
  }

  lemma {:induction false} AbsentHere(fs: seq<Field>, size: nat, mem: seq<u8>, out: seq<u8>, k: nat)
    requires WfFields(fs, size, true) && size <= |mem| && size <= |out| && FlagsClear(fs, out) && k < |fs|
    requires LoadAll(fs, mem, 0, |fs|, Codec)[k].Absent?
    ensures LoadAll(fs, out, 0, |fs|, Program)[k].Absent?
  {
    LoadAllAt(fs, mem, 0, |fs|, k, Codec);
    LoadAllAt(fs, out, 0, |fs|, k, Program);
    assert WfField(fs[k], size, true);
    NotAbsent(fs[k], mem, 0, Codec);
  }

  lemma {:induction false} NotAbsent(f: Field, mem: seq<u8>, base: nat, r: Reader)
    ensures !LoadValue(f, mem, base, r).Absent?
  {
  }

  // ---------- Order and extension ----------

  /** The order of the TLVs of a message does not matter for the struct it decodes to. */
  lemma {:induction false} OrderIndependent(a: seq<Item>, b: seq<Item>, vs: seq<Val>)
    requires DistinctFields(a) && DistinctFields(b)
    requires forall it :: it in a <==> it in b
    ensures Apply(a, |a|, vs) == Apply(b, |b|, vs)
  {
    forall i | 0 <= i < |vs| ensures Apply(a, |a|, vs)[i] == Apply(b, |b|, vs)[i] {
      if k :| 0 <= k < |a| && a[k].Known? && a[k].i == i {
        assert a[k] in b;
        var l :| 0 <= l < |b| && b[l] == a[k];
        ApplyGives(a, |a|, vs, k);
        ApplyGives(b, |b|, vs, l);
      } else {
        forall l | 0 <= l < |b| && b[l].Known? ensures b[l].i != i {
          assert b[l] in a;
          var k :| 0 <= k < |a| && a[k] == b[l];
        }
        ApplyKeeps(a, |a|, vs, i);
        ApplyKeeps(b, |b|, vs, i);
      }
    }
  }

  lemma {:induction false} ToleratedAll(items: seq<Item>, k: nat)
    requires k <= |items|
    ensures Tolerated(items, k) <==> forall n :: 0 <= n < k && items[n].Unknown? ==> items[n].tlv >= 16
  {
    if k > 0 {
      ToleratedAll(items, k - 1);
    }
  }

  lemma {:induction false} ItemsFitAll(fs: seq<Field>, items: seq<Item>, k: nat)
    requires k <= |items|
    ensures ItemsFit(fs, items, k) <==> forall n :: 0 <= n < k ==> ItemFits(fs, items[n])
  {
    if k > 0 {
      ItemsFitAll(fs, items, k - 1);
    }
  }

  /** In another order a message is as decodable, but for the lengths that its arrays leave behind. */
  lemma {:induction false} OrderDecodable(a: Task, b: Task)
    requires a.fs == b.fs && (forall it :: it in a.items <==> it in b.items) && a.Decodable()
    ensures ItemsFit(b.fs, b.items, |b.items|) && (b.Decodable() <==> Clean(b.fs, b.items, |b.items|))
  {
    ToleratedAll(a.items, |a.items|);
    ToleratedAll(b.items, |b.items|);
    ItemsFitAll(a.fs, a.items, |a.items|);
    ItemsFitAll(b.fs, b.items, |b.items|);
    forall n | 0 <= n < |b.items|
      ensures ItemFits(b.fs, b.items[n]) && (b.items[n].Unknown? ==> b.items[n].tlv >= 16) {
      assert b.items[n] in a.items;
    }
  }

  ghost predicate SameStructs(fs: seq<Field>, now: seq<u8>, other: seq<u8>) {
    LoadAll(fs, now, 0, |fs|, Program) == LoadAll(fs, other, 0, |fs|, Program)
  }

  lemma {:induction false} OrdersAgree(a: Task, b: Task)
    requires a.Valid() && b.Valid() && a.fs == b.fs && a.base == b.base == 0 && a.Fields(0) == b.Fields(0)
    requires DistinctFields(a.items) && DistinctFields(b.items) && forall it :: it in a.items <==> it in b.items
    ensures a.Decodable() && Clean(b.fs, b.items, |b.items|) ==>
              a.All().rc == a.len && b.All().rc == b.len && SameStructs(a.fs, a.All().mem, b.All().mem)
    ensures Tight(a.fs) && ItemsFit(a.fs, a.items, |a.items|) && a.All().rc >= 0 && b.All().rc >= 0 ==>
              SameStructs(a.fs, a.All().mem, b.All().mem)
  {
    MessageRuns(a);
    MessageRuns(b);
    if a.Decodable() {
      OrderDecodable(a, b);
      OrderIndependent(a.items, b.items, a.Fields(0));
    }
  }

  /** Two orders of the same TLVs, decoded into structs of the same values, leave the same values. */
  method DecodeBothOrders(ei: seq<Elem>, memA: array<u8>, memB: array<u8>, inbA: seq<u8>, inbB: seq<u8>, lenA: nat,
                          lenB: nat, ghost a: Task, ghost b: Task)
    returns (ra: int, rb: int)
    requires a.Valid() && b.Valid() && a.fs == b.fs && a.size == b.size && Represents(ei, a.fs)
    requires DistinctTypes(ei, a.fs)
    requires DistinctFields(a.items) && DistinctFields(b.items) && forall it :: it in a.items <==> it in b.items
    requires a == Task(a.fs, a.size, 0, inbA, 0, lenA, a.items, memA[..])
    requires b == Task(b.fs, b.size, 0, inbB, 0, lenB, b.items, memB[..])
    requires memA != memB && a.Fields(0) == b.Fields(0)
    requires a.All().reach <= |inbA| && b.All().reach <= |inbB|
    modifies memA, memB
    ensures a.Decodable() && Clean(b.fs, b.items, |b.items|) ==>
              ra == lenA && rb == lenB && SameStructs(a.fs, memA[..], memB[..])
    ensures Tight(a.fs) && ItemsFit(a.fs, a.items, |a.items|) && ra >= 0 && rb >= 0 ==>
              SameStructs(a.fs, memA[..], memB[..])
  {
    OrdersAgree(a, b);
    ra := D.Decode(ei, memA, 0, inbA, 0, lenA, 1, a.fs, a.size, 0);
    rb := D.Decode(ei, memB, 0, inbB, 0, lenB, 1, b.fs, b.size, 0);
  }

  /** Two inputs with the same effect, the first `extra` bytes longer. */
  ghost predicate SameEffect(fs: seq<Field>, long: seq<Item>, short: seq<Item>, vs: seq<Val>, extra: nat) {
    && Apply(long, |long|, vs) == Apply(short, |short|, vs)
    && |ScriptBytes(fs, long, |long|, true)| == |ScriptBytes(fs, short, |short|, true)| + extra
    && Clean(fs, long, |long|) == Clean(fs, short, |short|)
    && Tolerated(long, |long|) == Tolerated(short, |short|)
    && ItemsFit(fs, long, |long|) == ItemsFit(fs, short, |short|)
    && Stale(fs, long, |long|) == Stale(fs, short, |short|)
  }

  lemma {:induction false} ExtendBoth(fs: seq<Field>, long: seq<Item>, short: seq<Item>, it: Item, vs: seq<Val>,
                                      extra: nat)
    requires SameEffect(fs, long, short, vs, extra)
    ensures SameEffect(fs, long + [it], short + [it], vs, extra)
  {
    Extend(fs, long, it, vs);
    Extend(fs, short, it, vs);
  }

  /** Inserting a TLV of an unknown optional type anywhere changes nothing but the length. */
  lemma {:induction false} UnknownIgnored(fs: seq<Field>, a: seq<Item>, tlv: u8, payload: seq<u8>, b: seq<Item>,
                                          vs: seq<Val>)
    requires tlv >= 16
    ensures SameEffect(fs, a + [Unknown(tlv, payload)] + b, a + b, vs, 3 + |payload|)
    decreases |b|
  {
    var u := Unknown(tlv, payload);
    if |b| == 0 {
      assert a + [u] + b == a + [u] && a + b == a;
      OneUnknown(fs, a, tlv, payload, vs);
    } else {
      var front, last := b[..|b| - 1], b[|b| - 1];
      UnknownIgnored(fs, a, tlv, payload, front, vs);
      UnknownBetween(a, u, front, last, b);
      ExtendBoth(fs, a + [u] + front, a + front, last, vs, 3 + |payload|);
    }
  }

  /** The message of b, and that of a, which has a TLV of an unknown optional type more somewhere. */
  ghost predicate Extends(a: Task, b: Task, x: seq<Item>, tlv: u8, payload: seq<u8>, y: seq<Item>) {
    && a.Valid() && b.Valid() && a.fs == b.fs && a.size == b.size && a.base == b.base == 0 && a.Fields(0) == b.Fields(0)
    && tlv >= 16 && a.items == x + [Unknown(tlv, payload)] + y && b.items == x + y
  }

  /** They decode alike. */
  lemma {:induction false} ExtensionIgnored(a: Task, b: Task, x: seq<Item>, tlv: u8, payload: seq<u8>, y: seq<Item>)
    requires Extends(a, b, x, tlv, payload, y)
    ensures a.Decodable() <==> b.Decodable()
    ensures a.Decodable() ==>
              a.All().rc == b.All().rc + 3 + |payload| && b.All().rc >= 0 && SameStructs(a.fs, a.All().mem, b.All().mem)
    ensures Tight(a.fs) && ItemsFit(b.fs, b.items, |b.items|) ==> (a.All().rc < 0 <==> b.All().rc < 0)
  {
    UnknownIgnored(a.fs, x, tlv, payload, y, a.Fields(0));
    MessageRuns(a);
    MessageRuns(b);
  }

  /** Two runs of the decoder, with the unknown TLV and without it, into structs of the same values. */
  method DecodeExtended(ei: seq<Elem>, memA: array<u8>, memB: array<u8>, inbA: seq<u8>, inbB: seq<u8>, lenA: nat,
                        lenB: nat, ghost a: Task, ghost b: Task, ghost x: seq<Item>, ghost tlv: u8,
                        ghost payload: seq<u8>, ghost y: seq<Item>)
    returns (ra: int, rb: int)
    requires Extends(a, b, x, tlv, payload, y) && Represents(ei, a.fs) && DistinctTypes(ei, a.fs)
    requires a == Task(a.fs, a.size, 0, inbA, 0, lenA, a.items, memA[..])
    requires b == Task(b.fs, b.size, 0, inbB, 0, lenB, b.items, memB[..])
    requires memA != memB && a.All().reach <= |inbA| && b.All().reach <= |inbB|
    modifies memA, memB
    ensures a.Decodable() <==> b.Decodable()
    ensures a.Decodable() ==> ra == rb + 3 + |payload| && rb == lenB && SameStructs(a.fs, memA[..], memB[..])
    ensures Tight(a.fs) && ItemsFit(b.fs, b.items, |b.items|) ==> (ra < 0 <==> rb < 0)
  {
    ExtensionIgnored(a, b, x, tlv, payload, y);
    MessageRuns(b);
    ra := D.Decode(ei, memA, 0, inbA, 0, lenA, 1, a.fs, a.size, 0);
    rb := D.Decode(ei, memB, 0, inbB, 0, lenB, 1, b.fs, b.size, 0);
  }

  lemma {:induction false} OneUnknown(fs: seq<Field>, a: seq<Item>, tlv: u8, payload: seq<u8>, vs: seq<Val>)
    requires tlv >= 16
    ensures SameEffect(fs, a + [Unknown(tlv, payload)], a, vs, 3 + |payload|)
  {
    Extend(fs, a, Unknown(tlv, payload), vs);
  }

  lemma {:induction false} UnknownBetween(a: seq<Item>, u: Item, front: seq<Item>, last: Item, b: seq<Item>)
    requires b == front + [last]
    ensures a + [u] + b == (a + [u] + front) + [last] && a + b == (a + front) + [last]
  {
  }

  /** The effect of one more item at the end. */
  lemma {:induction false} Extend(fs: seq<Field>, a: seq<Item>, it: Item, vs: seq<Val>)
    ensures var n, b := |a|, a + [it];
            && Apply(b, n + 1, vs) ==
               (var r := Apply(a, n, vs); if it.Known? && it.i < |vs| then r[it.i := it.v] else r)
            && ScriptBytes(fs, b, n + 1, true) == ScriptBytes(fs, a, n, true) + ItemBytes(fs, it, true)
            && (Clean(fs, b, n + 1) <==> Clean(fs, a, n) && CleanItem(fs, it, Stale(fs, a, n)))
            && (Tolerated(b, n + 1) <==> Tolerated(a, n) && (it.Unknown? ==> it.tlv >= 16))
            && Stale(fs, b, n + 1) == (if it.Known? then NumElems(it.v) else Stale(fs, a, n))
            && (ItemsFit(fs, b, n + 1) <==> ItemsFit(fs, a, n) && ItemFits(fs, it))
  {
    var n, b := |a|, a + [it];
    ItemsFitAll(fs, a, n);
    ItemsFitAll(fs, b, n);
    assert forall k :: 0 <= k < n ==> b[k] == a[k];
    assert b[..n] == a[..n];
    ApplyPrefix(a, b, n, vs);
    ScriptBytesPrefix(fs, a, b, n, true);
    StalePrefix(fs, a, b, n);
    if Tolerated(a, n) {
      ToleratedPrefix(a, b, n);
    }
    if Tolerated(b, n) {
      ToleratedPrefix(b, a, n);
    }
  }

  lemma {:induction false} StalePrefix(fs: seq<Field>, a: seq<Item>, b: seq<Item>, k: nat)
    requires k <= |a| && k <= |b| && a[..k] == b[..k]
    ensures Stale(fs, a, k) == Stale(fs, b, k) && Clean(fs, a, k) == Clean(fs, b, k)
  {
    if k > 0 {
      assert a[..k - 1] == a[..k][..k - 1] == b[..k - 1];
      assert a[k - 1] == a[..k][k - 1] == b[k - 1];
      StalePrefix(fs, a, b, k - 1);
    }
  }

  // ---------- The decoder's leftover length ----------

  /** Messages without long arrays decode in any order. */
  lemma {:induction false} ShortArraysClean(fs: seq<Field>, items: seq<Item>, k: nat)
    requires k <= |items|
    requires forall n :: 0 <= n < |items| && items[n].Known? && items[n].i < |fs| ==>
               NumElems(items[n].v) < 256 && CleanVal(fs[items[n].i], items[n].v)
    requires forall n :: 0 <= n < |items| && items[n].Known? ==> items[n].i < |fs|
    ensures Clean(fs, items, k) && Stale(fs, items, k) < 256
  {
    if k > 0 {
      ShortArraysClean(fs, items, k - 1);
      assert Pow256(1) == 256 * Pow256(0) && Pow256(2) == 256 * Pow256(1);
    }
  }
}
