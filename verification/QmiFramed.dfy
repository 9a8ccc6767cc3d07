/**
 The decoder on well-framed input: when it succeeds, when it gives the sent values back, and how far it reads. A nested
 string longer than its length prefix can count, or a count picked up over leftover bytes, makes the values wrong.
 */
module QmiFramed {
  import opened Bytes
  import opened QmiDescriptor
  import opened QmiValue
  import opened QmiAccept
  import opened QmiScript
  import opened QmiRun

  // ---------- Strings ----------

  lemma {:induction false} StrLenOf(mem: seq<u8>, p: nat, chars: seq<u8>)
    requires p + |chars| < |mem| && mem[p..p + |chars|] == chars && 0 !in chars && mem[p + |chars|] == 0
    ensures StrLen(mem, p) == |chars|
    decreases |chars|
  {
    if |chars| > 0 {
      assert mem[p] == chars[0];
      assert mem[p + 1..p + |chars|] == chars[1..];
      StrLenOf(mem, p + 1, chars[1..]);
    }
  }

  /** The length read for a string: inside a struct, what its prefix can hold of it. */
  function Prefixed(f: Field, k: nat, top: bool): nat {
    if top then k else k % Pow256(StrWidth(f))
  }

  lemma {:induction false} PrefixedIff(f: Field, k: nat, top: bool)
    ensures Prefixed(f, k, top) <= k && (Prefixed(f, k, top) == k <==> top || k < Pow256(StrWidth(f)))
  {
    if !top && k < Pow256(StrWidth(f)) {
      SmallMod(k, Pow256(StrWidth(f)));
    }
  }

  lemma {:induction false} SmallMod(k: nat, m: nat)
    requires k < m
    ensures k % m == k
  {
  }

  /** The string at dst is this one. */
  ghost predicate Holds(mem: seq<u8>, dst: nat, chars: seq<u8>) {
    dst + |chars| <= |mem| && StrLen(mem, dst) == |chars| && mem[dst..dst + |chars|] == chars
  }

  lemma {:induction false} StoredString(mem: seq<u8>, dst: nat, chars: seq<u8>, k: nat, inb: seq<u8>, at: nat)
    requires k <= |chars| && 0 !in chars && dst + k + 1 <= |mem| && StandsAt(chars, inb, at)
    ensures Peek(inb, at, k) == chars[..k] && Holds(Splice(mem, dst, chars[..k] + [0]), dst, chars[..k])
  {
    assert inb[at..at + k] == chars[..k];
    var now := Splice(mem, dst, chars[..k] + [0]);
    assert now[dst..dst + k] == chars[..k];
    StrLenOf(now, dst, chars[..k]);
  }

  /** The prefix of a nested string, and the characters behind it. */
  lemma {:induction false} StringParts(f: Field, chars: seq<u8>, inb: seq<u8>, src: nat, w: nat, k: nat)
    requires w == StrWidth(f) && k == Prefixed(f, |chars|, false) && StandsAt(StrBody(f, chars, false), inb, src)
    ensures Le(Peek(inb, src, w)) == k && StandsAt(chars, inb, src + w)
  {
    var b, p := StrBody(f, chars, false), Low(|chars|, w);
    Chunk(inb, src, b, [], p, p, src);
    Chunk(inb, src, b, p, chars, b, src + w);
    PrefixRead(inb, src, |chars|, w);
  }

  lemma {:induction false} PrefixRead(inb: seq<u8>, src: nat, n: nat, w: nat)
    requires StandsAt(Low(n, w), inb, src)
    ensures Le(Peek(inb, src, w)) == n % Pow256(w)
  {
    StandsAtSlice(Low(n, w), inb, src);
    LeOfLowMod(n, w);
  }

  /** A framed string is cut to the length its prefix gives, and nothing else goes wrong. */
  lemma {:induction false} StringRuns(f: Field, mem: seq<u8>, dst: nat, chars: seq<u8>, inb: seq<u8>, src: nat,
                                      tlvLen: nat, top: bool, reach: nat, w: nat, k: nat)
    requires f.kind.Str? && |chars| <= f.elemLen && 0 !in chars && dst + f.elemLen + 1 <= |mem|
    requires StandsAt(StrBody(f, chars, top), inb, src)
    requires if top then tlvLen == |chars| else tlvLen >= |StrBody(f, chars, false)|
    requires w == (if top then 0 else StrWidth(f)) && k == Prefixed(f, |chars|, top) && k <= |chars|
    ensures var r := RunString(f, mem, dst, inb, src, tlvLen, top, reach);
            r.rc == w + k && r.reach <= Max(reach, src + w + |chars|) && Holds(r.mem, dst, chars[..k])
  {
    if top {
      assert StrBody(f, chars, true) == chars;
    } else {
      StringParts(f, chars, inb, src, w, k);
    }
    StoredString(mem, dst, chars, k, inb, src + w);
  }

  /** So the string that is stored is the one that was sent if and only if its prefix can count it. */
  lemma {:induction false} StringHolds(f: Field, size: nat, mem: seq<u8>, base: nat, chars: seq<u8>, inb: seq<u8>,
                                       src: nat, tlvLen: nat, top: bool, reach: nat)
    requires WfField(f, size, top) && f.kind.Str? && |chars| <= f.elemLen && 0 !in chars && base + size <= |mem|
    requires StandsAt(StrBody(f, chars, top), inb, src)
    requires if top then tlvLen == |chars| else tlvLen >= |StrBody(f, chars, false)|
    ensures var r := RunString(f, mem, base + f.off, inb, src, tlvLen, top, reach);
            && r.rc >= 0 && r.reach <= Max(reach, src + |StrBody(f, chars, top)|)
            && (LoadBody(f, r.mem, base, 1, Program) == Text(chars) <==> top || |chars| < Pow256(StrWidth(f)))
            && (top || |chars| < Pow256(StrWidth(f)) ==> r.rc == |StrBody(f, chars, top)|)
  {
    var w, k := if top then 0 else StrWidth(f), Prefixed(f, |chars|, top);
    PrefixedIff(f, |chars|, top);
    StringRuns(f, mem, base + f.off, chars, inb, src, tlvLen, top, reach, w, k);
    var r := RunString(f, mem, base + f.off, inb, src, tlvLen, top, reach);
    TextAt(f, r.mem, base, base + f.off, chars[..k]);
    assert k == |chars| ==> chars[..k] == chars;
  }

  lemma {:induction false} TextAt(f: Field, mem: seq<u8>, base: nat, p: nat, chars: seq<u8>)
    requires f.kind.Str? && p == base + f.off && |chars| <= f.elemLen && Holds(mem, p, chars)
    ensures LoadBody(f, mem, base, 1, Program) == Text(chars)
  {
  }

  // ---------- What is to be shown of a run ----------

  /** The length variable carries nothing over into the count of field f, nor do those of its structs. */
  predicate CleanField(f: Field, v: Val, stale: nat) {
    (f.count.Counted? ==> stale < Pow256(LenWidth(f))) && CleanVal(f, v)
  }

  /** The value comes through. */
  predicate GoodVal(f: Field, v: Val, top: bool) {
    CleanVal(f, v) && StringsFit(f, v, top)
  }

  predicate GoodField(f: Field, v: Val, stale: nat, top: bool) {
    CleanField(f, v, stale) && StringsFit(f, v, top)
  }

  /** What the length variable holds when field g of a nested struct is read. */
  function StaleAt(vs: seq<Val>, g: nat): nat
    requires g <= |vs|
  {
    if g == 0 then 0 else NumElems(vs[g - 1])
  }

  predicate GoodFrom(fs: seq<Field>, vs: seq<Val>, g: nat)
    requires g <= |fs| == |vs|
    decreases |fs| - g
  {
    g == |fs| || (GoodField(fs[g], vs[g], StaleAt(vs, g), false) && GoodFrom(fs, vs, g + 1))
  }

  predicate GoodRecs(fs: seq<Field>, rs: seq<seq<Val>>, i: nat)
    requires i <= |rs|
    decreases |rs| - i
  {
    i == |rs| || (|rs[i]| == |fs| && GoodFrom(fs, rs[i], 0) && GoodRecs(fs, rs, i + 1))
  }

  /** No count can be misread without being refused, and all strings come through. */
  predicate CalmField(f: Field, v: Val, top: bool) {
    TightField(f) && StringsFit(f, v, top)
  }

  predicate CalmFrom(fs: seq<Field>, vs: seq<Val>, g: nat)
    requires g <= |fs| == |vs|
    decreases |fs| - g
  {
    g == |fs| || (CalmField(fs[g], vs[g], false) && CalmFrom(fs, vs, g + 1))
  }

  predicate CalmRecs(fs: seq<Field>, rs: seq<seq<Val>>, i: nat)
    requires i <= |rs|
    decreases |rs| - i
  {
    i == |rs| || (|rs[i]| == |fs| && CalmFrom(fs, rs[i], 0) && CalmRecs(fs, rs, i + 1))
  }

  lemma {:induction false} GoodFromAll(fs: seq<Field>, vs: seq<Val>, g: nat)
    requires g <= |fs| == |vs|
    ensures GoodFrom(fs, vs, g) <==>
              forall h {:trigger fs[h]} :: g <= h < |fs| ==>
                  CleanField(fs[h], vs[h], StaleAt(vs, h)) && StringsFit(fs[h], vs[h], false)
    ensures CalmFrom(fs, vs, g) <==>
              forall h {:trigger fs[h]} :: g <= h < |fs| ==> TightField(fs[h]) && StringsFit(fs[h], vs[h], false)
    decreases |fs| - g
  {
    if g < |fs| {
      GoodFromAll(fs, vs, g + 1);
    }
  }

  lemma {:induction false} GoodRecsAll(fs: seq<Field>, rs: seq<seq<Val>>, i: nat)
    requires i <= |rs|
    ensures GoodRecs(fs, rs, i) <==>
              forall k {:trigger rs[k]} :: i <= k < |rs| ==> |rs[k]| == |fs| && GoodFrom(fs, rs[k], 0)
    ensures CalmRecs(fs, rs, i) <==>
              forall k {:trigger rs[k]} :: i <= k < |rs| ==> |rs[k]| == |fs| && CalmFrom(fs, rs[k], 0)
    decreases |rs| - i
  {
    if i < |rs| {
      GoodRecsAll(fs, rs, i + 1);
    }
  }

  /**
   The run gives the value exactly when it is good, and then consumes exactly its bytes; otherwise, in calm cases, it is
   refused. In both cases nothing behind the bound is read.
   */
  ghost predicate Outcome(r: Out, holds: bool, good: bool, calm: bool, need: nat, bound: nat) {
    && (holds <==> good)
    && (good ==> r.rc == need)
    && (calm && !good ==> r.rc < 0)
    && (calm || good ==> r.reach <= bound)
  }

  lemma {:induction false} CleanRecsIff(fs: seq<Field>, rs: seq<seq<Val>>, n: nat)
    requires n <= |rs|
    ensures CleanRecs(fs, rs, n) <==> forall k :: 0 <= k < n ==> CleanRec(fs, rs[k])
  {
    if n > 0 {
      CleanRecsIff(fs, rs, n - 1);
    }
  }

  lemma {:induction false} CleanRecIff(fs: seq<Field>, vs: seq<Val>)
    requires |vs| == |fs| && OkVals(fs, vs, |fs|)
    ensures CleanRec(fs, vs) <==> forall h :: 0 <= h < |fs| ==> CleanField(fs[h], vs[h], StaleAt(vs, h))
  {
    PresentInside(fs, vs, |fs|);
    CleanInside(fs, vs, Present(vs, |fs|), |fs|);
    CleanToAll(fs, vs, |fs|);
  }

  /** The first k fields of a nested struct are read over nothing left behind. */
  predicate CleanTo(fs: seq<Field>, vs: seq<Val>, k: nat)
    requires k <= |fs| == |vs|
  {
    k == 0 || (CleanTo(fs, vs, k - 1) && CleanField(fs[k - 1], vs[k - 1], StaleAt(vs, k - 1)))
  }

  lemma {:induction false} CleanToAll(fs: seq<Field>, vs: seq<Val>, k: nat)
    requires k <= |fs| == |vs|
    ensures CleanTo(fs, vs, k) <==> forall h :: 0 <= h < k ==> CleanField(fs[h], vs[h], StaleAt(vs, h))
  {
    if k > 0 {
      CleanToAll(fs, vs, k - 1);
    }
  }

  lemma {:induction false} CleanInside(fs: seq<Field>, vs: seq<Val>, items: seq<Item>, k: nat)
    requires |vs| == |fs| == |items| && k <= |items| && forall n :: 0 <= n < |items| ==> items[n] == Known(n, vs[n])
    ensures Stale(fs, items, k) == StaleAt(vs, k) && (Clean(fs, items, k) <==> CleanTo(fs, vs, k))
  {
    if k > 0 {
      CleanInside(fs, vs, items, k - 1);
      CleanKnown(fs, items, k, k - 1, vs[k - 1], StaleAt(vs, k - 1));
    }
  }

  lemma {:induction false} CleanKnown(fs: seq<Field>, items: seq<Item>, k: nat, i: nat, v: Val, stale: nat)
    requires 0 < k <= |items| && items[k - 1] == Known(i, v) && i < |fs| && stale == Stale(fs, items, k - 1)
    ensures Stale(fs, items, k) == NumElems(v)
    ensures Clean(fs, items, k) <==> Clean(fs, items, k - 1) && CleanField(fs[i], v, stale)
  {
  }

  lemma {:induction false} GoodRec(fs: seq<Field>, vs: seq<Val>)
    requires |vs| == |fs| && OkVals(fs, vs, |fs|)
    ensures CleanRec(fs, vs) && AllStringsFit(fs, vs, false) <==> GoodFrom(fs, vs, 0)
    ensures Tight(fs) && AllStringsFit(fs, vs, false) ==> CalmFrom(fs, vs, 0)
  {
    CleanRecIff(fs, vs);
    GoodFromAll(fs, vs, 0);
  }

  /** A value of a struct field is good when its structs are. */
  lemma {:induction false} GoodStructs(f: Field, v: Val, top: bool, sub: seq<Field>, rs: seq<seq<Val>>)
    requires f.kind == Struct(sub) && v == Recs(rs) && OkRecs(sub, rs, |rs|)
    ensures GoodVal(f, v, top) <==> GoodRecs(sub, rs, 0)
    ensures CalmField(f, v, top) ==> CalmRecs(sub, rs, 0)
  {
    CleanRecsIff(sub, rs, |rs|);
    GoodRecsAll(sub, rs, 0);
    FitStructs(f, v, top, sub, rs);
    forall k {:trigger rs[k]} | 0 <= k < |rs|
      ensures |rs[k]| == |sub|
      ensures CleanRec(sub, rs[k]) && AllStringsFit(sub, rs[k], false) <==> GoodFrom(sub, rs[k], 0)
      ensures Tight(sub) && AllStringsFit(sub, rs[k], false) ==> CalmFrom(sub, rs[k], 0)
    {
      OkRecsAt(sub, rs, |rs|, k);
      GoodRec(sub, rs[k]);
    }
  }

  lemma {:induction false} FitStructs(f: Field, v: Val, top: bool, sub: seq<Field>, rs: seq<seq<Val>>)
    requires f.kind == Struct(sub) && v == Recs(rs)
    ensures StringsFit(f, v, top) <==>
              forall k {:trigger rs[k]} :: 0 <= k < |rs| ==> |rs[k]| == |sub| && AllStringsFit(sub, rs[k], false)
    ensures CleanVal(f, v) <==> CleanRecs(sub, rs, |rs|)
    ensures TightField(f) ==> Tight(sub)
  {
  }

  // ---------- A value in place in the input ----------

  /**
   The value suits the field, and its payload, its elements, its structs and their fields stand one behind the other.
   */
  ghost predicate PayloadAt(f: Field, v: Val, top: bool, inb: seq<u8>, src: nat)
    decreases f, 1
  {
    OkVal(f, v, top) && StandsAt(CountPrefix(f, v), inb, src) && BodyAt(f, v, top, inb, src + |CountPrefix(f, v)|)
  }

  ghost predicate BodyAt(f: Field, v: Val, top: bool, inb: seq<u8>, src: nat)
    decreases f, 0
  {
    match f.kind
    case Basic(_) => v.Raw? && StandsAt(v.bytes, inb, src)
    case Str => v.Text? && StandsAt(StrBody(f, v.chars, top), inb, src)
    case Struct(sub) => v.Recs? && RecsAt(sub, v.recs, 0, inb, src)
  }

  ghost predicate RecsAt(fs: seq<Field>, rs: seq<seq<Val>>, i: nat, inb: seq<u8>, src: nat)
    requires i <= |rs|
    decreases fs, 2, |rs| - i
  {
    i == |rs| || (|rs[i]| == |fs| && ValsAt(fs, rs[i], 0, inb, src) &&
                  RecsAt(fs, rs, i + 1, inb, src + ValsLeft(fs, rs[i], 0)))
  }

  ghost predicate ValsAt(fs: seq<Field>, vs: seq<Val>, g: nat, inb: seq<u8>, src: nat)
    requires g <= |fs| == |vs|
    decreases fs, 1, |fs| - g
  {
    g == |fs| || (PayloadAt(fs[g], vs[g], false, inb, src) &&
                  ValsAt(fs, vs, g + 1, inb, src + |Payload(fs[g], vs[g], false)|))
  }

  /** The bytes of the fields from g on. */
  function ValsLeft(fs: seq<Field>, vs: seq<Val>, g: nat): nat
    requires g <= |fs| == |vs|
    decreases |fs| - g
  {
    if g == |fs| then 0 else |Payload(fs[g], vs[g], false)| + ValsLeft(fs, vs, g + 1)
  }

  /** The bytes of the structs from i on. */
  function RecsLeft(fs: seq<Field>, rs: seq<seq<Val>>, i: nat): nat
    requires i <= |rs|
    decreases |rs| - i
  {
    if i == |rs| then 0 else (if |rs[i]| == |fs| then ValsLeft(fs, rs[i], 0) else 0) + RecsLeft(fs, rs, i + 1)
  }

  lemma {:induction false} ValsLeftIs(fs: seq<Field>, vs: seq<Val>, g: nat)
    requires g <= |fs| == |vs| && OkVals(fs, vs, |fs|)
    ensures |Wire(fs, vs, g, false)| + ValsLeft(fs, vs, g) == |Wire(fs, vs, |fs|, false)|
    decreases |fs| - g
  {
    if g < |fs| {
      OkValsAt(fs, vs, |fs|, g);
      WireStep(fs, vs, g, false);
      ValsLeftIs(fs, vs, g + 1);
    }
  }

  lemma {:induction false} OkValsAt(fs: seq<Field>, vs: seq<Val>, n: nat, g: nat)
    requires g < n <= |fs| && n <= |vs| && OkVals(fs, vs, n)
    ensures OkVal(fs[g], vs[g], false) && !vs[g].Absent?
    decreases n
  {
    if g < n - 1 {
      OkValsAt(fs, vs, n - 1, g);
    }
  }

  lemma {:induction false} RecsLeftIs(fs: seq<Field>, rs: seq<seq<Val>>, i: nat)
    requires i <= |rs| && OkRecs(fs, rs, |rs|)
    ensures |WireRecs(fs, rs, i)| + RecsLeft(fs, rs, i) == |WireRecs(fs, rs, |rs|)|
    decreases |rs| - i
  {
    if i < |rs| {
      RecLeftIs(fs, rs, i);
      RecsLeftIs(fs, rs, i + 1);
    }
  }

  lemma {:induction false} RecLeftIs(fs: seq<Field>, rs: seq<seq<Val>>, i: nat)
    requires i < |rs| && OkRecs(fs, rs, |rs|)
    ensures |WireRecs(fs, rs, i + 1)| + RecsLeft(fs, rs, i + 1) == |WireRecs(fs, rs, i)| + RecsLeft(fs, rs, i)
  {
    OkRecsAt(fs, rs, |rs|, i);
    ValsLeftIs(fs, rs[i], 0);
  }

  lemma {:induction false} PayloadParts(f: Field, v: Val, top: bool, inb: seq<u8>, src: nat, bodyAt: nat)
    requires StandsAt(Payload(f, v, top), inb, src) && bodyAt == src + |CountPrefix(f, v)|
    ensures StandsAt(CountPrefix(f, v), inb, src) && StandsAt(Body(f, v, top), inb, bodyAt)
  {
    var p, a, b := Payload(f, v, top), CountPrefix(f, v), Body(f, v, top);
    Chunk(inb, src, p, [], a, a, src);
    Chunk(inb, src, p, a, b, p, bodyAt);
  }

  lemma {:induction false} PayloadStands(f: Field, v: Val, top: bool, inb: seq<u8>, src: nat)
    requires OkVal(f, v, top) && StandsAt(Payload(f, v, top), inb, src)
    ensures PayloadAt(f, v, top, inb, src)
    decreases f
  {
    var at := src + |CountPrefix(f, v)|;
    PayloadParts(f, v, top, inb, src, at);
    match f.kind
    case Basic(_) =>
    case Str =>
    case Struct(sub) => RecsStand(sub, v.recs, 0, inb, at, at);
  }

  lemma {:induction false} RecsStand(fs: seq<Field>, rs: seq<seq<Val>>, i: nat, inb: seq<u8>, src: nat, s: nat)
    requires i <= |rs| && OkRecs(fs, rs, |rs|) && StandsAt(WireRecs(fs, rs, |rs|), inb, src)
    requires s == src + |WireRecs(fs, rs, i)|
    ensures RecsAt(fs, rs, i, inb, s)
    decreases fs, 2, |rs| - i
  {
    if i < |rs| {
      RecHere(fs, rs, i, inb, src, s);
      ValsStand(fs, rs[i], 0, inb, s, s);
      RecsStand(fs, rs, i + 1, inb, src, s + ValsLeft(fs, rs[i], 0));
    }
  }

  /** Struct i in place. */
  lemma {:induction false} RecHere(fs: seq<Field>, rs: seq<seq<Val>>, i: nat, inb: seq<u8>, src: nat, s: nat)
    requires i < |rs| && OkRecs(fs, rs, |rs|) && StandsAt(WireRecs(fs, rs, |rs|), inb, src)
    requires s == src + |WireRecs(fs, rs, i)|
    ensures |rs[i]| == |fs| && OkVals(fs, rs[i], |fs|) && StandsAt(Wire(fs, rs[i], |fs|, false), inb, s)
    ensures s + ValsLeft(fs, rs[i], 0) == src + |WireRecs(fs, rs, i + 1)|
  {
    OkRecsAt(fs, rs, |rs|, i);
    ValsLeftIs(fs, rs[i], 0);
    WireRecsBegins(fs, rs, i + 1, |rs|);
    Chunk(inb, src, WireRecs(fs, rs, |rs|), WireRecs(fs, rs, i), Wire(fs, rs[i], |fs|, false), WireRecs(fs, rs, i + 1),
          s);
  }

  lemma {:induction false} ValsStand(fs: seq<Field>, vs: seq<Val>, g: nat, inb: seq<u8>, src: nat, s: nat)
    requires g <= |fs| == |vs| && OkVals(fs, vs, |fs|) && StandsAt(Wire(fs, vs, |fs|, false), inb, src)
    requires s == src + |Wire(fs, vs, g, false)|
    ensures ValsAt(fs, vs, g, inb, s)
    decreases fs, 1, |fs| - g
  {
    if g < |fs| {
      ValHere(fs, vs, g, inb, src, s);
      PayloadStands(fs[g], vs[g], false, inb, s);
      ValsStand(fs, vs, g + 1, inb, src, s + |Payload(fs[g], vs[g], false)|);
    }
  }

  /** Field g in place. */
  lemma {:induction false} ValHere(fs: seq<Field>, vs: seq<Val>, g: nat, inb: seq<u8>, src: nat, s: nat)
    requires g < |fs| == |vs| && OkVals(fs, vs, |fs|) && StandsAt(Wire(fs, vs, |fs|, false), inb, src)
    requires s == src + |Wire(fs, vs, g, false)|
    ensures OkVal(fs[g], vs[g], false) && StandsAt(Payload(fs[g], vs[g], false), inb, s)
    ensures s + |Payload(fs[g], vs[g], false)| == src + |Wire(fs, vs, g + 1, false)|
  {
    OkValsAt(fs, vs, |fs|, g);
    WireStep(fs, vs, g, false);
    WireBegins(fs, vs, g + 1, |fs|);
    Chunk(inb, src, Wire(fs, vs, |fs|, false), Wire(fs, vs, g, false), Payload(fs[g], vs[g], false),
          Wire(fs, vs, g + 1, false), s);
  }

  lemma {:induction false} WireBegins(fs: seq<Field>, vs: seq<Val>, g: nat, h: nat)
    requires g <= h <= |fs| && h <= |vs|
    ensures Begins(Wire(fs, vs, g, false), Wire(fs, vs, h, false))
    decreases h
  {
    if g < h {
      WireBegins(fs, vs, g, h - 1);
      BeginsMore(Wire(fs, vs, g, false), Wire(fs, vs, h - 1, false), Piece(fs[h - 1], vs[h - 1], false));
    }
  }
}
