/** Reading a field depends only on the bytes it owns. */
module QmiFrame {
  import opened Bytes
  import opened QmiDescriptor
  import opened QmiValue

  ghost predicate SameIn(m1: seq<u8>, m2: seq<u8>, lo: nat, hi: nat) {
    && |m1| == |m2|
    && forall i :: lo <= i < hi && i < |m1| ==> m1[i] == m2[i]
  }

  lemma {:induction false} PeekFrame(m1: seq<u8>, m2: seq<u8>, p: nat, n: nat)
    requires SameIn(m1, m2, p, p + n)
    ensures Peek(m1, p, n) == Peek(m2, p, n)
  {
    if p + n <= |m1| {
      assert m1[p..p + n] == m2[p..p + n];
    }
  }

  lemma {:induction false} StrLenFrame(m1: seq<u8>, m2: seq<u8>, p: nat, max: nat)
    requires SameIn(m1, m2, p, p + max + 1) && p + max < |m1|
    ensures StrLen(m1, p) == StrLen(m2, p) || (StrLen(m1, p) > max && StrLen(m2, p) > max)
    decreases max
  {
    if m1[p] != 0 && max > 0 {
      StrLenFrame(m1, m2, p + 1, max - 1);
    }
  }

  lemma {:induction false} BodyFrame(f: Field, size: nat, top: bool, m1: seq<u8>, m2: seq<u8>, base: nat, n: nat,
                                     r: Reader)
    requires WfField(f, size, top) && base + size <= |m1| && n <= Capacity(f)
    requires SameIn(m1, m2, base + f.off, base + f.off + Extent(f))
    ensures LoadBody(f, m1, base, n, r) == LoadBody(f, m2, base, n, r)
    decreases f, 0
  {
    var p := base + f.off;
    match f.kind
    case Basic(_) =>
      SpanMono(n, Capacity(f), f.elemSize);
      PeekFrame(m1, m2, p, Span(n, f.elemSize));
    case Str =>
      StrLenFrame(m1, m2, p, f.elemLen);
      if StrLen(m1, p) <= f.elemLen {
        PeekFrame(m1, m2, p, StrLen(m1, p));
      }
    case Struct(sub) =>
      SpanMono(n, Capacity(f), f.elemSize);
      RecsFrame(sub, f.elemSize, m1, m2, p, n, r);
  }

  lemma {:induction false} RecsFrame(fs: seq<Field>, size: nat, m1: seq<u8>, m2: seq<u8>, p: nat, n: nat, r: Reader)
    requires WfFields(fs, size, false) && p + Span(n, size) <= |m1|
    requires SameIn(m1, m2, p, p + Span(n, size))
    ensures LoadRecs(fs, m1, p, size, n, r) == LoadRecs(fs, m2, p, size, n, r)
    decreases fs, |fs| + 1, n
  {
    if n > 0 {
      RecsFrame(fs, size, m1, m2, p, n - 1, r);
      AllFrame(fs, size, false, m1, m2, p + Span(n - 1, size), |fs|, r);
    }
  }

  lemma {:induction false} AllFrame(fs: seq<Field>, size: nat, top: bool, m1: seq<u8>, m2: seq<u8>, base: nat, g: nat,
                                    r: Reader)
    requires g <= |fs| && WfFields(fs, size, top) && base + size <= |m1|
    requires SameIn(m1, m2, base, base + size)
    ensures LoadAll(fs, m1, base, g, r) == LoadAll(fs, m2, base, g, r)
    decreases fs, g
  {
    if g > 0 {
      AllFrame(fs, size, top, m1, m2, base, g - 1, r);
      FieldFrame(fs[g - 1], size, top, m1, m2, base, r);
    }
  }

  ghost predicate SameOwned(f: Field, m1: seq<u8>, m2: seq<u8>, base: nat) {
    && |m1| == |m2|
    && forall y :: base <= y < |m1| && Owns(f, y - base) ==> m1[y] == m2[y]
  }

  lemma {:induction false} FieldFrame(f: Field, size: nat, top: bool, m1: seq<u8>, m2: seq<u8>, base: nat, r: Reader)
    requires WfField(f, size, top) && base + size <= |m1|
    requires SameOwned(f, m1, m2, base)
    ensures Load(f, m1, base, r) == Load(f, m2, base, r)
    decreases f, 1
  {
    if f.flag.Some? {
      assert Owns(f, base + f.flag.value - base);
      assert m1[base + f.flag.value] == m2[base + f.flag.value];
    }
    if f.count.Counted? {
      var lo := f.count.lenOff;
      forall i | base + lo <= i < base + lo + 4 ensures m1[i] == m2[i] {
        assert Owns(f, i - base);
      }
      PeekFrame(m1, m2, base + lo, 4);
      PeekFrame(m1, m2, base + lo, f.count.lenSize);
    }
    var n := CountIn(f, m1, base, r);
    if n <= Capacity(f) {
      forall i | base + f.off <= i < base + f.off + Extent(f) ensures m1[i] == m2[i] {
        assert Owns(f, i - base);
      }
      BodyFrame(f, size, top, m1, m2, base, n, r);
    }
  }

  /** Rewriting field i alone changes the meaning of the struct at i alone. */
  lemma {:induction false} UpdateOne(fs: seq<Field>, size: nat, top: bool, m1: seq<u8>, m2: seq<u8>, base: nat, i: nat,
                                     g: nat, r: Reader)
    requires i < |fs| && g <= |fs| && WfFields(fs, size, top) && Separate(fs) && base + size <= |m1| == |m2|
    requires forall x :: 0 <= x < |m1| && !(base <= x && Owns(fs[i], x - base)) ==> m1[x] == m2[x]
    ensures LoadAll(fs, m2, base, g, r) == if i < g then LoadAll(fs, m1, base, g, r)[i := Load(fs[i], m2, base, r)]
            else LoadAll(fs, m1, base, g, r)
    decreases g
  {
    if g > 0 {
      UpdateOne(fs, size, top, m1, m2, base, i, g - 1, r);
      if i != g - 1 {
        forall y | base <= y < |m1| && Owns(fs[g - 1], y - base) ensures m1[y] == m2[y] {
          assert !Owns(fs[i], y - base);
        }
        FieldFrame(fs[g - 1], size, top, m1, m2, base, r);
      }
    }
  }
}
