/**
 What decoding one TLV comes to, for any bytes whatever, said in terms of these bytes: which types are skipped and
 which refused, how much a field consumes, which lengths and counts are refused, and what is stored.
 */
module QmiOneTlv {
  import opened Bytes
  import opened QmiDescriptor
  import opened QmiAccept
  import opened QmiRun

  /** The 16-bit length behind the type. */
  function LengthAt(inb: seq<u8>, src: nat): nat
    requires src + 3 <= |inb|
  {
    var lo: int, hi: int := inb[src + 1], inb[src + 2];
    lo + 256 * hi
  }

  lemma {:induction false} HeaderAt(inb: seq<u8>, src: nat)
    requires src + 3 <= |inb|
    ensures var h := Peek(inb, src, 3); h[0] == inb[src] && Word(h[1], h[2]) == LengthAt(inb, src)
  {
    assert inb[src..src + 3][0] == inb[src];
  }

  /** No field has the type: it is refused below 16, and from there on skipped with its payload. */
  lemma {:induction false} UnknownTlv(fs: seq<Field>, mem: seq<u8>, base: nat, inb: seq<u8>, src: nat, stale: nat,
                                      reach: nat)
    requires src + 3 <= |inb| && forall g :: 0 <= g < |fs| ==> fs[g].tlv != inb[src]
    ensures var r := RunTlv(fs, mem, base, inb, src, stale, reach);
            && (r.rc == -EINVAL <==> inb[src] < 16)
            && (inb[src] >= 16 ==> r.rc == 3 + LengthAt(inb, src))
            && r.mem == mem && r.count == stale && r.reach == Max(reach, src + 3)
  {
    HeaderAt(inb, src);
  }

  /** A message of one such TLV is refused if its type is below 16, and used up otherwise. */
  lemma {:induction false} UnknownMessage(fs: seq<Field>, mem: seq<u8>, base: nat, inb: seq<u8>, pos: nat, len: nat)
    requires pos + 3 <= |inb| && (forall g :: 0 <= g < |fs| ==> fs[g].tlv != inb[pos]) && len == 3 + LengthAt(inb, pos)
    ensures var r := Run(fs, mem, base, inb, pos, len, true, 0);
            && (r.rc == -EINVAL <==> inb[pos] < 16) && (r.rc == len <==> inb[pos] >= 16)
            && r.mem == mem && r.reach == pos + 3
  {
    UnknownTlv(fs, mem, base, inb, pos + 0, 0, 0);
    if inb[pos] >= 16 {
      assert RunTop(fs, mem, base, inb, pos, len, len, 0, pos + 3) == Out(len, mem, pos + 3, 0);
    }
  }

  /** Field i, and no other, has the type. */
  ghost predicate OfField(fs: seq<Field>, i: nat, tlv: u8) {
    i < |fs| && forall g :: 0 <= g < |fs| ==> (fs[g].tlv == tlv <==> g == i)
  }

  lemma {:induction false} KnownTlv(fs: seq<Field>, i: nat, mem: seq<u8>, base: nat, inb: seq<u8>, src: nat, stale: nat,
                                    reach: nat)
    requires src + 3 <= |inb| && OfField(fs, i, inb[src])
    ensures var r := RunTlv(fs, mem, base, inb, src, stale, reach);
            var q := RunField(fs[i], mem, base, inb, src + 3, stale, LengthAt(inb, src), true, Max(reach, src + 3));
            r == Out(if q.rc < 0 then q.rc else 3 + q.rc, q.mem, q.reach, q.count)
  {
    HeaderAt(inb, src);
  }

  /** A field without a count. */
  lemma {:induction false} PlainField(f: Field, mem: seq<u8>, base: nat, inb: seq<u8>, src: nat, stale: nat,
                                      tlvLen: nat, top: bool, reach: nat)
    requires !f.count.Counted?
    ensures var n := if f.count.One? then 1 else f.elemLen;
            var r := RunBody(f, Flagged(f, mem, base), base, inb, src, n, tlvLen, top, Max(reach, src));
            RunField(f, mem, base, inb, src, stale, tlvLen, top, reach) == Out(r.rc, r.mem, r.reach, n)
  {
    assert src + Width(f) == src;
  }

  // ---------- The presence flag ----------

  /** Whatever follows, the byte at the flag's offset is 1 once a TLV of the field has been met. */
  lemma {:induction false} FlagSet(f: Field, size: nat, top: bool, mem: seq<u8>, base: nat, inb: seq<u8>, src: nat,
                                   stale: nat, tlvLen: nat, reach: nat)
    requires WfField(f, size, top) && SeparateField(f) && base + size <= |mem| && f.flag.Some?
    ensures var r := RunField(f, mem, base, inb, src, stale, tlvLen, top, reach);
            |r.mem| == |mem| && r.mem[base + f.flag.value] == 1
  {
    var n, at := CountRead(f, inb, src, stale), f.flag.value;
    var m := CountedMem(f, Flagged(f, mem, base), base, n);
    assert InFlag(f, at);
    assert !InLen(f, at) && !InValue(f, at);
    assert m[base + at] == 1;
    if !(f.count.Counted? && n > f.elemLen) {
      BodyWrites(f, size, m, base, inb, src + Width(f), n, Behind(f, tlvLen), top, top, Max(reach, src + Width(f)));
    }
  }

  // ---------- Basic elements ----------

  /**
   Elements of a basic type whose number the table says: they are taken from behind the header whatever its length
   says, and no input is refused.
   */
  lemma {:induction false} BasicTlv(fs: seq<Field>, i: nat, mem: seq<u8>, base: nat, inb: seq<u8>, src: nat, stale: nat,
                                    reach: nat, b: nat)
    requires src + 3 <= |inb| && OfField(fs, i, inb[src]) && fs[i].kind.Basic? && !fs[i].count.Counted?
    requires b == (if fs[i].count.One? then 1 else fs[i].elemLen) * fs[i].elemSize
    requires src + 3 + b <= |inb| && base + fs[i].off + b <= |mem|
    ensures var r := RunTlv(fs, mem, base, inb, src, stale, reach);
            r.rc == 3 + b && StandsAt(inb[src + 3..src + 3 + b], r.mem, base + fs[i].off)
  {
    var f := fs[i];
    KnownTlv(fs, i, mem, base, inb, src, stale, reach);
    PlainField(f, mem, base, inb, src + 3, stale, LengthAt(inb, src), true, Max(reach, src + 3));
    SpanIsProduct(if f.count.One? then 1 else f.elemLen, f.elemSize);
    BasicStored(f, Flagged(f, mem, base), base, inb, src + 3, if f.count.One? then 1 else f.elemLen,
                LengthAt(inb, src), Max(reach, src + 3));
  }

  lemma {:induction false} BasicStored(f: Field, mem: seq<u8>, base: nat, inb: seq<u8>, src: nat, n: nat, tlvLen: nat,
                                       reach: nat)
    requires f.kind.Basic? && src + Span(n, f.elemSize) <= |inb| && base + f.off + Span(n, f.elemSize) <= |mem|
    ensures var r := RunBody(f, mem, base, inb, src, n, tlvLen, true, reach);
            && r.rc == Span(n, f.elemSize)
            && StandsAt(inb[src..src + Span(n, f.elemSize)], r.mem, base + f.off)
  {
  }

  /** The count on the wire, read over the low bytes of what the length variable held. */
  function CountAt(f: Field, inb: seq<u8>, p: nat, stale: nat): nat
    requires p + LenWidth(f) <= |inb|
  {
    if LenWidth(f) == 1 then
      var lo: int := inb[p];
      stale / 256 * 256 + lo
    else
      var lo: int, hi: int := inb[p], inb[p + 1];
      stale / 65536 * 65536 + 256 * hi + lo
  }

  lemma {:induction false} CountIs(f: Field, inb: seq<u8>, p: nat, stale: nat)
    requires f.count.Counted? && p + LenWidth(f) <= |inb|
    ensures CountRead(f, inb, p, stale) == CountAt(f, inb, p, stale)
  {
    var b := Peek(inb, p, LenWidth(f));
    assert b == inb[p..p + LenWidth(f)] && b[0] == inb[p];
    HighParts(stale);
    LeShort(b);
    assert LenWidth(f) == 2 ==> b[1] == inb[p + 1];
  }

  lemma {:induction false} LeShort(b: seq<u8>)
    requires 1 <= |b| <= 2
    ensures Le(b) == if |b| == 1 then b[0] as int else b[0] as int + 256 * (b[1] as int)
  {
    assert Le([]) == 0;
    if |b| == 1 {
      assert b[1..] == [];
    } else {
      assert b[1..][0] == b[1] && b[1..][1..] == [];
      assert Le(b[1..]) == b[1] + 256 * Le([]);
    }
  }

  lemma {:induction false} HighParts(w: nat)
    ensures HighPart(w, 1) == w / 256 * 256 && HighPart(w, 2) == w / 65536 * 65536
  {
    assert HighPart(w, 1) == 256 * HighPart(w / 256, 0);
    assert HighPart(w, 2) == 256 * HighPart(w / 256, 1);
    assert HighPart(w / 256, 1) == 256 * HighPart(w / 256 / 256, 0);
    assert w / 256 / 256 == w / 65536;
  }

  /** A counted field of a basic type is refused exactly when the count exceeds the table's maximum. */
  lemma {:induction false} CountedTlv(fs: seq<Field>, i: nat, mem: seq<u8>, base: nat, inb: seq<u8>, src: nat,
                                      stale: nat, reach: nat, w: nat, n: nat, b: nat)
    requires src + 5 <= |inb| && OfField(fs, i, inb[src]) && fs[i].kind.Basic? && fs[i].count.Counted?
    requires w == (if fs[i].count.lenSize == 1 then 1 else 2) && n == CountAt(fs[i], inb, src + 3, stale)
    requires b == n * fs[i].elemSize && src + 3 + w + b <= |inb| && base + fs[i].off + b <= |mem|
    ensures var f, r := fs[i], RunTlv(fs, mem, base, inb, src, stale, reach);
            && (r.rc == -EINVAL <==> n > f.elemLen)
            && (n <= f.elemLen ==>
                r.rc == 3 + w + b && StandsAt(inb[src + 3 + w..src + 3 + w + b], r.mem, base + f.off))
  {
    var f, p := fs[i], src + 3;
    CountIs(f, inb, p, stale);
    KnownTlv(fs, i, mem, base, inb, src, stale, reach);
    CountedBasic(f, mem, base, inb, p, stale, LengthAt(inb, src), Max(reach, p), w, n, b);
  }

  lemma {:induction false} CountedBasic(f: Field, mem: seq<u8>, base: nat, inb: seq<u8>, src: nat, stale: nat,
                                        tlvLen: nat, reach: nat, w: nat, n: nat, b: nat)
    requires f.kind.Basic? && f.count.Counted? && n == CountRead(f, inb, src, stale) && w == LenWidth(f)
    requires b == n * f.elemSize && src + w + b <= |inb| && base + f.off + b <= |mem|
    ensures var r := RunField(f, mem, base, inb, src, stale, tlvLen, true, reach);
            && (r.rc == -EINVAL <==> n > f.elemLen)
            && (n <= f.elemLen ==> r.rc == w + b && StandsAt(inb[src + w..src + w + b], r.mem, base + f.off))
  {
    SpanIsProduct(n, f.elemSize);
    if n <= f.elemLen {
      CountedField(f, mem, base, inb, src, stale, tlvLen, reach, n);
      BasicStored(f, CountedMem(f, Flagged(f, mem, base), base, n), base, inb, src + w, n, Behind(f, tlvLen),
                  Max(reach, src + w));
    }
  }

  /** The count is stored in the length member, whether or not the elements are refused. */
  lemma {:induction false} CountStored(fs: seq<Field>, i: nat, size: nat, mem: seq<u8>, base: nat, inb: seq<u8>,
                                       src: nat, stale: nat, reach: nat, n: nat)
    requires src + 5 <= |inb| && OfField(fs, i, inb[src]) && fs[i].count.Counted?
    requires WfField(fs[i], size, true) && SeparateField(fs[i]) && base + size <= |mem|
    requires n == CountAt(fs[i], inb, src + 3, stale)
    ensures StandsAt(Low(n, 4), RunTlv(fs, mem, base, inb, src, stale, reach).mem, base + fs[i].count.lenOff)
  {
    CountIs(fs[i], inb, src + 3, stale);
    KnownTlv(fs, i, mem, base, inb, src, stale, reach);
    CountKept(fs[i], size, mem, base, inb, src + 3, stale, LengthAt(inb, src), Max(reach, src + 3), n);
  }

  /** A field whose count is in order. */
  lemma {:induction false} CountedField(f: Field, mem: seq<u8>, base: nat, inb: seq<u8>, src: nat, stale: nat,
                                        tlvLen: nat, reach: nat, n: nat)
    requires f.count.Counted? && n == CountRead(f, inb, src, stale) <= f.elemLen
    ensures var w := LenWidth(f);
            var r := RunBody(f, CountedMem(f, Flagged(f, mem, base), base, n), base, inb, src + w, n, Behind(f, tlvLen),
                             true, Max(reach, src + w));
            RunField(f, mem, base, inb, src, stale, tlvLen, true, reach) ==
            Out(if r.rc < 0 then r.rc else w + r.rc, r.mem, r.reach, n)
  {
  }

  /** The stored count is not touched by the elements. */
  lemma {:induction false} CountKept(f: Field, size: nat, mem: seq<u8>, base: nat, inb: seq<u8>, src: nat, stale: nat,
                                     tlvLen: nat, reach: nat, n: nat)
    requires WfField(f, size, true) && SeparateField(f) && base + size <= |mem| && f.count.Counted?
    requires n == CountRead(f, inb, src, stale)
    ensures var r := RunField(f, mem, base, inb, src, stale, tlvLen, true, reach);
            |r.mem| == |mem| && StandsAt(Low(n, 4), r.mem, base + f.count.lenOff)
  {
    var m, p := CountedMem(f, Flagged(f, mem, base), base, n), f.count.lenOff;
    var r := RunField(f, mem, base, inb, src, stale, tlvLen, true, reach);
    if n <= f.elemLen {
      CountedField(f, mem, base, inb, src, stale, tlvLen, reach, n);
      BodyWrites(f, size, m, base, inb, src + Width(f), n, Behind(f, tlvLen), true, true, Max(reach, src + Width(f)));
    }
    assert |r.mem| == |mem|;
    forall k | 0 <= k < 4 ensures r.mem[base + p + k] == Low(n, 4)[k] {
      assert InLen(f, p + k);
      assert !InValue(f, p + k);
      assert m[base + p + k] == Low(n, 4)[k];
    }
  }

  // ---------- Strings and structs ----------

  /** A string of a message is as long as its TLV, and refused exactly when that is more than the table's maximum. */
  lemma {:induction false} StringTlv(fs: seq<Field>, i: nat, mem: seq<u8>, base: nat, inb: seq<u8>, src: nat,
                                     stale: nat, reach: nat, n: nat)
    requires src + 3 <= |inb| && OfField(fs, i, inb[src]) && fs[i].kind.Str? && fs[i].count.One?
    requires n == LengthAt(inb, src) && src + 3 + n <= |inb| && base + fs[i].off + n < |mem|
    ensures var r := RunTlv(fs, mem, base, inb, src, stale, reach);
            && (r.rc == -EINVAL <==> n > fs[i].elemLen)
            && (n <= fs[i].elemLen ==>
                r.rc == 3 + n && StandsAt(inb[src + 3..src + 3 + n] + [0], r.mem, base + fs[i].off))
  {
    var f := fs[i];
    KnownTlv(fs, i, mem, base, inb, src, stale, reach);
    PlainField(f, mem, base, inb, src + 3, stale, n, true, Max(reach, src + 3));
    TopString(f, Flagged(f, mem, base), base + f.off, inb, src + 3, n, Max(reach, src + 3));
  }

  lemma {:induction false} TopString(f: Field, mem: seq<u8>, dst: nat, inb: seq<u8>, src: nat, n: nat, reach: nat)
    requires src + n <= |inb| && dst + n < |mem|
    ensures var r := RunString(f, mem, dst, inb, src, n, true, reach);
            && (n > f.elemLen ==> r.rc == -EINVAL)
            && (n <= f.elemLen ==> r.rc == n && StandsAt(inb[src..src + n] + [0], r.mem, dst))
  {
    assert src + 0 == src;
  }

  /**
   A string inside a struct is as long as its prefix of one or two bytes says: refused when that is more than the
   table's maximum, or more than what is left of the input.
   */
  lemma {:induction false} NestedString(f: Field, mem: seq<u8>, dst: nat, inb: seq<u8>, src: nat, left: nat, reach: nat)
    requires src + 2 <= |inb|
    ensures var w, n := if f.elemLen <= 256 then 1 else 2,
                        if f.elemLen <= 256 then inb[src] as int else inb[src] as int + 256 * (inb[src + 1] as int);
            var r := RunString(f, mem, dst, inb, src, left, false, reach);
            && (n > f.elemLen ==> r.rc == -EINVAL && r.mem == mem)
            && (n <= f.elemLen && n > left ==> r.rc == -EFAULT && r.mem == mem)
            && (n <= f.elemLen && n <= left ==> r.rc == w + n)
            && (n <= f.elemLen && n <= left && src + w + n <= |inb| && dst + n < |mem| ==>
                StandsAt(inb[src + w..src + w + n] + [0], r.mem, dst))
  {
    var w := StrWidth(f);
    var b := Peek(inb, src, w);
    assert b == inb[src..src + w] && b[0] == inb[src];
    LeShort(b);
    assert w == 2 ==> b[1] == inb[src + 1];
  }

  /** Structs of a message, if they are not refused, use up their TLV, neither less nor more. */
  lemma {:induction false} StructTlv(fs: seq<Field>, i: nat, mem: seq<u8>, base: nat, inb: seq<u8>, src: nat,
                                     stale: nat, reach: nat, w: nat)
    requires src + 5 <= |inb| && OfField(fs, i, inb[src]) && fs[i].kind.Struct?
    requires w == (if !fs[i].count.Counted? then 0 else if fs[i].count.lenSize == 1 then 1 else 2) <= LengthAt(inb, src)
    ensures var f, r := fs[i], RunTlv(fs, mem, base, inb, src, stale, reach);
            && (r.rc >= 0 ==> r.rc == 3 + LengthAt(inb, src))
            && (f.count.Counted? && CountAt(f, inb, src + 3, stale) > f.elemLen ==> r.rc == -EINVAL)
  {
    var f, len, seen := fs[i], LengthAt(inb, src), Max(reach, src + 3);
    KnownTlv(fs, i, mem, base, inb, src, stale, reach);
    if f.count.Counted? {
      var n := CountAt(f, inb, src + 3, stale);
      CountIs(f, inb, src + 3, stale);
      if n <= f.elemLen {
        CountedField(f, mem, base, inb, src + 3, stale, len, seen, n);
        TopStructs(f, CountedMem(f, Flagged(f, mem, base), base, n), base, inb, src + 3 + w, n, len - w,
                   Max(seen, src + 3 + w));
      }
    } else {
      PlainField(f, mem, base, inb, src + 3, stale, len, true, seen);
      TopStructs(f, Flagged(f, mem, base), base, inb, src + 3, if f.count.One? then 1 else f.elemLen, len, seen);
    }
  }

  lemma {:induction false} TopStructs(f: Field, mem: seq<u8>, base: nat, inb: seq<u8>, src: nat, n: nat, left: nat,
                                      reach: nat)
    requires f.kind.Struct?
    ensures var r := RunBody(f, mem, base, inb, src, n, left, true, reach); r.rc >= 0 ==> r.rc == left
  {
  }

  /**
   Inside a struct a member of a basic type is read whatever is left of the input, and the members behind the end of
   the input are left as they are, without an error.
   */
  lemma {:induction false} NestedBasic(fs: seq<Field>, mem: seq<u8>, base: nat, inb: seq<u8>, src: nat, left: nat,
                                       reach: nat, b: nat)
    requires fs != [] && fs[0].kind.Basic? && !fs[0].count.Counted? && fs[0].flag.None?
    requires b == (if fs[0].count.One? then 1 else fs[0].elemLen) * fs[0].elemSize
    requires 0 < left <= b && src + b <= |inb| && base + fs[0].off + b <= |mem|
    ensures var r, p := Run(fs, mem, base, inb, src, left, false, reach), base + fs[0].off;
            r.rc == b && r.mem == mem[..p] + inb[src..src + b] + mem[p + b..]
  {
    var f := fs[0];
    var n := if f.count.One? then 1 else f.elemLen;
    SpanIsProduct(n, f.elemSize);
    PlainField(f, mem, base, inb, src, 0, left, false, reach);
    var r := RunVal(fs, mem, base, inb, src, left, 0, 0, 0, reach);
    assert src + 0 == src && left - 0 == left;
    assert r == RunField(f, mem, base, inb, src, 0, left, false, reach);
    assert r.rc == b && r.mem == Splice(mem, base + f.off, Peek(inb, src, b));
    assert RunVals(fs, r.mem, base, inb, src, left, 1, 0 + r.rc, r.count, r.reach) ==
           Out(r.rc, r.mem, r.reach, r.count);
    assert Run(fs, mem, base, inb, src, left, false, reach) == RunVals(fs, mem, base, inb, src, left, 0, 0, 0, reach);
  }

  /**
   Input that ends before the first struct, or with it: that is enough for structs of the message itself, however many
   there are to be, and refused inside a struct unless it was the only one.
   */
  lemma {:induction false} ShortStructs(fs: seq<Field>, size: nat, mem: seq<u8>, dst: nat, inb: seq<u8>, src: nat,
                                        n: nat, left: nat, top: bool, reach: nat)
    requires n >= 1
    ensures var r := RunStructs(fs, size, mem, dst, inb, src, n, left, top, reach);
            var one := Run(fs, mem, dst, inb, src, left, false, reach);
            && (left == 0 ==> r.mem == mem && r.rc == if top then 0 else -EFAULT)
            && (left > 0 && one.rc == left ==> r.mem == one.mem && r.rc == if top || n == 1 then left else -EFAULT)
  {
    if left > 0 {
      var one := RunRec(fs, size, mem, dst, inb, src, 0, 0, left, reach);
      assert dst + Span(0, size) == dst && src + 0 == src;
      assert one == Run(fs, mem, dst, inb, src, left, false, reach);
      if one.rc == left {
        assert RunRecs(fs, size, one.mem, dst, inb, src, 1, n, left, left, one.reach) ==
               Out(left, one.mem, one.reach, 1);
        assert 0 + one.rc == left;
      }
    }
  }

  /** Structs inside structs, if they are not refused, are all there, and within what is left of the input. */
  lemma {:induction false} NestedStructs(fs: seq<Field>, size: nat, mem: seq<u8>, dst: nat, inb: seq<u8>, src: nat,
                                         n: nat, left: nat, reach: nat)
    ensures var r := RunStructs(fs, size, mem, dst, inb, src, n, left, false, reach);
            r.rc >= 0 ==> r.count == n && r.rc <= left
  {
    RecsCounted(fs, size, mem, dst, inb, src, 0, n, 0, left, reach);
  }

  lemma {:induction false} RecsCounted(fs: seq<Field>, size: nat, mem: seq<u8>, dst: nat, inb: seq<u8>, src: nat,
                                       i: nat, n: nat, decoded: nat, left: nat, reach: nat)
    requires i <= n
    ensures var r := RunRecs(fs, size, mem, dst, inb, src, i, n, decoded, left, reach); r.rc >= 0 ==> r.count <= n
    decreases n - i
  {
    if i < n && decoded < left {
      var r := RunRec(fs, size, mem, dst, inb, src, i, decoded, left, reach);
      if r.rc >= 0 {
        RecsCounted(fs, size, r.mem, dst, inb, src, i + 1, n, decoded + r.rc, left, r.reach);
      }
    }
  }
}
