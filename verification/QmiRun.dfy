/**
 What the decoder of lib/qmi.c does to the struct for any input whatever: how much it consumes, the memory it leaves,
 and how far it reads. Nothing here supposes that lengths and counts agree with each other.
 */
module QmiRun {
  import opened Bytes
  import opened QmiDescriptor
  import opened QmiScript
  import opened QmiAccept

  /**
   The bytes consumed or a negative error, the memory, the end of the bytes read, and the count in hand: the length
   variable, or the number of structs decoded.
   */
  datatype Out = Out(rc: int, mem: seq<u8>, reach: nat, count: nat)

  /** Types from here on are optional and skipped when unknown. */
  const OptionalStart: u8 := 0x10

  function RunString(f: Field, mem: seq<u8>, dst: nat, inb: seq<u8>, src: nat, tlvLen: nat, top: bool,
                     reach: nat): Out {
    var w := if top then 0 else StrWidth(f);
    var n := if top then tlvLen else Le(Peek(inb, src, w));
    if n > f.elemLen then Out(-EINVAL, mem, Max(reach, src + w), 1)
    else if n > tlvLen then Out(-EFAULT, mem, Max(reach, src + w), 1)
    else Out(w + n, Splice(mem, dst, Peek(inb, src + w, n) + [0]), Max(reach, src + w + n), 1)
  }

  /** The structs from number i on, of n, with `decoded` bytes consumed by those before. */
  function RunRecs(fs: seq<Field>, size: nat, mem: seq<u8>, dst: nat, inb: seq<u8>, src: nat, i: nat, n: nat,
                   decoded: nat, tlvLen: nat, reach: nat): Out
    decreases fs, 2, n - i
  {
    if i < n && decoded < tlvLen then
      var r := RunRec(fs, size, mem, dst, inb, src, i, decoded, tlvLen, reach);
      if r.rc < 0 then r else RunRecs(fs, size, r.mem, dst, inb, src, i + 1, n, decoded + r.rc, tlvLen, r.reach)
    else Out(decoded, mem, reach, i)
  }

  /** Struct number i. */
  function RunRec(fs: seq<Field>, size: nat, mem: seq<u8>, dst: nat, inb: seq<u8>, src: nat, i: nat, decoded: nat,
                  tlvLen: nat, reach: nat): Out
    requires decoded < tlvLen
    decreases fs, 2, 0
  {
    RunVals(fs, mem, dst + Span(i, size), inb, src + decoded, tlvLen - decoded, 0, 0, 0, reach)
  }

  /** An array of structs: `top` when it is a field of the message itself, and so delimited by its TLV. */
  function RunStructs(fs: seq<Field>, size: nat, mem: seq<u8>, dst: nat, inb: seq<u8>, src: nat, n: nat, tlvLen: nat,
                      top: bool, reach: nat): Out
    decreases fs, 3
  {
    var r := RunRecs(fs, size, mem, dst, inb, src, 0, n, 0, tlvLen, reach);
    if r.rc < 0 then r
    else if (top && r.rc != tlvLen) ||
      (!top && (r.count < n || r.rc > tlvLen)) then Out(-EFAULT, r.mem, r.reach, r.count)
    else r
  }

  /** The n elements of a field. */
  function RunBody(f: Field, mem: seq<u8>, base: nat, inb: seq<u8>, src: nat, n: nat, tlvLen: nat, top: bool,
                   reach: nat): Out
    decreases f, 0
  {
    match f.kind
    case Basic(_) =>
      var b := Span(n, f.elemSize);
      Out(b, Splice(mem, base + f.off, Peek(inb, src, b)), Max(reach, src + b), n)
    case Str => RunString(f, mem, base + f.off, inb, src, tlvLen, top, reach)
    case Struct(sub) => RunStructs(sub, f.elemSize, mem, base + f.off, inb, src, n, tlvLen, top, reach)
  }

  /** The memory once the presence flag is set. */
  function Flagged(f: Field, mem: seq<u8>, base: nat): (m: seq<u8>)
    ensures |m| == |mem|
  {
    if f.flag.Some? then Splice(mem, base + f.flag.value, [1]) else mem
  }

  /** The count of elements, given the length variable and the bytes on the wire. */
  function CountRead(f: Field, inb: seq<u8>, src: nat, stale: nat): nat {
    match f.count
    case One => 1
    case Fixed => f.elemLen
    case Counted(_, _) => SetLow(stale, Peek(inb, src, LenWidth(f)))
  }

  /** The width of the count on the wire. */
  function Width(f: Field): nat {
    if f.count.Counted? then LenWidth(f) else 0
  }

  /** The memory once the count is stored. */
  function CountedMem(f: Field, mem: seq<u8>, base: nat, n: nat): (m: seq<u8>)
    ensures |m| == |mem|
  {
    if f.count.Counted? then Splice(mem, base + f.count.lenOff, Low(n, 4)) else mem
  }

  /** One field, whose payload starts at src. */
  function RunField(f: Field, mem: seq<u8>, base: nat, inb: seq<u8>, src: nat, stale: nat, tlvLen: nat, top: bool,
                    reach: nat): Out
    decreases f, 2
  {
    var n := CountRead(f, inb, src, stale);
    var m := CountedMem(f, Flagged(f, mem, base), base, n);
    if f.count.Counted? && n > f.elemLen then Out(-EINVAL, m, Max(reach, src + Width(f)), n)
    else RunElems(f, m, base, inb, src, n, tlvLen, top, reach)
  }

  /** The n elements behind the count. */
  function RunElems(f: Field, mem: seq<u8>, base: nat, inb: seq<u8>, src: nat, n: nat, tlvLen: nat, top: bool,
                    reach: nat): Out
    decreases f, 1
  {
    var w := Width(f);
    var r := RunBody(f, mem, base, inb, src + w, n, Behind(f, tlvLen), top, Max(reach, src + w));
    Out(if r.rc < 0 then r.rc else w + r.rc, r.mem, r.reach, n)
  }

  /** The length of the TLV less that of the count. */
  function Behind(f: Field, tlvLen: nat): nat {
    if f.count.Counted? then Left(tlvLen, LenWidth(f)) else tlvLen
  }

  /** The fields of a nested struct from g on: they follow each other without lengths of their own. */
  function RunVals(fs: seq<Field>, mem: seq<u8>, base: nat, inb: seq<u8>, src: nat, room: nat, g: nat, decoded: nat,
                   stale: nat, reach: nat): Out
    decreases fs, 1, |fs| - g
  {
    if g < |fs| && decoded < room then
      var r := RunVal(fs, mem, base, inb, src, room, g, decoded, stale, reach);
      if r.rc < 0 then r else RunVals(fs, r.mem, base, inb, src, room, g + 1, decoded + r.rc, r.count, r.reach)
    else Out(decoded, mem, reach, stale)
  }

  /** Field number g. */
  function RunVal(fs: seq<Field>, mem: seq<u8>, base: nat, inb: seq<u8>, src: nat, room: nat, g: nat, decoded: nat,
                  stale: nat, reach: nat): Out
    requires g < |fs| && decoded < room
    decreases fs, 1, 0
  {
    RunField(fs[g], mem, base, inb, src + decoded, stale, room - decoded, false, reach)
  }

  /** The field of this type. */
  function FieldOf(fs: seq<Field>, tlv: u8): (i: Option<nat>)
    ensures i.Some? ==> i.value < |fs| && fs[i.value].tlv == tlv
    ensures i.None? ==> forall g :: 0 <= g < |fs| ==> fs[g].tlv != tlv
  {
    if fs == [] then None
    else if fs[|fs| - 1].tlv == tlv then Some(|fs| - 1)
    else FieldOf(fs[..|fs| - 1], tlv)
  }

  /** One TLV of a message. */
  function RunTlv(fs: seq<Field>, mem: seq<u8>, base: nat, inb: seq<u8>, src: nat, stale: nat, reach: nat): (r: Out)
    ensures r.rc >= 0 ==> r.rc >= 3
  {
    var h := Peek(inb, src, 3);
    var tlvLen, seen := Word(h[1], h[2]), Max(reach, src + 3);
    match FieldOf(fs, h[0])
    case None => Out(if h[0] < OptionalStart then -EINVAL else 3 + tlvLen, mem, seen, stale)
    case Some(i) =>
      var r := RunField(fs[i], mem, base, inb, src + 3, stale, tlvLen, true, seen);
      Out(if r.rc < 0 then r.rc else 3 + r.rc, r.mem, r.reach, r.count)
  }

  /** A message from byte `decoded` on. */
  function RunTop(fs: seq<Field>, mem: seq<u8>, base: nat, inb: seq<u8>, pos: nat, inLen: nat, decoded: nat, stale: nat,
                  reach: nat): Out
    decreases inLen - decoded
  {
    if decoded >= inLen then Out(decoded, mem, reach, stale)
    else
      var r := RunTlv(fs, mem, base, inb, pos + decoded, stale, reach);
      if r.rc < 0 then r else RunTop(fs, r.mem, base, inb, pos, inLen, decoded + r.rc, r.count, r.reach)
  }

  /** One call of the decoder. */
  function Run(fs: seq<Field>, mem: seq<u8>, base: nat, inb: seq<u8>, pos: nat, inLen: nat, top: bool,
               reach: nat): Out {
    if top then RunTop(fs, mem, base, inb, pos, inLen, 0, 0, reach)
      else RunVals(fs, mem, base, inb, pos, inLen, 0, 0, 0, reach)
  }

  // ---------- Only the members of the struct are written ----------

  /** Only bytes p..p+n changed. */
  ghost predicate OnlyChanged(now: seq<u8>, was: seq<u8>, p: int, n: int) {
    && |now| == |was|
    && forall i {:trigger now[i]} :: 0 <= i < |now| && !(p <= i < p + n) ==> now[i] == was[i]
  }

  /** Only bytes of field f changed. */
  ghost predicate OwnedOnly(f: Field, now: seq<u8>, was: seq<u8>, base: nat) {
    && |now| == |was|
    && forall y {:trigger now[y]} :: 0 <= y < |now| && !(base <= y && Owns(f, y - base)) ==> now[y] == was[y]
  }

  lemma {:induction false} SplicedOnly(was: seq<u8>, p: nat, b: seq<u8>, n: nat)
    requires |b| <= n
    ensures OnlyChanged(Splice(was, p, b), was, p, n)
  {
  }

  lemma {:induction false} FrameGrows(next: seq<u8>, now: seq<u8>, was: seq<u8>, p: nat, n: nat, d: nat, k: nat)
    requires p <= d && d + k <= p + n
    requires OnlyChanged(next, now, d, k) && OnlyChanged(now, was, p, n)
    ensures OnlyChanged(next, was, p, n)
  {
  }

  /** A reading goes on from where earlier ones ended, and the elements of a field stay within its extent. */
  lemma {:induction false} BodyWrites(f: Field, size: nat, mem: seq<u8>, base: nat, inb: seq<u8>, src: nat, n: nat,
                                      tlvLen: nat, top: bool, wfTop: bool, reach: nat)
    requires WfField(f, size, wfTop) && n <= Capacity(f)
    ensures var r := RunBody(f, mem, base, inb, src, n, tlvLen, top, reach);
            OnlyChanged(r.mem, mem, base + f.off, Extent(f)) && r.reach >= reach
    decreases f, 0
  {
    match f.kind
    case Basic(_) =>
      SpanMono(n, Capacity(f), f.elemSize);
      SplicedOnly(mem, base + f.off, Peek(inb, src, Span(n, f.elemSize)), Extent(f));
    case Str =>
      var w := if top then 0 else StrWidth(f);
      var k := if top then tlvLen else Le(Peek(inb, src, w));
      if k <= f.elemLen {
        SplicedOnly(mem, base + f.off, Peek(inb, src + w, k) + [0], Extent(f));
      }
    case Struct(sub) =>
      SpanMono(n, Capacity(f), f.elemSize);
      RecsWrite(sub, f.elemSize, mem, base + f.off, inb, src, 0, n, 0, tlvLen, reach);
      var r := RunStructs(sub, f.elemSize, mem, base + f.off, inb, src, n, tlvLen, top, reach);
      FrameGrows(r.mem, mem, mem, base + f.off, Extent(f), base + f.off, Span(n, f.elemSize));
  }

  lemma {:induction false} RecsWrite(fs: seq<Field>, size: nat, mem: seq<u8>, dst: nat, inb: seq<u8>, src: nat, i: nat,
                                     n: nat, decoded: nat, tlvLen: nat, reach: nat)
    requires WfFields(fs, size, false) && i <= n
    ensures var r := RunRecs(fs, size, mem, dst, inb, src, i, n, decoded, tlvLen, reach);
            OnlyChanged(r.mem, mem, dst + Span(i, size), Span(n, size) - Span(i, size)) && r.reach >= reach
    ensures Span(i, size) <= Span(n, size)
    decreases fs, 2, n - i
  {
    SpanMono(i, n, size);
    if i < n && decoded < tlvLen {
      var r := RunRec(fs, size, mem, dst, inb, src, i, decoded, tlvLen, reach);
      ValsWrite(fs, size, mem, dst + Span(i, size), inb, src + decoded, tlvLen - decoded, 0, 0, 0, reach);
      if r.rc >= 0 {
        RecsWrite(fs, size, r.mem, dst, inb, src, i + 1, n, decoded + r.rc, tlvLen, r.reach);
      }
    }
  }

  lemma {:induction false} ValsWrite(fs: seq<Field>, size: nat, mem: seq<u8>, base: nat, inb: seq<u8>, src: nat,
                                     room: nat, g: nat, decoded: nat, stale: nat, reach: nat)
    requires WfFields(fs, size, false) && g <= |fs|
    ensures var r := RunVals(fs, mem, base, inb, src, room, g, decoded, stale, reach);
            OnlyChanged(r.mem, mem, base, size) && r.reach >= reach
    decreases fs, 1, |fs| - g
  {
    if g < |fs| && decoded < room {
      var r := RunVal(fs, mem, base, inb, src, room, g, decoded, stale, reach);
      assert WfField(fs[g], size, false);
      FieldWrites(fs[g], size, false, mem, base, inb, src + decoded, stale, room - decoded, false, reach);
      FieldOwns(fs[g], size, false, r.mem, mem, base);
      if r.rc >= 0 {
        ValsWrite(fs, size, r.mem, base, inb, src, room, g + 1, decoded + r.rc, r.count, r.reach);
      }
    }
  }

  lemma {:induction false} FieldOwns(f: Field, size: nat, top: bool, now: seq<u8>, was: seq<u8>, base: nat)
    requires WfField(f, size, top) && OwnedOnly(f, now, was, base)
    ensures OnlyChanged(now, was, base, size)
  {
    forall i {:trigger now[i]} | 0 <= i < |now| && !(base <= i < base + size) ensures now[i] == was[i] {
      assert base <= i ==> !Owns(f, i - base);
    }
  }

  lemma {:induction false} FieldWrites(f: Field, size: nat, wfTop: bool, mem: seq<u8>, base: nat, inb: seq<u8>,
                                       src: nat, stale: nat, tlvLen: nat, top: bool, reach: nat)
    requires WfField(f, size, wfTop)
    ensures var r := RunField(f, mem, base, inb, src, stale, tlvLen, top, reach);
            OwnedOnly(f, r.mem, mem, base) && r.reach >= reach
    decreases f, 1
  {
    var w, n := Width(f), CountRead(f, inb, src, stale);
    var m := CountedMem(f, Flagged(f, mem, base), base, n);
    PrefixWrites(f, mem, base, n);
    if !(f.count.Counted? && n > f.elemLen) {
      BodyWrites(f, size, m, base, inb, src + w, n, Behind(f, tlvLen), top, wfTop, Max(reach, src + w));
      var r := RunElems(f, m, base, inb, src, n, tlvLen, top, reach);
      forall y {:trigger r.mem[y]} | 0 <= y < |mem| && !(base <= y && Owns(f, y - base)) ensures r.mem[y] == mem[y] {
        assert base <= y ==> !InValue(f, y - base);
        assert m[y] == mem[y];
      }
    }
  }

  lemma {:induction false} PrefixWrites(f: Field, mem: seq<u8>, base: nat, n: nat)
    ensures OwnedOnly(f, CountedMem(f, Flagged(f, mem, base), base, n), mem, base)
  {
    var m := CountedMem(f, Flagged(f, mem, base), base, n);
    forall y {:trigger m[y]} | 0 <= y < |m| && !(base <= y && Owns(f, y - base)) ensures m[y] == mem[y] {
      assert base <= y ==> !InFlag(f, y - base) && !InLen(f, y - base);
    }
  }

  lemma {:induction false} TlvWrites(fs: seq<Field>, size: nat, mem: seq<u8>, base: nat, inb: seq<u8>, src: nat,
                                     stale: nat, reach: nat)
    requires WfFields(fs, size, true)
    ensures var r := RunTlv(fs, mem, base, inb, src, stale, reach);
            OnlyChanged(r.mem, mem, base, size) && r.reach >= reach && r.reach >= src + 3
  {
    var h := Peek(inb, src, 3);
    if FieldOf(fs, h[0]).Some? {
      var i, seen := FieldOf(fs, h[0]).value, Max(reach, src + 3);
      var r := RunField(fs[i], mem, base, inb, src + 3, stale, Word(h[1], h[2]), true, seen);
      assert WfField(fs[i], size, true);
      FieldWrites(fs[i], size, true, mem, base, inb, src + 3, stale, Word(h[1], h[2]), true, seen);
      FieldOwns(fs[i], size, true, r.mem, mem, base);
    }
  }

  lemma {:induction false} TopWrites(fs: seq<Field>, size: nat, mem: seq<u8>, base: nat, inb: seq<u8>, pos: nat,
                                     inLen: nat, decoded: nat, stale: nat, reach: nat)
    requires WfFields(fs, size, true)
    ensures var r := RunTop(fs, mem, base, inb, pos, inLen, decoded, stale, reach);
            OnlyChanged(r.mem, mem, base, size) && r.reach >= reach
    decreases inLen - decoded
  {
    if decoded < inLen {
      var r := RunTlv(fs, mem, base, inb, pos + decoded, stale, reach);
      var all := RunTop(fs, mem, base, inb, pos, inLen, decoded, stale, reach);
      TlvWrites(fs, size, mem, base, inb, pos + decoded, stale, reach);
      if r.rc >= 0 {
        TopWrites(fs, size, r.mem, base, inb, pos, inLen, decoded + r.rc, r.count, r.reach);
        FrameGrows(all.mem, r.mem, mem, base, size, base, size);
      }
    }
  }

  // ---------- How far it reads ----------

  /** The most bytes a field is read over, whatever lengths the input gives. */
  function MaxField(f: Field): nat
    decreases f
  {
    Width(f) +
    match f.kind
    case Basic(_) => Span(Capacity(f), f.elemSize)
    case Str => StrWidth(f) + f.elemLen
    case Struct(sub) => Span(Capacity(f), MaxVals(sub, |sub|))
  }

  function MaxVals(fs: seq<Field>, g: nat): nat
    requires g <= |fs|
    decreases fs, g
  {
    if g == 0 then 0 else MaxVals(fs, g - 1) + MaxField(fs[g - 1])
  }

  lemma {:induction false} MaxValsMono(fs: seq<Field>, g: nat, h: nat)
    requires g <= h <= |fs|
    ensures MaxVals(fs, g) <= MaxVals(fs, h)
    ensures g < h ==> MaxVals(fs, g) + MaxField(fs[g]) <= MaxVals(fs, h)
    decreases h
  {
    if g < h {
      MaxValsMono(fs, g, h - 1);
    }
  }

  lemma {:induction false} BodyReach(f: Field, mem: seq<u8>, base: nat, inb: seq<u8>, src: nat, n: nat, tlvLen: nat,
                                     top: bool, reach: nat, bound: nat)
    requires n <= Capacity(f) && reach <= bound && src + MaxField(f) <= bound + Width(f)
    ensures var r := RunBody(f, mem, base, inb, src, n, tlvLen, top, reach);
            r.rc + Width(f) <= MaxField(f) && r.reach <= bound
    decreases f, 0
  {
    match f.kind
    case Basic(_) => SpanMono(n, Capacity(f), f.elemSize);
    case Str =>
    case Struct(sub) =>
      SpanMono(n, Capacity(f), MaxVals(sub, |sub|));
      RecsReach(sub, f.elemSize, mem, base + f.off, inb, src, 0, n, 0, tlvLen, reach, bound);
  }

  lemma {:induction false} RecsReach(fs: seq<Field>, size: nat, mem: seq<u8>, dst: nat, inb: seq<u8>, src: nat, i: nat,
                                     n: nat, decoded: nat, tlvLen: nat, reach: nat, bound: nat)
    requires i <= n && reach <= bound
    requires src + decoded + Span(n, MaxVals(fs, |fs|)) <= bound + Span(i, MaxVals(fs, |fs|))
    ensures var r := RunRecs(fs, size, mem, dst, inb, src, i, n, decoded, tlvLen, reach);
            r.rc + Span(i, MaxVals(fs, |fs|)) <= decoded + Span(n, MaxVals(fs, |fs|)) && r.reach <= bound
    decreases fs, 2, n - i
  {
    var most := MaxVals(fs, |fs|);
    SpanMono(i, n, most);
    if i < n && decoded < tlvLen {
      SpanMono(i + 1, n, most);
      var r := RunRec(fs, size, mem, dst, inb, src, i, decoded, tlvLen, reach);
      ValsReach(fs, mem, dst + Span(i, size), inb, src + decoded, tlvLen - decoded, 0, 0, 0, reach, bound);
      if r.rc >= 0 {
        RecsReach(fs, size, r.mem, dst, inb, src, i + 1, n, decoded + r.rc, tlvLen, r.reach, bound);
      }
    }
  }

  lemma {:induction false} ValsReach(fs: seq<Field>, mem: seq<u8>, base: nat, inb: seq<u8>, src: nat, room: nat, g: nat,
                                     decoded: nat, stale: nat, reach: nat, bound: nat)
    requires g <= |fs| && reach <= bound && src + decoded + MaxVals(fs, |fs|) <= bound + MaxVals(fs, g)
    ensures var r := RunVals(fs, mem, base, inb, src, room, g, decoded, stale, reach);
            r.rc + MaxVals(fs, g) <= decoded + MaxVals(fs, |fs|) && r.reach <= bound
    decreases fs, 1, |fs| - g
  {
    MaxValsMono(fs, g, |fs|);
    if g < |fs| && decoded < room {
      MaxValsMono(fs, g + 1, |fs|);
      assert MaxVals(fs, g + 1) == MaxVals(fs, g) + MaxField(fs[g]);
      var r := RunVal(fs, mem, base, inb, src, room, g, decoded, stale, reach);
      FieldReach(fs[g], mem, base, inb, src + decoded, stale, room - decoded, false, reach, bound);
      if r.rc >= 0 {
        ValsReach(fs, r.mem, base, inb, src, room, g + 1, decoded + r.rc, r.count, r.reach, bound);
      }
    }
  }

  lemma {:induction false} FieldReach(f: Field, mem: seq<u8>, base: nat, inb: seq<u8>, src: nat, stale: nat,
                                      tlvLen: nat, top: bool, reach: nat, bound: nat)
    requires reach <= bound && src + MaxField(f) <= bound
    ensures var r := RunField(f, mem, base, inb, src, stale, tlvLen, top, reach);
            r.rc <= MaxField(f) && r.reach <= bound
    decreases f, 1
  {
    var w, n := Width(f), CountRead(f, inb, src, stale);
    if !(f.count.Counted? && n > f.elemLen) {
      var m := CountedMem(f, Flagged(f, mem, base), base, n);
      BodyReach(f, m, base, inb, src + w, n, Behind(f, tlvLen), top, Max(reach, src + w), bound);
    }
  }

  lemma {:induction false} TlvReach(fs: seq<Field>, mem: seq<u8>, base: nat, inb: seq<u8>, src: nat, stale: nat,
                                    reach: nat, bound: nat)
    requires reach <= bound && src + 3 + MaxVals(fs, |fs|) <= bound
    ensures RunTlv(fs, mem, base, inb, src, stale, reach).reach <= bound
  {
    var h := Peek(inb, src, 3);
    if FieldOf(fs, h[0]).Some? {
      var i := FieldOf(fs, h[0]).value;
      MaxValsMono(fs, i, |fs|);
      FieldReach(fs[i], mem, base, inb, src + 3, stale, Word(h[1], h[2]), true, Max(reach, src + 3), bound);
    }
  }

  /** Any input at all is read at most this far behind its end. */
  lemma {:induction false} TopReach(fs: seq<Field>, mem: seq<u8>, base: nat, inb: seq<u8>, pos: nat, inLen: nat,
                                    decoded: nat, stale: nat, reach: nat, bound: nat)
    requires reach <= bound && pos + inLen + 2 + MaxVals(fs, |fs|) <= bound
    ensures RunTop(fs, mem, base, inb, pos, inLen, decoded, stale, reach).reach <= bound
    decreases inLen - decoded
  {
    if decoded < inLen {
      var r := RunTlv(fs, mem, base, inb, pos + decoded, stale, reach);
      TlvReach(fs, mem, base, inb, pos + decoded, stale, reach, bound);
      if r.rc >= 0 {
        TopReach(fs, r.mem, base, inb, pos, inLen, decoded + r.rc, r.count, r.reach, bound);
      }
    }
  }
}
