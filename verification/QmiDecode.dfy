/**
 The decoder of lib/qmi.c, writing in place into the described struct, proved to do for any input what QmiRun says.
 The memory behind the input has to reach as far as the run reads; nothing else is supposed of it.
 */
module QmiDecode {
  import opened Bytes
  import opened QmiDescriptor
  import opened QmiCopy
  import opened QmiAccept
  import opened QmiScript
  import opened QmiRun

  // ---------- The elements of a field ----------

  method DecodeStringElem(e: Elem, mem: array<u8>, dst: nat, inb: seq<u8>, src: nat, tlvLen: nat, level: nat,
                          ghost f: Field, ghost reach: nat)
    returns (rc: int)
    requires ValueRow(e, f) && f.kind.Str? && f.elemSize == 1 && level >= 1 && dst + f.elemLen + 1 <= mem.Length
    requires RunString(f, mem[..], dst, inb, src, tlvLen, level == 1, reach).reach <= |inb|
    modifies mem
    ensures var r := old(RunString(f, mem[..], dst, inb, src, tlvLen, level == 1, reach));
            rc == r.rc && mem[..] == r.mem
  {
    var decodedBytes, stringLen := 0, 0;
    if level == 1 {
      stringLen := tlvLen;
    } else {
      var stringLenSz := if e.elemLen <= 256 then 1 else 2;
      stringLen := SetLow(0, inb[src..src + stringLenSz]);
      decodedBytes := decodedBytes + stringLenSz;
    }
    if stringLen > e.elemLen {
      return -EINVAL;
    } else if stringLen > tlvLen {
      return -EFAULT;
    }
    rc := StoreString(mem, dst, inb, src + decodedBytes, stringLen, e.elemSize);
    rc := decodedBytes + rc;
  }

  /** Copies the characters and puts the terminator behind them. */
  method StoreString(mem: array<u8>, dst: nat, inb: seq<u8>, at: nat, stringLen: nat, elemSize: nat) returns (rc: nat)
    requires elemSize == 1 && at + stringLen <= |inb| && dst + stringLen < mem.Length
    modifies mem
    ensures rc == stringLen && mem[..] == Splice(old(mem[..]), dst, Peek(inb, at, stringLen) + [0])
  {
    SpanOfBytes(stringLen);
    rc := CopyElems(mem, dst, inb, at, stringLen, elemSize);
    mem[dst + stringLen] := 0;
    assert mem[..] == Splice(old(mem[..]), dst, Peek(inb, at, stringLen) + [0]);
  }

  method DecodeStructElem(e: Elem, mem: array<u8>, dst: nat, inb: seq<u8>, src: nat, elemLen: nat, tlvLen: nat,
                          level: nat, ghost sub: seq<Field>, ghost reach: nat)
    returns (rc: int)
    requires Represents(e.sub, sub) && WfFields(sub, e.elemSize, false) && level >= 2
    requires dst + Span(elemLen, e.elemSize) <= mem.Length
    requires RunStructs(sub, e.elemSize, mem[..], dst, inb, src, elemLen, tlvLen, level == 2, reach).reach <= |inb|
    modifies mem
    ensures var r := old(RunStructs(sub, e.elemSize, mem[..], dst, inb, src, elemLen, tlvLen, level == 2, reach));
            rc == r.rc && mem[..] == r.mem
    decreases sub, 3
  {
    ghost var size, all := e.elemSize, RunRecs(sub, e.elemSize, mem[..], dst, inb, src, 0, elemLen, 0, tlvLen, reach);
    ghost var seen := reach;
    var i, decodedBytes: nat, d, s := 0, 0, dst, src;
    while i < elemLen && decodedBytes < tlvLen
      invariant 0 <= i <= elemLen && s == src + decodedBytes && d == dst + Span(i, e.elemSize)
      invariant RunRecs(sub, size, mem[..], dst, inb, src, i, elemLen, decodedBytes, tlvLen, seen) == all
      decreases elemLen - i
    {
      ghost var r := RunRec(sub, size, mem[..], dst, inb, src, i, decodedBytes, tlvLen, seen);
      NextRec(sub, size, mem[..], dst, d, inb, src, s, i, elemLen, decodedBytes, tlvLen, seen, r);
      rc := Decode(e.sub, mem, d, inb, s, tlvLen - decodedBytes, level, sub, e.elemSize, seen);
      if rc < 0 {
        return;
      }
      i, s, d := i + 1, s + rc, d + e.elemSize;
      decodedBytes := decodedBytes + rc;
      seen := r.reach;
    }
    if (level <= 2 && decodedBytes != tlvLen) || (level > 2 && (i < elemLen || decodedBytes > tlvLen)) {
      return -EFAULT;
    }
    rc := decodedBytes;
  }

  /** One more struct: it is read as far as the rest is, at most. */
  lemma {:induction false} NextRec(fs: seq<Field>, size: nat, mem: seq<u8>, dst: nat, d: nat, inb: seq<u8>, src: nat,
                                   s: nat, i: nat, n: nat, decoded: nat, tlvLen: nat, reach: nat, r: Out)
    requires WfFields(fs, size, false) && i < n && decoded < tlvLen && d == dst + Span(i, size) && s == src + decoded
    requires r == RunRec(fs, size, mem, dst, inb, src, i, decoded, tlvLen, reach)
    ensures var all := RunRecs(fs, size, mem, dst, inb, src, i, n, decoded, tlvLen, reach);
            all == (if r.rc < 0 then r
                    else RunRecs(fs, size, r.mem, dst, inb, src, i + 1, n, decoded + r.rc, tlvLen, r.reach)) &&
                      r.reach <= all.reach
    ensures r == Run(fs, mem, d, inb, s, tlvLen - decoded, false, reach)
    ensures d + size == dst + Span(i + 1, size) <= dst + Span(n, size)
  {
    SpanMono(i, n, size);
    if r.rc >= 0 {
      RecsWrite(fs, size, r.mem, dst, inb, src, i + 1, n, decoded + r.rc, tlvLen, r.reach);
    }
  }

  /** The case of basic elements. */
  method DecodeBasicElems(e: Elem, mem: array<u8>, base: nat, inb: seq<u8>, src: nat, dataLenValue: nat, ghost f: Field,
                          ghost tlvLen: nat, ghost top: bool, ghost reach: nat)
    returns (rc: int)
    requires ValueRow(e, f) && f.kind.Basic? && base + f.off + Span(dataLenValue, f.elemSize) <= mem.Length
    requires RunBody(f, mem[..], base, inb, src, dataLenValue, tlvLen, top, reach).reach <= |inb|
    modifies mem
    ensures var r := old(RunBody(f, mem[..], base, inb, src, dataLenValue, tlvLen, top, reach));
            rc == r.rc && mem[..] == r.mem
  {
    rc := CopyElems(mem, base + e.offset, inb, src, dataLenValue, e.elemSize);
  }

  /** The cases that read the elements of a field. */
  method DecodeBody(e: Elem, mem: array<u8>, base: nat, inb: seq<u8>, src: nat, dataLenValue: nat, tlvLen: nat,
                    level: nat, ghost f: Field, ghost size: nat, ghost reach: nat)
    returns (rc: int)
    requires level >= 1 && ValueRow(e, f) && WfField(f, size, level == 1)
    requires f.kind.Struct? ==> Represents(e.sub, f.kind.sub)
    requires base + size <= mem.Length && dataLenValue <= Capacity(f)
    requires RunBody(f, mem[..], base, inb, src, dataLenValue, tlvLen, level == 1, reach).reach <= |inb|
    modifies mem
    ensures var r := old(RunBody(f, mem[..], base, inb, src, dataLenValue, tlvLen, level == 1, reach));
            rc == r.rc && mem[..] == r.mem
    decreases f, 0
  {
    SpanMono(dataLenValue, Capacity(f), f.elemSize);
    if IsBasic(e.dataType) {
      rc := DecodeBasicElems(e, mem, base, inb, src, dataLenValue, f, tlvLen, level == 1, reach);
    } else if e.dataType == StructType {
      rc := DecodeStructElem(e, mem, base + e.offset, inb, src, dataLenValue, tlvLen, level + 1, f.kind.sub, reach);
    } else {
      rc := DecodeText(e, mem, base, inb, src, dataLenValue, tlvLen, level, f, reach);
    }
  }

  /** The case of a string. */
  method DecodeText(e: Elem, mem: array<u8>, base: nat, inb: seq<u8>, src: nat, ghost dataLenValue: nat, tlvLen: nat,
                    level: nat, ghost f: Field, ghost reach: nat)
    returns (rc: int)
    requires ValueRow(e, f) && f.kind.Str? && f.elemSize == 1 && level >= 1
    requires base + f.off + f.elemLen + 1 <= mem.Length
    requires RunBody(f, mem[..], base, inb, src, dataLenValue, tlvLen, level == 1, reach).reach <= |inb|
    modifies mem
    ensures var r := old(RunBody(f, mem[..], base, inb, src, dataLenValue, tlvLen, level == 1, reach));
            rc == r.rc && mem[..] == r.mem
  {
    rc := DecodeStringElem(e, mem, base + e.offset, inb, src, tlvLen, level, f, reach);
  }

  // ---------- One field ----------

  /** The OPT_FLAG and DATA_LEN rows of a field: a count is read over the low bytes of the length variable. */
  method DecodePrefix(ei: seq<Elem>, t: nat, mem: array<u8>, base: nat, inb: seq<u8>, src: nat, lastLen: nat,
                      ghost f: Field, ghost size: nat, ghost top: bool)
    returns (rc: nat, dataLenValue: nat, t': nat)
    requires GroupAt(ei, t, f) && WfField(f, size, top) && base + size <= mem.Length && src + Width(f) <= |inb|
    modifies mem
    ensures rc == Width(f) && t' + 1 == t + Rows(f) <= |ei| && ValueRow(ei[t'], f)
    ensures f.kind.Struct? ==> Represents(ei[t'].sub, f.kind.sub)
    ensures dataLenValue == if f.count.Counted? then CountRead(f, inb, src, lastLen) else lastLen
    ensures mem[..] == CountedMem(f, Flagged(f, old(mem[..]), base), base, CountRead(f, inb, src, lastLen))
  {
    t', dataLenValue, rc := t, lastLen, 0;
    ghost var was := mem[..];
    if ei[t'].dataType == OptFlag {
      mem[base + ei[t'].offset] := 1;
      t' := t' + 1;
    }
    assert mem[..] == Flagged(f, was, base);
    if ei[t'].dataType == DataLen {
      rc := if ei[t'].elemSize == 1 then 1 else 2;
      dataLenValue := SetLow(lastLen, inb[src..src + rc]);
      var _ := CopyElems(mem, base + ei[t'].offset, Low(dataLenValue, 4), 0, 1, 4);
      t' := t' + 1;
    }
  }

  /** How many elements a row stands for, given the count read last; none for too large a count. */
  function NumToRead(e: Elem, dataLenValue: nat): Option<nat> {
    if e.arrayType == NoArray then Some(1)
    else if e.arrayType == StaticArray then Some(e.elemLen)
    else if dataLenValue > e.elemLen then None
    else Some(dataLenValue)
  }

  /** One iteration of the decoder behind the TLV header: the rows of field f, starting at row t. */
  method DecodeField(ei: seq<Elem>, t: nat, mem: array<u8>, base: nat, inb: seq<u8>, src: nat, lastLen: nat,
                     tlvLen: nat, level: nat, ghost f: Field, ghost size: nat, ghost reach: nat)
    returns (rc: int, dataLenValue: nat, t': nat)
    requires level >= 1 && GroupAt(ei, t, f) && WfField(f, size, level == 1) && base + size <= mem.Length
    requires RunField(f, mem[..], base, inb, src, lastLen, tlvLen, level == 1, reach).reach <= |inb|
    modifies mem
    ensures var r := old(RunField(f, mem[..], base, inb, src, lastLen, tlvLen, level == 1, reach));
            rc == r.rc && mem[..] == r.mem && (rc >= 0 ==> dataLenValue == r.count && t' == t + Rows(f))
    decreases f, 2
  {
    ReachesCount(f, size, level == 1, mem[..], base, inb, src, lastLen, tlvLen, reach);
    rc, dataLenValue, t' := DecodePrefix(ei, t, mem, base, inb, src, lastLen, f, size, level == 1);
    var e := ei[t'];
    var n := NumToRead(e, dataLenValue);
    if n.None? {
      return -EINVAL, dataLenValue, t';
    }
    dataLenValue := n.value;
    rc := DecodeElems(e, mem, base, inb, src, rc, dataLenValue, tlvLen, level, f, size, reach);
    t' := t' + 1;
  }

  /** The elements, behind `prefixLen` bytes of count. */
  method DecodeElems(e: Elem, mem: array<u8>, base: nat, inb: seq<u8>, src: nat, prefixLen: nat, dataLenValue: nat,
                     tlvLen: nat, level: nat, ghost f: Field, ghost size: nat, ghost reach: nat)
    returns (rc: int)
    requires level >= 1 && ValueRow(e, f) && WfField(f, size, level == 1)
    requires f.kind.Struct? ==> Represents(e.sub, f.kind.sub)
    requires base + size <= mem.Length && dataLenValue <= Capacity(f) && prefixLen == Width(f)
    requires RunElems(f, mem[..], base, inb, src, dataLenValue, tlvLen, level == 1, reach).reach <= |inb|
    modifies mem
    ensures var r := old(RunElems(f, mem[..], base, inb, src, dataLenValue, tlvLen, level == 1, reach));
            rc == r.rc && mem[..] == r.mem
    decreases f, 1
  {
    var left := if prefixLen > 0 then Left(tlvLen, prefixLen) else tlvLen;
    rc := DecodeBody(e, mem, base, inb, src + prefixLen, dataLenValue, left, level, f, size,
                     Max(reach, src + prefixLen));
    rc := if rc < 0 then rc else prefixLen + rc;
  }

  lemma {:induction false} ReachesCount(f: Field, size: nat, top: bool, mem: seq<u8>, base: nat, inb: seq<u8>, src: nat,
                                        stale: nat, tlvLen: nat, reach: nat)
    requires WfField(f, size, top)
    ensures src + Width(f) <= RunField(f, mem, base, inb, src, stale, tlvLen, top, reach).reach
    ensures !f.count.Counted? || CountRead(f, inb, src, stale) <= f.elemLen ==>
              CountRead(f, inb, src, stale) <= Capacity(f)
  {
    var w, n := Width(f), CountRead(f, inb, src, stale);
    if !(f.count.Counted? && n > f.elemLen) {
      var m := CountedMem(f, Flagged(f, mem, base), base, n);
      BodyWrites(f, size, m, base, inb, src + w, n, Behind(f, tlvLen), top, top, Max(reach, src + w));
    }
  }

  // ---------- Finding the field of a TLV ----------

  /** The first row of the field of type tlvType, if the table has one. */
  method FindEi(ei: seq<Elem>, tlvType: u8, ghost fs: seq<Field>, ghost size: nat) returns (t: Option<nat>)
    requires Represents(ei, fs) && DistinctTypes(ei, fs) && WfFields(fs, size, true)
    ensures t.None? <==> FieldOf(fs, tlvType).None?
    ensures t.Some? ==> t.value == Pos(fs, FieldOf(fs, tlvType).value)
  {
    var r := 0;
    ghost var g: nat := 0;
    NextField(ei, fs, 0);
    while ei[r].dataType != Eoti
      invariant g <= |fs| && r < |ei|
      invariant if g == |fs| then r == |ei| - 1 else Pos(fs, g) <= r < Pos(fs, g + 1)
      invariant forall h :: 0 <= h < g ==> fs[h].tlv != tlvType
      invariant g < |fs| && r > Pos(fs, g) ==> fs[g].tlv != tlvType
      decreases |ei| - r
    {
      NotTheEnd(ei, fs, size, g, r);
      if ei[r].tlvType == tlvType {
        return Some(r);
      }
      r := r + 1;
      if r == Pos(fs, g + 1) {
        g := g + 1;
        NextField(ei, fs, g);
      }
    }
    NotTheEnd(ei, fs, size, g, r);
    return None;
  }

  /** Row r, one of those of field g; behind the last field comes the end marker. */
  lemma {:induction false} NotTheEnd(ei: seq<Elem>, fs: seq<Field>, size: nat, g: nat, r: nat)
    requires Represents(ei, fs) && WfFields(fs, size, true) && g <= |fs|
    requires g < |fs| ==> Pos(fs, g) <= r < Pos(fs, g + 1)
    ensures g < |fs| ==> r + 1 < |ei| && ei[r].dataType != Eoti && ei[r].tlvType == fs[g].tlv
    ensures g == |fs| ==> Pos(fs, g) == |ei| - 1
  {
    if g < |fs| {
      var f, p := fs[g], Pos(fs, g);
      assert WfField(f, size, true);
      assert FieldAt(ei, fs, g) && GroupAt(ei, p, f);
      PosMono(fs, g + 1, |fs|);
      assert Pos(fs, g + 1) == p + Rows(f);
    }
  }

  /** The rows of field g are followed by those of the next, or by the end marker. */
  lemma {:induction false} NextField(ei: seq<Elem>, fs: seq<Field>, g: nat)
    requires Represents(ei, fs) && g <= |fs|
    ensures if g == |fs| then Pos(fs, g) == |ei| - 1 else Pos(fs, g) < Pos(fs, g + 1)
  {
    if g < |fs| {
      PosMono(fs, g, g + 1);
    }
  }

  lemma {:induction false} FirstRow(ei: seq<Elem>, fs: seq<Field>, size: nat, top: bool, i: nat)
    requires Represents(ei, fs) && WfFields(fs, size, top) && i < |fs|
    ensures GroupAt(ei, Pos(fs, i), fs[i]) && WfField(fs[i], size, top)
    ensures Pos(fs, i) < |ei| - 1 && ei[Pos(fs, i)].dataType != Eoti
    ensures Pos(fs, i) + Rows(fs[i]) == Pos(fs, i + 1)
  {
    assert WfField(fs[i], size, top);
    assert FieldAt(ei, fs, i);
    PosMono(fs, i + 1, |fs|);
  }

  // ---------- The decoder ----------

  /** One TLV of a message: find its field, or skip it. */
  method DecodeTlv(ei: seq<Elem>, mem: array<u8>, base: nat, inb: seq<u8>, src: nat, lastLen: nat, ghost fs: seq<Field>,
                   ghost size: nat, ghost reach: nat)
    returns (rc: int, dataLenValue: nat)
    requires Represents(ei, fs) && DistinctTypes(ei, fs) && WfFields(fs, size, true) && base + size <= mem.Length
    requires RunTlv(fs, mem[..], base, inb, src, lastLen, reach).reach <= |inb|
    modifies mem
    ensures var r := old(RunTlv(fs, mem[..], base, inb, src, lastLen, reach));
            rc == r.rc && mem[..] == r.mem && (rc >= 0 ==> dataLenValue == r.count)
    decreases fs, 1
  {
    TlvWrites(fs, size, mem[..], base, inb, src, lastLen, reach);
    var tlvType, tlvLen := inb[src], Word(inb[src + 1], inb[src + 2]);
    dataLenValue := lastLen;
    var t := FindEi(ei, tlvType, fs, size);
    if t.None? {
      rc := if tlvType < OptionalStart then -EINVAL else 3 + tlvLen;
      return;
    }
    ghost var i := FieldOf(fs, tlvType).value;
    FirstRow(ei, fs, size, true, i);
    var next;
    rc, dataLenValue, next := DecodeField(ei, t.value, mem, base, inb, src + 3, lastLen, tlvLen, 1, fs[i], size,
                                          Max(reach, src + 3));
    rc := if rc < 0 then rc else 3 + rc;
  }

  /** The field of a nested struct at row t. */
  method DecodeVal(ei: seq<Elem>, t: nat, mem: array<u8>, base: nat, inb: seq<u8>, ghost pos: nat, src: nat,
                   lastLen: nat, inLen: nat, decodedBytes: nat, level: nat, ghost fs: seq<Field>, ghost size: nat,
                   ghost g: nat, ghost reach: nat)
    returns (rc: int, dataLenValue: nat, t': nat)
    requires Represents(ei, fs) && WfFields(fs, size, false) && base + size <= mem.Length && level >= 2 && g < |fs|
    requires t == Pos(fs, g)
    requires src == pos + decodedBytes && decodedBytes < inLen
    requires RunVal(fs, mem[..], base, inb, pos, inLen, g, decodedBytes, lastLen, reach).reach <= |inb|
    modifies mem
    ensures var r := old(RunVal(fs, mem[..], base, inb, pos, inLen, g, decodedBytes, lastLen, reach));
            rc == r.rc && mem[..] == r.mem && (rc >= 0 ==> dataLenValue == r.count && t' == Pos(fs, g + 1))
    decreases fs, 1
  {
    FirstRow(ei, fs, size, false, g);
    rc, dataLenValue, t' := DecodeField(ei, t, mem, base, inb, src, lastLen, inLen - decodedBytes, level, fs[g], size,
                                        reach);
  }

  /** What is left to do: of a message from byte `decoded` on, or of a nested struct from field g on. */
  ghost function Rest(fs: seq<Field>, mem: seq<u8>, base: nat, inb: seq<u8>, pos: nat, inLen: nat, top: bool, g: nat,
                      decoded: nat, stale: nat, reach: nat): Out {
    if top then RunTop(fs, mem, base, inb, pos, inLen, decoded, stale, reach)
    else RunVals(fs, mem, base, inb, pos, inLen, g, decoded, stale, reach)
  }

  /** What the next iteration does. */
  ghost function Next(fs: seq<Field>, mem: seq<u8>, base: nat, inb: seq<u8>, pos: nat, inLen: nat, top: bool, g: nat,
                      decoded: nat, stale: nat, reach: nat): Out
    requires decoded < inLen && (!top ==> g < |fs|)
  {
    if top then RunTlv(fs, mem, base, inb, pos + decoded, stale, reach)
      else RunVal(fs, mem, base, inb, pos, inLen, g, decoded, stale, reach)
  }

  method Decode(ei: seq<Elem>, mem: array<u8>, base: nat, inb: seq<u8>, pos: nat, inLen: nat, level: nat,
                ghost fs: seq<Field>, ghost size: nat, ghost reach: nat)
    returns (rc: int)
    requires level >= 1 && Represents(ei, fs) && (level == 1 ==> DistinctTypes(ei, fs))
    requires WfFields(fs, size, level == 1)
    requires base + size <= mem.Length && Run(fs, mem[..], base, inb, pos, inLen, level == 1, reach).reach <= |inb|
    modifies mem
    ensures var r := old(Run(fs, mem[..], base, inb, pos, inLen, level == 1, reach)); rc == r.rc && mem[..] == r.mem
    decreases fs, 2
  {
    ghost var all, g: nat, seen := Run(fs, mem[..], base, inb, pos, inLen, level == 1, reach), 0, reach;
    var t: nat, src, decodedBytes: nat, dataLenValue: nat := 0, pos, 0, 0;
    while decodedBytes < inLen
      invariant src == pos + decodedBytes && (level >= 2 ==> g <= |fs| && t == Pos(fs, g))
      invariant Rest(fs, mem[..], base, inb, pos, inLen, level == 1, g, decodedBytes, dataLenValue, seen) == all
      decreases if level == 1 then inLen - decodedBytes else |fs| - g
    {
      if level >= 2 {
        AtTable(ei, fs, size, g);
        if ei[t].dataType == Eoti {
          return decodedBytes;
        }
      }
      ghost var r := Next(fs, mem[..], base, inb, pos, inLen, level == 1, g, decodedBytes, dataLenValue, seen);
      NextStep(fs, size, mem[..], base, inb, pos, inLen, level == 1, g, decodedBytes, dataLenValue, seen, r);
      if level == 1 {
        rc, dataLenValue := DecodeTlv(ei, mem, base, inb, src, dataLenValue, fs, size, seen);
      } else {
        rc, dataLenValue, t := DecodeVal(ei, t, mem, base, inb, pos, src, dataLenValue, inLen, decodedBytes, level, fs,
                                         size, g, seen);
      }
      if rc < 0 {
        return;
      }
      src, decodedBytes := src + rc, decodedBytes + rc;
      g, seen := g + 1, r.reach;
    }
    rc := decodedBytes;
  }

  lemma {:induction false} AtTable(ei: seq<Elem>, fs: seq<Field>, size: nat, g: nat)
    requires Represents(ei, fs) && WfFields(fs, size, false) && g <= |fs|
    ensures Pos(fs, g) < |ei| && (ei[Pos(fs, g)].dataType == Eoti <==> g == |fs|)
  {
    if g < |fs| {
      FirstRow(ei, fs, size, false, g);
    } else {
      assert Pos(fs, g) == |ei| - 1;
    }
  }

  /** One iteration: it reads as far as the rest does, at most. */
  lemma {:induction false} NextStep(fs: seq<Field>, size: nat, mem: seq<u8>, base: nat, inb: seq<u8>, pos: nat,
                                    inLen: nat, top: bool, g: nat, decoded: nat, stale: nat, reach: nat, r: Out)
    requires WfFields(fs, size, top) && decoded < inLen && (!top ==> g < |fs|)
    requires r == Next(fs, mem, base, inb, pos, inLen, top, g, decoded, stale, reach)
    ensures var all := Rest(fs, mem, base, inb, pos, inLen, top, g, decoded, stale, reach);
            && all == (if r.rc < 0 then r
                       else Rest(fs, r.mem, base, inb, pos, inLen, top, g + 1, decoded + r.rc, r.count, r.reach))
            && r.reach <= all.reach && (top && r.rc >= 0 ==> r.rc >= 3)
  {
    if r.rc >= 0 {
      if top {
        TopWrites(fs, size, r.mem, base, inb, pos, inLen, decoded + r.rc, r.count, r.reach);
      } else {
        ValsWrite(fs, size, r.mem, base, inb, pos, inLen, g + 1, decoded + r.rc, r.count, r.reach);
      }
    }
  }
}
