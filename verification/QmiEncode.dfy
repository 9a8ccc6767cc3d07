/** The encoder of lib/qmi.c, writing in place into the output buffer, proved against the reference wire format. */
module QmiEncode {
  import opened Bytes
  import opened QmiDescriptor
  import opened QmiValue
  import opened QmiCopy
  import opened QmiAccept
  import opened QmiWrites

  // ---------- Facts about tables and loaded values ----------

  /** The rows of field g all carry its type, and none of them ends the table. */
  lemma {:induction false} RowsOfField(ei: seq<Elem>, fs: seq<Field>, g: nat, t: nat)
    requires Represents(ei, fs) && g < |fs| && Pos(fs, g) <= t < Pos(fs, g + 1)
    ensures t < |ei| - 1 && ei[t].tlvType == fs[g].tlv
  {
    var f, p := fs[g], Pos(fs, g);
    assert FieldAt(ei, fs, g) && GroupAt(ei, p, f);
    PosMono(fs, g + 1, |fs|);
    assert Pos(fs, g + 1) == p + Rows(f);
  }

  // ---------- Where the encoder stands between two rows ----------

  /** What of field g has been passed: nothing, its flag, or its DATA_LEN. */
  datatype Phase = AtStart | AfterFlag | AfterLen

  datatype Row = ForFlag | ForLen | ForValue

  ghost function NextRow(f: Field, ph: Phase): Row {
    if ph.AtStart? && f.flag.Some? then ForFlag
    else if !ph.AfterLen? && f.count.Counted? then ForLen
    else ForValue
  }

  ghost predicate AtRow(fs: seq<Field>, g: nat, ph: Phase, t: nat) {
    && g <= |fs|
    && (ph.AtStart? ==> t == Pos(fs, g))
    && (ph.AfterFlag? ==> g < |fs| && fs[g].flag.Some? && t == Pos(fs, g) + 1)
    && (ph.AfterLen? ==> g < |fs| && fs[g].count.Counted? && t == Pos(fs, g) + Rows(fs[g]) - 1)
  }

  lemma {:induction false} RowAt(ei: seq<Elem>, fs: seq<Field>, size: nat, top: bool, g: nat, ph: Phase, t: nat)
    requires Represents(ei, fs) && WfFields(fs, size, top) && AtRow(fs, g, ph, t)
    ensures t < |ei|
    ensures ei[t].dataType == Eoti <==> t == |ei| - 1
    ensures t == |ei| - 1 <==> g == |fs|
    ensures g < |fs| ==> t < Pos(fs, g + 1) < |ei|
    ensures g < |fs| ==> (ei[t].dataType == OptFlag <==> NextRow(fs[g], ph) == ForFlag)
    ensures g < |fs| ==> (ei[t].dataType == DataLen <==> NextRow(fs[g], ph) == ForLen)
    ensures g < |fs| ==>
              match NextRow(fs[g], ph)
              case ForFlag => FlagRow(ei[t], fs[g]) && AtRow(fs, g, AfterFlag, t + 1)
              case ForLen => LenRow(ei[t], fs[g]) && AtRow(fs, g, AfterLen, t + 1)
              case ForValue =>
                ValueRow(ei[t], fs[g]) && AtRow(fs, g + 1, AtStart, t + 1) &&
                  (fs[g].kind.Struct? ==> Represents(ei[t].sub, fs[g].kind.sub))
  {
    if g < |fs| {
      RowKind(ei, fs, g, ph, t);
      assert WfField(fs[g], size, top);
    }
  }

  lemma {:induction false} RowKind(ei: seq<Elem>, fs: seq<Field>, g: nat, ph: Phase, t: nat)
    requires Represents(ei, fs) && AtRow(fs, g, ph, t) && g < |fs|
    ensures t < Pos(fs, g + 1) < |ei|
    ensures match NextRow(fs[g], ph)
            case ForFlag => FlagRow(ei[t], fs[g]) && AtRow(fs, g, AfterFlag, t + 1)
            case ForLen => LenRow(ei[t], fs[g]) && AtRow(fs, g, AfterLen, t + 1)
            case ForValue =>
              ValueRow(ei[t], fs[g]) && AtRow(fs, g + 1, AtStart, t + 1) &&
                (fs[g].kind.Struct? ==> Represents(ei[t].sub, fs[g].kind.sub))
  {
    assert FieldAt(ei, fs, g) && GroupAt(ei, Pos(fs, g), fs[g]);
    PosMono(fs, g + 1, |fs|);
    assert Pos(fs, g + 1) == Pos(fs, g) + Rows(fs[g]);
  }

  /**
   The output so far: the complete pieces `pre` of the fields before the current one, a hole for the next header, and
   the pending bytes of the current field.
   */
  ghost predicate Written(now: seq<u8>, was: seq<u8>, start: nat, pre: seq<u8>, hole: nat, pend: seq<u8>, d: int,
                          encoded: int) {
    && now == Splice(Splice(was, start, pre), start + |pre| + hole, pend)
    && encoded == |pre| + |pend|
    && d == start + hole + encoded
  }

  /** More payload behind what is pending. */
  lemma {:induction false} MorePending(now: seq<u8>, was: seq<u8>, start: nat, pre: seq<u8>, hole: nat, pend: seq<u8>,
                                       d: nat, encoded: int, more: seq<u8>)
    requires Written(now, was, start, pre, hole, pend, d, encoded)
    ensures Written(Splice(now, d, more), was, start, pre, hole, pend + more, d + |more|, encoded + |more|)
  {
    SpliceAppend(Splice(was, start, pre), start + |pre| + hole, pend, more);
  }

  /** Inside a struct the payload of a field is complete as it stands. */
  lemma {:induction false} BareDone(now: seq<u8>, was: seq<u8>, start: nat, pre: seq<u8>, payload: seq<u8>, d: int,
                                    encoded: int)
    requires Written(now, was, start, pre, 0, payload, d, encoded)
    ensures Written(now, was, start, pre + payload, 0, [], d, encoded)
  {
    SpliceAppend(was, start, pre, payload);
  }

  /** At the top level the header is filled in, in front of the payload, and a hole for the next one is left. */
  lemma {:induction false} TlvDone(now: seq<u8>, was: seq<u8>, start: nat, pre: seq<u8>, h: seq<u8>, payload: seq<u8>,
                                   d: int, encoded: int)
    requires |h| == 3 && Written(now, was, start, pre, 3, payload, d, encoded)
    ensures Written(Splice(now, start + |pre|, h), was, start, pre + (h + payload), 3, [], d + 3, encoded + 3)
  {
    SpliceBackpatch(Splice(was, start, pre), start + |pre|, h, payload);
    SpliceAppend(was, start, pre, h + payload);
  }

  // ---------- Writers ----------

  /** Steps over the rest of the rows of field g. */
  method SkipToNextElem(ei: seq<Elem>, t: nat, level: nat, ghost fs: seq<Field>, ghost g: nat) returns (r: nat)
    requires Represents(ei, fs) && g < |fs| && Pos(fs, g) <= t < Pos(fs, g + 1)
    requires if level > 1 then t + 1 == Pos(fs, g + 1) else DistinctTypes(ei, fs)
    ensures r == Pos(fs, g + 1)
  {
    r := t;
    PosMono(fs, g + 1, |fs|);
    if level > 1 {
      r := r + 1;
    } else {
      RowsOfField(ei, fs, g, r);
      var tlvType := ei[r].tlvType;
      r := r + 1;
      while tlvType == ei[r].tlvType
        invariant Pos(fs, g) < r <= Pos(fs, g + 1) < |ei|
        invariant tlvType == fs[g].tlv
        decreases |ei| - r
      {
        NextFieldDiffers(ei, fs, g);
        RowsOfField(ei, fs, g, r);
        tlvType := ei[r].tlvType;
        r := r + 1;
      }
      if r < Pos(fs, g + 1) {
        RowsOfField(ei, fs, g, r);
      }
    }
  }

  lemma {:induction false} NextFieldDiffers(ei: seq<Elem>, fs: seq<Field>, g: nat)
    requires Represents(ei, fs) && DistinctTypes(ei, fs) && g < |fs|
    ensures Pos(fs, g + 1) < |ei| && ei[Pos(fs, g + 1)].tlvType != fs[g].tlv
  {
    PosMono(fs, g + 1, |fs|);
    if g + 1 < |fs| {
      PosMono(fs, g + 1, g + 2);
      RowsOfField(ei, fs, g + 1, Pos(fs, g + 1));
    }
  }

  /** The low-order bytes of the length, copied as one element. */
  method EncodeStringLen(buf: array<u8>, dst: nat, stringLen: nat, stringLenSz: nat) returns (rc: nat)
    requires stringLenSz in {1, 2} && dst + stringLenSz <= buf.Length
    modifies buf
    ensures rc == stringLenSz && buf[..] == Splice(old(buf[..]), dst, Low(stringLen, stringLenSz))
  {
    LowPrefix(stringLen, 4, stringLenSz);
    rc := CopyElems(buf, dst, Low(stringLen, 4), 0, 1, stringLenSz);
  }

  method EncodeStringElem(e: Elem, buf: array<u8>, dst: nat, mem: seq<u8>, src: nat, outLen: nat, level: nat,
                          ghost f: Field) returns (rc: int)
    requires f.kind.Str? && ValueRow(e, f) && f.elemSize == 1 && level >= 1
    requires src + f.elemLen + 1 <= |mem|
    requires var k := StrLen(mem, src);
             k <= f.elemLen && StringAccepted(f, k, level == 1, outLen) ==>
                 dst + k + (if level == 1 then 0 else StrWidth(f)) <= buf.Length
    modifies buf
    ensures var k := StrLen(mem, src);
            var body := StrBody(f, mem[src..src + k], level == 1);
            && (rc >= 0 <==> k <= f.elemLen && StringAccepted(f, k, level == 1, outLen))
            && (rc >= 0 ==> rc == |body| && buf[..] == Splice(old(buf[..]), dst, body))
            && (rc < 0 ==> rc == -EINVAL && buf[..] == old(buf[..]))
  {
    var stringLen := StrLen(mem, src);
    if stringLen > e.elemLen {
      return -EINVAL;
    }
    rc := EncodeSizedString(e, buf, dst, mem, src, stringLen, outLen, level, f);
  }

  /** A string of this length. */
  method EncodeSizedString(e: Elem, buf: array<u8>, dst: nat, mem: seq<u8>, src: nat, stringLen: nat, outLen: nat,
                           level: nat, ghost f: Field) returns (rc: int)
    requires f.kind.Str? && ValueRow(e, f) && f.elemSize == 1 && level >= 1 && src + stringLen <= |mem|
    requires StringAccepted(f, stringLen, level == 1, outLen) ==>
               dst + stringLen + (if level == 1 then 0 else StrWidth(f)) <= buf.Length
    modifies buf
    ensures rc >= 0 <==> StringAccepted(f, stringLen, level == 1, outLen)
    ensures var body := StrBody(f, mem[src..src + stringLen], level == 1);
            rc >= 0 ==> rc == |body| && buf[..] == Splice(old(buf[..]), dst, body)
    ensures rc < 0 ==> rc == -EINVAL && buf[..] == old(buf[..])
  {
    var encodedBytes := 0;
    var stringLenSz := if e.elemLen <= 256 then 1 else 2;
    ghost var was := buf[..];
    if level == 1 {
      if stringLen + 3 > outLen {
        return -EINVAL;
      }
    } else {
      if stringLen + stringLenSz > outLen {
        return -EINVAL;
      }
      rc := EncodeStringLen(buf, dst, stringLen, stringLenSz);
      encodedBytes := encodedBytes + rc;
    }
    ghost var prefix := if level == 1 then [] else Low(stringLen, StrWidth(f));
    assert buf[..] == Splice(was, dst, prefix);
    rc := EncodeChars(buf, dst + encodedBytes, mem, src, stringLen, e.elemSize);
    SpliceAppend(was, dst, prefix, mem[src..src + stringLen]);
    rc := encodedBytes + rc;
  }

  /** The characters, copied one by one. */
  method EncodeChars(buf: array<u8>, dst: nat, mem: seq<u8>, src: nat, stringLen: nat, elemSize: nat) returns (rc: nat)
    requires elemSize == 1 && dst + stringLen <= buf.Length && src + stringLen <= |mem|
    modifies buf
    ensures rc == stringLen && buf[..] == Splice(old(buf[..]), dst, mem[src..src + stringLen])
  {
    SpanOfBytes(stringLen);
    rc := CopyElems(buf, dst, mem, src, stringLen, elemSize);
  }

  // ---------- What encoding a struct has to do ----------

  ghost function Enc(fs: seq<Field>, mem: seq<u8>, base: nat, top: bool): seq<u8> {
    Wire(fs, LoadAll(fs, mem, base, |fs|, Codec), |fs|, top)
  }

  ghost predicate Ok(fs: seq<Field>, mem: seq<u8>, base: nat) {
    AllSendable(fs, LoadAll(fs, mem, base, |fs|, Codec))
  }

  /** The struct can be sent, and every room check passes. */
  ghost predicate Encodes(fs: seq<Field>, mem: seq<u8>, base: nat, outLen: nat, top: bool) {
    Ok(fs, mem, base) && AcceptsVals(fs, LoadAll(fs, mem, base, |fs|, Codec), |fs|, top, outLen)
  }

  lemma {:induction false} EncodesPassed(fs: seq<Field>, mem: seq<u8>, base: nat, outLen: nat, top: bool)
    ensures Encodes(fs, mem, base, outLen, top) <==> Passed(fs, LoadAll(fs, mem, base, |fs|, Codec), |fs|, top, outLen)
  {
    SendableAll(fs, LoadAll(fs, mem, base, |fs|, Codec), |fs|);
  }

  /**
   What is encoded: all that fits, and, with strings inside structs, the messages of which a struct overruns the room.
   */
  lemma {:induction false} EncodesIff(fs: seq<Field>, size: nat, mem: seq<u8>, base: nat, outLen: nat)
    requires WfFields(fs, size, true) && outLen < Wrap / 2 && |Enc(fs, mem, base, true)| < Wrap / 2
    ensures Encodes(fs, mem, base, outLen, true) <==>
            Ok(fs, mem, base) &&
              (|Enc(fs, mem, base, true)| <= outLen ||
               SomeOverruns(fs, LoadAll(fs, mem, base, |fs|, Codec), |fs|, outLen))
    ensures StringsOnlyHere(fs) ==>
              !(Ok(fs, mem, base) && SomeOverruns(fs, LoadAll(fs, mem, base, |fs|, Codec), |fs|, outLen))
  {
    var vs := LoadAll(fs, mem, base, |fs|, Codec);
    if Ok(fs, mem, base) {
      AllLoadedTyped(fs, size, mem, base, |fs|);
      if |Enc(fs, mem, base, true)| <= outLen {
        FittingAccepted(fs, vs, |fs|, outLen);
        FittingOverruns(fs, vs, outLen);
      } else {
        AcceptedBeyond(fs, vs, |fs|, outLen);
        if StringsOnlyHere(fs) {
          PlainAccepted(fs, vs, |fs|, size, outLen);
        }
      }
    }
  }

  lemma {:induction false} FittingOverruns(fs: seq<Field>, vs: seq<Val>, outLen: nat)
    requires |fs| == |vs| && Upto(fs, vs, |fs|) <= outLen
    ensures !SomeOverruns(fs, vs, |fs|, outLen)
  {
    if h :| 0 <= h < |fs| && Overruns(fs, vs, |fs|, outLen, h) {
      WireMono(fs, vs, h + 1, |fs|, true);
    }
  }

  /** Reading a length member through its low-order bytes only. */
  lemma {:induction false} LengthRead(f: Field, size: nat, top: bool, mem: seq<u8>, base: nat)
    requires WfField(f, size, top) && f.count.Counted? && base + size <= |mem|
    ensures var src := base + f.count.lenOff;
            SetLow(1, mem[src..src + f.count.lenSize]) == CountIn(f, mem, base, Codec) ==
              NumElems(LoadValue(f, mem, base, Codec))
  {
    LoadValueIs(f, mem, base, Codec);
    assert Pow256(1) == 256 * Pow256(0);
    Pow256Mono(1, f.count.lenSize);
  }

  // ---------- The encoder ----------

  /** Struct i of an array. */
  lemma {:induction false} RecAt(fs: seq<Field>, mem: seq<u8>, src: nat, size: nat, n: nat, i: nat, s: nat)
    requires i < n && s == src + Span(i, size)
    ensures var rs := LoadRecs(fs, mem, src, size, n, Codec);
            && rs[i] == LoadAll(fs, mem, s, |fs|, Codec)
            && WireRecs(fs, rs, i + 1) == WireRecs(fs, rs, i) + Enc(fs, mem, s, false)
  {
    LoadRecsAt(fs, mem, src, size, n, i, Codec);
    RecStep(fs, LoadRecs(fs, mem, src, size, n, Codec), i);
  }

  lemma {:induction false} RecStep(fs: seq<Field>, rs: seq<seq<Val>>, i: nat)
    requires i < |rs| && |rs[i]| == |fs|
    ensures WireRecs(fs, rs, i + 1) == WireRecs(fs, rs, i) + Wire(fs, rs[i], |fs|, false)
  {
  }

  /** The writes for struct i are among those for the array. */
  lemma {:induction false} RecPut(fs: seq<Field>, rs: seq<seq<Val>>, i: nat, r: seq<Val>, outLen: nat)
    requires i < |rs| && rs[i] == r && |r| == |fs| && RecsPassed(fs, rs, i, outLen)
    ensures var left, pre := Left(outLen, |WireRecs(fs, rs, i)|), WireRecs(fs, rs, i);
            && |pre| + |ValsPut(fs, r, left)| <= |RecsPut(fs, rs, outLen)|
            && (Passed(fs, r, |fs|, false, left) ==> RecsPassed(fs, rs, i + 1, outLen))
            && (!Passed(fs, r, |fs|, false, left) ==>
                  RecsPut(fs, rs, outLen) == pre + ValsPut(fs, r, left) && !RecsPassed(fs, rs, |rs|, outLen))
  {
    var left := Left(outLen, |WireRecs(fs, rs, i)|);
    if Passed(fs, r, |fs|, false, left) {
      AfterAll([], 0, fs, r, false, left);
      AfterNested([], 0, fs, r, left);
      RecStep(fs, rs, i);
      RecHaltMono(fs, rs, i + 1, |rs|, outLen);
      WireRecsMono(fs, rs, i + 1, RecHalt(fs, rs, |rs|, outLen));
    } else {
      RecHaltAt(fs, rs, i, |rs|, outLen);
      RecHaltIs(fs, rs, |rs|, outLen);
    }
  }

  lemma {:induction false} RecHaltMono(fs: seq<Field>, rs: seq<seq<Val>>, i: nat, n: nat, outLen: nat)
    requires i <= n <= |rs| && RecsPassed(fs, rs, i, outLen)
    ensures i <= RecHalt(fs, rs, n, outLen)
    decreases n
  {
    if i < n {
      RecHaltMono(fs, rs, i, n - 1, outLen);
    } else {
      RecHaltIs(fs, rs, i, outLen);
    }
  }

  /** A counted field without elements is sent as its count alone. */
  lemma {:induction false} NoElements(f: Field, size: nat, top: bool, mem: seq<u8>, base: nat)
    requires WfField(f, size, top) && f.count.Counted? && CountIn(f, mem, base, Codec) == 0
    ensures var v := LoadValue(f, mem, base, Codec); Sendable(f, v) && Payload(f, v, top) == CountPrefix(f, v)
  {
    var v := LoadValue(f, mem, base, Codec);
    LoadValueIs(f, mem, base, Codec);
    assert Span(0, f.elemSize) == 0;
    assert Body(f, v, top) == [];
    assert Payload(f, v, top) == CountPrefix(f, v) + [];
  }

  lemma {:induction false} NoneAccepted(f: Field, size: nat, top: bool, mem: seq<u8>, base: nat, used: nat, outLen: nat)
    requires WfField(f, size, top) && f.count.Counted? && CountIn(f, mem, base, Codec) == 0
    requires LenWidth(f) + used + 3 <= outLen
    ensures AcceptsField(f, LoadValue(f, mem, base, Codec), top, used, outLen)
  {
    LoadValueIs(f, mem, base, Codec);
    assert Span(0, f.elemSize) == 0;
  }

  /** The DATA_LEN case: read the count through the table's width for it and write it ahead of the elements. */
  method EncodeDataLen(e: Elem, buf: array<u8>, d: nat, mem: seq<u8>, src: nat, encodedBytes: nat, outLen: nat,
                       ghost f: Field, ghost size: nat, ghost top: bool, ghost base: nat)
    returns (rc: int, dataLenValue: nat)
    requires LenRow(e, f) && WfField(f, size, top) && base + size <= |mem| && src == base + e.offset
    requires LenWidth(f) + encodedBytes + 3 <= outLen ==> d + LenWidth(f) <= buf.Length
    modifies buf
    ensures dataLenValue == CountIn(f, mem, base, Codec)
    ensures rc >= 0 <==> LenWidth(f) + encodedBytes + 3 <= outLen
    ensures rc >= 0 ==>
              rc == LenWidth(f) && buf[..] == Splice(old(buf[..]), d, CountPrefix(f, LoadValue(f, mem, base, Codec)))
    ensures rc < 0 ==> rc == -EINVAL && buf[..] == old(buf[..])
  {
    LengthRead(f, size, top, mem, base);
    dataLenValue := SetLow(1, mem[src..src + e.elemSize]);
    var dataLenSz := if e.elemSize == 1 then 1 else 2;
    if dataLenSz + encodedBytes + 3 > outLen {
      return -EINVAL, dataLenValue;
    }
    LowPrefix(dataLenValue, 4, dataLenSz);
    rc := CopyElems(buf, d, Low(dataLenValue, 4), 0, 1, dataLenSz);
  }

  /** The body of field f can be sent, and its room checks pass. */
  ghost predicate BodyEncodes(f: Field, v: Val, top: bool, encodedBytes: nat, outLen: nat) {
    Sendable(f, v) && AcceptsBody(f, v, top, encodedBytes, outLen)
  }

  /** There is memory for what is written of the body. */
  ghost predicate BodyRoom(f: Field, v: Val, top: bool, d: nat, encodedBytes: nat, outLen: nat, memory: nat) {
    var put := BodyPut(f, v, top, encodedBytes, outLen);
    put != [] || (top && BodyEncodes(f, v, top, encodedBytes, outLen)) ==> d + |put| <= memory
  }

  lemma {:induction false} BasicValue(f: Field, size: nat, top: bool, mem: seq<u8>, base: nat)
    requires WfField(f, size, top) && f.kind.Basic? && base + size <= |mem|
    requires CountIn(f, mem, base, Codec) <= Capacity(f)
    ensures var n, src := Span(CountIn(f, mem, base, Codec), f.elemSize), base + f.off;
            var v := LoadValue(f, mem, base, Codec);
            src + n <= |mem| && Body(f, v, top) == mem[src..src + n] && Sendable(f, v)
  {
    LoadValueIs(f, mem, base, Codec);
    SpanMono(CountIn(f, mem, base, Codec), Capacity(f), f.elemSize);
  }

  lemma {:induction false} StrValue(f: Field, size: nat, top: bool, mem: seq<u8>, base: nat)
    requires WfField(f, size, top) && f.kind.Str? && base + size <= |mem|
    ensures var k, src, v := StrLen(mem, base + f.off), base + f.off, LoadValue(f, mem, base, Codec);
            && (Sendable(f, v) <==> k <= f.elemLen)
            && (k <= f.elemLen ==> Body(f, v, top) == StrBody(f, mem[src..src + k], top))
  {
    LoadValueIs(f, mem, base, Codec);
  }

  lemma {:induction false} StructValue(f: Field, size: nat, top: bool, mem: seq<u8>, base: nat, used: nat, outLen: nat)
    requires WfField(f, size, top) && f.kind.Struct? && base + size <= |mem|
    requires CountIn(f, mem, base, Codec) <= Capacity(f)
    ensures var n, sub, src := CountIn(f, mem, base, Codec), f.kind.sub, base + f.off;
            var v := LoadValue(f, mem, base, Codec);
            var rs := LoadRecs(sub, mem, src, f.elemSize, n, Codec);
            && src + Span(n, f.elemSize) <= |mem|
            && Body(f, v, top) == WireRecs(sub, rs, n)
            && v == Recs(rs)
            && (BodyEncodes(f, v, top, used, outLen) <==> RecsPassed(sub, rs, n, Left(outLen, used)))
            && BodyPut(f, v, top, used, outLen) == RecsPut(sub, rs, Left(outLen, used))
  {
    var n := CountIn(f, mem, base, Codec);
    LoadValueIs(f, mem, base, Codec);
    SpanMono(n, Capacity(f), f.elemSize);
    RecsPassedIff(f.kind.sub, LoadRecs(f.kind.sub, mem, base + f.off, f.elemSize, n, Codec), n, Left(outLen, used));
  }

  // ---------- One pass over the table ----------

  /** The arguments of one call of the encoder, and the buffer it was given. */
  datatype Job = Job(ei: seq<Elem>, fs: seq<Field>, size: nat, mem: seq<u8>, base: nat,
                     start: nat, outLen: nat, level: nat, was: seq<u8>)
  {
    ghost predicate Valid() {
      && level >= 1 && Represents(ei, fs) && (Top() ==> DistinctTypes(ei, fs))
      && WfFields(fs, size, Top()) && base + size <= |mem| && (!Top() ==> |fs| > 0)
      && outLen < Wrap && Room(fs, Vals(), Top(), outLen, start, |was|)
    }

    ghost predicate Top() { level == 1 }

    ghost function Vals(): (vs: seq<Val>)
      ensures |vs| == |fs|
    {
      LoadAll(fs, mem, base, |fs|, Codec)
    }

    ghost predicate Encodable() { Encodes(fs, mem, base, outLen, Top()) }

    ghost function Done(g: nat): seq<u8>
      requires g <= |fs|
    {
      Wire(fs, Vals(), g, Top())
    }

    /** The first g fields have passed. */
    ghost predicate Past(g: nat)
      requires g <= |fs|
    {
      Passed(fs, Vals(), g, Top(), outLen)
    }

    /** The buffer when the call is over. */
    ghost function End(): seq<u8> { After(was, start, fs, Vals(), Top(), outLen) }

    /** What is written of the payload of field g. */
    ghost function Put(g: nat): seq<u8>
      requires g < |fs|
    {
      FieldPut(fs[g], Vals()[g], Top(), |Done(g)|, outLen)
    }
  }

  /** The local variables of the encoder. */
  datatype Cursor = Cursor(t: nat, dataLenValue: nat, tlvPointer: nat, tlvLen: nat, encodedBytes: nat, d: nat,
                           encodeTlv: bool)

  /** Before a row: g fields are done and, of the next, what ph says. */
  ghost predicate Before(j: Job, c: Cursor, now: seq<u8>, g: nat, ph: Phase) {
    && AtRow(j.fs, g, ph, c.t) && c.t < |j.ei|
    && j.Past(g)
    && (!ph.AtStart? ==> j.Vals()[g] == LoadValue(j.fs[g], j.mem, j.base, Codec))
    && (ph.AfterLen? ==>
        c.dataLenValue == CountIn(j.fs[g], j.mem, j.base, Codec) > 0 && LenWidth(j.fs[g]) + |j.Done(g)| + 3 <= j.outLen)
    && var pend := if ph.AfterLen? then CountPrefix(j.fs[g], j.Vals()[g]) else [];
       && Written(now, j.was, j.start, j.Done(g), Hole(j.Top()), pend, c.d, c.encodedBytes)
       && (j.Top() ==> !c.encodeTlv && c.tlvPointer == j.start + |j.Done(g)| && c.tlvLen == |pend|)
  }

  /** The payload of field g is complete; at the top level its header is still missing. */
  ghost predicate PayloadDone(j: Job, c: Cursor, now: seq<u8>, g: nat)
    requires g < |j.fs|
  {
    var payload := Payload(j.fs[g], j.Vals()[g], j.Top());
    && c.t == Pos(j.fs, g + 1) < |j.ei|
    && !j.Vals()[g].Absent? && j.Past(g + 1)
    && Written(now, j.was, j.start, j.Done(g), Hole(j.Top()), payload, c.d, c.encodedBytes)
    && c.encodeTlv
    && (j.Top() ==> c.tlvPointer == j.start + |j.Done(g)| && c.tlvLen == |payload|)
  }

  /** The flag decides whether the field is read at all. */
  lemma {:induction false} FlagRead(f: Field, size: nat, top: bool, mem: seq<u8>, base: nat)
    requires WfField(f, size, top) && base + size <= |mem|
    ensures f.flag.Some? && mem[base + f.flag.value] == 0 ==> Load(f, mem, base, Codec) == Absent
    ensures f.flag.Some? && mem[base + f.flag.value] != 0 ==>
              Load(f, mem, base, Codec) == LoadValue(f, mem, base, Codec)
    ensures f.flag.None? ==> Load(f, mem, base, Codec) == LoadValue(f, mem, base, Codec)
  {
  }

  /** The OPT_FLAG case. */
  method PassFlag(ghost j: Job, ei: seq<Elem>, mem: seq<u8>, base: nat, level: nat, c: Cursor, ghost now: seq<u8>,
                  ghost g: nat)
    returns (c': Cursor, ghost g': nat, ghost ph': Phase)
    requires j.Valid() && ei == j.ei && mem == j.mem && base == j.base && level == j.level
    requires g < |j.fs| && Before(j, c, now, g, AtStart) && NextRow(j.fs[g], AtStart) == ForFlag
    ensures Before(j, c', now, g', ph') && c'.t > c.t
  {
    RowAt(ei, j.fs, j.size, j.Top(), g, AtStart, c.t);
    LoadAllAt(j.fs, mem, base, |j.fs|, g, Codec);
    FlagRead(j.fs[g], j.size, j.Top(), mem, base);
    if mem[base + ei[c.t].offset] != 0 {
      c', g', ph' := c.(t := c.t + 1), g, AfterFlag;
    } else {
      var t := SkipToNextElem(ei, c.t, level, j.fs, g);
      c', g', ph' := c.(t := t), g + 1, AtStart;
      FieldAbsent(j, c, now, g, t);
    }
  }

  /** A field whose flag is not set takes no bytes. */
  lemma {:induction false} FieldAbsent(j: Job, c: Cursor, now: seq<u8>, g: nat, t: nat)
    requires j.Valid() && g < |j.fs| && Before(j, c, now, g, AtStart) && j.Vals()[g].Absent?
    requires t == Pos(j.fs, g + 1) < |j.ei|
    ensures Before(j, c.(t := t), now, g + 1, AtStart)
  {
    WireStep(j.fs, j.Vals(), g, j.Top());
  }

  /** The end of an iteration: at the top level, go back and fill in the header of a complete payload. */
  method FinishField(ghost j: Job, buf: array<u8>, level: nat, tlvType: u8, c: Cursor, ghost g: nat)
    returns (c': Cursor)
    requires j.Valid() && level == j.level && g < |j.fs| && tlvType == j.fs[g].tlv
    requires PayloadDone(j, c, buf[..], g)
    requires |buf[..]| == |j.was|
    modifies buf
    ensures Before(j, c', buf[..], g + 1, AtStart) && c'.t == c.t
  {
    c' := c;
    if c.encodeTlv && level == 1 {
      c' := c.(encodedBytes := c.encodedBytes + 3, tlvPointer := c.d, tlvLen := 0, d := c.d + 3, encodeTlv := false);
      HeaderRoom(j, g);
      FinishTlv(j, c, buf[..], g, c');
      WriteHeader(buf, c.tlvPointer, tlvType, c.tlvLen);
    } else {
      FinishBare(j, c, buf[..], g);
    }
  }

  /** What the header completes. */
  lemma {:induction false} TlvWritten(j: Job, now: seq<u8>, g: nat, d: int, encoded: int)
    requires g < |j.fs| && j.Top() && !j.Vals()[g].Absent?
    requires Written(now, j.was, j.start, j.Done(g), 3, Payload(j.fs[g], j.Vals()[g], true), d, encoded)
    ensures var h := Header(j.fs[g].tlv, |Payload(j.fs[g], j.Vals()[g], true)|);
            Written(Splice(now, j.start + |j.Done(g)|, h), j.was, j.start, j.Done(g + 1), 3, [], d + 3, encoded + 3)
    ensures |j.Done(g + 1)| >= 3 && d == j.start + |j.Done(g + 1)| && |j.Done(g)| + 3 <= |j.Done(g + 1)|
  {
    var payload := Payload(j.fs[g], j.Vals()[g], true);
    WireStep(j.fs, j.Vals(), g, true);
    TlvDone(now, j.was, j.start, j.Done(g), Header(j.fs[g].tlv, |payload|), payload, d, encoded);
  }

  lemma {:induction false} FinishTlv(j: Job, c: Cursor, now: seq<u8>, g: nat, c': Cursor)
    requires j.Top() && g < |j.fs| && PayloadDone(j, c, now, g)
    requires c' == c.(encodedBytes := c.encodedBytes + 3, tlvPointer := c.d, tlvLen := 0, d := c.d + 3,
                      encodeTlv := false)
    ensures Before(j, c', Splice(now, c.tlvPointer, Header(j.fs[g].tlv, c.tlvLen)), g + 1, AtStart)
  {
    TlvWritten(j, now, g, c.d, c.encodedBytes);
  }

  /** There is memory for the header. */
  lemma {:induction false} HeaderRoom(j: Job, g: nat)
    requires j.Valid() && j.Top() && g < |j.fs| && !j.Vals()[g].Absent? && j.Past(g + 1)
    ensures j.start + |j.Done(g)| + 3 <= |j.was|
  {
    WireStep(j.fs, j.Vals(), g, true);
    PastRoom(j, g + 1);
  }

  lemma {:induction false} FinishBare(j: Job, c: Cursor, now: seq<u8>, g: nat)
    requires !j.Top() && g < |j.fs| && PayloadDone(j, c, now, g)
    ensures Before(j, c, now, g + 1, AtStart)
  {
    WireStep(j.fs, j.Vals(), g, false);
    BareDone(now, j.was, j.start, j.Done(g), Payload(j.fs[g], j.Vals()[g], false), c.d, c.encodedBytes);
  }

  method WriteHeader(buf: array<u8>, p: nat, tlvType: u8, n: nat)
    requires p + 3 <= buf.Length
    modifies buf
    ensures buf[..] == Splice(old(buf[..]), p, Header(tlvType, n))
  {
    buf[p] := tlvType;
    buf[p + 1] := n % 256;
    buf[p + 2] := n / 256 % 256;
    HeaderBytes(tlvType, n);
    assert buf[..] == Splice(old(buf[..]), p, Header(tlvType, n));
  }

  /** There is memory for what has passed. */
  lemma {:induction false} PastRoom(j: Job, g: nat)
    requires j.Valid() && g <= |j.fs| && j.Past(g) && j.Done(g) != []
    ensures j.start + |j.Done(g)| <= |j.was|
  {
    HaltMono(j.fs, j.Vals(), g, |j.fs|, j.Top(), j.outLen);
    WireMono(j.fs, j.Vals(), g, Halt(j.fs, j.Vals(), |j.fs|, j.Top(), j.outLen), j.Top());
  }

  ghost predicate FieldPasses(j: Job, g: nat)
    requires g < |j.fs|
  {
    Passes(j.fs[g], j.Vals()[g], j.Top(), |j.Done(g)|, j.outLen)
  }

  /** And for what is written of the next field. */
  lemma {:induction false} PutRoom(j: Job, g: nat)
    requires j.Valid() && g < |j.fs| && j.Past(g) && !j.Vals()[g].Absent?
    ensures j.Put(g) != [] || (j.Top() && FieldPasses(j, g)) ==>
              j.start + |j.Done(g)| + Hole(j.Top()) + |j.Put(g)| <= |j.was|
    ensures FieldPasses(j, g) ==> j.Past(g + 1) && j.Put(g) == Payload(j.fs[g], j.Vals()[g], j.Top())
  {
    if FieldPasses(j, g) {
      FieldFull(j.fs[g], j.Vals()[g], j.Top(), |j.Done(g)|, j.outLen);
      WireStep(j.fs, j.Vals(), g, j.Top());
      if j.Done(g + 1) != [] {
        PastRoom(j, g + 1);
      }
    } else {
      HaltAt(j.fs, j.Vals(), g, |j.fs|, j.Top(), j.outLen);
    }
  }

  /** A refused field ends the call. */
  lemma {:induction false} Refused(j: Job, g: nat, now: seq<u8>)
    requires j.Valid() && g < |j.fs| && j.Past(g) && !FieldPasses(j, g)
    requires now == Splice(Splice(j.was, j.start, j.Done(g)), j.start + |j.Done(g)| + Hole(j.Top()), j.Put(g))
    ensures !j.Encodable() && now == j.End()
  {
    HaltAt(j.fs, j.Vals(), g, |j.fs|, j.Top(), j.outLen);
    HaltIs(j.fs, j.Vals(), |j.fs|, j.Top(), j.outLen);
    EncodesPassed(j.fs, j.mem, j.base, j.outLen, j.Top());
  }

  /** What is known when the count of field g is to be written. */
  ghost predicate CountReady(j: Job, c: Cursor, now: seq<u8>, g: nat, ph: Phase, n: nat) {
    && j.Valid() && g < |j.fs| && Before(j, c, now, g, ph) && NextRow(j.fs[g], ph) == ForLen
    && j.Vals()[g] == LoadValue(j.fs[g], j.mem, j.base, Codec) && n == CountIn(j.fs[g], j.mem, j.base, Codec)
    && LenWidth(j.fs[g]) + c.encodedBytes + 3 <= j.outLen
  }

  /** The output with the count of field g behind the pieces before. */
  lemma {:induction false} LenWritten(j: Job, c: Cursor, now: seq<u8>, g: nat, ph: Phase, n: nat)
    requires CountReady(j, c, now, g, ph, n)
    ensures var cp := CountPrefix(j.fs[g], j.Vals()[g]);
            && |cp| == LenWidth(j.fs[g])
            && Written(Splice(now, c.d, cp), j.was, j.start, j.Done(g), Hole(j.Top()), cp, c.d + |cp|,
                       c.encodedBytes + |cp|)
    ensures c.t + 1 < Pos(j.fs, g + 1) < |j.ei| && AtRow(j.fs, g, AfterLen, c.t + 1)
    ensures !j.Top() ==> c.t + 2 == Pos(j.fs, g + 1)
  {
    var f, v := j.fs[g], j.Vals()[g];
    RowAt(j.ei, j.fs, j.size, j.Top(), g, ph, c.t);
    MorePending(now, j.was, j.start, j.Done(g), Hole(j.Top()), [], c.d, c.encodedBytes, CountPrefix(f, v));
    assert [] + CountPrefix(f, v) == CountPrefix(f, v);
    assert WfField(f, j.size, j.Top());
  }

  /** The field goes on with its elements, or is complete when it has none. */
  lemma {:induction false} LenPassed(j: Job, c: Cursor, now: seq<u8>, next: seq<u8>, g: nat, ph: Phase, n: nat,
                                     c': Cursor)
    requires CountReady(j, c, now, g, ph, n)
    requires next == Splice(now, c.d, CountPrefix(j.fs[g], j.Vals()[g]))
    requires var w := LenWidth(j.fs[g]);
             c' == Cursor(if n == 0 then Pos(j.fs, g + 1) else c.t + 1, n, c.tlvPointer, c.tlvLen + w,
                          c.encodedBytes + w, c.d + w, n == 0)
    ensures n > 0 ==> Before(j, c', next, g, AfterLen)
    ensures n == 0 ==> PayloadDone(j, c', next, g)
  {
    LenWritten(j, c, now, g, ph, n);
    if n == 0 {
      assert WfField(j.fs[g], j.size, j.Top());
      NoElements(j.fs[g], j.size, j.Top(), j.mem, j.base);
      NoneAccepted(j.fs[g], j.size, j.Top(), j.mem, j.base, |j.Done(g)|, j.outLen);
    }
  }

  /** There is memory for the count. */
  lemma {:induction false} LenRoom(j: Job, c: Cursor, now: seq<u8>, g: nat, ph: Phase, n: nat)
    requires CountReady(j, c, now, g, ph, n)
    ensures c.d + LenWidth(j.fs[g]) <= |j.was|
  {
    LoadValueIs(j.fs[g], j.mem, j.base, Codec);
    PutRoom(j, g);
  }

  /** The DATA_LEN case. */
  method PassLen(ghost j: Job, ei: seq<Elem>, buf: array<u8>, mem: seq<u8>, base: nat, outLen: nat, level: nat,
                 c: Cursor, ghost g: nat, ghost ph: Phase)
    returns (rc: int, c': Cursor)
    requires j.Valid() && ei == j.ei && mem == j.mem && base == j.base && level == j.level && outLen == j.outLen
    requires |j.was| == buf.Length && g < |j.fs| && Before(j, c, buf[..], g, ph) && NextRow(j.fs[g], ph) == ForLen
    modifies buf
    ensures rc < 0 ==> rc == -EINVAL && !j.Encodable() && buf[..] == j.End()
    ensures rc >= 0 ==> if c'.encodeTlv then PayloadDone(j, c', buf[..], g) else Before(j, c', buf[..], g, AfterLen)
    ensures rc >= 0 ==> c'.t > c.t
  {
    ghost var f := j.fs[g];
    RowAt(ei, j.fs, j.size, j.Top(), g, ph, c.t);
    LoadAllAt(j.fs, mem, base, |j.fs|, g, Codec);
    FlagRead(f, j.size, j.Top(), mem, base);
    ghost var now := buf[..];
    if LenWidth(f) + c.encodedBytes + 3 <= outLen {
      LenRoom(j, c, now, g, ph, CountIn(f, mem, base, Codec));
    }
    var dataLenValue;
    rc, dataLenValue := EncodeDataLen(ei[c.t], buf, c.d, mem, base + ei[c.t].offset, c.encodedBytes, outLen, f, j.size,
                                      j.Top(), base);
    c' := c;
    if rc < 0 {
      Refused(j, g, now);
    } else {
      LenWritten(j, c, now, g, ph, dataLenValue);
      var t := c.t + 1;
      if dataLenValue == 0 {
        t := SkipToNextElem(ei, t, level, j.fs, g);
      }
      c' := Cursor(t, dataLenValue, c.tlvPointer, c.tlvLen + rc, c.encodedBytes + rc, c.d + rc, dataLenValue == 0);
      LenPassed(j, c, now, buf[..], g, ph, dataLenValue, c');
    }
  }

  /** The elements of field g behind its count: their checks, and the memory they take, are those of the message. */
  lemma {:induction false} ValueRoom(j: Job, c: Cursor, now: seq<u8>, g: nat, ph: Phase)
    requires j.Valid() && g < |j.fs| && Before(j, c, now, g, ph) && NextRow(j.fs[g], ph) == ForValue
    requires !j.Vals()[g].Absent?
    ensures var f, v, used := j.fs[g], j.Vals()[g], c.encodedBytes;
            && ValueHere(j, c, now, g)
            && BodyRoom(f, v, j.Top(), c.d, used, j.outLen, |j.was|)
            && (BodyEncodes(f, v, j.Top(), used, j.outLen) ==>
                j.Past(g + 1) && BodyPut(f, v, j.Top(), used, j.outLen) == Body(f, v, j.Top()))
            && (!BodyEncodes(f, v, j.Top(), used, j.outLen) ==>
                !j.Encodable() && j.End() == Splice(now, c.d, BodyPut(f, v, j.Top(), used, j.outLen)))
  {
    var f, v := j.fs[g], j.Vals()[g];
    PutRoom(j, g);
    ValueIsHere(j, c, now, g);
    if BodyEncodes(f, v, j.Top(), c.encodedBytes, j.outLen) {
      BodyFull(f, v, j.Top(), c.encodedBytes, j.outLen);
    } else {
      Refused(j, g, Splice(now, c.d, BodyPut(f, v, j.Top(), c.encodedBytes, j.outLen)));
    }
  }

  /** What is written of field g is its count and what is written of its elements. */
  ghost predicate ValueHere(j: Job, c: Cursor, now: seq<u8>, g: nat)
    requires g < |j.fs|
  {
    var f, v, pre := j.fs[g], j.Vals()[g], j.Done(g);
    && c.encodedBytes == |pre| + |CountPrefix(f, v)| && c.d == j.start + Hole(j.Top()) + c.encodedBytes
    && j.Put(g) == CountPrefix(f, v) + BodyPut(f, v, j.Top(), c.encodedBytes, j.outLen)
    && (FieldPasses(j, g) <==> BodyEncodes(f, v, j.Top(), c.encodedBytes, j.outLen))
    && Splice(now, c.d, BodyPut(f, v, j.Top(), c.encodedBytes, j.outLen)) ==
       Splice(Splice(j.was, j.start, pre), j.start + |pre| + Hole(j.Top()), j.Put(g))
  }

  lemma {:induction false} ValueIsHere(j: Job, c: Cursor, now: seq<u8>, g: nat)
    requires g < |j.fs| && !j.Vals()[g].Absent?
    requires j.fs[g].count.Counted? ==> LenWidth(j.fs[g]) + |j.Done(g)| + 3 <= j.outLen
    requires Written(now, j.was, j.start, j.Done(g), Hole(j.Top()), CountPrefix(j.fs[g], j.Vals()[g]), c.d,
                     c.encodedBytes)
    ensures ValueHere(j, c, now, g)
  {
    var f, v := j.fs[g], j.Vals()[g];
    MorePending(now, j.was, j.start, j.Done(g), Hole(j.Top()), CountPrefix(f, v), c.d, c.encodedBytes,
                BodyPut(f, v, j.Top(), c.encodedBytes, j.outLen));
  }

  /** The cases that write the elements of a field. */
  method PassValue(ghost j: Job, ei: seq<Elem>, buf: array<u8>, mem: seq<u8>, base: nat, outLen: nat, level: nat,
                   c: Cursor, ghost g: nat, ghost ph: Phase)
    returns (rc: int, c': Cursor)
    requires j.Valid() && ei == j.ei && mem == j.mem && base == j.base && level == j.level && outLen == j.outLen
    requires |j.was| == buf.Length && g < |j.fs| && Before(j, c, buf[..], g, ph) && NextRow(j.fs[g], ph) == ForValue
    requires 1 <= c.dataLenValue == CountIn(j.fs[g], mem, base, Codec) <= Capacity(j.fs[g])
    modifies buf
    ensures rc < 0 ==> rc == -EINVAL && !j.Encodable() && buf[..] == j.End()
    ensures rc >= 0 ==> PayloadDone(j, c', buf[..], g)
    decreases j.fs, 0
  {
    ghost var f, v, pend := j.fs[g], j.Vals()[g], CountPrefix(j.fs[g], j.Vals()[g]);
    RowAt(ei, j.fs, j.size, j.Top(), g, ph, c.t);
    LoadAllAt(j.fs, mem, base, |j.fs|, g, Codec);
    FlagRead(f, j.size, j.Top(), mem, base);
    ValueRoom(j, c, buf[..], g, ph);
    MorePending(buf[..], j.was, j.start, j.Done(g), Hole(j.Top()), pend, c.d, c.encodedBytes, Body(f, v, j.Top()));
    rc := EncodeValue(ei[c.t], buf, c.d, mem, base + ei[c.t].offset, c.dataLenValue, c.encodedBytes, outLen, level, f,
                      j.size, base);
    c' := c;
    if rc >= 0 {
      c' := c.(t := c.t + 1, tlvLen := c.tlvLen + rc, encodedBytes := c.encodedBytes + rc, d := c.d + rc,
               encodeTlv := true);
    }
  }

  method EncodeStructElem(e: Elem, buf: array<u8>, dst: nat, mem: seq<u8>, src: nat, elemLen: nat, outLen: nat,
                          level: nat, ghost sub: seq<Field>)
    returns (rc: int)
    requires Represents(e.sub, sub) && WfFields(sub, e.elemSize, false) && |sub| > 0 && level >= 2
    requires elemLen >= 1 && src + Span(elemLen, e.elemSize) <= |mem| && outLen < Wrap
    requires PutsIn(RecsPut(sub, LoadRecs(sub, mem, src, e.elemSize, elemLen, Codec), outLen), dst, buf.Length)
    modifies buf
    ensures rc >= 0 <==> RecsPassed(sub, LoadRecs(sub, mem, src, e.elemSize, elemLen, Codec), elemLen, outLen)
    ensures rc >= 0 ==> rc == |WireRecs(sub, LoadRecs(sub, mem, src, e.elemSize, elemLen, Codec), elemLen)|
    ensures rc < 0 ==> rc == -EINVAL
    ensures buf[..] == Splice(old(buf[..]), dst,
                              RecsPut(sub, LoadRecs(sub, mem, src, e.elemSize, elemLen, Codec), outLen))
    decreases sub, 3
  {
    ghost var rs, was := LoadRecs(sub, mem, src, e.elemSize, elemLen, Codec), buf[..];
    var encodedBytes, d, s: nat := 0, dst, src;
    for i := 0 to elemLen
      invariant s == src + Span(i, e.elemSize) && encodedBytes == |WireRecs(sub, rs, i)| && d == dst + encodedBytes
      invariant RecsPassed(sub, rs, i, outLen)
      invariant buf[..] == Splice(was, dst, WireRecs(sub, rs, i))
    {
      SpanMono(i, elemLen, e.elemSize);
      rc := EncodeRec(e, buf, dst, d, mem, src, s, elemLen, outLen, encodedBytes, level, sub, rs, i, was);
      if rc < 0 {
        return;
      }
      d, s := d + rc, s + e.elemSize;
      encodedBytes := encodedBytes + rc;
    }
    RecsFull(sub, rs, outLen);
    rc := encodedBytes;
  }

  /** The bytes, if any, lie within the memory. */
  ghost predicate PutsIn(put: seq<u8>, d: nat, memory: nat) {
    put == [] || d + |put| <= memory
  }

  /** Struct i can be encoded where the ones before it end. */
  lemma {:induction false} RecJob(e: Elem, sub: seq<Field>, mem: seq<u8>, src: nat, n: nat, i: nat, s: nat,
                                  rs: seq<seq<Val>>, outLen: nat, level: nat, dst: nat, d: nat, now: seq<u8>)
    requires Represents(e.sub, sub) && WfFields(sub, e.elemSize, false) && |sub| > 0 && level >= 2
    requires i < n && s == src + Span(i, e.elemSize) && s + e.elemSize <= |mem|
    requires rs == LoadRecs(sub, mem, src, e.elemSize, n, Codec) && RecsPassed(sub, rs, i, outLen)
    requires PutsIn(RecsPut(sub, rs, outLen), dst, |now|) && d == dst + |WireRecs(sub, rs, i)|
    ensures Job(e.sub, sub, e.elemSize, mem, s, d, Left(outLen, |WireRecs(sub, rs, i)|), level, now).Valid()
  {
    var r := LoadAll(sub, mem, s, |sub|, Codec);
    RecAt(sub, mem, src, e.elemSize, n, i, s);
    RecPut(sub, rs, i, r, outLen);
    AfterNested(now, d, sub, r, Left(outLen, |WireRecs(sub, rs, i)|));
  }

  /** What encoding it comes to. */
  lemma {:induction false} RecReady(sub: seq<Field>, mem: seq<u8>, src: nat, size: nat, n: nat, i: nat, s: nat,
                                    rs: seq<seq<Val>>, outLen: nat, was: seq<u8>, dst: nat, d: nat, now: seq<u8>)
    requires i < n && s == src + Span(i, size)
    requires rs == LoadRecs(sub, mem, src, size, n, Codec) && RecsPassed(sub, rs, i, outLen)
    requires d == dst + |WireRecs(sub, rs, i)| && now == Splice(was, dst, WireRecs(sub, rs, i))
    ensures Encodes(sub, mem, s, Left(outLen, |WireRecs(sub, rs, i)|), false) ==>
              RecGoesOn(sub, mem, s, i, rs, outLen, was, dst, d, now)
    ensures !Encodes(sub, mem, s, Left(outLen, |WireRecs(sub, rs, i)|), false) ==>
              RecEnds(sub, mem, s, n, i, rs, outLen, was, dst, d, now)
  {
    var r, pre := LoadAll(sub, mem, s, |sub|, Codec), WireRecs(sub, rs, i);
    var left := Left(outLen, |pre|);
    RecAt(sub, mem, src, size, n, i, s);
    RecPut(sub, rs, i, r, outLen);
    EncodesPassed(sub, mem, s, left, false);
    if Passed(sub, r, |sub|, false, left) {
      SpliceAppend(was, dst, pre, Enc(sub, mem, s, false));
    } else {
      RecStops(now, d, sub, r, left, was, dst, pre);
    }
  }

  /** With struct i the array is encoded one struct further. */
  ghost predicate RecGoesOn(sub: seq<Field>, mem: seq<u8>, s: nat, i: nat, rs: seq<seq<Val>>, outLen: nat,
                            was: seq<u8>, dst: nat, d: nat, now: seq<u8>)
    requires i < |rs|
  {
    && RecsPassed(sub, rs, i + 1, outLen)
    && |WireRecs(sub, rs, i + 1)| == |WireRecs(sub, rs, i)| + |Enc(sub, mem, s, false)|
    && Splice(now, d, Enc(sub, mem, s, false)) == Splice(was, dst, WireRecs(sub, rs, i + 1))
  }

  /** With struct i everything is written that will be written of the array. */
  ghost predicate RecEnds(sub: seq<Field>, mem: seq<u8>, s: nat, n: nat, i: nat, rs: seq<seq<Val>>, outLen: nat,
                          was: seq<u8>, dst: nat, d: nat, now: seq<u8>)
    requires i < n == |rs|
  {
    && !RecsPassed(sub, rs, n, outLen)
    && After(now, d, sub, LoadAll(sub, mem, s, |sub|, Codec), false, Left(outLen, |WireRecs(sub, rs, i)|)) ==
       Splice(was, dst, RecsPut(sub, rs, outLen))
  }

  /** A struct that is not encoded adds what is written of it. */
  lemma {:induction false} RecStops(now: seq<u8>, d: nat, sub: seq<Field>, r: seq<Val>, left: nat, was: seq<u8>,
                                    dst: nat, pre: seq<u8>)
    requires |r| == |sub| && d == dst + |pre| && now == Splice(was, dst, pre)
    ensures After(now, d, sub, r, false, left) == Splice(was, dst, pre + ValsPut(sub, r, left))
  {
    AfterNested(now, d, sub, r, left);
    SpliceAppend(was, dst, pre, ValsPut(sub, r, left));
  }

  /** Struct i of an array. */
  method EncodeRec(e: Elem, buf: array<u8>, ghost dst: nat, d: nat, mem: seq<u8>, ghost src: nat, s: nat, ghost n: nat,
                   outLen: nat, encodedBytes: nat, level: nat, ghost sub: seq<Field>, ghost rs: seq<seq<Val>>,
                   ghost i: nat, ghost was: seq<u8>)
    returns (rc: int)
    requires Represents(e.sub, sub) && WfFields(sub, e.elemSize, false) && |sub| > 0 && level >= 2
    requires i < n && s == src + Span(i, e.elemSize) && s + e.elemSize <= |mem| && outLen < Wrap && buf.Length == |was|
    requires rs == LoadRecs(sub, mem, src, e.elemSize, n, Codec) && RecsPassed(sub, rs, i, outLen)
    requires encodedBytes == |WireRecs(sub, rs, i)| && d == dst + encodedBytes
    requires PutsIn(RecsPut(sub, rs, outLen), dst, buf.Length)
    requires buf[..] == Splice(was, dst, WireRecs(sub, rs, i))
    modifies buf
    ensures rc < 0 ==>
              rc == -EINVAL && !RecsPassed(sub, rs, n, outLen) && buf[..] == Splice(was, dst, RecsPut(sub, rs, outLen))
    ensures rc >= 0 ==> RecsPassed(sub, rs, i + 1, outLen) && |WireRecs(sub, rs, i + 1)| == encodedBytes + rc
    ensures rc >= 0 ==> buf[..] == Splice(was, dst, WireRecs(sub, rs, i + 1))
    decreases sub, 2, 1
  {
    RecJob(e, sub, mem, src, n, i, s, rs, outLen, level, dst, d, buf[..]);
    RecReady(sub, mem, src, e.elemSize, n, i, s, rs, outLen, was, dst, d, buf[..]);
    rc := Encode(e.sub, buf, d, mem, s, Left(outLen, encodedBytes), level, sub, e.elemSize);
  }

  /** The cases that write the elements of a field. */
  method EncodeValue(e: Elem, buf: array<u8>, d: nat, mem: seq<u8>, src: nat, dataLenValue: nat, encodedBytes: nat,
                     outLen: nat, level: nat, ghost f: Field, ghost size: nat, ghost base: nat)
    returns (rc: int)
    requires level >= 1 && ValueRow(e, f) && WfField(f, size, level == 1)
    requires f.kind.Struct? ==> Represents(e.sub, f.kind.sub)
    requires base + size <= |mem| && src == base + e.offset && outLen < Wrap
    requires dataLenValue == CountIn(f, mem, base, Codec) && 1 <= dataLenValue <= Capacity(f)
    requires BodyRoom(f, LoadValue(f, mem, base, Codec), level == 1, d, encodedBytes, outLen, buf.Length)
    modifies buf
    ensures rc >= 0 <==> BodyEncodes(f, LoadValue(f, mem, base, Codec), level == 1, encodedBytes, outLen)
    ensures rc >= 0 ==> rc == |Body(f, LoadValue(f, mem, base, Codec), level == 1)|
    ensures buf[..] == Splice(old(buf[..]), d,
                              BodyPut(f, LoadValue(f, mem, base, Codec), level == 1, encodedBytes, outLen))
    ensures rc < 0 ==> rc == -EINVAL
    decreases f, 0
  {
    ghost var v := LoadValue(f, mem, base, Codec);
    if IsBasic(e.dataType) {
      rc := EncodeBasicElems(e, buf, d, mem, src, dataLenValue, encodedBytes, outLen, f, size, base, level == 1);
    } else if e.dataType == StructType {
      StructValue(f, size, level == 1, mem, base, encodedBytes, outLen);
      rc := EncodeStructElem(e, buf, d, mem, src, dataLenValue, Left(outLen, encodedBytes), level + 1, f.kind.sub);
    } else {
      rc := EncodeText(e, buf, d, mem, src, encodedBytes, outLen, level, f, size, base);
    }
  }

  /** The case of a string. */
  method EncodeText(e: Elem, buf: array<u8>, d: nat, mem: seq<u8>, src: nat, encodedBytes: nat, outLen: nat, level: nat,
                    ghost f: Field, ghost size: nat, ghost base: nat)
    returns (rc: int)
    requires level >= 1 && ValueRow(e, f) && WfField(f, size, level == 1) && f.kind.Str?
    requires base + size <= |mem| && src == base + e.offset && outLen < Wrap
    requires BodyRoom(f, LoadValue(f, mem, base, Codec), level == 1, d, encodedBytes, outLen, buf.Length)
    modifies buf
    ensures rc >= 0 <==> BodyEncodes(f, LoadValue(f, mem, base, Codec), level == 1, encodedBytes, outLen)
    ensures rc >= 0 ==> rc == |Body(f, LoadValue(f, mem, base, Codec), level == 1)|
    ensures buf[..] == Splice(old(buf[..]), d,
                              BodyPut(f, LoadValue(f, mem, base, Codec), level == 1, encodedBytes, outLen))
    ensures rc < 0 ==> rc == -EINVAL
  {
    StrValue(f, size, level == 1, mem, base);
    rc := EncodeStringElem(e, buf, d, mem, src, Left(outLen, encodedBytes), level, f);
  }

  /** The case of basic elements. */
  method EncodeBasicElems(e: Elem, buf: array<u8>, d: nat, mem: seq<u8>, src: nat, dataLenValue: nat, encodedBytes: nat,
                          outLen: nat, ghost f: Field, ghost size: nat, ghost base: nat, ghost top: bool)
    returns (rc: int)
    requires ValueRow(e, f) && WfField(f, size, top) && f.kind.Basic?
    requires base + size <= |mem| && src == base + e.offset && outLen < Wrap
    requires 1 <= dataLenValue == CountIn(f, mem, base, Codec) <= Capacity(f)
    requires BodyRoom(f, LoadValue(f, mem, base, Codec), top, d, encodedBytes, outLen, buf.Length)
    modifies buf
    ensures rc >= 0 <==> BodyEncodes(f, LoadValue(f, mem, base, Codec), top, encodedBytes, outLen)
    ensures rc >= 0 ==> rc == |Body(f, LoadValue(f, mem, base, Codec), top)|
    ensures buf[..] == Splice(old(buf[..]), d, BodyPut(f, LoadValue(f, mem, base, Codec), top, encodedBytes, outLen))
    ensures rc < 0 ==> rc == -EINVAL
  {
    BasicValue(f, size, top, mem, base);
    if Span(dataLenValue, e.elemSize) + encodedBytes + 3 > outLen {
      return -EINVAL;
    }
    SpanMono(0, dataLenValue, e.elemSize);
    rc := CopyElems(buf, d, mem, src, dataLenValue, e.elemSize);
  }

  /** How many elements a row stands for, given the count read last; none for an invalid count. */
  function Elements(e: Elem, dataLenValue: nat): Option<nat> {
    if e.arrayType == NoArray then Some(1)
    else if e.arrayType == StaticArray then Some(e.elemLen)
    else if dataLenValue <= 0 || e.elemLen < dataLenValue then None
    else Some(dataLenValue)
  }

  /** Of a value with too many elements only the count is written. */
  lemma {:induction false} InvalidPut(f: Field, v: Val, top: bool, used: nat, outLen: nat)
    requires v.Invalid? && f.count.Counted? && LenWidth(f) + used + 3 <= outLen
    ensures FieldPut(f, v, top, used, outLen) == CountPrefix(f, v)
  {
    assert BodyPut(f, v, top, used + |CountPrefix(f, v)|, outLen) == [];
  }

  lemma {:induction false} ElementsRight(j: Job, c: Cursor, now: seq<u8>, g: nat, ph: Phase)
    requires j.Valid() && g < |j.fs| && Before(j, c, now, g, ph)
    ensures var n := Elements(j.ei[c.t], c.dataLenValue);
            && (n.None? ==> !j.Encodable() && now == j.End())
            && (n.Some? ==> Before(j, c.(dataLenValue := n.value), now, g, ph))
            && (n.Some? && NextRow(j.fs[g], ph) == ForValue ==>
                  1 <= n.value == CountIn(j.fs[g], j.mem, j.base, Codec) <= Capacity(j.fs[g]))
  {
    RowAt(j.ei, j.fs, j.size, j.Top(), g, ph, c.t);
    assert WfField(j.fs[g], j.size, j.Top());
    if Elements(j.ei[c.t], c.dataLenValue).None? {
      assert !Sendable(j.fs[g], j.Vals()[g]);
      InvalidPut(j.fs[g], j.Vals()[g], j.Top(), |j.Done(g)|, j.outLen);
      Refused(j, g, now);
    }
  }

  /** One iteration. */
  method EncodeRow(ghost j: Job, ei: seq<Elem>, buf: array<u8>, mem: seq<u8>, base: nat, outLen: nat, level: nat,
                   c: Cursor, ghost g: nat, ghost ph: Phase)
    returns (rc: int, c': Cursor, ghost g': nat, ghost ph': Phase)
    requires j.Valid() && ei == j.ei && mem == j.mem && base == j.base && level == j.level && outLen == j.outLen
    requires |j.was| == buf.Length && g < |j.fs| && Before(j, c, buf[..], g, ph)
    modifies buf
    ensures rc < 0 ==> rc == -EINVAL && !j.Encodable() && buf[..] == j.End()
    ensures rc >= 0 ==> Before(j, c', buf[..], g', ph') && c'.t > c.t
    decreases j.fs, 1
  {
    RowAt(ei, j.fs, j.size, j.Top(), g, ph, c.t);
    ElementsRight(j, c, buf[..], g, ph);
    var e := ei[c.t];
    g', ph', c', rc := g, ph, c, 0;
    var n := Elements(e, c.dataLenValue);
    if n.None? {
      return -EINVAL, c, g, ph;
    }
    c' := c.(dataLenValue := n.value);
    if e.dataType == OptFlag {
      c', g', ph' := PassFlag(j, ei, mem, base, level, c', buf[..], g);
    } else {
      if e.dataType == DataLen {
        rc, c' := PassLen(j, ei, buf, mem, base, outLen, level, c', g, ph);
        ph' := AfterLen;
      } else {
        rc, c' := PassValue(j, ei, buf, mem, base, outLen, level, c', g, ph);
      }
      if rc >= 0 && c'.encodeTlv {
        c' := FinishField(j, buf, level, e.tlvType, c', g);
        g', ph' := g + 1, AtStart;
      }
    }
  }

  method Encode(ei: seq<Elem>, buf: array<u8>, start: nat, mem: seq<u8>, base: nat, outLen: nat, level: nat,
                ghost fs: seq<Field>, ghost size: nat)
    returns (rc: int)
    requires Job(ei, fs, size, mem, base, start, outLen, level, buf[..]).Valid()
    modifies buf
    ensures rc >= 0 <==> Encodes(fs, mem, base, outLen, level == 1)
    ensures rc >= 0 ==> rc == |Enc(fs, mem, base, level == 1)|
    ensures rc >= 0 ==> buf[..] == Splice(old(buf[..]), start, Enc(fs, mem, base, level == 1))
    ensures rc < 0 ==> rc == -EINVAL
    ensures buf[..] == After(old(buf[..]), start, fs, LoadAll(fs, mem, base, |fs|, Codec), level == 1, outLen)
    decreases fs, 2, 0
  {
    ghost var j := Job(ei, fs, size, mem, base, start, outLen, level, buf[..]);
    ghost var g: nat, ph := 0, AtStart;
    var c := Cursor(0, 0, start, 0, 0, if level == 1 then start + 3 else start, false);
    PosMono(fs, 0, |fs|);
    while ei[c.t].dataType != Eoti
      invariant Before(j, c, buf[..], g, ph)
      decreases |ei| - c.t
    {
      RowAt(ei, fs, size, j.Top(), g, ph, c.t);
      rc, c, g, ph := EncodeRow(j, ei, buf, mem, base, outLen, level, c, g, ph);
      if rc < 0 {
        return;
      }
    }
    RowAt(ei, fs, size, j.Top(), g, ph, c.t);
    EncodesPassed(fs, mem, base, outLen, level == 1);
    AfterAll(j.was, start, fs, j.Vals(), j.Top(), outLen);
    rc := c.encodedBytes;
  }
}
