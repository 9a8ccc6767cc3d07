/** Whole QMI messages: header, minimum length, and the round trip from one C struct to another. */
module QmiMessage {
  import opened Bytes
  import opened QmiDescriptor
  import opened QmiValue
  import opened QmiAccept
  import opened QmiWrites
  import opened QmiReach
  import opened QmiScript
  import opened QmiRun
  import opened QmiNested
  import opened QmiTopRun
  import opened QmiRoundTrip
  import E = QmiEncode
  import D = QmiDecode

  const TypeData := 1
  const HeaderSize := 7

  // ---------- Minimum length ----------

  function FieldMin(f: Field, top: bool): nat
    decreases f
  {
    if f.flag.Some? then 0 else
    (if f.count.Counted? then LenWidth(f) else 0)
    + (match f.kind
       case Basic(_) => Span(f.elemLen, f.elemSize)
       case Str => (if top then 0 else StrWidth(f)) + Span(f.elemLen, f.elemSize)
       case Struct(sub) => MinLen(sub, |sub|, false))
    + (if top then 3 else 0)
  }

  function MinLen(fs: seq<Field>, g: nat, top: bool): nat
    requires g <= |fs|
    decreases fs, g
  {
    if g == 0 then 0 else MinLen(fs, g - 1, top) + FieldMin(fs[g - 1], top)
  }

  /** The computed minimum is zero exactly when the sender may leave out every field. */
  lemma {:induction false} MinLenZero(fs: seq<Field>, g: nat)
    requires g <= |fs|
    ensures MinLen(fs, g, true) == 0 <==> forall h :: 0 <= h < g ==> fs[h].flag.Some?
  {
    if g > 0 {
      MinLenZero(fs, g - 1);
    }
  }

  /** Nothing optional, strings and arrays of basic elements in full, and one struct of each array of structs. */
  predicate Typical(f: Field, v: Val)
    decreases f
  {
    if f.flag.Some? then v.Absent? else
    match f.kind
    case Basic(_) => v.Raw? && |v.bytes| == f.elemLen * f.elemSize
    case Str => v.Text? && |v.chars| == f.elemLen * f.elemSize
    case Struct(sub) => v.Recs? && |v.recs| == 1 && |v.recs[0]| == |sub| && AllTypical(sub, v.recs[0], |sub|)
  }

  predicate AllTypical(fs: seq<Field>, vs: seq<Val>, g: nat)
    requires g <= |fs| == |vs|
    decreases fs
  {
    forall h :: 0 <= h < g ==> Typical(fs[h], vs[h])
  }

  /** The minimum is the length of such a message. */
  lemma {:induction false} MinLenIs(fs: seq<Field>, vs: seq<Val>, g: nat, top: bool)
    requires g <= |fs| == |vs| && AllTypical(fs, vs, g)
    ensures MinLen(fs, g, top) == |Wire(fs, vs, g, top)|
    decreases fs, g
  {
    if g > 0 {
      MinLenIs(fs, vs, g - 1, top);
      FieldMinIs(fs[g - 1], vs[g - 1], top);
    }
  }

  lemma {:induction false} FieldMinIs(f: Field, v: Val, top: bool)
    requires Typical(f, v)
    ensures FieldMin(f, top) == |Piece(f, v, top)|
    decreases f
  {
    if f.flag.None? {
      match f.kind
      case Struct(sub) =>
        var r := v.recs[0];
        MinLenIs(sub, r, |sub|, false);
        assert WireRecs(sub, v.recs, 1) == WireRecs(sub, v.recs, 0) + Wire(sub, r, |sub|, false);
        assert WireRecs(sub, v.recs, 0) == [] && Body(f, v, top) == WireRecs(sub, v.recs, 1);
        assert |Payload(f, v, top)| == |CountPrefix(f, v)| + MinLen(sub, |sub|, false);
      case _ =>
        SpanIsProduct(f.elemLen, f.elemSize);
    }
  }

  method CalcMinMsgLen(ei: seq<Elem>, level: nat, ghost fs: seq<Field>, ghost size: nat) returns (minMsgLen: nat)
    requires level >= 1 && Represents(ei, fs) && (level == 1 ==> DistinctTypes(ei, fs))
    requires WfFields(fs, size, level == 1)
    ensures minMsgLen == MinLen(fs, |fs|, level == 1)
    decreases fs, 1
  {
    minMsgLen := 0;
    var t: nat := 0;
    ghost var g: nat, ph := 0, E.AtStart;
    while ei[t].dataType != Eoti
      invariant E.AtRow(fs, g, ph, t) && t < |ei|
      invariant !ph.AfterFlag?
      invariant ph.AfterLen? ==> fs[g].flag.None?
      invariant minMsgLen == MinLen(fs, g, level == 1) + if ph.AfterLen? then LenWidth(fs[g]) else 0
      decreases |ei| - t
    {
      E.RowAt(ei, fs, size, level == 1, g, ph, t);
      assert WfField(fs[g], size, level == 1);
      if ei[t].dataType == OptFlag {
        t := E.SkipToNextElem(ei, t, level, fs, g);
        g := g + 1;
      } else if ei[t].dataType == DataLen {
        minMsgLen := minMsgLen + if ei[t].elemSize == 1 then 1 else 2;
        t, ph := t + 1, E.AfterLen;
      } else {
        var n := CalcElemLen(ei[t], level, fs[g], size);
        minMsgLen := minMsgLen + n;
        if level == 1 {
          minMsgLen := minMsgLen + 3;
        }
        t, g, ph := t + 1, g + 1, E.AtStart;
      }
    }
    E.RowAt(ei, fs, size, level == 1, g, ph, t);
  }

  /** The cases for the elements of a field. */
  method CalcElemLen(e: Elem, level: nat, ghost f: Field, ghost size: nat) returns (n: nat)
    requires level >= 1 && ValueRow(e, f) && WfField(f, size, level == 1)
    requires f.kind.Struct? ==> Represents(e.sub, f.kind.sub)
    ensures f.flag.None? ==>
              FieldMin(f, level == 1) ==
                n + (if f.count.Counted? then LenWidth(f) else 0) + (if level == 1 then 3 else 0)
    decreases f, 0
  {
    if e.dataType == StructType {
      n := CalcMinMsgLen(e.sub, level + 1, f.kind.sub, e.elemSize);
      return;
    }
    n := 0;
    if e.dataType == StringType && level > 1 {
      n := if e.elemLen <= 256 then 1 else 2;
    }
    SpanIsProduct(e.elemLen, e.elemSize);
    n := n + e.elemLen * e.elemSize;
  }

  // ---------- Messages ----------

  /** The packet a message is built in or taken from: `dataLen` is its capacity before encoding, its length after. */
  class Packet {
    var kind: int
    var data: array<u8>
    var dataLen: nat

    constructor (capacity: nat)
      ensures fresh(data) && data.Length == capacity == dataLen && kind == 0
    {
      kind := 0;
      data := new u8[capacity](_ => 0);
      dataLen := capacity;
    }
  }

  function U8(x: int): u8 { x % 0x100 }

  function U16(x: int): nat { x % 0x1_0000 }

  /** The packed header: type, transaction, message id and payload length, each truncated to its width. */
  function MessageHeader(kind: int, txnId: int, msgId: int, len: nat): (h: seq<u8>)
    ensures |h| == HeaderSize
  {
    [U8(kind)] + Low(U16(txnId), 2) + Low(U16(msgId), 2) + Low(U16(len), 2)
  }

  /** The values a message carries, as the encoder reads them; no struct at all means every field absent. */
  ghost function Values(cStruct: Option<seq<u8>>, fs: seq<Field>): (vs: seq<Val>)
    ensures |vs| == |fs|
  {
    match cStruct
    case Some(mem) => LoadAll(fs, mem, 0, |fs|, Codec)
    case None => seq(|fs|, _ => Absent)
  }

  ghost function MessageBody(cStruct: Option<seq<u8>>, fs: seq<Field>): seq<u8> {
    Wire(fs, Values(cStruct, fs), |fs|, true)
  }

  lemma {:induction false} NothingToSend(fs: seq<Field>, vs: seq<Val>, g: nat)
    requires g <= |fs| && g <= |vs| && forall h :: 0 <= h < g ==> vs[h].Absent?
    ensures Wire(fs, vs, g, true) == []
  {
    if g > 0 {
      NothingToSend(fs, vs, g - 1);
    }
  }

  ghost predicate AllOptional(fs: seq<Field>) {
    forall g :: 0 <= g < |fs| ==> fs[g].flag.Some?
  }

  /** data_len - sizeof(header), passed on as a uint32_t: the room for a body, or its length. */
  function BodyRoom(dataLen: nat): (n: nat)
    ensures HeaderSize <= dataLen < Wrap ==> n == dataLen - HeaderSize
  {
    (dataLen - HeaderSize) % Wrap
  }

  /** When a message can be built in a packet with room for dataLen bytes. */
  ghost predicate Buildable(cStruct: Option<seq<u8>>, fs: seq<Field>, dataLen: nat) {
    && dataLen >= HeaderSize
    && match cStruct
       case Some(mem) => E.Encodes(fs, mem, 0, BodyRoom(dataLen), true)
       case None => AllOptional(fs)
  }

  /** Where the bytes end that building the message writes, behind the header that is filled in at last. */
  ghost function MessageReach(cStruct: Option<seq<u8>>, fs: seq<Field>, dataLen: nat): nat {
    HeaderSize + if cStruct.Some? then Reach(fs, Values(cStruct, fs), true, BodyRoom(dataLen)) else 0
  }

  /** There is memory for them, if there is to be a message at all. */
  ghost predicate Holds(cStruct: Option<seq<u8>>, fs: seq<Field>, dataLen: nat, memory: nat) {
    dataLen >= HeaderSize ==> MessageReach(cStruct, fs, dataLen) <= memory
  }

  /** Without strings inside structs the packet's own length will do. */
  lemma {:induction false} PlainHolds(cStruct: Option<seq<u8>>, fs: seq<Field>, size: nat, dataLen: nat, memory: nat)
    requires WfFields(fs, size, true) && StringsOnlyHere(fs) && dataLen <= memory && dataLen < Wrap
    ensures Holds(cStruct, fs, dataLen, memory)
  {
    if cStruct.Some? && dataLen >= HeaderSize {
      PlainWithin(fs, size, cStruct.value, BodyRoom(dataLen));
    }
  }

  method WriteMessageHeader(buf: array<u8>, h: seq<u8>)
    requires |h| <= buf.Length
    modifies buf
    ensures buf[..] == Splice(old(buf[..]), 0, h)
  {
    forall k | 0 <= k < |h| {
      buf[k] := h[k];
    }
    assert buf[..] == Splice(old(buf[..]), 0, h);
  }

  /** A message that can be built is written in full. */
  lemma {:induction false} BuiltInFull(cStruct: Option<seq<u8>>, fs: seq<Field>, dataLen: nat)
    requires Buildable(cStruct, fs, dataLen)
    ensures MessageReach(cStruct, fs, dataLen) == HeaderSize + |MessageBody(cStruct, fs)|
  {
    if cStruct.Some? {
      E.EncodesPassed(fs, cStruct.value, 0, BodyRoom(dataLen), true);
      AfterAll([], 0, fs, Values(cStruct, fs), true, BodyRoom(dataLen));
    } else {
      NothingToSend(fs, Values(cStruct, fs), |fs|);
    }
  }

  /** What a message that cannot be built leaves in the packet: what the encoder wrote before it refused a field. */
  ghost function Remains(was: seq<u8>, cStruct: Option<seq<u8>>, fs: seq<Field>, dataLen: nat): seq<u8> {
    if cStruct.None? || dataLen < HeaderSize then was
    else After(was, HeaderSize, fs, Values(cStruct, fs), true, BodyRoom(dataLen))
  }

  method EncodeMessage(pkt: Packet, kind: int, msgId: int, txnId: int, cStruct: Option<seq<u8>>, ei: seq<Elem>,
                       ghost fs: seq<Field>, ghost size: nat)
    returns (rc: int)
    requires Represents(ei, fs) && DistinctTypes(ei, fs) && WfFields(fs, size, true)
    requires Holds(cStruct, fs, pkt.dataLen, pkt.data.Length) && (cStruct.Some? ==> size <= |cStruct.value|)
    modifies pkt, pkt.data
    ensures pkt.data == old(pkt.data)
    ensures rc >= 0 <==> Buildable(cStruct, fs, old(pkt.dataLen))
    ensures rc >= 0 ==> var body := MessageBody(cStruct, fs);
                        && rc == pkt.dataLen == HeaderSize + |body| <= pkt.data.Length && pkt.kind == 1
                        && pkt.data[..] ==
                           Splice(old(pkt.data[..]), 0, MessageHeader(kind, txnId, msgId, |body|) + body)
    ensures rc < 0 ==> rc in {-EINVAL, -EMSGSIZE} && pkt.dataLen == old(pkt.dataLen) && pkt.kind == old(pkt.kind)
    ensures rc < 0 ==> pkt.data[..] == Remains(old(pkt.data[..]), cStruct, fs, pkt.dataLen)
  {
    var msgLen := 0;
    if cStruct.None? {
      var ret := CalcMinMsgLen(ei, 1, fs, size);
      MinLenZero(fs, |fs|);
      if ret != 0 {
        return -EINVAL;
      }
    }
    if pkt.dataLen < HeaderSize {
      return -EMSGSIZE;
    }
    ghost var was, body := pkt.data[..], MessageBody(cStruct, fs);
    if cStruct.Some? {
      msgLen := E.Encode(ei, pkt.data, HeaderSize, cStruct.value, 0, BodyRoom(pkt.dataLen), 1, fs, size);
      if msgLen < 0 {
        return msgLen;
      }
    } else {
      NothingToSend(fs, Values(cStruct, fs), |fs|);
    }
    BuiltInFull(cStruct, fs, pkt.dataLen);
    assert pkt.data[..] == Splice(was, HeaderSize, body);
    var h := MessageHeader(kind, txnId, msgId, msgLen);
    SpliceBackpatch(was, 0, h, body);
    WriteMessageHeader(pkt.data, h);
    pkt.kind := TypeData;
    pkt.dataLen := HeaderSize + msgLen;
    rc := pkt.dataLen;
  }

  /** A packet shorter than its header fails the comparison, which is made on what the memory behind it holds. */
  method DecodeHeader(pkt: Packet) returns (rc: int, msgId: nat)
    requires HeaderSize <= pkt.data.Length
    ensures rc == 0 <==> Word(pkt.data[5], pkt.data[6]) == pkt.dataLen - HeaderSize
    ensures rc == 0 ==> msgId == Word(pkt.data[3], pkt.data[4])
    ensures rc != 0 ==> rc == -EINVAL
  {
    msgId := 0;
    if Word(pkt.data[5], pkt.data[6]) != pkt.dataLen - HeaderSize {
      return -EINVAL, msgId;
    }
    msgId := Word(pkt.data[3], pkt.data[4]);
    rc := 0;
  }

  /** The packet is a message of this type and id. */
  predicate Addressed(pkt: seq<u8>, len: nat, kind: int, id: int)
    requires len > 0 ==> HeaderSize <= |pkt|
  {
    len > 0 && pkt[0] == kind && Word(pkt[3], pkt[4]) == id
  }

  /** The run of the decoder over the body of a packet. */
  ghost function BodyRun(pkt: seq<u8>, len: nat, fs: seq<Field>, mem: seq<u8>): Out {
    Run(fs, mem, 0, pkt, HeaderSize, BodyRoom(len), true, 0)
  }

  method DecodeMessage(mem: array<u8>, pkt: Packet, kind: int, id: int, ei: seq<Elem>, ghost fs: seq<Field>,
                       ghost size: nat)
    returns (rc: int, txn: nat)
    requires Represents(ei, fs) && DistinctTypes(ei, fs) && WfFields(fs, size, true) && mem != pkt.data
    requires size <= mem.Length
    requires pkt.dataLen > 0 ==> HeaderSize <= pkt.data.Length
    requires Addressed(pkt.data[..], pkt.dataLen, kind, id) ==>
               BodyRun(pkt.data[..], pkt.dataLen, fs, mem[..]).reach <= pkt.data.Length
    modifies mem
    ensures !Addressed(pkt.data[..], pkt.dataLen, kind, id) ==> rc == -EINVAL && mem[..] == old(mem[..])
    ensures Addressed(pkt.data[..], pkt.dataLen, kind, id) ==>
              var r := old(BodyRun(pkt.data[..], pkt.dataLen, fs, mem[..]));
              rc == r.rc && mem[..] == r.mem && txn == Word(pkt.data[1], pkt.data[2])
    ensures OnlyChanged(mem[..], old(mem[..]), 0, size)
  {
    txn := 0;
    if pkt.dataLen == 0 {
      return -EINVAL, txn;
    }
    if pkt.data[0] != kind {
      return -EINVAL, txn;
    }
    if Word(pkt.data[3], pkt.data[4]) != id {
      return -EINVAL, txn;
    }
    txn := Word(pkt.data[1], pkt.data[2]);
    TopWrites(fs, size, mem[..], 0, pkt.data[..], HeaderSize, BodyRoom(pkt.dataLen), 0, 0, 0);
    rc := D.Decode(ei, mem, 0, pkt.data[..], HeaderSize, BodyRoom(pkt.dataLen), 1, fs, size, 0);
  }

  // ---------- The round trip ----------

  ghost function Items(cStruct: seq<u8>, fs: seq<Field>): seq<Item> {
    Present(LoadAll(fs, cStruct, 0, |fs|, Codec), |fs|)
  }

  lemma {:induction false} HeaderFields(kind: int, txnId: int, msgId: int, len: nat, buf: seq<u8>, body: seq<u8>)
    requires HeaderSize + |body| <= |buf|
    requires var h := MessageHeader(kind, txnId, msgId, len); buf[..HeaderSize + |body|] == h + body
    ensures buf[0] == kind % 0x100 && Word(buf[1], buf[2]) == txnId % 0x1_0000
    ensures Word(buf[3], buf[4]) == msgId % 0x1_0000
    ensures Word(buf[5], buf[6]) == len % 0x1_0000
    ensures StandsAt(body, buf, HeaderSize)
  {
    var h := MessageHeader(kind, txnId, msgId, len);
    forall i | 0 <= i < HeaderSize ensures buf[i] == h[i] {
      assert buf[..HeaderSize + |body|][i] == buf[i];
    }
    LowWord(U16(txnId));
    LowWord(U16(msgId));
    LowWord(U16(len));
    assert h[1] == Low(U16(txnId), 2)[0] && h[2] == Low(U16(txnId), 2)[1];
    assert h[3] == Low(U16(msgId), 2)[0] && h[4] == Low(U16(msgId), 2)[1];
    assert h[5] == Low(U16(len), 2)[0] && h[6] == Low(U16(len), 2)[1];
    forall i | 0 <= i < |body| ensures buf[HeaderSize + i] == body[i] {
      assert buf[..HeaderSize + |body|][HeaderSize + i] == body[i];
    }
  }

  lemma {:induction false} LowWord(n: nat)
    requires n < 0x1_0000
    ensures Low(n, 2) == [n % 256, n / 256] && Word(n % 256, n / 256) == n
  {
    assert Low(n / 256, 1) == [n / 256 % 256] + Low(n / 256 / 256, 0);
  }

  /** The tables and the struct that the two ends share. */
  ghost predicate Sound(ei: seq<Elem>, fs: seq<Field>, size: nat, cStruct: seq<u8>) {
    Represents(ei, fs) && DistinctTypes(ei, fs) && WfFields(fs, size, true) && Separate(fs) && size <= |cStruct|
  }

  /** The nested strings of the struct are shorter than their length prefixes can count. */
  ghost predicate StringsOk(fs: seq<Field>, cStruct: seq<u8>) {
    AllStringsFit(fs, LoadAll(fs, cStruct, 0, |fs|, Codec), true)
  }

  /** No array leaves a length behind that a later count would pick up. */
  ghost predicate CountsOk(fs: seq<Field>, cStruct: seq<u8>) {
    Clean(fs, Items(cStruct, fs), |Items(cStruct, fs)|)
  }

  /** No counted array of basic elements has room for more than its DATA_LEN can count. */
  ghost predicate AllDelimited(fs: seq<Field>) {
    forall g :: 0 <= g < |fs| ==> Delimited(fs[g])
  }

  ghost function BodyOf(cStruct: seq<u8>, fs: seq<Field>): seq<u8> {
    MessageBody(Some(cStruct), fs)
  }

  /** What the decoder can be handed: memory as far as it may read behind the message, when that can be misread. */
  ghost predicate Readable(fs: seq<Field>, cStruct: seq<u8>, memory: nat) {
    || (StringsOk(fs, cStruct) && (CountsOk(fs, cStruct) || Tight(fs)))
    || HeaderSize + |BodyOf(cStruct, fs)| + 2 + MaxVals(fs, |fs|) <= memory
  }

  ghost function BodyTask(fs: seq<Field>, size: nat, cStruct: seq<u8>, buf: seq<u8>, mem: seq<u8>): Task {
    Task(fs, size, 0, buf, HeaderSize, |BodyOf(cStruct, fs)|, Items(cStruct, fs), mem)
  }

  /** The body of a message built from cStruct is input that the decoder is proved for. */
  lemma {:induction false} BodyIsInput(ei: seq<Elem>, fs: seq<Field>, size: nat, cStruct: seq<u8>, buf: seq<u8>,
                                       mem: seq<u8>)
    requires Sound(ei, fs, size, cStruct) && E.Ok(fs, cStruct, 0) && |BodyOf(cStruct, fs)| < 0x1_0000
    requires size <= |mem| && StandsAt(BodyOf(cStruct, fs), buf, HeaderSize)
    ensures BodyTask(fs, size, cStruct, buf, mem).Valid() && Tolerated(Items(cStruct, fs), |Items(cStruct, fs)|)
  {
    MessageItems(fs, size, cStruct);
    PresentBytes(fs, LoadAll(fs, cStruct, 0, |fs|, Codec), |fs|, true);
  }

  lemma {:induction false} BodySays(fs: seq<Field>, size: nat, cStruct: seq<u8>, buf: seq<u8>, mem: seq<u8>)
    requires WfFields(fs, size, true) && size <= |cStruct| && size <= |mem| && FlagsClear(fs, mem)
    ensures var j := BodyTask(fs, size, cStruct, buf, mem);
            && ItemsFit(j.fs, j.items, |j.items|) == StringsOk(fs, cStruct)
            && j.Fields(|j.items|) == LoadAll(fs, cStruct, 0, |fs|, Codec)
            && (AllDelimited(fs) ==> Traceable(j))
  {
    var vs := LoadAll(fs, cStruct, 0, |fs|, Codec);
    PresentFit(fs, vs, |fs|);
    PresentOnce(vs, |fs|);
    ReplayGivesValues(fs, size, cStruct, mem);
  }

  /** What decoding it comes to. */
  lemma {:induction false} BodyDecodes(ei: seq<Elem>, fs: seq<Field>, size: nat, cStruct: seq<u8>, buf: seq<u8>,
                                       len: nat, mem: seq<u8>)
    requires Sound(ei, fs, size, cStruct) && E.Ok(fs, cStruct, 0) && |BodyOf(cStruct, fs)| < 0x1_0000
    requires size <= |mem| && FlagsClear(fs, mem) && StandsAt(BodyOf(cStruct, fs), buf, HeaderSize)
    requires len == HeaderSize + |BodyOf(cStruct, fs)|
    requires Readable(fs, cStruct, |buf|)
    ensures var r := BodyRun(buf, len, fs, mem);
            var sent := LoadAll(fs, cStruct, 0, |fs|, Codec);
            && r.reach <= |buf|
            && (CountsOk(fs, cStruct) && StringsOk(fs, cStruct) ==>
                r.rc == |BodyOf(cStruct, fs)| && LoadAll(fs, r.mem, 0, |fs|, Program) == sent)
            && (Tight(fs) && StringsOk(fs, cStruct) && !CountsOk(fs, cStruct) ==> r.rc < 0)
            && (AllDelimited(fs) && r.rc >= 0 && LoadAll(fs, r.mem, 0, |fs|, Program) == sent ==>
                CountsOk(fs, cStruct) && StringsOk(fs, cStruct))
  {
    BodyIsInput(ei, fs, size, cStruct, buf, mem);
    BodySays(fs, size, cStruct, buf, mem);
    MessageRuns(BodyTask(fs, size, cStruct, buf, mem));
    if !(StringsOk(fs, cStruct) && (CountsOk(fs, cStruct) || Tight(fs))) {
      TopReach(fs, mem, 0, buf, HeaderSize, |BodyOf(cStruct, fs)|, 0, 0, 0, |buf|);
    }
  }

  /** The message of cStruct is in the packet. */
  ghost predicate Carries(buf: seq<u8>, len: nat, kind: int, txnId: int, msgId: int, cStruct: seq<u8>, fs: seq<Field>) {
    var body := BodyOf(cStruct, fs);
    && len == HeaderSize + |body| <= |buf| && StandsAt(body, buf, HeaderSize)
    && buf[0] == kind % 0x100 && Word(buf[1], buf[2]) == txnId % 0x1_0000 && Word(buf[3], buf[4]) == msgId % 0x1_0000 &&
       Word(buf[5], buf[6]) == |body| % 0x1_0000
  }

  lemma {:induction false} MessageCarries(now: seq<u8>, was: seq<u8>, len: nat, kind: int, txnId: int, msgId: int,
                                          cStruct: seq<u8>, fs: seq<Field>)
    requires var body := BodyOf(cStruct, fs);
             && len == HeaderSize + |body| <= |was|
             && now == Splice(was, 0, MessageHeader(kind, txnId, msgId, |body|) + body)
    ensures Carries(now, len, kind, txnId, msgId, cStruct, fs)
  {
    var body := BodyOf(cStruct, fs);
    var m := MessageHeader(kind, txnId, msgId, |body|) + body;
    assert now[..HeaderSize + |body|] == m;
    HeaderFields(kind, txnId, msgId, |body|, now, body);
  }

  /** Type and id survive their header fields. */
  predicate InHeader(kind: int, msgId: int) {
    0 <= kind < 0x100 && 0 <= msgId < 0x1_0000
  }

  /** The values that the encoder read have arrived. */
  ghost predicate Arrived(d: int, mem: seq<u8>, cStruct: seq<u8>, fs: seq<Field>) {
    d >= 0 && LoadAll(fs, mem, 0, |fs|, Program) == LoadAll(fs, cStruct, 0, |fs|, Codec)
  }

  /** What the header of a carried message says. */
  lemma {:induction false} HeaderSays(buf: seq<u8>, len: nat, kind: int, txnId: int, msgId: int, cStruct: seq<u8>,
                                      fs: seq<Field>)
    requires Carries(buf, len, kind, txnId, msgId, cStruct, fs)
    ensures Word(buf[5], buf[6]) == len - HeaderSize <==> |BodyOf(cStruct, fs)| < 0x1_0000
    ensures Addressed(buf, len, kind, msgId) <==> InHeader(kind, msgId)
  {
  }

  /** Receiving a message into a cleared struct: its header first, and then, if that is in order, its body. */
  method Receive(pkt: Packet, kind: int, msgId: int, ei: seq<Elem>, mem: array<u8>,
                 ghost txnId: int, ghost cStruct: seq<u8>, ghost fs: seq<Field>, ghost size: nat)
    returns (hrc: int, id: nat, d: int, txn: nat)
    requires Sound(ei, fs, size, cStruct) && E.Ok(fs, cStruct, 0)
    requires Carries(pkt.data[..], pkt.dataLen, kind, txnId, msgId, cStruct, fs)
    requires mem != pkt.data && size <= mem.Length && FlagsClear(fs, mem[..]) && Readable(fs, cStruct, pkt.data.Length)
    modifies mem
    ensures hrc == 0 <==> |BodyOf(cStruct, fs)| < 0x1_0000
    ensures hrc == 0 ==> id == msgId % 0x1_0000
    ensures hrc == 0 && InHeader(kind, msgId) && CountsOk(fs, cStruct) && StringsOk(fs, cStruct) ==>
              d == |BodyOf(cStruct, fs)| && txn == txnId % 0x1_0000 && Arrived(d, mem[..], cStruct, fs)
    ensures AllDelimited(fs) && Arrived(d, mem[..], cStruct, fs) ==>
              hrc == 0 && InHeader(kind, msgId) && CountsOk(fs, cStruct) && StringsOk(fs, cStruct)
    ensures Tight(fs) && StringsOk(fs, cStruct) && d >= 0 ==> hrc == 0 && InHeader(kind, msgId) && CountsOk(fs, cStruct)
  {
    d, txn := -EINVAL, 0;
    HeaderSays(pkt.data[..], pkt.dataLen, kind, txnId, msgId, cStruct, fs);
    hrc, id := DecodeHeader(pkt);
    if hrc == 0 {
      BodyDecodes(ei, fs, size, cStruct, pkt.data[..], pkt.dataLen, mem[..]);
      d, txn := DecodeMessage(mem, pkt, kind, msgId, ei, fs, size);
    }
  }

  /**
   Building a message from a struct and receiving it into a cleared one. The header is accepted exactly when the body
   is shorter than 64 KiB. The values that the encoder read arrive exactly when, besides, the type and id fit their
   header fields, no array leaves a length behind that a later count picks up, and nested strings fit their prefixes;
   and these values are those of the program that filled the struct exactly when its length members fit the width the
   table gives them.
   */
  method RoundTrip(pkt: Packet, kind: int, msgId: int, txnId: int, cStruct: seq<u8>, ei: seq<Elem>, mem: array<u8>,
                   ghost fs: seq<Field>, ghost size: nat)
    returns (n: int, hrc: int, id: nat, d: int, txn: nat)
    requires Sound(ei, fs, size, cStruct)
    requires Holds(Some(cStruct), fs, pkt.dataLen, pkt.data.Length) && mem != pkt.data
    requires size <= mem.Length && FlagsClear(fs, mem[..]) && Readable(fs, cStruct, pkt.data.Length)
    modifies pkt, pkt.data, mem
    ensures n >= 0 <==> Buildable(Some(cStruct), fs, old(pkt.dataLen))
    ensures n >= 0 ==> n == HeaderSize + |BodyOf(cStruct, fs)|
    ensures n < 0 ==> pkt.data[..] == Remains(old(pkt.data[..]), Some(cStruct), fs, pkt.dataLen)
    ensures n >= 0 ==> (hrc == 0 <==> n - HeaderSize < 0x1_0000)
    ensures n >= 0 && hrc == 0 ==> id == msgId % 0x1_0000
    ensures n >= 0 && hrc == 0 && InHeader(kind, msgId) && CountsOk(fs, cStruct) && StringsOk(fs, cStruct) ==>
              d == n - HeaderSize && txn == txnId % 0x1_0000 && Arrived(d, mem[..], cStruct, fs)
    ensures n >= 0 && AllDelimited(fs) ==>
              (Arrived(d, mem[..], cStruct, fs) <==>
               hrc == 0 && InHeader(kind, msgId) && CountsOk(fs, cStruct) && StringsOk(fs, cStruct))
    ensures n >= 0 && Tight(fs) && StringsOk(fs, cStruct) ==>
              (d >= 0 <==> hrc == 0 && InHeader(kind, msgId) && CountsOk(fs, cStruct))
    ensures n >= 0 && Arrived(d, mem[..], cStruct, fs) ==>
              (LoadAll(fs, mem[..], 0, |fs|, Program) == LoadAll(fs, cStruct, 0, |fs|, Program) <==>
               AllCountsFit(fs, cStruct, 0))
  {
    hrc, id, d, txn := 0, 0, 0, 0;
    ghost var was := pkt.data[..];
    AllCountsFitIff(fs, size, true, cStruct, 0);
    n := EncodeMessage(pkt, kind, msgId, txnId, Some(cStruct), ei, fs, size);
    if n >= 0 {
      MessageCarries(pkt.data[..], was, pkt.dataLen, kind, txnId, msgId, cStruct, fs);
      hrc, id, d, txn := Receive(pkt, kind, msgId, ei, mem, txnId, cStruct, fs, size);
    }
  }
}
