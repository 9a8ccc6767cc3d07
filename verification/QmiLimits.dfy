/** Inputs at which the codec does not do what it is for, each run through the methods that model it. */
module QmiLimits {
  import opened Bytes
  import opened QmiDescriptor
  import opened QmiValue
  import opened QmiAccept
  import opened QmiWrites
  import opened QmiScript
  import opened QmiRun
  import opened QmiOneTlv
  import opened QmiFramed
  import opened QmiTopRun
  import opened QmiRoundTrip
  import opened QmiMessage
  import E = QmiEncode
  import D = QmiDecode

  const End := Elem(Eoti, 0, 0, NoArray, 0, 0, [])

  /** A table of one field with one row. */
  lemma {:induction false} OneRow(e: Elem, f: Field)
    requires f.flag.None? && !f.count.Counted? && ValueRow(e, f) && (f.kind.Struct? ==> Represents(e.sub, f.kind.sub))
    ensures Represents([e, End], [f])
    ensures f.tlv != 0 ==> DistinctTypes([e, End], [f])
  {
    assert [f][0] == f && [e, End][0] == e && [e, End][1] == End;
    assert Pos([f], 0) == 0 && Pos([f], 1) == 1;
    assert GroupAt([e, End], 0, f);
    assert FieldAt([e, End], [f], 0);
  }

  /** The value of a struct with one member. */
  lemma {:induction false} OneMember(f: Field, mem: seq<u8>, base: nat, r: Reader)
    ensures LoadAll([f], mem, base, 1, r) == [Load(f, mem, base, r)]
  {
    assert [f][0] == f && LoadAll([f], mem, base, 0, r) == [];
  }

  lemma {:induction false} FittingEncodes(fs: seq<Field>, size: nat, mem: seq<u8>, vs: seq<Val>, outLen: nat)
    requires WfFields(fs, size, true) && vs == LoadAll(fs, mem, 0, |fs|, Codec) && AllSendable(fs, vs)
    requires |Wire(fs, vs, |fs|, true)| <= outLen < Wrap / 2
    ensures E.Encodes(fs, mem, 0, outLen, true) && E.Enc(fs, mem, 0, true) == Wire(fs, vs, |fs|, true)
  {
    E.EncodesIff(fs, size, mem, 0, outLen);
  }

  lemma {:induction false} OverrunEncodes(fs: seq<Field>, size: nat, mem: seq<u8>, vs: seq<Val>, outLen: nat, h: nat)
    requires WfFields(fs, size, true) && vs == LoadAll(fs, mem, 0, |fs|, Codec) && AllSendable(fs, vs)
    requires outLen < Wrap / 2 && |Wire(fs, vs, |fs|, true)| < Wrap / 2 && h < |fs| && Overruns(fs, vs, |fs|, outLen, h)
    ensures E.Encodes(fs, mem, 0, outLen, true) && E.Enc(fs, mem, 0, true) == Wire(fs, vs, |fs|, true)
  {
    E.EncodesIff(fs, size, mem, 0, outLen);
  }

  // ---------- A string inside a struct ----------

  function Text1(len: nat): Field { Field(0, None, One, len, 1, 0, Str) }

  /** A message of one struct that holds one string of at most len characters. */
  function Wrapped(len: nat): Field { Field(1, None, One, 1, len + 1, 0, Struct([Text1(len)])) }

  function TextRow(len: nat): Elem { Elem(StringType, len, 1, NoArray, 0, 0, []) }

  function WrappedRow(len: nat): Elem { Elem(StructType, 1, len + 1, NoArray, 1, 0, [TextRow(len), End]) }

  lemma {:induction false} WrappedTable(len: nat)
    requires 1 <= len < 0x1_0000
    ensures Represents([WrappedRow(len), End], [Wrapped(len)]) && DistinctTypes([WrappedRow(len), End], [Wrapped(len)])
    ensures WfFields([Wrapped(len)], len + 1, true) && Separate([Wrapped(len)])
  {
    OneRow(TextRow(len), Text1(len));
    OneRow(WrappedRow(len), Wrapped(len));
    assert [Text1(len)][0] == Text1(len) && [Wrapped(len)][0] == Wrapped(len);
    assert WfField(Text1(len), len + 1, false) && WfFields([Text1(len)], len + 1, false);
    assert SeparateField(Text1(len)) && Separate([Text1(len)]);
    assert WfField(Wrapped(len), len + 1, true);
  }

  /** A string at the beginning of the memory. */
  lemma {:induction false} TextLoaded(len: nat, chars: seq<u8>, mem: seq<u8>, r: Reader)
    requires 1 <= |chars| <= len && 0 !in chars && |chars| < |mem| && mem[..|chars|] == chars && mem[|chars|] == 0
    ensures Load(Text1(len), mem, 0, r) == Text(chars)
  {
    var str := Text1(len);
    assert mem[0..0 + |chars|] == chars;
    StrLenOf(mem, 0, chars);
    assert Peek(mem, 0, |chars|) == chars && LoadBody(str, mem, 0, 1, r) == Text(chars);
    LoadValueIs(str, mem, 0, r);
  }

  /** What the struct holds: the characters up to the zero byte. */
  lemma {:induction false} WrappedLoaded(len: nat, chars: seq<u8>, mem: seq<u8>, r: Reader)
    requires 1 <= |chars| <= len && 0 !in chars && |chars| < |mem| && mem[..|chars|] == chars && mem[|chars|] == 0
    ensures Load(Wrapped(len), mem, 0, r) == Recs([[Text(chars)]])
  {
    var str, f := Text1(len), Wrapped(len);
    TextLoaded(len, chars, mem, r);
    OneMember(str, mem, 0, r);
    LoadRecsAt([str], mem, 0, len + 1, 1, 0, r);
    assert Span(0, len + 1) == 0;
    var rs := LoadRecs([str], mem, 0, len + 1, 1, r);
    assert rs[0] == LoadAll([str], mem, 0, |[str]|, r);
    assert rs[0] == LoadAll([str], mem, 0, 1, r);
    assert rs[0] == [Text(chars)];
    assert rs == [[Text(chars)]];
    LoadValueIs(f, mem, 0, r);
  }

  lemma {:induction false} WrappedValue(len: nat, chars: seq<u8>, r: Reader)
    requires 1 <= len < 0x1_0000 && |chars| == len && 0 !in chars
    ensures LoadAll([Wrapped(len)], chars + [0], 0, 1, r) == [Recs([[Text(chars)]])]
  {
    WrappedLoaded(len, chars, chars + [0], r);
    OneMember(Wrapped(len), chars + [0], 0, r);
  }

  lemma {:induction false} WrappedWire(len: nat, chars: seq<u8>)
    requires 1 <= len < 0x1_0000 && |chars| == len
    ensures var str, f, v := Text1(len), Wrapped(len), Recs([[Text(chars)]]);
            && Wire([f], [v], 1, true) == Tlv(1, Low(len, StrWidth(str)) + chars)
            && NeedField(f, v) == StrWidth(str) + len
            && AllSendable([f], [v])
  {
    var str, f, r, body := Text1(len), Wrapped(len), [Text(chars)], Low(len, StrWidth(Text1(len))) + chars;
    var v := Recs([r]);
    assert [str][0] == str && r[0] == Text(chars) && [r][0] == r && [f][0] == f && [v][0] == v;
    assert Wire([str], r, 0, false) == [] && WireRecs([str], [r], 0) == [] && Wire([f], [v], 0, true) == [];
    assert CountPrefix(str, r[0]) == [] && CountPrefix(f, v) == [];
    assert Payload(str, r[0], false) == body;
    assert Wire([str], r, 1, false) == body;
    assert WireRecs([str], [r], 1) == body;
    assert Payload(f, v, true) == body;
    assert NeedVals([str], r, 0) == 0 && NeedRecs([str], [r], 0) == 0;
    assert Body(str, r[0], false) == body && NeedField(str, r[0]) == |body|;
    assert NeedVals([str], r, 1) == |body|;
    assert |r| == |[str]| && NeedVals([str], r, |[str]|) == |body|;
    assert NeedRecs([str], [r], 1) == |body|;
    assert Sendable(str, r[0]) && AllSendable([str], r);
    assert Sendable(f, v);
  }

  /** One character takes five bytes, and they are written into a room of four. */
  method FiveBytesInFour() returns (buf: array<u8>, rc: int)
    ensures fresh(buf) && buf[..] == [1, 2, 0, 1, 65] && rc == 5
  {
    ghost var fs, v := [Wrapped(1)], Recs([[Text([65])]]);
    var mem: seq<u8> := [65, 0];
    buf := new u8[5](_ => 0);
    WrappedTable(1);
    OneCharacter(mem);
    AcceptedReach(fs, mem, 4);
    rc := E.Encode([WrappedRow(1), End], buf, 0, mem, 0, 4, 1, fs, 2);
  }

  lemma {:induction false} AcceptedReach(fs: seq<Field>, mem: seq<u8>, outLen: nat)
    requires E.Encodes(fs, mem, 0, outLen, true)
    ensures Reach(fs, LoadAll(fs, mem, 0, |fs|, Codec), true, outLen) == |E.Enc(fs, mem, 0, true)|
  {
    E.EncodesPassed(fs, mem, 0, outLen, true);
    AfterAll([], 0, fs, LoadAll(fs, mem, 0, |fs|, Codec), true, outLen);
  }

  lemma {:induction false} OneCharacter(mem: seq<u8>)
    requires mem == [65, 0]
    ensures E.Enc([Wrapped(1)], mem, 0, true) == [1, 2, 0, 1, 65] && E.Encodes([Wrapped(1)], mem, 0, 4, true)
  {
    var f, v, chars: seq<u8> := Wrapped(1), Recs([[Text([65])]]), [65];
    assert mem == chars + [0];
    WrappedTable(1);
    WrappedValue(1, chars, Codec);
    WrappedWire(1, chars);
    FiveBytes();
    OneOverruns(f, v);
    OverrunEncodes([f], 2, mem, [v], 4, 0);
  }

  lemma {:induction false} FiveBytes()
    ensures Tlv(1, Low(1, 1) + [65]) == [1, 2, 0, 1, 65]
  {
    assert Low(1, 1) == [1] + Low(0, 0);
    HeaderBytes(1, 2);
  }

  lemma {:induction false} OneOverruns(f: Field, v: Val)
    requires f.kind.Struct? && !v.Absent? && NeedField(f, v) <= 4 < |Wire([f], [v], 1, true)|
    ensures Overruns([f], [v], 1, 4, 0)
  {
    assert [f][0] == f && [v][0] == v && Upto([f], [v], 0) == 0;
  }

  // ---------- Refused messages ----------

  function Byte1(tlv: u8, off: nat): Field { Field(tlv, None, One, 1, 1, off, Basic(Unsigned1)) }

  function ByteRow(tlv: u8, off: nat): Elem { Elem(Unsigned1, 1, 1, NoArray, tlv, off, []) }

  /** The members of a struct: a string of one character, and a byte. */
  function TextAndByte(): seq<Field> { [Text1(1), Byte1(0, 2)] }

  /** A message of one such struct. */
  function Paired(): Field { Field(1, None, One, 1, 3, 0, Struct(TextAndByte())) }

  function PairedRow(): Elem { Elem(StructType, 1, 3, NoArray, 1, 0, [TextRow(1), ByteRow(0, 2), End]) }

  lemma {:induction false} TwoRows(a: Elem, b: Elem, f: Field, g: Field)
    requires f.flag.None? && !f.count.Counted? && ValueRow(a, f) && !f.kind.Struct?
    requires g.flag.None? && !g.count.Counted? && ValueRow(b, g) && !g.kind.Struct?
    ensures Represents([a, b, End], [f, g])
  {
    var ei, fs := [a, b, End], [f, g];
    assert Pos(fs, 0) == 0 && Pos(fs, 1) == 1 && Pos(fs, 2) == 2;
    assert GroupAt(ei, 0, f) && GroupAt(ei, 1, g);
    assert FieldAt(ei, fs, 0) && FieldAt(ei, fs, 1);
  }

  lemma {:induction false} PairedTable()
    ensures Represents([PairedRow(), End], [Paired()]) && DistinctTypes([PairedRow(), End], [Paired()])
    ensures WfFields([Paired()], 3, true)
  {
    TwoRows(TextRow(1), ByteRow(0, 2), Text1(1), Byte1(0, 2));
    OneRow(PairedRow(), Paired());
    SpanOfBytes(1);
    assert WfField(Text1(1), 3, false) && WfField(Byte1(0, 2), 3, false);
    assert WfFields(TextAndByte(), 3, false);
    assert WfField(Paired(), 3, true);
  }

  lemma {:induction false} ByteLoaded(tlv: u8, off: nat, mem: seq<u8>, r: Reader)
    requires off < |mem|
    ensures Load(Byte1(tlv, off), mem, 0, r) == Raw(1, [mem[off]])
  {
    assert mem[off..off + 1] == [mem[off]];
    LoadValueIs(Byte1(tlv, off), mem, 0, r);
  }

  /** "A" and 7 in memory. */
  function PairedStruct(): seq<u8> { [65, 0, 7] }

  lemma {:induction false} PairedValue()
    ensures LoadAll([Paired()], PairedStruct(), 0, 1, Codec) == [Recs([[Text([65]), Raw(1, [7])]])]
  {
    var sub, mem := TextAndByte(), PairedStruct();
    assert mem[..1] == [65];
    TextLoaded(1, [65], mem, Codec);
    ByteLoaded(0, 2, mem, Codec);
    assert LoadAll(sub, mem, 0, 0, Codec) == [] && LoadAll(sub, mem, 0, 1, Codec) == [Text([65])];
    assert LoadAll(sub, mem, 0, 2, Codec) == [Text([65]), Raw(1, [7])];
    LoadRecsAt(sub, mem, 0, 3, 1, 0, Codec);
    assert Span(0, 3) == 0;
    var rs := LoadRecs(sub, mem, 0, 3, 1, Codec);
    assert rs[0] == LoadAll(sub, mem, 0, 2, Codec);
    assert rs == [[Text([65]), Raw(1, [7])]];
    LoadValueIs(Paired(), mem, 0, Codec);
    OneMember(Paired(), mem, 0, Codec);
  }

  /** The first of two members passes, and the second is refused before anything of it is written. */
  lemma {:induction false} SecondRefused(f: Field, g: Field, x: Val, y: Val, outLen: nat)
    requires !x.Absent? && Passes(f, x, false, 0, outLen)
    requires var used := |Payload(f, x, false)|;
             !Passes(g, y, false, used, outLen) && FieldPut(g, y, false, used, outLen) == []
    ensures ValsPut([f, g], [x, y], outLen) == Payload(f, x, false) && !Passed([f, g], [x, y], 2, false, outLen)
  {
    var fs, vs := [f, g], [x, y];
    assert fs[0] == f && fs[1] == g && vs[0] == x && vs[1] == y;
    assert Wire(fs, vs, 0, false) == [];
    assert Wire(fs, vs, 1, false) == Payload(f, x, false);
    assert Passed(fs, vs, 0, false, outLen) && Passed(fs, vs, 1, false, outLen);
    HaltAt(fs, vs, 1, 2, false, outLen);
    HaltIs(fs, vs, 2, false, outLen);
  }

  /** In a room of four the string passes and the byte does not. */
  lemma {:induction false} PairedStops()
    ensures ValsPut(TextAndByte(), [Text([65]), Raw(1, [7])], 4) == [1, 65]
    ensures !Passed(TextAndByte(), [Text([65]), Raw(1, [7])], 2, false, 4)
  {
    assert Low(1, 1) == [1] + Low(0, 0);
    assert Payload(Text1(1), Text([65]), false) == [1, 65];
    SecondRefused(Text1(1), Byte1(0, 2), Text([65]), Raw(1, [7]), 4);
  }

  lemma {:induction false} PairedPut()
    ensures FieldPut(Paired(), Recs([[Text([65]), Raw(1, [7])]]), true, 0, 4) == [1, 65]
    ensures !Passes(Paired(), Recs([[Text([65]), Raw(1, [7])]]), true, 0, 4)
  {
    var sub, r := TextAndByte(), [Text([65]), Raw(1, [7])];
    var v := Recs([r]);
    PairedStops();
    assert v.recs[0] == r && WireRecs(sub, [r], 0) == [] && RecHalt(sub, [r], 0, 4) == 0;
    assert !RecPasses(sub, r, 0, 4);
    assert RecHalt(sub, [r], 1, 4) == 0;
    assert RecsPut(sub, [r], 4) == [1, 65];
    RecHaltIs(sub, [r], 1, 4);
    RecsPassedIff(sub, [r], 1, 4);
    assert CountPrefix(Paired(), v) == [];
    assert BodyPut(Paired(), v, true, 0, 4) == [1, 65];
  }

  /**
   The struct of "A" and 7 is refused in a room of four, after its string has been written, the last byte behind the
   room.
   */
  method RefusedInFour() returns (buf: array<u8>, rc: int)
    ensures fresh(buf) && rc == -EINVAL && buf[..] == [0, 0, 0, 1, 65]
  {
    buf := new u8[5](_ => 0);
    PairedTable();
    PairedRefused(buf[..]);
    rc := E.Encode([PairedRow(), End], buf, 0, PairedStruct(), 0, 4, 1, [Paired()], 3);
  }

  lemma {:induction false} PairedRefused(was: seq<u8>)
    requires |was| == 5 && was[0] == was[1] == was[2] == 0
    ensures var fs, vs := [Paired()], LoadAll([Paired()], PairedStruct(), 0, 1, Codec);
            && !E.Encodes(fs, PairedStruct(), 0, 4, true)
            && Reach(fs, vs, true, 4) <= 5 && After(was, 0, fs, vs, true, 4) == [0, 0, 0, 1, 65]
  {
    PairedValue();
    PairedPut();
    OnlyRefused(Paired(), PairedStruct(), Recs([[Text([65]), Raw(1, [7])]]), 4, was);
    SpliceFive(was);
  }

  lemma {:induction false} SpliceFive(was: seq<u8>)
    requires |was| == 5 && was[0] == was[1] == was[2] == 0
    ensures Splice(was, 3, [1, 65]) == [0, 0, 0, 1, 65]
  {
  }

  /** A message of one field, which is refused. */
  lemma {:induction false} OnlyRefused(f: Field, mem: seq<u8>, v: Val, outLen: nat, was: seq<u8>)
    requires LoadAll([f], mem, 0, 1, Codec) == [v] && !Passes(f, v, true, 0, outLen)
    ensures var put, vs := FieldPut(f, v, true, 0, outLen), LoadAll([f], mem, 0, |[f]|, Codec);
            && !E.Encodes([f], mem, 0, outLen, true)
            && Reach([f], vs, true, outLen) <= 3 + |put| && After(was, 0, [f], vs, true, outLen) == Splice(was, 3, put)
  {
    FirstRefused([f], [v], outLen, was);
    E.EncodesPassed([f], mem, 0, outLen, true);
  }

  /** The first field is refused. */
  lemma {:induction false} FirstRefused(fs: seq<Field>, vs: seq<Val>, outLen: nat, was: seq<u8>)
    requires |fs| == |vs| == 1 && !Passes(fs[0], vs[0], true, 0, outLen)
    ensures !Passed(fs, vs, 1, true, outLen) && Pending(fs, vs, true, outLen) == FieldPut(fs[0], vs[0], true, 0, outLen)
    ensures After(was, 0, fs, vs, true, outLen) == Splice(was, 3, FieldPut(fs[0], vs[0], true, 0, outLen))
    ensures Reach(fs, vs, true, outLen) <= 3 + |FieldPut(fs[0], vs[0], true, 0, outLen)|
  {
    assert Wire(fs, vs, 0, true) == [] && Halt(fs, vs, 1, true, outLen) == 0;
    HaltIs(fs, vs, 1, true, outLen);
    assert Splice(was, 0, []) == was;
  }

  function Text2(len: nat): Field { Field(2, None, One, len, 1, 2, Str) }

  function Text2Row(len: nat): Elem { Elem(StringType, len, 1, NoArray, 2, 2, []) }

  /**
   A message of a struct that holds a string of one character, of a string of at most len characters, and of a byte.
   */
  function Mixed(len: nat): seq<Field> { [Wrapped(1), Text2(len), Byte1(3, len + 3)] }

  function MixedTable(len: nat): seq<Elem> { [WrappedRow(1), Text2Row(len), ByteRow(3, len + 3), End] }

  /** Such a struct in memory. */
  function MixedStruct(chars: seq<u8>): seq<u8> { [65, 0] + chars + [0, 7] }

  lemma {:induction false} MixedDescribed(len: nat)
    requires 1 <= len < 0x1_0000
    ensures Represents(MixedTable(len), Mixed(len)) && DistinctTypes(MixedTable(len), Mixed(len))
    ensures WfFields(Mixed(len), len + 4, true)
  {
    var ei, fs := MixedTable(len), Mixed(len);
    WrappedTable(1);
    OneRow(TextRow(1), Text1(1));
    assert Pos(fs, 0) == 0 && Pos(fs, 1) == 1 && Pos(fs, 2) == 2 && Pos(fs, 3) == 3;
    assert GroupAt(ei, 0, fs[0]) && GroupAt(ei, 1, fs[1]) && GroupAt(ei, 2, fs[2]);
    assert FieldAt(ei, fs, 0) && FieldAt(ei, fs, 1) && FieldAt(ei, fs, 2);
    assert [Wrapped(1)][0] == Wrapped(1) && WfField(Wrapped(1), 2, true);
    SpanOfBytes(1);
    assert WfField(fs[0], len + 4, true) && WfField(fs[1], len + 4, true) && WfField(fs[2], len + 4, true);
  }

  lemma {:induction false} MixedValue(chars: seq<u8>)
    requires |chars| >= 1 && 0 !in chars
    ensures LoadAll(Mixed(|chars|), MixedStruct(chars), 0, 3, Codec) == [Recs([[Text([65])]]), Text(chars), Raw(1, [7])]
  {
    var len, fs, mem := |chars|, Mixed(|chars|), MixedStruct(chars);
    assert mem[..1] == [65];
    WrappedLoaded(1, [65], mem, Codec);
    assert mem[2..2 + len] == chars;
    StrLenOf(mem, 2, chars);
    assert Peek(mem, 2, len) == chars;
    LoadValueIs(Text2(len), mem, 0, Codec);
    ByteLoaded(3, len + 3, mem, Codec);
    assert LoadAll(fs, mem, 0, 0, Codec) == [];
    assert LoadAll(fs, mem, 0, 1, Codec) == [Load(fs[0], mem, 0, Codec)];
    assert LoadAll(fs, mem, 0, 2, Codec) == [Load(fs[0], mem, 0, Codec), Load(fs[1], mem, 0, Codec)];
  }

  /** The first two of three fields pass, and the third is refused before anything of it is written. */
  lemma {:induction false} ThirdRefused(fs: seq<Field>, vs: seq<Val>, outLen: nat, was: seq<u8>)
    requires |fs| == |vs| == 3 && !vs[0].Absent? && !vs[1].Absent?
    requires var a, b := Piece(fs[0], vs[0], true), Piece(fs[1], vs[1], true);
             && Passes(fs[0], vs[0], true, 0, outLen) && Passes(fs[1], vs[1], true, |a|, outLen)
             && !Passes(fs[2], vs[2], true, |a| + |b|, outLen) && FieldPut(fs[2], vs[2], true, |a| + |b|, outLen) == []
    ensures var pre := Piece(fs[0], vs[0], true) + Piece(fs[1], vs[1], true);
            && !Passed(fs, vs, 3, true, outLen) && Reach(fs, vs, true, outLen) == |pre| &&
               After(was, 0, fs, vs, true, outLen) == Splice(was, 0, pre)
  {
    var a, b := Piece(fs[0], vs[0], true), Piece(fs[1], vs[1], true);
    assert Wire(fs, vs, 0, true) == [];
    assert Wire(fs, vs, 1, true) == a;
    assert Wire(fs, vs, 2, true) == a + b;
    assert Passed(fs, vs, 0, true, outLen) && Passed(fs, vs, 1, true, outLen) && Passed(fs, vs, 2, true, outLen);
    HaltAt(fs, vs, 2, 3, true, outLen);
    HaltIs(fs, vs, 3, true, outLen);
    var once := Splice(was, 0, a + b);
    assert Splice(once, |a + b| + 3, []) == once;
  }

  /** The string in the struct overruns the room of four. */
  lemma {:induction false} OverrunPasses()
    ensures var f, v := Wrapped(1), Recs([[Text([65])]]);
            Passes(f, v, true, 0, 4) && Piece(f, v, true) == [1, 2, 0, 1, 65]
  {
    var f, v := Wrapped(1), Recs([[Text([65])]]);
    var mem: seq<u8> := [65, 0];
    assert mem == [65] + [0];
    OneCharacter(mem);
    WrappedValue(1, [65], Codec);
    E.EncodesPassed([f], mem, 0, 4, true);
    FirstPasses(f, v, 4);
  }

  /** The room left wraps, and the other string is let through. */
  lemma {:induction false} WrappedRoomPasses(chars: seq<u8>)
    requires 1 <= |chars| < 0x1_0000
    ensures Passes(Text2(|chars|), Text(chars), true, 5, 4)
    ensures Piece(Text2(|chars|), Text(chars), true) == Header(2, |chars|) + chars
  {
    assert Payload(Text2(|chars|), Text(chars), true) == chars;
  }

  lemma {:induction false} ByteRefused(tlv: u8, off: nat, v: Val, used: nat, outLen: nat)
    requires v.Raw? && |v.bytes| == 1 && outLen < used
    ensures !Passes(Byte1(tlv, off), v, true, used, outLen) && FieldPut(Byte1(tlv, off), v, true, used, outLen) == []
  {
    var f := Byte1(tlv, off);
    assert !AcceptsBody(f, v, true, used, outLen) && CountPrefix(f, v) == [];
    assert FieldPut(f, v, true, used, outLen) == BodyPut(f, v, true, used, outLen);
  }

  lemma {:induction false} FirstPasses(f: Field, v: Val, outLen: nat)
    ensures Passed([f], [v], 1, true, outLen) <==> Passes(f, v, true, 0, outLen)
    ensures Wire([f], [v], 1, true) == Piece(f, v, true)
  {
    assert [f][0] == f && [v][0] == v && Wire([f], [v], 0, true) == [];
    assert SendableUpTo([f], [v], 0) && AcceptsVals([f], [v], 0, true, outLen);
  }

  /**
   A message that is refused in a room of four, after as many bytes behind the room have been written as one likes.
   */
  method RefusedBeyond(chars: seq<u8>) returns (buf: array<u8>, rc: int)
    requires 1 <= |chars| < 0x1_0000 && 0 !in chars
    ensures fresh(buf) && rc == -EINVAL && buf[..] == [1, 2, 0, 1, 65] + (Header(2, |chars|) + chars)
  {
    var len := |chars|;
    buf := new u8[8 + len](_ => 0);
    MixedDescribed(len);
    MixedRefused(chars, buf[..]);
    rc := E.Encode(MixedTable(len), buf, 0, MixedStruct(chars), 0, 4, 1, Mixed(len), len + 4);
  }

  lemma {:induction false} MixedRefused(chars: seq<u8>, was: seq<u8>)
    requires 1 <= |chars| < 0x1_0000 && 0 !in chars && |was| == 8 + |chars|
    ensures var fs, mem := Mixed(|chars|), MixedStruct(chars);
            var vs := LoadAll(fs, mem, 0, 3, Codec);
            && !E.Encodes(fs, mem, 0, 4, true) && Reach(fs, vs, true, 4) == |was|
            && After(was, 0, fs, vs, true, 4) == [1, 2, 0, 1, 65] + (Header(2, |chars|) + chars)
  {
    var fs, mem, vs := Mixed(|chars|), MixedStruct(chars), [Recs([[Text([65])]]), Text(chars), Raw(1, [7])];
    MixedValue(chars);
    OverrunPasses();
    WrappedRoomPasses(chars);
    ByteRefused(3, |chars| + 3, Raw(1, [7]), 8 + |chars|, 4);
    ThirdRefused(fs, vs, 4, was);
    E.EncodesPassed(fs, mem, 0, 4, true);
    SpliceWhole(was, [1, 2, 0, 1, 65] + (Header(2, |chars|) + chars));
  }

  lemma {:induction false} SpliceWhole(was: seq<u8>, b: seq<u8>)
    requires |was| == |b|
    ensures Splice(was, 0, b) == b
  {
  }

  /** A string of 256 characters, whose length does not fit its prefix of one byte, is sent and does not arrive. */
  method LongString(chars: seq<u8>) returns (n: int, hrc: int, d: int, out: array<u8>)
    requires |chars| == 256 && 0 !in chars
    ensures n == 267 && hrc == 0 && fresh(out) && !Arrived(d, out[..], chars + [0], [Wrapped(256)])
  {
    LongStringReady(chars);
    n, hrc, d, out := SendUnfit(chars + [0], [WrappedRow(256), End], [Wrapped(256)], 257);
  }

  /** It can be sent in a packet of 1024 bytes, with room behind the message for a decoder that goes astray. */
  ghost predicate Unfit(cStruct: seq<u8>, ei: seq<Elem>, fs: seq<Field>, size: nat) {
    && Sound(ei, fs, size, cStruct) && Buildable(Some(cStruct), fs, 1024)
    && AllDelimited(fs) && !StringsOk(fs, cStruct) && (forall g :: 0 <= g < |fs| ==> fs[g].flag.None?)
    && |BodyOf(cStruct, fs)| == 260 && MaxVals(fs, |fs|) == 257
  }

  /** A round trip through such a packet. */
  method SendUnfit(cStruct: seq<u8>, ei: seq<Elem>, ghost fs: seq<Field>, size: nat)
    returns (n: int, hrc: int, d: int, out: array<u8>)
    requires Unfit(cStruct, ei, fs, size)
    ensures n == 267 && hrc == 0 && fresh(out) && !Arrived(d, out[..], cStruct, fs)
  {
    var pkt := new Packet(1024);
    BuiltInFull(Some(cStruct), fs, 1024);
    out := new u8[size](_ => 0);
    var id, txn;
    n, hrc, id, d, txn := RoundTrip(pkt, 0, 1, 1, cStruct, ei, out, fs, size);
  }

  lemma {:induction false} LongStringReady(chars: seq<u8>)
    requires |chars| == 256 && 0 !in chars
    ensures Unfit(chars + [0], [WrappedRow(256), End], [Wrapped(256)], 257)
  {
    WrappedTable(256);
    LongStringSent(chars);
    assert [Wrapped(256)][0] == Wrapped(256);
  }

  lemma {:induction false} LongStringSent(chars: seq<u8>)
    requires |chars| == 256 && 0 !in chars
    ensures var fs, mem := [Wrapped(256)], chars + [0];
            && Buildable(Some(mem), fs, 1024) && |BodyOf(mem, fs)| == 260
            && AllDelimited(fs) && !StringsOk(fs, mem) && MaxVals(fs, 1) == 257
  {
    var fs, vs, mem := [Wrapped(256)], [Recs([[Text(chars)]])], chars + [0];
    WrappedTable(256);
    WrappedValue(256, chars, Codec);
    WrappedWire(256, chars);
    LongStringUnfit(chars);
    LongStringReach();
    LargeRoom(fs, mem, vs);
  }

  lemma {:induction false} LargeRoom(fs: seq<Field>, mem: seq<u8>, vs: seq<Val>)
    requires WfFields(fs, 257, true) && vs == LoadAll(fs, mem, 0, |fs|, Codec) && AllSendable(fs, vs)
    requires |Wire(fs, vs, |fs|, true)| == 260
    ensures Buildable(Some(mem), fs, 1024) && BodyOf(mem, fs) == Wire(fs, vs, |fs|, true)
  {
    FittingEncodes(fs, 257, mem, vs, 1017);
  }

  lemma {:induction false} LongStringReach()
    ensures AllDelimited([Wrapped(256)]) && MaxVals([Wrapped(256)], 1) == 257
  {
    var f, str := Wrapped(256), Text1(256);
    assert [str][0] == str && MaxVals([str], 0) == 0 && MaxVals([str], 1) == 257;
    assert [f][0] == f && MaxVals([f], 0) == 0;
    assert MaxField(f) == 257;
  }

  lemma {:induction false} LongStringUnfit(chars: seq<u8>)
    requires |chars| == 256
    ensures !AllStringsFit([Wrapped(256)], [Recs([[Text(chars)]])], true)
  {
    var str, f, r := Text1(256), Wrapped(256), [Text(chars)];
    var v := Recs([r]);
    assert Pow256(1) == 256 * Pow256(0);
    assert [str][0] == str && r[0] == Text(chars) && [r][0] == r && [f][0] == f && [v][0] == v;
    assert !StringsFit(str, r[0], false);
    assert !AllStringsFit([str], r, false);
    assert !StringsFit(f, v, true);
  }

  // ---------- A length member wider than its DATA_LEN ----------

  function Short100(): Field { Field(1, None, Counted(0, 1), 100, 1, 4, Basic(Unsigned1)) }

  function ShortTable(): seq<Elem> {
    [Elem(DataLen, 1, 1, NoArray, 1, 0, []), Elem(Unsigned1, 100, 1, VarLenArray, 1, 4, []), End]
  }

  /** Its length member says 300. */
  predicate Says300(mem: seq<u8>) {
    |mem| == 104 && mem[..4] == [44, 1, 0, 0]
  }

  lemma {:induction false} ShortDescribed()
    ensures Represents(ShortTable(), [Short100()]) && DistinctTypes(ShortTable(), [Short100()])
    ensures WfFields([Short100()], 104, true) && Separate([Short100()])
  {
    var f, ei := Short100(), ShortTable();
    assert [f][0] == f && Pos([f], 0) == 0 && Pos([f], 1) == 2;
    assert GroupAt(ei, 0, f);
    assert FieldAt(ei, [f], 0);
    SpanOfBytes(100);
    assert WfField(f, 104, true);
    assert SeparateField(f);
  }

  /** The program means 300 elements, more than there is room for; the encoder sends 44. */
  lemma {:induction false} ShortRead(mem: seq<u8>)
    requires Says300(mem)
    ensures LoadAll([Short100()], mem, 0, 1, Program) == [Invalid(300)]
    ensures LoadAll([Short100()], mem, 0, 1, Codec) == [Raw(44, mem[4..48])]
  {
    var f := Short100();
    SpanOfBytes(44);
    Counts300(mem);
    LoadValueIs(f, mem, 0, Codec);
    LoadValueIs(f, mem, 0, Program);
    OneMember(f, mem, 0, Codec);
    OneMember(f, mem, 0, Program);
  }

  lemma {:induction false} Counts300(mem: seq<u8>)
    requires Says300(mem)
    ensures CountIn(Short100(), mem, 0, Codec) == 44 && CountIn(Short100(), mem, 0, Program) == 300
  {
    assert mem[0..4] == [44, 1, 0, 0] && mem[0..1] == mem[..4][..1] == [44];
    Le44();
  }

  lemma {:induction false} Le44()
    ensures Le([44]) == 44 && Le([44, 1, 0, 0]) == 300
  {
    assert Le([]) == 0 && [44][1..] == [];
    assert [44, 1, 0, 0][1..] == [1, 0, 0] && [1, 0, 0][1..] == [0, 0] && [0, 0][1..] == [0] && [0][1..] == [];
  }

  lemma {:induction false} ShortSent(mem: seq<u8>)
    requires Says300(mem)
    ensures Buildable(Some(mem), [Short100()], 64) && |BodyOf(mem, [Short100()])| == 48
  {
    var f, v := Short100(), Raw(44, mem[4..48]);
    ShortRead(mem);
    ShortDescribed();
    assert [f][0] == f && [v][0] == v && Wire([f], [v], 0, true) == [];
    assert |Payload(f, v, true)| == 45;
    assert |Wire([f], [v], 1, true)| == 48;
    assert AllSendable([f], [v]);
    FittingEncodes([f], 104, mem, [v], 57);
  }

  lemma {:induction false} ShortClean(mem: seq<u8>)
    requires Says300(mem)
    ensures CountsOk([Short100()], mem) && StringsOk([Short100()], mem)
  {
    var f, v := Short100(), Raw(44, mem[4..48]);
    ShortRead(mem);
    assert [f][0] == f && [v][0] == v;
    assert Present([v], 0) == [];
    assert Present([v], 1) == [Known(0, v)];
    assert CleanItem([f], Known(0, v), 0) && Clean([f], [Known(0, v)], 1);
    assert StringsFit(f, v, true);
  }

  /** A length member of 300 is sent as 44 and received as 44, with no error anywhere. */
  method ThreeHundred(cStruct: seq<u8>) returns (n: int, hrc: int, d: int, out: array<u8>)
    requires Says300(cStruct)
    ensures n == 55 && hrc == 0 && d == 48 && fresh(out)
    ensures LoadAll([Short100()], out[..], 0, 1, Program) == [Raw(44, cStruct[4..48])]
    ensures LoadAll([Short100()], cStruct, 0, 1, Program) == [Invalid(300)] && !AllCountsFit([Short100()], cStruct, 0)
  {
    ghost var fs := [Short100()];
    ShortDescribed();
    ShortRead(cStruct);
    ShortSent(cStruct);
    ShortClean(cStruct);
    AllCountsFitIff(fs, 104, true, cStruct, 0);
    out := new u8[104](_ => 0);
    n, hrc, d := SendFrom(cStruct, ShortTable(), out, fs, 104);
  }

  /** A round trip through a packet of 64 bytes. */
  method SendFrom(cStruct: seq<u8>, ei: seq<Elem>, out: array<u8>, ghost fs: seq<Field>, ghost size: nat)
    returns (n: int, hrc: int, d: int)
    requires Sound(ei, fs, size, cStruct) && Buildable(Some(cStruct), fs, 64) && |BodyOf(cStruct, fs)| <= 57
    requires size <= out.Length && FlagsClear(fs, out[..]) && CountsOk(fs, cStruct) && StringsOk(fs, cStruct)
    modifies out
    ensures n == HeaderSize + |BodyOf(cStruct, fs)| <= 64 && hrc == 0 && d == n - HeaderSize
    ensures Arrived(d, out[..], cStruct, fs)
  {
    var pkt := new Packet(64);
    BuiltInFull(Some(cStruct), fs, 64);
    var id, txn;
    n, hrc, id, d, txn := RoundTrip(pkt, 0, 1, 1, cStruct, ei, out, fs, size);
  }

  // ---------- The decoder's leftover length ----------

  /** An array of 256 bytes, and a counted array. */
  function LongThenCounted(): seq<Field> {
    [Field(1, None, Fixed, 256, 1, 0, Basic(Unsigned1)), Field(2, None, Counted(256, 1), 10, 1, 260, Basic(Unsigned1))]
  }

  function LongThenCountedTable(): seq<Elem> {
    [Elem(Unsigned1, 256, 1, StaticArray, 1, 0, []), Elem(DataLen, 1, 1, NoArray, 2, 256, []),
     Elem(Unsigned1, 10, 1, VarLenArray, 2, 260, []), End]
  }

  lemma {:induction false} LongDescribed()
    ensures Represents(LongThenCountedTable(), LongThenCounted())
    ensures DistinctTypes(LongThenCountedTable(), LongThenCounted())
  {
    var ei, fs := LongThenCountedTable(), LongThenCounted();
    assert Pos(fs, 0) == 0 && Pos(fs, 1) == 1 && Pos(fs, 2) == 3;
    assert GroupAt(ei, 0, fs[0]) && GroupAt(ei, 1, fs[1]);
    assert FieldAt(ei, fs, 0) && FieldAt(ei, fs, 1);
  }

  lemma {:induction false} LongLaid()
    ensures var fs := LongThenCounted(); WfFields(fs, 270, true) && Separate(fs) && Tight(fs)
  {
    var fs := LongThenCounted();
    SpanOfBytes(256);
    SpanOfBytes(10);
    assert WfField(fs[0], 270, true) && WfField(fs[1], 270, true);
    assert SeparateField(fs[0]) && SeparateField(fs[1]);
    assert Pow256(1) == 256 * Pow256(0);
    assert TightField(fs[0]) && TightField(fs[1]);
  }

  function LongItem(bytes: seq<u8>): Item { Known(0, Raw(256, bytes)) }

  function CountedItem(): Item { Known(1, Raw(1, [7])) }

  /** Decodable with the counted array first, and not in the order of the table. */
  lemma {:induction false} LongBeforeCount(bytes: seq<u8>)
    requires |bytes| == 256
    ensures var fs, long, counted := LongThenCounted(), LongItem(bytes), CountedItem();
            && OkItem(fs, long, true) && OkItem(fs, counted, true) && ItemFits(fs, long) && ItemFits(fs, counted)
            && !Clean(fs, [long, counted], 2) && Clean(fs, [counted, long], 2)
  {
    var fs, long, counted := LongThenCounted(), LongItem(bytes), CountedItem();
    SpanOfBytes(256);
    SpanOfBytes(1);
    assert Pow256(1) == 256 * Pow256(0);
    assert Stale(fs, [long, counted], 1) == 256;
    assert !CleanItem(fs, counted, 256) && CleanItem(fs, counted, 0) && CleanItem(fs, long, 1);
    assert Clean(fs, [counted, long], 1);
  }

  lemma {:induction false} TwoItems(fs: seq<Field>, a: Item, b: Item)
    requires OkItem(fs, a, true) && OkItem(fs, b, true) && a.Known? && b.Known? && ItemFits(fs, a) && ItemFits(fs, b)
    ensures OkItems(fs, [a, b], 2, true) && Tolerated([a, b], 2) && ItemsFit(fs, [a, b], 2)
  {
    var items := [a, b];
    assert OkItems(fs, items, 0, true) && OkItems(fs, items, 1, true);
    assert Tolerated(items, 0) && Tolerated(items, 1);
    assert ItemsFit(fs, items, 0) && ItemsFit(fs, items, 1);
  }

  /** The message of two items in a buffer of its own. */
  function TwoTask(a: Item, b: Item, mem: seq<u8>): Task {
    var inb := ScriptBytes(LongThenCounted(), [a, b], 2, true);
    Task(LongThenCounted(), 270, 0, inb, 0, |inb|, [a, b], mem)
  }

  /** Refused in the order of the table, although both orders are well framed: 257 elements are counted for one. */
  method LongArrayBeforeCount(bytes: seq<u8>, mem: array<u8>, other: array<u8>) returns (refused: int, accepted: int)
    requires |bytes| == 256 && mem.Length >= 270 && other.Length >= 270 && mem != other
    modifies mem, other
    ensures refused < 0 && accepted == |ScriptBytes(LongThenCounted(), [CountedItem(), LongItem(bytes)], 2, true)|
  {
    LongBeforeCount(bytes);
    refused := DecodeTwo(LongItem(bytes), CountedItem(), mem);
    accepted := DecodeTwo(CountedItem(), LongItem(bytes), other);
  }

  method DecodeTwo(a: Item, b: Item, mem: array<u8>) returns (rc: int)
    requires var fs := LongThenCounted();
             OkItem(fs, a, true) && OkItem(fs, b, true) && a.Known? && b.Known? && ItemFits(fs, a) && ItemFits(fs, b)
    requires mem.Length >= 270
    modifies mem
    ensures Clean(LongThenCounted(), [a, b], 2) ==> rc == |ScriptBytes(LongThenCounted(), [a, b], 2, true)|
    ensures !Clean(LongThenCounted(), [a, b], 2) ==> rc < 0
  {
    ghost var fs := LongThenCounted();
    LongDescribed();
    LongLaid();
    TwoItems(fs, a, b);
    var inb := ScriptBytes(LongThenCounted(), [a, b], 2, true);
    ghost var j := TwoTask(a, b, mem[..]);
    MessageRuns(j);
    rc := D.Decode(LongThenCountedTable(), mem, 0, inb, 0, |inb|, 1, fs, 270, 0);
  }

  // ---------- Types of no field ----------

  lemma {:induction false} ByteDescribed()
    ensures Represents([ByteRow(1, 0), End], [Byte1(1, 0)]) && DistinctTypes([ByteRow(1, 0), End], [Byte1(1, 0)])
    ensures WfFields([Byte1(1, 0)], 1, true)
  {
    OneRow(ByteRow(1, 0), Byte1(1, 0));
    SpanOfBytes(1);
    assert [Byte1(1, 0)][0] == Byte1(1, 0) && WfField(Byte1(1, 0), 1, true);
  }

  /** A message of one empty TLV of the given type, for a table with type 1 only. */
  method DecodeEmpty(tlv: u8, mem: array<u8>) returns (rc: int)
    requires tlv != 1 && mem.Length >= 1
    modifies mem
    ensures rc == if tlv < 16 then -22 else 3
    ensures mem[..] == old(mem[..])
  {
    var inb: seq<u8> := [tlv, 0, 0];
    ByteDescribed();
    UnknownMessage([Byte1(1, 0)], mem[..], 0, inb, 0, 3);
    rc := D.Decode([ByteRow(1, 0), End], mem, 0, inb, 0, 3, 1, [Byte1(1, 0)], 1, 0);
  }

  /** The types around the limit: 0x0f is refused, and 0x10 is skipped. */
  method FifteenAndSixteen(mem: array<u8>) returns (refused: int, skipped: int)
    requires mem.Length >= 1
    modifies mem
    ensures refused == -22 && skipped == 3
  {
    refused := DecodeEmpty(0x0f, mem);
    skipped := DecodeEmpty(0x10, mem);
  }
}
