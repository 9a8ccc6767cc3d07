/**
 The descriptor tables that drive the QMI codec (struct qmi_elem_info), and the message description they stand for:
 a sequence of fields, each laid out in the table as [OPT_FLAG] [DATA_LEN] value.
 */
module QmiDescriptor {
  import opened Bytes

  datatype DataType =
    | Eoti | OptFlag | DataLen
    | Unsigned1 | Unsigned2 | Unsigned4 | Unsigned8 | Enum1 | Enum2 | Enum4
    | StructType | StringType

  datatype ArrayType = NoArray | StaticArray | VarLenArray

  /** One row of a descriptor table. */
  datatype Elem = Elem(dataType: DataType, elemLen: nat, elemSize: nat, arrayType: ArrayType,
                       tlvType: u8, offset: nat, sub: seq<Elem>)

  /** How many elements a field has: one, elemLen, or as many as a length member of the C struct says. */
  datatype Count = One | Fixed | Counted(lenOff: nat, lenSize: nat)

  datatype Kind = Basic(dataType: DataType) | Str | Struct(sub: seq<Field>)

  /** A field of a message; `flag` is the offset of its presence flag when it is optional. */
  datatype Field = Field(tlv: u8, flag: Option<nat>, count: Count, elemLen: nat, elemSize: nat, off: nat, kind: Kind)

  // ---------- Tables ----------

  predicate IsBasic(t: DataType) {
    t.Unsigned1? || t.Unsigned2? || t.Unsigned4? || t.Unsigned8? || t.Enum1? || t.Enum2? || t.Enum4?
  }

  function Rows(f: Field): nat {
    (if f.flag.Some? then 1 else 0) + (if f.count.Counted? then 1 else 0) + 1
  }

  /** Row of the table at which field g starts. */
  function Pos(fs: seq<Field>, g: nat): nat
    requires g <= |fs|
  {
    if g == 0 then 0 else Pos(fs, g - 1) + Rows(fs[g - 1])
  }

  lemma {:induction false} PosMono(fs: seq<Field>, g: nat, h: nat)
    requires g <= h <= |fs|
    ensures Pos(fs, g) + (h - g) <= Pos(fs, h)
    ensures g < h ==> Pos(fs, g) + Rows(fs[g]) <= Pos(fs, h)
    decreases h
  {
    if g < h {
      PosMono(fs, g, h - 1);
    }
  }

  predicate FlagRow(e: Elem, f: Field) {
    e.dataType == OptFlag && e.arrayType == NoArray && e.tlvType == f.tlv && f.flag == Some(e.offset)
  }

  predicate LenRow(e: Elem, f: Field) {
    e.dataType == DataLen && e.arrayType == NoArray && e.tlvType == f.tlv && f.count == Counted(e.offset, e.elemSize)
  }

  predicate ValueRow(e: Elem, f: Field) {
    && e.dataType == (match f.kind case Basic(t) => t case Str => StringType case Struct(_) => StructType)
    && e.arrayType == (match f.count case One => NoArray case Fixed => StaticArray case Counted(_, _) => VarLenArray)
    && e.elemLen == f.elemLen && e.elemSize == f.elemSize && e.tlvType == f.tlv && e.offset == f.off
  }

  /** Row p of the table starts the rows of field f. */
  predicate GroupAt(ei: seq<Elem>, p: nat, f: Field)
    decreases f
  {
    var q := p + (if f.flag.Some? then 1 else 0);
    var r := q + (if f.count.Counted? then 1 else 0);
    && r < |ei|
    && (f.flag.Some? ==> FlagRow(ei[p], f))
    && (f.count.Counted? ==> LenRow(ei[q], f))
    && ValueRow(ei[r], f)
    && (f.kind.Struct? ==> Represents(ei[r].sub, f.kind.sub))
  }

  /** The table ei describes the fields fs and ends with its only end marker. */
  predicate Represents(ei: seq<Elem>, fs: seq<Field>)
    decreases fs, 1
  {
    && |ei| == Pos(fs, |fs|) + 1
    && ei[|ei| - 1].dataType == Eoti
    && forall g {:trigger FieldAt(ei, fs, g)} :: 0 <= g < |fs| ==> FieldAt(ei, fs, g)
  }

  predicate FieldAt(ei: seq<Elem>, fs: seq<Field>, g: nat)
    requires g < |fs|
    decreases fs, 0
  {
    GroupAt(ei, Pos(fs, g), fs[g])
  }

  /**
   At the top level skipping a field means skipping rows of equal type, so types are distinct up to the end marker.
   */
  predicate DistinctTypes(ei: seq<Elem>, fs: seq<Field>) {
    && |ei| > 0
    && (forall g, h :: 0 <= g < h < |fs| ==> fs[g].tlv != fs[h].tlv)
    && (forall g :: 0 <= g < |fs| ==> fs[g].tlv != ei[|ei| - 1].tlvType)
  }

  // ---------- Layout of the described C struct ----------

  /** Width of a DATA_LEN on the wire. */
  function LenWidth(f: Field): nat {
    if f.count.Counted? && f.count.lenSize == 1 then 1 else 2
  }

  /** Width of the length prefix of a nested string. */
  function StrWidth(f: Field): nat {
    if f.elemLen <= 256 then 1 else 2
  }

  /** Largest number of elements the field has room for. */
  function Capacity(f: Field): nat {
    if f.count.One? then 1 else f.elemLen
  }

  /** Bytes of the C struct occupied by the value; a string needs one more for its terminator. */
  function Extent(f: Field): nat {
    if f.kind.Str? then f.elemLen + 1 else Span(Capacity(f), f.elemSize)
  }

  predicate WfField(f: Field, size: nat, top: bool)
    decreases f
  {
    && f.elemSize >= 1 && 1 <= f.elemLen < 0x1_0000_0000
    && (f.flag.Some? ==> top && f.flag.value < size)
    && (f.count.Counted? ==> f.count.lenSize in {1, 2, 4} && f.count.lenOff + 4 <= size)
    && f.off + Extent(f) <= size
    && match f.kind
       case Basic(t) => IsBasic(t)
       case Str => f.elemSize == 1 && f.count.One?
       case Struct(sub) => |sub| > 0 && WfFields(sub, f.elemSize, false)
  }

  /** Every field lies within a struct of `size` bytes; optional fields occur only at the top level. */
  predicate WfFields(fs: seq<Field>, size: nat, top: bool)
    decreases fs
  {
    forall g :: 0 <= g < |fs| ==> WfField(fs[g], size, top)
  }

  predicate NoStrings(fs: seq<Field>)
    decreases fs
  {
    forall g :: 0 <= g < |fs| ==> !fs[g].kind.Str? && NoNestedStrings(fs[g])
  }

  predicate NoNestedStrings(f: Field)
    decreases f
  {
    f.kind.Struct? ==> NoStrings(f.kind.sub)
  }

  /** Strings occur at most at this level, never inside the structs of the fields. */
  predicate StringsOnlyHere(fs: seq<Field>) {
    forall g :: 0 <= g < |fs| ==> NoNestedStrings(fs[g])
  }

  // ---------- Disjoint members, needed to decode into a struct ----------

  predicate InFlag(f: Field, i: int) {
    f.flag.Some? && i == f.flag.value
  }

  predicate InLen(f: Field, i: int) {
    f.count.Counted? && f.count.lenOff <= i < f.count.lenOff + 4
  }

  predicate InValue(f: Field, i: int) {
    f.off <= i < f.off + Extent(f)
  }

  /** Byte i of the struct belongs to field f. */
  predicate Owns(f: Field, i: int) {
    InFlag(f, i) || InLen(f, i) || InValue(f, i)
  }

  ghost predicate SeparateField(f: Field)
    decreases f
  {
    && (forall i {:trigger InFlag(f, i)} {:trigger InLen(f, i)} :: !(InFlag(f, i) && InLen(f, i)))
    && (forall i {:trigger InFlag(f, i)} {:trigger InValue(f, i)} :: !(InFlag(f, i) && InValue(f, i)))
    && (forall i {:trigger InLen(f, i)} {:trigger InValue(f, i)} :: !(InLen(f, i) && InValue(f, i)))
    && (f.kind.Struct? ==> Separate(f.kind.sub))
  }

  /** No byte belongs to two members, at any depth. */
  ghost predicate Separate(fs: seq<Field>)
    decreases fs
  {
    && (forall g :: 0 <= g < |fs| ==> SeparateField(fs[g]))
    && (forall g, h, i {:trigger Owns(fs[g], i), Owns(fs[h], i)} :: 0 <= g < h < |fs| ==>
        !(Owns(fs[g], i) && Owns(fs[h], i)))
  }
}
