/**
 What a C struct means under a message description (Load), and the reference wire format (Wire) that the encoder and
 the decoder are proved against.
 */
module QmiValue {
  import opened Bytes
  import opened QmiDescriptor

  /**
   The value of a field: not sent, impossible to send (a length over the field's capacity), elements of a basic type,
   the characters of a string, or the members of each struct element.
   */
  datatype Val =
    | Absent
    | Invalid(n: nat)
    | Raw(count: nat, bytes: seq<u8>)
    | Text(chars: seq<u8>)
    | Recs(recs: seq<seq<Val>>)

  /**
   Who reads a length member: the encoder through its low-order elem_size bytes, the program as the four-byte word it
   is.
   */
  datatype Reader = Codec | Program

  function NumElems(v: Val): nat {
    match v
    case Absent => 0
    case Invalid(n) => n
    case Raw(n, _) => n
    case Text(_) => 1
    case Recs(rs) => |rs|
  }

  // ---------- Reading a struct ----------

  /** Length of the string at p: the bytes before the first zero byte. */
  function StrLen(mem: seq<u8>, p: nat): (n: nat)
    ensures p + n <= |mem| || n == 0
    ensures forall i :: p <= i < p + n && i < |mem| ==> mem[i] != 0
    ensures p + n < |mem| ==> mem[p + n] == 0
    decreases |mem| - p
  {
    if p >= |mem| || mem[p] == 0 then 0 else 1 + StrLen(mem, p + 1)
  }

  function CountIn(f: Field, mem: seq<u8>, base: nat, r: Reader): nat {
    match f.count
    case One => 1
    case Fixed => f.elemLen
    case Counted(lo, size) => Le(Peek(mem, base + lo, if r.Codec? then size else 4))
  }

  /** The n elements of a field, n within its capacity. */
  function LoadBody(f: Field, mem: seq<u8>, base: nat, n: nat, r: Reader): Val
    decreases f, 0
  {
    match f.kind
    case Basic(_) => Raw(n, Peek(mem, base + f.off, Span(n, f.elemSize)))
    case Str =>
      var k := StrLen(mem, base + f.off);
      if k > f.elemLen then Invalid(1) else Text(Peek(mem, base + f.off, k))
    case Struct(sub) => Recs(LoadRecs(sub, mem, base + f.off, f.elemSize, n, r))
  }

  function LoadValue(f: Field, mem: seq<u8>, base: nat, r: Reader): Val
    decreases f, 1
  {
    var n := CountIn(f, mem, base, r);
    if n > Capacity(f) then Invalid(n) else LoadBody(f, mem, base, n, r)
  }

  function Load(f: Field, mem: seq<u8>, base: nat, r: Reader): Val
    decreases f, 2
  {
    if f.flag.Some? && Peek(mem, base + f.flag.value, 1)[0] == 0 then Absent else LoadValue(f, mem, base, r)
  }

  /** The first g fields of the struct at base. */
  function LoadAll(fs: seq<Field>, mem: seq<u8>, base: nat, g: nat, r: Reader): (vs: seq<Val>)
    requires g <= |fs|
    ensures |vs| == g
    decreases fs, g
  {
    if g == 0 then [] else LoadAll(fs, mem, base, g - 1, r) + [Load(fs[g - 1], mem, base, r)]
  }

  /** The first n structs of an array of structs at p. */
  function LoadRecs(fs: seq<Field>, mem: seq<u8>, p: nat, size: nat, n: nat, r: Reader): (rs: seq<seq<Val>>)
    ensures |rs| == n
    ensures forall i :: 0 <= i < n ==> |rs[i]| == |fs|
    decreases fs, |fs| + 1, n
  {
    if n == 0 then [] else LoadRecs(fs, mem, p, size, n - 1, r) + [LoadAll(fs, mem, p + Span(n - 1, size), |fs|, r)]
  }

  lemma {:induction false} LoadValueIs(f: Field, mem: seq<u8>, base: nat, r: Reader)
    ensures var n := CountIn(f, mem, base, r);
            LoadValue(f, mem, base, r) == if n > Capacity(f) then Invalid(n) else LoadBody(f, mem, base, n, r)
    ensures forall n :: !f.kind.Str? ==> NumElems(LoadBody(f, mem, base, n, r)) == n
    ensures f.kind.Basic? ==> forall n ::
            LoadBody(f, mem, base, n, r) == Raw(n, Peek(mem, base + f.off, Span(n, f.elemSize)))
    ensures f.kind.Struct? ==> forall n ::
            LoadBody(f, mem, base, n, r) == Recs(LoadRecs(f.kind.sub, mem, base + f.off, f.elemSize, n, r))
  {
  }

  lemma {:induction false} LoadAllAt(fs: seq<Field>, mem: seq<u8>, base: nat, n: nat, g: nat, r: Reader)
    requires g < n <= |fs|
    ensures LoadAll(fs, mem, base, n, r)[g] == Load(fs[g], mem, base, r)
    decreases n
  {
    if g < n - 1 {
      LoadAllAt(fs, mem, base, n - 1, g, r);
    }
  }

  lemma {:induction false} LoadRecsAt(fs: seq<Field>, mem: seq<u8>, p: nat, size: nat, n: nat, i: nat, r: Reader)
    requires i < n
    ensures LoadRecs(fs, mem, p, size, n, r)[i] == LoadAll(fs, mem, p + Span(i, size), |fs|, r)
    decreases n
  {
    if i < n - 1 {
      LoadRecsAt(fs, mem, p, size, n - 1, i, r);
    }
  }

  // ---------- The wire format ----------

  /** The number of elements, sent in front of a counted field. */
  function CountPrefix(f: Field, v: Val): seq<u8> {
    if f.count.Counted? then Low(NumElems(v), LenWidth(f)) else []
  }

  /** A string is delimited by its TLV at the top level, and by a length of its own inside a struct. */
  function StrBody(f: Field, chars: seq<u8>, top: bool): seq<u8> {
    (if top then [] else Low(|chars|, StrWidth(f))) + chars
  }

  function Body(f: Field, v: Val, top: bool): seq<u8>
    decreases f, 0
  {
    match f.kind
    case Basic(_) => if v.Raw? then v.bytes else []
    case Str => if v.Text? then StrBody(f, v.chars, top) else []
    case Struct(sub) => if v.Recs? then WireRecs(sub, v.recs, |v.recs|) else []
  }

  function Payload(f: Field, v: Val, top: bool): seq<u8>
    decreases f, 1
  {
    CountPrefix(f, v) + Body(f, v, top)
  }

  /** Type and length in front of a payload. */
  function Header(tlv: u8, n: nat): (h: seq<u8>)
    ensures |h| == 3
  {
    [tlv] + Low(n, 2)
  }

  lemma {:induction false} HeaderBytes(tlv: u8, n: nat)
    ensures Header(tlv, n) == [tlv, n % 256, n / 256 % 256]
  {
    assert Low(n / 256, 1) == [n / 256 % 256] + Low(n / 256 / 256, 0);
  }

  function Tlv(tlv: u8, payload: seq<u8>): seq<u8> {
    Header(tlv, |payload|) + payload
  }

  /** A field on the wire: nothing when absent, framed as a TLV at the top level, and bare inside a struct. */
  function Piece(f: Field, v: Val, top: bool): seq<u8>
    decreases f, 2
  {
    if v.Absent? then [] else if top then Tlv(f.tlv, Payload(f, v, top)) else Payload(f, v, top)
  }

  function Wire(fs: seq<Field>, vs: seq<Val>, g: nat, top: bool): seq<u8>
    requires g <= |fs| && g <= |vs|
    decreases fs, g
  {
    if g == 0 then [] else Wire(fs, vs, g - 1, top) + Piece(fs[g - 1], vs[g - 1], top)
  }

  function WireRecs(fs: seq<Field>, rs: seq<seq<Val>>, n: nat): seq<u8>
    requires n <= |rs|
    decreases fs, |fs| + 1, n
  {
    if n == 0 then [] else
    WireRecs(fs, rs, n - 1) + (if |rs[n - 1]| == |fs| then Wire(fs, rs[n - 1], |fs|, false) else [])
  }

  lemma {:induction false} WireMono(fs: seq<Field>, vs: seq<Val>, g: nat, h: nat, top: bool)
    requires g <= h <= |fs| && h <= |vs|
    ensures |Wire(fs, vs, g, top)| <= |Wire(fs, vs, h, top)|
    ensures g < h ==> |Wire(fs, vs, g, top)| + |Piece(fs[g], vs[g], top)| <= |Wire(fs, vs, h, top)|
    decreases h
  {
    if g < h {
      WireMono(fs, vs, g, h - 1, top);
    }
  }

  lemma {:induction false} WireStep(fs: seq<Field>, vs: seq<Val>, g: nat, top: bool)
    requires g < |fs| && g < |vs|
    ensures var pre, payload := Wire(fs, vs, g, top), Payload(fs[g], vs[g], top);
            && (vs[g].Absent? ==> Wire(fs, vs, g + 1, top) == pre)
            && (!vs[g].Absent? && top ==> Wire(fs, vs, g + 1, top) == pre + (Header(fs[g].tlv, |payload|) + payload))
            && (!vs[g].Absent? && !top ==> Wire(fs, vs, g + 1, top) == pre + payload)
  {
    var piece := Piece(fs[g], vs[g], top);
    assert Wire(fs, vs, g + 1, top) == Wire(fs, vs, g, top) + piece;
  }

  lemma {:induction false} WireRecsMono(fs: seq<Field>, rs: seq<seq<Val>>, n: nat, m: nat)
    requires n <= m <= |rs|
    ensures |WireRecs(fs, rs, n)| <= |WireRecs(fs, rs, m)|
    decreases m
  {
    if n < m {
      WireRecsMono(fs, rs, n, m - 1);
    }
  }

  lemma {:induction false} WireRecsBegins(fs: seq<Field>, rs: seq<seq<Val>>, n: nat, m: nat)
    requires n <= m <= |rs|
    ensures Begins(WireRecs(fs, rs, n), WireRecs(fs, rs, m))
    decreases m
  {
    if n < m {
      WireRecsBegins(fs, rs, n, m - 1);
      var piece := if |rs[m - 1]| == |fs| then Wire(fs, rs[m - 1], |fs|, false) else [];
      BeginsMore(WireRecs(fs, rs, n), WireRecs(fs, rs, m - 1), piece);
    }
  }

  // ---------- Values that can be sent ----------

  /** Nothing in the struct is over its field's capacity. */
  predicate Sendable(f: Field, v: Val)
    decreases f
  {
    && !v.Invalid?
    && (f.kind.Struct? && v.Recs? ==>
          forall i :: 0 <= i < |v.recs| ==> |v.recs[i]| == |f.kind.sub| && AllSendable(f.kind.sub, v.recs[i]))
  }

  predicate AllSendable(fs: seq<Field>, vs: seq<Val>)
    requires |vs| == |fs|
    decreases fs
  {
    forall g :: 0 <= g < |fs| ==> Sendable(fs[g], vs[g])
  }

  /** The first g fields can be sent. */
  predicate SendableUpTo(fs: seq<Field>, vs: seq<Val>, g: nat)
    requires g <= |fs| && g <= |vs|
  {
    g == 0 || (SendableUpTo(fs, vs, g - 1) && Sendable(fs[g - 1], vs[g - 1]))
  }

  lemma {:induction false} SendableAll(fs: seq<Field>, vs: seq<Val>, g: nat)
    requires g <= |fs| && g <= |vs|
    ensures SendableUpTo(fs, vs, g) <==> forall h :: 0 <= h < g ==> Sendable(fs[h], vs[h])
  {
    if g > 0 {
      SendableAll(fs, vs, g - 1);
    }
  }

  // ---------- Length members wider than the table says ----------

  /** The encoder and the program read the same count, at any depth; absent fields are not read. */
  predicate CountsFit(f: Field, mem: seq<u8>, base: nat)
    decreases f
  {
    (f.flag.Some? && Peek(mem, base + f.flag.value, 1)[0] == 0) ||
    var n := CountIn(f, mem, base, Codec);
    && n == CountIn(f, mem, base, Program)
    && (f.kind.Struct? && n <= Capacity(f) ==> RecsCountsFit(f.kind.sub, mem, base + f.off, f.elemSize, n))
  }

  predicate RecsCountsFit(fs: seq<Field>, mem: seq<u8>, p: nat, size: nat, n: nat)
    decreases fs, 1, n
  {
    n == 0 || (RecsCountsFit(fs, mem, p, size, n - 1) && AllCountsFit(fs, mem, p + Span(n - 1, size)))
  }

  predicate AllCountsFit(fs: seq<Field>, mem: seq<u8>, base: nat)
    decreases fs, 0
  {
    forall g :: 0 <= g < |fs| ==> CountsFit(fs[g], mem, base)
  }

  /** Exactly then they read the same values. */
  lemma {:induction false} CountsFitIff(f: Field, size: nat, top: bool, mem: seq<u8>, base: nat)
    requires WfField(f, size, top)
    ensures CountsFit(f, mem, base) <==> Load(f, mem, base, Codec) == Load(f, mem, base, Program)
    decreases f, 1
  {
    var n, m := CountIn(f, mem, base, Codec), CountIn(f, mem, base, Program);
    if !(f.flag.Some? && Peek(mem, base + f.flag.value, 1)[0] == 0) {
      LoadValueIs(f, mem, base, Codec);
      LoadValueIs(f, mem, base, Program);
      if n != m {
        CountsDiffer(f, size, top, mem, base);
      } else if n <= Capacity(f) && f.kind.Struct? {
        var p := base + f.off;
        RecsFitIff(f.kind.sub, f.elemSize, mem, p, n);
        assert LoadValue(f, mem, base, Codec) == Recs(LoadRecs(f.kind.sub, mem, p, f.elemSize, n, Codec));
        assert LoadValue(f, mem, base, Program) == Recs(LoadRecs(f.kind.sub, mem, p, f.elemSize, n, Program));
      } else if n <= Capacity(f) {
        assert LoadBody(f, mem, base, n, Codec) == LoadBody(f, mem, base, n, Program);
      }
    }
  }

  lemma {:induction false} CountsDiffer(f: Field, size: nat, top: bool, mem: seq<u8>, base: nat)
    requires WfField(f, size, top) && CountIn(f, mem, base, Codec) != CountIn(f, mem, base, Program)
    ensures LoadValue(f, mem, base, Codec) != LoadValue(f, mem, base, Program)
  {
    LoadValueIs(f, mem, base, Codec);
    LoadValueIs(f, mem, base, Program);
  }

  lemma {:induction false} RecsFitIff(fs: seq<Field>, size: nat, mem: seq<u8>, p: nat, n: nat)
    requires WfFields(fs, size, false)
    ensures RecsCountsFit(fs, mem, p, size, n) <==>
            LoadRecs(fs, mem, p, size, n, Codec) == LoadRecs(fs, mem, p, size, n, Program)
    decreases fs, |fs| + 1, n
  {
    if n > 0 {
      RecsFitIff(fs, size, mem, p, n - 1);
      AllCountsFitIff(fs, size, false, mem, p + Span(n - 1, size));
      var c, m := LoadRecs(fs, mem, p, size, n, Codec), LoadRecs(fs, mem, p, size, n, Program);
      assert c[n - 1] == LoadAll(fs, mem, p + Span(n - 1, size), |fs|, Codec);
      assert m[n - 1] == LoadAll(fs, mem, p + Span(n - 1, size), |fs|, Program);
      assert c[..n - 1] == LoadRecs(fs, mem, p, size, n - 1, Codec) &&
             m[..n - 1] == LoadRecs(fs, mem, p, size, n - 1, Program);
    }
  }

  lemma {:induction false} AllCountsFitIff(fs: seq<Field>, size: nat, top: bool, mem: seq<u8>, base: nat)
    requires WfFields(fs, size, top)
    ensures AllCountsFit(fs, mem, base) <==>
              LoadAll(fs, mem, base, |fs|, Codec) == LoadAll(fs, mem, base, |fs|, Program)
    decreases fs, |fs|
  {
    forall g | 0 <= g < |fs|
      ensures LoadAll(fs, mem, base, |fs|, Codec)[g] == Load(fs[g], mem, base, Codec)
      ensures LoadAll(fs, mem, base, |fs|, Program)[g] == Load(fs[g], mem, base, Program)
      ensures CountsFit(fs[g], mem, base) <==> Load(fs[g], mem, base, Codec) == Load(fs[g], mem, base, Program)
    {
      LoadAllAt(fs, mem, base, |fs|, g, Codec);
      LoadAllAt(fs, mem, base, |fs|, g, Program);
      assert WfField(fs[g], size, top);
      CountsFitIff(fs[g], size, top, mem, base);
    }
  }
}
