/**
 What the encoder takes from the described struct, puts on the wire and refuses, field by field, said in terms of the
 bytes of the struct.
 */
module QmiSent {
  import opened Bytes
  import opened QmiDescriptor
  import opened QmiValue
  import opened QmiAccept

  /** The bytes of the struct from p on, as a number, least significant first. */
  function WordAt(mem: seq<u8>, p: nat, n: nat): nat
    requires p + n <= |mem|
    decreases n
  {
    if n == 0 then 0 else var lo: int := mem[p]; lo + 256 * WordAt(mem, p + 1, n - 1)
  }

  lemma {:induction false} WordIsLe(mem: seq<u8>, p: nat, n: nat)
    requires p + n <= |mem|
    ensures WordAt(mem, p, n) == Le(Peek(mem, p, n))
    decreases n
  {
    if n > 0 {
      WordIsLe(mem, p + 1, n - 1);
      assert mem[p..p + n][1..] == mem[p + 1..p + n];
      assert Peek(mem, p, n)[1..] == Peek(mem, p + 1, n - 1);
    }
  }

  // ---------- What is read from the struct ----------

  /** An optional field is left out exactly when the byte of its flag is zero. */
  lemma {:induction false} LeftOut(f: Field, size: nat, top: bool, mem: seq<u8>, base: nat, r: Reader)
    requires WfField(f, size, top) && base + size <= |mem|
    ensures Load(f, mem, base, r).Absent? <==> f.flag.Some? && mem[base + f.flag.value] == 0
  {
    LoadValueIs(f, mem, base, r);
    if f.flag.Some? {
      assert Peek(mem, base + f.flag.value, 1) == mem[base + f.flag.value..base + f.flag.value + 1];
    }
  }

  /** How many elements a field has: the low bytes of its length member, as many as the table says. */
  function Elements(f: Field, mem: seq<u8>, base: nat): nat
    requires f.count.Counted? ==> base + f.count.lenOff + f.count.lenSize <= |mem|
  {
    match f.count
    case One => 1
    case Fixed => f.elemLen
    case Counted(off, size) => WordAt(mem, base + off, size)
  }

  /** What is sent of a field: it is neither left out nor has more elements than the table says. */
  ghost predicate Sent(f: Field, size: nat, top: bool, mem: seq<u8>, base: nat, n: nat) {
    && WfField(f, size, top) && base + size <= |mem|
    && (f.flag.Some? ==> mem[base + f.flag.value] != 0)
    && n == Elements(f, mem, base) && (f.count.Counted? ==> n <= f.elemLen)
  }

  lemma {:induction false} SentValue(f: Field, size: nat, top: bool, mem: seq<u8>, base: nat, n: nat)
    requires Sent(f, size, top, mem, base, n)
    ensures Load(f, mem, base, Codec) == LoadBody(f, mem, base, n, Codec)
  {
    LoadValueIs(f, mem, base, Codec);
    if f.count.Counted? {
      WordIsLe(mem, base + f.count.lenOff, f.count.lenSize);
    }
    if f.flag.Some? {
      assert Peek(mem, base + f.flag.value, 1) == mem[base + f.flag.value..base + f.flag.value + 1];
    }
  }

  /** A count above the table's maximum cannot be sent. */
  lemma {:induction false} TooMany(f: Field, size: nat, top: bool, mem: seq<u8>, base: nat)
    requires WfField(f, size, top) && base + size <= |mem| && (f.flag.Some? ==> mem[base + f.flag.value] != 0)
    requires f.count.Counted? && f.elemLen < Elements(f, mem, base)
    ensures !Sendable(f, Load(f, mem, base, Codec))
  {
    LoadValueIs(f, mem, base, Codec);
    WordIsLe(mem, base + f.count.lenOff, f.count.lenSize);
    if f.flag.Some? {
      assert Peek(mem, base + f.flag.value, 1) == mem[base + f.flag.value..base + f.flag.value + 1];
    }
  }

  /** The count on the wire: its low byte, or two of them. */
  function CountBytes(f: Field, n: nat): seq<u8> {
    if !f.count.Counted? then [] else if f.count.lenSize == 1 then [n % 256] else [n % 256, n / 256 % 256]
  }

  lemma {:induction false} LowBytes(n: nat)
    ensures Low(n, 1) == [n % 256] && Low(n, 2) == [n % 256, n / 256 % 256]
  {
    assert Low(n, 1) == [n % 256] + Low(n / 256, 0);
    assert Low(n / 256, 1) == [n / 256 % 256] + Low(n / 256 / 256, 0);
  }

  // ---------- What is put on the wire ----------

  /** Type and length, when there is a header. */
  function Front(tlv: u8, n: nat, top: bool): seq<u8> {
    if top then [tlv, n % 256, n / 256 % 256] else []
  }

  lemma {:induction false} PieceIs(f: Field, v: Val, top: bool, b: seq<u8>)
    requires !v.Absent? && b == CountBytes(f, NumElems(v)) + Body(f, v, top)
    ensures Piece(f, v, top) == Front(f.tlv, |b|, top) + b
  {
    LowBytes(NumElems(v));
    HeaderBytes(f.tlv, |b|);
    assert Payload(f, v, top) == b;
    assert Front(f.tlv, |b|, false) + b == b;
  }

  /** Elements of a basic type: their number, if it is sent, and their bytes in the struct. */
  lemma {:induction false} BasicSent(f: Field, size: nat, top: bool, mem: seq<u8>, base: nat, n: nat, b: seq<u8>)
    requires Sent(f, size, top, mem, base, n) && f.kind.Basic? && base + f.off + n * f.elemSize <= |mem|
    requires b == CountBytes(f, n) + mem[base + f.off..base + f.off + n * f.elemSize]
    ensures var v := Load(f, mem, base, Codec);
            && Sendable(f, v) && Piece(f, v, top) == Front(f.tlv, |b|, top) + b
            && (forall used: nat, outLen: nat ::
                  AcceptsField(f, v, top, used, outLen) <==> used + 3 + |b| <= outLen)
  {
    var v, bytes := Load(f, mem, base, Codec), mem[base + f.off..base + f.off + n * f.elemSize];
    SentValue(f, size, top, mem, base, n);
    LoadValueIs(f, mem, base, Codec);
    SpanIsProduct(n, f.elemSize);
    assert Body(f, v, top) == bytes && NumElems(v) == n;
    LowBytes(n);
    PieceIs(f, v, top, b);
    assert |CountPrefix(f, v)| == |CountBytes(f, n)|;
  }

  /** The string in the struct: the bytes before the first zero byte. */
  predicate StringAt(mem: seq<u8>, p: nat, chars: seq<u8>) {
    p + |chars| < |mem| && mem[p..p + |chars|] == chars && 0 !in chars && mem[p + |chars|] == 0
  }

  lemma {:induction false} StrLenIs(mem: seq<u8>, p: nat, chars: seq<u8>)
    requires StringAt(mem, p, chars)
    ensures StrLen(mem, p) == |chars| && Peek(mem, p, |chars|) == chars
  {
    forall i | p <= i < p + |chars| ensures mem[i] != 0 {
      assert mem[p..p + |chars|][i - p] in chars;
    }
  }

  /**
   A string cannot be sent exactly when it is longer than the table says. It is sent without its terminator, at the top
   level as it is and inside a struct behind its length. The room left, taken as 32 bits, has to be that, and three
   bytes more at the top level.
   */
  lemma {:induction false} StringSent(f: Field, size: nat, top: bool, mem: seq<u8>, base: nat, chars: seq<u8>)
    requires Sent(f, size, top, mem, base, 1) && f.kind.Str? && StringAt(mem, base + f.off, chars)
    ensures var v, k := Load(f, mem, base, Codec), |chars|;
            var prefix := if top then [] else if f.elemLen <= 256 then [k % 256] else [k % 256, k / 256 % 256];
            && (Sendable(f, v) <==> k <= f.elemLen)
            && (k <= f.elemLen ==> Piece(f, v, top) == Front(f.tlv, k, top) + (prefix + chars))
            && (k <= f.elemLen ==> forall used: nat, outLen: nat :: AcceptsField(f, v, top, used, outLen) <==>
                  (if top then 3 else |prefix|) + k <= (outLen - used) % 0x1_0000_0000)
  {
    var v, k := Load(f, mem, base, Codec), |chars|;
    SentValue(f, size, top, mem, base, 1);
    StrLenIs(mem, base + f.off, chars);
    assert v == if k > f.elemLen then Invalid(1) else Text(chars);
    if k <= f.elemLen {
      LowBytes(k);
      var b := CountBytes(f, 1) + Body(f, v, top);
      PieceIs(f, v, top, b);
    }
  }

  /** Structs: their number, if it is sent, and one after the other what their members come to. */
  lemma {:induction false} StructSent(f: Field, size: nat, top: bool, mem: seq<u8>, base: nat, n: nat,
                                      rs: seq<seq<Val>>)
    requires Sent(f, size, top, mem, base, n) && f.kind.Struct? && |rs| == n
    requires forall i :: 0 <= i < n ==>
               rs[i] == LoadAll(f.kind.sub, mem, base + f.off + i * f.elemSize, |f.kind.sub|, Codec)
    ensures var v, sub := Load(f, mem, base, Codec), f.kind.sub;
            var b := CountBytes(f, n) + Flat(Members(sub, rs));
            && v == Recs(rs) && Piece(f, v, top) == Front(f.tlv, |b|, top) + b
            && (Sendable(f, v) <==> forall i :: 0 <= i < n ==> |rs[i]| == |sub| && AllSendable(sub, rs[i]))
  {
    var v, sub := Load(f, mem, base, Codec), f.kind.sub;
    var got := LoadRecs(sub, mem, base + f.off, f.elemSize, n, Codec);
    SentValue(f, size, top, mem, base, n);
    LoadValueIs(f, mem, base, Codec);
    forall i | 0 <= i < n ensures got[i] == rs[i] {
      LoadRecsAt(sub, mem, base + f.off, f.elemSize, n, i, Codec);
      SpanIsProduct(i, f.elemSize);
    }
    assert got == rs;
    RecsFlat(sub, rs, n);
    assert Members(sub, rs)[..n] == Members(sub, rs);
    PieceIs(f, v, top, CountBytes(f, n) + Body(f, v, top));
  }

  /** One after the other. */
  function Flat(parts: seq<seq<u8>>): seq<u8> {
    if parts == [] then [] else parts[0] + Flat(parts[1..])
  }

  lemma {:induction false} FlatPlus(parts: seq<seq<u8>>, last: seq<u8>)
    ensures Flat(parts + [last]) == Flat(parts) + last
  {
    if parts == [] {
      assert Flat([last]) == last + Flat([]);
    } else {
      assert (parts + [last])[1..] == parts[1..] + [last];
      FlatPlus(parts[1..], last);
    }
  }

  /** What the members of each struct come to. */
  function Members(sub: seq<Field>, rs: seq<seq<Val>>): (parts: seq<seq<u8>>)
    ensures |parts| == |rs|
  {
    seq(|rs|, i requires 0 <= i < |rs| => if |rs[i]| == |sub| then Wire(sub, rs[i], |sub|, false) else [])
  }

  lemma {:induction false} RecsFlat(sub: seq<Field>, rs: seq<seq<Val>>, n: nat)
    requires n <= |rs|
    ensures WireRecs(sub, rs, n) == Flat(Members(sub, rs)[..n])
  {
    if n > 0 {
      RecsFlat(sub, rs, n - 1);
      FlatPlus(Members(sub, rs)[..n - 1], Members(sub, rs)[n - 1]);
      assert Members(sub, rs)[..n] == Members(sub, rs)[..n - 1] + [Members(sub, rs)[n - 1]];
    }
  }

  /** Fields go out in the order of the table. */
  lemma {:induction false} FieldsSent(fs: seq<Field>, vs: seq<Val>, n: nat, top: bool)
    requires n <= |fs| && n <= |vs|
    ensures Wire(fs, vs, n, top) == Flat(seq(n, g requires 0 <= g < n => Piece(fs[g], vs[g], top)))
  {
    if n > 0 {
      var parts := seq(n - 1, g requires 0 <= g < n - 1 => Piece(fs[g], vs[g], top));
      FieldsSent(fs, vs, n - 1, top);
      FlatPlus(parts, Piece(fs[n - 1], vs[n - 1], top));
      assert seq(n, g requires 0 <= g < n => Piece(fs[g], vs[g], top)) == parts + [Piece(fs[n - 1], vs[n - 1], top)];
    }
  }

  /** A field passes its checks behind what the fields before it come to. */
  predicate FieldFits(fs: seq<Field>, vs: seq<Val>, g: nat, top: bool, outLen: nat) {
    g < |fs| && g < |vs| && AcceptsField(fs[g], vs[g], top, |Wire(fs, vs, g, top)|, outLen)
  }

  /** The room checks are made field by field. */
  lemma {:induction false} FieldsRoom(fs: seq<Field>, vs: seq<Val>, n: nat, top: bool, outLen: nat)
    requires n <= |fs| && n <= |vs|
    ensures AcceptsVals(fs, vs, n, top, outLen) <==> forall g: nat :: g < n ==> FieldFits(fs, vs, g, top, outLen)
  {
    if n > 0 {
      FieldsRoom(fs, vs, n - 1, top, outLen);
      FieldsStep(fs, vs, n, top, outLen);
    }
  }

  lemma {:induction false} FieldsStep(fs: seq<Field>, vs: seq<Val>, n: nat, top: bool, outLen: nat)
    requires 0 < n <= |fs| && n <= |vs|
    ensures AcceptsVals(fs, vs, n, top, outLen) <==>
              AcceptsVals(fs, vs, n - 1, top, outLen) && FieldFits(fs, vs, n - 1, top, outLen)
  {
  }

  /** A struct passes its checks with the room that is left behind the structs before it, taken as 32 bits. */
  predicate StructFits(sub: seq<Field>, rs: seq<seq<Val>>, i: nat, left: nat) {
    && i < |rs| && |rs[i]| == |sub|
    && AcceptsVals(sub, rs[i], |sub|, false, (left - |WireRecs(sub, rs, i)|) % 0x1_0000_0000)
  }

  /** Structs are checked one by one behind their count, and the count with three bytes to spare. */
  lemma {:induction false} StructRoom(f: Field, rs: seq<seq<Val>>, top: bool, used: nat, outLen: nat)
    requires f.kind.Struct?
    ensures var w := |CountBytes(f, |rs|)|;
            var left: nat := (outLen - used - w) % 0x1_0000_0000;
            AcceptsField(f, Recs(rs), top, used, outLen) <==>
              ((f.count.Counted? ==> used + w + 3 <= outLen) &&
               forall i: nat :: i < |rs| ==> StructFits(f.kind.sub, rs, i, left))
  {
    LowBytes(|rs|);
    assert |CountPrefix(f, Recs(rs))| == |CountBytes(f, |rs|)|;
    StructsRoom(f.kind.sub, rs, |rs|, Left(outLen, used + |CountPrefix(f, Recs(rs))|));
  }

  lemma {:induction false} StructsRoom(sub: seq<Field>, rs: seq<seq<Val>>, n: nat, left: nat)
    requires n <= |rs|
    ensures AcceptsRecs(sub, rs, n, left) <==> forall i: nat :: i < n ==> StructFits(sub, rs, i, left)
  {
    if n > 0 {
      StructsRoom(sub, rs, n - 1, left);
      StructsStep(sub, rs, n, left);
    }
  }

  lemma {:induction false} StructsStep(sub: seq<Field>, rs: seq<seq<Val>>, n: nat, left: nat)
    requires 0 < n <= |rs|
    ensures AcceptsRecs(sub, rs, n, left) <==> AcceptsRecs(sub, rs, n - 1, left) && StructFits(sub, rs, n - 1, left)
  {
  }
}
