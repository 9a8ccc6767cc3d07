/**
 Which encodings the encoder's room checks let through. The checks reserve the three bytes of the enclosing header
 except for strings inside structs, and the room left is computed in 32 bits.
 */
module QmiAccept {
  import opened Bytes
  import opened QmiDescriptor
  import opened QmiValue

  const Wrap := 0x1_0000_0000

  /** out_buf_len - encoded_bytes, as a uint32_t. */
  function Left(outLen: nat, used: nat): (left: nat)
    ensures used <= outLen < Wrap ==> left == outLen - used
    ensures outLen < used < Wrap ==> left == Wrap - (used - outLen)
  {
    (outLen - used) % Wrap
  }

  /** The room a string is checked against: inside a struct, the enclosing header is not counted. */
  predicate StringAccepted(f: Field, k: nat, top: bool, left: nat) {
    (if top then k + 3 else k + StrWidth(f)) <= left
  }

  /** The elements of a field behind `used` encoded bytes pass their checks. */
  predicate AcceptsBody(f: Field, v: Val, top: bool, used: nat, outLen: nat)
    decreases f, 0
  {
    match f.kind
    case Basic(_) => |Body(f, v, top)| + used + 3 <= outLen
    case Str => v.Text? ==> StringAccepted(f, |v.chars|, top, Left(outLen, used))
    case Struct(sub) => v.Recs? ==> AcceptsRecs(sub, v.recs, |v.recs|, Left(outLen, used))
  }

  predicate AcceptsField(f: Field, v: Val, top: bool, used: nat, outLen: nat)
    decreases f, 1
  {
    v.Absent? ||
    ((f.count.Counted? ==> LenWidth(f) + used + 3 <= outLen) &&
     AcceptsBody(f, v, top, used + |CountPrefix(f, v)|, outLen))
  }

  /** The first g fields do. */
  predicate AcceptsVals(fs: seq<Field>, vs: seq<Val>, g: nat, top: bool, outLen: nat)
    requires g <= |fs| && g <= |vs|
    decreases fs, g
  {
    g == 0 || (AcceptsVals(fs, vs, g - 1, top, outLen) &&
               AcceptsField(fs[g - 1], vs[g - 1], top, |Wire(fs, vs, g - 1, top)|, outLen))
  }

  predicate AcceptsRecs(fs: seq<Field>, rs: seq<seq<Val>>, n: nat, outLen: nat)
    requires n <= |rs|
    decreases fs, |fs| + 1, n
  {
    n == 0 ||
    (AcceptsRecs(fs, rs, n - 1, outLen) && |rs[n - 1]| == |fs| &&
     AcceptsVals(fs, rs[n - 1], |fs|, false, Left(outLen, |WireRecs(fs, rs, n - 1)|)))
  }

  lemma {:induction false} AcceptsMono(fs: seq<Field>, vs: seq<Val>, g: nat, h: nat, top: bool, outLen: nat)
    requires g <= h <= |fs| && h <= |vs| && AcceptsVals(fs, vs, h, top, outLen)
    ensures AcceptsVals(fs, vs, g, top, outLen)
    ensures g < h ==> AcceptsField(fs[g], vs[g], top, |Wire(fs, vs, g, top)|, outLen)
    decreases h
  {
    if g < h {
      AcceptsMono(fs, vs, g, h - 1, top, outLen);
    }
  }

  lemma {:induction false} AcceptsRecsAt(fs: seq<Field>, rs: seq<seq<Val>>, i: nat, n: nat, outLen: nat)
    requires i <= n <= |rs| && AcceptsRecs(fs, rs, n, outLen)
    ensures AcceptsRecs(fs, rs, i, outLen)
    ensures i < n ==> |rs[i]| == |fs| && AcceptsVals(fs, rs[i], |fs|, false, Left(outLen, |WireRecs(fs, rs, i)|))
    decreases n
  {
    if i < n {
      AcceptsRecsAt(fs, rs, i, n - 1, outLen);
    }
  }

  // ---------- The room that is asked for inside a struct ----------

  function Max(a: nat, b: nat): nat {
    if a < b then b else a
  }

  /** Three bytes behind the last count or basic element, and none behind a string. */
  function NeedBody(f: Field, v: Val): nat
    decreases f, 0
  {
    match f.kind
    case Basic(_) => |Body(f, v, false)| + 3
    case Str => |Body(f, v, false)|
    case Struct(sub) => if v.Recs? then NeedRecs(sub, v.recs, |v.recs|) else 0
  }

  function NeedField(f: Field, v: Val): nat
    decreases f, 1
  {
    if v.Absent? then 0 else Max(if f.count.Counted? then LenWidth(f) + 3 else 0, |CountPrefix(f, v)| + NeedBody(f, v))
  }

  function NeedVals(fs: seq<Field>, vs: seq<Val>, g: nat): nat
    requires g <= |fs| && g <= |vs|
    decreases fs, g
  {
    if g == 0 then 0 else Max(NeedVals(fs, vs, g - 1), |Wire(fs, vs, g - 1, false)| + NeedField(fs[g - 1], vs[g - 1]))
  }

  function NeedRecs(fs: seq<Field>, rs: seq<seq<Val>>, n: nat): nat
    requires n <= |rs|
    decreases fs, |fs| + 1, n
  {
    if n == 0 then 0
    else Max(NeedRecs(fs, rs, n - 1),
             |WireRecs(fs, rs, n - 1)| + if |rs[n - 1]| == |fs| then NeedVals(fs, rs[n - 1], |fs|) else 0)
  }

  /** A value of the field's kind, as it is read from a struct when it can be sent. */
  predicate Full(f: Field, v: Val)
    decreases f
  {
    match f.kind
    case Basic(_) => v.Raw?
    case Str => v.Text? && f.count.One?
    case Struct(sub) =>
      && v.Recs? && (f.count.Counted? || |v.recs| > 0)
      && forall i :: 0 <= i < |v.recs| ==> |v.recs[i]| == |sub| && AllFull(sub, v.recs[i])
  }

  predicate AllFull(fs: seq<Field>, vs: seq<Val>)
    requires |vs| == |fs|
    decreases fs
  {
    forall g :: 0 <= g < |fs| ==> Full(fs[g], vs[g])
  }

  /** A field asks for at least its bytes, and for at most three more. */
  lemma {:induction false} NeedBodyBounds(f: Field, v: Val)
    ensures |Body(f, v, false)| <= NeedBody(f, v) <= |Body(f, v, false)| + 3
    decreases f, 0
  {
    match f.kind
    case Basic(_) =>
    case Str =>
    case Struct(sub) =>
      if v.Recs? {
        NeedRecsBounds(sub, v.recs, |v.recs|);
      }
  }

  lemma {:induction false} NeedValsBounds(fs: seq<Field>, vs: seq<Val>, g: nat)
    requires g <= |fs| && g <= |vs|
    ensures |Wire(fs, vs, g, false)| <= NeedVals(fs, vs, g) <= |Wire(fs, vs, g, false)| + 3
    decreases fs, g
  {
    if g > 0 {
      NeedValsBounds(fs, vs, g - 1);
      NeedBodyBounds(fs[g - 1], vs[g - 1]);
      var f, v := fs[g - 1], vs[g - 1];
      assert |Piece(f, v, false)| <= NeedField(f, v) <= |Piece(f, v, false)| + 3;
    }
  }

  lemma {:induction false} NeedRecsBounds(fs: seq<Field>, rs: seq<seq<Val>>, n: nat)
    requires n <= |rs|
    ensures |WireRecs(fs, rs, n)| <= NeedRecs(fs, rs, n) <= |WireRecs(fs, rs, n)| + 3
    decreases fs, |fs| + 1, n
  {
    if n > 0 {
      NeedRecsBounds(fs, rs, n - 1);
      if |rs[n - 1]| == |fs| {
        NeedValsBounds(fs, rs[n - 1], |fs|);
      }
    }
  }

  /** Inside a struct the checks let through exactly what they ask room for. */
  lemma {:induction false} AcceptsBodyIff(f: Field, v: Val, used: nat, outLen: nat)
    requires used <= outLen < Wrap && Full(f, v)
    ensures AcceptsBody(f, v, false, used, outLen) <==> used + NeedBody(f, v) <= outLen
    decreases f, 0
  {
    match f.kind
    case Basic(_) =>
    case Str =>
    case Struct(sub) =>
      if v.Recs? {
        AcceptsRecsIff(sub, v.recs, |v.recs|, Left(outLen, used));
      }
  }

  lemma {:induction false} AcceptsFieldIff(f: Field, v: Val, used: nat, outLen: nat)
    requires used <= outLen < Wrap && Full(f, v)
    ensures AcceptsField(f, v, false, used, outLen) <==> used + NeedField(f, v) <= outLen
    decreases f, 1
  {
    var cp := |CountPrefix(f, v)|;
    if used + cp <= outLen {
      AcceptsBodyIff(f, v, used + cp, outLen);
    }
  }

  lemma {:induction false} AcceptsValsIff(fs: seq<Field>, vs: seq<Val>, g: nat, outLen: nat)
    requires g <= |fs| == |vs| && outLen < Wrap && forall h :: 0 <= h < g ==> Full(fs[h], vs[h])
    ensures AcceptsVals(fs, vs, g, false, outLen) <==> NeedVals(fs, vs, g) <= outLen
    decreases fs, g
  {
    if g > 0 {
      AcceptsValsIff(fs, vs, g - 1, outLen);
      NeedValsBounds(fs, vs, g - 1);
      if NeedVals(fs, vs, g - 1) <= outLen {
        AcceptsFieldIff(fs[g - 1], vs[g - 1], |Wire(fs, vs, g - 1, false)|, outLen);
      }
    }
  }

  lemma {:induction false} AcceptsRecsIff(fs: seq<Field>, rs: seq<seq<Val>>, n: nat, outLen: nat)
    requires n <= |rs| && outLen < Wrap && forall i :: 0 <= i < n ==> |rs[i]| == |fs| && AllFull(fs, rs[i])
    ensures AcceptsRecs(fs, rs, n, outLen) <==> NeedRecs(fs, rs, n) <= outLen
    decreases fs, |fs| + 1, n
  {
    if n > 0 {
      AcceptsRecsIff(fs, rs, n - 1, outLen);
      NeedRecsBounds(fs, rs, n - 1);
      if NeedRecs(fs, rs, n - 1) <= outLen {
        RecAcceptsIff(fs, rs[n - 1], |WireRecs(fs, rs, n - 1)|, outLen);
      }
    }
  }

  lemma {:induction false} RecAcceptsIff(fs: seq<Field>, vs: seq<Val>, used: nat, outLen: nat)
    requires |vs| == |fs| && AllFull(fs, vs) && used <= outLen < Wrap
    ensures AcceptsVals(fs, vs, |fs|, false, Left(outLen, used)) <==> used + NeedVals(fs, vs, |fs|) <= outLen
    decreases fs, |fs| + 1, 0
  {
    AcceptsValsIff(fs, vs, |fs|, outLen - used);
  }

  /** Without strings the room asked for is that of the bytes and the header. */
  lemma {:induction false} NeedPlain(f: Field, v: Val, size: nat)
    requires WfField(f, size, false) && Full(f, v) && !f.kind.Str? && NoNestedStrings(f)
    ensures NeedField(f, v) == |CountPrefix(f, v)| + |Body(f, v, false)| + 3
    decreases f
  {
    match f.kind
    case Basic(_) =>
    case Struct(sub) =>
      if |v.recs| > 0 {
        NeedPlainRecs(sub, v.recs, |v.recs|, f.elemSize);
      } else {
        assert NeedRecs(sub, v.recs, 0) == 0 && Body(f, v, false) == [];
      }
  }

  lemma {:induction false} NeedPlainVals(fs: seq<Field>, vs: seq<Val>, g: nat, size: nat)
    requires 0 < g <= |fs| == |vs| && WfFields(fs, size, false) && NoStrings(fs)
    requires forall h :: 0 <= h < g ==> Full(fs[h], vs[h])
    ensures NeedVals(fs, vs, g) == |Wire(fs, vs, g, false)| + 3
    decreases fs, g
  {
    assert WfField(fs[g - 1], size, false);
    NeedPlain(fs[g - 1], vs[g - 1], size);
    WireStep(fs, vs, g - 1, false);
    assert !vs[g - 1].Absent?;
    if g > 1 {
      NeedPlainVals(fs, vs, g - 1, size);
    } else {
      assert NeedVals(fs, vs, 0) == 0;
    }
  }

  lemma {:induction false} NeedPlainRecs(fs: seq<Field>, rs: seq<seq<Val>>, n: nat, size: nat)
    requires 0 < n <= |rs| && |fs| > 0 && WfFields(fs, size, false) && NoStrings(fs)
    requires forall i :: 0 <= i < n ==> |rs[i]| == |fs| && AllFull(fs, rs[i])
    ensures NeedRecs(fs, rs, n) == |WireRecs(fs, rs, n)| + 3
    decreases fs, |fs| + 1, n
  {
    NeedPlainVals(fs, rs[n - 1], |fs|, size);
    if n > 1 {
      NeedPlainRecs(fs, rs, n - 1, size);
    }
  }

  // ---------- When more is let through than fits ----------

  /** The checks of a field read the room left through a subtraction, which wraps once the room is used up. */
  predicate Unguarded(f: Field) {
    !f.kind.Basic? && !f.count.Counted?
  }

  /** The wire bytes up to field g. */
  function Upto(fs: seq<Field>, vs: seq<Val>, g: nat): nat
    requires g <= |fs| && g <= |vs|
  {
    |Wire(fs, vs, g, true)|
  }

  /**
   Field h, a struct, begins within the room and ends behind it, although all it asks room for lies within: its last
   bytes are strings. All present fields behind it are strings, or structs without a count.
   */
  predicate Overruns(fs: seq<Field>, vs: seq<Val>, n: nat, outLen: nat, h: nat)
    requires h < n <= |fs| == |vs|
  {
    && fs[h].kind.Struct? && !vs[h].Absent?
    && Upto(fs, vs, h) + NeedField(fs[h], vs[h]) <= outLen < Upto(fs, vs, h + 1)
    && forall g :: h < g < n && !vs[g].Absent? ==> Unguarded(fs[g])
  }

  predicate SomeOverruns(fs: seq<Field>, vs: seq<Val>, n: nat, outLen: nat)
    requires n <= |fs| == |vs|
  {
    exists h :: 0 <= h < n && Overruns(fs, vs, n, outLen, h)
  }

  predicate Typed(f: Field, v: Val) {
    v.Absent? || Full(f, v)
  }

  lemma {:induction false} UptoStep(fs: seq<Field>, vs: seq<Val>, g: nat)
    requires g < |fs| && g < |vs|
    ensures Upto(fs, vs, g + 1) ==
            Upto(fs, vs, g) + if vs[g].Absent? then 0 else 3 + |CountPrefix(fs[g], vs[g])| + |Body(fs[g], vs[g], true)|
  {
    WireStep(fs, vs, g, true);
  }

  /** Where the field ends within the room, all its checks pass. */
  lemma {:induction false} FitsAccepted(f: Field, v: Val, used: nat, outLen: nat)
    requires Full(f, v) && outLen < Wrap && used + 3 + |CountPrefix(f, v)| + |Body(f, v, true)| <= outLen
    ensures AcceptsField(f, v, true, used, outLen)
  {
    var cp := |CountPrefix(f, v)|;
    match f.kind
    case Basic(_) =>
    case Str =>
    case Struct(sub) =>
      if v.Recs? {
        NeedRecsBounds(sub, v.recs, |v.recs|);
        AcceptsRecsIff(sub, v.recs, |v.recs|, outLen - (used + cp));
      }
  }

  /** Where it begins within the room but ends behind it, only a struct that ends in strings passes. */
  lemma {:induction false} EdgeAccepted(f: Field, v: Val, used: nat, outLen: nat)
    requires Full(f, v) && used <= outLen < Wrap
    requires outLen < used + 3 + |CountPrefix(f, v)| + |Body(f, v, true)|
    ensures AcceptsField(f, v, true, used, outLen) <==> f.kind.Struct? && used + NeedField(f, v) <= outLen
  {
    var cp := |CountPrefix(f, v)|;
    match f.kind
    case Basic(_) =>
    case Str =>
    case Struct(sub) =>
      if used + cp <= outLen {
        AcceptsRecsIff(sub, v.recs, |v.recs|, outLen - (used + cp));
      }
  }

  /** Behind the room the subtraction wraps, and whatever is checked against it passes. */
  lemma {:induction false} BeyondAccepted(f: Field, v: Val, used: nat, outLen: nat)
    requires Full(f, v) && outLen < used
    requires used + 3 + |CountPrefix(f, v)| + |Body(f, v, true)| < Wrap / 2
    ensures AcceptsField(f, v, true, used, outLen) <==> Unguarded(f)
  {
    match f.kind
    case Basic(_) =>
    case Str =>
    case Struct(sub) =>
      if v.Recs? {
        NeedRecsBounds(sub, v.recs, |v.recs|);
        AcceptsRecsIff(sub, v.recs, |v.recs|, Left(outLen, used));
      }
  }

  lemma {:induction false} FittingAccepted(fs: seq<Field>, vs: seq<Val>, n: nat, outLen: nat)
    requires n <= |fs| == |vs| && Upto(fs, vs, n) <= outLen < Wrap && forall g :: 0 <= g < n ==> Typed(fs[g], vs[g])
    ensures AcceptsVals(fs, vs, n, true, outLen)
  {
    if n > 0 {
      UptoStep(fs, vs, n - 1);
      FittingAccepted(fs, vs, n - 1, outLen);
      if !vs[n - 1].Absent? {
        FitsAccepted(fs[n - 1], vs[n - 1], Upto(fs, vs, n - 1), outLen);
      }
    }
  }

  /** The encoder accepts a message that does not fit exactly when one of its structs overruns the room. */
  lemma {:induction false} AcceptedBeyond(fs: seq<Field>, vs: seq<Val>, n: nat, outLen: nat)
    requires n <= |fs| == |vs| && forall g :: 0 <= g < n ==> Typed(fs[g], vs[g])
    requires outLen < Upto(fs, vs, n) < Wrap / 2
    ensures AcceptsVals(fs, vs, n, true, outLen) <==> SomeOverruns(fs, vs, n, outLen)
  {
    if n > 0 {
      var f, v, used := fs[n - 1], vs[n - 1], Upto(fs, vs, n - 1);
      UptoStep(fs, vs, n - 1);
      if used <= outLen {
        FittingAccepted(fs, vs, n - 1, outLen);
        EdgeAccepted(f, v, used, outLen);
        EdgeOverruns(fs, vs, n, outLen);
      } else {
        AcceptedBeyond(fs, vs, n - 1, outLen);
        if !v.Absent? {
          BeyondAccepted(f, v, used, outLen);
        }
        BeyondOverruns(fs, vs, n, outLen);
      }
    }
  }

  lemma {:induction false} EdgeOverruns(fs: seq<Field>, vs: seq<Val>, n: nat, outLen: nat)
    requires 0 < n <= |fs| == |vs| && Upto(fs, vs, n - 1) <= outLen < Upto(fs, vs, n)
    ensures SomeOverruns(fs, vs, n, outLen) <==>
            fs[n - 1].kind.Struct? && !vs[n - 1].Absent? &&
              Upto(fs, vs, n - 1) + NeedField(fs[n - 1], vs[n - 1]) <= outLen
  {
    if h :| 0 <= h < n && Overruns(fs, vs, n, outLen, h) {
      if h < n - 1 {
        WireMono(fs, vs, h + 1, n - 1, true);
      }
    }
    if fs[n - 1].kind.Struct? && !vs[n - 1].Absent? && Upto(fs, vs, n - 1) + NeedField(fs[n - 1], vs[n - 1]) <= outLen {
      assert Overruns(fs, vs, n, outLen, n - 1);
    }
  }

  lemma {:induction false} BeyondOverruns(fs: seq<Field>, vs: seq<Val>, n: nat, outLen: nat)
    requires 0 < n <= |fs| == |vs| && outLen < Upto(fs, vs, n - 1)
    ensures SomeOverruns(fs, vs, n, outLen) <==>
            SomeOverruns(fs, vs, n - 1, outLen) && (vs[n - 1].Absent? || Unguarded(fs[n - 1]))
  {
    if h :| 0 <= h < n && Overruns(fs, vs, n, outLen, h) {
      assert Overruns(fs, vs, n - 1, outLen, h);
    }
    if SomeOverruns(fs, vs, n - 1, outLen) && (vs[n - 1].Absent? || Unguarded(fs[n - 1])) {
      var m := n - 1;
      var h :| 0 <= h < m && Overruns(fs, vs, m, outLen, h);
      assert Overruns(fs, vs, n, outLen, h);
    }
  }

  /** Without strings inside structs no struct overruns: the encoder accepts exactly what fits. */
  lemma {:induction false} PlainAccepted(fs: seq<Field>, vs: seq<Val>, n: nat, size: nat, outLen: nat)
    requires n <= |fs| == |vs| && WfFields(fs, size, true) && StringsOnlyHere(fs) && outLen < Wrap
    requires forall g :: 0 <= g < n ==> Typed(fs[g], vs[g])
    ensures AcceptsVals(fs, vs, n, true, outLen) <==> Upto(fs, vs, n) <= outLen
  {
    if n > 0 {
      var f, v, used := fs[n - 1], vs[n - 1], Upto(fs, vs, n - 1);
      PlainAccepted(fs, vs, n - 1, size, outLen);
      UptoStep(fs, vs, n - 1);
      assert WfField(f, size, true);
      if !v.Absent? && used <= outLen {
        if outLen < Upto(fs, vs, n) {
          EdgeAccepted(f, v, used, outLen);
          if f.kind.Struct? {
            PlainStruct(f, v, size);
          }
        } else {
          FitsAccepted(f, v, used, outLen);
        }
      }
    }
  }

  lemma {:induction false} PlainStruct(f: Field, v: Val, size: nat)
    requires WfField(f, size, true) && f.kind.Struct? && Full(f, v) && NoNestedStrings(f)
    ensures NeedField(f, v) == |CountPrefix(f, v)| + |Body(f, v, true)| + 3
  {
    if |v.recs| > 0 {
      NeedPlainRecs(f.kind.sub, v.recs, |v.recs|, f.elemSize);
    } else {
      assert NeedRecs(f.kind.sub, v.recs, 0) == 0 && Body(f, v, true) == [];
    }
  }

  // ---------- Values read from a struct ----------

  lemma {:induction false} LoadedFull(f: Field, size: nat, top: bool, mem: seq<u8>, base: nat)
    requires WfField(f, size, top) && Sendable(f, LoadValue(f, mem, base, Codec))
    ensures Full(f, LoadValue(f, mem, base, Codec))
    decreases f, 1
  {
    LoadValueIs(f, mem, base, Codec);
    var n, v := CountIn(f, mem, base, Codec), LoadValue(f, mem, base, Codec);
    match f.kind
    case Basic(_) =>
    case Str =>
    case Struct(sub) =>
      forall i | 0 <= i < n ensures |v.recs[i]| == |sub| && AllFull(sub, v.recs[i]) {
        LoadRecsAt(sub, mem, base + f.off, f.elemSize, n, i, Codec);
        AllLoadedFull(sub, f.elemSize, mem, base + f.off + Span(i, f.elemSize), |sub|);
      }
  }

  lemma {:induction false} AllLoadedFull(fs: seq<Field>, size: nat, mem: seq<u8>, base: nat, g: nat)
    requires g <= |fs| && WfFields(fs, size, false)
    requires forall h :: 0 <= h < g ==> Sendable(fs[h], LoadAll(fs, mem, base, |fs|, Codec)[h])
    ensures forall h :: 0 <= h < g ==> Full(fs[h], LoadAll(fs, mem, base, |fs|, Codec)[h])
    decreases fs, 0
  {
    forall h | 0 <= h < g ensures Full(fs[h], LoadAll(fs, mem, base, |fs|, Codec)[h]) {
      LoadAllAt(fs, mem, base, |fs|, h, Codec);
      assert WfField(fs[h], size, false);
      LoadedFull(fs[h], size, false, mem, base);
    }
  }

  lemma {:induction false} AllLoadedTyped(fs: seq<Field>, size: nat, mem: seq<u8>, base: nat, g: nat)
    requires g <= |fs| && WfFields(fs, size, true)
    requires forall h :: 0 <= h < g ==> Sendable(fs[h], LoadAll(fs, mem, base, |fs|, Codec)[h])
    ensures forall h :: 0 <= h < g ==> Typed(fs[h], LoadAll(fs, mem, base, |fs|, Codec)[h])
  {
    forall h | 0 <= h < g ensures Typed(fs[h], LoadAll(fs, mem, base, |fs|, Codec)[h]) {
      LoadAllAt(fs, mem, base, |fs|, h, Codec);
      assert WfField(fs[h], size, true);
      if !Load(fs[h], mem, base, Codec).Absent? {
        LoadedFull(fs[h], size, true, mem, base);
      }
    }
  }
}
