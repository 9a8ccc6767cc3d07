/**
 Well-framed input of the decoder as a list of items, what decoding it does to the described struct, and when the
 decoder's reuse of its length variable goes wrong.
 */
module QmiScript {
  import opened Bytes
  import opened QmiDescriptor
  import opened QmiValue

  /** A TLV for field i, or one whose type the table does not know. */
  datatype Item = Known(i: nat, v: Val) | Unknown(tlv: u8, payload: seq<u8>)

  function ItemBytes(fs: seq<Field>, it: Item, top: bool): seq<u8> {
    match it
    case Known(i, v) => if i < |fs| then Piece(fs[i], v, top) else []
    case Unknown(tlv, payload) => Tlv(tlv, payload)
  }

  function ScriptBytes(fs: seq<Field>, items: seq<Item>, k: nat, top: bool): seq<u8>
    requires k <= |items|
  {
    if k == 0 then [] else ScriptBytes(fs, items, k - 1, top) + ItemBytes(fs, items[k - 1], top)
  }

  lemma {:induction false} ScriptBytesBegins(fs: seq<Field>, items: seq<Item>, k: nat, n: nat, top: bool)
    requires k <= n <= |items|
    ensures Begins(ScriptBytes(fs, items, k, top), ScriptBytes(fs, items, n, top))
    decreases n
  {
    if k < n {
      ScriptBytesBegins(fs, items, k, n - 1, top);
      BeginsMore(ScriptBytes(fs, items, k, top), ScriptBytes(fs, items, n - 1, top), ItemBytes(fs, items[n - 1], top));
    }
  }

  // ---------- Values a sender may put on the wire ----------

  predicate CountOk(f: Field, n: nat) {
    match f.count
    case One => n == 1
    case Fixed => n == f.elemLen
    case Counted(_, _) => n <= f.elemLen && n < Pow256(LenWidth(f))
  }

  predicate OkVal(f: Field, v: Val, top: bool)
    decreases f, 0
  {
    match f.kind
    case Basic(_) => v.Raw? && CountOk(f, v.count) && |v.bytes| == Span(v.count, f.elemSize)
    case Str => v.Text? && |v.chars| <= f.elemLen && 0 !in v.chars
    case Struct(sub) => v.Recs? && CountOk(f, |v.recs|) && OkRecs(sub, v.recs, |v.recs|)
  }

  /** The first g values suit the first g fields inside a struct. */
  predicate OkVals(fs: seq<Field>, vs: seq<Val>, g: nat)
    requires g <= |fs| && g <= |vs|
    decreases fs, g
  {
    g == 0 || (OkVals(fs, vs, g - 1) && OkVal(fs[g - 1], vs[g - 1], false))
  }

  predicate OkRecs(fs: seq<Field>, rs: seq<seq<Val>>, n: nat)
    requires n <= |rs|
    decreases fs, |fs| + 1, n
  {
    n == 0 || (OkRecs(fs, rs, n - 1) && |rs[n - 1]| == |fs| && OkVals(fs, rs[n - 1], |fs|))
  }

  /** Nested strings are shorter than their length prefix can count (256 characters overflow a one-byte prefix). */
  predicate StringsFit(f: Field, v: Val, top: bool)
    decreases f
  {
    && (f.kind.Str? && v.Text? && !top ==> |v.chars| < Pow256(StrWidth(f)))
    && (f.kind.Struct? && v.Recs? ==>
          forall i :: 0 <= i < |v.recs| ==> |v.recs[i]| == |f.kind.sub| && AllStringsFit(f.kind.sub, v.recs[i], false))
  }

  predicate AllStringsFit(fs: seq<Field>, vs: seq<Val>, top: bool)
    requires |vs| == |fs|
    decreases fs
  {
    forall g :: 0 <= g < |fs| ==> StringsFit(fs[g], vs[g], top)
  }

  predicate OkItem(fs: seq<Field>, it: Item, top: bool) {
    match it
    case Known(i, v) => i < |fs| && OkVal(fs[i], v, top) && (top ==> |Payload(fs[i], v, top)| < 0x1_0000)
    case Unknown(tlv, payload) => top && |payload| < 0x1_0000 && forall g :: 0 <= g < |fs| ==> fs[g].tlv != tlv
  }

  predicate OkItems(fs: seq<Field>, items: seq<Item>, k: nat, top: bool)
    requires k <= |items|
  {
    k == 0 || (OkItems(fs, items, k - 1, top) && OkItem(fs, items[k - 1], top))
  }

  lemma {:induction false} OkItemsAt(fs: seq<Field>, items: seq<Item>, n: nat, k: nat, top: bool)
    requires k < n <= |items| && OkItems(fs, items, n, top)
    ensures OkItem(fs, items[k], top) && OkItems(fs, items, k, top)
    decreases n
  {
    if k < n - 1 {
      OkItemsAt(fs, items, n - 1, k, top);
    }
  }

  /** No unknown type is below the optional range. */
  predicate Tolerated(items: seq<Item>, k: nat)
    requires k <= |items|
  {
    k == 0 || (Tolerated(items, k - 1) && (items[k - 1].Unknown? ==> items[k - 1].tlv >= 16))
  }

  // ---------- The effect of decoding ----------

  /** The fields after the first k items, starting from vs. */
  function Apply(items: seq<Item>, k: nat, vs: seq<Val>): (r: seq<Val>)
    requires k <= |items|
    ensures |r| == |vs|
  {
    if k == 0 then vs else
    var before := Apply(items, k - 1, vs);
    if items[k - 1].Known? && items[k - 1].i < |vs| then before[items[k - 1].i := items[k - 1].v] else before
  }

  /** The present values among the first g, in order. */
  function Present(vs: seq<Val>, g: nat): (items: seq<Item>)
    requires g <= |vs|
  {
    if g == 0 then []
    else if vs[g - 1].Absent? then Present(vs, g - 1)
    else Present(vs, g - 1) + [Known(g - 1, vs[g - 1])]
  }

  // ---------- The decoder's length variable ----------

  /** What the length variable holds after k items: the element count of the last field. */
  function Stale(fs: seq<Field>, items: seq<Item>, k: nat): nat
    requires k <= |items|
  {
    if k == 0 then 0
    else if items[k - 1].Known? then NumElems(items[k - 1].v)
    else Stale(fs, items, k - 1)
  }

  /** Every count is read into a variable whose high-order bytes, left over from the field before, are zero. */
  predicate Clean(fs: seq<Field>, items: seq<Item>, k: nat)
    requires k <= |items|
    decreases fs, |fs| + 2, k
  {
    k == 0 || (Clean(fs, items, k - 1) && CleanItem(fs, items[k - 1], Stale(fs, items, k - 1)))
  }

  predicate CleanItem(fs: seq<Field>, it: Item, stale: nat)
    decreases fs, |fs| + 1
  {
    it.Known? && it.i < |fs| ==>
      && (fs[it.i].count.Counted? ==> stale < Pow256(LenWidth(fs[it.i])))
      && CleanVal(fs[it.i], it.v)
  }

  predicate CleanVal(f: Field, v: Val)
    decreases f
  {
    f.kind.Struct? && v.Recs? ==> CleanRecs(f.kind.sub, v.recs, |v.recs|)
  }

  predicate CleanRec(fs: seq<Field>, vs: seq<Val>)
    decreases fs, |fs| + 3
  {
    Clean(fs, Present(vs, |vs|), |Present(vs, |vs|)|)
  }

  predicate CleanRecs(fs: seq<Field>, rs: seq<seq<Val>>, n: nat)
    requires n <= |rs|
    decreases fs, |fs| + 4, n
  {
    n == 0 || (CleanRecs(fs, rs, n - 1) && CleanRec(fs, rs[n - 1]))
  }

  /** No field has room for more elements than its DATA_LEN can count, at any depth. */
  predicate TightField(f: Field)
    decreases f
  {
    (f.count.Counted? ==> f.elemLen < Pow256(LenWidth(f))) && (f.kind.Struct? ==> Tight(f.kind.sub))
  }

  predicate Tight(fs: seq<Field>)
    decreases fs
  {
    forall g :: 0 <= g < |fs| ==> TightField(fs[g])
  }

  // ---------- A struct sent in the order of its table ----------

  lemma {:induction false} PresentBytes(fs: seq<Field>, vs: seq<Val>, g: nat, top: bool)
    requires g <= |fs| && g <= |vs|
    ensures ScriptBytes(fs, Present(vs, g), |Present(vs, g)|, top) == Wire(fs, vs, g, top)
  {
    if g > 0 {
      PresentBytes(fs, vs, g - 1, top);
      PresentStep(fs, vs, g - 1, Present(vs, g - 1), Present(vs, g), top);
      WirePiece(fs, vs, g - 1, top);
    }
  }

  lemma {:induction false} WirePiece(fs: seq<Field>, vs: seq<Val>, g: nat, top: bool)
    requires g < |fs| && g < |vs|
    ensures Wire(fs, vs, g + 1, top) == Wire(fs, vs, g, top) + Piece(fs[g], vs[g], top)
  {
  }

  lemma {:induction false} PresentStep(fs: seq<Field>, vs: seq<Val>, g: nat, before: seq<Item>, items: seq<Item>,
                                       top: bool)
    requires g < |fs| && g < |vs| && items == if vs[g].Absent? then before else before + [Known(g, vs[g])]
    ensures ScriptBytes(fs, items, |items|, top) == ScriptBytes(fs, before, |before|, top) + Piece(fs[g], vs[g], top)
  {
    if vs[g].Absent? {
      assert Piece(fs[g], vs[g], top) == [];
    } else {
      ScriptBytesPrefix(fs, before, items, |before|, top);
    }
  }

  lemma {:induction false} ScriptBytesPrefix(fs: seq<Field>, a: seq<Item>, b: seq<Item>, k: nat, top: bool)
    requires k <= |a| && k <= |b| && a[..k] == b[..k]
    ensures ScriptBytes(fs, a, k, top) == ScriptBytes(fs, b, k, top)
  {
    if k > 0 {
      assert a[..k - 1] == a[..k][..k - 1] == b[..k - 1];
      assert a[k - 1] == a[..k][k - 1] == b[k - 1];
      ScriptBytesPrefix(fs, a, b, k - 1, top);
    }
  }

  lemma {:induction false} OkItemsPrefix(fs: seq<Field>, a: seq<Item>, b: seq<Item>, k: nat, top: bool)
    requires k <= |a| && k <= |b| && a[..k] == b[..k] && OkItems(fs, a, k, top)
    ensures OkItems(fs, b, k, top)
  {
    if k > 0 {
      assert a[..k - 1] == a[..k][..k - 1] == b[..k - 1];
      assert a[k - 1] == a[..k][k - 1] == b[k - 1];
      OkItemsPrefix(fs, a, b, k - 1, top);
    }
  }

  lemma {:induction false} PresentInside(fs: seq<Field>, vs: seq<Val>, g: nat)
    requires g <= |fs| && g <= |vs| && OkVals(fs, vs, g)
    ensures var items := Present(vs, g);
            && |items| == g
            && (forall k :: 0 <= k < g ==> items[k] == Known(k, vs[k]))
            && OkItems(fs, items, g, false)
  {
    if g > 0 {
      PresentInside(fs, vs, g - 1);
      assert !vs[g - 1].Absent?;
      OkItemsPrefix(fs, Present(vs, g - 1), Present(vs, g), g - 1, false);
    }
  }

  /** Replaying the present fields over a struct whose absent fields read as absent gives the values back. */
  lemma {:induction false} ApplyPresent(vs: seq<Val>, g: nat, start: seq<Val>)
    requires g <= |vs| == |start|
    requires forall k :: 0 <= k < g && vs[k].Absent? ==> start[k].Absent?
    ensures Apply(Present(vs, g), |Present(vs, g)|, start) == vs[..g] + start[g..]
  {
    if g > 0 {
      ApplyPresent(vs, g - 1, start);
      var before, items := Present(vs, g - 1), Present(vs, g);
      if !vs[g - 1].Absent? {
        ApplyPrefix(before, items, |before|, start);
      }
      assert vs[..g] == vs[..g - 1] + [vs[g - 1]];
      assert start[g - 1..] == [start[g - 1]] + start[g..];
    }
  }

  lemma {:induction false} ApplyPrefix(a: seq<Item>, b: seq<Item>, k: nat, start: seq<Val>)
    requires k <= |a| && k <= |b| && a[..k] == b[..k]
    ensures Apply(a, k, start) == Apply(b, k, start)
  {
    if k > 0 {
      assert a[..k - 1] == a[..k][..k - 1] == b[..k - 1];
      assert a[k - 1] == a[..k][k - 1] == b[k - 1];
      ApplyPrefix(a, b, k - 1, start);
    }
  }

  // ---------- Nothing on the wire is empty ----------

  lemma {:induction false} PayloadNonEmpty(f: Field, size: nat, v: Val)
    requires WfField(f, size, false) && OkVal(f, v, false)
    ensures |Payload(f, v, false)| >= 1
    decreases f, 1
  {
    match f.kind
    case Basic(_) => SpanMono(0, v.count, f.elemSize);
    case Str =>
    case Struct(sub) =>
      if !f.count.Counted? {
        RecsNonEmpty(sub, f.elemSize, v.recs, |v.recs|);
      }
  }

  lemma {:induction false} WireNonEmpty(fs: seq<Field>, size: nat, vs: seq<Val>)
    requires WfFields(fs, size, false) && |vs| == |fs| > 0 && OkVals(fs, vs, |fs|)
    ensures |Wire(fs, vs, |fs|, false)| >= 1
    decreases fs, 0
  {
    PayloadNonEmpty(fs[|fs| - 1], size, vs[|fs| - 1]);
    WireStep(fs, vs, |fs| - 1, false);
  }

  lemma {:induction false} RecsNonEmpty(fs: seq<Field>, size: nat, rs: seq<seq<Val>>, n: nat)
    requires WfFields(fs, size, false) && |fs| > 0 && n <= |rs| && OkRecs(fs, rs, n)
    ensures n > 0 ==> |WireRecs(fs, rs, n)| > |WireRecs(fs, rs, n - 1)|
    decreases fs, 1
  {
    if n > 0 {
      WireNonEmpty(fs, size, rs[n - 1]);
    }
  }

  lemma {:induction false} OkRecsAt(fs: seq<Field>, rs: seq<seq<Val>>, n: nat, i: nat)
    requires i < n <= |rs| && OkRecs(fs, rs, n)
    ensures OkRecs(fs, rs, i + 1)
    decreases n
  {
    if i < n - 1 {
      OkRecsAt(fs, rs, n - 1, i);
    }
  }

  // ---------- Fields sent once ----------

  /** No field is sent twice. */
  predicate DistinctFields(items: seq<Item>) {
    forall k, l :: 0 <= k < l < |items| && items[k].Known? && items[l].Known? ==> items[k].i != items[l].i
  }

  lemma {:induction false} ApplyKeeps(items: seq<Item>, n: nat, vs: seq<Val>, i: nat)
    requires n <= |items| && i < |vs|
    requires forall k :: 0 <= k < n && items[k].Known? ==> items[k].i != i
    ensures Apply(items, n, vs)[i] == vs[i]
  {
    if n > 0 {
      ApplyKeeps(items, n - 1, vs, i);
    }
  }

  lemma {:induction false} ApplyGives(items: seq<Item>, n: nat, vs: seq<Val>, k: nat)
    requires k < n <= |items| && DistinctFields(items) && items[k].Known? && items[k].i < |vs|
    ensures Apply(items, n, vs)[items[k].i] == items[k].v
    decreases n
  {
    if k < n - 1 {
      ApplyGives(items, n - 1, vs, k);
    }
  }
}
