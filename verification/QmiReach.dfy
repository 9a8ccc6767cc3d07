/**
 How far the encoder writes. Inside a struct the writes are those of a flat list of chunks up to the first that is
 refused; counts and basic elements are checked with three bytes to spare, and strings are not. So writes pass the room
 exactly when a string inside a struct is reached that ends within the room and less than three bytes before its end.
 */
module QmiReach {
  import opened Bytes
  import opened Hiding
  import opened QmiDescriptor
  import opened QmiValue
  import opened QmiAccept
  import opened QmiWrites

  // ---------- Chunks ----------

  /** A count or basic elements, a string with its length, or a value with too many elements. */
  datatype Chunk = Plain(n: nat) | Chars(n: nat) | Stop {
    function Len(): nat {
      if Stop? then 0 else n
    }

    predicate Fits(used: nat, room: nat) {
      match this
      case Plain(n) => used + n + 3 <= room
      case Chars(n) => used + n <= room
      case Stop => false
    }
  }

  function Size(cs: seq<Chunk>): nat {
    if cs == [] then 0 else cs[0].Len() + Size(cs[1..])
  }

  predicate AllFit(cs: seq<Chunk>, used: nat, room: nat) {
    cs == [] || (cs[0].Fits(used, room) && AllFit(cs[1..], used + cs[0].Len(), room))
  }

  /** Where writing stops that begins behind `used` bytes. */
  function Scan(cs: seq<Chunk>, used: nat, room: nat): nat {
    if cs == [] || !cs[0].Fits(used, room) then used else Scan(cs[1..], used + cs[0].Len(), room)
  }

  lemma {:induction false} ScanAll(cs: seq<Chunk>, used: nat, room: nat)
    requires used <= room
    ensures used <= Scan(cs, used, room) <= room
    ensures AllFit(cs, used, room) ==> Scan(cs, used, room) == used + Size(cs)
  {
    if cs != [] && cs[0].Fits(used, room) {
      ScanAll(cs[1..], used + cs[0].Len(), room);
    }
  }

  lemma {:induction false} ScanJoin(a: seq<Chunk>, b: seq<Chunk>, used: nat, room: nat)
    ensures Size(a + b) == Size(a) + Size(b)
    ensures AllFit(a + b, used, room) <==> AllFit(a, used, room) && AllFit(b, used + Size(a), room)
    ensures Scan(a + b, used, room) == if AllFit(a, used, room) then Scan(b, used + Size(a), room)
            else Scan(a, used, room)
  {
    if a == [] {
      assert a + b == b;
    } else {
      assert (a + b)[1..] == a[1..] + b;
      ScanJoin(a[1..], b, used + a[0].Len(), room);
    }
  }

  /** Only the room that is left matters. */
  lemma {:induction false} ScanShift(cs: seq<Chunk>, used: nat, room: nat, d: nat)
    ensures AllFit(cs, used + d, room + d) <==> AllFit(cs, used, room)
    ensures Scan(cs, used + d, room + d) == Scan(cs, used, room) + d
  {
    if cs != [] {
      ScanShift(cs[1..], used + cs[0].Len(), room, d);
    }
  }

  /** String i is reached, and ends within the room, but less than three bytes before its end. */
  predicate Late(cs: seq<Chunk>, used: nat, room: nat, i: nat)
    requires i < |cs|
  {
    cs[i].Chars? && cs[i].n > 0 && AllFit(cs[..i + 1], used, room) && used + Size(cs[..i + 1]) + 3 > room
  }

  predicate SomeLate(cs: seq<Chunk>, used: nat, room: nat) {
    exists i :: 0 <= i < |cs| && Late(cs, used, room, i)
  }

  lemma {:induction false} LateShift(cs: seq<Chunk>, used: nat, room: nat, i: nat)
    requires i + 1 < |cs|
    ensures Late(cs, used, room, i + 1) <==> cs[0].Fits(used, room) && Late(cs[1..], used + cs[0].Len(), room, i)
  {
    assert cs[..i + 2][1..] == cs[1..][..i + 1];
    assert cs[..i + 2][0] == cs[0];
  }

  /** What is written ends less than three bytes before the end of the room exactly when there is such a string. */
  lemma {:induction false} SomeLateIff(cs: seq<Chunk>, used: nat, room: nat)
    ensures SomeLate(cs, used, room) <==> Scan(cs, used, room) > used && Scan(cs, used, room) + 3 > room
  {
    if cs != [] {
      var rest, more := cs[1..], used + cs[0].Len();
      SomeLateIff(rest, more, room);
      assert cs[..1][1..] == [] && cs[..1][0] == cs[0];
      assert Size(cs[..1]) == cs[0].Len() + Size([]);
      if cs[0].Fits(used, room) {
        ScanAll(rest, more, room);
      }
      if SomeLate(rest, more, room) && cs[0].Fits(used, room) {
        var i :| 0 <= i < |rest| && Late(rest, more, room, i);
        LateShift(cs, used, room, i);
      }
      if i :| 0 <= i < |cs| && Late(cs, used, room, i) {
        if i > 0 {
          LateShift(cs, used, room, i - 1);
        } else {
          ScanAll(rest, more, room);
        }
      }
      if Scan(cs, used, room) > used && Scan(cs, used, room) + 3 > room && !SomeLate(rest, more, room) {
        assert Scan(rest, more, room) == more;
        assert Late(cs, used, room, 0);
      }
    }
  }

  // ---------- The chunks of a value ----------

  /** Of the elements of a field inside a struct. */
  function BodyChunks(f: Field, v: Val): seq<Chunk>
    decreases f, 0
  {
    match f.kind
    case Basic(_) => if v.Raw? then [Plain(|v.bytes|)] else [Stop]
    case Str => if v.Text? then [Chars(StrWidth(f) + |v.chars|)] else [Stop]
    case Struct(sub) => if v.Recs? then RecsChunks(sub, v.recs, |v.recs|) else [Stop]
  }

  function CountChunks(f: Field): seq<Chunk> {
    if f.count.Counted? then [Plain(LenWidth(f))] else []
  }

  function FieldChunks(f: Field, v: Val): seq<Chunk>
    decreases f, 1
  {
    CountChunks(f) + BodyChunks(f, v)
  }

  function ValsChunks(fs: seq<Field>, vs: seq<Val>, g: nat): seq<Chunk>
    requires g <= |fs| && g <= |vs|
    decreases fs, g
  {
    if g == 0 then [] else ValsChunks(fs, vs, g - 1) + FieldChunks(fs[g - 1], vs[g - 1])
  }

  function RecsChunks(fs: seq<Field>, rs: seq<seq<Val>>, n: nat): seq<Chunk>
    requires n <= |rs|
    decreases fs, |fs| + 1, n
  {
    if n == 0 then []
    else RecsChunks(fs, rs, n - 1) + if |rs[n - 1]| == |fs| then ValsChunks(fs, rs[n - 1], |fs|) else []
  }

  /** A value as it is read from a struct, sendable or not. */
  predicate Shaped(f: Field, v: Val)
    decreases f
  {
    v.Invalid? ||
    match f.kind
    case Basic(_) => v.Raw?
    case Str => v.Text? && f.count.One?
    case Struct(sub) =>
      && v.Recs? && |sub| > 0 && (f.count.Counted? || |v.recs| > 0)
      && RecsShaped(sub, v.recs, |v.recs|)
  }

  predicate AllShaped(fs: seq<Field>, vs: seq<Val>, g: nat)
    requires g <= |fs| && g <= |vs|
    decreases fs, 0, g
  {
    g == 0 || (AllShaped(fs, vs, g - 1) && !vs[g - 1].Absent? && Shaped(fs[g - 1], vs[g - 1]))
  }

  predicate RecsShaped(fs: seq<Field>, rs: seq<seq<Val>>, n: nat)
    requires n <= |rs|
    decreases fs, 1, n
  {
    n == 0 || (RecsShaped(fs, rs, n - 1) && |rs[n - 1]| == |fs| && AllShaped(fs, rs[n - 1], |fs|))
  }

  /** The size of what is written of the first g fields of a struct inside another. */
  function ValsSize(fs: seq<Field>, vs: seq<Val>, g: nat, room: nat): nat
    requires g <= |fs| && g <= |vs|
  {
    var h := Halt(fs, vs, g, false, room);
    var used := |Wire(fs, vs, h, false)|;
    used + if h < g then |FieldPut(fs[h], vs[h], false, used, room)| else 0
  }

  function RecsSize(fs: seq<Field>, rs: seq<seq<Val>>, n: nat, room: nat): nat
    requires n <= |rs|
  {
    var m := RecHalt(fs, rs, n, room);
    var used := |WireRecs(fs, rs, m)|;
    used + if m < n && |rs[m]| == |fs| then |ValsPut(fs, rs[m], Left(room, used))| else 0
  }

  /** Whether all chunks are written, and where writing them stops. */
  ghost predicate Does(cs: seq<Chunk>, used: nat, room: nat, ok: bool, end: nat) {
    (ok <==> AllFit(cs, used, room)) && end == Scan(cs, used, room)
  }

  /** The same, out of sight. */
  ghost predicate Writes(cs: seq<Chunk>, used: nat, room: nat, ok: bool, end: nat) {
    forall y {:trigger Look(y)} :: Look(y) && y == cs ==> Does(y, used, room, ok, end)
  }

  lemma {:induction false} WritesIs(cs: seq<Chunk>, used: nat, room: nat, ok: bool, end: nat)
    ensures Writes(cs, used, room, ok, end) <==> Does(cs, used, room, ok, end)
  {
    assert Look(cs);
  }

  lemma {:induction false} WritesNone(used: nat, room: nat)
    ensures Writes([], used, room, true, used)
  {
    WritesIs([], used, room, true, used);
  }

  lemma {:induction false} WritesOne(c: Chunk, used: nat, room: nat, ok: bool, end: nat)
    requires ok <==> c.Fits(used, room)
    requires end == used + if ok then c.Len() else 0
    ensures Writes([c], used, room, ok, end)
  {
    var cs := [c];
    assert cs[0] == c && cs[1..] == [];
    assert AllFit(cs[1..], used + c.Len(), room) && Scan(cs[1..], used + c.Len(), room) == used + c.Len();
    WritesIs(cs, used, room, ok, end);
  }

  lemma {:induction false} WritesWithin(cs: seq<Chunk>, used: nat, room: nat, ok: bool, end: nat)
    requires used <= room && Writes(cs, used, room, ok, end)
    ensures used <= end <= room
  {
    WritesIs(cs, used, room, ok, end);
    ScanAll(cs, used, room);
  }

  /** Chunks behind others: `ok` says that the others are all written, and `mid` where they end. */
  lemma {:induction false} WritesJoin(a: seq<Chunk>, b: seq<Chunk>, used: nat, room: nat, ok: bool, mid: nat,
                                      more: bool, end: nat)
    requires used <= room && Writes(a, used, room, ok, mid) && (ok ==> Writes(b, mid, room, more, end))
    ensures Writes(a + b, used, room, ok && more, if ok then end else mid)
  {
    WritesIs(a, used, room, ok, mid);
    WritesIs(b, mid, room, more, end);
    WritesIs(a + b, used, room, ok && more, if ok then end else mid);
    ScanAll(a, used, room);
    ScanJoin(a, b, used, room);
  }

  lemma {:induction false} WritesShift(cs: seq<Chunk>, used: nat, room: nat, ok: bool, end: nat)
    requires used <= room && Writes(cs, 0, room - used, ok, end)
    ensures Writes(cs, used, room, ok, used + end)
  {
    WritesIs(cs, 0, room - used, ok, end);
    WritesIs(cs, used, room, ok, used + end);
    ScanShift(cs, 0, room - used, used);
  }

  /** The encoder does inside a struct what the list of chunks says. */
  lemma {:induction false} BodyScan(f: Field, v: Val, used: nat, room: nat)
    requires used <= room < Wrap && Shaped(f, v)
    ensures Writes(BodyChunks(f, v), used, room, Sendable(f, v) && AcceptsBody(f, v, false, used, room),
                   used + |BodyPut(f, v, false, used, room)|)
    decreases f, 0
  {
    if f.kind.Struct? && v.Recs? {
      StructScan(f, v, used, room);
    } else {
      LeafScan(f, v, used, room);
    }
  }

  lemma {:induction false} LeafScan(f: Field, v: Val, used: nat, room: nat)
    requires used <= room < Wrap && Shaped(f, v) && !(f.kind.Struct? && v.Recs?)
    ensures Writes(BodyChunks(f, v), used, room, Sendable(f, v) && AcceptsBody(f, v, false, used, room),
                   used + |BodyPut(f, v, false, used, room)|)
  {
    WritesOne(BodyChunks(f, v)[0], used, room, Sendable(f, v) && AcceptsBody(f, v, false, used, room),
              used + |BodyPut(f, v, false, used, room)|);
  }

  lemma {:induction false} StructScan(f: Field, v: Val, used: nat, room: nat)
    requires used <= room < Wrap && Shaped(f, v) && f.kind.Struct? && v.Recs?
    ensures Writes(BodyChunks(f, v), used, room, Sendable(f, v) && AcceptsBody(f, v, false, used, room),
                   used + |BodyPut(f, v, false, used, room)|)
    decreases f, 0, 0
  {
    var sub, rs, left := f.kind.sub, v.recs, Left(room, used);
    RecsScan(sub, rs, |rs|, left);
    RecsSizeAll(sub, rs, left);
    StructPasses(f, v, used, room);
    WritesShift(RecsChunks(sub, rs, |rs|), used, room, RecsPassed(sub, rs, |rs|, left), RecsSize(sub, rs, |rs|, left));
  }

  lemma {:induction false} StructPasses(f: Field, v: Val, used: nat, room: nat)
    requires f.kind.Struct? && v.Recs?
    ensures var left := Left(room, used);
            && (Sendable(f, v) && AcceptsBody(f, v, false, used, room) <==>
                RecsPassed(f.kind.sub, v.recs, |v.recs|, left))
            && BodyPut(f, v, false, used, room) == RecsPut(f.kind.sub, v.recs, left)
            && BodyChunks(f, v) == RecsChunks(f.kind.sub, v.recs, |v.recs|)
  {
    RecsPassedIff(f.kind.sub, v.recs, |v.recs|, Left(room, used));
  }

  lemma {:induction false} FieldScan(f: Field, v: Val, used: nat, room: nat)
    requires used <= room < Wrap && Shaped(f, v) && !v.Absent?
    ensures Writes(FieldChunks(f, v), used, room, Passes(f, v, false, used, room),
                   used + |FieldPut(f, v, false, used, room)|)
    decreases f, 1
  {
    var counts, cp := !(f.count.Counted? && LenWidth(f) + used + 3 > room), |CountPrefix(f, v)|;
    CountScan(f, used, room);
    if counts {
      BodyScan(f, v, used + cp, room);
    }
    WritesJoin(CountChunks(f), BodyChunks(f, v), used, room, counts, if counts then used + cp else used,
               Sendable(f, v) &&
                 AcceptsBody(f, v, false, used + cp, room), used + cp + |BodyPut(f, v, false, used + cp, room)|);
  }

  lemma {:induction false} CountScan(f: Field, used: nat, room: nat)
    requires used <= room
    ensures var counts := !(f.count.Counted? && LenWidth(f) + used + 3 > room);
            Writes(CountChunks(f), used, room, counts, if f.count.Counted? && counts then used + LenWidth(f) else used)
  {
    if f.count.Counted? {
      WritesOne(Plain(LenWidth(f)), used, room, LenWidth(f) + used + 3 <= room,
                if LenWidth(f) + used + 3 <= room then used + LenWidth(f) else used);
    } else {
      WritesNone(used, room);
    }
  }

  /** One more field. */
  lemma {:induction false} ValsSizeStep(fs: seq<Field>, vs: seq<Val>, g: nat, room: nat)
    requires g < |fs| && g < |vs| && !vs[g].Absent?
    ensures var used := |Wire(fs, vs, g, false)|;
            && (Passed(fs, vs, g, false, room) ==>
                  ValsSize(fs, vs, g, room) == used &&
                  ValsSize(fs, vs, g + 1, room) == used + |FieldPut(fs[g], vs[g], false, used, room)|)
            && (!Passed(fs, vs, g, false, room) ==> ValsSize(fs, vs, g + 1, room) == ValsSize(fs, vs, g, room))
            && (Passed(fs, vs, g + 1, false, room) <==>
                Passed(fs, vs, g, false, room) && Passes(fs[g], vs[g], false, used, room))
  {
    var used := |Wire(fs, vs, g, false)|;
    HaltIs(fs, vs, g, false, room);
    WireStep(fs, vs, g, false);
    if Passed(fs, vs, g, false, room) {
      if Passes(fs[g], vs[g], false, used, room) {
        FieldFull(fs[g], vs[g], false, used, room);
        assert Halt(fs, vs, g + 1, false, room) == g + 1;
      } else {
        assert Halt(fs, vs, g + 1, false, room) == g;
      }
    }
  }

  lemma {:induction false} ValsScan(fs: seq<Field>, vs: seq<Val>, g: nat, room: nat)
    requires g <= |fs| && g <= |vs| && room < Wrap && AllShaped(fs, vs, g)
    ensures Writes(ValsChunks(fs, vs, g), 0, room, Passed(fs, vs, g, false, room), ValsSize(fs, vs, g, room))
    decreases fs, g
  {
    if g == 0 {
      WritesNone(0, room);
    } else {
      var f, v, used, done := fs[g - 1], vs[g - 1], |Wire(fs, vs, g - 1, false)|, Passed(fs, vs, g - 1, false, room);
      ValsScan(fs, vs, g - 1, room);
      ValsSizeStep(fs, vs, g - 1, room);
      WritesWithin(ValsChunks(fs, vs, g - 1), 0, room, done, ValsSize(fs, vs, g - 1, room));
      if done {
        FieldScan(f, v, used, room);
      }
      WritesJoin(ValsChunks(fs, vs, g - 1), FieldChunks(f, v), 0, room, done, ValsSize(fs, vs, g - 1, room),
                 Passes(f, v, false, used, room), used + |FieldPut(f, v, false, used, room)|);
    }
  }

  lemma {:induction false} ValsSizeAll(fs: seq<Field>, vs: seq<Val>, room: nat)
    requires |vs| == |fs|
    ensures ValsSize(fs, vs, |fs|, room) == |ValsPut(fs, vs, room)|
  {
  }

  lemma {:induction false} RecsSizeAll(fs: seq<Field>, rs: seq<seq<Val>>, room: nat)
    ensures RecsSize(fs, rs, |rs|, room) == |RecsPut(fs, rs, room)|
  {
  }

  /** The whole of one struct, behind what of the room is used. */
  lemma {:induction false} RecScan(fs: seq<Field>, r: seq<Val>, used: nat, room: nat)
    requires used <= room < Wrap && |r| == |fs| && AllShaped(fs, r, |fs|)
    ensures Writes(ValsChunks(fs, r, |fs|), used, room, RecPasses(fs, r, used, room),
                   used + |ValsPut(fs, r, Left(room, used))|)
    decreases fs, |fs| + 1, 0
  {
    var left := Left(room, used);
    ValsScan(fs, r, |fs|, left);
    ValsSizeAll(fs, r, left);
    WritesShift(ValsChunks(fs, r, |fs|), used, room, Passed(fs, r, |fs|, false, left), ValsSize(fs, r, |fs|, left));
  }

  /** A struct that passes is written in full. */
  lemma {:induction false} RecWhole(fs: seq<Field>, r: seq<Val>, used: nat, room: nat)
    requires RecPasses(fs, r, used, room)
    ensures |ValsPut(fs, r, Left(room, used))| == |Wire(fs, r, |fs|, false)|
  {
    AfterAll([], 0, fs, r, false, Left(room, used));
    AfterNested([], 0, fs, r, Left(room, used));
  }

  /** One more struct. */
  lemma {:induction false} RecsSizeStep(fs: seq<Field>, rs: seq<seq<Val>>, n: nat, room: nat)
    requires n < |rs| && |rs[n]| == |fs|
    ensures var used := |WireRecs(fs, rs, n)|;
            && (RecsPassed(fs, rs, n, room) ==>
                  RecsSize(fs, rs, n, room) == used &&
                  RecsSize(fs, rs, n + 1, room) == used + |ValsPut(fs, rs[n], Left(room, used))|)
            && (!RecsPassed(fs, rs, n, room) ==> RecsSize(fs, rs, n + 1, room) == RecsSize(fs, rs, n, room))
  {
    var m, r, used := RecHalt(fs, rs, n, room), rs[n], |WireRecs(fs, rs, n)|;
    RecHaltIs(fs, rs, n, room);
    if m < n {
      assert RecHalt(fs, rs, n + 1, room) == m;
    } else if RecPasses(fs, r, used, room) {
      RecWhole(fs, r, used, room);
      assert RecHalt(fs, rs, n + 1, room) == n + 1;
    } else {
      assert RecHalt(fs, rs, n + 1, room) == n;
    }
  }

  lemma {:induction false} RecsScan(fs: seq<Field>, rs: seq<seq<Val>>, n: nat, room: nat)
    requires n <= |rs| && room < Wrap && RecsShaped(fs, rs, n)
    ensures Writes(RecsChunks(fs, rs, n), 0, room, RecsPassed(fs, rs, n, room), RecsSize(fs, rs, n, room))
    decreases fs, |fs| + 1, n
  {
    if n == 0 {
      WritesNone(0, room);
    } else {
      var r, used, done := rs[n - 1], |WireRecs(fs, rs, n - 1)|, RecsPassed(fs, rs, n - 1, room);
      RecsScan(fs, rs, n - 1, room);
      RecsSizeStep(fs, rs, n - 1, room);
      WritesWithin(RecsChunks(fs, rs, n - 1), 0, room, done, RecsSize(fs, rs, n - 1, room));
      if done {
        RecScan(fs, r, used, room);
      }
      WritesJoin(RecsChunks(fs, rs, n - 1), ValsChunks(fs, r, |fs|), 0, room, done, RecsSize(fs, rs, n - 1, room),
                 RecPasses(fs, r, used, room), used + |ValsPut(fs, r, Left(room, used))|);
    }
  }

  // ---------- Values read from a struct ----------

  lemma {:induction false} LoadedShaped(f: Field, size: nat, top: bool, mem: seq<u8>, base: nat)
    requires WfField(f, size, top)
    ensures Shaped(f, LoadValue(f, mem, base, Codec))
    decreases f, 1
  {
    LoadValueIs(f, mem, base, Codec);
    var n := CountIn(f, mem, base, Codec);
    if f.kind.Struct? && n <= Capacity(f) {
      RecsLoadedShaped(f.kind.sub, f.elemSize, mem, base + f.off, n, n);
    }
  }

  lemma {:induction false} RecsLoadedShaped(fs: seq<Field>, size: nat, mem: seq<u8>, p: nat, n: nat, i: nat)
    requires i <= n && WfFields(fs, size, false)
    ensures RecsShaped(fs, LoadRecs(fs, mem, p, size, n, Codec), i)
    decreases fs, 1, i
  {
    if i > 0 {
      RecsLoadedShaped(fs, size, mem, p, n, i - 1);
      LoadRecsAt(fs, mem, p, size, n, i - 1, Codec);
      AllLoadedShaped(fs, size, mem, p + Span(i - 1, size), |fs|);
    }
  }

  lemma {:induction false} AllLoadedShaped(fs: seq<Field>, size: nat, mem: seq<u8>, base: nat, g: nat)
    requires g <= |fs| && WfFields(fs, size, false)
    ensures AllShaped(fs, LoadAll(fs, mem, base, |fs|, Codec), g)
    decreases fs, 0, g
  {
    if g > 0 {
      var f := fs[g - 1];
      AllLoadedShaped(fs, size, mem, base, g - 1);
      LoadAllAt(fs, mem, base, |fs|, g - 1, Codec);
      assert WfField(f, size, false);
      LoadValueIs(f, mem, base, Codec);
      LoadedShaped(f, size, false, mem, base);
    }
  }

  lemma {:induction false} TopShaped(fs: seq<Field>, size: nat, mem: seq<u8>, k: nat)
    requires k < |fs| && WfFields(fs, size, true)
    ensures var v := LoadAll(fs, mem, 0, |fs|, Codec)[k]; v.Absent? || Shaped(fs[k], v)
  {
    LoadAllAt(fs, mem, 0, |fs|, k, Codec);
    assert WfField(fs[k], size, true);
    LoadedShaped(fs[k], size, true, mem, 0);
  }

  /** A value has chunks, the first of which is not empty if it is a string. */
  lemma {:induction false} SomeChunk(f: Field, v: Val)
    requires Shaped(f, v) && !v.Absent?
    ensures FieldChunks(f, v) != [] && (FieldChunks(f, v)[0].Chars? ==> FieldChunks(f, v)[0].n > 0)
    decreases f
  {
    if f.kind.Struct? && v.Recs? && |v.recs| > 0 {
      var sub := f.kind.sub;
      FirstRec(sub, v.recs, |v.recs|);
      SomeChunk(sub[0], v.recs[0][0]);
      assert ValsChunks(sub, v.recs[0], 1) == ValsChunks(sub, v.recs[0], 0) + FieldChunks(sub[0], v.recs[0][0]);
      ChunksMono(sub, v.recs[0], 1, |sub|);
      RecsChunksMono(sub, v.recs, 1, |v.recs|);
      assert RecsChunks(sub, v.recs, 1) == RecsChunks(sub, v.recs, 0) + ValsChunks(sub, v.recs[0], |sub|);
    }
  }

  lemma {:induction false} FirstRec(fs: seq<Field>, rs: seq<seq<Val>>, n: nat)
    requires 0 < n <= |rs| && |fs| > 0 && RecsShaped(fs, rs, n)
    ensures |rs[0]| == |fs| && !rs[0][0].Absent? && Shaped(fs[0], rs[0][0])
  {
    if n > 1 {
      FirstRec(fs, rs, n - 1);
    } else {
      FirstField(fs, rs[0], |fs|);
    }
  }

  lemma {:induction false} FirstField(fs: seq<Field>, vs: seq<Val>, g: nat)
    requires 0 < g <= |fs| == |vs| && AllShaped(fs, vs, g)
    ensures !vs[0].Absent? && Shaped(fs[0], vs[0])
  {
    if g > 1 {
      FirstField(fs, vs, g - 1);
    }
  }

  lemma {:induction false} ChunksMono(fs: seq<Field>, vs: seq<Val>, g: nat, h: nat)
    requires g <= h <= |fs| && h <= |vs|
    ensures ValsChunks(fs, vs, g) <= ValsChunks(fs, vs, h)
    decreases h
  {
    if g < h {
      ChunksMono(fs, vs, g, h - 1);
    }
  }

  lemma {:induction false} RecsChunksMono(fs: seq<Field>, rs: seq<seq<Val>>, n: nat, m: nat)
    requires n <= m <= |rs|
    ensures RecsChunks(fs, rs, n) <= RecsChunks(fs, rs, m)
    decreases m
  {
    if n < m {
      RecsChunksMono(fs, rs, n, m - 1);
    }
  }

  // ---------- Whole messages ----------

  /**
   Field k, a struct, begins within the room, behind fields that can be sent, and a string in it is reached that ends
   within the room but less than three bytes, those of the header, before its end.
   */
  predicate LateString(fs: seq<Field>, vs: seq<Val>, outLen: nat, k: nat)
    requires k < |fs| == |vs|
  {
    && SendableUpTo(fs, vs, k) && Upto(fs, vs, k) <= outLen
    && fs[k].kind.Struct? && !vs[k].Absent? && SomeLate(FieldChunks(fs[k], vs[k]), Upto(fs, vs, k), outLen)
  }

  predicate SomeLateString(fs: seq<Field>, vs: seq<Val>, outLen: nat)
    requires |fs| == |vs|
  {
    exists k :: 0 <= k < |fs| && LateString(fs, vs, outLen, k)
  }

  /** The end of what is written of field k and its header, when the fields before it have passed. */
  function EndOf(fs: seq<Field>, vs: seq<Val>, outLen: nat, k: nat): nat
    requires k < |fs| == |vs|
  {
    var used := Upto(fs, vs, k);
    var put := FieldPut(fs[k], vs[k], true, used, outLen);
    if !vs[k].Absent? && (put != [] || Passes(fs[k], vs[k], true, used, outLen)) then used + 3 + |put| else used
  }

  /** The top level makes no difference for a struct. */
  lemma {:induction false} StructAlike(f: Field, v: Val, used: nat, outLen: nat)
    requires f.kind.Struct?
    ensures FieldPut(f, v, true, used, outLen) == FieldPut(f, v, false, used, outLen)
    ensures Passes(f, v, true, used, outLen) == Passes(f, v, false, used, outLen)
  {
    var more := used + |CountPrefix(f, v)|;
    assert AcceptsBody(f, v, true, more, outLen) == AcceptsBody(f, v, false, more, outLen);
    assert BodyPut(f, v, true, more, outLen) == BodyPut(f, v, false, more, outLen);
  }

  lemma {:induction false} StructEnd(fs: seq<Field>, vs: seq<Val>, outLen: nat, k: nat)
    requires k < |fs| == |vs| && Upto(fs, vs, k) <= outLen && SendableUpTo(fs, vs, k) && fs[k].kind.Struct?
    requires !vs[k].Absent?
    requires var cs, used := FieldChunks(fs[k], vs[k]), Upto(fs, vs, k);
             && used + |FieldPut(fs[k], vs[k], true, used, outLen)| == Scan(cs, used, outLen) <= outLen
             && (Passes(fs[k], vs[k], true, used, outLen) <==> AllFit(cs, used, outLen))
             && cs != [] && (cs[0].Chars? ==> cs[0].n > 0)
             && (SomeLate(cs, used, outLen) <==> Scan(cs, used, outLen) > used && Scan(cs, used, outLen) + 3 > outLen)
    ensures EndOf(fs, vs, outLen, k) <= outLen + 3
    ensures EndOf(fs, vs, outLen, k) > outLen <==> LateString(fs, vs, outLen, k)
  {
    var cs, used := FieldChunks(fs[k], vs[k]), Upto(fs, vs, k);
    if AllFit(cs, used, outLen) {
      ScanAll(cs[1..], used + cs[0].Len(), outLen);
    }
  }

  /**
   One field, beginning within the room: what is written ends within three bytes of it, and behind it exactly as said.
   */
  lemma {:induction false} FieldEnd(fs: seq<Field>, vs: seq<Val>, outLen: nat, k: nat)
    requires k < |fs| == |vs| && outLen < Wrap && Upto(fs, vs, k) <= outLen && (vs[k].Absent? || Shaped(fs[k], vs[k]))
    requires SendableUpTo(fs, vs, k)
    ensures EndOf(fs, vs, outLen, k) <= outLen + 3
    ensures EndOf(fs, vs, outLen, k) > outLen <==> LateString(fs, vs, outLen, k)
  {
    var f, v, used := fs[k], vs[k], Upto(fs, vs, k);
    if !v.Absent? {
      if f.kind.Struct? {
        StructAlike(f, v, used, outLen);
        FieldScan(f, v, used, outLen);
        WritesIs(FieldChunks(f, v), used, outLen, Passes(f, v, false, used, outLen),
                 used + |FieldPut(f, v, false, used, outLen)|);
        ScanAll(FieldChunks(f, v), used, outLen);
        SomeLateIff(FieldChunks(f, v), used, outLen);
        SomeChunk(f, v);
        StructEnd(fs, vs, outLen, k);
      } else {
        PlainEnd(f, v, used, outLen);
      }
    }
  }

  lemma {:induction false} PlainEnd(f: Field, v: Val, used: nat, outLen: nat)
    requires used <= outLen < Wrap && !f.kind.Struct? && !v.Absent? && Shaped(f, v)
    ensures var put := FieldPut(f, v, true, used, outLen);
            put != [] || Passes(f, v, true, used, outLen) ==> used + 3 + |put| <= outLen
  {
    match f.kind
    case Basic(_) =>
    case Str =>
  }

  /** The fields that fit and can be sent pass. */
  lemma {:induction false} FittingPassed(fs: seq<Field>, size: nat, mem: seq<u8>, outLen: nat, k: nat)
    requires k <= |fs| && WfFields(fs, size, true) && outLen < Wrap
    requires var vs := LoadAll(fs, mem, 0, |fs|, Codec); SendableUpTo(fs, vs, k) && Upto(fs, vs, k) <= outLen
    ensures Passed(fs, LoadAll(fs, mem, 0, |fs|, Codec), k, true, outLen)
  {
    var vs := LoadAll(fs, mem, 0, |fs|, Codec);
    SendableAll(fs, vs, k);
    AllLoadedTyped(fs, size, mem, 0, k);
    FittingAccepted(fs, vs, k, outLen);
  }

  /** Of the fields that pass, each ends where its writes end. */
  lemma {:induction false} EndOfPassed(fs: seq<Field>, vs: seq<Val>, outLen: nat, k: nat)
    requires k < |fs| == |vs| && Passes(fs[k], vs[k], true, Upto(fs, vs, k), outLen)
    ensures EndOf(fs, vs, outLen, k) == Upto(fs, vs, k + 1)
  {
    UptoStep(fs, vs, k);
    if !vs[k].Absent? {
      FieldFull(fs[k], vs[k], true, Upto(fs, vs, k), outLen);
    }
  }

  /** All writes lie within the room up to the first field that runs over it, which does so by at most three bytes. */
  lemma {:induction false} FirstOver(fs: seq<Field>, size: nat, mem: seq<u8>, outLen: nat, n: nat) returns (k: nat)
    requires n <= |fs| && WfFields(fs, size, true) && outLen < Wrap
    requires Passed(fs, LoadAll(fs, mem, 0, |fs|, Codec), n, true, outLen)
    requires Upto(fs, LoadAll(fs, mem, 0, |fs|, Codec), n) > outLen
    ensures var vs := LoadAll(fs, mem, 0, |fs|, Codec);
            k < n && Upto(fs, vs, k) <= outLen < Upto(fs, vs, k + 1) <= outLen + 3 && LateString(fs, vs, outLen, k)
  {
    var vs := LoadAll(fs, mem, 0, |fs|, Codec);
    assert Upto(fs, vs, 0) == 0;
    if Upto(fs, vs, n - 1) > outLen {
      k := FirstOver(fs, size, mem, outLen, n - 1);
    } else {
      k := n - 1;
      TopShaped(fs, size, mem, k);
      EndOfPassed(fs, vs, outLen, k);
      FieldEnd(fs, vs, outLen, k);
    }
  }

  /** Writes lie behind the room exactly when there is such a string, whether the message is refused or not. */
  lemma {:induction false} ReachBeyond(fs: seq<Field>, size: nat, mem: seq<u8>, outLen: nat)
    requires WfFields(fs, size, true) && outLen < Wrap
    ensures var vs := LoadAll(fs, mem, 0, |fs|, Codec); Reach(fs, vs, true, outLen) > outLen <==>
              SomeLateString(fs, vs, outLen)
  {
    var vs := LoadAll(fs, mem, 0, |fs|, Codec);
    var n := Halt(fs, vs, |fs|, true, outLen);
    HaltIs(fs, vs, |fs|, true, outLen);
    if Reach(fs, vs, true, outLen) > outLen {
      if Upto(fs, vs, n) > outLen {
        var k := FirstOver(fs, size, mem, outLen, n);
      } else {
        TopShaped(fs, size, mem, n);
        FieldEnd(fs, vs, outLen, n);
        assert LateString(fs, vs, outLen, n);
      }
    }
    if k :| 0 <= k < |fs| && LateString(fs, vs, outLen, k) {
      LateReaches(fs, size, mem, outLen, k);
    }
  }

  lemma {:induction false} LateReaches(fs: seq<Field>, size: nat, mem: seq<u8>, outLen: nat, k: nat)
    requires k < |fs| && WfFields(fs, size, true) && outLen < Wrap
    requires LateString(fs, LoadAll(fs, mem, 0, |fs|, Codec), outLen, k)
    ensures Reach(fs, LoadAll(fs, mem, 0, |fs|, Codec), true, outLen) > outLen
  {
    var vs := LoadAll(fs, mem, 0, |fs|, Codec);
    FittingPassed(fs, size, mem, outLen, k);
    TopShaped(fs, size, mem, k);
    FieldEnd(fs, vs, outLen, k);
    EndReached(fs, vs, outLen, k);
  }

  /** What is written of a field that is reached is written. */
  lemma {:induction false} EndReached(fs: seq<Field>, vs: seq<Val>, outLen: nat, k: nat)
    requires k < |fs| == |vs| && Passed(fs, vs, k, true, outLen)
    ensures EndOf(fs, vs, outLen, k) <= Upto(fs, vs, k) || EndOf(fs, vs, outLen, k) <= Reach(fs, vs, true, outLen)
  {
    if Passes(fs[k], vs[k], true, Upto(fs, vs, k), outLen) {
      EndOfPassed(fs, vs, outLen, k);
      HaltMono(fs, vs, k + 1, |fs|, true, outLen);
      WireMono(fs, vs, k + 1, Halt(fs, vs, |fs|, true, outLen), true);
    } else {
      HaltAt(fs, vs, k, |fs|, true, outLen);
    }
  }

  /** Those bytes are written, and no others: what the last one was before does not matter. */
  lemma {:induction false} WrittenUpTo(was: seq<u8>, other: seq<u8>, start: nat, fs: seq<Field>, vs: seq<Val>,
                                       top: bool, outLen: nat)
    requires |vs| == |fs| && |was| == |other|
    ensures var end := start + Reach(fs, vs, top, outLen);
            && (forall i :: 0 <= i < |was| && !(start <= i < end) ==>
                After(was, start, fs, vs, top, outLen)[i] == was[i])
            && (start < end <= |was| ==>
                After(was, start, fs, vs, top, outLen)[end - 1] == After(other, start, fs, vs, top, outLen)[end - 1])
  {
  }

  /** By at most three bytes, unless a struct that has passed has run over the room before. */
  lemma {:induction false} ExcessAtMostThree(fs: seq<Field>, size: nat, mem: seq<u8>, outLen: nat)
    requires WfFields(fs, size, true) && outLen < Wrap
    ensures var vs := LoadAll(fs, mem, 0, |fs|, Codec);
            var n := Halt(fs, vs, |fs|, true, outLen);
            && (Upto(fs, vs, n) <= outLen ==> Reach(fs, vs, true, outLen) <= outLen + 3)
            && (Upto(fs, vs, n) > outLen ==> exists k ::
                0 <= k < n && Upto(fs, vs, k) <= outLen < Upto(fs, vs, k + 1) <= outLen + 3)
  {
    var vs := LoadAll(fs, mem, 0, |fs|, Codec);
    var n := Halt(fs, vs, |fs|, true, outLen);
    HaltIs(fs, vs, |fs|, true, outLen);
    if Upto(fs, vs, n) > outLen {
      var k := FirstOver(fs, size, mem, outLen, n);
    } else if n < |fs| {
      TopShaped(fs, size, mem, n);
      FieldEnd(fs, vs, outLen, n);
    }
  }

  // ---------- Tables without strings inside structs ----------

  predicate NoChars(cs: seq<Chunk>) {
    forall i :: 0 <= i < |cs| ==> !cs[i].Chars?
  }

  lemma {:induction false} PlainChunks(f: Field, v: Val)
    requires !f.kind.Str? && NoNestedStrings(f)
    ensures NoChars(FieldChunks(f, v))
    decreases f, 0
  {
    if f.kind.Struct? && v.Recs? {
      PlainRecsChunks(f.kind.sub, v.recs, |v.recs|);
    }
  }

  lemma {:induction false} PlainValsChunks(fs: seq<Field>, vs: seq<Val>, g: nat)
    requires g <= |fs| && g <= |vs| && NoStrings(fs)
    ensures NoChars(ValsChunks(fs, vs, g))
    decreases fs, 0, g
  {
    if g > 0 {
      PlainValsChunks(fs, vs, g - 1);
      PlainChunks(fs[g - 1], vs[g - 1]);
    }
  }

  lemma {:induction false} PlainRecsChunks(fs: seq<Field>, rs: seq<seq<Val>>, n: nat)
    requires n <= |rs| && NoStrings(fs)
    ensures NoChars(RecsChunks(fs, rs, n))
    decreases fs, 1, n
  {
    if n > 0 {
      PlainRecsChunks(fs, rs, n - 1);
      if |rs[n - 1]| == |fs| {
        PlainValsChunks(fs, rs[n - 1], |fs|);
      }
    }
  }

  /** Then nothing is written behind the room. */
  lemma {:induction false} PlainWithin(fs: seq<Field>, size: nat, mem: seq<u8>, outLen: nat)
    requires WfFields(fs, size, true) && outLen < Wrap && StringsOnlyHere(fs)
    ensures Reach(fs, LoadAll(fs, mem, 0, |fs|, Codec), true, outLen) <= outLen
  {
    var vs := LoadAll(fs, mem, 0, |fs|, Codec);
    ReachBeyond(fs, size, mem, outLen);
    if k :| 0 <= k < |fs| && LateString(fs, vs, outLen, k) {
      PlainChunks(fs[k], vs[k]);
    }
  }
}
