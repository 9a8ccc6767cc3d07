/** What the decoder does with one field of well-framed input, down to the innermost struct. */
module QmiNested {
  import opened Bytes
  import opened Hiding
  import opened QmiDescriptor
  import opened QmiValue
  import opened QmiAccept
  import opened QmiScript
  import opened QmiFrame
  import opened QmiRun
  import opened QmiFramed

  // ---------- Layout, out of sight ----------

  ghost predicate Laid(fs: seq<Field>, size: nat) {
    forall u {:trigger Look(u)} :: Look(u) && u == fs ==> WfFields(u, size, false) && Separate(u)
  }

  ghost predicate LaidField(f: Field, size: nat, top: bool) {
    forall u {:trigger Look(u)} :: Look(u) && u == f ==> WfField(u, size, top) && SeparateField(u)
  }

  // ---------- Arrays of structs ----------

  /** The structs from i on come through, or not, when those before have. */
  ghost predicate RecsCame(fs: seq<Field>, rs: seq<seq<Val>>, i: nat, r: Out, dst: nat, size: nat, need: nat,
                           bound: nat)
    requires i <= |rs|
  {
    && Outcome(r, r.rc >= 0 && LoadRecs(fs, r.mem, dst, size, |rs|, Program) == rs, GoodRecs(fs, rs, i),
               CalmRecs(fs, rs, i), need, bound)
    && (GoodRecs(fs, rs, i) ==> r.count == |rs|)
  }

  lemma {:induction false} RecsRun(fs: seq<Field>, size: nat, rs: seq<seq<Val>>, mem: seq<u8>, dst: nat, inb: seq<u8>,
                                   src: nat, i: nat, done: nat, tlvLen: nat, reach: nat, bound: nat)
    requires Laid(fs, size) && |fs| > 0 && i <= |rs| && dst + Span(|rs|, size) <= |mem|
    requires RecsAt(fs, rs, i, inb, src + done) && done + RecsLeft(fs, rs, i) <= tlvLen < Wrap
    requires reach <= bound && src + done + RecsLeft(fs, rs, i) <= bound
    requires LoadRecs(fs, mem, dst, size, i, Program) == rs[..i]
    ensures RecsCame(fs, rs, i, RunRecs(fs, size, mem, dst, inb, src, i, |rs|, done, tlvLen, reach), dst, size,
                     done + RecsLeft(fs, rs, i), bound)
    decreases fs, 2, |rs| - i, 1
  {
    if i == |rs| {
      assert rs[..i] == rs;
    } else {
      var left := ValsLeft(fs, rs[i], 0);
      var r := RecRun(fs, size, rs[i], mem, dst, dst + Span(i, size), inb, src, i, |rs|, done, left, tlvLen, reach,
                      bound);
      RecsTail(fs, size, rs, mem, r, dst, inb, src, i, done, left, tlvLen, bound);
    }
  }

  /** The structs behind struct i, r being what that came to. */
  lemma {:induction false} RecsTail(fs: seq<Field>, size: nat, rs: seq<seq<Val>>, mem: seq<u8>, r: Out, dst: nat,
                                    inb: seq<u8>, src: nat, i: nat, done: nat, left: nat, tlvLen: nat, bound: nat)
    requires Laid(fs, size) && |fs| > 0 && i < |rs| && |rs[i]| == |fs| && dst + Span(|rs|, size) <= |mem|
    requires OnlyChanged(r.mem, mem, dst + Span(i, size), size)
    requires ValsCame(fs, rs[i], 0, r, dst + Span(i, size), left, bound)
    requires RecsAt(fs, rs, i + 1, inb, src + done + left) && done + left + RecsLeft(fs, rs, i + 1) <= tlvLen < Wrap
    requires src + done + left + RecsLeft(fs, rs, i + 1) <= bound
    requires LoadRecs(fs, mem, dst, size, i, Program) == rs[..i]
    ensures RecsCame(fs, rs, i,
                     if r.rc < 0 then r
                       else RunRecs(fs, size, r.mem, dst, inb, src, i + 1, |rs|, done + r.rc, tlvLen, r.reach), dst,
                         size,
                     done + left + RecsLeft(fs, rs, i + 1), bound)
    decreases fs, 2, |rs| - i, 0
  {
    if GoodFrom(fs, rs[i], 0) {
      RecsGood(fs, size, rs, mem, r, dst, inb, src, i, done, left, tlvLen, bound);
    } else {
      RecsBad(fs, size, rs, r, dst, inb, src, i, done, left, tlvLen, done + left + RecsLeft(fs, rs, i + 1), bound);
    }
  }

  lemma {:induction false} RecsGood(fs: seq<Field>, size: nat, rs: seq<seq<Val>>, mem: seq<u8>, r: Out, dst: nat,
                                    inb: seq<u8>, src: nat, i: nat, done: nat, left: nat, tlvLen: nat, bound: nat)
    requires Laid(fs, size) && |fs| > 0 && i < |rs| && |rs[i]| == |fs| && dst + Span(|rs|, size) <= |mem|
    requires OnlyChanged(r.mem, mem, dst + Span(i, size), size)
    requires ValsCame(fs, rs[i], 0, r, dst + Span(i, size), left, bound)
    requires RecsAt(fs, rs, i + 1, inb, src + done + left) && done + left + RecsLeft(fs, rs, i + 1) <= tlvLen < Wrap
    requires src + done + left + RecsLeft(fs, rs, i + 1) <= bound
    requires LoadRecs(fs, mem, dst, size, i, Program) == rs[..i] && GoodFrom(fs, rs[i], 0)
    ensures r.rc == left
    ensures RecsCame(fs, rs, i, RunRecs(fs, size, r.mem, dst, inb, src, i + 1, |rs|, done + r.rc, tlvLen, r.reach), dst,
                     size, done + left + RecsLeft(fs, rs, i + 1), bound)
    decreases fs, 2, |rs| - i, 0, 0
  {
    assert Look(r);
    RecsMore(fs, size, rs, mem, r.mem, dst, dst + Span(i, size), i);
    RecsRun(fs, size, rs, r.mem, dst, inb, src, i + 1, done + left, tlvLen, r.reach, bound);
  }

  lemma {:induction false} RecsBad(fs: seq<Field>, size: nat, rs: seq<seq<Val>>, r: Out, dst: nat, inb: seq<u8>,
                                   src: nat, i: nat, done: nat, left: nat, tlvLen: nat, need: nat, bound: nat)
    requires Laid(fs, size) && i < |rs| && |rs[i]| == |fs| && dst + Span(|rs|, size) <= |r.mem|
    requires ValsCame(fs, rs[i], 0, r, dst + Span(i, size), left, bound) && !GoodFrom(fs, rs[i], 0)
    ensures RecsCame(fs, rs, i,
                     if r.rc < 0 then r
                       else RunRecs(fs, size, r.mem, dst, inb, src, i + 1, |rs|, done + r.rc, tlvLen, r.reach), dst,
                         size, need, bound)
  {
    assert Look(r);
    if r.rc >= 0 {
      RecsSpoilt(fs, size, rs, r.mem, dst, dst + Span(i, size), inb, src, i, done + r.rc, tlvLen, r.reach);
    }
  }

  /** Struct i alone. */
  lemma {:induction false} RecRun(fs: seq<Field>, size: nat, vs: seq<Val>, mem: seq<u8>, dst: nat, d: nat, inb: seq<u8>,
                                  src: nat, i: nat, n: nat, done: nat, left: nat, tlvLen: nat, reach: nat, bound: nat)
    returns (r: Out)
    requires Laid(fs, size) && |fs| == |vs| > 0 && i < n && d == dst + Span(i, size) && dst + Span(n, size) <= |mem|
    requires Framed(fs, vs, 0, inb, src + done, left) && done + left <= tlvLen < Wrap && reach <= bound
    requires src + done + left <= bound
    ensures done < tlvLen && d + size <= |mem|
    ensures r == RunRec(fs, size, mem, dst, inb, src, i, done, tlvLen, reach) && |r.mem| == |mem|
    ensures OnlyChanged(r.mem, mem, d, size)
    ensures ValsCame(fs, vs, 0, r, d, left, bound)
    decreases fs, 2, 0
  {
    assert Look(fs);
    FramedSome(fs, size, vs, inb, src + done, left);
    SpanMono(i, n, size);
    r := RunRec(fs, size, mem, dst, inb, src, i, done, tlvLen, reach);
    ValsRun(fs, size, vs, mem, d, inb, src + done, tlvLen - done, 0, 0, left, 0, reach, bound);
    ValsWrite(fs, size, mem, d, inb, src + done, tlvLen - done, 0, 0, 0, reach);
  }

  lemma {:induction false} FramedSome(fs: seq<Field>, size: nat, vs: seq<Val>, inb: seq<u8>, at: nat, left: nat)
    requires WfFields(fs, size, false) && |fs| == |vs| > 0 && Framed(fs, vs, 0, inb, at, left)
    ensures left > 0
  {
    var n := NextPiece(fs, vs, 0, inb, at, left);
    assert Look(vs[0]);
    assert WfField(fs[0], size, false);
    PayloadNonEmpty(fs[0], size, vs[0]);
  }

  lemma {:induction false} RecsMore(fs: seq<Field>, size: nat, rs: seq<seq<Val>>, was: seq<u8>, now: seq<u8>, dst: nat,
                                    d: nat, i: nat)
    requires Laid(fs, size) && i < |rs| && d == dst + Span(i, size) && dst + Span(|rs|, size) <= |was|
    requires OnlyChanged(now, was, d, size) && LoadRecs(fs, was, dst, size, i, Program) == rs[..i]
    requires LoadAll(fs, now, d, |fs|, Program) == rs[i]
    ensures LoadRecs(fs, now, dst, size, i + 1, Program) == rs[..i + 1]
  {
    assert Look(fs);
    SpanMono(i, |rs|, size);
    RecsFrame(fs, size, now, was, dst, i, Program);
    assert rs[..i + 1] == rs[..i] + [rs[i]];
  }

  /** A struct that is wrong stays wrong: the later ones are written elsewhere. */
  lemma {:induction false} RecsSpoilt(fs: seq<Field>, size: nat, rs: seq<seq<Val>>, mem: seq<u8>, dst: nat, d: nat,
                                      inb: seq<u8>, src: nat, i: nat, decoded: nat, tlvLen: nat, reach: nat)
    requires Laid(fs, size) && i < |rs| && d == dst + Span(i, size) && dst + Span(|rs|, size) <= |mem|
    requires LoadAll(fs, mem, d, |fs|, Program) != rs[i]
    ensures LoadRecs(fs, RunRecs(fs, size, mem, dst, inb, src, i + 1, |rs|, decoded, tlvLen, reach).mem, dst, size,
                     |rs|, Program) != rs
  {
    assert Look(fs);
    var r := RunRecs(fs, size, mem, dst, inb, src, i + 1, |rs|, decoded, tlvLen, reach);
    SpanMono(i, |rs|, size);
    RecsWrite(fs, size, mem, dst, inb, src, i + 1, |rs|, decoded, tlvLen, reach);
    AllFrame(fs, size, false, mem, r.mem, d, |fs|, Program);
    LoadRecsAt(fs, r.mem, dst, size, |rs|, i, Program);
  }

  // ---------- The fields of a nested struct ----------

  /** What a run over the fields from g on comes to. */
  ghost predicate ValsCame(fs: seq<Field>, vs: seq<Val>, g: nat, r: Out, base: nat, need: nat, bound: nat)
    requires g <= |fs| == |vs|
  {
    forall u {:trigger Look(u)} :: Look(u) && u == r ==>
      Outcome(u, u.rc >= 0 && LoadAll(fs, u.mem, base, |fs|, Program) == vs, GoodFrom(fs, vs, g), CalmFrom(fs, vs, g),
              need, bound)
  }

  /** The fields from g on stand in the input and take `left` bytes. */
  ghost predicate Framed(fs: seq<Field>, vs: seq<Val>, g: nat, inb: seq<u8>, at: nat, left: nat)
    requires g <= |fs| == |vs|
  {
    forall u {:trigger Look(u)} :: Look(u) && u == vs ==> ValsAt(fs, u, g, inb, at) && left == ValsLeft(fs, u, g)
  }

  /** The payload of a field of a nested struct stands in the input and takes n bytes. */
  ghost predicate PieceAt(f: Field, v: Val, inb: seq<u8>, at: nat, n: nat) {
    forall u {:trigger Look(u)} :: Look(u) && u == v ==> PayloadAt(f, u, false, inb, at) && n == |Payload(f, u, false)|
  }

  /** The first g fields have come through. */
  ghost predicate Loaded(fs: seq<Field>, mem: seq<u8>, base: nat, vs: seq<Val>, g: nat)
    requires g <= |fs| == |vs|
  {
    forall u {:trigger Look(u)} :: Look(u) && u == mem ==> LoadAll(fs, u, base, g, Program) == vs[..g]
  }

  lemma {:induction false} NextPiece(fs: seq<Field>, vs: seq<Val>, g: nat, inb: seq<u8>, at: nat, left: nat)
    returns (n: nat)
    requires g < |fs| == |vs| && Framed(fs, vs, g, inb, at, left)
    ensures n <= left && PieceAt(fs[g], vs[g], inb, at, n) && Framed(fs, vs, g + 1, inb, at + n, left - n)
  {
    assert Look(vs);
    n := |Payload(fs[g], vs[g], false)|;
  }

  /** From field g on, those before having come through. */
  lemma {:induction false} ValsRun(fs: seq<Field>, size: nat, vs: seq<Val>, mem: seq<u8>, base: nat, inb: seq<u8>,
                                   src: nat, room: nat, g: nat, done: nat, left: nat, stale: nat, reach: nat,
                                   bound: nat)
    requires Laid(fs, size) && g <= |fs| == |vs| && base + size <= |mem| && Loaded(fs, mem, base, vs, g)
    requires Framed(fs, vs, g, inb, src + done, left) && done + left <= room < Wrap
    requires reach <= bound && src + done + left <= bound && stale == StaleAt(vs, g) < Wrap
    ensures ValsCame(fs, vs, g, RunVals(fs, mem, base, inb, src, room, g, done, stale, reach), base, done + left, bound)
    decreases fs, 1, |fs| - g, 1
  {
    if g == |fs| {
      ValsDone(fs, vs, mem, inb, src + done, left, RunVals(fs, mem, base, inb, src, room, g, done, stale, reach), base,
               done, bound);
    } else {
      var n := NextPiece(fs, vs, g, inb, src + done, left);
      var r := ValRun(fs, size, vs, mem, base, inb, src, room, g, done, n, stale, reach, bound);
      ValsNext(fs, mem, base, inb, src, room, g, done, stale, reach, r);
      ValsTail(fs, size, vs, r, base, inb, src, room, g, done, n, left, stale, bound,
               GoodField(fs[g], vs[g], stale, false), CalmField(fs[g], vs[g], false));
    }
  }

  /** Field g is good, or calm, as said. */
  ghost predicate Judged(fs: seq<Field>, vs: seq<Val>, g: nat, stale: nat, good: bool, calm: bool)
    requires g < |fs| == |vs|
  {
    forall u {:trigger Look(u)} :: Look(u) && u == vs ==>
        good == GoodField(fs[g], u[g], stale, false) && calm == CalmField(fs[g], u[g], false)
  }

  /** The fields behind field g, which has come through, or not. */
  lemma {:induction false} ValsTail(fs: seq<Field>, size: nat, vs: seq<Val>, r: Out, base: nat, inb: seq<u8>, src: nat,
                                    room: nat, g: nat, done: nat, n: nat, left: nat, stale: nat, bound: nat, good: bool,
                                    calm: bool)
    requires Laid(fs, size) && g < |fs| == |vs| && base + size <= |r.mem| && stale == StaleAt(vs, g)
    requires Judged(fs, vs, g, stale, good, calm)
    requires n <= left && Framed(fs, vs, g + 1, inb, src + done + n, left - n) && done + left <= room < Wrap
    requires src + done + left <= bound
    requires Outcome(r, r.rc >= 0 && Load(fs[g], r.mem, base, Program) == vs[g], good, calm, n, bound)
    requires good ==> r.count == StaleAt(vs, g + 1) < Wrap && Loaded(fs, r.mem, base, vs, g + 1)
    ensures ValsCame(fs, vs, g, Tail(fs, r, base, inb, src, room, g, done), base, done + left, bound)
    decreases fs, 1, |fs| - g, 0
  {
    if good {
      ValsRun(fs, size, vs, r.mem, base, inb, src, room, g + 1, done + n, left - n, r.count, r.reach, bound);
    } else if r.rc >= 0 {
      ValsSpoilt(fs, size, vs, r.mem, base, inb, src, room, g, done + r.rc, r.count, r.reach);
    }
    ValsMore(fs, vs, g, stale, r, Tail(fs, r, base, inb, src, room, g, done), base, done + left, bound, good, calm);
  }

  /** The end of a run over the fields from g on, r being what field g came to. */
  ghost function Tail(fs: seq<Field>, r: Out, base: nat, inb: seq<u8>, src: nat, room: nat, g: nat, done: nat): Out
    requires g < |fs|
  {
    if r.rc < 0 then r else RunVals(fs, r.mem, base, inb, src, room, g + 1, done + r.rc, r.count, r.reach)
  }

  lemma {:induction false} ValsDone(fs: seq<Field>, vs: seq<Val>, mem: seq<u8>, inb: seq<u8>, at: nat, left: nat,
                                    r: Out, base: nat, done: nat, bound: nat)
    requires |fs| == |vs| && r.rc == done && r.mem == mem && r.reach <= bound && Loaded(fs, mem, base, vs, |fs|)
    requires Framed(fs, vs, |fs|, inb, at, left)
    ensures ValsCame(fs, vs, |fs|, r, base, done + left, bound)
  {
    assert Look(mem) && Look(vs);
    assert vs[..|fs|] == vs;
  }

  lemma {:induction false} ValsNext(fs: seq<Field>, mem: seq<u8>, base: nat, inb: seq<u8>, src: nat, room: nat, g: nat,
                                    done: nat, stale: nat, reach: nat, r: Out)
    requires g < |fs| && done < room && r == RunVal(fs, mem, base, inb, src, room, g, done, stale, reach)
    ensures RunVals(fs, mem, base, inb, src, room, g, done, stale, reach) == Tail(fs, r, base, inb, src, room, g, done)
  {
  }

  /** Field g and what the fields behind it come to, taken together. */
  lemma {:induction false} ValsMore(fs: seq<Field>, vs: seq<Val>, g: nat, stale: nat, r: Out, rest: Out, base: nat,
                                    need: nat, bound: nat, good: bool, calm: bool)
    requires g < |fs| == |vs| && stale == StaleAt(vs, g) && Judged(fs, vs, g, stale, good, calm)
    requires calm && !good ==> r.rc < 0 && r.reach <= bound
    requires good ==> ValsCame(fs, vs, g + 1, rest, base, need, bound)
    requires !good ==> if r.rc < 0 then rest == r else LoadAll(fs, rest.mem, base, |fs|, Program) != vs
    ensures ValsCame(fs, vs, g, rest, base, need, bound)
  {
    assert Look(vs) && Look(rest);
  }

  /** Field g alone. */
  lemma {:induction false} ValRun(fs: seq<Field>, size: nat, vs: seq<Val>, mem: seq<u8>, base: nat, inb: seq<u8>,
                                  src: nat, room: nat, g: nat, done: nat, n: nat, stale: nat, reach: nat, bound: nat)
    returns (r: Out)
    requires Laid(fs, size) && g < |fs| == |vs| && base + size <= |mem| && stale < Wrap && Loaded(fs, mem, base, vs, g)
    requires PieceAt(fs[g], vs[g], inb, src + done, n) && done + n <= room < Wrap && reach <= bound
    requires src + done + n <= bound
    ensures done < room && r == RunVal(fs, mem, base, inb, src, room, g, done, stale, reach) && |r.mem| == |mem|
    ensures Outcome(r, r.rc >= 0 && Load(fs[g], r.mem, base, Program) == vs[g], GoodField(fs[g], vs[g], stale, false),
                    CalmField(fs[g], vs[g], false), n, bound)
    ensures GoodField(fs[g], vs[g], stale, false) ==>
              r.count == StaleAt(vs, g + 1) < Wrap && Loaded(fs, r.mem, base, vs, g + 1)
    decreases fs, 1, 0
  {
    assert Look(fs);
    assert Look(vs[g]);
    var f := fs[g];
    assert WfField(f, size, false) && SeparateField(f);
    PayloadNonEmpty(f, size, vs[g]);
    r := RunVal(fs, mem, base, inb, src, room, g, done, stale, reach);
    FieldRuns(f, size, false, vs[g], mem, base, inb, src + done, stale, room - done, reach, bound);
    FieldWrites(f, size, false, mem, base, inb, src + done, stale, room - done, false, reach);
    if GoodField(f, vs[g], stale, false) {
      LoadedMore(fs, size, mem, r.mem, base, vs, g);
    }
  }

  lemma {:induction false} LoadedMore(fs: seq<Field>, size: nat, was: seq<u8>, now: seq<u8>, base: nat, vs: seq<Val>,
                                      g: nat)
    requires Laid(fs, size) && g < |fs| == |vs| && base + size <= |was| && Loaded(fs, was, base, vs, g)
    requires OwnedOnly(fs[g], now, was, base) && Load(fs[g], now, base, Program) == vs[g]
    ensures Loaded(fs, now, base, vs, g + 1)
  {
    assert Look(fs) && Look(was);
    UpdateOne(fs, size, false, was, now, base, g, g, Program);
    assert vs[..g + 1] == vs[..g] + [vs[g]];
  }

  lemma {:induction false} FieldKept(fs: seq<Field>, size: nat, top: bool, was: seq<u8>, now: seq<u8>, base: nat,
                                     g: nat, h: nat)
    requires WfFields(fs, size, top) && Separate(fs) && g < |fs| && h < |fs| && h != g && base + size <= |was|
    requires OwnedOnly(fs[g], now, was, base)
    ensures Load(fs[h], now, base, Program) == Load(fs[h], was, base, Program)
  {
    forall y | base <= y < |was| && Owns(fs[h], y - base) ensures now[y] == was[y] {
      assert !Owns(fs[g], y - base);
    }
    assert WfField(fs[h], size, top);
    FieldFrame(fs[h], size, top, now, was, base, Program);
  }

  /** A field that is wrong stays wrong: the later ones are written elsewhere. */
  lemma {:induction false} ValsSpoilt(fs: seq<Field>, size: nat, vs: seq<Val>, mem: seq<u8>, base: nat, inb: seq<u8>,
                                      src: nat, room: nat, g: nat, decoded: nat, stale: nat, reach: nat)
    requires Laid(fs, size) && g < |fs| == |vs| && base + size <= |mem| && Load(fs[g], mem, base, Program) != vs[g]
    ensures LoadAll(fs, RunVals(fs, mem, base, inb, src, room, g + 1, decoded, stale, reach).mem, base, |fs|,
                    Program) != vs
  {
    assert Look(fs);
    var r := RunVals(fs, mem, base, inb, src, room, g + 1, decoded, stale, reach);
    ValsKeep(fs, size, mem, base, inb, src, room, g + 1, decoded, stale, reach, g);
    LoadAllAt(fs, r.mem, base, |fs|, g, Program);
  }

  lemma {:induction false} ValsKeep(fs: seq<Field>, size: nat, mem: seq<u8>, base: nat, inb: seq<u8>, src: nat,
                                    room: nat, g: nat, decoded: nat, stale: nat, reach: nat, i: nat)
    requires Laid(fs, size) && i < g <= |fs| && base + size <= |mem|
    ensures Load(fs[i], RunVals(fs, mem, base, inb, src, room, g, decoded, stale, reach).mem, base, Program) ==
            Load(fs[i], mem, base, Program)
    decreases |fs| - g
  {
    assert Look(fs);
    if g < |fs| && decoded < room {
      var r := RunVal(fs, mem, base, inb, src, room, g, decoded, stale, reach);
      assert WfField(fs[g], size, false);
      FieldWrites(fs[g], size, false, mem, base, inb, src + decoded, stale, room - decoded, false, reach);
      FieldKept(fs, size, false, mem, r.mem, base, g, i);
      if r.rc >= 0 {
        ValsKeep(fs, size, r.mem, base, inb, src, room, g + 1, decoded + r.rc, r.count, r.reach, i);
      }
    }
  }

  // ---------- One field ----------

  /** The flag and the count of field f have been stored. */
  ghost predicate PrefixStored(f: Field, n: nat, now: seq<u8>, base: nat) {
    && (f.flag.Some? ==> base + f.flag.value < |now| && now[base + f.flag.value] != 0)
    && (f.count.Counted? ==> Peek(now, base + f.count.lenOff, 4) == Low(n, 4))
  }

  lemma {:induction false} PrefixIsStored(f: Field, size: nat, top: bool, mem: seq<u8>, base: nat, n: nat)
    requires LaidField(f, size, top) && base + size <= |mem|
    ensures PrefixStored(f, n, CountedMem(f, Flagged(f, mem, base), base, n), base)
  {
    assert Look(f);
    var m := Flagged(f, mem, base);
    var now := CountedMem(f, m, base, n);
    if f.count.Counted? {
      var p := base + f.count.lenOff;
      assert now[p..p + 4] == Low(n, 4);
    }
    if f.flag.Some? {
      assert InFlag(f, f.flag.value) && !InLen(f, f.flag.value);
    }
  }

  /** Storing the elements leaves the flag and the count alone. */
  lemma {:induction false} PrefixKept(f: Field, size: nat, top: bool, n: nat, was: seq<u8>, now: seq<u8>, base: nat)
    requires WfField(f, size, top) && SeparateField(f) && base + size <= |was|
    requires PrefixStored(f, n, was, base) && OnlyChanged(now, was, base + f.off, Extent(f))
    ensures PrefixStored(f, n, now, base)
  {
    if f.flag.Some? {
      assert InFlag(f, f.flag.value) && !InValue(f, f.flag.value);
    }
    if f.count.Counted? {
      var p := base + f.count.lenOff;
      forall i | p <= i < p + 4 ensures now[i] == was[i] {
        assert InLen(f, i - base) && !InValue(f, i - base);
      }
      PeekFrame(now, was, p, 4);
    }
  }

  /** Once they are stored, the field reads as that many elements. */
  lemma {:induction false} PrefixLoads(f: Field, size: nat, top: bool, n: nat, now: seq<u8>, base: nat)
    requires WfField(f, size, top) && base + size <= |now| && PrefixStored(f, n, now, base)
    requires n <= Capacity(f) && (f.count.One? ==> n == 1) && (f.count.Fixed? ==> n == f.elemLen)
    ensures Load(f, now, base, Program) == LoadBody(f, now, base, n, Program)
  {
    if f.count.Counted? {
      Wrap4();
      LeOfLow(n, 4);
    }
    assert CountIn(f, now, base, Program) == n;
  }

  lemma {:induction false} Wrap4()
    ensures Pow256(4) == Wrap
  {
    assert Pow256(1) == 256 && Pow256(2) == 256 * Pow256(1) && Pow256(3) == 256 * Pow256(2);
  }

  /** The count that is read, over what the length variable held. */
  lemma {:induction false} CountReads(f: Field, size: nat, top: bool, v: Val, inb: seq<u8>, src: nat, stale: nat)
    requires LaidField(f, size, top) && OkVal(f, v, top) && StandsAt(CountPrefix(f, v), inb, src) && stale < Wrap
    ensures var n := CountRead(f, inb, src, stale);
            && n < Wrap && NumElems(v) <= Capacity(f)
            && (n == NumElems(v) <==> !f.count.Counted? || stale < Pow256(LenWidth(f)))
            && (n != NumElems(v) ==> n >= Pow256(LenWidth(f)))
  {
    assert Look(f);
    if f.count.Counted? {
      var w, b := LenWidth(f), CountPrefix(f, v);
      StandsAtSlice(b, inb, src);
      LeOfLow(NumElems(v), w);
      Wrap4();
      SetLowBound(stale, b, 4);
      assert Peek(inb, src, w) == b;
      assert SetLow(stale, b) == HighPart(stale, w) + NumElems(v);
    }
  }

  /** The top-level counted arrays of basic elements: only these are not delimited by the length of their TLV. */
  predicate Delimited(f: Field) {
    f.kind.Basic? && f.count.Counted? ==> f.elemLen < Pow256(LenWidth(f))
  }

  // ---------- Elements ----------

  lemma {:induction false} BasicRuns(f: Field, size: nat, top: bool, v: Val, mem: seq<u8>, base: nat, inb: seq<u8>,
                                     src: nat, tlvLen: nat, reach: nat)
    requires LaidField(f, size, top) && f.kind.Basic? && OkVal(f, v, top) && base + size <= |mem|
    requires StandsAt(v.bytes, inb, src)
    ensures var r := RunBody(f, mem, base, inb, src, v.count, tlvLen, top, reach);
            && r.rc == |Body(f, v, top)| && r.reach == Max(reach, src + |v.bytes|) &&
               LoadBody(f, r.mem, base, v.count, Program) == v
  {
    assert Look(f);
    SpanMono(v.count, Capacity(f), f.elemSize);
    StandsAtSlice(v.bytes, inb, src);
    var now := Splice(mem, base + f.off, v.bytes);
    assert now[base + f.off..base + f.off + |v.bytes|] == v.bytes;
  }

  /** What the run over the elements of a field comes to, when their number is known. */
  ghost predicate BodyCame(f: Field, v: Val, top: bool, r: Out, base: nat, k: nat, bound: nat) {
    Outcome(r, r.rc >= 0 && LoadBody(f, r.mem, base, NumElems(v), Program) == v, GoodVal(f, v, top),
            CalmField(f, v, top), k, bound)
  }

  lemma {:induction false} BasicCame(f: Field, size: nat, top: bool, v: Val, mem: seq<u8>, base: nat, inb: seq<u8>,
                                     src: nat, tlvLen: nat, reach: nat, bound: nat)
    requires LaidField(f, size, top) && f.kind.Basic? && OkVal(f, v, top) && base + size <= |mem|
    requires BodyAt(f, v, top, inb, src) && reach <= bound && src + |Body(f, v, top)| <= bound
    ensures BodyCame(f, v, top, RunBody(f, mem, base, inb, src, NumElems(v), tlvLen, top, reach), base,
                     |Body(f, v, top)|, bound)
  {
    BasicRuns(f, size, top, v, mem, base, inb, src, tlvLen, reach);
  }

  lemma {:induction false} StringCame(f: Field, size: nat, top: bool, v: Val, mem: seq<u8>, base: nat, inb: seq<u8>,
                                      src: nat, tlvLen: nat, reach: nat, bound: nat)
    requires LaidField(f, size, top) && f.kind.Str? && OkVal(f, v, top) && base + size <= |mem|
    requires BodyAt(f, v, top, inb, src) && reach <= bound && src + |Body(f, v, top)| <= bound
    requires if top then tlvLen == |Body(f, v, top)| else |Body(f, v, top)| <= tlvLen
    ensures BodyCame(f, v, top, RunBody(f, mem, base, inb, src, NumElems(v), tlvLen, top, reach), base,
                     |Body(f, v, top)|, bound)
  {
    assert Look(f);
    var r := RunString(f, mem, base + f.off, inb, src, tlvLen, top, reach);
    StringHolds(f, size, mem, base, v.chars, inb, src, tlvLen, top, reach);
    StringJudged(f, v, top, r, base, bound);
  }

  lemma {:induction false} StringJudged(f: Field, v: Val, top: bool, r: Out, base: nat, bound: nat)
    requires f.kind.Str? && v.Text? && r.rc >= 0 && r.reach <= bound
    requires LoadBody(f, r.mem, base, 1, Program) == v <==> top || |v.chars| < Pow256(StrWidth(f))
    requires top || |v.chars| < Pow256(StrWidth(f)) ==> r.rc == |Body(f, v, top)|
    requires LoadBody(f, r.mem, base, 1, Program) == v || !CalmField(f, v, top)
    ensures BodyCame(f, v, top, r, base, |Body(f, v, top)|, bound)
  {
  }

  lemma {:induction false} BodyRuns(f: Field, size: nat, top: bool, v: Val, mem: seq<u8>, base: nat, inb: seq<u8>,
                                    src: nat, k: nat, tlvLen: nat, reach: nat, bound: nat)
    requires LaidField(f, size, top) && base + size <= |mem| && BodyHere(f, v, top, inb, src, k)
    requires reach <= bound && src + k <= bound && (if top then tlvLen == k else k <= tlvLen) && tlvLen < Wrap
    ensures BodyCame(f, v, top, RunBody(f, mem, base, inb, src, NumElems(v), tlvLen, top, reach), base, k, bound)
    decreases f, 0, 1
  {
    assert Look(v);
    match f.kind
    case Basic(_) => BasicCame(f, size, top, v, mem, base, inb, src, tlvLen, reach, bound);
    case Str => StringCame(f, size, top, v, mem, base, inb, src, tlvLen, reach, bound);
    case Struct(sub) =>
      RecsLeftIs(sub, v.recs, 0);
      StructsRun(f, size, top, sub, v.recs, mem, base, inb, src, tlvLen, reach, bound);
  }

  lemma {:induction false} StructsRun(f: Field, size: nat, top: bool, sub: seq<Field>, rs: seq<seq<Val>>, mem: seq<u8>,
                                      base: nat, inb: seq<u8>, src: nat, tlvLen: nat, reach: nat, bound: nat)
    requires LaidField(f, size, top) && base + size <= |mem| && f.kind == Struct(sub) && OkVal(f, Recs(rs), top)
    requires RecsAt(sub, rs, 0, inb, src) && reach <= bound && src + RecsLeft(sub, rs, 0) <= bound
    requires (if top then tlvLen == RecsLeft(sub, rs, 0) else RecsLeft(sub, rs, 0) <= tlvLen) && tlvLen < Wrap
    ensures var r := RunBody(f, mem, base, inb, src, |rs|, tlvLen, top, reach);
            Outcome(r, r.rc >= 0 && LoadBody(f, r.mem, base, |rs|, Program) == Recs(rs), GoodVal(f, Recs(rs), top),
                    CalmField(f, Recs(rs), top), RecsLeft(sub, rs, 0), bound)
    decreases f, 0, 0
  {
    assert Look(f);
    var p, n := base + f.off, |rs|;
    SpanMono(n, Capacity(f), f.elemSize);
    GoodStructs(f, Recs(rs), top, sub, rs);
    assert LoadRecs(sub, mem, p, f.elemSize, 0, Program) == rs[..0];
    RecsRun(sub, f.elemSize, rs, mem, p, inb, src, 0, 0, tlvLen, reach, bound);
    var r := RunRecs(sub, f.elemSize, mem, p, inb, src, 0, n, 0, tlvLen, reach);
    LoadStructs(f, sub, r.mem, base, p, n);
  }

  lemma {:induction false} LoadStructs(f: Field, sub: seq<Field>, mem: seq<u8>, base: nat, p: nat, n: nat)
    requires f.kind == Struct(sub) && p == base + f.off
    ensures LoadBody(f, mem, base, n, Program) == Recs(LoadRecs(sub, mem, p, f.elemSize, n, Program))
  {
    LoadValueIs(f, mem, base, Program);
  }

  /** A field, whatever the length variable holds when it is read. */
  lemma {:induction false} FieldRuns(f: Field, size: nat, top: bool, v: Val, mem: seq<u8>, base: nat, inb: seq<u8>,
                                     src: nat, stale: nat, tlvLen: nat, reach: nat, bound: nat)
    requires LaidField(f, size, top) && base + size <= |mem| && stale < Wrap
    requires PayloadAt(f, v, top, inb, src) && reach <= bound && src + |Payload(f, v, top)| <= bound
    requires (if top then tlvLen == |Payload(f, v, top)| else |Payload(f, v, top)| <= tlvLen) && tlvLen < Wrap
    ensures var r := RunField(f, mem, base, inb, src, stale, tlvLen, top, reach);
            && Outcome(r, r.rc >= 0 && Load(f, r.mem, base, Program) == v, GoodField(f, v, stale, top),
                       CalmField(f, v, top), |Payload(f, v, top)|, bound)
            && (r.rc >= 0 ==> r.count < Wrap)
            && (r.rc >= 0 && (!f.count.Counted? || stale < Pow256(LenWidth(f))) ==> r.count == NumElems(v))
            && (r.rc >= 0 && top && (Delimited(f) || stale < Pow256(LenWidth(f))) ==> r.rc == |Payload(f, v, top)|)
    decreases f, 2
  {
    var n := CountRead(f, inb, src, stale);
    CountReads(f, size, top, v, inb, src, stale);
    if !(f.count.Counted? && n > f.elemLen) {
      var m := CountedMem(f, Flagged(f, mem, base), base, n);
      PrefixIsStored(f, size, top, mem, base, n);
      var k := BodyBehind(f, v, top, inb, src, tlvLen);
      ElemsRun(f, size, top, v, m, base, inb, src, k, n, tlvLen, reach, bound);
      if f.kind.Struct? && top {
        StructsWhole(f, m, base, inb, src, n, tlvLen, reach);
      }
    }
  }

  /** The elements, behind the count, their number having been read rightly or not. */
  lemma {:induction false} ElemsRun(f: Field, size: nat, top: bool, v: Val, m: seq<u8>, base: nat, inb: seq<u8>,
                                    src: nat, k: nat, n: nat, tlvLen: nat, reach: nat, bound: nat)
    requires LaidField(f, size, top) && base + size <= |m| && PrefixStored(f, n, m, base)
    requires BodyHere(f, v, top, inb, src + Width(f), k) && reach <= bound && src + Width(f) + k <= bound
    requires (if top then tlvLen == Width(f) + k else Width(f) + k <= tlvLen) && tlvLen < Wrap
    requires Behind(f, tlvLen) == tlvLen - Width(f)
    requires n <= Capacity(f) && (f.count.One? ==> n == 1) && (f.count.Fixed? ==> n == f.elemLen)
    ensures var r := RunElems(f, m, base, inb, src, n, tlvLen, top, reach);
            r.count == n && ElemsCame(f, top, v, base, r, n, Width(f) + k, bound)
    decreases f, 1
  {
    var at := src + Width(f);
    BodyStored(f, size, top, v, m, base, inb, at, k, n, Behind(f, tlvLen), Max(reach, at), bound);
    CountAdded(f, top, v, base, RunBody(f, m, base, inb, at, n, Behind(f, tlvLen), top, Max(reach, at)), n, k, Width(f),
               bound);
  }

  /** What the elements come to, n being their number as read. */
  ghost predicate ElemsCame(f: Field, top: bool, v: Val, base: nat, r: Out, n: nat, need: nat, bound: nat) {
    && (n == NumElems(v) ==>
        Outcome(r, r.rc >= 0 && Load(f, r.mem, base, Program) == v, GoodVal(f, v, top), CalmField(f, v, top), need,
                bound))
    && (n != NumElems(v) ==> Load(f, r.mem, base, Program) != v)
  }

  lemma {:induction false} CountAdded(f: Field, top: bool, v: Val, base: nat, r: Out, n: nat, need: nat, w: nat,
                                      bound: nat)
    requires ElemsCame(f, top, v, base, r, n, need, bound)
    ensures ElemsCame(f, top, v, base, Out(if r.rc < 0 then r.rc else w + r.rc, r.mem, r.reach, n), n, w + need, bound)
  {
  }

  /** The same, behind the count. */
  lemma {:induction false} BodyStored(f: Field, size: nat, top: bool, v: Val, m: seq<u8>, base: nat, inb: seq<u8>,
                                      at: nat, k: nat, n: nat, left: nat, reach: nat, bound: nat)
    requires LaidField(f, size, top) && base + size <= |m| && PrefixStored(f, n, m, base)
    requires BodyHere(f, v, top, inb, at, k) && reach <= bound && at + k <= bound
    requires (if top then left == k else k <= left) && left < Wrap
    requires n <= Capacity(f) && (f.count.One? ==> n == 1) && (f.count.Fixed? ==> n == f.elemLen)
    ensures ElemsCame(f, top, v, base, RunBody(f, m, base, inb, at, n, left, top, reach), n, k, bound)
    decreases f, 0, 2
  {
    StoredLoads(f, size, top, m, base, inb, at, n, left, reach);
    if n == NumElems(v) {
      BodyRuns(f, size, top, v, m, base, inb, at, k, left, reach, bound);
    } else {
      ElementsLoad(f, size, top, inb, at, k, RunBody(f, m, base, inb, at, n, left, top, reach).mem, base, n, v);
    }
  }

  /** An array of structs in a message uses up its TLV. */
  lemma {:induction false} StructsWhole(f: Field, m: seq<u8>, base: nat, inb: seq<u8>, src: nat, n: nat, tlvLen: nat,
                                        reach: nat)
    requires f.kind.Struct? && Behind(f, tlvLen) == tlvLen - Width(f)
    ensures var r := RunElems(f, m, base, inb, src, n, tlvLen, true, reach); r.rc >= 0 ==> r.rc == tlvLen
  {
    var at := src + Width(f);
    var r := RunStructs(f.kind.sub, f.elemSize, m, base + f.off, inb, at, n, Behind(f, tlvLen), true, Max(reach, at));
    assert r == RunBody(f, m, base, inb, at, n, Behind(f, tlvLen), true, Max(reach, at));
    assert r.rc >= 0 ==> r.rc == Behind(f, tlvLen);
  }

  /** The elements stand in the input and take k bytes. */
  ghost predicate BodyHere(f: Field, v: Val, top: bool, inb: seq<u8>, at: nat, k: nat) {
    forall u {:trigger Look(u)} :: Look(u) && u == v ==>
        OkVal(f, u, top) && BodyAt(f, u, top, inb, at) && k == |Body(f, u, top)|
  }

  lemma {:induction false} BodyBehind(f: Field, v: Val, top: bool, inb: seq<u8>, src: nat, tlvLen: nat) returns (k: nat)
    requires PayloadAt(f, v, top, inb, src) && |Payload(f, v, top)| <= tlvLen < Wrap
    ensures BodyHere(f, v, top, inb, src + Width(f), k)
    ensures |Payload(f, v, top)| == Width(f) + k && Behind(f, tlvLen) == tlvLen - Width(f)
  {
    k := |Body(f, v, top)|;
  }

  lemma {:induction false} ElementsLoad(f: Field, size: nat, top: bool, inb: seq<u8>, at: nat, k: nat, mem: seq<u8>,
                                        base: nat, n: nat, v: Val)
    requires LaidField(f, size, top) && BodyHere(f, v, top, inb, at, k) && n != NumElems(v) && (f.count.One? ==> n == 1)
    ensures LoadBody(f, mem, base, n, Program) != v
  {
    assert Look(v);
    assert Look(f);
    LoadValueIs(f, mem, base, Program);
  }

  /** When the elements have been stored behind the flag and the count, the field reads as those elements. */
  lemma {:induction false} StoredLoads(f: Field, size: nat, top: bool, m: seq<u8>, base: nat, inb: seq<u8>, src: nat,
                                       n: nat, tlvLen: nat, reach: nat)
    requires LaidField(f, size, top) && base + size <= |m| && PrefixStored(f, n, m, base)
    requires n <= Capacity(f) && (f.count.One? ==> n == 1) && (f.count.Fixed? ==> n == f.elemLen)
    ensures var r := RunBody(f, m, base, inb, src, n, tlvLen, top, reach);
            Load(f, r.mem, base, Program) == LoadBody(f, r.mem, base, n, Program)
  {
    assert Look(f);
    var r := RunBody(f, m, base, inb, src, n, tlvLen, top, reach);
    BodyWrites(f, size, m, base, inb, src, n, tlvLen, top, top, reach);
    PrefixKept(f, size, top, n, m, r.mem, base);
    PrefixLoads(f, size, top, n, r.mem, base);
  }
}
