/**
 What one call of the encoder writes, whether it succeeds or not: the pieces of the fields that pass, and, of the first
 field that does not, the payload up to the check that refuses it. And how far that reaches.
 */
module QmiWrites {
  import opened Bytes
  import opened QmiDescriptor
  import opened QmiValue
  import opened QmiAccept

  /** Bytes of the pending header in front of the payload under construction. */
  function Hole(top: bool): nat {
    if top then 3 else 0
  }

  // ---------- Where the encoder stops ----------

  /** The field can be sent, and its checks pass. */
  predicate Passes(f: Field, v: Val, top: bool, used: nat, outLen: nat) {
    Sendable(f, v) && AcceptsField(f, v, top, used, outLen)
  }

  /** The first g fields do. */
  predicate Passed(fs: seq<Field>, vs: seq<Val>, g: nat, top: bool, outLen: nat)
    requires g <= |fs| && g <= |vs|
  {
    SendableUpTo(fs, vs, g) && AcceptsVals(fs, vs, g, top, outLen)
  }

  /** The number of fields before the first that does not pass. */
  function Halt(fs: seq<Field>, vs: seq<Val>, g: nat, top: bool, outLen: nat): (n: nat)
    requires g <= |fs| && g <= |vs|
    ensures n <= g
  {
    if g == 0 then 0
    else
      var n := Halt(fs, vs, g - 1, top, outLen);
      if n == g - 1 && Passes(fs[n], vs[n], top, |Wire(fs, vs, n, top)|, outLen) then g else n
  }

  lemma {:induction false} HaltIs(fs: seq<Field>, vs: seq<Val>, g: nat, top: bool, outLen: nat)
    requires g <= |fs| && g <= |vs|
    ensures var n := Halt(fs, vs, g, top, outLen);
            && Passed(fs, vs, n, top, outLen)
            && (n < g ==> !Passes(fs[n], vs[n], top, |Wire(fs, vs, n, top)|, outLen))
            && (Passed(fs, vs, g, top, outLen) <==> n == g)
  {
    if g > 0 {
      HaltIs(fs, vs, g - 1, top, outLen);
    }
  }

  /** The first fields pass and the next does not. */
  lemma {:induction false} HaltAt(fs: seq<Field>, vs: seq<Val>, h: nat, g: nat, top: bool, outLen: nat)
    requires h < g <= |fs| && g <= |vs| && Passed(fs, vs, h, top, outLen)
    requires !Passes(fs[h], vs[h], top, |Wire(fs, vs, h, top)|, outLen)
    ensures Halt(fs, vs, g, top, outLen) == h
    decreases g
  {
    if h < g - 1 {
      HaltAt(fs, vs, h, g - 1, top, outLen);
    } else {
      HaltIs(fs, vs, h, top, outLen);
    }
  }

  lemma {:induction false} HaltMono(fs: seq<Field>, vs: seq<Val>, g: nat, h: nat, top: bool, outLen: nat)
    requires g <= h <= |fs| && h <= |vs| && Passed(fs, vs, g, top, outLen)
    ensures g <= Halt(fs, vs, h, top, outLen)
    decreases h
  {
    if g < h {
      HaltMono(fs, vs, g, h - 1, top, outLen);
    } else {
      HaltIs(fs, vs, g, top, outLen);
    }
  }

  predicate RecPasses(fs: seq<Field>, r: seq<Val>, used: nat, outLen: nat) {
    |r| == |fs| && Passed(fs, r, |fs|, false, Left(outLen, used))
  }

  predicate RecsPassed(fs: seq<Field>, rs: seq<seq<Val>>, n: nat, outLen: nat)
    requires n <= |rs|
  {
    n == 0 || (RecsPassed(fs, rs, n - 1, outLen) && RecPasses(fs, rs[n - 1], |WireRecs(fs, rs, n - 1)|, outLen))
  }

  /** The number of structs before the first that does not pass. */
  function RecHalt(fs: seq<Field>, rs: seq<seq<Val>>, n: nat, outLen: nat): (m: nat)
    requires n <= |rs|
    ensures m <= n
  {
    if n == 0 then 0
    else
      var m := RecHalt(fs, rs, n - 1, outLen);
      if m == n - 1 && RecPasses(fs, rs[m], |WireRecs(fs, rs, m)|, outLen) then n else m
  }

  lemma {:induction false} RecHaltIs(fs: seq<Field>, rs: seq<seq<Val>>, n: nat, outLen: nat)
    requires n <= |rs|
    ensures var m := RecHalt(fs, rs, n, outLen);
            && RecsPassed(fs, rs, m, outLen)
            && (m < n ==> !RecPasses(fs, rs[m], |WireRecs(fs, rs, m)|, outLen))
            && (RecsPassed(fs, rs, n, outLen) <==> m == n)
  {
    if n > 0 {
      RecHaltIs(fs, rs, n - 1, outLen);
    }
  }

  lemma {:induction false} RecHaltAt(fs: seq<Field>, rs: seq<seq<Val>>, m: nat, n: nat, outLen: nat)
    requires m < n <= |rs| && RecsPassed(fs, rs, m, outLen) && !RecPasses(fs, rs[m], |WireRecs(fs, rs, m)|, outLen)
    ensures RecHalt(fs, rs, n, outLen) == m
    decreases n
  {
    if m < n - 1 {
      RecHaltAt(fs, rs, m, n - 1, outLen);
    } else {
      RecHaltIs(fs, rs, m, outLen);
    }
  }

  // ---------- The bytes written ----------

  /** Of the elements of a field, behind `used` encoded bytes. */
  function BodyPut(f: Field, v: Val, top: bool, used: nat, outLen: nat): seq<u8>
    decreases f, 0
  {
    match f.kind
    case Basic(_) => if AcceptsBody(f, v, top, used, outLen) then Body(f, v, top) else []
    case Str => if AcceptsBody(f, v, top, used, outLen) then Body(f, v, top) else []
    case Struct(sub) => if v.Recs? then RecsPut(sub, v.recs, Left(outLen, used)) else []
  }

  /** Of the payload of a field: nothing when the count is refused. */
  function FieldPut(f: Field, v: Val, top: bool, used: nat, outLen: nat): seq<u8>
    decreases f, 1
  {
    if v.Absent? || (f.count.Counted? && LenWidth(f) + used + 3 > outLen) then []
    else CountPrefix(f, v) + BodyPut(f, v, top, used + |CountPrefix(f, v)|, outLen)
  }

  /** Of the first field that does not pass. */
  function Pending(fs: seq<Field>, vs: seq<Val>, top: bool, outLen: nat): seq<u8>
    requires |vs| == |fs|
    decreases fs, 0
  {
    var n := Halt(fs, vs, |fs|, top, outLen);
    if n < |fs| then FieldPut(fs[n], vs[n], top, |Wire(fs, vs, n, top)|, outLen) else []
  }

  /** Of an array of structs. */
  function RecsPut(fs: seq<Field>, rs: seq<seq<Val>>, outLen: nat): seq<u8>
    decreases fs, 2
  {
    var m := RecHalt(fs, rs, |rs|, outLen);
    var used := |WireRecs(fs, rs, m)|;
    WireRecs(fs, rs, m) + if m < |rs| && |rs[m]| == |fs| then ValsPut(fs, rs[m], Left(outLen, used)) else []
  }

  /** Of one of its structs. */
  function ValsPut(fs: seq<Field>, vs: seq<Val>, outLen: nat): seq<u8>
    requires |vs| == |fs|
    decreases fs, 1
  {
    Wire(fs, vs, Halt(fs, vs, |fs|, false, outLen), false) + Pending(fs, vs, false, outLen)
  }

  /**
   The buffer after a call that writes from `start` on. At the top level a header is filled in behind its payload, so in
   front of a payload that is refused there is a hole.
   */
  function After(was: seq<u8>, start: nat, fs: seq<Field>, vs: seq<Val>, top: bool, outLen: nat): seq<u8>
    requires |vs| == |fs|
  {
    var pre := Wire(fs, vs, Halt(fs, vs, |fs|, top, outLen), top);
    Splice(Splice(was, start, pre), start + |pre| + Hole(top), Pending(fs, vs, top, outLen))
  }

  /** The end of the bytes written. */
  function Reach(fs: seq<Field>, vs: seq<Val>, top: bool, outLen: nat): nat
    requires |vs| == |fs|
  {
    var pend := Pending(fs, vs, top, outLen);
    |Wire(fs, vs, Halt(fs, vs, |fs|, top, outLen), top)| + if pend == [] then 0 else Hole(top) + |pend|
  }

  /** There is memory for that. */
  predicate Room(fs: seq<Field>, vs: seq<Val>, top: bool, outLen: nat, start: nat, memory: nat)
    requires |vs| == |fs|
  {
    Reach(fs, vs, top, outLen) == 0 || start + Reach(fs, vs, top, outLen) <= memory
  }

  /** An array that passes is written in full. */
  lemma {:induction false} RecsFull(fs: seq<Field>, rs: seq<seq<Val>>, outLen: nat)
    requires RecsPassed(fs, rs, |rs|, outLen)
    ensures RecsPut(fs, rs, outLen) == WireRecs(fs, rs, |rs|)
  {
    RecHaltIs(fs, rs, |rs|, outLen);
  }

  lemma {:induction false} RecsPassedIff(fs: seq<Field>, rs: seq<seq<Val>>, n: nat, outLen: nat)
    requires n <= |rs|
    ensures RecsPassed(fs, rs, n, outLen) <==>
            AcceptsRecs(fs, rs, n, outLen) && forall i :: 0 <= i < n ==> |rs[i]| == |fs| && AllSendable(fs, rs[i])
  {
    if n > 0 {
      RecsPassedIff(fs, rs, n - 1, outLen);
      if |rs[n - 1]| == |fs| {
        SendableAll(fs, rs[n - 1], |fs|);
      }
    }
  }

  lemma {:induction false} BodyFull(f: Field, v: Val, top: bool, used: nat, outLen: nat)
    requires Sendable(f, v) && AcceptsBody(f, v, top, used, outLen)
    ensures BodyPut(f, v, top, used, outLen) == Body(f, v, top)
  {
    if f.kind.Struct? && v.Recs? {
      RecsPassedIff(f.kind.sub, v.recs, |v.recs|, Left(outLen, used));
      RecsFull(f.kind.sub, v.recs, Left(outLen, used));
    }
  }

  /** A field that passes is written in full. */
  lemma {:induction false} FieldFull(f: Field, v: Val, top: bool, used: nat, outLen: nat)
    requires Passes(f, v, top, used, outLen) && !v.Absent?
    ensures FieldPut(f, v, top, used, outLen) == Payload(f, v, top)
  {
    BodyFull(f, v, top, used + |CountPrefix(f, v)|, outLen);
  }

  /** A struct inside another is written without a hole. */
  lemma {:induction false} AfterNested(was: seq<u8>, start: nat, fs: seq<Field>, vs: seq<Val>, outLen: nat)
    requires |vs| == |fs|
    ensures After(was, start, fs, vs, false, outLen) == Splice(was, start, ValsPut(fs, vs, outLen))
    ensures Reach(fs, vs, false, outLen) == |ValsPut(fs, vs, outLen)|
  {
    var pre := Wire(fs, vs, Halt(fs, vs, |fs|, false, outLen), false);
    SpliceAppend(was, start, pre, Pending(fs, vs, false, outLen));
  }

  /** What passes is written in full and nothing else. */
  lemma {:induction false} AfterAll(was: seq<u8>, start: nat, fs: seq<Field>, vs: seq<Val>, top: bool, outLen: nat)
    requires |vs| == |fs| && Passed(fs, vs, |fs|, top, outLen)
    ensures After(was, start, fs, vs, top, outLen) == Splice(was, start, Wire(fs, vs, |fs|, top))
    ensures Reach(fs, vs, top, outLen) == |Wire(fs, vs, |fs|, top)|
  {
    HaltIs(fs, vs, |fs|, top, outLen);
    SpliceAppend(was, start, Wire(fs, vs, |fs|, top), []);
    assert Wire(fs, vs, |fs|, top) + [] == Wire(fs, vs, |fs|, top);
  }
}
