/** The bytes of a message read without any table, as a sequence of types and payloads. */
module QmiTlvs {
  import opened Bytes
  import opened QmiDescriptor
  import opened QmiValue

  /** Type, 16-bit length and payload, one after the other up to the end of the input. */
  function Tlvs(b: seq<u8>): (r: Option<seq<(u8, seq<u8>)>>)
    ensures r.Some? ==> 3 * |r.value| <= |b|
  {
    if |b| == 0 then Some([])
    else if |b| < 3 || 3 + Word(b[1], b[2]) > |b| then None
    else
      var n := 3 + Word(b[1], b[2]);
      match Tlvs(b[n..])
      case None => None
      case Some(rest) => Some([(b[0], b[3..n])] + rest)
  }

  /** The TLVs that a struct of these values is to be sent as: one for each present field, in the order of the table. */
  function SentTlvs(fs: seq<Field>, vs: seq<Val>, g: nat): seq<(u8, seq<u8>)>
    requires g <= |fs| && g <= |vs|
  {
    if g == 0 then []
    else if vs[g - 1].Absent? then SentTlvs(fs, vs, g - 1)
    else SentTlvs(fs, vs, g - 1) + [(fs[g - 1].tlv, Payload(fs[g - 1], vs[g - 1], true))]
  }

  /** The first TLV of the input and those behind it. */
  lemma {:induction false} FirstTlv(b: seq<u8>, tlv: u8, payload: seq<u8>, rest: seq<u8>)
    requires b == Tlv(tlv, payload) + rest && |payload| < 0x1_0000
    ensures Tlvs(b) == match Tlvs(rest) case None => None case Some(r) => Some([(tlv, payload)] + r)
  {
    FirstBytes(b, tlv, payload, rest);
  }

  lemma {:induction false} FirstBytes(b: seq<u8>, tlv: u8, payload: seq<u8>, rest: seq<u8>)
    requires b == Tlv(tlv, payload) + rest && |payload| < 0x1_0000
    ensures var n := 3 + |payload|;
            n <= |b| && b[0] == tlv && Word(b[1], b[2]) == |payload| && b[3..n] == payload && b[n..] == rest
  {
    HeaderBytes(tlv, |payload|);
    assert b[0] == tlv && b[1] == |payload| % 256 && b[2] == |payload| / 256 % 256;
  }

  lemma {:induction false} FrontKept(b: seq<u8>, t: seq<u8>, n: nat)
    requires 3 <= n <= |b|
    ensures (b + t)[n..] == b[n..] + t && (b + t)[3..n] == b[3..n] && (b + t)[..3] == b[..3]
  {
  }

  /** One more TLV behind others. */
  lemma {:induction false} TlvBehind(b: seq<u8>, tlv: u8, payload: seq<u8>)
    requires Tlvs(b).Some? && |payload| < 0x1_0000
    ensures Tlvs(b + Tlv(tlv, payload)) == Some(Tlvs(b).value + [(tlv, payload)])
    decreases |b|
  {
    var t := Tlv(tlv, payload);
    if |b| == 0 {
      assert b + t == t + [] && [] + [(tlv, payload)] == [(tlv, payload)] + [];
      FirstTlv(b + t, tlv, payload, []);
    } else {
      var n := 3 + Word(b[1], b[2]);
      FrontKept(b, t, n);
      TlvBehind(b[n..], tlv, payload);
      assert ([(b[0], b[3..n])] + Tlvs(b[n..]).value) + [(tlv, payload)] ==
             [(b[0], b[3..n])] + (Tlvs(b[n..]).value + [(tlv, payload)]);
    }
  }

  /** What is read has lengths of 16 bits. */
  lemma {:induction false} TlvsShort(b: seq<u8>)
    requires Tlvs(b).Some?
    ensures forall i :: 0 <= i < |Tlvs(b).value| ==> |Tlvs(b).value[i].1| < 0x1_0000
    decreases |b|
  {
    if |b| > 0 {
      TlvsShort(b[3 + Word(b[1], b[2])..]);
    }
  }

  /** The payloads of the first g fields are not too long for the length field of a TLV. */
  predicate Short(fs: seq<Field>, vs: seq<Val>, g: nat)
    requires g <= |fs| && g <= |vs|
  {
    g == 0 || (Short(fs, vs, g - 1) && (vs[g - 1].Absent? || |Payload(fs[g - 1], vs[g - 1], true)| < 0x1_0000))
  }

  /**
   What the encoder writes reads as just the TLVs it is to send, if and only if none is too long for its length field.
   */
  lemma {:induction false} WireParses(fs: seq<Field>, vs: seq<Val>, g: nat)
    requires g <= |fs| && g <= |vs|
    ensures Tlvs(Wire(fs, vs, g, true)) == Some(SentTlvs(fs, vs, g)) <==> Short(fs, vs, g)
    ensures |Wire(fs, vs, g, true)| < 0x1_0000 ==> Tlvs(Wire(fs, vs, g, true)) == Some(SentTlvs(fs, vs, g))
  {
    if |Wire(fs, vs, g, true)| < 0x1_0000 {
      ShortMessage(fs, vs, g);
    }
    if Short(fs, vs, g) {
      ShortParses(fs, vs, g);
    } else if Tlvs(Wire(fs, vs, g, true)) == Some(SentTlvs(fs, vs, g)) {
      TlvsShort(Wire(fs, vs, g, true));
      SentTlvsShort(fs, vs, g);
    }
  }

  lemma {:induction false} ShortParses(fs: seq<Field>, vs: seq<Val>, g: nat)
    requires g <= |fs| && g <= |vs| && Short(fs, vs, g)
    ensures Tlvs(Wire(fs, vs, g, true)) == Some(SentTlvs(fs, vs, g))
  {
    if g > 0 {
      ShortParses(fs, vs, g - 1);
      WireStep(fs, vs, g - 1, true);
      if !vs[g - 1].Absent? {
        TlvBehind(Wire(fs, vs, g - 1, true), fs[g - 1].tlv, Payload(fs[g - 1], vs[g - 1], true));
      }
    }
  }

  lemma {:induction false} SentTlvsShort(fs: seq<Field>, vs: seq<Val>, g: nat)
    requires g <= |fs| && g <= |vs|
    requires forall i :: 0 <= i < |SentTlvs(fs, vs, g)| ==> |SentTlvs(fs, vs, g)[i].1| < 0x1_0000
    ensures Short(fs, vs, g)
  {
    if g > 0 {
      var before, all := SentTlvs(fs, vs, g - 1), SentTlvs(fs, vs, g);
      forall i | 0 <= i < |before| ensures |before[i].1| < 0x1_0000 {
        assert before[i] == all[i];
      }
      SentTlvsShort(fs, vs, g - 1);
      if !vs[g - 1].Absent? {
        assert all[|before|] == (fs[g - 1].tlv, Payload(fs[g - 1], vs[g - 1], true));
      }
    }
  }

  /** A message that the header can count has no payload that is too long. */
  lemma {:induction false} ShortMessage(fs: seq<Field>, vs: seq<Val>, g: nat)
    requires g <= |fs| && g <= |vs| && |Wire(fs, vs, g, true)| < 0x1_0000
    ensures Short(fs, vs, g)
  {
    if g > 0 {
      WireStep(fs, vs, g - 1, true);
      ShortMessage(fs, vs, g - 1);
    }
  }
}
