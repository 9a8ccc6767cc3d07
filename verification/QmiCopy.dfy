/** Byte-wise copying into a buffer. */
module QmiCopy {
  import opened Bytes

  method Memcpy(buf: array<u8>, dst: nat, src: seq<u8>, start: nat, n: nat)
    requires dst + n <= buf.Length && start + n <= |src|
    modifies buf
    ensures forall k :: dst <= k < dst + n ==> buf[k] == src[start + (k - dst)]
    ensures forall k :: 0 <= k < buf.Length && !(dst <= k < dst + n) ==> buf[k] == old(buf[k])
  {
    forall k | 0 <= k < n {
      buf[dst + k] := src[start + k];
    }
  }

  /** Copies elemLen elements one after the other, as both the encoder and the decoder do for basic elements. */
  method CopyElems(buf: array<u8>, dst: nat, src: seq<u8>, start: nat, elemLen: nat, elemSize: nat) returns (rc: nat)
    requires dst + Span(elemLen, elemSize) <= buf.Length && start + Span(elemLen, elemSize) <= |src|
    modifies buf
    ensures rc == Span(elemLen, elemSize)
    ensures buf[..] == Splice(old(buf[..]), dst, src[start..start + rc])
  {
    rc := 0;
    var d, s := dst, start;
    for i := 0 to elemLen
      invariant rc == Span(i, elemSize) <= Span(elemLen, elemSize)
      invariant d == dst + rc && s == start + rc
      invariant forall k :: dst <= k < d ==> buf[k] == src[start + (k - dst)]
      invariant forall k :: 0 <= k < buf.Length && !(dst <= k < d) ==> buf[k] == old(buf[k])
    {
      SpanMono(i, elemLen, elemSize);
      Memcpy(buf, d, src, s, elemSize);
      d, s := d + elemSize, s + elemSize;
      rc := rc + elemSize;
    }
    assert buf[..] == Splice(old(buf[..]), dst, src[start..start + rc]);
  }
}
