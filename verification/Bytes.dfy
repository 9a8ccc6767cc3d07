/** Bytes, little-endian words and in-place overwriting of a stretch of a buffer. */
module Bytes {
  type u8 = x: int | 0 <= x < 256
  type u32 = x: int | 0 <= x < 0x1_0000_0000

  const ENOENT := 2
  const EFAULT := 14
  const EINVAL := 22
  const EMSGSIZE := 90

  datatype Option<+T> = None | Some(value: T)

  function Pow256(k: nat): (p: nat)
    ensures p >= 1
  {
    if k == 0 then 1 else 256 * Pow256(k - 1)
  }

  lemma {:induction false} Pow256Mono(k: nat, j: nat)
    requires k <= j
    ensures Pow256(k) <= Pow256(j)
    decreases j
  {
    if k < j {
      Pow256Mono(k, j - 1);
    }
  }

  /** n * size, the bytes taken by n elements, in the form that loops over the elements build it up. */
  function Span(n: nat, size: nat): (b: nat)
    ensures n == 1 ==> b == size
  {
    if n == 0 then 0 else Span(n - 1, size) + size
  }

  lemma {:induction false} SpanIsProduct(n: nat, size: nat)
    ensures Span(n, size) == n * size
  {
    if n > 0 {
      SpanIsProduct(n - 1, size);
      assert n * size == (n - 1) * size + size;
    }
  }

  lemma {:induction false} SpanOfBytes(n: nat)
    ensures Span(n, 1) == n
  {
    if n > 0 {
      SpanOfBytes(n - 1);
    }
  }

  lemma {:induction false} SpanMono(i: nat, n: nat, size: nat)
    requires i <= n
    ensures Span(i, size) <= Span(n, size)
    ensures i < n ==> Span(i + 1, size) == Span(i, size) + size <= Span(n, size)
    ensures size >= 1 ==> n - i <= Span(n, size) - Span(i, size)
    decreases n
  {
    if i < n {
      SpanMono(i, n - 1, size);
    }
  }

  /** The k low-order bytes of n, least significant first (a memcpy of k bytes out of a wider word). */
  function Low(n: nat, k: nat): (b: seq<u8>)
    ensures |b| == k
  {
    if k == 0 then [] else [n % 256] + Low(n / 256, k - 1)
  }

  function Le(b: seq<u8>): nat {
    if |b| == 0 then 0 else b[0] + 256 * Le(b[1..])
  }

  lemma {:induction false} LeBound(b: seq<u8>)
    ensures Le(b) < Pow256(|b|)
  {
    if |b| > 0 {
      LeBound(b[1..]);
    }
  }

  lemma {:induction false} LeOfLow(n: nat, k: nat)
    requires n < Pow256(k)
    ensures Le(Low(n, k)) == n
  {
    if k > 0 {
      LeOfLow(n / 256, k - 1);
      assert Low(n, k)[1..] == Low(n / 256, k - 1);
    }
  }

  /** Bytes that are cut off are cut off by the remainder. */
  lemma {:induction false} LeOfLowMod(n: nat, k: nat)
    ensures Le(Low(n, k)) == n % Pow256(k)
  {
    if k > 0 {
      LeOfLowMod(n / 256, k - 1);
      assert Low(n, k)[1..] == Low(n / 256, k - 1);
      ModSplit(n, Pow256(k - 1));
    }
  }

  lemma {:induction false} ModSplit(n: nat, p: nat)
    requires p > 0
    ensures n % (256 * p) == n % 256 + 256 * (n / 256 % p)
  {
    var q, r := n / 256 / p, n / 256 % p;
    assert n / 256 == q * p + r;
    assert n == 256 * (n / 256) + n % 256;
    assert n == (256 * p) * q + (n % 256 + 256 * r) by {
      assert 256 * (q * p + r) == (256 * p) * q + 256 * r;
    }
    assert n % 256 + 256 * r < 256 * p;
    ModUnique(n, 256 * p, q, n % 256 + 256 * r);
  }

  lemma {:induction false} ModUnique(n: nat, m: nat, q: nat, r: nat)
    requires n == m * q + r && r < m
    ensures n % m == r
  {
    var d := n / m - q;
    assert m * (n / m) + n % m == n;
    assert m * (n / m) - m * q == m * d;
    MulGap(m, d);
  }

  lemma {:induction false} MulGap(m: int, d: int)
    requires m > 0
    ensures d >= 1 ==> m * d >= m
    ensures d <= -1 ==> m * d <= -m
  {
  }

  lemma {:induction false} LowPrefix(n: nat, k: nat, j: nat)
    requires j <= k
    ensures Low(n, k)[..j] == Low(n, j)
  {
    if j > 0 {
      LowPrefix(n / 256, k - 1, j - 1);
      assert Low(n, k)[..j] == [n % 256] + Low(n / 256, k - 1)[..j - 1];
    }
  }

  /** Overwriting only the low bytes of a word keeps its high-order part. */
  function SetLow(word: nat, b: seq<u8>): nat {
    HighPart(word, |b|) + Le(b)
  }

  /** The word with its k low-order bytes cleared. */
  function HighPart(word: nat, k: nat): (h: nat)
    ensures h <= word
    ensures word < Pow256(k) ==> h == 0
    ensures word >= Pow256(k) ==> h >= Pow256(k)
  {
    if k == 0 then word else 256 * HighPart(word / 256, k - 1)
  }

  lemma {:induction false} SetLowBound(word: nat, b: seq<u8>, k: nat)
    requires word < Pow256(k) && |b| <= k
    ensures SetLow(word, b) < Pow256(k)
  {
    if |b| > 0 {
      assert Pow256(k) == 256 * Pow256(k - 1);
      SetLowBound(word / 256, b[1..], k - 1);
    }
  }

  /** Buffer s with the bytes b written at position p, as far as they lie within s. */
  function Splice(s: seq<u8>, p: nat, b: seq<u8>): (r: seq<u8>)
    ensures |r| == |s|
    ensures forall i {:trigger r[i]} :: 0 <= i < |s| ==> r[i] == if p <= i < p + |b| then b[i - p] else s[i]
  {
    seq(|s|, i requires 0 <= i < |s| => if p <= i < p + |b| then b[i - p] else s[i])
  }

  lemma {:induction false} SpliceAppend(s: seq<u8>, p: nat, a: seq<u8>, b: seq<u8>)
    ensures Splice(Splice(s, p, a), p + |a|, b) == Splice(s, p, a + b)
  {
  }

  /** Writing a payload first and its header afterwards, in front of it. */
  lemma {:induction false} SpliceBackpatch(s: seq<u8>, p: nat, h: seq<u8>, b: seq<u8>)
    ensures Splice(Splice(s, p + |h|, b), p, h) == Splice(s, p, h + b)
  {
  }

  /** Bytes n..n+k of a block of memory, zero when the block is too short. */
  function Peek(mem: seq<u8>, p: nat, n: nat): (b: seq<u8>)
    ensures |b| == n
    ensures p + n <= |mem| ==> b == mem[p..p + n]
  {
    if p + n <= |mem| then mem[p..p + n] else seq(n, _ => 0)
  }

  /** The bytes b stand at position p of the input. */
  ghost predicate StandsAt(b: seq<u8>, inb: seq<u8>, p: nat) {
    p + |b| <= |inb| && forall i {:trigger b[i]} :: 0 <= i < |b| ==> inb[p + i] == b[i]
  }

  lemma {:induction false} StandsAtSlice(b: seq<u8>, inb: seq<u8>, p: nat)
    ensures StandsAt(b, inb, p) <==> p + |b| <= |inb| && inb[p..p + |b|] == b
  {
    if p + |b| <= |inb| {
      if inb[p..p + |b|] == b {
        forall i | 0 <= i < |b| ensures inb[p + i] == b[i] {
          assert inb[p..p + |b|][i] == inb[p + i];
        }
      }
    }
  }

  /** The bytes c are the beginning of all. */
  ghost predicate Begins(c: seq<u8>, all: seq<u8>) {
    |c| <= |all| && forall i {:trigger c[i]} :: 0 <= i < |c| ==> c[i] == all[i]
  }

  lemma {:induction false} BeginsMore(c: seq<u8>, all: seq<u8>, more: seq<u8>)
    requires Begins(c, all)
    ensures Begins(c, all + more)
  {
  }

  /** The chunk b of a block of input, at q behind the chunk a. */
  lemma {:induction false} Chunk(inb: seq<u8>, p: nat, all: seq<u8>, a: seq<u8>, b: seq<u8>, c: seq<u8>, q: nat)
    requires StandsAt(all, inb, p)
    requires c == a + b && Begins(c, all) && q == p + |a|
    ensures StandsAt(b, inb, q)
  {
    forall i | 0 <= i < |b| ensures inb[q + i] == b[i] {
      assert b[i] == c[|a| + i] == all[|a| + i];
    }
  }

  /** A 16-bit word from its two bytes. */
  function Word(lo: u8, hi: u8): nat {
    var l: int, h: int := lo, hi;
    l + 256 * h
  }
}
