/** The bytes of the blocks in use. */
module Payloads {
  import opened Machine
  import opened BoundaryTags
  import opened AllocatorSpec
  import opened LiveBlocks
  import opened Memory
  import HeapTheorems

  ghost function Payload(m: Memory, p: int, n: int): seq<Byte> {
    if 0 <= p && 0 <= n && p + n <= MOD32 then m[p..p + n] else []
  }

  /** What callers own: pointer to bytes. */
  ghost function Contents(s: Arena, m: Memory): map<int, seq<Byte>> {
    map p | p in Blocks(s) :: Payload(m, p, Blocks(s)[p])
  }

  /** Writing headers leaves the payload of a block in use alone. */
  lemma PayloadKept(s: Arena, r: Arena, m: Memory, n: Memory, p: int)
    requires Inv(s) && Inv(r) && IsLive(s, p) && IsLive(r, p) && s.heads[p - HEADER].size == r.heads[p - HEADER].size
    requires SameOutside(m, n, s.heads.Keys + r.heads.Keys)
    ensures Payload(m, p, s.heads[p - HEADER].size) == Payload(n, p, s.heads[p - HEADER].size)
  {
    hide Good;
    HeapTheorems.PayloadsApart(s, p);
    HeapTheorems.PayloadsApart(r, p);
    var k := s.heads[p - HEADER].size;
    forall i | p <= i < p + k
      ensures m[i] == n[i]
    {
    }
  }

  /** One block more, the others with the bytes they had. */
  lemma ContentsAdd(s: Arena, r: Arena, m: Memory, n: Memory, p: int, size: nat)
    requires Inv(s) && Inv(r) && SameOutside(m, n, s.heads.Keys + r.heads.Keys)
    requires p !in Blocks(s) && Blocks(r) == Blocks(s)[p := size]
    ensures p !in Contents(s, m) && p in Contents(r, n) && |Contents(r, n)[p]| == size
    ensures Contents(r, n) == Contents(s, m)[p := Contents(r, n)[p]]
  {
    hide Good, SameOutside, Blocks;
    BlockAt(r, p);
    HeapTheorems.PayloadsApart(r, p);
    forall q | q in Blocks(s)
      ensures Contents(r, n)[q] == Contents(s, m)[q]
    {
      BlockAt(s, q);
      BlockAt(r, q);
      PayloadKept(s, r, m, n, q);
    }
  }

  /** One block less, the others with the bytes they had. */
  lemma ContentsDrop(s: Arena, r: Arena, m: Memory, n: Memory, p: int)
    requires Inv(s) && Inv(r) && SameOutside(m, n, s.heads.Keys + r.heads.Keys)
    requires Blocks(r) == Blocks(s) - {p}
    ensures Contents(r, n) == Contents(s, m) - {p}
  {
    hide Good, SameOutside, Blocks;
    forall q | q in Blocks(r)
      ensures Contents(r, n)[q] == Contents(s, m)[q]
    {
      BlockAt(s, q);
      BlockAt(r, q);
      PayloadKept(s, r, m, n, q);
    }
  }

  /** Writing inside one block changes that block only. */
  lemma ContentsWrite(s: Arena, m: Memory, n: Memory, p: int, lo: int, hi: int)
    requires Inv(s) && IsLive(s, p) && p <= lo <= hi <= p + s.heads[p - HEADER].size
    requires forall i :: 0 <= i < MOD32 && !(lo <= i < hi) ==> n[i] == m[i]
    requires Holds(m, s.heads)
    ensures Holds(n, s.heads) && p in Contents(s, m)
    ensures Contents(s, n) == Contents(s, m)[p := Payload(n, p, s.heads[p - HEADER].size)]
  {
    hide Good, Blocks, Holds;
    HeapTheorems.PayloadsApart(s, p);
    HoldsElsewhere(m, n, s.heads, lo, hi);
    BlockAt(s, p);
    forall q | q in Blocks(s) && q != p
      ensures Payload(n, q, Blocks(s)[q]) == Payload(m, q, Blocks(s)[q])
    {
      BlockAt(s, q);
      OtherPayload(s, m, n, p, q, lo, hi);
    }
  }

  lemma OtherPayload(s: Arena, m: Memory, n: Memory, p: int, q: int, lo: int, hi: int)
    requires Inv(s) && IsLive(s, p) && IsLive(s, q) && p != q && p <= lo <= hi <= p + s.heads[p - HEADER].size
    requires forall i :: 0 <= i < MOD32 && !(lo <= i < hi) ==> n[i] == m[i]
    ensures Payload(n, q, s.heads[q - HEADER].size) == Payload(m, q, s.heads[q - HEADER].size)
  {
    hide Good;
    HeapTheorems.PayloadsApart(s, p);
    HeapTheorems.PayloadsApart(s, q);
    assert q - HEADER != p - HEADER;
  }

  /** Writing below all tags changes no block. */
  lemma ContentsBelow(s: Arena, m: Memory, n: Memory, hi: int)
    requires Inv(s) && Holds(m, s.heads) && forall t :: t in s.heads ==> hi <= t
    requires forall i :: 0 <= i < MOD32 && !(0 <= i < hi) ==> n[i] == m[i]
    ensures Holds(n, s.heads) && Contents(s, n) == Contents(s, m)
  {
    hide Good, Blocks, Holds;
    HoldsElsewhere(m, n, s.heads, 0, hi);
    forall q | q in Blocks(s)
      ensures Payload(n, q, Blocks(s)[q]) == Payload(m, q, Blocks(s)[q])
    {
      BlockAt(s, q);
      HeapTheorems.PayloadsApart(s, q);
    }
  }

  /** What a copy leaves at its destination. */
  lemma CopiedPayload(m: Memory, r: Memory, q: int, p: int, n: int, k: int, j: int)
    requires 0 <= q && 0 <= p && 0 <= n <= k && n <= j && q + k <= MOD32 && p + j <= MOD32
    requires Copied(m, r, q, p, n)
    ensures Payload(r, q, k) == Payload(m, p, j)[..n] + Payload(m, q, k)[n..]
  {
    var a, b := Payload(r, q, k), Payload(m, p, j)[..n] + Payload(m, q, k)[n..];
    forall i | 0 <= i < k
      ensures a[i] == b[i]
    {
      assert a[i] == r[q + i];
    }
  }

  /** Source and destination of the copy lie in the address space and do not overlap. */
  lemma CopyRanges(s: Arena, m: Memory, q: int, p: int, n: int)
    requires Inv(s) && p in Contents(s, m) && 0 <= n <= |Contents(s, m)[p]|
    requires if q == NULL then forall t :: t in s.heads ==> n <= t
             else q in Contents(s, m) && q != p && n <= |Contents(s, m)[q]|
    ensures 0 <= p && 0 <= q && p + n <= MOD32 && q + n <= MOD32 && (q + n <= p || p + n <= q)
  {
    hide Good, Blocks;
    BlockAt(s, p);
    HeapTheorems.PayloadsApart(s, p);
    if q != NULL {
      BlockAt(s, q);
      HeapTheorems.PayloadsApart(s, q);
      assert q - HEADER != p - HEADER;
    }
  }

  lemma CopyBelow(s: Arena, m: Memory, r: Memory, p: int, n: int)
    requires Inv(s) && Holds(m, s.heads) && (forall t :: t in s.heads ==> n <= t)
    requires 0 <= p && 0 <= n && p + n <= MOD32 && Copied(m, r, 0, p, n)
    ensures Holds(r, s.heads) && Contents(s, r) == Contents(s, m)
  {
    hide Good, Holds, Contents;
    ContentsBelow(s, m, r, n);
  }

  /** Copying into one block from another changes the first `n` bytes of the one. */
  lemma ContentsCopy(s: Arena, m: Memory, r: Memory, q: int, p: int, n: int)
    requires Inv(s) && Holds(m, s.heads) && p in Contents(s, m) && q in Contents(s, m) && p != q
    requires 0 <= n <= |Contents(s, m)[p]| && n <= |Contents(s, m)[q]|
    requires 0 <= p && 0 <= q && p + n <= MOD32 && q + n <= MOD32 && Copied(m, r, q, p, n)
    ensures Holds(r, s.heads)
    ensures Contents(s, r) == Contents(s, m)[q := Contents(s, m)[p][..n] + Contents(s, m)[q][n..]]
  {
    hide Good, Holds, Blocks, Copied;
    BlockAt(s, p);
    BlockAt(s, q);
    HeapTheorems.PayloadsApart(s, p);
    HeapTheorems.PayloadsApart(s, q);
    CopiedOutside(m, r, q, p, n);
    ContentsWrite(s, m, r, q, q, q + n);
    CopiedPayload(m, r, q, p, n, s.heads[q - HEADER].size, s.heads[p - HEADER].size);
  }

  lemma CopiedOutside(m: Memory, r: Memory, q: int, p: int, n: int)
    requires 0 <= p && 0 <= q && 0 <= n && p + n <= MOD32 && q + n <= MOD32 && Copied(m, r, q, p, n)
    ensures forall i :: 0 <= i < MOD32 && !(q <= i < q + n) ==> r[i] == m[i]
  {
  }
}
