/** What the invariants of the tag structure mean for whole regions, lists and runs. */
module HeapTheorems {
  import opened Machine
  import opened Exponent
  import opened BoundaryTags
  import opened TagInvariants
  import opened TagSteps
  import opened AllocatorSpec
  import opened FreeLists
  import opened LiveBlocks

  // ---------------------------------------------------------------- tiling

  /** The tags met by following `split_right` from `t`. */
  ghost function Chain(s: Arena, t: int): (c: seq<int>)
    requires Links(s) && t in s.heads
    ensures |c| >= 1 && c[0] == t
    decreases End(s, (LinkedAt(s, t); s.owner[t])) - t
  {
    LinkedAt(s, t);
    if s.heads[t].right == NULL then [t] else [t] + Chain(s, s.heads[t].right)
  }

  function TotalSize(heads: map<int, Header>, c: seq<int>): int
    requires forall k :: 0 <= k < |c| ==> c[k] in heads
  {
    if c == [] then 0 else heads[c[0]].realSize + TotalSize(heads, c[1..])
  }

  /** `c` covers the addresses from `t` to the end of region `b`, gap-free and doubly linked. */
  ghost predicate Tiles(s: Arena, b: int, t: int, c: seq<int>)
    requires b in s.regions
    decreases |c|
  {
    && |c| >= 1 && c[0] == t && t in s.heads && t in s.owner && s.owner[t] == b
    && if |c| == 1 then
         s.heads[t].right == NULL && t + s.heads[t].realSize == End(s, b)
       else
         && s.heads[t].right == c[1] == t + s.heads[t].realSize
         && c[1] in s.heads && s.heads[c[1]].left == t
         && Tiles(s, b, c[1], c[1..])
  }

  lemma {:induction false} ChainTiles(s: Arena, t: int)
    requires Links(s) && t in s.heads
    ensures t in s.owner && s.owner[t] in s.regions && Tiles(s, s.owner[t], t, Chain(s, t))
    decreases End(s, (LinkedAt(s, t); s.owner[t])) - t
  {
    LinkedAt(s, t);
    var x := s.heads[t].right;
    if x != NULL {
      ChainTiles(s, x);
      assert Chain(s, t)[1..] == Chain(s, x);
    }
  }

  /** Tiles add up to the stretch they cover. */
  lemma {:induction false} TilesTotal(s: Arena, b: int, t: int, c: seq<int>)
    requires b in s.regions && Tiles(s, b, t, c)
    ensures forall k :: 0 <= k < |c| ==> c[k] in s.heads
    ensures TotalSize(s.heads, c) == End(s, b) - t
    decreases |c|
  {
    if |c| == 1 {
      assert c[1..] == [];
    } else {
      TilesTotal(s, b, c[1], c[1..]);
      forall k | 0 <= k < |c|
        ensures c[k] in s.heads
      {
        assert k > 0 ==> c[k] == c[1..][k - 1];
      }
    }
  }

  /** Whatever lies behind `t` in its region lies behind its right neighbour. */
  lemma NextInRegion(s: Arena, t: int, u: int)
    requires Links(s) && t in s.heads && u in s.heads && s.owner[t] == s.owner[u] && t < u
    ensures s.heads[t].right != NULL && s.heads[t].right <= u
  {
    LinkedAt(s, t);
    LinkedAt(s, u);
  }

  /** No tag of a region is off its split chain. */
  lemma {:induction false} ChainCovers(s: Arena, t: int, u: int)
    requires Links(s) && t in s.heads && u in s.heads && s.owner[t] == s.owner[u] && t <= u
    ensures u in Chain(s, t)
    decreases u - t
  {
    if t == u {
      assert Chain(s, t)[0] == t;
    } else {
      LinkedAt(s, t);
      NextInRegion(s, t, u);
      ChainCovers(s, s.heads[t].right, u);
    }
  }

  /** Every region held is tiled exactly by its split chain. */
  lemma RegionsTiled(s: Arena, b: int)
    requires Inv(s) && b in s.regions
    ensures b in s.heads && Tiles(s, b, b, Chain(s, b))
    ensures forall t :: t in s.heads ==> (t in Chain(s, b) <==> s.owner[t] == b)
    ensures (forall k :: 0 <= k < |Chain(s, b)| ==> Chain(s, b)[k] in s.heads)
            && TotalSize(s.heads, Chain(s, b)) == PAGE * s.regions[b]
  {
    assert RegionOk(s, b);
    ChainTiles(s, b);
    TilesTotal(s, b, b, Chain(s, b));
    TilesOwned(s, b, b, Chain(s, b));
    forall t | t in s.heads && s.owner[t] == b
      ensures t in Chain(s, b)
    {
      LinkedAt(s, t);
      ChainCovers(s, b, t);
    }
  }

  lemma {:induction false} TilesOwned(s: Arena, b: int, t: int, c: seq<int>)
    requires b in s.regions && Tiles(s, b, t, c)
    ensures forall u :: u in c ==> u in s.owner && s.owner[u] == b
    decreases |c|
  {
    if |c| > 1 {
      TilesOwned(s, b, c[1], c[1..]);
      assert forall u :: u in c ==> u == t || u in c[1..];
    }
  }

  // ---------------------------------------------------------------- nothing in use

  /** The number of regions cached as wholly free. */
  function Cached(complete: seq<int>, n: nat): int
    requires n <= |complete|
  {
    if n == 0 then 0 else Cached(complete, n - 1) + complete[n - 1]
  }

  /** The whole free regions of the first `n` buckets. */
  ghost function WholeBelow(s: Arena, n: nat): set<int> {
    set t | t in s.heads && 0 <= s.heads[t].index < n && Whole(s.heads[t])
  }

  lemma {:induction false} CachedCounts(s: Arena, n: nat)
    requires Counts(s, {}) && n <= MAXEXP
    ensures Cached(s.complete, n) == |WholeBelow(s, n)|
  {
    if n == 0 {
      assert WholeBelow(s, n) == {};
    } else {
      CachedCounts(s, n - 1);
      WholeStep(s, n);
    }
  }

  lemma WholeStep(s: Arena, n: nat)
    requires n > 0
    ensures |WholeBelow(s, n)| == |WholeBelow(s, n - 1)| + |WholeFree(s, n - 1, {})|
  {
    var a, b, c := WholeBelow(s, n), WholeBelow(s, n - 1), WholeFree(s, n - 1, {});
    forall t
      ensures t in a <==> t in b || t in c
      ensures !(t in b && t in c)
    {
      assert t in c <==> Counted(s, t, n - 1, {});
    }
    assert a == b + c && b !! c;
  }

  /** With no free neighbours, a region in which nothing is in use is a single tag. */
  lemma AllFreeIsWhole(s: Arena, t: int)
    requires Links(s) && Lists(s) && Coalesced(s, {}) && t in s.heads
    requires forall u :: u in s.heads ==> s.heads[u].index != -1
    ensures Whole(s.heads[t]) && t in s.regions && s.heads[t].realSize == PAGE * s.regions[t]
  {
    LinkedAt(s, t);
    ListedAt(s, t);
    var l, r := s.heads[t].left, s.heads[t].right;
    if l != NULL {
      ListedAt(s, l);
      assert false;
    }
    if r != NULL {
      ListedAt(s, r);
      assert false;
    }
  }

  /**
   When every block has been freed, in whatever order, each region still held is one whole free
   tag, every such region is cached, and no bucket caches more than five.
   */
  lemma AllFreed(s: Arena)
    requires Inv(s) && Blocks(s) == map[]
    ensures s.heads.Keys == s.regions.Keys
    ensures forall b :: b in s.regions ==>
      s.heads[b].index >= 0 && Whole(s.heads[b]) && s.heads[b].realSize == PAGE * s.regions[b]
    ensures |s.complete| == MAXEXP && Cached(s.complete, MAXEXP) == |s.regions|
    ensures forall i :: 0 <= i < MAXEXP ==> 0 <= s.complete[i] <= MAXCOMPLETE
  {
    NothingInUse(s);
    forall i | 0 <= i < MAXEXP
      ensures 0 <= s.complete[i] <= MAXCOMPLETE
    {
      CountAt(s, i, {});
    }
    WholesAreRegions(s);
    CachedCounts(s, MAXEXP);
    AllBelow(s);
  }

  lemma AllBelow(s: Arena)
    requires s.heads.Keys == s.regions.Keys
    requires forall t :: t in s.heads ==> Whole(s.heads[t]) && MINEXP <= s.heads[t].index < MAXEXP
    ensures |WholeBelow(s, MAXEXP)| == |s.regions|
  {
    forall t | t in s.heads
      ensures t in WholeBelow(s, MAXEXP)
    {
    }
    assert WholeBelow(s, MAXEXP) == s.regions.Keys;
  }

  lemma NothingInUse(s: Arena)
    requires Blocks(s) == map[]
    ensures forall t :: t in s.heads ==> s.heads[t].index != -1
  {
    forall t | t in s.heads
      ensures s.heads[t].index != -1
    {
      BlockAt(s, t + HEADER);
    }
  }

  lemma WholesAreRegions(s: Arena)
    requires Links(s) && Lists(s) && Coalesced(s, {})
    requires forall u :: u in s.heads ==> s.heads[u].index != -1
    ensures s.heads.Keys == s.regions.Keys
    ensures forall t :: t in s.heads ==>
      && Whole(s.heads[t]) && s.heads[t].realSize == PAGE * s.regions[t]
      && MINEXP <= s.heads[t].index < MAXEXP
  {
    forall t | t in s.heads
      ensures Whole(s.heads[t]) && t in s.regions && s.heads[t].realSize == PAGE * s.regions[t]
      ensures MINEXP <= s.heads[t].index < MAXEXP
    {
      AllFreeIsWhole(s, t);
      ListedAt(s, t);
    }
    forall b | b in s.regions
      ensures b in s.heads
    {
      assert RegionOk(s, b);
    }
  }

  // ---------------------------------------------------------------- payloads

  /** A block in use owns its bytes: they lie in its tag and away from all headers and other blocks. */
  lemma PayloadsApart(s: Arena, p: int)
    requires Inv(s) && IsLive(s, p)
    ensures var n, t := s.heads[p - HEADER].size, p - HEADER;
            && 0 < t && 0 <= n && p + n <= t + s.heads[t].realSize <= MOD32
            && (forall u :: u in s.heads ==> u + HEADER <= p || p + n <= u)
            && (forall u :: u in s.heads && u != t && s.heads[u].index == -1 ==>
                  u + HEADER + s.heads[u].size <= p || p + n <= u + HEADER)
  {
    hide Good;
    BlockInside(s, p - HEADER);
    forall u | u in s.heads
      ensures u + HEADER <= p || p + s.heads[p - HEADER].size <= u
      ensures u != p - HEADER && s.heads[u].index == -1 ==>
        u + HEADER + s.heads[u].size <= p || p + s.heads[p - HEADER].size <= u + HEADER
    {
      PayloadApart(s, p - HEADER, u);
    }
  }

  lemma BlockInside(s: Arena, t: int)
    requires Inv(s) && t in s.heads && s.heads[t].index == -1
    ensures 0 < t && 0 <= s.heads[t].size && HEADER + s.heads[t].size <= s.heads[t].realSize
    ensures t + s.heads[t].realSize <= MOD32
  {
    hide Links, Lists, Buckets, Coalesced, Counts, Fits;
    BlockFits(s, t);
  }

  lemma PayloadApart(s: Arena, t: int, u: int)
    requires Inv(s) && t in s.heads && u in s.heads && s.heads[t].index == -1
    ensures u + HEADER <= t + HEADER || t + HEADER + s.heads[t].size <= u
    ensures u != t && s.heads[u].index == -1 ==>
      u + HEADER + s.heads[u].size <= t + HEADER || t + HEADER + s.heads[t].size <= u + HEADER
  {
    hide Links, Lists, Buckets, Coalesced, Counts, Fits;
    BlockFits(s, t);
    SpansApart(s, t, u);
    if s.heads[u].index == -1 {
      BlockFits(s, u);
    }
  }

  lemma BlockFits(s: Arena, t: int)
    requires Links(s) && Fits(s, {}) && t in s.heads && s.heads[t].index == -1
    ensures 0 < t && 0 <= s.heads[t].size && HEADER + s.heads[t].size <= s.heads[t].realSize
    ensures t + s.heads[t].realSize <= MOD32
  {
    LinkedAt(s, t);
  }

  lemma SpansApart(s: Arena, t: int, u: int)
    requires Links(s) && t in s.heads && u in s.heads
    ensures t == u || t + s.heads[t].realSize <= u || u + s.heads[u].realSize <= t
    ensures HEADER <= s.heads[u].realSize
  {
    LinkedAt(s, u);
    assert t < u || t == u || u < t;
  }

  // ---------------------------------------------------------------- the provider

  lemma MallocRegions(s: Arena, size: nat, base: int, junk: Header)
    requires Inv(s) && size + HEADER < MOD32 && MayAnswer(s, size, base)
    ensures Malloc(s, size, base, junk).0.regions
            == if Candidate(s, size) == NULL && base != NULL then s.regions[base := PagesFor(size)] else s.regions
  {
    hide Links, Lists, Buckets, Coalesced, Counts, Fits, Remove;
    if Candidate(s, size) != NULL || base != NULL {
      var t := Candidate(s, size);
      if t != NULL {
        TakeGood(s, t);
        CountAt(s, MINEXP, {});
      }
      var (s1, t1) := Settle(s, size, base);
      TrimRegions(s1, t1, junk);
    }
  }

  lemma TrimRegions(s: Arena, t: int, junk: Header)
    requires Good(s, {t}) && Roomy(s, t) && Alone(s, t)
    ensures Trim(s, t, junk).regions == s.regions
  {
    hide Links, Lists, Buckets, Coalesced, Counts, Fits;
    SplitsExactly(s.heads[t].realSize, s.heads[t].size);
    if Splits(s.heads[t].realSize, s.heads[t].size) {
      SplitGood(s, t, junk);
    }
  }

  /**
   What `free` gives back is exactly one region as it was granted, no tag is left in it, and when
   nothing is given back the regions stay as they are.
   */
  lemma FreeRegions(s: Arena, p: int)
    requires Inv(s) && (p == NULL || IsLive(s, p))
    ensures match Free(s, p)
            case (r, Kept) => r.regions == s.regions
            case (r, Returned(b, pages)) =>
              && b in s.regions && s.regions[b] == pages && r.regions == s.regions - {b}
              && forall u :: u in r.heads ==> u + r.heads[u].realSize <= b || b + PAGE * pages <= u
  {
    hide Links, Lists, Buckets, Coalesced, Counts, Fits, JoinLeft, JoinRight, Settled;
    if p != NULL {
      HeatUp(s, p - HEADER);
      var (s1, t1) := JoinLeft(s, p - HEADER);
      JoinRegions(s, p - HEADER);
      var s2 := JoinRight(s1, t1);
      SettledRegions(s2, t1);
    }
  }

  lemma JoinRegions(s: Arena, t: int)
    requires Loose(s, t) && Coalesced(s, {})
    ensures var (s1, t1) := JoinLeft(s, t); s1.regions == s.regions && JoinRight(s1, t1).regions == s.regions
  {
    hide Links, Lists, Buckets, Coalesced, Counts, Fits, Remove, MeltLeft;
    if LeftFree(s, t) {
      JoinLeftGood(s, t);
    }
    var (s1, t1) := JoinLeft(s, t);
    if RightFree(s1, t1) {
      JoinRightGood(s1, t1);
    }
  }

  lemma SettledRegions(s: Arena, t: int)
    requires Loose(s, t) && Alone(s, t)
    ensures match Settled(s, t)
            case (r, Kept) => r.regions == s.regions
            case (r, Returned(b, pages)) =>
              && b in s.regions && s.regions[b] == pages && r.regions == s.regions - {b}
              && forall u :: u in r.heads ==> u + r.heads[u].realSize <= b || b + PAGE * pages <= u
  {
    hide Lists, Buckets, Coalesced, Counts, Fits, Insert, Links;
    GiveGood(s, t);
    CountAt(s, MINEXP, {t});
    InsertFrame(s, t, Bucket(s.heads[t].realSize));
    GiveInserts(s, t, Bucket(s.heads[t].realSize));
    if Whole(s.heads[t]) {
      WholeRegion(s, t);
    }
  }

  // ---------------------------------------------------------------- all of it together

  /** No two split neighbours are both free. */
  ghost predicate FullyCoalesced(s: Arena) {
    forall t :: t in s.heads && s.heads[t].index >= 0 && s.heads[t].right in s.heads ==>
      s.heads[s.heads[t].right].index == -1
  }

  /** Each cached count is the number of whole free regions in its bucket, at most five. */
  ghost predicate CountsExact(s: Arena) {
    && |s.complete| == MAXEXP
    && forall i :: 0 <= i < MAXEXP ==>
         s.complete[i] == |WholeFree(s, i, {})| && 0 <= s.complete[i] <= MAXCOMPLETE
  }

  ghost predicate AllTiled(s: Arena) {
    Links(s) && forall b :: b in s.regions ==>
      && b in s.heads && Tiles(s, b, b, Chain(s, b))
      && (forall t :: t in s.heads ==> (t in Chain(s, b) <==> s.owner[t] == b))
  }

  ghost predicate AllListed(s: Arena) {
    && Lists(s)
    && (forall i :: 0 <= i < MAXEXP ==>
          && FirstOk(s, i) && ProperList(s, i, ListFrom(s, s.first[i]))
          && (forall t :: t in ListFrom(s, s.first[i]) <==> t in s.heads && s.heads[t].index == i))
    && (forall t :: t in s.heads ==> Placed(s.heads[t]))
  }

  /** In use with no list links, or free in the bucket of its size. */
  predicate Placed(h: Header) {
    if h.index == -1 then h.next == NULL && h.prev == NULL
    else HEADER <= h.realSize < MOD32 && h.index == Bucket(h.realSize)
  }

  /** Every block in use has its bytes to itself. */
  ghost predicate AllApart(s: Arena) {
    forall t, u :: t in s.heads && u in s.heads && s.heads[t].index == -1 ==>
      && 0 <= s.heads[t].size && HEADER + s.heads[t].size <= s.heads[t].realSize
      && (u + HEADER <= t + HEADER || t + HEADER + s.heads[t].size <= u)
      && (u != t && s.heads[u].index == -1 ==>
            u + HEADER + s.heads[u].size <= t + HEADER || t + HEADER + s.heads[t].size <= u + HEADER)
  }

  ghost predicate Sound(s: Arena) {
    AllTiled(s) && AllListed(s) && FullyCoalesced(s) && CountsExact(s) && AllApart(s)
  }

  lemma InvIsSound(s: Arena)
    requires Inv(s)
    ensures Sound(s)
  {
    hide Links, Lists, Buckets, Counts, Fits, AllTiled, AllListed, CountsExact, AllApart;
    RegionsAllTiled(s);
    BucketsAllListed(s);
    CountsAreExact(s);
    BlocksApart(s);
  }

  lemma RegionsAllTiled(s: Arena)
    requires Inv(s)
    ensures AllTiled(s)
  {
    hide Lists, Buckets, Coalesced, Counts, Fits, Tiles, Chain;
    forall b | b in s.regions
      ensures b in s.heads && Tiles(s, b, b, Chain(s, b))
      ensures forall t :: t in s.heads ==> (t in Chain(s, b) <==> s.owner[t] == b)
    {
      RegionsTiled(s, b);
    }
  }

  lemma BucketsAllListed(s: Arena)
    requires Inv(s)
    ensures AllListed(s)
  {
    hide Links, Buckets, Coalesced, Counts, Fits, ProperList, ListFrom;
    forall i | 0 <= i < MAXEXP
      ensures FirstOk(s, i) && ProperList(s, i, ListFrom(s, s.first[i]))
      ensures forall t :: t in ListFrom(s, s.first[i]) <==> t in s.heads && s.heads[t].index == i
    {
      BucketLists(s, i);
    }
    forall t | t in s.heads
      ensures Placed(s.heads[t])
    {
      TagPlaced(s, t);
    }
  }

  lemma TagPlaced(s: Arena, t: int)
    requires Links(s) && Lists(s) && Buckets(s, {}) && t in s.heads
    ensures Placed(s.heads[t])
  {
    hide Links, Lists;
    ListedAt(s, t);
    SpanBounded(s, t);
  }

  lemma CountsAreExact(s: Arena)
    requires Counts(s, {})
    ensures CountsExact(s)
  {
  }

  lemma BlocksApart(s: Arena)
    requires Inv(s)
    ensures AllApart(s)
  {
    hide Good;
    forall t, u | t in s.heads && u in s.heads && s.heads[t].index == -1
      ensures 0 <= s.heads[t].size && HEADER + s.heads[t].size <= s.heads[t].realSize
      ensures u + HEADER <= t + HEADER || t + HEADER + s.heads[t].size <= u
      ensures u != t && s.heads[u].index == -1 ==>
        u + HEADER + s.heads[u].size <= t + HEADER || t + HEADER + s.heads[t].size <= u + HEADER
    {
      PayloadsApart(s, t + HEADER);
    }
  }
}
