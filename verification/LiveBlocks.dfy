/** What callers see: `malloc` adds one block, `free` takes one away, and no other block changes. */
module LiveBlocks {
  import opened Machine
  import opened Exponent
  import opened BoundaryTags
  import opened TagInvariants
  import opened TagSteps
  import opened AllocatorSpec
  import opened FreeLists

  /** The blocks in use: pointer to requested size. */
  ghost function Blocks(s: Arena): map<int, int> {
    map p | p in Pointers(s.heads.Keys) && IsLive(s, p) :: s.heads[p - HEADER].size
  }

  ghost function Pointers(tags: set<int>): set<int> {
    set t | t in tags :: t + HEADER
  }

  lemma BlockAt(s: Arena, p: int)
    ensures p in Blocks(s) <==> IsLive(s, p)
    ensures p in Blocks(s) ==> Blocks(s)[p] == s.heads[p - HEADER].size
  {
    if p - HEADER in s.heads.Keys {
      assert p - HEADER + HEADER in Pointers(s.heads.Keys);
    }
  }

  ghost predicate InUse(s: Arena, t: int) {
    t in s.heads && s.heads[t].index == -1
  }

  /** Outside `x` the same tags are in use, with the same requested size. */
  ghost predicate SameUse(s: Arena, r: Arena, x: set<int>) {
    forall t :: t !in x ==>
      && (InUse(s, t) <==> InUse(r, t))
      && (InUse(s, t) ==> s.heads[t].size == r.heads[t].size)
  }

  lemma SameUseTrans(a: Arena, b: Arena, c: Arena, x: set<int>, y: set<int>)
    requires SameUse(a, b, x) && SameUse(b, c, y)
    ensures SameUse(a, c, x + y)
  {
    forall t | t !in x + y
      ensures (InUse(a, t) <==> InUse(c, t)) && (InUse(a, t) ==> a.heads[t].size == c.heads[t].size)
    {
      assert InUse(a, t) <==> InUse(b, t);
    }
  }

  lemma SameUseShrink(s: Arena, r: Arena, x: set<int>, t: int)
    requires SameUse(s, r, x) && !InUse(s, t) && !InUse(r, t)
    ensures SameUse(s, r, x - {t})
  {
  }

  lemma SameUseAt(s: Arena, r: Arena, x: set<int>, t: int)
    requires SameUse(s, r, x) && t !in x
    ensures InUse(s, t) <==> InUse(r, t)
    ensures InUse(s, t) ==> s.heads[t].size == r.heads[t].size
  {
  }

  lemma RelistedUse(s: Arena, r: Arena, t: int, i: int)
    requires Relisted(s, r, t, i)
    ensures SameUse(s, r, {t})
  {
  }

  lemma MeltedUse(s: Arena, r: Arena, t: int)
    requires Melted(s, r, t)
    ensures SameUse(s, r, {t}) && !InUse(r, t)
  {
  }

  lemma CutUse(s: Arena, r: Arena, t: int, n: int)
    requires CutApart(s, r, t, n)
    ensures SameUse(s, r, {n})
  {
  }

  // ---------------------------------------------------------------- malloc

  lemma SettleUse(s: Arena, size: nat, base: int)
    requires Inv(s) && size + HEADER < MOD32 && MayAnswer(s, size, base)
    requires Candidate(s, size) != NULL || base != NULL
    ensures var (s1, t) := Settle(s, size, base); SameUse(s, s1, {t}) && !InUse(s, t) && InUse(s1, t)
  {
    hide Links, Lists, Buckets, Coalesced, Counts, Fits, Remove;
    var t := Candidate(s, size);
    FirstAt(s, MINEXP);
    if t == NULL {
      GrantLinks(s, base, PagesFor(size), size);
    } else {
      TakeGood(s, t);
      RelistedUse(s, Remove(s, t), t, -1);
      CountAt(s, MINEXP, {});
    }
  }

  lemma SettlesOn(s: Arena, size: nat, base: int)
    requires Inv(s) && size + HEADER < MOD32 && MayAnswer(s, size, base)
    requires Candidate(s, size) != NULL || base != NULL
    ensures Settle(s, size, base).1 == if Candidate(s, size) == NULL then base else Candidate(s, size)
  {
    hide Good, Candidate;
  }

  /** A split cuts the tag and lists the new one at the front; `c` is the state in between. */
  lemma SplitSteps(s: Arena, t: int, junk: Header) returns (c: Arena)
    requires Good(s, {t}) && Roomy(s, t) && Alone(s, t) && 2 * HEADER <= s.heads[t].realSize - s.heads[t].size
    ensures var n := SplitPoint(s, t);
            && n !in s.heads && Splittable(s, t) && s.heads[t].right != n
            && HEADER <= s.heads[t].realSize - HEADER - s.heads[t].size < MOD32
            && var i := Bucket(s.heads[t].realSize - HEADER - s.heads[t].size);
               && Listable(Cut(s, t, junk), n, i)
               && CutApart(s, c, t, n) && Relisted(c, Split(s, t, junk), n, i)
               && |Split(s, t, junk).first| == MAXEXP && Split(s, t, junk).first[i] == n
  {
    hide Links, Lists, Buckets, Coalesced, Counts, Fits, Cut, Insert, CutApart, Relisted, Alone, Bucket;
    SplitGood(s, t, junk);
    var n := SplitPoint(s, t);
    var i := Bucket(s.heads[t].realSize - HEADER - s.heads[t].size);
    c := CutSteps(s, t, junk);
    FirstAt(s, i);
    CutJunkIndex(s, t, junk, i);
    FirstAt(c, i);
    InsertFrame(c, n, i);
    InsertFirst(c, n, i);
  }

  lemma CutSteps(s: Arena, t: int, junk: Header) returns (c: Arena)
    requires Links(s) && Lists(s) && Splittable(s, t)
    requires 0 <= s.heads[t].size && 2 * HEADER <= s.heads[t].realSize - s.heads[t].size
    ensures var n := SplitPoint(s, t);
            && c == Cut(s, t, junk.(index := -1)) && n !in s.heads && n in c.heads && c.heads[n].index == -1
            && CutApart(s, c, t, n) && Lists(c)
  {
    hide Links, Lists, Cut;
    var clean := junk.(index := -1);
    FirstAt(s, MINEXP);
    LinksGiveLinked(s);
    CutLinks(s, t, clean);
    CutFrame(s, t, clean);
    c := Cut(s, t, clean);
    ListsFrame(s, c);
  }

  lemma InsertFirst(s: Arena, t: int, i: int)
    requires Listable(s, t, i)
    ensures Insert(s, t, i).first == s.first[i := t]
  {
  }

  lemma SplitUse(s: Arena, t: int, junk: Header)
    requires Good(s, {t}) && Roomy(s, t) && Alone(s, t) && 2 * HEADER <= s.heads[t].realSize - s.heads[t].size
    ensures var n := SplitPoint(s, t);
            && n !in s.heads && Splittable(s, t) && s.heads[t].right != n
            && HEADER <= s.heads[t].realSize - HEADER - s.heads[t].size < MOD32
            && Listable(Cut(s, t, junk), n, Bucket(s.heads[t].realSize - HEADER - s.heads[t].size))
            && SameUse(s, Split(s, t, junk), {}) && Split(s, t, junk).heads.Keys == s.heads.Keys + {n}
  {
    hide Links, Lists, Buckets, Coalesced, Counts, Fits, Cut, Split, SameUse;
    var c := SplitSteps(s, t, junk);
    var n, r := SplitPoint(s, t), Split(s, t, junk);
    CutUse(s, c, t, n);
    RelistedUse(c, r, n, r.heads[n].index);
    SameUseTrans(s, c, r, {n}, {n});
    SameUseShrink(s, r, {n} + {n}, n);
    assert {n} + {n} - {n} == {};
  }

  lemma TrimUse(s: Arena, t: int, junk: Header)
    requires Good(s, {t}) && Roomy(s, t) && Alone(s, t)
    ensures SameUse(s, Trim(s, t, junk), {})
    ensures Trim(s, t, junk).heads.Keys
            == s.heads.Keys + if Splits(s.heads[t].realSize, s.heads[t].size) then {SplitPoint(s, t)} else {}
  {
    hide Links, Lists, Buckets, Coalesced, Counts, Fits, Split, Cut, Insert;
    SplitsExactly(s.heads[t].realSize, s.heads[t].size);
    if Splits(s.heads[t].realSize, s.heads[t].size) {
      SplitUse(s, t, junk);
    }
  }

  lemma BlocksAdd(s: Arena, r: Arena, t: int, size: int)
    requires SameUse(s, r, {t}) && !InUse(s, t) && InUse(r, t) && r.heads[t].size == size
    ensures Blocks(r) == Blocks(s)[t + HEADER := size] && t + HEADER !in Blocks(s)
  {
    BlockAt(s, t + HEADER);
    var a, b := Blocks(s)[t + HEADER := size], Blocks(r);
    forall p
      ensures p in a <==> p in b
      ensures p in a ==> a[p] == b[p]
    {
      BlockAt(s, p);
      BlockAt(r, p);
      assert InUse(s, p - HEADER) <==> IsLive(s, p);
      assert InUse(r, p - HEADER) <==> IsLive(r, p);
    }
  }

  lemma BlocksDrop(s: Arena, r: Arena, t: int)
    requires SameUse(s, r, {t}) && !InUse(r, t)
    ensures Blocks(r) == Blocks(s) - {t + HEADER}
  {
    var a, b := Blocks(s) - {t + HEADER}, Blocks(r);
    forall p
      ensures p in a <==> p in b
      ensures p in a ==> a[p] == b[p]
    {
      BlockAt(s, p);
      BlockAt(r, p);
      assert InUse(s, p - HEADER) <==> IsLive(s, p);
      assert InUse(r, p - HEADER) <==> IsLive(r, p);
    }
  }

  /** `malloc` hands out a block of the requested size that was not in use, and touches no other. */
  lemma MallocBlocks(s: Arena, size: nat, base: int, junk: Header)
    requires Inv(s) && size + HEADER < MOD32 && MayAnswer(s, size, base)
    ensures var (r, p) := Malloc(s, size, base, junk);
            && (p == NULL <==> NoRoom(s, size) && base == NULL)
            && (p != NULL ==>
                  && p == HEADER + (if NoRoom(s, size) then base else Candidate(s, size))
                  && p !in Blocks(s) && Blocks(r) == Blocks(s)[p := size])
            && (p == NULL ==> r == s)
  {
    hide Links, Lists, Buckets, Coalesced, Counts, Fits, Settle, Trim, SameUse, Blocks, NoRoom, Candidate;
    CandidateNull(s, size);
    if Candidate(s, size) != NULL || base != NULL {
      var (s1, t) := Settle(s, size, base);
      SettleUse(s, size, base);
      SettlesOn(s, size, base);
      TrimUse(s1, t, junk);
      var r := Trim(s1, t, junk);
      SameUseTrans(s, s1, r, {t}, {});
      assert {t} + {} == {t};
      SameUseAt(s1, r, {}, t);
      BlocksAdd(s, r, t, size);
    }
  }

  /** A block in use stays in use across `malloc`. */
  lemma MallocKeepsLive(s: Arena, size: nat, base: int, junk: Header, p: int)
    requires Inv(s) && size + HEADER < MOD32 && MayAnswer(s, size, base) && IsLive(s, p)
    ensures IsLive(Malloc(s, size, base, junk).0, p)
  {
    hide Good, Malloc, Blocks;
    MallocBlocks(s, size, base, junk);
    BlockAt(s, p);
    BlockAt(Malloc(s, size, base, junk).0, p);
  }

  /** `realloc` on the tag structure: the new state, the pointer returned and what the provider hears. */
  function Realloc(s: Arena, p: int, size: nat, base: int, junk: Header): (r: (Arena, int, Release))
    requires Inv(s) && (p == NULL || IsLive(s, p)) && size + HEADER < MOD32 && MayAnswer(s, size, base)
    ensures Inv(r.0)
  {
    if size == 0 then (Free(s, p).0, NULL, Free(s, p).1)
    else
      var (s1, q) := Malloc(s, size, base, junk);
      if p == NULL then (s1, q, Kept)
      else
        MallocKeepsLive(s, size, base, junk, p);
        (Free(s1, p).0, q, Free(s1, p).1)
  }

  // ---------------------------------------------------------------- free

  lemma JoinLeftUse(s: Arena, t: int)
    requires Loose(s, t) && Coalesced(s, {})
    ensures var (r, l) := JoinLeft(s, t);
            && SameUse(s, r, {t, l}) && (l != t ==> !InUse(r, t) && !InUse(s, l)) && r.heads.Keys <= s.heads.Keys
  {
    hide Links, Lists, Buckets, Coalesced, Counts, Fits, Remove, MeltLeft;
    if LeftFree(s, t) {
      var l := s.heads[t].left;
      JoinLeftGood(s, t);
      var m := MeltLeft(s, t);
      MeltedUse(s, m, t);
      RelistedUse(m, Remove(m, l), l, -1);
      SameUseTrans(s, m, Remove(m, l), {t}, {l});
      assert {t} + {l} == {t, l};
    }
  }

  lemma JoinRightUse(s: Arena, t: int)
    requires Loose(s, t) && !LeftFree(s, t)
    ensures SameUse(s, JoinRight(s, t), {}) && JoinRight(s, t).heads.Keys <= s.heads.Keys
  {
    hide Links, Lists, Buckets, Coalesced, Counts, Fits, Remove, MeltLeft;
    if RightFree(s, t) {
      var x := s.heads[t].right;
      JoinRightGood(s, t);
      var m := Remove(s, x);
      RelistedUse(s, m, x, -1);
      MeltedUse(m, MeltLeft(m, x), x);
      SameUseTrans(s, m, MeltLeft(m, x), {x}, {x});
      assert !InUse(s, x) && !InUse(MeltLeft(m, x), x);
    }
  }

  lemma SettledUse(s: Arena, t: int)
    requires Loose(s, t) && Alone(s, t)
    ensures SameUse(s, Settled(s, t).0, {t}) && !InUse(Settled(s, t).0, t)
    ensures Settled(s, t).0.heads.Keys <= s.heads.Keys
  {
    hide Links, Lists, Buckets, Coalesced, Counts, Fits, Insert;
    GiveGood(s, t);
    var i := Bucket(s.heads[t].realSize);
    CountAt(s, i, {t});
    InsertFrame(s, t, i);
    RelistedUse(s, Insert(s, t, i), t, i);
    GiveInserts(s, t, i);
  }

  /** `free` takes exactly the named block away. */
  lemma FreeBlocks(s: Arena, p: int)
    requires Inv(s) && IsLive(s, p)
    ensures p in Blocks(s) && Blocks(Free(s, p).0) == Blocks(s) - {p}
    ensures Free(s, p).0.heads.Keys <= s.heads.Keys
  {
    hide Links, Lists, Buckets, Coalesced, Counts, Fits, JoinLeft, JoinRight, Settled, SameUse, Blocks;
    var t := p - HEADER;
    BlockAt(s, p);
    HeatUp(s, t);
    SpanBounded(s, t);
    var (s1, t1) := JoinLeft(s, t);
    JoinLeftUse(s, t);
    JoinRightUse(s1, t1);
    var s2 := JoinRight(s1, t1);
    SettledUse(s2, t1);
    var r := Settled(s2, t1).0;
    SameUseTrans(s, s1, s2, {t, t1}, {});
    SameUseTrans(s, s2, r, {t, t1} + {}, {t1});
    assert {t, t1} + {} + {t1} == {t, t1};
    if t1 == t {
      assert {t, t1} == {t};
    } else {
      SameUseShrink(s, r, {t, t1}, t1);
      assert {t, t1} - {t1} == {t};
      SameUseAt(s1, s2, {}, t);
      SameUseAt(s2, r, {t1}, t);
    }
    BlocksDrop(s, r, t);
  }
}
