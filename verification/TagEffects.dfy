/** What `malloc` and `free` do to every tag, stated over the state before the call. */
module TagEffects {
  import opened Machine
  import opened Exponent
  import opened BoundaryTags
  import opened TagInvariants
  import opened TagSteps
  import opened AllocatorSpec
  import opened FreeLists
  import opened LiveBlocks

  /** Outside `x`, the tags of `s` are still there with their requested size, span and list. */
  ghost predicate SameTags(s: Arena, r: Arena, x: set<int>) {
    forall u :: u in s.heads && u !in x ==>
      && u in r.heads && r.heads[u].size == s.heads[u].size
      && r.heads[u].realSize == s.heads[u].realSize && r.heads[u].index == s.heads[u].index
  }

  lemma SameTagsTrans(a: Arena, b: Arena, c: Arena, x: set<int>, y: set<int>)
    requires SameTags(a, b, x) && SameTags(b, c, y)
    ensures SameTags(a, c, x + y)
  {
  }

  // ---------------------------------------------------------------- malloc

  /**
   Tag `t` of `z` bytes has become a block of `size` bytes. What is left over behind it is a free tag
   at the front of its list if it has at least 256 bytes behind its header, and part of the block if not.
   */
  ghost predicate Carved(s: Arena, r: Arena, t: int, z: int, size: int) {
    && t in r.heads && r.heads[t].index == -1 && r.heads[t].size == size
    && (z - size - 64 >= 256 ==>
          var n := t + 32 + size;
          && n !in s.heads && r.heads.Keys == s.heads.Keys + {t, n} && r.heads[t].realSize == 32 + size
          && r.heads[n].realSize == z - 32 - size
          && 0 <= r.heads[n].index < |r.first| && r.first[r.heads[n].index] == n)
    && (z - size - 64 < 256 ==> r.heads.Keys == s.heads.Keys + {t} && r.heads[t].realSize == z)
    && SameTags(s, r, {t})
  }

  lemma SettleTags(s: Arena, size: nat, base: int)
    requires Inv(s) && size + HEADER < MOD32 && MayAnswer(s, size, base)
    requires Candidate(s, size) != NULL || base != NULL
    ensures var (s1, t) := Settle(s, size, base);
            && SameTags(s, s1, {t}) && s1.heads.Keys == s.heads.Keys + {t}
            && s1.heads[t].realSize ==
               if Candidate(s, size) == NULL then PAGE * PagesFor(size) else s.heads[Candidate(s, size)].realSize
  {
    hide Links, Lists, Buckets, Coalesced, Counts, Fits, Remove, PagesFor, ProviderMayReturn;
    var t := Candidate(s, size);
    FirstAt(s, MINEXP);
    if t == NULL {
      GrantLinks(s, base, PagesFor(size), size);
    } else {
      TakeGood(s, t);
      CountAt(s, MINEXP, {});
    }
  }

  lemma TrimTags(s: Arena, t: int, junk: Header)
    requires Good(s, {t}) && Roomy(s, t) && Alone(s, t)
    ensures Carved(s, Trim(s, t, junk), t, s.heads[t].realSize, s.heads[t].size)
  {
    hide Links, Lists, Buckets, Coalesced, Counts, Fits, Split, Cut, Insert, Splits;
    SplitsExactly(s.heads[t].realSize, s.heads[t].size);
    if Splits(s.heads[t].realSize, s.heads[t].size) {
      var c := SplitSteps(s, t, junk);
    } else {
      assert s.heads.Keys == s.heads.Keys + {t};
    }
  }

  /** The block handed out and every tag, from the state before the call. */
  lemma MallocTags(s: Arena, size: nat, base: int, junk: Header)
    requires Inv(s) && size + HEADER < MOD32 && MayAnswer(s, size, base)
    requires Malloc(s, size, base, junk).1 != NULL
    ensures var (r, p) := Malloc(s, size, base, junk);
            if NoRoom(s, size) then Carved(s, r, p - 32, 4096 * PagesFor(size), size)
            else p - 32 in s.heads && Carved(s, r, p - 32, s.heads[p - 32].realSize, size)
  {
    hide Links, Lists, Buckets, Coalesced, Counts, Fits, Settle, Trim, Blocks, NoRoom, Candidate, SameTags, PagesFor,
      ProviderMayReturn;
    CandidateNull(s, size);
    var (s1, t) := Settle(s, size, base);
    SettlesOn(s, size, base);
    SettleTags(s, size, base);
    TrimTags(s1, t, junk);
    SameTagsTrans(s, s1, Trim(s1, t, junk), {t}, {t});
    assert {t} + {t} == {t};
  }

  // ---------------------------------------------------------------- free

  ghost predicate FreeTag(s: Arena, t: int) {
    t in s.heads && s.heads[t].index >= 0
  }

  /** Where the free space starts that a tag becomes part of when it is freed. */
  ghost function SpanStart(s: Arena, t: int): int
    requires t in s.heads
  {
    if FreeTag(s, s.heads[t].left) then s.heads[t].left else t
  }

  /** Where that space ends. */
  ghost function SpanEnd(s: Arena, t: int): int
    requires t in s.heads
  {
    var x := s.heads[t].right;
    if FreeTag(s, x) then x + s.heads[x].realSize else t + s.heads[t].realSize
  }

  /** The tags that disappear in it. */
  ghost function Swallowed(s: Arena, t: int): set<int>
    requires t in s.heads
  {
    (if FreeTag(s, s.heads[t].left) then {t} else {})
    + (if FreeTag(s, s.heads[t].right) then {s.heads[t].right} else {})
  }

  /** One tag `t` in use covers what `t` and the tags `gone` covered before, up to `end`. */
  ghost predicate Joined(s: Arena, r: Arena, t: int, gone: set<int>, end: int) {
    && r.heads.Keys == s.heads.Keys - gone && t in r.heads && r.heads[t].index == -1
    && t + r.heads[t].realSize == end && SameTags(s, r, gone + {t})
    && r.regions == s.regions && r.complete == s.complete && t in s.owner && t in r.owner && r.owner[t] == s.owner[t]
  }

  lemma MeltSum(s: Arena, t: int)
    requires Meltable(s, t) && s.heads[t].left != t && s.heads[t].right != s.heads[t].left
    ensures MeltLeft(s, t).heads[s.heads[t].left].realSize == s.heads[s.heads[t].left].realSize + s.heads[t].realSize
  {
  }

  lemma JoinLeftTags(s: Arena, t: int)
    requires Loose(s, t) && Coalesced(s, {})
    ensures var (r, l) := JoinLeft(s, t);
            && l == SpanStart(s, t)
            && Joined(s, r, l, if l == t then {} else {t}, t + s.heads[t].realSize)
            && r.heads[l].right == s.heads[t].right
  {
    hide Links, Lists, Buckets, Coalesced, Counts, Fits, Remove, MeltLeft;
    LinkedAt(s, t);
    ListedAt(s, t);
    if LeftFree(s, t) {
      JoinLeftGood(s, t);
      MeltSum(s, t);
    }
  }

  lemma JoinRightTags(s: Arena, t: int)
    requires Loose(s, t) && !LeftFree(s, t)
    ensures var x := s.heads[t].right;
            Joined(s, JoinRight(s, t), t, if FreeTag(s, x) then {x} else {}, SpanEnd(s, t))
  {
    hide Links, Lists, Buckets, Coalesced, Counts, Fits, Remove, MeltLeft;
    LinkedAt(s, t);
    ListedAt(s, t);
    if RightFree(s, t) {
      var x := s.heads[t].right;
      JoinRightGood(s, t);
      LinkedAt(s, x);
      MeltSum(Remove(s, x), x);
    }
  }

  lemma JoinTags(s: Arena, t: int)
    requires Loose(s, t) && Coalesced(s, {})
    ensures var (s1, l) := JoinLeft(s, t);
            l == SpanStart(s, t) && Joined(s, JoinRight(s1, l), l, Swallowed(s, t), SpanEnd(s, t))
  {
    hide Links, Lists, Buckets, Coalesced, Counts, Fits, JoinLeft, JoinRight;
    var (s1, l) := JoinLeft(s, t);
    LinkedAt(s, t);
    ListedAt(s, t);
    JoinLeftTags(s, t);
    JoinRightTags(s1, l);
  }

  /** The free tags of list `i` that cover a whole region. */
  ghost function WholeRegions(s: Arena, i: int): set<int> {
    set b | b in s.regions && b in s.heads && s.heads[b].index == i && s.heads[b].realSize == 4096 * s.regions[b]
  }

  lemma WholeExactly(s: Arena, t: int)
    requires Links(s) && t in s.heads
    ensures Whole(s.heads[t]) <==> t in s.regions && s.heads[t].realSize == 4096 * s.regions[t]
  {
    hide Links;
    LinkedAt(s, t);
    if t in s.regions {
      RegionBase(s, t);
    }
  }

  lemma RegionBase(s: Arena, b: int)
    requires Links(s) && b in s.regions
    ensures b in s.owner && s.owner[b] == b
  {
    assert RegionOk(s, b);
  }

  lemma WholeCounted(s: Arena, i: int)
    requires Inv(s) && 0 <= i < MAXEXP
    ensures WholeRegions(s, i) == WholeFree(s, i, {})
    ensures |s.complete| == MAXEXP && s.complete[i] == |WholeRegions(s, i)|
  {
    hide Links, Lists, Buckets, Coalesced, Fits;
    forall t | t in s.heads
      ensures t in WholeRegions(s, i) <==> Counted(s, t, i, {})
    {
      WholeExactly(s, t);
    }
  }

  lemma SettledTags(s: Arena, t: int, i: int)
    requires Loose(s, t) && Alone(s, t) && SizeClass(i, s.heads[t].realSize - 32)
    ensures var (r, told) := Settled(s, t);
            && 0 <= i < MAXEXP && |s.complete| == MAXEXP
            && told == (if Whole(s.heads[t]) && s.complete[i] == 5
                        then Returned(t, s.heads[t].realSize / 4096) else Kept)
            && SameTags(s, r, {t})
            && (told.Returned? ==> r.heads.Keys == s.heads.Keys - {t} && r.regions == s.regions - {t})
            && (told.Kept? ==>
                  && r.heads.Keys == s.heads.Keys && r.regions == s.regions && r.heads[t].index == i
                  && r.heads[t].realSize == s.heads[t].realSize && |r.first| == MAXEXP && r.first[i] == t)
  {
    hide Links, Lists, Buckets, Coalesced, Counts, Fits, Insert, SizeClass;
    SpanBounded(s, t);
    ClassExactly(s.heads[t].realSize - 32, i);
    assert i == Bucket(s.heads[t].realSize);
    GiveGood(s, t);
    CountAt(s, i, {t});
    FirstAt(s, i);
    InsertFrame(s, t, i);
    InsertFirst(s, t, i);
    GiveInserts(s, t, i);
  }

  /**
   The block joins its free neighbours. What results goes back to the provider if and only if it is a
   whole region and five free regions of its size class are held already; if not, it is the first free
   tag of its class, so that a whole region is cached.
   */
  lemma FreeTags(s: Arena, p: int, i: int)
    requires Inv(s) && IsLive(s, p) && SizeClass(i, SpanEnd(s, p - 32) - SpanStart(s, p - 32) - 32)
    ensures var (r, told) := Free(s, p);
            var start, end, gone := SpanStart(s, p - 32), SpanEnd(s, p - 32), Swallowed(s, p - 32);
            var whole := start in s.regions && end == start + 4096 * s.regions[start];
            && (told.Returned? <==> whole && |WholeRegions(s, i)| == 5)
            && SameTags(s, r, gone + {start})
            && (told.Returned? ==>
                  && told == Returned(start, s.regions[start])
                  && r.heads.Keys == s.heads.Keys - gone - {start} && r.regions == s.regions - {start})
            && (told.Kept? ==>
                  && r.heads.Keys == s.heads.Keys - gone && r.regions == s.regions
                  && start in r.heads && r.heads[start].realSize == end - start && r.heads[start].index == i
                  && 0 <= i < |r.first| && r.first[i] == start
                  && (whole ==> start in WholeRegions(r, i)))
  {
    hide Links, Lists, Buckets, Coalesced, Counts, Fits, JoinLeft, JoinRight, Settled, SizeClass, SpanStart, SpanEnd,
      Swallowed, SameTags;
    var t := p - HEADER;
    HeatUp(s, t);
    SpanBounded(s, t);
    var (s1, l) := JoinLeft(s, t);
    JoinTags(s, t);
    var s2 := JoinRight(s1, l);
    SettledTags(s2, l, i);
    WholeExactly(s2, l);
    WholeCounted(s, i);
    SameTagsTrans(s, s2, Settled(s2, l).0, Swallowed(s, t) + {l}, {l});
    assert Swallowed(s, t) + {l} + {l} == Swallowed(s, t) + {l};
  }
}
