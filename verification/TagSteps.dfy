/** The steps `malloc` and `free` are made of, and that each keeps the invariants up to `hot` tags. */
module TagSteps {
  import opened Machine
  import opened Exponent
  import opened BoundaryTags
  import opened TagInvariants

  /** Both split neighbours are absent or in use. */
  ghost predicate Alone(s: Arena, t: int)
    requires t in s.heads
  {
    && (s.heads[t].left in s.heads ==> s.heads[s.heads[t].left].index == -1)
    && (s.heads[t].right in s.heads ==> s.heads[s.heads[t].right].index == -1)
  }

  lemma ListsFrame(s: Arena, r: Arena)
    requires Lists(s) && NULL !in r.heads && r.first == s.first && r.rank == s.rank
    requires forall u :: u in s.heads && u !in r.heads ==> s.heads[u].index == -1
    requires forall u :: u in r.heads && u in s.heads ==>
      r.heads[u].index == s.heads[u].index && r.heads[u].next == s.heads[u].next && r.heads[u].prev == s.heads[u].prev
    requires forall u :: u in r.heads && u !in s.heads ==>
      r.heads[u].index == -1 && r.heads[u].next == NULL && r.heads[u].prev == NULL
    ensures Lists(r)
  {
    forall i | 0 <= i < MAXEXP
      ensures FirstOk(r, i)
    {
      assert FirstOk(s, i);
    }
    forall u | u in r.heads
      ensures TagListed(r, u)
    {
      if u in s.heads {
        assert TagListed(s, u);
      }
    }
  }

  lemma LinksFrame(s: Arena, r: Arena)
    requires Links(s) && r.heads.Keys == s.heads.Keys && r.regions == s.regions && r.owner == s.owner
    requires forall u :: u in s.heads ==>
      && r.heads[u].magic == s.heads[u].magic && r.heads[u].realSize == s.heads[u].realSize
      && r.heads[u].left == s.heads[u].left && r.heads[u].right == s.heads[u].right
    ensures Links(r)
  {
    forall b | b in r.regions
      ensures RegionOk(r, b)
    {
      assert RegionOk(s, b);
    }
    forall u | u in r.heads
      ensures TagLinked(r, u)
    {
      assert TagLinked(s, u);
    }
  }

  lemma CountsFrame(s: Arena, r: Arena, hot: set<int>, hot': set<int>)
    requires Counts(s, hot) && r.complete == s.complete
    requires forall i, u :: 0 <= i < MAXEXP ==> Counted(s, u, i, hot) == Counted(r, u, i, hot')
    ensures Counts(r, hot')
  {
    forall i | 0 <= i < MAXEXP
      ensures WholeFree(s, i, hot) == WholeFree(r, i, hot')
    {
    }
  }

  /** Only in-use tags may become or stop being hot without further ado. */
  lemma CoolDown(s: Arena, t: int)
    requires Good(s, {t}) && t in s.heads && s.heads[t].index == -1
    requires 0 <= s.heads[t].size && 0 <= s.heads[t].realSize - HEADER - s.heads[t].size < HEADER + 256
    ensures Inv(s)
  {
    CountsFrame(s, s, {t}, {});
  }

  lemma HeatUp(s: Arena, t: int)
    requires Inv(s) && t in s.heads && s.heads[t].index == -1
    ensures Good(s, {t})
  {
    CountsFrame(s, s, {}, {t});
  }

  // ---------------------------------------------------------------- taking a tag off its list

  lemma RemoveLinks(s: Arena, t: int)
    requires Links(s) && Lists(s) && t in s.heads && s.heads[t].index >= 0
    ensures Removable(s, t) && Links(Remove(s, t)) && Lists(Remove(s, t))
  {
    RemoveFrame(s, t);
    RemoveLists(s, t);
    LinksFrame(s, Remove(s, t));
  }

  lemma UnlistSameCounts(s: Arena, r: Arena, t: int, hot: set<int>)
    requires Counts(s, hot) && Relisted(s, r, t, -1)
    requires t in hot || s.heads[t].index == -1 || !Whole(s.heads[t])
    ensures Counts(r, hot + {t})
  {
    CountsFrame(s, r, hot, hot + {t});
  }

  lemma UnlistBesides(s: Arena, r: Arena, t: int, hot: set<int>)
    requires Buckets(s, hot) && Coalesced(s, hot) && Fits(s, hot) && Relisted(s, r, t, -1)
    ensures Buckets(r, hot + {t}) && Coalesced(r, hot + {t}) && Fits(r, hot + {t})
  {
  }

  /** Removing a tag that is hot already, or that is not a whole region, leaves the counts right. */
  lemma RemoveGood(s: Arena, t: int, hot: set<int>)
    requires Good(s, hot) && t in s.heads && s.heads[t].index >= 0
    requires t in hot || !Whole(s.heads[t])
    ensures Removable(s, t) && Good(Remove(s, t), hot + {t})
  {
    hide Links, Lists, Buckets, Coalesced, Counts, Fits, Remove;
    RemoveLinks(s, t);
    RemoveFrame(s, t);
    UnlistSameCounts(s, Remove(s, t), t, hot);
    UnlistBesides(s, Remove(s, t), t, hot);
  }

  /** `remove_tag` as `malloc` uses it, with the count of whole regions adjusted. */
  function Take(s: Arena, t: int): Arena
    requires Removable(s, t) && |s.complete| == MAXEXP
  {
    var r := Remove(s, t);
    if Whole(s.heads[t]) then Recount(r, s.heads[t].index, -1) else r
  }

  function Recount(s: Arena, i: int, change: int): Arena
    requires 0 <= i < |s.complete|
  {
    s.(complete := s.complete[i := s.complete[i] + change])
  }

  lemma UnlistCounts(s: Arena, r: Arena, t: int)
    requires Counts(s, {}) && Relisted(s, r, t, -1) && 0 <= s.heads[t].index < MAXEXP && Whole(s.heads[t])
    ensures Counts(Recount(r, s.heads[t].index, -1), {t})
  {
    var k := s.heads[t].index;
    var q := Recount(r, k, -1);
    forall i | 0 <= i < MAXEXP
      ensures q.complete[i] == |WholeFree(q, i, {t})| && q.complete[i] <= MAXCOMPLETE
    {
      if i == k {
        assert WholeFree(s, i, {}) == WholeFree(q, i, {t}) + {t};
      } else {
        assert WholeFree(s, i, {}) == WholeFree(q, i, {t});
      }
    }
  }

  /** The other invariants do not depend on the counts. */
  lemma RecountGood(s: Arena, i: int, change: int, hot: set<int>)
    requires Links(s) && Lists(s) && Buckets(s, hot) && Coalesced(s, hot) && Fits(s, hot)
    requires 0 <= i < |s.complete| && Counts(Recount(s, i, change), hot)
    ensures Good(Recount(s, i, change), hot)
  {
    LinksFrame(s, Recount(s, i, change));
    ListsFrame(s, Recount(s, i, change));
  }

  lemma UnlistAlone(s: Arena, r: Arena, t: int)
    requires Links(s) && Lists(s) && Coalesced(s, {}) && Relisted(s, r, t, -1) && s.heads[t].index >= 0
    ensures Alone(r, t)
  {
    assert TagLinked(s, t);
    var l := s.heads[t].left;
    if l in s.heads {
      assert TagLinked(s, l) && TagListed(s, l);
    }
  }

  lemma UnlistTaken(s: Arena, r: Arena, t: int)
    requires Inv(s) && Relisted(s, r, t, -1) && Links(r) && Lists(r) && 0 <= s.heads[t].index < MAXEXP
    ensures Good(if Whole(s.heads[t]) then Recount(r, s.heads[t].index, -1) else r, {t})
  {
    UnlistBesides(s, r, t, {});
    assert {} + {t} == {t};
    if Whole(s.heads[t]) {
      UnlistCounts(s, r, t);
      RecountGood(r, s.heads[t].index, -1, {t});
    } else {
      UnlistSameCounts(s, r, t, {});
    }
  }

  lemma TakeGood(s: Arena, t: int)
    requires Inv(s) && t in s.heads && s.heads[t].index >= 0
    ensures Removable(s, t)
    ensures Good(Take(s, t), {t}) && Alone(Take(s, t), t)
    ensures Relisted(s, Remove(s, t), t, -1)
  {
    hide Links, Lists, Buckets, Coalesced, Counts, Fits, Remove;
    RemoveLinks(s, t);
    RemoveFrame(s, t);
    UnlistAlone(s, Remove(s, t), t);
    UnlistTaken(s, Remove(s, t), t);
  }

  // ---------------------------------------------------------------- merging

  lemma MeltedCounts(s: Arena, r: Arena, t: int, hot: set<int>)
    requires Counts(s, hot) && Melted(s, r, t) && t in hot && s.heads[t].left in s.heads
    requires !Whole(s.heads[s.heads[t].left])
    ensures Counts(r, hot - {t} + {s.heads[t].left})
  {
    CountsFrame(s, r, hot, hot - {t} + {s.heads[t].left});
  }

  lemma MeltedBesides(s: Arena, r: Arena, t: int, hot: set<int>)
    requires Buckets(s, hot) && Coalesced(s, hot) && Fits(s, hot) && Melted(s, r, t) && t in hot
    ensures var hot' := hot - {t} + {s.heads[t].left}; Buckets(r, hot') && Coalesced(r, hot') && Fits(r, hot')
  {
  }

  /** A tag in use melts into its left neighbour, which becomes hot. */
  lemma MeltGood(s: Arena, t: int, hot: set<int>)
    requires Good(s, hot) && t in hot && t in s.heads && s.heads[t].index == -1 && s.heads[t].left != NULL
    ensures Meltable(s, t) && Good(MeltLeft(s, t), hot - {t} + {s.heads[t].left})
    ensures Melted(s, MeltLeft(s, t), t)
  {
    hide Links, Buckets, Coalesced, Counts, Fits, MeltLeft;
    LinksGiveLinked(s);
    MeltLinks(s, t);
    MeltFrame(s, t);
    assert Linked(s, t);
    var r := MeltLeft(s, t);
    ListsFrame(s, r);
    MeltedCounts(s, r, t, hot);
    MeltedBesides(s, r, t, hot);
  }

  // ---------------------------------------------------------------- putting a tag on a list

  /** `insert_tag` as `free` uses it: a whole region is counted in its bucket first. */
  function Give(s: Arena, t: int): Arena
    requires t in s.heads && HEADER <= s.heads[t].realSize < MOD32
    requires Listable(s, t, Bucket(s.heads[t].realSize)) && |s.complete| == MAXEXP
  {
    var i := Bucket(s.heads[t].realSize);
    Insert(if Whole(s.heads[t]) then Recount(s, i, 1) else s, t, i)
  }

  lemma EnlistCounts(s: Arena, r: Arena, t: int, i: int)
    requires Counts(s, {t}) && Relisted(s, r, t, i) && 0 <= i < MAXEXP && s.heads[t].index == -1
    requires Whole(s.heads[t]) && s.complete[i] < MAXCOMPLETE
    ensures Counts(Recount(r, i, 1), {})
  {
    var q := Recount(r, i, 1);
    forall j | 0 <= j < MAXEXP
      ensures q.complete[j] == |WholeFree(q, j, {})| && q.complete[j] <= MAXCOMPLETE
    {
      assert forall u :: u != t ==> Counted(s, u, j, {t}) == Counted(q, u, j, {});
      if j == i {
        assert Counted(q, t, j, {});
        assert WholeFree(q, j, {}) == WholeFree(s, j, {t}) + {t};
      } else {
        assert WholeFree(q, j, {}) == WholeFree(s, j, {t});
      }
    }
  }

  lemma EnlistSameCounts(s: Arena, r: Arena, t: int, i: int)
    requires Counts(s, {t}) && Relisted(s, r, t, i) && !Whole(s.heads[t])
    ensures Counts(r, {})
  {
    CountsFrame(s, r, {t}, {});
  }

  lemma AloneFromLeft(s: Arena, t: int)
    requires Links(s) && t in s.heads && Alone(s, t)
    ensures forall u :: u in s.heads && s.heads[u].right == t ==> s.heads[u].index == -1
  {
    forall u | u in s.heads && s.heads[u].right == t
      ensures s.heads[u].index == -1
    {
      assert TagLinked(s, u) && RegionOk(s, s.owner[u]);
      assert TagLinked(s, t) && RegionOk(s, s.owner[t]);
    }
  }

  lemma EnlistBesides(s: Arena, r: Arena, t: int, i: int)
    requires Buckets(s, {t}) && Coalesced(s, {t}) && Fits(s, {t}) && Relisted(s, r, t, i)
    requires forall u :: u in s.heads && s.heads[u].right == t ==> s.heads[u].index == -1
    requires s.heads[t].index == -1 && Alone(s, t) && 0 <= i && s.heads[t].right != t
    requires HEADER <= s.heads[t].realSize < MOD32 && i == Bucket(s.heads[t].realSize)
    ensures Buckets(r, {}) && Coalesced(r, {}) && Fits(r, {})
  {
  }

  lemma InsertLinks(s: Arena, t: int, i: int)
    requires Links(s) && Lists(s) && t in s.heads && s.heads[t].index == -1 && MINEXP <= i < MAXEXP
    ensures Listable(s, t, i) && Links(Insert(s, t, i)) && Lists(Insert(s, t, i))
  {
    InsertFrame(s, t, i);
    InsertLists(s, t, i);
    LinksFrame(s, Insert(s, t, i));
  }

  lemma SpanBounded(s: Arena, t: int)
    requires Links(s) && t in s.heads
    ensures HEADER <= s.heads[t].realSize < MOD32 && 0 < t && t + s.heads[t].realSize <= MOD32
  {
    assert TagLinked(s, t) && RegionOk(s, s.owner[t]);
  }

  lemma EnlistGiven(s: Arena, r: Arena, t: int, i: int)
    requires Good(s, {t}) && Relisted(s, r, t, i) && Links(r) && Lists(r)
    requires s.heads[t].index == -1 && Alone(s, t) && s.heads[t].right != t
    requires HEADER <= s.heads[t].realSize < MOD32 && i == Bucket(s.heads[t].realSize)
    requires Whole(s.heads[t]) ==> s.complete[i] < MAXCOMPLETE
    ensures Inv(if Whole(s.heads[t]) then Recount(r, i, 1) else r)
  {
    AloneFromLeft(s, t);
    EnlistBesides(s, r, t, i);
    if Whole(s.heads[t]) {
      EnlistCounts(s, r, t, i);
      RecountGood(r, i, 1, {});
    } else {
      EnlistSameCounts(s, r, t, i);
    }
  }

  lemma GiveInserts(s: Arena, t: int, i: int)
    requires t in s.heads && HEADER <= s.heads[t].realSize < MOD32 && i == Bucket(s.heads[t].realSize)
    requires Listable(s, t, i) && |s.complete| == MAXEXP
    ensures Give(s, t) == if Whole(s.heads[t]) then Recount(Insert(s, t, i), i, 1) else Insert(s, t, i)
  {
  }

  lemma GiveGood(s: Arena, t: int)
    requires Good(s, {t}) && t in s.heads && s.heads[t].index == -1 && Alone(s, t)
    ensures HEADER <= s.heads[t].realSize < MOD32 && Listable(s, t, Bucket(s.heads[t].realSize))
    ensures !Whole(s.heads[t]) || s.complete[Bucket(s.heads[t].realSize)] < MAXCOMPLETE ==> Inv(Give(s, t))
  {
    hide Links, Lists, Buckets, Coalesced, Fits, Insert, Bucket;
    SpanBounded(s, t);
    var i := Bucket(s.heads[t].realSize);
    InsertLinks(s, t, i);
    InsertFrame(s, t, i);
    var r := Insert(s, t, i);
    if !Whole(s.heads[t]) || s.complete[i] < MAXCOMPLETE {
      LinkedAt(s, t);
      EnlistGiven(s, r, t, i);
      GiveInserts(s, t, i);
    }
  }

  // ---------------------------------------------------------------- splitting

  /** `split_tag`: cut the excess off and put it on a list. */
  function Split(s: Arena, t: int, junk: Header): Arena
    requires Splittable(s, t) && 0 <= s.heads[t].size && s.heads[t].right != SplitPoint(s, t)
    requires HEADER <= s.heads[t].realSize - HEADER - s.heads[t].size < MOD32
    requires var r, n := Cut(s, t, junk), SplitPoint(s, t);
             Listable(r, n, Bucket(s.heads[t].realSize - HEADER - s.heads[t].size))
  {
    Insert(Cut(s, t, junk), SplitPoint(s, t), Bucket(s.heads[t].realSize - HEADER - s.heads[t].size))
  }

  /** From `s` to `r` the in-use tag `n` appears, cut off the right end of `t`. */
  ghost predicate CutApart(s: Arena, r: Arena, t: int, n: int) {
    && t in s.heads && n !in s.heads && r.heads.Keys == s.heads.Keys + {n}
    && r.regions == s.regions && r.complete == s.complete && r.first == s.first && r.rank == s.rank
    && r.heads[n].index == -1 && r.heads[n].next == NULL && r.heads[n].prev == NULL && r.heads[n].left == t
    && r.heads[n].right == s.heads[t].right && r.heads[t].right == n
    && r.heads[t].realSize == HEADER + s.heads[t].size
    && r.heads[n].realSize == s.heads[t].realSize - HEADER - s.heads[t].size
    && (forall u :: u in s.heads ==>
          && r.heads[u].index == s.heads[u].index && r.heads[u].size == s.heads[u].size
          && r.heads[u].next == s.heads[u].next && r.heads[u].prev == s.heads[u].prev)
    && (forall u :: u in s.heads && u != t ==>
          && r.heads[u].realSize == s.heads[u].realSize && r.heads[u].right == s.heads[u].right
          && (r.heads[u].left == NULL <==> s.heads[u].left == NULL))
  }

  lemma CutFrameAt(s: Arena, t: int, junk: Header, u: int)
    requires Linked(s, t) && Linked(s, u) && junk.index == -1 && NULL !in s.heads
    requires SplitPoint(s, t) !in s.heads && SplitPoint(s, t) != NULL
    ensures Splittable(s, t)
    ensures var g, h := Cut(s, t, junk).heads[u], s.heads[u];
            && g.index == h.index && g.size == h.size && g.next == h.next && g.prev == h.prev
            && (u != t ==> g.realSize == h.realSize && g.right == h.right && (g.left == NULL <==> h.left == NULL))
  {
  }

  lemma CutFrame(s: Arena, t: int, junk: Header)
    requires AllLinked(s) && t in s.heads && junk.index == -1 && NULL !in s.heads
    requires SplitPoint(s, t) !in s.heads && SplitPoint(s, t) != NULL
    ensures Splittable(s, t) && CutApart(s, Cut(s, t, junk), t, SplitPoint(s, t))
  {
    assert Linked(s, t);
    forall u | u in s.heads
      ensures var g, h := Cut(s, t, junk).heads[u], s.heads[u];
              && g.index == h.index && g.size == h.size && g.next == h.next && g.prev == h.prev
              && (u != t ==> g.realSize == h.realSize && g.right == h.right && (g.left == NULL <==> h.left == NULL))
    {
      CutFrameAt(s, t, junk, u);
    }
  }

  lemma CutCounts(s: Arena, r: Arena, t: int, n: int)
    requires Counts(s, {t}) && CutApart(s, r, t, n) && s.heads[t].index == -1
    ensures Counts(r, {n})
  {
    CountsFrame(s, r, {t}, {n});
  }

  lemma CutBesides(s: Arena, r: Arena, t: int, n: int)
    requires Buckets(s, {t}) && Coalesced(s, {t}) && Fits(s, {t}) && CutApart(s, r, t, n)
    requires s.heads[t].index == -1 && 0 <= s.heads[t].size
    requires forall u :: u in s.heads ==> s.heads[u].right != n
    ensures Buckets(r, {n}) && Coalesced(r, {n}) && Fits(r, {n})
  {
  }

  lemma CutLists(s: Arena, r: Arena, t: int, n: int)
    requires Lists(s) && CutApart(s, r, t, n) && n != NULL
    ensures Lists(r)
  {
    ListsFrame(s, r);
  }

  lemma CutGood(s: Arena, r: Arena, t: int, n: int)
    requires Good(s, {t}) && CutApart(s, r, t, n) && Links(r)
    requires s.heads[t].index == -1 && Alone(s, t) && 0 <= s.heads[t].size && n != NULL
    ensures Good(r, {n}) && Alone(r, n)
  {
    hide Links, Lists, Buckets, Coalesced, Counts, Fits;
    NoRightNeighbour(s, n);
    CutLists(s, r, t, n);
    CutCounts(s, r, t, n);
    CutBesides(s, r, t, n);
    LinkedAt(s, t);
  }

  /** What memory held in the index word of the new header does not matter. */
  lemma CutJunkIndex(s: Arena, t: int, junk: Header, i: int)
    requires Splittable(s, t) && SplitPoint(s, t) !in s.heads && s.heads[t].right != SplitPoint(s, t)
    requires Listable(s, t, i)
    ensures Insert(Cut(s, t, junk), SplitPoint(s, t), i)
            == Insert(Cut(s, t, junk.(index := -1)), SplitPoint(s, t), i)
  {
    var n := SplitPoint(s, t);
    var c, d := Cut(s, t, junk), Cut(s, t, junk.(index := -1));
    assert c.heads[n := c.heads[n].(index := i)] == d.heads[n := d.heads[n].(index := i)];
  }

  lemma SplitGood(s: Arena, t: int, junk: Header)
    requires Good(s, {t}) && t in s.heads && s.heads[t].index == -1 && Alone(s, t)
    requires 0 <= s.heads[t].size && 2 * HEADER <= s.heads[t].realSize - s.heads[t].size
    ensures Splittable(s, t) && s.heads[t].right != SplitPoint(s, t)
    ensures HEADER <= s.heads[t].realSize - HEADER - s.heads[t].size < MOD32
    ensures Listable(Cut(s, t, junk), SplitPoint(s, t), Bucket(s.heads[t].realSize - HEADER - s.heads[t].size))
    ensures Inv(Split(s, t, junk))
  {
    hide Links, Lists, Buckets, Coalesced, Counts, Fits, Insert, AllLinked;
    SpanBounded(s, t);
    LinkedAt(s, t);
    ListedAt(s, t);
    LinksGiveLinked(s);
    var clean := junk.(index := -1);
    CutLinks(s, t, clean);
    CutFrame(s, t, clean);
    var r, n := Cut(s, t, clean), SplitPoint(s, t);
    CutGood(s, r, t, n);
    var i := Bucket(s.heads[t].realSize - HEADER - s.heads[t].size);
    FirstAt(s, i);
    CutJunkIndex(s, t, junk, i);
    SplitListed(r, n, i);
  }

  lemma SplitListed(r: Arena, n: int, i: int)
    requires Good(r, {n}) && n in r.heads && r.heads[n].index == -1 && Alone(r, n) && r.heads[n].left != NULL
    requires HEADER <= r.heads[n].realSize < MOD32 && i == Bucket(r.heads[n].realSize)
    ensures Listable(r, n, i) && Inv(Insert(r, n, i))
  {
    InsertLinks(r, n, i);
    InsertFrame(r, n, i);
    assert TagLinked(r, n);
    EnlistGiven(r, Insert(r, n, i), n, i);
  }

  // ---------------------------------------------------------------- regions

  /** The documented contract of `liballoc_alloc`: a fresh run of pages inside the address space. */
  ghost predicate ProviderMayReturn(s: Arena, base: int, pages: int) {
    && 0 < base && 0 < pages && base + PAGE * pages <= MOD32
    && forall b :: b in s.regions ==> End(s, b) <= base || base + PAGE * pages <= b
  }

  /** `allocate_new_tag` once the provider has answered: one tag in use over the whole region. */
  function Grant(s: Arena, base: int, pages: int, size: int): Arena {
    s.(heads := s.heads[base := Header(MAGIC, size, PAGE * pages, -1, NULL, NULL, NULL, NULL)],
       owner := s.owner[base := base], regions := s.regions[base := pages])
  }

  lemma GrantFresh(s: Arena, base: int, pages: int)
    requires Links(s) && ProviderMayReturn(s, base, pages)
    ensures base !in s.regions
    ensures forall t :: t in s.heads ==>
      HEADER <= s.heads[t].realSize && (t + s.heads[t].realSize <= base || base + PAGE * pages <= t)
  {
    forall t | t in s.heads
      ensures HEADER <= s.heads[t].realSize && (t + s.heads[t].realSize <= base || base + PAGE * pages <= t)
    {
      assert TagLinked(s, t);
    }
    assert base in s.regions ==> RegionOk(s, base);
  }

  lemma GrantTag(s: Arena, base: int, pages: int, size: int, t: int)
    requires t in s.heads && t in s.owner && TagLinked(s, t) && base !in s.heads && base !in s.regions
    ensures TagLinked(Grant(s, base, pages, size), t)
  {
  }

  lemma GrantSeparate(s: Arena, base: int, pages: int, size: int)
    requires Separate(s.heads) && base !in s.heads && 0 < pages
    requires forall t :: t in s.heads ==>
      HEADER <= s.heads[t].realSize && (t + s.heads[t].realSize <= base || base + PAGE * pages <= t)
    ensures Separate(Grant(s, base, pages, size).heads)
  {
  }

  lemma GrantRegions(s: Arena, base: int, pages: int, size: int)
    requires forall b :: b in s.regions ==> RegionOk(s, b)
    requires forall b, c :: b in s.regions && c in s.regions && b < c ==> End(s, b) <= c
    requires ProviderMayReturn(s, base, pages) && base !in s.regions && base !in s.heads
    ensures var r := Grant(s, base, pages, size);
            && (forall b :: b in r.regions ==> RegionOk(r, b))
            && (forall b, c :: b in r.regions && c in r.regions && b < c ==> End(r, b) <= c)
  {
    var r := Grant(s, base, pages, size);
    forall b | b in r.regions
      ensures RegionOk(r, b)
    {
      assert b != base ==> RegionOk(s, b);
    }
    forall b, c | b in r.regions && c in r.regions && b < c
      ensures End(r, b) <= c
    {
      assert RegionOk(r, c);
      assert b != base && c != base ==> End(s, b) <= c;
    }
  }

  lemma GrantTags(s: Arena, base: int, pages: int, size: int)
    requires s.owner.Keys == s.heads.Keys && (forall t :: t in s.heads ==> TagLinked(s, t))
    requires base !in s.regions && base !in s.heads && 0 < base && 0 < pages
    ensures var r := Grant(s, base, pages, size);
            r.owner.Keys == r.heads.Keys && forall t :: t in r.heads ==> TagLinked(r, t)
  {
    var r := Grant(s, base, pages, size);
    forall t | t in r.heads
      ensures TagLinked(r, t)
    {
      if t != base {
        GrantTag(s, base, pages, size, t);
      }
    }
  }

  lemma GrantLinks(s: Arena, base: int, pages: int, size: int)
    requires Links(s) && NULL !in s.heads && ProviderMayReturn(s, base, pages)
    ensures base !in s.heads && Links(Grant(s, base, pages, size))
  {
    GrantFresh(s, base, pages);
    GrantSeparate(s, base, pages, size);
    GrantRegions(s, base, pages, size);
    GrantTags(s, base, pages, size);
  }

  lemma GrantBesides(s: Arena, base: int, pages: int, size: int)
    requires Buckets(s, {}) && Coalesced(s, {}) && Counts(s, {}) && Fits(s, {}) && base !in s.heads
    requires forall t :: t in s.heads ==> s.heads[t].right != base
    ensures var r := Grant(s, base, pages, size);
            Buckets(r, {base}) && Coalesced(r, {base}) && Counts(r, {base}) && Fits(r, {base})
  {
    CountsFrame(s, Grant(s, base, pages, size), {}, {base});
  }

  lemma NoRightNeighbour(s: Arena, base: int)
    requires Links(s) && base !in s.heads && base != NULL
    ensures forall t :: t in s.heads ==> s.heads[t].right != base
  {
    forall t | t in s.heads
      ensures s.heads[t].right != base
    {
      LinkedAt(s, t);
    }
  }

  lemma GrantGood(s: Arena, base: int, pages: int, size: int)
    requires Inv(s) && ProviderMayReturn(s, base, pages)
    ensures var r := Grant(s, base, pages, size); Good(r, {base}) && Alone(r, base)
  {
    hide Links, Buckets, Coalesced, Counts, Fits;
    GrantLinks(s, base, pages, size);
    ListsFrame(s, Grant(s, base, pages, size));
    NoRightNeighbour(s, base);
    GrantBesides(s, base, pages, size);
  }

  /** Giving a whole region back to the provider. */
  function Return(s: Arena, t: int): Arena {
    s.(heads := s.heads - {t}, owner := s.owner - {t}, regions := s.regions - {t})
  }

  /** A whole tag is the base of its region and covers it exactly, and no other tag lies in it. */
  lemma WholeRegion(s: Arena, t: int)
    requires Links(s) && t in s.heads && Whole(s.heads[t])
    ensures t in s.regions && s.owner[t] == t && s.heads[t].realSize == PAGE * s.regions[t]
    ensures forall u :: u in s.heads && u != t ==> u + s.heads[u].realSize <= t || End(s, t) <= u
    ensures forall u :: u in s.heads && s.owner[u] == t ==> u == t
  {
    assert TagLinked(s, t);
    forall u | u in s.heads && s.owner[u] == t
      ensures u == t
    {
      assert TagLinked(s, u);
    }
  }

  lemma ReturnTag(s: Arena, t: int, u: int)
    requires u in s.heads && u in s.owner && TagLinked(s, u) && t in s.owner && s.owner[t] == t && s.owner[u] != t
    ensures TagLinked(Return(s, t), u)
  {
  }

  lemma ReturnLinks(s: Arena, t: int)
    requires Links(s) && t in s.heads && Whole(s.heads[t])
    ensures Links(Return(s, t))
  {
    WholeRegion(s, t);
    var r := Return(s, t);
    forall b | b in r.regions
      ensures RegionOk(r, b)
    {
      assert RegionOk(s, b);
    }
    forall u | u in r.heads
      ensures TagLinked(r, u)
    {
      ReturnTag(s, t, u);
    }
  }

  lemma ReturnGood(s: Arena, t: int)
    requires Good(s, {t}) && t in s.heads && s.heads[t].index == -1 && Whole(s.heads[t])
    ensures Inv(Return(s, t))
  {
    ReturnLinks(s, t);
    var r := Return(s, t);
    ListsFrame(s, r);
    CountsFrame(s, r, {t}, {});
  }
}
