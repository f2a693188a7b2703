/** Each list and split operation keeps each of the six invariants. */
module TagInvariants {
  import opened Machine
  import opened Exponent
  import opened BoundaryTags

  lemma LinkedAt(s: Arena, t: int)
    requires Links(s) && t in s.heads
    ensures t in s.owner && TagLinked(s, t) && RegionOk(s, s.owner[t])
    ensures s.heads[t].left in s.heads ==> s.heads[t].left in s.owner && TagLinked(s, s.heads[t].left)
    ensures s.heads[t].right in s.heads ==> s.heads[t].right in s.owner && TagLinked(s, s.heads[t].right)
  {
    assert TagLinked(s, t);
  }

  lemma ListedAt(s: Arena, t: int)
    requires Lists(s) && t in s.heads
    ensures |s.first| == MAXEXP && NULL !in s.heads && TagListed(s, t)
  {
  }

  lemma FirstAt(s: Arena, i: int)
    requires Lists(s) && 0 <= i < MAXEXP
    ensures |s.first| == MAXEXP && NULL !in s.heads && FirstOk(s, i)
  {
  }

  lemma CountAt(s: Arena, i: int, hot: set<int>)
    requires Counts(s, hot) && 0 <= i < MAXEXP
    ensures |s.complete| == MAXEXP && 0 <= s.complete[i] <= MAXCOMPLETE
  {
  }

  // ---------------------------------------------------------------- list operations

  /** From `s` to `r` only list links change, and the index of `t`, which becomes `i`. */
  ghost predicate Relisted(s: Arena, r: Arena, t: int, i: int) {
    && r.regions == s.regions && r.owner == s.owner && r.complete == s.complete
    && r.heads.Keys == s.heads.Keys && t in s.heads && r.heads[t].index == i
    && (forall u :: u in s.heads ==>
          && r.heads[u].magic == s.heads[u].magic && r.heads[u].size == s.heads[u].size
          && r.heads[u].realSize == s.heads[u].realSize
          && r.heads[u].left == s.heads[u].left && r.heads[u].right == s.heads[u].right)
    && (forall u :: u in s.heads && u != t ==> r.heads[u].index == s.heads[u].index)
  }

  lemma RemoveFrame(s: Arena, t: int)
    requires Lists(s) && t in s.heads && s.heads[t].index >= 0
    ensures Removable(s, t)
    ensures Relisted(s, Remove(s, t), t, -1)
  {
    assert TagListed(s, t);
  }

  /** Null, or a tag that is well placed in its list. */
  ghost predicate Near(s: Arena, x: int)
    requires |s.first| == MAXEXP
  {
    x != NULL ==> x in s.heads && TagListed(s, x)
  }

  ghost predicate NearBoth(s: Arena, x: int)
    requires |s.first| == MAXEXP
  {
    x in s.heads && TagListed(s, x) && Near(s, s.heads[x].next) && Near(s, s.heads[x].prev)
  }

  lemma RemoveListed(s: Arena, t: int, u: int)
    requires |s.first| == MAXEXP && NULL !in s.heads && NearBoth(s, t) && NearBoth(s, u)
    requires s.heads[t].index >= 0
    ensures Removable(s, t) && TagListed(Remove(s, t), u)
  {
  }

  lemma RemoveFirst(s: Arena, t: int, j: int)
    requires |s.first| == MAXEXP && NULL !in s.heads && NearBoth(s, t) && 0 <= j < MAXEXP && FirstOk(s, j)
    requires s.heads[t].index >= 0
    ensures Removable(s, t) && FirstOk(Remove(s, t), j)
  {
  }

  lemma RemoveLists(s: Arena, t: int)
    requires Lists(s) && t in s.heads && s.heads[t].index >= 0
    ensures Removable(s, t) && Lists(Remove(s, t))
  {
    assert NearBoth(s, t);
    var r := Remove(s, t);
    forall j | 0 <= j < MAXEXP
      ensures FirstOk(r, j)
    {
      RemoveFirst(s, t, j);
    }
    forall u | u in r.heads
      ensures TagListed(r, u)
    {
      assert NearBoth(s, u);
      RemoveListed(s, t, u);
    }
  }

  lemma InsertFrame(s: Arena, t: int, i: int)
    requires Lists(s) && t in s.heads && s.heads[t].index == -1 && MINEXP <= i < MAXEXP
    ensures Listable(s, t, i)
    ensures Relisted(s, Insert(s, t, i), t, i)
  {
    assert FirstOk(s, i);
  }

  lemma InsertLists(s: Arena, t: int, i: int)
    requires Lists(s) && t in s.heads && s.heads[t].index == -1 && MINEXP <= i < MAXEXP
    ensures Listable(s, t, i) && Lists(Insert(s, t, i))
  {
    assert FirstOk(s, i);
    assert TagListed(s, t);
    var r := Insert(s, t, i);
    var f := s.first[i];
    forall j | 0 <= j < MAXEXP
      ensures FirstOk(r, j)
    {
      assert FirstOk(s, j);
    }
    forall u | u in r.heads
      ensures TagListed(r, u)
    {
      assert TagListed(s, u);
    }
  }

  // ---------------------------------------------------------------- split operations

  /** The tag, its region and its split neighbours are well linked. */
  ghost predicate Linked(s: Arena, x: int) {
    && x in s.heads && x in s.owner && TagLinked(s, x) && RegionOk(s, s.owner[x])
    && (s.heads[x].left != NULL ==> TagLinked(s, s.heads[x].left))
    && (s.heads[x].right != NULL ==> TagLinked(s, s.heads[x].right))
  }

  /** All tags are well linked; the quantified part of `Links` that speaks of tags. */
  ghost predicate AllLinked(s: Arena) {
    s.owner.Keys == s.heads.Keys && forall t :: t in s.heads ==> Linked(s, t)
  }

  lemma LinksGiveLinked(s: Arena)
    requires Links(s)
    ensures AllLinked(s)
  {
    forall t | t in s.heads
      ensures Linked(s, t)
    {
      assert TagLinked(s, t);
    }
  }

  lemma MeltLinked(s: Arena, t: int, u: int)
    requires Linked(s, t) && Linked(s, u) && s.heads[t].left != NULL && u != t
    requires s.owner.Keys == s.heads.Keys && NULL !in s.heads
    ensures Meltable(s, t) && TagLinked(MeltLeft(s, t), u)
  {
  }

  /** From `s` to `r` the tag `t` disappears and only its neighbours' spans change. */
  ghost predicate Melted(s: Arena, r: Arena, t: int) {
    && t in s.heads && r.heads.Keys == s.heads.Keys - {t} && r.owner == s.owner - {t}
    && r.regions == s.regions && r.complete == s.complete && r.first == s.first && r.rank == s.rank
    && (s.heads[t].left in r.heads ==>
          && r.heads[s.heads[t].left].right == s.heads[t].right
          && r.heads[s.heads[t].left].left == s.heads[s.heads[t].left].left)
    && (forall u :: u in r.heads ==>
          && r.heads[u].index == s.heads[u].index && r.heads[u].size == s.heads[u].size
          && r.heads[u].next == s.heads[u].next && r.heads[u].prev == s.heads[u].prev)
    && (forall u :: u in r.heads && u != s.heads[t].left ==>
          && s.heads[u].right != t
          && r.heads[u].realSize == s.heads[u].realSize && r.heads[u].right == s.heads[u].right
          && (r.heads[u].left == NULL <==> s.heads[u].left == NULL))
  }

  lemma MeltFrameAt(s: Arena, t: int, u: int)
    requires Linked(s, t) && s.heads[t].left != NULL && Linked(s, u) && u != t && NULL !in s.heads
    ensures Meltable(s, t)
    ensures var g, h := MeltLeft(s, t).heads[u], s.heads[u];
            && g.index == h.index && g.size == h.size && g.next == h.next && g.prev == h.prev
            && (u != s.heads[t].left ==>
                  && h.right != t && g.realSize == h.realSize && g.right == h.right
                  && (g.left == NULL <==> h.left == NULL))
            && (u == s.heads[t].left ==> g.right == s.heads[t].right && g.left == h.left)
  {
  }

  lemma MeltFrame(s: Arena, t: int)
    requires AllLinked(s) && NULL !in s.heads && t in s.heads && s.heads[t].left != NULL
    ensures Meltable(s, t) && Melted(s, MeltLeft(s, t), t)
  {
    assert Linked(s, t);
    forall u | u in s.heads && u != t
      ensures var g, h := MeltLeft(s, t).heads[u], s.heads[u];
              && g.index == h.index && g.size == h.size && g.next == h.next && g.prev == h.prev
              && (u != s.heads[t].left ==>
                    && h.right != t && g.realSize == h.realSize && g.right == h.right
                    && (g.left == NULL <==> h.left == NULL))
              && (u == s.heads[t].left ==> g.right == s.heads[t].right && g.left == h.left)
    {
      MeltFrameAt(s, t, u);
    }
  }

  lemma MeltSeparate(s: Arena, t: int)
    requires Linked(s, t) && s.heads[t].left != NULL && Separate(s.heads)
    ensures Meltable(s, t) && Separate(MeltLeft(s, t).heads)
  {
  }

  lemma MeltTags(s: Arena, t: int)
    requires AllLinked(s) && NULL !in s.heads && t in s.heads && s.heads[t].left != NULL
    ensures Meltable(s, t)
    ensures var r := MeltLeft(s, t);
            r.owner.Keys == r.heads.Keys && forall u :: u in r.heads ==> TagLinked(r, u)
  {
    assert Linked(s, t);
    var r := MeltLeft(s, t);
    forall u | u in r.heads
      ensures TagLinked(r, u)
    {
      assert Linked(s, u);
      MeltLinked(s, t, u);
    }
  }

  lemma MeltRegions(s: Arena, t: int)
    requires Links(s) && t in s.heads && s.heads[t].left != NULL && Meltable(s, t)
    ensures var r := MeltLeft(s, t); forall b :: b in r.regions ==> RegionOk(r, b)
  {
    assert TagLinked(s, t);
    var r := MeltLeft(s, t);
    forall b | b in r.regions
      ensures RegionOk(r, b)
    {
      assert RegionOk(s, b);
    }
  }

  lemma MeltLinks(s: Arena, t: int)
    requires Links(s) && NULL !in s.heads && t in s.heads && s.heads[t].left != NULL
    ensures Meltable(s, t) && Links(MeltLeft(s, t))
  {
    LinksGiveLinked(s);
    assert Linked(s, t);
    MeltTags(s, t);
    MeltSeparate(s, t);
    MeltRegions(s, t);
  }

  lemma CutPoint(s: Arena, t: int)
    requires Linked(s, t) && Separate(s.heads)
    requires 0 <= s.heads[t].size && s.heads[t].size + 2 * HEADER <= s.heads[t].realSize
    ensures SplitPoint(s, t) !in s.heads && SplitPoint(s, t) != NULL
  {
    var n := SplitPoint(s, t);
    assert t < n < t + s.heads[t].realSize;
  }

  lemma CutLinked(s: Arena, t: int, junk: Header, u: int)
    requires Linked(s, t) && NULL !in s.heads && s.owner.Keys == s.heads.Keys
    requires 0 <= s.heads[t].size && s.heads[t].size + 2 * HEADER <= s.heads[t].realSize
    requires SplitPoint(s, t) !in s.heads && SplitPoint(s, t) != NULL
    requires Linked(s, u)
    ensures Splittable(s, t) && TagLinked(Cut(s, t, junk), u)
  {
  }

  lemma CutLinkedNew(s: Arena, t: int, junk: Header)
    requires Linked(s, t) && NULL !in s.heads && s.owner.Keys == s.heads.Keys
    requires 0 <= s.heads[t].size && s.heads[t].size + 2 * HEADER <= s.heads[t].realSize
    requires SplitPoint(s, t) !in s.heads && SplitPoint(s, t) != NULL
    ensures Splittable(s, t) && TagLinked(Cut(s, t, junk), SplitPoint(s, t))
  {
  }

  lemma CutSpans(s: Arena, t: int, junk: Header)
    requires Splittable(s, t) && SplitPoint(s, t) !in s.heads && s.heads[t].right != t
    ensures var m := Cut(s, t, junk).heads;
            && m.Keys == s.heads.Keys + {SplitPoint(s, t)}
            && m[t].realSize == HEADER + s.heads[t].size
            && m[SplitPoint(s, t)].realSize == s.heads[t].realSize - HEADER - s.heads[t].size
            && forall u :: u in s.heads && u != t ==> m[u].realSize == s.heads[u].realSize
  {
  }

  lemma CutPair(s: Arena, m: map<int, Header>, t: int, n: int, x: int, y: int)
    requires Separate(s.heads) && t in s.heads && n == SplitPoint(s, t) && n !in s.heads
    requires m.Keys == s.heads.Keys + {n} && 0 <= s.heads[t].size
    requires HEADER <= s.heads[t].realSize - HEADER - s.heads[t].size
    requires m[t].realSize == HEADER + s.heads[t].size
    requires m[n].realSize == s.heads[t].realSize - HEADER - s.heads[t].size
    requires forall u :: u in s.heads && u != t ==> m[u].realSize == s.heads[u].realSize
    requires x in m && y in m && x < y
    ensures x + m[x].realSize <= y
  {
    var x0, y0 := if x == n then t else x, if y == n then t else y;
    if x0 < y0 {
      assert x0 + s.heads[x0].realSize <= y0;
    }
  }

  lemma CutSeparate(s: Arena, t: int, junk: Header)
    requires Linked(s, t) && Separate(s.heads)
    requires 0 <= s.heads[t].size && s.heads[t].size + 2 * HEADER <= s.heads[t].realSize
    ensures Splittable(s, t) && Separate(Cut(s, t, junk).heads)
  {
    CutPoint(s, t);
    var n, m := SplitPoint(s, t), Cut(s, t, junk).heads;
    CutSpans(s, t, junk);
    hide Cut;
    forall x, y | x in m && y in m && x < y
      ensures x + m[x].realSize <= y
    {
      CutPair(s, m, t, n, x, y);
    }
  }

  lemma CutKeys(s: Arena, t: int, junk: Header)
    requires Splittable(s, t) && s.owner.Keys == s.heads.Keys
    ensures Cut(s, t, junk).owner.Keys == Cut(s, t, junk).heads.Keys
  {
  }

  lemma CutTags(s: Arena, t: int, junk: Header)
    requires AllLinked(s) && Separate(s.heads) && NULL !in s.heads && t in s.heads
    requires 0 <= s.heads[t].size && s.heads[t].size + 2 * HEADER <= s.heads[t].realSize
    ensures Splittable(s, t)
    ensures var r := Cut(s, t, junk);
            r.owner.Keys == r.heads.Keys && forall u :: u in r.heads ==> TagLinked(r, u)
  {
    assert Linked(s, t);
    CutPoint(s, t);
    CutKeys(s, t, junk);
    hide Cut, TagLinked, Separate, SplitPoint;
    var r, n := Cut(s, t, junk), SplitPoint(s, t);
    forall u | u in r.heads
      ensures TagLinked(r, u)
    {
      if u == n {
        CutLinkedNew(s, t, junk);
      } else {
        CutLinked(s, t, junk, u);
      }
    }
  }

  lemma CutRegions(s: Arena, t: int, junk: Header)
    requires Links(s) && t in s.heads && Splittable(s, t)
    ensures var r := Cut(s, t, junk);
            SplitPoint(s, t) !in s.heads ==> forall b :: b in r.regions ==> RegionOk(r, b)
  {
    var r := Cut(s, t, junk);
    forall b | b in r.regions && SplitPoint(s, t) !in s.heads
      ensures RegionOk(r, b)
    {
      assert RegionOk(s, b);
    }
  }

  lemma CutLinks(s: Arena, t: int, junk: Header)
    requires Links(s) && NULL !in s.heads && t in s.heads
    requires 0 <= s.heads[t].size && s.heads[t].size + 2 * HEADER <= s.heads[t].realSize
    ensures Splittable(s, t) && Links(Cut(s, t, junk))
    ensures SplitPoint(s, t) !in s.heads && SplitPoint(s, t) != NULL
  {
    LinksGiveLinked(s);
    assert Linked(s, t);
    CutTags(s, t, junk);
    CutPoint(s, t);
    CutSeparate(s, t, junk);
    CutRegions(s, t, junk);
  }
}
