/** The free lists as sequences, and what the search of `malloc` finds in them. */
module FreeLists {
  import opened Machine
  import opened Exponent
  import opened BoundaryTags
  import opened TagInvariants
  import opened TagSteps
  import opened AllocatorSpec

  /** The tags met by following `next` from `t`. */
  ghost function ListFrom(s: Arena, t: int): (l: seq<int>)
    requires Lists(s) && (t != NULL ==> t in s.heads && s.heads[t].index >= 0)
    ensures l == [] <==> t == NULL
    ensures l != [] ==> l[0] == t
    decreases if t == NULL then 0 else (ListedAt(s, t); s.rank[t]) + 1
  {
    if t == NULL then []
    else
      ListedAt(s, t);
      [t] + ListFrom(s, s.heads[t].next)
  }

  /** `l` is a proper doubly linked list of free tags of index `i`, ending in null. */
  ghost predicate ProperList(s: Arena, i: int, l: seq<int>) {
    && (forall k :: 0 <= k < |l| ==> l[k] in s.heads && l[k] in s.rank && s.heads[l[k]].index == i)
    && (forall k :: 0 <= k < |l| - 1 ==> s.heads[l[k]].next == l[k + 1] && s.heads[l[k + 1]].prev == l[k])
    && (l != [] ==> s.heads[l[|l| - 1]].next == NULL)
    && (forall j, k :: 0 <= j < k < |l| ==> l[j] != l[k])
  }

  lemma {:induction false} ListFromProper(s: Arena, t: int)
    requires Lists(s) && (t != NULL ==> t in s.heads && s.heads[t].index >= 0)
    ensures t != NULL ==> ProperList(s, s.heads[t].index, ListFrom(s, t))
    ensures forall k :: 0 <= k < |ListFrom(s, t)| ==>
      ListFrom(s, t)[k] in s.rank && s.rank[ListFrom(s, t)[k]] <= s.rank[t]
    decreases if t == NULL then 0 else (ListedAt(s, t); s.rank[t]) + 1
  {
    if t != NULL {
      ListedAt(s, t);
      ListFromProper(s, s.heads[t].next);
      var l, rest := ListFrom(s, t), ListFrom(s, s.heads[t].next);
      assert l == [t] + rest;
    }
  }

  lemma RankBound(keys: set<int>, rank: map<int, nat>) returns (m: nat)
    ensures forall t :: t in keys && t in rank ==> rank[t] <= m
  {
    m := 0;
    if t: int :| t in keys {
      m := RankBound(keys - {t}, rank);
      if t in rank && m < rank[t] {
        m := rank[t];
      }
    }
  }

  lemma {:induction false} ListComplete(s: Arena, t: int, m: nat)
    requires Lists(s) && t in s.heads && s.heads[t].index >= 0
    requires forall u :: u in s.heads && u in s.rank ==> s.rank[u] <= m
    ensures FirstOk(s, s.heads[t].index) && t in ListFrom(s, s.first[s.heads[t].index])
    decreases m - (ListedAt(s, t); s.rank[t])
  {
    ListedAt(s, t);
    var i, q := s.heads[t].index, s.heads[t].prev;
    FirstAt(s, i);
    if q == NULL {
      assert ListFrom(s, t)[0] == t;
    } else {
      ListedAt(s, q);
      ListComplete(s, q, m);
      ListFromProper(s, s.first[i]);
      var l := ListFrom(s, s.first[i]);
      var k :| 0 <= k < |l| && l[k] == q;
      assert k + 1 < |l| ==> l[k + 1] == t;
    }
  }

  /** Each bucket is an acyclic, null-terminated doubly linked list of exactly the tags of its index. */
  lemma BucketLists(s: Arena, i: int)
    requires Inv(s) && 0 <= i < MAXEXP
    ensures FirstOk(s, i)
    ensures var l := ListFrom(s, s.first[i]);
            && ProperList(s, i, l)
            && (forall t :: t in l <==> t in s.heads && s.heads[t].index == i)
            && (forall t :: t in l ==> HEADER <= s.heads[t].realSize < MOD32 && i == Bucket(s.heads[t].realSize))
  {
    FirstAt(s, i);
    var l := ListFrom(s, s.first[i]);
    ListFromProper(s, s.first[i]);
    var m := RankBound(s.heads.Keys, s.rank);
    forall t | t in s.heads && s.heads[t].index == i
      ensures t in l
    {
      ListComplete(s, t, m);
    }
  }

  /** The bucket of a free tag is the exponent of its payload, and never below the smallest one. */
  lemma BucketMeaning(s: Arena, t: int)
    requires Inv(s) && t in s.heads && s.heads[t].index >= 0
    ensures var z, i := s.heads[t].realSize - HEADER, s.heads[t].index;
            if z < 256 then i == MINEXP else MINEXP <= i && Pow2(i) <= z < Pow2(i + 1)
  {
    SpanBounded(s, t);
    ExpOfRange(s.heads[t].realSize - HEADER);
  }

  // ---------------------------------------------------------------- the list operations on sequences

  /** Links that are the same along a list give the same list. */
  lemma {:induction false} SameList(s: Arena, r: Arena, u: int)
    requires Lists(s) && Lists(r) && (u != NULL ==> u in s.heads && s.heads[u].index >= 0)
    requires forall v :: v in ListFrom(s, u) ==>
      v in r.heads && r.heads[v].index >= 0 && v in s.heads && r.heads[v].next == s.heads[v].next
    ensures u != NULL ==> u in r.heads && r.heads[u].index >= 0
    ensures ListFrom(r, u) == ListFrom(s, u)
    decreases if u == NULL then 0 else (ListedAt(s, u); s.rank[u]) + 1
  {
    hide Lists;
    if u != NULL {
      ListedAt(s, u);
      assert ListFrom(s, u) == [u] + ListFrom(s, s.heads[u].next);
      assert u in ListFrom(s, u);
      ListedAt(r, u);
      SameList(s, r, s.heads[u].next);
    }
  }

  /** `insert_tag` puts the tag in front of its list and leaves the others alone. */
  lemma InsertPrepends(s: Arena, t: int, i: int, j: int)
    requires Lists(s) && t in s.heads && s.heads[t].index == -1 && MINEXP <= i < MAXEXP && 0 <= j < MAXEXP
    ensures Listable(s, t, i) && Lists(Insert(s, t, i)) && FirstOk(s, j) && FirstOk(Insert(s, t, i), j)
    ensures ListFrom(Insert(s, t, i), Insert(s, t, i).first[j])
            == (if j == i then [t] else []) + ListFrom(s, s.first[j])
  {
    hide Lists, Insert, ListFrom;
    InsertLists(s, t, i);
    var r := Insert(s, t, i);
    FirstAt(s, j);
    FirstAt(r, j);
    ListFromProper(s, s.first[j]);
    InsertNext(s, t, i);
    SameList(s, r, s.first[j]);
    if j == i {
      ListStep(r, t);
    }
  }

  lemma ListStep(s: Arena, t: int)
    requires Lists(s) && t in s.heads && s.heads[t].index >= 0
    ensures var x := s.heads[t].next;
            (x != NULL ==> x in s.heads && s.heads[x].index >= 0) && ListFrom(s, t) == [t] + ListFrom(s, x)
  {
    hide Lists;
    ListedAt(s, t);
  }

  lemma InsertNext(s: Arena, t: int, i: int)
    requires Lists(s) && t in s.heads && s.heads[t].index == -1 && MINEXP <= i < MAXEXP
    ensures Listable(s, t, i)
    ensures var r := Insert(s, t, i);
            && r.heads.Keys == s.heads.Keys && r.first == s.first[i := t]
            && r.heads[t].next == s.first[i] && r.heads[t].index == i
            && forall v :: v in s.heads && v != t ==>
                 r.heads[v].next == s.heads[v].next && r.heads[v].index == s.heads[v].index
  {
    hide Lists;
    FirstAt(s, i);
    ListedAt(s, t);
  }

  lemma RemoveNext(s: Arena, t: int)
    requires Lists(s) && t in s.heads && s.heads[t].index >= 0
    ensures Removable(s, t)
    ensures var r := Remove(s, t);
            && r.heads.Keys == s.heads.Keys && r.heads[t].index == -1
            && (forall j :: 0 <= j < MAXEXP ==>
                  r.first[j] == if s.first[j] == t then s.heads[t].next else s.first[j])
            && forall v :: v in s.heads && v != t ==>
                 && r.heads[v].index == s.heads[v].index
                 && r.heads[v].next == if s.heads[v].next == t then s.heads[t].next else s.heads[v].next
  {
    hide Lists;
    ListedAt(s, t);
    forall j | 0 <= j < MAXEXP
      ensures s.first[j] == t ==> j == s.heads[t].index
    {
      FirstAt(s, j);
    }
    forall v | v in s.heads && v != t && s.heads[v].next == t
      ensures v == s.heads[t].prev
    {
      ListedAt(s, v);
    }
  }

  /** The list without its element `t`. */
  ghost function Without(l: seq<int>, t: int): seq<int> {
    if l == [] then [] else if l[0] == t then l[1..] else [l[0]] + Without(l[1..], t)
  }

  /** No tag behind `t` in its list is `t` or leads to it. */
  lemma BehindRemoved(s: Arena, t: int)
    requires Lists(s) && t in s.heads && s.heads[t].index >= 0
    ensures s.heads[t].next != NULL ==> s.heads[t].next in s.heads && s.heads[s.heads[t].next].index >= 0
    ensures forall v :: v in ListFrom(s, s.heads[t].next) ==>
      v in s.heads && s.heads[v].index >= 0 && v != t && s.heads[v].next != t
  {
    hide Lists, ListFrom;
    ListedAt(s, t);
    var x := s.heads[t].next;
    ListFromProper(s, x);
    forall v | v in ListFrom(s, x)
      ensures v in s.heads && s.heads[v].index >= 0 && v != t && s.heads[v].next != t
    {
      ListedAt(s, x);
      ListedAt(s, v);
    }
  }

  /** Following the links from `u` on, once `t` has been taken out. */
  lemma {:induction false} RemoveFrom(s: Arena, r: Arena, t: int, u: int)
    requires Lists(s) && Lists(r) && t in s.heads && s.heads[t].index >= 0 && r.heads.Keys == s.heads.Keys
    requires forall v :: v in s.heads && v != t ==>
      && r.heads[v].index == s.heads[v].index
      && r.heads[v].next == if s.heads[v].next == t then s.heads[t].next else s.heads[v].next
    requires u != NULL ==> u in s.heads && s.heads[u].index >= 0
    ensures var x := if u == t then s.heads[t].next else u;
            && (x != NULL ==> x in r.heads && r.heads[x].index >= 0)
            && ListFrom(r, x) == Without(ListFrom(s, u), t)
    decreases if u == NULL then 0 else (ListedAt(s, u); s.rank[u]) + 1
  {
    hide Lists, ListFrom;
    ListedAt(s, t);
    if u == NULL {
      assert ListFrom(s, u) == [] && ListFrom(r, u) == [];
    } else {
      ListStep(s, u);
      var x := s.heads[u].next;
      assert ListFrom(s, u)[1..] == ListFrom(s, x);
      if u == t {
        BehindRemoved(s, t);
        SameList(s, r, x);
      } else {
        ListedAt(s, u);
        RemoveFrom(s, r, t, x);
        ListStep(r, u);
      }
    }
  }

  /** `remove_tag` takes the tag out of its list, keeps the order and leaves the other lists alone. */
  lemma RemoveDeletes(s: Arena, t: int, j: int)
    requires Lists(s) && t in s.heads && s.heads[t].index >= 0 && 0 <= j < MAXEXP
    ensures Removable(s, t) && Lists(Remove(s, t)) && FirstOk(s, j) && FirstOk(Remove(s, t), j)
    ensures ListFrom(Remove(s, t), Remove(s, t).first[j]) == Without(ListFrom(s, s.first[j]), t)
  {
    hide Lists, Remove, ListFrom;
    RemoveLists(s, t);
    FirstAt(s, j);
    FirstAt(Remove(s, t), j);
    RemoveNext(s, t);
    RemoveFrom(s, Remove(s, t), t, s.first[j]);
  }

  // ---------------------------------------------------------------- the search

  /** No tag in the size class of the request has room for it and another header. */
  ghost predicate NoRoom(s: Arena, size: nat) {
    forall t :: t in s.heads && SizeClass(s.heads[t].index, size) ==> s.heads[t].realSize - 32 < size + 32
  }

  /** `r` is the first tag of the list with at least this many bytes. */
  ghost predicate FirstOfSize(s: Arena, l: seq<int>, r: int, bytes: int) {
    exists k :: 0 <= k < |l| && l[k] == r && r in s.heads && s.heads[r].realSize >= bytes
      && forall j :: 0 <= j < k ==> l[j] in s.heads && s.heads[l[j]].realSize < bytes
  }

  /** `r` is the first tag of the list that passes the test. */
  ghost predicate FirstWithRoom(s: Arena, l: seq<int>, r: int, size: nat) {
    exists k :: 0 <= k < |l| && l[k] == r && r in s.heads && RoomIn(s.heads[r], size)
      && forall j :: 0 <= j < k ==> l[j] in s.heads && !RoomIn(s.heads[l[j]], size)
  }

  ghost predicate NoneWithRoom(s: Arena, l: seq<int>, size: nat) {
    forall k :: 0 <= k < |l| ==> l[k] in s.heads && !RoomIn(s.heads[l[k]], size)
  }

  /** The search loop returns the first tag with room, and null only when there is none. */
  lemma {:induction false} FirstFitIsFirst(s: Arena, t: int, size: nat)
    requires Lists(s) && (t != NULL ==> t in s.heads && s.heads[t].index >= 0)
    ensures var r, l := FirstFit(s, t, size), ListFrom(s, t);
            if r == NULL then NoneWithRoom(s, l, size) else FirstWithRoom(s, l, r, size)
    decreases if t == NULL then 0 else (ListedAt(s, t); s.rank[t]) + 1
  {
    if t != NULL {
      ListedAt(s, t);
      var x, l := s.heads[t].next, ListFrom(s, t);
      if RoomIn(s.heads[t], size) {
        assert l[0] == t;
      } else {
        FirstFitIsFirst(s, x, size);
        var rest, r := ListFrom(s, x), FirstFit(s, x, size);
        assert l == [t] + rest;
        if r != NULL {
          var k :| 0 <= k < |rest| && rest[k] == r && r in s.heads && RoomIn(s.heads[r], size)
            && forall j :: 0 <= j < k ==> rest[j] in s.heads && !RoomIn(s.heads[rest[j]], size);
          assert l[k + 1] == r;
        }
      }
    }
  }

  /** Without wrap the test of the loop compares the payload of the tag with request and header. */
  lemma RoomMeans(s: Arena, t: int, size: nat)
    requires Links(s) && t in s.heads && size + HEADER < MOD32
    ensures RoomIn(s.heads[t], size) <==> s.heads[t].realSize - HEADER >= size + HEADER
  {
    hide Links;
    SpanBounded(s, t);
  }

  /**
   The search comes back empty exactly when no tag in the size class of the request has room, and
   otherwise with the first tag of the list of that class that has.
   */
  lemma CandidateExact(s: Arena, size: nat, i: int)
    requires Inv(s) && size + HEADER < MOD32 && SizeClass(i, size)
    ensures Candidate(s, size) == NULL <==> NoRoom(s, size)
    ensures 0 <= i < MAXEXP && FirstOk(s, i)
    ensures Candidate(s, size) != NULL ==>
      FirstOfSize(s, ListFrom(s, s.first[i]), Candidate(s, size), size + 64)
  {
    hide Links, Lists, Buckets, Coalesced, Counts, Fits, ListFrom, FirstFit, RoomIn, ProperList, SizeClass, ExpOf;
    ClassExactly(size, i);
    assert i == SearchIndex(size);
    FirstAt(s, i);
    BucketLists(s, i);
    FirstFitIsFirst(s, s.first[i], size);
    var r, l := Candidate(s, size), ListFrom(s, s.first[i]);
    forall t | t in s.heads
      ensures RoomIn(s.heads[t], size) <==> s.heads[t].realSize - HEADER >= size + HEADER
    {
      RoomMeans(s, t, size);
    }
    forall t | t in s.heads
      ensures SizeClass(s.heads[t].index, size) <==> t in l
    {
      ClassExactly(size, s.heads[t].index);
    }
    if r == NULL {
      assert NoRoom(s, size);
    } else {
      FirstSized(s, l, r, size);
      assert r in l;
    }
  }

  lemma CandidateNull(s: Arena, size: nat)
    requires Inv(s) && size + HEADER < MOD32
    ensures Candidate(s, size) == NULL <==> NoRoom(s, size)
  {
    hide Good, Candidate, NoRoom;
    ClassExactly(size, SearchIndex(size));
    CandidateExact(s, size, SearchIndex(size));
  }

  lemma FirstSized(s: Arena, l: seq<int>, r: int, size: nat)
    requires FirstWithRoom(s, l, r, size)
    requires forall t :: t in s.heads ==> (RoomIn(s.heads[t], size) <==> s.heads[t].realSize - HEADER >= size + HEADER)
    ensures r in l && FirstOfSize(s, l, r, size + 64)
  {
    hide RoomIn;
    var k :| 0 <= k < |l| && l[k] == r && r in s.heads && RoomIn(s.heads[r], size)
      && forall j :: 0 <= j < k ==> l[j] in s.heads && !RoomIn(s.heads[l[j]], size);
  }

  // ---------------------------------------------------------------- requests whose sum wraps

  /** With a wrapped sum every tag is too small, and the test accepts one of any but the smallest sizes. */
  lemma WrappedSearch(s: Arena, t: int, size: nat)
    requires Links(s) && t in s.heads && size < MOD32 <= size + HEADER
    ensures s.heads[t].realSize - HEADER < size
    ensures RoomIn(s.heads[t], size) <==> s.heads[t].realSize - HEADER >= size + HEADER - MOD32
  {
    hide Links;
    SpanBounded(s, t);
    assert U32(size + HEADER) == size + HEADER - MOD32;
  }

  /** In the page granted for a wrapped sum the split puts a new header on top of the tag's own. */
  lemma WrappedSplit(base: int, size: nat)
    requires 0 < base && base + PAGE <= MOD32 && size < MOD32 <= size + HEADER
    ensures Splits(PAGE, size)
    ensures base <= U32(base + HEADER + size) < base + HEADER
  {
    var d := PAGE - size - 2 * HEADER + MOD32;
    assert U32(PAGE - size - HEADER * 2) == d;
    ExpOfRange(d);
    assert U32(base + HEADER + size) == base + HEADER + size - MOD32;
  }

  /** The size of the tag `malloc` settles on, before any split. */
  function SettledSize(s: Arena, size: nat): int
    requires Lists(s) && size < MOD32
  {
    if Candidate(s, size) != NULL then s.heads[Candidate(s, size)].realSize else U32(PagesFor(size) * PAGE)
  }

  /** The tag settled on holds header and request if and only if their sum does not wrap. */
  lemma SettledHolds(s: Arena, size: nat, base: int)
    requires Inv(s) && size < MOD32 && MayAnswer(s, size, base) && (Candidate(s, size) != NULL || base != NULL)
    ensures HEADER + size <= SettledSize(s, size) <==> size + HEADER < MOD32
  {
    hide Links, Lists, Buckets, Coalesced, Counts, Fits;
    var t := Candidate(s, size);
    PagesForFits(size);
    if t != NULL {
      if size + HEADER < MOD32 {
        RoomMeans(s, t, size);
      } else {
        WrappedSearch(s, t, size);
      }
    }
  }
}
