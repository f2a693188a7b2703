/** `malloc` and `free` as functions on the tag structure, and that they keep its invariants. */
module AllocatorSpec {
  import opened Machine
  import opened Exponent
  import opened BoundaryTags
  import opened TagInvariants
  import opened TagSteps

  // ---------------------------------------------------------------- sizes of a request

  /** The bucket `malloc` searches. */
  function SearchIndex(size: nat): (i: int)
    requires size < MOD32
    ensures MINEXP <= i < MAXEXP
  {
    ExpOfRange(size);
    if ExpOf(size) < MINEXP then MINEXP else ExpOf(size)
  }

  /** The page count `allocate_new_tag` asks for, with the 32-bit sum it starts from. */
  function PagesFor(size: nat): (pages: int)
    ensures pages >= 1
  {
    var usage := U32(size + HEADER);
    var pages := if usage % PAGE != 0 then usage / PAGE + 1 else usage / PAGE;
    if pages < 1 then 1 else pages
  }

  /** The pages asked for hold header and payload exactly when the 32-bit sum does not wrap. */
  lemma PagesForFits(size: nat)
    requires size < MOD32
    ensures size + HEADER <= PAGE * PagesFor(size) <==> size + HEADER < MOD32
    ensures size + HEADER < MOD32 ==> PAGE * (PagesFor(size) - 1) < size + HEADER
  {
  }

  /** A request whose sum wraps is given a single page. */
  lemma WrappedRequest(size: nat)
    requires size < MOD32 <= size + HEADER
    ensures PagesFor(size) == 1 && PAGE * PagesFor(size) < size
  {
    assert U32(size + HEADER) == size + HEADER - MOD32;
  }

  /** A free tag is taken when its payload has room for the request and another header. */
  predicate RoomIn(h: Header, size: nat) {
    U32(h.realSize - HEADER) >= U32(size + HEADER)
  }

  /** The split test of `malloc`, with its unsigned difference and signed comparison. */
  predicate Splits(realSize: int, size: int) {
    var remainder := U32(realSize - size - HEADER * 2);
    Signed32(remainder) > 0 && ExpOf(remainder) >= 0
  }

  lemma SplitsExactly(realSize: int, size: int)
    requires 0 <= size && -HEADER <= realSize - size - 2 * HEADER < HALF32
    ensures Splits(realSize, size) <==> realSize - size - 2 * HEADER >= 256
  {
    var d := realSize - size - 2 * HEADER;
    ExpOfRange(U32(d));
  }

  // ---------------------------------------------------------------- malloc

  /** The first tag from `t` on along its list that has room, or null. */
  function FirstFit(s: Arena, t: int, size: nat): (r: int)
    requires Lists(s) && (t != NULL ==> t in s.heads && s.heads[t].index >= 0)
    ensures r != NULL ==> r in s.heads && t != NULL && s.heads[r].index == s.heads[t].index && RoomIn(s.heads[r], size)
    decreases if t == NULL then 0 else s.rank[t] + 1
  {
    if t == NULL then NULL
    else
      assert TagListed(s, t);
      if RoomIn(s.heads[t], size) then t else FirstFit(s, s.heads[t].next, size)
  }

  /** The tag `malloc` reuses, or null when it needs a new region. */
  function Candidate(s: Arena, size: nat): (r: int)
    requires Lists(s) && size < MOD32
    ensures r != NULL ==>
      r in s.heads && s.heads[r].index == SearchIndex(size) && RoomIn(s.heads[r], size)
  {
    assert FirstOk(s, SearchIndex(size));
    FirstFit(s, s.first[SearchIndex(size)], size)
  }

  function SetSize(s: Arena, t: int, size: int): Arena
    requires t in s.heads
  {
    s.(heads := s.heads[t := s.heads[t].(size := size)])
  }

  lemma SetSizeGood(s: Arena, t: int, size: int)
    requires Good(s, {t}) && t in s.heads && Alone(s, t)
    ensures Good(SetSize(s, t, size), {t}) && Alone(SetSize(s, t, size), t)
  {
    var r := SetSize(s, t, size);
    SetSizeLinks(s, t, size);
    SetSizeBesides(s, t, size);
  }

  lemma SetSizeLinks(s: Arena, t: int, size: int)
    requires Links(s) && Lists(s) && t in s.heads
    ensures Links(SetSize(s, t, size)) && Lists(SetSize(s, t, size))
  {
    LinksFrame(s, SetSize(s, t, size));
    ListsFrame(s, SetSize(s, t, size));
  }

  lemma SetSizeBesides(s: Arena, t: int, size: int)
    requires Buckets(s, {t}) && Coalesced(s, {t}) && Counts(s, {t}) && Fits(s, {t}) && t in s.heads
    ensures var r := SetSize(s, t, size); Buckets(r, {t}) && Coalesced(r, {t}) && Counts(r, {t}) && Fits(r, {t})
  {
    CountsFrame(s, SetSize(s, t, size), {t}, {t});
  }

  /** The tag `malloc` settled on holds the request and has less than 2^31 bytes to spare. */
  ghost predicate Roomy(s: Arena, t: int) {
    && t in s.heads && s.heads[t].index == -1 && 0 <= s.heads[t].size
    && 0 <= s.heads[t].realSize - s.heads[t].size - HEADER < HALF32
  }

  /** The tail of `malloc`: split when the excess is worth a tag of its own. */
  function Trim(s: Arena, t: int, junk: Header): (r: Arena)
    requires Good(s, {t}) && Roomy(s, t) && Alone(s, t)
    ensures Inv(r)
  {
    SplitsExactly(s.heads[t].realSize, s.heads[t].size);
    if Splits(s.heads[t].realSize, s.heads[t].size) then
      SplitGood(s, t, junk);
      Split(s, t, junk)
    else
      CoolDown(s, t);
      s
  }

  ghost predicate MayAnswer(s: Arena, size: nat, base: int) {
    base == NULL || ProviderMayReturn(s, base, PagesFor(size))
  }

  /** The state just before the split test: a tag chosen or granted and its size set. */
  function Settle(s: Arena, size: nat, base: int): (r: (Arena, int))
    requires Inv(s) && size + HEADER < MOD32 && MayAnswer(s, size, base)
    requires Candidate(s, size) != NULL || base != NULL
    ensures Good(r.0, {r.1}) && Roomy(r.0, r.1) && Alone(r.0, r.1) && r.0.heads[r.1].size == size
    ensures HEADER < r.0.heads[r.1].realSize
  {
    var t := Candidate(s, size);
    if t == NULL then
      PagesForFits(size);
      GrantGood(s, base, PagesFor(size), size);
      (Grant(s, base, PagesFor(size), size), base)
    else
      SettleReused(s, size);
      (SetSize(Take(s, t), t, size), t)
  }

  lemma SettleReused(s: Arena, size: nat)
    requires Inv(s) && size + HEADER < MOD32 && Candidate(s, size) != NULL
    ensures var t := Candidate(s, size);
            && Removable(s, t)
            && var r := SetSize(Take(s, t), t, size);
               Good(r, {t}) && Roomy(r, t) && Alone(r, t) && HEADER < r.heads[t].realSize
  {
    var t := Candidate(s, size);
    TakeGood(s, t);
    SetSizeGood(Take(s, t), t, size);
    SpanBounded(s, t);
    SameBucketExcess(size, s.heads[t].realSize);
  }

  /** `malloc`: the new state and the pointer handed out, null when the provider refuses. */
  function Malloc(s: Arena, size: nat, base: int, junk: Header): (r: (Arena, int))
    requires Inv(s) && size + HEADER < MOD32 && MayAnswer(s, size, base)
    ensures Inv(r.0)
    ensures r.1 == NULL ==> r.0 == s && Candidate(s, size) == NULL && base == NULL
    ensures 0 <= r.1 < MOD32
  {
    if Candidate(s, size) == NULL && base == NULL then (s, NULL)
    else
      var (s1, t) := Settle(s, size, base);
      SpanBounded(s1, t);
      (Trim(s1, t, junk), t + HEADER)
  }

  // ---------------------------------------------------------------- free

  /** What `free` told the provider. */
  datatype Release = Kept | Returned(base: int, pages: int)

  predicate LeftFree(s: Arena, t: int)
    requires t in s.heads
  {
    s.heads[t].left in s.heads && s.heads[s.heads[t].left].index >= 0
  }

  predicate RightFree(s: Arena, t: int)
    requires t in s.heads
  {
    s.heads[t].right in s.heads && s.heads[s.heads[t].right].index >= 0
  }

  /** The tag being freed is off the lists and everything else is in order. */
  ghost predicate Loose(s: Arena, t: int) {
    Good(s, {t}) && t in s.heads && s.heads[t].index == -1
  }

  lemma JoinLeftGood(s: Arena, t: int)
    requires Loose(s, t) && LeftFree(s, t) && Coalesced(s, {})
    ensures var l := s.heads[t].left;
            && Meltable(s, t) && Removable(MeltLeft(s, t), l)
            && var r := Remove(MeltLeft(s, t), l);
               && Loose(r, l) && !LeftFree(r, l) && Lists(MeltLeft(s, t))
               && Melted(s, MeltLeft(s, t), t) && Relisted(MeltLeft(s, t), r, l, -1)
  {
    hide Links, Lists, Buckets, Coalesced, Counts, Fits, Remove, MeltLeft;
    var l := s.heads[t].left;
    LinkedAt(s, t);
    ListedAt(s, t);
    MeltGood(s, t, {t});
    var m := MeltLeft(s, t);
    assert {t} - {t} + {l} == {l};
    RemoveGood(m, l, {l});
    RemoveFrame(m, l);
    assert {l} + {l} == {l};
    JoinLeftOnce(s, m, Remove(m, l), t, l);
  }

  /** The left neighbour of a free left neighbour is in use, so the first merge loop runs once. */
  lemma JoinLeftOnce(s: Arena, m: Arena, r: Arena, t: int, l: int)
    requires Links(s) && Lists(s) && Coalesced(s, {}) && Melted(s, m, t) && Relisted(m, r, l, -1)
    requires l == s.heads[t].left && l in s.heads && s.heads[l].index >= 0
    ensures !LeftFree(r, l)
  {
    var k := s.heads[l].left;
    if k in s.heads {
      assert TagLinked(s, l) && TagLinked(s, k) && TagListed(s, k);
    }
  }

  function JoinLeft(s: Arena, t: int): (r: (Arena, int))
    requires Loose(s, t) && Coalesced(s, {})
    ensures Loose(r.0, r.1) && !LeftFree(r.0, r.1)
  {
    if LeftFree(s, t) then
      var l := s.heads[t].left;
      JoinLeftGood(s, t);
      (Remove(MeltLeft(s, t), l), l)
    else (s, t)
  }

  lemma JoinRightGood(s: Arena, t: int)
    requires Loose(s, t) && RightFree(s, t)
    ensures var x := s.heads[t].right;
            && Removable(s, x) && Meltable(Remove(s, x), x)
            && var r := MeltLeft(Remove(s, x), x);
               && Loose(r, t)
               && Relisted(s, Remove(s, x), x, -1) && Melted(Remove(s, x), r, x)
               && Remove(s, x).heads[x].left == t
  {
    hide Links, Lists, Buckets, Coalesced, Counts, Fits, Remove, MeltLeft;
    var x := s.heads[t].right;
    LinkedAt(s, t);
    ListedAt(s, t);
    assert s.heads[x].left == t;
    RemoveGood(s, x, {t});
    RemoveFrame(s, x);
    var m := Remove(s, x);
    MeltGood(m, x, {t} + {x});
    assert {t} + {x} - {x} + {t} == {t};
  }

  /** The right neighbour of a free right neighbour is in use, so the second merge loop runs once. */
  lemma JoinRightOnce(s: Arena, m: Arena, r: Arena, t: int, x: int)
    requires Links(s) && Lists(s) && Coalesced(s, {t}) && Relisted(s, m, x, -1) && Melted(m, r, x)
    requires t in r.heads && t in s.heads && x == s.heads[t].right && x in s.heads && s.heads[x].index >= 0
    requires m.heads[x].left == t && !LeftFree(s, t)
    ensures Alone(r, t)
  {
    assert TagLinked(s, t) && TagLinked(s, x);
    var k, y := s.heads[t].left, s.heads[x].right;
    if k in s.heads {
      assert TagListed(s, k) && TagLinked(s, k);
    }
    if y in s.heads {
      assert TagListed(s, y) && TagLinked(s, y);
    }
  }

  function JoinRight(s: Arena, t: int): (r: Arena)
    requires Loose(s, t) && !LeftFree(s, t)
    ensures Loose(r, t) && Alone(r, t)
  {
    if RightFree(s, t) then
      var x := s.heads[t].right;
      JoinRightGood(s, t);
      JoinRightOnce(s, Remove(s, x), MeltLeft(Remove(s, x), x), t, x);
      MeltLeft(Remove(s, x), x)
    else
      NoNeighbours(s, t);
      s
  }

  lemma NoNeighbours(s: Arena, t: int)
    requires Lists(s) && t in s.heads && !LeftFree(s, t) && !RightFree(s, t)
    ensures Alone(s, t)
  {
    var l, r := s.heads[t].left, s.heads[t].right;
    assert l in s.heads ==> TagListed(s, l);
    assert r in s.heads ==> TagListed(s, r);
  }

  /** The end of `free`: keep the merged tag, or give a surplus whole region back. */
  function Settled(s: Arena, t: int): (r: (Arena, Release))
    requires Loose(s, t) && Alone(s, t)
    ensures Inv(r.0)
  {
    GiveGood(s, t);
    var i := Bucket(s.heads[t].realSize);
    if Whole(s.heads[t]) && s.complete[i] == MAXCOMPLETE then
      ReturnGood(s, t);
      (Return(s, t), Returned(t, s.heads[t].realSize / PAGE))
    else
      (Give(s, t), Kept)
  }

  predicate IsLive(s: Arena, p: int) {
    p - HEADER in s.heads && s.heads[p - HEADER].index == -1
  }

  /** `free`: the new state and what was told to the provider. */
  function Free(s: Arena, p: int): (r: (Arena, Release))
    requires Inv(s) && (p == NULL || IsLive(s, p))
    ensures Inv(r.0)
  {
    if p == NULL then (s, Kept)
    else
      HeatUp(s, p - HEADER);
      var (s1, t1) := JoinLeft(s, p - HEADER);
      Settled(JoinRight(s1, t1), t1)
  }
}
