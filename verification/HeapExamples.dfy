/** Concrete runs that show where the allocator falls short of what one might expect. */
module HeapExamples {
  import opened Machine
  import opened Exponent
  import opened BoundaryTags
  import opened TagSteps
  import opened AllocatorSpec
  import opened FreeLists
  import opened LiveBlocks
  import opened TagEffects
  import opened Memory
  import HeapRuns
  import HeapTheorems
  import Allocator
  import Payloads

  /** The state after a first request of 2000 bytes, served by the page at 4096. */
  function OnePage(junk: Header): (s: Arena)
    ensures Inv(s)
  {
    HeapRuns.FirstCallLegal(2000, 4096, junk);
    HeapRuns.Step(HeapRuns.Empty(), HeapRuns.MallocOp(2000, 4096, junk))
  }

  lemma OnePageSettled(junk: Header)
    ensures var e := HeapRuns.Empty();
            && MayAnswer(e, 2000, 4096) && Candidate(e, 2000) == NULL && PagesFor(2000) == 1
            && Settle(e, 2000, 4096) == (Grant(e, 4096, 1, 2000), 4096)
            && OnePage(junk) == Trim(Grant(e, 4096, 1, 2000), 4096, junk)
  {
    hide Good, Trim, Split, FirstFit;
    HeapRuns.FirstCallLegal(2000, 4096, junk);
  }

  lemma BucketTen()
    ensures Bucket(2064) == 10
  {
    assert Pow2(10) == 1024 && Pow2(11) == 2048;
    Log2Unique(2032, 10);
  }

  /** Cutting the excess off a page with one block of 2000 bytes. */
  lemma CutPage(g: Arena, junk: Header)
    requires g.heads.Keys == {4096} && 4096 in g.owner && |g.first| == MAXEXP && g.first[10] == NULL
    requires g.heads[4096] == Header(MAGIC, 2000, 4096, -1, NULL, NULL, NULL, NULL) && g.regions == map[4096 := 1]
    ensures SplitPoint(g, 4096) == 6128 && Listable(Cut(g, 4096, junk), 6128, 10)
    ensures var s := Insert(Cut(g, 4096, junk), 6128, 10);
            && s.heads.Keys == {4096, 6128} && s.regions == map[4096 := 1]
            && s.heads[4096].index == -1 && s.heads[4096].left == NULL && s.heads[4096].right == 6128
            && s.heads[6128].index == 10 && s.heads[6128].realSize == 2064
  {
  }

  lemma TrimPage(g: Arena, junk: Header)
    requires Good(g, {4096}) && Roomy(g, 4096) && Alone(g, 4096) && 4096 in g.owner
    requires g.heads[4096] == Header(MAGIC, 2000, 4096, -1, NULL, NULL, NULL, NULL)
    requires Listable(Cut(g, 4096, junk), 6128, 10)
    ensures Trim(g, 4096, junk) == Insert(Cut(g, 4096, junk), 6128, 10)
  {
    hide Good, Roomy, Alone, Insert, Cut, Bucket, Splits;
    SplitsExactly(4096, 2000);
    BucketTen();
  }

  /** The page is cut into the block at 4096 and a free tag at 6128, listed in bucket 10. */
  lemma OnePageTags(junk: Header)
    ensures var s := OnePage(junk);
            && s.heads.Keys == {4096, 6128} && s.regions == map[4096 := 1]
            && s.heads[4096].index == -1 && s.heads[4096].left == NULL && s.heads[4096].right == 6128
            && s.heads[6128].index == 10 && s.heads[6128].realSize == 2064
  {
    hide Good, OnePage, Trim, Cut, Insert;
    OnePageSettled(junk);
    var g := Grant(HeapRuns.Empty(), 4096, 1, 2000);
    CutPage(g, junk);
    TrimPage(g, junk);
  }

  /** A listed tag with ample room is passed over because it is not in the bucket of the request. */
  lemma LargerTagIgnored(junk: Header, junk': Header)
    ensures var s := OnePage(junk);
            && 6128 in s.heads && s.heads[6128].index >= 0 && RoomIn(s.heads[6128], 100)
            && s.heads[6128].realSize - HEADER == 2032
            && Malloc(s, 100, NULL, junk').1 == NULL
  {
    hide Good, OnePage, Malloc;
    var s := OnePage(junk);
    OnePageTags(junk);
    MallocBlocks(s, 100, NULL, junk');
  }

  /** A request of the size class of that tag gets it, whatever the provider would answer. */
  lemma OwnClassServes(junk: Header, base: int, junk': Header)
    requires MayAnswer(OnePage(junk), 1100, base)
    ensures Malloc(OnePage(junk), 1100, base, junk').1 == 6160
  {
    hide Links, Lists, Buckets, Coalesced, Counts, Fits, OnePage, Malloc, SizeClass, Candidate;
    var s := OnePage(junk);
    OnePageTags(junk);
    ClassTen();
    assert !NoRoom(s, 1100);
    CandidateNull(s, 1100);
    CandidateFree(s, 1100);
    MallocBlocks(s, 1100, base, junk');
  }

  /** Freeing the block joins the page again, which is then cached and not given back. */
  lemma FreeCaches(junk: Header)
    ensures IsLive(OnePage(junk), 4128)
    ensures var (r, told) := Free(OnePage(junk), 4128);
            && told == Kept && r.heads.Keys == {4096} && r.heads[4096].realSize == 4096 && r.regions == map[4096 := 1]
            && |r.first| > 11 && r.first[11] == 4096
  {
    hide Good, OnePage, Free, SizeClass;
    var s := OnePage(junk);
    OnePageTags(junk);
    assert SpanStart(s, 4096) == 4096 && SpanEnd(s, 4096) == 8192 && Swallowed(s, 4096) == {6128};
    ClassEleven();
    assert WholeRegions(s, 11) == {};
    FreeTags(s, 4128, 11);
  }

  lemma ClassEleven()
    ensures SizeClass(11, 4064)
  {
    assert Pow2(11) == 2048 && Pow2(12) == 4096;
  }

  lemma ClassTen()
    ensures SizeClass(10, 1100)
  {
    assert Pow2(10) == 1024 && Pow2(11) == 2048;
  }

  lemma CandidateFree(s: Arena, size: nat)
    requires Lists(s) && size < MOD32 && Candidate(s, size) != NULL
    ensures Candidate(s, size) in s.heads && s.heads[Candidate(s, size)].index >= 0
  {
  }

  /** A block of 2000 bytes is lost when enlarging it fails, where the C standard would keep it. */
  method LostByRealloc(m: Memory) returns (heap: Allocator.Liballoc, p: int, q: int, ghost before: map<int, seq<Byte>>)
    ensures p in before && |before[p]| == 2000 && before.Keys == {p}
    ensures q == NULL && heap.Valid() && heap.View() == map[]
  {
    hide Good, OnePage, Payloads.Contents, Malloc, Realloc, NoRoom, Holds, SameOutside, ProviderMayReturn, PagesFor;
    heap := new Allocator.Liballoc(m);
    OnePageIs(Header(0, 0, 0, 0, 0, 0, 0, 0));
    Allocator.NothingOwned(m);
    ghost var junk;
    p, junk := heap.Malloc(2000, 4096);
    OnePageIs(junk);
    OnePageTags(junk);
    FiveThousandDoNotFit(heap.arena);
    before := heap.View();
    var told;
    q, told, junk := heap.Realloc(p, 5000, NULL);
    assert heap.View() == before - {p};
  }

  lemma FiveThousandDoNotFit(s: Arena)
    requires s.heads.Keys == {4096, 6128} && s.heads[4096].index == -1 && s.heads[6128].realSize == 2064
    ensures NoRoom(s, 5000)
  {
  }

  lemma OnePageIs(junk: Header)
    ensures MayAnswer(HeapRuns.Empty(), 2000, 4096)
    ensures Malloc(HeapRuns.Empty(), 2000, 4096, junk) == (OnePage(junk), 4096 + HEADER)
  {
    hide Good;
    HeapRuns.FirstCallLegal(2000, 4096, junk);
  }
}
