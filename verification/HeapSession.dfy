/**
 Whole runs on the allocator object: callers that allocate, free, resize and store bytes, and the
 page provider, each keeping their own books.
 */
module HeapSession {
  import opened Machine
  import opened Options
  import opened Exponent
  import opened BoundaryTags
  import opened TagInvariants
  import opened TagSteps
  import opened AllocatorSpec
  import opened FreeLists
  import opened LiveBlocks
  import opened Memory
  import opened Payloads
  import Allocator
  import HeapTheorems
  import HeapRuns

  /** `base` is the provider's answer should the allocator ask for pages. */
  datatype Request =
    | MallocRequest(size: nat, base: int)
    | FreeRequest(p: int)
    | ReallocRequest(p: int, size: nat, base: int)
    | StoreRequest(p: int, i: nat, b: Byte)

  /** `told` is what the provider heard, `bytes` what a block holds when it is handed out. */
  datatype Answer =
    | Skipped
    | Done
    | Refused
    | Got(p: int, bytes: seq<Byte>)
    | Gave(told: Release)
    | Moved(q: int, bytes: seq<Byte>, told: Release)
    | Lost(told: Release)

  /** The books: pointer to bytes for the callers, region to page count for the provider. */
  datatype Ledger = Ledger(owned: map<int, seq<Byte>>, granted: map<int, int>)

  // ---------------------------------------------------------------- what may be asked

  /** The provider refuses, or names pages that keep clear of all it has granted. */
  predicate Available(granted: map<int, int>, size: nat, base: int) {
    || base == NULL
    || (&& 0 < base && base + PAGE * PagesFor(size) <= MOD32
        && forall b :: b in granted ==> b + PAGE * granted[b] <= base || base + PAGE * PagesFor(size) <= b)
  }

  /** The demands on callers: sums that do not wrap, and only blocks that are held. */
  predicate Permitted(held: map<int, nat>, granted: map<int, int>, r: Request) {
    match r
    case MallocRequest(size, base) => size + HEADER < MOD32 && Available(granted, size, base)
    case FreeRequest(p) => p == NULL || p in held
    case ReallocRequest(p, size, base) =>
      && (p == NULL || p in held) && size + HEADER < MOD32 && Available(granted, size, base)
      && (p != NULL && base == NULL ==> forall b :: b in granted ==> held[p] <= b || size <= b)
    case StoreRequest(p, i, _) => p in held && i < held[p]
  }

  // ---------------------------------------------------------------- the reference ledger

  ghost function Sizes(owned: map<int, seq<Byte>>): map<int, nat> {
    map p | p in owned :: |owned[p]|
  }

  /** Blocks are apart from each other, and each lies in a granted region. */
  ghost predicate Sane(l: Ledger) {
    && (forall p, q :: p in l.owned && q in l.owned && p < q ==> p + |l.owned[p]| <= q)
    && (forall p :: p in l.owned ==> exists b :: b in l.granted && b < p && p + |l.owned[p]| <= b + PAGE * l.granted[b])
  }

  /** The provider's books after a request answered by the block at `p`. */
  ghost function Grants(granted: map<int, int>, size: nat, base: int, p: int): map<int, int> {
    if base != NULL && p == base + HEADER then granted[base := PagesFor(size)] else granted
  }

  /** A return must name a granted region with its page count. */
  ghost function TakeBack(l: Ledger, told: Release): Option<Ledger> {
    match told
    case Kept => Some(l)
    case Returned(b, pages) =>
      if b in l.granted && l.granted[b] == pages then Some(l.(granted := l.granted - {b})) else None
  }

  ghost function Receive(l: Ledger, size: nat, base: int, a: Answer): Option<Ledger> {
    match a
    case Got(p, bytes) =>
      if p == NULL || p in l.owned || |bytes| != size then None
      else Some(Ledger(l.owned[p := bytes], Grants(l.granted, size, base, p)))
    case Refused => if base == NULL then Some(l) else None
    case _ => None
  }

  /** The ledger after `r` was answered by `a`, or nothing when that answer is wrong. */
  ghost function Entered(l: Ledger, r: Request, a: Answer): Option<Ledger> {
    match r
    case MallocRequest(size, base) => Receive(l, size, base, a)
    case FreeRequest(p) => Surrender(l, p, a)
    case ReallocRequest(p, size, base) =>
      if size == 0 then Surrender(l, p, a)
      else if p == NULL then Receive(l, size, base, a)
      else Resize(l, p, size, base, a)
    case StoreRequest(p, i, b) =>
      if a == Done && p in l.owned && i < |l.owned[p]|
      then Some(l.(owned := l.owned[p := Allocator.Overwrite(l.owned[p], i, b)]))
      else None
  }

  ghost function Surrender(l: Ledger, p: int, a: Answer): Option<Ledger> {
    match a
    case Done => if p == NULL then Some(l) else None
    case Gave(told) => if p in l.owned then TakeBack(l.(owned := l.owned - {p}), told) else None
    case _ => None
  }

  /** A resized block keeps its first bytes; without a new block the old one is gone. */
  ghost function Resize(l: Ledger, p: int, size: nat, base: int, a: Answer): Option<Ledger>
    requires p != NULL
  {
    if p !in l.owned then None
    else match a
      case Moved(q, bytes, told) =>
        if q == NULL || q in l.owned || |bytes| != size then None
        else if exists i :: 0 <= i < |l.owned[p]| && i < size && bytes[i] != l.owned[p][i] then None
        else TakeBack(Ledger((l.owned - {p})[q := bytes], Grants(l.granted, size, base, q)), told)
      case Lost(told) => if base == NULL then TakeBack(l.(owned := l.owned - {p}), told) else None
      case _ => None
  }

  /** A request is skipped exactly when it is not permitted; every entry leaves the ledger sane. */
  ghost function Post(l: Ledger, r: Request, a: Answer): Option<Ledger> {
    if !Permitted(Sizes(l.owned), l.granted, r) then (if a == Skipped then Some(l) else None)
    else match Entered(l, r, a)
      case None => None
      case Some(k) => if Sane(k) then Some(k) else None
  }

  ghost function Replay(l: Ledger, requests: seq<Request>, answers: seq<Answer>): Option<Ledger>
    requires |requests| == |answers|
  {
    if requests == [] then Some(l)
    else match Replay(l, requests[..|requests| - 1], answers[..|answers| - 1])
      case None => None
      case Some(k) => Post(k, requests[|requests| - 1], answers[|answers| - 1])
  }

  lemma ReplayStep(l: Ledger, requests: seq<Request>, k: nat, answers: seq<Answer>, books: Ledger, a: Answer)
    requires k < |requests| && |answers| == k && Replay(l, requests[..k], answers) == Some(books)
    ensures Replay(l, requests[..k + 1], answers + [a]) == Post(books, requests[k], a)
  {
    hide Post;
    assert (answers + [a])[..k] == answers && requests[..k + 1][..k] == requests[..k];
  }

  // ---------------------------------------------------------------- the allocator keeps the books

  ghost function BooksOf(s: Arena, m: Memory): Ledger {
    Ledger(Contents(s, m), s.regions)
  }

  lemma BlockInRegion(s: Arena, m: Memory, p: int)
    requires Inv(s) && p in Contents(s, m)
    ensures 0 <= p && p + |Contents(s, m)[p]| <= MOD32 && IsLive(s, p)
    ensures |Contents(s, m)[p]| == s.heads[p - HEADER].size
    ensures exists b :: b in s.regions && b < p && p + |Contents(s, m)[p]| <= b + PAGE * s.regions[b]
  {
    hide Links, Lists, Buckets, Coalesced, Counts, Fits, Blocks;
    BlockAt(s, p);
    HeapTheorems.PayloadsApart(s, p);
    LinkedAt(s, p - HEADER);
    assert s.owner[p - HEADER] in s.regions;
  }

  lemma BooksSane(s: Arena, m: Memory)
    requires Inv(s)
    ensures Sane(BooksOf(s, m))
  {
    hide Good, Contents;
    var c := Contents(s, m);
    forall p | p in c
      ensures IsLive(s, p) && |c[p]| == s.heads[p - HEADER].size
      ensures exists b :: b in s.regions && b < p && p + |c[p]| <= b + PAGE * s.regions[b]
    {
      BlockInRegion(s, m, p);
    }
    forall p, q | p in c && q in c && p < q
      ensures p + |c[p]| <= q
    {
      HeapTheorems.PayloadsApart(s, p);
      assert s.heads[q - HEADER].index == -1;
      HeapTheorems.PayloadsApart(s, q);
    }
  }

  lemma AvailableMeans(s: Arena, size: nat, base: int)
    requires Available(s.regions, size, base)
    ensures MayAnswer(s, size, base)
  {
  }

  /** Tags lie in granted regions, so none is below the lowest of them. */
  lemma PermittedRealloc(held: map<int, nat>, s: Arena, p: int, size: nat, base: int)
    requires Links(s) && Permitted(held, s.regions, ReallocRequest(p, size, base))
    ensures (p == NULL || p in held) && size + HEADER < MOD32 && MayAnswer(s, size, base)
    ensures p != NULL && base == NULL ==> Allocator.NoTagBelow(s, held[p], size)
  {
    AvailableMeans(s, size, base);
    if p == NULL || base != NULL {
      return;
    }
    forall t | t in s.heads
      ensures held[p] <= t || size <= t
    {
      LinkedAt(s, t);
    }
  }

  /** Pages were granted exactly when the block handed out starts behind the header of a new region. */
  lemma MallocGrants(s: Arena, size: nat, base: int, junk: Header)
    requires Inv(s) && size + HEADER < MOD32 && MayAnswer(s, size, base)
    requires Malloc(s, size, base, junk).1 != NULL
    ensures var (r, p) := Malloc(s, size, base, junk); r.regions == Grants(s.regions, size, base, p)
  {
    hide Links, Lists, Buckets, Coalesced, Counts, Fits, Malloc, ProviderMayReturn, PagesFor, Blocks;
    HeapTheorems.MallocRegions(s, size, base, junk);
    MallocBlocks(s, size, base, junk);
    CandidateNull(s, size);
    if base != NULL && Candidate(s, size) != NULL {
      FirstAt(s, MINEXP);
      GrantFresh(s, base, PagesFor(size));
    }
  }

  lemma FreeTakesBack(s: Arena, p: int, owned: map<int, seq<Byte>>)
    requires Inv(s) && (p == NULL || IsLive(s, p))
    ensures var (r, told) := Free(s, p);
            && (p == NULL ==> told == Kept)
            && TakeBack(Ledger(owned, s.regions), told) == Some(Ledger(owned, r.regions))
  {
    hide Good;
    HeapTheorems.FreeRegions(s, p);
  }

  lemma SizeIn(owned: map<int, seq<Byte>>, p: int)
    ensures p in owned <==> p in Sizes(owned)
    ensures p in owned ==> Sizes(owned)[p] == |owned[p]|
  {
  }

  lemma SizesAdd(owned: map<int, seq<Byte>>, p: int, bytes: seq<Byte>)
    ensures Sizes(owned[p := bytes]) == Sizes(owned)[p := |bytes|]
  {
  }

  lemma SizesDrop(owned: map<int, seq<Byte>>, p: int)
    ensures Sizes(owned - {p}) == Sizes(owned) - {p}
  {
  }

  /** The provider's side of `realloc`: pages granted first, pages returned after. */
  lemma ReallocTakesBack(s: Arena, p: int, size: nat, base: int, junk: Header, owned: map<int, seq<Byte>>)
    requires Inv(s) && (p == NULL || IsLive(s, p)) && size + HEADER < MOD32 && MayAnswer(s, size, base)
    ensures var (r, q, told) := Realloc(s, p, size, base, junk);
            && (p == NULL ==> told == Kept)
            && TakeBack(Ledger(owned, if q == NULL then s.regions else Grants(s.regions, size, base, q)), told)
               == Some(Ledger(owned, r.regions))
  {
    hide Good, Malloc, Free, Blocks, Grants, ProviderMayReturn, NoRoom, PagesFor;
    if size == 0 {
      FreeTakesBack(s, p, owned);
    } else {
      var (s1, q) := Malloc(s, size, base, junk);
      MallocBlocks(s, size, base, junk);
      if q != NULL {
        MallocGrants(s, size, base, junk);
      }
      if p != NULL {
        MallocKeepsLive(s, size, base, junk, p);
        FreeTakesBack(s1, p, owned);
      }
    }
  }

  /** What a call of `realloc` comes to, from the bytes owned before and after. */
  ghost function ReallocAnswer(before: map<int, seq<Byte>>, after: map<int, seq<Byte>>,
                               p: int, size: nat, q: int, told: Release): Answer {
    if size == 0 then (if p == NULL then Done else Gave(told))
    else if q == NULL then (if p == NULL then Refused else Lost(told))
    else if q !in after || |after[q]| != size then Skipped
    else if p !in before then Got(q, after[q])
    else Moved(q, after[q], told)
  }

  /** The callers' side of `realloc`. */
  lemma ReallocEntered(l: Ledger, k: Ledger, p: int, size: nat, base: int, q: int, told: Release)
    requires NULL !in l.owned && (p == NULL || p in l.owned)
    requires q == NULL ==> k.owned == l.owned - {p} && (size != 0 ==> base == NULL)
    requires q != NULL ==> size != 0 && Allocator.Moved(l.owned, k.owned, p, q, size)
    requires p == NULL ==> told == Kept
    requires var granted := if q == NULL then l.granted else Grants(l.granted, size, base, q);
             TakeBack(Ledger(k.owned, granted), told) == Some(k)
    ensures Entered(l, ReallocRequest(p, size, base), ReallocAnswer(l.owned, k.owned, p, size, q, told)) == Some(k)
  {
    if p == NULL {
      assert l.owned - {p} == l.owned;
    }
  }

  lemma ReallocSizes(before: map<int, seq<Byte>>, after: map<int, seq<Byte>>, p: int, q: int, size: nat)
    requires if q == NULL then after == before - {p} else Allocator.Moved(before, after, p, q, size)
    ensures Sizes(after) == if q == NULL then Sizes(before) - {p} else (Sizes(before) - {p})[q := size]
  {
    hide Sizes;
    SizesDrop(before, p);
    if q != NULL {
      SizesAdd(before - {p}, q, after[q]);
    }
  }

  class Session {
    const heap: Allocator.Liballoc
    /** The callers' own record: pointer to requested size. */
    var held: map<int, nat>
    /** The provider's own record: region to page count. */
    var granted: map<int, int>

    ghost predicate Valid()
      reads this, heap, heap.freePages, heap.completePages
    {
      heap.Valid() && held == Sizes(heap.View()) && granted == heap.arena.regions
    }

    ghost function Books(): Ledger
      reads this, heap
    {
      BooksOf(heap.arena, heap.mem)
    }

    constructor (m: Memory)
      ensures Valid() && fresh(heap) && fresh(heap.freePages) && fresh(heap.completePages)
      ensures Books() == Ledger(map[], map[])
    {
      hide Good, Holds, Contents;
      heap := new Allocator.Liballoc(m);
      held := map[];
      granted := map[];
      new;
      Allocator.NothingOwned(m);
      assert Sizes(map[]) == map[];
    }

    /** The pages a request has brought in. */
    method Note(size: nat, base: int, p: int)
      modifies this`granted
      ensures granted == Grants(old(granted), size, base, p)
    {
      if base != NULL && p == base + HEADER {
        granted := granted[base := PagesFor(size)];
      }
    }

    /** The provider hears of pages that come back. */
    method Hear(told: Release)
      modifies this`granted
      ensures granted == match told { case Kept => old(granted) case Returned(b, _) => old(granted) - {b} }
    {
      match told
      case Kept =>
      case Returned(b, _) => granted := granted - {b};
    }

    method ServeMalloc(size: nat, base: int) returns (ghost a: Answer)
      requires Valid() && size + HEADER < MOD32 && Available(granted, size, base)
      modifies this, heap, heap.freePages, heap.completePages
      ensures Valid() && Receive(old(Books()), size, base, a) == Some(Books())
    {
      hide Good, Malloc, Contents, Holds, SameOutside, NoRoom, ProviderMayReturn, PagesFor;
      AvailableMeans(heap.arena, size, base);
      ghost var s := heap.arena;
      var p, junk := heap.Malloc(size, base);
      if p == NULL {
        return Refused;
      }
      MallocGrants(s, size, base, junk);
      SizesAdd(old(heap.View()), p, heap.View()[p]);
      held := held[p := size];
      Note(size, base, p);
      a := Got(p, heap.View()[p]);
    }

    method ServeFree(p: int) returns (ghost a: Answer)
      requires Valid() && (p == NULL || p in held)
      modifies this, heap, heap.freePages, heap.completePages
      ensures Valid() && Surrender(old(Books()), p, a) == Some(Books())
    {
      hide Links, Lists, Buckets, Coalesced, Counts, Fits, Free, Contents, Holds, SameOutside;
      Allocator.LiveView(heap.arena, heap.mem, p);
      Allocator.NullNotLive(heap.arena, heap.mem);
      FreeTakesBack(heap.arena, p, heap.View() - {p});
      SizesDrop(heap.View(), p);
      assert p == NULL ==> heap.View() - {p} == heap.View();
      var told := heap.Free(p);
      held := held - {p};
      Hear(told);
      a := if p == NULL then Done else Gave(told);
    }

    method ServeStore(p: int, i: nat, b: Byte) returns (ghost a: Answer)
      requires Valid() && p in held && i < held[p]
      modifies heap
      ensures Valid() && a == Done
      ensures var l := old(Books());
              Books() == l.(owned := l.owned[p := Allocator.Overwrite(l.owned[p], i, b)])
    {
      hide Good, Contents, Holds;
      SizesAdd(heap.View(), p, Allocator.Overwrite(heap.View()[p], i, b));
      heap.Store(p, i, b);
      a := Done;
    }

    method ServeRealloc(p: int, size: nat, base: int) returns (ghost a: Answer)
      requires Valid() && Permitted(held, granted, ReallocRequest(p, size, base))
      modifies this, heap, heap.freePages, heap.completePages
      ensures Valid() && Entered(old(Books()), ReallocRequest(p, size, base), a) == Some(Books())
    {
      hide Links, Lists, Buckets, Coalesced, Counts, Fits, Malloc, Free, Contents, Holds, SameOutside, NoRoom, PagesFor,
        Realloc, ProviderMayReturn, Available, Sizes, Entered, ReallocAnswer, Allocator.Moved,
        Allocator.NoTagBelow, Grants, Permitted, MayAnswer, Allocator.Liballoc.Coupled;
      ghost var s, l := heap.arena, Books();
      SizeIn(heap.View(), p);
      Allocator.NullNotLive(s, heap.mem);
      PermittedRealloc(held, s, p, size, base);
      var q, told, junk := heap.Realloc(p, size, base);
      ReallocTakesBack(s, p, size, base, junk, heap.View());
      ReallocSizes(l.owned, heap.View(), p, q, size);
      a := ReallocAnswer(l.owned, heap.View(), p, size, q, told);
      ReallocEntered(l, Books(), p, size, base, q, told);
      held := held - {p};
      if q != NULL {
        held := held[q := size];
        Note(size, base, q);
      }
      Hear(told);
    }

    /** One request: skipped when it is not permitted, else passed to the allocator. */
    method Serve(r: Request) returns (ghost a: Answer)
      requires Valid()
      modifies this, heap, heap.freePages, heap.completePages
      ensures Valid() && Post(old(Books()), r, a) == Some(Books())
    {
      hide Good, Contents, Holds, Sane, Available, Receive, Surrender, Resize;
      if !Permitted(held, granted, r) {
        return Skipped;
      }
      match r {
        case MallocRequest(size, base) => a := ServeMalloc(size, base);
        case FreeRequest(p) => a := ServeFree(p);
        case ReallocRequest(p, size, base) => a := ServeRealloc(p, size, base);
        case StoreRequest(p, i, b) => a := ServeStore(p, i, b);
      }
      BooksSane(heap.arena, heap.mem);
    }

    /**
     Any sequence of requests: replaying the answers in the reference ledger accepts every one of
     them, and ends with the bytes the callers own and the regions the allocator holds.
     */
    method Run(requests: seq<Request>) returns (ghost answers: seq<Answer>)
      requires Valid()
      modifies this, heap, heap.freePages, heap.completePages
      ensures Valid() && |answers| == |requests|
      ensures Replay(old(Books()), requests, answers) == Some(Books())
    {
      hide Post, BooksOf, Good, Holds, Contents, Sizes;
      answers := [];
      for k := 0 to |requests|
        invariant Valid() && |answers| == k
        invariant Replay(old(Books()), requests[..k], answers) == Some(Books())
      {
        ghost var books := Books();
        var a := Serve(requests[k]);
        ReplayStep(old(Books()), requests, k, answers, books, a);
        answers := answers + [a];
      }
      assert requests[..|requests|] == requests;
    }
  }
}
