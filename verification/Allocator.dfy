/** `liballoc.c` over byte memory. Pointers are addresses; each method follows its C function. */
module Allocator {
  import opened Machine
  import opened Exponent
  import opened BoundaryTags
  import opened TagInvariants
  import opened TagSteps
  import Spec = AllocatorSpec
  import opened FreeLists
  import opened LiveBlocks
  import opened Memory
  import opened Payloads
  import HeapTheorems
  import HeapRuns

  class Liballoc {
    var mem: Memory
    const freePages: array<int>
    const completePages: array<int>
    var initialized: bool
    /** The tag structure that memory and the two arrays hold. */
    ghost var arena: Arena

    ghost predicate Coupled()
      reads this, freePages, completePages
    {
      && freePages != completePages
      && freePages[..] == arena.first && completePages[..] == arena.complete
      && Holds(mem, arena.heads)
    }

    ghost predicate Valid()
      reads this, freePages, completePages
    {
      Coupled() && Inv(arena) && (!initialized ==> arena == HeapRuns.Empty())
    }

    /** What callers own: pointer to bytes. */
    ghost function View(): map<int, seq<Byte>>
      reads this
    {
      Contents(arena, mem)
    }

    /** Static storage before the first call, over whatever memory holds. */
    constructor (m: Memory)
      ensures Valid() && fresh(freePages) && fresh(completePages)
      ensures arena == HeapRuns.Empty() && mem == m
    {
      mem := m;
      freePages := new int[MAXEXP](_ => NULL);
      completePages := new int[MAXEXP](_ => 0);
      initialized := false;
      arena := HeapRuns.Empty();
      new;
      assert freePages[..] == arena.first && completePages[..] == arena.complete;
    }

    /** Store one field of a header. Only bytes under the headers at `tags` have changed since `m0`. */
    method SetField(t: int, f: Field, v: int, ghost m0: Memory, ghost tags: set<int>)
      requires Coupled() && t in arena.heads && Storable(f, v)
      requires SameOutside(m0, mem, tags) && t in tags
      modifies this`mem, this`arena
      ensures Coupled() && SameOutside(m0, mem, tags)
      ensures arena == old(arena).(heads := old(arena).heads[t := With(old(arena).heads[t], f, v)])
    {
      PutHolds(mem, arena.heads, t, f, v);
      PutOutside(m0, mem, tags, t, f, v);
      mem := Put(mem, t, f, v);
      arena := arena.(heads := arena.heads[t := With(arena.heads[t], f, v)]);
    }

    /** `getexp` of the payload of a tag, raised to the smallest bucket. */
    method BucketOf(tag: int) returns (i: int)
      requires Coupled() && tag in arena.heads && HEADER <= arena.heads[tag].realSize < MOD32
      ensures i == Bucket(arena.heads[tag].realSize)
    {
      hide Holds, HeaderAt;
      HoldsAt(mem, arena.heads, tag);
      i := GetExp(U32(HeaderAt(mem, tag).realSize - HEADER));
      if i < MINEXP {
        i := MINEXP;
      }
    }

    /** `insert_tag`. */
    method InsertTag(tag: int, index: int, ghost m0: Memory, ghost tags: set<int>)
      requires Coupled() && tag in arena.heads && |arena.first| == MAXEXP
      requires HEADER <= arena.heads[tag].realSize < MOD32
      requires index < 0 || index == Bucket(arena.heads[tag].realSize)
      requires Listable(arena, tag, Bucket(arena.heads[tag].realSize))
      requires SameOutside(m0, mem, tags) && arena.heads.Keys <= tags
      modifies this`mem, this`arena, freePages
      ensures Coupled() && SameOutside(m0, mem, tags)
      ensures arena == Insert(old(arena), tag, Bucket(old(arena).heads[tag].realSize))
    {
      hide Holds, SameOutside, HeaderAt, Bucket;
      var realIndex := index;
      if index < 0 {
        realIndex := BucketOf(tag);
      }
      HoldsAt(mem, arena.heads, tag);
      SetField(tag, Index, realIndex, m0, tags);
      var f := freePages[realIndex];
      if f != NULL {
        HoldsAt(mem, arena.heads, f);
        SetField(f, Prev, tag, m0, tags);
        SetField(tag, Next, f, m0, tags);
      }
      freePages[realIndex] := tag;
      arena := arena.(first := freePages[..],
                      rank := arena.rank[tag := if f in arena.rank then arena.rank[f] + 1 else 0]);
    }

    /** `remove_tag`. */
    method RemoveTag(tag: int, ghost m0: Memory, ghost tags: set<int>)
      requires Coupled() && Removable(arena, tag)
      requires arena.heads[tag].prev != tag && arena.heads[tag].next != tag
      requires SameOutside(m0, mem, tags) && arena.heads.Keys <= tags
      modifies this`mem, this`arena, freePages
      ensures Coupled() && SameOutside(m0, mem, tags)
      ensures arena == Remove(old(arena), tag)
    {
      hide Holds, SameOutside, HeaderAt;
      HoldsAt(mem, arena.heads, tag);
      var h := HeaderAt(mem, tag);
      if freePages[h.index] == tag {
        freePages[h.index] := h.next;
        arena := arena.(first := freePages[..]);
      }
      if h.prev != NULL {
        HoldsAt(mem, arena.heads, h.prev);
        SetField(h.prev, Next, h.next, m0, tags);
      }
      if h.next != NULL {
        SetField(h.next, Prev, h.prev, m0, tags);
      }
      Unlink(tag, m0, tags);
    }

    /** The last three stores of `remove_tag`. */
    method Unlink(tag: int, ghost m0: Memory, ghost tags: set<int>)
      requires Coupled() && tag in arena.heads
      requires SameOutside(m0, mem, tags) && tag in tags
      modifies this`mem, this`arena
      ensures Coupled() && SameOutside(m0, mem, tags)
      ensures arena == old(arena).(heads :=
                old(arena).heads[tag := old(arena).heads[tag].(next := NULL, prev := NULL, index := -1)])
    {
      hide Holds, SameOutside;
      SetField(tag, Next, NULL, m0, tags);
      SetField(tag, Prev, NULL, m0, tags);
      SetField(tag, Index, -1, m0, tags);
      assert arena.heads == old(arena).heads[tag := old(arena).heads[tag].(next := NULL, prev := NULL, index := -1)];
    }

    /** The stores shared by `melt_left` and `absorb_right`: `left` takes over the span of `tag`. */
    method Merge(left: int, tag: int, ghost m0: Memory, ghost tags: set<int>)
      requires Coupled() && Meltable(arena, tag) && arena.heads[tag].left == left != tag
      requires 0 <= arena.heads[left].realSize + arena.heads[tag].realSize < MOD32
      requires SameOutside(m0, mem, tags) && arena.heads.Keys <= tags
      modifies this`mem, this`arena
      ensures Coupled() && SameOutside(m0, mem, tags)
      ensures arena == MeltLeft(old(arena), tag)
    {
      hide Holds, SameOutside, HeaderAt;
      HoldsAt(mem, arena.heads, tag);
      HoldsAt(mem, arena.heads, left);
      SetField(left, RealSize, U32(HeaderAt(mem, left).realSize + HeaderAt(mem, tag).realSize), m0, tags);
      HoldsAt(mem, arena.heads, tag);
      ghost var heads, h := old(arena).heads, arena.heads[left];
      SetField(left, Right, HeaderAt(mem, tag).right, m0, tags);
      Again(heads, left, h, arena.heads[left]);
      HoldsAt(mem, arena.heads, tag);
      var right := HeaderAt(mem, tag).right;
      if right != NULL {
        SetField(right, Left, left, m0, tags);
      }
      Forget(tag);
    }

    /** `melt_left`. */
    method MeltIntoLeft(tag: int, ghost m0: Memory, ghost tags: set<int>) returns (left: int)
      requires Coupled() && Meltable(arena, tag) && arena.heads[tag].left != tag
      requires 0 <= arena.heads[arena.heads[tag].left].realSize + arena.heads[tag].realSize < MOD32
      requires SameOutside(m0, mem, tags) && arena.heads.Keys <= tags
      modifies this`mem, this`arena
      ensures Coupled() && SameOutside(m0, mem, tags)
      ensures left == old(arena).heads[tag].left && arena == MeltLeft(old(arena), tag)
    {
      hide Holds, SameOutside, HeaderAt, MeltLeft;
      HoldsAt(mem, arena.heads, tag);
      left := HeaderAt(mem, tag).left;
      Merge(left, tag, m0, tags);
    }

    /** The header of a swallowed tag stays in memory but is no longer a tag. */
    ghost method Forget(tag: int)
      requires Coupled() && tag in arena.heads
      modifies this`arena
      ensures Coupled()
      ensures arena == old(arena).(heads := old(arena).heads - {tag}, owner := old(arena).owner - {tag})
    {
      arena := arena.(heads := arena.heads - {tag}, owner := arena.owner - {tag});
    }

    /** `absorb_right`. */
    method AbsorbRight(tag: int, ghost m0: Memory, ghost tags: set<int>)
      requires Coupled() && tag in arena.heads && NULL !in arena.heads
      requires var x := arena.heads[tag].right;
               && Removable(arena, x) && arena.heads[x].left == tag && x != tag
               && arena.heads[x].prev != x && arena.heads[x].next != x
               && 0 <= arena.heads[tag].realSize + arena.heads[x].realSize < MOD32
               && (arena.heads[x].right != NULL ==> arena.heads[x].right in arena.heads)
      requires SameOutside(m0, mem, tags) && arena.heads.Keys <= tags
      modifies this`mem, this`arena, freePages
      ensures Coupled() && SameOutside(m0, mem, tags)
      ensures var x := old(arena).heads[tag].right;
              arena == MeltLeft(Remove(old(arena), x), x)
    {
      hide Holds, SameOutside, HeaderAt, MeltLeft, Remove;
      HoldsAt(mem, arena.heads, tag);
      var x := HeaderAt(mem, tag).right;
      RemoveKeeps(arena, x, x);
      RemoveKeeps(arena, x, tag);
      RemoveTag(x, m0, tags);
      Merge(tag, x, m0, tags);
    }

    /** A header about to be written at `n` becomes part of the tag structure, whatever it holds. */
    ghost method Adopt(n: int, owner: int)
      requires Coupled() && Spaced(arena.heads.Keys + {n})
      modifies this`arena
      ensures Coupled() && IsTagAddress(n)
      ensures arena == old(arena).(heads := old(arena).heads[n := HeaderAt(mem, n)],
                                   owner := old(arena).owner[n := owner])
    {
      arena := arena.(heads := arena.heads[n := HeaderAt(mem, n)], owner := arena.owner[n := owner]);
      assert arena.heads.Keys == old(arena).heads.Keys + {n};
    }

    /** The stores of `split_tag` that fill the new header. */
    method FillHeader(n: int, realSize: int, left: int, right: int, ghost m0: Memory, ghost tags: set<int>)
      requires Coupled() && n in arena.heads
      requires 0 <= realSize < MOD32 && 0 <= left < MOD32 && 0 <= right < MOD32
      requires SameOutside(m0, mem, tags) && n in tags
      modifies this`mem, this`arena
      ensures Coupled() && SameOutside(m0, mem, tags)
      ensures arena == old(arena).(heads := old(arena).heads[n := old(arena).heads[n].(
                magic := MAGIC, realSize := realSize, next := NULL, prev := NULL, left := left, right := right)])
    {
      hide Holds, SameOutside;
      ghost var heads, h := arena.heads, arena.heads[n];
      SetField(n, Magic, MAGIC, m0, tags);
      SetField(n, RealSize, realSize, m0, tags);
      Again(heads, n, h.(magic := MAGIC), h.(magic := MAGIC, realSize := realSize));
      SetField(n, Next, NULL, m0, tags);
      SetField(n, Prev, NULL, m0, tags);
      h := h.(magic := MAGIC, realSize := realSize);
      Again(heads, n, h, h.(next := NULL));
      Again(heads, n, h.(next := NULL), h.(next := NULL, prev := NULL));
      SetField(n, Left, left, m0, tags);
      SetField(n, Right, right, m0, tags);
      h := h.(next := NULL, prev := NULL);
      Again(heads, n, h, h.(left := left));
      Again(heads, n, h.(left := left), h.(left := left, right := right));
    }

    /** A new header appears at `n`; its size and index words stay what memory held. */
    method AddHeader(n: int, realSize: int, left: int, right: int, ghost owner: int,
                     ghost m0: Memory, ghost tags: set<int>)
      requires Coupled() && Spaced(arena.heads.Keys + {n})
      requires 0 <= realSize < MOD32 && 0 <= left < MOD32 && 0 <= right < MOD32
      requires SameOutside(m0, mem, tags) && n in tags
      modifies this`mem, this`arena
      ensures Coupled() && SameOutside(m0, mem, tags) && IsTagAddress(n)
      ensures arena == old(arena).(
                heads := old(arena).heads[n := HeaderAt(old(mem), n).(
                  magic := MAGIC, realSize := realSize, next := NULL, prev := NULL, left := left, right := right)],
                owner := old(arena).owner[n := owner])
    {
      hide Holds, SameOutside, HeaderAt, Spaced;
      Adopt(n, owner);
      FillHeader(n, realSize, left, right, m0, tags);
      assert arena.heads == old(arena).heads[n := HeaderAt(old(mem), n).(
        magic := MAGIC, realSize := realSize, next := NULL, prev := NULL, left := left, right := right)];
    }

    /** `split_tag` before it puts the new tag on a list. */
    method CutTag(tag: int, ghost m0: Memory, ghost tags: set<int>) returns (n: int)
      requires Coupled() && Splittable(arena, tag)
      requires SplitPoint(arena, tag) !in arena.heads && Spaced(arena.heads.Keys + {SplitPoint(arena, tag)})
      requires 0 <= arena.heads[tag].realSize - HEADER - arena.heads[tag].size
      requires arena.heads[tag].right != tag && arena.heads[tag].right != SplitPoint(arena, tag)
      requires SameOutside(m0, mem, tags) && arena.heads.Keys + {SplitPoint(arena, tag)} <= tags
      modifies this`mem, this`arena
      ensures Coupled() && SameOutside(m0, mem, tags)
      ensures n == SplitPoint(old(arena), tag) && IsTagAddress(n)
      ensures arena == Cut(old(arena), tag, HeaderAt(old(mem), n))
    {
      hide Holds, SameOutside, HeaderAt, Spaced;
      SpacedAt(arena.heads.Keys + {SplitPoint(arena, tag)}, SplitPoint(arena, tag));
      HoldsAt(mem, arena.heads, tag);
      var h := HeaderAt(mem, tag);
      var remainder := U32(h.realSize - HEADER - h.size);
      n := U32(tag + HEADER + h.size);
      AddHeader(n, remainder, tag, h.right, arena.owner[tag], m0, tags);
      if h.right != NULL {
        SetField(h.right, Left, n, m0, tags);
      }
      Shrink(tag, n, U32(h.realSize - remainder), m0, tags);
    }

    /** The stores of `split_tag` that cut the old tag short. */
    method Shrink(tag: int, right: int, realSize: int, ghost m0: Memory, ghost tags: set<int>)
      requires Coupled() && tag in arena.heads && 0 <= realSize < MOD32 && 0 <= right < MOD32
      requires SameOutside(m0, mem, tags) && tag in tags
      modifies this`mem, this`arena
      ensures Coupled() && SameOutside(m0, mem, tags)
      ensures arena == old(arena).(heads :=
                old(arena).heads[tag := old(arena).heads[tag].(right := right, realSize := realSize)])
    {
      hide Holds, SameOutside;
      SetField(tag, Right, right, m0, tags);
      SetField(tag, RealSize, realSize, m0, tags);
      assert arena.heads == old(arena).heads[tag := old(arena).heads[tag].(right := right, realSize := realSize)];
    }

    /** `split_tag`. */
    method SplitTag(tag: int, ghost m0: Memory, ghost tags: set<int>) returns (n: int)
      requires Coupled() && Good(arena, {tag}) && Spec.Roomy(arena, tag) && Alone(arena, tag)
      requires 2 * HEADER <= arena.heads[tag].realSize - arena.heads[tag].size
      requires SameOutside(m0, mem, tags) && arena.heads.Keys + {SplitPoint(arena, tag)} <= tags
      modifies this`mem, this`arena, freePages
      ensures Coupled() && SameOutside(m0, mem, tags)
      ensures n == SplitPoint(old(arena), tag) && IsTagAddress(n)
      ensures SplitInto(old(arena), arena, tag, HeaderAt(old(mem), n))
    {
      hide Links, Lists, Buckets, Coalesced, Counts, Fits, Holds, SameOutside, HeaderAt, Cut, Insert, Spaced, Bucket,
        SplitReady, Alone, Split, Splittable, Listable;
      SplitSites(arena, tag);
      n := CutTag(tag, m0, tags);
      ghost var junk := HeaderAt(old(mem), n);
      SplitIsReady(old(arena), tag, junk);
      InsertTag(n, -1, m0, tags);
    }

    /** `allocate_new_tag`; `base` is what `liballoc_alloc` answers for `PagesFor(size)` pages. */
    method AllocateNewTag(size: int, base: int, ghost m0: Memory, ghost tags: set<int>) returns (tag: int)
      requires Coupled() && 0 <= size < MOD32
      requires base != NULL ==>
        Spaced(arena.heads.Keys + {base}) && base + PAGE * Spec.PagesFor(size) <= MOD32 && base in tags
      requires SameOutside(m0, mem, tags)
      modifies this`mem, this`arena
      ensures Coupled() && SameOutside(m0, mem, tags) && tag == base
      ensures base == NULL ==> mem == old(mem)
      ensures arena == if base == NULL then old(arena) else Grant(old(arena), base, Spec.PagesFor(size), size)
    {
      hide Holds, SameOutside, HeaderAt;
      var usage := U32(size + HEADER);
      var pages := usage / PAGE;
      if usage % PAGE != 0 {
        pages := pages + 1;
      }
      if pages < 1 {
        pages := 1;
      }
      assert pages == Spec.PagesFor(size);
      tag := base;
      if tag == NULL {
        return;
      }
      hide Spaced;
      AddHeader(tag, U32(pages * PAGE), NULL, NULL, tag, m0, tags);
      SetField(tag, Size, size, m0, tags);
      SetField(tag, Index, -1, m0, tags);
      arena := arena.(regions := arena.regions[base := pages]);
      assert arena.heads == Grant(old(arena), base, pages, size).heads;
    }

    /** The search loop of `malloc`. */
    method FindTag(size: int, index: int) returns (tag: int)
      requires Coupled() && Lists(arena) && 0 <= size < MOD32
      requires index == Spec.SearchIndex(size)
      ensures tag == Spec.Candidate(arena, size)
    {
      hide Lists, Holds, HeaderAt, Spec.FirstFit, Spec.SearchIndex, U32, TagListed, FirstOk;
      ListedIfPresent(arena, index);
      ghost var found := Spec.Candidate(arena, size);
      tag := freePages[index];
      while tag != NULL
        invariant tag != NULL ==> tag in arena.heads && arena.heads[tag].index >= 0 && tag in arena.rank
        invariant Spec.FirstFit(arena, tag, size) == found
        decreases if tag == NULL then 0 else arena.rank[tag] + 1
      {
        hide Spec.Candidate;
        HoldsAt(mem, arena.heads, tag);
        FirstFitStep(arena, tag, size);
        if U32(HeaderAt(mem, tag).realSize - HEADER) >= U32(size + HEADER) {
          return;
        }
        tag := HeaderAt(mem, tag).next;
      }
      FirstFitEnd(arena, size);
    }

    /** The reuse branch of `malloc`: off the list, and one whole region less if it was one. */
    method TakeTag(tag: int, index: int, ghost m0: Memory, ghost tags: set<int>)
      requires Coupled() && Lists(arena) && Removable(arena, tag) && index == arena.heads[tag].index
      requires |arena.complete| == MAXEXP
      requires SameOutside(m0, mem, tags) && arena.heads.Keys <= tags
      modifies this`mem, this`arena, freePages, completePages
      ensures Coupled() && SameOutside(m0, mem, tags)
      ensures arena == Take(old(arena), tag)
    {
      hide Lists, Holds, HeaderAt, Remove, SameOutside;
      ApartFromSelf(arena, tag);
      RemoveKeeps(arena, tag, tag);
      RemoveTag(tag, m0, tags);
      HoldsAt(mem, arena.heads, tag);
      var h := HeaderAt(mem, tag);
      if h.left == NULL && h.right == NULL {
        completePages[index] := completePages[index] - 1;
        arena := arena.(complete := completePages[..]);
      }
    }

    /** The tail of `malloc`: split off what is not needed. */
    method TrimTag(tag: int, size: int, ghost m0: Memory, ghost tags: set<int>) returns (ghost junk: Header)
      requires Coupled() && Good(arena, {tag}) && Spec.Roomy(arena, tag) && Alone(arena, tag)
      requires arena.heads[tag].size == size
      requires SameOutside(m0, mem, tags) && arena.heads.Keys <= tags
      requires Spec.Splits(arena.heads[tag].realSize, size) ==> SplitPoint(arena, tag) in tags
      modifies this`mem, this`arena, freePages
      ensures Coupled() && SameOutside(m0, mem, tags)
      ensures arena == Spec.Trim(old(arena), tag, junk)
    {
      hide Good, Holds, SameOutside, HeaderAt, Split, SplitReady, Alone, ExpOf, Spec.Splits;
      HoldsAt(mem, arena.heads, tag);
      Spec.SplitsExactly(arena.heads[tag].realSize, size);
      junk := arena.heads[tag];
      var remainder := U32(HeaderAt(mem, tag).realSize - size - HEADER * 2);
      if Signed32(remainder) > 0 {
        var childIndex := GetExp(remainder);
        if childIndex >= 0 {
          var n := SplitTag(tag, m0, tags);
          junk := HeaderAt(old(mem), n);
        }
      }
    }

    /** The lazy initialisation at the start of `malloc`. */
    method Initialize()
      requires Valid()
      modifies this`initialized, freePages, completePages
      ensures Valid() && initialized
    {
      if !initialized {
        var index := 0;
        while index < MAXEXP
          invariant 0 <= index <= MAXEXP
          invariant freePages[..] == old(freePages[..]) && completePages[..] == old(completePages[..])
        {
          freePages[index] := NULL;
          completePages[index] := 0;
          index := index + 1;
        }
        initialized := true;
      }
    }

    /** `malloc` up to the split test: find a tag or get a new one, and record the size in it. */
    method SettleTag(size: int, base: int, ghost m0: Memory, ghost tags: set<int>) returns (tag: int)
      requires Coupled() && Inv(arena) && 0 <= size && size + HEADER < MOD32 && Spec.MayAnswer(arena, size, base)
      requires SameOutside(m0, mem, tags) && arena.heads.Keys <= tags
      requires Spec.Candidate(arena, size) == NULL && base != NULL ==> base in tags
      modifies this`mem, this`arena, freePages, completePages
      ensures Coupled() && SameOutside(m0, mem, tags)
      ensures tag == NULL <==> Spec.Candidate(old(arena), size) == NULL && base == NULL
      ensures tag == NULL ==> arena == old(arena) && mem == old(mem)
      ensures tag != NULL ==> (arena, tag) == Spec.Settle(old(arena), size, base)
    {
      hide Links, Lists, Buckets, Coalesced, Counts, Fits, Holds, SameOutside, HeaderAt, Spaced, Remove, Spec.PagesFor;
      var index := GetExp(size);
      if index < MINEXP {
        index := MINEXP;
      }
      tag := FindTag(size, index);
      if tag == NULL {
        if base != NULL {
          FreshSite(arena, base, Spec.PagesFor(size));
        }
        tag := AllocateNewTag(size, base, m0, tags);
        if tag == NULL {
          return;
        }
      } else {
        TakeGood(arena, tag);
        CountAt(arena, index, {});
        TakeTag(tag, index, m0, tags);
      }
      SetField(tag, Size, size, m0, tags);
      assert arena.heads == Spec.Settle(old(arena), size, base).0.heads;
    }

    /** `malloc`; `base` is what the page provider answers if it is asked. */
    method Malloc(size: int, base: int) returns (p: int, ghost junk: Header)
      requires Valid() && 0 <= size && size + HEADER < MOD32 && Spec.MayAnswer(arena, size, base)
      modifies this, freePages, completePages
      ensures Valid()
      ensures (arena, p) == Spec.Malloc(old(arena), size, base, junk)
      ensures SameOutside(old(mem), mem, old(arena).heads.Keys + arena.heads.Keys)
      ensures p == NULL <==> NoRoom(old(arena), size) && base == NULL
      ensures p == NULL ==> View() == old(View())
      ensures p != NULL ==>
        p !in old(View()) && p in View() && |View()[p]| == size && View() == old(View())[p := View()[p]]
    {
      hide Good, Holds, HeaderAt, SameOutside, Blocks, Contents, Spec.Settle, Spec.Trim, Spec.Candidate,
        MallocFootprint;
      Initialize();
      ghost var tags := MallocFootprint(arena, size, base);
      SameOutsideSelf(mem, tags);
      FootprintBase(arena, size, base);
      junk := Header(0, 0, 0, 0, 0, 0, 0, 0);
      var tag := SettleTag(size, base, mem, tags);
      MallocBlocks(old(arena), size, base, junk);
      if tag == NULL {
        FootprintEnd(old(arena), size, base, junk);
        return NULL, junk;
      }
      FootprintSplit(old(arena), size, base);
      junk := TrimTag(tag, size, old(mem), tags);
      p := U32(tag + HEADER);
      FootprintEnd(old(arena), size, base, junk);
      MallocBlocks(old(arena), size, base, junk);
      ContentsAdd(old(arena), arena, old(mem), mem, p, size);
    }

    /** Is there a free tag at `a`? The guard of both merge loops. */
    predicate FreeAt(a: int)
      reads this
    {
      a != NULL && IsTagAddress(a) && HeaderAt(mem, a).index >= 0
    }

    lemma FreeAtMeans(t: int)
      requires Holds(mem, arena.heads) && Links(arena) && Lists(arena) && t in arena.heads
      ensures IsTagAddress(t)
      ensures FreeAt(HeaderAt(mem, t).left) == Spec.LeftFree(arena, t)
      ensures FreeAt(HeaderAt(mem, t).right) == Spec.RightFree(arena, t)
    {
      hide Holds, HeaderAt, Lists, Links;
      HoldsAt(mem, arena.heads, t);
      LinkedAt(arena, t);
      ListedAt(arena, t);
      var l, r := arena.heads[t].left, arena.heads[t].right;
      if l != NULL {
        HoldsAt(mem, arena.heads, l);
      }
      if r != NULL {
        HoldsAt(mem, arena.heads, r);
      }
    }

    /** The first merge loop of `free`. It runs at most once. */
    method MeltLeftLoop(start: int, ghost m0: Memory, ghost tags: set<int>) returns (tag: int)
      requires Coupled() && Spec.Loose(arena, start) && Coalesced(arena, {})
      requires SameOutside(m0, mem, tags) && arena.heads.Keys <= tags
      modifies this`mem, this`arena, freePages
      ensures Coupled() && SameOutside(m0, mem, tags) && arena.heads.Keys <= tags
      ensures (arena, tag) == Spec.JoinLeft(old(arena), start)
    {
      hide Links, Lists, Buckets, Coalesced, Counts, Fits, Holds, HeaderAt, SameOutside, MeltLeft, Remove, FreeAt;
      tag := start;
      FreeAtMeans(tag);
      while FreeAt(HeaderAt(mem, tag).left)
        invariant Coupled() && SameOutside(m0, mem, tags) && arena.heads.Keys <= tags && IsTagAddress(tag)
        invariant (arena, tag) == (old(arena), start) || (arena, tag) == Spec.JoinLeft(old(arena), start)
        invariant Spec.Loose(arena, tag) && FreeAt(HeaderAt(mem, tag).left) == Spec.LeftFree(arena, tag)
        decreases |arena.heads.Keys|
      {
        Spec.JoinLeftGood(arena, tag);
        MeltBounds(arena, tag);
        var t := tag;
        tag := MeltIntoLeft(t, m0, tags);
        ApartFromSelf(arena, tag);
        RemoveTag(tag, m0, tags);
        FreeAtMeans(tag);
      }
    }

    /** The second merge loop of `free`. It runs at most once. */
    method MeltRightLoop(tag: int, ghost m0: Memory, ghost tags: set<int>)
      requires Coupled() && Spec.Loose(arena, tag) && !Spec.LeftFree(arena, tag)
      requires SameOutside(m0, mem, tags) && arena.heads.Keys <= tags
      modifies this`mem, this`arena, freePages
      ensures Coupled() && SameOutside(m0, mem, tags) && arena.heads.Keys <= tags
      ensures arena == Spec.JoinRight(old(arena), tag)
    {
      hide Links, Lists, Buckets, Coalesced, Counts, Fits, Holds, HeaderAt, SameOutside, MeltLeft, Remove, FreeAt;
      FreeAtMeans(tag);
      while FreeAt(HeaderAt(mem, tag).right)
        invariant Coupled() && SameOutside(m0, mem, tags) && arena.heads.Keys <= tags && IsTagAddress(tag)
        invariant arena == old(arena) || arena == Spec.JoinRight(old(arena), tag)
        invariant Spec.Loose(arena, tag) && FreeAt(HeaderAt(mem, tag).right) == Spec.RightFree(arena, tag)
        decreases |arena.heads.Keys|
      {
        Spec.JoinRightGood(arena, tag);
        AbsorbBounds(arena, tag);
        AbsorbRight(tag, m0, tags);
        FreeAtMeans(tag);
      }
    }

    /** The end of `free`: keep the tag or return its region to the page provider. */
    method Settled(tag: int, ghost m0: Memory, ghost tags: set<int>) returns (told: Spec.Release)
      requires Coupled() && Spec.Loose(arena, tag) && Alone(arena, tag)
      requires SameOutside(m0, mem, tags) && arena.heads.Keys <= tags
      modifies this`mem, this`arena, freePages, completePages
      ensures Coupled() && SameOutside(m0, mem, tags)
      ensures (arena, told) == Spec.Settled(old(arena), tag)
    {
      hide Links, Lists, Buckets, Coalesced, Counts, Fits, Holds, HeaderAt, SameOutside, Insert, Bucket;
      GiveGood(arena, tag);
      var index := BucketOf(tag);
      HoldsAt(mem, arena.heads, tag);
      CountAt(arena, index, {tag});
      FirstAt(arena, index);
      var h := HeaderAt(mem, tag);
      if h.left == NULL && h.right == NULL {
        WholeRegion(arena, tag);
        if completePages[index] == MAXCOMPLETE {
          var pages := h.realSize / PAGE;
          if h.realSize % PAGE != 0 {
            pages := pages + 1;
          }
          if pages < 1 {
            pages := 1;
          }
          SpanBounded(arena, tag);
          Forget(tag);
          arena := arena.(regions := arena.regions - {tag});
          return Spec.Returned(tag, pages);
        }
        completePages[index] := completePages[index] + 1;
        arena := arena.(complete := completePages[..]);
      }
      InsertTag(tag, index, m0, tags);
      told := Spec.Kept;
    }

    /** `free`; `told` is what the page provider hears of it. */
    method Free(p: int) returns (told: Spec.Release)
      requires Valid() && (p == NULL || Spec.IsLive(arena, p))
      modifies this, freePages, completePages
      ensures Valid()
      ensures (arena, told) == Spec.Free(old(arena), p)
      ensures SameOutside(old(mem), mem, old(arena).heads.Keys)
      ensures View() == old(View()) - {p}
    {
      hide Links, Lists, Buckets, Coalesced, Counts, Fits, Holds, HeaderAt, SameOutside, Blocks, Contents,
        Spec.JoinLeft, Spec.JoinRight, Spec.Settled;
      ghost var s, tags := arena, arena.heads.Keys;
      SameOutsideSelf(mem, tags);
      if p == NULL {
        NullNotLive(arena, mem);
        return Spec.Kept;
      }
      var tag := U32(p - HEADER);
      FreeStart(arena, mem, p);
      if HeaderAt(mem, tag).magic != MAGIC {
        return Spec.Kept;
      }
      HeatUp(arena, tag);
      tag := MeltLeftLoop(tag, mem, tags);
      MeltRightLoop(tag, old(mem), tags);
      told := Settled(tag, old(mem), tags);
      FreeBlocks(s, p);
      assert s.heads.Keys + arena.heads.Keys == tags;
      ContentsDrop(s, arena, old(mem), mem, p);
    }

    /** A caller stores a byte in a block it owns. */
    method Store(p: int, i: int, b: Byte)
      requires Valid() && p in View() && 0 <= i < |View()[p]|
      modifies this`mem
      ensures Valid() && View() == old(View())[p := Overwrite(old(View())[p], i, b)]
    {
      hide Good, Holds, Blocks;
      BlockAt(arena, p);
      HeapTheorems.PayloadsApart(arena, p);
      ghost var n := mem[p + i := b];
      ContentsWrite(arena, mem, n, p, p + i, p + i + 1);
      assert n[p..p + |View()[p]|] == Overwrite(View()[p], i, b);
      mem := mem[p + i := b];
    }

    /** The copy of `realloc` into the block it has just been given, or to null. */
    method CopyBlock(q: int, p: int, n: int)
      requires Coupled() && Inv(arena) && p in View() && 0 <= n <= |View()[p]|
      requires if q == NULL then forall t :: t in arena.heads ==> n <= t else q in View() && q != p && n <= |View()[q]|
      modifies this`mem
      ensures Coupled() && Inv(arena)
      ensures q == NULL ==> View() == old(View())
      ensures q != NULL ==>
        View() == old(View())[q := old(View())[p][..n] + old(View())[q][n..]]
    {
      hide Good, Holds, Contents, Copied;
      CopyRanges(arena, mem, q, p, n);
      var r := Memcpy(mem, q, p, n);
      if q == NULL {
        CopyBelow(arena, mem, r, p, n);
      } else {
        ContentsCopy(arena, mem, r, q, p, n);
      }
      mem := r;
    }

    /** `realloc` once the old block is known to exist and the new size not to be zero. */
    method Move(p: int, size: int, base: int) returns (q: int, told: Spec.Release, ghost junk: Header)
      requires Valid() && p in View() && 0 < size && size + HEADER < MOD32 && Spec.MayAnswer(arena, size, base)
      requires NoRoom(arena, size) && base == NULL ==> NoTagBelow(arena, |View()[p]|, size)
      modifies this, freePages, completePages
      ensures Valid() && Spec.IsLive(old(arena), p)
      ensures (arena, q, told) == LiveBlocks.Realloc(old(arena), p, size, base, junk)
      ensures q == NULL <==> NoRoom(old(arena), size) && base == NULL
      ensures q == NULL ==> View() == old(View()) - {p}
      ensures q != NULL ==> Moved(old(View()), View(), p, q, size)
    {
      hide Links, Lists, Buckets, Coalesced, Counts, Fits, Holds, Blocks, Contents, Spec.Malloc, Spec.Free, HeaderAt,
        SameOutside, NoRoom, Moved;
      NullNotLive(arena, mem);
      LiveView(arena, mem, p);
      ViewSize(arena, mem, p);
      var realSize := HeaderAt(mem, p - HEADER).size;
      if realSize > size {
        realSize := size;
      }
      q, junk := Malloc(size, base);
      MallocBlocks(old(arena), size, base, junk);
      ghost var given := View();
      CopyBlock(q, p, realSize);
      LiveView(arena, mem, p);
      told := Free(p);
      if q != NULL {
        MoveView(old(View()), p, q, given[q], realSize);
      }
    }

    /** `realloc`. */
    method Realloc(p: int, size: int, base: int) returns (q: int, told: Spec.Release, ghost junk: Header)
      requires Valid() && (p == NULL || p in View())
      requires 0 <= size && size + HEADER < MOD32 && Spec.MayAnswer(arena, size, base)
      requires p != NULL && NoRoom(arena, size) && base == NULL ==> NoTagBelow(arena, |View()[p]|, size)
      modifies this, freePages, completePages
      ensures Valid() && (p == NULL || Spec.IsLive(old(arena), p))
      ensures (arena, q, told) == LiveBlocks.Realloc(old(arena), p, size, base, junk)
      ensures size == 0 ==> q == NULL && View() == old(View()) - {p}
      ensures size != 0 ==> (q == NULL <==> NoRoom(old(arena), size) && base == NULL)
      ensures size != 0 && q == NULL ==> View() == old(View()) - {p}
      ensures q != NULL ==> Moved(old(View()), View(), p, q, size)
    {
      hide Links, Lists, Buckets, Coalesced, Counts, Fits, Holds, Blocks, Contents, Spec.Malloc, Spec.Free, HeaderAt,
        SameOutside, NoRoom;
      NullNotLive(arena, mem);
      LiveView(arena, mem, p);
      junk := Header(0, 0, 0, 0, 0, 0, 0, 0);
      if size == 0 {
        told := Free(p);
        return NULL, told, junk;
      }
      if p == NULL {
        q, junk := Malloc(size, base);
        told := Spec.Kept;
        return;
      }
      q, told, junk := Move(p, size, base);
    }
  }

  /** No tag lies in the bytes that copying the shorter of two blocks to null would overwrite. */
  ghost predicate NoTagBelow(s: Arena, k: int, n: int) {
    forall t :: t in s.heads ==> k <= t || n <= t
  }

  /** The block at `p` is gone and a new one at `q` starts with what both have room for. */
  ghost predicate Moved(before: map<int, seq<Byte>>, after: map<int, seq<Byte>>, p: int, q: int, size: int) {
    && q !in before && q in after && |after[q]| == size && after == (before - {p})[q := after[q]]
    && (p in before ==> forall i :: 0 <= i < |before[p]| && i < size ==> after[q][i] == before[p][i])
  }

  lemma MoveView(v: map<int, seq<Byte>>, p: int, q: int, x: seq<Byte>, n: nat)
    requires p in v && q !in v && n <= |v[p]| && n <= |x| && (n == |v[p]| || n == |x|)
    ensures Moved(v, v[q := x][q := v[p][..n] + x[n..]] - {p}, p, q, |x|)
  {
    var y := v[p][..n] + x[n..];
    assert v[q := x][q := y] - {p} == (v - {p})[q := y];
  }

  function Overwrite(s: seq<Byte>, i: int, b: Byte): (r: seq<Byte>)
    requires 0 <= i < |s|
    ensures |r| == |s| && r[i] == b && forall k :: 0 <= k < |s| && k != i ==> r[k] == s[k]
  {
    s[i := b]
  }

  /** The header in front of a block records how many bytes its owner has. */
  lemma ViewSize(s: Arena, m: Memory, p: int)
    requires Inv(s) && Holds(m, s.heads) && Spec.IsLive(s, p)
    ensures p in Contents(s, m) && IsTagAddress(p - HEADER) && HeaderAt(m, p - HEADER).size == |Contents(s, m)[p]|
  {
    hide Good, Holds, HeaderAt, Blocks;
    BlockAt(s, p);
    HoldsAt(m, s.heads, p - HEADER);
    HeapTheorems.PayloadsApart(s, p);
  }

  lemma LiveView(s: Arena, m: Memory, p: int)
    ensures p in Contents(s, m) <==> Spec.IsLive(s, p)
  {
    BlockAt(s, p);
  }

  /** Null is not a block. */
  lemma NullNotLive(s: Arena, m: Memory)
    requires Links(s)
    ensures NULL !in Contents(s, m)
  {
    hide Links;
    BlockAt(s, NULL);
    if Spec.IsLive(s, NULL) {
      SpanBounded(s, -HEADER);
    }
  }

  lemma NothingOwned(m: Memory)
    ensures Contents(HeapRuns.Empty(), m) == map[]
  {
  }

  /** A block in use has a tag in front of it, with the magic word in place. */
  lemma FreeStart(s: Arena, m: Memory, p: int)
    requires Links(s) && Holds(m, s.heads) && Spec.IsLive(s, p)
    ensures U32(p - HEADER) == p - HEADER && IsTagAddress(p - HEADER) && HeaderAt(m, p - HEADER).magic == MAGIC
  {
    hide Links, Holds, HeaderAt;
    LinkedAt(s, p - HEADER);
    HoldsAt(m, s.heads, p - HEADER);
  }

  lemma MeltBounds(s: Arena, t: int)
    requires Links(s) && Lists(s) && t in s.heads && s.heads[t].left in s.heads
    ensures s.heads[t].left != t
    ensures 0 <= s.heads[s.heads[t].left].realSize + s.heads[t].realSize < MOD32
  {
    hide Links, Lists;
    LinkedAt(s, t);
    ListedAt(s, t);
  }

  lemma AbsorbBounds(s: Arena, t: int)
    requires Links(s) && Lists(s) && t in s.heads && s.heads[t].right in s.heads && s.heads[s.heads[t].right].index >= 0
    ensures var x := s.heads[t].right;
            && s.heads[x].left == t && x != t && s.heads[x].prev != x && s.heads[x].next != x && NULL !in s.heads
            && 0 <= s.heads[t].realSize + s.heads[x].realSize < MOD32
            && (s.heads[x].right != NULL ==> s.heads[x].right in s.heads)
  {
    hide Links, Lists;
    LinkedAt(s, t);
    ListedAt(s, t);
    ApartFromSelf(s, s.heads[t].right);
  }

  /** The headers `malloc` may write. */
  ghost function MallocFootprint(s: Arena, size: nat, base: int): set<int>
    requires Inv(s) && size + HEADER < MOD32 && Spec.MayAnswer(s, size, base)
  {
    if Spec.Candidate(s, size) == NULL && base == NULL then s.heads.Keys
    else
      var (s1, t) := Spec.Settle(s, size, base);
      s.heads.Keys + s1.heads.Keys
      + if Spec.Splits(s1.heads[t].realSize, size) then {SplitPoint(s1, t)} else {}
  }

  lemma FootprintBase(s: Arena, size: nat, base: int)
    requires Inv(s) && size + HEADER < MOD32 && Spec.MayAnswer(s, size, base)
    ensures s.heads.Keys <= MallocFootprint(s, size, base)
    ensures Spec.Candidate(s, size) == NULL && base != NULL ==> base in MallocFootprint(s, size, base)
  {
    hide Good, Spec.Candidate;
  }

  lemma FootprintSplit(s: Arena, size: nat, base: int)
    requires Inv(s) && size + HEADER < MOD32 && Spec.MayAnswer(s, size, base)
    requires Spec.Candidate(s, size) != NULL || base != NULL
    ensures var (s1, t) := Spec.Settle(s, size, base);
            && s1.heads.Keys <= MallocFootprint(s, size, base)
            && (Spec.Splits(s1.heads[t].realSize, size) ==> SplitPoint(s1, t) in MallocFootprint(s, size, base))
  {
    hide Good, Spec.Settle, Spec.Candidate, Spec.Splits;
  }

  /** Every header `malloc` writes is a tag before or after the call. */
  lemma FootprintEnd(s: Arena, size: nat, base: int, junk: Header)
    requires Inv(s) && size + HEADER < MOD32 && Spec.MayAnswer(s, size, base)
    ensures MallocFootprint(s, size, base) == s.heads.Keys + Spec.Malloc(s, size, base, junk).0.heads.Keys
  {
    hide Links, Lists, Buckets, Coalesced, Counts, Fits, Spec.Settle, Spec.Candidate, Spec.Trim, Spec.Splits, SameUse;
    if Spec.Candidate(s, size) != NULL || base != NULL {
      var (s1, t) := Spec.Settle(s, size, base);
      TrimUse(s1, t, junk);
    }
  }

  lemma ListedIfPresent(s: Arena, i: int)
    requires Lists(s) && 0 <= i < MAXEXP
    ensures |s.first| == MAXEXP
    ensures s.first[i] != NULL ==> s.first[i] in s.heads && s.heads[s.first[i]].index >= 0 && s.first[i] in s.rank
  {
    FirstAt(s, i);
    if s.first[i] != NULL {
      ListedAt(s, s.first[i]);
    }
  }

  /** One step of the search along a list. */
  lemma FirstFitStep(s: Arena, t: int, size: nat)
    requires Lists(s) && t in s.heads && s.heads[t].index >= 0
    ensures var x := s.heads[t].next;
            && t in s.rank
            && (x != NULL ==> x in s.heads && s.heads[x].index >= 0 && x in s.rank && s.rank[x] < s.rank[t])
            && (if Spec.RoomIn(s.heads[t], size) then Spec.FirstFit(s, t, size) == t
                else Spec.FirstFit(s, t, size) == Spec.FirstFit(s, x, size))
  {
    hide Lists;
    ListedAt(s, t);
  }

  lemma FirstFitEnd(s: Arena, size: nat)
    requires Lists(s)
    ensures Spec.FirstFit(s, NULL, size) == NULL
  {
    hide Lists;
  }

  /** A new region keeps clear of all tags. */
  lemma FreshSite(s: Arena, base: int, pages: int)
    requires Links(s) && ProviderMayReturn(s, base, pages)
    ensures Spaced(s.heads.Keys + {base}) && base !in s.heads
  {
    hide Links, Spaced;
    SpacedHeads(s);
    GrantFresh(s, base, pages);
    SpacedPlus(s.heads.Keys, base);
  }

  /** The conditions under which `Split` is defined. */
  ghost predicate SplitReady(s: Arena, t: int, junk: Header) {
    && Splittable(s, t) && 0 <= s.heads[t].size && s.heads[t].right != SplitPoint(s, t)
    && HEADER <= s.heads[t].realSize - HEADER - s.heads[t].size < MOD32
    && Listable(Cut(s, t, junk), SplitPoint(s, t), Bucket(s.heads[t].realSize - HEADER - s.heads[t].size))
  }

  ghost predicate SplitInto(s: Arena, r: Arena, t: int, junk: Header) {
    SplitReady(s, t, junk) && r == Split(s, t, junk)
  }

  lemma SplitIsReady(s: Arena, t: int, junk: Header)
    requires Good(s, {t}) && Spec.Roomy(s, t) && Alone(s, t) && 2 * HEADER <= s.heads[t].realSize - s.heads[t].size
    ensures SplitReady(s, t, junk) && Splittable(s, t)
    ensures var n, c := SplitPoint(s, t), Cut(s, t, junk);
            && n in c.heads && c.heads[n].realSize == s.heads[t].realSize - HEADER - s.heads[t].size
            && HEADER <= c.heads[n].realSize < MOD32 && |c.first| == MAXEXP
            && c.heads.Keys == s.heads.Keys + {n}
            && Listable(c, n, Bucket(c.heads[n].realSize))
            && Split(s, t, junk) == Insert(c, n, Bucket(c.heads[n].realSize))
  {
    hide Links, Lists, Buckets, Coalesced, Counts, Fits, Insert, Alone, Cut;
    SplitGood(s, t, junk);
    SplitSites(s, t);
    CutSizes(s, t, junk);
  }

  lemma CutSizes(s: Arena, t: int, junk: Header)
    requires Splittable(s, t) && s.heads[t].right != SplitPoint(s, t) && SplitPoint(s, t) != t
    ensures var n, r := SplitPoint(s, t), Cut(s, t, junk);
            n in r.heads && r.heads[n].realSize == s.heads[t].realSize - HEADER - s.heads[t].size
            && r.heads.Keys == s.heads.Keys + {n}
  {
  }

  /** The tag to be split leaves room for another header inside it, away from all others. */
  lemma SplitSites(s: Arena, t: int)
    requires Links(s) && Lists(s) && t in s.heads
    requires 0 <= s.heads[t].size && 2 * HEADER <= s.heads[t].realSize - s.heads[t].size
    ensures Splittable(s, t) && SplitPoint(s, t) !in s.heads && Spaced(s.heads.Keys + {SplitPoint(s, t)})
    ensures s.heads[t].right != t && s.heads[t].right != SplitPoint(s, t)
  {
    hide Links, Lists, Spaced;
    LinkedAt(s, t);
    ListedAt(s, t);
    var n := SplitPoint(s, t);
    SpacedHeads(s);
    forall u | u in s.heads
      ensures u + HEADER <= n || n + HEADER <= u
    {
      HeapTheorems.SpansApart(s, t, u);
    }
    SpacedPlus(s.heads.Keys, n);
  }

  lemma SpacedPlus(tags: set<int>, n: int)
    requires Spaced(tags) && 0 < n && n + HEADER <= MOD32
    requires forall u :: u in tags ==> u + HEADER <= n || n + HEADER <= u
    ensures Spaced(tags + {n}) && n !in tags
  {
  }

  lemma SpacedHeads(s: Arena)
    requires Links(s)
    ensures Spaced(s.heads.Keys)
  {
    forall u | u in s.heads
      ensures 0 < u && u + HEADER <= MOD32 && HEADER <= s.heads[u].realSize
    {
      LinkedAt(s, u);
    }
  }

  lemma Again(heads: map<int, Header>, t: int, g: Header, h: Header)
    ensures heads[t := g][t := h] == heads[t := h]
  {
  }

  lemma RemoveKeeps(s: Arena, x: int, u: int)
    requires Removable(s, x) && u in s.heads
    ensures var g, h := Remove(s, x).heads[u], s.heads[u];
            g.realSize == h.realSize && g.left == h.left && g.right == h.right
  {
  }

  lemma ApartFromSelf(s: Arena, t: int)
    requires Lists(s) && t in s.heads && s.heads[t].index >= 0
    ensures s.heads[t].prev != t && s.heads[t].next != t
  {
    ListedAt(s, t);
  }
}
