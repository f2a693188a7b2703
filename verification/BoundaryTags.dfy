/**
 The data of the allocator as values: one header per boundary tag, the heads of the 32 free
 lists and the cached counts of whole free regions.

 `regions`, `owner` and `rank` are bookkeeping of the specification. `regions` maps the base of
 each region held from the page provider to its number of pages, `owner` maps each tag to the
 base of its region, and `rank` decreases along every free list.
 */
module BoundaryTags {
  import opened Machine
  import opened Exponent

  const HEADER := 32
  const MAGIC := 0xc001_c0de
  const MAXCOMPLETE := 5
  const NULL := 0

  datatype Header = Header(magic: int, size: int, realSize: int, index: int,
                           left: int, right: int, next: int, prev: int)

  datatype Arena = Arena(heads: map<int, Header>, first: seq<int>, complete: seq<int>,
                         regions: map<int, int>, owner: map<int, int>, rank: map<int, nat>)

  // ---------------------------------------------------------------- the six invariants

  ghost function End(s: Arena, b: int): int
    requires b in s.regions
  {
    b + PAGE * s.regions[b]
  }

  /** A tag and its split neighbours tile their region without gap or overlap. */
  ghost predicate TagLinked(s: Arena, t: int)
    requires t in s.heads && t in s.owner
  {
    var h, b := s.heads[t], s.owner[t];
    && b in s.regions
    && h.magic == MAGIC
    && HEADER <= h.realSize
    && b <= t && t + h.realSize <= End(s, b)
    && (h.left == NULL <==> t == b)
    && (h.right == NULL <==> t + h.realSize == End(s, b))
    && (h.left != NULL ==>
          h.left in s.heads && h.left in s.owner && s.heads[h.left].right == t && s.owner[h.left] == b)
    && (h.right != NULL ==>
          && h.right in s.heads && h.right in s.owner
          && h.right == t + h.realSize && s.heads[h.right].left == t && s.owner[h.right] == b)
  }

  ghost predicate RegionOk(s: Arena, b: int)
    requires b in s.regions
  {
    && 0 < b && 0 < s.regions[b] && End(s, b) <= MOD32
    && b in s.heads && b in s.owner && s.owner[b] == b
  }

  ghost predicate Separate(heads: map<int, Header>) {
    forall t, u :: t in heads && u in heads && t < u ==> t + heads[t].realSize <= u
  }

  ghost predicate Links(s: Arena) {
    && s.owner.Keys == s.heads.Keys
    && (forall b :: b in s.regions ==> RegionOk(s, b))
    && (forall b, c :: b in s.regions && c in s.regions && b < c ==> End(s, b) <= c)
    && (forall t :: t in s.heads ==> TagLinked(s, t))
    && Separate(s.heads)
  }

  /** A tag is either in use, with no list links, or linked into the list of its index. */
  ghost predicate TagListed(s: Arena, t: int)
    requires t in s.heads && |s.first| == MAXEXP
  {
    var h := s.heads[t];
    && (h.index == -1 || MINEXP <= h.index < MAXEXP)
    && (h.index == -1 ==> h.next == NULL && h.prev == NULL)
    && (h.index >= 0 ==>
          && t in s.rank
          && (h.next != NULL ==>
                && h.next in s.heads && s.heads[h.next].index == h.index && s.heads[h.next].prev == t
                && h.next in s.rank && s.rank[h.next] < s.rank[t])
          && (h.prev != NULL ==>
                h.prev in s.heads && s.heads[h.prev].index == h.index && s.heads[h.prev].next == t)
          && (h.prev == NULL ==> s.first[h.index] == t))
  }

  ghost predicate FirstOk(s: Arena, i: int)
    requires 0 <= i < |s.first|
  {
    var t := s.first[i];
    t != NULL ==> t in s.heads && s.heads[t].index == i && s.heads[t].prev == NULL
  }

  ghost predicate Lists(s: Arena) {
    && |s.first| == MAXEXP
    && NULL !in s.heads
    && (forall i :: 0 <= i < MAXEXP ==> FirstOk(s, i))
    && (forall t :: t in s.heads ==> TagListed(s, t))
  }

  /** A free tag sits in the bucket of its size. `hot` tags are being worked on and exempt. */
  ghost predicate Buckets(s: Arena, hot: set<int>) {
    forall t :: t in s.heads && t !in hot && s.heads[t].index >= 0 ==>
      HEADER <= s.heads[t].realSize < MOD32 && s.heads[t].index == Bucket(s.heads[t].realSize)
  }

  /** No two split neighbours are both free. */
  ghost predicate Coalesced(s: Arena, hot: set<int>) {
    forall t :: t in s.heads && t !in hot && s.heads[t].index >= 0 ==>
      var r := s.heads[t].right;
      r in s.heads && r !in hot ==> s.heads[r].index == -1
  }

  predicate Whole(h: Header) {
    h.left == NULL && h.right == NULL
  }

  ghost predicate Counted(s: Arena, t: int, i: int, hot: set<int>) {
    t in s.heads && t !in hot && s.heads[t].index == i && Whole(s.heads[t])
  }

  /** The free tags of bucket `i` that cover a whole region. */
  ghost function WholeFree(s: Arena, i: int, hot: set<int>): set<int> {
    set t | t in s.heads && Counted(s, t, i, hot)
  }

  ghost predicate Counts(s: Arena, hot: set<int>) {
    && |s.complete| == MAXEXP
    && forall i :: 0 <= i < MAXEXP ==>
         s.complete[i] == |WholeFree(s, i, hot)| && s.complete[i] <= MAXCOMPLETE
  }

  /** A block in use holds its requested bytes and wastes less than a splittable remainder. */
  ghost predicate Fits(s: Arena, hot: set<int>) {
    forall t :: t in s.heads && t !in hot && s.heads[t].index == -1 ==>
      0 <= s.heads[t].size && 0 <= s.heads[t].realSize - HEADER - s.heads[t].size < HEADER + 256
  }

  ghost predicate Good(s: Arena, hot: set<int>) {
    Links(s) && Lists(s) && Buckets(s, hot) && Coalesced(s, hot) && Counts(s, hot) && Fits(s, hot)
  }

  /** What holds between any two calls. */
  ghost predicate Inv(s: Arena) {
    Good(s, {})
  }

  // ---------------------------------------------------------------- the list operations

  predicate Listable(s: Arena, t: int, i: int) {
    t in s.heads && |s.first| == MAXEXP && 0 <= i < MAXEXP && (s.first[i] != NULL ==> s.first[i] in s.heads)
  }

  /** `insert_tag` with the bucket already chosen. */
  function Insert(s: Arena, t: int, i: int): (r: Arena)
    requires Listable(s, t, i)
    ensures r.heads.Keys == s.heads.Keys
  {
    var f := s.first[i];
    var m := s.heads[t := s.heads[t].(index := i)];
    var m1 := if f != NULL then m[f := m[f].(prev := t)] else m;
    var m2 := if f != NULL then m1[t := m1[t].(next := f)] else m1;
    s.(heads := m2, first := s.first[i := t],
       rank := s.rank[t := if f in s.rank then s.rank[f] + 1 else 0])
  }

  predicate Removable(s: Arena, t: int) {
    && t in s.heads && |s.first| == MAXEXP && 0 <= s.heads[t].index < MAXEXP
    && (s.heads[t].prev != NULL ==> s.heads[t].prev in s.heads)
    && (s.heads[t].next != NULL ==> s.heads[t].next in s.heads)
  }

  /** `remove_tag`. */
  function Remove(s: Arena, t: int): (r: Arena)
    requires Removable(s, t)
    ensures r.heads.Keys == s.heads.Keys
  {
    var h := s.heads[t];
    var first := if s.first[h.index] == t then s.first[h.index := h.next] else s.first;
    var m1 := if h.prev != NULL then s.heads[h.prev := s.heads[h.prev].(next := h.next)] else s.heads;
    var m2 := if h.next != NULL then m1[h.next := m1[h.next].(prev := h.prev)] else m1;
    s.(first := first, heads := m2[t := m2[t].(next := NULL, prev := NULL, index := -1)])
  }

  // ---------------------------------------------------------------- the split operations

  predicate Meltable(s: Arena, t: int) {
    && t in s.heads && s.heads[t].left in s.heads
    && (s.heads[t].right != NULL ==> s.heads[t].right in s.heads)
  }

  /** `melt_left`, and `absorb_right` seen from the right: the tag is swallowed by its left neighbour. */
  function MeltLeft(s: Arena, t: int): (r: Arena)
    requires Meltable(s, t)
    ensures r.heads.Keys == s.heads.Keys - {t}
  {
    var h := s.heads[t];
    var l := h.left;
    var m := s.heads[l := s.heads[l].(realSize := s.heads[l].realSize + h.realSize, right := h.right)];
    var m1 := if h.right != NULL then m[h.right := m[h.right].(left := l)] else m;
    s.(heads := m1 - {t}, owner := s.owner - {t})
  }

  /** The address `split_tag` puts the new header at. */
  function SplitPoint(s: Arena, t: int): int
    requires t in s.heads
  {
    t + HEADER + s.heads[t].size
  }

  predicate Splittable(s: Arena, t: int) {
    && t in s.heads && t in s.owner
    && (s.heads[t].right != NULL ==> s.heads[t].right in s.heads)
  }

  /** `split_tag` up to its call of `insert_tag`. `junk` is what memory held at the new header. */
  function Cut(s: Arena, t: int, junk: Header): (r: Arena)
    requires Splittable(s, t)
    ensures r.heads.Keys == s.heads.Keys + {SplitPoint(s, t)}
  {
    var h := s.heads[t];
    var n := SplitPoint(s, t);
    var rest := junk.(magic := MAGIC, realSize := h.realSize - HEADER - h.size, next := NULL, prev := NULL,
                      left := t, right := h.right);
    var m := s.heads[n := rest];
    var m1 := if h.right != NULL then m[h.right := s.heads[h.right].(left := n)] else m;
    s.(heads := m1[t := h.(right := n, realSize := HEADER + h.size)], owner := s.owner[n := s.owner[t]])
  }
}
