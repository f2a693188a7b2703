/** Byte memory, little-endian words in it, and boundary-tag headers made of eight words. */
module Memory {
  import opened Machine
  import opened BoundaryTags

  type Byte = b: int | 0 <= b < 256

  /** The whole 32-bit address space. */
  type Memory = m: seq<Byte> | |m| == MOD32 ghost witness seq(MOD32, _ => 0)

  function Word(m: Memory, a: int): (w: int)
    requires 0 <= a && a + 4 <= MOD32
    ensures 0 <= w < MOD32
  {
    var b0: int, b1: int, b2: int, b3: int := m[a], m[a + 1], m[a + 2], m[a + 3];
    b0 + 0x100 * b1 + 0x1_0000 * b2 + 0x100_0000 * b3
  }

  function PutWord(m: Memory, a: int, v: int): (r: Memory)
    requires 0 <= a && a + 4 <= MOD32 && 0 <= v < MOD32
  {
    m[a := v % 0x100][a + 1 := v / 0x100 % 0x100][a + 2 := v / 0x1_0000 % 0x100][a + 3 := v / 0x100_0000]
  }

  lemma WordDigits(v: int)
    requires 0 <= v < MOD32
    ensures v % 0x100 + 0x100 * (v / 0x100 % 0x100) + 0x1_0000 * (v / 0x1_0000 % 0x100)
            + 0x100_0000 * (v / 0x100_0000) == v
  {
  }

  lemma PutWordReads(m: Memory, a: int, v: int)
    requires 0 <= a && a + 4 <= MOD32 && 0 <= v < MOD32
    ensures Word(PutWord(m, a, v), a) == v
  {
    WordDigits(v);
  }

  lemma PutWordElsewhere(m: Memory, a: int, v: int, b: int)
    requires 0 <= a && a + 4 <= MOD32 && 0 <= v < MOD32
    requires 0 <= b && (b + 4 <= a || a + 4 <= b <= MOD32 - 4)
    ensures Word(PutWord(m, a, v), b) == Word(m, b)
  {
  }

  // ---------------------------------------------------------------- headers

  datatype Field = Magic | Size | RealSize | Index | Left | Right | Next | Prev

  /** The layout of `struct boundary_tag`. */
  function Offset(f: Field): (o: int)
    ensures 0 <= o <= HEADER - 4 && o % 4 == 0
  {
    match f
    case Magic => 0
    case Size => 4
    case RealSize => 8
    case Index => 12
    case Left => 16
    case Right => 20
    case Next => 24
    case Prev => 28
  }

  predicate IsTagAddress(a: int) {
    0 <= a && a + HEADER <= MOD32
  }

  function HeaderAt(m: Memory, a: int): Header
    requires IsTagAddress(a)
  {
    Header(Word(m, a), Word(m, a + 4), Word(m, a + 8), Signed32(Word(m, a + 12)),
           Word(m, a + 16), Word(m, a + 20), Word(m, a + 24), Word(m, a + 28))
  }

  predicate Storable(f: Field, v: int) {
    if f == Index then -HALF32 <= v < HALF32 else 0 <= v < MOD32
  }

  function With(h: Header, f: Field, v: int): Header {
    match f
    case Magic => h.(magic := v)
    case Size => h.(size := v)
    case RealSize => h.(realSize := v)
    case Index => h.(index := v)
    case Left => h.(left := v)
    case Right => h.(right := v)
    case Next => h.(next := v)
    case Prev => h.(prev := v)
  }

  function Put(m: Memory, a: int, f: Field, v: int): Memory
    requires IsTagAddress(a) && Storable(f, v)
  {
    PutWord(m, a + Offset(f), U32(v))
  }

  /** Outside the headers at `tags` the two memories hold the same bytes. */
  ghost predicate SameOutside(m: Memory, n: Memory, tags: set<int>) {
    forall i :: 0 <= i < MOD32 && (forall t :: t in tags ==> i < t || t + HEADER <= i) ==> m[i] == n[i]
  }

  /** Storing one field changes that field of that header and nothing outside the header. */
  lemma PutField(m: Memory, a: int, f: Field, v: int)
    requires IsTagAddress(a) && Storable(f, v)
    ensures HeaderAt(Put(m, a, f, v), a) == With(HeaderAt(m, a), f, v)
    ensures forall i :: 0 <= i < MOD32 && !(a <= i < a + HEADER) ==> Put(m, a, f, v)[i] == m[i]
  {
    hide Put, HeaderAt, With;
    PutInside(m, a, f, v);
    PutReads(m, a, f, v);
  }

  lemma PutReads(m: Memory, a: int, f: Field, v: int)
    requires IsTagAddress(a) && Storable(f, v)
    ensures HeaderAt(Put(m, a, f, v), a) == With(HeaderAt(m, a), f, v)
  {
    hide Word, PutWord;
    PutWordReads(m, a + Offset(f), U32(v));
    forall g: Field | g != f
      ensures Word(Put(m, a, f, v), a + Offset(g)) == Word(m, a + Offset(g))
    {
      PutWordElsewhere(m, a + Offset(f), U32(v), a + Offset(g));
    }
    HeaderWords(m, a);
    HeaderWords(Put(m, a, f, v), a);
  }

  lemma PutInside(m: Memory, a: int, f: Field, v: int)
    requires IsTagAddress(a) && Storable(f, v)
    ensures forall i :: 0 <= i < MOD32 && !(a <= i < a + HEADER) ==> Put(m, a, f, v)[i] == m[i]
  {
  }

  /** A header is read field by field. */
  lemma HeaderWords(m: Memory, a: int)
    requires IsTagAddress(a)
    ensures HeaderAt(m, a) ==
      Header(Word(m, a + Offset(Magic)), Word(m, a + Offset(Size)), Word(m, a + Offset(RealSize)),
             Signed32(Word(m, a + Offset(Index))), Word(m, a + Offset(Left)), Word(m, a + Offset(Right)),
             Word(m, a + Offset(Next)), Word(m, a + Offset(Prev)))
  {
    hide Word;
  }

  lemma PutElsewhere(m: Memory, a: int, f: Field, v: int, b: int)
    requires IsTagAddress(a) && IsTagAddress(b) && Storable(f, v)
    requires b + HEADER <= a || a + HEADER <= b
    ensures HeaderAt(Put(m, a, f, v), b) == HeaderAt(m, b)
  {
    hide Word, PutWord;
    forall g: Field
      ensures Word(Put(m, a, f, v), b + Offset(g)) == Word(m, b + Offset(g))
    {
      PutWordElsewhere(m, a + Offset(f), U32(v), b + Offset(g));
    }
    HeaderWords(m, b);
    HeaderWords(Put(m, a, f, v), b);
  }

  /** Headers keep clear of one another. */
  ghost predicate Spaced(tags: set<int>) {
    && (forall t :: t in tags ==> 0 < t && IsTagAddress(t))
    && (forall t, u :: t in tags && u in tags && t < u ==> t + HEADER <= u)
  }

  lemma SpacedAt(tags: set<int>, t: int)
    requires Spaced(tags) && t in tags
    ensures 0 < t && IsTagAddress(t)
  {
  }

  /** Memory holds every one of these headers. */
  ghost predicate Holds(m: Memory, heads: map<int, Header>) {
    Spaced(heads.Keys) && forall t :: t in heads ==> HeaderAt(m, t) == heads[t]
  }

  lemma PutHolds(m: Memory, heads: map<int, Header>, a: int, f: Field, v: int)
    requires Holds(m, heads) && a in heads && Storable(f, v)
    ensures Holds(Put(m, a, f, v), heads[a := With(heads[a], f, v)])
  {
    var n, heads' := Put(m, a, f, v), heads[a := With(heads[a], f, v)];
    assert heads'.Keys == heads.Keys;
    forall t | t in heads'
      ensures HeaderAt(n, t) == heads'[t]
    {
      if t == a {
        PutField(m, a, f, v);
      } else {
        PutElsewhere(m, a, f, v, t);
      }
    }
  }

  lemma PutOutside(m: Memory, n: Memory, tags: set<int>, a: int, f: Field, v: int)
    requires SameOutside(m, n, tags) && a in tags && IsTagAddress(a) && Storable(f, v)
    ensures SameOutside(m, Put(n, a, f, v), tags)
  {
  }

  /** The pointers and sizes of a header read from memory are 32-bit numbers. */
  predicate InWords(h: Header) {
    && 0 <= h.size < MOD32 && 0 <= h.realSize < MOD32 && 0 <= h.left < MOD32 && 0 <= h.right < MOD32
    && 0 <= h.next < MOD32 && 0 <= h.prev < MOD32
  }

  lemma HoldsAt(m: Memory, heads: map<int, Header>, t: int)
    requires Holds(m, heads) && t in heads
    ensures 0 < t && IsTagAddress(t) && HeaderAt(m, t) == heads[t] && InWords(heads[t])
  {
  }

  lemma SameOutsideSelf(m: Memory, tags: set<int>)
    ensures SameOutside(m, m, tags)
  {
  }

  // ---------------------------------------------------------------- copying

  /** Memory after a bytewise copy of `n` bytes. */
  ghost predicate Copied(m: Memory, r: Memory, dest: int, src: int, n: int)
    requires 0 <= dest && 0 <= src && 0 <= n && dest + n <= MOD32 && src + n <= MOD32
  {
    && (forall i :: 0 <= i < MOD32 && !(dest <= i < dest + n) ==> r[i] == m[i])
    && (forall i :: dest <= i < dest + n ==> r[i] == m[src + (i - dest)])
  }

  /** Moving one word moves its four bytes. */
  lemma WordCopy(m: Memory, dest: int, src: int)
    requires 0 <= dest && 0 <= src && dest + 4 <= MOD32 && src + 4 <= MOD32
    ensures PutWord(m, dest, Word(m, src))
            == m[dest := m[src]][dest + 1 := m[src + 1]][dest + 2 := m[src + 2]][dest + 3 := m[src + 3]]
  {
    var b0: int, b1: int, b2: int, b3: int := m[src], m[src + 1], m[src + 2], m[src + 3];
    var v := Word(m, src);
    assert v % 0x100 == b0;
    assert v / 0x100 == b1 + 0x100 * b2 + 0x1_0000 * b3;
    assert v / 0x1_0000 == b2 + 0x100 * b3;
    assert v / 0x100_0000 == b3;
  }

  /** `liballoc_memcpy`: words first, then the bytes that are left. */
  method Memcpy(m: Memory, s1: int, s2: int, size: int) returns (r: Memory)
    requires 0 <= s1 && 0 <= s2 && 0 <= size && s1 + size <= MOD32 && s2 + size <= MOD32
    requires s1 + size <= s2 || s2 + size <= s1
    ensures Copied(m, r, s1, s2, size)
  {
    r := m;
    var n, dest, src := size, s1, s2;
    while n >= 4
      invariant 0 <= n <= size && dest == s1 + (size - n) && src == s2 + (size - n)
      invariant Copied(m, r, s1, s2, size - n)
    {
      WordCopy(r, dest, src);
      r := PutWord(r, dest, Word(r, src));
      dest, src, n := dest + 4, src + 4, n - 4;
    }
    while n > 0
      invariant 0 <= n <= size && dest == s1 + (size - n) && src == s2 + (size - n)
      invariant Copied(m, r, s1, s2, size - n)
    {
      r := r[dest := r[src]];
      dest, src, n := dest + 1, src + 1, n - 1;
    }
  }

  /** Writing where no header lies keeps all headers. */
  lemma HoldsElsewhere(m: Memory, n: Memory, heads: map<int, Header>, lo: int, hi: int)
    requires Holds(m, heads)
    requires forall i :: 0 <= i < MOD32 && !(lo <= i < hi) ==> n[i] == m[i]
    requires forall t :: t in heads ==> t + HEADER <= lo || hi <= t
    ensures Holds(n, heads)
  {
    forall t | t in heads
      ensures HeaderAt(n, t) == heads[t]
    {
      assert forall i :: t <= i < t + HEADER ==> n[i] == m[i];
    }
  }
}
