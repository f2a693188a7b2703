/**
 Two-level page tables in physical memory (`paging.c` before paging is switched on). A frame is
 1024 words. A word is a frame number times 4096 plus twelve flag bits, of which the lowest says
 "present".
 */
module Paging {
  import opened Machine
  import opened Options
  import opened FrameBitmap

  const ENTRIES := 1024
  /** Pages in the 32-bit address space. */
  const PAGES := 0x10_0000

  predicate Present(w: int) {
    w % 2 == 1
  }

  /** `PHY_GET`, as a frame number. */
  function FrameOf(w: int): int {
    w / PAGE
  }

  /** The bitwise or of a page-aligned address, flags below 0x1000 and the present bit. */
  function PresentWord(addr: int, flags: int): (w: int)
    requires addr % PAGE == 0 && 0 <= flags < PAGE
    ensures Present(w) && FrameOf(w) == addr / PAGE && WordHas(w, addr / PAGE, flags)
  {
    addr + flags + (1 - flags % 2)
  }

  /** A word names a frame and carries the flags, the present bit being set. */
  ghost predicate WordHas(w: int, frame: int, flags: int) {
    w / 4096 == frame && w % 4096 == if flags % 2 == 1 then flags else flags + 1
  }

  /** The writable and the user bit of the word are those of the flags. */
  lemma WordBits(w: int, frame: int, flags: nat)
    requires WordHas(w, frame, flags) && flags < 4096
    ensures w % 2 == 1 && w / 2 % 2 == flags / 2 % 2 && w / 4 % 2 == flags / 4 % 2
  {
    LowBits(w / 4096, w % 4096);
    LowBits(0, flags);
  }

  /** The three lowest bits of a word are those of its flags. */
  lemma LowBits(q: int, low: nat)
    ensures var w := 4096 * q + low;
            w % 2 == low % 2 && w / 2 % 2 == low / 2 % 2 && w / 4 % 2 == low / 4 % 2
  {
    var w := 4096 * q + low;
    EvenPart(2048 * q, low);
    assert w / 2 == 2048 * q + low / 2;
    EvenPart(1024 * q, low / 2);
    assert w / 2 / 2 == 1024 * q + low / 2 / 2;
    EvenPart(512 * q, low / 2 / 2);
    assert w / 4 == w / 2 / 2 && low / 4 == low / 2 / 2;
  }

  lemma EvenPart(m: int, x: nat)
    ensures (2 * m + x) / 2 == m + x / 2 && (2 * m + x) % 2 == x % 2
  {
  }

  class AddressSpace {
    const ram: array2<int>
    const frames: FrameAllocator

    constructor (size: nat)
      requires size <= MAXFRAMES
      ensures Wf() && fresh(ram) && fresh(frames) && fresh(frames.bitmap) && fresh(frames.bitmap.entries)
      ensures frames.bitmap.entries[..] == seq(size, _ => FREE)
    {
      ram := new int[size, ENTRIES]((i, j) => 0);
      frames := new FrameAllocator(size);
    }

    ghost predicate Wf() {
      ram.Length1 == ENTRIES && frames.bitmap.entries.Length == ram.Length0 <= MAXFRAMES
    }

    function Used(): seq<int>
      reads frames.bitmap.entries
    {
      frames.bitmap.entries[..]
    }

    /** The directory is in a used frame, and its present entries name distinct used frames. */
    ghost predicate Mapped(pd: int)
      reads ram, frames.bitmap.entries
    {
      && Wf() && 0 < pd < ram.Length0 && frames.bitmap.entries[pd] != FREE
      && (forall d :: 0 <= d < ENTRIES && Present(ram[pd, d]) ==>
            var f := FrameOf(ram[pd, d]);
            0 < f < ram.Length0 && f != pd && frames.bitmap.entries[f] != FREE)
      && (forall d, e :: 0 <= d < e < ENTRIES && Present(ram[pd, d]) && Present(ram[pd, e]) ==>
            FrameOf(ram[pd, d]) != FrameOf(ram[pd, e]))
    }

    /** The two-level walk: the frame that virtual page `v` maps to. */
    ghost function Translate(pd: int, v: int): Option<int>
      requires Mapped(pd) && 0 <= v < PAGES
      reads ram, frames.bitmap.entries
    {
      var entry := ram[pd, v / ENTRIES];
      if !Present(entry) then None
      else
        var w := ram[FrameOf(entry), v % ENTRIES];
        if Present(w) then Some(FrameOf(w)) else None
    }

    /** `table_create` before paging is on: an identity map of the lowest 4 MiB, whatever the slot. */
    method TableCreate() returns (table: nat)
      requires Wf() && SomeFree(Used()) && Used()[0] != FREE
      modifies ram, frames.bitmap.entries
      ensures var f := LowestFree(old(Used()), 0);
              && table == PAGE * f && f != 0 && Used() == old(Used())[f := USED]
              && forall g, i :: 0 <= g < ram.Length0 && 0 <= i < ENTRIES ==>
                   ram[g, i] == if g == f then i * PAGE + 3 else old(ram[g, i])
    {
      var frame := frames.FrameAlloc();
      table := frame.value;
      var f := table / PAGE;
      // Frame 0 is reserved, so the null test of the source never fires.
      assert f == LowestFree(old(Used()), 0) && table != 0;
      var i := 0;
      while i < ENTRIES
        invariant 0 <= i <= ENTRIES && Used() == old(Used())[f := USED]
        invariant forall g, k :: 0 <= g < ram.Length0 && 0 <= k < ENTRIES ==>
          ram[g, k] == if g == f && k < i then k * PAGE + 3 else old(ram[g, k])
      {
        ram[f, i] := PresentWord(i * PAGE, 3);
        i := i + 1;
      }
    }

    /** `table_map`: enter a table into a directory. */
    method TableMap(pd: nat, pdindex: nat, table: nat, flags: nat)
      requires Wf() && pd < ram.Length0 && pdindex < ENTRIES && table % PAGE == 0 && flags < PAGE
      modifies ram
      ensures ram[pd, pdindex] == table + flags && FrameOf(ram[pd, pdindex]) == table / PAGE
      ensures Present(ram[pd, pdindex]) <==> flags % 2 == 1
      ensures forall f, i :: 0 <= f < ram.Length0 && 0 <= i < ENTRIES && (f != pd || i != pdindex) ==>
        ram[f, i] == old(ram[f, i])
    {
      ram[pd, pdindex] := table + flags;
    }

    /** The part of `page_map` that makes sure the slot of the page has a table. */
    method EnsureTable(pd: nat, d: nat)
      requires Mapped(pd) && Used()[0] != FREE && d < ENTRIES
      requires !Present(ram[pd, d]) ==> SomeFree(Used())
      modifies ram, frames.bitmap.entries
      ensures Mapped(pd) && Present(ram[pd, d])
      ensures forall e :: 0 <= e < ENTRIES && e != d ==> ram[pd, e] == old(ram[pd, e])
      ensures old(Present(ram[pd, d])) ==> unchanged(ram) && unchanged(frames.bitmap.entries)
      ensures old(!Present(ram[pd, d])) ==>
        var f := LowestFree(old(Used()), 0);
        && ram[pd, d] == 4096 * f + 3 && Used() == old(Used())[f := USED]
        && (forall i :: 0 <= i < ENTRIES ==> ram[f, i] == 4096 * i + 3)
        && (forall g, i :: 0 <= g < ram.Length0 && 0 <= i < ENTRIES && g != pd && g != f ==>
              ram[g, i] == old(ram[g, i]))
        && forall v :: 0 <= v < PAGES ==>
             Translate(pd, v) == if v / ENTRIES == d then Some(v % ENTRIES) else old(Translate(pd, v))
    {
      if !Present(ram[pd, d]) {
        var table := TableCreate();
        TableMap(pd, d, table, 3);
      }
    }

    /** The store into the table of a present slot. */
    method SetPage(pd: nat, d: nat, t: nat, w: int)
      requires Mapped(pd) && d < ENTRIES && t < ENTRIES && Present(ram[pd, d])
      modifies ram
      ensures Mapped(pd)
      ensures ram[pd, d] == old(ram[pd, d]) && ram[FrameOf(ram[pd, d]), t] == w
      ensures forall g, i :: 0 <= g < ram.Length0 && 0 <= i < ENTRIES ==>
        (g != FrameOf(ram[pd, d]) || i != t ==> ram[g, i] == old(ram[g, i]))
      ensures forall v :: 0 <= v < PAGES ==>
        Translate(pd, v) ==
        if v == d * ENTRIES + t then (if Present(w) then Some(FrameOf(w)) else None) else old(Translate(pd, v))
    {
      ram[FrameOf(ram[pd, d]), t] := w;
      forall v | 0 <= v < PAGES && v != d * ENTRIES + t
        ensures Translate(pd, v) == old(Translate(pd, v))
      {
        assert v / ENTRIES != d || v % ENTRIES != t;
      }
    }

    /** What `page_map` makes of virtual page `v`. */
    static function Remapped(before: Option<int>, had: bool, v: int, va: int, pa: int): Option<int> {
      if v == va then Some(pa)
      else if v / ENTRIES == va / ENTRIES && !had then Some(v % ENTRIES)
      else before
    }

    /**
     Page `va` has been mapped to frame `pa` with these flags, and nothing else has changed but what a
     new table brings.
     */
    twostate predicate PageSet(pd: int, va: int, pa: int, flags: int)
      requires old(Mapped(pd)) && Mapped(pd) && 0 <= va < PAGES
      requires old(Present(ram[pd, va / ENTRIES])) || SomeFree(old(Used()))
      reads ram, frames.bitmap.entries
    {
      var d := va / ENTRIES;
      var had, f := old(Present(ram[pd, d])), FrameOf(ram[pd, d]);
      && Present(ram[pd, d]) && WordHas(ram[f, va % ENTRIES], pa, flags)
      && (forall v :: 0 <= v < PAGES ==> Translate(pd, v) == Remapped(old(Translate(pd, v)), had, v, va, pa))
      && (forall e :: 0 <= e < ENTRIES && e != d ==> ram[pd, e] == old(ram[pd, e]))
      && (forall g, i :: 0 <= g < ram.Length0 && 0 <= i < ENTRIES && g != pd && g != f ==>
            ram[g, i] == old(ram[g, i]))
      && (had ==>
            && ram[pd, d] == old(ram[pd, d]) && Used() == old(Used())
            && forall i :: 0 <= i < ENTRIES && i != va % ENTRIES ==> ram[f, i] == old(ram[f, i]))
      && (!had ==>
            && f == LowestFree(old(Used()), 0) && Used() == old(Used())[f := USED] && ram[pd, d] == 4096 * f + 3
            && forall i :: 0 <= i < ENTRIES && i != va % ENTRIES ==> ram[f, i] == 4096 * i + 3)
    }

    /** `page_map` before paging is on, in the directory at frame `pd`. */
    method PageMap(physaddr: nat, virtualaddr: nat, flags: nat, pd: nat) returns (r: nat)
      requires Mapped(pd) && Used()[0] != FREE
      requires physaddr < MOD32 && virtualaddr < MOD32 && flags < PAGE
      requires !Present(ram[pd, virtualaddr / PAGE / ENTRIES]) ==> SomeFree(Used())
      modifies ram, frames.bitmap.entries
      ensures Mapped(pd)
      ensures virtualaddr % PAGE != 0 || physaddr % PAGE != 0 ==>
        r == 0 && unchanged(ram) && unchanged(frames.bitmap.entries)
      ensures virtualaddr % PAGE == 0 && physaddr % PAGE == 0 ==>
        r == virtualaddr && PageSet(pd, virtualaddr / PAGE, physaddr / PAGE, flags)
    {
      if virtualaddr % PAGE != 0 || physaddr % PAGE != 0 {
        return 0;
      }
      var pdindex := (virtualaddr / 0x40_0000) % 0x400;
      var ptindex := (virtualaddr / 0x1000) % 0x400;
      assert pdindex == virtualaddr / PAGE / ENTRIES && virtualaddr / PAGE == pdindex * ENTRIES + ptindex;
      EnsureTable(pd, pdindex);
      SetPage(pd, pdindex, ptindex, PresentWord(physaddr, flags));
      r := virtualaddr;
    }

    /** `page_unmap`. */
    method PageUnmap(virtualaddr: nat, pd: nat) returns (r: int)
      requires Mapped(pd) && virtualaddr < MOD32
      modifies ram
      ensures Mapped(pd)
      ensures virtualaddr % PAGE != 0 ==> r == 0 && unchanged(ram)
      ensures virtualaddr % PAGE == 0 ==>
        && r == 1
        && (forall v :: 0 <= v < PAGES ==>
              Translate(pd, v) == if v == virtualaddr / PAGE then None else old(Translate(pd, v)))
        && var entry, t := old(ram[pd, virtualaddr / PAGE / ENTRIES]), virtualaddr / PAGE % ENTRIES;
           && (Present(entry) ==> ram[FrameOf(entry), t] == 0)
           && forall g, i :: 0 <= g < ram.Length0 && 0 <= i < ENTRIES ==>
                (!(Present(entry) && g == FrameOf(entry) && i == t) ==> ram[g, i] == old(ram[g, i]))
    {
      if virtualaddr % PAGE != 0 {
        return 0;
      }
      var pdindex := (virtualaddr / 0x40_0000) % 0x400;
      var ptindex := (virtualaddr / 0x1000) % 0x400;
      assert pdindex == virtualaddr / PAGE / ENTRIES && virtualaddr / PAGE == pdindex * ENTRIES + ptindex;
      if !Present(ram[pd, pdindex]) {
        return 1;
      }
      SetPage(pd, pdindex, ptindex, 0);
      return 1;
    }

    /** `page_physaddr`: null stands for "not mapped", and also for frame 0. */
    method PagePhysaddr(virtualaddr: nat, pd: nat) returns (r: int)
      requires Mapped(pd) && virtualaddr < MOD32
      ensures virtualaddr % PAGE != 0 ==> r == 0
      ensures virtualaddr % PAGE == 0 ==>
        r == match Translate(pd, virtualaddr / PAGE) case None => 0 case Some(f) => f * PAGE
    {
      if virtualaddr % PAGE != 0 {
        return 0;
      }
      var pdindex := (virtualaddr / 0x40_0000) % 0x400;
      var ptindex := (virtualaddr / 0x1000) % 0x400;
      assert pdindex == virtualaddr / PAGE / ENTRIES && ptindex == virtualaddr / PAGE % ENTRIES;
      if !Present(ram[pd, pdindex]) {
        return 0;
      }
      var w := ram[FrameOf(ram[pd, pdindex]), ptindex];
      if !Present(w) {
        return 0;
      }
      r := FrameOf(w) * PAGE + virtualaddr % PAGE;
    }

    /** `directory_create`. */
    method DirectoryCreate(flags: int) returns (directory: nat)
      requires Wf() && SomeFree(Used()) && Used()[0] != FREE
      modifies ram, frames.bitmap.entries
      ensures var f := LowestFree(old(Used()), 0);
              && directory == PAGE * f && f != 0 && Used() == old(Used())[f := USED]
              && (!Present(flags) ==> Mapped(f))
              && forall g, i :: 0 <= g < ram.Length0 && 0 <= i < ENTRIES ==>
                   ram[g, i] == if g == f then flags else old(ram[g, i])
    {
      var frame := frames.FrameAlloc();
      directory := frame.value;
      var f := directory / PAGE;
      var i := 0;
      while i < ENTRIES
        invariant 0 <= i <= ENTRIES && Used() == old(Used())[f := USED]
        invariant forall g, k :: 0 <= g < ram.Length0 && 0 <= k < ENTRIES ==>
          ram[g, k] == if g == f && k < i then flags else old(ram[g, k])
      {
        ram[f, i] := flags;
        i := i + 1;
      }
    }

    /** The first `n` frames are used and the others free. */
    ghost predicate UsedBelow(n: int)
      reads frames.bitmap.entries
    {
      UsedUpTo(Used(), n)
    }

    lemma LowestIsNext(n: int)
      requires UsedBelow(n) && n < frames.bitmap.entries.Length
      ensures SomeFree(Used()) && LowestFree(Used(), 0) == n
    {
      assert Used()[n] == FREE;
      var f := LowestFree(Used(), 0);
      assert Used()[f] == FREE;
    }

    /** The first loop of `paging_initialize`: reserve what lies below the kernel pointer. */
    method ReserveKernel(kernelPointer: nat)
      requires Wf() && UsedBelow(0) && Pages(kernelPointer) < ram.Length0
      modifies frames.bitmap.entries
      ensures UsedBelow(Pages(kernelPointer))
    {
      var i := 0;
      while i < kernelPointer
        invariant i % PAGE == 0 && 0 <= i / PAGE <= Pages(kernelPointer)
        invariant UsedBelow(i / PAGE)
      {
        frames.FrameSet(i);
        assert (i + PAGE) / PAGE == i / PAGE + 1;
        i := U32(i + PAGE);
      }
    }

    /** The entries of a directory. */
    ghost function Directory(pd: int): (dir: seq<int>)
      requires Wf() && 0 <= pd < ram.Length0
      reads ram
      ensures |dir| == ENTRIES
    {
      seq(ENTRIES, d requires 0 <= d < ENTRIES reads ram => ram[pd, d])
    }

    /** The first `n` slots of the directory hold the tables right behind it, and no other slot does. */
    ghost predicate TablesBehind(pd: int, n: int)
      requires Wf() && 0 <= pd < ram.Length0
      reads ram
    {
      TablesIn(Directory(pd), pd, n)
    }

    /** The word of page `v` in its table. */
    ghost function Leaf(pd: int, v: int): int
      requires Mapped(pd) && 0 <= v < PAGES && Present(ram[pd, v / ENTRIES])
      reads ram, frames.bitmap.entries
    {
      ram[FrameOf(ram[pd, v / ENTRIES]), v % ENTRIES]
    }

    /** The first `n` pages map to themselves, writable, through tables right behind the directory. */
    ghost predicate IdentityBelow(pd: int, n: nat)
      reads ram, frames.bitmap.entries
    {
      Mapped(pd) && UsedBelow(pd + 1 + Slots(n)) && TablesBehind(pd, Slots(n)) && SelfMapped(pd, n)
    }

    ghost predicate SelfMapped(pd: int, n: nat)
      requires Mapped(pd)
      reads ram, frames.bitmap.entries
    {
      n <= PAGES && forall v :: 0 <= v < n ==>
        Translate(pd, v) == Some(v) && Present(ram[pd, v / ENTRIES]) && Leaf(pd, v) == 4096 * v + 3
    }

    /** The slot of the next page has its table, or the next frame is free for one. */
    lemma NextSlot(pd: int, k: nat)
      requires IdentityBelow(pd, k) && k < pd && pd + 1 + Slots(pd) <= ram.Length0
      ensures Used()[0] != FREE && k < PAGES
      ensures if k % ENTRIES == 0 then
                SomeFree(Used()) && LowestFree(Used(), 0) == pd + 1 + Slots(k) && !Present(ram[pd, k / ENTRIES])
              else Present(ram[pd, k / ENTRIES])
    {
      SlotsStep(k, pd);
      assert Directory(pd)[k / ENTRIES] == ram[pd, k / ENTRIES];
      if k % ENTRIES == 0 {
        LowestIsNext(pd + 1 + Slots(k));
      }
    }

    /** The call in the loop that maps the kernel: one more page maps to itself. */
    method MapSelf(i: nat, pd: nat)
      requires i % PAGE == 0 && i < MOD32 && Mapped(pd) && Used()[0] != FREE && SelfMapped(pd, i / PAGE)
      requires !Present(ram[pd, i / PAGE / ENTRIES]) ==> SomeFree(Used())
      modifies ram, frames.bitmap.entries
      ensures Mapped(pd) && SelfMapped(pd, i / PAGE + 1)
      ensures var d, dir := i / PAGE / ENTRIES, old(Directory(pd));
              && Directory(pd) == dir[d := Directory(pd)[d]]
              && (Present(dir[d]) ==> Directory(pd) == dir && Used() == old(Used()))
              && (!Present(dir[d]) ==>
                    var f := LowestFree(old(Used()), 0);
                    Used() == old(Used())[f := USED] && Directory(pd)[d] == 4096 * f + 3)
              && forall g, i :: 0 <= g < ram.Length0 && 0 <= i < ENTRIES ==>
                   (g != pd && g != FrameOf(Directory(pd)[d]) ==> ram[g, i] == old(ram[g, i]))
    {
      var _ := PageMap(i, i, 3, pd);
    }

    /** One turn of that loop. */
    method MapNext(i: nat, pd: nat)
      requires i % PAGE == 0 && i / PAGE < pd && IdentityBelow(pd, i / PAGE) && pd + 1 + Slots(pd) <= ram.Length0
      modifies ram, frames.bitmap.entries
      ensures IdentityBelow(pd, i / PAGE + 1)
      ensures forall g, k :: 0 <= g < ram.Length0 && 0 <= k < ENTRIES ==>
        (g < pd || pd + Slots(pd) < g ==> ram[g, k] == old(ram[g, k]))
    {
      hide Slots, UsedUpTo, TablesIn, LowestFree, SelfMapped;
      NextSlot(pd, i / PAGE);
      SlotsStep(i / PAGE, pd);
      ghost var dir, used := Directory(pd), Used();
      MapSelf(i, pd);
      TablesGrow(dir, Directory(pd), used, Used(), pd, i / PAGE);
    }

    /** The second loop of `paging_initialize`: map every page below the kernel pointer to itself. */
    method MapKernel(kernelPointer: nat, pd: nat)
      requires 0 < Pages(kernelPointer) == pd && IdentityBelow(pd, 0) && pd + 1 + Slots(pd) <= ram.Length0
      modifies ram, frames.bitmap.entries
      ensures IdentityBelow(pd, pd)
      ensures forall g, k :: 0 <= g < ram.Length0 && 0 <= k < ENTRIES ==>
        (g < pd || pd + Slots(pd) < g ==> ram[g, k] == old(ram[g, k]))
    {
      var i := 0;
      while i < kernelPointer
        invariant i % PAGE == 0 && 0 <= i / PAGE <= pd && IdentityBelow(pd, i / PAGE)
        invariant forall g, k :: 0 <= g < ram.Length0 && 0 <= k < ENTRIES ==>
          (g < pd || pd + Slots(pd) < g ==> ram[g, k] == old(ram[g, k]))
      {
        hide IdentityBelow;
        MapNext(i, pd);
        assert (i + PAGE) / PAGE == i / PAGE + 1;
        i := U32(i + PAGE);
      }
    }

    /** The paging part of `paging_initialize`, on a bitmap that is all free. */
    method PagingInitialize(kernelPointer: nat) returns (directory: nat)
      requires Wf() && UsedBelow(0) && 0 < kernelPointer
      requires Pages(kernelPointer) + 1 + Slots(Pages(kernelPointer)) <= ram.Length0
      modifies ram, frames.bitmap.entries
      ensures var k := Pages(kernelPointer);
              && directory == 4096 * k && IdentityBelow(k, k)
              && forall g, i :: 0 <= g < ram.Length0 && 0 <= i < ENTRIES ==>
                   (g < k || k + Slots(k) < g ==> ram[g, i] == old(ram[g, i]))
    {
      ReserveKernel(kernelPointer);
      LowestIsNext(Pages(kernelPointer));
      directory := DirectoryCreate(2);
      MapKernel(kernelPointer, directory / PAGE);
    }
  }

  /** The number of pages that start below an address. */
  function Pages(addr: nat): (n: nat)
    ensures 4096 * (n - 1) < addr <= 4096 * n || addr == n == 0
  {
    (addr + PAGE - 1) / PAGE
  }

  /** The number of 4 MiB slots that `pages` pages touch. */
  function Slots(pages: nat): (n: nat)
    ensures 1024 * (n - 1) < pages <= 1024 * n || pages == n == 0
  {
    (pages + ENTRIES - 1) / ENTRIES
  }

  lemma SlotsStep(k: nat, pd: nat)
    requires k < pd
    ensures Slots(k) <= Slots(k + 1) <= Slots(pd)
    ensures if k % ENTRIES == 0 then Slots(k) == k / ENTRIES && Slots(k + 1) == k / ENTRIES + 1
            else Slots(k) == Slots(k + 1) == k / ENTRIES + 1
  {
  }

  ghost predicate UsedUpTo(used: seq<int>, n: int) {
    0 <= n <= |used| && forall f :: 0 <= f < |used| ==> (used[f] != FREE <==> f < n)
  }

  ghost predicate TablesIn(dir: seq<int>, pd: int, n: int) {
    && |dir| == ENTRIES
    && forall d :: 0 <= d < ENTRIES ==> dir[d] == if d < n then 4096 * (pd + 1 + d) + 3 else 2
  }

  /** The first page of a slot adds the table right behind the last one, a later page adds none. */
  lemma TablesGrow(dir: seq<int>, dir': seq<int>, used: seq<int>, used': seq<int>, pd: int, k: nat)
    requires TablesIn(dir, pd, Slots(k)) && UsedUpTo(used, pd + 1 + Slots(k)) && k / ENTRIES < ENTRIES
    requires |dir'| == ENTRIES && dir' == dir[k / ENTRIES := dir'[k / ENTRIES]] && 0 <= pd
    requires if k % ENTRIES != 0 then dir' == dir && used' == used
             else
               && pd + 1 + Slots(k) < |used| && used' == used[pd + 1 + Slots(k) := USED]
               && dir'[k / ENTRIES] == 4096 * (pd + 1 + Slots(k)) + 3
    ensures TablesIn(dir', pd, Slots(k + 1)) && UsedUpTo(used', pd + 1 + Slots(k + 1))
    ensures pd < FrameOf(dir'[k / ENTRIES]) <= pd + Slots(k + 1)
  {
    SlotsStep(k, k + 1);
    hide Slots;
  }
}
