/** The bitmap of `array.c` and the frame allocator of `paging.c` on top of it. */
module FrameBitmap {
  import opened Machine
  import opened Options

  const FREE := 0
  const USED := 1

  /** All of `entries[i..i + n]` equal `value`. */
  ghost predicate RunAt(entries: seq<int>, i: int, n: int, value: int) {
    0 <= i && i + n <= |entries| && forall k :: i <= k < i + n ==> entries[k] == value
  }

  /** The search stops after one matching entry even when asked for none. */
  function RunLength(size: nat): (n: nat)
    ensures size <= n && (n == size > 0 || (n == 1 && size == 0))
  {
    if size == 0 then 1 else size
  }

  class Bitmap {
    const entries: array<int>

    constructor (size: nat)
      ensures fresh(entries) && entries[..] == seq(size, _ => FREE)
    {
      entries := new int[size](_ => FREE);
    }

    /** `bitmap_entrie_set`. */
    method Set(index: nat, value: int)
      requires index < entries.Length
      modifies entries
      ensures entries[..] == old(entries[..])[index := value]
    {
      entries[index] := value;
    }

    /** `bitmap_entrie_check`. */
    method Check(index: nat) returns (value: int)
      requires index < entries.Length
      ensures value == entries[index]
    {
      value := entries[index];
    }

    /**
     `bitmap_entrie_find`: the lowest run of `size` entries of this value. `None` stands for a read
     outside the entries, which happens exactly when there is no such run: the source never gets to
     return -1.
     */
    method Find(size: nat, value: int) returns (r: Option<nat>)
      ensures r.None? <==> forall w :: !RunAt(entries[..], w, RunLength(size), value)
      ensures r.Some? ==>
        && RunAt(entries[..], r.value, RunLength(size), value)
        && forall j :: 0 <= j < r.value ==> !RunAt(entries[..], j, RunLength(size), value)
    {
      ghost var n := RunLength(size);
      var i := 0;
      while i <= entries.Length
        invariant 0 <= i <= entries.Length
        invariant forall j :: 0 <= j < i ==> !RunAt(entries[..], j, n, value)
      {
        if i >= entries.Length {
          return None;
        }
        if entries[i] == value {
          var x := 0;
          while i + x < entries.Length && entries[i + x] == value
            invariant 0 <= x && i + x <= entries.Length && x < n
            invariant forall k :: i <= k < i + x ==> entries[k] == value
          {
            x := x + 1;
            if x >= size {
              assert RunAt(entries[..], i, n, value);
              return Some(i);
            }
          }
          if i + x >= entries.Length {
            return None;
          }
          assert entries[i + x] != value;
        }
        i := i + 1;
      }
      assert false;
    }

    /** `bitmap_map`: fill a range, or do nothing when it reaches past the end. */
    method Map(start: nat, end: nat, value: int)
      modifies entries
      ensures end > entries.Length ==> entries[..] == old(entries[..])
      ensures end <= entries.Length ==>
        forall k :: 0 <= k < entries.Length ==>
          entries[k] == if start <= k < end then value else old(entries[k])
    {
      if end > entries.Length {
        return;
      }
      var i := start;
      while i < end
        invariant start <= i && (i <= end || i == start)
        invariant forall k :: 0 <= k < entries.Length ==>
          entries[k] == if start <= k < i then value else old(entries[k])
      {
        Set(i, value);
        i := i + 1;
      }
    }
  }

  // ---------------------------------------------------------------- frames

  /** The 32-bit address space has this many frames. */
  const MAXFRAMES := 0x10_0000

  ghost predicate SomeFree(entries: seq<int>) {
    exists f :: 0 <= f < |entries| && entries[f] == FREE
  }

  /** The lowest free frame from `i` on. */
  ghost function LowestFree(entries: seq<int>, i: nat): (f: nat)
    requires i <= |entries| && exists k :: i <= k < |entries| && entries[k] == FREE
    ensures i <= f < |entries| && entries[f] == FREE && forall g :: i <= g < f ==> entries[g] != FREE
    decreases |entries| - i
  {
    if entries[i] == FREE then i else LowestFree(entries, i + 1)
  }

  /** The frame functions of `paging.c`. Addresses are byte addresses. */
  class FrameAllocator {
    const bitmap: Bitmap

    constructor (frames: nat)
      ensures fresh(bitmap) && fresh(bitmap.entries) && bitmap.entries[..] == seq(frames, _ => FREE)
    {
      bitmap := new Bitmap(frames);
    }

    /** `frame_set`. */
    method FrameSet(addr: nat)
      requires addr / PAGE < bitmap.entries.Length
      modifies bitmap.entries
      ensures bitmap.entries[..] == old(bitmap.entries[..])[addr / PAGE := USED]
    {
      bitmap.Set(addr / PAGE, USED);
    }

    /** `frame_free`. */
    method FrameFree(addr: nat)
      requires addr / PAGE < bitmap.entries.Length
      modifies bitmap.entries
      ensures bitmap.entries[..] == FrameStep(old(bitmap.entries[..]), {addr / PAGE}, Free(addr / PAGE)).0
      ensures forall f :: 0 <= f < bitmap.entries.Length ==>
        bitmap.entries[f] == if f == addr / 4096 then 0 else old(bitmap.entries[f])
    {
      bitmap.Set(addr / PAGE, FREE);
    }

    /** `frame_test`. */
    method FrameTest(addr: nat) returns (r: int)
      requires addr / PAGE < bitmap.entries.Length
      ensures r == bitmap.entries[addr / PAGE]
    {
      r := bitmap.Check(addr / PAGE);
    }

    /** `frame_find`; `None` when the search leaves the bitmap. */
    method FrameFind() returns (addr: Option<nat>)
      requires bitmap.entries.Length <= MAXFRAMES
      ensures addr.Some? <==> SomeFree(bitmap.entries[..])
      ensures addr.Some? ==> addr.value == PAGE * LowestFree(bitmap.entries[..], 0)
    {
      var index := bitmap.Find(1, FREE);
      ghost var e := bitmap.entries[..];
      assert forall w :: 0 <= w < |e| ==> (RunAt(e, w, RunLength(1), FREE) <==> e[w] == FREE);
      if index == None {
        return None;
      }
      assert e[index.value] == FREE;
      addr := Some(U32(index.value * PAGE));
    }

    /** `frame_alloc`; `None` when the search leaves the bitmap, exactly when no frame is free. */
    method FrameAlloc() returns (addr: Option<nat>)
      requires bitmap.entries.Length <= MAXFRAMES
      modifies bitmap.entries
      ensures addr.Some? <==> old(SomeFree(bitmap.entries[..]))
      ensures addr.None? ==> bitmap.entries[..] == old(bitmap.entries[..])
      ensures addr.Some? ==>
        && addr.value == PAGE * LowestFree(old(bitmap.entries[..]), 0)
        && bitmap.entries[..] == FrameStep(old(bitmap.entries[..]), {}, Alloc).0
        && forall f :: 0 <= f < bitmap.entries.Length ==>
             bitmap.entries[f] == if f == addr.value / 4096 then 1 else old(bitmap.entries[f])
    {
      addr := FrameFind();
      if addr.Some? {
        // The failure test of the source: a scaled index is page-aligned, so it never fires.
        assert addr.value != 0xffff_ffff;
        FrameSet(addr.value);
      }
    }
  }

  // ---------------------------------------------------------------- runs

  datatype FrameOp = Alloc | Free(frame: nat)

  /** What the bitmap and the set of frames handed out become. */
  ghost function FrameStep(entries: seq<int>, out: set<nat>, op: FrameOp): (seq<int>, set<nat>)
    requires CanStep(entries, out, op)
  {
    match op
    case Alloc =>
      var f := LowestFree(entries, 0);
      (entries[f := USED], out + {f})
    case Free(f) => (entries[f := FREE], out - {f})
  }

  /** A frame must be free to allocate one, and only frames handed out are given back. */
  ghost predicate CanStep(entries: seq<int>, out: set<nat>, op: FrameOp) {
    match op
    case Alloc => SomeFree(entries)
    case Free(f) => f in out && f < |entries|
  }

  ghost predicate CanRun(entries: seq<int>, out: set<nat>, ops: seq<FrameOp>)
    decreases |ops|
  {
    ops == [] ||
    (CanStep(entries, out, ops[0]) &&
     var (e, o) := FrameStep(entries, out, ops[0]); CanRun(e, o, ops[1..]))
  }

  ghost function FrameRun(entries: seq<int>, out: set<nat>, ops: seq<FrameOp>): (seq<int>, set<nat>)
    requires CanRun(entries, out, ops)
    decreases |ops|
  {
    if ops == [] then (entries, out)
    else var (e, o) := FrameStep(entries, out, ops[0]); FrameRun(e, o, ops[1..])
  }

  ghost function Reserved(entries: seq<int>): set<nat> {
    set f: nat | f < |entries| && entries[f] != FREE
  }

  /**
   Over every run the frames in use are exactly the boot-reserved ones and those handed out, and
   no frame is both: a frame handed out is never reserved and never handed out twice.
   */
  lemma {:induction false} FramesNeverShared(boot: seq<int>, entries: seq<int>, out: set<nat>, ops: seq<FrameOp>)
    requires |entries| == |boot| && Reserved(entries) == Reserved(boot) + out && Reserved(boot) !! out
    requires CanRun(entries, out, ops)
    ensures var (e, o) := FrameRun(entries, out, ops);
            |e| == |boot| && Reserved(e) == Reserved(boot) + o && Reserved(boot) !! o
    decreases |ops|
  {
    if ops != [] {
      var (e, o) := FrameStep(entries, out, ops[0]);
      match ops[0] {
        case Alloc =>
          var f := LowestFree(entries, 0);
          assert f !in Reserved(entries);
          assert Reserved(e) == Reserved(entries) + {f};
        case Free(f) =>
          assert f in Reserved(entries);
          assert Reserved(e) == Reserved(entries) - {f};
      }
      FramesNeverShared(boot, e, o, ops[1..]);
    }
  }

  /** A frame given back is free and no longer handed out; all others stay as they are. */
  lemma FreeReleases(entries: seq<int>, out: set<nat>, f: nat)
    requires f in out && f < |entries|
    ensures var (e, o) := FrameStep(entries, out, Free(f));
            && |e| == |entries| && e[f] == 0 && f !in o && SomeFree(e)
            && (forall g :: 0 <= g < |e| && g != f ==> e[g] == entries[g])
            && forall g :: g != f ==> (g in o <==> g in out)
  {
    assert FrameStep(entries, out, Free(f)).0[f] == FREE;
  }

  /** The frame an allocation step hands out is the lowest neither reserved at boot nor handed out. */
  lemma AllocLowest(boot: seq<int>, entries: seq<int>, out: set<nat>)
    requires |entries| == |boot| && Reserved(entries) == Reserved(boot) + out && CanStep(entries, out, Alloc)
    ensures var f := LowestFree(entries, 0);
            && FrameStep(entries, out, Alloc) == (entries[f := USED], out + {f})
            && f !in Reserved(boot) + out
            && forall g: nat :: g < f ==> g in Reserved(boot) + out
  {
    var f := LowestFree(entries, 0);
    assert forall g: nat :: g < |entries| ==> (g in Reserved(entries) <==> entries[g] != FREE);
  }
}
