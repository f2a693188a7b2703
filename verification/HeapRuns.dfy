/** Whole runs of `malloc` and `free`, seen from the callers and from the page provider. */
module HeapRuns {
  import opened Machine
  import opened Options
  import opened Exponent
  import opened BoundaryTags
  import opened TagSteps
  import opened AllocatorSpec
  import opened LiveBlocks
  import opened HeapTheorems

  /** `base` is the provider's answer should `malloc` ask, `junk` what memory held at a new header. */
  datatype Op = MallocOp(size: nat, base: int, junk: Header) | FreeOp(p: int)

  datatype Call = Got(p: int, size: int) | Refused | Gave(p: int) | GaveNull

  datatype Event = Granted(base: int, pages: int) | GivenBack(base: int, pages: int)

  ghost predicate Legal(s: Arena, op: Op) {
    match op
    case MallocOp(size, base, _) => size + HEADER < MOD32 && MayAnswer(s, size, base)
    case FreeOp(p) => p == NULL || IsLive(s, p)
  }

  function Step(s: Arena, op: Op): (r: Arena)
    requires Inv(s) && Legal(s, op)
    ensures Inv(r)
  {
    match op
    case MallocOp(size, base, junk) => Malloc(s, size, base, junk).0
    case FreeOp(p) => Free(s, p).0
  }

  function CallOf(s: Arena, op: Op): Call
    requires Inv(s) && Legal(s, op)
  {
    match op
    case MallocOp(size, base, junk) =>
      var p := Malloc(s, size, base, junk).1;
      if p == NULL then Refused else Got(p, size)
    case FreeOp(p) => if p == NULL then GaveNull else Gave(p)
  }

  function EventsOf(s: Arena, op: Op): seq<Event>
    requires Inv(s) && Legal(s, op)
  {
    match op
    case MallocOp(size, base, junk) =>
      if Candidate(s, size) == NULL && base != NULL then [Granted(base, PagesFor(size))] else []
    case FreeOp(p) =>
      match Free(s, p).1
      case Kept => []
      case Returned(b, pages) => [GivenBack(b, pages)]
  }

  ghost predicate LegalRun(s: Arena, ops: seq<Op>)
    requires Inv(s)
    decreases |ops|
  {
    ops == [] || (Legal(s, ops[0]) && LegalRun(Step(s, ops[0]), ops[1..]))
  }

  function Final(s: Arena, ops: seq<Op>): (r: Arena)
    requires Inv(s) && LegalRun(s, ops)
    ensures Inv(r)
    decreases |ops|
  {
    if ops == [] then s else Final(Step(s, ops[0]), ops[1..])
  }

  function Calls(s: Arena, ops: seq<Op>): seq<Call>
    requires Inv(s) && LegalRun(s, ops)
    decreases |ops|
  {
    if ops == [] then [] else [CallOf(s, ops[0])] + Calls(Step(s, ops[0]), ops[1..])
  }

  function Events(s: Arena, ops: seq<Op>): seq<Event>
    requires Inv(s) && LegalRun(s, ops)
    decreases |ops|
  {
    if ops == [] then [] else EventsOf(s, ops[0]) + Events(Step(s, ops[0]), ops[1..])
  }

  // ---------------------------------------------------------------- reference machines

  /** A caller's ledger: a pointer handed out must be new, a pointer given back must be held. */
  function Replay(held: map<int, int>, calls: seq<Call>): Option<map<int, int>>
    decreases |calls|
  {
    if calls == [] then Some(held)
    else match calls[0]
      case Got(p, size) => if p in held then None else Replay(held[p := size], calls[1..])
      case Gave(p) => if p in held then Replay(held - {p}, calls[1..]) else None
      case _ => Replay(held, calls[1..])
  }

  /** The provider's ledger: a grant must be new, a return must name a grant with its page count. */
  function Audit(granted: map<int, int>, events: seq<Event>): Option<map<int, int>>
    decreases |events|
  {
    if events == [] then Some(granted)
    else match events[0]
      case Granted(b, pages) => if b in granted then None else Audit(granted[b := pages], events[1..])
      case GivenBack(b, pages) =>
        if b in granted && granted[b] == pages then Audit(granted - {b}, events[1..]) else None
  }

  /** Before the first call. */
  function Empty(): (s: Arena)
    ensures Inv(s) && Blocks(s) == map[] && s.regions == map[]
  {
    var s := Arena(map[], seq(MAXEXP, _ => NULL), seq(MAXEXP, _ => 0), map[], map[], map[]);
    assert forall i :: 0 <= i < MAXEXP ==> WholeFree(s, i, {}) == {};
    s
  }

  // ---------------------------------------------------------------- theorems

  /** Any page the provider may name serves the very first request. */
  lemma FirstCallLegal(size: nat, base: int, junk: Header)
    requires size + HEADER < MOD32 && 0 < base && base + PAGE * PagesFor(size) <= MOD32
    ensures Legal(Empty(), MallocOp(size, base, junk))
    ensures CallOf(Empty(), MallocOp(size, base, junk)) == Got(base + HEADER, size)
  {
    hide Good, Split, Trim;
    assert Candidate(Empty(), size) == NULL;
  }

  /** What `malloc` hands out may be given back, and then callers own what they owned before. */
  lemma MallocThenFree(s: Arena, size: nat, base: int, junk: Header)
    requires Inv(s) && size + HEADER < MOD32 && MayAnswer(s, size, base)
    requires Malloc(s, size, base, junk).1 != NULL
    ensures var (r, p) := Malloc(s, size, base, junk); IsLive(r, p) && Blocks(Free(r, p).0) == Blocks(s)
  {
    hide Good, Malloc, Free, Blocks;
    MallocBlocks(s, size, base, junk);
    var (r, p) := Malloc(s, size, base, junk);
    BlockAt(r, p);
    FreeBlocks(r, p);
    assert Blocks(s)[p := size] - {p} == Blocks(s);
  }

  lemma StepCalls(s: Arena, op: Op, rest: seq<Call>)
    requires Inv(s) && Legal(s, op)
    ensures Replay(Blocks(s), [CallOf(s, op)] + rest) == Replay(Blocks(Step(s, op)), rest)
  {
    hide Good, Malloc, Free, Blocks;
    assert ([CallOf(s, op)] + rest)[1..] == rest;
    match op
    case MallocOp(size, base, junk) => MallocBlocks(s, size, base, junk);
    case FreeOp(p) =>
      if p == NULL {
        FreeNull(s);
      } else {
        FreeBlocks(s, p);
      }
  }

  lemma FreeNull(s: Arena)
    requires Inv(s)
    ensures Free(s, NULL).0 == s
  {
  }

  /**
   Over every run, pointers handed out are never held already, and what is held at the end is what
   the calls themselves account for.
   */
  lemma {:induction false} RunCalls(s: Arena, ops: seq<Op>)
    requires Inv(s) && LegalRun(s, ops)
    ensures Replay(Blocks(s), Calls(s, ops)) == Some(Blocks(Final(s, ops)))
    decreases |ops|
  {
    hide Good, Step, Blocks, CallOf, Legal;
    if ops != [] {
      RunCalls(Step(s, ops[0]), ops[1..]);
      StepCalls(s, ops[0], Calls(Step(s, ops[0]), ops[1..]));
    }
  }

  lemma StepEvents(s: Arena, op: Op, rest: seq<Event>)
    requires Inv(s) && Legal(s, op)
    ensures Audit(s.regions, EventsOf(s, op) + rest) == Audit(Step(s, op).regions, rest)
  {
    hide Good, Malloc, Free, Links, ProviderMayReturn;
    var events := EventsOf(s, op);
    if events != [] {
      assert (events + rest)[1..] == rest;
    } else {
      assert events + rest == rest;
    }
    match op
    case MallocOp(size, base, junk) =>
      MallocRegions(s, size, base, junk);
      if base != NULL {
        GrantIsNew(s, size, base);
      }
    case FreeOp(p) => FreeRegions(s, p);
  }

  lemma GrantIsNew(s: Arena, size: nat, base: int)
    requires Inv(s) && MayAnswer(s, size, base) && base != NULL
    ensures base !in s.regions
  {
    GrantFresh(s, base, PagesFor(size));
  }

  /**
   Over every run, each return to the provider names a region still granted and its exact page
   count, and the regions held at the end are the grants not yet returned.
   */
  lemma {:induction false} RunEvents(s: Arena, ops: seq<Op>)
    requires Inv(s) && LegalRun(s, ops)
    ensures Audit(s.regions, Events(s, ops)) == Some(Final(s, ops).regions)
    decreases |ops|
  {
    hide Good, Step, EventsOf, Legal;
    if ops != [] {
      RunEvents(Step(s, ops[0]), ops[1..]);
      StepEvents(s, ops[0], Events(Step(s, ops[0]), ops[1..]));
    }
  }

  /** A run from the start whose calls account for no held pointer leaves only whole cached regions. */
  lemma RunAllFreed(ops: seq<Op>)
    requires LegalRun(Empty(), ops) && Replay(map[], Calls(Empty(), ops)) == Some(map[])
    ensures var s := Final(Empty(), ops);
            && s.heads.Keys == s.regions.Keys
            && (forall b :: b in s.regions ==>
                  s.heads[b].index >= 0 && Whole(s.heads[b]) && s.heads[b].realSize == PAGE * s.regions[b])
            && |s.complete| == MAXEXP && Cached(s.complete, MAXEXP) == |s.regions|
            && (forall i :: 0 <= i < MAXEXP ==> 0 <= s.complete[i] <= MAXCOMPLETE)
            && Audit(map[], Events(Empty(), ops)) == Some(s.regions)
  {
    hide Good, Step, Blocks, CallOf, EventsOf, Legal, Audit, Calls, Events, Final;
    RunCalls(Empty(), ops);
    RunEvents(Empty(), ops);
    AllFreed(Final(Empty(), ops));
  }

  /** Whatever the calls and whatever the provider answers, the structure is sound at the end. */
  lemma RunSound(ops: seq<Op>)
    requires LegalRun(Empty(), ops)
    ensures Sound(Final(Empty(), ops))
  {
    hide Good, Final, LegalRun;
    InvIsSound(Final(Empty(), ops));
  }
}
