/** Every run of the block allocator: what its callers own and what the bitmap says agree,
    step after step. */
module PhysicalMemoryRuns {
  import opened Words
  import opened PhysicalMemory

  datatype Range = Range(start: nat, count: nat) {
    predicate Has(b: nat) {
      start <= b < start + count
    }

    predicate Apart(other: Range) {
      start + count <= other.start || other.start + other.count <= start
    }
  }

  datatype Op = Acquire(count: nat) | GiveBack(range: Range)

  // The allocator's state together with the ranges handed out and not yet given back.
  datatype System = System(mem: Memory, live: set<Range>)

  ghost predicate Owned(live: set<Range>, b: nat) {
    exists r :: r in live && r.Has(b)
  }

  ghost predicate Legal(sys: System, op: Op) {
    match op
    case Acquire(count) => count <= MAX_RUN
    case GiveBack(range) => range in sys.live
  }

  // The bitmap marks the reserved blocks and the live ranges, and nothing else. Block 0 and the
  // blocks past the end of memory are reserved; live ranges are pairwise disjoint and unreserved.
  ghost predicate Safe(sys: System, reserved: set<nat>) {
    var words := sys.mem.words;
    && sys.mem.WellFormed()
    && 0 in reserved
    && (forall b: nat :: sys.mem.maxBlocks <= b < 32 * |words| ==> b in reserved)
    && (forall b: nat :: b < 32 * |words| ==> (Free(words, b) <==> b !in reserved && !Owned(sys.live, b)))
    && (forall r :: r in sys.live ==> 0 < r.start && 0 < r.count && r.start + r.count <= sys.mem.maxBlocks)
    && (forall r, b: nat :: r in sys.live && r.Has(b) ==> b !in reserved)
    && (forall q, r :: q in sys.live && r in sys.live && q != r ==> q.Apart(r))
  }

  // What used_blocks counts beyond the bits that are set; fixed once boot has set it.
  ghost function Drift(m: Memory): nat {
    U32(m.usedBlocks - |SetBits(m.words)|)
  }

  ghost function Step(sys: System, op: Op): System
    requires sys.mem.WellFormed() && Legal(sys, op)
    requires op.GiveBack? ==> op.range.start + op.range.count <= 32 * |sys.mem.words|
  {
    match op
    case Acquire(count) =>
      var (mem, address) := Allocate(sys.mem, count);
      System(mem, if address == 0 then sys.live else sys.live + {Range(address / BLOCK_SIZE, count)})
    case GiveBack(range) =>
      System(Release(sys.mem, range.start * BLOCK_SIZE, range.count), sys.live - {range})
  }

  lemma FreeAfterUpdates(words: seq<Word>, s: nat, n: nat, b: nat)
    requires s + n <= 32 * |words|
    ensures Free(SetRange(words, s, n), b) <==> !(s <= b < s + n) && Free(words, b)
    ensures Free(ClearRange(words, s, n), b) <==> (s <= b < s + n) || Free(words, b)
  {
    if b < 32 * |words| { RangeUpdatesAt(words, s, n, b); }
  }

  lemma DistanceAfterUnion(u: int, before: set<nat>, run: set<nat>)
    requires before !! run
    ensures U32(U32(u + |run|) - |before + run|) == U32(u - |before|)
  {
    hide U32;
    assert |before + run| == |before| + |run|;
    U32KeepsDistance(u, |before|, |run|);
  }

  lemma DistanceAfterDifference(u: int, before: set<nat>, run: set<nat>)
    requires run <= before
    ensures U32(U32(u - |run|) - |before - run|) == U32(u - |before|)
  {
    hide U32;
    assert |before - run| == |before| - |run|;
    U32KeepsDistance(u, |before|, -|run|);
  }

  lemma DriftAfterSet(m: Memory, s: nat, n: nat)
    requires RunFree(m.words, s, n) && s + n <= 32 * |m.words|
    ensures Drift(Memory(SetRange(m.words, s, n), m.maxBlocks, U32(m.usedBlocks + n))) == Drift(m)
  {
    hide U32, SetRange, SetBits;
    RangeUpdates(m.words, s, n);
    assert SetBits(m.words) !! Blocks(s, n) by { FreeRunIsClear(m.words, s, n); }
    DistanceAfterUnion(m.usedBlocks, SetBits(m.words), Blocks(s, n));
  }

  lemma FreeRunIsClear(words: seq<Word>, s: nat, n: nat)
    requires RunFree(words, s, n)
    ensures SetBits(words) !! Blocks(s, n)
  {
    forall b | b in Blocks(s, n) ensures b !in SetBits(words) { assert Free(words, b); }
  }

  lemma DriftAfterClear(m: Memory, s: nat, n: nat)
    requires s + n <= 32 * |m.words|
    requires forall b: nat :: s <= b < s + n ==> !Free(m.words, b)
    ensures Drift(Memory(ClearRange(m.words, s, n), m.maxBlocks, U32(m.usedBlocks - n))) == Drift(m)
  {
    hide U32, ClearRange, SetBits;
    RangeUpdates(m.words, s, n);
    assert Blocks(s, n) <= SetBits(m.words) by { UsedRunIsSet(m.words, s, n); }
    DistanceAfterDifference(m.usedBlocks, SetBits(m.words), Blocks(s, n));
  }

  lemma UsedRunIsSet(words: seq<Word>, s: nat, n: nat)
    requires s + n <= 32 * |words|
    requires forall b: nat :: s <= b < s + n ==> !Free(words, b)
    ensures Blocks(s, n) <= SetBits(words)
  {
    forall b | b in Blocks(s, n) ensures b in SetBits(words) { assert !Free(words, b); }
  }

  lemma OverlappingRangesMeet(q: Range, r: Range)
    requires 0 < q.count && 0 < r.count && !q.Apart(r)
    ensures exists b: nat :: q.Has(b) && r.Has(b)
  {
    var b := if q.start <= r.start then r.start else q.start;
    assert q.Has(b) && r.Has(b);
  }

  // A run the allocator finds free is unreserved, inside memory, and apart from what is live.
  lemma FreeRunIsNew(sys: System, reserved: set<nat>, r: Range)
    requires Safe(sys, reserved) && 0 < r.count && RunFree(sys.mem.words, r.start, r.count)
    ensures 0 < r.start && r.start + r.count <= sys.mem.maxBlocks
    ensures forall b: nat :: r.Has(b) ==> b !in reserved && !Owned(sys.live, b)
    ensures forall q :: q in sys.live ==> q.Apart(r) && r.Apart(q)
  {
    var words := sys.mem.words;
    assert Free(words, r.start) && Free(words, r.start + r.count - 1);
    forall b: nat | r.Has(b) ensures b !in reserved && !Owned(sys.live, b) {
      assert Free(words, b);
    }
    forall q | q in sys.live ensures q.Apart(r) && r.Apart(q) {
      if !q.Apart(r) {
        OverlappingRangesMeet(q, r);
        assert false;
      }
    }
  }

  lemma AcquireIsSafe(sys: System, count: nat, reserved: set<nat>)
    requires Safe(sys, reserved) && count <= MAX_RUN
    ensures var after := Step(sys, Acquire(count));
            Safe(after, reserved) && Drift(after.mem) == Drift(sys.mem)
  {
    hide U32;
    var (mem, address) := Allocate(sys.mem, count);
    if mem != sys.mem || address != 0 {
      var words, after := sys.mem.words, Step(sys, Acquire(count));
      var r := Range(FirstFit(words, count, 0), count);
      RunFits(words, r.start, count);
      FreeRunIsNew(sys, reserved, r);
      assert after.live == sys.live + {r};
      DriftAfterSet(sys.mem, r.start, count);
      forall b: nat | b < 32 * |words|
        ensures Free(mem.words, b) <==> b !in reserved && !Owned(after.live, b)
      {
        FreeAfterUpdates(words, r.start, count, b);
        OwnedAfterInsert(sys.live, r, b);
      }
    }
  }

  // What a request finds: more blocks left than it asks for, and a run of them free.
  ghost predicate Satisfiable(m: Memory, count: nat)
    requires m.WellFormed()
  {
    0 < count < U32(m.maxBlocks - m.usedBlocks) &&
    exists s: nat :: s < 32 * (|m.words| - 1) && RunFree(m.words, s, count)
  }

  /** A request is met exactly when it can be: the first run of free blocks becomes the caller's and
      is marked, and nothing else changes. */
  lemma AcquireOutcome(sys: System, count: nat, reserved: set<nat>)
    requires Safe(sys, reserved) && count <= MAX_RUN
    ensures if Satisfiable(sys.mem, count)
            then exists start: nat :: FirstFree(sys.mem.words, count, start) && Acquired(sys, Step(sys, Acquire(count)), start, count)
            else Step(sys, Acquire(count)) == sys
  {
    hide U32, SetRange, SetBits, Acquired, RunFree;
    if Satisfiable(sys.mem, count) {
      var start := FirstFit(sys.mem.words, count, 0);
      AcquiredIs(sys, count, start, reserved);
    }
  }

  // What an allocation of `count` blocks at `start` does.
  ghost predicate Acquired(sys: System, after: System, start: nat, count: nat) {
    && Range(start, count) !in sys.live
    && after.live == sys.live + {Range(start, count)}
    && SetBits(after.mem.words) == SetBits(sys.mem.words) + Blocks(start, count)
    && after.mem.usedBlocks == U32(sys.mem.usedBlocks + count)
  }

  lemma AcquiredIs(sys: System, count: nat, start: nat, reserved: set<nat>)
    requires Safe(sys, reserved) && 0 < count <= MAX_RUN && FirstFree(sys.mem.words, count, start)
    requires count < U32(sys.mem.maxBlocks - sys.mem.usedBlocks) && start == FirstFit(sys.mem.words, count, 0)
    ensures Acquired(sys, Step(sys, Acquire(count)), start, count)
  {
    hide SetRange, SetBits, RunFree, Allocate, FirstFit, U32, Blocks;
    var r := Range(start, count);
    NewRunIsNotLive(sys, reserved, r);
    AllocateIs(sys.mem, count, start);
    RangeUpdates(sys.mem.words, start, count);
  }

  lemma NewRunIsNotLive(sys: System, reserved: set<nat>, r: Range)
    requires Safe(sys, reserved) && 0 < r.count && RunFree(sys.mem.words, r.start, r.count)
    ensures 0 < r.start && r.start + r.count <= sys.mem.maxBlocks && r !in sys.live
  {
    FreeRunIsNew(sys, reserved, r);
    assert r.Has(r.start);
  }

  lemma AllocateIs(m: Memory, count: nat, start: nat)
    requires m.WellFormed() && 0 < count <= MAX_RUN && start + count <= m.maxBlocks
    requires count < U32(m.maxBlocks - m.usedBlocks) && start == FirstFit(m.words, count, 0)
    ensures Allocate(m, count) ==
            (Memory(SetRange(m.words, start, count), m.maxBlocks, U32(m.usedBlocks + count)), start * BLOCK_SIZE)
  {
    hide SetRange, FirstFit, U32;
    InMemory(start * BLOCK_SIZE);
  }

  lemma InMemory(address: nat)
    requires address < TWO_TO_32
    ensures U32(address) == address
  {}

  lemma OwnedAfterInsert(live: set<Range>, r: Range, b: nat)
    ensures Owned(live + {r}, b) <==> Owned(live, b) || r.Has(b)
  {
    if Owned(live, b) {
      var q :| q in live && q.Has(b);
      assert q in live + {r};
    }
    assert r in live + {r};
  }

  lemma OwnedAfterRemove(live: set<Range>, r: Range, b: nat)
    requires r in live && forall q :: q in live && q != r ==> q.Apart(r)
    ensures Owned(live - {r}, b) <==> Owned(live, b) && !r.Has(b)
  {
    if Owned(live, b) && !r.Has(b) {
      var q :| q in live && q.Has(b);
      assert q in live - {r};
    }
  }

  lemma GiveBackIsSafe(sys: System, range: Range, reserved: set<nat>)
    requires Safe(sys, reserved) && range in sys.live
    ensures range.start + range.count <= 32 * |sys.mem.words|
    ensures var after := Step(sys, GiveBack(range));
            Safe(after, reserved) && Drift(after.mem) == Drift(sys.mem)
  {
    hide U32;
    var words, after := sys.mem.words, Step(sys, GiveBack(range));
    forall b: nat | b < 32 * |words|
      ensures Free(after.mem.words, b) <==> b !in reserved && !Owned(after.live, b)
    {
      FreeAfterUpdates(words, range.start, range.count, b);
      OwnedAfterRemove(sys.live, range, b);
    }
    forall b: nat | range.start <= b < range.start + range.count ensures !Free(words, b) {
      assert range.Has(b);
      assert Owned(sys.live, b);
    }
    DriftAfterClear(sys.mem, range.start, range.count);
  }

  /** Giving a run back takes it from its owner and clears its blocks and no others. */
  lemma GiveBackOutcome(sys: System, range: Range)
    requires sys.mem.WellFormed() && range in sys.live && range.start + range.count <= 32 * |sys.mem.words|
    ensures var after := Step(sys, GiveBack(range));
            && after.live == sys.live - {range}
            && SetBits(after.mem.words) == SetBits(sys.mem.words) - Blocks(range.start, range.count)
            && after.mem.usedBlocks == U32(sys.mem.usedBlocks - range.count)
  {
    hide U32, IsSet, ClearRange, SetBits, Blocks;
    RangeUpdates(sys.mem.words, range.start, range.count);
  }

  ghost predicate LegalRun(sys: System, ops: seq<Op>, reserved: set<nat>)
    requires Safe(sys, reserved)
    decreases ops
  {
    ops == [] ||
    (Legal(sys, ops[0]) &&
     (StepIsSafe(sys, ops[0], reserved); LegalRun(Step(sys, ops[0]), ops[1..], reserved)))
  }

  lemma StepIsSafe(sys: System, op: Op, reserved: set<nat>)
    requires Safe(sys, reserved) && Legal(sys, op)
    ensures op.GiveBack? ==> op.range.start + op.range.count <= 32 * |sys.mem.words|
    ensures Safe(Step(sys, op), reserved) && Drift(Step(sys, op).mem) == Drift(sys.mem)
  {
    match op
    case Acquire(count) => AcquireIsSafe(sys, count, reserved);
    case GiveBack(range) => GiveBackIsSafe(sys, range, reserved);
  }

  ghost function Run(sys: System, ops: seq<Op>, reserved: set<nat>): System
    requires Safe(sys, reserved) && LegalRun(sys, ops, reserved)
    decreases ops
  {
    if ops == [] then sys
    else
      StepIsSafe(sys, ops[0], reserved);
      Run(Step(sys, ops[0]), ops[1..], reserved)
  }

  /** Over every run of allocations of at most 33 blocks and releases of owned ranges: the bitmap
      is exactly the reserved blocks plus the live ranges, live ranges are pairwise disjoint and
      never contain block 0, and used_blocks keeps its distance to the number of set bits. */
  lemma {:induction false} RunsAreSafe(sys: System, ops: seq<Op>, reserved: set<nat>)
    requires Safe(sys, reserved) && LegalRun(sys, ops, reserved)
    ensures var end := Run(sys, ops, reserved);
            Safe(end, reserved) && Drift(end.mem) == Drift(sys.mem)
    decreases ops
  {
    if ops == [] {
    } else {
      StepIsSafe(sys, ops[0], reserved);
      RunsAreSafe(Step(sys, ops[0]), ops[1..], reserved);
    }
  }
}
