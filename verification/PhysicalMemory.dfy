/** The physical block allocator: a bitmap with one bit per 4 KB block, scanned for the
    first run of clear bits. */
module PhysicalMemory {
  import opened Words

  const BLOCK_SIZE: nat := 4096
  const MAX_RUN: nat := 33   // the longest run whose probes stay inside two words

  // ---------- What the scan tests, and what it is meant to test ----------

  // The test made for block number `count` of a run starting at bit j of word i. Past bit 31
  // the next word is probed; the shift there is a 32-bit shift, so its count wraps at 32.
  predicate ProbeClear(words: seq<Word>, i: nat, j: Index, count: nat)
    requires i + 1 < |words|
  {
    if j + count > 31 then !words[i + 1][(j + count - 32) % 32] else !words[i][j + count]
  }

  predicate ProbesClear(words: seq<Word>, i: nat, j: Index, n: nat)
    requires i + 1 < |words|
  {
    forall count: nat :: count < n ==> ProbeClear(words, i, j, count)
  }

  predicate Probed(words: seq<Word>, s: nat, n: nat)
    requires s / 32 + 1 < |words|
  {
    ProbesClear(words, s / 32, s % 32, n)
  }

  predicate Free(words: seq<Word>, b: nat) {
    b < 32 * |words| && !IsSet(words, b)
  }

  predicate RunFree(words: seq<Word>, s: nat, n: nat) {
    forall b: nat :: s <= b < s + n ==> Free(words, b)
  }

  // r is the first start the word-by-word scan accepts, or -1 when it accepts none.
  predicate FirstProbed(words: seq<Word>, n: nat, r: int)
    requires |words| >= 1
  {
    var whole := 32 * (|words| - 1);
    if r == -1 then forall s: nat :: s < whole ==> !Probed(words, s, n)
    else 0 <= r < whole && Probed(words, r, n) && forall s: nat :: s < r ==> !Probed(words, s, n)
  }

  // r is the least start, in the whole-word part, of n consecutive clear bits, or -1.
  predicate FirstFree(words: seq<Word>, n: nat, r: int)
    requires |words| >= 1
  {
    var whole := 32 * (|words| - 1);
    if r == -1 then forall s: nat :: s < whole ==> !RunFree(words, s, n)
    else 0 <= r < whole && RunFree(words, r, n) && forall s: nat :: s < r ==> !RunFree(words, s, n)
  }

  lemma ProbesAreBits(words: seq<Word>, s: nat, n: nat)
    requires s / 32 + 1 < |words| && n <= MAX_RUN
    ensures Probed(words, s, n) <==> RunFree(words, s, n)
  {
    var i, j := s / 32, s % 32;
    forall count: nat | count < n
      ensures ProbeClear(words, i, j, count) <==> Free(words, s + count)
    {
      if j + count > 31 {
        assert (s + count) / 32 == i + 1 && (s + count) % 32 == j + count - 32;
      } else {
        assert (s + count) / 32 == i && (s + count) % 32 == j + count;
      }
    }
    if Probed(words, s, n) {
      forall b: nat | s <= b < s + n ensures Free(words, b) {
        assert ProbeClear(words, i, j, b - s);
      }
    }
    if RunFree(words, s, n) {
      forall count: nat | count < n ensures ProbeClear(words, i, j, count) {
        assert Free(words, s + count);
      }
    }
  }

  // A used first block rules a start out.
  lemma UsedStartIsRejected(words: seq<Word>, i: nat, j: Index, n: nat)
    requires i + 1 < |words| && words[i][j] && 0 < n
    ensures !Probed(words, 32 * i + j, n)
  {
    var s := 32 * i + j;
    assert s / 32 == i && s % 32 == j;
    assert !ProbeClear(words, i, j, 0);
  }

  // Bit 31 of the first word, all of the second word and nothing of the third are free:
  // a run of 33 blocks, which the scan takes for a run of any length.
  function WrapWitness(): seq<Word> {
    [ALL_ONES[31 := false], seq(32, _ => false), ALL_ONES]
  }

  lemma WrapWitnessFoolsTheScan(n: nat)
    requires n > MAX_RUN
    ensures FirstProbed(WrapWitness(), n, 31) && !FirstFree(WrapWitness(), n, 31)
  {
    var w := WrapWitness();
    assert Probed(w, 31, n);
    forall s: nat | s < 31 ensures !Probed(w, s, n) {
      UsedStartIsRejected(w, 0, s, n);
    }
    assert !Free(w, 64);
  }

  /** The word-skipping, word-crossing scan finds what a naive scan of the bits finds, on every
      bitmap, exactly for requests of up to 33 blocks. */
  lemma ScanIsNaiveScanIff(n: nat)
    ensures (forall words: seq<Word>, r: int :: |words| >= 1 ==>
                (FirstProbed(words, n, r) <==> FirstFree(words, n, r)))
            <==> n <= MAX_RUN
  {
    if n <= MAX_RUN {
      forall words: seq<Word>, r: int | |words| >= 1
        ensures FirstProbed(words, n, r) <==> FirstFree(words, n, r)
      {
        forall s: nat | s < 32 * (|words| - 1) ensures Probed(words, s, n) <==> RunFree(words, s, n) {
          ProbesAreBits(words, s, n);
        }
      }
    } else {
      WrapWitnessFoolsTheScan(n);
      assert |WrapWitness()| >= 1;
    }
  }

  // The naive scan, from block s on.
  function FirstFit(words: seq<Word>, n: nat, s: nat): (r: int)
    requires |words| >= 1 && s <= 32 * (|words| - 1)
    requires forall t: nat :: t < s ==> !RunFree(words, t, n)
    ensures FirstFree(words, n, r)
    decreases 32 * |words| - s
  {
    if s == 32 * (|words| - 1) then -1
    else if RunFree(words, s, n) then s
    else FirstFit(words, n, s + 1)
  }

  lemma FirstFreeIsUnique(words: seq<Word>, n: nat, q: int, r: int)
    requires |words| >= 1 && FirstFree(words, n, q) && FirstFree(words, n, r)
    ensures q == r
  {}

  // ---------- The allocator's state and its two operations ----------

  datatype Memory = Memory(words: seq<Word>, maxBlocks: nat, usedBlocks: nat) {
    predicate WellFormed() {
      && maxBlocks < 0x10_0000
      && |words| == maxBlocks / 32 + 1
      && usedBlocks < TWO_TO_32
    }
  }

  // The blocks of a run.
  ghost function Blocks(s: nat, n: nat): (r: set<nat>)
    ensures forall b: nat :: b in r <==> s <= b < s + n
    ensures |r| == n
  {
    if n == 0 then {} else Blocks(s, n - 1) + {s + n - 1}
  }

  function SetRange(words: seq<Word>, s: nat, n: nat): (r: seq<Word>)
    requires s + n <= 32 * |words|
    ensures |r| == |words|
  {
    if n == 0 then words else SetBit(SetRange(words, s, n - 1), s + n - 1)
  }

  function ClearRange(words: seq<Word>, s: nat, n: nat): (r: seq<Word>)
    requires s + n <= 32 * |words|
    ensures |r| == |words|
  {
    if n == 0 then words else ClearBit(ClearRange(words, s, n - 1), s + n - 1)
  }

  lemma {:induction false} RangeUpdatesAt(words: seq<Word>, s: nat, n: nat, c: nat)
    requires s + n <= 32 * |words| && c < 32 * |words|
    ensures IsSet(SetRange(words, s, n), c) <==> s <= c < s + n || IsSet(words, c)
    ensures IsSet(ClearRange(words, s, n), c) <==> !(s <= c < s + n) && IsSet(words, c)
  {
    hide IsSet, SetBit, ClearBit;
    if n == 0 {
    } else {
      RangeUpdatesAt(words, s, n - 1, c);
      SetBitAt(SetRange(words, s, n - 1), s + n - 1, c);
      SetBitAt(ClearRange(words, s, n - 1), s + n - 1, c);
    }
  }

  lemma RangeUpdates(words: seq<Word>, s: nat, n: nat)
    requires s + n <= 32 * |words|
    ensures SetBits(SetRange(words, s, n)) == SetBits(words) + Blocks(s, n)
    ensures SetBits(ClearRange(words, s, n)) == SetBits(words) - Blocks(s, n)
  {
    hide IsSet;
    forall c: nat | c < 32 * |words|
      ensures c in SetBits(SetRange(words, s, n)) <==> c in SetBits(words) + Blocks(s, n)
      ensures c in SetBits(ClearRange(words, s, n)) <==> c in SetBits(words) - Blocks(s, n)
    {
      RangeUpdatesAt(words, s, n, c);
    }
  }

  // allocate_blocks: the new state and the address handed out (0 on failure).
  function Allocate(m: Memory, n: nat): (r: (Memory, nat))
    requires m.WellFormed() && n <= MAX_RUN
    ensures r.0.WellFormed() && r.0.maxBlocks == m.maxBlocks
  {
    var s := if n == 0 then -1 else FirstFit(m.words, n, 0);
    if U32(m.maxBlocks - m.usedBlocks) <= n || s == -1 then (m, 0)
    else
      RunFits(m.words, s, n);
      (Memory(SetRange(m.words, s, n), m.maxBlocks, U32(m.usedBlocks + n)), U32(s * BLOCK_SIZE))
  }

  lemma RunFits(words: seq<Word>, s: nat, n: nat)
    requires 0 < n && RunFree(words, s, n)
    ensures s + n <= 32 * |words|
  {
    assert Free(words, s + n - 1);
  }

  // free_blocks: `address` is any address inside the first block.
  function Release(m: Memory, address: nat, n: nat): (r: Memory)
    requires m.WellFormed() && address / BLOCK_SIZE + n <= 32 * |m.words|
    ensures r.WellFormed() && r.maxBlocks == m.maxBlocks
  {
    Memory(ClearRange(m.words, address / BLOCK_SIZE, n), m.maxBlocks, U32(m.usedBlocks - n))
  }

  class PhysicalMemoryManager {
    const memoryMap: array<Word>
    const maxBlocks: nat
    var usedBlocks: nat

    ghost predicate Valid()
      reads this, memoryMap
    {
      View().WellFormed()
    }

    ghost function View(): Memory
      reads this, memoryMap
    {
      Memory(memoryMap[..], maxBlocks, usedBlocks)
    }

    method SetBlock(bit: nat)
      requires bit < 32 * memoryMap.Length
      modifies memoryMap
      ensures memoryMap[..] == SetBit(old(memoryMap[..]), bit)
    {
      memoryMap[bit / 32] := OrBit(memoryMap[bit / 32], bit % 32);
    }

    method UnsetBlock(bit: nat)
      requires bit < 32 * memoryMap.Length
      modifies memoryMap
      ensures memoryMap[..] == ClearBit(old(memoryMap[..]), bit)
    {
      memoryMap[bit / 32] := AndNotBit(memoryMap[bit / 32], bit % 32);
    }

    method FindFirstFreeBlocks(numBlocks: nat) returns (r: int)
      requires Valid()
      ensures numBlocks == 0 ==> r == -1
      ensures numBlocks > 0 ==> FirstProbed(memoryMap[..], numBlocks, r)
    {
      if numBlocks == 0 { return -1; }
      ghost var words := memoryMap[..];
      var i := 0;
      while i < maxBlocks / 32
        invariant i <= maxBlocks / 32
        invariant forall s: nat :: s < 32 * i ==> !Probed(words, s, numBlocks)
      {
        if memoryMap[i] != ALL_ONES {
          var j := 0;
          while j < 32
            invariant j <= 32
            invariant forall s: nat :: s < 32 * i + j ==> !Probed(words, s, numBlocks)
          {
            ghost var s := 32 * i + j;
            assert s / 32 == i && s % 32 == j;
            if !memoryMap[i][j] {
              var count, freeBlocks := 0, 0;
              while count < numBlocks
                invariant freeBlocks <= count <= numBlocks
                invariant freeBlocks < numBlocks
                invariant freeBlocks == count <==> ProbesClear(words, i, j, count)
              {
                assert ProbesClear(words, i, j, count + 1) <==>
                       ProbesClear(words, i, j, count) && ProbeClear(words, i, j, count);
                if j + count > 31 && i + 1 <= maxBlocks / 32 {
                  if !memoryMap[i + 1][(j + count - 32) % 32] { freeBlocks := freeBlocks + 1; }
                } else {
                  if !memoryMap[i][j + count] { freeBlocks := freeBlocks + 1; }
                }
                if freeBlocks == numBlocks {
                  assert Probed(words, s, numBlocks);
                  return i * 32 + j;
                }
                count := count + 1;
              }
            } else {
              UsedStartIsRejected(words, i, j, numBlocks);
            }
            j := j + 1;
          }
        } else {
          forall s: nat | 32 * i <= s < 32 * (i + 1) ensures !Probed(words, s, numBlocks) {
            UsedStartIsRejected(words, i, s - 32 * i, numBlocks);
          }
        }
        i := i + 1;
      }
      return -1;
    }

    // The marking loops of allocate_blocks and free_blocks.
    method SetBlocks(startingBlock: nat, numBlocks: nat)
      requires startingBlock + numBlocks <= 32 * memoryMap.Length
      modifies memoryMap
      ensures memoryMap[..] == SetRange(old(memoryMap[..]), startingBlock, numBlocks)
    {
      var i := 0;
      while i < numBlocks
        invariant i <= numBlocks
        invariant memoryMap[..] == SetRange(old(memoryMap[..]), startingBlock, i)
      {
        SetBlock(startingBlock + i);
        i := i + 1;
      }
    }

    method UnsetBlocks(startingBlock: nat, numBlocks: nat)
      requires startingBlock + numBlocks <= 32 * memoryMap.Length
      modifies memoryMap
      ensures memoryMap[..] == ClearRange(old(memoryMap[..]), startingBlock, numBlocks)
    {
      var i := 0;
      while i < numBlocks
        invariant i <= numBlocks
        invariant memoryMap[..] == ClearRange(old(memoryMap[..]), startingBlock, i)
      {
        UnsetBlock(startingBlock + i);
        i := i + 1;
      }
    }

    method AllocateBlocks(numBlocks: nat) returns (address: nat)
      requires Valid() && numBlocks <= MAX_RUN
      modifies this, memoryMap
      ensures Valid()
      ensures (View(), address) == Allocate(old(View()), numBlocks)
    {
      if U32(maxBlocks - usedBlocks) <= numBlocks { return 0; }
      var startingBlock := FindFirstFreeBlocks(numBlocks);
      ScanAgrees(memoryMap[..], numBlocks, startingBlock);
      if startingBlock == -1 { return 0; }
      RunFits(memoryMap[..], startingBlock, numBlocks);
      SetBlocks(startingBlock, numBlocks);
      usedBlocks := U32(usedBlocks + numBlocks);
      address := U32(startingBlock * BLOCK_SIZE);
    }

    method FreeBlocks(address: nat, numBlocks: nat)
      requires Valid() && address / BLOCK_SIZE + numBlocks <= 32 * memoryMap.Length
      modifies this, memoryMap
      ensures Valid()
      ensures View() == Release(old(View()), address, numBlocks)
    {
      var startingBlock := address / BLOCK_SIZE;
      UnsetBlocks(startingBlock, numBlocks);
      usedBlocks := U32(usedBlocks - numBlocks);
    }

    // Region set-up at boot: the blocks become available, except block 0.
    method InitializeMemoryRegion(baseAddress: nat, size: nat)
      requires Valid() && baseAddress / BLOCK_SIZE + size / BLOCK_SIZE <= 32 * memoryMap.Length
      modifies this, memoryMap
      ensures Valid()
      ensures memoryMap[..] ==
              SetBit(ClearRange(old(memoryMap[..]), baseAddress / BLOCK_SIZE, size / BLOCK_SIZE), 0)
      ensures usedBlocks == U32(old(usedBlocks) - size / BLOCK_SIZE)
    {
      hide U32, SetBit, ClearBit;
      var align := baseAddress / BLOCK_SIZE;
      var numBlocks := size / BLOCK_SIZE;
      ghost var words, first, total := memoryMap[..], align, numBlocks;
      while numBlocks > 0
        invariant 0 <= numBlocks <= total && align == first + total - numBlocks
        invariant memoryMap[..] == ClearRange(words, first, total - numBlocks)
        invariant usedBlocks == U32(old(usedBlocks) - (total - numBlocks))
      {
        U32Adds(old(usedBlocks) - (total - numBlocks), -1);
        UnsetBlock(align);
        align := align + 1;
        usedBlocks := U32(usedBlocks - 1);
        numBlocks := numBlocks - 1;
      }
      SetBlock(0);
    }

    method DeinitializeMemoryRegion(baseAddress: nat, size: nat)
      requires Valid() && baseAddress / BLOCK_SIZE + size / BLOCK_SIZE <= 32 * memoryMap.Length
      modifies this, memoryMap
      ensures Valid()
      ensures memoryMap[..] == SetRange(old(memoryMap[..]), baseAddress / BLOCK_SIZE, size / BLOCK_SIZE)
      ensures usedBlocks == U32(old(usedBlocks) + size / BLOCK_SIZE)
    {
      hide U32, SetBit, ClearBit;
      var align := baseAddress / BLOCK_SIZE;
      var numBlocks := size / BLOCK_SIZE;
      ghost var words, first, total := memoryMap[..], align, numBlocks;
      while numBlocks > 0
        invariant 0 <= numBlocks <= total && align == first + total - numBlocks
        invariant memoryMap[..] == SetRange(words, first, total - numBlocks)
        invariant usedBlocks == U32(old(usedBlocks) + (total - numBlocks))
      {
        U32Adds(old(usedBlocks) + (total - numBlocks), 1);
        SetBlock(align);
        align := align + 1;
        usedBlocks := U32(usedBlocks + 1);
        numBlocks := numBlocks - 1;
      }
    }
  }

  lemma ScanAgrees(words: seq<Word>, n: nat, r: int)
    requires |words| >= 1 && 
      (if n == 0 then r == -1 else n <= MAX_RUN && FirstProbed(words, n, r))
    ensures n > 0 ==> FirstFree(words, n, r) && r == FirstFit(words, n, 0)
  {
    if n > 0 {
      ScanIsNaiveScanIff(n);
      assert FirstFree(words, n, r);
      FirstFreeIsUnique(words, n, r, FirstFit(words, n, 0));
    }
  }
}
