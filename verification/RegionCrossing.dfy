/** A machine on which the heap, grown to 4 MB, loses a page to the page table of the next 4 MB. */
module RegionCrossing {
  import opened Words
  import opened BitOps
  import opened PhysicalMemory
  import opened VirtualMemory
  import opened TableChain
  import opened HeapBacking

  const MEMORY: nat := 4096        // 16 MB, in frames
  const USED: nat := 1028          // block 0, the directory, two tables and the heap's 1024 frames
  const DIRECTORY: nat := 1
  const LOW_TABLE: nat := 2
  const HEAP_TABLE: nat := 3
  const FIRST_DATA: nat := 4

  function DirectoryFrame(): (r: seq<nat>)
    ensures |r| == ENTRIES && r[0] == LOW_TABLE * PAGE_SIZE + FLAGS && r[1] == HEAP_TABLE * PAGE_SIZE + FLAGS
    ensures forall i :: 1 < i < ENTRIES ==> r[i] == 0
  {
    seq(ENTRIES, r => if r == 0 then LOW_TABLE * PAGE_SIZE + FLAGS
                      else if r == 1 then HEAP_TABLE * PAGE_SIZE + FLAGS else 0)
  }

  // Page 1024 + i is mapped to frame 4 + i.
  function HeapTableFrame(): (r: seq<nat>)
    ensures |r| == ENTRIES && forall i :: 0 <= i < ENTRIES ==> r[i] == (FIRST_DATA + i) * PAGE_SIZE + FLAGS
  {
    seq(ENTRIES, i requires 0 <= i < ENTRIES => (FIRST_DATA + i) * PAGE_SIZE + FLAGS)
  }

  function EmptyFrame(): (r: seq<nat>)
    ensures |r| == ENTRIES
  {
    seq(ENTRIES, _ => 0)
  }

  function Ram(): (r: seq<seq<nat>>)
    ensures |r| == MEMORY && r[DIRECTORY] == DirectoryFrame() && r[HEAP_TABLE] == HeapTableFrame()
    ensures forall f :: 0 <= f < MEMORY ==> |r[f]| == ENTRIES
  {
    seq(MEMORY, f requires f >= 0 => RamFrame(f))
  }

  function RamFrame(f: nat): (r: seq<nat>)
    ensures |r| == ENTRIES
  {
    if f == DIRECTORY then DirectoryFrame() else if f == HEAP_TABLE then HeapTableFrame() else EmptyFrame()
  }

  // The first USED frames are in use, and the bitmap's padding is set.
  function Bitmap(): (r: seq<Word>)
    ensures |r| == MEMORY / 32 + 1
  {
    seq(MEMORY / 32 + 1, w requires w >= 0 => BitmapWord(w))
  }

  function BitmapWord(w: nat): Word {
    seq(32, b requires b >= 0 => 32 * w + b < USED || MEMORY <= 32 * w + b)
  }

  function Grown(): Machine {
    Machine(Ram(), DIRECTORY, Memory(Bitmap(), MEMORY, USED))
  }

  lemma BitmapBits(b: nat)
    requires b < 32 * |Bitmap()|
    ensures IsSet(Bitmap(), b) <==> b < USED || MEMORY <= b
  {
    assert Bitmap()[b / 32] == BitmapWord(b / 32);
    assert 32 * (b / 32) + b % 32 == b;
  }

  // With the first f blocks in use and block f free, block f is handed out.
  lemma NextIsHandedOut(m: Memory, f: nat)
    requires m.WellFormed() && f < 32 * (|m.words| - 1) && !IsSet(m.words, f)
    requires forall b: nat :: b < f ==> IsSet(m.words, b)
    requires m.maxBlocks - m.usedBlocks > 1
    ensures Allocate(m, 1) == (Memory(SetBit(m.words, f), m.maxBlocks, m.usedBlocks + 1), f * PAGE_SIZE)
  {
    assert RunFree(m.words, f, 1);
    forall s: nat | s < f ensures !RunFree(m.words, s, 1) {
      assert !Free(m.words, s);
    }
    FirstFreeIsUnique(m.words, 1, FirstFit(m.words, 1, 0), f);
    assert SetRange(m.words, f, 0) == m.words;
  }

  lemma NextTwoBlocks()
    ensures Grown().mem.WellFormed()
    ensures var (mem, first) := Allocate(Grown().mem, 1);
            first == USED * PAGE_SIZE && Allocate(mem, 1).1 == (USED + 1) * PAGE_SIZE
  {
    hide Allocate, Bitmap, BitmapWord;
    var m := Grown().mem;
    forall b: nat | b < 32 * |m.words| ensures IsSet(m.words, b) <==> b < USED || MEMORY <= b {
      BitmapBits(b);
    }
    NextIsHandedOut(m, USED);
    var once := Allocate(m, 1).0;
    forall b: nat | b < 32 * |m.words| ensures IsSet(once.words, b) <==> b < USED + 1 || MEMORY <= b {
      SetBitAt(m.words, USED, b);
    }
    NextIsHandedOut(once, USED + 1);
  }

  lemma GrownIsWellFormed()
    ensures Grown().WellFormed()
    ensures forall r :: Grown().HasTable(r) <==> r == 0 || r == 1
    ensures Grown().TableFrames() == {LOW_TABLE, HEAP_TABLE}
  {
    hide Bitmap, BitmapWord, Ram, DirectoryFrame;
    var m := Grown();
    forall b: nat | b < 32 * |m.mem.words| ensures IsSet(m.mem.words, b) <==> b < USED || MEMORY <= b {
      BitmapBits(b);
    }
    assert m.Sized();
    assert m.Entry(0) == LOW_TABLE * PAGE_SIZE + FLAGS && m.Entry(1) == HEAP_TABLE * PAGE_SIZE + FLAGS;
    assert m.HasTable(0) && m.HasTable(1);
    assert m.TableFrame(0) == LOW_TABLE && m.TableFrame(1) == HEAP_TABLE;
  }

  lemma GrownPage(k: nat)
    requires k < ENTRIES
    ensures Grown().WellFormed() && FrameOf(Grown(), k) == FIRST_DATA + k && DataFrame(Grown(), FIRST_DATA + k)
    ensures FlagsOf(Grown(), k) == FLAGS
  {
    hide Machine.WellFormed, Ram, HeapTableFrame, Bitmap;
    GrownIsWellFormed();
    var m := Grown();
    assert (FIRST_PAGE + k) / ENTRIES == 1 && (FIRST_PAGE + k) % ENTRIES == k;
    assert m.Translation(FIRST_PAGE + k) == (FIRST_DATA + k) * PAGE_SIZE + FLAGS;
    BitmapBits(FIRST_DATA + k);
  }

  /** The heap fills its first 4 MB, every page backed. One page more takes a table for the next
      region, whose frame is numbered as a page of the heap: that page is lost. */
  lemma FourMegabyteHeapLosesAPage()
    ensures Grown().WellFormed() && Backed(Grown(), ENTRIES)
    ensures !Backed(BackPage(Grown(), FIRST_PAGE + ENTRIES), ENTRIES + 1)
  {
    hide Allocate, FrameOf, FlagsOf, BackPage, Machine.WellFormed, Grown;
    GrownIsWellFormed();
    forall k: nat | k < ENTRIES
      ensures FrameOf(Grown(), k) == FIRST_DATA + k && DataFrame(Grown(), FIRST_DATA + k) && FlagsOf(Grown(), k) == FLAGS
    {
      GrownPage(k);
    }
    NextTwoBlocks();
    RegionCrossingLosesAPage(Grown(), ENTRIES);
  }
}
