/** The pages behind the heap: every growth step takes a frame from the block allocator and maps
    it at the end of the heap, which may itself create page tables. */
module HeapBacking {
  import opened Words
  import opened BitOps
  import opened PhysicalMemory
  import opened VirtualMemory
  import opened TableChain
  import FirstFitHeap

  const FLAGS: Flags := 7                                  // present, writable, user
  const FIRST_PAGE: nat := FirstFitHeap.START / PAGE_SIZE     // the heap's first page

  // A frame taken from the allocator for data.
  function WithMemory(m: Machine, mem: Memory): Machine {
    m.(mem := mem)
  }

  lemma TakingAFrameIsWellFormed(m: Machine)
    requires m.WellFormed()
    ensures var n := WithMemory(m, Allocate(m.mem, 1).0);
            && n.WellFormed() && n.TableFrames() == m.TableFrames()
            && (forall p: Page :: n.Translation(p) == m.Translation(p))
  {
    AllocateOne(m);
    var n := WithMemory(m, Allocate(m.mem, 1).0);
    assert forall r :: 0 <= r < ENTRIES ==> n.Entry(r) == m.Entry(r);
    assert forall r :: n.HasTable(r) <==> m.HasTable(r);
    SameDirectorySameTables(m, n);
  }

  // One round of the growth loop: neither the allocation nor the mapping is checked.
  ghost function BackPage(m: Machine, page: Page): (n: Machine)
    requires m.WellFormed()
    ensures n.WellFormed() && n.dir == m.dir && |n.frames| == |m.frames|
  {
    TakingAFrameIsWellFormed(m);
    var (mem, address) := Allocate(m.mem, 1);
    MapPage(WithMemory(m, mem), address, page, FLAGS).1
  }

  ghost function BackPages(m: Machine, page: nat, count: nat): (n: Machine)
    requires m.WellFormed() && page + count <= PAGES
    ensures n.WellFormed() && n.dir == m.dir && |n.frames| == |m.frames|
    decreases count
  {
    if count == 0 then m else BackPage(BackPages(m, page, count - 1), page + count - 1)
  }

  // The heap's pages are mapped, with the heap's flags, to pairwise distinct used frames that hold
  // neither a page table nor the directory.
  ghost predicate Backed(m: Machine, pages: nat)
    requires m.WellFormed() && FIRST_PAGE + pages <= PAGES
  {
    && (forall k: nat :: k < pages ==> DataFrame(m, FrameOf(m, k)) && FlagsOf(m, k) == FLAGS)
    && (forall k: nat, l: nat :: k < l < pages ==> FrameOf(m, k) != FrameOf(m, l))
  }

  ghost predicate DataFrame(m: Machine, f: nat)
    requires m.WellFormed()
  {
    0 < f && m.UsedFrame(f) && f != m.dir && f !in m.TableFrames()
  }

  ghost function FrameOf(m: Machine, k: nat): nat
    requires m.WellFormed() && FIRST_PAGE + k < PAGES
  {
    m.Translation(FIRST_PAGE + k) / PAGE_SIZE
  }

  ghost function FlagsOf(m: Machine, k: nat): nat
    requires m.WellFormed() && FIRST_PAGE + k < PAGES
  {
    m.Translation(FIRST_PAGE + k) % PAGE_SIZE
  }

  // ---------- What a round of growth needs, told before it ----------

  // A free frame for the page; a table for its region, there already or to be had; and no frame of
  // the chain of tables it creates numbered as a page the heap has. A table maps itself at its own
  // address, which would take that page over.
  ghost predicate RoundFits(s: Supply, pages: nat)
    requires s.mem.WellFormed()
  {
    var (mem, address) := Allocate(s.mem, 1);
    var r := (FIRST_PAGE + pages) / ENTRIES;
    var frames := Chain(Supply(mem, s.missing), r).0;
    && address != 0
    && (r !in s.missing || frames != [])
    && forall f :: f in frames ==> !InHeap(f, pages)
  }

  predicate InHeap(f: nat, pages: nat) {
    FIRST_PAGE <= f < FIRST_PAGE + pages
  }

  // What a round leaves for the next.
  ghost function AfterRound(s: Supply, pages: nat): (t: Supply)
    requires s.mem.WellFormed()
    ensures t.mem.WellFormed()
  {
    Chain(Supply(Allocate(s.mem, 1).0, s.missing), (FIRST_PAGE + pages) / ENTRIES).1
  }

  ghost function AfterRounds(s: Supply, pages: nat, count: nat): (t: Supply)
    requires s.mem.WellFormed()
    ensures t.mem.WellFormed()
    decreases count
  {
    if count == 0 then s else AfterRound(AfterRounds(s, pages, count - 1), pages + count - 1)
  }

  // Every round of a growth by `count` pages fits.
  ghost predicate GrowthFits(s: Supply, pages: nat, count: nat)
    requires s.mem.WellFormed()
    decreases count
  {
    count == 0 ||
    (GrowthFits(s, pages, count - 1) && RoundFits(AfterRounds(s, pages, count - 1), pages + count - 1))
  }

  // A round takes one frame and its chain.
  lemma RoundTakes(m: Machine, pages: nat)
    requires m.WellFormed() && FIRST_PAGE + pages < PAGES
    ensures var n := BackPage(m, FIRST_PAGE + pages);
            var (mem, address) := Allocate(m.mem, 1);
            var frames := Chain(Supply(mem, m.FreeRegions()), (FIRST_PAGE + pages) / ENTRIES).0;
            && SupplyOf(n) == AfterRound(SupplyOf(m), pages)
            && n.TableFrames() - m.TableFrames() == Frames(frames)
            && m.TableFrames() <= n.TableFrames()
  {
    hide Machine.WellFormed, Allocate, MapPage;
    var (mem, address) := Allocate(m.mem, 1);
    TakingAFrameIsWellFormed(m);
    var t := WithMemory(m, mem);
    assert t.FreeRegions() == m.FreeRegions();
    MapTakesChain(t, address, FIRST_PAGE + pages, FLAGS);
  }

  lemma {:induction false} RoundsTake(m: Machine, pages: nat, count: nat)
    requires m.WellFormed() && FIRST_PAGE + pages + count <= PAGES
    ensures SupplyOf(BackPages(m, FIRST_PAGE + pages, count)) == AfterRounds(SupplyOf(m), pages, count)
    decreases count
  {
    hide Machine.WellFormed, BackPage, AfterRound;
    if count > 0 {
      RoundsTake(m, pages, count - 1);
      RoundTakes(BackPages(m, FIRST_PAGE + pages, count - 1), pages + count - 1);
    }
  }

  lemma DataFrameOutlivesNewTables(m: Machine, n: Machine, target: set<nat>, flags: Flags, g: nat)
    requires m.WellFormed() && Extends(m, n) && OnlyNewTables(m, n, target, flags) && DataFrame(m, g)
    ensures DataFrame(n, g)
  {
    assert g in SetBits(m.mem.words);
    assert g in SetBits(n.mem.words);
  }

  lemma TakenFrameIsData(m: Machine, g: nat)
    requires m.WellFormed()
    requires var address := Allocate(m.mem, 1).1;
             address != 0 && (g == address / PAGE_SIZE || DataFrame(m, g))
    ensures var t := WithMemory(m, Allocate(m.mem, 1).0);
            t.WellFormed() && DataFrame(t, g)
  {
    TakingAFrameIsWellFormed(m);
    AllocateOne(m);
  }

  // The pages the heap already had, but for those the chain takes over, keep their frames.
  lemma RoundKeepsPage(m: Machine, pages: nat, k: nat)
    requires m.WellFormed() && FIRST_PAGE + pages < PAGES && k < pages
    ensures var n := BackPage(m, FIRST_PAGE + pages);
            FIRST_PAGE + k !in n.TableFrames() - m.TableFrames() ==>
              FrameOf(n, k) == FrameOf(m, k) && FlagsOf(n, k) == FlagsOf(m, k)
  {
    hide Allocate, MapPage, Machine.WellFormed, Machine.Translation;
    var (mem, address) := Allocate(m.mem, 1);
    TakingAFrameIsWellFormed(m);
    var t, page, q := WithMemory(m, mem), FIRST_PAGE + pages, FIRST_PAGE + k;
    MapPageSpec(t, address, page, FLAGS);
    var n := MapPage(t, address, page, FLAGS).1;
    if q !in n.TableFrames() - t.TableFrames() {
      assert n.Translation(q) == t.Translation(q) == m.Translation(q);
    }
  }

  // What a round that fits does: its page gets the frame taken for it, with the heap's flags, and
  // so do the tables made for it.
  lemma RoundMapsPage(m: Machine, pages: nat)
    requires m.WellFormed() && FIRST_PAGE + pages < PAGES && RoundFits(SupplyOf(m), pages)
    ensures FrameOf(BackPage(m, FIRST_PAGE + pages), pages)
            == Allocate(m.mem, 1).1 / PAGE_SIZE
    ensures FlagsOf(BackPage(m, FIRST_PAGE + pages), pages) == FLAGS
    ensures NewEntriesCarry(m, BackPage(m, FIRST_PAGE + pages), FLAGS)
    ensures DataFrame(BackPage(m, FIRST_PAGE + pages), FrameOf(BackPage(m, FIRST_PAGE + pages), pages))
    ensures forall g :: DataFrame(m, g) ==> DataFrame(BackPage(m, FIRST_PAGE + pages), g)
  {
    hide Allocate, MapPage, Machine.WellFormed, Machine.Translation, Or, Chain;
    var (mem, address) := Allocate(m.mem, 1);
    TakingAFrameIsWellFormed(m);
    AllocateOne(m);
    var t, page, f := WithMemory(m, mem), FIRST_PAGE + pages, address / PAGE_SIZE;
    assert t.FreeRegions() == m.FreeRegions();
    MapTakesChain(t, address, page, FLAGS);
    MapPageSpec(t, address, page, FLAGS);
    EntryKeepsFrame(f, FLAGS);
    var n := MapPage(t, address, page, FLAGS).1;
    forall g | g == f || DataFrame(m, g) ensures DataFrame(n, g) {
      TakenFrameIsData(m, g);
      DataFrameOutlivesNewTables(t, n, {page}, FLAGS, g);
    }
  }

  lemma RoundKeepsBacking(m: Machine, pages: nat)
    requires m.WellFormed() && FIRST_PAGE + pages < PAGES
    requires Backed(m, pages) && RoundFits(SupplyOf(m), pages)
    ensures Backed(BackPage(m, FIRST_PAGE + pages), pages + 1)
    ensures forall k: nat :: k < pages ==> FrameOf(BackPage(m, FIRST_PAGE + pages), k) == FrameOf(m, k)
  {
    hide Allocate, MapPage, BackPage, Machine.WellFormed, Machine.Translation, Chain;
    var n := BackPage(m, FIRST_PAGE + pages);
    RoundMapsPage(m, pages);
    RoundTakes(m, pages);
    AllocateOne(m);
    forall k: nat | k < pages
      ensures FrameOf(n, k) == FrameOf(m, k) && FrameOf(n, k) != FrameOf(n, pages)
      ensures FlagsOf(n, k) == FlagsOf(m, k)
    {
      assert InHeap(FIRST_PAGE + k, pages);
      RoundKeepsPage(m, pages, k);
      assert DataFrame(m, FrameOf(m, k));
    }
    forall k: nat | k < pages + 1 ensures DataFrame(n, FrameOf(n, k)) && FlagsOf(n, k) == FLAGS {
      if k < pages { assert DataFrame(m, FrameOf(m, k)); }
    }
    forall k: nat, l: nat | k < l < pages + 1 ensures FrameOf(n, k) != FrameOf(n, l) {
      if l < pages { assert FrameOf(m, k) != FrameOf(m, l); }
    }
  }

  // ---------- Rounds that do not fit ----------

  // Heap page k has no frame, or a page table's.
  ghost predicate Lost(m: Machine, k: nat)
    requires m.WellFormed() && FIRST_PAGE + k < PAGES
  {
    FrameOf(m, k) == 0 || FrameOf(m, k) in m.TableFrames()
  }

  ghost predicate SomeLost(m: Machine, pages: nat)
    requires m.WellFormed() && FIRST_PAGE + pages <= PAGES
  {
    exists k: nat :: k < pages && Lost(m, k)
  }

  lemma LostIsNotBacked(m: Machine, pages: nat)
    requires m.WellFormed() && FIRST_PAGE + pages <= PAGES && SomeLost(m, pages)
    ensures !Backed(m, pages)
  {
    hide Machine.WellFormed, FrameOf;
    var k: nat :| k < pages && Lost(m, k);
    assert !DataFrame(m, FrameOf(m, k));
  }

  // A new table takes over the page at its own address: that page has its frame, or none.
  lemma TableTakesPage(m: Machine, pages: nat, k: nat)
    requires m.WellFormed() && FIRST_PAGE + pages < PAGES && k < pages
    requires FIRST_PAGE + k in BackPage(m, FIRST_PAGE + pages).TableFrames() - m.TableFrames()
    ensures Lost(BackPage(m, FIRST_PAGE + pages), k)
  {
    hide Allocate, MapPage, Machine.WellFormed, Machine.Translation, Or, NewEntriesCarry, SetBits;
    var (mem, address) := Allocate(m.mem, 1);
    TakingAFrameIsWellFormed(m);
    var t, page, q := WithMemory(m, mem), FIRST_PAGE + pages, FIRST_PAGE + k;
    MapPageSpec(t, address, page, FLAGS);
    var n := MapPage(t, address, page, FLAGS).1;
    EntryKeepsFrame(q, FLAGS);
    assert n.Translation(q) == if n.HasTable(q / ENTRIES) then Or(q * PAGE_SIZE, FLAGS) else 0;
  }

  // A lost page stays lost.
  lemma LostStaysLost(m: Machine, pages: nat, k: nat)
    requires m.WellFormed() && FIRST_PAGE + pages < PAGES && k < pages && Lost(m, k)
    ensures Lost(BackPage(m, FIRST_PAGE + pages), k)
  {
    hide Machine.WellFormed, BackPage, FrameOf;
    RoundTakes(m, pages);
    RoundKeepsPage(m, pages, k);
    var n := BackPage(m, FIRST_PAGE + pages);
    if FIRST_PAGE + k in n.TableFrames() - m.TableFrames() { TableTakesPage(m, pages, k); }
  }

  // Without a frame or a table for it, the round's own page is lost.
  lemma UnmappedIsLost(m: Machine, pages: nat)
    requires m.WellFormed() && FIRST_PAGE + pages < PAGES
    requires var (mem, address) := Allocate(m.mem, 1);
             var r := (FIRST_PAGE + pages) / ENTRIES;
             address == 0 || (r in m.FreeRegions() && Chain(Supply(mem, m.FreeRegions()), r).0 == [])
    ensures Lost(BackPage(m, FIRST_PAGE + pages), pages)
  {
    hide Allocate, MapPage, Machine.WellFormed;
    var (mem, address) := Allocate(m.mem, 1);
    TakingAFrameIsWellFormed(m);
    AllocateOne(m);
    var t, page := WithMemory(m, mem), FIRST_PAGE + pages;
    assert t.FreeRegions() == m.FreeRegions();
    MapTakesChain(t, address, page, FLAGS);
    MapPageSpec(t, address, page, FLAGS);
    EntryKeepsFrame(0, FLAGS);
  }

  lemma RoundThatDoesNotFit(m: Machine, pages: nat)
    requires m.WellFormed() && FIRST_PAGE + pages < PAGES && !RoundFits(SupplyOf(m), pages)
    ensures SomeLost(BackPage(m, FIRST_PAGE + pages), pages + 1)
  {
    hide Machine.WellFormed, BackPage, FrameOf, Lost, Allocate, Chain;
    var (mem, address) := Allocate(m.mem, 1);
    var r := (FIRST_PAGE + pages) / ENTRIES;
    var frames := Chain(Supply(mem, m.FreeRegions()), r).0;
    if address == 0 || (r in m.FreeRegions() && frames == []) {
      UnmappedIsLost(m, pages);
    } else {
      var f :| f in frames && InHeap(f, pages);
      RoundTakes(m, pages);
      assert f in Frames(frames);
      TableTakesPage(m, pages, f - FIRST_PAGE);
    }
  }

  /** One round of growth keeps the heap's pages backed by pairwise distinct data frames exactly when
      it fits, as the bitmap and the directory before it tell. */
  lemma RoundIsSoundIff(m: Machine, pages: nat)
    requires m.WellFormed() && FIRST_PAGE + pages < PAGES && Backed(m, pages)
    ensures Backed(BackPage(m, FIRST_PAGE + pages), pages + 1) <==> RoundFits(SupplyOf(m), pages)
  {
    hide Machine.WellFormed, BackPage, FrameOf, Backed, RoundFits;
    if RoundFits(SupplyOf(m), pages) {
      RoundKeepsBacking(m, pages);
    } else {
      RoundThatDoesNotFit(m, pages);
      LostIsNotBacked(BackPage(m, FIRST_PAGE + pages), pages + 1);
    }
  }

  /** Growing the heap by pages that fit keeps its pages backed by pairwise distinct data frames, and
      the pages it had keep theirs. */
  lemma {:induction false} GrowthKeepsBacking(m: Machine, pages: nat, count: nat)
    requires m.WellFormed() && FIRST_PAGE + pages + count <= PAGES
    requires Backed(m, pages) && GrowthFits(SupplyOf(m), pages, count)
    ensures var n := BackPages(m, FIRST_PAGE + pages, count);
            Backed(n, pages + count) && forall k: nat :: k < pages ==> FrameOf(n, k) == FrameOf(m, k)
    decreases count
  {
    hide Machine.WellFormed, BackPage, FrameOf, Backed, RoundFits, AfterRounds;
    if count > 0 {
      GrowthKeepsBacking(m, pages, count - 1);
      RoundsTake(m, pages, count - 1);
      RoundKeepsBacking(BackPages(m, FIRST_PAGE + pages, count - 1), pages + count - 1);
    }
  }

  lemma {:induction false} GrowthThatDoesNotFit(m: Machine, pages: nat, count: nat)
    requires m.WellFormed() && FIRST_PAGE + pages + count <= PAGES && !GrowthFits(SupplyOf(m), pages, count)
    ensures SomeLost(BackPages(m, FIRST_PAGE + pages, count), pages + count)
    decreases count
  {
    hide Machine.WellFormed, BackPage, FrameOf, Backed, RoundFits, AfterRounds, Lost;
    var before := BackPages(m, FIRST_PAGE + pages, count - 1);
    if GrowthFits(SupplyOf(m), pages, count - 1) {
      RoundsTake(m, pages, count - 1);
      RoundThatDoesNotFit(before, pages + count - 1);
    } else {
      GrowthThatDoesNotFit(m, pages, count - 1);
      var k: nat :| k < pages + count - 1 && Lost(before, k);
      LostStaysLost(before, pages + count - 1, k);
    }
  }

  /** The same of any growth. */
  lemma GrowthIsSoundIff(m: Machine, pages: nat, count: nat)
    requires m.WellFormed() && FIRST_PAGE + pages + count <= PAGES && Backed(m, pages)
    ensures Backed(BackPages(m, FIRST_PAGE + pages, count), pages + count) <==> GrowthFits(SupplyOf(m), pages, count)
  {
    hide Machine.WellFormed, BackPages, FrameOf, Backed, GrowthFits;
    if GrowthFits(SupplyOf(m), pages, count) {
      GrowthKeepsBacking(m, pages, count);
    } else {
      GrowthThatDoesNotFit(m, pages, count);
      LostIsNotBacked(BackPages(m, FIRST_PAGE + pages, count), pages + count);
    }
  }

  /** Growing into a region without a table, while the second free frame is numbered as one of the
      heap's pages, hands that page's address to the new page table. */
  lemma RegionCrossingLosesAPage(m: Machine, pages: nat)
    requires m.WellFormed() && FIRST_PAGE + pages < PAGES
    requires (FIRST_PAGE + pages) / ENTRIES in m.FreeRegions()
    requires var (mem, _) := Allocate(m.mem, 1);
             var second := Allocate(mem, 1).1;
             second != 0 && InHeap(FrameAt(second), pages)
    ensures !Backed(BackPage(m, FIRST_PAGE + pages), pages + 1)
  {
    hide Machine.WellFormed, BackPage, FrameOf, Backed, Allocate;
    var mem := Allocate(m.mem, 1).0;
    var frames := Chain(Supply(mem, m.FreeRegions()), (FIRST_PAGE + pages) / ENTRIES).0;
    assert frames[0] == FrameAt(Allocate(mem, 1).1);
    assert frames[0] in frames;
    RoundThatDoesNotFit(m, pages);
    LostIsNotBacked(BackPage(m, FIRST_PAGE + pages), pages + 1);
  }

  // The physical address of a heap address.
  ghost function Physical(m: Machine, address: nat): nat
    requires m.WellFormed() && FirstFitHeap.START <= address < TWO_TO_32
  {
    var k := (address - FirstFitHeap.START) / PAGE_SIZE;
    FrameOf(m, k) * PAGE_SIZE + address % PAGE_SIZE
  }

  // The place the page's entry gives, at the address's offset in its page.
  lemma PhysicalIsTranslated(m: Machine, address: nat)
    requires m.WellFormed() && FirstFitHeap.START <= address < TWO_TO_32
    ensures Physical(m, address) / PAGE_SIZE == m.Translation(address / PAGE_SIZE) / PAGE_SIZE
    ensures Physical(m, address) % PAGE_SIZE == address % PAGE_SIZE
  {
    hide Machine.WellFormed, Machine.Translation;
    assert (address - FirstFitHeap.START) / PAGE_SIZE + FIRST_PAGE == address / PAGE_SIZE;
  }

  /** Two live blocks never share a byte of physical memory. */
  lemma LiveBlocksShareNoMemory(m: Machine, h: FirstFitHeap.Heap, b: FirstFitHeap.Block, c: FirstFitHeap.Block, x: nat, y: nat)
    requires m.WellFormed() && h.Valid() && Backed(m, h.pages)
    requires b in h.Live() && c in h.Live() && b != c
    requires b.addr <= x < b.End() && c.addr <= y < c.End()
    ensures FirstFitHeap.START <= x < h.End() && FirstFitHeap.START <= y < h.End()
    ensures Physical(m, x) != Physical(m, y)
  {
    hide Machine.WellFormed, Machine.Translation, FirstFitHeap.Tiled;
    FirstFitHeap.TiledApart(h.blocks, FirstFitHeap.START, h.End(), b, c);
    FirstFitHeap.TiledGrows(h.blocks, FirstFitHeap.START, h.End());
    var k, l := (x - FirstFitHeap.START) / PAGE_SIZE, (y - FirstFitHeap.START) / PAGE_SIZE;
    assert k < h.pages && l < h.pages;
    if k == l {
      assert x % PAGE_SIZE != y % PAGE_SIZE;
    } else if k < l {
      assert FrameOf(m, k) != FrameOf(m, l);
    } else {
      assert FrameOf(m, l) != FrameOf(m, k);
    }
  }

  // ---------- Runs over the heap and its pages ----------

  datatype System = System(heap: FirstFitHeap.Heap, machine: Machine)

  ghost predicate Sound(s: System) {
    s.heap.Valid() && s.machine.WellFormed() && Backed(s.machine, s.heap.pages)
  }

  // Pages a step adds to the heap.
  ghost function Growth(h: FirstFitHeap.Heap, op: FirstFitHeap.Op): nat
    requires h.Valid() && FirstFitHeap.Guarded(h, op)
  {
    FirstFitHeap.StepPages(h, op);
    FirstFitHeap.Step(h, op).pages - h.pages
  }

  ghost function Step(s: System, op: FirstFitHeap.Op): System
    requires Sound(s) && FirstFitHeap.Guarded(s.heap, op)
  {
    FirstFitHeap.StepKeeps(s.heap, op);
    FirstFitHeap.StepPages(s.heap, op);
    System(FirstFitHeap.Step(s.heap, op), BackPages(s.machine, FIRST_PAGE + s.heap.pages, Growth(s.heap, op)))
  }

  // What a step relies on, told by the block list, the bitmap and the directory before it.
  ghost predicate Guarded(s: System, op: FirstFitHeap.Op)
    requires Sound(s)
  {
    FirstFitHeap.Guarded(s.heap, op) && GrowthFits(SupplyOf(s.machine), s.heap.pages, Growth(s.heap, op))
  }

  /** A malloc or free whose request meets the heap's guard keeps heap and pages sound exactly when
      its growth fits. */
  lemma StepIsSoundIff(s: System, op: FirstFitHeap.Op)
    requires Sound(s) && FirstFitHeap.Guarded(s.heap, op)
    ensures Sound(Step(s, op)) <==> Guarded(s, op)
  {
    hide Machine.WellFormed, Backed, BackPages, GrowthFits, FirstFitHeap.Step, FirstFitHeap.Guarded;
    FirstFitHeap.StepKeeps(s.heap, op);
    FirstFitHeap.StepPages(s.heap, op);
    GrowthIsSoundIff(s.machine, s.heap.pages, Growth(s.heap, op));
  }

  ghost predicate GuardedRun(s: System, ops: seq<FirstFitHeap.Op>)
    requires Sound(s)
    decreases ops
  {
    ops == [] || (Guarded(s, ops[0]) && (StepIsSoundIff(s, ops[0]); GuardedRun(Step(s, ops[0]), ops[1..])))
  }

  ghost function Run(s: System, ops: seq<FirstFitHeap.Op>): System
    requires Sound(s) && GuardedRun(s, ops)
    decreases ops
  {
    if ops == [] then s
    else
      StepIsSoundIff(s, ops[0]);
      Run(Step(s, ops[0]), ops[1..])
  }

  predicate Within(b: FirstFitHeap.Block, x: nat) {
    b.addr <= x < b.End()
  }

  ghost predicate DifferentPlaces(m: Machine, x: nat, y: nat)
    requires m.WellFormed()
  {
    FirstFitHeap.START <= x < TWO_TO_32 && FirstFitHeap.START <= y < TWO_TO_32 && Physical(m, x) != Physical(m, y)
  }

  // No byte of b and byte of c lie in the same place of physical memory.
  ghost predicate PhysicallyApart(m: Machine, b: FirstFitHeap.Block, c: FirstFitHeap.Block)
    requires m.WellFormed()
  {
    forall x: nat, y: nat :: Within(b, x) && Within(c, y) ==> DifferentPlaces(m, x, y)
  }

  ghost predicate NoSharing(s: System)
    requires Sound(s)
  {
    forall b, c :: b in s.heap.Live() && c in s.heap.Live() && b != c ==> PhysicallyApart(s.machine, b, c)
  }

  lemma LiveBlocksPhysicallyApart(m: Machine, h: FirstFitHeap.Heap, b: FirstFitHeap.Block, c: FirstFitHeap.Block)
    requires m.WellFormed() && h.Valid() && Backed(m, h.pages)
    requires b in h.Live() && c in h.Live() && b != c
    ensures PhysicallyApart(m, b, c)
  {
    hide Machine.WellFormed, Backed, FirstFitHeap.Tiled;
    forall x: nat, y: nat | Within(b, x) && Within(c, y) ensures DifferentPlaces(m, x, y) {
      LiveBlocksShareNoMemory(m, h, b, c, x, y);
    }
  }

  lemma SoundMeansNoSharing(s: System)
    requires Sound(s)
    ensures NoSharing(s)
  {
    hide PhysicallyApart, Backed, Machine.WellFormed;
    forall b, c | b in s.heap.Live() && c in s.heap.Live() && b != c
      ensures PhysicallyApart(s.machine, b, c)
    {
      LiveBlocksPhysicallyApart(s.machine, s.heap, b, c);
    }
  }

  /** Over every guarded run of malloc and free, growth included: the heap's pages stay backed by
      pairwise distinct frames that hold no page table, so no two live blocks ever share a byte of
      physical memory. */
  lemma {:induction false} RunsStayBacked(s: System, ops: seq<FirstFitHeap.Op>)
    requires Sound(s) && GuardedRun(s, ops)
    ensures Sound(Run(s, ops)) && NoSharing(Run(s, ops))
    decreases ops
  {
    hide Sound, GrowthFits, Step, NoSharing;
    if ops == [] {
      SoundMeansNoSharing(s);
    } else {
      StepIsSoundIff(s, ops[0]);
      RunsStayBacked(Step(s, ops[0]), ops[1..]);
    }
  }

  // ---------- The heap's first page ----------

  // init_malloc: the first page taken and mapped, and one free block on it.
  ghost function Booted(m: Machine): System
    requires m.WellFormed()
  {
    System(FirstFitHeap.Initial(), BackPages(m, FIRST_PAGE, 1))
  }

  /** Setting up the heap leaves it sound exactly when a frame for its first page, and one for that
      page's table if there is none, can be had. */
  lemma BootedIsSoundIff(m: Machine)
    requires m.WellFormed()
    ensures Sound(Booted(m)) <==>
              var (mem, first) := Allocate(m.mem, 1);
              first != 0 && (m.HasTable(FIRST_PAGE / ENTRIES) || Allocate(mem, 1).1 != 0)
  {
    hide Machine.WellFormed, Machine.Translation, Allocate, MapPage, BackPage;
    FirstFitHeap.InitialIsValid();
    GrowthIsSoundIff(m, 0, 1);
    assert GrowthFits(SupplyOf(m), 0, 1) <==> RoundFits(SupplyOf(m), 0);
  }
}
