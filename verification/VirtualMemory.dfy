/** 32-bit two-level paging. Physical memory is a sequence of frames of 1024 words; the page
    directory and the page tables are frames like any other, reached through physical addresses,
    and new tables are drawn from the block allocator. */
module VirtualMemory {
  import opened Words
  import opened BitOps
  import opened PhysicalMemory

  const ENTRIES: nat := 1024
  const PAGES: nat := 0x10_0000

  type Address = a: nat | a < TWO_TO_32
  type Flags = f: nat | f < PAGE_SIZE

  // ---------- Address arithmetic ----------

  function Region(virt: Address): (r: nat)
    ensures r < ENTRIES
  {
    virt / 0x40_0000
  }

  // virt << 10 >> 10 >> 12
  function TableIndex(virt: Address): nat {
    U32(virt * 1024) / 1024 / PAGE_SIZE
  }

  // The shifts drop the region and the offset in the page: what is left is PT_INDEX.
  lemma ShiftsSelectThePage(virt: Address)
    ensures TableIndex(virt) == virt / PAGE_SIZE % ENTRIES
    ensures Region(virt) == virt / PAGE_SIZE / ENTRIES
  {
    hide U32;
    ShiftDropsTheRegion(virt);
  }

  lemma ShiftDropsTheRegion(virt: Address)
    ensures U32(virt * 1024) == virt % 0x40_0000 * 1024
  {
    var region := virt / 0x40_0000;
    assert virt * 1024 == region * TWO_TO_32 + virt % 0x40_0000 * 1024;
  }

  lemma EntryKeepsFrame(frame: nat, flags: Flags)
    ensures Or(frame * PAGE_SIZE, flags) == frame * PAGE_SIZE + flags
    ensures Or(frame * PAGE_SIZE, flags) / PAGE_SIZE == frame
  {
    assert Pow2(12) == 4096 by {
      assert Pow2(4) == 16;
      assert Pow2(8) == 256;
    }
    OrBelowAlignment(frame, flags, 12);
  }

  // ---------- The machine ----------

  type Page = p: nat | p < PAGES

  function Put(frames: seq<seq<nat>>, f: nat, i: nat, value: nat): seq<seq<nat>>
    requires f < |frames| && i < |frames[f]|
  {
    var frame: seq<nat> := frames[f][i := value];
    frames[f := frame]
  }

  datatype Machine = Machine(frames: seq<seq<nat>>, dir: nat, mem: Memory) {
    predicate Sized() {
      && mem.WellFormed()
      && |frames| == mem.maxBlocks
      && dir < |frames|
      && forall f: nat :: f < |frames| ==> |frames[f]| == ENTRIES
    }

    // Directory entry of a region, and the frame of the table it names.
    function Entry(r: nat): nat
      requires Sized() && r < ENTRIES
    {
      frames[dir][r]
    }

    function TableFrame(r: nat): nat
      requires Sized() && r < ENTRIES
    {
      Entry(r) / PAGE_SIZE
    }

    predicate HasTable(r: nat)
      requires Sized()
    {
      r < ENTRIES && Entry(r) != 0
    }

    predicate UsedFrame(f: nat)
      requires Sized()
    {
      f < |frames| && IsSet(mem.words, f)
    }

    // Page tables live in pairwise distinct used frames other than the directory's; the
    // bitmap's padding past the end of memory is never free.
    ghost predicate WellFormed()
      ensures WellFormed() ==> Sized()
    {
      && Sized()
      && UsedFrame(0) && UsedFrame(dir)
      && (forall b: nat :: |frames| <= b < 32 * |mem.words| ==> IsSet(mem.words, b))
      && (forall r :: HasTable(r) ==> 0 < TableFrame(r) && TableFrame(r) != dir && UsedFrame(TableFrame(r)))
      && (forall r, q :: HasTable(r) && HasTable(q) && r != q ==> TableFrame(r) != TableFrame(q))
    }

    // What the tables say of a page; 0 is the null translation.
    function Translation(p: Page): nat
      requires WellFormed()
    {
      if !HasTable(p / ENTRIES) then 0 else frames[TableFrame(p / ENTRIES)][p % ENTRIES]
    }

    ghost function TableFrames(): set<nat>
      requires Sized()
    {
      set r | 0 <= r < ENTRIES && HasTable(r) :: TableFrame(r)
    }

    ghost function FreeRegions(): set<nat>
      requires Sized()
    {
      set r | 0 <= r < ENTRIES && !HasTable(r)
    }

    function WithEntry(r: nat, entry: nat): Machine
      requires Sized() && r < ENTRIES
    {
      this.(frames := Put(frames, dir, r, entry))
    }

    function WithPage(p: Page, value: nat): Machine
      requires WellFormed() && HasTable(p / ENTRIES)
    {
      var f := TableFrame(p / ENTRIES);
      this.(frames := Put(frames, f, p % ENTRIES, value))
    }
  }

  // create_page_table up to its recursive call: a cleared frame named by the directory.
  ghost function WithNewTable(m: Machine, r: nat, mem: Memory, frame: nat, flags: Flags): Machine
    requires m.Sized() && r < ENTRIES && frame < |m.frames| && mem.maxBlocks == m.mem.maxBlocks
    requires mem.WellFormed()
  {
    var named := m.(mem := mem).WithEntry(r, Or(frame * PAGE_SIZE, flags));
    named.(frames := named.frames[frame := seq(ENTRIES, _ => 0)])
  }

  // What the allocator promises when it hands out one frame.
  lemma AllocateOne(m: Machine)
    requires m.WellFormed()
    ensures var (mem, address) := Allocate(m.mem, 1);
            if address == 0 then mem == m.mem
            else
              var f := address / PAGE_SIZE;
              && address == f * PAGE_SIZE && 0 < f < |m.frames| && !IsSet(m.mem.words, f)
              && mem.maxBlocks == m.mem.maxBlocks && mem.WellFormed()
              && (forall b: nat :: b < 32 * |m.mem.words| ==>
                    (IsSet(mem.words, b) <==> b == f || IsSet(m.mem.words, b)))
              && SetBits(mem.words) == SetBits(m.mem.words) + {f}
  {
    hide U32;
    var (mem, address) := Allocate(m.mem, 1);
    if (mem, address) != (m.mem, 0) {
      var f := FirstFit(m.mem.words, 1, 0);
      assert Free(m.mem.words, f);
      assert mem.words == SetBit(m.mem.words, f) by {
        assert SetRange(m.mem.words, f, 0) == m.mem.words;
      }
      SetBitsUpdate(m.mem.words, f);
      forall b: nat | b < 32 * |m.mem.words| ensures IsSet(mem.words, b) <==> b == f || IsSet(m.mem.words, b) {
        SetBitAt(m.mem.words, f, b);
      }
    }
  }

  lemma NewTableIsWellFormed(m: Machine, r: nat, flags: Flags)
    requires m.WellFormed() && r < ENTRIES && !m.HasTable(r) && Allocate(m.mem, 1).1 != 0
    ensures var (mem, address) := Allocate(m.mem, 1);
            var f := address / PAGE_SIZE;
            && mem.maxBlocks == m.mem.maxBlocks && mem.WellFormed() && f < |m.frames|
            && var n := WithNewTable(m, r, mem, f, flags);
            && n.WellFormed() && n.TableFrame(r) == f && n.Entry(r) != 0
            && n.Entry(r) == Or(address, flags)
            && (forall q :: 0 <= q < ENTRIES && q != r ==> n.Entry(q) == m.Entry(q))
            && (forall g :: 0 <= g < |m.frames| && g != f && g != m.dir ==> n.frames[g] == m.frames[g])
            && n.frames[f] == seq(ENTRIES, _ => 0)
  {
    hide Allocate, Or;
    AllocateOne(m);
    var (mem, address) := Allocate(m.mem, 1);
    var f := address / PAGE_SIZE;
    EntryKeepsFrame(f, flags);
    var n := WithNewTable(m, r, mem, f, flags);
    assert n.Entry(r) == Or(f * PAGE_SIZE, flags);
    forall q | 0 <= q < ENTRIES && q != r ensures n.Entry(q) == m.Entry(q) {}
    assert n.Sized();
    assert n.UsedFrame(0);
    assert n.UsedFrame(n.dir);
    assert (forall b: nat :: |n.frames| <= b < 32 * |n.mem.words| ==> IsSet(n.mem.words, b));
    forall q | n.HasTable(q) 
      ensures 0 < n.TableFrame(q) && n.TableFrame(q) != n.dir && n.UsedFrame(n.TableFrame(q))
    {
      if q != r { assert m.HasTable(q); assert n.TableFrame(q) == m.TableFrame(q); }
      else {
       assert n.TableFrame(q) == f;
       assert f != n.dir;
       assert n.UsedFrame(f);
      }
    }
    forall p, q | n.HasTable(p) && n.HasTable(q) && p != q ensures n.TableFrame(p) != n.TableFrame(q) {
      assert p != r ==> m.HasTable(p);
      assert q != r ==> m.HasTable(q);
    }
  }

  // The new table translates nothing yet, so no translation changes.
  lemma NewTableChangesNoTranslation(m: Machine, r: nat, flags: Flags, p: Page)
    requires m.WellFormed() && r < ENTRIES && !m.HasTable(r) && Allocate(m.mem, 1).1 != 0
    ensures var (mem, address) := Allocate(m.mem, 1);
            var f := address / PAGE_SIZE;
            && mem.maxBlocks == m.mem.maxBlocks && mem.WellFormed() && f < |m.frames|
            && var n := WithNewTable(m, r, mem, f, flags);
            && n.WellFormed() && n.FreeRegions() == m.FreeRegions() - {r}
            && n.Translation(p) == m.Translation(p)
  {
    NewTableIsWellFormed(m, r, flags);
    AllocateOne(m);
    var (mem, address) := Allocate(m.mem, 1);
    var n := WithNewTable(m, r, mem, address / PAGE_SIZE, flags);
    forall q ensures q in n.FreeRegions() <==> q in m.FreeRegions() - {r} {
    }
    var q := p / ENTRIES;
    if q != r && m.HasTable(q) {
      assert n.HasTable(q) && n.TableFrame(q) == m.TableFrame(q);
    }
  }

  lemma SameDirectorySameTables(m: Machine, n: Machine)
    requires m.Sized() && n.Sized() && forall r :: 0 <= r < ENTRIES ==> n.Entry(r) == m.Entry(r)
    ensures n.TableFrames() == m.TableFrames()
  {
    forall g ensures g in m.TableFrames() <==> g in n.TableFrames() {
      if g in m.TableFrames() {
        var r :| 0 <= r < ENTRIES && m.HasTable(r) && m.TableFrame(r) == g;
        assert n.HasTable(r) && n.TableFrame(r) == g;
      }
      if g in n.TableFrames() {
        var r :| 0 <= r < ENTRIES && n.HasTable(r) && n.TableFrame(r) == g;
        assert m.HasTable(r) && m.TableFrame(r) == g;
      }
    }
  }

  lemma PageWriteKeepsTables(m: Machine, p: Page, value: nat)
    requires m.WellFormed() && m.HasTable(p / ENTRIES)
    ensures var n := m.WithPage(p, value);
            && n.WellFormed()
            && n.TableFrames() == m.TableFrames()
            && (forall r :: 0 <= r < ENTRIES ==> n.Entry(r) == m.Entry(r))
            && (forall g :: 0 <= g < |m.frames| && g !in m.TableFrames() ==> n.frames[g] == m.frames[g])
  {
    var n := m.WithPage(p, value);
    assert m.TableFrame(p / ENTRIES) in m.TableFrames();
    assert forall r :: 0 <= r < ENTRIES ==> n.Entry(r) == m.Entry(r);
    assert forall r :: n.HasTable(r) <==> m.HasTable(r);
    SameDirectorySameTables(m, n);
  }

  lemma PageWriteIsLocal(m: Machine, p: Page, value: nat, q: Page)
    requires m.WellFormed() && m.HasTable(p / ENTRIES)
    ensures var n := m.WithPage(p, value);
            n.WellFormed() && n.Translation(q) == if q == p then value else m.Translation(q)
  {
    PageWriteKeepsTables(m, p, value);
    var n := m.WithPage(p, value);
    assert n.Entry(q / ENTRIES) == m.Entry(q / ENTRIES);
    assert m.HasTable(q / ENTRIES) <==> n.HasTable(q / ENTRIES);
    if q / ENTRIES == p / ENTRIES && q != p {
      assert q % ENTRIES != p % ENTRIES;
    }
  }

  // ---------- map_address and create_page_table ----------

  ghost function MapPage(m: Machine, phys: nat, p: Page, flags: Flags): (r: (bool, Machine))
    requires m.WellFormed()
    ensures Extends(m, r.1) && (r.0 ==> r.1.HasTable(p / ENTRIES))
    decreases |m.FreeRegions()|, 1
  {
    var (ok, n) := if m.HasTable(p / ENTRIES) then (true, m) else CreateTable(m, p / ENTRIES, flags);
    if !ok then (false, n)
    else
      PageWriteKeepsTables(n, p, Or(phys, flags));
      (true, n.WithPage(p, Or(phys, flags)))
  }

  ghost function CreateTable(m: Machine, r: nat, flags: Flags): (result: (bool, Machine))
    requires m.WellFormed() && r < ENTRIES
    ensures Extends(m, result.1) && (result.0 ==> result.1.HasTable(r))
    decreases |m.FreeRegions()|, 0
  {
    if m.HasTable(r) then (true, m)
    else
      var (mem, address) := Allocate(m.mem, 1);
      if address == 0 then (false, m)
      else
        var f := address / PAGE_SIZE;
        NewTableIsWellFormed(m, r, flags);
        NewTableChangesNoTranslation(m, r, flags, 0);
        var n := WithNewTable(m, r, mem, f, flags);
        assert r in m.FreeRegions();
        // The outcome of mapping the new table itself is ignored.
        (true, MapPage(n, address, f, flags).1)
  }

  // Same machine, with directory entries only added.
  ghost predicate Extends(m: Machine, n: Machine)
    requires m.WellFormed()
  {
    && n.WellFormed() && n.dir == m.dir && |n.frames| == |m.frames|
    && n.mem.maxBlocks == m.mem.maxBlocks
    && (forall q :: m.HasTable(q) ==> n.Entry(q) == m.Entry(q))
  }

  // Every table of n that m lacks is named in the directory with the flags asked for.
  ghost predicate NewEntriesCarry(m: Machine, n: Machine, flags: Flags)
    requires m.WellFormed() && n.WellFormed()
  {
    forall q :: n.HasTable(q) && !m.HasTable(q) ==> n.Entry(q) == Or(n.TableFrame(q) * PAGE_SIZE, flags)
  }

  // How creating tables changes the machine: the new tables' frames come out of the free
  // blocks, carry the flags and map themselves; every other page but `target` and every data
  // frame is left alone.
  ghost predicate OnlyNewTables(m: Machine, n: Machine, target: set<nat>, flags: Flags)
    requires m.WellFormed() && Extends(m, n)
  {
    var created := n.TableFrames() - m.TableFrames();
    && m.TableFrames() <= n.TableFrames()
    && NewEntriesCarry(m, n, flags)
    && created !! SetBits(m.mem.words)
    && SetBits(n.mem.words) == SetBits(m.mem.words) + created
    && (forall q: Page :: q !in target && q !in created ==> n.Translation(q) == m.Translation(q))
    && (forall q: Page :: q !in target && q in created ==>
          n.Translation(q) == if n.HasTable(q / ENTRIES) then Or(q * PAGE_SIZE, flags) else 0)
    && (forall g :: 0 <= g < |m.frames| && m.UsedFrame(g) && g != m.dir && g !in m.TableFrames() ==>
          n.frames[g] == m.frames[g])
  }

  lemma {:induction false} MapPageSpec(m: Machine, phys: nat, p: Page, flags: Flags)
    requires m.WellFormed()
    ensures var (ok, n) := MapPage(m, phys, p, flags);
            && OnlyNewTables(m, n, {p}, flags)
            && (ok ==> n.Translation(p) == Or(phys, flags))
            && (ok && !m.HasTable(p / ENTRIES) ==> n.Entry(p / ENTRIES) == Or(Allocate(m.mem, 1).1, flags))
            && (!ok ==> n == m && !m.HasTable(p / ENTRIES) && Allocate(m.mem, 1).1 == 0)
    decreases |m.FreeRegions()|, 1
  {
    var (ok, n) := if m.HasTable(p / ENTRIES) then (true, m) else CreateTable(m, p / ENTRIES, flags);
    if m.HasTable(p / ENTRIES) {
    } else {
      CreateTableSpec(m, p / ENTRIES, flags);
    }
    assert OnlyNewTables(m, n, {}, flags);
    if ok { ThenWritePage(m, n, p, Or(phys, flags), flags); }
  }

  lemma ThenWritePage(m: Machine, n: Machine, p: Page, value: nat, flags: Flags)
    requires m.WellFormed() && Extends(m, n) && OnlyNewTables(m, n, {}, flags)
    requires n.HasTable(p / ENTRIES)
    ensures var w := n.WithPage(p, value);
            Extends(m, w) && OnlyNewTables(m, w, {p}, flags) && w.Translation(p) == value
  {
    var w := n.WithPage(p, value);
    PageWriteKeepsTables(n, p, value);
    forall q: Page ensures w.Translation(q) == if q == p then value else n.Translation(q) {
      PageWriteIsLocal(n, p, value, q);
    }
    assert forall q :: n.HasTable(q) <==> w.HasTable(q);
    forall g | 0 <= g < |m.frames| && m.UsedFrame(g) && g != m.dir && g !in m.TableFrames()
      ensures w.frames[g] == m.frames[g]
    {
      assert g in SetBits(m.mem.words);
      assert g !in n.TableFrames();
    }
  }

  lemma {:induction false} CreateTableSpec(m: Machine, r: nat, flags: Flags)
    requires m.WellFormed() && r < ENTRIES
    ensures var (ok, n) := CreateTable(m, r, flags);
            && OnlyNewTables(m, n, {}, flags)
            && (ok && !m.HasTable(r) ==> n.Entry(r) == Or(Allocate(m.mem, 1).1, flags))
            && (!ok ==> n == m && !m.HasTable(r) && Allocate(m.mem, 1).1 == 0)
    decreases |m.FreeRegions()|, 0
  {
    var (mem, address) := Allocate(m.mem, 1);
    if !m.HasTable(r) && address != 0 {
      var f := address / PAGE_SIZE;
      AllocateOne(m);
      NewTableIsWellFormed(m, r, flags);
      NewTableChangesNoTranslation(m, r, flags, f);
      forall q: Page { NewTableChangesNoTranslation(m, r, flags, q); }
      var named := WithNewTable(m, r, mem, f, flags);
      assert r in m.FreeRegions();
      NewTableFrames(m, named, r);
      MapPageSpec(named, address, f, flags);
      AfterNewTable(m, named, MapPage(named, address, f, flags).1, f, flags);
    }
  }

  // One new table, then what mapping it to itself did.
  lemma AfterNewTable(m: Machine, named: Machine, n: Machine, f: Page, flags: Flags)
    requires m.WellFormed() && Extends(m, named) && Extends(named, n)
    requires named.TableFrames() == m.TableFrames() + {f} && !m.UsedFrame(f)
    requires SetBits(named.mem.words) == SetBits(m.mem.words) + {f}
    requires forall q: Page :: named.Translation(q) == m.Translation(q)
    requires forall g :: 0 <= g < |m.frames| && g != f && g != m.dir ==> named.frames[g] == m.frames[g]
    requires OnlyNewTables(named, n, {f}, flags) && NewEntriesCarry(m, named, flags)
    requires n.Translation(f) == if n.HasTable(f / ENTRIES) then Or(f * PAGE_SIZE, flags) else 0
    ensures Extends(m, n) && OnlyNewTables(m, n, {}, flags)
  {
    assert f !in m.TableFrames();
    assert n.TableFrames() - m.TableFrames() == (n.TableFrames() - named.TableFrames()) + {f};
    assert f !in SetBits(m.mem.words);
    forall g | 0 <= g < |m.frames| && m.UsedFrame(g) && g != m.dir && g !in m.TableFrames()
      ensures n.frames[g] == m.frames[g]
    {
      assert g in SetBits(named.mem.words);
    }
  }

  lemma NewTableFrames(m: Machine, n: Machine, r: nat)
    requires m.Sized() && n.Sized() && r < ENTRIES && !m.HasTable(r) && n.HasTable(r)
    requires forall q :: 0 <= q < ENTRIES && q != r ==> n.Entry(q) == m.Entry(q)
    ensures n.TableFrames() == m.TableFrames() + {n.TableFrame(r)}
  {
    forall g | g in m.TableFrames() + {n.TableFrame(r)} ensures g in n.TableFrames() {
      if g in m.TableFrames() {
        var q :| 0 <= q < ENTRIES && m.HasTable(q) && m.TableFrame(q) == g;
        assert n.HasTable(q) && n.TableFrame(q) == g;
      }
    }
    forall g | g in n.TableFrames() ensures g in m.TableFrames() + {n.TableFrame(r)} {
      var q :| 0 <= q < ENTRIES && n.HasTable(q) && n.TableFrame(q) == g;
      assert q != r ==> m.HasTable(q) && m.TableFrame(q) == g;
    }
  }

  // ---------- unmap_address ----------

  // The frame number read back from an entry when it is unmapped: entry & 0x7FFFF000.
  function UnmapFrame(entry: nat): nat {
    entry % 0x8000_0000 / PAGE_SIZE
  }

  lemma UnmapFrameIff(entry: nat)
    requires entry < TWO_TO_32
    ensures UnmapFrame(entry) == entry / PAGE_SIZE <==> entry < 0x8000_0000
  {}

  ghost function UnmapPage(m: Machine, p: Page): (n: Machine)
    requires m.WellFormed()
    ensures n.Sized() && n.dir == m.dir && |n.frames| == |m.frames|
  {
    var r := p / ENTRIES;
    if !m.HasTable(r) then m
    else
      assert UnmapFrame(m.Entry(r)) <= m.TableFrame(r);
      m.(mem := Release(m.mem, UnmapFrame(m.Entry(r)) * PAGE_SIZE, 1)).WithEntry(r, 0)
  }

  lemma ReleaseOne(m: Memory, f: nat)
    requires m.WellFormed() && f < 32 * |m.words|
    ensures Release(m, f * PAGE_SIZE, 1).words == ClearBit(m.words, f)
    ensures SetBits(Release(m, f * PAGE_SIZE, 1).words) == SetBits(m.words) - {f}
    ensures forall b: nat :: b < 32 * |m.words| ==>
              (IsSet(Release(m, f * PAGE_SIZE, 1).words, b) <==> b != f && IsSet(m.words, b))
  {
    hide U32;
    assert ClearRange(m.words, f, 0) == m.words;
    SetBitsUpdate(m.words, f);
    forall b: nat | b < 32 * |m.words| { SetBitAt(m.words, f, b); }
  }

  // The frame mask drops bit 31: unmapping gives back the table's own frame exactly when the
  // table lies below 2 GB.
  lemma UnmapReturnsTheTableIff(m: Machine, p: Page)
    requires m.WellFormed() && m.HasTable(p / ENTRIES) && m.Entry(p / ENTRIES) < TWO_TO_32
    ensures !IsSet(UnmapPage(m, p).mem.words, m.TableFrame(p / ENTRIES)) <==>
            m.Entry(p / ENTRIES) < 0x8000_0000
  {
    var entry := m.Entry(p / ENTRIES);
    UnmapFrameIff(entry);
    assert UnmapFrame(entry) <= m.TableFrame(p / ENTRIES);
    ReleaseOne(m.mem, UnmapFrame(entry));
  }

  // Unmapping any page of a region gives its table's frame back, unmaps the whole region and
  // leaves every other region alone.
  lemma UnmapPageSpec(m: Machine, p: Page)
    requires m.WellFormed() && |m.frames| <= 0x8_0000
    ensures var n := UnmapPage(m, p);
            var r := p / ENTRIES;
            && n.WellFormed() && !n.HasTable(r)
            && (m.HasTable(r) ==>
                  && SetBits(n.mem.words) == SetBits(m.mem.words) - {m.TableFrame(r)}
                  && n.TableFrames() == m.TableFrames() - {m.TableFrame(r)})
            && (!m.HasTable(r) ==> n == m)
            && (forall q: Page :: n.Translation(q) == if q / ENTRIES == r then 0 else m.Translation(q))
            && (forall q :: 0 <= q < ENTRIES ==> n.Entry(q) == if q == r then 0 else m.Entry(q))
            && (forall g :: 0 <= g < |m.frames| && g != m.dir ==> n.frames[g] == m.frames[g])
  {
    var n, r := UnmapPage(m, p), p / ENTRIES;
    if m.HasTable(r) {
      var f := m.TableFrame(r);
      assert m.Entry(r) < 0x8000_0000;
      UnmapFrameIff(m.Entry(r));
      ReleaseOne(m.mem, f);
      forall q | 0 <= q < ENTRIES && q != r ensures n.Entry(q) == m.Entry(q) {}
      assert n.Entry(r) == 0;
      assert forall q :: n.HasTable(q) <==> q != r && m.HasTable(q);
      NewTableFrames(n, m, r);
      assert f !in n.TableFrames();
    }
  }

  // ---------- Runs ----------

  datatype Op = Map(phys: nat, page: Page, flags: Flags) | Unmap(page: Page)

  ghost function Step(m: Machine, op: Op): Machine
    requires m.WellFormed()
  {
    match op
    case Map(phys, page, flags) => MapPage(m, phys, page, flags).1
    case Unmap(page) => UnmapPage(m, page)
  }

  // The used blocks are `base` and, apart from it, the page tables.
  ghost predicate Accounted(m: Machine, base: set<nat>) {
    && m.WellFormed() && |m.frames| <= 0x8_0000
    && base !! m.TableFrames()
    && SetBits(m.mem.words) == base + m.TableFrames()
  }

  // The pages a step may translate differently.
  ghost predicate Touches(m: Machine, op: Op, q: Page)
    requires m.WellFormed()
  {
    match op
    case Map(_, page, _) => q == page || (q in Step(m, op).TableFrames() && q !in m.TableFrames())
    case Unmap(page) => q / ENTRIES == page / ENTRIES
  }

  // What a step is for: a mapping gives its page the address and the flags unless there is no
  // table and no block for one, when nothing changes; an unmapping leaves its region empty.
  ghost predicate Achieves(m: Machine, op: Op, n: Machine)
    requires m.WellFormed() && n.WellFormed()
  {
    match op
    case Map(phys, page, flags) =>
      && NewEntriesCarry(m, n, flags)
      && if Refused(m, page) then n == m else n.Translation(page) == Or(phys, flags)
    case Unmap(page) =>
      && !n.HasTable(page / ENTRIES)
      && forall q: Page :: q / ENTRIES == page / ENTRIES ==> n.Translation(q) == 0
  }

  ghost predicate Refused(m: Machine, page: Page)
    requires m.WellFormed()
  {
    !m.HasTable(page / ENTRIES) && Allocate(m.mem, 1).1 == 0
  }

  // Still accounted for, with every frame in use for something else as it was.
  ghost predicate Keeps(m: Machine, n: Machine, base: set<nat>)
    requires Accounted(m, base)
  {
    && Accounted(n, base) && n.dir == m.dir && |n.frames| == |m.frames|
    && (forall g :: g in base && g < |m.frames| && g != m.dir ==> n.frames[g] == m.frames[g])
  }

  lemma BaseFramesAreUsed(m: Machine, base: set<nat>, g: nat)
    requires Accounted(m, base) && g in base && g < |m.frames|
    ensures m.UsedFrame(g) && g !in m.TableFrames()
  {
    assert g in SetBits(m.mem.words);
  }

  lemma MapSucceedsUnlessRefused(m: Machine, phys: nat, page: Page, flags: Flags)
    requires m.WellFormed()
    ensures MapPage(m, phys, page, flags).0 <==> !Refused(m, page)
  {}

  lemma MapKeepsAccounts(m: Machine, phys: nat, page: Page, flags: Flags, base: set<nat>)
    requires Accounted(m, base)
    ensures Keeps(m, MapPage(m, phys, page, flags).1, base)
  {
    MapPageSpec(m, phys, page, flags);
    var n := MapPage(m, phys, page, flags).1;
    assert n.TableFrames() == m.TableFrames() + (n.TableFrames() - m.TableFrames());
    forall g | g in base && g < |m.frames| && g != m.dir ensures n.frames[g] == m.frames[g] {
      BaseFramesAreUsed(m, base, g);
    }
  }

  lemma UnmapKeepsAccounts(m: Machine, page: Page, base: set<nat>)
    requires Accounted(m, base)
    ensures Keeps(m, UnmapPage(m, page), base)
  {
    UnmapPageSpec(m, page);
    if m.HasTable(page / ENTRIES) {
      assert m.TableFrame(page / ENTRIES) in m.TableFrames();
    }
  }

  lemma StepKeepsAccounts(m: Machine, op: Op, base: set<nat>)
    requires Accounted(m, base)
    ensures var n := Step(m, op);
            && Keeps(m, n, base) && Achieves(m, op, n)
            && (forall q: Page :: !Touches(m, op, q) ==> n.Translation(q) == m.Translation(q))
  {
    match op
    case Map(phys, page, flags) =>
      MapKeepsAccounts(m, phys, page, flags, base);
      MapPageSpec(m, phys, page, flags);
      MapSucceedsUnlessRefused(m, phys, page, flags);
    case Unmap(page) =>
      UnmapKeepsAccounts(m, page, base);
      UnmapPageSpec(m, page);
  }

  ghost function Run(m: Machine, ops: seq<Op>, base: set<nat>): Machine
    requires Accounted(m, base)
    decreases ops
  {
    if ops == [] then m
    else
      StepKeepsAccounts(m, ops[0], base);
      Run(Step(m, ops[0]), ops[1..], base)
  }

  ghost predicate RunTouches(m: Machine, ops: seq<Op>, base: set<nat>, q: Page)
    requires Accounted(m, base)
    decreases ops
  {
    ops != [] &&
    (Touches(m, ops[0], q) ||
     (StepKeepsAccounts(m, ops[0], base); RunTouches(Step(m, ops[0]), ops[1..], base, q)))
  }

  /** Over every run of map_address and unmap_address, failures included: the blocks taken from
      the allocator and not given back are exactly the frames the directory names, a page no step
      touches keeps its translation, and no frame in use for anything else is written. */
  lemma {:induction false} RunsKeepAccounts(m: Machine, ops: seq<Op>, base: set<nat>)
    requires Accounted(m, base)
    ensures var n := Run(m, ops, base);
            && Keeps(m, n, base)
            && (forall q: Page :: !RunTouches(m, ops, base, q) ==> n.Translation(q) == m.Translation(q))
    decreases ops
  {
    if ops == [] {
    } else {
      StepKeepsAccounts(m, ops[0], base);
      RunsKeepAccounts(Step(m, ops[0]), ops[1..], base);
    }
  }

  /** A mapping that is not refused lasts: whatever is mapped and unmapped after it, the page keeps
      the address and the flags it was given until a step touches it. */
  lemma MappingLasts(m: Machine, phys: nat, page: Page, flags: Flags, ops: seq<Op>, base: set<nat>)
    requires Accounted(m, base) && !Refused(m, page)
    ensures Accounted(Step(m, Map(phys, page, flags)), base)
    ensures !RunTouches(Step(m, Map(phys, page, flags)), ops, base, page) ==>
              Run(m, [Map(phys, page, flags)] + ops, base).WellFormed()
              && Run(m, [Map(phys, page, flags)] + ops, base).Translation(page) == Or(phys, flags)
  {
    hide Machine.WellFormed, MapPage;
    var op := Map(phys, page, flags);
    StepKeepsAccounts(m, op, base);
    RunsKeepAccounts(Step(m, op), ops, base);
    assert ([op] + ops)[1..] == ops;
  }

  // ---------- The kernel's functions ----------

  class VirtualMemoryManager {
    const ram: array<seq<nat>>
    const directory: nat
    const physical: PhysicalMemoryManager

    // The kernel takes over memory, directory and allocator as boot left them.
    constructor (ram: array<seq<nat>>, directory: nat, physical: PhysicalMemoryManager)
      requires Machine(ram[..], directory, physical.View()).WellFormed()
      ensures Valid()
      ensures this.ram == ram && this.directory == directory && this.physical == physical
    {
      this.ram := ram;
      this.directory := directory;
      this.physical := physical;
    }

    ghost function View(): Machine
      reads this, ram, physical, physical.memoryMap
    {
      Machine(ram[..], directory, physical.View())
    }

    ghost predicate Valid()
      reads this, ram, physical, physical.memoryMap
    {
      View().WellFormed()
    }

    method MapAddress(phys: nat, virt: Address, flags: Flags) returns (ok: bool)
      requires Valid()
      modifies ram, physical, physical.memoryMap
      ensures Valid()
      ensures (ok, View()) == MapPage(old(View()), phys, virt / PAGE_SIZE, flags)
      decreases |View().FreeRegions()|, 1
    {
      ShiftsSelectThePage(virt);
      if ram[directory][Region(virt)] == 0 {
        var created := CreatePageTable(virt, flags);
        if !created { return false; }
      }
      ghost var before := View();
      PageWriteKeepsTables(before, virt / PAGE_SIZE, Or(phys, flags));
      var table := ram[directory][Region(virt)] / PAGE_SIZE;
      ram[table] := ram[table][TableIndex(virt) := Or(phys, flags)];
      assert View() == before.WithPage(virt / PAGE_SIZE, Or(phys, flags));
      return true;
    }

    method CreatePageTable(virt: Address, flags: Flags) returns (ok: bool)
      requires Valid()
      modifies ram, physical, physical.memoryMap
      ensures Valid()
      ensures (ok, View()) == CreateTable(old(View()), Region(virt), flags)
      decreases |View().FreeRegions()|, 0
    {
      ghost var m := View();
      var r := Region(virt);
      if ram[directory][r] == 0 {
        AllocateOne(m);
        var block := physical.AllocateBlocks(1);
        if block == 0 {
          assert View() == m;
          return false;
        }
        NewTableIsWellFormed(m, r, flags);
        NewTableChangesNoTranslation(m, r, flags, 0);
        ram[directory] := ram[directory][r := Or(block, flags)];
        ram[block / PAGE_SIZE] := seq(ENTRIES, _ => 0);
        assert View() == WithNewTable(m, r, View().mem, block / PAGE_SIZE, flags);
        assert r in m.FreeRegions();
        var mapped := MapAddress(block, block, flags);
      }
      return true;
    }

    method UnmapPageTable(virt: Address)
      requires Valid() && ram.Length <= 0x8_0000
      modifies ram, physical, physical.memoryMap
      ensures Valid()
      ensures View() == UnmapPage(old(View()), virt / PAGE_SIZE)
    {
      ShiftsSelectThePage(virt);
      ghost var m := View();
      UnmapPageSpec(m, virt / PAGE_SIZE);
      if ram[directory][Region(virt)] != 0 {
        var frame := UnmapFrame(ram[directory][Region(virt)]) * PAGE_SIZE;
        physical.FreeBlocks(frame, 1);
        ram[directory] := ram[directory][Region(virt) := 0];
      }
    }

    method UnmapAddress(virt: Address)
      requires Valid() && ram.Length <= 0x8_0000
      modifies ram, physical, physical.memoryMap
      ensures Valid()
      ensures View() == UnmapPage(old(View()), virt / PAGE_SIZE)
    {
      ShiftsSelectThePage(virt);
      if ram[directory][Region(virt)] != 0 { UnmapPageTable(virt); }
    }

    method GetPhysicalAddress(virt: Address) returns (phys: nat)
      requires Valid()
      ensures phys == View().Translation(virt / PAGE_SIZE)
    {
      ShiftsSelectThePage(virt);
      if ram[directory][Region(virt)] == 0 { return 0; }
      assert View().HasTable(virt / PAGE_SIZE / ENTRIES);
      var table := ram[directory][Region(virt)] / PAGE_SIZE;
      return ram[table][TableIndex(virt)];
    }
  }
}
