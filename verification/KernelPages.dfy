/** The kernel's own way into the page tables: map_page and unmap_page, which change single fields
    of an entry in the current directory. */
module KernelPages {
  import opened Words
  import opened BitOps
  import opened PhysicalMemory
  import opened VirtualMemory

  const PRESENT: nat := 1
  const PRESENT_READ_WRITE: nat := 3
  const HALF: nat := 0x8000_0000       // bit 31, which the frame mask 0x7FFFF000 leaves out

  // ---------- Fields of an entry ----------

  // SET_FRAME: (entry & ~0x7FFFF000) | address.
  function SetFrame(entry: nat, address: nat): nat {
    Or(entry / HALF * HALF + entry % PAGE_SIZE, address)
  }

  function SetPresent(entry: nat): nat {
    Or(entry, PRESENT)
  }

  function ClearPresent(entry: nat): nat {
    AndNot(entry, PRESENT)
  }

  // x << k.
  function Shifted(x: nat, k: nat): nat {
    if k == 0 then x else 2 * Shifted(x, k - 1)
  }

  // The bits below k and those from k on are joined apart.
  lemma {:induction false} OrSplits(x: nat, y: nat, z: nat, w: nat, k: nat)
    requires y < Pow2(k) && w < Pow2(k)
    ensures Or(Shifted(x, k) + y, Shifted(z, k) + w) == Shifted(Or(x, z), k) + Or(y, w)
    decreases k
  {
    hide Or;
    if k > 0 {
      OrSplits(x, y / 2, z, w / 2, k - 1);
      OrHalves(Shifted(x, k) + y, Shifted(z, k) + w);
      OrHalves(y, w);
    } else {
      OrZero(0);
    }
  }

  lemma {:induction false} ShiftedIs(x: nat, k: nat)
    ensures Shifted(x, k) == x * Pow2(k)
  {
    if k > 0 {
      var m := Pow2(k - 1);
      ShiftedIs(x, k - 1);
      assert x * (2 * m) == 2 * (x * m);
    }
  }

  lemma PowersOfTwo(x: nat)
    ensures Pow2(12) == PAGE_SIZE && Pow2(19) == 0x8_0000
    ensures Shifted(x, 12) == x * PAGE_SIZE && Shifted(x, 19) == x * 0x8_0000
  {
    assert Pow2(4) == 16;
    assert Pow2(8) == 256;
    assert Pow2(16) == 0x1_0000;
    ShiftedIs(x, 12);
    ShiftedIs(x, 19);
  }

  /** Setting a frame leaves the flags alone, and puts the frame there exactly unless the entry had
      bit 31 set, which the mask does not clear, and the frame has not. */
  lemma SetFrameIff(entry: nat, frame: nat)
    requires entry < TWO_TO_32 && frame < PAGES
    ensures SetFrame(entry, frame * PAGE_SIZE) % PAGE_SIZE == entry % PAGE_SIZE
    ensures SetFrame(entry, frame * PAGE_SIZE) / PAGE_SIZE == frame <==> entry < HALF || frame >= 0x8_0000
  {
    hide Or, Pow2, Shifted;
    var b, low, c, g := entry / HALF, entry % PAGE_SIZE, frame / 0x8_0000, frame % 0x8_0000;
    PowersOfTwo(b);
    PowersOfTwo(c);
    PowersOfTwo(frame);
    PowersOfTwo(b * 0x8_0000);
    PowersOfTwo(Or(b * 0x8_0000, frame));
    PowersOfTwo(Or(b, c));
    OrSplits(b * 0x8_0000, low, frame, 0, 12);
    OrSplits(b, 0, c, g, 19);
    OrZero(low);
    OrZero(g);
    OrZero(b);
    OrZero(c);
    assert Or(b, c) == if b == 1 || c == 1 then 1 else 0 by { OrHalves(b, c); OrZero(0); }
  }

  lemma {:induction false} PresentBit(entry: nat)
    ensures SetPresent(entry) == entry + (1 - entry % 2) && ClearPresent(entry) == entry - entry % 2
  {
    OrHalves(entry, PRESENT);
    OrZero(entry / 2);
    AndNotZero(entry / 2);
  }

  // ---------- map_page ----------

  // map_page takes an entry without its present bit for an absent table.
  ghost predicate TablesPresent(m: Machine)
    requires m.WellFormed()
  {
    forall r :: m.HasTable(r) ==> m.Entry(r) % 2 == 1
  }

  ghost function WithKernelPage(m: Machine, p: Page, frame: nat): Machine
    requires m.WellFormed() && m.HasTable(p / ENTRIES)
  {
    m.WithPage(p, SetFrame(SetPresent(m.Translation(p)), frame * PAGE_SIZE))
  }

  ghost function MapKernelPage(m: Machine, frame: nat, p: Page): (bool, Machine)
    requires m.WellFormed()
  {
    var r := p / ENTRIES;
    if m.HasTable(r) then (true, WithKernelPage(m, p, frame))
    else
      var (mem, address) := Allocate(m.mem, 1);
      if address == 0 then (false, m)
      else
        NewTableIsWellFormed(m, r, PRESENT_READ_WRITE);
        (true, WithKernelPage(WithNewTable(m, r, mem, address / PAGE_SIZE, PRESENT_READ_WRITE), p, frame))
  }

  // Frames in use for anything but tables and directory are as they were.
  ghost predicate FramesKept(m: Machine, n: Machine)
    requires m.WellFormed() && n.WellFormed()
  {
    && n.dir == m.dir && |n.frames| == |m.frames|
    && forall g :: 0 <= g < |m.frames| && m.UsedFrame(g) && g != m.dir && g !in m.TableFrames() ==>
         n.frames[g] == m.frames[g]
  }

  // The directory entry of region r alone is new.
  ghost predicate DirectoryGains(m: Machine, n: Machine, r: nat, entry: nat)
    requires m.WellFormed() && n.WellFormed()
  {
    forall q :: 0 <= q < ENTRIES ==> n.Entry(q) == if q == r then entry else m.Entry(q)
  }

  lemma NewKernelTable(m: Machine, p: Page)
    requires m.WellFormed() && !m.HasTable(p / ENTRIES) && Allocate(m.mem, 1).1 != 0
    ensures var (mem, address) := Allocate(m.mem, 1);
            var r, f := p / ENTRIES, address / PAGE_SIZE;
            && mem.maxBlocks == m.mem.maxBlocks && mem.WellFormed() && f < |m.frames|
            && var n := WithNewTable(m, r, mem, f, PRESENT_READ_WRITE);
               && n.WellFormed() && n.HasTable(r) && DirectoryGains(m, n, r, Or(address, PRESENT_READ_WRITE))
               && (TablesPresent(m) ==> TablesPresent(n))
               && n.TableFrames() == m.TableFrames() + {f} && !m.UsedFrame(f)
               && n.dir == m.dir && |n.frames| == |m.frames|
               && (forall g :: 0 <= g < |m.frames| && g != f && g != m.dir ==> n.frames[g] == m.frames[g])
               && SetBits(n.mem.words) == SetBits(m.mem.words) + {f}
               && forall q: Page :: n.Translation(q) == m.Translation(q)
  {
    hide Allocate, Or, Machine.WellFormed;
    NewTableIsWellFormed(m, p / ENTRIES, PRESENT_READ_WRITE);
    AllocateOne(m);
    var (mem, address) := Allocate(m.mem, 1);
    var n := WithNewTable(m, p / ENTRIES, mem, address / PAGE_SIZE, PRESENT_READ_WRITE);
    forall q: Page ensures n.Translation(q) == m.Translation(q) {
      NewTableChangesNoTranslation(m, p / ENTRIES, PRESENT_READ_WRITE, q);
    }
    EntryKeepsFrame(address / PAGE_SIZE, PRESENT_READ_WRITE);
    NewTableFrames(m, n, p / ENTRIES);
  }

  /** On success the page's entry names the frame and is present, its other flags as they were; no
      other page changes, and a new table's frame came from the free blocks and is entered in the
      directory as present and writable. The frame is the one
      asked for unless the entry had bit 31 set and the frame has not. */
  lemma MapKernelPageSpec(m: Machine, frame: nat, p: Page)
    requires m.WellFormed() && TablesPresent(m) && frame < PAGES && m.Translation(p) < TWO_TO_32
    ensures var (ok, n) := MapKernelPage(m, frame, p);
            && (!ok ==> n == m && !m.HasTable(p / ENTRIES) && Allocate(m.mem, 1).1 == 0)
            && n.WellFormed() && TablesPresent(n)
            && (forall q: Page :: q != p ==> n.Translation(q) == m.Translation(q))
            && (ok ==>
                  var entry, before := n.Translation(p), m.Translation(p);
                  && entry % PAGE_SIZE == SetPresent(before) % PAGE_SIZE
                  && (entry / PAGE_SIZE == frame <==> before < HALF || frame >= 0x8_0000)
                  && var r := p / ENTRIES;
                     DirectoryGains(m, n, r, if m.HasTable(r) then m.Entry(r)
                                             else Or(Allocate(m.mem, 1).1, PRESENT_READ_WRITE)))
            && SetBits(n.mem.words) == SetBits(m.mem.words) + (n.TableFrames() - m.TableFrames())
            && m.TableFrames() <= n.TableFrames() && FramesKept(m, n)
  {
    hide Allocate, Or, SetFrame, SetPresent, Machine.WellFormed, Machine.Translation;
    var (ok, n) := MapKernelPage(m, frame, p);
    PresentBit(m.Translation(p));
    SetFrameIff(SetPresent(m.Translation(p)), frame);
    if ok {
      var t := m;
      if !m.HasTable(p / ENTRIES) {
        NewKernelTable(m, p);
        var (mem, address) := Allocate(m.mem, 1);
        t := WithNewTable(m, p / ENTRIES, mem, address / PAGE_SIZE, PRESENT_READ_WRITE);
        UsedTablesOnly(m, address / PAGE_SIZE);
      }
      EntryWritten(t, p, SetFrame(SetPresent(t.Translation(p)), frame * PAGE_SIZE));
    }
  }

  lemma UsedTablesOnly(m: Machine, f: nat)
    requires m.WellFormed() && !m.UsedFrame(f)
    ensures f !in m.TableFrames()
  {}

  // Writing one page's entry changes that translation alone.
  lemma EntryWritten(m: Machine, p: Page, value: nat)
    requires m.WellFormed() && m.HasTable(p / ENTRIES)
    ensures var n := m.WithPage(p, value);
            && n.WellFormed() && (TablesPresent(m) ==> TablesPresent(n))
            && n.TableFrames() == m.TableFrames() && n.mem == m.mem
            && n.dir == m.dir && |n.frames| == |m.frames|
            && (forall g :: 0 <= g < |m.frames| && g !in m.TableFrames() ==> n.frames[g] == m.frames[g])
            && (forall q :: 0 <= q < ENTRIES ==> n.Entry(q) == m.Entry(q))
            && forall q: Page :: n.Translation(q) == if q == p then value else m.Translation(q)
  {
    hide Machine.WellFormed;
    var n := m.WithPage(p, value);
    PageWriteKeepsTables(m, p, value);
    forall q: Page ensures n.Translation(q) == if q == p then value else m.Translation(q) {
      PageWriteIsLocal(m, p, value, q);
    }
  }

  // ---------- unmap_page ----------

  function Unmapped(entry: nat): nat {
    ClearPresent(SetFrame(entry, 0))
  }

  /** Unmapping leaves an entry that is not present and keeps its other flags; its frame field is
      null exactly when the entry lay below bit 31. */
  lemma UnmappedIff(entry: nat)
    requires entry < TWO_TO_32
    ensures Unmapped(entry) % 2 == 0
    ensures Unmapped(entry) / 2 % 0x800 == entry / 2 % 0x800
    ensures Unmapped(entry) / PAGE_SIZE == 0 <==> entry < HALF
  {
    hide SetFrame, SetPresent, ClearPresent;
    SetFrameIff(entry, 0);
    PresentBit(SetFrame(entry, 0));
    HalfOfFlags(entry);
    HalfOfFlags(SetFrame(entry, 0));
    ClearingKeepsTheRest(SetFrame(entry, 0));
  }

  lemma HalfOfFlags(x: nat)
    ensures x / 2 % 0x800 == x % PAGE_SIZE / 2
  {}

  lemma ClearingKeepsTheRest(x: nat)
    ensures (x - x % 2) / 2 == x / 2 && (x - x % 2) / PAGE_SIZE == x / PAGE_SIZE && (x - x % 2) % 2 == 0
  {}

  // ---------- The kernel's functions ----------

  class KernelPager {
    const vm: VirtualMemoryManager

    constructor (vm: VirtualMemoryManager)
      ensures this.vm == vm
    {
      this.vm := vm;
    }

    method MapPage(frame: nat, virt: Address) returns (ok: bool)
      requires vm.Valid() && TablesPresent(vm.View())
      modifies vm.ram, vm.physical, vm.physical.memoryMap
      ensures vm.Valid()
      ensures (ok, vm.View()) == MapKernelPage(old(vm.View()), frame, virt / PAGE_SIZE)
    {
      hide Allocate, Or, SetFrame, SetPresent;
      ghost var m, p := vm.View(), virt / PAGE_SIZE;
      var r := virt / 0x40_0000;
      assert r == p / ENTRIES;
      if vm.ram[vm.directory][r] % 2 == 0 {
        AllocateOne(m);
        var table := vm.physical.AllocateBlocks(1);
        if table == 0 {
          assert vm.View() == m;
          return false;
        }
        NewKernelTable(m, p);
        vm.ram[table / PAGE_SIZE] := seq(ENTRIES, _ => 0);
        vm.ram[vm.directory] := vm.ram[vm.directory][r := Or(table, PRESENT_READ_WRITE)];
        assert vm.View() == WithNewTable(m, r, vm.View().mem, table / PAGE_SIZE, PRESENT_READ_WRITE);
      }
      SetPage(frame, virt);
      return true;
    }

    // The page's entry, in a table that is there.
    method SetPage(frame: nat, virt: Address)
      requires vm.Valid() && vm.View().HasTable(virt / PAGE_SIZE / ENTRIES)
      modifies vm.ram
      ensures vm.Valid() && vm.View() == WithKernelPage(old(vm.View()), virt / PAGE_SIZE, frame)
    {
      hide SetFrame, SetPresent;
      ghost var t, p := vm.View(), virt / PAGE_SIZE;
      var r, i := virt / 0x40_0000, virt / PAGE_SIZE % ENTRIES;
      assert r == p / ENTRIES;
      var f := vm.ram[vm.directory][r] / PAGE_SIZE;
      EntryWritten(t, p, SetFrame(SetPresent(t.Translation(p)), frame * PAGE_SIZE));
      vm.ram[f] := vm.ram[f][i := SetFrame(SetPresent(vm.ram[f][i]), frame * PAGE_SIZE)];
    }

    method UnmapPage(virt: Address)
      requires vm.Valid() && vm.View().HasTable(virt / PAGE_SIZE / ENTRIES)
      modifies vm.ram
      ensures vm.Valid()
      ensures vm.View().TableFrames() == old(vm.View().TableFrames()) && vm.View().mem == old(vm.View().mem)
      ensures forall r :: 0 <= r < ENTRIES ==> vm.View().Entry(r) == old(vm.View()).Entry(r)
      ensures FramesKept(old(vm.View()), vm.View())
      ensures forall q: Page :: vm.View().Translation(q)
                == if q == virt / PAGE_SIZE then Unmapped(old(vm.View().Translation(virt / PAGE_SIZE)))
                   else old(vm.View()).Translation(q)
    {
      hide SetFrame, ClearPresent;
      ghost var m, p := vm.View(), virt / PAGE_SIZE;
      var r, i := virt / 0x40_0000, virt / PAGE_SIZE % ENTRIES;
      assert r == p / ENTRIES;
      var f := vm.ram[vm.directory][r] / PAGE_SIZE;
      EntryWritten(m, p, Unmapped(m.Translation(p)));
      vm.ram[f] := vm.ram[f][i := Unmapped(vm.ram[f][i])];
      assert vm.View() == m.WithPage(p, Unmapped(m.Translation(p)));
    }
  }
}
