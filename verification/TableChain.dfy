/** The page tables a mapping creates, told in advance: a new table takes the next free frame, and
    mapping it at its own address may take another, for the table of that address's region. */
module TableChain {
  import opened Words
  import opened BitOps
  import opened PhysicalMemory
  import opened VirtualMemory

  // What decides which frames become tables: the bitmap, and the regions that have none.
  datatype Supply = Supply(mem: Memory, missing: set<nat>)

  ghost function SupplyOf(m: Machine): Supply
    requires m.WellFormed()
  {
    Supply(m.mem, m.FreeRegions())
  }

  function FrameAt(address: nat): nat {
    address / PAGE_SIZE
  }

  // The frames taken for region r's table and the tables after it, and what they leave.
  ghost function Chain(s: Supply, r: nat): (c: (seq<nat>, Supply))
    requires s.mem.WellFormed()
    ensures c.1.mem.WellFormed()
    decreases |s.missing|
  {
    if r !in s.missing then ([], s)
    else
      var (mem, address) := Allocate(s.mem, 1);
      if address == 0 then ([], s)
      else
        var (rest, t) := Chain(Supply(mem, s.missing - {r}), FrameAt(address) / ENTRIES);
        ([FrameAt(address)] + rest, t)
  }

  ghost function Frames(frames: seq<nat>): set<nat> {
    set f | f in frames
  }

  // n has the tables of m and the chain's, and the chain is what was taken for them.
  ghost predicate TookChain(m: Machine, n: Machine, r: nat)
    requires m.WellFormed() && n.WellFormed()
  {
    var (frames, s) := Chain(SupplyOf(m), r);
    && SupplyOf(n) == s
    && n.TableFrames() == m.TableFrames() + Frames(frames)
    && Frames(frames) !! m.TableFrames()
  }

  lemma PageWriteTakesNothing(m: Machine, p: Page, value: nat)
    requires m.WellFormed() && m.HasTable(p / ENTRIES)
    ensures var n := m.WithPage(p, value);
            n.WellFormed() && SupplyOf(n) == SupplyOf(m) && n.TableFrames() == m.TableFrames()
  {
    hide Machine.WellFormed;
    PageWriteKeepsTables(m, p, value);
    var n := m.WithPage(p, value);
    assert n.FreeRegions() == m.FreeRegions();
  }

  /** Mapping a page takes exactly the chain of its region. */
  lemma {:induction false} MapTakesChain(m: Machine, phys: nat, p: Page, flags: Flags)
    requires m.WellFormed()
    ensures var (ok, n) := MapPage(m, phys, p, flags);
            && TookChain(m, n, p / ENTRIES)
            && (ok <==> p / ENTRIES !in m.FreeRegions() || Chain(SupplyOf(m), p / ENTRIES).0 != [])
    decreases |m.FreeRegions()|, 1
  {
    hide Machine.WellFormed, Allocate, Or;
    if m.HasTable(p / ENTRIES) {
      PageWriteTakesNothing(m, p, Or(phys, flags));
    } else {
      CreateTakesChain(m, p / ENTRIES, flags);
      var (ok, n) := CreateTable(m, p / ENTRIES, flags);
      if ok { PageWriteTakesNothing(n, p, Or(phys, flags)); }
    }
  }

  lemma {:induction false} CreateTakesChain(m: Machine, r: nat, flags: Flags)
    requires m.WellFormed() && r < ENTRIES
    ensures var (ok, n) := CreateTable(m, r, flags);
            && TookChain(m, n, r)
            && (ok <==> r !in m.FreeRegions() || Chain(SupplyOf(m), r).0 != [])
    decreases |m.FreeRegions()|, 0
  {
    hide Machine.WellFormed, Allocate, Or;
    var (mem, address) := Allocate(m.mem, 1);
    if !m.HasTable(r) && address != 0 {
      var f := FrameAt(address);
      AllocateOne(m);
      NewTableIsWellFormed(m, r, flags);
      NewTableChangesNoTranslation(m, r, flags, f);
      var named := WithNewTable(m, r, mem, f, flags);
      assert r in m.FreeRegions();
      NewTableFrames(m, named, r);
      UnusedIsNoTable(m, f);
      MapTakesChain(named, address, f, flags);
      ChainGrows(m, named, MapPage(named, address, f, flags).1, r);
    }
  }

  // The first table of a chain, then the rest.
  lemma ChainGrows(m: Machine, named: Machine, n: Machine, r: nat)
    requires m.WellFormed() && named.WellFormed() && n.WellFormed()
    requires r in m.FreeRegions() && Allocate(m.mem, 1).1 != 0
    requires var (mem, address) := Allocate(m.mem, 1);
             var f := FrameAt(address);
             && SupplyOf(named) == Supply(mem, m.FreeRegions() - {r})
             && named.TableFrames() == m.TableFrames() + {f} && f !in m.TableFrames()
             && TookChain(named, n, f / ENTRIES)
    ensures TookChain(m, n, r) && Chain(SupplyOf(m), r).0 != []
  {
    hide Machine.WellFormed, Allocate;
    var f := FrameAt(Allocate(m.mem, 1).1);
    var rest := Chain(SupplyOf(named), f / ENTRIES).0;
    assert Chain(SupplyOf(m), r).0 == [f] + rest;
    assert Frames([f] + rest) == {f} + Frames(rest);
  }

  lemma UnusedIsNoTable(m: Machine, f: nat)
    requires m.WellFormed() && !m.UsedFrame(f)
    ensures f !in m.TableFrames()
  {}
}
