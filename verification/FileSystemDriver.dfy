/** The file system's functions as the kernel runs them: a block buffer read, changed and written
    back, loops over extents, and the superblock and cached inodes updated as they go. */
module FileSystemDriver {
  import opened Words
  import opened FileBlocks
  import opened Volume
  import opened DiskBitmap
  import opened FileSystem

  const DIRECT_EXTENTS: nat := 4

  function BitBlocks(disk: seq<Block>, start: nat, length: nat): (r: seq<BitBlock>)
    requires start + length <= |disk| && forall i :: start <= i < start + length ==> IsBits(disk[i])
    ensures |r| == length
    ensures forall i :: 0 <= i < length ==> disk[start + i].Bits? && r[i] == disk[start + i].words
    decreases length
  {
    if length == 0 then []
    else
      assert IsBits(disk[start]);
      var words: BitBlock := disk[start].words;
      [words] + BitBlocks(disk, start + 1, length - 1)
  }

  predicate IsListing(disk: seq<Block>, b: nat) {
    b < |disk| && disk[b].Entries? && |disk[b].entries| == ENTRIES_PER_BLOCK
  }

  // Every block listed holds directory entries.
  predicate Listed(disk: seq<Block>, blocks: seq<nat>) {
    forall i :: 0 <= i < |blocks| ==> IsListing(disk, blocks[i])
  }

  // The entries counted when the scan leaves a block it entered with `count`, its first k slots used.
  function CountPast(count: nat, k: nat, total: nat): nat {
    if total <= count then count else if count + k < total then count + k else total
  }

  // The insertion scan: `count` entries seen of `total`, and the first empty slot taken.
  function InsertScan(disk: seq<Block>, blocks: seq<nat>, count: nat, total: nat, e: Entry): seq<Block>
    requires Listed(disk, blocks)
    decreases blocks
  {
    if blocks == [] then disk
    else
      assert IsListing(disk, blocks[0]);
      var entries := disk[blocks[0]].entries;
      var k := FirstNamed(entries, 0, 0);
      if k < ENTRIES_PER_BLOCK && count + k < total then disk[blocks[0] := Entries(entries[k := e])]
      else InsertScan(disk, blocks[1..], CountPast(count, k, total), total, e)
  }

  lemma {:induction false} InsertScanIsOver(disk: seq<Block>, blocks: seq<nat>, count: nat, total: nat, e: Entry)
    requires Listed(disk, blocks) && (blocks == [] || total <= count)
    ensures InsertScan(disk, blocks, count, total, e) == disk
    decreases blocks
  {
    if blocks != [] { InsertScanIsOver(disk, blocks[1..], count, total, e); }
  }

  lemma NothingLeft(l: Layout, disk: seq<Block>, extents: seq<Extent>, id: nat)
    ensures BlockList(extents[|extents|..]) == []
    ensures forall beyond :: RemoveScan(disk, [], id, beyond) == (disk, false)
    ensures Typed(l, disk) ==> forall buffer :: Wipe(l, Buffered(disk, buffer), []) == Buffered(disk, buffer)
  {}

  lemma InsertScanStep(disk: seq<Block>, extents: seq<Extent>, i: nat, j: nat, count: nat, total: nat, e: Entry)
    requires i < |extents| && j < extents[i].length && Listed(disk, From(extents, i, j))
    ensures var b := extents[i].first + j;
            && IsListing(disk, b) && Listed(disk, From(extents, i, j + 1))
            && var k := FirstNamed(disk[b].entries, 0, 0);
               if k < ENTRIES_PER_BLOCK && count + k < total
               then InsertScan(disk, From(extents, i, j), count, total, e) == disk[b := Entries(disk[b].entries[k := e])]
               else InsertScan(disk, From(extents, i, j), count, total, e)
                    == InsertScan(disk, From(extents, i, j + 1), CountPast(count, k, total), total, e)
  {
    FromSteps(extents, i, j);
    assert IsListing(disk, From(extents, i, j)[0]);
  }

  lemma RemoveScanStep(disk: seq<Block>, extents: seq<Extent>, i: nat, j: nat, id: nat, beyond: nat)
    requires i < |extents| && j < extents[i].length && Listed(disk, From(extents, i, j))
    ensures var b := extents[i].first + j;
            && IsListing(disk, b) && Listed(disk, From(extents, i, j + 1))
            && var k := FirstNamed(disk[b].entries, id, 0);
               RemoveScan(disk, From(extents, i, j), id, beyond)
               == if k < ENTRIES_PER_BLOCK then (disk[b := Entries(disk[b].entries[k := NO_ENTRY])], true)
                  else if beyond == id then (disk, true)
                  else RemoveScan(disk, From(extents, i, j + 1), id, beyond)
  {
    FromSteps(extents, i, j);
    assert IsListing(disk, From(extents, i, j)[0]);
  }

  lemma WipeStep(l: Layout, at: Buffered, extents: seq<Extent>, i: nat, j: nat)
    requires i < |extents| && j < extents[i].length && Typed(l, at.disk) && Wipeable(l, at.disk, From(extents, i, j))
    ensures var b := extents[i].first + j;
            && l.DataStart() <= b < |at.disk| && b < BITS_PER_BLOCK
            && var once := WipeOne(l, at, b);
               && Wipeable(l, once.disk, From(extents, i, j + 1))
               && Wipe(l, at, From(extents, i, j)) == Wipe(l, once, From(extents, i, j + 1))
  {
    hide WipeOne;
    FromSteps(extents, i, j);
  }

  // The removal scan: the disk after it, and whether the entry was found. Where a block does not
  // hold it, the id in the memory after the block buffer, `beyond`, is compared too.
  function RemoveScan(disk: seq<Block>, blocks: seq<nat>, id: nat, beyond: nat): (seq<Block>, bool)
    requires Listed(disk, blocks)
    decreases blocks
  {
    if blocks == [] then (disk, false)
    else
      assert IsListing(disk, blocks[0]);
      var entries := disk[blocks[0]].entries;
      var k := FirstNamed(entries, id, 0);
      if k < ENTRIES_PER_BLOCK then (disk[blocks[0] := Entries(entries[k := NO_ENTRY])], true)
      else if beyond == id then (disk, true)
      else RemoveScan(disk, blocks[1..], id, beyond)
  }

  // Entry g of a directory, counted over all of its blocks.
  function EntryAt(disk: seq<Block>, blocks: seq<nat>, g: nat): Entry
    requires Listed(disk, blocks) && g < ENTRIES_PER_BLOCK * |blocks|
  {
    assert IsListing(disk, blocks[g / ENTRIES_PER_BLOCK]);
    disk[blocks[g / ENTRIES_PER_BLOCK]].entries[g % ENTRIES_PER_BLOCK]
  }

  function WithEntryAt(disk: seq<Block>, blocks: seq<nat>, g: nat, e: Entry): seq<Block>
    requires Listed(disk, blocks) && g < ENTRIES_PER_BLOCK * |blocks|
  {
    var b := blocks[g / ENTRIES_PER_BLOCK];
    assert IsListing(disk, b);
    disk[b := Entries(disk[b].entries[g % ENTRIES_PER_BLOCK := e])]
  }

  // g is the first entry with that id.
  ghost predicate FirstAt(disk: seq<Block>, blocks: seq<nat>, id: nat, g: nat)
    requires Listed(disk, blocks)
  {
    && g < ENTRIES_PER_BLOCK * |blocks| && EntryAt(disk, blocks, g).id == id
    && forall h: nat :: h < g ==> EntryAt(disk, blocks, h).id != id
  }

  ghost predicate Nowhere(disk: seq<Block>, blocks: seq<nat>, id: nat)
    requires Listed(disk, blocks)
  {
    forall h: nat :: h < ENTRIES_PER_BLOCK * |blocks| ==> EntryAt(disk, blocks, h).id != id
  }

  lemma NotInFirstBlock(disk: seq<Block>, blocks: seq<nat>, id: nat)
    requires blocks != [] && Listed(disk, blocks)
    requires forall h: nat :: h < ENTRIES_PER_BLOCK ==> EntryAt(disk, blocks, h).id != id
    ensures IsListing(disk, blocks[0]) && FirstNamed(disk[blocks[0]].entries, id, 0) == ENTRIES_PER_BLOCK
    ensures Listed(disk, blocks[1..])
    ensures forall h: nat :: h < ENTRIES_PER_BLOCK * |blocks[1..]| ==>
              EntryAt(disk, blocks[1..], h) == EntryAt(disk, blocks, h + ENTRIES_PER_BLOCK)
  {
    assert IsListing(disk, blocks[0]);
    assert forall h: nat :: h < ENTRIES_PER_BLOCK ==> EntryAt(disk, blocks, h) == disk[blocks[0]].entries[h];
  }

  lemma InFirstBlock(disk: seq<Block>, blocks: seq<nat>, id: nat, g: nat)
    requires blocks != [] && Listed(disk, blocks) && FirstAt(disk, blocks, id, g) && g < ENTRIES_PER_BLOCK
    ensures IsListing(disk, blocks[0]) && FirstNamed(disk[blocks[0]].entries, id, 0) == g
  {
    assert IsListing(disk, blocks[0]);
    assert forall h: nat :: h < ENTRIES_PER_BLOCK ==> EntryAt(disk, blocks, h) == disk[blocks[0]].entries[h];
  }

  /** Over directories of any number of blocks the insertion fills the first empty entry, unless that
      many entries are in use before it as the scan is to count, and then changes nothing. */
  lemma {:induction false} InsertionIsFirstEmpty(disk: seq<Block>, blocks: seq<nat>, count: nat, total: nat, e: Entry, g: nat)
    requires Listed(disk, blocks) && FirstAt(disk, blocks, 0, g)
    ensures InsertScan(disk, blocks, count, total, e)
            == if count + g < total then WithEntryAt(disk, blocks, g, e) else disk
    decreases blocks
  {
    if g < ENTRIES_PER_BLOCK {
      InFirstBlock(disk, blocks, 0, g);
      if count + g >= total { InsertScanIsOver(disk, blocks[1..], CountPast(count, g, total), total, e); }
    } else {
      NotInFirstBlock(disk, blocks, 0);
      InsertionIsFirstEmpty(disk, blocks[1..], CountPast(count, ENTRIES_PER_BLOCK, total), total, e, g - ENTRIES_PER_BLOCK);
      if total <= count { InsertScanIsOver(disk, blocks[1..], count, total, e); }
    }
  }

  lemma {:induction false} FullDirectoryTakesNothing(disk: seq<Block>, blocks: seq<nat>, count: nat, total: nat, e: Entry)
    requires Listed(disk, blocks) && Nowhere(disk, blocks, 0)
    ensures InsertScan(disk, blocks, count, total, e) == disk
    decreases blocks
  {
    if blocks != [] {
      NotInFirstBlock(disk, blocks, 0);
      FullDirectoryTakesNothing(disk, blocks[1..], CountPast(count, ENTRIES_PER_BLOCK, total), total, e);
    }
  }

  /** The removal empties the first entry with the id asked for exactly when that entry is in the first
      block or the memory after the buffer does not look like it; otherwise it reports an entry found
      and leaves the directory as it was. */
  lemma {:induction false} RemovalIsFirstNamed(disk: seq<Block>, blocks: seq<nat>, id: nat, beyond: nat, g: nat)
    requires Listed(disk, blocks) && FirstAt(disk, blocks, id, g)
    ensures RemoveScan(disk, blocks, id, beyond)
            == (if g < ENTRIES_PER_BLOCK || beyond != id then WithEntryAt(disk, blocks, g, NO_ENTRY) else disk, true)
    decreases blocks
  {
    if g < ENTRIES_PER_BLOCK {
      InFirstBlock(disk, blocks, id, g);
    } else {
      NotInFirstBlock(disk, blocks, id);
      if beyond != id { RemovalIsFirstNamed(disk, blocks[1..], id, beyond, g - ENTRIES_PER_BLOCK); }
    }
  }

  lemma {:induction false} NothingToRemove(disk: seq<Block>, blocks: seq<nat>, id: nat, beyond: nat)
    requires Listed(disk, blocks) && Nowhere(disk, blocks, id)
    ensures RemoveScan(disk, blocks, id, beyond) == (disk, blocks != [] && beyond == id)
    decreases blocks
  {
    if blocks != [] {
      NotInFirstBlock(disk, blocks, id);
      if beyond != id { NothingToRemove(disk, blocks[1..], id, beyond); }
    }
  }

  /** In a directory whose size counts its entries, the scan always finds a slot: it puts the entry
      in the first empty one, before its bound on the count stops it. */
  lemma InsertFindsSlot(disk: seq<Block>, extents: seq<Extent>, total: nat, e: Entry)
    requires OneBlock(extents) && IsListing(disk, extents[0].first)
    requires Taken(disk[extents[0].first].entries) < total <= ENTRIES_PER_BLOCK
    ensures BlockList(extents) == [extents[0].first]
    ensures InsertScan(disk, BlockList(extents), 0, total, e)
            == disk[extents[0].first := Entries(Inserted(disk[extents[0].first].entries, e))]
  {
    OneBlockList(extents);
    TakenCounts(disk[extents[0].first].entries);
    InsertScanFindsSlot(disk[extents[0].first].entries);
  }

  lemma RemoveFindsEntry(disk: seq<Block>, extents: seq<Extent>, id: nat, beyond: nat)
    requires OneBlock(extents) && IsListing(disk, extents[0].first)
    requires FirstNamed(disk[extents[0].first].entries, id, 0) < ENTRIES_PER_BLOCK
    ensures BlockList(extents) == [extents[0].first]
    ensures RemoveScan(disk, BlockList(extents), id, beyond)
            == (disk[extents[0].first := Entries(Removed(disk[extents[0].first].entries, id))], true)
  {
    OneBlockList(extents);
  }

  // The blocks still to visit: the rest of extent i from j on, then the later extents.
  function From(extents: seq<Extent>, i: nat, j: nat): seq<nat>
    requires i < |extents| && j <= extents[i].length
  {
    Span(extents[i].first + j, extents[i].length - j) + BlockList(extents[i + 1..])
  }

  lemma FromStarts(extents: seq<Extent>, i: nat)
    requires i < |extents|
    ensures BlockList(extents[i..]) == From(extents, i, 0)
  {
    assert extents[i..][1..] == extents[i + 1..];
  }

  lemma FromSteps(extents: seq<Extent>, i: nat, j: nat)
    requires i < |extents| && j <= extents[i].length
    ensures j == extents[i].length ==> From(extents, i, j) == BlockList(extents[i + 1..])
    ensures j < extents[i].length ==>
              From(extents, i, j) != [] && From(extents, i, j)[0] == extents[i].first + j
              && From(extents, i, j)[1..] == From(extents, i, j + 1)
  {
    hide BlockList, Span;
    var e, rest := extents[i], BlockList(extents[i + 1..]);
    if j < e.length { SpanSteps(e.first + j, e.length - j, rest); } else { SpanEnds(e.first + j, rest); }
  }

  lemma SpanSteps(first: nat, length: nat, rest: seq<nat>)
    requires length > 0
    ensures var s := Span(first, length) + rest;
            s[0] == first && s[1..] == Span(first + 1, length - 1) + rest
  {
    var later := Span(first + 1, length - 1);
    assert Span(first, length) == [first] + later;
    assert [first] + later + rest == [first] + (later + rest);
  }

  lemma SpanEnds(first: nat, rest: seq<nat>)
    ensures Span(first, 0) + rest == rest
  {}

  lemma WholeWordIsSkipped(chunk: BitBlock, j: nat)
    requires j < WORDS_PER_BLOCK && 32 * j <= FirstClear(chunk, 0)
    requires chunk[j] == ALL_ONES || 32 * j + 32 <= FirstClear(chunk, 0)
    ensures 32 * j + 32 <= FirstClear(chunk, 0)
  {
    if chunk[j] == ALL_ONES {
      forall b: nat | 32 * j <= b < 32 * j + 32 ensures IsSet(chunk, b) {
        assert b / 32 == j;
      }
    }
  }

  // Replacing an inode in its sector replaces it in its block.
  lemma SectorInBlock(inodes: seq<Inode>, id: nat, inode: Inode)
    requires |inodes| == INODES_PER_BLOCK
    ensures var at := id % INODES_PER_BLOCK / INODES_PER_SECTOR * INODES_PER_SECTOR;
            && at + INODES_PER_SECTOR <= INODES_PER_BLOCK
            && inodes[at..at + INODES_PER_SECTOR][id % INODES_PER_SECTOR] == inodes[id % INODES_PER_BLOCK]
            && inodes[..at] + inodes[at..at + INODES_PER_SECTOR][id % INODES_PER_SECTOR := inode]
               + inodes[at + INODES_PER_SECTOR..] == inodes[id % INODES_PER_BLOCK := inode]
  {
    var k, at := id % INODES_PER_BLOCK, id % INODES_PER_BLOCK / INODES_PER_SECTOR * INODES_PER_SECTOR;
    assert id % INODES_PER_SECTOR == k - at;
    var sector := inodes[at..at + INODES_PER_SECTOR];
    assert sector[k - at := inode] == inodes[k := inode][at..at + INODES_PER_SECTOR];
  }

  lemma OneBitBlock(disk: seq<Block>, b: nat)
    requires b < |disk| && IsBits(disk[b])
    ensures BitBlocks(disk, b, 1) == [disk[b].words]
  {}

  // The directory's size counts the entries in its block.
  ghost predicate Counted(m: Mount, parent: Inode)
    requires m.Valid() && View(m).Shape(parent)
  {
    parent.size == ENTRY_SIZE * Taken(View(m).Listing(parent))
  }

  // Creation after the bitmaps are written: two inodes, the entry, the superblock.
  lemma CreateUnfolds(m: Mount, parent: Inode, name: string)
    requires CanCreate(m, parent) && Counted(m, parent)
    ensures var l, inode := m.layout, NewInode(m.freeInode, m.freeData);
            var parent' := parent.(size := parent.size + ENTRY_SIZE);
            var d1 := PutBit(m.disk, l.inodeBitmap, m.freeInode, true);
            && Typed(l, d1)
            && var d2 := PutBit(d1, l.dataBitmap, m.freeData, true);
            && Typed(l, d2) && inode.id < l.inodeBlocks * INODES_PER_BLOCK
            && parent.id < l.inodeBlocks * INODES_PER_BLOCK
            && var d3 := PutInode(l, d2, inode.id, inode);
            && Typed(l, d3)
            && var d4 := PutInode(l, d3, parent.id, parent');
            && Listed(d4, BlockList(parent.extents)) && |parent.extents| == DIRECT_EXTENTS
            && var d5 := InsertScan(d4, BlockList(parent.extents), 0, parent'.size / ENTRY_SIZE, Entry(inode.id, name));
               SUPERBLOCK < |d5| &&
               var freeInode, freeData := Found([d1[l.inodeBitmap].words]), Found([d2[l.dataBitmap].words]);
               AfterCreate(m, parent, name)
               == Mount(l, d5[SUPERBLOCK := Super(freeInode, freeData)], freeInode, freeData,
                        if m.root.id == parent.id then parent' else m.root,
                        if m.cwd.id == parent.id then parent' else m.cwd)
  {
    hide PutBit, PutInode, InsertScan, Found, Table, Ids, TakenBlocks, IsInodes, Inserted, BlockList, Taken;
    var l, inode, parent' := m.layout, NewInode(m.freeInode, m.freeData), parent.(size := parent.size + ENTRY_SIZE);
    InodeBitWritten(l, m.disk, m.freeInode, true);
    var d1 := PutBit(m.disk, l.inodeBitmap, m.freeInode, true);
    DataBitWritten(l, d1, m.freeData, true);
    var d2 := PutBit(d1, l.dataBitmap, m.freeData, true);
    InodeWritten(l, d2, inode.id, inode);
    var d3 := PutInode(l, d2, inode.id, inode);
    InodeWritten(l, d3, parent.id, parent');
    var d4 := PutInode(l, d3, parent.id, parent');
    var b := parent.extents[0].first;
    assert d4[b] == d4[l.DataStart()..][b - l.DataStart()] == m.disk[b];
    InsertFindsSlot(d4, parent.extents, parent'.size / ENTRY_SIZE, Entry(inode.id, name));
  }

  // Deletion, write by write.
  lemma DeleteUnfolds(m: Mount, file: Inode, parent: Inode, beyond: nat)
    requires CanDelete(m, file, parent)
    ensures var l, parent' := m.layout, parent.(size := parent.size - ENTRY_SIZE);
            && Typed(l, m.disk) && Wipeable(l, m.disk, BlockList(file.extents))
            && parent.size > ENTRY_SIZE && parent'.size < BLOCK_SIZE
            && file.id < l.inodeBlocks * INODES_PER_BLOCK && parent.id < l.inodeBlocks * INODES_PER_BLOCK
            && file.id < BITS_PER_BLOCK
            && var d1 := Wipe(l, Buffered(m.disk, ZeroBlock()), BlockList(file.extents)).disk;
            var d2 := PutInode(l, d1, file.id, NO_INODE);
            l.inodeBitmap < |d2| && IsBits(d2[l.inodeBitmap])
            && var d3 := PutBit(d2, l.inodeBitmap, file.id, false);
            Listed(d3, BlockList(parent.extents)) && |parent.extents| == DIRECT_EXTENTS
            && var (d4, found) := RemoveScan(d3, BlockList(parent.extents), file.id, beyond);
            found && Typed(l, d4)
            && AfterDelete(m, file, parent)
               == m.(disk := PutInode(l, d4, parent.id, parent'),
                     root := if m.root.id == parent.id then parent' else m.root,
                     cwd := if m.cwd.id == parent.id then parent' else m.cwd)
  {
    hide PutBit, PutInode, RemoveScan, Table, Ids, TakenBlocks, IsInodes, Removed, BlockList, Wipe, Overwritten, Received;
    var l, at := m.layout, Buffered(m.disk, ZeroBlock());
    var blocks := BlockList(file.extents);
    var d1 := Wipe(l, at, blocks).disk;
    WipedAll(l, at, blocks);
    InodeWritten(l, d1, file.id, NO_INODE);
    var d2 := PutInode(l, d1, file.id, NO_INODE);
    InodeBitWritten(l, d2, file.id, false);
    var d3 := PutBit(d2, l.inodeBitmap, file.id, false);
    var b := parent.extents[0].first;
    assert forall i :: 0 <= i < |blocks| ==> l.DataStart() <= blocks[i] < l.DataStart() + |m.disk[l.DataStart()..]|;
    OverwrittenElsewhere(m.disk[l.DataStart()..], l.DataStart(), blocks, Leavings(m, file), b);
    assert d3[b] == d3[l.DataStart()..][b - l.DataStart()] == m.disk[b];
    RemoveFindsEntry(d3, parent.extents, file.id, beyond);
    DataWritten(l, d3, b, Entries(Removed(m.disk[b].entries, file.id)));
  }

  lemma CreateCanStart(m: Mount, parent: Inode)
    requires CanCreate(m, parent)
    ensures Typed(m.layout, m.disk) && m.freeInode < BITS_PER_BLOCK && m.freeData < BITS_PER_BLOCK
  {}

  class Driver {
    const layout: Layout
    const disk: array<Block>
    var freeInode: nat
    var freeData: nat
    var root: Inode
    var cwd: Inode
    var tempBlock: Block    // the one buffer every block is read into and written from

    constructor (layout: Layout, disk: array<Block>, freeInode: nat, freeData: nat, root: Inode)
      ensures this.layout == layout && this.disk == disk
      ensures Value() == Mount(layout, disk[..], freeInode, freeData, root, root)
    {
      this.layout, this.disk := layout, disk;
      this.freeInode, this.freeData := freeInode, freeData;
      this.root, this.cwd := root, root;
      tempBlock := ZeroBlock();
    }

    function Value(): Mount
      reads this, disk
    {
      Mount(layout, disk[..], freeInode, freeData, root, cwd)
    }

    method SetBitInDiskBlock(block: nat, bit: nat)
      requires block < disk.Length && IsBits(disk[block])
      modifies this`tempBlock, disk
      ensures disk[..] == PutBit(old(disk[..]), block, bit, true) && tempBlock == disk[block]
    {
      tempBlock := disk[block];
      var chunk, b := tempBlock.words, bit % BITS_PER_BLOCK;
      tempBlock := Bits(chunk[b / 32 := OrBit(chunk[b / 32], b % 32)]);
      disk[block] := tempBlock;
    }

    method ClearBitInDiskBlock(block: nat, bit: nat)
      requires block < disk.Length && IsBits(disk[block])
      modifies this`tempBlock, disk
      ensures disk[..] == PutBit(old(disk[..]), block, bit, false) && tempBlock == disk[block]
    {
      tempBlock := disk[block];
      var chunk, b := tempBlock.words, bit % BITS_PER_BLOCK;
      tempBlock := Bits(chunk[b / 32 := AndNotBit(chunk[b / 32], b % 32)]);
      disk[block] := tempBlock;
    }

    method FindFirstFreeBit(start: nat, length: nat) returns (r: nat)
      requires start + length <= disk.Length
      requires forall i :: start <= i < start + length ==> IsBits(disk[i])
      modifies this`tempBlock
      ensures r == Found(BitBlocks(disk[..], start, length))
    {
      ghost var blocks := BitBlocks(disk[..], start, length);
      var i := 0;
      while i < length
        invariant i <= length && Found(blocks[i..]) == Found(blocks)
      {
        tempBlock := disk[start + i];
        var chunk: BitBlock := tempBlock.words;
        assert chunk == blocks[i..][0] && blocks[i..][1..] == blocks[i + 1..];
        var found, bit := FindInChunk(chunk);
        if found { return bit; }
        i := i + 1;
      }
      return 0;
    }

    // Words that are all ones are skipped; the others are tried bit by bit.
    method FindInChunk(chunk: BitBlock) returns (found: bool, bit: nat)
      ensures found <==> FirstClear(chunk, 0) < BITS_PER_BLOCK
      ensures found ==> bit == FirstClear(chunk, 0)
    {
      found, bit := false, 0;
      var j := 0;
      while j < WORDS_PER_BLOCK
        invariant j <= WORDS_PER_BLOCK && 32 * j <= FirstClear(chunk, 0)
      {
        if chunk[j] != ALL_ONES {
          var k: nat := 0;
          while k < 32
            invariant k <= 32 && 32 * j + k <= FirstClear(chunk, 0)
          {
            assert (32 * j + k) / 32 == j && (32 * j + k) % 32 == k;
            if !chunk[j][k] {
              assert !IsSet(chunk, 32 * j + k);
              return true, 32 * j + k;
            }
            k := k + 1;
          }
        }
        WholeWordIsSkipped(chunk, j);
        j := j + 1;
      }
    }

    // A sector of eight inodes is read, one of them replaced, and the sector written back.
    method PutInSector(id: nat, inode: Inode)
      requires Typed(layout, disk[..]) && id < layout.inodeBlocks * INODES_PER_BLOCK
      modifies disk
      ensures disk[..] == PutInode(layout, old(disk[..]), id, inode)
    {
      var block := layout.InodeBlock(id);
      var inodes := disk[block].inodes;
      var at := id % INODES_PER_BLOCK / INODES_PER_SECTOR * INODES_PER_SECTOR;
      SectorInBlock(inodes, id, inode);
      var sector := inodes[at..at + INODES_PER_SECTOR];
      sector := sector[id % INODES_PER_SECTOR := inode];
      disk[block] := Inodes(inodes[..at] + sector + inodes[at + INODES_PER_SECTOR..]);
    }

    method UpdateInodeOnDisk(inode: Inode)
      requires Typed(layout, disk[..]) && inode.id < layout.inodeBlocks * INODES_PER_BLOCK
      modifies disk
      ensures disk[..] == PutInode(layout, old(disk[..]), inode.id, inode)
    {
      PutInSector(inode.id, inode);
    }

    method InodeFromId(id: nat) returns (inode: Inode)
      requires Typed(layout, disk[..]) && id < layout.inodeBlocks * INODES_PER_BLOCK
      ensures inode == Resolved(Value(), OnDisk(id))
    {
      if id == 0 { return NO_INODE; }
      var inodes := disk[layout.InodeBlock(id)].inodes;
      var at := id % INODES_PER_BLOCK / INODES_PER_SECTOR * INODES_PER_SECTOR;
      SectorInBlock(inodes, id, NO_INODE);
      var sector := inodes[at..at + INODES_PER_SECTOR];
      return sector[id % INODES_PER_SECTOR];
    }

    // One block of the insertion scan.
    method InsertInBlock(block: nat, start: nat, total: nat, e: Entry) returns (count: nat, wrote: bool)
      requires IsListing(disk[..], block)
      modifies this`tempBlock, disk
      ensures var k := FirstNamed(old(disk[block]).entries, 0, 0);
              && wrote == (k < ENTRIES_PER_BLOCK && start + k < total)
              && (wrote ==> disk[..] == old(disk[..])[block := Entries(old(disk[block]).entries[k := e])])
              && (!wrote ==> disk[..] == old(disk[..]))
              && (!wrote ==> count == CountPast(start, k, total))
    {
      tempBlock := disk[block];
      var entries := tempBlock.entries;
      count, wrote := start, false;
      var k := 0;
      while count < total && k < ENTRIES_PER_BLOCK
        invariant k <= ENTRIES_PER_BLOCK && count == start + k && disk[..] == old(disk[..])
        invariant k == 0 || count <= total
        invariant k <= FirstNamed(entries, 0, 0)
      {
        if entries[k].id != 0 {
          count := count + 1;
        } else {
          tempBlock := Entries(entries[k := e]);
          disk[block] := tempBlock;
          wrote := true;
          return;
        }
        k := k + 1;
      }
    }

    method InsertEntry(extents: seq<Extent>, total: nat, e: Entry)
      requires |extents| == DIRECT_EXTENTS && Listed(disk[..], BlockList(extents))
      modifies this`tempBlock, disk
      ensures disk[..] == InsertScan(old(disk[..]), BlockList(extents), 0, total, e)
    {
      hide InsertScan, From, BlockList, Listed, CountPast, FirstNamed;
      ghost var before := disk[..];
      var count: nat := 0;
      var i: nat := 0;
      assert extents[0..] == extents;
      while i < DIRECT_EXTENTS && count < total
        invariant i <= DIRECT_EXTENTS && disk[..] == before && Listed(before, BlockList(extents[i..]))
        invariant InsertScan(before, BlockList(extents[i..]), count, total, e)
                  == InsertScan(before, BlockList(extents), 0, total, e)
      {
        FromStarts(extents, i);
        var j: nat := 0;
        while j < extents[i].length
          invariant j <= extents[i].length && disk[..] == before && Listed(before, From(extents, i, j))
          invariant InsertScan(before, From(extents, i, j), count, total, e)
                    == InsertScan(before, BlockList(extents), 0, total, e)
        {
          InsertScanStep(before, extents, i, j, count, total, e);
          var wrote;
          count, wrote := InsertInBlock(extents[i].first + j, count, total, e);
          if wrote { return; }
          j := j + 1;
        }
        FromSteps(extents, i, j);
        i := i + 1;
      }
      NothingLeft(layout, before, extents, 0);
      InsertScanIsOver(before, BlockList(extents[i..]), count, total, e);
    }

    method RemoveEntry(extents: seq<Extent>, id: nat, beyond: nat) returns (found: bool)
      requires |extents| == DIRECT_EXTENTS && Listed(disk[..], BlockList(extents))
      modifies this`tempBlock, disk
      ensures (disk[..], found) == RemoveScan(old(disk[..]), BlockList(extents), id, beyond)
    {
      hide RemoveScan, From, BlockList, Listed, FirstNamed;
      ghost var before := disk[..];
      var i: nat := 0;
      assert extents[0..] == extents;
      while i < DIRECT_EXTENTS
        invariant i <= DIRECT_EXTENTS && disk[..] == before && Listed(before, BlockList(extents[i..]))
        invariant RemoveScan(before, BlockList(extents[i..]), id, beyond)
                  == RemoveScan(before, BlockList(extents), id, beyond)
      {
        FromStarts(extents, i);
        var j: nat := 0;
        while j < extents[i].length
          invariant j <= extents[i].length && disk[..] == before && Listed(before, From(extents, i, j))
          invariant RemoveScan(before, From(extents, i, j), id, beyond)
                    == RemoveScan(before, BlockList(extents), id, beyond)
        {
          RemoveScanStep(before, extents, i, j, id, beyond);
          found := RemoveInBlock(extents[i].first + j, id, beyond);
          if found { return; }
          j := j + 1;
        }
        FromSteps(extents, i, j);
        i := i + 1;
      }
      NothingLeft(layout, before, extents, id);
      return false;
    }

    method RemoveInBlock(block: nat, id: nat, beyond: nat) returns (found: bool)
      requires IsListing(disk[..], block)
      modifies this`tempBlock, disk
      ensures var k := FirstNamed(old(disk[block]).entries, id, 0);
              && found == (k < ENTRIES_PER_BLOCK || beyond == id)
              && disk[..] == if k < ENTRIES_PER_BLOCK then old(disk[..])[block := Entries(old(disk[block]).entries[k := NO_ENTRY])]
                             else old(disk[..])
    {
      tempBlock := disk[block];
      var entries, k := tempBlock.entries, 0;
      while k < ENTRIES_PER_BLOCK && entries[k].id != id
        invariant k <= FirstNamed(entries, id, 0) && disk[..] == old(disk[..])
      {
        k := k + 1;
      }
      // The entry past the last is the memory after the buffer.
      found := k < ENTRIES_PER_BLOCK || beyond == id;
      if k < ENTRIES_PER_BLOCK {
        tempBlock := Entries(entries[k := NO_ENTRY]);
        disk[block] := tempBlock;
      }
    }

    // The disk and the buffer together.
    function State(): Buffered
      reads this, disk
    {
      Buffered(disk[..], tempBlock)
    }

    method WipeBlock(b: nat)
      requires Typed(layout, disk[..]) && layout.DataStart() <= b < disk.Length && b < BITS_PER_BLOCK
      modifies this`tempBlock, disk
      ensures State() == WipeOne(layout, old(State()), b)
    {
      disk[b] := tempBlock;
      assert disk[..] == old(disk[..])[b := tempBlock];
      ClearBitInDiskBlock(layout.dataBitmap + b / BITS_PER_BLOCK, b);
    }

    // The buffer is cleared once, before the loops.
    method WipeFileBlocks(extents: seq<Extent>)
      requires Typed(layout, disk[..]) && |extents| == DIRECT_EXTENTS
      requires Wipeable(layout, disk[..], BlockList(extents))
      modifies this`tempBlock, disk
      ensures State() == Wipe(layout, Buffered(old(disk[..]), ZeroBlock()), BlockList(extents))
    {
      hide Wipe, WipeOne, From, BlockList, Typed, Wipeable;
      tempBlock := ZeroBlock();
      ghost var after := Wipe(layout, State(), BlockList(extents));
      var i: nat := 0;
      assert extents[0..] == extents;
      while i < DIRECT_EXTENTS
        invariant i <= DIRECT_EXTENTS && Typed(layout, disk[..])
        invariant Wipeable(layout, disk[..], BlockList(extents[i..]))
        invariant Wipe(layout, State(), BlockList(extents[i..])) == after
      {
        FromStarts(extents, i);
        var j: nat := 0;
        while j < extents[i].length
          invariant j <= extents[i].length && Typed(layout, disk[..])
          invariant Wipeable(layout, disk[..], From(extents, i, j))
          invariant Wipe(layout, State(), From(extents, i, j)) == after
        {
          WipeStep(layout, State(), extents, i, j);
          WipeBlock(extents[i].first + j);
          j := j + 1;
        }
        FromSteps(extents, i, j);
        i := i + 1;
      }
      NothingLeft(layout, disk[..], extents, 0);
    }

    // `parent` is the inode the path's directory resolved to, or one of id 0.
    method FsCreateFile(parent: Inode, name: string) returns (inode: Inode)
      requires layout.Valid()
      requires parent.id != 0 ==> CanCreate(Value(), parent) && Counted(Value(), parent)
      modifies this, disk
      ensures parent.id == 0 ==> inode == NO_INODE && Value() == old(Value())
      ensures parent.id != 0 ==>
                inode == NewInode(old(freeInode), old(freeData)) && Value() == AfterCreate(old(Value()), parent, name)
    {
      if parent.id == 0 { return NO_INODE; }
      hide AfterCreate, CanCreate, Counted, PutBit, PutInode, InsertScan, Found, Listed, BlockList, Typed;
      CreateCanStart(Value(), parent);
      CreateUnfolds(Value(), parent, name);
      inode := TakeFreeBits();
      var parent' := parent.(size := parent.size + ENTRY_SIZE);
      LinkFile(inode, parent', name);
      if cwd.id == parent'.id { cwd := parent'; }
      if root.id == parent'.id { root := parent'; }
      disk[SUPERBLOCK] := Super(freeInode, freeData);
    }

    // The new inode and the parent's go to disk, and the name to the parent's entries.
    method LinkFile(inode: Inode, parent: Inode, name: string)
      requires Typed(layout, disk[..]) && |parent.extents| == DIRECT_EXTENTS
      requires inode.id < layout.inodeBlocks * INODES_PER_BLOCK && parent.id < layout.inodeBlocks * INODES_PER_BLOCK
      requires Typed(layout, PutInode(layout, disk[..], inode.id, inode))
      requires var d := PutInode(layout, PutInode(layout, disk[..], inode.id, inode), parent.id, parent);
               Listed(d, BlockList(parent.extents))
      modifies this`tempBlock, disk
      ensures var d := PutInode(layout, PutInode(layout, old(disk[..]), inode.id, inode), parent.id, parent);
              disk[..] == InsertScan(d, BlockList(parent.extents), 0, parent.size / ENTRY_SIZE, Entry(inode.id, name))
    {
      hide PutInode, InsertScan, Listed, BlockList, Typed;
      UpdateInodeOnDisk(inode);
      UpdateInodeOnDisk(parent);
      InsertEntry(parent.extents, parent.size / ENTRY_SIZE, Entry(inode.id, name));
    }

    // The free inode and block are marked used, and the next ones looked for.
    method TakeFreeBits() returns (inode: Inode)
      requires Typed(layout, disk[..]) && freeInode < BITS_PER_BLOCK && freeData < BITS_PER_BLOCK
      modifies this, disk
      ensures root == old(root) && cwd == old(cwd)
      ensures inode == NewInode(old(freeInode), old(freeData))
      ensures var d1 := PutBit(old(disk[..]), layout.inodeBitmap, old(freeInode), true);
              && Typed(layout, d1)
              && disk[..] == PutBit(d1, layout.dataBitmap, old(freeData), true)
              && Typed(layout, disk[..])
              && freeInode == Found([d1[layout.inodeBitmap].words])
              && freeData == Found([disk[layout.dataBitmap].words])
    {
      hide PutBit, Found, BitBlocks;
      InodeBitWritten(layout, disk[..], freeInode, true);
      var id := freeInode;
      SetBitInDiskBlock(layout.inodeBitmap + id / BITS_PER_BLOCK, id);
      OneBitBlock(disk[..], layout.inodeBitmap);
      freeInode := FindFirstFreeBit(layout.inodeBitmap, 1);
      var block := freeData;
      DataBitWritten(layout, disk[..], block, true);
      SetBitInDiskBlock(layout.dataBitmap + block / BITS_PER_BLOCK, block);
      OneBitBlock(disk[..], layout.dataBitmap);
      freeData := FindFirstFreeBit(layout.dataBitmap, 1);
      return NewInode(id, block);
    }

    // `file` is the inode the path resolved to and `parent` its directory's; id 0 where there is none.
    method FsDeleteFile(file: Inode, parent: Inode, beyond: nat) returns (ok: bool)
      requires Typed(layout, disk[..])
      requires file.id != 0 && parent.id != 0 && file.kind == FILETYPE_FILE ==>
                 CanDelete(Value(), file, parent) && |file.extents| == DIRECT_EXTENTS
      modifies this, disk
      ensures var refused := file.id == 0 || parent.id == 0 || file.kind != FILETYPE_FILE;
              && ok == !refused
              && (refused || file.refCount > 1 ==> Value() == old(Value()))
              && (!refused && file.refCount <= 1 ==> Value() == AfterDelete(old(Value()), file, parent))
    {
      hide AfterDelete, CanDelete, PutBit, PutInode, Wipe, Wipeable, RemoveScan, Listed, BlockList, Typed;
      if file.id == 0 || parent.id == 0 { return false; }
      if file.kind != FILETYPE_FILE { return false; }
      var refCount := file.refCount;
      if refCount > 0 { refCount := refCount - 1; }
      if refCount > 0 { return true; }
      DeleteUnfolds(Value(), file, parent, beyond);
      WipeFileBlocks(file.extents);
      PutInSector(file.id, NO_INODE);
      ClearBitInDiskBlock(layout.inodeBitmap + file.id / BITS_PER_BLOCK, file.id);
      var found := RemoveEntry(parent.extents, file.id, beyond);
      var parent' := parent.(size := parent.size - ENTRY_SIZE);
      UpdateInodeOnDisk(parent');
      assert parent'.size % BLOCK_SIZE != 0;
      if cwd.id == parent'.id { cwd := parent'; }
      if root.id == parent'.id { root := parent'; }
      return true;
    }
  }
}
