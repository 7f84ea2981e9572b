/** Creating and deleting files on disk: bitmaps, inode table, directory block and superblock are
    blocks of one disk, read and written back one at a time. */
module FileSystem {
  import opened Words
  import opened FileBlocks
  import opened Volume
  import opened DiskBitmap

  const SUPERBLOCK: nat := 1
  const INODES_PER_BLOCK: nat := 64
  const INODES_PER_SECTOR: nat := 8

  // Where things are on disk. One block for each bitmap.
  datatype Layout = Layout(inodeBitmap: nat, dataBitmap: nat, inodeStart: nat, inodeBlocks: nat) {
    function DataStart(): nat {
      inodeStart + inodeBlocks
    }

    function InodeBlock(id: nat): nat {
      inodeStart + id / INODES_PER_BLOCK
    }

    predicate Valid() {
      SUPERBLOCK < inodeBitmap < dataBitmap < inodeStart
    }
  }

  predicate IsBits(b: Block) {
    b.Bits? && |b.words| == WORDS_PER_BLOCK
  }

  predicate IsInodes(b: Block) {
    b.Inodes? && |b.inodes| == INODES_PER_BLOCK
  }

  // Every metadata block holds what its place says.
  predicate Typed(l: Layout, disk: seq<Block>) {
    && l.Valid() && l.DataStart() <= |disk|
    && disk[SUPERBLOCK].Super? && IsBits(disk[l.inodeBitmap]) && IsBits(disk[l.dataBitmap])
    && forall i :: l.inodeStart <= i < l.DataStart() ==> IsInodes(disk[i])
  }

  ghost function Ids(l: Layout, disk: seq<Block>): set<nat>
    requires Typed(l, disk)
  {
    SetBits(disk[l.inodeBitmap].words)
  }

  ghost function TakenBlocks(l: Layout, disk: seq<Block>): set<nat>
    requires Typed(l, disk)
  {
    SetBits(disk[l.dataBitmap].words)
  }

  function InodeOn(l: Layout, disk: seq<Block>, id: nat): Inode
    requires Typed(l, disk) && id < l.inodeBlocks * INODES_PER_BLOCK
  {
    disk[l.InodeBlock(id)].inodes[id % INODES_PER_BLOCK]
  }

  function Table(l: Layout, disk: seq<Block>): (r: seq<Inode>)
    requires Typed(l, disk)
    ensures |r| == l.inodeBlocks * INODES_PER_BLOCK
  {
    seq(l.inodeBlocks * INODES_PER_BLOCK,
        id requires 0 <= id < l.inodeBlocks * INODES_PER_BLOCK => InodeOn(l, disk, id))
  }

  // The disk and what the kernel keeps of it in memory.
  datatype Mount = Mount(
    layout: Layout, disk: seq<Block>, freeInode: nat, freeData: nat, root: Inode, cwd: Inode)
  {
    predicate Valid() {
      Typed(layout, disk)
    }
  }

  ghost function View(m: Mount): Volume
    requires m.Valid()
  {
    Volume(m.layout.DataStart(), Table(m.layout, m.disk), Ids(m.layout, m.disk), TakenBlocks(m.layout, m.disk),
           m.disk[m.layout.DataStart()..], m.freeInode, m.freeData, m.root, m.cwd)
  }

  // ---------- Writes of one block ----------

  function PutBit(disk: seq<Block>, block: nat, bit: nat, value: bool): (r: seq<Block>)
    requires block < |disk| && IsBits(disk[block])
    ensures |r| == |disk|
  {
    var words, b := disk[block].words, bit % BITS_PER_BLOCK;
    disk[block := Bits(if value then SetBit(words, b) else ClearBit(words, b))]
  }

  function PutInode(l: Layout, disk: seq<Block>, id: nat, inode: Inode): (r: seq<Block>)
    requires Typed(l, disk) && id < l.inodeBlocks * INODES_PER_BLOCK
    ensures |r| == |disk|
  {
    var b := l.InodeBlock(id);
    disk[b := Inodes(disk[b].inodes[id % INODES_PER_BLOCK := inode])]
  }

  // A write outside the inode blocks leaves the table alone.
  lemma TableOutlives(l: Layout, disk: seq<Block>, b: nat, block: Block)
    requires Typed(l, disk) && b < |disk| && !(l.inodeStart <= b < l.DataStart())
    requires Typed(l, disk[b := block])
    ensures Table(l, disk[b := block]) == Table(l, disk)
  {
    hide IsBits;
  }

  // What a write of an inode bit changes, and what it leaves alone.
  lemma InodeBitWritten(l: Layout, disk: seq<Block>, id: nat, value: bool)
    requires Typed(l, disk) && id < BITS_PER_BLOCK
    ensures var d := PutBit(disk, l.inodeBitmap, id, value);
            && Typed(l, d) && Table(l, d) == Table(l, disk) && TakenBlocks(l, d) == TakenBlocks(l, disk)
            && Ids(l, d) == (if value then Ids(l, disk) + {id} else Ids(l, disk) - {id})
            && d[l.DataStart()..] == disk[l.DataStart()..] && d[SUPERBLOCK] == disk[SUPERBLOCK]
  {
    hide Table, SetBit, ClearBit;
    SetBitsUpdate(disk[l.inodeBitmap].words, id);
    TableOutlives(l, disk, l.inodeBitmap, PutBit(disk, l.inodeBitmap, id, value)[l.inodeBitmap]);
  }

  lemma DataBitWritten(l: Layout, disk: seq<Block>, b: nat, value: bool)
    requires Typed(l, disk) && b < BITS_PER_BLOCK
    ensures var d := PutBit(disk, l.dataBitmap, b, value);
            && Typed(l, d) && Table(l, d) == Table(l, disk) && Ids(l, d) == Ids(l, disk)
            && TakenBlocks(l, d) == (if value then TakenBlocks(l, disk) + {b} else TakenBlocks(l, disk) - {b})
            && d[l.DataStart()..] == disk[l.DataStart()..] && d[SUPERBLOCK] == disk[SUPERBLOCK]
  {
    hide Table, SetBit, ClearBit;
    SetBitsUpdate(disk[l.dataBitmap].words, b);
    TableOutlives(l, disk, l.dataBitmap, PutBit(disk, l.dataBitmap, b, value)[l.dataBitmap]);
  }

  lemma InodeWritten(l: Layout, disk: seq<Block>, id: nat, inode: Inode)
    requires Typed(l, disk) && id < l.inodeBlocks * INODES_PER_BLOCK
    ensures var d := PutInode(l, disk, id, inode);
            && Typed(l, d) && Table(l, d) == Table(l, disk)[id := inode]
            && Ids(l, d) == Ids(l, disk) && TakenBlocks(l, d) == TakenBlocks(l, disk)
            && d[l.DataStart()..] == disk[l.DataStart()..] && d[SUPERBLOCK] == disk[SUPERBLOCK]
  {
    var d := PutInode(l, disk, id, inode);
    forall k | 0 <= k < l.inodeBlocks * INODES_PER_BLOCK
      ensures InodeOn(l, d, k) == if k == id then inode else InodeOn(l, disk, k)
    {
      if k / INODES_PER_BLOCK == id / INODES_PER_BLOCK && k % INODES_PER_BLOCK == id % INODES_PER_BLOCK {
        assert k == id;
      }
    }
  }

  lemma DataWritten(l: Layout, disk: seq<Block>, b: nat, block: Block)
    requires Typed(l, disk) && l.DataStart() <= b < |disk|
    ensures var d := disk[b := block];
            && Typed(l, d) && Table(l, d) == Table(l, disk)
            && Ids(l, d) == Ids(l, disk) && TakenBlocks(l, d) == TakenBlocks(l, disk)
            && d[l.DataStart()..] == disk[l.DataStart()..][b - l.DataStart() := block]
            && d[SUPERBLOCK] == disk[SUPERBLOCK]
  {}

  lemma SuperWritten(l: Layout, disk: seq<Block>, freeInode: nat, freeData: nat)
    requires Typed(l, disk)
    ensures var d := disk[SUPERBLOCK := Super(freeInode, freeData)];
            && Typed(l, d) && Table(l, d) == Table(l, disk)
            && Ids(l, d) == Ids(l, disk) && TakenBlocks(l, d) == TakenBlocks(l, disk)
            && d[l.DataStart()..] == disk[l.DataStart()..]
  {}

  // ---------- fs_create_file ----------

  ghost predicate CanCreate(m: Mount, parent: Inode) {
    m.Valid() && MayCreate(View(m), parent) && m.freeInode < BITS_PER_BLOCK && m.freeData < BITS_PER_BLOCK
  }

  ghost function AfterCreate(m: Mount, parent: Inode, name: string): Mount
    requires CanCreate(m, parent)
  {
    var l, parent' := m.layout, parent.(size := parent.size + ENTRY_SIZE);
    var d1 := PutBit(m.disk, l.inodeBitmap, m.freeInode, true);
    var d2 := PutBit(d1, l.dataBitmap, m.freeData, true);
    InodeBitWritten(l, m.disk, m.freeInode, true);
    DataBitWritten(l, d1, m.freeData, true);
    var d3 := PutInode(l, d2, m.freeInode, NewInode(m.freeInode, m.freeData));
    InodeWritten(l, d2, m.freeInode, NewInode(m.freeInode, m.freeData));
    var d4 := PutInode(l, d3, parent.id, parent');
    var b := parent.extents[0].first;
    var d5 := d4[b := Entries(Inserted(m.disk[b].entries, Entry(m.freeInode, name)))];
    var freeInode, freeData := Found([d1[l.inodeBitmap].words]), Found([d2[l.dataBitmap].words]);
    Mount(l, d5[SUPERBLOCK := Super(freeInode, freeData)], freeInode, freeData,
          if m.root.id == parent.id then parent' else m.root,
          if m.cwd.id == parent.id then parent' else m.cwd)
  }

  // The superblock on disk records the free bits the kernel holds.
  predicate Recorded(m: Mount)
    requires m.Valid()
  {
    m.disk[SUPERBLOCK] == Super(m.freeInode, m.freeData)
  }

  /** The writes creation makes to the disk amount to its effect on the volume. */
  lemma CreateIsCreated(m: Mount, parent: Inode, name: string)
    requires CanCreate(m, parent)
    ensures var m' := AfterCreate(m, parent, name);
            && m'.Valid() && Recorded(m')
            && View(m') == Created(View(m), parent, name, m'.freeInode, m'.freeData)
            && (m'.freeInode == 0 || m'.freeInode !in View(m').ids)
            && (m'.freeData == 0 || m'.freeData !in View(m').taken)
            && IsLeastClear(View(m').ids, m'.freeInode) && IsLeastClear(View(m').taken, m'.freeData)
  {
    hide PutBit, PutInode, Table, Ids, TakenBlocks, Found, Inserted;
    var l, parent' := m.layout, parent.(size := parent.size + ENTRY_SIZE);
    var d1 := PutBit(m.disk, l.inodeBitmap, m.freeInode, true);
    InodeBitWritten(l, m.disk, m.freeInode, true);
    var d2 := PutBit(d1, l.dataBitmap, m.freeData, true);
    DataBitWritten(l, d1, m.freeData, true);
    var d3 := PutInode(l, d2, m.freeInode, NewInode(m.freeInode, m.freeData));
    InodeWritten(l, d2, m.freeInode, NewInode(m.freeInode, m.freeData));
    var d4 := PutInode(l, d3, parent.id, parent');
    InodeWritten(l, d3, parent.id, parent');
    var b := parent.extents[0].first;
    var entries := Inserted(m.disk[b].entries, Entry(m.freeInode, name));
    DataWritten(l, d4, b, Entries(entries));
    var d5 := d4[b := Entries(entries)];
    var m' := AfterCreate(m, parent, name);
    SuperWritten(l, d5, m'.freeInode, m'.freeData);
    FreeBitsAreFree(l, d1, d2);
  }

  lemma FreeBitsAreFree(l: Layout, d1: seq<Block>, d2: seq<Block>)
    requires Typed(l, d1) && Typed(l, d2)
    ensures IsLeastClear(Ids(l, d1), Found([d1[l.inodeBitmap].words]))
    ensures IsLeastClear(TakenBlocks(l, d2), Found([d2[l.dataBitmap].words]))
    ensures Found([d1[l.inodeBitmap].words]) == 0 || Found([d1[l.inodeBitmap].words]) !in Ids(l, d1)
    ensures Found([d2[l.dataBitmap].words]) == 0 || Found([d2[l.dataBitmap].words]) !in TakenBlocks(l, d2)
  {
    FoundIsLeastClear(d1[l.inodeBitmap].words);
    FoundIsLeastClear(d2[l.dataBitmap].words);
  }

  // ---------- fs_delete_file ----------

  // Data blocks whose bits lie in the one bitmap block.
  predicate Wipeable(l: Layout, disk: seq<Block>, blocks: seq<nat>) {
    forall i :: 0 <= i < |blocks| ==> l.DataStart() <= blocks[i] < |disk| && blocks[i] < BITS_PER_BLOCK
  }

  // The disk, and what the kernel's one block buffer holds.
  datatype Buffered = Buffered(disk: seq<Block>, buffer: Block)

  // The buffer goes to the block; then the bit is cleared in the bitmap, which is read into the same
  // buffer.
  function WipeOne(l: Layout, at: Buffered, b: nat): (r: Buffered)
    requires Typed(l, at.disk) && l.DataStart() <= b < |at.disk|
    ensures |r.disk| == |at.disk| && Typed(l, r.disk)
  {
    var disk := PutBit(at.disk[b := at.buffer], l.dataBitmap, b, false);
    Buffered(disk, disk[l.dataBitmap])
  }

  // The deletion's loop over the file's blocks.
  function Wipe(l: Layout, at: Buffered, blocks: seq<nat>): (r: Buffered)
    requires Typed(l, at.disk) && Wipeable(l, at.disk, blocks)
    ensures |r.disk| == |at.disk| && Typed(l, r.disk)
    decreases blocks
  {
    if blocks == [] then at else Wipe(l, WipeOne(l, at, blocks[0]), blocks[1..])
  }

  // What the file's blocks receive: the buffer as it was, then the bitmap, one bit fewer each time.
  function Received(bitmap: seq<Word>, buffer: Block, blocks: seq<nat>): (r: seq<Block>)
    requires |bitmap| == WORDS_PER_BLOCK
    ensures |r| == |blocks|
    decreases blocks
  {
    if blocks == [] then []
    else
      var cleared := ClearBit(bitmap, blocks[0] % BITS_PER_BLOCK);
      [buffer] + Received(cleared, Bits(cleared), blocks[1..])
  }

  /** The first block receives the buffer as it was before the loop, and block i after it the data
      bitmap without the bits of the i blocks before it. */
  lemma {:induction false} ReceivedIs(bitmap: seq<Word>, buffer: Block, blocks: seq<nat>, i: nat)
    requires |bitmap| == WORDS_PER_BLOCK && i < |blocks|
    requires forall j :: 0 <= j < |blocks| ==> blocks[j] < BITS_PER_BLOCK
    ensures i == 0 ==> Received(bitmap, buffer, blocks)[i] == buffer
    ensures i > 0 ==> Received(bitmap, buffer, blocks)[i].Bits?
    ensures i > 0 ==> SetBits(Received(bitmap, buffer, blocks)[i].words) == SetBits(bitmap) - Members(blocks[..i])
    decreases i
  {
    hide Received, ClearBit, SetBits;
    ReceivedUnfolds(bitmap, buffer, blocks);
    if i > 0 {
      var rest, cleared := blocks[1..], ClearBit(bitmap, blocks[0]);
      SetBitsUpdate(bitmap, blocks[0]);
      MembersUnfold(blocks, i);
      ReceivedIs(cleared, Bits(cleared), rest, i - 1);
    }
  }

  lemma MembersUnfold(blocks: seq<nat>, i: nat)
    requires 0 < i <= |blocks|
    ensures Members(blocks[..i]) == {blocks[0]} + Members(blocks[1..][..i - 1])
  {
    assert blocks[..i] == [blocks[0]] + blocks[1..][..i - 1];
  }

  lemma WipedOnce(l: Layout, at: Buffered, b: nat)
    requires Typed(l, at.disk) && l.DataStart() <= b < |at.disk| && b < BITS_PER_BLOCK
    ensures var r := WipeOne(l, at, b);
            && Table(l, r.disk) == Table(l, at.disk) && Ids(l, r.disk) == Ids(l, at.disk)
            && TakenBlocks(l, r.disk) == TakenBlocks(l, at.disk) - {b}
            && r.disk[l.DataStart()..] == at.disk[l.DataStart()..][b - l.DataStart() := at.buffer]
            && r.disk[SUPERBLOCK] == at.disk[SUPERBLOCK]
            && r.buffer == r.disk[l.dataBitmap] == Bits(ClearBit(at.disk[l.dataBitmap].words, b % BITS_PER_BLOCK))
  {
    DataWritten(l, at.disk, b, at.buffer);
    DataBitWritten(l, at.disk[b := at.buffer], b, false);
  }

  /** Wiping clears exactly the file's bits and writes exactly its blocks, each with what the buffer
      holds when its turn comes. */
  lemma {:induction false} WipedAll(l: Layout, at: Buffered, blocks: seq<nat>)
    requires Typed(l, at.disk) && Wipeable(l, at.disk, blocks)
    ensures var d := Wipe(l, at, blocks).disk;
            && Table(l, d) == Table(l, at.disk) && Ids(l, d) == Ids(l, at.disk)
            && TakenBlocks(l, d) == TakenBlocks(l, at.disk) - Members(blocks)
            && d[l.DataStart()..] == Overwritten(at.disk[l.DataStart()..], l.DataStart(), blocks,
                                                 Received(at.disk[l.dataBitmap].words, at.buffer, blocks))
            && d[SUPERBLOCK] == at.disk[SUPERBLOCK]
    decreases blocks
  {
    if blocks != [] {
      hide PutBit, Typed, Table, Ids, TakenBlocks, WipeOne;
      var once, rest := WipeOne(l, at, blocks[0]), blocks[1..];
      WipedOnce(l, at, blocks[0]);
      WipedAll(l, once, rest);
      assert blocks == [blocks[0]] + rest;
      ReceivedUnfolds(at.disk[l.dataBitmap].words, at.buffer, blocks);
    }
  }

  lemma ReceivedUnfolds(bitmap: seq<Word>, buffer: Block, blocks: seq<nat>)
    requires |bitmap| == WORDS_PER_BLOCK && blocks != []
    ensures var cleared := ClearBit(bitmap, blocks[0] % BITS_PER_BLOCK);
            var r := Received(bitmap, buffer, blocks);
            r[0] == buffer && r[1..] == Received(cleared, Bits(cleared), blocks[1..])
  {}

  ghost predicate CanDelete(m: Mount, file: Inode, parent: Inode) {
    && m.Valid() && MayDelete(View(m), file, parent)
    && Wipeable(m.layout, m.disk, BlockList(file.extents)) && file.id < BITS_PER_BLOCK
  }

  // The deletion clears its buffer once, before the loop.
  ghost function AfterDelete(m: Mount, file: Inode, parent: Inode): Mount
    requires CanDelete(m, file, parent)
  {
    var l, parent' := m.layout, parent.(size := parent.size - ENTRY_SIZE);
    var d1 := Wipe(l, Buffered(m.disk, ZeroBlock()), BlockList(file.extents)).disk;
    var d2 := PutInode(l, d1, file.id, NO_INODE);
    InodeWritten(l, d1, file.id, NO_INODE);
    var d3 := PutBit(d2, l.inodeBitmap, file.id, false);
    InodeBitWritten(l, d2, file.id, false);
    var b := parent.extents[0].first;
    var d4 := d3[b := Entries(Removed(m.disk[b].entries, file.id))];
    DataWritten(l, d3, b, Entries(Removed(m.disk[b].entries, file.id)));
    m.(disk := PutInode(l, d4, parent.id, parent'),
       root := if m.root.id == parent.id then parent' else m.root,
       cwd := if m.cwd.id == parent.id then parent' else m.cwd)
  }

  // What deleting the file writes to its blocks.
  function Leavings(m: Mount, file: Inode): (r: seq<Block>)
    requires m.Valid()
    ensures |r| == |BlockList(file.extents)|
  {
    Received(m.disk[m.layout.dataBitmap].words, ZeroBlock(), BlockList(file.extents))
  }

  /** The writes deletion makes to the disk amount to its effect on the volume. */
  lemma DeleteIsDeleted(m: Mount, file: Inode, parent: Inode)
    requires CanDelete(m, file, parent)
    ensures var m' := AfterDelete(m, file, parent);
            && m'.Valid() && View(m') == Deleted(View(m), file, parent, Leavings(m, file))
            && (Recorded(m) ==> Recorded(m'))
  {
    hide PutBit, PutInode, Table, Ids, TakenBlocks, Wipe, Overwritten, Received, Removed;
    var l, parent' := m.layout, parent.(size := parent.size - ENTRY_SIZE);
    var at := Buffered(m.disk, ZeroBlock());
    WipedAll(l, at, BlockList(file.extents));
    var d1 := Wipe(l, at, BlockList(file.extents)).disk;
    InodeWritten(l, d1, file.id, NO_INODE);
    var d2 := PutInode(l, d1, file.id, NO_INODE);
    InodeBitWritten(l, d2, file.id, false);
    var d3 := PutBit(d2, l.inodeBitmap, file.id, false);
    var b := parent.extents[0].first;
    var entries := Removed(m.disk[b].entries, file.id);
    DataWritten(l, d3, b, Entries(entries));
    var d4 := d3[b := Entries(entries)];
    InodeWritten(l, d4, parent.id, parent');
  }

  // ---------- What deletion leaves in the file's blocks ----------

  ghost predicate Zeroed(m: Mount, blocks: seq<nat>) {
    forall i :: 0 <= i < |blocks| ==> blocks[i] < |m.disk| && IsZero(m.disk[blocks[i]])
  }

  // A file's block after the deletion.
  lemma AfterDeleteAt(m: Mount, file: Inode, parent: Inode, b: nat)
    requires CanDelete(m, file, parent) && b in BlockList(file.extents)
    ensures var m', first := AfterDelete(m, file, parent), m.layout.DataStart();
            && first <= b < |m.disk| == |m'.disk|
            && (forall i :: 0 <= i < |BlockList(file.extents)| ==>
                  first <= BlockList(file.extents)[i] < first + |m.disk[first..]|)
            && m'.disk[b] == Overwritten(m.disk[first..], first, BlockList(file.extents), Leavings(m, file))[b - first]
  {
    hide Overwritten, Leavings, Removed, BlockList, AfterDelete, Table, Ids, TakenBlocks;
    DeleteIsDeleted(m, file, parent);
    var m', first := AfterDelete(m, file, parent), m.layout.DataStart();
    assert View(m').data == m'.disk[first..];
    assert m'.disk[b] == m'.disk[first..][b - first];
  }

  /** Deletion clears a buffer, but not again after the bitmap was read into it: it leaves all of the
      file's blocks zero if and only if the file has at most one. */
  lemma DeletionZeroesIff(m: Mount, file: Inode, parent: Inode)
    requires Healthy(m) && CanDelete(m, file, parent)
    ensures Zeroed(AfterDelete(m, file, parent), BlockList(file.extents)) <==> |BlockList(file.extents)| <= 1
  {
    hide Overwritten, Received, BlockList, AfterDelete, Table, Ids, TakenBlocks, MayDelete, IsZero, ZeroBlock, Leavings;
    var blocks, n := BlockList(file.extents), |BlockList(file.extents)|;
    if n > 0 {
      var last := blocks[n - 1];
      assert last in blocks;
      AfterDeleteAt(m, file, parent, last);
      OverwrittenLast(m.disk[m.layout.DataStart()..], m.layout.DataStart(), blocks, Leavings(m, file));
      LeavingsLast(m, file);
      if n == 1 {
        ZeroBlockIsZero();
      } else {
        BitmapIsNotZero(m, blocks[..n - 1], Leavings(m, file)[n - 1]);
      }
    }
  }

  lemma LeavingsLast(m: Mount, file: Inode)
    requires m.Valid() && Wipeable(m.layout, m.disk, BlockList(file.extents)) && BlockList(file.extents) != []
    ensures var blocks, n := BlockList(file.extents), |BlockList(file.extents)|;
            var b := Leavings(m, file)[n - 1];
            && (n == 1 ==> b == ZeroBlock())
            && (n > 1 ==> b.Bits? && SetBits(b.words) == TakenBlocks(m.layout, m.disk) - Members(blocks[..n - 1]))
  {
    hide Received, BlockList, ZeroBlock;
    var blocks := BlockList(file.extents);
    ReceivedIs(m.disk[m.layout.dataBitmap].words, ZeroBlock(), blocks, |blocks| - 1);
  }

  lemma ZeroBlockIsZero()
    ensures IsZero(ZeroBlock())
  {}

  // The bits of the metadata blocks are always set.
  lemma BitmapIsNotZero(m: Mount, blocks: seq<nat>, b: Block)
    requires Healthy(m) && Wipeable(m.layout, m.disk, blocks)
    requires b.Bits? && SetBits(b.words) == TakenBlocks(m.layout, m.disk) - Members(blocks)
    ensures !IsZero(b)
  {
    hide DirsSound, NamesSound, SlotsSound, CachesSound, FreeSound, Table;
    assert 0 in View(m).taken;
    assert 0 !in blocks;
    assert 0 in SetBits(b.words);
  }

  /** Of two blocks the first is zeroed, and the second left with the data bitmap, less the bit of
      the first: a file of two blocks is not erased. */
  lemma SecondBlockKeepsBitmap(l: Layout, disk: seq<Block>, first: nat, second: nat)
    requires Typed(l, disk) && first != second
    requires l.DataStart() <= first < |disk| && first < BITS_PER_BLOCK
    requires l.DataStart() <= second < |disk| && second < BITS_PER_BLOCK
    ensures Wipeable(l, disk, [first, second])
    ensures var d := Wipe(l, Buffered(disk, ZeroBlock()), [first, second]).disk;
            && d[first] == ZeroBlock()
            && d[second] == Bits(ClearBit(disk[l.dataBitmap].words, first))
  {
    hide Wipe, WipeOne, ZeroBlock, ClearBit, Typed;
    var at := Buffered(disk, ZeroBlock());
    var one := WipeOne(l, at, first);
    WipedOnceAt(l, at, first, first);
    WipedOnceAt(l, one, second, first);
    WipedOnceAt(l, one, second, second);
    WipeTwice(l, at, first, second);
  }

  // Block c after block b was wiped.
  lemma WipedOnceAt(l: Layout, at: Buffered, b: nat, c: nat)
    requires Typed(l, at.disk) && l.DataStart() <= b < |at.disk| && b < BITS_PER_BLOCK
    requires l.DataStart() <= c < |at.disk|
    ensures var r := WipeOne(l, at, b);
            && r.disk[c] == (if c == b then at.buffer else at.disk[c])
            && at.disk[l.dataBitmap].Bits? && r.buffer == Bits(ClearBit(at.disk[l.dataBitmap].words, b))
  {
    hide WipeOne, PutBit, Table, Ids, TakenBlocks, ClearBit;
    var r, start := WipeOne(l, at, b), l.DataStart();
    WipedOnce(l, at, b);
    assert r.disk[c] == r.disk[start..][c - start];
  }

  lemma WipeTwice(l: Layout, at: Buffered, first: nat, second: nat)
    requires Typed(l, at.disk) && Wipeable(l, at.disk, [first, second])
    requires l.DataStart() <= first < |at.disk| && l.DataStart() <= second < |at.disk|
    ensures Wipe(l, at, [first, second]) == WipeOne(l, WipeOne(l, at, first), second)
  {
    hide WipeOne;
    assert [first, second][1..] == [second] && [second][1..] == [];
    assert Wipe(l, at, [first, second]) == Wipe(l, WipeOne(l, at, first), [second]);
  }

  // ---------- Runs ----------

  // Where the resolved path took its inode from.
  datatype Origin = Root | Cwd | OnDisk(id: nat)

  // Path "/" and paths into it give the cached root or current directory, others the disk's inode.
  function Resolved(m: Mount, origin: Origin): Inode
    requires m.Valid()
  {
    match origin
    case Root => m.root
    case Cwd => m.cwd
    case OnDisk(id) =>
      if 0 < id < m.layout.inodeBlocks * INODES_PER_BLOCK then InodeOn(m.layout, m.disk, id) else NO_INODE
  }

  datatype Op =
    | Create(parent: Origin, name: string)
    | Delete(file: Origin, parent: Origin)

  // What each operation relies on: free slots left, one-block directories with room, and a path
  // that resolves to a file its directory names.
  ghost predicate Allowed(m: Mount, op: Op)
    requires m.Valid()
  {
    match op
    case Create(origin, _) =>
      var parent := Resolved(m, origin);
      parent.id != 0 ==> parent.kind == FILETYPE_DIR && CanCreate(m, parent)
    case Delete(origin, parentOrigin) =>
      var file, parent := Resolved(m, origin), Resolved(m, parentOrigin);
      file.id != 0 && parent.id != 0 && file.kind == FILETYPE_FILE ==>
        parent.kind == FILETYPE_DIR && exists k: nat :: Names(View(m), parent.id, k, file.id)
  }

  ghost predicate Healthy(m: Mount) {
    m.Valid() && Sound(View(m)) && Recorded(m)
  }

  // The id of the inode a path leads to.
  function IdNamed(m: Mount, origin: Origin): nat {
    match origin
    case Root => ROOT_ID
    case Cwd => m.cwd.id
    case OnDisk(id) => id
  }

  /** A resolved inode is the one asked for, as the disk has it, when that one is live, and no inode
      when it is not. */
  lemma ResolvedIsNamed(m: Mount, origin: Origin)
    requires Healthy(m)
    ensures var id, v := IdNamed(m, origin), View(m);
            if v.Live(id) then Resolved(m, origin) == v.inodes[id] && Resolved(m, origin).id == id
            else Resolved(m, origin).id == 0
  {
    hide BlocksSound, DirsSound, NamesSound, FreeSound;
    if origin.OnDisk? && 0 < origin.id < |View(m).inodes| {
      assert View(m).inodes[origin.id] == InodeOn(m.layout, m.disk, origin.id);
    }
  }

  // The root, by its path, is inode 1, and never anything else.
  lemma RootIsRoot(m: Mount)
    requires Healthy(m)
    ensures Resolved(m, Root).id == ROOT_ID && Resolved(m, OnDisk(ROOT_ID)) == Resolved(m, Root)
  {
    hide BlocksSound, DirsSound, NamesSound, FreeSound, SlotsSound;
    ResolvedIsNamed(m, Root);
    ResolvedIsNamed(m, OnDisk(ROOT_ID));
  }

  lemma ResolvedIsCurrent(m: Mount, origin: Origin)
    requires Healthy(m) && Resolved(m, origin).id != 0
    ensures var inode, v := Resolved(m, origin), View(m);
            v.Live(inode.id) && v.inodes[inode.id] == inode && inode.id == IdNamed(m, origin)
  {
    hide Sound;
    ResolvedIsNamed(m, origin);
  }

  lemma NamedFileCanBeDeleted(m: Mount, origin: Origin, parentOrigin: Origin)
    requires Healthy(m) && Allowed(m, Delete(origin, parentOrigin))
    requires Resolved(m, origin).id != 0 && Resolved(m, parentOrigin).id != 0
    requires Resolved(m, origin).kind == FILETYPE_FILE
    ensures CanDelete(m, Resolved(m, origin), Resolved(m, parentOrigin))
    ensures Current(View(m), Resolved(m, parentOrigin))
  {
    hide DirsSound, NamesSound, FreeSound, SlotsSound, CachesSound, Names;
    var file, parent, v := Resolved(m, origin), Resolved(m, parentOrigin), View(m);
    ResolvedIsCurrent(m, origin);
    ResolvedIsCurrent(m, parentOrigin);
    var k: nat :| Names(v, parent.id, k, file.id);
    NamedFilesMayBeDeleted(v, file, parent, k);
    forall i | 0 <= i < |BlockList(file.extents)|
      ensures m.layout.DataStart() <= BlockList(file.extents)[i] < |m.disk| && BlockList(file.extents)[i] < BITS_PER_BLOCK
    {
      assert BlockList(file.extents)[i] in BlockList(v.inodes[file.id].extents);
      assert v.HasBlock(BlockList(file.extents)[i]) && BlockList(file.extents)[i] in v.taken;
    }
  }

  ghost function Step(m: Mount, op: Op): Mount
    requires Healthy(m) && Allowed(m, op)
  {
    match op
    case Create(origin, name) =>
      var parent := Resolved(m, origin);
      if parent.id == 0 then m else AfterCreate(m, parent, name)
    case Delete(origin, parentOrigin) =>
      var file, parent := Resolved(m, origin), Resolved(m, parentOrigin);
      if file.id == 0 || parent.id == 0 || file.kind != FILETYPE_FILE || file.refCount > 1 then m
      else
        NamedFileCanBeDeleted(m, origin, parentOrigin);
        AfterDelete(m, file, parent)
  }

  lemma StepStaysHealthy(m: Mount, op: Op)
    requires Healthy(m) && Allowed(m, op)
    ensures Healthy(Step(m, op)) && Step(m, op).layout == m.layout
  {
    hide Sound, Created, Deleted, View, Typed, MayCreate, MayDelete, Names;
    match op
    case Create(origin, name) =>
      var parent := Resolved(m, origin);
      if parent.id != 0 {
        ResolvedIsCurrent(m, origin);
        CreateIsCreated(m, parent, name);
        CreatedFreesAreFree(m, parent, name);
        CreatedIsSound(View(m), parent, name, Step(m, op).freeInode, Step(m, op).freeData);
      }
    case Delete(origin, parentOrigin) =>
      var file, parent := Resolved(m, origin), Resolved(m, parentOrigin);
      if !(file.id == 0 || parent.id == 0 || file.kind != FILETYPE_FILE || file.refCount > 1) {
        NamedFileCanBeDeleted(m, origin, parentOrigin);
        ResolvedIsCurrent(m, origin);
        DeleteIsDeleted(m, file, parent);
        DeletedIsSound(View(m), file, parent, Leavings(m, file));
      }
  }

  // What a step does, told by the ids its paths lead to.
  ghost predicate Acts(m: Mount, op: Op, m': Mount)
    requires m.Valid() && m'.Valid()
  {
    var v, v' := View(m), View(m');
    match op
    case Create(origin, name) =>
      var d := IdNamed(m, origin);
      if v.Live(d)
      then CreatesFile(v, v', d, name) && IsLeastClear(v'.ids, m'.freeInode) && IsLeastClear(v'.taken, m'.freeData)
      else m' == m
    case Delete(origin, parentOrigin) =>
      var id, d := IdNamed(m, origin), IdNamed(m, parentOrigin);
      if Deletable(v, id) && v.Live(d) then v.Dir(d) && DeletesFile(v, v', d, id) else m' == m
  }

  ghost predicate Deletable(v: Volume, id: nat) {
    v.Live(id) && v.inodes[id].kind == FILETYPE_FILE && v.inodes[id].refCount <= 1
  }

  /** A step acts on the inodes its paths name: it creates one empty file in the directory named, or
      deletes the file named and its entry in that directory, or, when there is no such inode, changes
      nothing. After a creation the next inode and block to be used are the first free ones. */
  lemma StepActsOnNamed(m: Mount, op: Op)
    requires Healthy(m) && Allowed(m, op)
    ensures Healthy(Step(m, op)) && Acts(m, op, Step(m, op))
  {
    hide Sound, Created, Deleted, View, Typed, MayCreate, MayDelete, Names, CreatesFile, DeletesFile;
    StepStaysHealthy(m, op);
    match op
    case Create(origin, name) =>
      var parent := Resolved(m, origin);
      ResolvedIsNamed(m, origin);
      if parent.id != 0 {
        ResolvedIsCurrent(m, origin);
        CreateIsCreated(m, parent, name);
        CreatedCreates(View(m), parent, name, Step(m, op).freeInode, Step(m, op).freeData);
      }
    case Delete(origin, parentOrigin) =>
      var file, parent := Resolved(m, origin), Resolved(m, parentOrigin);
      ResolvedIsNamed(m, origin);
      ResolvedIsNamed(m, parentOrigin);
      if !(file.id == 0 || parent.id == 0 || file.kind != FILETYPE_FILE || file.refCount > 1) {
        NamedFileCanBeDeleted(m, origin, parentOrigin);
        DeleteIsDeleted(m, file, parent);
        DeletedDeletes(View(m), file, parent, Leavings(m, file));
      }
  }

  lemma CreatedFreesAreFree(m: Mount, parent: Inode, name: string)
    requires CanCreate(m, parent)
    ensures var m', v := AfterCreate(m, parent, name), View(m);
            && (m'.freeInode == 0 || m'.freeInode !in v.ids + {v.freeInode})
            && (m'.freeData == 0 || m'.freeData !in v.taken + {v.freeData})
  {
    hide Typed, MayCreate, AfterCreate;
    CreateIsCreated(m, parent, name);
  }

  ghost predicate Runs(m: Mount, ops: seq<Op>)
    requires Healthy(m)
    decreases ops
  {
    ops == [] ||
    (Allowed(m, ops[0]) && (StepStaysHealthy(m, ops[0]); Runs(Step(m, ops[0]), ops[1..])))
  }

  ghost function Run(m: Mount, ops: seq<Op>): Mount
    requires Healthy(m) && Runs(m, ops)
    decreases ops
  {
    if ops == [] then m
    else
      StepStaysHealthy(m, ops[0]);
      Run(Step(m, ops[0]), ops[1..])
  }

  /** Over any run of creations and deletions under their guards: both free bits name clear bits,
      inodes sit in their own slots and share no block, directory sizes count their entries, every
      entry names a live inode and a file is named once, the cached inodes equal those on disk, and
      the superblock on disk records the free bits. */
  lemma {:induction false} RunsStayHealthy(m: Mount, ops: seq<Op>)
    requires Healthy(m) && Runs(m, ops)
    ensures Healthy(Run(m, ops))
    decreases ops
  {
    if ops != [] {
      StepStaysHealthy(m, ops[0]);
      RunsStayHealthy(Step(m, ops[0]), ops[1..]);
    }
  }

  // Some step of the run deletes the file with that id.
  ghost predicate RunDeletes(m: Mount, ops: seq<Op>, id: nat)
    requires Healthy(m) && Runs(m, ops)
    decreases ops
  {
    ops != [] &&
    ((ops[0].Delete? && IdNamed(m, ops[0].file) == id) ||
     (StepStaysHealthy(m, ops[0]); RunDeletes(Step(m, ops[0]), ops[1..], id)))
  }

  lemma StepKeepsFiles(m: Mount, op: Op, id: nat)
    requires Healthy(m) && Allowed(m, op) && View(m).Live(id) && View(m).inodes[id].kind == FILETYPE_FILE
    requires !(op.Delete? && IdNamed(m, op.file) == id)
    ensures Healthy(Step(m, op)) && FileKept(View(m), View(Step(m, op)), id)
  {
    hide Sound, View, Typed, MayCreate, MayDelete, Names, CreatesFile, DeletesFile, Step;
    StepActsOnNamed(m, op);
    var v, v' := View(m), View(Step(m, op));
    match op
    case Create(origin, name) =>
      var d := IdNamed(m, origin);
      ResolvedIsNamed(m, origin);
      if v.Live(d) { CreatingKeepsFiles(v, v', d, name, id); } else { FileIsKept(v, id); }
    case Delete(origin, parentOrigin) =>
      var gone, d := IdNamed(m, origin), IdNamed(m, parentOrigin);
      if Deletable(v, gone) && v.Live(d) { DeletingKeepsFiles(v, v', d, gone, id); } else { FileIsKept(v, id); }
  }

  lemma FileIsKept(v: Volume, id: nat)
    requires Sound(v) && v.Live(id)
    ensures FileKept(v, v, id)
  {
    hide SlotsSound, DirsSound, NamesSound, CachesSound, FreeSound;
  }

  /** Over any such run, a file no step deletes is still there at the end, its inode and the contents
      of all its blocks as they were, whatever is created and deleted around it. */
  lemma {:induction false} RunsKeepFiles(m: Mount, ops: seq<Op>, id: nat)
    requires Healthy(m) && Runs(m, ops) && View(m).Live(id) && View(m).inodes[id].kind == FILETYPE_FILE
    requires !RunDeletes(m, ops, id)
    ensures Healthy(Run(m, ops)) && FileKept(View(m), View(Run(m, ops)), id)
    decreases ops
  {
    hide Sound, View, Typed, Step;
    if ops == [] {
      FileIsKept(View(m), id);
    } else {
      StepKeepsFiles(m, ops[0], id);
      RunsKeepFiles(Step(m, ops[0]), ops[1..], id);
    }
  }

  // ---------- The table on disk ----------

  // The inodes of the first n blocks of the table, one block after the other.
  function InOrder(l: Layout, disk: seq<Block>, n: nat): seq<Inode>
    requires Typed(l, disk) && n <= l.inodeBlocks
  {
    if n == 0 then [] else InOrder(l, disk, n - 1) + disk[l.inodeStart + n - 1].inodes
  }

  /** Inode `id` is the one in place `id` of the table's blocks read in order. */
  lemma {:induction false} InodesInOrder(l: Layout, disk: seq<Block>, n: nat, id: nat)
    requires Typed(l, disk) && n <= l.inodeBlocks && id < n * INODES_PER_BLOCK
    ensures |InOrder(l, disk, n)| == n * INODES_PER_BLOCK
    ensures InOrder(l, disk, n)[id] == InodeOn(l, disk, id)
  {
    if n > 0 {
      if n > 1 { InodesInOrder(l, disk, n - 1, if id < (n - 1) * INODES_PER_BLOCK then id else 0); }
      var last := disk[l.inodeStart + n - 1];
      assert IsInodes(last);
      if id >= (n - 1) * INODES_PER_BLOCK { assert id / INODES_PER_BLOCK == n - 1; }
    }
  }
}
