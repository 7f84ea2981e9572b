/** The volume the disk image builder writes for an empty root directory, as the kernel mounts it. */
module FormattedVolume {
  import opened Words
  import opened Bytes
  import opened FileBlocks
  import opened Volume
  import opened DiskBitmap
  import opened FileSystem

  const INODE_BITMAP: nat := 2
  const DATA_BITMAP: nat := 3
  const INODE_START: nat := 4
  const DATA_START: nat := 5
  const USED_INODES: nat := 2      // inode 0, which is invalid, and the root directory
  const USED_BLOCKS: nat := 6      // the metadata and the root directory's block

  function ImageLayout(): Layout {
    Layout(INODE_BITMAP, DATA_BITMAP, INODE_START, 1)
  }

  // The first k bits set.
  function FirstBits(k: nat): (r: seq<Word>)
    ensures |r| == WORDS_PER_BLOCK
  {
    seq(WORDS_PER_BLOCK, w requires w >= 0 => FirstBitsWord(k, w))
  }

  function FirstBitsWord(k: nat, w: nat): Word {
    seq(32, b requires b >= 0 => 32 * w + b < k)
  }

  function RootInode(): Inode {
    Inode(ROOT_ID, FILETYPE_DIR, 2 * ENTRY_SIZE, [Extent(DATA_START, 1), NO_EXTENT, NO_EXTENT, NO_EXTENT], 0)
  }

  function InodeTable(): (r: seq<Inode>)
    ensures |r| == INODES_PER_BLOCK
    ensures forall i :: 0 <= i < INODES_PER_BLOCK ==> r[i] == if i == ROOT_ID then RootInode() else NO_INODE
  {
    seq(INODES_PER_BLOCK, i => if i == ROOT_ID then RootInode() else NO_INODE)
  }

  // "." and "..", which is the root itself.
  function RootListing(): (r: seq<Entry>)
    ensures |r| == ENTRIES_PER_BLOCK && r[0] == Entry(ROOT_ID, ".") && r[1] == Entry(ROOT_ID, "..")
    ensures forall i :: 2 <= i < ENTRIES_PER_BLOCK ==> r[i] == NO_ENTRY
  {
    [Entry(ROOT_ID, "."), Entry(ROOT_ID, "..")] + EmptyListing(ENTRIES_PER_BLOCK - 2)
  }

  function EmptyListing(n: nat): (r: seq<Entry>)
    ensures |r| == n && forall i :: 0 <= i < n ==> r[i] == NO_ENTRY
  {
    seq(n, _ => NO_ENTRY)
  }

  function EmptyBlocks(n: nat): (r: seq<Block>)
    ensures |r| == n
  {
    seq(n, _ => ZeroBlock())
  }

  // The boot block, the superblock, the bitmaps, the inodes, the root directory and the rest.
  function Image(blocks: nat): (r: seq<Block>)
    requires blocks >= USED_BLOCKS
    ensures |r| == blocks
  {
    [ZeroBlock(), Super(USED_INODES, USED_BLOCKS), Bits(FirstBits(USED_INODES)), Bits(FirstBits(USED_BLOCKS)),
     Inodes(InodeTable()), Entries(RootListing())] + EmptyBlocks(blocks - USED_BLOCKS)
  }

  function Mounted(blocks: nat): Mount
    requires blocks >= USED_BLOCKS
  {
    Mount(ImageLayout(), Image(blocks), USED_INODES, USED_BLOCKS, RootInode(), RootInode())
  }

  lemma FirstBitsAre(k: nat)
    requires k <= BITS_PER_BLOCK
    ensures forall b: nat :: b in SetBits(FirstBits(k)) <==> b < k
  {
    forall b: nat | b < BITS_PER_BLOCK ensures IsSet(FirstBits(k), b) <==> b < k {
      assert FirstBits(k)[b / 32] == FirstBitsWord(k, b / 32);
      assert 32 * (b / 32) + b % 32 == b;
    }
  }

  lemma RootCount()
    ensures Taken(RootListing()) == 2 && FirstNamed(RootListing(), ROOT_ID, 0) < ENTRIES_PER_BLOCK
  {
    hide EmptyListing, FirstNamed;
    var empty := EmptyListing(ENTRIES_PER_BLOCK - 2);
    TakenCounts(empty);
    assert RootListing() == [Entry(ROOT_ID, "."), Entry(ROOT_ID, "..")] + empty;
    assert RootListing()[1..][1..] == empty;
    assert Taken(RootListing()) == 1 + Taken(RootListing()[1..]);
  }

  lemma MountedLooks(blocks: nat)
    requires blocks >= USED_BLOCKS
    ensures Mounted(blocks).Valid() && Recorded(Mounted(blocks))
    ensures var v := View(Mounted(blocks));
            && v.first == DATA_START && v.inodes == InodeTable()
            && (forall id: nat :: id in v.ids <==> id < USED_INODES)
            && (forall b: nat :: b in v.taken <==> b < USED_BLOCKS)
            && |v.data| == blocks - DATA_START && v.data[0] == Entries(RootListing())
            && v.freeInode == USED_INODES && v.freeData == USED_BLOCKS
            && v.root == RootInode() && v.cwd == RootInode()
  {
    hide FirstBits;
    FirstBitsAre(USED_INODES);
    FirstBitsAre(USED_BLOCKS);
    assert Mounted(blocks).Valid();
  }

  /** Every freshly written image, however many blocks it has, is a healthy volume with its root
      directory, nothing else, and the first free inode and block to be used next. */
  lemma MountedIsHealthy(blocks: nat)
    requires blocks >= USED_BLOCKS
    ensures Healthy(Mounted(blocks))
    ensures var v := View(Mounted(blocks));
            && (forall id: nat :: v.Live(id) <==> id == ROOT_ID)
            && IsLeastClear(v.ids, v.freeInode) && IsLeastClear(v.taken, v.freeData)
  {
    hide View, Typed, FirstBits, BlockList, FirstNamed, Taken;
    MountedLooks(blocks);
    RootCount();
    OneBlockList(RootInode().extents);
    var v := View(Mounted(blocks));
    assert forall id: nat :: v.Live(id) <==> id == ROOT_ID;
    assert v.Shape(RootInode()) && v.Listing(RootInode()) == RootListing();
    assert CountSound(v, RootInode());
    assert SlotsSound(v) && BlocksSound(v) && DirsSound(v) && FreeSound(v) && CachesSound(v);
    assert NamesSound(v);
  }
}
