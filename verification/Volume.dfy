/** What a mounted volume means: its inodes, the bits that say which inodes and blocks are taken,
    its data blocks, and the two inodes the kernel keeps cached. */
module Volume {
  import opened FileBlocks
  import opened Bytes
  import opened Words

  const FILETYPE_FILE: nat := 0
  const FILETYPE_DIR: nat := 1

  const ENTRY_SIZE: nat := 64
  const ENTRIES_PER_BLOCK: nat := 64
  const ROOT_ID: nat := 1

  datatype Inode = Inode(id: nat, kind: nat, size: nat, extents: seq<Extent>, refCount: nat)

  datatype Entry = Entry(id: nat, name: string)

  const NO_ENTRY := Entry(0, "")
  const NO_EXTENT := Extent(0, 0)
  const NO_INODE := Inode(0, 0, 0, [NO_EXTENT, NO_EXTENT, NO_EXTENT, NO_EXTENT], 0)

  datatype Block =
    | Super(freeInode: nat, freeData: nat)
    | Bits(words: seq<Word>)
    | Inodes(inodes: seq<Inode>)
    | Entries(entries: seq<Entry>)
    | Data(bytes: seq<Byte>)

  // Every byte of the block is zero. Blocks of the other kinds are never written to a file.
  ghost predicate IsZero(b: Block) {
    match b
    case Data(bytes) => forall i :: 0 <= i < |bytes| ==> bytes[i] == 0
    case Bits(words) => SetBits(words) == {}
    case _ => false
  }

  function ZeroBlock(): Block {
    Data(seq(BLOCK_SIZE, _ => 0))
  }

  // ---------- The blocks of a file ----------

  function Span(first: nat, length: nat): (r: seq<nat>)
    ensures |r| == length
    ensures forall b: nat :: b in r <==> first <= b < first + length
    decreases length
  {
    if length == 0 then [] else [first] + Span(first + 1, length - 1)
  }

  function BlockList(extents: seq<Extent>): seq<nat> {
    if extents == [] then [] else Span(extents[0].first, extents[0].length) + BlockList(extents[1..])
  }

  ghost function Members(blocks: seq<nat>): set<nat> {
    set b | b in blocks
  }

  // One block in the first extent and nothing in the others.
  predicate OneBlock(extents: seq<Extent>) {
    && |extents| == 4 && extents[0].length == 1
    && extents[1].length == 0 && extents[2].length == 0 && extents[3].length == 0
  }

  lemma OneBlockList(extents: seq<Extent>)
    requires OneBlock(extents)
    ensures BlockList(extents) == [extents[0].first]
  {
    assert BlockList(extents[1..][1..][1..][1..]) == [];
    assert Span(extents[0].first, 1) == [extents[0].first];
    assert BlockList(extents[1..][1..][1..]) == [];
    assert BlockList(extents[1..][1..]) == [];
    assert BlockList(extents[1..]) == [];
  }

  // ---------- A directory's entries ----------

  function Taken(entries: seq<Entry>): nat {
    if entries == [] then 0 else (if entries[0].id != 0 then 1 else 0) + Taken(entries[1..])
  }

  // The first slot from k on whose id is `id`, or the number of slots.
  function FirstNamed(entries: seq<Entry>, id: nat, k: nat): (r: nat)
    requires k <= |entries|
    ensures k <= r <= |entries|
    ensures r < |entries| ==> entries[r].id == id
    ensures forall i :: k <= i < r ==> entries[i].id != id
    decreases |entries| - k
  {
    if k == |entries| || entries[k].id == id then k else FirstNamed(entries, id, k + 1)
  }

  lemma {:induction false} TakenUpdates(entries: seq<Entry>, k: nat, e: Entry)
    requires k < |entries|
    ensures Taken(entries[k := e]) == Taken(entries) + (if e.id != 0 then 1 else 0) - if entries[k].id != 0 then 1 else 0
  {
    if k > 0 {
      assert entries[k := e][1..] == entries[1..][k - 1 := e];
      TakenUpdates(entries[1..], k - 1, e);
    }
  }

  lemma {:induction false} TakenCounts(entries: seq<Entry>)
    ensures Taken(entries) <= |entries|
    ensures Taken(entries) == |entries| <==> forall i :: 0 <= i < |entries| ==> entries[i].id != 0
    ensures Taken(entries) == 0 <==> forall i :: 0 <= i < |entries| ==> entries[i].id == 0
  {
    if entries != [] {
      assert forall i :: 1 <= i < |entries| ==> entries[i] == entries[1..][i - 1];
      TakenCounts(entries[1..]);
    }
  }

  lemma {:induction false} TakenUpTo(entries: seq<Entry>, k: nat)
    requires k <= |entries| && forall i :: 0 <= i < k ==> entries[i].id != 0
    ensures Taken(entries) >= k
  {
    if k > 0 { TakenUpTo(entries[1..], k - 1); }
  }

  /** A scan for an empty slot that stops after as many entries as the directory now counts finds
      one, whenever there is one. */
  lemma InsertScanFindsSlot(entries: seq<Entry>)
    requires Taken(entries) < |entries|
    ensures FirstNamed(entries, 0, 0) <= Taken(entries) && FirstNamed(entries, 0, 0) < |entries|
  {
    TakenUpTo(entries, FirstNamed(entries, 0, 0));
  }

  function Inserted(entries: seq<Entry>, e: Entry): (r: seq<Entry>)
    ensures |r| == |entries|
  {
    var k := FirstNamed(entries, 0, 0);
    if k < |entries| then entries[k := e] else entries
  }

  function Removed(entries: seq<Entry>, id: nat): (r: seq<Entry>)
    ensures |r| == |entries|
  {
    var k := FirstNamed(entries, id, 0);
    if k < |entries| then entries[k := NO_ENTRY] else entries
  }

  // ---------- Volumes ----------

  // `first` is the number of the first data block; `data` holds the blocks from there on.
  datatype Volume = Volume(
    first: nat,
    inodes: seq<Inode>,
    ids: set<nat>,
    taken: set<nat>,
    data: seq<Block>,
    freeInode: nat,
    freeData: nat,
    root: Inode,
    cwd: Inode
  ) {
    predicate HasBlock(b: nat) {
      first <= b < first + |data|
    }

    function At(b: nat): Block
      requires HasBlock(b)
    {
      data[b - first]
    }

    predicate Live(id: nat) {
      0 < id < |inodes| && id in ids
    }

    predicate Dir(id: nat) {
      Live(id) && inodes[id].kind == FILETYPE_DIR
    }

    // The shape of a one-block directory.
    predicate Shape(dir: Inode) {
      && OneBlock(dir.extents) && HasBlock(dir.extents[0].first)
      && At(dir.extents[0].first).Entries? && |At(dir.extents[0].first).entries| == ENTRIES_PER_BLOCK
    }

    function Listing(dir: Inode): seq<Entry>
      requires Shape(dir)
    {
      At(dir.extents[0].first).entries
    }
  }

  // Slot k of the inode table holds inode k while its bit is set and zeros while it is clear.
  ghost predicate SlotsSound(v: Volume) {
    forall id: nat :: 0 < id < |v.inodes| ==>
      if id in v.ids then v.inodes[id].id == id else v.inodes[id] == NO_INODE
  }

  // A live inode's blocks are data blocks marked taken; no two live inodes share one.
  ghost predicate BlocksSound(v: Volume) {
    && (forall b: nat :: b < v.first ==> b in v.taken)
    && (forall id: nat, b: nat :: v.Live(id) && b in BlockList(v.inodes[id].extents) ==> v.HasBlock(b) && b in v.taken)
    && (forall id: nat, id': nat, b: nat :: v.Live(id) && v.Live(id') && id != id' && b in BlockList(v.inodes[id].extents)
          ==> b !in BlockList(v.inodes[id'].extents))
  }

  // A directory's size counts its entries, and one of them names the directory itself.
  ghost predicate CountSound(v: Volume, dir: Inode) {
    && v.Shape(dir)
    && dir.size == ENTRY_SIZE * Taken(v.Listing(dir))
    && FirstNamed(v.Listing(dir), dir.id, 0) < ENTRIES_PER_BLOCK
  }

  ghost predicate DirsSound(v: Volume) {
    forall id: nat :: v.Dir(id) ==> CountSound(v, v.inodes[id])
  }

  // Entry k of directory d names `id`.
  ghost predicate Names(v: Volume, d: nat, k: nat, id: nat) {
    v.Dir(d) && v.Shape(v.inodes[d]) && k < ENTRIES_PER_BLOCK && v.Listing(v.inodes[d])[k].id == id && id != 0
  }

  // Entries name live inodes, and a file is named only once.
  ghost predicate NamesSound(v: Volume) {
    && (forall d: nat, k: nat, id: nat :: Names(v, d, k, id) ==> v.Live(id))
    && (forall d: nat, k: nat, d': nat, k': nat, id: nat :: Names(v, d, k, id) && Names(v, d', k', id) && v.inodes[id].kind == FILETYPE_FILE
          ==> d == d' && k == k')
  }

  ghost predicate FreeSound(v: Volume) {
    && (v.freeInode == 0 || v.freeInode !in v.ids)
    && (v.freeData == 0 || v.freeData !in v.taken)
  }

  ghost predicate CachesSound(v: Volume) {
    && v.root.id == ROOT_ID && v.Dir(ROOT_ID) && v.inodes[ROOT_ID] == v.root
    && v.Dir(v.cwd.id) && v.inodes[v.cwd.id] == v.cwd
  }

  ghost predicate Sound(v: Volume) {
    && SlotsSound(v) && BlocksSound(v) && DirsSound(v) && NamesSound(v) && FreeSound(v) && CachesSound(v)
  }

  // ---------- Creating a file ----------

  function NewInode(id: nat, block: nat): Inode {
    Inode(id, FILETYPE_FILE, 0, [Extent(block, 1), NO_EXTENT, NO_EXTENT, NO_EXTENT], 0)
  }

  // Free slots, a free block, and a directory with room in its one block.
  predicate MayCreate(v: Volume, parent: Inode) {
    && 0 < v.freeInode < |v.inodes| && 0 < v.freeData && v.HasBlock(v.freeData)
    && 0 < parent.id < |v.inodes| && parent.kind == FILETYPE_DIR && v.Shape(parent)
    && 0 < parent.size && parent.size + ENTRY_SIZE <= BLOCK_SIZE
  }

  function Created(v: Volume, parent: Inode, name: string, nextInode: nat, nextData: nat): Volume
    requires MayCreate(v, parent)
  {
    var parent' := parent.(size := parent.size + ENTRY_SIZE);
    var entries := Inserted(v.Listing(parent), Entry(v.freeInode, name));
    v.(inodes := v.inodes[v.freeInode := NewInode(v.freeInode, v.freeData)][parent.id := parent'],
       ids := v.ids + {v.freeInode},
       taken := v.taken + {v.freeData},
       data := v.data[parent.extents[0].first - v.first := Entries(entries)],
       freeInode := nextInode,
       freeData := nextData,
       root := if v.root.id == parent.id then parent' else v.root,
       cwd := if v.cwd.id == parent.id then parent' else v.cwd)
  }

  // ---------- Deleting a file ----------

  predicate MayDelete(v: Volume, file: Inode, parent: Inode) {
    && 0 < file.id < |v.inodes| && file.kind == FILETYPE_FILE
    && (forall b: nat :: b in BlockList(file.extents) ==> v.HasBlock(b))
    && 0 < parent.id < |v.inodes| && parent.kind == FILETYPE_DIR && v.Shape(parent)
    && FirstNamed(v.Listing(parent), file.id, 0) < ENTRIES_PER_BLOCK
    && parent.extents[0].first !in BlockList(file.extents)
    && parent.size > ENTRY_SIZE && parent.size <= BLOCK_SIZE
  }

  // The blocks written in order, each with its own contents.
  function Overwritten(data: seq<Block>, first: nat, blocks: seq<nat>, contents: seq<Block>): (r: seq<Block>)
    requires |contents| == |blocks|
    requires forall i :: 0 <= i < |blocks| ==> first <= blocks[i] < first + |data|
    ensures |r| == |data|
    decreases blocks
  {
    if blocks == [] then data
    else Overwritten(data[blocks[0] - first := contents[0]], first, blocks[1..], contents[1..])
  }

  // A block not written keeps its contents.
  lemma {:induction false} OverwrittenElsewhere(data: seq<Block>, first: nat, blocks: seq<nat>, contents: seq<Block>, b: nat)
    requires |contents| == |blocks| && first <= b < first + |data| && b !in blocks
    requires forall i :: 0 <= i < |blocks| ==> first <= blocks[i] < first + |data|
    ensures Overwritten(data, first, blocks, contents)[b - first] == data[b - first]
    decreases blocks
  {
    if blocks != [] {
      assert blocks[0] in blocks && blocks[0] != b;
      OverwrittenElsewhere(data[blocks[0] - first := contents[0]], first, blocks[1..], contents[1..], b);
    }
  }

  // The last write is there to stay.
  lemma {:induction false} OverwrittenLast(data: seq<Block>, first: nat, blocks: seq<nat>, contents: seq<Block>)
    requires |contents| == |blocks| > 0
    requires forall i :: 0 <= i < |blocks| ==> first <= blocks[i] < first + |data|
    ensures Overwritten(data, first, blocks, contents)[blocks[|blocks| - 1] - first] == contents[|blocks| - 1]
    decreases blocks
  {
    var once := data[blocks[0] - first := contents[0]];
    if |blocks| > 1 {
      OverwrittenLast(once, first, blocks[1..], contents[1..]);
    } else {
      assert Overwritten(once, first, blocks[1..], contents[1..]) == once;
    }
  }

  // `contents` is what the deletion writes to the file's blocks.
  ghost function Deleted(v: Volume, file: Inode, parent: Inode, contents: seq<Block>): Volume
    requires MayDelete(v, file, parent) && |contents| == |BlockList(file.extents)|
  {
    var parent' := parent.(size := parent.size - ENTRY_SIZE);
    var blocks := BlockList(file.extents);
    assert forall i :: 0 <= i < |blocks| ==> blocks[i] in blocks;
    v.(inodes := v.inodes[file.id := NO_INODE][parent.id := parent'],
       ids := v.ids - {file.id},
       taken := v.taken - Members(blocks),
       data := Overwritten(v.data, v.first, blocks, contents)
               [parent.extents[0].first - v.first := Entries(Removed(v.Listing(parent), file.id))],
       root := if v.root.id == parent.id then parent' else v.root,
       cwd := if v.cwd.id == parent.id then parent' else v.cwd)
  }

  // ---------- What creating keeps ----------

  // The parent handed to an operation is the directory the volume has under that id.
  ghost predicate Current(v: Volume, parent: Inode) {
    v.Dir(parent.id) && v.inodes[parent.id] == parent
  }

  lemma FreshIsNotLive(v: Volume, parent: Inode)
    requires Sound(v) && Current(v, parent) && MayCreate(v, parent)
    ensures !v.Live(v.freeInode) && v.freeInode != parent.id && v.freeInode != v.root.id && v.freeInode != v.cwd.id
    ensures forall id: nat :: v.Live(id) ==> v.freeData !in BlockList(v.inodes[id].extents)
    ensures parent.extents[0].first in BlockList(parent.extents)
  {
    OneBlockList(parent.extents);
  }

  lemma CreatedInodes(v: Volume, parent: Inode, name: string, nextInode: nat, nextData: nat)
    requires Sound(v) && Current(v, parent) && MayCreate(v, parent)
    ensures var v' := Created(v, parent, name, nextInode, nextData);
            && |v'.inodes| == |v.inodes|
            && (forall id: nat :: v'.Live(id) <==> v.Live(id) || id == v.freeInode)
            && (forall id: nat :: v'.Dir(id) <==> v.Dir(id))
            && v'.inodes[v.freeInode] == NewInode(v.freeInode, v.freeData)
            && v'.inodes[parent.id] == parent.(size := parent.size + ENTRY_SIZE)
            && (forall id: nat :: 0 <= id < |v.inodes| && id != v.freeInode && id != parent.id ==> v'.inodes[id] == v.inodes[id])
  {
    FreshIsNotLive(v, parent);
    hide Sound, SlotsSound, BlocksSound, DirsSound, NamesSound, CachesSound, FreeSound, BlockList, Inserted;
  }

  lemma CreatedData(v: Volume, parent: Inode, name: string, nextInode: nat, nextData: nat)
    requires MayCreate(v, parent)
    ensures var v' := Created(v, parent, name, nextInode, nextData);
            && |v'.data| == |v.data| && v'.first == v.first
            && (forall b: nat :: v.HasBlock(b) && b != parent.extents[0].first ==> v'.At(b) == v.At(b))
            && v'.At(parent.extents[0].first) == Entries(Inserted(v.Listing(parent), Entry(v.freeInode, name)))
  {
    hide Inserted;
  }

  lemma CreatedLooks(v: Volume, parent: Inode, name: string, nextInode: nat, nextData: nat)
    requires Sound(v) && Current(v, parent) && MayCreate(v, parent)
    ensures var v' := Created(v, parent, name, nextInode, nextData);
            && |v'.inodes| == |v.inodes| && |v'.data| == |v.data| && v'.first == v.first
            && (forall id: nat :: v'.Live(id) <==> v.Live(id) || id == v.freeInode)
            && (forall id: nat :: v'.Dir(id) <==> v.Dir(id))
            && v'.inodes[v.freeInode] == NewInode(v.freeInode, v.freeData)
            && v'.inodes[parent.id] == parent.(size := parent.size + ENTRY_SIZE)
            && (forall id: nat :: 0 <= id < |v.inodes| && id != v.freeInode && id != parent.id ==> v'.inodes[id] == v.inodes[id])
            && (forall b: nat :: v.HasBlock(b) && b != parent.extents[0].first ==> v'.At(b) == v.At(b))
            && v'.At(parent.extents[0].first) == Entries(Inserted(v.Listing(parent), Entry(v.freeInode, name)))
  {
    hide Created, Sound;
    CreatedInodes(v, parent, name, nextInode, nextData);
    CreatedData(v, parent, name, nextInode, nextData);
  }

  // A directory other than the parent has its block apart from the parent's.
  lemma OtherDirsApart(v: Volume, parent: Inode, d: nat)
    requires BlocksSound(v) && DirsSound(v) && Current(v, parent) && v.Dir(d) && d != parent.id
    ensures v.Shape(v.inodes[d]) && v.Shape(parent)
    ensures v.inodes[d].extents[0].first != parent.extents[0].first
  {
    OneBlockList(v.inodes[d].extents);
    OneBlockList(parent.extents);
  }

  lemma CreatedSlots(v: Volume, parent: Inode, name: string, nextInode: nat, nextData: nat)
    requires Sound(v) && Current(v, parent) && MayCreate(v, parent)
    ensures SlotsSound(Created(v, parent, name, nextInode, nextData))
    ensures CachesSound(Created(v, parent, name, nextInode, nextData))
  {
    hide BlocksSound, DirsSound, NamesSound, BlockList;
    FreshIsNotLive(v, parent);
  }

  lemma CreatedBlocks(v: Volume, parent: Inode, name: string, nextInode: nat, nextData: nat)
    requires Sound(v) && Current(v, parent) && MayCreate(v, parent)
    ensures BlocksSound(Created(v, parent, name, nextInode, nextData))
  {
    hide DirsSound, NamesSound, CachesSound, SlotsSound, BlockList;
    FreshIsNotLive(v, parent);
    CreatedLooks(v, parent, name, nextInode, nextData);
    OneBlockList(NewInode(v.freeInode, v.freeData).extents);
    var v' := Created(v, parent, name, nextInode, nextData);
    forall id: nat | v'.Live(id)
      ensures BlockList(v'.inodes[id].extents)
              == if id == v.freeInode then [v.freeData] else BlockList(v.inodes[id].extents)
    {}
    forall id: nat, b: nat | v'.Live(id) && b in BlockList(v'.inodes[id].extents)
      ensures v'.HasBlock(b) && b in v'.taken
    {
      if id == v.freeInode {
        assert b == v.freeData && v.HasBlock(b);
      } else {
        assert v.Live(id) && b in BlockList(v.inodes[id].extents) && v.HasBlock(b) && b in v.taken;
      }
    }
    forall id: nat, id': nat, b: nat
      | v'.Live(id) && v'.Live(id') && id != id' && b in BlockList(v'.inodes[id].extents)
      ensures b !in BlockList(v'.inodes[id'].extents)
    {
      if id == v.freeInode {
        assert b == v.freeData;
      } else {
        assert b in BlockList(v.inodes[id].extents);
        if id' == v.freeInode { assert b in v.taken; }
      }
    }
  }

  // The parent's listing after an insertion.
  lemma InsertedCounts(entries: seq<Entry>, e: Entry, self: nat)
    requires |entries| == ENTRIES_PER_BLOCK && Taken(entries) < ENTRIES_PER_BLOCK && e.id != 0 && self != 0
    requires FirstNamed(entries, self, 0) < ENTRIES_PER_BLOCK
    ensures FirstNamed(entries, 0, 0) < ENTRIES_PER_BLOCK
    ensures Inserted(entries, e) == entries[FirstNamed(entries, 0, 0) := e]
    ensures Taken(Inserted(entries, e)) == Taken(entries) + 1
    ensures FirstNamed(Inserted(entries, e), self, 0) < ENTRIES_PER_BLOCK
  {
    InsertScanFindsSlot(entries);
    TakenUpdates(entries, FirstNamed(entries, 0, 0), e);
    assert Inserted(entries, e)[FirstNamed(entries, self, 0)].id == self;
  }

  lemma CreatedDirs(v: Volume, parent: Inode, name: string, nextInode: nat, nextData: nat)
    requires Sound(v) && Current(v, parent) && MayCreate(v, parent)
    ensures DirsSound(Created(v, parent, name, nextInode, nextData))
  {
    hide NamesSound, CachesSound, SlotsSound, BlockList;
    var v' := Created(v, parent, name, nextInode, nextData);
    CreatedLooks(v, parent, name, nextInode, nextData);
    forall d: nat | v'.Dir(d) ensures CountSound(v', v'.inodes[d]) {
      assert v.Dir(d) && CountSound(v, v.inodes[d]);
      if d == parent.id {
        InsertedCounts(v.Listing(parent), Entry(v.freeInode, name), parent.id);
      } else {
        FreshIsNotLive(v, parent);
        OtherDirsApart(v, parent, d);
      }
    }
  }

  // Creating adds one name: the new inode's, in the parent's first empty slot.
  lemma CreatedNames(v: Volume, parent: Inode, name: string, nextInode: nat, nextData: nat, d: nat, k: nat, id: nat)
    requires Sound(v) && Current(v, parent) && MayCreate(v, parent)
    ensures Names(Created(v, parent, name, nextInode, nextData), d, k, id)
            <==> Names(v, d, k, id)
                 || (d == parent.id && k == FirstNamed(v.Listing(parent), 0, 0) && id == v.freeInode)
  {
    hide NamesSound, CachesSound, SlotsSound, BlockList;
    CreatedLooks(v, parent, name, nextInode, nextData);
    if v.Dir(d) {
      assert CountSound(v, v.inodes[d]);
      if d == parent.id {
        InsertedCounts(v.Listing(parent), Entry(v.freeInode, name), parent.id);
      } else {
        FreshIsNotLive(v, parent);
        OtherDirsApart(v, parent, d);
      }
    }
  }

  lemma CreatedNamesSound(v: Volume, parent: Inode, name: string, nextInode: nat, nextData: nat)
    requires Sound(v) && Current(v, parent) && MayCreate(v, parent)
    ensures NamesSound(Created(v, parent, name, nextInode, nextData))
  {
    hide CachesSound, SlotsSound, BlocksSound, DirsSound, Names;
    var v' := Created(v, parent, name, nextInode, nextData);
    CreatedLooks(v, parent, name, nextInode, nextData);
    FreshIsNotLive(v, parent);
    forall d: nat, k: nat, id: nat
      ensures Names(v', d, k, id)
              <==> Names(v, d, k, id)
                   || (d == parent.id && k == FirstNamed(v.Listing(parent), 0, 0) && id == v.freeInode)
    {
      CreatedNames(v, parent, name, nextInode, nextData, d, k, id);
    }
  }

  /** Creating a file keeps the volume sound: its inode and block were free, its name is the only
      one it has, and the cached inodes still equal those on disk. */
  lemma CreatedIsSound(v: Volume, parent: Inode, name: string, nextInode: nat, nextData: nat)
    requires Sound(v) && Current(v, parent) && MayCreate(v, parent)
    requires nextInode == 0 || nextInode !in v.ids + {v.freeInode}
    requires nextData == 0 || nextData !in v.taken + {v.freeData}
    ensures Sound(Created(v, parent, name, nextInode, nextData))
  {
    CreatedSlots(v, parent, name, nextInode, nextData);
    CreatedBlocks(v, parent, name, nextInode, nextData);
    CreatedDirs(v, parent, name, nextInode, nextData);
    CreatedNamesSound(v, parent, name, nextInode, nextData);
  }

  // ---------- What deleting keeps ----------

  lemma DeletedInodes(v: Volume, file: Inode, parent: Inode, contents: seq<Block>)
    requires Sound(v) && Current(v, parent) && MayDelete(v, file, parent) && |contents| == |BlockList(file.extents)|
    requires v.Live(file.id) && v.inodes[file.id] == file
    ensures var v' := Deleted(v, file, parent, contents);
            && |v'.inodes| == |v.inodes| && |v'.data| == |v.data| && v'.first == v.first
            && (forall id: nat :: v'.Live(id) <==> v.Live(id) && id != file.id)
            && (forall id: nat :: v'.Dir(id) <==> v.Dir(id))
            && v'.inodes[file.id] == NO_INODE
            && v'.inodes[parent.id] == parent.(size := parent.size - ENTRY_SIZE)
            && (forall id: nat :: 0 <= id < |v.inodes| && id != file.id && id != parent.id ==> v'.inodes[id] == v.inodes[id])
  {
    hide SlotsSound, BlocksSound, DirsSound, NamesSound, CachesSound, BlockList, Removed;
  }

  lemma DeletedData(v: Volume, file: Inode, parent: Inode, contents: seq<Block>)
    requires MayDelete(v, file, parent) && |contents| == |BlockList(file.extents)|
    ensures var v' := Deleted(v, file, parent, contents);
            && |v'.data| == |v.data| && v'.first == v.first
            && (forall b: nat :: v.HasBlock(b) && b != parent.extents[0].first && b !in BlockList(file.extents) ==>
                  v'.At(b) == v.At(b))
            && v'.At(parent.extents[0].first) == Entries(Removed(v.Listing(parent), file.id))
  {
    hide BlockList, Removed, Overwritten;
    var v', p, blocks := Deleted(v, file, parent, contents), parent.extents[0].first, BlockList(file.extents);
    assert forall i :: 0 <= i < |blocks| ==> blocks[i] in blocks;
    forall b: nat | v.HasBlock(b) && b != p && b !in blocks ensures v'.At(b) == v.At(b) {
      OverwrittenElsewhere(v.data, v.first, blocks, contents, b);
    }
  }

  lemma DeletedSlots(v: Volume, file: Inode, parent: Inode, contents: seq<Block>)
    requires Sound(v) && Current(v, parent) && MayDelete(v, file, parent) && |contents| == |BlockList(file.extents)|
    requires v.Live(file.id) && v.inodes[file.id] == file
    ensures SlotsSound(Deleted(v, file, parent, contents))
    ensures CachesSound(Deleted(v, file, parent, contents))
    ensures FreeSound(Deleted(v, file, parent, contents))
  {
    hide BlocksSound, DirsSound, NamesSound, BlockList, Overwritten, Removed;
    DeletedInodes(v, file, parent, contents);
  }

  lemma DeletedBlocks(v: Volume, file: Inode, parent: Inode, contents: seq<Block>)
    requires Sound(v) && Current(v, parent) && MayDelete(v, file, parent) && |contents| == |BlockList(file.extents)|
    requires v.Live(file.id) && v.inodes[file.id] == file
    ensures BlocksSound(Deleted(v, file, parent, contents))
  {
    hide DirsSound, NamesSound, CachesSound, SlotsSound, BlockList, Overwritten, Removed;
    DeletedInodes(v, file, parent, contents);
    var v' := Deleted(v, file, parent, contents);
    forall id: nat | v'.Live(id) ensures BlockList(v'.inodes[id].extents) == BlockList(v.inodes[id].extents) {}
    forall id: nat, b: nat | v'.Live(id) && b in BlockList(v'.inodes[id].extents)
      ensures v'.HasBlock(b) && b in v'.taken
    {
      assert b in BlockList(v.inodes[id].extents) && v.HasBlock(b) && b in v.taken;
      assert b !in BlockList(v.inodes[file.id].extents);
    }
  }

  // The parent's listing after a removal.
  lemma RemovedCounts(entries: seq<Entry>, id: nat, self: nat)
    requires |entries| == ENTRIES_PER_BLOCK && id != 0 && self != id && self != 0
    requires FirstNamed(entries, id, 0) < ENTRIES_PER_BLOCK && FirstNamed(entries, self, 0) < ENTRIES_PER_BLOCK
    ensures Removed(entries, id) == entries[FirstNamed(entries, id, 0) := NO_ENTRY]
    ensures 1 < Taken(entries) <= ENTRIES_PER_BLOCK
    ensures Taken(Removed(entries, id)) == Taken(entries) - 1
    ensures FirstNamed(Removed(entries, id), self, 0) < ENTRIES_PER_BLOCK
  {
    var k := FirstNamed(entries, id, 0);
    var gone := entries[k := NO_ENTRY];
    TakenUpdates(entries, k, NO_ENTRY);
    assert gone[FirstNamed(entries, self, 0)].id == self;
    TakenCounts(gone);
    TakenCounts(entries);
  }

  lemma DeletedDirs(v: Volume, file: Inode, parent: Inode, contents: seq<Block>)
    requires Sound(v) && Current(v, parent) && MayDelete(v, file, parent) && |contents| == |BlockList(file.extents)|
    requires v.Live(file.id) && v.inodes[file.id] == file
    ensures DirsSound(Deleted(v, file, parent, contents))
  {
    hide NamesSound, CachesSound, SlotsSound, BlockList, Overwritten, Removed;
    var v' := Deleted(v, file, parent, contents);
    DeletedInodes(v, file, parent, contents);
    DeletedData(v, file, parent, contents);
    forall d: nat | v'.Dir(d) ensures CountSound(v', v'.inodes[d]) {
      assert v.Dir(d) && CountSound(v, v.inodes[d]);
      if d == parent.id {
        RemovedCounts(v.Listing(parent), file.id, parent.id);
      } else {
        OtherDirsApart(v, parent, d);
        OneBlockList(v.inodes[d].extents);
      }
    }
  }

  lemma NamedOnce(v: Volume, file: Inode, parent: Inode, d: nat, k: nat)
    requires Sound(v) && Current(v, parent) && MayDelete(v, file, parent)
    requires v.Live(file.id) && v.inodes[file.id] == file
    ensures Names(v, d, k, file.id) <==> d == parent.id && k == FirstNamed(v.Listing(parent), file.id, 0)
  {
    hide CachesSound, SlotsSound, BlocksSound, DirsSound, BlockList;
    assert Names(v, parent.id, FirstNamed(v.Listing(parent), file.id, 0), file.id);
  }

  // Deleting takes away the file's one name, and no other.
  lemma DeletedNames(v: Volume, file: Inode, parent: Inode, contents: seq<Block>, d: nat, k: nat, id: nat)
    requires Sound(v) && Current(v, parent) && MayDelete(v, file, parent) && |contents| == |BlockList(file.extents)|
    requires v.Live(file.id) && v.inodes[file.id] == file
    ensures Names(Deleted(v, file, parent, contents), d, k, id) <==> Names(v, d, k, id) && id != file.id
  {
    hide CachesSound, SlotsSound, BlocksSound, NamesSound, BlockList, Overwritten, Removed;
    NamedOnce(v, file, parent, d, k);
    var v' := Deleted(v, file, parent, contents);
    DeletedInodes(v, file, parent, contents);
    DeletedData(v, file, parent, contents);
    if v.Dir(d) {
      assert CountSound(v, v.inodes[d]);
      if d == parent.id {
        RemovedCounts(v.Listing(parent), file.id, parent.id);
        var slot := FirstNamed(v.Listing(parent), file.id, 0);
        assert v'.Shape(v'.inodes[d]) && v'.Listing(v'.inodes[d]) == v.Listing(parent)[slot := NO_ENTRY];
      } else {
        OtherDirKept(v, file, parent, contents, d);
      }
    }
  }

  lemma OtherDirKept(v: Volume, file: Inode, parent: Inode, contents: seq<Block>, d: nat)
    requires Sound(v) && Current(v, parent) && MayDelete(v, file, parent) && |contents| == |BlockList(file.extents)|
    requires v.Live(file.id) && v.inodes[file.id] == file && v.Dir(d) && d != parent.id
    ensures var v' := Deleted(v, file, parent, contents);
            && v'.inodes[d] == v.inodes[d] && v.Shape(v.inodes[d]) && v'.Shape(v.inodes[d])
            && v'.Listing(v.inodes[d]) == v.Listing(v.inodes[d])
  {
    hide CachesSound, SlotsSound, NamesSound, Overwritten, Removed, BlockList;
    DeletedInodes(v, file, parent, contents);
    DeletedData(v, file, parent, contents);
    OtherDirsApart(v, parent, d);
    OneBlockList(v.inodes[d].extents);
  }

  lemma DeletedNamesSound(v: Volume, file: Inode, parent: Inode, contents: seq<Block>)
    requires Sound(v) && Current(v, parent) && MayDelete(v, file, parent) && |contents| == |BlockList(file.extents)|
    requires v.Live(file.id) && v.inodes[file.id] == file
    ensures NamesSound(Deleted(v, file, parent, contents))
  {
    hide CachesSound, SlotsSound, BlocksSound, DirsSound, Names;
    var v' := Deleted(v, file, parent, contents);
    DeletedInodes(v, file, parent, contents);
    forall d: nat, k: nat, id: nat ensures Names(v', d, k, id) <==> Names(v, d, k, id) && id != file.id {
      DeletedNames(v, file, parent, contents, d, k, id);
    }
  }

  /** Deleting a file keeps the volume sound: nothing names its inode any more, and what the other
      inodes hold is untouched. */
  lemma DeletedIsSound(v: Volume, file: Inode, parent: Inode, contents: seq<Block>)
    requires Sound(v) && Current(v, parent) && MayDelete(v, file, parent) && |contents| == |BlockList(file.extents)|
    requires v.Live(file.id) && v.inodes[file.id] == file
    ensures Sound(Deleted(v, file, parent, contents))
  {
    DeletedSlots(v, file, parent, contents);
    DeletedBlocks(v, file, parent, contents);
    DeletedDirs(v, file, parent, contents);
    DeletedNamesSound(v, file, parent, contents);
  }

  /** The guards of a deletion hold for any file its parent names. */
  lemma NamedFilesMayBeDeleted(v: Volume, file: Inode, parent: Inode, k: nat)
    requires Sound(v) && Current(v, parent) && v.Live(file.id)
    requires Names(v, parent.id, k, file.id) && v.inodes[file.id] == file && file.kind == FILETYPE_FILE
    ensures MayDelete(v, file, parent)
  {
    OneBlockList(parent.extents);
    assert CountSound(v, parent);
    RemovedCounts(v.Listing(parent), file.id, parent.id);
  }

  lemma FreshIsUnnamed(v: Volume, parent: Inode)
    requires Sound(v) && Current(v, parent) && MayCreate(v, parent)
    ensures FirstNamed(v.Listing(parent), v.freeInode, 0) == ENTRIES_PER_BLOCK
  {
    hide BlocksSound, DirsSound;
    forall k: nat | k < ENTRIES_PER_BLOCK && v.Listing(parent)[k].id != 0
      ensures v.Live(v.Listing(parent)[k].id)
    {
      assert Names(v, parent.id, k, v.Listing(parent)[k].id);
    }
  }

  lemma RemovedAfterInserted(entries: seq<Entry>, e: Entry)
    requires FirstNamed(entries, 0, 0) < |entries| && FirstNamed(entries, e.id, 0) == |entries|
    ensures FirstNamed(Inserted(entries, e), e.id, 0) == FirstNamed(entries, 0, 0)
    ensures Removed(Inserted(entries, e), e.id) == entries[FirstNamed(entries, 0, 0) := NO_ENTRY]
  {
    var slot := FirstNamed(entries, 0, 0);
    assert Inserted(entries, e)[slot] == e;
  }

  lemma CreatedMayBeDeleted(v: Volume, parent: Inode, name: string, nextInode: nat, nextData: nat)
    requires Sound(v) && Current(v, parent) && MayCreate(v, parent)
    requires nextInode == 0 || nextInode !in v.ids + {v.freeInode}
    requires nextData == 0 || nextData !in v.taken + {v.freeData}
    ensures var v' := Created(v, parent, name, nextInode, nextData);
            && v'.inodes[v.freeInode] == NewInode(v.freeInode, v.freeData)
            && v'.inodes[parent.id] == parent.(size := parent.size + ENTRY_SIZE)
            && MayDelete(v', v'.inodes[v.freeInode], v'.inodes[parent.id])
            && v'.Listing(v'.inodes[parent.id]) == Inserted(v.Listing(parent), Entry(v.freeInode, name))
            && FirstNamed(v.Listing(parent), 0, 0) < ENTRIES_PER_BLOCK
  {
    hide NamesSound, BlocksSound, BlockList, SlotsSound, DirsSound;
    CreatedIsSound(v, parent, name, nextInode, nextData);
    CreatedLooks(v, parent, name, nextInode, nextData);
    FreshIsNotLive(v, parent);
    var slot := FirstNamed(v.Listing(parent), 0, 0);
    CreatedNames(v, parent, name, nextInode, nextData, parent.id, slot, v.freeInode);
    ParentHasRoom(v, parent);
    var v' := Created(v, parent, name, nextInode, nextData);
    NamedFilesMayBeDeleted(v', v'.inodes[v.freeInode], v'.inodes[parent.id], slot);
  }

  lemma ParentHasRoom(v: Volume, parent: Inode)
    requires DirsSound(v) && Current(v, parent) && MayCreate(v, parent)
    ensures FirstNamed(v.Listing(parent), 0, 0) < ENTRIES_PER_BLOCK
  {
    assert CountSound(v, parent);
    InsertScanFindsSlot(v.Listing(parent));
  }

  // `w` is `v` but for the contents of the block that was lent and of the slot that was used.
  ghost predicate Restored(v: Volume, w: Volume, parent: Inode)
    requires v.Shape(parent)
  {
    var slot := FirstNamed(v.Listing(parent), 0, 0);
    && w.inodes == v.inodes && w.ids == v.ids && w.taken == v.taken
    && w.root == v.root && w.cwd == v.cwd && |w.data| == |v.data| && w.first == v.first
    && slot < ENTRIES_PER_BLOCK
    && w.At(parent.extents[0].first) == Entries(v.Listing(parent)[slot := NO_ENTRY])
    && (forall b: nat :: v.HasBlock(b) && b != v.freeData && b != parent.extents[0].first ==> w.At(b) == v.At(b))
  }

  /** Deleting the file just created gives back its inode, its block and the directory's slot: the
      inode table, both bitmaps, the cached inodes and the rest of the disk are what they were. */
  lemma DeleteUndoesCreate(
      v: Volume, parent: Inode, name: string, nextInode: nat, nextData: nat, content: Block)
    requires Sound(v) && Current(v, parent) && MayCreate(v, parent)
    requires nextInode == 0 || nextInode !in v.ids + {v.freeInode}
    requires nextData == 0 || nextData !in v.taken + {v.freeData}
    ensures MayDelete(Created(v, parent, name, nextInode, nextData), NewInode(v.freeInode, v.freeData),
                      parent.(size := parent.size + ENTRY_SIZE))
    ensures |BlockList(NewInode(v.freeInode, v.freeData).extents)| == 1
    ensures Restored(v, Deleted(Created(v, parent, name, nextInode, nextData), NewInode(v.freeInode, v.freeData),
                                parent.(size := parent.size + ENTRY_SIZE), [content]), parent)
  {
    hide NamesSound, BlocksSound, BlockList, DirsSound, Overwritten, Inserted, Removed, FirstNamed;
    var v' := Created(v, parent, name, nextInode, nextData);
    var file, parent' := NewInode(v.freeInode, v.freeData), parent.(size := parent.size + ENTRY_SIZE);
    CreatedMayBeDeleted(v, parent, name, nextInode, nextData);
    FreshIsUnnamed(v, parent);
    RemovedAfterInserted(v.Listing(parent), Entry(v.freeInode, name));
    OneBlockList(file.extents);
    DeletedData(v', file, parent', [content]);
    FreshIsNotLive(v, parent);
    CreatedLooks(v, parent, name, nextInode, nextData);
    FieldsRestored(v, parent, name, nextInode, nextData, content);
  }

  lemma FieldsRestored(v: Volume, parent: Inode, name: string, nextInode: nat, nextData: nat, content: Block)
    requires Sound(v) && Current(v, parent) && MayCreate(v, parent)
    requires MayDelete(Created(v, parent, name, nextInode, nextData), NewInode(v.freeInode, v.freeData),
                       parent.(size := parent.size + ENTRY_SIZE))
    ensures |BlockList(NewInode(v.freeInode, v.freeData).extents)| == 1
    ensures var w := Deleted(Created(v, parent, name, nextInode, nextData), NewInode(v.freeInode, v.freeData),
                             parent.(size := parent.size + ENTRY_SIZE), [content]);
            && w.inodes == v.inodes && w.ids == v.ids && w.taken == v.taken
            && w.root == v.root && w.cwd == v.cwd
  {
    hide NamesSound, BlockList, DirsSound, Overwritten, Inserted, Removed, FirstNamed;
    FreshIsNotLive(v, parent);
    OneBlockList(NewInode(v.freeInode, v.freeData).extents);
    var w := Deleted(Created(v, parent, name, nextInode, nextData), NewInode(v.freeInode, v.freeData),
                             parent.(size := parent.size + ENTRY_SIZE), [content]);
    assert v.freeData !in v.taken && v.freeInode !in v.ids;
    assert w.ids == v.ids;
    assert w.taken == v.taken;
    assert w.inodes == v.inodes;
  }

  // ---------- What the two operations are for ----------

  // The first entry of directory d whose id is `from` becomes `to`, and no other entry changes.
  ghost predicate EntryChanges(v: Volume, v': Volume, d: nat, from: nat, to: Entry)
    requires v.Live(d) && v'.Live(d)
  {
    && v.Shape(v.inodes[d]) && v'.Shape(v'.inodes[d])
    && var before := v.Listing(v.inodes[d]);
       exists k: nat :: k < ENTRIES_PER_BLOCK && before[k].id == from
                        && (forall j: nat :: j < k ==> before[j].id != from)
                        && v'.Listing(v'.inodes[d]) == before[k := to]
  }

  // Every data block but these and directory d's keeps its contents.
  ghost predicate BlocksKept(v: Volume, v': Volume, d: nat, blocks: seq<nat>)
    requires v.Live(d)
  {
    && v'.first == v.first && |v'.data| == |v.data|
    && forall b: nat :: v.HasBlock(b) && b !in BlockList(v.inodes[d].extents) && b !in blocks ==> v'.At(b) == v.At(b)
  }

  // Every live inode but directory d's stays as it was; d's changes by `growth` bytes.
  ghost predicate InodesKept(v: Volume, v': Volume, d: nat, growth: int)
    requires v.Live(d) && v.inodes[d].size + growth >= 0
  {
    && |v'.inodes| == |v.inodes|
    && v'.inodes[d] == v.inodes[d].(size := v.inodes[d].size + growth)
    && forall k: nat :: v.Live(k) && v'.Live(k) && k != d ==> v'.inodes[k] == v.inodes[k]
  }

  // An empty file comes to be under the name in directory d, from an inode and a block that were free.
  ghost predicate CreatesFile(v: Volume, v': Volume, d: nat, name: string)
    requires v.Live(d)
  {
    var id := v.freeInode;
    && !v.Live(id) && (forall k: nat :: v'.Live(k) <==> v.Live(k) || k == id)
    && InodesKept(v, v', d, ENTRY_SIZE)
    && v'.inodes[id].id == id && v'.inodes[id].kind == FILETYPE_FILE
    && v'.inodes[id].size == 0 && v'.inodes[id].refCount == 0
    && BlockList(v'.inodes[id].extents) == [v.freeData]
    && v.freeData !in v.taken && v'.taken == v.taken + {v.freeData}
    && EntryChanges(v, v', d, 0, Entry(id, name))
    && BlocksKept(v, v', d, [])
  }

  // File `id` is gone: its inode, its blocks and its entry in directory d, and nothing else.
  ghost predicate DeletesFile(v: Volume, v': Volume, d: nat, id: nat)
    requires v.Live(d) && v.Live(id)
  {
    && (forall k: nat :: v'.Live(k) <==> v.Live(k) && k != id)
    && v.inodes[d].size >= ENTRY_SIZE && InodesKept(v, v', d, -(ENTRY_SIZE as int))
    && v'.inodes[id] == NO_INODE
    && v'.taken == v.taken - Members(BlockList(v.inodes[id].extents))
    && d != id && EntryChanges(v, v', d, id, NO_ENTRY)
    && BlocksKept(v, v', d, BlockList(v.inodes[id].extents))
    && v'.freeInode == v.freeInode && v'.freeData == v.freeData
  }

  /** Creating does what it is for, and so does deleting. */
  lemma CreatedCreates(v: Volume, parent: Inode, name: string, nextInode: nat, nextData: nat)
    requires Sound(v) && Current(v, parent) && MayCreate(v, parent)
    ensures CreatesFile(v, Created(v, parent, name, nextInode, nextData), parent.id, name)
  {
    hide NamesSound, CachesSound, SlotsSound, BlockList, BlocksSound, DirsSound, FirstNamed;
    var v' := Created(v, parent, name, nextInode, nextData);
    CreatedLooks(v, parent, name, nextInode, nextData);
    OneBlockList(NewInode(v.freeInode, v.freeData).extents);
    OneBlockList(parent.extents);
    FreshIsNotLive(v, parent);
    ParentHasRoom(v, parent);
    var e := Entry(v.freeInode, name);
    assert v'.Listing(v'.inodes[parent.id]) == v.Listing(parent)[FirstNamed(v.Listing(parent), 0, 0) := e];
  }

  lemma DeletedDeletes(v: Volume, file: Inode, parent: Inode, contents: seq<Block>)
    requires Sound(v) && Current(v, parent) && MayDelete(v, file, parent) && |contents| == |BlockList(file.extents)|
    requires v.Live(file.id) && v.inodes[file.id] == file
    ensures DeletesFile(v, Deleted(v, file, parent, contents), parent.id, file.id)
  {
    hide NamesSound, CachesSound, SlotsSound, BlockList, BlocksSound, DirsSound, FirstNamed, Overwritten;
    var v' := Deleted(v, file, parent, contents);
    DeletedInodes(v, file, parent, contents);
    DeletedData(v, file, parent, contents);
    OneBlockList(parent.extents);
    assert v'.Listing(v'.inodes[parent.id])
           == v.Listing(parent)[FirstNamed(v.Listing(parent), file.id, 0) := NO_ENTRY];
  }

  // A live file's inode and the contents of its blocks are what they were.
  ghost predicate FileKept(v: Volume, v': Volume, id: nat)
    requires v.Live(id)
  {
    && v'.Live(id) && v'.inodes[id] == v.inodes[id]
    && forall b: nat :: b in BlockList(v.inodes[id].extents) ==> v.HasBlock(b) && v'.HasBlock(b) && v'.At(b) == v.At(b)
  }

  /** Neither operation touches a file it does not name. */
  lemma CreatingKeepsFiles(v: Volume, v': Volume, d: nat, name: string, id: nat)
    requires Sound(v) && v.Live(d) && CreatesFile(v, v', d, name) && v.Live(id) && id != d
    ensures FileKept(v, v', id)
  {
    hide NamesSound, CachesSound, SlotsSound, BlockList, DirsSound, EntryChanges;
    forall b: nat | b in BlockList(v.inodes[id].extents)
      ensures v.HasBlock(b) && v'.HasBlock(b) && v'.At(b) == v.At(b)
    {
      assert b !in BlockList(v.inodes[d].extents);
    }
  }

  lemma DeletingKeepsFiles(v: Volume, v': Volume, d: nat, gone: nat, id: nat)
    requires Sound(v) && v.Live(d) && v.Live(gone) && DeletesFile(v, v', d, gone) && v.Live(id) && id != d && id != gone
    ensures FileKept(v, v', id)
  {
    hide NamesSound, CachesSound, SlotsSound, BlockList, DirsSound, EntryChanges;
    forall b: nat | b in BlockList(v.inodes[id].extents)
      ensures v.HasBlock(b) && v'.HasBlock(b) && v'.At(b) == v.At(b)
    {
      assert b !in BlockList(v.inodes[d].extents) && b !in BlockList(v.inodes[gone].extents);
    }
  }
}
