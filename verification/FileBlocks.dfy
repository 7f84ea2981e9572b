/** Saving a file's memory to its extents on disk, and loading it back, through transfers whose
    sector count is 8 bits wide. */
module FileBlocks {
  import opened Words
  import opened Bytes

  const SECTOR_SIZE: nat := 512
  const BLOCK_SIZE: nat := 4096
  const SECTORS_PER_BLOCK: nat := 8

  datatype Extent = Extent(first: nat, length: nat) {
    function Start(): nat {
      first * BLOCK_SIZE
    }

    function Size(): nat {
      length * BLOCK_SIZE
    }

    // Bytes one transfer of the extent moves: its sector count is a uint8_t.
    function Moved(): nat {
      length * SECTORS_PER_BLOCK % 256 * SECTOR_SIZE
    }

    predicate Apart(other: Extent) {
      first + length <= other.first || other.first + other.length <= first
    }

    predicate Has(byte: nat) {
      Start() <= byte < Start() + Size()
    }
  }

  // bytes_to_blocks
  function BytesToBlocks(bytes: nat): nat {
    if bytes == 0 then 0
    else if bytes <= BLOCK_SIZE then 1
    else bytes / BLOCK_SIZE + if bytes % BLOCK_SIZE > 0 then 1 else 0
  }

  lemma BlocksHoldBytes(bytes: nat)
    ensures bytes <= BytesToBlocks(bytes) * BLOCK_SIZE < bytes + BLOCK_SIZE
  {}

  // A transfer moves the whole extent exactly when it is shorter than 32 blocks.
  lemma TransferIsWholeIff(e: Extent)
    ensures e.Moved() == e.Size() <==> e.length < 32
  {}

  // ---------- The extents as the loops visit them ----------

  function Sum(extents: seq<Extent>): nat {
    if extents == [] then 0 else extents[0].length + Sum(extents[1..])
  }

  // Each transfer stays inside the disk and inside the file's memory.
  predicate InBounds(extents: seq<Extent>, disk: nat, memory: nat, at: nat) {
    extents == [] ||
    (&& extents[0].Start() + extents[0].Size() <= disk
     && at + extents[0].Size() <= memory
     && InBounds(extents[1..], disk, memory, at + extents[0].Size()))
  }

  lemma MovedFits(e: Extent)
    ensures e.Moved() <= e.Size()
  {}

  // fs_save_file's loop: the disk after it.
  function Save(disk: seq<Byte>, extents: seq<Extent>, total: nat, memory: seq<Byte>, at: nat): (r: seq<Byte>)
    requires InBounds(extents, |disk|, |memory|, at)
    ensures |r| == |disk|
    decreases extents
  {
    if extents == [] || total == 0 then disk
    else
      var e := extents[0];
      MovedFits(e);
      Save(Patch(disk, e.Start(), memory[at..at + e.Moved()]), extents[1..], U32(total - e.length),
           memory, at + e.Size())
  }

  // fs_load_file's loop: the memory after it.
  function Load(memory: seq<Byte>, extents: seq<Extent>, total: nat, disk: seq<Byte>, at: nat): (r: seq<Byte>)
    requires InBounds(extents, |disk|, |memory|, at)
    ensures |r| == |memory|
    decreases extents
  {
    if extents == [] || total == 0 then memory
    else
      var e := extents[0];
      MovedFits(e);
      Load(Patch(memory, at, disk[e.Start()..e.Start() + e.Moved()]), extents[1..], U32(total - e.length),
           disk, at + e.Size())
  }

  // Extents of under 32 blocks each, pairwise apart, that add up to the file's blocks.
  predicate Proper(extents: seq<Extent>, total: nat) {
    && Sum(extents) == total < TWO_TO_32
    && (forall i :: 0 <= i < |extents| ==> extents[i].length < 32)
    && (forall i, j :: 0 <= i < j < |extents| ==> extents[i].Apart(extents[j]))
  }

  lemma ProperRest(extents: seq<Extent>, total: nat)
    requires Proper(extents, total) && extents != []
    ensures extents[0].length <= total && U32(total - extents[0].length) == total - extents[0].length
    ensures Proper(extents[1..], total - extents[0].length)
    ensures extents[0].Moved() == extents[0].Size()
    ensures forall i :: 0 <= i < |extents[1..]| ==> extents[0].Apart(extents[1..][i])
  {
    TransferIsWholeIff(extents[0]);
    forall i | 0 <= i < |extents[1..]| ensures extents[0].Apart(extents[1..][i]) {
      assert extents[1..][i] == extents[i + 1];
    }
  }

  /** Saving changes no byte of the disk outside the extents. */
  lemma {:induction false} SaveStaysInExtents(
      disk: seq<Byte>, extents: seq<Extent>, total: nat, memory: seq<Byte>, at: nat, byte: nat)
    requires InBounds(extents, |disk|, |memory|, at) && byte < |disk|
    requires forall i :: 0 <= i < |extents| ==> !extents[i].Has(byte)
    ensures Save(disk, extents, total, memory, at)[byte] == disk[byte]
    decreases extents
  {
    if extents == [] || total == 0 {
    } else {
      var e := extents[0];
      MovedFits(e);
      SaveStaysInExtents(Patch(disk, e.Start(), memory[at..at + e.Moved()]), extents[1..],
                         U32(total - e.length), memory, at + e.Size(), byte);
    }
  }

  // The extents hold `content`, one after the other.
  predicate Stored(disk: seq<Byte>, extents: seq<Extent>, content: seq<Byte>)
    decreases extents
  {
    if extents == [] then content == []
    else
      var e := extents[0];
      && e.Start() + e.Size() <= |disk| && e.Size() <= |content|
      && disk[e.Start()..e.Start() + e.Size()] == content[..e.Size()]
      && Stored(disk, extents[1..], content[e.Size()..])
  }

  // Nothing is left to visit once the remaining total is zero.
  lemma {:induction false} EmptyExtents(disk: seq<Byte>, extents: seq<Extent>, memory: nat, at: nat)
    requires Sum(extents) == 0 && InBounds(extents, |disk|, memory, at)
    ensures Stored(disk, extents, [])
    decreases extents
  {
    if extents != [] { EmptyExtents(disk, extents[1..], memory, at); }
  }

  lemma {:induction false} MemoryHolds(extents: seq<Extent>, disk: nat, memory: nat, at: nat)
    requires InBounds(extents, disk, memory, at)
    ensures extents != [] ==> at + Sum(extents) * BLOCK_SIZE <= memory
    decreases extents
  {
    if extents != [] { MemoryHolds(extents[1..], disk, memory, at + extents[0].Size()); }
  }

  // Later extents leave what an earlier one stored.
  lemma LaterSavesKeep(disk: seq<Byte>, e: Extent, rest: seq<Extent>, total: nat, memory: seq<Byte>, at: nat)
    requires InBounds(rest, |disk|, |memory|, at) && e.Start() + e.Size() <= |disk|
    requires forall i :: 0 <= i < |rest| ==> e.Apart(rest[i])
    ensures Save(disk, rest, total, memory, at)[e.Start()..e.Start() + e.Size()]
            == disk[e.Start()..e.Start() + e.Size()]
  {
    forall b | e.Start() <= b < e.Start() + e.Size() ensures Save(disk, rest, total, memory, at)[b] == disk[b] {
      SaveStaysInExtents(disk, rest, total, memory, at, b);
    }
  }

  lemma {:induction false} SaveStores(
      disk: seq<Byte>, extents: seq<Extent>, total: nat, memory: seq<Byte>, at: nat)
    requires InBounds(extents, |disk|, |memory|, at) && Proper(extents, total)
    requires at + total * BLOCK_SIZE <= |memory|
    ensures Stored(Save(disk, extents, total, memory, at), extents, memory[at..at + total * BLOCK_SIZE])
    decreases extents
  {
    hide Proper, Sum, Save, Stored;
    if extents == [] {
      SaveStoresNothing(disk, total, memory, at);
    } else if total == 0 {
      SaveEndsAt0(disk, extents, memory, at);
      ProperEmpty(extents);
      EmptyExtents(disk, extents, |memory|, at);
      assert memory[at..at] == [];
    } else {
      var e, rest, left := extents[0], extents[1..], total - extents[0].length;
      ProperRest(extents, total);
      var content := memory[at..at + total * BLOCK_SIZE];
      var once := Patch(disk, e.Start(), memory[at..at + e.Size()]);
      var after := Save(once, rest, left, memory, at + e.Size());
      SaveStep(disk, extents, total, memory, at);
      SaveStores(once, rest, left, memory, at + e.Size());
      LaterSavesKeep(once, e, rest, left, memory, at + e.Size());
      PatchStarts(disk, e, memory, at, total);
      StoredStarts(after, extents, content);
    }
  }

  // What the first extent receives, and what is left for the others.
  lemma PatchStarts(disk: seq<Byte>, e: Extent, memory: seq<Byte>, at: nat, total: nat)
    requires e.Start() + e.Size() <= |disk| && e.length <= total && at + total * BLOCK_SIZE <= |memory|
    ensures var content := memory[at..at + total * BLOCK_SIZE];
            && Patch(disk, e.Start(), memory[at..at + e.Size()])[e.Start()..e.Start() + e.Size()] == content[..e.Size()]
            && memory[at + e.Size()..at + e.Size() + (total - e.length) * BLOCK_SIZE] == content[e.Size()..]
  {}

  lemma StoredStarts(disk: seq<Byte>, extents: seq<Extent>, content: seq<Byte>)
    requires extents != [] && extents[0].Start() + extents[0].Size() <= |disk| && extents[0].Size() <= |content|
    requires disk[extents[0].Start()..extents[0].Start() + extents[0].Size()] == content[..extents[0].Size()]
    requires Stored(disk, extents[1..], content[extents[0].Size()..])
    ensures Stored(disk, extents, content)
  {}

  lemma SaveStoresNothing(disk: seq<Byte>, total: nat, memory: seq<Byte>, at: nat)
    requires Proper([], total) && at <= |memory|
    ensures total == 0 && Stored(Save(disk, [], total, memory, at), [], memory[at..at])
  {}

  lemma SaveEndsAt0(disk: seq<Byte>, extents: seq<Extent>, memory: seq<Byte>, at: nat)
    requires InBounds(extents, |disk|, |memory|, at)
    ensures Save(disk, extents, 0, memory, at) == disk
  {}

  lemma ProperEmpty(extents: seq<Extent>)
    requires Proper(extents, 0)
    ensures Sum(extents) == 0
  {}

  lemma SaveStep(disk: seq<Byte>, extents: seq<Extent>, total: nat, memory: seq<Byte>, at: nat)
    requires InBounds(extents, |disk|, |memory|, at) && extents != [] && total > 0
    requires extents[0].Moved() == extents[0].Size() && U32(total - extents[0].length) == total - extents[0].length
    ensures var e := extents[0];
            Save(disk, extents, total, memory, at)
            == Save(Patch(disk, e.Start(), memory[at..at + e.Size()]), extents[1..], total - e.length,
                    memory, at + e.Size())
  {}

  lemma {:induction false} LoadReadsStored(
      memory: seq<Byte>, extents: seq<Extent>, total: nat, disk: seq<Byte>, at: nat, content: seq<Byte>)
    requires InBounds(extents, |disk|, |memory|, at) && Proper(extents, total)
    requires Stored(disk, extents, content) && |content| == total * BLOCK_SIZE && at + |content| <= |memory|
    ensures Load(memory, extents, total, disk, at) == Patch(memory, at, content)
    decreases extents
  {
    if extents == [] || total == 0 {
      assert content == [];
    } else {
      var e, left := extents[0], total - extents[0].length;
      ProperRest(extents, total);
      var once := Patch(memory, at, content[..e.Size()]);
      LoadReadsStored(once, extents[1..], left, disk, at + e.Size(), content[e.Size()..]);
      assert Patch(once, at + e.Size(), content[e.Size()..]) == Patch(memory, at, content);
    }
  }

  /** Loading after saving restores the file's blocks byte for byte, wherever in memory they are
      loaded, and touches no other byte of that memory. */
  lemma LoadAfterSave(disk: seq<Byte>, extents: seq<Extent>, total: nat,
                      memory: seq<Byte>, at: nat, elsewhere: seq<Byte>, to: nat)
    requires Proper(extents, total)
    requires InBounds(extents, |disk|, |memory|, at) && InBounds(extents, |disk|, |elsewhere|, to)
    requires at + total * BLOCK_SIZE <= |memory| && to + total * BLOCK_SIZE <= |elsewhere|
    ensures Load(elsewhere, extents, total, Save(disk, extents, total, memory, at), to)
            == Patch(elsewhere, to, memory[at..at + total * BLOCK_SIZE])
  {
    SaveStores(disk, extents, total, memory, at);
    LoadReadsStored(elsewhere, extents, total, Save(disk, extents, total, memory, at), to,
                    memory[at..at + total * BLOCK_SIZE]);
  }

  lemma {:induction false} InBoundsOfPrefix(extents: seq<Extent>, rest: seq<Extent>, disk: nat, memory: nat, at: nat)
    requires InBounds(extents + rest, disk, memory, at)
    ensures InBounds(extents, disk, memory, at)
    decreases extents
  {
    if extents != [] {
      assert (extents + rest)[1..] == extents[1..] + rest;
      InBoundsOfPrefix(extents[1..], rest, disk, memory, at + extents[0].Size());
    }
  }

  // One round of each loop.
  lemma FirstRound(disk: seq<Byte>, e: Extent, rest: seq<Extent>, total: nat, memory: seq<Byte>, at: nat)
    requires InBounds([e] + rest, |disk|, |memory|, at) && e.length <= total < TWO_TO_32 && total > 0
    ensures e.Start() + e.Moved() <= |disk| && at + e.Moved() <= |memory|
    ensures InBounds(rest, |disk|, |memory|, at + e.Size())
    ensures Save(disk, [e] + rest, total, memory, at)
            == Save(Patch(disk, e.Start(), memory[at..at + e.Moved()]), rest, total - e.length, memory, at + e.Size())
    ensures Load(memory, [e] + rest, total, disk, at)
            == Load(Patch(memory, at, disk[e.Start()..e.Start() + e.Moved()]), rest, total - e.length, disk, at + e.Size())
  {
    MovedFits(e);
    U32OfRest(total, e.length);
    assert ([e] + rest)[1..] == rest;
  }

  lemma NoRound(disk: seq<Byte>, extents: seq<Extent>, memory: seq<Byte>, at: nat)
    requires InBounds(extents, |disk|, |memory|, at)
    ensures Save(disk, extents, 0, memory, at) == disk && Load(memory, extents, 0, disk, at) == memory
  {}

  /** Extents after the one that completes the file's blocks are neither written nor read. */
  lemma {:induction false} SaveStopsAtTotal(
      disk: seq<Byte>, extents: seq<Extent>, rest: seq<Extent>, total: nat, memory: seq<Byte>, at: nat)
    requires InBounds(extents + rest, |disk|, |memory|, at) && Sum(extents) == total < TWO_TO_32
    ensures InBounds(extents, |disk|, |memory|, at)
    ensures Save(disk, extents + rest, total, memory, at) == Save(disk, extents, total, memory, at)
    decreases extents
  {
    hide Save, Load;
    InBoundsOfPrefix(extents, rest, |disk|, |memory|, at);
    if total == 0 {
      NoRound(disk, extents + rest, memory, at);
      NoRound(disk, extents, memory, at);
    } else {
      var e, later := extents[0], extents[1..];
      assert extents == [e] + later && extents + rest == [e] + (later + rest);
      FirstRound(disk, e, later, total, memory, at);
      FirstRound(disk, e, later + rest, total, memory, at);
      SaveStopsAtTotal(Patch(disk, e.Start(), memory[at..at + e.Moved()]), later, rest,
                       total - e.length, memory, at + e.Size());
    }
  }

  lemma {:induction false} LoadStopsAtTotal(
      memory: seq<Byte>, extents: seq<Extent>, rest: seq<Extent>, total: nat, disk: seq<Byte>, at: nat)
    requires InBounds(extents + rest, |disk|, |memory|, at) && Sum(extents) == total < TWO_TO_32
    ensures InBounds(extents, |disk|, |memory|, at)
    ensures Load(memory, extents + rest, total, disk, at) == Load(memory, extents, total, disk, at)
    decreases extents
  {
    hide Save, Load;
    InBoundsOfPrefix(extents, rest, |disk|, |memory|, at);
    if total == 0 {
      NoRound(disk, extents + rest, memory, at);
      NoRound(disk, extents, memory, at);
    } else {
      var e, later := extents[0], extents[1..];
      assert extents == [e] + later && extents + rest == [e] + (later + rest);
      FirstRound(disk, e, later, total, memory, at);
      FirstRound(disk, e, later + rest, total, memory, at);
      LoadStopsAtTotal(Patch(memory, at, disk[e.Start()..e.Start() + e.Moved()]), later, rest,
                       total - e.length, disk, at + e.Size());
    }
  }

  lemma U32OfRest(total: nat, length: nat)
    requires length <= total < TWO_TO_32
    ensures U32(total - length) == total - length
  {}

  /** Loading changes no byte of memory before the file's place or after its extents' size. */
  lemma {:induction false} LoadStaysInPlace(
      memory: seq<Byte>, extents: seq<Extent>, total: nat, disk: seq<Byte>, at: nat, byte: nat)
    requires InBounds(extents, |disk|, |memory|, at) && byte < |memory|
    requires byte < at || at + Sum(extents) * BLOCK_SIZE <= byte
    ensures Load(memory, extents, total, disk, at)[byte] == memory[byte]
    decreases extents
  {
    if extents != [] && total > 0 {
      var e := extents[0];
      MovedFits(e);
      LoadStaysInPlace(Patch(memory, at, disk[e.Start()..e.Start() + e.Moved()]), extents[1..],
                       U32(total - e.length), disk, at + e.Size(), byte);
    }
  }

  // ---------- The kernel's functions ----------

  // What one round does to what is left to do.
  lemma SaveUnfolds(disk: seq<Byte>, extents: seq<Extent>, i: nat, total: nat, memory: seq<Byte>, at: nat)
    requires i < |extents| && total > 0 && InBounds(extents[i..], |disk|, |memory|, at)
    ensures var e := extents[i];
            var n := e.length * SECTORS_PER_BLOCK % 256 * SECTOR_SIZE;
            && e.Start() == e.first * SECTORS_PER_BLOCK * SECTOR_SIZE
            && e.Start() + n <= |disk| && at + n <= |memory|
            && InBounds(extents[i + 1..], |disk|, |memory|, at + e.length * BLOCK_SIZE)
            && Save(disk, extents[i..], total, memory, at)
               == Save(Patch(disk, e.Start(), memory[at..at + n]), extents[i + 1..], U32(total - e.length),
                       memory, at + e.length * BLOCK_SIZE)
  {
    MovedFits(extents[i]);
    assert extents[i..][1..] == extents[i + 1..];
  }

  lemma LoadUnfolds(memory: seq<Byte>, extents: seq<Extent>, i: nat, total: nat, disk: seq<Byte>, at: nat)
    requires i < |extents| && total > 0 && InBounds(extents[i..], |disk|, |memory|, at)
    ensures var e := extents[i];
            var n := e.length * SECTORS_PER_BLOCK % 256 * SECTOR_SIZE;
            && e.Start() == e.first * SECTORS_PER_BLOCK * SECTOR_SIZE
            && e.Start() + n <= |disk| && at + n <= |memory|
            && InBounds(extents[i + 1..], |disk|, |memory|, at + e.length * BLOCK_SIZE)
            && Load(memory, extents[i..], total, disk, at)
               == Load(Patch(memory, at, disk[e.Start()..e.Start() + n]), extents[i + 1..], U32(total - e.length),
                       disk, at + e.length * BLOCK_SIZE)
  {
    MovedFits(extents[i]);
    assert extents[i..][1..] == extents[i + 1..];
  }

  lemma Finished(extents: seq<Extent>, i: nat, total: nat, disk: seq<Byte>, memory: seq<Byte>, at: nat)
    requires i <= |extents| && (i == |extents| || total == 0)
    requires InBounds(extents[i..], |disk|, |memory|, at)
    ensures Save(disk, extents[i..], total, memory, at) == disk
    ensures Load(memory, extents[i..], total, disk, at) == memory
  {}

  datatype Command = Read | Write

  class Disk {
    const sectors: array<Byte>

    // Sectors go by one at a time, the count held in a uint8_t.
    method RwSectors(sizeInSectors: nat, startingSector: nat, memory: array<Byte>, address: nat, command: Command)
      requires memory != sectors
      requires startingSector * SECTOR_SIZE + sizeInSectors % 256 * SECTOR_SIZE <= sectors.Length
      requires address + sizeInSectors % 256 * SECTOR_SIZE <= memory.Length
      modifies memory, sectors
      ensures var n := sizeInSectors % 256 * SECTOR_SIZE;
              var start := startingSector * SECTOR_SIZE;
              if command == Read
              then sectors[..] == old(sectors[..])
                   && memory[..] == Patch(old(memory[..]), address, sectors[start..start + n])
              else memory[..] == old(memory[..])
                   && sectors[..] == Patch(old(sectors[..]), start, memory[address..address + n])
    {
      var i := sizeInSectors % 256;
      var sector, target := startingSector * SECTOR_SIZE, address;
      ghost var start, done := sector, 0;
      while i > 0
        invariant 0 <= i && done == (sizeInSectors % 256 - i) * SECTOR_SIZE
        invariant sector == start + done && target == address + done
        invariant command == Read ==> sectors[..] == old(sectors[..])
        invariant command == Read ==> forall k :: 0 <= k < memory.Length ==>
                    memory[k] == if address <= k < address + done then sectors[start + k - address] else old(memory[k])
        invariant command == Write ==> memory[..] == old(memory[..])
        invariant command == Write ==> forall k :: 0 <= k < sectors.Length ==>
                    sectors[k] == if start <= k < start + done then memory[address + k - start] else old(sectors[k])
      {
        if command == Read {
          Memcpy(memory, target, sectors, sector, SECTOR_SIZE);
        } else {
          Memcpy(sectors, sector, memory, target, SECTOR_SIZE);
        }
        sector, target := sector + SECTOR_SIZE, target + SECTOR_SIZE;
        done := done + SECTOR_SIZE;
        i := i - 1;
      }
    }
  
    method FsSaveFile(sizeBytes: nat, extents: seq<Extent>, memory: array<Byte>, address: nat)
      requires memory != sectors && InBounds(extents, sectors.Length, memory.Length, address)
      modifies sectors, memory
      ensures memory[..] == old(memory[..])
      ensures sectors[..] == Save(old(sectors[..]), extents, BytesToBlocks(sizeBytes), memory[..], address)
    {
      hide Save, InBounds, BytesToBlocks, U32, Extent.Moved;
      ghost var total, bytes := BytesToBlocks(sizeBytes), memory[..];
      var totalBlocks: nat, addressOffset: nat, i: nat := BytesToBlocks(sizeBytes), 0, 0;
      while i < |extents| && totalBlocks > 0
        invariant i <= |extents| && memory[..] == bytes
        invariant InBounds(extents[i..], sectors.Length, memory.Length, address + addressOffset)
        invariant Save(sectors[..], extents[i..], totalBlocks, bytes, address + addressOffset)
                  == Save(old(sectors[..]), extents, total, bytes, address)
      {
        var e := extents[i];
        SaveUnfolds(sectors[..], extents, i, totalBlocks, bytes, address + addressOffset);
        RwSectors(e.length * SECTORS_PER_BLOCK, e.first * SECTORS_PER_BLOCK, memory, address + addressOffset, Write);
        addressOffset := addressOffset + e.length * BLOCK_SIZE;
        totalBlocks := U32(totalBlocks - e.length);
        i := i + 1;
      }
      Finished(extents, i, totalBlocks, sectors[..], memory[..], address + addressOffset);
    }

    method FsLoadFile(sizeBytes: nat, extents: seq<Extent>, memory: array<Byte>, address: nat)
      requires memory != sectors && InBounds(extents, sectors.Length, memory.Length, address)
      modifies sectors, memory
      ensures sectors[..] == old(sectors[..])
      ensures memory[..] == Load(old(memory[..]), extents, BytesToBlocks(sizeBytes), sectors[..], address)
    {
      hide Load, InBounds, BytesToBlocks, U32, Extent.Moved;
      ghost var total, bytes := BytesToBlocks(sizeBytes), sectors[..];
      var totalBlocks: nat, addressOffset: nat, i: nat := BytesToBlocks(sizeBytes), 0, 0;
      while i < |extents| && totalBlocks > 0
        invariant i <= |extents| && sectors[..] == bytes
        invariant InBounds(extents[i..], sectors.Length, memory.Length, address + addressOffset)
        invariant Load(memory[..], extents[i..], totalBlocks, bytes, address + addressOffset)
                  == Load(old(memory[..]), extents, total, bytes, address)
      {
        var e := extents[i];
        LoadUnfolds(memory[..], extents, i, totalBlocks, bytes, address + addressOffset);
        RwSectors(e.length * SECTORS_PER_BLOCK, e.first * SECTORS_PER_BLOCK, memory, address + addressOffset, Read);
        addressOffset := addressOffset + e.length * BLOCK_SIZE;
        totalBlocks := U32(totalBlocks - e.length);
        i := i + 1;
      }
      Finished(extents, i, totalBlocks, sectors[..], memory[..], address + addressOffset);
    }
  }
}
