/** How a new page table is cleared: memset starts at the directory entry, flags included. */
module TableClear {
  import opened Words
  import opened Bytes
  import opened BitOps
  import opened VirtualMemory

  predicate AreZero(memory: seq<Byte>, from: nat, length: nat)
    requires from + length <= |memory|
  {
    forall b :: from <= b < from + length ==> memory[b] == 0
  }

  /** Clearing a page's worth of bytes from the entry on clears exactly the table if and only if the
      bytes the flags make it skip were zero, and so were the bytes it overruns into. */
  lemma ClearsTheTableIff(memory: seq<Byte>, frame: nat, flags: Flags)
    requires (frame + 2) * PAGE_SIZE <= |memory|
    ensures var table, entry := frame * PAGE_SIZE, Or(frame * PAGE_SIZE, flags);
            && entry + PAGE_SIZE <= |memory|
            && (Fill(memory, entry, 0, PAGE_SIZE) == Fill(memory, table, 0, PAGE_SIZE)
                <==> AreZero(memory, table, flags) && AreZero(memory, table + PAGE_SIZE, flags))
  {
    hide Or;
    EntryKeepsFrame(frame, flags);
    var table, entry := frame * PAGE_SIZE, frame * PAGE_SIZE + flags;
    var cleared, whole := Fill(memory, entry, 0, PAGE_SIZE), Fill(memory, table, 0, PAGE_SIZE);
    if cleared == whole {
      assert forall b :: table <= b < entry ==> memory[b] == whole[b] == 0;
      assert forall b :: table + PAGE_SIZE <= b < entry + PAGE_SIZE ==> memory[b] == cleared[b] == 0;
    }
  }
}
