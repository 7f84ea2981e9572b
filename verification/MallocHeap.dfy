/** malloc.h's functions over headers in memory, linked by address, each proved against the
    functions on block lists in module FirstFitHeap and on machines in module HeapBacking. */
module MallocHeap {
  import opened Words
  import opened FirstFitHeap
  import opened PhysicalMemory
  import opened VirtualMemory
  import opened HeapBacking

  // malloc_block_t
  datatype Header = Header(size: nat, free: bool, next: nat)

  // ---------- Lists of headers in memory ----------

  // Following `next` from address `from` reads off `blocks` and arrives at `to`.
  ghost predicate Segment(headers: map<nat, Header>, from: nat, blocks: seq<Block>, to: nat)
    decreases blocks
  {
    if blocks == [] then from == to
    else
      && from == blocks[0].addr && from != 0 && from in headers
      && headers[from].size == blocks[0].size && headers[from].free == blocks[0].free
      && Segment(headers, headers[from].next, blocks[1..], to)
  }

  lemma {:induction false} SegmentConcat(
      headers: map<nat, Header>, s: seq<Block>, t: seq<Block>, from: nat, mid: nat, to: nat)
    requires Segment(headers, from, s, mid)
    ensures Segment(headers, from, s + t, to) <==> Segment(headers, mid, t, to)
  {
    if s == [] {
      assert s + t == t;
    } else {
      assert (s + t)[1..] == s[1..] + t;
      SegmentConcat(headers, s[1..], t, headers[from].next, mid, to);
    }
  }

  ghost function AddressAt(blocks: seq<Block>, i: nat): nat {
    if i < |blocks| then blocks[i].addr else 0
  }

  lemma {:induction false} SegmentSplit(headers: map<nat, Header>, from: nat, blocks: seq<Block>, i: nat)
    requires Segment(headers, from, blocks, 0) && i <= |blocks|
    ensures Segment(headers, from, blocks[..i], AddressAt(blocks, i))
    ensures Segment(headers, AddressAt(blocks, i), blocks[i..], 0)
    decreases i
  {
    if i == 0 {
    } else {
      assert blocks[..i][1..] == blocks[1..][..i - 1];
      assert blocks[i..] == blocks[1..][i - 1..];
      SegmentSplit(headers, headers[from].next, blocks[1..], i - 1);
    }
  }

  lemma {:induction false} SegmentFrame(
      headers: map<nat, Header>, after: map<nat, Header>, from: nat, blocks: seq<Block>, to: nat)
    requires Segment(headers, from, blocks, to)
    requires forall b :: b in blocks && b.addr in headers ==> b.addr in after && after[b.addr] == headers[b.addr]
    ensures Segment(after, from, blocks, to)
    decreases blocks
  {
    if blocks == [] {
    } else {
      assert blocks[0] in blocks;
      SegmentFrame(headers, after, headers[from].next, blocks[1..], to);
    }
  }

  // Replacing the middle of a list by headers written at addresses not used elsewhere in it.
  lemma ReplaceMiddle(
      headers: map<nat, Header>, after: map<nat, Header>, from: nat,
      before: seq<Block>, middle: seq<Block>, rest: seq<Block>, mid: nat, next: nat)
    requires Segment(headers, from, before, mid) && Segment(headers, next, rest, 0)
    requires Segment(after, mid, middle, next)
    requires forall b :: (b in before || b in rest) && b.addr in headers ==>
               b.addr in after && after[b.addr] == headers[b.addr]
    ensures Segment(after, from, before + middle + rest, 0)
  {
    SegmentFrame(headers, after, from, before, mid);
    SegmentFrame(headers, after, next, rest, 0);
    SegmentConcat(after, before, middle, from, mid, next);
    SegmentConcat(after, before + middle, rest, from, next, 0);
  }

  // What the i-th header of a list holds.
  lemma HeaderAt(headers: map<nat, Header>, from: nat, blocks: seq<Block>, i: nat)
    requires Segment(headers, from, blocks, 0) && i < |blocks|
    ensures var b := blocks[i];
            b.addr != 0 && b.addr in headers && headers[b.addr] == Header(b.size, b.free, AddressAt(blocks, i + 1))
    ensures AddressAt(blocks, i + 1) != 0 <==> i + 1 < |blocks|
    ensures i == 0 ==> from == blocks[0].addr
  {
    SegmentSplit(headers, from, blocks, i);
    SegmentSplit(headers, from, blocks, i + 1);
    assert blocks[i..][1..] == blocks[i + 1..];
  }

  lemma AddressIn(headers: map<nat, Header>, from: nat, blocks: seq<Block>, i: nat)
    requires Segment(headers, from, blocks, 0) && i <= |blocks|
    ensures var a := AddressAt(blocks, i);
            && (i < |blocks| <==> a != 0)
            && (i < |blocks| ==> a in headers && (headers[a].next != 0 <==> i + 1 < |blocks|))
  {
    if i < |blocks| { HeaderAt(headers, from, blocks, i); }
  }

  // Replacing the i-th block in place.
  lemma SetHeader(headers: map<nat, Header>, from: nat, blocks: seq<Block>, i: nat, b: Block)
    requires Segment(headers, from, blocks, 0) && i < |blocks| && b.addr == blocks[i].addr
    requires forall j :: 0 <= j < |blocks| && j != i ==> blocks[j].addr != b.addr
    ensures b.addr in headers
    ensures var h := Header(b.size, b.free, headers[b.addr].next);
            Segment(headers[b.addr := h], from, blocks[i := b], 0)
  {
    HeaderAt(headers, from, blocks, i);
    SegmentSplit(headers, from, blocks, i);
    SegmentSplit(headers, from, blocks, i + 1);
    var after := headers[b.addr := Header(b.size, b.free, headers[b.addr].next)];
    var next := AddressAt(blocks, i + 1);
    assert [b][1..] == [];
    assert Segment(after, b.addr, [b], next);
    assert blocks[i := b] == blocks[..i] + [b] + blocks[i + 1..];
    ReplaceMiddle(headers, after, from, blocks[..i], [b], blocks[i + 1..], b.addr, next);
  }

  // malloc_split's writes.
  function SplitHeaders(headers: map<nat, Header>, node: nat, size: nat): map<nat, Header>
    requires node in headers
  {
    var h := headers[node];
    var newNode := U32(node + size + HEADER);
    headers[newNode := Header(U32(h.size - size - HEADER), true, h.next)][node := Header(size, false, newNode)]
  }

  lemma SplitSegment(headers: map<nat, Header>, from: nat, blocks: seq<Block>, i: nat, size: nat)
    requires Segment(headers, from, blocks, 0) && i < |blocks|
    requires U32(blocks[i].addr + size + HEADER) != 0
    requires U32(blocks[i].addr + size + HEADER) != blocks[i].addr
    requires forall j :: 0 <= j < |blocks| && j != i ==>
               blocks[j].addr != blocks[i].addr && blocks[j].addr != U32(blocks[i].addr + size + HEADER)
    ensures blocks[i].addr in headers
    ensures Segment(SplitHeaders(headers, blocks[i].addr, size), from, Split(blocks, i, size), 0)
  {
    hide U32;
    HeaderAt(headers, from, blocks, i);
    SegmentSplit(headers, from, blocks, i);
    SegmentSplit(headers, from, blocks, i + 1);
    var b := blocks[i];
    var after, next := SplitHeaders(headers, b.addr, size), AddressAt(blocks, i + 1);
    var rest := Block(U32(b.addr + size + HEADER), U32(b.size - size - HEADER), true);
    assert Segment(after, rest.addr, [rest], next) by { assert [rest][1..] == []; }
    var pair := [Block(b.addr, size, false), rest];
    assert Segment(after, b.addr, pair, next) by { assert pair[1..] == [rest]; }
    ReplaceMiddle(headers, after, from, blocks[..i], pair, blocks[i + 1..], b.addr, next);
    assert Split(blocks, i, size) == blocks[..i] + pair + blocks[i + 1..];
  }

  // The absorption step of merge_free_blocks.
  ghost function Absorbed(blocks: seq<Block>, k: nat): seq<Block>
    requires k + 1 < |blocks|
  {
    blocks[..k] + [blocks[k].(size := blocks[k].size + blocks[k + 1].size + HEADER)] + blocks[k + 2..]
  }

  lemma AbsorbSegment(headers: map<nat, Header>, from: nat, blocks: seq<Block>, i: nat)
    requires Segment(headers, from, blocks, 0) && i + 1 < |blocks|
    requires forall j :: 0 <= j < |blocks| && j != i ==> blocks[j].addr != blocks[i].addr
    ensures blocks[i].addr in headers && blocks[i + 1].addr in headers
    ensures var merged := blocks[i].(size := blocks[i].size + blocks[i + 1].size + HEADER);
            var h := Header(merged.size, merged.free, headers[blocks[i + 1].addr].next);
            Segment(headers[merged.addr := h], from, Absorbed(blocks, i), 0)
  {
    HeaderAt(headers, from, blocks, i);
    HeaderAt(headers, from, blocks, i + 1);
    SegmentSplit(headers, from, blocks, i);
    SegmentSplit(headers, from, blocks, i + 2);
    var merged := blocks[i].(size := blocks[i].size + blocks[i + 1].size + HEADER);
    var next := AddressAt(blocks, i + 2);
    var after := headers[merged.addr := Header(merged.size, merged.free, next)];
    assert Segment(after, merged.addr, [merged], next) by { assert [merged][1..] == []; }
    ReplaceMiddle(headers, after, from, blocks[..i], [merged], blocks[i + 2..], merged.addr, next);
  }

  lemma AddressesDistinct(h: Heap, i: nat)
    requires Tiled(h.blocks, START, h.End()) && i < |h.blocks|
    ensures forall j :: 0 <= j < |h.blocks| && j != i ==> h.blocks[j].addr != h.blocks[i].addr
  {
    forall j | 0 <= j < |h.blocks| && j != i ensures h.blocks[j].addr != h.blocks[i].addr {
      TiledIndexApart(h.blocks, START, h.End(), i, j);
    }
  }

  lemma FindIsFirst(blocks: seq<Block>, size: nat, i: nat)
    requires i < |blocks| && (Fits(blocks[i], size) || i + 1 == |blocks|)
    requires forall j: nat :: j < i ==> !Fits(blocks[j], size)
    ensures i == Find(blocks, size)
  {}

  // The address a split writes its new header to is no other block's.
  lemma SplitAddressIsNew(h: Heap, i: nat, size: nat)
    requires Tiled(h.blocks, START, h.End()) && h.End() <= TWO_TO_32 && i < |h.blocks|
    requires size + HEADER <= h.blocks[i].size && 0 < size
    ensures var node := h.blocks[i].addr;
            var newNode := U32(node + size + HEADER);
            && newNode != 0 && newNode != node
            && (forall j :: 0 <= j < |h.blocks| && j != i ==>
                  h.blocks[j].addr != node && h.blocks[j].addr != newNode)
  {
    var b := h.blocks[i];
    TiledGrows(h.blocks, START, h.End());
    AddressesDistinct(h, i);
    forall j | 0 <= j < |h.blocks| && j != i ensures h.blocks[j].addr != U32(b.addr + size + HEADER) {
      TiledApart(h.blocks, START, h.End(), b, h.blocks[j]);
    }
  }

  // Block i grown by n pages and split serves the request.
  ghost predicate GrowsTo(h: Heap, size: nat, i: nat, n: nat) {
    && i < |h.blocks| && h.blocks[i].size + n * PAGE_SIZE >= size + HEADER
    && var g, node := Grow(h, i, n), h.blocks[i].addr;
       var newNode, after := U32(node + size + HEADER), g.(blocks := Split(g.blocks, i, size));
    && newNode != 0 && newNode != node
    && (forall j :: 0 <= j < |g.blocks| && j != i ==> g.blocks[j].addr != node && g.blocks[j].addr != newNode)
    && NextBlock(h, size) == Done(after, node + HEADER) && after.Valid()
  }

  // What the growth branch relies on, and what it amounts to.
  lemma GrowthOutcome(h: Heap, size: nat)
    requires h.Valid() && 0 < size < TWO_TO_32 && Guard(h, size)
    requires var b := h.blocks[Find(h.blocks, size)];
             size != b.size && b.size <= size + HEADER
    ensures var i := Find(h.blocks, size);
            var n := PagesNeeded(h.blocks[i].size, size + HEADER);
            && U32(size + HEADER) == size + HEADER
            && n <= MAX_GROWTH && h.End() + n * PAGE_SIZE <= TWO_TO_32 && GrowsTo(h, size, i, n)
  {
    NextBlockIsSafeIff(h, size);
    var i := Find(h.blocks, size);
    var n := PagesNeeded(h.blocks[i].size, size + HEADER);
    GrowTailTiles(h, n);
    SplitAddressIsNew(Grow(h, i, n), i, size);
  }

  class MallocHeap {
    var headers: map<nat, Header>      // memory at header addresses
    var listHead: nat
    var totalPages: nat
    const vm: VirtualMemoryManager
    ghost var blocks: seq<Block>       // the list read off the headers

    ghost function View(): Heap
      reads this
    {
      Heap(blocks, totalPages)
    }

    ghost predicate Linked()
      reads this
    {
      Segment(headers, listHead, blocks, 0)
    }

    ghost predicate Valid()
      reads this
    {
      Linked() && View().Valid()
    }

    // init_malloc: the first page is taken, mapped and made one free block.
    constructor (vm: VirtualMemoryManager)
      requires vm.Valid()
      modifies vm.ram, vm.physical, vm.physical.memoryMap
      ensures Valid() && this.vm == vm && vm.Valid()
      ensures View() == Booted(old(vm.View())).heap && vm.View() == Booted(old(vm.View())).machine
    {
      this.vm := vm;
      headers := map[START := Header(PAGE_SIZE - HEADER, true, 0)];
      listHead := START;
      totalPages := 1;
      blocks := Initial().blocks;
      new;
      InitialIsValid();
      BackOnePage(START, vm.View(), FIRST_PAGE, 0);
    }

    method MallocSplit(node: nat, size: nat, ghost i: nat)
      requires Linked() && i < |blocks| && node == blocks[i].addr
      requires U32(node + size + HEADER) != 0 && U32(node + size + HEADER) != node
      requires forall j :: 0 <= j < |blocks| && j != i ==>
                 blocks[j].addr != node && blocks[j].addr != U32(node + size + HEADER)
      modifies this`headers, this`blocks
      ensures Linked() && blocks == Split(old(blocks), i, size)
    {
      SplitSegment(headers, listHead, blocks, i, size);
      HeaderAt(headers, listHead, blocks, i);
      var newNode := U32(node + size + HEADER);
      headers := headers[newNode := Header(U32(headers[node].size - size - HEADER), true, headers[node].next)];
      headers := headers[node := Header(size, false, newNode)];
      blocks := Split(blocks, i, size);
    }

    // Block i of h has grown by k pages, each taken from the allocator of machine m and mapped.
    ghost predicate GrownFrom(h: Heap, m: Machine, i: nat, k: nat)
      reads this, vm, vm.ram, vm.physical, vm.physical.memoryMap
    {
      && h.Valid() && i < |h.blocks| && m.WellFormed() && h.End() + k * PAGE_SIZE <= TWO_TO_32
      && Linked() && View() == Grow(h, i, k)
      && vm.Valid() && vm.View() == BackPages(m, FIRST_PAGE + h.pages, k)
    }

    method BackOnePage(virt: Address, ghost m: Machine, ghost page: nat, ghost k: nat)
      requires vm.Valid() && m.WellFormed() && page + k < PAGES && virt == (page + k) * PAGE_SIZE
      requires vm.View() == BackPages(m, page, k)
      modifies vm.ram, vm.physical, vm.physical.memoryMap
      ensures vm.Valid() && vm.View() == BackPages(m, page, k + 1)
    {
      hide Machine.WellFormed, MapPage, Allocate;
      ghost var before := vm.View();
      TakingAFrameIsWellFormed(before);
      var temp := vm.physical.AllocateBlocks(1);
      assert vm.View() == WithMemory(before, Allocate(before.mem, 1).0);
      var mapped := vm.MapAddress(temp, virt, FLAGS);
    }

    // One round of the growth loop: a page is taken, mapped after the heap, and added to cur.
    method GrowByPage(cur: nat, virt: Address, ghost h: Heap, ghost m: Machine, ghost i: nat, ghost k: nat)
      requires GrownFrom(h, m, i, k) && cur == h.blocks[i].addr
      requires virt == START + totalPages * PAGE_SIZE
      modifies this, vm.ram, vm.physical, vm.physical.memoryMap
      ensures GrownFrom(h, m, i, k + 1) && totalPages == old(totalPages) + 1
    {
      hide Segment, Machine.WellFormed, BackPage;
      AddressesDistinct(h, i);
      BackOnePage(virt, m, FIRST_PAGE + h.pages, k);
      ghost var grown := blocks[i].(size := blocks[i].size + PAGE_SIZE);
      SetHeader(headers, listHead, blocks, i, grown);
      HeaderAt(headers, listHead, blocks, i);
      headers := headers[cur := headers[cur].(size := headers[cur].size + PAGE_SIZE)];
      totalPages := totalPages + 1;
      blocks := blocks[i := grown];
    }

    lemma NothingGrown(i: nat)
      requires Valid() && vm.Valid() && i < |blocks|
      ensures GrownFrom(View(), vm.View(), i, 0)
    {}

    // The growth branch's second loop.
    method GrowBlock(cur: nat, numPages: nat, ghost i: nat)
      requires Valid() && vm.Valid() && i < |blocks| && cur == blocks[i].addr
      requires View().End() + numPages * PAGE_SIZE <= TWO_TO_32
      modifies this, vm.ram, vm.physical, vm.physical.memoryMap
      ensures GrownFrom(old(View()), old(vm.View()), i, numPages)
    {
      hide GrownFrom, Valid, Linked, Machine.WellFormed;
      ghost var h, m := View(), vm.View();
      NothingGrown(i);
      var virt: nat, k: nat := START + totalPages * PAGE_SIZE, 0;
      while k < numPages
        invariant k <= numPages && GrownFrom(h, m, i, k)
        invariant totalPages == h.pages + k && virt == START + totalPages * PAGE_SIZE
      {
        GrowByPage(cur, virt, h, m, i, k);
        virt := virt + PAGE_SIZE;
        k := k + 1;
      }
    }

    // The search loop of malloc_next_block.
    method FindBlock(size: nat) returns (cur: nat)
      requires Valid()
      ensures var i := Find(blocks, size);
              cur == blocks[i].addr && cur in headers
              && headers[cur] == Header(blocks[i].size, blocks[i].free, AddressAt(blocks, i + 1))
    {
      cur := listHead;
      ghost var i := 0;
      HeaderAt(headers, listHead, blocks, 0);
      while (headers[cur].size < size || !headers[cur].free) && headers[cur].next != 0
        invariant i < |blocks| && cur == blocks[i].addr
        invariant cur in headers && headers[cur] == Header(blocks[i].size, blocks[i].free, AddressAt(blocks, i + 1))
        invariant AddressAt(blocks, i + 1) != 0 <==> i + 1 < |blocks|
        invariant forall j: nat :: j < i ==> !Fits(blocks[j], size)
        decreases |blocks| - i
      {
        HeaderAt(headers, listHead, blocks, i + 1);
        cur := headers[cur].next;
        i := i + 1;
      }
      FindIsFirst(blocks, size, i);
    }

    // The growth branch's first loop, over a uint8_t.
    method CountPages(have: nat, need: nat) returns (numPages: nat)
      requires PagesNeeded(have, need) <= MAX_GROWTH
      ensures numPages == PagesNeeded(have, need)
    {
      numPages := 1;
      while have + numPages * PAGE_SIZE < need
        invariant 1 <= numPages <= PagesNeeded(have, need)
        decreases MAX_GROWTH - numPages
      {
        numPages := (numPages + 1) % 256;
      }
    }

    // What malloc_next_block leaves behind, heap and pages.
    ghost predicate Served(h: Heap, m: Machine, size: nat, ptr: nat)
      reads this, vm, vm.ram, vm.physical, vm.physical.memoryMap
    {
      && Valid() && vm.Valid()
      && h.Valid() && NextBlock(h, size) == Done(View(), ptr)
      && h.pages <= totalPages
      && m.WellFormed() && vm.View() == BackPages(m, FIRST_PAGE + h.pages, totalPages - h.pages)
    }

    // The growth branch of malloc_next_block.
    method GrowAndSplit(cur: nat, size: nat)
      requires Valid() && vm.Valid() && 0 < size < TWO_TO_32 && Guard(View(), size)
      requires var i := Find(blocks, size);
               cur == blocks[i].addr && cur in headers && headers[cur].size == blocks[i].size
               && size != blocks[i].size && blocks[i].size <= size + HEADER
      modifies this, vm.ram, vm.physical, vm.physical.memoryMap
      ensures Served(old(View()), old(vm.View()), size, cur + HEADER)
    {
      hide GrownFrom, Served, GrowsTo, Machine.WellFormed;
      ghost var h, m, i := View(), vm.View(), Find(blocks, size);
      GrowthOutcome(h, size);
      var numPages := CountPages(headers[cur].size, U32(size + HEADER));
      GrowBlock(cur, numPages, i);
      SplitGrown(cur, size, h, m, i, numPages);
    }

    method SplitGrown(cur: nat, size: nat, ghost h: Heap, ghost m: Machine, ghost i: nat, ghost n: nat)
      requires GrownFrom(h, m, i, n) && GrowsTo(h, size, i, n) && cur == h.blocks[i].addr
      modifies this`headers, this`blocks
      ensures Served(h, m, size, cur + HEADER)
    {
      hide Segment, Tiled, Machine.WellFormed, Split, NextBlock, BackPages;
      MallocSplit(cur, size, i);
    }

    method MallocNextBlock(size: nat) returns (ptr: nat)
      requires Valid() && vm.Valid() && size < TWO_TO_32 && Guard(View(), size)
      modifies this, vm.ram, vm.physical, vm.physical.memoryMap
      ensures Served(old(View()), old(vm.View()), size, ptr)
    {
      hide Segment, Tiled, Machine.WellFormed, Split;
      ghost var h := View();
      if size == 0 { return 0; }
      var cur := FindBlock(size);
      ghost var i := Find(blocks, size);
      if size == headers[cur].size {
        NextBlockIsSafeIff(h, size);
        AddressesDistinct(h, i);
        SetHeader(headers, listHead, blocks, i, blocks[i].(free := false));
        headers := headers[cur := headers[cur].(free := false)];
        blocks := blocks[i := blocks[i].(free := false)];
      } else if headers[cur].size > U32(size + HEADER) {
        NextBlockIsSafeIff(h, size);
        SplitAddressIsNew(h, i, size);
        MallocSplit(cur, size, i);
      } else {
        GrowAndSplit(cur, size);
      }
      return cur + HEADER;
    }

    // The loop body of merge_free_blocks when cur and the block after it are free.
    method AbsorbNext(cur: nat, ghost k: nat)
      requires Linked() && k + 1 < |blocks| && cur == blocks[k].addr
      requires forall j :: 0 <= j < |blocks| && j != k ==> blocks[j].addr != cur
      modifies this`headers, this`blocks
      ensures Linked()
      ensures blocks == Absorbed(old(blocks), k)
    {
      HeaderAt(headers, listHead, blocks, k);
      HeaderAt(headers, listHead, blocks, k + 1);
      AbsorbSegment(headers, listHead, blocks, k);
      hide Segment;
      var next := headers[cur].next;
      var size := headers[cur].size + (headers[next].size + HEADER);
      headers := headers[cur := Header(size, headers[cur].free, headers[next].next)];
      blocks := Absorbed(blocks, k);
    }

    // One round of merge_free_blocks' loop.
    method MergeRound(cur: nat, ghost k: nat) returns (next: nat)
      requires Linked() && Tiled(blocks, START, View().End())
      requires k + 1 < |blocks| && cur == blocks[k].addr
      modifies this`headers, this`blocks
      ensures Linked() && Tiled(blocks, START, View().End())
      ensures k < |blocks| <= old(|blocks|) && next == AddressAt(blocks, k + 1)
      ensures old(blocks[..k] + MergePass(blocks[k..])) == blocks[..k + 1] + MergePass(blocks[k + 1..])
    {
      hide Segment, Tiled, MergePass;
      HeaderAt(headers, listHead, blocks, k);
      HeaderAt(headers, listHead, blocks, k + 1);
      AddressesDistinct(View(), k);
      if headers[cur].free && headers[headers[cur].next].free {
        AbsorbTiles(View(), k);
        AbsorbNext(cur, k);
      }
      MergePassStep(old(blocks), blocks, k);
      HeaderAt(headers, listHead, blocks, k);
      next := headers[cur].next;
    }

    method MergeFreeBlocks()
      requires Valid()
      modifies this`headers, this`blocks
      ensures Valid() && View() == Merge(old(View()))
    {
      MergeKeeps(View());
      ghost var target := MergePass(blocks);
      assert blocks[..0] + MergePass(blocks[0..]) == target by { assert blocks[0..] == blocks; }
      assert listHead == AddressAt(blocks, 0) by { HeaderAt(headers, listHead, blocks, 0); }
      hide Segment, Tiled, MergePass;
      var cur := listHead;
      ghost var k := 0;
      AddressIn(headers, listHead, blocks, k);
      while cur != 0 && headers[cur].next != 0
        invariant Linked() && Tiled(blocks, START, View().End())
        invariant k <= |blocks| && cur == AddressAt(blocks, k)
        invariant k < |blocks| <==> cur != 0
        invariant k < |blocks| ==> cur in headers && (headers[cur].next != 0 <==> k + 1 < |blocks|)
        invariant target == blocks[..k] + MergePass(blocks[k..])
        decreases |blocks| - k
      {
        cur := MergeRound(cur, k);
        k := k + 1;
        AddressIn(headers, listHead, blocks, k);
      }
      MergePassEnds(blocks, k);
    }

    method MallocFree(ptr: nat)
      requires Valid()
      modifies this`headers, this`blocks
      ensures Valid() && View() == FreePointer(old(View()), ptr)
    {
      hide Segment, Tiled, MergePass;
      var cur := listHead;
      ghost var i := 0;
      HeaderAt(headers, listHead, blocks, 0);
      while headers[cur].next != 0
        invariant i < |blocks| && cur == blocks[i].addr
        invariant cur in headers && headers[cur] == Header(blocks[i].size, blocks[i].free, AddressAt(blocks, i + 1))
        invariant AddressAt(blocks, i + 1) != 0 <==> i + 1 < |blocks|
        invariant forall j: nat :: j < i ==> blocks[j].Payload() != ptr
        decreases |blocks| - i
        modifies {}
      {
        if cur + HEADER == ptr { break; }
        HeaderAt(headers, listHead, blocks, i + 1);
        cur := headers[cur].next;
        i := i + 1;
      }
      FindPointerIsFirst(blocks, ptr, i);
      if headers[cur].next != 0 {
        AddressesDistinct(View(), i);
        SetHeader(headers, listHead, blocks, i, blocks[i].(free := true));
        ReplaceTiles(blocks, i, blocks[i].(free := true), START, View().End());
        headers := headers[cur := headers[cur].(free := true)];
        blocks := blocks[i := blocks[i].(free := true)];
        MergeFreeBlocks();
      }
    }

    // syscall_malloc once the heap exists, and syscall_free.
    method SyscallMalloc(bytes: nat) returns (ptr: nat)
      requires Valid() && vm.Valid() && bytes < TWO_TO_32 && Guard(View(), bytes)
      modifies this, vm.ram, vm.physical, vm.physical.memoryMap
      ensures Valid() && vm.Valid()
      ensures ptr == NextBlock(old(View()), bytes).ptr && View() == FirstFitHeap.Step(old(View()), Malloc(bytes))
      ensures vm.View() == BackPages(old(vm.View()), FIRST_PAGE + old(totalPages), totalPages - old(totalPages))
    {
      hide Segment, Tiled, MergePass, Machine.WellFormed;
      ptr := MallocNextBlock(bytes);
      MergeFreeBlocks();
    }

    method SyscallFree(ptr: nat)
      requires Valid()
      modifies this`headers, this`blocks
      ensures Valid() && View() == FirstFitHeap.Step(old(View()), Free(ptr))
    {
      MallocFree(ptr);
    }
  }

  lemma FindPointerIsFirst(blocks: seq<Block>, ptr: nat, i: nat)
    requires i < |blocks| && (blocks[i].Payload() == ptr || i + 1 == |blocks|)
    requires forall j: nat :: j < i ==> blocks[j].Payload() != ptr
    ensures i == FindPointer(blocks, ptr)
  {}

  lemma AbsorbTiles(h: Heap, k: nat)
    requires Tiled(h.blocks, START, h.End()) && k + 1 < |h.blocks|
    ensures Tiled(Absorbed(h.blocks, k), START, h.End())
  {
    var blocks := h.blocks;
    var merged := blocks[k].(size := blocks[k].size + blocks[k + 1].size + HEADER);
    TiledMeets(blocks, k, START, h.End());
    TiledMeets(blocks, k + 1, START, h.End());
    TiledSplit(blocks, k, START, h.End());
    TiledSplit(blocks, k + 2, START, h.End());
    assert Tiled([merged], merged.addr, merged.End()) by { assert [merged][1..] == []; }
    TiledConcat(blocks[..k], [merged], START, merged.addr, merged.End());
    TiledConcat(blocks[..k] + [merged], blocks[k + 2..], START, merged.End(), h.End());
  }

  // One round of the merge loop is one step of the pass.
  lemma MergePassStep(before: seq<Block>, after: seq<Block>, k: nat)
    requires k + 1 < |before|
    requires after == if before[k].free && before[k + 1].free then Absorbed(before, k) else before
    ensures k < |after|
    ensures before[..k] + MergePass(before[k..]) == after[..k + 1] + MergePass(after[k + 1..])
  {
    var done, rest := before[..k], before[k..];
    assert after[..k + 1] == done + [after[k]];
    if before[k].free && before[k + 1].free {
      assert rest[2..] == before[k + 2..] == after[k + 1..];
      assert MergePass(rest) == [after[k]] + MergePass(after[k + 1..]);
    } else {
      assert rest[1..] == before[k + 1..] == after[k + 1..];
      assert MergePass(rest) == [after[k]] + MergePass(after[k + 1..]);
    }
    assert done + ([after[k]] + MergePass(after[k + 1..])) == (done + [after[k]]) + MergePass(after[k + 1..]);
  }

  lemma MergePassEnds(blocks: seq<Block>, k: nat)
    requires k <= |blocks| <= k + 1
    ensures blocks[..k] + MergePass(blocks[k..]) == blocks
  {}
}
