/** The first-fit heap: a list of blocks, each a 12-byte header followed by its payload, that
    is split, merged and grown in place. Blocks carry their addresses, so a step that breaks the
    layout shows as a list that no longer tiles the heap. */
module FirstFitHeap {
  import opened Words

  const HEADER: nat := 12            // sizeof(malloc_block_t)
  const START: nat := 0x40_0000      // malloc_start
  const MAX_GROWTH: nat := 255       // num_pages is a uint8_t

  datatype Block = Block(addr: nat, size: nat, free: bool) {
    function End(): nat {
      addr + HEADER + size
    }

    function Payload(): nat {
      addr + HEADER
    }

    // Headers and payloads both lie apart.
    predicate Apart(other: Block) {
      End() <= other.addr || other.End() <= addr
    }
  }

  // ---------- Tiling ----------

  // The blocks lie back to back from `from` to `to`.
  predicate Tiled(blocks: seq<Block>, from: nat, to: nat) {
    if blocks == [] then from == to
    else blocks[0].addr == from && Tiled(blocks[1..], blocks[0].End(), to)
  }

  lemma {:induction false} TiledConcat(s: seq<Block>, t: seq<Block>, from: nat, mid: nat, to: nat)
    requires Tiled(s, from, mid)
    ensures Tiled(s + t, from, to) <==> Tiled(t, mid, to)
  {
    if s == [] {
      assert s + t == t;
    } else {
      assert (s + t)[1..] == s[1..] + t;
      TiledConcat(s[1..], t, s[0].End(), mid, to);
    }
  }

  // Where the i-th block of a tiled list starts.
  lemma {:induction false} TiledSplit(blocks: seq<Block>, i: nat, from: nat, to: nat)
    requires Tiled(blocks, from, to) && i <= |blocks|
    ensures var mid := if i < |blocks| then blocks[i].addr else to;
            Tiled(blocks[..i], from, mid) && Tiled(blocks[i..], mid, to) && from <= mid <= to
  {
    if i == 0 {
      TiledGrows(blocks, from, to);
    } else {
      assert blocks[..i][1..] == blocks[1..][..i - 1];
      assert blocks[i..] == blocks[1..][i - 1..];
      TiledSplit(blocks[1..], i - 1, blocks[0].End(), to);
    }
  }

  lemma {:induction false} TiledGrows(blocks: seq<Block>, from: nat, to: nat)
    requires Tiled(blocks, from, to)
    ensures from <= to
    ensures forall b :: b in blocks ==> from <= b.addr && b.End() <= to
  {
    if blocks != [] {
      TiledGrows(blocks[1..], blocks[0].End(), to);
    }
  }

  // Distinct blocks of a tiled list lie apart.
  lemma {:induction false} TiledApart(blocks: seq<Block>, from: nat, to: nat, b: Block, c: Block)
    requires Tiled(blocks, from, to) && b in blocks && c in blocks && b != c
    ensures b.Apart(c)
  {
    TiledGrows(blocks[1..], blocks[0].End(), to);
    if b != blocks[0] && c != blocks[0] {
      TiledApart(blocks[1..], blocks[0].End(), to, b, c);
    }
  }

  // ---------- The heap ----------

  datatype Heap = Heap(blocks: seq<Block>, pages: nat) {
    function End(): nat {
      START + pages * PAGE_SIZE
    }

    // The list tiles the heap's pages, and its last block is free.
    predicate Valid() {
      && blocks != [] && Last(blocks).free && blocks[0].size > 0
      && End() <= TWO_TO_32
      && Tiled(blocks, START, End())
    }

    // The blocks callers hold.
    ghost function Live(): set<Block> {
      LiveOf(blocks)
    }
  }

  function Last(blocks: seq<Block>): Block
    requires blocks != []
  {
    blocks[|blocks| - 1]
  }

  ghost function LiveOf(blocks: seq<Block>): set<Block> {
    set b | b in blocks && !b.free
  }

  // init_malloc: one page, one free block.
  function Initial(): Heap {
    Heap([Block(START, PAGE_SIZE - HEADER, true)], 1)
  }

  lemma InitialIsValid()
    ensures Initial().Valid() && Initial().Live() == {}
    ensures Initial().pages == 1 && |Initial().blocks| == 1
  {}

  // ---------- malloc_next_block ----------

  predicate Fits(b: Block, size: nat) {
    b.free && b.size >= size
  }

  // The block the search stops at: the first that fits, else the last.
  function Find(blocks: seq<Block>, size: nat): (i: nat)
    requires blocks != []
    ensures i < |blocks|
    ensures Fits(blocks[i], size) || i + 1 == |blocks|
    ensures forall j: nat :: j < i ==> !Fits(blocks[j], size)
  {
    if Fits(blocks[0], size) || |blocks| == 1 then 0 else 1 + Find(blocks[1..], size)
  }

  function Split(blocks: seq<Block>, i: nat, size: nat): seq<Block>
    requires i < |blocks|
  {
    var b := blocks[i];
    blocks[..i]
    + [Block(b.addr, size, false), Block(U32(b.addr + size + HEADER), U32(b.size - size - HEADER), true)]
    + blocks[i + 1..]
  }

  // The growth loop's count: the least n >= 1 with have + n pages >= need.
  function PagesNeeded(have: nat, need: nat): (n: nat)
    ensures n >= 1 && have + n * PAGE_SIZE >= need
    ensures n == 1 || have + (n - 1) * PAGE_SIZE < need
  {
    if need <= have + PAGE_SIZE then 1 else (need - have + PAGE_SIZE - 1) / PAGE_SIZE
  }

  // Growing adds pages at the end of the heap, and their bytes to block i.
  function Grow(h: Heap, i: nat, n: nat): Heap
    requires i < |h.blocks|
  {
    Heap(h.blocks[i := h.blocks[i].(size := h.blocks[i].size + n * PAGE_SIZE)], h.pages + n)
  }

  // Hang: the page count wraps at 256 before it is large enough, and the loop never ends.
  datatype Outcome = Hang | Done(heap: Heap, ptr: nat)

  function NextBlock(h: Heap, size: nat): Outcome
    requires h.blocks != []
  {
    if size == 0 then Done(h, 0)
    else
      var i := Find(h.blocks, size);
      var b := h.blocks[i];
      if size == b.size then Done(h.(blocks := h.blocks[i := b.(free := false)]), b.Payload())
      else if b.size > U32(size + HEADER) then Done(h.(blocks := Split(h.blocks, i, size)), b.Payload())
      else
        var n := PagesNeeded(b.size, U32(size + HEADER));
        if n > MAX_GROWTH then Hang
        else
          var g := Grow(h, i, n);
          Done(g.(blocks := Split(g.blocks, i, size)), b.Payload())
  }

  // What a caller can check before asking for `size` bytes: the search must not end in an exact
  // fit on the last block, nor in a free block before it whose slack cannot hold a header, and
  // growth must fit the page counter and the address space.
  predicate Guard(h: Heap, size: nat)
    requires h.blocks != []
  {
    size > 0 ==>
      var i := Find(h.blocks, size);
      var b, tail := h.blocks[i], i + 1 == |h.blocks|;
      && size + HEADER < TWO_TO_32
      && (size == b.size ==> !tail)
      && (b.size < size || size < b.size <= size + HEADER ==>
            var n := PagesNeeded(b.size, size + HEADER);
            tail && n <= MAX_GROWTH && h.End() + n * PAGE_SIZE <= TWO_TO_32)
  }

  lemma SplitTiles(blocks: seq<Block>, i: nat, size: nat, from: nat, to: nat)
    requires Tiled(blocks, from, to) && to <= TWO_TO_32 && i < |blocks|
    requires size + HEADER <= blocks[i].size
    ensures Tiled(Split(blocks, i, size), from, to)
  {
    var b := blocks[i];
    TiledSplit(blocks, i, from, to);
    assert blocks[i..][1..] == blocks[i + 1..];
    TiledGrows(blocks, from, to);
    var pair := [Block(b.addr, size, false), Block(U32(b.addr + size + HEADER), U32(b.size - size - HEADER), true)];
    assert Tiled(pair[1..], b.addr + size + HEADER, b.End());
    assert Tiled(pair, b.addr, b.End());
    TiledConcat(pair, blocks[i + 1..], b.addr, b.End(), to);
    TiledConcat(blocks[..i], pair + blocks[i + 1..], from, b.addr, to);
    assert Split(blocks, i, size) == blocks[..i] + (pair + blocks[i + 1..]);
  }

  // Replacing one block by one of the same extent.
  lemma ReplaceTiles(blocks: seq<Block>, i: nat, b: Block, from: nat, to: nat)
    requires Tiled(blocks, from, to) && i < |blocks|
    requires b.addr == blocks[i].addr && b.size == blocks[i].size
    ensures Tiled(blocks[i := b], from, to)
  {
    TiledSplit(blocks, i, from, to);
    assert blocks[i..][1..] == blocks[i + 1..];
    var tail := [b] + blocks[i + 1..];
    assert tail[1..] == blocks[i + 1..];
    TiledConcat(blocks[..i], tail, from, b.addr, to);
    assert blocks[i := b] == blocks[..i] + tail;
  }

  lemma GrowTailTiles(h: Heap, n: nat)
    requires h.Valid()
    ensures var g := Grow(h, |h.blocks| - 1, n);
            Tiled(g.blocks, START, g.End()) && g.End() == h.End() + n * PAGE_SIZE
  {
    var i := |h.blocks| - 1;
    var b := h.blocks[i];
    TiledSplit(h.blocks, i, START, h.End());
    assert h.blocks[i..] == [b];
    assert b.End() == h.End() by { assert [b][1..] == []; }
    var grown := b.(size := b.size + n * PAGE_SIZE);
    var to := h.End() + n * PAGE_SIZE;
    assert Tiled([grown], b.addr, to) by { assert [grown][1..] == []; }
    TiledConcat(h.blocks[..i], [grown], START, b.addr, to);
    assert Grow(h, i, n).blocks == h.blocks[..i] + [grown];
  }

  // n is h with block i taken for `size` bytes.
  ghost predicate Took(h: Heap, i: nat, size: nat, n: Heap)
    requires i < |h.blocks|
  {
    n.Valid() && n.Live() == h.Live() + {Block(h.blocks[i].addr, size, false)}
  }

  lemma ExactFitTakes(h: Heap, i: nat)
    requires h.Valid() && i + 1 < |h.blocks| && h.blocks[i].free && h.blocks[i].size > 0
    ensures Took(h, i, h.blocks[i].size, h.(blocks := h.blocks[i := h.blocks[i].(free := false)]))
  {
    var b := h.blocks[i].(free := false);
    ReplaceTiles(h.blocks, i, b, START, h.End());
    LiveAfterTake(h.blocks, i, [b]);
    assert h.blocks[i := b] == h.blocks[..i] + [b] + h.blocks[i + 1..];
    assert LiveOf([b]) == {b};
  }

  lemma SplitTakes(h: Heap, i: nat, size: nat)
    requires h.blocks != [] && Tiled(h.blocks, START, h.End()) && h.End() <= TWO_TO_32
    requires Last(h.blocks).free && i < |h.blocks| && h.blocks[i].free && 0 < size <= h.blocks[i].size - HEADER
    requires i == 0 || h.blocks[0].size > 0
    ensures Took(h, i, size, h.(blocks := Split(h.blocks, i, size)))
  {
    var b := h.blocks[i];
    SplitTiles(h.blocks, i, size, START, h.End());
    var taken := Block(b.addr, size, false);
    var rest := Block(U32(b.addr + size + HEADER), U32(b.size - size - HEADER), true);
    LiveAfterTake(h.blocks, i, [taken, rest]);
    assert Split(h.blocks, i, size) == h.blocks[..i] + [taken, rest] + h.blocks[i + 1..];
    assert LiveOf([taken, rest]) == {taken} by {
      assert taken in [taken, rest];
    }
  }

  lemma GrowthTakes(h: Heap, size: nat)
    requires h.Valid() && 0 < size && size + HEADER < TWO_TO_32
    requires var n := PagesNeeded(Last(h.blocks).size, size + HEADER);
             h.End() + n * PAGE_SIZE <= TWO_TO_32
    ensures var i := |h.blocks| - 1;
            var g := Grow(h, i, PagesNeeded(h.blocks[i].size, size + HEADER));
            Took(h, i, size, g.(blocks := Split(g.blocks, i, size)))
  {
    var i := |h.blocks| - 1;
    var n := PagesNeeded(h.blocks[i].size, size + HEADER);
    var g := Grow(h, i, n);
    GrowTailTiles(h, n);
    SplitTakes(g, i, size);
    assert g.Live() == h.Live() by {
      LiveAfterTake(h.blocks, i, [g.blocks[i]]);
      assert g.blocks == h.blocks[..i] + [g.blocks[i]] + h.blocks[i + 1..];
    }
  }

  lemma NextBlockTakes(h: Heap, size: nat)
    requires h.Valid() && 0 < size < TWO_TO_32 && Guard(h, size)
    ensures NextBlock(h, size).Done?
    ensures var i := Find(h.blocks, size);
            h.blocks[i].free && Took(h, i, size, NextBlock(h, size).heap)
  {
    hide Took;
    var i := Find(h.blocks, size);
    var b := h.blocks[i];
    if size == b.size {
      ExactFitTakes(h, i);
    } else if b.size > size + HEADER {
      SplitTakes(h, i, size);
    } else {
      GrowthTakes(h, size);
    }
  }

  /** A guarded request: the heap stays well laid out, the new block joins the live ones, none of
      which moves or changes size, and no free block before it would have been large enough. */
  lemma NextBlockKeeps(h: Heap, size: nat)
    requires h.Valid() && 0 < size < TWO_TO_32 && Guard(h, size)
    ensures NextBlock(h, size).Done?
    ensures var Done(n, ptr) := NextBlock(h, size);
            && n.Valid()
            && START + HEADER <= ptr && ptr + size <= n.End()
            && n.Live() == h.Live() + {Block(ptr - HEADER, size, false)}
            && (forall b :: b in h.Live() ==> b.addr != ptr - HEADER)
            && (forall b :: b in h.blocks && Fits(b, size) ==> ptr <= b.Payload())
  {
    NextBlockTakes(h, size);
    var Done(n, ptr) := NextBlock(h, size);
    var b := h.blocks[Find(h.blocks, size)];
    assert ptr == b.Payload();
    TiledGrows(n.blocks, START, n.End());
    assert Block(b.addr, size, false) in n.Live();
    forall c | c in h.Live() ensures c.addr != b.addr {
      TiledApart(h.blocks, START, h.End(), b, c);
    }
    forall c | c in h.blocks && Fits(c, size) ensures b.addr <= c.addr {
      FirstFitIsLowest(h, size, c);
    }
  }

  // `pieces` replace block b, lengthened by some pages: `size` bytes taken from its front, and the
  // rest of it, if there is any, free.
  ghost predicate CutFrom(b: Block, growth: nat, size: nat, pieces: seq<Block>) {
    && 1 <= |pieces| <= 2 && pieces[0] == Block(b.addr, size, false)
    && Last(pieces).End() == b.End() + growth * PAGE_SIZE
    && (|pieces| == 2 ==> pieces[1].free && pieces[1].addr == pieces[0].End())
  }

  // The heap grows only when the block it serves from is too small, and by no page more than the
  // request and a header need.
  ghost predicate GrowsAsNeeded(b: Block, growth: nat, size: nat) {
    && (growth == 0 <==> size == b.size || b.size > size + HEADER)
    && b.size + growth * PAGE_SIZE >= size
    && (growth > 1 ==> b.size + (growth - 1) * PAGE_SIZE < size + HEADER)
  }

  /** What a guarded request does to the list: the first block that fits, else the last, is cut in
      two, and every other block stays where it is. */
  lemma NextBlockCuts(h: Heap, size: nat) returns (i: nat, pieces: seq<Block>, growth: nat)
    requires h.Valid() && 0 < size < TWO_TO_32 && Guard(h, size)
    ensures NextBlock(h, size).Done? && i < |h.blocks|
    ensures Fits(h.blocks[i], size) || i + 1 == |h.blocks|
    ensures forall j: nat :: j < i ==> !Fits(h.blocks[j], size)
    ensures CutFrom(h.blocks[i], growth, size, pieces) && GrowsAsNeeded(h.blocks[i], growth, size)
    ensures NextBlock(h, size) == Done(Heap(h.blocks[..i] + pieces + h.blocks[i + 1..], h.pages + growth), h.blocks[i].Payload())
  {
    hide Tiled, PagesNeeded, Split, Grow, U32;
    i := Find(h.blocks, size);
    var b := h.blocks[i];
    if size == b.size {
      growth, pieces := 0, [b.(free := false)];
      ReplacedIs(h.blocks, i, b.(free := false));
    } else {
      growth := if b.size > size + HEADER then 0 else PagesNeeded(b.size, size + HEADER);
      pieces := GrownAndSplit(h, i, growth, size);
      InWord(size + HEADER);
    }
  }

  lemma InWord(x: nat)
    requires x < TWO_TO_32
    ensures U32(x) == x
  {}

  lemma ReplacedIs(blocks: seq<Block>, i: nat, b: Block)
    requires i < |blocks|
    ensures blocks[i := b] == blocks[..i] + [b] + blocks[i + 1..]
  {}

  lemma GrownAndSplit(h: Heap, i: nat, n: nat, size: nat) returns (pieces: seq<Block>)
    requires h.Valid() && i < |h.blocks| && size + HEADER <= h.blocks[i].size + n * PAGE_SIZE
    requires n == 0 || (i + 1 == |h.blocks| && h.End() + n * PAGE_SIZE <= TWO_TO_32)
    ensures CutFrom(h.blocks[i], n, size, pieces)
    ensures Split(Grow(h, i, n).blocks, i, size) == h.blocks[..i] + pieces + h.blocks[i + 1..]
    ensures Grow(h, i, n).pages == h.pages + n && (n == 0 ==> Grow(h, i, n) == h)
  {
    hide Tiled;
    var b, larger := h.blocks[i], h.blocks[i].size + n * PAGE_SIZE;
    pieces := [Block(b.addr, size, false), Block(b.addr + size + HEADER, larger - size - HEADER, true)];
    TiledGrows(h.blocks, START, h.End());
    assert b in h.blocks;
  }

  // Taking the free block i: the live blocks gain what replaces it.
  lemma LiveAfterTake(blocks: seq<Block>, i: nat, taken: seq<Block>)
    requires i < |blocks| && blocks[i].free
    ensures LiveOf(blocks[..i] + taken + blocks[i + 1..]) == LiveOf(blocks) + LiveOf(taken)
  {
    assert blocks == blocks[..i] + [blocks[i]] + blocks[i + 1..];
  }

  lemma FirstFitIsLowest(h: Heap, size: nat, c: Block)
    requires h.Valid() && c in h.blocks && Fits(c, size)
    ensures h.blocks[Find(h.blocks, size)].addr <= c.addr
  {
    var i := Find(h.blocks, size);
    var j :| 0 <= j < |h.blocks| && h.blocks[j] == c;
    assert j >= i;
    TiledSplit(h.blocks, i, START, h.End());
    TiledGrows(h.blocks[i..], h.blocks[i].addr, h.End());
    assert c == h.blocks[i..][j - i];
  }

  // Where consecutive blocks of a tiled list meet.
  lemma TiledMeets(blocks: seq<Block>, i: nat, from: nat, to: nat)
    requires Tiled(blocks, from, to) && i < |blocks|
    ensures blocks[i].End() == if i + 1 < |blocks| then blocks[i + 1].addr else to
  {
    TiledSplit(blocks, i, from, to);
    assert blocks[i..][1..] == blocks[i + 1..];
  }

  // A list with a block that does not end where the next begins is not tiled.
  lemma GapBreaksTiling(blocks: seq<Block>, i: nat, from: nat, to: nat)
    requires i < |blocks|
    requires blocks[i].End() != if i + 1 < |blocks| then blocks[i + 1].addr else to
    ensures !Tiled(blocks, from, to)
  {
    if Tiled(blocks, from, to) {
      TiledMeets(blocks, i, from, to);
      assert false;
    }
  }

  // A request so large that its header wraps leaves a block that runs past the next.
  lemma WrappedRequestBreaks(h: Heap, size: nat)
    requires h.Valid() && 0 < size < TWO_TO_32 <= size + HEADER && NextBlock(h, size).Done?
    ensures !NextBlock(h, size).heap.Valid()
  {
    hide Tiled;
    var i, n := Find(h.blocks, size), NextBlock(h, size).heap;
    TiledGrows(h.blocks, START, h.End());
    assert n.blocks[i].End() > n.blocks[i + 1].addr;
    GapBreaksTiling(n.blocks, i, START, n.End());
  }

  // Growth of a block before the last leaves a gap after what is split off it.
  lemma GrowthBeforeTailBreaks(h: Heap, size: nat)
    requires h.Valid() && 0 < size && size + HEADER < TWO_TO_32 && NextBlock(h, size).Done?
    requires var i := Find(h.blocks, size);
             var b := h.blocks[i];
             i + 1 < |h.blocks| && size != b.size && b.size <= size + HEADER
    ensures !NextBlock(h, size).heap.Valid()
  {
    hide Tiled;
    var i, n := Find(h.blocks, size), NextBlock(h, size).heap;
    TiledGrows(h.blocks, START, h.End());
    TiledMeets(h.blocks, i, START, h.End());
    assert n.blocks[i + 2] == h.blocks[i + 1];
    GapBreaksTiling(n.blocks, i + 1, START, n.End());
  }

  lemma UnguardedBreaks(h: Heap, size: nat)
    requires h.Valid() && 0 < size < TWO_TO_32 && !Guard(h, size)
    ensures NextBlock(h, size).Hang? || !NextBlock(h, size).heap.Valid()
  {
    hide Tiled;
    var i := Find(h.blocks, size);
    var b := h.blocks[i];
    if NextBlock(h, size).Done? {
      if size + HEADER >= TWO_TO_32 {
        WrappedRequestBreaks(h, size);
      } else if size != b.size && i + 1 < |h.blocks| {
        GrowthBeforeTailBreaks(h, size);
      }
    }
  }

  /** malloc_next_block keeps the heap well laid out exactly under the guard, for every heap and
      every request. */
  lemma NextBlockIsSafeIff(h: Heap, size: nat)
    requires h.Valid() && size < TWO_TO_32
    ensures NextBlock(h, size).Done? && NextBlock(h, size).heap.Valid() <==> Guard(h, size)
  {
    if size > 0 {
      if Guard(h, size) { NextBlockKeeps(h, size); } else { UnguardedBreaks(h, size); }
    }
  }

  // An exact fit on the only block, then one more request: both get the same address.
  lemma ExactFitOnTailHandsOutTwice()
    ensures var first := NextBlock(Initial(), PAGE_SIZE - HEADER);
            && first.Done?
            && var second := NextBlock(first.heap, 100);
               second.Done? && second.ptr == first.ptr
  {}

  // ---------- merge_free_blocks and malloc_free ----------

  // One pass: a free block absorbs the free block after it, then the pass moves on.
  function MergePass(blocks: seq<Block>): seq<Block> {
    if |blocks| < 2 then blocks
    else if blocks[0].free && blocks[1].free then
      [blocks[0].(size := blocks[0].size + blocks[1].size + HEADER)] + MergePass(blocks[2..])
    else [blocks[0]] + MergePass(blocks[1..])
  }

  function Merge(h: Heap): Heap {
    h.(blocks := MergePass(h.blocks))
  }

  predicate AllFree(blocks: seq<Block>) {
    forall b :: b in blocks ==> b.free
  }

  lemma {:induction false} MergePassTiles(blocks: seq<Block>, from: nat, to: nat)
    requires Tiled(blocks, from, to)
    ensures Tiled(MergePass(blocks), from, to)
    ensures blocks != [] && Last(blocks).free ==> MergePass(blocks) != [] && Last(MergePass(blocks)).free
    ensures blocks != [] ==> MergePass(blocks) != [] && MergePass(blocks)[0].size >= blocks[0].size
  {
    if |blocks| < 2 {
    } else if blocks[0].free && blocks[1].free {
      var merged := blocks[0].(size := blocks[0].size + blocks[1].size + HEADER);
      assert blocks[1..][1..] == blocks[2..];
      assert MergePass(blocks)[1..] == MergePass(blocks[2..]);
      MergePassTiles(blocks[2..], merged.End(), to);
    } else {
      assert MergePass(blocks)[1..] == MergePass(blocks[1..]);
      MergePassTiles(blocks[1..], blocks[0].End(), to);
    }
  }

  lemma LiveOfConcat(s: seq<Block>, t: seq<Block>)
    ensures LiveOf(s + t) == LiveOf(s) + LiveOf(t)
  {}

  lemma {:induction false} MergePassKeepsLive(blocks: seq<Block>)
    ensures LiveOf(MergePass(blocks)) == LiveOf(blocks)
    decreases blocks
  {
    if |blocks| < 2 {
    } else if blocks[0].free && blocks[1].free {
      var merged := blocks[0].(size := blocks[0].size + blocks[1].size + HEADER);
      MergePassKeepsLive(blocks[2..]);
      LiveOfConcat([merged], MergePass(blocks[2..]));
      LiveOfConcat([blocks[0], blocks[1]], blocks[2..]);
      assert blocks == [blocks[0], blocks[1]] + blocks[2..];
    } else {
      MergePassKeepsLive(blocks[1..]);
      LiveOfConcat([blocks[0]], MergePass(blocks[1..]));
      LiveOfConcat([blocks[0]], blocks[1..]);
      assert blocks == [blocks[0]] + blocks[1..];
    }
  }

  // The allocated blocks in order.
  function Taken(blocks: seq<Block>): seq<Block> {
    if blocks == [] then []
    else if blocks[0].free then Taken(blocks[1..])
    else [blocks[0]] + Taken(blocks[1..])
  }

  lemma {:induction false} MergePassKeepsTaken(blocks: seq<Block>)
    ensures Taken(MergePass(blocks)) == Taken(blocks)
    decreases blocks
  {
    if |blocks| < 2 {
    } else if blocks[0].free && blocks[1].free {
      assert blocks[1..][1..] == blocks[2..];
      assert MergePass(blocks)[1..] == MergePass(blocks[2..]);
      MergePassKeepsTaken(blocks[2..]);
    } else {
      assert MergePass(blocks)[1..] == MergePass(blocks[1..]);
      MergePassKeepsTaken(blocks[1..]);
    }
  }

  lemma {:induction false} MergePassOfFreeRun(run: seq<Block>)
    requires AllFree(run)
    ensures AllFree(MergePass(run)) && |MergePass(run)| == (|run| + 1) / 2
  {
    if |run| < 2 {
    } else {
      MergePassOfFreeRun(run[2..]);
    }
  }

  lemma {:induction false} MergePassStopsAtTaken(run: seq<Block>, rest: seq<Block>)
    requires AllFree(run) && (rest == [] || !rest[0].free)
    ensures MergePass(run + rest) == MergePass(run) + MergePass(rest)
    decreases run
  {
    var both := run + rest;
    if run == [] {
      assert both == rest;
    } else if rest == [] {
      assert both == run;
    } else if |run| == 1 {
      assert both[0] == run[0] && both[1] == rest[0] && both[1..] == rest;
      assert MergePass(both) == [run[0]] + MergePass(rest);
    } else {
      assert both[0] == run[0] && both[1] == run[1] && both[2..] == run[2..] + rest;
      MergePassStopsAtTaken(run[2..], rest);
    }
  }

  /** A maximal run of k free blocks becomes ceil(k/2) free blocks, independently of what
      precedes and follows it; an allocated block stays as it is. */
  lemma MergePassHalvesRuns(run: seq<Block>, rest: seq<Block>)
    requires AllFree(run) && (rest == [] || !rest[0].free)
    ensures MergePass(run + rest) == MergePass(run) + MergePass(rest)
    ensures AllFree(MergePass(run)) && |MergePass(run)| == (|run| + 1) / 2
    ensures rest != [] ==> MergePass(rest) == [rest[0]] + MergePass(rest[1..])
  {
    MergePassStopsAtTaken(run, rest);
    MergePassOfFreeRun(run);
    if |rest| == 1 { assert MergePass(rest[1..]) == []; }
  }

  // run is a run of free blocks as long as it can be, between pre and rest.
  predicate Cut(blocks: seq<Block>, pre: seq<Block>, run: seq<Block>, rest: seq<Block>) {
    && blocks == pre + run + rest && AllFree(run)
    && (pre == [] || !Last(pre).free)
    && (rest == [] || !rest[0].free)
  }

  // b is blocks 2k and 2k + 1 of the run in one, or block 2k where the run ends with it.
  predicate IsPair(run: seq<Block>, k: nat, b: Block)
    requires 2 * k < |run|
  {
    && b.free && b.addr == run[2 * k].addr
    && b.End() == run[if 2 * k + 1 < |run| then 2 * k + 1 else 2 * k].End()
  }

  // The free blocks `run`, joined two by two from the first: over the same bytes, half as many.
  predicate Paired(run: seq<Block>, joined: seq<Block>) {
    && |joined| == (|run| + 1) / 2
    && forall k: nat :: k < |joined| ==> IsPair(run, k, joined[k])
  }

  lemma {:induction false} MergePassPairs(run: seq<Block>, from: nat, to: nat)
    requires AllFree(run) && Tiled(run, from, to)
    ensures Paired(run, MergePass(run))
    decreases run
  {
    if |run| >= 2 {
      hide Paired;
      assert run[1..][1..] == run[2..];
      MergePassPairs(run[2..], run[1].End(), to);
      PairedStep(run, MergePass(run)[0], MergePass(run[2..]));
    }
  }

  lemma PairedStep(run: seq<Block>, first: Block, later: seq<Block>)
    requires |run| >= 2 && IsPair(run, 0, first) && Paired(run[2..], later)
    ensures Paired(run, [first] + later)
  {
    forall k: nat | k < |later| + 1 ensures IsPair(run, k, ([first] + later)[k]) {
      if k > 0 { assert IsPair(run[2..], k - 1, later[k - 1]); }
    }
  }

  // How many blocks a pass goes past at once, and what it makes of them.
  function PassedOver(blocks: seq<Block>): nat
    requires blocks != []
  {
    if |blocks| >= 2 && blocks[0].free && blocks[1].free then 2 else 1
  }

  function PassedInto(blocks: seq<Block>): Block
    requires blocks != []
  {
    if PassedOver(blocks) == 1 then blocks[0]
    else blocks[0].(size := blocks[0].size + blocks[1].size + HEADER)
  }

  lemma PassGoesOn(blocks: seq<Block>)
    requires blocks != []
    ensures PassedOver(blocks) <= |blocks|
    ensures MergePass(blocks) == [PassedInto(blocks)] + MergePass(blocks[PassedOver(blocks)..])
  {
    if |blocks| == 1 { assert MergePass(blocks[1..]) == []; }
  }

  // Nothing before a taken block has to do with what comes after it.
  lemma {:induction false} MergePassAfterTaken(pre: seq<Block>, rest: seq<Block>)
    requires pre == [] || !Last(pre).free
    ensures MergePass(pre + rest) == MergePass(pre) + MergePass(rest)
    decreases pre
  {
    if pre == [] {
      assert pre + rest == rest && MergePass(pre) == [];
    } else {
      hide MergePass, PassedOver, PassedInto;
      PassGoesOnBefore(pre, rest);
      PassGoesOn(pre);
      var left := pre[PassedOver(pre)..];
      MergePassAfterTaken(left, rest);
      Associates([PassedInto(pre)], MergePass(left), MergePass(rest));
    }
  }

  lemma PassGoesOnBefore(pre: seq<Block>, rest: seq<Block>)
    requires pre != [] && !Last(pre).free
    ensures 1 <= PassedOver(pre) <= |pre|
    ensures var left := pre[PassedOver(pre)..];
            && MergePass(pre + rest) == [PassedInto(pre)] + MergePass(left + rest)
            && (left == [] || !Last(left).free)
  {
    hide MergePass, PassedInto;
    PassGoesOn(pre + rest);
    SamePass(pre, rest);
    TailOfConcat(pre, rest, PassedOver(pre));
  }

  lemma SamePass(pre: seq<Block>, rest: seq<Block>)
    requires pre != [] && !Last(pre).free
    ensures PassedOver(pre + rest) == PassedOver(pre) <= |pre| && PassedInto(pre + rest) == PassedInto(pre)
  {
    assert (pre + rest)[0] == pre[0] && (|pre| > 1 ==> (pre + rest)[1] == pre[1]);
  }

  lemma TailOfConcat(s: seq<Block>, t: seq<Block>, n: nat)
    requires n <= |s|
    ensures (s + t)[n..] == s[n..] + t
  {}

  lemma Associates(s: seq<Block>, t: seq<Block>, u: seq<Block>)
    ensures s + t + u == s + (t + u)
  {}

  // What a merge makes of a list cut at a run: what lies on either side keeps its taken blocks.
  lemma MergePassOfCut(blocks: seq<Block>, pre: seq<Block>, run: seq<Block>, rest: seq<Block>, from: nat, to: nat)
      returns (before: seq<Block>, joined: seq<Block>, after: seq<Block>)
    requires Tiled(blocks, from, to) && Cut(blocks, pre, run, rest)
    ensures MergePass(blocks) == before + joined + after
    ensures Paired(run, joined) && Taken(before) == Taken(pre) && Taken(after) == Taken(rest)
  {
    hide Tiled, Paired, MergePass, Taken;
    before, joined, after := MergePass(pre), MergePass(run), MergePass(rest);
    assert MergePass(blocks) == before + joined + after by { CutIsMergedApart(blocks, pre, run, rest); }
    MergePassKeepsTaken(pre);
    MergePassKeepsTaken(rest);
    RunIsTiled(blocks, |pre|, |run|, from, to);
    assert run == blocks[|pre|..][..|run|];
    if run != [] {
      MergePassPairs(run, run[0].addr, Last(run).End());
    } else {
      MergePassOfFreeRun(run);
      assert Paired(run, joined) by { EmptyRunIsPaired(joined); }
    }
  }

  lemma CutIsMergedApart(blocks: seq<Block>, pre: seq<Block>, run: seq<Block>, rest: seq<Block>)
    requires Cut(blocks, pre, run, rest)
    ensures MergePass(blocks) == MergePass(pre) + MergePass(run) + MergePass(rest)
  {
    hide MergePass;
    Associates(pre, run, rest);
    MergePassAfterTaken(pre, run + rest);
    MergePassStopsAtTaken(run, rest);
    Associates(MergePass(pre), MergePass(run), MergePass(rest));
  }

  lemma EmptyRunIsPaired(joined: seq<Block>)
    requires |joined| == 0
    ensures Paired([], joined)
  {}

  lemma RunIsTiled(blocks: seq<Block>, i: nat, n: nat, from: nat, to: nat)
    requires Tiled(blocks, from, to) && i + n <= |blocks|
    ensures var run := blocks[i..][..n];
            run != [] ==> Tiled(run, run[0].addr, Last(run).End())
  {
    if n > 0 {
      TiledSplit(blocks, i, from, to);
      var run, there := blocks[i..][..n], blocks[i..][0].addr;
      TiledSplit(blocks[i..], n, there, to);
      TiledSplit(run, n - 1, there, if n < |blocks[i..]| then blocks[i..][n].addr else to);
      assert run[n - 1..] == [Last(run)];
      assert [Last(run)][1..] == [];
    }
  }

  // malloc_free: the pointer is looked for in every block but the last.
  function FindPointer(blocks: seq<Block>, ptr: nat): (i: nat)
    requires blocks != []
    ensures i < |blocks|
    ensures i + 1 < |blocks| ==> blocks[i].Payload() == ptr
    ensures forall j: nat :: j < i ==> blocks[j].Payload() != ptr
  {
    if |blocks| == 1 || blocks[0].Payload() == ptr then 0 else 1 + FindPointer(blocks[1..], ptr)
  }

  function FreePointer(h: Heap, ptr: nat): Heap
    requires h.blocks != []
  {
    var i := FindPointer(h.blocks, ptr);
    if i + 1 == |h.blocks| then h
    else Merge(h.(blocks := h.blocks[i := h.blocks[i].(free := true)]))
  }

  lemma MergeKeeps(h: Heap)
    requires h.Valid()
    ensures Merge(h).Valid() && Merge(h).Live() == h.Live() && Merge(h).pages == h.pages
  {
    MergePassTiles(h.blocks, START, h.End());
    MergePassKeepsLive(h.blocks);
  }

  // The live blocks but for the one with that payload address.
  ghost function Without(live: set<Block>, ptr: nat): set<Block> {
    set b | b in live && b.Payload() != ptr
  }

  lemma LiveAfterFree(blocks: seq<Block>, i: nat, from: nat, to: nat)
    requires Tiled(blocks, from, to) && i < |blocks|
    ensures LiveOf(blocks[i := blocks[i].(free := true)])
            == Without(LiveOf(blocks), blocks[i].Payload())
  {
    var freed := blocks[i := blocks[i].(free := true)];
    forall j: nat | j < |blocks| && j != i ensures freed[j] == blocks[j] && blocks[j].addr != blocks[i].addr {
      TiledIndexApart(blocks, from, to, i, j);
    }
    forall c | c in LiveOf(blocks) && c.Payload() != blocks[i].Payload() ensures c in LiveOf(freed) {
      var j :| 0 <= j < |blocks| && blocks[j] == c;
      assert freed[j] == c;
    }
  }

  lemma TiledIndexApart(blocks: seq<Block>, from: nat, to: nat, i: nat, j: nat)
    requires Tiled(blocks, from, to) && i < |blocks| && j < |blocks| && i != j
    ensures blocks[i].addr != blocks[j].addr
  {
    var a, b := if i < j then i else j, if i < j then j else i;
    TiledSplit(blocks, b, from, to);
    TiledGrows(blocks[..b], from, blocks[b].addr);
    assert blocks[a] == blocks[..b][a];
  }

  // Freeing removes the block with that payload address from the live blocks, and no other.
  lemma FreePointerKeeps(h: Heap, ptr: nat)
    requires h.Valid()
    ensures var n := FreePointer(h, ptr);
            && n.Valid() && n.pages == h.pages
            && n.Live() == Without(h.Live(), ptr)
  {
    var i := FindPointer(h.blocks, ptr);
    if i + 1 == |h.blocks| {
      assert h.Live() == Without(h.Live(), ptr) by {
        forall b | b in h.Live() ensures b.Payload() != ptr {
          var j :| 0 <= j < |h.blocks| && h.blocks[j] == b;
        }
      }
    } else {
      var b := h.blocks[i];
      ReplaceTiles(h.blocks, i, b.(free := true), START, h.End());
      LiveAfterFree(h.blocks, i, START, h.End());
      MergeKeeps(h.(blocks := h.blocks[i := b.(free := true)]));
    }
  }

  /** Freeing merges: around the block given back, and wherever else free blocks lie in a row, they
      become half as many over the same bytes, joined two by two from the first of the row, and the
      taken blocks on either side stay as they are. */
  lemma FreeingMerges(h: Heap, ptr: nat, i: nat, pre: seq<Block>, run: seq<Block>, rest: seq<Block>)
      returns (before: seq<Block>, joined: seq<Block>, after: seq<Block>)
    requires h.Valid() && i + 1 < |h.blocks| && h.blocks[i].Payload() == ptr
    requires Cut(h.blocks[i := h.blocks[i].(free := true)], pre, run, rest)
    ensures FreePointer(h, ptr).blocks == before + joined + after
    ensures Paired(run, joined) && Taken(before) == Taken(pre) && Taken(after) == Taken(rest)
  {
    var freed := h.blocks[i := h.blocks[i].(free := true)];
    ReplaceTiles(h.blocks, i, freed[i], START, h.End());
    before, joined, after := MergePassOfCut(freed, pre, run, rest, START, h.End());
    PointerIsFound(h, ptr, i);
  }

  lemma PointerIsFound(h: Heap, ptr: nat, i: nat)
    requires h.Valid() && i + 1 < |h.blocks| && h.blocks[i].Payload() == ptr
    ensures FindPointer(h.blocks, ptr) == i
  {
    var j := FindPointer(h.blocks, ptr);
    if j != i { TiledIndexApart(h.blocks, START, h.End(), i, j); }
  }

  /** The two blocks of a row of two, one of them just given back, become one that is as large as
      both and the header between them, and a request of that size is met from it unless an earlier
      block will do. */
  lemma FreedPairIsReused(h: Heap, ptr: nat, i: nat, pre: seq<Block>, b: Block, c: Block, rest: seq<Block>)
    requires h.Valid() && i + 1 < |h.blocks| && h.blocks[i].Payload() == ptr
    requires Cut(h.blocks[i := h.blocks[i].(free := true)], pre, [b, c], rest)
    ensures var n := FreePointer(h, ptr);
            var size := b.size + HEADER + c.size;
            n.Valid() && Block(b.addr, size, true) in n.blocks
            && n.blocks[Find(n.blocks, size)].addr <= b.addr
  {
    hide Tiled, Paired, FreePointer;
    var before, joined, after := FreeingMerges(h, ptr, i, pre, [b, c], rest);
    var n, larger := FreePointer(h, ptr), Block(b.addr, b.size + HEADER + c.size, true);
    FreePointerKeeps(h, ptr);
    CutPairMeets(h, i, pre, b, c, rest);
    PairIsOne(b, c, joined);
    assert n.blocks[|before|] == larger;
    FirstFitIsLowest(n, larger.size, larger);
  }

  lemma CutPairMeets(h: Heap, i: nat, pre: seq<Block>, b: Block, c: Block, rest: seq<Block>)
    requires h.Valid() && i < |h.blocks|
    requires h.blocks[i := h.blocks[i].(free := true)] == pre + [b, c] + rest
    ensures b.End() == c.addr
  {
    var freed := h.blocks[i := h.blocks[i].(free := true)];
    ReplaceTiles(h.blocks, i, freed[i], START, h.End());
    TiledMeets(freed, |pre|, START, h.End());
  }

  lemma PairIsOne(b: Block, c: Block, joined: seq<Block>)
    requires Paired([b, c], joined) && b.End() == c.addr
    ensures joined == [Block(b.addr, b.size + HEADER + c.size, true)]
  {
    assert IsPair([b, c], 0, joined[0]);
  }

  // ---------- Runs ----------

  datatype Op = Malloc(size: nat) | Free(ptr: nat)

  // syscall_malloc merges after every allocation; syscall_free is malloc_free.
  ghost predicate Guarded(h: Heap, op: Op)
    requires h.Valid()
  {
    op.Malloc? ==> op.size < TWO_TO_32 && Guard(h, op.size)
  }

  ghost function Step(h: Heap, op: Op): (n: Heap)
    requires h.Valid() && Guarded(h, op)
  {
    match op
    case Malloc(size) =>
      NextBlockIsSafeIff(h, size);
      Merge(NextBlock(h, size).heap)
    case Free(ptr) => FreePointer(h, ptr)
  }

  // What the callers hold after a step, from what they held and what the step returned.
  ghost function Held(h: Heap, op: Op, held: set<Block>): set<Block>
    requires h.Valid() && Guarded(h, op)
  {
    match op
    case Malloc(size) =>
      NextBlockIsSafeIff(h, size);
      if size == 0 then held else held + {Block(NextBlock(h, size).ptr - HEADER, size, false)}
    case Free(ptr) => Without(held, ptr)
  }

  lemma StepKeeps(h: Heap, op: Op)
    requires h.Valid() && Guarded(h, op)
    ensures Step(h, op).Valid() && Step(h, op).Live() == Held(h, op, h.Live())
  {
    match op
    case Malloc(size) =>
      NextBlockIsSafeIff(h, size);
      if size > 0 { NextBlockKeeps(h, size); }
      MergeKeeps(NextBlock(h, size).heap);
    case Free(ptr) => FreePointerKeeps(h, ptr);
  }

  lemma StepPages(h: Heap, op: Op)
    requires h.Valid() && Guarded(h, op)
    ensures h.pages <= Step(h, op).pages
  {}

  /** So does allocating through the system call: every row of free blocks the allocation leaves is
      joined in the same way. */
  lemma MallocMerges(h: Heap, size: nat, pre: seq<Block>, run: seq<Block>, rest: seq<Block>)
      returns (before: seq<Block>, joined: seq<Block>, after: seq<Block>)
    requires h.Valid() && Guarded(h, Malloc(size)) && NextBlock(h, size).Done?
    requires Cut(NextBlock(h, size).heap.blocks, pre, run, rest)
    ensures Step(h, Malloc(size)).blocks == before + joined + after
    ensures Paired(run, joined) && Taken(before) == Taken(pre) && Taken(after) == Taken(rest)
  {
    NextBlockIsSafeIff(h, size);
    var n := NextBlock(h, size).heap;
    before, joined, after := MergePassOfCut(n.blocks, pre, run, rest, START, n.End());
  }

  ghost predicate GuardedRun(h: Heap, ops: seq<Op>)
    requires h.Valid()
    decreases ops
  {
    ops == [] ||
    (Guarded(h, ops[0]) && (StepKeeps(h, ops[0]); GuardedRun(Step(h, ops[0]), ops[1..])))
  }

  ghost function Run(h: Heap, ops: seq<Op>): Heap
    requires h.Valid() && GuardedRun(h, ops)
    decreases ops
  {
    if ops == [] then h
    else
      StepKeeps(h, ops[0]);
      Run(Step(h, ops[0]), ops[1..])
  }

  ghost function HeldAfter(h: Heap, ops: seq<Op>, held: set<Block>): set<Block>
    requires h.Valid() && GuardedRun(h, ops)
    decreases ops
  {
    if ops == [] then held
    else
      StepKeeps(h, ops[0]);
      HeldAfter(Step(h, ops[0]), ops[1..], Held(h, ops[0], held))
  }

  /** Over every guarded run of malloc and free: the list tiles exactly the heap's pages, its last
      block is free, and the allocated blocks are exactly those handed out and not freed, each at
      the address and with the size it was handed out with, pairwise apart and inside the heap. */
  lemma {:induction false} RunsAreSafe(h: Heap, ops: seq<Op>)
    requires h.Valid() && GuardedRun(h, ops)
    ensures var n := Run(h, ops);
            && n.Valid() && n.Live() == HeldAfter(h, ops, h.Live())
            && (forall b, c :: b in n.Live() && c in n.Live() && b != c ==> b.Apart(c))
            && (forall b :: b in n.Live() ==> START <= b.addr && b.End() <= n.End())
    decreases ops
  {
    if ops == [] {
      forall b, c | b in h.Live() && c in h.Live() && b != c ensures b.Apart(c) {
        TiledApart(h.blocks, START, h.End(), b, c);
      }
      TiledGrows(h.blocks, START, h.End());
    } else {
      StepKeeps(h, ops[0]);
      RunsAreSafe(Step(h, ops[0]), ops[1..]);
    }
  }
}
