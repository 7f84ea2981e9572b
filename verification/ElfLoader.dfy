/** The ELF loader: one pass over the program headers bounds the image, a second builds it. */
module ElfLoader {
  import opened Words
  import opened Arithmetic
  import opened BitOps
  import opened Bytes

  const ET_EXEC: nat := 2
  const ET_DYN: nat := 3
  const PT_LOAD: nat := 1

  // The fields of Elf32_Phdr the loader reads.
  datatype Segment = Segment(kind: nat, offset: nat, vaddr: nat, filesz: nat, memsz: nat, align: nat) {
    predicate Load() {
      kind == PT_LOAD
    }

    // Addresses the segment's file bytes, and its whole image, occupy.
    predicate HasByte(address: nat) {
      vaddr <= address < vaddr + filesz
    }

    predicate ApartFrom(other: Segment) {
      vaddr + filesz <= other.vaddr || other.vaddr + other.filesz <= vaddr
    }
  }

  ghost predicate PowerOfTwo(a: nat) {
    exists k: nat :: a == Pow2(k)
  }

  // ---------- The bounds pass ----------

  datatype Bounds = Bounds(min: nat, max: nat, align: nat)

  function NoBounds(): Bounds {
    Bounds(0xFFFF_FFFF, 0, PAGE_SIZE)
  }

  function MaxAlign(align: nat, s: Segment): nat {
    if align < s.align then s.align else align
  }

  function RoundDown(x: nat, align: nat): nat {
    if align == 0 then 0 else AndNot(x, align - 1)
  }

  function Extend(b: Bounds, s: Segment): Bounds {
    if !s.Load() then b
    else
      var align := MaxAlign(b.align, s);
      var begin := RoundDown(s.vaddr, align);
      var end := RoundDown(U32(s.vaddr + s.memsz + align - 1), align);
      Bounds(if begin < b.min then begin else b.min, if end > b.max then end else b.max, align)
  }

  function BoundsOf(segments: seq<Segment>): Bounds {
    if segments == [] then NoBounds()
    else Extend(BoundsOf(segments[..|segments| - 1]), segments[|segments| - 1])
  }

  // What the System V ABI and a 32-bit address space ask of the segments.
  ghost predicate WellFormed(segments: seq<Segment>) {
    && (forall s :: s in segments && s.Load() ==>
          s.filesz <= s.memsz && (s.align <= PAGE_SIZE || PowerOfTwo(s.align)))
    && (forall s, t :: s in segments && t in segments && s.Load() && t.Load() ==>
          s.vaddr + s.memsz + MaxAlign(PAGE_SIZE, t) - 1 < TWO_TO_32)
  }

  lemma {:induction false} Pow2Page(k: nat)
    requires Pow2(k) >= PAGE_SIZE
    ensures exists m: nat :: Pow2(k) == PAGE_SIZE * m && m > 0
  {
    assert Pow2(8) == 256;
    assert Pow2(11) == 2048 by { assert Pow2(10) == 1024; }
    if k < 12 {
      Pow2Monotone(k, 11);
    } else if k == 12 {
      assert Pow2(12) == PAGE_SIZE * 1;
    } else {
      Pow2Monotone(12, k - 1);
      Pow2Page(k - 1);
      var m: nat :| Pow2(k - 1) == PAGE_SIZE * m && m > 0;
      assert Pow2(k) == PAGE_SIZE * (2 * m);
    }
  }

  lemma {:induction false} Pow2Monotone(j: nat, k: nat)
    requires j <= k
    ensures Pow2(j) <= Pow2(k)
    decreases k
  {
    if j < k { Pow2Monotone(j, k - 1); }
  }

  // Rounding down to a power of two of at least a page.
  lemma RoundDownIs(x: nat, align: nat)
    requires PowerOfTwo(align) && align >= PAGE_SIZE
    ensures var r := RoundDown(x, align);
            r <= x < r + align && r % PAGE_SIZE == 0
  {
    var k: nat :| align == Pow2(k);
    MaskRoundsDown(x, k);
    Pow2Page(k);
    var m: nat :| align == PAGE_SIZE * m && m > 0;
    RoundedMultiple(x, PAGE_SIZE, m);
  }

  predicate Covers(b: Bounds, s: Segment) {
    b.min <= s.vaddr && s.vaddr + s.memsz <= b.max
  }

  ghost predicate SomeLoad(segments: seq<Segment>) {
    exists s :: s in segments && s.Load()
  }

  // The alignment is a power of two, the page size or the greatest any loadable segment asks for.
  ghost predicate Aligned(b: Bounds, segments: seq<Segment>) {
    && PowerOfTwo(b.align) && PAGE_SIZE <= b.align
    && (b.align == PAGE_SIZE || exists t :: t in segments && t.Load() && t.align == b.align)
    && (forall s :: s in segments && s.Load() ==> s.align <= b.align)
  }

  // Each bound is a page boundary within one alignment of some segment.
  ghost predicate Tight(b: Bounds, segments: seq<Segment>) {
    && b.min % PAGE_SIZE == 0 && b.max % PAGE_SIZE == 0
    && (exists s :: s in segments && s.Load() && s.vaddr < b.min + b.align)
    && (exists s :: s in segments && s.Load() && b.max < s.vaddr + s.memsz + b.align)
  }

  // Pages bound the image, and every loadable segment lies in it.
  ghost predicate Bounded(b: Bounds, segments: seq<Segment>) {
    && Aligned(b, segments)
    && (forall s :: s in segments && s.Load() ==> Covers(b, s))
    && (if SomeLoad(segments) then Tight(b, segments) else b == NoBounds())
  }

  lemma ExtendStaysAligned(b: Bounds, segments: seq<Segment>, s: Segment)
    requires Aligned(b, segments) && WellFormed(segments + [s])
    ensures Aligned(Extend(b, s), segments + [s])
  {
    hide RoundDown;
    assert s in segments + [s];
    if b.align != PAGE_SIZE {
      var t :| t in segments && t.Load() && t.align == b.align;
      assert t in segments + [s];
    }
  }

  lemma ExtendStaysTight(b: Bounds, segments: seq<Segment>, s: Segment)
    requires Bounded(b, segments) && WellFormed(segments + [s]) && s.Load()
    ensures Tight(Extend(b, s), segments + [s])
  {
    hide RoundDown, WellFormed;
    var all, n, align := segments + [s], Extend(b, s), MaxAlign(b.align, s);
    assert s in all;
    AlignFits(b, segments, s);
    RoundDownIs(s.vaddr, align);
    RoundDownIs(s.vaddr + s.memsz + align - 1, align);
    if SomeLoad(segments) {
      var t :| t in segments && t.Load() && t.vaddr < b.min + b.align;
      assert t in all && n.min == b.min ==> t.vaddr < n.min + n.align;
      var u :| u in segments && u.Load() && b.max < u.vaddr + u.memsz + b.align;
      assert u in all && n.max == b.max ==> n.max < u.vaddr + u.memsz + n.align;
    }
  }

  lemma ExtendStaysBounded(b: Bounds, segments: seq<Segment>, s: Segment)
    requires Bounded(b, segments) && WellFormed(segments + [s])
    ensures Bounded(Extend(b, s), segments + [s])
  {
    hide RoundDown, Tight, Aligned;
    var all, align := segments + [s], MaxAlign(b.align, s);
    assert s in all;
    ExtendStaysAligned(b, segments, s);
    if s.Load() {
      ExtendStaysTight(b, segments, s);
      AlignFits(b, segments, s);
      RoundDownIs(s.vaddr, align);
      RoundDownIs(s.vaddr + s.memsz + align - 1, align);
    } else {
      LoadsOf(segments, s);
      if SomeLoad(segments) { TightWithMore(b, segments, s); }
    }
  }

  lemma LoadsOf(segments: seq<Segment>, s: Segment)
    requires !s.Load()
    ensures SomeLoad(segments + [s]) <==> SomeLoad(segments)
  {
    if SomeLoad(segments) {
      var t :| t in segments && t.Load();
      assert t in segments + [s];
    }
  }

  lemma TightWithMore(b: Bounds, segments: seq<Segment>, s: Segment)
    requires Tight(b, segments)
    ensures Tight(b, segments + [s])
  {
    var t :| t in segments && t.Load() && t.vaddr < b.min + b.align;
    var u :| u in segments && u.Load() && b.max < u.vaddr + u.memsz + b.align;
    assert t in segments + [s] && u in segments + [s];
  }

  // The alignment in force for a segment is the page size, its own or an earlier segment's, so
  // the end of the segment can be rounded up without leaving the address space.
  lemma AlignFits(b: Bounds, segments: seq<Segment>, s: Segment)
    requires Aligned(b, segments) && WellFormed(segments + [s]) && s.Load()
    ensures var align := MaxAlign(b.align, s);
            && PowerOfTwo(align) && PAGE_SIZE <= align
            && s.vaddr + s.memsz + align - 1 < TWO_TO_32
            && (align == PAGE_SIZE || exists t :: t in segments + [s] && t.Load() && t.align == align)
  {
    var all := segments + [s];
    assert s in all;
    if b.align < s.align {
      assert s.vaddr + s.memsz + MaxAlign(PAGE_SIZE, s) - 1 < TWO_TO_32;
    } else if b.align == PAGE_SIZE {
      assert s.vaddr + s.memsz + MaxAlign(PAGE_SIZE, s) - 1 < TWO_TO_32;
    } else {
      var t :| t in segments && t.Load() && t.align == b.align;
      assert t in all;
      assert s.vaddr + s.memsz + MaxAlign(PAGE_SIZE, t) - 1 < TWO_TO_32;
    }
  }

  /** Although the alignment grows while the headers are read, the bounds are whole pages around
      every loadable segment, and no wider than one alignment. */
  lemma {:induction false} BoundsAreBounds(segments: seq<Segment>)
    requires WellFormed(segments)
    ensures Bounded(BoundsOf(segments), segments)
    decreases segments
  {
    if segments == [] {
      assert PAGE_SIZE == Pow2(12) by { assert Pow2(4) == 16; assert Pow2(8) == 256; }
    } else {
      var front, s := segments[..|segments| - 1], segments[|segments| - 1];
      assert segments == front + [s];
      BoundsAreBounds(front);
      ExtendStaysBounded(BoundsOf(front), front, s);
    }
  }

  // ---------- The image pass ----------

  // Every loadable segment's bytes are in the file.
  predicate InFile(segments: seq<Segment>, file: seq<Byte>) {
    forall s :: s in segments && s.Load() ==> s.offset + s.filesz <= |file|
  }

  // The byte of the image at an address: the last loadable segment with a file byte there gives
  // it, and where none has it is zero.
  function ImageByte(segments: seq<Segment>, file: seq<Byte>, address: nat): Byte
    requires InFile(segments, file)
    decreases segments
  {
    if segments == [] then 0
    else
      var s := segments[|segments| - 1];
      if s.Load() && s.HasByte(address) then file[s.offset + address - s.vaddr]
      else ImageByte(segments[..|segments| - 1], file, address)
  }

  // The whole buffer: the image from address `min` on.
  predicate Holds(buffer: seq<Byte>, segments: seq<Segment>, file: seq<Byte>, min: nat)
    requires InFile(segments, file)
  {
    forall i: nat :: i < |buffer| ==> buffer[i] == ImageByte(segments, file, min + i)
  }

  /** For segments whose file bytes do not overlap, each file byte lands at its address, and every
      other byte of the image is zero. */
  lemma {:induction false} ImageOfDisjointSegments(segments: seq<Segment>, file: seq<Byte>, address: nat)
    requires InFile(segments, file)
    requires forall i, j :: 0 <= i < j < |segments| && segments[i].Load() && segments[j].Load() ==>
               segments[i].ApartFrom(segments[j])
    ensures forall s :: s in segments && s.Load() && s.HasByte(address) ==>
              ImageByte(segments, file, address) == file[s.offset + address - s.vaddr]
    ensures (forall s :: s in segments && s.Load() ==> !s.HasByte(address)) ==>
              ImageByte(segments, file, address) == 0
    decreases segments
  {
    if segments == [] {
    } else {
      var front, last := segments[..|segments| - 1], segments[|segments| - 1];
      ImageOfDisjointSegments(front, file, address);
      forall s | s in segments && s.Load() && s.HasByte(address)
        ensures ImageByte(segments, file, address) == file[s.offset + address - s.vaddr]
      {
        var i :| 0 <= i < |segments| && segments[i] == s;
        if i < |segments| - 1 { assert front[i] == s; }
      }
      assert forall s :: s in front ==> s in segments;
    }
  }

  /** Where segments overlap the last one wins, as it is copied last. */
  lemma {:induction false} LastSegmentWins(segments: seq<Segment>, file: seq<Byte>, address: nat, i: nat)
    requires InFile(segments, file) && i < |segments| && segments[i].Load() && segments[i].HasByte(address)
    requires forall j :: i < j < |segments| && segments[j].Load() ==> !segments[j].HasByte(address)
    ensures segments[i] in segments
    ensures ImageByte(segments, file, address) == file[segments[i].offset + address - segments[i].vaddr]
    decreases segments
  {
    if i < |segments| - 1 { LastSegmentWins(segments[..|segments| - 1], file, address, i); }
  }

  // An address no segment has a file byte for holds zero, overlapping or not.
  lemma {:induction false} NoSegmentIsZero(segments: seq<Segment>, file: seq<Byte>, address: nat)
    requires InFile(segments, file) && forall s :: s in segments && s.Load() ==> !s.HasByte(address)
    ensures ImageByte(segments, file, address) == 0
    decreases segments
  {
    if segments != [] {
      assert segments[|segments| - 1] in segments;
      NoSegmentIsZero(segments[..|segments| - 1], file, address);
    }
  }

  // ---------- load_elf_file ----------

  // Refused: not an executable, or no memory. Otherwise the buffer and the entry point, as an
  // offset into it.
  datatype Result = Refused | Loaded(buffer: array<Byte>, entry: nat)

  lemma BoundsOfPrefix(segments: seq<Segment>, i: nat)
    requires i < |segments|
    ensures BoundsOf(segments[..i + 1]) == Extend(BoundsOf(segments[..i]), segments[i])
  {
    assert segments[..i + 1][..i] == segments[..i];
  }

  method FindBounds(segments: seq<Segment>) returns (b: Bounds)
    ensures b == BoundsOf(segments)
  {
    hide RoundDown, U32;
    var memMin: nat, memMax: nat := 0xFFFF_FFFF, 0;
    var align: nat := PAGE_SIZE;
    var i := 0;
    assert segments[..0] == [];
    while i < |segments|
      invariant i <= |segments| && Bounds(memMin, memMax, align) == BoundsOf(segments[..i])
    {
      BoundsOfPrefix(segments, i);
      if segments[i].Load() {
        if align < segments[i].align { align := segments[i].align; }
        var memBegin := RoundDown(segments[i].vaddr, align);
        var memEnd := RoundDown(U32(segments[i].vaddr + segments[i].memsz + align - 1), align);
        if memBegin < memMin { memMin := memBegin; }
        if memEnd > memMax { memMax := memEnd; }
      }
      i := i + 1;
    }
    assert segments[..|segments|] == segments;
    return Bounds(memMin, memMax, align);
  }

  method CopySegments(segments: seq<Segment>, file: array<Byte>, buffer: array<Byte>, min: nat)
    requires buffer != file && InFile(segments, file[..])
    requires forall s :: s in segments && s.Load() ==> min <= s.vaddr && s.vaddr + s.filesz <= min + buffer.Length
    requires forall k :: 0 <= k < buffer.Length ==> buffer[k] == 0
    modifies buffer
    ensures Holds(buffer[..], segments, file[..], min)
  {
    var i := 0;
    ghost var bytes := file[..];
    assert segments[..0] == [];
    while i < |segments|
      invariant i <= |segments| && file[..] == bytes
      invariant InFile(segments[..i], bytes) && Holds(buffer[..], segments[..i], bytes, min)
    {
      assert segments[..i + 1][..i] == segments[..i];
      assert segments[i] in segments;
      if segments[i].Load() {
        var relativeOffset := segments[i].vaddr - min;
        Memcpy(buffer, relativeOffset, file, segments[i].offset, segments[i].filesz);
      }
      i := i + 1;
    }
    assert segments[..|segments|] == segments;
  }

  // `memoryLeft` tells whether malloc has the bytes, when there are any.
  method LoadElfFile(kind: nat, entry: nat, segments: seq<Segment>, file: array<Byte>, memoryLeft: bool)
    returns (r: Result)
    requires WellFormed(segments) && InFile(segments, file[..])
    ensures var b := BoundsOf(segments);
            r.Loaded? <==> (kind == ET_EXEC || kind == ET_DYN) && U32(b.max - b.min) != 0 && memoryLeft
    ensures r.Loaded? ==>
              var b := BoundsOf(segments);
              && fresh(r.buffer) && r.buffer.Length == U32(b.max - b.min)
              && r.entry == U32(entry - b.min)
              && Holds(r.buffer[..], segments, file[..], b.min)
  {
    if kind != ET_EXEC && kind != ET_DYN { return Refused; }
    BoundsAreBounds(segments);
    var b := FindBounds(segments);
    var bufferSize := U32(b.max - b.min);
    // malloc gives nothing for nothing.
    if bufferSize == 0 || !memoryLeft { return Refused; }
    var buffer := new Byte[bufferSize];
    Memset(buffer, 0, 0, bufferSize);
    SegmentsFit(b, segments);
    CopySegments(segments, file, buffer, b.min);
    return Loaded(buffer, U32(entry - b.min));
  }

  /** With something to load, the buffer is a whole number of pages that contains every segment. */
  lemma BufferHoldsSegments(segments: seq<Segment>)
    requires WellFormed(segments) && SomeLoad(segments)
    ensures var b := BoundsOf(segments);
            && b.min <= b.max && U32(b.max - b.min) == b.max - b.min && (b.max - b.min) % PAGE_SIZE == 0
            && forall s :: s in segments && s.Load() ==> Covers(b, s)
  {
    hide BoundsOf, U32, WellFormed;
    BoundsAreBounds(segments);
    var b := BoundsOf(segments);
    var s :| s in segments && s.Load();
    assert Covers(b, s);
    var t :| t in segments && t.Load() && b.max < t.vaddr + t.memsz + b.align;
    WidestAlign(b, segments, t);
    PagesSubtract(b.max, b.min);
  }

  lemma PagesSubtract(x: nat, y: nat)
    requires x % PAGE_SIZE == 0 && y % PAGE_SIZE == 0 && y <= x
    ensures (x - y) % PAGE_SIZE == 0
  {}

  lemma WidestAlign(b: Bounds, segments: seq<Segment>, t: Segment)
    requires WellFormed(segments) && Aligned(b, segments) && t in segments && t.Load()
    ensures t.vaddr + t.memsz + b.align - 1 < TWO_TO_32
  {
    if b.align == PAGE_SIZE {
      assert t.vaddr + t.memsz + MaxAlign(PAGE_SIZE, t) - 1 < TWO_TO_32;
    } else {
      var u :| u in segments && u.Load() && u.align == b.align;
      assert t.vaddr + t.memsz + MaxAlign(PAGE_SIZE, u) - 1 < TWO_TO_32;
    }
  }

  lemma SegmentsFit(b: Bounds, segments: seq<Segment>)
    requires WellFormed(segments) && b == BoundsOf(segments)
    ensures forall s :: s in segments && s.Load() ==>
              b.min <= s.vaddr && s.vaddr + s.filesz <= b.min + U32(b.max - b.min)
  {
    if SomeLoad(segments) { BufferHoldsSegments(segments); }
  }

  // With nothing to load, the initial bounds wrap around to a buffer of one byte.
  lemma NothingToLoadIsOneByte(segments: seq<Segment>)
    requires WellFormed(segments) && forall s :: s in segments ==> !s.Load()
    ensures var b := BoundsOf(segments); U32(b.max - b.min) == 1
  {
    BoundsAreBounds(segments);
  }
}
