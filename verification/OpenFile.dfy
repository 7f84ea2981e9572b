/** An open file: a descriptor's position over the bytes its inode counts, moved by the read,
    write and seek system calls. */
module OpenFile {
  import opened Words
  import opened Bytes
  import opened FileBlocks

  const O_WRONLY: nat := 0x1
  const O_RDWR: nat := 0x2
  const O_APPEND: nat := 0x8

  const SEEK_SET: nat := 0
  const SEEK_CUR: nat := 1
  const SEEK_END: nat := 2

  const TWO_TO_31: int := 0x8000_0000

  predicate HasFlag(flags: nat, flag: nat)
    requires flag > 0
  {
    flags / flag % 2 == 1
  }

  predicate MayWrite(flags: nat) {
    HasFlag(flags, O_WRONLY) || HasFlag(flags, O_RDWR)
  }

  predicate MayRead(flags: nat) {
    !HasFlag(flags, O_WRONLY)
  }

  // Whatever other flags are set, the lowest two decide: 0 reads, 1 and 3 write, 2 does both.
  lemma AccessModes(flags: nat)
    ensures MayWrite(flags) <==> flags % 4 != 0
    ensures MayRead(flags) <==> flags % 4 == 0 || flags % 4 == 2
    ensures HasFlag(flags, O_APPEND) <==> flags % 16 >= 8
  {
    BitOf(flags, 2);
    BitOf(flags, 8);
    assert flags / 1 == flags;
  }

  lemma BitOf(flags: nat, flag: nat)
    requires flag == 2 || flag == 8
    ensures flags / flag % 2 == 1 <==> flags % (2 * flag) >= flag
  {
    if flag == 2 { QuarterOf(flags); } else { SixteenthOf(flags); }
  }

  lemma QuarterOf(flags: nat)
    ensures flags / 2 % 2 == flags % 4 / 2
  {}

  lemma SixteenthOf(flags: nat)
    ensures flags / 8 % 2 == flags % 16 / 8
  {}

  type Int32 = x: int | -TWO_TO_31 <= x < TWO_TO_31

  // A 32-bit result read as signed.
  function I32(x: int): Int32 {
    var u := U32(x);
    if u < TWO_TO_31 then u else u - TWO_TO_32
  }

  // ---------- A byte sequence with a position ----------

  datatype File = File(content: seq<Byte>, position: nat)

  // `content` with `text` over the bytes from `at` on, longer where the text runs past the end.
  function Overwrite(content: seq<Byte>, at: nat, text: seq<Byte>): (r: seq<Byte>)
    requires at <= |content|
    ensures |r| == if at + |text| > |content| then at + |text| else |content|
    ensures r[at..at + |text|] == text
    ensures forall k :: 0 <= k < |content| && !(at <= k < at + |text|) ==> r[k] == content[k]
  {
    content[..at] + text + if at + |text| <= |content| then content[at + |text|..] else []
  }

  function WriteAt(f: File, append: bool): nat {
    if append then |f.content| else f.position
  }

  function Written(f: File, append: bool, text: seq<Byte>): File
    requires WriteAt(f, append) <= |f.content|
  {
    var at := WriteAt(f, append);
    File(Overwrite(f.content, at, text), at + |text|)
  }

  // The bytes a read of `len` hands over.
  function Got(f: File, len: nat): seq<Byte> {
    if f.position > |f.content| then []
    else f.content[f.position..][..Min(len, |f.content| - f.position)]
  }

  function Min(a: nat, b: nat): nat {
    if a < b then a else b
  }

  function Advanced(f: File, len: nat): File {
    f.(position := f.position + |Got(f, len)|)
  }

  // The position a seek asks for, before it is made to fit.
  function Target(f: File, distance: int, whence: nat): int {
    (if whence == SEEK_SET then 0 else if whence == SEEK_CUR then f.position else |f.content|) + distance
  }

  function AtLeastZero(x: int): nat {
    if x < 0 then 0 else x
  }

  // seek: what it returns and the position it leaves.
  function Sought(f: File, distance: Int32, whence: nat): (r: (int, File))
    ensures r.1.content == f.content
  {
    if whence == SEEK_SET then
      if distance < 0 then (-1 as int, f.(position := 0)) else (distance as int, f.(position := distance))
    else if whence == SEEK_CUR || whence == SEEK_END then
      var to := AtLeastZero(I32(Target(f, distance, whence)));
      (to as int, f.(position := to))
    else (-1 as int, f)
  }

  /** A seek goes where it was asked to, or to the start when that lies before it, exactly when the
      target fits an int32; a target past that wraps below zero and lands on the start. */
  lemma SeekIsExactIff(f: File, distance: Int32, whence: nat)
    requires f.position < TWO_TO_31 && |f.content| < TWO_TO_31 && whence <= SEEK_END
    ensures Sought(f, distance, whence).1.position == AtLeastZero(Target(f, distance, whence))
            <==> Target(f, distance, whence) < TWO_TO_31
  {}

  /** Seeking nowhere from the end returns the file's size, and from the position the position; and
      seeking to the size and back to a position is as good as seeking there. */
  lemma SeekTells(f: File, to: nat)
    requires f.position < TWO_TO_31 && |f.content| < TWO_TO_31 && to < TWO_TO_31
    ensures Sought(f, 0, SEEK_END) == (|f.content|, f.(position := |f.content|))
    ensures Sought(f, 0, SEEK_CUR) == (f.position, f)
    ensures Sought(f, to, SEEK_SET) == (to, f.(position := to))
    ensures to <= |f.content| ==>
              Sought(Sought(f, 0, SEEK_END).1, to - |f.content|, SEEK_CUR) == Sought(f, to, SEEK_SET)
  {}

  /** What a seek returns is the position it leaves, or -1: for an absolute position before the start,
      and for an unknown origin, when nothing moves. */
  lemma SeekReturnsPosition(f: File, distance: Int32, whence: nat)
    ensures var (result, g) := Sought(f, distance, whence);
            && (whence > SEEK_END ==> result == -1 && g == f)
            && (whence == SEEK_SET && distance < 0 ==> result == -1 && g.position == 0)
            && (whence <= SEEK_END && (whence == SEEK_SET ==> distance >= 0) ==> result == g.position)
  {}

  /** Appended text comes after all there was, wherever the position is, and the position after it. */
  lemma AppendedIsLast(f: File, text: seq<Byte>)
    ensures Written(f, true, text) == File(f.content + text, |f.content + text|)
  {}

  // syscall_read's count, in the kernel's 32-bit arithmetic.
  function BytesRead(size: nat, offset: nat, len: nat): nat {
    if size < U32(offset + len) then U32(size - offset) else len
  }

  /** The count is the number of bytes there are to read exactly when the position has not passed
      the end and position plus length does not wrap. */
  lemma ReadCountIff(f: File, len: nat)
    requires |f.content| < TWO_TO_32 && f.position < TWO_TO_31 && len < TWO_TO_32
    ensures BytesRead(|f.content|, f.position, len) == |Got(f, len)|
            <==> f.position <= |f.content| && f.position + len < TWO_TO_32
  {}

  /** Writing, seeking back and reading as much returns what was written. */
  lemma WriteSeekReadReturns(f: File, append: bool, text: seq<Byte>)
    requires WriteAt(f, append) <= |f.content| && WriteAt(f, append) + |text| < TWO_TO_31
    ensures var w := Written(f, append, text);
            && Got(Sought(w, WriteAt(f, append), SEEK_SET).1, |text|) == text
            && Got(Sought(w, -|text|, SEEK_CUR).1, |text|) == text
  {
    var at := WriteAt(f, append);
    var c := Written(f, append, text).content;
    assert c[at..][..|text|] == c[at..at + |text|];
  }

  lemma GotIsASlice(f: File, len: nat)
    requires f.position <= |f.content|
    ensures Got(f, len) == f.content[f.position..f.position + Min(len, |f.content| - f.position)]
  {}

  lemma SliceThenRest(s: seq<Byte>, i: nat, j: nat)
    requires i <= j <= |s|
    ensures s[i..j] + s[j..] == s[i..]
  {}

  // Reads of `len` one after another until one returns nothing.
  function Drain(f: File, len: nat): seq<Byte>
    decreases |f.content| - f.position
  {
    var got := Got(f, len);
    if got == [] then [] else got + Drain(Advanced(f, len), len)
  }

  /** Reading until nothing comes back yields the rest of the file, whatever the buffer's size. */
  lemma {:induction false} DrainIsTheRest(f: File, len: nat)
    requires f.position <= |f.content| && len > 0
    ensures Drain(f, len) == f.content[f.position..]
    decreases |f.content| - f.position
  {
    if f.position < |f.content| {
      var n := Min(len, |f.content| - f.position);
      GotIsASlice(f, len);
      DrainIsTheRest(Advanced(f, len), len);
      SliceThenRest(f.content, f.position, f.position + n);
    }
  }

  // ---------- Runs over one descriptor ----------

  datatype Op = Write(text: seq<Byte>) | Read(len: nat) | Seek(distance: Int32, whence: nat)

  // What an operation relies on: that the position has not been moved past the end, and a read's
  // end does not wrap; for reads the exact condition of ReadCountIff.
  predicate Ready(f: File, append: bool, op: Op) {
    match op
    case Write(text) => WriteAt(f, append) <= |f.content| && WriteAt(f, append) + |text| < TWO_TO_31
    case Read(len) => f.position <= |f.content| && f.position + len < TWO_TO_32
    case Seek(_, _) => true
  }

  function Step(f: File, append: bool, op: Op): File
    requires Ready(f, append, op)
  {
    match op
    case Write(text) => Written(f, append, text)
    case Read(len) => Advanced(f, len)
    case Seek(distance, whence) => Sought(f, distance, whence).1
  }

  // Where an operation leaves the position: past the bytes written or read, which are no more than
  // there are, or where a seek puts it; only a write changes the contents.
  lemma StepMoves(f: File, append: bool, op: Op)
    requires Ready(f, append, op)
    ensures var g := Step(f, append, op);
            match op
            case Write(text) => g.position == (if append then |f.content| else f.position) + |text|
            case Read(len) =>
              g.content == f.content
              && g.position == if f.position + len <= |f.content| then f.position + len else |f.content|
            case Seek(distance, whence) =>
              g.content == f.content
              && (f.position < TWO_TO_31 && |f.content| < TWO_TO_31 && whence <= SEEK_END
                  && Target(f, distance, whence) < TWO_TO_31 ==>
                    g.position == AtLeastZero(Target(f, distance, whence)))
  {
    if op.Seek? && f.position < TWO_TO_31 && |f.content| < TWO_TO_31 && op.whence <= SEEK_END {
      SeekIsExactIff(f, op.distance, op.whence);
    }
  }

  predicate Runs(f: File, append: bool, ops: seq<Op>)
    decreases ops
  {
    ops == [] || (Ready(f, append, ops[0]) && Runs(Step(f, append, ops[0]), append, ops[1..]))
  }

  function Run(f: File, append: bool, ops: seq<Op>): File
    requires Runs(f, append, ops)
    decreases ops
  {
    if ops == [] then f else Run(Step(f, append, ops[0]), append, ops[1..])
  }

  datatype Option<T> = None | Some(value: T)

  // What the last write to cover byte k put there.
  function LastWrite(f: File, append: bool, ops: seq<Op>, k: nat): Option<Byte>
    requires Runs(f, append, ops)
    decreases ops
  {
    if ops == [] then None
    else
      var later := LastWrite(Step(f, append, ops[0]), append, ops[1..], k);
      if later.Some? then later
      else if ops[0].Write? && WriteAt(f, append) <= k < WriteAt(f, append) + |ops[0].text|
      then Some(ops[0].text[k - WriteAt(f, append)])
      else None
  }

  /** After any run of seeks, and of reads and writes from no further than the end, each byte of the
      file is the one the last write over it put there, and a byte no write covered is the one the file was opened with. */
  lemma {:induction false} LastWriteWins(f: File, append: bool, ops: seq<Op>, k: nat)
    requires Runs(f, append, ops) && k < |Run(f, append, ops).content|
    ensures match LastWrite(f, append, ops, k)
            case Some(b) => Run(f, append, ops).content[k] == b
            case None => k < |f.content| && Run(f, append, ops).content[k] == f.content[k]
    decreases ops
  {
    if ops != [] {
      var op, g := ops[0], Step(f, append, ops[0]);
      LastWriteWins(g, append, ops[1..], k);
      if op.Write? && LastWrite(g, append, ops[1..], k) == None {
        var at := WriteAt(f, append);
        if at <= k < at + |op.text| {
          assert g.content[k] == g.content[at..at + |op.text|][k - at];
        }
      }
    }
  }

  /** A run never shortens the file. */
  lemma {:induction false} RunsNeverShorten(f: File, append: bool, ops: seq<Op>)
    requires Runs(f, append, ops)
    ensures |f.content| <= |Run(f, append, ops).content|
    decreases ops
  {
    if ops != [] { RunsNeverShorten(Step(f, append, ops[0]), append, ops[1..]); }
  }

  /** What a write saves, a later load brings back: the blocks saved hold the file, so loading them
      anywhere yields its bytes. */
  lemma SavedIsLoaded(disk: seq<Byte>, extents: seq<Extent>, data: seq<Byte>, size: nat,
                      elsewhere: seq<Byte>, to: nat)
    requires Proper(extents, BytesToBlocks(size))
    requires InBounds(extents, |disk|, |data|, 0) && InBounds(extents, |disk|, |elsewhere|, to)
    requires BytesToBlocks(size) * BLOCK_SIZE <= |data|
    requires to + BytesToBlocks(size) * BLOCK_SIZE <= |elsewhere|
    ensures var total := BytesToBlocks(size);
            size <= |data| && to + size <= |elsewhere| &&
            Load(elsewhere, extents, total, Save(disk, extents, total, data, 0), to)[to..to + size] == data[..size]
  {
    hide Save, Load, Proper, InBounds, BytesToBlocks;
    var total := BytesToBlocks(size);
    BlocksHoldBytes(size);
    LoadAfterSave(disk, extents, total, data, 0, elsewhere, to);
    PatchedSlice(elsewhere, to, data[..total * BLOCK_SIZE], size);
    assert data[..total * BLOCK_SIZE][..size] == data[..size];
  }

  lemma PatchedSlice(s: seq<Byte>, at: nat, t: seq<Byte>, n: nat)
    requires at + |t| <= |s| && n <= |t|
    ensures Patch(s, at, t)[at..at + n] == t[..n]
  {}

  // Appending is writing with the position moved to the end.
  lemma WrittenThere(f: File, append: bool, text: seq<Byte>)
    requires WriteAt(f, append) <= |f.content|
    ensures Written(f, append, text) == Written(f.(position := WriteAt(f, append)), false, text)
  {}

  // ---------- The system calls ----------

  class OpenFile {
    // The pages the file was loaded to when it was opened.
    const data: array<Byte>
    const extents: seq<Extent>
    const flags: nat
    var offset: int
    var sizeBytes: nat
    var refCount: nat

    predicate Valid()
      reads this
    {
      0 <= offset < TWO_TO_31 && sizeBytes <= data.Length < TWO_TO_31
    }

    function Value(): File
      reads this, data
      requires Valid()
    {
      File(data[..sizeBytes], offset)
    }

    method Write(buf: array<Byte>, len: nat, disk: Disk) returns (written: int)
      requires Valid() && data != buf && data != disk.sectors && buf != disk.sectors
      requires len <= buf.Length
      requires WriteAt(Value(), HasFlag(flags, O_APPEND)) <= sizeBytes
      requires WriteAt(Value(), HasFlag(flags, O_APPEND)) + len <= data.Length
      requires InBounds(extents, disk.sectors.Length, data.Length, 0)
      modifies this`offset, this`sizeBytes, data, disk.sectors
      ensures Valid()
      ensures refCount == 0 || !MayWrite(flags) ==>
                written == -1 && Value() == old(Value()) && disk.sectors[..] == old(disk.sectors[..])
      ensures refCount != 0 && MayWrite(flags) ==>
                && written == len
                && Value() == Written(old(Value()), HasFlag(flags, O_APPEND), buf[..len])
                && disk.sectors[..] == Save(old(disk.sectors[..]), extents, BytesToBlocks(sizeBytes), data[..], 0)
      ensures buf[..] == old(buf[..])
    {
      hide Written, Overwrite, Save, InBounds, BytesToBlocks;
      if refCount == 0 || !MayWrite(flags) { return -1; }
      if HasFlag(flags, O_APPEND) { offset := sizeBytes; }
      WriteBytes(buf, len);
      WrittenThere(old(Value()), HasFlag(flags, O_APPEND), buf[..len]);
      disk.FsSaveFile(sizeBytes, extents, data, 0);
      return len;
    }

    // The bytes are copied at the position, which moves past them and may take the size with it.
    method WriteBytes(buf: array<Byte>, len: nat)
      requires Valid() && data != buf && len <= buf.Length
      requires offset <= sizeBytes && offset + len <= data.Length
      modifies this`offset, this`sizeBytes, data
      ensures Valid() && Value() == Written(old(Value()), false, buf[..len])
    {
      ghost var before, at := Value(), offset;
      Memcpy32(data, offset, buf, 0, len);
      offset := offset + len;
      if offset > sizeBytes { sizeBytes := offset; }
      assert data[..sizeBytes] == Overwrite(before.content, at, buf[..len]);
    }

    method Read(buf: array<Byte>, len: nat) returns (count: int)
      requires Valid() && data != buf && len <= buf.Length < TWO_TO_31
      requires offset <= sizeBytes
      modifies this`offset, buf
      ensures Valid()
      ensures refCount == 0 || !MayRead(flags) ==>
                count == -1 && Value() == old(Value()) && buf[..] == old(buf[..])
      ensures refCount != 0 && MayRead(flags) ==>
                var got := Got(old(Value()), len);
                count == |got| && Value() == Advanced(old(Value()), len)
                && buf[..] == Patch(old(buf[..]), 0, got)
    {
      hide Got, BytesRead;
      if refCount == 0 || !MayRead(flags) { return -1; }
      var bytesRead := BytesRead(sizeBytes, offset, len);
      ReadCountIff(Value(), len);
      GotIsASlice(Value(), len);
      assert data[..sizeBytes][offset..offset + bytesRead] == data[offset..offset + bytesRead];
      Memcpy(buf, 0, data, offset, bytesRead);
      offset := offset + bytesRead;
      return bytesRead;
    }

    method Seek(distance: Int32, whence: nat) returns (position: int)
      requires Valid()
      modifies this`offset
      ensures Valid()
      ensures refCount == 0 ==> position == -1 && Value() == old(Value())
      ensures refCount != 0 ==> (position, Value()) == Sought(old(Value()), distance, whence)
    {
      if refCount == 0 { return -1; }
      if whence == SEEK_SET {
        if distance < 0 {
          offset := 0;
          return -1;
        }
        offset := distance;
      } else if whence == SEEK_CUR {
        offset := I32(offset + distance);
        if offset < 0 { offset := 0; }
      } else if whence == SEEK_END {
        offset := I32(sizeBytes + distance);
        if offset < 0 { offset := 0; }
      } else {
        return -1;
      }
      return offset;
    }
  }
}
