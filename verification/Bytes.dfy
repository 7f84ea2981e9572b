/** string.h's memory functions on byte arrays. */
module Bytes {
  type Byte = b: nat | b < 256

  // `s` with `len` bytes from `at` on set to v.
  function Fill(s: seq<Byte>, at: nat, v: Byte, len: nat): (r: seq<Byte>)
    requires at + len <= |s|
    ensures |r| == |s|
    ensures forall i :: 0 <= i < |s| ==> r[i] == if at <= i < at + len then v else s[i]
  {
    s[..at] + seq(len, _ => v) + s[at + len..]
  }

  // `s` with the bytes from `at` on replaced by `t`.
  function Patch(s: seq<Byte>, at: nat, t: seq<Byte>): (r: seq<Byte>)
    requires at + |t| <= |s|
    ensures |r| == |s|
    ensures forall i :: 0 <= i < |s| ==> r[i] == if at <= i < at + |t| then t[i - at] else s[i]
  {
    s[..at] + t + s[at + |t|..]
  }

  method Memset(buffer: array<Byte>, at: nat, v: Byte, len: nat)
    requires at + len <= buffer.Length
    modifies buffer
    ensures buffer[..] == Fill(old(buffer[..]), at, v, len)
  {
    var p, left := at, len;
    while left > 0
      invariant 0 <= left <= len && p == at + len - left
      invariant forall i :: 0 <= i < buffer.Length ==>
                  buffer[i] == if at <= i < p then v else old(buffer[..])[i]
    {
      buffer[p] := v;
      p := p + 1;
      left := left - 1;
    }
  }

  method Memcpy(dst: array<Byte>, dstAt: nat, src: array<Byte>, srcAt: nat, len: nat)
    requires dst != src && dstAt + len <= dst.Length && srcAt + len <= src.Length
    modifies dst
    ensures dst[..] == Patch(old(dst[..]), dstAt, src[srcAt..srcAt + len])
  {
    var i := 0;
    while i < len
      invariant i <= len
      invariant forall k :: 0 <= k < dst.Length ==>
                  dst[k] == if dstAt <= k < dstAt + i then src[srcAt + k - dstAt] else old(dst[..])[k]
    {
      dst[dstAt + i] := src[srcAt + i];
      i := i + 1;
    }
  }

  // ---------- memcpy32 ----------

  // The little-endian word at address `at`.
  function LoadWord(s: seq<Byte>, at: nat): nat
    requires at + 4 <= |s|
  {
    var b0: int, b1: int, b2: int, b3: int := s[at], s[at + 1], s[at + 2], s[at + 3];
    b0 + 0x100 * b1 + 0x1_0000 * b2 + 0x100_0000 * b3
  }

  // Byte k of a word.
  function WordByte(w: nat, k: nat): Byte
    requires k < 4
  {
    if k == 0 then w % 0x100
    else if k == 1 then w / 0x100 % 0x100
    else if k == 2 then w / 0x1_0000 % 0x100
    else w / 0x100_0000 % 0x100
  }

  method StoreWord(a: array<Byte>, at: nat, w: nat)
    requires at + 4 <= a.Length
    modifies a
    ensures a[..] == Patch(old(a[..]), at, [WordByte(w, 0), WordByte(w, 1), WordByte(w, 2), WordByte(w, 3)])
  {
    a[at] := WordByte(w, 0);
    a[at + 1] := WordByte(w, 1);
    a[at + 2] := WordByte(w, 2);
    a[at + 3] := WordByte(w, 3);
  }

  // A number's low byte and what is above it.
  lemma LowByte(b: Byte, above: nat)
    ensures (b + 0x100 * above) % 0x100 == b && (b + 0x100 * above) / 0x100 == above
  {}

  // A word loaded and stored is four bytes copied.
  lemma WordIsItsBytes(s: seq<Byte>, at: nat)
    requires at + 4 <= |s|
    ensures forall k: nat :: k < 4 ==> WordByte(LoadWord(s, at), k) == s[at + k]
  {
    var w3: nat := s[at + 3];
    var w2: nat := s[at + 2] + 0x100 * w3;
    var w1: nat := s[at + 1] + 0x100 * w2;
    LowByte(s[at], w1);
    LowByte(s[at + 1], w2);
    LowByte(s[at + 2], w3);
    var w := LoadWord(s, at);
    assert w == s[at] + 0x100 * w1;
    assert w / 0x100 == w1 && w / 0x1_0000 == w2 && w / 0x100_0000 == w3;
  }

  // dst[i] = src[i] on words.
  method CopyWord(dst: array<Byte>, dstAt: nat, src: array<Byte>, srcAt: nat)
    requires dst != src && dstAt + 4 <= dst.Length && srcAt + 4 <= src.Length
    modifies dst
    ensures forall k :: 0 <= k < dst.Length ==>
              dst[k] == if dstAt <= k < dstAt + 4 then src[srcAt + k - dstAt] else old(dst[k])
  {
    WordIsItsBytes(src[..], srcAt);
    ghost var before := dst[..];
    StoreWord(dst, dstAt, LoadWord(src[..], srcAt));
    forall k | 0 <= k < dst.Length
      ensures dst[k] == if dstAt <= k < dstAt + 4 then src[srcAt + k - dstAt] else before[k]
    {
      assert dst[k] == dst[..][k];
      if dstAt <= k < dstAt + 4 { assert src[..][srcAt + (k - dstAt)] == src[srcAt + k - dstAt]; }
    }
  }

  /** Copying by words, then the odd bytes, is copying by bytes. */
  method Memcpy32(dst: array<Byte>, dstAt: nat, src: array<Byte>, srcAt: nat, len: nat)
    requires dst != src && dstAt + len <= dst.Length && srcAt + len <= src.Length
    modifies dst
    ensures dst[..] == Patch(old(dst[..]), dstAt, src[srcAt..srcAt + len])
  {
    var i := 0;
    while i < len / 4
      invariant i <= len / 4
      invariant forall k :: 0 <= k < dst.Length ==>
                  dst[k] == if dstAt <= k < dstAt + 4 * i then src[srcAt + k - dstAt] else old(dst[k])
    {
      CopyWord(dst, dstAt + 4 * i, src, srcAt + 4 * i);
      i := i + 1;
    }
    i := i * 4;
    var j := 0;
    while j < len % 4
      invariant j <= len % 4 && i == len / 4 * 4 + j
      invariant forall k :: 0 <= k < dst.Length ==>
                  dst[k] == if dstAt <= k < dstAt + i then src[srcAt + k - dstAt] else old(dst[k])
    {
      dst[dstAt + i] := src[srcAt + i];
      i, j := i + 1, j + 1;
    }
  }
}
