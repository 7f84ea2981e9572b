/** A 32-bit word of a bitmap, as its bits from the least significant up.
    `w |= 1 << k` is OrBit, `w &= ~(1 << k)` is AndNotBit and 0xFFFFFFFF is ALL_ONES. */
module Words {
  type Word = w: seq<bool> | |w| == 32 witness seq(32, _ => false)
  type Index = k: nat | k < 32

  const ALL_ONES: Word := seq(32, _ => true)
  const TWO_TO_32: nat := 0x1_0000_0000
  const PAGE_SIZE: nat := 4096

  function OrBit(w: Word, k: Index): Word {
    w[k := true]
  }

  function AndNotBit(w: Word, k: Index): Word {
    w[k := false]
  }

  // An unsigned 32-bit result.
  function U32(x: int): (r: nat)
    ensures r < TWO_TO_32
    ensures 0 <= x < TWO_TO_32 ==> r == x
  {
    x % TWO_TO_32
  }

  lemma U32Adds(x: int, y: int)
    ensures U32(U32(x) + y) == U32(x + y)
  {}

  // A counter and the quantity it tracks may wrap separately and still keep their distance.
  lemma U32KeepsDistance(u: int, k: int, n: int)
    ensures U32(U32(u + n) - (k + n)) == U32(u - k)
  {
    U32Adds(u + n, -(k + n));
    assert u + n - (k + n) == u - k;
  }

  // Bit b of a bitmap of words.
  predicate IsSet(words: seq<Word>, b: nat)
    requires b < 32 * |words|
  {
    words[b / 32][b % 32]
  }

  // The bits of a bitmap that are set.
  ghost function SetBits(words: seq<Word>): set<nat> {
    set b: nat | b < 32 * |words| && IsSet(words, b)
  }

  function SetBit(words: seq<Word>, b: nat): (r: seq<Word>)
    requires b < 32 * |words|
    ensures |r| == |words|
  {
    words[b / 32 := OrBit(words[b / 32], b % 32)]
  }

  function ClearBit(words: seq<Word>, b: nat): (r: seq<Word>)
    requires b < 32 * |words|
    ensures |r| == |words|
  {
    words[b / 32 := AndNotBit(words[b / 32], b % 32)]
  }

  lemma SetBitAt(words: seq<Word>, b: nat, c: nat)
    requires b < 32 * |words| && c < 32 * |words|
    ensures IsSet(SetBit(words, b), c) <==> b == c || IsSet(words, c)
    ensures IsSet(ClearBit(words, b), c) <==> b != c && IsSet(words, c)
  {
    if b / 32 == c / 32 && b % 32 == c % 32 {
      assert b == c;
    }
  }

  // Setting or clearing one bit changes the set of set bits by that bit and no other.
  lemma SetBitsUpdate(words: seq<Word>, b: nat)
    requires b < 32 * |words|
    ensures SetBits(SetBit(words, b)) == SetBits(words) + {b}
    ensures SetBits(ClearBit(words, b)) == SetBits(words) - {b}
  {
    forall c: nat | c < 32 * |words|
      ensures IsSet(SetBit(words, b), c) <==> b == c || IsSet(words, c)
      ensures IsSet(ClearBit(words, b), c) <==> b != c && IsSet(words, c)
    {
      SetBitAt(words, b, c);
    }
  }
}
