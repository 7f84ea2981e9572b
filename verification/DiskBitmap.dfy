/** The scan for a free bit in the bitmap blocks of the file system. */
module DiskBitmap {
  import opened Words

  const BITS_PER_BLOCK: nat := 32768
  const WORDS_PER_BLOCK: nat := 1024

  type BitBlock = words: seq<Word> | |words| == WORDS_PER_BLOCK witness seq(WORDS_PER_BLOCK, _ => ALL_ONES)

  // The first clear bit from `from` on, or one past the last bit.
  function FirstClear(words: seq<Word>, from: nat): (r: nat)
    requires from <= 32 * |words|
    ensures from <= r <= 32 * |words|
    ensures r < 32 * |words| ==> !IsSet(words, r)
    ensures forall b: nat :: from <= b < r ==> IsSet(words, b)
    decreases 32 * |words| - from
  {
    if from == 32 * |words| || !IsSet(words, from) then from else FirstClear(words, from + 1)
  }

  // What the kernel's scan returns: the bit's number in its own block, or 0.
  function Found(blocks: seq<BitBlock>): (r: nat)
    ensures r < BITS_PER_BLOCK
  {
    if blocks == [] then 0
    else if FirstClear(blocks[0], 0) < BITS_PER_BLOCK then FirstClear(blocks[0], 0)
    else Found(blocks[1..])
  }

  // Bit n of the bitmap, numbered across its blocks, is clear.
  predicate IsClear(blocks: seq<BitBlock>, n: nat) {
    n / BITS_PER_BLOCK < |blocks| && !IsSet(blocks[n / BITS_PER_BLOCK], n % BITS_PER_BLOCK)
  }

  // The least clear bit of the bitmap, or 0 when it has none.
  ghost predicate IsFirstFree(blocks: seq<BitBlock>, r: nat) {
    if exists n: nat :: IsClear(blocks, n)
    then IsClear(blocks, r) && forall n: nat :: IsClear(blocks, n) ==> r <= n
    else r == 0
  }

  predicate Full(block: BitBlock) {
    FirstClear(block, 0) == BITS_PER_BLOCK
  }

  lemma {:induction false} FoundInFullBlocks(blocks: seq<BitBlock>)
    requires forall i :: 0 <= i < |blocks| ==> Full(blocks[i])
    ensures Found(blocks) == 0
  {
    if blocks != [] {
      assert Full(blocks[0]);
      assert forall i :: 0 <= i < |blocks[1..]| ==> blocks[1..][i] == blocks[i + 1];
      FoundInFullBlocks(blocks[1..]);
    }
  }

  lemma FoundInFirstBlock(blocks: seq<BitBlock>)
    requires blocks != [] && !Full(blocks[0])
    ensures IsFirstFree(blocks, Found(blocks))
  {
    var r := Found(blocks);
    assert IsClear(blocks, r);
    forall n: nat | n < r ensures !IsClear(blocks, n) {
      assert IsSet(blocks[0], n);
    }
  }

  lemma NothingToFind(blocks: seq<BitBlock>)
    requires forall i :: 0 <= i < |blocks| ==> Full(blocks[i])
    ensures IsFirstFree(blocks, Found(blocks))
  {
    FoundInFullBlocks(blocks);
    forall n: nat ensures !IsClear(blocks, n) {
      if n / BITS_PER_BLOCK < |blocks| { assert Full(blocks[n / BITS_PER_BLOCK]); }
    }
  }

  lemma FoundInLaterBlock(blocks: seq<BitBlock>, i: nat)
    requires i < |blocks| && Full(blocks[0]) && !Full(blocks[i])
    ensures !IsFirstFree(blocks, Found(blocks))
  {
    hide Found;
    var r, bit := Found(blocks), FirstClear(blocks[i], 0);
    var n: nat := i * BITS_PER_BLOCK + bit;
    assert n / BITS_PER_BLOCK == i && n % BITS_PER_BLOCK == bit;
    assert IsClear(blocks, n);
    assert r / BITS_PER_BLOCK == 0 && r % BITS_PER_BLOCK == r;
    assert IsSet(blocks[0], r);
  }

  /** The scan forgets which block it found the bit in, so its answer is the first free bit exactly
      when the first block has one or no block has. */
  lemma FoundIsFirstFreeIff(blocks: seq<BitBlock>)
    requires blocks != []
    ensures IsFirstFree(blocks, Found(blocks))
            <==> !Full(blocks[0]) || forall i :: 0 <= i < |blocks| ==> Full(blocks[i])
  {
    hide Found, IsFirstFree, Full;
    if !Full(blocks[0]) {
      FoundInFirstBlock(blocks);
    } else if forall i :: 0 <= i < |blocks| ==> Full(blocks[i]) {
      NothingToFind(blocks);
    } else {
      var i :| 0 <= i < |blocks| && !Full(blocks[i]);
      FoundInLaterBlock(blocks, i);
    }
  }

  // r is the least bit of a block that is not set, or 0 when all of them are.
  ghost predicate IsLeastClear(bits: set<nat>, r: nat) {
    && (forall b: nat :: b < r ==> b in bits)
    && (r in bits ==> r == 0 && forall b: nat :: b < BITS_PER_BLOCK ==> b in bits)
  }

  // What is found in a bitmap of one block.
  lemma FoundIsLeastClear(block: BitBlock)
    ensures IsLeastClear(SetBits(block), Found([block]))
    ensures Found([block]) == 0 || Found([block]) !in SetBits(block)
  {
    assert [block][1..] == [];
    var r := FirstClear(block, 0);
    forall b: nat | b < r ensures b in SetBits(block) { assert IsSet(block, b); }
  }
}
