/** The byte shuffle between eight words of eight DPUs and one word of the rank. */
module Transpose {
  import opened AddressMap
  import opened Bytes

  const GATHER: seq<nat> := [0, 8, 16, 24, 32, 40, 48, 56, 4, 12, 20, 28, 36, 44, 52, 60]
  const PERMUTE: seq<nat> := [0, 4, 1, 5, 2, 6, 3, 7, 8, 12, 9, 13, 10, 14, 11, 15]
  const SHUFFLE: seq<nat> := [0, 4, 8, 12, 1, 5, 9, 13, 2, 6, 10, 14, 3, 7, 11, 15]

  type Block = s: seq<byte> | |s| == 64 witness seq(64, _ => 0)

  /** Sixteen double words from the given byte positions. */
  function Gathered(s: Block): (r: Block) {
    seq(64, k requires 0 <= k < 64 => s[GATHER[k / 4] + k % 4])
  }

  /** The bytes of each 16-byte lane, rearranged within the lane. */
  function Shuffled(s: Block): (r: Block) {
    seq(64, k requires 0 <= k < 64 => s[k / 16 * 16 + SHUFFLE[k % 16]])
  }

  /** The sixteen double words, rearranged. */
  function Permuted(s: Block): (r: Block) {
    seq(64, k requires 0 <= k < 64 => s[4 * PERMUTE[k / 4] + k % 4])
  }

  function Interleaved(input: Block): (output: Block) {
    Permuted(Shuffled(Gathered(input)))
  }

  lemma PermutedAt(s: Block, a: nat, b: nat, h: nat, d: nat)
    requires a < 2 && b < 4 && h < 2 && d < 4
    ensures Permuted(s)[8 * (4 * a + b) + 4 * h + d] == s[4 * (8 * a + 4 * h + b) + d]
  {
    var i := 2 * (4 * a + b) + h;
    assert PERMUTE[i] == 8 * a + 4 * h + b;
    assert (4 * i + d) / 4 == i && (4 * i + d) % 4 == d;
  }

  lemma ShuffledAt(s: Block, lane: nat, b: nat, d: nat)
    requires lane < 4 && b < 4 && d < 4
    ensures Shuffled(s)[16 * lane + 4 * b + d] == s[16 * lane + 4 * d + b]
  {
    ShuffleIs(b, d);
    var x := 4 * b + d;
    assert (16 * lane + x) / 16 == lane && (16 * lane + x) % 16 == x;
  }

  lemma ShuffleIs(b: nat, d: nat)
    requires b < 4 && d < 4
    ensures SHUFFLE[4 * b + d] == 4 * d + b
  {
  }

  lemma GatheredAt(s: Block, a: nat, b: nat, h: nat, d: nat)
    requires a < 2 && b < 4 && h < 2 && d < 4
    ensures Gathered(s)[4 * (8 * a + 4 * h + d) + b] == s[8 * (4 * h + d) + 4 * a + b]
  {
    var i := 8 * a + 4 * h + d;
    assert GATHER[i] == 8 * (4 * h + d) + 4 * a;
    assert (4 * i + b) / 4 == i && (4 * i + b) % 4 == b;
  }

  /** The vector instructions transpose the 8 by 8 matrix of bytes. */
  lemma InterleavedIsTransposed(input: Block, row: nat, column: nat)
    requires row < 8 && column < 8
    ensures Interleaved(input)[8 * row + column] == input[8 * column + row]
  {
    hide Permuted, Shuffled, Gathered;
    var a, b, h, d := row / 4, row % 4, column / 4, column % 4;
    PermutedAt(Shuffled(Gathered(input)), a, b, h, d);
    ShuffledAt(Gathered(input), 2 * a + h, b, d);
    GatheredAt(input, a, b, h, d);
  }

  /** Doing it twice changes nothing. */
  lemma InterleavedTwice(input: Block)
    ensures Interleaved(Interleaved(input)) == input
  {
    hide Interleaved;
    forall k: nat | k < 64
      ensures Interleaved(Interleaved(input))[k] == input[k]
    {
      InterleavedIsTransposed(Interleaved(input), k / 8, k % 8);
      InterleavedIsTransposed(input, k % 8, k / 8);
      assert k == 8 * (k / 8) + k % 8;
    }
  }

  // ---------------------------------------------------------------- agreement with the address map

  /** The contents of the address space. */
  type Memory = bv64 -> byte

  function Index(x: bv64): (i: nat)
    requires x < 8
    ensures i < 8
  {
    if x == 0 then 0 else if x == 1 then 1 else if x == 2 then 2 else if x == 3 then 3
    else if x == 4 then 4 else if x == 5 then 5 else if x == 6 then 6 else 7
  }

  /** A block has been stored at a base address that is a multiple of 64. */
  ghost predicate BlockStored(after: Memory, before: Memory, base: bv64, block: Block) {
    forall a: bv64 ::
      after(a) == if SameBlock(a, base) then block[8 * Index((a >> 3) & 7) + Index(a & 7)] else before(a)
  }

  predicate SameBlock(a: bv64, base: bv64) {
    a >> 6 == base >> 6
  }

  /** The address of byte `b` of the word at `offset` of one DPU. */
  function ByteAddress(slice: bv64, dpu: bv64, offset: bv64, b: bv64): bv64 {
    Address(slice, dpu, offset | b)
  }

  ghost predicate IsByteAddress(a: bv64, dpu: bv64, offset: bv64) {
    exists slice: bv64, b: bv64 :: slice < 8 && b < 8 && ByteAddress(slice, dpu, offset, b) == a
  }

  /** The eight bytes from `offset` on of the eight DPUs with number `dpu` have been written one by one; input
      byte `8 * s + b` is byte `b` of slice `s`. */
  ghost predicate BytesWritten(after: Memory, before: Memory, dpu: bv64, offset: bv64, input: Block) {
    && (forall slice: bv64, b: bv64 | slice < 8 && b < 8 ::
          after(ByteAddress(slice, dpu, offset, b)) == input[8 * Index(slice) + Index(b)])
    && (forall a: bv64 | !IsByteAddress(a, dpu, offset) :: after(a) == before(a))
  }

  predicate IsWord(dpu: bv64, offset: bv64) {
    dpu < 8 && InMram(offset) && offset & 7 == 0
  }

  lemma ByteOffset(slice: bv64, dpu: bv64, offset: bv64, b: bv64)
    requires IsWord(dpu, offset) && slice < 8 && b < 8
    ensures dpu < 8 && offset & 7 == 0 && InMram(offset)
    ensures InRank(slice, dpu, offset | b) && InMram(offset | b) && (offset | b) & 7 == b
  {
  }

  /** The address of byte `b` of a slice in the block at `w`. */
  function Within(w: bv64, slice: bv64, b: bv64): bv64 {
    w | (b << 3) | slice
  }

  predicate AtBlock(w: bv64) {
    w & 63 == 0
  }

  /** The address of a word is a multiple of 64, and the low bits of the address of a byte are the number of the
      byte and the slice. */
  lemma ByteAddressIs(slice: bv64, dpu: bv64, offset: bv64, b: bv64)
    requires IsWord(dpu, offset) && slice < 8 && b < 8
    ensures ByteAddress(slice, dpu, offset, b) == Within(WordStart(dpu, offset), slice, b)
    ensures AtBlock(WordStart(dpu, offset))
  {
    hide *;
    ByteBits(slice, dpu, offset, b);
    WordBits(dpu, offset, Translate(offset));
    var x, w := ByteAddress(slice, dpu, offset, b), WordStart(dpu, offset);
    ByteOfWord(slice, dpu, Translate(offset), Translate(offset | b), b, x, w);
  }

  lemma ByteOfWord(slice: bv64, dpu: bv64, t: bv64, u: bv64, b: bv64, x: bv64, w: bv64)
    requires slice < 8 && dpu < 8 && b < 8 && u == t | b && t & 7 == 0 && InMram(t) && InMram(u)
    requires x == Bits(slice, dpu, u, b) && w == Bits(0, dpu, t, 0)
    ensures x == Within(w, slice, b) && AtBlock(w)
  {
    hide *;
    BitsOfByte(slice, dpu, t, u, b, x, w);
    BlockOfByte(slice, b, x, w);
  }

  lemma ByteBits(slice: bv64, dpu: bv64, offset: bv64, b: bv64)
    requires IsWord(dpu, offset) && slice < 8 && b < 8
    ensures dpu < 8 && InMram(Translate(offset)) && InMram(Translate(offset | b))
    ensures Translate(offset | b) == Translate(offset) | b && Translate(offset) & 7 == 0
    ensures ByteAddress(slice, dpu, offset, b) == Bits(slice, dpu, Translate(offset | b), b)
  {
    ByteOffset(slice, dpu, offset, b);
    ByteAddressUnfolds(slice, dpu, offset, b);
    hide *;
    var w := offset | b;
    TranslateFits(offset);
    TranslateFits(w);
    TranslateByte(offset, b);
    TranslateLow(offset);
    AddressBits(slice, dpu, w, Translate(w), b);
  }

  lemma ByteAddressUnfolds(slice: bv64, dpu: bv64, offset: bv64, b: bv64)
    ensures ByteAddress(slice, dpu, offset, b) == Address(slice, dpu, offset | b)
  {
    hide Address;
  }

  lemma WordBits(dpu: bv64, offset: bv64, t: bv64)
    requires IsWord(dpu, offset) && t == Translate(offset) && InMram(t)
    ensures WordStart(dpu, offset) == Bits(0, dpu, t, 0)
  {
    AddressBits(0, dpu, offset, t, 0);
    hide WordStart, Bits, Translate;
  }

  lemma BitsOfByte(slice: bv64, dpu: bv64, t: bv64, u: bv64, b: bv64, x: bv64, w: bv64)
    requires slice < 8 && dpu < 8 && b < 8 && u == t | b && t & 7 == 0 && InMram(t) && InMram(u)
    requires x == Bits(slice, dpu, u, b) && w == Bits(0, dpu, t, 0)
    ensures x == w | (b << 3) | slice && w & 63 == 0
  {
  }

  lemma BlockOfByte(slice: bv64, b: bv64, x: bv64, w: bv64)
    requires x == w | (b << 3) | slice && w & 63 == 0
    ensures x == Within(w, slice, b) && AtBlock(w)
  {
  }

  lemma InBlock(w: bv64, slice: bv64, b: bv64, x: bv64)
    requires slice < 8 && b < 8 && AtBlock(w) && x == Within(w, slice, b)
    ensures SameBlock(x, w) && (x >> 3) & 7 == b && x & 7 == slice
  {
  }

  lemma FromBlock(w: bv64, a: bv64)
    requires SameBlock(a, w) && AtBlock(w)
    ensures a & 7 < 8 && (a >> 3) & 7 < 8 && Within(w, a & 7, (a >> 3) & 7) == a
  {
  }

  lemma AddressInWord(slice: bv64, dpu: bv64, offset: bv64, b: bv64)
    requires IsWord(dpu, offset) && slice < 8 && b < 8
    ensures var x := ByteAddress(slice, dpu, offset, b);
            SameBlock(x, WordStart(dpu, offset)) && (x >> 3) & 7 == b && x & 7 == slice
  {
    hide *;
    ByteAddressIs(slice, dpu, offset, b);
    InBlock(WordStart(dpu, offset), slice, b, ByteAddress(slice, dpu, offset, b));
  }

  lemma AddressFromWord(a: bv64, dpu: bv64, offset: bv64)
    requires IsWord(dpu, offset) && SameBlock(a, WordStart(dpu, offset))
    ensures a & 7 < 8 && (a >> 3) & 7 < 8 && ByteAddress(a & 7, dpu, offset, (a >> 3) & 7) == a
  {
    hide *;
    ByteAddressIs(0, dpu, offset, 0);
    FromBlock(WordStart(dpu, offset), a);
    ByteAddressIs(a & 7, dpu, offset, (a >> 3) & 7);
  }

  lemma StoredIsWritten(after: Memory, before: Memory, dpu: bv64, offset: bv64, input: Block)
    requires IsWord(dpu, offset) && BlockStored(after, before, WordStart(dpu, offset), Interleaved(input))
    ensures BytesWritten(after, before, dpu, offset, input)
  {
    hide WordStart, ByteAddress, Interleaved, Index, IsWord, SameBlock;
    forall slice: bv64, b: bv64 | slice < 8 && b < 8
      ensures after(ByteAddress(slice, dpu, offset, b)) == input[8 * Index(slice) + Index(b)]
    {
      AddressInWord(slice, dpu, offset, b);
      InterleavedIsTransposed(input, Index(b), Index(slice));
    }
    forall a: bv64 | !IsByteAddress(a, dpu, offset)
      ensures after(a) == before(a)
    {
      if SameBlock(a, WordStart(dpu, offset)) {
        AddressFromWord(a, dpu, offset);
      }
    }
  }

  lemma WrittenIsStored(after: Memory, before: Memory, dpu: bv64, offset: bv64, input: Block)
    requires IsWord(dpu, offset) && BytesWritten(after, before, dpu, offset, input)
    ensures BlockStored(after, before, WordStart(dpu, offset), Interleaved(input))
  {
    hide WordStart, ByteAddress, Interleaved, Index, IsWord, SameBlock;
    forall a: bv64
      ensures after(a) == if SameBlock(a, WordStart(dpu, offset))
          then Interleaved(input)[8 * Index((a >> 3) & 7) + Index(a & 7)]
                          else before(a)
    {
      if SameBlock(a, WordStart(dpu, offset)) {
        AddressFromWord(a, dpu, offset);
        InterleavedIsTransposed(input, Index((a >> 3) & 7), Index(a & 7));
      } else {
        forall slice: bv64, b: bv64 | slice < 8 && b < 8
          ensures ByteAddress(slice, dpu, offset, b) != a
        {
          AddressInWord(slice, dpu, offset, b);
        }
        assert !IsByteAddress(a, dpu, offset);
      }
    }
  }

  /** Storing the interleaved block at the address of a word is the same as writing the 64 bytes one by one where
      the address map puts them. */
  lemma StoreAgreesWithAddresses(after: Memory, before: Memory, dpu: bv64, offset: bv64, input: Block)
    requires IsWord(dpu, offset)
    ensures BlockStored(after, before, WordStart(dpu, offset), Interleaved(input))
       <==> BytesWritten(after, before, dpu, offset, input)
  {
    hide *;
    if BlockStored(after, before, WordStart(dpu, offset), Interleaved(input)) {
      StoredIsWritten(after, before, dpu, offset, input);
    }
    if BytesWritten(after, before, dpu, offset, input) {
      WrittenIsStored(after, before, dpu, offset, input);
    }
  }
}
