/** Where the bytes of the MRAMs of a rank lie in the host's physical address space. */
module AddressMap {

  /** An MRAM holds 0x4000000 bytes. */
  predicate InMram(offset: bv64) {
    offset < 0x400_0000
  }

  /** The region of a rank has 0x200000000 bytes. */
  predicate InRegion(a: bv64) {
    a < 0x2_0000_0000
  }

  /** Moves bit 14 of an MRAM offset to position 21, and bits 21 to 15 down by one. */
  function Translate(offset: bv64): (r: bv64) {
    var bits21To15 := (offset & 0x3f_8000) >> 15;
    var bit14 := (offset >> 14) & 1;
    var untouched := offset & 0xffff_ffff_ffc0_3fff;
    untouched | (bits21To15 << 14) | (bit14 << 21)
  }

  /** The address of the word that holds byte `offset` of every slice's DPU number `dpu`: banks come in chunks of
      0x20000 bytes, one every 0x100000. */
  function WordStart(dpu: bv64, offset: bv64): (a: bv64) {
    var bankOffset := 0x4_0000 * (dpu % 4) + if dpu >= 4 then 0x40 else 0;
    var trueByte := Translate(offset) / 8 * 16 * 8;
    trueByte % 0x2_0000 + trueByte / 0x2_0000 * 0x10_0000 + bankOffset
  }

  /** The address of byte `offset` of one DPU. */
  function Address(slice: bv64, dpu: bv64, offset: bv64): (a: bv64) {
    WordStart(dpu, offset) + slice + offset % 8 * 8
  }

  predicate InRank(slice: bv64, dpu: bv64, offset: bv64) {
    slice < 8 && dpu < 8 && InMram(offset)
  }

  predicate Bit17Clear(a: bv64) {
    (a >> 17) & 1 == 0
  }

  // ---------------------------------------------------------------- the inverse map

  function Untranslate(t: bv64): (r: bv64) {
    (t & 0x3c0_3fff) | (((t >> 21) & 1) << 14) | (((t >> 14) & 0x7f) << 15)
  }

  function SliceOf(a: bv64): bv64 {
    a & 7
  }

  function DpuOf(a: bv64): bv64 {
    ((a >> 18) & 3) | (((a >> 6) & 1) << 2)
  }

  /** The translated offset of the word at an address. */
  function WordOf(a: bv64): bv64 {
    (((a >> 7) & 0x3ff) << 3) | ((a >> 20) << 13)
  }

  function OffsetOf(a: bv64): bv64 {
    Untranslate(WordOf(a)) | ((a >> 3) & 7)
  }

  /** Bits 0 to 13 and 22 to 25 stay, bits 15 to 21 move down by one, and bit 14 goes to position 21. */
  lemma TranslateMovesBits(offset: bv64)
    requires InMram(offset)
    ensures Translate(offset) & 0x3fff == offset & 0x3fff && Translate(offset) >> 22 == offset >> 22
    ensures (Translate(offset) >> 14) & 0x7f == (offset >> 15) & 0x7f
      && (Translate(offset) >> 21) & 1 == (offset >> 14) & 1
  {
  }

  lemma UntranslateTranslate(offset: bv64)
    requires InMram(offset)
    ensures InMram(Translate(offset))
    ensures Untranslate(Translate(offset)) == offset
  {
  }

  lemma TranslateUntranslate(t: bv64)
    requires InMram(t)
    ensures InMram(Untranslate(t))
    ensures Translate(Untranslate(t)) == t
  {
  }

  /** The translation permutes the offsets of an MRAM. */
  lemma TranslateIsBijection(offset: bv64, t: bv64)
    requires InMram(offset) && InMram(t)
    ensures InMram(Translate(offset)) && InMram(Untranslate(t))
    ensures Translate(offset) == t <==> offset == Untranslate(t)
  {
    hide *;
    UntranslateTranslate(offset);
    TranslateUntranslate(t);
  }

  lemma AddressFits(slice: bv64, dpu: bv64, offset: bv64)
    requires InRank(slice, dpu, offset)
    ensures InRegion(Address(slice, dpu, offset)) && Bit17Clear(Address(slice, dpu, offset))
  {
  }

  lemma PlaceDecodes(slice: bv64, dpu: bv64, offset: bv64)
    requires InRank(slice, dpu, offset)
    ensures SliceOf(Address(slice, dpu, offset)) == slice && DpuOf(Address(slice, dpu, offset)) == dpu
  {
  }

  /** The bits of an address come from different sources. */
  function Bits(slice: bv64, dpu: bv64, t: bv64, low: bv64): bv64 {
    slice | (low << 3) | ((dpu >> 2) << 6) | (((t >> 3) & 0x3ff) << 7) | ((dpu & 3) << 18) | ((t >> 13) << 20)
  }

  lemma AddressBits(slice: bv64, dpu: bv64, offset: bv64, t: bv64, low: bv64)
    requires InRank(slice, dpu, offset) && t == Translate(offset) && InMram(t) && low == offset & 7
    ensures Address(slice, dpu, offset) == Bits(slice, dpu, t, low)
  {
    hide Translate;
  }

  /** Where every bit of an address comes from: bits 0 to 2 are the slice, 6 and 18 to 19 the DPU, 17 is clear, and the
      others are bits of the offset. */
  lemma AddressLayout(slice: bv64, dpu: bv64, offset: bv64)
    requires InRank(slice, dpu, offset)
    ensures var a := Address(slice, dpu, offset);
            && a & 7 == slice && (a >> 3) & 7 == offset & 7 && (a >> 6) & 1 == dpu >> 2
            && (a >> 7) & 0x3ff == (offset >> 3) & 0x3ff && (a >> 17) & 1 == 0 && (a >> 18) & 3 == dpu & 3
            && (a >> 20) & 1 == (offset >> 13) & 1 && (a >> 21) & 0x7f == (offset >> 15) & 0x7f
            && (a >> 28) & 1 == (offset >> 14) & 1 && a >> 29 == offset >> 22
  {
    AddressOfTranslated(slice, dpu, offset);
    TranslateMovesBits(offset);
    SameBits(Translate(offset), offset);
    hide *;
  }

  /** The same in terms of the translated offset. */
  lemma AddressOfTranslated(slice: bv64, dpu: bv64, offset: bv64)
    requires InRank(slice, dpu, offset)
    ensures var a, t := Address(slice, dpu, offset), Translate(offset);
            && a & 7 == slice && (a >> 3) & 7 == offset & 7 && (a >> 6) & 1 == dpu >> 2
            && (a >> 7) & 0x3ff == (t >> 3) & 0x3ff && (a >> 17) & 1 == 0 && (a >> 18) & 3 == dpu & 3
            && (a >> 20) & 1 == (t >> 13) & 1 && (a >> 21) & 0x7f == (t >> 14) & 0x7f
            && (a >> 28) & 1 == (t >> 21) & 1 && a >> 29 == t >> 22
  {
    UntranslateTranslate(offset);
    LowBits(offset);
    var t, low := Translate(offset), offset & 7;
    hide Translate, Address, Bits, InMram;
    AddressBits(slice, dpu, offset, t, low);
    BitsLaidOut(slice, dpu, t, low);
  }

  lemma BitsLaidOut(slice: bv64, dpu: bv64, t: bv64, low: bv64)
    requires slice < 8 && dpu < 8 && low < 8 && InMram(t)
    ensures var a := Bits(slice, dpu, t, low);
            && a & 7 == slice && (a >> 3) & 7 == low && (a >> 6) & 1 == dpu >> 2
            && (a >> 7) & 0x3ff == (t >> 3) & 0x3ff && (a >> 17) & 1 == 0 && (a >> 18) & 3 == dpu & 3
            && (a >> 20) & 1 == (t >> 13) & 1 && (a >> 21) & 0x7f == (t >> 14) & 0x7f
            && (a >> 28) & 1 == (t >> 21) & 1 && a >> 29 == t >> 22
  {
  }

  lemma LowBits(offset: bv64)
    ensures offset & 7 < 8
  {
  }

  lemma SameBits(t: bv64, offset: bv64)
    requires t & 0x3fff == offset & 0x3fff
    ensures (t >> 3) & 0x3ff == (offset >> 3) & 0x3ff && (t >> 13) & 1 == (offset >> 13) & 1
  {
  }

  lemma BitsDecode(slice: bv64, dpu: bv64, t: bv64, low: bv64)
    requires slice < 8 && dpu < 8 && low < 8 && InMram(t)
    ensures WordOf(Bits(slice, dpu, t, low)) == t & 0x3ff_fff8 && (Bits(slice, dpu, t, low) >> 3) & 7 == low
  {
  }

  /** The translation keeps the bytes of a word together. */
  lemma TranslateByte(offset: bv64, b: bv64)
    requires offset & 7 == 0 && b < 8
    ensures Translate(offset | b) == Translate(offset) | b
  {
  }

  lemma TranslateLow(offset: bv64)
    requires offset & 7 == 0
    ensures Translate(offset) & 7 == 0
  {
  }

  lemma TranslateFits(offset: bv64)
    requires InMram(offset)
    ensures InMram(Translate(offset)) && offset & 7 < 8
  {
  }

  lemma UntranslateWord(offset: bv64)
    requires InMram(offset)
    ensures Untranslate(Translate(offset) & 0x3ff_fff8) | (offset & 7) == offset
  {
  }

  lemma OffsetDecodes(slice: bv64, dpu: bv64, offset: bv64)
    requires InRank(slice, dpu, offset)
    ensures OffsetOf(Address(slice, dpu, offset)) == offset
  {
    hide Address, WordOf, Untranslate, Translate, Bits, InMram;
    TranslateFits(offset);
    AddressBits(slice, dpu, offset, Translate(offset), offset & 7);
    BitsDecode(slice, dpu, Translate(offset), offset & 7);
    UntranslateWord(offset);
  }

  /** A byte can be found again from its address, and the address is below the end of the region, with bit 17 clear. */
  lemma AddressDecodes(slice: bv64, dpu: bv64, offset: bv64)
    requires InRank(slice, dpu, offset)
    ensures var a := Address(slice, dpu, offset);
            && InRegion(a) && Bit17Clear(a)
            && SliceOf(a) == slice && DpuOf(a) == dpu && OffsetOf(a) == offset
  {
    hide *;
    AddressFits(slice, dpu, offset);
    PlaceDecodes(slice, dpu, offset);
    OffsetDecodes(slice, dpu, offset);
  }

  /** Every such address belongs to a byte. */
  lemma AddressOfDecoded(a: bv64)
    requires InRegion(a) && Bit17Clear(a)
    ensures InRank(SliceOf(a), DpuOf(a), OffsetOf(a)) && Address(SliceOf(a), DpuOf(a), OffsetOf(a)) == a
  {
  }

  /** Different bytes have different addresses. */
  lemma AddressIsInjective(slice: bv64, dpu: bv64, offset: bv64, slice': bv64, dpu': bv64, offset': bv64)
    requires InRank(slice, dpu, offset) && InRank(slice', dpu', offset')
    requires Address(slice, dpu, offset) == Address(slice', dpu', offset')
    ensures slice == slice' && dpu == dpu' && offset == offset'
  {
    hide *;
    AddressDecodes(slice, dpu, offset);
    AddressDecodes(slice', dpu', offset');
  }

  /** The addresses of the bytes of a rank are exactly the addresses of the region whose bit 17 is clear. */
  lemma ImageOfAddress(a: bv64)
    ensures (exists slice, dpu, offset :: InRank(slice, dpu, offset) && Address(slice, dpu, offset) == a)
       <==> InRegion(a) && Bit17Clear(a)
  {
    hide *;
    if InRegion(a) && Bit17Clear(a) {
      AddressOfDecoded(a);
    }
    forall slice, dpu, offset | InRank(slice, dpu, offset) && Address(slice, dpu, offset) == a
      ensures InRegion(a) && Bit17Clear(a)
    {
      AddressDecodes(slice, dpu, offset);
    }
  }
}
