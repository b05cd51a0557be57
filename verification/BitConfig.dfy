/** The shuffling of bits between the host and the DPUs, and how it is derived from the answer to a bit-order query. */
module BitConfig {

  /** Two shufflings of four bits each, one per nibble, packed in two-bit digits, and whether nibbles are swapped. */
  datatype Config = Config(nibbleSwap: bool, cpu2dpu: bv16, dpu2cpu: bv16)

  // ---------------------------------------------------------------- codes

  /** Digit `i` of a code: where bit `i` of a nibble goes. */
  function Digit(code: bv8, i: bv8): (d: bv8)
    requires i < 4
  {
    (code >> (i << 1)) & 3
  }

  predicate IsPermutation(code: bv8) {
    && Digit(code, 0) != Digit(code, 1) && Digit(code, 0) != Digit(code, 2) && Digit(code, 0) != Digit(code, 3)
    && Digit(code, 1) != Digit(code, 2) && Digit(code, 1) != Digit(code, 3) && Digit(code, 2) != Digit(code, 3)
  }

  /** The digits below `n` of a code, each noted at the place that the digit names. */
  function Noted(code: bv8, n: bv8): bv8 {
    (if n > 1 then 1 << (Digit(code, 1) << 1) else 0)
    | (if n > 2 then 2 << (Digit(code, 2) << 1) else 0)
    | (if n > 3 then 3 << (Digit(code, 3) << 1) else 0)
  }

  function Reciprocal(code: bv8): bv8 {
    Noted(code, 4)
  }

  method GetReciprocal(code: bv8) returns (reciprocal: bv8)
    ensures reciprocal == Reciprocal(code)
  {
    var rest := code;
    reciprocal := 0;
    var i: bv8 := 0;
    while i < 4
      invariant i <= 4 && rest == code >> (i << 1) && reciprocal == Noted(code, i)
    {
      var index := rest & 3;
      rest := rest >> 2;
      reciprocal := reciprocal | (i << (index << 1));
      i := i + 1;
    }
  }

  /** For a permutation the reciprocal is the inverse permutation. */
  lemma ReciprocalInverts(code: bv8, i: bv8)
    requires IsPermutation(code) && i < 4
    ensures IsPermutation(Reciprocal(code))
    ensures Digit(Reciprocal(code), Digit(code, i)) == i && Digit(code, Digit(Reciprocal(code), i)) == i
    ensures Reciprocal(Reciprocal(code)) == code
  {
  }

  // ---------------------------------------------------------------- shuffling

  /** The first `n` bits of a nibble, each moved to its place. */
  function Moved(code: bv8, nibble: bv8, n: bv8): bv8 {
    (if n > 0 then (nibble & 1) << Digit(code, 0) else 0)
    | (if n > 1 then ((nibble >> 1) & 1) << Digit(code, 1) else 0)
    | (if n > 2 then ((nibble >> 2) & 1) << Digit(code, 2) else 0)
    | (if n > 3 then ((nibble >> 3) & 1) << Digit(code, 3) else 0)
  }

  function Shuffled(code: bv8, nibble: bv8): bv8 {
    Moved(code, nibble, 4)
  }

  method ShuffleNibble(code: bv8, nibble: bv8) returns (r: bv8)
    requires nibble < 16
    ensures r == Shuffled(code, nibble) && r < 16
  {
    r := 0;
    var i: bv8 := 0;
    while i < 4
      invariant i <= 4 && r == Moved(code, nibble, i)
    {
      var idBit := (code >> (i << 1)) & 3;
      var bit := (nibble >> i) & 1;
      r := r | (bit << idBit);
      i := i + 1;
    }
  }

  predicate IsSet(x: bv8, i: bv8)
    requires i < 8
  {
    (x >> i) & 1 == 1
  }

  lemma BitCases(code: bv8, nibble: bv8, j: bv8)
    requires nibble < 16 && j < 4
    ensures IsSet(Shuffled(code, nibble), j) <==>
              || (Digit(code, 0) == j && IsSet(nibble, 0)) || (Digit(code, 1) == j && IsSet(nibble, 1))
              || (Digit(code, 2) == j && IsSet(nibble, 2)) || (Digit(code, 3) == j && IsSet(nibble, 3))
  {
  }

  /** A bit of the result is set exactly if a set bit is sent there. */
  lemma ShuffledBit(code: bv8, nibble: bv8, j: bv8)
    requires nibble < 16 && j < 4
    ensures IsSet(Shuffled(code, nibble), j) <==> exists i: bv8 :: i < 4 && Digit(code, i) == j && IsSet(nibble, i)
  {
    hide Shuffled, IsSet, Digit;
    BitCases(code, nibble, j);
    forall i: bv8 | i < 4 && Digit(code, i) == j && IsSet(nibble, i)
      ensures IsSet(Shuffled(code, nibble), j)
    {
      assert i == 0 || i == 1 || i == 2 || i == 3;
    }
  }

  // ---------------------------------------------------------------- bytes and words

  function LowCode(codes: bv16): (c: bv8) {
    (codes & 0xFF) as bv8
  }

  function HighCode(codes: bv16): (c: bv8) {
    (codes >> 8) as bv8
  }

  /** The first `n` of two nibbles, placed in a byte. */
  function Placed(low: bv8, high: bv8, swap: bool, n: bv8): bv8 {
    (if n > 0 then low << (if swap then 4 else 0) else 0) | (if n > 1 then high << (if swap then 0 else 4) else 0)
  }

  lemma PlacedNone(low: bv8, high: bv8, swap: bool)
    ensures Placed(low, high, swap, 0) == 0
  {
  }

  lemma PlacedNext(low: bv8, high: bv8, swap: bool, n: bv8, nibble: bv8)
    requires n < 2 && nibble == if n == 0 then low else high
    ensures Placed(low, high, swap, n) | (nibble << ((if swap then 1 - n else n) << 2))
        == Placed(low, high, swap, n + 1)
  {
  }

  function ByteShuffled(codes: bv16, swap: bool, b: bv8): bv8 {
    Placed(Shuffled(LowCode(codes), b & 0xF), Shuffled(HighCode(codes), b >> 4), swap, 2)
  }

  function Byte(v: bv32, i: bv32): (b: bv8)
    requires i < 4
  {
    ((v >> (i << 3)) & 0xFF) as bv8
  }

  /** The first `n` of four bytes, joined into a word. */
  function Joined(b0: bv8, b1: bv8, b2: bv8, b3: bv8, n: bv32): bv32 {
    (if n > 0 then b0 as bv32 else 0) | (if n > 1 then (b1 as bv32) << 8 else 0)
    | (if n > 2 then (b2 as bv32) << 16 else 0) | (if n > 3 then (b3 as bv32) << 24 else 0)
  }

  lemma JoinedNext(b0: bv8, b1: bv8, b2: bv8, b3: bv8, n: bv32, b: bv8)
    requires n < 4 && b == if n == 0 then b0 else if n == 1 then b1 else if n == 2 then b2 else b3
    ensures Joined(b0, b1, b2, b3, n) | ((b as bv32) << (n << 3)) == Joined(b0, b1, b2, b3, n + 1)
  {
  }

  lemma JoinedNone(b0: bv8, b1: bv8, b2: bv8, b3: bv8)
    ensures Joined(b0, b1, b2, b3, 0) == 0
  {
  }

  function WordShuffled(codes: bv16, swap: bool, v: bv32): bv32 {
    Joined(ByteShuffled(codes, swap, Byte(v, 0)), ByteShuffled(codes, swap, Byte(v, 1)),
           ByteShuffled(codes, swap, Byte(v, 2)), ByteShuffled(codes, swap, Byte(v, 3)), 4)
  }

  /** The code and the nibble that an iteration picks. */
  method Pick(codes: bv16, b: bv8, i: bv8) returns (code: bv8, nibble: bv8)
    requires i < 2
    ensures i == 0 ==> code == LowCode(codes) && nibble == b & 0xF
    ensures i == 1 ==> code == HighCode(codes) && nibble == b >> 4
    ensures nibble < 16
  {
    nibble := (b >> (i << 2)) & 0xF;
    code := ((codes >> (i << 3)) & 0xFF) as bv8;
  }

  method ShuffleByte(codes: bv16, swap: bool, b: bv8) returns (r: bv8)
    ensures r == ByteShuffled(codes, swap, b)
  {
    hide Shuffled, Placed;
    ghost var low, high := Shuffled(LowCode(codes), b & 0xF), Shuffled(HighCode(codes), b >> 4);
    PlacedNone(low, high, swap);
    r := 0;
    var i: bv8 := 0;
    while i < 2
      invariant i <= 2 && r == Placed(low, high, swap, i)
    {
      var code, nibble := Pick(codes, b, i);
      var shuffled := ShuffleNibble(code, nibble);
      assert shuffled == if i == 0 then low else high;
      PlacedNext(low, high, swap, i, shuffled);
      r := r | (shuffled << ((if swap then 1 - i else i) << 2));
      i := i + 1;
    }
  }

  /** The byte that an iteration picks, shuffled. */
  method ShuffleByteAt(codes: bv16, swap: bool, v: bv32, i: bv32) returns (r: bv8)
    requires i < 4
    ensures i == 0 ==> r == ByteShuffled(codes, swap, Byte(v, 0))
    ensures i == 1 ==> r == ByteShuffled(codes, swap, Byte(v, 1))
    ensures i == 2 ==> r == ByteShuffled(codes, swap, Byte(v, 2))
    ensures i == 3 ==> r == ByteShuffled(codes, swap, Byte(v, 3))
  {
    var b := ((v >> (i << 3)) & 0xFF) as bv8;
    assert b == Byte(v, i);
    r := ShuffleByte(codes, swap, b);
  }

  /** The loops that the two directions share. */
  method Shuffle(codes: bv16, swap: bool, v: bv32) returns (r: bv32)
    ensures r == WordShuffled(codes, swap, v)
  {
    hide ByteShuffled, Joined, Byte;
    ghost var b0, b1 := ByteShuffled(codes, swap, Byte(v, 0)), ByteShuffled(codes, swap, Byte(v, 1));
    ghost var b2, b3 := ByteShuffled(codes, swap, Byte(v, 2)), ByteShuffled(codes, swap, Byte(v, 3));
    JoinedNone(b0, b1, b2, b3);
    r := 0;
    var i: bv32 := 0;
    while i < 4
      invariant i <= 4 && r == Joined(b0, b1, b2, b3, i)
    {
      var b := ShuffleByteAt(codes, swap, v, i);
      JoinedNext(b0, b1, b2, b3, i, b);
      r := r | ((b as bv32) << (i << 3));
      i := i + 1;
    }
  }

  method Dpu2Cpu(config: Config, value: bv32) returns (r: bv32)
    ensures r == ToCpu(config, value)
  {
    r := Shuffle(config.dpu2cpu, config.nibbleSwap, value);
  }

  method Cpu2Dpu(config: Config, value: bv32) returns (r: bv32)
    ensures r == ToDpu(config, value)
  {
    r := Shuffle(config.cpu2dpu, config.nibbleSwap, value);
  }

  function ToCpu(config: Config, v: bv32): bv32 {
    WordShuffled(config.dpu2cpu, config.nibbleSwap, v)
  }

  function ToDpu(config: Config, v: bv32): bv32 {
    WordShuffled(config.cpu2dpu, config.nibbleSwap, v)
  }

  // ---------------------------------------------------------------- the configuration

  /** The place of the one set bit of a nibble; the table holds 0 for everything else. */
  function IndexInNibble(n: bv8): (i: bv8)
    ensures i < 4
  {
    if n == 2 then 1 else if n == 4 then 2 else if n == 8 then 3 else 0
  }

  function IndexAt(order: bv32, at: bv32): (i: bv8)
    requires at <= 28
    ensures i < 4
  {
    IndexInNibble(((order >> at) & 0xF) as bv8)
  }

  function Syndrome(i1: bv8, i2: bv8, i3: bv8): bv8
    requires i1 < 4 && i2 < 4 && i3 < 4
  {
    (1 << (i1 << 1)) | (2 << (i2 << 1)) | (3 << (i3 << 1))
  }

  function LowSyndrome(order: bv32): bv8 {
    Syndrome(IndexAt(order, 0), IndexAt(order, 8), IndexAt(order, 16))
  }

  function HighSyndrome(order: bv32): bv8 {
    Syndrome(IndexAt(order, 4), IndexAt(order, 12), IndexAt(order, 20))
  }

  function Pack(low: bv8, high: bv8): (codes: bv16)
    ensures LowCode(codes) == low && HighCode(codes) == high
  {
    (low as bv16) | ((high as bv16) << 8)
  }

  /** What the derivation comes to.  Towards the DPU each nibble has its own code; towards the host the codes
      change places if the nibbles do. */
  function Computed(order: bv32): Config {
    var swap := (order >> 28) & 0xF != 0;
    var l, m := Reciprocal(LowSyndrome(order)), Reciprocal(HighSyndrome(order));
    Config(swap, Pack(Reciprocal(l), Reciprocal(m)), if swap then Pack(m, l) else Pack(l, m))
  }

  method Compute(order: bv32) returns (config: Config)
    ensures config == Computed(order)
  {
    hide Reciprocal, Syndrome, IndexAt, Pack;
    var nibbleSwap := (order >> 28) & 0xF != 0;
    var mSyndrome := Syndrome(IndexAt(order, 4), IndexAt(order, 12), IndexAt(order, 20));
    var lSyndrome := Syndrome(IndexAt(order, 0), IndexAt(order, 8), IndexAt(order, 16));
    var reciprocalOfL := GetReciprocal(lSyndrome);
    var reciprocalOfM := GetReciprocal(mSyndrome);
    var mmSyndrome, llSyndrome := reciprocalOfM, reciprocalOfL;
    if nibbleSwap {
      mmSyndrome, llSyndrome := reciprocalOfL, reciprocalOfM;
    }
    var reciprocalOfLl := GetReciprocal(llSyndrome);
    var reciprocalOfMm := GetReciprocal(mmSyndrome);
    var config3124 := if nibbleSwap then reciprocalOfLl else reciprocalOfMm;
    var config2316 := if nibbleSwap then reciprocalOfMm else reciprocalOfLl;
    var config4740 := if nibbleSwap then reciprocalOfL else reciprocalOfM;
    var config3932 := if nibbleSwap then reciprocalOfM else reciprocalOfL;
    config := Config(nibbleSwap, Pack(config2316, config3124), Pack(config3932, config4740));
  }

  // ---------------------------------------------------------------- round trips

  /** Three looked-up indices from which a usable code results. */
  predicate Usable(i1: bv8, i2: bv8, i3: bv8) {
    i1 != i2 && ((i3 != i1 && i3 != i2) || (i1 != 0 && i2 != 0))
  }

  lemma UsableSyndromes(i1: bv8, i2: bv8, i3: bv8)
    requires i1 < 4 && i2 < 4 && i3 < 4
    ensures IsPermutation(Reciprocal(Syndrome(i1, i2, i3))) <==> Usable(i1, i2, i3)
  {
  }

  predicate Invertible(order: bv32) {
    && Usable(IndexAt(order, 0), IndexAt(order, 8), IndexAt(order, 16))
    && Usable(IndexAt(order, 4), IndexAt(order, 12), IndexAt(order, 20))
  }

  lemma ShuffledFits(code: bv8, x: bv8)
    requires x < 16
    ensures Shuffled(code, x) < 16
  {
  }

  lemma NibbleRoundTrip(code: bv8, x: bv8)
    requires IsPermutation(code) && x < 16
    ensures Shuffled(Reciprocal(code), Shuffled(code, x)) == x
    ensures Shuffled(code, Shuffled(Reciprocal(code), x)) == x
  {
  }

  /** A code that is no permutation merges two nibbles, and misses one. */
  lemma NotAPermutation(code: bv8) returns (x: bv8, y: bv8, z: bv8)
    requires !IsPermutation(code)
    ensures x < 16 && y < 16 && x != y && Shuffled(code, x) == Shuffled(code, y)
    ensures z < 16 && forall w: bv8 | w < 16 :: Shuffled(code, w) != z
  {
    if Digit(code, 0) == Digit(code, 1) { x, y := 1, 2; }
    else if Digit(code, 0) == Digit(code, 2) { x, y := 1, 4; }
    else if Digit(code, 0) == Digit(code, 3) { x, y := 1, 8; }
    else if Digit(code, 1) == Digit(code, 2) { x, y := 2, 4; }
    else if Digit(code, 1) == Digit(code, 3) { x, y := 2, 8; }
    else { x, y := 4, 8; }
    z := 15;
    forall w: bv8 | w < 16
      ensures Shuffled(code, w) != 15
    {
    }
  }

  lemma PlacedParts(low: bv8, high: bv8, swap: bool)
    requires low < 16 && high < 16
    ensures Placed(low, high, swap, 2) & 0xF == if swap then high else low
    ensures Placed(low, high, swap, 2) >> 4 == if swap then low else high
  {
  }

  lemma PlacedWhole(b: bv8)
    ensures Placed(b & 0xF, b >> 4, false, 2) == b && Placed(b >> 4, b & 0xF, true, 2) == b
    ensures b & 0xF < 16 && b >> 4 < 16
  {
  }

  lemma JoinedParts(b0: bv8, b1: bv8, b2: bv8, b3: bv8)
    ensures var v := Joined(b0, b1, b2, b3, 4);
            Byte(v, 0) == b0 && Byte(v, 1) == b1 && Byte(v, 2) == b2 && Byte(v, 3) == b3
  {
  }

  lemma JoinedWhole(v: bv32)
    ensures Joined(Byte(v, 0), Byte(v, 1), Byte(v, 2), Byte(v, 3), 4) == v
  {
  }

  lemma BytesOfWord(codes: bv16, swap: bool, v: bv32)
    ensures var r := WordShuffled(codes, swap, v);
            && Byte(r, 0) == ByteShuffled(codes, swap, Byte(v, 0))
            && Byte(r, 1) == ByteShuffled(codes, swap, Byte(v, 1))
            && Byte(r, 2) == ByteShuffled(codes, swap, Byte(v, 2))
            && Byte(r, 3) == ByteShuffled(codes, swap, Byte(v, 3))
  {
    hide ByteShuffled, Joined, Byte;
    JoinedParts(ByteShuffled(codes, swap, Byte(v, 0)), ByteShuffled(codes, swap, Byte(v, 1)),
                ByteShuffled(codes, swap, Byte(v, 2)), ByteShuffled(codes, swap, Byte(v, 3)));
  }

  predicate NibblesShuffled(codes: bv16, swap: bool, b: bv8, r: bv8) {
    && (if swap then r >> 4 else r & 0xF) == Shuffled(LowCode(codes), b & 0xF)
    && (if swap then r & 0xF else r >> 4) == Shuffled(HighCode(codes), b >> 4)
  }

  lemma NibblesOfByte(codes: bv16, swap: bool, b: bv8)
    ensures NibblesShuffled(codes, swap, b, ByteShuffled(codes, swap, b))
  {
    hide Shuffled, LowCode, HighCode, Placed;
    PlacedWhole(b);
    ShuffledFits(LowCode(codes), b & 0xF);
    ShuffledFits(HighCode(codes), b >> 4);
    PlacedParts(Shuffled(LowCode(codes), b & 0xF), Shuffled(HighCode(codes), b >> 4), swap);
  }

  /** Where every bit of a word goes: nibbles stay in their byte, each is shuffled by its own code, and the two
      change places if they are swapped. */
  lemma NibblesOfWord(codes: bv16, swap: bool, v: bv32)
    ensures var r := WordShuffled(codes, swap, v);
            && NibblesShuffled(codes, swap, Byte(v, 0), Byte(r, 0))
            && NibblesShuffled(codes, swap, Byte(v, 1), Byte(r, 1))
            && NibblesShuffled(codes, swap, Byte(v, 2), Byte(r, 2))
            && NibblesShuffled(codes, swap, Byte(v, 3), Byte(r, 3))
  {
    hide *;
    BytesOfWord(codes, swap, v);
    NibblesOfByte(codes, swap, Byte(v, 0));
    NibblesOfByte(codes, swap, Byte(v, 1));
    NibblesOfByte(codes, swap, Byte(v, 2));
    NibblesOfByte(codes, swap, Byte(v, 3));
  }

  /** Two packed codes that go one after the other undo each other on bytes if those that meet do on nibbles. */
  lemma ByteRoundTrip(first: bv16, second: bv16, swap: bool, b: bv8)
    requires forall x: bv8 | x < 16 ::
               Shuffled(if swap then HighCode(second) else LowCode(second), Shuffled(LowCode(first), x)) == x
    requires forall x: bv8 | x < 16 ::
               Shuffled(if swap then LowCode(second) else HighCode(second), Shuffled(HighCode(first), x)) == x
    ensures ByteShuffled(second, swap, ByteShuffled(first, swap, b)) == b
  {
    hide Shuffled, LowCode, HighCode, Placed;
    PlacedWhole(b);
    ShuffledFits(LowCode(first), b & 0xF);
    ShuffledFits(HighCode(first), b >> 4);
    PlacedParts(Shuffled(LowCode(first), b & 0xF), Shuffled(HighCode(first), b >> 4), swap);
  }

  lemma WordRoundTrip(first: bv16, second: bv16, swap: bool, v: bv32)
    requires forall b: bv8 :: ByteShuffled(second, swap, ByteShuffled(first, swap, b)) == b
    ensures WordShuffled(second, swap, WordShuffled(first, swap, v)) == v
  {
    hide ByteShuffled, Joined, Byte;
    JoinedParts(ByteShuffled(first, swap, Byte(v, 0)), ByteShuffled(first, swap, Byte(v, 1)),
                ByteShuffled(first, swap, Byte(v, 2)), ByteShuffled(first, swap, Byte(v, 3)));
    JoinedWhole(v);
  }

  /** A word whose lowest byte is `b`, as a witness. */
  lemma LowByteOnly(first: bv16, second: bv16, swap: bool, b: bv8)
    ensures Byte(b as bv32, 0) == b
    ensures Byte(WordShuffled(second, swap, WordShuffled(first, swap, b as bv32)), 0)
        == ByteShuffled(second, swap, ByteShuffled(first, swap, b))
  {
    ByteOf(b);
    hide *;
    var w := b as bv32;
    BytesOfWord(first, swap, w);
    BytesOfWord(second, swap, WordShuffled(first, swap, w));
  }

  lemma ByteOf(b: bv8)
    ensures Byte(b as bv32, 0) == b
  {
  }

  /** The codes that meet in a round trip. */
  lemma ComputedCodes(order: bv32)
    ensures var c := Computed(order);
            var l, m := Reciprocal(LowSyndrome(order)), Reciprocal(HighSyndrome(order));
            && LowCode(c.cpu2dpu) == Reciprocal(l) && HighCode(c.cpu2dpu) == Reciprocal(m)
            && LowCode(c.dpu2cpu) == (if c.nibbleSwap then m else l)
              && HighCode(c.dpu2cpu) == if c.nibbleSwap then l else m
  {
    hide Reciprocal, Pack, LowCode, HighCode, Syndrome, IndexAt;
  }

  lemma CodesUsable(order: bv32)
    ensures Invertible(order) <==>
              IsPermutation(Reciprocal(LowSyndrome(order))) && IsPermutation(Reciprocal(HighSyndrome(order)))
  {
    hide Reciprocal, IsPermutation, Usable, Syndrome, IndexAt;
    UsableSyndromes(IndexAt(order, 0), IndexAt(order, 8), IndexAt(order, 16));
    UsableSyndromes(IndexAt(order, 4), IndexAt(order, 12), IndexAt(order, 20));
  }

  lemma RoundTripsIfInvertible(order: bv32, v: bv32)
    requires Invertible(order)
    ensures ToDpu(Computed(order), ToCpu(Computed(order), v)) == v
      && ToCpu(Computed(order), ToDpu(Computed(order), v)) == v
  {
    hide Reciprocal, IsPermutation, Invertible, Shuffled, LowCode, HighCode, ByteShuffled, WordShuffled, Computed;
    var c := Computed(order);
    var l, m := Reciprocal(LowSyndrome(order)), Reciprocal(HighSyndrome(order));
    CodesUsable(order);
    ComputedCodes(order);
    forall x: bv8 | x < 16
      ensures Shuffled(Reciprocal(l), Shuffled(l, x)) == x && Shuffled(l, Shuffled(Reciprocal(l), x)) == x
      ensures Shuffled(Reciprocal(m), Shuffled(m, x)) == x && Shuffled(m, Shuffled(Reciprocal(m), x)) == x
    {
      NibbleRoundTrip(l, x);
      NibbleRoundTrip(m, x);
    }
    forall b: bv8
      ensures ByteShuffled(c.cpu2dpu, c.nibbleSwap, ByteShuffled(c.dpu2cpu, c.nibbleSwap, b)) == b
      ensures ByteShuffled(c.dpu2cpu, c.nibbleSwap, ByteShuffled(c.cpu2dpu, c.nibbleSwap, b)) == b
    {
      ByteRoundTrip(c.dpu2cpu, c.cpu2dpu, c.nibbleSwap, b);
      ByteRoundTrip(c.cpu2dpu, c.dpu2cpu, c.nibbleSwap, b);
    }
    WordRoundTrip(c.dpu2cpu, c.cpu2dpu, c.nibbleSwap, v);
    WordRoundTrip(c.cpu2dpu, c.dpu2cpu, c.nibbleSwap, v);
  }

  /** If one of the codes towards the host is no permutation, that direction merges two bytes and misses a third. */
  lemma ByteNotInvertible(codes: bv16, swap: bool) returns (x: bv8, y: bv8, z: bv8)
    requires !IsPermutation(LowCode(codes)) || !IsPermutation(HighCode(codes))
    ensures x != y && ByteShuffled(codes, swap, x) == ByteShuffled(codes, swap, y)
    ensures forall b: bv8 :: ByteShuffled(codes, swap, b) != z
  {
    hide IsPermutation, LowCode, HighCode, Shuffled, Placed;
    var p, q, r;
    if !IsPermutation(LowCode(codes)) {
      p, q, r := NotAPermutation(LowCode(codes));
      x, y, z := p, q, if swap then r << 4 else r;
    } else {
      p, q, r := NotAPermutation(HighCode(codes));
      x, y, z := p << 4, q << 4, if swap then r else r << 4;
    }
    NibbleParts(p);
    NibbleParts(q);
    NibbleParts(r);
    forall b: bv8
      ensures ByteShuffled(codes, swap, b) != z
    {
      PlacedWhole(b);
      ShuffledFits(LowCode(codes), b & 0xF);
      ShuffledFits(HighCode(codes), b >> 4);
      PlacedParts(Shuffled(LowCode(codes), b & 0xF), Shuffled(HighCode(codes), b >> 4), swap);
    }
  }

  lemma NibbleParts(x: bv8)
    requires x < 16
    ensures x & 0xF == x && x >> 4 == 0 && (x << 4) & 0xF == 0 && (x << 4) >> 4 == x
  {
  }

  /** The two directions undo each other, whatever the value and in either order, exactly if the looked-up indices
      are usable.  That they are distinct within each nibble is enough. */
  lemma RoundTripsExactlyIfInvertible(order: bv32)
    ensures (forall v :: ToDpu(Computed(order), ToCpu(Computed(order), v)) == v) <==> Invertible(order)
    ensures (forall v :: ToCpu(Computed(order), ToDpu(Computed(order), v)) == v) <==> Invertible(order)
  {
    hide Reciprocal, IsPermutation, Invertible, Shuffled, LowCode, HighCode, ByteShuffled, WordShuffled, Computed, Byte;
    var c := Computed(order);
    if Invertible(order) {
      forall v
        ensures ToDpu(c, ToCpu(c, v)) == v && ToCpu(c, ToDpu(c, v)) == v
      {
        RoundTripsIfInvertible(order, v);
      }
    } else {
      CodesUsable(order);
      ComputedCodes(order);
      var x, y, z := ByteNotInvertible(c.dpu2cpu, c.nibbleSwap);
      LowByteOnly(c.dpu2cpu, c.cpu2dpu, c.nibbleSwap, x);
      LowByteOnly(c.dpu2cpu, c.cpu2dpu, c.nibbleSwap, y);
      LowByteOnly(c.cpu2dpu, c.dpu2cpu, c.nibbleSwap, z);
      var vx, vy, vz := x as bv32, y as bv32, z as bv32;
      assert ToDpu(c, ToCpu(c, vx)) != vx || ToDpu(c, ToCpu(c, vy)) != vy;
      assert ToCpu(c, ToDpu(c, vz)) != vz;
    }
  }

  lemma DistinctIndicesAreEnough(i1: bv8, i2: bv8, i3: bv8)
    requires i1 != i2 && i1 != i3 && i2 != i3
    ensures Usable(i1, i2, i3)
  {
  }

  // ---------------------------------------------------------------- where every bit goes

  /** Bit `k` of the lower or the higher half of byte `i`. */
  predicate BitOf(v: bv32, i: bv32, high: bool, k: bv8)
    requires i < 4 && k < 4
  {
    (v >> ((i << 3) + (if high then 4 else 0) + k as bv32)) & 1 == 1
  }

  /** The nibble of the query's answer that tells the place of bit `k` of a half, for `k` from 1 to 3. */
  function Told(order: bv32, high: bool, k: bv32): bv32
    requires 1 <= k <= 3
  {
    (order >> (((k - 1) << 3) + if high then 4 else 0)) & 0xF
  }

  /** `p` is the place of the only set bit of a nibble, or 0 if there is none such. */
  predicate PlaceIs(nibble: bv32, p: bv8) {
    p < 4 && if nibble == 2 || nibble == 4 || nibble == 8 then nibble == 1 << (p as bv4) else p == 0
  }

  /** Bit `k` of a half arrives at `place`: at the place told for it, unless that of bit 3 is the same, which then goes
      first and leaves place 0.  Bit 0 takes what remains. */
  predicate Arrives(k: bv8, place: bv8, p1: bv8, p2: bv8, p3: bv8) {
    if k == 3 then place == p3
    else if k == 2 then place == if p2 == p3 then 0 else p2
    else if k == 1 then place == if p1 == p3 then 0 else p1
    else place < 4 && place != p3 && place != (if p2 == p3 then 0 else p2) && place != (if p1 == p3 then 0 else p1)
  }

  lemma CodeSends(p1: bv8, p2: bv8, p3: bv8, k: bv8, place: bv8)
    requires p1 < 4 && p2 < 4 && p3 < 4 && k < 4 && Usable(p1, p2, p3) && Arrives(k, place, p1, p2, p3)
    ensures place == Digit(Reciprocal(Syndrome(p1, p2, p3)), k)
  {
  }

  lemma PlaceIsIndex(order: bv32, high: bool, p1: bv8, p2: bv8, p3: bv8)
    requires PlaceIs(Told(order, high, 1), p1) && PlaceIs(Told(order, high, 2), p2) && PlaceIs(Told(order, high, 3), p3)
    ensures high ==> p1 == IndexAt(order, 4) && p2 == IndexAt(order, 12) && p3 == IndexAt(order, 20)
    ensures !high ==> p1 == IndexAt(order, 0) && p2 == IndexAt(order, 8) && p3 == IndexAt(order, 16)
  {
  }

  lemma ShuffledAt(code: bv8, x: bv8, k: bv8)
    requires IsPermutation(code) && x < 16 && k < 4
    ensures IsSet(Shuffled(code, x), Digit(code, k)) <==> IsSet(x, k)
  {
  }

  function Half(b: bv8, high: bool): (x: bv8)
    ensures x < 16
  {
    if high then b >> 4 else b & 0xF
  }

  lemma BitOfHalf(v: bv32, i: bv32, high: bool, k: bv8)
    requires i < 4 && k < 4
    ensures BitOf(v, i, high, k) <==> IsSet(Half(Byte(v, i), high), k)
  {
    if i == 0 {
    } else if i == 1 {
    } else if i == 2 {
    } else {
    }
  }

  lemma HalfShuffled(codes: bv16, swap: bool, v: bv32, i: bv32, high: bool)
    requires i < 4
    ensures Half(Byte(WordShuffled(codes, swap, v), i), high != swap)
         == Shuffled(if high then HighCode(codes) else LowCode(codes), Half(Byte(v, i), high))
  {
    hide Shuffled, WordShuffled, Byte, HighCode, LowCode;
    NibblesOfWord(codes, swap, v);
    assert i == 0 || i == 1 || i == 2 || i == 3;
  }

  /** Towards the host, every bit of every word goes where the query's answer tells: a half of a byte goes to the other
      half exactly if the topmost nibble of the answer is not zero, and inside it a bit goes to the place that
      the nibble for it and for that half tells.  `ToDpu` takes it back. */
  lemma BitsArrive(order: bv32, v: bv32, i: bv32, high: bool, k: bv8, place: bv8, p1: bv8, p2: bv8, p3: bv8)
    requires Invertible(order) && i < 4 && k < 4 && place < 4
    requires var other := high != (order >> 28 != 0);
             && PlaceIs(Told(order, other, 1), p1) && PlaceIs(Told(order, other, 2), p2)
             && PlaceIs(Told(order, other, 3), p3) && Arrives(k, place, p1, p2, p3)
    ensures BitOf(ToCpu(Computed(order), v), i, high != (order >> 28 != 0), place) <==> BitOf(v, i, high, k)
    ensures BitOf(ToDpu(Computed(order), v), i, high, k) <==> BitOf(v, i, high != (order >> 28 != 0), place)
  {
    BitsToHost(order, v, i, high, k, place, p1, p2, p3);
    BitsToHost(order, ToDpu(Computed(order), v), i, high, k, place, p1, p2, p3);
    hide *;
    RoundTripsIfInvertible(order, v);
  }

  lemma BitsToHost(order: bv32, v: bv32, i: bv32, high: bool, k: bv8, place: bv8, p1: bv8, p2: bv8, p3: bv8)
    requires Invertible(order) && i < 4 && k < 4 && place < 4
    requires var other := high != (order >> 28 != 0);
             && PlaceIs(Told(order, other, 1), p1) && PlaceIs(Told(order, other, 2), p2)
             && PlaceIs(Told(order, other, 3), p3) && Arrives(k, place, p1, p2, p3)
    ensures BitOf(ToCpu(Computed(order), v), i, high != (order >> 28 != 0), place) <==> BitOf(v, i, high, k)
  {
    var c := Computed(order);
    CodeAndPlace(order, high, k, place, p1, p2, p3);
    hide *;
    HalfBits(c.dpu2cpu, c.nibbleSwap, v, i, high, k, place);
    SameConversion(c, v);
  }

  lemma SameConversion(c: Config, v: bv32)
    ensures ToCpu(c, v) == WordShuffled(c.dpu2cpu, c.nibbleSwap, v)
  {
  }

  function CodeOf(codes: bv16, high: bool): bv8 {
    if high then HighCode(codes) else LowCode(codes)
  }

  /** A bit of a half goes to the place that the code for that half gives it. */
  lemma HalfBits(codes: bv16, swap: bool, v: bv32, i: bv32, high: bool, k: bv8, place: bv8)
    requires i < 4 && k < 4 && place < 4 && IsPermutation(CodeOf(codes, high)) && place == Digit(CodeOf(codes, high), k)
    ensures BitOf(WordShuffled(codes, swap, v), i, high != swap, place) <==> BitOf(v, i, high, k)
  {
    hide BitOf, Byte, Half, Shuffled, Digit, IsSet, IsPermutation, WordShuffled, HighCode, LowCode;
    HalfShuffled(codes, swap, v, i, high);
    ShuffledAt(CodeOf(codes, high), Half(Byte(v, i), high), k);
    BitOfHalf(v, i, high, k);
    BitOfHalf(WordShuffled(codes, swap, v), i, high != swap, place);
  }

  /** The code towards the host for a half, and the place it gives to a bit. */
  lemma CodeAndPlace(order: bv32, high: bool, k: bv8, place: bv8, p1: bv8, p2: bv8, p3: bv8)
    requires Invertible(order) && k < 4 && place < 4
    requires var other := high != (order >> 28 != 0);
             && PlaceIs(Told(order, other, 1), p1) && PlaceIs(Told(order, other, 2), p2)
             && PlaceIs(Told(order, other, 3), p3) && Arrives(k, place, p1, p2, p3)
    ensures Computed(order).nibbleSwap == (order >> 28 != 0)
    ensures var code := CodeOf(Computed(order).dpu2cpu, high); IsPermutation(code) && place == Digit(code, k)
  {
    var swap := order >> 28 != 0;
    SwapIs(order);
    CodesUsable(order);
    ComputedCodes(order);
    PlaceIsIndex(order, high != swap, p1, p2, p3);
    hide Told, PlaceIs, IndexAt, Reciprocal, Syndrome, Digit, IsPermutation, Computed, HighCode, LowCode, Arrives;
    CodeSends(p1, p2, p3, k, place);
  }

  lemma SwapIs(order: bv32)
    ensures Computed(order).nibbleSwap <==> order >> 28 != 0
  {
    hide Reciprocal, Syndrome, IndexAt, Pack;
  }

  /** Digit `i` of the lower or higher code of two packed ones. */
  function Stored(codes: bv16, high: bool, i: bv8): bv16
    requires i < 4
  {
    (codes >> ((if high then 8 else 0) + (i << 1) as bv16)) & 3
  }

  /** The derived codes as they are stored: towards the host, two bits for every bit of a half tell its place; towards
      the DPU, two bits for every place tell which bit has come there. */
  lemma CodesTell(order: bv32, high: bool, k: bv8, place: bv8, p1: bv8, p2: bv8, p3: bv8)
    requires Invertible(order) && k < 4 && place < 4
    requires PlaceIs(Told(order, high, 1), p1) && PlaceIs(Told(order, high, 2), p2) && PlaceIs(Told(order, high, 3), p3)
    requires Arrives(k, place, p1, p2, p3)
    ensures Computed(order).nibbleSwap <==> order >> 28 != 0
    ensures Stored(Computed(order).dpu2cpu, high != (order >> 28 != 0), k) == place as bv16
    ensures Stored(Computed(order).cpu2dpu, high, place) == k as bv16
  {
    var c, swap := Computed(order), order >> 28 != 0;
    SwapIs(order);
    CodesUsable(order);
    ComputedCodes(order);
    PlaceIsIndex(order, high, p1, p2, p3);
    hide Told, PlaceIs, IndexAt, Reciprocal, Syndrome, Digit, IsPermutation, Computed, HighCode, LowCode;
    hide Arrives, Usable, Stored, Invertible;
    var code := Reciprocal(if high then HighSyndrome(order) else LowSyndrome(order));
    CodeSends(p1, p2, p3, k, place);
    ReciprocalInverts(code, k);
    DigitStored(c.dpu2cpu, high != swap, k);
    DigitStored(c.cpu2dpu, high, place);
  }

  lemma DigitStored(codes: bv16, high: bool, i: bv8)
    requires i < 4
    ensures Stored(codes, high, i) == Digit(if high then HighCode(codes) else LowCode(codes), i) as bv16
  {
  }
}
