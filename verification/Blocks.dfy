/** Block arithmetic of the relocation kernels.

    A kernel moves `blocks` equally long blocks of MRAM.  Blocks form groups of 1, 2, 4 or 8, and the
    kernel permutes the blocks inside each group.  Everything below is about one such pass. */
module Blocks {
  import opened Arithmetic
  import opened Bytes

  /** Bytes moved by one DMA transfer, and so the size of a tasklet's private cache. */
  const CHUNK := 2048

  /** C's conversion to uint32_t. */
  function U32(x: int): (r: nat) {
    x % 0x1_0000_0000
  }

  datatype Rotation = Clockwise | Counterclockwise | Reverse | Incremental

  /** One pass of a kernel, after its arguments have been unpacked.  `dpu` is the DPU number that enters the
      slot expression; `tasklets` is the number of tasklets that take part and also the stride of their outer
      loop; `barriers` says whether the pass waits after every read and after every write. */
  datatype Layout = Layout(rotation: Rotation, noRotate: bool, group: nat, dpu: nat,
                           blocks: nat, blockBytes: nat, start: nat, target: nat,
                           tasklets: nat, barriers: bool)

  predicate GroupSize(g: nat) {
    g == 1 || g == 2 || g == 4 || g == 8
  }

  /** The number of blocks that a pass can reach in its target region: it fills up the last group. */
  function Spread(c: Layout): nat
    requires 0 < c.group
  {
    if c.blocks % c.group == 0 then c.blocks else c.blocks / c.group * c.group + c.group
  }

  /** The pass stays inside the memory. */
  predicate Placed(c: Layout, size: nat) {
    && GroupSize(c.group)
    && 0 < c.tasklets
    && c.start + c.blocks * c.blockBytes <= size
    && c.target + Spread(c) * c.blockBytes <= size
  }

  /** It also moves whole groups. */
  predicate Valid(c: Layout, size: nat) {
    Placed(c, size) && c.blocks % c.group == 0
  }

  /** Where byte `p` of block `b` lives in a region that begins at `base`. */
  function Addr(base: nat, blockBytes: nat, b: nat, p: nat): (a: nat) {
    base + b * blockBytes + p
  }

  /** The offset a kernel computes inside a group, unsigned wrap-around included. */
  function Offset(rotation: Rotation, g: nat, d: nat, t: nat): (r: nat)
    requires 0 < g
  {
    match rotation
    case Clockwise => U32(t - d) % g
    case Counterclockwise => U32(t + d) % g
    case Reverse => U32(d - t) % g
    case Incremental => U32(t + d - d % g) % g
  }

  /** The block position to which block `t` is copied. */
  function Slot(c: Layout, t: nat): (s: nat)
    requires GroupSize(c.group)
  {
    if c.noRotate then t else t / c.group * c.group + Offset(c.rotation, c.group, c.dpu, t)
  }

  /** The block that is copied to position `s`. */
  function Unslot(c: Layout, s: nat): (t: nat)
    requires GroupSize(c.group)
  {
    if c.noRotate then s else s / c.group * c.group + UnmodularOffset(c, s) % c.group
  }

  function UnmodularOffset(c: Layout, s: nat): int {
    match c.rotation
    case Clockwise => s + c.dpu
    case Counterclockwise => s - c.dpu
    case Reverse => c.dpu - s
    case Incremental => s
  }

  /** Group sizes divide 2^32, so the unsigned wrap-around never shows. */
  lemma WrapIsInvisible(x: int, g: nat)
    requires GroupSize(g)
    ensures U32(x) % g == x % g
  {
    var q, m := x / 0x1_0000_0000, 0x1_0000_0000 / g;
    assert m * g == 0x1_0000_0000;
    assert q * m * g == q * (m * g);
    ModShift(U32(x), q * m, g);
  }

  lemma OffsetIsModular(rotation: Rotation, g: nat, d: nat, t: nat)
    requires GroupSize(g)
    ensures Offset(rotation, g, d, t) ==
            match rotation
            case Clockwise => (t - d) % g
            case Counterclockwise => (t + d) % g
            case Reverse => (d - t) % g
            case Incremental => t % g
  {
    match rotation
    case Clockwise => WrapIsInvisible(t - d, g);
    case Counterclockwise => WrapIsInvisible(t + d, g);
    case Reverse => WrapIsInvisible(d - t, g);
    case Incremental =>
      WrapIsInvisible(t + d - d % g, g);
      var k := d / g;
      assert d == k * g + d % g;
      ModShift(t, k, g);
  }

  function ModularOffset(c: Layout, t: nat): int
    requires GroupSize(c.group)
  {
    match c.rotation
    case Clockwise => t - c.dpu
    case Counterclockwise => t + c.dpu
    case Reverse => c.dpu - t
    case Incremental => t
  }

  lemma SlotIn(c: Layout, t: nat)
    requires GroupSize(c.group) && !c.noRotate
    ensures Slot(c, t) == t / c.group * c.group + ModularOffset(c, t) % c.group
    ensures Slot(c, t) / c.group == t / c.group
    ensures Slot(c, t) % c.group == ModularOffset(c, t) % c.group
  {
    OffsetIsModular(c.rotation, c.group, c.dpu, t);
    DivModUnique(Slot(c, t), c.group, t / c.group, ModularOffset(c, t) % c.group);
  }

  /** The slot map permutes the blocks of each group: `Unslot` inverts it on both sides, and neither leaves
      the group. */
  lemma SlotIsBijection(c: Layout, t: nat)
    requires GroupSize(c.group)
    ensures Unslot(c, Slot(c, t)) == t
    ensures Slot(c, Unslot(c, t)) == t
    ensures Slot(c, t) / c.group == t / c.group == Unslot(c, t) / c.group
  {
    if !c.noRotate {
      UnslotAfterSlot(c, t);
      SlotAfterUnslot(c, t);
    }
  }

  lemma UnslotAfterSlot(c: Layout, t: nat)
    requires GroupSize(c.group) && !c.noRotate
    ensures Unslot(c, Slot(c, t)) == t
  {
    var g, d, s, m := c.group, c.dpu, Slot(c, t), ModularOffset(c, t);
    SlotIn(c, t);
    assert s == t / g * g + (m - m / g * g);
    assert t == t / g * g + t % g;
    var back: int := UnmodularOffset(c, s);
    match c.rotation
    case Clockwise => SameRemainder(back, t, t / g - m / g, g);
    case Counterclockwise => SameRemainder(back, t, t / g - m / g, g);
    case Reverse => SameRemainder(back, t, m / g - t / g, g);
    case Incremental => SameRemainder(back, t, t / g - m / g, g);
  }

  lemma SlotAfterUnslot(c: Layout, s: nat)
    requires GroupSize(c.group) && !c.noRotate
    ensures Slot(c, Unslot(c, s)) == s && Unslot(c, s) / c.group == s / c.group
  {
    var g, t, m := c.group, Unslot(c, s), UnmodularOffset(c, s);
    DivModUnique(t, g, s / g, m % g);
    SlotIn(c, t);
    assert t == s / g * g + (m - m / g * g);
    assert s == s / g * g + s % g;
    var back: int := ModularOffset(c, t);
    match c.rotation
    case Clockwise => SameRemainder(back, s, s / g - m / g, g);
    case Counterclockwise => SameRemainder(back, s, s / g - m / g, g);
    case Reverse => SameRemainder(back, s, m / g - s / g, g);
    case Incremental => SameRemainder(back, s, s / g - m / g, g);
  }

  /** The slot of a block of the region is a block of the region. */
  lemma SlotStaysInside(c: Layout, t: nat)
    requires GroupSize(c.group) && c.blocks % c.group == 0
    ensures t < c.blocks <==> Slot(c, t) < c.blocks
    ensures t < c.blocks <==> Unslot(c, t) < c.blocks
  {
    SlotIsBijection(c, t);
    SameGroupSameSide(c, t, Slot(c, t));
    SameGroupSameSide(c, t, Unslot(c, t));
  }

  /** Every slot lies in the part of the target region that a pass can reach. */
  lemma SlotInSpread(c: Layout, t: nat)
    requires GroupSize(c.group) && t < c.blocks
    ensures Slot(c, t) < Spread(c)
  {
    var n := Spread(c);
    assert c.blocks == c.blocks / c.group * c.group + c.blocks % c.group;
    DivModUnique(n, c.group, if c.blocks % c.group == 0 then c.blocks / c.group else c.blocks / c.group + 1, 0);
    SlotStaysInside(c.(blocks := n), t);
  }

  lemma SameGroupSameSide(c: Layout, t: nat, s: nat)
    requires GroupSize(c.group) && c.blocks % c.group == 0 && t / c.group == s / c.group
    ensures t < c.blocks <==> s < c.blocks
  {
    var g := c.group;
    assert t == t / g * g + t % g && s == s / g * g + s % g && c.blocks == c.blocks / g * g;
    MulGap(t / g, c.blocks / g, g);
    MulGap(c.blocks / g, t / g, g);
  }

  lemma AddrInside(base: nat, blockBytes: nat, blocks: nat, b: nat, p: nat)
    requires b < blocks && p < blockBytes
    ensures base <= Addr(base, blockBytes, b, p) < base + blocks * blockBytes
  {
    MulGap(b, blocks, blockBytes);
  }

  lemma AddrInjective(base: nat, blockBytes: nat, b: nat, p: nat, b': nat, p': nat)
    requires p < blockBytes && p' < blockBytes
    ensures Addr(base, blockBytes, b, p) == Addr(base, blockBytes, b', p') <==> b == b' && p == p'
  {
    MulGap(b, b', blockBytes);
    MulGap(b', b, blockBytes);
  }

  /** Every address of a region is byte `p` of some block `b`. */
  lemma AddrCovers(base: nat, blockBytes: nat, blocks: nat, a: nat) returns (b: nat, p: nat)
    requires base <= a < base + blocks * blockBytes
    ensures b < blocks && p < blockBytes && a == Addr(base, blockBytes, b, p)
  {
    assert blockBytes == 0 ==> blocks * blockBytes == 0;
    b, p := (a - base) / blockBytes, (a - base) % blockBytes;
    assert a - base == b * blockBytes + p;
    MulGap(b, blocks, blockBytes);
    MulGap(blocks, b, blockBytes);
  }

  /** What a pass is for: block `t` of the source region ends up, byte for byte, in slot `Slot(c, t)` of the
      target region, and no byte outside the target region changes. */
  ghost predicate Relocated(c: Layout, before: seq<byte>, after: seq<byte>)
    requires Valid(c, |before|)
  {
    && |after| == |before|
    && (forall t: nat, p: nat | t < c.blocks && p < c.blockBytes :: BlockMoved(c, before, after, t, p))
    && (forall a: nat | a < |before| && !InTarget(c, a) :: after[a] == before[a])
  }

  predicate InTarget(c: Layout, a: nat) {
    c.target <= a < c.target + c.blocks * c.blockBytes
  }

  ghost predicate BlockMoved(c: Layout, before: seq<byte>, after: seq<byte>, t: nat, p: nat)
    requires Valid(c, |before|) && |after| == |before| && t < c.blocks && p < c.blockBytes
  {
    SlotStaysInside(c, t);
    AddrInside(c.target, c.blockBytes, c.blocks, Slot(c, t), p);
    AddrInside(c.start, c.blockBytes, c.blocks, t, p);
    after[Addr(c.target, c.blockBytes, Slot(c, t), p)] == before[Addr(c.start, c.blockBytes, t, p)]
  }

  /** `Relocated` determines the result: it is a function of the memory before the pass. */
  lemma RelocatedIsUnique(c: Layout, before: seq<byte>, x: seq<byte>, y: seq<byte>)
    requires Valid(c, |before|) && Relocated(c, before, x) && Relocated(c, before, y)
    ensures x == y
  {
    forall a: nat | a < |before|
      ensures x[a] == y[a]
    {
      if InTarget(c, a) {
        var s, p := AddrCovers(c.target, c.blockBytes, c.blocks, a);
        var t := Unslot(c, s);
        SlotIsBijection(c, s);
        SlotStaysInside(c, s);
        assert BlockMoved(c, before, x, t, p) && BlockMoved(c, before, y, t, p);
      }
    }
  }

  /** The address whose byte a pass puts at address `a`. */
  function Origin(c: Layout, a: nat): nat
    requires GroupSize(c.group)
  {
    if c.blockBytes == 0 || !InTarget(c, a) then a
    else Addr(c.start, c.blockBytes, Unslot(c, (a - c.target) / c.blockBytes), (a - c.target) % c.blockBytes)
  }

  lemma OriginInside(c: Layout, size: nat, a: nat)
    requires Valid(c, size) && a < size
    ensures Origin(c, a) < size
  {
    if c.blockBytes != 0 && InTarget(c, a) {
      var s, p := AddrCovers(c.target, c.blockBytes, c.blocks, a);
      DivModUnique(a - c.target, c.blockBytes, s, p);
      SlotStaysInside(c, s);
      AddrInside(c.start, c.blockBytes, c.blocks, Unslot(c, s), p);
    }
  }

  function Relocation(c: Layout, before: seq<byte>): (after: seq<byte>)
    requires Valid(c, |before|)
    ensures |after| == |before|
  {
    seq(|before|, a requires 0 <= a < |before| => (OriginInside(c, |before|, a); before[Origin(c, a)]))
  }

  /** There is a result for every memory, whether or not the regions overlap. */
  lemma RelocationExists(c: Layout, before: seq<byte>)
    requires Valid(c, |before|)
    ensures Relocated(c, before, Relocation(c, before))
  {
    var after := Relocation(c, before);
    forall t: nat, p: nat | t < c.blocks && p < c.blockBytes
      ensures BlockMoved(c, before, after, t, p)
    {
      var s := Slot(c, t);
      SlotStaysInside(c, t);
      SlotIsBijection(c, t);
      AddrInside(c.target, c.blockBytes, c.blocks, s, p);
      DivModUnique(s * c.blockBytes + p, c.blockBytes, s, p);
      assert Origin(c, Addr(c.target, c.blockBytes, s, p)) == Addr(c.start, c.blockBytes, t, p);
    }
  }

  /** Two passes in place whose slot maps cancel give back the original memory. */
  lemma CancellingPasses(c: Layout, c': Layout, m0: seq<byte>, m1: seq<byte>, m2: seq<byte>)
    requires Valid(c, |m0|) && Valid(c', |m0|)
    requires c.start == c.target == c'.start == c'.target
    requires c.blocks == c'.blocks && c.blockBytes == c'.blockBytes
    requires forall t: nat | t < c.blocks :: Slot(c', Slot(c, t)) == t
    requires Relocated(c, m0, m1) && Relocated(c', m1, m2)
    ensures m2 == m0
  {
    forall a: nat | a < |m0|
      ensures m2[a] == m0[a]
    {
      if InTarget(c, a) {
        var t, p := AddrCovers(c.target, c.blockBytes, c.blocks, a);
        SlotStaysInside(c, t);
        assert BlockMoved(c, m0, m1, t, p);
        assert BlockMoved(c', m1, m2, Slot(c, t), p);
      }
    }
  }

  /** The counterclockwise rotation undoes the clockwise one, and the other way round. */
  lemma CounterclockwiseUndoesClockwise(c: Layout, c': Layout, m0: seq<byte>, m1: seq<byte>, m2: seq<byte>)
    requires Valid(c, |m0|) && c.start == c.target
    requires c.rotation == Clockwise || c.rotation == Counterclockwise
    requires c' == c.(rotation := if c.rotation == Clockwise then Counterclockwise else Clockwise)
    requires Relocated(c, m0, m1) && Relocated(c', m1, m2)
    ensures m2 == m0
  {
    forall t: nat | t < c.blocks
      ensures Slot(c', Slot(c, t)) == t
    {
      SlotIsBijection(c, t);
      assert !c.noRotate ==> Slot(c', Slot(c, t)) == Unslot(c, Slot(c, t)) by {
        if !c.noRotate {
          SlotIn(c', Slot(c, t));
        }
      }
    }
    CancellingPasses(c, c', m0, m1, m2);
  }

  /** The reflection is its own inverse. */
  lemma ReverseIsInvolution(c: Layout, m0: seq<byte>, m1: seq<byte>, m2: seq<byte>)
    requires Valid(c, |m0|) && c.start == c.target && c.rotation == Reverse
    requires Relocated(c, m0, m1) && Relocated(c, m1, m2)
    ensures m2 == m0
  {
    forall t: nat | t < c.blocks
      ensures Slot(c, Slot(c, t)) == t
    {
      SlotIsBijection(c, t);
      if !c.noRotate {
        SlotIn(c, Slot(c, t));
      }
    }
    CancellingPasses(c, c, m0, m1, m2);
  }

  /** The incremental kernel's rotation is no rotation at all: it gives the plain copy. */
  lemma IncrementalIsCopy(c: Layout, m0: seq<byte>, m1: seq<byte>)
    requires Valid(c, |m0|) && c.rotation == Incremental
    ensures Relocated(c, m0, m1) <==> Relocated(c.(noRotate := true), m0, m1)
  {
    var plain := c.(noRotate := true);
    forall t: nat
      ensures Slot(c, t) == t == Slot(plain, t)
    {
      if !c.noRotate {
        SlotIn(c, t);
      }
    }
    assert Slot(c, 0) == 0;
    if Relocated(c, m0, m1) {
      forall t: nat, p: nat | t < c.blocks && p < c.blockBytes
        ensures BlockMoved(plain, m0, m1, t, p)
      {
        assert BlockMoved(c, m0, m1, t, p);
      }
      assert forall a: nat | a < |m0| && !InTarget(plain, a) :: !InTarget(c, a);
    }
    if Relocated(plain, m0, m1) {
      forall t: nat, p: nat | t < c.blocks && p < c.blockBytes
        ensures BlockMoved(c, m0, m1, t, p)
      {
        assert BlockMoved(plain, m0, m1, t, p);
      }
      assert forall a: nat | a < |m0| && !InTarget(c, a) :: !InTarget(plain, a);
    }
  }

  // ---------------------------------------------------------------- passes that move no block

  /** The slot map is the identity, by the arguments of a kernel. */
  predicate KeepsBlocks(c: Layout)
    requires 0 < c.group
  {
    c.noRotate || c.rotation == Incremental || (c.dpu % c.group == 0 && (c.rotation == Reverse ==> c.group <= 2))
  }

  lemma KeptSlot(c: Layout, t: nat)
    requires GroupSize(c.group) && KeepsBlocks(c)
    ensures Slot(c, t) == t
  {
    if !c.noRotate {
      SlotIn(c, t);
      hide Slot;
      assert t == t / c.group * c.group + t % c.group;
      if c.rotation != Incremental {
        MultipleOfGroup(c.dpu, t, c.group);
      }
    }
  }

  lemma MultipleOfGroup(d: nat, t: nat, g: nat)
    requires 0 < g && d % g == 0
    ensures (t - d) % g == t % g && (t + d) % g == t % g
    ensures g <= 2 ==> (d - t) % g == t % g
  {
    var k, m: int := d / g, 0 - t;
    assert d == k * g && t - d == t + (-k) * g;
    ModShift(t, -k, g);
    ModShift(t, k, g);
    ModShift(m, k, g);
    SignModTwo(t);
  }

  lemma SomeBlockMoves(c: Layout) returns (t: nat)
    requires GroupSize(c.group) && !KeepsBlocks(c)
    ensures t < c.group && Slot(c, t) != t
  {
    SlotIn(c, 0);
    t := 0;
    if Slot(c, 0) == 0 {
      var k := c.dpu / c.group;
      NegativeMod(c.dpu, c.group);
      assert c.rotation == Reverse && c.dpu % c.group == 0;
      SlotIn(c, 1);
      assert c.dpu == k * c.group;
      ModShift(-1, k, c.group);
      t := 1;
    }
  }

  lemma NegativeMod(d: nat, g: nat)
    requires GroupSize(g)
    ensures (0 - d) % g == 0 <==> d % g == 0
    ensures (0 + d) % g == d % g
  {
    var k := d / g;
    assert d == k * g + d % g;
    assert 0 - d == (0 - d % g) + (-k) * g;
    ModShift(0 - d % g, -k, g);
  }

  /** No block moves, or there is nothing to move. */
  predicate Harmless(c: Layout)
    requires 0 < c.group
  {
    c.blocks == 0 || c.blockBytes == 0 || KeepsBlocks(c)
  }

  lemma UnchangedIsRelocated(c: Layout, m0: seq<byte>)
    requires Valid(c, |m0|) && c.start == c.target && Harmless(c)
    ensures Relocated(c, m0, m0)
  {
    forall t: nat, p: nat | t < c.blocks && p < c.blockBytes
      ensures BlockMoved(c, m0, m0, t, p)
    {
      KeptSlot(c, t);
    }
  }
}
