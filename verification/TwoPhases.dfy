/** The kernels with two phases: pairs of blocks inside the source region, then pairs of double blocks to the target.
    When the two add up to one relocation, and what goes wrong when they do not. */
module TwoPhases {
  import opened Arithmetic
  import opened Bytes
  import opened Blocks
  import opened Kernels

  /** Where the two-phase kernels put block `t`. */
  function TwoPhaseSlot(noRotate: bool, d: nat, t: nat): nat {
    if noRotate then t else 4 * (t / 4) + 2 * ((d / 4 - t / 2) % 2) + (d - t) % 2
  }

  /** What the division leaves over in the first phase fits into the blocks of the second exactly if it is less
      than one element for each of them. */
  predicate LeavesLittle(a: Args)
    requires WellFormed(a)
  {
    assert 0 < a.commDpus * a.elem;
    a.totalBytes % (a.commDpus * a.elem) < a.commDpus / 2 * a.elem
  }

  /** The blocks of the second phase are twice as long as those of the first, or one element longer than that;
      the former exactly if little is left over. */
  lemma DoubleBlocks(totalBytes: nat, n: nat, elem: nat)
    requires 0 < n && 0 < elem
    ensures BlockBytes(totalBytes, n, elem) == 2 * BlockBytes(totalBytes, 2 * n, elem)
       <==> totalBytes % (2 * n * elem) < n * elem
    ensures totalBytes % (2 * n * elem) >= n * elem ==>
              BlockBytes(totalBytes, n, elem) == 2 * BlockBytes(totalBytes, 2 * n, elem) + elem
  {
    var h := n * elem;
    assert 0 < h && 2 * n * elem == 2 * h;
    var q, r := totalBytes / (2 * h), totalBytes % (2 * h);
    assert totalBytes == q * (2 * h) + r == 2 * q * h + r;
    if r < h {
      DivModUnique(totalBytes, h, 2 * q, r);
      assert 2 * q * elem == 2 * (q * elem);
    } else {
      assert totalBytes == (2 * q + 1) * h + (r - h);
      DivModUnique(totalBytes, h, 2 * q + 1, r - h);
      assert (2 * q + 1) * elem == 2 * (q * elem) + elem;
    }
  }

  lemma PairSlot(c: Layout, t: nat)
    requires (c.rotation == Reverse || c.rotation == Clockwise) && !c.noRotate && c.group == 2
    ensures Slot(c, t) / 2 == t / 2 && Slot(c, t) % 2 == (c.dpu - t) % 2
  {
    SlotIn(c, t);
    SignModTwo(c.dpu - t);
  }

  lemma TwoPhaseSlotIs(c1: Layout, c2: Layout, t: nat)
    requires c1.rotation == Reverse || c1.rotation == Clockwise
    requires c1.rotation == c2.rotation && !c1.noRotate && !c2.noRotate && c1.group == c2.group == 2
    requires c2.dpu == c1.dpu / 4
    ensures TwoPhaseSlot(false, c1.dpu, t) == 2 * Slot(c2, Slot(c1, t) / 2) + Slot(c1, t) % 2
  {
    PairSlot(c1, t);
    PairSlot(c2, t / 2);
    var s := Slot(c2, t / 2);
    assert s == s / 2 * 2 + s % 2 && t / 2 / 2 == t / 4;
  }

  lemma HalvesOfADouble(base: nat, half: nat, b: nat, p: nat)
    ensures Addr(base, half, b, p) == Addr(base, 2 * half, b / 2, b % 2 * half + p)
  {
    assert b == b / 2 * 2 + b % 2;
    assert b * half == b / 2 * 2 * half + b % 2 * half == b / 2 * (2 * half) + b % 2 * half;
  }

  lemma InHalf(b: nat, h: nat, p: nat)
    requires h < 2 && p < b
    ensures h * b + p < 2 * b
  {
  }

  /** A byte of a double block, addressed through its half. */
  lemma HalfMoved(c: Layout, before: seq<byte>, after: seq<byte>, half: nat, b: nat, f: nat, p: nat)
    requires Valid(c, |before|) && Relocated(c, before, after) && c.blockBytes == 2 * half
    requires b < 2 * c.blocks && p < half && f == 2 * Slot(c, b / 2) + b % 2
    ensures f < 2 * c.blocks
    ensures Addr(c.start, half, b, p) < |before| && Addr(c.target, half, f, p) < |before|
    ensures after[Addr(c.target, half, f, p)] == before[Addr(c.start, half, b, p)]
  {
    var q := b % 2 * half + p;
    InHalf(half, b % 2, p);
    HalvesOfADouble(c.start, half, b, p);
    HalvesOfADouble(c.target, half, f, p);
    hide Slot, Relocated, Addr;
    Arrives(c, before, after, b / 2, q);
  }

  /** One byte followed through a pass over blocks and a pass over double blocks. */
  lemma ByteThroughBoth(c1: Layout, c2: Layout, before: seq<byte>, middle: seq<byte>, after: seq<byte>, t: nat, p: nat,
                        f: nat)
    requires Valid(c1, |before|) && Relocated(c1, before, middle) && Valid(c2, |before|) && Relocated(c2, middle, after)
    requires c1.target == c2.start && c2.blockBytes == 2 * c1.blockBytes && c1.blocks == 2 * c2.blocks
    requires t < c1.blocks && p < c1.blockBytes
    requires f == 2 * Slot(c2, Slot(c1, t) / 2) + Slot(c1, t) % 2
    ensures Addr(c2.target, c1.blockBytes, f, p) < |after| && Addr(c1.start, c1.blockBytes, t, p) < |before|
    ensures f < c1.blocks && after[Addr(c2.target, c1.blockBytes, f, p)] == before[Addr(c1.start, c1.blockBytes, t, p)]
  {
    SlotStaysInside(c1, t);
    assert BlockMoved(c1, before, middle, t, p);
    AddrInside(c1.start, c1.blockBytes, c1.blocks, t, p);
    HalfMoved(c2, middle, after, c1.blockBytes, Slot(c1, t), f, p);
  }

  lemma TwoPasses(c1: Layout, c2: Layout, before: seq<byte>, after: seq<byte>) returns (middle: seq<byte>)
    requires Passes([c1, c2], before, after)
    ensures Valid(c1, |before|) && Relocated(c1, before, middle) && Valid(c2, |before|) && Relocated(c2, middle, after)
  {
    assert [c1, c2][1..] == [c2] && [c2][1..] == [];
    middle :| Relocated(c1, before, middle) && Passes([c2], middle, after);
    var last :| Relocated(c2, middle, last) && Passes([], last, after);
  }

  // ---------------------------------------------------------------- what the phases should add up to

  /** The passes are those of a two-phase plan that may be run on `size` bytes. */
  predicate Phases(c1: Layout, c2: Layout, a: Args, size: nat)
    requires WellFormed(a)
  {
    && Valid(c1, size) && Valid(c2, size)
    && (c1.rotation == Reverse || c1.rotation == Clockwise) && c2.rotation == c1.rotation
    && c1.noRotate == c2.noRotate == a.noRotate && c1.group == c2.group == 2
    && c1.dpu == a.dpu && c2.dpu == a.dpu / 4 && c1.blocks == a.commDpus && c1.blocks == 2 * c2.blocks
    && c1.start == c1.target == c2.start == a.start && c2.target == a.target
    && c1.blockBytes == BlockBytes(a.totalBytes, a.commDpus, a.elem)
    && c2.blockBytes == 2 * c1.blockBytes + if LeavesLittle(a) then 0 else a.elem
  }

  lemma PlanHasPhases(rotation: Rotation, a: Args, tasklets: nat, barriersAgain: bool, size: nat)
    requires rotation == Reverse || rotation == Clockwise
    requires WellFormed(a) && Fits(a, size) && a.commDpus % 4 == 0 && 0 < tasklets
    ensures var ps := TwoPhasePlan(rotation, a, tasklets, barriersAgain);
            |ps| == 2 && ps == [ps[0], ps[1]] && Phases(ps[0], ps[1], a, size)
  {
    var n := a.commDpus / 2;
    assert 2 * n == a.commDpus;
    RegionFits(a.totalBytes, a.commDpus, a.elem);
    RegionFits(a.totalBytes, n, a.elem);
    DoubleBlocks(a.totalBytes, n, a.elem);
  }

  /** Every block is in its two-phase slot. */
  ghost predicate Composed(a: Args, before: seq<byte>, after: seq<byte>)
    requires WellFormed(a)
  {
    forall t: nat, p: nat | t < a.commDpus && p < BlockBytes(a.totalBytes, a.commDpus, a.elem) ::
        Arrived(a, before, after, t, p)
  }

  predicate Arrived(a: Args, before: seq<byte>, after: seq<byte>, t: nat, p: nat)
    requires WellFormed(a)
  {
    var b, f := BlockBytes(a.totalBytes, a.commDpus, a.elem), TwoPhaseSlot(a.noRotate, a.dpu, t);
    && 0 <= f < a.commDpus
    && Addr(a.target, b, f, p) < |after| && Addr(a.start, b, t, p) < |before|
    && after[Addr(a.target, b, f, p)] == before[Addr(a.start, b, t, p)]
  }

  // ---------------------------------------------------------------- when they do

  lemma ComposedIfLittle(c1: Layout, c2: Layout, a: Args, before: seq<byte>, after: seq<byte>)
    requires WellFormed(a) && Phases(c1, c2, a, |before|) && Passes([c1, c2], before, after)
    requires LeavesLittle(a) && !a.noRotate
    ensures Composed(a, before, after)
  {
    var middle := TwoPasses(c1, c2, before, after);
    forall t: nat, p: nat | t < a.commDpus && p < c1.blockBytes
      ensures Arrived(a, before, after, t, p)
    {
      TwoPhaseSlotIs(c1, c2, t);
      ByteThroughBoth(c1, c2, before, middle, after, t, p, TwoPhaseSlot(false, a.dpu, t));
    }
  }

  /** A pass that keeps all blocks copies the region, whatever the length of the blocks. */
  lemma CopiedAt(c: Layout, before: seq<byte>, after: seq<byte>, x: nat)
    requires Valid(c, |before|) && Relocated(c, before, after) && KeepsBlocks(c) && x < c.blocks * c.blockBytes
    ensures after[c.target + x] == before[c.start + x]
  {
    var t, p := AddrCovers(c.start, c.blockBytes, c.blocks, c.start + x);
    KeptSlot(c, t);
    assert BlockMoved(c, before, after, t, p);
  }

  lemma SlotOfKeeping(c1: Layout, a: Args, t: nat)
    requires (c1.rotation == Reverse || c1.rotation == Clockwise) && c1.group == 2
    requires c1.noRotate == a.noRotate && c1.dpu == a.dpu && (a.noRotate || a.dpu / 4 % 2 == 0)
    ensures TwoPhaseSlot(a.noRotate, a.dpu, t) == Slot(c1, t)
  {
    if !a.noRotate {
      PairSlot(c1, t);
      MultipleOfGroup(a.dpu / 4, t / 2, 2);
      assert t / 2 == 2 * (t / 4) + t / 2 % 2;
      assert Slot(c1, t) == 2 * (t / 2) + Slot(c1, t) % 2;
    }
  }

  lemma ComposedIfKeeping(c1: Layout, c2: Layout, a: Args, before: seq<byte>, after: seq<byte>)
    requires WellFormed(a) && Phases(c1, c2, a, |before|) && Passes([c1, c2], before, after)
    requires a.noRotate || a.dpu / 4 % 2 == 0
    ensures Composed(a, before, after)
  {
    var middle := TwoPasses(c1, c2, before, after);
    forall t: nat, p: nat | t < a.commDpus && p < c1.blockBytes
      ensures Arrived(a, before, after, t, p)
    {
      SlotOfKeeping(c1, a, t);
      Arrives(c1, before, middle, t, p);
      var x := Slot(c1, t) * c1.blockBytes + p;
      AddrInside(0, c1.blockBytes, c1.blocks, Slot(c1, t), p);
      LongEnough(c1.blocks, c2.blocks, c1.blockBytes, c2.blockBytes);
      CopiedAt(c2, middle, after, x);
    }
  }

  lemma LongEnough(n1: nat, n2: nat, b1: nat, b2: nat)
    requires n1 == 2 * n2 && 2 * b1 <= b2
    ensures n1 * b1 <= n2 * b2
  {
    assert n1 * b1 == n2 * (2 * b1);
    MulGap(2 * b1, b2, n2);
  }

  // ---------------------------------------------------------------- when they do not

  /** With longer blocks, the second phase puts at offset 2*b or 3*b of the target what lies in the other
      double block, which begins one element too late. */
  lemma StrayEven(c1: Layout, c2: Layout, before: seq<byte>, middle: seq<byte>, after: seq<byte>)
    requires Valid(c1, |before|) && Relocated(c1, before, middle) && Valid(c2, |before|) && Relocated(c2, middle, after)
    requires KeepsBlocks(c1) && c1.start == c1.target && Slot(c2, 1) == 0 && 2 <= c2.blocks
    requires 2 * c1.blockBytes < c2.blockBytes
    ensures Addr(c2.target, c1.blockBytes, 2, 0) < |after|
    ensures Addr(c2.start, c2.blockBytes, 1, 2 * c1.blockBytes) < |before|
    ensures after[Addr(c2.target, c1.blockBytes, 2, 0)] == before[Addr(c2.start, c2.blockBytes, 1, 2 * c1.blockBytes)]
  {
    UnchangedIsRelocated(c1, before);
    RelocatedIsUnique(c1, before, before, middle);
    Arrives(c2, middle, after, 1, 2 * c1.blockBytes);
  }

  lemma StrayOdd(c1: Layout, c2: Layout, before: seq<byte>, middle: seq<byte>, after: seq<byte>, elem: nat)
    requires Valid(c1, |before|) && Relocated(c1, before, middle) && Valid(c2, |before|) && Relocated(c2, middle, after)
    requires Slot(c1, 1) == 0 && Slot(c2, 0) == 1 && 2 <= c2.blocks && 2 <= c1.blocks && c1.target == c2.start
    requires 0 < elem <= c1.blockBytes && c2.blockBytes == 2 * c1.blockBytes + elem
    ensures Addr(c2.target, c1.blockBytes, 3, 0) < |after|
    ensures Addr(c1.start, c1.blockBytes, 1, c1.blockBytes - elem) < |before|
    ensures after[Addr(c2.target, c1.blockBytes, 3, 0)]
        == before[Addr(c1.start, c1.blockBytes, 1, c1.blockBytes - elem)]
  {
    var q := c1.blockBytes - elem;
    Arrives(c2, middle, after, 0, q);
    Arrives(c1, before, middle, 1, q);
    assert Addr(c2.start, c2.blockBytes, 0, q) == Addr(c1.target, c1.blockBytes, 0, q);
    assert Addr(c2.target, c1.blockBytes, 3, 0) == Addr(c2.target, c2.blockBytes, 1, q);
  }

  lemma SwappedPair(c: Layout)
    requires (c.rotation == Reverse || c.rotation == Clockwise) && !c.noRotate && c.group == 2 && c.dpu % 2 != 0
    ensures Slot(c, 0) == 1 && Slot(c, 1) == 0
  {
    PairSlot(c, 0);
    PairSlot(c, 1);
  }

  lemma SlotOfBlockZero(d: nat)
    requires d / 4 % 2 != 0
    ensures TwoPhaseSlot(false, d, 0) == 2 + d % 2
  {
  }

  /** The byte that the second phase puts where block 0 should begin does not come from there. */
  lemma StrayByte(c1: Layout, c2: Layout, a: Args, before: seq<byte>, middle: seq<byte>, after: seq<byte>)
    returns (from: nat)
    requires WellFormed(a) && Phases(c1, c2, a, |before|) && Relocated(c1, before, middle)
      && Relocated(c2, middle, after)
    requires !LeavesLittle(a) && !a.noRotate && a.dpu / 4 % 2 != 0 && 0 < c1.blockBytes && 4 <= a.commDpus
    ensures from < |before| && from != a.start
    ensures var f := TwoPhaseSlot(false, a.dpu, 0);
            0 <= f && Addr(a.target, c1.blockBytes, f, 0) < |after|
              && after[Addr(a.target, c1.blockBytes, f, 0)] == before[from]
  {
    WholeElements(a);
    SwappedPair(c2);
    SlotOfBlockZero(a.dpu);
    hide Relocated, Slot, LeavesLittle, BlockBytes, TwoPhaseSlot;
    if a.dpu % 2 == 0 {
      StrayEven(c1, c2, before, middle, after);
      from := Addr(c2.start, c2.blockBytes, 1, 2 * c1.blockBytes);
    } else {
      SwappedPair(c1);
      StrayOdd(c1, c2, before, middle, after, a.elem);
      from := Addr(c1.start, c1.blockBytes, 1, c1.blockBytes - a.elem);
    }
  }

  lemma WholeElements(a: Args)
    requires WellFormed(a)
    ensures var b := BlockBytes(a.totalBytes, a.commDpus, a.elem); b == 0 || a.elem <= b
  {
    assert 0 < a.commDpus * a.elem;
    var q := a.totalBytes / (a.commDpus * a.elem);
    MulGap(0, q, a.elem);
  }

  lemma RunBoth(c1: Layout, c2: Layout, before: seq<byte>) returns (middle: seq<byte>, after: seq<byte>)
    requires Valid(c1, |before|) && Valid(c2, |before|)
    ensures Relocated(c1, before, middle) && Relocated(c2, middle, after) && Passes([c1, c2], before, after)
  {
    RelocationExists(c1, before);
    middle := Relocation(c1, before);
    RelocationExists(c2, middle);
    after := Relocation(c2, middle);
    assert [c1, c2][1..] == [c2] && [c2][1..] == [];
    assert Passes([], after, after);
    assert Passes([c2], middle, after);
  }

  lemma GoesAstray(c1: Layout, c2: Layout, a: Args, size: nat) returns (before: seq<byte>, after: seq<byte>)
    requires WellFormed(a) && Phases(c1, c2, a, size) && 4 <= a.commDpus
    requires !LeavesLittle(a) && !a.noRotate && a.dpu / 4 % 2 != 0 && 0 < c1.blockBytes
    ensures |before| == size && Passes([c1, c2], before, after) && !Composed(a, before, after)
  {
    before := OneAt(size, a.start);
    var middle;
    middle, after := RunBoth(c1, c2, before);
    var from := StrayByte(c1, c2, a, before, middle, after);
    assert !Arrived(a, before, after, 0, 0);
  }

  /** The two phases send every block to its two-phase slot, for all memories, exactly if little is left over, or
      the second phase moves nothing, or there is nothing to move. */
  lemma TwoPhasesCompose(rotation: Rotation, a: Args, tasklets: nat, barriersAgain: bool, size: nat)
    requires rotation == Reverse || rotation == Clockwise
    requires WellFormed(a) && Fits(a, size) && a.commDpus % 4 == 0 && 0 < tasklets
    ensures (forall before: seq<byte>, after: seq<byte> |
               |before| == size && Passes(TwoPhasePlan(rotation, a, tasklets, barriersAgain), before, after) ::
                 Composed(a, before, after))
       <==> LeavesLittle(a) || a.noRotate || a.dpu / 4 % 2 == 0 || BlockBytes(a.totalBytes, a.commDpus, a.elem) == 0
  {
    PlanHasPhases(rotation, a, tasklets, barriersAgain, size);
    var ps := TwoPhasePlan(rotation, a, tasklets, barriersAgain);
    hide TwoPhasePlan, Passes, LeavesLittle, Fits;
    if LeavesLittle(a) || a.noRotate || a.dpu / 4 % 2 == 0 || BlockBytes(a.totalBytes, a.commDpus, a.elem) == 0 {
      forall before: seq<byte>, after: seq<byte> | |before| == size && Passes(ps, before, after)
        ensures Composed(a, before, after)
      {
        if a.noRotate || a.dpu / 4 % 2 == 0 {
          ComposedIfKeeping(ps[0], ps[1], a, before, after);
        } else if LeavesLittle(a) {
          ComposedIfLittle(ps[0], ps[1], a, before, after);
        }
      }
    } else {
      var before, after := GoesAstray(ps[0], ps[1], a, size);
    }
  }

  /** A launch whose phases do not add up: 48 bytes in four blocks of eight bytes leave 16 bytes over, and the
      second phase moves two blocks of 24. */
  lemma TooMuchLeftOver() returns (a: Args, before: seq<byte>, after: seq<byte>)
    ensures WellFormed(a) && Fits(a, |before|) && DisjointRegions(a) && a.commDpus % 4 == 0 && a.commRg == 2
      && !a.withoutX
    ensures Passes(Plan(ModifiedReverse, a), before, after) && !Composed(a, before, after)
  {
    a := Args(0, 100, 48, 4, 4, false, false, 2, 8);
    PlanHasPhases(Clockwise, a, 2, true, 148);
    var ps := Plan(ModifiedReverse, a);
    before, after := GoesAstray(ps[0], ps[1], a, 148);
  }
}
