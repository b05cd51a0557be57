/** What each of the eight kernels is for: where a launch puts every block, when it may be started, and what it
    leaves alone, stated by its arguments and without its passes. */
module Destinations {
  import opened Arithmetic
  import opened Bytes
  import opened Blocks
  import opened Tasklets
  import opened Kernels
  import opened TwoPhases

  // ---------------------------------------------------------------- where the blocks go

  /** Block `t`, moved inside its group of `g` to the place `x` modulo `g`. */
  function InGroup(g: nat, t: nat, x: int): int
    requires 0 < g
  {
    t / g * g + x % g
  }

  /** The groups of the kernels that know whole groups of eight, and single groups of four or two. */
  function WideGroup(a: Args): (g: nat)
    requires WellFormed(a)
    ensures 0 < g
  {
    if a.commDpus % 8 == 0 then 8 else a.commDpus
  }

  /** The number of a DPU inside its groups: without the first axis, members of one group are 8 / `commRg` apart. */
  function Number(a: Args): nat
    requires WellFormed(a)
  {
    if a.withoutX then a.dpu / (8 / a.commRg) else a.dpu
  }

  function Destination(k: Kernel, a: Args, t: nat): int
    requires WellFormed(a)
  {
    if a.noRotate then t
    else
      match k
      case RelocateClockwise => InGroup(WideGroup(a), t, t - a.dpu)
      case RelocateCounterclockwise => InGroup(WideGroup(a), t, t + a.dpu)
      case RelocateIncremental => t
      case RelocateReverse =>
        if a.commRg == 8 then InGroup(WideGroup(a), t, a.dpu - t) else InGroup(a.commRg, t, Number(a) - t)
      case ClockwiseShort => InGroup(a.commRg, t, t - Number(a))
      case ReverseShort => InGroup(a.commRg, t, Number(a) - t)
      case ModifiedClockwise => if a.withoutX then InGroup(2, t, a.dpu / 2 - t) else TwoPhaseSlot(false, a.dpu, t)
      case ModifiedReverse => if a.withoutX then InGroup(2, t, t - a.dpu / 2) else TwoPhaseSlot(false, a.dpu, t)
  }

  /** What the kernels ask of a launch. */
  predicate Launchable(k: Kernel, a: Args) {
    && WellFormed(a)
    && (k.ModifiedClockwise? || k.ModifiedReverse? ==> 2 <= a.commDpus)
    && (k.ModifiedReverse? ==> a.commRg == 2)
  }

  predicate InTwoPhases(k: Kernel, a: Args) {
    !a.withoutX && (k.ModifiedReverse? || (k.ModifiedClockwise? && a.commRg < 8))
  }

  /** The launch handles no block. */
  predicate DoesNothing(k: Kernel, a: Args) {
    match k
    case RelocateClockwise => !(a.commDpus % 8 == 0 || a.commDpus == 4 || a.commDpus == 2)
    case RelocateCounterclockwise => !(a.commDpus % 8 == 0 || a.commDpus == 4 || a.commDpus == 2)
    case RelocateIncremental => !(a.commDpus % 8 == 0 || a.commDpus == 4 || a.commDpus == 2)
    case RelocateReverse => a.commRg >= 8 && !(a.commDpus % 8 == 0 || a.commDpus == 4 || a.commDpus == 2)
    case ModifiedClockwise => a.commRg >= 8
    case _ => false
  }

  lemma NothingPlanned(k: Kernel, a: Args)
    requires Launchable(k, a)
    ensures Plan(k, a) == [] <==> DoesNothing(k, a)
    ensures |Plan(k, a)| == if DoesNothing(k, a) then 0 else if InTwoPhases(k, a) then 2 else 1
  {
  }

  // ---------------------------------------------------------------- they get there

  /** Every byte of every block is where it belongs. */
  ghost predicate Delivered(k: Kernel, a: Args, before: seq<byte>, after: seq<byte>)
    requires WellFormed(a)
  {
    forall t: nat, p: nat | t < a.commDpus && p < BlockBytes(a.totalBytes, a.commDpus, a.elem) ::
      ByteDelivered(k, a, before, after, t, p)
  }

  predicate ByteDelivered(k: Kernel, a: Args, before: seq<byte>, after: seq<byte>, t: nat, p: nat)
    requires WellFormed(a)
  {
    var b, f := BlockBytes(a.totalBytes, a.commDpus, a.elem), Destination(k, a, t);
    && 0 <= f < a.commDpus
    && Addr(a.target, b, f, p) < |after| && Addr(a.start, b, t, p) < |before|
    && after[Addr(a.target, b, f, p)] == before[Addr(a.start, b, t, p)]
  }

  function RotationOf(k: Kernel): Rotation {
    match k
    case RelocateClockwise => Clockwise
    case RelocateCounterclockwise => Counterclockwise
    case RelocateIncremental => Incremental
    case RelocateReverse => Reverse
    case ClockwiseShort => Clockwise
    case ReverseShort => Reverse
    case ModifiedClockwise => Reverse
    case ModifiedReverse => Clockwise
  }

  function GroupOf(k: Kernel, a: Args): nat
    requires WellFormed(a)
  {
    if k.ModifiedClockwise? || k.ModifiedReverse? then 2
    else if k.ClockwiseShort? || k.ReverseShort? || (k.RelocateReverse? && a.commRg < 8) then a.commRg
    else WideGroup(a)
  }

  function NumberOf(k: Kernel, a: Args): nat
    requires WellFormed(a)
  {
    if k.ModifiedClockwise? || k.ModifiedReverse? then a.dpu / 2
    else if k.ClockwiseShort? || k.ReverseShort? || (k.RelocateReverse? && a.commRg < 8) then Number(a)
    else a.dpu
  }

  /** The only pass of a launch with a single phase. */
  lemma PassIs(k: Kernel, a: Args)
    requires Launchable(k, a) && !InTwoPhases(k, a) && !DoesNothing(k, a)
    ensures |Plan(k, a)| == 1
    ensures var c := Plan(k, a)[0];
            && c == Pass(RotationOf(k), a, GroupOf(k, a), NumberOf(k, a), c.tasklets, c.barriers)
            && GroupSize(c.group) && 0 < c.tasklets
  {
  }

  lemma DestinationIs(k: Kernel, a: Args, t: nat)
    requires WellFormed(a) && !InTwoPhases(k, a) && !(k.ModifiedReverse? && !a.withoutX) && !DoesNothing(k, a)
    requires !a.noRotate
    ensures 0 < GroupOf(k, a)
    ensures Destination(k, a, t) ==
            match RotationOf(k)
            case Clockwise => InGroup(GroupOf(k, a), t, t - NumberOf(k, a))
            case Counterclockwise => InGroup(GroupOf(k, a), t, t + NumberOf(k, a))
            case Reverse => InGroup(GroupOf(k, a), t, NumberOf(k, a) - t)
            case Incremental => t
  {
    hide InGroup, WideGroup, Number;
  }

  lemma SlotIsDestination(k: Kernel, a: Args, c: Layout, t: nat)
    requires WellFormed(a) && !InTwoPhases(k, a) && !(k.ModifiedReverse? && !a.withoutX) && !DoesNothing(k, a)
    requires c == Pass(RotationOf(k), a, GroupOf(k, a), NumberOf(k, a), c.tasklets, c.barriers) && GroupSize(c.group)
    ensures Slot(c, t) == Destination(k, a, t)
  {
    if a.noRotate {
      hide BlockBytes, RotationOf, GroupOf, NumberOf, DoesNothing, InTwoPhases;
    } else {
      hide Slot, WideGroup, Number, BlockBytes, RotationOf, GroupOf, NumberOf, Destination, DoesNothing, InTwoPhases;
      DestinationIs(k, a, t);
      SlotIn(c, t);
      DivModUnique(t, c.group, t / c.group, t % c.group);
    }
  }

  /** All launches, with any number of blocks: every block arrives at its destination, for all memories, exactly if
      the launch has a single phase, or little is left over, or the second phase moves no block, or the
      blocks are empty. */
  lemma KernelsDeliver(k: Kernel, a: Args, size: nat)
    requires Launchable(k, a) && Fits(a, size) && !DoesNothing(k, a) && (InTwoPhases(k, a) ==> a.commDpus % 4 == 0)
    ensures (forall before: seq<byte>, after: seq<byte> | |before| == size && Passes(Plan(k, a), before, after) ::
               Delivered(k, a, before, after))
       <==> (|| !InTwoPhases(k, a) || LeavesLittle(a) || a.noRotate || a.dpu / 4 % 2 == 0
             || BlockBytes(a.totalBytes, a.commDpus, a.elem) == 0)
  {
    NothingPlanned(k, a);
    if InTwoPhases(k, a) {
      PhasesDeliver(k, a, size);
    } else {
      forall before: seq<byte>, after: seq<byte> | |before| == size && Passes(Plan(k, a), before, after)
        ensures Delivered(k, a, before, after)
      {
        PassDelivers(k, a, before, after);
      }
    }
  }

  lemma PassDelivers(k: Kernel, a: Args, before: seq<byte>, after: seq<byte>)
    requires Launchable(k, a) && !InTwoPhases(k, a) && !DoesNothing(k, a) && Passes(Plan(k, a), before, after)
    ensures Delivered(k, a, before, after)
  {
    PassIs(k, a);
    var c := Plan(k, a)[0];
    assert Plan(k, a) == [c];
    SinglePass(c, before, after);
    hide Plan, Passes, Slot, Destination, DoesNothing, InTwoPhases, Relocated, RotationOf, GroupOf, NumberOf;
    hide BlockBytes;
    forall t: nat, p: nat | t < a.commDpus && p < BlockBytes(a.totalBytes, a.commDpus, a.elem)
      ensures ByteDelivered(k, a, before, after, t, p)
    {
      SlotIsDestination(k, a, c, t);
      Arrives(c, before, after, t, p);
    }
  }

  lemma PhasesDeliver(k: Kernel, a: Args, size: nat)
    requires Launchable(k, a) && Fits(a, size) && InTwoPhases(k, a) && a.commDpus % 4 == 0
    ensures (forall before: seq<byte>, after: seq<byte> | |before| == size && Passes(Plan(k, a), before, after) ::
               Delivered(k, a, before, after))
       <==> (|| LeavesLittle(a) || a.noRotate || a.dpu / 4 % 2 == 0
             || BlockBytes(a.totalBytes, a.commDpus, a.elem) == 0)
  {
    var rotation := if k.ModifiedReverse? then Clockwise else Reverse;
    var tasklets: nat := if k.ModifiedReverse? then 2 else 4;
    assert Plan(k, a) == TwoPhasePlan(rotation, a, tasklets, k.ModifiedReverse?);
    TwoPhasesCompose(rotation, a, tasklets, k.ModifiedReverse?, size);
    forall before: seq<byte>, after: seq<byte>
      ensures Delivered(k, a, before, after) <==> Composed(a, before, after)
    {
      SameDelivery(k, a, before, after);
    }
  }

  lemma SameDelivery(k: Kernel, a: Args, before: seq<byte>, after: seq<byte>)
    requires WellFormed(a) && InTwoPhases(k, a)
    ensures Delivered(k, a, before, after) <==> Composed(a, before, after)
  {
    forall t: nat, p: nat
      ensures ByteDelivered(k, a, before, after, t, p) <==> Arrived(a, before, after, t, p)
    {
    }
  }

  // ---------------------------------------------------------------- and nothing else changes

  lemma OtherBytesStay(k: Kernel, a: Args, before: seq<byte>, after: seq<byte>, x: nat)
    requires Launchable(k, a) && Passes(Plan(k, a), before, after) && x < |before|
    requires !(a.target <= x < a.target + a.totalBytes)
    requires InTwoPhases(k, a) ==> !(a.start <= x < a.start + a.totalBytes)
    ensures |after| == |before| && after[x] == before[x]
  {
    NothingPlanned(k, a);
    RegionFits(a.totalBytes, a.commDpus, a.elem);
    var ps := Plan(k, a);
    if |ps| == 1 {
      assert ps == [ps[0]];
      SinglePass(ps[0], before, after);
    } else if |ps| == 2 {
      RegionFits(a.totalBytes, a.commDpus / 2, a.elem);
      assert ps == [ps[0], ps[1]];
      var middle := TwoPasses(ps[0], ps[1], before, after);
    }
  }

  // ---------------------------------------------------------------- when a launch may be made

  /** The block counts that a launch can handle. */
  predicate WholeGroups(k: Kernel, a: Args)
    requires WellFormed(a)
  {
    match k
    case RelocateReverse => a.commRg < 8 ==> a.commDpus % a.commRg == 0
    case ClockwiseShort => a.commDpus % a.commRg == 0
    case ReverseShort => a.commDpus % a.commRg == 0
    case ModifiedClockwise => a.commRg < 8 ==> a.commDpus % (if a.withoutX then 2 else 4) == 0
    case ModifiedReverse => a.commDpus % (if a.withoutX then 2 else 4) == 0
    case _ => true
  }

  /** The launches whose passes keep their groups together by barriers, in the phase that writes the target. */
  predicate BarriersThroughout(k: Kernel, a: Args) {
    match k
    case RelocateReverse => a.commRg == 8
    case ClockwiseShort => !a.withoutX && (a.commRg == 4 || a.commRg == 2)
    case ReverseShort => !a.withoutX && (a.commRg == 4 || a.commRg == 2)
    case ModifiedClockwise => a.commRg == 8
    case ModifiedReverse => !a.withoutX
    case _ => true
  }

  /** All launches: between disjoint regions a launch may be made exactly if it gets whole groups, and in place exactly
      if it also has barriers throughout.  Blocks must not be empty: with empty ones nothing can go wrong. */
  lemma StartsExactly(k: Kernel, a: Args, size: nat)
    requires Launchable(k, a) && Fits(a, size) && 0 < BlockBytes(a.totalBytes, a.commDpus, a.elem)
    requires DisjointRegions(a) || a.start == a.target
    ensures (forall c | c in Plan(k, a) :: Startable(c, size))
       <==> DoesNothing(k, a) || (WholeGroups(k, a) && (DisjointRegions(a) || BarriersThroughout(k, a)))
  {
    NothingPlanned(k, a);
    if InTwoPhases(k, a) {
      PhasesStart(k, a, size);
    } else if !DoesNothing(k, a) {
      PassStarts(k, a, size);
      assert forall c | c in Plan(k, a) :: c == Plan(k, a)[0];
      assert Plan(k, a)[0] in Plan(k, a);
    }
  }

  lemma PassStarts(k: Kernel, a: Args, size: nat)
    requires Launchable(k, a) && Fits(a, size) && 0 < BlockBytes(a.totalBytes, a.commDpus, a.elem)
    requires !InTwoPhases(k, a) && !DoesNothing(k, a) && |Plan(k, a)| == 1
    requires DisjointRegions(a) || a.start == a.target
    ensures Startable(Plan(k, a)[0], size) <==> WholeGroups(k, a) && (DisjointRegions(a) || BarriersThroughout(k, a))
  {
    PassIs(k, a);
    SomeBytes(a);
    var c := Plan(k, a)[0];
    PassInStep(k, a);
    assert c.blocks == a.commDpus && c.start == a.start && c.target == a.target;
    assert c.blockBytes == BlockBytes(a.totalBytes, a.commDpus, a.elem);
    hide Plan, DoesNothing, InTwoPhases, BlockBytes, RotationOf, GroupOf, NumberOf, WholeGroups, BarriersThroughout;
  }

  /** Its groups are whole, and its tasklets share its barriers, as the arguments say. */
  lemma PassInStep(k: Kernel, a: Args)
    requires Launchable(k, a) && !InTwoPhases(k, a) && !DoesNothing(k, a) && |Plan(k, a)| == 1
    ensures var c := Plan(k, a)[0];
            && 0 < c.group
            && (c.blocks % c.group == 0 <==> WholeGroups(k, a))
            && (c.barriers <==> BarriersThroughout(k, a))
            && (c.barriers ==> c.tasklets == c.group)
  {
    PassIs(k, a);
    DivModUnique(a.commDpus, a.commDpus, 1, 0);
  }

  lemma SomeBytes(a: Args)
    requires WellFormed(a) && 0 < BlockBytes(a.totalBytes, a.commDpus, a.elem)
    ensures 0 < a.commDpus * BlockBytes(a.totalBytes, a.commDpus, a.elem) <= a.totalBytes
  {
    RegionFits(a.totalBytes, a.commDpus, a.elem);
    MulGap(0, a.commDpus, BlockBytes(a.totalBytes, a.commDpus, a.elem));
  }

  lemma PhasesStart(k: Kernel, a: Args, size: nat)
    requires Launchable(k, a) && Fits(a, size) && InTwoPhases(k, a)
    requires 0 < BlockBytes(a.totalBytes, a.commDpus, a.elem)
    requires DisjointRegions(a) || a.start == a.target
    ensures (forall c | c in Plan(k, a) :: Startable(c, size))
       <==> a.commDpus % 4 == 0 && (DisjointRegions(a) || k.ModifiedReverse?)
  {
    var rotation := if k.ModifiedReverse? then Clockwise else Reverse;
    var tasklets: nat := if k.ModifiedReverse? then 2 else 4;
    var ps := Plan(k, a);
    assert ps == TwoPhasePlan(rotation, a, tasklets, k.ModifiedReverse?);
    if DisjointRegions(a) || k.ModifiedReverse? {
      TwoPhasePlanIsStartable(rotation, a, tasklets, k.ModifiedReverse?, size);
    } else {
      SecondPhaseInPlace(a);
      assert ps[1] in ps && !Safe(ps[1]);
    }
  }

  lemma SecondPhaseInPlace(a: Args)
    requires WellFormed(a) && 2 <= a.commDpus && 0 < BlockBytes(a.totalBytes, a.commDpus, a.elem)
    ensures 0 < a.commDpus / 2 * BlockBytes(a.totalBytes, a.commDpus / 2, a.elem)
  {
    SomeBytes(a);
    WholeElements(a);
    var n, b := a.commDpus / 2, BlockBytes(a.totalBytes, a.commDpus, a.elem);
    FitsTwice(n, a.commDpus, a.elem, b);
    hide BlockBytes;
    EnoughForSome(a.totalBytes, n, a.elem);
    MulGap(0, n, BlockBytes(a.totalBytes, n, a.elem));
  }

  lemma FitsTwice(n: nat, m: nat, x: nat, y: nat)
    requires n <= m && x <= y
    ensures n * x <= m * y
  {
    MulGap(x, y, n);
    MulGap(n, m, y);
  }

  lemma EnoughForSome(totalBytes: nat, n: nat, elem: nat)
    requires 0 < n && 0 < elem && n * elem <= totalBytes
    ensures 0 < BlockBytes(totalBytes, n, elem)
  {
    var m := n * elem;
    assert 0 < m;
    var q := totalBytes / m;
    assert totalBytes == q * m + totalBytes % m;
    assert 0 < q;
    MulGap(0, q, elem);
  }
}
