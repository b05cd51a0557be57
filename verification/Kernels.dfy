/** The eight relocation kernels: which passes each of them makes for given arguments, and what the passes add
    up to. */
module Kernels {
  import opened Arithmetic
  import opened Bytes
  import opened Blocks
  import opened Tasklets
  import opened Scheduling

  /** The launch arguments a kernel reads; `elem` is the size of the element type it was compiled for. */
  datatype Args = Args(start: nat, target: nat, totalBytes: nat, commDpus: nat, dpu: nat, noRotate: bool,
                       withoutX: bool, commRg: nat, elem: nat)

  datatype Kernel =
    | RelocateClockwise | RelocateCounterclockwise | RelocateReverse | RelocateIncremental
    | ClockwiseShort | ReverseShort | ModifiedClockwise | ModifiedReverse

  /** What the host guarantees about the arguments. */
  predicate WellFormed(a: Args) {
    0 < a.commDpus && GroupSize(a.commRg) && GroupSize(a.elem)
  }

  /** `max_words_per_dpu`, in bytes, when the data is split into `n` blocks. */
  function BlockBytes(totalBytes: nat, n: nat, elem: nat): nat
    requires 0 < n && 0 < elem
  {
    assert 0 < n * elem;
    totalBytes / (n * elem) * elem
  }

  /** It is the largest number of whole elements of which `n` blocks fit into the data. */
  lemma BlockBytesIsLargest(totalBytes: nat, n: nat, elem: nat)
    requires 0 < n && 0 < elem
    ensures var b := BlockBytes(totalBytes, n, elem);
            b % elem == 0 && n * b <= totalBytes < n * (b + elem)
  {
    assert 0 < n * elem;
    var q := totalBytes / (n * elem);
    assert totalBytes == q * (n * elem) + totalBytes % (n * elem);
    DivModUnique(q * elem, elem, q, 0);
    assert n * (q * elem) == q * (n * elem);
    assert n * (q * elem + elem) == n * (q * elem) + n * elem;
  }

  /** The kernels count the last chunk in elements: what is left over of `words` after `chunk` chunks.  In bytes
      that is the length of the chunk. */
  lemma LeftoverIsChunkLength(words: nat, elem: nat, chunk: nat)
    requires GroupSize(elem) && chunk + 1 == Iterations(words * elem)
    ensures 0 < words - 2048 / elem * chunk
    ensures (words - 2048 / elem * chunk) * elem == ChunkLength(words * elem, chunk)
  {
    assert CHUNK / elem * elem == CHUNK;
    assert CHUNK / elem * chunk * elem == CHUNK / elem * elem * chunk;
    var left: int := words - CHUNK / elem * chunk;
    assert left * elem == ChunkLength(words * elem, chunk);
    assert left <= 0 ==> left * elem <= 0;
  }

  function Pass(rotation: Rotation, a: Args, group: nat, dpu: nat, tasklets: nat, barriers: bool): Layout
    requires WellFormed(a)
  {
    Layout(rotation, a.noRotate, group, dpu, a.commDpus, BlockBytes(a.totalBytes, a.commDpus, a.elem),
           a.start, a.target, tasklets, barriers)
  }

  /** Whole groups of eight, or a single group of four or two. */
  function GroupedPlan(rotation: Rotation, a: Args): seq<Layout>
    requires WellFormed(a)
  {
    if a.commDpus % 8 == 0 then [Pass(rotation, a, 8, a.dpu, 8, true)]
    else if a.commDpus == 4 || a.commDpus == 2 then [Pass(rotation, a, a.commDpus, a.dpu, a.commDpus, true)]
    else []
  }

  function ShortPlan(rotation: Rotation, a: Args): seq<Layout>
    requires WellFormed(a)
  {
    if !a.withoutX then [Pass(rotation, a, a.commRg, a.dpu, a.commRg, a.commRg == 4 || a.commRg == 2)]
    else [Pass(rotation, a, a.commRg, a.dpu / (8 / a.commRg), a.commRg, false)]
  }

  /** Two passes: pairs of blocks inside the source region, then pairs of double blocks to the target. */
  function TwoPhasePlan(rotation: Rotation, a: Args, tasklets: nat, barriersAgain: bool): seq<Layout>
    requires WellFormed(a) && 2 <= a.commDpus
  {
    [Pass(rotation, a.(target := a.start), 2, a.dpu, tasklets, true),
     Pass(rotation, a.(commDpus := a.commDpus / 2), 2, a.dpu / 4, 2, barriersAgain)]
  }

  /** The passes a kernel makes, branch by branch.  An empty plan is a launch that does nothing. */
  function Plan(k: Kernel, a: Args): seq<Layout>
    requires WellFormed(a)
    requires (k.ModifiedClockwise? || k.ModifiedReverse?) ==> 2 <= a.commDpus
    requires k.ModifiedReverse? ==> a.commRg == 2
  {
    match k
    case RelocateClockwise => GroupedPlan(Clockwise, a)
    case RelocateCounterclockwise => GroupedPlan(Counterclockwise, a)
    case RelocateIncremental => GroupedPlan(Incremental, a)
    case RelocateReverse =>
      if a.commDpus % 8 == 0 && a.commRg == 8 then [Pass(Reverse, a, 8, a.dpu, 8, true)]
      else if a.commRg < 8 && !a.withoutX then [Pass(Reverse, a, a.commRg, a.dpu, a.commRg, false)]
      else if a.commRg < 8 then [Pass(Reverse, a, a.commRg, a.dpu / (8 / a.commRg), 8 / a.commRg, false)]
      else if a.commDpus == 4 || a.commDpus == 2 then [Pass(Reverse, a, a.commDpus, a.dpu, a.commDpus, true)]
      else []
    case ClockwiseShort => ShortPlan(Clockwise, a)
    case ReverseShort => ShortPlan(Reverse, a)
    case ModifiedClockwise =>
      if a.commRg < 8 && !a.withoutX then TwoPhasePlan(Reverse, a, 4, false)
      else if a.commRg < 8 then [Pass(Reverse, a, 2, a.dpu / 2, 2, false)]
      else []
    case ModifiedReverse =>
      if !a.withoutX then TwoPhasePlan(Clockwise, a, 2, true)
      else [Pass(Clockwise, a, 2, a.dpu / 2, 2, false)]
  }

  /** A pass that may be started: it stays inside the memory, its regions do not interfere, and no tasklet
      waits for one that has nothing left to do. */
  predicate Startable(c: Layout, size: nat) {
    Valid(c, size) && Safe(c) && (c.barriers ==> c.blocks % c.tasklets == 0)
  }

  ghost predicate Passes(ps: seq<Layout>, before: seq<byte>, after: seq<byte>) {
    if ps == [] then before == after
    else Valid(ps[0], |before|) && exists m :: Relocated(ps[0], before, m) && Passes(ps[1..], m, after)
  }

  /** Runs the passes of a plan one after the other.  A pass ends for all its tasklets at once (see
      `DoneTogether`), so none of its writes can still be under way when the next pass reads. */
  method RunPlan(ps: seq<Layout>, mem: array<byte>)
    requires forall c | c in ps :: Startable(c, mem.Length)
    modifies mem
    ensures Passes(ps, old(mem[..]), mem[..])
  {
    if ps != [] {
      ghost var before := mem[..];
      assert ps[0] in ps;
      RunPass(ps[0], mem);
      ghost var middle := mem[..];
      RunPlan(ps[1..], mem);
      assert Relocated(ps[0], before, middle) && Passes(ps[1..], middle, mem[..]);
    }
  }

  /** With barriers, a tasklet that has ended its pass knows that all of them have. */
  lemma DoneTogether(c: Layout, m0: seq<byte>, s: State, i: nat)
    requires Valid(c, |m0|) && Inv(c, m0, s) && c.barriers && c.blocks % c.tasklets == 0
    requires i < c.tasklets && s.tasklets[i].phase.Finished?
    ensures AllFinished(s.tasklets) && Relocated(c, m0, s.mem)
  {
    var head := s.tasklets[0];
    assert InStep(c, head, i, s.tasklets[i]) && InRange(c, 0, head);
    if !head.phase.Finished? {
      FullRow(c.blocks, c.tasklets, head.block, i);
    }
    forall j | 0 <= j < c.tasklets
      ensures s.tasklets[j].phase.Finished?
    {
      assert InStep(c, head, j, s.tasklets[j]);
    }
    FinishedMeansRelocated(c, m0, s);
  }

  // ---------------------------------------------------------------- the plans are startable

  predicate Fits(a: Args, size: nat) {
    a.start + a.totalBytes <= size && a.target + a.totalBytes <= size
  }

  predicate DisjointRegions(a: Args) {
    a.start + a.totalBytes <= a.target || a.target + a.totalBytes <= a.start
  }

  lemma RegionFits(totalBytes: nat, n: nat, elem: nat)
    requires 0 < n && 0 < elem
    ensures n * BlockBytes(totalBytes, n, elem) <= totalBytes
  {
    assert 0 < n * elem;
    var q := totalBytes / (n * elem);
    assert totalBytes == q * (n * elem) + totalBytes % (n * elem);
    assert n * (q * elem) == q * (n * elem);
  }

  /** In place or with disjoint regions, the rotating, reflecting and copying kernels with barriers can be
      started for every number of blocks that they handle at all. */
  lemma GroupedPlanIsStartable(rotation: Rotation, a: Args, size: nat)
    requires WellFormed(a) && Fits(a, size) && (a.start == a.target || DisjointRegions(a))
    ensures forall c | c in GroupedPlan(rotation, a) :: Startable(c, size)
    ensures GroupedPlan(rotation, a) == [] <==> !(a.commDpus % 8 == 0 || a.commDpus == 4 || a.commDpus == 2)
  {
    RegionFits(a.totalBytes, a.commDpus, a.elem);
    DivModUnique(a.commDpus, a.commDpus, 1, 0);
  }

  /** The kernels whose groups are the DPUs of one entangled group can be started in place in their branch with
      barriers, and in every branch if the regions are disjoint. */
  lemma ShortPlanIsStartable(rotation: Rotation, a: Args, size: nat)
    requires WellFormed(a) && Fits(a, size) && a.commDpus % a.commRg == 0
    requires DisjointRegions(a) || (a.start == a.target && !a.withoutX && (a.commRg == 2 || a.commRg == 4))
    ensures forall c | c in ShortPlan(rotation, a) :: Startable(c, size)
  {
    RegionFits(a.totalBytes, a.commDpus, a.elem);
    DivModUnique(a.commRg, a.commRg, 1, 0);
  }

  /** All branches of the reflecting kernel.  Those for groups of less than eight need whole groups; the others
      handle every number of blocks for which they do anything. */
  lemma ReversePlanIsStartable(a: Args, size: nat)
    requires WellFormed(a) && Fits(a, size) && (a.commRg < 8 ==> a.commDpus % a.commRg == 0)
    requires DisjointRegions(a) || (a.start == a.target && a.commRg == 8)
    ensures forall c | c in Plan(RelocateReverse, a) :: Startable(c, size)
    ensures Plan(RelocateReverse, a) == []
       <==> a.commRg == 8 && !(a.commDpus % 8 == 0 || a.commDpus == 4 || a.commDpus == 2)
  {
    RegionFits(a.totalBytes, a.commDpus, a.elem);
    DivModUnique(a.commDpus, a.commDpus, 1, 0);
  }

  /** The two-phase kernels can be started exactly if the number of blocks is divisible by four.  Their first phase
      rewrites the source region; the final target may be that region too if the second phase has barriers. */
  lemma TwoPhasePlanIsStartable(rotation: Rotation, a: Args, tasklets: nat, barriersAgain: bool, size: nat)
    requires WellFormed(a) && Fits(a, size) && 2 <= a.commDpus
    requires DisjointRegions(a) || (a.start == a.target && barriersAgain)
    requires tasklets == 2 || tasklets == 4
    ensures (forall c | c in TwoPhasePlan(rotation, a, tasklets, barriersAgain) :: Startable(c, size))
      <==> a.commDpus % 4 == 0
  {
    var ps := TwoPhasePlan(rotation, a, tasklets, barriersAgain);
    RegionFits(a.totalBytes, a.commDpus, a.elem);
    RegionFits(a.totalBytes, a.commDpus / 2, a.elem);
    assert ps[0] in ps && ps[1] in ps;
    HalfIsEven(a.commDpus);
  }

  lemma HalfIsEven(n: nat)
    ensures n % 4 == 0 <==> n % 2 == 0 && n / 2 % 2 == 0
  {
  }

  /** For every other number of blocks a phase with barriers never ends, under any schedule and for any memory that
      it stays inside, unless its blocks are empty: the first one if it has four tasklets or the number is
      odd, and the second one if the number is even and it has barriers too. */
  lemma TwoPhasesHang(rotation: Rotation, a: Args, tasklets: nat, barriersAgain: bool, m0: seq<byte>,
                      schedule: seq<nat>)
    requires WellFormed(a) && 2 <= a.commDpus && a.commDpus % 4 != 0
      && (tasklets == 4 || (tasklets == 2 && barriersAgain))
    ensures var ps := TwoPhasePlan(rotation, a, tasklets, barriersAgain);
            var c := if tasklets == 4 || a.commDpus % 2 != 0 then ps[0] else ps[1];
            c.barriers && (Placed(c, |m0|) && 0 < c.blockBytes ==> !Run(c, m0, schedule).tasklets[0].phase.Finished?)
  {
    var ps := TwoPhasePlan(rotation, a, tasklets, barriersAgain);
    var c := if tasklets == 4 || a.commDpus % 2 != 0 then ps[0] else ps[1];
    HalfIsEven(a.commDpus);
    if Placed(c, |m0|) && 0 < c.blockBytes {
      ShortRowBlocks(c, m0, schedule);
    }
  }

  // ---------------------------------------------------------------- the kernels with groups of eight

  /** The position of block `t` after the kernels that rotate, reflect or copy groups of eight. */
  function EightSlot(k: Kernel, d: nat, t: nat): int
    requires k.RelocateClockwise? || k.RelocateCounterclockwise? || k.RelocateReverse? || k.RelocateIncremental?
  {
    match k
    case RelocateClockwise => t / 8 * 8 + (t - d) % 8
    case RelocateCounterclockwise => t / 8 * 8 + (t + d) % 8
    case RelocateReverse => t / 8 * 8 + (d - t) % 8
    case RelocateIncremental => t
  }

  lemma SinglePass(c: Layout, before: seq<byte>, after: seq<byte>)
    requires Passes([c], before, after)
    ensures Valid(c, |before|) && Relocated(c, before, after)
  {
    assert [c][1..] == [];
    var m :| Relocated(c, before, m) && Passes([], m, after);
  }

  /** Whatever the number of whole groups, and in place as well as into another region, block `t` arrives at its
      position, and nothing outside the target region changes. */
  lemma EightsArrive(k: Kernel, a: Args, before: seq<byte>, after: seq<byte>, t: nat, p: nat)
    requires k.RelocateClockwise? || k.RelocateCounterclockwise? || k.RelocateIncremental?
      || (k.RelocateReverse? && a.commRg == 8)
    requires WellFormed(a) && a.commDpus % 8 == 0 && !a.noRotate && Passes(Plan(k, a), before, after)
    requires t < a.commDpus && p < BlockBytes(a.totalBytes, a.commDpus, a.elem)
    ensures var b, slot := BlockBytes(a.totalBytes, a.commDpus, a.elem), EightSlot(k, a.dpu, t);
            && 0 <= slot < a.commDpus && |after| == |before|
            && Addr(a.target, b, slot, p) < |after| && Addr(a.start, b, t, p) < |before|
            && after[Addr(a.target, b, slot, p)] == before[Addr(a.start, b, t, p)]
            && forall x: nat | x < |before| && !(a.target <= x < a.target + a.commDpus * b) :: after[x] == before[x]
  {
    var c := Plan(k, a)[0];
    SinglePass(c, before, after);
    EightSlotIs(k, a, c, t);
    hide Slot, BlockBytes, EightSlot, Plan, Passes;
    Arrives(c, before, after, t, p);
  }

  lemma EightSlotIs(k: Kernel, a: Args, c: Layout, t: nat)
    requires k.RelocateClockwise? || k.RelocateCounterclockwise? || k.RelocateIncremental?
      || (k.RelocateReverse? && a.commRg == 8)
    requires WellFormed(a) && a.commDpus % 8 == 0 && !a.noRotate && c == Plan(k, a)[0]
    ensures Slot(c, t) == EightSlot(k, a.dpu, t)
    ensures Plan(k, a) == [c] && c.start == a.start && c.target == a.target && c.blocks == a.commDpus
    ensures c.blockBytes == BlockBytes(a.totalBytes, a.commDpus, a.elem)
  {
    SlotIn(c, t);
    hide Slot;
    assert t == t / 8 * 8 + t % 8;
  }

  lemma Arrives(c: Layout, before: seq<byte>, after: seq<byte>, t: nat, p: nat)
    requires Valid(c, |before|) && Relocated(c, before, after) && t < c.blocks && p < c.blockBytes
    ensures Slot(c, t) < c.blocks && |after| == |before|
    ensures Addr(c.target, c.blockBytes, Slot(c, t), p) < |after| && Addr(c.start, c.blockBytes, t, p) < |before|
    ensures after[Addr(c.target, c.blockBytes, Slot(c, t), p)] == before[Addr(c.start, c.blockBytes, t, p)]
    ensures forall x: nat | x < |before| && !(c.target <= x < c.target + c.blocks * c.blockBytes) ::
        after[x] == before[x]
  {
    SlotStaysInside(c, t);
    AddrInside(c.target, c.blockBytes, c.blocks, Slot(c, t), p);
    AddrInside(c.start, c.blockBytes, c.blocks, t, p);
    assert BlockMoved(c, before, after, t, p);
  }
}
