/** What the barriers are for: when a pass in place may do without them, and what happens if it may not. */
module Barriers {
  import opened Arithmetic
  import opened Bytes
  import opened Blocks
  import opened Tasklets
  import opened Scheduling
  import opened Kernels

  // ---------------------------------------------------------------- a pass that moves no block is harmless

  /** Nothing has changed, and the caches hold what they were read from. */
  ghost predicate Unchanged(c: Layout, m0: seq<byte>, s: State) {
    Shaped(c, |m0|, s) && s.mem == m0 && forall i: nat | i < c.tasklets :: CacheOk(c, m0, s.tasklets[i])
  }

  lemma StepUnchanged(c: Layout, m0: seq<byte>, s: State, i: nat)
    requires Valid(c, |m0|) && c.start == c.target && !c.barriers && Harmless(c)
    requires Unchanged(c, m0, s) && i < c.tasklets && Runnable(s.tasklets[i])
    ensures InRange(c, i, s.tasklets[i]) && Unchanged(c, m0, Step(c, s, i))
  {
    StepShape(c, s, i);
    assert CacheOk(c, m0, s.tasklets[i]);
    StepKeepsMemory(c, s, i);
    StepKeepsCache(c, s, i);
    OneTasklet(c, s, i);
    hide Step, Shaped, Harmless, CacheOk, InRange, Valid;
  }

  lemma StepKeepsMemory(c: Layout, s: State, i: nat)
    requires Valid(c, |s.mem|) && c.start == c.target && !c.barriers && Harmless(c)
    requires i < |s.tasklets| && Runnable(s.tasklets[i]) && InRange(c, i, s.tasklets[i])
    requires CacheOk(c, s.mem, s.tasklets[i])
    ensures Step(c, s, i).mem == s.mem
  {
    var tk := s.tasklets[i];
    OneTasklet(c, s, i);
    if tk.phase.Writing? && tk.phase.put < ChunkLength(c.blockBytes, tk.chunk) {
      KeptSlot(c, tk.block);
      WriteStep(c, s, i);
      SameAddress(c, tk, tk.phase.put);
    }
    hide Step, Slot, Iterations, KeepsBlocks;
  }

  lemma StepKeepsCache(c: Layout, s: State, i: nat)
    requires Valid(c, |s.mem|) && !c.barriers && i < |s.tasklets| && Runnable(s.tasklets[i])
    requires InRange(c, i, s.tasklets[i]) && CacheOk(c, s.mem, s.tasklets[i])
    ensures CacheOk(c, s.mem, Step(c, s, i).tasklets[i])
  {
    var tk := s.tasklets[i];
    var n := ChunkLength(c.blockBytes, tk.chunk);
    assert (tk.phase.Reading? ==> tk.phase.got <= n) && (tk.phase.Writing? ==> tk.phase.put <= n);
    hide Step, Slot, Iterations, SourceAddr, TargetAddr, CacheOk, Valid, InRange, Advance, Addr;
    OneTasklet(c, s, i);
    CacheStays(c, s.mem, tk);
    if tk.phase.Reading? && tk.phase.got < n {
      CacheGrows(c, s.mem, i, tk);
    } else if tk.phase.Writing? && tk.phase.put < n {
      WriteStep(c, s, i);
    }
  }

  lemma CacheStays(c: Layout, m: seq<byte>, tk: Tasklet)
    requires CacheOk(c, m, tk) && Runnable(tk)
    ensures forall put: nat :: CacheOk(c, m, tk.(phase := Writing(put)))
    ensures CacheOk(c, m, Advance(c, tk))
  {
    hide Iterations, Addr;
    forall put: nat
      ensures CacheOk(c, m, tk.(phase := Writing(put)))
    {
      assert forall k: nat :: SourceAddr(c, tk.(phase := Writing(put)), k) == SourceAddr(c, tk, k);
    }
  }

  /** The next byte read is what the cache should hold. */
  lemma CacheGrows(c: Layout, m: seq<byte>, i: nat, tk: Tasklet)
    requires InRange(c, i, tk) && CacheOk(c, m, tk) && tk.phase.Reading?
    requires tk.phase.got < ChunkLength(c.blockBytes, tk.chunk) && SourceAddr(c, tk, tk.phase.got) < |m|
    ensures CacheOk(c, m, tk.(phase := Reading(tk.phase.got + 1),
                              cache := tk.cache + [m[SourceAddr(c, tk, tk.phase.got)]]))
  {
    var after := tk.(phase := Reading(tk.phase.got + 1), cache := tk.cache + [m[SourceAddr(c, tk, tk.phase.got)]]);
    assert tk.phase.got == |tk.cache|;
    forall k: nat | k < |after.cache|
      ensures SourceAddr(c, after, k) < |m| && after.cache[k] == m[SourceAddr(c, after, k)]
    {
      assert SourceAddr(c, after, k) == SourceAddr(c, tk, k);
    }
  }

  lemma SameAddress(c: Layout, tk: Tasklet, k: nat)
    requires GroupSize(c.group) && c.start == c.target && Slot(c, tk.block) == tk.block
    ensures TargetAddr(c, tk, k) == SourceAddr(c, tk, k)
  {
  }

  /** Without barriers a step of one tasklet changes that tasklet only. */
  lemma OneTasklet(c: Layout, s: State, i: nat)
    requires Valid(c, |s.mem|) && i < |s.tasklets| && Runnable(s.tasklets[i]) && InRange(c, i, s.tasklets[i])
      && !c.barriers
    ensures var tk, s' := s.tasklets[i], Step(c, s, i);
            var n := ChunkLength(c.blockBytes, tk.chunk);
            && s'.tasklets == s.tasklets[i := s'.tasklets[i]]
            && (tk.phase.Reading? && tk.phase.got < n ==>
                  s'.mem == s.mem && SourceAddr(c, tk, tk.phase.got) < |s.mem|
                  && s'.tasklets[i] == tk.(phase := Reading(tk.phase.got + 1),
                                           cache := tk.cache + [s.mem[SourceAddr(c, tk, tk.phase.got)]]))
            && (tk.phase.Reading? && tk.phase.got == n ==>
                  s'.mem == s.mem && s'.tasklets[i] == tk.(phase := Writing(0)))
            && (tk.phase.Writing? && tk.phase.put == n ==> s'.mem == s.mem && s'.tasklets[i] == Advance(c, tk))
  {
    var tk := s.tasklets[i];
    if tk.phase.Reading? && tk.phase.got < ChunkLength(c.blockBytes, tk.chunk) {
      AddressesInside(c, |s.mem|, i, tk, tk.phase.got);
    }
  }

  lemma {:induction false} RunUnchanged(c: Layout, m0: seq<byte>, schedule: seq<nat>)
    requires Valid(c, |m0|) && c.start == c.target && !c.barriers && Harmless(c)
    ensures Unchanged(c, m0, Run(c, m0, schedule))
  {
    if schedule != [] {
      var s, i := Run(c, m0, schedule[..|schedule| - 1]), schedule[|schedule| - 1];
      RunUnchanged(c, m0, schedule[..|schedule| - 1]);
      if i < c.tasklets && Runnable(s.tasklets[i]) {
        StepUnchanged(c, m0, s, i);
      }
    }
  }

  // ---------------------------------------------------------------- every other one loses data

  lemma RunNext(c: Layout, m0: seq<byte>, schedule: seq<nat>, i: nat)
    requires Valid(c, |m0|) && i < c.tasklets && Runnable(Run(c, m0, schedule).tasklets[i])
    ensures var s := Run(c, m0, schedule); InRange(c, i, s.tasklets[i]) && Run(c, m0, schedule + [i]) == Step(c, s, i)
  {
    assert (schedule + [i])[..|schedule|] == schedule;
    StepShape(c, Run(c, m0, schedule), i);
  }

  predicate ZeroCache(tk: Tasklet) {
    forall k: nat | k < |tk.cache| :: tk.cache[k] == 0
  }

  /** The one is gone: it is neither in memory nor in a cache. */
  ghost predicate Lost(c: Layout, size: nat, s: State) {
    && Shaped(c, size, s)
    && (forall x: nat | x < size :: s.mem[x] == 0)
    && (forall i: nat | i < c.tasklets :: ZeroCache(s.tasklets[i]) && !Waiting(s.tasklets[i]))
  }

  lemma StepLost(c: Layout, s: State, i: nat)
    requires Valid(c, |s.mem|) && !c.barriers && Lost(c, |s.mem|, s) && i < c.tasklets && Runnable(s.tasklets[i])
    ensures InRange(c, i, s.tasklets[i]) && Lost(c, |s.mem|, Step(c, s, i))
  {
    StepShape(c, s, i);
    var tk, s' := s.tasklets[i], Step(c, s, i);
    assert ZeroCache(tk);
    OneTasklet(c, s, i);
    if tk.phase.Writing? && tk.phase.put < ChunkLength(c.blockBytes, tk.chunk) {
      WriteStep(c, s, i);
    }
    hide Step, Shaped, Slot, Iterations, TargetAddr, SourceAddr;
    assert ZeroCache(s'.tasklets[i]) && !Waiting(s'.tasklets[i]);
  }

  /** Once it is gone, the pass can be run to its end, and it stays gone. */
  lemma RunToEnd(c: Layout, m0: seq<byte>, schedule: seq<nat>) returns (more: seq<nat>)
    requires Valid(c, |m0|) && !c.barriers && Lost(c, |m0|, Run(c, m0, schedule))
    ensures Lost(c, |m0|, Run(c, m0, more)) && AllFinished(Run(c, m0, more).tasklets)
    decreases TotalWork(c, Run(c, m0, schedule).tasklets, c.tasklets)
  {
    more := schedule;
    var s := Run(c, m0, schedule);
    if !AllFinished(s.tasklets) {
      var i: nat :| i < c.tasklets && !s.tasklets[i].phase.Finished?;
      RunNext(c, m0, schedule, i);
      StepLost(c, s, i);
      StepWork(c, s, i);
      more := RunToEnd(c, m0, schedule + [i]);
    }
  }

  /** The first block that moves, and where it goes: to a block behind it. */
  lemma FirstMoved(c: Layout) returns (t: nat)
    requires GroupSize(c.group) && c.blocks % c.group == 0 && 0 < c.blocks && !KeepsBlocks(c)
    ensures t < Slot(c, t) < c.blocks && forall b: nat | b < t :: Slot(c, b) == b
  {
    var m := SomeBlockMoves(c);
    assert c.group <= c.blocks by {
      if c.blocks < c.group {
        SmallMod(c.blocks, c.group);
        assert false;
      }
    }
    t := 0;
    while t < m && Slot(c, t) == t
      invariant t <= m && forall b: nat | b < t :: Slot(c, b) == b
    {
      t := t + 1;
    }
    SlotStaysInside(c, t);
    SlotIsBijection(c, t);
    SlotIsBijection(c, Slot(c, t));
  }

  /** Only tasklet `i`, whose block `t` is the first that moves, has run, and it has not yet written the first
      byte of that block over the one in block `Slot(c, t)`. */
  ghost predicate Approaching(c: Layout, size: nat, t: nat, i: nat, s: State)
    requires GroupSize(c.group) && i < c.tasklets
  {
    && Shaped(c, size, s) && s.mem == OneAt(size, Addr(c.start, c.blockBytes, Slot(c, t), 0))
    && (forall j: nat | j < c.tasklets && j != i :: s.tasklets[j] == Begin(c, j))
    && var tk := s.tasklets[i];
    && ZeroCache(tk) && Runnable(tk) && tk.block <= t
    && (tk.block == t ==> tk.chunk == 0 && (tk.phase.Reading? || tk.phase == Writing(0)))
  }

  lemma InitApproaches(c: Layout, size: nat, t: nat, i: nat)
    requires Valid(c, size) && !c.barriers && 0 < c.blockBytes && t < Slot(c, t) < c.blocks && i == t % c.tasklets
    ensures i < c.tasklets
    ensures Approaching(c, size, t, i, Init(c, OneAt(size, Addr(c.start, c.blockBytes, Slot(c, t), 0))))
  {
    RowOf(t, c.tasklets);
    InitShape(c, OneAt(size, Addr(c.start, c.blockBytes, Slot(c, t), 0)));
  }

  /** A byte of a block other than the one that holds the one is zero. */
  lemma ZeroElsewhere(c: Layout, size: nat, b: nat, p: nat, s0: nat)
    requires Valid(c, size) && b < c.blocks && p < c.blockBytes && b != s0
    ensures Addr(c.start, c.blockBytes, b, p) < size
    ensures OneAt(size, Addr(c.start, c.blockBytes, s0, 0))[Addr(c.start, c.blockBytes, b, p)] == 0
  {
    AddrInside(c.start, c.blockBytes, c.blocks, b, p);
    AddrInjective(c.start, c.blockBytes, b, p, s0, 0);
  }

  /** A step of that tasklet either keeps things so, or loses the one. */
  lemma StepApproaches(c: Layout, t: nat, i: nat, s: State)
    requires Valid(c, |s.mem|) && !c.barriers && c.start == c.target && i == t % c.tasklets < c.tasklets
    requires t < Slot(c, t) < c.blocks && forall b: nat | b < t :: Slot(c, b) == b
    requires Approaching(c, |s.mem|, t, i, s)
    ensures InRange(c, i, s.tasklets[i])
    ensures Approaching(c, |s.mem|, t, i, Step(c, s, i)) || Lost(c, |s.mem|, Step(c, s, i))
  {
    StepShape(c, s, i);
    OneTasklet(c, s, i);
    var tk, s', size := s.tasklets[i], Step(c, s, i), |s.mem|;
    var n := ChunkLength(c.blockBytes, tk.chunk);
    var s0 := Slot(c, t);
    if tk.phase.Reading? && tk.phase.got < n {
      ZeroElsewhere(c, size, tk.block, tk.chunk * CHUNK + tk.phase.got, s0);
      assert Approaching(c, size, t, i, s');
    } else if tk.phase.Reading? {
      assert Approaching(c, size, t, i, s');
    } else if tk.phase.put < n {
      WriteStep(c, s, i);
      if tk.block < t {
        ZeroElsewhere(c, size, tk.block, tk.chunk * CHUNK + tk.phase.put, s0);
        assert s'.mem == s.mem;
        assert Approaching(c, size, t, i, s');
      } else {
        assert Lost(c, size, s');
      }
    } else {
      NextInStride(c.tasklets, tk.block, t);
      assert Approaching(c, size, t, i, s');
    }
  }

  lemma RunUntilLost(c: Layout, m0: seq<byte>, t: nat, i: nat, schedule: seq<nat>) returns (more: seq<nat>)
    requires Valid(c, |m0|) && !c.barriers && c.start == c.target && i == t % c.tasklets < c.tasklets
    requires t < Slot(c, t) < c.blocks && forall b: nat | b < t :: Slot(c, b) == b
    requires Approaching(c, |m0|, t, i, Run(c, m0, schedule))
    ensures Lost(c, |m0|, Run(c, m0, more))
    decreases TotalWork(c, Run(c, m0, schedule).tasklets, c.tasklets)
  {
    var s := Run(c, m0, schedule);
    RunNext(c, m0, schedule, i);
    StepApproaches(c, t, i, s);
    StepWork(c, s, i);
    more := schedule + [i];
    if Approaching(c, |m0|, t, i, Step(c, s, i)) {
      more := RunUntilLost(c, m0, t, i, more);
    }
  }

  /** A run of a pass in place without barriers in which a byte is lost. */
  lemma LosesData(c: Layout, size: nat) returns (m0: seq<byte>, schedule: seq<nat>)
    requires Valid(c, size) && c.start == c.target && !c.barriers && !Harmless(c)
    ensures |m0| == size && AllFinished(Run(c, m0, schedule).tasklets) && !Relocated(c, m0, Run(c, m0, schedule).mem)
  {
    var t := FirstMoved(c);
    var s0, i := Slot(c, t), t % c.tasklets;
    m0 := OneAt(size, Addr(c.start, c.blockBytes, s0, 0));
    InitApproaches(c, size, t, i);
    schedule := RunUntilLost(c, m0, t, i, []);
    schedule := RunToEnd(c, m0, schedule);
    SlotStaysInside(c, s0);
    AddrInside(c.start, c.blockBytes, c.blocks, s0, 0);
    AddrInside(c.target, c.blockBytes, c.blocks, Slot(c, s0), 0);
    assert !BlockMoved(c, m0, Run(c, m0, schedule).mem, s0, 0);
  }

  /** A pass in place without barriers is correct, for all memories and under all schedules, exactly if no block
      moves or there is nothing to move. */
  lemma InPlaceWithoutBarriers(c: Layout, size: nat)
    requires Valid(c, size) && c.start == c.target && !c.barriers
    ensures (forall m0: seq<byte>, schedule: seq<nat> | |m0| == size && AllFinished(Run(c, m0, schedule).tasklets) ::
               Relocated(c, m0, Run(c, m0, schedule).mem))
       <==> Harmless(c)
  {
    if Harmless(c) {
      forall m0: seq<byte>, schedule: seq<nat> | |m0| == size
        ensures Relocated(c, m0, Run(c, m0, schedule).mem)
      {
        RunUnchanged(c, m0, schedule);
        UnchangedIsRelocated(c, m0);
      }
    } else {
      var m0, schedule := LosesData(c, size);
    }
  }

  // ---------------------------------------------------------------- the call that runs in place without barriers

  /** The number that enters the slot expression of the branch without barriers. */
  function NumberWithoutX(k: Kernel, a: Args): nat
    requires WellFormed(a)
  {
    if k.ModifiedReverse? then a.dpu / 2 else a.dpu / (8 / a.commRg)
  }

  /** The all-reduce launches the two-phase rotation for a 2 by 2 corner, and the short rotation otherwise, with the
      target at the start.  If the first axis is not selected, both take their branch without barriers: the
      result is right for all memories and under all schedules exactly if the rotation is switched off, or
      the number of the DPU's group is a multiple of the group size, or the blocks are empty. */
  lemma AllReduceInPlace(k: Kernel, a: Args, size: nat)
    requires k == ModifiedReverse || k == ClockwiseShort
    requires WellFormed(a) && Fits(a, size) && a.start == a.target && a.withoutX && a.commDpus % a.commRg == 0
    requires a.commRg == 2 || (a.commRg == 4 && k == ClockwiseShort)
    ensures |Plan(k, a)| == 1
    ensures var c := Plan(k, a)[0];
            && Valid(c, size)
            && ((forall m0: seq<byte>, schedule: seq<nat> |
                   |m0| == size && AllFinished(Run(c, m0, schedule).tasklets) ::
                   Relocated(c, m0, Run(c, m0, schedule).mem))
                <==> (|| a.noRotate || NumberWithoutX(k, a) % a.commRg == 0
                      || BlockBytes(a.totalBytes, a.commDpus, a.elem) == 0))
  {
    RegionFits(a.totalBytes, a.commDpus, a.elem);
    InPlaceWithoutBarriers(Plan(k, a)[0], size);
  }

  /** A launch of that kind, and a run of it that loses data. */
  lemma AllReduceLosesData() returns (a: Args, m0: seq<byte>, schedule: seq<nat>)
    ensures WellFormed(a) && a.start == a.target && a.withoutX && a.commRg == 2 && a.commDpus == 2
    ensures |Plan(ModifiedReverse, a)| == 1
    ensures var c := Plan(ModifiedReverse, a)[0];
            && Valid(c, |m0|)
            && AllFinished(Run(c, m0, schedule).tasklets) && !Relocated(c, m0, Run(c, m0, schedule).mem)
  {
    a := Args(0, 0, 2, 2, 2, false, true, 2, 1);
    RegionFits(a.totalBytes, a.commDpus, a.elem);
    m0, schedule := LosesData(Plan(ModifiedReverse, a)[0], 2);
  }
}
