/** Progress of a relocation pass: when it ends, and the pass itself as a program under any scheduler. */
module Scheduling {
  import opened Arithmetic
  import opened Bytes
  import opened Blocks
  import opened Tasklets

  // ---------------------------------------------------------------- remaining work

  /** Steps a tasklet may still need in its current chunk, the two barriers included. */
  function PhaseWork(c: Layout, i: nat, tk: Tasklet): nat
    requires InRange(c, i, tk)
  {
    match tk.phase
    case Reading(got) => 2 * CHUNK + 3 - got
    case AwaitWrites => CHUNK + 2
    case Writing(put) => CHUNK + 1 - put
    case AwaitReads => 0
    case Finished => 0
  }

  /** Chunks a tasklet may still have to move after its current one. */
  function ChunksLeft(c: Layout, tk: Tasklet): nat
    requires tk.block < c.blocks && tk.chunk < Iterations(c.blockBytes)
  {
    Times(c.blocks - tk.block - 1, Iterations(c.blockBytes)) + (Iterations(c.blockBytes) - 1 - tk.chunk)
  }

  function Work(c: Layout, i: nat, tk: Tasklet): nat
    requires InRange(c, i, tk)
  {
    if tk.phase.Finished? then 0 else 1 + ChunksLeft(c, tk) * (2 * CHUNK + 4) + PhaseWork(c, i, tk)
  }

  predicate AllInRange(c: Layout, ts: seq<Tasklet>) {
    forall i: nat | i < |ts| :: InRange(c, i, ts[i])
  }

  function TotalWork(c: Layout, ts: seq<Tasklet>, n: nat): nat
    requires n <= |ts| && AllInRange(c, ts)
  {
    if n == 0 then 0 else TotalWork(c, ts, n - 1) + Work(c, n - 1, ts[n - 1])
  }

  lemma {:induction false} LessWork(c: Layout, ts: seq<Tasklet>, ts': seq<Tasklet>, n: nat, i: nat)
    requires n <= |ts| == |ts'| && i < |ts| && AllInRange(c, ts) && AllInRange(c, ts')
    requires forall j: nat | j < |ts| :: Work(c, j, ts'[j]) <= Work(c, j, ts[j])
    requires Work(c, i, ts'[i]) < Work(c, i, ts[i])
    ensures TotalWork(c, ts', n) <= TotalWork(c, ts, n)
    ensures i < n ==> TotalWork(c, ts', n) < TotalWork(c, ts, n)
  {
    if n > 0 {
      LessWork(c, ts, ts', n - 1, i);
    }
  }

  lemma AdvanceWork(c: Layout, i: nat, tk: Tasklet)
    requires InRange(c, i, tk) && !tk.phase.Finished?
    requires InRange(c, i, Advance(c, tk))
    ensures Work(c, i, Advance(c, tk)) < Work(c, i, tk)
  {
    var n, after, left := Iterations(c.blockBytes), Advance(c, tk), c.blocks - tk.block - 1;
    if !after.phase.Finished? {
      assert ChunksLeft(c, after) < ChunksLeft(c, tk) by {
        if tk.chunk + 1 >= n {
          MulGap(left - c.tasklets, left, n);
        }
      }
    }
  }

  lemma ResumeWork(c: Layout, i: nat, tk: Tasklet)
    requires InRange(c, i, tk) && Waiting(tk) && InRange(c, i, Resume(c, tk))
    ensures Work(c, i, Resume(c, tk)) < Work(c, i, tk)
  {
    if tk.phase.AwaitReads? {
      AdvanceWork(c, i, tk);
    }
  }

  /** Every step brings the pass closer to its end. */
  lemma StepWork(c: Layout, s: State, i: nat)
    requires Placed(c, |s.mem|) && Shaped(c, |s.mem|, s) && i < c.tasklets && Runnable(s.tasklets[i])
    ensures AllInRange(c, s.tasklets) && InRange(c, i, s.tasklets[i]) && AllInRange(c, Step(c, s, i).tasklets)
    ensures TotalWork(c, Step(c, s, i).tasklets, c.tasklets) < TotalWork(c, s.tasklets, c.tasklets)
  {
    StepShape(c, s, i);
    var s' := Step(c, s, i);
    forall j: nat | j < c.tasklets
      ensures InRange(c, j, s.tasklets[j]) && InRange(c, j, s'.tasklets[j])
      ensures Work(c, j, s'.tasklets[j]) <= Work(c, j, s.tasklets[j])
      ensures j == i ==> Work(c, j, s'.tasklets[j]) < Work(c, j, s.tasklets[j])
    {
      assert InRange(c, j, s.tasklets[j]) && InRange(c, j, s'.tasklets[j]);
      StepWorkOf(c, s, i, j);
    }
    LessWork(c, s.tasklets, s'.tasklets, c.tasklets, i);
  }

  lemma StepWorkOf(c: Layout, s: State, i: nat, j: nat)
    requires Placed(c, |s.mem|) && i < |s.tasklets| && j < |s.tasklets|
    requires Runnable(s.tasklets[i]) && InRange(c, i, s.tasklets[i])
    requires |Step(c, s, i).tasklets| == |s.tasklets|
    requires InRange(c, j, s.tasklets[j]) && InRange(c, j, Step(c, s, i).tasklets[j])
    ensures Work(c, j, Step(c, s, i).tasklets[j]) <= Work(c, j, s.tasklets[j])
    ensures j == i ==> Work(c, j, Step(c, s, i).tasklets[j]) < Work(c, j, s.tasklets[j])
  {
    var tk, n := s.tasklets[i], ChunkLength(c.blockBytes, s.tasklets[i].chunk);
    if (tk.phase.Reading? && tk.phase.got == n) || (tk.phase.Writing? && tk.phase.put == n) {
      if c.barriers {
        var phase := if tk.phase.Reading? then AwaitWrites else AwaitReads;
        var blocked := s.tasklets[i := tk.(phase := phase)];
        assert InRange(c, j, blocked[j]);
        assert Work(c, j, blocked[j]) <= Work(c, j, s.tasklets[j]);
        if AllWaiting(blocked) {
          assert Waiting(blocked[j]);
          ResumeWork(c, j, blocked[j]);
        }
      } else if tk.phase.Writing? && i == j {
        AdvanceWork(c, i, tk);
      }
    }
  }

  // ---------------------------------------------------------------- deadlock

  /** With as many blocks in every row as there are tasklets, some tasklet can always move until all are
      done: nobody is ever stuck at a barrier. */
  lemma SomeoneCanMove(c: Layout, m0: seq<byte>, s: State)
    requires Valid(c, |m0|) && Inv(c, m0, s) && !AllFinished(s.tasklets)
    requires c.barriers ==> c.blocks % c.tasklets == 0
    ensures exists i: nat :: i < c.tasklets && Runnable(s.tasklets[i])
  {
    var f: nat :| f < c.tasklets && !s.tasklets[f].phase.Finished?;
    if c.barriers {
      var head := s.tasklets[0];
      assert InStep(c, head, f, s.tasklets[f]) && InRange(c, 0, head);
      var w: nat :| w < c.tasklets && !Waiting(s.tasklets[w]);
      assert InStep(c, head, w, s.tasklets[w]);
      FullRow(c.blocks, c.tasklets, head.block, w);
      assert Runnable(s.tasklets[w]);
    } else {
      assert Runnable(s.tasklets[f]);
    }
  }

  /** A row that begins inside the region lies inside it. */
  lemma FullRow(n: nat, w: nat, b: nat, i: nat)
    requires i < w && n % w == 0 && b % w == 0 && b < n
    ensures b + i < n
  {
    assert n == n / w * w && b == b / w * w;
    MulGap(b / w, n / w, w);
    MulGap(n / w, b / w, w);
  }

  /** In a pass with barriers whose block count is not a multiple of the number of tasklets, tasklet 0 never
      gets to its end, whether or not the regions may interfere and the groups are whole: it waits for
      tasklets that have no block in the last row. */
  lemma {:induction false} ShortRowBlocks(c: Layout, m0: seq<byte>, schedule: seq<nat>)
    requires Placed(c, |m0|) && c.barriers
    requires 0 < Iterations(c.blockBytes) && c.blocks % c.tasklets != 0
    ensures !Run(c, m0, schedule).tasklets[0].phase.Finished?
  {
    if schedule == [] {
      assert 0 < c.blocks by {
        if c.blocks == 0 {
          SmallMod(0, c.tasklets);
          assert false;
        }
      }
    } else {
      var s, i := Run(c, m0, schedule[..|schedule| - 1]), schedule[|schedule| - 1];
      ShortRowBlocks(c, m0, schedule[..|schedule| - 1]);
      RunLockstep(c, m0, schedule[..|schedule| - 1]);
      if i < c.tasklets && Runnable(s.tasklets[i]) {
        StepShape(c, s, i);
        HeadStays(c, s, i);
      }
    }
  }

  lemma HeadStays(c: Layout, s: State, i: nat)
    requires Placed(c, |s.mem|) && c.barriers && Shaped(c, |s.mem|, s) && Lockstep(c, s.tasklets)
    requires c.blocks % c.tasklets != 0 && !s.tasklets[0].phase.Finished?
    requires i < c.tasklets && Runnable(s.tasklets[i]) && InRange(c, i, s.tasklets[i])
    ensures |Step(c, s, i).tasklets| == c.tasklets && !Step(c, s, i).tasklets[0].phase.Finished?
  {
    var tk, n := s.tasklets[i], ChunkLength(c.blockBytes, s.tasklets[i].chunk);
    if (tk.phase.Reading? && tk.phase.got == n) || (tk.phase.Writing? && tk.phase.put == n) {
      var blocked := s.tasklets[i := tk.(phase := if tk.phase.Reading? then AwaitWrites else AwaitReads)];
      if AllWaiting(blocked) {
        var last := c.tasklets - 1;
        assert Waiting(blocked[last]);
        assert InStep(c, s.tasklets[0], last, s.tasklets[last]);
        assert InRange(c, 0, s.tasklets[0]);
        NotAMultiple(c.blocks, c.tasklets, s.tasklets[0].block);
      }
    }
  }

  lemma NotAMultiple(n: nat, w: nat, b: nat)
    requires 0 < w && n % w != 0 && b % w == 0
    ensures n != b + w
  {
    ModShift(b, 1, w);
  }

  // ---------------------------------------------------------------- the pass as a program

  /** One step of tasklet `i` on the shared memory itself. */
  method StepTasklet(c: Layout, mem: array<byte>, ts: seq<Tasklet>, i: nat) returns (after: seq<Tasklet>)
    requires Placed(c, mem.Length) && i < |ts| && Runnable(ts[i]) && InRange(c, i, ts[i])
    modifies mem
    ensures State(mem[..], after) == Step(c, State(old(mem[..]), ts), i)
  {
    var tk, n := ts[i], ChunkLength(c.blockBytes, ts[i].chunk);
    match tk.phase {
      case Reading(got) =>
        if got < n {
          AddressesInside(c, mem.Length, i, tk, got);
          after := ts[i := tk.(phase := Reading(got + 1), cache := tk.cache + [mem[SourceAddr(c, tk, got)]])];
        } else {
          after := if c.barriers then Arrive(c, ts, i, AwaitWrites) else ts[i := tk.(phase := Writing(0))];
        }
      case Writing(put) =>
        if put < n {
          AddressesInside(c, mem.Length, i, tk, put);
          mem[TargetAddr(c, tk, put)] := tk.cache[put];
          after := ts[i := tk.(phase := Writing(put + 1))];
        } else {
          after := if c.barriers then Arrive(c, ts, i, AwaitReads) else ts[i := Advance(c, tk)];
        }
    }
  }

  /** Runs a pass: as long as some tasklet is not done, any tasklet that can move makes its next step on the
      shared memory.  Which one it is, is left open, so the contract holds under every scheduler. */
  method RunPass(c: Layout, mem: array<byte>)
    requires Valid(c, mem.Length) && Safe(c)
    requires c.barriers ==> c.blocks % c.tasklets == 0
    modifies mem
    ensures Relocated(c, old(mem[..]), mem[..])
  {
    ghost var m0 := mem[..];
    var ts := Init(c, mem[..]).tasklets;
    InitInv(c, m0);
    InRangeOf(c, m0, State(m0, ts));
    while !AllFinished(ts)
      invariant Inv(c, m0, State(mem[..], ts)) && AllInRange(c, ts)
      decreases TotalWork(c, ts, |ts|)
    {
      ghost var s := State(mem[..], ts);
      SomeoneCanMove(c, m0, s);
      var i: nat :| i < |ts| && Runnable(ts[i]);
      StepInv(c, m0, s, i);
      StepWork(c, s, i);
      ts := StepTasklet(c, mem, ts, i);
    }
    FinishedMeansRelocated(c, m0, State(mem[..], ts));
  }

  lemma InRangeOf(c: Layout, m0: seq<byte>, s: State)
    requires Valid(c, |m0|) && Inv(c, m0, s)
    ensures AllInRange(c, s.tasklets)
  {
  }
}
