/** Draining the pipeline of a DPU that has been stopped: its threads leave it one after the other, and their
    program counters are collected. */
module Drain {

  /** A thread that has left the pipeline, and the program counter that could be read at that moment. */
  datatype Stop = Stop(thread: nat, pc: nat)

  /** The debug interface of a DPU, as far as draining uses it.  `patience` says for how many more steps nothing
      may happen before a thread leaves the pipeline. */
  class Device {
    var run: seq<bool>
    var pc: nat
    var patience: nat
    ghost var stops: seq<Stop>
    ghost var failures: nat

    constructor (run: seq<bool>, patience: nat)
      ensures this.run == run && this.patience == patience && stops == [] && failures == 0
    {
      this.run, this.patience, this.stops, this.pc, failures := run, patience, [], 0, 0;
    }

    /** Replaces the next instruction by a stop and steps once: the assumed contract of the hardware.  At most one
        thread leaves the pipeline, and none enters it. */
    method StopAndStep() returns (ok: bool)
      requires 0 < Count(run)
      modifies this
      ensures ok ==>
                || (run == old(run) && stops == old(stops) && patience < old(patience))
                || (exists t: nat ::
                      && t < |old(run)| && old(run)[t] && run == old(run)[t := false]
                      && stops == old(stops) + [Stop(t, pc)])
      ensures !ok ==> run == old(run) && stops == old(stops)
      ensures failures == old(failures) + if ok then 0 else 1
    {
      ok := *;
      if !ok {
        failures := failures + 1;
        return;
      }
      pc := *;
      var idle: bool := *;
      if idle && 0 < patience {
        patience := patience - 1;
      } else {
        CountZero(run);
        var t: nat :| t < |run| && run[t];
        run, patience := run[t := false], *;
        stops := stops + [Stop(t, pc)];
      }
    }
  }

  /** What is kept about the threads of a DPU. */
  class ThreadContext {
    var pcs: seq<nat>
    var scheduling: seq<nat>
    var running: nat

    constructor (pcs: seq<nat>, scheduling: seq<nat>, running: nat)
      ensures this.pcs == pcs && this.scheduling == scheduling && this.running == running
    {
      this.pcs, this.scheduling, this.running := pcs, scheduling, running;
    }
  }

  /** The number of threads that are running. */
  function Count(run: seq<bool>): nat {
    if run == [] then 0 else Count(run[1..]) + if run[0] then 1 else 0
  }

  lemma {:induction false} CountStop(run: seq<bool>, t: nat)
    requires t < |run| && run[t]
    ensures Count(run[t := false]) == Count(run) - 1
  {
    if t == 0 {
      assert run[t := false][1..] == run[1..];
    } else {
      CountStop(run[1..], t - 1);
      assert run[t := false][1..] == run[1..][t - 1 := false];
    }
  }

  lemma {:induction false} CountZero(run: seq<bool>)
    ensures Count(run) == 0 <==> forall t | 0 <= t < |run| :: !run[t]
  {
    if run != [] {
      CountZero(run[1..]);
      assert forall t | 1 <= t < |run| :: run[t] == run[1..][t - 1];
    }
  }

  // ---------------------------------------------------------------- what ought to be recorded

  predicate InBounds(stops: seq<Stop>, n: nat) {
    forall k | 0 <= k < |stops| :: stops[k].thread < n
  }

  /** The program counters after some stops have been recorded. */
  function Recorded(pcs: seq<nat>, stops: seq<Stop>): (r: seq<nat>)
    requires InBounds(stops, |pcs|)
    ensures |r| == |pcs|
  {
    if stops == [] then pcs
    else
      var n := |stops| - 1;
      Recorded(pcs, stops[..n])[stops[n].thread := stops[n].pc]
  }

  /** The scheduling after some stops have been numbered from `first` on; numbers are eight bits wide. */
  function Numbered(scheduling: seq<nat>, stops: seq<Stop>, first: nat): (r: seq<nat>)
    requires InBounds(stops, |scheduling|)
    ensures |r| == |scheduling|
  {
    if stops == [] then scheduling
    else
      var n := |stops| - 1;
      Numbered(scheduling, stops[..n], first)[stops[n].thread := (first + n) % 256]
  }

  predicate Distinct(stops: seq<Stop>) {
    forall i, j | 0 <= i < j < |stops| :: stops[i].thread != stops[j].thread
  }

  predicate Left(t: nat, stops: seq<Stop>) {
    exists k :: 0 <= k < |stops| && stops[k].thread == t
  }

  /** Between `before` and `after` exactly the threads of `stops` have left, each of them once. */
  ghost predicate History(before: seq<bool>, after: seq<bool>, stops: seq<Stop>) {
    && |after| == |before| && InBounds(stops, |before|) && Distinct(stops)
    && (forall k | 0 <= k < |stops| :: before[stops[k].thread] && !after[stops[k].thread])
    && (forall t | 0 <= t < |before| :: after[t] ==> before[t])
    && (forall t | 0 <= t < |before| :: before[t] && !after[t] ==> Left(t, stops))
  }

  lemma HistoryGrows(before: seq<bool>, after: seq<bool>, stops: seq<Stop>, s: Stop)
    requires History(before, after, stops) && s.thread < |after| && after[s.thread]
    ensures History(before, after[s.thread := false], stops + [s])
  {
    var next, more := after[s.thread := false], stops + [s];
    forall t | 0 <= t < |before| && before[t] && !next[t]
      ensures Left(t, more)
    {
      if t == s.thread {
        assert more[|stops|].thread == t;
      } else {
        var k :| 0 <= k < |stops| && stops[k].thread == t;
        assert more[k].thread == t;
      }
    }
  }

  /** Every thread that stops gets its program counter, once, and no other thread is touched. */
  lemma {:induction false} RecordedIs(pcs: seq<nat>, stops: seq<Stop>, t: nat)
    requires InBounds(stops, |pcs|) && Distinct(stops) && t < |pcs|
    ensures forall k | 0 <= k < |stops| && stops[k].thread == t :: Recorded(pcs, stops)[t] == stops[k].pc
    ensures !Left(t, stops) ==> Recorded(pcs, stops)[t] == pcs[t]
  {
    if stops != [] {
      var n := |stops| - 1;
      RecordedIs(pcs, stops[..n], t);
      assert stops[n].thread != t && Left(t, stops[..n]) ==> Left(t, stops);
    }
  }

  /** The `k`-th thread that stops gets the `k`-th number. */
  lemma {:induction false} NumberedIs(scheduling: seq<nat>, stops: seq<Stop>, first: nat, t: nat)
    requires InBounds(stops, |scheduling|) && Distinct(stops) && t < |scheduling|
    ensures forall k | 0 <= k < |stops| && stops[k].thread == t ::
        Numbered(scheduling, stops, first)[t] == (first + k) % 256
    ensures !Left(t, stops) ==> Numbered(scheduling, stops, first)[t] == scheduling[t]
  {
    if stops != [] {
      var n := |stops| - 1;
      NumberedIs(scheduling, stops[..n], first, t);
      assert stops[n].thread != t && Left(t, stops[..n]) ==> Left(t, stops);
    }
  }

  /** The numbers that are given out have no gaps: the stops are numbered one after the other from `first` on,
      modulo 256 and so without wrapping around as long as there is room. */
  lemma NumbersAreGapFree(scheduling: seq<nat>, stops: seq<Stop>, first: nat, i: nat)
    requires InBounds(stops, |scheduling|) && Distinct(stops) && i < |stops|
    ensures var number := Numbered(scheduling, stops, first)[stops[i].thread];
            number == (first + i) % 256 && (first + |stops| <= 256 ==> number == first + i)
  {
    hide Numbered, Left;
    NumberedIs(scheduling, stops, first, stops[i].thread);
  }

  /** Wherever the numbering begins, two threads get the same number exactly if a multiple of 256 threads stop
      from the one to the other; so up to 256 threads get different numbers. */
  lemma NumbersDiffer(scheduling: seq<nat>, stops: seq<Stop>, first: nat, i: nat, j: nat)
    requires InBounds(stops, |scheduling|) && Distinct(stops) && i < j < |stops|
    ensures var r := Numbered(scheduling, stops, first);
            && (r[stops[i].thread] == r[stops[j].thread] <==> (j - i) % 256 == 0)
            && (|stops| <= 256 ==> r[stops[i].thread] != r[stops[j].thread])
  {
    NumbersAreGapFree(scheduling, stops, first, i);
    NumbersAreGapFree(scheduling, stops, first, j);
  }

  // ---------------------------------------------------------------- draining

  /** What a context holds, given what it held before some stops. */
  ghost predicate Noted(c: ThreadContext, pcs: seq<nat>, scheduling: seq<nat>, running: nat, stops: seq<Stop>,
                        add: bool)
    requires InBounds(stops, |pcs|) && |pcs| == |scheduling|
    reads c
  {
    && c.pcs == Recorded(pcs, stops)
    && c.scheduling == (if add then Numbered(scheduling, stops, running) else scheduling)
    && c.running == if add then (running + |stops|) % 256 else running
  }

  lemma NotedMore(pcs: seq<nat>, scheduling: seq<nat>, running: nat, stops: seq<Stop>, s: Stop)
    requires InBounds(stops, |pcs|) && |pcs| == |scheduling| && s.thread < |pcs|
    ensures InBounds(stops + [s], |pcs|)
    ensures Recorded(pcs, stops + [s]) == Recorded(pcs, stops)[s.thread := s.pc]
    ensures Numbered(scheduling, stops + [s], running)
         == Numbered(scheduling, stops, running)[s.thread := (running + |stops|) % 256]
  {
    assert (stops + [s])[..|stops|] == stops;
  }

  lemma NextNumber(n: nat)
    ensures (n % 256 + 1) % 256 == (n + 1) % 256
  {
  }

  /** Records the program counter of one thread, and numbers it. */
  method Note(c: ThreadContext, t: nat, pc: nat, add: bool, ghost pcs: seq<nat>, ghost scheduling: seq<nat>,
              ghost running: nat, ghost stops: seq<Stop>)
    requires |pcs| == |scheduling| && t < |pcs| && InBounds(stops, |pcs|) && running < 256
    requires Noted(c, pcs, scheduling, running, stops, add)
    modifies c
    ensures InBounds(stops + [Stop(t, pc)], |pcs|) && Noted(c, pcs, scheduling, running, stops + [Stop(t, pc)], add)
  {
    NotedMore(pcs, scheduling, running, stops, Stop(t, pc));
    NextNumber(running + |stops|);
    hide Recorded, Numbered;
    c.pcs := c.pcs[t := pc];
    if add {
      c.scheduling := c.scheduling[t := c.running];
      c.running := (c.running + 1) % 256;
    }
  }

  /** `stopped` is what happened in one step that led from `previous` to `run`. */
  ghost predicate Stepped(previous: seq<bool>, run: seq<bool>, stopped: seq<Stop>, pc: nat) {
    && |previous| == |run| && |stopped| <= 1
    && if stopped == [] then run == previous
       else stopped[0].thread < |run| && previous[stopped[0].thread] && stopped[0].pc == pc
            && run == previous[stopped[0].thread := false]
  }

  /** The stops that are known once a scan has seen the threads below `t`. */
  function Seen(stops: seq<Stop>, stopped: seq<Stop>, t: nat): seq<Stop> {
    if stopped != [] && stopped[0].thread < t then stops + stopped else stops
  }

  predicate AnyBelow(run: seq<bool>, t: nat)
    requires t <= |run|
  {
    exists j :: 0 <= j < t && run[j]
  }

  lemma AnyNext(run: seq<bool>, t: nat)
    requires t < |run|
    ensures AnyBelow(run, t + 1) <==> AnyBelow(run, t) || run[t]
  {
  }

  lemma CountAny(run: seq<bool>)
    ensures 0 < Count(run) <==> AnyBelow(run, |run|)
    ensures !AnyBelow(run, 0)
  {
    CountZero(run);
  }

  /** Looks for threads that ran before the last step and do not run any more. */
  method Scan(run: seq<bool>, previous: seq<bool>, c: ThreadContext, pc: nat, add: bool, ghost stopped: seq<Stop>,
              ghost pcs: seq<nat>, ghost scheduling: seq<nat>, ghost running: nat, ghost stops: seq<Stop>)
    returns (still: bool, updated: seq<bool>)
    requires Stepped(previous, run, stopped, pc)
    requires |pcs| == |scheduling| == |run| && InBounds(stops, |pcs|) && running < 256
    requires Noted(c, pcs, scheduling, running, stops, add)
    modifies c
    ensures still <==> 0 < Count(run)
    ensures updated == run
    ensures InBounds(stops + stopped, |pcs|) && Noted(c, pcs, scheduling, running, stops + stopped, add)
  {
    still, updated := false, previous;
    CountAny(run);
    SeenAll(previous, run, stopped, pc, stops);
    hide *;
    var t := 0;
    while t < |run|
      invariant t <= |run| == |updated|
      invariant still <==> AnyBelow(run, t)
      invariant forall j | t <= j < |run| :: updated[j] == previous[j]
      invariant forall j | 0 <= j < t :: updated[j] == run[j]
      invariant InBounds(Seen(stops, stopped, t), |pcs|)
      invariant Noted(c, pcs, scheduling, running, Seen(stops, stopped, t), add)
    {
      AnyNext(run, t);
      SeenNext(previous, run, stopped, pc, t, stops);
      var u;
      still, u := ScanThread(run[t], updated[t], still, c, t, pc, add, pcs, scheduling, running,
                             Seen(stops, stopped, t));
      updated := updated[t := u];
      t := t + 1;
    }
    assert updated == run;
  }

  /** One thread: does it still run, or has it just left? */
  method ScanThread(runs: bool, ran: bool, still: bool, c: ThreadContext, t: nat, pc: nat, add: bool,
                    ghost pcs: seq<nat>, ghost scheduling: seq<nat>, ghost running: nat, ghost done: seq<Stop>)
    returns (still': bool, updated: bool)
    requires |pcs| == |scheduling| && t < |pcs| && InBounds(done, |pcs|) && running < 256
    requires Noted(c, pcs, scheduling, running, done, add) && (runs ==> ran)
    modifies c
    ensures still' == (still || runs) && updated == runs
    ensures runs == ran ==> Noted(c, pcs, scheduling, running, done, add)
    ensures ran && !runs ==>
              InBounds(done + [Stop(t, pc)], |pcs|) && Noted(c, pcs, scheduling, running, done + [Stop(t, pc)], add)
  {
    still', updated := still, ran;
    if runs {
      still' := true;
    } else if ran {
      Note(c, t, pc, add, pcs, scheduling, running, done);
      updated := false;
    }
  }

  lemma SeenNext(previous: seq<bool>, run: seq<bool>, stopped: seq<Stop>, pc: nat, t: nat, stops: seq<Stop>)
    requires Stepped(previous, run, stopped, pc) && t < |run|
    ensures run[t] ==> previous[t]
    ensures previous[t] && !run[t] ==> Seen(stops, stopped, t + 1) == Seen(stops, stopped, t) + [Stop(t, pc)]
    ensures previous[t] == run[t] ==> Seen(stops, stopped, t + 1) == Seen(stops, stopped, t)
  {
  }

  lemma SeenAll(previous: seq<bool>, run: seq<bool>, stopped: seq<Stop>, pc: nat, stops: seq<Stop>)
    requires Stepped(previous, run, stopped, pc)
    ensures |previous| == |run| && Seen(stops, stopped, 0) == stops && Seen(stops, stopped, |run|) == stops + stopped
  {
    assert stopped == [] ==> stops + stopped == stops;
  }

  /** The same without a context: nothing is recorded, and the register is not brought up to date. */
  method ScanOnly(run: seq<bool>) returns (still: bool)
    ensures still <==> 0 < Count(run)
  {
    still := false;
    CountAny(run);
    var t := 0;
    while t < |run|
      invariant t <= |run|
      invariant still <==> AnyBelow(run, t)
    {
      if run[t] {
        still := true;
      }
      t := t + 1;
    }
  }

  /** Drains the pipeline, which fails only if a command of the debug interface does.  On success no thread is left in
      it; every thread that ran has left it once; and if there is a context, exactly those have their program
      counters recorded, and new scheduling numbers if asked. */
  method DrainPipeline(d: Device, context: ThreadContext?, add: bool) returns (ok: bool)
    requires context != null ==> |context.pcs| == |context.scheduling| == |d.run| && context.running < 256
    modifies d, if context == null then {} else {context}
    ensures ok <==> d.failures == old(d.failures)
    ensures ok ==> Count(d.run) == 0 && old(d.stops) <= d.stops && History(old(d.run), d.run, d.stops[|old(d.stops)|..])
    ensures ok && context != null ==>
              Noted(context, old(context.pcs), old(context.scheduling), old(context.running), d.stops[|old(d.stops)|..],
                    add)
  {
    ghost var run0, stops0 := d.run, d.stops;
    ghost var pcs, scheduling, running := [], [], 0;
    if context != null {
      pcs, scheduling, running := context.pcs, context.scheduling, context.running;
    }
    ghost var stops: seq<Stop> := [];
    var previous := d.run;
    var still := ScanOnly(previous);
    ok := true;
    while still
      invariant ok && d.failures == old(d.failures) && (still <==> 0 < Count(d.run))
      invariant d.stops == stops0 + stops && History(run0, d.run, stops)
      invariant context != null ==> |pcs| == |scheduling| == |d.run| && running < 256 && previous == d.run
      invariant context != null ==> Noted(context, pcs, scheduling, running, stops, add)
      decreases Count(d.run), d.patience
    {
      ghost var run1, stops1 := d.run, d.stops;
      ok := d.StopAndStep();
      if !ok { return; }
      ghost var stopped := d.stops[|stops1|..];
      OneStep(run0, run1, stops, d.run, stopped, d.pc);
      if context != null {
        still, previous := Scan(d.run, previous, context, d.pc, add, stopped, pcs, scheduling, running, stops);
      } else {
        still := ScanOnly(d.run);
      }
      stops := stops + stopped;
    }
    assert d.stops[|stops0|..] == stops;
  }

  lemma OneStep(run0: seq<bool>, run1: seq<bool>, stops: seq<Stop>, run2: seq<bool>, stopped: seq<Stop>, pc: nat)
    requires History(run0, run1, stops)
    requires (run2 == run1 && stopped == [])
          || exists t: nat :: t < |run1| && run1[t] && run2 == run1[t := false] && stopped == [Stop(t, pc)]
    ensures Stepped(run1, run2, stopped, pc) && History(run0, run2, stops + stopped)
    ensures stopped != [] ==> Count(run2) < Count(run1)
  {
    if stopped == [] {
      assert stops + stopped == stops;
    } else {
      HistoryGrows(run0, run1, stops, stopped[0]);
      CountStop(run1, stopped[0].thread);
    }
  }
}
