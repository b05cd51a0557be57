/** The host's record of which DPUs of a rank run, and the hardware it is a record of. */
module RunContext {

  const MAX_CIS := 8
  const MAX_DPUS_PER_CI := 8
  const BOOT_THREAD := 0

  /** A bit field with one bit for each DPU of a slice. */
  type Mask = set<nat>

  datatype Status = Ok | InvalidThreadId | DpuDisabled | AlreadyRunning | HardwareError

  /** `enabled`, `running`, `inFault` and `nbRunning` are the host's record, one mask for each slice; `alive` and
      `faulted` are what the DPUs really do. */
  datatype State = State(enabled: seq<Mask>, running: seq<Mask>, inFault: seq<Mask>, nbRunning: nat,
                         alive: seq<Mask>, faulted: seq<Mask>, threads: nat)

  /** What can happen.  A flag that ends in `Ok` says whether the hardware command of that name succeeds; a
      failed command is taken to have had no effect.  `Halt` and `Trap` are steps of a DPU itself. */
  datatype Event =
    | PollRank(pollOk: bool)
    | LaunchRank(thread: nat, pollOk: bool, startOk: bool)
    | LaunchDpu(slice: nat, member: nat, thread: nat, pollOk: bool, startOk: bool)
    | BootRank(prepareOk: bool, pollOk: bool, startOk: bool)
    | BootDpu(slice: nat, member: nat, prepareOk: bool, pollOk: bool, startOk: bool)
    | Disable(slice: nat, member: nat, disableOk: bool)
    | Halt(slice: nat, member: nat)
    | Trap(slice: nat, member: nat)

  function Total(masks: seq<Mask>): nat {
    if masks == [] then 0 else Total(masks[..|masks| - 1]) + |masks[|masks| - 1]|
  }

  ghost predicate MasksFit(masks: seq<Mask>) {
    forall s, m | 0 <= s < |masks| && m in masks[s] :: m < MAX_DPUS_PER_CI
  }

  predicate Shaped(s: State) {
    && |s.enabled| <= MAX_CIS
    && |s.running| == |s.inFault| == |s.alive| == |s.faulted| == |s.enabled|
  }

  /** Every enabled DPU that really runs is recorded as running. */
  ghost predicate Tracked(s: State)
    requires Shaped(s)
  {
    forall k | 0 <= k < |s.enabled| :: s.alive[k] * s.enabled[k] - s.faulted[k] <= s.running[k]
  }

  /** The record agrees with itself and covers the hardware. */
  ghost predicate Consistent(s: State) {
    && Shaped(s) && Tracked(s)
    && MasksFit(s.enabled) && MasksFit(s.running)
    && s.nbRunning == Total(s.running)
  }

  predicate InRank(s: State, e: Event) {
    (e.LaunchDpu? || e.BootDpu? || e.Disable? || e.Halt? || e.Trap?)
      ==> e.slice < |s.enabled| && e.member < MAX_DPUS_PER_CI
  }

  // ---------------------------------------------------------------- one step

  function PolledFault(s: State, n: nat): (r: seq<Mask>)
    requires Shaped(s) && n <= |s.enabled|
  {
    seq(n, k requires 0 <= k < n => s.faulted[k] * s.enabled[k])
  }

  function PolledRunning(s: State, n: nat): (r: seq<Mask>)
    requires Shaped(s) && n <= |s.enabled|
  {
    seq(n, k requires 0 <= k < n => s.alive[k] * s.enabled[k] - s.faulted[k] * s.enabled[k])
  }

  /** The counter is eight bits wide. */
  function Polled(s: State): (r: State)
    requires Shaped(s)
  {
    var running := PolledRunning(s, |s.enabled|);
    s.(inFault := PolledFault(s, |s.enabled|), running := running, nbRunning := Total(running) % 256)
  }

  lemma PolledNext(s: State, k: nat)
    requires Shaped(s) && k < |s.enabled|
    ensures PolledFault(s, k + 1) == PolledFault(s, k) + [s.faulted[k] * s.enabled[k]]
    ensures PolledRunning(s, k + 1) == PolledRunning(s, k) + [s.alive[k] * s.enabled[k] - s.faulted[k] * s.enabled[k]]
  {
  }

  function Started(s: State): (r: State)
    requires Shaped(s)
  {
    s.(alive := seq(|s.enabled|, k requires 0 <= k < |s.enabled| => s.alive[k] + s.enabled[k]),
       running := s.enabled, nbRunning := Total(s.enabled) % 256)
  }

  function StartedOne(s: State, slice: nat, member: nat): (r: State)
    requires Shaped(s) && slice < |s.enabled|
  {
    var t := s.(alive := s.alive[slice := s.alive[slice] + {member}]);
    if member in s.running[slice] then t
    else t.(running := s.running[slice := s.running[slice] + {member}], nbRunning := (s.nbRunning + 1) % 256)
  }

  function Launched(s: State, thread: nat, pollOk: bool, startOk: bool): (r: (State, Status))
    requires Shaped(s)
  {
    if thread >= s.threads then (s, InvalidThreadId)
    else if !pollOk then (s, HardwareError)
    else if !startOk then (Polled(s), HardwareError)
    else (Started(Polled(s)), Ok)
  }

  function LaunchedOne(s: State, slice: nat, member: nat, thread: nat, pollOk: bool,
                       startOk: bool): (r: (State, Status))
    requires Shaped(s) && slice < |s.enabled|
  {
    if member !in s.enabled[slice] then (s, DpuDisabled)
    else if thread >= s.threads then (s, InvalidThreadId)
    else if !pollOk then (s, HardwareError)
    else if !startOk then (Polled(s), HardwareError)
    else (StartedOne(Polled(s), slice, member), Ok)
  }

  function Next(s: State, e: Event): (r: (State, Status))
    requires Shaped(s) && InRank(s, e)
  {
    match e
    case PollRank(pollOk) => if pollOk then (Polled(s), Ok) else (s, HardwareError)
    case LaunchRank(thread, pollOk, startOk) => Launched(s, thread, pollOk, startOk)
    case LaunchDpu(slice, member, thread, pollOk, startOk) => LaunchedOne(s, slice, member, thread, pollOk, startOk)
    case BootRank(prepareOk, pollOk, startOk) =>
      if s.nbRunning != 0 then (s, AlreadyRunning)
      else if !prepareOk then (s, HardwareError)
      else Launched(s, BOOT_THREAD, pollOk, startOk)
    case BootDpu(slice, member, prepareOk, pollOk, startOk) =>
      if member !in s.enabled[slice] then (s, DpuDisabled)
      else if member in s.running[slice] then (s, AlreadyRunning)
      else if !prepareOk then (s, HardwareError)
      else LaunchedOne(s, slice, member, BOOT_THREAD, pollOk, startOk)
    case Disable(slice, member, disableOk) =>
      if member !in s.enabled[slice] then (s, DpuDisabled)
      else if !disableOk then (s, HardwareError)
      else (s.(enabled := s.enabled[slice := s.enabled[slice] - {member}]), Ok)
    case Halt(slice, member) => (s.(alive := s.alive[slice := s.alive[slice] - {member}]), Ok)
    case Trap(slice, member) => (s.(faulted := s.faulted[slice := s.faulted[slice] + {member}]), Ok)
  }

  // ---------------------------------------------------------------- counting

  lemma {:induction false} TotalIsSmall(masks: seq<Mask>)
    requires MasksFit(masks)
    ensures Total(masks) <= MAX_DPUS_PER_CI * |masks|
  {
    if masks != [] {
      var last := masks[|masks| - 1];
      TotalIsSmall(masks[..|masks| - 1]);
      SubsetIsSmaller(last, {0, 1, 2, 3, 4, 5, 6, 7});
    }
  }

  lemma {:induction false} SubsetIsSmaller(a: Mask, b: Mask)
    requires a <= b
    ensures |a| <= |b|
  {
    if x :| x in a {
      SubsetIsSmaller(a - {x}, b - {x});
    }
  }

  lemma TotalGrows(before: seq<Mask>, masks: seq<Mask>, k: nat)
    requires k < |masks| && before == masks[..k]
    ensures Total(masks[..k + 1]) == Total(before) + |masks[k]|
  {
    assert masks[..k + 1][..k] == before;
  }

  /** Recording one more DPU adds one to the total. */
  lemma {:induction false} TotalOfUpdate(masks: seq<Mask>, slice: nat, m: nat)
    requires slice < |masks| && m !in masks[slice]
    ensures Total(masks[slice := masks[slice] + {m}]) == Total(masks) + 1
  {
    var n := |masks| - 1;
    var updated := masks[slice := masks[slice] + {m}];
    if slice == n {
      assert updated[..n] == masks[..n];
    } else {
      TotalOfUpdate(masks[..n], slice, m);
      assert updated[..n] == masks[..n][slice := masks[slice] + {m}];
    }
  }

  lemma {:induction false} TotalIsZero(masks: seq<Mask>)
    ensures Total(masks) == 0 <==> forall k | 0 <= k < |masks| :: masks[k] == {}
  {
    if masks != [] {
      var n := |masks| - 1;
      TotalIsZero(masks[..n]);
      assert forall k | 0 <= k < n :: masks[..n][k] == masks[k];
    }
  }

  // ---------------------------------------------------------------- whole runs

  lemma PolledIsConsistent(s: State)
    requires Consistent(s)
    ensures Consistent(Polled(s)) && Polled(s).enabled == s.enabled
  {
    var r := Polled(s);
    forall k, m | 0 <= k < |r.running| && m in r.running[k]
      ensures m < MAX_DPUS_PER_CI
    {
      assert m in s.enabled[k];
    }
    TotalIsSmall(r.running);
  }

  lemma StartedIsConsistent(s: State)
    requires Consistent(s)
    ensures Consistent(Started(s))
  {
    TotalIsSmall(s.enabled);
  }

  lemma StartedOneIsConsistent(s: State, slice: nat, member: nat)
    requires Consistent(s) && slice < |s.enabled| && member < MAX_DPUS_PER_CI
    ensures Consistent(StartedOne(s, slice, member))
  {
    var r := StartedOne(s, slice, member);
    if member !in s.running[slice] {
      TotalOfUpdate(s.running, slice, member);
      TotalIsSmall(r.running);
    }
  }

  lemma DisabledIsConsistent(s: State, slice: nat, member: nat)
    requires Consistent(s) && slice < |s.enabled|
    ensures Consistent(s.(enabled := s.enabled[slice := s.enabled[slice] - {member}]))
  {
    var r := s.(enabled := s.enabled[slice := s.enabled[slice] - {member}]);
    forall k | 0 <= k < |r.enabled|
      ensures r.enabled[k] <= s.enabled[k]
    {
    }
    forall k | 0 <= k < |r.enabled|
      ensures r.alive[k] * r.enabled[k] - r.faulted[k] <= r.running[k]
    {
      assert s.alive[k] * s.enabled[k] - s.faulted[k] <= s.running[k];
    }
  }

  lemma DpuStepIsConsistent(s: State, slice: nat, member: nat)
    requires Consistent(s) && slice < |s.enabled|
    ensures Consistent(s.(alive := s.alive[slice := s.alive[slice] - {member}]))
    ensures Consistent(s.(faulted := s.faulted[slice := s.faulted[slice] + {member}]))
  {
    forall k | 0 <= k < |s.enabled|
      ensures (s.alive[k] - {member}) * s.enabled[k] - s.faulted[k] <= s.running[k]
      ensures s.alive[k] * s.enabled[k] - (s.faulted[k] + {member}) <= s.running[k]
    {
      assert s.alive[k] * s.enabled[k] - s.faulted[k] <= s.running[k];
    }
  }

  lemma LaunchIsConsistent(s: State, thread: nat, pollOk: bool, startOk: bool)
    requires Consistent(s)
    ensures Consistent(Launched(s, thread, pollOk, startOk).0)
  {
    PolledIsConsistent(s);
    StartedIsConsistent(Polled(s));
  }

  lemma LaunchOneIsConsistent(s: State, slice: nat, member: nat, thread: nat, pollOk: bool, startOk: bool)
    requires Consistent(s) && slice < |s.enabled| && member < MAX_DPUS_PER_CI
    ensures Consistent(LaunchedOne(s, slice, member, thread, pollOk, startOk).0)
  {
    PolledIsConsistent(s);
    StartedOneIsConsistent(Polled(s), slice, member);
  }

  lemma NextIsConsistent(s: State, e: Event)
    requires Consistent(s) && InRank(s, e)
    ensures Consistent(Next(s, e).0)
  {
    match e
    case PollRank(_) => PolledIsConsistent(s);
    case LaunchRank(thread, pollOk, startOk) => LaunchIsConsistent(s, thread, pollOk, startOk);
    case BootRank(_, pollOk, startOk) => LaunchIsConsistent(s, BOOT_THREAD, pollOk, startOk);
    case LaunchDpu(slice, member, thread, pollOk, startOk) =>
      LaunchOneIsConsistent(s, slice, member, thread, pollOk, startOk);
    case BootDpu(slice, member, _, pollOk, startOk) =>
      LaunchOneIsConsistent(s, slice, member, BOOT_THREAD, pollOk, startOk);
    case Disable(slice, member, _) => DisabledIsConsistent(s, slice, member);
    case Halt(slice, member) => DpuStepIsConsistent(s, slice, member);
    case Trap(slice, member) => DpuStepIsConsistent(s, slice, member);
  }

  function Run(s: State, events: seq<Event>): (r: State)
    requires Shaped(s)
    decreases |events|
  {
    if events == [] || !InRank(s, events[0]) then s
    else
      var t := Next(s, events[0]).0;
      if Shaped(t) then Run(t, events[1..]) else t
  }

  /** Over any sequence of polls, launches, boots and disablings, with DPUs that stop or fault at any time and
      hardware commands that may fail: the counter is the number of recorded DPUs, it never wraps around, and
      every enabled DPU that runs is recorded. */
  lemma {:induction false} EveryRunIsConsistent(s: State, events: seq<Event>)
    requires Consistent(s)
    ensures Consistent(Run(s, events))
    decreases |events|
  {
    if events != [] && InRank(s, events[0]) {
      NextIsConsistent(s, events[0]);
      EveryRunIsConsistent(Next(s, events[0]).0, events[1..]);
    }
  }

  /** No enabled DPU runs, except one that is in fault. */
  predicate Quiet(s: State)
    requires Shaped(s)
  {
    forall k | 0 <= k < |s.enabled| :: s.alive[k] * s.enabled[k] <= s.faulted[k]
  }

  /** When the counter is zero after any run, the rank is really quiet: this is what the MRAM gate and the boot
      of a rank rely on. */
  lemma ZeroMeansQuiet(s: State, events: seq<Event>)
    requires Consistent(s) && Run(s, events).nbRunning == 0
    ensures Shaped(Run(s, events)) && Quiet(Run(s, events))
  {
    EveryRunIsConsistent(s, events);
    var r := Run(s, events);
    TotalIsZero(r.running);
    forall k | 0 <= k < |r.enabled|
      ensures r.alive[k] * r.enabled[k] <= r.faulted[k]
    {
      assert r.alive[k] * r.enabled[k] - r.faulted[k] <= r.running[k] == {};
      forall m | m in r.alive[k] * r.enabled[k]
        ensures m in r.faulted[k]
      {
        assert m !in r.alive[k] * r.enabled[k] - r.faulted[k];
      }
    }
  }

  /** A rank is booted at any time during a run only if it is quiet, and then all its enabled DPUs are recorded. */
  lemma BootNeedsQuiet(s: State, events: seq<Event>, prepareOk: bool, pollOk: bool, startOk: bool)
    requires Consistent(s)
    ensures Shaped(Run(s, events))
    ensures var (r, status) := Next(Run(s, events), BootRank(prepareOk, pollOk, startOk));
            && (status != AlreadyRunning ==> Quiet(Run(s, events)))
            && (status == Ok ==> r.running == r.enabled && r.nbRunning == Total(r.enabled))
  {
    EveryRunIsConsistent(s, events);
    if Run(s, events).nbRunning == 0 {
      ZeroMeansQuiet(s, events);
    }
    NextIsConsistent(Run(s, events), BootRank(prepareOk, pollOk, startOk));
  }

  // ---------------------------------------------------------------- what an event comes to

  /** `r` is `s` with a record that tells, of the enabled DPUs, which are in fault and which run without being so. */
  predicate Refreshed(s: State, r: State)
    requires Shaped(s)
  {
    && Shaped(r) && r == s.(inFault := r.inFault, running := r.running, nbRunning := r.nbRunning)
    && forall k | 0 <= k < |s.enabled| ::
         r.inFault[k] == s.faulted[k] * s.enabled[k] && r.running[k] == s.alive[k] * s.enabled[k] - s.faulted[k]
  }

  /** Some enabled DPU is in fault. */
  predicate AnyFault(s: State)
    requires Shaped(s)
  {
    exists k :: 0 <= k < |s.enabled| && s.faulted[k] * s.enabled[k] != {}
  }

  /** At any time during a run, a poll that succeeds makes the record true: the counter is zero exactly if the rank is
      quiet, and some fault is recorded exactly if some enabled DPU is in fault. */
  lemma PollTellsTruth(s0: State, events: seq<Event>)
    requires Consistent(s0)
    ensures Shaped(Run(s0, events)) && Next(Run(s0, events), PollRank(false)) == (Run(s0, events), HardwareError)
    ensures var s := Run(s0, events);
            var (r, status) := Next(s, PollRank(true));
            && status == Ok && Refreshed(s, r) && Consistent(r)
            && (r.nbRunning == 0 <==> Quiet(s))
            && ((exists k :: 0 <= k < |r.inFault| && r.inFault[k] != {}) <==> AnyFault(s))
  {
    EveryRunIsConsistent(s0, events);
    var s := Run(s0, events);
    var r := Next(s, PollRank(true)).0;
    NextIsConsistent(s, PollRank(true));
    PollRefreshes(s);
    hide Next, Run, Consistent;
    TotalIsZero(r.running);
    CountedIsQuiet(s, r);
  }

  lemma PollRefreshes(s: State)
    requires Shaped(s)
    ensures Refreshed(s, Polled(s))
  {
    var r := Polled(s);
    forall k | 0 <= k < |s.enabled|
      ensures r.inFault[k] == s.faulted[k] * s.enabled[k] && r.running[k] == s.alive[k] * s.enabled[k] - s.faulted[k]
    {
      assert s.alive[k] * s.enabled[k] - s.faulted[k] * s.enabled[k] == s.alive[k] * s.enabled[k] - s.faulted[k];
    }
  }

  lemma CountedIsQuiet(s: State, r: State)
    requires Shaped(s) && Refreshed(s, r)
    ensures (forall k | 0 <= k < |r.running| :: r.running[k] == {}) <==> Quiet(s)
  {
    if forall k | 0 <= k < |r.running| :: r.running[k] == {} {
      forall k | 0 <= k < |s.enabled|
        ensures s.alive[k] * s.enabled[k] <= s.faulted[k]
      {
        assert r.running[k] == {};
        forall m | m in s.alive[k] * s.enabled[k]
          ensures m in s.faulted[k]
        {
          assert m !in s.alive[k] * s.enabled[k] - s.faulted[k];
        }
      }
    }
  }

  /** A launch on the rank needs a known thread, a poll and the hardware.  Then every enabled DPU has been started and
      is recorded, with the faults of the poll. */
  lemma LaunchRankOutcome(s: State, thread: nat, pollOk: bool, startOk: bool)
    requires Consistent(s)
    ensures var (r, status) := Next(s, LaunchRank(thread, pollOk, startOk));
            && Consistent(r)
            && status == (if thread >= s.threads then InvalidThreadId
                          else if pollOk && startOk then Ok else HardwareError)
            && (thread >= s.threads || !pollOk ==> r == s)
            && (thread < s.threads && pollOk && !startOk ==> Refreshed(s, r))
            && (status == Ok ==>
                  && r == s.(alive := r.alive, running := s.enabled, inFault := r.inFault, nbRunning := r.nbRunning)
                  && forall k | 0 <= k < |s.enabled| ::
                       r.alive[k] == s.alive[k] + s.enabled[k] && r.inFault[k] == s.faulted[k] * s.enabled[k])
  {
    NextIsConsistent(s, LaunchRank(thread, pollOk, startOk));
    PollRefreshes(s);
    hide Total, MasksFit, Tracked;
  }

  /** A launch on one DPU starts and records that one, next to those that the poll has found running. */
  lemma LaunchDpuOutcome(s: State, slice: nat, member: nat, thread: nat, pollOk: bool, startOk: bool)
    requires Consistent(s) && slice < |s.enabled| && member < MAX_DPUS_PER_CI
    ensures var (r, status) := Next(s, LaunchDpu(slice, member, thread, pollOk, startOk));
            && Consistent(r)
            && status == (if member !in s.enabled[slice] then DpuDisabled
                          else if thread >= s.threads then InvalidThreadId
                          else if pollOk && startOk then Ok else HardwareError)
            && (member !in s.enabled[slice] || thread >= s.threads || !pollOk ==> r == s)
            && (member in s.enabled[slice] && thread < s.threads && pollOk && !startOk ==> Refreshed(s, r))
            && (status == Ok ==>
                  && r == s.(alive := s.alive[slice := s.alive[slice] + {member}],
                             running := r.running, inFault := r.inFault, nbRunning := r.nbRunning)
                  && forall k | 0 <= k < |s.enabled| ::
                       && r.inFault[k] == s.faulted[k] * s.enabled[k]
                       && r.running[k]
                          == s.alive[k] * s.enabled[k] - s.faulted[k] + if k == slice then {member} else {})
  {
    NextIsConsistent(s, LaunchDpu(slice, member, thread, pollOk, startOk));
    PollRefreshes(s);
    hide Total, MasksFit, Tracked;
    forall k | 0 <= k < |s.enabled|
      ensures var running := s.alive[k] * s.enabled[k] - s.faulted[k];
              running + {} == running && (member in running ==> running + {member} == running)
    {
    }
  }

  /** A boot is a launch of thread 0 behind a guard and a preparation; otherwise nothing has changed. */
  lemma BootOutcome(s: State, slice: nat, member: nat, prepareOk: bool, pollOk: bool, startOk: bool)
    requires Consistent(s) && slice < |s.enabled| && member < MAX_DPUS_PER_CI
    ensures Next(s, BootRank(prepareOk, pollOk, startOk)) ==
            if s.nbRunning != 0 then (s, AlreadyRunning) else if !prepareOk then (s, HardwareError)
            else Next(s, LaunchRank(0, pollOk, startOk))
    ensures Next(s, BootDpu(slice, member, prepareOk, pollOk, startOk)) ==
            if member !in s.enabled[slice] then (s, DpuDisabled)
            else if member in s.running[slice] then (s, AlreadyRunning)
            else if !prepareOk then (s, HardwareError) else Next(s, LaunchDpu(slice, member, 0, pollOk, startOk))
  {
  }

  /** Disabling takes the DPU out of its slice's mask, and changes nothing else. */
  lemma DisableOutcome(s: State, slice: nat, member: nat, disableOk: bool)
    requires Consistent(s) && slice < |s.enabled| && member < MAX_DPUS_PER_CI
    ensures var (r, status) := Next(s, Disable(slice, member, disableOk));
            && Consistent(r)
            && status == (if member !in s.enabled[slice] then DpuDisabled else if disableOk then Ok else HardwareError)
            && r == s.(enabled := r.enabled)
            && forall k | 0 <= k < |s.enabled| ::
                 r.enabled[k] == if status == Ok && k == slice then s.enabled[k] - {member} else s.enabled[k]
  {
    NextIsConsistent(s, Disable(slice, member, disableOk));
  }

  // ---------------------------------------------------------------- the object

  /** The run context of a rank, together with the part of the hardware that it mirrors. */
  class Runner {
    const threads: nat
    var enabled: seq<Mask>
    var running: seq<Mask>
    var inFault: seq<Mask>
    var nbRunning: nat
    var alive: seq<Mask>
    var faulted: seq<Mask>

    constructor (enabled: seq<Mask>, threads: nat)
      requires |enabled| <= MAX_CIS && MasksFit(enabled)
      ensures View() == State(enabled, seq(|enabled|, _ => {}), seq(|enabled|, _ => {}), 0,
                              seq(|enabled|, _ => {}), seq(|enabled|, _ => {}), threads)
      ensures Consistent(View())
    {
      var none: seq<Mask> := seq(|enabled|, _ => {});
      this.threads, this.enabled := threads, enabled;
      running, inFault, alive, faulted, nbRunning := none, none, none, none, 0;
      new;
      TotalIsZero(running);
    }

    function View(): (s: State)
      reads this
    {
      State(enabled, running, inFault, nbRunning, alive, faulted, threads)
    }

    ghost predicate Valid()
      reads this
    {
      Consistent(View())
    }

    /** The loop of a poll over the slices. */
    method RecordPoll()
      requires Shaped(View())
      modifies this`running, this`inFault, this`nbRunning
      ensures View() == Polled(old(View()))
    {
      ghost var s := View();
      var nb, k := 0, 0;
      while k < |enabled|
        invariant 0 <= k <= |enabled| == |running| == |inFault|
        invariant inFault[..k] == PolledFault(s, k) && running[..k] == PolledRunning(s, k)
        invariant nb == Total(running[..k])
      {
        ghost var before, faults := running[..k], inFault[..k];
        PolledNext(s, k);
        hide PolledFault, PolledRunning, Total;
        inFault := inFault[k := faulted[k] * enabled[k]];
        running := running[k := alive[k] * enabled[k] - inFault[k]];
        nb := nb + |running[k]|;
        TotalGrows(before, running, k);
        assert running[..k + 1] == before + [running[k]] && inFault[..k + 1] == faults + [inFault[k]];
        k := k + 1;
      }
      assert running[..k] == running && inFault[..k] == inFault;
      nbRunning := nb % 256;
    }

    method Poll(pollOk: bool) returns (status: Status)
      requires Valid()
      modifies this`running, this`inFault, this`nbRunning
      ensures Valid()
      ensures (View(), status) == Next(old(View()), PollRank(pollOk))
    {
      if !pollOk { return HardwareError; }
      PolledIsConsistent(View());
      RecordPoll();
      status := Ok;
    }

    /** The loop of a launch over the slices. */
    method RecordAll()
      requires Shaped(View())
      modifies this`running, this`nbRunning
      ensures View() == old(View()).(running := enabled, nbRunning := Total(enabled) % 256)
    {
      var nb, k := 0, 0;
      while k < |enabled|
        invariant 0 <= k <= |enabled| == |running|
        invariant running[..k] == enabled[..k] && nb == Total(enabled[..k])
      {
        running := running[k := enabled[k]];
        nb := nb + |enabled[k]|;
        TotalGrows(enabled[..k], enabled, k);
        k := k + 1;
      }
      assert enabled[..k] == enabled && running[..k] == running;
      nbRunning := nb % 256;
    }

    method LaunchThreadOnRank(thread: nat, pollOk: bool, startOk: bool) returns (status: Status)
      requires Valid()
      modifies this`running, this`inFault, this`nbRunning, this`alive
      ensures Valid()
      ensures (View(), status) == Next(old(View()), LaunchRank(thread, pollOk, startOk))
    {
      if thread >= threads { return InvalidThreadId; }
      status := Poll(pollOk);
      if status != Ok { return; }
      if !startOk { return HardwareError; }
      ghost var s := View();
      StartedIsConsistent(s);
      StartEverywhere();
      RecordAll();
    }

    /** The hardware starts a thread on every enabled DPU. */
    method StartEverywhere()
      requires Shaped(View())
      modifies this`alive
      ensures View() == old(View()).(alive := Started(old(View())).alive)
    {
      var on, before := enabled, alive;
      alive := seq(|on|, k requires 0 <= k < |on| <= |before| => before[k] + on[k]);
      assert alive == Started(old(View())).alive;
    }

    method LaunchThreadOnDpu(slice: nat, member: nat, thread: nat, pollOk: bool, startOk: bool) returns (status: Status)
      requires Valid() && slice < |enabled| && member < MAX_DPUS_PER_CI
      modifies this`running, this`inFault, this`nbRunning, this`alive
      ensures Valid()
      ensures (View(), status) == Next(old(View()), LaunchDpu(slice, member, thread, pollOk, startOk))
    {
      if member !in enabled[slice] { return DpuDisabled; }
      if thread >= threads { return InvalidThreadId; }
      status := Poll(pollOk);
      if status != Ok { return; }
      var wasRunning := member in running[slice];
      if !startOk { return HardwareError; }
      StartedOneIsConsistent(View(), slice, member);
      StartOne(slice, member, wasRunning);
    }

    /** Starts one DPU and records it, unless it is recorded already. */
    method StartOne(slice: nat, member: nat, wasRunning: bool)
      requires Shaped(View()) && slice < |enabled| && (wasRunning <==> member in running[slice])
      modifies this`running, this`nbRunning, this`alive
      ensures View() == StartedOne(old(View()), slice, member)
    {
      alive := alive[slice := alive[slice] + {member}];
      if !wasRunning {
        running := running[slice := running[slice] + {member}];
        nbRunning := (nbRunning + 1) % 256;
      }
    }

    method Boot(prepareOk: bool, pollOk: bool, startOk: bool) returns (status: Status)
      requires Valid()
      modifies this`running, this`inFault, this`nbRunning, this`alive
      ensures Valid()
      ensures (View(), status) == Next(old(View()), BootRank(prepareOk, pollOk, startOk))
    {
      if nbRunning != 0 { return AlreadyRunning; }
      if !prepareOk { return HardwareError; }
      status := LaunchThreadOnRank(BOOT_THREAD, pollOk, startOk);
    }

    method BootOne(slice: nat, member: nat, prepareOk: bool, pollOk: bool, startOk: bool) returns (status: Status)
      requires Valid() && slice < |enabled| && member < MAX_DPUS_PER_CI
      modifies this`running, this`inFault, this`nbRunning, this`alive
      ensures Valid()
      ensures (View(), status) == Next(old(View()), BootDpu(slice, member, prepareOk, pollOk, startOk))
    {
      if member !in enabled[slice] { return DpuDisabled; }
      if member in running[slice] { return AlreadyRunning; }
      if !prepareOk { return HardwareError; }
      status := LaunchThreadOnDpu(slice, member, BOOT_THREAD, pollOk, startOk);
    }

    method DisableOne(slice: nat, member: nat, disableOk: bool) returns (status: Status)
      requires Valid() && slice < |enabled| && member < MAX_DPUS_PER_CI
      modifies this`enabled
      ensures Valid()
      ensures (View(), status) == Next(old(View()), Disable(slice, member, disableOk))
    {
      if member !in enabled[slice] { return DpuDisabled; }
      if !disableOk { return HardwareError; }
      enabled := enabled[slice := enabled[slice] - {member}];
      status := Ok;
    }

    /** The rank is reported done exactly when the counter is zero, and in fault exactly when some DPU is. */
    method StatusOfRank() returns (done: bool, fault: bool)
      requires Valid()
      ensures done <==> nbRunning == 0
      ensures fault <==> exists k :: 0 <= k < |inFault| && inFault[k] != {}
    {
      TotalIsZero(running);
      done, fault := true, false;
      var k := 0;
      while k < |enabled|
        invariant 0 <= k <= |enabled|
        invariant done <==> forall j | 0 <= j < k :: running[j] == {}
        invariant fault <==> exists j :: 0 <= j < k && inFault[j] != {}
      {
        done := done && running[k] == {};
        fault := fault || inFault[k] != {};
        k := k + 1;
      }
    }
  }
}
