/** Patching a program for profiling while it is loaded, one IRAM segment after the other. */
module Profiler {
  import opened Arithmetic

  datatype Mode = Disabled | Nop | Stats | Mcount | Samples | Sections

  datatype Status = Ok | SystemError

  /** One call site: the address that identifies it, and how often it was seen. */
  datatype Entry = Entry(address: nat, count: nat)

  datatype Instruction = Instruction(bits: bv64)

  /** The encodings of the instructions that matter.  A call is an instruction that has all the bits of one of the
      two call encodings. */
  datatype Encodings = Encodings(call: bv64, callRegister: bv64, mcount: Instruction, ret: Instruction,
                                 nop: Instruction, jump: Instruction,
                                store: nat -> Instruction)

  /** Where the profiled program keeps its hooks. */
  datatype Hooks = Hooks(mcountAddress: nat, retMcountAddress: nat, threadProfilingAddress: nat)

  predicate HasBits(bits: bv64, pattern: bv64) {
    bits & pattern == pattern
  }

  predicate IsCall(e: Encodings, insn: Instruction) {
    HasBits(insn.bits, e.call) || HasBits(insn.bits, e.callRegister)
  }

  /** The immediate of a call only adds bits to its encoding, and a return is not a call. */
  predicate Sensible(e: Encodings) {
    IsCall(e, e.mcount) && !IsCall(e, e.ret) && e.ret != e.mcount
  }

  predicate Encodes(pattern: bv64, x: bv64, bits: bv64) {
    bits == pattern | x
  }

  /** A call is what becomes of one of the two encodings when bits are added: any immediate, or any register. */
  lemma CallsAreEncoded(e: Encodings, insn: Instruction)
    ensures IsCall(e, insn) <==>
              || (exists x: bv64 :: Encodes(e.call, x, insn.bits))
              || (exists x: bv64 :: Encodes(e.callRegister, x, insn.bits))
  {
    BitsAdded(e.call, insn.bits);
    BitsAdded(e.callRegister, insn.bits);
    hide HasBits, Encodes;
  }

  lemma BitsAdded(pattern: bv64, bits: bv64)
    ensures HasBits(bits, pattern) <==> exists x: bv64 :: Encodes(pattern, x, bits)
  {
    if HasBits(bits, pattern) {
      OwnBits(pattern, bits);
    }
    hide HasBits;
    forall x: bv64 | Encodes(pattern, x, bits)
      ensures HasBits(bits, pattern)
    {
      AddedBits(pattern, x, bits);
    }
  }

  lemma AddedBits(pattern: bv64, x: bv64, bits: bv64)
    requires Encodes(pattern, x, bits)
    ensures HasBits(bits, pattern)
  {
  }

  lemma OwnBits(pattern: bv64, bits: bv64)
    requires HasBits(bits, pattern)
    ensures Encodes(pattern, bits, bits)
  {
  }

  function Address(start: nat, i: nat): (a: nat)
    ensures a < WIDTH16
  {
    (start + i) % WIDTH16
  }

  // ---------------------------------------------------------------- what ought to happen

  /** An instruction after patching. */
  function Patched(e: Encodings, h: Hooks, mode: Mode, insn: Instruction, address: nat): Instruction {
    if insn == e.mcount then
      (if mode == Nop then e.nop else if mode == Stats then e.store(address) else insn)
    else if insn == e.ret && address != h.retMcountAddress + 1 && mode == Stats then e.jump
    else insn
  }

  /** The entry that an instruction gets, if any. */
  function Site(e: Encodings, mode: Mode, insn: Instruction, address: nat): seq<Entry> {
    if insn == e.mcount then (if mode == Stats then [Entry(address, 0)] else [])
    else if IsCall(e, insn) then [Entry((address + 1) % WIDTH16, 0)]
    else []
  }

  /** The entries of the first `n` instructions. */
  function Sites(e: Encodings, mode: Mode, source: seq<Instruction>, start: nat, n: nat): seq<Entry>
    requires n <= |source|
  {
    if n == 0 then [] else Sites(e, mode, source, start, n - 1) + Site(e, mode, source[n - 1], Address(start, n - 1))
  }

  /** The number of calls among the first `n` instructions. */
  function Calls(e: Encodings, source: seq<Instruction>, n: nat): (c: nat)
    requires n <= |source|
    ensures c <= n
  {
    if n == 0 then 0 else Calls(e, source, n - 1) + if IsCall(e, source[n - 1]) then 1 else 0
  }

  /** How many instructions of a segment are looked at: the number is cut to the 16 bits of an IRAM size. */
  function Scanned(source: seq<Instruction>): (n: nat)
    ensures n <= |source| && n < WIDTH16
  {
    |source| % WIDTH16
  }

  function SegmentCalls(e: Encodings, source: seq<Instruction>): nat {
    Calls(e, source, Scanned(source))
  }

  function SegmentSites(e: Encodings, mode: Mode, source: seq<Instruction>, start: nat): seq<Entry> {
    Sites(e, mode, source, start, Scanned(source))
  }

  /** From any instruction on there are at least as many calls left as entries: the second pass never needs a
      place that the first one has not counted. */
  lemma {:induction false} SitesFit(e: Encodings, mode: Mode, source: seq<Instruction>, start: nat, n: nat, m: nat)
    requires Sensible(e) && n <= m <= |source|
    ensures |Sites(e, mode, source, start, m)| - |Sites(e, mode, source, start, n)|
         <= Calls(e, source, m) - Calls(e, source, n)
    ensures Sites(e, mode, source, start, n) <= Sites(e, mode, source, start, m)
    decreases m
  {
    if n < m {
      SitesFit(e, mode, source, start, n, m - 1);
    }
  }

  /** The entry of a call stands behind those of the earlier calls: a hook call is known by its own address, every other
      call by the address behind it. */
  lemma EntryOfCall(e: Encodings, mode: Mode, source: seq<Instruction>, start: nat, i: nat, n: nat)
    requires Sensible(e) && i < n <= |source| && IsCall(e, source[i]) && (source[i] == e.mcount ==> mode == Stats)
    ensures var sites, k := Sites(e, mode, source, start, n), |Sites(e, mode, source, start, i)|;
            k < |sites| && sites[k] == Entry((start + i + if source[i] == e.mcount then 0 else 1) % 0x1_0000, 0)
  {
    hide IsCall, Calls, Site, Sites, Sensible, HasBits;
    SitesFit(e, mode, source, start, i + 1, n);
    NextAddress(start + i);
    SiteCases(e, mode, source[i], Address(start, i));
    SitesNext(e, mode, source, start, i);
  }

  lemma SitesNext(e: Encodings, mode: Mode, source: seq<Instruction>, start: nat, i: nat)
    requires i < |source|
    ensures Sites(e, mode, source, start, i + 1)
         == Sites(e, mode, source, start, i) + Site(e, mode, source[i], Address(start, i))
  {
  }

  lemma NextAddress(x: nat)
    ensures (x % WIDTH16 + 1) % WIDTH16 == (x + 1) % WIDTH16
  {
  }

  /** When statistics are collected, every call gets its entry. */
  lemma {:induction false} EveryCallHasASite(e: Encodings, source: seq<Instruction>, start: nat, n: nat)
    requires Sensible(e) && n <= |source|
    ensures |Sites(e, Stats, source, start, n)| == Calls(e, source, n)
  {
    if n > 0 {
      EveryCallHasASite(e, source, start, n - 1);
    }
  }

  /** The tables get as many places as the 16-bit counter says, which begins at `first`.  In every mode the entries
      of a segment fit behind those of the earlier ones exactly if the counter does not wrap around. */
  lemma FitsExactly(e: Encodings, mode: Mode, source: seq<Instruction>, start: nat, first: nat)
    requires Sensible(e) && first < WIDTH16
    ensures first + |SegmentSites(e, mode, source, start)| <= (first + SegmentCalls(e, source)) % WIDTH16
       <==> first + SegmentCalls(e, source) < WIDTH16
  {
    SitesFit(e, mode, source, start, 0, Scanned(source));
    NoSites(e, mode, source, start);
    NoCalls(e, source);
    hide Sites, Calls, Sensible;
    var n := first + SegmentCalls(e, source);
    assert SegmentCalls(e, source) <= Scanned(source);
    if WIDTH16 <= n {
      assert n % WIDTH16 == n - WIDTH16;
    }
  }

  /** Two calls of the hook in a segment behind 65535 other calls: the tables shrink to one place, and in no mode
      do the entries fit. */
  lemma CounterWraps(e: Encodings, mode: Mode, start: nat) returns (source: seq<Instruction>)
    requires Sensible(e)
    ensures source == [e.mcount, e.mcount] && (65535 + SegmentCalls(e, source)) % WIDTH16 == 1
    ensures 1 < 65535 + |SegmentSites(e, mode, source, start)|
  {
    source := [e.mcount, e.mcount];
    assert Calls(e, source, 1) == 1;
    assert Calls(e, source, 2) == 2;
  }

  /** Tables of `nr` places hold what they held before a segment, and then the segment's first entries. */
  ghost predicate Filled(tables: seq<seq<Entry>>, nr: nat, before: seq<seq<Entry>>, sites: seq<Entry>) {
    && |tables| == |before|
    && forall th | 0 <= th < |tables| ::
         |before[th]| + |sites| <= |tables[th]| == nr && tables[th][..|before[th]| + |sites|] == before[th] + sites
  }

  // ---------------------------------------------------------------- the patcher

  class Patcher {
    const encodings: Encodings
    const hooks: Hooks
    const mode: Mode
    const threads: nat
    var stats: seq<seq<Entry>>
    var nr: nat

    constructor (encodings: Encodings, hooks: Hooks, mode: Mode, threads: nat)
      ensures this.encodings == encodings && this.hooks == hooks && this.mode == mode && this.threads == threads
      ensures Valid() && nr == 0
    {
      this.encodings, this.hooks, this.mode, this.threads := encodings, hooks, mode, threads;
      stats, nr := seq(threads, _ => []), 0;
    }

    /** Every thread has a table of as many entries as calls have been counted. */
    ghost predicate Valid()
      reads this
    {
      |stats| == threads && nr < WIDTH16 && forall th | 0 <= th < threads :: |stats[th]| == nr
    }

    predicate MissingHooks() {
      hooks.mcountAddress == 0 || hooks.retMcountAddress == 0 || hooks.threadProfilingAddress == 0
    }

    /** Whether a segment is patched at all. */
    predicate Patches() {
      mode != Mcount && mode != Samples && mode != Sections && !(MissingHooks() && (mode == Stats || mode == Nop))
    }

    /** The first pass. */
    method CountCalls(source: array<Instruction>)
      requires nr < WIDTH16
      modifies this`nr
      ensures nr == (old(nr) + SegmentCalls(encodings, source[..])) % WIDTH16
    {
      ghost var s, first := source[..], nr;
      hide IsCall;
      var i, n := 0, source.Length % WIDTH16;
      while i < n
        invariant i <= n && nr < WIDTH16
        invariant nr == (first + Calls(encodings, s, i)) % WIDTH16
      {
        if IsCall(encodings, source[i]) {
          Wraps(first + Calls(encodings, s, i));
          nr := (nr + 1) % WIDTH16;
        }
        i := i + 1;
      }
    }

    /** Makes room for the calls that have been counted; what is in the new places is not known. */
    method Grow(first: nat)
      requires first <= nr && |stats| == threads && forall th | 0 <= th < threads :: |stats[th]| == first
      modifies this`stats
      ensures |stats| == threads && forall th | 0 <= th < threads ::
          |stats[th]| == nr && stats[th][..first] == old(stats)[th]
    {
      var more := nr - first;
      var filler: Entry := *;
      var before := stats;
      stats := seq(threads, th requires 0 <= th < threads <= |before| => before[th] + seq(more, _ => filler));
    }

    /** Puts an entry into the table of every thread. */
    method SetEntry(idx: nat, entry: Entry)
      requires |stats| == threads && forall th | 0 <= th < threads :: idx < |stats[th]|
      modifies this`stats
      ensures |stats| == threads && forall th | 0 <= th < threads :: stats[th] == old(stats)[th][idx := entry]
    {
      var th := 0;
      while th < threads
        invariant th <= threads == |stats|
        invariant forall t | 0 <= t < th :: stats[t] == old(stats)[t][idx := entry]
        invariant forall t | th <= t < threads :: stats[t] == old(stats)[t]
      {
        stats := stats[th := stats[th][idx := entry]];
        th := th + 1;
      }
    }

    /** One more entry. */
    method Append(idx: nat, entry: Entry, ghost before: seq<seq<Entry>>, ghost sites: seq<Entry>)
      requires |stats| == |before| == threads && Filled(stats, nr, before, sites) && idx < nr
      requires forall th | 0 <= th < threads :: idx == |before[th]| + |sites|
      modifies this`stats
      ensures |stats| == threads && Filled(stats, nr, before, sites + [entry])
    {
      ghost var s0 := stats;
      SetEntry(idx, entry);
      forall th | 0 <= th < threads
        ensures stats[th][..idx + 1] == before[th] + (sites + [entry])
      {
        assert stats[th][..idx + 1] == s0[th][..idx] + [entry];
      }
    }

    /** One instruction of the second pass. */
    method Visit(insn: Instruction, address: nat, idx: nat, ghost before: seq<seq<Entry>>, ghost sites: seq<Entry>)
      returns (patched: Instruction, next: nat)
      requires Sensible(encodings) && |stats| == |before| == threads && Filled(stats, nr, before, sites)
      requires forall th | 0 <= th < threads :: idx == |before[th]| + |sites|
      requires idx + |Site(encodings, mode, insn, address)| <= nr
      modifies this`stats
      ensures patched == Patched(encodings, hooks, mode, insn, address)
      ensures next == idx + |Site(encodings, mode, insn, address)|
      ensures |stats| == threads && Filled(stats, nr, before, sites + Site(encodings, mode, insn, address))
    {
      patched, next := insn, idx;
      assert sites + [] == sites;
      SiteCases(encodings, mode, insn, address);
      PatchedCases(encodings, hooks, mode, insn, address);
      hide *;
      if insn == encodings.mcount {
        if mode == Nop {
          patched := encodings.nop;
        } else if mode == Stats {
          patched := encodings.store(address);
          Append(idx, Entry(address, 0), before, sites);
          next := idx + 1;
        }
      } else if insn == encodings.ret && address != hooks.retMcountAddress + 1 {
        if mode == Stats {
          patched := encodings.jump;
        }
      } else if IsCall(encodings, insn) {
        Append(idx, Entry((address + 1) % WIDTH16, 0), before, sites);
        next := idx + 1;
      }
    }

    /** The second pass.  Its running index never reaches the number of places. */
    method Rewrite(source: array<Instruction>, start: nat, first: nat, ghost before: seq<seq<Entry>>)
      requires Sensible(encodings) && |stats| == |before| == threads && Filled(stats, nr, before, [])
      requires forall th | 0 <= th < threads :: |before[th]| == first
      requires nr == first + SegmentCalls(encodings, source[..])
      modifies this`stats, source
      ensures |stats| == threads && Filled(stats, nr, before, SegmentSites(encodings, mode, old(source[..]), start))
      ensures Rewritten(encodings, hooks, mode, old(source[..]), source[..], start, Scanned(old(source[..])))
    {
      ghost var s := source[..];
      NoSites(encodings, mode, s, start);
      assert Rewritten(encodings, hooks, mode, s, source[..], start, 0);
      hide *;
      var idx, i, n := first, 0, source.Length % WIDTH16;
      ScannedIs(s, n);
      while i < n
        invariant i <= n && idx == first + |Sites(encodings, mode, s, start, i)|
        invariant |stats| == threads && Filled(stats, nr, before, Sites(encodings, mode, s, start, i))
        invariant Rewritten(encodings, hooks, mode, s, source[..], start, i)
      {
        ghost var t := source[..];
        Room(encodings, mode, s, start, i);
        RewrittenNext(encodings, hooks, mode, s, t, start, i);
        var patched;
        patched, idx := Visit(source[i], Address(start, i), idx, before, Sites(encodings, mode, s, start, i));
        source[i] := patched;
        assert source[..] == t[i := patched];
        i := i + 1;
      }
    }

    /** The tables as a segment finds them: a first segment starts anew. */
    function TablesBefore(init: bool): (r: seq<seq<Entry>>)
      reads this
    {
      if init then seq(threads, _ => []) else stats
    }

    function CountBefore(init: bool): nat
      reads this
    {
      if init then 0 else nr
    }

    /** Patches one segment.  No entry of an earlier segment changes, and only calls of the hook and, when
        statistics are collected, returns other than the hook's own are rewritten. */
    method Patch(source: array<Instruction>, start: nat, init: bool) returns (status: Status)
      requires Sensible(encodings) && Valid()
      requires CountBefore(init) + SegmentCalls(encodings, source[..]) < WIDTH16
      modifies this`stats, this`nr, source
      ensures Valid()
      ensures status == if mode == Stats && MissingHooks() then SystemError else Ok
      ensures !Patches() ==> stats == old(stats) && nr == old(nr) && source[..] == old(source[..])
      ensures Patches() ==>
                && nr == old(CountBefore(init)) + SegmentCalls(encodings, old(source[..]))
                && (if nr == 0 then source[..] == old(source[..])
                    else Rewritten(encodings, hooks, mode, old(source[..]), source[..], start, Scanned(old(source[..])))
                         && Filled(stats, nr, old(TablesBefore(init)),
                                   SegmentSites(encodings, mode, old(source[..]), start)))
    {
      if mode == Mcount || mode == Samples || mode == Sections { return Ok; }
      if MissingHooks() {
        if mode == Stats { return SystemError; }
        if mode == Nop { return Ok; }
      }
      ghost var s, before := source[..], TablesBefore(init);
      if init {
        stats, nr := seq(threads, _ => []), 0;
      }
      assert stats == before;
      var first := nr;
      hide *;
      CountCalls(source);
      CountIsExact(first + SegmentCalls(encodings, s));
      status := Ok;
      if nr == 0 { return; }
      if nr != first {
        Grow(first);
      }
      FilledWithNothing(stats, nr, before, first);
      Rewrite(source, start, first, before);
      FilledIsValid(stats, nr, before, SegmentSites(encodings, mode, s, start));
    }

    /** What the tables hold once `k` segments have been loaded. */
    ghost predicate Loaded(codes: seq<seq<Instruction>>, starts: seq<nat>, k: nat)
      requires k <= |codes| == |starts|
      reads this
    {
      && Valid()
      && (0 < k ==> nr == AllCalls(encodings, codes, k)
                    && forall th | 0 <= th < threads :: Laid(encodings, mode, stats[th], codes, starts, k))
    }

    /** Loads a program segment by segment, in any mode.  If it is patched at all, in the end every table has as many
        places as the program has calls, and each segment's entries stand where its own calls begin; when
        statistics are collected these are all call sites, in order and without gaps.  A segment is rewritten
        unless no call has been seen up to its end. */
    method LoadProgram(sources: seq<array<Instruction>>, starts: seq<nat>) returns (status: Status)
      requires Sensible(encodings) && Valid() && |starts| == |sources|
      requires forall i, j | 0 <= i < j < |sources| :: sources[i] != sources[j]
      requires AllCalls(encodings, Codes(sources), |sources|) < WIDTH16
      modifies this`stats, this`nr, sources
      ensures Valid()
      ensures status == if mode == Stats && MissingHooks() && sources != [] then SystemError else Ok
      ensures !Patches() ==> stats == old(stats) && nr == old(nr) && Codes(sources) == old(Codes(sources))
      ensures Patches() ==> Loaded(old(Codes(sources)), starts, |sources|)
      ensures Patches() ==> forall i: nat | i < |sources| ::
                SegmentDone(encodings, hooks, mode, old(Codes(sources)), starts, i, sources[i][..])
      ensures Patches() && mode == Stats && sources != [] ==> forall th | 0 <= th < threads ::
                stats[th] == AllSites(encodings, old(Codes(sources)), starts, |sources|)
    {
      ghost var codes, stats0, nr0 := Codes(sources), stats, nr;
      hide AllCalls, AllSites, Laid, Calls, Sensible, SegmentDone, MissingHooks, Patches;
      status := Ok;
      var k := 0;
      while k < |sources|
        invariant k <= |sources| && status == Ok && Valid()
        invariant 0 < k ==> !(mode == Stats && MissingHooks())
        invariant if Patches() then Loaded(codes, starts, k) else stats == stats0 && nr == nr0
        invariant forall i: nat | k <= i < |sources| :: sources[i][..] == codes[i]
        invariant !Patches() ==> forall i: nat | i < k :: sources[i][..] == codes[i]
        invariant Patches() ==> forall i: nat | i < k ::
                    SegmentDone(encodings, hooks, mode, codes, starts, i, sources[i][..])
      {
        status := LoadNext(sources[k], codes, starts, k);
        if status != Ok {
          assert Codes(sources) == codes;
          return;
        }
        k := k + 1;
      }
      if Patches() && mode == Stats && sources != [] {
        forall th | 0 <= th < threads
          ensures stats[th] == AllSites(encodings, codes, starts, |sources|)
        {
          LaidIsAllSites(encodings, stats[th], codes, starts, |sources|);
        }
      }
    }

    method LoadNext(source: array<Instruction>, ghost codes: seq<seq<Instruction>>, starts: seq<nat>, k: nat)
      returns (status: Status)
      requires Sensible(encodings) && Valid() && |starts| == |codes| && k < |codes|
      requires Patches() ==> Loaded(codes, starts, k)
      requires source[..] == codes[k] && AllCalls(encodings, codes, |codes|) < WIDTH16
      modifies this`stats, this`nr, source
      ensures Valid()
      ensures status == if mode == Stats && MissingHooks() then SystemError else Ok
      ensures status != Ok ==> !Patches()
      ensures !Patches() ==> stats == old(stats) && nr == old(nr) && source[..] == codes[k]
      ensures Patches() ==> Loaded(codes, starts, k + 1)
      ensures Patches() ==> SegmentDone(encodings, hooks, mode, codes, starts, k, source[..])
    {
      AllCallsGrow(encodings, codes, k + 1, |codes|);
      AllCallsNext(encodings, codes, k);
      if !Patches() {
        status := Skip(source);
        return;
      }
      ghost var before := TablesBefore(k == 0);
      assert CountBefore(k == 0) == AllCalls(encodings, codes, k);
      assert forall th | 0 <= th < threads :: Laid(encodings, mode, before[th], codes, starts, k);
      hide Calls, Sites, Sensible, AllCalls, Laid, Rewritten, Filled, Patches, MissingHooks;
      status := Patch(source, starts[k], k == 0);
      forall th | 0 <= th < threads
        ensures Laid(encodings, mode, stats[th], codes, starts, k + 1)
      {
        LaidNext(encodings, mode, stats, nr, before, codes, starts, k, th);
      }
    }

    /** A segment that is not patched. */
    method Skip(source: array<Instruction>) returns (status: Status)
      requires !Patches()
      ensures status == if mode == Stats && MissingHooks() then SystemError else Ok
    {
      if mode == Mcount || mode == Samples || mode == Sections { return Ok; }
      return if mode == Stats then SystemError else Ok;
    }
  }

  function Codes(sources: seq<array<Instruction>>): (r: seq<seq<Instruction>>)
    reads sources
    ensures |r| == |sources|
  {
    seq(|sources|, i requires 0 <= i < |sources| reads sources => sources[i][..])
  }

  function AllCalls(e: Encodings, codes: seq<seq<Instruction>>, k: nat): nat
    requires k <= |codes|
  {
    if k == 0 then 0 else AllCalls(e, codes, k - 1) + SegmentCalls(e, codes[k - 1])
  }

  function AllSites(e: Encodings, codes: seq<seq<Instruction>>, starts: seq<nat>, k: nat): seq<Entry>
    requires k <= |codes| == |starts|
  {
    if k == 0 then [] else AllSites(e, codes, starts, k - 1) + SegmentSites(e, Stats, codes[k - 1], starts[k - 1])
  }

  lemma AllCallsNext(e: Encodings, codes: seq<seq<Instruction>>, k: nat)
    requires k < |codes|
    ensures AllCalls(e, codes, 0) == 0
    ensures AllCalls(e, codes, k + 1) == AllCalls(e, codes, k) + SegmentCalls(e, codes[k])
  {
  }

  /** The entries of segment `j` stand in a table from the number of the calls before that segment on. */
  ghost predicate Here(e: Encodings, mode: Mode, table: seq<Entry>, codes: seq<seq<Instruction>>, starts: seq<nat>,
                       j: nat)
    requires j < |codes| == |starts|
  {
    var first, sites := AllCalls(e, codes, j), SegmentSites(e, mode, codes[j], starts[j]);
    first + |sites| <= |table| && table[first..first + |sites|] == sites
  }

  /** A table after `k` segments: one place for each call, and the entries of every segment at its own place. */
  ghost predicate Laid(e: Encodings, mode: Mode, table: seq<Entry>, codes: seq<seq<Instruction>>, starts: seq<nat>,
                       k: nat)
    requires k <= |codes| == |starts|
  {
    |table| == AllCalls(e, codes, k) && forall j: nat | j < k :: Here(e, mode, table, codes, starts, j)
  }

  /** Segment `i` after patching: rewritten, unless no call has been counted up to its end. */
  ghost predicate SegmentDone(e: Encodings, h: Hooks, mode: Mode, codes: seq<seq<Instruction>>, starts: seq<nat>,
                              i: nat, after: seq<Instruction>)
    requires i < |codes| == |starts|
  {
    if AllCalls(e, codes, i + 1) == 0 then after == codes[i]
    else Rewritten(e, h, mode, codes[i], after, starts[i], Scanned(codes[i]))
  }

  lemma LaidNext(e: Encodings, mode: Mode, tables: seq<seq<Entry>>, nr: nat, before: seq<seq<Entry>>,
                 codes: seq<seq<Instruction>>, starts: seq<nat>, k: nat, th: nat)
    requires Sensible(e) && k < |codes| == |starts| && th < |tables| == |before|
    requires Laid(e, mode, before[th], codes, starts, k) && nr == |tables[th]| == AllCalls(e, codes, k + 1)
    requires nr == 0 || Filled(tables, nr, before, SegmentSites(e, mode, codes[k], starts[k]))
    ensures Laid(e, mode, tables[th], codes, starts, k + 1)
  {
    hide Sites, Calls, AllCalls, Sensible, Here, Filled, IsCall;
    var sites, b, t := SegmentSites(e, mode, codes[k], starts[k]), before[th], tables[th];
    AllCallsNext(e, codes, k);
    TableGrows(e, mode, tables, nr, before, codes[k], starts[k], th, |b|);
    forall j: nat | j < k + 1
      ensures Here(e, mode, t, codes, starts, j)
    {
      if j < k {
        HereStill(e, mode, b, t, sites, codes, starts, j);
      } else {
        HereNow(e, mode, b, t, codes, starts, k);
      }
    }
  }

  lemma TableGrows(e: Encodings, mode: Mode, tables: seq<seq<Entry>>, nr: nat, before: seq<seq<Entry>>,
                   source: seq<Instruction>, start: nat, th: nat, first: nat)
    requires Sensible(e) && th < |tables| == |before| && |before[th]| == first
    requires nr == |tables[th]| == first + SegmentCalls(e, source)
    requires nr == 0 || Filled(tables, nr, before, SegmentSites(e, mode, source, start))
    ensures var sites := SegmentSites(e, mode, source, start);
            first + |sites| <= nr && tables[th][..first + |sites|] == before[th] + sites
  {
    SitesFit(e, mode, source, start, 0, Scanned(source));
    NoSites(e, mode, source, start);
    NoCalls(e, source);
    hide Sites, Calls, Sensible;
  }

  lemma HereStill(e: Encodings, mode: Mode, b: seq<Entry>, t: seq<Entry>, more: seq<Entry>,
                  codes: seq<seq<Instruction>>, starts: seq<nat>, j: nat)
    requires j < |codes| == |starts| && Here(e, mode, b, codes, starts, j)
    requires |b| + |more| <= |t| && t[..|b| + |more|] == b + more
    ensures Here(e, mode, t, codes, starts, j)
  {
    hide Sites, AllCalls;
    var first, n := AllCalls(e, codes, j), |SegmentSites(e, mode, codes[j], starts[j])|;
    FrontKept(b, t, more, first, n);
  }

  lemma FrontKept(b: seq<Entry>, t: seq<Entry>, more: seq<Entry>, first: nat, n: nat)
    requires first + n <= |b| && |b| + |more| <= |t| && t[..|b| + |more|] == b + more
    ensures t[first..first + n] == b[first..first + n]
  {
    forall k | first <= k < first + n
      ensures t[k] == b[k]
    {
      assert t[k] == t[..|b| + |more|][k] == (b + more)[k];
    }
  }

  lemma HereNow(e: Encodings, mode: Mode, b: seq<Entry>, t: seq<Entry>, codes: seq<seq<Instruction>>, starts: seq<nat>,
                k: nat)
    requires k < |codes| == |starts| && |b| == AllCalls(e, codes, k)
    requires var sites := SegmentSites(e, mode, codes[k], starts[k]);
             |b| + |sites| <= |t| && t[..|b| + |sites|] == b + sites
    ensures Here(e, mode, t, codes, starts, k)
  {
    hide Sites, AllCalls;
    var n := |SegmentSites(e, mode, codes[k], starts[k])|;
    assert t[|b|..|b| + n] == t[..|b| + n][|b|..];
  }

  lemma ScannedIs(source: seq<Instruction>, n: nat)
    requires n == |source| % WIDTH16
    ensures n == Scanned(source) <= |source|
  {
  }

  lemma NoCalls(e: Encodings, source: seq<Instruction>)
    ensures Calls(e, source, 0) == 0
  {
  }

  lemma HereBelow(e: Encodings, table: seq<Entry>, codes: seq<seq<Instruction>>, starts: seq<nat>, j: nat, n: nat)
    requires Sensible(e) && j < |codes| == |starts| && Here(e, Stats, table, codes, starts, j)
    requires AllCalls(e, codes, j + 1) <= n <= |table|
    ensures Here(e, Stats, table[..n], codes, starts, j)
  {
    EveryCallHasASite(e, codes[j], starts[j], Scanned(codes[j]));
    AllCallsNext(e, codes, j);
    hide Sites, Calls, AllCalls, Sensible;
    var first, m := AllCalls(e, codes, j), |SegmentSites(e, Stats, codes[j], starts[j])|;
    assert table[..n][first..first + m] == table[first..first + m];
  }

  /** When statistics are collected no place is left over, so a table is the list of all call sites. */
  lemma {:induction false} LaidIsAllSites(e: Encodings, table: seq<Entry>, codes: seq<seq<Instruction>>,
                                          starts: seq<nat>, k: nat)
    requires Sensible(e) && k <= |codes| == |starts| && Laid(e, Stats, table, codes, starts, k)
    ensures table == AllSites(e, codes, starts, k)
    decreases k
  {
    hide Sites, Calls, AllCalls, AllSites, Sensible, IsCall, Here;
    if k == 0 {
      NoneCalled(e, codes, starts);
    } else {
      var n := AllCalls(e, codes, k - 1);
      AllCallsNext(e, codes, k - 1);
      AllCallsGrow(e, codes, k - 1, k);
      HereLast(e, table, codes, starts, k - 1);
      forall j: nat | j < k - 1
        ensures Here(e, Stats, table[..n], codes, starts, j)
      {
        AllCallsGrow(e, codes, j + 1, k - 1);
        HereBelow(e, table, codes, starts, j, n);
      }
      LaidIsAllSites(e, table[..n], codes, starts, k - 1);
      AllSitesNext(e, codes, starts, k - 1);
      assert table == table[..n] + table[n..];
    }
  }

  /** The entries of the last segment fill the rest of a table. */
  lemma HereLast(e: Encodings, table: seq<Entry>, codes: seq<seq<Instruction>>, starts: seq<nat>, j: nat)
    requires Sensible(e) && j < |codes| == |starts| && Here(e, Stats, table, codes, starts, j)
      && |table| == AllCalls(e, codes, j + 1)
    ensures AllCalls(e, codes, j) <= |table|
    ensures table[AllCalls(e, codes, j)..] == SegmentSites(e, Stats, codes[j], starts[j])
  {
    EveryCallHasASite(e, codes[j], starts[j], Scanned(codes[j]));
    AllCallsNext(e, codes, j);
    hide Sites, Calls, AllCalls, Sensible;
    assert table[AllCalls(e, codes, j)..] == table[AllCalls(e, codes, j)..|table|];
  }

  lemma NoneCalled(e: Encodings, codes: seq<seq<Instruction>>, starts: seq<nat>)
    requires |codes| == |starts|
    ensures AllCalls(e, codes, 0) == 0 && AllSites(e, codes, starts, 0) == []
  {
  }

  lemma AllSitesNext(e: Encodings, codes: seq<seq<Instruction>>, starts: seq<nat>, k: nat)
    requires k < |codes| == |starts|
    ensures AllSites(e, codes, starts, k + 1) ==
            AllSites(e, codes, starts, k) + SegmentSites(e, Stats, codes[k], starts[k])
  {
  }

  lemma {:induction false} AllCallsGrow(e: Encodings, codes: seq<seq<Instruction>>, k: nat, n: nat)
    requires k <= n <= |codes|
    ensures AllCalls(e, codes, k) <= AllCalls(e, codes, n)
  {
    if k < n {
      AllCallsGrow(e, codes, k, n - 1);
    }
  }

  lemma CountIsExact(n: nat)
    requires n < WIDTH16
    ensures n % WIDTH16 == n
  {
  }

  lemma FilledWithNothing(tables: seq<seq<Entry>>, nr: nat, before: seq<seq<Entry>>, first: nat)
    requires |tables| == |before|
    requires forall th | 0 <= th < |tables| ::
               |before[th]| == first <= nr == |tables[th]| && tables[th][..first] == before[th]
    ensures Filled(tables, nr, before, [])
  {
  }

  lemma FilledIsValid(tables: seq<seq<Entry>>, nr: nat, before: seq<seq<Entry>>, sites: seq<Entry>)
    requires Filled(tables, nr, before, sites)
    ensures forall th | 0 <= th < |tables| :: |tables[th]| == nr
  {
  }

  /** The first `n` instructions of a segment have been patched. */
  ghost predicate Rewritten(e: Encodings, h: Hooks, mode: Mode, before: seq<Instruction>, after: seq<Instruction>,
                            start: nat, n: nat) {
    && |after| == |before| && n <= |before|
    && (forall i | 0 <= i < n :: after[i] == Patched(e, h, mode, before[i], Address(start, i)))
    && (forall i | n <= i < |before| :: after[i] == before[i])
  }

  /** What patching comes to.  Hook calls are removed, or replaced by a store of their own address; when statistics are
      collected returns become jumps to the hook's, except for the hook's own; nothing else changes. */
  lemma RewrittenIs(e: Encodings, h: Hooks, mode: Mode, before: seq<Instruction>, after: seq<Instruction>,
                    start: nat, n: nat, i: nat)
    requires Sensible(e) && Rewritten(e, h, mode, before, after, start, n) && i < |before|
    ensures |after| == |before|
    ensures i < n && before[i] == e.mcount && mode == Nop ==> after[i] == e.nop
    ensures i < n && before[i] == e.mcount && mode == Stats ==> after[i] == e.store((start + i) % 0x1_0000)
    ensures i < n && before[i] == e.ret && mode == Stats && (start + i) % 0x1_0000 != h.retMcountAddress + 1 ==>
              after[i] == e.jump
    ensures n <= i || (before[i] != e.mcount && before[i] != e.ret) || (mode != Nop && mode != Stats) ==>
              after[i] == before[i]
    ensures before[i] == e.ret && (mode == Nop || (start + i) % 0x1_0000 == h.retMcountAddress + 1) ==>
              after[i] == before[i]
  {
    hide IsCall;
  }

  lemma RewrittenNext(e: Encodings, h: Hooks, mode: Mode, before: seq<Instruction>, after: seq<Instruction>, start: nat,
                      n: nat)
    requires Rewritten(e, h, mode, before, after, start, n) && n < |before|
    ensures |after| == |before| && after[n] == before[n]
    ensures Rewritten(e, h, mode, before, after[n := Patched(e, h, mode, before[n], Address(start, n))], start, n + 1)
  {
    hide Patched, Address;
  }

  lemma NoSites(e: Encodings, mode: Mode, source: seq<Instruction>, start: nat)
    ensures Sites(e, mode, source, start, 0) == []
  {
  }

  lemma SiteCases(e: Encodings, mode: Mode, insn: Instruction, address: nat)
    requires Sensible(e)
    ensures insn == e.mcount && mode == Stats ==> Site(e, mode, insn, address) == [Entry(address, 0)]
    ensures insn == e.mcount && mode != Stats ==> Site(e, mode, insn, address) == []
    ensures insn == e.ret ==> insn != e.mcount && Site(e, mode, insn, address) == [] && !IsCall(e, insn)
    ensures insn != e.mcount && IsCall(e, insn) ==> Site(e, mode, insn, address) == [Entry((address + 1) % WIDTH16, 0)]
    ensures insn != e.mcount && !IsCall(e, insn) ==> Site(e, mode, insn, address) == []
  {
  }

  lemma PatchedCases(e: Encodings, h: Hooks, mode: Mode, insn: Instruction, address: nat)
    ensures insn == e.mcount ==>
              Patched(e, h, mode, insn, address)
                == if mode == Nop then e.nop else if mode == Stats then e.store(address) else insn
    ensures insn != e.mcount && insn == e.ret && address != h.retMcountAddress + 1 && mode == Stats ==>
              Patched(e, h, mode, insn, address) == e.jump
    ensures insn != e.mcount && !(insn == e.ret && address != h.retMcountAddress + 1 && mode == Stats) ==>
              Patched(e, h, mode, insn, address) == insn
  {
  }

  lemma Wraps(n: nat)
    ensures (n % WIDTH16 + 1) % WIDTH16 == (n + 1) % WIDTH16
  {
  }

  /** There is room for the entry of the next instruction. */
  lemma Room(e: Encodings, mode: Mode, source: seq<Instruction>, start: nat, i: nat)
    requires Sensible(e) && i < Scanned(source)
    ensures |Sites(e, mode, source, start, i)| + |Site(e, mode, source[i], Address(start, i))|
         <= SegmentCalls(e, source)
    ensures Sites(e, mode, source, start, i + 1)
         == Sites(e, mode, source, start, i) + Site(e, mode, source[i], Address(start, i))
  {
    SitesFit(e, mode, source, start, 0, i + 1);
    CallsGrow(e, source, i + 1, Scanned(source));
  }

  lemma {:induction false} CallsGrow(e: Encodings, source: seq<Instruction>, n: nat, m: nat)
    requires n <= m <= |source|
    ensures Calls(e, source, n) <= Calls(e, source, m)
  {
    if n < m {
      CallsGrow(e, source, n, m - 1);
    }
  }
}
