/** The tasklets of one relocation pass, as a state machine over one shared memory.

    Every tasklet walks its blocks in strides of `tasklets` and every block in chunks of `CHUNK` bytes.  For
    each chunk it reads the chunk into its private cache, waits at the barrier, writes the chunk to its slot,
    and waits again.  A step reads or writes a single byte, so that the theorems hold for every way in which
    the transfers of different tasklets may overlap. */
module Tasklets {
  import opened Arithmetic
  import opened Bytes
  import opened Blocks

  datatype Phase =
    | Reading(got: nat)      // `got` bytes of the chunk are in the cache
    | AwaitWrites            // blocked at the barrier that follows the reads
    | Writing(put: nat)      // `put` bytes of the cache are back in memory
    | AwaitReads             // blocked at the barrier that follows the writes
    | Finished

  datatype Tasklet = Tasklet(block: nat, chunk: nat, phase: Phase, cache: seq<byte>)

  datatype State = State(mem: seq<byte>, tasklets: seq<Tasklet>)

  // ---------------------------------------------------------------- chunks

  /** `iter`: the number of chunks of a block. */
  function Iterations(blockBytes: nat): nat {
    if blockBytes % CHUNK == 0 then blockBytes / CHUNK else blockBytes / CHUNK + 1
  }

  /** The length of a chunk: the last one holds what is left over. */
  function ChunkLength(blockBytes: nat, chunk: nat): (n: nat)
    requires chunk < Iterations(blockBytes)
    ensures 0 < n <= 2048 && chunk * 2048 + n <= blockBytes
    ensures chunk + 1 < Iterations(blockBytes) ==> n == 2048
    ensures chunk + 1 == Iterations(blockBytes) ==> chunk * 2048 + n == blockBytes
  {
    if chunk == Iterations(blockBytes) - 1 then blockBytes - CHUNK * chunk else CHUNK
  }

  // ---------------------------------------------------------------- the machine

  predicate Waiting(tk: Tasklet) {
    tk.phase.AwaitWrites? || tk.phase.AwaitReads?
  }

  predicate Runnable(tk: Tasklet) {
    !tk.phase.Finished? && !Waiting(tk)
  }

  predicate AllFinished(ts: seq<Tasklet>) {
    forall i | 0 <= i < |ts| :: ts[i].phase.Finished?
  }

  predicate AllWaiting(ts: seq<Tasklet>) {
    forall i | 0 <= i < |ts| :: Waiting(ts[i])
  }

  /** Where tasklet `i` starts.  A block without bytes makes the inner loop empty, and then the tasklet does
      nothing at all. */
  function Begin(c: Layout, i: nat): Tasklet {
    if i < c.blocks && 0 < Iterations(c.blockBytes) then Tasklet(i, 0, Reading(0), [])
    else Tasklet(i, 0, Finished, [])
  }

  function Init(c: Layout, mem: seq<byte>): State {
    State(mem, seq(c.tasklets, i requires 0 <= i => Begin(c, i)))
  }

  /** The end of the inner loop's body: next chunk, next block, or done. */
  function Advance(c: Layout, tk: Tasklet): Tasklet {
    if tk.chunk + 1 < Iterations(c.blockBytes) then Tasklet(tk.block, tk.chunk + 1, Reading(0), [])
    else if tk.block + c.tasklets < c.blocks then Tasklet(tk.block + c.tasklets, 0, Reading(0), [])
    else Tasklet(tk.block, tk.chunk, Finished, [])
  }

  function Resume(c: Layout, tk: Tasklet): Tasklet {
    match tk.phase
    case AwaitWrites => tk.(phase := Writing(0))
    case AwaitReads => Advance(c, tk)
    case _ => tk
  }

  /** Tasklet `i` arrives at the barrier.  It blocks, unless it is the last of the participants: then all of
      them go on. */
  function Arrive(c: Layout, ts: seq<Tasklet>, i: nat, phase: Phase): (after: seq<Tasklet>)
    requires i < |ts|
    ensures |after| == |ts|
  {
    var blocked := ts[i := ts[i].(phase := phase)];
    if AllWaiting(blocked) then seq(|blocked|, j requires 0 <= j < |blocked| => Resume(c, blocked[j]))
    else blocked
  }

  /** What a tasklet knows about itself: it works on a chunk of a block of its own stride. */
  predicate InRange(c: Layout, i: nat, tk: Tasklet) {
    tk.phase.Finished? ||
    (&& 0 < c.tasklets
     && tk.block < c.blocks && tk.block % c.tasklets == i
     && tk.chunk < Iterations(c.blockBytes)
     && match tk.phase
        case Reading(got) => got == |tk.cache| <= ChunkLength(c.blockBytes, tk.chunk)
        case Writing(put) => put <= |tk.cache| == ChunkLength(c.blockBytes, tk.chunk)
        case AwaitWrites => |tk.cache| == ChunkLength(c.blockBytes, tk.chunk)
        case AwaitReads => |tk.cache| == ChunkLength(c.blockBytes, tk.chunk)
        case Finished => true)
  }

  /** The address a tasklet reads next, or writes next. */
  function SourceAddr(c: Layout, tk: Tasklet, k: nat): nat {
    Addr(c.start, c.blockBytes, tk.block, tk.chunk * CHUNK + k)
  }

  function TargetAddr(c: Layout, tk: Tasklet, k: nat): nat
    requires GroupSize(c.group)
  {
    Addr(c.target, c.blockBytes, Slot(c, tk.block), tk.chunk * CHUNK + k)
  }

  lemma AddressesInside(c: Layout, size: nat, i: nat, tk: Tasklet, k: nat)
    requires Placed(c, size) && InRange(c, i, tk) && !tk.phase.Finished?
    requires k < ChunkLength(c.blockBytes, tk.chunk)
    ensures SourceAddr(c, tk, k) < size && TargetAddr(c, tk, k) < size
  {
    SlotInSpread(c, tk.block);
    AddrInside(c.start, c.blockBytes, c.blocks, tk.block, tk.chunk * CHUNK + k);
    AddrInside(c.target, c.blockBytes, Spread(c), Slot(c, tk.block), tk.chunk * CHUNK + k);
  }

  /** One step of tasklet `i`. */
  function Step(c: Layout, s: State, i: nat): (after: State)
    requires Placed(c, |s.mem|) && i < |s.tasklets|
    requires Runnable(s.tasklets[i]) && InRange(c, i, s.tasklets[i])
    ensures |after.mem| == |s.mem| && |after.tasklets| == |s.tasklets|
  {
    var tk := s.tasklets[i];
    var n := ChunkLength(c.blockBytes, tk.chunk);
    match tk.phase
    case Reading(got) =>
      if got < n then
        AddressesInside(c, |s.mem|, i, tk, got);
        s.(tasklets := s.tasklets[i := tk.(phase := Reading(got + 1),
                                           cache := tk.cache + [s.mem[SourceAddr(c, tk, got)]])])
      else if c.barriers then s.(tasklets := Arrive(c, s.tasklets, i, AwaitWrites))
      else s.(tasklets := s.tasklets[i := tk.(phase := Writing(0))])
    case Writing(put) =>
      if put < n then
        AddressesInside(c, |s.mem|, i, tk, put);
        State(s.mem[TargetAddr(c, tk, put) := tk.cache[put]], s.tasklets[i := tk.(phase := Writing(put + 1))])
      else if c.barriers then s.(tasklets := Arrive(c, s.tasklets, i, AwaitReads))
      else s.(tasklets := s.tasklets[i := Advance(c, tk)])
  }

  // ---------------------------------------------------------------- the invariant

  /** Regions that cannot interfere, or one region whose groups are kept in step by the barriers. */
  predicate Safe(c: Layout) {
    || c.start + c.blocks * c.blockBytes <= c.target
    || c.target + c.blocks * c.blockBytes <= c.start
    || (c.start == c.target && c.barriers && 0 < c.group && c.tasklets % c.group == 0)
  }

  /** How much of the current block has reached its slot. */
  function Extent(c: Layout, tk: Tasklet): nat {
    match tk.phase
    case Writing(put) => tk.chunk * CHUNK + put
    case AwaitReads => if tk.chunk < Iterations(c.blockBytes)
        then tk.chunk * CHUNK + ChunkLength(c.blockBytes, tk.chunk) else 0
    case _ => tk.chunk * CHUNK
  }

  /** Byte `p` of block `t` has been written by its tasklet `tk`. */
  predicate Moved(c: Layout, tk: Tasklet, t: nat, p: nat) {
    tk.phase.Finished? || t < tk.block || (t == tk.block && p < Extent(c, tk))
  }

  /** The cache holds the bytes of the memory before the pass. */
  predicate CacheOk(c: Layout, m0: seq<byte>, tk: Tasklet) {
    !tk.phase.Finished? ==>
      forall k: nat | k < |tk.cache| :: SourceAddr(c, tk, k) < |m0| && tk.cache[k] == m0[SourceAddr(c, tk, k)]
  }

  /** Slot `s` holds its new byte once the tasklet of the block destined for it has written that byte, and its
      old byte until then. */
  ghost predicate CellOk(c: Layout, m0: seq<byte>, s: State, slot: nat, p: nat)
    requires Valid(c, |m0|) && |s.mem| == |m0| && |s.tasklets| == c.tasklets
    requires slot < c.blocks && p < c.blockBytes
  {
    var t := Unslot(c, slot);
    SlotStaysInside(c, slot);
    AddrInside(c.target, c.blockBytes, c.blocks, slot, p);
    AddrInside(c.start, c.blockBytes, c.blocks, t, p);
    s.mem[Addr(c.target, c.blockBytes, slot, p)] ==
    if Moved(c, s.tasklets[t % c.tasklets], t, p) then m0[Addr(c.start, c.blockBytes, t, p)]
    else m0[Addr(c.target, c.blockBytes, slot, p)]
  }

  /** Which of the two barriers of a chunk comes next. */
  predicate SecondHalf(tk: Tasklet) {
    tk.phase.Writing? || tk.phase.AwaitReads?
  }

  /** Tasklet `i` is in the same row of blocks, the same chunk and the same half of it as tasklet 0, unless it
      has no block in that row: then it is done. */
  predicate InStep(c: Layout, head: Tasklet, i: nat, tk: Tasklet) {
    if head.phase.Finished? || c.blocks <= head.block + i then tk.phase.Finished?
    else && !tk.phase.Finished?
         && tk.block == head.block + i && tk.chunk == head.chunk && (SecondHalf(tk) <==> SecondHalf(head))
  }

  predicate Lockstep(c: Layout, ts: seq<Tasklet>)
    requires 0 < |ts|
  {
    && (forall i | 0 <= i < |ts| :: InStep(c, ts[0], i, ts[i]))
    && !AllWaiting(ts)
  }

  ghost predicate Inv(c: Layout, m0: seq<byte>, s: State)
    requires Valid(c, |m0|)
  {
    && |s.mem| == |m0| && |s.tasklets| == c.tasklets
    && (forall i | 0 <= i < c.tasklets :: InRange(c, i, s.tasklets[i]) && CacheOk(c, m0, s.tasklets[i]))
    && (if c.barriers then Lockstep(c, s.tasklets) else forall i | 0 <= i < c.tasklets :: !Waiting(s.tasklets[i]))
    && (forall slot: nat, p: nat | slot < c.blocks && p < c.blockBytes :: CellOk(c, m0, s, slot, p))
    && (forall a: nat | a < |m0| && !InTarget(c, a) :: s.mem[a] == m0[a])
  }

  lemma SmallMod(i: nat, n: nat)
    requires i < n
    ensures i % n == i
  {
    DivModUnique(i, n, 0, i);
  }

  lemma RowOf(n: nat, w: nat)
    requires 0 < w
    ensures n % w < w && n % w <= n
  {
    assert n == n / w * w + n % w;
    assert 0 <= n / w * w;
  }

  lemma InitCell(c: Layout, m0: seq<byte>, slot: nat, p: nat)
    requires Valid(c, |m0|) && slot < c.blocks && p < c.blockBytes
    ensures CellOk(c, m0, Init(c, m0), slot, p)
  {
    var t := Unslot(c, slot);
    SlotStaysInside(c, slot);
    RowOf(t, c.tasklets);
    assert !Moved(c, Begin(c, t % c.tasklets), t, p);
  }

  lemma InitInv(c: Layout, m0: seq<byte>)
    requires Valid(c, |m0|)
    ensures Inv(c, m0, Init(c, m0))
  {
    var s := Init(c, m0);
    forall i: nat | i < c.tasklets
      ensures InRange(c, i, s.tasklets[i])
    {
      SmallMod(i, c.tasklets);
    }
    forall slot: nat, p: nat | slot < c.blocks && p < c.blockBytes
      ensures CellOk(c, m0, s, slot, p)
    {
      InitCell(c, m0, slot, p);
    }
    assert !Waiting(s.tasklets[0]);
  }

  // ---------------------------------------------------------------- every step keeps the invariant

  /** No byte that is still to be read has been overwritten.  In place, this is what the barriers are for: the
      block that will overwrite it belongs to the same group, hence to the same row, and its tasklet has not
      been released to write that chunk. */
  lemma ReadsSeeTheOriginal(c: Layout, m0: seq<byte>, s: State, i: nat, k: nat)
    requires Valid(c, |m0|) && Safe(c) && Inv(c, m0, s)
    requires i < c.tasklets && s.tasklets[i].phase.Reading?
    requires k < ChunkLength(c.blockBytes, s.tasklets[i].chunk)
    ensures SourceAddr(c, s.tasklets[i], k) < |m0|
    ensures s.mem[SourceAddr(c, s.tasklets[i], k)] == m0[SourceAddr(c, s.tasklets[i], k)]
  {
    var tk := s.tasklets[i];
    var a, p := SourceAddr(c, tk, k), tk.chunk * CHUNK + k;
    AddressesInside(c, |m0|, i, tk, k);
    AddrInside(c.start, c.blockBytes, c.blocks, tk.block, p);
    if InTarget(c, a) {
      var t := Unslot(c, tk.block);
      SlotIsBijection(c, tk.block);
      SlotStaysInside(c, tk.block);
      SameRow(c.tasklets, c.group, tk.block, t);
      var j := t % c.tasklets;
      assert InStep(c, s.tasklets[0], i, tk) && InStep(c, s.tasklets[0], j, s.tasklets[j]);
      assert s.tasklets[j].block == t;
      assert CellOk(c, m0, s, tk.block, p);
    }
  }

  /** Blocks of one group lie in one row of a stride that the group size divides. */
  lemma SameRow(stride: nat, g: nat, b: nat, t: nat)
    requires 0 < g && 0 < stride && stride % g == 0 && b / g == t / g
    ensures b / stride == t / stride && b - b % stride == t - t % stride
  {
    var k := stride / g;
    assert stride == k * g;
    assert 0 < k by { assert k == 0 ==> k * g == 0; }
    DivByFactor(b, g, k);
    DivByFactor(t, g, k);
    assert b == b / stride * stride + b % stride && t == t / stride * stride + t % stride;
  }

  lemma DivByFactor(x: nat, g: nat, k: nat)
    requires 0 < g && 0 < k
    ensures x / (k * g) == x / g / k
  {
    var q, r := x / g / k, x / g % k;
    assert x / g == q * k + r;
    assert x == (q * k + r) * g + x % g;
    assert (q * k + r) * g == q * (k * g) + r * g;
    MulGap(r, k, g);
    assert 0 <= r * g;
    DivModUnique(x, k * g, q, r * g + x % g);
  }

  /** Two states of tasklet `j` between which no byte of its blocks is written. */
  ghost predicate SameMoves(c: Layout, j: nat, tk: Tasklet, tk': Tasklet)
    requires 0 < c.tasklets
  {
    forall t: nat, p: nat | t < c.blocks && p < c.blockBytes && t % c.tasklets == j ::
      Moved(c, tk, t, p) <==> Moved(c, tk', t, p)
  }

  lemma CellsKept(c: Layout, m0: seq<byte>, s: State, ts: seq<Tasklet>)
    requires Valid(c, |m0|) && Inv(c, m0, s)
    requires |ts| == c.tasklets
    requires forall j: nat | j < c.tasklets :: SameMoves(c, j, s.tasklets[j], ts[j])
    ensures forall slot: nat, p: nat | slot < c.blocks && p < c.blockBytes :: CellOk(c, m0, State(s.mem, ts), slot, p)
  {
    forall slot: nat, p: nat | slot < c.blocks && p < c.blockBytes
      ensures CellOk(c, m0, State(s.mem, ts), slot, p)
    {
      var t := Unslot(c, slot);
      SlotStaysInside(c, slot);
      RowOf(t, c.tasklets);
      assert CellOk(c, m0, s, slot, p);
      assert SameMoves(c, t % c.tasklets, s.tasklets[t % c.tasklets], ts[t % c.tasklets]);
    }
  }

  lemma NextInStride(w: nat, b: nat, t: nat)
    requires 0 < w && t % w == b % w
    ensures t < b + w <==> t <= b
    ensures (b + w) % w == b % w
  {
    ModShift(b, 1, w);
    assert t == t / w * w + t % w && b == b / w * w + b % w;
    MulGap(b / w, t / w, w);
  }

  /** Going on to the next chunk, to the next block of the stride, or to the end writes nothing and skips
      nothing. */
  lemma AdvanceKeeps(c: Layout, m0: seq<byte>, j: nat, tk: Tasklet)
    requires Valid(c, |m0|) && InRange(c, j, tk)
    requires tk.phase.AwaitReads? || (tk.phase.Writing? && tk.phase.put == ChunkLength(c.blockBytes, tk.chunk))
    ensures SameMoves(c, j, tk, Advance(c, tk))
    ensures InRange(c, j, Advance(c, tk)) && CacheOk(c, m0, Advance(c, tk))
  {
    NextInStride(c.tasklets, tk.block, tk.block);
    forall t: nat, p: nat | t < c.blocks && p < c.blockBytes && t % c.tasklets == j
      ensures Moved(c, tk, t, p) <==> Moved(c, Advance(c, tk), t, p)
    {
      NextInStride(c.tasklets, tk.block, t);
    }
  }

  lemma ResumeKeeps(c: Layout, m0: seq<byte>, j: nat, tk: Tasklet)
    requires Valid(c, |m0|) && InRange(c, j, tk) && CacheOk(c, m0, tk)
    ensures SameMoves(c, j, tk, Resume(c, tk))
    ensures InRange(c, j, Resume(c, tk)) && CacheOk(c, m0, Resume(c, tk))
  {
    if tk.phase.AwaitReads? {
      AdvanceKeeps(c, m0, j, tk);
    }
  }

  /** When the last participant arrives, all of them are in the same row, chunk and half, so all of them move
      on together. */
  lemma ReleaseInStep(c: Layout, ts: seq<Tasklet>, ts': seq<Tasklet>)
    requires 0 < |ts| == c.tasklets == |ts'| && AllWaiting(ts)
    requires forall i: nat | i < |ts| :: InRange(c, i, ts[i]) && InStep(c, ts[0], i, ts[i])
    requires forall i: nat | i < |ts| :: ts'[i] == Resume(c, ts[i])
    ensures Lockstep(c, ts')
  {
    assert Waiting(ts[0]) && !Waiting(ts'[0]);
    forall i: nat | i < |ts|
      ensures InStep(c, ts'[0], i, ts'[i])
    {
      assert Waiting(ts[i]) && InStep(c, ts[0], i, ts[i]);
    }
  }

  /** A tasklet that has read its whole chunk, or written it, is about to wait at the barrier `phase`. */
  predicate AtBarrier(c: Layout, tk: Tasklet, phase: Phase) {
    !tk.phase.Finished? && tk.chunk < Iterations(c.blockBytes) && |tk.cache| == ChunkLength(c.blockBytes, tk.chunk) &&
    ((tk.phase == Reading(|tk.cache|) && phase == AwaitWrites)
        || (tk.phase == Writing(|tk.cache|) && phase == AwaitReads))
  }

  /** Blocking at the barrier changes nothing else about a tasklet. */
  lemma BlockingKeeps(c: Layout, m0: seq<byte>, j: nat, tk: Tasklet, phase: Phase)
    requires Valid(c, |m0|) && InRange(c, j, tk) && CacheOk(c, m0, tk) && AtBarrier(c, tk, phase)
    ensures var tk' := tk.(phase := phase);
            InRange(c, j, tk') && CacheOk(c, m0, tk') && SameMoves(c, j, tk, tk')
  {
  }

  lemma BlockedInStep(c: Layout, ts: seq<Tasklet>, i: nat, phase: Phase)
    requires i < |ts| && AtBarrier(c, ts[i], phase)
    requires forall j: nat | j < |ts| :: InStep(c, ts[0], j, ts[j])
    ensures var blocked := ts[i := ts[i].(phase := phase)];
            forall j: nat | j < |ts| :: InStep(c, blocked[0], j, blocked[j])
  {
    var blocked := ts[i := ts[i].(phase := phase)];
    forall j: nat | j < |ts|
      ensures InStep(c, blocked[0], j, blocked[j])
    {
      assert InStep(c, ts[0], j, ts[j]);
    }
  }

  lemma ArriveInv(c: Layout, m0: seq<byte>, s: State, i: nat, phase: Phase)
    requires Valid(c, |m0|) && Inv(c, m0, s) && c.barriers && i < c.tasklets
    requires AtBarrier(c, s.tasklets[i], phase)
    ensures Inv(c, m0, s.(tasklets := Arrive(c, s.tasklets, i, phase)))
  {
    var ts := s.tasklets;
    var blocked := ts[i := ts[i].(phase := phase)];
    var after := Arrive(c, ts, i, phase);
    forall j: nat | j < c.tasklets
      ensures InRange(c, j, blocked[j])
      ensures SameMoves(c, j, ts[j], after[j]) && InRange(c, j, after[j]) && CacheOk(c, m0, after[j])
    {
      assert InRange(c, j, ts[j]) && CacheOk(c, m0, ts[j]);
      if j == i {
        BlockingKeeps(c, m0, j, ts[j], phase);
      }
      ResumeKeeps(c, m0, j, blocked[j]);
    }
    CellsKept(c, m0, s, after);
    BlockedInStep(c, ts, i, phase);
    if AllWaiting(blocked) {
      ReleaseInStep(c, blocked, after);
    }
  }

  lemma ReadInv(c: Layout, m0: seq<byte>, s: State, i: nat)
    requires Valid(c, |m0|) && Safe(c) && Inv(c, m0, s) && i < c.tasklets
    requires var tk := s.tasklets[i];
             InRange(c, i, tk) && tk.phase.Reading? && tk.phase.got < ChunkLength(c.blockBytes, tk.chunk)
    ensures Inv(c, m0, Step(c, s, i))
  {
    var tk := s.tasklets[i];
    var after := Step(c, s, i).tasklets;
    ReadsSeeTheOriginal(c, m0, s, i, tk.phase.got);
    forall j: nat | j < c.tasklets
      ensures InRange(c, j, after[j]) && CacheOk(c, m0, after[j])
      ensures SameMoves(c, j, s.tasklets[j], after[j])
    {
      assert InRange(c, j, s.tasklets[j]) && CacheOk(c, m0, s.tasklets[j]);
    }
    CellsKept(c, m0, s, after);
    LockstepKept(c, s.tasklets, i, after[i]);
  }

  /** A step of one tasklet inside one half of a chunk leaves all of them in step. */
  lemma LockstepKept(c: Layout, ts: seq<Tasklet>, i: nat, tk: Tasklet)
    requires i < |ts| && Runnable(ts[i]) && Runnable(tk)
    requires tk.block == ts[i].block && tk.chunk == ts[i].chunk && (SecondHalf(tk) <==> SecondHalf(ts[i]))
    ensures Lockstep(c, ts) ==> Lockstep(c, ts[i := tk])
  {
    if Lockstep(c, ts) {
      var after := ts[i := tk];
      forall j | 0 <= j < |after|
        ensures InStep(c, after[0], j, after[j])
      {
        assert InStep(c, ts[0], j, ts[j]);
      }
      assert !Waiting(after[i]);
    }
  }

  /** The state after the write of one byte. */
  lemma WriteStep(c: Layout, s: State, i: nat)
    requires Valid(c, |s.mem|) && i < |s.tasklets| && InRange(c, i, s.tasklets[i])
    requires var tk := s.tasklets[i]; tk.phase.Writing? && tk.phase.put < ChunkLength(c.blockBytes, tk.chunk)
    ensures var tk := s.tasklets[i];
            var at := TargetAddr(c, tk, tk.phase.put);
            && at < |s.mem| && InTarget(c, at)
            && Step(c, s, i) == State(s.mem[at := tk.cache[tk.phase.put]],
                                      s.tasklets[i := tk.(phase := Writing(tk.phase.put + 1))])
  {
    var tk := s.tasklets[i];
    AddressesInside(c, |s.mem|, i, tk, tk.phase.put);
    SlotStaysInside(c, tk.block);
    AddrInside(c.target, c.blockBytes, c.blocks, Slot(c, tk.block), tk.chunk * CHUNK + tk.phase.put);
  }

  lemma WriteInv(c: Layout, m0: seq<byte>, s: State, i: nat)
    requires Valid(c, |m0|) && Inv(c, m0, s) && i < c.tasklets
    requires var tk := s.tasklets[i];
             InRange(c, i, tk) && tk.phase.Writing? && tk.phase.put < ChunkLength(c.blockBytes, tk.chunk)
    ensures Inv(c, m0, Step(c, s, i))
  {
    WriteStep(c, s, i);
    var tk, s' := s.tasklets[i], Step(c, s, i);
    var tk' := s'.tasklets[i];
    assert InRange(c, i, tk) && CacheOk(c, m0, tk);
    assert InRange(c, i, tk') && CacheOk(c, m0, tk') by { WroteKeeps(c, m0, i, tk); }
    LockstepKept(c, s.tasklets, i, tk');
    forall slot: nat, p: nat | slot < c.blocks && p < c.blockBytes
      ensures CellOk(c, m0, s', slot, p)
    {
      WriteHits(c, m0, s.tasklets, i, slot, p);
      CellAfterWrite(c, m0, s, s', slot, p, TargetAddr(c, tk, tk.phase.put), tk.cache[tk.phase.put]);
    }
    hide Step, InTarget, TargetAddr, CellOk, InRange, CacheOk, Lockstep;
  }

  lemma WroteKeeps(c: Layout, m0: seq<byte>, i: nat, tk: Tasklet)
    requires InRange(c, i, tk) && CacheOk(c, m0, tk) && tk.phase.Writing?
      && tk.phase.put < ChunkLength(c.blockBytes, tk.chunk)
    ensures var tk' := tk.(phase := Writing(tk.phase.put + 1)); InRange(c, i, tk') && CacheOk(c, m0, tk')
  {
  }

  /** The write of one byte moves that byte and no other. */
  lemma OneByteMoves(c: Layout, ts: seq<Tasklet>, i: nat, t: nat, p: nat)
    requires 0 < c.tasklets == |ts| && i < |ts| && InRange(c, i, ts[i]) && ts[i].phase.Writing?
    ensures t % c.tasklets < |ts|
    ensures var after := ts[i := ts[i].(phase := Writing(ts[i].phase.put + 1))];
            Moved(c, after[t % c.tasklets], t, p) <==>
            Moved(c, ts[t % c.tasklets], t, p) || (t == ts[i].block && p == ts[i].chunk * CHUNK + ts[i].phase.put)
  {
    RowOf(t, c.tasklets);
  }

  lemma SlotsMeet(c: Layout, slot: nat, p: nat, block: nat, q: nat)
    requires GroupSize(c.group) && p < c.blockBytes && q < c.blockBytes
    ensures Addr(c.target, c.blockBytes, slot, p) == Addr(c.target, c.blockBytes, Slot(c, block), q)
       <==> Unslot(c, slot) == block && p == q
  {
    SlotIsBijection(c, slot);
    SlotIsBijection(c, block);
    AddrInjective(c.target, c.blockBytes, slot, p, Slot(c, block), q);
  }

  /** What the write of one byte does to byte `p` of one slot. */
  lemma WriteHits(c: Layout, m0: seq<byte>, ts: seq<Tasklet>, i: nat, slot: nat, p: nat)
    requires Valid(c, |m0|) && |ts| == c.tasklets && i < c.tasklets
    requires InRange(c, i, ts[i]) && ts[i].phase.Writing? && ts[i].phase.put < ChunkLength(c.blockBytes, ts[i].chunk)
    requires slot < c.blocks && p < c.blockBytes && CacheOk(c, m0, ts[i])
    ensures var put, t := ts[i].phase.put, Unslot(c, slot);
            var after := ts[i := ts[i].(phase := Writing(put + 1))];
            var at := TargetAddr(c, ts[i], put);
            && t % c.tasklets < c.tasklets
            && (Moved(c, after[t % c.tasklets], t, p) <==>
                Moved(c, ts[t % c.tasklets], t, p) || Addr(c.target, c.blockBytes, slot, p) == at)
            && (Addr(c.target, c.blockBytes, slot, p) == at ==>
                  Addr(c.start, c.blockBytes, t, p) < |m0| && ts[i].cache[put] == m0[Addr(c.start, c.blockBytes, t, p)])
  {
    OneByteMoves(c, ts, i, Unslot(c, slot), p);
    SlotsMeet(c, slot, p, ts[i].block, ts[i].chunk * CHUNK + ts[i].phase.put);
    AddressesInside(c, |m0|, i, ts[i], ts[i].phase.put);
  }

  lemma CellAfterWrite(c: Layout, m0: seq<byte>, s: State, s': State, slot: nat, p: nat, at: nat, v: byte)
    requires Valid(c, |m0|) && |s.mem| == |m0| && |s.tasklets| == c.tasklets == |s'.tasklets|
    requires slot < c.blocks && p < c.blockBytes && CellOk(c, m0, s, slot, p)
    requires at < |m0| && s'.mem == s.mem[at := v]
    requires var t := Unslot(c, slot);
             var a := Addr(c.target, c.blockBytes, slot, p);
             && (Moved(c, s'.tasklets[t % c.tasklets], t, p) <==> Moved(c, s.tasklets[t % c.tasklets], t, p) || a == at)
             && (a == at ==> Addr(c.start, c.blockBytes, t, p) < |m0| && v == m0[Addr(c.start, c.blockBytes, t, p)])
    ensures CellOk(c, m0, s', slot, p)
  {
    AddrInside(c.target, c.blockBytes, c.blocks, slot, p);
  }

  /** Every step of every tasklet keeps the invariant. */
  lemma StepInv(c: Layout, m0: seq<byte>, s: State, i: nat)
    requires Valid(c, |m0|) && Safe(c) && Inv(c, m0, s)
    requires i < c.tasklets && Runnable(s.tasklets[i])
    ensures InRange(c, i, s.tasklets[i]) && Inv(c, m0, Step(c, s, i))
  {
    var tk := s.tasklets[i];
    assert InRange(c, i, tk) && CacheOk(c, m0, tk);
    var n := ChunkLength(c.blockBytes, tk.chunk);
    if tk.phase.Reading? && tk.phase.got < n {
      ReadInv(c, m0, s, i);
    } else if tk.phase.Writing? && tk.phase.put < n {
      WriteInv(c, m0, s, i);
    } else if c.barriers {
      ArriveInv(c, m0, s, i, if tk.phase.Reading? then AwaitWrites else AwaitReads);
    } else {
      var after := Step(c, s, i).tasklets;
      if tk.phase.Writing? {
        AdvanceKeeps(c, m0, i, tk);
      }
      forall j: nat | j < c.tasklets
        ensures InRange(c, j, after[j]) && CacheOk(c, m0, after[j]) && !Waiting(after[j])
        ensures SameMoves(c, j, s.tasklets[j], after[j])
      {
        assert InRange(c, j, s.tasklets[j]) && CacheOk(c, m0, s.tasklets[j]);
      }
      CellsKept(c, m0, s, after);
    }
  }

  // ---------------------------------------------------------------- whole runs

  /** What every state has in common, also where the regions may interfere. */
  predicate Shaped(c: Layout, size: nat, s: State) {
    |s.mem| == size && |s.tasklets| == c.tasklets && forall i: nat | i < c.tasklets :: InRange(c, i, s.tasklets[i])
  }

  lemma InitShape(c: Layout, m0: seq<byte>)
    requires Placed(c, |m0|)
    ensures Shaped(c, |m0|, Init(c, m0))
  {
    forall i: nat | i < c.tasklets
      ensures InRange(c, i, Init(c, m0).tasklets[i])
    {
      SmallMod(i, c.tasklets);
    }
  }

  lemma StepShape(c: Layout, s: State, i: nat)
    requires Placed(c, |s.mem|) && Shaped(c, |s.mem|, s) && i < c.tasklets && Runnable(s.tasklets[i])
    ensures InRange(c, i, s.tasklets[i]) && Shaped(c, |s.mem|, Step(c, s, i))
  {
    assert InRange(c, i, s.tasklets[i]);
    var s' := Step(c, s, i);
    forall j: nat | j < c.tasklets
      ensures |s'.tasklets| == c.tasklets && InRange(c, j, s'.tasklets[j])
    {
      assert InRange(c, j, s.tasklets[j]);
      StepInRange(c, s, i, j);
    }
  }

  lemma StepInRange(c: Layout, s: State, i: nat, j: nat)
    requires Placed(c, |s.mem|) && i < |s.tasklets| && j < |s.tasklets| && Runnable(s.tasklets[i])
    requires InRange(c, i, s.tasklets[i]) && InRange(c, j, s.tasklets[j])
    ensures InRange(c, j, Step(c, s, i).tasklets[j])
  {
    var tk, n := s.tasklets[i], ChunkLength(c.blockBytes, s.tasklets[i].chunk);
    if (tk.phase.Reading? && tk.phase.got == n) || (tk.phase.Writing? && tk.phase.put == n) {
      if c.barriers {
        var blocked := s.tasklets[i := tk.(phase := if tk.phase.Reading? then AwaitWrites else AwaitReads)];
        assert InRange(c, j, blocked[j]);
        ResumeInRange(c, j, blocked[j]);
      } else if tk.phase.Writing? && i == j {
        AdvanceInRange(c, i, tk);
      }
    }
  }

  lemma AdvanceInRange(c: Layout, j: nat, tk: Tasklet)
    requires InRange(c, j, tk) && !tk.phase.Finished?
    ensures InRange(c, j, Advance(c, tk))
  {
    NextInStride(c.tasklets, tk.block, tk.block);
  }

  lemma ResumeInRange(c: Layout, j: nat, tk: Tasklet)
    requires InRange(c, j, tk)
    ensures InRange(c, j, Resume(c, tk))
  {
    if tk.phase.AwaitReads? {
      AdvanceInRange(c, j, tk);
    }
  }

  /** The state after the tasklets have been scheduled in the order `schedule`.  An entry that names a tasklet
      which cannot move is idle time. */
  ghost function Run(c: Layout, m0: seq<byte>, schedule: seq<nat>): (s: State)
    requires Placed(c, |m0|)
    ensures Shaped(c, |m0|, s)
  {
    if schedule == [] then
      InitShape(c, m0);
      Init(c, m0)
    else
      var s, i := Run(c, m0, schedule[..|schedule| - 1]), schedule[|schedule| - 1];
      if i < c.tasklets && Runnable(s.tasklets[i]) then
        StepShape(c, s, i);
        Step(c, s, i)
      else s
  }

  /** With barriers every step keeps the tasklets in step, wherever the blocks go. */
  lemma StepLockstep(c: Layout, s: State, i: nat)
    requires Placed(c, |s.mem|) && c.barriers && Shaped(c, |s.mem|, s) && Lockstep(c, s.tasklets)
    requires i < c.tasklets && Runnable(s.tasklets[i]) && InRange(c, i, s.tasklets[i])
    ensures Lockstep(c, Step(c, s, i).tasklets)
  {
    var tk, ts, after := s.tasklets[i], s.tasklets, Step(c, s, i).tasklets;
    var n := ChunkLength(c.blockBytes, tk.chunk);
    if (tk.phase.Reading? && tk.phase.got < n) || (tk.phase.Writing? && tk.phase.put < n) {
      LockstepKept(c, ts, i, after[i]);
    } else {
      ArriveLockstep(c, ts, i, if tk.phase.Reading? then AwaitWrites else AwaitReads);
    }
  }

  lemma ArriveLockstep(c: Layout, ts: seq<Tasklet>, i: nat, phase: Phase)
    requires |ts| == c.tasklets && i < c.tasklets && Lockstep(c, ts) && AtBarrier(c, ts[i], phase)
    requires forall j: nat | j < c.tasklets :: InRange(c, j, ts[j])
    ensures Lockstep(c, Arrive(c, ts, i, phase))
  {
    var blocked := ts[i := ts[i].(phase := phase)];
    BlockedInStep(c, ts, i, phase);
    if AllWaiting(blocked) {
      forall j: nat | j < c.tasklets
        ensures InRange(c, j, blocked[j])
      {
        assert InRange(c, j, ts[j]);
      }
      ReleaseInStep(c, blocked, Arrive(c, ts, i, phase));
    }
  }

  lemma InitLockstep(c: Layout, m0: seq<byte>)
    requires 0 < c.tasklets
    ensures Lockstep(c, Init(c, m0).tasklets)
  {
    assert !Waiting(Init(c, m0).tasklets[0]);
  }

  lemma {:induction false} RunLockstep(c: Layout, m0: seq<byte>, schedule: seq<nat>)
    requires Placed(c, |m0|) && c.barriers
    ensures Lockstep(c, Run(c, m0, schedule).tasklets)
  {
    if schedule == [] {
      InitLockstep(c, m0);
    } else {
      var s, i := Run(c, m0, schedule[..|schedule| - 1]), schedule[|schedule| - 1];
      RunLockstep(c, m0, schedule[..|schedule| - 1]);
      if i < c.tasklets && Runnable(s.tasklets[i]) {
        StepShape(c, s, i);
        StepLockstep(c, s, i);
      }
    }
  }

  /** Every run keeps the invariant. */
  lemma {:induction false} RunInv(c: Layout, m0: seq<byte>, schedule: seq<nat>)
    requires Valid(c, |m0|) && Safe(c)
    ensures Inv(c, m0, Run(c, m0, schedule))
  {
    if schedule == [] {
      InitInv(c, m0);
    } else {
      var s, i := Run(c, m0, schedule[..|schedule| - 1]), schedule[|schedule| - 1];
      RunInv(c, m0, schedule[..|schedule| - 1]);
      if i < c.tasklets && Runnable(s.tasklets[i]) {
        StepInv(c, m0, s, i);
      }
    }
  }

  /** Once all tasklets are done, whatever the schedule, every block is in its slot and nothing else changed. */
  lemma FinishedMeansRelocated(c: Layout, m0: seq<byte>, s: State)
    requires Valid(c, |m0|) && Inv(c, m0, s) && AllFinished(s.tasklets)
    ensures Relocated(c, m0, s.mem)
  {
    forall t: nat, p: nat | t < c.blocks && p < c.blockBytes
      ensures BlockMoved(c, m0, s.mem, t, p)
    {
      SlotIsBijection(c, t);
      SlotStaysInside(c, t);
      RowOf(t, c.tasklets);
      assert CellOk(c, m0, s, Slot(c, t), p);
    }
  }
}
