/** Host transfers to and from the MRAMs of a whole rank: the loops over its DPUs, and the gate in front of them. */
module MramRank {
  import opened Arithmetic
  import opened Bytes
  import opened DpuDevice
  import opened MramTransfer
  import RunContext

  /** An entry of a transfer matrix: no buffer, or a host buffer with its address modulo 4. */
  datatype Entry = Null | Host(skew: nat, data: array<byte>)

  /** The memories of a DPU. */
  datatype Memories = Memories(iram: seq<Instruction>, wram: seq<byte>, mram: seq<byte>)

  function Of(d: Dpu): Memories
    reads d
  {
    Memories(d.iram, d.wram, d.mram)
  }

  /** What the gate accepts: the sum is a 32-bit sum. */
  predicate Admitted(offset: nat, size: nat, mramSize: nat) {
    && size % 8 == 0 && offset % 8 == 0
    && offset < mramSize && (offset + size) % WIDTH32 <= mramSize
  }

  /** The gate accepts only aligned ranges, and only ranges inside MRAM, provided their end does not wrap around; a
      range whose end does is accepted although it leaves MRAM exactly when the wrapped end is not beyond it. */
  lemma AdmittedMeansInside(offset: nat, size: nat, mramSize: nat)
    requires offset < WIDTH32 && size < WIDTH32 && mramSize < WIDTH32
    ensures Admitted(offset, size, mramSize) ==> size % 8 == 0 && offset % 8 == 0
    ensures size % 8 == 0 && offset % 8 == 0 && offset + size < WIDTH32 ==>
              (Admitted(offset, size, mramSize) <==> offset < mramSize && offset + size <= mramSize)
    ensures size % 8 == 0 && offset % 8 == 0 && WIDTH32 <= offset + size ==>
              (Admitted(offset, size, mramSize) <==> offset < mramSize && offset + size - WIDTH32 <= mramSize)
                && offset + size > mramSize
  {
    if WIDTH32 <= offset + size {
      assert (offset + size) % WIDTH32 == offset + size - WIDTH32;
    }
  }

  /** A range far beyond 64 MB that the gate accepts. */
  lemma WrappedIsAdmitted()
    ensures Admitted(8, WIDTH32 - 8, 0x400_0000) && 0x400_0000 < 8 + (WIDTH32 - 8)
  {
  }

  class Rank {
    const nrCis: nat
    const nrPerCi: nat
    const dpus: seq<Dpu>
    const mramSize: nat
    const program: seq<Instruction>
    const runner: RunContext.Runner

    constructor (nrCis: nat, nrPerCi: nat, dpus: seq<Dpu>, mramSize: nat, program: seq<Instruction>,
                 runner: RunContext.Runner)
      ensures this.nrCis == nrCis && this.nrPerCi == nrPerCi && this.dpus == dpus && this.mramSize == mramSize
      ensures this.program == program && this.runner == runner
    {
      this.nrCis, this.nrPerCi, this.dpus, this.mramSize, this.program, this.runner :=
        nrCis, nrPerCi, dpus, mramSize, program, runner;
    }

    ghost predicate Shaped() {
      && 0 < nrCis && |dpus| == nrCis * nrPerCi && mramSize % 8 == 0 && mramSize < WIDTH32
      && forall i, j | 0 <= i < j < |dpus| :: dpus[i] != dpus[j]
    }

    ghost predicate Valid()
      reads dpus, runner
    {
      Shaped() && Mirrored() && AllUsable()
    }

    ghost predicate AllUsable()
      reads dpus
    {
      forall d | d in dpus :: Usable(d)
    }

    /** The masks of the run context say which DPUs are enabled. */
    ghost predicate Mirrored()
      requires Shaped()
      reads runner
    {
      && |runner.enabled| == |runner.alive| == |runner.faulted| == nrCis
      && forall i: nat | i < |dpus| ::
           (PlaceInside(i); i / nrCis in runner.enabled[i % nrCis] <==> dpus[Place(i)].enabled)
    }

    /** The DPU of matrix entry `i` does not run, or is in fault. */
    predicate Idle(i: nat)
      requires 0 < nrCis == |runner.alive| == |runner.faulted|
      reads runner
    {
      i / nrCis in runner.alive[i % nrCis] ==> i / nrCis in runner.faulted[i % nrCis]
    }

    /** When the run context counts no DPU, every enabled DPU of the rank is idle. */
    lemma NoneCounted()
      requires Shaped() && Mirrored() && runner.Valid() && runner.nbRunning == 0
      ensures RunContext.Quiet(runner.View())
      ensures forall i: nat | i < |dpus| && InOrder()[i].enabled :: Idle(i)
    {
      RunContext.ZeroMeansQuiet(runner.View(), []);
      forall i: nat | i < |dpus| && InOrder()[i].enabled
        ensures Idle(i)
      {
        PlaceInside(i);
        assert i / nrCis in runner.enabled[i % nrCis];
        assert runner.alive[i % nrCis] * runner.enabled[i % nrCis] <= runner.faulted[i % nrCis];
      }
    }

    predicate Usable(d: Dpu)
      reads d
    {
      && DMA_ACCESS_2 < |program| <= |d.iram|
      && |d.wram| % WORD == 0 && CONTEXT_WORDS * WORD < |d.wram| < WIDTH32
      && |d.mram| == mramSize
    }

    /** The place in `dpus` of the DPU that entry `i` of a transfer matrix is for. */
    function Place(i: nat): nat
      requires 0 < nrCis
    {
      i % nrCis * nrPerCi + i / nrCis
    }

    lemma PlaceInside(i: nat)
      requires Shaped() && i < |dpus|
      ensures i / nrCis < nrPerCi && Place(i) < |dpus|
      ensures Place(i) / nrPerCi == i % nrCis && Place(i) % nrPerCi == i / nrCis
    {
      InsideFacts(i, nrCis, nrPerCi, i / nrCis, i % nrCis);
    }

    /** Different entries are for different DPUs. */
    lemma PlaceIsInjective(i: nat, j: nat)
      requires Shaped() && i < |dpus| && j < |dpus| && i != j
      ensures Place(i) < |dpus| && Place(j) < |dpus| && dpus[Place(i)] != dpus[Place(j)]
    {
      PlaceInside(i);
      PlaceInside(j);
      if Place(i) == Place(j) {
        SameDivMod(i, j, nrCis);
        assert false;
      }
    }

    /** The transfer of entry `i` takes place. */
    predicate Active(matrix: seq<Entry>, i: nat)
      requires Shaped() && i < |matrix| == |dpus|
    {
      PlaceInside(i);
      matrix[i].Host? && dpus[Place(i)].enabled
    }

    /** The matrix is one the caller may pass: the range lies in MRAM or is an aligned one that begins there,
        buffers are large enough, and entry 0 has one if it will be used. */
    ghost predicate Suits(matrix: seq<Entry>, offset: nat, size: nat)
      requires Shaped()
    {
      && |matrix| == |dpus| && Begins(offset, size, mramSize)
      && (forall i: nat | i < |matrix| :: matrix[i].Host? ==> size <= matrix[i].data.Length)
      && (forall i: nat | i < |matrix| ::
            Active(matrix, i) && !Bounces(matrix[i].skew, offset, size) ==> matrix[0].Host?)
    }

    /** The host buffer that the transfer of entry `i` really uses. */
    function BufferOf(matrix: seq<Entry>, i: nat, offset: nat, size: nat): array<byte>
      requires i < |matrix| && matrix[i].Host? && (!Bounces(matrix[i].skew, offset, size) ==> matrix[0].Host?)
    {
      if Bounces(matrix[i].skew, offset, size) then matrix[i].data else matrix[0].data
    }

    /** The DPUs in the order of their matrix entries. */
    ghost function InOrder(): (r: seq<Dpu>)
      requires Shaped()
      ensures |r| == |dpus|
      ensures forall i | 0 <= i < |r| :: r[i] in dpus
      ensures forall i, j | 0 <= i < j < |r| :: r[i] != r[j]
    {
      forall i: nat | i < |dpus|
        ensures Place(i) < |dpus|
      {
        PlaceInside(i);
      }
      forall i: nat, j: nat | i < j < |dpus|
        ensures Place(i) < |dpus| && Place(j) < |dpus| && dpus[Place(i)] != dpus[Place(j)]
      {
        PlaceIsInjective(i, j);
      }
      seq(|dpus|, i requires 0 <= i < |dpus| => (PlaceInside(i); dpus[Place(i)]))
    }

    /** The loop index over members and slices is the matrix index of the DPU that the loop is at. */
    lemma PlaceOf(slice: nat, member: nat)
      requires Shaped() && slice < nrCis && member < nrPerCi
      ensures member * nrCis + slice < |dpus| && slice * nrPerCi + member < |dpus|
      ensures dpus[slice * nrPerCi + member] == InOrder()[member * nrCis + slice]
      ensures (member + 1) * nrCis == member * nrCis + nrCis <= |dpus|
    {
      DivModUnique(member * nrCis + slice, nrCis, member, slice);
      MulGap(member, nrPerCi, nrCis);
      MulGap(slice, nrCis, nrPerCi);
    }

    /** A write that did take place: what must be true of MRAM. */
    ghost predicate Landed(after: seq<byte>, before: seq<byte>, offset: nat, data: seq<byte>) {
      && offset + |data| <= |before|
      && (BothEndsMisaligned(offset, |data|) ==> offset + AlignedSize(offset, |data|) <= |before|)
      && after == Written(before, offset, data)
    }

    /** Exactly the range, which lies in MRAM, has been replaced. */
    predicate Replaced(after: seq<byte>, before: seq<byte>, offset: nat, data: seq<byte>) {
      offset + |data| <= |before| && after == Splice(before, offset, data)
    }

    /** What a write to the rank does to the DPU `d` of entry `i`, whose memories `was` tells from before. */
    ghost predicate Stored(matrix: seq<Entry>, offset: nat, size: nat, i: nat, d: Dpu, was: Memories)
      requires Shaped() && Suits(matrix, offset, size) && i < |matrix|
      reads d, if Active(matrix, i) then {BufferOf(matrix, i, offset, size)} else {}
    {
      && d.iram == was.iram && d.wram == was.wram
      && if Active(matrix, i) then Landed(d.mram, was.mram, offset, BufferOf(matrix, i, offset, size)[..size])
         else d.mram == was.mram
    }

    /** How often a run of the program has faulted, DPU by DPU. */
    ghost function Faults(): (r: seq<nat>)
      reads dpus
      ensures |r| == |dpus| && forall i | 0 <= i < |r| :: r[i] == dpus[i].faults
    {
      seq(|dpus|, i requires 0 <= i < |dpus| reads dpus => dpus[i].faults)
    }

    /** One step of a write to the rank. */
    method CopyToDpu(matrix: seq<Entry>, offset: nat, size: nat, i: nat, d: Dpu) returns (status: Status)
      requires Shaped() && Suits(matrix, offset, size) && i < |matrix| && d == InOrder()[i] && Usable(d)
      modifies d
      ensures status == if Faults() == old(Faults()) then Ok else Internal
      ensures Usable(d)
      ensures status == Ok ==> Stored(matrix, offset, size, i, d, old(Of(d)))
    {
      status := Ok;
      if matrix[i].Null? || !d.enabled { return; }
      assert Active(matrix, i);
      var first := if matrix[0].Host? then matrix[0].data else matrix[i].data;
      status := CopyToOne(d, offset, size, matrix[i].data, matrix[i].skew, first, program);
      assert Faults() == old(Faults()) <==> d.faults == old(d.faults) by {
        ghost var j :| 0 <= j < |dpus| && dpus[j] == d;
        assert Faults()[j] == d.faults && old(Faults())[j] == old(d.faults);
      }
    }

    /** The memories of all DPUs, in the order of their matrix entries. */
    ghost function Snapshot(): (r: seq<Memories>)
      requires Shaped()
      reads dpus
      ensures |r| == |dpus| && forall i | 0 <= i < |r| :: r[i] == Of(InOrder()[i])
    {
      seq(|dpus|, i requires 0 <= i < |dpus| reads dpus => Of(InOrder()[i]))
    }

    function HostBuffers(matrix: seq<Entry>): set<array<byte>> {
      set i: nat | i < |matrix| && matrix[i].Host? :: matrix[i].data
    }

    /** The entries below `n` have been served, and the DPUs of the others are as they were. */
    ghost predicate Served(matrix: seq<Entry>, offset: nat, size: nat, n: nat, was: seq<Memories>)
      requires Shaped() && Suits(matrix, offset, size) && n <= |dpus| == |was|
      reads dpus, HostBuffers(matrix)
    {
      && (forall i: nat | i < n :: Stored(matrix, offset, size, i, InOrder()[i], was[i]))
      && (forall i: nat | n <= i < |dpus| :: Of(InOrder()[i]) == was[i])
    }

    /** One more entry. */
    method ServeNext(matrix: seq<Entry>, offset: nat, size: nat, n: nat, d: Dpu, ghost was: seq<Memories>)
      returns (status: Status)
      requires Valid() && Suits(matrix, offset, size) && n < |dpus| == |was| && d == InOrder()[n]
      requires Served(matrix, offset, size, n, was)
      modifies dpus
      ensures status == if Faults() == old(Faults()) then Ok else Internal
      ensures Valid()
      ensures status == Ok ==> Served(matrix, offset, size, n + 1, was)
    {
      hide Faults;
      status := CopyToDpu(matrix, offset, size, n, d);
      hide Stored, InOrder, Usable, Active, Suits, BufferOf, Mirrored;
    }

    /** The write to one member in every slice. */
    method CopyToRow(matrix: seq<Entry>, offset: nat, size: nat, member: nat, first: nat, ghost was: seq<Memories>)
      returns (status: Status)
      requires Valid() && Suits(matrix, offset, size) && member < nrPerCi
      requires first == member * nrCis && first + nrCis <= |dpus| == |was|
      requires Served(matrix, offset, size, first, was)
      modifies dpus
      ensures status == if Faults() == old(Faults()) then Ok else Internal
      ensures Valid()
      ensures status == Ok ==> Served(matrix, offset, size, first + nrCis, was)
    {
      hide Served, Suits, InOrder, Faults;
      status := Ok;
      var slice := 0;
      while slice < nrCis
        invariant slice <= nrCis && Valid() && status == Ok
        invariant Faults() == old(Faults())
        invariant Served(matrix, offset, size, first + slice, was)
      {
        PlaceOf(slice, member);
        var d := dpus[slice * nrPerCi + member];
        status := ServeNext(matrix, offset, size, first + slice, d, was);
        if status != Ok { return; }
        slice := slice + 1;
      }
    }

    /** A write to the rank.  On success every DPU that has a buffer and is enabled has had its range written, from
        its own buffer if the transfer bounces and from the buffer of entry 0 if not; no other MRAM has
        changed; and all instruction and working memories are as they were. */
    method CopyToMrams(matrix: seq<Entry>, offset: nat, size: nat) returns (status: Status)
      requires Valid() && Suits(matrix, offset, size)
      modifies dpus
      ensures status == if Faults() == old(Faults()) then Ok else Internal
      ensures Valid()
      ensures status == Ok ==> Served(matrix, offset, size, |dpus|, old(Snapshot()))
    {
      ghost var was := Snapshot();
      assert Served(matrix, offset, size, 0, was);
      hide Served, Suits, InOrder, Snapshot, Faults;
      status := Ok;
      var index, member := 0, 0;
      while member < nrPerCi
        invariant member <= nrPerCi && index == member * nrCis <= |dpus| && Valid() && status == Ok
        invariant Faults() == old(Faults())
        invariant Served(matrix, offset, size, index, was)
      {
        PlaceOf(0, member);
        status := CopyToRow(matrix, offset, size, member, index, was);
        if status != Ok { return; }
        member, index := member + 1, index + nrCis;
      }
      assert index == |dpus|;
    }

    /** The host buffers that a read from the rank fills. */
    ghost function Targets(matrix: seq<Entry>, offset: nat, size: nat): set<array<byte>>
      requires Shaped() && Suits(matrix, offset, size)
    {
      set i: nat | i < |matrix| && Active(matrix, i) :: BufferOf(matrix, i, offset, size)
    }

    /** No entry after `i` and before `n` uses the buffer of entry `i`. */
    ghost predicate LastUser(matrix: seq<Entry>, offset: nat, size: nat, i: nat, n: nat)
      requires Shaped() && Suits(matrix, offset, size) && i < n <= |matrix|
    {
      && Active(matrix, i)
      && forall j: nat | i < j < n && Active(matrix, j) ::
           BufferOf(matrix, j, offset, size) != BufferOf(matrix, i, offset, size)
    }

    /** The front of entry `i`'s buffer is the range of its DPU's MRAM. */
    ghost predicate Holds(matrix: seq<Entry>, offset: nat, size: nat, i: nat, d: Dpu)
      requires Shaped() && Suits(matrix, offset, size) && i < |matrix| && Active(matrix, i)
      reads d, BufferOf(matrix, i, offset, size)
    {
      && offset + size <= |d.mram|
      && BufferOf(matrix, i, offset, size)[..size] == d.mram[offset..offset + size]
    }

    /** One step of a read from the rank. */
    method CopyFromDpu(matrix: seq<Entry>, offset: nat, size: nat, i: nat, d: Dpu) returns (status: Status)
      requires Shaped() && Suits(matrix, offset, size) && i < |matrix| && d == InOrder()[i] && Usable(d)
      modifies d, if Active(matrix, i) then {BufferOf(matrix, i, offset, size)} else {}
      ensures status == if Faults() == old(Faults()) then Ok else Internal
      ensures Usable(d)
      ensures status == Ok ==> d.iram == old(d.iram) && d.wram == old(d.wram) && d.mram == old(d.mram)
      ensures status == Ok && Active(matrix, i) ==>
                && Holds(matrix, offset, size, i, d)
                && BufferOf(matrix, i, offset, size)[size..] == old(BufferOf(matrix, i, offset, size)[size..])
    {
      status := Ok;
      if matrix[i].Null? || !d.enabled { return; }
      assert Active(matrix, i);
      ghost var buffer := BufferOf(matrix, i, offset, size);
      var first := if matrix[0].Host? then matrix[0].data else matrix[i].data;
      status := CopyFromOne(d, offset, size, matrix[i].data, matrix[i].skew, first, program);
      assert Faults() == old(Faults()) <==> d.faults == old(d.faults) by {
        ghost var j :| 0 <= j < |dpus| && dpus[j] == d;
        assert Faults()[j] == d.faults && old(Faults())[j] == old(d.faults);
      }
      if status == Ok {
        FrontReplaced(old(buffer[..]), buffer[..], d.mram[offset..offset + size]);
        assert buffer[size..] == buffer[..][size..] && old(buffer[size..]) == old(buffer[..])[size..];
      }
    }

    /** The first `n` entries have been read: every buffer that one of them uses holds the range of the last of
        those that do. */
    ghost predicate Received(matrix: seq<Entry>, offset: nat, size: nat, n: nat)
      requires Shaped() && Suits(matrix, offset, size) && n <= |matrix|
      reads dpus, Targets(matrix, offset, size)
    {
      forall i: nat | i < n && LastUser(matrix, offset, size, i, n) ::
        Holds(matrix, offset, size, i, InOrder()[i])
    }

    twostate predicate DpusKept()
      reads dpus
    {
      forall d | d in dpus :: d.iram == old(d.iram) && d.wram == old(d.wram) && d.mram == old(d.mram)
    }

    twostate predicate TailsKept(buffers: set<array<byte>>, size: nat)
      reads buffers
    {
      forall b | b in buffers && size <= b.Length :: b[size..] == old(b[size..])
    }

    /** One more entry. */
    method ReceiveNext(matrix: seq<Entry>, offset: nat, size: nat, n: nat, d: Dpu) returns (status: Status)
      requires Valid() && Suits(matrix, offset, size) && n < |dpus| && d == InOrder()[n]
      requires Received(matrix, offset, size, n)
      modifies dpus, Targets(matrix, offset, size)
      ensures status == if Faults() == old(Faults()) then Ok else Internal
      ensures Valid()
      ensures status == Ok ==> DpusKept() && TailsKept(Targets(matrix, offset, size), size)
      ensures status == Ok ==> Received(matrix, offset, size, n + 1)
    {
      assert Active(matrix, n) ==> BufferOf(matrix, n, offset, size) in Targets(matrix, offset, size);
      hide Faults;
      status := CopyFromDpu(matrix, offset, size, n, d);
      if status != Ok { return; }
      forall i: nat | i < n && LastUser(matrix, offset, size, i, n + 1)
        ensures Holds(matrix, offset, size, i, InOrder()[i])
      {
        assert LastUser(matrix, offset, size, i, n);
      }
    }

    /** The read of one member in every slice. */
    method CopyFromRow(matrix: seq<Entry>, offset: nat, size: nat, member: nat, first: nat) returns (status: Status)
      requires Valid() && Suits(matrix, offset, size) && member < nrPerCi
      requires first == member * nrCis && first + nrCis <= |dpus|
      requires Received(matrix, offset, size, first)
      modifies dpus, Targets(matrix, offset, size)
      ensures status == if Faults() == old(Faults()) then Ok else Internal
      ensures Valid()
      ensures status == Ok ==> DpusKept() && TailsKept(Targets(matrix, offset, size), size)
      ensures status == Ok ==> Received(matrix, offset, size, first + nrCis)
    {
      status := Ok;
      var slice := 0;
      while slice < nrCis
        invariant slice <= nrCis && Valid() && status == Ok
        invariant Faults() == old(Faults())
        invariant DpusKept() && TailsKept(Targets(matrix, offset, size), size)
        invariant Received(matrix, offset, size, first + slice)
      {
        PlaceOf(slice, member);
        var d := dpus[slice * nrPerCi + member];
        status := ReceiveNext(matrix, offset, size, first + slice, d);
        if status != Ok { return; }
        slice := slice + 1;
      }
    }

    /** A read from the rank.  On success every buffer holds the range of the last DPU that uses it, which is its own
        if the transfers bounce and the buffers differ; no buffer has changed behind the range; and all
        memories of the DPUs are as they were. */
    method CopyFromMrams(matrix: seq<Entry>, offset: nat, size: nat) returns (status: Status)
      requires Valid() && Suits(matrix, offset, size)
      modifies dpus, Targets(matrix, offset, size)
      ensures status == if Faults() == old(Faults()) then Ok else Internal
      ensures Valid()
      ensures status == Ok ==> DpusKept() && TailsKept(Targets(matrix, offset, size), size)
      ensures status == Ok ==> Received(matrix, offset, size, |dpus|)
    {
      status := Ok;
      var index, member := 0, 0;
      while member < nrPerCi
        invariant member <= nrPerCi && index == member * nrCis <= |dpus| && Valid() && status == Ok
        invariant Faults() == old(Faults())
        invariant DpusKept() && TailsKept(Targets(matrix, offset, size), size)
        invariant Received(matrix, offset, size, index)
      {
        PlaceOf(0, member);
        status := CopyFromRow(matrix, offset, size, member, index);
        if status != Ok { return; }
        member, index := member + 1, index + nrCis;
      }
      assert index == |dpus|;
    }

    /** A matrix for the single enabled DPU of entry `i`, as `dpu_copy_to_mram` builds it, is one whose transfer can
        be made exactly if the transfer bounces or that entry is the first. */
    lemma SingleEntry(i: nat, entry: Entry, offset: nat, size: nat)
      requires Shaped() && i < |dpus| && entry.Host? && size <= entry.data.Length && Begins(offset, size, mramSize)
      requires Place(i) < |dpus| && dpus[Place(i)].enabled
      ensures Suits(seq(|dpus|, j => if j == i then entry else Null), offset, size)
        <==> entry.skew % 4 != 0 || offset % 8 != 0 || size % 8 != 0 || i == 0
    {
      var matrix := seq(|dpus|, j => if j == i then entry else Null);
      assert Active(matrix, i);
    }

    // -------------------------------------------------------------- whose data arrives

    /** The transfer of entry `i` uses data that is the entry's own. */
    ghost predicate UsesOwn(matrix: seq<Entry>, offset: nat, size: nat, i: nat)
      requires Shaped() && Suits(matrix, offset, size) && i < |matrix| && Active(matrix, i)
      reads matrix[i].data, BufferOf(matrix, i, offset, size)
    {
      || matrix[i].skew % 4 != 0 || offset % 8 != 0 || size % 8 != 0 || i == 0
      || matrix[i].data[..size] == matrix[0].data[..size]
    }

    /** After a write all DPUs that take part have received their own data exactly if for each of them the transfer
        bounced, or its entry is the first, or the front of its buffer happens to be that of the first. */
    lemma OwnDataArrives(matrix: seq<Entry>, offset: nat, size: nat, was: seq<Memories>)
      requires Shaped() && Suits(matrix, offset, size) && |was| == |dpus| && Served(matrix, offset, size, |dpus|, was)
      ensures forall i: nat | i < |dpus| && Active(matrix, i) ::
                UsesOwn(matrix, offset, size, i) <==>
                  Landed(InOrder()[i].mram, was[i].mram, offset, matrix[i].data[..size])
      ensures (forall i: nat | i < |dpus| && Active(matrix, i) ::
          Landed(InOrder()[i].mram, was[i].mram, offset, matrix[i].data[..size]))
         <==> (forall i: nat | i < |dpus| && Active(matrix, i) :: UsesOwn(matrix, offset, size, i))
    {
      forall i: nat | i < |dpus| && Active(matrix, i)
        ensures Landed(InOrder()[i].mram, was[i].mram, offset, matrix[i].data[..size])
          <==> UsesOwn(matrix, offset, size, i)
      {
        assert Stored(matrix, offset, size, i, InOrder()[i], was[i]);
        WrittenDetermines(was[i].mram, offset, matrix[i].data[..size], BufferOf(matrix, i, offset, size)[..size]);
      }
    }

    // -------------------------------------------------------------- the gate

    /** The caller's side of a transfer: one entry per DPU, and whatever a range needs that the gate admits. */
    ghost predicate Requested(matrix: seq<Entry>, offset: nat, size: nat)
      requires Shaped()
    {
      && |matrix| == |dpus| && offset < WIDTH32 && size < WIDTH32
      && (Admitted(offset, size, mramSize) ==> Suits(matrix, offset, size))
    }

    /** The write behind its gate.  It is turned down, and nothing changes, if the range is not aligned or not in
        MRAM, or if a DPU is recorded as running.  If it succeeds, no enabled DPU was running, and exactly
        the range has changed in exactly the MRAMs of the DPUs that take part; a range that the gate has let
        through because its end wraps around never succeeds if there is such a DPU. */
    method WriteMrams(matrix: seq<Entry>, offset: nat, size: nat) returns (status: Status)
      requires Valid() && runner.Valid() && Requested(matrix, offset, size)
      modifies dpus
      ensures Valid()
      ensures !Admitted(offset, size, mramSize) ==> status == InvalidMramAccess && unchanged(dpus)
      ensures Admitted(offset, size, mramSize) && 0 < runner.nbRunning ==> status == MramBusy && unchanged(dpus)
      ensures Admitted(offset, size, mramSize) && runner.nbRunning == 0 ==>
                status == if Faults() == old(Faults()) then Ok else Internal
      ensures status == Ok && offset + size < WIDTH32 ==> offset + size <= mramSize
      ensures status == Ok ==> Suits(matrix, offset, size) && Served(matrix, offset, size, |dpus|, old(Snapshot()))
      ensures status == Ok ==> RunContext.Quiet(runner.View())
      ensures status == Ok ==> forall i: nat | i < |dpus| && InOrder()[i].enabled :: Idle(i)
      ensures status == Ok ==> forall i: nat | i < |dpus| && Active(matrix, i) ::
                Replaced(InOrder()[i].mram, old(Snapshot())[i].mram, offset, BufferOf(matrix, i, offset, size)[..size])
      ensures status == Ok ==> forall i: nat | i < |dpus| && Active(matrix, i) ::
                UsesOwn(matrix, offset, size, i) <==>
                  Replaced(InOrder()[i].mram, old(Snapshot())[i].mram, offset, matrix[i].data[..size])
    {
      if !Admitted(offset, size, mramSize) { return InvalidMramAccess; }
      if runner.nbRunning > 0 { return MramBusy; }
      AdmittedMeansInside(offset, size, mramSize);
      ghost var was := Snapshot();
      NoneCounted();
      status := CopyToMrams(matrix, offset, size);
      if status == Ok {
        LandedIsReplaced(matrix, offset, size, was);
      }
    }

    /** Two enabled DPUs and two aligned buffers with different bytes: if the write succeeds, the second DPU holds what
        was meant for the first, and not its own data. */
    method UnlikeBuffers(i: nat) returns (status: Status, own: array<byte>)
      requires Valid() && runner.Valid() && 8 <= mramSize && 0 < i < |dpus| && InOrder()[0].enabled
        && InOrder()[i].enabled
      modifies dpus
      ensures own.Length == 8 && forall k | 0 <= k < 8 :: own[k] == 1
      ensures status == Ok ==> forall k | 0 <= k < 8 :: k < |InOrder()[i].mram| && InOrder()[i].mram[k] == 0
    {
      var first := new byte[8](_ => 0);
      own := new byte[8](_ => 1);
      var matrix := seq(|dpus|, j => if j == 0 then Host(0, first) else if j == i then Host(0, own) else Null);
      assert Active(matrix, i) && BufferOf(matrix, i, 0, 8) == first;
      ghost var was := Snapshot();
      hide Idle, Mirrored, Served, Usable, UsesOwn, RunContext.Quiet, InOrder;
      status := WriteMrams(matrix, 0, 8);
      if status == Ok {
        assert Replaced(InOrder()[i].mram, was[i].mram, 0, first[..8]);
      }
    }

    lemma LandedIsReplaced(matrix: seq<Entry>, offset: nat, size: nat, was: seq<Memories>)
      requires Shaped() && Suits(matrix, offset, size) && |was| == |dpus| && Served(matrix, offset, size, |dpus|, was)
      requires offset % 8 == 0
      ensures forall i: nat | i < |dpus| && Active(matrix, i) ::
                && Replaced(InOrder()[i].mram, was[i].mram, offset, BufferOf(matrix, i, offset, size)[..size])
                && (Replaced(InOrder()[i].mram, was[i].mram, offset, matrix[i].data[..size])
                   <==> UsesOwn(matrix, offset, size, i))
    {
      OwnDataArrives(matrix, offset, size, was);
      forall i: nat | i < |dpus| && Active(matrix, i)
        ensures Landed(InOrder()[i].mram, was[i].mram, offset, BufferOf(matrix, i, offset, size)[..size])
      {
        assert Stored(matrix, offset, size, i, InOrder()[i], was[i]);
      }
    }

    /** Every buffer that is used has a last user. */
    lemma {:induction false} SomeLastUser(matrix: seq<Entry>, offset: nat, size: nat, i: nat) returns (j: nat)
      requires Shaped() && Suits(matrix, offset, size) && i < |matrix| && Active(matrix, i)
      ensures j < |matrix| && LastUser(matrix, offset, size, j, |matrix|)
      ensures BufferOf(matrix, j, offset, size) == BufferOf(matrix, i, offset, size)
      decreases |matrix| - i
    {
      j := i;
      if k: nat :| i < k < |matrix| && Active(matrix, k)
                   && BufferOf(matrix, k, offset, size) == BufferOf(matrix, i, offset, size) {
        j := SomeLastUser(matrix, offset, size, k);
      }
    }

    lemma ReceivedInside(matrix: seq<Entry>, offset: nat, size: nat)
      requires Valid() && Suits(matrix, offset, size) && Received(matrix, offset, size, |dpus|)
      ensures forall i: nat | i < |dpus| && Active(matrix, i) :: offset + size <= mramSize
    {
      forall i: nat | i < |dpus| && Active(matrix, i)
        ensures offset + size <= mramSize
      {
        var j := SomeLastUser(matrix, offset, size, i);
        assert Holds(matrix, offset, size, j, InOrder()[j]) && Usable(InOrder()[j]);
      }
    }

    /** The read behind its gate. */
    method ReadMrams(matrix: seq<Entry>, offset: nat, size: nat) returns (status: Status)
      requires Valid() && runner.Valid() && Requested(matrix, offset, size)
      modifies dpus, if Admitted(offset, size, mramSize) then Targets(matrix, offset, size) else {}
      ensures Valid()
      ensures !Admitted(offset, size, mramSize) ==> status == InvalidMramAccess && unchanged(dpus)
      ensures Admitted(offset, size, mramSize) && 0 < runner.nbRunning ==>
                status == MramBusy && unchanged(dpus) && unchanged(Targets(matrix, offset, size))
      ensures Admitted(offset, size, mramSize) && runner.nbRunning == 0 ==>
                status == if Faults() == old(Faults()) then Ok else Internal
      ensures status == Ok && offset + size < WIDTH32 ==> offset + size <= mramSize
      ensures status == Ok ==> Suits(matrix, offset, size)
      ensures status == Ok ==> RunContext.Quiet(runner.View())
      ensures status == Ok ==> forall i: nat | i < |dpus| && InOrder()[i].enabled :: Idle(i)
      ensures status == Ok ==> DpusKept() && TailsKept(Targets(matrix, offset, size), size)
      ensures status == Ok ==> Received(matrix, offset, size, |dpus|)
      ensures status == Ok ==> forall i: nat | i < |dpus| && Active(matrix, i) :: offset + size <= mramSize
    {
      if !Admitted(offset, size, mramSize) { return InvalidMramAccess; }
      if runner.nbRunning > 0 { return MramBusy; }
      AdmittedMeansInside(offset, size, mramSize);
      NoneCounted();
      hide Received, Holds, LastUser, InOrder, Idle, Mirrored, Usable, Suits, Shaped;
      status := CopyFromMrams(matrix, offset, size);
      if status == Ok {
        ReceivedInside(matrix, offset, size);
      }
    }
  }

  lemma FrontReplaced(b0: seq<byte>, b1: seq<byte>, data: seq<byte>)
    requires |data| <= |b0| && b1 == Splice(b0, 0, data)
    ensures b1[..|data|] == data && b1[|data|..] == b0[|data|..]
  {
  }

  lemma SameDivMod(i: nat, j: nat, g: nat)
    requires 0 < g && i / g == j / g && i % g == j % g
    ensures i == j
  {
    assert i == i / g * g + i % g && j == j / g * g + j % g;
  }

  lemma InsideFacts(i: nat, cis: nat, per: nat, member: nat, slice: nat)
    requires 0 < cis && i < cis * per && member == i / cis && slice == i % cis
    ensures member < per && slice * per + member < cis * per
    ensures (slice * per + member) / per == slice && (slice * per + member) % per == member
  {
    assert i == member * cis + slice;
    MulGap(per, member, cis);
    MulGap(slice, cis, per);
    DivModUnique(slice * per + member, per, slice, member);
  }
}
