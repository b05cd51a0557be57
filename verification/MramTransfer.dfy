/** Transfers between a host buffer and the MRAM of one DPU of a rank whose MRAM is reachable by DPU programs only:
    alignment through a bounce buffer. */
module MramTransfer {
  import opened Bytes
  import opened DpuDevice
  import opened MramProgram

  /** A transfer that the DPU program cannot make directly: `skew` is the host address modulo 4. */
  predicate Bounces(skew: nat, offset: nat, size: nat) {
    skew % 4 != 0 || offset % 8 != 0 || size % 8 != 0
  }

  /** The length of the 8-aligned MRAM range around `size` bytes at `offset`. */
  function AlignedSize(offset: nat, size: nat): (n: nat)
    ensures n % 8 == 0 && offset % 8 + size <= n < offset % 8 + size + 8
  {
    (size + offset % 8 + 7) / 8 * 8
  }

  predicate BothEndsMisaligned(offset: nat, size: nat) {
    offset % 8 != 0 && (offset + size) % 8 != 0
  }

  /** MRAM after `data` has been written at `base + skip`, when the rest of the block before `end` has been
      replaced by what lies `skip` bytes further on. */
  function Displaced(m: seq<byte>, base: nat, skip: nat, end: nat, data: seq<byte>): (r: seq<byte>)
    requires base + 8 <= end && end + skip <= |m| && base + skip + |data| <= end
    ensures |r| == |m|
  {
    seq(|m|, x requires 0 <= x < |m| =>
      if base + skip <= x < base + skip + |data| then data[x - base - skip]
      else if end - 8 <= x < end then m[x + skip] else m[x])
  }

  /** MRAM after a write.  When neither end of the range is aligned, the code fetches the last block of the
      bounce buffer from an address that is too high by the misalignment, and writes that back. */
  function Written(m: seq<byte>, offset: nat, data: seq<byte>): (r: seq<byte>)
    requires offset + |data| <= |m|
    requires BothEndsMisaligned(offset, |data|) ==> offset + AlignedSize(offset, |data|) <= |m|
    ensures |r| == |m|
  {
    if BothEndsMisaligned(offset, |data|) then
      var base := offset - offset % 8;
      Displaced(m, base, offset % 8, base + AlignedSize(offset, |data|), data)
    else Splice(m, offset, data)
  }

  /** A write leaves the bytes around its range alone, whatever the memory holds, exactly when one of its ends
      is aligned. */
  lemma NeighboursSurvive(size: nat, offset: nat, n: nat)
    requires offset + AlignedSize(offset, n) <= size
    ensures (forall m: seq<byte>, data: seq<byte> | |m| == size && |data| == n ::
        Written(m, offset, data) == Splice(m, offset, data))
       <==> !BothEndsMisaligned(offset, n)
  {
    if BothEndsMisaligned(offset, n) {
      var base := offset - offset % 8;
      var m, data := DisplacedDiffers(size, base, offset % 8, base + AlignedSize(offset, n), n);
      assert Written(m, offset, data) != Splice(m, offset, data);
    }
  }

  /** MRAM tells which data has been written to it. */
  lemma WrittenDetermines(m: seq<byte>, offset: nat, x: seq<byte>, y: seq<byte>)
    requires |x| == |y| && offset + |x| <= |m|
    requires BothEndsMisaligned(offset, |x|) ==> offset + AlignedSize(offset, |x|) <= |m|
    ensures Written(m, offset, x) == Written(m, offset, y) <==> x == y
  {
    if Written(m, offset, x) == Written(m, offset, y) {
      forall k: nat | k < |x|
        ensures x[k] == y[k]
      {
        assert Written(m, offset, x)[offset + k] == x[k] && Written(m, offset, y)[offset + k] == y[k];
      }
    }
  }

  lemma DisplacedDiffers(size: nat, base: nat, skip: nat, end: nat, n: nat) returns (m: seq<byte>, data: seq<byte>)
    requires 0 < skip < 8 && base + 8 <= end && end + skip <= size && end - 8 <= base + skip + n < end
    ensures |m| == size && |data| == n && Displaced(m, base, skip, end, data) != Splice(m, base + skip, data)
  {
    m, data := seq(size, i requires 0 <= i => (i % 256) as byte), seq(n, i => 0 as byte);
    var x := base + skip + n;
    assert Displaced(m, base, skip, end, data)[x] == m[x + skip];
    assert Splice(m, base + skip, data)[x] == m[x];
    ShiftedByte(x, skip);
  }

  lemma ShiftedByte(x: nat, k: nat)
    requires 0 < k < 8
    ensures (x + k) % 256 != x % 256
  {
  }

  /** A range the code may be asked for: one that lies in MRAM, or an aligned one that begins there.  If that
      leaves MRAM, the program on the DPU faults. */
  predicate Begins(offset: nat, size: nat, mramSize: nat) {
    offset + size <= mramSize || (offset % 8 == 0 && size % 8 == 0 && offset <= mramSize && size < 0x1_0000_0000)
  }

  predicate Reachable(d: Dpu, program: seq<Instruction>, offset: nat, size: nat)
    reads d
  {
    && DMA_ACCESS_2 < |program| <= |d.iram|
    && |d.wram| % WORD == 0 && CONTEXT_WORDS * WORD < |d.wram| < 0x1_0000_0000
    && |d.mram| % 8 == 0 && |d.mram| < 0x1_0000_0000 && Begins(offset, size, |d.mram|)
  }

  /** Reads `size` bytes of MRAM into a host buffer. */
  method Load(d: Dpu, from: nat, size: nat, buffer: array<byte>, at: nat, program: seq<Instruction>)
    returns (status: Status)
    requires d.enabled && Accessible(d, program, from, size) && from <= |d.mram| && at + size <= buffer.Length
    modifies d, buffer
    ensures status == if d.faults == old(d.faults) then Ok else Internal
    ensures |d.mram| == |old(d.mram)| && |d.iram| == |old(d.iram)| && |d.wram| == |old(d.wram)|
    ensures status == Ok ==> d.mram == old(d.mram) && d.iram == old(d.iram) && d.wram == old(d.wram)
    ensures status == Ok ==>
              from + size <= |d.mram| && buffer[..] == Splice(old(buffer[..]), at, d.mram[from..from + size])
  {
    status := AccessMram(d, from, size, buffer, at, false, program);
  }

  /** Writes the front of a host buffer to MRAM. */
  method Store(d: Dpu, to: nat, size: nat, buffer: array<byte>, program: seq<Instruction>) returns (status: Status)
    requires d.enabled && Accessible(d, program, to, size) && to <= |d.mram| && size <= buffer.Length
    modifies d
    ensures status == if d.faults == old(d.faults) then Ok else Internal
    ensures |d.mram| == |old(d.mram)| && |d.iram| == |old(d.iram)| && |d.wram| == |old(d.wram)|
    ensures status == Ok ==> d.iram == old(d.iram) && d.wram == old(d.wram)
    ensures status == Ok ==> to + size <= |d.mram| && d.mram == Splice(old(d.mram), to, buffer[..size])
  {
    ghost var m0 := d.mram;
    status := AccessMram(d, to, size, buffer, 0, true, program);
    assert buffer[..size] == buffer[..][0..0 + size];
    if size == 0 {
      assert Splice(m0, to, buffer[..size]) == m0;
    }
  }

  /** The `n` bytes of `b` at `at` are those of `m` at `from`. */
  ghost predicate Agrees(b: seq<byte>, at: nat, m: seq<byte>, from: nat, n: nat) {
    && at + n <= |b| && from + n <= |m|
    && forall x: nat | at <= x < at + n :: b[x] == m[x - at + from]
  }

  /** Fetches one aligned block of the bounce buffer. */
  method FetchBlock(d: Dpu, from: nat, buffer: array<byte>, at: nat, program: seq<Instruction>) returns (status: Status)
    requires d.enabled && Accessible(d, program, from, 8) && from <= |d.mram| && at + 8 <= buffer.Length
    modifies d, buffer
    ensures status == if d.faults == old(d.faults) then Ok else Internal
    ensures |d.mram| == |old(d.mram)| && |d.iram| == |old(d.iram)| && |d.wram| == |old(d.wram)|
    ensures status == Ok ==> d.mram == old(d.mram) && d.iram == old(d.iram) && d.wram == old(d.wram)
    ensures status == Ok ==> Agrees(buffer[..], at, d.mram, from, 8) && Agrees(buffer[..], 0, old(buffer[..]), 0, at)
  {
    status := Load(d, from, 8, buffer, at, program);
  }

  /** The bounce buffer `b` for data that begins `o` bytes into it holds what the code has fetched for the ends
      that the data will not cover. */
  ghost predicate EndsFetched(b: seq<byte>, m: seq<byte>, base: nat, o: nat, size: nat) {
    && o + size <= |b|
    && (o != 0 && (o + size == |b| || 8 < |b|) ==> Agrees(b, 0, m, base, 8))
    && (o + size < |b| ==> 8 <= |b| && Agrees(b, |b| - 8, m, base + o + |b| - 8, 8))
  }

  lemma AlignedFacts(total: nat, offset: nat, size: nat)
    requires total % 8 == 0 && Begins(offset, size, total)
    ensures var o, aligned := offset % 8, AlignedSize(offset, size);
            && offset - o <= total && (o + size < aligned ==> offset - o + aligned <= total) && aligned < size + 16
            && (aligned == 0 || aligned == 8 || 16 <= aligned)
            && o + size <= aligned && ((size + o) % 8 == 0 <==> o + size == aligned)
            && (BothEndsMisaligned(offset, size) <==> o != 0 && o + size < aligned)
  {
  }

  /** Fills those ends of the bounce buffer that the data will not cover. */
  method FetchEnds(d: Dpu, base: nat, o: nat, size: nat, buffer: array<byte>, program: seq<Instruction>)
    returns (status: Status)
    requires d.enabled && Reachable(d, program, base + o, size)
    requires base <= |d.mram| && o + size <= buffer.Length
    requires o + size < buffer.Length ==> base + buffer.Length <= |d.mram|
    requires o < 8 && (8 < buffer.Length ==> 16 <= buffer.Length)
    requires (size + o) % 8 == 0 <==> o + size == buffer.Length
    requires o != 0 || o + size < buffer.Length ==> 8 <= buffer.Length
    modifies d, buffer
    ensures status == if d.faults == old(d.faults) then Ok else Internal
    ensures |d.mram| == |old(d.mram)| && |d.iram| == |old(d.iram)| && |d.wram| == |old(d.wram)|
    ensures status == Ok ==> d.mram == old(d.mram) && d.iram == old(d.iram) && d.wram == old(d.wram)
    ensures status == Ok ==> EndsFetched(buffer[..], d.mram, base, o, size)
  {
    var aligned := buffer.Length;
    status := Ok;
    if o != 0 {
      status := FetchBlock(d, base, buffer, 0, program);
      if status != Ok { return; }
    }
    if (size + o) % 8 != 0 {
      status := FetchBlock(d, base + o + aligned - 8, buffer, aligned - 8, program);
      if status != Ok { return; }
    }
  }

  /** Writes through the bounce buffer: fetch the ends, put the data between them, write the whole blocks. */
  method StoreThrough(d: Dpu, base: nat, o: nat, size: nat, ptr: array<byte>, buffer: array<byte>,
                      program: seq<Instruction>)
    returns (status: Status)
    requires d.enabled && Reachable(d, program, base + o, size) && size <= ptr.Length && ptr != buffer
    requires base <= |d.mram| && o + size <= buffer.Length < o + size + 8
    requires buffer.Length < 0x1_0000_0000 && (o + size < buffer.Length ==> base + buffer.Length <= |d.mram|)
    requires o < 8 && buffer.Length % 8 == 0 && (buffer.Length == 0 || buffer.Length == 8 || 16 <= buffer.Length)
    requires (size + o) % 8 == 0 <==> o + size == buffer.Length
    modifies d, buffer
    ensures status == if d.faults == old(d.faults) then Ok else Internal
    ensures |d.mram| == |old(d.mram)| && |d.iram| == |old(d.iram)| && |d.wram| == |old(d.wram)|
    ensures status == Ok ==> d.iram == old(d.iram) && d.wram == old(d.wram)
    ensures status == Ok ==> base + o + size <= |d.mram|
    ensures status == Ok && o != 0 && o + size < buffer.Length ==>
              && base + o + buffer.Length <= |d.mram|
              && d.mram == Displaced(old(d.mram), base, o, base + buffer.Length, ptr[..size])
    ensures status == Ok && !(o != 0 && o + size < buffer.Length)
      ==> d.mram == Splice(old(d.mram), base + o, ptr[..size])
  {
    ghost var m0, data := d.mram, ptr[..size];
    hide Displaced, EndsFetched, Agrees, Begins;
    status := FetchEnds(d, base, o, size, buffer, program);
    if status != Ok { return; }
    ghost var b1 := buffer[..];
    Memcpy(buffer, o, ptr[..size]);
    ghost var b2 := buffer[..];
    status := Store(d, base, buffer.Length, buffer, program);
    if status != Ok { return; }
    assert buffer[..buffer.Length] == b2 && b2 == Splice(b1, o, data) && ptr[..size] == data;
    BounceWritten(m0, b1, base, o, data);
  }

  method StoreBounced(d: Dpu, offset: nat, size: nat, ptr: array<byte>, program: seq<Instruction>)
    returns (status: Status)
    requires d.enabled && Reachable(d, program, offset, size) && size <= ptr.Length
    modifies d
    ensures status == if d.faults == old(d.faults) then Ok else Internal
    ensures |d.mram| == |old(d.mram)| && |d.iram| == |old(d.iram)| && |d.wram| == |old(d.wram)|
    ensures status == Ok ==> d.iram == old(d.iram) && d.wram == old(d.wram)
    ensures status == Ok ==>
              && offset + size <= |d.mram|
              && (BothEndsMisaligned(offset, size) ==> offset + AlignedSize(offset, size) <= |d.mram|)
              && d.mram == Written(old(d.mram), offset, ptr[..size])
  {
    AlignedFacts(|d.mram|, offset, size);
    var buffer := new byte[AlignedSize(offset, size)](_ => 0);
    status := StoreThrough(d, offset - offset % 8, offset % 8, size, ptr, buffer, program);
  }

  /** One DPU of a write: `ptr` is the DPU's own entry of the transfer matrix and `first` is the matrix's entry
      0, which is what a transfer without a bounce buffer looks at. */
  method CopyToOne(d: Dpu, offset: nat, size: nat, ptr: array<byte>, skew: nat, first: array<byte>,
                   program: seq<Instruction>)
    returns (status: Status)
    requires d.enabled && Reachable(d, program, offset, size)
    requires size <= ptr.Length && (!Bounces(skew, offset, size) ==> size <= first.Length)
    modifies d
    ensures status == if d.faults == old(d.faults) then Ok else Internal
    ensures |d.mram| == |old(d.mram)| && |d.iram| == |old(d.iram)| && |d.wram| == |old(d.wram)|
    ensures status == Ok ==>
              var data := if Bounces(skew, offset, size) then ptr[..size] else first[..size];
              && d.iram == old(d.iram) && d.wram == old(d.wram) && offset + size <= |d.mram|
              && (BothEndsMisaligned(offset, size) ==> offset + AlignedSize(offset, size) <= |d.mram|)
              && d.mram == Written(old(d.mram), offset, data)
  {
    if Bounces(skew, offset, size) {
      status := StoreBounced(d, offset, size, ptr, program);
    } else {
      status := Store(d, offset, size, first, program);
    }
  }

  method LoadBounced(d: Dpu, offset: nat, size: nat, ptr: array<byte>, program: seq<Instruction>)
    returns (status: Status)
    requires d.enabled && Reachable(d, program, offset, size) && size <= ptr.Length
    modifies d, ptr
    ensures status == if d.faults == old(d.faults) then Ok else Internal
    ensures |d.mram| == |old(d.mram)| && |d.iram| == |old(d.iram)| && |d.wram| == |old(d.wram)|
    ensures status == Ok ==> d.mram == old(d.mram) && d.iram == old(d.iram) && d.wram == old(d.wram)
    ensures status == Ok ==>
              offset + size <= |d.mram| && ptr[..] == Splice(old(ptr[..]), 0, d.mram[offset..offset + size])
  {
    var o, aligned := offset % 8, AlignedSize(offset, size);
    AlignedFacts(|d.mram|, offset, size);
    hide Begins, AlignedSize, Splice;
    var buffer := new byte[aligned](_ => 0);
    ghost var b0 := buffer[..];
    status := Load(d, offset - o, aligned, buffer, 0, program);
    if status != Ok { return; }
    var data := buffer[o..o + size];
    assert data == d.mram[offset..offset + size] by {
      assert data == buffer[..][o..o + size];
      Middle(b0, d.mram, offset - o, o, size, aligned);
    }
    Memcpy(ptr, 0, data);
  }

  /** One DPU of a read: exactly the bytes of the range arrive, in the DPU's own buffer if it bounces and in the
      matrix's entry 0 if it does not. */
  method CopyFromOne(d: Dpu, offset: nat, size: nat, ptr: array<byte>, skew: nat, first: array<byte>,
                     program: seq<Instruction>)
    returns (status: Status)
    requires d.enabled && Reachable(d, program, offset, size)
    requires size <= ptr.Length && (!Bounces(skew, offset, size) ==> size <= first.Length)
    modifies d, (if Bounces(skew, offset, size) then {ptr} else {first})
    ensures status == if d.faults == old(d.faults) then Ok else Internal
    ensures |d.mram| == |old(d.mram)| && |d.iram| == |old(d.iram)| && |d.wram| == |old(d.wram)|
    ensures status == Ok ==> d.mram == old(d.mram) && d.iram == old(d.iram) && d.wram == old(d.wram)
    ensures status == Ok ==>
              offset + size <= |d.mram| &&
              var target := if Bounces(skew, offset, size) then ptr else first;
              target[..] == Splice(old(target[..]), 0, d.mram[offset..offset + size])
  {
    if Bounces(skew, offset, size) {
      status := LoadBounced(d, offset, size, ptr, program);
    } else {
      status := Load(d, offset, size, first, 0, program);
    }
  }

  lemma Middle(b: seq<byte>, m: seq<byte>, base: nat, o: nat, size: nat, aligned: nat)
    requires o + size <= aligned == |b| && base + aligned <= |m|
    ensures Splice(b, 0, m[base..base + aligned])[o..o + size] == m[base + o..base + o + size]
  {
    assert Splice(b, 0, m[base..base + aligned]) == m[base..base + aligned];
    SliceOfSlice(m, base, base + aligned, base + o, base + o + size);
  }

  /** What ends up in MRAM when the bounce buffer is written back. */
  lemma BounceWritten(m0: seq<byte>, b1: seq<byte>, base: nat, o: nat, data: seq<byte>)
    requires o < 8 && (|b1| == 0 || |b1| == 8 || 16 <= |b1|) && |b1| < o + |data| + 8
    requires base + |b1| <= |m0| && EndsFetched(b1, m0, base, o, |data|)
    ensures var written := Splice(m0, base, Splice(b1, o, data));
            if o != 0 && o + |data| < |b1| then written == Displaced(m0, base, o, base + |b1|, data)
            else written == Splice(m0, base + o, data)
  {
    if o != 0 && o + |data| < |b1| {
      BounceDisplaced(m0, b1, base, o, data);
    } else {
      BounceResult(m0, b1, base, o, data);
    }
  }

  /** If the bounce buffer agrees with MRAM around the data, only the data changes. */
  lemma BounceResult(m0: seq<byte>, b1: seq<byte>, base: nat, skip: nat, data: seq<byte>)
    requires skip + |data| <= |b1| && base + |b1| <= |m0|
    requires Agrees(b1, 0, m0, base, skip)
    requires Agrees(b1, skip + |data|, m0, base + skip + |data|, |b1| - skip - |data|)
    ensures Splice(m0, base, Splice(b1, skip, data)) == Splice(m0, base + skip, data)
  {
    var b2 := Splice(b1, skip, data);
    var l, r := Splice(m0, base, b2), Splice(m0, base + skip, data);
    forall x: nat | x < |m0|
      ensures l[x] == r[x]
    {
      SpliceAt(m0, base, b2, x);
      SpliceAt(m0, base + skip, data, x);
      if base <= x < base + |b1| {
        SpliceAt(b1, skip, data, x - base);
      }
    }
  }

  /** If the last block comes from `skip` bytes further on, the rest of it is displaced. */
  lemma BounceDisplaced(m0: seq<byte>, b1: seq<byte>, base: nat, skip: nat, data: seq<byte>)
    requires 0 < skip < 8 && skip + |data| < |b1| && base + |b1| + skip <= |m0| && 8 <= |b1| < skip + |data| + 8
    requires 8 < |b1| ==> 16 <= |b1| && Agrees(b1, 0, m0, base, 8)
    requires Agrees(b1, |b1| - 8, m0, base + |b1| - 8 + skip, 8)
    ensures Splice(m0, base, Splice(b1, skip, data)) == Displaced(m0, base, skip, base + |b1|, data)
  {
    var b2 := Splice(b1, skip, data);
    var l, r := Splice(m0, base, b2), Displaced(m0, base, skip, base + |b1|, data);
    forall x: nat | x < |m0|
      ensures l[x] == r[x]
    {
      SpliceAt(m0, base, b2, x);
      if base <= x < base + |b1| {
        SpliceAt(b1, skip, data, x - base);
      }
    }
  }
}
