/** One access to the MRAM of one DPU through a program that runs on the DPU. */
module MramProgram {
  import opened Arithmetic
  import opened Bytes
  import opened DpuDevice

  // ---------------------------------------------------------------- the transfers that ought to happen

  /** The `i`-th of the transfers of at most `chunk` bytes that tile `size` bytes of MRAM from `offset` on. */
  function Planned(offset: nat, size: nat, chunk: nat, i: nat): Transfer {
    Transfer(offset + i * chunk, if i * chunk <= size then Min(chunk, size - i * chunk) else 0, size <= (i + 1) * chunk)
  }

  function TransferCount(size: nat, chunk: nat): nat
    requires 0 < chunk
  {
    size / chunk + if size % chunk == 0 then 0 else 1
  }

  /** The planned transfers are consecutive, none of them is empty, together they end at the end of the range,
      and exactly the final one is marked as the last. */
  lemma PlannedTransfersTile(offset: nat, size: nat, chunk: nat, i: nat)
    requires 0 < chunk && 0 < size && i < TransferCount(size, chunk)
    ensures var t := Planned(offset, size, chunk, i);
            && 0 < t.size <= chunk
            && (i == 0 ==> t.cursor == offset)
            && (i + 1 < TransferCount(size, chunk) ==> t.cursor + t.size == Planned(offset, size, chunk, i + 1).cursor)
            && (i + 1 == TransferCount(size, chunk) ==> t.cursor + t.size == offset + size)
            && (t.last <==> i + 1 == TransferCount(size, chunk))
  {
    var q, r := size / chunk, size % chunk;
    assert size == q * chunk + r;
    MulGap(i, q, chunk);
    MulGap(i + 1, q, chunk);
    MulGap(q, i, chunk);
    MulGap(q, i + 1, chunk);
    assert (i + 1) * chunk == i * chunk + chunk;
  }

  /** `after` records the first `n` planned transfers, and nothing else that is new. */
  ghost predicate Traced(before: seq<Transfer>, after: seq<Transfer>, offset: nat, size: nat, chunk: nat, n: nat) {
    && |after| == |before| + n && before <= after
    && forall i: nat | i < n :: after[|before| + i] == Planned(offset, size, chunk, i)
  }

  // ---------------------------------------------------------------- the access

  /** Whether an access has a program to run, a buffer to run it with, and numbers that fit their words. */
  predicate Accessible(d: Dpu, program: seq<Instruction>, offset: nat, size: nat)
    reads d
  {
    && DMA_ACCESS_2 < |program| <= |d.iram|
    && |d.wram| % WORD == 0 && CONTEXT_WORDS * WORD < |d.wram| < 0x1_0000_0000
    && size % 8 == 0 && offset < 0x1_0000_0000 && size < 0x1_0000_0000
  }

  /** The state after `p` bytes: a piece of the buffer has replaced a piece of MRAM, or the other way round. */
  ghost predicate Copied(m: seq<byte>, b: seq<byte>, m0: seq<byte>, b0: seq<byte>, offset: nat, at: nat, store: bool,
                         p: nat) {
    && offset + p <= |m0| && at + p <= |b0|
    && (if store then b == b0 && m == Splice(m0, offset, b0[at..at + p])
        else m == m0 && b == Splice(b0, at, m0[offset..offset + p]))
  }

  method Memcpy(buf: array<byte>, at: nat, data: seq<byte>)
    requires at + |data| <= buf.Length
    modifies buf
    ensures buf[..] == Splice(old(buf[..]), at, data)
  {
    forall k | 0 <= k < |data| {
      buf[at + k] := data[k];
    }
  }

  /** The number of bytes that go through WRAM at once: all of them, or as many as the buffer holds. */
  function ChunkBytes(wramBytes: nat, size: nat): (n: nat)
    requires CONTEXT_WORDS * WORD < wramBytes && wramBytes % WORD == 0
  {
    if size / WORD + CONTEXT_WORDS >= wramBytes / WORD then wramBytes - CONTEXT_WORDS * WORD else size / WORD * WORD
  }

  /** A word holds the number that has been encoded into it. */
  lemma WordHolds(w: seq<byte>, k: nat, x: nat)
    requires (k + 1) * WORD <= |w| && x < 0x1_0000_0000
    requires w[k * WORD..(k + 1) * WORD] == Encode(WORD, x)
    ensures Decode(w[k * WORD..(k + 1) * WORD]) == x
  {
    WordSize();
    DecodeEncode(WORD, x);
  }

  /** Writes context words from word `first` up to the last one. */
  method WriteContext(d: Dpu, first: nat, values: seq<nat>) returns (status: Status)
    requires 5 <= first && first + |values| == CONTEXT_WORDS && CONTEXT_WORDS * WORD <= |d.wram|
    requires values != [] && forall i | 0 <= i < |values| :: values[i] < 0x1_0000_0000
    modifies d`wram
    ensures status == if d.enabled then Ok else DpuDisabled
    ensures |d.wram| == |old(d.wram)| && d.wram[CONTEXT_WORDS * WORD..] == old(d.wram)[CONTEXT_WORDS * WORD..]
    ensures status == Ok ==> forall k: nat | 5 <= k < 8 ::
              d.Word(k) == if first <= k then values[k - first] else old(d.Word(k))
  {
    ghost var w0 := d.wram;
    status := d.CopyToWram(first, EncodeWords(values));
    if status == Ok {
      Spliced(w0, first * WORD, EncodeWords(values));
      forall k: nat | 5 <= k < 8
        ensures d.Word(k) == if first <= k then values[k - first] else old(d.Word(k))
      {
        if first <= k {
          WordsAt(values, k - first);
          SplicedSlice(w0, first * WORD, EncodeWords(values), (k - first) * WORD, WORD);
          WordHolds(d.wram, k, values[k - first]);
        } else {
          assert (k + 1) * WORD <= first * WORD;
        }
      }
    }
  }

  function EncodeWords(values: seq<nat>): (bs: seq<byte>)
    ensures |bs| == |values| * WORD
  {
    if values == [] then [] else Encode(WORD, values[0]) + EncodeWords(values[1..])
  }

  lemma {:induction false} WordsAt(values: seq<nat>, j: nat)
    requires j < |values|
    ensures EncodeWords(values)[j * WORD..(j + 1) * WORD] == Encode(WORD, values[j])
  {
    if j > 0 {
      WordsAt(values[1..], j - 1);
      assert EncodeWords(values)[WORD..] == EncodeWords(values[1..]);
      SliceOfSlice(EncodeWords(values), WORD, |values| * WORD, j * WORD, (j + 1) * WORD);
    }
  }

  lemma SplicedSlice<T>(s: seq<T>, a: nat, b: seq<T>, lo: nat, n: nat)
    requires a + |b| <= |s| && lo + n <= |b|
    ensures Splice(s, a, b)[a + lo..a + lo + n] == b[lo..lo + n]
  {
    Spliced(s, a, b);
    SliceOfSlice(Splice(s, a, b), a, a + |b|, a + lo, a + lo + n);
  }

  lemma SliceOfSlice<T>(s: seq<T>, a: nat, b: nat, lo: nat, hi: nat)
    requires a <= lo <= hi <= b <= |s|
    ensures s[lo..hi] == s[a..b][lo - a..hi - a]
  {
    assert forall k | 0 <= k < hi - lo :: s[lo..hi][k] == s[lo + k] == s[a..b][lo - a + k];
  }

  lemma ContextKept(w0: seq<byte>, w1: seq<byte>, k: nat)
    requires CONTEXT_WORDS * WORD <= |w0| == |w1| && 5 <= k < 8
    requires w0[5 * WORD..CONTEXT_WORDS * WORD] == w1[5 * WORD..CONTEXT_WORDS * WORD]
    ensures w0[k * WORD..(k + 1) * WORD] == w1[k * WORD..(k + 1) * WORD]
  {
    SliceOfSlice(w0, 5 * WORD, CONTEXT_WORDS * WORD, k * WORD, (k + 1) * WORD);
    SliceOfSlice(w1, 5 * WORD, CONTEXT_WORDS * WORD, k * WORD, (k + 1) * WORD);
  }

  /** One run of the program, and the fetch of what it has loaded. */
  method BootAndFetch(d: Dpu, resume: bool, buf: array<byte>, at: nat, n: nat, store: bool) returns (status: Status)
    requires d.enabled && d.Loaded() && (resume ==> d.suspended)
    requires d.iram[DMA_ACCESS_1] == (if store then StoreDma else LoadDma)
    requires at + n <= buf.Length && n % WORD == 0 && CONTEXT_WORDS * WORD + n <= |d.wram| && d.Word(6) == n
    requires store ==> d.wram[CONTEXT_WORDS * WORD..CONTEXT_WORDS * WORD + n] == buf[at..at + n]
    modifies d`wram, d`mram, d`cursor, d`suspended, d`transfers, d`faults, (if store then {} else {buf})
    ensures status == if d.faults == old(d.faults) then Ok else Internal
    ensures |d.wram| == |old(d.wram)| && |d.mram| == |old(d.mram)|
    ensures store ==> buf[..] == old(buf[..])
    ensures status == Ok ==> d.wram[CONTEXT_WORDS * WORD + n..] == old(d.wram)[CONTEXT_WORDS * WORD + n..]
    ensures status == Ok ==> forall k: nat | 5 <= k < 8 :: d.Word(k) == old(d.Word(k))
    ensures status == Ok ==>
              var start := if resume then old(d.cursor) else old(d.Word(5));
              && start + n <= |d.mram|
              && d.cursor == start + n && d.suspended == (old(d.Word(7)) != 1)
              && d.transfers == old(d.transfers) + [Transfer(start, n, old(d.Word(7)) == 1)]
              && Copied(d.mram, buf[..], old(d.mram), old(buf[..]), start, at, store, n)
  {
    ghost var w0, buffer := d.wram, CONTEXT_WORDS * WORD;
    var fault := d.Boot(resume);
    if fault { return Internal; }
    forall k: nat | 5 <= k < 8
      ensures d.Word(k) == old(d.Word(k))
    {
      ContextKept(w0, d.wram, k);
    }
    status := Ok;
    assert d.wram[buffer + n..] == w0[buffer + n..] by {
      if store {
        assert d.wram[buffer + n..] == d.wram[buffer..][n..] && w0[buffer + n..] == w0[buffer..][n..];
      }
    }
    if !store && 0 < n {
      var data;
      status, data := d.CopyFromWram(CONTEXT_WORDS, n / WORD);
      Memcpy(buf, at, data);
    }
  }

  /** The next `k` bytes after the first `p`. */
  lemma CopiedMore(m0: seq<byte>, m1: seq<byte>, m2: seq<byte>, b0: seq<byte>, b1: seq<byte>, b2: seq<byte>,
                   offset: nat, at: nat, store: bool, p: nat, k: nat)
    requires Copied(m1, b1, m0, b0, offset, at, store, p) && offset + p + k <= |m0| && at + p + k <= |b0|
    requires Copied(m2, b2, m1, b1, offset + p, at + p, store, k)
    ensures Copied(m2, b2, m0, b0, offset, at, store, p + k)
  {
    if store {
      SpliceSplice(m0, offset, b0[at..at + p], b0[at + p..at + p + k]);
      assert b0[at..at + p] + b0[at + p..at + p + k] == b0[at..at + p + k];
    } else {
      SpliceSplice(b0, at, m0[offset..offset + p], m0[offset + p..offset + p + k]);
      assert m0[offset..offset + p] + m0[offset + p..offset + p + k] == m0[offset..offset + p + k];
    }
  }

  lemma TailKept<T>(s: seq<T>, s': seq<T>, a: nat, b: nat)
    requires a <= b <= |s| == |s'| && s[a..] == s'[a..]
    ensures s[b..] == s'[b..]
  {
    assert s[b..] == s[a..][b - a..] && s'[b..] == s'[a..][b - a..];
  }

  /** Filling the buffer does not change the words in front of it. */
  lemma WordsInFront(w: seq<byte>, a: nat, data: seq<byte>)
    requires a == CONTEXT_WORDS * WORD && a + |data| <= |w|
    ensures var r := if data != [] then Splice(w, a, data) else w;
            && |r| == |w|
            && forall k: nat | 5 <= k < 8 :: r[k * WORD..(k + 1) * WORD] == w[k * WORD..(k + 1) * WORD]
  {
    Spliced(w, a, data);
    hide Splice;
    forall k: nat | 5 <= k < 8
      ensures Splice(w, a, data)[k * WORD..(k + 1) * WORD] == w[k * WORD..(k + 1) * WORD]
    {
      assert (k + 1) * WORD <= a;
    }
  }

  /** The first run: context words, then the buffer if bytes go to MRAM, then a fresh boot. */
  method FirstTransfer(d: Dpu, buf: array<byte>, at: nat, n: nat, store: bool, offset: nat, last: bool)
    returns (status: Status)
    requires d.enabled && d.Loaded()
    requires d.iram[DMA_ACCESS_1] == (if store then StoreDma else LoadDma)
    requires at + n <= buf.Length && n % WORD == 0 && CONTEXT_WORDS * WORD + n <= |d.wram|
    requires offset < 0x1_0000_0000 && n < 0x1_0000_0000
    modifies d`wram, d`mram, d`cursor, d`suspended, d`transfers, d`faults, (if store then {} else {buf})
    ensures status == if d.faults == old(d.faults) then Ok else Internal
    ensures |d.wram| == |old(d.wram)| && |d.mram| == |old(d.mram)|
    ensures store ==> buf[..] == old(buf[..])
    ensures status == Ok ==> d.wram[CONTEXT_WORDS * WORD + n..] == old(d.wram)[CONTEXT_WORDS * WORD + n..]
    ensures status == Ok ==> d.Word(6) == n && d.Word(7) == if last then 1 else 0
    ensures status == Ok ==>
              && offset + n <= |d.mram|
              && d.cursor == offset + n && d.suspended == !last
              && d.transfers == old(d.transfers) + [Transfer(offset, n, last)]
              && Copied(d.mram, buf[..], old(d.mram), old(buf[..]), offset, at, store, n)
  {
    ghost var w0, buffer := d.wram, CONTEXT_WORDS * WORD;
    status := WriteContext(d, 5, [offset, n, if last then 1 else 0]);
    if status != Ok { return; }
    ghost var w1 := d.wram;
    assert w1[buffer + n..] == w1[buffer..][n..] && w0[buffer + n..] == w0[buffer..][n..];
    if store {
      status := d.CopyToWram(CONTEXT_WORDS, buf[at..at + n]);
      if status != Ok { return; }
      WordsInFront(w1, buffer, buf[at..at + n]);
    }
    status := BootAndFetch(d, false, buf, at, n, store);
  }

  /** A later run: load the buffer if bytes go to MRAM, tell the program the marker and the size where they
      change, and resume it. */
  method NextTransfer(d: Dpu, buf: array<byte>, at: nat, n: nat, store: bool, context: seq<nat>)
    returns (status: Status)
    requires d.enabled && d.Loaded() && d.suspended
    requires d.iram[DMA_ACCESS_1] == (if store then StoreDma else LoadDma)
    requires at + n <= buf.Length && n % WORD == 0 && CONTEXT_WORDS * WORD + n <= |d.wram|
    requires |context| <= 2 && forall i | 0 <= i < |context| :: context[i] < 0x1_0000_0000
    requires n == if |context| == 2 then context[0] else d.Word(6)
    modifies d`wram, d`mram, d`cursor, d`suspended, d`transfers, d`faults, (if store then {} else {buf})
    ensures status == if d.faults == old(d.faults) then Ok else Internal
    ensures |d.wram| == |old(d.wram)| && |d.mram| == |old(d.mram)|
    ensures store ==> buf[..] == old(buf[..])
    ensures status == Ok ==> d.wram[CONTEXT_WORDS * WORD + n..] == old(d.wram)[CONTEXT_WORDS * WORD + n..]
    ensures status == Ok ==> d.Word(6) == n
    ensures status == Ok ==> d.Word(7) == if context != [] then context[|context| - 1] else old(d.Word(7))
    ensures status == Ok ==>
              var start := old(d.cursor);
              && start + n <= |d.mram|
              && d.cursor == start + n && d.suspended == (d.Word(7) != 1)
              && d.transfers == old(d.transfers) + [Transfer(start, n, d.Word(7) == 1)]
              && Copied(d.mram, buf[..], old(d.mram), old(buf[..]), start, at, store, n)
  {
    ghost var w0 := d.wram;
    ghost var buffer := CONTEXT_WORDS * WORD;
    if context != [] {
      status := WriteContext(d, CONTEXT_WORDS - |context|, context);
      if status != Ok { return; }
    }
    ghost var w1 := d.wram;
    assert w1[buffer + n..] == w1[buffer..][n..] && w0[buffer + n..] == w0[buffer..][n..];
    if store {
      status := d.CopyToWram(CONTEXT_WORDS, buf[at..at + n]);
      if status != Ok { return; }
      WordsInFront(w1, buffer, buf[at..at + n]);
      assert forall k: nat | 5 <= k < 8 :: d.wram[k * WORD..(k + 1) * WORD] == w1[k * WORD..(k + 1) * WORD];
    }
    assert d.Word(6) == n;
    assert d.Word(7) == if context != [] then context[|context| - 1] else old(d.Word(7));
    hide Decode, Splice, Encode, EncodeWords;
    status := BootAndFetch(d, true, buf, at, n, store);
  }

  /** One more transfer, at the cursor, of as much as was planned. */
  lemma UnderwayMore(t0: seq<Transfer>, t1: seq<Transfer>, offset: nat, size: nat,
                     chunk: nat, n: nat, k: nat, last: bool)
    requires n * chunk + k <= size && 0 < k <= chunk && (k < chunk ==> n * chunk + k == size)
    requires last <==> n * chunk + k == size
    requires Traced(t0, t1, offset, size, chunk, n)
    ensures Traced(t0, t1 + [Transfer(offset + n * chunk, k, last)], offset, size, chunk, n + 1)
    ensures k == chunk ==> n * chunk + k == (n + 1) * chunk
  {
    assert (n + 1) * chunk == n * chunk + chunk;
    var t2 := t1 + [Transfer(offset + n * chunk, k, last)];
    assert t2[|t0| + n] == Planned(offset, size, chunk, n);
  }

  /** A chunk is the whole range, or it fills WRAM behind the context words. */
  lemma ChunkFacts(wramBytes: nat, size: nat)
    requires CONTEXT_WORDS * WORD < wramBytes && wramBytes % WORD == 0 && 0 < size && size % 8 == 0
    ensures var chunk := ChunkBytes(wramBytes, size);
            && 0 < chunk <= size && chunk % WORD == 0 && CONTEXT_WORDS * WORD + chunk <= wramBytes
            && (chunk == size || CONTEXT_WORDS * WORD + chunk == wramBytes)
  {
  }

  /** Where an access stands after `n` transfers, which have moved `p` bytes: WRAM behind the buffer is
      untouched, the program waits to be resumed unless that was the last transfer, and exactly those bytes
      have been copied. */
  ghost predicate Underway(d: Dpu, buf: array<byte>, m0: seq<byte>, b0: seq<byte>, w0: seq<byte>, t0: seq<Transfer>,
                           offset: nat, size: nat, at: nat, store: bool, chunk: nat, n: nat, p: nat)
    reads d, buf
  {
    && CONTEXT_WORDS * WORD + chunk <= |d.wram| == |w0|
    && d.wram[CONTEXT_WORDS * WORD + chunk..] == w0[CONTEXT_WORDS * WORD + chunk..]
    && |d.mram| == |m0| && d.cursor == offset + p
    && p <= size && (d.suspended <==> p < size) && (d.suspended ==> d.Word(6) == chunk && d.Word(7) != 1)
    && Copied(d.mram, buf[..], m0, b0, offset, at, store, p)
    && Traced(t0, d.transfers, offset, size, chunk, n)
  }

  /** The first run, of a whole chunk, is the first of the planned transfers. */
  method Begin(d: Dpu, buf: array<byte>, offset: nat, size: nat, at: nat, store: bool, chunk: nat, last: bool)
    returns (status: Status)
    requires d.enabled && d.Loaded() && d.iram[DMA_ACCESS_1] == (if store then StoreDma else LoadDma)
    requires 0 < chunk <= size && chunk % WORD == 0 && at + size <= buf.Length && (last <==> chunk == size)
    requires CONTEXT_WORDS * WORD + chunk <= |d.wram| && offset < 0x1_0000_0000 && size < 0x1_0000_0000
    modifies d`wram, d`mram, d`cursor, d`suspended, d`transfers, d`faults, (if store then {} else {buf})
    ensures status == if d.faults == old(d.faults) then Ok else Internal
    ensures |d.wram| == |old(d.wram)| && |d.mram| == |old(d.mram)|
    ensures store ==> buf[..] == old(buf[..])
    ensures status == Ok ==> Underway(d, buf, old(d.mram), old(buf[..]), old(d.wram), old(d.transfers),
                                      offset, size, at, store, chunk, 1, chunk)
  {
    ghost var t0 := d.transfers;
    status := FirstTransfer(d, buf, at, chunk, store, offset, last);
    UnderwayMore(t0, t0, offset, size, chunk, 0, chunk, last);
  }

  /** One resumed run of `k` bytes takes an access one transfer further. */
  method Continue(d: Dpu, buf: array<byte>, offset: nat, size: nat, at: nat, store: bool, chunk: nat, p: nat, k: nat,
                  context: seq<nat>,
                  ghost m0: seq<byte>, ghost b0: seq<byte>, ghost w0: seq<byte>, ghost t0: seq<Transfer>, ghost n: nat)
    returns (status: Status)
    requires d.enabled && d.Loaded() && d.iram[DMA_ACCESS_1] == (if store then StoreDma else LoadDma)
    requires Underway(d, buf, m0, b0, w0, t0, offset, size, at, store, chunk, n, p) && p == n * chunk
    requires at + size <= buf.Length == |b0| && p + k <= size && 0 < k <= chunk && k % WORD == 0
    requires (k < chunk ==> p + k == size) && size < 0x1_0000_0000
    requires context == if p + k < size then [] else if k < chunk then [k, 1] else [1]
    modifies d`wram, d`mram, d`cursor, d`suspended, d`transfers, d`faults, (if store then {} else {buf})
    ensures status == if d.faults == old(d.faults) then Ok else Internal
    ensures |d.wram| == |old(d.wram)| && |d.mram| == |old(d.mram)|
    ensures store ==> buf[..] == old(buf[..])
    ensures status == Ok ==> Underway(d, buf, m0, b0, w0, t0, offset, size, at, store, chunk, n + 1, p + k)
  {
    ghost var t1, w1, m1, b1 := d.transfers, d.wram, d.mram, buf[..];
    status := NextTransfer(d, buf, at + p, k, store, context);
    if status != Ok { return; }
    CopiedMore(m0, m1, d.mram, b0, b1, buf[..], offset, at, store, p, k);
    UnderwayMore(t0, t1, offset, size, chunk, n, k, p + k == size);
    TailKept(w1, d.wram, CONTEXT_WORDS * WORD + k, CONTEXT_WORDS * WORD + chunk);
  }

  lemma NotYet(size: nat, chunk: nat, i: nat)
    requires 0 < chunk && i < size / chunk
    ensures (i + 1) * chunk == i * chunk + chunk <= size
    ensures i * chunk + chunk == size <==> i + 1 == size / chunk && size % chunk == 0
  {
    var q, r := size / chunk, size % chunk;
    assert size == q * chunk + r && (i + 1) * chunk == i * chunk + chunk;
    MulGap(i + 1, q, chunk);
  }

  lemma AllChunks(size: nat, chunk: nat)
    requires 0 < chunk
    ensures size / chunk * chunk + size % chunk == size
  {
  }

  lemma WholeWords(s: nat, c: nat, q: nat, r: nat)
    requires 4 * s == q * (4 * c) + r
    ensures r % 4 == 0
  {
    assert q * (4 * c) == 4 * (q * c);
  }

  lemma ChunkArithmetic(size: nat, chunk: nat, complete: nat, remaining: nat)
    requires 0 < chunk <= size && chunk % WORD == 0 && size % WORD == 0
    requires complete == size / chunk && remaining == size % chunk
    ensures 1 <= complete && complete * chunk + remaining == size && remaining < chunk && remaining % WORD == 0
    ensures complete == 1 && remaining == 0 <==> chunk == size
    ensures TransferCount(size, chunk) == if remaining == 0 then complete else complete + 1
  {
    AllChunks(size, chunk);
    MulGap(complete, 0, chunk);
    MulGap(2, complete, chunk);
    WholeWords(size / WORD, chunk / WORD, complete, remaining);
  }

  /** The loop over the whole chunks that follow the first one. */
  method WholeChunks(d: Dpu, buf: array<byte>, offset: nat, size: nat, at: nat, store: bool, chunk: nat, complete: nat,
                     remaining: nat,
                     ghost m0: seq<byte>, ghost b0: seq<byte>, ghost w0: seq<byte>, ghost t0: seq<Transfer>)
    returns (status: Status, ptrOffset: nat)
    requires d.enabled && d.Loaded() && d.iram[DMA_ACCESS_1] == (if store then StoreDma else LoadDma)
    requires 0 < chunk <= size && chunk % WORD == 0 && size < 0x1_0000_0000 && at + size <= buf.Length == |b0|
    requires complete == size / chunk && remaining == size % chunk && 1 <= complete
    requires Underway(d, buf, m0, b0, w0, t0, offset, size, at, store, chunk, 1, chunk)
    modifies d`wram, d`mram, d`cursor, d`suspended, d`transfers, d`faults, (if store then {} else {buf})
    ensures status == if d.faults == old(d.faults) then Ok else Internal
    ensures |d.wram| == |old(d.wram)| && |d.mram| == |old(d.mram)|
    ensures store ==> buf[..] == old(buf[..])
    ensures status == Ok ==> ptrOffset == complete * chunk
    ensures status == Ok ==> Underway(d, buf, m0, b0, w0, t0, offset, size, at, store, chunk, complete, ptrOffset)
  {
    hide Underway;
    status, ptrOffset := Ok, chunk;
    var i := 1;
    while i < complete
      invariant 1 <= i <= complete && ptrOffset == i * chunk && status == Ok
      invariant |d.wram| == |old(d.wram)| && |d.mram| == |old(d.mram)| && (store ==> buf[..] == old(buf[..]))
      invariant d.faults == old(d.faults)
      invariant Underway(d, buf, m0, b0, w0, t0, offset, size, at, store, chunk, i, ptrOffset)
    {
      NotYet(size, chunk, i);
      status := Continue(d, buf, offset, size, at, store, chunk, ptrOffset, chunk,
                         if i == complete - 1 && remaining == 0 then [1] else [], m0, b0, w0, t0, i);
      if status != Ok { return; }
      i, ptrOffset := i + 1, ptrOffset + chunk;
    }
  }

  /** The run for what is left behind the last whole chunk. */
  method Rest(d: Dpu, buf: array<byte>, offset: nat, size: nat, at: nat, store: bool, chunk: nat, complete: nat,
              remaining: nat,
              ptrOffset: nat, ghost m0: seq<byte>, ghost b0: seq<byte>, ghost w0: seq<byte>, ghost t0: seq<Transfer>)
    returns (status: Status)
    requires d.enabled && d.Loaded() && d.iram[DMA_ACCESS_1] == (if store then StoreDma else LoadDma)
    requires remaining < chunk && remaining % WORD == 0 && size < 0x1_0000_0000 && at + size <= buf.Length == |b0|
    requires ptrOffset == complete * chunk && ptrOffset + remaining == size
    requires Underway(d, buf, m0, b0, w0, t0, offset, size, at, store, chunk, complete, ptrOffset)
    modifies d`wram, d`mram, d`cursor, d`suspended, d`transfers, d`faults, (if store then {} else {buf})
    ensures status == if d.faults == old(d.faults) then Ok else Internal
    ensures |d.wram| == |old(d.wram)| && |d.mram| == |old(d.mram)|
    ensures store ==> buf[..] == old(buf[..])
    ensures status == Ok ==> Underway(d, buf, m0, b0, w0, t0, offset, size, at, store, chunk,
                                      if remaining == 0 then complete else complete + 1, size)
  {
    status := Ok;
    if remaining > 0 {
      status := Continue(d, buf, offset, size, at, store, chunk, ptrOffset, remaining, [remaining, 1], m0, b0, w0, t0,
                         complete);
    }
  }

  /** The boot loop: a fresh boot, then one resumed run for every further whole chunk, then one for the rest. */
  method RunTransfers(d: Dpu, offset: nat, size: nat, buf: array<byte>, at: nat, store: bool, chunk: nat)
    returns (status: Status)
    requires d.enabled && d.Loaded()
    requires d.iram[DMA_ACCESS_1] == (if store then StoreDma else LoadDma)
    requires 0 < chunk <= size && chunk % WORD == 0 && size % WORD == 0 && at + size <= buf.Length
    requires CONTEXT_WORDS * WORD + chunk <= |d.wram|
    requires offset < 0x1_0000_0000 && size < 0x1_0000_0000
    modifies d`wram, d`mram, d`cursor, d`suspended, d`transfers, d`faults, (if store then {} else {buf})
    ensures status == if d.faults == old(d.faults) then Ok else Internal
    ensures |d.wram| == |old(d.wram)| && |d.mram| == |old(d.mram)|
    ensures store ==> buf[..] == old(buf[..])
    ensures status == Ok ==> Underway(d, buf, old(d.mram), old(buf[..]), old(d.wram), old(d.transfers),
                                      offset, size, at, store, chunk, TransferCount(size, chunk), size)
  {
    ghost var m0, b0, w0, t0 := d.mram, buf[..], d.wram, d.transfers;
    var complete, remaining := size / chunk, size % chunk;
    ChunkArithmetic(size, chunk, complete, remaining);
    status := Begin(d, buf, offset, size, at, store, chunk, complete == 1 && remaining == 0);
    if status != Ok { return; }
    var ptrOffset;
    status, ptrOffset := WholeChunks(d, buf, offset, size, at, store, chunk, complete, remaining, m0, b0, w0, t0);
    if status != Ok { return; }
    status := Rest(d, buf, offset, size, at, store, chunk, complete, remaining, ptrOffset, m0, b0, w0, t0);
  }

  lemma SplicedFront<T>(s: seq<T>, x: seq<T>)
    requires |x| <= |s|
    ensures Splice(s, 0, x)[|x|..] == s[|x|..]
    ensures forall k | 0 <= k < |x| :: Splice(s, 0, x)[k] == x[k]
  {
  }

  lemma FrontRestored<T>(s: seq<T>, s': seq<T>, n: nat)
    requires |s'| == |s| && n <= |s| && s'[n..] == s[n..]
    ensures Splice(s', 0, s[..n]) == s
  {
    assert s == s[..n] + s[n..];
  }

  /** Saves what an access overwrites, loads its program, runs the transfers, and puts everything back. */
  method SaveRunRestore(d: Dpu, offset: nat, size: nat, buf: array<byte>, at: nat, store: bool,
                        patched: seq<Instruction>, saveWords: nat, chunk: nat) returns (status: Status)
    requires d.enabled && DMA_ACCESS_2 < |patched| <= |d.iram|
    requires patched[DMA_ACCESS_1] == patched[DMA_ACCESS_2] == (if store then StoreDma else LoadDma)
    requires 0 < chunk <= size && chunk % WORD == 0 && size % WORD == 0 && at + size <= buf.Length
    requires saveWords * WORD == CONTEXT_WORDS * WORD + chunk <= |d.wram|
    requires offset < 0x1_0000_0000 && size < 0x1_0000_0000
    modifies d, (if store then {} else {buf})
    ensures status == if d.faults == old(d.faults) then Ok else Internal
    ensures |d.mram| == |old(d.mram)| && |d.wram| == |old(d.wram)| && |d.iram| == |old(d.iram)|
    ensures store ==> buf[..] == old(buf[..])
    ensures status == Ok ==> d.iram == old(d.iram) && d.wram == old(d.wram)
    ensures status == Ok ==> Underway(d, buf, old(d.mram), old(buf[..]), old(d.wram), old(d.transfers),
                                      offset, size, at, store, chunk, TransferCount(size, chunk), size)
  {
    ghost var w0, i0 := d.wram, d.iram;
    var iramSave, wramSave;
    status, iramSave := d.CopyFromIram(|patched|);
    if status != Ok { return; }
    status, wramSave := d.CopyFromWram(0, saveWords);
    if status != Ok { return; }
    assert wramSave == w0[..CONTEXT_WORDS * WORD + chunk];
    status := d.CopyToIram(patched);
    if status != Ok { return; }
    SplicedFront(i0, patched);
    status := RunTransfers(d, offset, size, buf, at, store, chunk);
    if status != Ok { return; }
    status := Restore(d, i0, w0, iramSave, wramSave);
  }

  /** Puts the saved front parts of IRAM and WRAM back. */
  method Restore(d: Dpu, ghost i0: seq<Instruction>, ghost w0: seq<byte>, iramSave: seq<Instruction>,
                 wramSave: seq<byte>)
    returns (status: Status)
    requires d.enabled && |iramSave| <= |d.iram| == |i0| && iramSave == i0[..|iramSave|]
      && d.iram[|iramSave|..] == i0[|iramSave|..]
    requires |wramSave| % WORD == 0 && wramSave != []
    requires |wramSave| <= |d.wram| == |w0| && wramSave == w0[..|wramSave|] && d.wram[|wramSave|..] == w0[|wramSave|..]
    modifies d`iram, d`wram
    ensures status == Ok && d.iram == i0 && d.wram == w0
  {
    FrontRestored(i0, d.iram, |iramSave|);
    FrontRestored(w0, d.wram, |wramSave|);
    status := d.CopyToIram(iramSave);
    if status != Ok { return; }
    status := d.CopyToWram(0, wramSave);
  }

  /** Moves `size` bytes between MRAM at `offset` and the buffer at `at`.  For an enabled DPU this fails only if a run
      of the program has faulted, and not at all if there is nothing to move.  On success the bytes, and only they,
      have been copied, in as many transfers as it takes, the last of which stops the program; and the
      DPU's instruction and working memories are as they were. */
  method AccessMram(d: Dpu, offset: nat, size: nat, buf: array<byte>, at: nat, store: bool, program: seq<Instruction>)
    returns (status: Status)
    requires Accessible(d, program, offset, size) && at + size <= buf.Length
    modifies d, (if store then {} else {buf})
    ensures |d.iram| == |old(d.iram)| && |d.wram| == |old(d.wram)| && |d.mram| == |old(d.mram)|
    ensures store ==> buf[..] == old(buf[..])
    ensures status == if !d.enabled then DpuDisabled else if d.faults == old(d.faults) then Ok else Internal
    ensures !d.enabled || size == 0 ==> unchanged(d) && buf[..] == old(buf[..])
    ensures status == Ok ==> d.iram == old(d.iram) && d.wram == old(d.wram)
    ensures status == Ok && size == 0 ==>
              d.mram == old(d.mram) && buf[..] == old(buf[..]) && d.transfers == old(d.transfers)
    ensures status == Ok && 0 < size ==> (
              var chunk := ChunkBytes(|d.wram|, size);
              && !d.suspended && 0 < chunk
              && Copied(d.mram, buf[..], old(d.mram), old(buf[..]), offset, at, store, size)
              && Traced(old(d.transfers), d.transfers, offset, size, chunk, TransferCount(size, chunk)))
  {
    if !d.enabled { return DpuDisabled; }
    if size == 0 { return Ok; }
    var dma := if store then StoreDma else LoadDma;
    var patched := program[DMA_ACCESS_1 := dma][DMA_ACCESS_2 := dma];
    var wramWords := |d.wram| / WORD;
    var saveWords := if size / WORD + CONTEXT_WORDS >= wramWords then wramWords else size / WORD + CONTEXT_WORDS;
    ChunkFacts(|d.wram|, size);
    status := SaveRunRestore(d, offset, size, buf, at, store, patched, saveWords, (saveWords - CONTEXT_WORDS) * WORD);
  }
}
