/** A DPU as the host sees it: its memories, and the program that moves MRAM contents through WRAM.

    The code of that program is not in the repository.  `Boot` states what is assumed about it. */
module DpuDevice {
  import opened Bytes

  datatype Status = Ok | DpuDisabled | InvalidWramAccess | InvalidIramAccess | InvalidMramAccess | MramBusy | Internal

  /** An instruction is a load from MRAM, a store to MRAM, or something else. */
  datatype Instruction = LoadDma | StoreDma | Other(code: nat)

  /** One run of the program: where in MRAM it began, how much it moved, and whether it was told that this was
      the last transfer. */
  datatype Transfer = Transfer(cursor: nat, size: nat, last: bool)

  const WORD := 4

  /** The two patched instructions. */
  const DMA_ACCESS_1 := 11
  const DMA_ACCESS_2 := 19

  /** The words in front of the transfer buffer; the last three hold the MRAM offset, the transfer size and the
      last-transfer marker. */
  const CONTEXT_WORDS := 8

  class Dpu {
    const enabled: bool
    var iram: seq<Instruction>
    var wram: seq<byte>
    var mram: seq<byte>
    var cursor: nat
    var suspended: bool
    ghost var transfers: seq<Transfer>
    ghost var faults: nat

    constructor (enabled: bool, iram: seq<Instruction>, wram: seq<byte>, mram: seq<byte>)
      ensures this.enabled == enabled && this.iram == iram && this.wram == wram && this.mram == mram
      ensures !suspended && transfers == [] && faults == 0
    {
      this.enabled := enabled;
      this.iram, this.wram, this.mram := iram, wram, mram;
      cursor, suspended, transfers, faults := 0, false, [], 0;
    }

    predicate WramInRange(word: nat, words: nat)
      reads this`wram
    {
      words == 0 || (word + words) * WORD <= |wram|
    }

    method CopyToWram(word: nat, source: seq<byte>) returns (status: Status)
      requires |source| % WORD == 0
      modifies this`wram
      ensures status == if !enabled then DpuDisabled
                        else if old(WramInRange(word, |source| / WORD)) then Ok else InvalidWramAccess
      ensures |wram| == |old(wram)|
      ensures wram == if status == Ok && source != [] then Splice(old(wram), word * WORD, source) else old(wram)
    {
      if !enabled { return DpuDisabled; }
      if !WramInRange(word, |source| / WORD) { return InvalidWramAccess; }
      if source != [] {
        wram := Splice(wram, word * WORD, source);
      }
      return Ok;
    }

    method CopyFromWram(word: nat, words: nat) returns (status: Status, data: seq<byte>)
      ensures status == if !enabled then DpuDisabled else if WramInRange(word, words) then Ok else InvalidWramAccess
      ensures status == Ok && 0 < words ==> data == wram[word * WORD..(word + words) * WORD]
      ensures status != Ok || words == 0 ==> data == []
    {
      if !enabled { return DpuDisabled, []; }
      if !WramInRange(word, words) { return InvalidWramAccess, []; }
      if words == 0 { return Ok, []; }
      return Ok, wram[word * WORD..(word + words) * WORD];
    }

    method CopyToIram(source: seq<Instruction>) returns (status: Status)
      modifies this`iram
      ensures status == if !enabled then DpuDisabled else if |source| <= |old(iram)| then Ok else InvalidIramAccess
      ensures |iram| == |old(iram)|
      ensures iram == if status == Ok then Splice(old(iram), 0, source) else old(iram)
    {
      if !enabled { return DpuDisabled; }
      if |source| > |iram| { return InvalidIramAccess; }
      iram := Splice(iram, 0, source);
      return Ok;
    }

    method CopyFromIram(n: nat) returns (status: Status, data: seq<Instruction>)
      ensures status == if !enabled then DpuDisabled else if n <= |iram| then Ok else InvalidIramAccess
      ensures data == if status == Ok then iram[..n] else []
    {
      if !enabled { return DpuDisabled, []; }
      if n > |iram| { return InvalidIramAccess, []; }
      return Ok, iram[..n];
    }

    /** The number in a WRAM word. */
    function Word(w: nat): nat
      requires (w + 1) * WORD <= |wram|
      reads this`wram
    {
      Decode(wram[w * WORD..(w + 1) * WORD])
    }

    /** The program can run: it is loaded, and both of its DMA instructions go the same way. */
    predicate Loaded()
      reads this`iram, this`wram
    {
      && CONTEXT_WORDS * WORD <= |wram| && DMA_ACCESS_2 < |iram|
      && !iram[DMA_ACCESS_1].Other? && iram[DMA_ACCESS_1] == iram[DMA_ACCESS_2]
    }

    /** Boots the program, or resumes it, and waits until it stops: the assumed contract of the on-DPU code.  A
        fresh boot takes the cursor from word 5.  Every run moves as many bytes as word 6 says between the
        buffer behind the context words and MRAM at the cursor, advances the cursor, and stays resumable
        unless word 7 marks the last transfer.  Words 0 to 4 are scratch.  A run outside the memories faults,
        and a run may fault for other reasons; then nothing is known about WRAM and MRAM, and the fault is
        counted. */
    method Boot(resume: bool) returns (fault: bool)
      requires Loaded() && (resume ==> suspended)
      modifies this`wram, this`mram, this`cursor, this`suspended, this`transfers, this`faults
      ensures faults == old(faults) + if fault then 1 else 0
      ensures var start, n := if resume then old(cursor) else old(Word(5)), old(Word(6));
              var buffer := CONTEXT_WORDS * WORD;
              && |wram| == |old(wram)| && |mram| == |old(mram)|
              && (!fault ==>
                    && start + n <= |mram| && buffer + n <= |wram|
                    && wram[5 * WORD..buffer] == old(wram)[5 * WORD..buffer]
                    && wram[buffer + n..] == old(wram)[buffer + n..]
                    && cursor == start + n
                    && suspended == (old(Word(7)) != 1)
                    && transfers == old(transfers) + [Transfer(start, n, old(Word(7)) == 1)]
                    && if iram[DMA_ACCESS_1] == StoreDma
                       then wram[buffer..] == old(wram)[buffer..]
                         && mram == Splice(old(mram), start, old(wram)[buffer..buffer + n])
                       else mram == old(mram) && wram[buffer..buffer + n] == old(mram)[start..start + n])
    {
      var start, n, last := if resume then cursor else Word(5), Word(6), Word(7) == 1;
      var buffer := CONTEXT_WORDS * WORD;
      fault := *;
      if start + n > |mram| || buffer + n > |wram| {
        fault := true;
      }
      if fault {
        faults := faults + 1;
      }
      if !fault {
        if iram[DMA_ACCESS_1] == StoreDma {
          mram := Splice(mram, start, wram[buffer..buffer + n]);
        } else {
          Spliced(wram, buffer, mram[start..start + n]);
          wram := Splice(wram, buffer, mram[start..start + n]);
        }
        cursor, suspended := start + n, !last;
        transfers := transfers + [Transfer(start, n, last)];
      }
    }
  }
}
