/** Checkpoints of a DPU: writing an execution context to a byte buffer, and reading it back. */
module Checkpoint {
  import opened Arithmetic
  import opened Bytes

  const MAGIC := 0xfabddbaf
  const CHIP_VERSION := 18
  const VERSION := 3

  type u32 = x: nat | x < WIDTH32

  datatype Option<T> = None | Some(value: T)

  datatype Status = Ok | InvalidFile | InvalidBufferSize

  /** The sizes in the header of an image; IRAM is counted in instructions of 8 bytes, WRAM in words of 4. */
  datatype Info = Info(threads: u32, registers: u32, atomicBits: u32, iramSize: u32, mramSize: u32, wramSize: u32)

  /** The sizes as a context keeps them: that of IRAM is a 16-bit field. */
  type ContextInfo = info: Info | info.iramSize < WIDTH16 witness Info(0, 0, 0, 0, 0, 0)

  /** What a context keeps of the sizes in a header. */
  function Kept(info: Info): (r: ContextInfo) {
    info.(iramSize := info.iramSize % WIDTH16)
  }

  /** An execution context.  Arrays are the bytes that they occupy; a flag occupies one byte. */
  datatype Context = Context(
    info: ContextInfo, iram: Option<seq<byte>>, mram: Option<seq<byte>>, wram: Option<seq<byte>>,
    registers: seq<byte>, pcs: seq<byte>, atomics: seq<byte>, zeroFlags: seq<byte>, carryFlags: seq<byte>,
    running: byte, scheduling: seq<byte>,
    bkpFault: byte, dmaFault: byte, memFault: byte, bkpThread: byte, dmaThread: byte, memThread: byte, bkpId: u32)

  // ---------------------------------------------------------------- pieces of a buffer

  function Flatten(parts: seq<seq<byte>>): seq<byte> {
    if parts == [] then [] else parts[0] + Flatten(parts[1..])
  }

  function Lengths(parts: seq<seq<byte>>): (r: seq<nat>)
    ensures |r| == |parts|
  {
    seq(|parts|, i requires 0 <= i < |parts| => |parts[i]|)
  }

  function Sum(sizes: seq<nat>): nat {
    if sizes == [] then 0 else sizes[0] + Sum(sizes[1..])
  }

  /** The front of `s` cut into pieces of the given sizes, if `s` is long enough. */
  function Split(s: seq<byte>, sizes: seq<nat>): (r: Option<seq<seq<byte>>>)
    decreases |sizes|
  {
    if sizes == [] then Some([])
    else if |s| < sizes[0] then None
    else
      match Split(s[sizes[0]..], sizes[1..])
      case None => None
      case Some(parts) => Some([s[..sizes[0]]] + parts)
  }

  lemma {:induction false} FlattenLength(parts: seq<seq<byte>>)
    ensures |Flatten(parts)| == Sum(Lengths(parts))
  {
    if parts != [] {
      FlattenLength(parts[1..]);
      assert Lengths(parts)[1..] == Lengths(parts[1..]);
    }
  }

  lemma {:induction false} FlattenConcat(p: seq<seq<byte>>, q: seq<seq<byte>>)
    ensures Flatten(p + q) == Flatten(p) + Flatten(q)
  {
    if p == [] {
      assert p + q == q;
    } else {
      FlattenConcat(p[1..], q);
      assert (p + q)[1..] == p[1..] + q && (p + q)[0] == p[0];
      assert p[0] + (Flatten(p[1..]) + Flatten(q)) == (p[0] + Flatten(p[1..])) + Flatten(q);
    }
  }

  /** Pieces that have been put together come apart again, whatever follows them. */
  lemma {:induction false} SplitFlatten(parts: seq<seq<byte>>, rest: seq<byte>)
    ensures Split(Flatten(parts) + rest, Lengths(parts)) == Some(parts)
    decreases |parts|
  {
    if parts != [] {
      var s := Flatten(parts) + rest;
      assert s[|parts[0]|..] == Flatten(parts[1..]) + rest;
      assert s[..|parts[0]|] == parts[0];
      assert Lengths(parts)[1..] == Lengths(parts[1..]) && Lengths(parts)[0] == |parts[0]|;
      SplitFlatten(parts[1..], rest);
      assert [parts[0]] + parts[1..] == parts;
    }
  }

  /** What comes apart was put together of those pieces. */
  lemma {:induction false} FlattenSplit(s: seq<byte>, sizes: seq<nat>)
    ensures Split(s, sizes).None? <==> |s| < Sum(sizes)
    ensures Split(s, sizes).Some? ==>
              var parts := Split(s, sizes).value;
              Lengths(parts) == sizes && Flatten(parts) == s[..Sum(sizes)]
    decreases |sizes|
  {
    if sizes != [] && sizes[0] <= |s| {
      FlattenSplit(s[sizes[0]..], sizes[1..]);
      if Split(s, sizes).Some? {
        var parts := Split(s, sizes).value;
        assert parts[1..] == Split(s[sizes[0]..], sizes[1..]).value;
        assert s[..sizes[0]] + s[sizes[0]..][..Sum(sizes[1..])] == s[..Sum(sizes)];
      }
    }
  }

  // ---------------------------------------------------------------- the format

  /** What a 32-bit size variable holds. */
  function Size32(n: nat): (r: u32) {
    n % WIDTH32
  }

  function RegisterBytes(info: Info): nat {
    4 * Times(info.threads, info.registers)
  }

  function Word(x: nat): (bs: seq<byte>)
    ensures |bs| == 4
  {
    Encode(4, x)
  }

  const HEADER_SIZES: seq<nat> := [4, 4, 4, 4, 4, 4, 4, 4, 4, 4]

  /** The ten words in front: signature, versions, signature again, and the sizes. */
  function HeaderParts(info: Info): seq<seq<byte>> {
    [Word(MAGIC), Word(CHIP_VERSION), Word(VERSION), Word(MAGIC), Word(info.threads), Word(info.registers),
     Word(info.atomicBits), Word(info.iramSize), Word(info.mramSize), Word(info.wramSize)]
  }

  /** The sizes of what follows, as 32-bit variables hold them. */
  function BodySizes(info: Info): (r: seq<nat>)
    ensures |r| == 17
  {
    [Size32(8 * info.iramSize), info.mramSize, Size32(4 * info.wramSize), Size32(RegisterBytes(info)),
     Size32(2 * info.threads), info.atomicBits, info.threads, info.threads, 1, info.threads, 1, 1, 1, 1, 1, 1, 4]
  }

  /** Whether no size variable wraps around. */
  predicate Exact(info: Info) {
    8 * info.iramSize < WIDTH32 && 4 * info.wramSize < WIDTH32 && RegisterBytes(info) < WIDTH32
      && 2 * info.threads < WIDTH32
  }

  predicate MemoryMatches(memory: Option<seq<byte>>, bytes: nat) {
    memory.Some? ==> |memory.value| == bytes
  }

  predicate MemoryCovers(memory: Option<seq<byte>>, bytes: nat) {
    memory.Some? ==> bytes <= |memory.value|
  }

  /** The arrays that the serializer copies from hold at least what the size variables say: that is all it needs. */
  predicate Backed(c: Context) {
    && MemoryCovers(c.iram, Size32(8 * c.info.iramSize)) && MemoryCovers(c.mram, c.info.mramSize)
    && MemoryCovers(c.wram, Size32(4 * c.info.wramSize))
    && Size32(RegisterBytes(c.info)) <= |c.registers| && Size32(2 * c.info.threads) <= |c.pcs|
    && |c.atomics| == c.info.atomicBits && |c.zeroFlags| == |c.carryFlags| == |c.scheduling| == c.info.threads
  }

  /** Every array of the context is as long as its sizes say. */
  predicate WellFormed(c: Context) {
    && MemoryMatches(c.iram, 8 * c.info.iramSize) && MemoryMatches(c.mram, c.info.mramSize)
    && MemoryMatches(c.wram, 4 * c.info.wramSize)
    && |c.registers| == RegisterBytes(c.info) && |c.pcs| == 2 * c.info.threads && |c.atomics| == c.info.atomicBits
    && |c.zeroFlags| == |c.carryFlags| == |c.scheduling| == c.info.threads
  }

  /** The sizes that are written: those of absent memories are 0. */
  function WrittenInfo(c: Context): ContextInfo {
    c.info.(iramSize := if c.iram.None? then 0 else c.info.iramSize,
            mramSize := if c.mram.None? then 0 else c.info.mramSize,
            wramSize := if c.wram.None? then 0 else c.info.wramSize)
  }

  function Contents(memory: Option<seq<byte>>): seq<byte> {
    match memory case None => [] case Some(bytes) => bytes
  }

  function BodyParts(c: Context): (r: seq<seq<byte>>)
    requires Backed(c)
    ensures |r| == 17
  {
    var sizes := BodySizes(WrittenInfo(c));
    [Contents(c.iram)[..sizes[0]], Contents(c.mram)[..sizes[1]], Contents(c.wram)[..sizes[2]], c.registers[..sizes[3]],
     c.pcs[..sizes[4]],
     c.atomics, c.zeroFlags, c.carryFlags, [c.running], c.scheduling,
     [c.bkpFault], [c.dmaFault], [c.memFault], [c.bkpThread], [c.dmaThread], [c.memThread], Word(c.bkpId)]
  }

  function Parts(c: Context): seq<seq<byte>>
    requires Backed(c)
  {
    HeaderParts(WrittenInfo(c)) + BodyParts(c)
  }

  /** The image of a context. */
  function Image(c: Context): seq<byte>
    requires Backed(c)
  {
    Flatten(Parts(c))
  }

  lemma RegistersKept(c: Context)
    ensures RegisterBytes(WrittenInfo(c)) == RegisterBytes(c.info)
  {
  }

  lemma SizesAgree(c: Context)
    requires Backed(c)
    ensures var z := BodySizes(WrittenInfo(c));
            && z[0] == (if c.iram.None? then 0 else Size32(8 * c.info.iramSize)) <= |Contents(c.iram)|
            && z[1] == (if c.mram.None? then 0 else c.info.mramSize) <= |Contents(c.mram)|
            && z[2] == (if c.wram.None? then 0 else Size32(4 * c.info.wramSize)) <= |Contents(c.wram)|
            && z[3] == Size32(RegisterBytes(c.info)) <= |c.registers| && z[4] == Size32(2 * c.info.threads) <= |c.pcs|
    ensures |HeaderParts(WrittenInfo(c))| == 10
  {
    hide RegisterBytes;
    RegistersKept(c);
  }

  // ---------------------------------------------------------------- reading, by reference

  function InfoOf(words: seq<seq<byte>>): Option<Info>
    requires |words| == 10 && forall w | w in words :: |w| == 4
  {
    if Decode(words[0]) == MAGIC && Decode(words[1]) == CHIP_VERSION && Decode(words[2]) == VERSION
      && Decode(words[3]) == MAGIC then
      FourBytes(words[4]);
      FourBytes(words[5]);
      FourBytes(words[6]);
      FourBytes(words[7]);
      FourBytes(words[8]);
      FourBytes(words[9]);
      Some(Info(Decode(words[4]), Decode(words[5]), Decode(words[6]), Decode(words[7]), Decode(words[8]),
                Decode(words[9])))
    else None
  }

  lemma FourBytes(bs: seq<byte>)
    requires |bs| == 4
    ensures Decode(bs) < WIDTH32 && Word(Decode(bs)) == bs
  {
    WordSize();
    EncodeDecode(bs);
  }

  lemma WordDecodes(x: u32)
    ensures Decode(Word(x)) == x
  {
    WordSize();
    DecodeEncode(4, x);
  }

  /** Bytes read into a zeroed array of `n` bytes. */
  function Padded(bs: seq<byte>, n: nat): (r: seq<byte>)
    ensures |bs| <= n ==> |r| == n
    ensures |bs| == n ==> r == bs
  {
    if |bs| >= n then bs else bs + seq(n - |bs|, _ => 0)
  }

  function Present(bs: seq<byte>, size: nat): Option<seq<byte>> {
    if size == 0 then None else Some(bs)
  }

  lemma KeptInfo(info: Info)
    requires info.iramSize < WIDTH16
    ensures Kept(info) == info
  {
  }

  /** The context that is read from a body `p` behind a header `info`.  The memories are read with the sizes of the
      header, also where the context does not keep them. */
  function ContextOf(info: Info, p: seq<seq<byte>>): (c: Context)
    requires Lengths(p) == BodySizes(info)
  {
    LengthsAt(p, BodySizes(info));
    FourBytes(p[16]);
    Context(Kept(info), Present(p[0], info.iramSize), Present(p[1], info.mramSize), Present(p[2], info.wramSize),
            Padded(p[3], 4 * Size32(Times(info.threads, info.registers))), Padded(p[4], 2 * info.threads), p[5], p[6],
            p[7],
            p[8][0], p[9], p[10][0], p[11][0], p[12][0], p[13][0], p[14][0], p[15][0], Decode(p[16]))
  }

  /** What is left of a context in its image: a memory of size 0 reads back as an absent one, and arrays end where
      the size variables say, padded with zeros to the length for which the reader allocates them. */
  function ReadBack(c: Context): Context
    requires Backed(c)
  {
    var info, n := WrittenInfo(c), c.info.threads;
    SizesAgree(c);
    c.(info := info,
       iram := Present(Contents(c.iram)[..Size32(8 * info.iramSize)], info.iramSize),
       mram := Present(Contents(c.mram)[..info.mramSize], info.mramSize),
       wram := Present(Contents(c.wram)[..Size32(4 * info.wramSize)], info.wramSize),
       registers := Padded(c.registers[..Size32(RegisterBytes(c.info))], 4 * Size32(Times(n, c.info.registers))),
       pcs := Padded(c.pcs[..Size32(2 * n)], 2 * n))
  }

  /** The context without its empty memories. */
  function Normalised(c: Context): Context {
    var info := WrittenInfo(c);
    c.(info := info,
       iram := if info.iramSize == 0 then None else c.iram,
       mram := if info.mramSize == 0 then None else c.mram,
       wram := if info.wramSize == 0 then None else c.wram)
  }

  lemma LengthsAt(p: seq<seq<byte>>, sizes: seq<nat>)
    requires Lengths(p) == sizes
    ensures |p| == |sizes| && forall i | 0 <= i < |p| :: |p[i]| == sizes[i]
  {
    forall i | 0 <= i < |p|
      ensures |p[i]| == sizes[i]
    {
      assert Lengths(p)[i] == |p[i]|;
    }
  }

  lemma ContextParts(info: Info, p: seq<seq<byte>>)
    requires Lengths(p) == BodySizes(info)
    ensures |p| == 17 && |p[8]| == |p[10]| == |p[11]| == |p[12]| == |p[13]| == |p[14]| == |p[15]| == 1
    ensures |p[16]| == 4 && Decode(p[16]) < WIDTH32
    ensures ContextOf(info, p) ==
              Context(Kept(info), Present(p[0], info.iramSize), Present(p[1], info.mramSize),
                      Present(p[2], info.wramSize),
                      Padded(p[3], 4 * Size32(Times(info.threads, info.registers))), Padded(p[4], 2 * info.threads),
                      p[5], p[6], p[7],
                      p[8][0], p[9], p[10][0], p[11][0], p[12][0], p[13][0], p[14][0], p[15][0], Decode(p[16]))
  {
    LengthsAt(p, BodySizes(info));
    FourBytes(p[16]);
  }

  function ParseHeader(s: seq<byte>): Option<Info> {
    match Split(s, HEADER_SIZES)
    case None => None
    case Some(words) =>
      FlattenSplit(s, HEADER_SIZES);
      LengthsAt(words, HEADER_SIZES);
      InfoOf(words)
  }

  /** What an image says, if it is one; bytes behind it do not matter. */
  function Parse(s: seq<byte>): Option<Context> {
    match ParseHeader(s)
    case None => None
    case Some(info) =>
      FlattenSplit(s, HEADER_SIZES);
      match Split(s[40..], BodySizes(info))
      case None => None
      case Some(parts) =>
        FlattenSplit(s[40..], BodySizes(info));
        Some(ContextOf(info, parts))
  }

  // ---------------------------------------------------------------- the size function

  /** The number of bytes that are needed, computed with 32-bit variables. */
  function SerializedSize(c: Context): u32 {
    var info := c.info;
    var iram := if c.iram.None? then 0 else Size32(8 * info.iramSize);
    var mram := if c.mram.None? then 0 else info.mramSize;
    var wram := if c.wram.None? then 0 else Size32(4 * info.wramSize);
    Size32(40 + iram + mram + wram + Size32(RegisterBytes(info)) + Size32(2 * info.threads) + info.atomicBits
           + info.threads + info.threads + 1 + info.threads + 10)
  }

  lemma PartsHaveSizes(c: Context)
    requires Backed(c)
    ensures Lengths(HeaderParts(WrittenInfo(c))) == HEADER_SIZES
    ensures Lengths(BodyParts(c)) == BodySizes(WrittenInfo(c))
    ensures |Image(c)| == 40 + Sum(BodySizes(WrittenInfo(c)))
  {
    HeaderHasSizes(WrittenInfo(c));
    BodyHasSizes(c);
    hide Word, Size32, RegisterBytes, HeaderParts, BodyParts, BodySizes, WrittenInfo, WellFormed;
    FlattenConcat(HeaderParts(WrittenInfo(c)), BodyParts(c));
    FlattenLength(HeaderParts(WrittenInfo(c)));
    FlattenLength(BodyParts(c));
    SumOfTen();
  }

  lemma AbsentIsNothing(n: nat)
    ensures Size32(0) == 0 && Size32(n) == n % WIDTH32
  {
  }

  lemma HeaderHasSizes(info: Info)
    ensures Lengths(HeaderParts(info)) == HEADER_SIZES
  {
    hide Word;
  }

  lemma BodyHasSizes(c: Context)
    requires Backed(c)
    ensures Lengths(BodyParts(c)) == BodySizes(WrittenInfo(c))
  {
    hide Word, RegisterBytes;
    RegistersKept(c);
  }

  lemma SumOfTen()
    ensures Sum(HEADER_SIZES) == 40
  {
    Sum5(4, 4, 4, 4, 4, [4, 4, 4, 4, 4]);
    Sum5(4, 4, 4, 4, 4, []);
    assert HEADER_SIZES == [4, 4, 4, 4, 4] + [4, 4, 4, 4, 4];
    assert [4, 4, 4, 4, 4] == [4, 4, 4, 4, 4] + [];
    NothingSums();
  }

  lemma SumCons(a: nat, rest: seq<nat>)
    ensures Sum([a] + rest) == a + Sum(rest)
  {
    assert ([a] + rest)[1..] == rest;
  }

  lemma Sum5(a: nat, b: nat, c: nat, d: nat, e: nat, rest: seq<nat>)
    ensures Sum([a, b, c, d, e] + rest) == a + b + c + d + e + Sum(rest)
  {
    hide Sum;
    SumCons(e, rest);
    SumCons(d, [e] + rest);
    SumCons(c, [d] + ([e] + rest));
    SumCons(b, [c] + ([d] + ([e] + rest)));
    SumCons(a, [b] + ([c] + ([d] + ([e] + rest))));
    assert [a, b, c, d, e] + rest == [a] + ([b] + ([c] + ([d] + ([e] + rest))));
  }

  lemma BodySum(z: seq<nat>)
    requires |z| == 17
    ensures Sum(z) == z[0] + z[1] + z[2] + z[3] + z[4] + z[5] + z[6] + z[7] + z[8] + z[9] + z[10] + z[11] + z[12]
        + z[13] + z[14] + z[15] + z[16]
  {
    hide Sum;
    Sum5(z[0], z[1], z[2], z[3], z[4], z[5..]);
    assert z == [z[0], z[1], z[2], z[3], z[4]] + z[5..];
    Sum5(z[5], z[6], z[7], z[8], z[9], z[10..]);
    assert z[5..] == [z[5], z[6], z[7], z[8], z[9]] + z[10..];
    Sum5(z[10], z[11], z[12], z[13], z[14], z[15..]);
    assert z[10..] == [z[10], z[11], z[12], z[13], z[14]] + z[15..];
    SumCons(z[15], [z[16]]);
    SumCons(z[16], []);
    NothingSums();
    assert z[15..] == [z[15]] + [z[16]] && [z[16]] == [z[16]] + [];
  }

  lemma NothingSums()
    ensures Sum([]) == 0
  {
  }

  /** The size is the number of bytes of the image as far as 32 bits can hold it, so it is right exactly if the
      image is no longer than 32 bits can say. */
  lemma SizeIsLength(c: Context)
    requires Backed(c)
    ensures SerializedSize(c) == |Image(c)| % WIDTH32
    ensures SerializedSize(c) == |Image(c)| <==> |Image(c)| < WIDTH32
  {
    hide Image, RegisterBytes, Sum, Size32;
    PartsHaveSizes(c);
    BodySum(BodySizes(WrittenInfo(c)));
    RegistersKept(c);
    AbsentIsNothing(|Image(c)|);
  }

  // ---------------------------------------------------------------- round trips

  lemma HeaderReads(info: Info, rest: seq<byte>)
    ensures ParseHeader(Flatten(HeaderParts(info)) + rest) == Some(info)
    ensures |Flatten(HeaderParts(info))| == 40
  {
    var h := HeaderParts(info);
    HeaderHasSizes(info);
    SplitFlatten(h, rest);
    FlattenLength(h);
    hide Word, Split, Flatten;
    SumOfTen();
    WordDecodes(MAGIC);
    WordDecodes(CHIP_VERSION);
    WordDecodes(VERSION);
    WordDecodes(info.threads);
    WordDecodes(info.registers);
    WordDecodes(info.atomicBits);
    WordDecodes(info.iramSize);
    WordDecodes(info.mramSize);
    WordDecodes(info.wramSize);
  }

  /** Every image reads back, whatever follows it. */
  lemma ImageReadsBack(c: Context, rest: seq<byte>)
    requires Backed(c)
    ensures Parse(Image(c) + rest) == Some(ReadBack(c))
  {
    hide Word, RegisterBytes, HeaderParts, BodyParts, BodySizes, WrittenInfo, Backed, ParseHeader, ContextOf;
    hide Flatten, Split, ReadBack;
    var info, body := WrittenInfo(c), BodyParts(c);
    var s := Image(c) + rest;
    FlattenConcat(HeaderParts(info), body);
    assert s == Flatten(HeaderParts(info)) + (Flatten(body) + rest);
    HeaderReads(info, Flatten(body) + rest);
    assert s[40..] == Flatten(body) + rest;
    PartsHaveSizes(c);
    SplitFlatten(body, rest);
    ContextReads(c);
  }

  lemma BodyIs(c: Context)
    requires Backed(c)
    ensures var b, w := BodyParts(c), WrittenInfo(c);
            && Size32(8 * w.iramSize) <= |Contents(c.iram)| && b[0] == Contents(c.iram)[..Size32(8 * w.iramSize)]
            && w.mramSize <= |Contents(c.mram)| && b[1] == Contents(c.mram)[..w.mramSize]
            && Size32(4 * w.wramSize) <= |Contents(c.wram)| && b[2] == Contents(c.wram)[..Size32(4 * w.wramSize)]
            && b[3] == c.registers[..Size32(RegisterBytes(c.info))] && b[4] == c.pcs[..Size32(2 * c.info.threads)]
            && b[5..] == [c.atomics, c.zeroFlags, c.carryFlags, [c.running], c.scheduling, [c.bkpFault], [c.dmaFault],
                          [c.memFault], [c.bkpThread], [c.dmaThread], [c.memThread], Word(c.bkpId)]
  {
    SizesAgree(c);
    RegistersKept(c);
    hide Word, RegisterBytes, Size32, WrittenInfo, Backed, Contents;
  }

  lemma ContextReads(c: Context)
    requires Backed(c)
    ensures Lengths(BodyParts(c)) == BodySizes(WrittenInfo(c))
    ensures ContextOf(WrittenInfo(c), BodyParts(c)) == ReadBack(c)
  {
    BodyHasSizes(c);
    BodyIs(c);
    KeptInfo(WrittenInfo(c));
    ContextParts(WrittenInfo(c), BodyParts(c));
    WordDecodes(c.bkpId);
    hide Word, Lengths, Times, Present, Padded, Size32, RegisterBytes, Backed, ContextOf, BodyParts, BodySizes;
    hide Contents, Kept;
    var b := BodyParts(c);
    assert b[5] == b[5..][0] && b[6] == b[5..][1] && b[7] == b[5..][2] && b[8] == b[5..][3] && b[9] == b[5..][4];
    assert b[10] == b[5..][5] && b[11] == b[5..][6] && b[12] == b[5..][7] && b[13] == b[5..][8] && b[14] == b[5..][9];
    assert b[15] == b[5..][10] && b[16] == b[5..][11];
  }

  /** If the arrays are as long as the sizes say, and no size variable of what is written wraps around, the context
      itself comes back, without its empty memories. */
  lemma ParseImage(c: Context, rest: seq<byte>)
    requires WellFormed(c) && Exact(WrittenInfo(c))
    ensures Backed(c) && Parse(Image(c) + rest) == Some(Normalised(c))
  {
    ExactReadsBack(c);
    hide *;
    ImageReadsBack(c, rest);
  }

  lemma ExactReadsBack(c: Context)
    requires WellFormed(c) && Exact(WrittenInfo(c))
    ensures Backed(c) && ReadBack(c) == Normalised(c)
  {
    WellFormedIsBacked(c);
    RegistersKept(c);
    var n, r, w := c.info.threads, c.info.registers, WrittenInfo(c);
    MemoryReads(c.iram, 8 * w.iramSize, w.iramSize);
    MemoryReads(c.mram, w.mramSize, w.mramSize);
    MemoryReads(c.wram, 4 * w.wramSize, w.wramSize);
    SmallSizes(8 * w.iramSize);
    SmallSizes(4 * w.wramSize);
    SmallSizes(RegisterBytes(c.info));
    SmallSizes(2 * n);
    assert 4 * Times(n, r) == RegisterBytes(c.info);
    hide Times, Present, Size32, RegisterBytes;
    SmallSizes(Times(n, r));
    assert c.registers[..|c.registers|] == c.registers && c.pcs[..|c.pcs|] == c.pcs;
  }

  /** A memory as it is read back. */
  lemma MemoryReads(memory: Option<seq<byte>>, bytes: nat, size: nat)
    requires |Contents(memory)| == bytes && (bytes == 0 <==> size == 0)
    ensures Present(Contents(memory)[..bytes], size) == if size == 0 then None else memory
  {
    assert Contents(memory)[..bytes] == Contents(memory);
  }

  lemma WellFormedIsBacked(c: Context)
    requires WellFormed(c)
    ensures Backed(c)
  {
    SizesShrink(8 * c.info.iramSize);
    SizesShrink(4 * c.info.wramSize);
    SizesShrink(RegisterBytes(c.info));
    SizesShrink(2 * c.info.threads);
    hide Size32, RegisterBytes;
  }

  lemma SizesShrink(n: nat)
    ensures Size32(n) <= n
  {
  }

  lemma SplitExtends(s: seq<byte>, rest: seq<byte>, sizes: seq<nat>)
    requires Split(s, sizes).Some?
    ensures Split(s + rest, sizes) == Split(s, sizes)
  {
    FlattenSplit(s, sizes);
    hide Split;
    var parts, n := Split(s, sizes).value, Sum(sizes);
    SplitFlatten(parts, s[n..] + rest);
    assert s + rest == Flatten(parts) + (s[n..] + rest);
  }

  lemma ParsedLength(s: seq<byte>)
    requires Parse(s).Some?
    ensures ParseHeader(s).Some? && 40 + Sum(BodySizes(ParseHeader(s).value)) <= |s|
    ensures Split(s, HEADER_SIZES).Some?
  {
    hide BodySizes, Sum;
    var info := ParseHeader(s).value;
    FlattenSplit(s, HEADER_SIZES);
    SumOfTen();
    FlattenSplit(s[40..], BodySizes(info));
  }

  lemma HeaderExtends(s: seq<byte>, rest: seq<byte>)
    requires Split(s, HEADER_SIZES).Some?
    ensures ParseHeader(s + rest) == ParseHeader(s)
  {
    hide InfoOf, Split;
    SplitExtends(s, rest, HEADER_SIZES);
  }

  /** Reading never succeeds on less than a whole image. */
  lemma PrefixIsRejected(c: Context, k: nat)
    requires Backed(c) && k < |Image(c)|
    ensures Parse(Image(c)[..k]).None?
  {
    hide *;
    var s, rest := Image(c)[..k], Image(c)[k..];
    if Parse(s).Some? {
      ParsedLength(s);
      HeaderExtends(s, rest);
      assert s + rest == Image(c);
      ImageHeader(c);
      PartsHaveSizes(c);
      assert false;
    }
  }

  lemma ImageHeader(c: Context)
    requires Backed(c)
    ensures ParseHeader(Image(c)).Some? && ParseHeader(Image(c)).value == WrittenInfo(c)
  {
    hide WellFormed, ParseHeader, Flatten, WrittenInfo, HeaderParts, BodyParts;
    FlattenConcat(HeaderParts(WrittenInfo(c)), BodyParts(c));
    HeaderReads(WrittenInfo(c), Flatten(BodyParts(c)));
  }

  lemma WordsRead(words: seq<seq<byte>>)
    requires |words| == 10 && forall w | w in words :: |w| == 4
    requires InfoOf(words).Some?
    ensures words == HeaderParts(InfoOf(words).value)
  {
    hide Word, Encode, Decode;
    FourBytes(words[0]);
    FourBytes(words[1]);
    FourBytes(words[2]);
    FourBytes(words[3]);
    FourBytes(words[4]);
    FourBytes(words[5]);
    FourBytes(words[6]);
    FourBytes(words[7]);
    FourBytes(words[8]);
    FourBytes(words[9]);
  }

  lemma PresentIs(bs: seq<byte>, size: nat, bytes: nat)
    requires |bs| == bytes && (size == 0 ==> bytes == 0)
    ensures Contents(Present(bs, size)) == bs && MemoryCovers(Present(bs, size), bytes)
    ensures Present(bs, size).None? <==> size == 0
    ensures Present(Contents(Present(bs, size))[..bytes], size) == Present(bs, size)
  {
    assert bs[..bytes] == bs;
  }

  lemma SmallSizes(n: nat)
    requires n < WIDTH32
    ensures Size32(n) == n
  {
  }

  lemma PaddedIs(bs: seq<byte>, n: nat)
    requires |bs| <= n
    ensures Padded(bs, n)[..|bs|] == bs && |Padded(bs, n)| == n && Padded(Padded(bs, n)[..|bs|], n) == Padded(bs, n)
  {
  }

  lemma RegistersRoom(threads: nat, registers: nat)
    ensures Size32(4 * Times(threads, registers)) <= 4 * Size32(Times(threads, registers))
  {
    FourTimes(Times(threads, registers));
  }

  lemma FourTimes(n: nat)
    ensures Size32(4 * n) <= 4 * Size32(n)
  {
    var q := n / WIDTH32;
    assert 4 * n == 4 * Size32(n) + 4 * q * WIDTH32;
    ModShift(4 * Size32(n), 4 * q, WIDTH32);
  }

  /** The 16-bit size never says more than has been read. */
  lemma KeptFits(n: u32)
    ensures Size32(8 * (n % WIDTH16)) <= Size32(8 * n)
    ensures n % WIDTH16 == n <==> n < WIDTH16
  {
    var k, m := n % WIDTH16, n / WIDTH16;
    var q: int := m / 0x2000;
    assert 8 * n == (8 * k + 0x8_0000 * (m % 0x2000)) + q * WIDTH32;
    ModShift(8 * k + 0x8_0000 * (m % 0x2000), q, WIDTH32);
    SmallSizes(8 * k);
    SmallSizes(8 * k + 0x8_0000 * (m % 0x2000));
  }

  lemma ContextIsBacked(info: Info, p: seq<seq<byte>>)
    requires Lengths(p) == BodySizes(info)
    ensures var c := ContextOf(info, p); Backed(c) && c.info == WrittenInfo(c) == Kept(info)
  {
    LengthsAt(p, BodySizes(info));
    KeptFits(info.iramSize);
    RegistersRoom(info.threads, info.registers);
    SizesShrink(2 * info.threads);
    PaddedIs(p[3], 4 * Size32(Times(info.threads, info.registers)));
    PaddedIs(p[4], 2 * info.threads);
    hide Times, Decode, Lengths, Padded, Size32;
  }

  /** The context has the arrays that were read. */
  lemma ContextHolds(info: Info, p: seq<seq<byte>>)
    requires Lengths(p) == BodySizes(info)
    ensures var c, z := ContextOf(info, p), BodySizes(info);
            && c.registers == Padded(p[3], 4 * Size32(Times(info.threads, info.registers)))
            && c.pcs == Padded(p[4], 2 * info.threads)
            && z[3] <= |c.registers| && c.registers[..z[3]] == p[3] && z[4] <= |c.pcs| && c.pcs[..z[4]] == p[4]
            && c.iram == Present(p[0], info.iramSize) && Contents(c.iram) == p[0]
            && c.mram == Present(p[1], info.mramSize) && Contents(c.mram) == p[1]
            && c.wram == Present(p[2], info.wramSize) && Contents(c.wram) == p[2]
  {
    ContextParts(info, p);
    LengthsAt(p, BodySizes(info));
    NothingOfNothing();
    PresentIs(p[0], info.iramSize, Size32(8 * info.iramSize));
    PresentIs(p[1], info.mramSize, info.mramSize);
    PresentIs(p[2], info.wramSize, Size32(4 * info.wramSize));
    RegistersRoom(info.threads, info.registers);
    SizesShrink(2 * info.threads);
    PaddedIs(p[3], 4 * Size32(Times(info.threads, info.registers)));
    PaddedIs(p[4], 2 * info.threads);
    hide Times, Decode, Lengths, Present, Padded, Contents, Size32, ContextOf, Kept;
  }

  /** If it keeps the sizes of the header too, it reads back as itself. */
  lemma ContextStays(info: Info, p: seq<seq<byte>>)
    requires Lengths(p) == BodySizes(info) && info.iramSize < WIDTH16
    ensures var c := ContextOf(info, p);
            Backed(c) && WrittenInfo(c) == info && ReadBack(c) == c && Normalised(c) == c
  {
    ContextIsBacked(info, p);
    ContextHolds(info, p);
    KeptInfo(info);
    var c, z := ContextOf(info, p), BodySizes(info);
    assert c.iram == Present(Contents(c.iram)[..z[0]], info.iramSize)
      && c.mram == Present(Contents(c.mram)[..z[1]], info.mramSize)
        && c.wram == Present(Contents(c.wram)[..z[2]], info.wramSize) && (c.iram.None? <==> info.iramSize == 0)
        && (c.mram.None? <==> info.mramSize == 0) && (c.wram.None? <==> info.wramSize == 0) by {
      LengthsAt(p, BodySizes(info));
      hide Times, Lengths, Padded, Contents, Backed, ContextOf, Kept, WrittenInfo, Size32, BodySizes;
      assert p[0][..z[0]] == p[0] && p[1][..z[1]] == p[1] && p[2][..z[2]] == p[2];
    }
    hide Times, Lengths, Present, Padded, Contents, Backed, ContextOf, Kept, WrittenInfo, Size32;
  }

  /** With exact sizes, the context is well formed exactly if it keeps them. */
  lemma ContextIsWellFormed(info: Info, p: seq<seq<byte>>)
    requires Lengths(p) == BodySizes(info) && Exact(info)
    ensures WellFormed(ContextOf(info, p)) <==> info.iramSize < WIDTH16
  {
    LengthsAt(p, BodySizes(info));
    KeptFits(info.iramSize);
    SmallSizes(8 * info.iramSize);
    SmallSizes(4 * info.wramSize);
    SmallSizes(RegisterBytes(info));
    assert 4 * Times(info.threads, info.registers) == RegisterBytes(info);
    SmallSizes(Times(info.threads, info.registers));
    SmallSizes(2 * info.threads);
    hide Times, Lengths, Size32, Decode;
  }

  /** A body that has been read is the body of the context that it was read into, if that keeps the sizes. */
  lemma BodyRead(info: Info, p: seq<seq<byte>>)
    requires Lengths(p) == BodySizes(info) && info.iramSize < WIDTH16
    ensures var c := ContextOf(info, p);
            Backed(c) && WrittenInfo(c) == info && ReadBack(c) == c && Normalised(c) == c && BodyParts(c) == p
  {
    ContextHolds(info, p);
    ContextStays(info, p);
    LengthsAt(p, BodySizes(info));
    FourBytes(p[16]);
    SinglesRead(p[8], p[10], p[11], p[12], p[13], p[14], p[15]);
    hide Word, Times, Decode, Lengths, Backed, WrittenInfo, ReadBack, Normalised, Contents, Padded, Present;
    hide RegisterBytes, Size32, Kept;
    var c := ContextOf(info, p);
    var b := BodyParts(c);
    assert b[..8] == p[..8] by { Whole(p); }
    assert b[8..] == p[8..];
  }

  lemma Whole(p: seq<seq<byte>>)
    ensures forall i | 0 <= i < |p| :: p[i][..|p[i]|] == p[i]
  {
  }

  lemma SinglesRead(a: seq<byte>, b: seq<byte>, c: seq<byte>, d: seq<byte>, e: seq<byte>, f: seq<byte>, g: seq<byte>)
    requires |a| == |b| == |c| == |d| == |e| == |f| == |g| == 1
    ensures a == [a[0]] && b == [b[0]] && c == [c[0]] && d == [d[0]] && e == [e[0]] && f == [f[0]] && g == [g[0]]
  {
  }

  /** What is read successfully is written again as the bytes that were read exactly if the header's IRAM size is
      one that a context can keep.  Otherwise the context keeps only its last 16 bits, and with exact sizes it
      is not even well formed. */
  lemma ParsedIsImage(s: seq<byte>)
    requires Parse(s).Some?
    ensures ParseHeader(s).Some?
    ensures var c, info := Parse(s).value, ParseHeader(s).value;
            && Backed(c) && c.info == WrittenInfo(c) == Kept(info)
            && (|Image(c)| <= |s| && Image(c) == s[..|Image(c)|] <==> info.iramSize < WIDTH16)
            && (info.iramSize < WIDTH16 ==> ReadBack(c) == c && Normalised(c) == c)
            && (Exact(info) ==> (WellFormed(c) <==> info.iramSize < WIDTH16))
  {
    hide *;
    ParsedLength(s);
    var c, info := Parse(s).value, ParseHeader(s).value;
    var p := ParsedBody(s);
    ContextIsBacked(info, p);
    if Exact(info) {
      ContextIsWellFormed(info, p);
    }
    KeptFits(info.iramSize);
    if info.iramSize < WIDTH16 {
      KeptInfo(info);
      BodyRead(info, p);
      FrontIsImage(s, p);
    } else {
      OtherHeader(s, c);
    }
  }

  /** The body that has been read. */
  lemma ParsedBody(s: seq<byte>) returns (p: seq<seq<byte>>)
    requires Parse(s).Some?
    ensures ParseHeader(s).Some? && 40 <= |s|
    ensures var info := ParseHeader(s).value;
            && Lengths(p) == BodySizes(info) && Parse(s) == Some(ContextOf(info, p))
            && 40 + Sum(BodySizes(info)) <= |s| && Flatten(p) == s[40..][..Sum(BodySizes(info))]
  {
    hide BodySizes, Sum, Split, Flatten, Lengths, ContextOf, ParseHeader;
    ParsedLength(s);
    var info := ParseHeader(s).value;
    FlattenSplit(s, HEADER_SIZES);
    SumOfTen();
    FlattenSplit(s[40..], BodySizes(info));
    p := Split(s[40..], BodySizes(info)).value;
  }

  lemma FrontIsImage(s: seq<byte>, p: seq<seq<byte>>)
    requires ParseHeader(s).Some? && 40 <= |s|
    requires var info := ParseHeader(s).value;
             && Lengths(p) == BodySizes(info) && 40 + Sum(BodySizes(info)) <= |s|
             && Flatten(p) == s[40..][..Sum(BodySizes(info))]
             && Backed(ContextOf(info, p)) && WrittenInfo(ContextOf(info, p)) == info
             && BodyParts(ContextOf(info, p)) == p
    ensures var image := Image(ContextOf(ParseHeader(s).value, p));
            |image| <= |s| && image == s[..|image|]
  {
    hide BodyParts, HeaderParts, BodySizes, Backed, Flatten, WrittenInfo, ContextOf, InfoOf, Sum, Split, Lengths;
    FlattenSplit(s, HEADER_SIZES);
    SumOfTen();
    var info, words := ParseHeader(s).value, Split(s, HEADER_SIZES).value;
    LengthsAt(words, HEADER_SIZES);
    WordsRead(words);
    FlattenConcat(words, p);
    var n := Sum(BodySizes(info));
    assert s[..40] + s[40..][..n] == s[..40 + n];
  }

  /** An image never begins with a header that says something else than the context. */
  lemma OtherHeader(s: seq<byte>, c: Context)
    requires Backed(c) && ParseHeader(s).Some? && ParseHeader(s).value != WrittenInfo(c)
    ensures !(|Image(c)| <= |s| && Image(c) == s[..|Image(c)|])
  {
    hide *;
    ImageHeader(c);
    HeaderIsWhole(Image(c));
    if |Image(c)| <= |s| && Image(c) == s[..|Image(c)|] {
      assert Image(c) + s[|Image(c)|..] == s;
      HeaderExtends(Image(c), s[|Image(c)|..]);
      assert false;
    }
  }

  lemma HeaderIsWhole(s: seq<byte>)
    ensures ParseHeader(s).Some? ==> Split(s, HEADER_SIZES).Some?
  {
    hide Split, InfoOf;
  }

  /** Every header can stand in front of a body that is long enough. */
  lemma HeaderIsRead(info: Info) returns (s: seq<byte>)
    ensures ParseHeader(s) == Some(info) && Parse(s).Some?
  {
    var sizes := BodySizes(info);
    var body := seq(17, i requires 0 <= i < 17 => seq(sizes[i], _ => 0 as byte));
    assert Lengths(body) == sizes;
    hide Word, HeaderParts, BodySizes, ParseHeader, Flatten, Split, Lengths, ContextOf;
    s := Flatten(HeaderParts(info)) + Flatten(body);
    HeaderReads(info, Flatten(body));
    assert s[40..] == Flatten(body) + [];
    SplitFlatten(body, []);
  }

  lemma NoneKept()
    ensures Kept(Info(0, 0, 0, WIDTH16, 0, 0)).iramSize == 0
  {
  }

  /** An image with 0x10000 instructions: it is read successfully, but the context that has been read is written as
      something else. */
  lemma TooManyInstructions() returns (s: seq<byte>)
    ensures ParseHeader(s) == Some(Info(0, 0, 0, WIDTH16, 0, 0)) && Parse(s).Some?
    ensures Backed(Parse(s).value) && Image(Parse(s).value) != s && Parse(s).value.info.iramSize == 0
  {
    hide Parse, ParseHeader, Image, Backed, Kept, WrittenInfo, ReadBack, Normalised, Exact, WellFormed;
    s := HeaderIsRead(Info(0, 0, 0, WIDTH16, 0, 0));
    ParsedIsImage(s);
    NoneKept();
    assert s[..|s|] == s;
  }

  /** The context that is read back is written as the same bytes again, and reads back as itself. */
  lemma ReadingBackIsStable(c: Context)
    requires Backed(c)
    ensures Backed(ReadBack(c)) && Image(ReadBack(c)) == Image(c) && ReadBack(ReadBack(c)) == ReadBack(c)
  {
    hide *;
    ImageReadsBack(c, []);
    assert Image(c) + [] == Image(c);
    ImageHeader(c);
    ParsedIsImage(Image(c));
    WholeImage(c);
  }

  lemma WholeImage(c: Context)
    requires Backed(c) && Backed(ReadBack(c)) && |Image(ReadBack(c))| <= |Image(c)|
    requires Image(ReadBack(c)) == Image(c)[..|Image(ReadBack(c))|]
    ensures Image(ReadBack(c)) == Image(c)
  {
    hide *;
    var n := |Image(ReadBack(c))|;
    ImageReadsBack(ReadBack(c), []);
    assert Image(ReadBack(c)) + [] == Image(c)[..n];
    if n < |Image(c)| {
      PrefixIsRejected(c, n);
      assert false;
    }
    assert Image(c)[..n] == Image(c);
  }

  /** Dropping the empty memories does not change the image. */
  lemma RewritingIsStable(c: Context)
    requires WellFormed(c)
    ensures WellFormed(Normalised(c)) && Backed(c) && Backed(Normalised(c)) && Image(Normalised(c)) == Image(c)
  {
    hide Word, RegisterBytes, Size32, Backed;
    var d := Normalised(c);
    RegistersKept(c);
    RegistersKept(d);
    NothingOfNothing();
    assert WrittenInfo(d) == WrittenInfo(c);
    assert WellFormed(d);
    WellFormedIsBacked(c);
    WellFormedIsBacked(d);
    SizesAgree(c);
    SizesAgree(d);
    assert BodyParts(d) == BodyParts(c);
  }

  // ---------------------------------------------------------------- the layout

  /** A 32-bit number, its lowest byte first. */
  function LittleEndian(x: u32): seq<byte> {
    [(x % 256) as byte, (x / 0x100 % 256) as byte, (x / 0x1_0000 % 256) as byte, (x / 0x100_0000 % 256) as byte]
  }

  lemma WordIsLittleEndian(x: u32)
    ensures Word(x) == LittleEndian(x)
  {
    assert Pow256(1) == 256;
    assert Pow256(2) == 0x1_0000;
    assert Pow256(3) == 0x100_0000;
    EncodeIsLittleEndian(4, x, 0);
    EncodeIsLittleEndian(4, x, 1);
    EncodeIsLittleEndian(4, x, 2);
    EncodeIsLittleEndian(4, x, 3);
  }

  /** An image, piece by piece. */
  lemma ImageLayout(c: Context)
    requires Backed(c)
    ensures var w := WrittenInfo(c);
            && 8 * w.iramSize <= |Contents(c.iram)| && w.mramSize <= |Contents(c.mram)|
            && 4 * w.wramSize % WIDTH32 <= |Contents(c.wram)|
            && 4 * Times(w.threads, w.registers) % WIDTH32 <= |c.registers| && 2 * w.threads % WIDTH32 <= |c.pcs|
            && Image(c) == Flatten(
                 [[0xaf, 0xdb, 0xbd, 0xfa], [18, 0, 0, 0], [3, 0, 0, 0], [0xaf, 0xdb, 0xbd, 0xfa],
                  LittleEndian(w.threads), LittleEndian(w.registers), LittleEndian(w.atomicBits),
                  LittleEndian(w.iramSize), LittleEndian(w.mramSize), LittleEndian(w.wramSize)] +
                 [Contents(c.iram)[..8 * w.iramSize], Contents(c.mram)[..w.mramSize],
                  Contents(c.wram)[..4 * w.wramSize % WIDTH32],
                  c.registers[..4 * Times(w.threads, w.registers) % WIDTH32], c.pcs[..2 * w.threads % WIDTH32]] +
                 [c.atomics, c.zeroFlags, c.carryFlags, [c.running], c.scheduling, [c.bkpFault], [c.dmaFault],
                  [c.memFault], [c.bkpThread], [c.dmaThread], [c.memThread], LittleEndian(c.bkpId)])
    ensures WrittenInfo(c) == c.info.(iramSize := if c.iram.None? then 0 else c.info.iramSize,
                                      mramSize := if c.mram.None? then 0 else c.info.mramSize,
                                      wramSize := if c.wram.None? then 0 else c.info.wramSize)
  {
    HeaderLayout(WrittenInfo(c));
    BodyIs(c);
    SmallSizes(8 * WrittenInfo(c).iramSize);
    WordIsLittleEndian(c.bkpId);
    hide Word, Backed, Flatten, Contents, HeaderParts, BodyParts, LittleEndian, BodySizes;
    var b, h := BodyParts(c), HeaderParts(WrittenInfo(c));
    assert b == [b[0], b[1], b[2], b[3], b[4]] + b[5..];
    assert h + b == h + [b[0], b[1], b[2], b[3], b[4]] + b[5..];
  }

  lemma HeaderLayout(w: Info)
    ensures HeaderParts(w) ==
            [[0xaf, 0xdb, 0xbd, 0xfa], [18, 0, 0, 0], [3, 0, 0, 0], [0xaf, 0xdb, 0xbd, 0xfa],
             LittleEndian(w.threads), LittleEndian(w.registers), LittleEndian(w.atomicBits),
             LittleEndian(w.iramSize), LittleEndian(w.mramSize), LittleEndian(w.wramSize)]
  {
    WordIsLittleEndian(MAGIC);
    WordIsLittleEndian(CHIP_VERSION);
    WordIsLittleEndian(VERSION);
    WordIsLittleEndian(w.threads);
    WordIsLittleEndian(w.registers);
    WordIsLittleEndian(w.atomicBits);
    WordIsLittleEndian(w.iramSize);
    WordIsLittleEndian(w.mramSize);
    WordIsLittleEndian(w.wramSize);
    MagicBytes();
    hide Word, LittleEndian;
  }

  lemma MagicBytes()
    ensures LittleEndian(MAGIC) == [0xaf, 0xdb, 0xbd, 0xfa]
    ensures LittleEndian(CHIP_VERSION) == [18, 0, 0, 0] && LittleEndian(VERSION) == [3, 0, 0, 0]
  {
  }

  // ---------------------------------------------------------------- writing with a cursor

  /** Copies one element and moves the cursor behind it. */
  method WriteElem(buffer: array<byte>, curr: nat, elem: seq<byte>, ghost parts: seq<seq<byte>>, ghost k: nat)
    returns (next: nat)
    requires k < |parts| && parts[k] == elem && buffer.Length == |Flatten(parts)|
    requires curr <= buffer.Length && buffer[..curr] == Flatten(parts[..k])
    modifies buffer
    ensures next <= buffer.Length && buffer[..next] == Flatten(parts[..k + 1])
  {
    FlattenConcat(parts[..k], [elem]);
    FlattenConcat(parts[..k + 1], parts[k + 1..]);
    assert parts[..k] + [elem] == parts[..k + 1] && parts[..k + 1] + parts[k + 1..] == parts && Flatten([elem]) == elem;
    ghost var before := buffer[..curr];
    forall i | 0 <= i < |elem| {
      buffer[curr + i] := elem[i];
    }
    next := curr + |elem|;
    assert buffer[..next] == before + elem;
  }

  method WriteHeader(info: Info, buffer: array<byte>, ghost parts: seq<seq<byte>>) returns (curr: nat)
    requires 10 <= |parts| && parts[..10] == HeaderParts(info) && buffer.Length == |Flatten(parts)|
    modifies buffer
    ensures curr <= buffer.Length && buffer[..curr] == Flatten(parts[..10])
  {
    hide Word, Flatten;
    FlattenNothing();
    assert buffer[..0] == [] && parts[..0] == [];
    HeaderPartsAt(info, parts);
    curr := WriteElem(buffer, 0, Word(MAGIC), parts, 0);
    curr := WriteElem(buffer, curr, Word(CHIP_VERSION), parts, 1);
    curr := WriteElem(buffer, curr, Word(VERSION), parts, 2);
    curr := WriteElem(buffer, curr, Word(MAGIC), parts, 3);
    curr := WriteElem(buffer, curr, Word(info.threads), parts, 4);
    curr := WriteElem(buffer, curr, Word(info.registers), parts, 5);
    curr := WriteElem(buffer, curr, Word(info.atomicBits), parts, 6);
    curr := WriteElem(buffer, curr, Word(info.iramSize), parts, 7);
    curr := WriteElem(buffer, curr, Word(info.mramSize), parts, 8);
    curr := WriteElem(buffer, curr, Word(info.wramSize), parts, 9);
  }

  lemma FlattenNothing()
    ensures Flatten([]) == []
  {
  }

  lemma HeaderPartsAt(info: Info, parts: seq<seq<byte>>)
    requires 10 <= |parts| && parts[..10] == HeaderParts(info)
    ensures parts[0] == Word(MAGIC) && parts[1] == Word(CHIP_VERSION) && parts[2] == Word(VERSION)
      && parts[3] == Word(MAGIC)
    ensures parts[4] == Word(info.threads) && parts[5] == Word(info.registers) && parts[6] == Word(info.atomicBits)
    ensures parts[7] == Word(info.iramSize) && parts[8] == Word(info.mramSize) && parts[9] == Word(info.wramSize)
  {
    hide Word;
    assert forall i | 0 <= i < 10 :: parts[i] == parts[..10][i];
  }

  method WriteMemories(c: Context, buffer: array<byte>, start: nat, ghost parts: seq<seq<byte>>) returns (curr: nat)
    requires Backed(c) && parts == Parts(c) && buffer.Length == |Flatten(parts)|
    requires start <= buffer.Length && buffer[..start] == Flatten(parts[..10])
    modifies buffer
    ensures |parts| == 27 && curr <= buffer.Length && buffer[..curr] == Flatten(parts[..13])
  {
    var iramSize := if c.iram.None? then 0 else Size32(8 * c.info.iramSize);
    var mramSize := if c.mram.None? then 0 else c.info.mramSize;
    var wramSize := if c.wram.None? then 0 else Size32(4 * c.info.wramSize);
    ArrayPartsAt(c);
    var iram, mram, wram := Contents(c.iram)[..iramSize], Contents(c.mram)[..mramSize], Contents(c.wram)[..wramSize];
    hide *;
    curr := WriteElem(buffer, start, iram, parts, 10);
    curr := WriteElem(buffer, curr, mram, parts, 11);
    curr := WriteElem(buffer, curr, wram, parts, 12);
  }

  method WriteRegisters(c: Context, buffer: array<byte>, start: nat, ghost parts: seq<seq<byte>>) returns (curr: nat)
    requires Backed(c) && parts == Parts(c) && |parts| == 27 && buffer.Length == |Flatten(parts)|
    requires start <= buffer.Length && buffer[..start] == Flatten(parts[..13])
    modifies buffer
    ensures curr <= buffer.Length && buffer[..curr] == Flatten(parts[..16])
  {
    var registersSize, pcsSize := Size32(RegisterBytes(c.info)), Size32(2 * c.info.threads);
    ArrayPartsAt(c);
    var registers, pcs := c.registers[..registersSize], c.pcs[..pcsSize];
    hide *;
    curr := WriteElem(buffer, start, registers, parts, 13);
    curr := WriteElem(buffer, curr, pcs, parts, 14);
    curr := WriteElem(buffer, curr, c.atomics, parts, 15);
  }

  method WriteFlags(c: Context, buffer: array<byte>, start: nat, ghost parts: seq<seq<byte>>) returns (curr: nat)
    requires Backed(c) && parts == Parts(c) && |parts| == 27 && buffer.Length == |Flatten(parts)|
    requires start <= buffer.Length && buffer[..start] == Flatten(parts[..16])
    modifies buffer
    ensures curr <= buffer.Length && buffer[..curr] == Flatten(parts[..20])
  {
    ArrayPartsAt(c);
    hide *;
    curr := WriteElem(buffer, start, c.zeroFlags, parts, 16);
    curr := WriteElem(buffer, curr, c.carryFlags, parts, 17);
    curr := WriteElem(buffer, curr, [c.running], parts, 18);
    curr := WriteElem(buffer, curr, c.scheduling, parts, 19);
  }

  method WriteFaults(c: Context, buffer: array<byte>, start: nat, ghost parts: seq<seq<byte>>)
    requires Backed(c) && parts == Parts(c) && |parts| == 27 && buffer.Length == |Flatten(parts)|
    requires start <= buffer.Length && buffer[..start] == Flatten(parts[..20])
    modifies buffer
    ensures buffer[..] == Flatten(parts)
  {
    FaultPartsAt(c);
    hide *;
    var curr := WriteElem(buffer, start, [c.bkpFault], parts, 20);
    curr := WriteElem(buffer, curr, [c.dmaFault], parts, 21);
    curr := WriteElem(buffer, curr, [c.memFault], parts, 22);
    curr := WriteElem(buffer, curr, [c.bkpThread], parts, 23);
    curr := WriteElem(buffer, curr, [c.dmaThread], parts, 24);
    curr := WriteElem(buffer, curr, [c.memThread], parts, 25);
    curr := WriteElem(buffer, curr, Word(c.bkpId), parts, 26);
    assert parts[..27] == parts;
    assert buffer[..curr] == buffer[..];
  }

  lemma ArrayPartsAt(c: Context)
    requires Backed(c)
    ensures var iramSize := if c.iram.None? then 0 else Size32(8 * c.info.iramSize);
            var mramSize := if c.mram.None? then 0 else c.info.mramSize;
            var wramSize := if c.wram.None? then 0 else Size32(4 * c.info.wramSize);
            var registersSize, pcsSize := Size32(RegisterBytes(c.info)), Size32(2 * c.info.threads);
            var parts := Parts(c);
            && iramSize <= |Contents(c.iram)| && mramSize <= |Contents(c.mram)| && wramSize <= |Contents(c.wram)|
            && registersSize <= |c.registers| && pcsSize <= |c.pcs|
            && |parts| == 27
            && parts[10] == Contents(c.iram)[..iramSize] && parts[11] == Contents(c.mram)[..mramSize]
            && parts[12] == Contents(c.wram)[..wramSize]
            && parts[13] == c.registers[..registersSize] && parts[14] == c.pcs[..pcsSize] && parts[15] == c.atomics
            && parts[16] == c.zeroFlags && parts[17] == c.carryFlags && parts[18] == [c.running]
            && parts[19] == c.scheduling
  {
    SizesAgree(c);
    hide Word, RegisterBytes, Size32, BodySizes, WrittenInfo, Backed, HeaderParts, Contents;
  }

  lemma FaultPartsAt(c: Context)
    requires Backed(c)
    ensures var parts := Parts(c);
            && |parts| == 27
            && parts[20] == [c.bkpFault] && parts[21] == [c.dmaFault] && parts[22] == [c.memFault]
            && parts[23] == [c.bkpThread] && parts[24] == [c.dmaThread] && parts[25] == [c.memThread]
            && parts[26] == Word(c.bkpId)
  {
    SizesAgree(c);
    hide Word, RegisterBytes, Size32, BodySizes, WrittenInfo, Backed, HeaderParts, Contents;
  }

  /** Writes a context into the caller's buffer, or into a new one.  A buffer whose length is not the computed size
      is turned down; otherwise the image must not be longer than 32 bits can say, as the code then writes
      all of it. */
  method Serialize(c: Context, buffer: array?<byte>) returns (status: Status, image: array?<byte>)
    requires Backed(c) && (buffer == null || buffer.Length == SerializedSize(c) ==> |Image(c)| < WIDTH32)
    modifies if buffer == null then {} else {buffer}
    ensures status == if buffer != null && buffer.Length != SerializedSize(c) then InvalidBufferSize else Ok
    ensures status == Ok ==> image != null && image[..] == Image(c) && (buffer != null ==> image == buffer)
    ensures status != Ok && buffer != null ==> buffer[..] == old(buffer[..])
  {
    SizeIsLength(c);
    hide BodyParts, Backed, SerializedSize;
    var size := SerializedSize(c);
    image := buffer;
    if image == null {
      image := new byte[size](_ => 0);
    } else if image.Length != size {
      return InvalidBufferSize, image;
    }
    ghost var parts := Parts(c);
    assert parts[..10] == HeaderParts(WrittenInfo(c));
    var curr := WriteHeader(WrittenInfo(c), image, parts);
    curr := WriteMemories(c, image, curr, parts);
    curr := WriteRegisters(c, image, curr, parts);
    curr := WriteFlags(c, image, curr, parts);
    WriteFaults(c, image, curr, parts);
    status := Ok;
  }

  // ---------------------------------------------------------------- reading with a cursor

  /** The pieces `done` are the front of `s` from `base` on, cut to the first of `sizes`. */
  ghost predicate Cut(s: seq<byte>, base: nat, curr: nat, done: seq<seq<byte>>, sizes: seq<nat>) {
    && base <= curr <= |s| && Flatten(done) == s[base..curr] && Lengths(done) <= sizes
  }

  /** Copies one element and moves the cursor, or fails because the buffer ends before the element does. */
  method ReadElem(s: seq<byte>, curr: nat, n: nat, ghost base: nat, ghost done: seq<seq<byte>>, ghost sizes: seq<nat>)
    returns (ok: bool, elem: seq<byte>, next: nat)
    requires Cut(s, base, curr, done, sizes) && |done| < |sizes| && sizes[|done|] == n
    ensures ok ==> |elem| == n && Cut(s, base, next, done + [elem], sizes)
    ensures !ok ==> Split(s[base..], sizes).None?
  {
    ok, elem, next := curr + n <= |s|, [], curr;
    if ok {
      next := curr + n;
      elem := s[curr..next];
      CutMore(s, base, curr, done, sizes, elem);
    } else {
      CutFails(s, base, curr, done, sizes);
    }
  }

  lemma CutMore(s: seq<byte>, base: nat, curr: nat, done: seq<seq<byte>>, sizes: seq<nat>, elem: seq<byte>)
    requires Cut(s, base, curr, done, sizes) && |done| < |sizes| && sizes[|done|] == |elem|
    requires curr + |elem| <= |s| && elem == s[curr..curr + |elem|]
    ensures Cut(s, base, curr + |elem|, done + [elem], sizes)
  {
    FlattenConcat(done, [elem]);
    FlattenOne(elem);
    assert s[base..curr] + s[curr..curr + |elem|] == s[base..curr + |elem|];
    assert Lengths(done + [elem]) == Lengths(done) + [|elem|];
    assert Lengths(done) + [sizes[|done|]] <= sizes;
  }

  lemma FlattenOne(elem: seq<byte>)
    ensures Flatten([elem]) == elem
  {
  }

  lemma CutFails(s: seq<byte>, base: nat, curr: nat, done: seq<seq<byte>>, sizes: seq<nat>)
    requires Cut(s, base, curr, done, sizes) && |done| < |sizes| && curr + sizes[|done|] > |s|
    ensures Split(s[base..], sizes).None?
  {
    FlattenLength(done);
    var k := |done|;
    SumConcat(sizes[..k], sizes[k..]);
    assert sizes == sizes[..k] + sizes[k..] && sizes[..k] == Lengths(done);
    FlattenSplit(s[base..], sizes);
  }

  lemma {:induction false} SumConcat(p: seq<nat>, q: seq<nat>)
    ensures Sum(p + q) == Sum(p) + Sum(q)
  {
    if p == [] {
      assert p + q == q;
    } else {
      SumConcat(p[1..], q);
      assert (p + q)[1..] == p[1..] + q;
    }
  }

  /** All pieces have been cut off. */
  lemma CutComplete(s: seq<byte>, base: nat, curr: nat, done: seq<seq<byte>>, sizes: seq<nat>)
    requires Cut(s, base, curr, done, sizes) && |done| == |sizes|
    ensures Lengths(done) == sizes && Split(s[base..], sizes) == Some(done) && curr == base + Sum(sizes)
  {
    FlattenLength(done);
    SplitFlatten(done, s[curr..]);
    assert s[base..] == Flatten(done) + s[curr..];
  }

  /** A wrong word among the first four makes a header wrong, whatever else it holds. */
  lemma WrongWord(s: seq<byte>, curr: nat, done: seq<seq<byte>>, k: nat, expected: nat)
    requires Cut(s, 0, curr, done, HEADER_SIZES) && k < |done| && k < 4
    requires expected == [MAGIC, CHIP_VERSION, VERSION, MAGIC][k] && Decode(done[k]) != expected
    ensures ParseHeader(s).None?
  {
    assert s[0..] == s;
    FlattenSplit(s, HEADER_SIZES);
    if Split(s, HEADER_SIZES).Some? {
      var words := Split(s, HEADER_SIZES).value;
      SplitFront(s, done, curr, HEADER_SIZES);
      LengthsAt(words, HEADER_SIZES);
      assert words[k] == words[..|done|][k];
    }
  }

  /** Pieces that have been cut off are the first pieces. */
  lemma {:induction false} SplitFront(s: seq<byte>, done: seq<seq<byte>>, curr: nat, sizes: seq<nat>)
    requires curr <= |s| && Flatten(done) == s[..curr] && Lengths(done) <= sizes && Split(s, sizes).Some?
    ensures |done| <= |Split(s, sizes).value| && Split(s, sizes).value[..|done|] == done
    decreases |done|
  {
    if done != [] {
      var n := |done[0]|;
      assert Lengths(done)[0] == n == sizes[0];
      assert Flatten(done)[..n] == done[0] && s[..curr][..n] == s[..n];
      assert Flatten(done)[n..] == Flatten(done[1..]) && s[..curr][n..] == s[n..][..curr - n];
      assert Lengths(done)[1..] == Lengths(done[1..]);
      SplitFront(s[n..], done[1..], curr - n, sizes[1..]);
      var parts := Split(s, sizes).value;
      assert parts[1..] == Split(s[n..], sizes[1..]).value;
      assert parts[0] == done[0] && parts[1..][..|done| - 1] == done[1..];
    }
  }

  /** Reads one of the words that must be there.  The source compares before it checks the bound; both failures
      have the same status. */
  method Check(s: seq<byte>, curr: nat, expected: nat, ghost done: seq<seq<byte>>)
    returns (ok: bool, next: nat, ghost word: seq<byte>)
    requires Cut(s, 0, curr, done, HEADER_SIZES) && |done| < 4
      && expected == [MAGIC, CHIP_VERSION, VERSION, MAGIC][|done|]
    ensures !ok ==> ParseHeader(s).None?
    ensures ok ==> Cut(s, 0, next, done + [word], HEADER_SIZES) && |word| == 4 && Decode(word) == expected
  {
    var elem;
    ok, elem, next := ReadElem(s, curr, 4, 0, done, HEADER_SIZES);
    word := elem;
    assert s[0..] == s;
    if ok && Decode(elem) != expected {
      WrongWord(s, next, done + [elem], |done|, expected);
      ok := false;
    }
  }

  method ReadHeader(s: seq<byte>) returns (info: Option<Info>, curr: nat)
    ensures info == ParseHeader(s)
    ensures info.Some? ==> curr == 40 <= |s|
  {
    hide Flatten, Lengths, Split, Decode, Encode, ParseHeader;
    CutNothing(s, 0, HEADER_SIZES);
    ghost var done: seq<seq<byte>>, w := [], [];
    var ok;
    ok, curr, w := Check(s, 0, MAGIC, done);
    if !ok { return None, curr; }
    done := done + [w];
    ok, curr, w := Check(s, curr, CHIP_VERSION, done);
    if !ok { return None, curr; }
    done := done + [w];
    ok, curr, w := Check(s, curr, VERSION, done);
    if !ok { return None, curr; }
    done := done + [w];
    ok, curr, w := Check(s, curr, MAGIC, done);
    if !ok { return None, curr; }
    info, curr := ReadSizes(s, curr, done + [w]);
  }

  lemma CutNothing(s: seq<byte>, base: nat, sizes: seq<nat>)
    requires base <= |s|
    ensures Cut(s, base, base, [], sizes)
  {
  }

  lemma NoHeader(s: seq<byte>)
    ensures Split(s[0..], HEADER_SIZES).None? ==> ParseHeader(s).None?
  {
    assert s[0..] == s;
  }

  /** Reads the six sizes behind the signature. */
  method ReadSizes(s: seq<byte>, start: nat, ghost signature: seq<seq<byte>>) returns (info: Option<Info>, curr: nat)
    requires |signature| == 4 && Cut(s, 0, start, signature, HEADER_SIZES)
    requires Decode(signature[0]) == MAGIC && Decode(signature[1]) == CHIP_VERSION
    requires Decode(signature[2]) == VERSION && Decode(signature[3]) == MAGIC
    ensures info == ParseHeader(s)
    ensures info.Some? ==> curr == 40 <= |s|
  {
    hide Flatten, Lengths, Split, Decode, Encode, ParseHeader, Cut, InfoOf;
    var ok, threads, registers, atomicBits, iramSize, mramSize, wramSize;
    ghost var done := signature;
    NoHeader(s);
    ok, threads, curr := ReadElem(s, start, 4, 0, done, HEADER_SIZES);
    if !ok { return None, curr; }
    done := done + [threads];
    ok, registers, curr := ReadElem(s, curr, 4, 0, done, HEADER_SIZES);
    if !ok { return None, curr; }
    done := done + [registers];
    ok, atomicBits, curr := ReadElem(s, curr, 4, 0, done, HEADER_SIZES);
    if !ok { return None, curr; }
    done := done + [atomicBits];
    ok, iramSize, curr := ReadElem(s, curr, 4, 0, done, HEADER_SIZES);
    if !ok { return None, curr; }
    done := done + [iramSize];
    ok, mramSize, curr := ReadElem(s, curr, 4, 0, done, HEADER_SIZES);
    if !ok { return None, curr; }
    done := done + [mramSize];
    ok, wramSize, curr := ReadElem(s, curr, 4, 0, done, HEADER_SIZES);
    if !ok { return None, curr; }
    ghost var g := signature;
    ghost var words := [g[0], g[1], g[2], g[3], threads, registers, atomicBits, iramSize, mramSize, wramSize];
    SixMore(g, threads, registers, atomicBits, iramSize, mramSize, wramSize);
    HeaderRead(s, curr, words);
    InfoIs(words);
    info := Some(Info(Decode(threads), Decode(registers), Decode(atomicBits), Decode(iramSize), Decode(mramSize),
                      Decode(wramSize)));
  }

  lemma InfoIs(w: seq<seq<byte>>)
    requires |w| == 10 && (forall x | x in w :: |x| == 4) && InfoOf(w).Some?
    ensures Decode(w[4]) < WIDTH32 && Decode(w[5]) < WIDTH32 && Decode(w[6]) < WIDTH32
    ensures Decode(w[7]) < WIDTH32 && Decode(w[8]) < WIDTH32 && Decode(w[9]) < WIDTH32
    ensures InfoOf(w).value == Info(Decode(w[4]), Decode(w[5]), Decode(w[6]), Decode(w[7]), Decode(w[8]), Decode(w[9]))
  {
    FourBytes(w[4]);
    FourBytes(w[5]);
    FourBytes(w[6]);
    FourBytes(w[7]);
    FourBytes(w[8]);
    FourBytes(w[9]);
    hide Decode, Encode;
  }

  lemma SixMore(g: seq<seq<byte>>, a: seq<byte>, b: seq<byte>, c: seq<byte>, d: seq<byte>, e: seq<byte>, f: seq<byte>)
    requires |g| == 4
    ensures g + [a] + [b] + [c] + [d] + [e] + [f] == [g[0], g[1], g[2], g[3], a, b, c, d, e, f]
  {
  }

  lemma HeaderRead(s: seq<byte>, curr: nat, words: seq<seq<byte>>)
    requires |words| == 10 && Cut(s, 0, curr, words, HEADER_SIZES)
    requires Decode(words[0]) == MAGIC && Decode(words[1]) == CHIP_VERSION && Decode(words[2]) == VERSION
      && Decode(words[3]) == MAGIC
    ensures curr == 40 <= |s| && forall w | w in words :: |w| == 4
    ensures InfoOf(words).Some? && ParseHeader(s) == InfoOf(words)
  {
    CutComplete(s, 0, curr, words, HEADER_SIZES);
    assert curr <= |s|;
    SumOfTen();
    assert s[0..] == s;
    LengthsAt(words, HEADER_SIZES);
    hide Flatten, Lengths, Split, Decode, Encode, Cut;
  }

  /** Reads one memory, unless its size is 0. */
  method ReadMemory(s: seq<byte>, curr: nat, size: nat, bytes: nat, ghost done: seq<seq<byte>>, ghost sizes: seq<nat>)
    returns (ok: bool, memory: Option<seq<byte>>, next: nat, ghost elem: seq<byte>)
    requires Cut(s, 40, curr, done, sizes) && |done| < |sizes| && sizes[|done|] == bytes && (size == 0 ==> bytes == 0)
    ensures ok ==> Cut(s, 40, next, done + [elem], sizes) && memory == Present(elem, size)
    ensures !ok ==> Split(s[40..], sizes).None?
  {
    ok, memory, next, elem := true, None, curr, [];
    if size != 0 {
      var data;
      ok, data, next := ReadElem(s, curr, bytes, 40, done, sizes);
      memory, elem := Some(data), data;
    } else {
      CutMore(s, 40, curr, done, sizes, []);
    }
  }

  method ReadMemories(s: seq<byte>, start: nat, info: Info, ghost sizes: seq<nat>)
    returns (ok: bool, iram: Option<seq<byte>>, mram: Option<seq<byte>>, wram: Option<seq<byte>>, curr: nat,
             ghost p: seq<seq<byte>>)
    requires start == 40 <= |s| && sizes == BodySizes(info)
    ensures ok ==> |p| == 3 && Cut(s, 40, curr, p, sizes)
    ensures ok ==> iram == Present(p[0], info.iramSize) && mram == Present(p[1], info.mramSize)
    ensures ok ==> wram == Present(p[2], info.wramSize)
    ensures !ok ==> Split(s[40..], sizes).None?
  {
    NothingOfNothing();
    CutNothing(s, 40, sizes);
    hide Cut, Split, Present, Flatten, Lengths, RegisterBytes, Size32;
    iram, mram, wram := None, None, None;
    ghost var e0, e1, e2;
    ok, iram, curr, e0 := ReadMemory(s, start, info.iramSize, Size32(8 * info.iramSize), [], sizes);
    p := [] + [e0];
    if !ok { return; }
    ok, mram, curr, e1 := ReadMemory(s, curr, info.mramSize, info.mramSize, p, sizes);
    p := p + [e1];
    if !ok { return; }
    ok, wram, curr, e2 := ReadMemory(s, curr, info.wramSize, Size32(4 * info.wramSize), p, sizes);
    p := p + [e2];
  }

  lemma NothingOfNothing()
    ensures Size32(0) == 0
  {
  }

  /** Reads three elements in a row. */
  method ReadThree(s: seq<byte>, start: nat, n0: nat, n1: nat, n2: nat, ghost done: seq<seq<byte>>,
                   ghost sizes: seq<nat>)
    returns (ok: bool, elems: seq<seq<byte>>, curr: nat)
    requires Cut(s, 40, start, done, sizes) && |done| + 3 <= |sizes|
    requires n0 == sizes[|done|] && n1 == sizes[|done| + 1] && n2 == sizes[|done| + 2]
    ensures ok ==> |elems| == 3 && Cut(s, 40, curr, done + elems, sizes)
    ensures !ok ==> Split(s[40..], sizes).None?
  {
    hide Cut, Split, Flatten, Lengths;
    elems := [];
    var e0, e1, e2;
    ok, e0, curr := ReadElem(s, start, n0, 40, done, sizes);
    if !ok { return; }
    ok, e1, curr := ReadElem(s, curr, n1, 40, done + [e0], sizes);
    if !ok { return; }
    ok, e2, curr := ReadElem(s, curr, n2, 40, done + [e0] + [e1], sizes);
    elems := [e0, e1, e2];
    assert done + [e0] + [e1] + [e2] == done + elems;
  }

  /** Reads what follows the memories. */
  method ReadElems(s: seq<byte>, start: nat, info: Info, ghost p: seq<seq<byte>>, ghost sizes: seq<nat>)
    returns (ok: bool, elems: seq<seq<byte>>, curr: nat)
    requires |p| == 3 && Cut(s, 40, start, p, sizes) && sizes == BodySizes(info)
    ensures ok ==> |elems| == 14 && Cut(s, 40, curr, p + elems, sizes)
    ensures !ok ==> Split(s[40..], sizes).None?
  {
    hide Cut, Split, Flatten, Lengths, Size32, RegisterBytes;
    var n: nat := info.threads;
    var a, b, c, d, e;
    elems := [];
    ok, a, curr := ReadThree(s, start, Size32(RegisterBytes(info)), Size32(2 * n), info.atomicBits, p, sizes);
    if !ok { return; }
    ok, b, curr := ReadThree(s, curr, n, n, 1, p + a, sizes);
    if !ok { return; }
    ok, c, curr := ReadThree(s, curr, n, 1, 1, p + a + b, sizes);
    if !ok { return; }
    ok, d, curr := ReadThree(s, curr, 1, 1, 1, p + a + b + c, sizes);
    if !ok { return; }
    ok, e, curr := ReadElem(s, curr, 1, 40, p + a + b + c + d, sizes);
    if !ok { return; }
    var id;
    ok, id, curr := ReadElem(s, curr, 4, 40, p + a + b + c + d + [e], sizes);
    elems := a + b + c + d + [e] + [id];
    assert p + a + b + c + d + [e] + [id] == p + elems;
  }

  /** Reads a context back. */
  method Deserialize(s: seq<byte>) returns (status: Status, context: Option<Context>)
    ensures context == Parse(s)
    ensures status == if context.Some? then Ok else InvalidFile
  {
    var header, curr := ReadHeader(s);
    if header.None? { return InvalidFile, None; }
    context := ReadContext(s, curr, header.value);
    status := if context.Some? then Ok else InvalidFile;
  }

  method ReadContext(s: seq<byte>, start: nat, info: Info) returns (context: Option<Context>)
    requires start == 40 <= |s| && ParseHeader(s) == Some(info)
    ensures context == Parse(s)
  {
    ghost var sizes := BodySizes(info);
    BodyFails(s, info);
    hide Cut, Split, Flatten, Lengths, Size32, BodySizes, Parse, ParseHeader, ContextOf, Times, Padded, Present, Decode;
    ghost var p;
    var ok, iram, mram, wram, curr, e;
    ok, iram, mram, wram, curr, p := ReadMemories(s, start, info, sizes);
    if !ok { return None; }
    ok, e, curr := ReadElems(s, curr, info, p, sizes);
    if !ok { return None; }
    CutComplete(s, 40, curr, p + e, sizes);
    BodySucceeds(s, info, p + e);
    ContextParts(info, p + e);
    context := Some(Context(Kept(info), iram, mram, wram,
                            Padded(e[0], 4 * Size32(Times(info.threads, info.registers))),
                            Padded(e[1], 2 * info.threads),
                            e[2], e[3], e[4], e[5][0], e[6], e[7][0], e[8][0], e[9][0], e[10][0], e[11][0], e[12][0],
                            Decode(e[13])));
  }

  lemma BodyFails(s: seq<byte>, info: Info)
    requires 40 <= |s| && ParseHeader(s) == Some(info)
    ensures Split(s[40..], BodySizes(info)).None? ==> Parse(s).None?
  {
    hide ParseHeader;
  }

  lemma BodySucceeds(s: seq<byte>, info: Info, parts: seq<seq<byte>>)
    requires 40 <= |s| && ParseHeader(s) == Some(info)
    requires Lengths(parts) == BodySizes(info) && Split(s[40..], BodySizes(info)) == Some(parts)
    ensures Parse(s) == Some(ContextOf(info, parts))
  {
    hide ParseHeader;
  }
}
