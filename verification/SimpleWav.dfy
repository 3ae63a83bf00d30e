/**
 The incremental WAV writer: samples are gathered and appended to the file a flush at a time,
 each flush writing the headers again. The file stream is the byte sequence it holds.
 */
module SimpleWav {
  import opened Arithmetic
  import opened Sequences
  import opened WavFile
  import opened Wrappers

  const U16 := 0x1_0000
  const U32 := 0x1_0000_0000

  datatype WavError =
    | InvalidSampleFormat | InvalidChannels | InvalidBitsSample | InvalidSampleRate
    | CreateFailed | AllocFailed | NotEnoughData

  // A write is accepted, refused, or divides by a block size of zero, which is undefined.
  datatype WriteResult = Accepted | Refused(error: WavError) | DividesByZero

  // The checks of CreateWav, in their order; opens is whether the file could be opened.
  function Check(f: Format, opens: bool): (r: Result<Format, WavError>)
    ensures r.Ok? <==>
      (f.format == PCM || f.format == FLOAT) && f.channels != 0 && f.bitsSample % 8 == 0
      && (f.format == FLOAT ==> f.bitsSample == 32) && f.sampleRate != 0 && opens
    ensures r.Ok? ==> r.value == f
    ensures r == Err(InvalidSampleFormat) <==> f.format != PCM && f.format != FLOAT
    ensures r == Err(InvalidChannels) <==> (f.format == PCM || f.format == FLOAT) && f.channels == 0
    ensures r == Err(InvalidBitsSample) <==>
      f.channels != 0 && ((f.format == PCM && f.bitsSample % 8 != 0) || (f.format == FLOAT && f.bitsSample != 32))
    ensures r == Err(InvalidSampleRate) ==> f.sampleRate == 0 && f.channels != 0 && f.bitsSample % 8 == 0
    ensures r == Err(CreateFailed) ==> f.sampleRate != 0 && !opens
    ensures r.Err? ==> !r.error.AllocFailed? && !r.error.NotEnoughData?
  {
    if PCM != f.format && FLOAT != f.format then Err(InvalidSampleFormat)
    else if f.channels == 0 then Err(InvalidChannels)
    else if f.bitsSample % 8 != 0 then Err(InvalidBitsSample)
    else if f.format == FLOAT && f.bitsSample != 32 then Err(InvalidBitsSample)
    else if f.sampleRate == 0 then Err(InvalidSampleRate)
    else if !opens then Err(CreateFailed)
    else Ok(f)
  }

  // A format that passes has a block size to divide by unless it has no bits in a sample.
  lemma BlockSizePositive(f: Format)
    requires Check(f, true).Ok?
    ensures BlockSize(f) > 0 <==> f.bitsSample != 0
  {
    if f.bitsSample != 0 {
      MulMonotone(SampleBytes(f), 1, f.channels);
    }
  }

  // Formats CreateWav accepts.
  predicate Creatable(f: Format) {
    Check(f, true).Ok? && f.channels < U16 && f.bitsSample < U16 && f.sampleRate < U16
  }

  // Formats the writer can work with.
  predicate Usable(f: Format) {
    Creatable(f) && f.bitsSample > 0
  }

  // ------------------------------------------------------------- the arithmetic of the sizes

  // How many blocks, as the headers compute it, in 32 bits.
  function NumBlocks(total: nat, f: Format): nat
    requires f.channels > 0 && SampleBytes(f) > 0
  {
    total / f.channels / SampleBytes(f) % U32
  }

  lemma WholeBlocks(total: nat, f: Format) returns (k: nat)
    requires Usable(f) && BlockSize(f) > 0 && total % BlockSize(f) == 0
    ensures SampleBytes(f) > 0 && total == BlockSize(f) * k && total / f.channels / SampleBytes(f) == k
  {
    k := total / BlockSize(f);
    var s, c := SampleBytes(f), f.channels;
    assert total == s * c * k;
    assert s * c * k == c * (s * k) by {
      assert s * c == c * s;
      assert c * s * k == c * (s * k);
    }
    ModUnique(total, c, s * k, 0);
    ModUnique(s * k, s, k, 0);
  }

  // The block count may wrap, but the byte count written from it is right modulo 2^32.
  lemma DataSizeField(total: nat, f: Format, plus: nat)
    requires Usable(f) && BlockSize(f) > 0 && total % BlockSize(f) == 0 && SampleBytes(f) > 0
    ensures Le(plus + BlockSize(f) * NumBlocks(total, f), 4) == Le(plus + total, 4)
    ensures (BlockSize(f) * NumBlocks(total, f)) % 2 == total % 2
  {
    var k := WholeBlocks(total, f);
    var b, q, r := BlockSize(f), k / U32, k % U32;
    assert k == U32 * q + r;
    assert b * (U32 * q + r) == U32 * (b * q) + b * r;
    Power4();
    LeIgnores(plus + b * r, b * q, 4);
    SameParity(b * r, b * q);
  }

  lemma Power4()
    ensures Power256(4) == U32
  {
    assert Power256(2) == 0x1_0000;
    assert Power256(4) == 0x100 * (0x100 * Power256(2));
  }

  lemma SameParity(n: nat, q: nat)
    ensures (U32 * q + n) % 2 == n % 2
  {
    assert U32 * q + n == 2 * (0x8000_0000 * q) + n;
  }

  lemma MultiplesAdd(a: nat, b: nat, m: nat)
    requires m > 0 && a % m == 0 && b % m == 0
    ensures (a + b) % m == 0
  {
    assert m * (a / m) + m * (b / m) == m * (a / m + b / m);
    ModUnique(a + b, m, a / m + b / m, 0);
  }

  // Sizes that agree in their low 32 bits make the same headers.
  lemma HeadersBySizes(f: Format, riff: nat, dataSize: nat, riff': nat, dataSize': nat)
    requires Le(riff, 4) == Le(riff', 4) && Le(dataSize, 4) == Le(dataSize', 4)
    ensures Headers(f, riff, dataSize) == Headers(f, riff', dataSize')
  {
  }

  lemma PaddingAgrees(size: nat, total: nat)
    requires size % 2 == total % 2
    ensures 36 + size + (36 + size) % 2 == 36 + total % 2 + size
  {
  }

  lemma HeadersAreComplete(total: nat, f: Format)
    requires Usable(f) && BlockSize(f) > 0 && total % BlockSize(f) == 0 && SampleBytes(f) > 0
    ensures var size := BlockSize(f) * NumBlocks(total, f);
      Headers(f, 36 + size + (36 + size) % 2, size) == Headers(f, 36 + total + total % 2, total)
  {
    var size := BlockSize(f) * NumBlocks(total, f);
    DataSizeField(total, f, 36 + total % 2);
    DataSizeField(total, f, 0);
    PaddingAgrees(size, total);
    HeadersBySizes(f, 36 + total % 2 + size, size, 36 + total % 2 + total, total);
  }

  // ------------------------------------------------------------------- flushes do not matter

  // What has been flushed and what waits.
  datatype Wav = Wav(flushed: seq<Byte>, pending: seq<Byte>)

  datatype Op = Write(samples: seq<Byte>) | Flush

  function Next(w: Wav, op: Op, block: nat): Wav
    requires block > 0
  {
    match op
    case Write(d) => if |d| % block != 0 then w else w.(pending := w.pending + d)
    case Flush => Wav(w.flushed + w.pending, [])
  }

  function After(w: Wav, ops: seq<Op>, block: nat): Wav
    requires block > 0
    decreases |ops|
  {
    if ops == [] then w else After(Next(w, ops[0], block), ops[1..], block)
  }

  // The samples of the writes that are not refused.
  function Written(ops: seq<Op>, block: nat): seq<Byte>
    requires block > 0
    decreases |ops|
  {
    if ops == [] then []
    else (if ops[0].Write? && |ops[0].samples| % block == 0 then ops[0].samples else []) + Written(ops[1..], block)
  }

  // Once flushed, the file holds all the samples written and nothing else, wherever the flushes
  // before fell.
  lemma {:induction false} FlushedIsWritten(w: Wav, ops: seq<Op>, block: nat)
    requires block > 0
    ensures var t := Next(After(w, ops, block), Flush, block);
      t.flushed == w.flushed + w.pending + Written(ops, block) && t.pending == []
    decreases |ops|
  {
    if ops != [] {
      var now := if ops[0].Write? && |ops[0].samples| % block == 0 then ops[0].samples else [];
      FlushedIsWritten(Next(w, ops[0], block), ops[1..], block);
      Chained(w.flushed, w.pending, now);
      Chained(w.flushed + w.pending, now, Written(ops[1..], block));
    }
  }

  // Two runs that write the same samples end in the same file.
  lemma SameSamplesSameFile(f: Format, a: seq<Op>, b: seq<Op>)
    requires Usable(f) && BlockSize(f) > 0 && Written(a, BlockSize(f)) == Written(b, BlockSize(f))
    ensures var block := BlockSize(f);
      FileOf(f, Next(After(Wav([], []), a, block), Flush, block).flushed)
      == FileOf(f, Next(After(Wav([], []), b, block), Flush, block).flushed)
      == FileOf(f, Written(a, block))
  {
    FlushedIsWritten(Wav([], []), a, BlockSize(f));
    FlushedIsWritten(Wav([], []), b, BlockSize(f));
    assert [] + [] + Written(a, BlockSize(f)) == Written(a, BlockSize(f));
  }

  // Nothing is written to the file before there are samples.
  function FileOf(f: Format, flushed: seq<Byte>): seq<Byte> {
    if flushed == [] then [] else Complete(f, flushed)
  }

  // ---------------------------------------------------------------------------- the writer

  class SimpleWav {
    const format: Format
    var isOpen: bool
    var file: seq<Byte>
    var data: seq<Byte>
    var lastWrittenPos: nat
    ghost var flushed: seq<Byte>

    // Whole blocks; without bits in a sample there are none, and no samples either.
    ghost predicate Valid()
      reads this
    {
      && Creatable(format) && |flushed| == lastWrittenPos && file == FileOf(format, flushed)
      && (BlockSize(format) > 0 <==> Usable(format))
      && (BlockSize(format) > 0 ==> lastWrittenPos % BlockSize(format) == 0 && |data| % BlockSize(format) == 0)
      && (BlockSize(format) == 0 ==> flushed == [] && data == [])
    }

    ghost function Model(): Wav
      reads this
    {
      Wav(flushed, data)
    }

    constructor (f: Format)
      requires Creatable(f)
      ensures Valid() && Model() == Wav([], []) && format == f && isOpen
    {
      BlockSizePositive(f);
      if BlockSize(f) > 0 {
        ModUnique(0, BlockSize(f), 0, 0);
      }
      format, isOpen, file, data, lastWrittenPos, flushed := f, true, [], [], 0, [];
    }

    method WriteSamples(samples: seq<Byte>) returns (r: WriteResult)
      requires Valid()
      modifies this`data
      ensures Valid() && (r.DividesByZero? <==> format.bitsSample == 0)
      ensures r.DividesByZero? ==> Model() == old(Model()) == Wav([], [])
      ensures !r.DividesByZero? ==>
        && BlockSize(format) > 0 && Model() == Next(old(Model()), Write(samples), BlockSize(format))
        && r == if |samples| % BlockSize(format) == 0 then Accepted else Refused(NotEnoughData)
    {
      BlockSizePositive(format);
      var expectedBlockSize := SampleBytes(format) * format.channels;
      if expectedBlockSize == 0 {
        return DividesByZero;
      }
      if |samples| % expectedBlockSize != 0 {
        return Refused(NotEnoughData);
      }
      MultiplesAdd(|data|, |samples|, BlockSize(format));
      data := data + samples;
      return Accepted;
    }

    // Writes the headers over the beginning of the file and returns the position after them.
    method WriteHeaders() returns (at: nat)
      requires Valid() && data != []
      modifies this`file
      ensures var n := |flushed + data|;
        at == 44 && file == Overwrite(old(file), 0, Headers(format, 36 + n + n % 2, n))
    {
      MultiplesAdd(lastWrittenPos, |data|, BlockSize(format));
      ghost var k := WholeBlocks(lastWrittenPos + |data|, format);
      var numBlocks := NumBlocks(lastWrittenPos + |data|, format);
      HeadersAreComplete(lastWrittenPos + |data|, format);
      var riffSize := 4 + 24 + (8 + BlockSize(format) * numBlocks);
      if riffSize % 2 != 0 {
        riffSize := riffSize + 1;
      }
      file := Overwrite(file, 0, Headers(format, riffSize, BlockSize(format) * numBlocks));
      at := 44;
    }

    // Writes the waiting samples, and a pad byte if the total is odd.
    method WriteData(offset: nat)
      requires offset + lastWrittenPos <= |file|
      modifies this`file
      ensures file == Overwrite(old(file), offset + lastWrittenPos, data + Pad(lastWrittenPos + |data|))
    {
      var at := offset + lastWrittenPos;
      ghost var was := file;
      file := Overwrite(file, at, data);
      if (lastWrittenPos + |data|) % 2 != 0 {
        file := Overwrite(file, at + |data|, [0]);
        OverwriteInTurn(was, at, data, [0]);
      } else {
        assert data + [] == data;
      }
    }

    // FlushData past its tests
    method FlushPending()
      requires Valid() && data != []
      modifies this`file, this`lastWrittenPos, this`data, this`flushed
      ensures Valid() && data == [] && flushed == old(flushed + data)
    {
      ghost var n := |flushed + data|;
      FlushExtends(format, flushed, data, Headers(format, 36 + n + n % 2, n));
      MultiplesAdd(lastWrittenPos, |data|, BlockSize(format));
      ModUnique(0, BlockSize(format), 0, 0);
      var at := WriteHeaders();
      WriteData(at);
      lastWrittenPos, flushed, data := lastWrittenPos + |data|, flushed + data, [];
    }

    method FlushData()
      requires Valid()
      modifies this`file, this`lastWrittenPos, this`data, this`flushed
      ensures Valid()
      ensures Model() ==
        if isOpen && BlockSize(format) > 0 then Next(old(Model()), Flush, BlockSize(format)) else old(Model())
      ensures isOpen && old(data) != [] ==> file == Complete(format, old(flushed + data)) && data == []
    {
      if !isOpen {
        return;
      }
      if |data| == 0 {
        assert flushed + data == flushed;
        return;
      }
      FlushPending();
    }
  }

  lemma OverwriteInTurn(file: seq<Byte>, at: nat, a: seq<Byte>, b: seq<Byte>)
    requires at <= |file|
    ensures at + |a| <= |Overwrite(file, at, a)|
    ensures Overwrite(Overwrite(file, at, a), at + |a|, b) == Overwrite(file, at, a + b)
  {
  }
}
