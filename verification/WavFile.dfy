/**
 A complete WAV file as a function of its samples, and its header read back.
 */
module WavFile {
  import opened Arithmetic
  import opened Sequences

  type Byte = x: int | 0 <= x < 0x100

  const PCM := 1
  const FLOAT := 3

  datatype Format = Format(format: nat, channels: nat, bitsSample: nat, sampleRate: nat)

  function SampleBytes(f: Format): nat {
    f.bitsSample / 8
  }

  function BlockSize(f: Format): nat {
    SampleBytes(f) * f.channels
  }

  function ByteRate(f: Format): nat {
    f.sampleRate * SampleBytes(f) * f.channels
  }

  // The low k bytes of n, least significant first.
  function Le(n: nat, k: nat): (r: seq<Byte>)
    ensures |r| == k
    decreases k, n
  {
    if k == 0 then [] else [n % 0x100] + Le(n / 0x100, k - 1)
  }

  function ReadLe(bytes: seq<Byte>): nat {
    if bytes == [] then 0 else bytes[0] + 0x100 * ReadLe(bytes[1..])
  }

  // The fields of a file as a reader finds them, least significant byte first.
  function U16At(file: seq<Byte>, at: nat): nat
    requires at + 2 <= |file|
  {
    file[at] as int + 0x100 * file[at + 1] as int
  }

  function U32At(file: seq<Byte>, at: nat): nat
    requires at + 4 <= |file|
  {
    file[at] as int + 0x100 * file[at + 1] as int + 0x1_0000 * file[at + 2] as int + 0x100_0000 * file[at + 3] as int
  }

  lemma ReadTwo(bytes: seq<Byte>)
    requires |bytes| == 2
    ensures ReadLe(bytes) == U16At(bytes, 0)
  {
    assert ReadLe(bytes) == bytes[0] + 0x100 * ReadLe(bytes[1..]);
    assert ReadLe(bytes[1..]) == bytes[1] + 0x100 * ReadLe(bytes[1..][1..]);
  }

  lemma ReadFour(bytes: seq<Byte>)
    requires |bytes| == 4
    ensures ReadLe(bytes) == U32At(bytes, 0)
  {
    assert ReadLe(bytes) == bytes[0] + 0x100 * ReadLe(bytes[1..]);
    assert ReadLe(bytes[1..]) == bytes[1] + 0x100 * ReadLe(bytes[2..]) by { assert bytes[1..][1..] == bytes[2..]; }
    ReadTwo(bytes[2..]);
  }

  // Reading gives the number back exactly when it fits.
  lemma {:induction false} LeReadsBack(n: nat, k: nat)
    ensures ReadLe(Le(n, k)) == n <==> n < Power256(k)
    ensures ReadLe(Le(n, k)) < Power256(k)
    decreases k
  {
    if k > 0 {
      LeReadsBack(n / 0x100, k - 1);
      assert Le(n, k)[1..] == Le(n / 0x100, k - 1);
    }
  }

  // Higher digits do not matter.
  lemma {:induction false} LeIgnores(n: nat, q: nat, k: nat)
    ensures Le(n + Power256(k) * q, k) == Le(n, k)
    decreases k
  {
    if k > 0 {
      var m := Power256(k - 1) * q;
      assert Power256(k) * q == 0x100 * m by {
        assert 0x100 * Power256(k - 1) * q == 0x100 * (Power256(k - 1) * q);
      }
      ModUnique(n + 0x100 * m, 0x100, n / 0x100 + m, n % 0x100);
      LeIgnores(n / 0x100, q, k - 1);
    }
  }

  const RIFF: seq<Byte> := ['R' as int, 'I' as int, 'F' as int, 'F' as int]
  const WAVE: seq<Byte> := ['W' as int, 'A' as int, 'V' as int, 'E' as int]
  const FMT: seq<Byte> := ['f' as int, 'm' as int, 't' as int, ' ' as int]
  const DATA: seq<Byte> := ['d' as int, 'a' as int, 't' as int, 'a' as int]

  function FmtChunk(f: Format): (r: seq<Byte>)
    ensures |r| == 24
  {
    FMT + Le(16, 4) + Le(f.format, 2) + Le(f.channels, 2) + Le(f.sampleRate, 4)
    + Le(ByteRate(f), 4) + Le(BlockSize(f), 2) + Le(f.bitsSample, 2)
  }

  // The three headers, for the given numbers in the two size fields.
  function Headers(f: Format, riffSize: nat, dataSize: nat): (r: seq<Byte>)
    ensures |r| == 44
  {
    RIFF + Le(riffSize, 4) + (WAVE + FmtChunk(f) + DATA) + Le(dataSize, 4)
  }

  lemma SizeFields(f: Format, riffSize: nat, dataSize: nat)
    ensures var h := Headers(f, riffSize, dataSize); h[4..8] == Le(riffSize, 4) && h[40..44] == Le(dataSize, 4)
  {
    var middle := WAVE + FmtChunk(f) + DATA;
    Chained(RIFF + Le(riffSize, 4), middle, Le(dataSize, 4));
    var h := RIFF + Le(riffSize, 4) + (middle + Le(dataSize, 4));
    assert h[4..8] == Le(riffSize, 4);
    assert (RIFF + Le(riffSize, 4) + middle + Le(dataSize, 4))[40..] == Le(dataSize, 4);
  }

  lemma FmtFields(f: Format)
    ensures var c := FmtChunk(f);
      && c[..4] == FMT && c[4..8] == Le(16, 4) && c[8..10] == Le(f.format, 2) && c[10..12] == Le(f.channels, 2)
      && c[12..16] == Le(f.sampleRate, 4) && c[16..20] == Le(ByteRate(f), 4)
      && c[20..22] == Le(BlockSize(f), 2) && c[22..24] == Le(f.bitsSample, 2)
  {
    var c2 := FMT + Le(16, 4);
    var c3 := c2 + Le(f.format, 2);
    var c4 := c3 + Le(f.channels, 2);
    var c5 := c4 + Le(f.sampleRate, 4);
    var c6 := c5 + Le(ByteRate(f), 4);
    var c7 := c6 + Le(BlockSize(f), 2);
    var c := c7 + Le(f.bitsSample, 2);
    assert c == FmtChunk(f);
    LastPart(FMT, Le(16, 4), c);
    LastPart(c2, Le(f.format, 2), c);
    LastPart(c3, Le(f.channels, 2), c);
    LastPart(c4, Le(f.sampleRate, 4), c);
    LastPart(c5, Le(ByteRate(f), 4), c);
    LastPart(c6, Le(BlockSize(f), 2), c);
    LastPart(c7, Le(f.bitsSample, 2), c);
  }

  lemma LastPart(a: seq<Byte>, b: seq<Byte>, c: seq<Byte>)
    requires a + b <= c
    ensures c[|a|..|a| + |b|] == b && a <= c
  {
  }

  function Pad(n: nat): seq<Byte> {
    if n % 2 == 1 then [0] else []
  }

  // The file written in one go: header, samples, and a pad byte to an even length.
  function Complete(f: Format, samples: seq<Byte>): (file: seq<Byte>)
    ensures |file| == 44 + |samples| + |samples| % 2
  {
    Headers(f, 36 + |samples| + |samples| % 2, |samples|) + samples + Pad(|samples|)
  }

  lemma HeaderInFront(h: seq<Byte>, samples: seq<Byte>, pad: seq<Byte>)
    requires |h| == 44
    ensures var file := h + samples + pad;
      file[4..8] == h[4..8] && file[40..44] == h[40..44] && file[44..44 + |samples|] == samples
  {
  }

  lemma {:induction false} FieldsOf(f: Format, samples: seq<Byte>)
    ensures var file := Complete(f, samples);
      && file[4..8] == Le(36 + |samples| + |samples| % 2, 4) && file[40..44] == Le(|samples|, 4)
      && file[44..44 + |samples|] == samples
  {
    var n := |samples|;
    SizeFields(f, 36 + n + n % 2, n);
    HeaderInFront(Headers(f, 36 + n + n % 2, n), samples, Pad(n));
  }

  lemma PaddedIsEven(n: nat)
    ensures (44 + n + n % 2) % 2 == 0
  {
  }

  // The RIFF size read back is the length of the file but for eight bytes, and the data size
  // that of the samples, exactly when they fit 32 bits.
  lemma SizesReadBack(f: Format, samples: seq<Byte>)
    ensures var file := Complete(f, samples);
      && |file| % 2 == 0 && file[44..44 + |samples|] == samples
      && file[44 + |samples|..] == (if |samples| % 2 == 1 then [0] else [])
      && (U32At(file, 4) == |file| - 8 <==> |file| - 8 < 0x1_0000_0000)
      && (U32At(file, 40) == |samples| <==> |samples| < 0x1_0000_0000)
  {
    var file := Complete(f, samples);
    PaddedIsEven(|samples|);
    FieldsOf(f, samples);
    LongReadsBack(file, 4, 36 + |samples| + |samples| % 2);
    LongReadsBack(file, 40, |samples|);
  }

  lemma FmtInFile(f: Format, samples: seq<Byte>)
    ensures var file := Complete(f, samples);
      && file[..4] == RIFF && file[8..12] == WAVE && file[12..36] == FmtChunk(f) && file[36..40] == DATA
  {
    var n := |samples|;
    var middle, riff := WAVE + FmtChunk(f) + DATA, Le(36 + n + n % 2, 4);
    var rest := Le(n, 4) + samples + Pad(n);
    assert Complete(f, samples) == (RIFF + riff) + middle + rest;
    LastPart(RIFF + riff, middle, (RIFF + riff) + middle + rest);
    assert ((RIFF + riff) + middle + rest)[8..36 + 4] == middle;
    SubParts(Complete(f, samples), middle);
  }

  lemma SubParts(file: seq<Byte>, middle: seq<Byte>)
    requires |file| >= 44 && |middle| == 32 && file[8..40] == middle
    ensures file[8..12] == middle[..4] && file[12..36] == middle[4..28] && file[36..40] == middle[28..]
  {
    SliceOfSlice(file, 8, 40, 0, 4);
    SliceOfSlice(file, 8, 40, 4, 28);
    SliceOfSlice(file, 8, 40, 28, 32);
  }

  lemma SliceOfSlice(s: seq<Byte>, a: nat, b: nat, i: nat, j: nat)
    requires a + j <= b <= |s| && i <= j
    ensures s[a..b][i..j] == s[a + i..a + j]
  {
    var left, right := s[a..b][i..j], s[a + i..a + j];
    forall k | 0 <= k < |left|
      ensures left[k] == right[k]
    {
      assert left[k] == s[a..b][i + k];
    }
  }

  // Where the fields of the format chunk lie in a file.
  ghost predicate HasFormat(file: seq<Byte>, f: Format) {
    && |file| >= 44 && file[..4] == RIFF && file[8..12] == WAVE && file[12..16] == FMT && file[36..40] == DATA
    && file[16..20] == Le(16, 4) && file[20..22] == Le(f.format, 2) && file[22..24] == Le(f.channels, 2)
    && file[24..28] == Le(f.sampleRate, 4) && file[28..32] == Le(ByteRate(f), 4)
    && file[32..34] == Le(BlockSize(f), 2) && file[34..36] == Le(f.bitsSample, 2)
  }

  lemma FormatInFile(f: Format, samples: seq<Byte>)
    ensures HasFormat(Complete(f, samples), f)
  {
    var file := Complete(f, samples);
    FmtInFile(f, samples);
    FmtFields(f);
    SliceOfSlice(file, 12, 36, 0, 4);
    SliceOfSlice(file, 12, 36, 4, 8);
    SliceOfSlice(file, 12, 36, 8, 10);
    SliceOfSlice(file, 12, 36, 10, 12);
    SliceOfSlice(file, 12, 36, 12, 16);
    SliceOfSlice(file, 12, 36, 16, 20);
    SliceOfSlice(file, 12, 36, 20, 22);
    SliceOfSlice(file, 12, 36, 22, 24);
  }

  lemma ShortReadsBack(file: seq<Byte>, at: nat, n: nat)
    requires at + 2 <= |file| && file[at..at + 2] == Le(n, 2)
    ensures U16At(file, at) == n <==> n < 0x1_0000
  {
    LeReadsBack(n, 2);
    assert Power256(2) == 0x1_0000;
    ReadTwo(file[at..at + 2]);
  }

  lemma LongReadsBack(file: seq<Byte>, at: nat, n: nat)
    requires at + 4 <= |file| && file[at..at + 4] == Le(n, 4)
    ensures U32At(file, at) == n <==> n < 0x1_0000_0000
  {
    LeReadsBack(n, 4);
    assert Power256(2) == 0x1_0000;
    assert Power256(4) == 0x100 * (0x100 * Power256(2));
    ReadFour(file[at..at + 4]);
  }

  // Every field of the format chunk reads back as it was given; the byte rate and the block
  // size exactly when they fit their fields.
  lemma FormatReadsBack(f: Format, samples: seq<Byte>)
    requires f.format < 0x1_0000 && f.channels < 0x1_0000 && f.bitsSample < 0x1_0000
    requires f.sampleRate < 0x1_0000_0000
    ensures var file := Complete(f, samples);
      && U32At(file, 16) == 16 && U16At(file, 20) == f.format && U16At(file, 22) == f.channels
      && U32At(file, 24) == f.sampleRate && U16At(file, 34) == f.bitsSample
      && var rate, block := f.sampleRate * (f.bitsSample / 8) * f.channels, (f.bitsSample / 8) * f.channels;
      && (U32At(file, 28) == rate <==> rate < 0x1_0000_0000) && (U16At(file, 32) == block <==> block < 0x1_0000)
  {
    var file := Complete(f, samples);
    FormatInFile(f, samples);
    LongReadsBack(file, 16, 16);
    ShortReadsBack(file, 20, f.format);
    ShortReadsBack(file, 22, f.channels);
    LongReadsBack(file, 24, f.sampleRate);
    LongReadsBack(file, 28, ByteRate(f));
    ShortReadsBack(file, 32, BlockSize(f));
    ShortReadsBack(file, 34, f.bitsSample);
  }

  // ------------------------------------------------------------------ writing over a file

  function Overwrite(file: seq<Byte>, at: nat, bytes: seq<Byte>): (r: seq<Byte>)
    requires at <= |file|
    ensures |r| == if at + |bytes| > |file| then at + |bytes| else |file|
  {
    file[..at] + bytes + (if at + |bytes| < |file| then file[at + |bytes|..] else [])
  }

  lemma OverwriteTwice(h: seq<Byte>, done: seq<Byte>, pad: seq<Byte>, header: seq<Byte>, tail: seq<Byte>)
    requires |h| == |header| && |pad| <= |tail|
    ensures Overwrite(h + done + pad, 0, header) == header + done + pad
    ensures Overwrite(header + done + pad, |header| + |done|, tail) == header + done + tail
  {
    assert (h + done + pad)[|header|..] == done + pad;
    assert (header + done + pad)[..|header| + |done|] == header + done;
    assert |h + done + pad| == |header| ==> done + pad == [];
  }

  // Headers in front of an empty file, then the data.
  lemma FirstFlush(header: seq<Byte>, tail: seq<Byte>)
    ensures Overwrite([], 0, header) == header
    ensures Overwrite(header, |header|, tail) == header + tail
  {
    assert header[..|header|] == header;
  }

  lemma Continues(f: Format, done: seq<Byte>, more: seq<Byte>, header: seq<Byte>)
    requires header == Headers(f, 36 + |done + more| + |done + more| % 2, |done + more|)
    ensures header + done + (more + Pad(|done + more|)) == Complete(f, done + more)
  {
    Chained(header + done, more, Pad(|done + more|));
    Chained(header, done, more);
  }

  // The header is replaced and the data, with its pad byte, continues where the old data ends:
  // the old pad byte, if there was one, is written over.
  lemma FlushExtends(f: Format, done: seq<Byte>, more: seq<Byte>, header: seq<Byte>)
    requires more != [] && |header| == 44
    requires header == Headers(f, 36 + |done + more| + |done + more| % 2, |done + more|)
    ensures var file := if done == [] then [] else Complete(f, done);
      && 44 + |done| <= |Overwrite(file, 0, header)|
      && Overwrite(Overwrite(file, 0, header), 44 + |done|, more + Pad(|done + more|)) == Complete(f, done + more)
  {
    var tail := more + Pad(|done + more|);
    Continues(f, done, more, header);
    if done == [] {
      FirstFlush(header, tail);
      assert header + done == header;
    } else {
      OverwriteTwice(Headers(f, 36 + |done| + |done| % 2, |done|), done, Pad(|done|), header, tail);
    }
  }
}
