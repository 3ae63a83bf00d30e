/**
 The streaming SHA-256 object: a 64-byte buffer in front of the compression function, the
 padding written into it, and a digest that can be asked for at any time.
 */
module Sha256Stream {
  import opened Arithmetic
  import opened Words
  import opened Sequences
  import opened Sha256Spec
  import Sha256

  // ------------------------------------------------------------------- 64-bit counting

  lemma {:induction false} Low64IsMod(n: nat)
    ensures Low64(n) == n % WIDTH64
  {
    if n < WIDTH64 {
      ModUnique(n, WIDTH64, 0, n);
    } else {
      Low64IsMod(n - WIDTH64);
      var q := (n - WIDTH64) / WIDTH64;
      assert n == WIDTH64 * (q + 1) + (n - WIDTH64) % WIDTH64;
      ModUnique(n, WIDTH64, q + 1, (n - WIDTH64) % WIDTH64);
    }
  }

  // Whole turns of the counter do not matter.
  lemma {:induction false} WholeTurns(n: nat, q: nat)
    ensures Low64(n + WIDTH64 * q) == Low64(n)
    decreases q
  {
    if q > 0 {
      WholeTurns(n, q - 1);
      assert n + WIDTH64 * q - WIDTH64 == n + WIDTH64 * (q - 1);
    }
  }

  lemma {:induction false} Turns(n: nat) returns (q: nat)
    ensures n == Low64(n) + WIDTH64 * q
    decreases n
  {
    q := 0;
    if n >= WIDTH64 {
      var p := Turns(n - WIDTH64);
      q := p + 1;
    }
  }

  lemma CountWraps(n: nat)
    ensures Low64(Low64(n) + 64) == Low64(n + 64)
  {
    var q := Turns(n);
    WholeTurns(Low64(n) + 64, q);
  }

  lemma BitsWrap(n: nat, k: nat)
    ensures Low64(8 * Low64(Low64(n) + k)) == Low64(8 * (n + k))
  {
    var q := Turns(n);
    WholeTurns(Low64(n) + k, q);
    var p := Turns(n + k);
    WholeTurns(8 * Low64(n + k), 8 * p);
  }

  lemma DivStep(n: nat, d: nat)
    requires d > 0
    ensures n / (0x100 * d) == n / 0x100 / d
  {
    var q := n / 0x100 / d;
    var r := n / 0x100 % d;
    assert n / 0x100 == d * q + r;
    assert 0x100 * (d * q) == 0x100 * d * q;
    assert n == 0x100 * d * q + (0x100 * r + n % 0x100);
    ModUnique(n, 0x100 * d, q, 0x100 * r + n % 0x100);
  }

  // ------------------------------------------------------------------- the length field

  // n >> 8 * bytes
  function ShiftRight(n: nat, bytes: nat): nat
    decreases bytes, n
  {
    if bytes == 0 then n else ShiftRight(n / 0x100, bytes - 1)
  }

  lemma {:induction false} ShiftRightDivides(n: nat, k: nat)
    ensures Power256(k) > 0 && ShiftRight(n, k) == n / Power256(k)
    decreases k
  {
    if k > 0 {
      ShiftRightDivides(n / 0x100, k - 1);
      DivStep(n, Power256(k - 1));
    }
  }

  lemma {:induction false} ShiftsAreDigits(n: nat, k: nat, i: nat)
    requires i < k
    ensures Digits(n, k)[i] == ShiftRight(n, k - 1 - i) % 0x100
    decreases k
  {
    if i < k - 1 {
      ShiftsAreDigits(n / 0x100, k - 1, i);
    }
  }

  function LengthByte(bits: nat, k: nat): bv8 {
    ByteFrom(ShiftRight(bits, k) % 0x100)
  }

  lemma LengthFieldBytes(bits: nat)
    requires bits < WIDTH64
    ensures LengthField(bits) ==
      [LengthByte(bits, 7), LengthByte(bits, 6), LengthByte(bits, 5), LengthByte(bits, 4),
       LengthByte(bits, 3), LengthByte(bits, 2), LengthByte(bits, 1), LengthByte(bits, 0)]
  {
    ShiftsAreDigits(bits, 8, 0);
    ShiftsAreDigits(bits, 8, 1);
    ShiftsAreDigits(bits, 8, 2);
    ShiftsAreDigits(bits, 8, 3);
    ShiftsAreDigits(bits, 8, 4);
    ShiftsAreDigits(bits, 8, 5);
    ShiftsAreDigits(bits, 8, 6);
    ShiftsAreDigits(bits, 8, 7);
  }

  // The eight bytes from `at` on are the number of bits, most significant byte first.
  ghost predicate ReadsAt(bytes: seq<bv8>, at: nat, bits: nat) {
    at + 8 <= |bytes| && ReadBytes(bytes[at..at + 8]) == bits
  }

  lemma FieldReadsAt(front: seq<bv8>, back: seq<bv8>, bits: nat)
    requires bits < WIDTH64
    ensures ReadsAt(front + LengthField(bits) + back, |front|, bits)
  {
    LengthFieldReadsBack(bits);
    assert (front + LengthField(bits) + back)[|front|..|front| + 8] == LengthField(bits);
  }

  // The eight stores of the length, most significant byte first.
  method StoreLength(a: array<bv8>, at: nat, bits: nat)
    requires at + 8 <= a.Length && bits < WIDTH64
    modifies a
    ensures a[..] == old(a[..at]) + LengthField(bits) + old(a[at + 8..])
    ensures ReadsAt(a[..], at, bits)
  {
    ghost var front, back := a[..at], a[at + 8..];
    LengthFieldBytes(bits);
    a[at], a[at + 1] := LengthByte(bits, 7), LengthByte(bits, 6);
    a[at + 2], a[at + 3] := LengthByte(bits, 5), LengthByte(bits, 4);
    a[at + 4], a[at + 5] := LengthByte(bits, 3), LengthByte(bits, 2);
    a[at + 6], a[at + 7] := LengthByte(bits, 1), LengthByte(bits, 0);
    FieldReadsAt(front, back, bits);
  }

  // ------------------------------------------------------------------- the end of a message

  // The padding's length is where the bit count leaves room for the length.
  function PaddedLength(size: nat): nat {
    var bits := size * 8 + 1;
    (if bits % 512 <= 448 then bits + (448 - bits % 512) else bits + (512 + 448 - bits % 512)) / 8
  }

  lemma PaddedLengthIs(size: nat)
    requires size <= 64
    ensures PaddedLength(size) == size + 1 + ZeroBytes(size) == if size <= 55 then 56 else 120
  {
  }

  // What follows the compressed blocks: the buffered bytes and the padding.
  function Ending(rest: seq<bv8>, bits: nat): seq<bv8>
    requires bits < WIDTH64
  {
    rest + ([0x80] + Zeros(ZeroBytes(|rest|)) + LengthField(bits))
  }

  lemma EndingReadsBack(rest: seq<bv8>, bits: nat)
    requires bits < WIDTH64
    ensures var e := Ending(rest, bits); |e| >= 8 && ReadsAt(e, |e| - 8, bits)
  {
    var front := rest + ([0x80] + Zeros(ZeroBytes(|rest|)));
    FieldReadsAt(front, [], bits);
    assert Ending(rest, bits) == front + LengthField(bits) + [];
  }

  // What the two buffers end in.
  lemma BlockReadsBack(first: seq<bv8>, second: seq<bv8>, both: bool, bits: nat)
    requires |first| == 64 == |second|
    requires ReadsAt(if both then first + second else first, if both then 120 else 56, bits)
    ensures ReadsAt(if both then second else first, 56, bits)
  {
    assert (first + second)[120..128] == second[56..64];
  }

  // With the compressed blocks it makes the padded message.
  lemma EndingPads(done: seq<bv8>, rest: seq<bv8>)
    requires |done| % 64 == 0
    ensures Pad(done + rest) == done + Ending(rest, Low64(8 * |done + rest|))
  {
    var m := done + rest;
    assert |m| % 64 == |rest| % 64;
    Chained(done, rest, Padding(|m|));
  }

  // The blocks of the ending, as two buffers hold them.
  lemma EndingBlocks(rest: seq<bv8>, bits: nat, first: seq<bv8>, second: seq<bv8>)
    requires |rest| <= 64 && |first| == 64 == |second| && bits < WIDTH64
    requires var p := PaddedLength(|rest|);
      p + 8 <= 128 && first + second == Ending(rest, bits) + (first + second)[p + 8..]
    ensures PaddedLength(|rest|) <= 64 ==> Ending(rest, bits) == first
    ensures PaddedLength(|rest|) > 64 ==> Ending(rest, bits) == first + second
  {
    PaddedLengthIs(|rest|);
    var all := first + second;
    assert Ending(rest, bits) == all[..|Ending(rest, bits)|];
    assert all[..64] == first && all[..128] == all;
  }

  lemma HashOne(h: Registers, block: seq<bv8>)
    requires |block| == 64
    ensures HashBlocks(h, block) == Compress(h, block)
  {
    assert block[..64] == block && block[64..] == [];
    assert HashBlocks(h, block) == HashFrom(h, block);
  }

  lemma HashTwo(h: Registers, b1: seq<bv8>, b2: seq<bv8>)
    requires |b1| == 64 == |b2|
    ensures HashBlocks(h, b1 + b2) == Compress(Compress(h, b1), b2)
  {
    HashBlocksConcat(h, b1, b2);
    HashOne(h, b1);
    HashOne(Compress(h, b1), b2);
  }

  lemma HashEnding(h: Registers, b1: seq<bv8>, b2: seq<bv8>)
    requires |b1| == 64 == |b2|
    ensures HashBlocks(h, b1) == Compress(h, b1)
    ensures HashBlocks(h, b1 + b2) == Compress(Compress(h, b1), b2)
  {
    HashOne(h, b1);
    HashTwo(h, b1, b2);
  }

  lemma {:induction false} HashOneMore(h: Registers, done: seq<bv8>, block: seq<bv8>)
    requires |done| % 64 == 0 && |block| == 64
    ensures HashBlocks(h, done + block) == Compress(HashBlocks(h, done), block)
  {
    HashBlocksConcat(h, done, block);
    HashOne(HashBlocks(h, done), block);
  }

  lemma CountOneMore(done: seq<bv8>, block: seq<bv8>)
    requires |done| % 64 == 0 && |block| == 64
    ensures |done + block| % 64 == 0 && Low64(|done + block|) == Low64(Low64(|done|) + 64)
  {
    assert |done + block| == |done| + 64;
    CountWraps(|done|);
  }

  // The first i bytes are the rest of the message, the byte 0x80 and zeros.
  ghost predicate Padded(all: seq<bv8>, rest: seq<bv8>, i: nat) {
    |rest| < i <= |all| && all[..i] == rest + ([0x80] + Zeros(i - |rest| - 1))
  }

  lemma OneAppended(all: seq<bv8>, rest: seq<bv8>)
    requires |rest| < |all| && all[..|rest|] == rest
    ensures Padded(all[|rest| := 0x80], rest, |rest| + 1)
  {
  }

  lemma ZeroAppended(all: seq<bv8>, rest: seq<bv8>, i: nat)
    requires Padded(all, rest, i) && i < |all|
    ensures Padded(all[i := 0], rest, i + 1)
  {
    assert Zeros(i - |rest|) == Zeros(i - |rest| - 1) + [0];
    assert all[i := 0][..i + 1] == all[..i] + [0];
  }

  lemma PaddedShorter(all: seq<bv8>, rest: seq<bv8>, i: nat, j: nat)
    requires Padded(all, rest, i) && |rest| < j <= i
    ensures Padded(all, rest, j)
  {
    assert all[..j] == all[..i][..j];
  }

  lemma LengthAppended(all: seq<bv8>, rest: seq<bv8>, padded: nat, bits: nat)
    requires Padded(all, rest, padded) && padded + 8 <= |all| && bits < WIDTH64
    requires padded == |rest| + 1 + ZeroBytes(|rest|)
    ensures var r := all[..padded] + LengthField(bits) + all[padded + 8..];
      |r| == |all| && r == Ending(rest, bits) + r[padded + 8..]
  {
    var r := all[..padded] + LengthField(bits) + all[padded + 8..];
    assert all[..padded] + LengthField(bits) == Ending(rest, bits);
    assert r[padded + 8..] == all[padded + 8..];
  }

  // ---------------------------------------------------------------------- the digest

  function Words8(r: Registers): seq<bv32> {
    [r.a, r.b, r.c, r.d, r.e, r.f, r.g, r.h]
  }

  function BytesOf(x: bv32): (bytes: seq<bv8>)
    ensures |bytes| == 4
  {
    [Byte(x, 3) as bv8, Byte(x, 2) as bv8, Byte(x, 1) as bv8, Byte(x, 0) as bv8]
  }

  function RawHash(words: seq<bv32>): (bytes: seq<bv8>)
    ensures |bytes| == 4 * |words|
    decreases |words|
  {
    if words == [] then [] else BytesOf(words[0]) + RawHash(words[1..])
  }

  // Word i of a digest read back, big-endian.
  function WordAt(bytes: seq<bv8>, i: nat): bv32
    requires 4 * i + 3 < |bytes|
  {
    Word(bytes[4 * i + 3], bytes[4 * i + 2], bytes[4 * i + 1], bytes[4 * i])
  }

  lemma BytesReadBack(x: bv32)
    ensures var b := BytesOf(x); Word(b[3], b[2], b[1], b[0]) == x
  {
    WordOfBytes(x);
  }

  lemma {:induction false} RawHashReadsBack(words: seq<bv32>, i: nat)
    requires i < |words|
    ensures WordAt(RawHash(words), i) == words[i]
    decreases |words|
  {
    if i == 0 {
      BytesReadBack(words[0]);
    } else {
      RawHashReadsBack(words[1..], i - 1);
      var b, rest := RawHash(words), RawHash(words[1..]);
      assert b[4 * i] == rest[4 * (i - 1)] && b[4 * i + 1] == rest[4 * (i - 1) + 1];
      assert b[4 * i + 2] == rest[4 * (i - 1) + 2] && b[4 * i + 3] == rest[4 * (i - 1) + 3];
    }
  }

  // The eight words of the hash one after another, each most significant byte first.
  ghost predicate IsDigest(bytes: seq<bv8>, h: Registers)
    requires |bytes| == 32
  {
    && WordAt(bytes, 0) == h.a && WordAt(bytes, 1) == h.b && WordAt(bytes, 2) == h.c && WordAt(bytes, 3) == h.d
    && WordAt(bytes, 4) == h.e && WordAt(bytes, 5) == h.f && WordAt(bytes, 6) == h.g && WordAt(bytes, 7) == h.h
  }

  lemma DigestReadsBack(h: Registers)
    ensures IsDigest(RawHash(Words8(h)), h)
  {
    var ws := Words8(h);
    RawHashReadsBack(ws, 0);
    RawHashReadsBack(ws, 1);
    RawHashReadsBack(ws, 2);
    RawHashReadsBack(ws, 3);
    RawHashReadsBack(ws, 4);
    RawHashReadsBack(ws, 5);
    RawHashReadsBack(ws, 6);
    RawHashReadsBack(ws, 7);
  }

  lemma EndingHashed(start: Registers, done: seq<bv8>, rest: seq<bv8>)
    requires |done| % 64 == 0
    ensures HashBlocks(start, Pad(done + rest))
      == HashBlocks(HashBlocks(start, done), Ending(rest, Low64(8 * |done + rest|)))
  {
    EndingPads(done, rest);
    HashBlocksConcat(start, done, Ending(rest, Low64(8 * |done + rest|)));
  }

  lemma BitsOfMessage(done: seq<bv8>, rest: seq<bv8>)
    ensures Low64(8 * Low64(Low64(|done|) + |rest|)) == Low64(8 * |done + rest|)
  {
    assert |done + rest| == |done| + |rest|;
    BitsWrap(|done|, |rest|);
  }

  // The hash after the ending is that of the padded message.
  lemma DigestIs(h: Registers, done: seq<bv8>, rest: seq<bv8>, numBytes: nat, h': Registers)
    requires |done| % 64 == 0 && numBytes == Low64(|done|) && h == HashBlocks(INITIAL, done)
    requires h' == HashBlocks(h, Ending(rest, Low64(8 * Low64(numBytes + |rest|))))
    ensures h' == Sha256Spec.Sha256(done + rest)
  {
    BitsOfMessage(done, rest);
    EndingHashed(INITIAL, done, rest);
  }

  // -------------------------------------------------------------------------- the object

  class SHA256 {
    const bigEndian: bool
    const buffer: array<bv8>
    var numBytes: nat
    var bufferSize: nat
    var hash: Registers
    // the bytes compressed so far
    ghost var done: seq<bv8>

    ghost predicate Valid()
      reads this, buffer
    {
      && buffer.Length == 64 && bufferSize < 64 && |done| % 64 == 0
      && numBytes == Low64(|done|) && hash == HashBlocks(INITIAL, done)
    }

    ghost function Message(): seq<bv8>
      reads this, buffer
      requires bufferSize <= buffer.Length
    {
      done + buffer[..bufferSize]
    }

    constructor (bigEndian: bool)
      ensures Valid() && Message() == [] && fresh(buffer)
    {
      this.bigEndian := bigEndian;
      buffer := new bv8[64];
      numBytes, bufferSize, hash, done := 0, 0, INITIAL, [];
    }

    // Valid, but for a full buffer.
    ghost predicate Open()
      reads this, buffer
    {
      && buffer.Length == 64 && bufferSize <= 64 && |done| % 64 == 0
      && numBytes == Low64(|done|) && hash == HashBlocks(INITIAL, done)
    }

    // The loops that copy into the buffer.
    method Fill(data: seq<bv8>, from: nat) returns (i: nat)
      requires Open() && from <= |data|
      modifies this`bufferSize, buffer
      ensures Open() && from <= i <= |data| && (i == |data| || bufferSize == 64)
      ensures bufferSize == old(bufferSize) + (i - from)
      ensures Message() == old(Message()) + data[from..i]
    {
      i := from;
      ghost var m := Message();
      while i < |data| && bufferSize < 64
        invariant from <= i <= |data| && Open() && bufferSize == old(bufferSize) + (i - from)
        invariant Message() == m + data[from..i]
      {
        ghost var before := buffer[..bufferSize];
        buffer[bufferSize] := data[i];
        assert buffer[..bufferSize + 1] == before + [data[i]];
        assert data[from..i + 1] == data[from..i] + [data[i]];
        Chained(done, before, [data[i]]);
        Chained(m, data[from..i], [data[i]]);
        bufferSize, i := bufferSize + 1, i + 1;
      }
    }

    // processBlock, and the count after it
    method TakeBlock(block: seq<bv8>)
      requires Open() && |block| == 64
      modifies this`hash, this`numBytes, this`done
      ensures Open() && done == old(done) + block
    {
      ghost var more := done + block;
      HashOneMore(INITIAL, done, block);
      CountOneMore(done, block);
      hash := Sha256.ProcessBlock(hash, block, bigEndian);
      numBytes, done := Low64(numBytes + 64), more;
    }

    method TakeFullBuffer()
      requires Open()
      modifies this`hash, this`numBytes, this`done, this`bufferSize
      ensures Valid() && Message() == old(Message())
      ensures bufferSize == if old(bufferSize) == 64 then 0 else old(bufferSize)
    {
      if bufferSize == 64 {
        assert buffer[..64] == buffer[..];
        TakeBlock(buffer[..]);
        bufferSize := 0;
        assert Message() == done;
      }
    }

    // The loop over full blocks.
    method TakeBlocks(data: seq<bv8>, from: nat) returns (i: nat)
      requires Valid() && bufferSize == 0 && from <= |data|
      modifies this`hash, this`numBytes, this`done
      ensures Valid() && from <= i <= |data| && |data| - i < 64
      ensures Message() == old(Message()) + data[from..i]
    {
      i := from;
      while |data| - i >= 64
        invariant from <= i <= |data| && Valid()
        invariant done == old(done) + data[from..i]
      {
        assert data[from..i + 64] == data[from..i] + data[i..i + 64];
        Chained(old(done), data[from..i], data[i..i + 64]);
        TakeBlock(data[i..i + 64]);
        i := i + 64;
      }
    }

    // What comes before the full blocks: the buffer is filled up, and taken if full.
    method CompleteBuffer(data: seq<bv8>) returns (i: nat)
      requires Valid()
      modifies this`hash, this`numBytes, this`done, this`bufferSize, buffer
      ensures Valid() && i <= |data| && (i == |data| || bufferSize == 0)
      ensures Message() == old(Message()) + data[..i]
    {
      i := 0;
      if bufferSize > 0 {
        i := Fill(data, 0);
      }
      TakeFullBuffer();
    }

    // The rest of the data, from i on: full blocks, then what the buffer has to keep.
    method AddRest(data: seq<bv8>, i: nat)
      requires Valid() && bufferSize == 0 && i <= |data|
      modifies this, buffer
      ensures Valid() && Message() == old(Message()) + data[i..]
    {
      var j := TakeBlocks(data, i);
      ghost var k := j;
      j := Fill(data, j);
      Chained(old(Message()), data[i..k], data[k..]);
      assert data[i..k] + data[k..] == data[i..];
      assert data[k..j] == data[k..];
    }

    method Add(data: seq<bv8>)
      requires Valid()
      modifies this, buffer
      ensures Valid() && Message() == old(Message()) + data
    {
      var i := CompleteBuffer(data);
      Chained(old(Message()), data[..i], data[i..]);
      assert data[..i] + data[i..] == data;
      if i == |data| {
        assert data[..i] == data;
        return;
      }
      AddRest(data, i);
    }

    // processBuffer writes the byte 0x80 and the zeros into the buffer and, where it is too
    // short, into extra, which continues it.
    method WriteZeros(extra: array<bv8>, padded: nat)
      requires buffer.Length == 64 == extra.Length && buffer != extra && bufferSize <= 64
      requires padded == 120 || (padded == 56 && bufferSize < 56)
      modifies buffer, extra
      ensures Padded(buffer[..] + extra[..], old(buffer[..bufferSize]), padded)
    {
      ghost var rest, all := buffer[..bufferSize], buffer[..] + extra[..];
      if bufferSize < 64 {
        buffer[bufferSize] := 128;
      } else {
        extra[0] := 128;
      }
      assert buffer[..] + extra[..] == all[bufferSize := 128];
      OneAppended(all, rest);
      var i := bufferSize + 1;
      while i < 64
        invariant bufferSize < i <= 65 && Padded(buffer[..] + extra[..], rest, i)
        invariant bufferSize == 64 || i <= 64
        modifies buffer
      {
        ghost var before := buffer[..] + extra[..];
        ZeroAppended(before, rest, i);
        buffer[i] := 0;
        assert buffer[..] + extra[..] == before[i := 0];
        i := i + 1;
      }
      while i < padded
        invariant 64 <= i <= 120 && Padded(buffer[..] + extra[..], rest, i)
        modifies extra
      {
        ghost var before := buffer[..] + extra[..];
        ZeroAppended(before, rest, i);
        extra[i - 64] := 0;
        assert buffer[..] + extra[..] == before[i := 0];
        i := i + 1;
      }
      PaddedShorter(buffer[..] + extra[..], rest, i, padded);
    }

    method WriteLength(extra: array<bv8>, padded: nat, bits: nat)
      requires buffer.Length == 64 == extra.Length && buffer != extra
      requires (padded == 56 || padded == 120) && bits < WIDTH64
      modifies buffer, extra
      ensures var before := old(buffer[..]) + old(extra[..]);
        buffer[..] + extra[..] == before[..padded] + LengthField(bits) + before[padded + 8..]
    {
      if padded < 64 {
        StoreLength(buffer, padded, bits);
      } else {
        StoreLength(extra, padded - 64, bits);
      }
    }

    // The ending of the message, in the buffer and perhaps extra.
    method PadBuffers(extra: array<bv8>, bits: nat) returns (padded: nat)
      requires buffer.Length == 64 == extra.Length && buffer != extra && bufferSize <= 64 && bits < WIDTH64
      modifies buffer, extra
      ensures Ending(old(buffer[..bufferSize]), bits) == if padded > 64 then buffer[..] + extra[..] else buffer[..]
      ensures ReadsAt(if padded > 64 then extra[..] else buffer[..], 56, bits)
      ensures buffer[..bufferSize] == old(buffer[..bufferSize])
    {
      PaddedLengthIs(bufferSize);
      padded := PaddedLength(bufferSize);
      ghost var rest := buffer[..bufferSize];
      WriteZeros(extra, padded);
      LengthAppended(buffer[..] + extra[..], rest, padded, bits);
      WriteLength(extra, padded, bits);
      EndingBlocks(rest, bits, buffer[..], extra[..]);
      assert buffer[..bufferSize] == Ending(rest, bits)[..bufferSize];
      EndingReadsBack(rest, bits);
      BlockReadsBack(buffer[..], extra[..], padded > 64, bits);
    }

    method ProcessBuffer()
      requires buffer.Length == 64 && bufferSize <= 64 && numBytes < WIDTH64
      modifies this`hash, buffer
      ensures hash == HashBlocks(old(hash), Ending(old(buffer[..bufferSize]), Low64(8 * Low64(numBytes + bufferSize))))
      ensures buffer[..bufferSize] == old(buffer[..bufferSize])
    {
      var extra := new bv8[64];
      var padded := PadBuffers(extra, Low64(8 * Low64(numBytes + bufferSize)));
      hash := ProcessEnding(buffer[..], extra[..], padded > 64);
    }

    // The last block or two.
    method ProcessEnding(b1: seq<bv8>, b2: seq<bv8>, both: bool) returns (h: Registers)
      requires |b1| == 64 == |b2|
      ensures h == HashBlocks(hash, if both then b1 + b2 else b1)
    {
      HashEnding(hash, b1, b2);
      h := Sha256.ProcessBlock(hash, b1, bigEndian);
      if both {
        h := Sha256.ProcessBlock(h, b2, bigEndian);
      }
    }

    // The hash of the padded message; the object's own hash is saved and restored.
    method FinalHash() returns (h: Registers)
      requires Valid()
      modifies this`hash, buffer
      ensures hash == old(hash) && buffer[..bufferSize] == old(buffer[..bufferSize])
      ensures h == Sha256Spec.Sha256(old(Message()))
    {
      var oldHash := hash;
      ghost var rest := buffer[..bufferSize];
      ProcessBuffer();
      DigestIs(oldHash, done, rest, numBytes, hash);
      h := hash;
      hash := oldHash;
    }

    // getHash, after which bytes can still be added.
    method GetHash() returns (bytes: seq<bv8>)
      requires Valid()
      modifies this`hash, buffer
      ensures Valid() && Message() == old(Message())
      ensures bytes == RawHash(Words8(Sha256Spec.Sha256(Message()))) && |bytes| == 32
      ensures IsDigest(bytes, Sha256Spec.Sha256(Message()))
    {
      var h := FinalHash();
      bytes := RawHash(Words8(h));
      DigestReadsBack(h);
    }
  }
}
