/**
 CRC-32 by slicing-by-8: eight tables, eight bytes a round, then a byte at a time. The
 reference is the shift register that takes in one message bit at a time (section 8 of RFC
 1952 gives the same code a byte at a time).
 */
module Crc32 {
  import opened Words
  import opened CrcRegister
  import opened CrcRemainder

  // ------------------------------------------------------------------ shifts are linear

  function Shifts(crc: bv32, n: nat): bv32
    decreases n, crc
  {
    if n == 0 then crc else Shifts(Shift(crc), n - 1)
  }

  lemma {:induction false} ShiftsLinear(x: bv32, y: bv32, n: nat)
    ensures Shifts(Xor(x, y), n) == Xor(Shifts(x, n), Shifts(y, n))
    decreases n
  {
    if n > 0 {
      ShiftXor(x, y);
      ShiftsLinear(Shift(x), Shift(y), n - 1);
    }
  }

  lemma {:induction false} ShiftsAdd(x: bv32, m: nat, n: nat)
    ensures Shifts(x, m + n) == Shifts(Shifts(x, m), n)
    decreases m
  {
    if m > 0 {
      ShiftsAdd(Shift(x), m - 1, n);
    }
  }

  lemma Shifts8(x: bv32)
    ensures Shifts(x, 8) == Shift(Shift(Shift(Shift(Shift(Shift(Shift(Shift(x))))))))
  {
    var x1 := Shift(x);
    var x2 := Shift(x1);
    var x3 := Shift(x2);
    var x4 := Shift(x3);
    var x5 := Shift(x4);
    var x6 := Shift(x5);
    assert Shifts(x, 8) == Shifts(x1, 7) == Shifts(x2, 6) == Shifts(x3, 5) == Shifts(x4, 4);
    assert Shifts(x4, 4) == Shifts(x5, 3) == Shifts(x6, 2) == Shifts(Shift(x6), 1);
  }

  // A value whose low byte is clear just moves down.
  lemma ClearByteMovesDown(x: bv32)
    requires x & 0xFF == 0
    ensures Shifts(x, 8) == x >> 8
  {
    Shifts8(x);
  }

  // ------------------------------------------------------------------- a byte at a time

  lemma ClearBitMovesDown(v: bv32)
    requires v & 1 == 0
    ensures Shift(v) == v >> 1
  {
  }

  // One bit of v taken in, the others kept beside the register.
  lemma OneBit(crc: bv32, v: bv32)
    ensures Shift(Xor(crc, v)) == Xor(TakeBit(crc, v & 1 == 1), v >> 1)
  {
    var low := v & 1;
    LowBitApart(crc, v);
    ShiftXor(Xor(crc, low), Xor(v, low));
    ClearBitMovesDown(Xor(v, low));
    TakeBitIsShift(crc, v);
  }

  // Taking in k bits of v one by one is adding v at once and shifting k times.
  lemma {:induction false} TakeBitsAtOnce(crc: bv32, v: bv32, k: nat)
    ensures Shifts(Xor(crc, v), k) == Xor(TakeBits(crc, BitsOf(v, k)), Right(v, k))
    decreases k
  {
    if k > 0 {
      OneBit(crc, v);
      TakeBitsAtOnce(TakeBit(crc, v & 1 == 1), v >> 1, k - 1);
      assert BitsOf(v, k)[1..] == BitsOf(v >> 1, k - 1);
    }
  }

  lemma ByteRunsOut(b: bv8)
    ensures Right(b as bv32, 8) == 0
  {
    var v := b as bv32;
    assert Right(v, 8) == Right(v >> 1 >> 1, 6);
    assert Right(v >> 1 >> 1, 6) == Right(v >> 1 >> 1 >> 1 >> 1, 4);
    assert Right(v >> 1 >> 1 >> 1 >> 1, 4) == Right(v >> 1 >> 1 >> 1 >> 1 >> 1 >> 1, 2);
  }

  // ------------------------------------------------------------------- a byte at a time

  // The register after a message.
  function Take(crc: bv32, data: seq<bv8>): bv32 {
    TakeBits(crc, Bits(data))
  }

  lemma TakeConcat(crc: bv32, a: seq<bv8>, b: seq<bv8>)
    ensures Take(crc, a + b) == Take(Take(crc, a), b)
  {
    BitsConcat(a, b);
    TakeBitsConcat(crc, Bits(a), Bits(b));
  }

  lemma TakeByte(crc: bv32, b: bv8)
    ensures Take(crc, [b]) == Shifts(Xor(crc, b as bv32), 8)
  {
    var v := b as bv32;
    assert Bits([b]) == BitsOf(v, 8);
    TakeBitsAtOnce(crc, v, 8);
    ByteRunsOut(b);
    XorZero(TakeBits(crc, BitsOf(v, 8)));
  }

  // ------------------------------------------------------------------------- the tables

  function LowByte(x: bv32): bv32 {
    x & 0xFF
  }

  function Down8(x: bv32): bv32 {
    x >> 8
  }

  // The lookup tables by the recurrences they were generated with.
  function Table(k: nat, i: bv32): bv32
    decreases k, i
  {
    if k == 0 then Shifts(i, 8) else Xor(Down8(Table(k - 1, i)), Shifts(LowByte(Table(k - 1, i)), 8))
  }

  function HighBytes(x: bv32): bv32 {
    x & 0xFFFFFF00
  }

  lemma SplitLowByte(x: bv32)
    ensures x == Xor(LowByte(x), HighBytes(x))
    ensures HighBytes(x) & 0xFF == 0 && HighBytes(x) >> 8 == Down8(x)
  {
  }

  lemma HighBytesMoveDown(x: bv32)
    ensures Shifts(HighBytes(x), 8) == Down8(x)
  {
    SplitLowByte(x);
    ClearByteMovesDown(HighBytes(x));
  }

  // Eight shifts by one lookup.
  lemma ByteStep(x: bv32)
    ensures Xor(Down8(x), Shifts(LowByte(x), 8)) == Shifts(x, 8)
  {
    SplitLowByte(x);
    ShiftsLinear(LowByte(x), HighBytes(x), 8);
    HighBytesMoveDown(x);
    XorCommutes(Shifts(LowByte(x), 8), Down8(x));
  }

  // Table k looks 8 (k + 1) shifts ahead.
  lemma {:induction false} TableLooksAhead(k: nat, i: bv32)
    ensures Table(k, i) == Shifts(i, 8 * (k + 1))
    decreases k
  {
    if k > 0 {
      TableLooksAhead(k - 1, i);
      ByteStep(Table(k - 1, i));
      ShiftsAdd(i, 8 * k, 8);
    }
  }

  lemma TailIndex(crc: bv32, b: bv8)
    ensures LowByte(Xor(crc, b as bv32)) == Xor(LowByte(crc), b as bv32)
    ensures Down8(Xor(crc, b as bv32)) == Down8(crc)
  {
  }

  // The last loop's step.
  lemma TailStep(crc: bv32, b: bv8)
    ensures Xor(Down8(crc), Table(0, Xor(LowByte(crc), b as bv32))) == Take(crc, [b])
  {
    TailIndex(crc, b);
    ByteStep(Xor(crc, b as bv32));
    TakeByte(crc, b);
  }

  // The step of the generating loop multiplies by the low bit instead of testing it.
  lemma LowBitTimes(crc: bv32)
    ensures (crc >> 1) ^ ((crc & 1) * POLYNOMIAL) == Shift(crc)
  {
    if crc & 1 == 0 {
      assert (0 as bv32) * POLYNOMIAL == 0;
    } else {
      assert crc & 1 == 1;
      assert (1 as bv32) * POLYNOMIAL == POLYNOMIAL;
    }
  }

  // ---------------------------------------------------------------------- four bytes a word

  lemma Up8ThenDown(y: bv32)
    requires y & 0xFF000000 == 0
    ensures Up8(y) & 0xFF == 0 && Up8(y) >> 8 == y
  {
  }

  lemma Up8Cancels(y: bv32)
    requires y & 0xFF000000 == 0
    ensures Shifts(Up8(y), 8) == y
  {
    Up8ThenDown(y);
    ClearByteMovesDown(Up8(y));
  }

  // A byte is taken in and the rest of the word moves down into its place.
  lemma AbsorbByte(crc: bv32, b: bv8, rest: bv32)
    requires rest & 0xFF000000 == 0
    ensures Shifts(Xor(crc, Xor(b as bv32, Up8(rest))), 8) == Xor(Take(crc, [b]), rest)
  {
    XorAssoc(crc, b as bv32, Up8(rest));
    ShiftsLinear(Xor(crc, b as bv32), Up8(rest), 8);
    Up8Cancels(rest);
    TakeByte(crc, b);
  }

  lemma TopByteClear(b: bv8, rest: bv32)
    requires rest & 0xFFFF0000 == 0
    ensures Xor(b as bv32, Up8(rest)) & 0xFF000000 == 0
    ensures rest & 0xFFFFFF00 == 0 ==> Xor(b as bv32, Up8(rest)) & 0xFFFF0000 == 0
    ensures (b as bv32) & 0xFFFFFF00 == 0 && (b as bv32) & 0xFF000000 == 0 && (b as bv32) & 0xFFFF0000 == 0
  {
  }

  // The same with n more shifts to go.
  lemma AbsorbThen(crc: bv32, b: bv8, rest: bv32, n: nat)
    requires rest & 0xFF000000 == 0
    ensures Shifts(Xor(crc, Xor(b as bv32, Up8(rest))), 8 + n) == Shifts(Xor(Take(crc, [b]), rest), n)
  {
    AbsorbByte(crc, b, rest);
    ShiftsAdd(Xor(crc, Xor(b as bv32, Up8(rest))), 8, n);
  }

  lemma TakeFour(crc: bv32, b0: bv8, b1: bv8, b2: bv8, b3: bv8)
    ensures Take(crc, [b0, b1, b2, b3]) == Take(Take(Take(Take(crc, [b0]), [b1]), [b2]), [b3])
  {
    TakeConcat(crc, [b0], [b1]);
    TakeConcat(crc, [b0, b1], [b2]);
    TakeConcat(crc, [b0, b1, b2], [b3]);
    assert [b0] + [b1] == [b0, b1] && [b0, b1] + [b2] == [b0, b1, b2] && [b0, b1, b2] + [b3] == [b0, b1, b2, b3];
  }

  // Four bytes by one word.
  lemma TakeWord(crc: bv32, b0: bv8, b1: bv8, b2: bv8, b3: bv8)
    ensures Shifts(Xor(crc, Word(b0, b1, b2, b3)), 32) == Take(crc, [b0, b1, b2, b3])
  {
    var w3 := b3 as bv32;
    var w2 := Xor(b2 as bv32, Up8(w3));
    var w1 := Xor(b1 as bv32, Up8(w2));
    TopByteClear(b3, 0);
    TopByteClear(b2, w3);
    TopByteClear(b1, w2);
    var c1 := Take(crc, [b0]);
    var c2 := Take(c1, [b1]);
    AbsorbThen(crc, b0, w1, 24);
    AbsorbThen(c1, b1, w2, 16);
    AbsorbThen(c2, b2, w3, 8);
    TakeByte(Take(c2, [b2]), b3);
    TakeFour(crc, b0, b1, b2, b3);
  }

  // ---------------------------------------------------------------------- eight bytes a round

  lemma LookAheadUp(low: bv32, rest: bv32, n: nat)
    requires rest & 0xFF000000 == 0
    ensures Shifts(Xor(low, Up8(rest)), 8 + n) == Xor(Shifts(low, 8 + n), Shifts(rest, n))
  {
    ShiftsLinear(low, Up8(rest), 8 + n);
    ShiftsAdd(Up8(rest), 8, n);
    Up8Cancels(rest);
  }

  // A word looked ahead is its bytes looked ahead.
  lemma LookAheadByBytes(x: bv32, n: nat)
    ensures Shifts(x, 32 + n) ==
      Xor(Shifts(Byte(x, 0), 32 + n),
          Xor(Shifts(Byte(x, 1), 24 + n), Xor(Shifts(Byte(x, 2), 16 + n), Shifts(Byte(x, 3), 8 + n))))
  {
    WordOfBytes(x);
    var x3 := Byte(x, 3);
    var x2 := Xor(Byte(x, 2), Up8(x3));
    var x1 := Xor(Byte(x, 1), Up8(x2));
    LookAheadUp(Byte(x, 0), x1, 24 + n);
    LookAheadUp(Byte(x, 1), x2, 16 + n);
    LookAheadUp(Byte(x, 2), x3, 8 + n);
  }

  // One round of the main loop: one is the first word with the register added.
  function Round(one: bv32, two: bv32): bv32 {
    Xor(Xor(Xor(Xor(Xor(Xor(Xor(Table(7, Byte(one, 0)), Table(6, Byte(one, 1))),
                            Table(5, Byte(one, 2))), Table(4, Byte(one, 3))),
                    Table(3, Byte(two, 0))), Table(2, Byte(two, 1))), Table(1, Byte(two, 2))), Table(0, Byte(two, 3)))
  }

  lemma XorChain(x: bv32, e: bv32, f: bv32, g: bv32, h: bv32)
    ensures Xor(Xor(Xor(Xor(x, e), f), g), h) == Xor(x, Xor(e, Xor(f, Xor(g, h))))
  {
    XorAssoc(Xor(Xor(x, e), f), g, h);
    XorAssoc(Xor(x, e), f, Xor(g, h));
    XorAssoc(x, e, Xor(f, Xor(g, h)));
  }

  lemma LookUpBytes(b0: bv32, b1: bv32, b2: bv32, b3: bv32, k: nat, n: nat)
    requires k >= 3 && n == 8 * (k - 3)
    ensures Xor(Table(k, b0), Xor(Table(k - 1, b1), Xor(Table(k - 2, b2), Table(k - 3, b3))))
      == Xor(Shifts(b0, 32 + n), Xor(Shifts(b1, 24 + n), Xor(Shifts(b2, 16 + n), Shifts(b3, 8 + n))))
  {
    TableLooksAhead(k, b0);
    TableLooksAhead(k - 1, b1);
    TableLooksAhead(k - 2, b2);
    TableLooksAhead(k - 3, b3);
  }

  // A word looked up in four consecutive tables.
  lemma LookUpWord(x: bv32, k: nat)
    requires k >= 3
    ensures Xor(Table(k, Byte(x, 0)),
                Xor(Table(k - 1, Byte(x, 1)), Xor(Table(k - 2, Byte(x, 2)), Table(k - 3, Byte(x, 3)))))
      == Shifts(x, 8 * (k + 1))
  {
    var n := 8 * (k - 3);
    assert 32 + n == 8 * (k + 1);
    LookAheadByBytes(x, n);
    LookUpBytes(Byte(x, 0), Byte(x, 1), Byte(x, 2), Byte(x, 3), k, n);
  }

  lemma RoundLooksAhead(one: bv32, two: bv32)
    ensures Round(one, two) == Xor(Shifts(one, 64), Shifts(two, 32))
  {
    LookUpWord(one, 7);
    LookUpWord(two, 3);
    var a, b, c, d := Table(7, Byte(one, 0)), Table(6, Byte(one, 1)), Table(5, Byte(one, 2)), Table(4, Byte(one, 3));
    XorAssoc(Xor(a, b), c, d);
    XorAssoc(a, b, Xor(c, d));
    XorChain(Xor(Xor(Xor(a, b), c), d),
             Table(3, Byte(two, 0)), Table(2, Byte(two, 1)), Table(1, Byte(two, 2)), Table(0, Byte(two, 3)));
  }

  // Eight bytes by one round.
  lemma RoundTakesEight(crc: bv32, d: seq<bv8>)
    requires |d| == 8
    ensures Round(Xor(Word(d[0], d[1], d[2], d[3]), crc), Word(d[4], d[5], d[6], d[7])) == Take(crc, d)
  {
    var w0, w1 := Word(d[0], d[1], d[2], d[3]), Word(d[4], d[5], d[6], d[7]);
    var mid := Take(crc, d[..4]);
    assert d[..4] == [d[0], d[1], d[2], d[3]] && d[4..] == [d[4], d[5], d[6], d[7]] && d == d[..4] + d[4..];
    XorCommutes(w0, crc);
    RoundLooksAhead(Xor(w0, crc), w1);
    ShiftsAdd(Xor(crc, w0), 32, 32);
    TakeWord(crc, d[0], d[1], d[2], d[3]);
    ShiftsLinear(mid, w1, 32);
    TakeWord(mid, d[4], d[5], d[6], d[7]);
    TakeConcat(crc, d[..4], d[4..]);
  }

  // ------------------------------------------------------------------------- big endian

  // The round as written for machines that load the bytes the other way round.
  function BigEndianRound(one: bv32, two: bv32): bv32 {
    Xor(Xor(Xor(Xor(Xor(Xor(Xor(Table(7, Byte(one, 3)), Table(6, Byte(one, 2))),
                            Table(5, Byte(one, 1))), Table(4, Byte(one, 0))),
                    Table(3, Byte(two, 3))), Table(2, Byte(two, 2))), Table(1, Byte(two, 1))), Table(0, Byte(two, 0)))
  }

  lemma BigEndianRoundTakesEight(crc: bv32, d: seq<bv8>)
    requires |d| == 8
    ensures BigEndianRound(Xor(Word(d[3], d[2], d[1], d[0]), Swap(crc)), Word(d[7], d[6], d[5], d[4])) == Take(crc, d)
  {
    var w0, w1 := Word(d[0], d[1], d[2], d[3]), Word(d[4], d[5], d[6], d[7]);
    SwapWord(d[0], d[1], d[2], d[3]);
    SwapWord(d[4], d[5], d[6], d[7]);
    SwapXor(w0, crc);
    SwapBytes(Xor(w0, crc));
    SwapBytes(w1);
    RoundTakesEight(crc, d);
  }

  // ---------------------------------------------------------------------------- the loops

  // One round of either loop takes in the next eight bytes.
  lemma RoundStep(start: bv32, data: seq<bv8>, i: nat, crc: bv32)
    requires i + 8 <= |data| && crc == Take(start, data[..i])
    ensures var d := data[i..i + 8];
      && Round(Xor(Word(d[0], d[1], d[2], d[3]), crc), Word(d[4], d[5], d[6], d[7])) == Take(start, data[..i + 8])
      && BigEndianRound(Xor(Word(d[3], d[2], d[1], d[0]), Swap(crc)), Word(d[7], d[6], d[5], d[4]))
        == Take(start, data[..i + 8])
  {
    var d := data[i..i + 8];
    assert data[..i + 8] == data[..i] + d;
    TakeConcat(start, data[..i], d);
    RoundTakesEight(crc, d);
    BigEndianRoundTakesEight(crc, d);
  }

  lemma ByteTaken(start: bv32, data: seq<bv8>, i: nat, crc: bv32)
    requires i < |data| && crc == Take(start, data[..i])
    ensures Xor(Down8(crc), Table(0, Xor(LowByte(crc), data[i] as bv32))) == Take(start, data[..i + 1])
  {
    assert data[..i + 1] == data[..i] + [data[i]];
    TakeConcat(start, data[..i], [data[i]]);
    TailStep(crc, data[i]);
  }

  // ---------------------------------------------------------------------------- the class

  // bigEndian: the byte order of the machine.
  class CRC32 {
    var hash: bv32
    const bigEndian: bool
    ghost var message: seq<bv8>

    ghost predicate Valid()
      reads this
    {
      hash == Crc(message)
    }

    constructor (bigEndian: bool)
      ensures Valid() && message == []
      ensures IsCrc(WordBits(hash), message)
    {
      CrcIsRemainder([]);
      hash, this.bigEndian, message := 0, bigEndian, [];
    }

    method Reset()
      modifies this
      ensures Valid() && message == [] && IsCrc(WordBits(hash), message)
    {
      CrcIsRemainder([]);
      hash, message := 0, [];
    }

    method Add(data: seq<bv8>)
      requires Valid()
      modifies this
      ensures Valid() && message == old(message) + data
      ensures IsCrc(WordBits(hash), message)
    {
      var crc := !hash;
      ghost var start := Take(0xFFFFFFFF, message);
      var i := 0;
      while |data| - i >= 8
        invariant 0 <= i <= |data| && crc == Take(start, data[..i])
        modifies {}
      {
        var d := data[i..i + 8];
        RoundStep(start, data, i, crc);
        if bigEndian {
          crc := BigEndianRound(Xor(Word(d[3], d[2], d[1], d[0]), Swap(crc)), Word(d[7], d[6], d[5], d[4]));
        } else {
          crc := Round(Xor(Word(d[0], d[1], d[2], d[3]), crc), Word(d[4], d[5], d[6], d[7]));
        }
        i := i + 8;
      }
      while i < |data|
        invariant 0 <= i <= |data| && crc == Take(start, data[..i])
        modifies {}
      {
        ByteTaken(start, data, i, crc);
        crc := Xor(Down8(crc), Table(0, Xor(LowByte(crc), data[i] as bv32)));
        i := i + 1;
      }
      assert data[..i] == data;
      TakeConcat(0xFFFFFFFF, message, data);
      hash, message := !crc, message + data;
      CrcIsRemainder(message);
    }

    // getHash into a buffer, most significant byte first.
    method GetHash() returns (bytes: seq<bv8>)
      requires Valid()
      ensures |bytes| == 4 && Word(bytes[3], bytes[2], bytes[1], bytes[0]) == Crc(message)
      ensures IsCrc(WordBits(Word(bytes[3], bytes[2], bytes[1], bytes[0])), message)
    {
      CrcIsRemainder(message);
      bytes := [Byte(hash, 3) as bv8, Byte(hash, 2) as bv8, Byte(hash, 1) as bv8, Byte(hash, 0) as bv8];
      WordOfBytes(hash);
    }
  }
}
