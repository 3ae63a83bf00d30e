/**
 The reference for CRC-32: the shift register that takes in one message bit at a time (section 8
 of RFC 1952 gives the same code a byte at a time), and that a shift is linear.
 */
module CrcRegister {
  import opened Sequences
  import opened Words

  const POLYNOMIAL: bv32 := 0xEDB88320

  // ---------------------------------------------------------------------- the reference

  // One shift of the register.
  function Shift(crc: bv32): bv32 {
    (crc >> 1) ^ (if crc & 1 == 1 then POLYNOMIAL else 0)
  }

  // The register takes in one message bit.
  function TakeBit(crc: bv32, bit: bool): bv32 {
    Shift(crc ^ (if bit then 1 else 0))
  }

  function TakeBits(crc: bv32, bits: seq<bool>): bv32
    decreases |bits|
  {
    if bits == [] then crc else TakeBits(TakeBit(crc, bits[0]), bits[1..])
  }

  // The low k bits of v, least significant first.
  function BitsOf(v: bv32, k: nat): seq<bool>
    decreases k, v
  {
    if k == 0 then [] else [v & 1 == 1] + BitsOf(v >> 1, k - 1)
  }

  // The message bits.
  function Bits(data: seq<bv8>): seq<bool> {
    if data == [] then [] else BitsOf(data[0] as bv32, 8) + Bits(data[1..])
  }

  // CRC-32 of a message, bit by bit.
  function Crc(data: seq<bv8>): bv32 {
    !TakeBits(0xFFFFFFFF, Bits(data))
  }

  lemma {:induction false} TakeBitsConcat(crc: bv32, a: seq<bool>, b: seq<bool>)
    ensures TakeBits(crc, a + b) == TakeBits(TakeBits(crc, a), b)
    decreases |a|
  {
    if a == [] {
      assert a + b == b;
    } else {
      assert (a + b)[1..] == a[1..] + b;
      TakeBitsConcat(TakeBit(crc, a[0]), a[1..], b);
    }
  }

  lemma {:induction false} BitsConcat(a: seq<bv8>, b: seq<bv8>)
    ensures Bits(a + b) == Bits(a) + Bits(b)
  {
    if a == [] {
      assert a + b == b;
    } else {
      assert (a + b)[1..] == a[1..] + b;
      BitsConcat(a[1..], b);
      Chained(BitsOf(a[0] as bv32, 8), Bits(a[1..]), Bits(b));
    }
  }

  // ------------------------------------------------------------------ a shift is linear

  lemma Regroup(a: bv32, b: bv32, p: bv32, q: bv32)
    ensures (a ^ b) ^ (p ^ q) == (a ^ p) ^ (b ^ q)
  {
  }

  lemma XorMovesThrough(x: bv32, y: bv32)
    ensures (x ^ y) >> 1 == (x >> 1) ^ (y >> 1)
    ensures (x ^ y) & 1 == (x & 1) ^ (y & 1)
    ensures (x & 1 == 0 || x & 1 == 1) && (y & 1 == 0 || y & 1 == 1)
  {
  }

  lemma ShiftLinear(x: bv32, y: bv32)
    ensures Shift(x ^ y) == Shift(x) ^ Shift(y)
  {
    XorMovesThrough(x, y);
    var p: bv32 := if x & 1 == 1 then POLYNOMIAL else 0;
    var q: bv32 := if y & 1 == 1 then POLYNOMIAL else 0;
    assert (if (x ^ y) & 1 == 1 then POLYNOMIAL else 0) == p ^ q;
    Regroup(x >> 1, y >> 1, p, q);
  }

  lemma ShiftXor(x: bv32, y: bv32)
    ensures Shift(Xor(x, y)) == Xor(Shift(x), Shift(y))
  {
    ShiftLinear(x, y);
  }

  lemma LowBitApart(crc: bv32, v: bv32)
    ensures Xor(crc, v) == Xor(Xor(crc, v & 1), Xor(v, v & 1))
    ensures Xor(v, v & 1) & 1 == 0 && Xor(v, v & 1) >> 1 == v >> 1
    ensures v & 1 == 0 || v & 1 == 1
  {
  }

  lemma TakeBitIsShift(crc: bv32, v: bv32)
    ensures TakeBit(crc, v & 1 == 1) == Shift(Xor(crc, v & 1))
  {
    LowBitApart(crc, v);
  }

  function Right(v: bv32, k: nat): bv32
    decreases k
  {
    if k == 0 then v else Right(v >> 1, k - 1)
  }
}
