/** 32-bit words as bytes, with the operations named so that proofs need not look into them. */
module Words {
  function Xor(x: bv32, y: bv32): bv32 {
    x ^ y
  }

  function Plus(x: bv32, y: bv32): bv32 {
    x + y
  }

  lemma XorZero(x: bv32)
    ensures Xor(x, 0) == x
  {
  }

  lemma XorCommutes(x: bv32, y: bv32)
    ensures Xor(x, y) == Xor(y, x)
  {
  }

  lemma XorAssoc(x: bv32, y: bv32, z: bv32)
    ensures Xor(x, Xor(y, z)) == Xor(Xor(x, y), z)
  {
  }

  function Up8(x: bv32): bv32 {
    x << 8
  }

  function Pack(b0: bv32, b1: bv32, b2: bv32, b3: bv32): bv32 {
    Xor(b0, Up8(Xor(b1, Up8(Xor(b2, Up8(b3))))))
  }

  // Bytes read as one little-endian word.
  function Word(b0: bv8, b1: bv8, b2: bv8, b3: bv8): bv32 {
    Pack(b0 as bv32, b1 as bv32, b2 as bv32, b3 as bv32)
  }

  function Byte(x: bv32, n: nat): bv32
    requires n < 4
  {
    match n
    case 0 => x & 0xFF
    case 1 => (x >> 8) & 0xFF
    case 2 => (x >> 16) & 0xFF
    case 3 => x >> 24
  }

  lemma WordOfBytes(x: bv32)
    ensures x == Pack(Byte(x, 0), Byte(x, 1), Byte(x, 2), Byte(x, 3))
    ensures Byte(x, 3) & 0xFF000000 == 0
    ensures Xor(Byte(x, 2), Up8(Byte(x, 3))) & 0xFF000000 == 0
    ensures Xor(Byte(x, 1), Up8(Xor(Byte(x, 2), Up8(Byte(x, 3))))) & 0xFF000000 == 0
  {
  }

  // ------------------------------------------------------------------------- big endian

  function Swap(x: bv32): bv32 {
    (x >> 24) | ((x >> 8) & 0x0000FF00) | ((x << 8) & 0x00FF0000) | (x << 24)
  }

  lemma SwapByBytes(x: bv32)
    ensures Swap(x) == Pack(Byte(x, 3), Byte(x, 2), Byte(x, 1), Byte(x, 0))
  {
  }

  lemma WordBytes(b0: bv8, b1: bv8, b2: bv8, b3: bv8)
    ensures Byte(Word(b0, b1, b2, b3), 0) == b0 as bv32 && Byte(Word(b0, b1, b2, b3), 1) == b1 as bv32
    ensures Byte(Word(b0, b1, b2, b3), 2) == b2 as bv32 && Byte(Word(b0, b1, b2, b3), 3) == b3 as bv32
  {
  }

  lemma SwapWord(b0: bv8, b1: bv8, b2: bv8, b3: bv8)
    ensures Swap(Word(b0, b1, b2, b3)) == Word(b3, b2, b1, b0)
  {
    WordBytes(b0, b1, b2, b3);
    SwapByBytes(Word(b0, b1, b2, b3));
  }

  lemma SwapXor(x: bv32, y: bv32)
    ensures Xor(Swap(x), Swap(y)) == Swap(Xor(x, y))
  {
  }

  lemma SwapBytes(x: bv32)
    ensures Byte(Swap(x), 0) == Byte(x, 3) && Byte(Swap(x), 1) == Byte(x, 2)
    ensures Byte(Swap(x), 2) == Byte(x, 1) && Byte(Swap(x), 3) == Byte(x, 0)
  {
  }
}
