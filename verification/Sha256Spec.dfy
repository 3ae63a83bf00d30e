/**
 SHA-256 as FIPS 180-4 defines it: the functions of section 4.1.2, the schedule and the 64
 rounds of section 6.2.2, the padding of section 5.1.1.
 */
module Sha256Spec {
  import opened Arithmetic
  import opened Words

  // ------------------------------------------------------------------- section 4.1.2

  function Rotr(x: bv32, n: bv32): bv32
    requires 0 < n < 32
  {
    (x >> n) | (x << (32 - n))
  }

  function Ch(x: bv32, y: bv32, z: bv32): bv32 {
    (x & y) ^ (!x & z)
  }

  function Maj(x: bv32, y: bv32, z: bv32): bv32 {
    (x & y) ^ (x & z) ^ (y & z)
  }

  function BigSigma0(x: bv32): bv32 {
    Rotr(x, 2) ^ Rotr(x, 13) ^ Rotr(x, 22)
  }

  function BigSigma1(x: bv32): bv32 {
    Rotr(x, 6) ^ Rotr(x, 11) ^ Rotr(x, 25)
  }

  function SmallSigma0(x: bv32): bv32 {
    Rotr(x, 7) ^ Rotr(x, 18) ^ (x >> 3)
  }

  function SmallSigma1(x: bv32): bv32 {
    Rotr(x, 17) ^ Rotr(x, 19) ^ (x >> 10)
  }

  // ------------------------------------------------------------------- section 6.2.2

  datatype Registers = Registers(a: bv32, b: bv32, c: bv32, d: bv32, e: bv32, f: bv32, g: bv32, h: bv32)

  const INITIAL := Registers(0x6a09e667, 0xbb67ae85, 0x3c6ef372, 0xa54ff53a,
                             0x510e527f, 0x9b05688c, 0x1f83d9ab, 0x5be0cd19)

  const K0: seq<bv32> :=
    [0x428a2f98, 0x71374491, 0xb5c0fbcf, 0xe9b5dba5,
     0x3956c25b, 0x59f111f1, 0x923f82a4, 0xab1c5ed5]
  const K1: seq<bv32> :=
    [0xd807aa98, 0x12835b01, 0x243185be, 0x550c7dc3,
     0x72be5d74, 0x80deb1fe, 0x9bdc06a7, 0xc19bf174]
  const K2: seq<bv32> :=
    [0xe49b69c1, 0xefbe4786, 0x0fc19dc6, 0x240ca1cc,
     0x2de92c6f, 0x4a7484aa, 0x5cb0a9dc, 0x76f988da]
  const K3: seq<bv32> :=
    [0x983e5152, 0xa831c66d, 0xb00327c8, 0xbf597fc7,
     0xc6e00bf3, 0xd5a79147, 0x06ca6351, 0x14292967]
  const K4: seq<bv32> :=
    [0x27b70a85, 0x2e1b2138, 0x4d2c6dfc, 0x53380d13,
     0x650a7354, 0x766a0abb, 0x81c2c92e, 0x92722c85]
  const K5: seq<bv32> :=
    [0xa2bfe8a1, 0xa81a664b, 0xc24b8b70, 0xc76c51a3,
     0xd192e819, 0xd6990624, 0xf40e3585, 0x106aa070]
  const K6: seq<bv32> :=
    [0x19a4c116, 0x1e376c08, 0x2748774c, 0x34b0bcb5,
     0x391c0cb3, 0x4ed8aa4a, 0x5b9cca4f, 0x682e6ff3]
  const K7: seq<bv32> :=
    [0x748f82ee, 0x78a5636f, 0x84c87814, 0x8cc70208,
     0x90befffa, 0xa4506ceb, 0xbef9a3f7, 0xc67178f2]

  // A sum modulo 2^32, so its order does not matter.
  function Mixed(w16: bv32, w15: bv32, w7: bv32, w2: bv32): bv32 {
    Plus(Plus(Plus(w16, SmallSigma0(w15)), w7), SmallSigma1(w2))
  }

  // W after the first |w| words.
  function NextWord(w: seq<bv32>): bv32
    requires |w| >= 16
  {
    Mixed(w[|w| - 16], w[|w| - 15], w[|w| - 7], w[|w| - 2])
  }

  // The first n words of the message schedule.
  function Schedule(m: seq<bv32>, n: nat): (w: seq<bv32>)
    requires |m| == 16 <= n
    ensures |w| == n
    decreases n, |m|
  {
    if n == 16 then m else Schedule(m, n - 1) + [NextWord(Schedule(m, n - 1))]
  }

  lemma {:induction false} SchedulePrefix(m: seq<bv32>, i: nat, n: nat)
    requires |m| == 16 <= i <= n
    ensures Schedule(m, n)[..i] == Schedule(m, i)
    decreases n
  {
    if i < n {
      SchedulePrefix(m, i, n - 1);
    }
  }

  // Step 3 for one t; the sums are modulo 2^32.
  function Round(s: Registers, k: bv32, w: bv32): Registers {
    var t1 := Plus(Plus(Plus(s.h, Plus(BigSigma1(s.e), Ch(s.e, s.f, s.g))), k), w);
    var t2 := Plus(BigSigma0(s.a), Maj(s.a, s.b, s.c));
    Registers(Plus(t1, t2), s.a, s.b, s.c, Plus(s.d, t1), s.e, s.f, s.g)
  }

  // Step 3 for every t below n.
  function Rounds(s: Registers, k: seq<bv32>, w: seq<bv32>, n: nat): Registers
    requires n <= |k| == |w|
    decreases n, |w|
  {
    if n == 0 then s else Round(Rounds(s, k, w, n - 1), k[n - 1], w[n - 1])
  }

  // Step 4.
  function AddRegisters(x: Registers, y: Registers): Registers {
    Registers(Plus(x.a, y.a), Plus(x.b, y.b), Plus(x.c, y.c), Plus(x.d, y.d),
              Plus(x.e, y.e), Plus(x.f, y.f), Plus(x.g, y.g), Plus(x.h, y.h))
  }

  // Section 5.2.1: sixteen big-endian words.
  function Parse(block: seq<bv8>): (m: seq<bv32>)
    requires |block| == 64
    ensures |m| == 16
  {
    seq(16, i requires 0 <= i < 16 => Word(block[4 * i + 3], block[4 * i + 2], block[4 * i + 1], block[4 * i]))
  }

  function KGroup(g: nat): (k: seq<bv32>)
    requires g < 8
    ensures |k| == 8
  {
    if g == 0 then K0 else if g == 1 then K1 else if g == 2 then K2 else if g == 3 then K3
    else if g == 4 then K4 else if g == 5 then K5 else if g == 6 then K6 else K7
  }

  // The constants of section 4.2.2.
  function K(): (k: seq<bv32>)
    ensures |k| == 64
  {
    seq(64, t requires 0 <= t < 64 => KGroup(t / 8)[t % 8])
  }

  function Compress(s: Registers, block: seq<bv8>): Registers
    requires |block| == 64
  {
    AddRegisters(s, Rounds(s, K(), Schedule(Parse(block), 64), 64))
  }

  // Section 6.2.2 for every block.
  function HashBlocks(s: Registers, data: seq<bv8>): Registers
    decreases |data|, 1
  {
    if |data| < 64 then s else HashFrom(s, data)
  }

  // The first block and then the others.
  function HashFrom(s: Registers, data: seq<bv8>): Registers
    requires |data| >= 64
    decreases |data|, 0
  {
    HashBlocks(Compress(s, data[..64]), data[64..])
  }

  lemma {:induction false} HashBlocksConcat(s: Registers, x: seq<bv8>, y: seq<bv8>)
    requires |x| % 64 == 0
    ensures HashBlocks(s, x + y) == HashBlocks(HashBlocks(s, x), y)
    decreases |x|
  {
    if x == [] {
      assert x + y == y;
    } else {
      assert (x + y)[..64] == x[..64] && (x + y)[64..] == x[64..] + y;
      assert HashBlocks(s, x) == HashFrom(s, x) && HashBlocks(s, x + y) == HashFrom(s, x + y);
      HashBlocksConcat(Compress(s, x[..64]), x[64..], y);
    }
  }

  // ------------------------------------------------------------------- section 5.1.1

  const WIDTH64 := 0x1_0000_0000_0000_0000

  // A number modulo 2^64.
  function Low64(n: nat): (r: nat)
    ensures r < WIDTH64
  {
    if n < WIDTH64 then n else Low64(n - WIDTH64)
  }

  // The number a string of digits to base 256 writes, most significant first.
  function BigEndian(digits: seq<nat>): nat {
    if digits == [] then 0 else 0x100 * BigEndian(digits[..|digits| - 1]) + digits[|digits| - 1]
  }

  // n in k digits to base 256, most significant first.
  function Digits(n: nat, k: nat): (r: seq<nat>)
    ensures |r| == k && forall i {:trigger r[i]} :: 0 <= i < k ==> r[i] < 0x100
    decreases k, n
  {
    if k == 0 then [] else Digits(n / 0x100, k - 1) + [n % 0x100]
  }

  // Reading the digits back.
  lemma {:induction false} DigitsValue(n: nat, k: nat)
    requires n < Power256(k)
    ensures BigEndian(Digits(n, k)) == n
    decreases k
  {
    if k > 0 {
      DigitsValue(n / 0x100, k - 1);
      assert Digits(n, k)[..k - 1] == Digits(n / 0x100, k - 1);
    }
  }

  lemma PowersOf256()
    ensures Power256(8) == WIDTH64
  {
    assert Power256(2) == 0x1_0000;
    assert Power256(4) == 0x100 * (0x100 * Power256(2));
    assert Power256(6) == 0x100 * (0x100 * Power256(4));
    assert Power256(8) == 0x100 * (0x100 * Power256(6));
  }

  function Zeros(n: nat): (r: seq<bv8>)
    ensures |r| == n
  {
    seq(n, _ => 0)
  }

  // The byte of value n.
  function ByteFrom(n: nat): bv8 {
    if n == 0 then 0 else ByteFrom(n - 1) + 1
  }

  lemma NextByte(b: bv8)
    ensures (b + 1) as nat == if b as nat == 0xFF then 0 else b as nat + 1
  {
  }

  lemma NextRemainder(n: nat)
    ensures (n + 1) % 0x100 == if n % 0x100 == 0xFF then 0 else n % 0x100 + 1
  {
  }

  lemma {:induction false} ByteFromIsMod(n: nat)
    ensures ByteFrom(n) as nat == n % 0x100
  {
    if n > 0 {
      ByteFromIsMod(n - 1);
      NextRemainder(n - 1);
      NextByte(ByteFrom(n - 1));
    }
  }

  // The number a string of bytes writes, most significant first.
  function ReadBytes(bytes: seq<bv8>): nat {
    if bytes == [] then 0 else 0x100 * ReadBytes(bytes[..|bytes| - 1]) + bytes[|bytes| - 1] as nat
  }

  // The 64-bit length field for a length in bits.
  function LengthField(bits: nat): (r: seq<bv8>)
    requires bits < WIDTH64
    ensures |r| == 8
  {
    var d := Digits(bits, 8);
    [ByteFrom(d[0]), ByteFrom(d[1]), ByteFrom(d[2]), ByteFrom(d[3]),
     ByteFrom(d[4]), ByteFrom(d[5]), ByteFrom(d[6]), ByteFrom(d[7])]
  }

  lemma {:induction false} ReadsAsDigits(bytes: seq<bv8>, digits: seq<nat>)
    requires |bytes| == |digits| && forall i {:trigger bytes[i]} :: 0 <= i < |bytes| ==> bytes[i] as nat == digits[i]
    ensures ReadBytes(bytes) == BigEndian(digits)
  {
    if bytes != [] {
      ReadsAsDigits(bytes[..|bytes| - 1], digits[..|digits| - 1]);
    }
  }

  // The bytes of the length field, read back.
  lemma LengthFieldReadsBack(bits: nat)
    requires bits < WIDTH64
    ensures ReadBytes(LengthField(bits)) == bits
  {
    var d, f := Digits(bits, 8), LengthField(bits);
    forall i | 0 <= i < 8
      ensures f[i] as nat == d[i]
    {
      assert f[i] == ByteFrom(d[i]);
      ByteFromIsMod(d[i]);
    }
    ReadsAsDigits(f, d);
    PowersOf256();
    DigitsValue(bits, 8);
  }

  // Its digits write the length exactly when it fits 64 bits.
  lemma LengthFieldExact(bits: nat)
    ensures BigEndian(Digits(Low64(bits), 8)) == bits <==> bits < WIDTH64
  {
    PowersOf256();
    DigitsValue(Low64(bits), 8);
  }

  // How many zero bytes follow the byte 0x80.
  function ZeroBytes(length: nat): nat {
    if length % 64 <= 55 then 55 - length % 64 else 119 - length % 64
  }

  // The end of a message of the given length, from the byte 0x80 on.
  function Padding(length: nat): seq<bv8> {
    [0x80] + Zeros(ZeroBytes(length)) + LengthField(Low64(8 * length))
  }

  function Pad(message: seq<bv8>): seq<bv8> {
    message + Padding(|message|)
  }

  // Followed by a one and so many zeros, a message leaves 64 bits in its last block.
  predicate LeavesRoom(length: nat, zeros: nat) {
    (8 * length + 1 + zeros) % 512 == 448
  }

  lemma RestOfBits(q: nat, j: nat, r: nat)
    requires r < 512
    ensures (512 * q + 512 * j + r) % 512 == r
  {
  }

  // The zeros are the smallest number that leaves room for the length.
  lemma PaddingIsShortest(length: nat)
    ensures LeavesRoom(length, 7 + 8 * ZeroBytes(length))
    ensures forall k: nat :: k < 7 + 8 * ZeroBytes(length) ==> !LeavesRoom(length, k)
  {
    var r, q := length % 64, length / 64;
    forall k: nat | k <= 7 + 8 * ZeroBytes(length)
      ensures LeavesRoom(length, k) <==> k == 7 + 8 * ZeroBytes(length)
    {
      var n := 8 * r + 1 + k;
      assert 8 * length + 1 + k == 512 * q + n;
      var j := if n < 512 then 0 else 1;
      RestOfBits(q, j, n - 512 * j);
    }
  }

  lemma MultipleOf64(q: nat)
    ensures 64 * q % 64 == 0
  {
  }

  lemma PadFillsBlocks(message: seq<bv8>)
    ensures |Pad(message)| % 64 == 0
  {
    var r, q := |message| % 64, |message| / 64;
    var blocks := if r <= 55 then q + 1 else q + 2;
    MultipleOf64(blocks);
    assert |Pad(message)| == 64 * blocks;
  }

  // The message, the byte 0x80, zeros, and a length that reads back as the number of bits
  // exactly when there are fewer than 2^61 bytes.
  lemma PaddedMessage(message: seq<bv8>)
    ensures var p, n := Pad(message), |message|;
      && n + 9 <= |p| < n + 73 && p[..n] == message && p[n] == 0x80
      && (forall i :: n < i < |p| - 8 ==> p[i] == 0)
      && (ReadBytes(p[|p| - 8..]) == 8 * n <==> n < 0x2000_0000_0000_0000)
  {
    var p, n := Pad(message), |message|;
    var field := LengthField(Low64(8 * n));
    assert p == message + ([0x80] + Zeros(ZeroBytes(n)) + field);
    assert p[|p| - 8..] == field;
    LengthFieldReadsBack(Low64(8 * n));
  }

  // The digest of a message of fewer than 2^61 bytes.
  function Sha256(message: seq<bv8>): Registers {
    HashBlocks(INITIAL, Pad(message))
  }
}
