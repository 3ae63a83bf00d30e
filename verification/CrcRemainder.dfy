/**
 What CRC-32 means: the register holds the remainder of the message, as a polynomial over the
 field of two elements, by the generator.
 */
module CrcRemainder {
  import opened Words
  import opened Gf2
  import opened CrcRegister

  // The powers of the generator of CRC-32.
  predicate HasPower(k: nat) {
    k == 32 || k == 26 || k == 23 || k == 22 || k == 16 || k == 12 || k == 11 || k == 10 || k == 8 || k == 7
    || k == 5 || k == 4 || k == 2 || k == 1 || k == 0
  }

  function Generator(): (g: Poly)
    ensures |g| == 33 && g[0]
  {
    seq(33, i requires 0 <= i < 33 => HasPower(32 - i))
  }

  const WIDTH: nat := 32

  // The bits of a word, least significant first.
  function WordBits(x: bv32): (p: Poly)
    ensures |p| == WIDTH
  {
    BitsOfSnoc(x, WIDTH);
    BitsOf(x, WIDTH)
  }

  function Ones(n: nat): (p: Poly)
    ensures |p| == n
  {
    seq(n, _ => true)
  }

  function Complement(p: Poly): (r: Poly)
    ensures |r| == |p|
  {
    Added(p, Ones(|p|))
  }

  // The message followed by 32 zeros, its first 32 bits complemented.
  function Dividend(message: Poly): (p: Poly)
    ensures |p| == |message| + 32
  {
    Added(message + Zero(32), Ones(32) + Zero(|message|))
  }

  // The 32 bits h, complemented, are the remainder of the message.
  ghost predicate HasRemainder(h: Poly, message: Poly) {
    |h| == 32 && exists q :: Divides(Dividend(message), Generator(), q, Complement(h))
  }

  // h is the CRC-32 of the data.
  ghost predicate IsCrc(h: Poly, data: seq<bv8>) {
    HasRemainder(h, Bits(data))
  }

  // There is only one such h.
  lemma CrcIsUnique(h: Poly, h': Poly, data: seq<bv8>)
    requires IsCrc(h, data) && IsCrc(h', data)
    ensures h == h'
  {
    var p, g := Dividend(Bits(data)), Generator();
    var q :| Divides(p, g, q, Complement(h));
    var q' :| Divides(p, g, q', Complement(h'));
    DivisionIsUnique(p, g, q, Complement(h), q', Complement(h'));
    forall i | 0 <= i < 32
      ensures h[i] == h'[i]
    {
      assert Complement(h)[i] == Complement(h')[i];
    }
  }

  // ------------------------------------------------------------------ the register's bits

  lemma {:induction false} BitsOfSnoc(v: bv32, k: nat)
    ensures |BitsOf(v, k)| == k && BitsOf(v, k + 1) == BitsOf(v, k) + [Right(v, k) & 1 == 1]
    decreases k
  {
    if k > 0 {
      BitsOfSnoc(v >> 1, k - 1);
    }
  }

  lemma LowBitOfXor(x: bv32, y: bv32)
    ensures Xor(x, y) >> 1 == Xor(x >> 1, y >> 1)
    ensures (Xor(x, y) & 1 == 1) == ((x & 1 == 1) != (y & 1 == 1))
  {
    XorMovesThrough(x, y);
    var p, q := x & 1, y & 1;
    assert (p ^ q == 1) == ((p == 1) != (q == 1));
  }

  lemma AddedCons(a: bool, p: Poly, b: bool, q: Poly)
    requires |p| == |q|
    ensures Added([a] + p, [b] + q) == [a != b] + Added(p, q)
  {
  }

  lemma {:induction false} BitsOfXor(x: bv32, y: bv32, k: nat)
    ensures |BitsOf(x, k)| == |BitsOf(y, k)| == k
    ensures BitsOf(Xor(x, y), k) == Added(BitsOf(x, k), BitsOf(y, k))
    decreases k
  {
    if k > 0 {
      LowBitOfXor(x, y);
      BitsOfXor(x >> 1, y >> 1, k - 1);
      AddedCons(x & 1 == 1, BitsOf(x >> 1, k - 1), y & 1 == 1, BitsOf(y >> 1, k - 1));
    }
  }

  lemma {:induction false} BitsOfZero(k: nat)
    ensures BitsOf(0, k) == Zero(k)
    decreases k
  {
    if k > 0 {
      BitsOfZero(k - 1);
    }
  }

  lemma RightByEight(v: bv32)
    ensures Right(v, 8) == v >> 8
  {
    assert Right(v, 8) == Right(v >> 1 >> 1, 6);
    assert Right(v >> 1 >> 1, 6) == Right(v >> 1 >> 1 >> 1 >> 1, 4);
    assert Right(v >> 1 >> 1 >> 1 >> 1, 4) == Right(v >> 1 >> 1 >> 1 >> 1 >> 1 >> 1, 2);
  }

  lemma {:induction false} RightAdds(v: bv32, j: nat, k: nat)
    ensures Right(v, j + k) == Right(Right(v, j), k)
    decreases j
  {
    if j > 0 {
      RightAdds(v >> 1, j - 1, k);
    }
  }

  lemma WordRunsOut(v: bv32)
    ensures Right(v, WIDTH) == 0
  {
    var v1 := v >> 8;
    var v2 := v1 >> 8;
    RightAdds(v, 8, 24);
    RightAdds(v1, 8, 16);
    RightAdds(v2, 8, 8);
    RightByEight(v);
    RightByEight(v1);
    RightByEight(v2);
    RightByEight(v2 >> 8);
  }

  // The bits of a register that has moved down.
  lemma ShiftedBits(v: bv32)
    ensures WordBits(v >> 1) == WordBits(v)[1..] + [false]
  {
    BitsOfSnoc(v, WIDTH);
    WordRunsOut(v);
    var all := BitsOf(v, WIDTH + 1);
    assert all[1..] == WordBits(v >> 1);
    assert all == WordBits(v) + [false];
  }

  lemma {:induction false} BitAt(v: bv32, k: nat, i: nat)
    requires i < k
    ensures |BitsOf(v, k)| == k && BitsOf(v, k)[i] == (Right(v, i) & 1 == 1)
    decreases k
  {
    if i > 0 {
      BitAt(v >> 1, k - 1, i - 1);
    } else {
      BitsOfSnoc(v, k);
    }
  }

  // Bit i of the reversed polynomial is the coefficient of power 31 - i.
  ghost predicate Agrees(i: nat)
    requires i < 32
  {
    (Right(POLYNOMIAL, i) & 1 == 1) == Generator()[i + 1] && Right(0xFFFFFFFF, i) & 1 == 1
  }

  lemma RightByFour(v: bv32)
    ensures Right(v, 1) == v >> 1 && Right(v, 2) == v >> 2 && Right(v, 3) == v >> 3 && Right(v, 4) == v >> 4
  {
    assert v >> 1 >> 1 == v >> 2 && v >> 2 >> 1 == v >> 3 && v >> 3 >> 1 == v >> 4;
    assert Right(v, 3) == Right(v >> 2, 1) && Right(v, 4) == Right(v >> 2, 2);
  }

  lemma AgreesAt(n: nat, j: nat, p: bv32, ones: bv32, p': bv32, ones': bv32)
    requires n + j < 32 && Right(POLYNOMIAL, n) == p && Right(0xFFFFFFFF, n) == ones
    requires Right(p, j) == p' && Right(ones, j) == ones'
    requires (p' & 1 == 1) == Generator()[n + j + 1] && ones' & 1 == 1
    ensures Agrees(n + j)
  {
    RightAdds(POLYNOMIAL, n, j);
    RightAdds(0xFFFFFFFF, n, j);
  }

  // Four bits at a time: p and ones are the two words moved down by n.
  lemma FourAgree(n: nat, p: bv32, ones: bv32)
    requires n <= 28 && Right(POLYNOMIAL, n) == p && Right(0xFFFFFFFF, n) == ones && ones & 0xF == 0xF
    requires (p & 1 == 1) == Generator()[n + 1] && ((p >> 1) & 1 == 1) == Generator()[n + 2]
    requires ((p >> 2) & 1 == 1) == Generator()[n + 3] && ((p >> 3) & 1 == 1) == Generator()[n + 4]
    ensures Agrees(n) && Agrees(n + 1) && Agrees(n + 2) && Agrees(n + 3)
    ensures Right(POLYNOMIAL, n + 4) == p >> 4 && Right(0xFFFFFFFF, n + 4) == ones >> 4
  {
    RightByFour(p);
    RightByFour(ones);
    RightAdds(POLYNOMIAL, n, 4);
    RightAdds(0xFFFFFFFF, n, 4);
    AgreesAt(n, 0, p, ones, p, ones);
    AgreesAt(n, 1, p, ones, p >> 1, ones >> 1);
    AgreesAt(n, 2, p, ones, p >> 2, ones >> 2);
    AgreesAt(n, 3, p, ones, p >> 3, ones >> 3);
  }

  lemma LowAgree()
    ensures forall i :: 0 <= i < 16 ==> Agrees(i)
    ensures Right(POLYNOMIAL, 16) == 0xEDB8 && Right(0xFFFFFFFF, 16) == 0xFFFF
  {
    FourAgree(0, 0xEDB88320, 0xFFFFFFFF);
    FourAgree(4, 0xEDB8832, 0xFFFFFFF);
    FourAgree(8, 0xEDB883, 0xFFFFFF);
    FourAgree(12, 0xEDB88, 0xFFFFF);
  }

  lemma HighAgree()
    requires Right(POLYNOMIAL, 16) == 0xEDB8 && Right(0xFFFFFFFF, 16) == 0xFFFF
    ensures forall i :: 16 <= i < 32 ==> Agrees(i)
  {
    FourAgree(16, 0xEDB8, 0xFFFF);
    FourAgree(20, 0xEDB, 0xFFF);
    LastAgree();
  }

  lemma LastAgree()
    requires Right(POLYNOMIAL, 24) == 0xED && Right(0xFFFFFFFF, 24) == 0xFF
    ensures forall i :: 24 <= i < 32 ==> Agrees(i)
  {
    FourAgree(24, 0xED, 0xFF);
    FourAgree(28, 0xE, 0xF);
  }

  // The reversed polynomial is the generator without its highest term.
  lemma PolynomialBits()
    ensures WordBits(POLYNOMIAL) == Generator()[1..]
    ensures WordBits(0xFFFFFFFF) == Ones(WIDTH)
  {
    LowAgree();
    HighAgree();
    forall i | 0 <= i < WIDTH
      ensures WordBits(POLYNOMIAL)[i] == Generator()[i + 1] && WordBits(0xFFFFFFFF)[i]
    {
      BitAt(POLYNOMIAL, WIDTH, i);
      BitAt(0xFFFFFFFF, WIDTH, i);
      assert Agrees(i);
    }
  }

  // The bits of the polynomial, if t, otherwise zeros.
  lemma TapBits(t: bool)
    ensures WordBits(if t then POLYNOMIAL else 0) == Scaled(Generator()[1..], t)
  {
    PolynomialBits();
    BitsOfZero(WIDTH);
  }

  lemma ShiftIsXor(x: bv32, tap: bv32)
    requires tap == (if x & 1 == 1 then POLYNOMIAL else 0)
    ensures Shift(x) == Xor(x >> 1, tap)
  {
  }

  lemma TakeBitIsXor(crc: bv32, bit: bool)
    ensures TakeBit(crc, bit) == Xor(Shift(crc), if bit then POLYNOMIAL else 0)
  {
    if bit {
      TakeBitIsShift(crc, 1);
      ShiftXor(crc, 1);
      assert Shift(1) == POLYNOMIAL;
    } else {
      TakeBitIsShift(crc, 0);
      XorZero(crc);
      XorZero(Shift(crc));
    }
  }

  lemma BitsOfXorWord(x: bv32, y: bv32)
    ensures WordBits(Xor(x, y)) == Added(WordBits(x), WordBits(y))
  {
    BitsOfXor(x, y, WIDTH);
  }

  lemma FirstBit(x: bv32)
    ensures WordBits(x)[0] == (x & 1 == 1)
  {
  }

  lemma ShiftBits(crc: bv32)
    ensures var s := WordBits(crc);
      WordBits(Shift(crc)) == Added(s[1..] + [false], Scaled(Generator()[1..], s[0]))
  {
    var tap := if crc & 1 == 1 then POLYNOMIAL else 0;
    FirstBit(crc);
    ShiftedBits(crc);
    ShiftIsXor(crc, tap);
    BitsOfXorWord(crc >> 1, tap);
    TapBits(crc & 1 == 1);
  }

  lemma TwoTaps(s: Poly, g: Poly, a: bool, b: bool)
    requires |s| == |g|
    ensures Added(Added(s, Scaled(g, a)), Scaled(g, b)) == Added(s, Scaled(g, a != b))
  {
  }

  // Taking in a bit is a step of the division.
  lemma NextRegister(crc: bv32, bit: bool)
    ensures var s := WordBits(crc);
      WordBits(TakeBit(crc, bit)) == Added(s[1..] + [false], Scaled(Generator()[1..], s[0] != bit))
  {
    ShiftBits(crc);
    TakeBitIsXor(crc, bit);
    BitsOfXorWord(Shift(crc), if bit then POLYNOMIAL else 0);
    TapBits(bit);
    var s := WordBits(crc);
    TwoTaps(s[1..] + [false], Generator()[1..], s[0], bit);
  }

  lemma DividendSnoc(front: seq<bool>, b: bool)
    ensures var p := Dividend(front); Dividend(front + [b]) == (p + [false])[|front| := p[|front|] != b]
  {
  }

  // The register after a message is its remainder.
  lemma {:induction false} RegisterIsRemainder(bits: seq<bool>) returns (q: Poly)
    ensures Divides(Dividend(bits), Generator(), q, WordBits(TakeBits(0xFFFFFFFF, bits))) && |q| == |bits|
    decreases |bits|
  {
    if bits == [] {
      PolynomialBits();
      q := [];
      assert Dividend([]) == Added(Product([], Generator()), Zero(0) + Ones(32));
    } else {
      var front, b := bits[..|bits| - 1], bits[|bits| - 1];
      assert bits == front + [b];
      var crc := TakeBits(0xFFFFFFFF, front);
      var q0 := RegisterIsRemainder(front);
      TakeBitsConcat(0xFFFFFFFF, front, [b]);
      assert TakeBits(crc, [b]) == TakeBit(crc, b);
      NextRegister(crc, b);
      DividendSnoc(front, b);
      NextCoefficient(Dividend(front), Generator(), q0, WordBits(crc), b, Dividend(bits), WordBits(TakeBit(crc, b)));
      q := q0 + [WordBits(crc)[0] != b];
    }
  }

  lemma NotIsXor(x: bv32)
    ensures !x == Xor(x, 0xFFFFFFFF)
  {
  }

  lemma ComplementOfNot(x: bv32)
    ensures Complement(WordBits(!x)) == WordBits(x)
  {
    NotIsXor(x);
    BitsOfXorWord(x, 0xFFFFFFFF);
    PolynomialBits();
    var p := WordBits(x);
    var c := Complement(Added(p, Ones(WIDTH)));
    forall i | 0 <= i < WIDTH
      ensures c[i] == p[i]
    {
      assert Added(p, Ones(WIDTH))[i] == !p[i];
    }
  }

  // The hash is the complement of the register, which is the remainder.
  lemma NotIsCrc(register: bv32, message: seq<bool>, q: Poly)
    requires Divides(Dividend(message), Generator(), q, WordBits(register))
    ensures HasRemainder(WordBits(!register), message)
  {
    ComplementOfNot(register);
  }

  lemma NotOfMessage(message: seq<bool>)
    ensures HasRemainder(WordBits(!TakeBits(0xFFFFFFFF, message)), message)
  {
    var q := RegisterIsRemainder(message);
    NotIsCrc(TakeBits(0xFFFFFFFF, message), message, q);
  }

  lemma CrcIsRemainder(data: seq<bv8>)
    ensures IsCrc(WordBits(Crc(data)), data)
  {
    NotOfMessage(Bits(data));
  }

  lemma BitsOfCons(v: bv32, k: nat, low: bool)
    requires k > 0 && low == (v & 1 == 1)
    ensures BitsOf(v, k) == [low] + BitsOf(v >> 1, k - 1) && Right(v, k) == Right(v >> 1, k - 1)
  {
  }

  lemma ZeroHead(low: bool, p: Poly, k: nat)
    requires k > 0 && [low] + p == Zero(k)
    ensures !low && p == Zero(k - 1)
  {
    assert ([low] + p)[0] == low && ([low] + p)[1..] == p;
  }

  lemma AllZero(v: bv32)
    requires v & 1 != 1 && v >> 1 == 0
    ensures v == 0
  {
  }

  lemma {:induction false} ZeroBits(v: bv32, k: nat)
    requires BitsOf(v, k) == Zero(k) && Right(v, k) == 0
    ensures v == 0
    decreases k
  {
    if k > 0 {
      BitsOfCons(v, k, v & 1 == 1);
      ZeroHead(v & 1 == 1, BitsOf(v >> 1, k - 1), k);
      ZeroBits(v >> 1, k - 1);
      AllZero(v);
    }
  }

  lemma XorIsZero(x: bv32, y: bv32)
    requires Xor(x, y) == 0
    ensures x == y
  {
  }

  lemma ZeroWord(v: bv32)
    requires WordBits(v) == Zero(WIDTH)
    ensures v == 0
  {
    WordRunsOut(v);
    ZeroBits(v, WIDTH);
  }

  // Two words of the same bits are the same.
  lemma SameBits(x: bv32, y: bv32)
    requires WordBits(x) == WordBits(y)
    ensures x == y
  {
    BitsOfXorWord(x, y);
    var p := WordBits(x);
    assert Added(p, p) == Zero(WIDTH);
    ZeroWord(Xor(x, y));
    XorIsZero(x, y);
  }

  // A word is the CRC-32 of a message exactly when its complement is the remainder.
  lemma CrcIffRemainder(h: bv32, data: seq<bv8>)
    ensures IsCrc(WordBits(h), data) <==> h == Crc(data)
  {
    var crc := Crc(data);
    CrcIsRemainder(data);
    if IsCrc(WordBits(h), data) {
      CrcIsUnique(WordBits(h), WordBits(crc), data);
      SameBits(h, crc);
    }
  }
}
