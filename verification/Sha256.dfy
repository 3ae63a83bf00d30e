/**
 SHA-256 in the form of the program: mixed functions, eight rounds at a time with renamed
 registers, a block buffer, and padding written into that buffer. Proved against Sha256Spec.
 */
module Sha256 {
  import opened Words
  import opened Sha256Spec

  // ------------------------------------------------------------------- the mix functions

  function F1(e: bv32, f: bv32, g: bv32): bv32 {
    Plus(BigSigma1(e), Ch(e, f, g))
  }

  function F2(a: bv32, b: bv32, c: bv32): bv32 {
    Plus(BigSigma0(a), ((a | b) & c) | (a & b))
  }

  // x in every line of the rounds.
  function Mix(e: bv32, f: bv32, g: bv32, h: bv32, k: bv32, w: bv32): bv32 {
    Plus(Plus(Plus(h, F1(e, f, g)), k), w)
  }

  lemma MajorityRewritten(a: bv32, b: bv32, c: bv32)
    ensures ((a | b) & c) | (a & b) == Maj(a, b, c)
  {
  }

  // One line of the rounds: d and h change, and trade places with their neighbours.
  lemma LineIsRound(s: Registers, k: bv32, w: bv32)
    ensures var x := Mix(s.e, s.f, s.g, s.h, k, w);
      Round(s, k, w) == Registers(Plus(x, F2(s.a, s.b, s.c)), s.a, s.b, s.c, Plus(s.d, x), s.e, s.f, s.g)
  {
    MajorityRewritten(s.a, s.b, s.c);
  }

  // Eight lines, after which every register is back in its place: rounds i to i + 7.
  method EightRounds(s: Registers, k: seq<bv32>, w: seq<bv32>,
                     ghost s0: Registers, ghost ks: seq<bv32>, ghost ws: seq<bv32>, ghost i: nat) returns (r: Registers)
    requires i + 8 <= |ks| == |ws| && |k| == 8 == |w|
    requires forall j {:trigger k[j]} {:trigger w[j]} :: 0 <= j < 8 ==> k[j] == ks[i + j] && w[j] == ws[i + j]
    requires s == Rounds(s0, ks, ws, i)
    ensures r == Rounds(s0, ks, ws, i + 8)
  {
    var a, b, c, d, e, f, g, h := s.a, s.b, s.c, s.d, s.e, s.f, s.g, s.h;
    LineIsRound(Registers(a, b, c, d, e, f, g, h), k[0], w[0]);
    var x, y := Mix(e, f, g, h, k[0], w[0]), F2(a, b, c);
    d := Plus(d, x);
    h := Plus(x, y);
    assert Registers(h, a, b, c, d, e, f, g) == Rounds(s0, ks, ws, i + 1);
    LineIsRound(Registers(h, a, b, c, d, e, f, g), k[1], w[1]);
    x, y := Mix(d, e, f, g, k[1], w[1]), F2(h, a, b);
    c := Plus(c, x);
    g := Plus(x, y);
    assert Registers(g, h, a, b, c, d, e, f) == Rounds(s0, ks, ws, i + 2);
    LineIsRound(Registers(g, h, a, b, c, d, e, f), k[2], w[2]);
    x, y := Mix(c, d, e, f, k[2], w[2]), F2(g, h, a);
    b := Plus(b, x);
    f := Plus(x, y);
    assert Registers(f, g, h, a, b, c, d, e) == Rounds(s0, ks, ws, i + 3);
    LineIsRound(Registers(f, g, h, a, b, c, d, e), k[3], w[3]);
    x, y := Mix(b, c, d, e, k[3], w[3]), F2(f, g, h);
    a := Plus(a, x);
    e := Plus(x, y);
    assert Registers(e, f, g, h, a, b, c, d) == Rounds(s0, ks, ws, i + 4);
    LineIsRound(Registers(e, f, g, h, a, b, c, d), k[4], w[4]);
    x, y := Mix(a, b, c, d, k[4], w[4]), F2(e, f, g);
    h := Plus(h, x);
    d := Plus(x, y);
    assert Registers(d, e, f, g, h, a, b, c) == Rounds(s0, ks, ws, i + 5);
    LineIsRound(Registers(d, e, f, g, h, a, b, c), k[5], w[5]);
    x, y := Mix(h, a, b, c, k[5], w[5]), F2(d, e, f);
    g := Plus(g, x);
    c := Plus(x, y);
    assert Registers(c, d, e, f, g, h, a, b) == Rounds(s0, ks, ws, i + 6);
    LineIsRound(Registers(c, d, e, f, g, h, a, b), k[6], w[6]);
    x, y := Mix(g, h, a, b, k[6], w[6]), F2(c, d, e);
    f := Plus(f, x);
    b := Plus(x, y);
    assert Registers(b, c, d, e, f, g, h, a) == Rounds(s0, ks, ws, i + 7);
    LineIsRound(Registers(b, c, d, e, f, g, h, a), k[7], w[7]);
    x, y := Mix(f, g, h, a, k[7], w[7]), F2(b, c, d);
    e := Plus(e, x);
    a := Plus(x, y);
    r := Registers(a, b, c, d, e, f, g, h);
  }

  // ------------------------------------------------------------------- one block

  // words[i] of the block on a machine of either byte order.
  function LoadWord(b0: bv8, b1: bv8, b2: bv8, b3: bv8, bigEndian: bool): (r: bv32)
    ensures r == Word(b3, b2, b1, b0)
  {
    SwapWord(b0, b1, b2, b3);
    if bigEndian then Word(b3, b2, b1, b0) else Swap(Word(b0, b1, b2, b3))
  }

  method LoadWords(words: array<bv32>, data: seq<bv8>, bigEndian: bool)
    requires words.Length == 64 && |data| == 64
    modifies words
    ensures words[..16] == Schedule(Parse(data), 16)
  {
    for i := 0 to 16
      invariant forall j :: 0 <= j < i ==> words[j] == Parse(data)[j]
    {
      words[i] := LoadWord(data[4 * i], data[4 * i + 1], data[4 * i + 2], data[4 * i + 3], bigEndian);
    }
  }

  // The loops that extend the words from `from` to `to`.
  method Extend(words: array<bv32>, from: nat, to: nat, ghost m: seq<bv32>)
    requires words.Length == 64 && |m| == 16 <= from <= to <= 64
    requires words[..from] == Schedule(m, from)
    modifies words
    ensures words[..to] == Schedule(m, to)
  {
    for i := from to to
      invariant words[..i] == Schedule(m, i)
    {
      ghost var w := words[..i];
      words[i] := Mixed(words[i - 16], words[i - 15], words[i - 7], words[i - 2]);
      assert words[i] == NextWord(w);
      assert words[..i + 1] == w + [words[i]];
    }
  }

  // The registers and words before group g.
  ghost predicate Reached(s: Registers, words: seq<bv32>, g: nat, s0: Registers, m: seq<bv32>)
    requires |m| == 16
  {
    && g <= 8 && |words| == 64 && s == Rounds(s0, K(), Schedule(m, 64), 8 * g)
    && words[..Have(g)] == Schedule(m, Have(g))
  }

  // How many words there are before group g.
  function Have(g: nat): nat {
    if g < 2 then 16 else 8 * g
  }

  lemma InGroup(g: nat, j: nat)
    requires g < 8 && j < 8
    ensures K()[8 * g + j] == KGroup(g)[j]
  {
    assert (8 * g + j) / 8 == g && (8 * g + j) % 8 == j;
  }

  lemma GroupInStep(words: seq<bv32>, g: nat, m: seq<bv32>, n: nat)
    requires g < 8 && |words| == 64 && |m| == 16 <= n <= 64 && 8 * g + 8 <= n && words[..n] == Schedule(m, n)
    ensures forall j {:trigger KGroup(g)[j]} {:trigger words[8 * g..8 * g + 8][j]} ::
      0 <= j < 8 ==> KGroup(g)[j] == K()[8 * g + j] && words[8 * g..8 * g + 8][j] == Schedule(m, 64)[8 * g + j]
  {
    SchedulePrefix(m, n, 64);
    forall j | 0 <= j < 8
      ensures KGroup(g)[j] == K()[8 * g + j] && words[8 * g..8 * g + 8][j] == Schedule(m, 64)[8 * g + j]
    {
      InGroup(g, j);
      assert words[..n][8 * g + j] == Schedule(m, 64)[..n][8 * g + j];
    }
  }

  // The words of group g, unless they come from the block, and its eight rounds.
  method Group(s: Registers, words: array<bv32>, g: nat, ghost s0: Registers, ghost m: seq<bv32>) returns (r: Registers)
    requires |m| == 16 && g < 8 && Reached(s, words[..], g, s0, m)
    modifies words
    ensures Reached(r, words[..], g + 1, s0, m)
  {
    ghost var n := Have(g + 1);
    if g >= 2 {
      assert words[..][..Have(g)] == words[..8 * g];
      Extend(words, 8 * g, 8 * g + 8, m);
    }
    var all := words[..];
    assert all[..n] == words[..n] == Schedule(m, n);
    GroupInStep(all, g, m, n);
    r := EightRounds(s, KGroup(g), all[8 * g..8 * g + 8], s0, K(), Schedule(m, 64), 8 * g);
  }

  method ProcessBlock(hash: Registers, data: seq<bv8>, bigEndian: bool) returns (r: Registers)
    requires |data| == 64
    ensures r == Compress(hash, data)
  {
    ghost var m := Parse(data);
    var words := new bv32[64];
    LoadWords(words, data, bigEndian);
    assert words[..][..16] == words[..16];
    r := Group(hash, words, 0, hash, m);
    r := Group(r, words, 1, hash, m);
    r := Group(r, words, 2, hash, m);
    r := Group(r, words, 3, hash, m);
    r := Group(r, words, 4, hash, m);
    r := Group(r, words, 5, hash, m);
    r := Group(r, words, 6, hash, m);
    r := Group(r, words, 7, hash, m);
    r := AddRegisters(hash, r);
  }
}
