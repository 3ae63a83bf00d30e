/**
 Polynomials over the field of two elements, as strings of coefficients, the highest power first:
 addition, multiplication, and division with remainder.
 */
module Gf2 {
  type Poly = seq<bool>

  function Zero(n: nat): (p: Poly)
    ensures |p| == n
  {
    seq(n, _ => false)
  }

  function Added(p: Poly, q: Poly): (r: Poly)
    requires |p| == |q|
    ensures |r| == |p|
  {
    seq(|p|, i requires 0 <= i < |p| => p[i] != q[i])
  }

  function Scaled(g: Poly, c: bool): (r: Poly)
    ensures |r| == |g|
  {
    if c then g else Zero(|g|)
  }

  // p x + c g
  function Next(p: Poly, g: Poly, c: bool): (r: Poly)
    requires |g| <= |p| + 1
    ensures |r| == |p| + 1
  {
    Added(p + [false], Zero(|p| + 1 - |g|) + Scaled(g, c))
  }

  // Horner's rule: (q x + c) g == (q g) x + c g.
  function Product(q: Poly, g: Poly): (r: Poly)
    requires |g| >= 1
    ensures |r| == |q| + |g| - 1
  {
    if q == [] then Zero(|g| - 1) else Next(Product(q[..|q| - 1], g), g, q[|q| - 1])
  }

  // p is q times g with remainder r.
  predicate Divides(p: Poly, g: Poly, q: Poly, r: Poly) {
    && |g| >= 1 && |r| == |g| - 1 && |p| == |q| + |r|
    && p == Added(Product(q, g), Zero(|q|) + r)
  }

  // The coefficient at place i; there are zeros on either side.
  function At(p: Poly, i: int): bool {
    0 <= i < |p| && p[i]
  }

  // j is where coefficient i of the sum falls on g.
  lemma NextAt(p: Poly, g: Poly, c: bool, i: int, j: int)
    requires |g| <= |p| + 1 && j == i - (|p| + 1 - |g|)
    ensures At(Next(p, g, c), i) == (At(p, i) != (c && At(g, j)))
  {
  }

  lemma ProductAt(q: Poly, g: Poly, i: int, j: int)
    requires |g| >= 1 && q != [] && j == i - (|q| - 1)
    ensures At(Product(q, g), i) == (At(Product(q[..|q| - 1], g), i) != (q[|q| - 1] && At(g, j)))
  {
    NextAt(Product(q[..|q| - 1], g), g, q[|q| - 1], i, j);
  }

  // The same product by its highest coefficient.
  lemma {:induction false} ProductByHead(c: bool, q: Poly, g: Poly, i: int)
    requires |g| >= 1
    ensures At(Product([c] + q, g), i) == ((c && At(g, i)) != At(Product(q, g), i - 1))
    decreases |q|
  {
    var all := [c] + q;
    var j := i - |q|;
    ProductAt(all, g, i, j);
    if q == [] {
      assert all[..0] == [];
    } else {
      assert all[..|all| - 1] == [c] + q[..|q| - 1];
      ProductByHead(c, q[..|q| - 1], g, i);
      ProductAt(q, g, i - 1, j);
    }
  }

  lemma DividesAt(p: Poly, g: Poly, q: Poly, r: Poly, i: int, j: int)
    requires Divides(p, g, q, r) && j == i - |q|
    ensures At(p, i) == (At(Product(q, g), i) != At(r, j))
  {
  }

  lemma DividesIfAt(p: Poly, g: Poly, q: Poly, r: Poly)
    requires |g| >= 1 && |r| == |g| - 1 && |p| == |q| + |r|
    requires forall i :: 0 <= i < |p| ==> At(p, i) == (At(Product(q, g), i) != At(r, i - |q|))
    ensures Divides(p, g, q, r)
  {
    forall i | 0 <= i < |p|
      ensures p[i] == Added(Product(q, g), Zero(|q|) + r)[i]
    {
      assert p[i] == At(p, i);
    }
  }

  // Taking the highest coefficient off the quotient.
  lemma RestAt(p: Poly, g: Poly, q: Poly, r: Poly, i: int, j: int)
    requires Divides(p, g, q, r) && q != [] && j == i - |q[1..]|
    ensures At(p, i + 1) == ((q[0] && At(g, i + 1)) != (At(Product(q[1..], g), i) != At(r, j)))
  {
    assert q == [q[0]] + q[1..];
    DividesAt(p, g, q, r, i + 1, j);
    ProductByHead(q[0], q[1..], g, i + 1);
  }

  lemma RestDivides(p: Poly, g: Poly, q: Poly, r: Poly) returns (p1: Poly)
    requires Divides(p, g, q, r) && q != [] && g[0]
    ensures p[0] == q[0]
    ensures |p1| == |p| - 1 && Divides(p1, g, q[1..], r)
    ensures forall i :: 0 <= i < |p1| ==> p1[i] == (p[i + 1] != (q[0] && At(g, i + 1)))
  {
    var rest := q[1..];
    RestAt(p, g, q, r, -1, -1 - |rest|);
    assert At(p, 0) == q[0];
    p1 := seq(|p| - 1, i requires 0 <= i < |p| - 1 => p[i + 1] != (q[0] && At(g, i + 1)));
    forall i | 0 <= i < |p1|
      ensures At(p1, i) == (At(Product(rest, g), i) != At(r, i - |rest|))
    {
      RestAt(p, g, q, r, i, i - |rest|);
      assert At(p, i + 1) == p[i + 1];
    }
    DividesIfAt(p1, g, rest, r);
  }

  // Division by a polynomial whose highest coefficient is not zero has one result.
  lemma {:induction false} DivisionIsUnique(p: Poly, g: Poly, q: Poly, r: Poly, q': Poly, r': Poly)
    requires Divides(p, g, q, r) && Divides(p, g, q', r') && g[0]
    ensures q == q' && r == r'
    decreases |q|
  {
    if q == [] {
      forall i | 0 <= i < |r|
        ensures r[i] == r'[i]
      {
        DividesAt(p, g, q, r, i, i);
        DividesAt(p, g, q', r', i, i);
      }
    } else {
      var p1 := RestDivides(p, g, q, r);
      var p2 := RestDivides(p, g, q', r');
      assert p1 == p2;
      DivisionIsUnique(p1, g, q[1..], r, q'[1..], r');
      assert q == [q[0]] + q[1..] && q' == [q'[0]] + q'[1..];
    }
  }

  // One more coefficient of the dividend: the highest coefficient of the remainder, with what is
  // added to the dividend there, is the next one of the quotient.
  lemma NextCoefficient(p: Poly, g: Poly, q: Poly, r: Poly, b: bool, p': Poly, r': Poly)
    requires Divides(p, g, q, r) && |g| >= 2 && g[0] && |p'| == |p| + 1 && |r'| == |r|
    requires p' == (p + [false])[|q| := p[|q|] != b]
    requires var c := r[0] != b; r' == Added(r[1..] + [false], Scaled(g[1..], c))
    ensures Divides(p', g, q + [r[0] != b], r')
  {
    var c := r[0] != b;
    var q' := q + [c];
    assert q'[..|q|] == q;
    forall i | 0 <= i < |p'|
      ensures At(p', i) == (At(Product(q', g), i) != At(r', i - |q'|))
    {
      var j := i - |q|;
      ProductAt(q', g, i, j);
      DividesAt(p, g, q, r, i, j);
      NewRemainderAt(g, r, c, r', j);
      assert At(p', i) == (At(p, i) != (b && j == 0));
    }
    DividesIfAt(p', g, q', r');
  }

  lemma NewRemainderAt(g: Poly, r: Poly, c: bool, r': Poly, j: int)
    requires |g| >= 2 && g[0] && |r| == |g| - 1 && r' == Added(r[1..] + [false], Scaled(g[1..], c))
    ensures At(r', j - 1) == if j <= 0 then false else At(r, j) != (c && At(g, j))
  {
  }
}
