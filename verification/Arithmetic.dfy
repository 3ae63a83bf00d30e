/** Quotients and remainders by a variable divisor. */
module Arithmetic {
  import opened Wrappers

  function Power256(k: nat): nat {
    if k == 0 then 1 else 0x100 * Power256(k - 1)
  }

  lemma MulMonotone(m: int, a: int, b: int)
    requires a <= b && 0 <= m
    ensures m * a <= m * b
  {
  }

  lemma ModUnique(x: int, m: nat, q: int, r: nat)
    requires r < m && x == m * q + r
    ensures x % m == r && x / m == q
  {
    var q' := x / m;
    assert x == m * q' + x % m;
    assert m * (q + 1) == m * q + m && m * (q' + 1) == m * q' + m;
    MulMonotone(m, q + 1, Max(q', q + 1));
    MulMonotone(m, q' + 1, Max(q, q' + 1));
  }

  lemma ModOfMod(x: nat, p: nat, size: nat)
    requires p > 0 && size > 0
    ensures size * p > 0 && x % (size * p) % size == x % size
  {
    MulMonotone(size, 1, p);
    var m := size * p;
    var q, r := x / m, x % m;
    var q', r' := r / size, r % size;
    assert x == m * q + r && r == size * q' + r';
    Regroup(size, p, q, q');
    ModUnique(x, size, p * q + q', r');
  }

  lemma Regroup(a: int, b: int, c: int, d: int)
    ensures (a * b) * c + a * d == a * (b * c + d)
  {
    assert (a * b) * c == a * (b * c);
  }

  lemma ModRepeats(x: nat, m: nat)
    requires m > 0
    ensures (x + m) % m == x % m
  {
    assert x + m == m * (x / m + 1) + x % m;
    ModUnique(x + m, m, x / m + 1, x % m);
  }

  // Fewer than m apart, different remainders.
  lemma ModsDiffer(a: nat, b: nat, m: nat)
    requires a < b < a + m
    ensures a % m != b % m
  {
    if a % m == b % m {
      assert a == m * (a / m) + a % m;
      ModUnique(a + (b - a), m, b / m, a % m);
      var q, q' := a / m, b / m;
      assert b - a == m * q' - m * q == m * (q' - q);
      MulMonotone(m, 1, Max(1, q' - q));
      MulMonotone(m, q' - q, Max(0, q' - q));
      assert false;
    }
  }
}
