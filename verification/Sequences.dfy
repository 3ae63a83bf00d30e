/** Facts about concatenation that several modules share. */
module Sequences {
  lemma Chained<T>(a: seq<T>, b: seq<T>, c: seq<T>)
    ensures a + (b + c) == (a + b) + c
  {
  }

  lemma SplitAt<T>(s: seq<T>, i: nat, j: nat)
    requires i <= j <= |s|
    ensures s[..j] == s[..i] + s[i..j]
  {
  }

  lemma ConsPrefix<T>(x: T, rest: seq<T>, n: nat)
    requires n <= |rest|
    ensures ([x] + rest)[..n + 1] == [x] + rest[..n]
  {
  }

  // The last n elements.
  function Suffix<T>(s: seq<T>, n: nat): (r: seq<T>)
    requires n <= |s|
    ensures |r| == n
  {
    if n == 0 then [] else Suffix(s[..|s| - 1], n - 1) + [s[|s| - 1]]
  }

  lemma {:induction false} SuffixAt<T>(s: seq<T>, n: nat, k: nat)
    requires 0 < k <= n <= |s|
    ensures Suffix(s, n)[n - k] == s[|s| - k]
  {
    if k > 1 {
      SuffixAt(s[..|s| - 1], n - 1, k - 1);
    }
  }

  lemma {:induction false} SuffixOfAll<T>(s: seq<T>)
    ensures Suffix(s, |s|) == s
  {
    if s != [] {
      SuffixOfAll(s[..|s| - 1]);
    }
  }

  lemma SuffixSnoc<T>(s: seq<T>, x: T, n: nat)
    requires n <= |s|
    ensures Suffix(s + [x], n + 1) == Suffix(s, n) + [x]
  {
    assert (s + [x])[..|s|] == s;
  }

  // Dropping elements in front changes no shorter suffix.
  lemma {:induction false} SuffixOfTail<T>(s: seq<T>, n: nat)
    requires n < |s|
    ensures Suffix(s[1..], n) == Suffix(s, n)
  {
    if n > 0 {
      assert s[1..][..|s| - 2] == s[..|s| - 1][1..];
      SuffixOfTail(s[..|s| - 1], n - 1);
    }
  }

  lemma {:induction false} SuffixOfPrefixless<T>(s: seq<T>, a: nat, n: nat)
    requires n <= a <= |s|
    ensures Suffix(Suffix(s, a), n) == Suffix(s, n)
    decreases n
  {
    if n > 0 {
      assert Suffix(s, a)[..a - 1] == Suffix(s[..|s| - 1], a - 1);
      SuffixOfPrefixless(s[..|s| - 1], a - 1, n - 1);
    }
  }

  lemma {:induction false} SuffixOfSuffix<T>(s: seq<T>, a: nat, rest: seq<T>, n: nat)
    requires a <= |s| && n <= a + |rest|
    ensures Suffix(Suffix(s, a) + rest, n) == Suffix(s + rest, n)
    decreases n
  {
    if rest == [] {
      assert Suffix(s, a) + rest == Suffix(s, a) && s + rest == s;
      SuffixOfPrefixless(s, a, n);
    } else if n > 0 {
      var front := rest[..|rest| - 1];
      assert (Suffix(s, a) + rest)[..a + |rest| - 1] == Suffix(s, a) + front;
      assert (s + rest)[..|s| + |rest| - 1] == s + front;
      SuffixOfSuffix(s, a, front, n - 1);
    }
  }
}
