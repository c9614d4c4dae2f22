/** Small things that several components share. */
module Common {

  datatype Option<T> = None | Some(value: T)

  function Min(a: int, b: int): int {
    if a < b then a else b
  }

  function Max(a: int, b: int): int {
    if a < b then b else a
  }

  /** The remainder counts up and wraps. */
  lemma NextRemainder(n: nat, p: int)
    requires p > 0
    ensures 0 % p == 0
    ensures (n + 1) % p == if n % p + 1 < p then n % p + 1 else 0
  {
    var q, r := n / p, n % p;
    assert n == p * q + r;
    if r + 1 < p {
      Remainder(p, q, r + 1);
    } else {
      assert n + 1 == p * (q + 1) + 0;
      Remainder(p, q + 1, 0);
    }
    Remainder(p, 0, 0);
  }

  lemma Remainder(p: int, q: int, r: int)
    requires 0 <= r < p
    ensures (p * q + r) % p == r
  {
    var n := p * q + r;
    var k := n / p - q;
    assert p * k == r - n % p;
    Multiple(p, k);
  }

  lemma Multiple(p: int, k: int)
    requires p >= 1
    ensures k >= 1 ==> p * k >= p
    ensures k <= -1 ==> p * k <= -p
  {
  }

  /** A subset is smaller exactly when it misses something. */
  lemma SubsetCard<T>(a: set<T>, b: set<T>)
    requires a <= b
    ensures |a| <= |b|
    ensures |a| < |b| <==> exists x :: x in b && x !in a
  {
    var rest := b - a;
    assert b == a + rest;
    if x :| x in b && x !in a {
      assert x in rest;
    } else {
      assert a == b;
    }
  }

  ghost function Interval(lo: int, hi: int): (r: set<int>)
    requires lo <= hi
    ensures forall i :: i in r <==> lo <= i < hi
    ensures |r| == hi - lo
    decreases hi - lo
  {
    if lo == hi then {} else Interval(lo, hi - 1) + {hi - 1}
  }

  /** A set of numbers from an interval is as large as the interval exactly when it misses none. */
  lemma Pigeonhole(used: set<int>, lo: int, hi: int)
    requires lo <= hi && forall i :: i in used ==> lo <= i < hi
    ensures |used| <= hi - lo
    ensures |used| == hi - lo <==> forall i :: lo <= i < hi ==> i in used
  {
    SubsetCard(used, Interval(lo, hi));
  }
}
