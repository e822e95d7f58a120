/**
 Quadratic probing (cc_learn/cc.h:2890-2903): the bucket at displacement d from a home bucket lies
 d(d+1)/2 further on, modulo a bucket count that is a power of two.  Displacements 0 to n-1 reach
 each of n buckets exactly once.
 */
module HashProbe {
  import opened Powers

  /** d(d+1)/2, the way the search adds it up (cc_learn/cc.h:3036-3049). */
  function Quad(d: nat): nat {
    if d == 0 then 0 else Quad(d - 1) + d
  }

  /** `x & mask`, for a mask one below a power of two: the remainder modulo mask + 1. */
  function Reduce(x: nat, mask: nat): nat {
    if x <= mask then x else Reduce(x - mask - 1, mask)
  }

  /** The closed form that the chain walks use (cc_learn/cc.h:2900-2903). */
  lemma {:induction false} QuadClosed(d: nat)
    ensures Quad(d) == (d * d + d) / 2
  {
    if d > 0 {
      QuadClosed(d - 1);
      assert (d - 1) * (d - 1) + (d - 1) == d * d - d;
      assert 2 * ((d * d - d) / 2) == d * d - d by { Even(d); }
      assert 2 * ((d * d + d) / 2) == d * d + d by { Even(d); }
    }
  }

  lemma Even(d: nat)
    ensures (d * d + d) % 2 == 0 && (d * d - d) % 2 == 0
  {
    var q := d / 2;
    if d % 2 == 0 {
      assert d * d == 2 * (q * d) by { assert d == 2 * q; }
    } else {
      assert d * d == 2 * (q * d) + d by { assert d == 2 * q + 1; }
    }
  }

  lemma {:induction false} ReduceMod(x: nat, mask: nat)
    ensures Reduce(x, mask) == x % (mask + 1)
    ensures Reduce(x, mask) <= mask
    decreases x
  {
    if x > mask {
      var n := mask + 1;
      ReduceMod(x - n, mask);
      assert x % n == (x - n) % n by { ModBelow(x - n, n, (x - n) / n); }
    }
  }

  lemma ModBelow(y: nat, n: nat, q: nat)
    requires n > 0 && q == y / n
    ensures (y + n) % n == y % n
  {
    var r := y % n;
    assert y == q * n + r;
    assert y + n == (q + 1) * n + r by { assert (q + 1) * n == q * n + n; }
    Quotient(y + n, n, q + 1, r);
  }

  lemma Quotient(y: nat, n: nat, q: nat, r: nat)
    requires n > 0 && y == q * n + r && r < n
    ensures y / n == q && y % n == r
  {
    var q', r' := y / n, y % n;
    assert y == q' * n + r';
    assert (q - q') * n == r' - r by { assert (q - q') * n == q * n - q' * n; }
    assert (q' - q) * n == r - r' by { assert (q' - q) * n == q' * n - q * n; }
    if q > q' {
      Scale(q - q', n);
    } else if q < q' {
      Scale(q' - q, n);
    }
  }

  lemma Scale(a: nat, n: nat)
    requires a >= 1
    ensures a * n >= n
  {
  }

  // ---------------------------------------------------------------- every bucket is reached

  /** Twice the distance between two displacements is a product with exactly one odd factor. */
  lemma QuadDistance(d: nat, e: nat)
    ensures 2 * (Quad(e) - Quad(d)) == (e - d) * (e + d + 1)
  {
    TwiceQuad(d);
    TwiceQuad(e);
    assert (e - d) * (e + d + 1) == e * (e + 1) - d * (d + 1);
  }

  lemma {:induction false} TwiceQuad(d: nat)
    ensures 2 * Quad(d) == d * (d + 1)
  {
    if d > 0 { TwiceQuad(d - 1); }
  }

  /** A power of two that divides a product with an odd factor divides the other factor. */
  lemma {:induction false} OddFactor(k: nat, a: int, b: int, m: int) returns (q: int)
    requires a % 2 == 1 && a * b == m * Pow2(k)
    ensures b == q * Pow2(k)
  {
    if k == 0 {
      q := b;
    } else {
      var c, p := b / 2, Pow2(k - 1);
      assert m * Pow2(k) == 2 * (m * p);
      assert b % 2 == 0 by { OddTimes(a, b, m * p); }
      assert a * b == 2 * (a * c) by { assert b == 2 * c; }
      q := OddFactor(k - 1, a, c, m);
      assert q * Pow2(k) == 2 * (q * p);
    }
  }

  lemma OddTimes(a: int, b: int, z: int)
    requires a % 2 == 1 && a * b == 2 * z
    ensures b % 2 == 0
  {
    var i := a / 2;
    Expand(i, b);
    assert a == 2 * i + 1;
    assert b == 2 * (z - i * b);
  }

  lemma Expand(i: int, b: int)
    ensures (2 * i + 1) * b == 2 * (i * b) + b
  {
  }

  lemma SmallMultiple(x: int, q: int, n: nat)
    requires 0 <= x < n && x == q * n
    ensures x == 0
  {
    if q >= 1 {
      Scale(q, n);
    } else if q <= -1 {
      Scale(-q, n);
      assert (-q) * n == -(q * n);
    }
  }

  /** Different displacements below the bucket count lie apart modulo the bucket count. */
  lemma Injective(k: nat, d: nat, e: nat, m: int)
    requires d <= e < Pow2(k) && Quad(e) - Quad(d) == m * Pow2(k)
    ensures d == e
  {
    var a, b, p := e - d, e + d + 1, Pow2(k + 1);
    assert a * b == m * p by {
      QuadDistance(d, e);
      Double(m, Pow2(k));
    }
    if a % 2 == 1 {
      var q := OddFactor(k + 1, a, b, m);
      SmallMultiple(b, q, p);
    } else {
      Commute(a, b);
      var q := OddFactor(k + 1, b, a, m);
      SmallMultiple(a, q, p);
    }
  }

  lemma Double(m: int, p: int)
    ensures m * (2 * p) == 2 * (m * p)
  {
  }

  lemma Commute(a: int, b: int)
    ensures a * b == b * a
  {
  }

  /** The bucket at displacement `d` from `h`. */
  function Pos(h: nat, d: nat, mask: nat): nat {
    Reduce(h + Quad(d), mask)
  }

  lemma SameRemainder(x: nat, y: nat, n: nat) returns (m: int)
    requires n > 0 && x % n == y % n
    ensures y - x == m * n
  {
    m := y / n - x / n;
    Distribute(y / n, x / n, n);
  }

  lemma Distribute(a: int, b: int, n: int)
    ensures (a - b) * n == a * n - b * n
  {
  }

  lemma PosDiffer(k: nat, h: nat, d: nat, e: nat, mask: nat)
    requires mask + 1 == Pow2(k) && d <= e <= mask && Pos(h, d, mask) == Pos(h, e, mask)
    ensures d == e
  {
    ReduceMod(h + Quad(d), mask);
    ReduceMod(h + Quad(e), mask);
    var m := SameRemainder(h + Quad(d), h + Quad(e), mask + 1);
    Injective(k, d, e, m);
  }

  function Reached(h: nat, d: nat, mask: nat): set<nat> {
    set c | 0 <= c < d :: Pos(h, c, mask)
  }

  lemma {:induction false} ReachedCount(k: nat, h: nat, d: nat, mask: nat)
    requires mask + 1 == Pow2(k) && d <= mask + 1
    ensures |Reached(h, d, mask)| == d
    ensures forall b | b in Reached(h, d, mask) :: b <= mask
  {
    if d > 0 {
      ReachedCount(k, h, d - 1, mask);
      ReduceMod(h + Quad(d - 1), mask);
      assert Reached(h, d, mask) == Reached(h, d - 1, mask) + {Pos(h, d - 1, mask)};
      forall c | 0 <= c < d && Pos(h, c, mask) == Pos(h, d - 1, mask) ensures c == d - 1 { PosDiffer(k, h, c, d - 1, mask); }
    }
  }

  lemma {:induction false} CountBelow(s: set<nat>, n: nat)
    requires forall b | b in s :: b < n
    ensures |s| <= n
    ensures |s| == n ==> forall b | 0 <= b < n :: b in s
  {
    if n > 0 {
      CountBelow(s - {n - 1}, n - 1);
      if n - 1 in s {
        assert s == s - {n - 1} + {n - 1};
      } else {
        assert s == s - {n - 1};
      }
    } else {
      assert s == {};
    }
  }

  /** Every bucket is reached from every home bucket, by exactly one displacement below the bucket count. */
  lemma ReachesAll(k: nat, h: nat, b: nat, mask: nat) returns (d: nat)
    requires mask + 1 == Pow2(k) && b <= mask
    ensures d <= mask && Pos(h, d, mask) == b
    ensures forall e: nat | e <= mask && Pos(h, e, mask) == b :: e == d
  {
    ReachedCount(k, h, mask + 1, mask);
    CountBelow(Reached(h, mask + 1, mask), mask + 1);
    assert b in Reached(h, mask + 1, mask);
    d :| 0 <= d <= mask && Pos(h, d, mask) == b;
    forall e: nat | e <= mask && Pos(h, e, mask) == b ensures e == d {
      if e <= d { PosDiffer(k, h, e, d, mask); } else { PosDiffer(k, h, d, e, mask); }
    }
  }
}
