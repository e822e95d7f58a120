/**
 Feistel ciphers: rounds that are undone by the same rounds in reverse order, whatever the round
 function is.  Words are of any type `W` with an operation that has the laws of exclusive or.
 */
module Feistel {
  type Op<!W> = (W, W) -> W

  ghost predicate XorLaws<W(!new)>(x: Op<W>) {
    && (forall a, b :: x(a, x(a, b)) == b)
    && (forall a, b :: x(x(a, b), b) == a)
    && (forall a, b, c :: x(x(x(a, b), c), b) == x(a, c))
  }

  function Xor32(a: bv32, b: bv32): bv32 {
    a ^ b
  }

  lemma Xor32Laws()
    ensures XorLaws(Xor32)
  {
  }

  type Halves<W> = (W, W)

  function Swap<W>(s: Halves<W>): Halves<W> {
    (s.1, s.0)
  }

  /** One round: the halves change places, and the left one is mixed with a function of the right one. */
  function Round<W, K>(x: Op<W>, f: (W, K) -> W, k: K, s: Halves<W>): Halves<W> {
    (s.1, x(f(s.1, k), s.0))
  }

  /** The rounds with the first `n` keys. */
  function Rounds<W, K>(x: Op<W>, f: (W, K) -> W, ks: seq<K>, n: nat, s: Halves<W>): Halves<W>
    requires n <= |ks|
  {
    if n == 0 then s else Round(x, f, ks[n - 1], Rounds(x, f, ks, n - 1, s))
  }

  function Reversed<K>(ks: seq<K>): (r: seq<K>)
    ensures |r| == |ks|
  {
    seq(|ks|, i requires 0 <= i < |ks| => ks[|ks| - 1 - i])
  }

  lemma ReversedTwice<K>(ks: seq<K>)
    ensures Reversed(Reversed(ks)) == ks
  {
  }

  /** After `j` rounds with the reversed keys, the last `j` rounds are undone. */
  lemma {:induction false} RoundsUndone<W(!new), K>(x: Op<W>, f: (W, K) -> W, ks: seq<K>, s: Halves<W>, j: nat)
    requires XorLaws(x) && j <= |ks|
    ensures Rounds(x, f, Reversed(ks), j, Swap(Rounds(x, f, ks, |ks|, s))) == Swap(Rounds(x, f, ks, |ks| - j, s))
  {
    if j > 0 {
      RoundsUndone(x, f, ks, s, j - 1);
      assert Reversed(ks)[j - 1] == ks[|ks| - j];
    }
  }

  /** Reversing the key order inverts the cipher. */
  lemma Inverse<W(!new), K>(x: Op<W>, f: (W, K) -> W, ks: seq<K>, s: Halves<W>)
    requires XorLaws(x)
    ensures Swap(Rounds(x, f, Reversed(ks), |ks|, Swap(Rounds(x, f, ks, |ks|, s)))) == s
  {
    RoundsUndone(x, f, ks, s, |ks|);
  }

  /** Words in a row, each from the two before it: word `i + 2` is word `i` mixed with a function of word `i + 1`. */
  ghost predicate Ladder<W(!new), K>(x: Op<W>, f: (W, K) -> W, ks: seq<K>, n: nat, w: seq<W>) {
    n <= |ks| && |w| == n + 2 && forall i: nat | i < n :: w[i + 2] == x(f(w[i + 1], ks[i]), w[i])
  }

  /** The rounds climb such a ladder. */
  lemma {:induction false} Climb<W(!new), K>(x: Op<W>, f: (W, K) -> W, ks: seq<K>, n: nat, s: Halves<W>) returns (w: seq<W>)
    requires n <= |ks|
    ensures Ladder(x, f, ks, n, w) && s == (w[0], w[1]) && Rounds(x, f, ks, n, s) == (w[n], w[n + 1])
  {
    if n == 0 {
      w := [s.0, s.1];
    } else {
      var v := Climb(x, f, ks, n - 1, s);
      w := v + [x(f(v[n], ks[n - 1]), v[n - 1])];
    }
  }
}
