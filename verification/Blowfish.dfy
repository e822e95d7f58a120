/**
 Blowfish of crypto-algorithms_learn/blowfish.c: decryption undoes encryption, for every P-array and
 every mixing function F, that is, all contents of the S-boxes.
 */
module Blowfish {
  import opened Feistel

  /** `ITERATION` */
  function Iterate<W>(x: Op<W>, f: W -> W, p: W, s: Halves<W>): Halves<W> {
    (x(s.1, f(x(s.0, p))), x(s.0, p))
  }

  /** The iterations with the first `n` entries of the array. */
  function Iterations<W>(x: Op<W>, f: W -> W, ps: seq<W>, n: nat, s: Halves<W>): Halves<W>
    requires n <= |ps|
  {
    if n == 0 then s else Iterate(x, f, ps[n - 1], Iterations(x, f, ps, n - 1, s))
  }

  /** All but two entries are used by the iterations; those two whiten the result. */
  function Crypted<W>(x: Op<W>, f: W -> W, ps: seq<W>, s: Halves<W>): Halves<W>
    requires |ps| >= 2
  {
    var n := |ps| - 2;
    var y := Iterations(x, f, ps, n, s);
    (x(y.1, ps[n + 1]), x(y.0, ps[n]))
  }

  /** One iteration of decryption steps back over one iteration of encryption. */
  lemma StepBack<W(!new)>(x: Op<W>, f: W -> W, s: Halves<W>, p: W, q: W, r: W)
    requires XorLaws(x)
    ensures var y := Iterate(x, f, p, s); Iterate(x, f, r, (x(y.1, r), x(y.0, q))) == (x(s.1, q), x(s.0, p))
  {
  }

  /** After `j` iterations of decryption, the last `j` of encryption are undone. */
  lemma {:induction false} Undone<W(!new)>(x: Op<W>, f: W -> W, ps: seq<W>, s: Halves<W>, j: nat)
    requires XorLaws(x) && |ps| >= 2 && j <= |ps| - 2
    ensures var i := |ps| - 2 - j; var y := Iterations(x, f, ps, i, s);
      Iterations(x, f, Reversed(ps), j, Crypted(x, f, ps, s)) == (x(y.1, ps[i + 1]), x(y.0, ps[i]))
  {
    if j > 0 {
      Undone(x, f, ps, s, j - 1);
      var i := |ps| - 2 - j;
      assert Reversed(ps)[j - 1] == ps[i + 2];
      assert Iterations(x, f, ps, i + 1, s) == Iterate(x, f, ps[i], Iterations(x, f, ps, i, s));
      StepBack(x, f, Iterations(x, f, ps, i, s), ps[i], ps[i + 1], ps[i + 2]);
    }
  }

  /** Crypting with the reversed array inverts crypting. */
  lemma CryptInverse<W(!new)>(x: Op<W>, f: W -> W, ps: seq<W>, s: Halves<W>)
    requires XorLaws(x) && |ps| >= 2
    ensures Crypted(x, f, Reversed(ps), Crypted(x, f, ps, s)) == s
  {
    Undone(x, f, ps, s, |ps| - 2);
    assert Reversed(ps)[|ps| - 2] == ps[1] && Reversed(ps)[|ps| - 1] == ps[0];
  }

  /** The halves before each iteration: one is mixed with an entry of the array, the other with F of that, and they
      change places. */
  ghost predicate Trace<W(!new)>(x: Op<W>, f: W -> W, ps: seq<W>, n: nat, l: seq<W>, r: seq<W>) {
    && n <= |ps| && |l| == n + 1 && |r| == n + 1
    && forall i: nat | i < n :: r[i + 1] == x(l[i], ps[i]) && l[i + 1] == x(r[i], f(r[i + 1]))
  }

  lemma {:induction false} Traced<W(!new)>(x: Op<W>, f: W -> W, ps: seq<W>, n: nat, s: Halves<W>) returns (l: seq<W>, r: seq<W>)
    requires n <= |ps|
    ensures Trace(x, f, ps, n, l, r) && (l[0], r[0]) == s && Iterations(x, f, ps, n, s) == (l[n], r[n])
  {
    if n == 0 {
      l, r := [s.0], [s.1];
    } else {
      l, r := Traced(x, f, ps, n - 1, s);
      var y := Iterations(x, f, ps, n, s);
      l, r := l + [y.0], r + [y.1];
    }
  }

  /** Sixteen iterations; the last two entries of the array whiten the halves, which change places once more. */
  lemma CryptTraced<W(!new)>(x: Op<W>, f: W -> W, ps: seq<W>, s: Halves<W>) returns (l: seq<W>, r: seq<W>)
    requires |ps| == 18
    ensures Trace(x, f, ps, 16, l, r) && (l[0], r[0]) == s && Crypted(x, f, ps, s) == (x(r[16], ps[17]), x(l[16], ps[16]))
  {
    l, r := Traced(x, f, ps, 16, s);
  }

  /** `blowfish_encrypt` on the two halves of a block. */
  method Encrypt<W>(x: Op<W>, f: W -> W, p: seq<W>, l0: W, r0: W) returns (l: W, r: W)
    requires |p| == 18
    ensures (l, r) == Crypted(x, f, p, (l0, r0))
  {
    l, r := l0, r0;
    for i := 0 to 15
      invariant (l, r) == Iterations(x, f, p, i, (l0, r0))
    {
      l := x(l, p[i]);
      r := x(r, f(l));
      l, r := r, l;
    }
    l := x(l, p[15]);
    r := x(r, f(l));
    r := x(r, p[16]);
    l := x(l, p[17]);
  }

  /** `blowfish_decrypt`: the array is used from the back. */
  method Decrypt<W>(x: Op<W>, f: W -> W, p: seq<W>, l0: W, r0: W) returns (l: W, r: W)
    requires |p| == 18
    ensures (l, r) == Crypted(x, f, Reversed(p), (l0, r0))
  {
    l, r := l0, r0;
    for i := 0 to 15
      invariant (l, r) == Iterations(x, f, Reversed(p), i, (l0, r0))
    {
      l := x(l, p[17 - i]);
      r := x(r, f(l));
      l, r := r, l;
    }
    l := x(l, p[2]);
    r := x(r, f(l));
    r := x(r, p[1]);
    l := x(l, p[0]);
  }

  // ---------------------------------------------------------------- blocks of eight bytes

  function Word(b: seq<bv8>): bv32
    requires |b| == 4
  {
    ((b[0] as bv32) << 24) | ((b[1] as bv32) << 16) | ((b[2] as bv32) << 8) | (b[3] as bv32)
  }

  function Bytes(w: bv32): seq<bv8> {
    [(w >> 24) as bv8, ((w >> 16) & 0xFF) as bv8, ((w >> 8) & 0xFF) as bv8, (w & 0xFF) as bv8]
  }

  /** The first byte is the most significant. */
  lemma WordBigEndian(b: seq<bv8>)
    requires |b| == 4
    ensures Word(b) == b[0] as bv32 * 0x100_0000 + b[1] as bv32 * 0x1_0000 + b[2] as bv32 * 0x100 + b[3] as bv32
  {
  }

  lemma BytesOfWord(b: seq<bv8>)
    requires |b| == 4
    ensures Bytes(Word(b)) == b
  {
  }

  lemma WordOfBytes(w: bv32)
    ensures Word(Bytes(w)) == w
  {
  }

  /** A block of eight bytes is encrypted word by word. */
  function Block(s: Halves<bv32>): seq<bv8> {
    Bytes(s.0) + Bytes(s.1)
  }

  function Unblock(b: seq<bv8>): Halves<bv32>
    requires |b| == 8
  {
    (Word(b[..4]), Word(b[4..]))
  }

  /** Decryption undoes encryption of every block, for every P-array and every F. */
  lemma BlowfishInverse(f: bv32 -> bv32, p: seq<bv32>, b: seq<bv8>)
    requires |p| == 18 && |b| == 8
    ensures var c := Block(Crypted(Xor32, f, p, Unblock(b))); Block(Crypted(Xor32, f, Reversed(p), Unblock(c))) == b
  {
    var e := Crypted(Xor32, f, p, Unblock(b));
    UnblockBlock(e);
    Xor32Laws();
    CryptInverse(Xor32, f, p, Unblock(b));
    BlockUnblock(b);
  }

  lemma UnblockBlock(s: Halves<bv32>)
    ensures Unblock(Block(s)) == s
  {
    WordOfBytes(s.0);
    WordOfBytes(s.1);
    assert Block(s)[..4] == Bytes(s.0) && Block(s)[4..] == Bytes(s.1);
  }

  lemma BlockUnblock(b: seq<bv8>)
    requires |b| == 8
    ensures Block(Unblock(b)) == b
  {
    BytesOfWord(b[..4]);
    BytesOfWord(b[4..]);
  }
}
