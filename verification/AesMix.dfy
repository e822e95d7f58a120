/**
 The column mixing of AES (crypto-algorithms_learn/aes.c:979-1157, section 5.1.3 of FIPS 197).
 */
module AesMix {
  import opened AesTables

  /** Multiplication by 2 in GF(2^8), column 0 of `gf_mul`.  The other columns are sums of its powers:
      3 = 2 + 1, 9 = 8 + 1, 11 = 8 + 2 + 1, 13 = 8 + 4 + 1, 14 = 8 + 4 + 2. */
  function Twice(x: bv8): bv8 {
    (x << 1) ^ ((x >> 7) * 0x1B)
  }

  /** The remainder of 2x modulo the polynomial 0x11B: no more than eight bits, and it differs from 2x by a multiple. */
  lemma TwiceReduced(x: bv8)
    ensures var y := (x as bv16) << 1; Twice(x) as bv16 == y || Twice(x) as bv16 == y ^ 0x11B
  {
  }

  /** The product in GF(2^8). */
  function Product(a: bv8, b: bv8): bv8 {
    var a1 := Twice(a);
    var a2 := Twice(a1);
    var a3 := Twice(a2);
    var a4 := Twice(a3);
    var a5 := Twice(a4);
    var a6 := Twice(a5);
    var a7 := Twice(a6);
    (a * (b & 1)) ^ (a1 * ((b >> 1) & 1)) ^ (a2 * ((b >> 2) & 1)) ^ (a3 * ((b >> 3) & 1))
    ^ (a4 * ((b >> 4) & 1)) ^ (a5 * ((b >> 5) & 1)) ^ (a6 * ((b >> 6) & 1)) ^ (a7 * ((b >> 7) & 1))
  }

  function Sum(a: bv8, b: bv8, c: bv8, d: bv8): bv8 {
    a ^ b ^ c ^ d
  }

  function Row(a: bv8, b: bv8, b': bv8, c: bv8, d: bv8): bv8 {
    a ^ (b ^ b') ^ c ^ d
  }

  function Total(a: bv8, b: bv8, c: bv8, d: bv8, e: bv8, f: bv8, g: bv8, h: bv8, i: bv8, j: bv8, k: bv8): bv8 {
    (a ^ b ^ c) ^ (d ^ e ^ f) ^ (g ^ h ^ i) ^ (j ^ k)
  }

  /** One entry of a column times the matrix with rows 2 3 1 1, and of one with rows 14 11 13 9. */
  function Mixed(a: bv8, b: bv8, c: bv8, d: bv8): bv8 {
    Row(Twice(a), Twice(b), b, c, d)
  }

  function Unmixed(a: bv8, b: bv8, c: bv8, d: bv8): bv8 {
    Total(Twice(Twice(Twice(a))), Twice(Twice(a)), Twice(a), Twice(Twice(Twice(b))), Twice(b), b,
          Twice(Twice(Twice(c))), Twice(Twice(c)), c, Twice(Twice(Twice(d))), d)
  }

  lemma TwiceXor(x: bv8, y: bv8)
    ensures Twice(x ^ y) == Twice(x) ^ Twice(y)
  {
  }

  lemma TwiceSum(a: bv8, b: bv8, c: bv8, d: bv8)
    ensures Twice(Sum(a, b, c, d)) == Sum(Twice(a), Twice(b), Twice(c), Twice(d))
  {
  }

  lemma RowSum(a: bv8, b: bv8, b': bv8, s: bv8, c: bv8, d: bv8)
    requires s == b ^ b'
    ensures Row(a, b, b', c, d) == Sum(a, s, c, d)
  {
  }

  /** Multiplication by 2 distributes over an entry of a mixed column. */
  lemma TwiceRow(a: bv8, b: bv8, b': bv8, c: bv8, d: bv8)
    ensures Twice(Row(a, b, b', c, d)) == Row(Twice(a), Twice(b), Twice(b'), Twice(c), Twice(d))
  {
    RowSum(a, b, b', b ^ b', c, d);
    TwiceXor(b, b');
    TwiceSum(a, b ^ b', c, d);
    RowSum(Twice(a), Twice(b), Twice(b'), Twice(b ^ b'), Twice(c), Twice(d));
  }

  /** In a product of the matrices everything but one operand cancels.  Operand `a1` stands for 2 a0,
      `a2` for 4 a0, and so on: the matrices are inverse already over the polynomials in 2. */
  lemma CancelBits(a0: bv8, a1: bv8, a2: bv8, a3: bv8, a4: bv8, b0: bv8, b1: bv8, b2: bv8, b3: bv8, b4: bv8,
                   c0: bv8, c1: bv8, c2: bv8, c3: bv8, c4: bv8, d0: bv8, d1: bv8, d2: bv8, d3: bv8, d4: bv8)
    ensures Total(a4 ^ (b4 ^ b3) ^ c3 ^ d3, a3 ^ (b3 ^ b2) ^ c2 ^ d2, a2 ^ (b2 ^ b1) ^ c1 ^ d1,
                  b4 ^ (c4 ^ c3) ^ d3 ^ a3, b2 ^ (c2 ^ c1) ^ d1 ^ a1, b1 ^ (c1 ^ c0) ^ d0 ^ a0,
                  c4 ^ (d4 ^ d3) ^ a3 ^ b3, c3 ^ (d3 ^ d2) ^ a2 ^ b2, c1 ^ (d1 ^ d0) ^ a0 ^ b0,
                  d4 ^ (a4 ^ a3) ^ b3 ^ c3, d1 ^ (a1 ^ a0) ^ b0 ^ c0) == a0
  {
  }

  lemma Cancel(a0: bv8, a1: bv8, a2: bv8, a3: bv8, a4: bv8, b0: bv8, b1: bv8, b2: bv8, b3: bv8, b4: bv8,
               c0: bv8, c1: bv8, c2: bv8, c3: bv8, c4: bv8, d0: bv8, d1: bv8, d2: bv8, d3: bv8, d4: bv8)
    ensures Total(Row(a4, b4, b3, c3, d3), Row(a3, b3, b2, c2, d2), Row(a2, b2, b1, c1, d1),
                  Row(b4, c4, c3, d3, a3), Row(b2, c2, c1, d1, a1), Row(b1, c1, c0, d0, a0),
                  Row(c4, d4, d3, a3, b3), Row(c3, d3, d2, a2, b2), Row(c1, d1, d0, a0, b0),
                  Row(d4, a4, a3, b3, c3), Row(d1, a1, a0, b0, c0)) == a0
  {
    CancelBits(a0, a1, a2, a3, a4, b0, b1, b2, b3, b4, c0, c1, c2, c3, c4, d0, d1, d2, d3, d4);
  }

  /** The powers of 2 times an entry of a mixed column. */
  lemma MixedPowers(a0: bv8, a1: bv8, a2: bv8, a3: bv8, b0: bv8, b1: bv8, b2: bv8, b3: bv8,
                    c0: bv8, c1: bv8, c2: bv8, c3: bv8, d0: bv8, d1: bv8, d2: bv8, d3: bv8)
    requires a1 == Twice(a0) && a2 == Twice(a1) && a3 == Twice(a2) && b1 == Twice(b0) && b2 == Twice(b1) && b3 == Twice(b2)
    requires c1 == Twice(c0) && c2 == Twice(c1) && c3 == Twice(c2) && d1 == Twice(d0) && d2 == Twice(d1) && d3 == Twice(d2)
    ensures var m := Mixed(a0, b0, c0, d0);
      && m == Row(a1, b1, b0, c0, d0) && Twice(m) == Row(a2, b2, b1, c1, d1)
      && Twice(Twice(m)) == Row(a3, b3, b2, c2, d2) && Twice(Twice(Twice(m))) == Row(Twice(a3), Twice(b3), b3, c3, d3)
  {
    TwiceRow(a1, b1, b0, c0, d0);
    TwiceRow(a2, b2, b1, c1, d1);
    TwiceRow(a3, b3, b2, c2, d2);
  }

  /** Mixing is undone in each entry; the rows of the matrices are rotations of the first. */
  lemma UnmixedMixed(a: bv8, b: bv8, c: bv8, d: bv8)
    ensures Unmixed(Mixed(a, b, c, d), Mixed(b, c, d, a), Mixed(c, d, a, b), Mixed(d, a, b, c)) == a
  {
    var a1, b1, c1, d1 := Twice(a), Twice(b), Twice(c), Twice(d);
    var a2, b2, c2, d2 := Twice(a1), Twice(b1), Twice(c1), Twice(d1);
    var a3, b3, c3, d3 := Twice(a2), Twice(b2), Twice(c2), Twice(d2);
    MixedPowers(a, a1, a2, a3, b, b1, b2, b3, c, c1, c2, c3, d, d1, d2, d3);
    MixedPowers(b, b1, b2, b3, c, c1, c2, c3, d, d1, d2, d3, a, a1, a2, a3);
    MixedPowers(c, c1, c2, c3, d, d1, d2, d3, a, a1, a2, a3, b, b1, b2, b3);
    MixedPowers(d, d1, d2, d3, a, a1, a2, a3, b, b1, b2, b3, c, c1, c2, c3);
    Cancel(a, a1, a2, a3, Twice(a3), b, b1, b2, b3, Twice(b3), c, c1, c2, c3, Twice(c3), d, d1, d2, d3, Twice(d3));
  }

  // ---------------------------------------------------------------- what the S-box is

  function RotateLeft(x: bv8, n: bv8): bv8
    requires 0 < n < 8
  {
    (x << n) | (x >> (8 - n))
  }

  /** The affine transformation of section 5.1.1 of FIPS 197. */
  function Affine(x: bv8): bv8 {
    x ^ RotateLeft(x, 1) ^ RotateLeft(x, 2) ^ RotateLeft(x, 3) ^ RotateLeft(x, 4) ^ 0x63
  }

  function Unaffine(x: bv8): bv8 {
    RotateLeft(x, 1) ^ RotateLeft(x, 3) ^ RotateLeft(x, 6) ^ 0x05
  }

  lemma AffineBack(x: bv8)
    ensures Affine(Unaffine(x)) == x
  {
  }

  /** The S-box transforms the inverse in GF(2^8); zero stands for its own inverse. */
  lemma SboxMeans(x: bv8) returns (z: bv8)
    ensures Sbox(x) == Affine(z) && (if x == 0 then z == 0 else Product(x, z) == 1)
  {
    z := Unaffine(Sbox(x));
    AffineBack(Sbox(x));
    SboxProduct(x, z);
  }

  lemma SboxProduct(x: bv8, z: bv8)
    requires z == Unaffine(Sbox(x))
    ensures if x == 0 then z == 0 else Product(x, z) == 1
  {
  }
}
