/**
 The steps of AES on a block of sixteen bytes (crypto-algorithms_learn/aes.c:826-1157, sections 5.1
 and 5.3 of FIPS 197).  Byte 4c + r of a block is row r of column c.
 */
module Aes {
  import opened AesTables
  import opened AesMix
  import opened AesRounds

  datatype Column = Column(a: bv8, b: bv8, c: bv8, d: bv8)
  datatype State = State(c0: Column, c1: Column, c2: Column, c3: Column)

  function Xor(x: Column, y: Column): Column {
    Column(x.a ^ y.a, x.b ^ y.b, x.c ^ y.c, x.d ^ y.d)
  }

  /** `AddRoundKey` */
  function AddRoundKey(s: State, k: State): State {
    State(Xor(s.c0, k.c0), Xor(s.c1, k.c1), Xor(s.c2, k.c2), Xor(s.c3, k.c3))
  }

  function Each(f: bv8 -> bv8, x: Column): Column {
    Column(f(x.a), f(x.b), f(x.c), f(x.d))
  }

  function OnEach(f: bv8 -> bv8, s: State): State {
    State(Each(f, s.c0), Each(f, s.c1), Each(f, s.c2), Each(f, s.c3))
  }

  /** `SubBytes`, `InvSubBytes` */
  function SubBytes(s: State): State {
    OnEach(Sbox, s)
  }

  function InvSubBytes(s: State): State {
    OnEach(InvSbox, s)
  }

  /** `ShiftRows`: row r moves r places to the left. */
  function ShiftRows(s: State): State {
    State(Column(s.c0.a, s.c1.b, s.c2.c, s.c3.d), Column(s.c1.a, s.c2.b, s.c3.c, s.c0.d),
          Column(s.c2.a, s.c3.b, s.c0.c, s.c1.d), Column(s.c3.a, s.c0.b, s.c1.c, s.c2.d))
  }

  /** `InvShiftRows` */
  function InvShiftRows(s: State): State {
    State(Column(s.c0.a, s.c3.b, s.c2.c, s.c1.d), Column(s.c1.a, s.c0.b, s.c3.c, s.c2.d),
          Column(s.c2.a, s.c1.b, s.c0.c, s.c3.d), Column(s.c3.a, s.c2.b, s.c1.c, s.c0.d))
  }

  /** The rows of the matrices are rotations of the first. */
  function Mix(x: Column): Column {
    Column(Mixed(x.a, x.b, x.c, x.d), Mixed(x.b, x.c, x.d, x.a), Mixed(x.c, x.d, x.a, x.b), Mixed(x.d, x.a, x.b, x.c))
  }

  function Unmix(x: Column): Column {
    Column(Unmixed(x.a, x.b, x.c, x.d), Unmixed(x.b, x.c, x.d, x.a), Unmixed(x.c, x.d, x.a, x.b), Unmixed(x.d, x.a, x.b, x.c))
  }

  /** `MixColumns`, `InvMixColumns` */
  function MixColumns(s: State): State {
    State(Mix(s.c0), Mix(s.c1), Mix(s.c2), Mix(s.c3))
  }

  function InvMixColumns(s: State): State {
    State(Unmix(s.c0), Unmix(s.c1), Unmix(s.c2), Unmix(s.c3))
  }

  // ---------------------------------------------------------------- cell by cell

  function Entry(x: Column, r: nat): bv8 {
    if r == 0 then x.a else if r == 1 then x.b else if r == 2 then x.c else x.d
  }

  /** The byte in row `r` of column `c`. */
  function Cell(s: State, r: nat, c: nat): bv8 {
    Entry(if c == 0 then s.c0 else if c == 1 then s.c1 else if c == 2 then s.c2 else s.c3, r)
  }

  /** Row `r` moves `r` places to the left; the inverse moves it to the right. */
  lemma ShiftedCell(s: State, r: nat, c: nat)
    requires r < 4 && c < 4
    ensures Cell(ShiftRows(s), r, c) == Cell(s, r, (c + r) % 4)
    ensures Cell(InvShiftRows(s), r, (c + r) % 4) == Cell(s, r, c)
  {
  }

  /** Each entry is the product of a column and a row of the matrix: twice the entry itself, three times the next one,
      and the other two. */
  lemma MixedCell(s: State, r: nat, c: nat)
    requires r < 4 && c < 4
    ensures Cell(MixColumns(s), r, c) ==
      Row(Twice(Cell(s, r, c)), Twice(Cell(s, (r + 1) % 4, c)), Cell(s, (r + 1) % 4, c), Cell(s, (r + 2) % 4, c), Cell(s, (r + 3) % 4, c))
  {
  }

  lemma OnEachCell(f: bv8 -> bv8, s: State, r: nat, c: nat)
    requires r < 4 && c < 4
    ensures Cell(OnEach(f, s), r, c) == f(Cell(s, r, c))
  {
  }

  /** Substitution works on each byte. */
  lemma SubCell(s: State, r: nat, c: nat)
    requires r < 4 && c < 4
    ensures Cell(SubBytes(s), r, c) == Sbox(Cell(s, r, c)) && Cell(InvSubBytes(s), r, c) == InvSbox(Cell(s, r, c))
  {
    OnEachCell(Sbox, s, r, c);
    OnEachCell(InvSbox, s, r, c);
  }

  /** So does the addition of a round key. */
  lemma AddCell(s: State, k: State, r: nat, c: nat)
    requires r < 4 && c < 4
    ensures Cell(AddRoundKey(s, k), r, c) == Cell(s, r, c) ^ Cell(k, r, c)
  {
  }

  // ---------------------------------------------------------------- every step has its inverse

  lemma UnmixMix(x: Column)
    ensures Unmix(Mix(x)) == x
  {
    UnmixedMixed(x.a, x.b, x.c, x.d);
    UnmixedMixed(x.b, x.c, x.d, x.a);
    UnmixedMixed(x.c, x.d, x.a, x.b);
    UnmixedMixed(x.d, x.a, x.b, x.c);
  }

  lemma UnsubSub(x: Column)
    ensures Each(InvSbox, Each(Sbox, x)) == x
  {
    SboxInverse(x.a);
    SboxInverse(x.b);
    SboxInverse(x.c);
    SboxInverse(x.d);
  }

  lemma XorTwice(x: Column, y: Column)
    ensures Xor(Xor(x, y), y) == x
  {
    ByteXorTwice(x.a, y.a);
    ByteXorTwice(x.b, y.b);
    ByteXorTwice(x.c, y.c);
    ByteXorTwice(x.d, y.d);
  }

  lemma ByteXorTwice(x: bv8, y: bv8)
    ensures (x ^ y) ^ y == x
  {
  }

  function AesSteps(): Steps<State, State> {
    Steps(SubBytes, ShiftRows, MixColumns, InvSubBytes, InvShiftRows, InvMixColumns, AddRoundKey)
  }

  lemma StepsInverse()
    ensures Inverses(AesSteps())
  {
    forall s: State ensures InvSubBytes(SubBytes(s)) == s {
      UnsubSub(s.c0);
      UnsubSub(s.c1);
      UnsubSub(s.c2);
      UnsubSub(s.c3);
    }
    forall s: State ensures InvMixColumns(MixColumns(s)) == s {
      UnmixMix(s.c0);
      UnmixMix(s.c1);
      UnmixMix(s.c2);
      UnmixMix(s.c3);
    }
    forall s: State, k: State ensures AddRoundKey(AddRoundKey(s, k), k) == s {
      XorTwice(s.c0, k.c0);
      XorTwice(s.c1, k.c1);
      XorTwice(s.c2, k.c2);
      XorTwice(s.c3, k.c3);
    }
    forall s: State ensures InvShiftRows(ShiftRows(s)) == s {}
  }

  /** Decryption undoes encryption of every block, for every round-key array and each key size argument for which
      both make the same number of rounds. */
  lemma AesInverse(key: seq<State>, keysize: int, s: State)
    requires keysize == 128 || keysize >= 192
    requires |key| > EncryptRounds(keysize)
    ensures var p := AesSteps();
      Decrypted(p, key[..DecryptRounds(keysize) + 1], Encrypted(p, key[..EncryptRounds(keysize) + 1], s)) == s
  {
    StepsInverse();
    RoundsAgree(keysize);
    DecryptEncrypt(AesSteps(), key[..EncryptRounds(keysize) + 1], s);
  }
}
