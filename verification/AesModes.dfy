/**
 AES in CBC and CTR mode.  In CBC mode decryption undoes encryption of any number of whole blocks, for every
 round-key array and each key size (crypto-algorithms_learn/aes.c:403-475, 1163-1386).  In CTR mode encrypting
 twice gives any message back, and no counter block is used twice (crypto-algorithms_learn/aes.c:483-529).
 */
module AesModes {
  import opened AesRounds
  import opened Aes
  import opened Feistel
  import opened BlockModes
  import opened CounterBlock
  import opened Word

  /** Sixteen bytes fill the state column by column. */
  function ToState(b: seq<bv8>): State
    requires |b| == 16
  {
    State(Column(b[0], b[1], b[2], b[3]), Column(b[4], b[5], b[6], b[7]),
          Column(b[8], b[9], b[10], b[11]), Column(b[12], b[13], b[14], b[15]))
  }

  function FromState(s: State): seq<bv8> {
    [s.c0.a, s.c0.b, s.c0.c, s.c0.d, s.c1.a, s.c1.b, s.c1.c, s.c1.d,
     s.c2.a, s.c2.b, s.c2.c, s.c2.d, s.c3.a, s.c3.b, s.c3.c, s.c3.d]
  }

  /** Byte 4c + r is row r of column c. */
  lemma StateCell(b: seq<bv8>, s: State, r: nat, c: nat)
    requires |b| == 16 && r < 4 && c < 4
    ensures Cell(ToState(b), r, c) == b[4 * c + r] && FromState(s)[4 * c + r] == Cell(s, r, c)
  {
    ToStateCell(b, r, c);
    if c == 0 {} else if c == 1 {} else if c == 2 {} else {}
  }

  lemma ToStateCell(b: seq<bv8>, r: nat, c: nat)
    requires |b| == 16 && r < 4 && c < 4
    ensures Cell(ToState(b), r, c) == b[4 * c + r]
  {
    if c == 0 {} else if c == 1 {} else if c == 2 {} else {}
  }

  lemma StateBytes(b: seq<bv8>, s: State)
    ensures |b| == 16 ==> FromState(ToState(b)) == b
    ensures ToState(FromState(s)) == s
  {
  }

  /** A function on states, as a function on blocks of bytes. */
  function OnBytes(f: State -> State, b: seq<bv8>): seq<bv8> {
    if |b| == 16 then FromState(f(ToState(b))) else b
  }

  function Xor8(a: bv8, b: bv8): bv8 {
    a ^ b
  }

  lemma Xor8Laws()
    ensures XorLaws(Xor8)
  {
  }

  function Lift(f: State -> State): Cipher<bv8> {
    b => OnBytes(f, b)
  }

  lemma LiftUndone(enc: State -> State, dec: State -> State)
    requires forall s :: dec(enc(s)) == s
    ensures Sixteen(Lift(enc)) && Sixteen(Lift(dec)) && Undoes(Lift(dec), Lift(enc))
  {
    forall b: seq<bv8> | |b| == 16 ensures OnBytes(dec, OnBytes(enc, b)) == b {
      StateBytes(b, enc(ToState(b)));
    }
  }

  function EncryptBlock(key: seq<State>, keysize: int): State -> State
    requires |key| > EncryptRounds(keysize)
  {
    s => Encrypted(AesSteps(), key[..EncryptRounds(keysize) + 1], s)
  }

  function DecryptBlock(key: seq<State>, keysize: int): State -> State
    requires |key| > DecryptRounds(keysize)
  {
    s => Decrypted(AesSteps(), key[..DecryptRounds(keysize) + 1], s)
  }

  lemma CipherUndone(key: seq<State>, keysize: int)
    requires (keysize == 128 || keysize >= 192) && |key| > EncryptRounds(keysize)
    ensures var e, d := Lift(EncryptBlock(key, keysize)), Lift(DecryptBlock(key, keysize));
      Sixteen(e) && Sixteen(d) && Undoes(d, e)
  {
    var enc, dec := EncryptBlock(key, keysize), DecryptBlock(key, keysize);
    forall s: State ensures dec(enc(s)) == s { AesInverse(key, keysize, s); }
    LiftUndone(enc, dec);
  }

  lemma CbcUndone(e: Cipher<bv8>, f: Cipher<bv8>, iv: seq<bv8>, m: seq<bv8>, c: seq<bv8>, d: seq<bv8>, n: nat)
    requires Sixteen(e) && Sixteen(f) && Undoes(f, e) && |m| == 16 * n
    requires Chained(Xor8, e, iv, m, c, n) && Unchained(Xor8, f, iv, c, d, n)
    ensures d == m
  {
    Xor8Laws();
    CbcInverse(Xor8, e, f, iv, m, c, d, n);
  }

  /** What AES encrypts in CBC mode it decrypts to the same message. */
  lemma AesCbcInverse(key: seq<State>, keysize: int, enc: Cipher<bv8>, dec: Cipher<bv8>,
                      iv: seq<bv8>, m: seq<bv8>, c: seq<bv8>, d: seq<bv8>, n: nat)
    requires (keysize == 128 || keysize >= 192) && |key| > EncryptRounds(keysize) && |m| == 16 * n
    requires enc == Lift(EncryptBlock(key, keysize)) && dec == Lift(DecryptBlock(key, keysize))
    requires Chained(Xor8, enc, iv, m, c, n) && Unchained(Xor8, dec, iv, c, d, n)
    ensures d == m
  {
    CipherUndone(key, keysize);
    CbcUndone(enc, dec, iv, m, c, d, n);
  }

  // ---------------------------------------------------------------- CTR

  lemma Successor(b: bv8)
    requires b < 255
    ensures (b + 1) as int == b as int + 1
  {
  }

  lemma {:induction false} BitsOf(x: byte) returns (b: bv8)
    ensures b as int == x
  {
    if x == 0 { return 0; }
    b := BitsOf(x - 1);
    assert b != 255;
    Successor(b);
    b := b + 1;
  }

  lemma ByteBack(x: byte)
    ensures (x as bv8) as int == x
  {
    var b := BitsOf(x);
    assert (b as int) as bv8 == b;
  }

  function ToBits(s: seq<byte>): seq<bv8> {
    seq(|s|, i requires 0 <= i < |s| => s[i] as bv8)
  }

  function FromBits(b: seq<bv8>): seq<byte> {
    seq(|b|, i requires 0 <= i < |b| => b[i] as int)
  }

  lemma BitsBack(s: seq<byte>)
    ensures FromBits(ToBits(s)) == s
  {
    forall i | 0 <= i < |s| ensures FromBits(ToBits(s))[i] == s[i] { ByteBack(s[i]); }
  }

  /** `increment_iv` on a whole block. */
  function NextBlock(b: seq<bv8>): seq<bv8> {
    ToBits(Incremented(FromBits(b)))
  }

  /** The counter blocks are those of the numbers. */
  lemma {:induction false} CounterBits(iv: seq<bv8>, n: nat)
    ensures FromBits(Counter(NextBlock, iv, n)) == Counter(Incremented, FromBits(iv), n)
  {
    if n > 0 {
      CounterBits(iv, n - 1);
      BitsBack(Incremented(FromBits(Counter(NextBlock, iv, n - 1))));
    }
  }

  /** Every block of a message is mixed with the encryption of a counter block of its own, up to 2^128 blocks. */
  lemma AesCountersDiffer(iv: seq<bv8>, i: nat, j: nat)
    requires |iv| == 16 && i < j < Pow256(16)
    ensures Counter(NextBlock, iv, i) != Counter(NextBlock, iv, j)
  {
    CounterBits(iv, i);
    CounterBits(iv, j);
    CountersDiffer(FromBits(iv), i, j);
  }

  /** Encrypting twice gives the message back, whatever its length. */
  lemma AesCtrInverse(key: seq<State>, keysize: int, iv: seq<bv8>, m: seq<bv8>, c: seq<bv8>, d: seq<bv8>)
    requires |key| > EncryptRounds(keysize) && var e := Lift(EncryptBlock(key, keysize));
      Streamed(Xor8, e, NextBlock, iv, m, c, |m|) && Streamed(Xor8, e, NextBlock, iv, c, d, |c|)
    ensures d == m
  {
    Xor8Laws();
    CtrInverse(Xor8, Lift(EncryptBlock(key, keysize)), NextBlock, iv, m, c, d);
  }
}
