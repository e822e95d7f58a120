/**
 The CBC and CTR modes of crypto-algorithms_learn/aes.c:391-529 over any block cipher on sixteen
 bytes.  Bytes are of any type `E` with an operation that has the laws of exclusive or.
 */
module BlockModes {
  import opened Options
  import opened Feistel

  type Cipher<!E> = seq<E> -> seq<E>

  /** `xor_buf`: the exclusive or of two buffers of the same length. */
  function XorBuf<E>(x: Op<E>, a: seq<E>, b: seq<E>): (r: seq<E>)
    requires |a| == |b|
    ensures |r| == |a|
  {
    seq(|a|, i requires 0 <= i < |a| => x(b[i], a[i]))
  }

  ghost predicate Sixteen<E(!new)>(enc: Cipher<E>) {
    forall b | |b| == 16 :: |enc(b)| == 16
  }

  ghost predicate Undoes<E(!new)>(dec: Cipher<E>, enc: Cipher<E>) {
    forall b | |b| == 16 :: dec(enc(b)) == b
  }

  // ---------------------------------------------------------------- CBC

  /** Block `i` of a text. */
  function Block<E>(s: seq<E>, i: nat): (b: seq<E>)
    requires 16 * i + 16 <= |s|
    ensures |b| == 16
  {
    s[16 * i..16 * i + 16]
  }

  /** What block `i` is mixed with: the block of ciphertext before it, or the initialisation vector. */
  function Before<E>(iv: seq<E>, c: seq<E>, i: nat): (b: seq<E>)
    requires |iv| == 16 && 16 * i <= |c|
    ensures |b| == 16
  {
    if i == 0 then iv else Block(c, i - 1)
  }

  /** Block `i` is mixed with the result before it and encrypted. */
  ghost predicate EncryptedAt<E(!new)>(x: Op<E>, enc: Cipher<E>, iv: seq<E>, m: seq<E>, c: seq<E>, i: nat)
    requires |iv| == 16 && 16 * i + 16 <= |c| && 16 * i + 16 <= |m|
  {
    Block(c, i) == enc(XorBuf(x, Before(iv, c, i), Block(m, i)))
  }

  /** The first `n` blocks of `m` are encrypted to those of `c`. */
  ghost predicate Chained<E(!new)>(x: Op<E>, enc: Cipher<E>, iv: seq<E>, m: seq<E>, c: seq<E>, n: nat) {
    |iv| == 16 && |c| == 16 * n <= |m| && forall i: nat | i < n :: EncryptedAt(x, enc, iv, m, c, i)
  }

  /** Block `i` is decrypted and mixed with the block of `c` before it. */
  ghost predicate DecryptedAt<E(!new)>(x: Op<E>, dec: Cipher<E>, iv: seq<E>, c: seq<E>, m: seq<E>, i: nat)
    requires |iv| == 16 && 16 * i + 16 <= |c| && 16 * i + 16 <= |m|
  {
    |dec(Block(c, i))| == 16 && Block(m, i) == XorBuf(x, Before(iv, c, i), dec(Block(c, i)))
  }

  /** The first `n` blocks of `c` are decrypted to those of `m`. */
  ghost predicate Unchained<E(!new)>(x: Op<E>, dec: Cipher<E>, iv: seq<E>, c: seq<E>, m: seq<E>, n: nat) {
    |iv| == 16 && |m| == 16 * n <= |c| && forall i: nat | i < n :: DecryptedAt(x, dec, iv, c, m, i)
  }

  /** One block comes back. */
  lemma BlockInverse<E(!new)>(x: Op<E>, enc: Cipher<E>, dec: Cipher<E>, v: seq<E>, b: seq<E>)
    requires XorLaws(x) && Sixteen(enc) && Sixteen(dec) && Undoes(dec, enc) && |v| == 16 && |b| == 16
    ensures XorBuf(x, v, dec(enc(XorBuf(x, v, b)))) == b
  {
    assert dec(enc(XorBuf(x, v, b))) == XorBuf(x, v, b);
  }

  lemma SameBlocks<E>(a: seq<E>, b: seq<E>, n: nat)
    requires |a| == |b| == 16 * n && forall i: nat | i < n :: Block(a, i) == Block(b, i)
    ensures a == b
  {
    forall j | 0 <= j < |a| ensures a[j] == b[j] {
      assert Block(a, j / 16)[j % 16] == a[j] && Block(b, j / 16)[j % 16] == b[j];
    }
  }

  /** Decryption undoes encryption of any number of blocks. */
  lemma CbcInverse<E(!new)>(x: Op<E>, enc: Cipher<E>, dec: Cipher<E>, iv: seq<E>, m: seq<E>, c: seq<E>, d: seq<E>, n: nat)
    requires XorLaws(x) && Sixteen(enc) && Sixteen(dec) && Undoes(dec, enc)
    requires |m| == 16 * n && Chained(x, enc, iv, m, c, n) && Unchained(x, dec, iv, c, d, n)
    ensures d == m
  {
    forall i: nat | i < n ensures Block(d, i) == Block(m, i) {
      assert EncryptedAt(x, enc, iv, m, c, i) && DecryptedAt(x, dec, iv, c, d, i);
      BlockInverse(x, enc, dec, Before(iv, c, i), Block(m, i));
    }
    SameBlocks(d, m, n);
  }

  lemma BlockAppend<E>(c: seq<E>, b: seq<E>, n: nat)
    requires |c| == 16 * n && |b| == 16
    ensures Block(c + b, n) == b && forall i: nat | i < n :: Block(c + b, i) == Block(c, i)
  {
  }

  lemma BeforeAppend<E>(iv: seq<E>, c: seq<E>, b: seq<E>, n: nat, i: nat)
    requires |iv| == 16 && |c| == 16 * n && |b| == 16 && i <= n
    ensures Before(iv, c + b, i) == Before(iv, c, i) && Before(iv, c + b, n + 1) == b
  {
    BlockAppend(c, b, n);
  }

  lemma ChainedNext<E(!new)>(x: Op<E>, enc: Cipher<E>, iv: seq<E>, m: seq<E>, c: seq<E>, n: nat, b: seq<E>)
    requires Chained(x, enc, iv, m, c, n) && 16 * n + 16 <= |m| && |b| == 16
    requires b == enc(XorBuf(x, Before(iv, c, n), Block(m, n)))
    ensures Chained(x, enc, iv, m, c + b, n + 1)
  {
    BlockAppend(c, b, n);
    forall i: nat | i <= n ensures EncryptedAt(x, enc, iv, m, c + b, i) {
      if i < n { assert EncryptedAt(x, enc, iv, m, c, i); }
      BeforeAppend(iv, c, b, n, i);
    }
  }

  lemma UnchainedNext<E(!new)>(x: Op<E>, dec: Cipher<E>, iv: seq<E>, c: seq<E>, m: seq<E>, n: nat, b: seq<E>)
    requires Sixteen(dec) && Unchained(x, dec, iv, c, m, n) && 16 * n + 16 <= |c| && |b| == 16
    requires b == XorBuf(x, Before(iv, c, n), dec(Block(c, n)))
    ensures Unchained(x, dec, iv, c, m + b, n + 1)
  {
    BlockAppend(m, b, n);
    forall i: nat | i <= n ensures DecryptedAt(x, dec, iv, c, m + b, i) {
      if i < n { assert DecryptedAt(x, dec, iv, c, m, i); }
    }
  }

  /** `aes_encrypt_cbc` */
  method EncryptCbc<E(!new)>(x: Op<E>, enc: Cipher<E>, iv: seq<E>, m: seq<E>) returns (r: Option<seq<E>>)
    requires Sixteen(enc) && |iv| == 16
    ensures r.None? <==> |m| % 16 != 0
    ensures r.Some? ==> Chained(x, enc, iv, m, r.value, |m| / 16)
  {
    if |m| % 16 != 0 { return None; }
    var out, ivBuf := [], iv;
    for idx := 0 to |m| / 16
      invariant Chained(x, enc, iv, m, out, idx) && ivBuf == Before(iv, out, idx)
    {
      var buf := XorBuf(x, ivBuf, m[16 * idx..16 * idx + 16]);
      ivBuf := enc(buf);
      ChainedNext(x, enc, iv, m, out, idx, ivBuf);
      BeforeAppend(iv, out, ivBuf, idx, idx);
      out := out + ivBuf;
    }
    r := Some(out);
  }

  /** `aes_decrypt_cbc` */
  method DecryptCbc<E(!new)>(x: Op<E>, dec: Cipher<E>, iv: seq<E>, c: seq<E>) returns (r: Option<seq<E>>)
    requires Sixteen(dec) && |iv| == 16
    ensures r.None? <==> |c| % 16 != 0
    ensures r.Some? ==> Unchained(x, dec, iv, c, r.value, |c| / 16)
  {
    if |c| % 16 != 0 { return None; }
    var out, ivBuf := [], iv;
    for idx := 0 to |c| / 16
      invariant Unchained(x, dec, iv, c, out, idx) && ivBuf == Before(iv, c, idx)
    {
      var buf := c[16 * idx..16 * idx + 16];
      var plain := XorBuf(x, ivBuf, dec(buf));
      UnchainedNext(x, dec, iv, c, out, idx, plain);
      out := out + plain;
      ivBuf := buf;
    }
    r := Some(out);
  }

  // ---------------------------------------------------------------- CTR

  /** The counter block after `n` increments. */
  function Counter<E>(inc: Cipher<E>, iv: seq<E>, n: nat): seq<E> {
    if n == 0 then iv else inc(Counter(inc, iv, n - 1))
  }

  /** Byte `i` of the key stream: the encrypted counter of its block. */
  ghost predicate Streamed<E(!new)>(x: Op<E>, enc: Cipher<E>, inc: Cipher<E>, iv: seq<E>, m: seq<E>, c: seq<E>, n: nat) {
    && |c| == |m| && n <= |m|
    && (forall i | 0 <= i < n :: |enc(Counter(inc, iv, i / 16))| == 16 && c[i] == x(m[i], enc(Counter(inc, iv, i / 16))[i % 16]))
    && (forall i | n <= i < |m| :: c[i] == m[i])
  }

  /** `aes_encrypt_ctr`: whole blocks, then the rest, which may be a whole block too. */
  method Ctr<E(!new)>(x: Op<E>, enc: Cipher<E>, inc: Cipher<E>, iv: seq<E>, m: seq<E>) returns (c: seq<E>)
    requires Sixteen(enc) && Sixteen(inc) && |iv| == 16
    ensures Streamed(x, enc, inc, iv, m, c, |m|)
  {
    c := m;
    var idx, ivBuf := 0, iv;
    if |m| > 16 {
      while idx < |m| - 16
        invariant idx % 16 == 0 && idx < |m| && ivBuf == Counter(inc, iv, idx / 16) && |ivBuf| == 16
        invariant Streamed(x, enc, inc, iv, m, c, idx)
      {
        c := XorAt(x, enc(ivBuf), m, c, idx, 16, enc, inc, iv);
        ivBuf := inc(ivBuf);
        idx := idx + 16;
      }
    }
    c := XorAt(x, enc(ivBuf), m, c, idx, |m| - idx, enc, inc, iv);
  }

  /** Mixes `n` bytes of the key stream into the buffer at `idx`. */
  method XorAt<E(!new)>(x: Op<E>, key: seq<E>, ghost m: seq<E>, c: seq<E>, idx: nat, n: nat,
                        ghost enc: Cipher<E>, ghost inc: Cipher<E>, ghost iv: seq<E>) returns (r: seq<E>)
    requires |key| == 16 && idx % 16 == 0 && n <= 16 && idx + n <= |c| && Streamed(x, enc, inc, iv, m, c, idx)
    requires key == enc(Counter(inc, iv, idx / 16))
    ensures Streamed(x, enc, inc, iv, m, r, idx + n)
  {
    r := c;
    for k := 0 to n
      invariant Streamed(x, enc, inc, iv, m, r, idx + k)
    {
      r := r[idx + k := x(r[idx + k], key[k])];
    }
  }

  /** CTR is its own inverse, on any length. */
  lemma CtrInverse<E(!new)>(x: Op<E>, enc: Cipher<E>, inc: Cipher<E>, iv: seq<E>, m: seq<E>, c: seq<E>, d: seq<E>)
    requires XorLaws(x) && Streamed(x, enc, inc, iv, m, c, |m|) && Streamed(x, enc, inc, iv, c, d, |c|)
    ensures d == m
  {
    forall i | 0 <= i < |m| ensures d[i] == m[i] {}
  }
}
