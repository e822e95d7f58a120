/**
 The streaming context of crypto-algorithms_learn/sha256.c: any way of splitting a message into
 updates gives the hash of the whole padded message (section 5.1.1 of FIPS 180-2).  The compression
 of one block, `sha256_transform`, is any function on the eight state words.
 */
module Sha256 {
  import opened Word

  type Words = seq<u32>
  type Compress = (Words, seq<byte>) -> Words

  const M64: nat := 0x1_0000_0000_0000_0000

  // ---------------------------------------------------------------- the hash of a whole message

  /** Folds the compression over the 64-byte blocks of `m`. */
  ghost function Absorb(f: Compress, s: Words, m: seq<byte>): Words
    decreases |m|
  {
    if |m| < 64 then s else Absorb(f, f(s, m[..64]), m[64..])
  }

  function Zeros(n: nat): seq<byte> {
    seq(n, _ => 0)
  }

  /** A 64-bit number, most significant byte first. */
  function BigEndian64(x: nat): seq<byte> {
    [(x / 0x100_0000_0000_0000) % 256, (x / 0x1_0000_0000_0000) % 256, (x / 0x100_0000_0000) % 256, (x / 0x1_0000_0000) % 256,
     (x / 0x100_0000) % 256, (x / 0x1_0000) % 256, (x / 0x100) % 256, x % 256]
  }

  lemma BigEndianNext(b: seq<byte>, x: byte)
    ensures BigEndian(b + [x]) == 256 * BigEndian(b) + x
  {
    assert (b + [x])[..|b|] == b;
  }

  /** If `b` stands for `x / 256`, then `b` and the last byte of `x` stand for `x`. */
  lemma OneMore(b: seq<byte>, x: nat)
    requires BigEndian(b) == x / 256
    ensures BigEndian(b + [x % 256]) == x
  {
    BigEndianNext(b, x % 256);
  }

  /** The eight bytes of the length stand for it. */
  lemma LengthBytes(x: nat)
    requires x < M64
    ensures BigEndian(BigEndian64(x)) == x
  {
    var x1, x2, x3 := x / 0x100, x / 0x1_0000, x / 0x100_0000;
    var x4, x5, x6, x7 := x / 0x1_0000_0000, x / 0x100_0000_0000, x / 0x1_0000_0000_0000, x / 0x100_0000_0000_0000;
    assert x7 / 256 == 0;
    OneMore([], x7);
    OneMore([] + [x7 % 256], x6);
    OneMore([] + [x7 % 256] + [x6 % 256], x5);
    OneMore([] + [x7 % 256] + [x6 % 256] + [x5 % 256], x4);
    var hi := [] + [x7 % 256] + [x6 % 256] + [x5 % 256] + [x4 % 256];
    OneMore(hi, x3);
    OneMore(hi + [x3 % 256], x2);
    OneMore(hi + [x3 % 256] + [x2 % 256], x1);
    OneMore(hi + [x3 % 256] + [x2 % 256] + [x1 % 256], x);
    assert BigEndian64(x) == hi + [x3 % 256] + [x2 % 256] + [x1 % 256] + [x % 256];
  }

  /** Section 5.1.1 of FIPS 180-2: a one bit, the fewest zero bits that leave room in the last block, and
      the length of the message in bits. */
  function Padded(m: seq<byte>): seq<byte> {
    m + [0x80] + Zeros((119 - |m| % 64) % 64) + BigEndian64((8 * |m|) % M64)
  }

  /** The message, a one bit, zeros, and its length in bits as the last eight bytes; and the whole length is the least
      multiple of the block size that leaves room for them. */
  lemma PaddedLeast(m: seq<byte>)
    ensures |Padded(m)| % 64 == 0 && |m| + 9 <= |Padded(m)| < |m| + 9 + 64
    ensures var p, n := Padded(m), |Padded(m)|;
      && p[..|m|] == m && p[|m|] == 0x80 && (forall i | |m| < i < n - 8 :: p[i] == 0)
      && BigEndian(p[n - 8..]) == (8 * |m|) % M64
  {
    ZeroCount(|m|, |m| / 64, |m| % 64);
    var zeros, len := Zeros((119 - |m| % 64) % 64), BigEndian64((8 * |m|) % M64);
    assert |Padded(m)| == |m| + 9 + |zeros|;
    assert Padded(m)[|Padded(m)| - 8..] == len;
    LengthBytes((8 * |m|) % M64);
  }

  lemma ZeroCount(n: nat, q: nat, r: nat)
    requires n == 64 * q + r && r < 64
    ensures (n + 9 + (119 - r) % 64) % 64 == 0
  {
    if r < 56 {
      assert (119 - r) % 64 == 55 - r;
      assert n + 9 + (55 - r) == 64 * (q + 1);
    } else {
      assert (119 - r) % 64 == 119 - r;
      assert n + 9 + (119 - r) == 64 * (q + 2);
    }
  }

  /** The state words, most significant byte first. */
  function Output(s: Words): seq<byte> {
    seq(4 * |s|, i requires 0 <= i < 4 * |s| => ByteOf(s[i / 4], i % 4))
  }

  function ByteOf(w: u32, i: nat): byte {
    if i == 0 then w / 0x100_0000 else if i == 1 then (w / 0x1_0000) % 256 else if i == 2 then (w / 0x100) % 256 else w % 256
  }

  /** Four bytes stand for each state word. */
  lemma OutputWords(s: Words, i: nat)
    requires i < |s|
    ensures |Output(s)| == 4 * |s| && BigEndian(Output(s)[4 * i..4 * i + 4]) == s[i]
  {
    var o := Output(s);
    assert o[4 * i..4 * i + 4] == [ByteOf(s[i], 0), ByteOf(s[i], 1), ByteOf(s[i], 2), ByteOf(s[i], 3)];
    WordBytes(s[i]);
  }

  lemma WordBytes(w: u32)
    ensures BigEndian([ByteOf(w, 0), ByteOf(w, 1), ByteOf(w, 2), ByteOf(w, 3)]) == w
  {
    var w1, w2, w3 := w / 0x100, w / 0x1_0000, w / 0x100_0000;
    OneMore([], w3);
    OneMore([] + [w3 % 256], w2);
    OneMore([] + [w3 % 256] + [w2 % 256], w1);
    OneMore([] + [w3 % 256] + [w2 % 256] + [w1 % 256], w);
    assert [w3 % 256, w2 % 256, w1 % 256, w % 256] == [] + [w3 % 256] + [w2 % 256] + [w1 % 256] + [w % 256];
  }

  /** `hash` is the words, each most significant byte first. */
  ghost predicate Digest(hash: seq<byte>, s: Words) {
    |hash| == 4 * |s| && forall i: nat | i < |s| :: BigEndian(hash[4 * i..4 * i + 4]) == s[i]
  }

  lemma OutputDigest(s: Words)
    ensures Digest(Output(s), s)
  {
    forall i: nat | i < |s| ensures BigEndian(Output(s)[4 * i..4 * i + 4]) == s[i] { OutputWords(s, i); }
  }

  ghost function Hash(f: Compress, init: Words, m: seq<byte>): seq<byte> {
    Output(Absorb(f, init, Padded(m)))
  }

  /** The states between the blocks: each is the compression of the one before it with the next block. */
  lemma {:induction false} AbsorbStates(f: Compress, s: Words, m: seq<byte>) returns (st: seq<Words>)
    requires |m| % 64 == 0
    ensures |st| == |m| / 64 + 1 && st[0] == s && Absorb(f, s, m) == st[|m| / 64]
    ensures forall i: nat | i < |m| / 64 :: st[i + 1] == f(st[i], m[64 * i..64 * i + 64])
    decreases |m|
  {
    if m == [] {
      st := [s];
    } else {
      var rest := AbsorbStates(f, f(s, m[..64]), m[64..]);
      st := [s] + rest;
      forall i: nat | i < |m| / 64 ensures st[i + 1] == f(st[i], m[64 * i..64 * i + 64]) {
        if i > 0 { assert m[64..][64 * (i - 1)..64 * (i - 1) + 64] == m[64 * i..64 * i + 64]; }
      }
    }
  }

  // ---------------------------------------------------------------- absorbing in parts

  lemma {:induction false} AbsorbAppend(f: Compress, s: Words, a: seq<byte>, b: seq<byte>)
    requires |a| % 64 == 0
    ensures Absorb(f, s, a + b) == Absorb(f, Absorb(f, s, a), b)
    decreases |a|
  {
    if a == [] {
      assert a + b == b;
    } else {
      assert (a + b)[..64] == a[..64] && (a + b)[64..] == a[64..] + b;
      AbsorbAppend(f, f(s, a[..64]), a[64..], b);
    }
  }

  lemma AbsorbBlock(f: Compress, s: Words, a: seq<byte>, b: seq<byte>)
    requires |a| % 64 == 0 && |b| == 64
    ensures Absorb(f, s, a + b) == f(Absorb(f, s, a), b)
  {
    AbsorbAppend(f, s, a, b);
    assert b[..64] == b && b[64..] == [];
  }

  lemma BlockRest(n: nat, r: nat)
    requires n % 64 == 0 && r < 64
    ensures (n + r) % 64 == r
  {
  }

  /** The last one or two blocks of the padded message. */
  lemma LastBlocks(done: seq<byte>, tail: seq<byte>, len: seq<byte>)
    requires |done| % 64 == 0 && |tail| < 64 && len == BigEndian64((8 * |done + tail|) % M64)
    ensures |tail| < 56 ==> Padded(done + tail) == done + (tail + [0x80] + Zeros(55 - |tail|) + len)
    ensures |tail| >= 56 ==> Padded(done + tail) == (done + (tail + [0x80] + Zeros(63 - |tail|))) + (Zeros(56) + len)
  {
    var r := |tail|;
    assert |done + tail| % 64 == r by { BlockRest(|done|, r); }
    if r < 56 {
      assert (119 - r) % 64 == 55 - r;
    } else {
      assert (119 - r) % 64 == 119 - r;
      assert Zeros(119 - r) == Zeros(63 - r) + Zeros(56);
    }
  }

  class Context {
    const f: Compress
    const init: Words
    const data: array<byte>
    var datalen: nat
    var bitlen: nat
    var state: Words
    /** Whole blocks already compressed, and what is in the buffer. */
    ghost var done: seq<byte>
    ghost var msg: seq<byte>

    /** The buffer holds the rest of the message; its index is below 64. */
    ghost predicate Valid()
      reads this, data
    {
      && data.Length == 64 && datalen < 64 && |done| % 64 == 0
      && msg == done + data[..datalen] && state == Absorb(f, init, done) && bitlen == (8 * |done|) % M64
    }

    /** `sha256_init` */
    constructor (f: Compress, init: Words)
      ensures Valid() && msg == [] && this.f == f && this.init == init && fresh(data)
    {
      this.f, this.init, datalen, bitlen, state := f, init, 0, 0, init;
      data := new byte[64];
      done, msg := [], [];
    }

    /** One turn of the loop of `sha256_update`. */
    method Push(b: byte)
      requires Valid()
      modifies this, data
      ensures Valid() && msg == old(msg) + [b]
    {
      data[datalen] := b;
      datalen := datalen + 1;
      msg := msg + [b];
      assert data[..datalen] == old(data[..datalen]) + [b];
      if datalen == 64 {
        assert data[..] == data[..64];
        Squeeze();
      }
    }

    /** Compresses a full buffer. */
    method Squeeze()
      requires data.Length == 64 && datalen == 64 && |done| % 64 == 0 && msg == done + data[..]
      requires state == Absorb(f, init, done) && bitlen == (8 * |done|) % M64
      modifies this
      ensures Valid() && msg == old(msg)
    {
      AbsorbBlock(f, init, done, data[..]);
      NextBlock(|done|);
      state := f(state, data[..]);
      bitlen := (bitlen + 512) % M64;
      done := done + data[..];
      datalen := 0;
      assert msg == done + data[..0];
    }

    /** `sha256_update`; the source counts with a 32-bit index. */
    method Update(bytes: seq<byte>)
      requires Valid() && |bytes| < 0x1_0000_0000
      modifies this, data
      ensures Valid() && msg == old(msg) + bytes
    {
      for i := 0 to |bytes|
        invariant Valid() && msg == old(msg) + bytes[..i]
      {
        Push(bytes[i]);
      }
    }

    /** Writes zero bytes from index `i` up to `j`. */
    method Fill(i: nat, j: nat)
      requires data.Length == 64 && i <= j <= 64
      modifies data
      ensures data[i..j] == Zeros(j - i) && data[..i] == old(data[..i]) && data[j..] == old(data[j..])
    {
      for k := i to j
        invariant data[i..k] == Zeros(k - i) && data[..i] == old(data[..i]) && data[j..] == old(data[j..])
      {
        data[k] := 0;
        assert data[i..k + 1] == data[i..k] + [0];
      }
    }

    /** Writes the length into the last eight bytes. */
    method PutLength()
      requires data.Length == 64 && bitlen < M64
      modifies data
      ensures data[..56] == old(data[..56]) && BigEndian(data[56..]) == bitlen
      ensures data[..] == old(data[..56]) + BigEndian64(bitlen)
    {
      data[63] := bitlen % 256;
      data[62] := (bitlen / 0x100) % 256;
      data[61] := (bitlen / 0x1_0000) % 256;
      data[60] := (bitlen / 0x100_0000) % 256;
      data[59] := (bitlen / 0x1_0000_0000) % 256;
      data[58] := (bitlen / 0x100_0000_0000) % 256;
      data[57] := (bitlen / 0x1_0000_0000_0000) % 256;
      data[56] := (bitlen / 0x100_0000_0000_0000) % 256;
      LengthBytes(bitlen);
      assert data[56..] == BigEndian64(bitlen);
    }

    /** The message fits into the last block with its padding. */
    method PadShort()
      requires Valid() && datalen < 56
      modifies data
      ensures data[..56] == old(data[..datalen]) + [0x80] + Zeros(55 - datalen)
    {
      ghost var tail := data[..datalen];
      data[datalen] := 0x80;
      assert data[..datalen + 1] == tail + [0x80];
      Fill(datalen + 1, 56);
      assert data[..56] == data[..datalen + 1] + data[datalen + 1..56];
    }

    /** It does not: one more block is compressed. */
    method PadLong()
      requires Valid() && datalen >= 56
      modifies data, this`state
      ensures data[..56] == Zeros(56)
      ensures state == f(old(state), old(data[..datalen]) + [0x80] + Zeros(63 - datalen))
    {
      ghost var tail := data[..datalen];
      data[datalen] := 0x80;
      assert data[..datalen + 1] == tail + [0x80];
      Fill(datalen + 1, 64);
      assert data[..] == data[..datalen + 1] + data[datalen + 1..64];
      state := f(state, data[..]);
      Fill(0, 56);
      assert data[..56] == data[0..56];
    }

    /** Pads the buffer up to the place of the length `len`. */
    method Pad(ghost len: seq<byte>, ghost whole: seq<byte>) returns (ghost blocks: seq<byte>)
      requires Valid()
      requires datalen < 56 ==> whole == done + (data[..datalen] + [0x80] + Zeros(55 - datalen) + len)
      requires datalen >= 56 ==> whole == (done + (data[..datalen] + [0x80] + Zeros(63 - datalen))) + (Zeros(56) + len)
      modifies data, this`state
      ensures |blocks| % 64 == 0 && state == Absorb(f, init, blocks) && whole == blocks + (data[..56] + len)
    {
      blocks := done;
      if datalen < 56 {
        PadShort();
      } else {
        ghost var block := data[..datalen] + [0x80] + Zeros(63 - datalen);
        AbsorbBlock(f, init, done, block);
        PadLong();
        blocks := done + block;
      }
    }

    /** Adds the bits in the buffer to the length and writes it. */
    method Close(ghost blocks: nat)
      requires data.Length == 64 && bitlen == (8 * blocks) % M64
      modifies data, this`bitlen
      ensures data[..] == old(data[..56]) + BigEndian64((8 * (blocks + datalen)) % M64)
    {
      AddMod(8 * blocks, 8 * datalen);
      bitlen := (bitlen + datalen * 8) % M64;
      PutLength();
    }

    /** `sha256_final` */
    method Final() returns (hash: seq<byte>)
      requires Valid()
      modifies this, data
      ensures hash == Hash(f, init, old(msg)) && Digest(hash, Absorb(f, init, Padded(old(msg))))
    {
      ghost var len := BigEndian64((8 * |msg|) % M64);
      LastBlocks(done, data[..datalen], len);
      ghost var blocks := Pad(len, Padded(msg));
      Close(|done|);
      AbsorbBlock(f, init, blocks, data[..]);
      state := f(state, data[..]);
      hash := Output(state);
      OutputDigest(state);
    }
  }

  lemma NextBlock(n: nat)
    requires n % 64 == 0
    ensures (n + 64) % 64 == 0 && ((8 * n) % M64 + 512) % M64 == (8 * (n + 64)) % M64
  {
    AddMod(8 * n, 512);
  }

  lemma AddMod(x: nat, y: nat)
    ensures (x % M64 + y) % M64 == (x + y) % M64
  {
  }
}
