/**
 DES and triple DES of crypto-algorithms_learn/des.c: crypting with the decryption schedule undoes
 crypting with the encryption schedule (FIPS 46-3).  The round function and the generation of the
 subkeys from the key halves are arbitrary.
 */
module Des {
  import opened DesPermutation
  import opened Feistel

  type Block = b: seq<bv8> | |b| == 8 witness [0, 0, 0, 0, 0, 0, 0, 0]

  /** `IP` */
  function Permute(b: Block): Halves<bv32> {
    (Ip0(b[0], b[1], b[2], b[3], b[4], b[5], b[6], b[7]), Ip1(b[0], b[1], b[2], b[3], b[4], b[5], b[6], b[7]))
  }

  /** `InvIP` */
  function Unpermute(s: Halves<bv32>): Block {
    [Inv0(s.0, s.1), Inv1(s.0, s.1), Inv2(s.0, s.1), Inv3(s.0, s.1),
     Inv4(s.0, s.1), Inv5(s.0, s.1), Inv6(s.0, s.1), Inv7(s.0, s.1)]
  }

  lemma PermuteInverse(b: Block, s: Halves<bv32>)
    ensures Unpermute(Permute(b)) == b
    ensures Permute(Unpermute(s)) == s
  {
    InvIpAfterIp(b[0], b[1], b[2], b[3], b[4], b[5], b[6], b[7]);
    Ip0AfterInvIp(s.0, s.1);
    Ip1AfterInvIp(s.0, s.1);
  }

  /** What crypting computes, with any permutation pair. */
  function Crypted<B, W, K>(x: Op<W>, ip: B -> Halves<W>, inv: Halves<W> -> B, f: (W, K) -> W, ks: seq<K>, b: B): B {
    inv(Swap(Rounds(x, f, ks, |ks|, ip(b))))
  }

  /** Fifteen rounds, and a last one that does not switch sides. */
  method CryptWith<B, W, K>(x: Op<W>, ip: B -> Halves<W>, inv: Halves<W> -> B, f: (W, K) -> W, schedule: seq<K>, input: B)
    returns (output: B)
    requires |schedule| == 16
    ensures output == Crypted(x, ip, inv, f, schedule, input)
  {
    var s := ip(input);
    var left, right := s.0, s.1;
    for idx := 0 to 15
      invariant (left, right) == Rounds(x, f, schedule, idx, s)
    {
      left, right := right, x(f(right, schedule[idx]), left);
    }
    left := x(f(right, schedule[15]), left);
    output := inv((left, right));
  }

  /** The DES permutations. */
  function DesCrypted<K>(f: (bv32, K) -> bv32, ks: seq<K>, b: Block): Block {
    Crypted(Xor32, Permute, Unpermute, f, ks, b)
  }

  /** `des_crypt` */
  method Crypt<K>(f: (bv32, K) -> bv32, schedule: seq<K>, input: Block) returns (output: Block)
    requires |schedule| == 16
    ensures output == DesCrypted(f, schedule, input)
  {
    output := CryptWith(Xor32, Permute, Unpermute, f, schedule, input);
  }

  /** Sixteen steps of a ladder between the permutations; the last two words change places. */
  lemma CryptClimbs<K>(f: (bv32, K) -> bv32, ks: seq<K>, b: Block) returns (w: seq<bv32>)
    requires |ks| == 16
    ensures Ladder(Xor32, f, ks, 16, w) && Permute(b) == (w[0], w[1]) && DesCrypted(f, ks, b) == Unpermute((w[17], w[16]))
  {
    w := Climb(Xor32, f, ks, 16, Permute(b));
  }

  datatype Mode = Encrypt | Decrypt

  /** The subkeys in encryption order: the key halves are rotated before each is extracted. */
  function Subkeys<H, K>(rotate: (H, nat) -> H, extract: H -> K, h: H, i: nat): seq<K>
    requires i <= 16
    decreases 16 - i
  {
    if i == 16 then [] else [extract(rotate(h, i))] + Subkeys(rotate, extract, rotate(h, i), i + 1)
  }

  lemma {:induction false} SubkeysCount<H, K>(rotate: (H, nat) -> H, extract: H -> K, h: H, i: nat)
    requires i <= 16
    ensures |Subkeys(rotate, extract, h, i)| == 16 - i
    decreases 16 - i
  {
    if i < 16 { SubkeysCount(rotate, extract, rotate(h, i), i + 1); }
  }

  /** Subkey `i` is extracted from the halves after `i + 1` rotations, one after another. */
  ghost predicate Rotated<H(!new), K>(rotate: (H, nat) -> H, extract: H -> K, h: H, ks: seq<K>, hs: seq<H>) {
    && |ks| == 16 && |hs| == 17 && hs[0] == h
    && forall i: nat | i < 16 :: hs[i + 1] == rotate(hs[i], i) && ks[i] == extract(hs[i + 1])
  }

  lemma {:induction false} SubkeysFrom<H(!new), K>(rotate: (H, nat) -> H, extract: H -> K, h: H, i: nat) returns (hs: seq<H>)
    requires i <= 16
    ensures |hs| == 17 - i && hs[0] == h && |Subkeys(rotate, extract, h, i)| == 16 - i
    ensures forall j: nat | j < 16 - i :: hs[j + 1] == rotate(hs[j], i + j)
    ensures forall j: nat | j < 16 - i :: Subkeys(rotate, extract, h, i)[j] == extract(hs[j + 1])
    decreases 16 - i
  {
    if i == 16 {
      hs := [h];
    } else {
      var rest := SubkeysFrom(rotate, extract, rotate(h, i), i + 1);
      hs := [h] + rest;
      forall j: nat | j < 16 - i
        ensures hs[j + 1] == rotate(hs[j], i + j) && Subkeys(rotate, extract, h, i)[j] == extract(hs[j + 1])
      {
        if j > 0 { assert rest[j - 1 + 1] == rotate(rest[j - 1], i + 1 + (j - 1)); }
      }
    }
  }

  lemma SubkeysRotated<H(!new), K>(rotate: (H, nat) -> H, extract: H -> K, h: H) returns (hs: seq<H>)
    ensures Rotated(rotate, extract, h, Subkeys(rotate, extract, h, 0), hs)
  {
    hs := SubkeysFrom(rotate, extract, h, 0);
  }

  /** The schedule for one mode. */
  function Schedule<H, K>(rotate: (H, nat) -> H, extract: H -> K, h: H, mode: Mode): seq<K> {
    if mode == Encrypt then Subkeys(rotate, extract, h, 0) else Reversed(Subkeys(rotate, extract, h, 0))
  }

  /** `des_key_setup`: generates the subkeys in order and stores them from the front or from the back. */
  method KeySetup<H, K>(rotate: (H, nat) -> H, extract: H -> K, halves: H, mode: Mode, schedule: array<K>)
    requires schedule.Length == 16
    modifies schedule
    ensures schedule[..] == Schedule(rotate, extract, halves, mode)
  {
    var h := halves;
    ghost var all := Subkeys(rotate, extract, halves, 0);
    SubkeysCount(rotate, extract, halves, 0);
    for i := 0 to 16
      invariant Subkeys(rotate, extract, h, i) == all[i..]
      invariant forall j | 0 <= j < i :: schedule[if mode == Encrypt then j else 15 - j] == all[j]
    {
      SubkeysCount(rotate, extract, h, i);
      h := rotate(h, i);
      var to := if mode == Decrypt then 15 - i else i;
      schedule[to] := extract(h);
    }
    InPlace(schedule[..], all, mode == Encrypt);
  }

  /** Sixteen entries filled from the front or from the back. */
  lemma InPlace<K>(s: seq<K>, all: seq<K>, front: bool)
    requires |s| == 16 && |all| == 16 && forall j | 0 <= j < 16 :: s[if front then j else 15 - j] == all[j]
    ensures s == if front then all else Reversed(all)
  {
    forall j | 0 <= j < 16 ensures s[j] == (if front then all else Reversed(all))[j] {
      assert !front ==> s[15 - (15 - j)] == all[15 - j];
    }
  }

  /** Using only that the permutations are inverse and the schedules reversed. */
  lemma CryptInverse<B(!new), W(!new), K>(x: Op<W>, ip: B -> Halves<W>, inv: Halves<W> -> B, f: (W, K) -> W, ks: seq<K>, b: B)
    requires XorLaws(x) && (forall b :: inv(ip(b)) == b) && (forall s :: ip(inv(s)) == s)
    ensures Crypted(x, ip, inv, f, Reversed(ks), Crypted(x, ip, inv, f, ks, b)) == b
    ensures Crypted(x, ip, inv, f, ks, Crypted(x, ip, inv, f, Reversed(ks), b)) == b
  {
    Inverse(x, f, ks, ip(b));
    Inverse(x, f, Reversed(ks), ip(b));
    ReversedTwice(ks);
  }

  /** Decryption undoes encryption, and encryption undoes decryption. */
  lemma DesInverse<H, K>(rotate: (H, nat) -> H, extract: H -> K, f: (bv32, K) -> bv32, h: H, b: Block, mode: Mode)
    ensures var other := if mode == Encrypt then Decrypt else Encrypt;
      DesCrypted(f, Schedule(rotate, extract, h, other), DesCrypted(f, Schedule(rotate, extract, h, mode), b)) == b
  {
    Xor32Laws();
    forall b: Block ensures Unpermute(Permute(b)) == b { PermuteInverse(b, (0, 0)); }
    forall s: Halves<bv32> ensures Permute(Unpermute(s)) == s { PermuteInverse(b, s); }
    CryptInverse(Xor32, Permute, Unpermute, f, Subkeys(rotate, extract, h, 0), b);
  }

  // ---------------------------------------------------------------- triple DES

  /** `three_des_key_setup`: the outer schedules are for the mode, the inner one for the other mode; for
      decryption the keys are taken in reverse. */
  function TripleSchedule<H, K>(rotate: (H, nat) -> H, extract: H -> K, h: (H, H, H), mode: Mode): (seq<K>, seq<K>, seq<K>) {
    if mode == Encrypt then
      (Schedule(rotate, extract, h.0, Encrypt), Schedule(rotate, extract, h.1, Decrypt), Schedule(rotate, extract, h.2, Encrypt))
    else
      (Schedule(rotate, extract, h.2, Decrypt), Schedule(rotate, extract, h.1, Encrypt), Schedule(rotate, extract, h.0, Decrypt))
  }

  function TripleCrypted<K>(f: (bv32, K) -> bv32, s: (seq<K>, seq<K>, seq<K>), b: Block): Block {
    DesCrypted(f, s.2, DesCrypted(f, s.1, DesCrypted(f, s.0, b)))
  }

  /** `three_des_crypt` */
  method TripleCrypt<K>(f: (bv32, K) -> bv32, s: (seq<K>, seq<K>, seq<K>), input: Block) returns (output: Block)
    requires |s.0| == 16 && |s.1| == 16 && |s.2| == 16
    ensures output == TripleCrypted(f, s, input)
  {
    output := Crypt(f, s.0, input);
    output := Crypt(f, s.1, output);
    output := Crypt(f, s.2, output);
  }

  /** Triple DES decryption undoes encryption, for any three keys. */
  lemma TripleInverse<H, K>(rotate: (H, nat) -> H, extract: H -> K, f: (bv32, K) -> bv32, h: (H, H, H), b: Block)
    ensures TripleCrypted(f, TripleSchedule(rotate, extract, h, Decrypt),
                          TripleCrypted(f, TripleSchedule(rotate, extract, h, Encrypt), b)) == b
  {
    var x := DesCrypted(f, Schedule(rotate, extract, h.0, Encrypt), b);
    var y := DesCrypted(f, Schedule(rotate, extract, h.1, Decrypt), x);
    DesInverse(rotate, extract, f, h.2, y, Encrypt);
    DesInverse(rotate, extract, f, h.1, x, Decrypt);
    DesInverse(rotate, extract, f, h.0, b, Encrypt);
  }

  /** Two equal keys next to each other cancel: triple DES is then DES with the third. */
  lemma TripleSingle<H, K>(rotate: (H, nat) -> H, extract: H -> K, f: (bv32, K) -> bv32, h: H, k: H, b: Block)
    ensures var single := DesCrypted(f, Schedule(rotate, extract, k, Encrypt), b);
      && TripleCrypted(f, TripleSchedule(rotate, extract, (h, h, k), Encrypt), b) == single
      && TripleCrypted(f, TripleSchedule(rotate, extract, (k, h, h), Encrypt), b) == single
  {
    DesInverse(rotate, extract, f, h, b, Encrypt);
    DesInverse(rotate, extract, f, h, DesCrypted(f, Schedule(rotate, extract, k, Encrypt), b), Decrypt);
  }
}
