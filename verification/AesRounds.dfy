/**
 The order of the steps in AES encryption and decryption (crypto-algorithms_learn/aes.c:1163-1386),
 over any state type and any steps that have inverses.
 */
module AesRounds {
  /** The four steps and their inverses; adding a round key is its own inverse. */
  datatype Steps<!S, !K> = Steps(sub: S -> S, shift: S -> S, mix: S -> S, unsub: S -> S, unshift: S -> S, unmix: S -> S,
                                 add: (S, K) -> S)

  ghost predicate Inverses<S(!new), K(!new)>(p: Steps<S, K>) {
    && (forall s :: p.unsub(p.sub(s)) == s) && (forall s :: p.unshift(p.shift(s)) == s)
    && (forall s :: p.unmix(p.mix(s)) == s) && (forall s, k :: p.add(p.add(s, k), k) == s)
  }

  /** `i` full rounds after the first round key. */
  function Forward<S, K>(p: Steps<S, K>, ks: seq<K>, i: nat, s: S): S
    requires i < |ks|
  {
    if i == 0 then p.add(s, ks[0]) else p.add(p.mix(p.shift(p.sub(Forward(p, ks, i - 1, s)))), ks[i])
  }

  /** All rounds; the last one does not mix. */
  function Encrypted<S, K>(p: Steps<S, K>, ks: seq<K>, s: S): S
    requires |ks| >= 2
  {
    var n := |ks| - 1;
    p.add(p.shift(p.sub(Forward(p, ks, n - 1, s))), ks[n])
  }

  /** Undoes `i` full rounds, after which the first round key is still in. */
  function Backward<S, K>(p: Steps<S, K>, ks: seq<K>, i: nat, s: S): S
    requires i < |ks|
    decreases i
  {
    if i == 0 then p.add(p.unsub(p.unshift(s)), ks[0])
    else Backward(p, ks, i - 1, p.unmix(p.add(p.unsub(p.unshift(s)), ks[i])))
  }

  function Decrypted<S, K>(p: Steps<S, K>, ks: seq<K>, s: S): S
    requires |ks| >= 2
  {
    var n := |ks| - 1;
    Backward(p, ks, n - 1, p.add(s, ks[n]))
  }

  lemma {:induction false} Undone<S(!new), K(!new)>(p: Steps<S, K>, ks: seq<K>, i: nat, s: S)
    requires Inverses(p) && i < |ks|
    ensures Backward(p, ks, i, p.shift(p.sub(Forward(p, ks, i, s)))) == s
    decreases i
  {
    if i > 0 { Undone(p, ks, i - 1, s); }
  }

  /** Decryption undoes encryption, for any number of rounds and any round keys. */
  lemma DecryptEncrypt<S(!new), K(!new)>(p: Steps<S, K>, ks: seq<K>, s: S)
    requires Inverses(p) && |ks| >= 2
    ensures Decrypted(p, ks, Encrypted(p, ks, s)) == s
  {
    Undone(p, ks, |ks| - 2, s);
  }

  /** The states of an encryption: the first key is added, each round substitutes, shifts, mixes and adds a key, and
      the last one does not mix. */
  ghost predicate Rounds<S(!new), K(!new)>(p: Steps<S, K>, ks: seq<K>, s: S, st: seq<S>) {
    && |ks| >= 2 && |st| == |ks| && st[0] == p.add(s, ks[0])
    && (forall i: nat | 1 <= i < |ks| - 1 :: st[i] == p.add(p.mix(p.shift(p.sub(st[i - 1]))), ks[i]))
    && st[|ks| - 1] == p.add(p.shift(p.sub(st[|ks| - 2])), ks[|ks| - 1])
  }

  lemma EncryptedRounds<S(!new), K(!new)>(p: Steps<S, K>, ks: seq<K>, s: S) returns (st: seq<S>)
    requires |ks| >= 2
    ensures Rounds(p, ks, s, st) && Encrypted(p, ks, s) == st[|ks| - 1]
  {
    var n := |ks| - 1;
    st := seq(n, i requires 0 <= i < n => Forward(p, ks, i, s)) + [Encrypted(p, ks, s)];
  }

  /** And of a decryption, whose last step adds the first key. */
  ghost predicate Unrounds<S(!new), K(!new)>(p: Steps<S, K>, ks: seq<K>, s: S, st: seq<S>) {
    && |ks| >= 2 && |st| == |ks| && st[|ks| - 1] == p.add(s, ks[|ks| - 1])
    && (forall i: nat | 1 <= i < |ks| - 1 :: st[i] == p.unmix(p.add(p.unsub(p.unshift(st[i + 1])), ks[i])))
    && st[0] == p.add(p.unsub(p.unshift(st[1])), ks[0])
  }

  lemma {:induction false} BackwardStates<S(!new), K(!new)>(p: Steps<S, K>, ks: seq<K>, i: nat, s: S) returns (st: seq<S>)
    requires i < |ks|
    ensures |st| == i + 2 && st[i + 1] == s && st[0] == Backward(p, ks, i, s)
    ensures forall j: nat | 1 <= j <= i :: st[j] == p.unmix(p.add(p.unsub(p.unshift(st[j + 1])), ks[j]))
    ensures st[0] == p.add(p.unsub(p.unshift(st[1])), ks[0])
    decreases i
  {
    if i == 0 {
      st := [Backward(p, ks, 0, s), s];
    } else {
      st := BackwardStates(p, ks, i - 1, p.unmix(p.add(p.unsub(p.unshift(s)), ks[i])));
      st := st + [s];
    }
  }

  lemma DecryptedRounds<S(!new), K(!new)>(p: Steps<S, K>, ks: seq<K>, s: S) returns (st: seq<S>)
    requires |ks| >= 2
    ensures Unrounds(p, ks, s, st) && Decrypted(p, ks, s) == st[0]
  {
    st := BackwardStates(p, ks, |ks| - 2, p.add(s, ks[|ks| - 1]));
  }

  // ---------------------------------------------------------------- the methods

  /** How many rounds the two directions make for a key size, as their branches decide. */
  function EncryptRounds(keysize: int): nat {
    if keysize == 128 then 10 else if keysize == 192 then 12 else 14
  }

  function DecryptRounds(keysize: int): nat {
    if keysize > 192 then 14 else if keysize > 128 then 12 else 10
  }

  /** They agree for the three key sizes; elsewhere they agree only above 192. */
  lemma RoundsAgree(keysize: int)
    ensures EncryptRounds(keysize) == DecryptRounds(keysize) <==> keysize == 128 || keysize >= 192
  {
  }

  /** For example, a key size of 160 is encrypted with 14 rounds and decrypted with 12. */
  lemma RoundsDiffer()
    ensures EncryptRounds(160) == 14 && DecryptRounds(160) == 12
  {
  }

  /** `aes_encrypt` */
  method Encrypt<S, K>(p: Steps<S, K>, key: seq<K>, keysize: int, input: S) returns (state: S)
    requires |key| > EncryptRounds(keysize)
    ensures state == Encrypted(p, key[..EncryptRounds(keysize) + 1], input)
  {
    var n := EncryptRounds(keysize);
    ghost var ks := key[..n + 1];
    state := p.add(input, key[0]);
    for i := 1 to n
      invariant state == Forward(p, ks, i - 1, input)
    {
      state := p.sub(state);
      state := p.shift(state);
      state := p.mix(state);
      state := p.add(state, key[i]);
    }
    state := p.sub(state);
    state := p.shift(state);
    state := p.add(state, key[n]);
  }

  /** `aes_decrypt` */
  method Decrypt<S, K>(p: Steps<S, K>, key: seq<K>, keysize: int, input: S) returns (state: S)
    requires |key| > DecryptRounds(keysize)
    ensures state == Decrypted(p, key[..DecryptRounds(keysize) + 1], input)
  {
    var n := DecryptRounds(keysize);
    ghost var ks := key[..n + 1];
    state := p.add(input, key[n]);
    var i := n - 1;
    while i > 0
      invariant 0 <= i < n && Backward(p, ks, i, state) == Decrypted(p, ks, input)
    {
      state := p.unshift(state);
      state := p.unsub(state);
      state := p.add(state, key[i]);
      state := p.unmix(state);
      i := i - 1;
    }
    state := p.unshift(state);
    state := p.unsub(state);
    state := p.add(state, key[0]);
  }
}
