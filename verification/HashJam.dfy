/**
 When a table is too small.  A bucket count is jammed for a set of keys if the displacement limit can
 keep one of them out: some of the others, stored in that many buckets, leave it no place
 (cc_learn/cc.h:3029-3050, 3107-3115).
 */
module HashJam {
  import opened Powers
  import opened HashProbe
  import opened HashChain
  import opened HashFill

  ghost predicate Occupied(meta: seq<Meta>, b: nat) {
    b < |meta| && meta[b] != EMPTY
  }

  /** No empty bucket lies within the displacement limit of the home bucket `h`. */
  ghost predicate Blocked(meta: seq<Meta>, h: nat, mask: nat) {
    Occupied(meta, h) && forall d | 1 <= d < LIMIT :: Occupied(meta, Pos(h, d, mask))
  }

  /** Where a new key would have to find an empty bucket: along its own chain, or along the chain of the pair
      that it would drive out of its home bucket.  */
  ghost predicate Stuck<K>(hash: K -> nat, meta: seq<Meta>, keys: seq<K>, key: K)
    requires 0 < |keys| <= |meta|
  {
    var mask := |keys| - 1;
    var h := Reduce(hash(key), mask);
    ReduceMod(hash(key), mask);
    Occupied(meta, h) && Blocked(meta, if meta[h].home then h else Reduce(hash(keys[h]), mask), mask)
  }

  /** Some keys of `ks`, but not `key`, are stored in `cap` buckets, and `key` finds no place. */
  ghost predicate Jam<K>(hash: K -> nat, cap: nat, ks: set<K>, meta: seq<Meta>, keys: seq<K>, key: K) {
    && 0 < cap == |keys| <= |meta| && Unique(meta, keys, cap)
    && key in ks && KeysIn(meta, keys, 0, cap) <= ks - {key}
    && Stuck(hash, meta, keys, key)
  }

  ghost predicate Jammed<K(!new)>(hash: K -> nat, cap: nat, ks: set<K>) {
    exists meta, keys, key :: Jam(hash, cap, ks, meta, keys, key)
  }

  /** A count of buckets is cramped if it is jammed or the keys exceed the maximum load. */
  ghost predicate Cramped<K(!new)>(hash: K -> nat, maxLoad: real, cap: nat, ks: set<K>) {
    Jammed(hash, cap, ks) || |ks| > (maxLoad * cap as real).Floor
  }

  /** There was memory for 2^i buckets, but they are too few. */
  ghost predicate JammedAt<K(!new)>(hash: K -> nat, alloc: set<nat>, ks: set<K>, i: nat) {
    Pow2(i) in alloc && Jammed(hash, Pow2(i), ks)
  }

  ghost predicate CrampedAt<K(!new)>(hash: K -> nat, maxLoad: real, alloc: set<nat>, ks: set<K>, i: nat) {
    Pow2(i) in alloc && Cramped(hash, maxLoad, Pow2(i), ks)
  }

  /** All powers of two from 2^a up to 2^b, without the latter. */
  ghost predicate CrampedFrom<K(!new)>(hash: K -> nat, maxLoad: real, alloc: set<nat>, ks: set<K>, a: nat, b: nat) {
    forall i | a <= i < b :: CrampedAt(hash, maxLoad, alloc, ks, i)
  }

  lemma CrampedJoin<K(!new)>(hash: K -> nat, maxLoad: real, alloc: set<nat>, ks: set<K>, a: nat, b: nat, c: nat)
    requires a <= b <= c && CrampedFrom(hash, maxLoad, alloc, ks, a, b) && CrampedFrom(hash, maxLoad, alloc, ks, b, c)
    ensures CrampedFrom(hash, maxLoad, alloc, ks, a, c)
  {
  }

  lemma CrampedNext<K(!new)>(hash: K -> nat, maxLoad: real, alloc: set<nat>, ks: set<K>, a: nat, b: nat)
    requires CrampedFrom(hash, maxLoad, alloc, ks, a, b) && Pow2(b) in alloc && Cramped(hash, maxLoad, Pow2(b), ks)
    ensures CrampedFrom(hash, maxLoad, alloc, ks, a, b + 1)
  {
    assert CrampedAt(hash, maxLoad, alloc, ks, b);
  }

  lemma JammedMore<K(!new)>(hash: K -> nat, cap: nat, ks: set<K>, more: set<K>)
    requires Jammed(hash, cap, ks) && ks <= more
    ensures Jammed(hash, cap, more)
  {
    var meta, keys, key :| Jam(hash, cap, ks, meta, keys, key);
    assert Jam(hash, cap, more, meta, keys, key);
  }

  lemma Smaller<K>(a: set<K>, b: set<K>)
    requires a <= b
    ensures |a| <= |b|
  {
    assert b == a + (b - a);
  }

  // ---------------------------------------------------------------- few keys

  /** The keys at the first displacements from a home bucket. */
  ghost function Along<K>(keys: seq<K>, h: nat, mask: nat, d: nat): set<K> {
    if d == 0 then {}
    else Along(keys, h, mask, d - 1) + if Pos(h, d - 1, mask) < |keys| then {keys[Pos(h, d - 1, mask)]} else {}
  }

  lemma Different<K>(meta: seq<Meta>, keys: seq<K>, h: nat, mask: nat, log: nat, e: nat, d: nat)
    requires mask + 1 == |keys| == Pow2(log) <= |meta| && Unique(meta, keys, mask + 1) && e < d <= mask
    requires Occupied(meta, Pos(h, e, mask)) && Occupied(meta, Pos(h, d, mask))
    ensures Pos(h, e, mask) <= mask && Pos(h, d, mask) <= mask && keys[Pos(h, e, mask)] != keys[Pos(h, d, mask)]
  {
    ReduceMod(h + Quad(e), mask);
    ReduceMod(h + Quad(d), mask);
    if Pos(h, e, mask) == Pos(h, d, mask) { PosDiffer(log, h, e, d, mask); }
  }

  /** The key at a further displacement is another one. */
  lemma {:induction false} AlongApart<K>(meta: seq<Meta>, keys: seq<K>, h: nat, mask: nat, log: nat, e: nat, d: nat)
    requires mask + 1 == |keys| == Pow2(log) <= |meta| && Unique(meta, keys, mask + 1) && e <= d <= mask
    requires forall c: nat | c <= d :: Occupied(meta, Pos(h, c, mask))
    ensures Pos(h, d, mask) <= mask && keys[Pos(h, d, mask)] !in Along(keys, h, mask, e)
  {
    ReduceMod(h + Quad(d), mask);
    if e > 0 {
      AlongApart(meta, keys, h, mask, log, e - 1, d);
      Different(meta, keys, h, mask, log, e - 1, d);
    }
  }

  /** Where all these buckets are occupied they hold as many keys. */
  lemma {:induction false} AlongCount<K>(meta: seq<Meta>, keys: seq<K>, h: nat, mask: nat, log: nat, d: nat)
    requires mask + 1 == |keys| == Pow2(log) <= |meta| && Unique(meta, keys, mask + 1) && d <= mask + 1
    requires forall e: nat | e < d :: Occupied(meta, Pos(h, e, mask))
    ensures |Along(keys, h, mask, d)| == d && Along(keys, h, mask, d) <= KeysIn(meta, keys, 0, mask + 1)
  {
    if d > 0 {
      AlongCount(meta, keys, h, mask, log, d - 1);
      AlongApart(meta, keys, h, mask, log, d - 1, d - 1);
      var b, before := Pos(h, d - 1, mask), Along(keys, h, mask, d - 1);
      assert Along(keys, h, mask, d) == before + {keys[b]};
      assert Occupied(meta, b) && keys[b] in KeysIn(meta, keys, 0, mask + 1);
    }
  }

  /** A blocked search needs as many keys as there are displacements, or buckets. */
  lemma BlockedCount<K>(meta: seq<Meta>, keys: seq<K>, h: nat, mask: nat, log: nat, ks: set<K>)
    requires mask + 1 == |keys| == Pow2(log) <= |meta| && Unique(meta, keys, mask + 1) && KeysIn(meta, keys, 0, mask + 1) <= ks
    requires h <= mask && Blocked(meta, h, mask)
    ensures |ks| >= LIMIT || |ks| > mask
  {
    var d := if LIMIT <= mask then LIMIT else mask + 1;
    assert Pos(h, 0, mask) == h;
    forall e: nat | e < d ensures Occupied(meta, Pos(h, e, mask)) {}
    AlongCount(meta, keys, h, mask, log, d);
    Smaller(Along(keys, h, mask, d), ks);
  }

  /** No bucket count is jammed by as many keys, up to the displacement limit. */
  lemma FewNeverJam<K(!new)>(hash: K -> nat, log: nat, ks: set<K>)
    requires |ks| <= Pow2(log) && |ks| <= LIMIT
    ensures !Jammed(hash, Pow2(log), ks)
  {
    if Jammed(hash, Pow2(log), ks) {
      var meta: seq<Meta>, keys: seq<K>, key :| Jam(hash, Pow2(log), ks, meta, keys, key);
      var mask := Pow2(log) - 1;
      var h := Reduce(hash(key), mask);
      ReduceMod(hash(key), mask);
      ReduceMod(hash(keys[h]), mask);
      BlockedCount(meta, keys, if meta[h].home then h else Reduce(hash(keys[h]), mask), mask, log, ks - {key});
      assert false;
    }
  }

  /** Nor is it cramped below the maximum load: growing stops there. */
  lemma FewFit<K(!new)>(hash: K -> nat, maxLoad: real, alloc: set<nat>, ks: set<K>, log: nat, top: nat)
    requires |ks| <= Pow2(log) && |ks| <= LIMIT && |ks| <= (maxLoad * Pow2(log) as real).Floor
    requires log <= top && CrampedFrom(hash, maxLoad, alloc, ks, log, top)
    ensures top == log
  {
    FewNeverJam(hash, log, ks);
    assert log < top ==> CrampedAt(hash, maxLoad, alloc, ks, log);
  }
}
