/**
 The mathematical map that the pairs of a table stand for, and what each change of a chain means
 for it.
 */
module HashFill {
  import opened HashChain

  ghost predicate Kept<K>(e: Env<K>, t: Tab<K>, w: int, k: K)
    requires Sized(e, t)
  {
    exists b :: On(e, t, w, b) && t.keys[b] == k
  }

  /** The pairs in occupied buckets, apart from bucket `w`, are exactly those of `m`. */
  ghost predicate Filled<K, V>(e: Env<K>, t: Tab<K>, els: seq<V>, w: int, m: map<K, V>) {
    && Sized(e, t) && |els| == e.n
    && (forall b | On(e, t, w, b) :: t.keys[b] in m && m[t.keys[b]] == els[b])
    && (forall k | k in m :: Kept(e, t, w, k))
  }

  lemma FillBegin<K(!new), V>(e: Env<K>, t: Tab<K>, els: seq<V>, w: int, m: map<K, V>, key: K, el: V)
    requires EnvOk(e) && Filled(e, t, els, w, m) && key !in m
    requires w == e.home(key) || (w == -1 && t.meta[e.home(key)] == EMPTY)
    ensures Filled(e, Begin(t, e.home(key), key, e.frag(key)), els[e.home(key) := el], -1, m[key := el])
  {
    var h := e.home(key);
    var t' := Begin(t, h, key, e.frag(key));
    forall b | On(e, t', -1, b) && b != h ensures t'.keys[b] in m && m[t'.keys[b]] == els[b] { assert On(e, t, w, b); }
    forall k | k in m[key := el] ensures Kept(e, t', -1, k) {
      if k == key {
        assert On(e, t', -1, h);
      } else {
        assert Kept(e, t, w, k);
        var b :| On(e, t, w, b) && t.keys[b] == k;
        assert On(e, t', -1, b);
      }
    }
  }

  lemma FillLink<K, V>(e: Env<K>, t: Tab<K>, els: seq<V>, w: int, m: map<K, V>, p: nat, b: nat, d: nat, key: K, el: V)
    requires Filled(e, t, els, w, m) && Gap(e, t, w, p, b, d, e.home(key)) && key !in m
    ensures Filled(e, LinkIn(t, p, b, d, key, e.frag(key)), els[b := el], w, m[key := el])
  {
    var t' := LinkIn(t, p, b, d, key, e.frag(key));
    forall x | On(e, t', w, x) && x != b ensures t'.keys[x] in m && m[t'.keys[x]] == els[x] { assert On(e, t, w, x); }
    forall k | k in m[key := el] ensures Kept(e, t', w, k) {
      if k == key {
        assert On(e, t', w, b);
      } else {
        assert Kept(e, t, w, k);
        var x :| On(e, t, w, x) && t.keys[x] == k;
        assert On(e, t', w, x);
      }
    }
  }

  /** Leaving a bucket out of the chains leaves its pair out of the map. */
  lemma FillDrop<K, V>(e: Env<K>, t: Tab<K>, t': Tab<K>, els: seq<V>, m: map<K, V>, b: nat)
    requires Linked(e, t, -1) && Filled(e, t, els, -1, m) && On(e, t, -1, b)
    requires Sized(e, t') && t'.keys == t.keys && forall x :: On(e, t', b, x) <==> On(e, t, -1, x) && x != b
    ensures Filled(e, t', els, b, m - {t.keys[b]})
  {
    forall x | On(e, t', b, x) ensures t.keys[x] != t.keys[b] { assert On(e, t, -1, x) && Apart(e, t, -1, x, b); }
    forall k | k in m - {t.keys[b]} ensures Kept(e, t', b, k) {
      assert Kept(e, t, -1, k);
      var x :| On(e, t, -1, x) && t.keys[x] == k;
      assert On(e, t', b, x);
    }
  }

  lemma FillUnlink<K, V>(e: Env<K>, t: Tab<K>, els: seq<V>, m: map<K, V>, p: nat, b: nat)
    requires Linked(e, t, -1) && Filled(e, t, els, -1, m) && Before(e, t, -1, p, b)
    ensures Filled(e, Unlink(t, p, b), els, b, m - {t.keys[b]})
  {
    assert Links(e, t, -1, b);
    FillDrop(e, t, Unlink(t, p, b), els, m, b);
  }

  /** An unlinked pair is still stored. */
  lemma FillLoose<K, V>(e: Env<K>, t: Tab<K>, els: seq<V>, m: map<K, V>, p: nat, b: nat)
    requires Linked(e, t, -1) && Filled(e, t, els, -1, m) && Before(e, t, -1, p, b)
    ensures Filled(e, Unlink(t, p, b), els, -1, m)
    ensures forall x | On(e, Unlink(t, p, b), b, x) :: t.keys[x] != t.keys[b]
  {
    var t' := Unlink(t, p, b);
    assert Links(e, t, -1, b);
    forall x ensures On(e, t', -1, x) <==> On(e, t, -1, x) {}
    forall k | k in m ensures Kept(e, t', -1, k) {
      assert Kept(e, t, -1, k);
      var x :| On(e, t, -1, x) && t.keys[x] == k;
      assert On(e, t', -1, x);
    }
    forall x | On(e, t', b, x) ensures t.keys[x] != t.keys[b] { assert On(e, t, -1, x) && Apart(e, t, -1, x, b); }
  }

  lemma FillVacate<K, V>(e: Env<K>, t: Tab<K>, els: seq<V>, m: map<K, V>, b: nat)
    requires Filled(e, t, els, b, m) && b < e.n
    ensures Filled(e, Vacate(t, b), els, -1, m)
  {
    var t' := Vacate(t, b);
    forall x ensures On(e, t', -1, x) <==> On(e, t, b, x) {}
    forall k | k in m ensures Kept(e, t', -1, k) {
      assert Kept(e, t, b, k);
      var x :| On(e, t, b, x) && t.keys[x] == k;
      assert On(e, t', -1, x);
    }
  }

  lemma FillTakeOver<K, V>(e: Env<K>, t: Tab<K>, els: seq<V>, w: int, m: map<K, V>, b: nat, key: K, el: V)
    requires Linked(e, t, w) && Filled(e, t, els, w, m) && On(e, t, w, b) && key !in m
    ensures Filled(e, TakeOver(t, b, key, e.frag(key)), els[b := el], w, (m - {t.keys[b]})[key := el])
  {
    var t' := TakeOver(t, b, key, e.frag(key));
    assert Links(e, t, w, b);
    forall x ensures On(e, t', w, x) <==> On(e, t, w, x) {}
    forall x | On(e, t', w, x) && x != b ensures t.keys[x] != t.keys[b] { assert On(e, t, w, x) && Apart(e, t, w, x, b); }
    forall k | k in (m - {t.keys[b]})[key := el] ensures Kept(e, t', w, k) {
      if k == key {
        assert On(e, t', w, b);
      } else {
        assert Kept(e, t, w, k);
        var x :| On(e, t, w, x) && t.keys[x] == k;
        assert On(e, t', w, x);
      }
    }
  }

  lemma FillReplace<K, V>(e: Env<K>, t: Tab<K>, els: seq<V>, m: map<K, V>, b: nat, el: V)
    requires Linked(e, t, -1) && Filled(e, t, els, -1, m) && On(e, t, -1, b)
    ensures Filled(e, t, els[b := el], -1, m[t.keys[b] := el])
  {
    forall x | On(e, t, -1, x) && x != b ensures t.keys[x] != t.keys[b] { assert Apart(e, t, -1, x, b); }
  }

  // ---------------------------------------------------------------- erasing while iterating

  /** The keys stored in buckets from `i` up to `j`. */
  ghost function KeysIn<K>(meta: seq<Meta>, keys: seq<K>, i: nat, j: nat): set<K>
    requires j <= |meta| && j <= |keys|
  {
    set b: nat | i <= b < j && meta[b] != EMPTY :: keys[b]
  }

  /** Bucket `b` was emptied; the other buckets are as full as they were. */
  ghost predicate Emptied(was: seq<Meta>, meta: seq<Meta>, b: nat) {
    |meta| == |was| && forall x | 0 <= x < |meta| :: meta[x] == EMPTY <==> was[x] == EMPTY || x == b
  }

  /** No key is stored twice in the first `n` buckets. */
  ghost predicate Unique<K>(meta: seq<Meta>, keys: seq<K>, n: nat)
    requires n <= |meta| && n <= |keys|
  {
    forall b, x | 0 <= b < n && 0 <= x < n && meta[b] != EMPTY && meta[x] != EMPTY && keys[b] == keys[x] :: b == x
  }

  /** The pair in `at` is gone, the one from `last` is in its place, and the iterator stands at `i`. */
  ghost predicate Erased<K>(was: seq<Meta>, meta: seq<Meta>, wasKeys: seq<K>, keys: seq<K>, n: nat, at: nat, last: nat, i: nat) {
    && |wasKeys| == n <= |was| && Emptied(was, meta, last) && at < n && last < n && at <= i <= n
    && was[at] != EMPTY && was[last] != EMPTY && keys == wasKeys[at := wasKeys[last]]
    && Unique(was, wasKeys, n)
    && (forall b | at < b < i :: meta[b] == EMPTY) && (last > at ==> i == at) && (last <= at ==> i > at)
  }

  /** The keys before the iterator are those that were before `at`. */
  lemma ErasedBelow<K>(was: seq<Meta>, meta: seq<Meta>, wasKeys: seq<K>, keys: seq<K>, n: nat, at: nat, last: nat, i: nat)
    requires Erased(was, meta, wasKeys, keys, n, at, last, i)
    ensures KeysIn(meta, keys, 0, i) == KeysIn(was, wasKeys, 0, at)
  {
    forall k | k in KeysIn(meta, keys, 0, i) ensures k in KeysIn(was, wasKeys, 0, at) {
      var b: nat :| b < i && meta[b] != EMPTY && keys[b] == k;
      assert was[b] != EMPTY && (b == at ==> wasKeys[last] == k && last < at);
    }
    forall k | k in KeysIn(was, wasKeys, 0, at) ensures k in KeysIn(meta, keys, 0, i) {
      var b: nat :| b < at && was[b] != EMPTY && wasKeys[b] == k;
      assert if b == last then meta[at] != EMPTY && keys[at] == k else meta[b] != EMPTY && keys[b] == k;
    }
  }

  /** The keys from the iterator on are those that were from `at` on, without the erased one. */
  lemma ErasedAbove<K>(was: seq<Meta>, meta: seq<Meta>, wasKeys: seq<K>, keys: seq<K>, n: nat, at: nat, last: nat, i: nat)
    requires Erased(was, meta, wasKeys, keys, n, at, last, i)
    ensures KeysIn(meta, keys, i, n) == KeysIn(was, wasKeys, at, n) - {wasKeys[at]}
  {
    forall k | k in KeysIn(meta, keys, i, n) ensures k in KeysIn(was, wasKeys, at, n) - {wasKeys[at]} {
      var b: nat :| i <= b < n && meta[b] != EMPTY && keys[b] == k;
      assert was[b] != EMPTY && (b == at ==> wasKeys[last] == k);
    }
    forall k | k in KeysIn(was, wasKeys, at, n) - {wasKeys[at]} ensures k in KeysIn(meta, keys, i, n) {
      var b: nat :| at <= b < n && was[b] != EMPTY && wasKeys[b] == k;
      assert if b == last then meta[at] != EMPTY && keys[at] == k else meta[b] != EMPTY && keys[b] == k;
    }
  }
}
