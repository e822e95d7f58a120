/**
 Key order in the tree: searching goes to the one place a key can be, and inserting or removing
 there keeps the order.  Keys are compared by `cmpr`, any total order given as a C comparison
 function.
 */
module RbOrder {
  import opened RbTree
  import opened RbShape

  ghost predicate TotalOrder<K(!new)>(cmpr: (K, K) -> int) {
    && (forall a, b :: cmpr(a, b) == 0 <==> a == b)
    && (forall a, b :: cmpr(a, b) < 0 <==> cmpr(b, a) > 0)
    && (forall a, b, c {:trigger Chained(a, b, c)} :: cmpr(a, b) < 0 && cmpr(b, c) < 0 ==> cmpr(a, c) < 0)
  }

  /** Always true; mentions three keys so that transitivity is used where it is asked for. */
  ghost predicate Chained<K>(a: K, b: K, c: K) {
    true
  }

  ghost predicate SortedBy<N, K>(order: seq<N>, keys: map<N, K>, cmpr: (K, K) -> int) {
    && (forall x | x in order :: x in keys)
    && (forall i, j | 0 <= i < j < |order| :: cmpr(keys[order[i]], keys[order[j]]) < 0)
  }

  /** Everything before the hole is smaller than the key, everything after it larger. */
  ghost predicate Bounded<N, K>(c: Ctx<N>, key: K, keys: map<N, K>, cmpr: (K, K) -> int) {
    && (forall x | x in Before(c) :: x in keys && cmpr(keys[x], key) < 0)
    && (forall x | x in After(c) :: x in keys && cmpr(keys[x], key) > 0)
  }

  lemma SortedParts<N, K(!new)>(a: seq<N>, n: N, b: seq<N>, keys: map<N, K>, cmpr: (K, K) -> int)
    requires TotalOrder(cmpr) && SortedBy(a + [n] + b, keys, cmpr)
    ensures n in keys
    ensures forall x | x in a :: x in keys && cmpr(keys[x], keys[n]) < 0
    ensures forall x | x in b :: x in keys && cmpr(keys[x], keys[n]) > 0
  {
    var s := a + [n] + b;
    assert s[|a|] == n;
    forall x | x in a ensures x in keys && cmpr(keys[x], keys[n]) < 0 {
      var i :| 0 <= i < |a| && a[i] == x;
      assert s[i] == x;
    }
    forall x | x in b ensures x in keys && cmpr(keys[x], keys[n]) > 0 {
      var i :| 0 <= i < |b| && b[i] == x;
      assert s[|a| + 1 + i] == x;
    }
  }

  /** The parts of a sorted tree around one node. */
  lemma AroundNode<N, K(!new)>(c: Ctx<N>, t: Tree<N>, keys: map<N, K>, cmpr: (K, K) -> int)
    requires TotalOrder(cmpr) && SortedBy(Inorder(Plug(c, t)), keys, cmpr) && t.Node?
    ensures t.n in keys
    ensures forall x | x in Inorder(t.l) :: x in keys && cmpr(keys[x], keys[t.n]) < 0
    ensures forall x | x in Inorder(t.r) :: x in keys && cmpr(keys[x], keys[t.n]) > 0
  {
    var a, b := Before(c) + Inorder(t.l), Inorder(t.r) + After(c);
    PlugAround(c, t);
    SortedParts(a, t.n, b, keys, cmpr);
    assert forall x | x in Inorder(t.l) :: x in a;
    assert forall x | x in Inorder(t.r) :: x in b;
  }

  /** Smaller than something smaller is smaller. */
  lemma Below<N, K(!new)>(xs: seq<N>, n: K, key: K, keys: map<N, K>, cmpr: (K, K) -> int)
    requires TotalOrder(cmpr)
    ensures (forall x | x in xs :: x in keys && cmpr(keys[x], n) < 0) && cmpr(n, key) < 0
            ==> forall x | x in xs :: x in keys && cmpr(keys[x], key) < 0
    ensures (forall x | x in xs :: x in keys && cmpr(keys[x], n) > 0) && cmpr(n, key) > 0
            ==> forall x | x in xs :: x in keys && cmpr(keys[x], key) > 0
  {
    forall x | x in xs && x in keys && cmpr(keys[x], n) < 0 && cmpr(n, key) < 0 ensures cmpr(keys[x], key) < 0 {
      assert Chained(keys[x], n, key);
    }
    forall x | x in xs && x in keys && cmpr(keys[x], n) > 0 && cmpr(n, key) > 0 ensures cmpr(keys[x], key) > 0 {
      assert Chained(key, n, keys[x]);
    }
  }

  /** One step down the tree. */
  lemma Descend<N, K(!new)>(c: Ctx<N>, t: Tree<N>, d: bool, key: K, keys: map<N, K>, cmpr: (K, K) -> int)
    requires TotalOrder(cmpr) && SortedBy(Inorder(Plug(c, t)), keys, cmpr) && t.Node?
    requires Bounded(c, key, keys, cmpr)
    requires t.n in keys && if d then cmpr(key, keys[t.n]) > 0 else cmpr(key, keys[t.n]) < 0
    ensures Bounded(In(d, t.red, t.n, Kid(t, !d), c), key, keys, cmpr)
  {
    AroundNode(c, t, keys, cmpr);
    Below(Inorder(Kid(t, !d)), keys[t.n], key, keys, cmpr);
  }

  /** A key that fits between two sorted parts makes a sorted whole. */
  lemma InsertSorted<N, K(!new)>(a: seq<N>, n: N, b: seq<N>, key: K, keys: map<N, K>, cmpr: (K, K) -> int)
    requires TotalOrder(cmpr) && SortedBy(a + b, keys, cmpr) && n !in keys
    requires forall x | x in a :: x in keys && cmpr(keys[x], key) < 0
    requires forall x | x in b :: x in keys && cmpr(keys[x], key) > 0
    ensures SortedBy(a + [n] + b, keys[n := key], cmpr)
  {
    var s, s', k' := a + b, a + [n] + b, keys[n := key];
    forall x | x in s' ensures x in k' { assert x == n || x in s; }
    forall i, j | 0 <= i < j < |s'| ensures cmpr(k'[s'[i]], k'[s'[j]]) < 0 {
      if i != |a| && j != |a| {
        var i', j' := if i < |a| then i else i - 1, if j < |a| then j else j - 1;
        assert s'[i] == s[i'] && s'[j] == s[j'];
        assert s[i'] in s && s[j'] in s;
      }
    }
  }

  /** Leaving one out keeps the rest sorted. */
  lemma RemoveSorted<N, K>(a: seq<N>, n: N, b: seq<N>, keys: map<N, K>, cmpr: (K, K) -> int)
    requires SortedBy(a + [n] + b, keys, cmpr)
    ensures SortedBy(a + b, keys, cmpr)
  {
    var s, s' := a + [n] + b, a + b;
    forall i | 0 <= i < |s'| ensures s'[i] == s[if i < |a| then i else i + 1] {}
    forall x | x in s' ensures x in keys { assert x in s; }
  }

  /** Smaller keys come first. */
  lemma SplitAt<N, K(!new)>(a: seq<N>, b: seq<N>, key: K, keys: map<N, K>, cmpr: (K, K) -> int)
    requires TotalOrder(cmpr) && forall x | x in a + b :: x in keys
    requires forall x | x in a :: cmpr(keys[x], key) < 0
    requires forall x | x in b :: cmpr(keys[x], key) > 0
    ensures forall j | 0 <= j < |a + b| :: j < |a| <==> cmpr(keys[(a + b)[j]], key) < 0
    ensures forall j | 0 <= j < |a + b| :: j > |a| - 1 <==> cmpr(keys[(a + b)[j]], key) > 0
  {
    forall j | 0 <= j < |a + b|
      ensures if j < |a| then cmpr(keys[(a + b)[j]], key) < 0 else cmpr(keys[(a + b)[j]], key) > 0
    {
      assert (a + b)[j] == if j < |a| then a[j] else b[j - |a|];
    }
  }

  lemma NarrowSorted<N, K>(order: seq<N>, n: N, keys: map<N, K>, cmpr: (K, K) -> int)
    requires SortedBy(order, keys, cmpr) && n !in order
    ensures SortedBy(order, keys - {n}, cmpr)
  {
    forall x | x in order ensures x in keys - {n} && (keys - {n})[x] == keys[x] { assert x != n; }
  }

  lemma SameIndex<N, K(!new)>(s: seq<N>, keys: map<N, K>, cmpr: (K, K) -> int, i: nat, j: nat)
    requires TotalOrder(cmpr) && SortedBy(s, keys, cmpr) && i < |s| && j < |s| && s[i] == s[j]
    ensures i == j
  {
    assert cmpr(keys[s[i]], keys[s[j]]) == 0;
  }

  /** In a sorted sequence a node stands in one place only. */
  lemma OnePlace<N, K(!new)>(a: seq<N>, n: N, b: seq<N>, a': seq<N>, b': seq<N>, keys: map<N, K>, cmpr: (K, K) -> int)
    requires TotalOrder(cmpr) && SortedBy(a + [n] + b, keys, cmpr) && a + [n] + b == a' + [n] + b'
    ensures a == a' && b == b' && n !in a && n !in b
  {
    var s := a + [n] + b;
    assert s[|a|] == n && s[|a'|] == n;
    SameIndex(s, keys, cmpr, |a|, |a'|);
    assert a == s[..|a|] == a' && b == s[|a| + 1..] == b';
    SortedParts(a, n, b, keys, cmpr);
  }

  /** A subtree and the context around it, found by a node's identity. */
  function Locate<N(==)>(c: Ctx<N>, t: Tree<N>, n: N): (r: (Ctx<N>, Tree<N>))
    requires n in Nodes(t)
    ensures r.1.Node? && r.1.n == n && Plug(r.0, r.1) == Plug(c, t)
    decreases t
  {
    if t.n == n then (c, t)
    else if n in Nodes(t.l) then Locate(In(false, t.red, t.n, t.r, c), t.l, n)
    else Locate(In(true, t.red, t.n, t.l, c), t.r, n)
  }

  lemma {:induction false} CtxInorder<N>(c: Ctx<N>, n: N)
    ensures n in CtxNodes(c) <==> n in Before(c) || n in After(c)
    decreases c
  {
    if c.In? {
      NodesInorder(c.sib, n);
      CtxInorder(c.up, n);
    }
  }

  lemma {:induction false} NodesInorder<N>(t: Tree<N>, n: N)
    ensures n in Nodes(t) <==> n in Inorder(t)
    decreases t
  {
    if t.Node? {
      NodesInorder(t.l, n);
      NodesInorder(t.r, n);
    }
  }

  ghost predicate Held<N, K>(keys: map<N, K>, k: K) {
    exists x | x in keys :: keys[x] == k
  }

  /** The mathematical map that nodes with these keys and elements stand for. */
  ghost predicate StandFor<N, K, V>(keys: map<N, K>, els: map<N, V>, m: map<K, V>) {
    && keys.Keys == els.Keys
    && (forall x | x in keys :: keys[x] in m && m[keys[x]] == els[x])
    && (forall k | k in m :: Held(keys, k))
  }

  lemma StandInsert<N, K, V>(keys: map<N, K>, els: map<N, V>, m: map<K, V>, n: N, key: K, el: V)
    requires StandFor(keys, els, m) && n !in keys && (forall x | x in keys :: keys[x] != key)
    ensures key !in m && StandFor(keys[n := key], els[n := el], m[key := el])
  {
    var k' := keys[n := key];
    forall k | k in m[key := el] ensures Held(k', k) {
      if k == key {
        assert k'[n] == k;
      } else {
        var x :| x in keys && keys[x] == k;
        assert k'[x] == k;
      }
    }
  }

  lemma StandReplace<N, K, V>(keys: map<N, K>, els: map<N, V>, m: map<K, V>, n: N, el: V)
    requires StandFor(keys, els, m) && n in keys && (forall x | x in keys && x != n :: keys[x] != keys[n])
    ensures StandFor(keys, els[n := el], m[keys[n] := el])
  {
  }

  lemma StandRemove<N, K, V>(keys: map<N, K>, els: map<N, V>, m: map<K, V>, n: N)
    requires StandFor(keys, els, m) && n in keys && (forall x | x in keys && x != n :: keys[x] != keys[n])
    ensures StandFor(keys - {n}, els - {n}, m - {keys[n]})
  {
    var k' := keys - {n};
    forall k | k in m - {keys[n]} ensures Held(k', k) {
      var x :| x in keys && keys[x] == k;
      assert k'[x] == k;
    }
  }

  /** Two orders with the same keys are sorted alike, and stand for the same map. */
  lemma SortedAlike<N, K>(o: seq<N>, o': seq<N>, keys: map<N, K>, keys': map<N, K>, cmpr: (K, K) -> int)
    requires |o| == |o'| && SortedBy(o, keys, cmpr)
    requires forall i | 0 <= i < |o| :: o[i] in keys && o'[i] in keys' && keys'[o'[i]] == keys[o[i]]
    ensures SortedBy(o', keys', cmpr)
  {
  }

  lemma StandAlike<N, K, V>(o: seq<N>, o': seq<N>, keys: map<N, K>, els: map<N, V>, keys': map<N, K>, els': map<N, V>, m: map<K, V>)
    requires |o| == |o'| && StandFor(keys, els, m) && keys'.Keys == els'.Keys
    requires forall i | 0 <= i < |o| :: o[i] in keys && o'[i] in keys' && keys'[o'[i]] == keys[o[i]] && els'[o'[i]] == els[o[i]]
    requires (forall p | p in keys :: p in o) && (forall p | p in keys' :: p in o')
    ensures StandFor(keys', els', m)
  {
    forall k | k in m ensures Held(keys', k) {
      var x :| x in keys && keys[x] == k;
      var i :| 0 <= i < |o| && o[i] == x;
      assert keys'[o'[i]] == k;
    }
  }

  /** Different nodes have different keys. */
  lemma KeysApart<N, K(!new)>(order: seq<N>, keys: map<N, K>, cmpr: (K, K) -> int, x: N, y: N)
    requires TotalOrder(cmpr) && SortedBy(order, keys, cmpr) && x in order && y in order && x != y
    ensures keys[x] != keys[y]
  {
    var i :| 0 <= i < |order| && order[i] == x;
    var j :| 0 <= j < |order| && order[j] == y;
    assert cmpr(keys[order[if i < j then i else j]], keys[order[if i < j then j else i]]) < 0;
  }
}
