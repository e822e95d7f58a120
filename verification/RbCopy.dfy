/**
 The two walks over an ordered map that need no stack: tearing a tree down while walking it
 (cc_learn/cc.h:4768-4804) and copying it node by node (cc_learn/cc.h:4862-4919).
 */
module RbCopy {
  import opened RbTree
  import opened RbShape

  // ---------------------------------------------------------------- tearing down

  /** The way back to the root: each node's link to the child being visited is already overwritten by
      the sentinel, and before the right child is visited the left one is gone. */
  ghost predicate Torn<N>(c: Ctx<N>, s: N, cells: map<N, Cell<N>>)
    decreases c
  {
    match c
    case Top => true
    case In(d, red, n, sib, up) =>
      && n != s && n in cells && cells[n] == MakeCell(d, red, ParentOf(up, s), s, RootOf(sib, s))
      && (d ==> sib.Leaf?) && Shaped(sib, n, s, cells) && Torn(up, s, cells)
  }

  /** What is still allocated: the subtree `t` and the way back. */
  ghost predicate TornAt<N>(c: Ctx<N>, t: Tree<N>, s: N, cells: map<N, Cell<N>>) {
    && Shaped(t, ParentOf(c, s), s, cells) && Torn(c, s, cells)
    && Distinct(t) && CtxDistinct(c) && Nodes(t) !! CtxNodes(c)
    && cells.Keys == Nodes(t) + CtxNodes(c) && s !in cells
    && (c.In? ==> t.Node?)
  }

  lemma {:induction false} TornFrame<N>(c: Ctx<N>, s: N, a: map<N, Cell<N>>, b: map<N, Cell<N>>)
    requires Torn(c, s, a) && Same(a, b, CtxNodes(c))
    ensures Torn(c, s, b)
    decreases c
  {
    if c.In? {
      TreeFrame(c.sib, c.n, s, a, b);
      TornFrame(c.up, s, a, b);
    }
  }

  /** Going down to child `d` and cutting the link. */
  lemma TearDown<N>(c: Ctx<N>, t: Tree<N>, d: bool, s: N, a: map<N, Cell<N>>)
    requires TornAt(c, t, s, a) && t.Node? && Kid(t, d).Node? && (d ==> t.l.Leaf?)
    ensures TornAt(In(d, t.red, t.n, Kid(t, !d), c), Kid(t, d), s, a[t.n := SetKid(a[t.n], d, s)])
  {
    var b := a[t.n := SetKid(a[t.n], d, s)];
    Unfold(t, d, ParentOf(c, s), s, a);
    TreeFrame(t.l, t.n, s, a, b);
    TreeFrame(t.r, t.n, s, a, b);
    TornFrame(c, s, a, b);
    assert b.Keys == a.Keys;
  }

  /** Freeing a node without children and going back up. */
  lemma Release<N>(c: Ctx<N>, t: Tree<N>, s: N, a: map<N, Cell<N>>)
    requires TornAt(c, t, s, a) && t.Node? && t.l.Leaf? && t.r.Leaf?
    ensures c.Top? ==> TornAt(Top, Leaf, s, a - {t.n})
    ensures c.In? ==> TornAt(c.up, Make(c.d, c.red, c.n, Leaf, c.sib), s, a - {t.n})
  {
    var b := a - {t.n};
    TornFrame(c, s, a, b);
    if c.In? {
      TreeFrame(c.sib, c.n, s, a, b);
      var u := Make(c.d, c.red, c.n, Leaf, c.sib);
      assert Nodes(u) == {c.n} + Nodes(c.sib);
      assert Shaped(u, ParentOf(c.up, s), s, b);
    }
  }

  // ---------------------------------------------------------------- copying

  /** `t'` has the shape and the colours of `t`, and its nodes store the same. */
  ghost predicate Copied<N, T>(t: Tree<N>, t': Tree<N>, m: map<N, T>, m': map<N, T>) {
    match t
    case Leaf => t'.Leaf?
    case Node(red, n, l, r) =>
      && t'.Node? && t'.red == red && n in m && t'.n in m' && m[n] == m'[t'.n]
      && Copied(l, t'.l, m, m') && Copied(r, t'.r, m, m')
  }

  /** A copy that is still growing: a child is missing or complete, and the left one comes first. */
  ghost predicate Growing<N, T>(t: Tree<N>, t': Tree<N>, m: map<N, T>, m': map<N, T>) {
    && t.Node? && t'.Node? && t'.red == t.red && t.n in m && t'.n in m' && m[t.n] == m'[t'.n]
    && (t'.l.Leaf? || Copied(t.l, t'.l, m, m')) && (t'.r.Leaf? || Copied(t.r, t'.r, m, m'))
    && (t'.r.Node? && t.l.Node? ==> t'.l.Node?)
  }

  /** The way back to the root in the original and in the copy. */
  ghost predicate GrowingCtx<N, T>(c: Ctx<N>, c': Ctx<N>, m: map<N, T>, m': map<N, T>)
    decreases c
  {
    match c
    case Top => c'.Top?
    case In(d, red, n, sib, up) =>
      && c'.In? && c'.d == d && c'.red == red && n in m && c'.n in m' && m[n] == m'[c'.n]
      && (if d then Copied(sib, c'.sib, m, m') else c'.sib.Leaf?)
      && GrowingCtx(up, c'.up, m, m')
  }

  /** Storing something in a new node does not matter to the others. */
  lemma {:induction false} CopiedFrame<N, T>(t: Tree<N>, t': Tree<N>, m: map<N, T>, m': map<N, T>, x: N, v: T)
    requires Copied(t, t', m, m') && x !in m'
    ensures Copied(t, t', m, m'[x := v])
    decreases t
  {
    if t.Node? {
      CopiedFrame(t.l, t'.l, m, m', x, v);
      CopiedFrame(t.r, t'.r, m, m', x, v);
    }
  }

  lemma {:induction false} CtxFrameCopy<N, T>(c: Ctx<N>, c': Ctx<N>, m: map<N, T>, m': map<N, T>, x: N, v: T)
    requires GrowingCtx(c, c', m, m') && x !in m'
    ensures GrowingCtx(c, c', m, m'[x := v])
    decreases c
  {
    if c.In? {
      if c.d { CopiedFrame(c.sib, c'.sib, m, m', x, v); }
      CtxFrameCopy(c.up, c'.up, m, m', x, v);
    }
  }

  /** A single black node. */
  lemma OneNode<N>(x: N, s: N)
    requires x != s
    ensures Zip(Top, Node(false, x, Leaf, Leaf), s, map[x := Cell(false, s, s, s)], x)
    ensures Nodes(Plug(Top, Node(false, x, Leaf, Leaf))) == {x}
  {
    assert Nodes(Node(false, x, Leaf, Leaf)) == {x};
  }

  /** Going down to a child that the copy does not have yet. */
  lemma GrowDown<N, T>(c: Ctx<N>, t: Tree<N>, c': Ctx<N>, t': Tree<N>, d: bool, x: N, m: map<N, T>, m': map<N, T>)
    requires GrowingCtx(c, c', m, m') && Growing(t, t', m, m') && x !in m'
    requires Kid(t, d).Node? && Kid(t', d).Leaf? && (d && t.l.Node? ==> t'.l.Node?) && Kid(t, d).n in m
    ensures var k := Kid(t, d); var m'' := m'[x := m[k.n]];
      && GrowingCtx(In(d, t.red, t.n, Kid(t, !d), c), In(d, t'.red, t'.n, Kid(t', !d), c'), m, m'')
      && Growing(k, Node(k.red, x, Leaf, Leaf), m, m'')
  {
    var v := m[Kid(t, d).n];
    CtxFrameCopy(c, c', m, m', x, v);
    if t'.l.Node? { CopiedFrame(t.l, t'.l, m, m', x, v); }
  }

  /** When no child is missing the copy is complete, and the focus goes back up. */
  lemma GrowUp<N, T>(c: Ctx<N>, t: Tree<N>, c': Ctx<N>, t': Tree<N>, m: map<N, T>, m': map<N, T>)
    requires GrowingCtx(c, c', m, m') && Growing(t, t', m, m')
    requires (t.l.Node? ==> t'.l.Node?) && (t.r.Node? ==> t'.r.Node?)
    ensures Copied(t, t', m, m')
    ensures c.In? ==> c'.In? && GrowingCtx(c.up, c'.up, m, m')
    ensures c.In? ==> Growing(Make(c.d, c.red, c.n, t, c.sib), Make(c'.d, c'.red, c'.n, t', c'.sib), m, m')
  {
  }

  // ---------------------------------------------------------------- counting what is left to copy

  function Count<N>(t: Tree<N>): nat {
    if t.Leaf? then 0 else 1 + Count(t.l) + Count(t.r)
  }

  function CtxCount<N>(c: Ctx<N>): nat {
    if c.Top? then 0 else 1 + Count(c.sib) + CtxCount(c.up)
  }

  /** How many nodes the copy still lacks. */
  function Lacking<N>(c: Ctx<N>, t: Tree<N>, c': Ctx<N>, t': Tree<N>): int {
    Count(t) + CtxCount(c) - Count(t') - CtxCount(c')
  }

  lemma {:induction false} CopiedCount<N, T>(t: Tree<N>, t': Tree<N>, m: map<N, T>, m': map<N, T>)
    requires Copied(t, t', m, m')
    ensures Count(t') == Count(t)
    decreases t
  {
    if t.Node? {
      CopiedCount(t.l, t'.l, m, m');
      CopiedCount(t.r, t'.r, m, m');
    }
  }

  /** Where a child is missing, the copy is smaller. */
  lemma LackSome<N, T>(c: Ctx<N>, t: Tree<N>, c': Ctx<N>, t': Tree<N>, d: bool, m: map<N, T>, m': map<N, T>)
    requires GrowingCtx(c, c', m, m') && Growing(t, t', m, m') && Kid(t, d).Node? && Kid(t', d).Leaf?
    ensures Lacking(c, t, c', t') >= 1
  {
    GrowingCtxCount(c, c', m, m');
    if t'.l.Node? { CopiedCount(t.l, t'.l, m, m'); }
    assert Count(Kid(t', d)) < Count(Kid(t, d)) && Count(Kid(t', !d)) <= Count(Kid(t, !d));
  }

  lemma {:induction false} PlugCount<N>(c: Ctx<N>, t: Tree<N>)
    ensures Count(Plug(c, t)) == Count(t) + CtxCount(c)
    decreases c
  {
    if c.In? { PlugCount(c.up, Make(c.d, c.red, c.n, t, c.sib)); }
  }

  lemma {:induction false} CountNodes<N>(t: Tree<N>)
    requires Distinct(t)
    ensures |Nodes(t)| == Count(t)
    decreases t
  {
    if t.Node? {
      CountNodes(t.l);
      CountNodes(t.r);
      assert |Nodes(t.l) + Nodes(t.r)| == |Nodes(t.l)| + |Nodes(t.r)|;
    }
  }

  lemma {:induction false} InorderCount<N>(t: Tree<N>)
    ensures |Inorder(t)| == Count(t)
    decreases t
  {
    if t.Node? {
      InorderCount(t.l);
      InorderCount(t.r);
    }
  }

  lemma {:induction false} GrowingCtxCount<N, T>(c: Ctx<N>, c': Ctx<N>, m: map<N, T>, m': map<N, T>)
    requires GrowingCtx(c, c', m, m')
    ensures CtxCount(c') <= CtxCount(c)
    decreases c
  {
    if c.In? {
      GrowingCtxCount(c.up, c'.up, m, m');
      if c.d { CopiedCount(c.sib, c'.sib, m, m'); }
    }
  }

  // ---------------------------------------------------------------- what a copy has in common

  lemma {:induction false} CopiedRb<N, T>(t: Tree<N>, t': Tree<N>, m: map<N, T>, m': map<N, T>, h: nat)
    requires Copied(t, t', m, m') && Rb(t, h)
    ensures Rb(t', h) && IsBlack(t') == IsBlack(t)
    decreases t
  {
    if t.Node? {
      CopiedRb(t.l, t'.l, m, m', if t.red then h else h - 1);
      CopiedRb(t.r, t'.r, m, m', if t.red then h else h - 1);
    }
  }

  /** Node by node, in order, the copy stores the same. */
  lemma {:induction false} CopiedOrder<N, T>(t: Tree<N>, t': Tree<N>, m: map<N, T>, m': map<N, T>)
    requires Copied(t, t', m, m')
    ensures |Inorder(t')| == |Inorder(t)|
    ensures forall i | 0 <= i < |Inorder(t)| :: Inorder(t)[i] in m && Inorder(t')[i] in m' && m[Inorder(t)[i]] == m'[Inorder(t')[i]]
    decreases t
  {
    if t.Node? {
      CopiedOrder(t.l, t'.l, m, m');
      CopiedOrder(t.r, t'.r, m, m');
    }
  }
}
