/**
 How a tree lies in memory.  `cells` gives the link fields of every node; a tree has the shape that
 the cells describe when every node's cell holds its colour, its parent and its children, with the
 sentinel for a missing one.  Everything here is about values: the class in OrderedMap.dfy keeps
 `cells` equal to the fields of its nodes.
 */
module RbShape {
  import opened RbTree

  /** The link fields of a node. */
  datatype Cell<N> = Cell(red: bool, parent: N, kid0: N, kid1: N)

  function GetKid<N>(c: Cell<N>, d: bool): N {
    if d then c.kid1 else c.kid0
  }

  function SetKid<N>(c: Cell<N>, d: bool, v: N): Cell<N> {
    if d then c.(kid1 := v) else c.(kid0 := v)
  }

  /** The cell of a node whose child `d` is `a` and whose other child is `b`. */
  function MakeCell<N>(d: bool, red: bool, parent: N, a: N, b: N): Cell<N> {
    if d then Cell(red, parent, b, a) else Cell(red, parent, a, b)
  }

  function RootOf<N>(t: Tree<N>, s: N): N {
    if t.Leaf? then s else t.n
  }

  function ParentOf<N>(c: Ctx<N>, s: N): N {
    if c.Top? then s else c.n
  }

  function Nodes<N(==)>(t: Tree<N>): set<N> {
    match t
    case Leaf => {}
    case Node(_, n, l, r) => {n} + Nodes(l) + Nodes(r)
  }

  function CtxNodes<N(==)>(c: Ctx<N>): set<N> {
    match c
    case Top => {}
    case In(_, _, n, sib, up) => {n} + Nodes(sib) + CtxNodes(up)
  }

  /** No node occurs twice. */
  predicate Distinct<N(==)>(t: Tree<N>) {
    t.Leaf? || (t.n !in Nodes(t.l) && t.n !in Nodes(t.r) && Nodes(t.l) !! Nodes(t.r) && Distinct(t.l) && Distinct(t.r))
  }

  predicate CtxDistinct<N(==)>(c: Ctx<N>) {
    c.Top? || (c.n !in Nodes(c.sib) && c.n !in CtxNodes(c.up) && Nodes(c.sib) !! CtxNodes(c.up)
               && Distinct(c.sib) && CtxDistinct(c.up))
  }

  /** The cells describe the tree `t` hanging below `p`. */
  ghost predicate Shaped<N>(t: Tree<N>, p: N, s: N, cells: map<N, Cell<N>>) {
    match t
    case Leaf => true
    case Node(red, n, l, r) =>
      && n != s && n in cells && cells[n] == Cell(red, p, RootOf(l, s), RootOf(r, s))
      && Shaped(l, n, s, cells) && Shaped(r, n, s, cells)
  }

  /** The cells describe the context `c` with the node `hole` in its hole and `root` at the top. */
  ghost predicate CtxShaped<N>(c: Ctx<N>, hole: N, s: N, cells: map<N, Cell<N>>, root: N)
    decreases c
  {
    match c
    case Top => root == hole
    case In(d, red, n, sib, up) =>
      && n != s && n in cells && cells[n] == MakeCell(d, red, ParentOf(up, s), hole, RootOf(sib, s))
      && Shaped(sib, n, s, cells) && CtxShaped(up, n, s, cells, root)
  }

  /** The whole: a tree and the context around it, apart from each other and without repetition. */
  ghost predicate Zip<N>(c: Ctx<N>, t: Tree<N>, s: N, cells: map<N, Cell<N>>, root: N) {
    && Shaped(t, ParentOf(c, s), s, cells) && CtxShaped(c, RootOf(t, s), s, cells, root)
    && Distinct(t) && CtxDistinct(c) && Nodes(t) !! CtxNodes(c)
    && Nodes(t) + CtxNodes(c) <= cells.Keys && s !in cells
  }

  // ---------------------------------------------------------------- moving the focus

  /** The focus moves up to the parent and back. */
  lemma ZipUp<N>(d: bool, red: bool, n: N, sib: Tree<N>, up: Ctx<N>, t: Tree<N>, s: N, cells: map<N, Cell<N>>, root: N)
    ensures Zip(In(d, red, n, sib, up), t, s, cells, root) <==> Zip(up, Make(d, red, n, t, sib), s, cells, root)
  {
    var c, u := In(d, red, n, sib, up), Make(d, red, n, t, sib);
    assert Nodes(u) == {n} + Nodes(t) + Nodes(sib);
    assert Nodes(t) + CtxNodes(c) == Nodes(u) + CtxNodes(up);
  }

  /** The focus moves to the sibling. */
  lemma ZipAside<N>(d: bool, red: bool, n: N, x: Tree<N>, y: Tree<N>, up: Ctx<N>, s: N, cells: map<N, Cell<N>>, root: N)
    ensures Zip(In(d, red, n, y, up), x, s, cells, root) <==> Zip(In(!d, red, n, x, up), y, s, cells, root)
  {
    ZipUp(d, red, n, y, up, x, s, cells, root);
    ZipUp(!d, red, n, x, up, y, s, cells, root);
  }

  /** Below a node, the root is another node. */
  lemma {:induction false} RootAbove<N>(c: Ctx<N>, hole: N, s: N, cells: map<N, Cell<N>>, root: N)
    requires CtxShaped(c, hole, s, cells, root) && c.In?
    ensures root in CtxNodes(c)
    decreases c
  {
    if c.up.In? { RootAbove(c.up, c.n, s, cells, root); }
  }

  /** All zippers of a tree are the same memory. */
  lemma {:induction false} ZipWhole<N>(c: Ctx<N>, t: Tree<N>, s: N, cells: map<N, Cell<N>>, root: N)
    ensures Zip(c, t, s, cells, root) <==> Zip(Top, Plug(c, t), s, cells, root)
    decreases c
  {
    match c
    case Top =>
    case In(d, red, n, sib, up) =>
      ZipUp(d, red, n, sib, up, t, s, cells, root);
      ZipWhole(up, Make(d, red, n, t, sib), s, cells, root);
  }

  /** What the cells of the parent and of the sibling say. */
  lemma ParentCell<N>(c: Ctx<N>, t: Tree<N>, s: N, cells: map<N, Cell<N>>, root: N)
    requires Zip(c, t, s, cells, root) && c.In?
    ensures c.n in cells && cells[c.n] == MakeCell(c.d, c.red, ParentOf(c.up, s), RootOf(t, s), RootOf(c.sib, s))
    ensures c.n != s && (c.up.In? ==> c.up.n in cells && c.up.n != s)
    ensures c.sib.Node? ==> c.sib.n != s && c.sib.n in cells
    ensures c.sib.Node? ==> cells[c.sib.n] == Cell(c.sib.red, c.n, RootOf(c.sib.l, s), RootOf(c.sib.r, s))
    ensures t.Node? || c.sib.Node? ==> RootOf(t, s) != RootOf(c.sib, s)
  {
    if c.sib.Node? { assert c.sib.n in CtxNodes(c); }
  }

  /** What the cell of the node in focus says. */
  lemma FocusCell<N>(c: Ctx<N>, t: Tree<N>, s: N, cells: map<N, Cell<N>>, root: N)
    requires Zip(c, t, s, cells, root) && t.Node?
    ensures t.n != s && t.n in cells && cells[t.n] == Cell(t.red, ParentOf(c, s), RootOf(t.l, s), RootOf(t.r, s))
    ensures t.l.Node? ==> t.l.n in cells && t.l.n != s
    ensures t.r.Node? ==> t.r.n in cells && t.r.n != s
  {
  }

  /** What the cells of a node's children say about their colours. */
  lemma KidColours<N>(t: Tree<N>, p: N, s: N, cells: map<N, Cell<N>>)
    requires Shaped(t, p, s, cells) && t.Node?
    ensures cells[t.n].kid0 == RootOf(t.l, s) && cells[t.n].kid1 == RootOf(t.r, s)
    ensures var k := RootOf(t.l, s); (k == s || k in cells) && ((k == s || !cells[k].red) <==> IsBlack(t.l))
    ensures var k := RootOf(t.r, s); (k == s || k in cells) && ((k == s || !cells[k].red) <==> IsBlack(t.r))
  {
  }

  /** What the loop conditions of the fix-up functions read. */
  lemma UpGuard<N>(c: Ctx<N>, t: Tree<N>, s: N, cells: map<N, Cell<N>>, root: N)
    requires Zip(c, t, s, cells, root)
    ensures RootOf(t, s) == root <==> c.Top?
    ensures t.Node? ==> t.n in cells && t.n != s && cells[t.n].parent == ParentOf(c, s) && cells[t.n].red == t.red
    ensures c.In? ==> c.n in cells && c.n != s && cells[c.n].red == c.red
  {
    if c.In? { RootAbove(c, RootOf(t, s), s, cells, root); }
  }

  lemma {:induction false} PlugNodes<N>(c: Ctx<N>, t: Tree<N>)
    ensures Nodes(Plug(c, t)) == Nodes(t) + CtxNodes(c)
    decreases c
  {
    if c.In? { PlugNodes(c.up, Make(c.d, c.red, c.n, t, c.sib)); }
  }

  lemma KidNodes<N>(c: Ctx<N>, t: Tree<N>, d: bool, red: bool, x: N)
    requires t.Node? && Kid(t, d).Leaf?
    ensures Nodes(Plug(In(d, t.red, t.n, Kid(t, !d), c), Node(red, x, Leaf, Leaf))) == Nodes(Plug(c, t)) + {x}
  {
    var u := In(d, t.red, t.n, Kid(t, !d), c);
    PlugNodes(u, Leaf);
    PlugNodes(u, Node(red, x, Leaf, Leaf));
  }

  // ---------------------------------------------------------------- what a write leaves alone

  ghost predicate Same<N>(a: map<N, Cell<N>>, b: map<N, Cell<N>>, xs: set<N>) {
    forall x | x in xs :: x in a && x in b && a[x] == b[x]
  }

  lemma SameOn<N>(a: map<N, Cell<N>>, b: map<N, Cell<N>>, changed: set<N>, xs: set<N>)
    requires Same(a, b, a.Keys - changed) && xs <= a.Keys && xs !! changed
    ensures Same(a, b, xs)
  {
    forall x | x in xs ensures x in a && x in b && a[x] == b[x] { assert x in a.Keys - changed; }
  }

  lemma {:induction false} TreeFrame<N>(t: Tree<N>, p: N, s: N, a: map<N, Cell<N>>, b: map<N, Cell<N>>)
    requires Shaped(t, p, s, a) && Same(a, b, Nodes(t))
    ensures Shaped(t, p, s, b)
    decreases t
  {
    if t.Node? {
      TreeFrame(t.l, t.n, s, a, b);
      TreeFrame(t.r, t.n, s, a, b);
    }
  }

  /** A subtree whose root is hung below another parent. */
  lemma Rehang<N>(t: Tree<N>, p: N, p': N, s: N, a: map<N, Cell<N>>, b: map<N, Cell<N>>)
    requires Shaped(t, p, s, a) && Distinct(t)
    requires t.Node? ==> t.n in b && b[t.n] == a[t.n].(parent := p') && Same(a, b, Nodes(t) - {t.n})
    ensures Shaped(t, p', s, b)
  {
    if t.Node? {
      TreeFrame(t.l, t.n, s, a, b);
      TreeFrame(t.r, t.n, s, a, b);
    }
  }

  lemma {:induction false} CtxFrame<N>(c: Ctx<N>, hole: N, s: N, a: map<N, Cell<N>>, b: map<N, Cell<N>>, root: N)
    requires CtxShaped(c, hole, s, a, root) && Same(a, b, CtxNodes(c))
    ensures CtxShaped(c, hole, s, b, root)
    decreases c
  {
    if c.In? {
      TreeFrame(c.sib, c.n, s, a, b);
      CtxFrame(c.up, c.n, s, a, b, root);
    }
  }

  /** Another node is put into the hole: the parent's child pointer, or the root pointer, changes. */
  lemma Refill<N>(c: Ctx<N>, hole: N, hole': N, s: N, a: map<N, Cell<N>>, b: map<N, Cell<N>>, root: N, root': N)
    requires CtxShaped(c, hole, s, a, root) && CtxDistinct(c)
    requires c.Top? ==> root' == hole'
    requires c.In? ==>
      && root' == root && c.n in b && b[c.n] == SetKid(a[c.n], c.d, hole') && Same(a, b, CtxNodes(c) - {c.n})
    ensures CtxShaped(c, hole', s, b, root')
  {
    if c.In? {
      TreeFrame(c.sib, c.n, s, a, b);
      CtxFrame(c.up, c.n, s, a, b, root);
    }
  }

  // ---------------------------------------------------------------- colours

  /** Writing the colour of the node in focus. */
  lemma RecolorZip<N>(c: Ctx<N>, t: Tree<N>, red: bool, s: N, cells: map<N, Cell<N>>, root: N)
    requires Zip(c, t, s, cells, root) && t.Node?
    ensures Zip(c, t.(red := red), s, cells[t.n := cells[t.n].(red := red)], root)
  {
    var b := cells[t.n := cells[t.n].(red := red)];
    TreeFrame(t.l, t.n, s, cells, b);
    TreeFrame(t.r, t.n, s, cells, b);
    CtxFrame(c, t.n, s, cells, b, root);
  }

  /** One node of a shaped tree, seen from direction `d`. */
  lemma Unfold<N>(t: Tree<N>, d: bool, p: N, s: N, cells: map<N, Cell<N>>)
    requires Shaped(t, p, s, cells) && Distinct(t) && t.Node?
    ensures var x, y := Kid(t, d), Kid(t, !d);
      && t.n != s && t.n in cells && cells[t.n] == MakeCell(d, t.red, p, RootOf(x, s), RootOf(y, s))
      && Shaped(x, t.n, s, cells) && Shaped(y, t.n, s, cells) && Distinct(x) && Distinct(y)
      && Nodes(t) == {t.n} + Nodes(x) + Nodes(y) && t.n !in Nodes(x) && t.n !in Nodes(y) && Nodes(x) !! Nodes(y)
  {
  }

  // ---------------------------------------------------------------- rotation

  /** The node's parent tells it apart from its sibling. */
  lemma WhichKid<N>(c: Ctx<N>, t: Tree<N>, s: N, cells: map<N, Cell<N>>, root: N)
    requires Zip(c, t, s, cells, root) && t.Node?
    ensures cells[t.n].parent == ParentOf(c, s)
    ensures c.Top? <==> cells[t.n].parent == s
    ensures c.In? ==> c.n in cells && (cells[c.n].kid1 == t.n <==> c.d)
  {
    if c.In? && c.sib.Node? { assert c.sib.n in CtxNodes(c); }
  }

  /** The pointers that `cc_omap_rotate` follows lead to different nodes. */
  predicate CanRotate<N(==)>(a: map<N, Cell<N>>, n: N, dir: bool, s: N) {
    && s !in a && n in a
    && var m, p := GetKid(a[n], !dir), a[n].parent;
    && m in a && n != m
    && var x := GetKid(a[m], dir);
    && (x == s || (x in a && x != n && x != m))
    && (p == s || (p in a && p != n && p != m && p != x))
  }

  /** What its writes amount to. */
  ghost predicate RotatedCells<N>(a: map<N, Cell<N>>, b: map<N, Cell<N>>, n: N, dir: bool, s: N)
    requires CanRotate(a, n, dir, s)
  {
    var m, p := GetKid(a[n], !dir), a[n].parent;
    var x := GetKid(a[m], dir);
    && b.Keys == a.Keys
    && b[n] == SetKid(a[n], !dir, x).(parent := m) && b[m] == SetKid(a[m], dir, n).(parent := p)
    && (x != s ==> b[x] == a[x].(parent := n))
    && (p != s ==> b[p] == SetKid(a[p], n == a[p].kid1, m))
    && Same(a, b, a.Keys - {n, m, x, p})
  }

  /** The first half: the middle subtree changes sides, the child gets a new parent. */
  ghost predicate MiddleHung<N>(a: map<N, Cell<N>>, b: map<N, Cell<N>>, n: N, m: N, x: N, dir: bool, s: N)
    requires n in a && m in a && (x != s ==> x in a)
  {
    && b.Keys == a.Keys
    && b[n] == SetKid(a[n], !dir, x) && b[m] == a[m].(parent := a[n].parent)
    && (x != s ==> b[x] == a[x].(parent := n))
    && Same(a, b, a.Keys - {n, m, x})
  }

  /** The second half: the child takes the node's place. */
  ghost predicate ChildLifted<N>(a: map<N, Cell<N>>, b: map<N, Cell<N>>, n: N, m: N, p: N, dir: bool, s: N)
    requires n in a && m in a && (p != s ==> p in a)
  {
    && b.Keys == a.Keys
    && b[n] == a[n].(parent := m) && b[m] == SetKid(a[m], dir, n)
    && (p != s ==> b[p] == SetKid(a[p], n == a[p].kid1, m))
    && Same(a, b, a.Keys - {n, m, p})
  }

  lemma RotateHalves<N>(a: map<N, Cell<N>>, a': map<N, Cell<N>>, b: map<N, Cell<N>>, n: N, dir: bool, s: N)
    requires CanRotate(a, n, dir, s)
    requires var m := GetKid(a[n], !dir);
      MiddleHung(a, a', n, m, GetKid(a[m], dir), dir, s) && ChildLifted(a', b, n, m, a[n].parent, dir, s)
    ensures RotatedCells(a, b, n, dir, s)
  {
    var m, p := GetKid(a[n], !dir), a[n].parent;
    var x := GetKid(a[m], dir);
    SameOn(a, a', {n, m, x}, a.Keys - {n, m, x, p});
    SameOn(a', b, {n, m, p}, a.Keys - {n, m, x, p});
  }

  lemma RotatedCellsDo<N>(c: Ctx<N>, t: Tree<N>, dir: bool, s: N, a: map<N, Cell<N>>, root: N)
    requires Zip(c, t, s, a, root) && t.Node? && Kid(t, !dir).Node?
    ensures CanRotate(a, t.n, dir, s)
    ensures GetKid(a[t.n], !dir) == Kid(t, !dir).n && a[t.n].parent == ParentOf(c, s)
    ensures GetKid(a[Kid(t, !dir).n], dir) == RootOf(Kid(Kid(t, !dir), dir), s)
    ensures c.In? ==> c.n in a && (t.n == a[c.n].kid1 <==> c.d)
    ensures c.Top? <==> a[t.n].parent == s
    ensures var mid := Kid(Kid(t, !dir), dir); mid.Node? ==> mid.n in a && mid.n != s
  {
    var m := Kid(t, !dir);
    var mid, p := Kid(m, dir), ParentOf(c, s);
    Unfold(t, dir, p, s, a);
    Unfold(m, dir, t.n, s, a);
    WhichKid(c, t, s, a, root);
    assert c.In? ==> p in CtxNodes(c);
    assert mid.Node? ==> mid.n in Nodes(mid);
  }

  /** The writes of `cc_omap_rotate` at the node `t.n`, whose child away from `dir` is `m.n`. */
  ghost predicate Rotated<N>(c: Ctx<N>, t: Tree<N>, dir: bool, s: N, a: map<N, Cell<N>>, b: map<N, Cell<N>>, root: N, root': N)
    requires t.Node? && Kid(t, !dir).Node?
  {
    var m, p := Kid(t, !dir), ParentOf(c, s);
    var mid := Kid(m, dir);
    && b.Keys == a.Keys && t.n in a && m.n in a
    && b[t.n] == SetKid(a[t.n], !dir, RootOf(mid, s)).(parent := m.n)
    && b[m.n] == SetKid(a[m.n], dir, t.n).(parent := p)
    && (mid.Node? ==> mid.n in a && b[mid.n] == a[mid.n].(parent := t.n))
    && (c.In? ==> p in a && b[p] == SetKid(a[p], c.d, m.n))
    && Same(a, b, a.Keys - {t.n, m.n, RootOf(mid, s), p})
    && root' == if c.In? then root else m.n
  }

  lemma RotateSame<N>(a: map<N, Cell<N>>, b: map<N, Cell<N>>, n: N, m: N, x: N, p: N, s: N,
                      near: set<N>, mid: set<N>, far: set<N>, ctx: set<N>)
    requires Same(a, b, a.Keys - {n, m, x, p}) && s !in a
    requires near <= a.Keys && mid <= a.Keys && far <= a.Keys && ctx <= a.Keys
    requires near !! mid && near !! far && near !! ctx && mid !! far && mid !! ctx && far !! ctx
    requires {n, m} !! near && {n, m} !! mid && {n, m} !! far && {n, m} !! ctx
    requires (x in mid || x == s) && (p in ctx || p == s)
    ensures Same(a, b, near) && Same(a, b, far) && Same(a, b, mid - {x}) && Same(a, b, ctx - {p})
  {
    var changed := {n, m, x, p};
    SameOn(a, b, changed, near);
    SameOn(a, b, changed, far);
    SameOn(a, b, changed, mid - {x});
    SameOn(a, b, changed, ctx - {p});
  }

  /** The pieces of the rotated tree, in the new cells. */
  lemma RotatePieces<N>(c: Ctx<N>, t: Tree<N>, dir: bool, s: N, a: map<N, Cell<N>>, b: map<N, Cell<N>>, root: N, root': N)
    requires Zip(c, t, s, a, root) && t.Node? && Kid(t, !dir).Node?
    requires Rotated(c, t, dir, s, a, b, root, root')
    ensures var m := Kid(t, !dir);
      && Shaped(Kid(t, dir), t.n, s, b) && Shaped(Kid(m, dir), t.n, s, b) && Shaped(Kid(m, !dir), m.n, s, b)
      && Same(a, b, CtxNodes(c) - {ParentOf(c, s)})
  {
    var m, near := Kid(t, !dir), Kid(t, dir);
    var mid, far := Kid(m, dir), Kid(m, !dir);
    var p := ParentOf(c, s);
    Unfold(t, dir, p, s, a);
    Unfold(m, dir, t.n, s, a);
    assert c.In? ==> p in CtxNodes(c);
    assert mid.Node? ==> mid.n in Nodes(mid);
    RotateSame(a, b, t.n, m.n, RootOf(mid, s), p, s, Nodes(near), Nodes(mid), Nodes(far), CtxNodes(c));
    TreeFrame(near, t.n, s, a, b);
    TreeFrame(far, m.n, s, a, b);
    Rehang(mid, m.n, t.n, s, a, b);
  }

  lemma RotateZip<N>(c: Ctx<N>, t: Tree<N>, dir: bool, s: N, a: map<N, Cell<N>>, b: map<N, Cell<N>>, root: N, root': N)
    requires Zip(c, t, s, a, root) && t.Node? && Kid(t, !dir).Node?
    requires Rotated(c, t, dir, s, a, b, root, root')
    ensures Zip(c, Rotate(t, dir), s, b, root')
  {
    var m := Kid(t, !dir);
    RotatePieces(c, t, dir, s, a, b, root, root');
    Refill(c, t.n, m.n, s, a, b, root, root');
    RotateNodes(t, dir);
    assert Shaped(m, t.n, s, a);
  }

  lemma RotateNodes<N>(t: Tree<N>, dir: bool)
    requires t.Node? && Kid(t, !dir).Node? && Distinct(t)
    ensures Nodes(Rotate(t, dir)) == Nodes(t) && Distinct(Rotate(t, dir))
  {
    var m, near := Kid(t, !dir), Kid(t, dir);
    var mid, far := Kid(m, dir), Kid(m, !dir);
    var low := Make(dir, t.red, t.n, near, mid);
    assert Nodes(m) == {m.n} + Nodes(mid) + Nodes(far) && Distinct(m);
    assert Nodes(low) == {t.n} + Nodes(near) + Nodes(mid) && Distinct(low);
  }

  // ---------------------------------------------------------------- adding and removing nodes

  /** The pointer that leads to the hole is redirected to `x`. */
  ghost predicate Redirected<N>(c: Ctx<N>, x: N, s: N, a: map<N, Cell<N>>, b: map<N, Cell<N>>, root: N, root': N) {
    && (c.In? ==> c.n in a && c.n in b && b[c.n] == SetKid(a[c.n], c.d, x))
    && root' == if c.In? then root else x
  }

  /** A new node is hung into an empty place. */
  lemma AttachZip<N>(c: Ctx<N>, red: bool, x: N, s: N, a: map<N, Cell<N>>, b: map<N, Cell<N>>, root: N, root': N)
    requires Zip(c, Leaf, s, a, root) && x !in a && x != s
    requires b.Keys == a.Keys + {x} && b[x] == Cell(red, ParentOf(c, s), s, s)
    requires Redirected(c, x, s, a, b, root, root') && Same(a, b, a.Keys - {ParentOf(c, s)})
    ensures Zip(c, Node(red, x, Leaf, Leaf), s, b, root')
  {
    SameOn(a, b, {ParentOf(c, s)}, CtxNodes(c) - {ParentOf(c, s)});
    Refill(c, s, x, s, a, b, root, root');
  }

  lemma DetachApart<N>(c: Ctx<N>, y: Tree<N>, e: bool, s: N, a: map<N, Cell<N>>, root: N)
    requires Zip(c, y, s, a, root) && y.Node?
    ensures var x := RootOf(Kid(y, e), s); x != y.n && (c.In? ==> c.n in a && c.n != x && c.n != y.n)
  {
    Unfold(y, e, ParentOf(c, s), s, a);
    assert c.In? ==> c.n in CtxNodes(c);
  }

  /** A node with an empty side is cut out; its other child `x` takes its place. */
  lemma DetachZip<N>(c: Ctx<N>, y: Tree<N>, e: bool, s: N, a: map<N, Cell<N>>, b: map<N, Cell<N>>, root: N, root': N)
    requires Zip(c, y, s, a, root) && y.Node? && Kid(y, !e).Leaf?
    requires b.Keys == a.Keys
    requires var x := Kid(y, e);
      && (x.Node? ==> x.n in a && b[x.n] == a[x.n].(parent := ParentOf(c, s)))
      && Redirected(c, RootOf(x, s), s, a, b, root, root')
      && Same(a, b, a.Keys - {RootOf(x, s), ParentOf(c, s)})
    ensures Zip(c, Kid(y, e), s, b, root')
  {
    var x, p := Kid(y, e), ParentOf(c, s);
    var changed := {RootOf(x, s), p};
    Unfold(y, e, p, s, a);
    assert c.In? ==> p in CtxNodes(c);
    assert x.Node? ==> x.n in Nodes(x);
    SameOn(a, b, changed, Nodes(x) - {RootOf(x, s)});
    SameOn(a, b, changed, CtxNodes(c) - {p});
    Rehang(x, y.n, p, s, a, b);
    Refill(c, y.n, RootOf(x, s), s, a, b, root, root');
  }

  /** The pointers that are followed when `y` takes the place of `n` lead to different nodes. */
  predicate CanSupplant<N(==)>(a: map<N, Cell<N>>, n: N, y: N, s: N) {
    && s !in a && n in a && y in a && n != y
    && var Cell(_, p, l, r) := a[n];
    && (p == s || (p in a && p != n && p != y && p != l && p != r))
    && (l == s || (l in a && l != n && l != y && l != r))
    && (r == s || (r in a && r != n && r != y))
  }

  ghost predicate TookOver<N>(a: map<N, Cell<N>>, b: map<N, Cell<N>>, n: N, y: N, s: N)
    requires CanSupplant(a, n, y, s)
  {
    var Cell(_, p, l, r) := a[n];
    && b.Keys == a.Keys && b[y] == a[n]
    && (p != s ==> b[p] == SetKid(a[p], n == a[p].kid1, y))
    && (l != s ==> b[l] == a[l].(parent := y)) && (r != s ==> b[r] == a[r].(parent := y))
    && Same(a, b, a.Keys - {y, l, r, p})
  }

  lemma SupplantApart<N>(c: Ctx<N>, z: Tree<N>, y: N, s: N, a: map<N, Cell<N>>, root: N)
    requires Zip(c, z, s, a, root) && z.Node? && y in a && y !in Nodes(z) && y !in CtxNodes(c)
    ensures CanSupplant(a, z.n, y, s) && a[z.n] == Cell(z.red, ParentOf(c, s), RootOf(z.l, s), RootOf(z.r, s))
    ensures c.Top? <==> a[z.n].parent == s
    ensures c.In? ==> c.n in a && (a[c.n].kid1 == z.n <==> c.d)
  {
    WhichKid(c, z, s, a, root);
    assert z.l.Node? ==> z.l.n in Nodes(z.l) && z.l.n in a;
    assert z.r.Node? ==> z.r.n in Nodes(z.r) && z.r.n in a;
    assert c.In? ==> c.n in CtxNodes(c) && c.n in a;
  }

  lemma SupplantZip<N>(c: Ctx<N>, z: Tree<N>, y: N, s: N, a: map<N, Cell<N>>, b: map<N, Cell<N>>, root: N, root': N)
    requires Zip(c, z, s, a, root) && z.Node? && y in a && y !in Nodes(z) && y !in CtxNodes(c)
    requires CanSupplant(a, z.n, y, s) && TookOver(a, b, z.n, y, s)
    requires root' == if a[z.n].parent == s then y else root
    ensures Zip(c, Node(z.red, y, z.l, z.r), s, b, root')
  {
    SupplantApart(c, z, y, s, a, root);
    SupplantPieces(c, z, y, s, a, b, root);
    Refill(c, z.n, y, s, a, b, root, root');
  }

  lemma SupplantPieces<N>(c: Ctx<N>, z: Tree<N>, y: N, s: N, a: map<N, Cell<N>>, b: map<N, Cell<N>>, root: N)
    requires Zip(c, z, s, a, root) && z.Node? && y in a && y !in Nodes(z) && y !in CtxNodes(c)
    requires CanSupplant(a, z.n, y, s) && TookOver(a, b, z.n, y, s)
    ensures Shaped(z.l, y, s, b) && Shaped(z.r, y, s, b) && Same(a, b, CtxNodes(c) - {ParentOf(c, s)})
  {
    var p := ParentOf(c, s);
    var changed := {y, RootOf(z.l, s), RootOf(z.r, s), p};
    Unfold(z, false, p, s, a);
    assert c.In? ==> p in CtxNodes(c);
    assert z.l.Node? ==> z.l.n in Nodes(z.l);
    assert z.r.Node? ==> z.r.n in Nodes(z.r);
    SameOn(a, b, changed, Nodes(z.l) - {RootOf(z.l, s)});
    SameOn(a, b, changed, Nodes(z.r) - {RootOf(z.r, s)});
    SameOn(a, b, changed, CtxNodes(c) - {p});
    Rehang(z.l, z.n, y, s, a, b);
    Rehang(z.r, z.n, y, s, a, b);
  }

  lemma RotatedCellsZip<N>(c: Ctx<N>, t: Tree<N>, dir: bool, s: N, a: map<N, Cell<N>>, b: map<N, Cell<N>>, root: N, root': N)
    requires Zip(c, t, s, a, root) && t.Node? && Kid(t, !dir).Node?
    requires CanRotate(a, t.n, dir, s) && RotatedCells(a, b, t.n, dir, s)
    requires root' == if a[t.n].parent == s then GetKid(a[t.n], !dir) else root
    ensures Zip(c, Rotate(t, dir), s, b, root')
  {
    RotatedCellsDo(c, t, dir, s, a, root);
    RotateZip(c, t, dir, s, a, b, root, root');
  }

  /** After the rotation at the parent, the focus returns to the short tree two levels down. */
  lemma LowerZip<N>(c: Ctx<N>, x: Tree<N>, s: N, cells: map<N, Cell<N>>, root: N)
    requires c.In? && c.sib.Node?
    ensures Zip(In(c.d, true, c.n, Kid(c.sib, c.d), In(c.d, false, c.sib.n, Kid(c.sib, !c.d), c.up)), x, s, cells, root) <==>
            Zip(c.up, Make(c.d, false, c.sib.n, Make(c.d, true, c.n, x, Kid(c.sib, c.d)), Kid(c.sib, !c.d)), s, cells, root)
  {
    var u := In(c.d, false, c.sib.n, Kid(c.sib, !c.d), c.up);
    ZipUp(c.d, true, c.n, Kid(c.sib, c.d), u, x, s, cells, root);
    ZipUp(c.d, false, c.sib.n, Kid(c.sib, !c.d), c.up, Make(c.d, true, c.n, x, Kid(c.sib, c.d)), s, cells, root);
  }

  /** A node that is not part of the tree can be freed. */
  lemma FreeZip<N>(c: Ctx<N>, t: Tree<N>, n: N, s: N, cells: map<N, Cell<N>>, root: N)
    requires Zip(c, t, s, cells, root) && n !in Nodes(t) && n !in CtxNodes(c)
    ensures Zip(c, t, s, cells - {n}, root)
  {
    TreeFrame(t, ParentOf(c, s), s, cells, cells - {n});
    CtxFrame(c, RootOf(t, s), s, cells, cells - {n}, root);
  }
}
