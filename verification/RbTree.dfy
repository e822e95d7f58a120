/**
 Red-black trees as values, and the moves that the ordered map of cc_learn/cc.h makes on them.
 `N` stands for the identity of a node.  A direction is a bool, as in the source: false for
 children[0], true for children[1].  A context is a tree with one subtree taken out; the loops of
 the source walk up and down it.
 */
module RbTree {
  import opened Powers

  datatype Tree<N> = Leaf | Node(red: bool, n: N, l: Tree<N>, r: Tree<N>)

  /** `In(d, red, n, sib, up)`: the hole is child `d` of `n`, whose other child is `sib`. */
  datatype Ctx<N> = Top | In(d: bool, red: bool, n: N, sib: Tree<N>, up: Ctx<N>)

  function Kid<N>(t: Tree<N>, d: bool): Tree<N>
    requires t.Node?
  {
    if d then t.r else t.l
  }

  /** The node whose child `d` is `a` and whose other child is `b`. */
  function Make<N>(d: bool, red: bool, n: N, a: Tree<N>, b: Tree<N>): Tree<N> {
    if d then Node(red, n, b, a) else Node(red, n, a, b)
  }

  function Plug<N>(c: Ctx<N>, t: Tree<N>): Tree<N>
    decreases c
  {
    match c
    case Top => t
    case In(d, red, n, sib, up) => Plug(up, Make(d, red, n, t, sib))
  }

  lemma {:induction false} PlugNode<N>(c: Ctx<N>, t: Tree<N>)
    requires t.Node?
    ensures Plug(c, t).Node?
    decreases c
  {
    if c.In? { PlugNode(c.up, Make(c.d, c.red, c.n, t, c.sib)); }
  }

  /** How deep the hole is. */
  function Depth<N>(c: Ctx<N>): nat {
    if c.Top? then 0 else 1 + Depth(c.up)
  }

  // ---------------------------------------------------------------- contents

  function Inorder<N>(t: Tree<N>): seq<N> {
    match t
    case Leaf => []
    case Node(_, n, l, r) => Inorder(l) + [n] + Inorder(r)
  }

  /** What stands before the hole. */
  function Before<N>(c: Ctx<N>): seq<N> {
    match c
    case Top => []
    case In(d, _, n, sib, up) => if d then Before(up) + Inorder(sib) + [n] else Before(up)
  }

  function After<N>(c: Ctx<N>): seq<N> {
    match c
    case Top => []
    case In(d, _, n, sib, up) => if d then After(up) else [n] + Inorder(sib) + After(up)
  }

  lemma Regroup<N>(b: seq<N>, x: seq<N>, n: N, y: seq<N>, a: seq<N>)
    ensures b + (x + [n] + y) + a == (b + x + [n]) + y + a
    ensures b + (x + [n] + y) + a == b + x + ([n] + y + a)
    ensures b + (x + [n] + y) + a == (b + x) + [n] + (y + a)
  {
  }

  lemma {:induction false} PlugInorder<N>(c: Ctx<N>, t: Tree<N>)
    ensures Inorder(Plug(c, t)) == Before(c) + Inorder(t) + After(c)
    decreases c
  {
    match c
    case Top =>
    case In(d, red, n, sib, up) =>
      PlugInorder(up, Make(d, red, n, t, sib));
      if d {
        Regroup(Before(up), Inorder(sib), n, Inorder(t), After(up));
      } else {
        Regroup(Before(up), Inorder(t), n, Inorder(sib), After(up));
      }
  }

  /** What stands before and after the node at the top of the hole. */
  lemma PlugAround<N>(c: Ctx<N>, t: Tree<N>)
    requires t.Node?
    ensures Inorder(Plug(c, t)) == (Before(c) + Inorder(t.l)) + [t.n] + (Inorder(t.r) + After(c))
  {
    PlugInorder(c, t);
    Regroup(Before(c), Inorder(t.l), t.n, Inorder(t.r), After(c));
  }

  /** The hole after a node with an empty side was cut out. */
  lemma PlugKid<N>(c: Ctx<N>, t: Tree<N>, e: bool)
    requires t.Node? && Kid(t, !e).Leaf?
    ensures Inorder(Plug(c, Kid(t, e))) == (Before(c) + Inorder(t.l)) + (Inorder(t.r) + After(c))
  {
    PlugInorder(c, Kid(t, e));
  }

  /** A single node in the hole. */
  lemma PlugOne<N>(c: Ctx<N>, red: bool, n: N)
    ensures Inorder(Plug(c, Node(red, n, Leaf, Leaf))) == Before(c) + [n] + After(c)
    ensures Inorder(Plug(c, Leaf)) == Before(c) + After(c)
  {
    PlugInorder(c, Node(red, n, Leaf, Leaf));
    PlugInorder(c, Leaf);
    assert Inorder(Node(red, n, Leaf, Leaf)) == [n];
  }

  /** Number of nodes on the longest path. */
  function Height<N>(t: Tree<N>): nat {
    match t
    case Leaf => 0
    case Node(_, _, l, r) => 1 + if Height(l) >= Height(r) then Height(l) else Height(r)
  }

  // ---------------------------------------------------------------- colours

  predicate IsBlack<N>(t: Tree<N>) {
    t.Leaf? || !t.red
  }

  /** No red node has a red child, and every path down has `h` black nodes. */
  predicate Rb<N>(t: Tree<N>, h: nat) {
    match t
    case Leaf => h == 0
    case Node(red, _, l, r) =>
      if red then IsBlack(l) && IsBlack(r) && Rb(l, h) && Rb(r, h)
      else h > 0 && Rb(l, h - 1) && Rb(r, h - 1)
  }

  /** The context is red-black around a hole of black height `h`; a red node has a black parent. */
  predicate RbCtx<N>(c: Ctx<N>, h: nat)
    decreases c
  {
    match c
    case Top => true
    case In(_, red, _, sib, up) =>
      && Rb(sib, h)
      && (red ==> IsBlack(sib) && up.In? && !up.red)
      && RbCtx(up, if red then h else h + 1)
  }

  predicate RedAbove<N>(c: Ctx<N>) {
    c.In? && c.red
  }

  function Blacken<N>(t: Tree<N>): Tree<N> {
    if t.Leaf? then Leaf else t.(red := false)
  }

  function BlackHeight<N>(t: Tree<N>): nat {
    match t
    case Leaf => 0
    case Node(red, _, l, _) => BlackHeight(l) + if red then 0 else 1
  }

  /** A red-black tree: black root, no red-red edge, equal black heights. */
  predicate RedBlack<N>(t: Tree<N>) {
    IsBlack(t) && Rb(t, BlackHeight(t))
  }

  lemma {:induction false} RbHeight<N>(t: Tree<N>, h: nat)
    requires Rb(t, h)
    ensures h == BlackHeight(t)
    decreases t
  {
    if t.Node? { RbHeight(t.l, if t.red then h else h - 1); }
  }

  /** Good parts make a good whole. */
  lemma {:induction false} PlugRb<N>(c: Ctx<N>, t: Tree<N>, h: nat)
    requires RbCtx(c, h) && Rb(t, h) && (RedAbove(c) ==> IsBlack(t)) && (c.Top? ==> IsBlack(t))
    ensures RedBlack(Plug(c, t))
    decreases c
  {
    match c
    case Top => RbHeight(t, h);
    case In(d, red, n, sib, up) => PlugRb(up, Make(d, red, n, t, sib), if red then h else h + 1);
  }

  /** A good whole has good parts. */
  lemma {:induction false} UnplugRb<N>(c: Ctx<N>, t: Tree<N>) returns (h: nat)
    requires RedBlack(Plug(c, t))
    ensures RbCtx(c, h) && Rb(t, h) && (RedAbove(c) ==> IsBlack(t)) && (c.Top? ==> IsBlack(t))
    decreases c
  {
    match c
    case Top => h := BlackHeight(t);
    case In(d, red, n, sib, up) =>
      var h' := UnplugRb(up, Make(d, red, n, t, sib));
      h := if red then h' else h' - 1;
  }

  /** The red-black rules do not depend on which node stands where. */
  lemma RenameRb<N>(c: Ctx<N>, t: Tree<N>, n: N)
    requires t.Node? && RedBlack(Plug(c, t))
    ensures RedBlack(Plug(c, t.(n := n)))
  {
    var h := UnplugRb(c, t);
    PlugRb(c, t.(n := n), h);
  }

  // ---------------------------------------------------------------- height

  lemma {:induction false} RbSize<N>(t: Tree<N>, h: nat)
    requires Rb(t, h)
    ensures Pow2(h) <= |Inorder(t)| + 1
    ensures Height(t) <= 2 * h + if IsBlack(t) then 0 else 1
    decreases t
  {
    if t.Node? {
      var h' := if t.red then h else h - 1;
      RbSize(t.l, h');
      RbSize(t.r, h');
    }
  }

  /** The height is at most twice the logarithm of the size. */
  lemma HeightBound<N>(t: Tree<N>)
    requires RedBlack(t)
    ensures Pow2(Height(t)) <= (|Inorder(t)| + 1) * (|Inorder(t)| + 1)
    ensures Pow2(Height(t) / 2) <= |Inorder(t)| + 1
  {
    var h, n := BlackHeight(t), |Inorder(t)| + 1;
    RbSize(t, h);
    Pow2Grows(Height(t) / 2, h);
    Pow2Grows(Height(t), h + h);
    Pow2Sum(h, h);
    Squares(Pow2(h), n);
  }

  lemma Squares(a: nat, b: nat)
    requires a <= b
    ensures a * a <= b * b
  {
  }

  // ---------------------------------------------------------------- rotation

  /** `cc_omap_rotate`: the child away from `dir` comes up, the node goes down to side `dir`. */
  function Rotate<N>(t: Tree<N>, dir: bool): Tree<N>
    requires t.Node? && Kid(t, !dir).Node?
  {
    var m := Kid(t, !dir);
    Make(dir, m.red, m.n, Make(dir, t.red, t.n, Kid(t, dir), Kid(m, dir)), Kid(m, !dir))
  }

  lemma RotateInorder<N>(t: Tree<N>, dir: bool)
    requires t.Node? && Kid(t, !dir).Node?
    ensures Inorder(Rotate(t, dir)) == Inorder(t)
  {
    var m := Kid(t, !dir);
    if dir {
      assert Inorder(t) == Inorder(m.l) + [m.n] + Inorder(m.r) + [t.n] + Inorder(t.r);
      assert Inorder(Rotate(t, dir)) == Inorder(m.l) + [m.n] + (Inorder(m.r) + [t.n] + Inorder(t.r));
    } else {
      assert Inorder(t) == Inorder(t.l) + [t.n] + (Inorder(m.l) + [m.n] + Inorder(m.r));
      assert Inorder(Rotate(t, dir)) == Inorder(t.l) + [t.n] + Inorder(m.l) + [m.n] + Inorder(m.r);
    }
  }
}
