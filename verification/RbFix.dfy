/**
 The steps of the two fix-up loops of the ordered map, as functions on a tree and the context
 around it, and why they restore the red-black rules (cc_learn/cc.h:4420-4453, 4604-4653).
 */
module RbFix {
  import opened RbTree

  // ---------------------------------------------------------------- after an insertion

  /** The tree in focus is red; it is the only node that may have a red parent. */
  predicate InsertInv<N>(c: Ctx<N>, t: Tree<N>, h: nat) {
    t.Node? && t.red && Rb(t, h) && RbCtx(c, h)
  }

  /** A red parent has a black parent. */
  predicate RedParent<N>(c: Ctx<N>) {
    c.In? && c.red && c.up.In? && !c.up.red
  }

  lemma RedAboveHasParent<N>(c: Ctx<N>, h: nat)
    requires RbCtx(c, h) && RedAbove(c)
    ensures RedParent(c)
  {
  }

  /** The subtree at the grandparent. */
  function Grand<N>(c: Ctx<N>, t: Tree<N>): Tree<N>
    requires RedParent(c)
  {
    Make(c.up.d, c.up.red, c.up.n, Make(c.d, c.red, c.n, t, c.sib), c.up.sib)
  }

  /** Red uncle: parent and uncle turn black, the grandparent red, and the problem moves there. */
  function PushUp<N>(c: Ctx<N>, t: Tree<N>): Tree<N>
    requires RedParent(c)
  {
    Make(c.up.d, true, c.up.n, Make(c.d, false, c.n, t, c.sib), Blacken(c.up.sib))
  }

  lemma PushUpOk<N>(c: Ctx<N>, t: Tree<N>, h: nat)
    requires InsertInv(c, t, h) && RedParent(c) && !IsBlack(c.up.sib)
    ensures InsertInv(c.up.up, PushUp(c, t), h + 1)
    ensures Inorder(PushUp(c, t)) == Inorder(Grand(c, t))
  {
    assert RbCtx(c.up, h);
  }

  /** Black uncle, inner grandchild: a rotation makes it an outer one; the old parent is in focus. */
  function TurnTree<N>(c: Ctx<N>, t: Tree<N>): Tree<N>
    requires RedParent(c) && t.Node?
  {
    Make(c.up.d, true, c.n, c.sib, Kid(t, c.up.d))
  }

  function TurnCtx<N>(c: Ctx<N>, t: Tree<N>): Ctx<N>
    requires RedParent(c) && t.Node?
  {
    In(c.up.d, true, t.n, Kid(t, !c.up.d), c.up)
  }

  lemma TurnOk<N>(c: Ctx<N>, t: Tree<N>, h: nat)
    requires InsertInv(c, t, h) && RedParent(c) && c.d != c.up.d
    ensures InsertInv(TurnCtx(c, t), TurnTree(c, t), h) && RedParent(TurnCtx(c, t)) && TurnCtx(c, t).up == c.up
    ensures Rotate(Make(c.d, true, c.n, t, c.sib), c.up.d) == Make(c.up.d, true, t.n, TurnTree(c, t), Kid(t, !c.up.d))
  {
    assert RbCtx(c.up, h);
  }

  /** Black uncle, outer grandchild: parent and grandparent swap colours and places. */
  function SettleCtx<N>(c: Ctx<N>): Ctx<N>
    requires RedParent(c)
  {
    In(c.d, false, c.n, Make(!c.d, true, c.up.n, c.up.sib, c.sib), c.up.up)
  }

  lemma SettleOk<N>(c: Ctx<N>, t: Tree<N>, h: nat)
    requires InsertInv(c, t, h) && RedParent(c) && c.d == c.up.d && IsBlack(c.up.sib)
    ensures InsertInv(SettleCtx(c), t, h) && !RedAbove(SettleCtx(c))
    ensures Rotate(Make(c.d, true, c.up.n, Make(c.d, false, c.n, t, c.sib), c.up.sib), !c.d)
            == Make(c.d, false, c.n, t, Make(!c.d, true, c.up.n, c.up.sib, c.sib))
  {
    assert RbCtx(c.up, h);
  }

  lemma TurnOrder<N>(c: Ctx<N>, t: Tree<N>, h: nat)
    requires InsertInv(c, t, h) && RedParent(c) && c.d != c.up.d
    ensures InsertInv(TurnCtx(c, t), TurnTree(c, t), h) && RedParent(TurnCtx(c, t)) && TurnCtx(c, t).up == c.up
    ensures Inorder(Plug(TurnCtx(c, t), TurnTree(c, t))) == Inorder(Plug(c, t))
    ensures Depth(TurnCtx(c, t)) == Depth(c)
  {
    TurnOk(c, t, h);
    var p := Make(c.d, true, c.n, t, c.sib);
    RotateInorder(p, c.up.d);
    SameOrder(c.up, p, Rotate(p, c.up.d));
  }

  lemma SettleOrder<N>(c: Ctx<N>, t: Tree<N>, h: nat)
    requires InsertInv(c, t, h) && RedParent(c) && c.d == c.up.d && IsBlack(c.up.sib)
    ensures InsertInv(SettleCtx(c), t, h) && Depth(SettleCtx(c)) < Depth(c)
    ensures Inorder(Plug(SettleCtx(c), t)) == Inorder(Plug(c, t))
  {
    SettleOk(c, t, h);
    var p := Make(c.d, true, c.up.n, Make(c.d, false, c.n, t, c.sib), c.up.sib);
    RotateInorder(p, !c.d);
    SameOrder(c.up.up, p, Rotate(p, !c.d));
    SameOrder(c.up.up, Grand(c, t), p);
  }

  /** Blackening the root ends the repair. */
  lemma InsertDone<N>(c: Ctx<N>, t: Tree<N>, h: nat)
    requires InsertInv(c, t, h) && !RedAbove(c)
    ensures RedBlack(Blacken(Plug(c, t)))
    ensures Inorder(Blacken(Plug(c, t))) == Inorder(Plug(c, t))
  {
    if c.Top? {
      RbHeight(Blacken(t), h + 1);
    } else {
      PlugRb(c, t, h);
    }
  }

  // ---------------------------------------------------------------- after a removal

  /** The tree in focus is one black node short; if it is red, blackening it is the cure. */
  predicate EraseInv<N>(c: Ctx<N>, x: Tree<N>, h: nat) {
    RbCtx(c, h + 1) && if IsBlack(x) then Rb(x, h) else Rb(Blacken(x), h + 1)
  }

  /** Cutting a node out of a red-black tree leaves at most its own blackness missing. */
  lemma CutOut<N>(c: Ctx<N>, y: Tree<N>, e: bool) returns (h: nat)
    requires RedBlack(Plug(c, y)) && y.Node? && Kid(y, !e).Leaf?
    ensures y.red ==> RedBlack(Plug(c, Kid(y, e)))
    ensures !y.red ==> EraseInv(c, Kid(y, e), h)
  {
    var k := UnplugRb(c, y);
    var x := Kid(y, e);
    h := 0;
    assert Rb(Kid(y, !e), if y.red then k else k - 1);
    if y.red {
      assert Rb(x, 0);
      PlugRb(c, x, k);
    } else {
      assert Rb(x, 0);
    }
  }

  /** The sibling of a tree that is short is a node. */
  lemma HasSibling<N>(c: Ctx<N>, x: Tree<N>, h: nat)
    requires EraseInv(c, x, h) && c.In?
    ensures c.sib.Node?
  {
  }

  /** Red sibling: a rotation puts a black node beside the short tree. */
  function LowerCtx<N>(c: Ctx<N>): Ctx<N>
    requires c.In? && c.sib.Node?
  {
    In(c.d, true, c.n, Kid(c.sib, c.d), In(c.d, false, c.sib.n, Kid(c.sib, !c.d), c.up))
  }

  lemma LowerOk<N>(c: Ctx<N>, x: Tree<N>, h: nat)
    requires EraseInv(c, x, h) && IsBlack(x) && c.In? && c.sib.Node? && c.sib.red
    ensures EraseInv(LowerCtx(c), x, h)
    ensures LowerCtx(c).sib.Node? && !LowerCtx(c).sib.red
    ensures Rotate(Make(c.d, true, c.n, x, c.sib.(red := false)), c.d)
            == Make(c.d, false, c.sib.n, Make(c.d, true, c.n, x, Kid(c.sib, c.d)), Kid(c.sib, !c.d))
  {
    assert RbCtx(c.up, h + 2);
    assert Rb(Kid(c.sib, c.d), h + 1) && Rb(Kid(c.sib, !c.d), h + 1);
  }

  /** Black sibling with black children: it turns red, and the subtree above is short. */
  function Merge<N>(c: Ctx<N>, x: Tree<N>): Tree<N>
    requires c.In? && c.sib.Node?
  {
    Make(c.d, c.red, c.n, x, c.sib.(red := true))
  }

  lemma MergeOk<N>(c: Ctx<N>, x: Tree<N>, h: nat)
    requires EraseInv(c, x, h) && IsBlack(x) && c.In? && c.sib.Node? && !c.sib.red
    requires IsBlack(c.sib.l) && IsBlack(c.sib.r)
    ensures EraseInv(c.up, Merge(c, x), if c.red then h else h + 1)
  {
  }

  /** Black sibling whose far child is black and near child red: a rotation makes the far one red. */
  function Swing<N>(w: Tree<N>, d: bool): Tree<N>
    requires w.Node? && Kid(w, d).Node?
  {
    var near := Kid(w, d);
    Make(!d, false, near.n, Make(!d, true, w.n, Kid(w, !d), Kid(near, !d)), Kid(near, d))
  }

  lemma SwingOk<N>(c: Ctx<N>, x: Tree<N>, h: nat)
    requires EraseInv(c, x, h) && IsBlack(x) && c.In? && c.sib.Node? && !c.sib.red
    requires IsBlack(Kid(c.sib, !c.d)) && !IsBlack(Kid(c.sib, c.d))
    ensures EraseInv(c.(sib := Swing(c.sib, c.d)), x, h)
    ensures !IsBlack(Kid(Swing(c.sib, c.d), !c.d))
    ensures Inorder(Swing(c.sib, c.d)) == Inorder(c.sib)
    ensures Rotate(Make(c.d, true, c.sib.n, Kid(c.sib, c.d).(red := false), Kid(c.sib, !c.d)), !c.d) == Swing(c.sib, c.d)
  {
    var near := Kid(c.sib, c.d);
    var w' := Make(c.d, true, c.sib.n, near.(red := false), Kid(c.sib, !c.d));
    RotateInorder(w', !c.d);
    assert Rb(near, h) && Rb(Kid(c.sib, !c.d), h);
    assert Rb(Kid(near, c.d), h) && Rb(Kid(near, !c.d), h);
    assert Rb(Make(!c.d, true, c.sib.n, Kid(c.sib, !c.d), Kid(near, !c.d)), h);
    assert Rb(Swing(c.sib, c.d), h + 1);
    assert Inorder(c.sib) == Inorder(w') by { assert Inorder(near) == Inorder(near.(red := false)); }
  }

  /** Black sibling with a red far child: a rotation makes up for the missing black node. */
  function Restore<N>(c: Ctx<N>, x: Tree<N>): Tree<N>
    requires c.In? && c.sib.Node?
  {
    Make(c.d, c.red, c.sib.n, Make(c.d, false, c.n, x, Kid(c.sib, c.d)), Blacken(Kid(c.sib, !c.d)))
  }

  lemma RestoreOk<N>(c: Ctx<N>, x: Tree<N>, h: nat)
    requires EraseInv(c, x, h) && IsBlack(x) && c.In? && c.sib.Node? && !c.sib.red
    requires !IsBlack(Kid(c.sib, !c.d))
    ensures RedBlack(Plug(c.up, Restore(c, x)))
    ensures Inorder(Restore(c, x)) == Inorder(Make(c.d, c.red, c.n, x, c.sib))
    ensures var w := Make(c.d, c.red, c.sib.n, Kid(c.sib, c.d), Blacken(Kid(c.sib, !c.d)));
            Rotate(Make(c.d, false, c.n, x, w), c.d) == Restore(c, x)
  {
    var far := Kid(c.sib, !c.d);
    var w := Make(c.d, c.red, c.sib.n, Kid(c.sib, c.d), Blacken(far));
    RotateInorder(Make(c.d, false, c.n, x, w), c.d);
    assert Inorder(c.sib) == Inorder(w) by { assert Inorder(far) == Inorder(Blacken(far)); }
    assert Rb(far, h) && Rb(Kid(c.sib, c.d), h);
    assert Rb(Blacken(far), h + 1) && Rb(Make(c.d, false, c.n, x, Kid(c.sib, c.d)), h + 1);
    PlugRb(c.up, Restore(c, x), if c.red then h + 1 else h + 2);
  }

  lemma LowerOrder<N>(c: Ctx<N>, x: Tree<N>, h: nat)
    requires EraseInv(c, x, h) && IsBlack(x) && c.In? && c.sib.Node? && c.sib.red
    ensures EraseInv(LowerCtx(c), x, h) && LowerCtx(c).sib.Node? && !LowerCtx(c).sib.red
    ensures Inorder(Plug(LowerCtx(c), x)) == Inorder(Plug(c, x))
  {
    LowerOk(c, x, h);
    var p := Make(c.d, true, c.n, x, c.sib.(red := false));
    RotateInorder(p, c.d);
    assert Inorder(c.sib.(red := false)) == Inorder(c.sib);
    SameOrder(c.up, Make(c.d, c.red, c.n, x, c.sib), Rotate(p, c.d));
  }

  lemma MergeOrder<N>(c: Ctx<N>, x: Tree<N>)
    requires c.In? && c.sib.Node?
    ensures Inorder(Plug(c.up, Merge(c, x))) == Inorder(Plug(c, x))
  {
    assert Inorder(c.sib.(red := true)) == Inorder(c.sib);
    SameOrder(c.up, Make(c.d, c.red, c.n, x, c.sib), Merge(c, x));
  }

  lemma SwingOrder<N>(c: Ctx<N>, x: Tree<N>, w: Tree<N>)
    requires c.In? && Inorder(w) == Inorder(c.sib)
    ensures Inorder(Plug(c.(sib := w), x)) == Inorder(Plug(c, x))
  {
    SameOrder(c.up, Make(c.d, c.red, c.n, x, c.sib), Make(c.d, c.red, c.n, x, w));
  }

  /** The whole tree is in order again; the loop is left with nothing missing at the root. */
  lemma RestoreDone<N>(c: Ctx<N>, x: Tree<N>, h: nat) returns (h': nat)
    requires EraseInv(c, x, h) && IsBlack(x) && c.In? && c.sib.Node? && !c.sib.red
    requires !IsBlack(Kid(c.sib, !c.d))
    ensures EraseInv(Top, Plug(c.up, Restore(c, x)), h')
    ensures Inorder(Plug(c.up, Restore(c, x))) == Inorder(Plug(c, x))
  {
    RestoreOk(c, x, h);
    SameOrder(c.up, Make(c.d, c.red, c.n, x, c.sib), Restore(c, x));
    h' := BlackHeight(Plug(c.up, Restore(c, x)));
  }

  /** Blackening the tree in focus ends the repair. */
  lemma EraseDone<N>(c: Ctx<N>, x: Tree<N>, h: nat)
    requires EraseInv(c, x, h) && (c.Top? || !IsBlack(x))
    ensures RedBlack(Plug(c, Blacken(x)))
  {
    if IsBlack(x) {
      RbHeight(x, h);
    } else {
      PlugRb(c, Blacken(x), h + 1);
    }
  }

  // ---------------------------------------------------------------- same order, other place

  /** A change inside the hole that keeps the order keeps the order of the whole. */
  lemma SameOrder<N>(c: Ctx<N>, t: Tree<N>, t': Tree<N>)
    requires Inorder(t) == Inorder(t')
    ensures Inorder(Plug(c, t)) == Inorder(Plug(c, t'))
  {
    PlugInorder(c, t);
    PlugInorder(c, t');
  }
}
