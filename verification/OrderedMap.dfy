/**
 The ordered map of cc_learn/cc.h: a red-black tree of nodes with parent pointers and one shared
 sentinel, rewritten in place (cc_learn/cc.h:4163-4923).

 Memory is explicit.  A pointer is an address; `hdrs`, `keys` and `els` hold the header, the key and
 the element of every allocated node, and freeing a node takes it out of them.  Every access must be
 to an allocated node, and the sentinel is never one, so it is never written and never freed.
 */
module OrderedMap {
  import opened Options
  import opened Powers
  import opened Sequences
  import opened RbTree
  import opened RbShape
  import opened RbFix
  import opened RbOrder
  import opened RbCopy
  import opened Visits

  type Ptr = nat

  /** A pointer-iterator: the sentinel, the end of the sentinel, or a node. */
  datatype Itr = REnd | End | Item(p: Ptr)

  class OMap<K(==, !new), V> {
    const sentinel: Ptr
    const cmpr: (K, K) -> int
    var root: Ptr
    var size: nat
    var hdrs: map<Ptr, Cell<Ptr>>
    var keys: map<Ptr, K>
    var els: map<Ptr, V>
    ghost var tree: Tree<Ptr>
    ghost var contents: map<K, V>

    /** The nodes in memory are the tree `t` inside the context `c`. */
    ghost predicate At(c: Ctx<Ptr>, t: Tree<Ptr>)
      reads this`hdrs, this`root
    {
      Zip(c, t, sentinel, hdrs, root)
    }

    /** The nodes in ascending order of their keys. */
    ghost function Order(): seq<Ptr>
      reads this`tree
    {
      Inorder(tree)
    }

    /** A red-black tree lies in memory: links are consistent, the root's parent is the sentinel. */
    ghost predicate Balanced()
      reads this`hdrs, this`root, this`tree
    {
      At(Top, tree) && RedBlack(tree)
    }

    /** Moreover its keys are sorted, `size` counts the nodes, nothing else is allocated, and the nodes
        stand for `contents`. */
    ghost predicate Valid()
      reads this
    {
      && Balanced() && hdrs.Keys == Nodes(tree) && size == |Order()|
      && keys.Keys == hdrs.Keys && TotalOrder(cmpr) && SortedBy(Order(), keys, cmpr)
      && StandFor(keys, els, contents)
    }

    constructor (sentinel: Ptr, cmpr: (K, K) -> int)
      requires TotalOrder(cmpr)
      ensures Valid() && tree == Leaf && contents == map[] && this.sentinel == sentinel && this.cmpr == cmpr
    {
      this.sentinel, this.cmpr, root, size := sentinel, cmpr, sentinel, 0;
      hdrs, keys, els, tree, contents := map[], map[], map[], Leaf, map[];
    }

    /** Reads `is_red`; the sentinel is black. */
    function Red(p: Ptr): bool
      reads this`hdrs
      requires p == sentinel || p in hdrs
    {
      p != sentinel && hdrs[p].red
    }

    /** Writes `is_red`. */
    method Paint(x: Ptr, red: bool, ghost c: Ctx<Ptr>, ghost t: Tree<Ptr>)
      requires At(c, t) && t.Node? && t.n == x
      modifies this`hdrs
      ensures At(c, t.(red := red)) && hdrs.Keys == old(hdrs.Keys)
    {
      RecolorZip(c, t, red, sentinel, hdrs, root);
      hdrs := hdrs[x := hdrs[x].(red := red)];
    }

    /** Redirects the pointer that leads from `p` to `node`, or the root pointer, to `x`. */
    method Redirect(p: Ptr, node: Ptr, x: Ptr)
      requires sentinel !in hdrs && (p == sentinel || p in hdrs)
      modifies this`hdrs, this`root
      ensures p == sentinel ==> hdrs == old(hdrs) && root == x
      ensures p != sentinel ==> hdrs == old(hdrs)[p := SetKid(old(hdrs)[p], node == old(hdrs)[p].kid1, x)] && root == old(root)
    {
      if p != sentinel { hdrs := hdrs[p := SetKid(hdrs[p], node == hdrs[p].kid1, x)]; } else { root := x; }
    }

    method SetParent(x: Ptr, p: Ptr)
      requires x == sentinel || x in hdrs
      modifies this`hdrs
      ensures hdrs == if x == sentinel then old(hdrs) else old(hdrs)[x := old(hdrs)[x].(parent := p)]
    {
      if x != sentinel { hdrs := hdrs[x := hdrs[x].(parent := p)]; }
    }

    // -------------------------------------------------------------- cc_omap_rotate

    method Rotate(node: Ptr, dir: bool, ghost c: Ctx<Ptr>, ghost t: Tree<Ptr>)
      requires At(c, t) && t.Node? && t.n == node && Kid(t, !dir).Node?
      modifies this`root, this`hdrs
      ensures At(c, RbTree.Rotate(t, dir)) && hdrs.Keys == old(hdrs.Keys)
    {
      RotatedCellsDo(c, t, dir, sentinel, hdrs, root);
      RotateWrites(node, dir);
      RotatedCellsZip(c, t, dir, sentinel, old(hdrs), hdrs, old(root), root);
    }

    method RotateWrites(node: Ptr, dir: bool)
      requires CanRotate(hdrs, node, dir, sentinel)
      modifies this`root, this`hdrs
      ensures RotatedCells(old(hdrs), hdrs, node, dir, sentinel)
      ensures root == if old(hdrs)[node].parent == sentinel then GetKid(old(hdrs)[node], !dir) else old(root)
    {
      var child := GetKid(hdrs[node], !dir);
      hdrs := hdrs[node := SetKid(hdrs[node], !dir, GetKid(hdrs[child], dir))];
      SetParent(GetKid(hdrs[child], dir), node);
      SetParent(child, hdrs[node].parent);
      ghost var half := hdrs;
      assert MiddleHung(old(hdrs), half, node, child, GetKid(old(hdrs)[child], dir), dir, sentinel);
      Redirect(hdrs[node].parent, node, child);
      hdrs := hdrs[child := SetKid(hdrs[child], dir, node)];
      SetParent(node, child);
      assert ChildLifted(half, hdrs, node, child, old(hdrs)[node].parent, dir, sentinel);
      RotateHalves(old(hdrs), half, hdrs, node, dir, sentinel);
    }

    // -------------------------------------------------------------- cc_omap_post_insert_fixup

    /** Red uncle. */
    method PushUpStep(parent: Ptr, uncle: Ptr, grand: Ptr, ghost c: Ctx<Ptr>, ghost t: Tree<Ptr>)
      requires At(c, t) && RedParent(c) && parent == c.n && grand == c.up.n && c.up.sib.Node? && uncle == c.up.sib.n
      modifies this`hdrs
      ensures At(c.up.up, PushUp(c, t)) && hdrs.Keys == old(hdrs.Keys)
    {
      ghost var g, u := c.up, c.up.sib;
      ghost var p, p' := Make(c.d, true, c.n, t, c.sib), Make(c.d, false, c.n, t, c.sib);
      ZipUp(c.d, c.red, c.n, c.sib, c.up, t, sentinel, hdrs, root);
      Paint(parent, false, g, p);
      ZipAside(g.d, g.red, g.n, p', u, g.up, sentinel, hdrs, root);
      Paint(uncle, false, In(!g.d, g.red, g.n, p', g.up), u);
      ZipUp(!g.d, g.red, g.n, p', g.up, Blacken(u), sentinel, hdrs, root);
      Paint(grand, true, g.up, Make(g.d, false, g.n, p', Blacken(u)));
    }

    /** Black uncle, inner grandchild. */
    method TurnStep(parent: Ptr, dir: bool, ghost c: Ctx<Ptr>, ghost t: Tree<Ptr>, ghost h: nat)
      requires At(c, t) && InsertInv(c, t, h) && RedParent(c) && parent == c.n && c.d != c.up.d && dir == !c.up.d
      modifies this`root, this`hdrs
      ensures At(TurnCtx(c, t), TurnTree(c, t)) && hdrs.Keys == old(hdrs.Keys)
    {
      ghost var g := c.up;
      TurnOk(c, t, h);
      ZipUp(c.d, c.red, c.n, c.sib, g, t, sentinel, hdrs, root);
      Rotate(parent, !dir, g, Make(c.d, true, c.n, t, c.sib));
      ZipUp(g.d, true, t.n, Kid(t, !g.d), g, TurnTree(c, t), sentinel, hdrs, root);
    }

    /** Black uncle, outer grandchild. */
    method SettleStep(parent: Ptr, grand: Ptr, dir: bool, ghost c: Ctx<Ptr>, ghost t: Tree<Ptr>, ghost h: nat)
      requires At(c, t) && InsertInv(c, t, h) && RedParent(c) && parent == c.n && grand == c.up.n
      requires c.d == c.up.d && IsBlack(c.up.sib) && dir == !c.up.d
      modifies this`root, this`hdrs
      ensures At(SettleCtx(c), t) && hdrs.Keys == old(hdrs.Keys)
    {
      ghost var g := c.up;
      ghost var p' := Make(c.d, false, c.n, t, c.sib);
      SettleOk(c, t, h);
      ZipUp(c.d, c.red, c.n, c.sib, g, t, sentinel, hdrs, root);
      Paint(parent, false, g, Make(c.d, true, c.n, t, c.sib));
      ZipUp(g.d, g.red, g.n, g.sib, g.up, p', sentinel, hdrs, root);
      Paint(grand, true, g.up, Make(g.d, false, g.n, p', g.sib));
      Rotate(grand, dir, g.up, Make(g.d, true, g.n, p', g.sib));
      ZipUp(c.d, false, c.n, Make(!c.d, true, g.n, g.sib, c.sib), g.up, t, sentinel, hdrs, root);
    }

    /** Black uncle: one or two rotations settle the problem. */
    method InsertRotate(node: Ptr, parent: Ptr, grand: Ptr, dir: bool, ghost c: Ctx<Ptr>, ghost t: Tree<Ptr>, ghost h: nat)
      returns (node': Ptr, ghost c': Ctx<Ptr>, ghost t': Tree<Ptr>)
      requires At(c, t) && t.Node? && t.n == node && InsertInv(c, t, h) && RedParent(c)
      requires parent == c.n && grand == c.up.n && dir == !c.up.d && IsBlack(c.up.sib)
      modifies this`root, this`hdrs
      ensures At(c', t') && t'.Node? && t'.n == node' && InsertInv(c', t', h)
      ensures Depth(c') < Depth(c) && Inorder(Plug(c', t')) == Inorder(Plug(c, t))
      ensures hdrs.Keys == old(hdrs.Keys)
    {
      ParentCell(c, t, sentinel, hdrs, root);
      if node == GetKid(hdrs[parent], dir) {
        TurnOrder(c, t, h);
        TurnStep(parent, dir, c, t, h);
        c', t' := TurnCtx(c, t), TurnTree(c, t);
        FocusCell(c', t', sentinel, hdrs, root);
        SettleOrder(c', t', h);
        SettleStep(hdrs[parent].parent, grand, dir, c', t', h);
        node', c' := parent, SettleCtx(c');
      } else {
        SettleOrder(c, t, h);
        SettleStep(parent, grand, dir, c, t, h);
        node', c', t' := node, SettleCtx(c), t;
      }
    }

    /** One turn of the loop: pushes the problem up two levels, or settles it. */
    method InsertStep(node: Ptr, ghost c: Ctx<Ptr>, ghost t: Tree<Ptr>, ghost h: nat)
      returns (node': Ptr, ghost c': Ctx<Ptr>, ghost t': Tree<Ptr>, ghost h': nat)
      requires At(c, t) && t.Node? && t.n == node && InsertInv(c, t, h) && RedParent(c)
      modifies this`root, this`hdrs
      ensures At(c', t') && t'.Node? && t'.n == node' && InsertInv(c', t', h')
      ensures Depth(c') < Depth(c) && Inorder(Plug(c', t')) == Inorder(Plug(c, t))
      ensures hdrs.Keys == old(hdrs.Keys)
    {
      FocusCell(c, t, sentinel, hdrs, root);
      ParentCell(c, t, sentinel, hdrs, root);
      ZipUp(c.d, c.red, c.n, c.sib, c.up, t, sentinel, hdrs, root);
      ParentCell(c.up, Make(c.d, c.red, c.n, t, c.sib), sentinel, hdrs, root);
      var parent := hdrs[node].parent;
      var grand := hdrs[parent].parent;
      var dir := parent == hdrs[grand].kid0;
      var uncle := GetKid(hdrs[grand], dir);
      if Red(uncle) {
        PushUpOk(c, t, h);
        SameOrder(c.up.up, Grand(c, t), PushUp(c, t));
        PushUpStep(parent, uncle, grand, c, t);
        node', c', t', h' := grand, c.up.up, PushUp(c, t), h + 1;
      } else {
        node', c', t' := InsertRotate(node, parent, grand, dir, c, t, h);
        h' := h;
      }
    }

    /** `cc_omap_post_insert_fixup` */
    method PostInsertFixup(start: Ptr, ghost c0: Ctx<Ptr>, ghost t0: Tree<Ptr>, ghost h0: nat)
      requires At(c0, t0) && t0.Node? && t0.n == start && InsertInv(c0, t0, h0)
      modifies this`root, this`hdrs, this`tree
      ensures Balanced() && Order() == Inorder(Plug(c0, t0)) && hdrs.Keys == old(hdrs.Keys)
    {
      var node := start;
      ghost var c, t, h := c0, t0, h0;
      UpGuard(c, t, sentinel, hdrs, root);
      while node != root && Red(hdrs[node].parent)
        invariant hdrs.Keys == old(hdrs.Keys) && At(c, t) && t.Node? && t.n == node && InsertInv(c, t, h)
        invariant Inorder(Plug(c, t)) == Inorder(Plug(c0, t0))
        invariant node in hdrs && (node == root <==> c.Top?)
        invariant c.In? ==> c.n in hdrs && hdrs[node].parent == c.n && c.n != sentinel && hdrs[c.n].red == c.red
        decreases Depth(c)
      {
        RedAboveHasParent(c, h);
        node, c, t, h := InsertStep(node, c, t, h);
        UpGuard(c, t, sentinel, hdrs, root);
      }
      InsertDone(c, t, h);
      ZipWhole(c, t, sentinel, hdrs, root);
      PlugNode(c, t);
      ghost var whole := Plug(c, t);
      Paint(root, false, Top, whole);
      tree := Blacken(whole);
    }

    // -------------------------------------------------------------- cc_omap_insert, cc_omap_get

    /** Walks down from the root to the node with the key, or to the place where it belongs. */
    method FindPlace(key: K)
      returns (node: Ptr, parent: Ptr, dir: bool, ghost c: Ctx<Ptr>, ghost t: Tree<Ptr>)
      requires Valid()
      ensures At(c, t) && Plug(c, t) == tree && node == RootOf(t, sentinel) && parent == ParentOf(c, sentinel)
      ensures Bounded(c, key, keys, cmpr) && (c.In? ==> dir == c.d)
      ensures node == sentinel <==> t.Leaf?
      ensures t.Node? ==> node in hdrs && keys[node] == key
    {
      node, parent, dir := root, sentinel, false;
      c, t := Top, tree;
      while node != sentinel
        invariant At(c, t) && Plug(c, t) == tree && node == RootOf(t, sentinel) && parent == ParentOf(c, sentinel)
        invariant Bounded(c, key, keys, cmpr) && (c.In? ==> dir == c.d)
        invariant t.Node? ==> node != sentinel && node in hdrs
        decreases t
      {
        var r := cmpr(key, keys[node]);
        if r == 0 { return; }
        parent, dir := node, r > 0;
        node, c, t := Lower(node, dir, key, c, t);
      }
    }

    /** One step down, towards the key. */
    method Lower(node: Ptr, d: bool, key: K, ghost c: Ctx<Ptr>, ghost t: Tree<Ptr>)
      returns (node': Ptr, ghost c': Ctx<Ptr>, ghost t': Tree<Ptr>)
      requires Valid() && At(c, t) && Plug(c, t) == tree && t.Node? && node == t.n && node in hdrs
      requires Bounded(c, key, keys, cmpr)
      requires if d then cmpr(key, keys[node]) > 0 else cmpr(key, keys[node]) < 0
      ensures c' == In(d, t.red, t.n, Kid(t, !d), c) && t' == Kid(t, d)
      ensures At(c', t') && Plug(c', t') == tree && node' == RootOf(t', sentinel) && Bounded(c', key, keys, cmpr)
      ensures t'.Node? ==> node' != sentinel && node' in hdrs
    {
      FocusCell(c, t, sentinel, hdrs, root);
      Descend(c, t, d, key, keys, cmpr);
      ZipUp(d, t.red, t.n, Kid(t, !d), c, Kid(t, d), sentinel, hdrs, root);
      node', c', t' := GetKid(hdrs[node], d), In(d, t.red, t.n, Kid(t, !d), c), Kid(t, d);
    }

    /** At an empty place between smaller and larger keys, no node has the key. */
    lemma Absent(c: Ctx<Ptr>, key: K)
      requires Valid() && Plug(c, Leaf) == tree && Bounded(c, key, keys, cmpr)
      ensures forall x | x in keys :: keys[x] != key
      ensures key !in contents
    {
      PlugOne(c, true, sentinel);
      forall x | x in keys ensures keys[x] != key { NodesInorder(tree, x); }
    }

    /** `cc_omap_get` */
    method Get(key: K) returns (itr: Option<Ptr>)
      requires Valid()
      ensures itr.None? <==> key !in contents
      ensures itr.Some? ==> itr.value in hdrs && keys[itr.value] == key && els[itr.value] == contents[key]
    {
      var node, parent, dir, c, t := FindPlace(key);
      if node != sentinel { return Some(node); }
      Absent(c, key);
      return None;
    }

    /** Initialises a new red node at the address `x` and hangs it into an empty place. */
    method Attach(x: Ptr, parent: Ptr, dir: bool, key: K, el: V, ghost c: Ctx<Ptr>)
      requires At(c, Leaf) && x !in hdrs && x != sentinel && parent == ParentOf(c, sentinel) && (c.In? ==> dir == c.d)
      modifies this`root, this`hdrs, this`keys, this`els
      ensures hdrs.Keys == old(hdrs.Keys) + {x} && keys == old(keys)[x := key] && els == old(els)[x := el]
      ensures At(c, Node(true, x, Leaf, Leaf))
    {
      if c.In? { ParentCell(c, Leaf, sentinel, hdrs, root); }
      hdrs := hdrs[x := Cell(true, parent, sentinel, sentinel)];
      keys, els := keys[x := key], els[x := el];
      if parent != sentinel { hdrs := hdrs[parent := SetKid(hdrs[parent], dir, x)]; } else { root := x; }
      AttachZip(c, true, x, sentinel, old(hdrs), hdrs, old(root), root);
    }

    /** Hangs a new node into its place and repairs the tree. */
    method InsertNew(x: Ptr, parent: Ptr, dir: bool, key: K, el: V, ghost c: Ctx<Ptr>)
      requires At(c, Leaf) && RbCtx(c, 0) && x !in hdrs && x != sentinel
      requires parent == ParentOf(c, sentinel) && (c.In? ==> dir == c.d)
      modifies this`root, this`hdrs, this`keys, this`els, this`tree
      ensures hdrs.Keys == old(hdrs.Keys) + {x} && keys == old(keys)[x := key] && els == old(els)[x := el]
      ensures Balanced() && Order() == Before(c) + [x] + After(c)
    {
      Attach(x, parent, dir, key, el, c);
      PostInsertFixup(x, c, Node(true, x, Leaf, Leaf), 0);
      PlugOne(c, true, x);
    }

    /** What the new node means for the order of the keys and for the contents. */
    lemma InsertMeaning(x: Ptr, key: K, el: V, c: Ctx<Ptr>)
      requires Valid() && Plug(c, Leaf) == tree && Bounded(c, key, keys, cmpr) && x !in hdrs
      ensures RbCtx(c, 0) && Order() == Before(c) + After(c) && key !in contents
      ensures SortedBy(Before(c) + [x] + After(c), keys[x := key], cmpr)
      ensures StandFor(keys[x := key], els[x := el], contents[key := el])
    {
      Absent(c, key);
      PlugOne(c, true, x);
      var h := UnplugRb(c, Leaf);
      InsertSorted(Before(c), x, After(c), key, keys, cmpr);
      StandInsert(keys, els, contents, x, key, el);
    }

    lemma InsertedNodes(was: Tree<Ptr>, a: seq<Ptr>, b: seq<Ptr>, x: Ptr)
      requires Inorder(was) == a + b && Order() == a + [x] + b
      ensures Nodes(tree) == Nodes(was) + {x}
    {
      forall n ensures n in Nodes(tree) <==> n in Nodes(was) + {x} {
        NodesInorder(tree, n);
        NodesInorder(was, n);
      }
    }

    /** Sets the size, after which the map stands for `m`. */
    method Recount(n: nat, ghost m: map<K, V>)
      requires Balanced() && hdrs.Keys == Nodes(tree) && n == |Order()|
      requires keys.Keys == hdrs.Keys && TotalOrder(cmpr) && SortedBy(Order(), keys, cmpr) && StandFor(keys, els, m)
      modifies this`size, this`contents
      ensures Valid() && contents == m
    {
      size, contents := n, m;
    }

    /** Makes a new node part of the map, which stands for `m` then. */
    method InsertPair(x: Ptr, parent: Ptr, dir: bool, key: K, el: V, ghost c: Ctx<Ptr>, ghost m: map<K, V>)
      requires At(c, Leaf) && RbCtx(c, 0) && x !in hdrs && x != sentinel
      requires parent == ParentOf(c, sentinel) && (c.In? ==> dir == c.d)
      requires Order() == Before(c) + After(c) && hdrs.Keys == Nodes(tree) && size == |Order()| && keys.Keys == hdrs.Keys
      requires TotalOrder(cmpr) && SortedBy(Before(c) + [x] + After(c), keys[x := key], cmpr)
      requires StandFor(keys[x := key], els[x := el], m)
      modifies this
      ensures Valid() && contents == m && keys == old(keys)[x := key] && els == old(els)[x := el]
      ensures Order() == Before(c) + [x] + After(c)
    {
      ghost var o, ks, es := Before(c) + [x] + After(c), keys[x := key], els[x := el];
      InsertNode(x, parent, dir, key, el, c);
      assert Order() == o && keys == ks && els == es;
      Recount(size + 1, m);
    }

    /** Then nothing but the nodes of the tree is allocated. */
    method InsertNode(x: Ptr, parent: Ptr, dir: bool, key: K, el: V, ghost c: Ctx<Ptr>)
      requires At(c, Leaf) && RbCtx(c, 0) && x !in hdrs && x != sentinel
      requires parent == ParentOf(c, sentinel) && (c.In? ==> dir == c.d)
      requires Order() == Before(c) + After(c) && hdrs.Keys == Nodes(tree)
      modifies this`root, this`hdrs, this`keys, this`els, this`tree
      ensures Balanced() && Order() == Before(c) + [x] + After(c) && |Order()| == |old(Order())| + 1
      ensures hdrs.Keys == Nodes(tree) == old(hdrs.Keys) + {x} && keys == old(keys)[x := key] && els == old(els)[x := el]
    {
      ghost var a, b := Before(c), After(c);
      InsertNew(x, parent, dir, key, el, c);
      InsertedNodes(old(tree), a, b, x);
    }

    /** A key that the map does not have gets a new node between its neighbours. */
    method InsertAbsent(x: Ptr, parent: Ptr, dir: bool, key: K, el: V, ghost c: Ctx<Ptr>)
      requires Valid() && At(c, Leaf) && Plug(c, Leaf) == tree && Bounded(c, key, keys, cmpr)
      requires parent == ParentOf(c, sentinel) && (c.In? ==> dir == c.d) && x !in hdrs && x != sentinel
      modifies this
      ensures Valid() && key !in old(contents) && contents == old(contents)[key := el]
      ensures keys == old(keys)[x := key] && els == old(els)[x := el]
      ensures exists i | 0 <= i <= |old(Order())| :: Order() == InsertAt(old(Order()), i, x)
    {
      ghost var a, b := Before(c), After(c);
      InsertMeaning(x, key, el, c);
      InsertPair(x, parent, dir, key, el, c, contents[key := el]);
      assert a + [x] + b == InsertAt(a + b, |a|, x);
    }

    /** Different nodes have different keys. */
    lemma SameKeySameNode(x: Ptr, y: Ptr)
      requires Valid() && x in keys && y in keys && x != y
      ensures keys[x] != keys[y]
    {
      NodesInorder(tree, x);
      NodesInorder(tree, y);
      KeysApart(Order(), keys, cmpr, x, y);
    }

    /** Overwrites the key and the element stored in a node. */
    method Replace(node: Ptr, key: K, el: V)
      requires Valid() && node in keys && keys[node] == key
      modifies this`keys, this`els, this`contents
      ensures Valid() && keys == old(keys) && els == old(els)[node := el] && contents == old(contents)[key := el]
    {
      forall x | x in keys && x != node ensures keys[x] != key { SameKeySameNode(x, node); }
      StandReplace(keys, els, contents, node, el);
      keys := keys[node := key];
      assert keys == old(keys);
      els, contents := els[node := el], contents[key := el];
    }

    /** `cc_omap_insert`.  The handle is a placeholder or has a header; `header` says whether there is memory for
        the header that a placeholder needs, and `mem` is the address that the allocator returns for a node, or
        none.  An existing key keeps its node, and its element is overwritten only if asked.  A new key gets a new
        node between its neighbours; if there is no memory for it, the pairs stay as they are. */
    method Insert(key: K, el: V, replace: bool, placeholder: bool, header: bool, mem: Option<Ptr>)
      returns (itr: Option<Ptr>, placeholder': bool)
      requires Valid() && (placeholder ==> size == 0) && (mem.Some? ==> mem.value !in hdrs && mem.value != sentinel)
      modifies this
      ensures Valid() && placeholder' == (placeholder && !header) && (placeholder' ==> size == 0)
      ensures itr.None? <==> key !in old(contents) && (placeholder' || mem.None?)
      ensures itr.None? ==> contents == old(contents)
      ensures itr.Some? ==> itr.value in hdrs && keys[itr.value] == key
      ensures itr.Some? ==>
                contents == if key in old(contents) && !replace then old(contents) else old(contents)[key := el]
      ensures key in old(contents) || itr.None? ==> Order() == old(Order())
      ensures key !in old(contents) && itr.Some? ==>
                itr == mem && exists i | 0 <= i <= |old(Order())| :: Order() == InsertAt(old(Order()), i, mem.value)
      ensures forall x | x in old(keys) :: x in keys && keys[x] == old(keys)[x] && (itr != Some(x) ==> els[x] == old(els)[x])
    {
      if placeholder {
        NoPairs();
        if !header { return None, true; }
      }
      placeholder' := false;
      itr := Put(key, el, replace, mem);
    }

    lemma NoPairs()
      requires Valid() && size == 0
      ensures contents == map[]
    {
      if k :| k in contents {
        assert Held(keys, k);
        var x :| x in keys && keys[x] == k;
        NodesInorder(tree, x);
      }
    }

    /** The same with a header. */
    method Put(key: K, el: V, replace: bool, mem: Option<Ptr>) returns (itr: Option<Ptr>)
      requires Valid() && (mem.Some? ==> mem.value !in hdrs && mem.value != sentinel)
      modifies this
      ensures Valid()
      ensures itr.None? <==> key !in old(contents) && mem.None?
      ensures itr.None? ==> contents == old(contents)
      ensures itr.Some? ==> itr.value in hdrs && keys[itr.value] == key
      ensures itr.Some? ==>
                contents == if key in old(contents) && !replace then old(contents) else old(contents)[key := el]
      ensures key in old(contents) || mem.None? ==> Order() == old(Order())
      ensures key !in old(contents) && mem.Some? ==>
                itr == mem && exists i | 0 <= i <= |old(Order())| :: Order() == InsertAt(old(Order()), i, mem.value)
      ensures forall x | x in old(keys) :: x in keys && keys[x] == old(keys)[x] && (itr != Some(x) ==> els[x] == old(els)[x])
    {
      var node, parent, dir, c, t := FindPlace(key);
      if node != sentinel {
        if replace { Replace(node, key, el); }
        return Some(node);
      }
      Absent(c, key);
      if mem.None? { return None; }
      InsertAbsent(mem.value, parent, dir, key, el, c);
      return mem;
    }

    // -------------------------------------------------------------- cc_omap_post_erase_fixup

    /** Red sibling. */
    method LowerStep(parent: Ptr, sibling: Ptr, dir: bool, ghost c: Ctx<Ptr>, ghost x: Tree<Ptr>, ghost h: nat)
      requires At(c, x) && EraseInv(c, x, h) && IsBlack(x) && c.In? && c.sib.Node? && c.sib.red
      requires parent == c.n && sibling == c.sib.n && dir == !c.d
      modifies this`root, this`hdrs
      ensures At(LowerCtx(c), x) && hdrs.Keys == old(hdrs.Keys)
    {
      ghost var w := c.sib.(red := false);
      LowerOk(c, x, h);
      ZipAside(c.d, c.red, c.n, x, c.sib, c.up, sentinel, hdrs, root);
      Paint(sibling, false, In(!c.d, c.red, c.n, x, c.up), c.sib);
      ZipUp(!c.d, c.red, c.n, x, c.up, w, sentinel, hdrs, root);
      Paint(parent, true, c.up, Make(c.d, c.red, c.n, x, w));
      Rotate(parent, !dir, c.up, Make(c.d, true, c.n, x, w));
      LowerZip(c, x, sentinel, hdrs, root);
    }

    /** Black sibling with black children. */
    method MergeStep(sibling: Ptr, ghost c: Ctx<Ptr>, ghost x: Tree<Ptr>)
      requires At(c, x) && c.In? && c.sib.Node? && sibling == c.sib.n
      modifies this`hdrs
      ensures At(c.up, Merge(c, x)) && hdrs.Keys == old(hdrs.Keys)
    {
      ZipAside(c.d, c.red, c.n, x, c.sib, c.up, sentinel, hdrs, root);
      Paint(sibling, true, In(!c.d, c.red, c.n, x, c.up), c.sib);
      ZipUp(!c.d, c.red, c.n, x, c.up, c.sib.(red := true), sentinel, hdrs, root);
    }

    /** Black sibling with a red near child and a black far child. */
    method SwingStep(sibling: Ptr, near: Ptr, dir: bool, ghost c: Ctx<Ptr>, ghost x: Tree<Ptr>, ghost h: nat)
      requires At(c, x) && EraseInv(c, x, h) && IsBlack(x) && c.In? && c.sib.Node? && !c.sib.red && dir == !c.d
      requires IsBlack(Kid(c.sib, dir)) && !IsBlack(Kid(c.sib, c.d)) && sibling == c.sib.n && near == Kid(c.sib, c.d).n
      modifies this`root, this`hdrs
      ensures At(c.(sib := Swing(c.sib, c.d)), x) && hdrs.Keys == old(hdrs.Keys)
    {
      ghost var w, u := c.sib, In(!c.d, c.red, c.n, x, c.up);
      ghost var a, b := Kid(w, c.d), Kid(w, !c.d);
      SwingOk(c, x, h);
      ZipAside(c.d, c.red, c.n, x, w, c.up, sentinel, hdrs, root);
      ZipUp(c.d, w.red, w.n, b, u, a, sentinel, hdrs, root);
      Paint(near, false, In(c.d, w.red, w.n, b, u), a);
      ZipUp(c.d, w.red, w.n, b, u, a.(red := false), sentinel, hdrs, root);
      Paint(sibling, true, u, Make(c.d, w.red, w.n, a.(red := false), b));
      Rotate(sibling, dir, u, Make(c.d, true, w.n, a.(red := false), b));
      ZipAside(c.d, c.red, c.n, x, Swing(w, c.d), c.up, sentinel, hdrs, root);
    }

    /** Black sibling with a red far child. */
    method RestoreStep(parent: Ptr, sibling: Ptr, far: Ptr, dir: bool, ghost c: Ctx<Ptr>, ghost x: Tree<Ptr>, ghost h: nat)
      requires At(c, x) && EraseInv(c, x, h) && IsBlack(x) && c.In? && c.sib.Node? && !c.sib.red && dir == !c.d
      requires !IsBlack(Kid(c.sib, dir)) && parent == c.n && sibling == c.sib.n && far == Kid(c.sib, dir).n
      modifies this`root, this`hdrs
      ensures At(c.up, Restore(c, x)) && hdrs.Keys == old(hdrs.Keys)
    {
      RestoreOk(c, x, h);
      RestoreColours(parent, sibling, far, dir, c, x);
      ghost var w := Make(c.d, c.red, c.sib.n, Kid(c.sib, c.d), Blacken(Kid(c.sib, !c.d)));
      Rotate(parent, !dir, c.up, Make(c.d, false, c.n, x, w));
    }

    method RestoreColours(parent: Ptr, sibling: Ptr, far: Ptr, dir: bool, ghost c: Ctx<Ptr>, ghost x: Tree<Ptr>)
      requires At(c, x) && c.In? && c.sib.Node? && dir == !c.d && Kid(c.sib, dir).Node?
      requires parent == c.n && sibling == c.sib.n && far == Kid(c.sib, dir).n
      modifies this`hdrs
      ensures var w := Make(c.d, c.red, c.sib.n, Kid(c.sib, c.d), Blacken(Kid(c.sib, dir)));
        At(c.up, Make(c.d, false, c.n, x, w)) && hdrs.Keys == old(hdrs.Keys)
    {
      ghost var a, b := Kid(c.sib, c.d), Kid(c.sib, dir);
      ghost var w, u := Make(c.d, c.red, c.sib.n, a, b), In(dir, false, c.n, x, c.up);
      ParentCell(c, x, sentinel, hdrs, root);
      ZipAside(c.d, c.red, c.n, x, c.sib, c.up, sentinel, hdrs, root);
      Paint(sibling, Red(parent), In(dir, c.red, c.n, x, c.up), c.sib);
      ZipUp(dir, c.red, c.n, x, c.up, w, sentinel, hdrs, root);
      Paint(parent, false, c.up, Make(c.d, c.red, c.n, x, w));
      ZipUp(dir, false, c.n, x, c.up, w, sentinel, hdrs, root);
      ZipUp(dir, c.red, c.sib.n, a, u, b, sentinel, hdrs, root);
      Paint(far, false, In(dir, c.red, c.sib.n, a, u), b);
      ZipUp(dir, c.red, c.sib.n, a, u, Blacken(b), sentinel, hdrs, root);
      ZipUp(dir, false, c.n, x, c.up, Make(dir, c.red, c.sib.n, Blacken(b), a), sentinel, hdrs, root);
    }

    /** Black sibling with a red child: one or two rotations end the repair. */
    method EraseRotate(parent: Ptr, sibling: Ptr, dir: bool, ghost c: Ctx<Ptr>, ghost x: Tree<Ptr>, ghost h: nat)
      returns (ghost x': Tree<Ptr>, ghost h': nat)
      requires At(c, x) && EraseInv(c, x, h) && IsBlack(x) && c.In? && c.sib.Node? && !c.sib.red && dir == !c.d
      requires !IsBlack(c.sib.l) || !IsBlack(c.sib.r)
      requires parent == c.n && sibling == c.sib.n
      modifies this`root, this`hdrs
      ensures At(Top, x') && EraseInv(Top, x', h') && Inorder(x') == Inorder(Plug(c, x)) && hdrs.Keys == old(hdrs.Keys)
    {
      var w := sibling;
      ghost var c' := c;
      KidColours(c.sib, c.n, sentinel, hdrs);
      if !Red(GetKid(hdrs[w], dir)) {
        SwingOk(c, x, h);
        SwingOrder(c, x, Swing(c.sib, c.d));
        SwingStep(w, GetKid(hdrs[w], !dir), dir, c, x, h);
        c' := c.(sib := Swing(c.sib, c.d));
        ParentCell(c', x, sentinel, hdrs, root);
        w := GetKid(hdrs[parent], dir);
        KidColours(c'.sib, c'.n, sentinel, hdrs);
      }
      h' := RestoreDone(c', x, h);
      RestoreStep(parent, w, GetKid(hdrs[w], dir), dir, c', x, h);
      x' := Plug(c'.up, Restore(c', x));
      ZipWhole(c'.up, Restore(c', x), sentinel, hdrs, root);
    }

    /** Black sibling: the short tree grows upwards, or the repair ends. */
    method EraseBlack(parent: Ptr, sibling: Ptr, dir: bool, ghost c: Ctx<Ptr>, ghost x: Tree<Ptr>, ghost h: nat)
      returns (node': Ptr, parent': Ptr, ghost c': Ctx<Ptr>, ghost x': Tree<Ptr>, ghost h': nat)
      requires At(c, x) && EraseInv(c, x, h) && IsBlack(x) && c.In? && c.sib.Node? && !c.sib.red && dir == !c.d
      requires parent == c.n && sibling == c.sib.n
      modifies this`root, this`hdrs
      ensures At(c', x') && EraseInv(c', x', h') && node' == RootOf(x', sentinel) && (c'.In? ==> parent' == c'.n)
      ensures c'.Top? || (Depth(c') < Depth(c) && IsBlack(x') == !c.red)
      ensures Inorder(Plug(c', x')) == Inorder(Plug(c, x)) && hdrs.Keys == old(hdrs.Keys)
    {
      ParentCell(c, x, sentinel, hdrs, root);
      KidColours(c.sib, c.n, sentinel, hdrs);
      if !Red(hdrs[sibling].kid0) && !Red(hdrs[sibling].kid1) {
        MergeOk(c, x, h);
        MergeOrder(c, x);
        MergeStep(sibling, c, x);
        c', x', h' := c.up, Merge(c, x), if c.red then h else h + 1;
        FocusCell(c', x', sentinel, hdrs, root);
        node' := parent;
        parent' := hdrs[node'].parent;
      } else {
        x', h' := EraseRotate(parent, sibling, dir, c, x, h);
        c' := Top;
        node', parent' := root, parent;
      }
    }

    /** One turn of the loop. */
    method EraseStep(node: Ptr, parent: Ptr, ghost c: Ctx<Ptr>, ghost x: Tree<Ptr>, ghost h: nat)
      returns (node': Ptr, parent': Ptr, ghost c': Ctx<Ptr>, ghost x': Tree<Ptr>, ghost h': nat)
      requires At(c, x) && EraseInv(c, x, h) && IsBlack(x) && c.In? && node == RootOf(x, sentinel) && parent == c.n
      modifies this`root, this`hdrs
      ensures At(c', x') && EraseInv(c', x', h') && node' == RootOf(x', sentinel) && (c'.In? ==> parent' == c'.n)
      ensures Depth(c') < Depth(c) || (Depth(c') == Depth(c) && !IsBlack(x'))
      ensures Inorder(Plug(c', x')) == Inorder(Plug(c, x)) && hdrs.Keys == old(hdrs.Keys)
    {
      HasSibling(c, x, h);
      ParentCell(c, x, sentinel, hdrs, root);
      var dir := node == hdrs[parent].kid0;
      var sibling := GetKid(hdrs[parent], dir);
      ghost var d := c;
      if Red(sibling) {
        LowerOrder(c, x, h);
        LowerStep(parent, sibling, dir, c, x, h);
        d := LowerCtx(c);
        ParentCell(d, x, sentinel, hdrs, root);
        sibling := GetKid(hdrs[parent], dir);
      }
      node', parent', c', x', h' := EraseBlack(parent, sibling, dir, d, x, h);
    }

    /** `cc_omap_post_erase_fixup`; the starting node may be the sentinel, so its parent is an argument. */
    method PostEraseFixup(start: Ptr, parent0: Ptr, ghost c0: Ctx<Ptr>, ghost x0: Tree<Ptr>, ghost h0: nat)
      requires At(c0, x0) && EraseInv(c0, x0, h0) && start == RootOf(x0, sentinel) && (c0.In? ==> parent0 == c0.n)
      modifies this`root, this`hdrs, this`tree
      ensures Balanced() && Order() == Inorder(Plug(c0, x0)) && hdrs.Keys == old(hdrs.Keys)
    {
      var node, parent := start, parent0;
      ghost var c, x, h := c0, x0, h0;
      UpGuard(c, x, sentinel, hdrs, root);
      while node != root && !Red(node)
        invariant hdrs.Keys == old(hdrs.Keys) && At(c, x) && EraseInv(c, x, h) && Inorder(Plug(c, x)) == Inorder(Plug(c0, x0))
        invariant node == RootOf(x, sentinel) && (c.In? ==> parent == c.n)
        invariant (node == sentinel || node in hdrs) && (node == root <==> c.Top?) && (Red(node) <==> !IsBlack(x))
        invariant node == sentinel <==> x.Leaf?
        decreases Depth(c), if IsBlack(x) then 1 else 0
      {
        node, parent, c, x, h := EraseStep(node, parent, c, x, h);
        UpGuard(c, x, sentinel, hdrs, root);
      }
      EraseDone(c, x, h);
      tree := Plug(c, Blacken(x));
      if node != sentinel { Paint(node, false, c, x); }
      SameOrder(c, x, Blacken(x));
      ZipWhole(c, Blacken(x), sentinel, hdrs, root);
    }

    // -------------------------------------------------------------- cc_omap_erase_raw

    /** Follows the children on side `d` down to the last one. */
    method Extreme(start: Ptr, d: bool, ghost c0: Ctx<Ptr>, ghost t0: Tree<Ptr>)
      returns (node: Ptr, ghost c: Ctx<Ptr>, ghost t: Tree<Ptr>)
      requires At(c0, t0) && t0.Node? && t0.n == start
      ensures At(c, t) && t.Node? && t.n == node && Plug(c, t) == Plug(c0, t0) && Kid(t, d).Leaf?
      ensures if d then After(c) == After(c0) else Before(c) == Before(c0)
    {
      node, c, t := start, c0, t0;
      FocusCell(c, t, sentinel, hdrs, root);
      while GetKid(hdrs[node], d) != sentinel
        invariant At(c, t) && t.Node? && t.n == node && Plug(c, t) == Plug(c0, t0) && node in hdrs
        invariant GetKid(hdrs[node], d) == sentinel <==> Kid(t, d).Leaf?
        invariant Kid(t, d).Node? ==> GetKid(hdrs[node], d) == Kid(t, d).n
        invariant if d then After(c) == After(c0) else Before(c) == Before(c0)
        decreases t
      {
        ZipUp(d, t.red, t.n, Kid(t, !d), c, Kid(t, d), sentinel, hdrs, root);
        node := GetKid(hdrs[node], d);
        c, t := In(d, t.red, t.n, Kid(t, !d), c), Kid(t, d);
        FocusCell(c, t, sentinel, hdrs, root);
      }
    }

    /** The node to detach: the node itself, or its successor if it has two children. */
    method ToDetach(node: Ptr, ghost cz: Ctx<Ptr>, ghost z: Tree<Ptr>)
      returns (y: Ptr, ghost c: Ctx<Ptr>, ghost t: Tree<Ptr>)
      requires At(cz, z) && z.Node? && z.n == node
      ensures At(c, t) && t.Node? && t.n == y && Plug(c, t) == Plug(cz, z) && (t.l.Leaf? || t.r.Leaf?)
      ensures (y == node && c == cz && t == z) || (t.l.Leaf? && Before(c) == Before(cz) + Inorder(z.l) + [node])
    {
      FocusCell(cz, z, sentinel, hdrs, root);
      if hdrs[node].kid0 == sentinel || hdrs[node].kid1 == sentinel {
        return node, cz, z;
      }
      ghost var u := In(true, z.red, z.n, z.l, cz);
      ZipUp(true, z.red, z.n, z.l, cz, z.r, sentinel, hdrs, root);
      y, c, t := Extreme(hdrs[node].kid1, false, u, z.r);
    }

    /** Links the only child of `y`, or the sentinel, to the parent of `y`. */
    method Detach(y: Ptr, ghost c: Ctx<Ptr>, ghost t: Tree<Ptr>) returns (child: Ptr, ghost e: bool)
      requires At(c, t) && t.Node? && t.n == y && (t.l.Leaf? || t.r.Leaf?)
      modifies this`root, this`hdrs
      ensures Kid(t, !e).Leaf? && At(c, Kid(t, e)) && child == RootOf(Kid(t, e), sentinel)
      ensures hdrs.Keys == old(hdrs.Keys) && y in hdrs && hdrs[y] == old(hdrs)[y]
      ensures hdrs[y].red == t.red && hdrs[y].parent == ParentOf(c, sentinel)
    {
      FocusCell(c, t, sentinel, hdrs, root);
      WhichKid(c, t, sentinel, hdrs, root);
      e := t.l.Leaf?;
      child := GetKid(hdrs[y], hdrs[y].kid0 == sentinel);
      SetParent(child, hdrs[y].parent);
      assert hdrs[y] == old(hdrs)[y];
      assert c.In? ==> c.n in hdrs && hdrs[c.n] == old(hdrs)[c.n] && c.n != y by { DetachApart(c, t, e, sentinel, old(hdrs), root); }
      Redirect(hdrs[y].parent, y, child);
      DetachZip(c, t, e, sentinel, old(hdrs), hdrs, old(root), root);
    }

    /** Detaches `y` and repairs the tree.  The memory of `y` stays allocated. */
    method DetachAndFix(y: Ptr, ghost c: Ctx<Ptr>, ghost t: Tree<Ptr>)
      requires At(c, t) && t.Node? && t.n == y && (t.l.Leaf? || t.r.Leaf?) && RedBlack(Plug(c, t))
      modifies this`root, this`hdrs, this`tree
      ensures Balanced() && hdrs.Keys == old(hdrs.Keys)
      ensures Order() == (Before(c) + Inorder(t.l)) + (Inorder(t.r) + After(c))
    {
      var child, e := Detach(y, c, t);
      ghost var h := CutOut(c, t, e);
      PlugKid(c, t, e);
      if !hdrs[y].red {
        PostEraseFixup(child, hdrs[y].parent, c, Kid(t, e), h);
      } else {
        ZipWhole(c, Kid(t, e), sentinel, hdrs, root);
        tree := Plug(c, Kid(t, e));
      }
    }

    /** The detached node `y` takes over the place, the links and the colour of `node`. */
    method Supplant(node: Ptr, y: Ptr, ghost c: Ctx<Ptr>, ghost z: Tree<Ptr>)
      requires At(c, z) && z.Node? && z.n == node && y in hdrs && y !in Nodes(z) && y !in CtxNodes(c)
      modifies this`root, this`hdrs
      ensures At(c, z.(n := y)) && hdrs.Keys == old(hdrs.Keys)
    {
      SupplantApart(c, z, y, sentinel, hdrs, root);
      SupplantWrites(node, y);
      SupplantZip(c, z, y, sentinel, old(hdrs), hdrs, old(root), root);
    }

    method SupplantWrites(node: Ptr, y: Ptr)
      requires CanSupplant(hdrs, node, y, sentinel)
      modifies this`root, this`hdrs
      ensures TookOver(old(hdrs), hdrs, node, y, sentinel)
      ensures root == if old(hdrs)[node].parent == sentinel then y else old(root)
    {
      hdrs := hdrs[y := hdrs[y].(parent := hdrs[node].parent, kid0 := hdrs[node].kid0, kid1 := hdrs[node].kid1)];
      Redirect(hdrs[node].parent, node, y);
      SetParent(hdrs[node].kid0, y);
      SetParent(hdrs[node].kid1, y);
      hdrs := hdrs[y := hdrs[y].(red := hdrs[node].red)];
    }

    /** Gives the memory of a node back. */
    method Free(node: Ptr)
      requires Balanced() && node in hdrs && node in keys && node in els && node !in Nodes(tree)
      modifies this`hdrs, this`keys, this`els
      ensures Balanced() && hdrs.Keys == old(hdrs.Keys) - {node}
      ensures keys == old(keys) - {node} && els == old(els) - {node}
    {
      FreeZip(Top, tree, node, sentinel, hdrs, root);
      hdrs, keys, els := hdrs - {node}, keys - {node}, els - {node};
    }

    /** The node gives its place to the detached successor. */
    method GiveWay(node: Ptr, y: Ptr, ghost a: seq<Ptr>, ghost b: seq<Ptr>)
      requires Balanced() && Order() == a + [node] + b && y in hdrs && y !in Order()
      requires TotalOrder(cmpr) && SortedBy(Order(), keys, cmpr)
      modifies this`root, this`hdrs, this`tree
      ensures Balanced() && hdrs.Keys == old(hdrs.Keys) && Order() == a + [y] + b
    {
      ghost var c, z := Find(node, a, b);
      NotThere(c, z, y);
      RenameRb(c, z, y);
      Supplant(node, y, c, z);
      PlugAround(c, z.(n := y));
      ZipWhole(c, z.(n := y), sentinel, hdrs, root);
      tree := Plug(c, z.(n := y));
    }

    lemma NotThere(c: Ctx<Ptr>, z: Tree<Ptr>, y: Ptr)
      requires y !in Inorder(Plug(c, z))
      ensures y !in Nodes(z) && y !in CtxNodes(c)
    {
      PlugInorder(c, z);
      NodesInorder(z, y);
      CtxInorder(c, y);
    }

    /** Where the node stands. */
    lemma Find(node: Ptr, a: seq<Ptr>, b: seq<Ptr>) returns (c: Ctx<Ptr>, z: Tree<Ptr>)
      requires Balanced() && Order() == a + [node] + b && TotalOrder(cmpr) && SortedBy(Order(), keys, cmpr)
      ensures At(c, z) && Plug(c, z) == tree && z.Node? && z.n == node
      ensures a == Before(c) + Inorder(z.l) && b == Inorder(z.r) + After(c)
    {
      NodesInorder(tree, node);
      var r := Locate(Top, tree, node);
      c, z := r.0, r.1;
      ZipWhole(c, z, sentinel, hdrs, root);
      PlugAround(c, z);
      OnePlace(a, node, b, Before(c) + Inorder(z.l), Inorder(z.r) + After(c), keys, cmpr);
    }

    /** The order after a node's successor was detached. */
    lemma DetachedSuccessor(a: seq<Ptr>, node: Ptr, b: seq<Ptr>, c: Ctx<Ptr>, t: Tree<Ptr>)
      requires TotalOrder(cmpr) && SortedBy(a + [node] + b, keys, cmpr)
      requires t.Node? && t.l.Leaf? && Before(c) == a + [node] && Inorder(Plug(c, t)) == a + [node] + b
      ensures t.n != node && t.n !in a + [node] + (Inorder(t.r) + After(c))
      ensures SortedBy(a + [node] + (Inorder(t.r) + After(c)), keys, cmpr)
      ensures (Before(c) + Inorder(t.l)) + (Inorder(t.r) + After(c)) == a + [node] + (Inorder(t.r) + After(c))
      ensures a + b == a + [t.n] + (Inorder(t.r) + After(c))
    {
      var y, rest := t.n, Inorder(t.r) + After(c);
      PlugAround(c, t);
      assert Before(c) + Inorder(t.l) == a + [node];
      assert b == (a + [node] + b)[|a| + 1..] == ((a + [node]) + [y] + rest)[|a| + 1..] == [y] + rest;
      RemoveSorted(a + [node], y, rest, keys, cmpr);
      OnePlace(a + [node], y, rest, a + [node], rest, keys, cmpr);
      assert node in a + [node];
    }

    /** Takes the node out of the tree; another node may move into its place. */
    method Unlink(node: Ptr, ghost a: seq<Ptr>, ghost b: seq<Ptr>)
      requires Balanced() && Order() == a + [node] + b && TotalOrder(cmpr) && SortedBy(Order(), keys, cmpr)
      modifies this`root, this`hdrs, this`tree
      ensures Balanced() && hdrs.Keys == old(hdrs.Keys) && Order() == a + b
    {
      ghost var cz, z := Find(node, a, b);
      var y, c, t := ToDetach(node, cz, z);
      FocusCell(c, t, sentinel, hdrs, root);
      if c != cz || t != z { DetachedSuccessor(a, node, b, c, t); }
      DetachAndFix(y, c, t);
      if y != node { GiveWay(node, y, a, Inorder(t.r) + After(c)); }
    }

    /** What the removal means for the order of the keys and for the contents. */
    lemma EraseMeaning(node: Ptr, a: seq<Ptr>, b: seq<Ptr>)
      requires Valid() && Order() == a + [node] + b
      ensures node in keys && node !in a + b && SortedBy(a + b, keys - {node}, cmpr)
      ensures StandFor(keys - {node}, els - {node}, contents - {keys[node]})
    {
      assert node in Order();
      forall x | x in keys && x != node ensures keys[x] != keys[node] { SameKeySameNode(x, node); }
      StandRemove(keys, els, contents, node);
      OnePlace(a, node, b, a, b, keys, cmpr);
      RemoveSorted(a, node, b, keys, cmpr);
      NarrowSorted(a + b, node, keys, cmpr);
    }

    lemma ErasedNodes(was: Tree<Ptr>, a: seq<Ptr>, b: seq<Ptr>, x: Ptr)
      requires Inorder(was) == a + [x] + b && Order() == a + b && x !in a + b
      ensures Nodes(tree) == Nodes(was) - {x}
    {
      forall n ensures n in Nodes(tree) <==> n in Nodes(was) - {x} {
        NodesInorder(tree, n);
        NodesInorder(was, n);
      }
    }

    lemma IndexOf(node: Ptr) returns (i: nat)
      requires node in Nodes(tree)
      ensures i < |Order()| && Order()[i] == node
    {
      NodesInorder(tree, node);
      i :| 0 <= i < |Order()| && Order()[i] == node;
    }

    /** Takes the node out of the tree and frees it. */
    method Discard(node: Ptr, ghost a: seq<Ptr>, ghost b: seq<Ptr>, ghost m: map<K, V>)
      requires Balanced() && Order() == a + [node] + b && TotalOrder(cmpr) && SortedBy(Order(), keys, cmpr)
      requires hdrs.Keys == Nodes(tree) && keys.Keys == hdrs.Keys && els.Keys == hdrs.Keys && size == |Order()|
      requires node !in a + b && SortedBy(a + b, keys - {node}, cmpr) && StandFor(keys - {node}, els - {node}, m)
      modifies this
      ensures Valid() && Order() == a + b && keys == old(keys) - {node} && els == old(els) - {node} && contents == m
    {
      NodesInorder(tree, node);
      Unlink(node, a, b);
      ErasedNodes(old(tree), a, b, node);
      Free(node);
      Recount(size - 1, m);
    }

    /** `cc_omap_erase_raw`: exactly this node is freed; every other key stays in its node. */
    method EraseRaw(node: Ptr, ghost i: nat)
      requires Valid() && i < |Order()| && Order()[i] == node
      modifies this
      ensures Valid() && Order() == RemoveAt(old(Order()), i)
      ensures keys == old(keys) - {node} && els == old(els) - {node} && contents == old(contents) - {old(keys)[node]}
    {
      ghost var a, b := Order()[..i], Order()[i + 1..];
      assert Order() == a + [node] + b;
      EraseMeaning(node, a, b);
      Discard(node, a, b, contents - {keys[node]});
    }

    /** `cc_omap_erase` */
    method Erase(key: K) returns (erased: bool)
      requires Valid()
      modifies this
      ensures Valid() && contents == old(contents) - {key} && erased == (key in old(contents))
      ensures forall x | x in old(keys) && old(keys)[x] != key :: x in keys && keys[x] == old(keys)[x] && els[x] == old(els)[x]
    {
      var itr := Get(key);
      if itr.None? {
        assert contents == contents - {key};
        return false;
      }
      ghost var i := IndexOf(itr.value);
      EraseRaw(itr.value, i);
      return true;
    }

    // -------------------------------------------------------------- cc_omap_iterate

    /** The iterator stands at index `i` of the order; before it is r_end, after it end. */
    ghost predicate Stands(itr: Itr, i: int)
      reads this`tree
    {
      match itr
      case REnd => i == -1
      case End => i == |Order()|
      case Item(p) => 0 <= i < |Order()| && Order()[i] == p
    }

    /** `cc_omap_r_end_or_end` */
    static function EndItr(dir: bool): Itr {
      if dir then End else REnd
    }

    ghost function Index(c: Ctx<Ptr>, t: Tree<Ptr>): nat
      requires t.Node?
    {
      |Before(c)| + |Inorder(t.l)|
    }

    lemma IndexIn(c: Ctx<Ptr>, t: Tree<Ptr>)
      requires Plug(c, t) == tree && t.Node?
      ensures |Order()| == |Before(c)| + |Inorder(t)| + |After(c)| && |Inorder(t)| == |Inorder(t.l)| + 1 + |Inorder(t.r)|
      ensures Stands(Item(t.n), Index(c, t))
    {
      PlugAround(c, t);
    }

    /** `cc_omap_first_or_last` */
    method FirstOrLast(dir: bool) returns (itr: Itr)
      requires Balanced()
      ensures Stands(itr, if dir then 0 else |Order()| - 1)
    {
      if root == sentinel { return EndItr(dir); }
      FocusCell(Top, tree, sentinel, hdrs, root);
      var node, c, t := Extreme(root, !dir, Top, tree);
      IndexIn(c, t);
      itr := Item(node);
    }

    lemma NextIndex(c: Ctx<Ptr>, t: Tree<Ptr>, i: int)
      requires Plug(c, t) == tree && t.Node? && t.l.Leaf? && |Before(c)| == i
      ensures Stands(Item(t.n), i)
    {
      IndexIn(c, t);
    }

    lemma PrevIndex(c: Ctx<Ptr>, t: Tree<Ptr>, i: int)
      requires Plug(c, t) == tree && t.Node? && t.r.Leaf? && |After(c)| == |Order()| - 1 - i
      ensures Stands(Item(t.n), i)
    {
      IndexIn(c, t);
      assert i == Index(c, t);
    }

    /** Downwards: the nearest node in the subtree on side `dir`. */
    method StepDown(node: Ptr, dir: bool, ghost c: Ctx<Ptr>, ghost t: Tree<Ptr>, ghost i: nat) returns (r: Ptr)
      requires At(c, t) && Plug(c, t) == tree && t.Node? && t.n == node && i == Index(c, t)
      requires Kid(t, dir).Node?
      ensures Stands(Item(r), i + if dir then 1 else -1)
    {
      FocusCell(c, t, sentinel, hdrs, root);
      ZipUp(dir, t.red, t.n, Kid(t, !dir), c, Kid(t, dir), sentinel, hdrs, root);
      ghost var c', t';
      r, c', t' := Extreme(GetKid(hdrs[node], dir), !dir, In(dir, t.red, t.n, Kid(t, !dir), c), Kid(t, dir));
      BelowIndex(dir, c, t, c', t', i);
    }

    lemma BelowIndex(dir: bool, c: Ctx<Ptr>, t: Tree<Ptr>, c': Ctx<Ptr>, t': Tree<Ptr>, i: nat)
      requires Plug(c, t) == tree && t.Node? && i == Index(c, t)
      requires Plug(c', t') == tree && t'.Node? && Kid(t', !dir).Leaf?
      requires var c0 := In(dir, t.red, t.n, Kid(t, !dir), c); if dir then Before(c') == Before(c0) else After(c') == After(c0)
      ensures Stands(Item(t'.n), i + if dir then 1 else -1)
    {
      IndexIn(c, t);
      if dir { NextIndex(c', t', i + 1); } else { PrevIndex(c', t', i - 1); }
    }

    /** Upwards: the first ancestor on side `dir`. */
    method StepUp(start: Ptr, dir: bool, ghost c0: Ctx<Ptr>, ghost t0: Tree<Ptr>, ghost i: nat) returns (r: Itr)
      requires At(c0, t0) && Plug(c0, t0) == tree && t0.Node? && t0.n == start && i == Index(c0, t0)
      requires Kid(t0, dir).Leaf?
      ensures Stands(r, i + if dir then 1 else -1)
    {
      var node := start;
      ghost var c, t := c0, t0;
      UpGuard(c, t, sentinel, hdrs, root);
      while hdrs[node].parent != sentinel
        invariant At(c, t) && Plug(c, t) == tree && t.Node? && t.n == node
        invariant node in hdrs && hdrs[node].parent == ParentOf(c, sentinel) && (c.In? ==> c.n != sentinel)
        invariant if dir then |Before(c)| + |Inorder(t)| == i + 1 else |Before(c)| == i
        decreases c
      {
        ParentCell(c, t, sentinel, hdrs, root);
        ghost var up := Make(c.d, c.red, c.n, t, c.sib);
        IndexIn(c.up, up);
        if GetKid(hdrs[hdrs[node].parent], !dir) == node { return Item(hdrs[node].parent); }
        ZipUp(c.d, c.red, c.n, c.sib, c.up, t, sentinel, hdrs, root);
        node, c, t := hdrs[node].parent, c.up, up;
        UpGuard(c, t, sentinel, hdrs, root);
      }
      return EndItr(dir);
    }

    /** `cc_omap_iterate`: the neighbour in the order, or an end. */
    method Iterate(itr: Itr, dir: bool, ghost i: int) returns (r: Itr)
      requires Valid() && Stands(itr, i) && itr != EndItr(dir)
      ensures Stands(r, i + if dir then 1 else -1)
    {
      if itr == EndItr(!dir) {
        r := FirstOrLast(dir);
        return;
      }
      var node := itr.p;
      ghost var a, b := Order()[..i], Order()[i + 1..];
      assert Order() == a + [node] + b;
      ghost var c, t := Find(node, a, b);
      FocusCell(c, t, sentinel, hdrs, root);
      if GetKid(hdrs[node], dir) != sentinel {
        var p := StepDown(node, dir, c, t, i);
        return Item(p);
      }
      r := StepUp(node, dir, c, t, i);
    }

    /** `cc_omap_erase_itr`: the iterator returned stands where the erased node stood. */
    method EraseItr(itr: Ptr, ghost i: nat) returns (next: Itr)
      requires Valid() && Stands(Item(itr), i)
      modifies this
      ensures Valid() && Order() == RemoveAt(old(Order()), i) && Stands(next, i)
      ensures keys == old(keys) - {itr} && els == old(els) - {itr} && contents == old(contents) - {old(keys)[itr]}
    {
      next := Iterate(Item(itr), true, i);
      EraseRaw(itr, i);
    }

    /** The nearest node on side `dir` of the place `t`. */
    ghost predicate Beside(r: Itr, dir: bool, c: Ctx<Ptr>, t: Tree<Ptr>)
      reads this`tree
    {
      Stands(r, if dir then |Before(c)| + |Inorder(t)| else |Before(c)| - 1)
    }

    lemma BesideBelow(r: Itr, dir: bool, d: bool, c: Ctx<Ptr>, t: Tree<Ptr>)
      requires Plug(c, t) == tree && t.Node? && Beside(r, dir, c, t)
      ensures Beside(if d == dir then r else Item(t.n), dir, In(d, t.red, t.n, Kid(t, !d), c), Kid(t, d))
    {
      IndexIn(c, t);
    }

    /** Place `i` separates the order at the key: from it on no key is below, or up to it no key is above. */
    ghost predicate Splits(key: K, dir: bool, i: int)
      reads this
    {
      if dir then forall j | 0 <= j < |Order()| && Order()[j] in keys :: j < i <==> cmpr(keys[Order()[j]], key) < 0
      else forall j | 0 <= j < |Order()| && Order()[j] in keys :: j > i <==> cmpr(keys[Order()[j]], key) > 0
    }

    /** `cc_omap_bounded_first_or_last`: the first node not below the key, or the last not above it. */
    method BoundedFirstOrLast(key: K, dir: bool) returns (r: Itr, ghost i: int)
      requires Valid()
      ensures Stands(r, i) && Splits(key, dir, i)
    {
      var node := root;
      r := EndItr(dir);
      ghost var c, t := Top, tree;
      while node != sentinel
        invariant At(c, t) && Plug(c, t) == tree && node == RootOf(t, sentinel) && Bounded(c, key, keys, cmpr)
        invariant t.Node? ==> node != sentinel && node in hdrs
        invariant Beside(r, dir, c, t)
        decreases t
      {
        var q := cmpr(keys[node], key);
        if q == 0 {
          i := EqualKey(c, t, key);
          return Item(node), i;
        }
        BesideBelow(r, dir, q < 0, c, t);
        if (q > 0) == dir { r := Item(node); }
        node, c, t := Lower(node, q < 0, key, c, t);
      }
      i := if dir then |Before(c)| else |Before(c)| - 1;
      EmptyPlace(c, key);
    }

    lemma EqualKey(c: Ctx<Ptr>, t: Tree<Ptr>, key: K) returns (i: nat)
      requires Valid() && Plug(c, t) == tree && t.Node? && t.n in keys && keys[t.n] == key
      ensures i < |Order()| && Order()[i] == t.n && Splits(key, true, i) && Splits(key, false, i)
    {
      IndexIn(c, t);
      i := Index(c, t);
    }

    lemma EmptyPlace(c: Ctx<Ptr>, key: K)
      requires Valid() && Plug(c, Leaf) == tree && Bounded(c, key, keys, cmpr)
      ensures Splits(key, true, |Before(c)|) && Splits(key, false, |Before(c)| - 1)
    {
      PlugOne(c, true, sentinel);
      SplitAt(Before(c), After(c), key, keys, cmpr);
    }

    /** Every map is balanced: a tree of height h with n nodes has 2^h <= (n + 1)^2. */
    lemma Logarithmic()
      requires Valid()
      ensures Pow2(Height(tree)) <= (size + 1) * (size + 1)
      ensures Pow2(Height(tree) / 2) <= size + 1
    {
      HeightBound(tree);
    }

    // -------------------------------------------------------------- cc_omap_clear

    /** One move: down to a child, cutting the link to it, or up, freeing the node. */
    method ClearStep(node: Ptr, ghost c: Ctx<Ptr>, ghost t: Tree<Ptr>)
      returns (next: Ptr, ghost c': Ctx<Ptr>, ghost t': Tree<Ptr>)
      requires TornAt(c, t, sentinel, hdrs) && t.Node? && t.n == node && keys.Keys == hdrs.Keys && els.Keys == hdrs.Keys
      modifies this`hdrs, this`keys, this`els
      ensures TornAt(c', t', sentinel, hdrs) && next == RootOf(t', sentinel)
      ensures keys.Keys == hdrs.Keys && els.Keys == hdrs.Keys && node in old(hdrs)
      ensures (hdrs.Keys == old(hdrs.Keys) && (t' == t.l || t' == t.r)) || hdrs.Keys == old(hdrs.Keys) - {node}
    {
      if hdrs[node].kid0 != sentinel {
        TearDown(c, t, false, sentinel, hdrs);
        next := hdrs[node].kid0;
        hdrs := hdrs[node := hdrs[node].(kid0 := sentinel)];
        c', t' := In(false, t.red, t.n, t.r, c), t.l;
      } else if hdrs[node].kid1 != sentinel {
        TearDown(c, t, true, sentinel, hdrs);
        next := hdrs[node].kid1;
        hdrs := hdrs[node := hdrs[node].(kid1 := sentinel)];
        c', t' := In(true, t.red, t.n, t.l, c), t.r;
      } else {
        Release(c, t, sentinel, hdrs);
        next := hdrs[node].parent;
        hdrs, keys, els := hdrs - {node}, keys - {node}, els - {node};
        c', t' := if c.Top? then (Top) else c.up, if c.Top? then Leaf else Make(c.d, c.red, c.n, Leaf, c.sib);
      }
    }

    /** The loop of `cc_omap_clear`. */
    method ClearLoop() returns (ghost freed: seq<Ptr>)
      requires TornAt(Top, tree, sentinel, hdrs) && root == RootOf(tree, sentinel)
      requires keys.Keys == hdrs.Keys && els.Keys == hdrs.Keys
      modifies this`hdrs, this`keys, this`els
      ensures hdrs.Keys == {} && keys.Keys == {} && els.Keys == {} && Once(freed, {}, old(hdrs.Keys))
    {
      var node := root;
      ghost var c, t: Tree<Ptr> := Top, tree;
      freed := [];
      while node != sentinel
        invariant TornAt(c, t, sentinel, hdrs) && node == RootOf(t, sentinel)
        invariant keys.Keys == hdrs.Keys && els.Keys == hdrs.Keys
        invariant Once(freed, hdrs.Keys, old(hdrs.Keys)) && hdrs.Keys <= old(hdrs.Keys)
        decreases |hdrs.Keys|, t
      {
        ghost var left, at := hdrs.Keys, node;
        node, c, t := ClearStep(node, c, t);
        OnceMore(freed, left, old(hdrs.Keys), at);
        if at !in hdrs { freed := freed + [at]; }
      }
    }

    /** `cc_omap_clear`: every node is freed exactly once. */
    method Clear() returns (ghost freed: seq<Ptr>)
      requires Valid()
      modifies this
      ensures Valid() && contents == map[] && Order() == [] && hdrs == map[]
      ensures Once(freed, {}, old(hdrs.Keys))
    {
      freed := ClearLoop();
      size, root := 0, sentinel;
      tree, contents := Leaf, map[];
    }

    // -------------------------------------------------------------- cc_omap_init_clone

    /** What the nodes store. */
    ghost function Pairs(): map<Ptr, (K, V)>
      reads this`keys, this`els
    {
      map p | p in keys.Keys && p in els :: (keys[p], els[p])
    }

    method Store(x: Ptr, key: K, el: V)
      requires x !in keys && keys.Keys == els.Keys
      modifies this`keys, this`els
      ensures Pairs() == old(Pairs())[x := (key, el)] && keys.Keys == old(keys.Keys) + {x} && els.Keys == keys.Keys
    {
      keys, els := keys[x := key], els[x := el];
    }

    /** Makes the node at the address `x` child `d` of `parent`. */
    method AddKid(x: Ptr, parent: Ptr, d: bool, red: bool, ghost c: Ctx<Ptr>, ghost t: Tree<Ptr>)
      requires At(c, t) && t.Node? && t.n == parent && Kid(t, d).Leaf?
      requires x !in hdrs && x != sentinel && hdrs.Keys == Nodes(Plug(c, t))
      modifies this`hdrs
      ensures At(In(d, t.red, t.n, Kid(t, !d), c), Node(red, x, Leaf, Leaf)) && hdrs.Keys == old(hdrs.Keys) + {x}
      ensures hdrs.Keys == Nodes(Plug(In(d, t.red, t.n, Kid(t, !d), c), Node(red, x, Leaf, Leaf)))
    {
      ghost var u := In(d, t.red, t.n, Kid(t, !d), c);
      ZipUp(d, t.red, t.n, Kid(t, !d), c, Leaf, sentinel, hdrs, root);
      ParentCell(u, Leaf, sentinel, hdrs, root);
      KidNodes(c, t, d, red, x);
      hdrs := hdrs[parent := SetKid(hdrs[parent], d, x)];
      hdrs := hdrs[x := Cell(red, parent, sentinel, sentinel)];
      AttachZip(u, red, x, sentinel, old(hdrs), hdrs, root, root);
    }

    /** The original at `(c, t)` and the copy at `(c', t')` agree as far as the copy has grown. */
    ghost predicate Growth(r: OMap<K, V>, c: Ctx<Ptr>, t: Tree<Ptr>, c': Ctx<Ptr>, t': Tree<Ptr>)
      reads this, r
    {
      && At(c, t) && Plug(c, t) == tree && r.At(c', t') && r.sentinel == sentinel
      && GrowingCtx(c, c', Pairs(), r.Pairs()) && Growing(t, t', Pairs(), r.Pairs())
      && r.hdrs.Keys == Nodes(Plug(c', t')) && r.keys.Keys == r.hdrs.Keys && r.els.Keys == r.hdrs.Keys
    }

    lemma KidAt(c: Ctx<Ptr>, t: Tree<Ptr>, d: bool)
      requires At(c, t) && t.Node? && Kid(t, d).Node?
      ensures At(In(d, t.red, t.n, Kid(t, !d), c), Kid(t, d))
      ensures t.n in hdrs && GetKid(hdrs[t.n], d) == Kid(t, d).n && Kid(t, d).n in hdrs && hdrs[Kid(t, d).n].red == Kid(t, d).red
    {
      FocusCell(c, t, sentinel, hdrs, root);
      ZipUp(d, t.red, t.n, Kid(t, !d), c, Kid(t, d), sentinel, hdrs, root);
      FocusCell(In(d, t.red, t.n, Kid(t, !d), c), Kid(t, d), sentinel, hdrs, root);
    }

    /** Both walks go down to child `d`, which the copy did not have. */
    method CloneDown(r: OMap<K, V>, src: Ptr, new_: Ptr, d: bool, x: Ptr,
                     ghost c: Ctx<Ptr>, ghost t: Tree<Ptr>, ghost c': Ctx<Ptr>, ghost t': Tree<Ptr>)
      requires r != this && Growth(r, c, t, c', t') && src == t.n && new_ == t'.n && x !in r.hdrs && x != sentinel
      requires keys.Keys == hdrs.Keys && els.Keys == hdrs.Keys
      requires Kid(t, d).Node? && Kid(t', d).Leaf? && (d && t.l.Node? ==> t'.l.Node?)
      modifies r`hdrs, r`keys, r`els
      ensures r.hdrs.Keys == old(r.hdrs.Keys) + {x}
      ensures Growth(r, In(d, t.red, t.n, Kid(t, !d), c), Kid(t, d),
                        In(d, t'.red, t'.n, Kid(t', !d), c'), Node(Kid(t, d).red, x, Leaf, Leaf))
    {
      KidAt(c, t, d);
      var kid := GetKid(hdrs[src], d);
      GrowDown(c, t, c', t', d, x, Pairs(), r.Pairs());
      r.Store(x, keys[kid], els[kid]);
      r.AddKid(x, new_, d, hdrs[kid].red, c', t');
    }

    /** A child that the original has and the copy lacks. */
    method Missing(r: OMap<K, V>, src: Ptr, new_: Ptr, ghost c: Ctx<Ptr>, ghost t: Tree<Ptr>, ghost c': Ctx<Ptr>, ghost t': Tree<Ptr>)
      returns (dir: nat)
      requires Growth(r, c, t, c', t') && src == t.n && new_ == t'.n
      ensures dir <= 2
      ensures dir < 2 ==> Kid(t, dir == 1).Node? && Kid(t', dir == 1).Leaf?
      ensures dir > 0 && t.l.Node? ==> t'.l.Node?
      ensures dir > 1 && t.r.Node? ==> t'.r.Node?
    {
      FocusCell(c, t, sentinel, hdrs, root);
      FocusCell(c', t', sentinel, r.hdrs, r.root);
      dir := 0;
      while dir < 2
        invariant dir <= 2
        invariant dir > 0 && t.l.Node? ==> t'.l.Node?
        invariant dir > 1 && t.r.Node? ==> t'.r.Node?
      {
        if GetKid(hdrs[src], dir == 1) != sentinel && GetKid(r.hdrs[new_], dir == 1) == r.sentinel { break; }
        dir := dir + 1;
      }
    }

    /** Nothing is missing here: both walks go back up. */
    lemma CloneUp(r: OMap<K, V>, c: Ctx<Ptr>, t: Tree<Ptr>, c': Ctx<Ptr>, t': Tree<Ptr>)
      requires Growth(r, c, t, c', t') && (t.l.Node? ==> t'.l.Node?) && (t.r.Node? ==> t'.r.Node?)
      ensures Copied(t, t', Pairs(), r.Pairs()) && (c.In? ==> c'.In?)
      ensures c.Top? ==> c'.Top?
      ensures c.In? ==> Growth(r, c.up, Make(c.d, c.red, c.n, t, c.sib), c'.up, Make(c'.d, c'.red, c'.n, t', c'.sib))
    {
      GrowUp(c, t, c', t', Pairs(), r.Pairs());
      if c.In? {
        ZipUp(c.d, c.red, c.n, c.sib, c.up, t, sentinel, hdrs, root);
        ZipUp(c'.d, c'.red, c'.n, c'.sib, c'.up, t', sentinel, r.hdrs, r.root);
      }
    }

    /** The addresses that the allocator hands out before it fails: new and different from each other. */
    ghost predicate Fresh(mem: seq<Ptr>)
      reads this`hdrs
    {
      Elements(mem) !! hdrs.Keys + {sentinel} && NoRepeat(mem)
    }

    lemma TakeNext(mem: seq<Ptr>, n: nat)
      requires Fresh(mem) && n < |mem|
      ensures mem[n] !in Firsts(mem, n) && mem[n] != sentinel
    {
      NoRepeatAt(mem, n);
      FirstsAre(mem, n);
      assert mem[n] in Elements(mem);
    }

    /** Both walks are at the same place, and the copy uses the first `n` addresses. */
    ghost predicate Walking(r: OMap<K, V>, src: Ptr, new_: Ptr, mem: seq<Ptr>, n: nat,
                            c: Ctx<Ptr>, t: Tree<Ptr>, c': Ctx<Ptr>, t': Tree<Ptr>)
      reads this, r
    {
      && Growth(r, c, t, c', t') && n <= |mem| && r.hdrs.Keys == Firsts(mem, n)
      && (src == sentinel ==> c.Top? && c'.Top? && t == tree && Copied(tree, t', Pairs(), r.Pairs()))
      && (src != sentinel ==> src == t.n && new_ == t'.n)
    }

    /** Both walks go back up. */
    method CloneBack(r: OMap<K, V>, src: Ptr, new_: Ptr, ghost mem: seq<Ptr>, ghost n: nat,
                     ghost c: Ctx<Ptr>, ghost t: Tree<Ptr>, ghost c': Ctx<Ptr>, ghost t': Tree<Ptr>)
      returns (src1: Ptr, new1: Ptr, ghost c1: Ctx<Ptr>, ghost t1: Tree<Ptr>, ghost c2: Ctx<Ptr>, ghost t2: Tree<Ptr>)
      requires src != sentinel && Walking(r, src, new_, mem, n, c, t, c', t')
      requires (t.l.Node? ==> t'.l.Node?) && (t.r.Node? ==> t'.r.Node?)
      ensures Walking(r, src1, new1, mem, n, c1, t1, c2, t2)
      ensures src1 == sentinel || Depth(c1) < Depth(c)
    {
      CloneUp(r, c, t, c', t');
      UpGuard(c, t, sentinel, hdrs, root);
      UpGuard(c', t', sentinel, r.hdrs, r.root);
      src1, new1 := hdrs[src].parent, r.hdrs[new_].parent;
      c1, t1, c2, t2 := c, t, c', t';
      if c.In? {
        c1, t1, c2, t2 := c.up, Make(c.d, c.red, c.n, t, c.sib), c'.up, Make(c'.d, c'.red, c'.n, t', c'.sib);
      }
    }

    /** Both walks go down. */
    method CloneForth(r: OMap<K, V>, src: Ptr, new_: Ptr, d: bool, x: Ptr,
                      ghost c: Ctx<Ptr>, ghost t: Tree<Ptr>, ghost c': Ctx<Ptr>, ghost t': Tree<Ptr>)
      returns (src1: Ptr, new1: Ptr, ghost c1: Ctx<Ptr>, ghost t1: Tree<Ptr>, ghost c2: Ctx<Ptr>, ghost t2: Tree<Ptr>)
      requires r != this && Growth(r, c, t, c', t') && src == t.n && new_ == t'.n && x !in r.hdrs && x != sentinel
      requires keys.Keys == hdrs.Keys && els.Keys == hdrs.Keys
      requires Kid(t, d).Node? && Kid(t', d).Leaf? && (d && t.l.Node? ==> t'.l.Node?)
      modifies r`hdrs, r`keys, r`els
      ensures r.hdrs.Keys == old(r.hdrs.Keys) + {x} && Growth(r, c1, t1, c2, t2)
      ensures src1 != sentinel && src1 == t1.n && new1 == t2.n
    {
      FocusCell(c, t, sentinel, hdrs, root);
      src1, new1 := GetKid(hdrs[src], d), x;
      CloneDown(r, src, new_, d, x, c, t, c', t');
      c1, t1 := In(d, t.red, t.n, Kid(t, !d), c), Kid(t, d);
      c2, t2 := In(d, t'.red, t'.n, Kid(t', !d), c'), Node(Kid(t, d).red, x, Leaf, Leaf);
    }

    method CloneNext(r: OMap<K, V>, src: Ptr, new_: Ptr, d: bool, mem: seq<Ptr>, n: nat,
                     ghost c: Ctx<Ptr>, ghost t: Tree<Ptr>, ghost c': Ctx<Ptr>, ghost t': Tree<Ptr>)
      returns (src1: Ptr, new1: Ptr, ghost c1: Ctx<Ptr>, ghost t1: Tree<Ptr>, ghost c2: Ctx<Ptr>, ghost t2: Tree<Ptr>)
      requires r != this && src != sentinel && Walking(r, src, new_, mem, n, c, t, c', t') && Fresh(mem) && n < |mem|
      requires keys.Keys == hdrs.Keys && els.Keys == hdrs.Keys
      requires Kid(t, d).Node? && Kid(t', d).Leaf? && (d && t.l.Node? ==> t'.l.Node?)
      modifies r`hdrs, r`keys, r`els
      ensures Walking(r, src1, new1, mem, n + 1, c1, t1, c2, t2)
    {
      TakeNext(mem, n);
      src1, new1, c1, t1, c2, t2 := CloneForth(r, src, new_, d, mem[n], c, t, c', t');
    }

    /** Adds the missing child; this fails when the addresses are used up. */
    method CloneGrow(r: OMap<K, V>, src: Ptr, new_: Ptr, d: bool, mem: seq<Ptr>, n: nat,
                     ghost c: Ctx<Ptr>, ghost t: Tree<Ptr>, ghost c': Ctx<Ptr>, ghost t': Tree<Ptr>)
      returns (ok: bool, src1: Ptr, new1: Ptr, n1: nat, ghost c1: Ctx<Ptr>, ghost t1: Tree<Ptr>, ghost c2: Ctx<Ptr>, ghost t2: Tree<Ptr>)
      requires r != this && Fresh(mem) && keys.Keys == hdrs.Keys && els.Keys == hdrs.Keys
      requires src != sentinel && Walking(r, src, new_, mem, n, c, t, c', t')
      requires Kid(t, d).Node? && Kid(t', d).Leaf? && (d && t.l.Node? ==> t'.l.Node?)
      modifies r`hdrs, r`keys, r`els
      ensures Walking(r, src1, new1, mem, n1, c1, t1, c2, t2)
      ensures if ok then n1 == n + 1 else Lacking(c1, t1, c2, t2) >= 1 && n1 == |mem|
    {
      ok := n < |mem|;
      if ok {
        src1, new1, c1, t1, c2, t2 := CloneNext(r, src, new_, d, mem, n, c, t, c', t');
        n1 := n + 1;
      } else {
        LackSome(c, t, c', t', d, Pairs(), r.Pairs());
        src1, new1, n1, c1, t1, c2, t2 := src, new_, n, c, t, c', t';
      }
    }

    /** One turn of the loop. */
    method CloneTurn(r: OMap<K, V>, src: Ptr, new_: Ptr, mem: seq<Ptr>, n: nat,
                     ghost c: Ctx<Ptr>, ghost t: Tree<Ptr>, ghost c': Ctx<Ptr>, ghost t': Tree<Ptr>)
      returns (ok: bool, src1: Ptr, new1: Ptr, n1: nat, ghost c1: Ctx<Ptr>, ghost t1: Tree<Ptr>, ghost c2: Ctx<Ptr>, ghost t2: Tree<Ptr>)
      requires r != this && Fresh(mem) && keys.Keys == hdrs.Keys && els.Keys == hdrs.Keys
      requires src != sentinel && Walking(r, src, new_, mem, n, c, t, c', t')
      modifies r`hdrs, r`keys, r`els
      ensures Walking(r, src1, new1, mem, n1, c1, t1, c2, t2)
      ensures !ok ==> Lacking(c1, t1, c2, t2) >= 1 && n1 == |mem|
      ensures ok ==> n1 == n + 1 || (n1 == n && (src1 == sentinel || Depth(c1) < Depth(c)))
    {
      var dir := Missing(r, src, new_, c, t, c', t');
      if dir == 2 {
        ok, n1 := true, n;
        src1, new1, c1, t1, c2, t2 := CloneBack(r, src, new_, mem, n, c, t, c', t');
      } else {
        ok, src1, new1, n1, c1, t1, c2, t2 := CloneGrow(r, src, new_, dir == 1, mem, n, c, t, c', t');
      }
    }

    /** The loop of `cc_omap_init_clone`. */
    method CloneLoop(r: OMap<K, V>, mem: seq<Ptr>) returns (ok: bool, n: nat, ghost copy: Tree<Ptr>)
      requires r != this && Fresh(mem) && tree.Node? && root == tree.n && keys.Keys == hdrs.Keys && els.Keys == hdrs.Keys
      requires Growth(r, Top, tree, Top, Node(tree.red, r.root, Leaf, Leaf)) && mem != [] && r.hdrs.Keys == Firsts(mem, 1)
      modifies r`hdrs, r`keys, r`els
      ensures r.At(Top, copy) && r.sentinel == sentinel && r.hdrs.Keys == Nodes(copy)
      ensures r.keys.Keys == r.hdrs.Keys && r.els.Keys == r.hdrs.Keys
      ensures n <= |mem| && r.hdrs.Keys == Elements(mem[..n])
      ensures ok ==> Growth(r, Top, tree, Top, copy) && Copied(tree, copy, Pairs(), r.Pairs()) && n == Count(tree)
      ensures !ok ==> n < Count(tree) && n == |mem|
    {
      var src, new_ := root, r.root;
      ok, n := true, 1;
      ghost var c, t, c', t' := Top, tree, Top, Node(tree.red, r.root, Leaf, Leaf);
      FocusCell(Top, tree, sentinel, hdrs, root);
      while ok && src != sentinel
        invariant Walking(r, src, new_, mem, n, c, t, c', t')
        invariant !ok ==> Lacking(c, t, c', t') >= 1 && n == |mem|
        decreases ok, src != sentinel, |mem| - n, Depth(c)
      {
        ok, src, new_, n, c, t, c', t' := CloneTurn(r, src, new_, mem, n, c, t, c', t');
      }
      copy := Plug(c', t');
      NoRepeatFirst(mem, n);
      FirstsAre(mem, n);
      Grown(r, mem[..n], c, t, c', t');
    }

    /** The copy has as many nodes as addresses were used, and fewer than the original where it lacks some. */
    lemma Grown(r: OMap<K, V>, used: seq<Ptr>, c: Ctx<Ptr>, t: Tree<Ptr>, c': Ctx<Ptr>, t': Tree<Ptr>)
      requires Growth(r, c, t, c', t') && r.hdrs.Keys == Elements(used) && NoRepeat(used)
      ensures r.At(Top, Plug(c', t')) && |used| + Lacking(c, t, c', t') == Count(tree)
      ensures c.Top? && Copied(t, t', Pairs(), r.Pairs()) ==> |used| == Count(tree)
    {
      ZipWhole(c', t', sentinel, r.hdrs, r.root);
      CountNodes(Plug(c', t'));
      CountElements(used);
      PlugCount(c, t);
      PlugCount(c', t');
      if c.Top? && Copied(t, t', Pairs(), r.Pairs()) { CopiedCount(t, t', Pairs(), r.Pairs()); }
    }

    /** What a complete copy stands for. */
    lemma CloneMeaning(r: OMap<K, V>, copy: Tree<Ptr>)
      requires Valid() && Growth(r, Top, tree, Top, copy) && Copied(tree, copy, Pairs(), r.Pairs())
      ensures RedBlack(copy) && |Inorder(copy)| == size && SortedBy(Inorder(copy), r.keys, cmpr)
      ensures StandFor(r.keys, r.els, contents)
    {
      var o, o' := Inorder(tree), Inorder(copy);
      CopiedRb(tree, copy, Pairs(), r.Pairs(), BlackHeight(tree));
      RbHeight(copy, BlackHeight(tree));
      CopiedOrder(tree, copy, Pairs(), r.Pairs());
      forall i | 0 <= i < |o| ensures o[i] in keys && o'[i] in r.keys && r.keys[o'[i]] == keys[o[i]] && r.els[o'[i]] == els[o[i]] {
        assert Pairs()[o[i]] == (keys[o[i]], els[o[i]]) && r.Pairs()[o'[i]] == (r.keys[o'[i]], r.els[o'[i]]);
      }
      SortedAlike(o, o', keys, r.keys, cmpr);
      forall p ensures p in keys <==> p in o { NodesInorder(tree, p); }
      forall p ensures p in r.keys <==> p in o' { NodesInorder(copy, p); }
      StandAlike(o, o', keys, els, r.keys, r.els, contents);
    }

    /** The root of the copy. */
    method CloneRoot(r: OMap<K, V>, x: Ptr)
      requires r != this && Valid() && tree.Node? && x != sentinel && r.sentinel == sentinel && r.keys == map[] && r.els == map[]
      modifies r`root, r`hdrs, r`keys, r`els
      ensures Growth(r, Top, tree, Top, Node(tree.red, x, Leaf, Leaf)) && r.root == x && r.hdrs.Keys == {x}
    {
      FocusCell(Top, tree, sentinel, hdrs, root);
      r.root := x;
      r.hdrs := map[x := Cell(false, sentinel, sentinel, sentinel)];
      r.Store(x, keys[root], els[root]);
      OneNode(x, sentinel);
      assert !tree.red && Pairs()[tree.n] == (keys[root], els[root]);
    }

    /** Copies all nodes, or fails. */
    method CloneNodes(r: OMap<K, V>, mem: seq<Ptr>) returns (ok: bool, ghost copy: Tree<Ptr>)
      requires r != this && Valid() && tree.Node? && Fresh(mem) && mem != []
      requires r.sentinel == sentinel && r.keys == map[] && r.els == map[]
      modifies r`root, r`hdrs, r`keys, r`els
      ensures r.At(Top, copy) && r.sentinel == sentinel && r.hdrs.Keys == Nodes(copy)
      ensures r.keys.Keys == r.hdrs.Keys && r.els.Keys == r.hdrs.Keys
      ensures ok == (size <= |mem|) && r.hdrs.Keys == Elements(if ok then mem[..size] else mem)
      ensures ok ==> Growth(r, Top, tree, Top, copy) && Copied(tree, copy, Pairs(), r.Pairs())
    {
      TakeNext(mem, 0);
      CloneRoot(r, mem[0]);
      assert Firsts(mem, 1) == {mem[0]};
      FocusCell(Top, tree, sentinel, hdrs, root);
      InorderCount(tree);
      var n;
      ok, n, copy := CloneLoop(r, mem);
      assert !ok ==> mem[..n] == mem;
    }

    /** The copy becomes a map of its own. */
    method Adopt(ghost t: Tree<Ptr>, n: nat, ghost m: map<K, V>)
      requires At(Top, t) && RedBlack(t) && hdrs.Keys == Nodes(t) && n == |Inorder(t)|
      requires keys.Keys == hdrs.Keys && TotalOrder(cmpr) && SortedBy(Inorder(t), keys, cmpr) && StandFor(keys, els, m)
      modifies this`size, this`tree, this`contents
      ensures Valid() && contents == m && tree == t
    {
      ghost var ks, es := keys, els;
      tree := t;
      assert Order() == Inorder(t) && keys == ks && els == es;
      Recount(n, m);
    }

    method Complete(r: OMap<K, V>, ghost copy: Tree<Ptr>)
      requires r != this && Valid() && r.cmpr == cmpr
      requires Growth(r, Top, tree, Top, copy) && Copied(tree, copy, Pairs(), r.Pairs())
      modifies r`size, r`tree, r`contents
      ensures r.Valid() && r.contents == contents && r.tree == copy
    {
      CloneMeaning(r, copy);
      r.Adopt(copy, size, contents);
    }

    /** The partial copy is freed, node by node. */
    method Abandon(ghost copy: Tree<Ptr>) returns (ghost freed: seq<Ptr>)
      requires At(Top, copy) && hdrs.Keys == Nodes(copy) && keys.Keys == hdrs.Keys && els.Keys == hdrs.Keys
      modifies this`hdrs, this`keys, this`els, this`tree
      ensures hdrs.Keys == {} && Once(freed, {}, old(hdrs.Keys))
    {
      tree := copy;
      freed := ClearLoop();
    }

    method CloneInto(r: OMap<K, V>, mem: seq<Ptr>) returns (ok: bool, ghost freed: seq<Ptr>)
      requires r != this && Valid() && tree.Node? && Fresh(mem) && mem != []
      requires r.sentinel == sentinel && r.cmpr == cmpr && r.keys == map[] && r.els == map[]
      modifies r
      ensures ok == (size <= |mem|)
      ensures ok ==> r.Valid() && r.contents == contents && Copied(tree, r.tree, Pairs(), r.Pairs())
      ensures ok ==> r.hdrs.Keys == Elements(mem[..size])
      ensures !ok ==> r.hdrs.Keys == {} && Once(freed, {}, Elements(mem))
    {
      ghost var copy;
      ok, copy := CloneNodes(r, mem);
      freed := [];
      if ok {
        Complete(r, copy);
      } else {
        freed := r.Abandon(copy);
      }
    }

    lemma TakenApart(mem: seq<Ptr>, n: nat)
      requires Fresh(mem) && n <= |mem|
      ensures Elements(mem[..n]) !! hdrs.Keys
    {
      forall p | p in Elements(mem[..n]) ensures p in Elements(mem) {}
    }

    /** `cc_omap_init_clone`; `mem` holds the addresses that the allocator hands out before it fails, and `header`
        says whether there was memory for the header before.  The clone is a map of its own with the same shape,
        colours and contents; that of an empty map is a placeholder.  There is none if and only if the source is
        not empty and the memory does not suffice; then every node allocated so far is freed, exactly once. */
    method Clone(header: bool, mem: seq<Ptr>) returns (r: Option<OMap<K, V>>, ghost freed: seq<Ptr>)
      requires Valid() && Fresh(mem)
      ensures r.Some? <==> size == 0 || (header && size <= |mem|)
      ensures r.Some? ==> fresh(r.value) && r.value.Valid() && r.value.contents == contents && r.value.hdrs.Keys !! hdrs.Keys
      ensures r.Some? ==> Copied(tree, r.value.tree, Pairs(), r.value.Pairs()) && r.value.hdrs.Keys == Elements(mem[..size])
      ensures r.None? ==> Once(freed, {}, if header then Elements(mem) else {})
    {
      freed := [];
      if size != 0 && (!header || mem == []) { return None, []; }
      var copy := new OMap(sentinel, cmpr);
      if size == 0 {
        assert tree.Leaf? && mem[..0] == [];
        return Some(copy), [];
      }
      var ok;
      ok, freed := CloneInto(copy, mem);
      if ok { TakenApart(mem, size); }
      r := if ok then Some(copy) else None;
    }
  }

  ghost function Elements(s: seq<Ptr>): set<Ptr> {
    set p | p in s
  }

  /** The first `n` elements. */
  ghost function Firsts(s: seq<Ptr>, n: nat): set<Ptr>
    requires n <= |s|
  {
    if n == 0 then {} else Firsts(s, n - 1) + {s[n - 1]}
  }

  lemma {:induction false} FirstsAre(s: seq<Ptr>, n: nat)
    requires n <= |s|
    ensures Firsts(s, n) == Elements(s[..n])
  {
    if n > 0 {
      FirstsAre(s, n - 1);
      assert s[..n] == s[..n - 1] + [s[n - 1]];
    }
  }

  ghost predicate NoRepeat(s: seq<Ptr>) {
    s == [] || (s[|s| - 1] !in s[..|s| - 1] && NoRepeat(s[..|s| - 1]))
  }

  lemma {:induction false} CountElements(s: seq<Ptr>)
    requires NoRepeat(s)
    ensures |Elements(s)| == |s|
  {
    if s != [] {
      var l := |s| - 1;
      CountElements(s[..l]);
      assert s == s[..l] + [s[l]];
      assert Elements(s) == Elements(s[..l]) + {s[l]};
    }
  }

  /** Up to any place. */
  lemma {:induction false} NoRepeatFirst(s: seq<Ptr>, n: nat)
    requires NoRepeat(s) && n <= |s|
    ensures NoRepeat(s[..n])
  {
    if n < |s| {
      NoRepeatFirst(s[..|s| - 1], n);
      assert s[..|s| - 1][..n] == s[..n];
    } else {
      assert s[..n] == s;
    }
  }

  lemma {:induction false} NoRepeatAt(s: seq<Ptr>, n: nat)
    requires NoRepeat(s) && n < |s|
    ensures s[n] !in s[..n]
  {
    if n < |s| - 1 {
      NoRepeatAt(s[..|s| - 1], n);
      assert s[..|s| - 1][..n] == s[..n];
    }
  }
}
