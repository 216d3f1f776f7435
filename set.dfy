/**
 * class set (include/taapp/set.h): a red-black tree of rbnode records.
 *
 * The records live in the map `nodes`, keyed by node identity (the
 * allocator's storage); `root` is root_ and `size` is size_.  An iterator
 * is the identity of the node it points at, end() being NIL.  The ghost
 * field `tree` is the tree the records hold (`Holds`), and `Keys(tree)`,
 * the keys in increasing order, is what the set contains.
 */
module RedBlackSet {
  import opened Orders
  import opened SortedKeys
  import opened RedBlackTrees
  import opened RedBlackNodes

  /**
   * The invariant of class set: the records hold a red-black tree whose
   * keys are strictly increasing, size_ counts them, and the allocator's
   * next identity is fresh.
   */
  ghost predicate Invariant<K(!new)>(less: (K, K) -> bool, t: Tree<K>, nodes: Heap<K>, root: int, size: nat, next: nat)
  {
    StrictWeakOrder(less) && Holds(t, nodes, root) && IsRB(t)
    && Sorted(less, Keys(t)) && size == |Keys(t)|
    && (forall z :: z in nodes ==> z < next)
  }

  class Set<K(!new)> {
    /** compare_ */
    const less: (K, K) -> bool
    var nodes: Heap<K>
    var root: int
    var size: nat
    /** The identity the allocator hands out next. */
    var next: nat
    ghost var tree: Tree<K>

    ghost predicate Valid()
      reads this
    {
      Invariant(less, tree, nodes, root, size, next)
    }

    /** set() (set.h:225-227) */
    constructor(less: (K, K) -> bool)
      requires StrictWeakOrder(less)
      ensures Valid() && Keys(tree) == [] && this.less == less
    {
      this.less := less;
      nodes := map[];
      root := NIL;
      size := 0;
      next := 0;
      tree := Leaf;
    }

    /** size() (set.h:504-507) */
    method Size() returns (n: nat)
      requires Valid()
      ensures n == |Keys(tree)|
    {
      n := size;
    }

    /** empty() (set.h:295-298) */
    method Empty() returns (e: bool)
      requires Valid()
      ensures e <==> Keys(tree) == []
    {
      e := root == NIL;
    }

    /** find() (set.h:406-425): the node holding the key equivalent to k, or end(). */
    method Find(k: K) returns (r: int)
      requires Valid()
      ensures r == NIL <==> !Contains(less, Keys(tree), k)
      ensures r != NIL ==> r in nodes && Equiv(less, nodes[r].value, k)
    {
      r := root;
      ghost var ctx: Ctx<K> := Top;
      ghost var cur := tree;
      while r != NIL
        invariant Plug(ctx, cur) == tree && r == Ref(cur) && Repr(cur, nodes, Parent(ctx, NIL))
        invariant Below(less, Before(ctx), k) && Above(less, After(ctx), k)
        decreases cur
      {
        if less(k, nodes[r].value) {
          DescendLeft(less, ctx, cur, k);
          ctx, cur := Down(ctx, Left, cur.id, cur.key, cur.color, cur.right), cur.left;
          r := nodes[r].left;
        } else if less(nodes[r].value, k) {
          DescendRight(less, ctx, cur, k);
          ctx, cur := Down(ctx, Right, cur.id, cur.key, cur.color, cur.left), cur.right;
          r := nodes[r].right;
        } else {
          SearchHit(less, ctx, cur, k);
          break;
        }
      }
      if r == NIL {
        SearchMiss(less, ctx, k);
      }
    }

    /** begin() (set.h:246-256): the first node in order, or end() when empty. */
    method Begin() returns (r: int)
      requires Valid()
      ensures r == if Order(tree) == [] then NIL else Order(tree)[0]
    {
      r := NIL;
      var l := root;
      ghost var cur := tree;
      ghost var above: Tree<K> := Leaf;
      ghost var par := NIL;
      while l != NIL
        invariant l == Ref(cur) && Repr(cur, nodes, par)
        invariant r == NIL ==> cur == tree
        invariant r != NIL ==>
          (tree.Node? && above.Node? && above.id == r && above.left == cur && Order(above)[0] == Order(tree)[0])
        decreases cur
      {
        r := l;
        l := nodes[r].left;
        above, cur, par := cur, cur.left, cur.id;
      }
      if r != NIL {
        assert Order(above) == Order(cur) + [r] + Order(above.right);
      }
    }

    /** iterator::operator++ (set.h:63-95): the node after x in order, or end() after the last. */
    method Next(x: int) returns (r: int)
      requires Valid() && x in Order(tree)
      ensures var s := Order(tree); var i := IndexOf(s, x);
        r == if i + 1 < |s| then s[i + 1] else NIL
    {
      OrderIds(tree);
      ghost var ctx, xt := Locate(tree, x);
      ReprPlug(ctx, xt, nodes, NIL);
      r := nodes[x].right;
      if r != NIL {
        SuccessorBelow(ctx, xt);
        r := Descend(r, xt.right, x);
      } else {
        assert Order(xt) == Order(xt.left) + [x];
        r := Climb(x, ctx, xt, tree);
      }
    }

    /**
     * The first branch of operator++ (set.h:68-75): from the root n of a
     * subtree, follow left links down to the subtree's first node.
     */
    method Descend(n: int, ghost t: Tree<K>, ghost p: int) returns (r: int)
      requires t.Node? && n == t.id && Repr(t, nodes, p)
      ensures r == Order(t)[0]
    {
      r := n;
      var l := nodes[r].left;
      ghost var cur := t;
      ghost var par := p;
      while l != NIL
        invariant cur.Node? && r == cur.id && l == Ref(cur.left) && Repr(cur, nodes, par)
        invariant Order(cur)[0] == Order(t)[0]
        decreases cur
      {
        r := l;
        l := nodes[r].left;
        cur, par := cur.left, cur.id;
      }
      assert Order(cur) == [] + [r] + Order(cur.right);
    }

    /**
     * The second branch of operator++ (set.h:77-91): from x, the last node
     * of subtree t0 at position c0 of w, climb until coming up from a left
     * child; that parent, or end() at the root, is the node after x.
     */
    method Climb(x: int, ghost c0: Ctx<K>, ghost t0: Tree<K>, ghost w: Tree<K>) returns (r: int)
      requires Plug(c0, t0) == w && Repr(w, nodes, NIL) && UniqueIds(w)
      requires t0.Node? && x == t0.id && Order(t0)[|Order(t0)| - 1] == x
      ensures var s := Order(w); x in s && var i := IndexOf(s, x);
        r == if i + 1 < |s| then s[i + 1] else NIL
    {
      OrderIds(w);
      ReprPlug(c0, t0, nodes, NIL);
      var child := x;
      r := nodes[child].parent;
      ghost var c := c0;
      ghost var t := t0;
      while r != NIL
        invariant Plug(c, t) == w && t.Node? && child == t.id && r == Parent(c, NIL)
        invariant Order(t)[|Order(t)| - 1] == x
        decreases c
      {
        ParentLink(c, t, nodes, NIL);
        if nodes[r].left == child {
          SuccessorAbove(c, t);
          return;
        }
        ghost var t' := Join(c.dir, t, c.id, c.key, c.color, c.other);
        assert Order(t') == Order(c.other) + [c.id] + Order(t);
        ReprPlug(c.up, t', nodes, NIL);
        child := r;
        r := nodes[child].parent;
        c, t := c.up, t';
      }
      SuccessorNone(w);
    }

    /**
     * The iteration of the set test (test/settest/src/main.cpp:184-197):
     * ++ from begin() to end() reads the keys in increasing order, size()
     * of them.
     */
    method Walk() returns (r: seq<K>)
      requires Valid()
      ensures r == Keys(tree) && |r| == size && Sorted(less, r)
    {
      r := [];
      var it := Begin();
      ghost var s, ks := Order(tree), Keys(tree);
      ghost var i := 0;
      OrderIds(tree);
      OrderLength(tree);
      while it != NIL
        invariant i <= |s| && r == ks[..i]
        invariant it == if i < |s| then s[i] else NIL
        decreases |s| - i
      {
        KeyAt(tree, nodes, NIL, i);
        assert ks[..i + 1] == ks[..i] + [nodes[it].value];
        r := r + [nodes[it].value];
        IndexOfAt(s, i);
        it := Next(it);
        i := i + 1;
      }
      assert ks[..i] == ks;
    }

    /** rbnode::parent assignment */
    method SetParent(z: int, q: int)
      requires z in nodes
      modifies this`nodes
      ensures nodes == old(nodes)[z := old(nodes)[z].(parent := q)]
    {
      nodes := nodes[z := nodes[z].(parent := q)];
    }

    /** set_child<Direction> (set.h:704-715) */
    method SetChild(z: int, d: Dir, c: int)
      requires z in nodes
      modifies this`nodes
      ensures nodes == old(nodes)[z := WithLink(old(nodes)[z], d, c)]
    {
      if d == Left {
        nodes := nodes[z := nodes[z].(left := c)];
      } else {
        nodes := nodes[z := nodes[z].(right := c)];
      }
    }

    /** rbnode::color assignment */
    method SetColor(z: int, c: Color)
      requires z in nodes
      modifies this`nodes
      ensures nodes == old(nodes)[z := old(nodes)[z].(color := c)]
    {
      nodes := nodes[z := nodes[z].(color := c)];
    }

    /**
     * replace_child (set.h:657-674): the link of p that held child now
     * holds newChild; with no p, root_ does.  d is the side child is on.
     */
    method ReplaceChild(p: int, child: int, newChild: int, ghost d: Dir)
      requires p != NIL ==> p in nodes && Link(nodes[p], d) == child && Link(nodes[p], Opposite(d)) != child
      modifies this`nodes, this`root
      ensures p != NIL ==> nodes == old(nodes)[p := WithLink(old(nodes)[p], d, newChild)] && root == old(root)
      ensures p == NIL ==> nodes == old(nodes) && root == newChild
    {
      if p != NIL {
        if nodes[p].left == child {
          SetChild(p, Left, newChild);
        } else {
          SetChild(p, Right, newChild);
        }
      } else {
        root := newChild;
      }
    }

    /**
     * rotate<Direction> (set.h:676-702): the records of the subtree t at
     * x come to hold Rotate(t, d); the pivot is returned.
     */
    method RotateAt(x: int, d: Dir, ghost ctx: Ctx<K>, ghost t: Tree<K>) returns (pivot: int)
      requires Shaped(Plug(ctx, t), nodes, root) && t.Node? && t.id == x && Child(t, Opposite(d)).Node?
      modifies this`nodes, this`root
      ensures Shaped(Plug(ctx, Rotate(t, d)), nodes, root) && pivot == Ref(Rotate(t, d))
      ensures nodes.Keys == old(nodes).Keys
    {
      RotatableFacts(ctx, t, d, nodes);
      ghost var a := nodes;
      // relocate the pivot at the position of x
      pivot := Link(nodes[x], Opposite(d));
      var gp := nodes[x].parent;
      SetParent(pivot, gp);
      ReplaceChild(gp, x, pivot, if ctx.Down? then ctx.dir else Left);
      // the pivot's inner child becomes x's child
      var pc := Link(nodes[pivot], d);
      SetChild(x, Opposite(d), pc);
      if pc != NIL {
        SetParent(pc, x);
      }
      // x becomes the pivot's child
      SetChild(pivot, d, x);
      SetParent(x, pivot);
      SetColor(x, Red);
      SetColor(pivot, Black);
      assert nodes == RotatedHeap(a, x, d);
      RotatedShaped(ctx, t, d, a, old(root), root);
      RotateRearranges(t, d);
    }

    /** double_rotate<Direction> (set.h:637-644) */
    method DoubleRotateAt(x: int, d: Dir, ghost ctx: Ctx<K>, ghost t: Tree<K>) returns (r: int)
      requires Shaped(Plug(ctx, t), nodes, root) && t.Node? && t.id == x
      requires Child(t, Opposite(d)).Node? && Child(Child(t, Opposite(d)), d).Node?
      modifies this`nodes, this`root
      ensures Shaped(Plug(ctx, DoubleRotate(t, d)), nodes, root) && r == Ref(DoubleRotate(t, d))
      ensures nodes.Keys == old(nodes).Keys
    {
      ReprPlug(ctx, t, nodes, NIL);
      var other := Link(nodes[x], Opposite(d));
      ghost var o := Child(t, Opposite(d));
      ghost var oc := Down(ctx, Opposite(d), x, t.key, t.color, Child(t, d));
      assert Plug(oc, o) == Plug(ctx, t);
      var _ := RotateAt(other, Opposite(d), oc, o);
      ghost var t' := WithChild(t, Opposite(d), Rotate(o, Opposite(d)));
      assert Plug(oc, Rotate(o, Opposite(d))) == Plug(ctx, t');
      r := RotateAt(x, d, ctx, t');
    }

    /**
     * balance_insert<Direction> (set.h:614-635), child being the d-child
     * of t: the records come to hold BalanceInsert(t, d).
     */
    method BalanceInsertAt(x: int, child: int, d: Dir, ghost ctx: Ctx<K>, ghost t: Tree<K>) returns (r: int)
      requires Shaped(Plug(ctx, t), nodes, root) && t.Node? && t.id == x
      requires Child(t, d).Node? && Child(t, d).id == child
      modifies this`nodes, this`root
      ensures Shaped(Plug(ctx, BalanceInsert(t, d)), nodes, root) && r == Ref(BalanceInsert(t, d))
      ensures nodes.Keys == old(nodes).Keys
    {
      ReprPlug(ctx, t, nodes, NIL);
      ghost var c := Child(t, d);
      ghost var s := Child(t, Opposite(d));
      assert t == Join(d, c, x, t.key, t.color, s);
      var sibling := Link(nodes[x], Opposite(d));
      IsRedRef(s, nodes, x);
      IsRedRef(Child(c, d), nodes, child);
      IsRedRef(Child(c, Opposite(d)), nodes, child);
      if IsRedIn(nodes, sibling) {
        // colour flip
        SetColor(x, Red);
        ShapedRepaint(ctx, t, Red, old(nodes), nodes, root);
        ghost var n1 := nodes;
        ghost var c1 := Down(ctx, d, x, t.key, Red, s);
        assert Plug(c1, c) == Plug(ctx, t.(color := Red));
        SetColor(child, Black);
        ShapedRepaint(c1, c, Black, n1, nodes, root);
        ghost var n2 := nodes;
        ghost var c2 := Down(ctx, Opposite(d), x, t.key, Red, c.(color := Black));
        assert Plug(c2, s) == Plug(c1, c.(color := Black));
        SetColor(sibling, Black);
        ShapedRepaint(c2, s, Black, n2, nodes, root);
        assert Plug(c2, s.(color := Black)) == Plug(ctx, BalanceInsert(t, d));
        r := x;
      } else if IsRedIn(nodes, Link(nodes[child], d)) {
        r := RotateAt(x, Opposite(d), ctx, t);
      } else if IsRedIn(nodes, Link(nodes[child], Opposite(d))) {
        r := DoubleRotateAt(x, Opposite(d), ctx, t);
      } else {
        r := x;
      }
    }

    /**
     * The descent of insert (set.h:431-450): either n is a node whose key
     * is equivalent to k and pos is n, or n is NULL, k is in no node, and
     * ctx is the empty position where k belongs, pos being its parent.
     */
    method Probe(k: K) returns (pos: int, n: int, ghost ctx: Ctx<K>)
      requires Valid()
      ensures n != NIL ==>
        (n == pos && n in nodes && Equiv(less, nodes[n].value, k)
         && Contains(less, Keys(tree), k) && Insertion(less, Keys(tree), k) == Keys(tree))
      ensures n == NIL ==>
        (Plug(ctx, Leaf) == tree && pos == Parent(ctx, NIL) && (pos == NIL || pos in nodes)
         && !Contains(less, Keys(tree), k)
         && Below(less, Before(ctx), k) && Above(less, After(ctx), k)
         && (ctx.Down? ==> (ctx.dir == Left <==> less(k, ctx.key))))
    {
      pos := root;
      n := NIL;
      // link is *child_link
      var link := pos;
      ctx := Top;
      ghost var cur := tree;
      while link != NIL
        invariant Plug(ctx, cur) == tree && link == Ref(cur) && Repr(cur, nodes, Parent(ctx, NIL))
        invariant Below(less, Before(ctx), k) && Above(less, After(ctx), k)
        invariant n == NIL && pos == (if ctx.Top? then root else ctx.id) && (pos == NIL || pos in nodes)
        invariant ctx.Down? ==> (ctx.dir == Left <==> less(k, ctx.key))
        decreases cur
      {
        pos := link;
        if less(k, nodes[pos].value) {
          DescendLeft(less, ctx, cur, k);
          ctx, cur := Down(ctx, Left, cur.id, cur.key, cur.color, cur.right), cur.left;
          link := nodes[pos].left;
        } else if less(nodes[pos].value, k) {
          DescendRight(less, ctx, cur, k);
          ctx, cur := Down(ctx, Right, cur.id, cur.key, cur.color, cur.left), cur.right;
          link := nodes[pos].right;
        } else {
          n := pos;
          SearchHit(less, ctx, cur, k);
          break;
        }
      }
      if n == NIL {
        SearchMiss(less, ctx, k);
      }
    }

    /**
     * The walk of insert back up the tree (set.h:475-495), from t, the
     * subtree of the new node's parent, while there is a red violation.
     * It ends with records holding a tree that is red-black once its root
     * is black, and that is a rearrangement of the one it started from.
     */
    method InsertFixup(start: int, ghost c0: Ctx<K>, ghost t0: Tree<K>) returns (ghost w: Tree<K>)
      requires Shaped(Plug(c0, t0), nodes, root) && InsertInvariant(c0, t0) && start == t0.id
      modifies this`nodes, this`root
      ensures Shaped(w, nodes, root) && w.Node? && IsRB(Blacken(w)) && Rearranged(Plug(c0, t0), w)
      ensures nodes.Keys == old(nodes).Keys
    {
      ghost var w0 := Plug(c0, t0);
      ghost var c, t := c0, t0;
      var child := start;
      ReprPlug(c, t, nodes, NIL);
      var parent := nodes[child].parent;
      while parent != NIL && nodes[child].color == Red
        invariant Shaped(Plug(c, t), nodes, root) && InsertInvariant(c, t) && nodes.Keys == old(nodes).Keys
        invariant child == t.id && parent == Parent(c, NIL) && Repr(t, nodes, parent)
        invariant Rearranged(w0, Plug(c, t))
        decreases c
      {
        ghost var p := Join(c.dir, t, c.id, c.key, c.color, c.other);
        ParentLink(c, t, nodes, NIL);
        InsertStep(c, t);
        if nodes[parent].left == child {
          parent := BalanceInsertAt(parent, child, Left, c.up, p);
        } else {
          parent := BalanceInsertAt(parent, child, Right, c.up, p);
        }
        PlugRearranged(c.up, p, BalanceInsert(p, c.dir));
        c, t := c.up, BalanceInsert(p, c.dir);
        child := parent;
        ReprPlug(c, t, nodes, NIL);
        parent := nodes[child].parent;
      }
      InsertExit(c, t);
      w := Plug(c, t);
      RefPlug(c, t);
    }

    /**
     * The insertion proper (set.h:452-496): a fresh node n holding k,
     * red, linked at the empty position ctx below pos, then the walk back
     * up.  The records end up holding w, a rearrangement of the tree with
     * n at ctx, red-black once its root is black.
     */
    method LinkNew(k: K, pos: int, ghost ctx: Ctx<K>) returns (n: int, ghost w: Tree<K>)
      requires Holds(Plug(ctx, Leaf), nodes, root) && IsRB(Plug(ctx, Leaf)) && pos == Parent(ctx, NIL)
      requires forall z :: z in nodes ==> z < next
      requires ctx.Down? ==> (ctx.dir == Left <==> less(k, ctx.key))
      modifies this`nodes, this`root, this`next
      ensures n == old(next) && next == old(next) + 1 && n !in old(nodes)
      ensures Holds(w, nodes, root) && w.Node? && IsRB(Blacken(w))
      ensures Rearranged(Plug(ctx, Node(Leaf, n, k, Red, Leaf)), w)
    {
      ghost var added := Node(Leaf, next, k, Red, Leaf);
      RefPlug(ctx, Leaf);
      n := next;
      next := next + 1;
      nodes := nodes[n := RBNode(k, Red, NIL, NIL, NIL)];
      if root == NIL {
        // special case: empty tree
        root := n;
        w := added;
      } else {
        // standard binary search tree insertion
        var parent := pos;
        ReprPlug(ctx, Leaf, old(nodes), NIL);
        var isLess := less(nodes[n].value, nodes[parent].value);
        SetParent(n, parent);
        SetChild(parent, if isLess then Left else Right, n);
        LinkLeaf(ctx, n, k, old(nodes), nodes, root);
        InsertStart(ctx, n, k);
        assert Plug(ctx.up, Join(ctx.dir, added, ctx.id, ctx.key, ctx.color, ctx.other)) == Plug(ctx, added);
        w := InsertFixup(parent, ctx.up, Join(ctx.dir, added, ctx.id, ctx.key, ctx.color, ctx.other));
      }
    }

    /**
     * insert() (set.h:427-502): the node holding a key equivalent to k,
     * and whether it was added.  When it is, the new node holds k itself
     * and the keys are Insertion(less, old keys, k); otherwise nothing
     * changes.
     */
    method Insert(k: K) returns (it: int, inserted: bool)
      requires Valid()
      modifies this
      ensures Valid()
      ensures inserted <==> !Contains(less, old(Keys(tree)), k)
      ensures Keys(tree) == Insertion(less, old(Keys(tree)), k)
      ensures it in nodes && Equiv(less, nodes[it].value, k)
      ensures inserted ==> nodes[it].value == k && it !in old(nodes)
      ensures inserted ==>
        (nodes.Keys == old(nodes).Keys + {it} && it in Order(tree)
         && var i := IndexOf(Order(tree), it);
         i <= |old(Order(tree))| && Order(tree) == old(Order(tree))[..i] + [it] + old(Order(tree))[i..])
      ensures !inserted ==> nodes == old(nodes) && root == old(root) && tree == old(tree) && size == old(size)
    {
      var pos, n, ctx := Probe(k);
      if n != NIL {
        it, inserted := n, n != pos;
        return;
      }
      ghost var w;
      ghost var t := tree;
      n, w := LinkNew(k, pos, ctx);
      InsertedValid(less, t, ctx, n, k, w, nodes, root, size, next);
      InsertedOrder(t, ctx, n, k, w);
      SetColor(root, Black);
      size := size + 1;
      tree := Blacken(w);
      it, inserted := n, n != pos;
    }

    /**
     * The successor search of erase (set.h:342-349): the leftmost node
     * of the right subtree of x, a node with two children.
     */
    method LeftmostOfRight(x: int, ghost ctx: Ctx<K>, ghost n: Tree<K>) returns (s: int)
      requires Repr(Plug(ctx, n), nodes, NIL) && n.Node? && n.id == x && n.right.Node?
      ensures s == Leftmost(n.right, Top).1.id
    {
      ReprPlug(ctx, n, nodes, NIL);
      ghost var (cr, st) := Leftmost(n.right, Top);
      s := nodes[x].right;
      ghost var cur, acc, par := n.right, Top, x;
      if nodes[s].left != NIL {
        s := nodes[s].left;
        cur, acc, par := cur.left, Down(acc, Left, cur.id, cur.key, cur.color, cur.right), cur.id;
        while nodes[s].left != NIL
          invariant cur.Node? && s == cur.id && Repr(cur, nodes, par) && Leftmost(cur, acc) == (cr, st)
          decreases cur
        {
          s := nodes[s].left;
          cur, acc, par := cur.left, Down(acc, Left, cur.id, cur.key, cur.color, cur.right), cur.id;
        }
      }
    }

    /**
     * The successor swap of erase (set.h:337-361), x having two children,
     * p and l being x's parent and left child: the in-order successor s
     * takes x's place, children and colour.  It returns s, the node whose
     * link held s ("parent"), s's right child ("child") and s's old colour.
     */
    method Promote(x: int, p: int, l: int, ghost ctx: Ctx<K>, ghost n: Tree<K>) returns (s: int, parent: int, child: int, color: Color)
      requires Shaped(Plug(ctx, n), nodes, root) && n.Node? && n.id == x && n.left.Node? && n.right.Node?
      requires x in nodes && p == nodes[x].parent && l == nodes[x].left
      modifies this`nodes, this`root
      ensures s == Leftmost(n.right, Top).1.id && SpliceReady(old(nodes), x, s)
      ensures nodes == PromotedHeap(old(nodes), x, s) && root == (if ctx.Top? then s else old(root))
      ensures parent == SplicedParent(old(nodes), x, s) && child == old(nodes)[s].right && color == old(nodes)[s].color
    {
      PromoteFacts(ctx, n, nodes);
      ghost var a := nodes;
      s := LeftmostOfRight(x, ctx, n);
      ReplaceChild(p, x, s, if ctx.Down? then ctx.dir else Left);
      SetChild(s, Left, l);
      SetParent(l, s);
      child := nodes[s].right;
      assert child == a[s].right;
      SetChild(s, Right, nodes[x].right);
      SetParent(nodes[x].right, s);
      parent := nodes[s].parent;
      assert parent == SplicedParent(a, x, s);
      SetParent(s, nodes[x].parent);
      color := nodes[s].color;
      assert color == a[s].color;
      SetColor(s, nodes[x].color);
      assert nodes == PromotedHeap(a, x, s);
    }

    /**
     * The splice of erase (set.h:326-366): the node x at ctx is unlinked,
     * its place taken by its only child or, when it has two, by its
     * successor.  The records come to hold SpliceOut's tree; "parent",
     * "child" and "color" are the position and the colour it names.  x's
     * record stays allocated.
     */
    method Unlink(x: int, ghost ctx: Ctx<K>, ghost n: Tree<K>) returns (parent: int, child: int, color: Color)
      requires Shaped(Plug(ctx, n), nodes, root) && n.Node? && n.id == x
      modifies this`nodes, this`root
      ensures var (c, ch, col) := SpliceOut(ctx, n);
        Shaped(Plug(c, ch), nodes, root) && parent == Parent(c, NIL) && child == Ref(ch) && color == col
      ensures nodes.Keys == old(nodes).Keys
    {
      ReprPlug(ctx, n, nodes, NIL);
      if ctx.Down? {
        ParentLink(ctx, n, nodes, NIL);
      }
      ghost var a := nodes;
      // "root" in the source
      var top := x;
      parent := nodes[top].parent;
      child := nodes[top].left;
      color := nodes[top].color;
      ghost var d := if ctx.Down? then ctx.dir else Left;
      if child == NIL {
        child := nodes[top].right;
      } else if nodes[top].right != NIL {
        PromotedLink(ctx, n, a);
        top, parent, child, color := Promote(x, parent, child, ctx, n);
        d := if a[x].right == top then Right else Left;
      }
      ghost var a1 := nodes;
      ReplaceChild(parent, top, child, d);
      ghost var a2 := nodes;
      if child != NIL {
        SetParent(child, parent);
      }
      if n.left.Leaf? && n.right.Leaf? {
        SplicedLeaf(ctx, n, a, nodes, old(root), root);
      } else if n.left.Leaf? {
        SplicedChild(ctx, n, Right, a, a2, nodes, old(root), root);
      } else if n.right.Leaf? {
        SplicedChild(ctx, n, Left, a, a2, nodes, old(root), root);
      } else {
        assert nodes == SplicedHeap(a, x, top);
        SplicedShaped(ctx, n, a, old(root), root);
        SuccessorShape(ctx, n);
      }
    }

    /**
     * The repaint of cases 5 and 6 (set.h:602-605): the new root r of the
     * subtree takes colour c and both its children are painted black.
     */
    method RepaintRotated(np: int, c: Color, ghost ctx: Ctx<K>, ghost r: Tree<K>)
      requires Shaped(Plug(ctx, r), nodes, root) && r.Node? && r.id == np && r.left.Node? && r.right.Node?
      modifies this`nodes
      ensures Shaped(Plug(ctx, Node(Blacken(r.left), np, r.key, c, Blacken(r.right))), nodes, root)
      ensures nodes.Keys == old(nodes).Keys
    {
      ReprPlug(ctx, r, nodes, NIL);
      ghost var n0 := nodes;
      SetColor(np, c);
      ShapedRepaint(ctx, r, c, n0, nodes, root);
      ghost var r1 := r.(color := c);
      ghost var cl := Down(ctx, Left, np, r.key, c, r.right);
      assert Plug(cl, r.left) == Plug(ctx, r1);
      ReprPlug(cl, r.left, nodes, NIL);
      ghost var n1 := nodes;
      SetColor(nodes[np].left, Black);
      ShapedRepaint(cl, r.left, Black, n1, nodes, root);
      ghost var cr := Down(ctx, Right, np, r.key, c, Blacken(r.left));
      assert Plug(cr, r.right) == Plug(cl, Blacken(r.left));
      ReprPlug(cr, r.right, nodes, NIL);
      ghost var n2 := nodes;
      SetColor(nodes[np].right, Black);
      ShapedRepaint(cr, r.right, Black, n2, nodes, root);
      assert Plug(cr, Blacken(r.right)) == Plug(ctx, Node(Blacken(r.left), np, r.key, c, Blacken(r.right)));
    }

    /**
     * Cases 3 to 6 of balance_erase<d> (set.h:575-609) at `parent`, the
     * node of subtree p; top is the source's `root` variable.  The records
     * come to hold EraseSibling(p, d), and the result is root_ when the
     * rebalancing is done and top otherwise.
     */
    method EraseSiblingAt(parent: int, top: int, d: Dir, ghost ctx: Ctx<K>, ghost p: Tree<K>) returns (r: int)
      requires Shaped(Plug(ctx, p), nodes, root) && p.Node? && p.id == parent
      modifies this`nodes, this`root
      ensures var (p', done) := EraseSibling(p, d);
        Shaped(Plug(ctx, p'), nodes, root) && r == if done then root else top
      ensures nodes.Keys == old(nodes).Keys
    {
      ReprPlug(ctx, p, nodes, NIL);
      ghost var s := Child(p, Opposite(d));
      assert Link(nodes[parent], Opposite(d)) == Ref(s);
      var sibling := Link(nodes[parent], Opposite(d));
      r := top;
      if sibling != NIL {
        ghost var cs := Down(ctx, Opposite(d), parent, p.key, p.color, Child(p, d));
        assert Plug(cs, s) == Plug(ctx, p);
        ReprPlug(cs, s, nodes, NIL);
        IsRedRef(Child(s, d), nodes, sibling);
        IsRedRef(Child(s, Opposite(d)), nodes, sibling);
        assert Link(nodes[sibling], d) == Ref(Child(s, d)) && Link(nodes[sibling], Opposite(d)) == Ref(Child(s, Opposite(d)));
        if !IsRedIn(nodes, Link(nodes[sibling], d)) && !IsRedIn(nodes, Link(nodes[sibling], Opposite(d))) {
          // case 3
          ghost var n0 := nodes;
          SetColor(sibling, Red);
          ShapedRepaint(cs, s, Red, n0, nodes, root);
          ghost var q := WithChild(p, Opposite(d), s.(color := Red));
          assert Plug(cs, s.(color := Red)) == Plug(ctx, q);
          if nodes[parent].color == Red {
            // case 4
            ghost var n1 := nodes;
            ReprPlug(ctx, q, nodes, NIL);
            SetColor(parent, Black);
            ShapedRepaint(ctx, q, Black, n1, nodes, root);
            r := root;
          }
        } else {
          // cases 5 and 6
          var color := nodes[parent].color;
          var np;
          ghost var rt;
          if IsRedIn(nodes, Link(nodes[sibling], Opposite(d))) {
            np := RotateAt(parent, d, ctx, p);
            rt := Rotate(p, d);
          } else {
            np := DoubleRotateAt(parent, d, ctx, p);
            rt := DoubleRotate(p, d);
          }
          assert rt.left.Node? && rt.right.Node?;
          RepaintRotated(np, color, ctx, rt);
          r := root;
        }
      }
    }

    /**
     * balance_erase<d> (set.h:564-612) at x, the node of subtree t whose
     * d-child has one black node too few on every path.  The records come
     * to hold BalanceErase(t, d); the result is root_ when the rebalancing
     * is done, and otherwise the root of the rebalanced subtree.
     */
    method BalanceEraseAt(x: int, d: Dir, ghost ctx: Ctx<K>, ghost t: Tree<K>) returns (r: int)
      requires Shaped(Plug(ctx, t), nodes, root) && t.Node? && t.id == x && Child(t, Opposite(d)).Node?
      modifies this`nodes, this`root
      ensures var (t', done) := BalanceErase(t, d);
        Shaped(Plug(ctx, t'), nodes, root) && r == if done then root else Ref(t')
      ensures nodes.Keys == old(nodes).Keys
    {
      ReprPlug(ctx, t, nodes, NIL);
      assert Link(nodes[x], Opposite(d)) == Child(t, Opposite(d)).id;
      var sibling := Link(nodes[x], Opposite(d));
      var top := x;
      if nodes[sibling].color == Red {
        // case 2
        top := RotateAt(x, d, ctx, t);
        ghost var rt := Rotate(t, d);
        ghost var c := Down(ctx, d, rt.id, rt.key, rt.color, Child(rt, Opposite(d)));
        assert Plug(c, Child(rt, d)) == Plug(ctx, rt);
        ghost var (p', done) := EraseSibling(Child(rt, d), d);
        top := EraseSiblingAt(x, top, d, c, Child(rt, d));
        assert Plug(c, p') == Plug(ctx, WithChild(rt, d, p'));
      } else {
        top := EraseSiblingAt(x, top, d, ctx, t);
      }
      r := top;
    }

    /**
     * The rebalancing loop of erase (set.h:378-392), from the subtree t
     * that has one black node too few on every path through it.  Each
     * balance_erase either finishes (it returns root_, whose parent is
     * NULL) or moves the shortfall one level up.  The records end up
     * holding a red-black rearrangement of the tree they started from.
     */
    method EraseFixup(parent0: int, child0: int, ghost c0: Ctx<K>, ghost t0: Tree<K>) returns (ghost w: Tree<K>)
      requires Shaped(Plug(c0, t0), nodes, root) && EraseInvariant(c0, t0)
      requires child0 == Ref(t0) && parent0 == Parent(c0, NIL)
      modifies this`nodes, this`root
      ensures Shaped(w, nodes, root) && IsRB(w) && Rearranged(Plug(c0, t0), w)
      ensures nodes.Keys == old(nodes).Keys
    {
      ghost var w0 := Plug(c0, t0);
      ghost var c, t := c0, t0;
      ghost var done := false;
      var parent, child := parent0, child0;
      while parent != NIL
        invariant Shaped(Plug(c, t), nodes, root) && nodes.Keys == old(nodes).Keys
        invariant Rearranged(w0, Plug(c, t)) && child == Ref(t) && parent == Parent(c, NIL)
        invariant !done ==> EraseInvariant(c, t)
        invariant done ==> c == Top && IsRB(t)
        decreases !done, c
      {
        ghost var p := Join(c.dir, t, c.id, c.key, c.color, c.other);
        assert Plug(c.up, p) == Plug(c, t);
        EraseStep(c, t);
        ParentLink(c, t, nodes, NIL);
        if nodes[parent].left == child {
          parent := BalanceEraseAt(parent, Left, c.up, p);
        } else {
          parent := BalanceEraseAt(parent, Right, c.up, p);
        }
        ghost var (r, finished) := BalanceErase(p, c.dir);
        assert Shaped(Plug(c.up, r), nodes, root) && parent == if finished then root else Ref(r);
        assert r.Node?;
        PlugRearranged(c.up, p, r);
        RefPlug(c.up, r);
        if finished {
          c, t, done := Top, Plug(c.up, r), true;
        } else {
          c, t := c.up, r;
        }
        child := parent;
        ReprPlug(c, t, nodes, NIL);
        parent := nodes[child].parent;
      }
      w := t;
      if !done {
        assert IsRB(t);
      }
    }

    /**
     * The rebalancing of erase (set.h:368-393), after the splice left the
     * subtree ch at c and took out a node of colour `color`: nothing when
     * that node was red, a repaint when ch is red, and otherwise the walk
     * up the tree.  The records end up holding a red-black rearrangement
     * of the tree the splice left.
     */
    method Rebalance(parent: int, child: int, color: Color, ghost c: Ctx<K>, ghost ch: Tree<K>) returns (ghost w: Tree<K>)
      requires Shaped(Plug(c, ch), nodes, root) && Removed(c, ch, color)
      requires child == Ref(ch) && parent == Parent(c, NIL)
      modifies this`nodes, this`root
      ensures Shaped(w, nodes, root) && IsRB(w) && Rearranged(Plug(c, ch), w)
      ensures nodes.Keys == old(nodes).Keys
    {
      RemovedFinish(c, ch, color);
      w := Plug(c, ch);
      if color == Black {
        ReprPlug(c, ch, nodes, NIL);
        IsRedRef(ch, nodes, parent);
        if IsRedIn(nodes, child) {
          ghost var n0 := nodes;
          SetColor(child, Black);
          ShapedRepaint(c, ch, Black, n0, nodes, root);
          assert Rearranged(ch, Blacken(ch));
          PlugRearranged(c, ch, Blacken(ch));
          w := Plug(c, Blacken(ch));
        } else {
          w := EraseFixup(parent, child, c, ch);
        }
      }
    }

    /** The last repaint of erase (set.h:396-399): root_ is already black, so no record changes. */
    method BlackenRoot(ghost w: Tree<K>)
      requires Shaped(w, nodes, root) && IsRB(w)
      modifies this`nodes
      ensures nodes == old(nodes)
    {
      if root != NIL {
        SetColor(root, Black);
        assert nodes[root] == old(nodes)[root];
      }
    }

    /**
     * The body of erase(iterator) after the iterator is advanced
     * (set.h:326-401): the splice, the rebalancing, the size, the root's
     * colour and the deallocation of x, the node of subtree n at ctx.
     */
    method Detach(x: int, ghost t: Tree<K>, ghost ctx: Ctx<K>, ghost n: Tree<K>) returns (ghost w: Tree<K>)
      requires Holds(t, nodes, root) && IsRB(t) && Plug(ctx, n) == t && n.Node? && n.id == x && size >= 1
      modifies this`nodes, this`root, this`size
      ensures Keys(w) == Before(ctx) + Keys(n.left) + Keys(n.right) + After(ctx)
      ensures Order(w) == BeforeIds(ctx) + Order(n.left) + Order(n.right) + AfterIds(ctx)
      ensures Ids(w) == CtxIds(ctx) + Ids(n.left) + Ids(n.right)
      ensures Holds(w, nodes, root) && IsRB(w) && size == old(size) - 1
      ensures nodes.Keys == old(nodes).Keys - {x}
    {
      EraseSplice(ctx, n);
      ErasedIds(ctx, n);
      ghost var (c, ch, col) := SpliceOut(ctx, n);
      var parent, child, color := Unlink(x, ctx, n);
      w := Rebalance(parent, child, color, c, ch);
      // clean up
      size := size - 1;
      BlackenRoot(w);
      Deallocated(w, nodes, root, x);
      nodes := nodes - {x};
    }

    /**
     * erase(iterator) (set.h:323-403): the node x is taken out of the
     * tree and deallocated, and the node after it in order (end() after
     * the last) is returned.  The keys and the nodes are the old ones
     * with the element at x's index taken out.
     */
    method Erase(x: int) returns (r: int)
      requires Valid() && x in Order(tree)
      modifies this
      ensures Valid()
      ensures |old(Keys(tree))| == |old(Order(tree))|
      ensures var s := old(Order(tree)); var i := IndexOf(s, x);
        Order(tree) == s[..i] + s[i + 1..] && Keys(tree) == old(Keys(tree))[..i] + old(Keys(tree))[i + 1..]
        && r == if i + 1 < |s| then s[i + 1] else NIL
      ensures nodes.Keys == old(nodes).Keys - {x}
    {
      r := Next(x);
      EraseNode(x);
    }

    /** The part of erase(iterator) after the successor is found. */
    method EraseNode(x: int)
      requires Valid() && x in Order(tree)
      modifies this
      ensures Valid()
      ensures |old(Keys(tree))| == |old(Order(tree))|
      ensures var s := old(Order(tree)); var i := IndexOf(s, x);
        Order(tree) == s[..i] + s[i + 1..] && Keys(tree) == old(Keys(tree))[..i] + old(Keys(tree))[i + 1..]
      ensures nodes.Keys == old(nodes).Keys - {x}
    {
      ghost var t := tree;
      ghost var ctx, n := Position(t, x);
      ghost var w := Detach(x, t, ctx, n);
      ErasedValid(less, t, ctx, n, w, nodes, size, next);
      tree := w;
    }

    /**
     * erase(key) (set.h:310-319): the node holding the key equivalent to
     * k, if any, is erased; the result counts the keys erased.
     */
    method EraseKey(k: K) returns (count: nat)
      requires Valid()
      modifies this
      ensures Valid()
      ensures count == if Contains(less, old(Keys(tree)), k) then 1 else 0
      ensures Keys(tree) == Deletion(less, old(Keys(tree)), k)
      ensures count == 0 ==> nodes == old(nodes) && tree == old(tree)
      ensures count == 1 ==>
        (exists i :: 0 <= i < |old(Order(tree))| && i < |old(Keys(tree))|
           && Equiv(less, old(Keys(tree))[i], k)
           && Order(tree) == old(Order(tree))[..i] + old(Order(tree))[i + 1..]
           && nodes.Keys == old(nodes).Keys - {old(Order(tree))[i]})
    {
      var itr := Find(k);
      var found := itr != NIL;
      if found {
        ghost var s, o, ids := Keys(tree), Order(tree), nodes.Keys;
        OrderIds(tree);
        ghost var i := IndexOf(o, itr);
        KeyAt(tree, nodes, NIL, i);
        assert i < |s| && Equiv(less, s[i], k);
        var _ := Erase(itr);
        DeletionSplit(less, s, i, k);
        assert itr == o[i];
      } else {
        DeletionAbsent(less, Keys(tree), k);
      }
      count := if found then 1 else 0;
    }

    /**
     * The leaf case of clear() (set.h:266-286): the leaf n at ctx is
     * deallocated and its parent's link to it, if any, set to NULL.  The
     * walk goes on from the parent, the root of t' at ctx', in the tree u
     * the records now hold.
     */
    method FreeLeaf(n: int, ghost ctx: Ctx<K>, ghost t: Tree<K>) returns (parent: int, ghost ctx': Ctx<K>, ghost t': Tree<K>, ghost u: Tree<K>)
      requires Repr(Plug(ctx, t), nodes, NIL) && UniqueIds(Plug(ctx, t)) && nodes.Keys == Ids(Plug(ctx, t))
      requires t.Node? && t.id == n && t.left.Leaf? && t.right.Leaf?
      modifies this`nodes
      ensures u == Plug<K>(ctx, Leaf) && Plug(ctx', t') == u
      ensures Repr(u, nodes, NIL) && UniqueIds(u) && nodes.Keys == Ids(u)
      ensures parent == Ref(t') && (t'.Leaf? ==> ctx' == Top) && |nodes| < |old(nodes)|
    {
      ReprPlug(ctx, t, nodes, NIL);
      parent := nodes[n].parent;
      ghost var a := nodes;
      nodes := nodes - {n};
      if parent != NIL {
        ParentLink(ctx, t, a, NIL);
        if nodes[parent].left == n {
          SetChild(parent, Left, NIL);
        } else {
          SetChild(parent, Right, NIL);
        }
      }
      LeafFreed(ctx, t, a, nodes);
      u := Plug(ctx, Leaf);
      if ctx.Down? {
        ctx', t' := ctx.up, Join(ctx.dir, Leaf, ctx.id, ctx.key, ctx.color, ctx.other);
      } else {
        ctx', t' := Top, Leaf;
      }
    }

    /**
     * The walk of clear() (set.h:260-289), over the records holding w:
     * it goes down to a leaf, frees it and goes back to its parent, until
     * it leaves the root.  No record is left.
     */
    method FreeAll(ghost w: Tree<K>)
      requires Shaped(w, nodes, root) && nodes.Keys == Ids(w)
      modifies this`nodes
      ensures nodes == map[]
    {
      var n := root;
      ghost var ctx: Ctx<K> := Top;
      ghost var t := w;
      ghost var u := w;
      while n != NIL
        invariant Plug(ctx, t) == u && Repr(u, nodes, NIL) && UniqueIds(u) && nodes.Keys == Ids(u)
        invariant n == Ref(t) && (t.Leaf? ==> ctx == Top)
        decreases |nodes|, t
      {
        assert t.Node? && n == t.id;
        RecordAt(ctx, t, nodes, NIL);
        if nodes[n].left != NIL {
          ctx, t := Down(ctx, Left, t.id, t.key, t.color, t.right), t.left;
          n := nodes[n].left;
        } else if nodes[n].right != NIL {
          ctx, t := Down(ctx, Right, t.id, t.key, t.color, t.left), t.right;
          n := nodes[n].right;
        } else {
          // n is a leaf
          n, ctx, t, u := FreeLeaf(n, ctx, t);
        }
      }
      assert t == Leaf && ctx == Top;
      assert nodes.Keys == {};
    }

    /** clear() (set.h:258-293): every record is freed, and root_ and size_ are reset. */
    method Clear()
      requires Valid()
      modifies this
      ensures Valid() && Keys(tree) == [] && nodes == map[] && root == NIL
    {
      FreeAll(tree);
      root := NIL;
      size := 0;
      tree := Leaf;
    }
  }

  /**
   * What erase leaves: w, the tree after the splice and the rebalancing,
   * holds the old keys and nodes but the one at x's index.
   */
  lemma ErasedLayout<K>(t: Tree<K>, ctx: Ctx<K>, n: Tree<K>, w: Tree<K>)
    requires UniqueIds(t) && Plug(ctx, n) == t && n.Node?
    requires Keys(w) == Before(ctx) + Keys(n.left) + Keys(n.right) + After(ctx)
    requires Order(w) == BeforeIds(ctx) + Order(n.left) + Order(n.right) + AfterIds(ctx)
    requires Ids(w) == CtxIds(ctx) + Ids(n.left) + Ids(n.right)
    ensures var s := Order(t); n.id in s && |Keys(t)| == |s| && var i := IndexOf(s, n.id);
      Order(w) == s[..i] + s[i + 1..] && Keys(w) == Keys(t)[..i] + Keys(t)[i + 1..]
    ensures Ids(t) == Ids(w) + {n.id} && n.id !in Ids(w)
  {
    ErasedIndex(ctx, n);
    var i := IndexOf(Order(t), n.id);
    assert Order(w) == Order(t)[..i] + Order(t)[i + 1..] by {
      ErasedOrder(ctx, n, i);
    }
    assert Keys(w) == Keys(t)[..i] + Keys(t)[i + 1..] by {
      ErasedKeys(ctx, n, i);
    }
    ErasedIds(ctx, n);
  }

  /**
   * The parts of the invariant erase has to restore besides the shape
   * (which Detach keeps), and the sequences the erased tree w holds.
   */
  lemma ErasedValid<K(!new)>(less: (K, K) -> bool, t: Tree<K>, ctx: Ctx<K>, n: Tree<K>, w: Tree<K>,
                             h: Heap<K>, size: nat, next: nat)
    requires StrictWeakOrder(less) && Sorted(less, Keys(t)) && size == |Keys(t)| - 1
    requires UniqueIds(t) && Plug(ctx, n) == t && n.Node?
    requires Keys(w) == Before(ctx) + Keys(n.left) + Keys(n.right) + After(ctx)
    requires Order(w) == BeforeIds(ctx) + Order(n.left) + Order(n.right) + AfterIds(ctx)
    requires Ids(w) == CtxIds(ctx) + Ids(n.left) + Ids(n.right)
    requires h.Keys == Ids(w) && forall z :: z in Ids(t) ==> z < next
    ensures Sorted(less, Keys(w)) && size == |Keys(w)| && forall z :: z in h ==> z < next
    ensures var s := Order(t); n.id in s && |Keys(t)| == |s| && var i := IndexOf(s, n.id);
      Order(w) == s[..i] + s[i + 1..] && Keys(w) == Keys(t)[..i] + Keys(t)[i + 1..]
  {
    ErasedLayout(t, ctx, n, w);
    var i := IndexOf(Order(t), n.id);
    assert Sorted(less, Keys(w)) by {
      RemovedSorted(less, Keys(t), i, Keys(w));
    }
    assert size == |Keys(w)| by {
      RemovedCount(Keys(t), i, Keys(w));
    }
    forall z | z in h
      ensures z < next
    {
      assert z in Ids(t);
    }
  }

  /** The node an iterator points at has a position in the tree. */
  lemma Position<K>(t: Tree<K>, x: nat) returns (ctx: Ctx<K>, n: Tree<K>)
    requires x in Order(t)
    ensures Plug(ctx, n) == t && n.Node? && n.id == x && |Keys(t)| >= 1
  {
    OrderIds(t);
    OrderLength(t);
    ctx, n := Locate(t, x);
  }

  /** The keys insert() leaves: k inserted into the old ones. */
  lemma InsertedKeys<K(!new)>(less: (K, K) -> bool, t: Tree<K>, ctx: Ctx<K>, n: nat, k: K, w: Tree<K>)
    requires StrictWeakOrder(less) && Sorted(less, Keys(t)) && Plug(ctx, Leaf) == t
    requires Below(less, Before(ctx), k) && Above(less, After(ctx), k)
    requires Keys(Plug(ctx, Node(Leaf, n, k, Red, Leaf))) == Keys(w)
    ensures var s := Keys(w); s == Insertion(less, Keys(t), k) && Sorted(less, s) && |s| == |Keys(t)| + 1
  {
    SearchInsert(less, ctx, Node(Leaf, n, k, Red, Leaf), k);
    SearchMiss(less, ctx, k);
    InsertionSorted(less, Keys(t), k);
    InsertionAbsent(less, Keys(t), k);
    var s := Insertion(less, Keys(t), k);
    assert |multiset(s)| == |multiset(Keys(t))| + 1;
  }

  /**
   * The invariant insert restores once the root of w, the tree after the
   * fix-up, is painted black in heap h.
   */
  lemma InsertedValid<K(!new)>(less: (K, K) -> bool, t: Tree<K>, ctx: Ctx<K>, n: nat, k: K, w: Tree<K>,
                               h: Heap<K>, root: int, size: nat, next: nat)
    requires StrictWeakOrder(less) && Sorted(less, Keys(t)) && size == |Keys(t)| && Plug(ctx, Leaf) == t
    requires Below(less, Before(ctx), k) && Above(less, After(ctx), k)
    requires Holds(w, h, root) && w.Node? && IsRB(Blacken(w))
    requires Rearranged(Plug(ctx, Node(Leaf, n, k, Red, Leaf)), w)
    requires (forall z :: z in Ids(t) ==> z < n) && next == n + 1
    ensures root in h
    ensures var h' := h[root := h[root].(color := Black)];
      Invariant(less, Blacken(w), h', root, size + 1, next)
      && Keys(Blacken(w)) == Insertion(less, Keys(t), k) && n in h' && h'[n].value == k
  {
    var h' := h[root := h[root].(color := Black)];
    InsertedKeys(less, t, ctx, n, k, w);
    InsertedAt(ctx, n, k, w);
    InsertedIds(t, ctx, n, k, w);
    ShapedRepaint(Top, w, Black, h, h', root);
    KeyAt(Blacken(w), h', NIL, |Before(ctx)|);
  }

  /** After insert(), the new node stands at the new key's index. */
  lemma InsertedAt<K>(ctx: Ctx<K>, n: nat, k: K, w: Tree<K>)
    requires Rearranged(Plug(ctx, Node(Leaf, n, k, Red, Leaf)), w)
    ensures var i := |Before(ctx)|; i < |Order(w)| && Order(w)[i] == n && i < |Keys(w)| && Keys(w)[i] == k
  {
    At(ctx, Node(Leaf, n, k, Red, Leaf));
  }

  lemma InsertedIds<K>(t: Tree<K>, ctx: Ctx<K>, n: nat, k: K, w: Tree<K>)
    requires Plug(ctx, Leaf) == t && Ids(Plug(ctx, Node(Leaf, n, k, Red, Leaf))) == Ids(w)
    ensures Ids(w) == Ids(t) + {n}
  {
    IdsPlug(ctx, Leaf);
    IdsPlug(ctx, Node(Leaf, n, k, Red, Leaf));
  }

  /**
   * insert() only links a new node: the old nodes keep their order, the
   * new one standing between them, and keep their records.
   */
  lemma InsertedOrder<K>(t: Tree<K>, ctx: Ctx<K>, n: nat, k: K, w: Tree<K>)
    requires Plug(ctx, Leaf) == t && UniqueIds(w)
    requires Rearranged(Plug(ctx, Node(Leaf, n, k, Red, Leaf)), w)
    ensures Ids(Blacken(w)) == Ids(t) + {n}
    ensures var s := Order(Blacken(w));
      n in s && var i := IndexOf(s, n);
      i <= |Order(t)| && s == Order(t)[..i] + [n] + Order(t)[i..]
  {
    InsertedIds(t, ctx, n, k, w);
    OrderPlug(ctx, Leaf);
    OrderPlug(ctx, Node(Leaf, n, k, Red, Leaf));
    Wedge(BeforeIds(ctx), n, AfterIds(ctx));
    assert Order(Blacken(w)) == Order(w);
    OrderIds(w);
    IndexOfAt(Order(w), |BeforeIds(ctx)|);
  }

  /** x wedged between p and q stands at index |p| of the result: Order gaining the inserted node's index. */
  lemma Wedge<T>(p: seq<T>, x: T, q: seq<T>)
    ensures var s := p + ([] + [x] + []) + q; var i := |p|;
      i < |s| && s[i] == x && i <= |p + q| && s == (p + q)[..i] + [x] + (p + q)[i..]
  {
    var i := |p|;
    assert (p + q)[..i] == p;
    assert (p + q)[i..] == q;
  }
}
