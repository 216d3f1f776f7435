/**
 * The rbnode records of include/taapp/set.h and the representation
 * relation tying them to a `Tree` of module RedBlackTrees.
 *
 * The allocator's heap is a map from node identity to record; NULL is NIL.
 * `Repr(t, h, p)` says the records of h hold exactly the subtree t, its
 * root's parent pointer being p.  `ReprCtx(ctx, h, child, top)` says the
 * same of the nodes of a path, the bottom node's link towards the position
 * being `child`.  The lemmas below are what the methods of the set need
 * when they rewire a few records: every other record, being unchanged,
 * keeps representing its part of the tree.
 */
module RedBlackNodes {
  import opened RedBlackTrees

  /** struct rbnode (set.h:548-555). */
  datatype RBNode<K> = RBNode(value: K, color: Color, parent: int, left: int, right: int)

  type Heap<K> = map<int, RBNode<K>>

  /** get_child<Direction> on a record. */
  function Link<K>(n: RBNode<K>, d: Dir): int
  {
    if d == Left then n.left else n.right
  }

  /** set_child<Direction> on a record. */
  function WithLink<K>(n: RBNode<K>, d: Dir, v: int): RBNode<K>
  {
    if d == Left then n.(left := v) else n.(right := v)
  }

  /** The record of a node whose d-link is a and whose other link is b. */
  function Record<K>(d: Dir, k: K, c: Color, p: int, a: int, b: int): RBNode<K>
  {
    if d == Left then RBNode(k, c, p, a, b) else RBNode(k, c, p, b, a)
  }

  ghost predicate Repr<K>(t: Tree<K>, h: Heap<K>, p: int)
  {
    match t
    case Leaf => true
    case Node(l, id, k, c, r) =>
      id in h && h[id] == RBNode(k, c, p, Ref(l), Ref(r)) && Repr(l, h, id) && Repr(r, h, id)
  }

  ghost predicate ReprCtx<K>(ctx: Ctx<K>, h: Heap<K>, child: int, top: int)
  {
    match ctx
    case Top => true
    case Down(up, d, id, k, c, o) =>
      id in h && h[id] == Record(d, k, c, Parent(up, top), child, Ref(o))
      && Repr(o, h, id) && ReprCtx(up, h, id, top)
  }

  lemma ReprJoin<K>(d: Dir, a: Tree<K>, id: nat, k: K, c: Color, o: Tree<K>, h: Heap<K>, p: int)
    ensures Repr(Join(d, a, id, k, c, o), h, p) <==>
      id in h && h[id] == Record(d, k, c, p, Ref(a), Ref(o)) && Repr(a, h, id) && Repr(o, h, id)
  {
  }

  /** A tree is represented iff the path to a position and the subtree there are. */
  lemma {:induction false} ReprPlug<K>(ctx: Ctx<K>, t: Tree<K>, h: Heap<K>, top: int)
    ensures Repr(Plug(ctx, t), h, top) <==> ReprCtx(ctx, h, Ref(t), top) && Repr(t, h, Parent(ctx, top))
    decreases ctx
  {
    match ctx
    case Top =>
    case Down(up, d, id, k, c, o) =>
      ReprPlug(up, Join(d, t, id, k, c, o), h, top);
      ReprJoin(d, t, id, k, c, o, h, Parent(up, top));
  }

  ghost predicate Kept<K>(a: Heap<K>, b: Heap<K>, z: int)
  {
    z in a ==> z in b && b[z] == a[z]
  }

  /** b holds the records of a except, possibly, at the ids in `touched`. */
  ghost predicate Outside<K>(a: Heap<K>, b: Heap<K>, touched: set<int>)
  {
    forall z {:trigger Kept(a, b, z)} :: z !in touched ==> Kept(a, b, z)
  }

  lemma {:induction false} ReprFrame<K>(t: Tree<K>, a: Heap<K>, b: Heap<K>, p: int, touched: set<int>)
    requires Repr(t, a, p) && Outside(a, b, touched) && Ids(t) !! touched
    ensures Repr(t, b, p)
  {
    match t
    case Leaf =>
    case Node(l, id, k, c, r) =>
      assert Kept(a, b, id);
      ReprFrame(l, a, b, id, touched);
      ReprFrame(r, a, b, id, touched);
  }

  lemma {:induction false} ReprCtxFrame<K>(ctx: Ctx<K>, a: Heap<K>, b: Heap<K>, child: int, top: int, touched: set<int>)
    requires ReprCtx(ctx, a, child, top) && Outside(a, b, touched) && CtxIds(ctx) !! touched
    ensures ReprCtx(ctx, b, child, top)
  {
    match ctx
    case Top =>
    case Down(up, d, id, k, c, o) =>
      assert Kept(a, b, id);
      ReprFrame(o, a, b, id, touched);
      ReprCtxFrame(up, a, b, id, top, touched);
  }

  /** A subtree whose root record only has its parent pointer changed. */
  lemma Reparent<K>(t: Tree<K>, a: Heap<K>, b: Heap<K>, p: int, q: int, touched: set<int>)
    requires Repr(t, a, p) && UniqueIds(t) && t.Node? && Outside(a, b, touched)
    requires t.id in b && b[t.id] == a[t.id].(parent := q)
    requires (Ids(t.left) + Ids(t.right)) !! touched
    ensures Repr(t, b, q)
  {
    ReprFrame(t.left, a, b, t.id, touched);
    ReprFrame(t.right, a, b, t.id, touched);
  }

  /** The bottom node of a path has its link towards the position changed. */
  lemma Relink<K>(ctx: Ctx<K>, a: Heap<K>, b: Heap<K>, child: int, child': int, top: int, touched: set<int>)
    requires ReprCtx(ctx, a, child, top) && ctx.Down? && Outside(a, b, touched)
    requires ctx.id in b && b[ctx.id] == WithLink(a[ctx.id], ctx.dir, child')
    requires (CtxIds(ctx.up) + Ids(ctx.other)) !! touched
    ensures ReprCtx(ctx, b, child', top)
  {
    ReprFrame(ctx.other, a, b, ctx.id, touched);
    ReprCtxFrame(ctx.up, a, b, ctx.id, top, touched);
  }

  /** The records hold w, root_ being its root pointer. */
  ghost predicate Shaped<K>(w: Tree<K>, h: Heap<K>, root: int)
  {
    Repr(w, h, NIL) && root == Ref(w) && UniqueIds(w)
  }

  /** The whole heap represents w, root_ being its root pointer, and holds nothing else. */
  ghost predicate Holds<K>(w: Tree<K>, h: Heap<K>, root: int)
  {
    Shaped(w, h, root) && h.Keys == Ids(w)
  }

  /** The parent of a position as a set of ids: empty at the top. */
  function ParentSet<K>(ctx: Ctx<K>): set<int>
  {
    if ctx.Top? then {} else {ctx.id}
  }

  /** The root of a subtree as a set of ids: empty for NULL. */
  function RefSet<K>(t: Tree<K>): set<int>
  {
    if t.Leaf? then {} else {t.id}
  }

  /**
   * Replacing the subtree t at a position by t', whose records are in b,
   * when b differs from a only inside t and at the parent's link.
   */
  lemma Replace<K>(ctx: Ctx<K>, t: Tree<K>, t': Tree<K>, a: Heap<K>, b: Heap<K>, top: int)
    requires Repr(Plug(ctx, t), a, top) && UniqueIds(Plug(ctx, t))
    requires Repr(t', b, Parent(ctx, top)) && Outside(a, b, Ids(t) + ParentSet(ctx))
    requires ctx.Down? ==> ctx.id in a && ctx.id in b && b[ctx.id] == WithLink(a[ctx.id], ctx.dir, Ref(t'))
    ensures Repr(Plug(ctx, t'), b, top)
  {
    ReprPlug(ctx, t, a, top);
    IdsPlug(ctx, t);
    if ctx.Down? {
      Relink(ctx, a, b, Ref(t), Ref(t'), top, Ids(t) + ParentSet(ctx));
    }
    ReprPlug(ctx, t', b, top);
  }

  /** A repainted node: only its own record changes. */
  lemma Repaint<K>(ctx: Ctx<K>, t: Tree<K>, c: Color, a: Heap<K>, b: Heap<K>, top: int)
    requires Repr(Plug(ctx, t), a, top) && UniqueIds(Plug(ctx, t)) && t.Node?
    requires t.id in a && b == a[t.id := a[t.id].(color := c)]
    ensures Repr(Plug(ctx, t.(color := c)), b, top)
  {
    ReprPlug(ctx, t, a, top);
    IdsPlug(ctx, t);
    assert Outside(a, b, {t.id});
    var t' := t.(color := c);
    ReprFrame(t.left, a, b, t.id, {t.id});
    ReprFrame(t.right, a, b, t.id, {t.id});
    ReprCtxFrame(ctx, a, b, t.id, top, {t.id});
    ReprPlug(ctx, t', b, top);
  }

  lemma RotateShape<K>(t: Tree<K>, d: Dir)
    requires t.Node? && Child(t, Opposite(d)).Node?
    ensures var p := Child(t, Opposite(d));
      Rotate(t, d) == Join(d, Join(d, Child(t, d), t.id, t.key, Red, Child(p, d)), p.id, p.key, Black, Child(p, Opposite(d)))
  {
  }

  /** The records of a rotated subtree, given those of its three rotated nodes. */
  lemma RotateLocal<K>(t: Tree<K>, d: Dir, a: Heap<K>, b: Heap<K>, P: int, touched: set<int>)
    requires Repr(t, a, P) && UniqueIds(t) && t.Node? && Child(t, Opposite(d)).Node?
    requires var p := Child(t, Opposite(d)); var m := Child(p, d);
      && t.id in b && b[t.id] == Record(d, t.key, Red, p.id, Ref(Child(t, d)), Ref(m))
      && p.id in b && b[p.id] == Record(d, p.key, Black, P, t.id, Ref(Child(p, Opposite(d))))
      && (m.Node? ==> m.id in a && m.id in b && b[m.id] == a[m.id].(parent := t.id))
      && Outside(a, b, touched) && touched * Ids(t) <= {t.id, p.id} + RefSet(m)
    ensures Repr(Rotate(t, d), b, P)
  {
    var p := Child(t, Opposite(d));
    var m := Child(p, d);
    var A, E := Child(t, d), Child(p, Opposite(d));
    assert t == Join(d, A, t.id, t.key, t.color, p);
    assert p == Join(d, m, p.id, p.key, p.color, E);
    ReprJoin(d, A, t.id, t.key, t.color, p, a, P);
    ReprJoin(d, m, p.id, p.key, p.color, E, a, t.id);
    assert UniqueIds(p);
    assert Ids(t) == Ids(A) + {t.id} + Ids(p) && Ids(p) == Ids(m) + {p.id} + Ids(E);
    assert m.Node? ==> m.id in Ids(p);
    ReprFrame(A, a, b, t.id, touched);
    ReprFrame(E, a, b, p.id, touched);
    if m.Node? {
      assert UniqueIds(m);
      Reparent(m, a, b, p.id, t.id, touched);
    }
    var down := Join(d, A, t.id, t.key, Red, m);
    ReprJoin(d, A, t.id, t.key, Red, m, b, p.id);
    ReprJoin(d, down, p.id, p.key, Black, E, b, P);
    RotateShape(t, d);
  }

  /**
   * rotate<Direction> on the records: the heap b after rotate at t holds
   * the records of Rotate(t, d) at the same position.
   */
  lemma RotateRepr<K>(ctx: Ctx<K>, t: Tree<K>, d: Dir, a: Heap<K>, b: Heap<K>, top: int)
    requires Repr(Plug(ctx, t), a, top) && UniqueIds(Plug(ctx, t))
    requires t.Node? && Child(t, Opposite(d)).Node?
    requires var p := Child(t, Opposite(d)); var m := Child(p, d);
      && t.id in b && b[t.id] == Record(d, t.key, Red, p.id, Ref(Child(t, d)), Ref(m))
      && p.id in b && b[p.id] == Record(d, p.key, Black, Parent(ctx, top), t.id, Ref(Child(p, Opposite(d))))
      && (m.Node? ==> m.id in a && m.id in b && b[m.id] == a[m.id].(parent := t.id))
      && (ctx.Down? ==> ctx.id in a && ctx.id in b && b[ctx.id] == WithLink(a[ctx.id], ctx.dir, p.id))
      && Outside(a, b, {t.id, p.id} + RefSet(m) + ParentSet(ctx))
    ensures Repr(Plug(ctx, Rotate(t, d)), b, top)
  {
    var p := Child(t, Opposite(d));
    var m := Child(p, d);
    ReprPlug(ctx, t, a, top);
    IdsPlug(ctx, t);
    assert p.id in Ids(t) && (m.Node? ==> m.id in Ids(p) && m.id in Ids(t));
    assert ctx.Down? ==> ctx.id in CtxIds(ctx);
    RotateLocal(t, d, a, b, Parent(ctx, top), {t.id, p.id} + RefSet(m) + ParentSet(ctx));
    RotateRearranges(t, d);
    Replace(ctx, t, Rotate(t, d), a, b, top);
  }

  /** is_red (set.h:652-655) on the heap: NULL counts as black. */
  function IsRedIn<K>(h: Heap<K>, z: int): bool
    requires z == NIL || z in h
  {
    z != NIL && h[z].color == Red
  }

  lemma IsRedRef<K>(t: Tree<K>, h: Heap<K>, p: int)
    requires Repr(t, h, p)
    ensures Ref(t) == NIL || Ref(t) in h
    ensures IsRedIn(h, Ref(t)) == IsRed(t)
  {
  }

  /**
   * At a position below a node, the parent pointer of the subtree's root
   * is that node, and the node's left link is the subtree's root iff the
   * position is its left child (even for an empty subtree, provided the
   * other child is not empty too).
   */
  lemma ParentLink<K>(ctx: Ctx<K>, t: Tree<K>, h: Heap<K>, top: int)
    requires Repr(Plug(ctx, t), h, top) && UniqueIds(Plug(ctx, t)) && ctx.Down?
    requires t.Node? || ctx.other.Node?
    ensures ctx.id in h && Link(h[ctx.id], ctx.dir) == Ref(t) && Link(h[ctx.id], Opposite(ctx.dir)) == Ref(ctx.other)
    ensures (h[ctx.id].left == Ref(t)) == (ctx.dir == Left)
    ensures t.Node? ==> t.id in h && h[t.id].parent == ctx.id && Link(h[ctx.id], Opposite(ctx.dir)) != t.id
  {
    ReprPlug(ctx, t, h, top);
    IdsPlug(ctx, t);
    if t.Node? && ctx.other.Node? {
      assert t.id in Ids(t) && ctx.other.id in Ids(ctx.other);
    }
  }

  /** The record of a node at a position links to the node's children. */
  lemma RecordAt<K>(ctx: Ctx<K>, t: Tree<K>, h: Heap<K>, top: int)
    requires Repr(Plug(ctx, t), h, top) && t.Node?
    ensures t.id in h && h[t.id].left == Ref(t.left) && h[t.id].right == Ref(t.right)
    ensures (h[t.id].left == NIL <==> t.left.Leaf?) && (h[t.id].right == NIL <==> t.right.Leaf?)
  {
    ReprPlug(ctx, t, h, top);
  }

  /** The record of the node at index i of Order(t) holds the key at index i of Keys(t). */
  lemma {:induction false} KeyAt<K>(t: Tree<K>, h: Heap<K>, p: int, i: nat)
    requires Repr(t, h, p) && i < |Order(t)|
    ensures i < |Keys(t)| && Order(t)[i] in h && h[Order(t)[i]].value == Keys(t)[i]
  {
    OrderLength(t);
    match t
    case Node(l, id, k, c, r) =>
      OrderLength(l);
      if i < |Order(l)| {
        KeyAt(l, h, id, i);
      } else if i > |Order(l)| {
        KeyAt(r, h, id, i - |Order(l)| - 1);
      }
  }

  /** A repaint: the tree is the same but for the node's colour. */
  lemma ShapedRepaint<K>(ctx: Ctx<K>, t: Tree<K>, c: Color, a: Heap<K>, b: Heap<K>, root: int)
    requires Shaped(Plug(ctx, t), a, root) && t.Node?
    requires t.id in a && b == a[t.id := a[t.id].(color := c)]
    ensures Shaped(Plug(ctx, t.(color := c)), b, root) && b.Keys == a.Keys
  {
    Repaint(ctx, t, c, a, b, NIL);
    assert Rearranged(t, t.(color := c));
    PlugRearranged(ctx, t, t.(color := c));
    RefPlug(ctx, t);
    RefPlug(ctx, t.(color := c));
  }

  /** A change of subtree that only rearranges its nodes, given the new records. */
  lemma ShapedRearranged<K>(ctx: Ctx<K>, t: Tree<K>, t': Tree<K>, a: Heap<K>, b: Heap<K>, root: int, root': int)
    requires Shaped(Plug(ctx, t), a, root) && Repr(Plug(ctx, t'), b, NIL) && Rearranged(t, t')
    requires t.Node? && t'.Node? && root' == if ctx.Top? then t'.id else root
    ensures Shaped(Plug(ctx, t'), b, root')
  {
    PlugRearranged(ctx, t, t');
    RefPlug(ctx, t);
    RefPlug(ctx, t');
  }

  /** insert (set.h:468-474): a fresh red leaf n linked at the empty position ctx. */
  lemma LinkLeaf<K>(ctx: Ctx<K>, n: nat, k: K, a: Heap<K>, b: Heap<K>, root: int)
    requires Holds(Plug(ctx, Leaf), a, root) && ctx.Down? && n !in a && ctx.id in a
    requires b == a[n := RBNode(k, Red, ctx.id, NIL, NIL)][ctx.id := WithLink(a[ctx.id], ctx.dir, n)]
    ensures Holds(Plug(ctx, Node(Leaf, n, k, Red, Leaf)), b, root)
  {
    var t' := Node(Leaf, n, k, Red, Leaf);
    IdsPlug(ctx, Leaf);
    IdsPlug(ctx, t');
    assert Outside(a, b, Ids<K>(Leaf) + ParentSet(ctx));
    Replace(ctx, Leaf, t', a, b, NIL);
    RefPlug(ctx, Leaf);
    RefPlug(ctx, t');
  }

  /** What rotate<Direction> at x dereferences exists, and the pivot is not x's parent. */
  ghost predicate RotateReady<K>(a: Heap<K>, x: int, d: Dir)
  {
    x in a && Link(a[x], Opposite(d)) in a
    && var pivot := Link(a[x], Opposite(d)); var gp := a[x].parent;
      && (gp == NIL || gp in a) && gp != pivot
      && (Link(a[pivot], d) == NIL || Link(a[pivot], d) in a)
  }

  /**
   * The records after rotate<Direction> at x (set.h:676-702), stored in
   * the order the code stores them.
   */
  function RotatedHeap<K>(a: Heap<K>, x: int, d: Dir): (r: Heap<K>)
    requires RotateReady(a, x, d)
    ensures r.Keys == a.Keys
  {
    var pivot := Link(a[x], Opposite(d));
    var gp := a[x].parent;
    var h1 := a[pivot := a[pivot].(parent := gp)];
    var h2 := if gp == NIL then h1
      else if h1[gp].left == x then h1[gp := h1[gp].(left := pivot)]
      else h1[gp := h1[gp].(right := pivot)];
    var pc := Link(h2[pivot], d);
    var h3 := h2[x := WithLink(h2[x], Opposite(d), pc)];
    var h4 := if pc != NIL then h3[pc := h3[pc].(parent := x)] else h3;
    var h5 := h4[pivot := WithLink(h4[pivot], d, x)];
    var h6 := h5[x := h5[x].(parent := pivot)];
    var h7 := h6[x := h6[x].(color := Red)];
    h7[pivot := h7[pivot].(color := Black)]
  }

  /** The records of t's root, its pivot and the pivot's inner child, at their place in a tree. */
  lemma RotatableFacts<K>(ctx: Ctx<K>, t: Tree<K>, d: Dir, a: Heap<K>)
    requires Repr(Plug(ctx, t), a, NIL) && UniqueIds(Plug(ctx, t))
    requires t.Node? && Child(t, Opposite(d)).Node?
    ensures var p := Child(t, Opposite(d)); var m := Child(p, d);
      && t.id in a && a[t.id] == Record(d, t.key, t.color, Parent(ctx, NIL), Ref(Child(t, d)), p.id)
      && p.id in a && a[p.id] == Record(d, p.key, p.color, t.id, Ref(m), Ref(Child(p, Opposite(d))))
      && (m.Node? ==> m.id in a)
      && (ctx.Down? ==> ctx.id in a && Link(a[ctx.id], ctx.dir) == t.id && Link(a[ctx.id], Opposite(ctx.dir)) != t.id)
      && t.id != p.id && (m.Node? ==> m.id != t.id && m.id != p.id)
      && (ctx.Down? ==> ctx.id != t.id && ctx.id != p.id && (m.Node? ==> ctx.id != m.id))
    ensures RotateReady(a, t.id, d)
  {
    var p := Child(t, Opposite(d));
    var m := Child(p, d);
    ReprPlug(ctx, t, a, NIL);
    IdsPlug(ctx, t);
    assert p.id in Ids(t) && (m.Node? ==> m.id in Ids(p) && m.id in Ids(t));
    assert ctx.Down? ==> ctx.id in CtxIds(ctx);
    assert t == Join(d, Child(t, d), t.id, t.key, t.color, p);
    assert p == Join(d, m, p.id, p.key, p.color, Child(p, Opposite(d)));
    ReprJoin(d, Child(t, d), t.id, t.key, t.color, p, a, Parent(ctx, NIL));
    ReprJoin(d, m, p.id, p.key, p.color, Child(p, Opposite(d)), a, t.id);
    if ctx.Down? {
      ParentLink(ctx, t, a, NIL);
    }
  }

  lemma RotatedRecords<K>(ctx: Ctx<K>, t: Tree<K>, d: Dir, a: Heap<K>)
    requires Repr(Plug(ctx, t), a, NIL) && UniqueIds(Plug(ctx, t))
    requires t.Node? && Child(t, Opposite(d)).Node?
    ensures RotateReady(a, t.id, d)
    ensures var p := Child(t, Opposite(d)); var m := Child(p, d); var b := RotatedHeap(a, t.id, d);
      && t.id in b && b[t.id] == Record(d, t.key, Red, p.id, Ref(Child(t, d)), Ref(m))
      && p.id in b && b[p.id] == Record(d, p.key, Black, Parent(ctx, NIL), t.id, Ref(Child(p, Opposite(d))))
  {
    RotatableFacts(ctx, t, d, a);
  }

  lemma RotatedOthers<K>(ctx: Ctx<K>, t: Tree<K>, d: Dir, a: Heap<K>)
    requires Repr(Plug(ctx, t), a, NIL) && UniqueIds(Plug(ctx, t))
    requires t.Node? && Child(t, Opposite(d)).Node?
    ensures RotateReady(a, t.id, d)
    ensures var p := Child(t, Opposite(d)); var m := Child(p, d); var b := RotatedHeap(a, t.id, d);
      && (m.Node? ==> m.id in a && m.id in b && b[m.id] == a[m.id].(parent := t.id))
      && (ctx.Down? ==> ctx.id in a && ctx.id in b && b[ctx.id] == WithLink(a[ctx.id], ctx.dir, p.id))
  {
    RotatableFacts(ctx, t, d, a);
  }

  lemma RotatedFrame<K>(ctx: Ctx<K>, t: Tree<K>, d: Dir, a: Heap<K>)
    requires Repr(Plug(ctx, t), a, NIL) && UniqueIds(Plug(ctx, t))
    requires t.Node? && Child(t, Opposite(d)).Node?
    ensures RotateReady(a, t.id, d)
    ensures var p := Child(t, Opposite(d)); var m := Child(p, d); var b := RotatedHeap(a, t.id, d);
      && Outside(a, b, {t.id, p.id} + RefSet(m) + ParentSet(ctx)) && b.Keys == a.Keys
  {
    RotatableFacts(ctx, t, d, a);
    var p := Child(t, Opposite(d));
    var b := RotatedHeap(a, t.id, d);
    var touched := {t.id, p.id} + RefSet(Child(p, d)) + ParentSet(ctx);
    forall z | z !in touched
      ensures Kept(a, b, z)
    {
    }
  }

  /** rotate<Direction> leaves records holding the rotated tree. */
  lemma RotatedRepr<K>(ctx: Ctx<K>, t: Tree<K>, d: Dir, a: Heap<K>)
    requires Repr(Plug(ctx, t), a, NIL) && UniqueIds(Plug(ctx, t))
    requires t.Node? && Child(t, Opposite(d)).Node?
    ensures RotateReady(a, t.id, d)
    ensures var b := RotatedHeap(a, t.id, d);
      Repr(Plug(ctx, Rotate(t, d)), b, NIL) && b.Keys == a.Keys
  {
    RotatedRecords(ctx, t, d, a);
    RotatedOthers(ctx, t, d, a);
    RotatedFrame(ctx, t, d, a);
    RotateRepr(ctx, t, d, a, RotatedHeap(a, t.id, d), NIL);
  }

  /** After rotate<Direction>, root_ is the pivot exactly when x was the root. */
  lemma RotatedShaped<K>(ctx: Ctx<K>, t: Tree<K>, d: Dir, a: Heap<K>, root: int, root': int)
    requires Shaped(Plug(ctx, t), a, root) && t.Node? && Child(t, Opposite(d)).Node?
    requires root' == if ctx.Top? then Child(t, Opposite(d)).id else root
    ensures RotateReady(a, t.id, d)
    ensures Shaped(Plug(ctx, Rotate(t, d)), RotatedHeap(a, t.id, d), root') && RotatedHeap(a, t.id, d).Keys == a.Keys
  {
    RotatedRepr(ctx, t, d, a);
    RotateRearranges(t, d);
    ShapedRearranged(ctx, t, Rotate(t, d), a, RotatedHeap(a, t.id, d), root, root');
  }

  // ---------------------------------------------------------------------
  // The splice of erase (set.h:326-366)

  /**
   * erase at a node with at most one child (set.h:334-336, 363-366):
   * replace_child puts the child, here the d-child, in the node's place
   * and the child's parent pointer is set to the node's parent.
   */
  lemma SplicedChild<K>(ctx: Ctx<K>, n: Tree<K>, d: Dir, a: Heap<K>, a1: Heap<K>, b: Heap<K>, root: int, root': int)
    requires Shaped(Plug(ctx, n), a, root) && n.Node? && Child(n, d).Node? && Child(n, Opposite(d)).Leaf?
    requires ctx.Down? ==> ctx.id in a && a1 == a[ctx.id := WithLink(a[ctx.id], ctx.dir, Child(n, d).id)] && root' == root
    requires ctx.Top? ==> a1 == a && root' == Child(n, d).id
    requires Child(n, d).id in a1 && b == a1[Child(n, d).id := a1[Child(n, d).id].(parent := Parent(ctx, NIL))]
    ensures Shaped(Plug(ctx, Child(n, d)), b, root') && b.Keys == a.Keys
  {
    var ch := Child(n, d);
    ReprPlug(ctx, n, a, NIL);
    IdsPlug(ctx, n);
    assert UniqueIds(n) && UniqueIds(ch);
    assert a1.Keys == a.Keys && b.Keys == a1.Keys;
    var touched := {ch.id} + ParentSet(ctx);
    var below := Ids(ch.left) + Ids(ch.right);
    assert below <= Ids(n) && ch.id in Ids(n);
    assert ch.id !in below;
    if ctx.Down? {
      assert ctx.id in CtxIds(ctx);
      assert ctx.id !in Ids(n);
    }
    assert a1[ch.id] == a[ch.id];
    assert below !! touched;
    assert Outside(a, b, touched);
    assert Repr(ch, a, n.id);
    Reparent(ch, a, b, n.id, Parent(ctx, NIL), touched);
    assert Outside(a, b, Ids(n) + ParentSet(ctx));
    Replace(ctx, n, ch, a, b, NIL);
    ChildIds(ctx, n, d);
    RefPlug(ctx, ch);
    RefPlug(ctx, n);
  }

  /** erase at a node with no child: NULL takes its place (set.h:334-336, 363). */
  lemma SplicedLeaf<K>(ctx: Ctx<K>, n: Tree<K>, a: Heap<K>, b: Heap<K>, root: int, root': int)
    requires Shaped(Plug(ctx, n), a, root) && n.Node? && n.left.Leaf? && n.right.Leaf?
    requires ctx.Down? ==> ctx.id in a && b == a[ctx.id := WithLink(a[ctx.id], ctx.dir, NIL)] && root' == root
    requires ctx.Top? ==> b == a && root' == NIL
    ensures Shaped(Plug<K>(ctx, Leaf), b, root') && b.Keys == a.Keys
  {
    ReprPlug(ctx, n, a, NIL);
    IdsPlug(ctx, n);
    assert b.Keys == a.Keys;
    if ctx.Down? {
      assert ctx.id in CtxIds(ctx);
    }
    assert Outside(a, b, Ids(n) + ParentSet(ctx));
    Replace(ctx, n, Leaf, a, b, NIL);
    ChildIds(ctx, n, Left);
    RefPlug(ctx, Leaf);
    RefPlug(ctx, n);
  }

  /** The outermost node of a path is on it. */
  lemma {:induction false} OuterIds<K>(ctx: Ctx<K>)
    requires ctx.Down?
    ensures Outer(ctx) in CtxIds(ctx)
    decreases ctx
  {
    if ctx.up.Down? {
      OuterIds(ctx.up);
    }
  }

  /** Every step of the path to the leftmost node goes left. */
  lemma {:induction false} LeftmostLeft<K>(t: Tree<K>, acc: Ctx<K>)
    requires t.Node?
    ensures var c := Leftmost(t, acc).0; c == acc || (c.Down? && c.dir == Left)
    decreases t
  {
    if t.left.Node? {
      LeftmostLeft(t.left, Down(acc, Left, t.id, t.key, t.color, t.right));
    }
  }

  /**
   * A path whose outermost node's parent pointer changes from top to
   * top', the other records it covers being unchanged.
   */
  lemma {:induction false} ReprCtxRetop<K>(ctx: Ctx<K>, a: Heap<K>, b: Heap<K>, child: int, top: int, top': int, touched: set<int>)
    requires ReprCtx(ctx, a, child, top) && CtxUnique(ctx) && ctx.Down? && Outside(a, b, touched)
    requires touched * CtxIds(ctx) <= {Outer(ctx)}
    requires Outer(ctx) in a && Outer(ctx) in b && b[Outer(ctx)] == a[Outer(ctx)].(parent := top')
    ensures ReprCtx(ctx, b, child, top')
    decreases ctx
  {
    var Down(up, d, id, k, c, o) := ctx;
    assert CtxIds(ctx) == CtxIds(up) + {id} + Ids(o);
    if up.Down? {
      OuterIds(up);
      assert id !in touched by {
        assert id in CtxIds(ctx) && id != Outer(up);
      }
      assert Kept(a, b, id);
      ReprCtxRetop(up, a, b, id, top, top', touched);
    }
    assert Outer(ctx) !in Ids(o) by {
      if up.Down? {
        assert Outer(up) in CtxIds(up);
      }
    }
    assert Ids(o) <= CtxIds(ctx);
    ReprFrame(o, a, b, id, touched);
  }

  /**
   * A path whose bottom node's link towards the position changes from
   * child to child' and whose outermost node's parent pointer changes
   * from top to top'.
   */
  lemma ReprCtxRewire<K>(ctx: Ctx<K>, a: Heap<K>, b: Heap<K>, child: int, child': int, top: int, top': int, touched: set<int>)
    requires ReprCtx(ctx, a, child, top) && CtxUnique(ctx) && ctx.Down? && Outside(a, b, touched)
    requires touched * CtxIds(ctx) <= {ctx.id, Outer(ctx)}
    requires ctx.id in b && b[ctx.id] == Record(ctx.dir, ctx.key, ctx.color, Parent(ctx.up, top'), child', Ref(ctx.other))
    requires ctx.up.Down? ==> Outer(ctx) in a && Outer(ctx) in b && b[Outer(ctx)] == a[Outer(ctx)].(parent := top')
    ensures ReprCtx(ctx, b, child', top')
  {
    var Down(up, d, id, k, c, o) := ctx;
    assert CtxIds(ctx) == CtxIds(up) + {id} + Ids(o);
    if up.Down? {
      OuterIds(up);
      assert Outer(ctx) == Outer(up) && CtxIds(up) <= CtxIds(ctx);
      assert touched * CtxIds(up) <= {Outer(up)} by {
        forall z | z in touched * CtxIds(up)
          ensures z == Outer(up)
        {
          assert z in touched * CtxIds(ctx) && z != id;
        }
      }
      ReprCtxRetop(up, a, b, id, top, top', touched);
      assert Outer(ctx) !in Ids(o) by {
        assert Outer(up) in CtxIds(up);
      }
    }
    assert Ids(o) !! touched by {
      forall z | z in Ids(o)
        ensures z !in touched
      {
        assert z in CtxIds(ctx) && z != id;
        if up.Down? {
          assert Outer(ctx) == Outer(up) && Outer(up) in CtxIds(up);
        }
        assert z != Outer(ctx);
        assert z !in touched * CtxIds(ctx);
      }
    }
    ReprFrame(o, a, b, id, touched);
  }

  /**
   * What the successor swap of erase dereferences exists, and the few
   * identities the chain of stores below relies on are distinct.
   */
  ghost predicate SpliceReady<K>(a: Heap<K>, x: int, s: int)
  {
    x in a && s in a && a[x].left in a && a[x].right in a && a[s].parent in a
    && (a[x].parent == NIL || a[x].parent in a) && (a[s].right == NIL || a[s].right in a)
    && x != s && a[x].parent != x && a[x].parent != s && a[x].left != x
  }

  /**
   * The records after the successor s of x takes x's place (set.h:340-361),
   * stored in the order the code stores them.
   */
  function PromotedHeap<K>(a: Heap<K>, x: int, s: int): (h: Heap<K>)
    requires SpliceReady(a, x, s)
    ensures h.Keys == a.Keys
  {
    var P := a[x].parent;
    var h1 := if P == NIL then a
      else if a[P].left == x then a[P := a[P].(left := s)]
      else a[P := a[P].(right := s)];
    var L := h1[x].left;
    var h2 := h1[s := h1[s].(left := L)];
    var h3 := h2[L := h2[L].(parent := s)];
    var R := h3[x].right;
    var h4 := h3[s := h3[s].(right := R)];
    var h5 := h4[R := h4[R].(parent := s)];
    var h6 := h5[s := h5[s].(parent := h5[x].parent)];
    h6[s := h6[s].(color := h6[x].color)]
  }

  /** The node whose link held the successor before the swap: x itself when s is x's right child. */
  function SplicedParent<K>(a: Heap<K>, x: int, s: int): int
    requires x in a && s in a
  {
    if a[x].right == s then s else a[s].parent
  }

  /**
   * The records once the successor's own right child has taken the
   * successor's old place (set.h:363-366).
   */
  function SplicedHeap<K>(a: Heap<K>, x: int, s: int): (h: Heap<K>)
    requires SpliceReady(a, x, s)
    ensures h.Keys == a.Keys
  {
    var h7 := PromotedHeap(a, x, s);
    var parent := SplicedParent(a, x, s);
    var child := a[s].right;
    var h8 := h7[parent := WithLink(h7[parent], if a[x].right == s then Right else Left, child)];
    if child != NIL then h8[child := h8[child].(parent := parent)] else h8
  }

  /**
   * The records around a node n with two children, s = st.id being its
   * successor, found cr down from n's right child, and the identities
   * that the swap touches, each distinct from the others.
   */
  ghost predicate SpliceLayout<K>(ctx: Ctx<K>, n: Tree<K>, a: Heap<K>)
    requires n.Node? && n.right.Node?
  {
    var (cr, st) := Leftmost(n.right, Top);
    var x, s, L, R, SR, P := n.id, st.id, Ref(n.left), n.right.id, Ref(st.right), Parent(ctx, NIL);
    && x in a && a[x] == RBNode(n.key, n.color, P, L, R)
    && s in a && a[s] == RBNode(st.key, st.color, Parent(cr, x), NIL, SR)
    && L in a && R in a && (SR != NIL ==> SR in a)
    && (cr.Top? <==> R == s)
    && (cr.Down? ==>
          cr.id in a && cr.dir == Left && a[cr.id] == Record(Left, cr.key, cr.color, Parent(cr.up, x), s, Ref(cr.other)) && Ref(cr.other) != s)
    && (ctx.Down? ==> ctx.id in a && Link(a[ctx.id], ctx.dir) == x && Link(a[ctx.id], Opposite(ctx.dir)) != x)
    && x != s && x != L && x != R && x != P && x != SR
    && s != L && s != P && s != SR
    && L != R && L != P && L != SR && L != NIL
    && R != P && R != SR && (P != NIL ==> P != SR)
    && (cr.Down? ==> cr.id != x && cr.id != s && cr.id != L && cr.id != P && cr.id != SR && (cr.id == R <==> cr.up.Top?))
  }

  lemma SpliceLayoutHolds<K>(ctx: Ctx<K>, n: Tree<K>, a: Heap<K>)
    requires Repr(Plug(ctx, n), a, NIL) && UniqueIds(Plug(ctx, n)) && n.Node? && n.left.Node? && n.right.Node?
    ensures SpliceLayout(ctx, n, a)
  {
    var (cr, st) := Leftmost(n.right, Top);
    ReprPlug(ctx, n, a, NIL);
    IdsPlug(ctx, n);
    assert UniqueIds(n) && UniqueIds(n.right);
    if ctx.Down? {
      ParentLink(ctx, n, a, NIL);
      assert ctx.id in CtxIds(ctx);
    }
    LeftmostPlug(n.right, Top);
    LeftmostLeft(n.right, Top);
    ReprPlug(cr, st, a, n.id);
    IdsPlug(cr, st);
    RefPlug(cr, st);
    assert UniqueIds(st);
    assert st.id in Ids(st);
    assert st.right.Node? ==> st.right.id in Ids(st) && st.right.id in Ids(st.right);
    assert n.left.id in Ids(n.left);
    if cr.Down? {
      OuterIds(cr);
      assert cr.id in CtxIds(cr);
      if cr.up.Down? {
        OuterIds(cr.up);
      }
      assert cr.other.Node? ==> cr.other.id in Ids(cr.other);
    }
  }

  /** The records the splice writes: the successor, n's children, the successor's right child and the two parents. */
  function SpliceTouched<K>(ctx: Ctx<K>, n: Tree<K>): set<int>
    requires n.Node? && n.right.Node?
  {
    var (cr, st) := Leftmost(n.right, Top);
    {st.id, Ref(n.left), n.right.id} + RefSet(st.right) + ParentSet(ctx) + ParentSet(cr)
  }

  /** The records the splice writes are none of those below n's left child. */
  lemma SpliceLeftIds<K>(ctx: Ctx<K>, n: Tree<K>)
    requires UniqueIds(Plug(ctx, n)) && n.Node? && n.left.Node? && n.right.Node?
    ensures (Ids(n.left.left) + Ids(n.left.right)) !! SpliceTouched(ctx, n)
  {
    var (cr, st) := Leftmost(n.right, Top);
    var B := Ids(n.left.left) + Ids(n.left.right);
    IdsPlug(ctx, n);
    assert UniqueIds(n) && UniqueIds(n.left);
    assert B <= Ids(n.left) && n.left.id !in B;
    assert ctx.Down? ==> ctx.id in CtxIds(ctx) && ctx.id !in B;
    LeftmostPlug(n.right, Top);
    IdsPlug(cr, st);
    assert st.id in Ids(st) && st.id !in B;
    assert st.right.Node? ==> st.right.id in Ids(st) && st.right.id !in B;
    assert n.right.id in Ids(n.right) && n.right.id !in B;
    assert cr.Down? ==> cr.id in CtxIds(cr) && cr.id !in B;
  }

  /** The records the splice writes are none of those below the successor's right child. */
  lemma SpliceInnerIds<K>(ctx: Ctx<K>, n: Tree<K>)
    requires UniqueIds(Plug(ctx, n)) && n.Node? && n.left.Node? && n.right.Node?
    ensures var st := Leftmost(n.right, Top).1;
      st.right.Node? ==> (Ids(st.right.left) + Ids(st.right.right)) !! SpliceTouched(ctx, n)
  {
    var (cr, st) := Leftmost(n.right, Top);
    if st.right.Node? {
      var B := Ids(st.right.left) + Ids(st.right.right);
      IdsPlug(ctx, n);
      assert UniqueIds(n) && UniqueIds(n.right);
      LeftmostPlug(n.right, Top);
      IdsPlug(cr, st);
      RefPlug(cr, st);
      assert UniqueIds(st) && UniqueIds(st.right);
      assert B <= Ids(st) && st.id !in B && st.right.id !in B;
      assert Ids(st) <= Ids(n.right);
      assert n.left.id in Ids(n.left) && n.left.id !in B;
      assert ctx.Down? ==> ctx.id in CtxIds(ctx) && ctx.id !in B;
      if cr.Down? {
        OuterIds(cr);
        assert cr.id in CtxIds(cr) && cr.id !in B;
      }
      assert n.right.id !in B;
    }
  }

  /** On the path from n's right child to the successor, the splice writes the two ends only. */
  lemma SplicePathIds<K>(ctx: Ctx<K>, n: Tree<K>)
    requires UniqueIds(Plug(ctx, n)) && n.Node? && n.left.Node? && n.right.Node?
    ensures var cr := Leftmost(n.right, Top).0;
      cr.Down? ==> SpliceTouched(ctx, n) * CtxIds(cr) <= {cr.id, Outer(cr)}
  {
    var (cr, st) := Leftmost(n.right, Top);
    if cr.Down? {
      IdsPlug(ctx, n);
      assert UniqueIds(n);
      LeftmostPlug(n.right, Top);
      IdsPlug(cr, st);
      RefPlug(cr, st);
      assert st.id in Ids(st) && st.id !in CtxIds(cr);
      assert st.right.Node? ==> st.right.id in Ids(st) && st.right.id !in CtxIds(cr);
      assert n.left.id in Ids(n.left) && n.left.id !in CtxIds(cr);
      assert ctx.Down? ==> ctx.id in CtxIds(ctx) && ctx.id !in CtxIds(cr);
    }
  }

  /** The splice writes inside n and at n's parent only. */
  lemma SpliceWithin<K>(ctx: Ctx<K>, n: Tree<K>)
    requires n.Node? && n.left.Node? && n.right.Node?
    ensures SpliceTouched(ctx, n) <= Ids(n) + ParentSet(ctx)
  {
    var (cr, st) := Leftmost(n.right, Top);
    LeftmostPlug(n.right, Top);
    IdsPlug(cr, st);
    assert st.id in Ids(st) && (st.right.Node? ==> st.right.id in Ids(st));
    assert n.left.id in Ids(n.left) && n.right.id in Ids(n.right);
    assert cr.Down? ==> cr.id in CtxIds(cr);
  }

  /** What the swap of erase reads and writes, on the records alone. */
  lemma PromoteFacts<K>(ctx: Ctx<K>, n: Tree<K>, a: Heap<K>)
    requires Repr(Plug(ctx, n), a, NIL) && UniqueIds(Plug(ctx, n)) && n.Node? && n.left.Node? && n.right.Node?
    ensures var x, s := n.id, Leftmost(n.right, Top).1.id;
      SpliceReady(a, x, s) &&
      var P, L, R := a[x].parent, a[x].left, a[x].right;
      (P == NIL <==> ctx.Top?) && L != NIL && L != s && R != x && R != P && L != P && L != R
      && (ctx.Down? ==> Link(a[P], ctx.dir) == x && Link(a[P], Opposite(ctx.dir)) != x)
  {
    SpliceLayoutHolds(ctx, n, a);
  }

  /** The records after the successor has taken x's place, before its own place is refilled. */
  lemma PromotedRecords<K>(ctx: Ctx<K>, n: Tree<K>, a: Heap<K>)
    requires n.Node? && n.right.Node? && SpliceLayout(ctx, n, a)
    ensures var (cr, st) := Leftmost(n.right, Top);
      var x, s, L, R, P := n.id, st.id, Ref(n.left), n.right.id, Parent(ctx, NIL);
      SpliceReady(a, x, s) &&
      var h := PromotedHeap(a, x, s);
      && h[s] == RBNode(st.key, n.color, P, L, R)
      && h[L] == a[L].(parent := s)
      && (R != s ==> h[R] == a[R].(parent := s))
      && (ctx.Down? ==> h[P] == WithLink(a[P], ctx.dir, s))
      && Outside(a, h, {s, L, R} + ParentSet(ctx))
  {
  }

  /**
   * The records after the whole splice: s holds x's place, colour and
   * children, and s's right child holds s's old place.
   */
  lemma SplicedRecords<K>(ctx: Ctx<K>, n: Tree<K>, a: Heap<K>)
    requires n.Node? && n.right.Node? && SpliceLayout(ctx, n, a)
    ensures var (cr, st) := Leftmost(n.right, Top);
      var x, s, L, R, SR, P := n.id, st.id, Ref(n.left), n.right.id, Ref(st.right), Parent(ctx, NIL);
      SpliceReady(a, x, s) &&
      var b := SplicedHeap(a, x, s);
      && b[s] == RBNode(st.key, n.color, P, L, if cr.Top? then SR else R)
      && b[L] == a[L].(parent := s)
      && (SR != NIL ==> b[SR] == a[SR].(parent := Parent(cr, s)))
      && (cr.Down? ==> b[cr.id] == Record(Left, cr.key, cr.color, Parent(cr.up, s), SR, Ref(cr.other)))
      && (cr.Down? && cr.up.Down? ==> b[R] == a[R].(parent := s))
      && (ctx.Down? ==> b[P] == WithLink(a[P], ctx.dir, s))
      && Outside(a, b, SpliceTouched(ctx, n))
  {
    PromotedRecords(ctx, n, a);
  }

  /** After the splice, the records of n's left subtree hang below the successor. */
  lemma SplicedLeft<K>(ctx: Ctx<K>, n: Tree<K>, a: Heap<K>)
    requires Repr(Plug(ctx, n), a, NIL) && UniqueIds(Plug(ctx, n)) && n.Node? && n.left.Node? && n.right.Node?
    ensures var s := Leftmost(n.right, Top).1.id;
      SpliceReady(a, n.id, s) && Repr(n.left, SplicedHeap(a, n.id, s), s)
  {
    var s := Leftmost(n.right, Top).1.id;
    SpliceLayoutHolds(ctx, n, a);
    SplicedRecords(ctx, n, a);
    SpliceLeftIds(ctx, n);
    ReprPlug(ctx, n, a, NIL);
    IdsPlug(ctx, n);
    assert UniqueIds(n);
    Reparent(n.left, a, SplicedHeap(a, n.id, s), n.id, s, SpliceTouched(ctx, n));
  }

  /** After the splice, the records of the successor's right child hang below the successor's old parent. */
  lemma SplicedInner<K>(ctx: Ctx<K>, n: Tree<K>, a: Heap<K>)
    requires Repr(Plug(ctx, n), a, NIL) && UniqueIds(Plug(ctx, n)) && n.Node? && n.left.Node? && n.right.Node?
    ensures var (cr, st) := Leftmost(n.right, Top);
      SpliceReady(a, n.id, st.id) && Repr(st.right, SplicedHeap(a, n.id, st.id), Parent(cr, st.id))
  {
    var (cr, st) := Leftmost(n.right, Top);
    SpliceLayoutHolds(ctx, n, a);
    SplicedRecords(ctx, n, a);
    if st.right.Node? {
      SpliceInnerIds(ctx, n);
      ReprPlug(ctx, n, a, NIL);
      IdsPlug(ctx, n);
      assert UniqueIds(n) && UniqueIds(n.right);
      LeftmostPlug(n.right, Top);
      ReprPlug(cr, st, a, n.id);
      IdsPlug(cr, st);
      assert UniqueIds(st) && UniqueIds(st.right);
      Reparent(st.right, a, SplicedHeap(a, n.id, st.id), st.id, Parent(cr, st.id), SpliceTouched(ctx, n));
    }
  }

  /** After the splice, the path from n's right child down to the successor's old place hangs below the successor. */
  lemma SplicedPath<K>(ctx: Ctx<K>, n: Tree<K>, a: Heap<K>)
    requires Repr(Plug(ctx, n), a, NIL) && UniqueIds(Plug(ctx, n)) && n.Node? && n.left.Node? && n.right.Node?
    ensures var (cr, st) := Leftmost(n.right, Top);
      SpliceReady(a, n.id, st.id) && ReprCtx(cr, SplicedHeap(a, n.id, st.id), Ref(st.right), st.id)
  {
    var (cr, st) := Leftmost(n.right, Top);
    SpliceLayoutHolds(ctx, n, a);
    SplicedRecords(ctx, n, a);
    if cr.Down? {
      SplicePathIds(ctx, n);
      ReprPlug(ctx, n, a, NIL);
      IdsPlug(ctx, n);
      assert UniqueIds(n) && UniqueIds(n.right);
      LeftmostPlug(n.right, Top);
      ReprPlug(cr, st, a, n.id);
      IdsPlug(cr, st);
      RefPlug(cr, st);
      ReprCtxRewire(cr, a, SplicedHeap(a, n.id, st.id), st.id, Ref(st.right), n.id, st.id, SpliceTouched(ctx, n));
    }
  }

  /**
   * After the splice, the records of n's right subtree, the successor's
   * right child in the successor's old place, hang below the successor.
   */
  lemma SplicedRight<K>(ctx: Ctx<K>, n: Tree<K>, a: Heap<K>)
    requires Repr(Plug(ctx, n), a, NIL) && UniqueIds(Plug(ctx, n)) && n.Node? && n.left.Node? && n.right.Node?
    ensures var (cr, st) := Leftmost(n.right, Top);
      SpliceReady(a, n.id, st.id) && Repr(Plug(cr, st.right), SplicedHeap(a, n.id, st.id), st.id)
  {
    var (cr, st) := Leftmost(n.right, Top);
    SplicedInner(ctx, n, a);
    SplicedPath(ctx, n, a);
    ReprPlug(cr, st.right, SplicedHeap(a, n.id, st.id), st.id);
  }

  /**
   * The splice of erase at a node with two children (set.h:340-366): the
   * records come to hold the tree with Replacement(n) in n's place, and
   * root_ is the successor exactly when n was the root.
   */
  lemma SplicedShaped<K>(ctx: Ctx<K>, n: Tree<K>, a: Heap<K>, root: int, root': int)
    requires Shaped(Plug(ctx, n), a, root) && n.Node? && n.left.Node? && n.right.Node?
    requires root' == if ctx.Top? then Leftmost(n.right, Top).1.id else root
    ensures var s := Leftmost(n.right, Top).1.id;
      SpliceReady(a, n.id, s) && Shaped(Plug(ctx, Replacement(n)), SplicedHeap(a, n.id, s), root')
      && SplicedHeap(a, n.id, s).Keys == a.Keys
  {
    var (cr, st) := Leftmost(n.right, Top);
    SpliceLayoutHolds(ctx, n, a);
    SplicedRecords(ctx, n, a);
    SplicedLeft(ctx, n, a);
    SplicedRight(ctx, n, a);
    SpliceWithin(ctx, n);
    var b := SplicedHeap(a, n.id, st.id);
    var r := Replacement(n);
    LeftmostPlug(n.right, Top);
    RefPlug(cr, st);
    RefPlug(cr, st.right);
    assert Outside(a, b, Ids(n) + ParentSet(ctx));
    assert Repr(r, b, Parent(ctx, NIL));
    Replace(ctx, n, r, a, b, NIL);
    SuccessorIds(ctx, n);
    RefPlug(ctx, n);
    RefPlug(ctx, r);
  }

  /**
   * What the tail of the splice reads after the swap: the node whose link
   * held the successor is the bottom of SpliceOut's path (the successor
   * itself when it is x's right child), its link on that side still holds
   * the successor, and "child" and "color" are the successor's right child
   * and colour.
   */
  lemma PromotedLink<K>(ctx: Ctx<K>, n: Tree<K>, a: Heap<K>)
    requires Repr(Plug(ctx, n), a, NIL) && UniqueIds(Plug(ctx, n)) && n.Node? && n.left.Node? && n.right.Node?
    ensures var (c, ch, col) := SpliceOut(ctx, n); var x, s := n.id, Leftmost(n.right, Top).1.id;
      SpliceReady(a, x, s) &&
      var h := PromotedHeap(a, x, s); var p := SplicedParent(a, x, s); var d := if a[x].right == s then Right else Left;
      && p == Parent(c, NIL) && a[s].right == Ref(ch) && a[s].color == col
      && p in h && Link(h[p], d) == s && Link(h[p], Opposite(d)) != s
  {
    SpliceLayoutHolds(ctx, n, a);
    PromotedRecords(ctx, n, a);
    var (cr, st) := Leftmost(n.right, Top);
    assert cr.Down? ==> Kept(a, PromotedHeap(a, n.id, st.id), cr.id) || cr.id == n.right.id;
  }

  /** Records of identities outside the tree can go. */
  lemma Deallocated<K>(w: Tree<K>, h: Heap<K>, root: int, x: int)
    requires Shaped(w, h, root) && h.Keys == Ids(w) + {x} && x !in Ids(w)
    ensures Holds(w, h - {x}, root)
  {
    assert Outside(h, h - {x}, {x});
    ReprFrame(w, h, h - {x}, NIL, {x});
  }

  /**
   * clear() at a leaf (set.h:266-286): its record is deallocated and its
   * parent's link to it set to NULL.
   */
  lemma LeafFreedIds<K>(ctx: Ctx<K>, t: Tree<K>, a: Heap<K>, b: Heap<K>)
    requires UniqueIds(Plug(ctx, t)) && a.Keys == Ids(Plug(ctx, t))
    requires t.Node? && t.left.Leaf? && t.right.Leaf? && b.Keys == a.Keys - {t.id}
    ensures UniqueIds(Plug<K>(ctx, Leaf)) && b.Keys == Ids(Plug<K>(ctx, Leaf))
  {
    IdsPlug(ctx, t);
    IdsPlug(ctx, Leaf);
    assert Ids(t) == {t.id};
  }

  lemma LeafFreed<K>(ctx: Ctx<K>, t: Tree<K>, a: Heap<K>, b: Heap<K>)
    requires Repr(Plug(ctx, t), a, NIL) && UniqueIds(Plug(ctx, t)) && a.Keys == Ids(Plug(ctx, t))
    requires t.Node? && t.left.Leaf? && t.right.Leaf?
    requires ctx.Down? ==> ctx.id in a && b == (a - {t.id})[ctx.id := WithLink(a[ctx.id], ctx.dir, NIL)]
    requires ctx.Top? ==> b == a - {t.id}
    ensures Repr(Plug<K>(ctx, Leaf), b, NIL) && UniqueIds(Plug<K>(ctx, Leaf)) && b.Keys == Ids(Plug<K>(ctx, Leaf))
  {
    assert Ids(t) == {t.id};
    if ctx.Down? {
      ReprPlug(ctx, t, a, NIL);
      IdsPlug(ctx, t);
      assert ctx.id in CtxIds(ctx) && ctx.id != t.id;
    }
    assert b.Keys == a.Keys - {t.id};
    LeafFreedIds(ctx, t, a, b);
    assert Outside(a, b, Ids(t) + ParentSet(ctx));
    Replace(ctx, t, Leaf, a, b, NIL);
  }
}
