/**
 * The red-black tree of include/taapp/set.h seen as a value.
 *
 * A `Tree` mirrors the node graph of the C++ set: every node carries the
 * identity of the rbnode it stands for, its key and its colour.  A `Ctx`
 * is the path from the root down to one position of the tree (the chain
 * of `parent` pointers read from the bottom).  The fix-up loops of insert
 * and erase walk such a path upwards; the functions `BalanceInsert` and
 * `BalanceErase` below are what one call of balance_insert and
 * balance_erase does to the subtree rooted at its `root` argument, and the
 * lemmas at the end of the module prove that each step keeps the loop's
 * invariant, so that the loops finish with a valid red-black tree.
 */
module RedBlackTrees {
  import opened Orders
  import opened SortedKeys

  datatype Color = Red | Black

  /** The template parameter Direction of the rotation helpers. */
  datatype Dir = Left | Right

  function Opposite(d: Dir): Dir
  {
    if d == Left then Right else Left
  }

  datatype Tree<K> = Leaf | Node(left: Tree<K>, id: nat, key: K, color: Color, right: Tree<K>)

  /** The node pointer standing for a subtree: NULL is -1. */
  const NIL: int := -1

  function Ref<K>(t: Tree<K>): int
  {
    if t.Leaf? then NIL else t.id
  }

  /** get_child<Direction> */
  function Child<K>(t: Tree<K>, d: Dir): Tree<K>
    requires t.Node?
  {
    if d == Left then t.left else t.right
  }

  /** set_child<Direction> */
  function WithChild<K>(t: Tree<K>, d: Dir, c: Tree<K>): Tree<K>
    requires t.Node?
  {
    if d == Left then t.(left := c) else t.(right := c)
  }

  /** The node `id` with `t` as its d-child and `o` as its other child. */
  function Join<K>(d: Dir, t: Tree<K>, id: nat, k: K, c: Color, o: Tree<K>): Tree<K>
  {
    if d == Left then Node(t, id, k, c, o) else Node(o, id, k, c, t)
  }

  /** is_red: NULL counts as black. */
  predicate IsRed<K>(t: Tree<K>)
  {
    t.Node? && t.color == Red
  }

  function Blacken<K>(t: Tree<K>): Tree<K>
  {
    if t.Leaf? then t else t.(color := Black)
  }

  /** The in-order key sequence. */
  function Keys<K>(t: Tree<K>): seq<K>
  {
    match t
    case Leaf => []
    case Node(l, _, k, _, r) => Keys(l) + [k] + Keys(r)
  }

  /** The in-order sequence of rbnodes: the order the iterators visit them in. */
  function Order<K>(t: Tree<K>): seq<nat>
  {
    match t
    case Leaf => []
    case Node(l, id, _, _, r) => Order(l) + [id] + Order(r)
  }

  function Ids<K>(t: Tree<K>): set<nat>
  {
    match t
    case Leaf => {}
    case Node(l, id, _, _, r) => Ids(l) + {id} + Ids(r)
  }

  /** No rbnode occurs twice. */
  ghost predicate UniqueIds<K>(t: Tree<K>)
  {
    match t
    case Leaf => true
    case Node(l, id, _, _, r) =>
      id !in Ids(l) && id !in Ids(r) && Ids(l) !! Ids(r) && UniqueIds(l) && UniqueIds(r)
  }

  function Weight(c: Color): nat
  {
    if c == Black then 1 else 0
  }

  /** The number of black nodes on the leftmost path. */
  function BlackHeight<K>(t: Tree<K>): nat
  {
    match t
    case Leaf => 0
    case Node(l, _, _, c, _) => BlackHeight(l) + Weight(c)
  }

  /** Property 5 of set.h:17-24: every path carries the same number of black nodes. */
  ghost predicate Balanced<K>(t: Tree<K>)
  {
    match t
    case Leaf => true
    case Node(l, _, _, _, r) => BlackHeight(l) == BlackHeight(r) && Balanced(l) && Balanced(r)
  }

  /** Property 4 of set.h:17-24: both children of a red node are black. */
  ghost predicate NoRedRed<K>(t: Tree<K>)
  {
    match t
    case Leaf => true
    case Node(l, _, _, c, r) => (c == Red ==> !IsRed(l) && !IsRed(r)) && NoRedRed(l) && NoRedRed(r)
  }

  /** A valid red-black subtree, whatever the colour of its root. */
  ghost predicate RBInternal<K>(t: Tree<K>)
  {
    Balanced(t) && NoRedRed(t)
  }

  /** A valid red-black tree: properties 1-5 of set.h:17-24, with a black root. */
  ghost predicate IsRB<K>(t: Tree<K>)
  {
    RBInternal(t) && !IsRed(t)
  }

  // ---------------------------------------------------------------------
  // The restructuring helpers

  /**
   * rotate<Direction>: the Opposite(d) child (the pivot) takes the place of
   * the root, the pivot's d-child moves under the old root, the old root
   * is painted red and the pivot black.
   */
  function Rotate<K>(t: Tree<K>, d: Dir): (r: Tree<K>)
    requires t.Node? && Child(t, Opposite(d)).Node?
    ensures r.Node? && r.id == Child(t, Opposite(d)).id && r.color == Black
    ensures Child(r, d).Node? && Child(r, d).id == t.id && Child(r, d).color == Red
    ensures Ids(r) == Ids(t)
  {
    var pivot := Child(t, Opposite(d));
    var down := WithChild(t, Opposite(d), Child(pivot, d)).(color := Red);
    WithChild(pivot, d, down).(color := Black)
  }

  /** double_rotate<Direction>: rotate<Opposite> at the Opposite child, then rotate<Direction>. */
  function DoubleRotate<K>(t: Tree<K>, d: Dir): (r: Tree<K>)
    requires t.Node? && Child(t, Opposite(d)).Node? && Child(Child(t, Opposite(d)), d).Node?
    ensures r.Node? && r.id == Child(Child(t, Opposite(d)), d).id && r.color == Black
    ensures Child(r, d).Node? && Child(r, d).id == t.id && Child(r, d).color == Red
    ensures Ids(r) == Ids(t)
  {
    var other := Child(t, Opposite(d));
    Rotate(WithChild(t, Opposite(d), Rotate(other, Opposite(d))), d)
  }

  /**
   * balance_insert<Direction>(root, child), child being the d-child of t:
   * a colour flip when the sibling is red; otherwise a single or a double
   * rotation when a child of `child` is red; otherwise nothing.
   */
  function BalanceInsert<K>(t: Tree<K>, d: Dir): (r: Tree<K>)
    requires t.Node? && Child(t, d).Node?
    ensures r.Node? && Ids(r) == Ids(t)
  {
    var child := Child(t, d);
    var sibling := Child(t, Opposite(d));
    if IsRed(sibling) then
      WithChild(WithChild(t, d, child.(color := Black)), Opposite(d), sibling.(color := Black)).(color := Red)
    else if IsRed(Child(child, d)) then
      Rotate(t, Opposite(d))
    else if IsRed(Child(child, Opposite(d))) then
      DoubleRotate(t, Opposite(d))
    else
      t
  }

  /**
   * Cases 3 to 6 of balance_erase at `parent` p, the sibling being its
   * Opposite(d) child.  The flag says whether the source returns root_,
   * which ends the loop of erase.
   */
  function EraseSibling<K>(p: Tree<K>, d: Dir): (r: (Tree<K>, bool))
    requires p.Node?
    ensures r.0.Node? && Ids(r.0) == Ids(p)
    ensures Child(p, Opposite(d)).Leaf? ==> !r.1
  {
    var s := Child(p, Opposite(d));
    if s.Leaf? then
      (p, false)
    else if !IsRed(Child(s, d)) && !IsRed(Child(s, Opposite(d))) then
      var q := WithChild(p, Opposite(d), s.(color := Red));
      if p.color == Red then (q.(color := Black), true) else (q, false)
    else
      var u := if IsRed(Child(s, Opposite(d))) then Rotate(p, d) else DoubleRotate(p, d);
      assert Ids(Blacken(u.left)) == Ids(u.left) && Ids(Blacken(u.right)) == Ids(u.right);
      (Node(Blacken(u.left), u.id, u.key, p.color, Blacken(u.right)), true)
  }

  /**
   * balance_erase<Direction>(root, child), child being the d-child of t:
   * case 2 (a red sibling) rotates first, then cases 3 to 6 act on the old
   * root, which case 2 has moved down to the d side.
   */
  function BalanceErase<K>(t: Tree<K>, d: Dir): (r: (Tree<K>, bool))
    requires t.Node? && Child(t, Opposite(d)).Node?
    ensures r.0.Node? && Ids(r.0) == Ids(t)
  {
    if Child(t, Opposite(d)).color == Red then
      var r := Rotate(t, d);
      var (p, done) := EraseSibling(Child(r, d), d);
      (WithChild(r, d, p), done)
    else
      EraseSibling(t, d)
  }

  // ---------------------------------------------------------------------
  // Paths into the tree

  /**
   * The path from the root to a position: `Down(up, d, id, k, c, o)` says the
   * position is the d-child of node id, whose other child is o.
   */
  datatype Ctx<K> = Top | Down(up: Ctx<K>, dir: Dir, id: nat, key: K, color: Color, other: Tree<K>)

  function Plug<K>(ctx: Ctx<K>, t: Tree<K>): Tree<K>
  {
    match ctx
    case Top => t
    case Down(up, d, id, k, c, o) => Plug(up, Join(d, t, id, k, c, o))
  }

  /** The parent pointer of a node at the position: NULL at the top. */
  function Parent<K>(ctx: Ctx<K>, top: int): int
  {
    if ctx.Top? then top else ctx.id
  }

  /** b continued upwards by a. */
  function Compose<K>(a: Ctx<K>, b: Ctx<K>): Ctx<K>
  {
    match b
    case Top => a
    case Down(up, d, id, k, c, o) => Down(Compose(a, up), d, id, k, c, o)
  }

  /** The keys left of the position, in order. */
  function Before<K>(ctx: Ctx<K>): seq<K>
  {
    match ctx
    case Top => []
    case Down(up, d, _, k, _, o) => if d == Left then Before(up) else Before(up) + Keys(o) + [k]
  }

  /** The keys right of the position, in order. */
  function After<K>(ctx: Ctx<K>): seq<K>
  {
    match ctx
    case Top => []
    case Down(up, d, _, k, _, o) => if d == Left then [k] + Keys(o) + After(up) else After(up)
  }

  /** The rbnodes left of the position, in order. */
  function BeforeIds<K>(ctx: Ctx<K>): seq<nat>
  {
    match ctx
    case Top => []
    case Down(up, d, id, _, _, o) => if d == Left then BeforeIds(up) else BeforeIds(up) + Order(o) + [id]
  }

  /** The rbnodes right of the position, in order. */
  function AfterIds<K>(ctx: Ctx<K>): seq<nat>
  {
    match ctx
    case Top => []
    case Down(up, d, id, _, _, o) => if d == Left then [id] + Order(o) + AfterIds(up) else AfterIds(up)
  }

  function CtxIds<K>(ctx: Ctx<K>): set<nat>
  {
    match ctx
    case Top => {}
    case Down(up, _, id, _, _, o) => CtxIds(up) + {id} + Ids(o)
  }

  ghost predicate CtxUnique<K>(ctx: Ctx<K>)
  {
    match ctx
    case Top => true
    case Down(up, _, id, _, _, o) =>
      id !in Ids(o) && id !in CtxIds(up) && Ids(o) !! CtxIds(up) && UniqueIds(o) && CtxUnique(up)
  }

  /**
   * A subtree of black height h, with a red root iff `red`, fits at the
   * position without breaking properties 4 and 5 anywhere on the path
   * (whatever the colour of the whole tree's root).
   */
  ghost predicate Within<K>(ctx: Ctx<K>, h: nat, red: bool)
  {
    match ctx
    case Top => true
    case Down(up, _, _, _, c, o) =>
      RBInternal(o) && BlackHeight(o) == h && !(c == Red && (red || IsRed(o)))
      && Within(up, h + Weight(c), c == Red)
  }

  /** Whether the whole tree's root is red, the subtree at the position having a red root iff `red`. */
  function RootRed<K>(ctx: Ctx<K>, red: bool): bool
  {
    match ctx
    case Top => red
    case Down(up, _, _, _, c, _) => RootRed(up, c == Red)
  }

  /** Within, and the whole tree's root is black. */
  ghost predicate Fits<K>(ctx: Ctx<K>, h: nat, red: bool)
  {
    Within(ctx, h, red) && !RootRed(ctx, red)
  }

  // ---------------------------------------------------------------------
  // Lemmas about paths

  lemma {:induction false} KeysPlug<K>(ctx: Ctx<K>, t: Tree<K>)
    ensures Keys(Plug(ctx, t)) == Before(ctx) + Keys(t) + After(ctx)
    decreases ctx
  {
    match ctx
    case Top =>
    case Down(up, d, id, k, c, o) =>
      KeysPlug(up, Join(d, t, id, k, c, o));
  }

  lemma {:induction false} OrderPlug<K>(ctx: Ctx<K>, t: Tree<K>)
    ensures Order(Plug(ctx, t)) == BeforeIds(ctx) + Order(t) + AfterIds(ctx)
    decreases ctx
  {
    match ctx
    case Top =>
    case Down(up, d, id, k, c, o) =>
      OrderPlug(up, Join(d, t, id, k, c, o));
  }

  lemma {:induction false} IdsPlug<K>(ctx: Ctx<K>, t: Tree<K>)
    ensures Ids(Plug(ctx, t)) == CtxIds(ctx) + Ids(t)
    ensures UniqueIds(Plug(ctx, t)) <==> CtxUnique(ctx) && UniqueIds(t) && CtxIds(ctx) !! Ids(t)
    decreases ctx
  {
    match ctx
    case Top =>
    case Down(up, d, id, k, c, o) =>
      IdsPlug(up, Join(d, t, id, k, c, o));
  }

  lemma {:induction false} PlugCompose<K>(a: Ctx<K>, b: Ctx<K>, t: Tree<K>)
    ensures Plug(Compose(a, b), t) == Plug(a, Plug(b, t))
    decreases b
  {
    match b
    case Top =>
    case Down(up, d, id, k, c, o) =>
      PlugCompose(a, up, Join(d, t, id, k, c, o));
  }

  /** The whole tree's root is the outermost node of a non-empty path. */
  function Outer<K>(ctx: Ctx<K>): nat
    requires ctx.Down?
  {
    if ctx.up.Top? then ctx.id else Outer(ctx.up)
  }

  lemma {:induction false} RefPlug<K>(ctx: Ctx<K>, t: Tree<K>)
    ensures Ref(Plug(ctx, t)) == if ctx.Top? then Ref(t) else Outer(ctx)
    decreases ctx
  {
    match ctx
    case Top =>
    case Down(up, d, id, k, c, o) =>
      RefPlug(up, Join(d, t, id, k, c, o));
  }

  /** Plugging a fitting valid subtree gives a valid red-black subtree. */
  lemma {:induction false} WithinPlug<K>(ctx: Ctx<K>, t: Tree<K>)
    requires RBInternal(t) && Within(ctx, BlackHeight(t), IsRed(t))
    ensures RBInternal(Plug(ctx, t))
    ensures IsRed(Plug(ctx, t)) == RootRed(ctx, IsRed(t))
    decreases ctx
  {
    match ctx
    case Top =>
    case Down(up, d, id, k, c, o) =>
      var j := Join(d, t, id, k, c, o);
      assert BlackHeight(j) == BlackHeight(t) + Weight(c);
      WithinPlug(up, j);
  }

  lemma FitsPlug<K>(ctx: Ctx<K>, t: Tree<K>)
    requires RBInternal(t) && Fits(ctx, BlackHeight(t), IsRed(t))
    ensures IsRB(Plug(ctx, t))
  {
    WithinPlug(ctx, t);
  }

  /** Conversely, every subtree of a valid subtree fits at its position. */
  lemma {:induction false} PlugWithin<K>(ctx: Ctx<K>, t: Tree<K>)
    requires RBInternal(Plug(ctx, t))
    ensures RBInternal(t) && Within(ctx, BlackHeight(t), IsRed(t))
    ensures IsRed(Plug(ctx, t)) == RootRed(ctx, IsRed(t))
    decreases ctx
  {
    match ctx
    case Top =>
    case Down(up, d, id, k, c, o) =>
      var j := Join(d, t, id, k, c, o);
      PlugWithin(up, j);
      assert BlackHeight(j) == BlackHeight(t) + Weight(c);
  }

  lemma PlugFits<K>(ctx: Ctx<K>, t: Tree<K>)
    requires IsRB(Plug(ctx, t))
    ensures RBInternal(t) && Fits(ctx, BlackHeight(t), IsRed(t))
  {
    PlugWithin(ctx, t);
  }

  // ---------------------------------------------------------------------
  // Restructuring keeps the nodes and their order

  /** The same nodes in the same in-order sequence. */
  ghost predicate Rearranged<K>(a: Tree<K>, b: Tree<K>)
  {
    Keys(a) == Keys(b) && Order(a) == Order(b) && Ids(a) == Ids(b) && (UniqueIds(a) ==> UniqueIds(b))
  }

  lemma RotateRearranges<K>(t: Tree<K>, d: Dir)
    requires t.Node? && Child(t, Opposite(d)).Node?
    ensures Rearranged(t, Rotate(t, d))
    ensures Ref(Rotate(t, d)) == Child(t, Opposite(d)).id
    ensures Child(Rotate(t, d), d).id == t.id
  {
    var p := Child(t, Opposite(d));
    if d == Left {
      var a, b, c := t.left, p.left, p.right;
      assert Rotate(t, d) == Node(Node(a, t.id, t.key, Red, b), p.id, p.key, Black, c);
      assert Ids(t) == Ids(a) + {t.id} + (Ids(b) + {p.id} + Ids(c));
      if UniqueIds(t) {
        assert UniqueIds(p);
        assert UniqueIds(Node(a, t.id, t.key, Red, b));
      }
    } else {
      var a, b, c := p.left, p.right, t.right;
      assert Rotate(t, d) == Node(a, p.id, p.key, Black, Node(b, t.id, t.key, Red, c));
      assert Ids(t) == Ids(a) + {p.id} + Ids(b) + {t.id} + Ids(c);
      if UniqueIds(t) {
        assert UniqueIds(p);
        assert UniqueIds(Node(b, t.id, t.key, Red, c));
      }
    }
  }

  lemma DoubleRotateRearranges<K>(t: Tree<K>, d: Dir)
    requires t.Node? && Child(t, Opposite(d)).Node? && Child(Child(t, Opposite(d)), d).Node?
    ensures Rearranged(t, DoubleRotate(t, d))
    ensures Ref(DoubleRotate(t, d)) == Child(Child(t, Opposite(d)), d).id
  {
    var other := Child(t, Opposite(d));
    RotateRearranges(other, Opposite(d));
    var t' := WithChild(t, Opposite(d), Rotate(other, Opposite(d)));
    assert Rearranged(t, t');
    RotateRearranges(t', d);
  }

  lemma {:induction false} PlugRearranged<K>(ctx: Ctx<K>, a: Tree<K>, b: Tree<K>)
    requires Rearranged(a, b)
    ensures Rearranged(Plug(ctx, a), Plug(ctx, b))
  {
    KeysPlug(ctx, a);
    KeysPlug(ctx, b);
    OrderPlug(ctx, a);
    OrderPlug(ctx, b);
    IdsPlug(ctx, a);
    IdsPlug(ctx, b);
  }

  /** A position that takes a red subtree of black height h takes a black one too. */
  lemma WithinWeaken<K>(ctx: Ctx<K>, h: nat)
    requires Fits(ctx, h, true)
    ensures Fits(ctx, h, false)
  {
  }

  // ---------------------------------------------------------------------
  // The fix-up loop of insert (set.h:476-495)

  /**
   * The invariant of insert's loop at `child` t, ctx being the path above
   * it.  Either t is red with one red child, and the rest of the tree is
   * valid above it (a red violation between t and its child, as after the
   * new red leaf is linked under a red parent), or t is a valid subtree and
   * the only possible violation is between t and its parent (after a
   * colour flip has made t red).
   */
  ghost predicate InsertInvariant<K>(ctx: Ctx<K>, t: Tree<K>)
  {
    t.Node? && Balanced(t) &&
    ((IsRed(t) && NoRedRed(t.left) && NoRedRed(t.right) && !(IsRed(t.left) && IsRed(t.right))
      && Fits(ctx, BlackHeight(t), true))
     || (NoRedRed(t) && Fits(ctx, BlackHeight(t), false)))
  }

  /** The colour flip of balance_insert. */
  lemma InsertFlip<K>(up: Ctx<K>, d: Dir, t: Tree<K>, id: nat, k: K, o: Tree<K>)
    requires t.Node? && t.color == Red && Balanced(t) && NoRedRed(t.left) && NoRedRed(t.right)
    requires IsRed(o) && RBInternal(o) && BlackHeight(o) == BlackHeight(t)
    requires Fits(up, BlackHeight(t) + 1, false)
    ensures var p := Join(d, t, id, k, Black, o);
      Child(p, d).Node? && InsertInvariant(up, BalanceInsert(p, d))
  {
    var p := Join(d, t, id, k, Black, o);
    var r := Join(d, t.(color := Black), id, k, Red, o.(color := Black));
    assert BalanceInsert(p, d) == r;
    assert BlackHeight(t.(color := Black)) == BlackHeight(t) + 1;
    assert BlackHeight(o.(color := Black)) == BlackHeight(o) + 1;
    assert BlackHeight(r) == BlackHeight(t) + 1;
  }

  /** The single rotation of balance_insert: the red grandchild is on the outside. */
  lemma InsertRotate<K>(up: Ctx<K>, d: Dir, t: Tree<K>, id: nat, k: K, o: Tree<K>)
    requires t.Node? && t.color == Red && Balanced(t) && NoRedRed(t.left) && NoRedRed(t.right)
    requires IsRed(Child(t, d)) && !IsRed(Child(t, Opposite(d)))
    requires !IsRed(o) && RBInternal(o) && BlackHeight(o) == BlackHeight(t)
    requires Fits(up, BlackHeight(t) + 1, false)
    ensures var p := Join(d, t, id, k, Black, o);
      Child(p, d).Node? && BalanceInsert(p, d) == Rotate(p, Opposite(d))
      && InsertInvariant(up, Rotate(p, Opposite(d)))
  {
    var p := Join(d, t, id, k, Black, o);
    var down := Join(d, Child(t, Opposite(d)), id, k, Red, o);
    var r := Join(Opposite(d), down, t.id, t.key, Black, Child(t, d));
    assert Rotate(p, Opposite(d)) == r;
    assert BlackHeight(down) == BlackHeight(t);
    assert BlackHeight(r) == BlackHeight(t) + 1;
  }

  /** The double rotation of balance_insert: the red grandchild is on the inside. */
  lemma InsertDoubleRotate<K>(up: Ctx<K>, d: Dir, t: Tree<K>, id: nat, k: K, o: Tree<K>)
    requires t.Node? && t.color == Red && Balanced(t) && NoRedRed(t.left) && NoRedRed(t.right)
    requires !IsRed(Child(t, d)) && IsRed(Child(t, Opposite(d)))
    requires !IsRed(o) && RBInternal(o) && BlackHeight(o) == BlackHeight(t)
    requires Fits(up, BlackHeight(t) + 1, false)
    ensures var p := Join(d, t, id, k, Black, o);
      Child(p, d).Node? && Child(Child(p, d), Opposite(d)).Node?
      && BalanceInsert(p, d) == DoubleRotate(p, Opposite(d))
      && InsertInvariant(up, DoubleRotate(p, Opposite(d)))
  {
    var p := Join(d, t, id, k, Black, o);
    var g := Child(t, Opposite(d));
    var lower := Join(Opposite(d), Child(g, d), t.id, t.key, Red, Child(t, d));
    var upper := Join(d, Child(g, Opposite(d)), id, k, Red, o);
    var r := Join(d, lower, g.id, g.key, Black, upper);
    assert Rotate(t, d) == Join(d, Join(Opposite(d), Child(g, d), t.id, t.key, Red, Child(t, d)), g.id, g.key, Black, Child(g, Opposite(d)));
    assert DoubleRotate(p, Opposite(d)) == r;
    assert BlackHeight(lower) == BlackHeight(t);
    assert BlackHeight(upper) == BlackHeight(t);
    assert BlackHeight(r) == BlackHeight(t) + 1;
  }

  /** One iteration of insert's loop keeps the invariant one level up. */
  lemma InsertStep<K>(ctx: Ctx<K>, t: Tree<K>)
    requires InsertInvariant(ctx, t) && ctx.Down? && IsRed(t)
    ensures var p := Join(ctx.dir, t, ctx.id, ctx.key, ctx.color, ctx.other);
      Child(p, ctx.dir).Node?
      && InsertInvariant(ctx.up, BalanceInsert(p, ctx.dir))
      && Rearranged(p, BalanceInsert(p, ctx.dir))
  {
    var Down(up, d, id, k, c, o) := ctx;
    var p := Join(d, t, id, k, c, o);
    var h := BlackHeight(t);
    assert Child(p, d) == t && Child(p, Opposite(d)) == o;
    if IsRed(o) {
      InsertFlip(up, d, t, id, k, o);
      if UniqueIds(p) {
        assert UniqueIds(t) && UniqueIds(o);
        assert UniqueIds(t.(color := Black)) && UniqueIds(o.(color := Black));
      }
    } else if IsRed(Child(t, d)) {
      InsertRotate(up, d, t, id, k, o);
      RotateRearranges(p, Opposite(d));
    } else if IsRed(Child(t, Opposite(d))) {
      InsertDoubleRotate(up, d, t, id, k, o);
      DoubleRotateRearranges(p, Opposite(d));
    } else {
      InsertStays(ctx, t);
    }
  }

  /** InsertStep when neither the uncle nor a child of t is red: nothing moves. */
  lemma InsertStays<K>(ctx: Ctx<K>, t: Tree<K>)
    requires InsertInvariant(ctx, t) && ctx.Down? && IsRed(t)
    requires !IsRed(ctx.other) && !IsRed(t.left) && !IsRed(t.right)
    ensures var p := Join(ctx.dir, t, ctx.id, ctx.key, ctx.color, ctx.other);
      BalanceInsert(p, ctx.dir) == p && InsertInvariant(ctx.up, p)
  {
    var Down(up, d, id, k, c, o) := ctx;
    var p := Join(d, t, id, k, c, o);
    var h := BlackHeight(t);
    assert Child(p, d) == t && Child(p, Opposite(d)) == o;
    assert !IsRed(Child(t, d)) && !IsRed(Child(t, Opposite(d)));
    assert BalanceInsert(p, d) == p;
    assert BlackHeight(p) == h + Weight(c);
    assert Balanced(p);
    if c == Red {
      assert NoRedRed(p.left) && NoRedRed(p.right);
      assert Fits(up, BlackHeight(p), true);
    } else {
      assert NoRedRed(t);
      assert NoRedRed(p);
      assert Fits(up, BlackHeight(p), false);
    }
  }

  /**
   * When insert's loop stops, at the root or at a black child, painting the
   * root black (set.h:497) leaves a valid red-black tree.
   */
  lemma InsertExit<K>(ctx: Ctx<K>, t: Tree<K>)
    requires InsertInvariant(ctx, t) && (ctx.Top? || !IsRed(t))
    ensures IsRB(Blacken(Plug(ctx, t)))
  {
    if ctx.Top? {
      assert NoRedRed(t);
      assert Blacken(t) == Node(t.left, t.id, t.key, Black, t.right);
    } else {
      FitsPlug(ctx, t);
    }
  }

  /** Linking the new red leaf n at an empty position starts insert's loop one level up. */
  lemma InsertStart<K>(ctx: Ctx<K>, n: nat, k: K)
    requires IsRB(Plug(ctx, Leaf)) && ctx.Down?
    ensures InsertInvariant(ctx.up, Join(ctx.dir, Node(Leaf, n, k, Red, Leaf), ctx.id, ctx.key, ctx.color, ctx.other))
  {
    PlugFits(ctx, Leaf);
  }

  lemma RepaintRearranges<K>(r: Tree<K>, c: Color)
    requires r.Node?
    ensures Rearranged(r, Node(Blacken(r.left), r.id, r.key, c, Blacken(r.right)))
  {
    if UniqueIds(r) {
      assert UniqueIds(r.left) && UniqueIds(r.right);
      assert UniqueIds(Blacken(r.left)) && UniqueIds(Blacken(r.right));
    }
  }

  // ---------------------------------------------------------------------
  // The fix-up loop of erase (set.h:369-392)

  /**
   * The invariant of erase's loop at `child` t: t is a valid subtree with a
   * black root (or NULL), and the rest of the tree is valid for a subtree
   * of one more black height at t's position: the paths through t are one
   * black node short.
   */
  ghost predicate EraseInvariant<K>(ctx: Ctx<K>, t: Tree<K>)
  {
    RBInternal(t) && !IsRed(t) && Fits(ctx, BlackHeight(t) + 1, false)
  }

  /** A node over two valid subtrees of equal black height is valid, red only over black children. */
  lemma JoinValid<K>(d: Dir, a: Tree<K>, id: nat, k: K, c: Color, b: Tree<K>)
    requires RBInternal(a) && RBInternal(b) && BlackHeight(a) == BlackHeight(b)
    requires c == Red ==> !IsRed(a) && !IsRed(b)
    ensures RBInternal(Join(d, a, id, k, c, b))
    ensures BlackHeight(Join(d, a, id, k, c, b)) == BlackHeight(a) + Weight(c)
  {
  }

  lemma ChildValid<K>(t: Tree<K>, d: Dir)
    requires RBInternal(t) && t.Node?
    ensures RBInternal(Child(t, d)) && BlackHeight(Child(t, d)) + Weight(t.color) == BlackHeight(t)
    ensures t.color == Red ==> !IsRed(Child(t, d))
  {
  }

  lemma BlackenValid<K>(t: Tree<K>)
    requires RBInternal(t) && t.Node?
    ensures RBInternal(Blacken(t)) && BlackHeight(Blacken(t)) == BlackHeight(t.left) + 1
  {
  }

  /** Case 3, with case 4 when the parent is red: the sibling is painted red. */
  lemma EraseRecolor<K>(d: Dir, t: Tree<K>, id: nat, k: K, c: Color, s: Tree<K>)
    requires RBInternal(t) && !IsRed(t)
    requires s.Node? && s.color == Black && RBInternal(s) && BlackHeight(s) == BlackHeight(t) + 1
    requires !IsRed(Child(s, d)) && !IsRed(Child(s, Opposite(d)))
    ensures var q := Join(d, t, id, k, c, s);
      var (r, done) := EraseSibling(q, d);
      (done <==> c == Red) && RBInternal(r) && !IsRed(r)
      && BlackHeight(r) == BlackHeight(t) + 1 && Rearranged(q, r) && Ref(r) == id
  {
    var q := Join(d, t, id, k, c, s);
    var h := BlackHeight(t);
    var sr := s.(color := Red);
    assert Child(q, Opposite(d)) == s;
    assert BlackHeight(sr) == h;
    assert EraseSibling(q, d) == (if c == Red then (Join(d, t, id, k, Black, sr), true) else (Join(d, t, id, k, c, sr), false));
    if UniqueIds(q) {
      assert UniqueIds(s);
      assert UniqueIds(sr);
    }
  }

  /** Case 6: the sibling's outer child is red; a single rotation at the parent. */
  lemma EraseRotate<K>(d: Dir, t: Tree<K>, id: nat, k: K, c: Color, s: Tree<K>)
    requires RBInternal(t) && !IsRed(t)
    requires s.Node? && s.color == Black && RBInternal(s) && BlackHeight(s) == BlackHeight(t) + 1
    requires IsRed(Child(s, Opposite(d)))
    ensures var q := Join(d, t, id, k, c, s);
      var (r, done) := EraseSibling(q, d);
      done && RBInternal(r) && IsRed(r) == (c == Red)
      && BlackHeight(r) == BlackHeight(t) + 1 + Weight(c) && Rearranged(q, r) && Ref(r) == s.id
  {
    var q := Join(d, t, id, k, c, s);
    var h := BlackHeight(t);
    var si, so := Child(s, d), Child(s, Opposite(d));
    assert Child(q, Opposite(d)) == s;
    assert BlackHeight(si) == h && BlackHeight(so) == h;
    var r := Join(d, Join(d, t, id, k, Red, si), s.id, s.key, Black, so);
    assert Rotate(q, d) == r;
    RotateRearranges(q, d);
    RepaintRearranges(r, c);
    var a := Join(d, t, id, k, Black, si);
    JoinValid(d, t, id, k, Black, si);
    BlackenValid(so);
    JoinValid(d, a, s.id, s.key, c, Blacken(so));
    var f := Join(d, a, s.id, s.key, c, Blacken(so));
    assert EraseSibling(q, d) == (f, true);
  }

  /** Case 5 leading into 6: only the sibling's inner child is red; a double rotation. */
  lemma EraseDoubleRotate<K>(d: Dir, t: Tree<K>, id: nat, k: K, c: Color, s: Tree<K>)
    requires RBInternal(t) && !IsRed(t)
    requires s.Node? && s.color == Black && RBInternal(s) && BlackHeight(s) == BlackHeight(t) + 1
    requires IsRed(Child(s, d)) && !IsRed(Child(s, Opposite(d)))
    ensures var q := Join(d, t, id, k, c, s);
      var (r, done) := EraseSibling(q, d);
      done && RBInternal(r) && IsRed(r) == (c == Red)
      && BlackHeight(r) == BlackHeight(t) + 1 + Weight(c) && Rearranged(q, r) && Ref(r) == Child(s, d).id
  {
    var q := Join(d, t, id, k, c, s);
    var h := BlackHeight(t);
    var si, so := Child(s, d), Child(s, Opposite(d));
    assert Child(q, Opposite(d)) == s;
    ChildValid(s, d);
    ChildValid(s, Opposite(d));
    ChildValid(si, d);
    ChildValid(si, Opposite(d));
    var inner := Join(d, Child(si, Opposite(d)), s.id, s.key, Red, so);
    var r1 := Join(Opposite(d), inner, si.id, si.key, Black, Child(si, d));
    assert Rotate(s, Opposite(d)) == r1;
    var r := Join(d, Join(d, t, id, k, Red, Child(si, d)), si.id, si.key, Black, inner);
    assert DoubleRotate(q, d) == r;
    DoubleRotateRearranges(q, d);
    RepaintRearranges(r, c);
    var a := Join(d, t, id, k, Black, Child(si, d));
    var b := Join(d, Child(si, Opposite(d)), s.id, s.key, Black, so);
    JoinValid(d, t, id, k, Black, Child(si, d));
    JoinValid(d, Child(si, Opposite(d)), s.id, s.key, Black, so);
    JoinValid(d, a, si.id, si.key, c, b);
    var f := Join(d, a, si.id, si.key, c, b);
    assert EraseSibling(q, d) == (f, true);
  }

  lemma JoinRearranged<K>(d: Dir, a: Tree<K>, b: Tree<K>, id: nat, k: K, c: Color, c': Color, o: Tree<K>)
    requires Rearranged(a, b)
    ensures Rearranged(Join(d, a, id, k, c, o), Join(d, b, id, k, c', o))
  {
  }

  /**
   * One iteration of erase's loop: the sibling of a short child is never
   * NULL, and balance_erase either finishes with a valid tree or moves the
   * shortage to the parent, which it returns.
   */
  lemma EraseStep<K>(ctx: Ctx<K>, t: Tree<K>)
    requires EraseInvariant(ctx, t) && ctx.Down?
    ensures var p := Join(ctx.dir, t, ctx.id, ctx.key, ctx.color, ctx.other);
      Child(p, Opposite(ctx.dir)).Node? &&
      var (r, done) := BalanceErase(p, ctx.dir);
      (done ==> IsRB(Plug(ctx.up, r)))
      && (!done ==> EraseInvariant(ctx.up, r) && Ref(r) == ctx.id)
      && Rearranged(p, r) && r.Node?
  {
    if IsRed(ctx.other) {
      EraseStepRed(ctx, t);
    } else {
      EraseStepBlack(ctx, t);
    }
  }

  /** Under a red parent, cases 4 to 6 of balance_erase always finish. */
  lemma EraseUnderRed<K>(d: Dir, t: Tree<K>, id: nat, k: K, s: Tree<K>)
    requires RBInternal(t) && !IsRed(t)
    requires s.Node? && s.color == Black && RBInternal(s) && BlackHeight(s) == BlackHeight(t) + 1
    ensures var q := Join(d, t, id, k, Red, s);
      var (r, done) := EraseSibling(q, d);
      done && RBInternal(r) && BlackHeight(r) == BlackHeight(t) + 1 && Rearranged(q, r)
  {
    if !IsRed(Child(s, d)) && !IsRed(Child(s, Opposite(d))) {
      EraseRecolor(d, t, id, k, Red, s);
    } else if IsRed(Child(s, Opposite(d))) {
      EraseRotate(d, t, id, k, Red, s);
    } else {
      EraseDoubleRotate(d, t, id, k, Red, s);
    }
  }

  /** EraseStep when the sibling is red (case 2 of balance_erase). */
  lemma EraseStepRed<K>(ctx: Ctx<K>, t: Tree<K>)
    requires EraseInvariant(ctx, t) && ctx.Down? && IsRed(ctx.other)
    ensures var p := Join(ctx.dir, t, ctx.id, ctx.key, ctx.color, ctx.other);
      Child(p, Opposite(ctx.dir)).Node? &&
      var (r, done) := BalanceErase(p, ctx.dir);
      (done ==> IsRB(Plug(ctx.up, r)))
      && (!done ==> EraseInvariant(ctx.up, r) && Ref(r) == ctx.id)
      && Rearranged(p, r) && r.Node?
  {
    var Down(up, d, id, k, c, o) := ctx;
    var p := Join(d, t, id, k, c, o);
    var h := BlackHeight(t);
    assert Child(p, d) == t && Child(p, Opposite(d)) == o;
    assert RBInternal(o) && BlackHeight(o) == h + 1;
    ChildValid(o, d);
    ChildValid(o, Opposite(d));
    var oi, oo := Child(o, d), Child(o, Opposite(d));
    var down := Join(d, t, id, k, Red, oi);
    var r := Join(d, down, o.id, o.key, Black, oo);
    assert Rotate(p, d) == r;
    RotateRearranges(p, d);
    assert Child(r, d) == down;
    EraseUnderRed(d, t, id, k, oi);
    var (q, done) := EraseSibling(down, d);
    var f := Join(d, q, o.id, o.key, Black, oo);
    assert BalanceErase(p, d) == (f, done);
    JoinValid(d, q, o.id, o.key, Black, oo);
    JoinRearranged(d, down, q, o.id, o.key, Black, Black, oo);
    FitsPlug(up, f);
  }

  /** EraseStep when the sibling is black (cases 3 to 6 of balance_erase). */
  lemma EraseStepBlack<K>(ctx: Ctx<K>, t: Tree<K>)
    requires EraseInvariant(ctx, t) && ctx.Down? && !IsRed(ctx.other)
    ensures var p := Join(ctx.dir, t, ctx.id, ctx.key, ctx.color, ctx.other);
      Child(p, Opposite(ctx.dir)).Node? &&
      var (r, done) := BalanceErase(p, ctx.dir);
      (done ==> IsRB(Plug(ctx.up, r)))
      && (!done ==> EraseInvariant(ctx.up, r) && Ref(r) == ctx.id)
      && Rearranged(p, r) && r.Node?
  {
    var Down(up, d, id, k, c, o) := ctx;
    var p := Join(d, t, id, k, c, o);
    var h := BlackHeight(t);
    assert Child(p, d) == t && Child(p, Opposite(d)) == o;
    assert RBInternal(o) && BlackHeight(o) == h + 1;
    if !IsRed(Child(o, d)) && !IsRed(Child(o, Opposite(d))) {
      EraseRecolor(d, t, id, k, c, o);
    } else if IsRed(Child(o, Opposite(d))) {
      EraseRotate(d, t, id, k, c, o);
    } else {
      EraseDoubleRotate(d, t, id, k, c, o);
    }
    var (r, done) := EraseSibling(p, d);
    assert BalanceErase(p, d) == (r, done);
    if done {
      if c == Red && !IsRed(r) {
        WithinWeaken(up, BlackHeight(r));
      }
      FitsPlug(up, r);
    }
  }

  // ---------------------------------------------------------------------
  // Unlinking a node (set.h:324-366)

  /**
   * The path from the root of a subtree down to its leftmost node, under
   * the path acc: the successor search of erase and of operator++.
   */
  function Leftmost<K>(t: Tree<K>, acc: Ctx<K>): (r: (Ctx<K>, Tree<K>))
    requires t.Node?
    ensures r.1.Node? && r.1.left.Leaf?
  {
    if t.left.Leaf? then (acc, t) else Leftmost(t.left, Down(acc, Left, t.id, t.key, t.color, t.right))
  }

  lemma {:induction false} LeftmostPlug<K>(t: Tree<K>, acc: Ctx<K>)
    requires t.Node?
    ensures var (c, m) := Leftmost(t, acc);
      Plug(c, m) == Plug(acc, t) && Before(c) == Before(acc) && BeforeIds(c) == BeforeIds(acc)
    decreases t
  {
    if t.left.Node? {
      LeftmostPlug(t.left, Down(acc, Left, t.id, t.key, t.color, t.right));
    }
  }

  /**
   * What erase leaves once the node is unlinked: the path to the position
   * `child` now occupies, that subtree, and the colour ("color" in the
   * source) of the node taken out of its place.  A node with at most one
   * child is replaced by that child; a node with two children is replaced
   * by its in-order successor, which takes over its colour, and the
   * successor's right subtree takes the successor's place.
   */
  function SpliceOut<K>(ctx: Ctx<K>, n: Tree<K>): (Ctx<K>, Tree<K>, Color)
    requires n.Node?
  {
    if n.left.Leaf? then (ctx, n.right, n.color)
    else if n.right.Leaf? then (ctx, n.left, n.color)
    else
      var (cr, s) := Leftmost(n.right, Top);
      (Compose(Down(ctx, Right, s.id, s.key, n.color, n.left), cr), s.right, s.color)
  }

  /**
   * After the splice: the child is valid and, once the removed colour is
   * made up for, fits; a child of a removed red node is never red.
   */
  ghost predicate Removed<K>(ctx: Ctx<K>, child: Tree<K>, color: Color)
  {
    RBInternal(child) && !(color == Red && IsRed(child))
    && Fits(ctx, BlackHeight(child) + Weight(color), false)
  }

  /** A node with at most one child: that child takes its place. */
  lemma EraseOne<K>(ctx: Ctx<K>, n: Tree<K>, child: Tree<K>)
    requires IsRB(Plug(ctx, n)) && n.Node?
    requires (n.left.Leaf? && child == n.right) || (n.right.Leaf? && child == n.left)
    ensures Removed(ctx, child, n.color)
  {
    PlugFits(ctx, n);
    assert BlackHeight(n.left) == BlackHeight(n.right);
    if IsRed(child) {
      ChildValid(child, Left);
    }
    assert child.Node? && !IsRed(child) ==> BlackHeight(child) >= 1;
    if n.color == Black {
      assert !IsRed(n);
    } else {
      WithinWeaken(ctx, BlackHeight(n));
    }
  }

  /** With at most one child, the keys left are those of the node's children. */
  lemma SpliceChildKeys<K>(ctx: Ctx<K>, n: Tree<K>, child: Tree<K>)
    requires n.Node?
    requires (n.left.Leaf? && child == n.right) || (n.right.Leaf? && child == n.left)
    ensures Keys(Plug(ctx, child)) == Before(ctx) + Keys(n.left) + Keys(n.right) + After(ctx)
  {
    KeysPlug(ctx, child);
    if n.left.Leaf? {
      assert Keys(n.left) == [];
    } else {
      assert Keys(n.right) == [];
      assert Keys(n.left) + Keys(n.right) == Keys(n.left);
    }
  }

  lemma SpliceChildOrder<K>(ctx: Ctx<K>, n: Tree<K>, child: Tree<K>)
    requires n.Node?
    requires (n.left.Leaf? && child == n.right) || (n.right.Leaf? && child == n.left)
    ensures Order(Plug(ctx, child)) == BeforeIds(ctx) + Order(n.left) + Order(n.right) + AfterIds(ctx)
  {
    OrderPlug(ctx, child);
    if n.left.Leaf? {
      assert Order(n.left) == [];
    } else {
      assert Order(n.right) == [];
      assert Order(n.left) + Order(n.right) == Order(n.left);
    }
  }

  /** Putting a part of a subtree in its place keeps the ids distinct. */
  lemma PlugSubset<K>(ctx: Ctx<K>, a: Tree<K>, b: Tree<K>)
    requires UniqueIds(Plug(ctx, a)) && UniqueIds(b) && Ids(b) <= Ids(a)
    ensures Ids(Plug(ctx, b)) == CtxIds(ctx) + Ids(b)
    ensures UniqueIds(Plug(ctx, b))
  {
    IdsPlug(ctx, a);
    IdsPlug(ctx, b);
  }

  /** A child put in the place of its parent keeps the ids distinct. */
  lemma ChildIds<K>(ctx: Ctx<K>, n: Tree<K>, d: Dir)
    requires UniqueIds(Plug(ctx, n)) && n.Node?
    ensures Ids(Plug(ctx, Child(n, d))) == CtxIds(ctx) + Ids(Child(n, d))
    ensures UniqueIds(Plug(ctx, Child(n, d)))
  {
    IdsPlug(ctx, n);
    assert UniqueIds(n);
    PlugSubset(ctx, n, Child(n, d));
  }

  /** Renaming the node of the outermost frame of a path changes nothing about fitting. */
  lemma {:induction false} RelabelFits<K>(ctx: Ctx<K>, b: Ctx<K>, x: nat, kx: K, y: nat, ky: K, c: Color, o: Tree<K>, h: nat, red: bool)
    ensures Within(Compose(Down(ctx, Right, x, kx, c, o), b), h, red) == Within(Compose(Down(ctx, Right, y, ky, c, o), b), h, red)
    ensures RootRed(Compose(Down(ctx, Right, x, kx, c, o), b), red) == RootRed(Compose(Down(ctx, Right, y, ky, c, o), b), red)
    decreases b
  {
    match b
    case Top =>
    case Down(up, d, id, k, cl, ot) =>
      RelabelFits(ctx, up, x, kx, y, ky, c, o, h + Weight(cl), cl == Red);
  }

  /** The states erase's rebalancing starts from (set.h:367-393). */
  lemma RemovedFinish<K>(ctx: Ctx<K>, child: Tree<K>, color: Color)
    requires Removed(ctx, child, color)
    ensures color == Red ==> IsRB(Plug(ctx, child))
    ensures color == Black && IsRed(child) ==> IsRB(Plug(ctx, Blacken(child)))
    ensures color == Black && !IsRed(child) ==> EraseInvariant(ctx, child)
  {
    if color == Red {
      FitsPlug(ctx, child);
    } else if IsRed(child) {
      BlackenValid(child);
      FitsPlug(ctx, Blacken(child));
    }
  }

  /** The successor taking the place of a node with two children. */
  lemma SuccessorRemoved<K>(ctx: Ctx<K>, n: Tree<K>)
    requires IsRB(Plug(ctx, n)) && n.Node? && n.left.Node? && n.right.Node?
    ensures var (c, child, color) := SpliceOut(ctx, n); Removed(c, child, color)
  {
    var (cr, s) := Leftmost(n.right, Top);
    LeftmostPlug(n.right, Top);
    var outer := Down(ctx, Right, n.id, n.key, n.color, n.left);
    PlugCompose(outer, cr, s);
    EraseOne(Compose(outer, cr), s, s.right);
    RelabelFits(ctx, cr, n.id, n.key, s.id, s.key, n.color, n.left, BlackHeight(s.right) + Weight(s.color), false);
  }

  /** Taking out the leftmost node s of a subtree takes its key off the front. */
  lemma MinRemovedKeys<K>(cr: Ctx<K>, s: Tree<K>)
    requires s.Node? && s.left.Leaf? && Before(cr) == []
    ensures Keys(Plug(cr, s)) == [s.key] + Keys(Plug(cr, s.right))
  {
    KeysPlug(cr, s.right);
    KeysPlug(cr, s);
  }

  lemma MinRemovedOrder<K>(cr: Ctx<K>, s: Tree<K>)
    requires s.Node? && s.left.Leaf? && BeforeIds(cr) == []
    ensures Order(Plug(cr, s)) == [s.id] + Order(Plug(cr, s.right))
  {
    OrderPlug(cr, s.right);
    OrderPlug(cr, s);
    SplitAtFront(BeforeIds(cr), s.id, Order(s.right), AfterIds(cr));
  }

  /** The regrouping MinRemovedOrder needs: Order losing its index 0, stated for any element type. */
  lemma SplitAtFront<T>(b: seq<T>, x: T, r: seq<T>, a: seq<T>)
    requires b == []
    ensures b + ([] + [x] + r) + a == [x] + (b + r + a)
  {
  }

  /** Taking out a node with no left child leaves the other ids, still distinct. */
  lemma MinRemovedIds<K>(cr: Ctx<K>, s: Tree<K>)
    requires UniqueIds(Plug(cr, s)) && s.Node? && s.left.Leaf?
    ensures Ids(Plug(cr, s)) == Ids(Plug(cr, s.right)) + {s.id}
    ensures s.id !in Ids(Plug(cr, s.right)) && UniqueIds(Plug(cr, s.right))
  {
    IdsPlug(cr, s.right);
    IdsPlug(cr, s);
    assert UniqueIds(s);
  }

  /** The node that replaces one with two children: its successor, with the successor's own place spliced out. */
  function Replacement<K>(n: Tree<K>): (r: Tree<K>)
    requires n.Node? && n.right.Node?
    ensures r.Node?
  {
    var (cr, s) := Leftmost(n.right, Top);
    Node(n.left, s.id, s.key, n.color, Plug(cr, s.right))
  }

  lemma SuccessorShape<K>(ctx: Ctx<K>, n: Tree<K>)
    requires n.Node? && n.left.Node? && n.right.Node?
    ensures var (c, child, color) := SpliceOut(ctx, n);
      Plug(c, child) == Plug(ctx, Replacement(n))
  {
    var (cr, s) := Leftmost(n.right, Top);
    var moved := Down(ctx, Right, s.id, s.key, n.color, n.left);
    PlugCompose(moved, cr, s.right);
  }

  lemma SuccessorKeys<K>(ctx: Ctx<K>, n: Tree<K>)
    requires n.Node? && n.right.Node?
    ensures Keys(Plug(ctx, Replacement(n))) == Before(ctx) + Keys(n.left) + Keys(n.right) + After(ctx)
  {
    var (cr, s) := Leftmost(n.right, Top);
    LeftmostPlug(n.right, Top);
    MinRemovedKeys(cr, s);
    KeysPlug(ctx, Replacement(n));
  }

  lemma SuccessorOrder<K>(ctx: Ctx<K>, n: Tree<K>)
    requires n.Node? && n.right.Node?
    ensures Order(Plug(ctx, Replacement(n))) == BeforeIds(ctx) + Order(n.left) + Order(n.right) + AfterIds(ctx)
  {
    var (cr, s) := Leftmost(n.right, Top);
    LeftmostPlug(n.right, Top);
    MinRemovedOrder(cr, s);
    OrderPlug(ctx, Replacement(n));
  }

  lemma SuccessorIds<K>(ctx: Ctx<K>, n: Tree<K>)
    requires UniqueIds(Plug(ctx, n)) && n.Node? && n.right.Node?
    ensures Ids(Plug(ctx, Replacement(n))) == CtxIds(ctx) + Ids(n.left) + Ids(n.right)
    ensures UniqueIds(Plug(ctx, Replacement(n)))
  {
    var (cr, s) := Leftmost(n.right, Top);
    LeftmostPlug(n.right, Top);
    IdsPlug(ctx, n);
    assert UniqueIds(n) && UniqueIds(n.right);
    MinRemovedIds(cr, s);
    var t' := Replacement(n);
    assert UniqueIds(t');
    PlugSubset(ctx, n, t');
  }

  /**
   * The splice of erase takes exactly the node n out of the in-order
   * sequence and out of the tree, and leaves a state the rebalancing
   * starts from.
   */
  lemma EraseSplice<K>(ctx: Ctx<K>, n: Tree<K>)
    requires IsRB(Plug(ctx, n)) && UniqueIds(Plug(ctx, n)) && n.Node?
    ensures var (c, child, color) := SpliceOut(ctx, n);
      Removed(c, child, color)
      && Keys(Plug(c, child)) == Before(ctx) + Keys(n.left) + Keys(n.right) + After(ctx)
      && Order(Plug(c, child)) == BeforeIds(ctx) + Order(n.left) + Order(n.right) + AfterIds(ctx)
      && Ids(Plug(c, child)) == CtxIds(ctx) + Ids(n.left) + Ids(n.right)
      && UniqueIds(Plug(c, child))
  {
    if n.left.Leaf? {
      EraseOne(ctx, n, n.right);
      SpliceChildKeys(ctx, n, n.right);
      SpliceChildOrder(ctx, n, n.right);
      ChildIds(ctx, n, Right);
      assert Ids(n.left) == {};
    } else if n.right.Leaf? {
      EraseOne(ctx, n, n.left);
      SpliceChildKeys(ctx, n, n.left);
      SpliceChildOrder(ctx, n, n.left);
      ChildIds(ctx, n, Left);
      assert Ids(n.right) == {};
    } else {
      SuccessorRemoved(ctx, n);
      SuccessorShape(ctx, n);
      SuccessorKeys(ctx, n);
      SuccessorOrder(ctx, n);
      SuccessorIds(ctx, n);
    }
  }

  /**
   * Taking the element x out of p + (q + [x] + r) + t, at index |p| + |q|,
   * leaves p + q + r + t: Order and Keys losing the erased node's index.
   */
  lemma Cut<T>(p: seq<T>, q: seq<T>, x: T, r: seq<T>, t: seq<T>)
    ensures var s := p + (q + [x] + r) + t; var i := |p| + |q|;
      i < |s| && s[..i] + s[i + 1..] == p + q + r + t
  {
    var s := p + (q + [x] + r) + t;
    var i := |p| + |q|;
    assert s[..i] == p + q;
    assert s[i + 1..] == r + t;
  }

  /** The node n at ctx stands at index |Before(ctx)| + |Keys(n.left)| of the in-order sequences. */
  lemma ErasedIndex<K>(ctx: Ctx<K>, n: Tree<K>)
    requires n.Node? && UniqueIds(Plug(ctx, n))
    ensures var s := Order(Plug(ctx, n));
      n.id in s && |Keys(Plug(ctx, n))| == |s| && IndexOf(s, n.id) == |Before(ctx)| + |Keys(n.left)|
      && |Before(ctx)| + |Keys(n.left)| == |BeforeIds(ctx)| + |Order(n.left)|
  {
    BeforeLength(ctx);
    OrderLength(n.left);
    var w := Plug(ctx, n);
    At(ctx, n);
    OrderIds(w);
    OrderLength(w);
    IndexOfAt(Order(w), |Before(ctx)| + |Keys(n.left)|);
  }

  /** Taking out the element at n's index leaves the sequences EraseSplice describes. */
  lemma ErasedOrder<K>(ctx: Ctx<K>, n: Tree<K>, i: nat)
    requires n.Node? && i == |BeforeIds(ctx)| + |Order(n.left)|
    ensures var s := Order(Plug(ctx, n));
      i < |s| && s[..i] + s[i + 1..] == BeforeIds(ctx) + Order(n.left) + Order(n.right) + AfterIds(ctx)
  {
    OrderPlug(ctx, n);
    Cut(BeforeIds(ctx), Order(n.left), n.id, Order(n.right), AfterIds(ctx));
  }

  lemma ErasedKeys<K>(ctx: Ctx<K>, n: Tree<K>, i: nat)
    requires n.Node? && i == |Before(ctx)| + |Keys(n.left)|
    ensures var ks := Keys(Plug(ctx, n));
      i < |ks| && ks[..i] + ks[i + 1..] == Before(ctx) + Keys(n.left) + Keys(n.right) + After(ctx)
  {
    KeysPlug(ctx, n);
    Cut(Before(ctx), Keys(n.left), n.key, Keys(n.right), After(ctx));
  }

  /** The ids left once n is taken out: all the others. */
  lemma ErasedIds<K>(ctx: Ctx<K>, n: Tree<K>)
    requires n.Node? && UniqueIds(Plug(ctx, n))
    ensures Ids(Plug(ctx, n)) == CtxIds(ctx) + Ids(n.left) + Ids(n.right) + {n.id}
    ensures n.id !in CtxIds(ctx) + Ids(n.left) + Ids(n.right)
  {
    IdsPlug(ctx, n);
    assert n.id in Ids(n);
  }

  // ---------------------------------------------------------------------
  // Positions in the in-order sequences

  lemma {:induction false} OrderLength<K>(t: Tree<K>)
    ensures |Order(t)| == |Keys(t)|
  {
    match t
    case Leaf =>
    case Node(l, _, _, _, r) =>
      OrderLength(l);
      OrderLength(r);
  }

  lemma {:induction false} BeforeLength<K>(ctx: Ctx<K>)
    ensures |BeforeIds(ctx)| == |Before(ctx)| && |AfterIds(ctx)| == |After(ctx)|
  {
    match ctx
    case Top =>
    case Down(up, _, _, _, _, o) =>
      BeforeLength(up);
      OrderLength(o);
  }

  /** The node at a position stands at index |Before| of both in-order sequences. */
  lemma At<K>(ctx: Ctx<K>, t: Tree<K>)
    requires t.Node?
    ensures var i := |Before(ctx)| + |Keys(t.left)|;
      i < |Keys(Plug(ctx, t))| && Keys(Plug(ctx, t))[i] == t.key
      && i < |Order(Plug(ctx, t))| && Order(Plug(ctx, t))[i] == t.id
  {
    KeysPlug(ctx, t);
    OrderPlug(ctx, t);
    BeforeLength(ctx);
    OrderLength(t.left);
  }

  /** The ids of Order are those of Ids, each once when the ids are unique. */
  lemma {:induction false} OrderIds<K>(t: Tree<K>)
    ensures forall z :: z in Order(t) <==> z in Ids(t)
    ensures UniqueIds(t) ==> Distinct(Order(t))
  {
    match t
    case Leaf =>
    case Node(l, id, _, _, r) =>
      OrderIds(l);
      OrderIds(r);
      if UniqueIds(t) {
        var s := Order(t);
        forall i, j | 0 <= i < j < |s|
          ensures s[i] != s[j]
        {
          var a := |Order(l)|;
          if j < a {
            assert s[i] == Order(l)[i] && s[j] == Order(l)[j];
          } else if i > a {
            assert s[i] == Order(r)[i - a - 1] && s[j] == Order(r)[j - a - 1];
          } else if i == a {
            assert s[j] == Order(r)[j - a - 1] && s[j] in Order(r);
          } else if j == a {
            assert s[i] == Order(l)[i] && s[i] in Order(l);
          } else {
            assert s[i] == Order(l)[i] && s[i] in Order(l);
            assert s[j] == Order(r)[j - a - 1] && s[j] in Order(r);
          }
        }
      }
  }

  /** No element occurs twice. */
  ghost predicate Distinct(s: seq<nat>)
  {
    forall i, j :: 0 <= i < j < |s| ==> s[i] != s[j]
  }

  /** The index of x in s. */
  function IndexOf(s: seq<nat>, x: nat): (i: nat)
    requires x in s
    ensures i < |s| && s[i] == x && x !in s[..i]
  {
    if s[0] == x then 0 else
      assert x in s[1..];
      var j := IndexOf(s[1..], x);
      assert s[..j + 1] == [s[0]] + s[1..][..j];
      j + 1
  }

  lemma IndexOfAt(s: seq<nat>, i: nat)
    requires Distinct(s) && i < |s|
    ensures IndexOf(s, s[i]) == i
  {
    var j := IndexOf(s, s[i]);
    assert s[j] == s[i];
  }

  /** Every node of a tree has a position in it. */
  lemma {:induction false} Locate<K>(t: Tree<K>, x: nat) returns (ctx: Ctx<K>, sub: Tree<K>)
    requires x in Ids(t)
    ensures Plug(ctx, sub) == t && sub.Node? && sub.id == x
  {
    match t
    case Node(l, id, k, c, r) =>
      if x == id {
        ctx, sub := Top, t;
      } else if x in Ids(l) {
        var c', s' := Locate(l, x);
        ctx := Compose(Down(Top, Left, id, k, c, r), c');
        sub := s';
        PlugCompose(Down(Top, Left, id, k, c, r), c', s');
      } else {
        var c', s' := Locate(r, x);
        ctx := Compose(Down(Top, Right, id, k, c, l), c');
        sub := s';
        PlugCompose(Down(Top, Right, id, k, c, l), c', s');
      }
  }

  /** With a right child, the node after t's root in order is the first node of that child. */
  lemma SuccessorBelow<K>(ctx: Ctx<K>, t: Tree<K>)
    requires t.Node? && t.right.Node? && Distinct(Order(Plug(ctx, t)))
    ensures var s := Order(Plug(ctx, t));
      t.id in s && var i := IndexOf(s, t.id); i + 1 < |s| && s[i + 1] == Order(t.right)[0]
  {
    var s := Order(Plug(ctx, t));
    OrderPlug(ctx, t);
    var i := |BeforeIds(ctx)| + |Order(t.left)|;
    assert s[i] == t.id;
    IndexOfAt(s, i);
    assert s[i + 1] == Order(t.right)[0];
  }

  /** The last node of a left child is followed in order by its parent. */
  lemma SuccessorAbove<K>(ctx: Ctx<K>, t: Tree<K>)
    requires ctx.Down? && ctx.dir == Left && t.Node? && Distinct(Order(Plug(ctx, t)))
    ensures var s := Order(Plug(ctx, t)); var x := Order(t)[|Order(t)| - 1];
      x in s && var i := IndexOf(s, x); i + 1 < |s| && s[i + 1] == ctx.id
  {
    var s := Order(Plug(ctx, t));
    OrderPlug(ctx, t);
    var i := |BeforeIds(ctx)| + |Order(t)| - 1;
    assert s[i] == Order(t)[|Order(t)| - 1];
    IndexOfAt(s, i);
    assert s[i + 1] == AfterIds(ctx)[0] == ctx.id;
  }

  /** The last node of the whole tree has nothing after it. */
  lemma SuccessorNone<K>(t: Tree<K>)
    requires t.Node? && Distinct(Order(t))
    ensures IndexOf(Order(t), Order(t)[|Order(t)| - 1]) + 1 == |Order(t)|
  {
    IndexOfAt(Order(t), |Order(t)| - 1);
  }

  // ---------------------------------------------------------------------
  // Searching: the descents of find (set.h:406-425) and insert (set.h:432-450)

  /** Keys(t) inside a sorted tree: the d-side keys of a node lie on that side of its key. */
  lemma SortedNode<K(!new)>(less: (K, K) -> bool, ctx: Ctx<K>, t: Tree<K>)
    requires Sorted(less, Keys(Plug(ctx, t))) && t.Node?
    ensures Above(less, Keys(t.right), t.key) && Below(less, Keys(t.left), t.key)
  {
    KeysPlug(ctx, t);
    var s := Keys(Plug(ctx, t));
    var p := |Before(ctx)| + |Keys(t.left)|;
    assert s[p] == t.key;
    forall j | 0 <= j < |Keys(t.right)|
      ensures less(t.key, Keys(t.right)[j])
    {
      assert s[p + 1 + j] == Keys(t.right)[j];
      assert LessAt(less, s, p, p + 1 + j);
    }
    forall j | 0 <= j < |Keys(t.left)|
      ensures less(Keys(t.left)[j], t.key)
    {
      assert s[|Before(ctx)| + j] == Keys(t.left)[j];
      assert LessAt(less, s, |Before(ctx)| + j, p);
    }
  }

  /** Going left at a node above k keeps every key right of the position above k. */
  lemma DescendLeft<K(!new)>(less: (K, K) -> bool, ctx: Ctx<K>, t: Tree<K>, k: K)
    requires StrictWeakOrder(less) && Sorted(less, Keys(Plug(ctx, t))) && t.Node?
    requires less(k, t.key) && Above(less, After(ctx), k)
    ensures Above(less, After(Down(ctx, Left, t.id, t.key, t.color, t.right)), k)
  {
    SortedNode(less, ctx, t);
    var a := [t.key] + Keys(t.right) + After(ctx);
    forall i | 0 <= i < |a|
      ensures less(k, a[i])
    {
      if 0 < i <= |Keys(t.right)| {
        assert a[i] == Keys(t.right)[i - 1];
        assert TransitiveAt(less, k, t.key, a[i]);
      } else if i > |Keys(t.right)| {
        assert a[i] == After(ctx)[i - 1 - |Keys(t.right)|];
      }
    }
  }

  /** Going right at a node below k keeps every key left of the position below k. */
  lemma DescendRight<K(!new)>(less: (K, K) -> bool, ctx: Ctx<K>, t: Tree<K>, k: K)
    requires StrictWeakOrder(less) && Sorted(less, Keys(Plug(ctx, t))) && t.Node?
    requires less(t.key, k) && Below(less, Before(ctx), k)
    ensures Below(less, Before(Down(ctx, Right, t.id, t.key, t.color, t.left)), k)
  {
    SortedNode(less, ctx, t);
    var b := Before(ctx) + Keys(t.left) + [t.key];
    forall i | 0 <= i < |b|
      ensures less(b[i], k)
    {
      if |Before(ctx)| <= i < |Before(ctx)| + |Keys(t.left)| {
        assert b[i] == Keys(t.left)[i - |Before(ctx)|];
        assert TransitiveAt(less, b[i], t.key, k);
      } else if i < |Before(ctx)| {
        assert b[i] == Before(ctx)[i];
      }
    }
  }

  /** A descent that ends at an empty position: no key is equivalent to k. */
  lemma SearchMiss<K(!new)>(less: (K, K) -> bool, ctx: Ctx<K>, k: K)
    requires Below(less, Before(ctx), k) && Above(less, After(ctx), k)
    ensures !Contains(less, Keys(Plug(ctx, Leaf)), k)
  {
    KeysPlug(ctx, Leaf);
    var s := Keys(Plug(ctx, Leaf));
    forall i | 0 <= i < |s|
      ensures !Equiv(less, s[i], k)
    {
      if i < |Before(ctx)| {
        assert s[i] == Before(ctx)[i];
      } else {
        assert s[i] == After(ctx)[i - |Before(ctx)|];
      }
    }
  }

  /** Linking a new node for k at the empty position the descent ends at is insert on the keys. */
  lemma SearchInsert<K(!new)>(less: (K, K) -> bool, ctx: Ctx<K>, n: Tree<K>, k: K)
    requires StrictWeakOrder(less) && Below(less, Before(ctx), k) && Above(less, After(ctx), k)
    requires n.Node? && n.left.Leaf? && n.right.Leaf? && n.key == k
    ensures Keys(Plug(ctx, n)) == Insertion(less, Keys(Plug(ctx, Leaf)), k)
  {
    KeysPlug(ctx, Leaf);
    KeysPlug(ctx, n);
    assert Keys(n) == [k];
    assert Keys(Plug(ctx, Leaf)) == Before(ctx) + After(ctx);
    InsertionSplit(less, Before(ctx), After(ctx), k);
  }

  /** A descent that stops at a key equivalent to k: insert changes nothing. */
  lemma SearchHit<K(!new)>(less: (K, K) -> bool, ctx: Ctx<K>, t: Tree<K>, k: K)
    requires StrictWeakOrder(less) && Sorted(less, Keys(Plug(ctx, t))) && t.Node? && Equiv(less, t.key, k)
    ensures Contains(less, Keys(Plug(ctx, t)), k)
    ensures Insertion(less, Keys(Plug(ctx, t)), k) == Keys(Plug(ctx, t))
  {
    At(ctx, t);
    InsertionPresent(less, Keys(Plug(ctx, t)), k);
  }
}
