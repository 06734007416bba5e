/** The rebalancing half of avlbst.h: `rotateLeft`, `rotateRight`, the two
    double rotations and the `rebalance` walk, as operations on the arena. */
module Balance {
  import opened Ints
  import opened Shapes
  import opened Arena
  import opened Rewiring
  import opened Heights

  /** How `rebalance` ends: it either walks off the root, or it meets a node
      whose stored height is above 1 but which has no right child, where the
      source dereferences a null pivot. */
  datatype Outcome = Completed | NullPivot(at: nat)

  /** `(t', nodes', root')` is the sound arena `(t, nodes, root)` after
      `rotateLeft(x)`: the tree is rotated left at `x`, the entries are the same,
      the links are those of a left rotation, and `x` and its new parent have
      their heights recomputed. */
  ghost predicate RotatedLeftAt<V>(t: Shape, nodes: map<nat, AvlNode<V>>, root: Ptr, nextId: nat, x: nat,
                                   t': Shape, nodes': map<nat, AvlNode<V>>, root': Ptr)
  {
    && Intact(t, nodes, root, nextId) && x in nodes && nodes[x].right.At?
    && t' == Rewrite(t, x, RotL(Sub(t, x)))
    && Seq(t') == Seq(t) && Sub(t', nodes[x].right.id) == RotL(Sub(t, x))
    && Intact(t', nodes', root', nextId) && InOrder(t', nodes') == InOrder(t, nodes)
    && nodes'.Keys == nodes.Keys
    && root' == (if nodes[x].parent == Null then nodes[x].right else root)
    && HeightFixed(nodes', x) && HeightFixed(nodes', nodes[x].right.id)
    && LeftRotated(Sub(t, x), nodes[x].parent, nodes, nodes')
  }

  /** `(t', nodes', root')` is the sound arena `(t, nodes, root)` after
      `rotateRight(x)`: the tree is rotated right at `x`, the entries are the same,
      the links are those of a right rotation, and `x` and its new parent have
      their heights recomputed. */
  ghost predicate RotatedRightAt<V>(t: Shape, nodes: map<nat, AvlNode<V>>, root: Ptr, nextId: nat, x: nat,
                                    t': Shape, nodes': map<nat, AvlNode<V>>, root': Ptr)
  {
    && Intact(t, nodes, root, nextId) && x in nodes && nodes[x].left.At?
    && t' == Rewrite(t, x, RotR(Sub(t, x)))
    && Seq(t') == Seq(t) && Sub(t', nodes[x].left.id) == RotR(Sub(t, x))
    && Intact(t', nodes', root', nextId) && InOrder(t', nodes') == InOrder(t, nodes)
    && nodes'.Keys == nodes.Keys
    && root' == (if nodes[x].parent == Null then nodes[x].left else root)
    && HeightFixed(nodes', x) && HeightFixed(nodes', nodes[x].left.id)
    && RightRotated(Sub(t, x), nodes[x].parent, nodes, nodes')
  }

  /** rotateLeft(x): the right child `pivot` of `x` takes the place of `x`
      under the old parent of `x` (or as the root), `x` becomes the pivot's left
      child and takes over the pivot's former left child; then `x` and the
      pivot have their heights recomputed. */
  method RotateLeft<V>(nodes: map<nat, AvlNode<V>>, root: Ptr, x: nat, ghost t: Shape, ghost nextId: nat)
      returns (m2: map<nat, AvlNode<V>>, r: Ptr, ghost t': Shape)
    requires Intact(t, nodes, root, nextId) && x in nodes && nodes[x].right.At?
    ensures RotatedLeftAt(t, nodes, root, nextId, x, t', m2, r)
    ensures m2.Keys == nodes.Keys && r == (if nodes[x].parent == Null then nodes[x].right else root)
    ensures HeightFixed(m2, x) && HeightFixed(m2, nodes[x].right.id)
    ensures m2[x].parent == nodes[x].right && m2[nodes[x].right.id].left == At(x)
  {
    RotLSetting(t, nodes, root, x);
    ghost var s := Sub(t, x);
    t' := Rewrite(t, x, RotL(s));
    var pivot := nodes[x].right.id;
    var m;
    m, r := LinkLeft(nodes, root, x, s);
    RotLKept(t, nodes, root, nextId, x, m, r);
    Fixable(t', m, r, nextId, x);
    var m1 := UpdateHeight(m, x);
    Reheighted(t', m, r, nextId, x, m1[x].height);
    Fixable(t', m1, r, nextId, pivot);
    m2 := UpdateHeight(m1, pivot);
    Reheighted(t', m1, r, nextId, pivot, m2[pivot].height);
    RotLHeights(s, nodes[x].parent, nodes, m, m1, m2);
  }

  /** rotateRight(x): the left child `pivot` of `x` takes the place of `x`
      under the old parent of `x` (or as the root), `x` becomes the pivot's right
      child and takes over the pivot's former right child; then `x` and the
      pivot have their heights recomputed. */
  method RotateRight<V>(nodes: map<nat, AvlNode<V>>, root: Ptr, x: nat, ghost t: Shape, ghost nextId: nat)
      returns (m2: map<nat, AvlNode<V>>, r: Ptr, ghost t': Shape)
    requires Intact(t, nodes, root, nextId) && x in nodes && nodes[x].left.At?
    ensures RotatedRightAt(t, nodes, root, nextId, x, t', m2, r)
    ensures m2.Keys == nodes.Keys && r == (if nodes[x].parent == Null then nodes[x].left else root)
    ensures HeightFixed(m2, x) && HeightFixed(m2, nodes[x].left.id)
    ensures m2[x].parent == nodes[x].left && m2[nodes[x].left.id].right == At(x)
  {
    RotRSetting(t, nodes, root, x);
    ghost var s := Sub(t, x);
    t' := Rewrite(t, x, RotR(s));
    var pivot := nodes[x].left.id;
    var m;
    m, r := LinkRight(nodes, root, x, s);
    RotRKept(t, nodes, root, nextId, x, m, r);
    Fixable(t', m, r, nextId, x);
    var m1 := UpdateHeight(m, x);
    Reheighted(t', m, r, nextId, x, m1[x].height);
    Fixable(t', m1, r, nextId, pivot);
    m2 := UpdateHeight(m1, pivot);
    Reheighted(t', m1, r, nextId, pivot, m2[pivot].height);
    RotRHeights(s, nodes[x].parent, nodes, m, m1, m2);
  }

  /** `(t', nodes', root')` is the sound arena `(t, nodes, root)` after
      `rotateRightLeft(x)`: the tree is double-rotated at `x`, the entries are the
      same, the left child `q` of the right child `c` of `x` takes the place of
      `x` with `x` and `c` as its children, `x`, `c` and `q` have their heights
      recomputed, and every other node keeps its stored height. */
  ghost predicate RotatedRightLeftAt<V>(t: Shape, nodes: map<nat, AvlNode<V>>, root: Ptr, nextId: nat, x: nat,
                                        t': Shape, nodes': map<nat, AvlNode<V>>, root': Ptr)
  {
    && Intact(t, nodes, root, nextId) && x in nodes && nodes[x].right.At?
    && nodes[x].right.id in nodes && nodes[nodes[x].right.id].left.At?
    && var q := nodes[nodes[x].right.id].left.id;
    && t' == Rewrite(t, x, RotRL(Sub(t, x)))
    && Seq(t') == Seq(t) && Sub(t', q) == RotRL(Sub(t, x))
    && Intact(t', nodes', root', nextId) && InOrder(t', nodes') == InOrder(t, nodes)
    && nodes'.Keys == nodes.Keys
    && root' == (if nodes[x].parent == Null then At(q) else root)
    && nodes'[x].parent == At(q)
    && HeightFixed(nodes', x) && HeightFixed(nodes', nodes[x].right.id) && HeightFixed(nodes', q)
    && (forall j :: j in nodes && j != x && j != nodes[x].right.id && j != q ==> nodes'[j].height == nodes[j].height)
  }

  /** `(t', nodes', root')` is the sound arena `(t, nodes, root)` after
      `rotateLeftRight(x)`: the mirror image of `RotatedRightLeftAt`. */
  ghost predicate RotatedLeftRightAt<V>(t: Shape, nodes: map<nat, AvlNode<V>>, root: Ptr, nextId: nat, x: nat,
                                        t': Shape, nodes': map<nat, AvlNode<V>>, root': Ptr)
  {
    && Intact(t, nodes, root, nextId) && x in nodes && nodes[x].left.At?
    && nodes[x].left.id in nodes && nodes[nodes[x].left.id].right.At?
    && var q := nodes[nodes[x].left.id].right.id;
    && t' == Rewrite(t, x, RotLR(Sub(t, x)))
    && Seq(t') == Seq(t) && Sub(t', q) == RotLR(Sub(t, x))
    && Intact(t', nodes', root', nextId) && InOrder(t', nodes') == InOrder(t, nodes)
    && nodes'.Keys == nodes.Keys
    && root' == (if nodes[x].parent == Null then At(q) else root)
    && nodes'[x].parent == At(q)
    && HeightFixed(nodes', x) && HeightFixed(nodes', nodes[x].left.id) && HeightFixed(nodes', q)
    && (forall j :: j in nodes && j != x && j != nodes[x].left.id && j != q ==> nodes'[j].height == nodes[j].height)
  }

  /** The rotation `rebalance` picks at a tall node `x` with a right child
      `p`: left when `p` does not lean left (its right child is at least as
      high as its left child), right-left otherwise. */
  ghost predicate TallRotated<V>(t: Shape, nodes: map<nat, AvlNode<V>>, root: Ptr, nextId: nat, x: nat,
                                 t': Shape, nodes': map<nat, AvlNode<V>>, root': Ptr)
  {
    && Intact(t, nodes, root, nextId) && x in nodes && nodes[x].right.At?
    && var p := nodes[x].right.id;
    && p in nodes && Known(nodes[p].left, nodes) && Known(nodes[p].right, nodes) && HeightsOk(nodes)
    && if GetHeight(nodes, nodes[p].right) >= GetHeight(nodes, nodes[p].left)
       then RotatedLeftAt(t, nodes, root, nextId, x, t', nodes', root')
       else RotatedRightLeftAt(t, nodes, root, nextId, x, t', nodes', root')
  }

  /** In rotateRightLeft the right child `c` of `x` keeps the height the inner
      right rotation gave it, and no node other than `x`, `c` and their new
      parent `q` gets a new stored height. */
  lemma RightLeftHeights<V>(t: Shape, nodes: map<nat, AvlNode<V>>, root: Ptr, nextId: nat, x: nat,
                            t1: Shape, m1: map<nat, AvlNode<V>>, r1: Ptr,
                            t': Shape, m: map<nat, AvlNode<V>>, r: Ptr)
    requires Intact(t, nodes, root, nextId) && x in nodes && nodes[x].right.At?
    requires RotatedRightAt(t, nodes, root, nextId, nodes[x].right.id, t1, m1, r1)
    requires RotatedLeftAt(t1, m1, r1, nextId, x, t', m, r)
    ensures var c := nodes[x].right.id;
      && c in nodes && nodes[c].left.At? && HeightFixed(m, c)
      && forall j :: j in nodes && j != x && j != c && j != nodes[c].left.id ==> m[j].height == nodes[j].height
  {
    var c := nodes[x].right.id;
    var q := nodes[c].left.id;
    LinksConsistent(t, nodes, root, x);
    LinksConsistent(t, nodes, root, c);
    NodeView(t, nodes, x);
    NodeView(t, nodes, c);
    SubDistinct(t, c);
    DistinctNode(Sub(t, c).left, c, Sub(t, c).right);
    RightRotatedHeights(Sub(t, c), At(x), nodes, m1);
    assert m1[x] == SlotTo(nodes[x], c, At(q));
    assert m1[x].right == At(q) && m1[x].parent == nodes[x].parent;
    LeftRotatedHeights(Sub(t1, x), m1[x].parent, m1, m);
    NodeView(t1, m1, x);
    assert Sub(t1, x).right.id == q;
    // c is neither the parent of x nor a link `rotateLeft(x)` rewrites.
    if x != t.id {
      ParentLink(t, nodes, x);
      SubSub(t, x, c);
    }
    LinksConsistent(t1, m1, r1, c);
    LinksConsistent(t1, m1, r1, q);
    NodeView(t1, m1, q);
    assert m[c] == m1[c];
    LinksConsistent(t1, m1, r1, x);
    assert m1[c].left != At(x) && m1[c].left != At(q) && m1[c].right != At(x) && m1[c].right != At(q);
    HeightCarried(m1, m, c);
  }

  /** In rotateLeftRight the left child `c` of `x` keeps the height the inner
      left rotation gave it, and no node other than `x`, `c` and their new
      parent `q` gets a new stored height. */
  lemma LeftRightHeights<V>(t: Shape, nodes: map<nat, AvlNode<V>>, root: Ptr, nextId: nat, x: nat,
                            t1: Shape, m1: map<nat, AvlNode<V>>, r1: Ptr,
                            t': Shape, m: map<nat, AvlNode<V>>, r: Ptr)
    requires Intact(t, nodes, root, nextId) && x in nodes && nodes[x].left.At?
    requires RotatedLeftAt(t, nodes, root, nextId, nodes[x].left.id, t1, m1, r1)
    requires RotatedRightAt(t1, m1, r1, nextId, x, t', m, r)
    ensures var c := nodes[x].left.id;
      && c in nodes && nodes[c].right.At? && HeightFixed(m, c)
      && forall j :: j in nodes && j != x && j != c && j != nodes[c].right.id ==> m[j].height == nodes[j].height
  {
    var c := nodes[x].left.id;
    var q := nodes[c].right.id;
    LinksConsistent(t, nodes, root, x);
    LinksConsistent(t, nodes, root, c);
    NodeView(t, nodes, x);
    NodeView(t, nodes, c);
    SubDistinct(t, c);
    DistinctNode(Sub(t, c).left, c, Sub(t, c).right);
    LeftRotatedHeights(Sub(t, c), At(x), nodes, m1);
    assert m1[x] == SlotTo(nodes[x], c, At(q));
    assert m1[x].left == At(q) && m1[x].parent == nodes[x].parent;
    RightRotatedHeights(Sub(t1, x), m1[x].parent, m1, m);
    NodeView(t1, m1, x);
    assert Sub(t1, x).left.id == q;
    // c is neither the parent of x nor a link `rotateRight(x)` rewrites.
    if x != t.id {
      ParentLink(t, nodes, x);
      SubSub(t, x, c);
    }
    LinksConsistent(t1, m1, r1, c);
    LinksConsistent(t1, m1, r1, q);
    NodeView(t1, m1, q);
    assert m[c] == m1[c];
    LinksConsistent(t1, m1, r1, x);
    assert m1[c].left != At(x) && m1[c].left != At(q) && m1[c].right != At(x) && m1[c].right != At(q);
    HeightCarried(m1, m, c);
  }

  /** rotateRightLeft(x): rotateRight at the right child of `x`, then rotateLeft at `x`. */
  method RotateRightLeft<V>(nodes: map<nat, AvlNode<V>>, root: Ptr, x: nat, ghost t: Shape, ghost nextId: nat)
      returns (m: map<nat, AvlNode<V>>, r: Ptr, ghost t': Shape)
    requires Intact(t, nodes, root, nextId) && x in nodes && nodes[x].right.At?
    requires nodes[x].right.id in nodes && nodes[nodes[x].right.id].left.At?
    ensures RotatedRightLeftAt(t, nodes, root, nextId, x, t', m, r)
    ensures m.Keys == nodes.Keys && m[x].parent == nodes[nodes[x].right.id].left
    ensures r == (if nodes[x].parent == Null then nodes[nodes[x].right.id].left else root)
  {
    RotLSetting(t, nodes, root, x);
    LinksConsistent(t, nodes, root, x);
    RightLeftShape(t, x);
    var m1, r1, t1 := RotateRight(nodes, root, nodes[x].right.id, t, nextId);
    m, r, t' := RotateLeft(m1, r1, x, t1, nextId);
    RightLeftHeights(t, nodes, root, nextId, x, t1, m1, r1, t', m, r);
  }

  /** rotateLeftRight(x): rotateLeft at the left child of `x`, then rotateRight at `x`. */
  method RotateLeftRight<V>(nodes: map<nat, AvlNode<V>>, root: Ptr, x: nat, ghost t: Shape, ghost nextId: nat)
      returns (m: map<nat, AvlNode<V>>, r: Ptr, ghost t': Shape)
    requires Intact(t, nodes, root, nextId) && x in nodes && nodes[x].left.At?
    requires nodes[x].left.id in nodes && nodes[nodes[x].left.id].right.At?
    ensures RotatedLeftRightAt(t, nodes, root, nextId, x, t', m, r)
    ensures m.Keys == nodes.Keys && m[x].parent == nodes[nodes[x].left.id].right
    ensures r == (if nodes[x].parent == Null then nodes[nodes[x].left.id].right else root)
  {
    RotRSetting(t, nodes, root, x);
    LinksConsistent(t, nodes, root, x);
    LeftRightShape(t, x);
    var m1, r1, t1 := RotateLeft(nodes, root, nodes[x].left.id, t, nextId);
    m, r, t' := RotateRight(m1, r1, x, t1, nextId);
    LeftRightHeights(t, nodes, root, nextId, x, t1, m1, r1, t', m, r);
  }

  /** How far the walk of `rebalance` still has to climb from `cursor`: the
      nodes of `t` outside the subtree of `cursor` (one more above the root). */
  ghost function Climb(t: Shape, cursor: Ptr): int
  {
    if cursor == Null then 0 else |Seq(t)| + 1 - |Seq(Sub(t, cursor.id))|
  }

  /** The size of the right subtree below `cursor`, which shrinks each time
      `rebalance` rotates at `cursor` and steps to the new subtree root. */
  ghost function Lean(t: Shape, cursor: Ptr): nat
  {
    if cursor == Null then 0
    else match Sub(t, cursor.id)
      case Leaf => 0
      case Node(_, _, r) => |Seq(r)|
  }

  /** After a left rotation at `n` the walk goes on at the pivot `p`: it has as
      far to climb as before, and leans less to the right. */
  lemma RotLClimb(t: Shape, n: nat, t2: Shape, p: nat)
    requires Sub(t, n).Node? && Sub(t, n).right.Node? && Sub(t, n).id == n
    requires Seq(t2) == Seq(t) && Sub(t2, p) == RotL(Sub(t, n))
    ensures Climb(t2, At(p)) == Climb(t, At(n)) && Lean(t2, At(p)) < Lean(t, At(n))
  {
    RotationsKeepSeq(Sub(t, n));
  }

  /** After a right-left rotation at `n` the walk goes on at the new subtree
      root `q`: it has as far to climb as before, and leans less to the right. */
  lemma RotRLClimb(t: Shape, n: nat, t2: Shape, q: nat)
    requires Sub(t, n).Node? && Sub(t, n).right.Node? && Sub(t, n).right.left.Node? && Sub(t, n).id == n
    requires Seq(t2) == Seq(t) && Sub(t2, q) == RotRL(Sub(t, n))
    ensures Climb(t2, At(q)) == Climb(t, At(n)) && Lean(t2, At(q)) < Lean(t, At(n))
  {
    RotRLSizes(Sub(t, n));
  }

  lemma RotRLSizes(S: Shape)
    requires S.Node? && S.right.Node? && S.right.left.Node?
    ensures |Seq(RotRL(S))| == |Seq(S)| && RotRL(S).Node? && |Seq(RotRL(S).right)| < |Seq(S.right)|
  {
    var a, b1, b2, c := S.left, S.right.left.left, S.right.left.right, S.right.right;
    assert RotRL(S) == Node(Node(a, S.id, b1), S.right.left.id, Node(b2, S.right.id, c));
    assert |Seq(S.right)| == |Seq(b1)| + |Seq(b2)| + |Seq(c)| + 2;
    DoubleRotationsKeepSeq(S);
  }

  /** rebalance(node): from `node` up to the root, recompute each node's stored
      height and read it back as `balance`.  Heights are never negative, so
      the left-heavy branch cannot be taken; a node of height above 1 is
      rotated left (or right-left when its right child leans left), which
      needs a right child: without one, the walk stops with `NullPivot`,
      where the source dereferences a null pointer.  The walk keeps the arena
      sound and the entries in order. */
  method Rebalance<V>(nodes: map<nat, AvlNode<V>>, root: Ptr, node: Ptr, ghost t: Shape, ghost nextId: nat)
      returns (m: map<nat, AvlNode<V>>, r: Ptr, ghost t': Shape, outcome: Outcome)
    requires Intact(t, nodes, root, nextId) && Known(node, nodes)
    ensures Intact(t', m, r, nextId) && InOrder(t', m) == InOrder(t, nodes)
    ensures Seq(t') == Seq(t) && m.Keys == nodes.Keys
    ensures outcome.NullPivot? ==>
      && HeightFixed(m, outcome.at) && m[outcome.at].height > 1 && m[outcome.at].right == Null
    ensures outcome == Completed && node.At? ==> r.At? && HeightFixed(m, r.id) && m[r.id].height <= 1
    ensures outcome == Completed && StalePath(t, nodes, node) ==> HeightsTrue(t', m)
    ensures outcome == Completed && node.At? && StalePath(t, nodes, node) ==> Tall(t') <= 1
  {
    m, r, t' := nodes, root, t;
    var cursor := node;
    ghost var stale := StalePath(t, nodes, node);
    if cursor.At? {
      ParentWeight(t', m, cursor.id);
    }
    while cursor != Null
      invariant Intact(t', m, r, nextId) && InOrder(t', m) == InOrder(t, nodes)
      invariant Seq(t') == Seq(t) && m.Keys == nodes.Keys && Known(cursor, m)
      invariant cursor.At? ==> |Seq(Sub(t', cursor.id))| <= |Seq(t')|
      invariant stale ==> StalePath(t', m, cursor)
      invariant cursor == Null && node.At? ==> r.At? && HeightFixed(m, r.id) && m[r.id].height <= 1
      decreases Climb(t', cursor), Lean(t', cursor)
    {
      var n := cursor.id;
      var pivotless;
      m, r, t', cursor, pivotless := Retrace(m, r, n, t', nextId, stale);
      if pivotless {
        return m, r, t', NullPivot(n);
      }
    }
    outcome := Completed;
    if stale && node.At? {
      assert m[r.id].height == Tall(t');
    }
  }

  /** One step of the walk of `rebalance` at node `n`: its height is
      recomputed; a node of height above 1 is rotated (`pivotless` when it
      has no right child to rotate about), and `next` is where the walk goes
      on: the pivot or new subtree root after a rotation, else the parent.
      The walk gets closer to the root, or stays as high and leans less. */
  method Retrace<V>(nodes: map<nat, AvlNode<V>>, root: Ptr, n: nat, ghost t: Shape, ghost nextId: nat, ghost stale: bool)
      returns (m: map<nat, AvlNode<V>>, r: Ptr, ghost t': Shape, next: Ptr, pivotless: bool)
    requires Intact(t, nodes, root, nextId) && n in nodes
    requires stale ==> StaleFrom(t, nodes, n)
    ensures Intact(t', m, r, nextId) && InOrder(t', m) == InOrder(t, nodes)
    ensures Seq(t') == Seq(t) && m.Keys == nodes.Keys
    ensures pivotless ==> HeightFixed(m, n) && m[n].height > 1 && m[n].right == Null
    ensures !pivotless ==> Known(next, m) && (next.At? ==> |Seq(Sub(t', next.id))| <= |Seq(t')|)
    ensures !pivotless ==>
      || Climb(t', next) < Climb(t, At(n))
      || (Climb(t', next) == Climb(t, At(n)) && Lean(t', next) < Lean(t, At(n)))
    ensures !pivotless && stale ==> StalePath(t', m, next)
    ensures !pivotless && next == Null ==> r.At? && HeightFixed(m, r.id) && m[r.id].height <= 1
    ensures HeightsOk(nodes) && Known(nodes[n].left, nodes) && Known(nodes[n].right, nodes)
    ensures var h := Max(GetHeight(nodes, nodes[n].left), GetHeight(nodes, nodes[n].right)) + 1;
      h <= 1 ==>
        && !pivotless && m == nodes[n := nodes[n].(height := h)]
        && r == root && t' == t && next == nodes[n].parent
    ensures var h := Max(GetHeight(nodes, nodes[n].left), GetHeight(nodes, nodes[n].right)) + 1;
      h > 1 ==>
        && (pivotless <==> nodes[n].right == Null)
        && (pivotless ==> m == nodes[n := nodes[n].(height := h)] && r == root && t' == t)
        && (!pivotless ==> next == m[n].parent && TallRotated(t, nodes[n := nodes[n].(height := h)], root, nextId, n, t', m, r))
  {
    t' := t;
    Fixable(t, nodes, root, nextId, n);
    ghost var h := Max(GetHeight(nodes, nodes[n].left), GetHeight(nodes, nodes[n].right)) + 1;
    m := UpdateHeight(nodes, n);
    assert m == nodes[n := nodes[n].(height := h)] by {
      assert GetHeight(m, m[n].left) == GetHeight(nodes, nodes[n].left);
      assert GetHeight(m, m[n].right) == GetHeight(nodes, nodes[n].right);
    }
    Reheighted(t, nodes, root, nextId, n, m[n].height);
    if stale {
      StaleFix(t, nodes, m, n);
    }
    r, pivotless := root, false;
    var balance := m[n].height;
    NodeView(t, m, n);
    if balance < -1 {
      assert false;
    } else if balance > 1 {
      m, r, t', pivotless := RotateTall(m, r, n, t, nextId, stale);
      if pivotless {
        return m, r, t', Null, true;
      }
      next := m[n].parent;
      return;
    } else {
      ParentWeight(t, m, n);
      LinksConsistent(t, m, r, n);
      if stale {
        StepUp(t, m, r, n);
      }
    }
    next := m[n].parent;
    if next.At? {
      ParentWeight(t', m, next.id);
    }
  }

  /** The rotations of `rebalance` at a node `n` of height above 1: left when
      its right child does not lean left, right-left otherwise, and none
      (`pivotless`) when there is no right child.  After a rotation `n` hangs
      below the new subtree root, where the walk goes on. */
  method RotateTall<V>(nodes: map<nat, AvlNode<V>>, root: Ptr, n: nat, ghost t: Shape, ghost nextId: nat, ghost stale: bool)
      returns (m: map<nat, AvlNode<V>>, r: Ptr, ghost t': Shape, pivotless: bool)
    requires Intact(t, nodes, root, nextId) && n in nodes && HeightFixed(nodes, n) && nodes[n].height > 1
    requires stale ==> StaleFrom(t, nodes, n) && HeightsTrue(Sub(t, n), nodes)
    ensures Intact(t', m, r, nextId) && InOrder(t', m) == InOrder(t, nodes)
    ensures Seq(t') == Seq(t) && m.Keys == nodes.Keys
    ensures pivotless <==> nodes[n].right == Null
    ensures pivotless ==> m == nodes && r == root && t' == t
    ensures !pivotless ==>
      && m[n].parent.At? && |Seq(Sub(t', m[n].parent.id))| <= |Seq(t')|
      && Climb(t', m[n].parent) == Climb(t, At(n)) && Lean(t', m[n].parent) < Lean(t, At(n))
    ensures !pivotless && stale ==> StaleFrom(t', m, m[n].parent.id)
    ensures !pivotless ==> TallRotated(t, nodes, root, nextId, n, t', m, r)
  {
    m, r, t', pivotless := nodes, root, t, false;
    if m[n].right == Null {
      return m, r, t', true;
    }
    NodeView(t, m, n);
    var pivot := m[n].right.id;
    if GetHeight(m, m[pivot].right) >= GetHeight(m, m[pivot].left) {
      m, r, t' := RotateLeft(m, r, n, t, nextId);
      RotLClimb(t, n, t', pivot);
      ParentWeight(t', m, pivot);
      if stale {
        LeftStale(t, nodes, root, nextId, n, t', m, r);
      }
    } else {
      ghost var q := m[pivot].left.id;
      m, r, t' := RotateRightLeft(m, r, n, t, nextId);
      RotRLClimb(t, n, t', q);
      ParentWeight(t', m, q);
      if stale {
        RightLeftStale(t, nodes, root, nextId, n, t', m, r);
      }
    }
  }

  /** After `rotateLeft(n)` of a subtree whose stored heights are true, with
      only the heights above `n` stale, the walk goes on at the pivot with
      only the heights from the pivot up stale. */
  lemma LeftStale<V>(t: Shape, m: map<nat, AvlNode<V>>, root: Ptr, nextId: nat, n: nat,
                     t2: Shape, m2: map<nat, AvlNode<V>>, r2: Ptr)
    requires RotatedLeftAt(t, m, root, nextId, n, t2, m2, r2)
    requires StaleFrom(t, m, n) && HeightsTrue(Sub(t, n), m)
    ensures StaleFrom(t2, m2, m[n].right.id)
  {
    var S, p := Sub(t, n), m[n].right.id;
    NodeView(t, m, n);
    LeftRotatedHeights(S, m[n].parent, m, m2);
    SubShaped(t2, m2, p);
    RotLStale(t, m, n, t2, m2);
  }

  /** After `rotateRightLeft(n)` of a subtree whose stored heights are true,
      with only the heights above `n` stale, the walk goes on at the new
      subtree root `q` with only the heights from `q` up stale. */
  lemma RightLeftStale<V>(t: Shape, m: map<nat, AvlNode<V>>, root: Ptr, nextId: nat, n: nat,
                          t2: Shape, m2: map<nat, AvlNode<V>>, r2: Ptr)
    requires RotatedRightLeftAt(t, m, root, nextId, n, t2, m2, r2)
    requires StaleFrom(t, m, n) && HeightsTrue(Sub(t, n), m)
    ensures StaleFrom(t2, m2, m[m[n].right.id].left.id)
  {
    var S, c := Sub(t, n), m[n].right.id;
    NodeView(t, m, n);
    DescendRight(t, n);
    NodeView(t, m, c);
    assert S.right.left.id == m[c].left.id;
    SubShaped(t2, m2, m[c].left.id);
    RotRLStale(t, m, n, t2, m2);
  }
}
