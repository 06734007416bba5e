/** The pointer surgery of avlbst.h, one lemma per kind of rewiring: which
    links a rotation, a leaf insertion or a splice leaves behind, and that they
    draw the expected tree again. */
module Rewiring {
  import opened Shapes
  import opened Arena

  /** Updating a node outside a subtree leaves the subtree's drawing intact. */
  lemma {:induction false} ShapedPut<V>(u: Shape, nodes: map<nat, AvlNode<V>>, k: nat, n: AvlNode<V>)
    requires Shaped(u, nodes) && k !in Ids(u)
    ensures Shaped(u, nodes[k := n])
  {
    match u
    case Leaf =>
    case Node(l, i, r) =>
      ShapedPut(l, nodes, k, n);
      ShapedPut(r, nodes, k, n);
  }

  /** Giving the root of a subtree a new parent leaves the subtree's drawing intact. */
  lemma ShapedReparent<V>(u: Shape, nodes: map<nat, AvlNode<V>>, par: Ptr)
    requires Shaped(u, nodes) && Distinct(u) && u.Node?
    ensures Shaped(u, nodes[u.id := nodes[u.id].(parent := par)])
  {
    DistinctNode(u.left, u.id, u.right);
    ShapedPut(u.left, nodes, u.id, nodes[u.id].(parent := par));
    ShapedPut(u.right, nodes, u.id, nodes[u.id].(parent := par));
  }

  /** `m` with the node at `k` replaced by `n`; unchanged when `k` is null. */
  function PutAt<V>(m: map<nat, AvlNode<V>>, k: Ptr, n: AvlNode<V>): map<nat, AvlNode<V>>
  {
    if k.At? then m[k.id := n] else m
  }

  lemma ShapedPutAt<V>(u: Shape, nodes: map<nat, AvlNode<V>>, k: Ptr, n: AvlNode<V>)
    requires Shaped(u, nodes) && (k.At? ==> k.id !in Ids(u))
    ensures Shaped(u, PutAt(nodes, k, n))
  {
    if k.At? {
      ShapedPut(u, nodes, k.id, n);
    }
  }

  /** The parent's side of a rotation or a splice: whichever slot held `x`
      now holds `p`. */
  function SlotTo<V>(n: AvlNode<V>, x: nat, p: Ptr): AvlNode<V>
  {
    if n.left == At(x) then n.(left := p) else n.(right := p)
  }

  /** The links `rotateLeft` leaves at the root `x` of `s`: the pivot `p` (right
      child of `x`) hangs from `q`, the old parent of `x`, and has `x` as its left
      child; `x` takes over the pivot's former left child `b`; besides the
      parent `q`, no other node changes, and only `x` and `p` may have new
      stored heights. */
  ghost predicate LeftRotated<V>(s: Shape, q: Ptr, nodes: map<nat, AvlNode<V>>, nodes': map<nat, AvlNode<V>>)
  {
    s.Node? && s.right.Node? &&
    var x, p, b := s.id, s.right.id, RootPtr(s.right.left);
    && x in nodes && p in nodes && nodes'.Keys == nodes.Keys
    && nodes'[x] == nodes[x].(right := b, parent := At(p), height := nodes'[x].height)
    && nodes'[p] == nodes[p].(left := At(x), parent := q, height := nodes'[p].height)
    && (b.At? ==> b.id in nodes && nodes'[b.id] == nodes[b.id].(parent := At(x)))
    && (q.At? ==> q.id in nodes && nodes'[q.id] == SlotTo(nodes[q.id], x, At(p)))
    && HeightsOk(nodes')
    && (forall j :: j in nodes && j != x && j != p && At(j) != b && At(j) != q ==> nodes'[j] == nodes[j])
  }

  /** Only `x` and the pivot may get new stored heights in a left rotation. */
  lemma LeftRotatedHeights<V>(s: Shape, q: Ptr, nodes: map<nat, AvlNode<V>>, nodes': map<nat, AvlNode<V>>)
    requires LeftRotated(s, q, nodes, nodes')
    ensures forall j :: j in nodes && j != s.id && j != s.right.id ==> nodes'[j].height == nodes[j].height
  {
  }

  /** The three subtrees a left rotation moves keep their drawings, and the
      rotated subtree is drawn. */
  lemma RotLDrawn<V>(s: Shape, q: Ptr, nodes: map<nat, AvlNode<V>>, nodes': map<nat, AvlNode<V>>)
    requires s.Node? && s.right.Node? && Shaped(s, nodes) && Distinct(s)
    requires q.At? ==> q.id !in Ids(s) && q.id in nodes
    requires LeftRotated(s, q, nodes, nodes')
    ensures Shaped(RotL(s), nodes') && ParentIs(RotL(s), q, nodes')
  {
    var a, x, p, b, c := s.left, s.id, s.right.id, s.right.left, s.right.right;
    DistinctNode(a, x, s.right);
    DistinctNode(b, p, c);
    var m1 := nodes[x := nodes'[x]];
    var m2 := PutAt(m1, RootPtr(b), if b.Node? then nodes'[b.id] else nodes'[x]);
    var m3 := m2[p := nodes'[p]];
    LeftRotatedMap(s, q, nodes, nodes');
    ShapedPut(a, nodes, x, nodes'[x]);
    ShapedPutAt(a, m1, RootPtr(b), if b.Node? then nodes'[b.id] else nodes'[x]);
    ShapedPut(a, m2, p, nodes'[p]);
    ShapedPutAt(a, m3, q, if q.At? then nodes'[q.id] else nodes'[x]);
    ShapedPut(c, nodes, x, nodes'[x]);
    ShapedPutAt(c, m1, RootPtr(b), if b.Node? then nodes'[b.id] else nodes'[x]);
    ShapedPut(c, m2, p, nodes'[p]);
    ShapedPutAt(c, m3, q, if q.At? then nodes'[q.id] else nodes'[x]);
    ShapedPut(b, nodes, x, nodes'[x]);
    if b.Node? {
      ShapedReparent(b, m1, At(x));
    }
    ShapedPut(b, m2, p, nodes'[p]);
    ShapedPutAt(b, m3, q, if q.At? then nodes'[q.id] else nodes'[x]);
    assert Shaped(Node(a, x, b), nodes');
  }

  /** The arena after a left rotation is the old one with four nodes replaced. */
  lemma LeftRotatedMap<V>(s: Shape, q: Ptr, nodes: map<nat, AvlNode<V>>, nodes': map<nat, AvlNode<V>>)
    requires s.Node? && s.right.Node?
    requires q.At? ==> q.id in nodes
    requires LeftRotated(s, q, nodes, nodes')
    ensures var x, p, b := s.id, s.right.id, RootPtr(s.right.left);
      nodes' == PutAt(PutAt(nodes[x := nodes'[x]], b, if b.At? then nodes'[b.id] else nodes'[x])[p := nodes'[p]],
                      q, if q.At? then nodes'[q.id] else nodes'[x])
  {
  }

  /** Where the pointers of a linked arena lead around a node `x` with a right
      child `p`: `p` is the root of the right subtree of `x`, the inner child `b`
      of `p` the root of its left subtree, and `x`, `p`, `b`, the left child of
      `x` and the parent of `x` are different nodes. */
  lemma RotLSetting<V>(t: Shape, nodes: map<nat, AvlNode<V>>, root: Ptr, x: nat)
    requires Linked(t, nodes, root) && x in nodes && nodes[x].right.At?
    ensures x in Ids(t) && Sub(t, x).Node? && Sub(t, x).id == x && Sub(t, x).right.Node?
    ensures nodes[x].right.id == Sub(t, x).right.id && nodes[x].right.id in nodes
    ensures nodes[x].right.id != x
    ensures nodes[nodes[x].right.id].left == RootPtr(Sub(t, x).right.left)
    ensures var b := nodes[nodes[x].right.id].left;
      b.At? ==> b.id in nodes && b.id != x && b.id != nodes[x].right.id
    ensures nodes[x].left.At? ==> nodes[x].left.id != nodes[x].right.id
    ensures var q := nodes[x].parent;
      q.At? ==> && q.id in nodes && q.id != x && q.id != nodes[x].right.id
                && q != nodes[nodes[x].right.id].left
  {
    var S := Sub(t, x);
    NodeView(t, nodes, x);
    SubDistinct(t, x);
    SubShaped(t, nodes, x);
    NearIds(S);
    DistinctNode(S.left, x, S.right);
    DistinctNode(S.right.left, S.right.id, S.right.right);
    if x != t.id {
      ParentLink(t, nodes, x);
    }
    LinksConsistent(t, nodes, root, x);
  }

  /** The pointer updates of rotateLeft, in the source's order, on the arena:
      returns the new arena and the new root. */
  method LinkLeft<V>(nodes: map<nat, AvlNode<V>>, root: Ptr, x: nat, ghost s: Shape)
      returns (m: map<nat, AvlNode<V>>, newRoot: Ptr)
    requires s.Node? && s.id == x && s.right.Node? && x in nodes
    requires nodes[x].right == At(s.right.id) && s.right.id in nodes && s.right.id != x
    requires nodes[s.right.id].left == RootPtr(s.right.left)
    requires var b := nodes[s.right.id].left;
      b.At? ==> b.id in nodes && b.id != x && b.id != s.right.id
    requires var q := nodes[x].parent;
      q.At? ==> && q.id in nodes && q.id != x && q.id != s.right.id
                && q != nodes[s.right.id].left
    requires HeightsOk(nodes)
    ensures LeftRotated(s, nodes[x].parent, nodes, m) && m[x].height == nodes[x].height
    ensures newRoot == if nodes[x].parent == Null then At(s.right.id) else root
  {
    m := nodes;
    newRoot := root;
    var pivot := m[x].right.id;
    var parent := m[x].parent;
    m := m[x := m[x].(right := m[pivot].left)];
    if m[pivot].left != Null {
      var inner := m[pivot].left.id;
      m := m[inner := m[inner].(parent := At(x))];
    }
    m := m[pivot := m[pivot].(left := At(x))];
    m := m[x := m[x].(parent := At(pivot))];
    if parent == Null {
      newRoot := At(pivot);
    } else if At(x) == m[parent.id].left {
      m := m[parent.id := m[parent.id].(left := At(pivot))];
    } else {
      m := m[parent.id := m[parent.id].(right := At(pivot))];
    }
    m := m[pivot := m[pivot].(parent := parent)];
  }

  /** Recomputing the heights of `x` and then of its new parent `p` after a
      left rotation leaves both heights fixed, and changes nothing else. */
  lemma RotLHeights<V>(s: Shape, q: Ptr, nodes: map<nat, AvlNode<V>>, m: map<nat, AvlNode<V>>,
                       n1: map<nat, AvlNode<V>>, n2: map<nat, AvlNode<V>>)
    requires s.Node? && s.right.Node? && s.id != s.right.id
    requires RootPtr(s.right.left) != At(s.right.id)
    requires s.id in nodes && nodes[s.id].left != At(s.right.id)
    requires LeftRotated(s, q, nodes, m) && m[s.id].height == nodes[s.id].height
    requires s.id in n1 && n1 == m[s.id := m[s.id].(height := n1[s.id].height)] && HeightFixed(n1, s.id)
    requires s.right.id in n2 && n2 == n1[s.right.id := n1[s.right.id].(height := n2[s.right.id].height)]
    requires HeightFixed(n2, s.right.id)
    ensures HeightFixed(n2, s.id) && HeightFixed(n2, s.right.id)
    ensures LeftRotated(s, q, nodes, n2)
  {
    HeightStaysFixed(n1, s.id, s.right.id, n2[s.right.id].height);
  }

  /** A left rotation keeps the whole arena sound and its entries in order. */
  lemma RotLKept<V>(t: Shape, nodes: map<nat, AvlNode<V>>, root: Ptr, nextId: nat, x: nat,
                      nodes': map<nat, AvlNode<V>>, root': Ptr)
    requires Intact(t, nodes, root, nextId) && x in Ids(t) && Sub(t, x).Node? && Sub(t, x).right.Node?
    requires LeftRotated(Sub(t, x), nodes[x].parent, nodes, nodes')
    requires root' == if nodes[x].parent == Null then RootPtr(Sub(t, x).right) else root
    ensures Intact(Rewrite(t, x, RotL(Sub(t, x))), nodes', root', nextId)
    ensures InOrder(Rewrite(t, x, RotL(Sub(t, x))), nodes') == InOrder(t, nodes)
    ensures Seq(Rewrite(t, x, RotL(Sub(t, x)))) == Seq(t)
    ensures Sub(Rewrite(t, x, RotL(Sub(t, x))), Sub(t, x).right.id) == RotL(Sub(t, x))
  {
    RotLLinked(t, x, nodes, root, nodes', root');
    Relaid(t, nodes, root, nextId, Rewrite(t, x, RotL(Sub(t, x))), nodes', root');
  }

  /** A left rotation at `x`, linked as `rotateLeft` links it, redraws the
      subtree at `x` as `RotL` of it, keeps the in-order sequence and leaves the
      arena linked. */
  lemma RotLLinked<V>(t: Shape, x: nat, nodes: map<nat, AvlNode<V>>, root: Ptr,
                        nodes': map<nat, AvlNode<V>>, root': Ptr)
    requires Linked(t, nodes, root) && x in Ids(t) && Sub(t, x).Node? && Sub(t, x).right.Node?
    requires LeftRotated(Sub(t, x), nodes[x].parent, nodes, nodes')
    requires root' == if nodes[x].parent == Null then RootPtr(Sub(t, x).right) else root
    ensures Linked(Rewrite(t, x, RotL(Sub(t, x))), nodes', root')
    ensures Seq(Rewrite(t, x, RotL(Sub(t, x)))) == Seq(t)
    ensures Sub(Rewrite(t, x, RotL(Sub(t, x))), Sub(t, x).right.id) == RotL(Sub(t, x))
  {
    Split(t, x);
    SubDistinct(t, x);
    RotationsKeepSeq(Sub(t, x));
    RotatedInPlace(t, x, RotL(Sub(t, x)));
    RotLRewired(t, x, nodes, root, nodes', root');
    Relinked(t, x, RotL(Sub(t, x)), nodes, root, nodes', root');
  }

  lemma RotLRewired<V>(t: Shape, x: nat, nodes: map<nat, AvlNode<V>>, root: Ptr,
                         nodes': map<nat, AvlNode<V>>, root': Ptr)
    requires Linked(t, nodes, root) && x in Ids(t) && Sub(t, x).Node? && Sub(t, x).right.Node?
    requires LeftRotated(Sub(t, x), nodes[x].parent, nodes, nodes')
    requires root' == if nodes[x].parent == Null then RootPtr(Sub(t, x).right) else root
    ensures Rewired(t, x, RotL(Sub(t, x)), nodes, root, nodes', root')
  {
    Split(t, x);
    SubDistinct(t, x);
    SubShaped(t, nodes, x);
    LinksConsistent(t, nodes, root, x);
    if x != t.id {
      ParentLink(t, nodes, x);
    }
    RotLInside(t, x, nodes, nodes');
    RotLOutside(t, x, nodes, root, nodes', root');
  }

  /** The rotated subtree is drawn and holds the same nodes. */
  lemma RotLInside<V>(t: Shape, x: nat, nodes: map<nat, AvlNode<V>>, nodes': map<nat, AvlNode<V>>)
    requires x in nodes && nodes.Keys == Ids(t) && Ids(Sub(t, x)) <= Ids(t)
    requires Sub(t, x).Node? && Sub(t, x).right.Node?
    requires Shaped(Sub(t, x), nodes) && Distinct(Sub(t, x))
    requires nodes[x].parent.At? ==> nodes[x].parent.id !in Ids(Sub(t, x)) && nodes[x].parent.id in nodes
    requires LeftRotated(Sub(t, x), nodes[x].parent, nodes, nodes')
    ensures RewiredInside(t, x, RotL(Sub(t, x)), nodes, nodes')
  {
    RotLDrawn(Sub(t, x), nodes[x].parent, nodes, nodes');
    RotationsKeepSeq(Sub(t, x));
  }

  /** Outside the rotated subtree only the parent's slot, or the root, changes. */
  lemma RotLOutside<V>(t: Shape, x: nat, nodes: map<nat, AvlNode<V>>, root: Ptr,
                         nodes': map<nat, AvlNode<V>>, root': Ptr)
    requires x in nodes && Sub(t, x).Node? && Sub(t, x).id == x && Sub(t, x).right.Node?
    requires nodes[x].parent.At? ==>
      && nodes[x].parent.id in nodes
      && (nodes[nodes[x].parent.id].left == At(x)) != (nodes[nodes[x].parent.id].right == At(x))
    requires LeftRotated(Sub(t, x), nodes[x].parent, nodes, nodes')
    requires root' == if nodes[x].parent == Null then RootPtr(Sub(t, x).right) else root
    ensures RewiredOutside(t, x, RotL(Sub(t, x)), nodes, root, nodes', root')
  {
    var S := Sub(t, x);
    var q := nodes[x].parent;
    NearIds(S);
    RotatedFrame(S, S.right.id, RootPtr(S.right.left), q, nodes, nodes');
    if q.At? {
      SlotRedirect(nodes[q.id], x, RotL(S));
    }
  }

  /** Moving the slot that held `x` to the new subtree root is the redirect of
      exactly that slot, when `x` fills one slot only. */
  lemma SlotRedirect<V>(n: AvlNode<V>, x: nat, s: Shape)
    requires (n.left == At(x)) != (n.right == At(x))
    ensures SlotTo(n, x, RootPtr(s)).left == Redirect(n.left, x, s)
    ensures SlotTo(n, x, RootPtr(s)).right == Redirect(n.right, x, s)
    ensures SlotTo(n, x, RootPtr(s)).parent == n.parent
  {
  }

  /** Outside the rotated subtree only the parent's slot changes. */
  lemma RotatedFrame<V>(s: Shape, p: nat, b: Ptr, q: Ptr, nodes: map<nat, AvlNode<V>>, nodes': map<nat, AvlNode<V>>)
    requires s.Node? && p in Ids(s) && (b.At? ==> b.id in Ids(s))
    requires nodes'.Keys == nodes.Keys
    requires forall j :: j in nodes && j != s.id && j != p && At(j) != b && At(j) != q ==> nodes'[j] == nodes[j]
    ensures forall j :: j in nodes && j !in Ids(s) && At(j) != q ==> j in nodes' && SameLinks(nodes'[j], nodes[j])
  {
  }

  /** The links `rotateRight` leaves at the root `x` of `s`: the pivot `p` (left
      child of `x`) hangs from `q`, the old parent of `x`, and has `x` as its
      right child; `x` takes over the pivot's former right child `b`; besides
      the parent `q`, no other node changes. */
  ghost predicate RightRotated<V>(s: Shape, q: Ptr, nodes: map<nat, AvlNode<V>>, nodes': map<nat, AvlNode<V>>)
  {
    s.Node? && s.left.Node? &&
    var x, p, b := s.id, s.left.id, RootPtr(s.left.right);
    && x in nodes && p in nodes && nodes'.Keys == nodes.Keys
    && nodes'[x] == nodes[x].(left := b, parent := At(p), height := nodes'[x].height)
    && nodes'[p] == nodes[p].(right := At(x), parent := q, height := nodes'[p].height)
    && (b.At? ==> b.id in nodes && nodes'[b.id] == nodes[b.id].(parent := At(x)))
    && (q.At? ==> q.id in nodes && nodes'[q.id] == SlotTo(nodes[q.id], x, At(p)))
    && HeightsOk(nodes')
    && (forall j :: j in nodes && j != x && j != p && At(j) != b && At(j) != q ==> nodes'[j] == nodes[j])
  }

  /** Only `x` and the pivot may get new stored heights in a right rotation. */
  lemma RightRotatedHeights<V>(s: Shape, q: Ptr, nodes: map<nat, AvlNode<V>>, nodes': map<nat, AvlNode<V>>)
    requires RightRotated(s, q, nodes, nodes')
    ensures forall j :: j in nodes && j != s.id && j != s.left.id ==> nodes'[j].height == nodes[j].height
  {
  }

  /** The three subtrees a right rotation moves keep their drawings, and the
      rotated subtree is drawn. */
  lemma RotRDrawn<V>(s: Shape, q: Ptr, nodes: map<nat, AvlNode<V>>, nodes': map<nat, AvlNode<V>>)
    requires s.Node? && s.left.Node? && Shaped(s, nodes) && Distinct(s)
    requires q.At? ==> q.id !in Ids(s) && q.id in nodes
    requires RightRotated(s, q, nodes, nodes')
    ensures Shaped(RotR(s), nodes') && ParentIs(RotR(s), q, nodes')
  {
    var a, p, b, x, c := s.left.left, s.left.id, s.left.right, s.id, s.right;
    DistinctNode(s.left, x, c);
    DistinctNode(a, p, b);
    var m1 := nodes[x := nodes'[x]];
    var m2 := PutAt(m1, RootPtr(b), if b.Node? then nodes'[b.id] else nodes'[x]);
    var m3 := m2[p := nodes'[p]];
    RightRotatedMap(s, q, nodes, nodes');
    ShapedPut(a, nodes, x, nodes'[x]);
    ShapedPutAt(a, m1, RootPtr(b), if b.Node? then nodes'[b.id] else nodes'[x]);
    ShapedPut(a, m2, p, nodes'[p]);
    ShapedPutAt(a, m3, q, if q.At? then nodes'[q.id] else nodes'[x]);
    ShapedPut(c, nodes, x, nodes'[x]);
    ShapedPutAt(c, m1, RootPtr(b), if b.Node? then nodes'[b.id] else nodes'[x]);
    ShapedPut(c, m2, p, nodes'[p]);
    ShapedPutAt(c, m3, q, if q.At? then nodes'[q.id] else nodes'[x]);
    ShapedPut(b, nodes, x, nodes'[x]);
    if b.Node? {
      ShapedReparent(b, m1, At(x));
    }
    ShapedPut(b, m2, p, nodes'[p]);
    ShapedPutAt(b, m3, q, if q.At? then nodes'[q.id] else nodes'[x]);
    assert Shaped(Node(b, x, c), nodes');
  }

  /** The arena after a right rotation is the old one with four nodes replaced. */
  lemma RightRotatedMap<V>(s: Shape, q: Ptr, nodes: map<nat, AvlNode<V>>, nodes': map<nat, AvlNode<V>>)
    requires s.Node? && s.left.Node?
    requires q.At? ==> q.id in nodes
    requires RightRotated(s, q, nodes, nodes')
    ensures var x, p, b := s.id, s.left.id, RootPtr(s.left.right);
      nodes' == PutAt(PutAt(nodes[x := nodes'[x]], b, if b.At? then nodes'[b.id] else nodes'[x])[p := nodes'[p]],
                      q, if q.At? then nodes'[q.id] else nodes'[x])
  {
  }

  /** Where the pointers of a linked arena lead around a node `x` with a left
      child `p`; the mirror image of `RotLSetting`. */
  lemma RotRSetting<V>(t: Shape, nodes: map<nat, AvlNode<V>>, root: Ptr, x: nat)
    requires Linked(t, nodes, root) && x in nodes && nodes[x].left.At?
    ensures x in Ids(t) && Sub(t, x).Node? && Sub(t, x).id == x && Sub(t, x).left.Node?
    ensures nodes[x].left.id == Sub(t, x).left.id && nodes[x].left.id in nodes
    ensures nodes[x].left.id != x
    ensures nodes[nodes[x].left.id].right == RootPtr(Sub(t, x).left.right)
    ensures var b := nodes[nodes[x].left.id].right;
      b.At? ==> b.id in nodes && b.id != x && b.id != nodes[x].left.id
    ensures nodes[x].right.At? ==> nodes[x].right.id != nodes[x].left.id
    ensures var q := nodes[x].parent;
      q.At? ==> && q.id in nodes && q.id != x && q.id != nodes[x].left.id
                && q != nodes[nodes[x].left.id].right
  {
    var S := Sub(t, x);
    NodeView(t, nodes, x);
    SubDistinct(t, x);
    SubShaped(t, nodes, x);
    NearIds(S);
    DistinctNode(S.left, x, S.right);
    DistinctNode(S.left.left, S.left.id, S.left.right);
    if x != t.id {
      ParentLink(t, nodes, x);
    }
    LinksConsistent(t, nodes, root, x);
  }

  /** The pointer updates of rotateRight, in the source's order, on the arena:
      returns the new arena and the new root. */
  method LinkRight<V>(nodes: map<nat, AvlNode<V>>, root: Ptr, x: nat, ghost s: Shape)
      returns (m: map<nat, AvlNode<V>>, newRoot: Ptr)
    requires s.Node? && s.id == x && s.left.Node? && x in nodes
    requires nodes[x].left == At(s.left.id) && s.left.id in nodes && s.left.id != x
    requires nodes[s.left.id].right == RootPtr(s.left.right)
    requires var b := nodes[s.left.id].right;
      b.At? ==> b.id in nodes && b.id != x && b.id != s.left.id
    requires var q := nodes[x].parent;
      q.At? ==> && q.id in nodes && q.id != x && q.id != s.left.id
                && q != nodes[s.left.id].right
    requires HeightsOk(nodes)
    ensures RightRotated(s, nodes[x].parent, nodes, m) && m[x].height == nodes[x].height
    ensures newRoot == if nodes[x].parent == Null then At(s.left.id) else root
  {
    m := nodes;
    newRoot := root;
    var pivot := m[x].left.id;
    var parent := m[x].parent;
    m := m[x := m[x].(left := m[pivot].right)];
    if m[pivot].right != Null {
      var inner := m[pivot].right.id;
      m := m[inner := m[inner].(parent := At(x))];
    }
    m := m[pivot := m[pivot].(right := At(x))];
    m := m[x := m[x].(parent := At(pivot))];
    if parent == Null {
      newRoot := At(pivot);
    } else if At(x) == m[parent.id].left {
      m := m[parent.id := m[parent.id].(left := At(pivot))];
    } else {
      m := m[parent.id := m[parent.id].(right := At(pivot))];
    }
    m := m[pivot := m[pivot].(parent := parent)];
  }

  /** Recomputing the heights of `x` and then of its new parent `p` after a
      right rotation leaves both heights fixed, and changes nothing else. */
  lemma RotRHeights<V>(s: Shape, q: Ptr, nodes: map<nat, AvlNode<V>>, m: map<nat, AvlNode<V>>,
                       n1: map<nat, AvlNode<V>>, n2: map<nat, AvlNode<V>>)
    requires s.Node? && s.left.Node? && s.id != s.left.id
    requires RootPtr(s.left.right) != At(s.left.id)
    requires s.id in nodes && nodes[s.id].right != At(s.left.id)
    requires RightRotated(s, q, nodes, m) && m[s.id].height == nodes[s.id].height
    requires s.id in n1 && n1 == m[s.id := m[s.id].(height := n1[s.id].height)] && HeightFixed(n1, s.id)
    requires s.left.id in n2 && n2 == n1[s.left.id := n1[s.left.id].(height := n2[s.left.id].height)]
    requires HeightFixed(n2, s.left.id)
    ensures HeightFixed(n2, s.id) && HeightFixed(n2, s.left.id)
    ensures RightRotated(s, q, nodes, n2)
  {
    HeightStaysFixed(n1, s.id, s.left.id, n2[s.left.id].height);
  }

  /** A right rotation keeps the whole arena sound and its entries in order. */
  lemma RotRKept<V>(t: Shape, nodes: map<nat, AvlNode<V>>, root: Ptr, nextId: nat, x: nat,
                      nodes': map<nat, AvlNode<V>>, root': Ptr)
    requires Intact(t, nodes, root, nextId) && x in Ids(t) && Sub(t, x).Node? && Sub(t, x).left.Node?
    requires RightRotated(Sub(t, x), nodes[x].parent, nodes, nodes')
    requires root' == if nodes[x].parent == Null then RootPtr(Sub(t, x).left) else root
    ensures Intact(Rewrite(t, x, RotR(Sub(t, x))), nodes', root', nextId)
    ensures InOrder(Rewrite(t, x, RotR(Sub(t, x))), nodes') == InOrder(t, nodes)
    ensures Seq(Rewrite(t, x, RotR(Sub(t, x)))) == Seq(t)
    ensures Sub(Rewrite(t, x, RotR(Sub(t, x))), Sub(t, x).left.id) == RotR(Sub(t, x))
  {
    RotRLinked(t, x, nodes, root, nodes', root');
    Relaid(t, nodes, root, nextId, Rewrite(t, x, RotR(Sub(t, x))), nodes', root');
  }

  /** A right rotation at `x`, linked as `rotateRight` links it, redraws the
      subtree at `x` as `RotR` of it, keeps the in-order sequence and leaves the
      arena linked. */
  lemma RotRLinked<V>(t: Shape, x: nat, nodes: map<nat, AvlNode<V>>, root: Ptr,
                        nodes': map<nat, AvlNode<V>>, root': Ptr)
    requires Linked(t, nodes, root) && x in Ids(t) && Sub(t, x).Node? && Sub(t, x).left.Node?
    requires RightRotated(Sub(t, x), nodes[x].parent, nodes, nodes')
    requires root' == if nodes[x].parent == Null then RootPtr(Sub(t, x).left) else root
    ensures Linked(Rewrite(t, x, RotR(Sub(t, x))), nodes', root')
    ensures Seq(Rewrite(t, x, RotR(Sub(t, x)))) == Seq(t)
    ensures Sub(Rewrite(t, x, RotR(Sub(t, x))), Sub(t, x).left.id) == RotR(Sub(t, x))
  {
    Split(t, x);
    SubDistinct(t, x);
    RotationsKeepSeq(Sub(t, x));
    RotatedInPlace(t, x, RotR(Sub(t, x)));
    RotRRewired(t, x, nodes, root, nodes', root');
    Relinked(t, x, RotR(Sub(t, x)), nodes, root, nodes', root');
  }

  lemma RotRRewired<V>(t: Shape, x: nat, nodes: map<nat, AvlNode<V>>, root: Ptr,
                         nodes': map<nat, AvlNode<V>>, root': Ptr)
    requires Linked(t, nodes, root) && x in Ids(t) && Sub(t, x).Node? && Sub(t, x).left.Node?
    requires RightRotated(Sub(t, x), nodes[x].parent, nodes, nodes')
    requires root' == if nodes[x].parent == Null then RootPtr(Sub(t, x).left) else root
    ensures Rewired(t, x, RotR(Sub(t, x)), nodes, root, nodes', root')
  {
    Split(t, x);
    SubDistinct(t, x);
    SubShaped(t, nodes, x);
    LinksConsistent(t, nodes, root, x);
    if x != t.id {
      ParentLink(t, nodes, x);
    }
    RotRInside(t, x, nodes, nodes');
    RotROutside(t, x, nodes, root, nodes', root');
  }

  lemma RotRInside<V>(t: Shape, x: nat, nodes: map<nat, AvlNode<V>>, nodes': map<nat, AvlNode<V>>)
    requires x in nodes && nodes.Keys == Ids(t) && Ids(Sub(t, x)) <= Ids(t)
    requires Sub(t, x).Node? && Sub(t, x).left.Node?
    requires Shaped(Sub(t, x), nodes) && Distinct(Sub(t, x))
    requires nodes[x].parent.At? ==> nodes[x].parent.id !in Ids(Sub(t, x)) && nodes[x].parent.id in nodes
    requires RightRotated(Sub(t, x), nodes[x].parent, nodes, nodes')
    ensures RewiredInside(t, x, RotR(Sub(t, x)), nodes, nodes')
  {
    RotRDrawn(Sub(t, x), nodes[x].parent, nodes, nodes');
    RotationsKeepSeq(Sub(t, x));
  }

  lemma RotROutside<V>(t: Shape, x: nat, nodes: map<nat, AvlNode<V>>, root: Ptr,
                         nodes': map<nat, AvlNode<V>>, root': Ptr)
    requires x in nodes && Sub(t, x).Node? && Sub(t, x).id == x && Sub(t, x).left.Node?
    requires nodes[x].parent.At? ==>
      && nodes[x].parent.id in nodes
      && (nodes[nodes[x].parent.id].left == At(x)) != (nodes[nodes[x].parent.id].right == At(x))
    requires RightRotated(Sub(t, x), nodes[x].parent, nodes, nodes')
    requires root' == if nodes[x].parent == Null then RootPtr(Sub(t, x).left) else root
    ensures RewiredOutside(t, x, RotR(Sub(t, x)), nodes, root, nodes', root')
  {
    var S := Sub(t, x);
    var q := nodes[x].parent;
    NearIds(S);
    RotatedFrame(S, S.left.id, RootPtr(S.left.right), q, nodes, nodes');
    if q.At? {
      SlotRedirect(nodes[q.id], x, RotR(S));
    }
  }

  /** `n` with its left (or right) child pointer set to `p`. */
  function SetChild<V>(n: AvlNode<V>, toLeft: bool, p: Ptr): AvlNode<V>
  {
    if toLeft then n.(left := p) else n.(right := p)
  }

  /** The links `insert` leaves when it hangs the new node `n` in the empty left
      (or right) slot of `P`: the new node points up to `P`, `P` points down to
      it, and nothing else changes. */
  ghost predicate Attached<V>(P: nat, n: nat, toLeft: bool, nodes: map<nat, AvlNode<V>>, nodes': map<nat, AvlNode<V>>)
  {
    && P in nodes && n !in nodes
    && (if toLeft then nodes[P].left == Null else nodes[P].right == Null)
    && n in nodes' && nodes' == nodes[P := SetChild(nodes[P], toLeft, At(n))][n := nodes'[n]]
    && nodes'[n].parent == At(P) && nodes'[n].left == Null && nodes'[n].right == Null
    && nodes'[n].height >= 0
  }

  /** Hanging a new leaf under `P` redraws the subtree at `P` as `Hang` of it
      and leaves the arena linked under the same root. */
  lemma AttachLinked<V>(t: Shape, P: nat, n: nat, toLeft: bool, nodes: map<nat, AvlNode<V>>, root: Ptr,
                          nodes': map<nat, AvlNode<V>>)
    requires Linked(t, nodes, root) && P in Ids(t)
    requires Attached(P, n, toLeft, nodes, nodes')
    ensures Linked(Rewrite(t, P, Hang(Sub(t, P), n, toLeft)), nodes', root)
  {
    var S := Sub(t, P);
    var s := Hang(S, n, toLeft);
    Split(t, P);
    SubDistinct(t, P);
    NodeView(t, nodes, P);
    HangDistinct(S, n, toLeft, Ids(t));
    RewriteDistinct(t, P, s);
    AttachRewired(t, P, n, toLeft, nodes, root, nodes');
    Relinked(t, P, s, nodes, root, nodes', root);
  }

  /** The new leaf comes just before (or after) the subtree of `P` in the
      in-order sequence. */
  lemma HangSeq(t: Shape, P: nat, n: nat, toLeft: bool)
    requires P in Ids(t) && Sub(t, P).Node?
    requires if toLeft then Sub(t, P).left == Leaf else Sub(t, P).right == Leaf
    ensures Seq(Rewrite(t, P, Hang(Sub(t, P), n, toLeft))) ==
      if toLeft then Before(t, P) + [n] + Seq(Sub(t, P)) + After(t, P)
      else Before(t, P) + Seq(Sub(t, P)) + [n] + After(t, P)
  {
    var S := Sub(t, P);
    HangOrder(S, n, toLeft);
    RewriteSeq(t, P, Hang(S, n, toLeft));
    Flatten(Before(t, P), n, Seq(S), After(t, P));
  }

  lemma Flatten(b: seq<nat>, n: nat, s: seq<nat>, a: seq<nat>)
    ensures b + ([n] + s) + a == b + [n] + s + a
    ensures b + (s + [n]) + a == b + s + [n] + a
  {
  }

  lemma HangOrder(u: Shape, n: nat, toLeft: bool)
    requires u.Node? && if toLeft then u.left == Leaf else u.right == Leaf
    ensures Seq(Hang(u, n, toLeft)) == if toLeft then [n] + Seq(u) else Seq(u) + [n]
  {
  }

  lemma HangDistinct(u: Shape, n: nat, toLeft: bool, ids: set<nat>)
    requires u.Node? && Distinct(u) && Ids(u) <= ids && n !in ids
    requires if toLeft then u.left == Leaf else u.right == Leaf
    ensures Distinct(Hang(u, n, toLeft)) && Ids(Hang(u, n, toLeft)) * ids <= Ids(u)
  {
    DistinctNode(u.left, u.id, u.right);
    if toLeft {
      DistinctNode(Node(Leaf, n, Leaf), u.id, u.right);
    } else {
      DistinctNode(u.left, u.id, Node(Leaf, n, Leaf));
    }
  }

  lemma AttachRewired<V>(t: Shape, P: nat, n: nat, toLeft: bool, nodes: map<nat, AvlNode<V>>, root: Ptr,
                           nodes': map<nat, AvlNode<V>>)
    requires Linked(t, nodes, root) && P in Ids(t)
    requires Attached(P, n, toLeft, nodes, nodes')
    ensures Rewired(t, P, Hang(Sub(t, P), n, toLeft), nodes, root, nodes', root)
  {
    Split(t, P);
    SubDistinct(t, P);
    SubShaped(t, nodes, P);
    LinksConsistent(t, nodes, root, P);
    if P != t.id {
      ParentLink(t, nodes, P);
    }
    AttachInside(t, P, n, toLeft, nodes, nodes');
    AttachOutside(t, P, n, toLeft, nodes, root, nodes');
  }

  lemma AttachInside<V>(t: Shape, P: nat, n: nat, toLeft: bool, nodes: map<nat, AvlNode<V>>, nodes': map<nat, AvlNode<V>>)
    requires Sub(t, P).Node? && Sub(t, P).id == P && Distinct(Sub(t, P))
    requires nodes.Keys == Ids(t) && Ids(Sub(t, P)) <= Ids(t) && HeightsOk(nodes)
    requires Shaped(Sub(t, P), nodes) && ParentIs(Sub(t, P), nodes[P].parent, nodes)
    requires Attached(P, n, toLeft, nodes, nodes')
    ensures RewiredInside(t, P, Hang(Sub(t, P), n, toLeft), nodes, nodes')
  {
    var S := Sub(t, P);
    var m := nodes[P := SetChild(nodes[P], toLeft, At(n))];
    DistinctNode(S.left, P, S.right);
    var kid := if toLeft then S.right else S.left;
    assert kid == S.right || kid == S.left;
    ShapedPut(kid, nodes, P, m[P]);
    ShapedPut(kid, m, n, nodes'[n]);
    if toLeft {
      assert S.left == Leaf;
      assert Shaped(Node(Node(Leaf, n, Leaf), P, S.right), nodes');
    } else {
      assert S.right == Leaf;
      assert Shaped(Node(S.left, P, Node(Leaf, n, Leaf)), nodes');
    }
  }

  lemma AttachOutside<V>(t: Shape, P: nat, n: nat, toLeft: bool, nodes: map<nat, AvlNode<V>>, root: Ptr,
                           nodes': map<nat, AvlNode<V>>)
    requires Attached(P, n, toLeft, nodes, nodes')
    requires Sub(t, P).Node? && Sub(t, P).id == P
    requires nodes[P].parent.At? ==> nodes[P].parent.id in nodes && nodes[P].parent.id != P
    requires nodes[P].parent == Null ==> root == At(P)
    ensures RewiredOutside(t, P, Hang(Sub(t, P), n, toLeft), nodes, root, nodes', root)
  {
  }

  /** Inserting into an empty tree: the new node becomes the root. */
  lemma AttachRoot<V>(n: nat, nodes: map<nat, AvlNode<V>>, root: Ptr, nodes': map<nat, AvlNode<V>>)
    requires Linked(Leaf, nodes, root)
    requires n in nodes' && nodes' == map[n := nodes'[n]]
    requires nodes'[n].parent == Null && nodes'[n].left == Null && nodes'[n].right == Null
    requires nodes'[n].height >= 0
    ensures Linked(Node(Leaf, n, Leaf), nodes', At(n))
  {
  }

  /** The child that takes the place of `d` when `d` is cut out: its left child
      if it has one, else its right child (possibly null). */
  function Heir<V>(n: AvlNode<V>): Ptr
  {
    if n.left != Null then n.left else n.right
  }

  /** The links `remove` leaves when it cuts out `d`, a node with at most one
      child: the child points up to the parent `q` of `d`, `q` points down to
      the child in the slot that held `d` (or the child becomes the root), `d`
      leaves the arena, and nothing else changes. */
  ghost predicate Spliced<V>(d: nat, nodes: map<nat, AvlNode<V>>, nodes': map<nat, AvlNode<V>>)
  {
    && d in nodes && (nodes[d].left == Null || nodes[d].right == Null)
    && var c, q := Heir(nodes[d]), nodes[d].parent;
    && nodes'.Keys == nodes.Keys - {d}
    && (c.At? ==> c.id in nodes && c.id in nodes' && nodes'[c.id] == nodes[c.id].(parent := q))
    && (q.At? ==> q.id in nodes && q.id in nodes' && nodes'[q.id] == SlotTo(nodes[q.id], d, c))
    && (forall j :: j in nodes && j != d && At(j) != c && At(j) != q ==> nodes'[j] == nodes[j])
  }

  /** The splice moves links only: every node left keeps its stored height. */
  lemma SplicedHeights<V>(d: nat, nodes: map<nat, AvlNode<V>>, nodes': map<nat, AvlNode<V>>)
    requires Spliced(d, nodes, nodes')
    ensures forall j :: j in nodes' ==> j in nodes && nodes'[j].height == nodes[j].height
  {
  }

  /** Cutting out `d` redraws its subtree as the subtree of its only child and
      leaves the arena linked. */
  lemma SpliceLinked<V>(t: Shape, d: nat, nodes: map<nat, AvlNode<V>>, root: Ptr,
                          nodes': map<nat, AvlNode<V>>, root': Ptr)
    requires Linked(t, nodes, root) && Spliced(d, nodes, nodes')
    requires root' == if nodes[d].parent == Null then Heir(nodes[d]) else root
    ensures d in Ids(t) && Sub(t, d).Node?
    ensures Sub(t, d).left == Leaf || Sub(t, d).right == Leaf
    ensures Linked(Rewrite(t, d, Kept(Sub(t, d))), nodes', root')
  {
    var S := Sub(t, d);
    Split(t, d);
    SubDistinct(t, d);
    NodeView(t, nodes, d);
    DistinctNode(S.left, d, S.right);
    assert Ids(Kept(S)) <= Ids(S);
    RewriteDistinct(t, d, Kept(S));
    SpliceRewired(t, d, nodes, root, nodes', root');
    Relinked(t, d, Kept(S), nodes, root, nodes', root');
  }

  lemma SpliceRewired<V>(t: Shape, d: nat, nodes: map<nat, AvlNode<V>>, root: Ptr,
                           nodes': map<nat, AvlNode<V>>, root': Ptr)
    requires Linked(t, nodes, root) && Spliced(d, nodes, nodes')
    requires root' == if nodes[d].parent == Null then Heir(nodes[d]) else root
    ensures Rewired(t, d, Kept(Sub(t, d)), nodes, root, nodes', root')
  {
    Split(t, d);
    SubDistinct(t, d);
    SubShaped(t, nodes, d);
    NodeView(t, nodes, d);
    NearIds(Sub(t, d));
    LinksConsistent(t, nodes, root, d);
    if d != t.id {
      ParentLink(t, nodes, d);
    }
    SpliceInside(t, d, nodes, nodes');
    SpliceOutside(t, d, nodes, root, nodes', root');
  }

  lemma SpliceInside<V>(t: Shape, d: nat, nodes: map<nat, AvlNode<V>>, nodes': map<nat, AvlNode<V>>)
    requires Spliced(d, nodes, nodes')
    requires Sub(t, d).Node? && Sub(t, d).id == d && Distinct(Sub(t, d)) && Shaped(Sub(t, d), nodes)
    requires nodes.Keys == Ids(t) && Ids(Sub(t, d)) <= Ids(t) && HeightsOk(nodes)
    requires nodes[d].left == RootPtr(Sub(t, d).left) && nodes[d].right == RootPtr(Sub(t, d).right)
    requires nodes[d].parent.At? ==> nodes[d].parent.id !in Ids(Sub(t, d))
    ensures RewiredInside(t, d, Kept(Sub(t, d)), nodes, nodes')
  {
    var S := Sub(t, d);
    var K := Kept(S);
    DistinctNode(S.left, d, S.right);
    assert Shaped(K, nodes) && RootPtr(K) == Heir(nodes[d]);
    ShapedFrame(K, nodes, nodes');
  }

  lemma SpliceOutside<V>(t: Shape, d: nat, nodes: map<nat, AvlNode<V>>, root: Ptr,
                           nodes': map<nat, AvlNode<V>>, root': Ptr)
    requires Spliced(d, nodes, nodes')
    requires Sub(t, d).Node? && Sub(t, d).id == d
    requires nodes[d].left == RootPtr(Sub(t, d).left) && nodes[d].right == RootPtr(Sub(t, d).right)
    requires Heir(nodes[d]).At? ==> Heir(nodes[d]).id in Ids(Sub(t, d))
    requires nodes[d].parent.At? ==>
      var q := nodes[d].parent.id;
      (nodes[q].left == At(d)) != (nodes[q].right == At(d))
    requires root' == if nodes[d].parent == Null then Heir(nodes[d]) else root
    ensures RewiredOutside(t, d, Kept(Sub(t, d)), nodes, root, nodes', root')
  {
    var q := nodes[d].parent;
    assert RootPtr(Kept(Sub(t, d))) == Heir(nodes[d]);
    if q.At? {
      SlotRedirect(nodes[q.id], d, Kept(Sub(t, d)));
    }
  }
}
