/** The AVL tree's nodes as an arena: a map from node ids to node records, whose
    `parent`, `left` and `right` fields are the pointers of avlbst.h.  The ghost
    `Shape` of module Shapes says which tree these pointers are meant to form;
    `Linked` ties the two together. */
module Arena {
  import opened Shapes
  import opened Entries
  import opened Ints

  /** AVLNode: key, value, the three links and the stored `balance_` field, which
      the tree uses as a cached subtree height (`height` here). */
  datatype AvlNode<V> = AvlNode(key: int, value: V, parent: Ptr, left: Ptr, right: Ptr, height: int)

  /** The root of `t`, if any, has parent `p`. */
  ghost predicate ParentIs<V>(t: Shape, p: Ptr, nodes: map<nat, AvlNode<V>>)
  {
    t.Node? ==> t.id in nodes && nodes[t.id].parent == p
  }

  /** The arena's links draw exactly the tree `t`: each node's child pointers
      are its children in `t`, and each child points back to its parent. */
  ghost predicate Shaped<V>(t: Shape, nodes: map<nat, AvlNode<V>>)
  {
    match t
    case Leaf => true
    case Node(l, i, r) =>
      && i in nodes
      && nodes[i].left == RootPtr(l) && nodes[i].right == RootPtr(r)
      && ParentIs(l, At(i), nodes) && ParentIs(r, At(i), nodes)
      && Shaped(l, nodes) && Shaped(r, nodes)
  }

  /** Every stored height is non-negative. */
  ghost predicate HeightsOk<V>(nodes: map<nat, AvlNode<V>>)
  {
    forall i :: i in nodes ==> nodes[i].height >= 0
  }

  /** `root` and the arena form the tree `t`, with no node outside it and none twice. */
  ghost predicate Linked<V>(t: Shape, nodes: map<nat, AvlNode<V>>, root: Ptr)
  {
    && root == RootPtr(t)
    && ParentIs(t, Null, nodes)
    && Ids(t) == nodes.Keys
    && Distinct(t)
    && Shaped(t, nodes)
    && HeightsOk(nodes)
  }

  /** The (key, value) entries of the listed nodes, in that order. */
  ghost function ItemsOf<V>(ids: seq<nat>, nodes: map<nat, AvlNode<V>>): seq<(int, V)>
    requires forall i :: i in ids ==> i in nodes
  {
    if ids == [] then [] else [(nodes[ids[0]].key, nodes[ids[0]].value)] + ItemsOf(ids[1..], nodes)
  }

  /** A pointer to node `i` now leads to the root of `s`. */
  function Redirect(p: Ptr, i: nat, s: Shape): Ptr
  {
    if p == At(i) then RootPtr(s) else p
  }

  lemma {:induction false} ItemsOfConcat<V>(a: seq<nat>, b: seq<nat>, nodes: map<nat, AvlNode<V>>)
    requires forall i :: i in a + b ==> i in nodes
    ensures ItemsOf(a + b, nodes) == ItemsOf(a, nodes) + ItemsOf(b, nodes)
  {
    if a != [] {
      assert (a + b)[1..] == a[1..] + b;
      ItemsOfConcat(a[1..], b, nodes);
    } else {
      assert a + b == b;
    }
  }

  /** Entries depend only on the keys and values of the listed nodes. */
  lemma {:induction false} ItemsOfFrame<V>(ids: seq<nat>, nodes: map<nat, AvlNode<V>>, nodes': map<nat, AvlNode<V>>)
    requires forall i :: i in ids ==>
      i in nodes && i in nodes' && nodes'[i].key == nodes[i].key && nodes'[i].value == nodes[i].value
    ensures ItemsOf(ids, nodes') == ItemsOf(ids, nodes)
  {
    if ids != [] {
      ItemsOfFrame(ids[1..], nodes, nodes');
    }
  }

  lemma {:induction false} ShapedIds<V>(t: Shape, nodes: map<nat, AvlNode<V>>)
    requires Shaped(t, nodes)
    ensures Ids(t) <= nodes.Keys
  {
    match t
    case Leaf =>
    case Node(l, i, r) =>
      ShapedIds(l, nodes);
      ShapedIds(r, nodes);
  }

  lemma {:induction false} SubShaped<V>(t: Shape, nodes: map<nat, AvlNode<V>>, j: nat)
    requires Shaped(t, nodes) && j in Ids(t)
    ensures Shaped(Sub(t, j), nodes)
  {
    match t
    case Node(l, i, r) =>
      if i == j {
      } else if j in Ids(l) {
        SubShaped(l, nodes, j);
      } else {
        SubShaped(r, nodes, j);
      }
  }

  /** What the arena says about one node of the tree: its child pointers are the
      roots of its two subtrees, and those point back to it. */
  lemma NodeView<V>(t: Shape, nodes: map<nat, AvlNode<V>>, j: nat)
    requires Shaped(t, nodes) && j in Ids(t)
    ensures Sub(t, j).Node? && Sub(t, j).id == j && j in nodes
    ensures nodes[j].left == RootPtr(Sub(t, j).left) && nodes[j].right == RootPtr(Sub(t, j).right)
    ensures ParentIs(Sub(t, j).left, At(j), nodes) && ParentIs(Sub(t, j).right, At(j), nodes)
    ensures Shaped(Sub(t, j).left, nodes) && Shaped(Sub(t, j).right, nodes)
  {
    Split(t, j);
    SubShaped(t, nodes, j);
  }

  /** A child pointer of a node of `t` leads to a node of `t`. */
  lemma {:induction false} ChildrenInside<V>(t: Shape, nodes: map<nat, AvlNode<V>>, k: nat)
    requires Shaped(t, nodes) && k in Ids(t)
    ensures k in nodes
    ensures nodes[k].left.At? ==> nodes[k].left.id in Ids(t)
    ensures nodes[k].right.At? ==> nodes[k].right.id in Ids(t)
  {
    match t
    case Node(l, i, r) =>
      if i == k {
      } else if k in Ids(l) {
        ChildrenInside(l, nodes, k);
      } else {
        ChildrenInside(r, nodes, k);
      }
  }

  /** The parent pointer of a non-root node leads to its parent in `t`. */
  lemma {:induction false} ParentLink<V>(t: Shape, nodes: map<nat, AvlNode<V>>, c: nat)
    requires Shaped(t, nodes) && Distinct(t) && c in Ids(t) && c != t.id
    ensures c in nodes && nodes[c].parent.At?
    ensures var q := nodes[c].parent.id;
      q in Ids(t) && q != c && c in Ids(Sub(t, q)) && q !in Ids(Sub(t, c)) &&
      (RootPtr(Sub(t, q).left) == At(c) || RootPtr(Sub(t, q).right) == At(c))
  {
    match t
    case Node(l, j, r) =>
      DistinctNode(l, j, r);
      if c in Ids(l) {
        SubDistinct(l, c);
        if l.id != c {
          ParentLink(l, nodes, c);
        }
      } else {
        SubDistinct(r, c);
        if r.id != c {
          ParentLink(r, nodes, c);
        }
      }
  }

  /** Changing fields other than the links, or the parent link of the root only,
      leaves the drawn tree as it was. */
  lemma {:induction false} ShapedFrame<V>(t: Shape, nodes: map<nat, AvlNode<V>>, nodes': map<nat, AvlNode<V>>)
    requires Shaped(t, nodes) && Distinct(t)
    requires forall j :: j in Ids(t) ==>
      && j in nodes && j in nodes'
      && nodes'[j].left == nodes[j].left && nodes'[j].right == nodes[j].right
      && (RootPtr(t) != At(j) ==> nodes'[j].parent == nodes[j].parent)
    ensures Shaped(t, nodes')
  {
    match t
    case Leaf =>
    case Node(l, i, r) =>
      DistinctNode(l, i, r);
      ShapedFrame(l, nodes, nodes');
      ShapedFrame(r, nodes, nodes');
  }

  /** Rewiring the arena around one subtree: when the new subtree `s` is drawn,
      hangs from the old parent of `i`, and every pointer to `i` from the rest of
      the tree now leads to the root of `s`, the rewritten tree is drawn. */
  lemma {:induction false} RewriteShaped<V>(t: Shape, i: nat, s: Shape,
                                              nodes: map<nat, AvlNode<V>>, nodes': map<nat, AvlNode<V>>)
    requires Shaped(t, nodes) && Distinct(t) && i in Ids(t) && Ids(t) <= nodes.Keys
    requires Shaped(s, nodes')
    requires ParentIs(s, nodes[i].parent, nodes')
    requires forall j :: j in Ids(t) && j !in Ids(Sub(t, i)) ==>
      j in nodes' && nodes'[j].parent == nodes[j].parent &&
      nodes'[j].left == Redirect(nodes[j].left, i, s) && nodes'[j].right == Redirect(nodes[j].right, i, s)
    ensures Shaped(Rewrite(t, i, s), nodes')
  {
    match t
    case Node(l, j, r) =>
      DistinctNode(l, j, r);
      if j == i {
      } else if i in Ids(l) {
        assert Sub(t, i) == Sub(l, i);
        SubDistinct(l, i);
        RewriteShaped(l, i, s, nodes, nodes');
        UntouchedShaped(r, i, s, nodes, nodes');
        RewrittenChild(t, l, i, s, nodes, nodes');
      } else {
        assert Sub(t, i) == Sub(r, i);
        SubDistinct(r, i);
        RewriteShaped(r, i, s, nodes, nodes');
        UntouchedShaped(l, i, s, nodes, nodes');
        RewrittenChild(t, r, i, s, nodes, nodes');
      }
  }

  /** One step of RewriteShaped: the child `c` of the root of `t` whose subtree
      holds `i` is rewritten, and still hangs from the root. */
  lemma RewrittenChild<V>(t: Shape, c: Shape, i: nat, s: Shape,
                            nodes: map<nat, AvlNode<V>>, nodes': map<nat, AvlNode<V>>)
    requires t.Node? && (c == t.left || c == t.right) && Distinct(c) && i in Ids(c) && i != t.id
    requires ParentIs(c, At(t.id), nodes) && t.id !in Ids(c)
    requires i in nodes && ParentIs(s, nodes[i].parent, nodes') && Sub(t, i) == Sub(c, i)
    requires t.id in nodes && t.id in nodes' && nodes'[t.id].parent == nodes[t.id].parent
    requires RootPtr(c) != At(i) ==> c.id in nodes && c.id in nodes' && nodes'[c.id].parent == nodes[c.id].parent
    ensures RootPtr(Rewrite(c, i, s)) == Redirect(RootPtr(c), i, s)
    ensures ParentIs(Rewrite(c, i, s), At(t.id), nodes')
  {
    SubDistinct(c, i);
    if c.id == i {
      assert Rewrite(c, i, s) == s;
    } else {
      assert Rewrite(c, i, s).id == c.id;
    }
  }

  /** A subtree not containing `i` keeps its drawing when the only changes are
      pointers to `i` being redirected. */
  lemma UntouchedShaped<V>(u: Shape, i: nat, s: Shape, nodes: map<nat, AvlNode<V>>, nodes': map<nat, AvlNode<V>>)
    requires Shaped(u, nodes) && Distinct(u) && i !in Ids(u)
    requires forall j :: j in Ids(u) ==>
      j in nodes && j in nodes' && nodes'[j].parent == nodes[j].parent &&
      nodes'[j].left == Redirect(nodes[j].left, i, s) && nodes'[j].right == Redirect(nodes[j].right, i, s)
    ensures Shaped(u, nodes')
  {
    forall k | k in Ids(u)
      ensures k in nodes && k in nodes' && nodes'[k].left == nodes[k].left && nodes'[k].right == nodes[k].right
      ensures RootPtr(u) != At(k) ==> nodes'[k].parent == nodes[k].parent
    {
      ChildrenInside(u, nodes, k);
    }
    ShapedFrame(u, nodes, nodes');
  }

  /** Parent/child consistency of a linked arena: a child points back to the
      node that points to it, a parent holds the node in exactly one of its two
      slots, and exactly the root has no parent. */
  lemma LinksConsistent<V>(t: Shape, nodes: map<nat, AvlNode<V>>, root: Ptr, j: nat)
    requires Linked(t, nodes, root) && j in nodes
    ensures nodes[j].left.At? ==>
      nodes[j].left.id in nodes && nodes[nodes[j].left.id].parent == At(j)
    ensures nodes[j].right.At? ==>
      nodes[j].right.id in nodes && nodes[nodes[j].right.id].parent == At(j)
    ensures nodes[j].parent.At? ==>
      nodes[j].parent.id in nodes &&
      ((nodes[nodes[j].parent.id].left == At(j)) != (nodes[nodes[j].parent.id].right == At(j)))
    ensures nodes[j].parent == Null <==> root == At(j)
  {
    NodeView(t, nodes, j);
    if j != t.id {
      ParentLink(t, nodes, j);
      var q := nodes[j].parent.id;
      NodeView(t, nodes, q);
      SubDistinct(t, q);
      DistinctNode(Sub(t, q).left, q, Sub(t, q).right);
    }
  }

  /** Two node records with the same three links. */
  ghost predicate SameLinks<V>(a: AvlNode<V>, b: AvlNode<V>)
  {
    a.parent == b.parent && a.left == b.left && a.right == b.right
  }

  /** The general relinking step behind rotations and splicing: the subtree at
      `i` is replaced by `s`, drawn over no more than its ids; `s` hangs from the
      old parent of `i`, that parent's slot (or the root) now leads to `s`, and
      no other node outside the subtree changes its links.  The result is again
      a linked arena, for the rewritten tree. */
  ghost predicate Rewired<V>(t: Shape, i: nat, s: Shape, nodes: map<nat, AvlNode<V>>, root: Ptr,
                               nodes': map<nat, AvlNode<V>>, root': Ptr)
    requires i in nodes
  {
    RewiredInside(t, i, s, nodes, nodes') && RewiredOutside(t, i, s, nodes, root, nodes', root')
  }

  /** The new subtree `s` is drawn in the new arena, under the old parent of `i`,
      and the arena holds the same nodes but for those the subtree traded. */
  ghost predicate RewiredInside<V>(t: Shape, i: nat, s: Shape, nodes: map<nat, AvlNode<V>>,
                                     nodes': map<nat, AvlNode<V>>)
    requires i in nodes
  {
    && Shaped(s, nodes') && ParentIs(s, nodes[i].parent, nodes')
    && nodes'.Keys == Ids(t) - Ids(Sub(t, i)) + Ids(s)
    && HeightsOk(nodes')
  }

  /** Outside the subtree only the parent's slot (or the root) moves to `s`. */
  ghost predicate RewiredOutside<V>(t: Shape, i: nat, s: Shape, nodes: map<nat, AvlNode<V>>, root: Ptr,
                                      nodes': map<nat, AvlNode<V>>, root': Ptr)
    requires i in nodes
  {
    && (forall j :: j in nodes && j !in Ids(Sub(t, i)) && At(j) != nodes[i].parent ==>
          j in nodes' && SameLinks(nodes'[j], nodes[j]))
    && (nodes[i].parent.At? ==>
          var q := nodes[i].parent.id;
          && q in nodes && q in nodes'
          && nodes'[q].parent == nodes[q].parent
          && nodes'[q].left == Redirect(nodes[q].left, i, s)
          && nodes'[q].right == Redirect(nodes[q].right, i, s))
    && root' == if nodes[i].parent == Null then RootPtr(s) else root
  }

  lemma Relinked<V>(t: Shape, i: nat, s: Shape, nodes: map<nat, AvlNode<V>>, root: Ptr,
                      nodes': map<nat, AvlNode<V>>, root': Ptr)
    requires Linked(t, nodes, root) && i in Ids(t)
    requires Distinct(Rewrite(t, i, s))
    requires Rewired(t, i, s, nodes, root, nodes', root')
    ensures Linked(Rewrite(t, i, s), nodes', root')
  {
    SubDistinct(t, i);
    Split(t, i);
    IdsRewrite(t, i, s);
    RelinkOutside(t, i, s, nodes, root, nodes');
    RewriteShaped(t, i, s, nodes, nodes');
    LinksConsistent(t, nodes, root, i);
    if i != t.id {
      assert Rewrite(t, i, s).id == t.id;
    }
  }

  /** Outside the replaced subtree, only pointers to `i` change, and they now lead to `s`. */
  lemma RelinkOutside<V>(t: Shape, i: nat, s: Shape, nodes: map<nat, AvlNode<V>>, root: Ptr,
                           nodes': map<nat, AvlNode<V>>)
    requires Linked(t, nodes, root) && i in Ids(t)
    requires forall j :: j in nodes && j !in Ids(Sub(t, i)) && At(j) != nodes[i].parent ==>
      j in nodes' && SameLinks(nodes'[j], nodes[j])
    requires nodes[i].parent.At? ==>
      var q := nodes[i].parent.id;
      && q in nodes && q in nodes'
      && nodes'[q].parent == nodes[q].parent
      && nodes'[q].left == Redirect(nodes[q].left, i, s)
      && nodes'[q].right == Redirect(nodes[q].right, i, s)
    ensures forall j :: j in Ids(t) && j !in Ids(Sub(t, i)) ==>
      j in nodes' && nodes'[j].parent == nodes[j].parent &&
      nodes'[j].left == Redirect(nodes[j].left, i, s) && nodes'[j].right == Redirect(nodes[j].right, i, s)
  {
    forall j | j in Ids(t) && j !in Ids(Sub(t, i))
      ensures j in nodes' && nodes'[j].parent == nodes[j].parent
      ensures nodes'[j].left == Redirect(nodes[j].left, i, s)
      ensures nodes'[j].right == Redirect(nodes[j].right, i, s)
    {
      LinksConsistent(t, nodes, root, j);
    }
  }

  /** The pointer is null or leads to a node of the arena. */
  ghost predicate Known<V>(p: Ptr, nodes: map<nat, AvlNode<V>>)
  {
    p == Null || p.id in nodes
  }

  /** No link of the arena dangles. */
  ghost predicate Closed<V>(nodes: map<nat, AvlNode<V>>)
  {
    forall j :: j in nodes ==>
      Known(nodes[j].parent, nodes) && Known(nodes[j].left, nodes) && Known(nodes[j].right, nodes)
  }

  /** Changing only the keys, values or stored heights of nodes keeps the arena
      linked, as long as the heights stay non-negative. */
  lemma LinksKept<V>(t: Shape, nodes: map<nat, AvlNode<V>>, root: Ptr, nodes': map<nat, AvlNode<V>>)
    requires Linked(t, nodes, root) && nodes'.Keys == nodes.Keys && HeightsOk(nodes')
    requires forall j :: j in nodes ==> SameLinks(nodes'[j], nodes[j])
    ensures Linked(t, nodes', root)
  {
    ShapedFrame(t, nodes, nodes');
  }

  /** getHeight: -1 for null, otherwise the stored field of the node. */
  function GetHeight<V>(nodes: map<nat, AvlNode<V>>, p: Ptr): (h: int)
    requires Known(p, nodes) && HeightsOk(nodes)
    ensures h >= -1
    ensures h == -1 <==> p == Null
  {
    if p == Null then -1 else nodes[p.id].height
  }

  /** The stored height of `i` is one more than the larger stored height of
      its children, as `updateHeight` leaves it. */
  ghost predicate HeightFixed<V>(nodes: map<nat, AvlNode<V>>, i: nat)
  {
    && i in nodes && HeightsOk(nodes)
    && Known(nodes[i].left, nodes) && Known(nodes[i].right, nodes)
    && nodes[i].height == Max(GetHeight(nodes, nodes[i].left), GetHeight(nodes, nodes[i].right)) + 1
  }

  /** updateHeight: the stored height of `n` becomes one more than the larger
      stored height of its children; nothing else changes. */
  method UpdateHeight<V>(nodes: map<nat, AvlNode<V>>, n: nat) returns (nodes': map<nat, AvlNode<V>>)
    requires n in nodes && HeightsOk(nodes)
    requires Known(nodes[n].left, nodes) && Known(nodes[n].right, nodes)
    requires nodes[n].left != At(n) && nodes[n].right != At(n)
    ensures n in nodes' && nodes' == nodes[n := nodes[n].(height := nodes'[n].height)]
    ensures HeightFixed(nodes', n)
  {
    var leftHeight := GetHeight(nodes, nodes[n].left);
    var rightHeight := GetHeight(nodes, nodes[n].right);
    nodes' := nodes[n := nodes[n].(height := Max(leftHeight, rightHeight) + 1)];
  }

  /** In a linked arena no node is its own child. */
  lemma NotOwnChild<V>(t: Shape, nodes: map<nat, AvlNode<V>>, root: Ptr, n: nat)
    requires Linked(t, nodes, root) && n in nodes
    ensures nodes[n].left != At(n) && nodes[n].right != At(n)
  {
    NodeView(t, nodes, n);
    SubDistinct(t, n);
    DistinctNode(Sub(t, n).left, n, Sub(t, n).right);
  }

  /** Storing a height in a node that is neither `i` nor a child of `i` keeps
      the height of `i` fixed. */
  lemma HeightStaysFixed<V>(nodes: map<nat, AvlNode<V>>, i: nat, j: nat, h: int)
    requires HeightFixed(nodes, i) && j in nodes && h >= 0
    requires j != i && nodes[i].left != At(j) && nodes[i].right != At(j)
    ensures HeightFixed(nodes[j := nodes[j].(height := h)], i)
  {
  }

  /** A node whose record and children's heights are the same in `b` as in
      `a` keeps its height fixed. */
  lemma HeightCarried<V>(a: map<nat, AvlNode<V>>, b: map<nat, AvlNode<V>>, i: nat)
    requires HeightFixed(a, i) && i in b && b[i] == a[i] && HeightsOk(b)
    requires Known(b[i].left, b) && Known(b[i].right, b)
    requires b[i].left.At? ==> b[b[i].left.id].height == a[b[i].left.id].height
    requires b[i].right.At? ==> b[b[i].right.id].height == a[b[i].right.id].height
    ensures HeightFixed(b, i)
  {
  }

  lemma LinkedClosed<V>(t: Shape, nodes: map<nat, AvlNode<V>>, root: Ptr)
    requires Linked(t, nodes, root)
    ensures Closed(nodes) && Known(root, nodes)
  {
    forall j | j in nodes
      ensures Known(nodes[j].parent, nodes) && Known(nodes[j].left, nodes) && Known(nodes[j].right, nodes)
    {
      LinksConsistent(t, nodes, root, j);
    }
  }

  /** The whole arena is sound: it draws `t` from `root`, no link dangles, and
      every id is below the next one to be handed out. */
  ghost predicate Intact<V>(t: Shape, nodes: map<nat, AvlNode<V>>, root: Ptr, nextId: nat)
  {
    && Linked(t, nodes, root)
    && Closed(nodes)
    && (forall i :: i in nodes ==> i < nextId)
  }

  /** The (key, value) entries of the tree `t`, in order. */
  ghost function InOrder<V>(t: Shape, nodes: map<nat, AvlNode<V>>): seq<(int, V)>
    requires Ids(t) <= nodes.Keys
  {
    IdsSeq(t);
    ItemsOf(Seq(t), nodes)
  }

  /** Storing a new non-negative height in one node keeps the arena sound and
      its entries as they were. */
  lemma Reheighted<V>(t: Shape, nodes: map<nat, AvlNode<V>>, root: Ptr, nextId: nat, n: nat, h: int)
    requires Intact(t, nodes, root, nextId) && n in nodes && h >= 0
    ensures Intact(t, nodes[n := nodes[n].(height := h)], root, nextId)
    ensures InOrder(t, nodes[n := nodes[n].(height := h)]) == InOrder(t, nodes)
  {
    var nodes' := nodes[n := nodes[n].(height := h)];
    LinksKept(t, nodes, root, nodes');
    IdsSeq(t);
    ItemsOfFrame(Seq(t), nodes, nodes');
  }

  /** In a sound arena, `updateHeight` may be applied to any node. */
  lemma Fixable<V>(t: Shape, nodes: map<nat, AvlNode<V>>, root: Ptr, nextId: nat, n: nat)
    requires Intact(t, nodes, root, nextId) && n in nodes
    ensures HeightsOk(nodes) && Known(nodes[n].left, nodes) && Known(nodes[n].right, nodes)
    ensures nodes[n].left != At(n) && nodes[n].right != At(n)
  {
    NotOwnChild(t, nodes, root, n);
  }

  /** Relinking that keeps the in-order sequence, the set of nodes and their
      keys and values keeps the entries, and the arena sound. */
  lemma Relaid<V>(t: Shape, nodes: map<nat, AvlNode<V>>, root: Ptr, nextId: nat,
                    t': Shape, nodes': map<nat, AvlNode<V>>, root': Ptr)
    requires Intact(t, nodes, root, nextId) && Linked(t', nodes', root')
    requires Seq(t') == Seq(t) && nodes'.Keys == nodes.Keys
    requires forall j :: j in nodes ==> nodes'[j].key == nodes[j].key && nodes'[j].value == nodes[j].value
    ensures Intact(t', nodes', root', nextId)
    ensures InOrder(t', nodes') == InOrder(t, nodes)
  {
    LinkedClosed(t', nodes', root');
    IdsSeq(t);
    ItemsOfFrame(Seq(t), nodes, nodes');
  }

  /** Every listed node contributes its entry. */
  lemma {:induction false} ItemsOfHas<V>(ids: seq<nat>, nodes: map<nat, AvlNode<V>>, j: nat)
    requires forall i :: i in ids ==> i in nodes
    requires j in ids
    ensures (nodes[j].key, nodes[j].value) in ItemsOf(ids, nodes)
  {
    if ids[0] != j {
      ItemsOfHas(ids[1..], nodes, j);
    }
  }

  /** Every entry comes from a listed node, so bounds on the nodes' keys bound the entries. */
  lemma {:induction false} ItemsOfBounds<V>(ids: seq<nat>, nodes: map<nat, AvlNode<V>>, lo: int, hi: int)
    requires forall i :: i in ids ==> i in nodes && lo < nodes[i].key < hi
    ensures forall e :: e in ItemsOf(ids, nodes) ==> lo < e.0 < hi
  {
    if ids != [] {
      ItemsOfBounds(ids[1..], nodes, lo, hi);
    }
  }

  /** The keys of the listed nodes strictly ascend. */
  ghost predicate KeysAscend<V>(ids: seq<nat>, nodes: map<nat, AvlNode<V>>)
    requires forall i :: i in ids ==> i in nodes
  {
    forall a, b :: 0 <= a < b < |ids| ==> nodes[ids[a]].key < nodes[ids[b]].key
  }

  lemma {:induction false} ItemsOfIndex<V>(ids: seq<nat>, nodes: map<nat, AvlNode<V>>)
    requires forall i :: i in ids ==> i in nodes
    ensures |ItemsOf(ids, nodes)| == |ids|
    ensures forall a :: 0 <= a < |ids| ==> ItemsOf(ids, nodes)[a] == (nodes[ids[a]].key, nodes[ids[a]].value)
  {
    if ids != [] {
      ItemsOfIndex(ids[1..], nodes);
      forall a | 1 <= a < |ids|
        ensures ItemsOf(ids, nodes)[a] == (nodes[ids[a]].key, nodes[ids[a]].value)
      {
        assert ids[1..][a - 1] == ids[a];
      }
    }
  }

  /** Entries in order means the nodes' keys ascend along the list. */
  lemma SortedKeys<V>(ids: seq<nat>, nodes: map<nat, AvlNode<V>>)
    requires forall i :: i in ids ==> i in nodes
    requires Sorted(ItemsOf(ids, nodes))
    ensures KeysAscend(ids, nodes)
  {
    ItemsOfIndex(ids, nodes);
  }

  /** Along ascending keys, whatever lies before `c` is below it and whatever
      lies after is above it. */
  lemma AscendAround<V>(a: seq<nat>, m: seq<nat>, z: seq<nat>, l: seq<nat>, c: nat, r: seq<nat>,
                        nodes: map<nat, AvlNode<V>>)
    requires forall i :: i in a + m + z ==> i in nodes
    requires KeysAscend(a + m + z, nodes) && m == l + [c] + r
    ensures forall i :: i in l ==> nodes[i].key < nodes[c].key
    ensures forall i :: i in r ==> nodes[i].key > nodes[c].key
  {
    var s := a + m + z;
    var at := |a| + |l|;
    assert s[at] == m[|l|] == c;
    forall i | i in l ensures nodes[i].key < nodes[c].key {
      var j :| 0 <= j < |l| && l[j] == i;
      assert s[|a| + j] == m[j] == i;
    }
    forall i | i in r ensures nodes[i].key > nodes[c].key {
      var j :| 0 <= j < |r| && r[j] == i;
      assert s[at + 1 + j] == m[|l| + 1 + j] == i;
    }
  }

  /** In a binary search tree, the keys of the left subtree of `c` are below
      the key of `c`, and those of its right subtree above it. */
  lemma KeysAroundNode<V>(t: Shape, nodes: map<nat, AvlNode<V>>, c: nat)
    requires Ids(t) <= nodes.Keys && c in Ids(t) && Sorted(InOrder(t, nodes))
    ensures Sub(t, c).Node? && Sub(t, c).id == c
    ensures forall i :: i in Seq(Sub(t, c).left) ==> i in nodes && nodes[i].key < nodes[c].key
    ensures forall i :: i in Seq(Sub(t, c).right) ==> i in nodes && nodes[i].key > nodes[c].key
  {
    IdsSeq(t);
    Split(t, c);
    SortedKeys(Seq(t), nodes);
    var S := Sub(t, c);
    AscendAround(Before(t, c), Seq(S), After(t, c), Seq(S.left), c, Seq(S.right), nodes);
  }

  /** Entries of nodes whose keys are all below `k` have keys below `k`. */
  lemma {:induction false} ItemsBelow<V>(ids: seq<nat>, nodes: map<nat, AvlNode<V>>, k: int)
    requires forall i :: i in ids ==> i in nodes && nodes[i].key < k
    ensures forall e :: e in ItemsOf(ids, nodes) ==> e.0 < k
  {
    if ids != [] {
      ItemsBelow(ids[1..], nodes, k);
    }
  }

  /** Entries of nodes whose keys are all above `k` have keys above `k`. */
  lemma {:induction false} ItemsAbove<V>(ids: seq<nat>, nodes: map<nat, AvlNode<V>>, k: int)
    requires forall i :: i in ids ==> i in nodes && nodes[i].key > k
    ensures forall e :: e in ItemsOf(ids, nodes) ==> e.0 > k
  {
    if ids != [] {
      ItemsAbove(ids[1..], nodes, k);
    }
  }

  /** The entries of `a + [c] + b` in an arena that agrees with `nodes` on the
      keys and values of `a` and `b`. */
  lemma ItemsAround<V>(a: seq<nat>, c: nat, b: seq<nat>, nodes: map<nat, AvlNode<V>>, nodes': map<nat, AvlNode<V>>)
    requires forall i :: i in a + b ==>
      i in nodes && i in nodes' && nodes'[i].key == nodes[i].key && nodes'[i].value == nodes[i].value
    requires c in nodes'
    ensures ItemsOf(a + [c] + b, nodes') == ItemsOf(a, nodes) + [(nodes'[c].key, nodes'[c].value)] + ItemsOf(b, nodes)
  {
    ItemsOfConcat(a + [c], b, nodes');
    ItemsOfConcat(a, [c], nodes');
    ItemsOfFrame(a, nodes, nodes');
    ItemsOfFrame(b, nodes, nodes');
  }

  /** Moving from a node to its parent strictly enlarges the subtree in view;
      every subtree is at most the whole tree. */
  lemma ParentWeight<V>(t: Shape, nodes: map<nat, AvlNode<V>>, c: nat)
    requires Shaped(t, nodes) && Distinct(t) && c in Ids(t)
    ensures |Seq(Sub(t, c))| <= |Seq(t)|
    ensures c != t.id ==>
      c in nodes && nodes[c].parent.At? && |Seq(Sub(t, c))| < |Seq(Sub(t, nodes[c].parent.id))|
  {
    Split(t, c);
    if c != t.id {
      ParentLink(t, nodes, c);
      var q := nodes[c].parent.id;
      SubSub(t, q, c);
      Split(t, q);
      ChildSmaller(Sub(t, q), c);
    }
  }
}
