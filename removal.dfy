/** `remove` of avlbst.h over the arena of nodes (module Arena): find the node,
    trade contents with its in-order predecessor when it has two children, cut
    the node out, and rebalance from its child or, failing that, its parent. */
module Removal {
  import opened Shapes
  import opened Entries
  import opened Arena
  import opened Rewiring
  import opened Balance
  import opened Insertion
  import opened Heights

  /** internalFind(key) of the base tree (bst.h is not part of this model):
      the search from the root that the descent of `insert` also makes.  It
      yields the node holding `k`, or null exactly when no entry has key `k`. */
  method Find<V>(nodes: map<nat, AvlNode<V>>, root: Ptr, k: int, ghost t: Shape) returns (found: Ptr)
    requires Linked(t, nodes, root) && Sorted(InOrder(t, nodes))
    ensures found.At? ==> found.id in Ids(t) && nodes[found.id].key == k
    ensures found == Null <==> Lookup(InOrder(t, nodes), k) == None
  {
    var parent, current, before, after := Descend(nodes, root, k, t);
    found := current;
    if found.At? {
      FoundKey(t, nodes, found.id);
    } else {
      MissingKey(t, nodes, k, before, after);
    }
  }

  /** predecessor(node) of the base tree, for a node whose left child roots
      `L`: follow right children down from the left child.  The node reached
      has no right child and is the last of `L` in order. */
  method Predecessor<V>(nodes: map<nat, AvlNode<V>>, n: nat, ghost L: Shape) returns (p: nat)
    requires n in nodes && L.Node? && nodes[n].left == RootPtr(L) && Shaped(L, nodes)
    ensures p in Ids(L) && p in nodes && nodes[p].right == Null
    ensures Seq(L)[|Seq(L)| - 1] == p
  {
    p := nodes[n].left.id;
    ghost var u, pre := L, [];
    while nodes[p].right != Null
      invariant u.Node? && u.id == p && Shaped(u, nodes) && Ids(u) <= Ids(L)
      invariant Seq(L) == pre + Seq(u)
      decreases u
    {
      pre := pre + Seq(u.left) + [p];
      p := nodes[p].right.id;
      u := u.right;
    }
    assert Seq(u) == Seq(u.left) + [p];
  }

  /** The arena once `n1` and `n2` have traded keys, values and stored
      heights; every link, and every other node, stays as it was. */
  ghost predicate Swapped<V>(nodes: map<nat, AvlNode<V>>, n1: nat, n2: nat, m: map<nat, AvlNode<V>>)
  {
    && n1 in nodes && n2 in nodes && m.Keys == nodes.Keys
    && m[n1] == nodes[n1].(key := nodes[n2].key, value := nodes[n2].value, height := nodes[n2].height)
    && m[n2] == nodes[n2].(key := nodes[n1].key, value := nodes[n1].value, height := nodes[n1].height)
    && forall j :: j in nodes && j != n1 && j != n2 ==> m[j] == nodes[j]
  }

  /** nodeSwap(n1, n2): the base tree's swap trades the two nodes' keys and
      values, then the AVL override trades their stored `balance_` fields. */
  method NodeSwap<V>(nodes: map<nat, AvlNode<V>>, n1: nat, n2: nat) returns (m: map<nat, AvlNode<V>>)
    requires n1 in nodes && n2 in nodes
    ensures Swapped(nodes, n1, n2, m)
  {
    var e1, e2 := nodes[n1], nodes[n2];
    m := nodes[n1 := e1.(key := e2.key, value := e2.value)];
    m := m[n2 := m[n2].(key := e1.key, value := e1.value)];
    var tempBalance := m[n1].height;
    m := m[n1 := m[n1].(height := m[n2].height)];
    m := m[n2 := m[n2].(height := tempBalance)];
  }

  /** Swapping the same two nodes twice gives back the arena. */
  lemma SwapTwice<V>(nodes: map<nat, AvlNode<V>>, n1: nat, n2: nat, m: map<nat, AvlNode<V>>, m': map<nat, AvlNode<V>>)
    requires Swapped(nodes, n1, n2, m) && Swapped(m, n1, n2, m')
    ensures m' == nodes
  {
    assert m'.Keys == nodes.Keys;
    forall j | j in nodes ensures m'[j] == nodes[j] {
    }
  }

  /** A swap keeps the arena sound: it moves no link, and heights stay non-negative. */
  lemma SwapIntact<V>(t: Shape, nodes: map<nat, AvlNode<V>>, root: Ptr, nextId: nat, n1: nat, n2: nat,
                      m: map<nat, AvlNode<V>>)
    requires Intact(t, nodes, root, nextId) && Swapped(nodes, n1, n2, m)
    ensures Intact(t, m, root, nextId)
  {
    LinksKept(t, nodes, root, m);
    LinkedClosed(t, m, root);
  }

  /** The facts `remove` relies on at the node it cuts out: its child, if any,
      and its parent, if any, are nodes of the arena other than it and each other. */
  lemma CutSetting<V>(t: Shape, nodes: map<nat, AvlNode<V>>, root: Ptr, nextId: nat, d: nat)
    requires Intact(t, nodes, root, nextId) && d in nodes
    ensures Known(Heir(nodes[d]), nodes) && Heir(nodes[d]) != At(d)
    ensures nodes[d].parent.At? ==>
      nodes[d].parent.id in nodes && nodes[d].parent.id != d && nodes[d].parent != Heir(nodes[d])
  {
    NotOwnChild(t, nodes, root, d);
    LinksConsistent(t, nodes, root, d);
    NodeView(t, nodes, d);
    if nodes[d].parent.At? {
      ParentLink(t, nodes, d);
      var S := Sub(t, d);
      assert Heir(nodes[d]).At? ==> Heir(nodes[d]).id in Ids(S);
    }
  }

  /** The splice of `remove`: `child`, the only child of `d` (or null), takes
      the place of `d` under `parent`, the parent of `d` (or becomes the
      root), and `d` is deleted. */
  method CutOut<V>(nodes: map<nat, AvlNode<V>>, root: Ptr, d: nat, child: Ptr, parent: Ptr,
                   ghost t: Shape, ghost nextId: nat)
      returns (m: map<nat, AvlNode<V>>, r: Ptr)
    requires Intact(t, nodes, root, nextId) && d in nodes
    requires nodes[d].left == Null || nodes[d].right == Null
    requires child == Heir(nodes[d]) && parent == nodes[d].parent
    ensures Spliced(d, nodes, m) && r == (if parent == Null then child else root)
  {
    CutSetting(t, nodes, root, nextId, d);
    m := nodes;
    if child != Null {
      m := m[child.id := m[child.id].(parent := parent)];
    }
    r := root;
    if parent == Null {
      r := child;
    } else if m[parent.id].left == At(d) {
      m := m[parent.id := m[parent.id].(left := child)];
    } else {
      m := m[parent.id := m[parent.id].(right := child)];
    }
    m := m - {d};
  }

  /** Cutting out a node with at most one child drops just that node from the
      in-order sequence. */
  lemma KeptSeq(t: Shape, d: nat)
    requires Distinct(t) && d in Ids(t) && Sub(t, d).Node?
    requires Sub(t, d).left == Leaf || Sub(t, d).right == Leaf
    ensures Seq(Rewrite(t, d, Kept(Sub(t, d)))) == Preceding(t, d) + Following(t, d)
  {
    Split(t, d);
    var S := Sub(t, d);
    RewriteSeq(t, d, Kept(S));
    if S.left == Leaf {
      assert Seq(Kept(S)) == [] + Seq(S.right);
    } else {
      assert Seq(Kept(S)) == Seq(S.left) + [];
    }
    Regroup2(Before(t, d), Seq(S.left), Seq(S.right), After(t, d));
  }

  /** After the splice the arena is sound and holds the entries on either side of `d`. */
  lemma CutKept<V>(t: Shape, nodes: map<nat, AvlNode<V>>, root: Ptr, nextId: nat, d: nat,
                   m: map<nat, AvlNode<V>>, r: Ptr)
    requires Intact(t, nodes, root, nextId) && Spliced(d, nodes, m)
    requires r == if nodes[d].parent == Null then Heir(nodes[d]) else root
    ensures d in Ids(t) && forall i :: i in Preceding(t, d) + Following(t, d) ==> i in nodes
    ensures Intact(Rewrite(t, d, Kept(Sub(t, d))), m, r, nextId)
    ensures InOrder(Rewrite(t, d, Kept(Sub(t, d))), m) ==
      ItemsOf(Preceding(t, d), nodes) + ItemsOf(Following(t, d), nodes)
  {
    SpliceLinked(t, d, nodes, root, m, r);
    var t1 := Rewrite(t, d, Kept(Sub(t, d)));
    LinkedClosed(t1, m, r);
    Around(t, d);
    KeptSeq(t, d);
    IdsSeq(t);
    SplicedAgrees(d, nodes, m);
    CutItems(Preceding(t, d), d, Following(t, d), nodes, m);
  }

  /** Every node but `d` keeps its key and value through the splice. */
  lemma SplicedAgrees<V>(d: nat, nodes: map<nat, AvlNode<V>>, m: map<nat, AvlNode<V>>)
    requires Spliced(d, nodes, m)
    ensures forall j :: j in nodes && j != d ==> j in m && m[j].key == nodes[j].key && m[j].value == nodes[j].value
  {
  }

  lemma CutItems<V>(a: seq<nat>, d: nat, b: seq<nat>, nodes: map<nat, AvlNode<V>>, m: map<nat, AvlNode<V>>)
    requires forall i :: i in a + [d] + b ==> i in nodes
    requires d !in a && d !in b
    requires forall j :: j in nodes && j != d ==> j in m && m[j].key == nodes[j].key && m[j].value == nodes[j].value
    ensures ItemsOf(a + b, m) == ItemsOf(a, nodes) + ItemsOf(b, nodes)
  {
    ItemsOfConcat(a, b, m);
    ItemsOfFrame(a, nodes, m);
    ItemsOfFrame(b, nodes, m);
  }

  /** Where `remove` stands before the splice: the arena `m0` is sound, `d`
      has at most one child, and the entries on either side of `d` are what
      `Delete` leaves of the entries of `nodes`. */
  ghost predicate ReadyToCut<V>(t: Shape, nodes: map<nat, AvlNode<V>>, root: Ptr, nextId: nat, k: int,
                                d: nat, m0: map<nat, AvlNode<V>>)
  {
    && Ids(t) <= nodes.Keys && Intact(t, m0, root, nextId) && m0.Keys == nodes.Keys
    && d in m0 && (m0[d].left == Null || m0[d].right == Null)
    && (forall i :: i in Preceding(t, d) + Following(t, d) ==> i in m0)
    && ItemsOf(Preceding(t, d), m0) + ItemsOf(Following(t, d), m0) == Delete(InOrder(t, nodes), k)
  }

  /** A node with `k` and at most one child is cut out as it is. */
  lemma ReadyAsIs<V>(t: Shape, nodes: map<nat, AvlNode<V>>, root: Ptr, nextId: nat, k: int, d: nat)
    requires Intact(t, nodes, root, nextId) && Sorted(InOrder(t, nodes))
    requires d in nodes && nodes[d].key == k && (nodes[d].left == Null || nodes[d].right == Null)
    ensures ReadyToCut(t, nodes, root, nextId, k, d, nodes)
  {
    Around(t, d);
    IdsSeq(t);
    var a, b := Preceding(t, d), Following(t, d);
    ItemsAround(a, d, b, nodes, nodes);
    DeleteHit(ItemsOf(a, nodes), (nodes[d].key, nodes[d].value), ItemsOf(b, nodes));
  }

  /** The in-order predecessor `p` of `c` (the last of its left subtree) sits
      just before `c` in order. */
  lemma NextTo(t: Shape, c: nat, p: nat)
    requires Distinct(t) && c in Ids(t) && Sub(t, c).Node? && Sub(t, c).left.Node?
    requires Seq(Sub(t, c).left)[|Seq(Sub(t, c).left)| - 1] == p
    ensures p in Ids(t) && p != c
    ensures Seq(t) == Preceding(t, p) + [p] + [c] + Following(t, c)
    ensures Following(t, p) == [c] + Following(t, c)
    ensures p !in Preceding(t, p) && c !in Preceding(t, p) && p !in Following(t, c) && c !in Following(t, c)
  {
    Around(t, c);
    var B, L, F := Before(t, c), Seq(Sub(t, c).left), Following(t, c);
    var L0 := L[..|L| - 1];
    DropLast(L);
    LastRegroup(B, L0, p, c, F);
    IdsSeq(t);
    Around(t, p);
    SplitUnique(Seq(t), Preceding(t, p), p, Following(t, p), B + L0, [c] + F);
  }

  lemma LastRegroup(b: seq<nat>, l: seq<nat>, p: nat, c: nat, f: seq<nat>)
    ensures b + (l + [p]) + [c] + f == (b + l) + [p] + ([c] + f)
    ensures (b + l) + [p] + ([c] + f) == (b + l) + [p] + [c] + f
    ensures p in b + (l + [p])
    ensures forall i :: i in b + l ==> i in b + (l + [p])
  {
  }

  /** After `c` trades contents with its predecessor `p`, the entries on either
      side of `p` are the old entries without the one of `c`. */
  lemma SwapItems<V>(A: seq<nat>, p: nat, c: nat, F: seq<nat>, nodes: map<nat, AvlNode<V>>, m0: map<nat, AvlNode<V>>)
    requires forall i :: i in A + [p] + [c] + F ==> i in nodes
    requires Swapped(nodes, c, p, m0) && p != c
    requires p !in A && c !in A && p !in F && c !in F
    requires Sorted(ItemsOf(A + [p] + [c] + F, nodes))
    ensures forall i :: i in A + ([c] + F) ==> i in m0
    ensures ItemsOf(A, m0) + ItemsOf([c] + F, m0) == Delete(ItemsOf(A + [p] + [c] + F, nodes), nodes[c].key)
  {
    ItemsOfFrame(A, nodes, m0);
    ItemsOfFrame(F, nodes, m0);
    assert ([c] + F)[1..] == F;
    assert ItemsOf([c] + F, m0) == [(nodes[p].key, nodes[p].value)] + ItemsOf(F, nodes);
    DeleteSecond(A, p, c, F, nodes);
  }

  /** Deleting the key of `c` from the entries of `A + [p] + [c] + F` leaves
      those of `A`, then `p`'s, then those of `F`. */
  lemma DeleteSecond<V>(A: seq<nat>, p: nat, c: nat, F: seq<nat>, nodes: map<nat, AvlNode<V>>)
    requires forall i :: i in A + [p] + [c] + F ==> i in nodes
    requires Sorted(ItemsOf(A + [p] + [c] + F, nodes))
    ensures Delete(ItemsOf(A + [p] + [c] + F, nodes), nodes[c].key) ==
      ItemsOf(A, nodes) + [(nodes[p].key, nodes[p].value)] + ItemsOf(F, nodes)
  {
    var eP, eC := (nodes[p].key, nodes[p].value), (nodes[c].key, nodes[c].value);
    assert ItemsOf([p], nodes) == [eP];
    ItemsOfConcat(A, [p], nodes);
    ItemsAround(A + [p], c, F, nodes, nodes);
    DeleteHit(ItemsOf(A, nodes) + [eP], eC, ItemsOf(F, nodes));
  }

  /** A node `c` with `k` and two children hands its entry to its predecessor
      `p` by a swap, and `p` is cut out in its stead. */
  lemma ReadySwapped<V>(t: Shape, nodes: map<nat, AvlNode<V>>, root: Ptr, nextId: nat, k: int, c: nat, p: nat,
                        m0: map<nat, AvlNode<V>>)
    requires Intact(t, nodes, root, nextId) && Sorted(InOrder(t, nodes))
    requires c in Ids(t) && nodes[c].key == k && Sub(t, c).Node? && Sub(t, c).left.Node?
    requires Seq(Sub(t, c).left)[|Seq(Sub(t, c).left)| - 1] == p && p in nodes && nodes[p].right == Null
    requires Swapped(nodes, c, p, m0)
    ensures ReadyToCut(t, nodes, root, nextId, k, p, m0)
  {
    NextTo(t, c, p);
    SwapIntact(t, nodes, root, nextId, c, p, m0);
    IdsSeq(t);
    SwapItems(Preceding(t, p), p, c, Following(t, c), nodes, m0);
  }

  /** The swap moves the stored heights of `c` and of its predecessor `p`
      with their entries; `c` is above `p`, so from true heights only `p` and
      the nodes above it are left stale. */
  lemma SwapStale<V>(t: Shape, nodes: map<nat, AvlNode<V>>, c: nat, p: nat, m0: map<nat, AvlNode<V>>)
    requires Distinct(t) && Ids(t) <= nodes.Keys && HeightsTrue(t, nodes)
    requires c in Ids(t) && Sub(t, c).Node? && Sub(t, c).left.Node?
    requires Seq(Sub(t, c).left)[|Seq(Sub(t, c).left)| - 1] == p
    requires Swapped(nodes, c, p, m0)
    ensures StaleFrom(t, m0, p)
  {
    var S := Sub(t, c);
    IdsSeq(S.left);
    assert p in Ids(S.left);
    SubDistinct(t, c);
    assert p in Ids(S) && p in Ids(t);
    TrueStale(t, nodes, p);
    assert SameHeights(Ids(t) - {p, c}, nodes, m0);
    StaleFrame(t, nodes, m0, p, c);
  }

  /** Cutting out `d`, the first node with a stale height, leaves the walk to
      start at the child that takes its place, else at its parent; with
      neither, the tree is empty and every height is true. */
  lemma CutStale<V>(t: Shape, m0: map<nat, AvlNode<V>>, root: Ptr, nextId: nat, d: nat, m1: map<nat, AvlNode<V>>)
    requires Intact(t, m0, root, nextId) && Spliced(d, m0, m1) && StaleFrom(t, m0, d)
    ensures StalePath(Rewrite(t, d, Kept(Sub(t, d))), m1, if Heir(m0[d]) != Null then Heir(m0[d]) else m0[d].parent)
  {
    var S := Sub(t, d);
    var c, q := Heir(m0[d]), m0[d].parent;
    NodeView(t, m0, d);
    SubDistinct(t, d);
    SplicedHeights(d, m0, m1);
    StaleChildren(t, m0, d);
    LinksConsistent(t, m0, root, d);
    DistinctNode(S.left, d, S.right);
    if c != Null {
      var C := Kept(S);
      assert C.Node? && C.id == c.id;
      assert SameHeights(Ids(C), m0, m1);
      TrueFrame(C, m0, m1);
      TrueStale(C, m1, c.id);
      assert SameHeights(Ids(t) - Ids(S), m0, m1);
      RewriteStale(t, m0, d, C, m1, c.id);
    } else if q != Null {
      ParentLink(t, m0, d);
      assert SameHeights(Ids(t) - {d}, m0, m1);
      CutLeafStale(t, m0, d, q.id, m1);
    } else {
      assert t == S;
    }
  }

  /** What the splice leaves: a sound arena with the entries of `Delete`, one
      node fewer than `nodes`. */
  ghost predicate CutDown<V>(t: Shape, nodes: map<nat, AvlNode<V>>, k: int, t1: Shape, m1: map<nat, AvlNode<V>>,
                             r1: Ptr, nextId: nat)
  {
    && Ids(t) <= nodes.Keys && Intact(t1, m1, r1, nextId)
    && InOrder(t1, m1) == Delete(InOrder(t, nodes), k)
    && m1.Keys < nodes.Keys && |m1.Keys| == |nodes.Keys| - 1
  }

  lemma CutDone<V>(t: Shape, nodes: map<nat, AvlNode<V>>, root: Ptr, nextId: nat, k: int, d: nat,
                   m0: map<nat, AvlNode<V>>, m1: map<nat, AvlNode<V>>, r1: Ptr)
    requires ReadyToCut(t, nodes, root, nextId, k, d, m0) && Spliced(d, m0, m1)
    requires r1 == if m0[d].parent == Null then Heir(m0[d]) else root
    ensures CutDown(t, nodes, k, Rewrite(t, d, Kept(Sub(t, d))), m1, r1, nextId)
  {
    CutKept(t, m0, root, nextId, d, m1, r1);
    assert m1.Keys == nodes.Keys - {d};
    assert nodes.Keys == m1.Keys + {d};
  }

  /** The node that rebalancing starts from after the splice is still in the arena. */
  lemma CutOff<V>(t: Shape, nodes: map<nat, AvlNode<V>>, root: Ptr, nextId: nat, k: int, d: nat,
                  m0: map<nat, AvlNode<V>>, m1: map<nat, AvlNode<V>>, r1: Ptr)
    requires ReadyToCut(t, nodes, root, nextId, k, d, m0) && Spliced(d, m0, m1)
    ensures Known(Heir(m0[d]), m1) && Known(m0[d].parent, m1)
  {
    CutSetting(t, m0, root, nextId, d);
  }

  /** remove on the arena: find `k`; if it is there, cut out its node (or,
      when that node has two children, its predecessor after a swap) and
      rebalance from the child that took its place, or else from its parent.
      The entries become those of `Delete`; exactly one node leaves the arena
      when `k` was present, and nothing changes when it was not. */
  method RemoveAt<V>(nodes: map<nat, AvlNode<V>>, root: Ptr, nextId: nat, k: int, ghost t: Shape)
      returns (m: map<nat, AvlNode<V>>, r: Ptr, ghost t': Shape, outcome: Outcome)
    requires Intact(t, nodes, root, nextId) && Sorted(InOrder(t, nodes))
    ensures Intact(t', m, r, nextId) && InOrder(t', m) == Delete(InOrder(t, nodes), k)
    ensures Lookup(InOrder(t, nodes), k) == None ==> m == nodes && r == root && outcome == Completed
    ensures Lookup(InOrder(t, nodes), k).Some? ==> m.Keys < nodes.Keys && |m.Keys| == |nodes.Keys| - 1
    ensures outcome.NullPivot? ==>
      && HeightFixed(m, outcome.at) && m[outcome.at].height > 1 && m[outcome.at].right == Null
    ensures Lookup(InOrder(t, nodes), k).Some? && outcome == Completed && r.At? ==>
      HeightFixed(m, r.id) && m[r.id].height <= 1
    ensures HeightsTrue(t, nodes) && outcome == Completed ==> HeightsTrue(t', m)
    ensures Lookup(InOrder(t, nodes), k).Some? && HeightsTrue(t, nodes) && outcome == Completed ==> Tall(t') <= 1
  {
    var node := Find(nodes, root, k, t);
    if node == Null {
      DeleteMissing(InOrder(t, nodes), k);
      return nodes, root, t, Completed;
    }
    var d := node.id;
    var m0 := nodes;
    if nodes[d].left != Null && nodes[d].right != Null {
      NodeView(t, nodes, d);
      var predecessor := Predecessor(nodes, d, Sub(t, d).left);
      m0 := NodeSwap(nodes, d, predecessor);
      ReadySwapped(t, nodes, root, nextId, k, d, predecessor, m0);
      if HeightsTrue(t, nodes) {
        SwapStale(t, nodes, d, predecessor, m0);
      }
      d := predecessor;
    } else {
      ReadyAsIs(t, nodes, root, nextId, k, d);
      if HeightsTrue(t, nodes) {
        TrueStale(t, nodes, d);
      }
    }
    m, r, t', outcome := Unlink(nodes, root, nextId, k, d, m0, t);
  }

  /** The second half of remove: splice out `d`, which has at most one child,
      and rebalance from the child that took its place, or else from its parent. */
  method Unlink<V>(nodes: map<nat, AvlNode<V>>, root: Ptr, nextId: nat, k: int, d: nat,
                   m0: map<nat, AvlNode<V>>, ghost t: Shape)
      returns (m: map<nat, AvlNode<V>>, r: Ptr, ghost t': Shape, outcome: Outcome)
    requires ReadyToCut(t, nodes, root, nextId, k, d, m0)
    ensures Intact(t', m, r, nextId) && InOrder(t', m) == Delete(InOrder(t, nodes), k)
    ensures m.Keys < nodes.Keys && |m.Keys| == |nodes.Keys| - 1
    ensures outcome.NullPivot? ==>
      && HeightFixed(m, outcome.at) && m[outcome.at].height > 1 && m[outcome.at].right == Null
    ensures outcome == Completed && r.At? ==> HeightFixed(m, r.id) && m[r.id].height <= 1
    ensures outcome == Completed && StaleFrom(t, m0, d) ==> HeightsTrue(t', m) && Tall(t') <= 1
  {
    var child := if m0[d].left != Null then m0[d].left else m0[d].right;
    var parent := m0[d].parent;
    var m1, r1 := CutOut(m0, root, d, child, parent, t, nextId);
    ghost var t1 := Rewrite(t, d, Kept(Sub(t, d)));
    CutDone(t, nodes, root, nextId, k, d, m0, m1, r1);
    CutOff(t, nodes, root, nextId, k, d, m0, m1, r1);
    if StaleFrom(t, m0, d) {
      CutStale(t, m0, root, nextId, d, m1);
    }
    m, r, t', outcome := Settle(t, nodes, k, m1, r1, child, parent, t1, nextId);
  }

  /** The rebalancing that ends remove: from the child that took the place of
      the removed node, or else from its parent; none when the tree is now empty. */
  method Settle<V>(ghost t: Shape, ghost nodes: map<nat, AvlNode<V>>, ghost k: int, m1: map<nat, AvlNode<V>>,
                   r1: Ptr, child: Ptr, parent: Ptr, ghost t1: Shape, ghost nextId: nat)
      returns (m: map<nat, AvlNode<V>>, r: Ptr, ghost t': Shape, outcome: Outcome)
    requires CutDown(t, nodes, k, t1, m1, r1, nextId) && Known(child, m1) && Known(parent, m1)
    requires parent == Null ==> r1 == child
    ensures Intact(t', m, r, nextId) && InOrder(t', m) == Delete(InOrder(t, nodes), k)
    ensures m.Keys < nodes.Keys && |m.Keys| == |nodes.Keys| - 1
    ensures outcome.NullPivot? ==>
      && HeightFixed(m, outcome.at) && m[outcome.at].height > 1 && m[outcome.at].right == Null
    ensures outcome == Completed && r.At? ==> HeightFixed(m, r.id) && m[r.id].height <= 1
    ensures outcome == Completed && StalePath(t1, m1, if child != Null then child else parent) ==>
      HeightsTrue(t', m) && Tall(t') <= 1
  {
    if child != Null {
      m, r, t', outcome := Rebalance(m1, r1, child, t1, nextId);
    } else if parent != Null {
      m, r, t', outcome := Rebalance(m1, r1, parent, t1, nextId);
    } else {
      m, r, t', outcome := m1, r1, t1, Completed;
    }
  }
}
