/** Stored heights against true heights. avlbst.h keeps the height of a
    node's subtree in its `balance_` field (`height` in the arena);
    `getHeight` reads it and `updateHeight` recomputes it from the children.
    This module says when the stored fields are the true heights of the
    subtrees, everywhere or everywhere but on the path that the rebalancing
    walk still has to climb, and how the tree operations move between those
    states. */
module Heights {
  import opened Ints
  import opened Shapes
  import opened Arena

  /** The height of a tree counted in links, -1 for the empty tree: the
      measure `getHeight` reports and `updateHeight` computes. */
  function Tall(u: Shape): (h: int)
    ensures h >= -1 && (h == -1 <==> u == Leaf)
  {
    match u
    case Leaf => -1
    case Node(l, _, r) => Max(Tall(l), Tall(r)) + 1
  }

  /** Every node of `u` stores the true height of its subtree. */
  ghost predicate HeightsTrue<V>(u: Shape, nodes: map<nat, AvlNode<V>>)
  {
    match u
    case Leaf => true
    case Node(l, i, r) =>
      && i in nodes && nodes[i].height == Tall(u)
      && HeightsTrue(l, nodes) && HeightsTrue(r, nodes)
  }

  /** Every node of `t` stores the true height of its subtree, except perhaps
      `c` and the nodes above it: the state in which the walk of `rebalance`
      is about to visit `c`. */
  ghost predicate StaleFrom<V>(t: Shape, nodes: map<nat, AvlNode<V>>, c: nat)
  {
    match t
    case Leaf => true
    case Node(l, i, r) =>
      if i == c then HeightsTrue(l, nodes) && HeightsTrue(r, nodes)
      else if c in Ids(l) then StaleFrom(l, nodes, c) && HeightsTrue(r, nodes)
      else if c in Ids(r) then HeightsTrue(l, nodes) && StaleFrom(r, nodes, c)
      else HeightsTrue(t, nodes)
  }

  /** `StaleFrom` for a cursor that may be null: past the root, every stored
      height is true. */
  ghost predicate StalePath<V>(t: Shape, nodes: map<nat, AvlNode<V>>, p: Ptr)
  {
    if p == Null then HeightsTrue(t, nodes) else StaleFrom(t, nodes, p.id)
  }

  /** The nodes `ids` are in both arenas and store the same heights there. */
  ghost predicate SameHeights<V>(ids: set<nat>, a: map<nat, AvlNode<V>>, b: map<nat, AvlNode<V>>)
  {
    forall j :: j in ids ==> j in a && j in b && b[j].height == a[j].height
  }

  lemma SameHeightsOn<V>(ids: set<nat>, ids': set<nat>, a: map<nat, AvlNode<V>>, b: map<nat, AvlNode<V>>)
    requires SameHeights(ids, a, b) && ids' <= ids
    ensures SameHeights(ids', a, b)
  {
  }

  /** Arenas with the same nodes whose heights differ only on `out` agree on
      every set of nodes outside `out`. */
  lemma SameHeightsBeside<V>(a: map<nat, AvlNode<V>>, b: map<nat, AvlNode<V>>, out: set<nat>, ids: set<nat>)
    requires a.Keys == b.Keys && forall j :: j in a && j !in out ==> b[j].height == a[j].height
    requires ids <= a.Keys && ids !! out
    ensures SameHeights(ids, a, b)
  {
  }

  /** With true heights, `getHeight` of a subtree's root is its height. */
  lemma TrueGet<V>(u: Shape, nodes: map<nat, AvlNode<V>>)
    requires HeightsTrue(u, nodes) && HeightsOk(nodes)
    ensures Known(RootPtr(u), nodes) && GetHeight(nodes, RootPtr(u)) == Tall(u)
  {
  }

  /** True heights survive any change that keeps the stored heights of the
      subtree's nodes. */
  lemma {:induction false} TrueFrame<V>(u: Shape, a: map<nat, AvlNode<V>>, b: map<nat, AvlNode<V>>)
    requires HeightsTrue(u, a)
    requires SameHeights(Ids(u), a, b)
    ensures HeightsTrue(u, b)
  {
    match u
    case Leaf =>
    case Node(l, i, r) =>
      TrueFrame(l, a, b);
      TrueFrame(r, a, b);
  }

  /** True heights everywhere give true heights in every subtree. */
  lemma {:induction false} TrueSub<V>(t: Shape, nodes: map<nat, AvlNode<V>>, j: nat)
    requires HeightsTrue(t, nodes) && j in Ids(t)
    ensures HeightsTrue(Sub(t, j), nodes)
  {
    match t
    case Node(l, i, r) =>
      if i == j {
      } else if j in Ids(l) {
        TrueSub(l, nodes, j);
      } else {
        TrueSub(r, nodes, j);
      }
  }

  /** True heights everywhere are in particular true below and beside `c`. */
  lemma {:induction false} TrueStale<V>(t: Shape, nodes: map<nat, AvlNode<V>>, c: nat)
    requires HeightsTrue(t, nodes)
    ensures StaleFrom(t, nodes, c)
  {
    match t
    case Leaf =>
    case Node(l, i, r) =>
      if i == c {
      } else if c in Ids(l) {
        TrueStale(l, nodes, c);
      } else if c in Ids(r) {
        TrueStale(r, nodes, c);
      }
  }

  /** Below `c` the stored heights are true. */
  lemma {:induction false} StaleChildren<V>(t: Shape, nodes: map<nat, AvlNode<V>>, c: nat)
    requires StaleFrom(t, nodes, c) && c in Ids(t)
    ensures Sub(t, c).Node?
    ensures HeightsTrue(Sub(t, c).left, nodes) && HeightsTrue(Sub(t, c).right, nodes)
  {
    match t
    case Node(l, i, r) =>
      if i == c {
      } else if c in Ids(l) {
        StaleChildren(l, nodes, c);
      } else {
        StaleChildren(r, nodes, c);
      }
  }

  /** Changing the stored heights of `c` and of one node `d` above it (or `c`
      itself) keeps the heights true wherever they were. */
  lemma {:induction false} StaleFrame<V>(t: Shape, a: map<nat, AvlNode<V>>, b: map<nat, AvlNode<V>>, c: nat, d: nat)
    requires StaleFrom(t, a, c) && Distinct(t) && d in Ids(t) && c in Ids(Sub(t, d))
    requires SameHeights(Ids(t) - {c, d}, a, b)
    ensures StaleFrom(t, b, c)
  {
    match t
    case Node(l, i, r) =>
      DistinctNode(l, i, r);
      SubDistinct(t, d);
      if i == c {
        assert d == i by {
          if d != i && d in Ids(l) {
            SubDistinct(l, d);
          } else if d != i {
            SubDistinct(r, d);
          }
        }
        SameHeightsOn(Ids(t) - {c, d}, Ids(l), a, b);
        SameHeightsOn(Ids(t) - {c, d}, Ids(r), a, b);
        TrueFrame(l, a, b);
        TrueFrame(r, a, b);
      } else if c in Ids(l) {
        assert d !in Ids(r) by {
          if d in Ids(r) {
            SubDistinct(r, d);
          }
        }
        if d in Ids(l) {
          SubDistinct(l, d);
        } else {
          Split(l, c);
        }
        SameHeightsOn(Ids(t) - {c, d}, Ids(l) - {c, if d in Ids(l) then d else c}, a, b);
        StaleFrame(l, a, b, c, if d in Ids(l) then d else c);
        SameHeightsOn(Ids(t) - {c, d}, Ids(r), a, b);
        TrueFrame(r, a, b);
      } else {
        assert d !in Ids(l) by {
          if d in Ids(l) {
            SubDistinct(l, d);
          }
        }
        if d in Ids(r) {
          SubDistinct(r, d);
        } else {
          Split(r, c);
        }
        SameHeightsOn(Ids(t) - {c, d}, Ids(r) - {c, if d in Ids(r) then d else c}, a, b);
        StaleFrame(r, a, b, c, if d in Ids(r) then d else c);
        SameHeightsOn(Ids(t) - {c, d}, Ids(l), a, b);
        TrueFrame(l, a, b);
      }
  }

  /** A node whose stored height is fixed over children with true heights
      has a true height too. */
  lemma FixedTrue<V>(u: Shape, nodes: map<nat, AvlNode<V>>)
    requires u.Node? && HeightFixed(nodes, u.id)
    requires nodes[u.id].left == RootPtr(u.left) && nodes[u.id].right == RootPtr(u.right)
    requires HeightsTrue(u.left, nodes) && HeightsTrue(u.right, nodes)
    ensures HeightsTrue(u, nodes)
  {
    TrueGet(u.left, nodes);
    TrueGet(u.right, nodes);
  }

  /** `updateHeight(n)` at the node the walk visits makes the whole subtree of
      `n` true; above `n` nothing changes. */
  lemma StaleFix<V>(t: Shape, m: map<nat, AvlNode<V>>, m': map<nat, AvlNode<V>>, n: nat)
    requires Shaped(t, m') && Distinct(t) && n in Ids(t) && Ids(t) <= m.Keys && StaleFrom(t, m, n)
    requires n in m && n in m' && m' == m[n := m[n].(height := m'[n].height)] && HeightFixed(m', n)
    ensures StaleFrom(t, m', n) && HeightsTrue(Sub(t, n), m')
  {
    StaleChildren(t, m, n);
    Split(t, n);
    SubDistinct(t, n);
    var S := Sub(t, n);
    DistinctNode(S.left, n, S.right);
    TrueFrame(S.left, m, m');
    TrueFrame(S.right, m, m');
    NodeView(t, m', n);
    FixedTrue(S, m');
    StaleFrame(t, m, m', n, n);
  }

  /** Once the subtree of `c` is true, the walk may step up to the parent `q`
      of `c`. */
  lemma {:induction false} StaleUp<V>(t: Shape, nodes: map<nat, AvlNode<V>>, c: nat, q: nat)
    requires Distinct(t) && q in Ids(t)
    requires Sub(t, q).Node? && (RootPtr(Sub(t, q).left) == At(c) || RootPtr(Sub(t, q).right) == At(c))
    requires StaleFrom(t, nodes, c) && HeightsTrue(Sub(t, c), nodes)
    ensures StaleFrom(t, nodes, q)
  {
    match t
    case Node(l, i, r) =>
      DistinctNode(l, i, r);
      if i == q {
        if l.Node? && l.id == c {
          assert Sub(t, c) == l;
        } else {
          assert c !in Ids(l) && Sub(t, c) == r;
        }
      } else if q in Ids(l) {
        SubDistinct(l, q);
        Split(l, q);
        assert c in Ids(Sub(l, q));
        StaleUp(l, nodes, c, q);
      } else {
        SubDistinct(r, q);
        Split(r, q);
        assert c in Ids(Sub(r, q));
        StaleUp(r, nodes, c, q);
      }
  }

  /** Once the subtree of `n` is true, the walk steps to the parent of `n`;
      past the root, the whole tree is true. */
  lemma StepUp<V>(t: Shape, nodes: map<nat, AvlNode<V>>, root: Ptr, n: nat)
    requires Linked(t, nodes, root) && n in nodes
    requires StaleFrom(t, nodes, n) && HeightsTrue(Sub(t, n), nodes)
    ensures StalePath(t, nodes, nodes[n].parent)
  {
    LinksConsistent(t, nodes, root, n);
    if n == t.id {
    } else {
      ParentLink(t, nodes, n);
      StaleUp(t, nodes, n, nodes[n].parent.id);
    }
  }

  /** Replacing the subtree of `n` by `s` carries the true heights beside the
      path to `n` over, when `s` brings in no node from elsewhere in the tree
      and those nodes keep their stored heights. */
  lemma {:induction false} RewriteStale<V>(t: Shape, m: map<nat, AvlNode<V>>, n: nat, s: Shape,
                                           m2: map<nat, AvlNode<V>>, c: nat)
    requires Distinct(t) && n in Ids(t) && StaleFrom(t, m, n)
    requires c in Ids(s) && StaleFrom(s, m2, c)
    requires Ids(s) !! (Ids(t) - Ids(Sub(t, n)))
    requires SameHeights(Ids(t) - Ids(Sub(t, n)), m, m2)
    ensures StaleFrom(Rewrite(t, n, s), m2, c)
  {
    match t
    case Node(l, i, r) =>
      DistinctNode(l, i, r);
      if i == n {
      } else if n in Ids(l) {
        SubDistinct(l, n);
        IdsRewrite(l, n, s);
        RewriteStale(l, m, n, s, m2, c);
        TrueFrame(r, m, m2);
      } else {
        SubDistinct(r, n);
        IdsRewrite(r, n, s);
        RewriteStale(r, m, n, s, m2, c);
        TrueFrame(l, m, m2);
      }
  }

  /** Cutting out a childless node `p` under `q` leaves the walk to start at
      `q`, when every other node keeps its stored height. */
  lemma {:induction false} CutLeafStale<V>(t: Shape, m: map<nat, AvlNode<V>>, p: nat, q: nat,
                                           m2: map<nat, AvlNode<V>>)
    requires Distinct(t) && q in Ids(t) && StaleFrom(t, m, p)
    requires Sub(t, q).Node? && (RootPtr(Sub(t, q).left) == At(p) || RootPtr(Sub(t, q).right) == At(p))
    requires Sub(t, p) == Node(Leaf, p, Leaf)
    requires SameHeights(Ids(t) - {p}, m, m2)
    ensures StaleFrom(Rewrite(t, p, Leaf), m2, q)
  {
    match t
    case Node(l, i, r) =>
      DistinctNode(l, i, r);
      if i == q {
        if l.Node? && l.id == p {
          TrueFrame(r, m, m2);
        } else {
          assert r.id == p && p !in Ids(l);
          TrueFrame(l, m, m2);
        }
      } else if q in Ids(l) {
        SubDistinct(l, q);
        Split(l, q);
        assert p in Ids(Sub(l, q));
        SubDistinct(l, p);
        IdsRewrite(l, p, Leaf);
        CutLeafStale(l, m, p, q, m2);
        TrueFrame(r, m, m2);
      } else {
        SubDistinct(r, q);
        Split(r, q);
        assert p in Ids(Sub(r, q));
        SubDistinct(r, p);
        IdsRewrite(r, p, Leaf);
        CutLeafStale(r, m, p, q, m2);
        TrueFrame(l, m, m2);
      }
  }

  /** A left rotation with `x` and the pivot re-heighted, and no other height
      changed, keeps a true subtree true. */
  lemma RotLTrue<V>(S: Shape, m: map<nat, AvlNode<V>>, m2: map<nat, AvlNode<V>>)
    requires S.Node? && S.right.Node? && Distinct(S) && HeightsTrue(S, m)
    requires Shaped(RotL(S), m2) && HeightFixed(m2, S.id) && HeightFixed(m2, S.right.id)
    requires SameHeights(Ids(S) - {S.id, S.right.id}, m, m2)
    ensures HeightsTrue(RotL(S), m2)
  {
    var a, x, b, p, c := S.left, S.id, S.right.left, S.right.id, S.right.right;
    DistinctNode(a, x, S.right);
    DistinctNode(b, p, c);
    TrueFrame(a, m, m2);
    TrueFrame(b, m, m2);
    TrueFrame(c, m, m2);
    FixedTrue(Node(a, x, b), m2);
    FixedTrue(RotL(S), m2);
  }

  /** The mirror image of `RotLTrue`. */
  lemma RotRTrue<V>(S: Shape, m: map<nat, AvlNode<V>>, m2: map<nat, AvlNode<V>>)
    requires S.Node? && S.left.Node? && Distinct(S) && HeightsTrue(S, m)
    requires Shaped(RotR(S), m2) && HeightFixed(m2, S.id) && HeightFixed(m2, S.left.id)
    requires SameHeights(Ids(S) - {S.id, S.left.id}, m, m2)
    ensures HeightsTrue(RotR(S), m2)
  {
    var a, p, b, x, c := S.left.left, S.left.id, S.left.right, S.id, S.right;
    DistinctNode(S.left, x, c);
    DistinctNode(a, p, b);
    TrueFrame(a, m, m2);
    TrueFrame(b, m, m2);
    TrueFrame(c, m, m2);
    FixedTrue(Node(b, x, c), m2);
    FixedTrue(RotR(S), m2);
  }

  /** A right-left rotation with `x`, its right child and that child's left
      child re-heighted, and no other height changed, keeps a true subtree true. */
  lemma RotRLTrue<V>(S: Shape, m: map<nat, AvlNode<V>>, m2: map<nat, AvlNode<V>>)
    requires S.Node? && S.right.Node? && S.right.left.Node? && Distinct(S) && HeightsTrue(S, m)
    requires Shaped(RotRL(S), m2)
    requires HeightFixed(m2, S.id) && HeightFixed(m2, S.right.id) && HeightFixed(m2, S.right.left.id)
    requires SameHeights(Ids(S) - {S.id, S.right.id, S.right.left.id}, m, m2)
    ensures HeightsTrue(RotRL(S), m2)
  {
    var a, x, c, d := S.left, S.id, S.right.id, S.right.right;
    var b1, q, b2 := S.right.left.left, S.right.left.id, S.right.left.right;
    DistinctNode(a, x, S.right);
    DistinctNode(S.right.left, c, d);
    DistinctNode(b1, q, b2);
    assert HeightsTrue(S.right, m) && HeightsTrue(S.right.left, m);
    TrueFrame(a, m, m2);
    TrueFrame(b1, m, m2);
    TrueFrame(b2, m, m2);
    TrueFrame(d, m, m2);
    assert RotRL(S) == Node(Node(a, x, b1), q, Node(b2, c, d));
    FixedTrue(Node(a, x, b1), m2);
    FixedTrue(Node(b2, c, d), m2);
    FixedTrue(RotRL(S), m2);
  }

  /** The mirror image of `RotRLTrue`. */
  lemma RotLRTrue<V>(S: Shape, m: map<nat, AvlNode<V>>, m2: map<nat, AvlNode<V>>)
    requires S.Node? && S.left.Node? && S.left.right.Node? && Distinct(S) && HeightsTrue(S, m)
    requires Shaped(RotLR(S), m2)
    requires HeightFixed(m2, S.id) && HeightFixed(m2, S.left.id) && HeightFixed(m2, S.left.right.id)
    requires SameHeights(Ids(S) - {S.id, S.left.id, S.left.right.id}, m, m2)
    ensures HeightsTrue(RotLR(S), m2)
  {
    var a, c, x, d := S.left.left, S.left.id, S.id, S.right;
    var b1, q, b2 := S.left.right.left, S.left.right.id, S.left.right.right;
    DistinctNode(S.left, x, d);
    DistinctNode(a, c, S.left.right);
    DistinctNode(b1, q, b2);
    assert HeightsTrue(S.left, m) && HeightsTrue(S.left.right, m);
    TrueFrame(a, m, m2);
    TrueFrame(b1, m, m2);
    TrueFrame(b2, m, m2);
    TrueFrame(d, m, m2);
    assert RotLR(S) == Node(Node(a, c, b1), q, Node(b2, x, d));
    FixedTrue(Node(a, c, b1), m2);
    FixedTrue(Node(b2, x, d), m2);
    FixedTrue(RotLR(S), m2);
  }

  /** A left rotation at `n` of a subtree whose heights are true, in a tree
      whose only stale heights are above `n`, which re-heights `n` and the
      pivot and no other node, leaves stale only the pivot and what is above it. */
  lemma RotLStale<V>(t: Shape, m: map<nat, AvlNode<V>>, n: nat, t2: Shape, m2: map<nat, AvlNode<V>>)
    requires Distinct(t) && n in Ids(t) && Sub(t, n).Node? && Sub(t, n).right.Node?
    requires StaleFrom(t, m, n) && HeightsTrue(Sub(t, n), m)
    requires t2 == Rewrite(t, n, RotL(Sub(t, n))) && Shaped(RotL(Sub(t, n)), m2)
    requires HeightFixed(m2, n) && HeightFixed(m2, Sub(t, n).right.id)
    requires Ids(t) <= m.Keys && m2.Keys == m.Keys
    requires forall j :: j in m && j != n && j != Sub(t, n).right.id ==> m2[j].height == m[j].height
    ensures StaleFrom(t2, m2, Sub(t, n).right.id)
  {
    var S := Sub(t, n);
    var p := S.right.id;
    SubDistinct(t, n);
    RotationsKeepSeq(S);
    Split(t, n);
    assert p in Ids(S);
    SameHeightsBeside(m, m2, {n, p}, Ids(S) - {n, p});
    RotLTrue(S, m, m2);
    TrueStale(RotL(S), m2, p);
    SameHeightsBeside(m, m2, {n, p}, Ids(t) - Ids(S));
    RewriteStale(t, m, n, RotL(S), m2, p);
  }

  /** The same for a right-left rotation at `n`, which re-heights `n`, its
      right child and that child's left child `q`, and leaves stale only `q`
      and what is above it. */
  lemma RotRLStale<V>(t: Shape, m: map<nat, AvlNode<V>>, n: nat, t2: Shape, m2: map<nat, AvlNode<V>>)
    requires Distinct(t) && n in Ids(t) && Sub(t, n).Node? && Sub(t, n).right.Node? && Sub(t, n).right.left.Node?
    requires StaleFrom(t, m, n) && HeightsTrue(Sub(t, n), m)
    requires t2 == Rewrite(t, n, RotRL(Sub(t, n))) && Shaped(RotRL(Sub(t, n)), m2)
    requires HeightFixed(m2, n) && HeightFixed(m2, Sub(t, n).right.id) && HeightFixed(m2, Sub(t, n).right.left.id)
    requires Ids(t) <= m.Keys && m2.Keys == m.Keys
    requires forall j :: j in m && j != n && j != Sub(t, n).right.id && j != Sub(t, n).right.left.id ==>
      m2[j].height == m[j].height
    ensures StaleFrom(t2, m2, Sub(t, n).right.left.id)
  {
    var S := Sub(t, n);
    var c, q := S.right.id, S.right.left.id;
    SubDistinct(t, n);
    DoubleRotationsKeepSeq(S);
    Split(t, n);
    assert c in Ids(S) && q in Ids(S);
    assert StaleFrom(RotRL(S), m2, q) by {
      SameHeightsBeside(m, m2, {n, c, q}, Ids(S) - {n, c, q});
      RotRLTrue(S, m, m2);
      TrueStale(RotRL(S), m2, q);
    }
    assert SameHeights(Ids(t) - Ids(S), m, m2) by {
      SameHeightsBeside(m, m2, {n, c, q}, Ids(t) - Ids(S));
    }
    RewriteStale(t, m, n, RotRL(S), m2, q);
  }

  /** Hanging a new childless node `n` in an empty slot of `P`, in a tree
      whose stored heights are all true and stay so, leaves stale only `n`
      and the nodes above it. */
  lemma HangStale<V>(t: Shape, nodes: map<nat, AvlNode<V>>, P: nat, n: nat, toLeft: bool, m: map<nat, AvlNode<V>>)
    requires Distinct(t) && P in Ids(t) && n !in Ids(t) && HeightsTrue(t, nodes)
    requires SameHeights(Ids(t), nodes, m)
    requires Sub(t, P).Node? && if toLeft then Sub(t, P).left == Leaf else Sub(t, P).right == Leaf
    ensures StaleFrom(Rewrite(t, P, Hang(Sub(t, P), n, toLeft)), m, n)
  {
    var S := Sub(t, P);
    Split(t, P);
    SubDistinct(t, P);
    TrueFrame(t, nodes, m);
    TrueStale(t, m, P);
    TrueSub(t, m, P);
    assert StaleFrom(Hang(S, n, toLeft), m, n);
    SameHeightsOn(Ids(t), Ids(t) - Ids(S), nodes, m);
    assert SameHeights(Ids(t) - Ids(S), m, m);
    RewriteStale(t, m, P, Hang(S, n, toLeft), m, n);
  }

  /** A tree of height at most 1 holds at most three nodes. */
  lemma LowTree(t: Shape)
    requires Tall(t) <= 1
    ensures |Seq(t)| <= 3
  {
    match t
    case Leaf =>
    case Node(l, _, r) =>
      assert Tall(l) <= 0 && Tall(r) <= 0;
      assert |Seq(l)| <= 1 by {
        if l.Node? {
          assert l.left == Leaf && l.right == Leaf;
        }
      }
      assert |Seq(r)| <= 1 by {
        if r.Node? {
          assert r.left == Leaf && r.right == Leaf;
        }
      }
  }

  /** A tree no taller than 1 holds at most three entries. */
  lemma FewEntries<V>(t: Shape, nodes: map<nat, AvlNode<V>>)
    requires Ids(t) <= nodes.Keys && Tall(t) <= 1
    ensures |InOrder(t, nodes)| <= 3
  {
    LowTree(t);
    IdsSeq(t);
    ItemsOfIndex(Seq(t), nodes);
  }
}
