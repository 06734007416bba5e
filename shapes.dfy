/** The shape of a pointer-linked binary tree, written over node ids.
    A `Shape` is the ghost picture of which node hangs under which; the
    arena in module Arena holds the actual links and is tied to it there. */
module Shapes {

  /** A node reference: `Null` is the null pointer, `At(id)` a node of the arena. */
  datatype Ptr = Null | At(id: nat)

  datatype Shape = Leaf | Node(left: Shape, id: nat, right: Shape)

  function RootPtr(t: Shape): Ptr
  {
    if t.Leaf? then Null else At(t.id)
  }

  /** The in-order sequence of node ids. */
  function Seq(t: Shape): seq<nat>
  {
    match t
    case Leaf => []
    case Node(l, i, r) => Seq(l) + [i] + Seq(r)
  }

  function Ids(t: Shape): set<nat>
  {
    match t
    case Leaf => {}
    case Node(l, i, r) => Ids(l) + {i} + Ids(r)
  }

  ghost predicate NoDup(s: seq<nat>)
  {
    forall a, b :: 0 <= a < b < |s| ==> s[a] != s[b]
  }

  /** No node occurs twice: the links form a tree, not a DAG or a cycle. */
  ghost predicate Distinct(t: Shape)
  {
    NoDup(Seq(t))
  }

  /** The subtree rooted at node `i` (a `Leaf` when `i` is not in `t`). */
  function Sub(t: Shape, i: nat): Shape
  {
    match t
    case Leaf => Leaf
    case Node(l, j, r) => if j == i then t else if i in Ids(l) then Sub(l, i) else Sub(r, i)
  }

  /** The ids that come before the subtree of `i` in the in-order sequence. */
  function Before(t: Shape, i: nat): seq<nat>
  {
    match t
    case Leaf => []
    case Node(l, j, r) =>
      if j == i then [] else if i in Ids(l) then Before(l, i) else Seq(l) + [j] + Before(r, i)
  }

  /** The ids that come after the subtree of `i` in the in-order sequence. */
  function After(t: Shape, i: nat): seq<nat>
  {
    match t
    case Leaf => []
    case Node(l, j, r) =>
      if j == i then [] else if i in Ids(l) then After(l, i) + [j] + Seq(r) else After(r, i)
  }

  /** `t` with the subtree rooted at `i` replaced by `s`. */
  function Rewrite(t: Shape, i: nat, s: Shape): Shape
  {
    match t
    case Leaf => Leaf
    case Node(l, j, r) =>
      if j == i then s
      else if i in Ids(l) then Node(Rewrite(l, i, s), j, r)
      else Node(l, j, Rewrite(r, i, s))
  }

  /** What a left rotation does to a subtree whose root has a right child. */
  function RotL(t: Shape): Shape
  {
    match t
    case Node(a, x, Node(b, p, c)) => Node(Node(a, x, b), p, c)
    case _ => t
  }

  /** What a right rotation does to a subtree whose root has a left child. */
  function RotR(t: Shape): Shape
  {
    match t
    case Node(Node(a, p, b), x, c) => Node(a, p, Node(b, x, c))
    case _ => t
  }

  /** rotateRightLeft: a right rotation at the right child, then a left rotation at the root. */
  function RotRL(t: Shape): Shape
  {
    match t
    case Leaf => Leaf
    case Node(a, x, r) => RotL(Node(a, x, RotR(r)))
  }

  /** rotateLeftRight: a left rotation at the left child, then a right rotation at the root. */
  function RotLR(t: Shape): Shape
  {
    match t
    case Leaf => Leaf
    case Node(l, x, c) => RotR(Node(RotL(l), x, c))
  }

  /** `u` with a new leaf `n` hung in its empty left (or right) slot. */
  function Hang(u: Shape, n: nat, toLeft: bool): Shape
  {
    match u
    case Leaf => Node(Leaf, n, Leaf)
    case Node(l, i, r) => if toLeft then Node(Node(Leaf, n, Leaf), i, r) else Node(l, i, Node(Leaf, n, Leaf))
  }

  /** What is left of `u` once its root, which has at most one child, is cut out. */
  function Kept(u: Shape): Shape
  {
    match u
    case Leaf => Leaf
    case Node(l, _, r) => if l.Node? then l else r
  }

  /** Neither rotation changes the in-order sequence. */
  lemma RotationsKeepSeq(t: Shape)
    ensures Seq(RotL(t)) == Seq(t) && Ids(RotL(t)) == Ids(t)
    ensures Seq(RotR(t)) == Seq(t) && Ids(RotR(t)) == Ids(t)
  {
    match t
    case Leaf =>
    case Node(l, x, r) =>
      if r.Node? {
        assert Seq(RotL(t)) == Seq(l) + [x] + Seq(r.left) + [r.id] + Seq(r.right);
      }
      if l.Node? {
        assert Seq(RotR(t)) == Seq(l.left) + [l.id] + Seq(l.right) + [x] + Seq(r);
      }
  }

  /** Nor do the double rotations. */
  lemma DoubleRotationsKeepSeq(t: Shape)
    ensures Seq(RotRL(t)) == Seq(t) && Ids(RotRL(t)) == Ids(t)
    ensures Seq(RotLR(t)) == Seq(t) && Ids(RotLR(t)) == Ids(t)
  {
    match t
    case Leaf =>
    case Node(l, x, r) =>
      RotationsKeepSeq(r);
      RotationsKeepSeq(Node(l, x, RotR(r)));
      RotationsKeepSeq(l);
      RotationsKeepSeq(Node(RotL(l), x, r));
  }

  lemma {:induction false} IdsSeq(t: Shape)
    ensures forall x :: x in Ids(t) <==> x in Seq(t)
  {
    match t
    case Leaf =>
    case Node(l, i, r) =>
      IdsSeq(l);
      IdsSeq(r);
  }

  lemma NoDupConcat(a: seq<nat>, b: seq<nat>)
    ensures NoDup(a + b) <==> NoDup(a) && NoDup(b) && (forall x :: x in a ==> x !in b)
  {
    var ab := a + b;
    if NoDup(ab) {
      forall i, j | 0 <= i < j < |a| ensures a[i] != a[j] {
        assert a[i] == ab[i] && a[j] == ab[j];
      }
      forall i, j | 0 <= i < j < |b| ensures b[i] != b[j] {
        assert b[i] == ab[|a| + i] && b[j] == ab[|a| + j];
      }
      forall i, j | 0 <= i < |a| && 0 <= j < |b| ensures a[i] != b[j] {
        assert ab[i] == a[i] && ab[|a| + j] == b[j];
      }
    }
    if NoDup(a) && NoDup(b) && (forall x :: x in a ==> x !in b) {
      forall i, j | 0 <= i < j < |ab| ensures ab[i] != ab[j] {
        if j < |a| {
          assert ab[i] == a[i] && ab[j] == a[j];
        } else if i >= |a| {
          assert ab[i] == b[i - |a|] && ab[j] == b[j - |a|];
        } else {
          assert ab[i] == a[i] && ab[j] == b[j - |a|];
          assert a[i] in a;
        }
      }
    }
  }

  /** A tree is duplicate-free exactly when both children are, the root occurs
      in neither, and the children share no id. */
  lemma DistinctNode(l: Shape, i: nat, r: Shape)
    ensures Distinct(Node(l, i, r)) <==>
      Distinct(l) && Distinct(r) && i !in Ids(l) && i !in Ids(r) && Ids(l) !! Ids(r)
  {
    IdsSeq(l);
    IdsSeq(r);
    assert Seq(Node(l, i, r)) == Seq(l) + ([i] + Seq(r));
    NoDupConcat(Seq(l), [i] + Seq(r));
    NoDupConcat([i], Seq(r));
  }

  /** Sub finds the node, and the in-order sequence splits around its subtree. */
  lemma {:induction false} Split(t: Shape, i: nat)
    requires i in Ids(t)
    ensures Sub(t, i).Node? && Sub(t, i).id == i
    ensures Seq(t) == Before(t, i) + Seq(Sub(t, i)) + After(t, i)
  {
    match t
    case Node(l, j, r) =>
      if j == i {
      } else if i in Ids(l) {
        Split(l, i);
      } else {
        Split(r, i);
      }
  }

  /** Replacing a subtree replaces exactly its stretch of the in-order sequence. */
  lemma {:induction false} RewriteSeq(t: Shape, i: nat, s: Shape)
    requires i in Ids(t)
    ensures Seq(Rewrite(t, i, s)) == Before(t, i) + Seq(s) + After(t, i)
  {
    match t
    case Node(l, j, r) =>
      if j == i {
      } else if i in Ids(l) {
        RewriteSeq(l, i, s);
      } else {
        RewriteSeq(r, i, s);
      }
  }

  lemma {:induction false} RewriteAbsent(t: Shape, i: nat, s: Shape)
    requires i !in Ids(t)
    ensures Rewrite(t, i, s) == t
  {
    match t
    case Leaf =>
    case Node(l, j, r) =>
      RewriteAbsent(r, i, s);
  }

  /** A subtree of a duplicate-free tree is duplicate-free and draws on its ids. */
  lemma {:induction false} SubDistinct(t: Shape, i: nat)
    requires Distinct(t) && i in Ids(t)
    ensures Distinct(Sub(t, i)) && Ids(Sub(t, i)) <= Ids(t)
    ensures i != t.id ==> t.id !in Ids(Sub(t, i))
  {
    match t
    case Node(l, j, r) =>
      DistinctNode(l, j, r);
      if j == i {
      } else if i in Ids(l) {
        SubDistinct(l, i);
      } else {
        SubDistinct(r, i);
      }
  }

  /** The subtree of a node inside the subtree of `q` is the same seen from either. */
  lemma {:induction false} SubSub(t: Shape, q: nat, c: nat)
    requires Distinct(t) && q in Ids(t) && c in Ids(Sub(t, q))
    ensures Sub(t, c) == Sub(Sub(t, q), c)
  {
    match t
    case Node(l, j, r) =>
      DistinctNode(l, j, r);
      if j == q {
      } else if q in Ids(l) {
        SubDistinct(l, q);
        SubSub(l, q, c);
      } else {
        SubDistinct(r, q);
        SubSub(r, q, c);
      }
  }

  /** With no duplicates, rewriting trades the subtree's ids for those of `s`. */
  lemma {:induction false} IdsRewrite(t: Shape, i: nat, s: Shape)
    requires Distinct(t) && i in Ids(t)
    ensures Ids(Rewrite(t, i, s)) == Ids(t) - Ids(Sub(t, i)) + Ids(s)
  {
    match t
    case Node(l, j, r) =>
      DistinctNode(l, j, r);
      if j == i {
      } else if i in Ids(l) {
        SubDistinct(l, i);
        IdsRewrite(l, i, s);
      } else {
        SubDistinct(r, i);
        IdsRewrite(r, i, s);
      }
  }

  /** Putting a duplicate-free tree in place of a subtree keeps the whole tree
      duplicate-free, when the new tree shares with `t` no ids but the
      replaced subtree's. */
  lemma {:induction false} RewriteDistinct(t: Shape, i: nat, s: Shape)
    requires Distinct(t) && i in Ids(t) && Distinct(s) && Ids(s) * Ids(t) <= Ids(Sub(t, i))
    ensures Distinct(Rewrite(t, i, s))
  {
    match t
    case Node(l, j, r) =>
      DistinctNode(l, j, r);
      if j == i {
      } else if i in Ids(l) {
        SubDistinct(l, i);
        RewriteDistinct(l, i, s);
        IdsRewrite(l, i, s);
        DistinctNode(Rewrite(l, i, s), j, r);
      } else {
        SubDistinct(r, i);
        RewriteDistinct(r, i, s);
        IdsRewrite(r, i, s);
        DistinctNode(l, j, Rewrite(r, i, s));
      }
  }

  /** The ids of a node's children and grandchildren belong to its subtree. */
  lemma NearIds(s: Shape)
    requires s.Node?
    ensures s.id in Ids(s)
    ensures s.left.Node? ==> s.left.id in Ids(s)
    ensures s.left.Node? && s.left.left.Node? ==> s.left.left.id in Ids(s)
    ensures s.left.Node? && s.left.right.Node? ==> s.left.right.id in Ids(s)
    ensures s.right.Node? ==> s.right.id in Ids(s)
    ensures s.right.Node? && s.right.left.Node? ==> s.right.left.id in Ids(s)
    ensures s.right.Node? && s.right.right.Node? ==> s.right.right.id in Ids(s)
  {
  }

  /** Rewriting a subtree with a rotation of it keeps the in-order sequence,
      and the rotated subtree is found at its new root. */
  lemma RotatedInPlace(t: Shape, i: nat, s: Shape)
    requires Distinct(t) && i in Ids(t) && Seq(s) == Seq(Sub(t, i)) && Ids(s) == Ids(Sub(t, i)) && s.Node?
    ensures Distinct(Rewrite(t, i, s))
    ensures Seq(Rewrite(t, i, s)) == Seq(t)
    ensures Sub(Rewrite(t, i, s), s.id) == s
  {
    SubDistinct(t, i);
    Split(t, i);
    RewriteDistinct(t, i, s);
    RewriteSeq(t, i, s);
    SubOfRewrite(t, i, s);
  }

  /** The subtree at a child of the root is smaller than the whole. */
  lemma ChildSmaller(u: Shape, c: nat)
    requires u.Node? && c != u.id && (RootPtr(u.left) == At(c) || RootPtr(u.right) == At(c))
    ensures |Seq(Sub(u, c))| < |Seq(u)|
  {
    if RootPtr(u.left) == At(c) {
      assert c in Ids(u.left);
      assert Sub(u, c) == u.left;
    } else {
      assert c in Ids(u.right);
      if c in Ids(u.left) {
        assert |Seq(Sub(u.left, c))| <= |Seq(u.left)| by { Split(u.left, c); }
      } else {
        assert Sub(u, c) == u.right;
      }
    }
  }

  /** After the rewrite, the subtree at the new root is exactly `s`. */
  lemma {:induction false} SubOfRewrite(t: Shape, i: nat, s: Shape)
    requires i in Ids(t) && s.Node? && Distinct(Rewrite(t, i, s))
    ensures Sub(Rewrite(t, i, s), s.id) == s
  {
    match t
    case Node(l, j, r) =>
      if j == i {
      } else if i in Ids(l) {
        var l' := Rewrite(l, i, s);
        DistinctNode(l', j, r);
        RewriteSeq(l, i, s);
        IdsSeq(l');
        IdsSeq(s);
        assert s.id in Ids(l');
        SubOfRewrite(l, i, s);
      } else {
        var r' := Rewrite(r, i, s);
        DistinctNode(l, j, r');
        RewriteSeq(r, i, s);
        IdsSeq(r');
        IdsSeq(s);
        assert s.id in Ids(r');
        SubOfRewrite(r, i, s);
      }
  }

  /** Seen from a node outside the rewritten subtree, its own subtree is
      rewritten in the same way. */
  lemma {:induction false} SubOutside(t: Shape, i: nat, s: Shape, j: nat)
    requires Distinct(t) && i in Ids(t) && j in Ids(t) && j !in Ids(Sub(t, i))
    requires Ids(s) == Ids(Sub(t, i))
    ensures Sub(Rewrite(t, i, s), j) == Rewrite(Sub(t, j), i, s)
  {
    match t
    case Node(l, k, r) =>
      DistinctNode(l, k, r);
      if k == i {
      } else if k == j {
      } else if i in Ids(l) {
        SubDistinct(l, i);
        IdsRewrite(l, i, s);
        if j in Ids(l) {
          SubOutside(l, i, s, j);
        } else {
          assert j in Ids(r);
          SubDistinct(r, j);
          RewriteAbsent(Sub(r, j), i, s);
        }
      } else {
        SubDistinct(r, i);
        IdsRewrite(r, i, s);
        if j in Ids(l) {
          SubDistinct(l, j);
          RewriteAbsent(Sub(l, j), i, s);
        } else {
          SubOutside(r, i, s, j);
        }
      }
  }

  /** Rewriting a subtree inside the subtree of `i` and then the subtree of
      `i` itself is the same as rewriting the subtree of `i` alone. */
  lemma {:induction false} RewriteNested(t: Shape, i: nat, j: nat, u: Shape, w: Shape)
    requires Distinct(t) && i in Ids(t) && j in Ids(Sub(t, i)) && j != i
    requires Ids(u) == Ids(Sub(t, j))
    ensures Rewrite(Rewrite(t, j, u), i, w) == Rewrite(t, i, w)
  {
    match t
    case Node(l, k, r) =>
      DistinctNode(l, k, r);
      if k == i {
      } else if i in Ids(l) {
        SubDistinct(l, i);
        SubDistinct(l, j);
        IdsRewrite(l, j, u);
        RewriteNested(l, i, j, u, w);
      } else {
        SubDistinct(r, i);
        SubDistinct(r, j);
        IdsRewrite(r, j, u);
        RewriteNested(r, i, j, u, w);
      }
  }

  /** rotateRightLeft as two single rotations: the right rotation at the right
      child `p` of `x`, then the left rotation at `x`, draw `RotRL` at `x`. */
  lemma RightLeftShape(t: Shape, x: nat)
    requires Distinct(t) && x in Ids(t) && Sub(t, x).Node? && Sub(t, x).right.Node?
    ensures var S, p := Sub(t, x), Sub(t, x).right.id;
      && p in Ids(t) && Sub(t, p) == S.right
      && Sub(Rewrite(t, p, RotR(S.right)), x) == Node(S.left, x, RotR(S.right))
      && Rewrite(Rewrite(t, p, RotR(S.right)), x, RotL(Node(S.left, x, RotR(S.right)))) == Rewrite(t, x, RotRL(S))
  {
    var S, p := Sub(t, x), Sub(t, x).right.id;
    Split(t, x);
    DescendRight(t, x);
    SubDistinct(t, x);
    NearIds(S);
    SubDistinct(t, p);
    DistinctNode(S.left, x, S.right);
    RotationsKeepSeq(S.right);
    SubOutside(t, p, RotR(S.right), x);
    RewriteNested(t, x, p, RotR(S.right), RotL(Node(S.left, x, RotR(S.right))));
  }

  /** rotateLeftRight as two single rotations: the left rotation at the left
      child `p` of `x`, then the right rotation at `x`, draw `RotLR` at `x`. */
  lemma LeftRightShape(t: Shape, x: nat)
    requires Distinct(t) && x in Ids(t) && Sub(t, x).Node? && Sub(t, x).left.Node?
    ensures var S, p := Sub(t, x), Sub(t, x).left.id;
      && p in Ids(t) && Sub(t, p) == S.left
      && Sub(Rewrite(t, p, RotL(S.left)), x) == Node(RotL(S.left), x, S.right)
      && Rewrite(Rewrite(t, p, RotL(S.left)), x, RotR(Node(RotL(S.left), x, S.right))) == Rewrite(t, x, RotLR(S))
  {
    var S, p := Sub(t, x), Sub(t, x).left.id;
    Split(t, x);
    DescendLeft(t, x);
    SubDistinct(t, x);
    NearIds(S);
    SubDistinct(t, p);
    DistinctNode(S.left, x, S.right);
    RotationsKeepSeq(S.left);
    SubOutside(t, p, RotL(S.left), x);
    RewriteNested(t, x, p, RotL(S.left), RotR(Node(RotL(S.left), x, S.right)));
  }

  /** Stepping from a node to its left child: the stretch before is the same,
      the stretch after gains the node and its right subtree. */
  lemma {:induction false} DescendLeft(t: Shape, c: nat)
    requires Distinct(t) && c in Ids(t) && Sub(t, c).Node? && Sub(t, c).left.Node?
    ensures Sub(t, Sub(t, c).left.id) == Sub(t, c).left
    ensures Before(t, Sub(t, c).left.id) == Before(t, c)
    ensures After(t, Sub(t, c).left.id) == [c] + Seq(Sub(t, c).right) + After(t, c)
  {
    match t
    case Node(l, j, r) =>
      DistinctNode(l, j, r);
      if j == c {
        DistinctNode(l.left, l.id, l.right);
      } else if c in Ids(l) {
        SubDistinct(l, c);
        Split(l, c);
        DescendLeft(l, c);
      } else {
        SubDistinct(r, c);
        Split(r, c);
        DescendLeft(r, c);
      }
  }

  /** Stepping from a node to its right child: the stretch before gains the
      node and its left subtree, the stretch after is the same. */
  lemma {:induction false} DescendRight(t: Shape, c: nat)
    requires Distinct(t) && c in Ids(t) && Sub(t, c).Node? && Sub(t, c).right.Node?
    ensures Sub(t, Sub(t, c).right.id) == Sub(t, c).right
    ensures Before(t, Sub(t, c).right.id) == Before(t, c) + Seq(Sub(t, c).left) + [c]
    ensures After(t, Sub(t, c).right.id) == After(t, c)
  {
    match t
    case Node(l, j, r) =>
      DistinctNode(l, j, r);
      if j == c {
        DistinctNode(r.left, r.id, r.right);
      } else if c in Ids(l) {
        SubDistinct(l, c);
        Split(l, c);
        DescendRight(l, c);
      } else {
        SubDistinct(r, c);
        Split(r, c);
        DescendRight(r, c);
      }
  }

  lemma NoDupMiddle(a: seq<nat>, c: nat, b: seq<nat>)
    requires NoDup(a + [c] + b)
    ensures c !in a && c !in b
  {
    var s := a + [c] + b;
    assert s[|a|] == c;
    forall j | 0 <= j < |a| ensures a[j] != c {
      assert s[j] == a[j];
    }
    forall j | 0 <= j < |b| ensures b[j] != c {
      assert s[|a| + 1 + j] == b[j];
    }
  }

  /** The ids in order before node `c`: those before its subtree and those of its left subtree. */
  function Preceding(t: Shape, c: nat): seq<nat>
  {
    Before(t, c) + if Sub(t, c).Node? then Seq(Sub(t, c).left) else []
  }

  /** The ids in order after node `c`: those of its right subtree and those after its subtree. */
  function Following(t: Shape, c: nat): seq<nat>
  {
    (if Sub(t, c).Node? then Seq(Sub(t, c).right) else []) + After(t, c)
  }

  /** A node splits the in-order sequence into what comes before it and what
      comes after it, and occurs in neither part. */
  lemma Around(t: Shape, c: nat)
    requires Distinct(t) && c in Ids(t)
    ensures Seq(t) == Preceding(t, c) + [c] + Following(t, c)
    ensures c !in Preceding(t, c) && c !in Following(t, c)
    ensures Sub(t, c).Node? && Sub(t, c).id == c
  {
    Split(t, c);
    var S := Sub(t, c);
    Regroup(Before(t, c), Seq(S.left), c, Seq(S.right), After(t, c));
    NoDupMiddle(Preceding(t, c), c, Following(t, c));
  }

  lemma DropLast(s: seq<nat>)
    requires s != []
    ensures s == s[..|s| - 1] + [s[|s| - 1]]
  {
  }

  lemma Regroup2(b: seq<nat>, l: seq<nat>, r: seq<nat>, a: seq<nat>)
    ensures b + (l + r) + a == (b + l) + (r + a)
  {
  }

  lemma Regroup(b: seq<nat>, l: seq<nat>, c: nat, r: seq<nat>, a: seq<nat>)
    ensures b + (l + [c] + r) + a == (b + l) + [c] + (r + a)
  {
  }

  /** In a sequence without repeats, the parts before and after an element are unique. */
  lemma SplitUnique(s: seq<nat>, x: seq<nat>, p: nat, y: seq<nat>, x': seq<nat>, y': seq<nat>)
    requires NoDup(s) && s == x + [p] + y && s == x' + [p] + y'
    ensures x == x' && y == y'
  {
    assert s[|x|] == p && s[|x'|] == p;
    assert |x| == |x'|;
    assert x == s[..|x|] == x';
    assert y == s[|x| + 1..] == y';
  }
}
