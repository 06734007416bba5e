/** The leaf-depth checker of equal-paths.cpp: does every childless node of a
    binary tree sit at the same depth?  Nodes carry no data that matters here,
    so a tree is only its shape. */
module EqualPaths {
  import opened Ints

  datatype Tree = Nil | Node(left: Tree, right: Tree)

  /** getHeight: the number of nodes on the longest downward path; null has height 0. */
  function Height(t: Tree): (h: int)
    ensures h >= 0
    ensures h == 0 <==> t == Nil
  {
    match t
    case Nil => 0
    case Node(l, r) => 1 + Max(Height(l), Height(r))
  }

  /** Depths of the childless nodes of `t`, when the root of `t` is at depth `d`. */
  function Leaves(t: Tree, d: int): set<int>
  {
    match t
    case Nil => {}
    case Node(l, r) => if l == Nil && r == Nil then {d} else Leaves(l, d + 1) + Leaves(r, d + 1)
  }

  /** Depths of the null links the checker visits: both links of a node with two
      children or none, only the present one of a node with one child. */
  function Ends(t: Tree, d: int): set<int>
  {
    match t
    case Nil => {d}
    case Node(l, r) =>
      if l == Nil && r != Nil then Ends(r, d + 1)
      else if l != Nil && r == Nil then Ends(l, d + 1)
      else Ends(l, d + 1) + Ends(r, d + 1)
  }

  /** Depth of the first null link the checker reaches (left before right). */
  function FirstEnd(t: Tree, d: int): int
  {
    match t
    case Nil => d
    case Node(l, r) =>
      if l == Nil && r != Nil then FirstEnd(r, d + 1) else FirstEnd(l, d + 1)
  }

  /** checkEqualPaths, with the in/out `pathHeight` returned as the second
      component.  `pathHeight == -1` means that no null link has been reached. */
  function CheckEqualPaths(t: Tree, currentHeight: int, pathHeight: int): (r: (bool, int))
    // once recorded, pathHeight is never changed again
    ensures pathHeight != -1 ==> r.1 == pathHeight
    // otherwise it is fixed at the depth of the first null link reached
    ensures pathHeight == -1 && currentHeight >= 0 ==> r.1 == FirstEnd(t, currentHeight) >= currentHeight
  {
    match t
    case Nil =>
      var recorded := if pathHeight == -1 then currentHeight else pathHeight;
      (recorded == currentHeight, recorded)
    case Node(l, r) =>
      if l == Nil && r != Nil then
        CheckEqualPaths(r, currentHeight + 1, pathHeight)
      else if l != Nil && r == Nil then
        CheckEqualPaths(l, currentHeight + 1, pathHeight)
      else
        var (leftOk, recorded) := CheckEqualPaths(l, currentHeight + 1, pathHeight);
        if !leftOk then (false, recorded)
        else CheckEqualPaths(r, currentHeight + 1, recorded)
  }

  /** Every depth in `s` equals `v`. */
  ghost predicate AllAt(s: set<int>, v: int)
  {
    forall x :: x in s ==> x == v
  }

  /** equalPaths, returning the final pathHeight beside the verdict: the depth
      of the first null link, and whether every null link visited is there. */
  function EqualPathsWithHeight(root: Tree): (r: (bool, int))
    ensures r.1 == FirstEnd(root, 0) >= 0
    ensures r.0 <==> AllAt(Ends(root, 0), r.1)
  {
    CheckSpec(root, 0, -1);
    CheckEqualPaths(root, 0, -1)
  }

  /** equalPaths: every null link visited lies at the depth of the first one. */
  function EqualPaths(root: Tree): (ok: bool)
    ensures ok <==> AllAt(Ends(root, 0), FirstEnd(root, 0))
  {
    EqualPathsWithHeight(root).0
  }

  /** Every null link visited is reached at exactly the recorded depth, or the
      check fails; the first one fixes that depth. */
  lemma {:induction false} CheckSpec(t: Tree, d: int, pathHeight: int)
    requires d >= 0
    ensures CheckEqualPaths(t, d, pathHeight).1 == if pathHeight == -1 then FirstEnd(t, d) else pathHeight
    ensures CheckEqualPaths(t, d, pathHeight).0 <==> AllAt(Ends(t, d), CheckEqualPaths(t, d, pathHeight).1)
  {
    match t
    case Nil =>
    case Node(l, r) =>
      if l == Nil && r != Nil {
        CheckSpec(r, d + 1, pathHeight);
      } else if l != Nil && r == Nil {
        CheckSpec(l, d + 1, pathHeight);
      } else {
        assert Ends(t, d) == Ends(l, d + 1) + Ends(r, d + 1);
        CheckSpec(l, d + 1, pathHeight);
        var target := if pathHeight == -1 then FirstEnd(t, d) else pathHeight;
        CheckSpec(r, d + 1, target);
      }
  }

  /** The null links visited by the checker lie exactly one below the childless nodes. */
  lemma {:induction false} EndsAreBelowLeaves(t: Tree, d: int)
    requires t != Nil
    ensures forall x :: x in Leaves(t, d) ==> x + 1 in Ends(t, d)
    ensures forall x :: x in Ends(t, d) ==> x - 1 in Leaves(t, d)
    ensures FirstEnd(t, d) in Ends(t, d)
  {
    match t
    case Node(l, r) =>
      if l == Nil && r == Nil {
      } else if l == Nil {
        EndsAreBelowLeaves(r, d + 1);
      } else if r == Nil {
        EndsAreBelowLeaves(l, d + 1);
      } else {
        EndsAreBelowLeaves(l, d + 1);
        EndsAreBelowLeaves(r, d + 1);
      }
  }

  /** All depths in `s` are one and the same. */
  ghost predicate SameDepth(s: set<int>)
  {
    forall x, y :: x in s && y in s ==> x == y
  }

  /** equalPaths(root) holds exactly when all childless nodes lie at one depth. */
  lemma EqualPathsCorrect(root: Tree)
    ensures EqualPaths(root) <==> SameDepth(Leaves(root, 0))
  {
    if root != Nil {
      EndsAreBelowLeaves(root, 0);
      var first := FirstEnd(root, 0);
      assert EqualPaths(root) <==> AllAt(Ends(root, 0), first);
      if SameDepth(Leaves(root, 0)) {
        forall x | x in Ends(root, 0) ensures x == first {
          assert x - 1 in Leaves(root, 0) && first - 1 in Leaves(root, 0);
        }
        assert AllAt(Ends(root, 0), first);
      }
      if AllAt(Ends(root, 0), first) {
        forall x, y | x in Leaves(root, 0) && y in Leaves(root, 0) ensures x == y {
          assert x + 1 in Ends(root, 0) && y + 1 in Ends(root, 0);
        }
        assert SameDepth(Leaves(root, 0));
      }
    }
  }

  /** getHeight bounds the leaf depths: every childless node lies above depth
      d + Height(t). */
  lemma {:induction false} LeavesAboveHeight(t: Tree, d: int)
    ensures forall x :: x in Leaves(t, d) ==> d <= x < d + Height(t)
  {
    match t
    case Nil =>
    case Node(l, r) =>
      if l != Nil || r != Nil {
        LeavesAboveHeight(l, d + 1);
        LeavesAboveHeight(r, d + 1);
        assert Height(t) == 1 + Max(Height(l), Height(r));
      }
  }

  /** The deepest childless node lies just above depth d + Height(t). */
  lemma {:induction false} DeepestLeaf(t: Tree, d: int)
    requires t != Nil
    ensures d + Height(t) - 1 in Leaves(t, d)
  {
    var l, r := t.left, t.right;
    if l == Nil && r == Nil {
      assert Leaves(t, d) == {d};
    } else if Height(l) < Height(r) {
      DeepestLeaf(r, d + 1);
      assert Height(t) == 1 + Height(r);
      assert Leaves(r, d + 1) <= Leaves(t, d);
    } else {
      DeepestLeaf(l, d + 1);
      assert Height(t) == 1 + Height(l);
      assert Leaves(l, d + 1) <= Leaves(t, d);
    }
  }

  /** When equalPaths succeeds, the depth it records equals getHeight of the root:
      for the empty tree both are 0. */
  lemma RecordedDepthIsHeight(root: Tree)
    requires EqualPaths(root)
    ensures EqualPathsWithHeight(root).1 == Height(root)
  {
    if root != Nil {
      EndsAreBelowLeaves(root, 0);
      DeepestLeaf(root, 0);
      assert Height(root) - 1 in Leaves(root, 0);
      assert Height(root) in Ends(root, 0);
    }
  }
}
