/** `insert` of avlbst.h over the arena of nodes (module Arena): the descent,
    the new node, and the rebalancing walk from it. */
module Insertion {
  import opened Ints
  import opened Shapes
  import opened Entries
  import opened Arena
  import opened Rewiring
  import opened Balance
  import opened Heights

  /** The node `new AVLNode(key, value, parent)` makes: a childless node
      whose stored field, 0, is already the height `updateHeight` would
      compute for it. */
  function NewNode<V>(key: int, value: V, parent: Ptr): (n: AvlNode<V>)
    ensures n.key == key && n.value == value && n.parent == parent
    ensures n.left == Null && n.right == Null
    ensures n.height == Max(GetHeight<V>(map[], n.left), GetHeight<V>(map[], n.right)) + 1
  {
    AvlNode(key, value, parent, Null, Null, 0)
  }

  /** Where a new key `k` belongs below `P`: `P` has no child on the side of
      `k`, and the in-order ids split into `before` (keys below `k`) and
      `after` (keys above `k`) at that empty slot. */
  ghost predicate SlotFor<V>(t: Shape, nodes: map<nat, AvlNode<V>>, k: int, P: nat,
                             before: seq<nat>, after: seq<nat>)
    requires Ids(t) <= nodes.Keys
  {
    && P in Ids(t) && Sub(t, P).Node? && Sub(t, P).id == P
    && if k < nodes[P].key then
         && nodes[P].left == Null && Sub(t, P).left == Leaf
         && before == Before(t, P) && after == Seq(Sub(t, P)) + After(t, P)
       else
         && nodes[P].right == Null && Sub(t, P).right == Leaf
         && before == Before(t, P) + Seq(Sub(t, P)) && after == After(t, P)
  }

  /** The descent of `insert`: from the root, go left while `k` is below the
      current key and right while it is above, remembering the last node
      visited.  It either finds the node holding `k`, or falls off the tree
      below `parent` (or at once, when the tree is empty), where the in-order
      ids split around `k`. */
  method Descend<V>(nodes: map<nat, AvlNode<V>>, root: Ptr, k: int, ghost t: Shape)
      returns (parent: Ptr, current: Ptr, ghost before: seq<nat>, ghost after: seq<nat>)
    requires Linked(t, nodes, root) && Sorted(InOrder(t, nodes))
    ensures current.At? ==> current.id in Ids(t) && nodes[current.id].key == k
    ensures current == Null ==>
      && Seq(t) == before + after
      && (forall i :: i in before ==> i in nodes && nodes[i].key < k)
      && (forall i :: i in after ==> i in nodes && nodes[i].key > k)
      && (parent == Null ==> t == Leaf)
      && (parent.At? ==> SlotFor(t, nodes, k, parent.id, before, after))
  {
    parent, current := Null, root;
    before, after := [], [];
    ghost var u := t;
    StartDescent(t, nodes, root, k);
    while current != Null
      invariant Descending(t, nodes, k, parent, current, u, before, after)
      decreases u
    {
      var c := current.id;
      if k < nodes[c].key {
        StepLeft(t, nodes, root, k, parent, u, before, after);
        parent, current := current, nodes[c].left;
        after := [c] + Seq(u.right) + after;
        u := u.left;
      } else if k > nodes[c].key {
        StepRight(t, nodes, root, k, parent, u, before, after);
        parent, current := current, nodes[c].right;
        before := before + Seq(u.left) + [c];
        u := u.right;
      } else {
        return;
      }
    }
  }

  /** The loop invariant of `Descend`: `current` points at the subtree `u` of
      `t`, whose surroundings `before` and `after` hold keys below and above
      `k`; once the descent falls off the tree, they split the whole sequence. */
  ghost predicate Descending<V>(t: Shape, nodes: map<nat, AvlNode<V>>, k: int, parent: Ptr, current: Ptr,
                                u: Shape, before: seq<nat>, after: seq<nat>)
  {
    && Ids(t) <= nodes.Keys
    && current == RootPtr(u)
    && (u.Node? ==> u.id in Ids(t) && Sub(t, u.id) == u && before == Before(t, u.id) && after == After(t, u.id))
    && (forall i :: i in before ==> i in nodes && nodes[i].key < k)
    && (forall i :: i in after ==> i in nodes && nodes[i].key > k)
    && (u == Leaf ==>
          && Seq(t) == before + after
          && (parent == Null ==> t == Leaf)
          && (parent.At? ==> SlotFor(t, nodes, k, parent.id, before, after)))
  }

  lemma StartDescent<V>(t: Shape, nodes: map<nat, AvlNode<V>>, root: Ptr, k: int)
    requires Linked(t, nodes, root)
    ensures Descending(t, nodes, k, Null, root, t, [], [])
  {
    LinkedClosed(t, nodes, root);
    if t.Node? {
      Split(t, t.id);
    }
  }

  lemma StepLeft<V>(t: Shape, nodes: map<nat, AvlNode<V>>, root: Ptr, k: int, parent: Ptr, u: Shape,
                    before: seq<nat>, after: seq<nat>)
    requires Linked(t, nodes, root) && Sorted(InOrder(t, nodes))
    requires Descending(t, nodes, k, parent, RootPtr(u), u, before, after)
    requires u.Node? && k < nodes[u.id].key
    ensures Descending(t, nodes, k, At(u.id), nodes[u.id].left, u.left, before, [u.id] + Seq(u.right) + after)
  {
    NodeView(t, nodes, u.id);
    KeysAroundNode(t, nodes, u.id);
    LeftOf(t, nodes, k, parent, u, before, after);
  }

  lemma StepRight<V>(t: Shape, nodes: map<nat, AvlNode<V>>, root: Ptr, k: int, parent: Ptr, u: Shape,
                     before: seq<nat>, after: seq<nat>)
    requires Linked(t, nodes, root) && Sorted(InOrder(t, nodes))
    requires Descending(t, nodes, k, parent, RootPtr(u), u, before, after)
    requires u.Node? && k > nodes[u.id].key
    ensures Descending(t, nodes, k, At(u.id), nodes[u.id].right, u.right, before + Seq(u.left) + [u.id], after)
  {
    NodeView(t, nodes, u.id);
    KeysAroundNode(t, nodes, u.id);
    RightOf(t, nodes, k, parent, u, before, after);
  }

  lemma LeftOf<V>(t: Shape, nodes: map<nat, AvlNode<V>>, k: int, parent: Ptr, u: Shape,
                  before: seq<nat>, after: seq<nat>)
    requires Distinct(t) && Descending(t, nodes, k, parent, RootPtr(u), u, before, after)
    requires u.Node? && k < nodes[u.id].key && nodes[u.id].left == RootPtr(u.left)
    requires forall i :: i in Seq(u.right) ==> i in nodes && nodes[i].key > nodes[u.id].key
    ensures Descending(t, nodes, k, At(u.id), nodes[u.id].left, u.left, before, [u.id] + Seq(u.right) + after)
  {
    var c := u.id;
    var after' := [c] + Seq(u.right) + after;
    Split(t, c);
    SubDistinct(t, c);
    KeysAbove(nodes, k, c, Seq(u.right), after);
    if u.left.Node? {
      DescendLeft(t, c);
      assert u.left.id in Ids(u);
    } else {
      LeftOff(t, nodes, k, u);
    }
  }

  lemma RightOf<V>(t: Shape, nodes: map<nat, AvlNode<V>>, k: int, parent: Ptr, u: Shape,
                   before: seq<nat>, after: seq<nat>)
    requires Distinct(t) && Descending(t, nodes, k, parent, RootPtr(u), u, before, after)
    requires u.Node? && k > nodes[u.id].key && nodes[u.id].right == RootPtr(u.right)
    requires forall i :: i in Seq(u.left) ==> i in nodes && nodes[i].key < nodes[u.id].key
    ensures Descending(t, nodes, k, At(u.id), nodes[u.id].right, u.right, before + Seq(u.left) + [u.id], after)
  {
    var c := u.id;
    var before' := before + Seq(u.left) + [c];
    Split(t, c);
    SubDistinct(t, c);
    KeysBelow(nodes, k, before, Seq(u.left), c);
    if u.right.Node? {
      DescendRight(t, c);
      assert u.right.id in Ids(u);
    } else {
      RightOff(t, nodes, k, u);
    }
  }

  /** Falling off the empty left slot of `u`: the new key goes just before it. */
  lemma LeftOff<V>(t: Shape, nodes: map<nat, AvlNode<V>>, k: int, u: Shape)
    requires Ids(t) <= nodes.Keys && u.Node? && u.left == Leaf && u.id in Ids(t) && Sub(t, u.id) == u
    requires k < nodes[u.id].key && nodes[u.id].left == Null
    ensures Seq(t) == Before(t, u.id) + ([u.id] + Seq(u.right) + After(t, u.id))
    ensures SlotFor(t, nodes, k, u.id, Before(t, u.id), [u.id] + Seq(u.right) + After(t, u.id))
  {
    Split(t, u.id);
    assert Seq(u) == [u.id] + Seq(u.right);
    Regroup3(Before(t, u.id), [u.id], Seq(u.right), After(t, u.id));
  }

  /** Falling off the empty right slot of `u`: the new key goes just after it. */
  lemma RightOff<V>(t: Shape, nodes: map<nat, AvlNode<V>>, k: int, u: Shape)
    requires Ids(t) <= nodes.Keys && u.Node? && u.right == Leaf && u.id in Ids(t) && Sub(t, u.id) == u
    requires k > nodes[u.id].key && nodes[u.id].right == Null
    ensures Seq(t) == Before(t, u.id) + Seq(u.left) + [u.id] + After(t, u.id)
    ensures SlotFor(t, nodes, k, u.id, Before(t, u.id) + Seq(u.left) + [u.id], After(t, u.id))
  {
    Split(t, u.id);
    assert Seq(u) == Seq(u.left) + [u.id];
    Regroup3(Before(t, u.id), Seq(u.left), [u.id], After(t, u.id));
  }

  lemma KeysAbove<V>(nodes: map<nat, AvlNode<V>>, k: int, c: nat, r: seq<nat>, a: seq<nat>)
    requires c in nodes && nodes[c].key > k
    requires forall i :: i in r ==> i in nodes && nodes[i].key > nodes[c].key
    requires forall i :: i in a ==> i in nodes && nodes[i].key > k
    ensures forall i :: i in [c] + r + a ==> i in nodes && nodes[i].key > k
  {
  }

  lemma KeysBelow<V>(nodes: map<nat, AvlNode<V>>, k: int, b: seq<nat>, l: seq<nat>, c: nat)
    requires c in nodes && nodes[c].key < k
    requires forall i :: i in l ==> i in nodes && nodes[i].key < nodes[c].key
    requires forall i :: i in b ==> i in nodes && nodes[i].key < k
    ensures forall i :: i in b + l + [c] ==> i in nodes && nodes[i].key < k
  {
  }

  lemma Regroup3(b: seq<nat>, x: seq<nat>, y: seq<nat>, a: seq<nat>)
    ensures b + (x + y) + a == b + x + y + a
    ensures b + (x + y) == b + x + y
    ensures (x + y) + a == x + y + a
    ensures b + (x + y + a) == b + (x + y) + a
  {
  }

  /** Overwriting the value of the node holding `k` keeps the arena sound and
      updates that entry in place. */
  lemma Revalued<V>(t: Shape, nodes: map<nat, AvlNode<V>>, root: Ptr, nextId: nat, c: nat, v: V)
    requires Intact(t, nodes, root, nextId) && Sorted(InOrder(t, nodes)) && c in nodes
    ensures Intact(t, nodes[c := nodes[c].(value := v)], root, nextId)
    ensures InOrder(t, nodes[c := nodes[c].(value := v)]) == Upsert(InOrder(t, nodes), nodes[c].key, v)
  {
    var m := nodes[c := nodes[c].(value := v)];
    LinksKept(t, nodes, root, m);
    LinkedClosed(t, m, root);
    Around(t, c);
    var a, b := Preceding(t, c), Following(t, c);
    IdsSeq(t);
    ItemsAround(a, c, b, nodes, m);
    ItemsAround(a, c, b, nodes, nodes);
    UpsertHit(ItemsOf(a, nodes), (nodes[c].key, nodes[c].value), ItemsOf(b, nodes), v);
  }

  /** The entries once a node with `(k, v)` sits between `before` (keys below
      `k`) and `after` (keys above `k`) are those of `Upsert`. */
  lemma HungItems<V>(t: Shape, nodes: map<nat, AvlNode<V>>, t': Shape, m: map<nat, AvlNode<V>>,
                     n: nat, k: int, v: V, before: seq<nat>, after: seq<nat>)
    requires Ids(t) <= nodes.Keys && Ids(t') <= m.Keys
    requires Seq(t) == before + after && Seq(t') == before + [n] + after
    requires forall i :: i in before ==> i in nodes && nodes[i].key < k
    requires forall i :: i in after ==> i in nodes && nodes[i].key > k
    requires forall i :: i in before + after ==>
      i in m && m[i].key == nodes[i].key && m[i].value == nodes[i].value
    requires n in m && m[n].key == k && m[n].value == v
    ensures InOrder(t', m) == Upsert(InOrder(t, nodes), k, v)
  {
    ItemsAround(before, n, after, nodes, m);
    ItemsOfConcat(before, after, nodes);
    ItemsBelow(before, nodes, k);
    ItemsAbove(after, nodes, k);
    UpsertBetween(ItemsOf(before, nodes), ItemsOf(after, nodes), k, v);
  }

  /** What hanging the new node leaves: a sound arena with one more node,
      `nextId`, holding `(k, v)` under `parent`, and the entries of `Upsert`.
      The new node is the root when there is no parent, and otherwise sits in
      the left slot of `parent` when `k` is below its key, else in the right. */
  ghost predicate Hung<V>(t: Shape, nodes: map<nat, AvlNode<V>>, nextId: nat, k: int, v: V, parent: Ptr,
                          t': Shape, m: map<nat, AvlNode<V>>, r: Ptr)
  {
    && Ids(t) <= nodes.Keys && Intact(t', m, r, nextId + 1)
    && InOrder(t', m) == Upsert(InOrder(t, nodes), k, v)
    && m.Keys == nodes.Keys + {nextId} && m[nextId] == NewNode(k, v, parent)
    && (parent == Null ==> r == At(nextId))
    && (parent.At? ==>
          parent.id in nodes && m[parent.id] == SetChild(nodes[parent.id], k < nodes[parent.id].key, At(nextId)))
  }

  /** The second half of `insert`: a new node for `(k, v)` with id `nextId`
      becomes the root of an empty tree, or the left child of `parent` when
      `k` is below its key, else its right child. */
  method AttachLeaf<V>(nodes: map<nat, AvlNode<V>>, root: Ptr, nextId: nat, k: int, v: V, parent: Ptr,
                       ghost t: Shape, ghost before: seq<nat>, ghost after: seq<nat>)
      returns (m: map<nat, AvlNode<V>>, r: Ptr, ghost t': Shape)
    requires Intact(t, nodes, root, nextId) && Seq(t) == before + after
    requires forall i :: i in before ==> i in nodes && nodes[i].key < k
    requires forall i :: i in after ==> i in nodes && nodes[i].key > k
    requires parent == Null ==> t == Leaf
    requires parent.At? ==> SlotFor(t, nodes, k, parent.id, before, after)
    ensures Hung(t, nodes, nextId, k, v, parent, t', m, r)
    ensures m.Keys == nodes.Keys + {nextId} && m[nextId] == NewNode(k, v, parent)
    ensures parent == Null ==> r == At(nextId)
    ensures parent.At? ==> r == root && m[parent.id] == SetChild(nodes[parent.id], k < nodes[parent.id].key, At(nextId))
    ensures Sorted(InOrder(t, nodes)) ==> Sorted(InOrder(t', m))
    ensures HeightsTrue(t, nodes) ==> StaleFrom(t', m, nextId)
  {
    var n := nextId;
    m := nodes[n := NewNode(k, v, parent)];
    if parent == Null {
      r := At(n);
      t' := Node(Leaf, n, Leaf);
      HangRoot(t, nodes, root, nextId, k, v, m);
    } else {
      var P := parent.id;
      var toLeft := k < nodes[P].key;
      if toLeft {
        m := m[P := m[P].(left := At(n))];
      } else {
        m := m[P := m[P].(right := At(n))];
      }
      r := root;
      t' := Rewrite(t, P, Hang(Sub(t, P), n, toLeft));
      HangChild(t, nodes, root, nextId, k, v, P, before, after, m);
      if HeightsTrue(t, nodes) {
        HangChildStale(t, nodes, n, P, toLeft, NewNode(k, v, parent), m);
      }
    }
    if Sorted(InOrder(t, nodes)) {
      UpsertSorted(InOrder(t, nodes), k, v);
    }
  }

  /** The new leaf changes no stored height of the tree it joins, so only
      it and the nodes above it may hold stale heights. */
  lemma HangChildStale<V>(t: Shape, nodes: map<nat, AvlNode<V>>, n: nat, P: nat, toLeft: bool, x: AvlNode<V>,
                          m: map<nat, AvlNode<V>>)
    requires Distinct(t) && Ids(t) <= nodes.Keys && n !in Ids(t) && HeightsTrue(t, nodes)
    requires P in nodes && m == nodes[n := x][P := SetChild(nodes[P], toLeft, At(n))]
    requires P in Ids(t) && Sub(t, P).Node? && if toLeft then Sub(t, P).left == Leaf else Sub(t, P).right == Leaf
    ensures StaleFrom(Rewrite(t, P, Hang(Sub(t, P), n, toLeft)), m, n)
  {
    assert SameHeights(Ids(t), nodes, m);
    HangStale(t, nodes, P, n, toLeft, m);
  }

  lemma HangRoot<V>(t: Shape, nodes: map<nat, AvlNode<V>>, root: Ptr, nextId: nat, k: int, v: V,
                    m: map<nat, AvlNode<V>>)
    requires Intact(t, nodes, root, nextId) && t == Leaf
    requires m == nodes[nextId := NewNode(k, v, Null)]
    ensures Hung(t, nodes, nextId, k, v, Null, Node(Leaf, nextId, Leaf), m, At(nextId))
  {
    AttachRoot(nextId, nodes, root, m);
    assert ItemsOf([nextId], m) == [(k, v)];
  }

  lemma HangChild<V>(t: Shape, nodes: map<nat, AvlNode<V>>, root: Ptr, nextId: nat, k: int, v: V, P: nat,
                     before: seq<nat>, after: seq<nat>, m: map<nat, AvlNode<V>>)
    requires Intact(t, nodes, root, nextId) && Seq(t) == before + after
    requires forall i :: i in before ==> i in nodes && nodes[i].key < k
    requires forall i :: i in after ==> i in nodes && nodes[i].key > k
    requires SlotFor(t, nodes, k, P, before, after)
    requires m == nodes[nextId := NewNode(k, v, At(P))][P := SetChild(nodes[P], k < nodes[P].key, At(nextId))]
    ensures Hung(t, nodes, nextId, k, v, At(P), Rewrite(t, P, Hang(Sub(t, P), nextId, k < nodes[P].key)), m, root)
  {
    var n, toLeft := nextId, k < nodes[P].key;
    var t' := Rewrite(t, P, Hang(Sub(t, P), n, toLeft));
    assert m == nodes[P := SetChild(nodes[P], toLeft, At(n))][n := m[n]];
    HangChildShape(t, nodes, root, nextId, k, P, before, after, m);
    HangAgrees(nodes, P, n, toLeft, m, before + after);
    HungItems(t, nodes, t', m, n, k, v, before, after);
  }

  /** The new node lands between `before` and `after` in order. */
  lemma HangChildShape<V>(t: Shape, nodes: map<nat, AvlNode<V>>, root: Ptr, nextId: nat, k: int, P: nat,
                          before: seq<nat>, after: seq<nat>, m: map<nat, AvlNode<V>>)
    requires Intact(t, nodes, root, nextId)
    requires SlotFor(t, nodes, k, P, before, after)
    requires nextId in m && m == nodes[P := SetChild(nodes[P], k < nodes[P].key, At(nextId))][nextId := m[nextId]]
    requires m[nextId].parent == At(P) && m[nextId].left == Null && m[nextId].right == Null
    requires m[nextId].height >= 0
    ensures Intact(Rewrite(t, P, Hang(Sub(t, P), nextId, k < nodes[P].key)), m, root, nextId + 1)
    ensures Seq(Rewrite(t, P, Hang(Sub(t, P), nextId, k < nodes[P].key))) == before + [nextId] + after
  {
    var toLeft := k < nodes[P].key;
    HangShape(t, nodes, root, nextId, P, toLeft, m);
    var t' := Rewrite(t, P, Hang(Sub(t, P), nextId, toLeft));
    if toLeft {
      assert Seq(t') == before + [nextId] + after;
    } else {
      assert Seq(t') == before + [nextId] + after;
    }
  }

  /** Hanging node `n` in the empty slot of `P` keeps the arena sound, and
      puts `n` just before (or after) the subtree of `P` in order. */
  lemma HangShape<V>(t: Shape, nodes: map<nat, AvlNode<V>>, root: Ptr, nextId: nat, P: nat, toLeft: bool,
                     m: map<nat, AvlNode<V>>)
    requires Intact(t, nodes, root, nextId) && P in Ids(t) && Sub(t, P).Node? && Sub(t, P).id == P
    requires if toLeft then nodes[P].left == Null && Sub(t, P).left == Leaf
             else nodes[P].right == Null && Sub(t, P).right == Leaf
    requires nextId in m && m == nodes[P := SetChild(nodes[P], toLeft, At(nextId))][nextId := m[nextId]]
    requires m[nextId].parent == At(P) && m[nextId].left == Null && m[nextId].right == Null
    requires m[nextId].height >= 0
    ensures Intact(Rewrite(t, P, Hang(Sub(t, P), nextId, toLeft)), m, root, nextId + 1)
    ensures Seq(Rewrite(t, P, Hang(Sub(t, P), nextId, toLeft))) ==
      if toLeft then Before(t, P) + [nextId] + Seq(Sub(t, P)) + After(t, P)
      else Before(t, P) + Seq(Sub(t, P)) + [nextId] + After(t, P)
  {
    AttachLinked(t, P, nextId, toLeft, nodes, root, m);
    HangSeq(t, P, nextId, toLeft);
    LinkedClosed(Rewrite(t, P, Hang(Sub(t, P), nextId, toLeft)), m, root);
  }

  /** Setting a child pointer and adding a node keeps every other node's key and value. */
  lemma HangAgrees<V>(nodes: map<nat, AvlNode<V>>, P: nat, n: nat, toLeft: bool, m: map<nat, AvlNode<V>>,
                      ids: seq<nat>)
    requires P in nodes && n !in nodes
    requires n in m && m == nodes[P := SetChild(nodes[P], toLeft, At(n))][n := m[n]]
    requires forall i :: i in ids ==> i in nodes
    ensures forall i :: i in ids ==> i in m && m[i].key == nodes[i].key && m[i].value == nodes[i].value
  {
  }

  /** insert on the arena: descend to `k`; overwrite its value when it is
      there, otherwise hang a new node and rebalance from it.  The entries
      become those of `Upsert`; a new node is created exactly when `k` was
      absent. */
  method InsertAt<V>(nodes: map<nat, AvlNode<V>>, root: Ptr, nextId: nat, k: int, v: V, ghost t: Shape)
      returns (m: map<nat, AvlNode<V>>, r: Ptr, nextId': nat, ghost t': Shape, outcome: Outcome)
    requires Intact(t, nodes, root, nextId) && Sorted(InOrder(t, nodes))
    ensures Intact(t', m, r, nextId') && InOrder(t', m) == Upsert(InOrder(t, nodes), k, v)
    ensures Lookup(InOrder(t, nodes), k).Some? ==>
      && nextId' == nextId && r == root && m.Keys == nodes.Keys && outcome == Completed
      && forall j :: j in nodes ==> m[j] == if nodes[j].key == k then nodes[j].(value := v) else nodes[j]
    ensures Lookup(InOrder(t, nodes), k).None? ==>
      nextId' == nextId + 1 && m.Keys == nodes.Keys + {nextId}
    ensures outcome.NullPivot? ==>
      && HeightFixed(m, outcome.at) && m[outcome.at].height > 1 && m[outcome.at].right == Null
    ensures Lookup(InOrder(t, nodes), k).None? && outcome == Completed ==>
      r.At? && HeightFixed(m, r.id) && m[r.id].height <= 1
    ensures HeightsTrue(t, nodes) && outcome == Completed ==> HeightsTrue(t', m)
    ensures Lookup(InOrder(t, nodes), k).None? && HeightsTrue(t, nodes) && outcome == Completed ==> Tall(t') <= 1
  {
    var parent, current, before, after := Descend(nodes, root, k, t);
    if current.At? {
      var c := current.id;
      Revalued(t, nodes, root, nextId, c, v);
      FoundKey(t, nodes, c);
      OnlyOneKey(t, nodes, root, c);
      m, r, nextId', t', outcome := nodes[c := nodes[c].(value := v)], root, nextId, t, Completed;
      if HeightsTrue(t, nodes) {
        assert SameHeights(Ids(t), nodes, m);
        TrueFrame(t, nodes, m);
      }
      return;
    }
    MissingKey(t, nodes, k, before, after);
    var m1, r1, t1 := AttachLeaf(nodes, root, nextId, k, v, parent, t, before, after);
    nextId' := nextId + 1;
    m, r, t', outcome := Rebalance(m1, r1, At(nextId), t1, nextId');
  }

  /** In a binary search tree, node `c` is the only one with its key. */
  lemma OnlyOneKey<V>(t: Shape, nodes: map<nat, AvlNode<V>>, root: Ptr, c: nat)
    requires Linked(t, nodes, root) && Sorted(InOrder(t, nodes)) && c in nodes
    ensures forall j :: j in nodes && nodes[j].key == nodes[c].key ==> j == c
  {
    IdsSeq(t);
    SortedKeys(Seq(t), nodes);
    var s := Seq(t);
    forall j | j in nodes && j != c ensures nodes[j].key != nodes[c].key {
      var a :| 0 <= a < |s| && s[a] == j;
      var b :| 0 <= b < |s| && s[b] == c;
      assert a != b;
    }
  }

  /** A key held by a node of the tree is found by `Lookup` on its entries. */
  lemma FoundKey<V>(t: Shape, nodes: map<nat, AvlNode<V>>, c: nat)
    requires Distinct(t) && Ids(t) <= nodes.Keys && c in Ids(t)
    ensures Lookup(InOrder(t, nodes), nodes[c].key).Some?
  {
    Around(t, c);
    var a, b := Preceding(t, c), Following(t, c);
    IdsSeq(t);
    ItemsAround(a, c, b, nodes, nodes);
    LookupFinds(ItemsOf(a, nodes), (nodes[c].key, nodes[c].value), ItemsOf(b, nodes));
  }

  /** A key strictly between the keys of `before` and those of `after` is not
      among the entries. */
  lemma MissingKey<V>(t: Shape, nodes: map<nat, AvlNode<V>>, k: int, before: seq<nat>, after: seq<nat>)
    requires Ids(t) <= nodes.Keys && Seq(t) == before + after
    requires forall i :: i in before ==> i in nodes && nodes[i].key < k
    requires forall i :: i in after ==> i in nodes && nodes[i].key > k
    ensures Lookup(InOrder(t, nodes), k) == None
  {
    ItemsOfConcat(before, after, nodes);
    ItemsBelow(before, nodes, k);
    ItemsAbove(after, nodes, k);
    LookupAbsent(ItemsOf(before, nodes) + ItemsOf(after, nodes), k);
  }
}
