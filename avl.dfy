/** The AVL tree of avlbst.h as an object: the arena of nodes, the root
    pointer and the next free id are its fields; `insert` and `remove` run the
    arena operations of modules Insertion and Removal on them. */
module Avl {
  import opened Shapes
  import opened Entries
  import opened Arena
  import opened Balance
  import opened Insertion
  import opened Removal
  import opened Heights

  class AvlTree<V> {
    /** The nodes allocated so far and not yet deleted, by id. */
    var nodes: map<nat, AvlNode<V>>
    /** `root_` */
    var root: Ptr
    /** The id the next `new` hands out. */
    var nextId: nat
    /** The tree the links are meant to form. */
    ghost var shape: Shape

    /** The links form the tree `shape`, none dangles, and every id is below `nextId`. */
    ghost predicate Wired()
      reads this
    {
      Intact(shape, nodes, root, nextId)
    }

    /** A binary search tree: wired, with keys ascending in order. */
    ghost predicate Valid()
      reads this
    {
      Wired() && Sorted(Items())
    }

    /** Every node stores the true height of its subtree. */
    ghost predicate HeightsKept()
      reads this
    {
      HeightsTrue(shape, nodes)
    }

    /** The in-order (key, value) entries. */
    ghost function Items(): seq<(int, V)>
      reads this
      requires Wired()
    {
      InOrder(shape, nodes)
    }

    constructor ()
      ensures Valid() && Items() == [] && HeightsKept()
      ensures nodes == map[] && root == Null
    {
      nodes := map[];
      root := Null;
      nextId := 0;
      shape := Leaf;
    }

    /** insert(new_item): the entries become those of `Upsert`, still in key
        order.  `NullPivot` reports the null dereference of `rebalance`; the
        arena is then as the walk left it. */
    method Insert(k: int, v: V) returns (outcome: Outcome)
      requires Valid()
      modifies this
      ensures Valid() && Items() == Upsert(old(Items()), k, v)
      ensures old(Lookup(Items(), k)).None? <==> nextId == old(nextId) + 1
      ensures old(Lookup(Items(), k)).Some? ==>
        && outcome == Completed && root == old(root) && nodes.Keys == old(nodes.Keys)
        && forall j :: j in old(nodes) ==>
             nodes[j] == if old(nodes)[j].key == k then old(nodes)[j].(value := v) else old(nodes)[j]
      ensures old(Lookup(Items(), k)).None? ==> nodes.Keys == old(nodes.Keys) + {old(nextId)}
      ensures outcome.NullPivot? ==>
        && outcome.at in nodes && HeightFixed(nodes, outcome.at)
        && nodes[outcome.at].height > 1 && nodes[outcome.at].right == Null
      ensures old(Lookup(Items(), k)).None? && outcome == Completed ==>
        root.At? && HeightFixed(nodes, root.id) && nodes[root.id].height <= 1
      ensures old(HeightsKept()) && outcome == Completed ==> HeightsKept()
      ensures old(Lookup(Items(), k)).None? && old(HeightsKept()) && outcome == Completed ==> |Items()| <= 3
    {
      var m, r, n, t', o := InsertAt(nodes, root, nextId, k, v, shape);
      UpsertSorted(Items(), k, v);
      if Lookup(Items(), k).None? && HeightsKept() && o == Completed {
        FewEntries(t', m);
      }
      nodes, root, nextId, shape, outcome := m, r, n, t', o;
    }
  
    /** remove(key): the entries become those of `Delete`, still in key
        order; a missing key changes nothing, a present one takes exactly one
        node out of the arena. */
    method Remove(k: int) returns (outcome: Outcome)
      requires Valid()
      modifies this
      ensures Valid() && Items() == Delete(old(Items()), k)
      ensures nextId == old(nextId)
      ensures old(Lookup(Items(), k)).None? ==> nodes == old(nodes) && root == old(root) && outcome == Completed
      ensures old(Lookup(Items(), k)).Some? ==> nodes.Keys < old(nodes.Keys) && |nodes| == |old(nodes)| - 1
      ensures outcome.NullPivot? ==>
        && outcome.at in nodes && HeightFixed(nodes, outcome.at)
        && nodes[outcome.at].height > 1 && nodes[outcome.at].right == Null
      ensures old(Lookup(Items(), k)).Some? && outcome == Completed && root.At? ==>
        HeightFixed(nodes, root.id) && nodes[root.id].height <= 1
      ensures old(HeightsKept()) && outcome == Completed ==> HeightsKept()
      ensures old(Lookup(Items(), k)).Some? && old(HeightsKept()) && outcome == Completed ==> |Items()| <= 3
    {
      var m, r, t', o := RemoveAt(nodes, root, nextId, k, shape);
      DeleteSorted(Items(), k);
      if Lookup(Items(), k).Some? && HeightsKept() && o == Completed {
        FewEntries(t', m);
      }
      nodes, root, shape, outcome := m, r, t', o;
    }
}
}
