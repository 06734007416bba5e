/** The abstract contents of a binary search tree: its in-order list of
    (key, value) entries, and the map operations the tree implements on it. */
module Entries {

  datatype Option<T> = None | Some(value: T)

  /** Keys strictly ascending, as the in-order walk of a binary search tree yields them. */
  ghost predicate Sorted<V>(s: seq<(int, V)>)
  {
    forall a, b :: 0 <= a < b < |s| ==> s[a].0 < s[b].0
  }

  /** The value stored under `k`, if any (the base tree's find). */
  function Lookup<V>(s: seq<(int, V)>, k: int): Option<V>
  {
    if s == [] then None
    else if s[0].0 == k then Some(s[0].1)
    else Lookup(s[1..], k)
  }

  /** Insert `(k, v)` at its ordered place, or overwrite the value of an existing `k`. */
  function Upsert<V>(s: seq<(int, V)>, k: int, v: V): seq<(int, V)>
  {
    if s == [] then [(k, v)]
    else if s[0].0 == k then [(k, v)] + s[1..]
    else if k < s[0].0 then [(k, v)] + s
    else [s[0]] + Upsert(s[1..], k, v)
  }

  /** Drop the entry with key `k`; nothing happens when there is none. */
  function Delete<V>(s: seq<(int, V)>, k: int): seq<(int, V)>
  {
    if s == [] then []
    else if s[0].0 == k then s[1..]
    else [s[0]] + Delete(s[1..], k)
  }

  lemma SortedTail<V>(s: seq<(int, V)>)
    requires Sorted(s) && s != []
    ensures Sorted(s[1..])
    ensures forall e :: e in s[1..] ==> s[0].0 < e.0
  {
    forall e | e in s[1..] ensures s[0].0 < e.0 {
      var j :| 0 <= j < |s[1..]| && s[1..][j] == e;
      assert s[j + 1] == e;
    }
  }

  lemma SortedCons<V>(e: (int, V), s: seq<(int, V)>)
    requires Sorted(s)
    requires forall x :: x in s ==> e.0 < x.0
    ensures Sorted([e] + s)
  {
    var r := [e] + s;
    forall a, b | 0 <= a < b < |r| ensures r[a].0 < r[b].0 {
      if a == 0 {
        assert r[b] == s[b - 1];
      } else {
        assert r[a] == s[a - 1] && r[b] == s[b - 1];
      }
    }
  }

  /** A later look-up sees exactly the upserted value, and nothing else changes. */
  lemma {:induction false} UpsertLookup<V>(s: seq<(int, V)>, k: int, v: V, j: int)
    ensures Lookup(Upsert(s, k, v), j) == if j == k then Some(v) else Lookup(s, j)
  {
    if s != [] && s[0].0 != k && !(k < s[0].0) {
      UpsertLookup(s[1..], k, v, j);
      assert ([s[0]] + Upsert(s[1..], k, v))[1..] == Upsert(s[1..], k, v);
    } else if s != [] && s[0].0 == k {
      assert ([(k, v)] + s[1..])[1..] == s[1..];
    } else if s != [] {
      assert ([(k, v)] + s)[1..] == s;
    }
  }

  /** Upsert keeps the entries ordered and brings in no key but `k`. */
  lemma {:induction false} UpsertSorted<V>(s: seq<(int, V)>, k: int, v: V)
    requires Sorted(s)
    ensures Sorted(Upsert(s, k, v))
    ensures forall e :: e in Upsert(s, k, v) ==> e.0 == k || e in s
  {
    if s == [] {
    } else if s[0].0 == k {
      SortedTail(s);
      SortedCons((k, v), s[1..]);
    } else if k < s[0].0 {
      SortedTail(s);
      SortedCons((k, v), s);
    } else {
      SortedTail(s);
      UpsertSorted(s[1..], k, v);
      var u := Upsert(s[1..], k, v);
      SortedCons(s[0], u);
      assert Upsert(s, k, v) == [s[0]] + u;
    }
  }

  /** After a delete the key is gone, and every other key keeps its value. */
  lemma {:induction false} DeleteLookup<V>(s: seq<(int, V)>, k: int, j: int)
    requires Sorted(s)
    ensures Lookup(Delete(s, k), j) == if j == k then None else Lookup(s, j)
  {
    if s == [] {
    } else if s[0].0 == k {
      SortedTail(s);
      if j == k {
        LookupAbsent(s[1..], k);
      }
    } else {
      SortedTail(s);
      DeleteLookup(s[1..], k, j);
      assert ([s[0]] + Delete(s[1..], k))[1..] == Delete(s[1..], k);
    }
  }

  lemma {:induction false} LookupAbsent<V>(s: seq<(int, V)>, k: int)
    requires forall e :: e in s ==> e.0 != k
    ensures Lookup(s, k) == None
  {
    if s != [] {
      assert forall e :: e in s[1..] ==> e in s;
      LookupAbsent(s[1..], k);
    }
  }

  /** Delete keeps the entries ordered and only ever removes entries. */
  lemma {:induction false} DeleteSorted<V>(s: seq<(int, V)>, k: int)
    requires Sorted(s)
    ensures Sorted(Delete(s, k))
    ensures forall e :: e in Delete(s, k) ==> e in s && e.0 != k
  {
    if s == [] {
    } else if s[0].0 == k {
      SortedTail(s);
    } else {
      SortedTail(s);
      DeleteSorted(s[1..], k);
      SortedCons(s[0], Delete(s[1..], k));
    }
  }

  lemma UpsertFront<V>(b: seq<(int, V)>, k: int, v: V)
    requires forall e :: e in b ==> k < e.0
    ensures Upsert(b, k, v) == [(k, v)] + b
  {
    if b != [] {
      assert b[0] in b;
    }
  }

  /** Inserting a key that falls strictly between two halves puts it between them. */
  lemma {:induction false} UpsertBetween<V>(a: seq<(int, V)>, b: seq<(int, V)>, k: int, v: V)
    requires forall e :: e in a ==> e.0 < k
    requires forall e :: e in b ==> k < e.0
    ensures Upsert(a + b, k, v) == a + [(k, v)] + b
  {
    if a == [] {
      assert a + b == b && a + [(k, v)] + b == [(k, v)] + b;
      UpsertFront(b, k, v);
    } else {
      var t := a[1..];
      assert (a + b)[0] == a[0] && a[0] in a;
      assert (a + b)[1..] == t + b;
      assert forall e :: e in t ==> e in a;
      UpsertBetween(t, b, k, v);
      assert a == [a[0]] + t;
    }
  }

  /** Upserting the key of an entry already in the list overwrites that entry's value only. */
  lemma UpsertHit<V>(a: seq<(int, V)>, e: (int, V), b: seq<(int, V)>, v: V)
    requires Sorted(a + [e] + b)
    ensures Upsert(a + [e] + b, e.0, v) == a + [(e.0, v)] + b
  {
    assert a + [e] + b == a + ([e] + b);
    SortedSplit(a, [e] + b);
    assert e in [e] + b;
    UpsertPast(a, e, b, v);
  }

  /** Upsert passes over the entries with smaller keys and overwrites the first equal one. */
  lemma {:induction false} UpsertPast<V>(a: seq<(int, V)>, e: (int, V), b: seq<(int, V)>, v: V)
    requires forall x :: x in a ==> x.0 < e.0
    ensures Upsert(a + [e] + b, e.0, v) == a + [(e.0, v)] + b
  {
    var s := a + [e] + b;
    if a == [] {
      assert s == [e] + b;
      assert s[1..] == b;
    } else {
      assert s[0] == a[0] && a[0] in a;
      assert s[1..] == a[1..] + [e] + b;
      assert forall x :: x in a[1..] ==> x in a;
      UpsertPast(a[1..], e, b, v);
      assert a + [(e.0, v)] + b == [a[0]] + (a[1..] + [(e.0, v)] + b);
    }
  }

  /** Deleting the key of an entry removes exactly that entry. */
  lemma DeleteHit<V>(a: seq<(int, V)>, e: (int, V), b: seq<(int, V)>)
    requires Sorted(a + [e] + b)
    ensures Delete(a + [e] + b, e.0) == a + b
  {
    assert a + [e] + b == a + ([e] + b);
    SortedSplit(a, [e] + b);
    assert e in [e] + b;
    DeleteFirst(a, e, b);
  }

  /** Delete removes the first entry with the key, whatever follows it. */
  lemma {:induction false} DeleteFirst<V>(a: seq<(int, V)>, e: (int, V), b: seq<(int, V)>)
    requires forall x :: x in a ==> x.0 != e.0
    ensures Delete(a + [e] + b, e.0) == a + b
  {
    var s := a + [e] + b;
    if a == [] {
      assert s == [e] + b;
      assert s[1..] == b;
    } else {
      assert s[0] == a[0] && a[0] in a;
      assert s[1..] == a[1..] + [e] + b;
      assert forall x :: x in a[1..] ==> x in a;
      DeleteFirst(a[1..], e, b);
      assert a + b == [a[0]] + (a[1..] + b);
    }
  }

  /** In an ordered list, every entry of a prefix has a smaller key than every
      entry of the rest. */
  lemma SortedSplit<V>(a: seq<(int, V)>, b: seq<(int, V)>)
    requires Sorted(a + b)
    ensures forall e, f :: e in a && f in b ==> e.0 < f.0
  {
    forall e, f | e in a && f in b ensures e.0 < f.0 {
      var i :| 0 <= i < |a| && a[i] == e;
      var j :| 0 <= j < |b| && b[j] == f;
      assert (a + b)[i] == e && (a + b)[|a| + j] == f;
    }
  }

  /** Look-up finds a key that occurs in the list. */
  lemma {:induction false} LookupFinds<V>(a: seq<(int, V)>, e: (int, V), b: seq<(int, V)>)
    ensures Lookup(a + [e] + b, e.0).Some?
  {
    if a != [] {
      assert (a + [e] + b)[1..] == a[1..] + [e] + b;
      LookupFinds(a[1..], e, b);
    } else {
      assert (a + [e] + b)[0] == e;
    }
  }

  /** Deleting a key that `Lookup` does not find changes nothing. */
  lemma {:induction false} DeleteMissing<V>(s: seq<(int, V)>, k: int)
    requires Lookup(s, k) == None
    ensures Delete(s, k) == s
  {
    if s != [] {
      DeleteMissing(s[1..], k);
    }
  }
}
