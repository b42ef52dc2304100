/** Where `_add_to_nodes` and `_reparent_nodes` (gaphas/tree.py) put nodes in
    the render list `_nodes`. Here `s` is a render list and `f` the forest
    that `_children` and `_parents` describe at that moment. */
module Placement {

  import opened Results
  import opened Lists
  import opened Forest
  import opened Edits

  /** `_add_to_nodes(n, k)` can run to completion: the node that follows the
      block of `k` in the pre-order of `f`, when there is one, is in `s`
      (otherwise `nodes.index` would raise). */
  ghost predicate Placeable<N>(s: seq<N>, f: seq<Item<N>>, k: Option<N>) {
    InTree(f, k) && (EndOf(f, k) < |Flat(f)| ==> Flat(f)[EndOf(f, k)] in s)
  }

  /** Where `_add_to_nodes(n, k)` inserts `n` into `s`: before the first
      occurrence of the node that follows `k`'s block in `f` (the nearest
      younger sibling of `k` or of one of its ancestors), or at the end when
      that block finishes the listing. */
  function AddPos<N(==)>(s: seq<N>, f: seq<Item<N>>, k: Option<N>): (i: nat)
    requires Placeable(s, f, k)
    ensures i <= |s|
  {
    if EndOf(f, k) < |Flat(f)| then IndexOf(s, Flat(f)[EndOf(f, k)]) else |s|
  }

  /** On a render list that is exactly the pre-order of `f`, the insertion
      point is the end of `k`'s block, the place of a new last child of `k`. */
  lemma AddPosOrdered<N>(f: seq<Item<N>>, k: Option<N>)
    requires Unique(f) && InTree(f, k)
    ensures Placeable(Flat(f), f, k) && AddPos(Flat(f), f, k) == EndOf(f, k)
  {
    if k.Some? {
      BlockAt(f, k.value);
    }
    if EndOf(f, k) < |Flat(f)| {
      DistinctIndexOf(Flat(f), EndOf(f, k));
    }
  }

  /** One step of `_reparent_nodes(y, k)`: `nodes.remove(y)`, then
      `_add_to_nodes(y, k)`. */
  function Place<N(==)>(s: seq<N>, f: seq<Item<N>>, y: N, k: Option<N>): (r: seq<N>)
    requires y in s && Placeable(RemoveFirst(s, y), f, k)
    ensures multiset(r) == multiset(s)
  {
    var s1 := RemoveFirst(s, y);
    RemoveFirstMultiset(s, y);
    InsertMultiset(s1, AddPos(s1, f, k), y);
    Insert(s1, AddPos(s1, f, k), y)
  }

  /** A permutation of the nodes of `f` can always take that step for a node
      under its own parent: the node after the parent's block is never `y`
      itself, so it is still there once `y` is removed. */
  lemma PlaceOk<N>(s: seq<N>, f: seq<Item<N>>, y: N)
    requires Unique(f) && multiset(s) == multiset(Flat(f)) && y in Flat(f)
    ensures y in s && Placeable(RemoveFirst(s, y), f, UpIn(f, y))
  {
    var w, k := Flat(f), UpIn(f, y);
    assert y in multiset(s);
    KidInBlock(f, y);
    StartIsIndex(f, y);
    if EndOf(f, k) < |w| {
      var e := w[EndOf(f, k)];
      assert e != y by {
        assert w[StartIn(f, y)] == y;
      }
      assert e in multiset(w);
      RemoveFirstMultiset(s, y);
      assert e in multiset(RemoveFirst(s, y));
    }
  }

  /** The node list and sibling subtrees `_reparent_nodes` is applied to:
      `ts` are subtrees of `f` under the parent `k`, and `s` holds the
      nodes of `f`. */
  ghost predicate Relistable<N>(s: seq<N>, f: seq<Item<N>>, ts: seq<Item<N>>, k: Option<N>) {
    && Unique(f) && multiset(s) == multiset(Flat(f)) && Subtrees(ts, f)
    && forall i :: 0 <= i < |ts| ==> UpIn(f, ts[i].id) == k
  }

  /** What `_reparent_nodes` does to the render list, for each subtree of
      `ts` in turn (children of `k`): place its root with `Place`, then
      its children, recursively. `RelistAll(s, f, [SubOf(f, n)], k)` is
      `_reparent_nodes(n, k)`. */
  function RelistAll<N(==)>(s: seq<N>, f: seq<Item<N>>, ts: seq<Item<N>>, k: Option<N>): (r: seq<N>)
    requires Relistable(s, f, ts, k)
    ensures multiset(r) == multiset(s)
    decreases ts
  {
    if ts == [] then s
    else
      var t := ts[|ts| - 1];
      RelistablePrefix(s, f, ts, k);
      var s1 := RelistAll(s, f, ts[..|ts| - 1], k);
      PlaceOk(s1, f, t.id);
      var s2 := Place(s1, f, t.id, k);
      KidsRelistable(s2, f, t);
      RelistAll(s2, f, t.kids, Some(t.id))
  }

  lemma RelistablePrefix<N>(s: seq<N>, f: seq<Item<N>>, ts: seq<Item<N>>, k: Option<N>)
    requires Relistable(s, f, ts, k) && ts != []
    ensures Relistable(s, f, ts[..|ts| - 1], k)
    ensures ts[|ts| - 1].id in Flat(f) && UpIn(f, ts[|ts| - 1].id) == k
    ensures SubOf(f, ts[|ts| - 1].id) == ts[|ts| - 1]
  {
    var p := ts[..|ts| - 1];
    assert forall i :: 0 <= i < |p| ==> p[i] == ts[i];
  }

  /** The children of a subtree of `f` are subtrees of `f` under it. */
  lemma KidsRelistable<N>(s: seq<N>, f: seq<Item<N>>, t: Item<N>)
    requires Unique(f) && multiset(s) == multiset(Flat(f))
    requires t.id in Flat(f) && SubOf(f, t.id) == t
    ensures Relistable(s, f, t.kids, Some(t.id))
  {
    SubtreesKidItems(f, Some(t.id));
    forall i | 0 <= i < |t.kids| ensures UpIn(f, t.kids[i].id) == Some(t.id) {
      assert Ids(t.kids)[i] == t.kids[i].id;
      KidHasUp(f, Some(t.id), t.kids[i].id);
    }
  }

  /** A render list holding exactly the nodes of `f` is `Placeable` for every
      key of `_children`. */
  lemma PermutationPlaceable<N>(s: seq<N>, f: seq<Item<N>>, k: Option<N>)
    requires Unique(f) && InTree(f, k) && multiset(s) == multiset(Flat(f))
    ensures Placeable(s, f, k)
  {
    if EndOf(f, k) < |Flat(f)| {
      assert Flat(f)[EndOf(f, k)] in multiset(Flat(f));
    }
  }

  /** Relisting a list of siblings is relisting all but the last, then the
      last. */
  lemma RelistStep<N>(s: seq<N>, f: seq<Item<N>>, ts: seq<Item<N>>, k: Option<N>)
    requires Relistable(s, f, ts, k) && ts != []
    ensures Relistable(s, f, ts[..|ts| - 1], k)
    ensures Relistable(RelistAll(s, f, ts[..|ts| - 1], k), f, [ts[|ts| - 1]], k)
    ensures RelistAll(s, f, ts, k) ==
      RelistAll(RelistAll(s, f, ts[..|ts| - 1], k), f, [ts[|ts| - 1]], k)
  {
    RelistablePrefix(s, f, ts, k);
    var t := ts[|ts| - 1];
    var s1 := RelistAll(s, f, ts[..|ts| - 1], k);
    RelistableOne(s1, f, t, k);
    assert [t][..0] == [];
    assert RelistAll(s1, f, [], k) == s1;
  }

  lemma RelistableOne<N>(s: seq<N>, f: seq<Item<N>>, t: Item<N>, k: Option<N>)
    requires Unique(f) && multiset(s) == multiset(Flat(f))
    requires t.id in Flat(f) && SubOf(f, t.id) == t && UpIn(f, t.id) == k
    ensures Relistable(s, f, [t], k)
  {
  }

  /** A prefix of sibling subtrees can be relisted too. */
  lemma RelistableTake<N>(s: seq<N>, f: seq<Item<N>>, ts: seq<Item<N>>, k: Option<N>, j: nat)
    requires Relistable(s, f, ts, k) && j <= |ts|
    ensures Relistable(s, f, ts[..j], k)
  {
    var p := ts[..j];
    assert forall i :: 0 <= i < |p| ==> p[i] == ts[i];
  }

  /** One turn of the loop of `_reparent_nodes`: relisting the first `j + 1`
      siblings is relisting the first `j`, then sibling `j`. */
  lemma RelistNext<N>(s: seq<N>, f: seq<Item<N>>, ts: seq<Item<N>>, k: Option<N>, j: nat)
    requires Relistable(s, f, ts, k) && j < |ts|
    ensures Relistable(s, f, ts[..j], k) && Relistable(s, f, ts[..j + 1], k)
    ensures ts[j].id in Flat(f) && SubOf(f, ts[j].id) == ts[j] && UpIn(f, ts[j].id) == k
    ensures Relistable(RelistAll(s, f, ts[..j], k), f, [ts[j]], k)
    ensures RelistAll(s, f, ts[..j + 1], k) == RelistAll(RelistAll(s, f, ts[..j], k), f, [ts[j]], k)
  {
    RelistableTake(s, f, ts, k, j);
    RelistableTake(s, f, ts, k, j + 1);
    var u := ts[..j + 1];
    assert u[..|u| - 1] == ts[..j] && u[|u| - 1] == ts[j];
    RelistStep(s, f, u, k);
  }

  /** Relisting one subtree: place its root, then relist its children
      under it. */
  lemma RelistOne<N>(s: seq<N>, f: seq<Item<N>>, t: Item<N>, k: Option<N>)
    requires Relistable(s, f, [t], k)
    ensures t.id in s && Placeable(RemoveFirst(s, t.id), f, k)
    ensures Relistable(Place(s, f, t.id, k), f, t.kids, Some(t.id))
    ensures RelistAll(s, f, [t], k) == RelistAll(Place(s, f, t.id, k), f, t.kids, Some(t.id))
  {
    assert [t][..0] == [];
    assert RelistAll(s, f, [], k) == s;
    assert [t][0] == t;
    PlaceOk(s, f, t.id);
    KidsRelistable(Place(s, f, t.id, k), f, t);
  }

  // -------------------------------------------------------------------
  // The corrected relisting: the block of `n` moves as a whole

  /** When `n` is the last child of `k`, the node that follows the block of
      `k` is not in the block of `n`, so it is still in the render list once
      that block is taken out; taking the block out and putting it back keeps
      the render list a permutation of the nodes. */
  lemma LiftPlaceable<N>(s: seq<N>, f: seq<Item<N>>, n: N, k: Option<N>)
    requires Unique(f) && multiset(s) == multiset(Flat(f)) && n in Flat(f) && UpIn(f, n) == k
    requires n in Siblings(f, n) && NextSib(f, n).None?
    ensures Placeable(Without(s, BlockSet(f, n)), f, k)
    ensures var rest := Without(s, BlockSet(f, n));
      multiset(Splice(rest, AddPos(rest, f, k), Block(f, n))) == multiset(Flat(f))
  {
    BlockSplit(f, n);
    LastSibEnd(f, n);
    PruneSplit(f, n);
    FlatPrune(f, n);
    var w, S, E, B := Flat(f), StartIn(f, n), EndOf(f, Some(n)), BlockSet(f, n);
    WithoutMultiset(s, w, B);
    CutMiddle(w, w[..S], Block(f, n), w[E..], Without(s, B));
  }

  /** After `reparent(n, k)` moved the subtree of `n` below `k` as its last
      child, `n` has no next sibling. */
  lemma MovedLast<N>(f: seq<Item<N>>, n: N, k: Option<N>)
    requires CanMove(f, n, k)
    ensures n in Flat(Move(f, n, k)) && UpIn(Move(f, n, k), n) == k
    ensures n in Siblings(Move(f, n, k), n) && NextSib(Move(f, n, k), n).None?
  {
    var M := Move(f, n, k);
    MoveKeeps(f, n, k);
    MoveUp(f, n, k, n);
    MoveKids(f, n, k, k);
    KidsDistinct(M, k);
    var m := KidsOf(f, UpIn(f, n));
    var m1 := if k == UpIn(f, n) then RemoveFirst(m, n) else KidsOf(f, k);
    assert KidsOf(M, k) == m1 + [n];
    LastNextNone(m1, n);
  }

  /** On a render list in pre-order, taking the block of `n` out and putting
      it back where `_add_to_nodes(n, k)` puts `n` gives the pre-order of the
      forest after the move. */
  lemma {:induction false} LiftOrdered<N>(f: seq<Item<N>>, n: N, k: Option<N>)
    requires CanMove(f, n, k)
    ensures n in Flat(Move(f, n, k)) && Unique(Move(f, n, k))
    ensures var M, rest := Move(f, n, k), Without(Flat(f), BlockSet(Move(f, n, k), n));
      Placeable(rest, M, k) && Splice(rest, AddPos(rest, M, k), Block(M, n)) == Flat(M)
  {
    var M, P := Move(f, n, k), Prune(f, n);
    LiftAt(f, n, k);
    UniquePrune(f, n);
    FlatPrune(f, n);
    SpliceBack(Flat(M), Flat(P), Block(f, n), EndOf(P, k));
  }

  /** The moved block sits just after the pruned listing's end of `k`, and
      the end of `k` in the new forest is just past it. */
  lemma LiftAt<N>(f: seq<Item<N>>, n: N, k: Option<N>)
    requires CanMove(f, n, k)
    ensures n in Flat(Move(f, n, k)) && Unique(Move(f, n, k)) && InTree(Move(f, n, k), k)
    ensures InTree(Prune(f, n), k) && EndOf(Prune(f, n), k) <= |Flat(Prune(f, n))|
    ensures Block(Move(f, n, k), n) == Block(f, n) && BlockSet(Move(f, n, k), n) == BlockSet(f, n)
    ensures EndOf(Move(f, n, k), k) == EndOf(Prune(f, n), k) + |Block(f, n)|
    ensures var w, e := Flat(Prune(f, n)), EndOf(Prune(f, n), k);
      Flat(Move(f, n, k)) == w[..e] + Block(f, n) + w[e..]
  {
    MoveKeeps(f, n, k);
    MovedBlock(f, n, k);
    MovedEnd(f, n, k);
    MovedListing(f, n, k);
  }

  /** The moved subtree lists as it did before the move. */
  lemma MovedBlock<N>(f: seq<Item<N>>, n: N, k: Option<N>)
    requires CanMove(f, n, k)
    ensures n in Flat(Move(f, n, k))
    ensures Block(Move(f, n, k), n) == Block(f, n) && BlockSet(Move(f, n, k), n) == BlockSet(f, n)
  {
    MoveEnd(f, n, k);
  }

  /** After the move, the block of `k` ends just past the moved subtree. */
  lemma MovedEnd<N>(f: seq<Item<N>>, n: N, k: Option<N>)
    requires CanMove(f, n, k)
    ensures InTree(Move(f, n, k), k) && InTree(Prune(f, n), k)
    ensures EndOf(Move(f, n, k), k) == EndOf(Prune(f, n), k) + |Block(f, n)|
  {
    var M := Move(f, n, k);
    MoveKeeps(f, n, k);
    MovedLast(f, n, k);
    MoveEnd(f, n, k);
    LastSibEnd(M, n);
  }

  /** The listing after the move: the moved block put in at the end of `k`'s
      block in the pruned listing. */
  lemma MovedListing<N>(f: seq<Item<N>>, n: N, k: Option<N>)
    requires CanMove(f, n, k)
    ensures InTree(Prune(f, n), k) && EndOf(Prune(f, n), k) <= |Flat(Prune(f, n))|
    ensures var w, e := Flat(Prune(f, n)), EndOf(Prune(f, n), k);
      Flat(Move(f, n, k)) == w[..e] + Block(f, n) + w[e..]
  {
    MoveEnd(f, n, k);
    FlatAttach(Prune(f, n), k, SubOf(f, n));
  }
}
