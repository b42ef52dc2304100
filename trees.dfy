/** The `Tree` class of gaphas/tree.py: the parent/child structure of the
    items on a canvas, kept in three containers that the methods update in
    place. `nodes` is the render list, `children` maps `None` (the root) and
    every node to its child list, `parents` maps a node to its parent. The
    ghost field `shape` is the forest the three containers describe. */
module Trees {

  import opened Results
  import opened Lists
  import opened Forest
  import opened Edits
  import opened Placement

  class Tree<N(==)> {

    var nodes: seq<N>
    var children: map<Option<N>, seq<N>>
    var parents: map<N, Option<N>>
    ghost var shape: seq<Item<N>>

    /** `children` and `parents` encode `shape`, which has no repeats. */
    ghost predicate MapsAgree()
      reads this
    {
      Encodes(children, parents, shape)
    }

    /** The class invariant that `add`, `remove` and `reparent` keep: the
        render list holds every node exactly once. */
    ghost predicate Valid()
      reads this
    {
      Inv(nodes, children, parents, shape)
    }

    /** The render order the class comment promises: every node after its
        parent, every subtree contiguous, siblings in insertion order. */
    ghost predicate Ordered()
      reads this
    {
      InOrder(nodes, children, parents, shape)
    }

    /** `Tree()`: no nodes, and an empty child list for the root. */
    constructor ()
      ensures Ordered() && Valid()
      ensures nodes == [] && children == map[None := []] && parents == map[] && shape == []
    {
      nodes := [];
      children := map[None := []];
      parents := map[];
      shape := [];
      new;
      assert Keys<N>([]) == {None};
    }

    /** The invariant of the class comment: one child list more than there
        are nodes, the extra one being the root's. */
    lemma ChildrenOneMore()
      requires Valid()
      ensures |children| == |nodes| + 1
    {
      ChildrenCount(shape);
      assert |nodes| == |multiset(nodes)| == |multiset(Flat(shape))| == |Flat(shape)|;
    }

    // -----------------------------------------------------------------
    // Lookups

    /** `get_parent(x)`: `parents.get(x)`, `None` for a top-level node and for
        one that is not in the tree. */
    function GetParent(x: N): (r: Option<N>)
      reads this
      ensures MapsAgree() ==> r == UpIn(shape, x)
    {
      ParentLookup(parents, shape, x);
      if x in parents then parents[x] else None
    }

    /** `get_children(k)`: `children[k]`, `KeyError` for a node not in the
        tree. */
    function GetChildren(k: Option<N>): (r: Result<seq<N>>)
      reads this
      ensures r.Err? ==> r.error == KeyError
      ensures MapsAgree() ==> (r.Ok? <==> InTree(shape, k))
      ensures MapsAgree() && r.Ok? ==> r.value == KidsOf(shape, k)
    {
      KeysIn(shape, k);
      if k in children then Ok(children[k]) else Err(KeyError)
    }

    /** `get_siblings(x)`: the child list of the parent of `x`. For a node not
        in the tree that is the top-level list, which does not hold `x`. */
    function GetSiblings(x: N): (r: Result<seq<N>>)
      reads this
      ensures MapsAgree() ==> r == Ok(Siblings(shape, x))
      ensures MapsAgree() ==> (x in Flat(shape) <==> x in Siblings(shape, x))
    {
      var p := GetParent(x);
      SiblingsLookup(shape, x);
      KeysIn(shape, UpIn(shape, x));
      if p in children then Ok(children[p]) else Err(KeyError)
    }

    /** `get_next_sibling(x)`: `ValueError` when `x` is not in the tree,
        `IndexError` when it is the last child of its parent. */
    function GetNextSibling(x: N): (r: Result<N>)
      reads this
      ensures MapsAgree() && x !in Flat(shape) ==> r == Err(ValueError)
      ensures MapsAgree() && x in Flat(shape) ==>
        x in Siblings(shape, x) &&
        r == if NextSib(shape, x).Some? then Ok(NextSib(shape, x).value) else Err(IndexError)
    {
      match GetSiblings(x)
      case Err(e) => Err(e)
      case Ok(s) =>
        if x !in s then Err(ValueError)
        else if IndexOf(s, x) + 1 < |s| then Ok(s[IndexOf(s, x) + 1])
        else Err(IndexError)
    }

    /** `get_previous_sibling(x)`: `ValueError` when `x` is not in the tree,
        `IndexError` when it is the first child of its parent. */
    function GetPreviousSibling(x: N): (r: Result<N>)
      reads this
      ensures MapsAgree() && x !in Flat(shape) ==> r == Err(ValueError)
      ensures MapsAgree() && x in Flat(shape) ==>
        x in Siblings(shape, x) &&
        r == if PrevSib(shape, x).Some? then Ok(PrevSib(shape, x).value) else Err(IndexError)
    {
      match GetSiblings(x)
      case Err(e) => Err(e)
      case Ok(s) =>
        if x !in s then Err(ValueError)
        else if IndexOf(s, x) - 1 < 0 then Err(IndexError)
        else Ok(s[IndexOf(s, x) - 1])
    }

    /** Next and previous sibling undo each other. */
    lemma NextPrevious(x: N, y: N)
      requires MapsAgree()
      ensures GetNextSibling(x) == Ok(y) <==> y in Flat(shape) && GetPreviousSibling(y) == Ok(x)
    {
      if GetNextSibling(x) == Ok(y) {
        SiblingsShareUp(shape, x, y);
        UpHoldsKid(shape, x);
        KidsDistinct(shape, UpIn(shape, x));
        NextPreviousInverse(Siblings(shape, x), x, y);
      }
      if y in Flat(shape) && GetPreviousSibling(y) == Ok(x) {
        SiblingsShareUp(shape, y, x);
        UpHoldsKid(shape, y);
        KidsDistinct(shape, UpIn(shape, y));
        NextPreviousInverse(Siblings(shape, y), x, y);
      }
    }

    /** The walk of `get_all_children`: each node of `ks`, then everything
        below it. The ghost `ts` are the subtrees of `ks`, which bound the
        recursion. */
    function AllBelow(ks: seq<N>, ghost ts: seq<Item<N>>): (r: seq<N>)
      reads this
      requires MapsAgree() && Subtrees(ts, shape) && Ids(ts) == ks
      ensures r == Flat(ts)
      decreases ts
    {
      if ks == [] then []
      else
        var c := ks[0];
        BelowFirst(ts);
        [c] + AllBelow(children[Some(c)], ts[0].kids) + AllBelow(ks[1..], ts[1..])
    }

    lemma BelowFirst(ts: seq<Item<N>>)
      requires MapsAgree() && Subtrees(ts, shape) && ts != []
      ensures Some(ts[0].id) in children && children[Some(ts[0].id)] == Ids(ts[0].kids)
      ensures Subtrees(ts[0].kids, shape) && Subtrees(ts[1..], shape)
    {
      KeysIn(shape, Some(ts[0].id));
      SubtreesKidItems(shape, Some(ts[0].id));
      assert forall i :: 0 <= i < |ts| - 1 ==> ts[1..][i] == ts[i + 1];
    }

    /** `get_all_children(k)`: every descendant of `k` in pre-order (the
        block of `k` without `k`), `KeyError` for a node not in the tree. */
    function GetAllChildren(k: Option<N>): (r: Result<seq<N>>)
      reads this
      requires MapsAgree()
      ensures r.Ok? <==> InTree(shape, k)
      ensures r.Err? ==> r.error == KeyError
      ensures r.Ok? ==> r.value == Flat(KidItems(shape, k))
      ensures r.Ok? && k.Some? ==> [k.value] + r.value == Block(shape, k.value)
    {
      KeysIn(shape, k);
      if k !in children then Err(KeyError)
      else
        SubtreesKidItems(shape, k);
        if k.Some? then FlatOne(SubOf(shape, k.value)); Ok(AllBelow(children[k], KidItems(shape, k)))
        else Ok(AllBelow(children[k], KidItems(shape, k)))
    }

    /** `get_ancestors(x)`: the parent of `x`, its parent, and so on up to a
        top-level node. */
    method GetAncestors(x: N) returns (r: seq<N>)
      requires MapsAgree()
      ensures r == Ancestors(shape, x)
    {
      r := [];
      var parent := GetParent(x);
      if parent.Some? {
        UpInTree(shape, x);
        UpHoldsKid(shape, x);
      }
      while parent.Some?
        invariant parent.Some? ==> parent.value in Flat(shape)
        invariant r + (if parent.Some? then [parent.value] + Ancestors(shape, parent.value) else []) == Ancestors(shape, x)
        decreases Rank(shape, parent)
      {
        var p := parent.value;
        r := r + [p];
        parent := GetParent(p);
        UpHoldsKid(shape, p);
        DepthUp(shape, p);
      }
    }

    // -----------------------------------------------------------------
    // Adding

    /** Where `_add_to_nodes(n, k)` inserts into the render list `s`: before
        the next younger sibling of `k`, or failing that of its parent, and
        so on; at the end of the list when there is none. */
    function InsertionIndex(s: seq<N>, k: Option<N>): (i: nat)
      reads this
      requires MapsAgree() && Placeable(s, shape, k)
      ensures i == AddPos(s, shape, k)
      decreases Rank(shape, k)
    {
      match k
      case None => |s|
      case Some(p) =>
        UpHoldsKid(shape, p);
        match GetNextSibling(p)
        case Ok(next) =>
          NextSibAtEnd(shape, p);
          IndexOf(s, next)
        case Err(e) =>
          assert e == IndexError;
          LastSibEnd(shape, p);
          RankUp(shape, p);
          InsertionIndex(s, GetParent(p))
    }

    /** `_add_to_nodes(n, k)` on the render list `s`: the list with `n`
        inserted where the next uncle of `n` stands. */
    function AddToNodes(s: seq<N>, n: N, k: Option<N>): (r: seq<N>)
      reads this
      requires MapsAgree() && Placeable(s, shape, k)
      ensures r == Insert(s, AddPos(s, shape, k), n)
    {
      Insert(s, InsertionIndex(s, k), n)
    }

    /** Replaces the whole state at once; every mutating operation ends
        with one call of it. */
    method Store(s: seq<N>, c: map<Option<N>, seq<N>>, q: map<N, Option<N>>, ghost f: seq<Item<N>>)
      modifies this
      ensures nodes == s && children == c && parents == q && shape == f
    {
      nodes, children, parents, shape := s, c, q, f;
    }

    /** `add(n, k)`: `n` becomes the last child of `k`, with no children of
        its own, and enters the render list right after the subtree of `k`.
        `KeyError`, with nothing changed, when `k` is not in the tree. */
    method Add(n: N, k: Option<N>) returns (r: Outcome)
      requires Valid() && Some(n) !in children
      modifies this
      ensures Valid()
      ensures old(Ordered()) ==> Ordered()
      ensures k !in old(children) ==> r == Fail(KeyError) && unchanged(this)
      ensures k in old(children) ==> r == Pass && old(Placeable(nodes, shape, k))
      ensures k in old(children) ==>
        && nodes == Insert(old(nodes), AddPos(old(nodes), old(shape), k), n)
        && children == old(children)[k := old(children)[k] + [n]][Some(n) := []]
        && parents == (if k.Some? then old(parents)[n := k] else old(parents))
        && shape == Attach(old(shape), k, Item(n, []))
    {
      if k !in children {
        return Fail(KeyError);
      }
      AddState(nodes, children, parents, shape, k, n);
      Store(AddToNodes(nodes, n, k), children[k := children[k] + [n]][Some(n) := []],
        if k.Some? then parents[n := k] else parents, Attach(shape, k, Item(n, [])));
      r := Pass;
    }

    // -----------------------------------------------------------------
    // Removing

    /** `remove(n)`: `n` and all its descendants leave the tree; the render
        list keeps the other nodes in their order. `KeyError`, with nothing
        changed, when `n` is not in the tree. */
    method Remove(n: N) returns (r: Outcome)
      requires Valid()
      modifies this
      ensures Valid()
      ensures old(Ordered()) ==> Ordered()
      ensures Some(n) !in old(children) ==> r == Fail(KeyError) && unchanged(this)
      ensures Some(n) in old(children) ==>
        r == Pass && n in old(Flat(shape)) && n in Siblings(old(shape), n)
      ensures Some(n) in old(children) ==>
        && nodes == Without(old(nodes), BlockSet(old(shape), n))
        && parents == old(parents) - BlockSet(old(shape), n)
        && children == (old(children) - BlockKeys(old(shape), n))[old(GetParent(n)) :=
             RemoveFirst(Siblings(old(shape), n), n)]
        && shape == Prune(old(shape), n)
      decreases if n in Flat(shape) then SubOf(shape, n) else Item(n, []), 1
    {
      KeysIn(shape, Some(n));
      if Some(n) !in children {
        return Fail(KeyError);
      }
      ghost var s, c, q, f := nodes, children, parents, shape;
      RemoveKids(n);
      SubOfSetKids(f, n, []);
      Unlink(n);
      RemoveDone(s, c, q, f, n);
      r := Pass;
    }

    /** The loop of `remove(n)`: each child of `n`, taken from a copy of its
        child list, is removed with its subtree. */
    method RemoveKids(n: N)
      requires Valid() && n in Flat(shape)
      modifies this
      ensures Valid()
      ensures old(Ordered()) ==> Ordered()
      ensures shape == SetKids(old(shape), n, [])
      ensures nodes == Without(old(nodes), Listed(SubOf(old(shape), n).kids))
      ensures parents == old(parents) - Listed(SubOf(old(shape), n).kids)
      decreases SubOf(shape, n), 0
    {
      ghost var s, q, f := nodes, parents, shape;
      ghost var K := SubOf(shape, n).kids;
      KeysIn(shape, Some(n));
      var ks := children[Some(n)];
      RemoveKidsStart(s, q, f, n);
      for j := 0 to |ks|
        invariant Valid()
        invariant old(Ordered()) ==> Ordered()
        invariant shape == SetKids(f, n, K[j..])
        invariant nodes == Without(s, Listed(K[..j]))
        invariant parents == q - Listed(K[..j])
      {
        RemoveStep(s, q, f, n, K, j);
        var _ := Remove(ks[j]);
      }
      RemoveKidsEnd(s, q, f, n);
    }

    /** The last steps of `remove(n)`, once `n` is a leaf: it leaves its
        parent's child list, its own child list, the render list and
        `parents` (where top-level nodes have no entry). */
    method Unlink(n: N)
      requires Valid() && n in Flat(shape) && SubOf(shape, n).kids == []
      modifies this
      ensures Valid()
      ensures old(Ordered()) ==> Ordered()
      ensures n in old(nodes) && n in Siblings(old(shape), n)
      ensures children == old(children)[UpIn(old(shape), n) := RemoveFirst(Siblings(old(shape), n), n)] - {Some(n)}
      ensures nodes == RemoveFirst(old(nodes), n)
      ensures parents == old(parents) - {n}
      ensures shape == Prune(old(shape), n)
    {
      UnlinkState(nodes, children, parents, shape, n);
      var p := GetParent(n);
      Store(RemoveFirst(nodes, n), children[p := RemoveFirst(children[p], n)] - {Some(n)}, parents - {n}, Prune(shape, n));
    }

    // -----------------------------------------------------------------
    // Reparenting

    /** `_reparent_nodes(n, k)` as written: `n` leaves the render list and
        goes back in where `_add_to_nodes(n, k)` puts it, then each child of
        `n` is treated the same way, in order. Only the render list
        changes. */
    method ReparentNodes(n: N, k: Option<N>)
      requires Valid() && n in Flat(shape) && UpIn(shape, n) == k
      modifies this
      ensures Valid()
      ensures children == old(children) && parents == old(parents) && shape == old(shape)
      ensures Relistable(old(nodes), shape, [SubOf(shape, n)], k)
      ensures nodes == RelistAll(old(nodes), shape, [SubOf(shape, n)], k)
      decreases SubOf(shape, n), 1
    {
      RelistableOne(nodes, shape, SubOf(shape, n), k);
      RelistOne(nodes, shape, SubOf(shape, n), k);
      Store(AddToNodes(RemoveFirst(nodes, n), n, k), children, parents, shape);
      ReparentKids(n);
    }

    /** The loop of `_reparent_nodes(n, k)`: each child of `n`, in order, is
        relisted under `n`. */
    method ReparentKids(n: N)
      requires Valid() && n in Flat(shape)
      modifies this
      ensures Valid()
      ensures children == old(children) && parents == old(parents) && shape == old(shape)
      ensures Relistable(old(nodes), shape, SubOf(shape, n).kids, Some(n))
      ensures nodes == RelistAll(old(nodes), shape, SubOf(shape, n).kids, Some(n))
      decreases SubOf(shape, n), 0
    {
      ghost var s, f, K := nodes, shape, SubOf(shape, n).kids;
      KidsRelistable(s, f, SubOf(f, n));
      KeysIn(f, Some(n));
      var ks := children[Some(n)];
      for j := 0 to |ks|
        invariant children == old(children) && parents == old(parents) && shape == f
        invariant Valid()
        invariant Relistable(s, f, K[..j], Some(n))
        invariant nodes == RelistAll(s, f, K[..j], Some(n))
      {
        RelistNext(s, f, K, Some(n), j);
        ReparentNodes(ks[j], Some(n));
      }
      TakeAll(K, |ks|);
    }

    /** `reparent(n, k)`: `n` leaves the child list of its parent and
        becomes the last child of `k` (`parents` records `k`, `None`
        included); then `_reparent_nodes` relists its subtree. `ValueError`,
        with nothing changed, when `n` is not in the tree. */
    method Reparent(n: N, k: Option<N>) returns (r: Outcome)
      requires Valid() && k in children
      requires k.Some? && n in Flat(shape) ==> k.value !in Block(shape, n)
      modifies this
      ensures Valid() && multiset(nodes) == multiset(old(nodes))
      ensures n !in old(Flat(shape)) ==> r == Fail(ValueError) && unchanged(this)
      ensures n in old(Flat(shape)) ==> r == Pass && CanMove(old(shape), n, k)
      ensures n in old(Flat(shape)) ==>
        && UpIn(old(shape), n) in old(children) && n in old(children)[UpIn(old(shape), n)]
        && children == Relink(old(children), n, UpIn(old(shape), n), k)
        && parents == old(parents)[n := k]
        && shape == Move(old(shape), n, k)
        && Relistable(old(nodes), shape, [SubOf(shape, n)], k)
        && nodes == RelistAll(old(nodes), shape, [SubOf(shape, n)], k)
    {
      var sib := GetSiblings(n);
      if sib.Err? || n !in sib.value {
        return Fail(ValueError);
      }
      var p := GetParent(n);
      KeysIn(shape, k);
      MoveState(nodes, children, parents, shape, n, k);
      Store(nodes, Relink(children, n, p, k), parents[n := k], Move(shape, n, k));
      ReparentNodes(n, k);
      r := Pass;
    }

    /** A corrected `_reparent_nodes(n, k)`: the whole subtree of `n` leaves
        the render list and goes back in one piece where `_add_to_nodes(n,
        k)` puts `n`. `n` is the last child of `k`, as `reparent` leaves
        it. */
    method RelistBlock(n: N, k: Option<N>)
      requires Valid() && n in Flat(shape) && UpIn(shape, n) == k
      requires n in Siblings(shape, n) && NextSib(shape, n).None?
      modifies this
      ensures Valid()
      ensures children == old(children) && parents == old(parents) && shape == old(shape)
      ensures Placeable(Without(old(nodes), BlockSet(shape, n)), shape, k)
      ensures var rest := Without(old(nodes), BlockSet(shape, n));
        nodes == Splice(rest, AddPos(rest, shape, k), Block(shape, n))
    {
      var below := GetAllChildren(Some(n));
      var block := [n] + below.value;
      var rest := Without(nodes, set y | y in block);
      RelistState(nodes, children, parents, shape, n, k, block, rest);
      var i := InsertionIndex(rest, k);
      Store(Splice(rest, i, block), children, parents, shape);
    }

    /** `reparent(n, k)` with the corrected relisting: the same changes to
        `children` and `parents`, and a render list in pre-order stays in
        pre-order. */
    method ReparentInOrder(n: N, k: Option<N>) returns (r: Outcome)
      requires Valid() && k in children
      requires k.Some? && n in Flat(shape) ==> k.value !in Block(shape, n)
      modifies this
      ensures Valid() && multiset(nodes) == multiset(old(nodes))
      ensures old(Ordered()) ==> Ordered()
      ensures n !in old(Flat(shape)) ==> r == Fail(ValueError) && unchanged(this)
      ensures n in old(Flat(shape)) ==> r == Pass && CanMove(old(shape), n, k)
      ensures n in old(Flat(shape)) ==>
        && UpIn(old(shape), n) in old(children) && n in old(children)[UpIn(old(shape), n)]
        && children == Relink(old(children), n, UpIn(old(shape), n), k)
        && parents == old(parents)[n := k]
        && shape == Move(old(shape), n, k)
    {
      var sib := GetSiblings(n);
      if sib.Err? || n !in sib.value {
        return Fail(ValueError);
      }
      var p := GetParent(n);
      KeysIn(shape, k);
      MoveState(nodes, children, parents, shape, n, k);
      MovedLast(shape, n, k);
      LiftOrdered(shape, n, k);
      Store(nodes, Relink(children, n, p, k), parents[n := k], Move(shape, n, k));
      RelistBlock(n, k);
      r := Pass;
    }
  }

  // -------------------------------------------------------------------
  // Lemmas about the three containers

  /** The child lists once `n` has moved from the list of `p` to the end of
      the list of `k`. */
  function Relink<N(==)>(c: map<Option<N>, seq<N>>, n: N, p: Option<N>, k: Option<N>): map<Option<N>, seq<N>>
    requires p in c && k in c && n in c[p]
  {
    var c1 := c[p := RemoveFirst(c[p], n)];
    c1[k := c1[k] + [n]]
  }

  /** The corrected relisting keeps the render list a listing of the
      forest. */
  lemma RelistState<N>(s: seq<N>, c: map<Option<N>, seq<N>>, q: map<N, Option<N>>, f: seq<Item<N>>, n: N, k: Option<N>,
                        block: seq<N>, rest: seq<N>)
    requires Inv(s, c, q, f) && n in Flat(f) && UpIn(f, n) == k
    requires n in Siblings(f, n) && NextSib(f, n).None?
    requires block == Block(f, n) && rest == Without(s, set y | y in block)
    ensures rest == Without(s, BlockSet(f, n)) && Placeable(rest, f, k)
    ensures Inv(Splice(rest, AddPos(rest, f, k), block), c, q, f)
  {
    assert (set y | y in block) == BlockSet(f, n);
    LiftPlaceable(s, f, n, k);
  }

  /** What `reparent(n, k)` does to `children` and `parents` encodes the
      moved forest, and the render list still holds its nodes. */
  lemma MoveState<N>(s: seq<N>, c: map<Option<N>, seq<N>>, q: map<N, Option<N>>, f: seq<Item<N>>, n: N, k: Option<N>)
    requires Inv(s, c, q, f) && CanMove(f, n, k)
    ensures UpIn(f, n) in c && k in c && n in c[UpIn(f, n)]
    ensures Inv(s, Relink(c, n, UpIn(f, n), k), q[n := k], Move(f, n, k))
    ensures n in Flat(Move(f, n, k)) && UpIn(Move(f, n, k), n) == k
    ensures SubOf(Move(f, n, k), n) == SubOf(f, n)
  {
    MoveChildren(f, n, k);
    MoveParents(q, f, n, k);
    MoveKeeps(f, n, k);
    MoveUp(f, n, k, n);
    MoveEnd(f, n, k);
    KeysIn(f, UpIn(f, n));
    KeysIn(f, k);
  }

  /** `children` and `parents` are the dictionaries of the forest `f`. */
  ghost predicate Encodes<N>(children: map<Option<N>, seq<N>>, parents: map<N, Option<N>>, f: seq<Item<N>>) {
    Unique(f) && children == ChildrenMap(f) && ParentsAgree(parents, f)
  }

  ghost predicate InOrder<N>(s: seq<N>, children: map<Option<N>, seq<N>>, parents: map<N, Option<N>>, f: seq<Item<N>>) {
    Encodes(children, parents, f) && s == Flat(f)
  }

  ghost predicate Inv<N>(s: seq<N>, children: map<Option<N>, seq<N>>, parents: map<N, Option<N>>, f: seq<Item<N>>) {
    Encodes(children, parents, f) && multiset(s) == multiset(Flat(f))
  }

  /** What `add(n, k)` does to the three containers. */
  lemma AddState<N>(s: seq<N>, c: map<Option<N>, seq<N>>, q: map<N, Option<N>>, f: seq<Item<N>>, k: Option<N>, n: N)
    requires Inv(s, c, q, f) && Some(n) !in c && k in c
    ensures Placeable(s, f, k) && k in c && c[k] == KidsOf(f, k)
    ensures Inv(Insert(s, AddPos(s, f, k), n), c[k := c[k] + [n]][Some(n) := []], if k.Some? then q[n := k] else q,
                    Attach(f, k, Item(n, [])))
    ensures multiset(Insert(s, AddPos(s, f, k), n)) == multiset(Flat(Attach(f, k, Item(n, []))))
    ensures s == Flat(f) ==> Insert(s, AddPos(s, f, k), n) == Flat(Attach(f, k, Item(n, [])))
    ensures InOrder(s, c, q, f) ==> InOrder(Insert(s, AddPos(s, f, k), n), c[k := c[k] + [n]][Some(n) := []], if k.Some? then q[n := k] else q,
                    Attach(f, k, Item(n, [])))
  {
    KeysIn(f, k);
    KeysIn(f, Some(n));
    AddKeeps(s, f, k, n);
    AttachLeafChildren(f, k, n);
    AttachLeafParents(q, f, k, n);
  }

  lemma ParentLookup<N>(parents: map<N, Option<N>>, f: seq<Item<N>>, x: N)
    ensures ParentsAgree(parents, f) ==> (if x in parents then parents[x] else None) == UpIn(f, x)
  {
    if x !in Flat(f) {
      UpAbsent(f, x);
    }
  }

  lemma SiblingsLookup<N>(f: seq<Item<N>>, x: N)
    ensures Unique(f) ==> InTree(f, UpIn(f, x))
    ensures Unique(f) ==> (x in Flat(f) <==> x in Siblings(f, x))
  {
    if x in Flat(f) {
      if Unique(f) {
        UpHoldsKid(f, x);
      }
    } else {
      UpAbsent(f, x);
      IdsInFlat(f);
    }
  }

  /** What `add(n, k)` does to the render list keeps it a permutation of the
      nodes, and keeps it in pre-order. */
  lemma AddKeeps<N>(s: seq<N>, f: seq<Item<N>>, k: Option<N>, n: N)
    requires Unique(f) && InTree(f, k) && n !in Flat(f) && multiset(s) == multiset(Flat(f))
    ensures Placeable(s, f, k)
    ensures Unique(Attach(f, k, Item(n, [])))
    ensures multiset(Insert(s, AddPos(s, f, k), n)) == multiset(Flat(Attach(f, k, Item(n, []))))
    ensures s == Flat(f) ==> Insert(s, AddPos(s, f, k), n) == Flat(Attach(f, k, Item(n, [])))
  {
    var t := Item(n, []);
    FlatOne(t);
    assert Flat([t]) == [n];
    PermutationPlaceable(s, f, k);
    UniqueAttach(f, k, t);
    FlatAttach(f, k, t);
    var w, e := Flat(f), EndOf(f, k);
    InsertMultiset(s, AddPos(s, f, k), n);
    assert Flat(Attach(f, k, t)) == Insert(w, e, n);
    InsertMultiset(w, e, n);
    if s == w {
      AddPosOrdered(f, k);
    }
  }

  /** The reversible pair `add`/`remove`: `remove(n)` right after
      `add(n, k)` gives back the render list, `children` and `parents` as
      they were, and `get_parent(n)` between the two is `k`, the argument
      that undoes the removal. */
  lemma AddRemoveInverse<N>(s: seq<N>, c: map<Option<N>, seq<N>>, q: map<N, Option<N>>, f: seq<Item<N>>, k: Option<N>, n: N)
    requires Inv(s, c, q, f) && Some(n) !in c && k in c
    ensures Placeable(s, f, k)
    ensures var s1, c1, q1, f1 := Insert(s, AddPos(s, f, k), n), c[k := c[k] + [n]][Some(n) := []],
        (if k.Some? then q[n := k] else q), Attach(f, k, Item(n, []));
      && Inv(s1, c1, q1, f1) && n in Flat(f1) && UpIn(f1, n) == k && n in Siblings(f1, n)
      && Without(s1, BlockSet(f1, n)) == s
      && q1 - BlockSet(f1, n) == q
      && (c1 - BlockKeys(f1, n))[UpIn(f1, n) := RemoveFirst(Siblings(f1, n), n)] == c
      && Prune(f1, n) == f
  {
    var f1 := Attach(f, k, Item(n, []));
    KeysIn(f, Some(n));
    AddState(s, c, q, f, k, n);
    AddRemoveNodes(s, f, k, n);
    AttachLeafAt(f, k, n, n);
    PruneAttachLeaf(f, k, n);
    PruneChildren(f1, n);
    assert n !in q;
    MapAddDrop(q, n, k, k.Some?);
  }

  /** Removing a node just added takes out exactly that node. */
  lemma AddRemoveNodes<N>(s: seq<N>, f: seq<Item<N>>, k: Option<N>, n: N)
    requires Unique(f) && InTree(f, k) && n !in Flat(f) && multiset(s) == multiset(Flat(f))
    ensures Placeable(s, f, k)
    ensures n in Flat(Attach(f, k, Item(n, []))) && BlockSet(Attach(f, k, Item(n, [])), n) == {n}
    ensures Without(Insert(s, AddPos(s, f, k), n), {n}) == s
  {
    var t := Item(n, []);
    FlatOne(t);
    assert Flat([t]) == [n];
    PermutationPlaceable(s, f, k);
    UniqueAttach(f, k, t);
    AttachSub(f, k, t);
    assert n !in multiset(s);
    WithoutInsert(s, AddPos(s, f, k), n);
  }

  /** The other order of the reversible pair: `add(n, p)` right after
      `remove(n)`, with `p` what `get_parent(n)` answered before, restores a
      tree in pre-order when `n` is a leaf and the last child of its parent.
      `_parents` comes back too, except for a top-level node that carried the
      entry `None` (which only `reparent` writes): `add` does not write it
      back. */
  lemma RemoveAddInverse<N>(s: seq<N>, c: map<Option<N>, seq<N>>, q: map<N, Option<N>>, f: seq<Item<N>>, n: N)
    requires InOrder(s, c, q, f) && n in Flat(f) && SubOf(f, n).kids == []
    requires n in Siblings(f, n) && NextSib(f, n).None?
    ensures var p := UpIn(f, n);
      var s1, c1, q1, f1 := Without(s, BlockSet(f, n)), (c - BlockKeys(f, n))[p := RemoveFirst(Siblings(f, n), n)],
        q - BlockSet(f, n), Prune(f, n);
      && InOrder(s1, c1, q1, f1) && Some(n) !in c1 && p in c1 && Placeable(s1, f1, p)
      && Insert(s1, AddPos(s1, f1, p), n) == s
      && c1[p := c1[p] + [n]][Some(n) := []] == c
      && Attach(f1, p, Item(n, [])) == f
      && ((p.Some? || n !in q) <==> (if p.Some? then q1[n := p] else q1) == q)
  {
    var p, f1 := UpIn(f, n), Prune(f, n);
    RemovedLeaf(s, c, q, f, n);
    PruneThenAttach(f, n);
    KeysIn(f1, p);
    AddKeeps(Flat(f1), f1, p, n);
    AttachLeafChildren(f1, p, n);
    ParentBack(q, f, n);
  }

  /** `remove(n)` on a leaf of a tree in pre-order leaves a tree in
      pre-order without `n`. */
  lemma RemovedLeaf<N>(s: seq<N>, c: map<Option<N>, seq<N>>, q: map<N, Option<N>>, f: seq<Item<N>>, n: N)
    requires InOrder(s, c, q, f) && n in Flat(f) && SubOf(f, n).kids == [] && n in Siblings(f, n)
    ensures BlockSet(f, n) == {n} && Unique(Prune(f, n)) && n !in Flat(Prune(f, n))
    ensures var p := UpIn(f, n);
      var s1, c1, q1, f1 := Without(s, BlockSet(f, n)), (c - BlockKeys(f, n))[p := RemoveFirst(Siblings(f, n), n)],
        q - BlockSet(f, n), Prune(f, n);
      InOrder(s1, c1, q1, f1) && Some(n) !in c1
  {
    var p, f1 := UpIn(f, n), Prune(f, n);
    LeafBlock(f, n);
    LeafChildren(f, n);
    UpHoldsKid(f, n);
    assert p != Some(n);
    MapUpdateMinus(c, p, RemoveFirst(Siblings(f, n), n), Some(n));
    UniquePrune(f, n);
    FlatPrune(f, n);
    PruneParents(q, f, n);
    KeysIn(f1, Some(n));
  }

  /** Writing back the parent `add` writes restores `_parents` unless the
      node is top-level and had an entry, which can only be `None`. */
  lemma ParentBack<N>(q: map<N, Option<N>>, f: seq<Item<N>>, n: N)
    requires Unique(f) && ParentsAgree(q, f) && n in Flat(f)
    ensures var p := UpIn(f, n);
      (p.Some? || n !in q) <==> (if p.Some? then (q - {n})[n := p] else q - {n}) == q
  {
    var p := UpIn(f, n);
    if p.Some? {
      MapsEqual((q - {n})[n := p], q);
    } else if n !in q {
      MapsEqual(q - {n}, q);
    } else {
      assert n !in q - {n};
    }
  }

  lemma RemoveKidsStart<N>(s: seq<N>, q: map<N, Option<N>>, f: seq<Item<N>>, n: N)
    requires n in Flat(f)
    ensures SetKids(f, n, SubOf(f, n).kids[0..]) == f
    ensures Without(s, Listed(SubOf(f, n).kids[..0])) == s
    ensures q - Listed(SubOf(f, n).kids[..0]) == q
  {
    var K := SubOf(f, n).kids;
    assert K[0..] == K;
    SetKidsSame(f, n);
    assert K[..0] == [];
    assert Listed(K[..0]) == {};
    WithoutDisjoint(s, {});
  }

  lemma RemoveKidsEnd<N>(s: seq<N>, q: map<N, Option<N>>, f: seq<Item<N>>, n: N)
    requires n in Flat(f)
    ensures var K := SubOf(f, n).kids; K[|K|..] == [] && K[..|K|] == K
  {
  }

  /** `remove(n)` as the loop over its children and then `Unlink(n)`. */
  lemma {:induction false} RemoveDone<N>(s: seq<N>, c: map<Option<N>, seq<N>>, q: map<N, Option<N>>, f: seq<Item<N>>, n: N)
    requires Inv(s, c, q, f) && n in Flat(f) && Unique(SetKids(f, n, []))
    ensures var S, K := SetKids(f, n, []), SubOf(f, n).kids;
      && UpIn(S, n) == UpIn(f, n) && UpIn(f, n) in c && c[UpIn(f, n)] == Siblings(f, n) && n in Siblings(f, n)
      && n in Without(s, Listed(K)) && RemoveFirst(Without(s, Listed(K)), n) == Without(s, BlockSet(f, n))
      && q - Listed(K) - {n} == q - BlockSet(f, n)
      && Prune(S, n) == Prune(f, n)
      && ChildrenMap(Prune(f, n)) == (c - BlockKeys(f, n))[UpIn(f, n) := RemoveFirst(Siblings(f, n), n)]
  {
    var K := SubOf(f, n).kids;
    RemoveDoneShape(f, n);
    KidsGoneNodes(s, f, n, K);
    MapMinusUnion(q, Listed(K), {n});
    assert Listed(K) + {n} == BlockSet(f, n);
  }

  lemma RemoveDoneShape<N>(f: seq<Item<N>>, n: N)
    requires Unique(f) && n in Flat(f) && Unique(SetKids(f, n, []))
    ensures var S := SetKids(f, n, []);
      && UpIn(S, n) == UpIn(f, n) && UpIn(f, n) in ChildrenMap(f) && ChildrenMap(f)[UpIn(f, n)] == Siblings(f, n)
      && n in Siblings(f, n)
      && Prune(S, n) == Prune(f, n)
      && ChildrenMap(Prune(f, n)) == (ChildrenMap(f) - BlockKeys(f, n))[UpIn(f, n) := RemoveFirst(Siblings(f, n), n)]
  {
    SubOfSetKids(f, n, []);
    UpSetKids(f, n, [], n);
    PruneChildren(f, n);
    PruneSetKids(f, n, []);
    KeysIn(f, UpIn(f, n));
  }

  /** The render list after the children's subtrees of `n` are gone, less
      `n`, is the render list less the whole subtree of `n`. */
  lemma {:induction false} KidsGoneNodes<N>(s: seq<N>, f: seq<Item<N>>, n: N, K: seq<Item<N>>)
    requires Unique(f) && n in Flat(f) && K == SubOf(f, n).kids
    requires multiset(s) == multiset(Flat(f))
    ensures BlockSet(f, n) == {n} + Listed(K)
    ensures n in Without(s, Listed(K))
    ensures RemoveFirst(Without(s, Listed(K)), n) == Without(s, BlockSet(f, n))
  {
    BlockHead(f, n, K);
    assert n in multiset(s);
    DistinctMultiset(s, Flat(f));
    WithoutThenRemove(s, Listed(K), n);
    assert Listed(K) + {n} == BlockSet(f, n);
  }

  /** What the last steps of `remove(n)` do to the containers of a forest in
      which `n` is a leaf. */
  lemma UnlinkState<N>(s: seq<N>, c: map<Option<N>, seq<N>>, q: map<N, Option<N>>, f: seq<Item<N>>, n: N)
    requires Inv(s, c, q, f) && n in Flat(f) && SubOf(f, n).kids == []
    ensures UpIn(f, n) in c && c[UpIn(f, n)] == Siblings(f, n) && n in Siblings(f, n) && n in s
    ensures Inv(RemoveFirst(s, n), c[UpIn(f, n) := RemoveFirst(Siblings(f, n), n)] - {Some(n)}, q - {n}, Prune(f, n))
    ensures InOrder(s, c, q, f) ==>
      InOrder(RemoveFirst(s, n), c[UpIn(f, n) := RemoveFirst(Siblings(f, n), n)] - {Some(n)}, q - {n}, Prune(f, n))
  {
    LeafChildren(f, n);
    LeafNodes(s, f, n);
    PruneParents(q, f, n);
  }

  /** The child lists once the leaf `n` is gone: `n` leaves its parent's list
      and its own empty list is dropped. */
  lemma LeafChildren<N>(f: seq<Item<N>>, n: N)
    requires Unique(f) && n in Flat(f) && SubOf(f, n).kids == []
    ensures BlockSet(f, n) == {n}
    ensures var c, p := ChildrenMap(f), UpIn(f, n);
      && p in c && c[p] == Siblings(f, n) && n in Siblings(f, n)
      && c[p := RemoveFirst(Siblings(f, n), n)] - {Some(n)} == ChildrenMap(Prune(f, n))
  {
    var c, p := ChildrenMap(f), UpIn(f, n);
    UpHoldsKid(f, n);
    KeysIn(f, p);
    PruneChildren(f, n);
    LeafBlock(f, n);
    assert p != Some(n);
    MapUpdateMinus(c, p, RemoveFirst(c[p], n), Some(n));
  }

  /** A leaf is its own block and has no children. */
  lemma LeafBlock<N>(f: seq<Item<N>>, n: N)
    requires n in Flat(f) && SubOf(f, n).kids == []
    ensures Block(f, n) == [n] && BlockSet(f, n) == {n} && BlockKeys(f, n) == {Some(n)}
    ensures KidsOf(f, Some(n)) == []
  {
    FlatOne(Item(n, []));
  }

  /** The render list once the leaf `n` is gone. */
  lemma LeafNodes<N>(s: seq<N>, f: seq<Item<N>>, n: N)
    requires Unique(f) && n in Flat(f) && multiset(s) == multiset(Flat(f)) && BlockSet(f, n) == {n}
    ensures n in s && Unique(Prune(f, n))
    ensures multiset(RemoveFirst(s, n)) == multiset(Flat(Prune(f, n)))
    ensures s == Flat(f) ==> RemoveFirst(s, n) == Flat(Prune(f, n))
  {
    assert n in multiset(s);
    UniquePrune(f, n);
    FlatPrune(f, n);
    RemoveFirstIsWithout(Flat(f), n);
    RemoveFirstMultiset(s, n);
    RemoveFirstMultiset(Flat(f), n);
  }

  /** One turn of the loop of `remove(n)`: the next child of `n` is the first
      of those left, and removing its subtree leaves the rest. */
  lemma RemoveStep<N>(s: seq<N>, q: map<N, Option<N>>, f: seq<Item<N>>, n: N, K: seq<Item<N>>, j: nat)
    requires Unique(f) && n in Flat(f) && K == SubOf(f, n).kids && j < |K|
    requires Unique(SetKids(f, n, K[j..]))
    ensures K[j].id in Flat(SetKids(f, n, K[j..]))
    ensures Some(K[j].id) in ChildrenMap(SetKids(f, n, K[j..]))
    ensures SubOf(SetKids(f, n, K[j..]), K[j].id) == K[j]
    ensures Prune(SetKids(f, n, K[j..]), K[j].id) == SetKids(f, n, K[j + 1..])
    ensures Without(Without(s, Listed(K[..j])), BlockSet(SetKids(f, n, K[j..]), K[j].id))
      == Without(s, Listed(K[..j + 1]))
    ensures q - Listed(K[..j]) - BlockSet(SetKids(f, n, K[j..]), K[j].id) == q - Listed(K[..j + 1])
  {
    RemoveStepShape(f, n, K, j);
    RemoveStepLists(s, q, f, n, K, j);
  }

  lemma RemoveStepShape<N>(f: seq<Item<N>>, n: N, K: seq<Item<N>>, j: nat)
    requires Unique(f) && n in Flat(f) && K == SubOf(f, n).kids && j < |K|
    requires Unique(SetKids(f, n, K[j..]))
    ensures K[j].id in Flat(SetKids(f, n, K[j..]))
    ensures Some(K[j].id) in ChildrenMap(SetKids(f, n, K[j..]))
    ensures SubOf(SetKids(f, n, K[j..]), K[j].id) == K[j]
    ensures Prune(SetKids(f, n, K[j..]), K[j].id) == SetKids(f, n, K[j + 1..])
    ensures BlockSet(SetKids(f, n, K[j..]), K[j].id) == Listed([K[j]])
  {
    var R := SetKids(f, n, K[j..]);
    FirstKidSub(f, n, K[j..]);
    PruneFirstKid(f, n, K[j..]);
    KeysIn(R, Some(K[j].id));
    assert K[j..][1..] == K[j + 1..];
  }

  lemma ListedPrefix<N>(K: seq<Item<N>>, j: nat)
    requires j < |K|
    ensures Listed(K[..j + 1]) == Listed(K[..j]) + Listed([K[j]])
  {
    assert K[..j + 1] == K[..j] + [K[j]];
    FlatAppend(K[..j], [K[j]]);
  }

  lemma RemoveStepLists<N>(s: seq<N>, q: map<N, Option<N>>, f: seq<Item<N>>, n: N, K: seq<Item<N>>, j: nat)
    requires Unique(f) && n in Flat(f) && K == SubOf(f, n).kids && j < |K|
    requires Unique(SetKids(f, n, K[j..]))
    ensures K[j].id in Flat(SetKids(f, n, K[j..]))
    ensures Without(Without(s, Listed(K[..j])), BlockSet(SetKids(f, n, K[j..]), K[j].id))
      == Without(s, Listed(K[..j + 1]))
    ensures q - Listed(K[..j]) - BlockSet(SetKids(f, n, K[j..]), K[j].id) == q - Listed(K[..j + 1])
  {
    RemoveStepShape(f, n, K, j);
    ListedPrefix(K, j);
    WithoutTwice(s, Listed(K[..j]), Listed([K[j]]));
    MapMinusUnion(q, Listed(K[..j]), Listed([K[j]]));
  }

  /** The block of `n` is `n` and then the listing of its children. */
  lemma BlockHead<N>(f: seq<Item<N>>, n: N, K: seq<Item<N>>)
    requires Unique(f) && n in Flat(f) && K == SubOf(f, n).kids
    ensures Block(f, n) == [n] + Flat(K) && n !in Flat(K)
    ensures BlockSet(f, n) == {n} + Listed(K) && n !in Listed(K)
  {
    FlatOne(SubOf(f, n));
    UniqueBlock(f, n);
    DistinctAppend([n], Flat(K));
  }
}
