/** The forest that a `Tree` stores in its `_nodes`, `_children` and
    `_parents` (gaphas/tree.py): each `Item` is a node with the subtrees of its
    children in order, and a forest is the ordered list of the root's children.
    Everything here is a value; `Trees.Tree` keeps one as its ghost abstraction
    and proves that its three fields encode it. */
module Forest {

  import opened Results
  import opened Lists

  datatype Item<N> = Item(id: N, kids: seq<Item<N>>)

  /** The ids of the top-level items, in order. */
  function Ids<N>(f: seq<Item<N>>): (r: seq<N>)
    ensures |r| == |f| && forall i :: 0 <= i < |f| ==> r[i] == f[i].id
  {
    if f == [] then [] else [f[0].id] + Ids(f[1..])
  }

  /** The render order the tree promises: every item, then its descendants,
      then the next item (pre-order). */
  function Flat<N>(f: seq<Item<N>>): seq<N>
  {
    if f == [] then [] else [f[0].id] + Flat(f[0].kids) + Flat(f[1..])
  }

  /** No node occurs twice anywhere in the forest. */
  ghost predicate Unique<N>(f: seq<Item<N>>) {
    Distinct(Flat(f))
  }

  /** `k` names the root (`None`) or a node of the forest. */
  predicate InTree<N(==)>(f: seq<Item<N>>, k: Option<N>) {
    k.None? || k.value in Flat(f)
  }

  /** The subtree rooted at `x`. */
  function SubOf<N(==)>(f: seq<Item<N>>, x: N): (t: Item<N>)
    requires x in Flat(f)
    ensures t.id == x
  {
    if f[0].id == x then f[0]
    else if x in Flat(f[0].kids) then SubOf(f[0].kids, x)
    else SubOf(f[1..], x)
  }

  /** `x` followed by its descendants, in pre-order. */
  function Block<N(==)>(f: seq<Item<N>>, x: N): seq<N>
    requires x in Flat(f)
  {
    Flat([SubOf(f, x)])
  }

  /** Where `x` stands in `Flat(f)`. */
  function StartIn<N(==)>(f: seq<Item<N>>, x: N): nat
    requires x in Flat(f)
  {
    if f[0].id == x then 0
    else if x in Flat(f[0].kids) then 1 + StartIn(f[0].kids, x)
    else |Flat([f[0]])| + StartIn(f[1..], x)
  }

  /** What the listing shows before the subtree of `x`. */
  function Preceding<N(==)>(f: seq<Item<N>>, x: N): seq<N>
    requires x in Flat(f)
  {
    if f[0].id == x then []
    else if x in Flat(f[0].kids) then [f[0].id] + Preceding(f[0].kids, x)
    else Flat([f[0]]) + Preceding(f[1..], x)
  }

  /** What the listing shows after the subtree of `x`. */
  function Following<N(==)>(f: seq<Item<N>>, x: N): seq<N>
    requires x in Flat(f)
  {
    if f[0].id == x then Flat(f[1..])
    else if x in Flat(f[0].kids) then Following(f[0].kids, x) + Flat(f[1..])
    else Following(f[1..], x)
  }

  /** Where a new last child of `k` belongs in `Flat(f)`: just after the
      subtree of `k`, or at the end for the root. */
  function EndOf<N(==)>(f: seq<Item<N>>, k: Option<N>): nat
    requires InTree(f, k)
  {
    match k
    case None => |Flat(f)|
    case Some(x) => StartIn(f, x) + |Block(f, x)|
  }

  /** The subtrees of `k`'s children: the top-level items for the root, none
      for a node that is not in the forest. */
  function KidItems<N(==)>(f: seq<Item<N>>, k: Option<N>): seq<Item<N>>
  {
    match k
    case None => f
    case Some(x) => if x in Flat(f) then SubOf(f, x).kids else []
  }

  /** The child list of `k`, what `_children[k]` holds. */
  function KidsOf<N(==)>(f: seq<Item<N>>, k: Option<N>): seq<N>
  {
    Ids(KidItems(f, k))
  }

  /** The parent of `x`: `None` for a root-level node and for a node that is
      not in the forest, what `get_parent` answers. */
  function UpIn<N(==)>(f: seq<Item<N>>, x: N): Option<N>
  {
    if f == [] || x in Ids(f) then None
    else if x in Flat(f[0].kids) then
      (if x in Ids(f[0].kids) then Some(f[0].id) else UpIn(f[0].kids, x))
    else UpIn(f[1..], x)
  }

  /** The child list that holds `x`, what `get_siblings` answers. */
  function Siblings<N(==)>(f: seq<Item<N>>, x: N): seq<N>
  {
    KidsOf(f, UpIn(f, x))
  }

  /** The sibling after `x`, or `None` for the last one. */
  function NextSib<N(==)>(f: seq<Item<N>>, x: N): Option<N>
    requires x in Siblings(f, x)
  {
    NextIn(Siblings(f, x), x)
  }

  /** The sibling before `x`, or `None` for the first one. */
  function PrevSib<N(==)>(f: seq<Item<N>>, x: N): Option<N>
    requires x in Siblings(f, x)
  {
    PreviousIn(Siblings(f, x), x)
  }

  /** The number of proper ancestors of `x`. */
  function Depth<N(==)>(f: seq<Item<N>>, x: N): nat
  {
    if f == [] || x in Ids(f) then 0
    else if x in Flat(f[0].kids) then 1 + Depth(f[0].kids, x)
    else Depth(f[1..], x)
  }

  /** A measure that walking from `k` up to the root decreases. */
  function Rank<N(==)>(f: seq<Item<N>>, k: Option<N>): nat
  {
    match k
    case None => 0
    case Some(x) => Depth(f, x) + 1
  }

  /** Every key of `_children`: the root and one per node. */
  function Keys<N(==)>(f: seq<Item<N>>): set<Option<N>>
  {
    {None} + set x | x in Flat(f) :: Some(x)
  }

  /** The `_children` dictionary that encodes `f`. */
  function ChildrenMap<N(==)>(f: seq<Item<N>>): map<Option<N>, seq<N>>
  {
    map k | k in Keys(f) :: KidsOf(f, k)
  }

  /** `parents` is a `_parents` dictionary for `f`: every entry belongs to a
      node and maps it to its parent (the source stores `None` for a node
      reparented to the root), and every node below another has an entry. */
  predicate ParentsAgree<N(==)>(parents: map<N, Option<N>>, f: seq<Item<N>>) {
    && (forall y :: y in parents ==> y in Flat(f) && parents[y] == UpIn(f, y))
    && (forall y :: y in Flat(f) && UpIn(f, y).Some? ==> y in parents)
  }

  // ---------------------------------------------------------------------
  // Basic facts about the pre-order listing

  lemma {:induction false} FlatAppend<N>(a: seq<Item<N>>, b: seq<Item<N>>)
    ensures Flat(a + b) == Flat(a) + Flat(b)
  {
    if a == [] {
      assert a + b == b;
    } else {
      assert (a + b)[0] == a[0] && (a + b)[1..] == a[1..] + b;
      FlatAppend(a[1..], b);
    }
  }

  lemma FlatOne<N>(t: Item<N>)
    ensures Flat([t]) == [t.id] + Flat(t.kids)
  {
    assert [t][1..] == [];
  }

  lemma FlatHead<N>(f: seq<Item<N>>)
    requires f != []
    ensures Flat(f) == Flat([f[0]]) + Flat(f[1..])
  {
    FlatOne(f[0]);
  }

  lemma FlatSplit<N>(f: seq<Item<N>>, i: nat)
    requires i < |f|
    ensures Flat(f) == Flat(f[..i]) + Flat([f[i]]) + Flat(f[i + 1..])
  {
    SplitAt(f, i);
    FlatAppend(f[..i] + [f[i]], f[i + 1..]);
    FlatAppend(f[..i], [f[i]]);
  }

  lemma IdsAppend<N>(a: seq<Item<N>>, b: seq<Item<N>>)
    ensures Ids(a + b) == Ids(a) + Ids(b)
  {
  }

  lemma IdsInFlat<N>(f: seq<Item<N>>)
    ensures forall i :: 0 <= i < |f| ==> f[i].id in Flat(f)
  {
    forall i | 0 <= i < |f| ensures f[i].id in Flat(f) {
      FlatSplit(f, i);
    }
  }

  /** The pieces of a forest without repeats have none and share none. */
  lemma UniqueParts<N>(f: seq<Item<N>>)
    requires Unique(f) && f != []
    ensures Unique(f[0].kids) && Unique(f[1..]) && Unique([f[0]])
    ensures f[0].id !in Flat(f[0].kids) && f[0].id !in Flat(f[1..])
    ensures forall y :: y in Flat(f[0].kids) ==> y !in Flat(f[1..])
    ensures forall y :: y in Flat([f[0]]) ==> y !in Flat(f[1..])
  {
    FlatOne(f[0]);
    DistinctAppend([f[0].id] + Flat(f[0].kids), Flat(f[1..]));
    DistinctAppend([f[0].id], Flat(f[0].kids));
  }

  /** No node is listed twice among the top-level ids. */
  lemma {:induction false} IdsDistinct<N>(f: seq<Item<N>>)
    requires Unique(f)
    ensures Distinct(Ids(f))
  {
    if f != [] {
      UniqueParts(f);
      IdsDistinct(f[1..]);
      IdsInFlat(f[1..]);
      assert Ids(f) == [f[0].id] + Ids(f[1..]);
      DistinctAppend([f[0].id], Ids(f[1..]));
    }
  }

  lemma UniqueAppend<N>(a: seq<Item<N>>, b: seq<Item<N>>)
    ensures Unique(a + b) <==> Unique(a) && Unique(b) && (forall y :: y in Flat(a) ==> y !in Flat(b))
  {
    FlatAppend(a, b);
    DistinctAppend(Flat(a), Flat(b));
  }

  // ---------------------------------------------------------------------
  // Subtrees

  /** A subtree occupies a contiguous block of the pre-order listing: `x`
      first, then exactly its descendants. */
  lemma BlockAt<N>(f: seq<Item<N>>, x: N)
    requires x in Flat(f)
    ensures StartIn(f, x) + |Block(f, x)| <= |Flat(f)|
    ensures Flat(f)[StartIn(f, x)..StartIn(f, x) + |Block(f, x)|] == Block(f, x)
  {
    FlatAround(f, x);
    MiddleSlice(Flat(f), Preceding(f, x), Block(f, x), Following(f, x));
  }

  /** The listing is what precedes the subtree of `x`, that subtree, and what
      follows it; `x` stands just after what precedes it. */
  lemma {:induction false} FlatAround<N>(f: seq<Item<N>>, x: N)
    requires x in Flat(f)
    ensures Flat(f) == Preceding(f, x) + Block(f, x) + Following(f, x)
    ensures |Preceding(f, x)| == StartIn(f, x)
  {
    FlatHead(f);
    if f[0].id == x {
      assert Flat(f) == [] + Flat([f[0]]) + Flat(f[1..]);
    } else if x in Flat(f[0].kids) {
      FlatAround(f[0].kids, x);
      FlatOne(f[0]);
      assert Block(f, x) == Block(f[0].kids, x);
      Regroup5([f[0].id], Preceding(f[0].kids, x), Block(f, x), Following(f[0].kids, x), Flat(f[1..]));
    } else {
      FlatAround(f[1..], x);
      assert Block(f, x) == Block(f[1..], x);
      Regroup3(Flat([f[0]]), Preceding(f[1..], x), Block(f, x), Following(f[1..], x));
    }
  }

  lemma BlockInFlat<N>(f: seq<Item<N>>, x: N)
    requires x in Flat(f)
    ensures forall y :: y in Block(f, x) ==> y in Flat(f)
  {
    BlockAt(f, x);
    forall y | y in Block(f, x) ensures y in Flat(f) {
      var s, b := StartIn(f, x), |Block(f, x)|;
      var j :| 0 <= j < b && Block(f, x)[j] == y;
      assert Flat(f)[s + j] == y;
    }
  }

  /** In a forest without repeats, `StartIn` is the list index. */
  lemma StartIsIndex<N>(f: seq<Item<N>>, x: N)
    requires Unique(f) && x in Flat(f)
    ensures IndexOf(Flat(f), x) == StartIn(f, x)
  {
    BlockAt(f, x);
    FlatOne(SubOf(f, x));
    assert Flat(f)[StartIn(f, x)] == Block(f, x)[0] == x;
    DistinctIndexOf(Flat(f), StartIn(f, x));
  }

  /** The `i`-th top-level item is the subtree of its own id. */
  lemma {:induction false} SubOfTop<N>(f: seq<Item<N>>, i: nat)
    requires Unique(f) && i < |f|
    ensures f[i].id in Flat(f) && SubOf(f, f[i].id) == f[i]
  {
    IdsInFlat(f);
    UniqueParts(f);
    if i > 0 {
      FlatSplit(f[1..], i - 1);
      assert f[1..][i - 1] == f[i];
      FlatOne(f[i]);
      SubOfTop(f[1..], i - 1);
    }
  }

  /** The subtree of a descendant of `x` is found inside the subtree of `x`. */
  lemma {:induction false} SubOfWithin<N>(f: seq<Item<N>>, x: N, y: N)
    requires Unique(f) && x in Flat(f) && y in Block(f, x)
    ensures y in Flat(f) && SubOf(f, y) == SubOf([SubOf(f, x)], y)
  {
    BlockInFlat(f, x);
    UniqueParts(f);
    FlatOne(f[0]);
    if f[0].id == x {
    } else if x in Flat(f[0].kids) {
      BlockInFlat(f[0].kids, x);
      SubOfWithin(f[0].kids, x, y);
    } else {
      BlockInFlat(f[1..], x);
      SubOfWithin(f[1..], x, y);
    }
  }

  /** The subtrees of `k`'s children are the subtrees of their ids. */
  lemma KidItemsAreSubtrees<N>(f: seq<Item<N>>, k: Option<N>, i: nat)
    requires Unique(f) && InTree(f, k) && i < |KidItems(f, k)|
    ensures KidItems(f, k)[i].id in Flat(f)
    ensures SubOf(f, KidItems(f, k)[i].id) == KidItems(f, k)[i]
  {
    if k.None? {
      SubOfTop(f, i);
    } else {
      var x := k.value;
      var t := SubOf(f, x);
      var c := t.kids[i];
      FlatOne(t);
      BlockInFlat(f, x);
      UniqueBlock(f, x);
      UniqueParts([t]);
      SubOfTop(t.kids, i);
      assert c.id in Block(f, x);
      SubOfWithin(f, x, c.id);
      assert [t][0].id != c.id;
    }
  }

  /** A subtree of a forest without repeats has none either. */
  lemma UniqueBlock<N>(f: seq<Item<N>>, x: N)
    requires Unique(f) && x in Flat(f)
    ensures Distinct(Block(f, x))
  {
    BlockAt(f, x);
    DistinctSlice(Flat(f), StartIn(f, x), StartIn(f, x) + |Block(f, x)|);
  }

  // ---------------------------------------------------------------------
  // Parents and siblings

  lemma {:induction false} UpAbsent<N>(f: seq<Item<N>>, x: N)
    requires x !in Flat(f)
    ensures UpIn(f, x) == None
  {
    if f != [] {
      IdsInFlat(f);
      UpAbsent(f[1..], x);
    }
  }

  /** How the parent of a node below the first item is found. */
  lemma UpStep<N>(f: seq<Item<N>>, x: N)
    requires Unique(f) && f != [] && x in Flat(f) && x != f[0].id
    ensures x in Flat(f[0].kids) ==>
      (x !in Ids(f) && UpIn(f, x) == (if x in Ids(f[0].kids) then Some(f[0].id) else UpIn(f[0].kids, x)))
    ensures x !in Flat(f[0].kids) ==> UpIn(f, x) == UpIn(f[1..], x)
  {
    UniqueParts(f);
    IdsInFlat(f[1..]);
  }

  /** A node has no parent exactly when it is a top-level item or is not in
      the forest. */
  lemma {:induction false} UpNone<N>(f: seq<Item<N>>, x: N)
    ensures UpIn(f, x) == None <==> (x !in Flat(f) || x in Ids(f))
  {
    if f != [] && x !in Ids(f) {
      IdsInFlat(f);
      if x in Flat(f[0].kids) {
        if x !in Ids(f[0].kids) {
          UpNone(f[0].kids, x);
        }
      } else {
        UpNone(f[1..], x);
      }
    } else if f == [] {
    } else {
      IdsInFlat(f);
    }
  }

  /** Two forests with the same first item agree on the parents inside it. */
  lemma UpSameHead<N>(f: seq<Item<N>>, g: seq<Item<N>>, y: N)
    requires Unique(f) && Unique(g) && f != [] && g != [] && f[0] == g[0] && y in Flat([f[0]])
    ensures UpIn(f, y) == UpIn(g, y)
  {
    FlatOne(f[0]);
    FlatHead(f);
    FlatHead(g);
    if y == f[0].id {
      assert Ids(f)[0] == y && Ids(g)[0] == y;
    } else {
      UpStep(f, y);
      UpStep(g, y);
    }
  }

  lemma PastFirst<N>(f: seq<Item<N>>, x: N)
    requires f != [] && x !in Flat([f[0]])
    ensures UpIn(f, x) == UpIn(f[1..], x)
    ensures x in Flat(f) <==> x in Flat(f[1..])
    ensures x in Flat(f) ==> SubOf(f, x) == SubOf(f[1..], x)
  {
    FlatOne(f[0]);
    FlatHead(f);
    if x in Ids(f) {
      assert x in Ids(f[1..]);
    }
  }

  /** A node below the top level has a parent. */
  lemma {:induction false} UpBelowTop<N>(f: seq<Item<N>>, x: N)
    requires x in Flat(f) && x !in Ids(f)
    ensures UpIn(f, x).Some?
  {
    if x in Flat(f[0].kids) {
      if x !in Ids(f[0].kids) {
        UpBelowTop(f[0].kids, x);
      }
    } else {
      UpBelowTop(f[1..], x);
    }
  }

  /** Every node is in the child list of its parent, and that parent is the
      root or a node of the forest. */
  lemma {:induction false} UpHoldsKid<N>(f: seq<Item<N>>, x: N)
    requires Unique(f) && x in Flat(f)
    ensures InTree(f, UpIn(f, x)) && x in KidsOf(f, UpIn(f, x))
  {
    UniqueParts(f);
    IdsInFlat(f);
    FlatOne(f[0]);
    if x in Ids(f) {
    } else if x in Flat(f[0].kids) {
      if x in Ids(f[0].kids) {
        SubOfTop(f, 0);
      } else {
        UpHoldsKid(f[0].kids, x);
        var q := UpIn(f[0].kids, x).value;
        assert SubOf(f, q) == SubOf(f[0].kids, q);
      }
    } else {
      UpBelowTop(f[1..], x);
      UpHoldsKid(f[1..], x);
      var q := UpIn(f[1..], x).value;
      assert SubOf(f, q) == SubOf(f[1..], q);
    }
  }

  /** A node in the child list of `k` has `k` as its parent: each node sits in
      exactly one child list, the one of its parent. */
  lemma {:induction false} KidHasUp<N>(f: seq<Item<N>>, k: Option<N>, x: N)
    requires Unique(f) && InTree(f, k) && x in KidsOf(f, k)
    ensures x in Flat(f) && UpIn(f, x) == k
  {
    if k.None? {
      IdsInFlat(f);
    } else if f[0].id == k.value {
      KidOfFirst(f, x);
    } else if k.value in Flat(f[0].kids) {
      UniqueParts(f);
      KidHasUp(f[0].kids, k, x);
      UpFromFirst(f, x);
    } else {
      UniqueParts(f);
      KidHasUp(f[1..], k, x);
      UpFromRest(f, x);
    }
  }

  /** A child of the first item has that item as its parent. */
  lemma KidOfFirst<N>(f: seq<Item<N>>, x: N)
    requires Unique(f) && f != [] && x in Ids(f[0].kids)
    ensures x in Flat(f) && UpIn(f, x) == Some(f[0].id)
  {
    UniqueParts(f);
    IdsInFlat(f[0].kids);
    IdsInFlat(f[1..]);
    FlatOne(f[0]);
  }

  /** The parent of a node further down the first tree is its parent there. */
  lemma UpFromFirst<N>(f: seq<Item<N>>, x: N)
    requires Unique(f) && f != [] && x in Flat(f[0].kids) && x !in Ids(f[0].kids)
    ensures x in Flat(f) && UpIn(f, x) == UpIn(f[0].kids, x)
  {
    UniqueParts(f);
    IdsInFlat(f[1..]);
    FlatOne(f[0]);
  }

  /** The parent of a node below a later item is its parent among the later
      items. */
  lemma UpFromRest<N>(f: seq<Item<N>>, x: N)
    requires Unique(f) && f != [] && x in Flat(f[1..]) && x !in Ids(f[1..])
    ensures x in Flat(f) && UpIn(f, x) == UpIn(f[1..], x)
  {
    UniqueParts(f);
    FlatOne(f[0]);
  }

  /** Each step up the parent chain lowers the depth by one. */
  lemma {:induction false} DepthUp<N>(f: seq<Item<N>>, x: N)
    requires Unique(f) && x in Flat(f)
    ensures UpIn(f, x).None? ==> Depth(f, x) == 0
    ensures UpIn(f, x).Some? ==> UpIn(f, x).value in Flat(f) && Depth(f, UpIn(f, x).value) + 1 == Depth(f, x)
  {
    UniqueParts(f);
    IdsInFlat(f);
    FlatOne(f[0]);
    if x in Ids(f) {
    } else if x in Flat(f[0].kids) {
      if x in Ids(f[0].kids) {
      } else {
        UpBelowTop(f[0].kids, x);
        DepthUp(f[0].kids, x);
        var q := UpIn(f[0].kids, x).value;
        assert q !in Ids(f) by {
          IdsInFlat(f[1..]);
        }
      }
    } else {
      UpBelowTop(f[1..], x);
      DepthUp(f[1..], x);
      var q := UpIn(f[1..], x).value;
      assert Depth(f, q) == Depth(f[1..], q) by {
        if q in Ids(f) {
          assert q in Ids(f[1..]);
        }
      }
    }
  }

  /** The rank of a node's parent is below the node's own. */
  lemma RankUp<N>(f: seq<Item<N>>, x: N)
    requires Unique(f) && x in Flat(f)
    ensures InTree(f, UpIn(f, x)) && Rank(f, UpIn(f, x)) < Rank(f, Some(x))
  {
    DepthUp(f, x);
  }

  /** Siblings share their parent, hence their depth. */
  lemma SiblingsShareUp<N>(f: seq<Item<N>>, x: N, y: N)
    requires Unique(f) && x in Flat(f) && y in Siblings(f, x)
    ensures y in Flat(f) && UpIn(f, y) == UpIn(f, x) && Depth(f, y) == Depth(f, x)
  {
    UpHoldsKid(f, x);
    KidHasUp(f, UpIn(f, x), y);
    DepthUp(f, x);
    DepthUp(f, y);
  }

  // ---------------------------------------------------------------------
  // Where a subtree ends

  /** How the sibling list of a node below the first item is found. */
  lemma SiblingsStep<N>(f: seq<Item<N>>, p: N)
    requires Unique(f) && p in Flat(f) && p != f[0].id
    ensures p in Flat(f[0].kids) ==> Siblings(f, p) == Siblings(f[0].kids, p)
    ensures p in Flat(f[1..]) && p !in Ids(f[1..]) ==> Siblings(f, p) == Siblings(f[1..], p)
    ensures p in Ids(f[1..]) ==> Siblings(f, p) == Ids(f) && Siblings(f[1..], p) == Ids(f[1..])
  {
    UniqueParts(f);
    IdsInFlat(f[1..]);
    IdsInFlat(f[0].kids);
    if p in Flat(f[0].kids) {
      assert p !in Ids(f);
      if p in Ids(f[0].kids) {
        SubOfTop(f, 0);
      } else {
        UpBelowTop(f[0].kids, p);
        UpHoldsKid(f[0].kids, p);
        var q := UpIn(f[0].kids, p).value;
        assert SubOf(f, q) == SubOf(f[0].kids, q);
      }
    } else if p !in Ids(f[1..]) {
      assert p !in Ids(f);
      UpBelowTop(f[1..], p);
      UpHoldsKid(f[1..], p);
      var q := UpIn(f[1..], p).value;
      FlatOne(f[0]);
      assert SubOf(f, q) == SubOf(f[1..], q);
    }
  }

  /** Where a subtree below the first item ends. */
  lemma EndStep<N>(f: seq<Item<N>>, x: N)
    requires x in Flat(f) && x != f[0].id
    ensures x in Flat(f[0].kids) ==> StartIn(f, x) == 1 + StartIn(f[0].kids, x)
    ensures x !in Flat(f[0].kids) ==> StartIn(f, x) == |Flat([f[0]])| + StartIn(f[1..], x)
    ensures x in Flat(f[0].kids) ==> EndOf(f, Some(x)) == 1 + EndOf(f[0].kids, Some(x))
    ensures x !in Flat(f[0].kids) ==> EndOf(f, Some(x)) == |Flat([f[0]])| + EndOf(f[1..], Some(x))
  {
    if x in Flat(f[0].kids) {
      assert Block(f, x) == Block(f[0].kids, x);
    } else {
      assert Block(f, x) == Block(f[1..], x);
    }
  }

  /** The sibling after `p` is the node right after the subtree of `p`. */
  lemma {:induction false} NextSibAtEnd<N>(f: seq<Item<N>>, p: N)
    requires Unique(f) && p in Flat(f) && p in Siblings(f, p) && NextSib(f, p).Some?
    ensures EndOf(f, Some(p)) < |Flat(f)| && Flat(f)[EndOf(f, Some(p))] == NextSib(f, p).value
    decreases f, 1
  {
    UniqueParts(f);
    if p == f[0].id {
      FirstEnd(f);
      assert Siblings(f, p) == Ids(f);
      assert IndexOf(Ids(f), p) == 0;
      FlatHead(f);
      assert Flat(f[1..])[0] == f[1].id;
      assert NextSib(f, p) == Some(f[1].id);
      assert Flat(f)[|Flat([f[0]])|] == f[1].id;
    } else if p in Flat(f[0].kids) {
      NextSibKids(f, p);
    } else {
      NextSibRest(f, p);
    }
  }

  lemma {:induction false} NextSibKids<N>(f: seq<Item<N>>, p: N)
    requires Unique(f) && p in Flat(f) && p in Siblings(f, p) && NextSib(f, p).Some?
    requires p != f[0].id && p in Flat(f[0].kids)
    ensures EndOf(f, Some(p)) < |Flat(f)| && Flat(f)[EndOf(f, Some(p))] == NextSib(f, p).value
    decreases f, 0
  {
    UniqueParts(f);
    SiblingsStep(f, p);
    UpHoldsKid(f[0].kids, p);
    assert NextSib(f, p) == NextSib(f[0].kids, p);
    NextSibAtEnd(f[0].kids, p);
    EndStep(f, p);
    FlatHead(f);
    FlatOne(f[0]);
    IndexMid(Flat(f), [f[0].id], Flat(f[0].kids), Flat(f[1..]), EndOf(f[0].kids, Some(p)),
      EndOf(f, Some(p)), NextSib(f, p).value);
  }

  lemma {:induction false} NextSibRest<N>(f: seq<Item<N>>, p: N)
    requires Unique(f) && p in Flat(f) && p in Siblings(f, p) && NextSib(f, p).Some?
    requires p != f[0].id && p !in Flat(f[0].kids)
    ensures EndOf(f, Some(p)) < |Flat(f)| && Flat(f)[EndOf(f, Some(p))] == NextSib(f, p).value
    decreases f, 0
  {
    NextSibLater(f, p);
    NextSibAtEnd(f[1..], p);
    EndStep(f, p);
    FlatHead(f);
    IndexShift(Flat(f), Flat([f[0]]), Flat(f[1..]), EndOf(f[1..], Some(p)), EndOf(f, Some(p)), NextSib(f, p).value);
  }

  lemma NextSibLater<N>(f: seq<Item<N>>, p: N)
    requires Unique(f) && p in Flat(f) && p in Siblings(f, p)
    requires p != f[0].id && p !in Flat(f[0].kids)
    ensures Unique(f[1..]) && p in Flat(f[1..]) && p in Siblings(f[1..], p)
    ensures NextSib(f, p) == NextSib(f[1..], p)
  {
    UniqueParts(f);
    SiblingsStep(f, p);
    UpHoldsKid(f[1..], p);
    if p in Ids(f[1..]) {
      NextInCons(f[0].id, Ids(f[1..]), p);
    }
  }

  /** When `p` is the last child, its subtree ends where its parent's does.
      Together with `NextSibAtEnd` this is what lets `_add_to_nodes` find the
      insertion point by walking up to the nearest following uncle. */
  lemma {:induction false} LastSibEnd<N>(f: seq<Item<N>>, p: N)
    requires Unique(f) && p in Flat(f) && p in Siblings(f, p) && NextSib(f, p).None?
    ensures InTree(f, UpIn(f, p)) && EndOf(f, Some(p)) == EndOf(f, UpIn(f, p))
  {
    UniqueParts(f);
    UpHoldsKid(f, p);
    if p == f[0].id {
      FirstEnd(f);
      assert Siblings(f, p) == Ids(f);
      assert IndexOf(Ids(f), p) == 0;
      FlatHead(f);
      assert f[1..] == [];
    } else if p in Flat(f[0].kids) {
      SiblingsStep(f, p);
      UpHoldsKid(f[0].kids, p);
      assert NextSib(f, p) == NextSib(f[0].kids, p);
      LastSibEnd(f[0].kids, p);
      EndStep(f, p);
      UpStep(f, p);
      if p in Ids(f[0].kids) {
        FirstEnd(f);
        FlatOne(f[0]);
      } else {
        UpBelowTop(f[0].kids, p);
        EndStep(f, UpIn(f[0].kids, p).value);
      }
    } else {
      SiblingsStep(f, p);
      UpHoldsKid(f[1..], p);
      if p in Ids(f[1..]) {
        NextInCons(f[0].id, Ids(f[1..]), p);
      }
      assert NextSib(f, p) == NextSib(f[1..], p);
      LastSibEnd(f[1..], p);
      EndStep(f, p);
      UpStep(f, p);
      FlatHead(f);
      if p !in Ids(f[1..]) {
        UpBelowTop(f[1..], p);
        EndStep(f, UpIn(f[1..], p).value);
      }
    }
  }

  /** The subtree of the first item ends after its pre-order block. */
  lemma FirstEnd<N>(f: seq<Item<N>>)
    requires Unique(f) && f != []
    ensures f[0].id in Flat(f) && EndOf(f, Some(f[0].id)) == |Flat([f[0]])|
  {
    SubOfTop(f, 0);
  }

  // ---------------------------------------------------------------------
  // Looking things up in part of a forest

  /** Within the subtree of `x`, a descendant has the same parent as in the
      whole forest. */
  lemma {:induction false} UpWithin<N>(f: seq<Item<N>>, x: N, y: N)
    requires Unique(f) && x in Flat(f) && y in Block(f, x) && y != x
    ensures UpIn(f, y) == UpIn([SubOf(f, x)], y)
  {
    UniqueParts(f);
    FlatOne(f[0]);
    BlockInFlat(f, x);
    if f[0].id == x {
      UpStep(f, y);
      assert Ids([f[0]]) == [x];
    } else if x in Flat(f[0].kids) {
      var t := SubOf(f[0].kids, x);
      assert SubOf(f, x) == t;
      assert Block(f, x) == Block(f[0].kids, x);
      BlockInFlat(f[0].kids, x);
      UpWithin(f[0].kids, x, y);
      FlatOne(t);
      assert Ids([t]) == [x];
      UpNone([t], y);
      UpNone(f[0].kids, y);
      UpStep(f, y);
    } else {
      assert SubOf(f, x) == SubOf(f[1..], x);
      assert Block(f, x) == Block(f[1..], x);
      BlockInFlat(f[1..], x);
      PastFirst(f, y);
      UpWithin(f[1..], x, y);
    }
  }

  /** Every item of `ts` is the subtree of its id in `f`. */
  ghost predicate Subtrees<N>(ts: seq<Item<N>>, f: seq<Item<N>>) {
    forall i :: 0 <= i < |ts| ==> ts[i].id in Flat(f) && SubOf(f, ts[i].id) == ts[i]
  }

  /** A forest made of subtrees of `f` agrees with `f` on the subtrees and on
      the parents below its top level. */
  lemma {:induction false} SubtreesAgree<N>(ts: seq<Item<N>>, f: seq<Item<N>>, y: N)
    requires Unique(f) && Unique(ts) && Subtrees(ts, f) && y in Flat(ts)
    ensures y in Flat(f) && SubOf(ts, y) == SubOf(f, y)
    ensures y !in Ids(ts) ==> UpIn(ts, y) == UpIn(f, y)
  {
    var t := ts[0];
    UniqueParts(ts);
    FlatOne(t);
    if y in Flat([t]) {
      assert Block(f, t.id) == Flat([t]);
      SubOfWithin(f, t.id, y);
      if y != t.id {
        UpWithin(f, t.id, y);
        FlatHead(ts);
        UpStep(ts, y);
        UpStep([t], y);
        assert Ids([t]) == [t.id];
      }
    } else {
      PastFirst(ts, y);
      assert Subtrees(ts[1..], f) by {
        forall i | 0 <= i < |ts[1..]| ensures ts[1..][i].id in Flat(f) && SubOf(f, ts[1..][i].id) == ts[1..][i] {
          assert ts[1..][i] == ts[i + 1];
        }
      }
      SubtreesAgree(ts[1..], f, y);
    }
  }

  /** Looking something up in `a + b` looks in the part that holds it. */
  lemma {:induction false} SplitAgree<N>(a: seq<Item<N>>, b: seq<Item<N>>, y: N)
    requires Unique(a + b) && y in Flat(a + b)
    ensures y in Flat(a) ==> SubOf(a + b, y) == SubOf(a, y) && UpIn(a + b, y) == UpIn(a, y)
    ensures y !in Flat(a) ==> y in Flat(b) && SubOf(a + b, y) == SubOf(b, y) && UpIn(a + b, y) == UpIn(b, y)
  {
    UniqueAppend(a, b);
    FlatAppend(a, b);
    if a == [] {
      assert a + b == b;
    } else {
      var c := a + b;
      assert c[0] == a[0] && c[1..] == a[1..] + b;
      FlatOne(a[0]);
      if y in Flat([a[0]]) {
        UpSameHead(c, a, y);
      } else {
        PastFirst(c, y);
        if y in Flat(a) {
          PastFirst(a, y);
        }
        UniqueParts(c);
        SplitAgree(a[1..], b, y);
      }
    }
  }

  // ---------------------------------------------------------------------
  // Counting entries

  /** The keys of `ChildrenMap(f)` are the root and the nodes of `f`. */
  lemma KeysIn<N>(f: seq<Item<N>>, z: Option<N>)
    ensures z in ChildrenMap(f) <==> InTree(f, z)
    ensures InTree(f, z) ==> ChildrenMap(f)[z] == KidsOf(f, z)
  {
    if z.Some? && z.value in Flat(f) {
      assert z in Keys(f);
    }
  }

  lemma {:induction false} SomeSetSize<N>(s: seq<N>)
    requires Distinct(s)
    ensures |set y | y in s :: Some(y)| == |s|
  {
    if s != [] {
      assert s == [s[0]] + s[1..];
      DistinctAppend([s[0]], s[1..]);
      SomeSetSize(s[1..]);
      var rest := set y | y in s[1..] :: Some(y);
      assert (set y | y in s :: Some(y)) == {Some(s[0])} + rest;
      assert Some(s[0]) !in rest;
    }
  }

  /** The class invariant: one child list per node plus one for the root. */
  lemma ChildrenCount<N>(f: seq<Item<N>>)
    requires Unique(f)
    ensures |ChildrenMap(f)| == |Flat(f)| + 1
  {
    var others := set y | y in Flat(f) :: Some(y);
    SomeSetSize(Flat(f));
    assert Keys(f) == {None} + others;
    assert None !in others;
    assert ChildrenMap(f).Keys == Keys(f);
  }

  /** Every node is listed after its parent and before the end of its
      parent's block; top-level nodes are simply in the listing. */
  lemma KidInBlock<N>(f: seq<Item<N>>, y: N)
    requires Unique(f) && y in Flat(f)
    ensures InTree(f, UpIn(f, y)) && StartIn(f, y) < EndOf(f, UpIn(f, y))
    ensures UpIn(f, y).Some? ==> StartIn(f, UpIn(f, y).value) < StartIn(f, y)
  {
    UpHoldsKid(f, y);
    StartIsIndex(f, y);
    if UpIn(f, y).Some? {
      KidBelow(f, y, UpIn(f, y).value);
    }
  }

  lemma KidBelow<N>(f: seq<Item<N>>, y: N, p: N)
    requires Unique(f) && p in Flat(f) && y in KidsOf(f, Some(p))
    ensures y in Flat(f) && StartIn(f, p) < StartIn(f, y) < StartIn(f, p) + |Block(f, p)|
  {
    var j := KidSpot(f, y, p);
    BlockAt(f, p);
    IndexInSlice(Flat(f), StartIn(f, p), Block(f, p), j);
    StartIsIndex(f, y);
  }

  /** A child of `p` stands in the block of `p`, after `p` itself. */
  lemma KidSpot<N>(f: seq<Item<N>>, y: N, p: N) returns (j: nat)
    requires p in Flat(f) && y in KidsOf(f, Some(p))
    ensures 1 <= j < |Block(f, p)| && Block(f, p)[j] == y
  {
    var ks := SubOf(f, p).kids;
    var i :| 0 <= i < |ks| && ks[i].id == y;
    IdsInFlat(ks);
    FlatOne(SubOf(f, p));
    j := 1 + IndexOf(Flat(ks), y);
  }

  // ---------------------------------------------------------------------
  // Ancestors

  lemma UpInTree<N>(f: seq<Item<N>>, x: N)
    ensures UpIn(f, x).Some? ==> x in Flat(f)
  {
    if x !in Flat(f) {
      UpAbsent(f, x);
    }
  }

  /** The proper ancestors of `x`, nearest first: what `get_ancestors`
      yields. */
  function Ancestors<N(==)>(f: seq<Item<N>>, x: N): seq<N>
    requires Unique(f)
    decreases Depth(f, x)
  {
    match UpIn(f, x)
    case None => []
    case Some(p) =>
      UpInTree(f, x);
      DepthUp(f, x);
      [p] + Ancestors(f, p)
  }

  /** A node is in the subtree of its parent. */
  lemma InParentBlock<N>(f: seq<Item<N>>, x: N)
    requires Unique(f) && x in Flat(f) && UpIn(f, x).Some?
    ensures UpIn(f, x).value in Flat(f) && x in Block(f, UpIn(f, x).value)
  {
    UpHoldsKid(f, x);
    var t := SubOf(f, UpIn(f, x).value);
    IdsInFlat(t.kids);
    FlatOne(t);
  }

  /** Subtrees nest: a node in the subtree of a node in the subtree of `y`
      is in the subtree of `y`. */
  lemma BlockTrans<N>(f: seq<Item<N>>, y: N, p: N, x: N)
    requires Unique(f) && y in Flat(f) && p in Flat(f) && p in Block(f, y) && x in Block(f, p)
    ensures x in Block(f, y)
  {
    SubOfWithin(f, y, p);
    var T := SubOf(f, y);
    FlatOne(T);
    assert p in Flat([T]);
    BlockInFlat([T], p);
  }

  /** The ancestors are as many as the depth, every one of them has `x` in
      its subtree, and every one is listed before `x` in the render order. */
  lemma {:induction false} AncestorsAbove<N>(f: seq<Item<N>>, x: N)
    requires Unique(f) && x in Flat(f)
    ensures |Ancestors(f, x)| == Depth(f, x)
    ensures forall y :: y in Ancestors(f, x) ==>
      y in Flat(f) && x in Block(f, y) && StartIn(f, y) < StartIn(f, x)
    decreases Depth(f, x)
  {
    DepthUp(f, x);
    if UpIn(f, x).Some? {
      var p := UpIn(f, x).value;
      AncestorsAbove(f, p);
      InParentBlock(f, x);
      KidInBlock(f, x);
      forall y | y in Ancestors(f, p)
        ensures y in Flat(f) && x in Block(f, y) && StartIn(f, y) < StartIn(f, x)
      {
        BlockTrans(f, y, p, x);
      }
    }
  }
}
