/** The three ways `Tree` changes its forest: `add` attaches a subtree as the
    last child of a node (or of the root), `remove` prunes a subtree, and
    `reparent` moves one. Each is defined on values here, with the facts the
    class needs: what the pre-order listing, the child lists and the parents
    become. */
module Edits {

  import opened Results
  import opened Lists
  import opened Forest

  /** `f` with the child subtrees of node `x` replaced by `ks`. */
  function SetKids<N(==)>(f: seq<Item<N>>, x: N, ks: seq<Item<N>>): seq<Item<N>>
  {
    if f == [] then []
    else if f[0].id == x then [Item(x, ks)] + f[1..]
    else if x in Flat(f[0].kids) then [Item(f[0].id, SetKids(f[0].kids, x, ks))] + f[1..]
    else [f[0]] + SetKids(f[1..], x, ks)
  }

  /** `SetKids` for a key of `_children`: for the root it replaces the
      whole top level. */
  function SetKidsAt<N(==)>(f: seq<Item<N>>, k: Option<N>, ks: seq<Item<N>>): seq<Item<N>>
  {
    match k
    case None => ks
    case Some(x) => SetKids(f, x, ks)
  }

  /** Where the listing of `k`'s descendants starts in `Flat(f)`. */
  function KidsStart<N(==)>(f: seq<Item<N>>, k: Option<N>): nat
    requires InTree(f, k)
  {
    match k
    case None => 0
    case Some(x) => StartIn(f, x) + 1
  }

  /** `t` appended as the last child of `k`. */
  function Attach<N(==)>(f: seq<Item<N>>, k: Option<N>, t: Item<N>): seq<Item<N>>
  {
    SetKidsAt(f, k, KidItems(f, k) + [t])
  }

  /** `ts` without its first item whose id is `x`. */
  function DropId<N(==)>(ts: seq<Item<N>>, x: N): seq<Item<N>>
  {
    if ts == [] then []
    else if ts[0].id == x then ts[1..]
    else [ts[0]] + DropId(ts[1..], x)
  }

  /** `f` without the subtree of `x`. */
  function Prune<N(==)>(f: seq<Item<N>>, x: N): seq<Item<N>>
  {
    if f == [] then []
    else if f[0].id == x then f[1..]
    else if x in Flat(f[0].kids) then [Item(f[0].id, Prune(f[0].kids, x))] + f[1..]
    else [f[0]] + Prune(f[1..], x)
  }

  /** The subtree of `x` taken out and appended as the last child of `k`. */
  function Move<N(==)>(f: seq<Item<N>>, x: N, k: Option<N>): seq<Item<N>>
    requires x in Flat(f)
  {
    Attach(Prune(f, x), k, SubOf(f, x))
  }

  // ---------------------------------------------------------------------
  // Replacing a child list

  /** The listing after `SetKids`: the descendants of `x` replaced by those of
      `ks`, everything else where it was. */
  lemma FlatSetKids<N>(f: seq<Item<N>>, x: N, ks: seq<Item<N>>)
    requires x in Flat(f)
    ensures StartIn(f, x) < EndOf(f, Some(x)) <= |Flat(f)|
    ensures Flat(SetKids(f, x, ks)) ==
      Flat(f)[..StartIn(f, x) + 1] + Flat(ks) + Flat(f)[EndOf(f, Some(x))..]
  {
    FlatAround(f, x);
    FlatOne(SubOf(f, x));
    FlatSetKidsAround(f, x, ks);
    SpliceAround(Flat(f), Flat(SetKids(f, x, ks)), Preceding(f, x), x, Flat(SubOf(f, x).kids),
      Following(f, x), Flat(ks));
  }

  /** `SetKids` leaves what precedes and what follows the subtree of `x`
      alone. */
  lemma {:induction false} FlatSetKidsAround<N>(f: seq<Item<N>>, x: N, ks: seq<Item<N>>)
    requires x in Flat(f)
    ensures Flat(SetKids(f, x, ks)) == Preceding(f, x) + [x] + Flat(ks) + Following(f, x)
  {
    if f[0].id == x {
      AroundHere(f, ks);
    } else if x in Flat(f[0].kids) {
      FlatSetKidsAround(f[0].kids, x, ks);
      AroundInKids(f, x, ks);
    } else {
      FlatSetKidsAround(f[1..], x, ks);
      AroundInRest(f, x, ks);
    }
  }

  lemma AroundHere<N>(f: seq<Item<N>>, ks: seq<Item<N>>)
    requires f != []
    ensures f[0].id in Flat(f)
    ensures Flat(SetKids(f, f[0].id, ks)) == Preceding(f, f[0].id) + [f[0].id] + Flat(ks) + Following(f, f[0].id)
  {
    var x, r := f[0].id, SetKids(f, f[0].id, ks);
    assert r == [Item(x, ks)] + f[1..];
    FlatHead(r);
    FlatOne(r[0]);
    assert r[1..] == f[1..];
    assert Flat(r) == [] + [x] + Flat(ks) + Flat(f[1..]);
  }

  lemma AroundInKids<N>(f: seq<Item<N>>, x: N, ks: seq<Item<N>>)
    requires x in Flat(f) && x != f[0].id && x in Flat(f[0].kids)
    requires Flat(SetKids(f[0].kids, x, ks)) ==
      Preceding(f[0].kids, x) + [x] + Flat(ks) + Following(f[0].kids, x)
    ensures Flat(SetKids(f, x, ks)) == Preceding(f, x) + [x] + Flat(ks) + Following(f, x)
  {
    FlatSetKidsFirst(f, x, ks);
    RegroupAround([f[0].id], Preceding(f[0].kids, x), [x], Flat(ks), Following(f[0].kids, x), Flat(f[1..]));
  }

  lemma AroundInRest<N>(f: seq<Item<N>>, x: N, ks: seq<Item<N>>)
    requires x in Flat(f) && x != f[0].id && x !in Flat(f[0].kids) && x in Flat(f[1..])
    requires Flat(SetKids(f[1..], x, ks)) ==
      Preceding(f[1..], x) + [x] + Flat(ks) + Following(f[1..], x)
    ensures Flat(SetKids(f, x, ks)) == Preceding(f, x) + [x] + Flat(ks) + Following(f, x)
  {
    FlatSetKidsLater(f, x, ks);
    RegroupFront(Flat([f[0]]), Preceding(f[1..], x), [x], Flat(ks), Following(f[1..], x));
  }

  lemma FlatSetKidsFirst<N>(f: seq<Item<N>>, x: N, ks: seq<Item<N>>)
    requires f != [] && x != f[0].id && x in Flat(f[0].kids)
    ensures Flat(SetKids(f, x, ks)) == [f[0].id] + Flat(SetKids(f[0].kids, x, ks)) + Flat(f[1..])
  {
    var r := SetKids(f, x, ks);
    assert r == [Item(f[0].id, SetKids(f[0].kids, x, ks))] + f[1..];
    FlatHead(r);
    FlatOne(r[0]);
    assert r[1..] == f[1..];
  }

  lemma FlatSetKidsLater<N>(f: seq<Item<N>>, x: N, ks: seq<Item<N>>)
    requires f != [] && x != f[0].id && x !in Flat(f[0].kids)
    ensures Flat(SetKids(f, x, ks)) == Flat([f[0]]) + Flat(SetKids(f[1..], x, ks))
  {
    var r := SetKids(f, x, ks);
    assert r == [f[0]] + SetKids(f[1..], x, ks);
    FlatHead(r);
    assert r[1..] == SetKids(f[1..], x, ks);
  }

  /** `x` itself stays in the forest. */
  lemma SetKidsKeeps<N>(f: seq<Item<N>>, x: N, ks: seq<Item<N>>)
    requires x in Flat(f)
    ensures x in Flat(SetKids(f, x, ks))
  {
    FlatSetKidsAround(f, x, ks);
  }

  /** The new children of `x` have no repeats and do not contain `x`. */
  lemma SetKidsParts<N>(f: seq<Item<N>>, x: N, ks: seq<Item<N>>)
    requires x in Flat(f) && Unique(SetKids(f, x, ks))
    ensures Unique(ks) && x !in Flat(ks)
  {
    FlatSetKidsAround(f, x, ks);
    DistinctMiddle(Preceding(f, x) + [x], Flat(ks), Following(f, x));
  }

  lemma {:induction false} IdsSetKids<N>(f: seq<Item<N>>, x: N, ks: seq<Item<N>>)
    ensures Ids(SetKids(f, x, ks)) == Ids(f)
  {
    if f != [] && f[0].id != x && x !in Flat(f[0].kids) {
      IdsSetKids(f[1..], x, ks);
    }
  }

  /** After `SetKids`, the subtree of `x` has exactly the children `ks`. */
  lemma {:induction false} SubOfSetKids<N>(f: seq<Item<N>>, x: N, ks: seq<Item<N>>)
    requires x in Flat(f)
    ensures x in Flat(SetKids(f, x, ks)) && SubOf(SetKids(f, x, ks), x) == Item(x, ks)
  {
    SetKidsKeeps(f, x, ks);
    if f[0].id != x {
      if x in Flat(f[0].kids) {
        SubOfSetKids(f[0].kids, x, ks);
      } else {
        SubOfSetKids(f[1..], x, ks);
      }
    }
  }

  /** Replacing the same child list twice keeps only the second. */
  lemma {:induction false} SetKidsTwice<N>(f: seq<Item<N>>, x: N, a: seq<Item<N>>, b: seq<Item<N>>)
    requires x in Flat(f)
    ensures SetKids(SetKids(f, x, a), x, b) == SetKids(f, x, b)
  {
    if f[0].id != x {
      if x in Flat(f[0].kids) {
        SetKidsKeeps(f[0].kids, x, a);
        SetKidsTwice(f[0].kids, x, a, b);
      } else {
        SetKidsTwice(f[1..], x, a, b);
      }
    }
  }

  /** Putting back the children a node already has changes nothing. */
  lemma {:induction false} SetKidsSame<N>(f: seq<Item<N>>, x: N)
    requires x in Flat(f)
    ensures SetKids(f, x, SubOf(f, x).kids) == f
  {
    if f[0].id == x {
      assert [Item(x, f[0].kids)] + f[1..] == f;
    } else if x in Flat(f[0].kids) {
      SetKidsSame(f[0].kids, x);
      assert [Item(f[0].id, f[0].kids)] + f[1..] == f;
    } else {
      SetKidsSame(f[1..], x);
      assert [f[0]] + f[1..] == f;
    }
  }

  /** What `SetKids` does to the child list of `y`: `x` gets `ks`, the nodes
      of `ks` keep the children they have there, and every other node keeps
      its own. */
  ghost predicate KidsAfter<N>(f: seq<Item<N>>, x: N, ks: seq<Item<N>>, y: N) {
    && (y != x && y !in Flat(ks) ==> y in Flat(f))
    && KidsOf(SetKids(f, x, ks), Some(y)) ==
         if y == x then Ids(ks) else if y in Flat(ks) then KidsOf(ks, Some(y)) else KidsOf(f, Some(y))
  }

  lemma {:induction false} KidsSetKids<N>(f: seq<Item<N>>, x: N, ks: seq<Item<N>>, y: N)
    requires Unique(f) && x in Flat(f) && Unique(SetKids(f, x, ks)) && y in Flat(SetKids(f, x, ks))
    ensures KidsAfter(f, x, ks, y)
  {
    var r := SetKids(f, x, ks);
    UniqueParts(f);
    if f[0].id == x {
      KidsHere(f, ks, y);
    } else if x in Flat(f[0].kids) {
      assert r == [Item(f[0].id, SetKids(f[0].kids, x, ks))] + f[1..];
      UniqueParts(r);
      if y in Flat(r[0].kids) {
        KidsSetKids(f[0].kids, x, ks, y);
      }
      KidsInKids(f, x, ks, y);
    } else {
      assert r == [f[0]] + SetKids(f[1..], x, ks);
      UniqueParts(r);
      if y in Flat(r[1..]) {
        KidsSetKids(f[1..], x, ks, y);
      }
      KidsInRest(f, x, ks, y);
    }
  }

  lemma KidsHere<N>(f: seq<Item<N>>, ks: seq<Item<N>>, y: N)
    requires f != [] && Unique(f) && Unique(SetKids(f, f[0].id, ks)) && y in Flat(SetKids(f, f[0].id, ks))
    ensures KidsAfter(f, f[0].id, ks, y)
  {
    var x := f[0].id;
    var r := SetKids(f, x, ks);
    assert r == [Item(x, ks)] + f[1..];
    UniqueParts(f);
    UniqueParts(r);
    FlatOne(f[0]);
    FlatOne(r[0]);
    if y != x && y !in Flat(ks) {
      PastFirst(r, y);
      PastFirst(f, y);
    }
  }

  lemma KidsInKids<N>(f: seq<Item<N>>, x: N, ks: seq<Item<N>>, y: N)
    requires Unique(f) && x in Flat(f) && x != f[0].id && x in Flat(f[0].kids)
    requires Unique(SetKids(f, x, ks)) && y in Flat(SetKids(f, x, ks))
    requires y in Flat(SetKids(f[0].kids, x, ks)) ==> KidsAfter(f[0].kids, x, ks, y)
    ensures KidsAfter(f, x, ks, y)
  {
    var r' := SetKids(f[0].kids, x, ks);
    var r := SetKids(f, x, ks);
    assert r == [Item(f[0].id, r')] + f[1..];
    UniqueParts(f);
    UniqueParts(r);
    FlatOne(f[0]);
    FlatOne(r[0]);
    FlatSetKids(f[0].kids, x, ks);
    SetKidsKeeps(f[0].kids, x, ks);
    if y == f[0].id {
      IdsSetKids(f[0].kids, x, ks);
    } else if y in Flat(r') {
      assert SubOf(r, y) == SubOf(r', y);
    } else {
      PastFirst(r, y);
      PastFirst(f, y);
    }
  }

  lemma KidsInRest<N>(f: seq<Item<N>>, x: N, ks: seq<Item<N>>, y: N)
    requires Unique(f) && x in Flat(f) && x != f[0].id && x !in Flat(f[0].kids) && x in Flat(f[1..])
    requires Unique(SetKids(f, x, ks)) && y in Flat(SetKids(f, x, ks))
    requires y in Flat(SetKids(f[1..], x, ks)) ==> KidsAfter(f[1..], x, ks, y)
    ensures KidsAfter(f, x, ks, y)
  {
    var r' := SetKids(f[1..], x, ks);
    var r := SetKids(f, x, ks);
    assert r == [f[0]] + r';
    assert r[1..] == r';
    UniqueParts(f);
    UniqueParts(r);
    FlatSetKids(f[1..], x, ks);
    SetKidsKeeps(f[1..], x, ks);
    if y in Flat([f[0]]) {
      FlatOne(f[0]);
      assert SubOf(r, y) == SubOf(f, y);
    } else {
      PastFirst(r, y);
      PastFirst(f, y);
    }
  }

  /** What `SetKids` does to the parent of `y`: the top-level items of `ks`
      get `x`, the other nodes of `ks` keep their parent within `ks`, and
      every other node keeps its own. */
  ghost predicate UpAfter<N>(f: seq<Item<N>>, x: N, ks: seq<Item<N>>, y: N) {
    UpIn(SetKids(f, x, ks), y) ==
      if y in Ids(ks) then Some(x) else if y in Flat(ks) then UpIn(ks, y) else UpIn(f, y)
  }

  lemma {:induction false} UpSetKids<N>(f: seq<Item<N>>, x: N, ks: seq<Item<N>>, y: N)
    requires Unique(f) && x in Flat(f) && Unique(SetKids(f, x, ks)) && y in Flat(SetKids(f, x, ks))
    ensures UpAfter(f, x, ks, y)
  {
    var r := SetKids(f, x, ks);
    UniqueParts(f);
    if f[0].id == x {
      UpHere(f, ks, y);
    } else if x in Flat(f[0].kids) {
      assert r == [Item(f[0].id, SetKids(f[0].kids, x, ks))] + f[1..];
      UniqueParts(r);
      if y in Flat(r[0].kids) {
        UpSetKids(f[0].kids, x, ks, y);
        KidsSetKids(f[0].kids, x, ks, y);
      }
      UpInKids(f, x, ks, y);
    } else {
      assert r == [f[0]] + SetKids(f[1..], x, ks);
      UniqueParts(r);
      if y in Flat(r[1..]) {
        UpSetKids(f[1..], x, ks, y);
        KidsSetKids(f[1..], x, ks, y);
      }
      UpInRest(f, x, ks, y);
    }
  }

  lemma UpHere<N>(f: seq<Item<N>>, ks: seq<Item<N>>, y: N)
    requires f != [] && Unique(f) && Unique(SetKids(f, f[0].id, ks)) && y in Flat(SetKids(f, f[0].id, ks))
    ensures UpAfter(f, f[0].id, ks, y)
  {
    var x := f[0].id;
    var r := SetKids(f, x, ks);
    assert r == [Item(x, ks)] + f[1..];
    UniqueParts(f);
    UniqueParts(r);
    FlatOne(f[0]);
    FlatOne(r[0]);
    IdsInFlat(f[1..]);
    IdsInFlat(ks);
    if y != x && y !in Flat(ks) {
      PastFirst(r, y);
      PastFirst(f, y);
    }
  }

  lemma UpInKids<N>(f: seq<Item<N>>, x: N, ks: seq<Item<N>>, y: N)
    requires Unique(f) && x in Flat(f) && x != f[0].id && x in Flat(f[0].kids)
    requires Unique(SetKids(f, x, ks)) && y in Flat(SetKids(f, x, ks))
    requires y in Flat(SetKids(f[0].kids, x, ks)) ==>
      UpAfter(f[0].kids, x, ks, y) && KidsAfter(f[0].kids, x, ks, y)
    ensures UpAfter(f, x, ks, y)
  {
    var r' := SetKids(f[0].kids, x, ks);
    var r := SetKids(f, x, ks);
    assert r == [Item(f[0].id, r')] + f[1..];
    UniqueParts(f);
    UniqueParts(r);
    FlatOne(f[0]);
    FlatOne(r[0]);
    FlatSetKids(f[0].kids, x, ks);
    SetKidsKeeps(f[0].kids, x, ks);
    IdsInFlat(ks);
    if y == f[0].id {
      assert Ids(r)[0] == y && Ids(f)[0] == y;
    } else if y in Flat(r') {
      IdsSetKids(f[0].kids, x, ks);
      UpStep(r, y);
      if y in Flat(ks) {
        assert y !in Ids(r') by {
          UpNone(ks, y);
          UpNone(r', y);
        }
      } else {
        UpStep(f, y);
      }
    } else {
      PastFirst(r, y);
      PastFirst(f, y);
    }
  }

  lemma UpInRest<N>(f: seq<Item<N>>, x: N, ks: seq<Item<N>>, y: N)
    requires Unique(f) && x in Flat(f) && x != f[0].id && x !in Flat(f[0].kids) && x in Flat(f[1..])
    requires Unique(SetKids(f, x, ks)) && y in Flat(SetKids(f, x, ks))
    requires y in Flat(SetKids(f[1..], x, ks)) ==>
      UpAfter(f[1..], x, ks, y) && KidsAfter(f[1..], x, ks, y)
    ensures UpAfter(f, x, ks, y)
  {
    var r' := SetKids(f[1..], x, ks);
    var r := SetKids(f, x, ks);
    assert r == [f[0]] + r';
    assert r[1..] == r';
    UniqueParts(f);
    UniqueParts(r);
    FlatSetKids(f[1..], x, ks);
    SetKidsKeeps(f[1..], x, ks);
    IdsInFlat(ks);
    if y in Flat([f[0]]) {
      UpSameHead(r, f, y);
    } else {
      PastFirst(r, y);
      PastFirst(f, y);
    }
  }

  // ---------------------------------------------------------------------
  // Pruning a subtree

  /** The nodes listed in `ts`. */
  function Listed<N(==)>(ts: seq<Item<N>>): set<N>
  {
    set y | y in Flat(ts)
  }

  /** The nodes that leave the forest with `x`. */
  function BlockSet<N(==)>(f: seq<Item<N>>, x: N): set<N>
    requires x in Flat(f)
  {
    set y | y in Block(f, x)
  }

  /** Pruning drops exactly the block of `x` from the listing. */
  lemma {:induction false} FlatPrune<N>(f: seq<Item<N>>, x: N)
    requires Unique(f) && x in Flat(f)
    ensures Flat(Prune(f, x)) == Without(Flat(f), BlockSet(f, x))
  {
    var B := BlockSet(f, x);
    UniqueParts(f);
    FlatHead(f);
    FlatOne(f[0]);
    var h := Flat([f[0]]);
    WithoutAppend(h, Flat(f[1..]), B);
    if f[0].id == x {
      WithoutCovered(h, B);
      WithoutDisjoint(Flat(f[1..]), B);
    } else if x in Flat(f[0].kids) {
      assert B == BlockSet(f[0].kids, x);
      FlatPrune(f[0].kids, x);
      BlockInFlat(f[0].kids, x);
      var r := Prune(f, x);
      assert r == [Item(f[0].id, Prune(f[0].kids, x))] + f[1..];
      FlatHead(r);
      FlatOne(r[0]);
      assert r[1..] == f[1..];
      WithoutAppend([f[0].id], Flat(f[0].kids), B);
      WithoutDisjoint([f[0].id], B);
      WithoutDisjoint(Flat(f[1..]), B);
    } else {
      assert B == BlockSet(f[1..], x);
      FlatPrune(f[1..], x);
      BlockInFlat(f[1..], x);
      var r := Prune(f, x);
      assert r == [f[0]] + Prune(f[1..], x);
      FlatHead(r);
      assert r[1..] == Prune(f[1..], x);
      WithoutDisjoint(h, B);
    }
  }

  /** Pruning keeps the forest free of repeats. */
  lemma UniquePrune<N>(f: seq<Item<N>>, x: N)
    requires Unique(f) && x in Flat(f)
    ensures Unique(Prune(f, x))
    ensures forall y :: y in Flat(Prune(f, x)) <==> y in Flat(f) && y !in BlockSet(f, x)
    ensures forall y :: y in Block(f, x) ==> y !in Flat(Prune(f, x))
  {
    FlatPrune(f, x);
    WithoutDistinct(Flat(f), BlockSet(f, x));
    forall y | y in Block(f, x) ensures y !in Flat(Prune(f, x)) {
      assert y in BlockSet(f, x);
    }
  }

  lemma PruneKeeps<N>(f: seq<Item<N>>, x: N, y: N)
    requires Unique(f) && x in Flat(f) && y in Flat(f) && y !in BlockSet(f, x)
    ensures y in Flat(Prune(f, x))
  {
    FlatPrune(f, x);
    var i :| 0 <= i < |Flat(f)| && Flat(f)[i] == y;
  }

  /** Pruning `x` is replacing the child list of its parent by that list
      without `x`. */
  lemma {:induction false} PruneIsSetKids<N>(f: seq<Item<N>>, x: N)
    requires Unique(f) && x in Flat(f)
    ensures Prune(f, x) == SetKidsAt(f, UpIn(f, x), DropId(KidItems(f, UpIn(f, x)), x))
  {
    UniqueParts(f);
    FlatOne(f[0]);
    if f[0].id == x {
      assert Ids(f)[0] == x;
    } else if x in Flat(f[0].kids) {
      PruneIsSetKids(f[0].kids, x);
      UpStep(f, x);
      if x !in Ids(f[0].kids) {
        UpBelowTop(f[0].kids, x);
        UpHoldsKid(f[0].kids, x);
        var p := UpIn(f[0].kids, x).value;
        assert SubOf(f, p) == SubOf(f[0].kids, p);
      }
    } else {
      PastFirst(f, x);
      PruneIsSetKids(f[1..], x);
      UpHoldsKid(f[1..], x);
      if UpIn(f, x).Some? {
        var p := UpIn(f, x).value;
        assert SubOf(f, p) == SubOf(f[1..], p);
      } else {
        assert Ids(f)[0] == f[0].id;
      }
    }
  }

  /** Taking the subtree of `x` out of a child list takes `x` out of the ids. */
  lemma {:induction false} IdsDropId<N>(ts: seq<Item<N>>, x: N)
    requires x in Ids(ts)
    ensures Ids(DropId(ts, x)) == RemoveFirst(Ids(ts), x)
  {
    if ts[0].id != x {
      IdsDropId(ts[1..], x);
    }
  }

  /** Dropping an item keeps the others, so they are still subtrees of `f`. */
  lemma {:induction false} SubtreesDropId<N>(ts: seq<Item<N>>, f: seq<Item<N>>, x: N)
    requires Subtrees(ts, f)
    ensures Subtrees(DropId(ts, x), f)
  {
    if ts != [] && ts[0].id != x {
      assert Subtrees(ts[1..], f) by {
        forall i | 0 <= i < |ts[1..]| ensures ts[1..][i].id in Flat(f) && SubOf(f, ts[1..][i].id) == ts[1..][i] {
          assert ts[1..][i] == ts[i + 1];
        }
      }
      SubtreesDropId(ts[1..], f, x);
      var d := DropId(ts, x);
      assert d == [ts[0]] + DropId(ts[1..], x);
      forall i | 0 <= i < |d| ensures d[i].id in Flat(f) && SubOf(f, d[i].id) == d[i] {
        if i > 0 {
          assert d[i] == DropId(ts[1..], x)[i - 1];
        }
      }
    }
  }

  /** The subtrees of `k`'s children are subtrees of the forest. */
  lemma SubtreesKidItems<N>(f: seq<Item<N>>, k: Option<N>)
    requires Unique(f) && InTree(f, k)
    ensures Subtrees(KidItems(f, k), f)
  {
    forall i | 0 <= i < |KidItems(f, k)|
      ensures KidItems(f, k)[i].id in Flat(f) && SubOf(f, KidItems(f, k)[i].id) == KidItems(f, k)[i]
    {
      KidItemsAreSubtrees(f, k, i);
    }
  }

  /** After pruning `x`, the nodes that remain keep their parent, and their
      child lists, except that the parent of `x` loses it. */
  ghost predicate PrunedAt<N>(f: seq<Item<N>>, x: N, y: N)
    requires Unique(f) && x in Flat(f) && x in KidsOf(f, UpIn(f, x))
  {
    && y in Flat(f) && y !in BlockSet(f, x)
    && UpIn(Prune(f, x), y) == UpIn(f, y)
    && KidsOf(Prune(f, x), Some(y)) ==
         if Some(y) == UpIn(f, x) then RemoveFirst(KidsOf(f, Some(y)), x) else KidsOf(f, Some(y))
  }

  lemma PruneAt<N>(f: seq<Item<N>>, x: N, y: N)
    requires Unique(f) && x in Flat(f) && y in Flat(Prune(f, x))
    ensures x in KidsOf(f, UpIn(f, x)) && PrunedAt(f, x, y)
  {
    UpHoldsKid(f, x);
    PruneIsSetKids(f, x);
    UniquePrune(f, x);
    SubtreesKidItems(f, UpIn(f, x));
    SubtreesDropId(KidItems(f, UpIn(f, x)), f, x);
    if UpIn(f, x).None? {
      PruneAtTop(f, x, y);
    } else {
      PruneAtBelow(f, x, y);
    }
  }

  lemma PruneAtTop<N>(f: seq<Item<N>>, x: N, y: N)
    requires Unique(f) && x in Flat(f) && y in Flat(Prune(f, x)) && UpIn(f, x) == None
    requires x in KidsOf(f, UpIn(f, x)) && Unique(Prune(f, x))
    requires Prune(f, x) == DropId(f, x) && Subtrees(DropId(f, x), f)
    requires forall z :: z in Flat(Prune(f, x)) <==> z in Flat(f) && z !in BlockSet(f, x)
    ensures PrunedAt(f, x, y)
  {
    var D := DropId(f, x);
    SubtreesAgree(D, f, y);
    if y in Ids(D) {
      IdsDropId(f, x);
      assert y in Ids(f);
    }
  }

  lemma {:induction false} PruneAtBelow<N>(f: seq<Item<N>>, x: N, y: N)
    requires Unique(f) && x in Flat(f) && y in Flat(Prune(f, x)) && UpIn(f, x).Some?
    requires x in KidsOf(f, UpIn(f, x)) && InTree(f, UpIn(f, x)) && Unique(Prune(f, x))
    requires Prune(f, x) == SetKids(f, UpIn(f, x).value, DropId(KidItems(f, UpIn(f, x)), x))
    requires Subtrees(DropId(KidItems(f, UpIn(f, x)), x), f)
    requires forall z :: z in Flat(Prune(f, x)) <==> z in Flat(f) && z !in BlockSet(f, x)
    ensures PrunedAt(f, x, y)
  {
    var up := UpIn(f, x);
    var p := up.value;
    var K := KidItems(f, up);
    var D := DropId(K, x);
    SetKidsParts(f, p, D);
    KidsSetKids(f, p, D, y);
    UpSetKids(f, p, D, y);
    IdsInFlat(D);
    if y == p {
      IdsDropId(K, x);
      assert p !in Ids(D);
    } else if y in Flat(D) {
      SubtreesAgree(D, f, y);
      if y in Ids(D) {
        IdsDropId(K, x);
        KidHasUp(f, up, y);
      }
    }
  }

  /** The keys of `_children` that leave the forest with `x`. */
  function BlockKeys<N(==)>(f: seq<Item<N>>, x: N): set<Option<N>>
    requires x in Flat(f)
  {
    set y | y in Block(f, x) :: Some(y)
  }

  /** The top-level ids after pruning: `x` leaves them if it was there. */
  lemma PruneTop<N>(f: seq<Item<N>>, x: N)
    requires Unique(f) && x in Flat(f)
    ensures x in KidsOf(f, UpIn(f, x))
    ensures Ids(Prune(f, x)) == if UpIn(f, x) == None then RemoveFirst(Ids(f), x) else Ids(f)
    ensures InTree(Prune(f, x), UpIn(f, x))
  {
    UpHoldsKid(f, x);
    PruneIsSetKids(f, x);
    if UpIn(f, x) == None {
      IdsDropId(f, x);
    } else {
      var p := UpIn(f, x).value;
      IdsSetKids(f, p, DropId(KidItems(f, UpIn(f, x)), x));
      SetKidsKeeps(f, p, DropId(KidItems(f, UpIn(f, x)), x));
    }
  }

  lemma BlockKeysIn<N>(f: seq<Item<N>>, x: N, y: N)
    requires x in Flat(f)
    ensures Some(y) in BlockKeys(f, x) <==> y in BlockSet(f, x)
    ensures None !in BlockKeys(f, x)
  {
  }

  /** `_children` after pruning `x`: the keys of its block are gone and the
      parent's list has lost `x`. */
  lemma PruneChildren<N>(f: seq<Item<N>>, x: N)
    requires Unique(f) && x in Flat(f)
    ensures x in KidsOf(f, UpIn(f, x))
    ensures ChildrenMap(Prune(f, x)) ==
      (ChildrenMap(f) - BlockKeys(f, x))[UpIn(f, x) := RemoveFirst(KidsOf(f, UpIn(f, x)), x)]
  {
    UpHoldsKid(f, x);
    var lhs := ChildrenMap(Prune(f, x));
    var rhs := (ChildrenMap(f) - BlockKeys(f, x))[UpIn(f, x) := RemoveFirst(KidsOf(f, UpIn(f, x)), x)];
    forall z ensures (z in lhs <==> z in rhs) && (z in lhs ==> lhs[z] == rhs[z]) {
      PruneKey(f, x, z);
    }
    MapsEqual(lhs, rhs);
  }

  ghost predicate PruneKeyAgrees<N>(f: seq<Item<N>>, x: N, z: Option<N>)
    requires Unique(f) && x in Flat(f) && x in KidsOf(f, UpIn(f, x))
  {
    var lhs := ChildrenMap(Prune(f, x));
    var rhs := (ChildrenMap(f) - BlockKeys(f, x))[UpIn(f, x) := RemoveFirst(KidsOf(f, UpIn(f, x)), x)];
    (z in lhs <==> z in rhs) && (z in lhs ==> lhs[z] == rhs[z])
  }

  lemma PruneKey<N>(f: seq<Item<N>>, x: N, z: Option<N>)
    requires Unique(f) && x in Flat(f) && x in KidsOf(f, UpIn(f, x))
    ensures PruneKeyAgrees(f, x, z)
  {
    var P := Prune(f, x);
    KeysIn(P, z);
    KeysIn(f, z);
    if z.Some? {
      PruneKeyNode(f, x, z.value);
    } else {
      PruneTop(f, x);
      BlockKeysIn(f, x, x);
    }
  }

  lemma PruneKeyNode<N>(f: seq<Item<N>>, x: N, y: N)
    requires Unique(f) && x in Flat(f) && x in KidsOf(f, UpIn(f, x))
    ensures PruneKeyAgrees(f, x, Some(y))
  {
    var P, up := Prune(f, x), UpIn(f, x);
    KeysIn(P, Some(y));
    KeysIn(f, Some(y));
    BlockKeysIn(f, x, y);
    if y in Flat(P) {
      PruneAt(f, x, y);
    } else if Some(y) == up {
      PruneTop(f, x);
    } else if y in Flat(f) && y !in BlockSet(f, x) {
      PruneKeeps(f, x, y);
    }
  }

  /** `_parents` after pruning `x`: the entries of its block are gone. */
  lemma PruneParents<N>(parents: map<N, Option<N>>, f: seq<Item<N>>, x: N)
    requires Unique(f) && x in Flat(f) && ParentsAgree(parents, f)
    ensures ParentsAgree(parents - BlockSet(f, x), Prune(f, x))
  {
    var P, q := Prune(f, x), parents - BlockSet(f, x);
    UniquePrune(f, x);
    forall y | y in q ensures y in Flat(P) && q[y] == UpIn(P, y) {
      PruneAt(f, x, y);
    }
    forall y | y in Flat(P) && UpIn(P, y).Some? ensures y in q {
      PruneAt(f, x, y);
    }
  }

  /** Pruning does not look at the children of the node it prunes. */
  lemma {:induction false} PruneSetKids<N>(f: seq<Item<N>>, x: N, ks: seq<Item<N>>)
    requires x in Flat(f)
    ensures Prune(SetKids(f, x, ks), x) == Prune(f, x)
  {
    if f[0].id != x {
      if x in Flat(f[0].kids) {
        SetKidsKeeps(f[0].kids, x, ks);
        PruneSetKids(f[0].kids, x, ks);
      } else {
        var r := SetKids(f, x, ks);
        assert r == [f[0]] + SetKids(f[1..], x, ks);
        assert r[1..] == SetKids(f[1..], x, ks);
        PruneSetKids(f[1..], x, ks);
      }
    }
  }

  /** Pruning the first child of `n` leaves `n` with the rest of its children:
      the step of the loop in `remove`. */
  lemma PruneFirstKid<N>(f: seq<Item<N>>, n: N, ks: seq<Item<N>>)
    requires Unique(f) && n in Flat(f) && ks != [] && Unique(SetKids(f, n, ks))
    ensures ks[0].id in Flat(SetKids(f, n, ks))
    ensures Prune(SetKids(f, n, ks), ks[0].id) == SetKids(f, n, ks[1..])
  {
    var g := SetKids(f, n, ks);
    var c := ks[0].id;
    SubOfSetKids(f, n, ks);
    FlatSetKids(f, n, ks);
    IdsInFlat(ks);
    assert c in Flat(ks);
    assert c in Flat(g);
    UpSetKids(f, n, ks, c);
    assert Ids(ks)[0] == c;
    PruneIsSetKids(g, c);
    assert DropId(ks, c) == ks[1..];
    SetKidsTwice(f, n, ks, ks[1..]);
  }

  // ---------------------------------------------------------------------
  // Attaching a subtree as a last child

  /** The listing of `k`'s descendants sits between `k` and the end of its
      block. */
  lemma KidsSpan<N>(f: seq<Item<N>>, k: Option<N>)
    requires InTree(f, k)
    ensures KidsStart(f, k) <= EndOf(f, k) <= |Flat(f)|
    ensures Flat(f)[KidsStart(f, k)..EndOf(f, k)] == Flat(KidItems(f, k))
  {
    if k.Some? {
      var p := k.value;
      BlockAt(f, p);
      FlatOne(SubOf(f, p));
      SliceTail(Flat(f), StartIn(f, p), EndOf(f, k), p, Flat(SubOf(f, p).kids));
    }
  }

  lemma KidsInFlat<N>(f: seq<Item<N>>, k: Option<N>)
    requires InTree(f, k)
    ensures forall z :: z in Flat(KidItems(f, k)) ==> z in Flat(f)
  {
    KidsSpan(f, k);
    SliceIn(Flat(f), KidsStart(f, k), EndOf(f, k), Flat(KidItems(f, k)));
  }

  /** No child list repeats a node. */
  lemma KidsDistinct<N>(f: seq<Item<N>>, k: Option<N>)
    requires Unique(f) && InTree(f, k)
    ensures Distinct(KidsOf(f, k))
  {
    KidsSpan(f, k);
    DistinctSlice(Flat(f), KidsStart(f, k), EndOf(f, k));
    IdsDistinct(KidItems(f, k));
  }

  /** Attaching puts the listing of `t` at the end of `k`'s block. */
  lemma FlatAttach<N>(f: seq<Item<N>>, k: Option<N>, t: Item<N>)
    requires InTree(f, k)
    ensures EndOf(f, k) <= |Flat(f)|
    ensures Flat(Attach(f, k, t)) == Flat(f)[..EndOf(f, k)] + Flat([t]) + Flat(f)[EndOf(f, k)..]
  {
    KidsSpan(f, k);
    if k.None? {
      var w := Flat(f);
      FlatAppend(f, [t]);
      assert w[..|w|] == w && w[|w|..] == [];
    } else {
      FlatAttachNode(f, k.value, t);
    }
  }

  lemma FlatAttachNode<N>(f: seq<Item<N>>, p: N, t: Item<N>)
    requires p in Flat(f)
    ensures EndOf(f, Some(p)) <= |Flat(f)|
    ensures Flat(Attach(f, Some(p), t)) == Flat(f)[..EndOf(f, Some(p))] + Flat([t]) + Flat(f)[EndOf(f, Some(p))..]
  {
    var w, e := Flat(f), EndOf(f, Some(p));
    KidsSpan(f, Some(p));
    var s, K := StartIn(f, p), KidItems(f, Some(p));
    FlatSetKids(f, p, K + [t]);
    FlatAppend(K, [t]);
    assert w[..s + 1] + Flat(K) == w[..e] by {
      assert w[..e] == w[..s + 1] + w[s + 1..e];
    }
    Regroup4(w[..s + 1], Flat(K), Flat([t]), w[e..]);
  }

  /** Attaching a subtree whose nodes are new keeps the forest free of repeats. */
  lemma UniqueAttach<N>(f: seq<Item<N>>, k: Option<N>, t: Item<N>)
    requires Unique(f) && InTree(f, k) && Unique([t])
    requires forall y :: y in Flat([t]) ==> y !in Flat(f)
    ensures Unique(Attach(f, k, t))
    ensures forall y :: y in Flat(Attach(f, k, t)) <==> y in Flat(f) || y in Flat([t])
  {
    var w, e := Flat(f), EndOf(f, k);
    FlatAttach(f, k, t);
    var a, c, b := w[..e], w[e..], Flat([t]);
    assert w == a + c;
    DistinctAppend(w, b);
    DistinctSwap(a, b, c);
  }

  /** After attaching `t` below `k`: `t` hangs from `k`, its nodes keep the
      parents and children they have in `t`, `k` gains `t` as its last child,
      and everything else is as it was. */
  ghost predicate AttachedAt<N>(f: seq<Item<N>>, k: Option<N>, t: Item<N>, y: N) {
    && (y in Flat(f) || y in Flat([t]))
    && UpIn(Attach(f, k, t), y) ==
         (if y == t.id then k else if y in Flat([t]) then UpIn([t], y) else UpIn(f, y))
    && KidsOf(Attach(f, k, t), Some(y)) ==
         (if Some(y) == k then KidsOf(f, k) + [t.id]
          else if y in Flat([t]) then KidsOf([t], Some(y)) else KidsOf(f, Some(y)))
  }

  lemma AttachAt<N>(f: seq<Item<N>>, k: Option<N>, t: Item<N>, y: N)
    requires Unique(f) && InTree(f, k) && Unique([t])
    requires forall z :: z in Flat([t]) ==> z !in Flat(f)
    requires y in Flat(Attach(f, k, t))
    ensures AttachedAt(f, k, t, y)
    ensures Ids(Attach(f, k, t)) == if k == None then Ids(f) + [t.id] else Ids(f)
  {
    UniqueAttach(f, k, t);
    FlatOne(t);
    if k.None? {
      AttachAtRoot(f, t, y);
    } else {
      AttachAtNode(f, k.value, t, y);
    }
  }

  lemma AttachAtRoot<N>(f: seq<Item<N>>, t: Item<N>, y: N)
    requires Unique(f + [t]) && y in Flat(f + [t]) && t.id in Flat([t])
    requires forall z :: z in Flat([t]) ==> z !in Flat(f)
    ensures AttachedAt(f, None, t, y)
    ensures Ids(Attach(f, None, t)) == Ids(f) + [t.id]
  {
    SplitAgree(f, [t], y);
    IdsAppend(f, [t]);
    assert Ids([t]) == [t.id];
  }

  lemma AttachAtNode<N>(f: seq<Item<N>>, p: N, t: Item<N>, y: N)
    requires Unique(f) && p in Flat(f) && Unique([t]) && t.id in Flat([t])
    requires forall z :: z in Flat([t]) ==> z !in Flat(f)
    requires Unique(Attach(f, Some(p), t)) && y in Flat(Attach(f, Some(p), t))
    ensures AttachedAt(f, Some(p), t, y)
    ensures Ids(Attach(f, Some(p), t)) == Ids(f)
  {
    var K := KidItems(f, Some(p));
    var ks := K + [t];
    SetKidsParts(f, p, ks);
    KidsSetKids(f, p, ks, y);
    UpSetKids(f, p, ks, y);
    IdsSetKids(f, p, ks);
    IdsAppend(K, [t]);
    assert Ids([t]) == [t.id];
    FlatAppend(K, [t]);
    SubtreesKidItems(f, Some(p));
    if y in Flat(ks) {
      UniqueAppend(K, [t]);
      SplitAgree(K, [t], y);
      var R := Attach(f, Some(p), t);
      if y in Flat(K) {
        AttachInOld(f, p, t, y);
        assert y in Ids(ks) <==> y in Ids(K);
        assert UpIn(R, y) == UpIn(f, y);
        assert KidsOf(R, Some(y)) == KidsOf(f, Some(y));
      } else {
        KidsInFlat(f, Some(p));
        AttachInNew(f, p, t, y);
        assert UpIn(R, y) == if y == t.id then Some(p) else UpIn([t], y);
        assert KidsOf(R, Some(y)) == KidsOf([t], Some(y));
      }
    } else {
      var R := Attach(f, Some(p), t);
      assert y !in Flat([t]) && y in Flat(f);
      IdsInFlat(ks);
      assert y !in Ids(ks);
      assert UpIn(R, y) == UpIn(f, y);
      if y == p {
        assert KidsOf(R, Some(y)) == KidsOf(f, Some(p)) + [t.id];
      } else {
        assert KidsOf(R, Some(y)) == KidsOf(f, Some(y));
      }
    }
  }

  lemma AttachInOld<N>(f: seq<Item<N>>, p: N, t: Item<N>, y: N)
    requires Unique(f) && p in Flat(f) && Unique(KidItems(f, Some(p)))
    requires forall z :: z in Flat([t]) ==> z !in Flat(f)
    requires Subtrees(KidItems(f, Some(p)), f) && y in Flat(KidItems(f, Some(p)))
    ensures y in Flat(f) && y !in Flat([t]) && y != p && y != t.id
    ensures SubOf(KidItems(f, Some(p)), y) == SubOf(f, y)
    ensures UpIn(f, y) == if y in Ids(KidItems(f, Some(p))) then Some(p) else UpIn(KidItems(f, Some(p)), y)
  {
    var K := KidItems(f, Some(p));
    SubtreesAgree(K, f, y);
    IdsInFlat(K);
    if y in Ids(K) {
      KidHasUp(f, Some(p), y);
    }
    assert y != p by {
      UpHoldsKid(f, p);
      BlockAt(f, p);
      FlatOne(SubOf(f, p));
      UniqueBlock(f, p);
      DistinctAppend([p], Flat(K));
    }
  }

  lemma AttachInNew<N>(f: seq<Item<N>>, p: N, t: Item<N>, y: N)
    requires p in Flat(f) && y in Flat([t]) && Unique([t]) && t.id in Flat([t])
    requires forall z :: z in Flat([t]) ==> z !in Flat(f)
    requires Ids(KidItems(f, Some(p)) + [t]) == Ids(KidItems(f, Some(p))) + [t.id]
    requires forall z :: z in Flat(KidItems(f, Some(p))) ==> z in Flat(f)
    ensures y != p
    ensures y in Ids(KidItems(f, Some(p)) + [t]) <==> y == t.id
  {
    IdsInFlat(KidItems(f, Some(p)));
  }

  /** `_children` after `add(n, k)`: `n` is the last child of `k` and has an
      empty child list of its own. */
  lemma AttachLeafChildren<N>(f: seq<Item<N>>, k: Option<N>, n: N)
    requires Unique(f) && InTree(f, k) && n !in Flat(f)
    ensures ChildrenMap(Attach(f, k, Item(n, []))) == ChildrenMap(f)[k := KidsOf(f, k) + [n]][Some(n) := []]
  {
    var lhs := ChildrenMap(Attach(f, k, Item(n, [])));
    var rhs := ChildrenMap(f)[k := KidsOf(f, k) + [n]][Some(n) := []];
    forall z ensures (z in lhs <==> z in rhs) && (z in lhs ==> lhs[z] == rhs[z]) {
      AttachLeafKey(f, k, n, z);
    }
    MapsEqual(lhs, rhs);
  }

  lemma AttachLeafKey<N>(f: seq<Item<N>>, k: Option<N>, n: N, z: Option<N>)
    requires Unique(f) && InTree(f, k) && n !in Flat(f)
    ensures var lhs := ChildrenMap(Attach(f, k, Item(n, [])));
      var rhs := ChildrenMap(f)[k := KidsOf(f, k) + [n]][Some(n) := []];
      (z in lhs <==> z in rhs) && (z in lhs ==> lhs[z] == rhs[z])
  {
    if z.Some? {
      AttachLeafNodeKey(f, k, n, z.value);
    } else {
      AttachLeafRootKey(f, k, n);
    }
  }

  lemma AttachLeafNodeKey<N>(f: seq<Item<N>>, k: Option<N>, n: N, y: N)
    requires Unique(f) && InTree(f, k) && n !in Flat(f)
    ensures var lhs := ChildrenMap(Attach(f, k, Item(n, [])));
      var rhs := ChildrenMap(f)[k := KidsOf(f, k) + [n]][Some(n) := []];
      (Some(y) in lhs <==> Some(y) in rhs) && (Some(y) in lhs ==> lhs[Some(y)] == rhs[Some(y)])
  {
    KeysIn(Attach(f, k, Item(n, [])), Some(y));
    KeysIn(f, Some(y));
    KeysIn(f, k);
    AttachLeafAt(f, k, n, y);
    NodeEntry(ChildrenMap(f), k, KidsOf(f, k) + [n], n, y);
  }

  /** A node's entry after the entries of `k` and of `n` are set. */
  lemma NodeEntry<N>(c: map<Option<N>, seq<N>>, k: Option<N>, v: seq<N>, n: N, y: N)
    ensures var c1 := c[k := v][Some(n) := []];
      (Some(y) in c1 <==> y == n || Some(y) == k || Some(y) in c) &&
      (Some(y) in c1 ==> c1[Some(y)] == if y == n then [] else if Some(y) == k then v else c[Some(y)])
  {
  }

  lemma AttachLeafRootKey<N>(f: seq<Item<N>>, k: Option<N>, n: N)
    requires Unique(f) && InTree(f, k) && n !in Flat(f)
    ensures var lhs := ChildrenMap(Attach(f, k, Item(n, [])));
      var rhs := ChildrenMap(f)[k := KidsOf(f, k) + [n]][Some(n) := []];
      None in lhs && None in rhs && lhs[None] == rhs[None]
  {
    var R := Attach(f, k, Item(n, []));
    KeysIn(R, None);
    KeysIn(f, None);
    AttachLeafIds(f, k, n);
    RootEntry(ChildrenMap(f), k, KidsOf(f, k) + [n], n);
  }

  /** The top level after a leaf is attached under `k`. */
  lemma AttachLeafIds<N>(f: seq<Item<N>>, k: Option<N>, n: N)
    requires Unique(f) && InTree(f, k) && n !in Flat(f)
    ensures Ids(Attach(f, k, Item(n, []))) == if k == None then Ids(f) + [n] else Ids(f)
  {
    var t := Item(n, []);
    FlatOne(t);
    assert Flat([t]) == [n];
    UniqueAttach(f, k, t);
    AttachAt(f, k, t, n);
  }

  /** The root's entry after the entries of `k` and of a node are set. */
  lemma RootEntry<N>(c: map<Option<N>, seq<N>>, k: Option<N>, v: seq<N>, n: N)
    requires None in c
    ensures None in c[k := v][Some(n) := []]
    ensures c[k := v][Some(n) := []][None] == if k == None then v else c[None]
  {
  }

  /** One node `y` after a leaf `n` is attached under `k`. */
  lemma AttachLeafAt<N>(f: seq<Item<N>>, k: Option<N>, n: N, y: N)
    requires Unique(f) && InTree(f, k) && n !in Flat(f)
    ensures y in Flat(Attach(f, k, Item(n, []))) <==> y in Flat(f) || y == n
    ensures y in Flat(Attach(f, k, Item(n, []))) ==>
      UpIn(Attach(f, k, Item(n, [])), y) == if y == n then k else UpIn(f, y)
    ensures y in Flat(Attach(f, k, Item(n, []))) ==>
      KidsOf(Attach(f, k, Item(n, [])), Some(y)) ==
        if y == n then [] else if Some(y) == k then KidsOf(f, k) + [n] else KidsOf(f, Some(y))
    ensures Ids(Attach(f, k, Item(n, []))) == if k == None then Ids(f) + [n] else Ids(f)
  {
    var t := Item(n, []);
    FlatOne(t);
    assert Flat([t]) == [n];
    UniqueAttach(f, k, t);
    if y in Flat(Attach(f, k, t)) {
      AttachAt(f, k, t, y);
      if y == n {
        assert SubOf([t], n) == t;
        assert KidsOf(f, Some(n)) == [];
      }
    } else {
      AttachAt(f, k, t, n);
    }
  }

  lemma AttachLeafParents<N>(parents: map<N, Option<N>>, f: seq<Item<N>>, k: Option<N>, n: N)
    requires Unique(f) && InTree(f, k) && n !in Flat(f) && ParentsAgree(parents, f)
    ensures ParentsAgree(if k.Some? then parents[n := k] else parents, Attach(f, k, Item(n, [])))
  {
    var R := Attach(f, k, Item(n, []));
    var q := if k.Some? then parents[n := k] else parents;
    forall y | y in q ensures y in Flat(R) && q[y] == UpIn(R, y) {
      AttachLeafAt(f, k, n, y);
    }
    forall y | y in Flat(R) && UpIn(R, y).Some? ensures y in q {
      AttachLeafAt(f, k, n, y);
    }
  }

  // ---------------------------------------------------------------------
  // Undoing an attach

  lemma {:induction false} DropIdAppend<N>(a: seq<Item<N>>, b: seq<Item<N>>, x: N)
    requires x !in Ids(a)
    ensures DropId(a + b, x) == a + DropId(b, x)
  {
    if a == [] {
      assert a + b == b;
    } else {
      assert (a + b)[0] == a[0] && (a + b)[1..] == a[1..] + b;
      DropIdAppend(a[1..], b, x);
    }
  }

  /** Pruning a leaf that was just attached gives back the forest: the
      forest half of `add` followed by `remove`. */
  lemma PruneAttachLeaf<N>(f: seq<Item<N>>, k: Option<N>, n: N)
    requires Unique(f) && InTree(f, k) && n !in Flat(f)
    ensures n in Flat(Attach(f, k, Item(n, [])))
    ensures Prune(Attach(f, k, Item(n, [])), n) == f
  {
    var t := Item(n, []);
    var R := Attach(f, k, t);
    FlatOne(t);
    assert Flat([t]) == [n];
    UniqueAttach(f, k, t);
    AttachAt(f, k, t, n);
    PruneIsSetKids(R, n);
    IdsInFlat(f);
    var leaf: seq<Item<N>> := [t];
    if k.None? {
      DropIdAppend(f, leaf, n);
      assert f + [] == f;
    } else {
      var p := k.value;
      var K := KidItems(f, k);
      IdsInFlat(K);
      KidsInFlat(f, k);
      SubOfSetKids(f, p, K + leaf);
      DropIdAppend(K, leaf, n);
      assert K + [] == K;
      SetKidsTwice(f, p, K + leaf, K);
      SetKidsSame(f, p);
    }
  }

  /** Attaching a pruned subtree back under its parent gives back the forest
      exactly when the subtree was its parent's last child: the forest half
      of `remove` followed by `add` with the parent `get_parent` gave. */
  lemma PruneThenAttach<N>(f: seq<Item<N>>, n: N)
    requires Unique(f) && n in Flat(f) && n in Siblings(f, n) && NextSib(f, n).None?
    ensures InTree(Prune(f, n), UpIn(f, n))
    ensures Attach(Prune(f, n), UpIn(f, n), SubOf(f, n)) == f
  {
    var p := UpIn(f, n);
    var K := KidItems(f, p);
    UpHoldsKid(f, n);
    KidsDistinct(f, p);
    var i := IndexOf(Ids(K), n);
    assert i == |K| - 1;
    KidItemsAreSubtrees(f, p, i);
    var front, last := K[..i], [K[i]];
    assert K == front + last;
    assert n !in Ids(front) by {
      assert Ids(front) == Ids(K)[..i];
    }
    DropIdAppend(front, last, n);
    assert DropId(K, n) == front;
    PruneIsSetKids(f, n);
    if p.Some? {
      var x := p.value;
      SubOfSetKids(f, x, front);
      SetKidsTwice(f, x, front, K);
      SetKidsSame(f, x);
    }
  }

  // ---------------------------------------------------------------------
  // Moving a subtree

  /** The listing is what comes before the block of `x`, the block, and what
      comes after it. */
  lemma BlockSplit<N>(f: seq<Item<N>>, x: N)
    requires x in Flat(f)
    ensures StartIn(f, x) <= EndOf(f, Some(x)) <= |Flat(f)|
    ensures Flat(f) == Flat(f)[..StartIn(f, x)] + Block(f, x) + Flat(f)[EndOf(f, Some(x))..]
  {
    BlockAt(f, x);
    SplitAround(Flat(f), Block(f, x), StartIn(f, x));
  }

  /** Pruning leaves the listing before and after the block of `x`. */
  lemma PruneSplit<N>(f: seq<Item<N>>, x: N)
    requires Unique(f) && x in Flat(f)
    ensures StartIn(f, x) <= EndOf(f, Some(x)) <= |Flat(f)|
    ensures Flat(Prune(f, x)) == Flat(f)[..StartIn(f, x)] + Flat(f)[EndOf(f, Some(x))..]
  {
    BlockSplit(f, x);
    var w, s, e, B := Flat(f), StartIn(f, x), EndOf(f, Some(x)), BlockSet(f, x);
    var a, b, c := w[..s], Block(f, x), w[e..];
    FlatPrune(f, x);
    DistinctMiddle(a, b, c);
    WithoutAppend(a + b, c, B);
    WithoutAppend(a, b, B);
    WithoutCovered(b, B);
    WithoutDisjoint(a, B);
    WithoutDisjoint(c, B);
    assert a + [] == a;
  }

  /** What `reparent` demands: the node is in the forest, the new parent is
      the root or a node outside the node's own subtree. */
  ghost predicate CanMove<N>(f: seq<Item<N>>, x: N, k: Option<N>) {
    && Unique(f) && x in Flat(f) && InTree(f, k)
    && (k.Some? ==> k.value !in Block(f, x))
  }

  /** A move keeps the forest free of repeats and its set of nodes. */
  lemma MoveKeeps<N>(f: seq<Item<N>>, x: N, k: Option<N>)
    requires CanMove(f, x, k)
    ensures InTree(Prune(f, x), k) && Unique(Move(f, x, k))
    ensures multiset(Flat(Move(f, x, k))) == multiset(Flat(f))
    ensures forall y :: y in Flat(Move(f, x, k)) <==> y in Flat(f)
  {
    MoveUnique(f, x, k);
    MoveMultiset(f, x, k);
    forall y ensures y in Flat(Move(f, x, k)) <==> y in Flat(f) {
      assert y in Flat(Move(f, x, k)) <==> y in multiset(Flat(Move(f, x, k)));
      assert y in Flat(f) <==> y in multiset(Flat(f));
    }
  }

  lemma MoveUnique<N>(f: seq<Item<N>>, x: N, k: Option<N>)
    requires CanMove(f, x, k)
    ensures InTree(Prune(f, x), k) && Unique(Move(f, x, k))
  {
    UniquePrune(f, x);
    UniqueBlock(f, x);
    if k.Some? {
      PruneKeeps(f, x, k.value);
    }
    UniqueAttach(Prune(f, x), k, SubOf(f, x));
  }

  lemma MoveMultiset<N>(f: seq<Item<N>>, x: N, k: Option<N>)
    requires CanMove(f, x, k)
    ensures multiset(Flat(Move(f, x, k))) == multiset(Flat(f))
  {
    var P := Prune(f, x);
    MoveUnique(f, x, k);
    FlatAttach(P, k, SubOf(f, x));
    PruneSplit(f, x);
    BlockSplit(f, x);
    var w, S, E := Flat(f), StartIn(f, x), EndOf(f, Some(x));
    SpliceMultiset(Flat(P), EndOf(P, k), Block(f, x), w[..S], w[E..]);
  }

  /** After a move, the moved node hangs from `k` and every other node keeps
      its parent. */
  lemma MoveUp<N>(f: seq<Item<N>>, x: N, k: Option<N>, y: N)
    requires CanMove(f, x, k) && y in Flat(f)
    ensures UpIn(Move(f, x, k), y) == if y == x then k else UpIn(f, y)
  {
    var t := SubOf(f, x);
    var P := Prune(f, x);
    MoveKeeps(f, x, k);
    UniquePrune(f, x);
    UniqueBlock(f, x);
    BlockInFlat(f, x);
    AttachAt(P, k, t, y);
    if y in Flat([t]) {
      if y != x {
        UpWithin(f, x, y);
      }
    } else {
      PruneKeeps(f, x, y);
      PruneAt(f, x, y);
    }
  }

  /** The child list of every node after a move, compared with before: the
      old parent has lost `x`, the new parent `k` has gained it at the end. */
  lemma MoveKids<N>(f: seq<Item<N>>, x: N, k: Option<N>, z: Option<N>)
    requires CanMove(f, x, k) && InTree(f, z)
    ensures x in KidsOf(f, UpIn(f, x))
    ensures var m := KidsOf(f, z);
      var m1 := if z == UpIn(f, x) then RemoveFirst(m, x) else m;
      KidsOf(Move(f, x, k), z) == if z == k then m1 + [x] else m1
  {
    var t := SubOf(f, x);
    var P := Prune(f, x);
    MoveKeeps(f, x, k);
    UniquePrune(f, x);
    UniqueBlock(f, x);
    BlockInFlat(f, x);
    PruneTop(f, x);
    if z.None? {
      AttachAt(P, k, t, x);
    } else {
      var y := z.value;
      AttachAt(P, k, t, y);
      if y in Flat([t]) {
        SubOfWithin(f, x, y);
        assert Some(y) != UpIn(f, x);
      } else {
        PruneKeeps(f, x, y);
        PruneAt(f, x, y);
      }
    }
  }

  /** `_children` after `reparent(x, k)`: `x` leaves its old parent's list and
      is appended to `k`'s. */
  lemma MoveChildren<N>(f: seq<Item<N>>, x: N, k: Option<N>)
    requires CanMove(f, x, k)
    ensures InTree(f, UpIn(f, x)) && x in KidsOf(f, UpIn(f, x))
    ensures var c1 := ChildrenMap(f)[UpIn(f, x) := RemoveFirst(KidsOf(f, UpIn(f, x)), x)];
      k in c1 && ChildrenMap(Move(f, x, k)) == c1[k := c1[k] + [x]]
  {
    UpHoldsKid(f, x);
    KeysIn(f, k);
    var c1 := ChildrenMap(f)[UpIn(f, x) := RemoveFirst(KidsOf(f, UpIn(f, x)), x)];
    var lhs, rhs := ChildrenMap(Move(f, x, k)), c1[k := c1[k] + [x]];
    forall z ensures (z in lhs <==> z in rhs) && (z in lhs ==> lhs[z] == rhs[z]) {
      MoveChildrenKey(f, x, k, z);
    }
    MapsEqual(lhs, rhs);
  }

  lemma MoveChildrenKey<N>(f: seq<Item<N>>, x: N, k: Option<N>, z: Option<N>)
    requires CanMove(f, x, k) && InTree(f, UpIn(f, x)) && x in KidsOf(f, UpIn(f, x))
    requires k in ChildrenMap(f)
    ensures var c1 := ChildrenMap(f)[UpIn(f, x) := RemoveFirst(KidsOf(f, UpIn(f, x)), x)];
      var lhs, rhs := ChildrenMap(Move(f, x, k)), c1[k := c1[k] + [x]];
      (z in lhs <==> z in rhs) && (z in lhs ==> lhs[z] == rhs[z])
  {
    MoveKeyIn(f, x, k, z);
    KeysIn(f, z);
    if InTree(f, z) {
      MoveKeyValue(f, x, k, z);
    }
  }

  lemma MoveKeyIn<N>(f: seq<Item<N>>, x: N, k: Option<N>, z: Option<N>)
    requires CanMove(f, x, k)
    ensures z in ChildrenMap(Move(f, x, k)) <==> InTree(f, z)
  {
    MoveKeeps(f, x, k);
    KeysIn(Move(f, x, k), z);
  }

  lemma MoveKeyValue<N>(f: seq<Item<N>>, x: N, k: Option<N>, z: Option<N>)
    requires CanMove(f, x, k) && InTree(f, UpIn(f, x)) && x in KidsOf(f, UpIn(f, x))
    requires InTree(f, z) && z in ChildrenMap(Move(f, x, k))
    requires k in ChildrenMap(f)
    ensures var c1 := ChildrenMap(f)[UpIn(f, x) := RemoveFirst(KidsOf(f, UpIn(f, x)), x)];
      ChildrenMap(Move(f, x, k))[z] == c1[k := c1[k] + [x]][z]
  {
    KeysIn(Move(f, x, k), z);
    KeysIn(f, z);
    KeysIn(f, UpIn(f, x));
    MoveKids(f, x, k, z);
    MoveEntry(ChildrenMap(f), KidsOf(f, UpIn(f, x)), UpIn(f, x), k, z, x);
  }

  /** `_parents` after `reparent(x, k)`: the entry of `x` becomes `k`. */
  lemma MoveParents<N>(parents: map<N, Option<N>>, f: seq<Item<N>>, x: N, k: Option<N>)
    requires CanMove(f, x, k) && ParentsAgree(parents, f)
    ensures ParentsAgree(parents[x := k], Move(f, x, k))
  {
    var M, q := Move(f, x, k), parents[x := k];
    forall y | y in q ensures y in Flat(M) && q[y] == UpIn(M, y) {
      MoveParentEntry(parents, f, x, k, y);
    }
    forall y | y in Flat(M) && UpIn(M, y).Some? ensures y in q {
      MoveParentEntry(parents, f, x, k, y);
    }
  }

  lemma MoveParentEntry<N>(parents: map<N, Option<N>>, f: seq<Item<N>>, x: N, k: Option<N>, y: N)
    requires CanMove(f, x, k) && ParentsAgree(parents, f)
    ensures y in parents[x := k] ==> y in Flat(Move(f, x, k)) && parents[x := k][y] == UpIn(Move(f, x, k), y)
    ensures y in Flat(Move(f, x, k)) && UpIn(Move(f, x, k), y).Some? ==> y in parents[x := k]
  {
    MoveKeeps(f, x, k);
    if y in Flat(f) {
      MoveUp(f, x, k, y);
    }
  }

  /** The subtree attached by `Attach` is found again under its own id. */
  lemma AttachSub<N>(f: seq<Item<N>>, k: Option<N>, t: Item<N>)
    requires Unique(Attach(f, k, t)) && InTree(f, k) && t.id !in Flat(f)
    ensures t.id in Flat(Attach(f, k, t)) && SubOf(Attach(f, k, t), t.id) == t
  {
    var K := KidItems(f, k);
    var ks := K + [t];
    FlatAppend(K, [t]);
    FlatOne(t);
    KidsInFlat(f, k);
    if k.None? {
      SplitAgree(f, [t], t.id);
    } else {
      var p := k.value;
      var R := SetKids(f, p, ks);
      SubOfSetKids(f, p, ks);
      SetKidsParts(f, p, ks);
      FlatOne(Item(p, ks));
      assert t.id in Block(R, p);
      SubOfWithin(R, p, t.id);
      assert SubOf([Item(p, ks)], t.id) == SubOf(ks, t.id);
      SplitAgree(K, [t], t.id);
    }
  }

  /** After a move, the subtree of `x` is unchanged and its listing starts
      where `k`'s block ended in the pruned forest. */
  lemma MoveEnd<N>(f: seq<Item<N>>, x: N, k: Option<N>)
    requires CanMove(f, x, k)
    ensures InTree(Prune(f, x), k) && EndOf(Prune(f, x), k) <= |Flat(Prune(f, x))|
    ensures x in Flat(Move(f, x, k)) && SubOf(Move(f, x, k), x) == SubOf(f, x)
    ensures StartIn(Move(f, x, k), x) == EndOf(Prune(f, x), k)
    ensures EndOf(Move(f, x, k), Some(x)) == EndOf(Prune(f, x), k) + |Block(f, x)|
  {
    var P, t := Prune(f, x), SubOf(f, x);
    var M := Move(f, x, k);
    MoveUnique(f, x, k);
    UniquePrune(f, x);
    FlatOne(t);
    assert x in Block(f, x);
    AttachSub(P, k, t);
    FlatAttach(P, k, t);
    var e := EndOf(P, k);
    assert Flat(M)[e] == x;
    DistinctIndexOf(Flat(M), e);
    StartIsIndex(M, x);
  }

  /** After `SetKids(f, n, ks)`, the first of `ks` is found under its id. */
  lemma FirstKidSub<N>(f: seq<Item<N>>, n: N, ks: seq<Item<N>>)
    requires n in Flat(f) && ks != [] && Unique(SetKids(f, n, ks))
    ensures ks[0].id in Flat(SetKids(f, n, ks)) && SubOf(SetKids(f, n, ks), ks[0].id) == ks[0]
  {
    var R := SetKids(f, n, ks);
    SubOfSetKids(f, n, ks);
    FlatOne(Item(n, ks));
    FlatHead(ks);
    assert ks[0].id in Block(R, n);
    SubOfWithin(R, n, ks[0].id);
    SetKidsParts(f, n, ks);
    assert ks[0].id != n;
  }
}
