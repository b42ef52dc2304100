/** `TreeSorter` of gaphas/tree.py: a snapshot of every node's place in the
    render list of a tree, used to sort any collection of items into render
    order. The source writes the place onto each node as the attribute
    `_tree_sorter_key`; here the attributes are the map `keys`, which keeps
    the entries of nodes that have since left the tree, as the attributes
    do. */
module Sorting {

  import opened Results
  import opened Lists
  import opened Forest
  import opened Trees

  // -------------------------------------------------------------------
  // The key map and the order it induces

  /** The keys one pass over `s` writes: each element gets its position,
      a repeated element the position of its last occurrence. */
  function Positions<N(==)>(s: seq<N>): (m: map<N, nat>)
    ensures m.Keys == set x | x in s
    decreases |s|
  {
    if s == [] then map[] else Positions(s[..|s| - 1])[s[|s| - 1] := |s| - 1]
  }

  /** In a list without repeats, the key written for each element is its
      index. */
  lemma {:induction false} PositionsDistinct<N>(s: seq<N>, i: nat)
    requires Distinct(s) && i < |s|
    ensures s[i] in Positions(s) && Positions(s)[s[i]] == i
    decreases |s|
  {
    var p := s[..|s| - 1];
    if i < |s| - 1 {
      assert p[i] == s[i];
      assert Distinct(p) by {
        forall a, b | 0 <= a < b < |p| ensures p[a] != p[b] {
          assert p[a] == s[a] && p[b] == s[b];
        }
      }
      PositionsDistinct(p, i);
    }
  }

  /** Every element of `s` has a key. */
  ghost predicate Keyed<N>(s: seq<N>, key: map<N, nat>) {
    forall i :: 0 <= i < |s| ==> s[i] in key
  }

  /** Key `a` may come before key `b`: ascending, or descending when
      `reverse` is set. */
  predicate Before(a: nat, b: nat, reverse: bool) {
    if reverse then a >= b else a <= b
  }

  /** `s` is in key order. */
  ghost predicate SortedBy<N>(s: seq<N>, key: map<N, nat>, reverse: bool)
    requires Keyed(s, key)
  {
    forall i, j :: 0 <= i < j < |s| ==> Before(key[s[i]], key[s[j]], reverse)
  }

  /** `x` put into the sorted list `s` after every element whose key does
      not come strictly after its own, which keeps equal keys in the order
      they arrived. */
  function InsertByKey<N(==)>(x: N, s: seq<N>, key: map<N, nat>, reverse: bool): (r: seq<N>)
    requires x in key && Keyed(s, key) && SortedBy(s, key, reverse)
    ensures multiset(r) == multiset(s) + multiset{x}
    ensures Keyed(r, key) && SortedBy(r, key, reverse)
    decreases |s|
  {
    if s == [] then [x]
    else if Before(key[x], key[s[0]], reverse) && key[x] != key[s[0]] then
      SortedFrom(s, key, reverse);
      ConsSorted(x, s, key, reverse);
      [x] + s
    else
      var tail := InsertByKey(x, s[1..], key, reverse);
      assert s == [s[0]] + s[1..];
      HeadBeforeRest(s, x, tail, key, reverse);
      ConsSorted(s[0], tail, key, reverse);
      [s[0]] + tail
  }

  /** A sorted list with a first element that may come before each of its
      elements is still sorted. */
  lemma ConsSorted<N>(a: N, t: seq<N>, key: map<N, nat>, reverse: bool)
    requires a in key && Keyed(t, key) && SortedBy(t, key, reverse)
    requires forall j :: 0 <= j < |t| ==> Before(key[a], key[t[j]], reverse)
    ensures Keyed([a] + t, key) && SortedBy([a] + t, key, reverse)
  {
    var r := [a] + t;
    assert forall j :: 0 < j < |r| ==> r[j] == t[j - 1];
  }

  /** In a sorted list, the first key may come before every key, and so may
      any key that may come before the first one. */
  lemma SortedFrom<N>(s: seq<N>, key: map<N, nat>, reverse: bool)
    requires s != [] && Keyed(s, key) && SortedBy(s, key, reverse)
    ensures forall j :: 0 <= j < |s| ==> Before(key[s[0]], key[s[j]], reverse)
  {
  }

  /** The first element of a sorted list may come before the rest of the
      list with `x` inserted, when `x` does not come strictly before it. */
  lemma HeadBeforeRest<N>(s: seq<N>, x: N, tail: seq<N>, key: map<N, nat>, reverse: bool)
    requires s != [] && x in key && Keyed(s, key) && SortedBy(s, key, reverse) && Keyed(tail, key)
    requires !(Before(key[x], key[s[0]], reverse) && key[x] != key[s[0]])
    requires multiset(tail) == multiset(s[1..]) + multiset{x}
    ensures forall j :: 0 <= j < |tail| ==> Before(key[s[0]], key[tail[j]], reverse)
  {
    forall j | 0 <= j < |tail| ensures Before(key[s[0]], key[tail[j]], reverse) {
      assert tail[j] in multiset(tail);
      if tail[j] != x {
        assert tail[j] in multiset(s[1..]);
        var m :| 0 <= m < |s[1..]| && s[1..][m] == tail[j];
        assert s[m + 1] == tail[j];
      }
    }
  }

  /** `sorted(items, key=..., reverse=...)` once every item has a key:
      insertion of each item in turn. */
  function SortByKey<N(==)>(items: seq<N>, key: map<N, nat>, reverse: bool): (r: seq<N>)
    requires Keyed(items, key)
    ensures multiset(r) == multiset(items)
    ensures Keyed(r, key) && SortedBy(r, key, reverse)
    decreases |items|
  {
    if items == [] then []
    else
      var last := items[|items| - 1];
      assert items == items[..|items| - 1] + [last];
      InsertByKey(last, SortByKey(items[..|items| - 1], key, reverse), key, reverse)
  }

  // -------------------------------------------------------------------
  // The sorter

  class TreeSorter<N(==)> {

    /** The tree whose render order is snapshot. */
    const tree: Tree<N>

    /** The `_tree_sorter_key` attribute of each node that has one. */
    var keys: map<N, nat>

    /** `TreeSorter(tree)`: no node carries a key yet. */
    constructor (t: Tree<N>)
      ensures tree == t && keys == map[]
    {
      tree := t;
      keys := map[];
    }

    /** `reindex()`: every node of the render list gets its index there as
        its key; nodes outside the list keep what they had. */
    method Reindex()
      modifies this
      ensures keys == old(keys) + Positions(tree.nodes)
      ensures tree.Valid() ==> forall i :: 0 <= i < |tree.nodes| ==> tree.nodes[i] in keys && keys[tree.nodes[i]] == i
    {
      var nodes := tree.nodes;
      for i := 0 to |nodes|
        invariant keys == old(keys) + Positions(nodes[..i])
      {
        PositionsStep(old(keys), nodes, i);
        keys := keys[nodes[i] := i];
      }
      assert nodes[..|nodes|] == nodes;
      if tree.Valid() {
        RenderListDistinct(tree.nodes, tree.shape);
        IndexKeys(old(keys), nodes);
      }
    }

    /** `sort(items, reverse)`: the items in key order; `AttributeError` when
        one of them has no key. */
    function Sort(items: seq<N>, reverse: bool): (r: Result<seq<N>>)
      reads this
      ensures r.Err? <==> exists i :: 0 <= i < |items| && items[i] !in keys
      ensures r.Err? ==> r.error == AttributeError
      ensures r.Ok? ==> multiset(r.value) == multiset(items)
      ensures r.Ok? ==> Keyed(r.value, keys) && SortedBy(r.value, keys, reverse)
    {
      if exists i :: 0 <= i < |items| && items[i] !in keys then Err(AttributeError)
      else Ok(SortByKey(items, keys, reverse))
    }
  }

  /** The render list of a valid tree has no repeats. */
  lemma RenderListDistinct<N>(s: seq<N>, f: seq<Item<N>>)
    requires Unique(f) && multiset(s) == multiset(Flat(f))
    ensures Distinct(s)
  {
    DistinctCounts(Flat(f));
    CountsDistinct(s);
  }

  /** One turn of the loop of `reindex()`. */
  lemma PositionsStep<N>(m: map<N, nat>, s: seq<N>, i: nat)
    requires i < |s|
    ensures (m + Positions(s[..i]))[s[i] := i] == m + Positions(s[..i + 1])
  {
    assert s[..i + 1][..i] == s[..i];
    var a, b := (m + Positions(s[..i]))[s[i] := i], m + Positions(s[..i + 1]);
    assert forall x :: x in a <==> x in b;
    MapsEqual(a, b);
  }

  /** Writing the positions of a list without repeats over any keys makes
      each element's key its index. */
  lemma IndexKeys<N>(m: map<N, nat>, s: seq<N>)
    requires Distinct(s)
    ensures forall i :: 0 <= i < |s| ==> s[i] in m + Positions(s) && (m + Positions(s))[s[i]] == i
  {
    forall i | 0 <= i < |s| ensures s[i] in m + Positions(s) && (m + Positions(s))[s[i]] == i {
      PositionsDistinct(s, i);
    }
  }

  /** With the keys `reindex()` writes, the key of a node is its index. */
  lemma KeyIsIndex<N>(nodes: seq<N>, key: map<N, nat>, x: N)
    requires forall a :: 0 <= a < |nodes| ==> nodes[a] in key && key[nodes[a]] == a
    requires x in nodes
    ensures x in key && key[x] == IndexOf(nodes, x)
  {
  }

  /** A permutation of items of the tree holds items of the tree. */
  lemma PermutedIn<N>(items: seq<N>, r: seq<N>, nodes: seq<N>, i: nat)
    requires multiset(r) == multiset(items) && i < |r|
    requires forall a :: 0 <= a < |items| ==> items[a] in nodes
    ensures r[i] in nodes
  {
    assert r[i] in multiset(items);
  }

  /** After `reindex()`, sorting items of the tree puts them in render order:
      ascending, an item before another exactly when it comes first in the
      render list; descending, the other way round. */
  lemma SortFollowsNodes<N>(nodes: seq<N>, key: map<N, nat>, items: seq<N>, reverse: bool, i: nat, j: nat)
    requires forall a :: 0 <= a < |nodes| ==> nodes[a] in key && key[nodes[a]] == a
    requires forall a :: 0 <= a < |items| ==> items[a] in nodes
    ensures Keyed(items, key)
    ensures var r := SortByKey(items, key, reverse);
      i < j < |r| && r[i] != r[j] ==>
        r[i] in nodes && r[j] in nodes &&
        (if reverse then IndexOf(nodes, r[j]) < IndexOf(nodes, r[i]) else IndexOf(nodes, r[i]) < IndexOf(nodes, r[j]))
  {
    forall a | 0 <= a < |items| ensures items[a] in key {
      KeyIsIndex(nodes, key, items[a]);
    }
    var r := SortByKey(items, key, reverse);
    if i < j < |r| && r[i] != r[j] {
      PermutedIn(items, r, nodes, i);
      PermutedIn(items, r, nodes, j);
      KeyIsIndex(nodes, key, r[i]);
      KeyIsIndex(nodes, key, r[j]);
      assert Before(key[r[i]], key[r[j]], reverse);
    }
  }
}
