/** The examples in the docstrings of gaphas/tree.py, worked through the
    model, and the example that shows where `_reparent_nodes` leaves the
    render list out of pre-order. The nodes `n1`, `n2`, ... of a docstring
    are any values that differ from each other. */
module Doctests {

  import opened Results
  import opened Lists
  import opened Forest
  import opened Edits
  import opened Placement
  import opened Trees
  import opened Sorting

  predicate Differ3<N(==)>(a: N, b: N, c: N) {
    a != b && a != c && b != c
  }

  predicate Differ4<N(==)>(a: N, b: N, c: N, d: N) {
    Differ3(a, b, c) && d != a && d != b && d != c
  }

  predicate Differ5<N(==)>(a: N, b: N, c: N, d: N, e: N) {
    Differ4(a, b, c, d) && e != a && e != b && e != c && e != d
  }

  // -------------------------------------------------------------------
  // Small facts about short lists and forests

  lemma Leaf<N>(x: N)
    ensures Flat([Item(x, [])]) == [x] && Ids([Item(x, [])]) == [x]
  {
    assert [Item(x, [])][1..] == [];
  }

  /** `x` with the single child subtree `t`. */
  lemma Single<N>(x: N, t: Item<N>)
    ensures Flat([Item(x, [t])]) == [x] + Flat([t]) && Ids([Item(x, [t])]) == [x]
    ensures Ids([t]) == [t.id]
  {
    assert [Item(x, [t])][1..] == [] && [t][1..] == [];
  }

  /** Two leaves. */
  lemma Leaves<N>(x: N, y: N)
    ensures Flat([Item(x, []), Item(y, [])]) == [x, y] && Ids([Item(x, []), Item(y, [])]) == [x, y]
  {
    var ks := [Item(x, []), Item(y, [])];
    assert ks[1..] == [Item(y, [])];
    Leaf(y);
  }

  /** A leaf added below `x`, the only node at the top. */
  lemma AttachToLone<N>(x: N, ks: seq<Item<N>>, t: Item<N>)
    ensures Attach([Item(x, ks)], Some(x), t) == [Item(x, ks + [t])]
  {
    var f := [Item(x, ks)];
    assert f[0].id == x && f[1..] == [];
    assert x in Flat(f) by {
      assert Flat(f) == [x] + Flat(ks) + Flat([]);
    }
  }

  /** `s.remove(x)` then `s.append(x)` for the first element of four. */
  lemma RotateFirst4<T>(x: T, a: T, b: T, c: T)
    ensures RemoveFirst([x, a, b, c], x) + [x] == [a, b, c, x]
  {
    assert [x, a, b, c][1..] == [a, b, c];
  }

  /** ... for the second element of three. */
  lemma RotateSecond3<T>(a: T, x: T, b: T)
    requires a != x
    ensures RemoveFirst([a, x, b], x) + [x] == [a, b, x]
  {
    assert [a, x, b][1..] == [x, b] && [x, b][1..] == [b];
  }

  /** ... for the first element of five. */
  lemma RotateFirst5<T>(x: T, a: T, b: T, c: T, d: T)
    ensures RemoveFirst([x, a, b, c, d], x) + [x] == [a, b, c, d, x]
  {
    assert [x, a, b, c, d][1..] == [a, b, c, d];
  }

  /** ... for the second element of five. */
  lemma RotateSecond5<T>(a: T, x: T, b: T, c: T, d: T)
    requires a != x
    ensures RemoveFirst([a, x, b, c, d], x) + [x] == [a, b, c, d, x]
  {
    assert [a, x, b, c, d][1..] == [x, b, c, d] && [x, b, c, d][1..] == [b, c, d];
  }

  /** `Without` skips a first element that is dropped. */
  lemma WithoutDrop<N>(x: N, s: seq<N>, d: set<N>)
    requires x in d
    ensures Without([x] + s, d) == Without(s, d)
  {
    assert ([x] + s)[1..] == s;
  }

  /** Five different values make a list without repeats. */
  lemma Distinct5<N>(a: N, b: N, c: N, d: N, e: N)
    requires Differ5(a, b, c, d, e)
    ensures Distinct([a, b, c, d, e])
  {
  }

  /** Moving the last of five values to the front permutes them. */
  lemma Permuted5<N>(a: N, b: N, c: N, d: N, e: N)
    ensures multiset([a, b, c, d, e]) == multiset([e, a, b, c, d])
  {
    assert [a, b, c, d, e] == [a, b, c, d] + [e] && [e, a, b, c, d] == [e] + [a, b, c, d];
  }

  /** The parts of a two-element list. */
  lemma PairParts<T>(x: T, y: T)
    ensures [x, y][..1] == [x] && [x, y][1] == y && [x, y][1..] == [y]
  {
  }

  /** One value in front of one. */
  lemma PrependOne<T>(x: T, y: T)
    ensures [x] + [y] == [x, y]
  {
  }

  /** One value in front of two. */
  lemma PrependTwo<T>(x: T, y: T, z: T)
    ensures [x] + [y, z] == [x, y, z]
  {
  }

  /** One value in front of four. */
  lemma PrependFour<T>(x: T, s: seq<T>)
    requires |s| == 4
    ensures [x] + s == [x, s[0], s[1], s[2], s[3]]
  {
  }

  /** A list put in at the end of another. */
  lemma SpliceEnd<T>(s: seq<T>, b: seq<T>)
    ensures Splice(s, |s|, b) == s + b
  {
    assert s[..|s|] == s && s[|s|..] == [];
  }

  /** When the block of `k` ends the listing, one step of
      `_reparent_nodes` moves `y` to the end of the render list. */
  lemma PlaceAtEnd<N>(s: seq<N>, f: seq<Item<N>>, y: N, k: Option<N>)
    requires y in s && InTree(f, k) && EndOf(f, k) == |Flat(f)|
    ensures Placeable(RemoveFirst(s, y), f, k) && Place(s, f, y, k) == RemoveFirst(s, y) + [y]
  {
    var r := RemoveFirst(s, y);
    assert AddPos(r, f, k) == |r|;
    assert r[..|r|] == r && r[|r|..] == [];
  }

  /** When the node after the block of `k` heads the rest of the render
      list, one step of `_reparent_nodes` puts `y` at the front. */
  lemma PlaceBefore<N>(s: seq<N>, f: seq<Item<N>>, y: N, k: Option<N>)
    requires y in s && InTree(f, k) && EndOf(f, k) < |Flat(f)|
    requires RemoveFirst(s, y) != [] && RemoveFirst(s, y)[0] == Flat(f)[EndOf(f, k)]
    ensures Placeable(RemoveFirst(s, y), f, k) && Place(s, f, y, k) == [y] + RemoveFirst(s, y)
  {
    var r := RemoveFirst(s, y);
    assert AddPos(r, f, k) == 0;
    assert r[..0] == [] && r[0..] == r;
  }

  /** ... so `_reparent_nodes(t.id, k)` moves `t.id` to the end and goes
      on with its children. */
  lemma RelistAtEnd<N>(s: seq<N>, f: seq<Item<N>>, t: Item<N>, k: Option<N>)
    requires Relistable(s, f, [t], k) && InTree(f, k) && EndOf(f, k) == |Flat(f)|
    ensures t.id in s && Relistable(RemoveFirst(s, t.id) + [t.id], f, t.kids, Some(t.id))
    ensures RelistAll(s, f, [t], k) == RelistAll(RemoveFirst(s, t.id) + [t.id], f, t.kids, Some(t.id))
  {
    RelistOne(s, f, t, k);
    PlaceAtEnd(s, f, t.id, k);
  }

  /** Relisting no subtrees changes nothing. */
  lemma RelistNone<N>(s: seq<N>, f: seq<Item<N>>, k: Option<N>)
    requires Relistable(s, f, [], k)
    ensures RelistAll(s, f, [], k) == s
  {
  }

  // -------------------------------------------------------------------
  // The forests of the docstrings

  /** `a` with the children `b` and `c`. */
  function Three<N>(a: N, b: N, c: N): seq<Item<N>> {
    [Item(a, [Item(b, []), Item(c, [])])]
  }

  /** `a` with the child `b`, which has the child `c`. */
  function Chain<N>(a: N, b: N, c: N): seq<Item<N>> {
    [Item(a, [Item(b, [Item(c, [])])])]
  }

  /** `add` three times gives the forest of the first docstrings. */
  lemma ThreeAdded<N>(a: N, b: N, c: N)
    ensures Attach([], None, Item(a, [])) == [Item(a, [])]
    ensures Attach([Item(a, [])], Some(a), Item(b, [])) == [Item(a, [Item(b, [])])]
    ensures Attach([Item(a, [Item(b, [])])], Some(a), Item(c, [])) == Three(a, b, c)
  {
    AttachToLone(a, [], Item(b, []));
    assert [] + [Item(b, [])] == [Item(b, [])];
    AttachToLone(a, [Item(b, [])], Item(c, []));
    assert [Item(b, [])] + [Item(c, [])] == Three(a, b, c)[0].kids;
  }

  /** What the lookups of the first docstrings read off `Three`. */
  lemma ThreeFacts<N>(a: N, b: N, c: N)
    requires Differ3(a, b, c)
    ensures Unique(Three(a, b, c)) && Flat(Three(a, b, c)) == [a, b, c]
    ensures UpIn(Three(a, b, c), b) == Some(a) && UpIn(Three(a, b, c), c) == Some(a)
    ensures KidsOf(Three(a, b, c), Some(a)) == [b, c] && KidsOf(Three(a, b, c), Some(b)) == []
    ensures Siblings(Three(a, b, c), b) == [b, c] && Siblings(Three(a, b, c), c) == [b, c]
    ensures NextSib(Three(a, b, c), b) == Some(c) && NextSib(Three(a, b, c), c) == None
    ensures PrevSib(Three(a, b, c), c) == Some(b) && PrevSib(Three(a, b, c), b) == None
  {
    var T := Three(a, b, c);
    var K := T[0].kids;
    Leaves(b, c);
    Leaf(b);
    assert K[1..] == [Item(c, [])];
    assert T[1..] == [];
    assert Flat(T) == [a] + [b, c];
    assert Ids(T) == [a];
    assert UpIn(T, b) == Some(a);
    assert UpIn(T, c) == Some(a);
    assert SubOf(T, a) == Item(a, K);
    assert SubOf(T, b) == Item(b, []);
    assert [b, c][1..] == [c];
    assert IndexOf([b, c], c) == 1;
  }

  /** `remove(b)` and then `add(b, parent=a)` on `a(b, c)` do not give the
      tree back: `b` returns as the last child, after `c`, and the render
      list becomes `a c b`. */
  lemma RemoveAddNotLast<N>(a: N, b: N, c: N)
    requires Differ3(a, b, c)
    ensures b in Flat(Three(a, b, c)) && UpIn(Three(a, b, c), b) == Some(a)
    ensures NextSib(Three(a, b, c), b) == Some(c)
    ensures Attach(Prune(Three(a, b, c), b), Some(a), Item(b, [])) == [Item(a, [Item(c, []), Item(b, [])])]
    ensures Flat([Item(a, [Item(c, []), Item(b, [])])]) == [a, c, b]
    ensures Attach(Prune(Three(a, b, c), b), Some(a), Item(b, [])) != Three(a, b, c)
  {
    ThreeFacts(a, b, c);
    var T := Three(a, b, c);
    assert T[0].kids[1..] == [Item(c, [])];
    assert Prune(T, b) == [Item(a, [Item(c, [])])];
    AttachToLone(a, [Item(c, [])], Item(b, []));
    assert [Item(c, [])] + [Item(b, [])] == [Item(c, []), Item(b, [])];
    Leaves(c, b);
    assert Flat([Item(a, [Item(c, []), Item(b, [])])]) == [a] + [c, b];
  }

  /** `remove(a)` and then `add(a)` on `a(b)` do not give the tree back:
      `remove` took `b` with it. */
  lemma RemoveAddWithKids<N>(a: N, b: N)
    requires a != b
    ensures a in Flat([Item(a, [Item(b, [])])]) && UpIn([Item(a, [Item(b, [])])], a) == None
    ensures Attach(Prune([Item(a, [Item(b, [])])], a), None, Item(a, [])) == [Item(a, [])]
  {
    var L := [Item(a, [Item(b, [])])];
    Single(a, Item(b, []));
    assert Prune(L, a) == [];
  }

  /** `add` three times gives the forest of the `get_all_children` and
      `get_ancestors` docstrings. */
  lemma ChainAdded<N>(a: N, b: N, c: N)
    requires Differ3(a, b, c)
    ensures Attach([Item(a, [Item(b, [])])], Some(b), Item(c, [])) == Chain(a, b, c)
  {
    var f := [Item(a, [Item(b, [])])];
    Single(a, Item(b, []));
    Leaf(b);
    assert f[0].id == a && f[1..] == [] && Flat(f[0].kids) == [b];
    assert SubOf(f, b) == Item(b, []);
    AttachToLone(b, [], Item(c, []));
    assert [] + [Item(c, [])] == [Item(c, [])];
  }

  /** What those two docstrings read off `Chain`. */
  lemma ChainFacts<N>(a: N, b: N, c: N)
    requires Differ3(a, b, c)
    ensures Unique(Chain(a, b, c)) && Flat(Chain(a, b, c)) == [a, b, c]
    ensures UpIn(Chain(a, b, c), c) == Some(b) && UpIn(Chain(a, b, c), b) == Some(a)
    ensures UpIn(Chain(a, b, c), a) == None
    ensures KidsOf(Chain(a, b, c), Some(a)) == [b] && Flat(KidItems(Chain(a, b, c), Some(a))) == [b, c]
    ensures Ancestors(Chain(a, b, c), c) == [b, a] && Ancestors(Chain(a, b, c), a) == []
  {
    var C := Chain(a, b, c);
    var t := Item(b, [Item(c, [])]);
    Leaf(c);
    Single(b, Item(c, []));
    Single(a, t);
    assert C == [Item(a, [t])];
    assert SubOf(C, a) == Item(a, [t]);
    assert UpIn([t], c) == Some(b);
    assert UpIn(C, c) == Some(b);
    assert UpIn(C, b) == Some(a);
    assert Ancestors(C, a) == [];
    assert Ancestors(C, b) == [a];
  }

  /** `Three` once `reparent(b, c)` has run. */
  function Moved<N>(a: N, b: N, c: N): seq<Item<N>> {
    [Item(a, [Item(c, [Item(b, [])])])]
  }

  /** `Moved` once `add(d)` has run. */
  function Four<N>(a: N, b: N, c: N, d: N): seq<Item<N>> {
    [Item(a, [Item(c, [Item(b, [])])]), Item(d, [])]
  }

  /** `Four` once `reparent(a, d)` has run. */
  function Five<N>(a: N, b: N, c: N, d: N): seq<Item<N>> {
    [Item(d, [Item(a, [Item(c, [Item(b, [])])])])]
  }

  /** `reparent(b, c)` on the forest: `b` leaves the children of `a` and
      becomes the only child of `c`. */
  lemma FirstMove<N>(a: N, b: N, c: N)
    requires Differ3(a, b, c)
    ensures b in Flat(Three(a, b, c)) && Block(Three(a, b, c), b) == [b]
    ensures Move(Three(a, b, c), b, Some(c)) == Moved(a, b, c)
  {
    var T := Three(a, b, c);
    var K := T[0].kids;
    Leaves(b, c);
    Leaf(b);
    Leaf(c);
    assert K[1..] == [Item(c, [])];
    assert T[1..] == [];
    assert Flat(T) == [a] + [b, c];
    assert SubOf(T, b) == Item(b, []);
    assert Prune(K, b) == [Item(c, [])];
    var P := [Item(a, [Item(c, [])])];
    assert Prune(T, b) == P;
    Single(a, Item(c, []));
    assert SubOf(P, c) == Item(c, []);
    assert KidItems(P, Some(c)) + [Item(b, [])] == [Item(b, [])];
    assert SetKids([Item(c, [])], c, [Item(b, [])]) == [Item(c, [Item(b, [])])];
    assert P[1..] == [];
    assert SetKids(P, c, [Item(b, [])]) == Moved(a, b, c);
  }

  /** What the docstring reads off the forest after the first move, and
      where its blocks end. */
  lemma MovedFacts<N>(a: N, b: N, c: N)
    requires Differ3(a, b, c)
    ensures Flat(Moved(a, b, c)) == [a, c, b] && Unique(Moved(a, b, c))
    ensures SubOf(Moved(a, b, c), b) == Item(b, []) && SubOf(Moved(a, b, c), c) == Item(c, [Item(b, [])])
    ensures UpIn(Moved(a, b, c), b) == Some(c) && KidsOf(Moved(a, b, c), Some(c)) == [b]
    ensures Block(Moved(a, b, c), c) == [c, b]
    ensures EndOf(Moved(a, b, c), Some(c)) == 3 && EndOf(Moved(a, b, c), None) == 3
  {
    var M := Moved(a, b, c);
    var t := Item(c, [Item(b, [])]);
    Leaf(b);
    Single(c, Item(b, []));
    Single(a, t);
    assert M == [Item(a, [t])];
    assert UpIn([t], b) == Some(c);
    assert SubOf([t], c) == t;
    assert SubOf([t], b) == Item(b, []);
    assert StartIn(M, c) == 1;
  }

  /** `reparent(b, c)` on the render list: `b` is placed after the block of
      `c`, which ends the list. */
  lemma FirstRelist<N>(a: N, b: N, c: N)
    requires Differ3(a, b, c)
    requires Relistable([a, b, c], Moved(a, b, c), [Item(b, [])], Some(c))
    ensures RelistAll([a, b, c], Moved(a, b, c), [Item(b, [])], Some(c)) == [a, c, b]
  {
    MovedFacts(a, b, c);
    RotateSecond3(a, b, c);
    RelistAtEnd([a, b, c], Moved(a, b, c), Item(b, []), Some(c));
    RelistNone([a, c, b], Moved(a, b, c), Some(b));
  }

  /** `add(d)` puts a root-level leaf after everything. */
  lemma FourAdded<N>(a: N, b: N, c: N, d: N)
    requires Differ4(a, b, c, d)
    ensures Attach(Moved(a, b, c), None, Item(d, [])) == Four(a, b, c, d)
    ensures Flat(Four(a, b, c, d)) == [a, c, b, d]
  {
    MovedFacts(a, b, c);
    Leaf(d);
    FlatAppend(Moved(a, b, c), [Item(d, [])]);
  }

  /** `reparent(a, d)` on the forest: the whole subtree of `a` becomes the
      only child of `d`. */
  lemma SecondMove<N>(a: N, b: N, c: N, d: N)
    requires Differ4(a, b, c, d)
    ensures Flat(Four(a, b, c, d)) == [a, c, b, d] && Unique(Four(a, b, c, d))
    ensures Block(Four(a, b, c, d), a) == [a, c, b]
    ensures Move(Four(a, b, c, d), a, Some(d)) == Five(a, b, c, d)
  {
    MovedFacts(a, b, c);
    FourAdded(a, b, c, d);
    var F := Four(a, b, c, d);
    var t := F[0];
    assert F == [t] + [Item(d, [])] && F[1..] == [Item(d, [])];
    assert SubOf(F, a) == t;
    assert Prune(F, a) == [Item(d, [])];
    Leaf(d);
    AttachToLone(d, [], t);
    assert [] + [t] == [t];
  }

  /** What the docstring reads off the forest after the second move. */
  lemma FiveFacts<N>(a: N, b: N, c: N, d: N)
    requires Differ4(a, b, c, d)
    ensures Flat(Five(a, b, c, d)) == [d, a, c, b] && Unique(Five(a, b, c, d))
    ensures SubOf(Five(a, b, c, d), a) == Item(a, [Item(c, [Item(b, [])])])
    ensures UpIn(Five(a, b, c, d), a) == Some(d)
    ensures Flat(KidItems(Five(a, b, c, d), Some(d))) == [a, c, b]
    ensures EndOf(Five(a, b, c, d), Some(d)) == 4 && EndOf(Five(a, b, c, d), Some(a)) == 4
    ensures EndOf(Five(a, b, c, d), Some(c)) == 4
  {
    var F := Five(a, b, c, d);
    var t2 := Item(b, []);
    var t3 := Item(c, [t2]);
    var t1 := Item(a, [t3]);
    Leaf(b);
    Single(c, t2);
    Single(a, t3);
    Single(d, t1);
    assert F == [Item(d, [t1])];
    assert SubOf(F, d) == Item(d, [t1]);
    assert SubOf(F, a) == t1;
    assert SubOf([t3], c) == t3 && StartIn([t3], c) == 0;
    assert SubOf([t1], c) == t3 && StartIn([t1], c) == 1;
    assert SubOf(F, c) == t3;
    assert StartIn(F, a) == 1;
    assert StartIn(F, c) == 2;
    assert UpIn([t1], a) == None;
  }

  /** `reparent(a, d)` on the render list: `a`, `c` and `b` go to the end
      in turn, each after a block that ends the listing. */
  lemma SecondRelist<N>(a: N, b: N, c: N, d: N)
    requires Differ4(a, b, c, d)
    requires Relistable([a, c, b, d], Five(a, b, c, d), [SubOf(Five(a, b, c, d), a)], Some(d))
    ensures RelistAll([a, c, b, d], Five(a, b, c, d), [SubOf(Five(a, b, c, d), a)], Some(d)) == [d, a, c, b]
  {
    FiveFacts(a, b, c, d);
    var F := Five(a, b, c, d);
    var t1, t3, t2 := Item(a, [Item(c, [Item(b, [])])]), Item(c, [Item(b, [])]), Item(b, []);
    RotateFirst4(a, c, b, d);
    RelistAtEnd([a, c, b, d], F, t1, Some(d));
    RotateFirst4(c, b, d, a);
    RelistAtEnd([c, b, d, a], F, t3, Some(a));
    RotateFirst4(b, d, a, c);
    RelistAtEnd([b, d, a, c], F, t2, Some(c));
    RelistNone([d, a, c, b], F, Some(b));
  }

  // -------------------------------------------------------------------
  // Where `_reparent_nodes` goes wrong

  /** `a` with the children `b` (which has the child `d`) and `c`. */
  function Tuft<N>(a: N, b: N, c: N, d: N): Item<N> {
    Item(a, [Item(b, [Item(d, [])]), Item(c, [])])
  }

  /** `Tuft` followed by a second root-level node `e`. */
  function Bush<N>(a: N, b: N, c: N, d: N, e: N): seq<Item<N>> {
    [Tuft(a, b, c, d), Item(e, [])]
  }

  /** `Bush` once `reparent(a, e)` has changed `_children` and `_parents`. */
  function Lifted<N>(a: N, b: N, c: N, d: N, e: N): seq<Item<N>> {
    [Item(e, [Tuft(a, b, c, d)])]
  }

  /** The listing of `Tuft`. */
  lemma TuftFlat<N>(a: N, b: N, c: N, d: N)
    ensures Flat(Tuft(a, b, c, d).kids) == [b, d, c] && Flat([Tuft(a, b, c, d)]) == [a, b, d, c]
  {
    var bd, cc := Item(b, [Item(d, [])]), Item(c, []);
    Leaf(d);
    Leaf(c);
    Single(b, Item(d, []));
    FlatAppend([bd], [cc]);
    assert [bd] + [cc] == [bd, cc] == Tuft(a, b, c, d).kids;
    FlatOne(Tuft(a, b, c, d));
  }

  /** `add(d, parent=b)` on `Three` gives `Tuft`. */
  lemma TuftAdded<N>(a: N, b: N, c: N, d: N)
    requires Differ4(a, b, c, d)
    ensures Attach(Three(a, b, c), Some(b), Item(d, [])) == [Tuft(a, b, c, d)]
  {
    var b0, cc, dd := Item(b, []), Item(c, []), Item(d, []);
    var f := Three(a, b, c);
    assert f[0].kids == [b0, cc] && [b0, cc][1..] == [cc] && f[1..] == [];
    Leaves(b, c);
    assert SubOf(f, b) == b0;
    assert KidItems(f, Some(b)) + [dd] == [dd];
    assert SetKids([b0, cc], b, [dd]) == [Item(b, [dd])] + [cc] == [Item(b, [dd]), cc];
    assert [Item(a, [Item(b, [dd]), cc])] + [] == [Item(a, [Item(b, [dd]), cc])];
    assert SetKids(f, b, [dd]) == [Tuft(a, b, c, d)];
  }

  /** ... and `add(e)` on that gives `Bush`. */
  lemma BushAdded<N>(a: N, b: N, c: N, d: N, e: N)
    requires Differ5(a, b, c, d, e)
    ensures Attach([Tuft(a, b, c, d)], None, Item(e, [])) == Bush(a, b, c, d, e)
  {
  }

  /** The listing of `Bush`, which the adds leave as the render list, and
      the block `reparent(a, e)` moves. */
  lemma BushFacts<N>(a: N, b: N, c: N, d: N, e: N)
    requires Differ5(a, b, c, d, e)
    ensures Flat(Bush(a, b, c, d, e)) == [a, b, d, c, e] && Unique(Bush(a, b, c, d, e))
    ensures Block(Bush(a, b, c, d, e), a) == [a, b, d, c]
    ensures Move(Bush(a, b, c, d, e), a, Some(e)) == Lifted(a, b, c, d, e)
  {
    var t, ee := Tuft(a, b, c, d), Item(e, []);
    var B := Bush(a, b, c, d, e);
    TuftFlat(a, b, c, d);
    Leaf(e);
    FlatAppend([t], [ee]);
    assert B == [t] + [ee] && B[1..] == [ee];
    Distinct5(a, b, d, c, e);
    assert SubOf(B, a) == t;
    assert Prune(B, a) == [ee];
    AttachToLone(e, [], t);
    assert [] + [t] == [t];
  }

  /** The listing of `Lifted`. */
  lemma LiftFlat<N>(a: N, b: N, c: N, d: N, e: N)
    requires Differ5(a, b, c, d, e)
    ensures Flat(Lifted(a, b, c, d, e)) == [e, a, b, d, c] && Unique(Lifted(a, b, c, d, e))
  {
    TuftFlat(a, b, c, d);
    Single(e, Tuft(a, b, c, d));
    Distinct5(e, a, b, d, c);
  }

  /** The subtrees of `Lifted` and the parent of `a`. */
  lemma LiftSubs<N>(a: N, b: N, c: N, d: N, e: N)
    requires Differ5(a, b, c, d, e)
    ensures Flat(Lifted(a, b, c, d, e)) == [e, a, b, d, c]
    ensures SubOf(Lifted(a, b, c, d, e), a) == Tuft(a, b, c, d) && UpIn(Lifted(a, b, c, d, e), a) == Some(e)
    ensures SubOf(Lifted(a, b, c, d, e), b) == Item(b, [Item(d, [])])
    ensures SubOf(Lifted(a, b, c, d, e), c) == Item(c, [])
    ensures SubOf(Lifted(a, b, c, d, e), d) == Item(d, [])
  {
    var t := Tuft(a, b, c, d);
    var bd, cc := Item(b, [Item(d, [])]), Item(c, []);
    LiftFlat(a, b, c, d, e);
    TuftFlat(a, b, c, d);
    Leaf(d);
    Single(b, Item(d, []));
    assert [bd, cc][1..] == [cc];
    assert SubOf([bd, cc], c) == cc && SubOf([t], c) == cc;
    assert SubOf([bd, cc], b) == bd && SubOf([t], b) == bd;
    assert SubOf([Item(d, [])], d) == Item(d, []);
    assert SubOf([bd, cc], d) == Item(d, []) && SubOf([t], d) == Item(d, []);
    assert SubOf([t], a) == t;
    assert UpIn([t], a) == None;
  }

  /** Where the blocks of `Lifted` end: every block but that of `b` ends
      the listing, and `c` follows the block of `b`. */
  lemma LiftEnds<N>(a: N, b: N, c: N, d: N, e: N)
    requires Differ5(a, b, c, d, e)
    ensures Flat(Lifted(a, b, c, d, e)) == [e, a, b, d, c]
    ensures Block(Lifted(a, b, c, d, e), a) == [a, b, d, c]
    ensures EndOf(Lifted(a, b, c, d, e), Some(e)) == 5 && EndOf(Lifted(a, b, c, d, e), Some(a)) == 5
    ensures EndOf(Lifted(a, b, c, d, e), Some(c)) == 5 && EndOf(Lifted(a, b, c, d, e), Some(b)) == 4
  {
    var L := Lifted(a, b, c, d, e);
    LiftSubs(a, b, c, d, e);
    LiftFlat(a, b, c, d, e);
    TuftFlat(a, b, c, d);
    Leaf(c);
    Single(b, Item(d, []));
    FlatOne(L[0]);
    StartIsIndex(L, a);
    StartIsIndex(L, b);
    StartIsIndex(L, c);
    var w := [e, a, b, d, c];
    Distinct5(e, a, b, d, c);
    DistinctIndexOf(w, 1);
    DistinctIndexOf(w, 2);
    DistinctIndexOf(w, 4);
  }

  /** `_reparent_nodes(a, e)` starts on the render list the adds left. */
  lemma LiftStart<N>(a: N, b: N, c: N, d: N, e: N)
    requires Differ5(a, b, c, d, e)
    ensures Relistable([a, b, d, c, e], Lifted(a, b, c, d, e), [Tuft(a, b, c, d)], Some(e))
    ensures SubOf(Lifted(a, b, c, d, e), a) == Tuft(a, b, c, d)
  {
    Permuted5(a, b, d, c, e);
    LiftFlat(a, b, c, d, e);
    LiftSubs(a, b, c, d, e);
    RelistableOne([a, b, d, c, e], Lifted(a, b, c, d, e), Tuft(a, b, c, d), Some(e));
  }

  /** Its first step moves `a` to the end, after the block of `e`. */
  lemma LiftStepA<N>(a: N, b: N, c: N, d: N, e: N)
    requires Differ5(a, b, c, d, e)
    requires Relistable([a, b, d, c, e], Lifted(a, b, c, d, e), [Tuft(a, b, c, d)], Some(e))
    ensures Relistable([b, d, c, e, a], Lifted(a, b, c, d, e), Tuft(a, b, c, d).kids, Some(a))
    ensures RelistAll([a, b, d, c, e], Lifted(a, b, c, d, e), [Tuft(a, b, c, d)], Some(e)) ==
      RelistAll([b, d, c, e, a], Lifted(a, b, c, d, e), Tuft(a, b, c, d).kids, Some(a))
  {
    RotateFirst5(a, b, d, c, e);
    LiftEnds(a, b, c, d, e);
    RelistAtEnd([a, b, d, c, e], Lifted(a, b, c, d, e), Tuft(a, b, c, d), Some(e));
  }

  /** `d` is placed before `c`, the node after the block of its parent
      `b`, which is where it already stands. */
  lemma LiftPlaceD<N>(a: N, b: N, c: N, d: N, e: N)
    requires Differ5(a, b, c, d, e)
    ensures Placeable([c, e, a, b], Lifted(a, b, c, d, e), Some(b))
    ensures Place([d, c, e, a, b], Lifted(a, b, c, d, e), d, Some(b)) == [d, c, e, a, b]
  {
    LiftEnds(a, b, c, d, e);
    assert [d, c, e, a, b][1..] == [c, e, a, b];
    PlaceBefore([d, c, e, a, b], Lifted(a, b, c, d, e), d, Some(b));
  }

  /** Then `b` goes to the end, after the block of `a`, and `d` stays
      where it is, just before `c`. */
  lemma LiftStepB<N>(a: N, b: N, c: N, d: N, e: N)
    requires Differ5(a, b, c, d, e)
    requires Relistable([b, d, c, e, a], Lifted(a, b, c, d, e), [Item(b, [Item(d, [])])], Some(a))
    ensures RelistAll([b, d, c, e, a], Lifted(a, b, c, d, e), [Item(b, [Item(d, [])])], Some(a)) ==
      [d, c, e, a, b]
  {
    var L := Lifted(a, b, c, d, e);
    RotateFirst5(b, d, c, e, a);
    LiftEnds(a, b, c, d, e);
    RelistAtEnd([b, d, c, e, a], L, Item(b, [Item(d, [])]), Some(a));
    RelistOne([d, c, e, a, b], L, Item(d, []), Some(b));
    LiftPlaceD(a, b, c, d, e);
    RelistNone([d, c, e, a, b], L, Some(d));
  }

  /** Last, `c` goes to the end, after the block of `a`. */
  lemma LiftStepC<N>(a: N, b: N, c: N, d: N, e: N)
    requires Differ5(a, b, c, d, e)
    requires Relistable([d, c, e, a, b], Lifted(a, b, c, d, e), [Item(c, [])], Some(a))
    ensures RelistAll([d, c, e, a, b], Lifted(a, b, c, d, e), [Item(c, [])], Some(a)) == [d, e, a, b, c]
  {
    RotateSecond5(d, c, e, a, b);
    LiftEnds(a, b, c, d, e);
    RelistAtEnd([d, c, e, a, b], Lifted(a, b, c, d, e), Item(c, []), Some(a));
    RelistNone([d, e, a, b, c], Lifted(a, b, c, d, e), Some(c));
  }

  /** `reparent(a, e)` as written relists `a`, `b`, `d` and `c` in turn,
      and leaves `d` in front of `e`: the render list is no longer the
      pre-order `e a b d c` of the tree. */
  lemma RelistOutOfOrder<N>(a: N, b: N, c: N, d: N, e: N)
    requires Differ5(a, b, c, d, e)
    ensures Flat(Lifted(a, b, c, d, e)) == [e, a, b, d, c]
    ensures Relistable([a, b, d, c, e], Lifted(a, b, c, d, e), [SubOf(Lifted(a, b, c, d, e), a)], Some(e))
    ensures RelistAll([a, b, d, c, e], Lifted(a, b, c, d, e), [SubOf(Lifted(a, b, c, d, e), a)], Some(e)) ==
      [d, e, a, b, c]
    ensures Flat(Lifted(a, b, c, d, e)) != [d, e, a, b, c]
  {
    var L := Lifted(a, b, c, d, e);
    var bd, cc := Item(b, [Item(d, [])]), Item(c, []);
    LiftStart(a, b, c, d, e);
    LiftStepA(a, b, c, d, e);
    var s1 := [b, d, c, e, a];
    assert Tuft(a, b, c, d).kids == [bd, cc];
    PairParts(bd, cc);
    RelistStep(s1, L, [bd, cc], Some(a));
    LiftStepB(a, b, c, d, e);
    LiftStepC(a, b, c, d, e);
    LiftFlat(a, b, c, d, e);
  }

  /** Taking the block `a b d c` out of `a b d c e` leaves `e`. */
  lemma LiftRest<N>(a: N, b: N, c: N, d: N, e: N)
    requires Differ5(a, b, c, d, e)
    ensures a in Flat(Lifted(a, b, c, d, e))
    ensures Without([a, b, d, c, e], BlockSet(Lifted(a, b, c, d, e), a)) == [e]
  {
    LiftEnds(a, b, c, d, e);
    var B := BlockSet(Lifted(a, b, c, d, e), a);
    assert a in B && b in B && d in B && c in B && e !in B;
    assert Without([e], B) == [e];
    WithoutDrop(c, [e], B);
    WithoutDrop(d, [c, e], B);
    WithoutDrop(b, [d, c, e], B);
    WithoutDrop(a, [b, d, c, e], B);
  }

  /** The corrected relisting of the same move takes `a b d c` out, which
      leaves `e`, and puts the block back after the block of `e`: the
      pre-order of the tree. */
  lemma RelistInOrder<N>(a: N, b: N, c: N, d: N, e: N)
    requires Differ5(a, b, c, d, e)
    ensures a in Flat(Lifted(a, b, c, d, e))
    ensures var rest := Without([a, b, d, c, e], BlockSet(Lifted(a, b, c, d, e), a));
      && rest == [e] && Placeable(rest, Lifted(a, b, c, d, e), Some(e))
      && Splice(rest, AddPos(rest, Lifted(a, b, c, d, e), Some(e)), Block(Lifted(a, b, c, d, e), a))
         == [e, a, b, d, c]
      && Flat(Lifted(a, b, c, d, e)) == [e, a, b, d, c]
  {
    var L := Lifted(a, b, c, d, e);
    LiftEnds(a, b, c, d, e);
    LiftRest(a, b, c, d, e);
    var rest := Without([a, b, d, c, e], BlockSet(L, a));
    assert AddPos(rest, L, Some(e)) == 1;
    SpliceEnd(rest, Block(L, a));
    assert Splice(rest, AddPos(rest, L, Some(e)), Block(L, a)) == [e] + [a, b, d, c];
    PrependFour(e, [a, b, d, c]);
  }

  // -------------------------------------------------------------------
  // The docstrings, run on `Tree`

  /** `add(n, parent=k)` on a tree whose render list is in pre-order, for
      a node not yet in it and a parent that is. */
  method AddLeaf<N(==)>(t: Tree<N>, n: N, k: Option<N>)
    requires t.Ordered() && n !in Flat(t.shape) && InTree(t.shape, k)
    modifies t
    ensures t.Ordered() && t.Valid() && t.shape == Attach(old(t.shape), k, Item(n, []))
  {
    KeysIn(t.shape, Some(n));
    KeysIn(t.shape, k);
    var _ := t.Add(n, k);
  }

  /** `add(a)`, `add(b, parent=a)`: the start of the trees of the
      docstrings. */
  method NewLine<N(==)>(a: N, b: N) returns (t: Tree<N>)
    requires a != b
    ensures fresh(t) && t.Ordered() && t.Valid() && t.shape == [Item(a, [Item(b, [])])]
  {
    t := new Tree<N>();
    ThreeAdded(a, b, b);
    Leaf(a);
    AddLeaf(t, a, None);
    assert t.shape == [Item(a, [])];
    AddLeaf(t, b, Some(a));
  }

  /** The tree of the first docstrings: `add(a)`, `add(b, parent=a)`,
      `add(c, parent=a)`. */
  method NewThree<N(==)>(a: N, b: N, c: N) returns (t: Tree<N>)
    requires Differ3(a, b, c)
    ensures fresh(t) && t.Ordered() && t.Valid() && t.shape == Three(a, b, c) && t.nodes == [a, b, c]
  {
    t := NewLine(a, b);
    ThreeAdded(a, b, c);
    Single(a, Item(b, []));
    AddLeaf(t, c, Some(a));
    ThreeFacts(a, b, c);
  }

  /** The tree of the `get_all_children` and `get_ancestors` docstrings:
      `add(a)`, `add(b, parent=a)`, `add(c, parent=b)`. */
  method NewChain<N(==)>(a: N, b: N, c: N) returns (t: Tree<N>)
    requires Differ3(a, b, c)
    ensures fresh(t) && t.Ordered() && t.Valid() && t.shape == Chain(a, b, c) && t.nodes == [a, b, c]
  {
    t := NewLine(a, b);
    Single(a, Item(b, []));
    assert b in Flat(t.shape);
    AddLeaf(t, c, Some(b));
    ChainAdded(a, b, c);
    ChainFacts(a, b, c);
  }

  /** The lookups of the docstrings of `get_parent`, `get_children`,
      `get_siblings`, `get_next_sibling` and `get_previous_sibling`, on the
      tree `a(b, c)` (the `get_parent` docstring has no `c`, which does not
      change its answer). Asking for the sibling after the last child, or
      before the first, is an `IndexError`. */
  method LookupExample<N(==)>(a: N, b: N, c: N)
    returns (parent: Option<N>, kidsA: Result<seq<N>>, kidsB: Result<seq<N>>, sibs: Result<seq<N>>,
             nextB: Result<N>, nextC: Result<N>, prevC: Result<N>, prevB: Result<N>)
    requires Differ3(a, b, c)
    ensures parent == Some(a) && kidsA == Ok([b, c]) && kidsB == Ok([]) && sibs == Ok([b, c])
    ensures nextB == Ok(c) && nextC == Err(IndexError) && prevC == Ok(b) && prevB == Err(IndexError)
  {
    var t := NewThree(a, b, c);
    ThreeFacts(a, b, c);
    parent := t.GetParent(b);
    kidsA := t.GetChildren(Some(a));
    kidsB := t.GetChildren(Some(b));
    sibs := t.GetSiblings(b);
    nextB := t.GetNextSibling(b);
    nextC := t.GetNextSibling(c);
    prevC := t.GetPreviousSibling(c);
    prevB := t.GetPreviousSibling(b);
  }

  /** The docstrings of `get_all_children` and `get_ancestors`, on the tree
      `a(b(c))`: the ancestors of `c` nearest first, and none for the
      top-level `a`. */
  method WalkExample<N(==)>(a: N, b: N, c: N)
    returns (kids: Result<seq<N>>, below: Result<seq<N>>, parent: Option<N>, upC: seq<N>, upA: seq<N>)
    requires Differ3(a, b, c)
    ensures kids == Ok([b]) && below == Ok([b, c]) && parent == Some(b) && upC == [b, a] && upA == []
  {
    var t := NewChain(a, b, c);
    ChainFacts(a, b, c);
    kids := t.GetChildren(Some(a));
    below := t.GetAllChildren(Some(a));
    parent := t.GetParent(c);
    upC := t.GetAncestors(c);
    upA := t.GetAncestors(a);
  }

  /** `reparent(b, c)` on the tree `a(b, c)`, then the parent of `b` and
      the children of `c`. */
  method ReparentFirst<N(==)>(t: Tree<N>, a: N, b: N, c: N) returns (parent: Option<N>, kids: Result<seq<N>>)
    requires Differ3(a, b, c)
    requires t.Valid() && t.shape == Three(a, b, c) && t.nodes == [a, b, c]
    modifies t
    ensures t.Valid() && t.shape == Moved(a, b, c) && t.nodes == [a, c, b]
    ensures parent == Some(c) && kids == Ok([b])
  {
    FirstMove(a, b, c);
    KeysIn(t.shape, Some(c));
    ThreeFacts(a, b, c);
    var _ := t.Reparent(b, Some(c));
    MovedFacts(a, b, c);
    FirstRelist(a, b, c);
    parent := t.GetParent(b);
    kids := t.GetChildren(Some(c));
  }

  /** `add(d)` after it. */
  method AddFour<N(==)>(t: Tree<N>, a: N, b: N, c: N, d: N)
    requires Differ4(a, b, c, d)
    requires t.Valid() && t.shape == Moved(a, b, c) && t.nodes == [a, c, b]
    modifies t
    ensures t.Valid() && t.shape == Four(a, b, c, d) && t.nodes == [a, c, b, d]
  {
    MovedFacts(a, b, c);
    FourAdded(a, b, c, d);
    AddLeaf(t, d, None);
  }

  /** `reparent(a, d)` after that, then the parent of `a` and everything
      below `d`. */
  method ReparentSecond<N(==)>(t: Tree<N>, a: N, b: N, c: N, d: N) returns (parent: Option<N>, below: Result<seq<N>>)
    requires Differ4(a, b, c, d)
    requires t.Valid() && t.shape == Four(a, b, c, d) && t.nodes == [a, c, b, d]
    modifies t
    ensures t.Valid() && t.shape == Five(a, b, c, d) && t.nodes == [d, a, c, b]
    ensures parent == Some(d) && below == Ok([a, c, b])
  {
    SecondMove(a, b, c, d);
    KeysIn(t.shape, Some(d));
    var _ := t.Reparent(a, Some(d));
    SecondRelist(a, b, c, d);
    FiveFacts(a, b, c, d);
    parent := t.GetParent(a);
    below := t.GetAllChildren(Some(d));
  }

  /** The `reparent` docstring: the render list after each step, the new
      parents, the children of `c` and all descendants of `d`. */
  method ReparentExample<N(==)>(a: N, b: N, c: N, d: N)
    returns (before: seq<N>, parentB: Option<N>, kidsC: Result<seq<N>>, after1: seq<N>, added: seq<N>,
             parentA: Option<N>, belowD: Result<seq<N>>, after2: seq<N>)
    requires Differ4(a, b, c, d)
    ensures before == [a, b, c] && parentB == Some(c) && kidsC == Ok([b]) && after1 == [a, c, b]
    ensures added == [a, c, b, d] && parentA == Some(d) && belowD == Ok([a, c, b]) && after2 == [d, a, c, b]
  {
    var t := NewThree(a, b, c);
    before := t.nodes;
    parentB, kidsC := ReparentFirst(t, a, b, c);
    after1 := t.nodes;
    AddFour(t, a, b, c, d);
    added := t.nodes;
    parentA, belowD := ReparentSecond(t, a, b, c, d);
    after2 := t.nodes;
  }

  /** The tree `a(b(d), c), e`, built by `add(a)`, `add(b, parent=a)`,
      `add(c, parent=a)`, `add(d, parent=b)`, `add(e)`. */
  method NewBush<N(==)>(a: N, b: N, c: N, d: N, e: N) returns (t: Tree<N>)
    requires Differ5(a, b, c, d, e)
    ensures fresh(t) && t.Ordered() && t.Valid() && t.shape == Bush(a, b, c, d, e)
    ensures t.nodes == [a, b, d, c, e]
  {
    t := NewTuft(a, b, c, d);
    TuftFlat(a, b, c, d);
    AddLeaf(t, e, None);
    BushAdded(a, b, c, d, e);
    BushFacts(a, b, c, d, e);
  }

  /** `NewThree` and then `add(d, parent=b)`. */
  method NewTuft<N(==)>(a: N, b: N, c: N, d: N) returns (t: Tree<N>)
    requires Differ4(a, b, c, d)
    ensures fresh(t) && t.Ordered() && t.Valid() && t.shape == [Tuft(a, b, c, d)]
  {
    t := NewThree(a, b, c);
    ThreeFacts(a, b, c);
    AddLeaf(t, d, Some(b));
    TuftAdded(a, b, c, d);
  }

  /** `reparent(a, e)` on that tree: the render list becomes `d e a b c`,
      which is not the pre-order `e a b d c` of the new tree. */
  method FindingAsWritten<N(==)>(a: N, b: N, c: N, d: N, e: N) returns (nodes: seq<N>)
    requires Differ5(a, b, c, d, e)
    ensures nodes == [d, e, a, b, c]
  {
    BushFacts(a, b, c, d, e);
    var t := NewBush(a, b, c, d, e);
    KeysIn(t.shape, Some(e));
    ghost var before := t.nodes;
    var _ := t.Reparent(a, Some(e));
    ghost var L := Lifted(a, b, c, d, e);
    assert t.shape == L;
    assert t.nodes == RelistAll(before, L, [SubOf(L, a)], Some(e));
    RelistOutOfOrder(a, b, c, d, e);
    nodes := t.nodes;
  }

  /** The same move with the corrected relisting gives the pre-order. */
  method FindingInOrder<N(==)>(a: N, b: N, c: N, d: N, e: N) returns (nodes: seq<N>)
    requires Differ5(a, b, c, d, e)
    ensures nodes == [e, a, b, d, c]
  {
    BushFacts(a, b, c, d, e);
    var t := NewBush(a, b, c, d, e);
    KeysIn(t.shape, Some(e));
    var _ := t.ReparentInOrder(a, Some(e));
    LiftFlat(a, b, c, d, e);
    nodes := t.nodes;
  }

  // -------------------------------------------------------------------
  // The `TreeSorter` docstring

  /** The tree of the `TreeSorter` docstring: `add(x)`, `add(y)`,
      `add(z, parent=x)`, with the render list `x z y`. */
  method NewPair<N(==)>(x: N, y: N, z: N) returns (t: Tree<N>)
    requires Differ3(x, y, z)
    ensures fresh(t) && t.Valid() && t.nodes == [x, z, y]
  {
    t := new Tree<N>();
    Leaf(x);
    AddLeaf(t, x, None);
    assert t.shape == [Item(x, [])];
    AddLeaf(t, y, None);
    assert t.shape == [Item(x, []), Item(y, [])];
    Leaves(x, y);
    AddLeaf(t, z, Some(x));
    PairAdded(x, y, z);
  }

  /** The forest `x(z), y` those adds build. */
  lemma PairAdded<N>(x: N, y: N, z: N)
    requires Differ3(x, y, z)
    ensures Attach([Item(x, []), Item(y, [])], Some(x), Item(z, [])) == [Item(x, [Item(z, [])]), Item(y, [])]
    ensures Flat([Item(x, [Item(z, [])]), Item(y, [])]) == [x, z, y]
  {
    var f := [Item(x, []), Item(y, [])];
    Leaves(x, y);
    assert f[1..] == [Item(y, [])];
    assert SubOf(f, x) == Item(x, []);
    assert KidItems(f, Some(x)) + [Item(z, [])] == [Item(z, [])];
    assert SetKids(f, x, [Item(z, [])]) == [Item(x, [Item(z, [])])] + [Item(y, [])];
    Single(x, Item(z, []));
    Leaf(y);
    FlatAppend([Item(x, [Item(z, [])])], [Item(y, [])]);
  }

  /** `sorted` of a list with one more item at the end inserts that item
      into the sorted rest. */
  lemma SortLast<N>(s: seq<N>, x: N, key: map<N, nat>, reverse: bool)
    requires Keyed(s + [x], key)
    ensures Keyed(s, key) && x in key
    ensures SortByKey(s + [x], key, reverse) == InsertByKey(x, SortByKey(s, key, reverse), key, reverse)
  {
    var t := s + [x];
    assert t[..|t| - 1] == s && t[|t| - 1] == x;
    assert forall i :: 0 <= i < |s| ==> s[i] == t[i];
  }

  /** An item whose key is smaller than the first key goes in front. */
  lemma InsertFront<N>(x: N, s: seq<N>, key: map<N, nat>)
    requires x in key && Keyed(s, key) && SortedBy(s, key, false) && s != []
    requires key[x] < key[s[0]]
    ensures InsertByKey(x, s, key, false) == [x] + s
  {
  }

  /** Sorting one item leaves it alone. */
  lemma SortOne<N>(y: N, key: map<N, nat>)
    requires y in key
    ensures Keyed([y], key) && SortByKey([y], key, false) == [y]
  {
    assert [y] == [] + [y];
    SortLast([], y, key, false);
  }

  /** Sorting `y z` by the keys `z: 1, y: 2`, ascending. */
  lemma SortTwo<N>(y: N, z: N, key: map<N, nat>)
    requires y in key && z in key && key[z] == 1 && key[y] == 2
    ensures Keyed([y, z], key) && SortByKey([y, z], key, false) == [z, y]
  {
    assert [y, z] == [y] + [z];
    SortOne(y, key);
    SortLast([y], z, key, false);
    InsertFront(z, [y], key);
    PrependOne(z, y);
  }

  /** Sorting `y z x` by the keys `x: 0, z: 1, y: 2`, ascending. */
  lemma SortThree<N>(x: N, y: N, z: N, key: map<N, nat>)
    requires x in key && y in key && z in key && key[x] == 0 && key[z] == 1 && key[y] == 2
    ensures Keyed([y, z, x], key) && SortByKey([y, z, x], key, false) == [x, z, y]
  {
    assert [y, z, x] == [y, z] + [x];
    SortTwo(y, z, key);
    SortLast([y, z], x, key, false);
    InsertFront(x, [z, y], key);
    assert SortByKey([y, z] + [x], key, false) == [x] + [z, y];
    PrependTwo(x, z, y);
  }

  /** The `TreeSorter` docstring: after `reindex()`, sorting `y z x` gives
      the render order `x z y`. */
  method SortExample<N(==)>(x: N, y: N, z: N) returns (nodes: seq<N>, sorted: Result<seq<N>>)
    requires Differ3(x, y, z)
    ensures nodes == [x, z, y] && sorted == Ok([x, z, y])
  {
    var t := NewPair(x, y, z);
    nodes := t.nodes;
    var sorter := new TreeSorter(t);
    sorter.Reindex();
    assert nodes[0] == x && nodes[1] == z && nodes[2] == y;
    SortThree(x, y, z, sorter.keys);
    sorted := sorter.Sort([y, z, x], false);
  }
}
