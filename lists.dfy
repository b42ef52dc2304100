/** Python list operations the tree relies on (`index`, `remove`, `insert`),
    a filter that drops a set of elements, and the facts about them that the
    proofs use. */
module Lists {

  import opened Results

  /** No element occurs twice. */
  ghost predicate Distinct<T>(s: seq<T>) {
    forall i, j :: 0 <= i < j < |s| ==> s[i] != s[j]
  }

  /** `s.index(x)`: the position of the first occurrence of `x`. */
  function IndexOf<T(==)>(s: seq<T>, x: T): (i: nat)
    requires x in s
    ensures i < |s| && s[i] == x && x !in s[..i]
  {
    if s[0] == x then 0 else 1 + IndexOf(s[1..], x)
  }

  /** `s.remove(x)`: `s` without the first occurrence of `x`. */
  function RemoveFirst<T(==)>(s: seq<T>, x: T): (r: seq<T>)
    requires x in s
    ensures r == s[..IndexOf(s, x)] + s[IndexOf(s, x) + 1..]
  {
    if s[0] == x then s[1..] else [s[0]] + RemoveFirst(s[1..], x)
  }

  /** `s.insert(i, x)` for a position `i` inside the list or at its end. */
  function Insert<T>(s: seq<T>, i: nat, x: T): (r: seq<T>)
    requires i <= |s|
    ensures |r| == |s| + 1 && r[i] == x && r[..i] == s[..i] && r[i + 1..] == s[i..]
  {
    s[..i] + [x] + s[i..]
  }

  /** `s[i:i] = b`: the list `b` put into `s` at position `i`. */
  function Splice<T>(s: seq<T>, i: nat, b: seq<T>): (r: seq<T>)
    requires i <= |s|
    ensures |r| == |s| + |b| && multiset(r) == multiset(s) + multiset(b)
  {
    assert s == s[..i] + s[i..];
    s[..i] + b + s[i..]
  }

  /** The elements of `s` that are not in `d`, in their order. */
  function Without<T(==)>(s: seq<T>, d: set<T>): (r: seq<T>)
    ensures forall i :: 0 <= i < |r| ==> r[i] in s && r[i] !in d
    ensures forall i :: 0 <= i < |s| && s[i] !in d ==> s[i] in r
  {
    if s == [] then [] else (if s[0] in d then [] else [s[0]]) + Without(s[1..], d)
  }

  /** The element after the first occurrence of `x`, if there is one. */
  function NextIn<T(==)>(s: seq<T>, x: T): (r: Option<T>)
    requires x in s
  {
    var i := IndexOf(s, x);
    if i + 1 < |s| then Some(s[i + 1]) else None
  }

  /** The element before the first occurrence of `x`, if there is one. */
  function PreviousIn<T(==)>(s: seq<T>, x: T): (r: Option<T>)
    requires x in s
  {
    var i := IndexOf(s, x);
    if i > 0 then Some(s[i - 1]) else None
  }

  /** In a list without repeats, an element appended last has nothing
      after it. */
  lemma LastNextNone<T>(m: seq<T>, x: T)
    requires Distinct(m + [x])
    ensures x in m + [x] && NextIn(m + [x], x).None?
  {
    var s := m + [x];
    DistinctIndexOf(s, |m|);
  }

  /** Looking past a different first element. */
  lemma NextInCons<T>(a: T, s: seq<T>, x: T)
    requires x in s && x != a
    ensures IndexOf([a] + s, x) == 1 + IndexOf(s, x)
    ensures NextIn([a] + s, x) == NextIn(s, x)
    ensures PreviousIn(s, x).Some? ==> PreviousIn([a] + s, x) == PreviousIn(s, x)
  {
    assert ([a] + s)[1..] == s;
  }

  /** In a list without repeats, `y` follows `x` exactly when `x` precedes `y`. */
  lemma NextPreviousInverse<T>(s: seq<T>, x: T, y: T)
    requires Distinct(s) && x in s && y in s
    ensures NextIn(s, x) == Some(y) <==> PreviousIn(s, y) == Some(x)
  {
    var i, j := IndexOf(s, x), IndexOf(s, y);
    if i + 1 < |s| {
      DistinctIndexOf(s, i + 1);
    }
    if j > 0 {
      DistinctIndexOf(s, j - 1);
    }
  }

  /** An element of the middle part of a concatenation. */
  lemma IndexMiddle<T>(a: seq<T>, b: seq<T>, c: seq<T>, i: nat)
    requires i < |b|
    ensures (a + b + c)[|a| + i] == b[i]
  {
  }

  /** An element of the second part of `s == a + b`, found in `s`. */
  lemma IndexShift<T>(s: seq<T>, a: seq<T>, b: seq<T>, i: nat, k: nat, v: T)
    requires s == a + b && i < |b| && b[i] == v && k == |a| + i
    ensures k < |s| && s[k] == v
  {
  }

  /** An element of the middle part of `s == a + b + c`, found in `s`. */
  lemma IndexMid<T>(s: seq<T>, a: seq<T>, b: seq<T>, c: seq<T>, i: nat, k: nat, v: T)
    requires s == a + b + c && i < |b| && b[i] == v && k == |a| + i
    ensures k < |s| && s[k] == v
  {
    IndexMiddle(a, b, c, i);
  }

  /** A list is what comes before a slice, the slice, and what comes after
      it. */
  lemma SplitAround<T>(w: seq<T>, b: seq<T>, s: nat)
    requires s + |b| <= |w| && w[s..s + |b|] == b
    ensures w == w[..s] + b + w[s + |b|..]
  {
    assert w[..s + |b|] == w[..s] + w[s..s + |b|];
    assert w == w[..s + |b|] + w[s + |b|..];
  }

  lemma SplitAt<T>(s: seq<T>, i: nat)
    requires i < |s|
    ensures s == s[..i] + [s[i]] + s[i + 1..]
  {
  }

  /** Regrouping a five-part concatenation. */
  lemma Regroup5<T>(a: seq<T>, b: seq<T>, c: seq<T>, d: seq<T>, e: seq<T>)
    ensures a + (b + c + d) + e == (a + b) + c + (d + e)
  {
  }

  /** Regrouping a concatenation that has a three-part second part. */
  lemma Regroup3<T>(a: seq<T>, b: seq<T>, c: seq<T>, d: seq<T>)
    ensures a + (b + c + d) == (a + b) + c + d
  {
  }

  /** Regrouping a four-part concatenation. */
  lemma Regroup4<T>(a: seq<T>, b: seq<T>, c: seq<T>, d: seq<T>)
    ensures a + (b + c) + d == (a + b) + c + d
  {
  }

  /** Regrouping a part put in front of a four-part concatenation. */
  lemma RegroupFront<T>(a: seq<T>, p: seq<T>, x: seq<T>, k: seq<T>, q: seq<T>)
    ensures a + (p + x + k + q) == (a + p) + x + k + q
  {
  }

  /** Regrouping a four-part concatenation between two more parts. */
  lemma RegroupAround<T>(a: seq<T>, p: seq<T>, x: seq<T>, k: seq<T>, q: seq<T>, r: seq<T>)
    ensures a + (p + x + k + q) + r == (a + p) + x + k + (q + r)
  {
  }

  /** The middle part of `p + b + q` is the slice after `p`. */
  lemma MiddleSlice<T>(w: seq<T>, p: seq<T>, b: seq<T>, q: seq<T>)
    requires w == p + b + q
    ensures |p| + |b| <= |w| && w[|p|..|p| + |b|] == b
  {
    SliceMiddle(p, b, q, 0, |b|);
    assert b[0..|b|] == b;
  }

  /** Replacing what follows `x` in the middle part `[x] + k` of
      `p + ([x] + k) + q` by `m`, seen on the whole list. */
  lemma SpliceAround<T>(w: seq<T>, spliced: seq<T>, p: seq<T>, x: T, k: seq<T>, q: seq<T>, m: seq<T>)
    requires w == p + ([x] + k) + q && spliced == p + [x] + m + q
    ensures |p| < |p| + 1 + |k| <= |w|
    ensures spliced == w[..|p| + 1] + m + w[|p| + 1 + |k|..]
  {
    assert w[..|p| + 1] == p + [x];
    assert w[|p| + 1 + |k|..] == q;
  }

  /** Inserting `b` anywhere in `p + q` gives the same multiset as putting it
      between `p` and `q`. */
  lemma SpliceMultiset<T>(v: seq<T>, e: nat, b: seq<T>, p: seq<T>, q: seq<T>)
    requires e <= |v| && v == p + q
    ensures multiset(v[..e] + b + v[e..]) == multiset(p + b + q)
  {
    assert v == v[..e] + v[e..];
    assert multiset(v) == multiset(v[..e]) + multiset(v[e..]);
    assert multiset(v) == multiset(p) + multiset(q);
    assert multiset(v[..e] + b + v[e..]) == multiset(v[..e]) + multiset(b) + multiset(v[e..]);
    assert multiset(p + b + q) == multiset(p) + multiset(b) + multiset(q);
    assert multiset(v[..e]) + multiset(b) + multiset(v[e..]) == multiset(v) + multiset(b);
    assert multiset(p) + multiset(b) + multiset(q) == multiset(v) + multiset(b);
  }

  /** Moving the middle part of a list without repeats to the end keeps it
      without repeats. */
  lemma DistinctSwap<T>(a: seq<T>, b: seq<T>, c: seq<T>)
    requires Distinct(a + c + b)
    ensures Distinct(a + b + c)
  {
    assert multiset(a + b + c) == multiset(a + c + b);
    DistinctMultiset(a + b + c, a + c + b);
  }

  /** A slice inside the middle part of a concatenation. */
  lemma SliceMiddle<T>(a: seq<T>, b: seq<T>, c: seq<T>, i: nat, j: nat)
    requires i <= j <= |b|
    ensures (a + b + c)[|a| + i..|a| + j] == b[i..j]
  {
    var r := (a + b + c)[|a| + i..|a| + j];
    assert forall k :: 0 <= k < j - i ==> r[k] == b[i + k];
  }

  /** A slice that starts with `x` is `x` and the slice one further on. */
  lemma SliceTail<T>(w: seq<T>, s: nat, e: nat, x: T, r: seq<T>)
    requires s < e <= |w| && w[s..e] == [x] + r
    ensures w[s + 1..e] == r
  {
    assert w[s + 1..e] == w[s..e][1..];
  }

  /** What a slice holds, the list holds. */
  lemma SliceIn<T>(w: seq<T>, lo: nat, hi: nat, b: seq<T>)
    requires lo <= hi <= |w| && w[lo..hi] == b
    ensures forall z :: z in b ==> z in w
  {
    forall z | z in b ensures z in w {
      var i :| 0 <= i < |b| && b[i] == z;
      assert w[lo + i] == z;
    }
  }

  /** An element of a slice is the element of the list at the shifted index. */
  lemma SliceAt<T>(a: seq<T>, lo: nat, hi: nat, j: nat)
    requires lo <= hi <= |a| && j < hi - lo
    ensures a[lo..hi][j] == a[lo + j]
  {
  }

  /** In a list without repeats, the position of an element found inside a
      slice is the slice's start plus its offset there. */
  lemma IndexInSlice<T>(s: seq<T>, lo: nat, b: seq<T>, j: nat)
    requires Distinct(s) && lo + |b| <= |s| && s[lo..lo + |b|] == b && j < |b|
    ensures b[j] in s && IndexOf(s, b[j]) == lo + j
  {
    SliceAt(s, lo, lo + |b|, j);
    DistinctIndexOf(s, lo + j);
  }

  lemma DistinctSlice<T>(s: seq<T>, lo: nat, hi: nat)
    requires Distinct(s) && lo <= hi <= |s|
    ensures Distinct(s[lo..hi])
  {
    forall i, j | 0 <= i < j < hi - lo ensures s[lo..hi][i] != s[lo..hi][j] {
      SliceAt(s, lo, hi, i);
      SliceAt(s, lo, hi, j);
    }
  }

  lemma TakeAll<T>(s: seq<T>, n: nat)
    requires n == |s|
    ensures s[..n] == s
  {
  }

  /** Two maps with the same keys and the same value at each key are equal. */
  lemma MapsEqual<K, V>(a: map<K, V>, b: map<K, V>)
    requires forall z :: (z in a <==> z in b) && (z in a ==> a[z] == b[z])
    ensures a == b
  {
    assert a.Keys == b.Keys;
  }

  /** Adding an entry for a new key and dropping it again changes nothing. */
  lemma MapAddDrop<K, V>(q: map<K, V>, x: K, v: V, add: bool)
    requires x !in q
    ensures (if add then q[x := v] else q) - {x} == q
  {
    var r := (if add then q[x := v] else q) - {x};
    assert forall y :: y in r <==> y in q;
    MapsEqual(r, q);
  }

  lemma MapMinusUnion<K, V>(q: map<K, V>, a: set<K>, b: set<K>)
    ensures q - a - b == q - (a + b)
  {
    MapsEqual(q - a - b, q - (a + b));
  }

  /** An entry of a map of lists after `x` moves from the list at `p` to
      the end of the list at `k`. */
  lemma MoveEntry<K, V>(c: map<K, seq<V>>, v: seq<V>, p: K, k: K, z: K, x: V)
    requires p in c && k in c && z in c && x in v
    ensures var c1 := c[p := RemoveFirst(v, x)];
      var m1 := if z == p then RemoveFirst(v, x) else c[z];
      c1[k := c1[k] + [x]][z] == if z == k then m1 + [x] else m1
  {
  }

  lemma MapUpdateMinus<K, V>(m: map<K, V>, p: K, v: V, x: K)
    requires p != x
    ensures m[p := v] - {x} == (m - {x})[p := v]
  {
    MapsEqual(m[p := v] - {x}, (m - {x})[p := v]);
  }

  lemma DistinctAppend<T>(a: seq<T>, b: seq<T>)
    ensures Distinct(a + b) <==> Distinct(a) && Distinct(b) && (forall x :: x in a ==> x !in b)
  {
    if Distinct(a + b) {
      forall i, j | 0 <= i < |a| && 0 <= j < |b| ensures a[i] != b[j] {
        assert a[i] == (a + b)[i] && b[j] == (a + b)[|a| + j];
      }
      forall i, j | 0 <= i < j < |a| ensures a[i] != a[j] {
        assert a[i] == (a + b)[i] && a[j] == (a + b)[j];
      }
      forall i, j | 0 <= i < j < |b| ensures b[i] != b[j] {
        assert b[i] == (a + b)[|a| + i] && b[j] == (a + b)[|a| + j];
      }
    }
    if Distinct(a) && Distinct(b) && (forall x :: x in a ==> x !in b) {
      forall i, j | 0 <= i < j < |a + b| ensures (a + b)[i] != (a + b)[j] {
        if j < |a| {
        } else if i >= |a| {
          assert (a + b)[i] == b[i - |a|] && (a + b)[j] == b[j - |a|];
        } else {
          assert (a + b)[i] in a && (a + b)[j] == b[j - |a|];
        }
      }
    }
  }

  /** The middle part of a list without repeats has none, and shares no
      element with the outer parts. */
  lemma DistinctMiddle<T>(a: seq<T>, b: seq<T>, c: seq<T>)
    requires Distinct(a + b + c)
    ensures Distinct(b) && forall z :: z in b ==> z !in a && z !in c
  {
    DistinctAppend(a + b, c);
    DistinctAppend(a, b);
  }

  lemma DistinctIndexOf<T>(s: seq<T>, i: nat)
    requires Distinct(s) && i < |s|
    ensures IndexOf(s, s[i]) == i
  {
    var k := IndexOf(s, s[i]);
    assert s[k] == s[i];
  }

  /** A list with the same elements as a list without repeats has none either. */
  lemma DistinctMultiset<T>(a: seq<T>, b: seq<T>)
    requires multiset(a) == multiset(b) && Distinct(b)
    ensures Distinct(a)
  {
    DistinctCounts(b);
    CountsDistinct(a);
  }

  lemma DistinctCounts<T>(s: seq<T>)
    requires Distinct(s)
    ensures forall x :: multiset(s)[x] <= 1
  {
    if s != [] {
      assert s == [s[0]] + s[1..];
      DistinctAppend([s[0]], s[1..]);
      DistinctCounts(s[1..]);
    }
  }

  lemma CountsDistinct<T>(s: seq<T>)
    requires forall x :: multiset(s)[x] <= 1
    ensures Distinct(s)
  {
    if s != [] {
      assert s == [s[0]] + s[1..];
      assert multiset(s) == multiset{s[0]} + multiset(s[1..]);
      forall x ensures multiset(s[1..])[x] <= 1 {
        assert multiset(s)[x] == multiset{s[0]}[x] + multiset(s[1..])[x];
      }
      CountsDistinct(s[1..]);
      assert multiset(s)[s[0]] == 1 + multiset(s[1..])[s[0]];
      DistinctAppend([s[0]], s[1..]);
    }
  }

  lemma RemoveFirstMultiset<T>(s: seq<T>, x: T)
    requires x in s
    ensures multiset(RemoveFirst(s, x)) == multiset(s) - multiset{x}
  {
    var i := IndexOf(s, x);
    assert s == s[..i] + [x] + s[i + 1..];
  }

  lemma InsertMultiset<T>(s: seq<T>, i: nat, x: T)
    requires i <= |s|
    ensures multiset(Insert(s, i, x)) == multiset(s) + multiset{x}
  {
    assert s == s[..i] + s[i..];
  }

  lemma WithoutAppend<T>(a: seq<T>, b: seq<T>, d: set<T>)
    ensures Without(a + b, d) == Without(a, d) + Without(b, d)
  {
    if a != [] {
      var h := if a[0] in d then [] else [a[0]];
      assert (a + b)[0] == a[0] && (a + b)[1..] == a[1..] + b;
      assert Without(a + b, d) == h + Without(a[1..] + b, d);
      WithoutAppend(a[1..], b, d);
    } else {
      assert a + b == b;
    }
  }

  lemma WithoutDisjoint<T>(s: seq<T>, d: set<T>)
    requires forall x :: x in s ==> x !in d
    ensures Without(s, d) == s
  {
    if s != [] {
      WithoutDisjoint(s[1..], d);
    }
  }

  lemma WithoutCovered<T>(s: seq<T>, d: set<T>)
    requires forall x :: x in s ==> x in d
    ensures Without(s, d) == []
  {
  }

  lemma WithoutTwice<T>(s: seq<T>, a: set<T>, b: set<T>)
    ensures Without(Without(s, a), b) == Without(s, a + b)
  {
    if s != [] {
      WithoutTwice(s[1..], a, b);
      var h := if s[0] in a then [] else [s[0]];
      WithoutAppend(h, Without(s[1..], a), b);
    }
  }

  /** On a list without repeats, removing `x` after the elements of `a` is
      leaving out `x` and those elements together. */
  lemma WithoutThenRemove<T>(s: seq<T>, a: set<T>, x: T)
    requires Distinct(s) && x in s && x !in a
    ensures x in Without(s, a)
    ensures RemoveFirst(Without(s, a), x) == Without(s, a + {x})
  {
    assert s[IndexOf(s, x)] !in a;
    WithoutDistinct(s, a);
    RemoveFirstIsWithout(Without(s, a), x);
    WithoutTwice(s, a, {x});
  }

  /** On a list without repeats, `remove` drops exactly the element asked for. */
  lemma RemoveFirstIsWithout<T>(s: seq<T>, x: T)
    requires Distinct(s) && x in s
    ensures RemoveFirst(s, x) == Without(s, {x})
  {
    assert s == [s[0]] + s[1..];
    DistinctAppend([s[0]], s[1..]);
    if s[0] == x {
      WithoutDisjoint(s[1..], {x});
    } else {
      RemoveFirstIsWithout(s[1..], x);
    }
  }

  /** Inserting a fresh element and filtering it out again gives back the list. */
  lemma WithoutInsert<T>(s: seq<T>, i: nat, x: T)
    requires i <= |s| && x !in s
    ensures Without(Insert(s, i, x), {x}) == s
  {
    if i == 0 {
      assert Insert(s, i, x) == [x] + s;
      WithoutDisjoint(s, {x});
    } else {
      assert Insert(s, i, x) == [s[0]] + Insert(s[1..], i - 1, x);
      WithoutInsert(s[1..], i - 1, x);
    }
  }

  lemma WithoutDistinct<T>(s: seq<T>, d: set<T>)
    requires Distinct(s)
    ensures Distinct(Without(s, d))
  {
    if s != [] {
      DistinctAppend([s[0]], s[1..]);
      assert s == [s[0]] + s[1..];
      WithoutDistinct(s[1..], d);
      DistinctAppend(if s[0] in d then [] else [s[0]], Without(s[1..], d));
    }
  }

  /** How often `Without(s, d)` holds each value. */
  lemma {:induction false} WithoutCount<T>(s: seq<T>, d: set<T>, y: T)
    ensures multiset(Without(s, d))[y] == if y in d then 0 else multiset(s)[y]
  {
    if s != [] {
      WithoutCount(s[1..], d, y);
      assert s == [s[0]] + s[1..];
    }
  }

  /** Lists with the same elements keep the same elements after `Without`. */
  lemma WithoutMultiset<T>(a: seq<T>, b: seq<T>, d: set<T>)
    requires multiset(a) == multiset(b)
    ensures multiset(Without(a, d)) == multiset(Without(b, d))
  {
    forall y ensures multiset(Without(a, d))[y] == multiset(Without(b, d))[y] {
      WithoutCount(a, d, y);
      WithoutCount(b, d, y);
    }
  }

  /** The element just after the middle part of `s == a + b + c`. */
  lemma IndexAfter<T>(s: seq<T>, a: seq<T>, b: seq<T>, c: seq<T>, k: nat)
    requires s == a + b + c && c != [] && k == |a| + |b|
    ensures k < |s| && s[k] == c[0]
  {
  }

  /** Cutting the middle part `b` out of `w == a + b + c`: a list holding
      the rest, together with `b`, holds what `w` holds, and the element
      that followed `b` is in it. */
  lemma CutMiddle<T>(w: seq<T>, a: seq<T>, b: seq<T>, c: seq<T>, rest: seq<T>)
    requires w == a + b + c && multiset(rest) == multiset(a + c)
    ensures multiset(rest) + multiset(b) == multiset(w)
    ensures |a| + |b| < |w| ==> w[|a| + |b|] in rest
  {
    if |a| + |b| < |w| {
      IndexAfter(w, a, b, c, |a| + |b|);
      assert c[0] in multiset(a + c);
    }
  }

  /** Putting `b` back into a list without repeats `p` where it left:
      the element after `b` is found at the place `b` went. */
  lemma SpliceBack<T>(m: seq<T>, p: seq<T>, b: seq<T>, e: nat)
    requires e <= |p| && m == p[..e] + b + p[e..] && Distinct(p)
    ensures e + |b| < |m| ==> m[e + |b|] in p && IndexOf(p, m[e + |b|]) == e
    ensures e + |b| >= |m| ==> e == |p|
    ensures Splice(p, e, b) == m
  {
    if e + |b| < |m| {
      IndexAfter(m, p[..e], b, p[e..], e + |b|);
      DistinctIndexOf(p, e);
    }
  }
}
