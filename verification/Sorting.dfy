// Sorting with duplicates dropped, under an order that is total on what is sorted: the list
// is then a function of the set, and the set of the list.

module Sorting {

  ghost function Elements<T(!new)>(s: seq<T>): set<T> {
    set x | x in s
  }

  // `less` is a strict total order on `all`.
  ghost predicate Orders<T(!new)>(less: (T, T) -> bool, all: set<T>) {
    && (forall x, y | x in all && y in all && x != y :: less(x, y) != less(y, x))
    && (forall x, y, z | x in all && y in all && z in all && less(x, y) && less(y, z) && x != y && y != z ::
          x != z && less(x, z))
  }

  function Insert<T(==)>(x: T, sorted: seq<T>, less: (T, T) -> bool): seq<T> {
    if sorted == [] then [x]
    else if x == sorted[0] then sorted
    else if less(x, sorted[0]) then [x] + sorted
    else [sorted[0]] + Insert(x, sorted[1..], less)
  }

  function SortDedup<T(==)>(s: seq<T>, less: (T, T) -> bool): seq<T> {
    if s == [] then [] else Insert(s[0], SortDedup(s[1..], less), less)
  }

  // Each element is before all that follow it.
  ghost predicate Increasing<T(!new)>(s: seq<T>, less: (T, T) -> bool) {
    s != [] ==> (forall y | y in s[1..] :: y != s[0] && less(s[0], y)) && Increasing(s[1..], less)
  }

  lemma {:induction false} InsertSorts<T(!new)>(x: T, sorted: seq<T>, less: (T, T) -> bool, all: set<T>)
    requires Orders(less, all) && x in all && (forall y | y in sorted :: y in all) && Increasing(sorted, less)
    ensures Increasing(Insert(x, sorted, less), less)
    ensures forall y :: y in Insert(x, sorted, less) <==> y == x || y in sorted
  {
    if sorted != [] && x != sorted[0] {
      var rest := sorted[1..];
      assert sorted == [sorted[0]] + rest;
      if less(x, sorted[0]) {
        assert ([x] + sorted)[1..] == sorted;
      } else {
        assert sorted[0] in sorted;
        InsertSorts(x, rest, less, all);
        assert ([sorted[0]] + Insert(x, rest, less))[1..] == Insert(x, rest, less);
      }
    } else if sorted == [] {
      assert [x][1..] == [];
    }
  }

  lemma {:induction false} SortDedupSorts<T(!new)>(s: seq<T>, less: (T, T) -> bool, all: set<T>)
    requires Orders(less, all) && forall y | y in s :: y in all
    ensures Increasing(SortDedup(s, less), less)
    ensures forall y :: y in SortDedup(s, less) <==> y in s
  {
    if s != [] {
      assert s == [s[0]] + s[1..];
      assert s[0] in s;
      SortDedupSorts(s[1..], less, all);
      InsertSorts(s[0], SortDedup(s[1..], less), less, all);
    }
  }

  // Two increasing lists of the same elements are one list.
  lemma {:induction false} IncreasingOnce<T(!new)>(s: seq<T>, t: seq<T>, less: (T, T) -> bool, all: set<T>)
    requires Orders(less, all) && (forall y | y in s :: y in all)
    requires Increasing(s, less) && Increasing(t, less) && forall y :: y in s <==> y in t
    ensures s == t
  {
    if s == [] {
      assert forall i | 0 <= i < |t| :: t[i] in t;
    } else {
      assert s[0] in s && s[0] in t;
      assert t == [t[0]] + t[1..] && s == [s[0]] + s[1..];
      assert t[0] in t && t[0] in s;
      assert s[0] == t[0];
      forall y ensures y in s[1..] <==> y in t[1..] {
        assert y in s <==> y == s[0] || y in s[1..];
        assert y in t <==> y == t[0] || y in t[1..];
      }
      IncreasingOnce(s[1..], t[1..], less, all);
    }
  }

  // Sorted and deduplicated, two lists are equal exactly when they hold the same elements.
  lemma SortDedupIsSet<T(!new)>(s: seq<T>, t: seq<T>, less: (T, T) -> bool)
    requires Orders(less, Elements(s) + Elements(t))
    ensures SortDedup(s, less) == SortDedup(t, less) <==> Elements(s) == Elements(t)
  {
    var all := Elements(s) + Elements(t);
    SortDedupSorts(s, less, all);
    SortDedupSorts(t, less, all);
    if Elements(s) == Elements(t) {
      forall y ensures y in SortDedup(s, less) <==> y in SortDedup(t, less) {
        assert y in Elements(s) <==> y in Elements(t);
      }
      IncreasingOnce(SortDedup(s, less), SortDedup(t, less), less, all);
    }
    if SortDedup(s, less) == SortDedup(t, less) {
      assert forall y :: y in s <==> y in t;
    }
  }

  lemma {:induction false} SortDedupShorter<T(!new)>(s: seq<T>, less: (T, T) -> bool)
    ensures |SortDedup(s, less)| <= |s|
  {
    if s != [] {
      SortDedupShorter(s[1..], less);
      InsertLength(s[0], SortDedup(s[1..], less), less);
    }
  }

  lemma {:induction false} InsertLength<T(!new)>(x: T, sorted: seq<T>, less: (T, T) -> bool)
    ensures |Insert(x, sorted, less)| <= |sorted| + 1
  {
    if sorted != [] && x != sorted[0] && !less(x, sorted[0]) {
      InsertLength(x, sorted[1..], less);
    }
  }

  // ---- lexicographic order ----

  lemma LexNotAbove(a: seq<int>, b: seq<int>, c: seq<int>)
    requires LexLess(a, b) && !LexLess(c, b)
    ensures LexLess(a, c)
  {
    if b != c {
      LexTotal(b, c);
      LexTransitive(a, b, c);
    }
  }

  lemma LexNotBelow(a: seq<int>, b: seq<int>, c: seq<int>)
    requires LexLess(a, b) && !LexLess(c, b)
    ensures !LexLess(c, a)
  {
    if LexLess(c, a) {
      LexTransitive(c, a, b);
    }
  }

  // The order of byte strings, and of anything spelled as a sequence of numbers.
  predicate LexLess(a: seq<int>, b: seq<int>) {
    b != [] && (a == [] || a[0] < b[0] || (a[0] == b[0] && LexLess(a[1..], b[1..])))
  }

  lemma {:induction false} LexTotal(a: seq<int>, b: seq<int>)
    requires a != b
    ensures LexLess(a, b) != LexLess(b, a)
  {
    if a != [] && b != [] && a[0] == b[0] {
      assert a == [a[0]] + a[1..] && b == [b[0]] + b[1..];
      LexTotal(a[1..], b[1..]);
    }
  }

  lemma {:induction false} LexTransitive(a: seq<int>, b: seq<int>, c: seq<int>)
    requires LexLess(a, b) && LexLess(b, c)
    ensures LexLess(a, c)
  {
    if a != [] && a[0] == b[0] == c[0] {
      LexTransitive(a[1..], b[1..], c[1..]);
    }
  }

  lemma {:induction false} LexIrreflexive(a: seq<int>)
    ensures !LexLess(a, a)
  {
    if a != [] {
      LexIrreflexive(a[1..]);
    }
  }

  // The order of lists of such sequences.
  predicate ListLess(a: seq<seq<int>>, b: seq<seq<int>>) {
    b != [] && (a == [] || (if a[0] == b[0] then ListLess(a[1..], b[1..]) else LexLess(a[0], b[0])))
  }

  lemma {:induction false} ListTotal(a: seq<seq<int>>, b: seq<seq<int>>)
    requires a != b
    ensures ListLess(a, b) != ListLess(b, a)
  {
    if a != [] && b != [] {
      if a[0] == b[0] {
        assert a == [a[0]] + a[1..] && b == [b[0]] + b[1..];
        ListTotal(a[1..], b[1..]);
      } else {
        LexTotal(a[0], b[0]);
      }
    }
  }

  lemma {:induction false} ListTransitive(a: seq<seq<int>>, b: seq<seq<int>>, c: seq<seq<int>>)
    requires ListLess(a, b) && ListLess(b, c)
    ensures ListLess(a, c)
  {
    if a != [] {
      if a[0] == b[0] == c[0] {
        ListTransitive(a[1..], b[1..], c[1..]);
      } else if a[0] != b[0] && b[0] != c[0] {
        LexTransitive(a[0], b[0], c[0]);
        LexIrreflexive(a[0]);
      }
    }
  }

  lemma {:induction false} ListIrreflexive(a: seq<seq<int>>)
    ensures !ListLess(a, a)
  {
    if a != [] {
      ListIrreflexive(a[1..]);
    }
  }

  // ---- stable sorting by a key ----

  // Put `x` after every element its key does not precede.
  function Place<T>(sorted: seq<T>, x: T, key: T -> seq<int>): seq<T> {
    if sorted == [] then [x]
    else if LexLess(key(x), key(sorted[0])) then [x] + sorted
    else [sorted[0]] + Place(sorted[1..], x, key)
  }

  function StableSort<T>(s: seq<T>, key: T -> seq<int>): seq<T> {
    if s == [] then [] else Place(StableSort(s[..|s| - 1], key), s[|s| - 1], key)
  }

  ghost predicate Ascending<T>(s: seq<T>, key: T -> seq<int>) {
    forall i, j | 0 <= i < j < |s| :: !LexLess(key(s[j]), key(s[i]))
  }

  // The elements with one key, in order.
  ghost function Alike<T>(s: seq<T>, key: T -> seq<int>, k: seq<int>): seq<T> {
    if s == [] then [] else Only(s[0], key, k) + Alike(s[1..], key, k)
  }

  ghost function Only<T>(x: T, key: T -> seq<int>, k: seq<int>): seq<T> {
    if key(x) == k then [x] else []
  }

  lemma Joined<T>(a: seq<T>, b: seq<T>, c: seq<T>)
    ensures a + (b + c) == a + b + c
  {
  }

  lemma AlikeCons<T>(x: T, s: seq<T>, key: T -> seq<int>, k: seq<int>)
    ensures Alike([x] + s, key, k) == Only(x, key, k) + Alike(s, key, k)
  {
    assert ([x] + s)[1..] == s;
  }

  lemma {:induction false} AlikeIn<T(!new)>(s: seq<T>, key: T -> seq<int>, k: seq<int>)
    ensures forall x :: x in Alike(s, key, k) <==> x in s && key(x) == k
  {
    if s != [] {
      AlikeIn(s[1..], key, k);
      assert s == [s[0]] + s[1..];
    }
  }

  lemma {:induction false} AlikeConcat<T>(s: seq<T>, t: seq<T>, key: T -> seq<int>, k: seq<int>)
    ensures Alike(s + t, key, k) == Alike(s, key, k) + Alike(t, key, k)
  {
    if s == [] {
      assert s + t == t;
    } else {
      AlikeConcat(s[1..], t, key, k);
      assert s + t == [s[0]] + (s[1..] + t);
      AlikeCons(s[0], s[1..] + t, key, k);
      Joined(Only(s[0], key, k), Alike(s[1..], key, k), Alike(t, key, k));
    }
  }

  lemma {:induction false} PlaceKeeps<T(!new)>(sorted: seq<T>, x: T, key: T -> seq<int>)
    requires Ascending(sorted, key)
    ensures Ascending(Place(sorted, x, key), key)
    ensures forall y :: y in Place(sorted, x, key) <==> y in sorted || y == x
    ensures |Place(sorted, x, key)| == |sorted| + 1
  {
    if sorted != [] {
      assert sorted == [sorted[0]] + sorted[1..];
      if LexLess(key(x), key(sorted[0])) {
        forall j | 0 <= j < |sorted| ensures !LexLess(key(sorted[j]), key(x)) {
          LexIrreflexive(key(sorted[0]));
          LexNotBelow(key(x), key(sorted[0]), key(sorted[j]));
        }
      } else {
        PlaceKeeps(sorted[1..], x, key);
        var rest := Place(sorted[1..], x, key);
        forall j | 0 <= j < |rest| ensures !LexLess(key(rest[j]), key(sorted[0])) {
          assert rest[j] in rest;
        }
      }
    }
  }

  lemma {:induction false} NoneAlike<T>(s: seq<T>, key: T -> seq<int>, k: seq<int>)
    requires Ascending(s, key) && (s != [] ==> LexLess(k, key(s[0])))
    ensures Alike(s, key, k) == []
  {
    if s != [] {
      LexIrreflexive(k);
      if |s| > 1 {
        LexNotAbove(k, key(s[0]), key(s[1]));
      }
      NoneAlike(s[1..], key, k);
    }
  }

  lemma {:induction false} AlikeNowhere<T>(s: seq<T>, key: T -> seq<int>, k: seq<int>)
    requires forall i | 0 <= i < |s| :: key(s[i]) != k
    ensures Alike(s, key, k) == []
  {
    if s != [] {
      AlikeNowhere(s[1..], key, k);
    }
  }

  // Placing adds to its own key's elements, at the end, and to no other's.
  lemma {:induction false} PlaceIsLast<T(!new)>(sorted: seq<T>, x: T, key: T -> seq<int>, k: seq<int>)
    requires Ascending(sorted, key)
    ensures Alike(Place(sorted, x, key), key, k) == Alike(sorted, key, k) + Only(x, key, k)
  {
    if sorted == [] {
      AlikeCons(x, [], key, k);
      assert Only(x, key, k) + [] == [] + Only(x, key, k);
    } else if LexLess(key(x), key(sorted[0])) {
      AlikeCons(x, sorted, key, k);
      if key(x) == k {
        NoneAlike(sorted, key, k);
      }
      assert key(x) != k ==> [] + Alike(sorted, key, k) == Alike(sorted, key, k) + [];
    } else {
      PlaceIsLast(sorted[1..], x, key, k);
      AlikeCons(sorted[0], Place(sorted[1..], x, key), key, k);
      Joined(Only(sorted[0], key, k), Alike(sorted[1..], key, k), Only(x, key, k));
    }
  }

  // Sorting orders, and keeps the elements of each key in the order they came.
  lemma {:induction false} StableSortSorts<T(!new)>(s: seq<T>, key: T -> seq<int>)
    ensures Ascending(StableSort(s, key), key) && |StableSort(s, key)| == |s|
    ensures forall y :: y in StableSort(s, key) <==> y in s
    decreases |s|
  {
    if s != [] {
      var front, x := s[..|s| - 1], s[|s| - 1];
      assert s == front + [x];
      StableSortSorts(front, key);
      PlaceKeeps(StableSort(front, key), x, key);
    }
  }

  lemma {:induction false} StableSortKeepsOrder<T(!new)>(s: seq<T>, key: T -> seq<int>, k: seq<int>)
    ensures Alike(StableSort(s, key), key, k) == Alike(s, key, k)
    decreases |s|
  {
    if s != [] {
      var front, x := s[..|s| - 1], s[|s| - 1];
      assert s == front + [x];
      StableSortSorts(front, key);
      StableSortKeepsOrder(front, key, k);
      PlaceIsLast(StableSort(front, key), x, key, k);
      AlikeConcat(front, [x], key, k);
      AlikeCons(x, [], key, k);
      assert Only(x, key, k) + [] == Only(x, key, k) && [x] + [] == [x];
    }
  }

  // What is in order stays as it is.
  lemma {:induction false} PlaceAtEnd<T(!new)>(s: seq<T>, x: T, key: T -> seq<int>)
    requires Ascending(s + [x], key)
    ensures Place(s, x, key) == s + [x]
  {
    if s != [] {
      assert (s + [x])[0] == s[0] && (s + [x])[|s|] == x;
      assert forall i | 0 <= i < |s| :: (s[1..] + [x])[i] == (s + [x])[i + 1];
      PlaceAtEnd(s[1..], x, key);
      assert s == [s[0]] + s[1..];
    }
  }

  lemma {:induction false} SortedStays<T(!new)>(s: seq<T>, key: T -> seq<int>)
    requires Ascending(s, key)
    ensures StableSort(s, key) == s
    decreases |s|
  {
    if s != [] {
      assert s == s[..|s| - 1] + [s[|s| - 1]];
      SortedStays(s[..|s| - 1], key);
      PlaceAtEnd(s[..|s| - 1], s[|s| - 1], key);
    }
  }

  ghost predicate SameByKey<T(!new)>(s: seq<T>, t: seq<T>, key: T -> seq<int>) {
    forall k :: Alike(s, key, k) == Alike(t, key, k)
  }

  lemma {:induction false} AscendingOnce<T(!new)>(s: seq<T>, t: seq<T>, key: T -> seq<int>)
    requires Ascending(s, key) && Ascending(t, key) && SameByKey(s, t, key)
    ensures s == t
  {
    if s == [] || t == [] {
      assert s != [] ==> Alike(s, key, key(s[0])) != [];
      assert t != [] ==> Alike(t, key, key(t[0])) != [];
    } else {
      FirstAlike(s, t, key);
      FirstAlike(t, s, key);
      if key(s[0]) != key(t[0]) {
        LexTotal(key(s[0]), key(t[0]));
      }
      assert s[0] == t[0] by {
        assert Alike(s, key, key(s[0]))[0] == s[0] && Alike(t, key, key(t[0]))[0] == t[0];
      }
      forall k ensures Alike(s[1..], key, k) == Alike(t[1..], key, k) {
        TailAlike(s, t, key, k);
      }
      AscendingOnce(s[1..], t[1..], key);
      assert s == [s[0]] + s[1..] && t == [t[0]] + t[1..];
    }
  }

  lemma TailAlike<T(!new)>(s: seq<T>, t: seq<T>, key: T -> seq<int>, k: seq<int>)
    requires s != [] && t != [] && s[0] == t[0] && Alike(s, key, k) == Alike(t, key, k)
    ensures Alike(s[1..], key, k) == Alike(t[1..], key, k)
  {
    var first := Only(s[0], key, k);
    assert Alike(s, key, k)[|first|..] == Alike(s[1..], key, k);
    assert Alike(t, key, k)[|first|..] == Alike(t[1..], key, k);
  }

  lemma FirstAlike<T(!new)>(s: seq<T>, t: seq<T>, key: T -> seq<int>)
    requires s != [] && t != [] && Ascending(t, key) && SameByKey(s, t, key)
    ensures !LexLess(key(s[0]), key(t[0]))
  {
    var k := key(s[0]);
    AlikeIn(s, key, k);
    AlikeIn(t, key, k);
    assert s[0] in Alike(t, key, k);
    var j :| 0 <= j < |t| && t[j] == s[0];
    LexIrreflexive(k);
  }

  // Two lists sort alike exactly when the elements of each key come in the same order in both.
  lemma SortedAlikeIff<T(!new)>(s: seq<T>, t: seq<T>, key: T -> seq<int>)
    ensures StableSort(s, key) == StableSort(t, key) <==> SameByKey(s, t, key)
  {
    if SameByKey(s, t, key) {
      StableSortSorts(s, key);
      StableSortSorts(t, key);
      forall k ensures Alike(StableSort(s, key), key, k) == Alike(StableSort(t, key), key, k) {
        StableSortKeepsOrder(s, key, k);
        StableSortKeepsOrder(t, key, k);
      }
      AscendingOnce(StableSort(s, key), StableSort(t, key), key);
    }
    if StableSort(s, key) == StableSort(t, key) {
      forall k ensures Alike(s, key, k) == Alike(t, key, k) {
        StableSortKeepsOrder(s, key, k);
        StableSortKeepsOrder(t, key, k);
      }
    }
  }
}
