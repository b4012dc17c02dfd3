/**
 The string order of Go's `<`, sorting by a string key, and the sorted duplicate-free form of a list.
 Library sorts are used through the contract of `Sort` alone: some sorted permutation, with no
 promise about equal keys. That the outcome is nevertheless determined is `SortedIsUnique`.
 */
module Orders {

  predicate Less(a: string, b: string)
  {
    |b| > 0 && (|a| == 0 || a[0] < b[0] || (a[0] == b[0] && Less(a[1..], b[1..])))
  }

  predicate AtMost(a: string, b: string)
  {
    a == b || Less(a, b)
  }

  lemma {:induction false} LessIsTotal(a: string, b: string)
    ensures Less(a, b) || a == b || Less(b, a)
    ensures !(Less(a, b) && Less(b, a)) && !(a == b && Less(a, b))
  {
    if |a| > 0 && |b| > 0 && a[0] == b[0] {
      LessIsTotal(a[1..], b[1..]);
      assert a == [a[0]] + a[1..] && b == [b[0]] + b[1..];
    }
  }

  lemma {:induction false} LessIsTransitive(a: string, b: string, c: string)
    requires Less(a, b) && Less(b, c)
    ensures Less(a, c)
  {
    if |a| > 0 && a[0] == b[0] && b[0] == c[0] {
      LessIsTransitive(a[1..], b[1..], c[1..]);
    }
  }

  lemma AtMostIsTransitive(a: string, b: string, c: string)
    requires AtMost(a, b) && AtMost(b, c)
    ensures AtMost(a, c)
  {
    if Less(a, b) && Less(b, c) {
      LessIsTransitive(a, b, c);
    }
  }

  // -------------------------------------------------------------------------------- sorting

  ghost predicate SortedBy<T(!new)>(s: seq<T>, key: T -> string)
  {
    forall i, j :: 0 <= i < j < |s| ==> AtMost(key(s[i]), key(s[j]))
  }

  ghost predicate DistinctKeys<T(!new)>(s: seq<T>, key: T -> string)
  {
    forall i, j :: 0 <= i < j < |s| ==> key(s[i]) != key(s[j])
  }

  ghost predicate IsSortOf<T(!new)>(r: seq<T>, s: seq<T>, key: T -> string)
  {
    multiset(r) == multiset(s) && SortedBy(r, key)
  }

  function Insert<T(!new)>(x: T, s: seq<T>, key: T -> string): (r: seq<T>)
    ensures multiset(r) == multiset(s) + multiset{x}
    ensures |r| > 0 && (r[0] == x || (|s| > 0 && r[0] == s[0]))
  {
    if |s| == 0 then
      [x]
    else if AtMost(key(x), key(s[0])) then
      [x] + s
    else
      assert s == [s[0]] + s[1..];
      [s[0]] + Insert(x, s[1..], key)
  }

  lemma {:induction false} InsertSorts<T(!new)>(x: T, s: seq<T>, key: T -> string)
    requires SortedBy(s, key)
    ensures SortedBy(Insert(x, s, key), key)
  {
    if |s| == 0 {
    } else {
      if AtMost(key(x), key(s[0])) {
        AtMostAll(key(x), s, key);
      } else {
        LessIsTotal(key(x), key(s[0]));
        var rest := Insert(x, s[1..], key);
        InsertSorts(x, s[1..], key);
        assert AtMost(key(s[0]), key(rest[0]));
        AtMostAll(key(s[0]), rest, key);
      }
    }
  }

  lemma AtMostAll<T(!new)>(k: string, s: seq<T>, key: T -> string)
    requires SortedBy(s, key) && |s| > 0 && AtMost(k, key(s[0]))
    ensures forall i :: 0 <= i < |s| ==> AtMost(k, key(s[i]))
  {
    forall i | 0 < i < |s|
      ensures AtMost(k, key(s[i]))
    {
      AtMostIsTransitive(k, key(s[0]), key(s[i]));
    }
  }

  function SortBy<T(!new)>(s: seq<T>, key: T -> string): seq<T>
  {
    if |s| == 0 then [] else Insert(s[0], SortBy(s[1..], key), key)
  }

  lemma {:induction false} SortBySorts<T(!new)>(s: seq<T>, key: T -> string)
    ensures IsSortOf(SortBy(s, key), s, key)
  {
    if |s| == 0 {
    } else {
      assert s == [s[0]] + s[1..];
      SortBySorts(s[1..], key);
      InsertSorts(s[0], SortBy(s[1..], key), key);
    }
  }

  /** A library sort: any sorted permutation. */
  method Sort<T(!new)>(s: seq<T>, key: T -> string) returns (r: seq<T>)
    ensures IsSortOf(r, s, key)
  {
    r := SortBy(s, key);
    SortBySorts(s, key);
  }

  lemma SameElements<T>(a: seq<T>, b: seq<T>)
    requires multiset(a) == multiset(b)
    ensures |a| == |b| && forall x :: x in a <==> x in b
  {
    assert |multiset(a)| == |a| && |multiset(b)| == |b|;
    forall x
      ensures x in a <==> x in b
    {
      assert x in a <==> x in multiset(a);
      assert x in b <==> x in multiset(b);
    }
  }

  lemma SomeElement<T>(s: seq<T>)
    ensures s == [] || exists x :: x in s
  {
    if s != [] {
      assert s[0] in s;
    }
  }

  lemma OccursTwice<T>(s: seq<T>, i: nat, j: nat)
    requires i < j < |s| && s[i] == s[j]
    ensures multiset(s)[s[j]] >= 2
  {
    assert s == s[..j] + [s[j]] + s[j + 1..];
    assert s[i] in s[..j];
  }

  lemma OccursOnce<T>(s: seq<T>, i: nat)
    requires i < |s| && forall j :: 0 <= j < |s| && j != i ==> s[j] != s[i]
    ensures multiset(s)[s[i]] == 1
  {
    assert s == s[..i] + [s[i]] + s[i + 1..];
    assert s[i] !in s[..i] && s[i] !in s[i + 1..];
  }

  lemma DistinctKeysOfPermutation<T(!new)>(a: seq<T>, b: seq<T>, key: T -> string)
    requires multiset(a) == multiset(b) && DistinctKeys(a, key)
    ensures DistinctKeys(b, key)
  {
    forall i, j | 0 <= i < j < |b|
      ensures key(b[i]) != key(b[j])
    {
      var x, y := PermutedPositions(b, a, i, j);
      if x < y {
        assert key(a[x]) != key(a[y]);
      } else {
        assert key(a[y]) != key(a[x]);
      }
    }
  }

  lemma SameHead<T(!new)>(a: seq<T>, b: seq<T>, key: T -> string)
    requires multiset(a) == multiset(b) && SortedBy(a, key) && SortedBy(b, key) && DistinctKeys(a, key)
    requires |a| > 0
    ensures |b| > 0 && a[0] == b[0]
  {
    SameElements(a, b);
    assert a[0] in b && b[0] in a;
    var i :| 0 <= i < |a| && a[i] == b[0];
    var j :| 0 <= j < |b| && b[j] == a[0];
    assert AtMost(key(a[0]), key(a[i])) && AtMost(key(b[0]), key(b[j]));
    LessIsTotal(key(a[0]), key(b[0]));
  }

  lemma Tail<T(!new)>(s: seq<T>, key: T -> string)
    requires |s| > 0 && SortedBy(s, key)
    ensures SortedBy(s[1..], key) && (DistinctKeys(s, key) ==> DistinctKeys(s[1..], key))
    ensures multiset(s[1..]) == multiset(s) - multiset{s[0]}
  {
    hide AtMost;
    assert s == [s[0]] + s[1..];
  }

  /** With distinct keys there is only one sorted permutation, whatever algorithm finds it. */
  lemma {:induction false} SortedIsUnique<T(!new)>(a: seq<T>, b: seq<T>, key: T -> string)
    requires multiset(a) == multiset(b) && SortedBy(a, key) && SortedBy(b, key) && DistinctKeys(a, key)
    ensures a == b
    decreases |a|
  {
    hide SortedBy, DistinctKeys;
    SameElements(a, b);
    if |a| == 0 {
    } else {
      SameHead(a, b, key);
      Tail(a, key);
      Tail(b, key);
      SortedIsUnique(a[1..], b[1..], key);
      assert a == [a[0]] + a[1..] && b == [b[0]] + b[1..];
    }
  }

  lemma SortIgnoresOrder<T(!new)>(a: seq<T>, b: seq<T>, key: T -> string)
    requires multiset(a) == multiset(b) && DistinctKeys(a, key)
    ensures SortBy(a, key) == SortBy(b, key)
  {
    SortBySorts(a, key);
    SortBySorts(b, key);
    DistinctKeysOfPermutation(a, SortBy(a, key), key);
    SortedIsUnique(SortBy(a, key), SortBy(b, key), key);
  }

  /** A sort of a list without repeated keys: whichever algorithm is used, the result is the same. */
  method SortUnique<T(!new)>(s: seq<T>, key: T -> string) returns (r: seq<T>)
    requires DistinctKeys(s, key)
    ensures r == SortBy(s, key)
  {
    r := Sort(s, key);
    SortBySorts(s, key);
    DistinctKeysOfPermutation(s, r, key);
    SortedIsUnique(r, SortBy(s, key), key);
  }

  /** Sorted lists with distinct keys and the same elements are equal. */
  lemma {:induction false} SortedByElements<T(!new)>(a: seq<T>, b: seq<T>, key: T -> string)
    requires SortedBy(a, key) && SortedBy(b, key) && DistinctKeys(a, key) && DistinctKeys(b, key)
    requires forall x :: x in a <==> x in b
    ensures a == b
    decreases |a|
  {
    hide SortedBy, DistinctKeys;
    if |b| > 0 {
      assert b[0] in b;
    }
    if |a| == 0 {
    } else {
      assert a[0] in a && a[0] in b;
      HeadIsLeast(a, key, b[0]);
      HeadIsLeast(b, key, a[0]);
      LessIsTotal(key(a[0]), key(b[0]));
      SameKeySameElement(a, key, a[0], b[0]);
      assert a == [a[0]] + a[1..] && b == [b[0]] + b[1..];
      Tail(a, key);
      Tail(b, key);
      TailElements(a, key);
      TailElements(b, key);
      SortedByElements(a[1..], b[1..], key);
    }
  }

  lemma HeadIsLeast<T(!new)>(s: seq<T>, key: T -> string, x: T)
    requires SortedBy(s, key) && x in s
    ensures AtMost(key(s[0]), key(x))
  {
  }

  lemma SameKeySameElement<T(!new)>(s: seq<T>, key: T -> string, x: T, y: T)
    requires DistinctKeys(s, key) && x in s && y in s && key(x) == key(y)
    ensures x == y
  {
  }

  lemma TailElements<T(!new)>(s: seq<T>, key: T -> string)
    requires |s| > 0 && DistinctKeys(s, key)
    ensures forall x :: x in s[1..] <==> x in s && x != s[0]
  {
  }

  lemma SameSort<T(!new)>(a: seq<T>, b: seq<T>, key: T -> string)
    requires DistinctKeys(a, key) && DistinctKeys(b, key)
    requires forall x :: x in a <==> x in b
    ensures SortBy(a, key) == SortBy(b, key)
  {
    hide SortBy, SortedBy, DistinctKeys;
    SortBySorts(a, key);
    SortBySorts(b, key);
    SameElements(SortBy(a, key), a);
    SameElements(SortBy(b, key), b);
    DistinctKeysOfPermutation(a, SortBy(a, key), key);
    DistinctKeysOfPermutation(b, SortBy(b, key), key);
    SortedByElements(SortBy(a, key), SortBy(b, key), key);
  }

  // ------------------------------------------------------------------ sorting by a comparison

  /** What `sort.Slice` and `slices.SortFunc` demand of a comparison: a strict weak order. */
  ghost predicate IsOrder<T(!new)>(less: (T, T) -> bool)
  {
    && (forall a, b :: !(less(a, b) && less(b, a)))
    && (forall a, b, c :: less(a, b) && less(b, c) ==> less(a, c))
    && (forall a, b, c :: !less(b, a) && !less(c, b) ==> !less(c, a))
  }

  ghost predicate Ascending<T(!new)>(s: seq<T>, less: (T, T) -> bool)
  {
    forall i, j :: 0 <= i < j < |s| ==> less(s[i], s[j])
  }

  ghost predicate NoInversion<T(!new)>(s: seq<T>, less: (T, T) -> bool)
  {
    forall i, j :: 0 <= i < j < |s| ==> !less(s[j], s[i])
  }

  function InsertLess<T(!new)>(x: T, s: seq<T>, less: (T, T) -> bool): (r: seq<T>)
    ensures multiset(r) == multiset(s) + multiset{x}
    ensures |r| > 0 && (r[0] == x || (|s| > 0 && r[0] == s[0]))
  {
    if |s| == 0 then [x]
    else if less(s[0], x) then
      assert s == [s[0]] + s[1..];
      [s[0]] + InsertLess(x, s[1..], less)
    else [x] + s
  }

  lemma {:induction false} InsertLessSorts<T(!new)>(x: T, s: seq<T>, less: (T, T) -> bool)
    requires IsOrder(less) && NoInversion(s, less)
    ensures NoInversion(InsertLess(x, s, less), less)
  {
    if |s| == 0 {
    } else {
      if less(s[0], x) {
        var rest := InsertLess(x, s[1..], less);
        InsertLessSorts(x, s[1..], less);
        NoneBelow(s[0], rest, less);
      } else {
        NoneBelow(x, s, less);
      }
    }
  }

  lemma NoneBelow<T(!new)>(x: T, s: seq<T>, less: (T, T) -> bool)
    requires IsOrder(less) && NoInversion(s, less) && |s| > 0 && !less(s[0], x)
    ensures forall i :: 0 <= i < |s| ==> !less(s[i], x)
  {
  }

  function SortLess<T(!new)>(s: seq<T>, less: (T, T) -> bool): seq<T>
  {
    if |s| == 0 then [] else InsertLess(s[0], SortLess(s[1..], less), less)
  }

  lemma {:induction false} SortLessSorts<T(!new)>(s: seq<T>, less: (T, T) -> bool)
    requires IsOrder(less)
    ensures multiset(SortLess(s, less)) == multiset(s) && NoInversion(SortLess(s, less), less)
  {
    if |s| == 0 {
    } else {
      assert s == [s[0]] + s[1..];
      SortLessSorts(s[1..], less);
      InsertLessSorts(s[0], SortLess(s[1..], less), less);
    }
  }

  /** A library sort by comparison: any permutation without inversions. */
  method SortByLess<T(!new)>(s: seq<T>, less: (T, T) -> bool) returns (r: seq<T>)
    requires IsOrder(less)
    ensures multiset(r) == multiset(s) && NoInversion(r, less)
  {
    SortLessSorts(s, less);
    r := SortLess(s, less);
  }

  // -------------------------------------------------------------------------- stable sorting

  /** The elements that the comparison does not tell apart from `x`, in order. */
  function Alike<T(!new)>(s: seq<T>, x: T, less: (T, T) -> bool): seq<T>
  {
    if |s| == 0 then []
    else if less(s[0], x) || less(x, s[0]) then Alike(s[1..], x, less)
    else [s[0]] + Alike(s[1..], x, less)
  }

  /** A sorted permutation in which elements that are not told apart keep their order. */
  ghost predicate IsStableSortOf<T(!new)>(r: seq<T>, s: seq<T>, less: (T, T) -> bool)
  {
    multiset(r) == multiset(s) && NoInversion(r, less) && forall x :: Alike(r, x, less) == Alike(s, x, less)
  }

  lemma {:induction false} InsertKeepsAlike<T(!new)>(x: T, s: seq<T>, less: (T, T) -> bool, y: T)
    requires IsOrder(less)
    ensures Alike(InsertLess(x, s, less), y, less) == Alike([x] + s, y, less)
  {
    if |s| == 0 {
      assert [x] + s == [x];
    } else if less(s[0], x) {
      hide NoInversion;
      InsertKeepsAlike(x, s[1..], less, y);
      var rest := InsertLess(x, s[1..], less);
      assert ([s[0]] + rest)[1..] == rest && ([x] + s)[1..] == s && ([x] + s[1..])[1..] == s[1..];
      Apart(s[0], x, y, less);
    } else {
      assert InsertLess(x, s, less) == [x] + s;
    }
  }

  /** Of two elements that the comparison tells apart, at most one is not told apart from a third. */
  lemma Apart<T(!new)>(a: T, b: T, y: T, less: (T, T) -> bool)
    requires IsOrder(less) && less(a, b)
    ensures less(a, y) || less(y, a) || less(b, y) || less(y, b)
  {
    assert !less(b, y) && !less(y, a) ==> !less(b, a);
  }

  lemma {:induction false} SortLessIsStable<T(!new)>(s: seq<T>, less: (T, T) -> bool)
    requires IsOrder(less)
    ensures IsStableSortOf(SortLess(s, less), s, less)
  {
    SortLessSorts(s, less);
    forall y
      ensures Alike(SortLess(s, less), y, less) == Alike(s, y, less)
    {
      SortKeepsAlike(s, less, y);
    }
  }

  lemma {:induction false} SortKeepsAlike<T(!new)>(s: seq<T>, less: (T, T) -> bool, y: T)
    requires IsOrder(less)
    ensures Alike(SortLess(s, less), y, less) == Alike(s, y, less)
  {
    if |s| == 0 {
    } else {
      var rest := SortLess(s[1..], less);
      SortKeepsAlike(s[1..], less, y);
      InsertKeepsAlike(s[0], rest, less, y);
      assert ([s[0]] + rest)[1..] == rest && ([s[0]] + rest)[0] == s[0];
    }
  }

  lemma {:induction false} StableSortsAgree<T(!new)>(a: seq<T>, b: seq<T>, less: (T, T) -> bool)
    requires IsOrder(less) && multiset(a) == multiset(b) && NoInversion(a, less) && NoInversion(b, less)
    requires forall x :: Alike(a, x, less) == Alike(b, x, less)
    ensures a == b
    decreases |a|
  {
    hide Alike, IsOrder, NoInversion;
    SameElements(a, b);
    if |a| == 0 {
    } else {
      SameForemost(a, b, less);
      assert a == [a[0]] + a[1..] && b == [b[0]] + b[1..];
      assert multiset(a[1..]) == multiset(a) - multiset{a[0]} && multiset(b[1..]) == multiset(b) - multiset{b[0]};
      forall x
        ensures Alike(a[1..], x, less) == Alike(b[1..], x, less)
      {
        TailOfAlike(a, x, less);
        TailOfAlike(b, x, less);
      }
      TailHasNoInversion(a, less);
      TailHasNoInversion(b, less);
      StableSortsAgree(a[1..], b[1..], less);
    }
  }

  lemma SameForemost<T(!new)>(a: seq<T>, b: seq<T>, less: (T, T) -> bool)
    requires IsOrder(less) && NoInversion(a, less) && NoInversion(b, less)
    requires |a| > 0 && |b| > 0 && forall x :: x in a <==> x in b
    requires Alike(a, a[0], less) == Alike(b, a[0], less)
    ensures a[0] == b[0]
  {
    assert a[0] in b && b[0] in a;
    Foremost(a, b[0], less);
    Foremost(b, a[0], less);
    Asymmetric(a[0], a[0], less);
    hide IsOrder, NoInversion;
    assert Alike(a, a[0], less)[0] == a[0] && Alike(b, a[0], less)[0] == b[0];
  }

  lemma TailHasNoInversion<T(!new)>(s: seq<T>, less: (T, T) -> bool)
    requires |s| > 0 && NoInversion(s, less)
    ensures NoInversion(s[1..], less)
  {
  }

  lemma Foremost<T(!new)>(s: seq<T>, x: T, less: (T, T) -> bool)
    requires IsOrder(less) && NoInversion(s, less) && x in s
    ensures !less(x, s[0])
  {
    var i :| 0 <= i < |s| && s[i] == x;
  }

  lemma TailOfAlike<T(!new)>(s: seq<T>, x: T, less: (T, T) -> bool)
    requires |s| > 0
    ensures Alike(s[1..], x, less) ==
            if less(s[0], x) || less(x, s[0]) then Alike(s, x, less) else Alike(s, x, less)[1..]
  {
  }

  /** A stable sort leaves no choice. */
  lemma StableSortIsUnique<T(!new)>(a: seq<T>, b: seq<T>, s: seq<T>, less: (T, T) -> bool)
    requires IsOrder(less) && IsStableSortOf(a, s, less) && IsStableSortOf(b, s, less)
    ensures a == b
  {
    hide IsOrder, NoInversion;
    StableSortsAgree(a, b, less);
  }

  /** `sort.SliceStable`: some stable sort. */
  method SortStable<T(!new)>(s: seq<T>, less: (T, T) -> bool) returns (r: seq<T>)
    requires IsOrder(less)
    ensures IsStableSortOf(r, s, less)
  {
    SortLessIsStable(s, less);
    r := SortLess(s, less);
  }

  /** If the comparison separates any two positions, the sorted list ascends. */
  lemma SortedAscends<T(!new)>(r: seq<T>, s: seq<T>, less: (T, T) -> bool)
    requires multiset(r) == multiset(s) && NoInversion(r, less)
    requires forall i, j :: 0 <= i < j < |s| ==> less(s[i], s[j]) || less(s[j], s[i])
    ensures Ascending(r, less)
  {
    forall i, j | 0 <= i < j < |r|
      ensures less(r[i], r[j])
    {
      var x, y := PermutedPositions(r, s, i, j);
      SeparatedAt(s, less, x, y);
    }
  }

  lemma SeparatedAt<T(!new)>(s: seq<T>, less: (T, T) -> bool, x: nat, y: nat)
    requires forall i, j :: 0 <= i < j < |s| ==> less(s[i], s[j]) || less(s[j], s[i])
    requires x < |s| && y < |s| && x != y
    ensures less(s[x], s[y]) || less(s[y], s[x])
  {
  }

  /** Two positions of a permutation come from two positions. */
  lemma PermutedPositions<T>(r: seq<T>, s: seq<T>, i: nat, j: nat) returns (x: nat, y: nat)
    requires multiset(r) == multiset(s) && i < j < |r|
    ensures x < |s| && y < |s| && x != y && s[x] == r[i] && s[y] == r[j]
  {
    SameElements(r, s);
    assert r[i] in r && r[j] in r;
    x :| x < |s| && s[x] == r[i];
    y :| y < |s| && s[y] == r[j];
    if x == y {
      OccursTwice(r, i, j);
      if forall z :: 0 <= z < |s| && z != x ==> s[z] != s[x] {
        OccursOnce(s, x);
        assert false;
      } else {
        y :| y < |s| && y != x && s[y] == s[x];
      }
    }
  }

  /** Ascending lists of the same elements are the same list. */
  lemma {:induction false} AscendingIsUnique<T(!new)>(a: seq<T>, b: seq<T>, less: (T, T) -> bool)
    requires IsOrder(less) && Ascending(a, less) && Ascending(b, less)
    requires forall x :: x in a <==> x in b
    ensures a == b
    decreases |a|
  {
    hide IsOrder;
    if |b| > 0 {
      assert b[0] in b;
    }
    if |a| == 0 {
    } else {
      assert a[0] in a && a[0] in b;
      AscendingHead(a, b[0], less);
      AscendingHead(b, a[0], less);
      Asymmetric(a[0], b[0], less);
      assert a == [a[0]] + a[1..] && b == [b[0]] + b[1..];
      AscendingTail(a, less);
      AscendingTail(b, less);
      AscendingIsUnique(a[1..], b[1..], less);
    }
  }

  lemma Asymmetric<T(!new)>(a: T, b: T, less: (T, T) -> bool)
    requires IsOrder(less)
    ensures !(less(a, b) && less(b, a))
  {
  }

  lemma AscendingHead<T(!new)>(s: seq<T>, x: T, less: (T, T) -> bool)
    requires Ascending(s, less) && x in s
    ensures x == s[0] || less(s[0], x)
  {
  }

  lemma AscendingTail<T(!new)>(s: seq<T>, less: (T, T) -> bool)
    requires IsOrder(less) && Ascending(s, less) && |s| > 0
    ensures Ascending(s[1..], less) && forall x :: x in s[1..] <==> x in s && x != s[0]
  {
  }

  // -------------------------------------------------------------------------- canonical sets

  ghost predicate Increasing(s: seq<string>)
  {
    forall i, j :: 0 <= i < j < |s| ==> Less(s[i], s[j])
  }

  /** `slices.Compact`: keep the first of each run of equal values. */
  function Compact(s: seq<string>): (r: seq<string>)
    ensures forall x :: x in r <==> x in s
    ensures |s| > 0 ==> |r| > 0 && r[0] == s[0]
  {
    if |s| <= 1 then
      s
    else if s[0] == s[1] then
      assert s == [s[0]] + s[1..];
      Compact(s[1..])
    else
      assert s == [s[0]] + s[1..];
      [s[0]] + Compact(s[1..])
  }

  lemma {:induction false} CompactIncreases(s: seq<string>)
    requires SortedBy(s, x => x)
    ensures Increasing(Compact(s))
  {
    if |s| > 1 {
      var key := (x: string) => x;
      assert SortedBy(s, key);
      assert forall i, j :: 0 <= i < j < |s[1..]| ==> s[1..][i] == s[i + 1] && s[1..][j] == s[j + 1];
      assert forall i, j :: 0 <= i < j < |s| ==> AtMost(key(s[i]), key(s[j]));
      CompactIncreases(s[1..]);
      var rest := Compact(s[1..]);
      if s[0] != s[1] {
        assert AtMost(key(s[0]), key(s[1])) && Less(s[0], s[1]);
        forall i | 0 <= i < |rest|
          ensures Less(s[0], rest[i])
        {
          if i > 0 {
            LessIsTransitive(s[0], rest[0], rest[i]);
          }
        }
      }
    }
  }

  /** Strictly increasing lists of the same values are the same list. */
  lemma {:induction false} IncreasingIsUnique(a: seq<string>, b: seq<string>)
    requires Increasing(a) && Increasing(b)
    requires forall x :: x in a <==> x in b
    ensures a == b
    decreases |a|
  {
    if |b| > 0 {
      assert b[0] in b;
    }
    if |a| == 0 {
    } else {
      assert a[0] in b && |b| > 0 && b[0] in a;
      assert a[0] == b[0] by {
        LessIsTotal(a[0], b[0]);
      }
      assert a == [a[0]] + a[1..] && b == [b[0]] + b[1..];
      forall x
        ensures x in a[1..] <==> x in b[1..]
      {
        LessIsTotal(a[0], x);
        assert x in a[1..] <==> x in a && x != a[0];
        assert x in b[1..] <==> x in b && x != b[0];
      }
      IncreasingIsUnique(a[1..], b[1..]);
    }
  }

  /** `canonicalSet` of internal/lockfile/policy.go, and the same steps elsewhere: sort, then compact. */
  function CanonicalSet(values: seq<string>): seq<string>
  {
    Compact(SortBy(values, x => x))
  }

  lemma CanonicalSetContains(values: seq<string>)
    ensures Increasing(CanonicalSet(values))
    ensures forall x :: x in CanonicalSet(values) <==> x in values
    ensures |CanonicalSet(values)| == 0 <==> |values| == 0
  {
    var sorted := SortBy(values, x => x);
    SortBySorts(values, x => x);
    SameElements(sorted, values);
    CompactIncreases(sorted);
  }

  /** The canonical form depends only on which values occur. */
  lemma CanonicalSetIsDetermined(a: seq<string>, b: seq<string>)
    ensures CanonicalSet(a) == CanonicalSet(b) <==> forall x :: x in a <==> x in b
  {
    hide CanonicalSet, Increasing;
    CanonicalSetContains(a);
    CanonicalSetContains(b);
    if forall x :: x in a <==> x in b {
      IncreasingIsUnique(CanonicalSet(a), CanonicalSet(b));
    }
    if CanonicalSet(a) == CanonicalSet(b) {
      forall x
        ensures x in a <==> x in b
      {
        assert x in CanonicalSet(a) <==> x in a;
      }
    }
  }

  // ------------------------------------------------------------------------- what the order is

  /** The texts agree up to `k`; there the first ends, or has the smaller character. */
  ghost predicate DiffersAt(a: string, b: string, k: nat)
  {
    && k <= |a| && k < |b| && a[..k] == b[..k]
    && (k == |a| || a[k] < b[k])
  }

  lemma {:induction false} LessMeaning(a: string, b: string)
    ensures Less(a, b) <==> exists k: nat :: DiffersAt(a, b, k)
  {
    if |a| == 0 || |b| == 0 || a[0] != b[0] {
      assert a[..0] == b[..0];
      if |b| > 0 && (|a| == 0 || a[0] < b[0]) {
        assert DiffersAt(a, b, 0);
      }
      forall k: nat
        ensures DiffersAt(a, b, k) ==> |b| > 0 && (|a| == 0 || a[0] < b[0])
      {
        FirstDecides(a, b, k);
      }
    } else {
      LessMeaning(a[1..], b[1..]);
      forall k: nat
        ensures DiffersAt(a, b, k + 1) <==> DiffersAt(a[1..], b[1..], k)
      {
        OneFurther(a, b, k);
      }
      forall k: nat
        ensures DiffersAt(a, b, k) ==> k > 0 && DiffersAt(a[1..], b[1..], k - 1)
      {
        if k > 0 {
          OneFurther(a, b, k - 1);
        }
      }
      if k: nat :| DiffersAt(a[1..], b[1..], k) {
        assert DiffersAt(a, b, k + 1);
      }
    }
  }

  lemma FirstDecides(a: string, b: string, k: nat)
    requires |a| == 0 || |b| == 0 || a[0] != b[0]
    ensures DiffersAt(a, b, k) ==> |b| > 0 && (|a| == 0 || a[0] < b[0])
  {
    if DiffersAt(a, b, k) && k > 0 {
      SameHeads(a, b, k);
    }
  }

  lemma SameHeads(a: string, b: string, k: nat)
    requires 0 < k <= |a| && k <= |b| && a[..k] == b[..k]
    ensures a[0] == b[0]
  {
    assert a[..k][0] == a[0] && b[..k][0] == b[0];
  }

  lemma OneFurther(a: string, b: string, k: nat)
    requires |a| > 0 && |b| > 0 && a[0] == b[0]
    ensures DiffersAt(a, b, k + 1) <==> DiffersAt(a[1..], b[1..], k)
  {
    if k + 1 <= |a| && k + 1 <= |b| {
      assert a[..k + 1] == [a[0]] + a[1..][..k] && b[..k + 1] == [b[0]] + b[1..][..k];
      assert a[..k + 1][1..] == a[1..][..k] && b[..k + 1][1..] == b[1..][..k];
    }
  }
}
