/**
 Canonical forms of sets: sort, then drop repeats. This is what the agent does
 to PIDs, library paths and measured modules before it hashes them. qsort is a
 sorting function over a total order.
 */
module Canonical {
  import opened ByteCodec

  ghost predicate TotalOrder<T(!new)>(le: (T, T) -> bool) {
    && (forall a, b :: le(a, b) || le(b, a))
    && (forall a, b :: le(a, b) && le(b, a) ==> a == b)
    && (forall a, b, c :: le(a, b) && le(b, c) ==> le(a, c))
  }

  function Insert<T>(x: T, s: seq<T>, le: (T, T) -> bool): seq<T> {
    if s == [] || le(x, s[0]) then [x] + s else [s[0]] + Insert(x, s[1..], le)
  }

  /** What qsort leaves in the array. */
  function Sort<T>(s: seq<T>, le: (T, T) -> bool): seq<T> {
    if s == [] then [] else Insert(s[0], Sort(s[1..], le), le)
  }

  /** Keeps an element unless it repeats its predecessor. */
  function Dedup<T(==)>(s: seq<T>): seq<T> {
    if |s| < 2 then s
    else if s[0] == s[1] then Dedup(s[1..])
    else [s[0]] + Dedup(s[1..])
  }

  function Canon<T(==)>(s: seq<T>, le: (T, T) -> bool): seq<T> {
    Dedup(Sort(s, le))
  }

  ghost predicate Sorted<T>(s: seq<T>, le: (T, T) -> bool) {
    |s| < 2 || (le(s[0], s[1]) && Sorted(s[1..], le))
  }

  /** Strictly increasing: each element below the next, never equal to it. */
  ghost predicate Strict<T>(s: seq<T>, le: (T, T) -> bool) {
    |s| < 2 || (le(s[0], s[1]) && s[0] != s[1] && Strict(s[1..], le))
  }

  ghost function Elements<T>(s: seq<T>): set<T> {
    set x | x in s
  }

  lemma {:induction false} InsertSorted<T(!new)>(x: T, s: seq<T>, le: (T, T) -> bool)
    requires TotalOrder(le) && Sorted(s, le)
    ensures Sorted(Insert(x, s, le), le)
    ensures Insert(x, s, le)[0] == if s == [] || le(x, s[0]) then x else s[0]
  {
    var r := Insert(x, s, le);
    if s == [] || le(x, s[0]) {
      assert r[1..] == s;
    } else {
      InsertSorted(x, s[1..], le);
      assert r[1..] == Insert(x, s[1..], le);
    }
  }

  lemma {:induction false} InsertAdds<T>(x: T, s: seq<T>, le: (T, T) -> bool)
    ensures multiset(Insert(x, s, le)) == multiset(s) + multiset{x}
  {
    if s != [] && !le(x, s[0]) {
      InsertAdds(x, s[1..], le);
      assert s == [s[0]] + s[1..];
    }
  }

  lemma {:induction false} SortSorts<T(!new)>(s: seq<T>, le: (T, T) -> bool)
    requires TotalOrder(le)
    ensures Sorted(Sort(s, le), le)
  {
    if s == [] {
    } else {
      SortSorts(s[1..], le);
      InsertSorted(s[0], Sort(s[1..], le), le);
    }
  }

  lemma {:induction false} SortPermutes<T>(s: seq<T>, le: (T, T) -> bool)
    ensures multiset(Sort(s, le)) == multiset(s)
  {
    if s == [] {
    } else {
      SortPermutes(s[1..], le);
      InsertAdds(s[0], Sort(s[1..], le), le);
      MultisetCons(s);
    }
  }

  /** The first element of a sorted list is below all the others. */
  lemma {:induction false} SortedHead<T(!new)>(s: seq<T>, le: (T, T) -> bool, i: nat)
    requires TotalOrder(le) && Sorted(s, le) && i < |s|
    ensures le(s[0], s[i])
  {
    if i > 0 {
      SortedHead(s[1..], le, i - 1);
    }
  }

  /** Sorted means every element below every later one. */
  lemma {:induction false} SortedPairs<T(!new)>(s: seq<T>, le: (T, T) -> bool, i: nat, j: nat)
    requires TotalOrder(le) && Sorted(s, le) && i < j < |s|
    ensures le(s[i], s[j])
  {
    if i == 0 {
      SortedHead(s, le, j);
    } else {
      SortedPairs(s[1..], le, i - 1, j - 1);
    }
  }

  lemma SameLeast<T(!new)>(a: seq<T>, b: seq<T>, le: (T, T) -> bool)
    requires TotalOrder(le) && Sorted(a, le) && Sorted(b, le) && multiset(a) == multiset(b) && a != [] && b != []
    ensures a[0] == b[0]
  {
    assert a[0] in multiset(b) && b[0] in multiset(a);
    var i :| 0 <= i < |b| && b[i] == a[0];
    var j :| 0 <= j < |a| && a[j] == b[0];
    SortedHead(b, le, i);
    SortedHead(a, le, j);
  }

  /** A sorted list is fixed by its elements and how often each occurs. */
  lemma {:induction false} SortedUnique<T(!new)>(a: seq<T>, b: seq<T>, le: (T, T) -> bool)
    requires TotalOrder(le) && Sorted(a, le) && Sorted(b, le) && multiset(a) == multiset(b)
    ensures a == b
  {
    assert |a| == |multiset(a)| == |multiset(b)| == |b|;
    if a == [] {
    } else {
      SameLeast(a, b, le);
      MultisetCons(a);
      MultisetCons(b);
      assert multiset(a[1..]) == multiset(a) - multiset{a[0]};
      assert multiset(b[1..]) == multiset(b) - multiset{b[0]};
      SortedUnique(a[1..], b[1..], le);
      assert a == [a[0]] + a[1..] && b == [b[0]] + b[1..];
    }
  }

  lemma SortIgnoresOrder<T(!new)>(a: seq<T>, b: seq<T>, le: (T, T) -> bool)
    requires TotalOrder(le)
    ensures Sort(a, le) == Sort(b, le) <==> multiset(a) == multiset(b)
  {
    hide Sort, Sorted;
    SortPermutes(a, le);
    SortPermutes(b, le);
    SortSorts(a, le);
    SortSorts(b, le);
    if multiset(a) == multiset(b) {
      SortedUnique(Sort(a, le), Sort(b, le), le);
    }
  }

  lemma MultisetCons<T>(s: seq<T>)
    requires s != []
    ensures multiset(s) == multiset(s[1..]) + multiset{s[0]}
  {
    assert s == [s[0]] + s[1..];
  }

  lemma {:induction false} DedupStrict<T(!new)>(s: seq<T>, le: (T, T) -> bool)
    requires Sorted(s, le)
    ensures Strict(Dedup(s), le)
    ensures s != [] ==> Dedup(s) != [] && Dedup(s)[0] == s[0]
    ensures |Dedup(s)| <= |s|
  {
    if |s| < 2 {
    } else {
      DedupStrict(s[1..], le);
      if s[0] != s[1] {
        assert Dedup(s)[1..] == Dedup(s[1..]);
      }
    }
  }

  lemma {:induction false} DedupKeeps<T>(s: seq<T>)
    ensures Elements(Dedup(s)) == Elements(s)
  {
    if |s| < 2 {
    } else {
      DedupKeeps(s[1..]);
      assert s == [s[0]] + s[1..];
      if s[0] == s[1] {
        assert Elements(s) == Elements(s[1..]);
      } else {
        assert Elements(s) == {s[0]} + Elements(s[1..]);
        assert Elements(Dedup(s)) == {s[0]} + Elements(Dedup(s[1..]));
      }
    }
  }

  /** The first element is below all the others. */
  lemma {:induction false} StrictHead<T(!new)>(s: seq<T>, le: (T, T) -> bool, i: nat)
    requires TotalOrder(le) && Strict(s, le) && 0 < i < |s|
    ensures le(s[0], s[i]) && s[0] != s[i]
  {
    if i > 1 {
      StrictHead(s[1..], le, i - 1);
    }
  }

  lemma TailElements<T(!new)>(a: seq<T>, le: (T, T) -> bool)
    requires a != [] && Strict(a, le) && TotalOrder(le)
    ensures Elements(a[1..]) == Elements(a) - {a[0]} && Strict(a[1..], le)
  {
    forall i | 0 < i < |a| ensures a[i] != a[0] { StrictHead(a, le, i); }
    assert a == [a[0]] + a[1..];
  }

  /** A strictly increasing sequence is fixed by its elements. */
  lemma {:induction false} StrictUnique<T(!new)>(a: seq<T>, b: seq<T>, le: (T, T) -> bool)
    requires TotalOrder(le) && Strict(a, le) && Strict(b, le)
    requires Elements(a) == Elements(b)
    ensures a == b
  {
    assert a == [] <==> Elements(a) == {} by { if a != [] { assert a[0] in Elements(a); } }
    assert b == [] <==> Elements(b) == {} by { if b != [] { assert b[0] in Elements(b); } }
    if a == [] {
    } else {
      SameHead(a, b, le);
      TailElements(a, le);
      TailElements(b, le);
      StrictUnique(a[1..], b[1..], le);
      assert a == [a[0]] + a[1..] && b == [b[0]] + b[1..];
    }
  }

  lemma SameHead<T(!new)>(a: seq<T>, b: seq<T>, le: (T, T) -> bool)
    requires TotalOrder(le) && Strict(a, le) && Strict(b, le) && a != [] && b != []
    requires Elements(a) == Elements(b)
    ensures a[0] == b[0]
  {
    assert a[0] in Elements(b) && b[0] in Elements(a);
    var i :| 0 <= i < |b| && b[i] == a[0];
    var j :| 0 <= j < |a| && a[j] == b[0];
    if i > 0 { StrictHead(b, le, i); }
    if j > 0 { StrictHead(a, le, j); }
  }

  lemma TailOfPrefix<T>(s: seq<T>, n: nat)
    requires 0 < n <= |s|
    ensures s[..n][1..] == s[1..][..n - 1]
  {
  }

  /** One more element, checked against its predecessor only. */
  lemma {:induction false} StrictNext<T(!new)>(s: seq<T>, le: (T, T) -> bool, n: nat)
    requires n < |s|
    ensures Strict(s[..n + 1], le) <==> Strict(s[..n], le) && (n == 0 || (le(s[n - 1], s[n]) && s[n - 1] != s[n]))
  {
    if n < 2 {
      if n == 1 { assert s[..2][1..] == [s[1]]; }
    } else {
      StrictNext(s[1..], le, n - 1);
      TailOfPrefix(s, n);
      TailOfPrefix(s, n + 1);
    }
  }

  /** A prefix that is not strictly increasing spoils the whole. */
  lemma {:induction false} StrictPrefix<T(!new)>(s: seq<T>, le: (T, T) -> bool, n: nat)
    requires n <= |s| && Strict(s, le)
    ensures Strict(s[..n], le)
    decreases |s| - n
  {
    if n == |s| {
      assert s[..n] == s;
    } else {
      StrictPrefix(s, le, n + 1);
      StrictNext(s, le, n);
    }
  }

  /** One more element is kept unless it repeats the last one. */
  lemma {:induction false} DedupNext<T>(s: seq<T>, n: nat)
    requires n < |s|
    ensures Dedup(s[..n + 1]) == if n > 0 && s[n - 1] == s[n] then Dedup(s[..n]) else Dedup(s[..n]) + [s[n]]
    ensures Dedup(s[..n + 1]) != [] && Dedup(s[..n + 1])[|Dedup(s[..n + 1])| - 1] == s[n]
  {
    if n >= 1 {
      DedupNext(s[1..], n - 1);
      TailOfPrefix(s, n + 1);
      if n >= 2 {
        TailOfPrefix(s, n);
        if s[0] != s[1] && s[n - 1] != s[n] {
          Associative([s[0]], Dedup(s[1..][..n - 1]), [s[n]]);
        }
      }
    }
  }

  /** The canonical form is strictly increasing and has the same elements. */
  lemma CanonIsCanonical<T(!new)>(s: seq<T>, le: (T, T) -> bool)
    requires TotalOrder(le)
    ensures Strict(Canon(s, le), le) && Elements(Canon(s, le)) == Elements(s)
    ensures |Canon(s, le)| <= |s|
  {
    SortSorts(s, le);
    SortPermutes(s, le);
    DedupStrict(Sort(s, le), le);
    DedupKeeps(Sort(s, le));
    assert forall x :: x in s <==> x in multiset(s);
    assert forall x :: x in Sort(s, le) <==> x in multiset(Sort(s, le));
    assert |multiset(s)| == |s| && |multiset(Sort(s, le))| == |Sort(s, le)|;
  }

  /** Order and repetition do not matter: equal sets have equal canonical forms, and only they do. */
  lemma CanonIgnoresOrder<T(!new)>(s: seq<T>, t: seq<T>, le: (T, T) -> bool)
    requires TotalOrder(le)
    ensures Canon(s, le) == Canon(t, le) <==> Elements(s) == Elements(t)
  {
    CanonIsCanonical(s, le);
    CanonIsCanonical(t, le);
    if Elements(s) == Elements(t) {
      StrictUnique(Canon(s, le), Canon(t, le), le);
    }
  }

  // ----- the orders used

  predicate LeInt(a: int, b: int) {
    a <= b
  }

  lemma IntOrder()
    ensures TotalOrder<int>(LeInt)
  {
  }

  /** Strictly increasing integers. */
  ghost predicate Increasing(s: seq<int>) {
    Strict<int>(s, LeInt)
  }

  /** Strict means every element below every later one, and different from it. */
  lemma {:induction false} StrictPairs<T(!new)>(s: seq<T>, le: (T, T) -> bool, i: nat, j: nat)
    requires TotalOrder(le) && Strict(s, le) && i < j < |s|
    ensures le(s[i], s[j]) && s[i] != s[j]
  {
    if i == 0 {
      StrictHead(s, le, j);
    } else {
      StrictPairs(s[1..], le, i - 1, j - 1);
    }
  }

  lemma IncreasingNext(s: seq<int>, n: nat)
    requires n < |s|
    ensures Increasing(s[..n + 1]) <==> Increasing(s[..n]) && (n == 0 || s[n - 1] < s[n])
  {
    StrictNext<int>(s, LeInt, n);
    assert n > 0 ==> (LeInt(s[n - 1], s[n]) <==> s[n - 1] <= s[n]);
  }

  /** Strictly increasing means increasing from each index to every later one. */
  lemma {:induction false} IncreasingPairs(s: seq<int>)
    ensures Increasing(s) <==> forall i, j :: 0 <= i < j < |s| ==> s[i] < s[j]
  {
    if |s| < 2 {
    } else {
      var t := s[1..];
      IncreasingPairs(t);
      assert LeInt(s[0], s[1]) <==> s[0] <= s[1];
      assert forall j :: 0 < j < |s| ==> s[j] == t[j - 1];
    }
  }

  lemma {:induction false} SortKeepsStrict<T(!new)>(s: seq<T>, le: (T, T) -> bool)
    requires Strict(s, le)
    ensures Sort(s, le) == s
  {
    if s == [] {
    } else {
      SortKeepsStrict(s[1..], le);
      assert s == [s[0]] + s[1..];
      if |s| == 1 { assert Sort(s[1..], le) == []; }
    }
  }

  lemma IncreasingPrefix(s: seq<int>, n: nat)
    requires n <= |s| && Increasing(s)
    ensures Increasing(s[..n])
  {
    StrictPrefix<int>(s, LeInt, n);
  }

  /** strcmp and memcmp: byte by byte, a proper prefix first. */
  predicate LeLex(a: seq<int>, b: seq<int>) {
    a == [] || (b != [] && (a[0] < b[0] || (a[0] == b[0] && LeLex(a[1..], b[1..]))))
  }

  /** A prefix, or smaller at the first byte that differs. */
  lemma {:induction false} LexMeans(a: seq<int>, b: seq<int>)
    ensures LeLex(a, b) <==> a <= b || exists i :: FirstDiffers(a, b, i) && a[i] < b[i]
  {
    if a == [] || b == [] {
    } else if a[0] != b[0] {
      assert FirstDiffers(a, b, 0);
    } else {
      LexMeans(a[1..], b[1..]);
      assert a <= b <==> a[1..] <= b[1..];
      forall i ensures FirstDiffers(a, b, i + 1) <==> FirstDiffers(a[1..], b[1..], i) {
        DiffersLater(a, b, i);
      }
      if i :| FirstDiffers(a, b, i) && a[i] < b[i] {
        assert FirstDiffers(a[1..], b[1..], i - 1);
      }
    }
  }

  ghost predicate FirstDiffers(a: seq<int>, b: seq<int>, i: int) {
    0 <= i < |a| && i < |b| && a[..i] == b[..i] && a[i] != b[i]
  }

  lemma DiffersLater(a: seq<int>, b: seq<int>, i: int)
    requires a != [] && b != [] && a[0] == b[0]
    ensures FirstDiffers(a, b, i + 1) <==> FirstDiffers(a[1..], b[1..], i)
  {
    if 0 <= i < |a| - 1 && i < |b| - 1 {
      assert a[..i + 1] == [a[0]] + a[1..][..i] && b[..i + 1] == [b[0]] + b[1..][..i];
    }
  }

  lemma {:induction false} LexTotal(a: seq<int>, b: seq<int>)
    ensures LeLex(a, b) || LeLex(b, a)
  {
    if a != [] && b != [] { LexTotal(a[1..], b[1..]); }
  }

  lemma {:induction false} LexAntisymmetric(a: seq<int>, b: seq<int>)
    requires LeLex(a, b) && LeLex(b, a)
    ensures a == b
  {
    if a != [] && b != [] {
      LexAntisymmetric(a[1..], b[1..]);
      assert a == [a[0]] + a[1..] && b == [b[0]] + b[1..];
    }
  }

  lemma {:induction false} LexTransitive(a: seq<int>, b: seq<int>, c: seq<int>)
    requires LeLex(a, b) && LeLex(b, c)
    ensures LeLex(a, c)
  {
    if a != [] && a[0] == b[0] == c[0] {
      LexTransitive(a[1..], b[1..], c[1..]);
    }
  }
}
