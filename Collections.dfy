/** Sequence operations the report queries are built from: the groups of a
    GROUP BY (first appearance, or in key order for GROUP BY … ORDER BY key),
    a stable ORDER BY … DESC on an integer column, and the byte order on
    strings used by ORDER BY name. */
module Collections {

  /** `r` holds no element twice. */
  ghost predicate NoDuplicates<K>(r: seq<K>) {
    forall i, j :: 0 <= i < j < |r| ==> r[i] != r[j]
  }

  /** WHERE <condition>: the rows of `s` that satisfy `keep`, in table
      order, each as often as it occurs in `s`. */
  function Filter<T(!new)>(s: seq<T>, keep: T -> bool): (r: seq<T>)
    ensures forall x :: x in r <==> x in s && keep(x)
    ensures forall x :: multiset(r)[x] == if keep(x) then multiset(s)[x] else 0
  {
    if s == [] then []
    else
      var init := s[..|s| - 1];
      var last := s[|s| - 1];
      assert s == init + [last];
      Filter(init, keep) + (if keep(last) then [last] else [])
  }

  /** No two elements of `r` share a key. */
  ghost predicate DistinctBy<T, K>(r: seq<T>, key: T -> K) {
    forall i, j :: 0 <= i < j < |r| ==> key(r[i]) != key(r[j])
  }

  /** A sequence holds no element twice exactly when no element occurs
      more than once in its multiset. */
  lemma {:induction false} NoDuplicatesMultiplicity<T>(s: seq<T>)
    ensures NoDuplicates(s) <==> forall x :: multiset(s)[x] <= 1
  {
    if s != [] {
      var init := s[..|s| - 1];
      var last := s[|s| - 1];
      assert s == init + [last];
      NoDuplicatesMultiplicity(init);
      if NoDuplicates(s) {
        assert NoDuplicates(init);
        assert last !in init;
      } else {
        var i, j :| 0 <= i < j < |s| && s[i] == s[j];
        if j < |s| - 1 {
          assert init[i] == init[j];
          var x :| multiset(init)[x] > 1;
          assert multiset(s)[x] > 1;
        } else {
          assert s[i] in init;
          assert multiset(s)[last] > 1;
        }
      }
    }
  }

  /** Reordering keeps the keys of the elements distinct. */
  lemma PermutationDistinctBy<T, K>(a: seq<T>, b: seq<T>, key: T -> K)
    requires multiset(a) == multiset(b) && DistinctBy(a, key)
    ensures DistinctBy(b, key)
  {
    assert NoDuplicates(a) by {
      forall i, j | 0 <= i < j < |a|
        ensures a[i] != a[j]
      {
        assert key(a[i]) != key(a[j]);
      }
    }
    NoDuplicatesMultiplicity(a);
    NoDuplicatesMultiplicity(b);
    forall i, j | 0 <= i < j < |b|
      ensures key(b[i]) != key(b[j])
    {
      assert b[i] != b[j];
      assert b[i] in multiset(a) && b[j] in multiset(a);
      var p :| 0 <= p < |a| && a[p] == b[i];
      var q :| 0 <= q < |a| && a[q] == b[j];
      assert p != q;
    }
  }

  /** The distinct elements of `xs`, in order of first appearance. */
  function Distinct<K(==,!new)>(xs: seq<K>): (r: seq<K>)
    ensures NoDuplicates(r)
    ensures forall x :: x in r <==> x in xs
    ensures |r| <= |xs|
  {
    if xs == [] then []
    else
      var init := xs[..|xs| - 1];
      var d := Distinct(init);
      assert xs == init + [xs[|xs| - 1]];
      if xs[|xs| - 1] in d then d else d + [xs[|xs| - 1]]
  }

  /** `less` is irreflexive, transitive and relates any two distinct values. */
  ghost predicate StrictTotalOrder<K(!new)>(less: (K, K) -> bool) {
    && (forall a :: !less(a, a))
    && (forall a, b, c :: less(a, b) && less(b, c) ==> less(a, c))
    && (forall a, b :: a != b ==> less(a, b) || less(b, a))
  }

  ghost predicate StrictlySorted<K>(s: seq<K>, less: (K, K) -> bool) {
    forall i, j :: 0 <= i < j < |s| ==> less(s[i], s[j])
  }

  /** Adds `k` to the strictly sorted `s`, unless it is already there. */
  function InsertKey<K(==,!new)>(k: K, s: seq<K>, less: (K, K) -> bool): (r: seq<K>)
    requires StrictTotalOrder(less) && StrictlySorted(s, less)
    ensures StrictlySorted(r, less)
    ensures forall x :: x in r <==> x in s || x == k
  {
    if s == [] then [k]
    else if k == s[0] then s
    else if less(k, s[0]) then [k] + s
    else
      var rest := InsertKey(k, s[1..], less);
      assert forall x :: x in s[1..] ==> less(s[0], x);
      [s[0]] + rest
  }

  /** The distinct elements of `xs` in ascending order. */
  function SortedDistinct<K(==,!new)>(xs: seq<K>, less: (K, K) -> bool): (r: seq<K>)
    requires StrictTotalOrder(less)
    ensures StrictlySorted(r, less)
    ensures forall x :: x in r <==> x in xs
  {
    if xs == [] then []
    else
      var init := xs[..|xs| - 1];
      assert xs == init + [xs[|xs| - 1]];
      InsertKey(xs[|xs| - 1], SortedDistinct(init, less), less)
  }

  predicate IntLess(a: int, b: int) { a < b }

  lemma IntLessIsStrictTotalOrder()
    ensures StrictTotalOrder(IntLess)
  {
  }

  /** Lexicographic order on strings, character by character. */
  predicate StringLess(a: string, b: string) {
    if a == [] then b != []
    else if b == [] then false
    else if a[0] != b[0] then a[0] < b[0]
    else StringLess(a[1..], b[1..])
  }

  lemma {:induction false} StringLessIrreflexive(a: string)
    ensures !StringLess(a, a)
  {
    if a != [] {
      StringLessIrreflexive(a[1..]);
    }
  }

  lemma {:induction false} StringLessTransitive(a: string, b: string, c: string)
    requires StringLess(a, b) && StringLess(b, c)
    ensures StringLess(a, c)
  {
    if a != [] && b != [] && c != [] && a[0] == b[0] && b[0] == c[0] {
      StringLessTransitive(a[1..], b[1..], c[1..]);
    }
  }

  lemma {:induction false} StringLessConnected(a: string, b: string)
    requires a != b
    ensures StringLess(a, b) || StringLess(b, a)
  {
    if a != [] && b != [] && a[0] == b[0] {
      assert a == [a[0]] + a[1..] && b == [b[0]] + b[1..];
      StringLessConnected(a[1..], b[1..]);
    }
  }

  lemma StringLessIsStrictTotalOrder()
    ensures StrictTotalOrder(StringLess)
  {
    forall a: string
      ensures !StringLess(a, a)
    {
      StringLessIrreflexive(a);
    }
    forall a: string, b: string, c: string | StringLess(a, b) && StringLess(b, c)
      ensures StringLess(a, c)
    {
      StringLessTransitive(a, b, c);
    }
    forall a: string, b: string | a != b
      ensures StringLess(a, b) || StringLess(b, a)
    {
      StringLessConnected(a, b);
    }
  }

  ghost predicate NonIncreasing<T>(s: seq<T>, key: T -> int) {
    forall i, j :: 0 <= i < j < |s| ==> key(s[i]) >= key(s[j])
  }

  /** Puts `x` before the first element of `s` whose key is not larger. */
  function InsertDesc<T(==)>(x: T, s: seq<T>, key: T -> int): (r: seq<T>)
    requires NonIncreasing(s, key)
    ensures NonIncreasing(r, key)
    ensures multiset(r) == multiset(s) + multiset{x}
    ensures |r| == |s| + 1 && (r[0] == x || (s != [] && r[0] == s[0]))
  {
    if s == [] || key(x) >= key(s[0]) then [x] + s
    else
      var rest := InsertDesc(x, s[1..], key);
      assert s == [s[0]] + s[1..];
      assert key(s[0]) >= key(rest[0]);
      [s[0]] + rest
  }

  /** A stable sort by descending key: rows with equal keys keep their order. */
  function SortDesc<T(==)>(xs: seq<T>, key: T -> int): (r: seq<T>)
    ensures NonIncreasing(r, key)
    ensures multiset(r) == multiset(xs)
  {
    if xs == [] then []
    else
      assert xs == [xs[0]] + xs[1..];
      InsertDesc(xs[0], SortDesc(xs[1..], key), key)
  }

  /** The first `n` rows, or all of them when there are fewer: SQL's LIMIT. */
  function Limit<T>(s: seq<T>, n: nat): (r: seq<T>)
    ensures |r| <= n && |r| <= |s|
    ensures |s| <= n ==> r == s
    ensures |s| > n ==> |r| == n
    ensures r == s[..|r|]
  {
    if |s| <= n then s else s[..n]
  }
}
