/** Generic grouping and ordering helpers used by the report tables:
    distinct values in first-seen order (what `Series.unique()` returns),
    occurrence counts (what `value_counts` and `groupby(...).count()`
    compute), sums, and a descending sort by a rank. */
module Groups {

  /** The distinct values of `xs`, each at its first occurrence. */
  function Distinct<K(==)>(xs: seq<K>): seq<K>
    decreases |xs|
  {
    if xs == [] then []
    else
      var d := Distinct(xs[..|xs| - 1]);
      if xs[|xs| - 1] in d then d else d + [xs[|xs| - 1]]
  }

  /** No value appears twice. */
  predicate NoDuplicates<K(==)>(d: seq<K>) {
    forall i, j :: 0 <= i < j < |d| ==> d[i] != d[j]
  }

  /** `Distinct` keeps exactly the values of `xs`, once each, so it is never
      longer than `xs` and is empty only when `xs` is. */
  lemma {:induction false} DistinctFacts<K>(xs: seq<K>)
    ensures forall x :: x in Distinct(xs) <==> x in xs
    ensures NoDuplicates(Distinct(xs))
    ensures |Distinct(xs)| <= |xs|
    ensures |Distinct(xs)| == 0 <==> |xs| == 0
    decreases |xs|
  {
    if xs != [] {
      var init := xs[..|xs| - 1];
      DistinctFacts(init);
      assert xs == init + [xs[|xs| - 1]];
    }
  }

  /** How many times `x` occurs in `xs`. */
  function Count<K(==)>(xs: seq<K>, x: K): nat
    decreases |xs|
  {
    if xs == [] then 0
    else Count(xs[..|xs| - 1], x) + (if xs[|xs| - 1] == x then 1 else 0)
  }

  /** A value occurs a positive number of times exactly when it is present,
      and never more often than the sequence is long. */
  lemma {:induction false} CountFacts<K>(xs: seq<K>, x: K)
    ensures Count(xs, x) > 0 <==> x in xs
    ensures Count(xs, x) <= |xs|
    decreases |xs|
  {
    if xs != [] {
      var init := xs[..|xs| - 1];
      CountFacts(init, x);
      assert xs == init + [xs[|xs| - 1]];
    }
  }

  /** The counts of `keys` in `xs`, added up. */
  function CountAll<K(==)>(xs: seq<K>, keys: seq<K>): nat
    decreases |keys|
  {
    if keys == [] then 0 else Count(xs, keys[0]) + CountAll(xs, keys[1..])
  }

  lemma {:induction false} CountAllAppend<K>(xs: seq<K>, keys: seq<K>, k: K)
    ensures CountAll(xs, keys + [k]) == CountAll(xs, keys) + Count(xs, k)
    decreases |keys|
  {
    if keys != [] {
      assert (keys + [k])[1..] == keys[1..] + [k];
      CountAllAppend(xs, keys[1..], k);
    }
  }

  /** Appending `x` to `xs` adds one to the total count over distinct keys
      when `x` is one of them, and nothing otherwise. */
  lemma {:induction false} CountAllSnoc<K>(xs: seq<K>, x: K, keys: seq<K>)
    requires NoDuplicates(keys)
    ensures CountAll(xs + [x], keys) == CountAll(xs, keys) + (if x in keys then 1 else 0)
    decreases |keys|
  {
    if keys != [] {
      assert (xs + [x])[..|xs + [x]| - 1] == xs;
      assert keys[0] !in keys[1..];
      CountAllSnoc(xs, x, keys[1..]);
    }
  }

  /** Every element is counted under exactly one of the distinct values:
      the counts of the distinct values add up to the length. */
  lemma {:induction false} CountConservation<K>(xs: seq<K>)
    ensures CountAll(xs, Distinct(xs)) == |xs|
    decreases |xs|
  {
    if xs != [] {
      var init := xs[..|xs| - 1];
      var x := xs[|xs| - 1];
      assert xs == init + [x];
      CountConservation(init);
      DistinctFacts(init);
      var d := Distinct(init);
      CountAllSnoc(init, x, d);
      if x !in d {
        CountAllAppend(xs, d, x);
        CountFacts(init, x);
        assert Count(xs, x) == Count(init, x) + 1;
      }
    }
  }

  /** `f` applied to each element, in order (a column of a table). */
  function Map<T, U>(s: seq<T>, f: T -> U): (r: seq<U>)
    ensures |r| == |s|
    decreases |s|
  {
    if s == [] then [] else Map(s[..|s| - 1], f) + [f(s[|s| - 1])]
  }

  /** Each entry of the column is `f` of the element in the same place. */
  lemma {:induction false} MapAt<T, U>(s: seq<T>, f: T -> U)
    ensures forall i :: 0 <= i < |s| ==> Map(s, f)[i] == f(s[i])
    decreases |s|
  {
    if s != [] {
      var init := s[..|s| - 1];
      MapAt(init, f);
      forall i | 0 <= i < |init| ensures Map(s, f)[i] == f(s[i]) {
        assert s[i] == init[i];
      }
    }
  }

  /** A value is in the column exactly when some element maps to it. */
  lemma MapIn<T, U>(s: seq<T>, f: T -> U, x: U)
    ensures x in Map(s, f) <==> exists y :: y in s && f(y) == x
  {
    MapAt(s, f);
    if x in Map(s, f) {
      var i :| 0 <= i < |s| && Map(s, f)[i] == x;
      assert s[i] in s;
    }
    if y :| y in s && f(y) == x {
      var i :| 0 <= i < |s| && s[i] == y;
      assert Map(s, f)[i] == x;
    }
  }

  /** The elements of `s` whose `f` is `k`, in order (one group of a
      `groupby` on `f`). */
  function Members<T, K(==)>(s: seq<T>, f: T -> K, k: K): seq<T>
    decreases |s|
  {
    if s == [] then []
    else
      var rest := Members(s[..|s| - 1], f, k);
      if f(s[|s| - 1]) == k then rest + [s[|s| - 1]] else rest
  }

  /** A group holds exactly the elements of `s` with key `k`, as many as
      `k` occurs in the key column. */
  lemma {:induction false} MembersFacts<T, K>(s: seq<T>, f: T -> K, k: K)
    ensures |Members(s, f, k)| == Count(Map(s, f), k)
    ensures forall y :: y in Members(s, f, k) <==> y in s && f(y) == k
    decreases |s|
  {
    if s != [] {
      var init := s[..|s| - 1];
      MembersFacts(init, f, k);
      assert Map(s, f)[..|s| - 1] == Map(init, f);
      assert s == init + [s[|s| - 1]];
    }
  }

  /** `f` added up over `s`. */
  function SumBy<T>(s: seq<T>, f: T -> int): int
    decreases |s|
  {
    if s == [] then 0 else f(s[0]) + SumBy(s[1..], f)
  }

  lemma {:induction false} SumByAppend<T>(a: seq<T>, b: seq<T>, f: T -> int)
    ensures SumBy(a + b, f) == SumBy(a, f) + SumBy(b, f)
    decreases |a|
  {
    if a == [] {
      assert a + b == b;
    } else {
      assert (a + b)[1..] == a[1..] + b;
      SumByAppend(a[1..], b, f);
    }
  }

  /** `s` is ordered from the highest rank to the lowest. */
  predicate NonIncreasing<T>(s: seq<T>, rank: T -> int) {
    forall i, j :: 0 <= i < j < |s| ==> rank(s[i]) >= rank(s[j])
  }

  /** Puts `x` into the descending `s` before the first element of lower or
      equal rank. */
  function Insert<T>(x: T, s: seq<T>, rank: T -> int): (r: seq<T>)
    ensures |r| == |s| + 1
    decreases |s|
  {
    if s == [] || rank(s[0]) <= rank(x) then [x] + s
    else [s[0]] + Insert(x, s[1..], rank)
  }

  /** A descending sort by `rank` (insertion sort). */
  function SortDesc<T>(s: seq<T>, rank: T -> int): (r: seq<T>)
    ensures |r| == |s|
    decreases |s|
  {
    if s == [] then [] else Insert(s[0], SortDesc(s[1..], rank), rank)
  }

  /** Inserting into a descending sequence keeps it descending. */
  lemma {:induction false} InsertSorted<T>(x: T, s: seq<T>, rank: T -> int)
    requires NonIncreasing(s, rank)
    ensures NonIncreasing(Insert(x, s, rank), rank)
    decreases |s|
  {
    var r := Insert(x, s, rank);
    if s == [] || rank(s[0]) <= rank(x) {
      forall i, j | 0 <= i < j < |r| ensures rank(r[i]) >= rank(r[j]) {
        assert r[j] == s[j - 1];
        if i > 0 {
          assert r[i] == s[i - 1];
        }
      }
    } else {
      var t := Insert(x, s[1..], rank);
      InsertSorted(x, s[1..], rank);
      InsertHead(x, s[1..], rank);
      forall i, j | 0 <= i < j < |r| ensures rank(r[i]) >= rank(r[j]) {
        assert r[j] == t[j - 1];
        if i > 0 {
          assert r[i] == t[i - 1];
        } else {
          assert rank(s[0]) >= rank(t[0]);
        }
      }
    }
  }

  /** The first element after an insertion is the inserted one or the old first. */
  lemma InsertHead<T>(x: T, s: seq<T>, rank: T -> int)
    ensures Insert(x, s, rank)[0] == x || (s != [] && Insert(x, s, rank)[0] == s[0])
  {
  }

  /** Inserting adds the one element and nothing else. */
  lemma {:induction false} InsertPermutes<T>(x: T, s: seq<T>, rank: T -> int)
    ensures multiset(Insert(x, s, rank)) == multiset{x} + multiset(s)
    decreases |s|
  {
    if s != [] && rank(s[0]) > rank(x) {
      InsertPermutes(x, s[1..], rank);
      assert s == [s[0]] + s[1..];
    }
  }

  /** Inserting adds the inserted element's value to any sum. */
  lemma {:induction false} InsertSum<T>(x: T, s: seq<T>, rank: T -> int, f: T -> int)
    ensures SumBy(Insert(x, s, rank), f) == f(x) + SumBy(s, f)
    decreases |s|
  {
    var r := Insert(x, s, rank);
    if s == [] || rank(s[0]) <= rank(x) {
      assert r[1..] == s;
    } else {
      InsertSum(x, s[1..], rank, f);
      assert r[1..] == Insert(x, s[1..], rank);
      assert SumBy(s, f) == f(s[0]) + SumBy(s[1..], f);
    }
  }

  /** The sort orders by rank and keeps every element with its
      multiplicity. */
  lemma {:induction false} SortDescFacts<T>(s: seq<T>, rank: T -> int)
    ensures NonIncreasing(SortDesc(s, rank), rank)
    ensures multiset(SortDesc(s, rank)) == multiset(s)
    decreases |s|
  {
    if s != [] {
      SortDescFacts(s[1..], rank);
      InsertSorted(s[0], SortDesc(s[1..], rank), rank);
      InsertPermutes(s[0], SortDesc(s[1..], rank), rank);
      assert s == [s[0]] + s[1..];
    }
  }

  /** The sort keeps every sum. */
  lemma {:induction false} SortDescSum<T>(s: seq<T>, rank: T -> int, f: T -> int)
    ensures SumBy(SortDesc(s, rank), f) == SumBy(s, f)
    decreases |s|
  {
    if s != [] {
      SortDescSum(s[1..], rank, f);
      InsertSum(s[0], SortDesc(s[1..], rank), rank, f);
    }
  }

  /** The count carried by a (value, count) pair. */
  function CountOf<K>(pc: (K, nat)): int {
    pc.1
  }

  /** Each of `ds` paired with its count in `xs`, in the order of `ds`. */
  function Tally<K(==)>(xs: seq<K>, ds: seq<K>): (r: seq<(K, nat)>)
    ensures |r| == |ds|
    decreases |ds|
  {
    if ds == [] then [] else [(ds[0], Count(xs, ds[0]))] + Tally(xs, ds[1..])
  }

  /** The pairs of a tally are exactly the values of `ds` with their counts,
      and the counts add up to the total count of `ds`. */
  lemma {:induction false} TallyFacts<K>(xs: seq<K>, ds: seq<K>)
    ensures forall pc :: pc in Tally(xs, ds) <==> pc.0 in ds && pc.1 == Count(xs, pc.0)
    ensures SumBy(Tally(xs, ds), CountOf) == CountAll(xs, ds)
    decreases |ds|
  {
    if ds != [] {
      TallyFacts(xs, ds[1..]);
      assert ds == [ds[0]] + ds[1..];
    }
  }

  /** `value_counts()`: each distinct value with its number of occurrences,
      the most frequent first. */
  function ValueCounts<K(==)>(xs: seq<K>): seq<(K, nat)> {
    SortDesc(Tally(xs, Distinct(xs)), CountOf)
  }

  /** The value counts list every value of `xs` once, with its count, most
      frequent first, and the counts add up to the length of `xs`. */
  lemma ValueCountsFacts<K>(xs: seq<K>)
    ensures NonIncreasing(ValueCounts(xs), CountOf)
    ensures forall pc :: pc in ValueCounts(xs) <==> pc.0 in xs && pc.1 == Count(xs, pc.0)
    ensures |ValueCounts(xs)| == |Distinct(xs)|
    ensures SumBy(ValueCounts(xs), CountOf) == |xs|
  {
    var t := Tally(xs, Distinct(xs));
    DistinctFacts(xs);
    TallyFacts(xs, Distinct(xs));
    SortDescFacts(t, CountOf);
    SortDescSum(t, CountOf, CountOf);
    CountConservation(xs);
    forall pc ensures pc in ValueCounts(xs) <==> pc in t {
      assert pc in multiset(ValueCounts(xs)) <==> pc in multiset(t);
    }
  }
}
