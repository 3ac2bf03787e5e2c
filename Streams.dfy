/** The java.util.stream stages and terminal operations that the demos rely on,
    restated as total functions over finite sequences.  A stream pipeline
    `xs.stream().filter(p).map(f).collect(toList())` is `Map(f, Filter(p, xs))`;
    sequential evaluation order is the sequence order. */
module Streams {
  import opened Wrappers

  // ---------------------------------------------------------------------------
  // Sources
  // ---------------------------------------------------------------------------

  /** IntStream.range(lo, hi): the half-open interval lo, lo+1, ..., hi-1. */
  function Range(lo: int, hi: int): (r: seq<int>)
    ensures |r| == if lo <= hi then hi - lo else 0
    ensures forall i :: 0 <= i < |r| ==> r[i] == lo + i
    decreases hi - lo
  {
    if hi <= lo then [] else Range(lo, hi - 1) + [hi - 1]
  }

  /** The k-th element of Stream.iterate(seed, f): f applied k times to seed. */
  function IterateNth<T>(seed: T, f: T -> T, k: nat): T
  {
    if k == 0 then seed else f(IterateNth(seed, f, k - 1))
  }

  /** Stream.iterate(seed, f).limit(n): the first n elements of the infinite stream. */
  function Iterate<T>(seed: T, f: T -> T, n: nat): (r: seq<T>)
    ensures |r| == n
    ensures forall k :: 0 <= k < n ==> r[k] == IterateNth(seed, f, k)
  {
    if n == 0 then [] else Iterate(seed, f, n - 1) + [IterateNth(seed, f, n - 1)]
  }

  /** Bounding a longer prefix of the iterate stream by limit(n) gives the same
      elements: the result of limit(n) does not depend on how far the source runs. */
  lemma {:induction false} IterateLimit<T>(seed: T, f: T -> T, n: nat, m: nat)
    requires n <= m
    ensures Limit(n, Iterate(seed, f, m)) == Iterate(seed, f, n)
  {
    var a, b := Limit(n, Iterate(seed, f, m)), Iterate(seed, f, n);
    assert |a| == |b|;
    forall k | 0 <= k < n ensures a[k] == b[k] {
    }
  }

  // ---------------------------------------------------------------------------
  // Stateless intermediate stages
  // ---------------------------------------------------------------------------

  /** filter(p): the elements satisfying p, in encounter order. */
  function Filter<T>(p: T -> bool, xs: seq<T>): (r: seq<T>)
    ensures |r| <= |xs|
    ensures forall i :: 0 <= i < |r| ==> p(r[i])
    ensures forall x :: x in r ==> x in xs && p(x)
    ensures forall x :: x in xs && p(x) ==> x in r
    ensures multiset(r) <= multiset(xs)
    decreases |xs|
  {
    if xs == [] then []
    else
      var init, last := xs[..|xs| - 1], xs[|xs| - 1];
      assert xs == init + [last];
      var r0 := Filter(p, init);
      if p(last) then r0 + [last] else r0
  }

  /** Filtering a concatenation filters each part: a stream split into two
      halves and filtered separately yields the same elements in the same order. */
  lemma {:induction false} FilterConcat<T>(p: T -> bool, xs: seq<T>, ys: seq<T>)
    ensures Filter(p, xs + ys) == Filter(p, xs) + Filter(p, ys)
    decreases |ys|
  {
    if ys == [] {
      assert xs + ys == xs;
    } else {
      var init, last := ys[..|ys| - 1], ys[|ys| - 1];
      assert (xs + ys)[..|xs + ys| - 1] == xs + init;
      assert (xs + ys)[|xs + ys| - 1] == last;
      FilterConcat(p, xs, init);
    }
  }

  /** filter(p) keeps every occurrence of a value satisfying p and no
      occurrence of any other value. */
  lemma {:induction false} FilterMultiplicity<T>(p: T -> bool, xs: seq<T>)
    ensures forall x :: multiset(Filter(p, xs))[x] == if p(x) then multiset(xs)[x] else 0
    decreases |xs|
  {
    if xs != [] {
      var init, last := xs[..|xs| - 1], xs[|xs| - 1];
      assert xs == init + [last];
      FilterMultiplicity(p, init);
    }
  }

  /** Filtering depends only on which elements the predicate accepts. */
  lemma {:induction false} FilterExtensional<T>(p: T -> bool, q: T -> bool, xs: seq<T>)
    requires forall x :: x in xs ==> p(x) == q(x)
    ensures Filter(p, xs) == Filter(q, xs)
    decreases |xs|
  {
    if xs != [] {
      FilterExtensional(p, q, xs[..|xs| - 1]);
    }
  }

  /** map(f): one output per input, position by position. */
  function Map<T, U>(f: T -> U, xs: seq<T>): (r: seq<U>)
    ensures |r| == |xs|
    ensures forall i :: 0 <= i < |xs| ==> r[i] == f(xs[i])
    decreases |xs|
  {
    if xs == [] then [] else Map(f, xs[..|xs| - 1]) + [f(xs[|xs| - 1])]
  }

  /** flatMap(f): the concatenation of f's results, in encounter order. */
  function FlatMap<T, U>(f: T -> seq<U>, xs: seq<T>): (r: seq<U>)
    ensures forall y :: y in r ==> exists i :: 0 <= i < |xs| && y in f(xs[i])
    ensures forall i, y :: 0 <= i < |xs| && y in f(xs[i]) ==> y in r
    decreases |xs|
  {
    if xs == [] then []
    else
      var init := xs[..|xs| - 1];
      var r0 := FlatMap(f, init);
      assert forall i :: 0 <= i < |init| ==> init[i] == xs[i];
      r0 + f(xs[|xs| - 1])
  }

  /** flatMap over a concatenation is the concatenation of the two flatMaps:
      each input contributes its whole stream, in encounter order. */
  lemma {:induction false} FlatMapConcat<T, U>(f: T -> seq<U>, xs: seq<T>, ys: seq<T>)
    ensures FlatMap(f, xs + ys) == FlatMap(f, xs) + FlatMap(f, ys)
    ensures forall x :: FlatMap(f, [x]) == f(x)
    decreases |ys|
  {
    forall x ensures FlatMap(f, [x]) == f(x) {
      assert [x][..0] == [];
    }
    if ys == [] {
      assert xs + ys == xs;
    } else {
      var init, last := ys[..|ys| - 1], ys[|ys| - 1];
      assert (xs + ys)[..|xs + ys| - 1] == xs + init;
      assert (xs + ys)[|xs + ys| - 1] == last;
      FlatMapConcat(f, xs, init);
    }
  }

  /** flatMap over a function returning one-element streams is map. */
  lemma {:induction false} FlatMapSingletons<T, U>(f: T -> seq<U>, g: T -> U, xs: seq<T>)
    requires forall x :: f(x) == [g(x)]
    ensures FlatMap(f, xs) == Map(g, xs)
    decreases |xs|
  {
    if xs != [] {
      FlatMapSingletons(f, g, xs[..|xs| - 1]);
    }
  }

  // ---------------------------------------------------------------------------
  // distinct()
  // ---------------------------------------------------------------------------

  /** No value occurs twice. */
  predicate NoDup<T(==)>(s: seq<T>)
  {
    forall i, j :: 0 <= i < j < |s| ==> s[i] != s[j]
  }

  /** The position of the first occurrence of x in xs. */
  function FirstIndex<T(==)>(xs: seq<T>, x: T): (r: nat)
    requires x in xs
    ensures r < |xs| && xs[r] == x && x !in xs[..r]
    decreases |xs|
  {
    var init := xs[..|xs| - 1];
    if x in init then
      var k := FirstIndex(init, x);
      assert xs[..k] == init[..k];
      k
    else
      |xs| - 1
  }

  /** distinct(): every value once, at the place of its first occurrence
      (its properties are stated by DistinctSpec). */
  function Distinct<T(==)>(xs: seq<T>): seq<T>
    decreases |xs|
  {
    if xs == [] then []
    else
      var d := Distinct(xs[..|xs| - 1]);
      if xs[|xs| - 1] in d then d else d + [xs[|xs| - 1]]
  }

  /** distinct() drops repeats only: no value twice, exactly the input's values,
      and those in the order of their first occurrences in the input. */
  lemma {:induction false} DistinctSpec<T>(xs: seq<T>)
    ensures NoDup(Distinct(xs))
    ensures forall x :: x in Distinct(xs) ==> x in xs
    ensures forall x :: x in xs ==> x in Distinct(xs)
    ensures forall i, j :: 0 <= i < j < |Distinct(xs)| ==>
              FirstIndex(xs, Distinct(xs)[i]) < FirstIndex(xs, Distinct(xs)[j])
    decreases |xs|
  {
    if xs != [] {
      var init, last := xs[..|xs| - 1], xs[|xs| - 1];
      assert xs == init + [last];
      var d, r := Distinct(init), Distinct(xs);
      DistinctSpec(init);
      assert r == if last in d then d else d + [last];
      forall i, j | 0 <= i < j < |r| ensures FirstIndex(xs, r[i]) < FirstIndex(xs, r[j]) {
        assert r[i] == d[i] && r[i] in init;
        FirstIndexSnoc(xs, r[i]);
        if j < |d| {
          assert r[j] == d[j] && r[j] in init;
          FirstIndexSnoc(xs, r[j]);
          assert FirstIndex(init, d[i]) < FirstIndex(init, d[j]);
        } else {
          assert r[j] == last && last !in init;
          FirstIndexSnoc(xs, last);
        }
      }
    }
  }

  /** The first index of x in a non-empty xs, by whether x occurs before the last place. */
  lemma FirstIndexSnoc<T>(xs: seq<T>, x: T)
    requires x in xs
    ensures x in xs[..|xs| - 1] ==> FirstIndex(xs, x) == FirstIndex(xs[..|xs| - 1], x) < |xs| - 1
    ensures x !in xs[..|xs| - 1] ==> FirstIndex(xs, x) == |xs| - 1
  {
  }

  /** One more element: distinct() keeps it exactly when it is new. */
  lemma DistinctSnoc<T>(xs: seq<T>, k: nat)
    requires k < |xs|
    ensures Distinct(xs[..k + 1]) ==
              if xs[k] in Distinct(xs[..k]) then Distinct(xs[..k]) else Distinct(xs[..k]) + [xs[k]]
  {
    assert xs[..k + 1][..k] == xs[..k];
  }

  /** Without repeats, every value occurs at most once. */
  lemma {:induction false} NoDupCount<T>(s: seq<T>, v: T)
    requires NoDup(s)
    ensures multiset(s)[v] <= 1
    decreases |s|
  {
    if s != [] {
      var init, last := s[..|s| - 1], s[|s| - 1];
      assert s == init + [last];
      assert NoDup(init);
      NoDupCount(init, v);
      assert last !in init;
    }
  }

  /** Two equal elements at different places make the value occur twice. */
  lemma TwoPositions<T>(s: seq<T>, i: nat, j: nat)
    requires i < j < |s|
    ensures s[i] == s[j] ==> multiset(s)[s[i]] >= 2
  {
    assert s == s[..j] + s[j..];
    assert s[i] in s[..j] && s[j] in s[j..];
  }

  /** A permutation of a sequence without repeats has no repeats either. */
  lemma NoDupPermutation<T>(a: seq<T>, b: seq<T>)
    requires NoDup(a) && multiset(a) == multiset(b)
    ensures NoDup(b)
  {
    forall i, j | 0 <= i < j < |b| ensures b[i] != b[j] {
      TwoPositions(b, i, j);
      NoDupCount(a, b[i]);
    }
  }

  /** A sequence without duplicates is its own distinct(). */
  lemma {:induction false} DistinctOfNoDup<T>(xs: seq<T>)
    requires NoDup(xs)
    ensures Distinct(xs) == xs
    decreases |xs|
  {
    if xs != [] {
      var init := xs[..|xs| - 1];
      assert NoDup(init);
      DistinctOfNoDup(init);
      assert xs[|xs| - 1] !in init;
    }
  }

  /** distinct() is idempotent. */
  lemma DistinctIdempotent<T>(xs: seq<T>)
    ensures Distinct(Distinct(xs)) == Distinct(xs)
  {
    DistinctSpec(xs);
    DistinctOfNoDup(Distinct(xs));
  }

  // ---------------------------------------------------------------------------
  // sorted(comparator)
  // ---------------------------------------------------------------------------

  /** The sign of a comparator result. */
  function Sign(n: int): int
  {
    if n < 0 then -1 else if n == 0 then 0 else 1
  }

  /** java.util.Comparator's first law: sgn(compare(a, b)) == -sgn(compare(b, a)). */
  ghost predicate SignAntisymmetric<T(!new)>(cmp: (T, T) -> int)
  {
    forall a, b :: Sign(cmp(a, b)) == -Sign(cmp(b, a))
  }

  /** Adjacent elements are in comparator order. */
  predicate SortedBy<T>(cmp: (T, T) -> int, s: seq<T>)
  {
    forall i :: 0 <= i < |s| - 1 ==> cmp(s[i], s[i + 1]) <= 0
  }

  /** Insert x before the first element it does not exceed (so x precedes
      the elements it ties with, which came later in the input). */
  function Insert<T>(cmp: (T, T) -> int, x: T, ys: seq<T>): (r: seq<T>)
    ensures |r| == |ys| + 1
    ensures multiset(r) == multiset(ys) + multiset{x}
    ensures r[0] == x || (ys != [] && r[0] == ys[0])
  {
    if ys == [] || cmp(x, ys[0]) <= 0 then [x] + ys
    else
      assert ys == [ys[0]] + ys[1..];
      [ys[0]] + Insert(cmp, x, ys[1..])
  }

  /** sorted(cmp): an insertion sort; the result is a permutation of the input
      (SortByStable below shows that it is stable). */
  function SortBy<T>(cmp: (T, T) -> int, xs: seq<T>): (r: seq<T>)
    ensures |r| == |xs|
    ensures multiset(r) == multiset(xs)
  {
    if xs == [] then []
    else
      assert xs == [xs[0]] + xs[1..];
      Insert(cmp, xs[0], SortBy(cmp, xs[1..]))
  }

  lemma {:induction false} InsertSorted<T(!new)>(cmp: (T, T) -> int, x: T, ys: seq<T>)
    requires SignAntisymmetric(cmp)
    requires SortedBy(cmp, ys)
    ensures SortedBy(cmp, Insert(cmp, x, ys))
  {
    if ys == [] || cmp(x, ys[0]) <= 0 {
    } else {
      var rest := Insert(cmp, x, ys[1..]);
      assert SortedBy(cmp, ys[1..]);
      InsertSorted(cmp, x, ys[1..]);
      assert Sign(cmp(x, ys[0])) == -Sign(cmp(ys[0], x));
      assert cmp(ys[0], rest[0]) <= 0;
    }
  }

  /** With a comparator obeying the sign law, sorted() orders adjacent elements. */
  lemma {:induction false} SortBySorted<T(!new)>(cmp: (T, T) -> int, xs: seq<T>)
    requires SignAntisymmetric(cmp)
    ensures SortedBy(cmp, SortBy(cmp, xs))
  {
    if xs != [] {
      SortBySorted(cmp, xs[1..]);
      InsertSorted(cmp, xs[0], SortBy(cmp, xs[1..]));
    }
  }

  /** Sorting an already sorted sequence reproduces it. */
  lemma {:induction false} SortByOfSorted<T>(cmp: (T, T) -> int, xs: seq<T>)
    requires SortedBy(cmp, xs)
    ensures SortBy(cmp, xs) == xs
  {
    if xs != [] {
      assert SortedBy(cmp, xs[1..]);
      SortByOfSorted(cmp, xs[1..]);
      assert xs == [xs[0]] + xs[1..];
    }
  }

  /** sorted() is idempotent. */
  lemma SortByIdempotent<T(!new)>(cmp: (T, T) -> int, xs: seq<T>)
    requires SignAntisymmetric(cmp)
    ensures SortBy(cmp, SortBy(cmp, xs)) == SortBy(cmp, xs)
  {
    SortBySorted(cmp, xs);
    SortByOfSorted(cmp, SortBy(cmp, xs));
  }

  /** The elements tied with a under cmp. */
  function TiedWith<T>(cmp: (T, T) -> int, a: T): T -> bool
  {
    x => cmp(x, a) == 0
  }

  /** Two elements tied with a common third are tied with each other: the
      comparator's ties form equivalence classes. */
  ghost predicate TiesTransitive<T(!new)>(cmp: (T, T) -> int)
  {
    forall x, y, a :: cmp(x, a) == 0 && cmp(y, a) == 0 ==> cmp(x, y) == 0
  }

  /** Two neighbours of which at most one passes the filter can swap places
      without changing what the filter yields. */
  lemma SwapFilter<T>(p: T -> bool, x: T, y: T, rest: seq<T>)
    requires !(p(x) && p(y))
    ensures Filter(p, [y] + ([x] + rest)) == Filter(p, [x] + ([y] + rest))
  {
    var fx, fy, fr := Filter(p, [x]), Filter(p, [y]), Filter(p, rest);
    FilterConcat(p, [y], [x] + rest);
    FilterConcat(p, [x], rest);
    FilterConcat(p, [x], [y] + rest);
    FilterConcat(p, [y], rest);
    calc {
      Filter(p, [y] + ([x] + rest));
      fy + (fx + fr);
      { if p(x) { assert fy == []; } else { assert fx == []; } }
      fx + (fy + fr);
      Filter(p, [x] + ([y] + rest));
    }
  }

  /** Inserting x leaves the order within every tie class as if x were put in front. */
  lemma {:induction false} InsertStable<T(!new)>(cmp: (T, T) -> int, x: T, ys: seq<T>, a: T)
    requires TiesTransitive(cmp)
    ensures Filter(TiedWith(cmp, a), Insert(cmp, x, ys)) == Filter(TiedWith(cmp, a), [x] + ys)
    decreases |ys|
  {
    var e := TiedWith(cmp, a);
    if ys != [] && cmp(x, ys[0]) > 0 {
      var y, rest := ys[0], ys[1..];
      assert ys == [y] + rest;
      assert Insert(cmp, x, ys) == [y] + Insert(cmp, x, rest);
      InsertStable(cmp, x, rest, a);
      FilterConcat(e, [y], Insert(cmp, x, rest));
      FilterConcat(e, [y], [x] + rest);
      assert !(e(x) && e(y));
      SwapFilter(e, x, y, rest);
    }
  }

  /** sorted() is stable: elements that compare equal keep their encounter order. */
  lemma {:induction false} SortByStable<T(!new)>(cmp: (T, T) -> int, xs: seq<T>, a: T)
    requires TiesTransitive(cmp)
    ensures Filter(TiedWith(cmp, a), SortBy(cmp, xs)) == Filter(TiedWith(cmp, a), xs)
  {
    if xs != [] {
      var e := TiedWith(cmp, a);
      var rest := xs[1..];
      assert xs == [xs[0]] + rest;
      SortByStable(cmp, rest, a);
      InsertStable(cmp, xs[0], SortBy(cmp, rest), a);
      FilterConcat(e, [xs[0]], SortBy(cmp, rest));
      FilterConcat(e, [xs[0]], rest);
    }
  }

  /** Order between neighbours extends to every pair (rank is the sort key). */
  lemma {:induction false} AdjacentToPairwise<T>(rank: T -> int, s: seq<T>)
    requires forall i :: 0 <= i < |s| - 1 ==> rank(s[i]) <= rank(s[i + 1])
    ensures forall i, j :: 0 <= i <= j < |s| ==> rank(s[i]) <= rank(s[j])
    decreases |s|
  {
    if s != [] {
      var init := s[..|s| - 1];
      AdjacentToPairwise(rank, init);
      forall i, j | 0 <= i <= j < |s| ensures rank(s[i]) <= rank(s[j]) {
        if j < |init| {
          assert init[i] == s[i] && init[j] == s[j];
        } else if i < j {
          assert init[i] == s[i] && init[j - 1] == s[j - 1];
        }
      }
    }
  }

  // ---------------------------------------------------------------------------
  // limit / skip / takeWhile
  // ---------------------------------------------------------------------------

  /** limit(n): the first min(n, |xs|) elements. */
  function Limit<T>(n: nat, xs: seq<T>): (r: seq<T>)
    ensures |r| == if n < |xs| then n else |xs|
    ensures forall i :: 0 <= i < |r| ==> r[i] == xs[i]
  {
    if n < |xs| then xs[..n] else xs
  }

  /** skip(n): what remains after the first n elements. */
  function Skip<T>(n: nat, xs: seq<T>): (r: seq<T>)
    ensures |r| == if n < |xs| then |xs| - n else 0
    ensures forall i :: 0 <= i < |r| ==> r[i] == xs[n + i]
  {
    if n < |xs| then xs[n..] else []
  }

  /** limit(n) and skip(n) split a stream in two. */
  lemma LimitSkip<T>(n: nat, xs: seq<T>)
    ensures Limit(n, xs) + Skip(n, xs) == xs
  {
  }

  /** Filtering the first n elements yields a prefix of filtering them all. */
  lemma FilterLimitPrefix<T>(p: T -> bool, n: nat, xs: seq<T>)
    ensures Filter(p, Limit(n, xs)) <= Filter(p, xs)
  {
    LimitSkip(n, xs);
    FilterConcat(p, Limit(n, xs), Skip(n, xs));
  }

  /** Filtering mapped values by q is mapping the values filtered by p, when
      q on f(x) decides as p on x. */
  lemma {:induction false} FilterMap<T, U>(p: T -> bool, f: T -> U, q: U -> bool, xs: seq<T>)
    requires forall x :: x in xs ==> q(f(x)) == p(x)
    ensures Filter(q, Map(f, xs)) == Map(f, Filter(p, xs))
    decreases |xs|
  {
    if xs != [] {
      var init, last := xs[..|xs| - 1], xs[|xs| - 1];
      assert Map(f, xs)[..|xs| - 1] == Map(f, init);
      FilterMap(p, f, q, init);
    }
  }

  /** takeWhile(p): the longest prefix whose elements all satisfy p. */
  function TakeWhile<T>(p: T -> bool, xs: seq<T>): (r: seq<T>)
    ensures |r| <= |xs| && r == xs[..|r|]
    ensures forall i :: 0 <= i < |r| ==> p(r[i])
    ensures |r| < |xs| ==> !p(xs[|r|])
  {
    if xs == [] || !p(xs[0]) then []
    else [xs[0]] + TakeWhile(p, xs[1..])
  }

  /** takeWhile stops at the first failing element: whatever follows it is irrelevant. */
  lemma {:induction false} TakeWhileStops<T>(p: T -> bool, xs: seq<T>, m: nat)
    requires m < |xs| && !p(xs[m])
    requires forall i :: 0 <= i < m ==> p(xs[i])
    ensures TakeWhile(p, xs) == xs[..m]
  {
    var r := TakeWhile(p, xs);
  }

  // ---------------------------------------------------------------------------
  // Terminal operations
  // ---------------------------------------------------------------------------

  /** count(): one per element. */
  function Count<T>(xs: seq<T>): (r: nat)
    ensures r == |xs|
    decreases |xs|
  {
    if xs == [] then 0 else Count(xs[..|xs| - 1]) + 1
  }

  /** reduce(identity, op): op(...op(op(identity, x0), x1)..., xn-1). */
  function Reduce<T>(identity: T, op: (T, T) -> T, xs: seq<T>): T
    decreases |xs|
  {
    if xs == [] then identity else op(Reduce(identity, op, xs[..|xs| - 1]), xs[|xs| - 1])
  }

  /** reduce(op) without identity: empty for an empty stream, otherwise the
      fold of the tail starting from the first element. */
  function ReduceFirst<T>(op: (T, T) -> T, xs: seq<T>): (r: Option<T>)
    ensures r.Some? <==> xs != []
  {
    if xs == [] then None else Some(Reduce(xs[0], op, xs[1..]))
  }

  /** BinaryOperator.maxBy(comparing(rank)): keeps the left operand on ties. */
  function MaxBy<T>(rank: T -> int, a: T, b: T): T
  {
    if rank(a) >= rank(b) then a else b
  }

  /** BinaryOperator.minBy(comparing(rank)): keeps the left operand on ties. */
  function MinBy<T>(rank: T -> int, a: T, b: T): T
  {
    if rank(a) <= rank(b) then a else b
  }

  /** Folding with maxBy yields an element of the stream ranked at least as high as every element. */
  lemma {:induction false} ReduceMaxBy<T>(rank: T -> int, acc: T, xs: seq<T>)
    ensures var m := Reduce(acc, (a, b) => MaxBy(rank, a, b), xs);
      (m == acc || m in xs) && rank(acc) <= rank(m) && forall x :: x in xs ==> rank(x) <= rank(m)
    decreases |xs|
  {
    if xs != [] {
      var init := xs[..|xs| - 1];
      ReduceMaxBy(rank, acc, init);
      assert xs == init + [xs[|xs| - 1]];
    }
  }

  /** Folding with minBy yields an element of the stream ranked at most as high as every element. */
  lemma {:induction false} ReduceMinBy<T>(rank: T -> int, acc: T, xs: seq<T>)
    ensures var m := Reduce(acc, (a, b) => MinBy(rank, a, b), xs);
      (m == acc || m in xs) && rank(m) <= rank(acc) && forall x :: x in xs ==> rank(m) <= rank(x)
    decreases |xs|
  {
    if xs != [] {
      var init := xs[..|xs| - 1];
      ReduceMinBy(rank, acc, init);
      assert xs == init + [xs[|xs| - 1]];
    }
  }

  /** Stream.max(comparing(rank)): present exactly for a non-empty stream, and
      then an element that bounds every element from above. */
  lemma StreamMax<T>(rank: T -> int, xs: seq<T>)
    ensures var r := ReduceFirst((a, b) => MaxBy(rank, a, b), xs);
      (r.Some? <==> xs != []) &&
      (r.Some? ==> r.value in xs && forall x :: x in xs ==> rank(x) <= rank(r.value))
  {
    if xs != [] {
      ReduceMaxBy(rank, xs[0], xs[1..]);
      assert xs == [xs[0]] + xs[1..];
    }
  }

  /** Stream.min(comparing(rank)): present exactly for a non-empty stream, and
      then an element that bounds every element from below. */
  lemma StreamMin<T>(rank: T -> int, xs: seq<T>)
    ensures var r := ReduceFirst((a, b) => MinBy(rank, a, b), xs);
      (r.Some? <==> xs != []) &&
      (r.Some? ==> r.value in xs && forall x :: x in xs ==> rank(r.value) <= rank(x))
  {
    if xs != [] {
      ReduceMinBy(rank, xs[0], xs[1..]);
      assert xs == [xs[0]] + xs[1..];
    }
  }

  /** findFirst() after filter(p): the earliest element satisfying p, or empty. */
  function FindFirst<T>(p: T -> bool, xs: seq<T>): (r: Option<T>)
    ensures r.None? <==> forall i :: 0 <= i < |xs| ==> !p(xs[i])
    ensures r.Some? ==> exists i :: 0 <= i < |xs| && xs[i] == r.value && p(xs[i]) &&
                                    forall j :: 0 <= j < i ==> !p(xs[j])
  {
    if xs == [] then None
    else if p(xs[0]) then Some(xs[0])
    else
      var r := FindFirst(p, xs[1..]);
      assert r.Some? ==> exists i :: 1 <= i < |xs| && xs[i] == r.value && p(xs[i]) &&
                                     forall j :: 1 <= j < i ==> !p(xs[j]);
      r
  }

  /** findFirst().orElse(d) is d exactly when nothing matches, else the first match. */
  lemma FindFirstOrElse<T>(p: T -> bool, xs: seq<T>, d: T)
    ensures (forall i :: 0 <= i < |xs| ==> !p(xs[i])) ==> FindFirst(p, xs).GetOr(d) == d
    ensures forall i :: 0 <= i < |xs| && p(xs[i]) && (forall j :: 0 <= j < i ==> !p(xs[j])) ==>
              FindFirst(p, xs).GetOr(d) == xs[i]
  {
    var r := FindFirst(p, xs);
    if r.Some? {
      var k :| 0 <= k < |xs| && xs[k] == r.value && p(xs[k]) && forall j :: 0 <= j < k ==> !p(xs[j]);
      forall i | 0 <= i < |xs| && p(xs[i]) && (forall j :: 0 <= j < i ==> !p(xs[j]))
        ensures r.GetOr(d) == xs[i]
      {
      }
    }
  }

  /** anyMatch(p): short-circuits at the first element satisfying p. */
  function AnyMatch<T>(p: T -> bool, xs: seq<T>): (r: bool)
    ensures r <==> exists i :: 0 <= i < |xs| && p(xs[i])
  {
    if xs == [] then false
    else if p(xs[0]) then true
    else
      assert forall i :: 1 <= i < |xs| ==> xs[i] == xs[1..][i - 1];
      AnyMatch(p, xs[1..])
  }

  /** allMatch(p): short-circuits at the first element failing p; true on an empty stream. */
  function AllMatch<T>(p: T -> bool, xs: seq<T>): (r: bool)
    ensures r <==> forall i :: 0 <= i < |xs| ==> p(xs[i])
  {
    if xs == [] then true
    else if !p(xs[0]) then false
    else
      assert forall i :: 1 <= i < |xs| ==> xs[i] == xs[1..][i - 1];
      AllMatch(p, xs[1..])
  }

  /** noneMatch(p): short-circuits at the first element satisfying p. */
  function NoneMatch<T>(p: T -> bool, xs: seq<T>): bool
  {
    if xs == [] then true
    else if p(xs[0]) then false
    else NoneMatch(p, xs[1..])
  }

  /** noneMatch is the negation of anyMatch. */
  lemma {:induction false} NoneMatchIsNotAny<T>(p: T -> bool, xs: seq<T>)
    ensures NoneMatch(p, xs) == !AnyMatch(p, xs)
  {
    if xs != [] && !p(xs[0]) {
      NoneMatchIsNotAny(p, xs[1..]);
    }
  }

  // ---------------------------------------------------------------------------
  // Laws of filter, map and limit used by the collectors and the demos
  // ---------------------------------------------------------------------------

  lemma FilterSnoc<T>(p: T -> bool, xs: seq<T>, x: T)
    ensures Filter(p, xs + [x]) == Filter(p, xs) + (if p(x) then [x] else [])
  {
    assert (xs + [x])[..|xs|] == xs;
  }

  lemma FilterNone<T>(p: T -> bool, xs: seq<T>)
    requires forall x :: x in xs ==> !p(x)
    ensures Filter(p, xs) == []
  {
    if Filter(p, xs) != [] {
      assert Filter(p, xs)[0] in Filter(p, xs);
    }
  }

  /** A filter every element passes keeps the whole stream. */
  lemma {:induction false} FilterAll<T>(p: T -> bool, xs: seq<T>)
    requires forall x :: x in xs ==> p(x)
    ensures Filter(p, xs) == xs
    decreases |xs|
  {
    if xs != [] {
      var init, x := xs[..|xs| - 1], xs[|xs| - 1];
      assert xs == init + [x];
      assert forall y :: y in init ==> y in xs;
      FilterAll(p, init);
      assert p(x);
    }
  }

  lemma MapSnoc<T, U>(f: T -> U, xs: seq<T>, x: T)
    ensures Map(f, xs + [x]) == Map(f, xs) + [f(x)]
  {
    assert (xs + [x])[..|xs|] == xs;
  }

  lemma FlatMapSnoc<T, U>(f: T -> seq<U>, xs: seq<T>, x: T)
    ensures FlatMap(f, xs + [x]) == FlatMap(f, xs) + f(x)
  {
    assert (xs + [x])[..|xs|] == xs;
  }

  /** Appending one element adds one to a filtered count exactly when it passes. */
  lemma FilterCountSnoc<T>(p: T -> bool, xs: seq<T>, x: T)
    ensures |Filter(p, xs + [x])| == |Filter(p, xs)| + (if p(x) then 1 else 0)
  {
    FilterSnoc(p, xs, x);
  }

  /** A passing element sits in the filtered stream after the passing elements
      that precede it. */
  lemma FilterPosition<T>(p: T -> bool, xs: seq<T>, j: nat)
    requires j < |xs| && p(xs[j])
    ensures |Filter(p, xs[..j])| < |Filter(p, xs)|
    ensures Filter(p, xs)[|Filter(p, xs[..j])|] == xs[j]
  {
    assert xs == xs[..j] + ([xs[j]] + xs[j + 1..]);
    FilterConcat(p, xs[..j], [xs[j]] + xs[j + 1..]);
    FilterConcat(p, [xs[j]], xs[j + 1..]);
    assert [xs[j]] == [] + [xs[j]];
    FilterSnoc(p, [], xs[j]);
  }

  /** Position k of map(f).limit(n), for k below both n and the length. */
  lemma LimitMapAt<T, U>(n: nat, f: T -> U, q: seq<T>, k: nat)
    requires k < n && k < |q|
    ensures k < |Limit(n, Map(f, q))| && Limit(n, Map(f, q))[k] == f(q[k])
  {
  }

  /** filter(p).map(f).limit(n) keeps list order and skips nothing: an element
      that passes, preceded by fewer than n passing elements, contributes its
      image at the position given by how many passing elements precede it. */
  lemma LimitedFilterInOrder<T, U>(n: nat, p: T -> bool, f: T -> U, xs: seq<T>, j: nat)
    requires j < |xs| && p(xs[j]) && |Filter(p, xs[..j])| < n
    ensures |Filter(p, xs[..j])| < |Limit(n, Map(f, Filter(p, xs)))|
    ensures Limit(n, Map(f, Filter(p, xs)))[|Filter(p, xs[..j])|] == f(xs[j])
  {
    FilterPosition(p, xs, j);
    LimitMapAt(n, f, Filter(p, xs), |Filter(p, xs[..j])|);
  }

  lemma FilterThree<T>(p: T -> bool, xs: seq<T>)
    requires |xs| == 3 && p(xs[0]) && p(xs[1]) && p(xs[2])
    ensures Filter(p, xs) == xs
  {
    var a, b, c := xs[0], xs[1], xs[2];
    assert xs == [a, b] + [c] && [a, b] == [a] + [b] && [a] == [] + [a];
    FilterSnoc(p, [], a);
    FilterSnoc(p, [a], b);
    FilterSnoc(p, [a, b], c);
  }

  lemma FilterFirstThree<T>(p: T -> bool, xs: seq<T>)
    requires |xs| >= 3 && p(xs[0]) && p(xs[1]) && p(xs[2])
    ensures |Filter(p, xs)| >= 3
    ensures Filter(p, xs)[0] == xs[0] && Filter(p, xs)[1] == xs[1] && Filter(p, xs)[2] == xs[2]
  {
    var first := xs[..3];
    FilterThree(p, first);
    assert xs == first + xs[3..];
    FilterConcat(p, first, xs[3..]);
  }

  lemma LimitMapFirstThree<T, U>(f: T -> U, q: seq<T>, a: T, b: T, c: T)
    requires |q| >= 3 && q[0] == a && q[1] == b && q[2] == c
    ensures Limit(3, Map(f, q)) == [f(a), f(b), f(c)]
  {
    var m := Map(f, q);
    assert m[0] == f(a) && m[1] == f(b) && m[2] == f(c);
  }

  /** filter(p).map(f).limit(3) when the first three elements pass. */
  lemma LimitedFilterFirstThree<T, U>(p: T -> bool, f: T -> U, xs: seq<T>)
    requires |xs| >= 3 && p(xs[0]) && p(xs[1]) && p(xs[2])
    ensures Limit(3, Map(f, Filter(p, xs))) == [f(xs[0]), f(xs[1]), f(xs[2])]
  {
    FilterFirstThree(p, xs);
    LimitMapFirstThree(f, Filter(p, xs), xs[0], xs[1], xs[2]);
  }

  /** filter over four elements of which only the third passes. */
  lemma FilterOnlyThird<T>(p: T -> bool, a: T, b: T, c: T, d: T)
    requires !p(a) && !p(b) && p(c) && !p(d)
    ensures Filter(p, [a, b, c, d]) == [c]
  {
    assert [a, b, c, d][..3] == [a, b, c] && [a, b, c][..2] == [a, b] && [a, b][..1] == [a];
  }

  /** Filtering mapped values counts the elements whose image passes. */
  lemma {:induction false} FilterMapCount<T, U>(p: U -> bool, f: T -> U, q: T -> bool, xs: seq<T>)
    requires forall x :: q(x) == p(f(x))
    ensures |Filter(p, Map(f, xs))| == |Filter(q, xs)|
    decreases |xs|
  {
    if xs != [] {
      var init, x := xs[..|xs| - 1], xs[|xs| - 1];
      assert xs == init + [x];
      FilterMapCount(p, f, q, init);
      MapSnoc(f, init, x);
      FilterCountSnoc(p, Map(f, init), f(x));
      FilterCountSnoc(q, init, x);
    }
  }

  /** Appending a value keeps a sequence duplicate-free exactly when the value is new. */
  lemma NoDupSnoc<T>(xs: seq<T>, x: T)
    ensures NoDup(xs + [x]) <==> NoDup(xs) && x !in xs
  {
    var ys := xs + [x];
    assert forall i, j :: 0 <= i < j < |xs| ==> xs[i] == ys[i] && xs[j] == ys[j];
    if x in xs {
      var i :| 0 <= i < |xs| && xs[i] == x;
      assert ys[i] == ys[|xs|];
    }
  }
}
