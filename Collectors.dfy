/** The java.util.stream.Collectors the demos use: joining, groupingBy with the
    toList, counting and maxBy downstream collectors, and counting by a predicate.
    A grouping result is a map; HashMap iteration order is unspecified, so the
    model states map contents only, and enumerates keys (where a sum over all
    groups is needed) in first-seen order. */
module Collectors {
  import opened Wrappers
  import opened Streams

  /** Integer::sum */
  function Plus(a: int, b: int): int { a + b }

  /** x -> p(x) ? 1 : 0 */
  function Indicator<T>(p: T -> bool): T -> int
  {
    x => if p(x) then 1 else 0
  }

  /** Mapping each element to 1 or 0 by p and reducing with (0, Integer::sum)
      counts the elements satisfying p. */
  lemma {:induction false} CountingReduce<T>(p: T -> bool, xs: seq<T>)
    ensures Reduce(0, Plus, Map(Indicator(p), xs)) == |Filter(p, xs)|
    decreases |xs|
  {
    if xs != [] {
      var init := xs[..|xs| - 1];
      CountingReduce(p, init);
      assert Map(Indicator(p), xs)[..|xs| - 1] == Map(Indicator(p), init);
    }
  }

  /** Counting over a concatenation is the sum of the counts over the parts,
      so a count split across workers and added up equals the sequential count. */
  lemma CountSplit<T>(p: T -> bool, xs: seq<T>, ys: seq<T>)
    ensures |Filter(p, xs + ys)| == |Filter(p, xs)| + |Filter(p, ys)|
  {
    FilterConcat(p, xs, ys);
  }

  /** The concatenation of a list of chunks. */
  function Flatten<T>(chunks: seq<seq<T>>): seq<T>
    decreases |chunks|
  {
    if chunks == [] then [] else Flatten(chunks[..|chunks| - 1]) + chunks[|chunks| - 1]
  }

  /** Per-chunk counts of p, added up left to right. */
  function ChunkCounts<T>(p: T -> bool, chunks: seq<seq<T>>): int
    decreases |chunks|
  {
    if chunks == [] then 0
    else ChunkCounts(p, chunks[..|chunks| - 1]) + |Filter(p, chunks[|chunks| - 1])|
  }

  /** For any partition of the input into contiguous chunks, filtering and
      counting each chunk and adding the partial counts gives the sequential count. */
  lemma {:induction false} ParallelCount<T>(p: T -> bool, chunks: seq<seq<T>>)
    ensures ChunkCounts(p, chunks) == |Filter(p, Flatten(chunks))|
    decreases |chunks|
  {
    if chunks != [] {
      var init := chunks[..|chunks| - 1];
      ParallelCount(p, init);
      CountSplit(p, Flatten(init), chunks[|chunks| - 1]);
    }
  }

  /** Collectors.joining(sep): the strings with sep between neighbours. */
  function Join(sep: string, xs: seq<string>): string
    decreases |xs|
  {
    if |xs| == 0 then ""
    else if |xs| == 1 then xs[0]
    else Join(sep, xs[..|xs| - 1]) + sep + xs[|xs| - 1]
  }

  /** The classifier test `key(x) == k` of one group. */
  function HasKey<T, K(==)>(key: T -> K, k: K): T -> bool
  {
    x => key(x) == k
  }

  /** groupingBy(key): each key met maps to its elements, in encounter order. */
  function GroupBy<T, K(==)>(key: T -> K, xs: seq<T>): (m: map<K, seq<T>>)
    ensures forall x :: x in xs ==> key(x) in m
    ensures forall k :: k in m ==> m[k] == Filter(HasKey(key, k), xs)
    decreases |xs|
  {
    if xs == [] then map[]
    else
      var init, x := xs[..|xs| - 1], xs[|xs| - 1];
      assert xs == init + [x];
      var m0 := GroupBy(key, init);
      GroupByStep(key, init, x, m0);
      m0[key(x) := (if key(x) in m0 then m0[key(x)] else []) + [x]]
  }

  /** groupingBy(key, mapping(f, toList())): each key met maps to the images of
      its elements, in encounter order. */
  function GroupMapping<T, K(==), U>(key: T -> K, f: T -> U, xs: seq<T>): (m: map<K, seq<U>>)
    ensures forall x :: x in xs ==> key(x) in m
    ensures forall k :: k in m ==> m[k] == Map(f, Filter(HasKey(key, k), xs))
  {
    var g := GroupBy(key, xs);
    map k | k in g :: Map(f, g[k])
  }

  lemma GroupByStep<T, K>(key: T -> K, init: seq<T>, x: T, m0: map<K, seq<T>>)
    requires forall y :: y in init ==> key(y) in m0
    requires forall k :: k in m0 ==> m0[k] == Filter(HasKey(key, k), init)
    ensures var m := m0[key(x) := (if key(x) in m0 then m0[key(x)] else []) + [x]];
      forall k :: k in m ==> m[k] == Filter(HasKey(key, k), init + [x])
  {
    var k := key(x);
    var m := m0[k := (if k in m0 then m0[k] else []) + [x]];
    forall j | j in m ensures m[j] == Filter(HasKey(key, j), init + [x]) {
      FilterSnoc(HasKey(key, j), init, x);
      if j == k && k !in m0 {
        FilterNone(HasKey(key, k), init);
      }
    }
  }

  /** groupingBy(key, counting()): each key met maps to the number of its elements. */
  function GroupCount<T, K(==)>(key: T -> K, xs: seq<T>): (m: map<K, nat>)
    ensures forall x :: x in xs ==> key(x) in m
    ensures forall k :: k in m ==> m[k] == |Filter(HasKey(key, k), xs)|
    decreases |xs|
  {
    if xs == [] then map[]
    else
      var init, x := xs[..|xs| - 1], xs[|xs| - 1];
      assert xs == init + [x];
      var m0 := GroupCount(key, init);
      GroupCountStep(key, init, x, m0);
      m0[key(x) := (if key(x) in m0 then m0[key(x)] else 0) + 1]
  }

  lemma GroupCountStep<T, K>(key: T -> K, init: seq<T>, x: T, m0: map<K, nat>)
    requires forall y :: y in init ==> key(y) in m0
    requires forall k :: k in m0 ==> m0[k] == |Filter(HasKey(key, k), init)|
    ensures var m := m0[key(x) := (if key(x) in m0 then m0[key(x)] else 0) + 1];
      forall k :: k in m ==> m[k] == |Filter(HasKey(key, k), init + [x])|
  {
    var k := key(x);
    var m := m0[k := (if k in m0 then m0[k] else 0) + 1];
    forall j | j in m ensures m[j] == |Filter(HasKey(key, j), init + [x])| {
      FilterCountSnoc(HasKey(key, j), init, x);
      if j == k && k !in m0 {
        FilterNone(HasKey(key, k), init);
      }
    }
  }

  /** Every key of a group is the key of some element. */
  lemma {:induction false} GroupByKeysMet<T, K>(key: T -> K, xs: seq<T>)
    ensures forall k :: k in GroupBy(key, xs) ==> k in Map(key, xs)
    decreases |xs|
  {
    if xs != [] {
      var init := xs[..|xs| - 1];
      GroupByKeysMet(key, init);
      assert Map(key, xs) == Map(key, init) + [key(xs[|xs| - 1])];
    }
  }

  /** Every key of a counting group is the key of some element. */
  lemma {:induction false} GroupCountKeysMet<T, K>(key: T -> K, xs: seq<T>)
    ensures forall k :: k in GroupCount(key, xs) ==> k in Map(key, xs)
    decreases |xs|
  {
    if xs != [] {
      var init := xs[..|xs| - 1];
      GroupCountKeysMet(key, init);
      assert Map(key, xs) == Map(key, init) + [key(xs[|xs| - 1])];
    }
  }

  /** No group is empty: each key collects at least the element that introduced it. */
  lemma GroupByNonEmpty<T, K>(key: T -> K, xs: seq<T>)
    ensures forall k :: k in GroupBy(key, xs) ==> GroupBy(key, xs)[k] != []
  {
    GroupByKeysMet(key, xs);
    var g := GroupBy(key, xs);
    forall k | k in g ensures g[k] != [] {
      var i :| 0 <= i < |xs| && Map(key, xs)[i] == k;
      var y := xs[i];
      assert HasKey(key, k)(y);
      assert y in Filter(HasKey(key, k), xs);
    }
  }

  /** Counting a group and collecting it to a list agree on keys and sizes. */
  lemma GroupCountIsGroupSize<T, K>(key: T -> K, xs: seq<T>)
    ensures GroupCount(key, xs).Keys == GroupBy(key, xs).Keys
    ensures forall k :: k in GroupCount(key, xs) ==> GroupCount(key, xs)[k] == |GroupBy(key, xs)[k]|
  {
    var c, g := GroupCount(key, xs), GroupBy(key, xs);
    GroupByKeysMet(key, xs);
    GroupCountKeysMet(key, xs);
    forall k | k in c ensures k in g {
      var i :| 0 <= i < |xs| && Map(key, xs)[i] == k;
      assert xs[i] in xs;
    }
    forall k | k in g ensures k in c {
      var i :| 0 <= i < |xs| && Map(key, xs)[i] == k;
      assert xs[i] in xs;
    }
  }

  /** The sum of m's values over the keys ks. */
  function SumOver<K>(m: map<K, nat>, ks: seq<K>): int
    requires forall k :: k in ks ==> k in m
    decreases |ks|
  {
    if ks == [] then 0 else SumOver(m, ks[..|ks| - 1]) + m[ks[|ks| - 1]]
  }

  lemma {:induction false} SumOverAgree<K>(m1: map<K, nat>, m2: map<K, nat>, ks: seq<K>)
    requires forall k :: k in ks ==> k in m1 && k in m2 && m1[k] == m2[k]
    ensures SumOver(m1, ks) == SumOver(m2, ks)
    decreases |ks|
  {
    if ks != [] {
      SumOverAgree(m1, m2, ks[..|ks| - 1]);
    }
  }

  lemma {:induction false} SumOverBump<K>(m: map<K, nat>, k: K, ks: seq<K>)
    requires forall j :: j in ks ==> j in m
    requires NoDup(ks) && k in ks
    ensures SumOver(m[k := m[k] + 1], ks) == SumOver(m, ks) + 1
    decreases |ks|
  {
    var init, last := ks[..|ks| - 1], ks[|ks| - 1];
    assert NoDup(init);
    if last == k {
      assert k !in init;
      SumOverAgree(m[k := m[k] + 1], m, init);
    } else {
      assert k in init;
      SumOverBump(m, k, init);
    }
  }

  /** The group counts add up to the number of elements: no element is lost or
      counted twice (keys enumerated once each, in first-seen order). */
  lemma {:induction false} GroupCountTotal<T, K>(key: T -> K, xs: seq<T>)
    ensures forall k :: k in Distinct(Map(key, xs)) ==> k in GroupCount(key, xs)
    ensures SumOver(GroupCount(key, xs), Distinct(Map(key, xs))) == |xs|
    decreases |xs|
  {
    var ks := Map(key, xs);
    DistinctSpec(ks);
    forall k | k in Distinct(ks) ensures k in GroupCount(key, xs) {
      var i :| 0 <= i < |ks| && ks[i] == k;
      assert xs[i] in xs;
    }
    if xs != [] {
      var init, x := xs[..|xs| - 1], xs[|xs| - 1];
      GroupCountTotal(key, init);
      var m0, m := GroupCount(key, init), GroupCount(key, xs);
      var d0 := Distinct(Map(key, init));
      DistinctSpec(Map(key, init));
      var k := key(x);
      assert ks[..|ks| - 1] == Map(key, init);
      assert ks[|ks| - 1] == k;
      if k in d0 {
        assert Distinct(ks) == d0;
        SumOverBump(m0, k, d0);
        assert m == m0[k := m0[k] + 1];
      } else {
        assert Distinct(ks) == d0 + [k];
        GroupCountKeysMet(key, init);
        SumOverAgree(m, m0, d0);
      }
    }
  }

  /** groupingBy(key, maxBy(comparing(rank))): every key met maps to a present
      Optional holding an element of that group ranked at least as high as every
      element of the group. */
  function GroupMaxBy<T, K(==)>(key: T -> K, rank: T -> int, xs: seq<T>): (m: map<K, Option<T>>)
    ensures forall x :: x in xs ==> key(x) in m && m[key(x)].Some? && rank(x) <= rank(m[key(x)].value)
    ensures forall k :: k in m ==> m[k].Some? && m[k].value in xs && key(m[k].value) == k
    decreases |xs|
  {
    if xs == [] then map[]
    else
      var init, x := xs[..|xs| - 1], xs[|xs| - 1];
      assert xs == init + [x];
      var m0 := GroupMaxBy(key, rank, init);
      var k := key(x);
      m0[k := Some(if k in m0 then MaxBy(rank, m0[k].value, x) else x)]
  }
}
