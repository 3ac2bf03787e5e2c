/** The intermediate demo: counting, reductions, Optional lookups, the even
    count over a million-element list, and distinct/sorted/limit/skip. */
module IntermediateStreamOperations {
  import opened Wrappers
  import opened Streams
  import opened Collectors
  import opened Students
  import opened BasicStreamOperations

  /** The eight sample students (GPA in hundredths). */
  function SampleStudents(): seq<Student>
  {
    [ Student("张三", 20, "计算机科学", 380, "男"),
      Student("李四", 22, "数学", 360, "女"),
      Student("王五", 21, "计算机科学", 420, "男"),
      Student("赵六", 23, "物理", 390, "女"),
      Student("孙七", 20, "数学", 320, "男"),
      Student("周八", 24, "计算机科学", 370, "女"),
      Student("吴九", 19, "化学", 350, "男"),
      Student("郑十", 25, "物理", 310, "女") ]
  }

  /** The student count of the sample is 8. */
  lemma SampleCount()
    ensures Count(SampleStudents()) == 8
  {
  }

  // ---------------------------------------------------------------------------
  // Reductions
  // ---------------------------------------------------------------------------

  /** (name1, name2) -> name1.isEmpty() ? name2 : name1 + ", " + name2 */
  function JoinStep(name1: string, name2: string): string
  {
    if name1 == "" then name2 else name1 + ", " + name2
  }

  /** reduce("", JoinStep) over non-empty names is joining(", "): an empty list
      gives "", otherwise the names with ", " between neighbours. */
  lemma {:induction false} NameReduceIsJoin(names: seq<string>)
    requires forall i :: 0 <= i < |names| ==> names[i] != ""
    ensures Reduce("", JoinStep, names) == Join(", ", names)
    decreases |names|
  {
    if names != [] {
      var init := names[..|names| - 1];
      NameReduceIsJoin(init);
      if init != [] {
        assert Join(", ", init) != "" by {
          if |init| == 1 {
            assert Join(", ", init) == init[0];
          }
        }
      }
    }
  }

  /** The GPA test of the counting reduce: gpa > 3.5. */
  function GpaAbove35(s: Student): bool { s.gpa > 350 }

  /** map(s -> gpa > 3.5 ? 1 : 0).reduce(0, Integer::sum): the number of
      students with GPA above 3.5. */
  function CountHighGpa(xs: seq<Student>): (r: int)
    ensures r == |Filter(GpaAbove35, xs)|
    ensures 0 <= r <= |xs|
  {
    CountingReduce(GpaAbove35, xs);
    Reduce(0, Plus, Map(Indicator(GpaAbove35), xs))
  }

  // ---------------------------------------------------------------------------
  // Optional
  // ---------------------------------------------------------------------------

  /** filter(name.equals(s.getName())).findFirst() */
  function FindByName(name: string, xs: seq<Student>): (r: Option<Student>)
    ensures r.None? <==> forall i :: 0 <= i < |xs| ==> xs[i].name != name
    ensures r.Some? ==> exists i :: 0 <= i < |xs| && xs[i] == r.value && r.value.name == name &&
                                    forall j :: 0 <= j < i ==> xs[j].name != name
  {
    FindFirst((s: Student) => s.name == name, xs)
  }

  /** new Student("默认值", 0, "未知", 0.0, "未知") */
  const DefaultStudent: Student := Student("默认值", 0, "未知", 0, "未知")

  /** findFirst().map(Student::getMajor).orElse(fallback) */
  function MajorOrElse(name: string, xs: seq<Student>, fallback: string): (r: string)
    ensures FindByName(name, xs).None? ==> r == fallback
    ensures FindByName(name, xs).Some? ==> r == FindByName(name, xs).value.major
  {
    match FindByName(name, xs)
    case Some(s) => s.major
    case None => fallback
  }

  /** The lookups on the sample: 王五 is found (in 计算机科学), 李四 is found,
      and the missing name falls back to the default student. */
  lemma SampleLookups()
    ensures FindByName("王五", SampleStudents()) == Some(SampleStudents()[2])
    ensures MajorOrElse("王五", SampleStudents(), "专业未知") == "计算机科学"
    ensures FindByName("李四", SampleStudents()).GetOr(DefaultStudent) == SampleStudents()[1]
    ensures FindByName("不存在的学生", SampleStudents()).GetOr(DefaultStudent) == DefaultStudent
  {
    var xs := SampleStudents();
    assert xs[2].name == "王五" && xs[1].name == "李四";
    assert xs[0].name != "王五" && xs[1].name != "王五";
    assert xs[0].name != "李四";
    forall i | 0 <= i < |xs| ensures xs[i].name != "不存在的学生" {
    }
  }

  // ---------------------------------------------------------------------------
  // The million-element list and the even count
  // ---------------------------------------------------------------------------

  /** for (int i = 1; i <= n; i++) numbers.add(i); */
  method FillNumbers(n: int) returns (numbers: seq<int>)
    ensures numbers == Range(1, n + 1)
  {
    numbers := [];
    var i := 1;
    while i <= n
      invariant if n >= 0 then 1 <= i <= n + 1 else i == 1
      invariant numbers == Range(1, i)
    {
      numbers := numbers + [i];
      i := i + 1;
    }
    if n < 0 {
      assert Range(1, n + 1) == [] == Range(1, i);
    }
  }

  /** num -> num % 2 == 0 */
  function IsEven(num: int): bool { num % 2 == 0 }

  /** Among 1..n exactly n / 2 numbers are even. */
  lemma {:induction false} EvenCount(n: nat)
    ensures |Filter(IsEven, Range(1, n + 1))| == n / 2
  {
    if n > 0 {
      EvenCount(n - 1);
      assert Range(1, n + 1) == Range(1, n) + [n];
      FilterSnoc(IsEven, Range(1, n), n);
    }
  }

  /** The demo's list 1..1000000 holds 500000 even numbers. */
  lemma MillionEvens()
    ensures |Filter(IsEven, Range(1, 1000001))| == 500000
  {
    EvenCount(1000000);
  }

  /** Splitting the list anywhere and counting each part gives the same total
      as the sequential count, so the parallel count equals the sequential one. */
  lemma SplitEvenCount(n: nat, k: nat)
    requires k <= n
    ensures var xs := Range(1, n + 1);
      |Filter(IsEven, xs[..k])| + |Filter(IsEven, xs[k..])| == n / 2
  {
    var xs := Range(1, n + 1);
    EvenCount(n);
    assert xs == xs[..k] + xs[k..];
    CountSplit(IsEven, xs[..k], xs[k..]);
  }

  // ---------------------------------------------------------------------------
  // distinct / sorted / limit / skip
  // ---------------------------------------------------------------------------

  const NumbersWithDuplicates: seq<int> := [1, 2, 3, 2, 4, 3, 5, 1, 6, 4, 7, 8, 5, 9]

  /** The identity sort key for integers. */
  function Identity(x: int): int { x }

  /** distinct() then sorted(): strictly increasing, holding exactly the input's values. */
  lemma DistinctSorted(xs: seq<int>, r: seq<int>)
    requires r == SortBy(CompareNatural, Distinct(xs))
    ensures forall i, j :: 0 <= i < j < |r| ==> r[i] < r[j]
    ensures forall x :: x in r ==> x in xs
    ensures forall x :: x in xs ==> x in r
  {
    var d := Distinct(xs);
    DistinctSpec(xs);
    SortedNatural(d);
    SortedDistinctIncreasing(d, r);
  }

  /** Sorting by the natural order orders neighbours. */
  lemma SortedNatural(d: seq<int>)
    ensures SortedBy(CompareNatural, SortBy(CompareNatural, d))
    ensures multiset(SortBy(CompareNatural, d)) == multiset(d)
  {
    ComparatorsAreSignAntisymmetric();
    SortBySorted(CompareNatural, d);
  }

  /** A naturally sorted permutation of a duplicate-free sequence is strictly
      increasing and has the same members. */
  lemma SortedDistinctIncreasing(d: seq<int>, r: seq<int>)
    requires NoDup(d) && multiset(r) == multiset(d)
    requires SortedBy(CompareNatural, r)
    ensures forall i, j :: 0 <= i < j < |r| ==> r[i] < r[j]
    ensures forall x :: x in r <==> x in d
  {
    NoDupPermutation(d, r);
    assert forall i :: 0 <= i < |r| - 1 ==> Identity(r[i]) <= Identity(r[i + 1]);
    AdjacentToPairwise(Identity, r);
    forall i, j | 0 <= i < j < |r| ensures r[i] < r[j] {
      assert Identity(r[i]) <= Identity(r[j]);
    }
    forall x ensures x in r <==> x in d {
      assert x in r <==> x in multiset(r);
      assert x in d <==> x in multiset(d);
    }
  }

  /** A strictly increasing sequence holding exactly the integers lo..hi-1 is that range. */
  lemma {:induction false} IncreasingEnumeration(s: seq<int>, lo: int, hi: int)
    requires forall i, j :: 0 <= i < j < |s| ==> s[i] < s[j]
    requires forall x :: x in s ==> lo <= x < hi
    requires forall x :: lo <= x < hi ==> x in s
    ensures s == Range(lo, hi)
    decreases hi - lo
  {
    if s == [] {
      assert lo !in s;
    } else {
      var init, last := s[..|s| - 1], s[|s| - 1];
      assert s[0] in s && last in s;
      assert hi - 1 in s;
      assert last == hi - 1;
      forall x | x in init ensures lo <= x < hi - 1 {
        assert x in s;
      }
      forall x | lo <= x < hi - 1 ensures x in init {
        assert x in s;
      }
      IncreasingEnumeration(init, lo, hi - 1);
      assert s == init + [last];
    }
  }

  /** distinct→sorted on the sample is 1..9, and distinct→sorted→limit(5) is 1..5. */
  lemma SampleDistinctSortedLimit()
    ensures SortBy(CompareNatural, Distinct(NumbersWithDuplicates)) == [1, 2, 3, 4, 5, 6, 7, 8, 9]
    ensures Limit(5, SortBy(CompareNatural, Distinct(NumbersWithDuplicates))) == [1, 2, 3, 4, 5]
  {
    var xs := NumbersWithDuplicates;
    DigitsOfSample(xs);
    DistinctSortedOfDigits(xs, SortBy(CompareNatural, Distinct(xs)));
    RangeOneToTen();
  }

  /** The sample holds exactly the values 1..9. */
  lemma DigitsOfSample(xs: seq<int>)
    requires xs == NumbersWithDuplicates
    ensures forall x :: x in xs ==> 1 <= x <= 9
    ensures forall x :: 1 <= x <= 9 ==> x in xs
  {
    assert xs[0] == 1 && xs[1] == 2 && xs[2] == 3 && xs[4] == 4 && xs[6] == 5 &&
           xs[8] == 6 && xs[10] == 7 && xs[11] == 8 && xs[13] == 9;
  }

  lemma RangeOneToTen()
    ensures Range(1, 10) == [1, 2, 3, 4, 5, 6, 7, 8, 9]
  {
    var t := Range(1, 10);
    assert |t| == 9 && t[0] == 1 && t[1] == 2 && t[2] == 3 && t[3] == 4 && t[4] == 5 &&
           t[5] == 6 && t[6] == 7 && t[7] == 8 && t[8] == 9;
  }

  /** distinct→sorted of any values between 1 and 9 that include each of them is 1..9. */
  lemma DistinctSortedOfDigits(xs: seq<int>, r: seq<int>)
    requires forall x :: x in xs ==> 1 <= x <= 9
    requires forall x :: 1 <= x <= 9 ==> x in xs
    requires r == SortBy(CompareNatural, Distinct(xs))
    ensures r == Range(1, 10)
  {
    DistinctSorted(xs, r);
    IncreasingEnumeration(r, 1, 10);
  }

  /** limit(5) on the sample is its first five values; skip(3) leaves 11. */
  lemma SampleLimitSkip()
    ensures Limit(5, NumbersWithDuplicates) == [1, 2, 3, 2, 4]
    ensures |Skip(3, NumbersWithDuplicates)| == 11
  {
  }

  /** The GPA as a descending sort key. */
  function NegGpa(s: Student): int { -s.gpa }

  /** sorted(GPA descending).limit(n): n students (or all of them), best first. */
  function TopByGpa(n: nat, xs: seq<Student>): (r: seq<Student>)
    ensures |r| == if n < |xs| then n else |xs|
    ensures forall i :: 0 <= i < |r| - 1 ==> r[i].gpa >= r[i + 1].gpa
  {
    Limit(n, SortByGpaDesc(xs))
  }

  /** sorted(GPA descending).skip(n): the students after the first n. */
  function ExceptTopByGpa(n: nat, xs: seq<Student>): (r: seq<Student>)
    ensures |r| == if n < |xs| then |xs| - n else 0
    ensures forall i :: 0 <= i < |r| - 1 ==> r[i].gpa >= r[i + 1].gpa
  {
    Skip(n, SortByGpaDesc(xs))
  }

  /** limit(n) and skip(n) of the same GPA sort together are a permutation of the input. */
  lemma TopByGpaPermutation(n: nat, xs: seq<Student>)
    ensures multiset(TopByGpa(n, xs)) + multiset(ExceptTopByGpa(n, xs)) == multiset(xs)
  {
    var sorted := SortByGpaDesc(xs);
    LimitSkip(n, sorted);
    assert sorted == TopByGpa(n, xs) + ExceptTopByGpa(n, xs);
  }

  /** No student kept by limit(n) has a lower GPA than a student skip(n) leaves. */
  lemma TopByGpaDominates(n: nat, xs: seq<Student>)
    ensures forall i, j :: 0 <= i < |TopByGpa(n, xs)| && 0 <= j < |ExceptTopByGpa(n, xs)| ==>
              TopByGpa(n, xs)[i].gpa >= ExceptTopByGpa(n, xs)[j].gpa
  {
    var sorted := SortByGpaDesc(xs);
    var top, rest := TopByGpa(n, xs), ExceptTopByGpa(n, xs);
    AdjacentToPairwise(NegGpa, sorted);
    forall i, j | 0 <= i < |top| && 0 <= j < |rest| ensures top[i].gpa >= rest[j].gpa {
      assert top[i] == sorted[i] && rest[j] == sorted[|top| + j];
    }
  }

  /** On the sample, the top three and the students after the top two: 3 and 6 names. */
  lemma SampleTopSizes()
    ensures |Map(Name, TopByGpa(3, SampleStudents()))| == 3
    ensures |Map(Name, ExceptTopByGpa(2, SampleStudents()))| == 6
  {
  }
}
