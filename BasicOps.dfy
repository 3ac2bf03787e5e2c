/** The basic demo: stream sources, map and flatMap, the three sorts, the
    find/match operations, collecting and the age summary statistics, over the
    six sample students. */
module BasicStreamOperations {
  import opened Wrappers
  import opened JavaTypes
  import opened Streams
  import opened Students

  const ComputerScience: string := "计算机科学"

  /** The six sample students (GPA in hundredths). */
  function SampleStudents(): seq<Student>
  {
    [ Student("张三", 20, "计算机科学", 380, "男"),
      Student("李四", 22, "数学", 360, "女"),
      Student("王五", 21, "计算机科学", 420, "男"),
      Student("赵六", 23, "物理", 390, "女"),
      Student("孙七", 20, "数学", 320, "男"),
      Student("周八", 24, "计算机科学", 370, "女") ]
  }

  /** The three students used for the flatMap demo. */
  function StudentsWithCourses(): seq<Student>
  {
    [ Student("张三", 20, "计算机科学", 380, "男"),
      Student("李四", 22, "数学", 360, "女"),
      Student("王五", 21, "计算机科学", 420, "男") ]
  }

  /** IntStream.range(1, 6) is half-open: exactly 1, 2, 3, 4, 5. */
  lemma RangeOneToSix()
    ensures Range(1, 6) == [1, 2, 3, 4, 5]
  {
    var r := Range(1, 6);
    assert |r| == 5 && r[0] == 1 && r[1] == 2 && r[2] == 3 && r[3] == 4 && r[4] == 5;
  }

  /** mapToInt(Student::getAge).map(age -> age * age): Java int multiplication,
      which wraps around; for |age| <= 46340 the square is exact. */
  function AgeSquares(xs: seq<Student>): (r: seq<Int32>)
    ensures |r| == |xs|
    ensures forall i :: 0 <= i < |xs| && -46340 <= xs[i].age <= 46340 ==> r[i] == xs[i].age * xs[i].age
  {
    var r := Map((age: Int32) => Wrap32(age * age), Map(Age, xs));
    forall i | 0 <= i < |xs| && -46340 <= xs[i].age <= 46340
      ensures r[i] == xs[i].age * xs[i].age
    {
      SquareFits(xs[i].age);
      Wrap32InRange(xs[i].age * xs[i].age);
    }
    r
  }

  lemma NonNegativeProduct(x: int, y: int)
    requires x >= 0 && y >= 0
    ensures x * y >= 0
  {
  }

  /** An int of magnitude at most 46340 has a square that fits in an int. */
  lemma SquareFits(a: int)
    requires -46340 <= a <= 46340
    ensures 0 <= a * a <= IntMax
  {
    NonNegativeProduct(46340 - a, 46340 + a);
    assert (46340 - a) * (46340 + a) == 46340 * 46340 - a * a;
    NonNegativeProduct(if a >= 0 then a else -a, if a >= 0 then a else -a);
  }

  /** student -> Arrays.stream(new String[]{student.getMajor()}) */
  function MajorArray(s: Student): seq<string>
  {
    [s.major]
  }

  /** flatMap over one-element arrays then distinct(): the majors once each, in
      first-seen order. */
  function MajorCategories(xs: seq<Student>): (r: seq<string>)
    ensures r == Distinct(Map(Major, xs))
    ensures NoDup(r)
    ensures forall i :: 0 <= i < |xs| ==> xs[i].major in r
    ensures forall m :: m in r ==> exists i :: 0 <= i < |xs| && xs[i].major == m
  {
    FlatMapSingletons(MajorArray, Major, xs);
    DistinctSpec(Map(Major, xs));
    Distinct(FlatMap(MajorArray, xs))
  }

  /** distinct() of a major list shaped like the flatMap sample's. */
  lemma DistinctOfSampleMajors(ms: seq<string>)
    requires |ms| == 3 && ms[0] == "计算机科学" && ms[1] == "数学" && ms[2] == "计算机科学"
    ensures Distinct(ms) == ["计算机科学", "数学"]
  {
    assert ms[..0] == [];
    DistinctSnoc(ms, 0);
    DistinctSnoc(ms, 1);
    DistinctSnoc(ms, 2);
    assert ms[..3] == ms;
  }

  /** On the flatMap sample the categories are 计算机科学 then 数学. */
  lemma MajorCategoriesOfSample()
    ensures MajorCategories(StudentsWithCourses()) == ["计算机科学", "数学"]
  {
    var xs := StudentsWithCourses();
    var ms := Map(Major, xs);
    assert ms[0] == xs[0].major && ms[1] == xs[1].major && ms[2] == xs[2].major;
    DistinctOfSampleMajors(ms);
  }

  /** sorted by Integer.compare on age: a permutation with ages non-decreasing. */
  function SortByAge(xs: seq<Student>): (r: seq<Student>)
    ensures multiset(r) == multiset(xs)
    ensures forall i :: 0 <= i < |r| - 1 ==> r[i].age <= r[i + 1].age
  {
    ComparatorsAreSignAntisymmetric();
    SortBySorted(CompareAge, xs);
    SortBy(CompareAge, xs)
  }

  /** sorted by Double.compare(s2.getGpa(), s1.getGpa()): a permutation with GPAs non-increasing. */
  function SortByGpaDesc(xs: seq<Student>): (r: seq<Student>)
    ensures multiset(r) == multiset(xs)
    ensures forall i :: 0 <= i < |r| - 1 ==> r[i].gpa >= r[i + 1].gpa
  {
    ComparatorsAreSignAntisymmetric();
    SortBySorted(CompareGpaDesc, xs);
    SortBy(CompareGpaDesc, xs)
  }

  function HasGpa(g: Hundredths): Student -> bool
  {
    (s: Student) => s.gpa == g
  }

  /** The GPA sort is stable: students with the same GPA keep their list order. */
  lemma SortByGpaDescStable(xs: seq<Student>, g: Hundredths)
    ensures Filter(HasGpa(g), SortByGpaDesc(xs)) == Filter(HasGpa(g), xs)
  {
    var a := Student("", 0, "", g, "");
    ComparatorTiesAreTransitive();
    SortByStable(CompareGpaDesc, xs, a);
    FilterExtensional(TiedWith(CompareGpaDesc, a), HasGpa(g), xs);
    FilterExtensional(TiedWith(CompareGpaDesc, a), HasGpa(g), SortBy(CompareGpaDesc, xs));
  }

  /** sorted by major (String.compareTo), then by age when the majors are equal:
      a permutation in which each neighbour pair either has a smaller major first
      or the same major and non-decreasing ages. */
  function SortByMajorThenAge(xs: seq<Student>): (r: seq<Student>)
    ensures multiset(r) == multiset(xs)
    ensures forall i :: 0 <= i < |r| - 1 ==>
              CompareTo(r[i].major, r[i + 1].major) < 0 ||
              (r[i].major == r[i + 1].major && r[i].age <= r[i + 1].age)
  {
    ComparatorsAreSignAntisymmetric();
    SortBySorted(CompareMajorThenAge, xs);
    var r := SortBy(CompareMajorThenAge, xs);
    assert forall i :: 0 <= i < |r| - 1 ==> CompareMajorThenAge(r[i], r[i + 1]) <= 0;
    r
  }

  /** filter(gpa > 4.0).findFirst().orElse(null): the first such student, or none. */
  function FirstGpaAbove4(xs: seq<Student>): (r: Option<Student>)
    ensures r.None? <==> forall i :: 0 <= i < |xs| ==> xs[i].gpa <= 400
    ensures r.Some? ==> exists i :: 0 <= i < |xs| && xs[i] == r.value && r.value.gpa > 400 &&
                                    forall j :: 0 <= j < i ==> xs[j].gpa <= 400
  {
    FindFirst((s: Student) => s.gpa > 400, xs)
  }

  /** On the sample the first student above 4.0 is 王五. */
  lemma FirstGpaAbove4OfSample()
    ensures FirstGpaAbove4(SampleStudents()) == Some(SampleStudents()[2])
  {
    var xs := SampleStudents();
    var r := FirstGpaAbove4(xs);
    assert xs[2].gpa > 400;
  }

  function IsComputerScience(s: Student): bool { s.major == ComputerScience }
  function GpaAbove3(s: Student): bool { s.gpa > 300 }
  function GpaBelow2(s: Student): bool { s.gpa < 200 }

  /** The three match results on the sample: some computer-science student exists,
      every GPA is above 3.0, and no GPA is below 2.0. */
  lemma SampleMatches()
    ensures AnyMatch(IsComputerScience, SampleStudents())
    ensures AllMatch(GpaAbove3, SampleStudents())
    ensures NoneMatch(GpaBelow2, SampleStudents())
  {
    var xs := SampleStudents();
    assert IsComputerScience(xs[0]);
    NoneMatchIsNotAny(GpaBelow2, xs);
  }

  /** The ages collected under the heading "collect as Set (dedupe)": the code
      uses toList(), so this is the list itself, duplicates included. */
  function UniqueAgesAsWritten(ages: seq<int>): (r: seq<int>)
    ensures |r| == |ages| && forall i :: 0 <= i < |ages| ==> r[i] == ages[i]
  {
    Map((a: int) => a, ages)
  }

  const SampleAges: seq<int> := [20, 22, 20, 23, 22, 24]

  /** On the demo's own ages the "deduplicated" list still holds 20 twice. */
  lemma UniqueAgesAsWrittenKeepsDuplicates()
    ensures !NoDup(UniqueAgesAsWritten(SampleAges))
  {
    var r := UniqueAgesAsWritten(SampleAges);
    assert r[0] == 20 && r[2] == 20;
  }

  /** What the heading promises: each age once, in first-seen order. */
  function UniqueAges(ages: seq<int>): (r: seq<int>)
    ensures NoDup(r)
    ensures forall a :: a in r ==> a in ages
    ensures forall a :: a in ages ==> a in r
  {
    DistinctSpec(ages);
    Distinct(ages)
  }

  /** On the demo's ages the deduplicated list holds 20, 22, 23 and 24, each once. */
  lemma UniqueAgesOfSample()
    ensures NoDup(UniqueAges(SampleAges))
    ensures forall a :: a in UniqueAges(SampleAges) <==> a == 20 || a == 22 || a == 23 || a == 24
  {
    var xs := SampleAges;
    assert xs[0] == 20 && xs[1] == 22 && xs[3] == 23 && xs[5] == 24;
  }

  /** IntSummaryStatistics: count, sum (a long), min and max. */
  datatype IntSummary = IntSummary(count: nat, sum: int, min: int, max: int)

  /** summaryStatistics(): starts from (0, 0, Integer.MAX_VALUE, Integer.MIN_VALUE)
      and accepts the values in order. An empty stream keeps those sentinels;
      otherwise min and max are attained and bound every value. */
  function SummaryStatistics(xs: seq<Int32>): (r: IntSummary)
    ensures r.count == |xs|
    ensures xs == [] ==> r.min == IntMax && r.max == IntMin && r.sum == 0
    ensures xs != [] ==> r.min in xs && r.max in xs
    ensures forall x :: x in xs ==> r.min <= x <= r.max
    decreases |xs|
  {
    if xs == [] then IntSummary(0, 0, IntMax, IntMin)
    else
      var init, x := xs[..|xs| - 1], xs[|xs| - 1];
      assert xs == init + [x];
      var s := SummaryStatistics(init);
      IntSummary(s.count + 1, s.sum + x,
                 if x < s.min then x else s.min,
                 if x > s.max then x else s.max)
  }

  /** On the sample the youngest student is 20 and the oldest 24. */
  lemma SampleAgeStatistics()
    ensures SummaryStatistics(Map(Age, SampleStudents())).max == 24
    ensures SummaryStatistics(Map(Age, SampleStudents())).min == 20
  {
    var xs := SampleStudents();
    var ages := Map(Age, xs);
    assert |ages| == 6;
    assert ages[0] == 20 && ages[1] == 22 && ages[2] == 21 && ages[3] == 23 && ages[4] == 20 && ages[5] == 24;
    AgeBounds(ages);
  }

  /** The statistics of six ages between 20 and 24 that include both ends. */
  lemma AgeBounds(ages: seq<Int32>)
    requires |ages| == 6 && ages[0] == 20 && ages[5] == 24
    requires forall i :: 0 <= i < 6 ==> 20 <= ages[i] <= 24
    ensures SummaryStatistics(ages).max == 24 && SummaryStatistics(ages).min == 20
  {
    var r := SummaryStatistics(ages);
    assert ages[0] in ages && ages[5] in ages;
  }
}
