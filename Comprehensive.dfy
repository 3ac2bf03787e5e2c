/** The comprehensive example's own rules over the fifteen-student list: the top
    student and the size of each major, the grade classifier and the group
    counts, course recommendations by GPA tier, risk warnings, and the GPA
    update that overrides, re-ranks and recounts. */
module ComprehensiveExample {
  import opened Wrappers
  import opened JavaTypes
  import opened Streams
  import opened Students
  import opened Collectors
  import opened Courses
  import Basic = BasicStreamOperations
  import Intermediate = IntermediateStreamOperations
  import Advanced = AdvancedStreamOperations

  /** The fifteen students of the comprehensive example (GPA in hundredths). */
  function ComprehensiveStudents(): seq<Student>
  {
    [ Student("张三", 20, "计算机科学", 380, "男"),
      Student("李四", 22, "数学", 360, "女"),
      Student("王五", 21, "计算机科学", 420, "男"),
      Student("赵六", 23, "物理", 390, "女"),
      Student("孙七", 20, "数学", 320, "男"),
      Student("周八", 24, "计算机科学", 370, "女"),
      Student("吴九", 19, "化学", 350, "男"),
      Student("郑十", 25, "物理", 310, "女"),
      Student("钱一", 18, "计算机科学", 400, "男"),
      Student("陈二", 26, "数学", 340, "女"),
      Student("刘三", 21, "计算机科学", 330, "女"),
      Student("杨四", 22, "物理", 380, "男"),
      Student("黄五", 20, "化学", 370, "男"),
      Student("林六", 23, "数学", 390, "女"),
      Student("何七", 19, "计算机科学", 410, "女") ]
  }

  // ---------------------------------------------------------------------------
  // Grouping by major
  // ---------------------------------------------------------------------------

  /** groupingBy(major, maxBy(comparingDouble(gpa))): every major present maps to
      a present Optional holding a student of that major whose GPA is at least
      that of every student of the major. */
  function TopStudentsByMajor(xs: seq<Student>): (m: map<string, Option<Student>>)
    ensures forall s :: s in xs ==> s.major in m && m[s.major].Some? && s.gpa <= m[s.major].value.gpa
    ensures forall k :: k in m ==> m[k].Some? && m[k].value in xs && m[k].value.major == k
  {
    GroupMaxBy(Major, Gpa, xs)
  }

  /** The per-major summary: group size and the average GPA and age. */
  datatype StudentSummary = StudentSummary(count: nat, avgGpa: real, avgAge: real)

  /** average().orElse(0.0) over a group with the given total and size. */
  function Average(total: int, count: nat): real
  {
    if count == 0 then 0.0 else total as real / count as real
  }

  function SummaryOf(g: seq<Student>): StudentSummary
  {
    StudentSummary(|g|, Average(Advanced.GpaSum(g), |g|), Average(Advanced.AgeSum(g), |g|))
  }

  /** groupingBy(major, collectingAndThen(toList(), summary)): one entry per
      major met, whose count is the number of students of that major (never 0). */
  function MajorStats(xs: seq<Student>): (r: map<string, StudentSummary>)
    ensures forall s :: s in xs ==> s.major in r
    ensures forall k :: k in r ==> r[k].count == |Filter(HasKey(Major, k), xs)| && r[k].count > 0
  {
    var g := GroupBy(Major, xs);
    GroupByNonEmpty(Major, xs);
    map k | k in g :: SummaryOf(g[k])
  }

  /** The summaries' counts, as a map. */
  function SummaryCounts(ms: map<string, StudentSummary>): map<string, nat>
  {
    map k | k in ms :: ms[k].count
  }

  /** The majorStats group sizes, summed over the majors once each, give the
      number of students. */
  lemma MajorStatsTotal(xs: seq<Student>)
    ensures forall k :: k in Distinct(Map(Major, xs)) ==> k in MajorStats(xs)
    ensures SumOver(SummaryCounts(MajorStats(xs)), Distinct(Map(Major, xs))) == |xs|
  {
    var ms, c, ks := MajorStats(xs), GroupCount(Major, xs), Distinct(Map(Major, xs));
    GroupCountIsGroupSize(Major, xs);
    GroupCountTotal(Major, xs);
    SumOverAgree(SummaryCounts(ms), c, ks);
  }

  // ---------------------------------------------------------------------------
  // Counting by group: majors, genders and grade buckets
  // ---------------------------------------------------------------------------

  const GradeExcellent: string := "优秀(4.0-4.0)"
  const GradeGood: string := "良好(3.7-3.9)"
  const GradeMedium: string := "中等(3.3-3.6)"
  const GradePass: string := "及格(3.0-3.2)"
  const GradeFail: string := "不及格(<3.0)"

  /** The grade classifier: the first threshold met among 4.0, 3.7, 3.3 and 3.0,
      else the failing bucket. Each GPA lands in exactly one of the five. */
  function GradeLabel(gpa: Hundredths): (r: string)
    ensures r == GradeExcellent <==> gpa >= 400
    ensures r == GradeGood <==> 370 <= gpa < 400
    ensures r == GradeMedium <==> 330 <= gpa < 370
    ensures r == GradePass <==> 300 <= gpa < 330
    ensures r == GradeFail <==> gpa < 300
  {
    if gpa >= 400 then GradeExcellent
    else if gpa >= 370 then GradeGood
    else if gpa >= 330 then GradeMedium
    else if gpa >= 300 then GradePass
    else GradeFail
  }

  function StudentGrade(s: Student): string { GradeLabel(s.gpa) }

  /** groupingBy(key, counting()): each count is positive and, summed over the
      keys once each, the counts give the number of elements. */
  lemma CountsPartition<T, K>(key: T -> K, xs: seq<T>)
    ensures forall k :: k in GroupCount(key, xs) ==> GroupCount(key, xs)[k] > 0
    ensures forall k :: k in Distinct(Map(key, xs)) ==> k in GroupCount(key, xs)
    ensures SumOver(GroupCount(key, xs), Distinct(Map(key, xs))) == |xs|
  {
    GroupCountIsGroupSize(key, xs);
    GroupByNonEmpty(key, xs);
    GroupCountTotal(key, xs);
  }

  /** The grade distribution has at most the five bucket labels as keys. */
  lemma GradeDistributionKeys(xs: seq<Student>)
    ensures forall k :: k in GroupCount(StudentGrade, xs) ==>
              k in [GradeExcellent, GradeGood, GradeMedium, GradePass, GradeFail]
  {
    GroupCountKeysMet(StudentGrade, xs);
    forall k | k in GroupCount(StudentGrade, xs)
      ensures k in [GradeExcellent, GradeGood, GradeMedium, GradePass, GradeFail]
    {
      var i :| 0 <= i < |xs| && Map(StudentGrade, xs)[i] == k;
      assert k == GradeLabel(xs[i].gpa);
    }
  }

  /** filter(gpa >= 3.8 && age <= 23).sorted(GPA descending): exactly the
      qualifying students, best first. */
  function GraduateCandidates(xs: seq<Student>): (r: seq<Student>)
    ensures multiset(r) == multiset(Filter(IsCandidate, xs))
    ensures forall s :: s in r <==> s in xs && s.gpa >= 380 && s.age <= 23
    ensures forall i :: 0 <= i < |r| - 1 ==> r[i].gpa >= r[i + 1].gpa
  {
    var r := Basic.SortByGpaDesc(Filter(IsCandidate, xs));
    assert forall s :: s in r <==> s in multiset(r);
    r
  }

  function IsCandidate(s: Student): bool { s.gpa >= 380 && s.age <= 23 }

  // ---------------------------------------------------------------------------
  // Course recommendations
  // ---------------------------------------------------------------------------

  /** The lowest course score recommended to a student: 80 from GPA 4.0, 75
      from 3.7, 70 otherwise. */
  function TierThreshold(gpa: Hundredths): Hundredths
  {
    if gpa >= 400 then 8000 else if gpa >= 370 then 7500 else 7000
  }

  /** A better GPA never lowers the bar. */
  lemma TierMonotone(g1: Hundredths, g2: Hundredths)
    requires g1 <= g2
    ensures 7000 <= TierThreshold(g1) <= TierThreshold(g2) <= 8000
  {
  }

  function MeetsTier(gpa: Hundredths): CourseRecord -> bool
  {
    (c: CourseRecord) => c.score >= TierThreshold(gpa)
  }

  function CourseName(c: CourseRecord): JString { c.courseName }

  /** courses.filter(score meets the tier).map(getCourseName).limit(3): as many
      names as qualifying courses, but at most three, each the name of a course
      that meets the tier. */
  function RecommendedCourses(gpa: Hundredths, cs: seq<CourseRecord>): (r: seq<JString>)
    ensures |r| <= 3
    ensures |r| == if |Filter(MeetsTier(gpa), cs)| < 3 then |Filter(MeetsTier(gpa), cs)| else 3
    ensures forall i :: 0 <= i < |r| ==> exists c :: c in cs && c.courseName == r[i] && c.score >= TierThreshold(gpa)
  {
    var q := Filter(MeetsTier(gpa), cs);
    LimitedNamesFrom(gpa, q, cs);
    Limit(3, Map(CourseName, q))
  }

  /** Each of the first three names of qualifying courses q drawn from cs names
      a course of cs that meets the tier. */
  lemma LimitedNamesFrom(gpa: Hundredths, q: seq<CourseRecord>, cs: seq<CourseRecord>)
    requires forall c :: c in q ==> c in cs && MeetsTier(gpa)(c)
    ensures forall i :: 0 <= i < |Limit(3, Map(CourseName, q))| ==>
              exists c :: c in cs && c.courseName == Limit(3, Map(CourseName, q))[i] && c.score >= TierThreshold(gpa)
  {
    var r := Limit(3, Map(CourseName, q));
    forall i | 0 <= i < |r|
      ensures exists c :: c in cs && c.courseName == r[i] && c.score >= TierThreshold(gpa)
    {
      assert q[i] in q && r[i] == q[i].courseName;
    }
  }

  /** In course-list order and skipping none: a qualifying course preceded by
      fewer than three qualifying courses is recommended, at the position given
      by how many qualifying courses precede it. */
  lemma RecommendedInListOrder(gpa: Hundredths, cs: seq<CourseRecord>, j: nat)
    requires j < |cs| && MeetsTier(gpa)(cs[j])
    requires |Filter(MeetsTier(gpa), cs[..j])| < 3
    ensures |Filter(MeetsTier(gpa), cs[..j])| < |RecommendedCourses(gpa, cs)|
    ensures RecommendedCourses(gpa, cs)[|Filter(MeetsTier(gpa), cs[..j])|] == cs[j].courseName
  {
    LimitedFilterInOrder(3, MeetsTier(gpa), CourseName, cs, j);
  }

  /** When the first three courses all meet the tier, they are the recommendation. */
  lemma RecommendFirstThree(gpa: Hundredths, cs: seq<CourseRecord>)
    requires |cs| >= 3
    requires MeetsTier(gpa)(cs[0]) && MeetsTier(gpa)(cs[1]) && MeetsTier(gpa)(cs[2])
    ensures RecommendedCourses(gpa, cs) == [cs[0].courseName, cs[1].courseName, cs[2].courseName]
  {
    LimitedFilterFirstThree(MeetsTier(gpa), CourseName, cs);
  }

  /** On the twelve courses every tier recommends the same three: all of the
      first three score at least 82. */
  lemma SampleRecommendations(gpa: Hundredths)
    ensures RecommendedCourses(gpa, ComprehensiveCourses()) == [Some("数据结构与算法"), Some("高等数学"), Some("线性代数")]
  {
    var cs := ComprehensiveCourses();
    assert cs[0].score == 8800 && cs[1].score == 8200 && cs[2].score == 8500;
    RecommendFirstThree(gpa, cs);
  }

  /** String.join renders a null element as "null". */
  function JavaText(s: JString): string
  {
    match s
    case None => "null"
    case Some(t) => t
  }

  /** name + ": " + String.join(", ", recommendations). */
  function RecommendationLine(cs: seq<CourseRecord>): Student -> string
  {
    (s: Student) => s.name + ": " + Join(", ", Map(JavaText, RecommendedCourses(s.gpa, cs)))
  }

  function GpaAtLeast350(s: Student): bool { s.gpa >= 350 }

  /** filter(gpa >= 3.5) then groupingBy(major, mapping(line, toList())): the
      majors of the students from 3.5 up, each holding one line per such student
      of that major, in list order. */
  function CourseRecommendations(xs: seq<Student>, cs: seq<CourseRecord>): (r: map<string, seq<string>>)
    ensures forall s :: s in xs && s.gpa >= 350 ==> s.major in r
    ensures forall k :: k in r ==>
              r[k] == Map(RecommendationLine(cs), Filter(HasKey(Major, k), Filter(GpaAtLeast350, xs)))
  {
    GroupMapping(Major, RecommendationLine(cs), Filter(GpaAtLeast350, xs))
  }

  /** Only majors with a student from 3.5 up appear, each with at least one line. */
  lemma RecommendationsOnlyEligible(xs: seq<Student>, cs: seq<CourseRecord>)
    ensures forall k :: k in CourseRecommendations(xs, cs) ==>
              CourseRecommendations(xs, cs)[k] != [] &&
              exists s :: s in xs && s.gpa >= 350 && s.major == k
  {
    var eligible := Filter(GpaAtLeast350, xs);
    var r := CourseRecommendations(xs, cs);
    GroupByNonEmpty(Major, eligible);
    forall k | k in r ensures r[k] != [] && exists s :: s in xs && s.gpa >= 350 && s.major == k {
      var g := GroupBy(Major, eligible);
      assert k in g;
      var s := g[k][0];
      assert s in Filter(HasKey(Major, k), eligible);
    }
  }

  // ---------------------------------------------------------------------------
  // Risk warnings
  // ---------------------------------------------------------------------------

  const LowGpa: string := "GPA偏低"
  const OverAge: string := "年龄偏大"
  const DoubleRisk: string := "双重风险"

  /** The warning filter: GPA below 3.0 or older than 24. */
  function AtRisk(s: Student): bool { s.gpa < 300 || s.age > 24 }

  /** The list the risk-factor ArrayList ends up holding. */
  function RiskFactorList(s: Student): seq<string>
  {
    (if s.gpa < 300 then [LowGpa] else []) +
    (if s.age > 24 then [OverAge] else []) +
    (if s.gpa < 300 && s.age > 24 then [DoubleRisk] else [])
  }

  /** The position of a factor in the fixed order low GPA, over age, double risk. */
  function FactorRank(f: string): int
  {
    if f == LowGpa then 0 else if f == OverAge then 1 else 2
  }

  /** Each factor is present exactly when its condition holds, the three keep
      their order, none repeats, and a student passing the filter gets at least one. */
  lemma RiskFactorListSpec(s: Student)
    ensures LowGpa in RiskFactorList(s) <==> s.gpa < 300
    ensures OverAge in RiskFactorList(s) <==> s.age > 24
    ensures DoubleRisk in RiskFactorList(s) <==> s.gpa < 300 && s.age > 24
    ensures forall i, j :: 0 <= i < j < |RiskFactorList(s)| ==>
              FactorRank(RiskFactorList(s)[i]) < FactorRank(RiskFactorList(s)[j])
    ensures NoDup(RiskFactorList(s))
    ensures AtRisk(s) <==> RiskFactorList(s) != []
  {
    var r := RiskFactorList(s);
    assert LowGpa[0] == 'G' && OverAge[0] == '年' && DoubleRisk[0] == '双';
    if s.gpa < 300 && s.age > 24 {
      assert r == [LowGpa, OverAge, DoubleRisk];
    } else if s.gpa < 300 {
      assert r == [LowGpa];
    } else if s.age > 24 {
      assert r == [OverAge];
    } else {
      assert r == [];
    }
  }

  /** The map lambda's ArrayList: three conditional adds, in order. */
  method RiskFactors(s: Student) returns (factors: seq<string>)
    ensures factors == RiskFactorList(s)
    ensures AtRisk(s) ==> factors != []
  {
    factors := [];
    if s.gpa < 300 {
      factors := factors + [LowGpa];
    }
    if s.age > 24 {
      factors := factors + [OverAge];
    }
    if s.gpa < 300 && s.age > 24 {
      factors := factors + [DoubleRisk];
    }
    RiskFactorListSpec(s);
  }

  /** String.format("%s: %s (%s)", name, major, String.join(", ", factors)). */
  function RiskWarning(s: Student): string
  {
    s.name + ": " + s.major + " (" + Join(", ", RiskFactorList(s)) + ")"
  }

  /** One warning per student passing the filter, in list order. */
  function RiskWarnings(xs: seq<Student>): (r: seq<string>)
    ensures |r| == |Filter(AtRisk, xs)|
    ensures forall i :: 0 <= i < |r| ==> exists s :: s in xs && AtRisk(s) && r[i] == RiskWarning(s)
    ensures forall i :: 0 <= i < |r| ==> r[i] == RiskWarning(Filter(AtRisk, xs)[i])
  {
    var q := Filter(AtRisk, xs);
    var r := Map(RiskWarning, q);
    assert forall i :: 0 <= i < |r| ==> q[i] in xs && AtRisk(q[i]) && r[i] == RiskWarning(q[i]);
    r
  }

  // ---------------------------------------------------------------------------
  // Score updates
  // ---------------------------------------------------------------------------

  datatype StudentScoreUpdate = StudentScoreUpdate(name: string, newGpa: Hundredths)

  /** The IllegalStateException toMap throws on a repeated key. */
  datatype DuplicateKey = DuplicateKey(name: string)

  function UpdateName(u: StudentScoreUpdate): string { u.name }

  /** toMap(getName, getNewGpa): the updates accumulated in order; the first
      name met a second time aborts the collection. */
  function ToMap(us: seq<StudentScoreUpdate>): Result<map<string, Hundredths>, DuplicateKey>
    decreases |us|
  {
    if us == [] then Success(map[])
    else
      var init, u := us[..|us| - 1], us[|us| - 1];
      match ToMap(init)
      case Failure(e) => Failure(e)
      case Success(m) =>
        if u.name in m then Failure(DuplicateKey(u.name)) else Success(m[u.name := u.newGpa])
  }

  /** A successful toMap holds exactly the updates' names, each mapped to its
      new GPA. */
  lemma {:induction false} ToMapEntries(us: seq<StudentScoreUpdate>)
    ensures ToMap(us).Success? ==> forall n :: n in ToMap(us).value <==> n in Map(UpdateName, us)
    ensures ToMap(us).Success? ==> forall u :: u in us ==> ToMap(us).value[u.name] == u.newGpa
    decreases |us|
  {
    if us != [] && ToMap(us).Success? {
      var init, u := us[..|us| - 1], us[|us| - 1];
      assert us == init + [u];
      ToMapEntries(init);
      MapSnoc(UpdateName, init, u);
    }
  }

  /** toMap succeeds exactly when no name repeats; a failure names a name that
      occurs twice. */
  lemma {:induction false} ToMapSucceedsIffDistinct(us: seq<StudentScoreUpdate>)
    ensures ToMap(us).Success? <==> NoDup(Map(UpdateName, us))
    ensures ToMap(us).Failure? ==> ToMap(us).error.name in Map(UpdateName, us)
    decreases |us|
  {
    if us != [] {
      var init, u := us[..|us| - 1], us[|us| - 1];
      assert us == init + [u];
      ToMapSucceedsIffDistinct(init);
      ToMapEntries(init);
      MapSnoc(UpdateName, init, u);
      NoDupSnoc(Map(UpdateName, init), u.name);
    }
  }

  /** The GPA the update map assigns a student: the update if the name has one,
      the original otherwise. */
  function EffectiveGpa(m: map<string, Hundredths>, s: Student): Hundredths
  {
    if s.name in m then m[s.name] else s.gpa
  }

  /** new Student(name, age, major, finalGpa, gender): only the GPA can change;
      it becomes the update when there is one, and otherwise the student is kept. */
  function ApplyUpdate(m: map<string, Hundredths>, s: Student): (r: Student)
    ensures r.(gpa := s.gpa) == s
    ensures s.name in m ==> r.gpa == m[s.name]
    ensures s.name !in m ==> r == s
  {
    Student(s.name, s.age, s.major, EffectiveGpa(m, s), s.gender)
  }

  function Updater(m: map<string, Hundredths>): Student -> Student
  {
    (s: Student) => ApplyUpdate(m, s)
  }

  /** One ranking line: name, GPA, and whether the " [已更新]" mark is shown. */
  datatype RankingLine = RankingLine(name: string, gpa: Hundredths, updated: bool)

  function Ranked(m: map<string, Hundredths>): Student -> RankingLine
  {
    (s: Student) => RankingLine(s.name, s.gpa, s.name in m)
  }

  /** The updated ranking: at most six lines, GPA non-increasing, each marked as
      updated exactly when its name has an update. */
  function UpdatedRankings(m: map<string, Hundredths>, xs: seq<Student>): (r: seq<RankingLine>)
    ensures |r| == if |xs| < 6 then |xs| else 6
    ensures forall i :: 0 <= i < |r| - 1 ==> r[i].gpa >= r[i + 1].gpa
    ensures forall i :: 0 <= i < |r| ==> (r[i].updated <==> r[i].name in m)
  {
    Limit(6, Map(Ranked(m), Basic.SortByGpaDesc(Map(Updater(m), xs))))
  }

  function LineHasGpa(g: Hundredths): RankingLine -> bool
  {
    (l: RankingLine) => l.gpa == g
  }

  /** Ties in the ranking follow the list: the lines with GPA g are, in order,
      the first of the updated students with GPA g in list order. */
  lemma RankingsKeepTieOrder(m: map<string, Hundredths>, xs: seq<Student>, g: Hundredths)
    ensures Filter(LineHasGpa(g), UpdatedRankings(m, xs)) <=
            Map(Ranked(m), Filter(Basic.HasGpa(g), Map(Updater(m), xs)))
  {
    var u := Map(Updater(m), xs);
    var sorted := Basic.SortByGpaDesc(u);
    FilterLimitPrefix(LineHasGpa(g), 6, Map(Ranked(m), sorted));
    FilterMap(Basic.HasGpa(g), Ranked(m), LineHasGpa(g), sorted);
    Basic.SortByGpaDescStable(u, g);
  }

  /** The lines are the six best updated students, and every student left out
      ranks no higher than any line. */
  lemma RankingsAreTopSix(m: map<string, Hundredths>, xs: seq<Student>)
    ensures UpdatedRankings(m, xs) == Map(Ranked(m), Intermediate.TopByGpa(6, Map(Updater(m), xs)))
    ensures multiset(Intermediate.TopByGpa(6, Map(Updater(m), xs))) +
            multiset(Intermediate.ExceptTopByGpa(6, Map(Updater(m), xs))) == multiset(Map(Updater(m), xs))
    ensures forall t, i :: t in Intermediate.ExceptTopByGpa(6, Map(Updater(m), xs)) && 0 <= i < |UpdatedRankings(m, xs)| ==>
              UpdatedRankings(m, xs)[i].gpa >= t.gpa
  {
    var u := Map(Updater(m), xs);
    var top, rest := Intermediate.TopByGpa(6, u), Intermediate.ExceptTopByGpa(6, u);
    var r := UpdatedRankings(m, xs);
    assert r == Map(Ranked(m), top);
    Intermediate.TopByGpaPermutation(6, u);
    Intermediate.TopByGpaDominates(6, u);
    forall t, i | t in rest && 0 <= i < |r| ensures r[i].gpa >= t.gpa {
      var j :| 0 <= j < |rest| && rest[j] == t;
      assert r[i].gpa == top[i].gpa;
    }
  }

  /** Every line shows a student of the list with that student's effective GPA. */
  lemma RankingLinesFromStudents(m: map<string, Hundredths>, xs: seq<Student>)
    ensures forall i :: 0 <= i < |UpdatedRankings(m, xs)| ==>
              exists j :: 0 <= j < |xs| && UpdatedRankings(m, xs)[i].name == xs[j].name &&
                          UpdatedRankings(m, xs)[i].gpa == EffectiveGpa(m, xs[j])
  {
    var u := Map(Updater(m), xs);
    var sorted := Basic.SortByGpaDesc(u);
    var r := UpdatedRankings(m, xs);
    forall i | 0 <= i < |r|
      ensures exists j :: 0 <= j < |xs| && r[i].name == xs[j].name && r[i].gpa == EffectiveGpa(m, xs[j])
    {
      assert r[i] == Ranked(m)(sorted[i]);
      assert sorted[i] in multiset(u);
      var j :| 0 <= j < |u| && u[j] == sorted[i];
      assert u[j] == ApplyUpdate(m, xs[j]);
    }
  }

  /** A GPA of at least 4.0. */
  function Excellent(gpa: Hundredths): bool { gpa >= 400 }

  function EffectiveIn(m: map<string, Hundredths>): Student -> Hundredths
  {
    (s: Student) => EffectiveGpa(m, s)
  }

  /** (int) mapToDouble(effective GPA).filter(>= 4.0).count(). */
  function ExcellentCount(m: map<string, Hundredths>, xs: seq<Student>): Int32
  {
    Wrap32(Count(Filter(Excellent, Map(EffectiveIn(m), xs))))
  }

  function ExcellentAfter(m: map<string, Hundredths>): Student -> bool
  {
    (s: Student) => EffectiveGpa(m, s) >= 400
  }

  /** The excellent count is the number of students whose effective GPA is at
      least 4.0 (the cast to int is exact for any list that fits in memory). */
  lemma ExcellentCountIsExcellentStudents(m: map<string, Hundredths>, xs: seq<Student>)
    requires |xs| <= IntMax
    ensures ExcellentCount(m, xs) == |Filter(ExcellentAfter(m), xs)|
  {
    FilterMapCount(Excellent, EffectiveIn(m), ExcellentAfter(m), xs);
    Wrap32InRange(|Filter(Excellent, Map(EffectiveIn(m), xs))|);
  }

  /** The anomaly monitor: new GPAs above 4.2 or below 2.0. */
  function Anomalous(u: StudentScoreUpdate): bool { u.newGpa > 420 || u.newGpa < 200 }

  /** The four score updates of the example. */
  function SampleUpdates(): seq<StudentScoreUpdate>
  {
    [ StudentScoreUpdate("张三", 390),
      StudentScoreUpdate("李四", 340),
      StudentScoreUpdate("王五", 430),
      StudentScoreUpdate("赵六", 380) ]
  }

  /** On the example's updates toMap succeeds with the four entries. */
  lemma SampleUpdatesMap()
    ensures ToMap(SampleUpdates()) == Success(map["张三" := 390, "李四" := 340, "王五" := 430, "赵六" := 380])
  {
    var us := SampleUpdates();
    var m1 := map["张三" := 390];
    var m2 := m1["李四" := 340];
    var m3 := m2["王五" := 430];
    assert us[..1][..0] == [];
    assert ToMap(us[..1]) == Success(m1);
    assert us[..2][..1] == us[..1] && us[1].name !in m1;
    assert ToMap(us[..2]) == Success(m2);
    assert us[..3][..2] == us[..2] && us[2].name !in m2;
    assert ToMap(us[..3]) == Success(m3);
    assert us[..3] == us[..|us| - 1] && us[3].name !in m3;
  }

  /** Only 王五's 4.3 is reported as anomalous. */
  lemma SampleAnomalies()
    ensures Filter(Anomalous, SampleUpdates()) == [SampleUpdates()[2]]
  {
    var us := SampleUpdates();
    FilterOnlyThird(Anomalous, us[0], us[1], us[2], us[3]);
    assert us == [us[0], us[1], us[2], us[3]];
  }
}
