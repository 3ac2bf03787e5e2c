/** The Course model: five fields that setters update in place, and equality and
    hashing that look only at the (courseName, instructor) pair. */
module Courses {
  import opened Wrappers
  import opened JavaTypes

  /** A Java String reference, which may be null (`None`). */
  type JString = Option<string>

  /** The five fields of a course as one value, as a stream stage reads them
      (`score` in hundredths: 88 is 8800). */
  datatype CourseRecord = CourseRecord(courseName: JString, instructor: JString, credit: Int32,
                                       score: Hundredths, category: JString)

  /** String.hashCode computed without overflow: h = 31 * h + c over the characters. */
  function ExactHash(s: string): int
    decreases |s|
  {
    if s == [] then 0 else 31 * ExactHash(s[..|s| - 1]) + s[|s| - 1] as int
  }

  /** String.hashCode as Java computes it, wrapping the running `int` at each step. */
  function StringHash(s: string): Int32
    decreases |s|
  {
    if s == [] then 0 else Wrap32(31 * StringHash(s[..|s| - 1]) + s[|s| - 1] as int)
  }

  /** Multiplying an already wrapped value wraps like multiplying the original. */
  lemma Wrap32Scale(k: int, a: int, b: int)
    ensures Wrap32(k * Wrap32(a) + b) == Wrap32(k * a + b)
  {
    var q := (Wrap32(a) - a) / 0x1_0000_0000;
    assert Wrap32(a) == a + 0x1_0000_0000 * q;
    assert k * Wrap32(a) + b == k * a + b + 0x1_0000_0000 * (k * q);
    Wrap32Congruent(k * Wrap32(a) + b, k * a + b);
  }

  /** The step-by-step wrapping in String.hashCode loses nothing: the result is
      the exact polynomial hash reduced to an `int`. */
  lemma {:induction false} StringHashIsExact(s: string)
    ensures StringHash(s) == Wrap32(ExactHash(s))
    decreases |s|
  {
    if s != [] {
      var init := s[..|s| - 1];
      StringHashIsExact(init);
      Wrap32InRange(StringHash(init));
      Wrap32Scale(31, ExactHash(init), s[|s| - 1] as int);
    }
  }

  /** Objects.hashCode: 0 for null, the string's hash otherwise. */
  function NullableHash(s: JString): Int32
  {
    match s
    case None => 0
    case Some(t) => StringHash(t)
  }

  /** Objects.hash(a, b), that is Arrays.hashCode on the pair: start from 1 and
      fold result = 31 * result + hash(e) in `int` arithmetic. The result is the
      pair's polynomial 31 * 31 + 31 * hash(a) + hash(b), wrapped. */
  function PairHash(a: JString, b: JString): (h: Int32)
    ensures h == Wrap32(961 + 31 * NullableHash(a) + NullableHash(b))
  {
    Wrap32Scale(31, 31 * 1 + NullableHash(a), NullableHash(b));
    Wrap32(31 * Wrap32(31 * 1 + NullableHash(a)) + NullableHash(b))
  }

  /** A course whose fields are updated in place by its setters. */
  class Course {
    var courseName: JString
    var instructor: JString
    var credit: Int32
    var score: Hundredths
    var category: JString

    constructor (courseName: JString, instructor: JString, credit: Int32, score: Hundredths, category: JString)
      ensures Record() == CourseRecord(courseName, instructor, credit, score, category)
    {
      this.courseName := courseName;
      this.instructor := instructor;
      this.credit := credit;
      this.score := score;
      this.category := category;
    }

    /** The current field values. */
    function Record(): CourseRecord
      reads this
    {
      CourseRecord(courseName, instructor, credit, score, category)
    }

    /** The pair that equality and hashing look at. */
    function Key(): (JString, JString)
      reads this
    {
      (courseName, instructor)
    }

    method SetCourseName(courseName: JString)
      modifies this
      ensures Record() == old(Record()).(courseName := courseName)
    {
      this.courseName := courseName;
    }

    method SetInstructor(instructor: JString)
      modifies this
      ensures Record() == old(Record()).(instructor := instructor)
    {
      this.instructor := instructor;
    }

    /** Changes the credit only; the equality key is untouched. */
    method SetCredit(credit: Int32)
      modifies this
      ensures Record() == old(Record()).(credit := credit)
      ensures Key() == old(Key())
    {
      this.credit := credit;
    }

    /** Changes the score only; the equality key is untouched. */
    method SetScore(score: Hundredths)
      modifies this
      ensures Record() == old(Record()).(score := score)
      ensures Key() == old(Key())
    {
      this.score := score;
    }

    /** Changes the category only; the equality key is untouched. */
    method SetCategory(category: JString)
      modifies this
      ensures Record() == old(Record()).(category := category)
      ensures Key() == old(Key())
    {
      this.category := category;
    }

    /** equals(Object): true for the same object; false for null or an object of
        another class; otherwise null-safe equality of courseName and of
        instructor. The identity shortcut agrees with the field comparison, so
        the result is exactly "o is a Course with the same key". */
    predicate Equals(o: object?)
      reads this, o
      ensures o == null ==> !Equals(o)
      ensures Equals(o) <==> o is Course && Key() == (o as Course).Key()
    {
      if this == o then true
      else if o == null || !(o is Course) then false
      else
        var c := o as Course;
        courseName == c.courseName && instructor == c.instructor
    }

    /** hashCode(): Objects.hash(courseName, instructor). */
    function HashCode(): (h: Int32)
      reads this
      ensures h == Wrap32(961 + 31 * NullableHash(courseName) + NullableHash(instructor))
    {
      PairHash(courseName, instructor)
    }
  }

  /** A course equals itself (the identity shortcut). */
  lemma EqualsReflexive(a: Course)
    ensures a.Equals(a)
  {
  }

  lemma EqualsSymmetric(a: Course, b: Course)
    ensures a.Equals(b) <==> b.Equals(a)
  {
  }

  lemma EqualsTransitive(a: Course, b: Course, c: Course)
    requires a.Equals(b) && b.Equals(c)
    ensures a.Equals(c)
  {
  }

  /** Credit, score and category play no part: courses that agree on name and
      instructor are equal whatever those three hold. */
  lemma EqualsIgnoresOtherFields(a: Course, b: Course)
    requires a.courseName == b.courseName && a.instructor == b.instructor
    ensures a.Equals(b)
  {
  }

  /** Equal courses have equal hash codes, as the hashCode contract demands. */
  lemma HashConsistentWithEquals(a: Course, b: Course)
    requires a.Equals(b)
    ensures a.HashCode() == b.HashCode()
  {
  }

  /** The twelve courses of the comprehensive example, in list order. */
  function ComprehensiveCourses(): seq<CourseRecord>
  {
    [ CourseRecord(Some("数据结构与算法"), Some("张教授"), 4, 8800, Some("专业课")),
      CourseRecord(Some("高等数学"), Some("李教授"), 5, 8200, Some("基础课")),
      CourseRecord(Some("线性代数"), Some("王教授"), 3, 8500, Some("基础课")),
      CourseRecord(Some("概率论"), Some("赵教授"), 4, 7900, Some("基础课")),
      CourseRecord(Some("操作系统"), Some("孙教授"), 4, 9100, Some("专业课")),
      CourseRecord(Some("数据库原理"), Some("周教授"), 3, 8700, Some("专业课")),
      CourseRecord(Some("计算机网络"), Some("吴教授"), 4, 8300, Some("专业课")),
      CourseRecord(Some("软件工程"), Some("郑教授"), 3, 8600, Some("专业课")),
      CourseRecord(Some("人工智能"), Some("钱教授"), 4, 8900, Some("专业课")),
      CourseRecord(Some("机器学习"), Some("陈教授"), 4, 9200, Some("专业课")),
      CourseRecord(Some("编译原理"), Some("刘教授"), 3, 8400, Some("专业课")),
      CourseRecord(Some("离散数学"), Some("杨教授"), 4, 8000, Some("基础课")) ]
  }
}
