/** The Student record (name, age, major, GPA, gender) and the comparators the
    demos sort it with. */
module Students {
  import opened JavaTypes
  import opened Streams

  /** A student; `gpa` is in hundredths. */
  datatype Student = Student(name: string, age: Int32, major: string, gpa: Hundredths, gender: string)

  // Accessors as function values (Student::getName and friends).
  function Name(s: Student): string { s.name }
  function Age(s: Student): Int32 { s.age }
  function Major(s: Student): string { s.major }
  function Gpa(s: Student): Hundredths { s.gpa }
  function Gender(s: Student): string { s.gender }

  /** String.compareTo: the difference of the first differing characters, or
      else the difference of the lengths. */
  function CompareTo(a: string, b: string): (r: int)
    ensures r == 0 <==> a == b
  {
    if a == [] || b == [] then |a| - |b|
    else if a[0] != b[0] then a[0] as int - b[0] as int
    else
      var r := CompareTo(a[1..], b[1..]);
      assert a == [a[0]] + a[1..] && b == [b[0]] + b[1..];
      r
  }

  /** compareTo is antisymmetric, so it obeys Comparator's sign law. */
  lemma {:induction false} CompareToAntisymmetric(a: string, b: string)
    ensures CompareTo(a, b) == -CompareTo(b, a)
  {
    if a != [] && b != [] && a[0] == b[0] {
      CompareToAntisymmetric(a[1..], b[1..]);
    }
  }

  /** Integer.compare (and Double.compare on non-NaN values): -1, 0 or 1. */
  function CompareInt(x: int, y: int): (r: int)
    ensures r < 0 <==> x < y
    ensures r == 0 <==> x == y
    ensures r > 0 <==> x > y
  {
    if x < y then -1 else if x == y then 0 else 1
  }

  /** (s1, s2) -> Integer.compare(s1.getAge(), s2.getAge()) */
  function CompareAge(s1: Student, s2: Student): int
  {
    CompareInt(s1.age, s2.age)
  }

  /** (s1, s2) -> Double.compare(s2.getGpa(), s1.getGpa()): GPA descending. */
  function CompareGpaDesc(s1: Student, s2: Student): int
  {
    CompareInt(s2.gpa, s1.gpa)
  }

  /** Major by String.compareTo, then age by Integer.compare when the majors tie. */
  function CompareMajorThenAge(s1: Student, s2: Student): int
  {
    var majorCompare := CompareTo(s1.major, s2.major);
    if majorCompare != 0 then majorCompare else CompareInt(s1.age, s2.age)
  }

  /** Natural order of Integer (sorted() on a stream of integers). */
  function CompareNatural(x: int, y: int): int
  {
    CompareInt(x, y)
  }

  /** Every comparator the demos use obeys the sign law, so sorting by it orders adjacent elements. */
  lemma ComparatorsAreSignAntisymmetric()
    ensures SignAntisymmetric(CompareAge)
    ensures SignAntisymmetric(CompareGpaDesc)
    ensures SignAntisymmetric(CompareMajorThenAge)
    ensures SignAntisymmetric(CompareNatural)
  {
    forall a: Student, b: Student
      ensures Sign(CompareMajorThenAge(a, b)) == -Sign(CompareMajorThenAge(b, a))
    {
      CompareToAntisymmetric(a.major, b.major);
    }
  }

  /** The demos' comparators tie exactly equal keys, so their ties are transitive
      and sorting by them is stable (SortByStable). */
  lemma ComparatorTiesAreTransitive()
    ensures TiesTransitive(CompareAge)
    ensures TiesTransitive(CompareGpaDesc)
    ensures TiesTransitive(CompareMajorThenAge)
    ensures TiesTransitive(CompareNatural)
  {
  }
}
