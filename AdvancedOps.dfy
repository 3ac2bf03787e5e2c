/** The advanced demo: parsing with a fallback value, the hand-written
    StudentStatistics collector, marking names through peek and resetting them,
    and the iterate/takeWhile sequences. */
module AdvancedStreamOperations {
  import opened Wrappers
  import opened JavaTypes
  import opened Streams
  import opened Students
  import opened Collectors

  // ---------------------------------------------------------------------------
  // Integer.parseInt and the fallback wrappers
  // ---------------------------------------------------------------------------

  /** What Integer.parseInt throws on every failure. */
  datatype NumberFormatException = NumberFormatException

  predicate IsDigit(c: char) { '0' <= c <= '9' }

  predicate AllDigits(s: string)
  {
    forall i :: 0 <= i < |s| ==> IsDigit(s[i])
  }

  /** The value of a string of decimal digits, most significant first. */
  function DigitsValue(s: string): nat
    requires AllDigits(s)
    decreases |s|
  {
    if s == [] then 0 else DigitsValue(s[..|s| - 1]) * 10 + (s[|s| - 1] as int - '0' as int)
  }

  /** Integer.parseInt(s) in radix 10: an optional '+' or '-', then at least one
      digit, with the value inside the int range. A null string, the empty string,
      a lone sign, any other character or an out-of-range value raise
      NumberFormatException. */
  function ParseInt(s: Option<string>): (r: Result<Int32, NumberFormatException>)
    ensures s.None? ==> r.Failure?
    ensures s == Some("") ==> r.Failure?
  {
    match s
    case None => Failure(NumberFormatException)
    case Some(t) =>
      if t == [] then Failure(NumberFormatException)
      else
        var digits := if t[0] == '-' || t[0] == '+' then t[1..] else t;
        if digits == [] || !AllDigits(digits) then Failure(NumberFormatException)
        else
          var v: int := if t[0] == '-' then 0 - DigitsValue(digits) as int else DigitsValue(digits);
          if IntMin <= v <= IntMax then Success(v) else Failure(NumberFormatException)
  }

  /** What parseInt accepts: a digit or a sign followed by at least one more
      character, digits after the first position, and a minus sign on every
      negative result; the value is that of the digits, negated after '-'. */
  lemma ParseIntAccepts(s: Option<string>)
    requires ParseInt(s).Success?
    ensures s.Some? && |s.value| >= 1
    ensures forall i :: 0 < i < |s.value| ==> IsDigit(s.value[i])
    ensures IsDigit(s.value[0]) || ((s.value[0] == '+' || s.value[0] == '-') && |s.value| >= 2)
    ensures ParseInt(s).value < 0 ==> s.value[0] == '-'
    ensures ParseInt(s).value ==
              if s.value[0] == '-' then 0 - DigitsValue(s.value[1..])
              else if s.value[0] == '+' then DigitsValue(s.value[1..])
              else DigitsValue(s.value)
  {
  }

  function DigitChar(d: nat): char
    requires d < 10
  {
    ('0' as int + d) as char
  }

  /** The decimal digits of a natural number, without leading zeros. */
  function NatDigits(n: nat): (r: string)
    ensures |r| > 0 && AllDigits(r)
    decreases n
  {
    if n < 10 then [DigitChar(n)] else NatDigits(n / 10) + [DigitChar(n % 10)]
  }

  /** Integer.toString: the reference rendering parseInt must read back. */
  function Show(n: int): string
  {
    if n < 0 then "-" + NatDigits(-n) else NatDigits(n)
  }

  lemma {:induction false} NatDigitsValue(n: nat)
    ensures DigitsValue(NatDigits(n)) == n
    decreases n
  {
    var r := NatDigits(n);
    if n >= 10 {
      NatDigitsValue(n / 10);
      assert r[..|r| - 1] == NatDigits(n / 10);
    }
  }

  /** parseInt reads back what toString writes, for every int. */
  lemma ParseShow(n: Int32)
    ensures ParseInt(Some(Show(n))) == Success(n)
  {
    var m: nat := if n < 0 then 0 - n as int else n;
    NatDigitsValue(m);
    var t := Show(n);
    if n < 0 {
      assert t[1..] == NatDigits(m);
    }
  }

  /** A string holding a character other than a digit after its first position,
      or starting with anything but a digit or a sign, never parses. */
  lemma ParseRejectsNonDigit(t: string, i: nat)
    requires i < |t| && !IsDigit(t[i])
    requires i > 0 || (t[0] != '+' && t[0] != '-')
    ensures ParseInt(Some(t)).Failure?
  {
  }

  /** The demo's safeParseInt: parseInt, or -1 when it throws. */
  function SafeParseInt(s: Option<string>): (r: Int32)
    ensures ParseInt(s).Success? ==> r == ParseInt(s).value
    ensures ParseInt(s).Failure? ==> r == -1
  {
    match ParseInt(s)
    case Success(v) => v
    case Failure(_) => -1
  }

  /** handleException(fn, defaultValue): a function returning fn's result, or
      defaultValue whenever fn throws. */
  function HandleException<T(!new), R, E>(fn: T -> Result<R, E>, defaultValue: R): (g: T -> R)
    ensures forall t :: fn(t).Success? ==> g(t) == fn(t).value
    ensures forall t :: fn(t).Failure? ==> g(t) == defaultValue
  {
    (t: T) => match fn(t) case Success(v) => v case Failure(_) => defaultValue
  }

  /** safeParseInt is parseInt wrapped by handleException with default -1. */
  lemma SafeParseIntIsHandled(s: Option<string>)
    ensures SafeParseInt(s) == HandleException(ParseInt, -1)(s)
  {
  }

  // ---------------------------------------------------------------------------
  // The parsing pipelines over the demo's test data
  // ---------------------------------------------------------------------------

  /** "10", "20", "invalid", "30", null, "40" */
  const TestData: seq<Option<string>> :=
    [Some("10"), Some("20"), Some("invalid"), Some("30"), None, Some("40")]

  /** Objects::nonNull */
  function IsPresent(s: Option<string>): bool { s.Some? }

  /** num -> num != -1 */
  function NotSentinel(n: Int32): bool { n != -1 }

  /** num -> num > 0 */
  function Positive(n: Int32): bool { n > 0 }

  /** filter(nonNull).map(convert).filter(num != -1): the -1 fallback of convert
      doubles as the failure marker. */
  function SentinelPipeline(convert: Option<string> -> Int32, xs: seq<Option<string>>): (r: seq<Int32>)
    ensures forall v :: v in r ==> v != -1
  {
    Filter(NotSentinel, Map(convert, Filter(IsPresent, xs)))
  }

  /** The values of the inputs a parser accepts, in order, failures dropped and
      nothing else. */
  function Accepted<E>(parse: Option<string> -> Result<Int32, E>, xs: seq<Option<string>>): (r: seq<Int32>)
    decreases |xs|
  {
    if xs == [] then []
    else
      var x := xs[|xs| - 1];
      Accepted(parse, xs[..|xs| - 1]) + (if parse(x).Success? then [parse(x).value] else [])
  }

  /** Whatever the parser, the sentinel pipeline over its -1 fallback is the list
      of accepted values with every genuine -1 removed. */
  lemma {:induction false} SentinelPipelineDropsMinusOnes<E>(parse: Option<string> -> Result<Int32, E>, xs: seq<Option<string>>)
    requires forall s :: parse(s).Success? ==> s.Some?
    ensures SentinelPipeline(HandleException(parse, -1), xs) == Filter(NotSentinel, Accepted(parse, xs))
    decreases |xs|
  {
    if xs != [] {
      var init, x := xs[..|xs| - 1], xs[|xs| - 1];
      assert xs == init + [x];
      var g := HandleException(parse, -1);
      SentinelPipelineDropsMinusOnes(parse, init);
      var present := Filter(IsPresent, init);
      var own := if parse(x).Success? then [parse(x).value] else [];
      FilterSnoc(IsPresent, init, x);
      FilterConcat(NotSentinel, Accepted(parse, init), own);
      if x.Some? {
        MapSnoc(g, present, x);
        FilterSnoc(NotSentinel, Map(g, present), g(x));
        if parse(x).Success? {
          assert Filter(NotSentinel, own) == if NotSentinel(g(x)) then [g(x)] else [];
        } else {
          assert Filter(NotSentinel, own) == [];
        }
      } else {
        assert Filter(NotSentinel, own) == [];
      }
    }
  }

  /** map(convert) then filter(num > 0). */
  function PositivePipeline(convert: Option<string> -> Int32, xs: seq<Option<string>>): (r: seq<Int32>)
    ensures forall v :: v in r ==> v > 0
  {
    Filter(Positive, Map(convert, xs))
  }

  /** Whatever the parser, filtering its -1 fallbacks by num > 0 keeps exactly the
      positive accepted values. */
  lemma {:induction false} PositivePipelineKeepsPositiveParses<E>(parse: Option<string> -> Result<Int32, E>, xs: seq<Option<string>>)
    ensures PositivePipeline(HandleException(parse, -1), xs) == Filter(Positive, Accepted(parse, xs))
    decreases |xs|
  {
    if xs != [] {
      var init, x := xs[..|xs| - 1], xs[|xs| - 1];
      assert xs == init + [x];
      var g := HandleException(parse, -1);
      PositivePipelineKeepsPositiveParses(parse, init);
      var own := if parse(x).Success? then [parse(x).value] else [];
      MapSnoc(g, init, x);
      FilterSnoc(Positive, Map(g, init), g(x));
      FilterConcat(Positive, Accepted(parse, init), own);
      if parse(x).Success? {
        assert Filter(Positive, own) == if Positive(g(x)) then [g(x)] else [];
      } else {
        assert Filter(Positive, own) == [];
      }
    }
  }

  lemma AcceptedSnoc<E>(parse: Option<string> -> Result<Int32, E>, xs: seq<Option<string>>, k: nat)
    requires k < |xs|
    ensures Accepted(parse, xs[..k + 1]) ==
            Accepted(parse, xs[..k]) + (if parse(xs[k]).Success? then [parse(xs[k]).value] else [])
  {
    assert xs[..k + 1][..k] == xs[..k];
  }

  /** The demo's first pipeline: filter(nonNull).map(safeParseInt).filter(num != -1). */
  function SafeParsedNumbers(xs: seq<Option<string>>): seq<Int32>
  {
    SentinelPipeline(HandleException(ParseInt, -1), xs)
  }

  /** The demo's converted list: map(try safeConvertToInt catch -1), one number
      per input and -1 for each failure, the null included. */
  function ConvertedNumbers(xs: seq<Option<string>>): (r: seq<Int32>)
    ensures |r| == |xs|
    ensures forall i :: 0 <= i < |xs| && ParseInt(xs[i]).Success? ==> r[i] == ParseInt(xs[i]).value
    ensures forall i :: 0 <= i < |xs| && ParseInt(xs[i]).Failure? ==> r[i] == -1
  {
    Map(HandleException(ParseInt, -1), xs)
  }

  /** The demo's valid numbers: the converted list filtered by num > 0. */
  function ValidNumbers(xs: seq<Option<string>>): seq<Int32>
  {
    PositivePipeline(HandleException(ParseInt, -1), xs)
  }

  /** Accepted keeps the value of every input the parser accepts, and holds no
      value that some accepted input did not produce. */
  lemma {:induction false} AcceptedSpec<E>(parse: Option<string> -> Result<Int32, E>, xs: seq<Option<string>>)
    ensures forall i :: 0 <= i < |xs| && parse(xs[i]).Success? ==> parse(xs[i]).value in Accepted(parse, xs)
    ensures forall v :: v in Accepted(parse, xs) ==> exists i :: 0 <= i < |xs| && parse(xs[i]) == Success(v)
    decreases |xs|
  {
    if xs != [] {
      var init := xs[..|xs| - 1];
      AcceptedSpec(parse, init);
      assert forall i :: 0 <= i < |init| ==> init[i] == xs[i];
    }
  }

  /** What the sentinel filter is for: the numbers that parse, failures dropped,
      and every parsed number kept, -1 included. */
  function ParsedNumbers(xs: seq<Option<string>>): (r: seq<Int32>)
    ensures forall i :: 0 <= i < |xs| && ParseInt(xs[i]).Success? ==> ParseInt(xs[i]).value in r
    ensures forall v :: v in r ==> exists i :: 0 <= i < |xs| && ParseInt(xs[i]) == Success(v)
  {
    AcceptedSpec(ParseInt, xs);
    Accepted(ParseInt, xs)
  }

  /** A genuine "-1" parses to -1, yet the as-written pipeline drops it while
      the list of parsed numbers keeps it. */
  lemma SentinelDropsGenuineMinusOne()
    ensures ParsedNumbers([Some("-1")]) == [-1]
    ensures SafeParsedNumbers([Some("-1")]) == []
  {
    NumeralsParse();
    SentinelOfMinusOne(ParseInt, [Some("-1")]);
  }

  /** One input that parses to -1: accepted, yet dropped by the sentinel filter. */
  lemma SentinelOfMinusOne<E>(parse: Option<string> -> Result<Int32, E>, xs: seq<Option<string>>)
    requires forall s :: parse(s).Success? ==> s.Some?
    requires |xs| == 1 && parse(xs[0]) == Success(-1)
    ensures Accepted(parse, xs) == [-1]
    ensures SentinelPipeline(HandleException(parse, -1), xs) == []
  {
    AcceptedSnoc(parse, xs, 0);
    assert xs[..1] == xs && xs[..0] == [];
    assert Accepted(parse, xs) == [-1];
    SentinelPipelineDropsMinusOnes(parse, xs);
    assert !NotSentinel(-1);
    FilterNone(NotSentinel, [-1]);
  }

  /** The numerals the demo parses. */
  lemma NumeralsParse()
    ensures ParseInt(Some("10")) == Success(10) && ParseInt(Some("20")) == Success(20)
    ensures ParseInt(Some("30")) == Success(30) && ParseInt(Some("40")) == Success(40)
    ensures ParseInt(Some("-1")) == Success(-1)
    ensures ParseInt(Some("invalid")).Failure?
  {
    assert Show(10) == "10" && Show(20) == "20" && Show(30) == "30" && Show(40) == "40";
    assert Show(-1) == "-1";
    ParseShow(10);
    ParseShow(20);
    ParseShow(30);
    ParseShow(40);
    ParseShow(-1);
    ParseRejectsNonDigit("invalid", 0);
  }

  /** Six inputs shaped like the test data: 10, 20, a failure, 30, a failure, 40. */
  predicate TestShape<E>(parse: Option<string> -> Result<Int32, E>, xs: seq<Option<string>>)
  {
    |xs| == 6 &&
    parse(xs[0]) == Success(10) && parse(xs[1]) == Success(20) && parse(xs[2]).Failure? &&
    parse(xs[3]) == Success(30) && parse(xs[4]).Failure? && parse(xs[5]) == Success(40)
  }

  /** The accepted values of inputs shaped like the test data. */
  lemma AcceptedOfTestShape<E>(parse: Option<string> -> Result<Int32, E>, xs: seq<Option<string>>)
    requires TestShape(parse, xs)
    ensures Accepted(parse, xs) == [10, 20, 30, 40]
  {
    assert xs[..0] == [];
    AcceptedSnoc(parse, xs, 0);
    AcceptedSnoc(parse, xs, 1);
    AcceptedSnoc(parse, xs, 2);
    AcceptedSnoc(parse, xs, 3);
    AcceptedSnoc(parse, xs, 4);
    AcceptedSnoc(parse, xs, 5);
    assert xs[..6] == xs;
  }

  /** The sentinel pipeline over inputs shaped like the test data. */
  lemma SentinelOfTestShape<E>(parse: Option<string> -> Result<Int32, E>, xs: seq<Option<string>>)
    requires forall s :: parse(s).Success? ==> s.Some?
    requires TestShape(parse, xs)
    ensures SentinelPipeline(HandleException(parse, -1), xs) == [10, 20, 30, 40]
  {
    SentinelPipelineDropsMinusOnes(parse, xs);
    NoMinusOneInTestShape(parse, xs);
  }

  lemma NoMinusOneInTestShape<E>(parse: Option<string> -> Result<Int32, E>, xs: seq<Option<string>>)
    requires TestShape(parse, xs)
    ensures Filter(NotSentinel, Accepted(parse, xs)) == [10, 20, 30, 40]
  {
    AcceptedOfTestShape(parse, xs);
    FilterAll(NotSentinel, Accepted(parse, xs));
  }

  /** The converted list over inputs shaped like the test data. */
  lemma ConvertedOfTestShape<E>(parse: Option<string> -> Result<Int32, E>, xs: seq<Option<string>>)
    requires TestShape(parse, xs)
    ensures Map(HandleException(parse, -1), xs) == [10, 20, -1, 30, -1, 40]
  {
    var c := Map(HandleException(parse, -1), xs);
    assert c[0] == 10 && c[1] == 20 && c[2] == -1 && c[3] == 30 && c[4] == -1 && c[5] == 40;
  }

  /** The positive part of the converted list over inputs shaped like the test data. */
  lemma ValidOfTestShape<E>(parse: Option<string> -> Result<Int32, E>, xs: seq<Option<string>>)
    requires TestShape(parse, xs)
    ensures PositivePipeline(HandleException(parse, -1), xs) == [10, 20, 30, 40]
  {
    AcceptedOfTestShape(parse, xs);
    PositivePipelineKeepsPositiveParses(parse, xs);
    FilterAll(Positive, Accepted(parse, xs));
  }

  /** On the test data: the sentinel pipeline gives 10, 20, 30, 40; the converted
      list is 10, 20, -1, 30, -1, 40; its positive part is 10, 20, 30, 40. */
  lemma TestDataPipelines()
    ensures SafeParsedNumbers(TestData) == [10, 20, 30, 40]
    ensures ConvertedNumbers(TestData) == [10, 20, -1, 30, -1, 40]
    ensures ValidNumbers(TestData) == [10, 20, 30, 40]
  {
    NumeralsParse();
    var xs := TestData;
    assert xs[0] == Some("10") && xs[1] == Some("20") && xs[2] == Some("invalid");
    assert xs[3] == Some("30") && xs[4] == None && xs[5] == Some("40");
    SentinelOfTestShape(ParseInt, xs);
    ConvertedOfTestShape(ParseInt, xs);
    ValidOfTestShape(ParseInt, xs);
  }

  // ---------------------------------------------------------------------------
  // StudentStatistics: the hand-written collector
  // ---------------------------------------------------------------------------

  /** The running totals of a StudentStatistics: the count and the age sum are
      Java ints; the GPA total is kept exactly, in hundredths. */
  datatype Totals = Totals(count: Int32, age: Int32, gpa: Hundredths)

  /** The mathematical sum of the ages. */
  function AgeSum(xs: seq<Student>): int
    decreases |xs|
  {
    if xs == [] then 0 else AgeSum(xs[..|xs| - 1]) + xs[|xs| - 1].age
  }

  /** The mathematical sum of the GPAs. */
  function GpaSum(xs: seq<Student>): int
    decreases |xs|
  {
    if xs == [] then 0 else GpaSum(xs[..|xs| - 1]) + xs[|xs| - 1].gpa
  }

  /** accept(s) on the totals. */
  function AcceptTotals(t: Totals, s: Student): Totals
  {
    Totals(Wrap32(t.count + 1), Wrap32(t.age + s.age), t.gpa + s.gpa)
  }

  /** combine(other) on the totals. */
  function CombineTotals(t: Totals, u: Totals): Totals
  {
    Totals(Wrap32(t.count + u.count), Wrap32(t.age + u.age), t.gpa + u.gpa)
  }

  /** The totals after accepting xs in order into a fresh instance: the size and
      the age sum, each wrapped once as a Java int, and the GPA sum. */
  function Summarize(xs: seq<Student>): (t: Totals)
    ensures t == Totals(Wrap32(|xs|), Wrap32(AgeSum(xs)), GpaSum(xs))
    decreases |xs|
  {
    if xs == [] then Totals(0, 0, 0)
    else
      var init, x := xs[..|xs| - 1], xs[|xs| - 1];
      Wrap32Add(|init|, 1);
      Wrap32Add(AgeSum(init), x.age);
      AcceptTotals(Summarize(init), x)
  }

  lemma {:induction false} SumsAppend(xs: seq<Student>, ys: seq<Student>)
    ensures AgeSum(xs + ys) == AgeSum(xs) + AgeSum(ys)
    ensures GpaSum(xs + ys) == GpaSum(xs) + GpaSum(ys)
    decreases |ys|
  {
    if ys != [] {
      var init := ys[..|ys| - 1];
      SumsAppend(xs, init);
      assert (xs + ys)[..|xs + ys| - 1] == xs + init;
    } else {
      assert xs + ys == xs;
    }
  }

  /** Merge correctness: accepting two halves separately and combining the
      results gives the totals of one sequential pass over both. */
  lemma MergeLaw(xs: seq<Student>, ys: seq<Student>)
    ensures CombineTotals(Summarize(xs), Summarize(ys)) == Summarize(xs + ys)
  {
    var a, b, c := Summarize(xs), Summarize(ys), Summarize(xs + ys);
    SumsAppend(xs, ys);
    assert |xs + ys| == |xs| + |ys|;
    Wrap32AddBoth(|xs|, |ys|);
    assert CombineTotals(a, b).count == c.count;
    Wrap32AddBoth(AgeSum(xs), AgeSum(ys));
    assert CombineTotals(a, b).age == c.age;
  }

  /** Adding two wrapped values and wrapping the sum wraps the exact sum. */
  lemma Wrap32AddBoth(a: int, b: int)
    ensures Wrap32(Wrap32(a) + Wrap32(b)) == Wrap32(a + b)
  {
    Wrap32Add(a, Wrap32(b));
    Wrap32Add(b, a);
    assert Wrap32(b) + a == a + Wrap32(b);
  }

  /** combine is associative on totals, so any split of a stream into chunks
      combines to the same result. */
  lemma CombineAssociative(t: Totals, u: Totals, v: Totals)
    ensures CombineTotals(CombineTotals(t, u), v) == CombineTotals(t, CombineTotals(u, v))
  {
    WrapSum3(t.count, u.count, v.count);
    WrapSum3(t.age, u.age, v.age);
  }

  /** Wrapping after each of two additions or once at the end agree, in either grouping. */
  lemma WrapSum3(a: int, b: int, c: int)
    ensures Wrap32(Wrap32(a + b) + c) == Wrap32(a + b + c)
    ensures Wrap32(a + Wrap32(b + c)) == Wrap32(a + b + c)
  {
    Wrap32Add(a + b, c);
    Wrap32Add(b + c, a);
    assert Wrap32(b + c) + a == a + Wrap32(b + c);
    assert b + c + a == a + b + c;
  }

  /** A fresh instance is an identity for combine. */
  lemma CombineIdentity(t: Totals)
    ensures CombineTotals(Totals(0, 0, 0), t) == t
  {
    Wrap32InRange(t.count);
    Wrap32InRange(t.age);
  }

  class StudentStatistics {
    var totalCount: Int32
    var totalAge: Int32
    var totalGpa: Hundredths

    /** The three totals as a value. */
    function Snapshot(): Totals
      reads this
    {
      Totals(totalCount, totalAge, totalGpa)
    }

    /** StudentStatistics::new: every total starts at zero. */
    constructor()
      ensures totalCount == 0 && totalAge == 0 && totalGpa == 0
    {
      totalCount := 0;
      totalAge := 0;
      totalGpa := 0;
    }

    /** accept(student): one more student, its age and GPA added; the int
        totals wrap around. */
    method Accept(s: Student)
      modifies this
      ensures totalCount == Wrap32(old(totalCount) + 1)
      ensures totalAge == Wrap32(old(totalAge) + s.age)
      ensures totalGpa == old(totalGpa) + s.gpa
      ensures Snapshot() == AcceptTotals(old(Snapshot()), s)
    {
      totalCount := Wrap32(totalCount + 1);
      totalAge := Wrap32(totalAge + s.age);
      totalGpa := totalGpa + s.gpa;
    }

    /** combine(other): other's totals added into this one, which is returned;
        other itself is left as it was (unless it is this very instance). */
    method Combine(other: StudentStatistics) returns (r: StudentStatistics)
      modifies this
      ensures r == this
      ensures Snapshot() == CombineTotals(old(Snapshot()), old(other.Snapshot()))
      ensures other != this ==> other.Snapshot() == old(other.Snapshot())
    {
      var t := Snapshot();
      var u := other.Snapshot();
      totalCount, totalAge, totalGpa := Wrap32(t.count + u.count), Wrap32(t.age + u.age), t.gpa + u.gpa;
      r := this;
    }

    /** getAvgAge(): the mean age, or 0 before any student is accepted. */
    function AvgAge(): (r: real)
      reads this
      ensures totalCount <= 0 ==> r == 0.0
      ensures totalCount > 0 ==> r * totalCount as real == totalAge as real
    {
      if totalCount > 0 then totalAge as real / totalCount as real else 0.0
    }

    /** getAvgGpa(): the mean GPA in hundredths, or 0 before any student is accepted. */
    function AvgGpa(): (r: real)
      reads this
      ensures totalCount <= 0 ==> r == 0.0
      ensures totalCount > 0 ==> r * totalCount as real == totalGpa as real
    {
      if totalCount > 0 then totalGpa as real / totalCount as real else 0.0
    }
  }

  /** collect(Collector.of(new, accept, combine)) on a sequential stream: one
      fresh instance accepts every student in order. */
  method CollectSequential(xs: seq<Student>) returns (st: StudentStatistics)
    ensures fresh(st)
    ensures st.Snapshot() == Summarize(xs)
  {
    st := new StudentStatistics();
    for i := 0 to |xs|
      invariant fresh(st)
      invariant st.Snapshot() == Summarize(xs[..i])
    {
      st.Accept(xs[i]);
      assert xs[..i + 1][..i] == xs[..i];
    }
    assert xs[..|xs|] == xs;
  }

  /** The same collector on a stream split in two: each half into its own
      instance, then the first combines the second. */
  method CollectInHalves(xs: seq<Student>, ys: seq<Student>) returns (st: StudentStatistics)
    ensures st.Snapshot() == Summarize(xs + ys)
  {
    var a := CollectSequential(xs);
    var b := CollectSequential(ys);
    st := a.Combine(b);
    MergeLaw(xs, ys);
  }

  // ---------------------------------------------------------------------------
  // Marking excellent students through peek, then resetting the names
  // ---------------------------------------------------------------------------

  function NotStar(c: char): bool { c != '*' }

  /** replace("*", ""): the name with every '*' removed. */
  function RemoveStars(s: string): (r: string)
    ensures '*' !in r
    ensures |r| <= |s|
    ensures forall c :: c != '*' ==> multiset(r)[c] == multiset(s)[c]
  {
    FilterMultiplicity(NotStar, s);
    Filter(NotStar, s)
  }

  /** Removal works piece by piece, so the kept characters stay in their order:
      one character is dropped exactly when it is '*', and a concatenation is
      cleaned part by part. */
  lemma RemoveStarsConcat(u: string, v: string)
    ensures RemoveStars(u + v) == RemoveStars(u) + RemoveStars(v)
    ensures forall c :: RemoveStars([c]) == if c == '*' then [] else [c]
  {
    FilterConcat(NotStar, u, v);
    forall c ensures RemoveStars([c]) == if c == '*' then [] else [c] {
      assert [c][..0] == [];
    }
  }

  /** A name without '*' is left as it is. */
  lemma RemoveStarsNoStar(s: string)
    requires '*' !in s
    ensures RemoveStars(s) == s
  {
    FilterAll(NotStar, s);
  }

  /** Removing the stars of a name with one '*' appended removes the appended one too. */
  lemma RemoveStarsAppendStar(s: string)
    ensures RemoveStars(s + "*") == RemoveStars(s)
  {
    FilterSnoc(NotStar, s, '*');
  }

  predicate EndsWithStar(s: string) { |s| > 0 && s[|s| - 1] == '*' }

  /** The peek action: a student with GPA above 4.0 gets "*" appended to the name. */
  function Marked(s: Student): Student
  {
    if s.gpa > 400 then s.(name := s.name + "*") else s
  }

  /** The reset action: a name ending in '*' loses every '*'. */
  function Reset(s: Student): Student
  {
    if EndsWithStar(s.name) then s.(name := RemoveStars(s.name)) else s
  }

  /** name.contains("*") */
  function NameHasStar(s: Student): bool { '*' in s.name }

  function Excellent(s: Student): bool { s.gpa > 400 }

  /** Marking then resetting restores every student whose name had no '*'. */
  lemma MarkResetRoundTrip(s: Student)
    requires '*' !in s.name
    ensures Reset(Marked(s)) == s
  {
    if s.gpa > 400 {
      assert EndsWithStar(s.name + "*");
      RemoveStarsAppendStar(s.name);
      RemoveStarsNoStar(s.name);
    } else {
      assert !EndsWithStar(s.name) by {
        if |s.name| > 0 {
          assert s.name[|s.name| - 1] in s.name;
        }
      }
    }
  }

  /** Among names without '*', the marked ones are exactly the students above 4.0,
      and marking changes nothing but the name. */
  lemma MarkedIffExcellent(s: Student)
    requires '*' !in s.name
    ensures NameHasStar(Marked(s)) <==> Excellent(s)
    ensures Marked(s).age == s.age && Marked(s).major == s.major
    ensures Marked(s).gpa == s.gpa && Marked(s).gender == s.gender
  {
    if s.gpa > 400 {
      assert (s.name + "*")[|s.name|] == '*';
    }
  }

  /** filter(name contains "*") after the marking peek keeps the excellent
      students, marked, in their order. */
  lemma {:induction false} MarkedSelection(xs: seq<Student>)
    requires forall s :: s in xs ==> '*' !in s.name
    ensures Filter(NameHasStar, Map(Marked, xs)) == Map(Marked, Filter(Excellent, xs))
    decreases |xs|
  {
    if xs != [] {
      var init, x := xs[..|xs| - 1], xs[|xs| - 1];
      assert xs == init + [x];
      MarkedSelection(init);
      MarkedIffExcellent(x);
      MapSnoc(Marked, init, x);
      FilterSnoc(NameHasStar, Map(Marked, init), Marked(x));
      FilterSnoc(Excellent, init, x);
      if Excellent(x) {
        MapSnoc(Marked, Filter(Excellent, init), x);
      }
    }
  }

  /** peek(s -> if gpa > 4.0 then setName(name + "*")) over the list. */
  method MarkExcellent(a: array<Student>)
    modifies a
    ensures forall i :: 0 <= i < a.Length ==> a[i] == Marked(old(a[i]))
  {
    for i := 0 to a.Length
      invariant forall j :: 0 <= j < i ==> a[j] == Marked(old(a[j]))
      invariant forall j :: i <= j < a.Length ==> a[j] == old(a[j])
    {
      a[i] := Marked(a[i]);
    }
  }

  /** forEach(s -> if name ends with "*" then setName(name.replace("*", ""))). */
  method ResetNames(a: array<Student>)
    modifies a
    ensures forall i :: 0 <= i < a.Length ==> a[i] == Reset(old(a[i]))
  {
    for i := 0 to a.Length
      invariant forall j :: 0 <= j < i ==> a[j] == Reset(old(a[j]))
      invariant forall j :: i <= j < a.Length ==> a[j] == old(a[j])
    {
      a[i] := Reset(a[i]);
    }
  }

  /** The demo: mark, list the marked students' names, reset. The listed names
      are the marked names of the students above 4.0, and every student whose
      name had no '*' ends as it began. */
  method MarkListReset(a: array<Student>) returns (marked: seq<string>)
    modifies a
    ensures marked == Map(Name, Filter(NameHasStar, Map(Marked, old(a[..]))))
    ensures (forall s :: s in old(a[..]) ==> '*' !in s.name) ==>
              marked == Map(Name, Map(Marked, Filter(Excellent, old(a[..]))))
    ensures forall i :: 0 <= i < a.Length ==> a[i] == Reset(Marked(old(a[i])))
    ensures forall i :: 0 <= i < a.Length && '*' !in old(a[i]).name ==> a[i] == old(a[i])
  {
    MarkExcellent(a);
    assert a[..] == Map(Marked, old(a[..]));
    marked := Map(Name, Filter(NameHasStar, a[..]));
    ghost var before := old(a[..]);
    if forall s :: s in before ==> '*' !in s.name {
      MarkedSelection(before);
    }
    ResetNames(a);
    forall i | 0 <= i < a.Length && '*' !in old(a[i]).name ensures a[i] == old(a[i]) {
      MarkResetRoundTrip(old(a[i]));
    }
  }

  // ---------------------------------------------------------------------------
  // Infinite streams cut short
  // ---------------------------------------------------------------------------

  /** n -> n * 2 on Java ints. */
  function Double(n: Int32): Int32 { Wrap32(n * 2) }

  function Pow2(k: nat): nat
  {
    if k == 0 then 1 else 2 * Pow2(k - 1)
  }

  lemma {:induction false} Pow2Monotone(j: nat, k: nat)
    requires j <= k
    ensures Pow2(j) <= Pow2(k)
    decreases k
  {
    if j < k {
      Pow2Monotone(j, k - 1);
    }
  }

  /** Stream.iterate(1, n -> n * 2): element k is 2^k while that fits in an int. */
  lemma {:induction false} PowersOfTwo(k: nat)
    requires Pow2(k) <= IntMax
    ensures IterateNth(1, Double, k) == Pow2(k)
    decreases k
  {
    if k > 0 {
      PowersOfTwo(k - 1);
      Wrap32InRange(Pow2(k));
    }
  }

  /** iterate(1, n -> n * 2).limit(8) is 1, 2, 4, ..., 128. */
  lemma PowersOfTwoSample()
    ensures Iterate(1, Double, 8) == [1, 2, 4, 8, 16, 32, 64, 128]
  {
    var r := Iterate(1, Double, 8);
    assert Pow2(7) == 128;
    forall k | 0 <= k < 8 ensures r[k] == Pow2(k) {
      Pow2Monotone(k, 7);
      PowersOfTwo(k);
    }
  }

  function Fib(k: nat): nat
  {
    if k < 2 then k else Fib(k - 2) + Fib(k - 1)
  }

  lemma {:induction false} FibMonotone(j: nat, k: nat)
    requires j <= k
    ensures Fib(j) <= Fib(k)
    decreases k
  {
    if j < k {
      FibMonotone(j, k - 1);
    }
  }

  /** fib -> new int[]{fib[1], fib[0] + fib[1]} */
  function FibStep(p: (Int32, Int32)): (Int32, Int32)
  {
    (p.1, Wrap32(p.0 + p.1))
  }

  function First(p: (Int32, Int32)): Int32 { p.0 }

  /** The pair step keeps consecutive Fibonacci numbers while they fit in an int. */
  lemma {:induction false} FibonacciPairs(k: nat)
    requires Fib(k + 1) <= IntMax
    ensures IterateNth((0, 1), FibStep, k) == (Fib(k), Fib(k + 1))
    decreases k
  {
    if k > 0 {
      FibMonotone(k, k + 1);
      FibonacciPairs(k - 1);
      Wrap32InRange(Fib(k + 1));
    }
  }

  /** iterate({0, 1}, step).map(fib -> fib[0]).limit(10): the first ten Fibonacci numbers. */
  lemma FibonacciSample()
    ensures Map(First, Iterate((0, 1), FibStep, 10)) == [0, 1, 1, 2, 3, 5, 8, 13, 21, 34]
  {
    var r := Map(First, Iterate((0, 1), FibStep, 10));
    FibFirstEleven();
    forall k | 0 <= k < 10 ensures r[k] == Fib(k) {
      FibMonotone(k + 1, 10);
      FibonacciPairs(k);
    }
  }

  lemma FibFirstEleven()
    ensures Fib(0) == 0 && Fib(1) == 1 && Fib(2) == 1 && Fib(3) == 2 && Fib(4) == 3 && Fib(5) == 5
    ensures Fib(6) == 8 && Fib(7) == 13 && Fib(8) == 21 && Fib(9) == 34 && Fib(10) == 55
  {
    assert Fib(2) == 1;
    assert Fib(3) == 2;
    assert Fib(4) == 3;
    assert Fib(5) == 5;
    assert Fib(6) == 8;
    assert Fib(7) == 13;
    assert Fib(8) == 21;
    assert Fib(9) == 34;
  }

  /** n -> n + 2 on Java ints. */
  function PlusTwo(n: Int32): Int32 { Wrap32(n + 2) }

  function AtMost100(n: Int32): bool { n <= 100 }

  /** Stream.iterate(2, n -> n + 2): element k is 2k + 2 while that fits in an int. */
  lemma {:induction false} EvenNumbers(k: nat)
    requires 2 * k + 2 <= IntMax
    ensures IterateNth(2, PlusTwo, k) == 2 * k + 2
    decreases k
  {
    if k > 0 {
      EvenNumbers(k - 1);
      var prev := IterateNth(2, PlusTwo, k - 1);
      assert prev + 2 == 2 * k + 2;
      Wrap32InRange(prev + 2);
    }
  }

  /** iterate(2, n -> n + 2).takeWhile(n <= 100): however far the source is run
      past 100, exactly the 50 even numbers 2..100 come out, in order. */
  lemma EvensUpTo100(m: nat)
    requires m > 50
    ensures TakeWhile(AtMost100, Iterate(2, PlusTwo, m)) == Iterate(2, PlusTwo, 50)
    ensures forall i :: 0 <= i < 50 ==> Iterate(2, PlusTwo, 50)[i] == 2 * i + 2
  {
    var xs := Iterate(2, PlusTwo, m);
    forall i | 0 <= i <= 50 ensures xs[i] == 2 * i + 2 {
      EvenNumbers(i);
    }
    TakeWhileStops(AtMost100, xs, 50);
    IterateLimit(2, PlusTwo, 50, m);
    forall i | 0 <= i < 50 ensures Iterate(2, PlusTwo, 50)[i] == 2 * i + 2 {
      EvenNumbers(i);
    }
  }
}
