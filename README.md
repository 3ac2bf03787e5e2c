# Java Stream API teaching project, modelled in Dafny

The repository is a set of demos for `java.util.stream`. Each demo builds a small
list of students or courses, pushes it through a pipeline, and prints the result.
The Dafny model keeps the logic that the repository owns and the stage semantics
that its demos depend on. Everything works over finite sequences:

- **`Streams`**: the pipeline stages the demos use, as functions over `seq`. These
  are range, iterate, filter, map, flatMap, distinct (first-seen order), a stable
  insertion sort by comparator, limit, skip, takeWhile, count, reduce with and without
  identity, max/min, findFirst, and any/all/noneMatch.
- **`Collectors`**: groupingBy with a list, mapping, counting or maxBy downstream,
  and the 1/0 counting reduce. It also holds the split/merge law behind a parallel
  count.
- **`Students`**: the student record, `String.compareTo`, `Integer.compare`, and
  the demo comparators.
- **`BasicStreamOperations`**, **`IntermediateStreamOperations`**,
  **`AdvancedStreamOperations`** and **`ComprehensiveExample`**: the demo
  pipelines over the repository's own sample data.
  - `AdvancedStreamOperations` includes the hand-written `StudentStatistics`
    collector as a class with `accept`/`combine`, and the peek-mark/reset loop
    over an array of students.
  - `ComprehensiveExample` includes:
    - the GPA override by name lookup and the top-six ranking;
    - the risk-factor list, built by a method that appends step by step;
    - the five-bucket grade classifier;
    - the recommendation tiers;
    - group counts.
- **`Courses`**: the `Course` class. Its setters update fields in place; `equals`
  and `hashCode` read only the (courseName, instructor) pair.
- **`StreamApiGui`**: `createSeparatorLine`, a counted loop that appends one
  character.

Representation choices:
- **GPA and course scores** are integers in hundredths: GPA 3.8 is 380 and a
  course score of 88 is 8800. The model only compares and copies them.
- **Java `int`** values are the `Int32` subset type. Where the code adds `int`s
  (`StudentStatistics` totals, `String.hashCode`, `Objects.hash`, the iterate
  steps), wrap-around is written out with `Wrap32`.
- **A Java `String` that may be null** is `Option<string>`.
- **`Integer.parseInt`** returns a `Result`, and its exception is the `Failure`
  case.

## Model

| member | source | states |
|---|---|---|
| Streams.Range | src/main/java/com/learn/stream/basic/BasicStreamOperations.java:55-56 | `range(lo, hi)` is half-open: hi - lo elements (none if hi <= lo), element i is lo + i |
| Streams.Iterate | src/main/java/com/learn/stream/advanced/AdvancedStreamOperations.java:220-222 | `iterate(seed, f).limit(n)` has n elements; element k is f applied k times to the seed |
| Streams.IterateLimit | src/main/java/com/learn/stream/advanced/AdvancedStreamOperations.java:220-221 | limiting a longer iterate stream to n gives the n-element iterate stream |
| Streams.Filter | src/main/java/com/learn/stream/basic/BasicStreamOperations.java:71-72 | filter keeps exactly the elements satisfying p (every kept one satisfies p, every satisfying one is kept); it never adds elements (sub-multiset, no longer); multiplicities and order are stated by FilterMultiplicity and FilterConcat |
| Streams.FilterConcat | src/main/java/com/learn/stream/intermediate/IntermediateStreamOperations.java:253-255 | filtering a concatenation is the concatenation of the filtered parts, which is what a split stream relies on; with a one-element stream kept or dropped by p, this fixes the output order |
| Streams.FilterMultiplicity | src/main/java/com/learn/stream/basic/BasicStreamOperations.java:71-72 | filter keeps every occurrence of a value satisfying p and no occurrence of any other value |
| Streams.FilterExtensional | src/main/java/com/learn/stream/basic/BasicStreamOperations.java:71-72 | two predicates that agree on the stream's elements filter it identically |
| Streams.Map | src/main/java/com/learn/stream/basic/BasicStreamOperations.java:100-101 | map keeps length and order: output i is f(input i) |
| Streams.FilterMap | src/main/java/com/learn/stream/basic/BasicStreamOperations.java:100-101 | filtering mapped values is mapping the filtered values when the filter decides the same on x and f(x) |
| Streams.FlatMap | src/main/java/com/learn/stream/basic/BasicStreamOperations.java:114-118 | an element is in the flatMap exactly when it is in the array produced for some input element |
| Streams.FlatMapConcat | src/main/java/com/learn/stream/basic/BasicStreamOperations.java:114-118 | flatMap of a concatenation is the concatenation of the flatMaps, and flatMap of one element is that element's whole array: each input contributes its array, in encounter order |
| Streams.FlatMapSingletons | src/main/java/com/learn/stream/basic/BasicStreamOperations.java:114-118 | flatMap over one-element arrays equals map of the wrapped function |
| Streams.DistinctSpec | src/main/java/com/learn/stream/intermediate/IntermediateStreamOperations.java:285-286 | distinct has no duplicates, loses no value, invents none, and orders values by their first occurrence |
| Streams.DistinctOfNoDup | src/main/java/com/learn/stream/intermediate/IntermediateStreamOperations.java:285-286 | distinct leaves a duplicate-free stream unchanged |
| Streams.DistinctIdempotent | src/main/java/com/learn/stream/intermediate/IntermediateStreamOperations.java:285-286 | distinct applied twice equals distinct applied once |
| Streams.SortBy | src/main/java/com/learn/stream/basic/BasicStreamOperations.java:135-136 | sorted(cmp) returns a permutation of its input |
| Streams.SortBySorted | src/main/java/com/learn/stream/basic/BasicStreamOperations.java:135-136 | for a comparator with sgn(cmp(a,b)) = -sgn(cmp(b,a)), adjacent results are in comparator order |
| Streams.SortByOfSorted | src/main/java/com/learn/stream/intermediate/IntermediateStreamOperations.java:287 | sorting an already sorted stream changes nothing |
| Streams.InsertStable | src/main/java/com/learn/stream/basic/BasicStreamOperations.java:135-136 | for a comparator whose ties are transitive, inserting x keeps each tie class in the order it has with x put in front |
| Streams.SortByStable | src/main/java/com/learn/stream/basic/BasicStreamOperations.java:135-136 | for a comparator whose ties are transitive, sorted() is stable: the elements tied with any a come out in encounter order |
| Streams.SortByIdempotent | src/main/java/com/learn/stream/intermediate/IntermediateStreamOperations.java:287 | sorting twice equals sorting once |
| Streams.Limit | src/main/java/com/learn/stream/intermediate/IntermediateStreamOperations.java:292-294 | limit(n) is the first min(n, length) elements, in order |
| Streams.FilterLimitPrefix | src/main/java/com/learn/stream/intermediate/IntermediateStreamOperations.java:292-294 | what a filter keeps of the first n elements is a prefix of what it keeps of the whole stream |
| Streams.Skip | src/main/java/com/learn/stream/intermediate/IntermediateStreamOperations.java:298-300 | skip(n) has length - n elements (0 if n >= length), element i is input n + i |
| Streams.LimitSkip | src/main/java/com/learn/stream/intermediate/IntermediateStreamOperations.java:292-300 | limit(n) followed by skip(n) reassembles the stream |
| Streams.TakeWhile | src/main/java/com/learn/stream/advanced/AdvancedStreamOperations.java:239-241 | takeWhile is a prefix whose elements all satisfy p, and it stops at the first element that fails p |
| Streams.TakeWhileStops | src/main/java/com/learn/stream/advanced/AdvancedStreamOperations.java:239-241 | if the first failing element is at m, takeWhile is exactly the first m elements |
| Streams.Count | src/main/java/com/learn/stream/intermediate/IntermediateStreamOperations.java:46 | count() counted one per element equals the length |
| Streams.ReduceFirst | src/main/java/com/learn/stream/intermediate/IntermediateStreamOperations.java:138-140 | reduce without identity is present exactly for a non-empty stream |
| Streams.ReduceMaxBy | src/main/java/com/learn/stream/intermediate/IntermediateStreamOperations.java:151-153 | folding with max gives the seed or a stream element, ranked at least as high as every element |
| Streams.ReduceMinBy | src/main/java/com/learn/stream/intermediate/IntermediateStreamOperations.java:69-70 | folding with min gives the seed or a stream element, ranked at most as high as every element |
| Streams.StreamMax | src/main/java/com/learn/stream/intermediate/IntermediateStreamOperations.java:63-64 | max(comparing(rank)) is present iff the stream is non-empty, and then it is an element ranked at least as high as all |
| Streams.StreamMin | src/main/java/com/learn/stream/intermediate/IntermediateStreamOperations.java:69-70 | min(comparing(rank)) is present iff non-empty, and then it is an element ranked at most as high as all |
| Streams.FindFirst | src/main/java/com/learn/stream/intermediate/IntermediateStreamOperations.java:180-182 | filter().findFirst() is empty iff nothing matches; otherwise it is the earliest match |
| Streams.FindFirstOrElse | src/main/java/com/learn/stream/intermediate/IntermediateStreamOperations.java:193-196 | orElse(d) gives d exactly when nothing matches, otherwise the earliest match |
| Streams.AnyMatch | src/main/java/com/learn/stream/basic/BasicStreamOperations.java:178-179 | anyMatch(p) holds iff some element satisfies p |
| Streams.AllMatch | src/main/java/com/learn/stream/basic/BasicStreamOperations.java:183-184 | allMatch(p) holds iff every element satisfies p (so it holds on an empty stream) |
| Streams.NoneMatchIsNotAny | src/main/java/com/learn/stream/basic/BasicStreamOperations.java:188-189 | noneMatch(p) is the negation of anyMatch(p) |
| Students.CompareTo | src/main/java/com/learn/stream/basic/BasicStreamOperations.java:149 | String.compareTo is zero exactly for equal strings |
| Students.CompareToAntisymmetric | src/main/java/com/learn/stream/basic/BasicStreamOperations.java:149 | compareTo(a, b) = -compareTo(b, a) |
| Students.CompareInt | src/main/java/com/learn/stream/basic/BasicStreamOperations.java:136 | Integer.compare is negative, zero or positive exactly when x <, = or > y |
| Students.ComparatorsAreSignAntisymmetric | src/main/java/com/learn/stream/basic/BasicStreamOperations.java:147-154 | the age, GPA-descending, major-then-age and natural comparators obey the Comparator sign law |
| Collectors.CountingReduce | src/main/java/com/learn/stream/intermediate/IntermediateStreamOperations.java:163-165 | mapping to 1/0 by a predicate and reducing with (0, +) gives the number of matching elements |
| Collectors.CountSplit | src/main/java/com/learn/stream/intermediate/IntermediateStreamOperations.java:243-255 | the count over a concatenation is the sum of the counts over the parts |
| Collectors.ParallelCount | src/main/java/com/learn/stream/intermediate/IntermediateStreamOperations.java:253-255 | summing per-chunk filter counts over any chunking equals the sequential count |
| Collectors.GroupBy | src/main/java/com/learn/stream/intermediate/IntermediateStreamOperations.java:86-87 | groupingBy(key): every element's key is present, and each group is the filtered stream of elements with that key, in encounter order |
| Collectors.GroupByKeysMet | src/main/java/com/learn/stream/intermediate/IntermediateStreamOperations.java:86-87 | groupingBy has no key that no element produces |
| Collectors.GroupByNonEmpty | src/main/java/com/learn/stream/intermediate/IntermediateStreamOperations.java:86-87 | no group is empty |
| Collectors.GroupMapping | src/main/java/com/learn/stream/example/ComprehensiveExample.java:293-315 | groupingBy(key, mapping(f, toList())): each group is f mapped over the elements with that key, in order |
| Collectors.GroupCount | src/main/java/com/learn/stream/example/ComprehensiveExample.java:204-205 | groupingBy(key, counting()): every key occurring is present with the number of elements that have it |
| Collectors.GroupCountKeysMet | src/main/java/com/learn/stream/example/ComprehensiveExample.java:204-205 | counting has no key that no element produces |
| Collectors.GroupCountIsGroupSize | src/main/java/com/learn/stream/example/ComprehensiveExample.java:204-205 | counting has the same keys as groupingBy, and each count is that group's size |
| Collectors.GroupCountTotal | src/main/java/com/learn/stream/example/ComprehensiveExample.java:204-205 | the counts over the distinct keys sum to the number of elements |
| Collectors.GroupMaxBy | src/main/java/com/learn/stream/example/ComprehensiveExample.java:44-48 | groupingBy(key, maxBy(rank)): every key maps to a present element of the stream with that key, ranked at least as high as every element with that key |
| BasicStreamOperations.RangeOneToSix | src/main/java/com/learn/stream/basic/BasicStreamOperations.java:55-56 | IntStream.range(1, 6) is 1, 2, 3, 4, 5 |
| BasicStreamOperations.AgeSquares | src/main/java/com/learn/stream/basic/BasicStreamOperations.java:106-108 | mapToInt(age).map(a * a) keeps length and order; element i is age i squared when that fits an int |
| BasicStreamOperations.MajorCategories | src/main/java/com/learn/stream/basic/BasicStreamOperations.java:114-119 | flatMap to one-element arrays then distinct is the majors, each once, in first-seen order, and nothing else |
| BasicStreamOperations.MajorCategoriesOfSample | src/main/java/com/learn/stream/basic/BasicStreamOperations.java:244-249 | on the three students with courses the categories are 计算机科学, 数学 |
| BasicStreamOperations.SortByAge | src/main/java/com/learn/stream/basic/BasicStreamOperations.java:135-136 | the age sort is a permutation with non-decreasing ages |
| BasicStreamOperations.SortByGpaDesc | src/main/java/com/learn/stream/basic/BasicStreamOperations.java:141-142 | the GPA sort is a permutation with non-increasing GPAs |
| BasicStreamOperations.SortByGpaDescStable | src/main/java/com/learn/stream/basic/BasicStreamOperations.java:141-142 | students with equal GPA keep their list order in the GPA sort (the sort behind the graduate candidates and the rankings) |
| BasicStreamOperations.SortByMajorThenAge | src/main/java/com/learn/stream/basic/BasicStreamOperations.java:147-154 | the permutation is ordered by major under compareTo, and by age where majors tie |
| BasicStreamOperations.FirstGpaAbove4 | src/main/java/com/learn/stream/basic/BasicStreamOperations.java:170-173 | orElse(null) is null iff no GPA exceeds 4.0; otherwise it is the earliest student with GPA > 4.0 |
| BasicStreamOperations.FirstGpaAbove4OfSample | src/main/java/com/learn/stream/basic/BasicStreamOperations.java:170-173 | on the sample this is the third student, 王五 |
| BasicStreamOperations.SampleMatches | src/main/java/com/learn/stream/basic/BasicStreamOperations.java:178-189 | on the sample: there is a computer-science student, all GPAs exceed 3.0, and none is below 2.0 |
| BasicStreamOperations.UniqueAgesAsWritten | src/main/java/com/learn/stream/basic/BasicStreamOperations.java:210-212 | collecting with toList returns the age list unchanged |
| BasicStreamOperations.UniqueAgesAsWrittenKeepsDuplicates | src/main/java/com/learn/stream/basic/BasicStreamOperations.java:210-212 | on the demo's ages the "deduplicated" list still contains a duplicate |
| BasicStreamOperations.UniqueAges | src/main/java/com/learn/stream/basic/BasicStreamOperations.java:209-212 | the deduplicated list has no duplicates and exactly the values of the input |
| BasicStreamOperations.UniqueAgesOfSample | src/main/java/com/learn/stream/basic/BasicStreamOperations.java:210-212 | on the demo's ages the deduplicated values are 20, 22, 23, 24, each once |
| BasicStreamOperations.SummaryStatistics | src/main/java/com/learn/stream/basic/BasicStreamOperations.java:217-219 | the count is the length; min and max bound every value and are attained when non-empty; the empty case gives MAX_VALUE/MIN_VALUE and sum 0 |
| BasicStreamOperations.SampleAgeStatistics | src/main/java/com/learn/stream/basic/BasicStreamOperations.java:217-219 | on the sample the maximum age is 24 and the minimum 20 |
| IntermediateStreamOperations.SampleCount | src/main/java/com/learn/stream/intermediate/IntermediateStreamOperations.java:46 | count() of the eight sample students is 8 |
| IntermediateStreamOperations.NameReduceIsJoin | src/main/java/com/learn/stream/intermediate/IntermediateStreamOperations.java:157-159 | when no name is empty, the name reduce with identity "" is the names joined by ", " ("" for no names) |
| IntermediateStreamOperations.CountHighGpa | src/main/java/com/learn/stream/intermediate/IntermediateStreamOperations.java:163-165 | the 1/0 reduce is the number of students with GPA > 3.5, between 0 and the list length |
| IntermediateStreamOperations.FindByName | src/main/java/com/learn/stream/intermediate/IntermediateStreamOperations.java:180-182 | the lookup is empty iff no student has the name; otherwise it is the earliest such student |
| IntermediateStreamOperations.MajorOrElse | src/main/java/com/learn/stream/intermediate/IntermediateStreamOperations.java:210-214 | map(getMajor).orElse(d) is the found student's major, or d when nobody matches |
| IntermediateStreamOperations.SampleLookups | src/main/java/com/learn/stream/intermediate/IntermediateStreamOperations.java:180-214 | on the sample: 王五 is found and studies 计算机科学, 李四 is found, and the missing name yields the default student |
| IntermediateStreamOperations.FillNumbers | src/main/java/com/learn/stream/intermediate/IntermediateStreamOperations.java:236-239 | the add loop produces 1..n in order |
| IntermediateStreamOperations.EvenCount | src/main/java/com/learn/stream/intermediate/IntermediateStreamOperations.java:243-245 | 1..n holds n / 2 even numbers |
| IntermediateStreamOperations.MillionEvens | src/main/java/com/learn/stream/intermediate/IntermediateStreamOperations.java:243-255 | 1..1000000 holds 500000 even numbers |
| IntermediateStreamOperations.SplitEvenCount | src/main/java/com/learn/stream/intermediate/IntermediateStreamOperations.java:253-255 | splitting 1..n at any point and adding the two even counts gives the sequential count |
| IntermediateStreamOperations.DistinctSorted | src/main/java/com/learn/stream/intermediate/IntermediateStreamOperations.java:285-288 | distinct then sorted is strictly increasing and has exactly the input's values |
| IntermediateStreamOperations.SortedNatural | src/main/java/com/learn/stream/intermediate/IntermediateStreamOperations.java:287 | sorted() in natural order is ordered and a permutation |
| IntermediateStreamOperations.SortedDistinctIncreasing | src/main/java/com/learn/stream/intermediate/IntermediateStreamOperations.java:285-288 | a sorted permutation of a duplicate-free list is strictly increasing with the same values |
| IntermediateStreamOperations.DistinctSortedOfDigits | src/main/java/com/learn/stream/intermediate/IntermediateStreamOperations.java:285-289 | any list whose values are exactly 1..9 becomes [1..9] under distinct then sorted |
| IntermediateStreamOperations.SampleDistinctSortedLimit | src/main/java/com/learn/stream/intermediate/IntermediateStreamOperations.java:304-308 | on the 14-element list distinct, sorted gives [1..9], and limit(5) of that gives [1, 2, 3, 4, 5] |
| IntermediateStreamOperations.SampleLimitSkip | src/main/java/com/learn/stream/intermediate/IntermediateStreamOperations.java:291-300 | on the list limit(5) is [1, 2, 3, 2, 4] and skip(3) has 11 elements |
| IntermediateStreamOperations.TopByGpa | src/main/java/com/learn/stream/intermediate/IntermediateStreamOperations.java:313-317 | the top-n by GPA has min(n, length) students with non-increasing GPAs |
| IntermediateStreamOperations.ExceptTopByGpa | src/main/java/com/learn/stream/intermediate/IntermediateStreamOperations.java:321-325 | skipping the top n leaves length - n students (0 if fewer), with non-increasing GPAs |
| IntermediateStreamOperations.TopByGpaPermutation | src/main/java/com/learn/stream/intermediate/IntermediateStreamOperations.java:313-325 | the top-n and the rest together are exactly the input students |
| IntermediateStreamOperations.TopByGpaDominates | src/main/java/com/learn/stream/intermediate/IntermediateStreamOperations.java:313-325 | every student in the top n has a GPA at least that of every student left out |
| IntermediateStreamOperations.SampleTopSizes | src/main/java/com/learn/stream/intermediate/IntermediateStreamOperations.java:313-325 | on the sample the top 3 has 3 names and all but the top 2 has 6 |
| AdvancedStreamOperations.ParseInt | src/main/java/com/learn/stream/advanced/AdvancedStreamOperations.java:449-451 | Integer.parseInt fails on null and on the empty string |
| AdvancedStreamOperations.ParseIntAccepts | src/main/java/com/learn/stream/advanced/AdvancedStreamOperations.java:449-451 | an accepted string is non-null, has one optional leading sign then digits only, and is negative only with a '-'; the result is the decimal value of the digits, negated after '-' |
| AdvancedStreamOperations.ParseShow | src/main/java/com/learn/stream/advanced/AdvancedStreamOperations.java:449-451 | parsing the decimal text of any int gives that int back |
| AdvancedStreamOperations.ParseRejectsNonDigit | src/main/java/com/learn/stream/advanced/AdvancedStreamOperations.java:449-451 | a non-digit anywhere except a leading sign makes parseInt fail |
| AdvancedStreamOperations.SafeParseInt | src/main/java/com/learn/stream/advanced/AdvancedStreamOperations.java:169-175 | safeParseInt is the parsed value on success and -1 on any failure |
| AdvancedStreamOperations.HandleException | src/main/java/com/learn/stream/advanced/AdvancedStreamOperations.java:456-464 | the wrapped function returns fn's result when fn succeeds and defaultValue when it throws |
| AdvancedStreamOperations.SafeParseIntIsHandled | src/main/java/com/learn/stream/advanced/AdvancedStreamOperations.java:169-175 | safeParseInt is handleException(parseInt, -1) |
| AdvancedStreamOperations.SentinelPipeline | src/main/java/com/learn/stream/advanced/AdvancedStreamOperations.java:178-182 | the nonNull/parse/drop -1 pipeline never emits -1 |
| AdvancedStreamOperations.SentinelPipelineDropsMinusOnes | src/main/java/com/learn/stream/advanced/AdvancedStreamOperations.java:178-182 | that pipeline equals "the successfully parsed values, minus every -1", so a genuine -1 is lost |
| AdvancedStreamOperations.SentinelDropsGenuineMinusOne | src/main/java/com/learn/stream/advanced/AdvancedStreamOperations.java:169-182 | on ["-1"] the pipeline as written gives [] while the parsed values are [-1] |
| AdvancedStreamOperations.SentinelOfMinusOne | src/main/java/com/learn/stream/advanced/AdvancedStreamOperations.java:178-182 | for any parser, a single string that parses to -1 is accepted but dropped by the sentinel pipeline |
| AdvancedStreamOperations.AcceptedSpec | src/main/java/com/learn/stream/advanced/AdvancedStreamOperations.java:178-182 | for any parser, the accepted values contain every successful parse and nothing a successful parse did not produce |
| AdvancedStreamOperations.ParsedNumbers | src/main/java/com/learn/stream/advanced/AdvancedStreamOperations.java:178-182 | what the sentinel filter is meant to give: every number that parses, -1 included, and nothing else |
| AdvancedStreamOperations.ConvertedNumbers | src/main/java/com/learn/stream/advanced/AdvancedStreamOperations.java:185-193 | the catch-wrapping map keeps the length; element i is the parsed value or -1 |
| AdvancedStreamOperations.PositivePipeline | src/main/java/com/learn/stream/advanced/AdvancedStreamOperations.java:198-200 | filtering > 0 leaves only positive numbers |
| AdvancedStreamOperations.PositivePipelineKeepsPositiveParses | src/main/java/com/learn/stream/advanced/AdvancedStreamOperations.java:185-200 | map-with-fallback then > 0 equals the positive values among the successful parses |
| AdvancedStreamOperations.NumeralsParse | src/main/java/com/learn/stream/advanced/AdvancedStreamOperations.java:166-171 | "10", "20", "30", "40", "-1" parse to their values and "invalid" fails |
| AdvancedStreamOperations.TestDataPipelines | src/main/java/com/learn/stream/advanced/AdvancedStreamOperations.java:166-201 | on the test data: [10, 20, 30, 40], then [10, 20, -1, 30, -1, 40], then [10, 20, 30, 40] |
| AdvancedStreamOperations.Summarize | src/main/java/com/learn/stream/advanced/AdvancedStreamOperations.java:482-486 | accepting a list from zero totals gives the count and age sum wrapped to int, and the exact GPA sum |
| AdvancedStreamOperations.MergeLaw | src/main/java/com/learn/stream/advanced/AdvancedStreamOperations.java:136-143 | combining the totals of two halves equals the totals of the whole, even after int wrap-around |
| AdvancedStreamOperations.CombineAssociative | src/main/java/com/learn/stream/advanced/AdvancedStreamOperations.java:488-493 | combine is associative, so any split tree gives the same totals |
| AdvancedStreamOperations.CombineIdentity | src/main/java/com/learn/stream/advanced/AdvancedStreamOperations.java:488-493 | a fresh instance's totals are an identity for combine |
| AdvancedStreamOperations.StudentStatistics.constructor | src/main/java/com/learn/stream/advanced/AdvancedStreamOperations.java:477-480 | a fresh instance has all three totals 0 |
| AdvancedStreamOperations.StudentStatistics.Accept | src/main/java/com/learn/stream/advanced/AdvancedStreamOperations.java:482-486 | accept adds exactly 1 to the count, the age to the age total and the GPA to the GPA total, and changes nothing else |
| AdvancedStreamOperations.StudentStatistics.Combine | src/main/java/com/learn/stream/advanced/AdvancedStreamOperations.java:488-493 | combine adds the other's totals into the receiver, returns the receiver, and leaves a distinct other unchanged |
| AdvancedStreamOperations.StudentStatistics.AvgAge | src/main/java/com/learn/stream/advanced/AdvancedStreamOperations.java:495-497 | the average age is 0 without students, otherwise the value times the count is the age total (no division by zero) |
| AdvancedStreamOperations.StudentStatistics.AvgGpa | src/main/java/com/learn/stream/advanced/AdvancedStreamOperations.java:499-501 | the average GPA is 0 without students, otherwise the value times the count is the GPA total |
| AdvancedStreamOperations.CollectSequential | src/main/java/com/learn/stream/advanced/AdvancedStreamOperations.java:136-143 | a fresh instance that accepts every student in turn holds the list's totals |
| AdvancedStreamOperations.CollectInHalves | src/main/java/com/learn/stream/advanced/AdvancedStreamOperations.java:136-143 | accepting two halves into two instances and combining them gives the totals of the whole list |
| AdvancedStreamOperations.RemoveStars | src/main/java/com/learn/stream/advanced/AdvancedStreamOperations.java:120 | replace("*", "") leaves no '*', never lengthens the name and keeps every occurrence of every other character |
| AdvancedStreamOperations.RemoveStarsConcat | src/main/java/com/learn/stream/advanced/AdvancedStreamOperations.java:120 | removal works part by part and drops a single character exactly when it is '*', so the other characters keep their order |
| AdvancedStreamOperations.RemoveStarsNoStar | src/main/java/com/learn/stream/advanced/AdvancedStreamOperations.java:120 | a name without '*' is left unchanged |
| AdvancedStreamOperations.RemoveStarsAppendStar | src/main/java/com/learn/stream/advanced/AdvancedStreamOperations.java:111-120 | removing stars undoes an appended '*' |
| AdvancedStreamOperations.MarkResetRoundTrip | src/main/java/com/learn/stream/advanced/AdvancedStreamOperations.java:108-122 | marking then resetting restores a student whose name had no '*' |
| AdvancedStreamOperations.MarkedIffExcellent | src/main/java/com/learn/stream/advanced/AdvancedStreamOperations.java:109-114 | after marking, a name contains '*' iff the GPA exceeds 4.0; the other fields are untouched |
| AdvancedStreamOperations.MarkedSelection | src/main/java/com/learn/stream/advanced/AdvancedStreamOperations.java:108-115 | when no name already contains '*', the students printed after marking are exactly the marked students with GPA > 4.0, in order |
| AdvancedStreamOperations.MarkExcellent | src/main/java/com/learn/stream/advanced/AdvancedStreamOperations.java:108-113 | the peek loop marks every student in place |
| AdvancedStreamOperations.ResetNames | src/main/java/com/learn/stream/advanced/AdvancedStreamOperations.java:118-122 | the forEach loop resets every student in place |
| AdvancedStreamOperations.MarkListReset | src/main/java/com/learn/stream/advanced/AdvancedStreamOperations.java:108-122 | the demo prints the names of the marked students whose name holds '*'; when no name already contains '*', these are exactly the students with GPA > 4.0; afterwards every slot holds its old student marked and then reset (every '*' removed from the name), so a student whose name had no '*' is as before |
| AdvancedStreamOperations.PowersOfTwo | src/main/java/com/learn/stream/advanced/AdvancedStreamOperations.java:220-222 | while it fits an int, element k of iterate(1, n * 2) is 2^k |
| AdvancedStreamOperations.PowersOfTwoSample | src/main/java/com/learn/stream/advanced/AdvancedStreamOperations.java:220-222 | limit(8) is 1, 2, 4, ..., 128 |
| AdvancedStreamOperations.FibonacciPairs | src/main/java/com/learn/stream/advanced/AdvancedStreamOperations.java:232-235 | while it fits an int, the k-th pair is (F(k), F(k+1)) |
| AdvancedStreamOperations.FibonacciSample | src/main/java/com/learn/stream/advanced/AdvancedStreamOperations.java:232-235 | the first ten first components are 0, 1, 1, 2, 3, 5, 8, 13, 21, 34 |
| AdvancedStreamOperations.EvenNumbers | src/main/java/com/learn/stream/advanced/AdvancedStreamOperations.java:239 | element k of iterate(2, n + 2) is 2k + 2 |
| AdvancedStreamOperations.EvensUpTo100 | src/main/java/com/learn/stream/advanced/AdvancedStreamOperations.java:239-241 | takeWhile(n <= 100) emits exactly the 50 numbers 2, 4, ..., 100 and stops |
| Courses.StringHashIsExact | src/main/java/com/learn/stream/model/Course.java:50-52 | String.hashCode, wrapped at every step, equals the exact polynomial hash wrapped once |
| Courses.PairHash | src/main/java/com/learn/stream/model/Course.java:50-52 | Objects.hash(a, b) is 31 * 31 + 31 * hash(a) + hash(b) wrapped to an int, where null hashes to 0 |
| Courses.Course.constructor | src/main/java/com/learn/stream/model/Course.java:16-22 | a new course holds the five given field values |
| Courses.Course.SetCourseName | src/main/java/com/learn/stream/model/Course.java:26 | sets the course name and no other field |
| Courses.Course.SetInstructor | src/main/java/com/learn/stream/model/Course.java:29 | sets the instructor and no other field |
| Courses.Course.SetCredit | src/main/java/com/learn/stream/model/Course.java:32 | sets the credit only, so the equality key is unchanged |
| Courses.Course.SetScore | src/main/java/com/learn/stream/model/Course.java:35 | sets the score only, so the equality key is unchanged |
| Courses.Course.SetCategory | src/main/java/com/learn/stream/model/Course.java:38 | sets the category only, so the equality key is unchanged |
| Courses.Course.Equals | src/main/java/com/learn/stream/model/Course.java:41-47 | equals is false for null, and true iff the other object is a Course with equal (null-safe) name and instructor |
| Courses.Course.HashCode | src/main/java/com/learn/stream/model/Course.java:50-52 | hashCode is Objects.hash of the name and the instructor |
| Courses.EqualsReflexive | src/main/java/com/learn/stream/model/Course.java:42 | every course equals itself |
| Courses.EqualsSymmetric | src/main/java/com/learn/stream/model/Course.java:41-47 | equals is symmetric |
| Courses.EqualsTransitive | src/main/java/com/learn/stream/model/Course.java:41-47 | equals is transitive |
| Courses.EqualsIgnoresOtherFields | src/main/java/com/learn/stream/model/Course.java:45-46 | courses with the same name and instructor are equal whatever their credit, score and category |
| Courses.HashConsistentWithEquals | src/main/java/com/learn/stream/model/Course.java:41-52 | equal courses have equal hash codes |
| ComprehensiveExample.TopStudentsByMajor | src/main/java/com/learn/stream/example/ComprehensiveExample.java:44-48 | every major maps to a present student of that major from the list, whose GPA is at least every GPA in that major |
| ComprehensiveExample.MajorStats | src/main/java/com/learn/stream/example/ComprehensiveExample.java:57-74 | every major has a summary whose count is the number of its students, and is positive |
| ComprehensiveExample.MajorStatsTotal | src/main/java/com/learn/stream/example/ComprehensiveExample.java:57-74 | the summary counts over the majors add up to the number of students |
| ComprehensiveExample.CountsPartition | src/main/java/com/learn/stream/example/ComprehensiveExample.java:94-98 | grouping by any key with counting gives positive counts, covering every key, that sum to the number of students |
| ComprehensiveExample.GradeLabel | src/main/java/com/learn/stream/example/ComprehensiveExample.java:220-227 | each of the five grade labels is chosen iff the GPA falls in its band: >= 4.0, [3.7, 4.0), [3.3, 3.7), [3.0, 3.3), < 3.0 |
| ComprehensiveExample.GradeDistributionKeys | src/main/java/com/learn/stream/example/ComprehensiveExample.java:218-229 | the grade distribution has only the five labels as keys |
| ComprehensiveExample.GraduateCandidates | src/main/java/com/learn/stream/example/ComprehensiveExample.java:83-85 | the candidates are exactly the students with GPA >= 3.8 and age <= 23, each as often as listed, by non-increasing GPA |
| ComprehensiveExample.TierMonotone | src/main/java/com/learn/stream/example/ComprehensiveExample.java:300-306 | the score threshold lies in [70, 80]; a higher GPA never lowers it |
| ComprehensiveExample.RecommendedCourses | src/main/java/com/learn/stream/example/ComprehensiveExample.java:298-310 | min(3, number of qualifying courses) names, each the name of a listed course that meets the student's tier; with RecommendedInListOrder this fixes the list |
| ComprehensiveExample.RecommendedInListOrder | src/main/java/com/learn/stream/example/ComprehensiveExample.java:298-310 | a qualifying course preceded by fewer than 3 qualifying courses is recommended, at the position given by how many qualifying courses precede it |
| ComprehensiveExample.RecommendFirstThree | src/main/java/com/learn/stream/example/ComprehensiveExample.java:298-310 | when the first three courses qualify, they are the recommendation, in list order |
| ComprehensiveExample.SampleRecommendations | src/main/java/com/learn/stream/example/ComprehensiveExample.java:298-310 | with the twelve sample courses every student is recommended 数据结构与算法, 高等数学, 线性代数 |
| ComprehensiveExample.CourseRecommendations | src/main/java/com/learn/stream/example/ComprehensiveExample.java:291-316 | every major with a student of GPA >= 3.5 is a key, and its lines are those students' recommendation lines, in list order |
| ComprehensiveExample.RecommendationsOnlyEligible | src/main/java/com/learn/stream/example/ComprehensiveExample.java:291-316 | each recommendation group is non-empty and belongs to a major with a student of GPA >= 3.5 |
| ComprehensiveExample.RiskFactorListSpec | src/main/java/com/learn/stream/example/ComprehensiveExample.java:328-332 | the list has low GPA iff gpa < 3.0, over age iff age > 24, double risk iff both; it keeps that order, has no repeats, and is non-empty iff the student is at risk |
| ComprehensiveExample.RiskFactors | src/main/java/com/learn/stream/example/ComprehensiveExample.java:328-332 | the conditional appends build exactly that list, non-empty for every at-risk student |
| ComprehensiveExample.RiskWarnings | src/main/java/com/learn/stream/example/ComprehensiveExample.java:325-337 | one warning per at-risk student, in list order: the i-th warning is that of the i-th at-risk student |
| ComprehensiveExample.ToMapEntries | src/main/java/com/learn/stream/example/ComprehensiveExample.java:363-367 | a successful toMap has exactly the update names as keys, each mapped to its new GPA |
| ComprehensiveExample.ToMapSucceedsIffDistinct | src/main/java/com/learn/stream/example/ComprehensiveExample.java:363-367 | toMap succeeds iff the names are distinct; otherwise the duplicate reported is one of the names |
| ComprehensiveExample.ApplyUpdate | src/main/java/com/learn/stream/example/ComprehensiveExample.java:371-376 | the rebuilt student differs only in GPA, which is the update if the name has one and the original otherwise |
| ComprehensiveExample.UpdatedRankings | src/main/java/com/learn/stream/example/ComprehensiveExample.java:370-385 | at most 6 lines, by non-increasing effective GPA; a line is flagged as updated iff its name has an update |
| ComprehensiveExample.RankingsAreTopSix | src/main/java/com/learn/stream/example/ComprehensiveExample.java:370-385 | the ranking is the top six of the updated students; with the rest they make up the whole list, and nobody left out outranks a ranked line |
| ComprehensiveExample.RankingsKeepTieOrder | src/main/java/com/learn/stream/example/ComprehensiveExample.java:370-385 | ranking lines with equal GPA follow the list order: they are the first of the updated students with that GPA, in list order, so of two tied students only the one listed first can take the last line |
| ComprehensiveExample.RankingLinesFromStudents | src/main/java/com/learn/stream/example/ComprehensiveExample.java:370-385 | every line carries the name and effective GPA of some listed student |
| ComprehensiveExample.ExcellentCountIsExcellentStudents | src/main/java/com/learn/stream/example/ComprehensiveExample.java:399-405 | the excellent count is the number of students whose effective GPA is >= 4.0 |
| ComprehensiveExample.SampleUpdatesMap | src/main/java/com/learn/stream/example/ComprehensiveExample.java:355-367 | the four sample updates give the map 张三 390, 李四 340, 王五 430, 赵六 380 |
| ComprehensiveExample.SampleAnomalies | src/main/java/com/learn/stream/example/ComprehensiveExample.java:412-415 | only 王五's update (4.3) is flagged as anomalous |
| StreamApiGui.CreateSeparatorLine | src/main/java/com/learn/stream/StreamAPIGUI.java:660-666 | the line has max(length, 0) characters, all equal to the given one; a length <= 0 gives "" |
| StreamApiGui.HeaderRule | src/main/java/com/learn/stream/StreamAPIGUI.java:614-617 | the header and footer rule is 80 '=' characters |
| StreamApiGui.SectionRule | src/main/java/com/learn/stream/StreamAPIGUI.java:640-642 | the section rule is 80 '-' characters |

## Left out

- The Swing interface, apart from `createSeparatorLine`, is not modelled: layout, listeners, output redirection, the worker threads and the save dialog. It is UI, threads and I/O.
- StreamAPILauncher.java is not part of this model. It is menu input, `System.exit` and dispatch to other programs.
- Timing and the performance demos (`System.currentTimeMillis`, improvement percentages) are not modelled; they depend on wall-clock time and floating point.
- `new Random().ints(...)` and `Stream.generate(() -> "Hello")` are not modelled: the first is random, the second a constant stream with nothing to prove.
- Parallel streams appear only as their result: a split, per-part work and a combine (`ParallelCount`, `SplitEvenCount`, `CollectInHalves`). Threads and scheduling are not modelled.
- Floating point is not modelled: GPA sums and averages, `averagingDouble`, percentages, the potential score formula, `String.format` output and the printed text of every demo. GPA is an ordered integer in hundredths.
- AdvancedStreamOperations.StudentStatistics: `totalGpa` is an exact sum, not a `double` with rounding; `AvgAge`/`AvgGpa` are exact reals.
- ComprehensiveExample.MajorStats: the average GPA and average age in each summary are exact reals, not `double` averages.
- BasicStreamOperations.SummaryStatistics: the sum is an unbounded integer (Java keeps it in a `long`), and the average is not modelled.
- AdvancedStreamOperations.ParseInt: radix 10 and ASCII digits only. Non-ASCII Unicode digits, which `Integer.parseInt` also accepts, are rejected.
- Students.CompareTo and Courses.StringHashIsExact: Dafny characters are Unicode scalar values, not UTF-16 code units, so strings outside the Basic Multilingual Plane compare and hash differently from Java.
- Group maps are plain maps. HashMap iteration order, and so the printed order of groups, is not modelled.
- The remaining grouping demos are not modelled: averaging by gender and two-level grouping (IntermediateStreamOperations.java), partitioningBy, the GPA distribution, `joining` with prefix and suffix, and the chained pipelines (AdvancedStreamOperations.java). They repeat the modelled stages with floating-point or formatting steps.
- The course-analysis demo and the average GPA after the update are not modelled. These are floating-point averages and sorting of printed map entries.
- The predicate-composition and Consumer demos at the start of AdvancedStreamOperations.java are not modelled; they only print.
- ComprehensiveExample.ExcellentCountIsExcellentStudents: the `(int)` cast of the count is exact only for lists of at most 2^31 - 1 students, which the lemma requires.
- AdvancedStreamOperations.MarkExcellent, ResetNames and MarkListReset work on an array of student values. If one Student object appeared twice in the list, it would be marked twice in Java; the model does not capture that aliasing.
- BasicStreamOperations.AgeSquares: element i is stated to be the square only when the age is within ±46340, where the square fits an int. Beyond that Java wraps, and the model wraps too.
- Streams.Limit and Streams.Skip take a `nat`; Java's IllegalArgumentException for a negative argument is not modelled.
- BasicStreamOperations.UniqueAgesOfSample states the values and their uniqueness, not the order [20, 22, 23, 24].

## Findings

| source | as written | input that shows it | evidently intended | confidence | as-written member | corrected member |
|---|---|---|---|---|---|---|
| src/main/java/com/learn/stream/basic/BasicStreamOperations.java:209-212 | under the heading "collect as Set (dedupe)" the ages are collected with `toList()`, which keeps duplicates | the demo's own ages [20, 22, 20, 23, 22, 24]: the "deduplicated" list still holds 20 and 22 twice | each age once (`toSet()` or `distinct()`) | high, not executed | BasicStreamOperations.UniqueAgesAsWrittenKeepsDuplicates | BasicStreamOperations.UniqueAges |
| src/main/java/com/learn/stream/advanced/AdvancedStreamOperations.java:169-182 | `safeParseInt` returns -1 on failure, and the pipeline then drops every -1 | ["-1"]: parseInt succeeds with -1, but the pipeline prints nothing | drop only the strings that failed to parse | medium, not executed | AdvancedStreamOperations.SentinelDropsGenuineMinusOne | AdvancedStreamOperations.ParsedNumbers |
