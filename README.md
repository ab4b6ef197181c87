# LinqQuiz library, modelled in Dafny

The LinqQuiz library is one static class, `Quiz`, with four independent query
operations, and a few data shapes that support them:

- `GetEvenNumbers(exclusiveUpperLimit)` returns the even numbers in `[1, limit)`.
- `GetSquares(exclusiveUpperLimit)` returns the squares of the multiples of 7 in
  `[1, limit)`, in descending order, with checked 32-bit multiplication.
- `GetFamilyStatistic(families)` returns one `FamilySummary` per family: its ID,
  its number of members and their mean age.
- `GetLetterStatistic(text)` returns `(letter, numberOfOccurrences)` pairs for
  the letters of a text, ignoring case.

The data shapes are the read-only `IPerson` and `IFamily` records and the
mutable `FamilySummary` class.

The project has five modules:

- `Int32` (`int32.dfy`) holds the source's 32-bit `int` and its wrapping subtraction.
- `Results` (`results.dfy`) holds the exceptions, as an `Err` result, and the nullable argument.
- `Enumerable` (`enumerable.dfy`) holds the LINQ operators the queries use (`Range`,
  `Select`, `Where`, a `checked` select, `Reverse`), modelled on the sequences they produce.
- `Model` (`model.dfy`) mirrors `Model.cs`:
  - `Person` and `Family` are immutable datatypes, because the interfaces only have getters.
  - `FamilySummary` is a class whose constructors and setters update its fields.
- `Quiz` (`quiz.dfy`) mirrors `Quiz.cs`:
  - each query is a pure function;
  - each query has lemmas that state its result against an independent description.

Each thrown exception becomes an `Err(ArgumentOutOfRange | Overflow | ArgumentNull)`
result. A null `families` collection is modelled as `None`.

Where the code and its documentation disagree, the model follows the code (except the letter classification, see
"## Left out") and the disagreement is listed under "## Findings". In particular, `GetSquares(0)`
throws `ArgumentOutOfRangeException`, while its documentation says that call
returns an empty array.

## Model

| member | source | states |
|---|---|---|
| `Model.FamilySummary.constructor` | LinqQuiz.Library/Model.cs:21 | The three-argument constructor stores `iD`, `count` and `averageAge` in FamilyID, NumberOfFamilyMembers and AverageAge. |
| `Model.FamilySummary.Default` | LinqQuiz.Library/Model.cs:22-26 | The parameterless constructor leaves all three properties at zero. |
| `Model.FamilySummary.SetFamilyID` | LinqQuiz.Library/Model.cs:24 | Setting FamilyID changes only FamilyID; the other two properties keep their values. |
| `Model.FamilySummary.SetNumberOfFamilyMembers` | LinqQuiz.Library/Model.cs:25 | Setting NumberOfFamilyMembers changes only that property. |
| `Model.FamilySummary.SetAverageAge` | LinqQuiz.Library/Model.cs:26 | Setting AverageAge changes only that property. |
| `Int32.Wrap` | LinqQuiz.Library/Quiz.cs:15 | Unchecked `int` arithmetic: a value already in the `int` range is kept, and any other value is replaced by the `int` that differs from it by a multiple of 2^32. |
| `Enumerable.Range` | LinqQuiz.Library/Quiz.cs:15 | Range(start, count) fails with ArgumentOutOfRange exactly when the count is negative or the last value would pass int.MaxValue. Otherwise it holds exactly the `count` integers from `start`, ascending. |
| `Enumerable.Where` | LinqQuiz.Library/Quiz.cs:15 | The filter keeps an element exactly when it occurs in the input and satisfies the predicate, and the result is no longer than the input. Order and multiplicity are fixed by WhereAppend. |
| `Enumerable.WhereAppend` | LinqQuiz.Library/Quiz.cs:15 | Filtering a concatenation filters each part and concatenates the results. With the one-element case this fixes the order of the kept elements and how often each is kept. |
| `Enumerable.Select` | LinqQuiz.Library/Quiz.cs:55 | The projection keeps the length, and entry i of the result is the selector applied to entry i of the input. It covers the `select` at Quiz.cs:55 and the per-character upper-casing of `text.ToUpper()` at Quiz.cs:72. The `(Key, Count())` projection at Quiz.cs:72 is part of GroupAndCount. |
| `Enumerable.WhereIncreasing` | LinqQuiz.Library/Quiz.cs:34 | Filtering an ascending sequence leaves it ascending. |
| `Enumerable.SelectChecked` | LinqQuiz.Library/Quiz.cs:37 | A select whose selector may throw succeeds exactly when the selector succeeds on every element, and then maps each element. Otherwise it throws the exception of the first element whose selector fails; every element before that one succeeds. |
| `Enumerable.Reverse` | LinqQuiz.Library/Quiz.cs:37 | Reverse puts element `i` at position `n-1-i`. |
| `Enumerable.ReverseIncreasing` | LinqQuiz.Library/Quiz.cs:34 | Reversing an ascending sequence yields a descending one with the same elements. |
| `Enumerable.IncreasingUnique` | LinqQuiz.Library/Quiz.cs:34 | Two strictly ascending sequences with the same elements are equal. This is why "ascending" plus the element set fixes each result. |
| `Quiz.GetEvenNumbers` | LinqQuiz.Library/Quiz.cs:11-15 | The only exception GetEvenNumbers can throw is ArgumentOutOfRangeException. |
| `Quiz.GetEvenNumbersSpec` | LinqQuiz.Library/Quiz.cs:7-15 | For a limit >= 1 the call succeeds. The result is strictly ascending, and `v` is in it exactly when `1 <= v < limit` and `v` is even (limit 1 gives an empty result). |
| `Quiz.GetEvenNumbersClosedForm` | LinqQuiz.Library/Quiz.cs:15 | For a limit >= 1 the result is 2, 4, ..., with `(limit-1)/2` elements. |
| `Quiz.GetEvenNumbersRejects` | LinqQuiz.Library/Quiz.cs:11-15 | The call fails exactly when the limit is below 1 and is not int.MinValue. |
| `Quiz.GetEvenNumbersAtMinValue` | LinqQuiz.Library/Quiz.cs:15 | At int.MinValue the unchecked `limit - 1` wraps to int.MaxValue. The call then returns every even number up to int.MaxValue (0x3FFFFFFF values) instead of throwing. |
| `Quiz.GetEvenNumbersAsDocumented` | LinqQuiz.Library/Quiz.cs:11-13 | The corrected query computes the count `limit - 1` without wrapping, and its only error is ArgumentOutOfRange. GetEvenNumbersAsDocumentedSpec states when that error occurs. |
| `Quiz.GetEvenNumbersAsDocumentedSpec` | LinqQuiz.Library/Quiz.cs:11-13 | With the count computed without wrapping, the call fails exactly for limits below 1. For limits >= 1 it agrees with GetEvenNumbers. |
| `Quiz.MultiplesFromOne` | LinqQuiz.Library/Quiz.cs:15 | Filtering Range(1, c) to the multiples of d gives exactly d, 2d, ..., (c/d)·d, in order. |
| `Quiz.GetSquares` | LinqQuiz.Library/Quiz.cs:37 | The query as written can throw only ArgumentOutOfRangeException (from Range) or OverflowException (from the checked square). Its full meaning is in GetSquaresSpec (limits 1 to 46347), GetSquaresOverflow (limits from 46348) and GetSquaresBelowOne (limits below 1). |
| `Quiz.CheckedSquare` | LinqQuiz.Library/Quiz.cs:37 | `checked(number * number)` succeeds exactly when the square is at most int.MaxValue, and then returns the square. Otherwise it throws OverflowException. |
| `Quiz.SevenDividesSquare` | LinqQuiz.Library/Quiz.cs:30-32 | For every integer k, 7 divides k·k if and only if 7 divides k. |
| `Quiz.SquaresOfMultiplesOf7` | LinqQuiz.Library/Quiz.cs:19-20 | Squaring the multiples of 7 gives the same sequence as keeping the squares that are multiples of 7. Both readings of the summary agree. |
| `Quiz.MultiplesOf7Fit` | LinqQuiz.Library/Quiz.cs:23-24 | The squares of 7, 14, ..., 7m all fit in 32 bits exactly when m <= 6620 (46340² fits, 46347² does not). |
| `Quiz.GetSquaresUnfold` | LinqQuiz.Library/Quiz.cs:37 | For a limit >= 1 the query squares 7, 14, ... below the limit with checking, and reverses the result. |
| `Quiz.GetSquaresBelowOne` | LinqQuiz.Library/Quiz.cs:37 | A negative limit gives an empty result. Limit 0 gives a count of -1, which Range rejects with ArgumentOutOfRangeException. |
| `Quiz.GetSquaresOverflow` | LinqQuiz.Library/Quiz.cs:23-25 | For a limit >= 1, the call fails exactly when some multiple of 7 below the limit has a square above int.MaxValue. That is exactly when limit >= 46348, and the error is then OverflowException. No partial result is produced. |
| `Quiz.GetSquaresSpec` | LinqQuiz.Library/Quiz.cs:19-37 | For 1 <= limit < 46348 the call succeeds. The result is strictly descending, and `v` is in it exactly when `v = k²` for some multiple of 7 `k` in [1, limit). |
| `Quiz.GetSquaresClosedForm` | LinqQuiz.Library/Quiz.cs:37 | For 1 <= limit < 46348 the filtering query equals the direct form 49·m², ..., 49·1 with m = (limit-1)/7. |
| `Quiz.ReversedSquares` | LinqQuiz.Library/Quiz.cs:28 | Squaring 7, 14, ..., 7m (m <= 6620) succeeds, and `Reverse` turns the ascending squares into the descending order 49·m², ..., 49. |
| `Quiz.GetSquaresAsDocumented` | LinqQuiz.Library/Quiz.cs:27 | The corrected query guards with `< 1`, so Range never fails and the only possible error is OverflowException. |
| `Quiz.GetSquaresAsDocumentedSpec` | LinqQuiz.Library/Quiz.cs:27 | With the guard `< 1`, every limit below 1 gives an empty array and the call never throws ArgumentOutOfRangeException. From 1 on it agrees with GetSquares. |
| `Quiz.AverageAge` | LinqQuiz.Library/Quiz.cs:51-55 | The average is 0 for a family without persons. Otherwise it is the value that, multiplied by the count, gives the sum of the ages. |
| `Quiz.GetFamilyStatistic` | LinqQuiz.Library/Quiz.cs:47-48 | The call fails, with ArgumentNullException, exactly when `families` is null. |
| `Quiz.Summarize` | LinqQuiz.Library/Quiz.cs:55 | One family's summary carries the family's ID and its number of persons. Its average age is 0 for a family without persons; otherwise average times count equals the sum of the ages. |
| `Quiz.GetFamilyStatisticSpec` | LinqQuiz.Library/Quiz.cs:45-55 | There is one summary per family, in input order. Each summary copies the family's ID and holds its number of persons. Its average is 0 when there are no persons and otherwise sum/count. |
| `Quiz.AgeSumBounds` | LinqQuiz.Library/Quiz.cs:55 | If every age lies in [lo, hi], the age sum lies between count·lo and count·hi. |
| `Quiz.AverageAgeBounds` | LinqQuiz.Library/Quiz.cs:55 | The average age of a non-empty family lies between any lower and upper bound on its members' ages. |
| `Quiz.NewFamilySummary` | LinqQuiz.Library/Quiz.cs:55 | The object initializer (the parameterless constructor, then three setters) yields a fresh FamilySummary holding the family's summary. |
| `Quiz.GetFamilyStatisticExample` | LinqQuiz.Library/Quiz.cs:51-55 | An empty family 1 gives (1, 0, 0). Family 2 with ages 10 and 20 gives (2, 2, 15). |
| `Quiz.ToUpper` | LinqQuiz.Library/Quiz.cs:72 | `text.ToUpper()` (`string.ToUpper`), applied per character and restricted to ASCII: 'a'..'z' move to 'A'..'Z' (32 code points lower) and every other character is unchanged. |
| `Quiz.IsLetter` | LinqQuiz.Library/Quiz.cs:72 | `char.IsLetter` restricted to ASCII: 'A'..'Z' and 'a'..'z'. The predicate has no ensures of its own; ToUpperLetter states how it interacts with ToUpper. |
| `Quiz.ToUpperLetter` | LinqQuiz.Library/Quiz.cs:66-67 | Upper-casing keeps letters letters and non-letters non-letters. The letters it yields are 'A'..'Z'. |
| `Quiz.Tally` | LinqQuiz.Library/Quiz.cs:72 | Grouping one more character increments its pair's count, or appends a new pair (c, 1) when it has none. Keys stay distinct and the total grows by one. |
| `Quiz.GroupAndCount` | LinqQuiz.Library/Quiz.cs:72 | GroupBy plus Count never yields two pairs for the same character. |
| `Quiz.Occurrences` | LinqQuiz.Library/Quiz.cs:66 | The case-insensitive count of letter k is 0 exactly when no character of the text upper-cases to k. |
| `Quiz.FirstPosition` | LinqQuiz.Library/Quiz.cs:72 | This is the first position whose character upper-cases to k. |
| `Quiz.KnownLetterStep` | LinqQuiz.Library/Quiz.cs:66-72 | Appending a letter that already has a pair, and raising that pair's count by one, keeps every property of the letter statistic. |
| `Quiz.NewLetterStep` | LinqQuiz.Library/Quiz.cs:66-72 | Appending a letter seen for the first time, and adding its pair (letter, 1) at the end, keeps every property of the letter statistic. The new pair comes last in order of first occurrence. |
| `Quiz.GetLetterStatistic` | LinqQuiz.Library/Quiz.cs:72 | The query never yields two pairs for the same letter. Its full meaning, an independent description that fixes the result, is proved in GetLetterStatisticSpec. |
| `Quiz.GetLetterStatisticAppend` | LinqQuiz.Library/Quiz.cs:72 | Appending a letter to the text tallies its upper-case form. Appending any other character leaves the statistic unchanged. |
| `Quiz.GetLetterStatisticSpec` | LinqQuiz.Library/Quiz.cs:66-72 | The letter keys are distinct and upper-case. Each count equals the letter's case-insensitive number of occurrences and is at least 1. Every letter that occurs has a pair. Pairs are ordered by first occurrence. The counts sum to the number of letters in the text. |
| `Quiz.GetLetterStatisticSize` | LinqQuiz.Library/Quiz.cs:67-69 | There are never more pairs than letters. A text without letters, including the empty text, gives an empty result. |

## Findings

| source | as written | input that shows it | evidently intended | confidence | as-written member | corrected member |
|---|---|---|---|---|---|---|
| LinqQuiz.Library/Quiz.cs:37 | The count is `exclusiveUpperLimit < 0 ? 0 : exclusiveUpperLimit - 1`, so limit 0 gives count -1 and Range throws ArgumentOutOfRangeException | `GetSquares(0)` | An empty array for every limit below 1, as Quiz.cs:27 documents (guard `< 1`) | high, not executed | `Quiz.GetSquaresBelowOne` | `Quiz.GetSquaresAsDocumentedSpec` |
| LinqQuiz.Library/Quiz.cs:15 | The count `exclusiveUpperLimit - 1` is unchecked, so at int.MinValue it wraps to int.MaxValue and no exception is thrown | `GetEvenNumbers(int.MinValue)` | ArgumentOutOfRangeException for every limit below 1, as Quiz.cs:11-13 documents | medium, not executed (it assumes the default unchecked build; allocating the 0x3FFFFFFF-element array may fail first) | `Quiz.GetEvenNumbersAtMinValue` | `Quiz.GetEvenNumbersAsDocumentedSpec` |

## Left out

- `Quiz.AverageAge`: the mean is exact over `real`. The base-10 rounding and the range limit of `decimal` in `Average` are not modelled.
- `Quiz.ToUpper` and `Quiz.IsLetter` cover ASCII only. `string.ToUpper` and `char.IsLetter` are culture- and Unicode-dependent: the code counts any Unicode letter, although Quiz.cs:66 says A to Z.
- LINQ deferred execution, the internals of `Enumerable.Range`, `ToArray` allocation and `GroupBy` hashing are not modelled. Only the resulting sequence, or the exception, is.
- Memory limits are not modelled, so very large results (such as the one in the int.MinValue finding) are assumed to allocate.
- `Quiz.GetLetterStatistic`: a null `text` is not representable, because a Dafny string cannot be null. In the code it throws NullReferenceException at `text.ToUpper()` (Quiz.cs:72).
- `Quiz.GetFamilyStatistic` checks only the top-level null argument, as the code does. A null family, null `Persons` or null person is not representable.
- `FirstName` and `LastName` are carried in `Person` and never read.
- `Quiz.GetFamilyStatistic` returns the summaries as values. `Quiz.NewFamilySummary` builds one object the way the query does. The output array of freshly allocated objects is not built.
- Family IDs and member counts are unbounded `int`s. No arithmetic is done on them, so their 32-bit width plays no role.
- Not changing the families or persons holds by construction: `Person` and `Family` are immutable values.
- Repeated calls with the same input give the same result, because every operation is a function.
