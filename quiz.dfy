/** The four queries of the static class Quiz. Each one is a pure function
    of its input; an exception becomes an `Err` result. */
module Quiz {
  import opened Results
  import opened Int32
  import opened Enumerable
  import opened Model

  // ---------------------------------------------------------------------
  // Arithmetic facts used below
  // ---------------------------------------------------------------------

  /** k * k; named so that quantifiers over k have a term to trigger on. */
  function Square(k: int): (r: int)
    ensures r >= 0
  {
    k * k
  }

  /** Squaring is strictly increasing on the non-negative integers. */
  lemma SquareIncreasing(a: int, b: int)
    requires 0 <= a < b
    ensures Square(a) < Square(b)
  {
    assert a * a <= a * b;
    assert a * b < b * b;
  }

  /** Multiplying by a positive factor keeps the order, with a gap of at least that factor. */
  lemma MulGap(d: int, a: int, b: int)
    requires d > 0
    ensures a < b ==> d * a + d <= d * b
  {
    var k := b - a;
    assert d * b == d * a + d * k;
    if k >= 1 {
      assert d * k == d + d * (k - 1);
      assert d * (k - 1) >= 0;
    }
  }

  /** d divides d * k exactly. */
  lemma MulMod(d: int, k: int)
    requires d > 0
    ensures (d * k) % d == 0 && (d * k) / d == k
  {
    var x := d * k;
    var q := x / d;
    assert x == d * q + x % d;
    MulGap(d, q, k);
    MulGap(d, k, q);
  }

  /** A multiple x of d in [1, c] is d times some q in [1, c / d]. */
  lemma MultipleHasIndex(c: int, d: int, x: int)
    requires d > 0 && 1 <= x <= c && x % d == 0
    ensures x == d * (x / d) && 1 <= x / d <= c / d
  {
    var q := x / d;
    assert x == d * q;
    MulGap(d, q, 1);
    MulGap(d, c / d, q);
    assert c == d * (c / d) + c % d;
  }

  /** d * (i + 1) for i below c / d is a multiple of d in [1, c]. */
  lemma IndexHasMultiple(c: int, d: int, i: int)
    requires d > 0 && 0 <= i < c / d
    ensures 1 <= d * (i + 1) <= c && (d * (i + 1)) % d == 0
  {
    MulGap(d, 0, i + 1);
    MulGap(d, i + 1, c / d + 1);
    assert d * (c / d + 1) == d * (c / d) + d;
    assert c == d * (c / d) + c % d;
    MulMod(d, i + 1);
  }

  /** d, 2d, ..., m * d: the first m positive multiples of d, ascending. */
  function Multiples(d: int, m: int): (r: seq<int>)
    requires d > 0 && m >= 0
    ensures |r| == m && forall i :: 0 <= i < m ==> r[i] == d * (i + 1)
    ensures StrictlyIncreasing(r)
  {
    var r := seq(m, i => d * (i + 1));
    assert StrictlyIncreasing(r) by {
      forall i, j | 0 <= i < j < m ensures r[i] < r[j] {
        MulGap(d, i + 1, j + 1);
      }
    }
    r
  }

  /** x is among the first c / d positive multiples of d exactly when it is a multiple of d in [1, c]. */
  lemma MultiplesMembership(c: nat, d: int, x: int)
    requires d > 0
    ensures x in Multiples(d, c / d) <==> 1 <= x <= c && x % d == 0
  {
    var b := Multiples(d, c / d);
    if 1 <= x <= c && x % d == 0 {
      MultipleHasIndex(c, d, x);
      assert b[x / d - 1] == x;
    }
    if x in b {
      var i :| 0 <= i < |b| && b[i] == x;
      IndexHasMultiple(c, d, i);
    }
  }

  /** The multiples of d in [1, c], filtered from Range(1, c), are d, 2d, ..., in order. */
  lemma MultiplesFromOne(c: nat, d: int, p: int -> bool)
    requires c <= MAX && d > 0
    requires forall x :: p(x) <==> x % d == 0
    ensures Range(1, c).Ok?
    ensures Where(Range(1, c).value, p) == Multiples(d, c / d)
  {
    var numbers := Range(1, c).value;
    var a := Where(numbers, p);
    var b := Multiples(d, c / d);
    WhereIncreasing(numbers, p);
    forall x ensures x in a <==> x in b {
      WhereMembership(numbers, p, x);
      MultiplesMembership(c, d, x);
    }
    IncreasingUnique(a, b);
  }

  // ---------------------------------------------------------------------
  // GetEvenNumbers
  // ---------------------------------------------------------------------

  /** `v % 2 == 0`. The operands are positive here, where C#'s
      truncating remainder and Dafny's Euclidean one agree. */
  predicate IsEven(v: int) {
    v % 2 == 0
  }

  /** GetEvenNumbers: Range(1, exclusiveUpperLimit - 1) filtered to the even
      values. The subtraction is unchecked 32-bit arithmetic. */
  function GetEvenNumbers(exclusiveUpperLimit: int32): (r: Result<seq<int>>)
    ensures r.Err? ==> r.error == ArgumentOutOfRange
  {
    var numbers :- Range(1, Wrap(exclusiveUpperLimit as int - 1) as int);
    Ok(Where(numbers, IsEven))
  }

  /** For a limit of at least 1 the result is exactly the even integers in
      [1, limit), ascending. */
  lemma GetEvenNumbersSpec(exclusiveUpperLimit: int32)
    requires exclusiveUpperLimit >= 1
    ensures GetEvenNumbers(exclusiveUpperLimit).Ok?
    ensures StrictlyIncreasing(GetEvenNumbers(exclusiveUpperLimit).value)
    ensures forall v :: v in GetEvenNumbers(exclusiveUpperLimit).value <==> 1 <= v < exclusiveUpperLimit as int && IsEven(v)
  {
    var numbers := Range(1, exclusiveUpperLimit as int - 1).value;
    WhereIncreasing(numbers, IsEven);
    forall v ensures v in Where(numbers, IsEven) <==> 1 <= v < exclusiveUpperLimit as int && IsEven(v) {
      WhereMembership(numbers, IsEven, v);
    }
  }

  /** The same result written out: 2, 4, ..., one value per even number below the limit. */
  lemma GetEvenNumbersClosedForm(exclusiveUpperLimit: int32)
    requires exclusiveUpperLimit >= 1
    ensures GetEvenNumbers(exclusiveUpperLimit) == Ok(Multiples(2, (exclusiveUpperLimit as int - 1) / 2))
  {
    MultiplesFromOne(exclusiveUpperLimit as int - 1, 2, IsEven);
  }

  /** The call throws ArgumentOutOfRangeException exactly for the limits
      below 1 other than int.MinValue. */
  lemma GetEvenNumbersRejects(exclusiveUpperLimit: int32)
    ensures GetEvenNumbers(exclusiveUpperLimit).Err? <==> exclusiveUpperLimit < 1 && exclusiveUpperLimit as int != MIN
  {
    if exclusiveUpperLimit as int == MIN {
      GetEvenNumbersAtMinValue();
    }
  }

  /** At int.MinValue the count `exclusiveUpperLimit - 1` wraps round to
      int.MaxValue, so instead of throwing the call yields every even
      number up to int.MaxValue. */
  lemma GetEvenNumbersAtMinValue()
    ensures GetEvenNumbers(MIN as int32) == Ok(Multiples(2, MAX / 2))
    ensures |GetEvenNumbers(MIN as int32).value| == 0x3FFF_FFFF
  {
    var count := Wrap(MIN - 1);
    assert count as int == MAX by {
      assert (MIN - 1 - count as int) % 0x1_0000_0000 == 0;
    }
    MultiplesFromOne(MAX, 2, IsEven);
  }

  /** GetEvenNumbers as its documentation describes it: the count is
      computed without wrapping, so every limit below 1 is rejected. */
  function GetEvenNumbersAsDocumented(exclusiveUpperLimit: int32): (r: Result<seq<int>>)
    ensures r.Err? ==> r.error == ArgumentOutOfRange
  {
    var numbers :- Range(1, exclusiveUpperLimit as int - 1);
    Ok(Where(numbers, IsEven))
  }

  /** The documented version throws exactly for limits below 1 and agrees
      with GetEvenNumbers everywhere else. */
  lemma GetEvenNumbersAsDocumentedSpec(exclusiveUpperLimit: int32)
    ensures GetEvenNumbersAsDocumented(exclusiveUpperLimit).Err? <==> exclusiveUpperLimit < 1
    ensures exclusiveUpperLimit >= 1 ==> GetEvenNumbersAsDocumented(exclusiveUpperLimit) == GetEvenNumbers(exclusiveUpperLimit)
  {
  }

  // ---------------------------------------------------------------------
  // GetSquares
  // ---------------------------------------------------------------------

  /** `number % 7 == 0`, on positive operands as above. */
  predicate IsMultipleOf7(v: int) {
    v % 7 == 0
  }

  /** checked(number * number): the square, or OverflowException when it
      does not fit in 32 bits. */
  function CheckedSquare(number: int): (r: Result<int>)
    ensures r.Ok? <==> Square(number) <= MAX
    ensures r.Ok? ==> r.value == Square(number)
    ensures r.Err? ==> r.error == Overflow
  {
    var product := number * number;
    if MIN <= product <= MAX then Ok(product) else Err(Overflow)
  }

  /** GetSquares: the numbers of Range(1, count) divisible by 7, squared with
      overflow checking, then reversed. The count is 0 for a negative limit
      and limit - 1 otherwise. Reverse buffers the whole sequence, so an
      overflow leaves no partial result. */
  function GetSquares(exclusiveUpperLimit: int32): (r: Result<seq<int>>)
    ensures r.Err? ==> r.error == ArgumentOutOfRange || r.error == Overflow
  {
    var numbers :- Range(1, if exclusiveUpperLimit < 0 then 0 else exclusiveUpperLimit as int - 1);
    var squares :- SelectChecked(Where(numbers, IsMultipleOf7), CheckedSquare);
    Ok(Reverse(squares))
  }

  /** (7q + r)^2 written as a multiple of 7 plus r^2. */
  lemma SquareExpand(q: int, r: int)
    ensures Square(7 * q + r) == 7 * (7 * q * q + 2 * q * r) + r * r
  {
  }

  /** (7j)^2 = 49 j^2. */
  lemma SquareOfMultipleOf7(j: int)
    ensures Square(7 * j) == 49 * j * j
  {
  }

  /** 7 is prime, so 7 divides k * k exactly when it divides k. */
  lemma SevenDividesSquare(k: int)
    ensures IsMultipleOf7(Square(k)) <==> IsMultipleOf7(k)
  {
    var q, r := k / 7, k % 7;
    SquareExpand(q, r);
    assert Square(k) % 7 == (r * r) % 7;
    assert 0 <= r < 7;
  }

  /** Squaring the multiples of 7 gives the same sequence as keeping the
      squares that are multiples of 7: both readings of the operation agree. */
  lemma {:induction false} SquaresOfMultiplesOf7(numbers: seq<int>)
    ensures Select(Where(numbers, IsMultipleOf7), Square) == Where(Select(numbers, Square), IsMultipleOf7)
  {
    if numbers != [] {
      SevenDividesSquare(numbers[0]);
      SquaresOfMultiplesOf7(numbers[1..]);
      var tail := Select(numbers, Square)[1..];
      assert tail == Select(numbers[1..], Square);
      assert Select(numbers, Square) == [Square(numbers[0])] + tail;
      var kept := if IsMultipleOf7(numbers[0]) then [numbers[0]] else [];
      SelectAppend(kept, Where(numbers[1..], IsMultipleOf7), Square);
    }
  }

  /** The squares of 7, 14, ..., 7m stay within int.MaxValue exactly when
      m <= 6620: 46340 * 46340 fits, 46347 * 46347 does not. */
  lemma MultiplesOf7Fit(m: nat)
    ensures (forall k :: k in Multiples(7, m) ==> Square(k) <= MAX) <==> m <= 6620
  {
    var ms := Multiples(7, m);
    if m <= 6620 {
      forall k | k in ms ensures Square(k) <= MAX {
        var i :| 0 <= i < m && ms[i] == k;
        if k < 46340 {
          SquareIncreasing(k, 46340);
        }
      }
    } else {
      assert ms[6620] == 46347;
      assert Square(46347) > MAX;
    }
  }

  /** From a limit of 1 on, GetSquares squares the multiples 7, 14, ... below the limit. */
  lemma GetSquaresUnfold(exclusiveUpperLimit: int32)
    requires exclusiveUpperLimit >= 1
    ensures GetSquares(exclusiveUpperLimit) ==
      var squares := SelectChecked(Multiples(7, (exclusiveUpperLimit as int - 1) / 7), CheckedSquare);
      if squares.Ok? then Ok(Reverse(squares.value)) else Err(squares.error)
  {
    MultiplesFromOne(exclusiveUpperLimit as int - 1, 7, IsMultipleOf7);
  }

  /** Below 1: a negative limit gives an empty result, but a limit of 0 makes
      the count 0 - 1 = -1, which Range rejects. */
  lemma GetSquaresBelowOne(exclusiveUpperLimit: int32)
    requires exclusiveUpperLimit < 1
    ensures exclusiveUpperLimit < 0 ==> GetSquares(exclusiveUpperLimit) == Ok([])
    ensures exclusiveUpperLimit == 0 ==> GetSquares(exclusiveUpperLimit) == Err(ArgumentOutOfRange)
  {
  }

  /** From a limit of 1 on, the call throws OverflowException exactly when
      some multiple of 7 below the limit has a square above int.MaxValue,
      that is from 46348 on (46347 = 7 * 6621 is the first such multiple). */
  lemma GetSquaresOverflow(exclusiveUpperLimit: int32)
    requires exclusiveUpperLimit >= 1
    ensures GetSquares(exclusiveUpperLimit).Err? <==>
      exists k :: 1 <= k < exclusiveUpperLimit as int && IsMultipleOf7(k) && Square(k) > MAX
    ensures GetSquares(exclusiveUpperLimit).Err? <==> exclusiveUpperLimit as int >= 46348
    ensures GetSquares(exclusiveUpperLimit).Err? ==> GetSquares(exclusiveUpperLimit).error == Overflow
  {
    var c := exclusiveUpperLimit as int - 1;
    var ms := Multiples(7, c / 7);
    GetSquaresUnfold(exclusiveUpperLimit);
    MultiplesOf7Fit(c / 7);
    forall k ensures k in ms <==> 1 <= k < exclusiveUpperLimit as int && IsMultipleOf7(k) {
      MultiplesMembership(c, 7, k);
    }
    assert (forall i :: 0 <= i < |ms| ==> CheckedSquare(ms[i]).Ok?) <==> (forall k :: k in ms ==> Square(k) <= MAX);
  }

  /** Below 46348 the result is exactly the squares of the multiples of 7 in
      [1, limit), in strictly descending order. */
  lemma GetSquaresSpec(exclusiveUpperLimit: int32)
    requires 1 <= exclusiveUpperLimit as int < 46348
    ensures GetSquares(exclusiveUpperLimit).Ok?
    ensures StrictlyDecreasing(GetSquares(exclusiveUpperLimit).value)
    ensures forall v :: v in GetSquares(exclusiveUpperLimit).value <==>
      exists k :: 1 <= k < exclusiveUpperLimit as int && IsMultipleOf7(k) && v == Square(k)
  {
    GetSquaresUnfold(exclusiveUpperLimit);
    var c := exclusiveUpperLimit as int - 1;
    MultiplesOf7Squared(c / 7);
    var ms := Multiples(7, c / 7);
    var squares := SelectChecked(ms, CheckedSquare).value;
    forall i, j | 0 <= i < j < |squares| ensures squares[i] < squares[j] {
      SquareIncreasing(ms[i], ms[j]);
    }
    ReverseIncreasing(squares);
    forall v ensures v in squares <==> exists k :: 1 <= k < exclusiveUpperLimit as int && IsMultipleOf7(k) && v == Square(k) {
      if v in squares {
        var i :| 0 <= i < |squares| && squares[i] == v;
        MultiplesMembership(c, 7, ms[i]);
      }
      if exists k :: 1 <= k < exclusiveUpperLimit as int && IsMultipleOf7(k) && v == Square(k) {
        var k :| 1 <= k < exclusiveUpperLimit as int && IsMultipleOf7(k) && v == Square(k);
        MultiplesMembership(c, 7, k);
        var i :| 0 <= i < |ms| && ms[i] == k;
        assert squares[i] == v;
      }
    }
  }

  /** 49 m^2, ..., 49 * 4, 49: the squares of 7m, ..., 14, 7, computed from
      the multipliers directly rather than by filtering. */
  function SevenSquaresDescending(m: nat): (r: seq<int>)
    ensures |r| == m
  {
    seq(m, i => 49 * (m - i) * (m - i))
  }

  /** Below 7 * 6621 every square fits, so squaring the multiples of 7 succeeds. */
  lemma MultiplesOf7Squared(m: nat)
    requires m <= 6620
    ensures SelectChecked(Multiples(7, m), CheckedSquare).Ok?
  {
    MultiplesOf7Fit(m);
    var ms := Multiples(7, m);
    forall i | 0 <= i < |ms| ensures CheckedSquare(ms[i]).Ok? {
      assert ms[i] in ms;
    }
  }

  /** The squares of the first m multiples of 7, in ascending order. */
  lemma SquaresOfSevens(m: nat)
    requires m <= 6620
    ensures SelectChecked(Multiples(7, m), CheckedSquare) == Ok(seq(m, j => 49 * (j + 1) * (j + 1)))
  {
    MultiplesOf7Squared(m);
    var ms := Multiples(7, m);
    var squares := SelectChecked(ms, CheckedSquare).value;
    var expected := seq(m, j => 49 * (j + 1) * (j + 1));
    forall j | 0 <= j < m ensures squares[j] == expected[j] {
      assert squares[j] == Square(ms[j]);
      SquareOfMultipleOf7(j + 1);
    }
    assert squares == expected;
  }

  /** Reversing the ascending squares gives 49 * m * m, ..., 49. */
  lemma ReverseSevenSquares(m: nat)
    ensures Reverse(seq(m, j => 49 * (j + 1) * (j + 1))) == SevenSquaresDescending(m)
  {
    var s := seq(m, j => 49 * (j + 1) * (j + 1));
    var r := Reverse(s);
    var expected := SevenSquaresDescending(m);
    forall i | 0 <= i < m ensures r[i] == expected[i] {
      var k := m - i;
      assert r[i] == s[k - 1];
    }
  }

  /** Reversed, the squares of the first m multiples of 7 run 49 * m * m, ..., 49. */
  lemma ReversedSquares(m: nat)
    requires m <= 6620
    ensures SelectChecked(Multiples(7, m), CheckedSquare).Ok?
    ensures Reverse(SelectChecked(Multiples(7, m), CheckedSquare).value) == SevenSquaresDescending(m)
  {
    SquaresOfSevens(m);
    ReverseSevenSquares(m);
  }

  /** Below 46348 the filtering query and the direct formulation agree. */
  lemma GetSquaresClosedForm(exclusiveUpperLimit: int32)
    requires 1 <= exclusiveUpperLimit as int < 46348
    ensures GetSquares(exclusiveUpperLimit) == Ok(SevenSquaresDescending((exclusiveUpperLimit as int - 1) / 7))
  {
    GetSquaresUnfold(exclusiveUpperLimit);
    ReversedSquares((exclusiveUpperLimit as int - 1) / 7);
  }

  /** GetSquares as its documentation describes it: every limit below 1
      gives an empty result. */
  function GetSquaresAsDocumented(exclusiveUpperLimit: int32): (r: Result<seq<int>>)
    ensures r.Err? ==> r.error == Overflow
  {
    var numbers :- Range(1, if exclusiveUpperLimit < 1 then 0 else exclusiveUpperLimit as int - 1);
    var squares :- SelectChecked(Where(numbers, IsMultipleOf7), CheckedSquare);
    Ok(Reverse(squares))
  }

  /** The documented version never throws ArgumentOutOfRangeException: below
      1 it is empty, from 1 on it agrees with GetSquares. */
  lemma GetSquaresAsDocumentedSpec(exclusiveUpperLimit: int32)
    ensures exclusiveUpperLimit < 1 ==> GetSquaresAsDocumented(exclusiveUpperLimit) == Ok([])
    ensures exclusiveUpperLimit >= 1 ==> GetSquaresAsDocumented(exclusiveUpperLimit) == GetSquares(exclusiveUpperLimit)
    ensures GetSquaresAsDocumented(exclusiveUpperLimit) != Err(ArgumentOutOfRange)
  {
    if exclusiveUpperLimit >= 1 {
      GetSquaresOverflow(exclusiveUpperLimit);
    }
  }

  // ---------------------------------------------------------------------
  // GetFamilyStatistic
  // ---------------------------------------------------------------------

  /** The sum of the persons' ages. */
  function AgeSum(persons: seq<Person>): real
  {
    if persons == [] then 0.0 else persons[0].age + AgeSum(persons[1..])
  }

  /** `Persons.Count == 0 ? 0 : Persons.Average(p => p.Age)`: the mean age,
      with 0 for a family without persons instead of a division by zero. */
  function AverageAge(persons: seq<Person>): (r: real)
    ensures |persons| == 0 ==> r == 0.0
    ensures |persons| > 0 ==> r * (|persons| as real) == AgeSum(persons)
  {
    if |persons| == 0 then 0.0 else AgeSum(persons) / (|persons| as real)
  }

  /** The summary of one family, as the query's object initializer fills it in. */
  function Summarize(family: Family): (r: Summary)
    ensures r.familyID == family.id && r.numberOfFamilyMembers == |family.persons|
    ensures r.numberOfFamilyMembers == 0 ==> r.averageAge == 0.0
    ensures r.numberOfFamilyMembers > 0 ==> r.averageAge * (r.numberOfFamilyMembers as real) == AgeSum(family.persons)
  {
    Summary(family.id, |family.persons|, AverageAge(family.persons))
  }

  /** GetFamilyStatistic: one summary per family, in input order; a null
      collection throws ArgumentNullException. */
  function GetFamilyStatistic(families: Option<seq<Family>>): (r: Result<seq<Summary>>)
    ensures r.Err? <==> families.None?
    ensures r.Err? ==> r.error == ArgumentNull
  {
    match families
    case None => Err(ArgumentNull)
    case Some(fs) => Ok(Select(fs, Summarize))
  }

  /** Each summary copies its family's ID, counts its persons and holds their
      mean age (0 when there are none), and the summaries follow the input order. */
  lemma GetFamilyStatisticSpec(families: seq<Family>)
    ensures GetFamilyStatistic(Some(families)).Ok?
    ensures |GetFamilyStatistic(Some(families)).value| == |families|
    ensures forall i :: 0 <= i < |families| ==>
      var s := GetFamilyStatistic(Some(families)).value[i];
      && s.familyID == families[i].id
      && s.numberOfFamilyMembers == |families[i].persons|
      && (s.numberOfFamilyMembers == 0 ==> s.averageAge == 0.0)
      && (s.numberOfFamilyMembers > 0 ==> s.averageAge * (s.numberOfFamilyMembers as real) == AgeSum(families[i].persons))
  {
  }

  /** If every age lies in [lo, hi], so does their sum scaled by the count. */
  lemma {:induction false} AgeSumBounds(persons: seq<Person>, lo: real, hi: real)
    requires forall p :: p in persons ==> lo <= p.age <= hi
    ensures (|persons| as real) * lo <= AgeSum(persons) <= (|persons| as real) * hi
  {
    if persons != [] {
      forall p | p in persons[1..] ensures lo <= p.age <= hi {
        assert p in persons;
      }
      AgeSumBounds(persons[1..], lo, hi);
      assert persons[0] in persons;
      ScaledBoundsStep(|persons[1..]| as real, persons[0].age, AgeSum(persons[1..]), lo, hi);
    }
  }

  /** One more value in [lo, hi] moves the bounds of a sum of n values by lo and hi. */
  lemma ScaledBoundsStep(n: real, a: real, sum: real, lo: real, hi: real)
    requires n * lo <= sum <= n * hi && lo <= a <= hi
    ensures (n + 1.0) * lo <= a + sum <= (n + 1.0) * hi
  {
    assert (n + 1.0) * lo == n * lo + lo && (n + 1.0) * hi == n * hi + hi;
  }

  /** The mean age of a non-empty family lies between its youngest and oldest member. */
  lemma AverageAgeBounds(persons: seq<Person>, lo: real, hi: real)
    requires |persons| > 0
    requires forall p :: p in persons ==> lo <= p.age <= hi
    ensures lo <= AverageAge(persons) <= hi
  {
    AgeSumBounds(persons, lo, hi);
    var n := |persons| as real;
    var avg := AverageAge(persons);
    assert avg * n == AgeSum(persons);
    assert (avg - lo) * n == avg * n - n * lo;
    assert (hi - avg) * n == n * hi - avg * n;
    NonNegativeFactor(avg - lo, n);
    NonNegativeFactor(hi - avg, n);
  }

  /** A product with a positive factor is non-negative only if the other factor is. */
  lemma NonNegativeFactor(x: real, n: real)
    requires n > 0.0 && x * n >= 0.0
    ensures x >= 0.0
  {
  }

  /** Builds one FamilySummary object the way the query does: the
      parameterless constructor, then the three property setters. */
  method NewFamilySummary(family: Family) returns (s: FamilySummary)
    ensures fresh(s)
    ensures s.Snapshot() == Summarize(family)
  {
    s := new FamilySummary.Default();
    s.SetFamilyID(family.id);
    s.SetNumberOfFamilyMembers(|family.persons|);
    s.SetAverageAge(AverageAge(family.persons));
  }

  /** Worked examples: an empty family 1 gives (1, 0, 0); family 2 with ages
      10 and 20 gives (2, 2, 15). */
  lemma GetFamilyStatisticExample(a: Person, b: Person)
    requires a.age == 10.0 && b.age == 20.0
    ensures GetFamilyStatistic(Some([Family(1, [])])) == Ok([Summary(1, 0, 0.0)])
    ensures GetFamilyStatistic(Some([Family(2, [a, b])])) == Ok([Summary(2, 2, 15.0)])
  {
    assert [a, b][1..] == [b] && [b][1..] == [];
    assert AgeSum([b]) == 20.0;
    assert AgeSum([a, b]) == 30.0;
    var r1 := GetFamilyStatistic(Some([Family(1, [])])).value;
    assert |r1| == 1 && r1[0] == Summary(1, 0, 0.0);
    assert r1 == [Summary(1, 0, 0.0)];
    var r2 := GetFamilyStatistic(Some([Family(2, [a, b])])).value;
    assert |r2| == 1 && r2[0] == Summary(2, 2, 15.0);
    assert r2 == [Summary(2, 2, 15.0)];
  }

  // ---------------------------------------------------------------------
  // GetLetterStatistic
  // ---------------------------------------------------------------------

  /** Upper-casing, on the ASCII letters: 'a'..'z' become 'A'..'Z', every
      other character is kept. */
  function ToUpper(c: char): (u: char)
    ensures 'a' <= c <= 'z' ==> 'A' <= u <= 'Z' && u as int == c as int - 32
    ensures !('a' <= c <= 'z') ==> u == c
  {
    if 'a' <= c <= 'z' then (c as int - 32) as char else c
  }

  /** char.IsLetter, on the ASCII letters. */
  predicate IsLetter(c: char) {
    'A' <= c <= 'Z' || 'a' <= c <= 'z'
  }

  /** Upper-casing neither makes nor unmakes a letter, and the letters it
      yields are upper-case. */
  lemma ToUpperLetter(c: char)
    ensures IsLetter(ToUpper(c)) <==> IsLetter(c)
    ensures IsLetter(ToUpper(c)) ==> 'A' <= ToUpper(c) <= 'Z'
  {
  }

  /** One (letter, numberOfOccurrences) pair of the result. */
  datatype LetterCount = LetterCount(letter: char, numberOfOccurrences: int)

  /** The letters of the pairs, in order. */
  function Keys(groups: seq<LetterCount>): (r: seq<char>)
    ensures |r| == |groups| && forall i :: 0 <= i < |groups| ==> r[i] == groups[i].letter
  {
    seq(|groups|, i requires 0 <= i < |groups| => groups[i].letter)
  }

  /** Appending a pair appends its letter. */
  lemma KeysAppend(groups: seq<LetterCount>, g: LetterCount)
    ensures Keys(groups + [g]) == Keys(groups) + [g.letter]
  {
  }

  /** No letter has two pairs. */
  predicate DistinctKeys(groups: seq<LetterCount>) {
    forall i, j :: 0 <= i < j < |groups| ==> groups[i].letter != groups[j].letter
  }

  /** The sum of the counts. */
  function Total(groups: seq<LetterCount>): int
  {
    if groups == [] then 0 else groups[0].numberOfOccurrences + Total(groups[1..])
  }

  /** r starts with the pairs of groups, in order, with the count of letter u
      raised by one and every other count unchanged. */
  predicate Bumped(groups: seq<LetterCount>, r: seq<LetterCount>, u: char) {
    && |r| >= |groups|
    && forall i :: 0 <= i < |groups| ==>
      && r[i].letter == groups[i].letter
      && r[i].numberOfOccurrences == groups[i].numberOfOccurrences + (if groups[i].letter == u then 1 else 0)
  }

  /** Adds one character to a grouping: its pair's count goes up by one, or
      a new pair (c, 1) is appended when c has none yet, as GroupBy adds a
      key the first time it sees it. */
  function Tally(groups: seq<LetterCount>, c: char): (r: seq<LetterCount>)
    requires DistinctKeys(groups)
    ensures DistinctKeys(r)
    ensures Total(r) == Total(groups) + 1
    ensures c in Keys(groups) ==> |r| == |groups|
    ensures c !in Keys(groups) ==> |r| == |groups| + 1 && r[|groups|] == LetterCount(c, 1)
    ensures Bumped(groups, r, c)
  {
    if groups == [] then
      [LetterCount(c, 1)]
    else if groups[0].letter == c then
      var rest := groups[1..];
      var bumped := groups[0].(numberOfOccurrences := groups[0].numberOfOccurrences + 1);
      assert forall i :: 0 <= i < |rest| ==> rest[i].letter != bumped.letter by {
        forall i | 0 <= i < |rest| ensures rest[i].letter != c {
          assert rest[i] == groups[i + 1];
        }
      }
      ConsDistinct(bumped, rest);
      ConsTotal(bumped, rest);
      ConsTotal(groups[0], rest);
      assert groups == [groups[0]] + rest;
      [bumped] + rest
    else
      var rest := Tally(groups[1..], c);
      assert c in Keys(groups) <==> c in Keys(groups[1..]) by {
        assert Keys(groups) == [groups[0].letter] + Keys(groups[1..]);
      }
      assert forall i :: 0 <= i < |rest| ==> rest[i].letter != groups[0].letter by {
        forall i | 0 <= i < |rest| ensures rest[i].letter != groups[0].letter {
          if i < |groups| - 1 {
            assert groups[1..][i] == groups[i + 1];
          }
        }
      }
      ConsDistinct(groups[0], rest);
      ConsTotal(groups[0], rest);
      ConsTotal(groups[0], groups[1..]);
      assert groups == [groups[0]] + groups[1..];
      [groups[0]] + rest
  }

  /** A pair whose letter no later pair has can be put in front. */
  lemma ConsDistinct(g: LetterCount, rest: seq<LetterCount>)
    requires DistinctKeys(rest)
    requires forall i :: 0 <= i < |rest| ==> rest[i].letter != g.letter
    ensures DistinctKeys([g] + rest)
  {
    var r := [g] + rest;
    forall i, j | 0 <= i < j < |r| ensures r[i].letter != r[j].letter {
      assert r[j] == rest[j - 1];
      if i > 0 {
        assert r[i] == rest[i - 1];
      }
    }
  }

  /** The total of a pair put in front. */
  lemma ConsTotal(g: LetterCount, rest: seq<LetterCount>)
    ensures Total([g] + rest) == g.numberOfOccurrences + Total(rest)
  {
    assert ([g] + rest)[1..] == rest;
  }

  /** GroupBy(character) followed by Count(): the characters' distinct
      values in order of first appearance, each with its number of
      appearances. */
  function GroupAndCount(s: seq<char>): (r: seq<LetterCount>)
    ensures DistinctKeys(r)
  {
    if s == [] then [] else Tally(GroupAndCount(s[..|s| - 1]), s[|s| - 1])
  }

  /** The upper-cased letters of the text, in order. */
  function Letters(text: string): seq<char>
  {
    Where(Select(text, ToUpper), IsLetter)
  }

  /** GetLetterStatistic: upper-case the text, keep the letters, group equal
      characters and count each group. */
  function GetLetterStatistic(text: string): (r: seq<LetterCount>)
    ensures DistinctKeys(r)
  {
    GroupAndCount(Letters(text))
  }

  /** How often letter k occurs in the text, ignoring case. */
  function Occurrences(text: string, k: char): (n: nat)
    ensures n <= |text|
    ensures n == 0 <==> forall p :: 0 <= p < |text| ==> ToUpper(text[p]) != k
  {
    if text == [] then 0
    else Occurrences(text[..|text| - 1], k) + (if ToUpper(text[|text| - 1]) == k then 1 else 0)
  }

  /** How many characters of the text are letters. */
  function LetterTotal(text: string): (n: nat)
    ensures n <= |text|
  {
    if text == [] then 0
    else LetterTotal(text[..|text| - 1]) + (if IsLetter(text[|text| - 1]) then 1 else 0)
  }

  /** The position where letter k first occurs in the text, ignoring case. */
  function FirstPosition(text: string, k: char): (p: nat)
    requires Occurrences(text, k) > 0
    ensures p < |text| && ToUpper(text[p]) == k
    ensures forall q :: 0 <= q < p ==> ToUpper(text[q]) != k
  {
    var init := text[..|text| - 1];
    if Occurrences(init, k) > 0 then FirstPosition(init, k) else |text| - 1
  }

  /** Each pair holds an upper-case letter and how often it occurs in the
      text ignoring case, which is at least once. */
  predicate CountsMatch(groups: seq<LetterCount>, text: string) {
    forall i :: 0 <= i < |groups| ==>
      && 'A' <= groups[i].letter <= 'Z'
      && groups[i].numberOfOccurrences == Occurrences(text, groups[i].letter)
      && groups[i].numberOfOccurrences >= 1
  }

  /** Every letter occurring in the text has a pair. */
  predicate Complete(groups: seq<LetterCount>, text: string) {
    forall k :: 'A' <= k <= 'Z' && Occurrences(text, k) > 0 ==> k in Keys(groups)
  }

  /** The pairs are ordered by where their letters first occur in the text. */
  predicate OrderedByFirstOccurrence(groups: seq<LetterCount>, text: string)
    requires CountsMatch(groups, text)
  {
    forall i, j :: 0 <= i < j < |groups| ==>
      FirstPosition(text, groups[i].letter) < FirstPosition(text, groups[j].letter)
  }

  /** What the letter statistic of a text is: distinct upper-case letters,
      each counted as often as it occurs in the text ignoring case (so at
      least once), every such letter present, pairs ordered by first
      occurrence, and counts adding up to the number of letters. */
  predicate IsLetterStatistic(groups: seq<LetterCount>, text: string) {
    && DistinctKeys(groups)
    && CountsMatch(groups, text)
    && Complete(groups, text)
    && OrderedByFirstOccurrence(groups, text)
    && Total(groups) == LetterTotal(text)
  }

  /** Appending a character appends its upper-case form to the letters when it is a letter. */
  lemma LettersAppend(text: string, c: char)
    ensures Letters(text + [c]) == Letters(text) + (if IsLetter(ToUpper(c)) then [ToUpper(c)] else [])
  {
    assert Select(text + [c], ToUpper) == Select(text, ToUpper) + [ToUpper(c)];
    WhereAppend(Select(text, ToUpper), [ToUpper(c)], IsLetter);
  }

  /** The counting functions on a text extended by one character. */
  lemma CountsAppend(text: string, c: char, k: char)
    ensures Occurrences(text + [c], k) == Occurrences(text, k) + (if ToUpper(c) == k then 1 else 0)
    ensures LetterTotal(text + [c]) == LetterTotal(text) + (if IsLetter(c) then 1 else 0)
    ensures Occurrences(text, k) > 0 ==> FirstPosition(text + [c], k) == FirstPosition(text, k)
    ensures Occurrences(text, k) == 0 && ToUpper(c) == k ==> FirstPosition(text + [c], k) == |text|
  {
    assert (text + [c])[..|text|] == text;
  }

  /** A non-letter at the end of the text leaves the statistic as it is. */
  lemma SkipStep(groups: seq<LetterCount>, text: string, c: char)
    requires IsLetterStatistic(groups, text)
    requires !IsLetter(c)
    ensures IsLetterStatistic(groups, text + [c])
  {
    var t := text + [c];
    ToUpperLetter(c);
    forall k | 'A' <= k <= 'Z' ensures Occurrences(t, k) == Occurrences(text, k) {
      CountsAppend(text, c, k);
    }
    assert CountsMatch(groups, t);
    forall i | 0 <= i < |groups| ensures FirstPosition(t, groups[i].letter) == FirstPosition(text, groups[i].letter) {
      CountsAppend(text, c, groups[i].letter);
    }
    CountsAppend(text, c, 'A');
  }

  /** Raising the count of the appended character's letter keeps the counts right. */
  lemma BumpedCounts(groups: seq<LetterCount>, text: string, c: char, r: seq<LetterCount>)
    requires CountsMatch(groups, text) && Bumped(groups, r, ToUpper(c)) && |r| == |groups|
    ensures CountsMatch(r, text + [c])
  {
    forall i | 0 <= i < |r| ensures r[i].numberOfOccurrences == Occurrences(text + [c], r[i].letter) {
      CountsAppend(text, c, r[i].letter);
    }
  }

  /** Raising a count keeps the pairs in order of first occurrence. */
  lemma BumpedOrder(groups: seq<LetterCount>, text: string, c: char, r: seq<LetterCount>)
    requires CountsMatch(groups, text) && OrderedByFirstOccurrence(groups, text)
    requires Bumped(groups, r, ToUpper(c)) && |r| == |groups| && CountsMatch(r, text + [c])
    ensures OrderedByFirstOccurrence(r, text + [c])
  {
    forall i | 0 <= i < |r| ensures FirstPosition(text + [c], r[i].letter) == FirstPosition(text, groups[i].letter) {
      CountsAppend(text, c, r[i].letter);
    }
  }

  /** A letter that already has a pair, with that pair's count raised. */
  lemma KnownLetterStep(groups: seq<LetterCount>, text: string, c: char, r: seq<LetterCount>)
    requires IsLetterStatistic(groups, text)
    requires IsLetter(c) && ToUpper(c) in Keys(groups)
    requires Bumped(groups, r, ToUpper(c)) && |r| == |groups|
    requires DistinctKeys(r) && Total(r) == Total(groups) + 1
    ensures IsLetterStatistic(r, text + [c])
  {
    var t := text + [c];
    assert CountsMatch(r, t) by {
      BumpedCounts(groups, text, c, r);
    }
    assert OrderedByFirstOccurrence(r, t) by {
      BumpedOrder(groups, text, c, r);
    }
    assert Complete(r, t) by {
      assert Keys(r) == Keys(groups);
      CompleteAppend(groups, text, c, r);
    }
    assert Total(r) == LetterTotal(t) by {
      CountsAppend(text, c, ToUpper(c));
    }
  }

  /** Tallying a letter that already has a pair. */
  lemma TallyKnownStep(groups: seq<LetterCount>, text: string, c: char)
    requires IsLetterStatistic(groups, text)
    requires IsLetter(c) && ToUpper(c) in Keys(groups)
    ensures IsLetterStatistic(Tally(groups, ToUpper(c)), text + [c])
  {
    KnownLetterStep(groups, text, c, Tally(groups, ToUpper(c)));
  }

  /** Every letter of the extended text has a pair when the old letters
      keep theirs and the new character's letter has one. */
  lemma CompleteAppend(groups: seq<LetterCount>, text: string, c: char, r: seq<LetterCount>)
    requires Complete(groups, text)
    requires forall k :: k in Keys(groups) ==> k in Keys(r)
    requires ToUpper(c) in Keys(r)
    ensures Complete(r, text + [c])
  {
    forall k | 'A' <= k <= 'Z' && Occurrences(text + [c], k) > 0 ensures k in Keys(r) {
      CountsAppend(text, c, k);
    }
  }

  /** A new letter's pair, appended at the end, keeps the counts right and
      comes last in order of first occurrence. */
  lemma AppendNewLetter(groups: seq<LetterCount>, text: string, c: char)
    requires CountsMatch(groups, text) && OrderedByFirstOccurrence(groups, text)
    requires 'A' <= ToUpper(c) <= 'Z' && Occurrences(text, ToUpper(c)) == 0
    ensures CountsMatch(groups + [LetterCount(ToUpper(c), 1)], text + [c])
    ensures OrderedByFirstOccurrence(groups + [LetterCount(ToUpper(c), 1)], text + [c])
  {
    var t, u := text + [c], ToUpper(c);
    var r := groups + [LetterCount(u, 1)];
    CountsAppend(text, c, u);
    forall i | 0 <= i < |groups|
      ensures Occurrences(t, groups[i].letter) == Occurrences(text, groups[i].letter)
      ensures FirstPosition(t, groups[i].letter) == FirstPosition(text, groups[i].letter) < |text|
    {
      CountsAppend(text, c, groups[i].letter);
    }
    assert CountsMatch(r, t);
    forall i, j | 0 <= i < j < |r| ensures FirstPosition(t, r[i].letter) < FirstPosition(t, r[j].letter) {
      if j < |groups| {
        assert FirstPosition(text, groups[i].letter) < FirstPosition(text, groups[j].letter);
      }
    }
  }

  /** A character without a pair gets a new pair (c, 1) at the end. */
  lemma TallyNew(groups: seq<LetterCount>, c: char)
    requires DistinctKeys(groups) && c !in Keys(groups)
    ensures Tally(groups, c) == groups + [LetterCount(c, 1)]
  {
    var r := Tally(groups, c);
    forall i | 0 <= i < |groups| ensures r[i] == groups[i] {
      assert Keys(groups)[i] == groups[i].letter;
    }
  }

  /** Appending a pair adds its count to the total. */
  lemma {:induction false} TotalAppend(groups: seq<LetterCount>, g: LetterCount)
    ensures Total(groups + [g]) == Total(groups) + g.numberOfOccurrences
  {
    if groups != [] {
      assert (groups + [g])[1..] == groups[1..] + [g];
      TotalAppend(groups[1..], g);
    }
  }

  /** A letter seen for the first time, with its pair (letter, 1) appended. */
  lemma NewLetterStep(groups: seq<LetterCount>, text: string, c: char)
    requires IsLetterStatistic(groups, text)
    requires IsLetter(c) && ToUpper(c) !in Keys(groups)
    ensures IsLetterStatistic(groups + [LetterCount(ToUpper(c), 1)], text + [c])
  {
    var t, u := text + [c], ToUpper(c);
    var r := groups + [LetterCount(u, 1)];
    ToUpperLetter(c);
    assert DistinctKeys(r) by {
      DistinctAppend(groups, u);
    }
    assert CountsMatch(r, t) && OrderedByFirstOccurrence(r, t) by {
      AppendNewLetter(groups, text, c);
    }
    assert Complete(r, t) by {
      KeysAppend(groups, LetterCount(u, 1));
      CompleteAppend(groups, text, c, r);
    }
    assert Total(r) == LetterTotal(t) by {
      CountsAppend(text, c, u);
      TotalAppend(groups, LetterCount(u, 1));
    }
  }

  /** Appending a pair for a letter without one keeps the letters distinct. */
  lemma DistinctAppend(groups: seq<LetterCount>, u: char)
    requires DistinctKeys(groups) && u !in Keys(groups)
    ensures DistinctKeys(groups + [LetterCount(u, 1)])
  {
    forall i | 0 <= i < |groups| ensures groups[i].letter != u {
      assert Keys(groups)[i] == groups[i].letter;
    }
  }

  /** Tallying a letter seen for the first time appends its pair. */
  lemma TallyNewStep(groups: seq<LetterCount>, text: string, c: char)
    requires IsLetterStatistic(groups, text)
    requires IsLetter(c) && ToUpper(c) !in Keys(groups)
    ensures IsLetterStatistic(Tally(groups, ToUpper(c)), text + [c])
  {
    TallyNew(groups, ToUpper(c));
    NewLetterStep(groups, text, c);
  }

  /** Extending the text by one character extends the tally by that character when it is a letter. */
  lemma GetLetterStatisticAppend(text: string, c: char)
    ensures IsLetter(c) ==> GetLetterStatistic(text + [c]) == Tally(GetLetterStatistic(text), ToUpper(c))
    ensures !IsLetter(c) ==> GetLetterStatistic(text + [c]) == GetLetterStatistic(text)
  {
    LettersAppend(text, c);
    ToUpperLetter(c);
    var letters := Letters(text + [c]);
    if IsLetter(c) {
      assert letters[..|letters| - 1] == Letters(text);
    } else {
      assert letters == Letters(text);
    }
  }

  /** GetLetterStatistic meets the letter statistic's description. */
  lemma {:induction false} GetLetterStatisticSpec(text: string)
    ensures IsLetterStatistic(GetLetterStatistic(text), text)
  {
    if text != [] {
      var init, c := text[..|text| - 1], text[|text| - 1];
      assert text == init + [c];
      GetLetterStatisticSpec(init);
      GetLetterStatisticAppend(init, c);
      var groups := GetLetterStatistic(init);
      if IsLetter(c) {
        if ToUpper(c) in Keys(groups) {
          TallyKnownStep(groups, init, c);
        } else {
          TallyNewStep(groups, init, c);
        }
      } else {
        SkipStep(groups, init, c);
      }
    }
  }

  /** With every count at least 1 there are no more pairs than the counts add up to. */
  lemma {:induction false} TotalAtLeastLength(groups: seq<LetterCount>)
    requires forall i :: 0 <= i < |groups| ==> groups[i].numberOfOccurrences >= 1
    ensures Total(groups) >= |groups|
  {
    if groups != [] {
      TotalAtLeastLength(groups[1..]);
    }
  }

  /** A text without letters, the empty text among them, gives an empty
      result; in general there are at most as many pairs as letters. */
  lemma GetLetterStatisticSize(text: string)
    ensures |GetLetterStatistic(text)| <= LetterTotal(text)
    ensures LetterTotal(text) == 0 ==> GetLetterStatistic(text) == []
  {
    GetLetterStatisticSpec(text);
    TotalAtLeastLength(GetLetterStatistic(text));
  }
}
