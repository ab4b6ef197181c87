/** The sequence operators the queries are built from (System.Linq),
    modelled on the sequences they produce: deferred execution is not
    modelled, only the resulting sequence or the exception. */
module Enumerable {
  import opened Results
  import Int32

  /** Ascending, no element repeated. */
  predicate StrictlyIncreasing(s: seq<int>) {
    forall i, j :: 0 <= i < j < |s| ==> s[i] < s[j]
  }

  /** Descending, no element repeated. */
  predicate StrictlyDecreasing(s: seq<int>) {
    forall i, j :: 0 <= i < j < |s| ==> s[i] > s[j]
  }

  /** Enumerable.Range: `count` consecutive integers from `start`; throws
      when the count is negative or the last value would pass int.MaxValue. */
  function Range(start: int, count: int): (r: Result<seq<int>>)
    ensures r.Ok? <==> 0 <= count && start + count - 1 <= Int32.MAX
    ensures r.Err? ==> r.error == ArgumentOutOfRange
    ensures r.Ok? ==> |r.value| == count && StrictlyIncreasing(r.value)
    ensures r.Ok? ==> forall x :: x in r.value <==> start <= x < start + count
  {
    if count < 0 || start + count - 1 > Int32.MAX then
      Err(ArgumentOutOfRange)
    else
      var s := seq(count, i => start + i);
      assert forall x :: x in s <==> start <= x < start + count by {
        forall x | start <= x < start + count ensures x in s {
          assert s[x - start] == x;
        }
      }
      Ok(s)
  }

  /** Enumerable.Select: `f` applied to each element, order kept. */
  function Select<T, U>(s: seq<T>, f: T -> U): (r: seq<U>)
    ensures |r| == |s|
    ensures forall i :: 0 <= i < |s| ==> r[i] == f(s[i])
  {
    if s == [] then [] else [f(s[0])] + Select(s[1..], f)
  }

  /** Enumerable.Where: the elements satisfying `p`, order kept. */
  function Where<T>(s: seq<T>, p: T -> bool): (r: seq<T>)
    ensures |r| <= |s|
    ensures forall i :: 0 <= i < |r| ==> r[i] in s && p(r[i])
    ensures forall i :: 0 <= i < |s| && p(s[i]) ==> s[i] in r
  {
    if s == [] then [] else (if p(s[0]) then [s[0]] else []) + Where(s[1..], p)
  }

  /** An element is kept by Where exactly when it occurs and satisfies `p`. */
  lemma WhereMembership<T>(s: seq<T>, p: T -> bool, x: T)
    ensures x in Where(s, p) <==> x in s && p(x)
  {
    var r := Where(s, p);
    if x in r {
      var i :| 0 <= i < |r| && r[i] == x;
    }
    if x in s && p(x) {
      var i :| 0 <= i < |s| && s[i] == x;
    }
  }

  /** Mapping a concatenation maps each part. */
  lemma SelectAppend<T, U>(s: seq<T>, t: seq<T>, f: T -> U)
    ensures Select(s + t, f) == Select(s, f) + Select(t, f)
  {
  }

  /** Filtering a concatenation filters each part. */
  lemma {:induction false} WhereAppend<T>(s: seq<T>, t: seq<T>, p: T -> bool)
    ensures Where(s + t, p) == Where(s, p) + Where(t, p)
  {
    if s == [] {
      assert s + t == t;
    } else {
      assert (s + t)[1..] == s[1..] + t;
      WhereAppend(s[1..], t, p);
    }
  }

  /** A filtered ascending sequence is still ascending. */
  lemma {:induction false} WhereIncreasing(s: seq<int>, p: int -> bool)
    requires StrictlyIncreasing(s)
    ensures StrictlyIncreasing(Where(s, p))
  {
    if s != [] {
      var rest := Where(s[1..], p);
      WhereIncreasing(s[1..], p);
      if p(s[0]) {
        forall i | 0 <= i < |rest| ensures s[0] < rest[i] {
          var k :| 0 <= k < |s[1..]| && s[1..][k] == rest[i];
          assert s[k + 1] == rest[i];
        }
        ConsIncreasing(s[0], rest);
      }
    }
  }

  /** A value below every element of an increasing sequence can be put in front of it. */
  lemma ConsIncreasing(x: int, s: seq<int>)
    requires StrictlyIncreasing(s)
    requires forall i :: 0 <= i < |s| ==> x < s[i]
    ensures StrictlyIncreasing([x] + s)
  {
    var r := [x] + s;
    forall i, j | 0 <= i < j < |r| ensures r[i] < r[j] {
      assert r[j] == s[j - 1];
      if i > 0 {
        assert r[i] == s[i - 1];
      }
    }
  }

  /** A Select whose selector may throw (a `checked` expression), consumed
      in order: the first exception ends the enumeration. */
  function SelectChecked<T, U>(s: seq<T>, f: T -> Result<U>): (r: Result<seq<U>>)
    ensures r.Ok? <==> forall i :: 0 <= i < |s| ==> f(s[i]).Ok?
    ensures r.Ok? ==> |r.value| == |s| && forall i :: 0 <= i < |s| ==> r.value[i] == f(s[i]).value
    ensures r.Err? ==> exists i :: 0 <= i < |s| && f(s[i]) == Err(r.error) && forall j :: 0 <= j < i ==> f(s[j]).Ok?
  {
    if s == [] then
      Ok([])
    else
      var head :- f(s[0]);
      var tail :- SelectChecked(s[1..], f);
      Ok([head] + tail)
  }

  /** Enumerable.Reverse: the elements back to front. */
  function Reverse<T>(s: seq<T>): (r: seq<T>)
    ensures |r| == |s|
    ensures forall i :: 0 <= i < |s| ==> r[i] == s[|s| - 1 - i]
  {
    if s == [] then [] else Reverse(s[1..]) + [s[0]]
  }

  /** Reversing an ascending sequence gives a descending one with the same elements. */
  lemma ReverseIncreasing(s: seq<int>)
    requires StrictlyIncreasing(s)
    ensures StrictlyDecreasing(Reverse(s))
    ensures forall x :: x in Reverse(s) <==> x in s
  {
    var r := Reverse(s);
    forall x | x in s ensures x in r {
      var k :| 0 <= k < |s| && s[k] == x;
      assert r[|s| - 1 - k] == x;
    }
  }

  /** An ascending sequence without repeats is determined by its elements. */
  lemma {:induction false} IncreasingUnique(a: seq<int>, b: seq<int>)
    requires StrictlyIncreasing(a) && StrictlyIncreasing(b)
    requires forall x :: x in a <==> x in b
    ensures a == b
  {
    // The heads are elements, so neither sequence can be empty while the other is not.
    if a != [] { assert a[0] in a; }
    if b != [] { assert b[0] in b; }
    if a != [] && b != [] {
      // Each head is the least element of its sequence, so the heads agree.
      assert a[0] == b[0] by {
        var i :| 0 <= i < |b| && b[i] == a[0];
        var j :| 0 <= j < |a| && a[j] == b[0];
        assert b[0] <= a[0] && a[0] <= b[0];
      }
      forall x ensures x in a[1..] <==> x in b[1..] {
        if x in a[1..] {
          var k :| 0 <= k < |a[1..]| && a[1..][k] == x;
          assert a[k + 1] == x && x != a[0];
        }
        if x in b[1..] {
          var k :| 0 <= k < |b[1..]| && b[1..][k] == x;
          assert b[k + 1] == x && x != b[0];
        }
        if x in a && x != a[0] {
          var k :| 0 <= k < |a| && a[k] == x;
          assert a[1..][k - 1] == x;
        }
        if x in b && x != b[0] {
          var k :| 0 <= k < |b| && b[k] == x;
          assert b[1..][k - 1] == x;
        }
      }
      IncreasingUnique(a[1..], b[1..]);
      assert a == [a[0]] + a[1..] && b == [b[0]] + b[1..];
    }
  }
}
