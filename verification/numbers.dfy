/**
 * `getMedian`: guard the argument with `assertArray`, sort it ascending in
 * place, then read the middle element or average the two middle ones.
 */
module Numbers {
  import opened Wrappers
  import opened JsValue
  import Arrays

  /** What `getMedian` returns: `undefined` (after a caught error), `NaN`, or a number. */
  datatype Median = NoMedian | NaN | Number(x: real)

  predicate Sorted(s: seq<int>)
  {
    forall i, j :: 0 <= i < j < |s| ==> s[i] <= s[j]
  }

  /** Every element of an array of numbers. */
  predicate AllNumbers(e: seq<Value>)
  {
    forall i :: 0 <= i < |e| ==> e[i].Num?
  }

  function NumbersOf(e: seq<Value>): (r: seq<int>)
    requires AllNumbers(e)
    ensures |r| == |e|
    ensures forall i :: 0 <= i < |e| ==> e[i] == Num(r[i])
  {
    seq(|e|, i requires 0 <= i < |e| => e[i].n)
  }

  function AsValues(s: seq<int>): (r: seq<Value>)
    ensures |r| == |s| && AllNumbers(r)
    ensures forall i :: 0 <= i < |s| ==> r[i] == Num(s[i])
  {
    seq(|s|, i requires 0 <= i < |s| => Num(s[i]))
  }

  /** Insert `x` into an ascending list, keeping it ascending and keeping every element. */
  function Insert(x: int, s: seq<int>): (r: seq<int>)
    requires Sorted(s)
    ensures Sorted(r)
    ensures multiset(r) == multiset(s) + multiset{x}
    ensures |r| == |s| + 1
    decreases |s|
  {
    if |s| == 0 || x <= s[0] then
      ConsSorted(x, s);
      [x] + s
    else
      var rest := Insert(x, s[1..]);
      assert s == [s[0]] + s[1..];
      SortedTail(s);
      BoundedBelow(s[0], s[1..], x, rest);
      ConsSorted(s[0], rest);
      [s[0]] + rest
  }

  /** Putting a lower bound in front of an ascending list keeps it ascending. */
  lemma ConsSorted(h: int, t: seq<int>)
    requires Sorted(t)
    requires forall k :: 0 <= k < |t| ==> h <= t[k]
    ensures Sorted([h] + t)
  {
    forall i, j | 0 <= i < j < |t| + 1
      ensures ([h] + t)[i] <= ([h] + t)[j]
    {
      assert ([h] + t)[j] == t[j - 1];
      if i > 0 {
        assert ([h] + t)[i] == t[i - 1];
      }
    }
  }

  /** A bound on the head of an ascending list bounds everything inserted after it. */
  lemma BoundedBelow(h: int, t: seq<int>, x: int, r: seq<int>)
    requires Sorted([h] + t) && h < x
    requires multiset(r) == multiset(t) + multiset{x}
    ensures forall k :: 0 <= k < |r| ==> h <= r[k]
  {
    forall k | 0 <= k < |r|
      ensures h <= r[k]
    {
      assert r[k] in multiset(r);
      if r[k] != x {
        assert r[k] in multiset(t);
        var m :| 0 <= m < |t| && t[m] == r[k];
        assert ([h] + t)[0] == h && ([h] + t)[m + 1] == t[m];
      }
    }
  }

  /**
   * `numbers.sort((a, b) => a - b)`: an ascending permutation of the input.
   * The comparator is consistent on integers, so the outcome does not depend on
   * the sorting algorithm (see `SortedPermutationUnique`); this is insertion sort.
   */
  method SortAscending(a: seq<int>) returns (s: seq<int>)
    ensures Sorted(s)
    ensures multiset(s) == multiset(a)
  {
    s := [];
    var i := 0;
    while i < |a|
      invariant 0 <= i <= |a|
      invariant Sorted(s)
      invariant multiset(s) == multiset(a[..i])
      decreases |a| - i
    {
      assert a[..i + 1] == a[..i] + [a[i]];
      s := Insert(a[i], s);
      i := i + 1;
    }
    assert a[..i] == a;
  }

  lemma SortedTail(s: seq<int>)
    requires Sorted(s) && |s| > 0
    ensures Sorted(s[1..])
  {
    forall i, j | 0 <= i < j < |s| - 1
      ensures s[1..][i] <= s[1..][j]
    {
      assert s[1..][i] == s[i + 1] && s[1..][j] == s[j + 1];
    }
  }

  /** Two ascending lists with the same elements are equal: any correct sort gives the same array. */
  lemma {:induction false} SortedPermutationUnique(a: seq<int>, b: seq<int>)
    requires Sorted(a) && Sorted(b)
    requires multiset(a) == multiset(b)
    ensures a == b
    decreases |a|
  {
    if |a| > 0 {
      SameHead(a, b);
      TailsAgree(a, b);
      SortedPermutationUnique(a[1..], b[1..]);
      SameHeadAndTail(a, b);
    } else {
      assert |b| == |multiset(b)| == 0;
    }
  }

  /** Two sorted lists holding the same numbers start with the same (least) one. */
  lemma SameHead(a: seq<int>, b: seq<int>)
    requires Sorted(a) && Sorted(b) && |a| > 0
    requires multiset(a) == multiset(b)
    ensures |b| == |a| && a[0] == b[0]
  {
    assert |b| == |multiset(b)| == |a|;
    assert a[0] in multiset(b);
    assert b[0] in multiset(a);
    var i :| 0 <= i < |b| && b[i] == a[0];
    var j :| 0 <= j < |a| && a[j] == b[0];
    assert b[0] <= b[i] && a[0] <= a[j];
  }

  /** With equal heads, the tails are again sorted permutations of each other. */
  lemma TailsAgree(a: seq<int>, b: seq<int>)
    requires Sorted(a) && Sorted(b) && |a| > 0 && |b| > 0 && a[0] == b[0]
    requires multiset(a) == multiset(b)
    ensures Sorted(a[1..]) && Sorted(b[1..])
    ensures multiset(a[1..]) == multiset(b[1..])
  {
    TailMultiset(a);
    TailMultiset(b);
    SortedTail(a);
    SortedTail(b);
  }

  /** Lists agreeing in head and tail are equal. */
  lemma SameHeadAndTail(a: seq<int>, b: seq<int>)
    requires |a| > 0 && |b| > 0 && a[0] == b[0] && a[1..] == b[1..]
    ensures a == b
  {
    assert a == [a[0]] + a[1..];
    assert b == [b[0]] + b[1..];
  }

  /** Dropping the head removes one occurrence of it. */
  lemma TailMultiset(a: seq<int>)
    requires |a| > 0
    ensures multiset(a[1..]) == multiset(a) - multiset{a[0]}
  {
    assert a == [a[0]] + a[1..];
  }


  /** The median of an ascending list, read the way the source reads it. */
  function MiddleOf(s: seq<int>): Median
  {
    var half := |s| / 2;
    if |s| % 2 == 1 then Number(s[half] as real)
    else if |s| == 0 then NaN
    else Number((s[half - 1] + s[half]) as real / 2.0)
  }

  /** The median of a non-empty ascending list lies between its first and last elements. */
  lemma MiddleBetween(s: seq<int>)
    requires Sorted(s) && |s| > 0
    ensures MiddleOf(s).Number?
    ensures s[0] as real <= MiddleOf(s).x <= s[|s| - 1] as real
  {
  }

  /** The median of a sorted permutation lies between two elements of the original list. */
  lemma MedianWithin(input: seq<int>, s: seq<int>) returns (i: nat, j: nat)
    requires Sorted(s) && |s| > 0 && multiset(s) == multiset(input)
    ensures MiddleOf(s).Number?
    ensures i < |input| && input[i] as real <= MiddleOf(s).x
    ensures j < |input| && MiddleOf(s).x <= input[j] as real
  {
    MiddleBetween(s);
    assert s[0] in multiset(input) && s[|s| - 1] in multiset(input);
    i :| 0 <= i < |input| && input[i] == s[0];
    j :| 0 <= j < |input| && input[j] == s[|s| - 1];
  }

  /**
   * `getMedian(numbers)` over an array of integers. `after` is the argument
   * as the caller sees it afterwards: the same value for a non-array (the
   * assertion throws, the error is caught and `undefined` returned),
   * otherwise the array sorted ascending in place. An empty array reads
   * `numbers[-1] + numbers[0]`, i.e. `undefined + undefined`, giving `NaN`.
   */
  method GetMedian(numbers: Value) returns (after: Value, r: Median)
    requires numbers.Arr? ==> AllNumbers(numbers.elems)
    ensures !numbers.Arr? ==> after == numbers && r == NoMedian
    ensures numbers.Arr? ==> after.Arr? && AllNumbers(after.elems) && |after.elems| == |numbers.elems|
    ensures numbers.Arr? ==> Sorted(NumbersOf(after.elems))
    ensures numbers.Arr? ==> multiset(NumbersOf(after.elems)) == multiset(NumbersOf(numbers.elems))
    ensures numbers.Arr? && |numbers.elems| == 0 ==> r == NaN
    ensures numbers.Arr? && |numbers.elems| % 2 == 1 ==>
      r == Number(NumbersOf(after.elems)[|numbers.elems| / 2] as real)
    ensures numbers.Arr? && |numbers.elems| % 2 == 0 && |numbers.elems| > 0 ==>
      var n := |numbers.elems|;
      var s := NumbersOf(after.elems);
      r == Number((s[n / 2 - 1] + s[n / 2]) as real / 2.0)
    ensures numbers.Arr? && |numbers.elems| > 0 ==>
      && r.Number?
      && (exists i :: 0 <= i < |numbers.elems| && numbers.elems[i].n as real <= r.x)
      && (exists j :: 0 <= j < |numbers.elems| && r.x <= numbers.elems[j].n as real)
  {
    if Arrays.AssertArray(numbers).Fail? {
      return numbers, NoMedian;
    }
    var input := NumbersOf(numbers.elems);
    var s := SortAscending(input);
    assert |s| == |multiset(s)| == |input|;
    after := Arr(AsValues(s));
    assert NumbersOf(after.elems) == s;
    r := MiddleOf(s);
    if |s| > 0 {
      var i, j := MedianWithin(input, s);
      assert numbers.elems[i].n == input[i] && numbers.elems[j].n == input[j];
    }
  }
}
