/**
  The small array routines of halotools/utils/array_utils.py, over integer
  sequences: a length that treats scalars as length one, the index of the
  element nearest a value, a monotonicity classifier, the inverse of an
  argsort permutation, and the size check of random downsampling.
*/
module ArrayUtils {
  import opened Wrappers
  import opened Collections

  /** What custom_len can be handed: a non-iterable scalar, or something with a length. */
  datatype ArrayLike<T> = Scalar(item: T) | Iterable(items: seq<T>)

  /** The errors these routines raise (HalotoolsError, SyntaxError). */
  datatype UtilsError =
    | EmptyArray
    | TooFewElements
    | DownsampleTooLarge(requested: int, available: nat)

  /** `len(x)`, or 1 where `len` raises TypeError. */
  function CustomLen<T>(x: ArrayLike<T>): (n: nat)
    ensures x.Iterable? ==> n == |x.items|
    ensures x.Scalar? ==> n == 1
  {
    match x
    case Scalar(_) => 1
    case Iterable(items) => |items|
  }

  function Abs(x: int): nat
  {
    if x < 0 then -x else x
  }

  // ---------------------------------------------------------------------------
  // Index sequences, fancy indexing and argsort

  /** Every entry of p is a valid index into a sequence of length n. */
  predicate InRange(p: seq<int>, n: int)
  {
    forall i :: 0 <= i < |p| ==> 0 <= p[i] < n
  }

  /** p holds each of 0 .. |p|-1 exactly once. */
  predicate IsPermutation(p: seq<int>)
  {
    InRange(p, |p|) && Distinct(p)
  }

  /** NumPy fancy indexing `x[idx]`. */
  function Gather<T>(x: seq<T>, idx: seq<int>): seq<T>
    requires InRange(idx, |x|)
  {
    seq(|idx|, i requires 0 <= i < |idx| => x[idx[i]])
  }

  predicate Sorted(s: seq<int>)
  {
    forall i, j :: 0 <= i < j < |s| ==> s[i] <= s[j]
  }

  /** Visiting a in the order p meets its values in non-decreasing order. */
  predicate SortsBy(a: seq<int>, p: seq<int>)
    requires InRange(p, |a|)
  {
    forall i, j :: 0 <= i < j < |p| ==> a[p[i]] <= a[p[j]]
  }

  function Range(n: nat): (r: seq<int>)
    ensures |r| == n && forall i :: 0 <= i < n ==> r[i] == i
  {
    seq(n, i => i)
  }

  /** A duplicate-free sequence of n indices below n mentions every index below n. */
  lemma PermutationIsOnto(p: seq<int>)
    requires IsPermutation(p)
    ensures forall j :: 0 <= j < |p| ==> j in p
  {
    var n := |p|;
    var all := Elems(Range(n));
    DistinctCard(p);
    DistinctCard(Range(n));
    forall x | x in Elems(p) ensures x in all {
      assert Range(n)[x] == x;
    }
    forall j | 0 <= j < n ensures j in p {
      if j !in p {
        assert Range(n)[j] == j;
        assert Elems(p) <= all - {j};
        SubsetCard(Elems(p), all - {j});
      }
    }
  }

  /** Inserts position i into the ordering p, after every position whose value is at most a[i]. */
  function Insert(a: seq<int>, p: seq<int>, i: int): (r: seq<int>)
    requires 0 <= i < |a| && InRange(p, |a|)
    ensures |r| == |p| + 1
    ensures forall x :: x in r <==> x in p || x == i
    decreases |p|
  {
    if p == [] then [i]
    else if a[i] < a[p[0]] then [i] + p
    else
      var rest := Insert(a, p[1..], i);
      assert forall x :: x in p[1..] ==> x in p;
      assert p == [p[0]] + p[1..];
      [p[0]] + rest
  }

  lemma {:induction false} InsertDistinct(a: seq<int>, p: seq<int>, i: int)
    requires 0 <= i < |a| && InRange(p, |a|)
    requires Distinct(p) && i !in p
    ensures Distinct(Insert(a, p, i))
    decreases |p|
  {
    if p != [] && a[p[0]] <= a[i] {
      assert p[0] !in p[1..];
      InsertDistinct(a, p[1..], i);
      assert p[0] !in Insert(a, p[1..], i);
    }
  }

  lemma {:induction false} InsertSorted(a: seq<int>, p: seq<int>, i: int)
    requires 0 <= i < |a| && InRange(p, |a|)
    requires SortsBy(a, p)
    ensures InRange(Insert(a, p, i), |a|) && SortsBy(a, Insert(a, p, i))
    decreases |p|
  {
    var r := Insert(a, p, i);
    assert forall j :: 0 <= j < |r| ==> r[j] in r;
    if p != [] && a[p[0]] <= a[i] {
      var rest := Insert(a, p[1..], i);
      InsertSorted(a, p[1..], i);
      forall k | 0 <= k < |rest| ensures a[p[0]] <= a[rest[k]] {
        assert rest[k] in rest;
        if rest[k] != i {
          var m :| 0 <= m < |p[1..]| && p[1..][m] == rest[k];
          assert p[m + 1] == rest[k];
        }
      }
    }
  }

  lemma InsertInRange(a: seq<int>, p: seq<int>, i: int, n: int)
    requires 0 <= i < |a| && InRange(p, |a|)
    requires InRange(p, n) && i < n
    ensures InRange(Insert(a, p, i), n)
  {
    var r := Insert(a, p, i);
    forall j | 0 <= j < |r| ensures 0 <= r[j] < n {
      assert r[j] in r;
      if r[j] != i {
        var m :| 0 <= m < |p| && p[m] == r[j];
      }
    }
  }

  /** A stable argsort of a[..k]. */
  function ArgsortPrefix(a: seq<int>, k: nat): (p: seq<int>)
    requires k <= |a|
    ensures |p| == k && InRange(p, k) && Distinct(p) && SortsBy(a, p)
  {
    if k == 0 then []
    else
      var q := ArgsortPrefix(a, k - 1);
      assert InRange(q, |a|);
      assert k - 1 !in q;
      InsertDistinct(a, q, k - 1);
      InsertSorted(a, q, k - 1);
      var r := Insert(a, q, k - 1);
      InsertInRange(a, q, k - 1, k);
      r
  }

  /** `np.argsort(a)`: an ordering of all indices of a by non-decreasing value. */
  function Argsort(a: seq<int>): (p: seq<int>)
    ensures |p| == |a| && IsPermutation(p) && SortsBy(a, p)
  {
    ArgsortPrefix(a, |a|)
  }

  // ---------------------------------------------------------------------------
  // find_idx_nearest_val

  function SearchSortedFrom(s: seq<int>, v: int, lo: nat, hi: nat): (i: nat)
    requires lo <= hi <= |s| && Sorted(s)
    requires forall k :: 0 <= k < lo ==> s[k] < v
    requires forall k :: hi <= k < |s| ==> v <= s[k]
    ensures lo <= i <= hi
    ensures forall k :: 0 <= k < i ==> s[k] < v
    ensures forall k :: i <= k < |s| ==> v <= s[k]
    decreases hi - lo
  {
    if lo == hi then lo
    else
      var mid := (lo + hi) / 2;
      if s[mid] < v then SearchSortedFrom(s, v, mid + 1, hi)
      else SearchSortedFrom(s, v, lo, mid)
  }

  /** `np.searchsorted(s, v, side="left")`: the leftmost insertion point of v. */
  function SearchSortedLeft(s: seq<int>, v: int): (i: nat)
    requires Sorted(s)
    ensures i <= |s|
    ensures forall k :: 0 <= k < i ==> s[k] < v
    ensures forall k :: i <= k < |s| ==> v <= s[k]
  {
    SearchSortedFrom(s, v, 0, |s|)
  }

  /** `find_idx_nearest_val(array, value)`. */
  function FindIdxNearestVal(a: seq<int>, value: int): (r: Result<nat, UtilsError>)
    ensures r.Failure? <==> |a| == 0
    ensures r.Failure? ==> r.error == EmptyArray
    ensures r.Success? ==> r.value < |a|
  {
    if CustomLen(Iterable(a)) == 0 then Failure(EmptyArray)
    else
      var idxSorted := Argsort(a);
      var sortedArray := Gather(a, idxSorted);
      assert Sorted(sortedArray);
      var idx := SearchSortedLeft(sortedArray, value);
      Success(idxSorted[NearestPos(sortedArray, value, idx)])
  }

  /** The position find_idx_nearest_val picks in the sorted array, given the insertion point idx. */
  function NearestPos(s: seq<int>, value: int, idx: nat): (c: nat)
    requires 0 < |s| && idx <= |s|
    ensures c < |s|
  {
    if idx >= |s| then |s| - 1
    else if idx == 0 then 0
    else if Abs(value - s[idx - 1]) < Abs(value - s[idx]) then idx - 1
    else idx
  }

  lemma NearestPosIsClosest(s: seq<int>, value: int, idx: nat, pos: nat)
    requires Sorted(s) && idx <= |s| && pos < |s|
    requires forall k :: 0 <= k < idx ==> s[k] < value
    requires forall k :: idx <= k < |s| ==> value <= s[k]
    ensures Abs(value - s[NearestPos(s, value, idx)]) <= Abs(value - s[pos])
  {
    if idx >= |s| {
      assert s[pos] <= s[|s| - 1] < value;
    } else if idx == 0 {
      assert value <= s[0] <= s[pos];
    } else if pos < idx {
      assert s[pos] <= s[idx - 1] < value <= s[idx];
    } else {
      assert s[idx - 1] < value <= s[idx] <= s[pos];
    }
  }

  /** The result of find_idx_nearest_val, through the position it picks in the sorted array. */
  lemma FindIdxPicksNearestPos(a: seq<int>, value: int)
    requires |a| > 0
    ensures var p := Argsort(a);
      var s := Gather(a, p);
      var c := NearestPos(s, value, SearchSortedLeft(s, value));
      FindIdxNearestVal(a, value) == Success(p[c]) && a[p[c]] == s[c]
  {
  }

  /** No element of a is strictly closer to value than the one at the returned index. */
  lemma NearestIsClosest(a: seq<int>, value: int)
    requires |a| > 0
    ensures FindIdxNearestVal(a, value).Success?
    ensures var k := FindIdxNearestVal(a, value).value;
      forall j :: 0 <= j < |a| ==> Abs(value - a[k]) <= Abs(value - a[j])
  {
    var p := Argsort(a);
    var s := Gather(a, p);
    var idx := SearchSortedLeft(s, value);
    var c := NearestPos(s, value, idx);
    var k := FindIdxNearestVal(a, value).value;
    FindIdxPicksNearestPos(a, value);
    PermutationIsOnto(p);
    forall j | 0 <= j < |a| ensures Abs(value - a[k]) <= Abs(value - a[j]) {
      assert j in p;
      var pos :| 0 <= pos < |p| && p[pos] == j;
      assert a[j] == s[pos];
      NearestPosIsClosest(s, value, idx, pos);
    }
  }

  /**
    Between two equally near candidates the one at or above value wins: any
    element at or above value that is as near as the result has the result's value.
  */
  lemma NearestPrefersUpper(a: seq<int>, value: int)
    requires |a| > 0
    ensures FindIdxNearestVal(a, value).Success?
    ensures var k := FindIdxNearestVal(a, value).value;
      forall j :: 0 <= j < |a| && value <= a[j] && Abs(value - a[j]) <= Abs(value - a[k]) ==> a[j] == a[k]
  {
    var p := Argsort(a);
    var s := Gather(a, p);
    var idx := SearchSortedLeft(s, value);
    var k := FindIdxNearestVal(a, value).value;
    FindIdxPicksNearestPos(a, value);
    PermutationIsOnto(p);
    forall j | 0 <= j < |a| && value <= a[j] && Abs(value - a[j]) <= Abs(value - a[k])
      ensures a[j] == a[k]
    {
      assert j in p;
      var pos :| 0 <= pos < |p| && p[pos] == j;
      assert a[j] == s[pos];
      assert idx <= pos;
      if idx == 0 {
        assert s[0] <= s[pos];
      } else {
        assert s[idx] <= s[pos];
      }
    }
  }

  /** A value above every element gives an index of a largest element. */
  lemma NearestAboveAll(a: seq<int>, value: int)
    requires |a| > 0
    requires forall j :: 0 <= j < |a| ==> a[j] < value
    ensures FindIdxNearestVal(a, value).Success?
    ensures var k := FindIdxNearestVal(a, value).value;
      forall j :: 0 <= j < |a| ==> a[j] <= a[k]
  {
    NearestIsClosest(a, value);
  }

  /** A value at or below every element gives an index of a smallest element. */
  lemma NearestBelowAll(a: seq<int>, value: int)
    requires |a| > 0
    requires forall j :: 0 <= j < |a| ==> value <= a[j]
    ensures FindIdxNearestVal(a, value).Success?
    ensures var k := FindIdxNearestVal(a, value).value;
      forall j :: 0 <= j < |a| ==> a[k] <= a[j]
  {
    NearestIsClosest(a, value);
  }

  // ---------------------------------------------------------------------------
  // array_is_monotonic

  /** `np.diff(a)`. */
  function Diff(a: seq<int>): seq<int>
  {
    if |a| == 0 then [] else seq(|a| - 1, i requires 0 <= i < |a| - 1 => a[i + 1] - a[i])
  }

  /** `array_is_monotonic(array, strict)`: 1 increasing, -1 decreasing, 0 neither. */
  function ArrayIsMonotonic(a: seq<int>, strict: bool): (r: Result<int, UtilsError>)
    ensures r.Failure? <==> |a| < 3
    ensures r.Failure? ==> r.error == TooFewElements
    ensures r.Success? ==> -1 <= r.value <= 1
  {
    if CustomLen(Iterable(a)) < 3 then Failure(TooFewElements)
    else
      var d := Diff(a);
      if strict then
        if forall i :: 0 <= i < |d| ==> d[i] > 0 then Success(1)
        else if forall i :: 0 <= i < |d| ==> d[i] < 0 then Success(-1)
        else Success(0)
      else
        if forall i :: 0 <= i < |d| ==> d[i] >= 0 then Success(1)
        else if forall i :: 0 <= i < |d| ==> d[i] <= 0 then Success(-1)
        else Success(0)
  }

  /** x comes before y in the given direction, strictly or not. */
  predicate InOrder(x: int, y: int, increasing: bool, strict: bool)
  {
    if increasing then (if strict then x < y else x <= y)
    else (if strict then x > y else x >= y)
  }

  /** Every pair of positions of a, not just neighbours, is in order. */
  predicate Monotone(a: seq<int>, increasing: bool, strict: bool)
  {
    forall i, j :: 0 <= i < j < |a| ==> InOrder(a[i], a[j], increasing, strict)
  }

  lemma {:induction false} StepsGiveMonotone(a: seq<int>, increasing: bool, strict: bool, i: nat, j: nat)
    requires forall k :: 0 <= k < |a| - 1 ==> InOrder(a[k], a[k + 1], increasing, strict)
    requires i < j < |a|
    ensures InOrder(a[i], a[j], increasing, strict)
    decreases j - i
  {
    if i + 1 < j {
      StepsGiveMonotone(a, increasing, strict, i + 1, j);
      assert InOrder(a[i], a[i + 1], increasing, strict);
    }
  }

  /** Consecutive differences decide monotonicity of the whole array. */
  lemma StepsIffMonotone(a: seq<int>, increasing: bool, strict: bool)
    ensures Monotone(a, increasing, strict) <==>
      forall k :: 0 <= k < |a| - 1 ==> InOrder(a[k], a[k + 1], increasing, strict)
  {
    if forall k :: 0 <= k < |a| - 1 ==> InOrder(a[k], a[k + 1], increasing, strict) {
      forall i, j | 0 <= i < j < |a| ensures InOrder(a[i], a[j], increasing, strict) {
        StepsGiveMonotone(a, increasing, strict, i, j);
      }
    }
  }

  /**
    The flag is 1 exactly for an increasing array, -1 exactly for a decreasing
    one that is not increasing, and 0 otherwise ("increasing" being strict
    or not as requested).
  */
  lemma ArrayIsMonotonicClassifies(a: seq<int>, strict: bool)
    requires |a| >= 3
    ensures ArrayIsMonotonic(a, strict) == Success(1) <==> Monotone(a, true, strict)
    ensures ArrayIsMonotonic(a, strict) == Success(-1) <==>
      !Monotone(a, true, strict) && Monotone(a, false, strict)
    ensures ArrayIsMonotonic(a, strict) == Success(0) <==>
      !Monotone(a, true, strict) && !Monotone(a, false, strict)
  {
    var d := Diff(a);
    var up := forall i :: 0 <= i < |d| ==> InOrder(0, d[i], true, strict);
    var down := forall i :: 0 <= i < |d| ==> InOrder(0, d[i], false, strict);
    DiffsMatchSteps(a, true, strict);
    DiffsMatchSteps(a, false, strict);
    assert ArrayIsMonotonic(a, strict) == if up then Success(1) else if down then Success(-1) else Success(0);
  }

  /** The sign test on one difference is the order test on the two neighbours. */
  lemma DiffsMatchSteps(a: seq<int>, increasing: bool, strict: bool)
    requires |a| > 0
    ensures Monotone(a, increasing, strict) <==>
      forall i :: 0 <= i < |Diff(a)| ==> InOrder(0, Diff(a)[i], increasing, strict)
  {
    StepsIffMonotone(a, increasing, strict);
    var d := Diff(a);
    assert forall i :: 0 <= i < |d| ==>
      (InOrder(0, d[i], increasing, strict) <==> InOrder(a[i], a[i + 1], increasing, strict));
  }

  /** A constant array counts as increasing, but not as strictly increasing. */
  lemma ConstantArrayFlags(a: seq<int>)
    requires |a| >= 3 && forall i :: 0 <= i < |a| ==> a[i] == a[0]
    ensures ArrayIsMonotonic(a, false) == Success(1)
    ensures ArrayIsMonotonic(a, true) == Success(0)
  {
    assert Diff(a)[0] == 0;
  }

  // ---------------------------------------------------------------------------
  // randomly_downsample_data

  /** Where the Python slice `s[0:stop]` of a length-n sequence ends. */
  function PySliceStop(stop: int, n: nat): (e: nat)
    ensures e <= n
    ensures 0 <= stop <= n ==> e == stop
    ensures stop < 0 && -stop <= n ==> e == n + stop
    ensures stop + n < 0 ==> e == 0
    ensures stop > n ==> e == n
  {
    if stop < 0 then (if n + stop < 0 then 0 else n + stop)
    else if stop > n then n
    else stop
  }

  /**
    `randomly_downsample_data(array, num_downsample)` with the random numbers
    drawn by NumPy given as `randomizer`, one per row.
  */
  function RandomlyDownsampleData<T>(a: seq<T>, numDownsample: int, randomizer: seq<int>): (r: Result<seq<T>, UtilsError>)
    requires |randomizer| == |a|
    ensures r.Failure? <==> numDownsample > |a|
    ensures r.Failure? ==> r.error == DownsampleTooLarge(numDownsample, |a|)
    ensures r.Success? && 0 <= numDownsample ==> |r.value| == numDownsample
    ensures r.Success? && numDownsample < 0 ==>
      |r.value| == if -numDownsample <= |a| then |a| + numDownsample else 0
  {
    var inputArrayLength := CustomLen(Iterable(a));
    if numDownsample > inputArrayLength then
      Failure(DownsampleTooLarge(numDownsample, inputArrayLength))
    else
      var idxSorted := Argsort(randomizer);
      Success(Gather(a, idxSorted[..PySliceStop(numDownsample, |idxSorted|)]))
  }

  /**
    A downsample takes each row at most once, and takes the rows whose random
    numbers are smallest.
  */
  lemma DownsampleTakesSmallestKeys<T>(a: seq<T>, numDownsample: int, randomizer: seq<int>)
    requires |randomizer| == |a| && numDownsample <= |a|
    ensures var r := RandomlyDownsampleData(a, numDownsample, randomizer);
      r.Success? &&
      exists p :: |p| == |r.value| && InRange(p, |a|) && Distinct(p) && Gather(a, p) == r.value &&
        forall i, j :: 0 <= i < |p| && 0 <= j < |a| && j !in p ==> randomizer[p[i]] <= randomizer[j]
  {
    var q := Argsort(randomizer);
    var p := q[..PySliceStop(numDownsample, |q|)];
    var r := RandomlyDownsampleData(a, numDownsample, randomizer);
    assert Gather(a, p) == r.value;
    PermutationIsOnto(q);
    forall i, j | 0 <= i < |p| && 0 <= j < |a| && j !in p
      ensures randomizer[p[i]] <= randomizer[j]
    {
      assert j in q;
      var pos :| 0 <= pos < |q| && q[pos] == j;
      assert i < pos;
    }
  }

  // ---------------------------------------------------------------------------
  // unsorting_indices

  /** The array after scattering `u[s[i]] = i` for the first k entries, over zeros. */
  function Scatter(s: seq<int>, k: nat): (u: seq<int>)
    requires k <= |s| && InRange(s, |s|)
    ensures |u| == |s|
  {
    if k == 0 then seq(|s|, _ => 0)
    else Scatter(s, k - 1)[s[k - 1] := k - 1]
  }

  /** `unsorting_indices(sorting_indices)`: zero-allocate, then scatter positions in place. */
  method UnsortingIndices(sortingIndices: seq<int>) returns (u: array<int>)
    requires InRange(sortingIndices, |sortingIndices|)
    ensures fresh(u)
    ensures u[..] == Scatter(sortingIndices, |sortingIndices|)
  {
    var npts := |sortingIndices|;
    u := new int[npts](_ => 0);
    for i := 0 to npts
      invariant u[..] == Scatter(sortingIndices, i)
    {
      u[sortingIndices[i]] := i;
    }
  }

  lemma {:induction false} ScatterAt(s: seq<int>, k: nat, i: nat)
    requires IsPermutation(s) && i < k <= |s|
    ensures Scatter(s, k)[s[i]] == i
  {
    if i < k - 1 {
      ScatterAt(s, k - 1, i);
      assert s[k - 1] != s[i];
    }
  }

  /** For a permutation s, the unsorting indices u are a permutation and inverse to s on both sides. */
  lemma UnsortingInverts(s: seq<int>)
    requires IsPermutation(s)
    ensures var u := Scatter(s, |s|);
      IsPermutation(u) &&
      (forall i :: 0 <= i < |s| ==> u[s[i]] == i) &&
      (forall j :: 0 <= j < |s| ==> 0 <= u[j] < |s| && s[u[j]] == j)
  {
    var u := Scatter(s, |s|);
    forall i | 0 <= i < |s| ensures u[s[i]] == i {
      ScatterAt(s, |s|, i);
    }
    PermutationIsOnto(s);
    forall j | 0 <= j < |s| ensures 0 <= u[j] < |s| && s[u[j]] == j {
      assert j in s;
      var i :| 0 <= i < |s| && s[i] == j;
      assert u[s[i]] == i;
    }
  }

  /** `x[idx_sorted][unsorting_indices(idx_sorted)] == x`. */
  lemma UnsortRoundTrip<T>(x: seq<T>, s: seq<int>)
    requires |x| == |s| && IsPermutation(s)
    ensures var u := Scatter(s, |s|);
      InRange(u, |s|) && Gather(Gather(x, s), u) == x
  {
    UnsortingInverts(s);
  }
}
