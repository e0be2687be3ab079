/*
 * The container helpers of include/qpl/algorithm.hpp: container_sum, combine_containers,
 * vector_0_to_n, min_max_vector and the vector_including_values / vector_excluding_values
 * filters with their many-target overloads. A std::vector is a seq; element arithmetic is
 * on unbounded int.
 */
module ContainerAlgorithms {

  // ---------------------------------------------------------------------
  // container_sum
  // ---------------------------------------------------------------------

  /** The sum of a sequence, adding elements from the front. */
  function Sum(s: seq<int>): int
  {
    if |s| == 0 then 0 else Sum(s[..|s| - 1]) + s[|s| - 1]
  }

  /** The sum of a concatenation is the sum of the parts. */
  lemma {:induction false} SumConcat(a: seq<int>, b: seq<int>)
    ensures Sum(a + b) == Sum(a) + Sum(b)
    decreases |b|
  {
    if |b| > 0 {
      assert (a + b)[..|a + b| - 1] == a + b[..|b| - 1];
      SumConcat(a, b[..|b| - 1]);
    } else {
      assert a + b == a;
    }
  }

  /**
   * container_sum (algorithm.hpp:340-351): starts from data[0] and adds data[1..] in order.
   * Reading data[0] of an empty container is undefined, so the container must not be empty.
   */
  method ContainerSum(data: seq<int>) returns (sum: int)
    requires |data| >= 1
    ensures sum == Sum(data)
  {
    sum := data[0];
    assert data[..1] == [data[0]];
    var i := 1;
    while i < |data|
      invariant 1 <= i <= |data|
      invariant sum == Sum(data[..i])
    {
      assert data[..i + 1][..i] == data[..i];
      sum := sum + data[i];
      i := i + 1;
    }
    assert data[..i] == data;
  }

  // ---------------------------------------------------------------------
  // combine_containers
  // ---------------------------------------------------------------------

  /**
   * combine_containers (algorithm.hpp:353-357): the source's elements are inserted after the
   * destination's, so the destination keeps its elements as a prefix and the source follows.
   */
  method CombineContainers<T>(destination: seq<T>, source: seq<T>) returns (combined: seq<T>)
    ensures |combined| == |destination| + |source|
    ensures combined[..|destination|] == destination
    ensures combined[|destination|..] == source
    ensures multiset(combined) == multiset(destination) + multiset(source)
  {
    combined := destination + source;
    assert combined[..|destination|] == destination;
    assert combined[|destination|..] == source;
  }

  /** Combining integer containers adds their sums. */
  lemma CombinedSum(destination: seq<int>, source: seq<int>, combined: seq<int>)
    requires |combined| == |destination| + |source|
    requires combined[..|destination|] == destination && combined[|destination|..] == source
    ensures Sum(combined) == Sum(destination) + Sum(source)
  {
    assert combined == destination + source;
    SumConcat(destination, source);
  }

  // ---------------------------------------------------------------------
  // vector_0_to_n
  // ---------------------------------------------------------------------

  /** vector_0_to_n (algorithm.hpp:367-372): n consecutive values counting up from shift. */
  function Vector0ToN(n: nat, shift: int): (r: seq<int>)
    ensures |r| == n
    ensures forall k :: 0 <= k < n ==> r[k] == shift + k
  {
    if n == 0 then [] else Vector0ToN(n - 1, shift) + [shift + n - 1]
  }

  /** Twice the sum of vector_0_to_n(n, shift) is n * (2 * shift + n - 1). */
  lemma {:induction false} Vector0ToNSum(n: nat, shift: int)
    ensures 2 * Sum(Vector0ToN(n, shift)) == n * (2 * shift + n - 1)
  {
    if n > 0 {
      var r := Vector0ToN(n, shift);
      assert r[..n - 1] == Vector0ToN(n - 1, shift);
      Vector0ToNSum(n - 1, shift);
    }
  }

  /** The values of vector_0_to_n are strictly increasing, hence distinct. */
  lemma Vector0ToNIncreasing(n: nat, shift: int)
    ensures forall j, k :: 0 <= j < k < n ==> Vector0ToN(n, shift)[j] < Vector0ToN(n, shift)[k]
  {
  }

  // ---------------------------------------------------------------------
  // min_max_vector
  // ---------------------------------------------------------------------

  /**
   * min_max_vector (algorithm.hpp:374-378): the smallest and the largest element, as
   * std::minmax_element finds them. Dereferencing the result for an empty container is
   * undefined, so the container must not be empty.
   */
  function MinMaxVector(data: seq<int>): (r: (int, int))
    requires |data| >= 1
    ensures r.0 in data && r.1 in data
    ensures forall k :: 0 <= k < |data| ==> r.0 <= data[k] <= r.1
  {
    if |data| == 1 then (data[0], data[0])
    else
      var (lo, hi) := MinMaxVector(data[..|data| - 1]);
      assert forall k :: 0 <= k < |data| - 1 ==> data[..|data| - 1][k] == data[k];
      var last := data[|data| - 1];
      (if last < lo then last else lo, if last > hi then last else hi)
  }

  // ---------------------------------------------------------------------
  // vector_including_values / vector_excluding_values
  // ---------------------------------------------------------------------

  /** The elements of s that occur in target, in the order of s, duplicates kept. */
  function KeptIn<T(==)>(target: seq<T>, s: seq<T>): seq<T>
  {
    if |s| == 0 then []
    else KeptIn(target, s[..|s| - 1]) + (if s[|s| - 1] in target then [s[|s| - 1]] else [])
  }

  /** The elements of s that do not occur in target, in the order of s, duplicates kept. */
  function DroppedIn<T(==)>(target: seq<T>, s: seq<T>): seq<T>
  {
    if |s| == 0 then []
    else DroppedIn(target, s[..|s| - 1]) + (if s[|s| - 1] !in target then [s[|s| - 1]] else [])
  }

  /** A non-empty sequence holds its last element once more than the rest. */
  lemma MultisetOfLast<T>(s: seq<T>)
    requires |s| > 0
    ensures multiset(s) == multiset(s[..|s| - 1]) + multiset{s[|s| - 1]}
  {
    assert s == s[..|s| - 1] + [s[|s| - 1]];
  }

  /** Each value occurs in the kept list exactly as often as in s when it is in target, else never. */
  lemma {:induction false} KeptInCounts<T>(target: seq<T>, s: seq<T>, x: T)
    ensures multiset(KeptIn(target, s))[x] == if x in target then multiset(s)[x] else 0
  {
    if |s| > 0 {
      var init, last := s[..|s| - 1], s[|s| - 1];
      KeptInCounts(target, init, x);
      MultisetOfLast(s);
    }
  }

  /** Each value occurs in the dropped list exactly as often as in s when it is not in target, else never. */
  lemma {:induction false} DroppedInCounts<T>(target: seq<T>, s: seq<T>, x: T)
    ensures multiset(DroppedIn(target, s))[x] == if x !in target then multiset(s)[x] else 0
  {
    if |s| > 0 {
      var init, last := s[..|s| - 1], s[|s| - 1];
      DroppedInCounts(target, init, x);
      MultisetOfLast(s);
    }
  }

  /** Keeping and dropping the same target split s: together they hold each element once. */
  lemma {:induction false} KeptAndDroppedSplit<T>(target: seq<T>, s: seq<T>)
    ensures multiset(KeptIn(target, s)) + multiset(DroppedIn(target, s)) == multiset(s)
  {
    if |s| > 0 {
      var init, last := s[..|s| - 1], s[|s| - 1];
      KeptAndDroppedSplit(target, init);
      MultisetOfLast(s);
    }
  }

  /** Membership in the kept list: an element of s that is also in target. */
  lemma KeptInMembers<T>(target: seq<T>, s: seq<T>)
    ensures forall x :: x in KeptIn(target, s) <==> x in s && x in target
  {
    forall x
      ensures x in KeptIn(target, s) <==> x in s && x in target
    {
      KeptInCounts(target, s, x);
    }
  }

  /** Membership in the dropped list: an element of s that is not in target. */
  lemma DroppedInMembers<T>(target: seq<T>, s: seq<T>)
    ensures forall x :: x in DroppedIn(target, s) <==> x in s && x !in target
  {
    forall x
      ensures x in DroppedIn(target, s) <==> x in s && x !in target
    {
      DroppedInCounts(target, s, x);
    }
  }

  /** Filtering keeps the order: filtering a concatenation concatenates the filtered parts. */
  lemma {:induction false} KeptInConcat<T>(target: seq<T>, a: seq<T>, b: seq<T>)
    ensures KeptIn(target, a + b) == KeptIn(target, a) + KeptIn(target, b)
    decreases |b|
  {
    if |b| == 0 {
      assert a + b == a;
    } else {
      assert (a + b)[..|a + b| - 1] == a + b[..|b| - 1];
      KeptInConcat(target, a, b[..|b| - 1]);
    }
  }

  /** Dropping keeps the order: dropping from a concatenation concatenates the dropped parts. */
  lemma {:induction false} DroppedInConcat<T>(target: seq<T>, a: seq<T>, b: seq<T>)
    ensures DroppedIn(target, a + b) == DroppedIn(target, a) + DroppedIn(target, b)
    decreases |b|
  {
    if |b| == 0 {
      assert a + b == a;
    } else {
      assert (a + b)[..|a + b| - 1] == a + b[..|b| - 1];
      DroppedInConcat(target, a, b[..|b| - 1]);
    }
  }

  /**
   * vector_including_values (algorithm.hpp:380-391): for each value of compare, in order, the
   * value is appended when std::find locates it in target.
   */
  method VectorIncludingValues<T(==)>(target: seq<T>, compare: seq<T>) returns (result: seq<T>)
    ensures result == KeptIn(target, compare)
  {
    result := [];
    var i := 0;
    while i < |compare|
      invariant 0 <= i <= |compare|
      invariant result == KeptIn(target, compare[..i])
    {
      assert compare[..i + 1][..i] == compare[..i];
      if compare[i] in target {
        result := result + [compare[i]];
      }
      i := i + 1;
    }
    assert compare[..i] == compare;
  }

  /**
   * vector_excluding_values (algorithm.hpp:401-412): for each value of compare, in order, the
   * value is appended when std::find does not locate it in target.
   */
  method VectorExcludingValues<T(==)>(target: seq<T>, compare: seq<T>) returns (result: seq<T>)
    ensures result == DroppedIn(target, compare)
  {
    result := [];
    var i := 0;
    while i < |compare|
      invariant 0 <= i <= |compare|
      invariant result == DroppedIn(target, compare[..i])
    {
      assert compare[..i + 1][..i] == compare[..i];
      if compare[i] !in target {
        result := result + [compare[i]];
      }
      i := i + 1;
    }
    assert compare[..i] == compare;
  }

  // ---------------------------------------------------------------------
  // the overloads over many targets
  // ---------------------------------------------------------------------

  /** x occurs in every one of the targets. */
  predicate InEvery<T(==)>(targets: seq<seq<T>>, x: T)
  {
    forall k :: 0 <= k < |targets| ==> x in targets[k]
  }

  /** x occurs in none of the targets. */
  predicate InNone<T(==)>(targets: seq<seq<T>>, x: T)
  {
    forall k :: 0 <= k < |targets| ==> x !in targets[k]
  }

  /** The elements of s that occur in every target, in the order of s. */
  function KeptInAll<T(==)>(targets: seq<seq<T>>, s: seq<T>): seq<T>
  {
    if |s| == 0 then []
    else KeptInAll(targets, s[..|s| - 1]) + (if InEvery(targets, s[|s| - 1]) then [s[|s| - 1]] else [])
  }

  /** The elements of s that occur in no target, in the order of s. */
  function KeptInNone<T(==)>(targets: seq<seq<T>>, s: seq<T>): seq<T>
  {
    if |s| == 0 then []
    else KeptInNone(targets, s[..|s| - 1]) + (if InNone(targets, s[|s| - 1]) then [s[|s| - 1]] else [])
  }

  /** Each value occurs in KeptInAll as often as in s when every target holds it, else never. */
  lemma {:induction false} KeptInAllCounts<T>(targets: seq<seq<T>>, s: seq<T>, x: T)
    ensures multiset(KeptInAll(targets, s))[x] == if InEvery(targets, x) then multiset(s)[x] else 0
  {
    if |s| > 0 {
      KeptInAllCounts(targets, s[..|s| - 1], x);
      MultisetOfLast(s);
    }
  }

  /** Each value occurs in KeptInNone as often as in s when no target holds it, else never. */
  lemma {:induction false} KeptInNoneCounts<T>(targets: seq<seq<T>>, s: seq<T>, x: T)
    ensures multiset(KeptInNone(targets, s))[x] == if InNone(targets, x) then multiset(s)[x] else 0
  {
    if |s| > 0 {
      KeptInNoneCounts(targets, s[..|s| - 1], x);
      MultisetOfLast(s);
    }
  }

  /** With no targets at all, both many-target filters keep everything. */
  lemma {:induction false} NoTargetsKeepAll<T>(s: seq<T>)
    ensures KeptInAll([], s) == s && KeptInNone([], s) == s
  {
    if |s| > 0 {
      NoTargetsKeepAll(s[..|s| - 1]);
      assert s[..|s| - 1] + [s[|s| - 1]] == s;
    }
  }

  /** Keeping, from a list drawn from c, what KeptIn(target, c) holds is keeping what target holds. */
  lemma {:induction false} KeptInNarrowed<T>(target: seq<T>, c: seq<T>, s: seq<T>)
    requires forall x :: x in s ==> x in c
    ensures KeptIn(KeptIn(target, c), s) == KeptIn(target, s)
  {
    if |s| > 0 {
      KeptInMembers(target, c);
      assert s[|s| - 1] in s;
      KeptInNarrowed(target, c, s[..|s| - 1]);
    }
  }

  /** Keeping, from a list drawn from c, what DroppedIn(target, c) holds is dropping what target holds. */
  lemma {:induction false} KeptInDropped<T>(target: seq<T>, c: seq<T>, s: seq<T>)
    requires forall x :: x in s ==> x in c
    ensures KeptIn(DroppedIn(target, c), s) == DroppedIn(target, s)
  {
    if |s| > 0 {
      DroppedInMembers(target, c);
      assert s[|s| - 1] in s;
      KeptInDropped(target, c, s[..|s| - 1]);
    }
  }

  /** Keeping what one more target holds extends the many-target filter by that target. */
  lemma {:induction false} KeptInAllStep<T>(targets: seq<seq<T>>, target: seq<T>, c: seq<T>)
    ensures KeptIn(target, KeptInAll(targets, c)) == KeptInAll(targets + [target], c)
  {
    if |c| > 0 {
      var x := c[|c| - 1];
      var rest := KeptInAll(targets, c[..|c| - 1]);
      var tail := if InEvery(targets, x) then [x] else [];
      KeptInAllStep(targets, target, c[..|c| - 1]);
      KeptInConcat(target, rest, tail);
      assert tail == [] || tail[..0] == [];
      assert InEvery(targets + [target], x) <==> InEvery(targets, x) && x in target by {
        assert forall k :: 0 <= k < |targets| ==> (targets + [target])[k] == targets[k];
        assert (targets + [target])[|targets|] == target;
      }
    }
  }

  /** Dropping what one more target holds extends the no-target filter by that target. */
  lemma {:induction false} KeptInNoneStep<T>(targets: seq<seq<T>>, target: seq<T>, c: seq<T>)
    ensures DroppedIn(target, KeptInNone(targets, c)) == KeptInNone(targets + [target], c)
  {
    if |c| > 0 {
      var x := c[|c| - 1];
      var rest := KeptInNone(targets, c[..|c| - 1]);
      var tail := if InNone(targets, x) then [x] else [];
      KeptInNoneStep(targets, target, c[..|c| - 1]);
      DroppedInConcat(target, rest, tail);
      assert tail == [] || tail[..0] == [];
      assert InNone(targets + [target], x) <==> InNone(targets, x) && x !in target by {
        assert forall k :: 0 <= k < |targets| ==> (targets + [target])[k] == targets[k];
        assert (targets + [target])[|targets|] == target;
      }
    }
  }

  /** The many-target filters only ever hold elements of the list they filter. */
  lemma FilteredFromSource<T>(targets: seq<seq<T>>, s: seq<T>)
    ensures forall x :: x in KeptInAll(targets, s) ==> x in s
    ensures forall x :: x in KeptInNone(targets, s) ==> x in s
  {
    forall x
      ensures (x in KeptInAll(targets, s) ==> x in s) && (x in KeptInNone(targets, s) ==> x in s)
    {
      KeptInAllCounts(targets, s, x);
      KeptInNoneCounts(targets, s, x);
    }
  }

  /** The many-target loops start from compare itself and end with every target taken. */
  lemma ManyTargetsEnds<T>(targets: seq<seq<T>>, compare: seq<T>)
    ensures KeptInAll(targets[..0], compare) == compare && KeptInNone(targets[..0], compare) == compare
    ensures KeptInAll(targets[..|targets|], compare) == KeptInAll(targets, compare)
    ensures KeptInNone(targets[..|targets|], compare) == KeptInNone(targets, compare)
  {
    assert targets[..0] == [];
    assert targets[..|targets|] == targets;
    NoTargetsKeepAll(compare);
  }

  /** One round of the many-target including loop moves the filter on by one target. */
  lemma IncludingAllStep<T>(targets: seq<seq<T>>, i: nat, compare: seq<T>)
    requires i < |targets|
    ensures KeptIn(KeptIn(targets[i], compare), KeptInAll(targets[..i], compare))
         == KeptInAll(targets[..i + 1], compare)
  {
    FilteredFromSource(targets[..i], compare);
    KeptInNarrowed(targets[i], compare, KeptInAll(targets[..i], compare));
    KeptInAllStep(targets[..i], targets[i], compare);
    assert targets[..i + 1] == targets[..i] + [targets[i]];
  }

  /** One round of the many-target excluding loop moves the filter on by one target. */
  lemma ExcludingAllStep<T>(targets: seq<seq<T>>, i: nat, compare: seq<T>)
    requires i < |targets|
    ensures KeptIn(DroppedIn(targets[i], compare), KeptInNone(targets[..i], compare))
         == KeptInNone(targets[..i + 1], compare)
  {
    FilteredFromSource(targets[..i], compare);
    KeptInDropped(targets[i], compare, KeptInNone(targets[..i], compare));
    KeptInNoneStep(targets[..i], targets[i], compare);
    assert targets[..i + 1] == targets[..i] + [targets[i]];
  }

  /**
   * vector_including_values over many targets (algorithm.hpp:392-400): starting from compare,
   * each target narrows the running list to the values found in that target, so the result is
   * compare's values that occur in every target, in compare's order.
   */
  method VectorIncludingValuesAll<T(==)>(targets: seq<seq<T>>, compare: seq<T>) returns (sum: seq<T>)
    ensures sum == KeptInAll(targets, compare)
  {
    sum := compare;
    ManyTargetsEnds(targets, compare);
    var i := 0;
    while i < |targets|
      invariant 0 <= i <= |targets|
      invariant sum == KeptInAll(targets[..i], compare)
    {
      var v := VectorIncludingValues(targets[i], compare);
      IncludingAllStep(targets, i, compare);
      sum := VectorIncludingValues(v, sum);
      i := i + 1;
    }
  }

  /**
   * vector_excluding_values over many targets (algorithm.hpp:413-421): starting from compare,
   * each target narrows the running list to the values of compare missing from that target, so
   * the result is compare's values that occur in no target, in compare's order.
   */
  method VectorExcludingValuesAll<T(==)>(targets: seq<seq<T>>, compare: seq<T>) returns (sum: seq<T>)
    ensures sum == KeptInNone(targets, compare)
  {
    sum := compare;
    ManyTargetsEnds(targets, compare);
    var i := 0;
    while i < |targets|
      invariant 0 <= i <= |targets|
      invariant sum == KeptInNone(targets[..i], compare)
    {
      var v := VectorExcludingValues(targets[i], compare);
      ExcludingAllStep(targets, i, compare);
      sum := VectorIncludingValues(v, sum);
      i := i + 1;
    }
  }
}
