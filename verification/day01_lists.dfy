/** Day 1: two columns of location ids, compared pairwise after sorting
    (total distance) and by occurrence counts (similarity score). */
module LocationLists {
  import opened Wrappers
  import opened Ints

  /** One input line, already split on whitespace and parsed to integers. */
  type Line = seq<int>

  predicate Sorted(s: seq<int>) {
    forall i, j :: 0 <= i < j < |s| ==> s[i] <= s[j]
  }

  /** `split_arrays`: the first and second token of every line, one entry per
      line. A line with fewer than two tokens makes the source `unwrap` fail. */
  function SplitArrays(lines: seq<Line>): (r: Option<(seq<int>, seq<int>)>)
    ensures r.Some? <==> forall i :: 0 <= i < |lines| ==> |lines[i]| >= 2
    ensures r.Some? ==> |r.value.0| == |lines| && |r.value.1| == |lines|
    ensures r.Some? ==> forall i :: 0 <= i < |lines| ==>
                          r.value.0[i] == lines[i][0] && r.value.1[i] == lines[i][1]
  {
    if |lines| == 0 then Some(([], []))
    else if |lines[0]| < 2 then None
    else
      match SplitArrays(lines[1..])
      case None => None
      case Some(rest) => Some(([lines[0][0]] + rest.0, [lines[0][1]] + rest.1))
  }

  /** `calculate_sum_of_differences`: |a[i] - b[i]| summed over the zipped
      prefix (the shorter length). */
  function SumOfDifferences(a: seq<int>, b: seq<int>): (r: int)
    ensures r >= 0
    ensures r == 0 <==> forall i :: 0 <= i < |a| && i < |b| ==> a[i] == b[i]
  {
    if |a| == 0 || |b| == 0 then 0
    else Abs(a[0] - b[0]) + SumOfDifferences(a[1..], b[1..])
  }

  lemma {:induction false} SumOfDifferencesSymmetric(a: seq<int>, b: seq<int>)
    ensures SumOfDifferences(a, b) == SumOfDifferences(b, a)
  {
    if |a| != 0 && |b| != 0 {
      SumOfDifferencesSymmetric(a[1..], b[1..]);
    }
  }

  /** Reference for the similarity score: every entry of `a` weighted by the
      number of its occurrences in `b` (zero when absent). */
  function WeightedSpec(a: seq<int>, b: seq<int>): int {
    if |a| == 0 then 0
    else WeightedSpec(a[..|a| - 1], b) + a[|a| - 1] * multiset(b)[a[|a| - 1]]
  }

  /** `calculate_weighted_sum`: first a lookup of occurrence counts in `b`,
      then one pass over `a`. */
  method CalculateWeightedSum(a: seq<int>, b: seq<int>) returns (sum: int)
    ensures sum == WeightedSpec(a, b)
  {
    var lookup: map<int, int> := map[];
    var k := 0;
    while k < |b|
      invariant 0 <= k <= |b|
      invariant forall x :: x in lookup <==> x in b[..k]
      invariant forall x :: x in lookup ==> lookup[x] == multiset(b[..k])[x]
    {
      assert b[..k + 1] == b[..k] + [b[k]];
      var count := if b[k] in lookup then lookup[b[k]] else 0;
      lookup := lookup[b[k] := count + 1];
      k := k + 1;
    }
    assert b[..k] == b;
    sum := 0;
    k := 0;
    while k < |a|
      invariant 0 <= k <= |a|
      invariant sum == WeightedSpec(a[..k], b)
      invariant forall x :: x in lookup <==> x in b
      invariant forall x :: x in lookup ==> lookup[x] == multiset(b)[x]
    {
      assert a[..k + 1][..k] == a[..k];
      if a[k] in lookup {
        sum := sum + a[k] * lookup[a[k]];
      } else {
        assert a[k] !in b;
      }
      k := k + 1;
    }
    assert a[..k] == a;
  }

  lemma {:induction false} WeightedSpecAppend(u: seq<int>, v: seq<int>, b: seq<int>)
    ensures WeightedSpec(u + v, b) == WeightedSpec(u, b) + WeightedSpec(v, b)
    decreases |v|
  {
    if |v| == 0 {
      assert u + v == u;
    } else {
      var n := |v| - 1;
      assert (u + v)[..|u + v| - 1] == u + v[..n];
      WeightedSpecAppend(u, v[..n], b);
    }
  }

  lemma WeightedSpecRemove(s: seq<int>, j: nat, b: seq<int>)
    requires j < |s|
    ensures WeightedSpec(s, b)
            == WeightedSpec(s[..j] + s[j + 1..], b) + s[j] * multiset(b)[s[j]]
  {
    assert s == s[..j] + ([s[j]] + s[j + 1..]);
    WeightedSpecAppend(s[..j], [s[j]] + s[j + 1..], b);
    WeightedSpecAppend([s[j]], s[j + 1..], b);
    WeightedSpecAppend(s[..j], s[j + 1..], b);
    assert [s[j]][..0] == [];
  }

  /** The similarity score does not depend on the order of the first column,
      so sorting it before `calculate_weighted_sum` changes nothing. */
  lemma {:induction false} WeightedSpecPermutation(a1: seq<int>, a2: seq<int>, b: seq<int>)
    requires multiset(a1) == multiset(a2)
    ensures WeightedSpec(a1, b) == WeightedSpec(a2, b)
    decreases |a1|
  {
    if |a1| > 0 {
      var n := |a1| - 1;
      var x := a1[n];
      var j := PermutationIndex(a1, a2);
      var rest := a2[..j] + a2[j + 1..];
      WeightedSpecPermutation(a1[..n], rest, b);
      WeightedSpecRemove(a2, j, b);
    }
  }

  /** Where the last element of `a1` sits in its permutation `a2`, and what
      is left of both once it is removed. */
  lemma PermutationIndex(a1: seq<int>, a2: seq<int>) returns (j: nat)
    requires |a1| > 0 && multiset(a1) == multiset(a2)
    ensures j < |a2| && a2[j] == a1[|a1| - 1]
    ensures multiset(a1[..|a1| - 1]) == multiset(a2[..j] + a2[j + 1..])
  {
    var n := |a1| - 1;
    var x := a1[n];
    assert a1 == a1[..n] + [x];
    assert x in multiset(a2);
    j :| 0 <= j < |a2| && a2[j] == x;
    var rest := a2[..j] + a2[j + 1..];
    assert a2 == a2[..j] + [x] + a2[j + 1..];
    assert multiset(rest) == multiset(a2[..j]) + multiset(a2[j + 1..]);
    assert multiset(a1[..n]) == multiset(a1) - multiset{x};
    assert multiset(rest) == multiset(a2) - multiset{x};
  }

  /** The occurrence count is taken from `b` as a multiset, so reordering `b`
      does not change the score either. */
  lemma WeightedSpecSecondPermutation(a: seq<int>, b1: seq<int>, b2: seq<int>)
    requires multiset(b1) == multiset(b2)
    ensures WeightedSpec(a, b1) == WeightedSpec(a, b2)
  {
  }

  function Insert(x: int, s: seq<int>): (r: seq<int>)
    requires Sorted(s)
    ensures Sorted(r)
    ensures multiset(r) == multiset(s) + multiset{x}
    ensures forall k :: 0 <= k < |r| ==> r[k] == x || r[k] in s
  {
    if |s| == 0 then [x]
    else if x <= s[0] then [x] + s
    else
      var t := Insert(x, s[1..]);
      assert forall k :: 0 <= k < |t| ==> s[0] <= t[k];
      assert s == [s[0]] + s[1..];
      assert multiset([s[0]] + t) == multiset{s[0]} + multiset(t);
      [s[0]] + t
  }

  /** Stands in for the library `sort()` applied to both columns. */
  function Sort(s: seq<int>): (r: seq<int>)
    ensures Sorted(r)
    ensures multiset(r) == multiset(s)
  {
    if |s| == 0 then []
    else
      assert s == [s[0]] + s[1..];
      Insert(s[0], Sort(s[1..]))
  }

  /** Sorting is determined by contents alone: two sorted arrangements of one
      multiset are equal, so the distance below does not depend on the sort
      algorithm. */
  lemma {:induction false} SortedUnique(x: seq<int>, y: seq<int>)
    requires Sorted(x) && Sorted(y)
    requires multiset(x) == multiset(y)
    ensures x == y
    decreases |x|
  {
    if |x| == 0 {
      assert |y| == |multiset(y)| == 0;
    } else {
      assert |y| == |multiset(y)| == |multiset(x)| == |x|;
      assert x[0] in multiset(y);
      assert y[0] in multiset(x);
      assert x[0] == y[0];
      assert x == [x[0]] + x[1..];
      assert y == [y[0]] + y[1..];
      assert multiset(x) == multiset{x[0]} + multiset(x[1..]);
      assert multiset(y) == multiset{y[0]} + multiset(y[1..]);
      assert multiset(x[1..]) == multiset(x) - multiset{x[0]};
      assert multiset(y[1..]) == multiset(y) - multiset{y[0]};
      SortedUnique(x[1..], y[1..]);
    }
  }

  /** Column `k` of the parsed lines. */
  function Column(lines: seq<Line>, k: nat): (c: seq<int>)
    requires forall i :: 0 <= i < |lines| ==> |lines[i]| > k
  {
    seq(|lines|, i requires 0 <= i < |lines| => lines[i][k])
  }

  /** Part one (`main`): both columns are sorted, then differenced pairwise. */
  function TotalDistance(lines: seq<Line>): (r: Option<int>)
    ensures r.Some? <==> forall i :: 0 <= i < |lines| ==> |lines[i]| >= 2
  {
    match SplitArrays(lines)
    case None => None
    case Some(cols) => Some(SumOfDifferences(Sort(cols.0), Sort(cols.1)))
  }

  /** The total distance is the pairwise distance between the sorted
      arrangements of the two columns, whichever sorting produced them. */
  lemma TotalDistanceOfSortedColumns(lines: seq<Line>, xs: seq<int>, ys: seq<int>)
    requires forall i :: 0 <= i < |lines| ==> |lines[i]| >= 2
    requires Sorted(xs) && multiset(xs) == multiset(Column(lines, 0))
    requires Sorted(ys) && multiset(ys) == multiset(Column(lines, 1))
    ensures TotalDistance(lines) == Some(SumOfDifferences(xs, ys))
  {
    var cols := SplitArrays(lines).value;
    assert cols.0 == Column(lines, 0);
    assert cols.1 == Column(lines, 1);
    SortedUnique(Sort(cols.0), xs);
    SortedUnique(Sort(cols.1), ys);
  }

  /** Part two (`main`): the similarity score of the sorted columns, which is
      the score of the columns as read. */
  method SimilarityScore(lines: seq<Line>) returns (r: Option<int>)
    ensures r.Some? <==> forall i :: 0 <= i < |lines| ==> |lines[i]| >= 2
    ensures r.Some? ==> r.value == WeightedSpec(Column(lines, 0), Column(lines, 1))
  {
    var split := SplitArrays(lines);
    if split.None? {
      return None;
    }
    var cols := split.value;
    assert cols.0 == Column(lines, 0) && cols.1 == Column(lines, 1);
    var xs := Sort(cols.0);
    var ys := Sort(cols.1);
    var score := CalculateWeightedSum(xs, ys);
    WeightedSpecPermutation(xs, cols.0, ys);
    WeightedSpecSecondPermutation(cols.0, ys, cols.1);
    return Some(score);
  }
}
