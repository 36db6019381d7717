/** Day 2: reactor reports, safe when their levels move steadily in one
    direction by 1 to 3 per step, optionally after dropping one level. */
module Reports {
  import opened Ints

  type Report = seq<int>

  /** The change from level `i` to level `i + 1`. */
  function Step(s: Report, i: nat): int
    requires i + 1 < |s|
  {
    s[i + 1] - s[i]
  }

  /** Every adjacent difference is between 1 and 3 in magnitude. */
  predicate GentleSteps(s: Report) {
    forall i :: 0 <= i < |s| - 1 ==> 1 <= Abs(Step(s, i)) <= 3
  }

  /** All adjacent differences share one sign. */
  predicate Monotone(s: Report) {
    || (forall i :: 0 <= i < |s| - 1 ==> Step(s, i) > 0)
    || (forall i :: 0 <= i < |s| - 1 ==> Step(s, i) < 0)
  }

  predicate Safe(s: Report) {
    GentleSteps(s) && Monotone(s)
  }

  function Remove(s: Report, i: nat): Report
    requires i < |s|
  {
    s[..i] + s[i + 1..]
  }

  /** Safe once some single level is dropped. */
  predicate SafeAfterRemoval(s: Report) {
    exists i :: 0 <= i < |s| && Safe(Remove(s, i))
  }

  /** `is_safe_report`: one pass over the windows of two, remembering whether
      an increase and a decrease have been seen. */
  method IsSafeReport(s: Report) returns (safe: bool)
    ensures safe <==> Safe(s)
    ensures |s| < 2 ==> safe
  {
    var increasing := false;
    var decreasing := false;
    ghost var riseAt, fallAt := 0, 0;
    var k := 0;
    while k + 1 < |s|
      invariant 0 <= k <= |s|
      invariant k > 0 ==> k < |s|
      invariant forall i :: 0 <= i < k ==> 1 <= Abs(Step(s, i)) <= 3
      invariant !decreasing ==> forall i :: 0 <= i < k ==> Step(s, i) > 0
      invariant !increasing ==> forall i :: 0 <= i < k ==> Step(s, i) < 0
      invariant increasing ==> 0 <= riseAt < k && Step(s, riseAt) > 0
      invariant decreasing ==> 0 <= fallAt < k && Step(s, fallAt) < 0
      invariant !(increasing && decreasing)
    {
      var diff := Step(s, k);
      if Abs(diff) > 3 || Abs(diff) < 1 {
        return false;
      }
      if diff > 0 {
        increasing := true;
        riseAt := k;
      } else if diff < 0 {
        decreasing := true;
        fallAt := k;
      }
      if increasing && decreasing {
        return false;
      }
      k := k + 1;
    }
    return true;
  }

  /** `is_safe_by_removing_one_element`: tries every index in turn. */
  method IsSafeByRemovingOne(s: Report) returns (safe: bool)
    ensures safe <==> SafeAfterRemoval(s)
    ensures |s| == 0 ==> !safe
  {
    var i := 0;
    while i < |s|
      invariant 0 <= i <= |s|
      invariant forall j :: 0 <= j < i ==> !Safe(Remove(s, j))
    {
      var ok := IsSafeReport(Remove(s, i));
      if ok {
        return true;
      }
      i := i + 1;
    }
    return false;
  }

  /** Number of reports that are safe as they stand. */
  function DirectCount(reports: seq<Report>): nat {
    if |reports| == 0 then 0
    else DirectCount(reports[..|reports| - 1])
         + (if Safe(reports[|reports| - 1]) then 1 else 0)
  }

  /** Number of reports that are safe or become safe by dropping one level. */
  function TolerantCount(reports: seq<Report>): nat {
    if |reports| == 0 then 0
    else TolerantCount(reports[..|reports| - 1])
         + (var s := reports[|reports| - 1]; if Safe(s) || SafeAfterRemoval(s) then 1 else 0)
  }

  /** The counting loop of `main`: a report is counted once, as direct when
      it is safe as it stands and as adjusted otherwise. */
  method CountSafeReports(reports: seq<Report>) returns (direct: nat, adjusted: nat, total: nat)
    ensures direct == DirectCount(reports)
    ensures total == TolerantCount(reports)
    ensures total == direct + adjusted
    ensures total <= |reports|
  {
    direct, adjusted, total := 0, 0, 0;
    var k := 0;
    while k < |reports|
      invariant 0 <= k <= |reports|
      invariant direct == DirectCount(reports[..k])
      invariant total == TolerantCount(reports[..k])
      invariant total == direct + adjusted
      invariant total <= k
    {
      assert reports[..k + 1][..k] == reports[..k];
      var safe := IsSafeReport(reports[k]);
      if safe {
        direct := direct + 1;
        total := total + 1;
      } else {
        var fixable := IsSafeByRemovingOne(reports[k]);
        if fixable {
          adjusted := adjusted + 1;
          total := total + 1;
        }
      }
      k := k + 1;
    }
    assert reports[..k] == reports;
  }

  /** A safe report stays safe without its first level, so for non-empty
      reports the direct check is subsumed by the one-removal check. */
  lemma SafeImpliesSafeAfterRemoval(s: Report)
    requires |s| > 0 && Safe(s)
    ensures SafeAfterRemoval(s)
  {
    var t := Remove(s, 0);
    assert t == s[1..];
    assert forall i :: 0 <= i < |t| - 1 ==> Step(t, i) == Step(s, i + 1);
    assert Safe(t);
  }
}
