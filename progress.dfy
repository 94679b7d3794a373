/** The progress figures and the status classification shown by
    src/components/ProjectProgress.tsx and src/components/ProjectChecklist.tsx.
    Both components compute the same per-status percentage; for the overall
    percentage ProjectProgress filters the statuses as given while
    ProjectChecklist sorts them first, and the two are proved to agree. */
module Progress {
  import opened Seqs
  import opened StatusModel

  /** `Math.round(c / n * 100)` computed exactly: the nearest whole percent,
      with halves rounded up. */
  function RoundedPercent(c: nat, n: nat): (r: nat)
    requires n > 0
    ensures (r as real) - 0.5 <= 100.0 * (c as real) / (n as real) < (r as real) + 0.5
    ensures c <= n ==> r <= 100
    ensures c == 0 ==> r == 0
    ensures c == n ==> r == 100
  {
    var r := (200 * c + n) / (2 * n);
    RoundingBounds(c, n, r);
    RoundingRange(c, n, r);
    r
  }

  /** The integer quotient meets the bounds of round-half-up. */
  lemma QuotientBounds(c: nat, n: nat, r: nat)
    requires n > 0
    requires r == (200 * c + n) / (2 * n)
    ensures r * (2 * n) <= 200 * c + n < (r + 1) * (2 * n)
  {
  }

  lemma RoundingBounds(c: nat, n: nat, r: nat)
    requires n > 0
    requires r == (200 * c + n) / (2 * n)
    ensures (r as real) - 0.5 <= 100.0 * (c as real) / (n as real) < (r as real) + 0.5
  {
    QuotientBounds(c, n, r);
    var R, C, N := r as real, c as real, n as real;
    assert R * (2.0 * N) <= 200.0 * C + N;
    assert 200.0 * C + N < (R + 1.0) * (2.0 * N);
    var x := 100.0 * C / N;
    assert x * N == 100.0 * C;
    assert (x - (R - 0.5)) * N == x * N - R * N + 0.5 * N;
    assert ((R + 0.5) - x) * N == R * N + 0.5 * N - x * N;
    NonnegRealFactor(x - (R - 0.5), N);
    PosRealFactor((R + 0.5) - x, N);
  }

  lemma RoundingRange(c: nat, n: nat, r: nat)
    requires n > 0
    requires r == (200 * c + n) / (2 * n)
    ensures c <= n ==> r <= 100
    ensures c == 0 ==> r == 0
    ensures c == n ==> r == 100
  {
    QuotientBounds(c, n, r);
    var q := 2 * n;
    if c <= n {
      assert (101 - r) * q == 101 * q - r * q;
      PosFactor(101 - r, q);
    }
    if c == 0 {
      assert (1 - r) * q == q - r * q;
      PosFactor(1 - r, q);
    }
    if c == n {
      assert (r + 1 - 100) * q == (r + 1) * q - 100 * q;
      PosFactor(r + 1 - 100, q);
    }
  }

  lemma PosFactor(m: int, k: int)
    requires k > 0 && m * k > 0
    ensures m > 0
  {
  }

  lemma PosRealFactor(m: real, k: real)
    requires k > 0.0 && m * k > 0.0
    ensures m > 0.0
  {
  }

  lemma NonnegRealFactor(m: real, k: real)
    requires k > 0.0 && m * k >= 0.0
    ensures m >= 0.0
  {
  }

  // -----------------------------------------------------------------------
  // Overall progress.

  /** The steps of the regular statuses, in the order the statuses are given
      (ProjectProgress.tsx:13-15). */
  function RegularSteps(statuses: seq<StatusDef>): seq<Step> {
    StepsOf(Filter(statuses, IsRegular))
  }

  /** How many entries of the completed list are ids of `steps`: the entries
      are counted, so a repeated id counts each time. */
  function MatchingCount(completed: seq<string>, steps: seq<Step>): nat {
    CountIf(completed, (id: string) => id in StepIds(steps))
  }

  /** `calculateProgress` of ProjectProgress.tsx. */
  function OverallProgress(statuses: seq<StatusDef>, completed: seq<string>): (r: nat)
    ensures RegularSteps(statuses) == [] ==> r == 0
    ensures CountIf(completed, (id: string) => id in StepIds(RegularSteps(statuses))) == 0 ==> r == 0
  {
    var steps := RegularSteps(statuses);
    if |steps| == 0 then 0 else RoundedPercent(MatchingCount(completed, steps), |steps|)
  }

  /** The total of ProjectChecklist.tsx:78-90, which takes the regular
      statuses in position order. */
  function ChecklistTotal(statuses: seq<StatusDef>, completed: seq<string>): (r: nat)
    ensures StepsOf(RegularByPosition(statuses)) == [] ==> r == 0
  {
    var steps := StepsOf(RegularByPosition(statuses));
    if |steps| > 0 then RoundedPercent(MatchingCount(completed, steps), |steps|) else 0
  }

  ghost predicate Distinct<T>(s: seq<T>) {
    forall i, j :: 0 <= i < j < |s| ==> s[i] != s[j]
  }

  /** A list without repetitions has at most as many members of a set as the
      set has elements. */
  lemma {:induction false} DistinctCountBound<T>(s: seq<T>, S: set<T>)
    requires Distinct(s)
    ensures CountIf(s, (x: T) => x in S) <= |S|
  {
    if s != [] {
      var x := s[0];
      assert Distinct(s[1..]);
      if x in S {
        var S' := S - {x};
        DistinctCountBound(s[1..], S');
        forall i | 0 <= i < |s[1..]| ensures (s[1..][i] in S <==> s[1..][i] in S') {
          assert s[1..][i] == s[i + 1] != s[0];
        }
        CountIfCongruent(s[1..], (y: T) => y in S, (y: T) => y in S');
      } else {
        DistinctCountBound(s[1..], S);
      }
    }
  }

  /** The overall progress is at most 100 when the completed list has no
      repeated id. */
  lemma OverallProgressBounded(statuses: seq<StatusDef>, completed: seq<string>)
    requires Distinct(completed)
    ensures OverallProgress(statuses, completed) <= 100
  {
    var steps := RegularSteps(statuses);
    if |steps| > 0 {
      DistinctCountBound(completed, StepIds(steps));
      StepIdsSize(steps);
    }
  }

  /** With a repeated id it is not: one regular step completed twice shows
      200 percent. */
  lemma OverallProgressDuplicates()
    ensures var st := Step("s", "r", "Survey", None, 0);
      var status := StatusDef("r", "preparation", "Preparation", None, "", "", true, Regular, 2, [st]);
      OverallProgress([status], ["s", "s"]) == 200
  {
    var st := Step("s", "r", "Survey", None, 0);
    var status := StatusDef("r", "preparation", "Preparation", None, "", "", true, Regular, 2, [st]);
    assert Filter([status], IsRegular) == [status] by {
      assert [status][1..] == [];
    }
    assert StepsOf([status]) == [st] by {
      assert [status][1..] == [];
    }
    assert StepIds([st]) == {"s"};
    var p := (id: string) => id in StepIds([st]);
    assert ["s", "s"][1..] == ["s"];
    assert ["s"][1..] == [];
    assert CountIf(["s"], p) == 1;
    assert CountIf(["s", "s"], p) == 2;
  }

  /** Two lists of statuses with the same elements have the same step ids. */
  lemma StepIdsPermutation(a: seq<StatusDef>, b: seq<StatusDef>)
    requires multiset(a) == multiset(b)
    ensures StepIds(StepsOf(a)) == StepIds(StepsOf(b))
  {
    forall x | x in StepIds(StepsOf(a)) ensures x in StepIds(StepsOf(b)) {
      StepIdIn(a, b, x);
    }
    forall x | x in StepIds(StepsOf(b)) ensures x in StepIds(StepsOf(a)) {
      StepIdIn(b, a, x);
    }
  }

  lemma StepIdIn(a: seq<StatusDef>, b: seq<StatusDef>, x: string)
    requires multiset(a) == multiset(b)
    requires x in StepIds(StepsOf(a))
    ensures x in StepIds(StepsOf(b))
  {
    var steps := StepsOf(a);
    var i :| 0 <= i < |steps| && steps[i].id == x;
    InStepsOf(a, steps[i]);
    var k :| 0 <= k < |a| && steps[i] in a[k].steps;
    assert a[k] in multiset(b);
    var m :| 0 <= m < |b| && b[m] == a[k];
    InStepsOf(b, steps[i]);
    var bs := StepsOf(b);
    var n :| 0 <= n < |bs| && bs[n] == steps[i];
    assert bs[n].id == x;
  }

  lemma MatchingCountPermutation(c1: seq<string>, c2: seq<string>, a: seq<StatusDef>, b: seq<StatusDef>)
    requires multiset(c1) == multiset(c2)
    requires multiset(a) == multiset(b)
    ensures MatchingCount(c1, StepsOf(a)) == MatchingCount(c2, StepsOf(b))
  {
    StepIdsPermutation(a, b);
    var p := (id: string) => id in StepIds(StepsOf(a));
    var q := (id: string) => id in StepIds(StepsOf(b));
    CountIfPermutation(c1, c2, p);
    CountIfCongruent(c2, p, q);
  }

  /** Overall progress does not depend on the order of the statuses nor on
      the order of the completed list. */
  lemma OverallProgressOrderIndependent(s1: seq<StatusDef>, s2: seq<StatusDef>, c1: seq<string>, c2: seq<string>)
    requires multiset(s1) == multiset(s2)
    requires multiset(c1) == multiset(c2)
    ensures OverallProgress(s1, c1) == OverallProgress(s2, c2)
  {
    var a, b := Filter(s1, IsRegular), Filter(s2, IsRegular);
    FilterPermutation(s1, s2, IsRegular);
    StepsOfPermutationLength(a, b);
    MatchingCountPermutation(c1, c2, a, b);
  }

  /** The two components show the same overall figure. */
  lemma ChecklistTotalAgrees(statuses: seq<StatusDef>, completed: seq<string>)
    ensures ChecklistTotal(statuses, completed) == OverallProgress(statuses, completed)
  {
    var a, b := RegularByPosition(statuses), Filter(statuses, IsRegular);
    StepsOfPermutationLength(a, b);
    MatchingCountPermutation(completed, completed, a, b);
  }

  // -----------------------------------------------------------------------
  // Per-status progress.

  /** `calculateStatusProgress` of ProjectProgress.tsx, and the `progress`
      of each status in ProjectChecklist.tsx. */
  function StatusProgress(status: StatusDef, completed: seq<string>): (r: nat)
    ensures r <= 100
    ensures |status.steps| == 0 ==> r == 0
    ensures |status.steps| > 0 && AllStepsDone(status, completed) ==> r == 100
    ensures CompletedCount(status.steps, completed) == 0 ==> r == 0
  {
    var n := |status.steps|;
    if n == 0 then 0 else RoundedPercent(CompletedCount(status.steps, completed), n)
  }

  /** Completing more steps never lowers a status's percentage. */
  lemma StatusProgressMonotone(status: StatusDef, d1: seq<string>, d2: seq<string>)
    requires forall x :: x in d1 ==> x in d2
    ensures StatusProgress(status, d1) <= StatusProgress(status, d2)
  {
    var n := |status.steps|;
    if n > 0 {
      CompletedCountMonotone(status.steps, d1, d2);
      var c1, c2 := CompletedCount(status.steps, d1), CompletedCount(status.steps, d2);
      assert 200 * c1 + n <= 200 * c2 + n;
      DivMonotone(200 * c1 + n, 200 * c2 + n, 2 * n);
    }
  }

  lemma DivMonotone(x: nat, y: nat, d: nat)
    requires d > 0 && x <= y
    ensures x / d <= y / d
  {
    var qx, qy := x / d, y / d;
    assert qx * d <= x;
    assert y < qy * d + d;
    assert (qy + 1 - qx) * d == qy * d + d - qx * d;
    PosFactor(qy + 1 - qx, d);
  }

  /** A status can show 100 percent before all its steps are done: with 200
      of 201 steps done the rounded figure is 100. */
  lemma HundredBeforeDone()
    ensures RoundedPercent(200, 201) == 100
  {
    assert (200 * 200 + 201) / (2 * 201) == 100;
  }

  // -----------------------------------------------------------------------
  // Classification of a status against the project's current status.

  /** `sortedStatuses.findIndex(s => s.code === code)`. */
  function CodeIndex(sorted: seq<StatusDef>, code: string): (i: int)
    ensures -1 <= i < |sorted|
    ensures i == -1 <==> forall k :: 0 <= k < |sorted| ==> sorted[k].code != code
    ensures 0 <= i ==> sorted[i].code == code && forall k :: 0 <= k < i ==> sorted[k].code != code
  {
    FindIndex(sorted, (s: StatusDef) => s.code == code)
  }

  /** `isActive` / `isCurrentStatus`. */
  predicate IsActive(status: StatusDef, current: string) {
    status.code == current
  }

  /** `isPast` / `isPastStatus`. */
  function IsPast(sorted: seq<StatusDef>, status: StatusDef, current: string): (past: bool)
    ensures past ==> status.code != current
    ensures past ==> exists k :: 0 <= k < |sorted| && sorted[k].code == current
  {
    CodeIndex(sorted, current) > CodeIndex(sorted, status.code)
  }

  /** The current status is never also a past one, whether or not codes are
      unique. */
  lemma ActiveExcludesPast(sorted: seq<StatusDef>, status: StatusDef, current: string)
    ensures IsActive(status, current) ==> !IsPast(sorted, status, current)
  {
  }

  /** When no status has the current code, no status is past. */
  lemma NoPastWithoutCurrent(sorted: seq<StatusDef>, status: StatusDef, current: string)
    requires forall k :: 0 <= k < |sorted| ==> sorted[k].code != current
    ensures !IsPast(sorted, status, current)
  {
  }

  predicate UniqueCodes(sorted: seq<StatusDef>) {
    forall i, j :: 0 <= i < j < |sorted| ==> sorted[i].code != sorted[j].code
  }

  /** With unique codes, the status at index `j` is past exactly when the
      current status sits at a later index. */
  lemma PastIffLater(sorted: seq<StatusDef>, j: nat, k: nat)
    requires UniqueCodes(sorted)
    requires j < |sorted| && k < |sorted|
    ensures IsPast(sorted, sorted[j], sorted[k].code) <==> j < k
  {
    CodeIndexUnique(sorted, j);
    CodeIndexUnique(sorted, k);
  }

  lemma CodeIndexUnique(sorted: seq<StatusDef>, j: nat)
    requires UniqueCodes(sorted)
    requires j < |sorted|
    ensures CodeIndex(sorted, sorted[j].code) == j
  {
  }
}
