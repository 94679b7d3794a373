/** src/lib/api/statistics.ts: `getProjectStatistics` counts, for each
    configured status code, the projects whose status is exactly that
    code. The month bounds it computes are never used, so the model has no
    date input; the query result is a parameter, `None` standing for the
    read error that is thrown. */
module Statistics {
  import opened Seqs
  import opened StatusModel

  /** One row of `select('status')`. */
  datatype ProjectRow = ProjectRow(status: string)

  /** `ProjectStatistics`, or the thrown error. */
  datatype StatisticsResult = Statistics(counts: map<string, nat>) | ReadError

  function HasStatus(code: string): ProjectRow -> bool {
    (p: ProjectRow) => p.status == code
  }

  function StatusIn(codes: seq<string>): ProjectRow -> bool {
    (p: ProjectRow) => p.status in codes
  }

  function CodeSet(statuses: seq<StatusDef>): set<string> {
    set i | 0 <= i < |statuses| :: statuses[i].code
  }

  /** The dictionary after the `forEach` has visited `statuses`: one entry
      per listed code and no other, each the number of projects with that
      status. A repeated code is written twice with the same number. */
  function StatisticsOf(statuses: seq<StatusDef>, projects: seq<ProjectRow>): (r: map<string, nat>)
    ensures r.Keys == CodeSet(statuses)
    ensures forall c :: c in r ==> r[c] == CountIf(projects, HasStatus(c))
    decreases |statuses|
  {
    if statuses == [] then map[]
    else
      var front := statuses[..|statuses| - 1];
      var c := statuses[|statuses| - 1].code;
      assert CodeSet(statuses) == CodeSet(front) + {c} by {
        assert forall i :: 0 <= i < |front| ==> front[i] == statuses[i];
      }
      StatisticsOf(front, projects)[c := CountIf(projects, HasStatus(c))]
  }

  /** `getProjectStatistics`. */
  method GetProjectStatistics(statuses: seq<StatusDef>, allProjects: Option<seq<ProjectRow>>) returns (r: StatisticsResult)
    ensures r.ReadError? <==> allProjects.None?
    ensures allProjects.Some? ==> r.counts == StatisticsOf(statuses, allProjects.value)
  {
    if allProjects.None? {
      return ReadError;
    }
    var projects := allProjects.value;
    var statistics: map<string, nat> := map[];
    for i := 0 to |statuses|
      invariant statistics == StatisticsOf(statuses[..i], projects)
    {
      var code := statuses[i].code;
      CountIfIsFilterLength(projects, HasStatus(code));
      StatisticsStep(statuses, i, projects);
      statistics := statistics[code := |Filter(projects, HasStatus(code))|];
    }
    assert statuses[..|statuses|] == statuses;
    r := Statistics(statistics);
  }

  lemma StatisticsStep(statuses: seq<StatusDef>, i: nat, projects: seq<ProjectRow>)
    requires i < |statuses|
    ensures StatisticsOf(statuses[..i + 1], projects)
         == StatisticsOf(statuses[..i], projects)[statuses[i].code := CountIf(projects, HasStatus(statuses[i].code))]
  {
    assert statuses[..i + 1][..i] == statuses[..i];
  }

  /** A project whose status is none of the listed codes is counted
      nowhere: without it every entry is the same. */
  lemma UnknownStatusUncounted(statuses: seq<StatusDef>, projects: seq<ProjectRow>, k: nat)
    requires k < |projects|
    requires projects[k].status !in CodeSet(statuses)
    ensures StatisticsOf(statuses, projects) == StatisticsOf(statuses, projects[..k] + projects[k + 1..])
  {
    var rest := projects[..k] + projects[k + 1..];
    var a := StatisticsOf(statuses, projects);
    var b := StatisticsOf(statuses, rest);
    forall c | c in a
      ensures a[c] == b[c]
    {
      CountIfRemove(projects, k, HasStatus(c));
    }
  }

  /** Counting the projects of two statuses that never coincide adds up. */
  lemma {:induction false} CountIfDisjoint<T>(s: seq<T>, p: T -> bool, q: T -> bool, both: T -> bool)
    requires forall i :: 0 <= i < |s| ==> (both(s[i]) <==> p(s[i]) || q(s[i]))
    requires forall i :: 0 <= i < |s| ==> !(p(s[i]) && q(s[i]))
    ensures CountIf(s, both) == CountIf(s, p) + CountIf(s, q)
  {
    if s != [] {
      CountIfDisjoint(s[1..], p, q, both);
    }
  }

  predicate Distinct(codes: seq<string>) {
    forall i, j :: 0 <= i < j < |codes| ==> codes[i] != codes[j]
  }

  /** The counts of a list of codes, added up. */
  function SumCounts(codes: seq<string>, projects: seq<ProjectRow>): nat {
    if codes == [] then 0 else CountIf(projects, HasStatus(codes[0])) + SumCounts(codes[1..], projects)
  }

  /** Over distinct codes the counts add up to the number of projects
      whose status is one of them, so never to more than there are
      projects, and to exactly that many only when no project has an
      unknown status. */
  lemma {:induction false} SumOfDistinctCounts(codes: seq<string>, projects: seq<ProjectRow>)
    requires Distinct(codes)
    ensures SumCounts(codes, projects) == CountIf(projects, StatusIn(codes))
    ensures SumCounts(codes, projects) <= |projects|
    ensures SumCounts(codes, projects) == |projects| <==> forall k :: 0 <= k < |projects| ==> projects[k].status in codes
  {
    if codes == [] {
      assert forall k :: 0 <= k < |projects| ==> !StatusIn(codes)(projects[k]);
    } else {
      var c, rest := codes[0], codes[1..];
      DistinctTail(codes);
      SumOfDistinctCounts(rest, projects);
      SplitMembership(codes, projects);
      CountIfDisjoint(projects, HasStatus(c), StatusIn(rest), StatusIn(codes));
    }
  }

  lemma DistinctTail(codes: seq<string>)
    requires Distinct(codes) && codes != []
    ensures Distinct(codes[1..]) && codes[0] !in codes[1..]
  {
    var rest := codes[1..];
    assert forall i :: 0 <= i < |rest| ==> rest[i] == codes[i + 1];
  }

  lemma SplitMembership(codes: seq<string>, projects: seq<ProjectRow>)
    requires codes != []
    ensures forall k :: 0 <= k < |projects| ==>
      (StatusIn(codes)(projects[k]) <==> HasStatus(codes[0])(projects[k]) || StatusIn(codes[1..])(projects[k]))
  {
    assert codes == [codes[0]] + codes[1..];
  }
}
