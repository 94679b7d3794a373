/** The records of src/types/index.ts that describe configurable project
    statuses and their checklist steps, with the list views of them that
    several components compute: the statuses in position order, the regular
    ones among them, all their steps, and how many of a list of steps a
    project has completed. */
module StatusModel {
  import opened Seqs

  /** `ProjectStatusType`. */
  datatype StatusType = Initial | Regular | Final

  /** `ProjectStatusStep`. */
  datatype Step = Step(id: string, statusId: string, name: string, description: Option<string>, position: int)

  /** `ProjectStatusSettings`. */
  datatype StatusDef = StatusDef(
    id: string,
    code: string,
    name: string,
    description: Option<string>,
    icon: string,
    color: string,
    showOnDashboard: bool,
    kind: StatusType,
    position: int,
    steps: seq<Step>)

  /** The comparator `(a, b) => a.position - b.position`, as "not after". */
  predicate StatusLe(a: StatusDef, b: StatusDef) {
    a.position <= b.position
  }

  predicate StepLe(a: Step, b: Step) {
    a.position <= b.position
  }

  lemma StatusLeIsTotalPreorder()
    ensures TotalPreorder(StatusLe)
  {
  }

  lemma StepLeIsTotalPreorder()
    ensures TotalPreorder(StepLe)
  {
  }

  /** `[...statuses].sort((a, b) => a.position - b.position)`. */
  function ByPosition(statuses: seq<StatusDef>): (r: seq<StatusDef>)
    ensures multiset(r) == multiset(statuses)
    ensures SortedBy(r, StatusLe)
  {
    StatusLeIsTotalPreorder();
    SortBySorted(statuses, StatusLe);
    SortBy(statuses, StatusLe)
  }

  /** `steps.sort((a, b) => a.position - b.position)`. */
  function StepsByPosition(steps: seq<Step>): (r: seq<Step>)
    ensures multiset(r) == multiset(steps)
    ensures SortedBy(r, StepLe)
  {
    StepLeIsTotalPreorder();
    SortBySorted(steps, StepLe);
    SortBy(steps, StepLe)
  }

  /** `{ ...status, position: p }`. */
  function StatusAt(s: StatusDef, p: int): StatusDef {
    s.(position := p)
  }

  /** `{ ...step, position: p }`. */
  function StepAt(s: Step, p: int): Step {
    s.(position := p)
  }

  predicate IsRegular(s: StatusDef) {
    s.kind == Regular
  }

  /** The regular statuses in ascending position order, as
      `sortedStatuses.filter(s => s.type === 'regular')` computes them. */
  function RegularByPosition(statuses: seq<StatusDef>): (r: seq<StatusDef>)
    ensures SortedBy(r, StatusLe)
    ensures forall i :: 0 <= i < |r| ==> r[i].kind == Regular
    ensures multiset(r) == multiset(Filter(statuses, IsRegular))
  {
    var sorted := ByPosition(statuses);
    FilterSorted(sorted, IsRegular, StatusLe);
    FilterPermutation(sorted, statuses, IsRegular);
    Filter(sorted, IsRegular)
  }

  lemma {:induction false} FilterMultiplicity<T>(s: seq<T>, p: T -> bool, y: T)
    ensures multiset(Filter(s, p))[y] == if p(y) then multiset(s)[y] else 0
  {
    if s != [] {
      assert s == [s[0]] + s[1..];
      FilterMultiplicity(s[1..], p, y);
    }
  }

  lemma FilterPermutation<T>(s: seq<T>, t: seq<T>, p: T -> bool)
    requires multiset(s) == multiset(t)
    ensures multiset(Filter(s, p)) == multiset(Filter(t, p))
  {
    forall y ensures multiset(Filter(s, p))[y] == multiset(Filter(t, p))[y] {
      FilterMultiplicity(s, p, y);
      FilterMultiplicity(t, p, y);
    }
  }

  /** `statuses.flatMap(status => status.steps)`. */
  function StepsOf(statuses: seq<StatusDef>): (r: seq<Step>)
  {
    if statuses == [] then [] else statuses[0].steps + StepsOf(statuses[1..])
  }

  lemma {:induction false} StepsOfConcat(a: seq<StatusDef>, b: seq<StatusDef>)
    ensures StepsOf(a + b) == StepsOf(a) + StepsOf(b)
  {
    if a == [] {
      assert a + b == b;
    } else {
      assert (a + b)[1..] == a[1..] + b;
      StepsOfConcat(a[1..], b);
    }
  }

  /** Every step of the concatenation is a step of one of the statuses, and
      conversely. */
  lemma {:induction false} InStepsOf(statuses: seq<StatusDef>, st: Step)
    ensures st in StepsOf(statuses) <==> exists i :: 0 <= i < |statuses| && st in statuses[i].steps
  {
    if statuses != [] {
      InStepsOf(statuses[1..], st);
      if st in StepsOf(statuses[1..]) {
        var i :| 0 <= i < |statuses[1..]| && st in statuses[1..][i].steps;
        assert st in statuses[i + 1].steps;
      }
      if exists i :: 0 <= i < |statuses| && st in statuses[i].steps {
        var i :| 0 <= i < |statuses| && st in statuses[i].steps;
        if i > 0 {
          assert st in statuses[1..][i - 1].steps;
        }
      }
    }
  }

  /** The length of the concatenation does not depend on the order of the
      statuses. */
  lemma {:induction false} StepsOfPermutationLength(a: seq<StatusDef>, b: seq<StatusDef>)
    requires multiset(a) == multiset(b)
    ensures |StepsOf(a)| == |StepsOf(b)|
  {
    if a == [] {
      assert |b| == |multiset(b)| == 0;
    } else {
      var x := a[0];
      assert a == [x] + a[1..];
      assert x in multiset(b);
      var j :| 0 <= j < |b| && b[j] == x;
      MultisetRemove(b, j);
      assert multiset(a[1..]) == multiset(a) - multiset{x};
      StepsOfPermutationLength(a[1..], b[..j] + b[j + 1..]);
      StepsOfRemove(b, j);
    }
  }

  /** Taking one status out of a list takes its steps out of the count. */
  lemma StepsOfRemove(b: seq<StatusDef>, j: nat)
    requires j < |b|
    ensures |StepsOf(b)| == |b[j].steps| + |StepsOf(b[..j] + b[j + 1..])|
  {
    assert b == b[..j] + [b[j]] + b[j + 1..];
    StepsOfConcat(b[..j] + [b[j]], b[j + 1..]);
    StepsOfConcat(b[..j], [b[j]]);
    StepsOfConcat(b[..j], b[j + 1..]);
    assert StepsOf([b[j]]) == b[j].steps by {
      assert [b[j]][1..] == [];
    }
  }

  /** The number of `steps` whose id is in the completed list `done`, as
      `steps.filter(step => done.includes(step.id)).length`. */
  function CompletedCount(steps: seq<Step>, done: seq<string>): (n: nat)
    ensures n <= |steps|
    ensures n == |steps| <==> forall i :: 0 <= i < |steps| ==> steps[i].id in done
    ensures n == 0 <==> forall i :: 0 <= i < |steps| ==> steps[i].id !in done
  {
    if steps == [] then 0
    else (if steps[0].id in done then 1 else 0) + CompletedCount(steps[1..], done)
  }

  lemma {:induction false} CompletedCountConcat(a: seq<Step>, b: seq<Step>, done: seq<string>)
    ensures CompletedCount(a + b, done) == CompletedCount(a, done) + CompletedCount(b, done)
  {
    if a == [] {
      assert a + b == b;
    } else {
      assert (a + b)[1..] == a[1..] + b;
      CompletedCountConcat(a[1..], b, done);
    }
  }

  /** Completion depends only on which ids are in the list. */
  lemma {:induction false} CompletedCountMembership(steps: seq<Step>, d1: seq<string>, d2: seq<string>)
    requires forall i :: 0 <= i < |steps| ==> (steps[i].id in d1 <==> steps[i].id in d2)
    ensures CompletedCount(steps, d1) == CompletedCount(steps, d2)
  {
    if steps != [] {
      CompletedCountMembership(steps[1..], d1, d2);
    }
  }

  /** Completing more ids never lowers a count. */
  lemma {:induction false} CompletedCountMonotone(steps: seq<Step>, d1: seq<string>, d2: seq<string>)
    requires forall x :: x in d1 ==> x in d2
    ensures CompletedCount(steps, d1) <= CompletedCount(steps, d2)
  {
    if steps != [] {
      CompletedCountMonotone(steps[1..], d1, d2);
    }
  }

  /** A status whose steps are all in the completed list. */
  predicate AllStepsDone(status: StatusDef, done: seq<string>) {
    CompletedCount(status.steps, done) == |status.steps|
  }

  /** The ids of a list of steps. */
  function StepIds(steps: seq<Step>): (ids: set<string>)
    ensures forall i :: 0 <= i < |steps| ==> steps[i].id in ids
    ensures forall x :: x in ids ==> exists i :: 0 <= i < |steps| && steps[i].id == x
  {
    if steps == [] then {}
    else
      var rest := StepIds(steps[1..]);
      var ids := {steps[0].id} + rest;
      assert forall i :: 0 <= i < |steps| ==> steps[i].id in ids by {
        forall i | 0 <= i < |steps| ensures steps[i].id in ids {
          if i > 0 {
            assert steps[i] == steps[1..][i - 1];
          }
        }
      }
      assert forall x :: x in ids ==> exists i :: 0 <= i < |steps| && steps[i].id == x by {
        forall x | x in ids ensures exists i :: 0 <= i < |steps| && steps[i].id == x {
          if x != steps[0].id {
            var i :| 0 <= i < |steps[1..]| && steps[1..][i].id == x;
            assert steps[i + 1].id == x;
          }
        }
      }
      ids
  }

  /** A list of steps has no more distinct ids than it has steps. */
  lemma {:induction false} StepIdsSize(steps: seq<Step>)
    ensures |StepIds(steps)| <= |steps|
  {
    if steps != [] {
      StepIdsSize(steps[1..]);
      assert StepIds(steps) == {steps[0].id} + StepIds(steps[1..]);
    }
  }
}
