/** src/lib/api/projectSteps.ts: marking checklist steps done or not done for
    a project, and the rule of `checkAndUpdateProjectStatus` that recomputes
    the project's status code from the completed steps after every change.
    The remote reads and writes are parameters: each one either succeeds or
    fails, and the model states what the project row looks like afterwards. */
module ProjectSteps {
  import opened Seqs
  import opened StatusModel

  /** What the rule decides: no regular step is done, the project is at the
      regular status with index `index` (in position order), or every regular
      step is done. */
  datatype Decision = NotStarted | AtStatus(index: nat, code: string) | AllDone

  /** The status code written for a decision; the two literals are fixed in
      the code and are not looked up from the initial or final status. */
  function Code(d: Decision): string {
    match d
    case NotStarted => "new"
    case AtStatus(_, code) => code
    case AllDone => "completed"
  }

  /** The index of the first status that still has an incomplete step, or the
      number of statuses when there is none. */
  function FirstIncomplete(rs: seq<StatusDef>, done: seq<string>): (k: nat)
    ensures k <= |rs|
    ensures forall j :: 0 <= j < k ==> AllStepsDone(rs[j], done)
    ensures k < |rs| ==> !AllStepsDone(rs[k], done)
  {
    if rs == [] then 0
    else if !AllStepsDone(rs[0], done) then 0
    else 1 + FirstIncomplete(rs[1..], done)
  }

  /** The decision rule of projectSteps.ts:60-97, without its reads and writes. */
  function Decide(statuses: seq<StatusDef>, done: seq<string>): (d: Decision)
    ensures d.AtStatus? ==> var rs := RegularByPosition(statuses);
      d.index < |rs| && d.code == rs[d.index].code && rs[d.index].kind == Regular
  {
    DecideOn(RegularByPosition(statuses), done)
  }

  /** The rule applied to the regular statuses already in position order:
      a status chosen is the first one with an unfinished step, and
      `completed` needs at least one step. */
  function DecideOn(rs: seq<StatusDef>, done: seq<string>): (d: Decision)
    ensures d.AllDone? ==> |StepsOf(rs)| > 0 && CompletedCount(StepsOf(rs), done) == |StepsOf(rs)|
    ensures d.AtStatus? ==>
      && d.index < |rs| && d.code == rs[d.index].code
      && !AllStepsDone(rs[d.index], done)
      && forall j :: 0 <= j < d.index ==> AllStepsDone(rs[j], done)
  {
    var all := StepsOf(rs);
    var c := CompletedCount(all, done);
    if c == |all| && c > 0 then AllDone
    else if c == 0 then NotStarted
    else
      var k := FirstIncomplete(rs, done);
      if k < |rs| then AtStatus(k, rs[k].code) else NotStarted
  }

  /** The write the rule asks for: the final literal with an end date, a new
      status code, or nothing. */
  datatype StatusUpdate = SetCompleted(endDate: string) | SetStatus(code: string) | NoUpdate

  /** Reaching `completed` always writes (with the end date set to `now`),
      even when the stored status already is `completed`; any other status
      is written only when it differs from the stored one. */
  function UpdateFor(stored: string, d: Decision, now: string): (u: StatusUpdate)
    ensures u.SetCompleted? <==> d.AllDone?
    ensures u.SetCompleted? ==> u.endDate == now
    ensures u.SetStatus? ==> u.code == Code(d) && u.code != stored
    ensures u.NoUpdate? ==> !d.AllDone? && stored == Code(d)
  {
    if d.AllDone? then SetCompleted(now)
    else if stored != Code(d) then SetStatus(Code(d))
    else NoUpdate
  }

  /** The `for ... break` loop of projectSteps.ts:83-95: the code of the first
      status that still has an incomplete step, or `new` when there is none. */
  method CurrentStatusCode(regularStatuses: seq<StatusDef>, done: seq<string>) returns (newStatus: string)
    ensures var k := FirstIncomplete(regularStatuses, done);
      newStatus == if k < |regularStatuses| then regularStatuses[k].code else "new"
  {
    newStatus := "new";
    var i := 0;
    while i < |regularStatuses|
      invariant 0 <= i <= |regularStatuses|
      invariant forall j :: 0 <= j < i ==> AllStepsDone(regularStatuses[j], done)
      invariant newStatus == "new"
    {
      var status := regularStatuses[i];
      if CompletedCount(status.steps, done) < |status.steps| {
        newStatus := status.code;
        assert FirstIncomplete(regularStatuses, done) == i;
        break;
      }
      i := i + 1;
    }
  }

  /** The body of `checkAndUpdateProjectStatus` between the reads and the
      write. */
  method DecideStatusUpdate(stored: string, statuses: seq<StatusDef>, done: seq<string>, now: string)
    returns (u: StatusUpdate)
    ensures u == UpdateFor(stored, Decide(statuses, done), now)
  {
    var sortedStatuses := ByPosition(statuses);
    var regularStatuses := Filter(sortedStatuses, IsRegular);
    var allRegularSteps := StepsOf(regularStatuses);
    var completedRegularSteps := CompletedCount(allRegularSteps, done);
    if completedRegularSteps == |allRegularSteps| && completedRegularSteps > 0 {
      return SetCompleted(now);
    }
    var newStatus := "new";
    if completedRegularSteps > 0 {
      newStatus := CurrentStatusCode(regularStatuses, done);
    }
    if stored != newStatus {
      u := SetStatus(newStatus);
    } else {
      u := NoUpdate;
    }
  }

  // -----------------------------------------------------------------------
  // Properties of the rule.

  /** When every regular status has all its steps done, so have all regular
      steps together. */
  lemma {:induction false} AllStatusesDoneSum(rs: seq<StatusDef>, done: seq<string>)
    requires forall j :: 0 <= j < |rs| ==> AllStepsDone(rs[j], done)
    ensures CompletedCount(StepsOf(rs), done) == |StepsOf(rs)|
  {
    if rs != [] {
      AllStatusesDoneSum(rs[1..], done);
      CompletedCountConcat(rs[0].steps, StepsOf(rs[1..]), done);
    }
  }

  /** The fall-through to `'new'` after the loop cannot happen: when some but
      not all regular steps are done, the loop always breaks. */
  lemma LoopAlwaysBreaks(rs: seq<StatusDef>, done: seq<string>)
    requires 0 < CompletedCount(StepsOf(rs), done) < |StepsOf(rs)|
    ensures FirstIncomplete(rs, done) < |rs|
  {
    if FirstIncomplete(rs, done) == |rs| {
      AllStatusesDoneSum(rs, done);
    }
  }

  /** The rule answers `completed` exactly when there is at least one regular
      step and every regular step is in the completed list. */
  lemma DecideAllDone(statuses: seq<StatusDef>, done: seq<string>)
    ensures var all := StepsOf(RegularByPosition(statuses));
      Decide(statuses, done) == AllDone <==>
        |all| > 0 && forall i :: 0 <= i < |all| ==> all[i].id in done
  {
    DecideOnAllDone(RegularByPosition(statuses), done);
  }

  lemma DecideOnAllDone(rs: seq<StatusDef>, done: seq<string>)
    ensures var all := StepsOf(rs);
      DecideOn(rs, done) == AllDone <==>
        |all| > 0 && forall i :: 0 <= i < |all| ==> all[i].id in done
  {
  }

  /** The rule answers `new` exactly when no regular step is in the completed
      list, which includes the case of no regular steps at all. */
  lemma DecideNotStarted(statuses: seq<StatusDef>, done: seq<string>)
    ensures var all := StepsOf(RegularByPosition(statuses));
      Decide(statuses, done) == NotStarted <==>
        forall i :: 0 <= i < |all| ==> all[i].id !in done
  {
    DecideOnNotStarted(RegularByPosition(statuses), done);
  }

  lemma DecideOnNotStarted(rs: seq<StatusDef>, done: seq<string>)
    ensures var all := StepsOf(rs);
      DecideOn(rs, done) == NotStarted <==>
        forall i :: 0 <= i < |all| ==> all[i].id !in done
  {
    var c := CompletedCount(StepsOf(rs), done);
    if 0 < c < |StepsOf(rs)| {
      LoopAlwaysBreaks(rs, done);
    }
  }

  /** Otherwise the answer is the first regular status, in position order,
      that has a step not yet done; a status without steps is never chosen. */
  lemma DecideAtStatus(statuses: seq<StatusDef>, done: seq<string>)
    ensures var rs := RegularByPosition(statuses);
      Decide(statuses, done).AtStatus? ==>
        var k := Decide(statuses, done).index;
        && k < |rs|
        && Decide(statuses, done).code == rs[k].code
        && |rs[k].steps| > 0
        && (exists i :: 0 <= i < |rs[k].steps| && rs[k].steps[i].id !in done)
        && (forall j :: 0 <= j < k ==> forall i :: 0 <= i < |rs[j].steps| ==> rs[j].steps[i].id in done)
  {
    DecideOnAtStatus(RegularByPosition(statuses), done);
  }

  lemma DecideOnAtStatus(rs: seq<StatusDef>, done: seq<string>)
    ensures DecideOn(rs, done).AtStatus? ==>
        var k := DecideOn(rs, done).index;
        && k < |rs|
        && DecideOn(rs, done).code == rs[k].code
        && |rs[k].steps| > 0
        && (exists i :: 0 <= i < |rs[k].steps| && rs[k].steps[i].id !in done)
        && (forall j :: 0 <= j < k ==> forall i :: 0 <= i < |rs[j].steps| ==> rs[j].steps[i].id in done)
  {
  }

  /** The written code is `new`, `completed`, or the code of a regular status. */
  lemma DecideCodeRange(statuses: seq<StatusDef>, done: seq<string>)
    ensures var code := Code(Decide(statuses, done));
      || code == "new"
      || code == "completed"
      || exists i :: 0 <= i < |statuses| && statuses[i].kind == Regular && statuses[i].code == code
  {
    var rs := RegularByPosition(statuses);
    var d := Decide(statuses, done);
    if d.AtStatus? {
      var k := d.index;
      assert rs[k] in multiset(Filter(statuses, IsRegular));
      assert rs[k] in statuses;
    }
  }

  /** Only membership in the completed list matters: ids that are not steps of
      regular statuses, the order of the list and repeated entries make no
      difference. */
  lemma DecideMembershipOnly(statuses: seq<StatusDef>, d1: seq<string>, d2: seq<string>)
    requires var all := StepsOf(RegularByPosition(statuses));
      forall i :: 0 <= i < |all| ==> (all[i].id in d1 <==> all[i].id in d2)
    ensures Decide(statuses, d1) == Decide(statuses, d2)
  {
    var rs := RegularByPosition(statuses);
    var all := StepsOf(rs);
    CompletedCountMembership(all, d1, d2);
    forall j | 0 <= j < |rs|
      ensures CompletedCount(rs[j].steps, d1) == CompletedCount(rs[j].steps, d2)
    {
      forall i | 0 <= i < |rs[j].steps| ensures (rs[j].steps[i].id in d1 <==> rs[j].steps[i].id in d2) {
        InStepsOf(rs, rs[j].steps[i]);
      }
      CompletedCountMembership(rs[j].steps, d1, d2);
    }
    FirstIncompleteMembership(rs, d1, d2);
  }

  lemma {:induction false} FirstIncompleteMembership(rs: seq<StatusDef>, d1: seq<string>, d2: seq<string>)
    requires forall j :: 0 <= j < |rs| ==> CompletedCount(rs[j].steps, d1) == CompletedCount(rs[j].steps, d2)
    ensures FirstIncomplete(rs, d1) == FirstIncomplete(rs, d2)
  {
    if rs != [] {
      FirstIncompleteMembership(rs[1..], d1, d2);
    }
  }

  /** The order `new` < regular statuses by position < `completed`, for a
      list of `n` regular statuses. */
  function Rank(d: Decision, n: nat): nat {
    match d
    case NotStarted => 0
    case AtStatus(k, _) => k + 1
    case AllDone => n + 1
  }

  /** Completing more steps never moves the project back: the decision for a
      larger completed set is never earlier in the order of `Rank`. */
  lemma DecideMonotone(statuses: seq<StatusDef>, d1: seq<string>, d2: seq<string>)
    requires forall x :: x in d1 ==> x in d2
    ensures var n := |RegularByPosition(statuses)|;
      Rank(Decide(statuses, d1), n) <= Rank(Decide(statuses, d2), n)
  {
    var rs := RegularByPosition(statuses);
    var all := StepsOf(rs);
    CompletedCountMonotone(all, d1, d2);
    var r1, r2 := DecideOn(rs, d1), DecideOn(rs, d2);
    DecideOnNotStarted(rs, d1);
    DecideOnNotStarted(rs, d2);
    if r2.AtStatus? {
      var k2 := r2.index;
      CompletedCountMonotone(rs[k2].steps, d1, d2);
      assert !AllStepsDone(rs[k2], d1);
      if r1.AtStatus? {
        assert FirstIncomplete(rs, d1) <= k2;
      }
    }
  }

  // -----------------------------------------------------------------------
  // The project row and the two exported operations.

  /** `xs` without any entry equal to `x`: the rows a delete by match leaves. */
  function Without(xs: seq<string>, x: string): (r: seq<string>)
    ensures x !in r
    ensures forall y :: y != x ==> (y in r <==> y in xs)
  {
    if xs == [] then []
    else if xs[0] == x then Without(xs[1..], x)
    else [xs[0]] + Without(xs[1..], x)
  }

  /** The status and end date of the project row after
      `checkAndUpdateProjectStatus`, from those before it. A failed read of
      the project or the statuses, or a failed write, leaves both alone;
      otherwise `completed` is written with the end date whatever the stored
      status, and any other status only when it differs, keeping the end
      date. */
  predicate Recomputed(status0: string, endDate0: Option<string>, status1: string, endDate1: Option<string>,
                       statuses: Option<seq<StatusDef>>, done: seq<string>, writeOk: bool, now: string)
  {
    if statuses.None? || !writeOk then status1 == status0 && endDate1 == endDate0
    else
      match UpdateFor(status0, Decide(statuses.value, done), now)
      case SetCompleted(d) => status1 == "completed" && endDate1 == Some(d)
      case SetStatus(c) => status1 == c && endDate1 == endDate0
      case NoUpdate => status1 == status0 && endDate1 == endDate0
  }

  /** The stored project row, with the rows of `project_completed_steps` that
      belong to it. */
  class ProjectRecord {
    var status: string
    var endDate: Option<string>
    var completedSteps: seq<string>

    constructor (status: string, endDate: Option<string>, completedSteps: seq<string>)
      ensures this.status == status && this.endDate == endDate && this.completedSteps == completedSteps
    {
      this.status := status;
      this.endDate := endDate;
      this.completedSteps := completedSteps;
    }

    /** `checkAndUpdateProjectStatus`. `statuses` is None when reading the
        project or the statuses failed; a failed read of the completed steps
        yields an empty list (`getCompletedSteps` returns `[]`); a failed
        write changes nothing. Every failure is swallowed. */
    method CheckAndUpdateProjectStatus(statuses: Option<seq<StatusDef>>, stepsReadOk: bool, writeOk: bool, now: string)
      modifies this`status, this`endDate
      ensures Recomputed(old(status), old(endDate), status, endDate, statuses,
                         if stepsReadOk then completedSteps else [], writeOk, now)
    {
      if statuses.None? {
        return;
      }
      var done := if stepsReadOk then completedSteps else [];
      var u := DecideStatusUpdate(status, statuses.value, done, now);
      if !writeOk {
        return;
      }
      match u
      case SetCompleted(d) =>
        status := "completed";
        endDate := Some(d);
      case SetStatus(c) =>
        status := c;
      case NoUpdate =>
    }

    /** `completeProjectStep`: a failed insert throws before the status is
        recomputed; a successful one adds the row and recomputes. */
    method CompleteProjectStep(stepId: string, insertOk: bool, statuses: Option<seq<StatusDef>>,
                               stepsReadOk: bool, writeOk: bool, now: string)
      returns (ok: bool)
      modifies this
      ensures ok == insertOk
      ensures !ok ==> status == old(status) && endDate == old(endDate) && completedSteps == old(completedSteps)
      ensures ok ==> completedSteps == old(completedSteps) + [stepId]
      ensures ok ==> Recomputed(old(status), old(endDate), status, endDate, statuses,
                                if stepsReadOk then completedSteps else [], writeOk, now)
    {
      if !insertOk {
        return false;
      }
      completedSteps := completedSteps + [stepId];
      CheckAndUpdateProjectStatus(statuses, stepsReadOk, writeOk, now);
      ok := true;
    }

    /** `uncompleteProjectStep`: the delete removes every row for the step;
        a failed delete throws before the status is recomputed. */
    method UncompleteProjectStep(stepId: string, deleteOk: bool, statuses: Option<seq<StatusDef>>,
                                 stepsReadOk: bool, writeOk: bool, now: string)
      returns (ok: bool)
      modifies this
      ensures ok == deleteOk
      ensures !ok ==> status == old(status) && endDate == old(endDate) && completedSteps == old(completedSteps)
      ensures ok ==> completedSteps == Without(old(completedSteps), stepId)
      ensures ok ==> Recomputed(old(status), old(endDate), status, endDate, statuses,
                                if stepsReadOk then completedSteps else [], writeOk, now)
    {
      if !deleteOk {
        return false;
      }
      completedSteps := Without(completedSteps, stepId);
      CheckAndUpdateProjectStatus(statuses, stepsReadOk, writeOk, now);
      ok := true;
    }
  }
}
