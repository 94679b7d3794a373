/** The state of src/components/ProjectChecklist.tsx: the statuses it shows
    and the completed-step list it keeps, and the two handlers that change
    that list. The stored project is a `ProjectRecord`; each remote call
    either succeeds or fails as its flag says. */
module Checklist {
  import opened Seqs
  import opened StatusModel
  import opened ProjectSteps

  /** The action a toggle takes, decided on the list the component holds. */
  datatype ToggleAction = Complete | Uncomplete

  /** `completedSteps.includes(stepId)` picks the action. */
  function ActionFor(completed: seq<string>, stepId: string): (a: ToggleAction)
    ensures a == Uncomplete <==> stepId in completed
    ensures a == Complete <==> stepId !in completed
  {
    if stepId in completed then Uncomplete else Complete
  }

  class ChecklistView {
    var statuses: seq<StatusDef>
    var completedSteps: seq<string>

    /** The component starts with both lists empty. */
    constructor ()
      ensures statuses == [] && completedSteps == []
    {
      statuses := [];
      completedSteps := [];
    }

    /** `loadCompletedSteps`: a failed read leaves the list empty, never
        stale. */
    method LoadCompletedSteps(db: ProjectRecord, readOk: bool)
      modifies this`completedSteps
      ensures completedSteps == if readOk then db.completedSteps else []
    {
      if readOk {
        completedSteps := db.completedSteps;
      } else {
        completedSteps := [];
      }
    }

    /** `handleStepToggle`: uncomplete a step the list holds, complete any
        other, and reload the list. A failed insert or delete throws, which
        skips the reload; the error is caught and the list kept. When the
        write succeeds, the stored membership of exactly that step flips
        and the shown list is the reloaded one. */
    method HandleStepToggle(db: ProjectRecord, stepId: string, changeOk: bool,
                            projectStatuses: Option<seq<StatusDef>>, stepsReadOk: bool,
                            writeOk: bool, now: string, readOk: bool)
      returns (action: ToggleAction)
      modifies this, db
      ensures action == ActionFor(old(completedSteps), stepId)
      ensures statuses == old(statuses)
      ensures !changeOk ==> completedSteps == old(completedSteps) && db.completedSteps == old(db.completedSteps)
      ensures !changeOk ==> db.status == old(db.status) && db.endDate == old(db.endDate)
      ensures changeOk ==> Recomputed(old(db.status), old(db.endDate), db.status, db.endDate, projectStatuses,
                                      if stepsReadOk then db.completedSteps else [], writeOk, now)
      ensures changeOk && action == Complete ==> db.completedSteps == old(db.completedSteps) + [stepId]
      ensures changeOk && action == Uncomplete ==> db.completedSteps == Without(old(db.completedSteps), stepId)
      ensures changeOk ==> (stepId in db.completedSteps <==> action == Complete)
      ensures changeOk ==> forall x :: x != stepId ==> (x in db.completedSteps <==> x in old(db.completedSteps))
      ensures changeOk ==> completedSteps == if readOk then db.completedSteps else []
    {
      action := ActionFor(completedSteps, stepId);
      var ok;
      if action == Uncomplete {
        ok := db.UncompleteProjectStep(stepId, changeOk, projectStatuses, stepsReadOk, writeOk, now);
      } else {
        ok := db.CompleteProjectStep(stepId, changeOk, projectStatuses, stepsReadOk, writeOk, now);
      }
      if !ok {
        return;
      }
      LoadCompletedSteps(db, readOk);
    }
  }
}
