/** src/pages/Settings.tsx: the settings page keeps the list of status
    definitions in its `statuses` state and rewrites it after each remote
    call that succeeds. The remote calls are not modelled; each handler
    takes what the call returned (`None` when it threw) and updates the
    list as the page does. */
module Settings {
  import opened Seqs
  import opened StatusModel
  import StatusList
  import ListMoves

  // -----------------------------------------------------------------------
  // The list edits, as functions.

  predicate UniqueIds(statuses: seq<StatusDef>) {
    forall i, j :: 0 <= i < j < |statuses| ==> statuses[i].id != statuses[j].id
  }

  function HasId(id: string): StatusDef -> bool {
    (s: StatusDef) => s.id == id
  }

  function NotId(id: string): StatusDef -> bool {
    (s: StatusDef) => s.id != id
  }

  /** `statuses.map(s => s.id === id ? updated : s)`. */
  function ReplaceStatus(statuses: seq<StatusDef>, id: string, updated: StatusDef): (r: seq<StatusDef>)
    ensures |r| == |statuses|
    ensures forall i :: 0 <= i < |r| ==> r[i] == if statuses[i].id == id then updated else statuses[i]
  {
    if statuses == [] then []
    else [if statuses[0].id == id then updated else statuses[0]] + ReplaceStatus(statuses[1..], id, updated)
  }

  /** With distinct ids, updating is writing one cell. */
  lemma ReplaceStatusOne(statuses: seq<StatusDef>, k: nat, updated: StatusDef)
    requires UniqueIds(statuses) && k < |statuses|
    ensures ReplaceStatus(statuses, statuses[k].id, updated) == statuses[k := updated]
  {
    var r := ReplaceStatus(statuses, statuses[k].id, updated);
    assert forall i :: 0 <= i < |r| ==> r[i] == statuses[k := updated][i];
  }

  /** An id that is not in the list changes nothing. */
  lemma ReplaceStatusAbsent(statuses: seq<StatusDef>, id: string, updated: StatusDef)
    requires forall i :: 0 <= i < |statuses| ==> statuses[i].id != id
    ensures ReplaceStatus(statuses, id, updated) == statuses
  {
    var r := ReplaceStatus(statuses, id, updated);
    assert forall i :: 0 <= i < |r| ==> r[i] == statuses[i];
  }

  /** `statuses.filter(s => s.id !== statusId)`: no status with that id is
      left, every other status is kept, and the list shrinks by the number
      of statuses that had the id. */
  function RemoveStatus(statuses: seq<StatusDef>, id: string): (r: seq<StatusDef>)
    ensures forall i :: 0 <= i < |r| ==> r[i].id != id
    ensures forall i :: 0 <= i < |statuses| && statuses[i].id != id ==> statuses[i] in r
    ensures |r| == |statuses| - CountIf(statuses, HasId(id))
  {
    CountIfIsFilterLength(statuses, NotId(id));
    CountIfComplement(statuses, HasId(id), NotId(id));
    Filter(statuses, NotId(id))
  }

  lemma {:induction false} CountIfComplement<T>(s: seq<T>, p: T -> bool, q: T -> bool)
    requires forall x :: q(x) == !p(x)
    ensures CountIf(s, p) + CountIf(s, q) == |s|
  {
    if s != [] {
      CountIfComplement(s[1..], p, q);
    }
  }

  /** With distinct ids, deleting removes exactly one cell and keeps the
      order of the rest. */
  lemma RemoveStatusOne(statuses: seq<StatusDef>, k: nat)
    requires UniqueIds(statuses) && k < |statuses|
    ensures RemoveStatus(statuses, statuses[k].id) == statuses[..k] + statuses[k + 1..]
  {
    FilterDropsOne(statuses, k, NotId(statuses[k].id));
  }

  /** Filtering out exactly one element. */
  lemma {:induction false} FilterDropsOne<T>(s: seq<T>, k: nat, p: T -> bool)
    requires k < |s| && !p(s[k])
    requires forall i :: 0 <= i < |s| && i != k ==> p(s[i])
    ensures Filter(s, p) == s[..k] + s[k + 1..]
  {
    var t := s[1..];
    if k == 0 {
      FilterDropsHead(s, p);
    } else {
      FilterKeepsHead(s, p);
      forall i | 0 <= i < |t| && i != k - 1 ensures p(t[i]) {
        assert t[i] == s[i + 1];
      }
      FilterDropsOne(t, k - 1, p);
      assert t[..k - 1] == s[1..k] && t[k..] == s[k + 1..];
      assert [s[0]] + s[1..k] == s[..k];
    }
  }

  lemma FilterDropsHead<T>(s: seq<T>, p: T -> bool)
    requires s != [] && !p(s[0])
    requires forall i :: 1 <= i < |s| ==> p(s[i])
    ensures Filter(s, p) == s[1..]
  {
    var t := s[1..];
    forall i | 0 <= i < |t| ensures p(t[i]) {
      assert t[i] == s[i + 1];
    }
    FilterAll(t, p);
  }

  lemma FilterKeepsHead<T>(s: seq<T>, p: T -> bool)
    requires s != [] && p(s[0])
    ensures Filter(s, p) == [s[0]] + Filter(s[1..], p)
  {
  }

  /** `{ ...status, steps: [...status.steps, newStep] }` for the status with
      `statusId`. */
  function AddStepTo(statuses: seq<StatusDef>, statusId: string, newStep: Step): (r: seq<StatusDef>)
    ensures |r| == |statuses|
    ensures forall i :: 0 <= i < |r| ==>
      r[i] == if statuses[i].id == statusId then statuses[i].(steps := statuses[i].steps + [newStep]) else statuses[i]
  {
    if statuses == [] then []
    else
      var s := statuses[0];
      [if s.id == statusId then s.(steps := s.steps + [newStep]) else s] + AddStepTo(statuses[1..], statusId, newStep)
  }

  /** Adding a step adds it once to the steps of every status carrying the
      id, so once in all when the ids are distinct. */
  lemma {:induction false} AddStepCount(statuses: seq<StatusDef>, statusId: string, newStep: Step)
    ensures |StepsOf(AddStepTo(statuses, statusId, newStep))| == |StepsOf(statuses)| + CountIf(statuses, HasId(statusId))
  {
    if statuses != [] {
      var r := AddStepTo(statuses, statusId, newStep);
      assert r[1..] == AddStepTo(statuses[1..], statusId, newStep);
      AddStepCount(statuses[1..], statusId, newStep);
    }
  }

  /** `steps.map(step => step.id === stepId ? updated : step)`. */
  function ReplaceStep(steps: seq<Step>, stepId: string, updated: Step): (r: seq<Step>)
    ensures |r| == |steps|
    ensures forall i :: 0 <= i < |r| ==> r[i] == if steps[i].id == stepId then updated else steps[i]
  {
    if steps == [] then []
    else [if steps[0].id == stepId then updated else steps[0]] + ReplaceStep(steps[1..], stepId, updated)
  }

  lemma ReplaceStepConcat(a: seq<Step>, b: seq<Step>, stepId: string, updated: Step)
    ensures ReplaceStep(a + b, stepId, updated) == ReplaceStep(a, stepId, updated) + ReplaceStep(b, stepId, updated)
  {
    var l, r := ReplaceStep(a + b, stepId, updated), ReplaceStep(a, stepId, updated) + ReplaceStep(b, stepId, updated);
    assert forall i :: 0 <= i < |l| ==> l[i] == r[i];
  }

  /** The update-step handler: the step is replaced in every status. */
  function ReplaceStepEverywhere(statuses: seq<StatusDef>, stepId: string, updated: Step): (r: seq<StatusDef>)
    ensures |r| == |statuses|
    ensures forall i :: 0 <= i < |r| ==> r[i] == statuses[i].(steps := ReplaceStep(statuses[i].steps, stepId, updated))
  {
    if statuses == [] then []
    else [statuses[0].(steps := ReplaceStep(statuses[0].steps, stepId, updated))] + ReplaceStepEverywhere(statuses[1..], stepId, updated)
  }

  /** Seen as one list of steps, the update replaces the step wherever it
      occurs and touches nothing else. */
  lemma {:induction false} ReplaceStepEverywhereSteps(statuses: seq<StatusDef>, stepId: string, updated: Step)
    ensures StepsOf(ReplaceStepEverywhere(statuses, stepId, updated)) == ReplaceStep(StepsOf(statuses), stepId, updated)
  {
    if statuses != [] {
      var r := ReplaceStepEverywhere(statuses, stepId, updated);
      assert r[1..] == ReplaceStepEverywhere(statuses[1..], stepId, updated);
      ReplaceStepEverywhereSteps(statuses[1..], stepId, updated);
      ReplaceStepConcat(statuses[0].steps, StepsOf(statuses[1..]), stepId, updated);
    }
  }

  function NotStep(stepId: string): Step -> bool {
    (st: Step) => st.id != stepId
  }

  /** The delete-step handler: the step is filtered out of every status. */
  function DeleteStepEverywhere(statuses: seq<StatusDef>, stepId: string): (r: seq<StatusDef>)
    ensures |r| == |statuses|
    ensures forall i :: 0 <= i < |r| ==> r[i] == statuses[i].(steps := Filter(statuses[i].steps, NotStep(stepId)))
  {
    if statuses == [] then []
    else [statuses[0].(steps := Filter(statuses[0].steps, NotStep(stepId)))] + DeleteStepEverywhere(statuses[1..], stepId)
  }

  /** Seen as one list of steps, the delete removes the step wherever it
      occurs and keeps the other steps in order. */
  lemma {:induction false} DeleteStepEverywhereSteps(statuses: seq<StatusDef>, stepId: string)
    ensures StepsOf(DeleteStepEverywhere(statuses, stepId)) == Filter(StepsOf(statuses), NotStep(stepId))
  {
    if statuses != [] {
      var r := DeleteStepEverywhere(statuses, stepId);
      assert r[1..] == DeleteStepEverywhere(statuses[1..], stepId);
      DeleteStepEverywhereSteps(statuses[1..], stepId);
      FilterConcat(statuses[0].steps, StepsOf(statuses[1..]), NotStep(stepId));
    }
  }

  /** `{ ...status, steps }` for the status with `statusId`. */
  function ReplaceStepsOf(statuses: seq<StatusDef>, statusId: string, steps: seq<Step>): (r: seq<StatusDef>)
    ensures |r| == |statuses|
    ensures forall i :: 0 <= i < |r| ==> r[i] == if statuses[i].id == statusId then statuses[i].(steps := steps) else statuses[i]
  {
    if statuses == [] then []
    else [if statuses[0].id == statusId then statuses[0].(steps := steps) else statuses[0]] + ReplaceStepsOf(statuses[1..], statusId, steps)
  }

  // -----------------------------------------------------------------------
  // The three sections of the page.

  datatype Sections = Sections(initial: Option<StatusDef>, regular: seq<StatusDef>, final: Option<StatusDef>)

  function IsInitial(s: StatusDef): bool { s.kind == Initial }

  function IsFinal(s: StatusDef): bool { s.kind == Final }

  /** Index `k` holds the first status of type `kind`. */
  predicate FirstOfKind(statuses: seq<StatusDef>, k: nat, kind: StatusType)
    requires k < |statuses|
  {
    statuses[k].kind == kind && forall j :: 0 <= j < k ==> statuses[j].kind != kind
  }

  /** `find` of the initial status, `filter` of the regular ones, `find` of
      the final one. */
  function SectionsOf(statuses: seq<StatusDef>): (r: Sections)
    ensures r.initial.None? <==> forall i :: 0 <= i < |statuses| ==> statuses[i].kind != Initial
    ensures r.initial.Some? ==> exists k :: 0 <= k < |statuses| && statuses[k] == r.initial.value && FirstOfKind(statuses, k, Initial)
    ensures r.final.None? <==> forall i :: 0 <= i < |statuses| ==> statuses[i].kind != Final
    ensures r.final.Some? ==> exists k :: 0 <= k < |statuses| && statuses[k] == r.final.value && FirstOfKind(statuses, k, Final)
    ensures forall i :: 0 <= i < |r.regular| ==> r.regular[i].kind == Regular && r.regular[i] in statuses
    ensures forall i :: 0 <= i < |statuses| && statuses[i].kind == Regular ==> statuses[i] in r.regular
  {
    Sections(Find(statuses, IsInitial), Filter(statuses, IsRegular), Find(statuses, IsFinal))
  }

  /** The reorder handler stores the list `StatusList` hands it, which holds
      only the regular statuses: afterwards the page has neither an initial
      nor a final status until it is reloaded. */
  lemma ReorderDropsEnds(statuses: seq<StatusDef>, index: nat, direction: ListMoves.Direction)
    requires index < |SectionsOf(statuses).regular|
    ensures var m := StatusList.MoveStatusResult(SectionsOf(statuses).regular, index, direction);
      m.Some? ==> SectionsOf(m.value).initial.None? && SectionsOf(m.value).final.None?
  {
    var regular := SectionsOf(statuses).regular;
    var m := StatusList.MoveStatusResult(regular, index, direction);
    if m.Some? {
      MoveKeepsRegular(regular, index, direction);
      NoEndsWhenAllRegular(m.value);
    }
  }

  lemma MoveKeepsRegular(regular: seq<StatusDef>, index: nat, direction: ListMoves.Direction)
    requires index < |regular|
    requires forall i :: 0 <= i < |regular| ==> regular[i].kind == Regular
    ensures var m := StatusList.MoveStatusResult(regular, index, direction);
      m.Some? ==> forall i :: 0 <= i < |m.value| ==> m.value[i].kind == Regular
  {
    var m := StatusList.MoveStatusResult(regular, index, direction);
    if m.Some? {
      var j := ListMoves.Target(index, direction);
      var w := ListMoves.Swap(regular, index, j);
      assert forall i :: 0 <= i < |w| ==> w[i].kind == Regular;
      forall i | 0 <= i < |m.value| ensures m.value[i].kind == Regular {
        assert m.value[i] == StatusAt(w[i], i + 2);
      }
    }
  }

  lemma NoEndsWhenAllRegular(list: seq<StatusDef>)
    requires forall i :: 0 <= i < |list| ==> list[i].kind == Regular
    ensures SectionsOf(list).initial.None? && SectionsOf(list).final.None?
  {
  }

  // -----------------------------------------------------------------------
  // The page.

  class SettingsPage {
    var statuses: seq<StatusDef>
    var editingStatus: Option<string>
    var isNewStatusDialogOpen: bool
    var isLoading: bool

    constructor ()
      ensures statuses == [] && editingStatus == None && !isNewStatusDialogOpen && isLoading
    {
      statuses := [];
      editingStatus := None;
      isNewStatusDialogOpen := false;
      isLoading := true;
    }

    /** `loadStatuses`: the fetched list, or nothing new when it failed. */
    method LoadStatuses(fetched: Option<seq<StatusDef>>)
      modifies this
      ensures statuses == if fetched.Some? then fetched.value else old(statuses)
      ensures !isLoading
      ensures editingStatus == old(editingStatus) && isNewStatusDialogOpen == old(isNewStatusDialogOpen)
    {
      if fetched.Some? {
        statuses := fetched.value;
      }
      isLoading := false;
    }

    /** `handleStatusUpdate`: `updated` is what `updateProjectStatus`
        returned. */
    method HandleStatusUpdate(status: StatusDef, updated: Option<StatusDef>)
      modifies this
      ensures updated.Some? ==> statuses == ReplaceStatus(old(statuses), status.id, updated.value) && editingStatus == None
      ensures updated.None? ==> statuses == old(statuses) && editingStatus == old(editingStatus)
      ensures isNewStatusDialogOpen == old(isNewStatusDialogOpen) && isLoading == old(isLoading)
    {
      if updated.Some? {
        statuses := ReplaceStatus(statuses, status.id, updated.value);
        editingStatus := None;
      }
    }

    /** `handleStatusCreate`: the new status goes at the end of the list. */
    method HandleStatusCreate(created: Option<StatusDef>)
      modifies this
      ensures created.Some? ==> statuses == old(statuses) + [created.value] && !isNewStatusDialogOpen
      ensures created.None? ==> statuses == old(statuses) && isNewStatusDialogOpen == old(isNewStatusDialogOpen)
      ensures editingStatus == old(editingStatus) && isLoading == old(isLoading)
    {
      if created.Some? {
        statuses := statuses + [created.value];
        isNewStatusDialogOpen := false;
      }
    }

    /** `handleStatusDelete`: nothing unless the user confirms and the
        delete succeeds. */
    method HandleStatusDelete(statusId: string, confirmed: bool, deleteOk: bool)
      modifies this
      ensures statuses == if confirmed && deleteOk then RemoveStatus(old(statuses), statusId) else old(statuses)
      ensures editingStatus == old(editingStatus) && isNewStatusDialogOpen == old(isNewStatusDialogOpen)
      ensures isLoading == old(isLoading)
    {
      if !confirmed {
        return;
      }
      if deleteOk {
        statuses := RemoveStatus(statuses, statusId);
      }
    }

    /** `handleStatusReorder`: the whole list becomes the one passed in. */
    method HandleStatusReorder(reordered: seq<StatusDef>, reorderOk: bool)
      modifies this
      ensures statuses == if reorderOk then reordered else old(statuses)
      ensures editingStatus == old(editingStatus) && isNewStatusDialogOpen == old(isNewStatusDialogOpen)
      ensures isLoading == old(isLoading)
    {
      if reorderOk {
        statuses := reordered;
      }
    }

    /** `handleAddStep`: `newStep` is what `createProjectStatusStep`
        returned. */
    method HandleAddStep(statusId: string, newStep: Option<Step>)
      modifies this
      ensures statuses == if newStep.Some? then AddStepTo(old(statuses), statusId, newStep.value) else old(statuses)
      ensures editingStatus == old(editingStatus) && isNewStatusDialogOpen == old(isNewStatusDialogOpen)
      ensures isLoading == old(isLoading)
    {
      if newStep.Some? {
        statuses := AddStepTo(statuses, statusId, newStep.value);
      }
    }

    /** `handleUpdateStep`. */
    method HandleUpdateStep(stepId: string, updated: Option<Step>)
      modifies this
      ensures statuses == if updated.Some? then ReplaceStepEverywhere(old(statuses), stepId, updated.value) else old(statuses)
      ensures editingStatus == old(editingStatus) && isNewStatusDialogOpen == old(isNewStatusDialogOpen)
      ensures isLoading == old(isLoading)
    {
      if updated.Some? {
        statuses := ReplaceStepEverywhere(statuses, stepId, updated.value);
      }
    }

    /** `handleDeleteStep`. */
    method HandleDeleteStep(stepId: string, deleteOk: bool)
      modifies this
      ensures statuses == if deleteOk then DeleteStepEverywhere(old(statuses), stepId) else old(statuses)
      ensures editingStatus == old(editingStatus) && isNewStatusDialogOpen == old(isNewStatusDialogOpen)
      ensures isLoading == old(isLoading)
    {
      if deleteOk {
        statuses := DeleteStepEverywhere(statuses, stepId);
      }
    }

    /** `handleReorderSteps`: `updatesOk` says whether every one of the
        position updates passed to `Promise.all` succeeded. */
    method HandleReorderSteps(statusId: string, steps: seq<Step>, updatesOk: bool)
      modifies this
      ensures statuses == if updatesOk then ReplaceStepsOf(old(statuses), statusId, steps) else old(statuses)
      ensures editingStatus == old(editingStatus) && isNewStatusDialogOpen == old(isNewStatusDialogOpen)
      ensures isLoading == old(isLoading)
    {
      if updatesOk {
        statuses := ReplaceStepsOf(statuses, statusId, steps);
      }
    }
  }
}
