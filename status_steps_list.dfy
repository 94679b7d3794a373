/** src/components/StatusStepsList.tsx: `moveStep`, which reorders the steps
    of one status and renumbers them from 0, and the editor state behind
    the add and edit forms together with the call `handleSubmit` makes. */
module StatusStepsList {
  import opened Seqs
  import opened StatusModel
  import opened ListMoves
  import StatusList

  /** What `moveStep` passes to `onReorderSteps`: the neighbours swapped and
      the positions rewritten to 0, 1, ... in list order; `None` for a move
      past either end, which calls nothing. */
  function MoveStepResult(steps: seq<Step>, index: nat, direction: Direction): (r: Option<seq<Step>>)
    requires index < |steps|
    ensures r.None? <==> StatusList.Blocked(|steps|, index, direction)
    ensures r.Some? ==> var j := Target(index, direction);
      && 0 <= j < |steps|
      && |r.value| == |steps|
      && (forall m :: 0 <= m < |steps| ==> r.value[m] == StepAt(Swap(steps, index, j)[m], m))
  {
    if StatusList.Blocked(|steps|, index, direction) then None
    else
      var j: nat := Target(index, direction);
      NeighbourMoveIsSwap(steps, index, j);
      Some(Renumbered(Moved(steps, index, j), 0, StepAt))
  }

  /** `moveStep`: copy, splice out, splice in, renumber. */
  method MoveStep(steps: seq<Step>, index: nat, direction: Direction) returns (reordered: Option<seq<Step>>)
    requires index < |steps|
    ensures reordered == MoveStepResult(steps, index, direction)
  {
    if (direction == Up && index == 0) || (direction == Down && index == |steps| - 1) {
      return None;
    }
    var newIndex: nat := if direction == Up then index - 1 else index + 1;
    var newSteps := Copy(steps);
    SpliceMove(newSteps, index, newIndex);
    Renumber(newSteps, 0, StepAt);
    reordered := Some(newSteps[..]);
  }

  function StepIdList(steps: seq<Step>): seq<string> {
    MapSeq(steps, (s: Step) => s.id)
  }

  lemma StepAtKeepsId()
    ensures KeepsKey(StepAt, (s: Step) => s.id)
    ensures Overwrites(StepAt)
  {
  }

  /** A move keeps the length and the multiset of step ids. */
  lemma MoveStepPermutation(steps: seq<Step>, index: nat, direction: Direction)
    requires index < |steps|
    ensures var r := MoveStepResult(steps, index, direction);
      r.Some? ==> |r.value| == |steps| && multiset(StepIdList(r.value)) == multiset(StepIdList(steps))
  {
    if !StatusList.Blocked(|steps|, index, direction) {
      StepAtKeepsId();
      RenumberedMoveKeys(steps, index, Target(index, direction), 0, StepAt, (s: Step) => s.id);
    }
  }

  /** Down and then up again restores the list, renumbered from 0. */
  lemma MoveDownThenUp(steps: seq<Step>, index: nat)
    requires index + 1 < |steps|
    ensures var once := MoveStepResult(steps, index, Down);
      && once.Some?
      && MoveStepResult(once.value, index + 1, Up) == Some(Renumbered(steps, 0, StepAt))
  {
    StepAtKeepsId();
    RenumberedMoveBack(steps, index, index + 1, 0, StepAt);
  }

  // -----------------------------------------------------------------------
  // The add and edit forms.

  /** `StepFormData`. */
  datatype StepFormData = StepFormData(name: string, description: string)

  /** The callback `handleSubmit` invokes. */
  datatype SubmitCall =
    | UpdateStep(stepId: string, data: StepFormData)
    | AddStep(name: string, description: string, position: int)

  class StepEditor {
    var editingStep: Option<string>
    var isAddingStep: bool

    /** `if (editingStep)`: an id that is null or the empty string is falsy. */
    predicate Editing()
      reads this
    {
      editingStep.Some? && editingStep.value != ""
    }

    /** The add form and the edit form are never open together. */
    predicate Valid()
      reads this
    {
      !(Editing() && isAddingStep)
    }

    constructor ()
      ensures editingStep == None && !isAddingStep && Valid()
    {
      editingStep := None;
      isAddingStep := false;
    }

    /** The add button, shown only while neither form is open. */
    method StartAdding()
      requires !Editing() && !isAddingStep
      modifies this
      ensures Valid() && isAddingStep && editingStep == old(editingStep)
    {
      isAddingStep := true;
    }

    /** `handleEdit`. */
    method HandleEdit(step: Step)
      modifies this
      ensures editingStep == Some(step.id) && !isAddingStep && Valid()
    {
      editingStep := Some(step.id);
      isAddingStep := false;
    }

    /** `handleCancel`. */
    method HandleCancel()
      modifies this
      ensures editingStep == None && !isAddingStep && Valid()
    {
      editingStep := None;
      isAddingStep := false;
    }

    /** `handleSubmit`: while a step is being edited the data goes to the
        update callback and never to the add callback; otherwise a new step
        is added at position `steps.length`, after the existing ones. */
    method HandleSubmit(data: StepFormData, steps: seq<Step>) returns (call: SubmitCall)
      requires Valid()
      modifies this
      ensures old(Editing()) ==> call == UpdateStep(old(editingStep).value, data)
      ensures old(Editing()) ==> editingStep == None && isAddingStep == old(isAddingStep)
      ensures !old(Editing()) ==> call == AddStep(data.name, data.description, |steps|)
      ensures !old(Editing()) ==> !isAddingStep && editingStep == old(editingStep)
      ensures Valid()
    {
      if Editing() {
        call := UpdateStep(editingStep.value, data);
        editingStep := None;
      } else {
        call := AddStep(data.name, data.description, |steps|);
        isAddingStep := false;
      }
    }
  }

  /** The position given to a new step is past every position a list
      renumbered by `moveStep` holds. */
  lemma NewStepAfterRenumbered(steps: seq<Step>)
    ensures forall i :: 0 <= i < |Renumbered(steps, 0, StepAt)| ==> Renumbered(steps, 0, StepAt)[i].position < |steps|
  {
  }
}
