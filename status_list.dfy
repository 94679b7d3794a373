/** `moveStatus` of src/components/StatusList.tsx: move one regular status a
    place up or down in the list shown in the settings page and renumber
    the list from 2, since the initial status holds position 1. The result
    is what the component hands to its `onReorder` callback; `None` is the
    early return that calls nothing. */
module StatusList {
  import opened Seqs
  import opened StatusModel
  import opened ListMoves

  /** No move up from the first row, none down from the last. */
  predicate Blocked(n: nat, index: nat, direction: Direction) {
    (direction == Up && index == 0) || (direction == Down && index == n - 1)
  }

  /** What `moveStatus` passes on: the list with the two neighbours swapped
      and the positions rewritten to 2, 3, ... in list order. */
  function MoveStatusResult(statuses: seq<StatusDef>, index: nat, direction: Direction): (r: Option<seq<StatusDef>>)
    requires index < |statuses|
    ensures r.None? <==> Blocked(|statuses|, index, direction)
    ensures r.Some? ==> var j := Target(index, direction);
      && 0 <= j < |statuses|
      && |r.value| == |statuses|
      && (forall m :: 0 <= m < |statuses| ==> r.value[m] == StatusAt(Swap(statuses, index, j)[m], m + 2))
  {
    if Blocked(|statuses|, index, direction) then None
    else
      var j: nat := Target(index, direction);
      NeighbourMoveIsSwap(statuses, index, j);
      Some(Renumbered(Moved(statuses, index, j), 2, StatusAt))
  }

  /** The handler itself: copy, splice out, splice in, renumber. */
  method MoveStatus(statuses: seq<StatusDef>, index: nat, direction: Direction) returns (reordered: Option<seq<StatusDef>>)
    requires index < |statuses|
    ensures reordered == MoveStatusResult(statuses, index, direction)
  {
    if (direction == Up && index == 0) || (direction == Down && index == |statuses| - 1) {
      return None;
    }
    var newIndex: nat := if direction == Up then index - 1 else index + 1;
    var newStatuses := Copy(statuses);
    SpliceMove(newStatuses, index, newIndex);
    Renumber(newStatuses, 2, StatusAt);
    reordered := Some(newStatuses[..]);
  }

  function Ids(statuses: seq<StatusDef>): seq<string> {
    MapSeq(statuses, (s: StatusDef) => s.id)
  }

  lemma StatusAtKeepsId()
    ensures KeepsKey(StatusAt, (s: StatusDef) => s.id)
    ensures Overwrites(StatusAt)
  {
  }

  /** A move keeps the statuses of the list: the ids are a permutation of
      the ids before. */
  lemma MoveStatusPermutation(statuses: seq<StatusDef>, index: nat, direction: Direction)
    requires index < |statuses|
    ensures var r := MoveStatusResult(statuses, index, direction);
      r.Some? ==> |r.value| == |statuses| && multiset(Ids(r.value)) == multiset(Ids(statuses))
  {
    if !Blocked(|statuses|, index, direction) {
      StatusAtKeepsId();
      RenumberedMoveKeys(statuses, index, Target(index, direction), 2, StatusAt, (s: StatusDef) => s.id);
    }
  }

  /** Moving a status up and then moving it down again from its new index
      gives back the original list, renumbered from 2. */
  lemma MoveUpThenDown(statuses: seq<StatusDef>, index: nat)
    requires 0 < index < |statuses|
    ensures var once := MoveStatusResult(statuses, index, Up);
      && once.Some?
      && MoveStatusResult(once.value, index - 1, Down) == Some(Renumbered(statuses, 2, StatusAt))
  {
    StatusAtKeepsId();
    RenumberedMoveBack(statuses, index, index - 1, 2, StatusAt);
  }
}
