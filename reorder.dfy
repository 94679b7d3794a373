/** The two reorder flows that end in `reorderProjectStatuses`: the
    settings page stores the list `moveStatus` produced (positions from 2),
    the dashboard sends the list `handleMoveStatus` produced (positions
    from 0). The function as written drops both numberings and writes
    `index + 1`; with the positions kept instead, the rows stored agree
    with the list the caller holds. */
module StatusReorder {
  import opened Seqs
  import opened StatusModel
  import opened ListMoves
  import opened ProjectStatuses
  import StatusList
  import Dashboard

  /** As written, after a settings move every stored position is one less
      than the position the page keeps showing, so the first regular status
      is stored at 1. */
  lemma SettingsReorderStoresShifted(statuses: seq<StatusDef>, index: nat, direction: Direction)
    requires index < |statuses|
    ensures var r := StatusList.MoveStatusResult(statuses, index, direction);
      r.Some? ==> forall i :: 0 <= i < |statuses| ==>
        ReorderRows(r.value)[i].position == r.value[i].position - 1 == i + 1
  {
  }

  /** As written, after a dashboard move every stored position is one more
      than the one the dashboard computed. */
  lemma DashboardReorderStoresShifted(cards: seq<StatusDef>, index: nat, direction: Direction)
    requires index < |cards|
    ensures var r := Dashboard.MoveCardResult(cards, index, direction);
      r.Some? ==> forall i :: 0 <= i < |cards| ==>
        ReorderRows(r.value)[i].position == r.value[i].position + 1
  {
    var r := Dashboard.MoveCardResult(cards, index, direction);
    if r.Some? {
      forall i | 0 <= i < |cards|
        ensures r.value[i].position == i
      {
        var j := Target(index, direction);
        if i != index && i != j {
          assert r.value[i] == StatusAt(cards[i], i);
        }
      }
    }
  }

  /** A two-status list where the as-written reorder stores the first
      regular status at position 1 although the page shows it at 2. */
  lemma SettingsReorderExample(a: StatusDef, b: StatusDef)
    requires a.kind == Regular && b.kind == Regular
    ensures var r := StatusList.MoveStatusResult([a, b], 0, Down);
      && r.Some? && r.value[0].id == b.id && r.value[0].position == 2
      && ReorderRows(r.value)[0].position == 1
  {
  }

  /** With the caller's positions kept, the settings rows hold 2, 3, ... in
      list order, so the regular statuses stay behind position 1 and the
      stored order is the order shown. */
  lemma SettingsReorderKeepingPositions(statuses: seq<StatusDef>, index: nat, direction: Direction)
    requires index < |statuses|
    ensures var r := StatusList.MoveStatusResult(statuses, index, direction);
      r.Some? ==>
        && (forall i :: 0 <= i < |statuses| ==> ReorderRowsKeepingPositions(r.value)[i].position == r.value[i].position == i + 2)
        && (forall i, k :: 0 <= i < k < |statuses| ==> ReorderRowsKeepingPositions(r.value)[i].position < ReorderRowsKeepingPositions(r.value)[k].position)
  {
  }

  /** With the caller's positions kept, the dashboard rows hold what the
      dashboard computed: 0, 1, ... in list order. */
  lemma DashboardReorderKeepingPositions(cards: seq<StatusDef>, index: nat, direction: Direction)
    requires index < |cards|
    ensures var r := Dashboard.MoveCardResult(cards, index, direction);
      r.Some? ==> forall i :: 0 <= i < |cards| ==> ReorderRowsKeepingPositions(r.value)[i].position == i
  {
    DashboardReorderStoresShifted(cards, index, direction);
  }

  /** Mapping the kept rows back gives each status with its fields and its
      position, so a reload after the reorder shows the list as stored. */
  lemma KeptRowsMapBack(statuses: seq<StatusDef>, i: nat, steps: seq<StepRow>)
    requires i < |statuses|
    ensures var s := MapStatus(ReorderRowsKeepingPositions(statuses)[i], steps);
      && s.id == statuses[i].id && s.code == statuses[i].code && s.kind == statuses[i].kind
      && s.position == statuses[i].position
  {
  }
}
