/** src/lib/api/projectStatuses.ts without its remote calls: the mapping of
    database rows to `ProjectStatusSettings`, the grouping of step rows under
    their statuses, the position given to a new status, the rows written by
    a reorder and the rows a delete leaves. */
module ProjectStatuses {
  import opened Seqs
  import opened StatusModel

  /** A row of `project_statuses`; `None` stands for a null column. */
  datatype StatusRow = StatusRow(
    id: string,
    code: string,
    name: string,
    description: Option<string>,
    icon: string,
    color: string,
    showOnDashboard: bool,
    kind: StatusType,
    position: int)

  /** A row of `project_status_steps`. */
  datatype StepRow = StepRow(id: string, statusId: string, name: string, description: Option<string>, position: int)

  /** `description || undefined`: null and the empty string both become
      absent; any other text is kept. */
  function Falsy(d: Option<string>): (r: Option<string>)
    ensures r.None? <==> d.None? || d == Some("")
    ensures r.Some? ==> r == d
  {
    if d.None? || d.value == "" then None else d
  }

  /** `mapStepFromDb`. */
  function MapStep(row: StepRow): (st: Step)
    ensures st.id == row.id && st.statusId == row.statusId && st.name == row.name && st.position == row.position
    ensures st.description == Falsy(row.description)
  {
    Step(row.id, row.statusId, row.name, Falsy(row.description), row.position)
  }

  /** `steps.map(mapStepFromDb)`. */
  function MapSteps(rows: seq<StepRow>): (r: seq<Step>)
    ensures |r| == |rows|
    ensures forall i :: 0 <= i < |rows| ==> r[i] == MapStep(rows[i])
  {
    if rows == [] then [] else [MapStep(rows[0])] + MapSteps(rows[1..])
  }

  /** `mapStatusFromDb(status, steps)`: the columns renamed, a falsy
      description dropped, and the steps mapped and put in position order.
      Called without steps, it gives a status with no steps. */
  function MapStatus(row: StatusRow, steps: seq<StepRow>): (s: StatusDef)
    ensures s.id == row.id && s.code == row.code && s.name == row.name
    ensures s.icon == row.icon && s.color == row.color && s.showOnDashboard == row.showOnDashboard
    ensures s.kind == row.kind && s.position == row.position
    ensures s.description == Falsy(row.description)
    ensures multiset(s.steps) == multiset(MapSteps(steps))
    ensures SortedBy(s.steps, StepLe)
    ensures steps == [] ==> s.steps == []
  {
    StatusDef(row.id, row.code, row.name, Falsy(row.description), row.icon, row.color,
              row.showOnDashboard, row.kind, row.position, StepsByPosition(MapSteps(steps)))
  }

  /** `steps.filter(step => step.status_id === id)`. */
  function StepsFor(steps: seq<StepRow>, id: string): seq<StepRow> {
    Filter(steps, (r: StepRow) => r.statusId == id)
  }

  /** Each status row mapped with its own step rows. */
  function MapRows(rows: seq<StatusRow>, steps: seq<StepRow>): (r: seq<StatusDef>)
    ensures |r| == |rows|
    ensures forall i :: 0 <= i < |rows| ==> r[i] == MapStatus(rows[i], StepsFor(steps, rows[i].id))
  {
    if rows == [] then []
    else [MapStatus(rows[0], StepsFor(steps, rows[0].id))] + MapRows(rows[1..], steps)
  }

  /** `getProjectStatuses`: `None` when either read fails (the function
      throws); otherwise the mapped statuses in position order. */
  function GetProjectStatuses(statusRows: Option<seq<StatusRow>>, stepRows: Option<seq<StepRow>>): (r: Option<seq<StatusDef>>)
    ensures r.None? <==> statusRows.None? || stepRows.None?
    ensures r.Some? ==> multiset(r.value) == multiset(MapRows(statusRows.value, stepRows.value))
    ensures r.Some? ==> SortedBy(r.value, StatusLe)
  {
    if statusRows.None? || stepRows.None? then None
    else Some(ByPosition(MapRows(statusRows.value, stepRows.value)))
  }

  /** The mapping of steps loses nothing: distinct rows give distinct steps. */
  lemma MapStepInjective(a: StepRow, b: StepRow)
    requires MapStep(a) == MapStep(b)
    requires Falsy(a.description) == a.description && Falsy(b.description) == b.description
    ensures a == b
  {
  }

  /** Each status of the result comes from one fetched row, and its steps are
      exactly the mapped step rows that name that status: a step row is among
      them if and only if its `status_id` is the status's id. */
  lemma GroupingExact(statusRows: seq<StatusRow>, stepRows: seq<StepRow>, i: nat)
    requires i < |ByPosition(MapRows(statusRows, stepRows))|
    ensures var s := ByPosition(MapRows(statusRows, stepRows))[i];
      && (exists j :: 0 <= j < |statusRows| && statusRows[j].id == s.id && statusRows[j].position == s.position)
      && (forall st :: st in s.steps ==> st.statusId == s.id)
      && (forall row :: row in stepRows ==> (row.statusId == s.id <==> MapStep(row) in s.steps))
  {
    var mapped := MapRows(statusRows, stepRows);
    var s := ByPosition(mapped)[i];
    assert s in multiset(mapped);
    var j :| 0 <= j < |mapped| && mapped[j] == s;
    OwnStepsExact(statusRows[j], stepRows);
  }

  /** A status mapped with `StepsFor` holds the mapped rows naming it, and
      nothing else. */
  lemma OwnStepsExact(row: StatusRow, stepRows: seq<StepRow>)
    ensures var s := MapStatus(row, StepsFor(stepRows, row.id));
      && (forall st :: st in s.steps ==> st.statusId == s.id)
      && (forall r :: r in stepRows ==> (r.statusId == s.id <==> MapStep(r) in s.steps))
  {
    OwnStepsBelong(row, stepRows);
    OwnStepsComplete(row, stepRows);
  }

  lemma OwnStepsBelong(row: StatusRow, stepRows: seq<StepRow>)
    ensures forall st :: st in MapStatus(row, StepsFor(stepRows, row.id)).steps ==> st.statusId == row.id
  {
    var own := StepsFor(stepRows, row.id);
    var s := MapStatus(row, own);
    forall st | st in s.steps ensures st.statusId == row.id {
      StepFromOwn(own, row.id, st);
    }
  }

  lemma OwnStepsComplete(row: StatusRow, stepRows: seq<StepRow>)
    ensures forall r :: r in stepRows ==> (r.statusId == row.id <==> MapStep(r) in MapStatus(row, StepsFor(stepRows, row.id)).steps)
  {
    var own := StepsFor(stepRows, row.id);
    var s := MapStatus(row, own);
    OwnStepsBelong(row, stepRows);
    forall r | r in stepRows ensures r.statusId == row.id <==> MapStep(r) in s.steps {
      if r.statusId == row.id {
        OwnInSteps(own, r);
      }
    }
  }

  lemma {:induction false} StepFromOwn(own: seq<StepRow>, id: string, st: Step)
    requires forall k :: 0 <= k < |own| ==> own[k].statusId == id
    requires st in multiset(MapSteps(own))
    ensures st.statusId == id
  {
    assert st in MapSteps(own);
  }

  lemma {:induction false} OwnInSteps(own: seq<StepRow>, r: StepRow)
    requires r in own
    ensures MapStep(r) in multiset(MapSteps(own))
  {
    var k :| 0 <= k < |own| && own[k] == r;
    assert MapSteps(own)[k] == MapStep(r);
  }

  // -----------------------------------------------------------------------
  // Creating, reordering and deleting.

  /** The fields a new status is created from. */
  datatype NewStatus = NewStatus(code: string, name: string, description: Option<string>,
                                 icon: string, color: string, showOnDashboard: bool)

  /** The largest of a non-empty list of positions. */
  function MaxOf(xs: seq<int>): (m: int)
    requires xs != []
    ensures m in xs
    ensures forall i :: 0 <= i < |xs| ==> xs[i] <= m
  {
    if |xs| == 1 then xs[0]
    else
      var m := MaxOf(xs[1..]);
      if xs[0] >= m then xs[0] else m
  }

  /** The position `createProjectStatus` gives a new status, from the
      positions of the regular statuses: one more than the highest, where a
      missing or zero highest position counts as 1. A failed read of the
      positions yields no row and so counts as missing. */
  function NewStatusPosition(regularPositions: seq<int>): (p: int)
    ensures forall i :: 0 <= i < |regularPositions| ==> regularPositions[i] < p
    ensures regularPositions == [] ==> p == 2
    ensures regularPositions != [] && MaxOf(regularPositions) != 0 ==> p == MaxOf(regularPositions) + 1
    ensures regularPositions != [] && MaxOf(regularPositions) == 0 ==> p == 2
  {
    var last := if regularPositions == [] || MaxOf(regularPositions) == 0 then 1 else MaxOf(regularPositions);
    last + 1
  }

  /** `createProjectStatus`: the inserted row, read back and mapped without
      steps; `None` when the insert fails. The database assigns `id`. */
  function CreateProjectStatus(data: NewStatus, regularPositions: seq<int>, id: string, insertOk: bool): (r: Option<StatusDef>)
    ensures r.None? <==> !insertOk
    ensures r.Some? ==> var s := r.value;
      && s.kind == Regular
      && s.steps == []
      && s.id == id && s.code == data.code && s.name == data.name
      && s.icon == data.icon && s.color == data.color && s.showOnDashboard == data.showOnDashboard
      && s.description == Falsy(data.description)
      && s.position == NewStatusPosition(regularPositions)
      && forall i :: 0 <= i < |regularPositions| ==> regularPositions[i] < s.position
  {
    if !insertOk then None
    else
      var row := StatusRow(id, data.code, data.name, data.description, data.icon, data.color,
                           data.showOnDashboard, Regular, NewStatusPosition(regularPositions));
      Some(MapStatus(row, []))
  }

  /** The row written for a status by a reorder. */
  function RowOf(s: StatusDef, position: int): StatusRow {
    StatusRow(s.id, s.code, s.name, s.description, s.icon, s.color, s.showOnDashboard, s.kind, position)
  }

  /** `reorderProjectStatuses`: the rows upserted, in list order, where the
      status at index `i` gets position `i + 1` and keeps every other field. */
  function ReorderRows(statuses: seq<StatusDef>): (r: seq<StatusRow>)
    ensures |r| == |statuses|
    ensures forall i :: 0 <= i < |statuses| ==> r[i].position == i + 1
    ensures forall i :: 0 <= i < |statuses| ==>
      && r[i].id == statuses[i].id && r[i].code == statuses[i].code && r[i].name == statuses[i].name
      && r[i].description == statuses[i].description && r[i].icon == statuses[i].icon
      && r[i].color == statuses[i].color && r[i].showOnDashboard == statuses[i].showOnDashboard
      && r[i].kind == statuses[i].kind
    decreases |statuses|
  {
    ReorderFrom(statuses, 1)
  }

  function ReorderFrom(statuses: seq<StatusDef>, first: int): (r: seq<StatusRow>)
    ensures |r| == |statuses|
    ensures forall i :: 0 <= i < |statuses| ==> r[i] == RowOf(statuses[i], first + i)
  {
    if statuses == [] then [] else [RowOf(statuses[0], first)] + ReorderFrom(statuses[1..], first + 1)
  }

  /** A reorder that stores the positions its caller computed, as both
      callers evidently expect: every row keeps the status's fields,
      position included. */
  function ReorderRowsKeepingPositions(statuses: seq<StatusDef>): (r: seq<StatusRow>)
    ensures |r| == |statuses|
    ensures forall i :: 0 <= i < |statuses| ==> r[i].position == statuses[i].position
    ensures forall i :: 0 <= i < |statuses| ==>
      && r[i].id == statuses[i].id && r[i].code == statuses[i].code && r[i].name == statuses[i].name
      && r[i].description == statuses[i].description && r[i].icon == statuses[i].icon
      && r[i].color == statuses[i].color && r[i].showOnDashboard == statuses[i].showOnDashboard
      && r[i].kind == statuses[i].kind
  {
    seq(|statuses|, i requires 0 <= i < |statuses| => RowOf(statuses[i], statuses[i].position))
  }

  /** The rows a `deleteProjectStatus(id)` leaves: the delete matches the id
      and the type `regular` together. */
  function DeleteProjectStatus(rows: seq<StatusRow>, id: string): (r: seq<StatusRow>)
    ensures forall x :: x in r <==> x in rows && !(x.id == id && x.kind == Regular)
    ensures forall i :: 0 <= i < |rows| && rows[i].kind != Regular ==> rows[i] in r
    ensures multiset(r) <= multiset(rows)
  {
    Filter(rows, (x: StatusRow) => !(x.id == id && x.kind == Regular))
  }

  /** Initial and final statuses survive every delete, in number too. */
  lemma DeleteKeepsInitialAndFinal(rows: seq<StatusRow>, id: string, k: StatusType)
    requires k != Regular
    ensures CountIf(DeleteProjectStatus(rows, id), (x: StatusRow) => x.kind == k) == CountIf(rows, (x: StatusRow) => x.kind == k)
  {
    DeleteCount(rows, id, k);
  }

  lemma {:induction false} DeleteCount(rows: seq<StatusRow>, id: string, k: StatusType)
    requires k != Regular
    ensures CountIf(Filter(rows, (x: StatusRow) => !(x.id == id && x.kind == Regular)), (x: StatusRow) => x.kind == k)
         == CountIf(rows, (x: StatusRow) => x.kind == k)
  {
    if rows != [] {
      DeleteCount(rows[1..], id, k);
      var keep := (x: StatusRow) => !(x.id == id && x.kind == Regular);
      if keep(rows[0]) {
        assert Filter(rows, keep) == [rows[0]] + Filter(rows[1..], keep);
        assert ([rows[0]] + Filter(rows[1..], keep))[1..] == Filter(rows[1..], keep);
      }
    }
  }
}
