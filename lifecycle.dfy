/** src/lib/utils/projectStatus.ts: the fixed six-value project lifecycle of
    the `ProjectStatus` enumeration, its display text and colour, and the
    stepping functions over the constant order. The stepping functions look
    the status string up with `indexOf`, so they are modelled on strings and
    say what they do for a string outside the enumeration too. */
module Lifecycle {
  import opened Seqs

  /** `ProjectStatus`. */
  datatype ProjectStatus = New | Preparation | Approval | Implementation | Documentation | Completed

  /** The string value of each member. */
  function Value(s: ProjectStatus): string {
    match s
    case New => "new"
    case Preparation => "preparation"
    case Approval => "approval"
    case Implementation => "implementation"
    case Documentation => "documentation"
    case Completed => "completed"
  }

  /** The constant `statusOrder` array. */
  const Order: seq<string> := ["new", "preparation", "approval", "implementation", "documentation", "completed"]

  /** `statusOrder.indexOf(s)`. */
  function IndexOf(order: seq<string>, s: string): (i: int)
    ensures -1 <= i < |order|
    ensures i == -1 <==> s !in order
    ensures 0 <= i ==> order[i] == s && s !in order[..i]
  {
    if order == [] then -1
    else if order[0] == s then 0
    else
      var j := IndexOf(order[1..], s);
      assert order[1..][..if j < 0 then 0 else j] == order[1..if j < 0 then 1 else j + 1];
      if j == -1 then -1 else j + 1
  }

  /** `getNextStatus`. */
  function NextStatus(current: string): (r: Option<string>)
    ensures r.None? <==> current !in Order || current == "completed"
    ensures r.Some? ==> exists k :: 0 <= k < |Order| - 1 && Order[k] == current && r.value == Order[k + 1]
    ensures r != Some("new")
  {
    var i := IndexOf(Order, current);
    if i == -1 || i == |Order| - 1 then None else Some(Order[i + 1])
  }

  /** `getPreviousStatus`: there is no way back before `preparation`. */
  function PreviousStatus(current: string): (r: Option<string>)
    ensures r.None? <==> current !in Order[2..]
    ensures r.Some? ==> exists k :: 2 <= k < |Order| && Order[k] == current && r.value == Order[k - 1]
    ensures r != Some("new")
  {
    assert Order[2..] == ["approval", "implementation", "documentation", "completed"];
    var i := IndexOf(Order, current);
    if i <= 1 then None else Some(Order[i - 1])
  }

  /** `isStatusEditable`. */
  function IsEditable(status: string): (editable: bool)
    ensures editable <==> IndexOf(Order, status) != 0 && IndexOf(Order, status) != |Order| - 1
  {
    status != "new" && status != "completed"
  }

  /** `getStatusText`. */
  function StatusText(s: ProjectStatus): string {
    match s
    case New => "Nový"
    case Preparation => "Příprava"
    case Approval => "Schvalování"
    case Implementation => "Realizace"
    case Documentation => "Dokumentace"
    case Completed => "Dokončeno"
  }

  /** `getStatusColor`. */
  function StatusColor(s: ProjectStatus): string {
    match s
    case New => "bg-gray-100 text-gray-800"
    case Preparation => "bg-blue-100 text-blue-800"
    case Approval => "bg-yellow-100 text-yellow-800"
    case Implementation => "bg-purple-100 text-purple-800"
    case Documentation => "bg-orange-100 text-orange-800"
    case Completed => "bg-green-100 text-green-800"
  }

  /** The members in lifecycle order. */
  function Rank(s: ProjectStatus): (k: nat)
    ensures k < |Order| && Order[k] == Value(s)
  {
    match s
    case New => 0
    case Preparation => 1
    case Approval => 2
    case Implementation => 3
    case Documentation => 4
    case Completed => 5
  }

  // -----------------------------------------------------------------------
  // Properties.

  /** The order is new, preparation, approval, implementation, documentation,
      completed, and each member's value sits at its rank. */
  lemma OrderIsLifecycle(s: ProjectStatus)
    ensures IndexOf(Order, Value(s)) == Rank(s)
  {
    IndexOfAt(Rank(s));
  }

  /** Each entry of the order is found at its own index. */
  lemma IndexOfAt(k: nat)
    requires k < |Order|
    ensures IndexOf(Order, Order[k]) == k
  {
    var i := IndexOf(Order, Order[k]);
    InitialsDistinct();
    assert Order[i][0] == Order[k][0];
  }

  /** The six values already differ in their first letters. */
  lemma InitialsDistinct()
    ensures forall i, k :: 0 <= i < |Order| && 0 <= k < |Order| && i != k ==> Order[i] != [] && Order[k] != [] && Order[i][0] != Order[k][0]
  {
  }

  /** Stepping back and then forward returns to the start. */
  lemma NextOfPrevious(s: string)
    requires PreviousStatus(s).Some?
    ensures NextStatus(PreviousStatus(s).value) == Some(s)
  {
    var i := IndexOf(Order, s);
    assert 2 <= i && PreviousStatus(s).value == Order[i - 1];
    IndexOfAt(i - 1);
    assert Order[i - 1 + 1] == s;
  }

  /** Stepping forward and then back returns to the start for preparation
      through documentation, but not for `new`. */
  lemma PreviousOfNext(s: string)
    requires s in Order[1..5]
    ensures NextStatus(s).Some? && PreviousStatus(NextStatus(s).value) == Some(s)
  {
    var j :| 0 <= j < |Order[1..5]| && Order[1..5][j] == s;
    var k := j + 1;
    assert Order[k] == s;
    IndexOfAt(k);
    IndexOfAt(k + 1);
  }

  lemma PreviousOfNextNew()
    ensures NextStatus("new") == Some("preparation")
    ensures PreviousStatus("preparation") == None
  {
  }

  /** Exactly the four middle members are editable. */
  lemma EditableMiddle(s: ProjectStatus)
    ensures IsEditable(Value(s)) <==> 1 <= Rank(s) <= 4
  {
  }

  /** A string outside the enumeration counts as editable. */
  lemma EditableOutside(s: string)
    requires s !in Order
    ensures IsEditable(s)
  {
  }

  /** Text and colour are given for every member, and no two members share
      either. */
  lemma TextAndColorDistinct(s: ProjectStatus, t: ProjectStatus)
    ensures StatusText(s) != [] && StatusColor(s) != []
    ensures s != t ==> StatusText(s) != StatusText(t) && StatusColor(s) != StatusColor(t)
  {
  }
}
