/**
 * The agent summary table: one row per agent that has tickets in scope,
 * sorted by name, with per-age-column ticket counts read either across all of
 * an agent's departments or from the selected department, and a total column.
 */
module AgentSummary {
  import opened Wrappers
  import opened JsText
  import opened Sorting
  import opened TicketStatus
  import opened Entities
  import DepartmentTable

  /** The age columns of the summary table. */
  datatype AgeColumn = FifteenDays | SixteenToThirty | Month {
    /** The key `selectedAges` names the column by. */
    function Key(): string {
      match this
      case FifteenDays => "fifteenDays"
      case SixteenToThirty => "sixteenToThirty"
      case Month => "month"
    }

    /** The age part of the aging-count field names the column reads. */
    function AgeProp(): AgeProp {
      match this
      case FifteenDays => BetweenOneAndFifteenDays
      case SixteenToThirty => BetweenSixteenAndThirtyDays
      case Month => OlderThanThirtyDays
    }
  }

  const AgeColumns: seq<AgeColumn> := [FifteenDays, SixteenToThirty, Month]

  /** The columns whose key is selected, in their fixed order. */
  function VisibleColumns(selectedAges: seq<string>): (r: seq<AgeColumn>)
    ensures forall col :: col in r <==> col.Key() in selectedAges
    ensures |r| <= 3
  {
    (if FifteenDays.Key() in selectedAges then [FifteenDays] else [])
    + (if SixteenToThirty.Key() in selectedAges then [SixteenToThirty] else [])
    + (if Month.Key() in selectedAges then [Month] else [])
  }

  // ---------------------------------------------------------------------------
  // Counting an agent's tickets

  /** One (status, age) list from every department entry, one after another. */
  function AcrossDepartments(dac: seq<DeptAging>, status: string, age: AgeProp): seq<TicketNumber> {
    if dac == [] then []
    else AcrossDepartments(dac[..|dac| - 1], status, age) + AgingTickets(dac[|dac| - 1].counts, status, age)
  }

  /** A ticket is in the flattened list exactly when some department entry lists it. */
  lemma {:induction false} AcrossMembers(dac: seq<DeptAging>, status: string, age: AgeProp)
    ensures forall t :: t in AcrossDepartments(dac, status, age) <==>
      exists e :: e in dac && t in AgingTickets(e.counts, status, age)
  {
    if dac != [] {
      var init := dac[..|dac| - 1];
      AcrossMembers(init, status, age);
      assert dac == init + [dac[|dac| - 1]];
    }
  }

  /** With distinct ids, each entry is the one the lookup of its id finds. */
  lemma LookupAgingEvery(dac: seq<DeptAging>, sel: string)
    ensures DistinctAgingIds(dac) ==>
      forall k :: 0 <= k < |dac| && dac[k].departmentId == sel ==> LookupAging(dac, sel) == Some(dac[k].counts)
  {
    if DistinctAgingIds(dac) {
      forall k | 0 <= k < |dac| && dac[k].departmentId == sel
        ensures LookupAging(dac, sel) == Some(dac[k].counts)
      {
        LookupAgingAt(dac, k);
      }
    }
  }

  /**
   * The ticket numbers of one (status, age) cell: across all departments when
   * none is selected (`sel` is ""), else from the selected department's entry,
   * or none when the agent has no entry for it.
   */
  function AggregateTickets(dac: seq<DeptAging>, sel: string, age: AgeProp, status: string): (r: seq<TicketNumber>)
    ensures sel != "" && (forall e :: e in dac ==> e.departmentId != sel) ==> r == []
    ensures sel != "" && r != [] ==> exists ac :: DeptAging(sel, ac) in dac && r == AgingTickets(ac, status, age)
    ensures sel != "" && DistinctAgingIds(dac) ==>
      forall k :: 0 <= k < |dac| && dac[k].departmentId == sel ==> r == AgingTickets(dac[k].counts, status, age)
    ensures sel == "" ==> forall t :: t in r <==> exists e :: e in dac && t in AgingTickets(e.counts, status, age)
  {
    if sel == "" then
      AcrossMembers(dac, status, age);
      AcrossDepartments(dac, status, age)
    else
      LookupAgingEvery(dac, sel);
      match LookupAging(dac, sel)
      case Some(ac) => AgingTickets(ac, status, age)
      case None => []
  }

  /**
   * The count of a cell: with no department selected, the lengths of every
   * department entry's list added up; with one selected but not reported, 0.
   */
  function CountFromArray(dac: seq<DeptAging>, sel: string, age: AgeProp, status: string): (r: nat)
    ensures sel == "" ==> r == OwnSum(dac, |dac|, age, status)
    ensures sel != "" && (forall e :: e in dac ==> e.departmentId != sel) ==> r == 0
  {
    AcrossPrefix(dac, |dac|, age, status);
    assert dac[..|dac|] == dac;
    |AggregateTickets(dac, sel, age, status)|
  }

  /** The figure shown in an age column: its counts over the four statuses. */
  function CellCount(dac: seq<DeptAging>, sel: string, col: AgeColumn): (r: nat)
    ensures forall s: CoreStatus :: CountFromArray(dac, sel, col.AgeProp(), s.Key()) <= r
    ensures sel != "" && (forall e :: e in dac ==> e.departmentId != sel) ==> r == 0
  {
    CountFromArray(dac, sel, col.AgeProp(), Open.Key())
    + CountFromArray(dac, sel, col.AgeProp(), Hold.Key())
    + CountFromArray(dac, sel, col.AgeProp(), InProgress.Key())
    + CountFromArray(dac, sel, col.AgeProp(), Escalated.Key())
  }

  /** The total column: a left fold over the visible columns adding each column's figure. */
  function TotalColumn(dac: seq<DeptAging>, sel: string, cols: seq<AgeColumn>): (r: nat)
    ensures forall col :: col in cols ==> CellCount(dac, sel, col) <= r
    ensures sel != "" && (forall e :: e in dac ==> e.departmentId != sel) ==> r == 0
  {
    if cols == [] then 0
    else
      var init := cols[..|cols| - 1];
      assert forall col :: col in cols ==> col in init || col == cols[|cols| - 1];
      TotalColumn(dac, sel, init) + CellCount(dac, sel, cols[|cols| - 1])
  }

  // ---------------------------------------------------------------------------
  // The rows

  /** A row of the summary table. */
  datatype SummaryRow = SummaryRow(name: string, departmentAgingCounts: seq<DeptAging>, departmentName: string)

  /**
   * With a department selected: the agent has a positive ticket count for it,
   * or one of its aging lists for it passes `positive`, which stands for the
   * `v > 0` comparison JavaScript applies to an array; and the trimmed name is
   * allowed. With none selected: the five status totals add up to more than 0.
   */
  predicate KeepAgent(a: Agent, sel: string, names: seq<string>, positive: seq<TicketNumber> -> bool)
    ensures sel == "" ==> (KeepAgent(a, sel, names, positive) <==>
      a.tickets.open + a.tickets.hold + a.tickets.escalated + a.tickets.unassigned + a.tickets.inProgress > 0)
  {
    if sel != "" then
      var hasTickets :=
        (sel in a.departmentTicketCounts && a.departmentTicketCounts[sel] > 0)
        || (match LookupAging(a.departmentAgingCounts, sel)
            case Some(ac) => exists k :: k in ac && positive(ac[k])
            case None => false);
      hasTickets && (names == [] || Trim(a.name) in names)
    else
      a.tickets.open + a.tickets.hold + a.tickets.escalated + a.tickets.unassigned + a.tickets.inProgress > 0
  }

  /**
   * `departmentsMap?.[sel]?.name || sel`: the selected department's label as
   * the department table shows it, or the id itself when it is not configured.
   */
  function DepartmentLabel(departments: seq<DeptInfo>, sel: string): (r: string)
    ensures (forall d :: d in departments ==> d.id != sel) ==> r == sel
    ensures DistinctIds(departments) ==> forall d :: d in departments && d.id == sel ==> r == DepartmentTable.DisplayName(d)
    ensures r == sel || exists d :: d in departments && d.id == sel && d.name == Some(r) && r != ""
  {
    LookupDeptEvery(departments, sel);
    match LookupDept(departments, sel)
    case Some(d) => DepartmentTable.DisplayName(d)
    case None => sel
  }

  /** With distinct ids, every department with the id is the one the lookup finds. */
  lemma LookupDeptEvery(departments: seq<DeptInfo>, sel: string)
    ensures DistinctIds(departments) ==>
      forall d :: d in departments && d.id == sel ==> LookupDept(departments, sel) == Some(d)
  {
    if DistinctIds(departments) {
      forall d | d in departments && d.id == sel
        ensures LookupDept(departments, sel) == Some(d)
      {
        LookupDeptFinds(departments, d);
      }
    }
  }

  function ToRow(a: Agent, sel: string, departments: seq<DeptInfo>): SummaryRow {
    SummaryRow(a.name, a.departmentAgingCounts, if sel != "" then DepartmentLabel(departments, sel) else "")
  }

  /** The kept agents as rows, in input order. */
  function KeptRows(members: seq<Agent>, sel: string, names: seq<string>, departments: seq<DeptInfo>,
                    positive: seq<TicketNumber> -> bool): seq<SummaryRow>
  {
    if members == [] then []
    else
      var a := members[|members| - 1];
      KeptRows(members[..|members| - 1], sel, names, departments, positive)
      + (if KeepAgent(a, sel, names, positive) then [ToRow(a, sel, departments)] else [])
  }

  function NameKey(r: SummaryRow): SortKey {
    SortKey(Lower(r.name), 0)
  }

  /** `tableRows`: filter, map, sort by name. */
  function TableRows(members: seq<Agent>, sel: string, names: seq<string>, departments: seq<DeptInfo>,
                     positive: seq<TicketNumber> -> bool): (r: seq<SummaryRow>)
    ensures SortedBy(r, NameKey)
    ensures multiset(r) == multiset(KeptRows(members, sel, names, departments, positive))
  {
    var kept := KeptRows(members, sel, names, departments, positive);
    SortBySorted(kept, NameKey);
    SortByPermutes(kept, NameKey);
    SortBy(kept, NameKey)
  }

  // ---------------------------------------------------------------------------
  // What the counts mean

  /** The distinct department ids an agent reports, none of them empty. */
  predicate ProperIds(dac: seq<DeptAging>) {
    DistinctAgingIds(dac) && forall k :: 0 <= k < |dac| ==> dac[k].departmentId != ""
  }

  lemma LookupAgingAt(dac: seq<DeptAging>, k: nat)
    requires DistinctAgingIds(dac) && k < |dac|
    ensures LookupAging(dac, dac[k].departmentId) == Some(dac[k].counts)
  {
    assert dac[k] in dac;
    var r := LookupAging(dac, dac[k].departmentId);
    if r.Some? {
      var j :| 0 <= j < |dac| && dac[j] == DeptAging(dac[k].departmentId, r.value);
      if j < k {
        assert dac[j].departmentId == dac[k].departmentId;
      } else if k < j {
        assert dac[k].departmentId == dac[j].departmentId;
      }
    }
  }

  /** The counts with each of the first `n` entries' departments selected in turn, added up. */
  function PerDepartmentSum(dac: seq<DeptAging>, n: nat, age: AgeProp, status: string): nat
    requires n <= |dac|
  {
    if n == 0 then 0
    else PerDepartmentSum(dac, n - 1, age, status) + CountFromArray(dac, dac[n - 1].departmentId, age, status)
  }

  /** The lengths of the first `n` entries' own (status, age) lists, added up. */
  function OwnSum(dac: seq<DeptAging>, n: nat, age: AgeProp, status: string): nat
    requires n <= |dac|
  {
    if n == 0 then 0
    else OwnSum(dac, n - 1, age, status) + |AgingTickets(dac[n - 1].counts, status, age)|
  }

  lemma {:induction false} AcrossPrefix(dac: seq<DeptAging>, n: nat, age: AgeProp, status: string)
    requires n <= |dac|
    ensures |AcrossDepartments(dac[..n], status, age)| == OwnSum(dac, n, age, status)
  {
    if n > 0 {
      AcrossPrefix(dac, n - 1, age, status);
      assert dac[..n][..n - 1] == dac[..n - 1];
    }
  }

  lemma {:induction false} OwnIsPerDepartment(dac: seq<DeptAging>, n: nat, age: AgeProp, status: string)
    requires ProperIds(dac) && n <= |dac|
    ensures PerDepartmentSum(dac, n, age, status) == OwnSum(dac, n, age, status)
  {
    if n > 0 {
      OwnIsPerDepartment(dac, n - 1, age, status);
      LookupAgingAt(dac, n - 1);
      assert dac[n - 1].departmentId != "";
    }
  }

  /**
   * With no department selected, a cell counts the tickets of every
   * department: the sum of the counts shown with each department selected.
   */
  lemma AllDepartmentsIsSumOfEach(dac: seq<DeptAging>, age: AgeProp, status: string)
    requires ProperIds(dac)
    ensures CountFromArray(dac, "", age, status) == PerDepartmentSum(dac, |dac|, age, status)
  {
    AcrossPrefix(dac, |dac|, age, status);
    OwnIsPerDepartment(dac, |dac|, age, status);
    assert dac[..|dac|] == dac;
  }

  /**
   * With a department selected, a cell counts that department's list, and is
   * 0 when the agent has no entry for the department.
   */
  lemma SelectedDepartmentCount(dac: seq<DeptAging>, sel: string, age: AgeProp, status: string)
    requires sel != ""
    ensures DistinctAgingIds(dac) ==> forall k :: 0 <= k < |dac| && dac[k].departmentId == sel ==>
      CountFromArray(dac, sel, age, status) == |AgingTickets(dac[k].counts, status, age)|
    ensures (forall k :: 0 <= k < |dac| ==> dac[k].departmentId != sel) ==> CountFromArray(dac, sel, age, status) == 0
  {
    if DistinctAgingIds(dac) {
      forall k | 0 <= k < |dac| && dac[k].departmentId == sel
        ensures CountFromArray(dac, sel, age, status) == |AgingTickets(dac[k].counts, status, age)|
      {
        LookupAgingAt(dac, k);
      }
    }
  }

  /** The tooltip of an age column: its lists for the statuses of `statuses`, concatenated. */
  function StatusTickets(dac: seq<DeptAging>, sel: string, col: AgeColumn, statuses: seq<CoreStatus>): seq<TicketNumber> {
    if statuses == [] then []
    else StatusTickets(dac, sel, col, statuses[..|statuses| - 1])
         + AggregateTickets(dac, sel, col.AgeProp(), statuses[|statuses| - 1].Key())
  }

  function TooltipTickets(dac: seq<DeptAging>, sel: string, col: AgeColumn): seq<TicketNumber> {
    StatusTickets(dac, sel, col, StatusOrder)
  }

  /** The figure in an age column is the number of tickets its tooltip lists. */
  lemma CellCountIsTooltipLength(dac: seq<DeptAging>, sel: string, col: AgeColumn)
    ensures CellCount(dac, sel, col) == |TooltipTickets(dac, sel, col)|
  {
    var age := col.AgeProp();
    assert [Open][..0] == [];
    assert [Open, Hold][..1] == [Open];
    assert [Open, Hold, InProgress][..2] == [Open, Hold];
    assert StatusOrder[..3] == [Open, Hold, InProgress];
    assert StatusTickets(dac, sel, col, [Open]) == AggregateTickets(dac, sel, age, "open");
    assert StatusTickets(dac, sel, col, [Open, Hold])
        == AggregateTickets(dac, sel, age, "open") + AggregateTickets(dac, sel, age, "hold");
    assert StatusTickets(dac, sel, col, [Open, Hold, InProgress])
        == AggregateTickets(dac, sel, age, "open") + AggregateTickets(dac, sel, age, "hold")
           + AggregateTickets(dac, sel, age, "inProgress");
  }

  /** The tickets listed in the tooltips of `cols`. */
  function VisibleTickets(dac: seq<DeptAging>, sel: string, cols: seq<AgeColumn>): seq<TicketNumber> {
    if cols == [] then []
    else VisibleTickets(dac, sel, cols[..|cols| - 1]) + TooltipTickets(dac, sel, cols[|cols| - 1])
  }

  /**
   * The total column counts every ticket of the four statuses in the visible
   * age columns, and so is the sum of the figures of those columns.
   */
  lemma {:induction false} TotalCountsVisibleTickets(dac: seq<DeptAging>, sel: string, cols: seq<AgeColumn>)
    ensures TotalColumn(dac, sel, cols) == |VisibleTickets(dac, sel, cols)|
  {
    if cols != [] {
      TotalCountsVisibleTickets(dac, sel, cols[..|cols| - 1]);
      CellCountIsTooltipLength(dac, sel, cols[|cols| - 1]);
    }
  }

  // ---------------------------------------------------------------------------
  // What the rows are

  lemma {:induction false} KeptRowsMembers(members: seq<Agent>, sel: string, names: seq<string>, departments: seq<DeptInfo>,
                                           positive: seq<TicketNumber> -> bool, r: SummaryRow)
    ensures r in KeptRows(members, sel, names, departments, positive) <==>
      exists a :: a in members && KeepAgent(a, sel, names, positive) && r == ToRow(a, sel, departments)
  {
    if members != [] {
      var init := members[..|members| - 1];
      KeptRowsMembers(init, sel, names, departments, positive, r);
      assert members == init + [members[|members| - 1]];
    }
  }

  /**
   * The table lists the kept agents once each, ordered by case-insensitive
   * name; a row is in the table exactly when it is a kept agent's row.
   */
  lemma TableRowsSpec(members: seq<Agent>, sel: string, names: seq<string>, departments: seq<DeptInfo>,
                      positive: seq<TicketNumber> -> bool)
    ensures SortedBy(TableRows(members, sel, names, departments, positive), NameKey)
    ensures multiset(TableRows(members, sel, names, departments, positive))
         == multiset(KeptRows(members, sel, names, departments, positive))
    ensures forall r :: r in TableRows(members, sel, names, departments, positive) <==>
      exists a :: a in members && KeepAgent(a, sel, names, positive) && r == ToRow(a, sel, departments)
  {
    SortBySorted(KeptRows(members, sel, names, departments, positive), NameKey);
    SortByPermutes(KeptRows(members, sel, names, departments, positive), NameKey);
    forall r ensures r in TableRows(members, sel, names, departments, positive) <==>
      exists a :: a in members && KeepAgent(a, sel, names, positive) && r == ToRow(a, sel, departments)
    {
      KeptRowsMembers(members, sel, names, departments, positive, r);
      assert r in TableRows(members, sel, names, departments, positive)
        <==> r in multiset(KeptRows(members, sel, names, departments, positive));
    }
  }

  /**
   * With no department selected, an agent is shown exactly when its open,
   * hold, escalated, unassigned and in-progress totals add up to more than 0;
   * the name allow-list and the aging lists play no part.
   */
  lemma NoDepartmentFilter(members: seq<Agent>, names: seq<string>, departments: seq<DeptInfo>,
                           positive: seq<TicketNumber> -> bool)
    ensures forall a :: (a in members && a.tickets.open + a.tickets.hold + a.tickets.escalated
                                         + a.tickets.unassigned + a.tickets.inProgress > 0
      ==> ToRow(a, "", departments) in TableRows(members, "", names, departments, positive))
    ensures forall r :: r in TableRows(members, "", names, departments, positive) ==>
      exists a :: a in members && r == ToRow(a, "", departments)
        && a.tickets.open + a.tickets.hold + a.tickets.escalated + a.tickets.unassigned + a.tickets.inProgress > 0
    ensures TableRows(members, "", names, departments, positive) == TableRows(members, "", [], departments, positive)
  {
    TableRowsSpec(members, "", names, departments, positive);
    KeptRowsIgnoreNames(members, names, departments, positive);
  }

  lemma {:induction false} KeptRowsIgnoreNames(members: seq<Agent>, names: seq<string>, departments: seq<DeptInfo>,
                                               positive: seq<TicketNumber> -> bool)
    ensures KeptRows(members, "", names, departments, positive) == KeptRows(members, "", [], departments, positive)
  {
    if members != [] {
      KeptRowsIgnoreNames(members[..|members| - 1], names, departments, positive);
    }
  }

  /**
   * With a department selected, an agent on the allow-list (or any agent, when
   * it is empty) with a positive ticket count for the department, or with one
   * of its aging lists for it passing `positive`, is shown.
   */
  lemma DepartmentFilterShows(members: seq<Agent>, sel: string, names: seq<string>, departments: seq<DeptInfo>,
                              positive: seq<TicketNumber> -> bool)
    requires sel != ""
    ensures forall a ::
              (a in members && (names == [] || Trim(a.name) in names)
               && ((sel in a.departmentTicketCounts && a.departmentTicketCounts[sel] > 0)
                   || (LookupAging(a.departmentAgingCounts, sel).Some?
                       && exists k :: k in LookupAging(a.departmentAgingCounts, sel).value
                                      && positive(LookupAging(a.departmentAgingCounts, sel).value[k]))))
              ==> ToRow(a, sel, departments) in TableRows(members, sel, names, departments, positive)
  {
    TableRowsSpec(members, sel, names, departments, positive);
  }

  /**
   * With a department selected, a shown agent has tickets there and, when
   * an allow-list is given, its trimmed name is on it.
   */
  lemma DepartmentFilter(members: seq<Agent>, sel: string, names: seq<string>, departments: seq<DeptInfo>,
                         positive: seq<TicketNumber> -> bool, r: SummaryRow)
    requires sel != "" && r in TableRows(members, sel, names, departments, positive)
    ensures r.departmentName == DepartmentLabel(departments, sel)
    ensures exists a :: (a in members && r.name == a.name && (names == [] || Trim(a.name) in names)
      && ((sel in a.departmentTicketCounts && a.departmentTicketCounts[sel] > 0)
          || exists ac, k :: DeptAging(sel, ac) in a.departmentAgingCounts && k in ac && positive(ac[k])))
  {
    TableRowsSpec(members, sel, names, departments, positive);
    var a :| a in members && KeepAgent(a, sel, names, positive) && r == ToRow(a, sel, departments);
    if !(sel in a.departmentTicketCounts && a.departmentTicketCounts[sel] > 0) {
      var ac := LookupAging(a.departmentAgingCounts, sel).value;
      var k :| k in ac && positive(ac[k]);
      assert DeptAging(sel, ac) in a.departmentAgingCounts;
    }
  }
}
