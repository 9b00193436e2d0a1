/**
 * The pending-tickets view: one row per pending ticket of every selected agent
 * that passes the department and status filters, sorted by agent name and
 * status precedence, then grouped so that each agent's rows sit together under
 * one merged name cell.
 */
module PendingTable {
  import opened Wrappers
  import opened JsText
  import opened Sorting
  import opened TicketStatus
  import opened Entities
  import opened Lists

  /**
   * The filters of the view. `departmentId` is "" when no department is
   * selected; `departments` is `departmentsMap`.
   */
  datatype Selection = Selection(
    departmentId: string,
    agentNames: seq<string>,
    statuses: seq<string>,
    departments: seq<DeptInfo>)

  /** A normalised `daysNotResponded`: blank, or a number of days. */
  datatype Days = Blank | Days(value: real)

  /** One row of the pending table. */
  datatype PendingRow = PendingRow(
    name: string,
    department: string,
    status: string,
    statusSort: nat,
    ticketNumber: string,
    ticketCreated: string,
    daysNotResponded: Days)

  /** The agent filters: department membership, then the name allow-list (no trimming here). */
  predicate AgentSelected(a: Agent, sel: Selection) {
    (sel.departmentId == "" || sel.departmentId in a.departmentIds)
    && (sel.agentNames == [] || a.name in sel.agentNames)
  }

  function SelectAgents(members: seq<Agent>, sel: Selection): (r: seq<Agent>)
    ensures forall a :: a in r <==> a in members && AgentSelected(a, sel)
  {
    if members == [] then []
    else (if AgentSelected(members[0], sel) then [members[0]] else []) + SelectAgents(members[1..], sel)
  }

  /** `departmentsMap[selectedDepartmentId]?.name` */
  function SelectedDeptName(sel: Selection): Option<string> {
    match LookupDept(sel.departments, sel.departmentId)
    case None => None
    case Some(d) => d.name
  }

  /**
   * The ticket's department matches the selection by id, or by name; two
   * absent names compare equal, as `undefined === undefined` does.
   */
  predicate InDepartment(t: PendingTicket, sel: Selection)
    ensures sel.departmentId == "" ==> InDepartment(t, sel)
    ensures t.departmentId == Some(sel.departmentId) ==> InDepartment(t, sel)
    ensures t.departmentName.None? && (forall d :: d in sel.departments && d.id == sel.departmentId ==> d.name.None?)
            ==> InDepartment(t, sel)
  {
    sel.departmentId == ""
    || t.departmentId == Some(sel.departmentId)
    || t.departmentName == SelectedDeptName(sel)
  }

  /**
   * The department filter in terms of the configured departments: no selection,
   * the selected id, the selected department's name (absent names comparing
   * equal), or no name on a ticket when the selected id is not configured.
   */
  lemma InDepartmentIff(t: PendingTicket, sel: Selection)
    requires DistinctIds(sel.departments)
    ensures InDepartment(t, sel) <==>
      sel.departmentId == ""
      || t.departmentId == Some(sel.departmentId)
      || (exists d :: d in sel.departments && d.id == sel.departmentId && t.departmentName == d.name)
      || (t.departmentName.None? && forall d :: d in sel.departments ==> d.id != sel.departmentId)
  {
    forall d | d in sel.departments && d.id == sel.departmentId
      ensures SelectedDeptName(sel) == d.name
    {
      LookupDeptFinds(sel.departments, d);
    }
  }

  /** The set of normalised selected statuses, or None when no status is selected. */
  function StatusFilter(statuses: seq<string>): (r: Option<set<string>>)
    ensures r.None? <==> statuses == []
    ensures r.Some? ==> forall k :: k in r.value <==> exists st :: st in statuses && Normalize(st) == k
  {
    if |statuses| > 0 then Some(set st | st in statuses :: Normalize(st)) else None
  }

  predicate StatusAdmitted(t: PendingTicket, sel: Selection) {
    var f := StatusFilter(sel.statuses);
    f.None? || Normalize(t.status) in f.value
  }

  /** A ticket passes the status filter exactly when no status is selected or its status normalises like a selected one. */
  lemma StatusAdmittedIff(t: PendingTicket, sel: Selection)
    ensures StatusAdmitted(t, sel) <==>
      sel.statuses == [] || exists st :: st in sel.statuses && Normalize(st) == Normalize(t.status)
  {
  }

  predicate TicketSelected(t: PendingTicket, sel: Selection) {
    InDepartment(t, sel) && StatusAdmitted(t, sel)
  }

  /**
   * A missing or non-numeric age stays blank, an age under one day shows as 0,
   * any other age as itself.
   */
  function NormalizeDays(d: Option<real>): (r: Days)
    ensures r.Blank? <==> d.None?
    ensures r.Days? ==> r.value == 0.0 || r.value >= 1.0
    ensures d.Some? && d.value < 1.0 ==> r == Days(0.0)
    ensures d.Some? && d.value >= 1.0 ==> r == Days(d.value)
  {
    match d
    case None => Blank
    case Some(v) => if v < 1.0 then Days(0.0) else Days(v)
  }

  /** The row of a ticket: the agent's name, the ticket's fields, its precedence and its normalised age. */
  function MakeRow(a: Agent, t: PendingTicket): (r: PendingRow)
    ensures r.name == a.name && r.status == t.status
    ensures r.ticketNumber == t.ticketNumber && r.ticketCreated == t.ticketCreated
    ensures r.statusSort in {0, 1, 2, 3, 99}
    ensures forall k :: 0 <= k < |StatusOrder| && Normalize(t.status) == StatusOrder[k].Key() ==> r.statusSort == k
    ensures ((forall k :: 0 <= k < |StatusOrder| ==> Normalize(t.status) != StatusOrder[k].Key())
             && Normalize(t.status) != "inprogress")
            ==> r.statusSort == 99
    ensures r.department == OrEmpty(t.departmentName)
    ensures t.departmentName.Some? ==> r.department == t.departmentName.value
    ensures t.departmentName.None? ==> r.department == ""
    ensures r.daysNotResponded == NormalizeDays(t.daysNotResponded)
    ensures r.daysNotResponded.Blank? <==> t.daysNotResponded.None?
  {
    PendingRow(a.name, OrEmpty(t.departmentName), t.status, StatusRank(Normalize(t.status)),
               t.ticketNumber, t.ticketCreated, NormalizeDays(t.daysNotResponded))
  }

  /** The ticket filter of the selection, as a function value. */
  function Admits(sel: Selection): PendingTicket -> bool {
    (t: PendingTicket) => TicketSelected(t, sel)
  }

  /** The row an agent's ticket becomes, as a function value. */
  function RowOf(a: Agent): PendingTicket -> PendingRow {
    (t: PendingTicket) => MakeRow(a, t)
  }

  /** The rows one agent contributes from the tickets `ts`. */
  function TicketRows(a: Agent, ts: seq<PendingTicket>, sel: Selection): seq<PendingRow> {
    FilterMap(ts, Admits(sel), RowOf(a))
  }

  function AgentRows(sel: Selection): Agent -> seq<PendingRow> {
    (a: Agent) => TicketRows(a, a.pendingTickets, sel)
  }

  /** The rows of the agents, agent after agent, before sorting. */
  function CollectRows(agents: seq<Agent>, sel: Selection): seq<PendingRow> {
    FlatMap(agents, AgentRows(sel))
  }

  /** Case-insensitive agent name first, then status precedence. */
  function PendingKey(r: PendingRow): SortKey {
    SortKey(Lower(r.name), r.statusSort)
  }

  /** The pending table as a value. */
  function PendingRows(members: seq<Agent>, sel: Selection): seq<PendingRow> {
    SortBy(CollectRows(SelectAgents(members, sel), sel), PendingKey)
  }

  /** Pushes the rows of one agent's tickets that pass the filters onto `rows`. */
  method PushAgentRows(rows0: seq<PendingRow>, agent: Agent, sel: Selection, statusSet: Option<set<string>>)
    returns (rows: seq<PendingRow>)
    requires statusSet == StatusFilter(sel.statuses)
    ensures rows == rows0 + TicketRows(agent, agent.pendingTickets, sel)
  {
    rows := rows0;
    var j := 0;
    while j < |agent.pendingTickets|
      invariant 0 <= j <= |agent.pendingTickets|
      invariant rows == rows0 + TicketRows(agent, agent.pendingTickets[..j], sel)
    {
      var tkt := agent.pendingTickets[j];
      rows := PushTicket(rows, agent, tkt, sel, statusSet);
      TicketRowsStep(agent, agent.pendingTickets, sel, j);
      j := j + 1;
    }
    assert agent.pendingTickets[..j] == agent.pendingTickets;
  }

  lemma TicketRowsStep(a: Agent, ts: seq<PendingTicket>, sel: Selection, j: nat)
    requires j < |ts|
    ensures TicketRows(a, ts[..j + 1], sel)
         == if TicketSelected(ts[j], sel) then TicketRows(a, ts[..j], sel) + [MakeRow(a, ts[j])] else TicketRows(a, ts[..j], sel)
  {
    FilterMapStep(ts, Admits(sel), RowOf(a), j);
    assert Admits(sel)(ts[j]) == TicketSelected(ts[j], sel) && RowOf(a)(ts[j]) == MakeRow(a, ts[j]);
  }

  /** One ticket: its row is pushed when it is in the selected department and has a selected status. */
  method PushTicket(rows0: seq<PendingRow>, agent: Agent, tkt: PendingTicket, sel: Selection, statusSet: Option<set<string>>)
    returns (rows: seq<PendingRow>)
    requires statusSet == StatusFilter(sel.statuses)
    ensures rows == if TicketSelected(tkt, sel) then rows0 + [MakeRow(agent, tkt)] else rows0
  {
    rows := rows0;
    if InDepartment(tkt, sel) {
      var tktNorm := Normalize(tkt.status);
      if statusSet.None? || tktNorm in statusSet.value {
        rows := rows + [MakeRow(agent, tkt)];
      }
    }
  }

  method PendingTableRows(members: seq<Agent>, sel: Selection) returns (rows: seq<PendingRow>)
    ensures rows == PendingRows(members, sel)
  {
    var filteredAgents := SelectAgents(members, sel);
    var statusSet := StatusFilter(sel.statuses);
    rows := [];
    var i := 0;
    while i < |filteredAgents|
      invariant 0 <= i <= |filteredAgents|
      invariant rows == CollectRows(filteredAgents[..i], sel)
    {
      rows := PushAgentRows(rows, filteredAgents[i], sel, statusSet);
      FlatMapStep(filteredAgents, AgentRows(sel), i);
      i := i + 1;
    }
    assert filteredAgents[..i] == filteredAgents;
    rows := SortBy(rows, PendingKey);
  }

  // ---------------------------------------------------------------------------
  // What the pending table contains

  lemma CollectRowsMembers(agents: seq<Agent>, sel: Selection, r: PendingRow)
    ensures r in CollectRows(agents, sel) <==>
      exists a, t :: a in agents && t in a.pendingTickets && TicketSelected(t, sel) && r == MakeRow(a, t)
  {
    FlatMapMembers(agents, AgentRows(sel), r);
    if r in CollectRows(agents, sel) {
      var a :| a in agents && r in AgentRows(sel)(a);
      FilterMapMembers(a.pendingTickets, Admits(sel), RowOf(a), r);
    }
    if a, t :| a in agents && t in a.pendingTickets && TicketSelected(t, sel) && r == MakeRow(a, t) {
      FilterMapMembers(a.pendingTickets, Admits(sel), RowOf(a), r);
    }
  }

  /**
   * A row is in the table exactly when it comes from a pending ticket of a
   * selected agent that passes the department and status filters.
   */
  lemma PendingRowsMembers(members: seq<Agent>, sel: Selection, r: PendingRow)
    ensures r in PendingRows(members, sel) <==>
      exists a, t :: a in members && AgentSelected(a, sel) && t in a.pendingTickets
                     && InDepartment(t, sel) && StatusAdmitted(t, sel) && r == MakeRow(a, t)
  {
    var agents := SelectAgents(members, sel);
    var collected := CollectRows(agents, sel);
    SortByPermutes(collected, PendingKey);
    assert r in PendingRows(members, sel) <==> r in collected by {
      assert r in PendingRows(members, sel) <==> r in multiset(PendingRows(members, sel));
      assert r in collected <==> r in multiset(collected);
    }
    CollectRowsMembers(agents, sel, r);
  }

  /**
   * Every row of the table passes the filters, whichever status it shows:
   * when statuses are selected, its normalised status is one of theirs.
   */
  lemma PendingRowsFiltered(members: seq<Agent>, sel: Selection)
    requires sel.statuses != []
    ensures forall r :: r in PendingRows(members, sel) ==>
      exists st :: st in sel.statuses && Normalize(st) == Normalize(r.status)
  {
    forall r | r in PendingRows(members, sel)
      ensures exists st :: st in sel.statuses && Normalize(st) == Normalize(r.status)
    {
      PendingRowsMembers(members, sel, r);
      var a, t :| a in members && AgentSelected(a, sel) && t in a.pendingTickets
                  && InDepartment(t, sel) && StatusAdmitted(t, sel) && r == MakeRow(a, t);
    }
  }

  /**
   * The table is ordered by case-insensitive name and then precedence, holds
   * the collected rows once each, and keeps rows with equal keys in the order
   * they were collected (agent by agent, ticket by ticket).
   */
  lemma PendingRowsOrdered(members: seq<Agent>, sel: Selection)
    ensures SortedBy(PendingRows(members, sel), PendingKey)
    ensures multiset(PendingRows(members, sel)) == multiset(CollectRows(SelectAgents(members, sel), sel))
    ensures forall k :: WithKey(PendingRows(members, sel), PendingKey, k)
                     == WithKey(CollectRows(SelectAgents(members, sel), sel), PendingKey, k)
  {
    SortBySorted(CollectRows(SelectAgents(members, sel), sel), PendingKey);
    SortByPermutes(CollectRows(SelectAgents(members, sel), sel), PendingKey);
    forall k ensures WithKey(PendingRows(members, sel), PendingKey, k)
                  == WithKey(CollectRows(SelectAgents(members, sel), sel), PendingKey, k) {
      SortByStable(CollectRows(SelectAgents(members, sel), sel), PendingKey, k);
    }
  }

  /** The precedence shown for a row is that of its status in `statusOrder`, or 99. */
  lemma PendingRowPrecedence(a: Agent, t: PendingTicket)
    ensures forall k :: 0 <= k < |StatusOrder| && Normalize(t.status) == StatusOrder[k].Key() ==> MakeRow(a, t).statusSort == k
    ensures (forall s: CoreStatus :: Normalize(t.status) != s.Key()) ==> MakeRow(a, t).statusSort == 99
  {
    StatusRankOfNormalized(t.status);
  }
}
