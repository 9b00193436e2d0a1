/**
 * The records the dashboard receives: agents with their per-status totals,
 * per-department aging lists and pending tickets, and the department table.
 * JavaScript objects used as dictionaries become sequences of entries, in
 * `Object.entries` order, where their order can show in a result, and maps
 * where they are only looked up.
 */
module Entities {
  import opened Wrappers

  type TicketNumber = string

  /**
   * The age ranges that appear in aging-count field names. The agent summary
   * reads the first three, the department view the last three.
   */
  datatype AgeProp =
    | BetweenOneAndFifteenDays | BetweenSixteenAndThirtyDays | OlderThanThirtyDays
    | BetweenOneAndSevenDays | BetweenEightAndFifteenDays | OlderThanFifteenDays

  /**
   * The field `${status}${ageProp}Tickets` of an aging-count object. No two
   * (status, range) pairs spell the same field name, since the six range names
   * differ in how they end, so the pair stands for the name.
   */
  datatype AgingKey = AgingKey(status: string, age: AgeProp)

  /** One department's aging counts for one agent: field → ticket numbers. */
  type AgingCounts = map<AgingKey, seq<TicketNumber>>

  /** `agingCounts[field] || []` */
  function AgingTickets(ac: AgingCounts, status: string, age: AgeProp): seq<TicketNumber> {
    var k := AgingKey(status, age);
    if k in ac then ac[k] else []
  }

  /** One entry of an agent's `departmentAgingCounts`. */
  datatype DeptAging = DeptAging(departmentId: string, counts: AgingCounts)

  /** `agent.tickets`: counts per status, absent fields read as 0. */
  datatype TicketTotals = TicketTotals(open: int, hold: int, inProgress: int, escalated: int, unassigned: int)

  /** A ticket awaiting response; absent text fields are "". */
  datatype PendingTicket = PendingTicket(
    status: string,
    departmentId: Option<string>,
    departmentName: Option<string>,
    ticketNumber: string,
    ticketCreated: string,
    daysNotResponded: Option<real>)

  /** An agent as the upstream aggregation delivers it; absent collections are empty. */
  datatype Agent = Agent(
    name: string,
    departmentIds: seq<string>,
    tickets: TicketTotals,
    departmentAgingCounts: seq<DeptAging>,
    departmentTicketCounts: map<string, int>,
    pendingTickets: seq<PendingTicket>)

  /** One entry of `departmentsMap`: an id and its `{ name }`. */
  datatype DeptInfo = DeptInfo(id: string, name: Option<string>)

  /** Keys of a JavaScript object are distinct. */
  predicate DistinctIds(ds: seq<DeptInfo>) {
    forall i, j :: 0 <= i < j < |ds| ==> ds[i].id != ds[j].id
  }

  predicate DistinctAgingIds(es: seq<DeptAging>) {
    forall i, j :: 0 <= i < j < |es| ==> es[i].departmentId != es[j].departmentId
  }

  /** `departmentsMap[id]` */
  function LookupDept(ds: seq<DeptInfo>, id: string): (r: Option<DeptInfo>)
    ensures r.Some? ==> r.value in ds && r.value.id == id
    ensures r.None? ==> forall d :: d in ds ==> d.id != id
  {
    if ds == [] then None
    else if ds[0].id == id then Some(ds[0])
    else LookupDept(ds[1..], id)
  }

  /** With distinct ids, looking up a configured department's id finds that department. */
  lemma {:induction false} LookupDeptFinds(ds: seq<DeptInfo>, d: DeptInfo)
    requires DistinctIds(ds) && d in ds
    ensures LookupDept(ds, d.id) == Some(d)
  {
    if ds[0] != d {
      assert ds[0].id != d.id by {
        var j :| 0 <= j < |ds| && ds[j] == d;
        assert j > 0;
      }
      assert d in ds[1..];
      LookupDeptFinds(ds[1..], d);
    }
  }

  /** `agent.departmentAgingCounts[id]` */
  function LookupAging(es: seq<DeptAging>, id: string): (r: Option<AgingCounts>)
    ensures r.Some? ==> DeptAging(id, r.value) in es
    ensures r.None? ==> forall e :: e in es ==> e.departmentId != id
  {
    if es == [] then None
    else if es[0].departmentId == id then Some(es[0].counts)
    else LookupAging(es[1..], id)
  }

  /** `x || ""` for an optional string. */
  function OrEmpty(s: Option<string>): string {
    s.GetOr("")
  }
}
