/**
 * The department view: one row per configured department, holding for each
 * of three age buckets and four statuses the ticket numbers all agents report
 * for that department, their counts and the row total, sorted by department
 * name and numbered from 1.
 */
module DepartmentTable {
  import opened Wrappers
  import opened JsText
  import opened Sorting
  import opened TicketStatus
  import opened Entities

  /** The age buckets of the department view: 1–7, 8–15 and over 15 days. */
  datatype Bucket = OneToSeven | EightToFifteen | FifteenPlus {
    /** The age part of the aging-count field name the bucket reads. */
    function AgeProp(): AgeProp {
      match this
      case OneToSeven => BetweenOneAndSevenDays
      case EightToFifteen => BetweenEightAndFifteenDays
      case FifteenPlus => OlderThanFifteenDays
    }
  }

  /** One of the twelve count columns: a bucket and a status. */
  datatype Cell = Cell(bucket: Bucket, status: CoreStatus)

  /** The twelve columns in the order the row lists and sums them. */
  const AllCells: seq<Cell> := [
    Cell(OneToSeven, Open), Cell(OneToSeven, Hold), Cell(OneToSeven, InProgress), Cell(OneToSeven, Escalated),
    Cell(EightToFifteen, Open), Cell(EightToFifteen, Hold), Cell(EightToFifteen, InProgress), Cell(EightToFifteen, Escalated),
    Cell(FifteenPlus, Open), Cell(FifteenPlus, Hold), Cell(FifteenPlus, InProgress), Cell(FifteenPlus, Escalated)]

  lemma EveryCellListed()
    ensures forall c: Cell :: c in AllCells
  {
    forall c: Cell ensures c in AllCells {
      match c.bucket
      case OneToSeven =>
        match c.status {
          case Open => assert AllCells[0] == c;
          case Hold => assert AllCells[1] == c;
          case InProgress => assert AllCells[2] == c;
          case Escalated => assert AllCells[3] == c;
        }
      case EightToFifteen =>
        match c.status {
          case Open => assert AllCells[4] == c;
          case Hold => assert AllCells[5] == c;
          case InProgress => assert AllCells[6] == c;
          case Escalated => assert AllCells[7] == c;
        }
      case FifteenPlus =>
        match c.status {
          case Open => assert AllCells[8] == c;
          case Hold => assert AllCells[9] == c;
          case InProgress => assert AllCells[10] == c;
          case Escalated => assert AllCells[11] == c;
        }
    }
  }

  /** The position of a status in `statusOrder`. */
  function StatusIndex(s: CoreStatus): (k: nat)
    ensures k < |StatusOrder| && StatusOrder[k] == s
  {
    match s
    case Open => 0
    case Hold => 1
    case InProgress => 2
    case Escalated => 3
  }

  /** The ticket numbers one aging-count object lists for a cell (`|| []`). */
  function CellTickets(ac: AgingCounts, c: Cell): seq<TicketNumber> {
    AgingTickets(ac, c.status.Key(), c.bucket.AgeProp())
  }

  /** A department's accumulator: display name, and per cell a count and the ticket numbers. */
  datatype DeptData = DeptData(departmentName: string, counts: map<Cell, nat>, numbers: map<Cell, seq<TicketNumber>>)

  /** A department's row before numbering: the accumulator and its total. */
  datatype DeptSummary = DeptSummary(data: DeptData, total: nat)

  /** A row of the department table. */
  datatype DeptRow = DeptRow(si: nat, summary: DeptSummary)

  ghost predicate Complete(data: DeptData) {
    forall c: Cell :: c in data.counts && c in data.numbers
  }

  /** `info.name || deptId` */
  function DisplayName(d: DeptInfo): (r: string)
    ensures r == d.id || (d.name.Some? && r == d.name.value)
    ensures r == "" ==> d.id == ""
    ensures d.name.None? ==> r == d.id
    ensures d.name.Some? && d.name.value != "" ==> r == d.name.value
    ensures r == d.id ==> d.name.None? || d.name.value == "" || d.name.value == d.id
  {
    if d.name.Some? && d.name.value != "" then d.name.value else d.id
  }

  /** A fresh accumulator: every count 0, every list empty. */
  function Fresh(d: DeptInfo): (r: DeptData)
    ensures Complete(r)
  {
    EveryCellListed();
    DeptData(DisplayName(d), map c | c in AllCells :: 0, map c | c in AllCells :: [])
  }

  // ---------------------------------------------------------------------------
  // What a department's row holds

  /** The numbers a sequence of aging entries lists for department `id` in cell `c`, in order. */
  function EntriesTickets(es: seq<DeptAging>, id: string, c: Cell): seq<TicketNumber> {
    if es == [] then []
    else
      var e := es[|es| - 1];
      if e.departmentId == id then EntriesTickets(es[..|es| - 1], id, c) + CellTickets(e.counts, c)
      else EntriesTickets(es[..|es| - 1], id, c)
  }

  /** The numbers all `agents` list for department `id` in cell `c`, agent after agent. */
  function DeptTickets(agents: seq<Agent>, id: string, c: Cell): seq<TicketNumber> {
    if agents == [] then []
    else
      var a := agents[|agents| - 1];
      DeptTickets(agents[..|agents| - 1], id, c) + EntriesTickets(a.departmentAgingCounts, id, c)
  }

  /** The department's accumulator once `agents` have been read. */
  function Tally(d: DeptInfo, agents: seq<Agent>): (r: DeptData)
    ensures Complete(r)
  {
    EveryCellListed();
    DeptData(DisplayName(d),
             map c | c in AllCells :: |DeptTickets(agents, d.id, c)|,
             map c | c in AllCells :: DeptTickets(agents, d.id, c))
  }

  /** The sum of the counts of `cells`. */
  function CellSum(counts: map<Cell, nat>, cells: seq<Cell>): nat {
    if cells == [] then 0
    else CellSum(counts, cells[..|cells| - 1]) + (if cells[|cells| - 1] in counts then counts[cells[|cells| - 1]] else 0)
  }

  function Summarize(data: DeptData): DeptSummary {
    DeptSummary(data, CellSum(data.counts, AllCells))
  }

  function Summaries(departments: seq<DeptInfo>, agents: seq<Agent>): (r: seq<DeptSummary>)
    ensures |r| == |departments|
  {
    seq(|departments|, i requires 0 <= i < |departments| => Summarize(Tally(departments[i], agents)))
  }

  /** Case-insensitive department name. */
  function SummaryKey(s: DeptSummary): SortKey {
    SortKey(Lower(s.data.departmentName), 0)
  }

  function Number(ss: seq<DeptSummary>): (r: seq<DeptRow>)
    ensures |r| == |ss|
    ensures forall k :: 0 <= k < |r| ==> r[k].si == k + 1 && r[k].summary == ss[k]
  {
    seq(|ss|, i requires 0 <= i < |ss| => DeptRow(i + 1, ss[i]))
  }

  /** The department table as a value: None when the view is off. */
  function DepartmentView(enabled: bool, departments: seq<DeptInfo>, agents: seq<Agent>): (r: Option<seq<DeptRow>>)
    ensures r.None? <==> !enabled
    ensures r.Some? ==> |r.value| == |departments| && forall k :: 0 <= k < |r.value| ==> r.value[k].si == k + 1
  {
    if !enabled then None
    else Some(Number(SortBy(Summaries(departments, agents), SummaryKey)))
  }

  // ---------------------------------------------------------------------------
  // The computation

  /** Appends `tickets` to cell `c`, counting each one; the other cells keep their values. */
  method AddTickets(data: DeptData, c: Cell, tickets: seq<TicketNumber>) returns (r: DeptData)
    requires Complete(data)
    ensures Complete(r) && r.departmentName == data.departmentName
    ensures forall c' :: r.numbers[c'] == if c' == c then data.numbers[c] + tickets else data.numbers[c']
    ensures forall c' :: r.counts[c'] == if c' == c then data.counts[c] + |tickets| else data.counts[c']
  {
    r := data;
    var j := 0;
    while j < |tickets|
      invariant 0 <= j <= |tickets|
      invariant Complete(r) && r.departmentName == data.departmentName
      invariant forall c' :: r.numbers[c'] == if c' == c then data.numbers[c] + tickets[..j] else data.numbers[c']
      invariant forall c' :: r.counts[c'] == if c' == c then data.counts[c] + j else data.counts[c']
    {
      var ticketNum := tickets[j];
      assert data.numbers[c] + tickets[..j + 1] == data.numbers[c] + tickets[..j] + [ticketNum];
      r := r.(counts := r.counts[c := r.counts[c] + 1], numbers := r.numbers[c := r.numbers[c] + [ticketNum]]);
      j := j + 1;
    }
    assert tickets[..j] == tickets;
  }

  /** The three bucket loops for one status. */
  method AddStatus(data: DeptData, ac: AgingCounts, key: CoreStatus) returns (r: DeptData)
    requires Complete(data)
    ensures Complete(r) && r.departmentName == data.departmentName
    ensures forall c: Cell :: r.numbers[c] == if c.status == key then data.numbers[c] + CellTickets(ac, c) else data.numbers[c]
    ensures forall c: Cell :: r.counts[c] == if c.status == key then data.counts[c] + |CellTickets(ac, c)| else data.counts[c]
  {
    var r1 := AddTickets(data, Cell(OneToSeven, key), CellTickets(ac, Cell(OneToSeven, key)));
    var r2 := AddTickets(r1, Cell(EightToFifteen, key), CellTickets(ac, Cell(EightToFifteen, key)));
    r := AddTickets(r2, Cell(FifteenPlus, key), CellTickets(ac, Cell(FifteenPlus, key)));
    forall c: Cell
      ensures r.numbers[c] == if c.status == key then data.numbers[c] + CellTickets(ac, c) else data.numbers[c]
      ensures r.counts[c] == if c.status == key then data.counts[c] + |CellTickets(ac, c)| else data.counts[c]
    {
      assert r.numbers[c] == (if c == Cell(FifteenPlus, key) then r2.numbers[c] + CellTickets(ac, c) else r2.numbers[c]);
      assert r2.numbers[c] == (if c == Cell(EightToFifteen, key) then r1.numbers[c] + CellTickets(ac, c) else r1.numbers[c]);
      assert r1.numbers[c] == (if c == Cell(OneToSeven, key) then data.numbers[c] + CellTickets(ac, c) else data.numbers[c]);
    }
  }

  /** Adds one agent's aging counts for a department, status by status in `statusOrder`. */
  method AddAgingCounts(data: DeptData, ac: AgingCounts) returns (r: DeptData)
    requires Complete(data)
    ensures Added(data, r, ac)
  {
    r := data;
    var s := 0;
    while s < |StatusOrder|
      invariant 0 <= s <= |StatusOrder|
      invariant AddedThrough(data, r, ac, s)
    {
      r := AddNextStatus(data, r, ac, s);
      s := s + 1;
    }
    AddedAll(data, r, ac);
  }

  /** One turn of the `statusOrder` loop: the cells of status number `s` are added. */
  method AddNextStatus(data: DeptData, before: DeptData, ac: AgingCounts, s: nat) returns (r: DeptData)
    requires s < |StatusOrder| && AddedThrough(data, before, ac, s)
    ensures AddedThrough(data, r, ac, s + 1)
  {
    r := AddStatus(before, ac, StatusOrder[s]);
    AddedNext(data, before, r, ac, s);
  }

  /** `r` is `data` with the cells of the first `s` statuses of `statusOrder` added. */
  ghost predicate AddedThrough(data: DeptData, r: DeptData, ac: AgingCounts, s: nat) {
    Complete(data) && Complete(r) && r.departmentName == data.departmentName
    && (forall c: Cell :: r.numbers[c] == if StatusIndex(c.status) < s then data.numbers[c] + CellTickets(ac, c) else data.numbers[c])
    && (forall c: Cell :: r.counts[c] == if StatusIndex(c.status) < s then data.counts[c] + |CellTickets(ac, c)| else data.counts[c])
  }

  lemma AddedNext(data: DeptData, before: DeptData, r: DeptData, ac: AgingCounts, s: nat)
    requires s < |StatusOrder| && AddedThrough(data, before, ac, s)
    requires Complete(r) && r.departmentName == before.departmentName
    requires forall c: Cell :: r.numbers[c] == if c.status == StatusOrder[s] then before.numbers[c] + CellTickets(ac, c) else before.numbers[c]
    requires forall c: Cell :: r.counts[c] == if c.status == StatusOrder[s] then before.counts[c] + |CellTickets(ac, c)| else before.counts[c]
    ensures AddedThrough(data, r, ac, s + 1)
  {
    forall c: Cell
      ensures r.numbers[c] == if StatusIndex(c.status) < s + 1 then data.numbers[c] + CellTickets(ac, c) else data.numbers[c]
      ensures r.counts[c] == if StatusIndex(c.status) < s + 1 then data.counts[c] + |CellTickets(ac, c)| else data.counts[c]
    {
      StatusIndexOf(s);
      if c.status == StatusOrder[s] {
        assert StatusIndex(c.status) == s;
      } else {
        assert StatusOrder[StatusIndex(c.status)] != StatusOrder[s];
      }
    }
  }

  lemma StatusIndexOf(s: nat)
    requires s < |StatusOrder|
    ensures StatusIndex(StatusOrder[s]) == s
  {
  }

  /** `r` is `data` with every cell's tickets from `ac` appended and counted. */
  ghost predicate Added(data: DeptData, r: DeptData, ac: AgingCounts) {
    Complete(data) && Complete(r) && r.departmentName == data.departmentName
    && (forall c: Cell :: r.numbers[c] == data.numbers[c] + CellTickets(ac, c))
    && (forall c: Cell :: r.counts[c] == data.counts[c] + |CellTickets(ac, c)|)
  }

  lemma AddedAll(data: DeptData, r: DeptData, ac: AgingCounts)
    requires AddedThrough(data, r, ac, |StatusOrder|)
    ensures Added(data, r, ac)
  {
    forall c: Cell ensures StatusIndex(c.status) < |StatusOrder| {
    }
  }

  /** The ids of the configured departments. */
  function Ids(ds: seq<DeptInfo>): set<string> {
    set d | d in ds :: d.id
  }

  /**
   * `data` is department `d`'s accumulator after reading `agents` in full and
   * then the entries `es` of the next agent.
   */
  ghost predicate Holds(data: DeptData, d: DeptInfo, agents: seq<Agent>, es: seq<DeptAging>) {
    Complete(data) && data.departmentName == DisplayName(d)
    && (forall c: Cell :: data.numbers[c] == DeptTickets(agents, d.id, c) + EntriesTickets(es, d.id, c))
    && (forall c: Cell :: data.counts[c] == |data.numbers[c]|)
  }

  lemma FreshHolds(d: DeptInfo)
    ensures Holds(Fresh(d), d, [], [])
  {
    EveryCellListed();
  }

  lemma HoldsIsTally(data: DeptData, d: DeptInfo, agents: seq<Agent>)
    requires Holds(data, d, agents, [])
    ensures data == Tally(d, agents)
  {
    var t := Tally(d, agents);
    EveryCellListed();
    forall c: Cell ensures data.counts[c] == t.counts[c] && data.numbers[c] == t.numbers[c] {
      assert data.numbers[c] == DeptTickets(agents, d.id, c) + [];
    }
    assert data.counts.Keys == t.counts.Keys;
    assert data.numbers.Keys == t.numbers.Keys;
    assert data.counts == t.counts;
    assert data.numbers == t.numbers;
  }

  lemma EntriesStep(es: seq<DeptAging>, e: nat, id: string, c: Cell)
    requires e < |es|
    ensures EntriesTickets(es[..e + 1], id, c)
         == if es[e].departmentId == id then EntriesTickets(es[..e], id, c) + CellTickets(es[e].counts, c)
            else EntriesTickets(es[..e], id, c)
  {
    assert es[..e + 1][..e] == es[..e];
  }

  /** Reading entry `e` of an agent keeps every configured department's accumulator up to date. */
  lemma HoldsAfterEntry(before: DeptData, after: DeptData, d: DeptInfo, agents: seq<Agent>, es: seq<DeptAging>, e: nat)
    requires e < |es| && Holds(before, d, agents, es[..e])
    requires es[e].departmentId != d.id ==> after == before
    requires es[e].departmentId == d.id ==> Added(before, after, es[e].counts)
    ensures Holds(after, d, agents, es[..e + 1])
  {
    if es[e].departmentId == d.id {
      HoldsAfterOwnEntry(before, after, d, agents, es, e);
    } else {
      forall c: Cell ensures after.numbers[c] == DeptTickets(agents, d.id, c) + EntriesTickets(es[..e + 1], d.id, c) {
        EntriesStep(es, e, d.id, c);
      }
    }
  }

  lemma HoldsAfterOwnEntry(before: DeptData, after: DeptData, d: DeptInfo, agents: seq<Agent>, es: seq<DeptAging>, e: nat)
    requires e < |es| && es[e].departmentId == d.id
    requires Holds(before, d, agents, es[..e]) && Added(before, after, es[e].counts)
    ensures Holds(after, d, agents, es[..e + 1])
  {
    forall c: Cell
      ensures after.numbers[c] == DeptTickets(agents, d.id, c) + EntriesTickets(es[..e + 1], d.id, c)
      ensures after.counts[c] == |after.numbers[c]|
    {
      EntriesStep(es, e, d.id, c);
      AppendAssoc(before.numbers[c], after.numbers[c], DeptTickets(agents, d.id, c),
                  EntriesTickets(es[..e], d.id, c), CellTickets(es[e].counts, c));
    }
  }

  lemma AppendAssoc(b: seq<TicketNumber>, a: seq<TicketNumber>, dt: seq<TicketNumber>, et: seq<TicketNumber>, ct: seq<TicketNumber>)
    requires b == dt + et && a == b + ct
    ensures a == dt + (et + ct)
  {
  }

  /** Reading all entries of agent `i` completes the accumulator for `agents[..i + 1]`. */
  lemma HoldsAfterAgent(data: DeptData, d: DeptInfo, agents: seq<Agent>, i: nat)
    requires i < |agents| && Holds(data, d, agents[..i], agents[i].departmentAgingCounts)
    ensures Holds(data, d, agents[..i + 1], [])
  {
    assert agents[..i + 1][..i] == agents[..i];
    forall c: Cell ensures data.numbers[c] == DeptTickets(agents[..i + 1], d.id, c) + [] {
    }
  }

  /** One fresh accumulator per configured department, keyed by id. */
  method ConfigureDepartments(departments: seq<DeptInfo>) returns (byDept: map<string, DeptData>)
    requires DistinctIds(departments)
    ensures byDept.Keys == Ids(departments)
    ensures forall d :: d in departments ==> Holds(byDept[d.id], d, [], [])
  {
    byDept := map[];
    var i := 0;
    while i < |departments|
      invariant 0 <= i <= |departments|
      invariant byDept.Keys == Ids(departments[..i])
      invariant forall k :: 0 <= k < i ==> byDept[departments[k].id] == Fresh(departments[k])
    {
      assert departments[..i + 1] == departments[..i] + [departments[i]];
      byDept := byDept[departments[i].id := Fresh(departments[i])];
      i := i + 1;
    }
    assert departments[..i] == departments;
    forall d | d in departments ensures Holds(byDept[d.id], d, [], []) {
      FreshHolds(d);
    }
  }

  /** Adds one agent's entries to the configured departments; entries for other departments are skipped. */
  method ReadEntries(byDept0: map<string, DeptData>, departments: seq<DeptInfo>, done: seq<Agent>, entries: seq<DeptAging>)
    returns (byDept: map<string, DeptData>)
    requires AllHold(byDept0, departments, done, [])
    ensures AllHold(byDept, departments, done, entries)
  {
    byDept := byDept0;
    var e := 0;
    while e < |entries|
      invariant 0 <= e <= |entries|
      invariant AllHold(byDept, departments, done, entries[..e])
    {
      byDept := ReadEntry(byDept, departments, done, entries, e);
      e := e + 1;
    }
    EntriesPrefixAll(entries);
  }

  /** One entry: added to its department's accumulator when that department is configured. */
  method ReadEntry(byDept0: map<string, DeptData>, departments: seq<DeptInfo>, done: seq<Agent>, entries: seq<DeptAging>, e: nat)
    returns (byDept: map<string, DeptData>)
    requires e < |entries| && AllHold(byDept0, departments, done, entries[..e])
    ensures AllHold(byDept, departments, done, entries[..e + 1])
  {
    var deptId := entries[e].departmentId;
    var agingCounts := entries[e].counts;
    byDept := byDept0;
    if deptId in byDept {
      var updated := AddAgingCounts(byDept[deptId], agingCounts);
      byDept := byDept[deptId := updated];
    }
    forall d | d in departments ensures Holds(byDept[d.id], d, done, entries[..e + 1]) {
      assert d.id in byDept0;
      HoldsAfterEntry(byDept0[d.id], byDept[d.id], d, done, entries, e);
    }
  }

  lemma EntriesPrefixAll(entries: seq<DeptAging>)
    ensures entries[..|entries|] == entries
  {
  }

  /** Every configured department's accumulator holds what `agents`, then the entries `es`, contribute. */
  ghost predicate AllHold(byDept: map<string, DeptData>, departments: seq<DeptInfo>, agents: seq<Agent>, es: seq<DeptAging>) {
    byDept.Keys == Ids(departments) && forall d :: d in departments ==> Holds(byDept[d.id], d, agents, es)
  }

  /** Adds every agent's aging counts, agent by agent. */
  method ReadAgingCounts(byDept0: map<string, DeptData>, departments: seq<DeptInfo>, members: seq<Agent>)
    returns (byDept: map<string, DeptData>)
    requires byDept0.Keys == Ids(departments)
    requires forall d :: d in departments ==> Holds(byDept0[d.id], d, [], [])
    ensures byDept.Keys == Ids(departments)
    ensures forall d :: d in departments ==> Holds(byDept[d.id], d, members, [])
  {
    byDept := byDept0;
    var i := 0;
    while i < |members|
      invariant 0 <= i <= |members|
      invariant byDept.Keys == Ids(departments)
      invariant forall d :: d in departments ==> Holds(byDept[d.id], d, members[..i], [])
    {
      byDept := ReadEntries(byDept, departments, members[..i], members[i].departmentAgingCounts);
      forall d | d in departments ensures Holds(byDept[d.id], d, members[..i + 1], []) {
        HoldsAfterAgent(byDept[d.id], d, members, i);
      }
      i := i + 1;
    }
    assert members[..i] == members;
  }

  method DepartmentRows(enabled: bool, departments: seq<DeptInfo>, members: seq<Agent>) returns (rows: Option<seq<DeptRow>>)
    requires DistinctIds(departments)
    ensures rows == DepartmentView(enabled, departments, members)
  {
    if !enabled {
      return None;
    }
    var byDept := ConfigureDepartments(departments);
    byDept := ReadAgingCounts(byDept, departments, members);
    assert forall k :: 0 <= k < |departments| ==> departments[k].id in byDept by {
      forall k | 0 <= k < |departments| ensures departments[k].id in byDept {
        assert departments[k] in departments;
      }
    }
    var summaries := seq(|departments|, k requires 0 <= k < |departments| && departments[k].id in byDept
                                          => Summarize(byDept[departments[k].id]));
    forall k | 0 <= k < |departments| ensures summaries[k] == Summaries(departments, members)[k] {
      assert departments[k] in departments;
      HoldsIsTally(byDept[departments[k].id], departments[k], members);
    }
    assert summaries == Summaries(departments, members);
    var sorted := SortBy(summaries, SummaryKey);
    rows := Some(Number(sorted));
  }

  // ---------------------------------------------------------------------------
  // What the department table promises

  /** The summaries of numbered rows. */
  function Unnumber(rows: seq<DeptRow>): (r: seq<DeptSummary>)
    ensures |r| == |rows|
  {
    seq(|rows|, k requires 0 <= k < |rows| => rows[k].summary)
  }

  /**
   * With the view on there is one row per configured department, the rows are
   * ordered by case-insensitive department name, and `si` is the position
   * counted from 1; with the view off there is no table.
   */
  lemma DepartmentViewShape(enabled: bool, departments: seq<DeptInfo>, agents: seq<Agent>)
    ensures !enabled <==> DepartmentView(enabled, departments, agents).None?
    ensures enabled ==>
      var rows := DepartmentView(enabled, departments, agents).value;
      |rows| == |departments|
      && (forall k :: 0 <= k < |rows| ==> rows[k].si == k + 1)
      && SortedBy(Unnumber(rows), SummaryKey)
      && multiset(Unnumber(rows)) == multiset(Summaries(departments, agents))
  {
    if enabled {
      var sorted := SortBy(Summaries(departments, agents), SummaryKey);
      SortBySorted(Summaries(departments, agents), SummaryKey);
      SortByPermutes(Summaries(departments, agents), SummaryKey);
      assert Unnumber(Number(sorted)) == sorted;
    }
  }

  /** Every configured department has a row, and every row is a configured department's. */
  lemma OneRowPerDepartment(departments: seq<DeptInfo>, agents: seq<Agent>)
    ensures forall d :: d in departments ==>
      Summarize(Tally(d, agents)) in Unnumber(DepartmentView(true, departments, agents).value)
    ensures forall s :: s in Unnumber(DepartmentView(true, departments, agents).value) ==>
      exists d :: d in departments && s == Summarize(Tally(d, agents))
  {
    DepartmentViewShape(true, departments, agents);
    var summaries := Summaries(departments, agents);
    var shown := Unnumber(DepartmentView(true, departments, agents).value);
    forall d | d in departments ensures Summarize(Tally(d, agents)) in shown {
      var k :| 0 <= k < |departments| && departments[k] == d;
      assert summaries[k] in multiset(summaries);
    }
    forall s | s in shown ensures exists d :: d in departments && s == Summarize(Tally(d, agents)) {
      assert s in multiset(summaries);
      var k :| 0 <= k < |summaries| && summaries[k] == s;
      assert departments[k] in departments;
    }
  }

  /** The ticket numbers of `cells`, one list after another. */
  function CellTicketsAll(numbers: map<Cell, seq<TicketNumber>>, cells: seq<Cell>): seq<TicketNumber> {
    if cells == [] then []
    else CellTicketsAll(numbers, cells[..|cells| - 1]) + (if cells[|cells| - 1] in numbers then numbers[cells[|cells| - 1]] else [])
  }

  lemma {:induction false} CellSumCountsTickets(data: DeptData, cells: seq<Cell>)
    requires Complete(data) && forall c: Cell :: data.counts[c] == |data.numbers[c]|
    ensures CellSum(data.counts, cells) == |CellTicketsAll(data.numbers, cells)|
  {
    if cells != [] {
      CellSumCountsTickets(data, cells[..|cells| - 1]);
    }
  }

  /**
   * A department's row shows its display name; each cell lists the numbers
   * every agent reports for that department, bucket and status, and counts
   * them; the total is the number of ticket numbers across the twelve cells.
   */
  lemma RowContents(d: DeptInfo, agents: seq<Agent>)
    ensures var s := Summarize(Tally(d, agents));
      s.data.departmentName == (if d.name.Some? && d.name.value != "" then d.name.value else d.id)
      && (forall c: Cell :: s.data.numbers[c] == DeptTickets(agents, d.id, c))
      && (forall c: Cell :: s.data.counts[c] == |s.data.numbers[c]|)
      && s.total == |CellTicketsAll(s.data.numbers, AllCells)|
  {
    EveryCellListed();
    CellSumCountsTickets(Tally(d, agents), AllCells);
  }

  /** A department's lists are those of the first agents followed by those of the rest. */
  lemma {:induction false} DeptTicketsAppend(a: seq<Agent>, b: seq<Agent>, id: string, c: Cell)
    ensures DeptTickets(a + b, id, c) == DeptTickets(a, id, c) + DeptTickets(b, id, c)
  {
    if b == [] {
      assert a + b == a;
    } else {
      var init := b[..|b| - 1];
      var last := EntriesTickets(b[|b| - 1].departmentAgingCounts, id, c);
      DeptTicketsAppend(a, init, id, c);
      assert (a + b)[..|a + b| - 1] == a + init && (a + b)[|a + b| - 1] == b[|b| - 1];
      calc {
        DeptTickets(a + b, id, c);
        DeptTickets(a + init, id, c) + last;
        (DeptTickets(a, id, c) + DeptTickets(init, id, c)) + last;
        DeptTickets(a, id, c) + (DeptTickets(init, id, c) + last);
        DeptTickets(a, id, c) + DeptTickets(b, id, c);
      }
    }
  }

  lemma {:induction false} EntriesElsewhere(es: seq<DeptAging>, id: string, c: Cell)
    requires forall e :: e in es ==> e.departmentId != id
    ensures EntriesTickets(es, id, c) == []
  {
    if es != [] {
      EntriesElsewhere(es[..|es| - 1], id, c);
    }
  }

  lemma TallyIgnores(d: DeptInfo, agents: seq<Agent>, x: Agent)
    requires forall e :: e in x.departmentAgingCounts ==> e.departmentId != d.id
    ensures Tally(d, agents + [x]) == Tally(d, agents)
  {
    var more := agents + [x];
    assert more[..|more| - 1] == agents;
    forall c: Cell ensures DeptTickets(more, d.id, c) == DeptTickets(agents, d.id, c) {
      EntriesElsewhere(x.departmentAgingCounts, d.id, c);
    }
    var t1 := Tally(d, more);
    var t2 := Tally(d, agents);
    assert t1.numbers == t2.numbers;
    assert t1.counts == t2.counts;
  }

  /**
   * Aging counts for departments that are not configured are dropped: an
   * agent who reports only such departments leaves the table unchanged.
   */
  lemma UnconfiguredIgnored(enabled: bool, departments: seq<DeptInfo>, agents: seq<Agent>, x: Agent)
    requires forall e :: e in x.departmentAgingCounts ==> e.departmentId !in Ids(departments)
    ensures DepartmentView(enabled, departments, agents + [x]) == DepartmentView(enabled, departments, agents)
  {
    forall k | 0 <= k < |departments|
      ensures Summaries(departments, agents + [x])[k] == Summaries(departments, agents)[k]
    {
      assert departments[k] in departments;
      TallyIgnores(departments[k], agents, x);
    }
    assert Summaries(departments, agents + [x]) == Summaries(departments, agents);
  }
}
