# Agent ticket-age dashboard: data shaping, modelled and verified in Dafny

This project models the data-shaping core of the React component
`AgentTicketAgeTable.jsx` from the zoho-smartsheet-dashboard repository. The
component shows one of three tables of support tickets per agent. The model
covers the computations under the rendering:

- **Status normalisation** (`normalizeStatus`). Status text is compared with
  white space, `-` and `_` removed and letters lower-cased. The known spellings
  map to the canonical keys `hold`, `inProgress`, `open` and `escalated`. The
  precedence table ranks open, hold, inProgress and escalated as 0 to 3 and
  anything else as 99.
- **Creation-time formatting** (`formatDateWithMonthName`). The fixed
  `DD/MM/YYYY, HH:MM` pattern (either separator, optional comma, any white
  space) is matched character by character. The host `Date` fallback is a
  parameter.
- **The pending table.**
  - `pendingTableRows`: agent filters, ticket filters, age normalisation, then
    a sort by case-insensitive name and status precedence.
  - `groupedPendingRows`: rows bucketed by agent name, each row carrying its
    group size and a first-of-group flag.
- **The department table** (`departmentRows`). One accumulator per configured
  department holds 3 age buckets × 4 statuses of counts and ticket-number
  lists. Every agent's per-department aging lists are added into it. Rows get
  a total, a sort by name and 1-based serial numbers.
- **The agent summary table.**
  - `aggregateTickets` and `countFromArray`: a cell's ticket list, taken across
    all departments or from the selected one.
  - The total column.
  - The `tableRows` filter/map/sort chain.

The three in-place computations are imperative methods, each proved equal to a
functional specification. The rest is functions. Lemmas state what the tables
promise about those specifications.

- `PendingTable.PendingTableRows` pushes rows in nested loops.
- `PendingGroups.GroupPendingRows` fills a dictionary, then emits the groups.
- `DepartmentTable.DepartmentRows` builds the `byDept` accumulators and adds
  into them.

Modules: `Wrappers` (Option), `JsText` (the JavaScript string behaviour
relied on), `Sorting` (a stable sort by key), `Lists` (filter-then-map and flat
map), `TicketStatus`, `DateFormat`, `Entities` (the input records),
`PendingTable`, `PendingGroups`, `DepartmentTable`, `AgentSummary`.

Representation choices:

- An absent `selectedDepartmentId` is the empty string; the code only tests it
  for truthiness.
- JavaScript objects read with `Object.entries` are sequences of entries in
  entry order. This applies to `departmentsMap` and an agent's
  `departmentAgingCounts`.
- A ticket's `departmentName` and a department's `name` are `Option`s. The code
  compares them with `===`, where two absent values are equal.
- The string-built field names (`openBetweenOneAndSevenDaysTickets`,
  `tickets_1_7_open_numbers`, …) become a status and an age value. In the
  department table they become a `Cell` of a bucket and a status.

Behaviour that is easy to misread in the code:

- The pending table selects agents by membership of the selected department in
  `departmentIds`. It applies the name allow-list whether or not a department
  is selected, and does not trim names (AgentTicketAgeTable.jsx:123-131). The
  summary table instead keeps agents with tickets in the selected department,
  and applies the allow-list, to trimmed names, only when a department is
  selected (:343-348).
- Grouping does not group consecutive rows. It buckets all rows by exact name
  into a dictionary and emits the buckets in order of first appearance
  (:168-184).
- A month field outside 01..12 still matches the pattern and renders as
  `undefined` rather than falling back to the host parser (:22-23).

## Model

| member | source | states |
|---|---|---|
| JsText.NatToString | zoho-smartsheet-dashboard/src/components/AgentTicketAgeTable.jsx:27-31 | `toString` of a number gives at least one digit; one digit exactly when the number is below 10, at most two exactly when it is below 100 |
| JsText.NatToStringRoundTrip | zoho-smartsheet-dashboard/src/components/AgentTicketAgeTable.jsx:27-31 | reading back the decimal rendering of a number gives the number |
| JsText.LowerSpec | zoho-smartsheet-dashboard/src/components/AgentTicketAgeTable.jsx:39 | lower-casing leaves no capital letter, keeps every other character, and leaves a string unchanged exactly when it has no capital letter |
| JsText.LowerIdempotent | zoho-smartsheet-dashboard/src/components/AgentTicketAgeTable.jsx:39 | lower-casing twice is lower-casing once |
| JsText.TrimStart | zoho-smartsheet-dashboard/src/components/AgentTicketAgeTable.jsx:15 | skipping leading white space leaves a suffix of the input that does not start with white space |
| JsText.Trim | zoho-smartsheet-dashboard/src/components/AgentTicketAgeTable.jsx:347 | `trim` returns the input less the white space at its two ends: the result is a stretch of the input with only white space before and after it, and it neither starts nor ends with white space |
| JsText.LexLessIrreflexive | zoho-smartsheet-dashboard/src/components/AgentTicketAgeTable.jsx:160 | no name sorts before itself |
| JsText.LexLessAsymmetric | zoho-smartsheet-dashboard/src/components/AgentTicketAgeTable.jsx:160 | two names never sort before each other |
| JsText.LexLessTransitive | zoho-smartsheet-dashboard/src/components/AgentTicketAgeTable.jsx:160 | the name order is transitive |
| JsText.LexLessTotal | zoho-smartsheet-dashboard/src/components/AgentTicketAgeTable.jsx:160 | any two different names are ordered one way or the other |
| Sorting.KeyLeTotal | zoho-smartsheet-dashboard/src/components/AgentTicketAgeTable.jsx:159-163 | the comparator (name, then rank) relates any two keys |
| Sorting.KeyLeTransitive | zoho-smartsheet-dashboard/src/components/AgentTicketAgeTable.jsx:159-163 | the comparator is transitive |
| Sorting.KeyLeAntisymmetric | zoho-smartsheet-dashboard/src/components/AgentTicketAgeTable.jsx:159-163 | keys that compare equal both ways are the same key |
| Sorting.SortByPermutes | zoho-smartsheet-dashboard/src/components/AgentTicketAgeTable.jsx:159-163 | sorting neither adds nor drops elements (same multiset) |
| Sorting.SortBySorted | zoho-smartsheet-dashboard/src/components/AgentTicketAgeTable.jsx:159-163 | the sorted sequence is in key order for every pair of positions |
| Sorting.SortByStable | zoho-smartsheet-dashboard/src/components/AgentTicketAgeTable.jsx:159-163 | elements with equal keys keep their input order |
| Lists.FilterMapMembers | zoho-smartsheet-dashboard/src/components/AgentTicketAgeTable.jsx:135-141 | an element is in filter-then-map output exactly when it is the image of an accepted input |
| Lists.FlatMapMembers | zoho-smartsheet-dashboard/src/components/AgentTicketAgeTable.jsx:134-158 | an element is in the concatenated lists exactly when one input's list holds it |
| TicketStatus.Normalize | zoho-smartsheet-dashboard/src/components/AgentTicketAgeTable.jsx:37-45 | empty text normalises to ""; the result has no separators and is lower case except for `inProgress` |
| TicketStatus.NormalizeTable | zoho-smartsheet-dashboard/src/components/AgentTicketAgeTable.jsx:37-45 | the whole mapping from the stripped lower-cased key: hold/onhold → hold, inprogress → inProgress, open, escalated, anything else unchanged; the hyphen and underscore spellings can never occur |
| TicketStatus.NormalizeIdempotent | zoho-smartsheet-dashboard/src/components/AgentTicketAgeTable.jsx:37-45 | normalising a normalised status changes nothing |
| TicketStatus.NormalizeCoreKey | zoho-smartsheet-dashboard/src/components/AgentTicketAgeTable.jsx:40-43 | each canonical key normalises to itself |
| TicketStatus.SplitAtSeparator | zoho-smartsheet-dashboard/src/components/AgentTicketAgeTable.jsx:39 | a space, hyphen or underscore between two words of letters is deleted before lower-casing |
| TicketStatus.StatusRank | zoho-smartsheet-dashboard/src/components/AgentTicketAgeTable.jsx:89-96 | `statusMapSort[sortKey] ?? 99` (:144, :152) is 0, 1, 2, 3 or 99; each core key gets its position in `statusOrder`, and anything ranked below 99 is a core key or "inprogress" |
| TicketStatus.NormalizeExampleHold | zoho-smartsheet-dashboard/src/components/AgentTicketAgeTable.jsx:39-40 | "Hold" normalises to "hold" |
| TicketStatus.NormalizeExamplesSeparated | zoho-smartsheet-dashboard/src/components/AgentTicketAgeTable.jsx:39-40 | "on_hold" and "ON-HOLD" normalise to "hold" |
| TicketStatus.StatusRankOfNormalized | zoho-smartsheet-dashboard/src/components/AgentTicketAgeTable.jsx:89-96 | a normalised status's precedence is its position in `statusOrder`, 99 for any non-core status, and always one of 0, 1, 2, 3, 99 |
| DateFormat.MatchDate | zoho-smartsheet-dashboard/src/components/AgentTicketAgeTable.jsx:15 | a match yields two-digit day, month, hour, minute and a four-digit year |
| DateFormat.FormatDateWithMonthName | zoho-smartsheet-dashboard/src/components/AgentTicketAgeTable.jsx:13-35 | the output is empty exactly when the input is; a string starting with the fixed pattern keeps its own day digits in front; a string neither the pattern nor the host parser accepts comes back unchanged |
| DateFormat.MatchDateAccepts | zoho-smartsheet-dashboard/src/components/AgentTicketAgeTable.jsx:15-17 | every string of the accepted shape, followed by anything, matches with exactly its own parts |
| DateFormat.MatchDateOnlyAccepts | zoho-smartsheet-dashboard/src/components/AgentTicketAgeTable.jsx:15-17 | conversely every matching string is such a date followed by anything |
| DateFormat.MatchDateExample | zoho-smartsheet-dashboard/src/components/AgentTicketAgeTable.jsx:15-17 | "25/12/2024,14:30" matches with parts 25, 12, 2024, 14, 30 |
| DateFormat.LeadingSpaces | zoho-smartsheet-dashboard/src/components/AgentTicketAgeTable.jsx:15 | the skipped white space and the rest put back together give the input |
| DateFormat.TwoDigitValue | zoho-smartsheet-dashboard/src/components/AgentTicketAgeTable.jsx:22 | `parseInt` of two digits is ten times the first plus the second |
| DateFormat.FormatFixedPattern | zoho-smartsheet-dashboard/src/components/AgentTicketAgeTable.jsx:14-23 | a string starting with an accepted date with month 01..12 renders as `DD MonthName YYYY, HH:MM` from the English table; trailing text is ignored and the host parser is not used |
| DateFormat.FormatMonthOutOfRange | zoho-smartsheet-dashboard/src/components/AgentTicketAgeTable.jsx:22-23 | a month outside 01..12 renders as "undefined" and the host parser is not used |
| DateFormat.Pad2RoundTrip | zoho-smartsheet-dashboard/src/components/AgentTicketAgeTable.jsx:27-31 | the host branch pads values below 100 to two digits that read back as the value |
| Entities.LookupDept | zoho-smartsheet-dashboard/src/components/AgentTicketAgeTable.jsx:139 | a found department is configured under that id; a missing one has no entry with that id |
| Entities.LookupDeptFinds | zoho-smartsheet-dashboard/src/components/AgentTicketAgeTable.jsx:139 | when ids are distinct, looking up a configured department's id yields that department |
| Entities.LookupAging | zoho-smartsheet-dashboard/src/components/AgentTicketAgeTable.jsx:328-329 | found aging counts are the agent's entry for that id; a missing one means no entry has that id |
| PendingTable.SelectAgents | zoho-smartsheet-dashboard/src/components/AgentTicketAgeTable.jsx:122-132 | an agent is kept exactly when it lists the selected department (if any) and its name is on the allow-list (if any) |
| PendingTable.StatusAdmittedIff | zoho-smartsheet-dashboard/src/components/AgentTicketAgeTable.jsx:98-118 | a ticket passes the status filter exactly when no status is selected or its status normalises like one of the selected statuses (:142-143) |
| PendingTable.NormalizeDays | zoho-smartsheet-dashboard/src/components/AgentTicketAgeTable.jsx:145-147 | blank exactly when the age is absent or not a number; an age below one day shows as 0; any other age shows as itself |
| PendingTable.InDepartment | zoho-smartsheet-dashboard/src/components/AgentTicketAgeTable.jsx:136-140 | with no department selected every ticket passes; a ticket with the selected id passes; a ticket without a department name passes when the selected department has no name or is not configured, since two absent names compare equal |
| PendingTable.InDepartmentIff | zoho-smartsheet-dashboard/src/components/AgentTicketAgeTable.jsx:136-140 | with distinct department ids, a ticket passes exactly when no department is selected, it has the selected id, its department name equals the selected department's configured name (two absent names compare equal), or it has no name and the selected id is not configured |
| PendingTable.MakeRow | zoho-smartsheet-dashboard/src/components/AgentTicketAgeTable.jsx:148-156 | a row carries the agent name, the ticket status, number and creation time, and the department name or "" without one; its `statusSort` is a core status's `statusOrder` position and 99 for any status that normalises to no core key; its age is the normalised age: blank exactly when absent, 0 below one day, itself otherwise |
| PendingTable.PushTicket | zoho-smartsheet-dashboard/src/components/AgentTicketAgeTable.jsx:136-157 | a ticket's row is pushed exactly when the ticket passes the department and status filters |
| PendingTable.PushAgentRows | zoho-smartsheet-dashboard/src/components/AgentTicketAgeTable.jsx:134-158 | one agent's loop appends the rows of its selected tickets, in ticket order |
| PendingTable.PendingTableRows | zoho-smartsheet-dashboard/src/components/AgentTicketAgeTable.jsx:120-164 | the loops and the sort compute the pending table specification |
| PendingTable.CollectRowsMembers | zoho-smartsheet-dashboard/src/components/AgentTicketAgeTable.jsx:133-158 | a collected row is exactly a row of a selected ticket of one of the agents |
| PendingTable.PendingRowsMembers | zoho-smartsheet-dashboard/src/components/AgentTicketAgeTable.jsx:120-158 | a row is in the table exactly when it comes from a selected agent's ticket passing the department and status filters |
| PendingTable.PendingRowsFiltered | zoho-smartsheet-dashboard/src/components/AgentTicketAgeTable.jsx:142-143 | with statuses selected, every row's normalised status is that of a selected status |
| PendingTable.PendingRowsOrdered | zoho-smartsheet-dashboard/src/components/AgentTicketAgeTable.jsx:159-163 | rows are sorted by case-insensitive name then precedence, are a permutation of the collected rows, and rows with equal keys keep collection order |
| PendingTable.PendingRowPrecedence | zoho-smartsheet-dashboard/src/components/AgentTicketAgeTable.jsx:144-152 | a row's `statusSort` is its status's position in `statusOrder`, or 99 |
| PendingGroups.BucketRows | zoho-smartsheet-dashboard/src/components/AgentTicketAgeTable.jsx:168-172 | the dictionary has one key per name in first-appearance order, each holding that name's rows in input order |
| PendingGroups.EmitGroup | zoho-smartsheet-dashboard/src/components/AgentTicketAgeTable.jsx:175-183 | a bucket is appended with its size on every row and only the first flagged |
| PendingGroups.GroupPendingRows | zoho-smartsheet-dashboard/src/components/AgentTicketAgeTable.jsx:167-185 | the bucketing and emission loops compute the grouped table specification |
| PendingGroups.NamesDistinct | zoho-smartsheet-dashboard/src/components/AgentTicketAgeTable.jsx:174 | the group keys are distinct and are exactly the names occurring in the rows |
| PendingGroups.GroupedPerName | zoho-smartsheet-dashboard/src/components/AgentTicketAgeTable.jsx:167-185 | one agent's grouped rows are exactly its input rows, in input order, annotated with the group size and the first flagged |
| PendingGroups.GroupedIsPermutation | zoho-smartsheet-dashboard/src/components/AgentTicketAgeTable.jsx:167-185 | grouping keeps the number of rows and each input row appears exactly once |
| PendingGroups.GroupSizes | zoho-smartsheet-dashboard/src/components/AgentTicketAgeTable.jsx:175-181 | every grouped row has `totalTickets` = `_rowSpan` = the number of input rows with its name |
| PendingGroups.OneFirstPerName | zoho-smartsheet-dashboard/src/components/AgentTicketAgeTable.jsx:176-180 | exactly one row per name is flagged first, namely that name's first input row; a name without rows has no group |
| PendingGroups.GroupsContiguous | zoho-smartsheet-dashboard/src/components/AgentTicketAgeTable.jsx:174-184 | each agent's rows form one unbroken run |
| DepartmentTable.EveryCellListed | zoho-smartsheet-dashboard/src/components/AgentTicketAgeTable.jsx:195-218 | the twelve listed cells are every bucket × status combination |
| DepartmentTable.StatusIndex | zoho-smartsheet-dashboard/src/components/AgentTicketAgeTable.jsx:89 | the index of a status in `statusOrder` points back at that status |
| DepartmentTable.Fresh | zoho-smartsheet-dashboard/src/components/AgentTicketAgeTable.jsx:192-219 | a fresh accumulator has a count and a list for every cell |
| DepartmentTable.DisplayName | zoho-smartsheet-dashboard/src/components/AgentTicketAgeTable.jsx:193 | a department is shown by its name when it has a non-empty one, and by its id otherwise; the label is empty only for an empty id |
| DepartmentTable.FreshHolds | zoho-smartsheet-dashboard/src/components/AgentTicketAgeTable.jsx:192-219 | a fresh accumulator is named by the department name, or its id when the name is missing or empty, and has every count 0 and every list empty, as after reading no agent |
| DepartmentTable.AddTickets | zoho-smartsheet-dashboard/src/components/AgentTicketAgeTable.jsx:225-228 | one cell's list gets the tickets appended and its count grows by their number; other cells are unchanged |
| DepartmentTable.AddStatus | zoho-smartsheet-dashboard/src/components/AgentTicketAgeTable.jsx:224-236 | the three bucket loops for a status add to that status's cells only |
| DepartmentTable.AddAgingCounts | zoho-smartsheet-dashboard/src/components/AgentTicketAgeTable.jsx:224-237 | one department entry adds its list for every cell, and its length to the cell's count |
| DepartmentTable.ConfigureDepartments | zoho-smartsheet-dashboard/src/components/AgentTicketAgeTable.jsx:190-220 | `byDept` has exactly the configured ids as keys, each with an accumulator named by the department name, or its id when the name is missing or empty, that holds no tickets yet |
| DepartmentTable.ReadEntries | zoho-smartsheet-dashboard/src/components/AgentTicketAgeTable.jsx:222-238 | an agent's entries are added to configured departments; others are skipped |
| DepartmentTable.ReadEntry | zoho-smartsheet-dashboard/src/components/AgentTicketAgeTable.jsx:223-237 | one entry is added to its department's accumulator when that department is configured, and every other accumulator is left as it was |
| DepartmentTable.ReadAgingCounts | zoho-smartsheet-dashboard/src/components/AgentTicketAgeTable.jsx:221-239 | after all agents, each accumulator holds every agent's lists for its department |
| DepartmentTable.DepartmentRows | zoho-smartsheet-dashboard/src/components/AgentTicketAgeTable.jsx:188-254 | the accumulation, totals, sort and numbering compute the department table specification |
| DepartmentTable.DepartmentView | zoho-smartsheet-dashboard/src/components/AgentTicketAgeTable.jsx:188-254 | no table exactly when the view is off; otherwise one row per configured department, numbered from 1 |
| DepartmentTable.DepartmentViewShape | zoho-smartsheet-dashboard/src/components/AgentTicketAgeTable.jsx:189-253 | no table exactly when the view is off; otherwise one row per configured department, sorted by case-insensitive name, `si` = position + 1 |
| DepartmentTable.OneRowPerDepartment | zoho-smartsheet-dashboard/src/components/AgentTicketAgeTable.jsx:191-247 | every configured department has a row and every row is a configured department's |
| DepartmentTable.RowContents | zoho-smartsheet-dashboard/src/components/AgentTicketAgeTable.jsx:193-247 | a row shows the display name; each cell lists all agents' numbers for it in order and counts them; the total is the number of listed tickets |
| DepartmentTable.CellSumCountsTickets | zoho-smartsheet-dashboard/src/components/AgentTicketAgeTable.jsx:243-246 | when counts equal list lengths, the sum of the counts is the length of all the lists together |
| DepartmentTable.DeptTicketsAppend | zoho-smartsheet-dashboard/src/components/AgentTicketAgeTable.jsx:221-239 | a department's lists are the first agents' lists followed by the rest's |
| DepartmentTable.UnconfiguredIgnored | zoho-smartsheet-dashboard/src/components/AgentTicketAgeTable.jsx:223 | an agent reporting only unconfigured departments leaves the table unchanged |
| AgentSummary.VisibleColumns | zoho-smartsheet-dashboard/src/components/AgentTicketAgeTable.jsx:80 | a column is visible exactly when its key is selected; there are at most three |
| AgentSummary.AggregateTickets | zoho-smartsheet-dashboard/src/components/AgentTicketAgeTable.jsx:322-331 | with no department selected a ticket is listed exactly when some department entry lists it; with one selected, the list is that department's own list (ids being distinct), and empty when the agent does not report it |
| AgentSummary.CountFromArray | zoho-smartsheet-dashboard/src/components/AgentTicketAgeTable.jsx:333-335 | with no department selected the count is the sum of the list lengths of every department entry; with one selected but not reported it is 0 |
| AgentSummary.CellCount | zoho-smartsheet-dashboard/src/components/AgentTicketAgeTable.jsx:686-689 | an age column's figure is at least the count of each core status and is 0 for a department the agent does not report |
| AgentSummary.TotalColumn | zoho-smartsheet-dashboard/src/components/AgentTicketAgeTable.jsx:651-657 | the total is at least the figure of every visible column and is 0 for a department the agent does not report |
| AgentSummary.KeepAgent | zoho-smartsheet-dashboard/src/components/AgentTicketAgeTable.jsx:342-353 | with no department selected an agent is kept exactly when its five status totals add up to more than 0 |
| AgentSummary.DepartmentLabel | zoho-smartsheet-dashboard/src/components/AgentTicketAgeTable.jsx:365 | the label of the selected department is its display name as the department table shows it (its non-empty name, else its id), and the id itself when the department is not configured |
| AgentSummary.SelectedDepartmentCount | zoho-smartsheet-dashboard/src/components/AgentTicketAgeTable.jsx:328-330 | with a department selected, a count is the length of that department's list, or 0 without an entry |
| AgentSummary.AllDepartmentsIsSumOfEach | zoho-smartsheet-dashboard/src/components/AgentTicketAgeTable.jsx:322-335 | with none selected, a count is the sum of the counts shown with each department selected |
| AgentSummary.CellCountIsTooltipLength | zoho-smartsheet-dashboard/src/components/AgentTicketAgeTable.jsx:664-689 | an age column's figure is the number of tickets its tooltip lists |
| AgentSummary.TotalCountsVisibleTickets | zoho-smartsheet-dashboard/src/components/AgentTicketAgeTable.jsx:651-657 | the total column is the number of tickets of the four statuses over the visible columns |
| AgentSummary.KeptRowsMembers | zoho-smartsheet-dashboard/src/components/AgentTicketAgeTable.jsx:341-367 | a row is kept exactly when it is the row of an agent passing the filter |
| AgentSummary.TableRows | zoho-smartsheet-dashboard/src/components/AgentTicketAgeTable.jsx:341-368 | the rows are sorted by case-insensitive name and are a permutation of the kept rows |
| AgentSummary.TableRowsSpec | zoho-smartsheet-dashboard/src/components/AgentTicketAgeTable.jsx:341-368 | the table lists each kept agent's row once, sorted by case-insensitive name |
| AgentSummary.NoDepartmentFilter | zoho-smartsheet-dashboard/src/components/AgentTicketAgeTable.jsx:349-352 | with no department selected, an agent is shown exactly when open + hold + escalated + unassigned + inProgress > 0; the allow-list plays no part |
| AgentSummary.KeptRowsIgnoreNames | zoho-smartsheet-dashboard/src/components/AgentTicketAgeTable.jsx:349-352 | with no department selected the allow-list does not change the kept rows |
| AgentSummary.DepartmentFilter | zoho-smartsheet-dashboard/src/components/AgentTicketAgeTable.jsx:343-348 | with a department selected, a shown agent has a positive ticket count or a positive aging list in that department and its trimmed name is allowed; the row shows the department's label |
| AgentSummary.DepartmentFilterShows | zoho-smartsheet-dashboard/src/components/AgentTicketAgeTable.jsx:343-348 | with a department selected, an allowed agent with a positive ticket count there, or an aging list there that counts as positive, is shown |

## Left out

- Rendering: JSX, inline styles, status colours, column headers, the "no data" messages and the tooltip components. Only the tooltip's list content is modelled, as `AgentSummary.TooltipTickets`.
- UI state and events: hover state, the window double-click subscription and `useMemo` memoisation. Memoised values are plain recomputation.
- The host `Date` fallback of the formatter. It depends on the host's parsing rules, time zone and locale, so it is a parameter giving the calendar fields or nothing.
- JsText.Lower: maps only ASCII letters. Full Unicode `toLowerCase` is not modelled.
- `localeCompare` with `sensitivity: 'base'` is modelled as code-point order on the ASCII-lower-cased name. Locale collation and accent folding are not modelled.
- AgentSummary.TableRowsSpec: orders by the case-insensitive key only. The default `localeCompare` order of names that differ only in case is not modelled.
- `Number(...)` parsing of `daysNotResponded` and floating point. The age arrives as an optional real; absent, empty or non-numeric input is `None`.
- AgentSummary.KeepAgent: the `v > 0` test on aging-list values (:346) relies on array-to-number coercion. It is the parameter `positive`.
- Objects are modelled as maps and entry sequences without inherited keys. In JavaScript, keys inherited from `Object.prototype` change the outcome:
  - An agent named "constructor", "toString" or "__proto__" finds `grouped[row.name]` already set, and `.push` throws (:170-171).
  - A status that normalises to "constructor" gets a function as `statusSort`, and the comparator returns NaN (:152, :162).
  - An aging entry keyed "constructor" passes the `!byDept[deptId]` guard and throws at the first `.push` (:223-227).
  - A selected department id "constructor" resolves to the name "Object" (:139, :365).
- `Object.keys` puts integer-like keys first. The model keeps insertion order for the group dictionary and the department map.
- DepartmentTable.DepartmentRows: requires distinct department ids, as the keys of a JavaScript object are.
- PendingTable.InDepartmentIff: requires distinct department ids, as the keys of `departmentsMap` are. With repeated ids the lookup would take the first match.
- AgentSummary.AllDepartmentsIsSumOfEach: requires distinct, non-empty department ids, as object keys are. An empty id could not be selected.
- The unused `ticketSet` field of the department accumulator and the row's `agingCounts` field of the summary table.
- The `st.value || st` unwrapping of selected statuses: statuses arrive as strings.
- An agent without a `name` in the department-filtered summary: `trim` would throw there. Names are strings.
- A `membersData` that is missing or not an array: the agent list is a sequence, possibly empty.
- The `ticketNumbersForDeptRow` render helper, the per-status tooltips shown when statuses are selected, and the pending table's split of the formatted date at the comma.
- Strings are sequences of code points, not UTF-16 code units.
- The code that builds `membersData` and `departmentsMap` is not part of this model.
