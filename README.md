# pg-diff-viewer: table reconciliation model

`compare_postgres.py` compares two PostgreSQL schemas, a source and a
target, table by table. It lists the base tables of each schema. It drops
the tables the operator excluded at a prompt. Then it builds one record per
remaining table: the table name, the source row count, the target row count
and a status. The status is "Missing in Target", "Missing in Source",
"Match" or "Row Count Mismatch". The records are written to a CSV file, an
HTML page and the console.

This project models the logic of that run in Dafny:

- `table_order.dfy` (module `TableOrder`) models Python's ordering of `str`
  values (`Less`, code point by code point, a prefix first) and `sorted`
  applied to a set of names (`Sort`). It proves that `Less` is a strict total
  order, and that `Sort` yields each member once in strictly increasing
  order and is the only list that does.
- `reconciler.dfy` (module `Reconciler`) models `compare_all_tables`.
  `CompareAllTables` is an imperative method with the source's three loops.
  Each loop appends to a growing result list. The method is proved equal to
  the specification function `Reconcile`. The lemmas beside it state what
  the report holds:
  - one record per reported name;
  - no excluded name;
  - three blocks in a fixed order, each sorted;
  - each record's counts and status;
  - the effect of failed counts.
- `get_row_count` becomes the parameter `count: (Side, string) -> Count`.
  `Count` is `Rows(n)` or `CountError`; `CountError` stands for the sentinel
  "ERROR" that the function returns instead of raising.
- `exclusions.dfy` (module `ExclusionInput`) models the parsing of the
  exclusion line, `[x.strip() for x in s.split(",") if x.strip()]`. It
  covers Python's `str.split` on one separator, `str.strip` with the
  `str.isspace` character set, and the filter that drops blank pieces.
- `report.dfy` (module `Report`) models the status strings and the CSS class
  the HTML report derives from each status (`status.replace(" ", "_")`). It
  proves that each class is the one its stylesheet rule names.
- `scenarios.dfy` (module `Scenarios`) holds worked runs on small schemas.

A table common to both schemas is a "Match" exactly when Python's `==`
holds between its two count values (`compare_postgres.py:157`). The sentinel
"ERROR" equals itself, so a table whose count fails on both sides is a
"Match", while a number against "ERROR" is a "Row Count Mismatch"; see
`Reconciler.ErrorComparisons`.

Source-only records come first, then target-only records, then the common
tables. So for source {users, orders, logs} and target {users, orders},
`logs` precedes `orders` and `users`; see
`Scenarios.ScenarioTableMissingInTarget`.

## Model

| member | source | states |
|---|---|---|
| TableOrder.LessIrreflexive | compare_postgres.py:135 | no name sorts before itself under Python's string order |
| TableOrder.LessAsymmetric | compare_postgres.py:135 | if `a` sorts before `b`, `b` does not sort before `a` |
| TableOrder.LessTransitive | compare_postgres.py:135 | the string order is transitive |
| TableOrder.LessConnected | compare_postgres.py:135 | any two different names are ordered one way or the other |
| TableOrder.LessIsStrictTotalOrder | compare_postgres.py:135 | Python's string order is a strict total order on all names |
| TableOrder.Least | compare_postgres.py:135 | the first name `sorted` yields is a member of the set and precedes every other member |
| TableOrder.SortSpec | compare_postgres.py:135 | `sorted(set)` lists each member exactly once, nothing else, in strictly increasing order, with as many entries as the set has members |
| TableOrder.IncreasingIsDistinct | compare_postgres.py:135 | a strictly increasing list holds no name twice |
| TableOrder.SortUnique | compare_postgres.py:135 | any strictly increasing list with exactly the set's members is the sorted list |
| Reconciler.CompareAllTables | compare_postgres.py:121-164 | the three loops produce exactly `Reconcile`. Every record names a table in (source ∪ target) − exclusions, every such table has a record, and no table has two |
| Reconciler.RowsForAppend | compare_postgres.py:135-142 | appending the record of the next name extends the records already built, as each loop iteration does |
| Reconciler.RowsForAt | compare_postgres.py:135-164 | the records of a list of names have the list's length, and the record at position `i` is the one for the `i`-th name |
| Reconciler.LayoutAt | compare_postgres.py:135-164 | records of the source-only names come first, then the target-only names, then the common names, each at its own offset |
| Reconciler.GroupsPartitionReported | compare_postgres.py:124-129 | source-only, target-only and common names are pairwise disjoint, and together they are exactly (source ∪ target) − exclusions |
| Reconciler.GroupsCard | compare_postgres.py:124-129 | the three groups' sizes add up to the number of reported names |
| Reconciler.ReconcileLength | compare_postgres.py:135-164 | one record per member of each group, no more |
| Reconciler.ReconcileAt | compare_postgres.py:135-164 | the record at index `i` is the record for the name at the same position in its group's sorted names |
| Reconciler.RecordOfName | compare_postgres.py:135-164 | the `k`-th sorted name of a group has its record at the group's offset plus `k` |
| Reconciler.RecordInGroup | compare_postgres.py:124-164 | each record's status is the one of the group it sits in, its table is a member of that group, and its counts are that group's |
| Reconciler.NameHasRecord | compare_postgres.py:135-164 | every member of every group gets a record |
| Reconciler.RecordCount | compare_postgres.py:124-164 | there are exactly as many records as names in (source ∪ target) − exclusions, even when an input list repeats a name |
| Reconciler.DistinctTables | compare_postgres.py:124-164 | records at two different positions are for two different tables |
| Reconciler.SortedWithinGroup | compare_postgres.py:135-153 | two records of the same block come in strictly increasing name order |
| Reconciler.OneRecordPerName | compare_postgres.py:124-164 | exactly one record per name in (source ∪ target) − exclusions: every record is for a reported name, each reported name has a record, no name has two, and the count of records equals the count of names |
| Reconciler.ExcludedNeverReported | compare_postgres.py:124-125 | no excluded name gets a record, whichever list held it |
| Reconciler.BlocksInOrder | compare_postgres.py:135-164 | source-only records precede target-only records, which precede common records, and names strictly increase within each block |
| Reconciler.RecordContents | compare_postgres.py:124-164 | "Missing in Target" iff the table is kept only in the source, "Missing in Source" iff only in the target, "Match"/"Row Count Mismatch" iff in both. Each record carries the counts and "MISSING" cells of its group, and a common table is a "Match" iff the two count values are equal |
| Reconciler.ErrorComparisons | compare_postgres.py:155-157 | a table common to both schemas has a record. Two "ERROR" counts match (Python's `==`), and a number against "ERROR" is a mismatch |
| Reconciler.CountFailuresKeepEveryRecord | compare_postgres.py:135-164 | whatever the counts, the same tables are reported in the same order and groups, and every count that was queried and failed shows as "ERROR" in that side's cell of its own record rather than ending the run |
| ExclusionInput.StripLeft | compare_postgres.py:188 | the left strip is no longer than its input and does not start with whitespace |
| ExclusionInput.StripLeftSuffix | compare_postgres.py:188 | what the left strip leaves is a suffix of its input |
| ExclusionInput.StripLeftDropsBlank | compare_postgres.py:188 | the leading part the left strip drops is all whitespace |
| ExclusionInput.StripRight | compare_postgres.py:188 | the right strip is no longer than its input and does not end with whitespace |
| ExclusionInput.StripRightPrefix | compare_postgres.py:188 | what the right strip leaves is a prefix of its input |
| ExclusionInput.StripRightDropsBlank | compare_postgres.py:188 | the trailing part the right strip drops is all whitespace |
| ExclusionInput.Strip | compare_postgres.py:188 | `str.strip()` is no longer than its input, and is empty or neither starts nor ends with whitespace |
| ExclusionInput.StripEmptyIffBlank | compare_postgres.py:188 | `str.strip()` is empty iff the input is all whitespace, the test the `if x.strip()` filter makes |
| ExclusionInput.StripAvoids | compare_postgres.py:188 | stripping adds no character |
| ExclusionInput.StripTrimmed | compare_postgres.py:188 | stripping a string without surrounding whitespace changes nothing |
| ExclusionInput.StripPadding | compare_postgres.py:188 | whitespace added on both sides of a string is stripped away again |
| ExclusionInput.StripLeftPadding | compare_postgres.py:188 | leading whitespace added to a string is removed by the left strip |
| ExclusionInput.StripRightPadding | compare_postgres.py:188 | trailing whitespace added to a string is removed by the right strip |
| ExclusionInput.StripLeftThenRight | compare_postgres.py:188 | trailing whitespace does not change the stripped result |
| ExclusionInput.StripLeftBlank | compare_postgres.py:188 | an all-whitespace string strips to empty |
| ExclusionInput.Split | compare_postgres.py:188 | `str.split(",")` yields at least one piece, and no piece holds the separator |
| ExclusionInput.JoinSplit | compare_postgres.py:188 | joining the pieces back with the separator gives the original line |
| ExclusionInput.SplitWithoutSeparator | compare_postgres.py:188 | a line without the separator splits into itself alone |
| ExclusionInput.SplitAtSeparator | compare_postgres.py:188 | splitting `a + "," + b` gives the pieces of `a` followed by the pieces of `b` |
| ExclusionInput.SplitJoin | compare_postgres.py:188 | splitting pieces joined with the separator gives the pieces back, when no piece holds it |
| ExclusionInput.NonBlankStrippedTrimmed | compare_postgres.py:188 | the kept names are no more than the pieces, and each is non-empty without surrounding whitespace |
| ExclusionInput.NonBlankStrippedAvoids | compare_postgres.py:188 | a character no piece holds is in no kept name |
| ExclusionInput.NonBlankStrippedAppend | compare_postgres.py:188 | the list comprehension over two lists of pieces is the concatenation of the two results |
| ExclusionInput.ParseExclusions | compare_postgres.py:188 | every parsed exclusion is non-empty, has no surrounding whitespace, and holds no comma |
| ExclusionInput.ParseKeepsOrder | compare_postgres.py:188 | the names before a comma come first, in order, followed by the names after it |
| ExclusionInput.ParseOneName | compare_postgres.py:188 | a line without a comma gives its stripped text as the one name, or nothing when it is blank |
| ExclusionInput.OnlySeparatorsCons | compare_postgres.py:188 | a line is made only of whitespace and commas iff its first character is one of them and the rest of the line is too |
| ExclusionInput.ParseCons | compare_postgres.py:188 | the first piece of a line not starting with a comma begins with its first character; the parse is empty iff that character is whitespace, the rest of the first piece is blank, and no later piece yields a name |
| ExclusionInput.BlankCons | compare_postgres.py:188 | a string is all whitespace iff its first character is whitespace and the rest is all whitespace |
| ExclusionInput.ParseEmpty | compare_postgres.py:188 | the exclusion list is empty iff the line holds nothing but whitespace and commas, the empty line included |
| Report.CssClass | compare_postgres.py:73 | the class has the status's length and no space |
| Report.CssClassAt | compare_postgres.py:73 | each space becomes an underscore, and every other character stays where it was |
| Report.CssClassKeepsSpaceless | compare_postgres.py:73 | a status without spaces is its own class |
| Report.CssClassAppend | compare_postgres.py:73 | the class of a concatenation is the concatenation of the classes |
| Report.CssClassOfWords | compare_postgres.py:73 | three words separated by single spaces become the words separated by underscores |
| Report.CssClassOfStatus | compare_postgres.py:73-95 | each status gets the class its stylesheet rule is written for: `Match`, `Row_Count_Mismatch`, `Missing_in_Source`, `Missing_in_Target` |
| Report.CssClassOfRowCountMismatch | compare_postgres.py:73-94 | "Row Count Mismatch" becomes `Row_Count_Mismatch` |
| Report.CssClassOfMissingInSource | compare_postgres.py:73-95 | "Missing in Source" becomes `Missing_in_Source` |
| Report.CssClassOfMissingInTarget | compare_postgres.py:73-95 | "Missing in Target" becomes `Missing_in_Target` |
| Report.CssClassesDistinct | compare_postgres.py:73-95 | different statuses have different labels and different classes, so a row's class tells its status; the two Missing classes share one colour rule |
| Scenarios.SortSingle | compare_postgres.py:135 | a one-name group sorts to that name |
| Scenarios.SortPair | compare_postgres.py:153 | a two-name group sorts with the lesser name first |
| Scenarios.ScenarioTableMissingInTarget | compare_postgres.py:121-164 | source {users, orders, logs} against target {users, orders} with equal counts gives `logs` "Missing in Target", then `orders` and `users` as "Match" |
| Scenarios.ScenarioCountsDiffer | compare_postgres.py:153-164 | one common table counted 100 and 99 gives a single "Row Count Mismatch" record with both counts |
| Scenarios.ScenarioTargetCountFails | compare_postgres.py:153-164 | a failing target count still gives the table's record, with "ERROR" for the target and status "Row Count Mismatch" |
| Scenarios.PaddedExclusion | compare_postgres.py:188 | a name typed with a space on each side parses to the bare name |
| Scenarios.ExcludeOneOfTwo | compare_postgres.py:124-129 | excluding one of two tables both schemas hold leaves only the other's record |
| Scenarios.ScenarioExcludedTable | compare_postgres.py:188-202 | a table excluded by typing its name with surrounding spaces gets no record, and the other table is still reported |

## Left out

- `get_connection_details` (`compare_postgres.py:10-37`) is not modelled. It reads host, port, database, user, schema and password at the terminal, with up to three password attempts. That is interactive I/O.
- `connect_db` and `get_tables` (`compare_postgres.py:40-57`) are not modelled. They open connections and query the catalog over the network. The table lists are inputs of `CompareAllTables` instead.
- The `SELECT COUNT(*)` query of `get_row_count` (`compare_postgres.py:60-67`) is not modelled. It becomes the `count` parameter. That parameter is a total function giving a non-negative count or `CountError`. The printed warning is not modelled.
- The console output of `compare_all_tables` (`compare_postgres.py:131-133,154,158`) is not modelled. The group listings and per-table lines are output only.
- The CSV writing (`compare_postgres.py:166-172`) is not modelled. It is file I/O and the file holds the records unchanged.
- The HTML page (`compare_postgres.py:70-118`) is not modelled, apart from the status-to-class derivation and the class names of its stylesheet.
- `main` (`compare_postgres.py:180-219`) is not modelled, apart from the exclusion parsing on line 188. It prompts and prints the `tabulate` table. It also catches fatal errors and closes the connections in `finally`, which is resource handling over I/O.
- The warnings filter (`compare_postgres.py:8`) is not modelled. It configures a driver library and has no behaviour of its own.
- The other variant of the tool is not part of this model. It writes a boolean `counts_match` column and has no exclusion prompt.
- `Reconciler.CompareAllTables` takes the two count providers as one function `count`, selected by `Side`. Connections and schema names are not parameters of its own.
- `TableOrder.Less` compares Dafny `char` values, which are Unicode scalar values. That is Python's code-point order for every string Dafny can represent. Strings holding lone surrogates, which Python allows, are not represented.
