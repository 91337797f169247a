/**
 The table reconciler of compare_postgres.py (`compare_all_tables`): given the
 table names listed in the source and target schemas, the names the operator
 excluded, and a row counter for each side, it reports one record per table:
 first the tables only the source has, then those only the target has, then
 those both have, each group in name order.
 */
module Reconciler {
  import opened TableOrder

  /** Which of the two databases a row count is taken from. */
  datatype Side = Source | Target

  /**
   What `get_row_count` returns: the table's row count, or the sentinel
   "ERROR" when the count query failed for any reason (it never raises).
   */
  datatype Count = Rows(n: nat) | CountError

  /** A count column of a record: a count, or the sentinel "MISSING" for the side without the table. */
  datatype Cell = Counted(count: Count) | Missing

  /** The four status strings a record can carry. */
  datatype Status = Match | RowCountMismatch | MissingInSource | MissingInTarget

  /** One record of the comparison: table, source_count, target_count, status. */
  datatype Row = Row(table: string, sourceCount: Cell, targetCount: Cell, status: Status)

  /**
   The row counter for one side and one table. It stands for `get_row_count`
   on that side's connection and schema; the query itself is not modelled.
   */
  type Counter = (Side, string) -> Count

  /** The names of a list, as Python's `set(list)`. */
  function Names(ts: seq<string>): set<string>
  {
    set t | t in ts
  }

  /** `set(tables) - set(exclusions)`. */
  function Kept(tables: seq<string>, exclusions: seq<string>): set<string>
  {
    Names(tables) - Names(exclusions)
  }

  /** The names that get a record: (source ∪ target) − exclusions. */
  function Reported(src: seq<string>, tgt: seq<string>, exclusions: seq<string>): set<string>
  {
    (Names(src) + Names(tgt)) - Names(exclusions)
  }

  /** The three groups the reconciler processes, in the order it processes them. */
  datatype Group = SourceOnly | TargetOnly | Common

  /** The names of one group. */
  function GroupNames(g: Group, src: seq<string>, tgt: seq<string>, exclusions: seq<string>): set<string>
  {
    var srcSet := Kept(src, exclusions);
    var tgtSet := Kept(tgt, exclusions);
    match g
    case SourceOnly => srcSet - tgtSet
    case TargetOnly => tgtSet - srcSet
    case Common => srcSet * tgtSet
  }

  /** The status of a table both sides have: Python's `==` on the two count values. */
  function CompareCounts(srcCount: Count, tgtCount: Count): Status
  {
    if srcCount == tgtCount then Match else RowCountMismatch
  }

  /** The record for `table` in group `g`, with the counts `count` gives. */
  function RowFor(table: string, g: Group, count: Counter): Row
  {
    match g
    case SourceOnly => Row(table, Counted(count(Source, table)), Missing, MissingInTarget)
    case TargetOnly => Row(table, Missing, Counted(count(Target, table)), MissingInSource)
    case Common =>
      var srcCount := count(Source, table);
      var tgtCount := count(Target, table);
      Row(table, Counted(srcCount), Counted(tgtCount), CompareCounts(srcCount, tgtCount))
  }

  /** The records for the names `ts`, in the order of `ts`. */
  function RowsFor(ts: seq<string>, g: Group, count: Counter): seq<Row>
  {
    if ts == [] then [] else RowsFor(ts[..|ts| - 1], g, count) + [RowFor(ts[|ts| - 1], g, count)]
  }

  /** The sorted names of each group. */
  function SortedGroup(g: Group, src: seq<string>, tgt: seq<string>, exclusions: seq<string>): seq<string>
  {
    Sort(GroupNames(g, src, tgt, exclusions))
  }

  /** The records for three lists of names, one list per group, laid end to end in group order. */
  function Layout(a: seq<string>, b: seq<string>, c: seq<string>, count: Counter): seq<Row>
  {
    RowsFor(a, SourceOnly, count) + RowsFor(b, TargetOnly, count) + RowsFor(c, Common, count)
  }

  /** The records `compare_all_tables` returns, group by group, each group sorted by name. */
  function Reconcile(src: seq<string>, tgt: seq<string>, exclusions: seq<string>, count: Counter): seq<Row>
  {
    Layout(SortedGroup(SourceOnly, src, tgt, exclusions),
           SortedGroup(TargetOnly, src, tgt, exclusions),
           SortedGroup(Common, src, tgt, exclusions), count)
  }

  /** Appending the record for the next name extends the records for the names before it. */
  lemma RowsForAppend(ts: seq<string>, i: nat, g: Group, count: Counter)
    requires i < |ts|
    ensures RowsFor(ts[..i + 1], g, count) == RowsFor(ts[..i], g, count) + [RowFor(ts[i], g, count)]
  {
    assert ts[..i + 1][..i] == ts[..i];
  }

  /**
   `compare_all_tables` without its console, CSV and HTML output: subtract the
   exclusions, split the names into three groups, and append one record per
   name, group after group, each group in `sorted` order.
   */
  method CompareAllTables(srcTables: seq<string>, tgtTables: seq<string>, exclusions: seq<string>, count: Counter)
    returns (results: seq<Row>)
    ensures results == Reconcile(srcTables, tgtTables, exclusions, count)
    ensures forall r :: r in results ==> r.table in Reported(srcTables, tgtTables, exclusions)
    ensures forall t :: t in Reported(srcTables, tgtTables, exclusions) ==> exists r :: r in results && r.table == t
    ensures forall i, j :: 0 <= i < j < |results| ==> results[i].table != results[j].table
  {
    results := [];

    var srcSet := Kept(srcTables, exclusions);
    var tgtSet := Kept(tgtTables, exclusions);

    var onlyInSrc := srcSet - tgtSet;
    var onlyInTgt := tgtSet - srcSet;
    var common := srcSet * tgtSet;

    var srcOrder := Sort(onlyInSrc);
    for i := 0 to |srcOrder|
      invariant results == RowsFor(srcOrder[..i], SourceOnly, count)
    {
      var c := count(Source, srcOrder[i]);
      RowsForAppend(srcOrder, i, SourceOnly, count);
      results := results + [Row(srcOrder[i], Counted(c), Missing, MissingInTarget)];
    }
    assert srcOrder[..|srcOrder|] == srcOrder;
    ghost var done := results;

    var tgtOrder := Sort(onlyInTgt);
    for i := 0 to |tgtOrder|
      invariant results == done + RowsFor(tgtOrder[..i], TargetOnly, count)
    {
      var c := count(Target, tgtOrder[i]);
      RowsForAppend(tgtOrder, i, TargetOnly, count);
      results := results + [Row(tgtOrder[i], Missing, Counted(c), MissingInSource)];
    }
    assert tgtOrder[..|tgtOrder|] == tgtOrder;
    done := results;

    var commonOrder := Sort(common);
    for i := 0 to |commonOrder|
      invariant results == done + RowsFor(commonOrder[..i], Common, count)
    {
      var srcCount := count(Source, commonOrder[i]);
      var tgtCount := count(Target, commonOrder[i]);
      var status := CompareCounts(srcCount, tgtCount);
      RowsForAppend(commonOrder, i, Common, count);
      results := results + [Row(commonOrder[i], Counted(srcCount), Counted(tgtCount), status)];
    }
    assert commonOrder[..|commonOrder|] == commonOrder;

    assert srcOrder == SortedGroup(SourceOnly, srcTables, tgtTables, exclusions);
    assert tgtOrder == SortedGroup(TargetOnly, srcTables, tgtTables, exclusions);
    assert commonOrder == SortedGroup(Common, srcTables, tgtTables, exclusions);
    OneRecordPerName(srcTables, tgtTables, exclusions, count);
  }


  // ---------------------------------------------------------------------------
  // Where each record sits
  // ---------------------------------------------------------------------------

  /** The group a record's status places it in. */
  function GroupOf(s: Status): Group
  {
    match s
    case MissingInTarget => SourceOnly
    case MissingInSource => TargetOnly
    case Match => Common
    case RowCountMismatch => Common
  }

  /** Position of a group in the output. */
  function Rank(g: Group): nat
  {
    match g
    case SourceOnly => 0
    case TargetOnly => 1
    case Common => 2
  }

  /** Index of the first record of group `g`. */
  function Offset(g: Group, src: seq<string>, tgt: seq<string>, exclusions: seq<string>): nat
  {
    match g
    case SourceOnly => 0
    case TargetOnly => |SortedGroup(SourceOnly, src, tgt, exclusions)|
    case Common => |SortedGroup(SourceOnly, src, tgt, exclusions)| + |SortedGroup(TargetOnly, src, tgt, exclusions)|
  }

  /** The group that the record at index `i` belongs to. */
  function GroupAt(i: nat, src: seq<string>, tgt: seq<string>, exclusions: seq<string>): Group
  {
    if i < Offset(TargetOnly, src, tgt, exclusions) then SourceOnly
    else if i < Offset(Common, src, tgt, exclusions) then TargetOnly
    else Common
  }

  lemma {:induction false} RowsForAt(ts: seq<string>, g: Group, count: Counter)
    ensures |RowsFor(ts, g, count)| == |ts|
    ensures forall i :: 0 <= i < |ts| ==> RowsFor(ts, g, count)[i] == RowFor(ts[i], g, count)
    decreases |ts|
  {
    if ts != [] {
      RowsForAt(ts[..|ts| - 1], g, count);
    }
  }

  /** The three groups split the reported names: no name is in two groups, and together they are all of them. */
  lemma GroupsPartitionReported(src: seq<string>, tgt: seq<string>, exclusions: seq<string>)
    ensures GroupNames(SourceOnly, src, tgt, exclusions) !! GroupNames(TargetOnly, src, tgt, exclusions)
    ensures GroupNames(SourceOnly, src, tgt, exclusions) !! GroupNames(Common, src, tgt, exclusions)
    ensures GroupNames(TargetOnly, src, tgt, exclusions) !! GroupNames(Common, src, tgt, exclusions)
    ensures GroupNames(SourceOnly, src, tgt, exclusions) + GroupNames(TargetOnly, src, tgt, exclusions)
            + GroupNames(Common, src, tgt, exclusions) == Reported(src, tgt, exclusions)
  {
  }

  /** Where the records of each list sit in a layout. */
  lemma LayoutAt(a: seq<string>, b: seq<string>, c: seq<string>, count: Counter)
    ensures |Layout(a, b, c, count)| == |a| + |b| + |c|
    ensures forall i :: 0 <= i < |a| ==> Layout(a, b, c, count)[i] == RowFor(a[i], SourceOnly, count)
    ensures forall i :: |a| <= i < |a| + |b| ==> Layout(a, b, c, count)[i] == RowFor(b[i - |a|], TargetOnly, count)
    ensures forall i :: |a| + |b| <= i < |a| + |b| + |c| ==>
      Layout(a, b, c, count)[i] == RowFor(c[i - |a| - |b|], Common, count)
  {
    RowsForAt(a, SourceOnly, count);
    RowsForAt(b, TargetOnly, count);
    RowsForAt(c, Common, count);
  }

  /** There is one record per member of each group. */
  lemma ReconcileLength(src: seq<string>, tgt: seq<string>, exclusions: seq<string>, count: Counter)
    ensures |Reconcile(src, tgt, exclusions, count)| == Offset(Common, src, tgt, exclusions)
                                                       + |SortedGroup(Common, src, tgt, exclusions)|
  {
    LayoutAt(SortedGroup(SourceOnly, src, tgt, exclusions), SortedGroup(TargetOnly, src, tgt, exclusions),
             SortedGroup(Common, src, tgt, exclusions), count);
  }

  /**
   The record at index `i` is the record for the name at the same position in
   its group's sorted names: the blocks follow one another, source-only first.
   */
  lemma ReconcileAt(src: seq<string>, tgt: seq<string>, exclusions: seq<string>, count: Counter, i: nat)
    requires i < |Reconcile(src, tgt, exclusions, count)|
    ensures var g := GroupAt(i, src, tgt, exclusions);
      && Offset(g, src, tgt, exclusions) <= i < Offset(g, src, tgt, exclusions) + |SortedGroup(g, src, tgt, exclusions)|
      && Reconcile(src, tgt, exclusions, count)[i]
         == RowFor(SortedGroup(g, src, tgt, exclusions)[i - Offset(g, src, tgt, exclusions)], g, count)
  {
    LayoutAt(SortedGroup(SourceOnly, src, tgt, exclusions), SortedGroup(TargetOnly, src, tgt, exclusions),
             SortedGroup(Common, src, tgt, exclusions), count);
  }

  /** The `k`-th name of group `g` has its record at index `Offset(g) + k`. */
  lemma RecordOfName(src: seq<string>, tgt: seq<string>, exclusions: seq<string>, count: Counter, g: Group, k: nat)
    requires k < |SortedGroup(g, src, tgt, exclusions)|
    ensures Offset(g, src, tgt, exclusions) + k < |Reconcile(src, tgt, exclusions, count)|
    ensures Reconcile(src, tgt, exclusions, count)[Offset(g, src, tgt, exclusions) + k]
            == RowFor(SortedGroup(g, src, tgt, exclusions)[k], g, count)
  {
    ReconcileLength(src, tgt, exclusions, count);
    ReconcileAt(src, tgt, exclusions, count, Offset(g, src, tgt, exclusions) + k);
  }

  /** The record at index `i` names a member of its group, and its status is that group's. */
  lemma RecordInGroup(src: seq<string>, tgt: seq<string>, exclusions: seq<string>, count: Counter, i: nat)
    requires i < |Reconcile(src, tgt, exclusions, count)|
    ensures var r := Reconcile(src, tgt, exclusions, count)[i];
      && GroupOf(r.status) == GroupAt(i, src, tgt, exclusions)
      && r.table in GroupNames(GroupOf(r.status), src, tgt, exclusions)
      && r == RowFor(r.table, GroupOf(r.status), count)
  {
    ReconcileAt(src, tgt, exclusions, count, i);
    var g := GroupAt(i, src, tgt, exclusions);
    var k := i - Offset(g, src, tgt, exclusions);
    SortSpec(GroupNames(g, src, tgt, exclusions));
    assert SortedGroup(g, src, tgt, exclusions)[k] in SortedGroup(g, src, tgt, exclusions);
  }

  // ---------------------------------------------------------------------------
  // What the records are
  // ---------------------------------------------------------------------------

  /**
   Exactly one record per name in (source ∪ target) − exclusions: every
   record names a reported table, every reported table has a record, no
   table has two, and so there are as many records as reported names.
   Names listed twice in an input list still get one record.
   */
  lemma OneRecordPerName(src: seq<string>, tgt: seq<string>, exclusions: seq<string>, count: Counter)
    ensures var rows := Reconcile(src, tgt, exclusions, count);
      && (forall r :: r in rows ==> r.table in Reported(src, tgt, exclusions))
      && (forall t :: t in Reported(src, tgt, exclusions) ==> exists r :: r in rows && r.table == t)
      && (forall i, j :: 0 <= i < j < |rows| ==> rows[i].table != rows[j].table)
      && |rows| == |Reported(src, tgt, exclusions)|
  {
    var rows := Reconcile(src, tgt, exclusions, count);
    GroupsPartitionReported(src, tgt, exclusions);
    ReconcileLength(src, tgt, exclusions, count);
    forall r | r in rows ensures r.table in Reported(src, tgt, exclusions) {
      var i :| 0 <= i < |rows| && rows[i] == r;
      RecordInGroup(src, tgt, exclusions, count, i);
    }
    forall t | t in Reported(src, tgt, exclusions) ensures exists r :: r in rows && r.table == t {
      if t in GroupNames(SourceOnly, src, tgt, exclusions) {
        NameHasRecord(src, tgt, exclusions, count, SourceOnly, t);
      } else if t in GroupNames(TargetOnly, src, tgt, exclusions) {
        NameHasRecord(src, tgt, exclusions, count, TargetOnly, t);
      } else {
        NameHasRecord(src, tgt, exclusions, count, Common, t);
      }
    }
    forall i, j | 0 <= i < j < |rows| ensures rows[i].table != rows[j].table {
      DistinctTables(src, tgt, exclusions, count, i, j);
    }
    RecordCount(src, tgt, exclusions, count);
  }

  /** Every member of a group has a record. */
  lemma NameHasRecord(src: seq<string>, tgt: seq<string>, exclusions: seq<string>, count: Counter, g: Group, t: string)
    requires t in GroupNames(g, src, tgt, exclusions)
    ensures exists r :: r in Reconcile(src, tgt, exclusions, count) && r.table == t
  {
    var names := SortedGroup(g, src, tgt, exclusions);
    SortSpec(GroupNames(g, src, tgt, exclusions));
    assert t in names;
    var k :| 0 <= k < |names| && names[k] == t;
    RecordOfName(src, tgt, exclusions, count, g, k);
    var i := Offset(g, src, tgt, exclusions) + k;
    assert Reconcile(src, tgt, exclusions, count)[i] in Reconcile(src, tgt, exclusions, count);
  }

  /** As many records as reported names. */
  lemma RecordCount(src: seq<string>, tgt: seq<string>, exclusions: seq<string>, count: Counter)
    ensures |Reconcile(src, tgt, exclusions, count)| == |Reported(src, tgt, exclusions)|
  {
    ReconcileLength(src, tgt, exclusions, count);
    GroupsCard(src, tgt, exclusions);
    SortSpec(GroupNames(SourceOnly, src, tgt, exclusions));
    SortSpec(GroupNames(TargetOnly, src, tgt, exclusions));
    SortSpec(GroupNames(Common, src, tgt, exclusions));
  }

  lemma GroupsCard(src: seq<string>, tgt: seq<string>, exclusions: seq<string>)
    ensures |Reported(src, tgt, exclusions)| == |GroupNames(SourceOnly, src, tgt, exclusions)|
      + |GroupNames(TargetOnly, src, tgt, exclusions)| + |GroupNames(Common, src, tgt, exclusions)|
  {
    GroupsPartitionReported(src, tgt, exclusions);
    var a := GroupNames(SourceOnly, src, tgt, exclusions);
    var b := GroupNames(TargetOnly, src, tgt, exclusions);
    var c := GroupNames(Common, src, tgt, exclusions);
    assert |a + b| == |a| + |b|;
    assert |(a + b) + c| == |a + b| + |c|;
  }

  /** Records at two different indices are for two different tables. */
  lemma DistinctTables(src: seq<string>, tgt: seq<string>, exclusions: seq<string>, count: Counter, i: nat, j: nat)
    requires i < j < |Reconcile(src, tgt, exclusions, count)|
    ensures Reconcile(src, tgt, exclusions, count)[i].table != Reconcile(src, tgt, exclusions, count)[j].table
  {
    RecordInGroup(src, tgt, exclusions, count, i);
    RecordInGroup(src, tgt, exclusions, count, j);
    GroupsPartitionReported(src, tgt, exclusions);
    if GroupAt(i, src, tgt, exclusions) == GroupAt(j, src, tgt, exclusions) {
      ReconcileAt(src, tgt, exclusions, count, i);
      ReconcileAt(src, tgt, exclusions, count, j);
      var g := GroupAt(i, src, tgt, exclusions);
      var off := Offset(g, src, tgt, exclusions);
      SortSpec(GroupNames(g, src, tgt, exclusions));
      IncreasingIsDistinct(SortedGroup(g, src, tgt, exclusions));
      assert SortedGroup(g, src, tgt, exclusions)[i - off] != SortedGroup(g, src, tgt, exclusions)[j - off];
    }
  }

  /** Two records of the same group appear in strictly increasing name order. */
  lemma SortedWithinGroup(src: seq<string>, tgt: seq<string>, exclusions: seq<string>, count: Counter, i: nat, j: nat)
    requires i < j < |Reconcile(src, tgt, exclusions, count)|
    requires GroupAt(i, src, tgt, exclusions) == GroupAt(j, src, tgt, exclusions)
    ensures Less(Reconcile(src, tgt, exclusions, count)[i].table, Reconcile(src, tgt, exclusions, count)[j].table)
  {
    ReconcileAt(src, tgt, exclusions, count, i);
    ReconcileAt(src, tgt, exclusions, count, j);
    var g := GroupAt(i, src, tgt, exclusions);
    var names := SortedGroup(g, src, tgt, exclusions);
    var off := Offset(g, src, tgt, exclusions);
    SortSpec(GroupNames(g, src, tgt, exclusions));
    assert Less(names[i - off], names[j - off]);
  }

  /** No excluded name gets a record, whichever of the two lists held it. */
  lemma ExcludedNeverReported(src: seq<string>, tgt: seq<string>, exclusions: seq<string>, count: Counter)
    ensures forall r, t :: r in Reconcile(src, tgt, exclusions, count) && t in exclusions ==> r.table != t
  {
    OneRecordPerName(src, tgt, exclusions, count);
  }

  /**
   The records come in three blocks in a fixed order (source-only, then
   target-only, then common), and within a block the names strictly increase.
   */
  lemma BlocksInOrder(src: seq<string>, tgt: seq<string>, exclusions: seq<string>, count: Counter)
    ensures var rows := Reconcile(src, tgt, exclusions, count);
      && (forall i, j :: 0 <= i < j < |rows| ==> Rank(GroupOf(rows[i].status)) <= Rank(GroupOf(rows[j].status)))
      && (forall i, j :: 0 <= i < j < |rows| && GroupOf(rows[i].status) == GroupOf(rows[j].status) ==>
            Less(rows[i].table, rows[j].table))
  {
    var rows := Reconcile(src, tgt, exclusions, count);
    forall i, j | 0 <= i < j < |rows|
      ensures Rank(GroupOf(rows[i].status)) <= Rank(GroupOf(rows[j].status))
      ensures GroupOf(rows[i].status) == GroupOf(rows[j].status) ==> Less(rows[i].table, rows[j].table)
    {
      RecordInGroup(src, tgt, exclusions, count, i);
      RecordInGroup(src, tgt, exclusions, count, j);
      if GroupOf(rows[i].status) == GroupOf(rows[j].status) {
        SortedWithinGroup(src, tgt, exclusions, count, i, j);
      }
    }
  }

  /**
   What each record holds. A source-only table is reported "Missing in
   Target" with the source count and "MISSING" for the target; a target-only
   table the other way round; a table both sides have carries both counts and
   is a "Match" exactly when the two count values are equal.
   */
  lemma RecordContents(src: seq<string>, tgt: seq<string>, exclusions: seq<string>, count: Counter)
    ensures forall r :: r in Reconcile(src, tgt, exclusions, count) ==>
      var t := r.table;
      var inSrc := t in Kept(src, exclusions);
      var inTgt := t in Kept(tgt, exclusions);
      && (r.status == MissingInTarget <==> inSrc && !inTgt)
      && (r.status == MissingInSource <==> !inSrc && inTgt)
      && (r.status in {Match, RowCountMismatch} <==> inSrc && inTgt)
      && (r.status == MissingInTarget ==> r.sourceCount == Counted(count(Source, t)) && r.targetCount == Missing)
      && (r.status == MissingInSource ==> r.sourceCount == Missing && r.targetCount == Counted(count(Target, t)))
      && (inSrc && inTgt ==>
            && r.sourceCount == Counted(count(Source, t))
            && r.targetCount == Counted(count(Target, t))
            && (r.status == Match <==> count(Source, t) == count(Target, t)))
  {
    var rows := Reconcile(src, tgt, exclusions, count);
    forall r | r in rows
      ensures var t := r.table;
        var inSrc := t in Kept(src, exclusions);
        var inTgt := t in Kept(tgt, exclusions);
        && (r.status == MissingInTarget <==> inSrc && !inTgt)
        && (r.status == MissingInSource <==> !inSrc && inTgt)
        && (r.status in {Match, RowCountMismatch} <==> inSrc && inTgt)
        && (r.status == MissingInTarget ==> r.sourceCount == Counted(count(Source, t)) && r.targetCount == Missing)
        && (r.status == MissingInSource ==> r.sourceCount == Missing && r.targetCount == Counted(count(Target, t)))
        && (inSrc && inTgt ==>
              && r.sourceCount == Counted(count(Source, t))
              && r.targetCount == Counted(count(Target, t))
              && (r.status == Match <==> count(Source, t) == count(Target, t)))
    {
      var i :| 0 <= i < |rows| && rows[i] == r;
      RecordInGroup(src, tgt, exclusions, count, i);
    }
  }

  /**
   The status follows Python's `==` on the two count values: two "ERROR"
   values are equal, so a table whose count failed on both sides is a
   "Match"; a number against "ERROR" is a "Row Count Mismatch".
   */
  lemma ErrorComparisons(src: seq<string>, tgt: seq<string>, exclusions: seq<string>, count: Counter, t: string)
    requires t in Kept(src, exclusions) && t in Kept(tgt, exclusions)
    ensures exists r :: r in Reconcile(src, tgt, exclusions, count) && r.table == t
    ensures forall r :: r in Reconcile(src, tgt, exclusions, count) && r.table == t ==>
      && (count(Source, t) == CountError && count(Target, t) == CountError ==> r.status == Match)
      && (count(Source, t).Rows? && count(Target, t) == CountError ==> r.status == RowCountMismatch)
      && (count(Source, t) == CountError && count(Target, t).Rows? ==> r.status == RowCountMismatch)
  {
    OneRecordPerName(src, tgt, exclusions, count);
    assert t in Reported(src, tgt, exclusions);
    RecordContents(src, tgt, exclusions, count);
  }

  /**
   A failing count never costs a record: whatever the counters return, the
   same tables are reported in the same order with the same group, and a
   count that was queried and failed shows up as "ERROR" in that side's cell
   of the table's own record.
   */
  lemma CountFailuresKeepEveryRecord(src: seq<string>, tgt: seq<string>, exclusions: seq<string>, count: Counter, other: Counter)
    ensures |Reconcile(src, tgt, exclusions, count)| == |Reconcile(src, tgt, exclusions, other)|
    ensures forall i :: 0 <= i < |Reconcile(src, tgt, exclusions, count)| ==>
      && Reconcile(src, tgt, exclusions, count)[i].table == Reconcile(src, tgt, exclusions, other)[i].table
      && GroupOf(Reconcile(src, tgt, exclusions, count)[i].status) == GroupOf(Reconcile(src, tgt, exclusions, other)[i].status)
    ensures forall r :: (r in Reconcile(src, tgt, exclusions, count) && r.status != MissingInSource
                         && count(Source, r.table) == CountError) ==> r.sourceCount == Counted(CountError)
    ensures forall r :: (r in Reconcile(src, tgt, exclusions, count) && r.status != MissingInTarget
                         && count(Target, r.table) == CountError) ==> r.targetCount == Counted(CountError)
  {
    ReconcileLength(src, tgt, exclusions, count);
    ReconcileLength(src, tgt, exclusions, other);
    forall i | 0 <= i < |Reconcile(src, tgt, exclusions, count)|
      ensures Reconcile(src, tgt, exclusions, count)[i].table == Reconcile(src, tgt, exclusions, other)[i].table
      ensures GroupOf(Reconcile(src, tgt, exclusions, count)[i].status) == GroupOf(Reconcile(src, tgt, exclusions, other)[i].status)
    {
      RecordInGroup(src, tgt, exclusions, count, i);
      RecordInGroup(src, tgt, exclusions, other, i);
      ReconcileAt(src, tgt, exclusions, count, i);
      ReconcileAt(src, tgt, exclusions, other, i);
    }
    RecordContents(src, tgt, exclusions, count);
  }
}
