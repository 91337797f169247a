/**
 Worked runs of the comparison on small schemas: what the report holds for
 concrete table lists, counts and exclusion lines.
 */
module Scenarios {
  import opened TableOrder
  import opened Reconciler
  import opened ExclusionInput

  /** The sorted list of a one-name group is that name. */
  lemma SortSingle(a: string)
    ensures Sort({a}) == [a]
  {
    SortUnique({a}, [a]);
  }

  /** The sorted list of a two-name group puts the lesser name first. */
  lemma SortPair(a: string, b: string)
    requires Less(a, b)
    ensures Sort({a, b}) == [a, b]
  {
    SortUnique({a, b}, [a, b]);
  }

  /**
   Source {users, orders, logs} against target {users, orders} with equal
   counts: "logs" comes first as the one source-only table, then the common
   tables "orders" and "users", both matching.
   */
  lemma ScenarioTableMissingInTarget(count: Counter)
    requires count(Source, "users") == Rows(10) && count(Target, "users") == Rows(10)
    requires count(Source, "orders") == Rows(5) && count(Target, "orders") == Rows(5)
    ensures Reconcile(["users", "orders", "logs"], ["users", "orders"], [], count)
         == [Row("logs", Counted(count(Source, "logs")), Missing, MissingInTarget),
             Row("orders", Counted(Rows(5)), Counted(Rows(5)), Match),
             Row("users", Counted(Rows(10)), Counted(Rows(10)), Match)]
  {
    var src := ["users", "orders", "logs"];
    var tgt := ["users", "orders"];
    var none: seq<string> := [];
    assert Kept(src, none) == {"users", "orders", "logs"};
    assert Kept(tgt, none) == {"users", "orders"};
    assert GroupNames(SourceOnly, src, tgt, none) == {"logs"};
    assert GroupNames(TargetOnly, src, tgt, none) == {};
    assert GroupNames(Common, src, tgt, none) == {"orders", "users"};
    SortSingle("logs");
    SortPair("orders", "users");
    LayoutAt(["logs"], [], ["orders", "users"], count);
  }

  /** One common table "t1" counted 100 in the source and 99 in the target: one record, a mismatch. */
  lemma ScenarioCountsDiffer(count: Counter)
    requires count(Source, "t1") == Rows(100) && count(Target, "t1") == Rows(99)
    ensures Reconcile(["t1"], ["t1"], [], count)
         == [Row("t1", Counted(Rows(100)), Counted(Rows(99)), RowCountMismatch)]
  {
    var none: seq<string> := [];
    assert GroupNames(SourceOnly, ["t1"], ["t1"], none) == {};
    assert GroupNames(TargetOnly, ["t1"], ["t1"], none) == {};
    assert GroupNames(Common, ["t1"], ["t1"], none) == {"t1"};
    SortSingle("t1");
    LayoutAt([], [], ["t1"], count);
  }

  /**
   The target's count query for "t1" fails while the source's succeeds: the
   record still appears, carries "ERROR" for the target, and is a mismatch.
   */
  lemma ScenarioTargetCountFails(count: Counter)
    requires count(Source, "t1").Rows? && count(Target, "t1") == CountError
    ensures Reconcile(["t1"], ["t1"], [], count)
         == [Row("t1", Counted(count(Source, "t1")), Counted(CountError), RowCountMismatch)]
  {
    var none: seq<string> := [];
    assert GroupNames(SourceOnly, ["t1"], ["t1"], none) == {};
    assert GroupNames(TargetOnly, ["t1"], ["t1"], none) == {};
    assert GroupNames(Common, ["t1"], ["t1"], none) == {"t1"};
    SortSingle("t1");
    LayoutAt([], [], ["t1"], count);
  }

  /**
   A name typed with a space on each side at the exclusion prompt parses to
   the bare name, e.g. " audit_log " to "audit_log".
   */
  lemma PaddedExclusion(name: string)
    requires name != [] && !IsSpace(name[0]) && !IsSpace(name[|name| - 1]) && ',' !in name
    ensures ParseExclusions(" " + name + " ") == [name]
  {
    var typed := " " + name + " ";
    assert Strip(typed) == name by {
      assert Blank(" ");
      StripPadding(" ", name, " ");
      StripTrimmed(name);
    }
    assert ',' !in typed by {
      assert forall i :: 0 <= i < |typed| ==> typed[i] == ' ' || typed[i] in name;
    }
    assert !Blank(typed) by {
      assert typed[1] == name[0];
    }
    ParseOneName(typed);
  }

  /** Excluding one of two tables both schemas hold leaves the record of the other. */
  lemma ExcludeOneOfTwo(name: string, other: string, count: Counter)
    requires name != other
    ensures Reconcile([name, other], [name, other], [name], count) == [RowFor(other, Common, count)]
  {
    var both := [name, other];
    var excl := [name];
    assert GroupNames(SourceOnly, both, both, excl) == {};
    assert GroupNames(TargetOnly, both, both, excl) == {};
    assert GroupNames(Common, both, both, excl) == {other};
    SortSingle(other);
    LayoutAt([], [], [other], count);
  }

  /**
   Both schemas hold `name` (say "audit_log") and `other` (say "users"), and
   the operator types `name` with surrounding spaces at the exclusion prompt:
   the table is still excluded, and only `other` is reported, as a common table.
   */
  lemma ScenarioExcludedTable(name: string, other: string, count: Counter)
    requires name != [] && !IsSpace(name[0]) && !IsSpace(name[|name| - 1]) && ',' !in name
    requires name != other
    ensures Reconcile([name, other], [name, other], ParseExclusions(" " + name + " "), count)
         == [RowFor(other, Common, count)]
  {
    PaddedExclusion(name);
    ExcludeOneOfTwo(name, other, count);
  }
}
