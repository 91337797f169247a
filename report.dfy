/**
 The one piece of report rendering with logic in it: each record's status
 string, and the CSS class the HTML report derives from it by replacing each
 space with an underscore, which picks the row's colour in the page's
 stylesheet.
 */
module Report {
  import opened Reconciler

  /** The status string a record carries. */
  function StatusLabel(s: Status): string
  {
    match s
    case Match => "Match"
    case RowCountMismatch => "Row Count Mismatch"
    case MissingInSource => "Missing in Source"
    case MissingInTarget => "Missing in Target"
  }

  /** `status.replace(" ", "_")`: a class name with no space in it, as long as the status. */
  function CssClass(status: string): (cls: string)
    ensures |cls| == |status|
    ensures ' ' !in cls
    decreases |status|
  {
    if status == [] then []
    else [if status[0] == ' ' then '_' else status[0]] + CssClass(status[1..])
  }

  /** Every space of the status becomes an underscore, every other character stays. */
  lemma {:induction false} CssClassAt(status: string)
    ensures forall i :: 0 <= i < |status| && status[i] != ' ' ==> CssClass(status)[i] == status[i]
    ensures forall i :: 0 <= i < |status| && status[i] == ' ' ==> CssClass(status)[i] == '_'
    decreases |status|
  {
    if status != [] {
      CssClassAt(status[1..]);
      assert forall i :: 0 < i < |status| ==> CssClass(status)[i] == CssClass(status[1..])[i - 1];
    }
  }

  /** A class name without spaces is its own CSS class. */
  lemma {:induction false} CssClassKeepsSpaceless(s: string)
    requires ' ' !in s
    ensures CssClass(s) == s
    decreases |s|
  {
    if s != [] {
      CssClassKeepsSpaceless(s[1..]);
    }
  }

  /** The class of a concatenation is the concatenation of the classes. */
  lemma {:induction false} CssClassAppend(a: string, b: string)
    ensures CssClass(a + b) == CssClass(a) + CssClass(b)
    decreases |a|
  {
    if a == [] {
      assert a + b == b;
    } else {
      assert (a + b)[0] == a[0];
      assert (a + b)[1..] == a[1..] + b;
      CssClassAppend(a[1..], b);
    }
  }

  /** The class of words separated by single spaces: the same words separated by underscores. */
  lemma CssClassOfWords(w1: string, w2: string, w3: string)
    requires ' ' !in w1 && ' ' !in w2 && ' ' !in w3
    ensures CssClass(w1 + " " + w2 + " " + w3) == w1 + "_" + w2 + "_" + w3
  {
    assert " "[1..] == [];
    assert CssClass(" ") == "_";
    CssClassKeepsSpaceless(w1);
    CssClassKeepsSpaceless(w2);
    CssClassKeepsSpaceless(w3);
    var a := w1 + " ";
    CssClassAppend(w1, " ");
    var b := a + w2;
    CssClassAppend(a, w2);
    var c := b + " ";
    CssClassAppend(b, " ");
    CssClassAppend(c, w3);
  }

  /**
   Each status gets the class its stylesheet rule is written for: green for
   "Match", yellow for "Row_Count_Mismatch", red for the two "Missing_in_…"
   classes.
   */
  lemma CssClassOfStatus(s: Status)
    ensures CssClass(StatusLabel(s)) == match s
      case Match => "Match"
      case RowCountMismatch => "Row_Count_Mismatch"
      case MissingInSource => "Missing_in_Source"
      case MissingInTarget => "Missing_in_Target"
  {
    match s
    case Match => CssClassKeepsSpaceless("Match");
    case RowCountMismatch => CssClassOfRowCountMismatch();
    case MissingInSource => CssClassOfMissingInSource();
    case MissingInTarget => CssClassOfMissingInTarget();
  }

  lemma CssClassOfRowCountMismatch()
    ensures CssClass("Row Count Mismatch") == "Row_Count_Mismatch"
  {
    assert CssClass("Row" + " " + "Count" + " " + "Mismatch") == "Row" + "_" + "Count" + "_" + "Mismatch" by {
      CssClassOfWords("Row", "Count", "Mismatch");
    }
    assert "Row Count Mismatch" == "Row" + " " + "Count" + " " + "Mismatch";
    assert "Row" + "_" + "Count" + "_" + "Mismatch" == "Row_Count_Mismatch";
  }

  lemma CssClassOfMissingInSource()
    ensures CssClass("Missing in Source") == "Missing_in_Source"
  {
    assert CssClass("Missing" + " " + "in" + " " + "Source") == "Missing" + "_" + "in" + "_" + "Source" by {
      CssClassOfWords("Missing", "in", "Source");
    }
    assert "Missing in Source" == "Missing" + " " + "in" + " " + "Source";
    assert "Missing" + "_" + "in" + "_" + "Source" == "Missing_in_Source";
  }

  lemma CssClassOfMissingInTarget()
    ensures CssClass("Missing in Target") == "Missing_in_Target"
  {
    assert CssClass("Missing" + " " + "in" + " " + "Target") == "Missing" + "_" + "in" + "_" + "Target" by {
      CssClassOfWords("Missing", "in", "Target");
    }
    assert "Missing in Target" == "Missing" + " " + "in" + " " + "Target";
    assert "Missing" + "_" + "in" + "_" + "Target" == "Missing_in_Target";
  }

  /** Different statuses have different labels and different classes, so a row's class tells its status; the two Missing classes share one colour rule. */
  lemma CssClassesDistinct(s: Status, t: Status)
    requires s != t
    ensures StatusLabel(s) != StatusLabel(t)
    ensures CssClass(StatusLabel(s)) != CssClass(StatusLabel(t))
  {
    CssClassOfStatus(s);
    CssClassOfStatus(t);
  }
}
