/**
 The order in which the comparison report lists table names: Python's
 ordering of `str` values, which compares code point by code point and puts
 a proper prefix before every longer string, and `sorted` applied to a set of
 names, which yields each name once in that order.
 */
module TableOrder {

  /** Python's `a < b` on strings: lexicographic by code point. */
  predicate Less(a: string, b: string)
    decreases |a|
  {
    if |a| == 0 then |b| > 0
    else if |b| == 0 then false
    else if a[0] == b[0] then Less(a[1..], b[1..])
    else a[0] < b[0]
  }

  lemma {:induction false} LessIrreflexive(a: string)
    ensures !Less(a, a)
    decreases |a|
  {
    if |a| > 0 {
      LessIrreflexive(a[1..]);
    }
  }

  lemma {:induction false} LessAsymmetric(a: string, b: string)
    requires Less(a, b)
    ensures !Less(b, a)
    decreases |a|
  {
    if |a| > 0 && a[0] == b[0] {
      LessAsymmetric(a[1..], b[1..]);
    }
  }

  lemma {:induction false} LessTransitive(a: string, b: string, c: string)
    requires Less(a, b) && Less(b, c)
    ensures Less(a, c)
    decreases |a|
  {
    if |a| > 0 && a[0] == b[0] && b[0] == c[0] {
      LessTransitive(a[1..], b[1..], c[1..]);
    }
  }

  /** Any two different names are ordered one way or the other. */
  lemma {:induction false} LessConnected(a: string, b: string)
    requires a != b
    ensures Less(a, b) || Less(b, a)
    decreases |a|
  {
    if |a| > 0 && |b| > 0 && a[0] == b[0] {
      assert a == [a[0]] + a[1..] && b == [b[0]] + b[1..];
      LessConnected(a[1..], b[1..]);
    }
  }

  /** The four facts above, for all strings at once: `Less` is a strict total order. */
  lemma LessIsStrictTotalOrder()
    ensures forall a :: !Less(a, a)
    ensures forall a, b :: Less(a, b) ==> !Less(b, a)
    ensures forall a, b, c :: Less(a, b) && Less(b, c) ==> Less(a, c)
    ensures forall a, b :: a != b ==> Less(a, b) || Less(b, a)
  {
    forall a: string ensures !Less(a, a) {
      LessIrreflexive(a);
    }
    forall a: string, b: string | Less(a, b) ensures !Less(b, a) {
      LessAsymmetric(a, b);
    }
    forall a: string, b: string, c: string | Less(a, b) && Less(b, c) ensures Less(a, c) {
      LessTransitive(a, b, c);
    }
    forall a: string, b: string | a != b ensures Less(a, b) || Less(b, a) {
      LessConnected(a, b);
    }
  }

  /** `m` comes before every other member of `s`. */
  predicate IsLeast(m: string, s: set<string>)
  {
    m in s && forall x :: x in s && x != m ==> Less(m, x)
  }

  lemma {:induction false} LeastExists(s: set<string>)
    requires s != {}
    ensures exists m :: IsLeast(m, s)
    decreases |s|
  {
    var y :| y in s;
    if s != {y} {
      var rest := s - {y};
      LeastExists(rest);
      var m' :| IsLeast(m', rest);
      LessIsStrictTotalOrder();
      if Less(y, m') {
        assert IsLeast(y, s);
      } else {
        assert IsLeast(m', s);
      }
    } else {
      assert IsLeast(y, s);
    }
  }

  /** The first name `sorted` would produce from `s`. */
  function Least(s: set<string>): (m: string)
    requires s != {}
    ensures m in s
    ensures forall x :: x in s && x != m ==> Less(m, x)
  {
    LeastExists(s);
    LessIsStrictTotalOrder();
    var m :| IsLeast(m, s);
    m
  }

  ghost predicate StrictlyIncreasing(r: seq<string>)
  {
    forall i, j :: 0 <= i < j < |r| ==> Less(r[i], r[j])
  }

  /** Python's `sorted(s)` for a set `s` of names: the least name first, then the rest sorted. */
  function Sort(s: set<string>): seq<string>
    decreases |s|
  {
    if s == {} then []
    else
      var m := Least(s);
      [m] + Sort(s - {m})
  }

  /** `Sort(s)` lists every member of `s` exactly once, in strictly increasing order. */
  lemma {:induction false} SortSpec(s: set<string>)
    ensures StrictlyIncreasing(Sort(s))
    ensures forall x :: x in Sort(s) <==> x in s
    ensures |Sort(s)| == |s|
    decreases |s|
  {
    if s != {} {
      var m := Least(s);
      var rest := Sort(s - {m});
      SortSpec(s - {m});
      assert Sort(s) == [m] + rest;
      assert forall j :: 0 <= j < |rest| ==> rest[j] in rest && rest[j] in s - {m};
      assert forall j :: 0 <= j < |rest| ==> Less(m, rest[j]);
    }
  }

  /** A strictly increasing list holds no name twice. */
  lemma IncreasingIsDistinct(r: seq<string>)
    requires StrictlyIncreasing(r)
    ensures forall i, j :: 0 <= i < j < |r| ==> r[i] != r[j]
  {
    LessIsStrictTotalOrder();
  }

  /**
   `Sort(s)` is the only strictly increasing list that holds exactly the
   members of `s`: it is what `sorted` returns, whatever way it is computed.
   */
  lemma {:induction false} SortUnique(s: set<string>, r: seq<string>)
    requires StrictlyIncreasing(r)
    requires forall x :: x in r <==> x in s
    ensures r == Sort(s)
    decreases |r|
  {
    LessIsStrictTotalOrder();
    if r == [] {
      assert s == {};
    } else {
      assert r[0] in r;
      var m := Least(s);
      forall x | x in s && x != r[0] ensures Less(r[0], x) {
        var j :| 0 <= j < |r| && r[j] == x;
      }
      assert r[0] == m;
      var rest := r[1..];
      forall x ensures x in rest <==> x in s - {m} {
        if x in rest {
          var j :| 0 <= j < |rest| && rest[j] == x;
          assert Less(r[0], r[j + 1]);
        }
        if x in s - {m} {
          var j :| 0 <= j < |r| && r[j] == x;
          assert j != 0;
          assert rest[j - 1] == x;
        }
      }
      SortUnique(s - {m}, rest);
      assert r == [m] + rest;
      assert Sort(s) == [m] + Sort(s - {m});
    }
  }
}
