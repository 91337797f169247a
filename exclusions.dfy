/**
 The exclusion list the operator types at the prompt of `main`: a comma
 separated line, split on ",", each piece stripped of surrounding whitespace,
 blank pieces dropped (`[x.strip() for x in s.split(",") if x.strip()]`).
 */
module ExclusionInput {

  /**
   Python's `str.isspace` for one character, which picks the characters
   `str.strip()` removes: U+0009..U+000D, U+001C..U+0020 (the space
   included), U+0085, U+00A0, U+1680, U+2000..U+200A, U+2028, U+2029,
   U+202F, U+205F and U+3000.
   */
  predicate IsSpace(c: char)
  {
    var n := c as int;
    || (0x09 <= n <= 0x0D) || (0x1C <= n <= 0x20) || n == 0x85 || n == 0xA0 || n == 0x1680
    || (0x2000 <= n <= 0x200A) || n == 0x2028 || n == 0x2029 || n == 0x202F || n == 0x205F || n == 0x3000
  }

  /** Every character of `s` is whitespace (true of the empty string). */
  ghost predicate Blank(s: string)
  {
    forall i :: 0 <= i < |s| ==> IsSpace(s[i])
  }

  /** `s.lstrip()`: the suffix left after dropping leading whitespace. */
  function StripLeft(s: string): (r: string)
    ensures |r| <= |s|
    ensures r == [] || !IsSpace(r[0])
    decreases |s|
  {
    if |s| > 0 && IsSpace(s[0]) then StripLeft(s[1..]) else s
  }

  /** What `lstrip` leaves is a suffix of its input. */
  lemma {:induction false} StripLeftSuffix(s: string)
    ensures StripLeft(s) == s[|s| - |StripLeft(s)|..]
    decreases |s|
  {
    if |s| > 0 && IsSpace(s[0]) {
      StripLeftSuffix(s[1..]);
    }
  }

  /** What `lstrip` drops is all whitespace. */
  lemma {:induction false} StripLeftDropsBlank(s: string)
    ensures Blank(s[..|s| - |StripLeft(s)|])
    decreases |s|
  {
    if |s| > 0 && IsSpace(s[0]) {
      StripLeftDropsBlank(s[1..]);
      var k := |s| - |StripLeft(s)|;
      assert forall i :: 0 < i < k ==> s[i] == s[1..][i - 1];
    }
  }

  /** `s.rstrip()`: the prefix left after dropping trailing whitespace. */
  function StripRight(s: string): (r: string)
    ensures |r| <= |s|
    ensures r == [] || !IsSpace(r[|r| - 1])
    decreases |s|
  {
    if |s| > 0 && IsSpace(s[|s| - 1]) then StripRight(s[..|s| - 1]) else s
  }

  /** What `rstrip` leaves is a prefix of its input. */
  lemma {:induction false} StripRightPrefix(s: string)
    ensures StripRight(s) == s[..|StripRight(s)|]
    decreases |s|
  {
    if |s| > 0 && IsSpace(s[|s| - 1]) {
      StripRightPrefix(s[..|s| - 1]);
    }
  }

  /** What `rstrip` drops is all whitespace. */
  lemma {:induction false} StripRightDropsBlank(s: string)
    ensures Blank(s[|StripRight(s)|..])
    decreases |s|
  {
    if |s| > 0 && IsSpace(s[|s| - 1]) {
      StripRightDropsBlank(s[..|s| - 1]);
      var k := |StripRight(s)|;
      assert forall i :: k <= i < |s| - 1 ==> s[i] == s[..|s| - 1][i];
    }
  }

  /**
   `s.strip()`: the stretch of `s` between its leading and trailing
   whitespace; empty, or starting and ending with a character that is not
   whitespace.
   */
  function Strip(s: string): (r: string)
    ensures |r| <= |s|
    ensures r == [] || (!IsSpace(r[0]) && !IsSpace(r[|r| - 1]))
  {
    var left := StripLeft(s);
    StripRightPrefix(left);
    StripRight(left)
  }

  /** `s.strip()` is empty exactly when `s` is all whitespace. */
  lemma StripEmptyIffBlank(s: string)
    ensures Strip(s) == [] <==> Blank(s)
  {
    var left := StripLeft(s);
    if Strip(s) == [] {
      StripLeftSuffix(s);
      StripLeftDropsBlank(s);
      StripRightDropsBlank(left);
      assert s == s[..|s| - |left|] + left;
      assert left == left[..0] + left[0..];
    } else if Blank(s) {
      StripLeftBlank(s);
    }
  }

  /** Stripping only removes characters: one that `s` lacks, `Strip(s)` lacks too. */
  lemma StripAvoids(s: string, c: char)
    requires c !in s
    ensures c !in Strip(s)
  {
    var left := StripLeft(s);
    StripLeftSuffix(s);
    StripRightPrefix(left);
    assert forall x :: x in Strip(s) ==> x in left;
  }

  /** Stripping a string that neither starts nor ends with whitespace changes nothing. */
  lemma StripTrimmed(s: string)
    requires s == [] || (!IsSpace(s[0]) && !IsSpace(s[|s| - 1]))
    ensures Strip(s) == s
  {
  }

  /** Whitespace added on either side of a string is stripped away again. */
  lemma {:induction false} StripPadding(pre: string, s: string, post: string)
    requires Blank(pre) && Blank(post)
    ensures Strip(pre + s + post) == Strip(s)
  {
    var t := s + post;
    assert StripLeft(pre + s + post) == StripLeft(t) by {
      assert pre + s + post == pre + t;
      StripLeftPadding(pre, t);
    }
    StripLeftThenRight(s, post);
  }

  lemma {:induction false} StripLeftPadding(pre: string, s: string)
    requires Blank(pre)
    ensures StripLeft(pre + s) == StripLeft(s)
    decreases |pre|
  {
    if pre != [] {
      assert (pre + s)[0] == pre[0] && IsSpace(pre[0]);
      assert (pre + s)[1..] == pre[1..] + s;
      assert Blank(pre[1..]) by {
        assert forall i :: 0 <= i < |pre[1..]| ==> pre[1..][i] == pre[i + 1];
      }
      StripLeftPadding(pre[1..], s);
    } else {
      assert pre + s == s;
    }
  }

  lemma {:induction false} StripRightPadding(s: string, post: string)
    requires Blank(post)
    ensures StripRight(s + post) == StripRight(s)
    decreases |post|
  {
    if post != [] {
      var shorter := post[..|post| - 1];
      assert (s + post)[|s + post| - 1] == post[|post| - 1] && IsSpace(post[|post| - 1]);
      assert (s + post)[..|s + post| - 1] == s + shorter;
      assert Blank(shorter) by {
        assert forall i :: 0 <= i < |shorter| ==> shorter[i] == post[i];
      }
      StripRightPadding(s, shorter);
    } else {
      assert s + post == s;
    }
  }

  /** Trailing whitespace does not change what `lstrip` then `rstrip` leaves. */
  lemma {:induction false} StripLeftThenRight(s: string, post: string)
    requires Blank(post)
    ensures StripRight(StripLeft(s + post)) == StripRight(StripLeft(s))
    decreases |s|
  {
    if |s| > 0 && IsSpace(s[0]) {
      assert (s + post)[1..] == s[1..] + post;
      StripLeftThenRight(s[1..], post);
    } else if |s| > 0 {
      StripRightPadding(s, post);
    } else {
      assert s + post == post;
      StripLeftBlank(post);
    }
  }

  lemma {:induction false} StripLeftBlank(s: string)
    requires Blank(s)
    ensures StripLeft(s) == []
    decreases |s|
  {
    if s != [] {
      StripLeftBlank(s[1..]);
    }
  }

  /**
   Python's `s.split(sep)` with an explicit separator: the pieces between
   separators, in order; there is always at least one piece and none holds
   the separator.
   */
  function Split(s: string, sep: char): (parts: seq<string>)
    ensures |parts| >= 1
    ensures forall p :: p in parts ==> sep !in p
    decreases |s|
  {
    if |s| == 0 then [""]
    else
      var rest := Split(s[1..], sep);
      if s[0] == sep then [""] + rest
      else [[s[0]] + rest[0]] + rest[1..]
  }

  /** Python's `sep.join(parts)`. */
  function Join(parts: seq<string>, sep: char): string
    decreases |parts|
  {
    if |parts| == 0 then ""
    else if |parts| == 1 then parts[0]
    else parts[0] + [sep] + Join(parts[1..], sep)
  }

  /** Joining the pieces with the separator gives back the input. */
  lemma {:induction false} JoinSplit(s: string, sep: char)
    ensures Join(Split(s, sep), sep) == s
    decreases |s|
  {
    if |s| > 0 {
      var rest := Split(s[1..], sep);
      JoinSplit(s[1..], sep);
      if s[0] == sep {
        assert Split(s, sep)[1..] == rest;
      } else {
        var parts := Split(s, sep);
        assert parts[0] == [s[0]] + rest[0];
        assert parts[1..] == rest[1..];
        if |rest| > 1 {
          assert Join(rest, sep) == rest[0] + [sep] + Join(rest[1..], sep);
        }
        assert s == [s[0]] + s[1..];
      }
    }
  }

  /** A string without the separator is one piece. */
  lemma {:induction false} SplitWithoutSeparator(s: string, sep: char)
    requires sep !in s
    ensures Split(s, sep) == [s]
    decreases |s|
  {
    if |s| > 0 {
      SplitWithoutSeparator(s[1..], sep);
      assert s == [s[0]] + s[1..];
    }
  }

  /** Splitting at a separator splits the two sides independently. */
  lemma {:induction false} SplitAtSeparator(a: string, b: string, sep: char)
    ensures Split(a + [sep] + b, sep) == Split(a, sep) + Split(b, sep)
    decreases |a|
  {
    if |a| == 0 {
      assert a + [sep] + b == [sep] + b;
      assert ([sep] + b)[1..] == b;
    } else {
      var whole := a + [sep] + b;
      assert whole[0] == a[0];
      assert whole[1..] == a[1..] + [sep] + b;
      SplitAtSeparator(a[1..], b, sep);
    }
  }

  /** Splitting the joined pieces gives back the pieces, when none holds the separator. */
  lemma {:induction false} SplitJoin(parts: seq<string>, sep: char)
    requires |parts| >= 1
    requires forall p :: p in parts ==> sep !in p
    ensures Split(Join(parts, sep), sep) == parts
    decreases |parts|
  {
    SplitWithoutSeparator(parts[0], sep);
    if |parts| > 1 {
      assert forall p :: p in parts[1..] ==> p in parts;
      SplitJoin(parts[1..], sep);
      SplitAtSeparator(parts[0], Join(parts[1..], sep), sep);
      assert parts == [parts[0]] + parts[1..];
    }
  }

  /** The stripped pieces that are not blank, in their order. */
  function NonBlankStripped(parts: seq<string>): seq<string>
    decreases |parts|
  {
    if parts == [] then []
    else
      var t := Strip(parts[0]);
      (if t != [] then [t] else []) + NonBlankStripped(parts[1..])
  }

  /** A non-empty name that neither starts nor ends with whitespace. */
  predicate IsTrimmedName(n: string)
  {
    n != [] && !IsSpace(n[0]) && !IsSpace(n[|n| - 1])
  }

  /** Every name kept is non-empty and neither starts nor ends with whitespace. */
  lemma {:induction false} NonBlankStrippedTrimmed(parts: seq<string>)
    ensures |NonBlankStripped(parts)| <= |parts|
    ensures forall i :: 0 <= i < |NonBlankStripped(parts)| ==> IsTrimmedName(NonBlankStripped(parts)[i])
    decreases |parts|
  {
    if parts != [] {
      var t := Strip(parts[0]);
      var first := if t != [] then [t] else [];
      var rest := NonBlankStripped(parts[1..]);
      NonBlankStrippedTrimmed(parts[1..]);
      var r := NonBlankStripped(parts);
      assert r == first + rest;
      forall i | 0 <= i < |r| ensures IsTrimmedName(r[i]) {
        if i < |first| {
          assert r[i] == t;
        } else {
          assert r[i] == rest[i - |first|];
        }
      }
    }
  }

  /** A character that no piece holds is in no name kept either. */
  lemma {:induction false} NonBlankStrippedAvoids(parts: seq<string>, c: char)
    requires forall k :: 0 <= k < |parts| ==> c !in parts[k]
    ensures forall i :: 0 <= i < |NonBlankStripped(parts)| ==> c !in NonBlankStripped(parts)[i]
    decreases |parts|
  {
    if parts != [] {
      var t := Strip(parts[0]);
      var first := if t != [] then [t] else [];
      var rest := NonBlankStripped(parts[1..]);
      assert forall k :: 0 <= k < |parts[1..]| ==> c !in parts[1..][k] by {
        assert forall k :: 0 <= k < |parts[1..]| ==> parts[1..][k] == parts[k + 1];
      }
      NonBlankStrippedAvoids(parts[1..], c);
      StripAvoids(parts[0], c);
      var r := NonBlankStripped(parts);
      assert r == first + rest;
      forall i | 0 <= i < |r| ensures c !in r[i] {
        if i < |first| {
          assert r[i] == t;
        } else {
          assert r[i] == rest[i - |first|];
        }
      }
    }
  }

  lemma {:induction false} NonBlankStrippedAppend(xs: seq<string>, ys: seq<string>)
    ensures NonBlankStripped(xs + ys) == NonBlankStripped(xs) + NonBlankStripped(ys)
    decreases |xs|
  {
    if xs != [] {
      var first := if Strip(xs[0]) != [] then [Strip(xs[0])] else [];
      assert (xs + ys)[0] == xs[0];
      assert (xs + ys)[1..] == xs[1..] + ys;
      assert NonBlankStripped(xs + ys) == first + NonBlankStripped(xs[1..] + ys);
      NonBlankStrippedAppend(xs[1..], ys);
      assert NonBlankStripped(xs) == first + NonBlankStripped(xs[1..]);
    } else {
      assert xs + ys == ys;
    }
  }

  /** `[x.strip() for x in input.split(",") if x.strip()]`. */
  function ParseExclusions(input: string): (names: seq<string>)
    ensures forall i :: 0 <= i < |names| ==> IsTrimmedName(names[i]) && ',' !in names[i]
  {
    var parts := Split(input, ',');
    assert forall k :: 0 <= k < |parts| ==> parts[k] in parts;
    NonBlankStrippedTrimmed(parts);
    NonBlankStrippedAvoids(parts, ',');
    NonBlankStripped(parts)
  }

  /**
   Order is kept: the names typed before a comma come first, followed by the
   names typed after it.
   */
  lemma ParseKeepsOrder(before: string, after: string)
    ensures ParseExclusions(before + [','] + after) == ParseExclusions(before) + ParseExclusions(after)
  {
    SplitAtSeparator(before, after, ',');
    NonBlankStrippedAppend(Split(before, ','), Split(after, ','));
  }

  /** A line without a comma holds one name, stripped, unless it is blank. */
  lemma ParseOneName(input: string)
    requires ',' !in input
    ensures ParseExclusions(input) == if Blank(input) then [] else [Strip(input)]
  {
    SplitWithoutSeparator(input, ',');
    StripEmptyIffBlank(input);
    assert [input][1..] == [];
    assert NonBlankStripped([input]) == (if Strip(input) != [] then [Strip(input)] else []) + NonBlankStripped([]);
  }

  /** Nothing but whitespace and commas. */
  ghost predicate OnlySeparators(s: string)
  {
    forall i :: 0 <= i < |s| ==> IsSpace(s[i]) || s[i] == ','
  }

  lemma OnlySeparatorsCons(s: string)
    requires |s| > 0
    ensures OnlySeparators(s) <==> (IsSpace(s[0]) || s[0] == ',') && OnlySeparators(s[1..])
  {
    assert forall i :: 0 < i < |s| ==> s[i] == s[1..][i - 1];
  }

  /** Parsing a line that starts with a character other than a comma. */
  lemma ParseCons(input: string)
    requires |input| > 0 && input[0] != ','
    ensures var rest := Split(input[1..], ',');
      && Split(input, ',') == [[input[0]] + rest[0]] + rest[1..]
      && (ParseExclusions(input) == [] <==> IsSpace(input[0]) && Blank(rest[0]) && NonBlankStripped(rest[1..]) == [])
  {
    var rest := Split(input[1..], ',');
    var parts := Split(input, ',');
    var first := [input[0]] + rest[0];
    assert parts == [first] + rest[1..];
    BlankCons(input[0], rest[0]);
    StripEmptyIffBlank(first);
    assert NonBlankStripped(parts) == (if Strip(first) != [] then [Strip(first)] else []) + NonBlankStripped(rest[1..]);
  }

  lemma BlankCons(c: char, s: string)
    ensures Blank([c] + s) <==> IsSpace(c) && Blank(s)
  {
    var t := [c] + s;
    assert t[0] == c;
    assert forall i :: 0 <= i < |s| ==> t[i + 1] == s[i];
    if IsSpace(c) && Blank(s) {
      forall i | 0 <= i < |t| ensures IsSpace(t[i]) {
        if i > 0 {
          assert t[i] == s[i - 1];
        }
      }
    }
  }

  /** The parsed list is empty exactly when the line holds nothing but whitespace and commas. */
  lemma {:induction false} ParseEmpty(input: string)
    ensures ParseExclusions(input) == [] <==> OnlySeparators(input)
    decreases |input|
  {
    if |input| > 0 {
      var tail := input[1..];
      ParseEmpty(tail);
      OnlySeparatorsCons(input);
      var rest := Split(tail, ',');
      if input[0] == ',' {
        assert Split(input, ',') == [""] + rest;
        NonBlankStrippedAppend([""], rest);
      } else {
        ParseCons(input);
        assert NonBlankStripped(rest) == (if Strip(rest[0]) != [] then [Strip(rest[0])] else []) + NonBlankStripped(rest[1..]);
      }
    }
  }
}
