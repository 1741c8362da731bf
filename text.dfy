/** The Ruby String operations the bulk upload code relies on: `strip`,
    `split(/[\r\n]+/)`, anchored prefix tests and literal substring tests. */
module Text {

  /** White space as Ruby's `strip` and the regular-expression class `\s`
      see it: space, tab, line feed, vertical tab, form feed, carriage return. */
  predicate IsSpace(c: char) {
    c == ' ' || c == '\t' || c == '\n' || c == '\U{B}' || c == '\U{C}' || c == '\r'
  }

  /** What `rstrip` removes from the end of a string: white space and NUL. */
  predicate IsTrailingJunk(c: char) {
    IsSpace(c) || c == '\0'
  }

  /** The characters of the class `[\r\n]`. */
  predicate IsLineBreak(c: char) {
    c == '\r' || c == '\n'
  }

  predicate NoLineBreak(s: string) {
    forall i :: 0 <= i < |s| ==> !IsLineBreak(s[i])
  }

  /** `s =~ /\Aprefix/` for a literal prefix. */
  predicate StartsWith(s: string, prefix: string) {
    |prefix| <= |s| && s[..|prefix|] == prefix
  }

  /** t occurs in s starting at index k. */
  predicate OccursAt(t: string, s: string, k: int) {
    0 <= k && k + |t| <= |s| && s[k..k + |t|] == t
  }

  /** `s =~ /t/` for a literal t. */
  predicate Contains(s: string, t: string) {
    exists k :: 0 <= k <= |s| - |t| && OccursAt(t, s, k)
  }

  /** The end of the run of white space in s that starts at i. */
  function SpaceRunEnd(s: string, i: nat): (j: nat)
    requires i <= |s|
    ensures i <= j <= |s|
    ensures forall m :: i <= m < j ==> IsSpace(s[m])
    ensures j < |s| ==> !IsSpace(s[j])
    decreases |s| - i
  {
    if i < |s| && IsSpace(s[i]) then SpaceRunEnd(s, i + 1) else i
  }

  /** The start of the run of white space and NULs in s that ends at j. */
  function JunkRunStart(s: string, j: nat): (i: nat)
    requires j <= |s|
    ensures i <= j
    ensures forall m :: i <= m < j ==> IsTrailingJunk(s[m])
    ensures i > 0 ==> !IsTrailingJunk(s[i - 1])
  {
    if j > 0 && IsTrailingJunk(s[j - 1]) then JunkRunStart(s, j - 1) else j
  }

  /** `lstrip`: drops the leading white space and nothing else. */
  function TrimStart(s: string): (r: string)
    ensures |r| <= |s| && r == s[|s| - |r|..]
    ensures r == [] || !IsSpace(r[0])
    ensures forall i :: 0 <= i < |s| - |r| ==> IsSpace(s[i])
  {
    s[SpaceRunEnd(s, 0)..]
  }

  /** `rstrip`: drops the trailing white space and NULs and nothing else. */
  function TrimEnd(s: string): (r: string)
    ensures |r| <= |s| && r == s[..|r|]
    ensures r == [] || !IsTrailingJunk(r[|r| - 1])
    ensures forall i :: |r| <= i < |s| ==> IsTrailingJunk(s[i])
  {
    s[..JunkRunStart(s, |s|)]
  }

  /** `strip`: the contiguous part of s left once white space is removed from
      both ends. */
  function Strip(s: string): (r: string)
    ensures |r| <= |s|
    ensures r == [] || (!IsSpace(r[0]) && !IsTrailingJunk(r[|r| - 1]))
  {
    TrimEnd(TrimStart(s))
  }

  /** What strip returns is a contiguous part of its argument. */
  lemma StripInside(s: string)
    ensures Contains(s, Strip(s))
  {
    var t := TrimStart(s);
    var r := TrimEnd(t);
    assert r == s[|s| - |t|..][..|r|] == s[|s| - |t|..|s| - |t| + |r|];
    assert OccursAt(r, s, |s| - |t|);
  }

  /** Stripping a line that holds no line break leaves none. */
  lemma StripNoLineBreak(s: string)
    requires NoLineBreak(s)
    ensures NoLineBreak(Strip(s))
  {
    var t := TrimStart(s);
    assert forall i :: 0 <= i < |t| ==> t[i] == s[|s| - |t| + i];
    var r := TrimEnd(t);
    assert forall i :: 0 <= i < |r| ==> r[i] == t[i];
  }

  /** n spaces. */
  function Blanks(n: nat): (b: string)
    ensures |b| == n && forall i :: 0 <= i < n ==> b[i] == ' '
  {
    seq(n, _ => ' ')
  }

  lemma TrimStartPadded(left: string, s: string)
    requires forall i :: 0 <= i < |left| ==> IsSpace(left[i])
    requires s == [] || !IsSpace(s[0])
    ensures TrimStart(left + s) == s
  {
    var w := left + s;
    assert forall i :: 0 <= i < |left| ==> IsSpace(w[i]);
    assert |left| < |w| ==> !IsSpace(w[|left|]);
    assert SpaceRunEnd(w, 0) == |left|;
  }

  lemma TrimEndPadded(s: string, right: string)
    requires forall i :: 0 <= i < |right| ==> IsSpace(right[i])
    requires s == [] || !IsTrailingJunk(s[|s| - 1])
    ensures TrimEnd(s + right) == s
  {
    var w := s + right;
    assert forall i :: |s| <= i < |w| ==> IsTrailingJunk(w[i]);
    assert |s| > 0 ==> !IsTrailingJunk(w[|s| - 1]);
    assert JunkRunStart(w, |w|) == |s|;
  }

  /** Stripping `left + s + right` with blank padding gives back s. */
  lemma StripPadded(left: string, s: string, right: string)
    requires forall i :: 0 <= i < |left| ==> IsSpace(left[i])
    requires forall i :: 0 <= i < |right| ==> IsSpace(right[i])
    requires s == [] || (!IsSpace(s[0]) && !IsTrailingJunk(s[|s| - 1]))
    ensures Strip(left + s + right) == s
  {
    if s == [] {
      assert left + s + right == (left + right) + [];
      TrimStartPadded(left + right, []);
    } else {
      assert left + s + right == left + (s + right);
      TrimStartPadded(left, s + right);
      TrimEndPadded(s, right);
    }
  }

  /** Index of the first line break in s, or |s| when s has none. */
  function FirstBreak(s: string): (i: nat)
    ensures i <= |s|
    ensures forall j :: 0 <= j < i ==> !IsLineBreak(s[j])
    ensures i < |s| ==> IsLineBreak(s[i])
    decreases |s|
  {
    if s == [] || IsLineBreak(s[0]) then 0 else 1 + FirstBreak(s[1..])
  }

  /** s without its leading run of line breaks. */
  function DropBreaks(s: string): (r: string)
    ensures |r| <= |s| && r == s[|s| - |r|..]
    ensures r == [] || !IsLineBreak(r[0])
    ensures forall i :: 0 <= i < |s| - |r| ==> IsLineBreak(s[i])
    decreases |s|
  {
    if s != [] && IsLineBreak(s[0]) then
      var r := DropBreaks(s[1..]);
      assert forall i :: 0 < i < |s| - |r| ==> s[i] == s[1..][i - 1];
      r
    else s
  }

  /** The pieces between maximal runs of line breaks, empty pieces included:
      only the first and the last piece can be empty. */
  function Fields(s: string): (r: seq<string>)
    ensures |r| >= 1
    ensures forall i :: 0 <= i < |r| ==> NoLineBreak(r[i])
    ensures forall i :: 0 < i < |r| - 1 ==> r[i] != []
    ensures s != [] && !IsLineBreak(s[0]) ==> r[0] != []
    decreases |s|
  {
    var i := FirstBreak(s);
    if i == |s| then [s]
    else
      var rest := DropBreaks(s[i..]);
      var tail := Fields(rest);
      var r := [s[..i]] + tail;
      assert forall k :: 0 < k < |r| ==> r[k] == tail[k - 1];
      r
  }

  /** The list without its trailing empty strings. */
  function DropTrailingEmpty(ls: seq<string>): (r: seq<string>)
    ensures |r| <= |ls| && r == ls[..|r|]
    ensures r == [] || r[|r| - 1] != []
    ensures forall i :: |r| <= i < |ls| ==> ls[i] == []
    decreases |ls|
  {
    if ls != [] && ls[|ls| - 1] == [] then DropTrailingEmpty(ls[..|ls| - 1]) else ls
  }

  /** `s.split(/[\r\n]+/)`: the lines of s. Runs of line breaks separate
      lines, so no line is empty except a first one when s begins with a
      break, and trailing empty lines are dropped. */
  function SplitLines(s: string): (r: seq<string>)
    ensures forall i :: 0 <= i < |r| ==> NoLineBreak(r[i])
    ensures forall i :: 0 < i < |r| ==> r[i] != []
    ensures |r| > 0 && r[0] == [] ==> |s| > 0 && IsLineBreak(s[0])
  {
    DropTrailingEmpty(Fields(s))
  }

  /** `ls.join("\n")`. */
  function JoinLines(ls: seq<string>): string
    decreases |ls|
  {
    if ls == [] then []
    else if |ls| == 1 then ls[0]
    else ls[0] + "\n" + JoinLines(ls[1..])
  }

  lemma {:induction false} JoinLinesHead(ls: seq<string>)
    requires |ls| > 0 && ls[0] != []
    ensures JoinLines(ls) != [] && JoinLines(ls)[0] == ls[0][0]
  {
  }

  lemma FirstBreakNone(s: string)
    requires NoLineBreak(s)
    ensures FirstBreak(s) == |s|
  {
  }

  /** A line followed by one line break and a line that does not begin with
      a break splits off as the first field. */
  lemma FieldsCons(a: string, j: string)
    requires NoLineBreak(a)
    requires j != [] && !IsLineBreak(j[0])
    ensures Fields(a + "\n" + j) == [a] + Fields(j)
  {
    BreakAfterLine(a, j);
    LineSlices(a, j);
    DropOneBreak(j);
    FieldsAtBreak(a + "\n" + j);
  }

  /** Fields splits at the first break, when there is one. */
  lemma FieldsAtBreak(s: string)
    requires FirstBreak(s) < |s|
    ensures Fields(s) == [s[..FirstBreak(s)]] + Fields(DropBreaks(s[FirstBreak(s)..]))
  {
  }

  lemma LineSlices(a: string, j: string)
    ensures (a + "\n" + j)[..|a|] == a
    ensures (a + "\n" + j)[|a|..] == "\n" + j
  {
  }

  lemma BreakAfterLine(a: string, j: string)
    requires NoLineBreak(a)
    ensures FirstBreak(a + "\n" + j) == |a|
  {
    var s := a + "\n" + j;
    assert forall k :: 0 <= k < |a| ==> s[k] == a[k];
    assert s[|a|] == '\n';
  }

  lemma DropOneBreak(j: string)
    requires j != [] && !IsLineBreak(j[0])
    ensures DropBreaks("\n" + j) == j
  {
    var t := "\n" + j;
    assert t[1..] == j;
    assert DropBreaks(j) == j;
  }

  lemma {:induction false} FieldsJoinLines(ls: seq<string>)
    requires |ls| > 0
    requires forall i :: 0 <= i < |ls| ==> ls[i] != [] && NoLineBreak(ls[i])
    ensures Fields(JoinLines(ls)) == ls
    decreases |ls|
  {
    if |ls| == 1 {
      FirstBreakNone(ls[0]);
    } else {
      var tail := ls[1..];
      var j := JoinLines(tail);
      assert JoinLines(ls) == ls[0] + "\n" + j;
      JoinLinesHead(tail);
      FieldsCons(ls[0], j);
      assert forall i :: 0 <= i < |tail| ==> tail[i] == ls[i + 1];
      FieldsJoinLines(tail);
      ConsTail(ls);
    }
  }

  /** Splitting inverts joining: lines that are non-empty and hold no line
      break come back from `join("\n")` followed by `split(/[\r\n]+/)`. */
  lemma {:induction false} SplitJoinLines(ls: seq<string>)
    requires forall i :: 0 <= i < |ls| ==> ls[i] != [] && NoLineBreak(ls[i])
    ensures SplitLines(JoinLines(ls)) == ls
  {
    if ls == [] {
      assert Fields([]) == [[]];
    } else {
      FieldsJoinLines(ls);
    }
  }

  /** Lines joined and ended with one more break: the pieces are the lines
      and one empty piece after the final break. */
  lemma {:induction false} FieldsTerminated(ls: seq<string>)
    requires |ls| > 0
    requires forall i :: 0 <= i < |ls| ==> ls[i] != [] && NoLineBreak(ls[i])
    ensures Fields(JoinLines(ls) + "\n") == ls + [[]]
    decreases |ls|
  {
    if |ls| == 1 {
      FieldsLastLine(ls[0]);
      assert JoinLines(ls) == ls[0];
    } else {
      var tail := ls[1..];
      assert forall i :: 0 <= i < |tail| ==> tail[i] == ls[i + 1];
      FieldsTerminated(tail);
      FieldsTerminatedStep(ls);
      ConsAppend(ls, []);
    }
  }

  lemma ConsTail<T>(s: seq<T>)
    requires s != []
    ensures s == [s[0]] + s[1..]
  {
  }

  lemma ConsAppend<T>(s: seq<T>, x: T)
    requires s != []
    ensures s + [x] == [s[0]] + (s[1..] + [x])
  {
  }

  lemma FieldsTerminatedStep(ls: seq<string>)
    requires |ls| > 1 && NoLineBreak(ls[0]) && ls[1] != [] && NoLineBreak(ls[1])
    ensures Fields(JoinLines(ls) + "\n") == [ls[0]] + Fields(JoinLines(ls[1..]) + "\n")
  {
    var tail := ls[1..];
    var j := JoinLines(tail);
    assert JoinLines(ls) + "\n" == ls[0] + "\n" + (j + "\n");
    JoinLinesHead(tail);
    assert (j + "\n")[0] == j[0] == ls[1][0];
    FieldsCons(ls[0], j + "\n");
  }

  lemma FieldsLastLine(a: string)
    requires NoLineBreak(a)
    ensures Fields(a + "\n") == [a, []]
  {
    BreakAfterLine(a, []);
    LineSlices(a, []);
    assert a + "\n" + [] == a + "\n";
    assert DropBreaks("\n") == [] by {
      assert "\n"[1..] == [];
    }
    FieldsAtBreak(a + "\n");
    assert Fields([]) == [[]];
  }

  lemma SplitEmptyLine()
    ensures SplitLines("\n") == []
  {
    FieldsLastLine([]);
    assert [] + "\n" == "\n";
    var e: seq<string> := [[], []];
    assert e[..1] == [[]];
    assert e[..1][..0] == [];
  }

  /** Splitting inverts joining when every line, the last one included, is
      ended by a line break, as the output of a command-line tool is. */
  lemma SplitJoinLinesTerminated(ls: seq<string>)
    requires forall i :: 0 <= i < |ls| ==> ls[i] != [] && NoLineBreak(ls[i])
    ensures SplitLines(JoinLines(ls) + "\n") == ls
  {
    if ls == [] {
      SplitEmptyLine();
    } else {
      FieldsTerminated(ls);
      DropLastEmpty(ls);
    }
  }

  lemma DropLastEmpty(ls: seq<string>)
    requires ls != [] && ls[|ls| - 1] != []
    ensures DropTrailingEmpty(ls + [[]]) == ls
  {
    assert (ls + [[]])[..|ls|] == ls;
  }
}
