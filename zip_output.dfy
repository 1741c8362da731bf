/** How `BulkUpload::ZipFile#extracted_file_paths` reads the text that
    `unzip` prints, and which extracted files the extension allowlist
    rejects. */
module ZipOutput {
  import opened Seqs
  import opened Text
  import opened FilePaths

  /** The stripped lines of the tool output: `split(/[\r\n]+/).map(&:strip)`. */
  function OutputLines(output: string): (ls: seq<string>)
    ensures |ls| == |SplitLines(output)|
  {
    StripEach(SplitLines(output))
  }

  /** Every stripped line is free of line breaks, and one that is not empty
      neither begins with white space nor ends with white space or NUL. */
  lemma OutputLinesClean(output: string)
    ensures forall i :: 0 <= i < |OutputLines(output)| ==> NoLineBreak(OutputLines(output)[i])
    ensures forall i :: 0 <= i < |OutputLines(output)| ==>
      (OutputLines(output)[i] == [] ||
       (!IsSpace(OutputLines(output)[i][0]) && !IsTrailingJunk(OutputLines(output)[i][|OutputLines(output)[i]| - 1])))
  {
    var raw := SplitLines(output);
    var out := OutputLines(output);
    forall i | 0 <= i < |out|
      ensures NoLineBreak(out[i])
    {
      StripNoLineBreak(raw[i]);
    }
  }

  /** `line =~ /\A(Archive|creating):/`: the archive header or a directory
      being created. */
  predicate IsLogLine(line: string) {
    StartsWith(line, "Archive:") || StartsWith(line, "creating:")
  }

  /** `line =~ /\/__MACOSX\//`: an entry of the resource-fork folder that
      the archivers of one desktop system add. */
  predicate IsResourceFork(line: string) {
    Contains(line, "/__MACOSX/")
  }

  predicate IsKept(line: string) {
    !IsLogLine(line) && !IsResourceFork(line)
  }

  predicate IsNotLogLine(line: string) {
    !IsLogLine(line)
  }

  predicate IsNotResourceFork(line: string) {
    !IsResourceFork(line)
  }

  /** The two `reject` passes, log lines first, then resource forks. */
  function KeptLines(ls: seq<string>): (r: seq<string>)
    ensures |r| <= |ls|
    ensures forall i :: 0 <= i < |r| ==> IsKept(r[i])
  {
    var r := Filter(Filter(ls, IsNotLogLine), IsNotResourceFork);
    assert forall i :: 0 <= i < |r| ==> !IsLogLine(r[i]) by {
      FilterMembers(Filter(ls, IsNotLogLine), IsNotResourceFork);
    }
    r
  }

  /** The lines kept are exactly those of ls that are neither log lines nor
      resource forks. */
  lemma KeptLinesMembers(ls: seq<string>)
    ensures forall i :: 0 <= i < |KeptLines(ls)| ==> KeptLines(ls)[i] in ls
    ensures forall i :: 0 <= i < |ls| && IsKept(ls[i]) ==> ls[i] in KeptLines(ls)
  {
    var noLogs := Filter(ls, IsNotLogLine);
    FilterMembers(ls, IsNotLogLine);
    FilterMembers(noLogs, IsNotResourceFork);
    assert forall i :: 0 <= i < |ls| && IsKept(ls[i]) ==> ls[i] in noLogs;
  }

  /** line begins with word followed by at least one white-space character. */
  predicate HasToolPrefix(line: string, word: string) {
    StartsWith(line, word) && |line| > |word| && IsSpace(line[|word|])
  }

  /** `gsub(/\A(inflating|extracting):\s+/, '')`: drops one leading
      `inflating:` or `extracting:` together with the white space after it.
      The anchor matches only at the start, so the prefix goes at most once. */
  function StripToolPrefix(line: string): (r: string)
    ensures |r| <= |line| && r == line[|line| - |r|..]
    ensures !HasToolPrefix(line, "inflating:") && !HasToolPrefix(line, "extracting:") ==> r == line
    ensures r != line ==> r == [] || !IsSpace(r[0])
  {
    if HasToolPrefix(line, "inflating:") then TrimStart(line[10..])
    else if HasToolPrefix(line, "extracting:") then TrimStart(line[11..])
    else line
  }

  /** The tool prefix and the white space after it come off, leaving the
      path exactly. */
  lemma StripToolPrefixOf(word: string, gap: string, path: string)
    requires word == "inflating:" || word == "extracting:"
    requires gap != [] && forall i :: 0 <= i < |gap| ==> IsSpace(gap[i])
    requires path == [] || !IsSpace(path[0])
    ensures StripToolPrefix(word + gap + path) == path
  {
    var line := word + gap + path;
    var rest := gap + path;
    assert line == word + rest;
    assert line[..|word|] == word;
    assert line[|word|..] == rest;
    assert line[|word|] == gap[0];
    TrimStartPadded(gap, path);
    if word == "inflating:" {
      assert HasToolPrefix(line, "inflating:");
      assert line[10..] == rest;
    } else {
      assert line[0] == 'e';
      assert !HasToolPrefix(line, "inflating:");
      assert HasToolPrefix(line, "extracting:");
      assert line[11..] == rest;
    }
  }

  /** The paths one list of stripped lines yields. */
  function LinePaths(cwd: string, ls: seq<string>): (ps: seq<string>)
    ensures |ps| <= |ls|
  {
    PathsOf(cwd, KeptLines(ls))
  }

  /** The `gsub` that drops the tool prefix, then `File.expand_path`, over
      each kept line. */
  function PathsOf(cwd: string, kept: seq<string>): (ps: seq<string>)
    ensures |ps| == |kept|
  {
    if kept == [] then [] else [ExpandPath(cwd, StripToolPrefix(kept[0]))] + PathsOf(cwd, kept[1..])
  }

  lemma PathsOfAt(cwd: string, kept: seq<string>, i: nat)
    requires i < |kept|
    ensures PathsOf(cwd, kept)[i] == ExpandPath(cwd, StripToolPrefix(kept[i]))
  {
    var tail := kept[i..];
    assert kept == kept[..i] + tail;
    PathsOfAppend(cwd, kept[..i], tail);
    assert tail[0] == kept[i];
  }

  lemma {:induction false} PathsOfAppend(cwd: string, a: seq<string>, b: seq<string>)
    ensures PathsOf(cwd, a + b) == PathsOf(cwd, a) + PathsOf(cwd, b)
    decreases |a|
  {
    if a != [] {
      assert (a + b)[1..] == a[1..] + b;
      PathsOfAppend(cwd, a[1..], b);
    } else {
      assert a + b == b;
    }
  }

  /** `extracted_file_paths` on the output of `unzip`, with relative paths
      resolved against the working directory cwd. */
  function ExtractedPaths(cwd: string, output: string): (ps: seq<string>)
    ensures |ps| <= |SplitLines(output)|
  {
    LinePaths(cwd, OutputLines(output))
  }

  /** The same parse taken one raw line at a time: strip it, keep it unless
      it is a log line or a resource fork, drop its tool prefix and expand
      it. */
  function ParsedPaths(cwd: string, output: string): (ps: seq<string>)
    ensures |ps| <= |SplitLines(output)|
  {
    ParseLines(cwd, SplitLines(output))
  }

  function ParseLines(cwd: string, raw: seq<string>): (ps: seq<string>)
    ensures |ps| <= |raw|
  {
    if raw == [] then []
    else
      var line := Strip(raw[0]);
      (if IsKept(line) then [ExpandPath(cwd, StripToolPrefix(line))] else []) + ParseLines(cwd, raw[1..])
  }

  /** `map(&:strip)` over a list of raw lines. */
  function StripEach(raw: seq<string>): (ls: seq<string>)
    ensures |ls| == |raw|
    ensures forall i :: 0 <= i < |raw| ==> ls[i] == Strip(raw[i])
  {
    seq(|raw|, i requires 0 <= i < |raw| => Strip(raw[i]))
  }

  lemma StripEachCons(raw: seq<string>)
    requires raw != []
    ensures StripEach(raw) == [Strip(raw[0])] + StripEach(raw[1..])
  {
    var l := StripEach(raw);
    var t := StripEach(raw[1..]);
    forall i | 0 <= i < |t|
      ensures l[i + 1] == t[i]
    {
      assert raw[1..][i] == raw[i + 1];
    }
    ElementwiseCons(l, Strip(raw[0]), t);
  }

  lemma {:induction false} ParseLinesChained(cwd: string, raw: seq<string>)
    ensures ParseLines(cwd, raw) == LinePaths(cwd, StripEach(raw))
    decreases |raw|
  {
    if raw == [] {
      assert StripEach(raw) == [];
      assert Filter([], IsNotLogLine) == [];
      assert Filter([], IsNotResourceFork) == [];
    } else {
      var line := Strip(raw[0]);
      StripEachCons(raw);
      ParseLinesChained(cwd, raw[1..]);
      LinePathsAppend(cwd, [line], StripEach(raw[1..]));
      LinePathsSingle(cwd, line);
    }
  }

  /** Taking the lines one at a time gives what the chained `map`,
      `reject` and `map` passes give. */
  lemma ParsedPathsAreExtracted(cwd: string, output: string)
    ensures ParsedPaths(cwd, output) == ExtractedPaths(cwd, output)
  {
    var raw := SplitLines(output);
    ParseLinesChained(cwd, raw);
    assert OutputLines(output) == StripEach(raw);
  }

  /** Against an absolute working directory every extracted path is
      absolute. */
  lemma ExtractedPathsAbsolute(cwd: string, output: string)
    requires IsAbsolute(cwd)
    ensures forall i :: 0 <= i < |ExtractedPaths(cwd, output)| ==> IsAbsolute(ExtractedPaths(cwd, output)[i])
  {
    var kept := KeptLines(OutputLines(output));
    forall i | 0 <= i < |kept|
      ensures IsAbsolute(PathsOf(cwd, kept)[i])
    {
      PathsOfAt(cwd, kept, i);
    }
  }

  /** Every extracted path comes from a line of the output that is neither a
      log line nor a resource fork, once its tool prefix is gone. */
  lemma ExtractedPathsOrigin(cwd: string, output: string, i: nat)
    requires i < |ExtractedPaths(cwd, output)|
    ensures exists j :: (0 <= j < |OutputLines(output)|
                         && IsKept(OutputLines(output)[j])
                         && ExtractedPaths(cwd, output)[i] == ExpandPath(cwd, StripToolPrefix(OutputLines(output)[j])))
  {
    LinePathsOrigin(cwd, OutputLines(output), i);
  }

  lemma LinePathsOrigin(cwd: string, ls: seq<string>, i: nat)
    requires i < |LinePaths(cwd, ls)|
    ensures exists j :: (0 <= j < |ls| && IsKept(ls[j]) && LinePaths(cwd, ls)[i] == ExpandPath(cwd, StripToolPrefix(ls[j])))
  {
    var kept := KeptLines(ls);
    KeptLinesMembers(ls);
    PathsOfAt(cwd, kept, i);
    assert kept[i] in ls;
    var j :| 0 <= j < |ls| && ls[j] == kept[i];
  }

  /** Every line of the output that is neither a log line nor a resource
      fork yields a path. */
  lemma ExtractedPathsComplete(cwd: string, output: string, j: nat)
    requires j < |OutputLines(output)| && IsKept(OutputLines(output)[j])
    ensures ExpandPath(cwd, StripToolPrefix(OutputLines(output)[j])) in ExtractedPaths(cwd, output)
  {
    LinePathsComplete(cwd, OutputLines(output), j);
  }

  lemma LinePathsComplete(cwd: string, ls: seq<string>, j: nat)
    requires j < |ls| && IsKept(ls[j])
    ensures ExpandPath(cwd, StripToolPrefix(ls[j])) in LinePaths(cwd, ls)
  {
    var kept := KeptLines(ls);
    KeptLinesMembers(ls);
    assert ls[j] in kept;
    var i :| 0 <= i < |kept| && kept[i] == ls[j];
    PathsOfAt(cwd, kept, i);
    assert LinePaths(cwd, ls)[i] == ExpandPath(cwd, StripToolPrefix(ls[j]));
  }

  lemma LinePathsAppend(cwd: string, a: seq<string>, b: seq<string>)
    ensures LinePaths(cwd, a + b) == LinePaths(cwd, a) + LinePaths(cwd, b)
  {
    FilterAppend(a, b, IsNotLogLine);
    FilterAppend(Filter(a, IsNotLogLine), Filter(b, IsNotLogLine), IsNotResourceFork);
    assert KeptLines(a + b) == KeptLines(a) + KeptLines(b);
    PathsOfAppend(cwd, KeptLines(a), KeptLines(b));
  }

  lemma LinePathsSingle(cwd: string, line: string)
    ensures LinePaths(cwd, [line]) == if IsKept(line) then [ExpandPath(cwd, StripToolPrefix(line))] else []
  {
    assert [line][1..] == [];
    var noLogs := Filter([line], IsNotLogLine);
    assert noLogs == if IsLogLine(line) then [] else [line];
    var kept := Filter(noLogs, IsNotResourceFork);
    assert kept == if IsKept(line) then [line] else [];
    assert PathsOf(cwd, kept) == if IsKept(line) then [ExpandPath(cwd, StripToolPrefix(line))] else [];
  }

  // ---- what `unzip -o -d <destination> <archive>` prints ----

  /** One line of the unzip report: a directory created, or a file written
      after decompressing (`inflating:`) or as stored (`extracting:`). */
  datatype Report = Creating(path: string) | Inflating(path: string, pad: nat) | Extracting(path: string, pad: nat)

  /** A report line as printed: the word right-aligned in an 11-column
      field, and after a file name the blanks that pad it to its column
      (any number of them). */
  function ReportLine(r: Report): string {
    match r
    case Creating(p) => "   " + "creating: " + p
    case Inflating(p, n) => "  " + "inflating:" + " " + p + Blanks(n)
    case Extracting(p, n) => " " + "extracting:" + " " + p + Blanks(n)
  }

  /** The whole output: the archive header, then one line per report, each
      line ended by a line feed. */
  function Listing(archive: string, rs: seq<Report>): string {
    JoinLines(ListingLineSeq(archive, rs)) + "\n"
  }

  /** The lines of a listing before they are joined. */
  function ListingLineSeq(archive: string, rs: seq<Report>): (ls: seq<string>)
    ensures |ls| == |rs| + 1 && ls[0] == "Archive:  " + archive
    ensures forall i :: 0 <= i < |rs| ==> ls[i + 1] == ReportLine(rs[i])
  {
    var t := ReportLines(rs);
    var ls := ["Archive:  " + archive] + t;
    assert forall i :: 0 <= i < |rs| ==> ls[i + 1] == t[i];
    ls
  }

  /** The report lines, in order. */
  function ReportLines(rs: seq<Report>): (ls: seq<string>)
    ensures |ls| == |rs|
    ensures forall i :: 0 <= i < |rs| ==> ls[i] == ReportLine(rs[i])
  {
    seq(|rs|, i requires 0 <= i < |rs| => ReportLine(rs[i]))
  }

  lemma ReportLinesCons(rs: seq<Report>)
    requires rs != []
    ensures ReportLines(rs) == [ReportLine(rs[0])] + ReportLines(rs[1..])
  {
    var l := ReportLines(rs);
    var t := ReportLines(rs[1..]);
    forall i | 0 <= i < |t|
      ensures l[i + 1] == t[i]
    {
      assert rs[1..][i] == rs[i + 1];
    }
    ElementwiseCons(l, ReportLine(rs[0]), t);
  }

  /** x is the path of a file that rs reports outside a resource fork. */
  predicate Reported(rs: seq<Report>, x: string) {
    exists j :: 0 <= j < |rs| && x == rs[j].path && !rs[j].Creating? && !IsResourceFork(rs[j].path)
  }

  lemma ReportedInTail(rs: seq<Report>, x: string)
    requires rs != [] && Reported(rs[1..], x)
    ensures Reported(rs, x)
  {
    var rest := rs[1..];
    var j :| 0 <= j < |rest| && x == rest[j].path && !rest[j].Creating? && !IsResourceFork(rest[j].path);
    assert rest[j] == rs[j + 1];
  }

  /** The files a listing reports, resource forks left out: the reference
      result the parser is meant to produce. */
  function ListedFiles(rs: seq<Report>): (r: seq<string>)
    ensures |r| <= |rs|
    ensures forall i :: 0 <= i < |r| ==> Reported(rs, r[i])
  {
    if rs == [] then []
    else
      var head := if !rs[0].Creating? && !IsResourceFork(rs[0].path) then [rs[0].path] else [];
      var tail := ListedFiles(rs[1..]);
      assert forall i :: 0 <= i < |tail| ==> Reported(rs, tail[i]) by {
        forall i | 0 <= i < |tail|
          ensures Reported(rs, tail[i])
        {
          ReportedInTail(rs, tail[i]);
        }
      }
      assert head != [] ==> Reported(rs, head[0]) by {
        if head != [] {
          assert rs[0].path == head[0];
        }
      }
      head + tail
  }

  /** The names the report lemmas below are stated for: absolute, on one
      line, and ending in a character that `strip` keeps. A stored name may
      end in white space or NUL, or hold a line break, and unzip prints it
      as it is; `TrailingBlanksDropped` and `LineBreakSplitsName` show what
      the parser then makes of it. */
  predicate PrintablePath(p: string) {
    IsAbsolute(p) && NoLineBreak(p) && !IsTrailingJunk(p[|p| - 1])
  }

  lemma NoLineBreakConcat(a: string, b: string)
    requires NoLineBreak(a) && NoLineBreak(b)
    ensures NoLineBreak(a + b)
  {
    assert forall i :: |a| <= i < |a + b| ==> (a + b)[i] == b[i - |a|];
  }

  /** A prefix without '/' cannot hide or create a match of "/__MACOSX/". */
  lemma ResourceForkAfterPrefix(prefix: string, p: string)
    requires '/' !in prefix
    ensures IsResourceFork(prefix + p) <==> IsResourceFork(p)
  {
    var t := "/__MACOSX/";
    var s := prefix + p;
    if IsResourceFork(s) {
      var k :| 0 <= k <= |s| - |t| && OccursAt(t, s, k);
      assert s[k] == '/';
      assert k >= |prefix|;
      assert s[k..k + |t|] == p[k - |prefix|..k - |prefix| + |t|];
      assert OccursAt(t, p, k - |prefix|);
    }
    if IsResourceFork(p) {
      var k :| 0 <= k <= |p| - |t| && OccursAt(t, p, k);
      assert s[k + |prefix|..k + |prefix| + |t|] == p[k..k + |t|];
      assert OccursAt(t, s, k + |prefix|);
    }
  }

  lemma StripCreatingLine(p: string)
    requires PrintablePath(p)
    ensures ReportLine(Creating(p)) != [] && NoLineBreak(ReportLine(Creating(p)))
    ensures Strip(ReportLine(Creating(p))) == "creating: " + p
  {
    NoLineBreakConcat("creating: ", p);
    NoLineBreakConcat("   ", "creating: " + p);
    assert ReportLine(Creating(p)) == "   " + ("creating: " + p);
    assert "   " + ("creating: " + p) == "   " + ("creating: " + p) + "";
    StripPadded("   ", "creating: " + p, "");
  }

  lemma CreatingLine(cwd: string, p: string)
    requires PrintablePath(p)
    ensures LinePaths(cwd, [Strip(ReportLine(Creating(p)))]) == []
  {
    StripCreatingLine(p);
    var line := "creating: " + p;
    assert line[..9] == "creating:";
    assert IsLogLine(line);
    LinePathsSingle(cwd, line);
  }

  lemma StripFileLine(word: string, indent: string, p: string, n: nat)
    requires word == "inflating:" || word == "extracting:"
    requires indent == " " || indent == "  "
    requires PrintablePath(p)
    ensures indent + word + " " + p + Blanks(n) != [] && NoLineBreak(indent + word + " " + p + Blanks(n))
    ensures Strip(indent + word + " " + p + Blanks(n)) == word + " " + p
  {
    var pad := Blanks(n);
    NoLineBreakConcat(indent + word + " ", p);
    NoLineBreakConcat(indent + word + " " + p, pad);
    assert indent + word + " " + p + pad == indent + (word + " " + p) + pad;
    StripPadded(indent, word + " " + p, pad);
  }

  lemma KeptFileLine(word: string, p: string)
    requires word == "inflating:" || word == "extracting:"
    requires PrintablePath(p)
    ensures IsKept(word + " " + p) <==> !IsResourceFork(p)
    ensures StripToolPrefix(word + " " + p) == p
  {
    var line := word + " " + p;
    assert !IsLogLine(line) by { assert line[0] == word[0]; }
    assert line == (word + " ") + p;
    ResourceForkAfterPrefix(word + " ", p);
    StripToolPrefixOf(word, " ", p);
  }

  /** A file line, with its indentation and trailing blanks, yields the
      printed path unless that path is a resource fork. */
  lemma FileLine(cwd: string, word: string, indent: string, p: string, n: nat)
    requires word == "inflating:" || word == "extracting:"
    requires indent == " " || indent == "  "
    requires PrintablePath(p)
    ensures LinePaths(cwd, [Strip(indent + word + " " + p + Blanks(n))])
         == if IsResourceFork(p) then [] else [p]
  {
    StripFileLine(word, indent, p, n);
    KeptFileLine(word, p);
    LinePathsSingle(cwd, word + " " + p);
  }

  /** A file whose stored name ends in white space that `strip` removes is
      reported under the name without it: the path extracted is not the
      file unzip wrote. */
  lemma TrailingBlanksDropped(cwd: string, word: string, indent: string, p: string, tail: string, n: nat)
    requires word == "inflating:" || word == "extracting:"
    requires indent == " " || indent == "  "
    requires PrintablePath(p) && !IsResourceFork(p)
    requires tail != [] && NoLineBreak(tail)
    requires forall i :: 0 <= i < |tail| ==> IsSpace(tail[i])
    ensures LinePaths(cwd, [Strip(indent + (word + " " + p + tail) + Blanks(n))]) == [p]
  {
    PaddedName(indent, word + " " + p, tail, n);
    KeptFileLine(word, p);
    LinePathsSingle(cwd, word + " " + p);
  }

  lemma PaddedName(indent: string, line: string, tail: string, n: nat)
    requires forall i :: 0 <= i < |indent| ==> IsSpace(indent[i])
    requires forall i :: 0 <= i < |tail| ==> IsSpace(tail[i])
    requires line != [] && !IsSpace(line[0]) && !IsTrailingJunk(line[|line| - 1])
    ensures Strip(indent + (line + tail) + Blanks(n)) == line
  {
    var pad := tail + Blanks(n);
    assert forall i :: 0 <= i < |pad| ==> IsSpace(pad[i]) by {
      forall i | 0 <= i < |pad| ensures IsSpace(pad[i]) {
        if i >= |tail| { assert pad[i] == Blanks(n)[i - |tail|]; }
      }
    }
    assert indent + (line + tail) + Blanks(n) == indent + line + pad;
    StripPadded(indent, line, pad);
  }

  /** A file whose stored name holds a line feed is reported on two lines:
      the split cuts the name in two, and the second half is a line of its
      own. */
  lemma LineBreakSplitsName(a: string, b: string, n: nat)
    requires a != [] && NoLineBreak(a) && b != [] && NoLineBreak(b)
    ensures SplitLines(ReportLine(Extracting(a + "\n" + b, n)) + "\n") == [" extracting: " + a, b + Blanks(n)]
  {
    var l1 := " extracting: " + a;
    var l2 := b + Blanks(n);
    NoLineBreakConcat(" extracting: ", a);
    NoLineBreakConcat(b, Blanks(n));
    ExtractingLineBroken(a, b, n);
    JoinTwoLines(l1, l2);
    SplitTwoLines(l1, l2);
  }

  lemma ExtractingLineBroken(a: string, b: string, n: nat)
    ensures ReportLine(Extracting(a + "\n" + b, n)) == (" extracting: " + a) + "\n" + (b + Blanks(n))
  {
  }

  lemma JoinTwoLines(l1: string, l2: string)
    ensures JoinLines([l1, l2]) == l1 + "\n" + l2
  {
    assert [l1, l2][1..] == [l2];
  }

  lemma SplitTwoLines(l1: string, l2: string)
    requires l1 != [] && NoLineBreak(l1) && l2 != [] && NoLineBreak(l2)
    ensures SplitLines(JoinLines([l1, l2]) + "\n") == [l1, l2]
  {
    SplitJoinLinesTerminated([l1, l2]);
  }

  lemma ListedFilesCons(r: Report, rs: seq<Report>)
    ensures ListedFiles([r] + rs) == (if !r.Creating? && !IsResourceFork(r.path) then [r.path] else []) + ListedFiles(rs)
  {
    assert ([r] + rs)[1..] == rs;
  }

  lemma ListedFilesSingle(r: Report)
    ensures ListedFiles([r]) == if !r.Creating? && !IsResourceFork(r.path) then [r.path] else []
  {
    assert [r][1..] == [];
  }

  lemma ReportLineShape(cwd: string, r: Report)
    requires PrintablePath(r.path)
    ensures LinePaths(cwd, [Strip(ReportLine(r))]) == ListedFiles([r])
  {
    ListedFilesSingle(r);
    match r
    case Creating(p) =>
      CreatingLine(cwd, p);
    case Inflating(p, n) =>
      FileLine(cwd, "inflating:", "  ", p, n);
    case Extracting(p, n) =>
      FileLine(cwd, "extracting:", " ", p, n);
  }

  /** The report lines once stripped. */
  function StrippedReports(rs: seq<Report>): (ls: seq<string>)
    ensures |ls| == |rs|
  {
    StripEach(ReportLines(rs))
  }

  lemma StrippedReportsCons(rs: seq<Report>)
    requires rs != []
    ensures StrippedReports(rs) == [Strip(ReportLine(rs[0]))] + StrippedReports(rs[1..])
  {
    ReportLinesCons(rs);
    StripEachCons(ReportLines(rs));
    assert ReportLines(rs)[1..] == ReportLines(rs[1..]);
  }

  lemma ParseReportsStep(cwd: string, rs: seq<Report>)
    requires rs != [] && PrintablePath(rs[0].path)
    ensures LinePaths(cwd, StrippedReports(rs)) == ListedFiles([rs[0]]) + LinePaths(cwd, StrippedReports(rs[1..]))
  {
    StrippedReportsCons(rs);
    LinePathsAppend(cwd, [Strip(ReportLine(rs[0]))], StrippedReports(rs[1..]));
    ReportLineShape(cwd, rs[0]);
  }

  lemma {:induction false} ParseReports(cwd: string, rs: seq<Report>)
    requires forall i :: 0 <= i < |rs| ==> PrintablePath(rs[i].path)
    ensures LinePaths(cwd, StrippedReports(rs)) == ListedFiles(rs)
    decreases |rs|
  {
    if rs != [] {
      ParseReportsStep(cwd, rs);
      ParseReports(cwd, rs[1..]);
      ListedFilesCons(rs[0], rs[1..]);
      assert rs == [rs[0]] + rs[1..];
      ListedFilesSingle(rs[0]);
    }
  }

  /** The archive header survives stripping as a log line. */
  lemma HeaderIsLogLine(archive: string)
    ensures IsLogLine(Strip("Archive:  " + archive))
  {
    var h := "Archive:  " + archive;
    var t := TrimStart(h);
    assert t == h;
    var r := TrimEnd(h);
    assert h[7] == ':';
    assert |r| > 7;
    assert r[..8] == h[..8] == "Archive:";
  }

  lemma ReportLineFlat(r: Report)
    requires PrintablePath(r.path)
    ensures ReportLine(r) != [] && NoLineBreak(ReportLine(r))
  {
    match r
    case Creating(p) =>
      StripCreatingLine(p);
    case Inflating(p, n) =>
      StripFileLine("inflating:", "  ", p, n);
    case Extracting(p, n) =>
      StripFileLine("extracting:", " ", p, n);
  }

  /** Every line of a listing is non-empty and free of line breaks. */
  lemma ListingLinesFlat(archive: string, rs: seq<Report>)
    requires NoLineBreak(archive)
    requires forall i :: 0 <= i < |rs| ==> PrintablePath(rs[i].path)
    ensures forall i :: 0 <= i < |ListingLineSeq(archive, rs)| ==>
      ListingLineSeq(archive, rs)[i] != [] && NoLineBreak(ListingLineSeq(archive, rs)[i])
  {
    var lines := ListingLineSeq(archive, rs);
    NoLineBreakConcat("Archive:  ", archive);
    forall i | 0 <= i < |lines|
      ensures lines[i] != [] && NoLineBreak(lines[i])
    {
      if i > 0 {
        ReportLineFlat(rs[i - 1]);
      }
    }
  }

  /** Splitting a listing gives back its lines. */
  lemma ListingSplit(archive: string, rs: seq<Report>)
    requires NoLineBreak(archive)
    requires forall i :: 0 <= i < |rs| ==> PrintablePath(rs[i].path)
    ensures SplitLines(Listing(archive, rs)) == ListingLineSeq(archive, rs)
  {
    var lines := ListingLineSeq(archive, rs);
    ListingLinesFlat(archive, rs);
    SplitJoinLinesTerminated(lines);
  }

  /** The lines of a listing, once split and stripped. */
  lemma ListingLines(archive: string, rs: seq<Report>)
    requires NoLineBreak(archive)
    requires forall i :: 0 <= i < |rs| ==> PrintablePath(rs[i].path)
    ensures OutputLines(Listing(archive, rs)) == [Strip("Archive:  " + archive)] + StrippedReports(rs)
  {
    var lines := ListingLineSeq(archive, rs);
    ListingSplit(archive, rs);
    StripEachCons(lines);
    assert lines[1..] == ReportLines(rs);
  }

  /** A line of any other kind that unzip may print (a zipfile comment, a
      `linking:` line, a warning) is neither a log line nor a resource fork,
      so the parser takes it for a file and expands it like one. */
  lemma OtherLineBecomesPath(cwd: string, line: string)
    requires line != [] && NoLineBreak(line)
    requires !IsSpace(line[0]) && !IsTrailingJunk(line[|line| - 1])
    requires !IsLogLine(line) && !IsResourceFork(line)
    requires !HasToolPrefix(line, "inflating:") && !HasToolPrefix(line, "extracting:")
    ensures ExtractedPaths(cwd, line + "\n") == [ExpandPath(cwd, line)]
  {
    SingleLineOutput(line);
    LinePathsSingle(cwd, line);
  }

  /** A single line already stripped, ended by a line feed, comes out of
      the split and strip as itself. */
  lemma SingleLineOutput(line: string)
    requires line != [] && NoLineBreak(line)
    requires !IsSpace(line[0]) && !IsTrailingJunk(line[|line| - 1])
    ensures OutputLines(line + "\n") == [line]
  {
    SingleLineSplit(line);
    StrippedStays(line);
    var out := StripEach([line]);
    assert |out| == 1 && out[0] == line;
  }

  lemma SingleLineSplit(line: string)
    requires line != [] && NoLineBreak(line)
    ensures SplitLines(line + "\n") == [line]
  {
    SplitJoinLinesTerminated([line]);
    assert JoinLines([line]) == line;
  }

  lemma StrippedStays(line: string)
    requires line != [] && !IsSpace(line[0]) && !IsTrailingJunk(line[|line| - 1])
    ensures Strip(line) == line
  {
    assert [] + line + [] == line;
    StripPadded([], line, []);
  }

  /** The reference result: on a listing whose paths unzip prints absolute,
      the parser yields exactly the files reported, in order, leaving out
      the archive header, the directories created and the resource forks. */
  lemma ParseListing(cwd: string, archive: string, rs: seq<Report>)
    requires NoLineBreak(archive)
    requires forall i :: 0 <= i < |rs| ==> PrintablePath(rs[i].path)
    ensures ExtractedPaths(cwd, Listing(archive, rs)) == ListedFiles(rs)
  {
    var header := Strip("Archive:  " + archive);
    ListingLines(archive, rs);
    HeaderIsLogLine(archive);
    LinePathsSingle(cwd, header);
    LinePathsAppend(cwd, [header], StrippedReports(rs));
    ParseReports(cwd, rs);
  }
}
