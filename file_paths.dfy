/** The file-system path operations of Ruby's `File`, `Dir` and `FileUtils`
    that the zip handling uses, on paths as strings. The file system itself is
    a set of live paths. */
module FilePaths {
  import opened Text

  /** Index just past the last occurrence of c in s, or 0 when s has none. */
  function AfterLast(s: string, c: char): (k: nat)
    ensures k <= |s|
    ensures k > 0 ==> s[k - 1] == c
    ensures forall j :: k <= j < |s| ==> s[j] != c
    decreases |s|
  {
    if s == [] then 0 else if s[|s| - 1] == c then |s| else AfterLast(s[..|s| - 1], c)
  }

  lemma {:induction false} AfterLastOf(x: string, c: char, y: string)
    requires c !in y
    ensures AfterLast(x + [c] + y, c) == |x| + 1
    decreases |y|
  {
    var s := x + [c] + y;
    if y != [] {
      var y' := y[..|y| - 1];
      assert s[|s| - 1] == y[|y| - 1];
      assert s[..|s| - 1] == x + [c] + y';
      AfterLastOf(x, c, y');
    }
  }

  /** `File.basename(p)`: the text after the last '/'. */
  function Basename(p: string): (b: string)
    ensures '/' !in b
    ensures |b| <= |p| && b == p[|p| - |b|..]
    ensures |b| < |p| ==> p[|p| - |b| - 1] == '/'
  {
    p[AfterLast(p, '/')..]
  }

  /** The first index at or after i that does not hold a dot. */
  function SkipDots(p: string, i: nat): (j: nat)
    requires i <= |p|
    ensures i <= j <= |p|
    ensures forall m :: i <= m < j ==> p[m] == '.'
    ensures j < |p| ==> p[j] != '.'
    decreases |p| - i
  {
    if i < |p| && p[i] == '.' then SkipDots(p, i + 1) else i
  }

  /** `File.extname(p).sub(/^\./, '')`: the text after the last dot of the
      base name, where the dots a base name begins with (a hidden file) do
      not count; empty when there is no such dot. */
  function Extension(p: string): (e: string)
    ensures forall i :: 0 <= i < |e| ==> e[i] != '.' && e[i] != '/'
    ensures |e| <= |p| && e == p[|p| - |e|..]
    ensures e != [] ==> |e| < |p| && p[|p| - |e| - 1] == '.'
  {
    var nameStart := SkipDots(p, AfterLast(p, '/'));
    var k := AfterLast(p, '.');
    if k > nameStart then p[k..] else []
  }

  /** The extension of `dir/stem.ext` is ext, whatever dots the stem holds. */
  lemma ExtensionOfFileName(dir: string, stem: string, ext: string)
    requires '/' !in stem && stem != [] && stem[0] != '.'
    requires '/' !in ext && '.' !in ext
    ensures Extension(dir + "/" + stem + "." + ext) == ext
  {
    var p := dir + "/" + stem + "." + ext;
    var a := |dir| + 1;
    var k := |dir| + |stem| + 2;
    assert AfterLast(p, '/') == a by {
      var base := stem + "." + ext;
      assert p == dir + ['/'] + base;
      AfterLastOf(dir, '/', base);
    }
    assert SkipDots(p, a) == a by {
      assert p[a] == stem[0];
    }
    assert AfterLast(p, '.') == k && p[k..] == ext by {
      assert p == (dir + "/" + stem) + ['.'] + ext;
      AfterLastOf(dir + "/" + stem, '.', ext);
    }
  }

  /** A hidden file `dir/.name` whose name has no further dot has no
      extension. */
  lemma HiddenFileHasNoExtension(dir: string, name: string)
    requires '/' !in name && '.' !in name
    ensures Extension(dir + "/." + name) == []
  {
    var p := dir + "/." + name;
    var base := "." + name;
    assert p == dir + ['/'] + base;
    AfterLastOf(dir, '/', base);
    assert p == (dir + "/") + ['.'] + name;
    AfterLastOf(dir + "/", '.', name);
    assert p[|dir| + 1] == '.';
  }

  /** A hidden file `dir/.stem.ext` has the extension ext: only the leading
      dot is skipped. */
  lemma HiddenFileExtension(dir: string, stem: string, ext: string)
    requires '/' !in stem && stem != [] && stem[0] != '.'
    requires '/' !in ext && '.' !in ext
    ensures Extension(dir + "/." + stem + "." + ext) == ext
  {
    var p := dir + "/." + stem + "." + ext;
    var a := |dir| + 1;
    var k := |dir| + |stem| + 3;
    assert AfterLast(p, '/') == a by {
      var base := "." + stem + "." + ext;
      assert p == dir + ['/'] + base;
      AfterLastOf(dir, '/', base);
    }
    assert SkipDots(p, a) == a + 1 by {
      assert p[a] == '.';
      assert p[a + 1] == stem[0];
      assert SkipDots(p, a + 1) == a + 1;
    }
    assert AfterLast(p, '.') == k && p[k..] == ext by {
      assert p == (dir + "/." + stem) + ['.'] + ext;
      AfterLastOf(dir + "/." + stem, '.', ext);
    }
  }

  /** A base name without a dot, such as `Makefile`, has no extension. */
  lemma NoDotNoExtension(p: string)
    requires '.' !in Basename(p)
    ensures Extension(p) == []
  {
  }

  /** `File.join(dir, name)` for a name without a leading separator. */
  function Join(dir: string, name: string): string {
    dir + "/" + name
  }

  predicate IsAbsolute(p: string) {
    p != [] && p[0] == '/'
  }

  /** p is dir itself or lies somewhere beneath it. */
  predicate AtOrBeneath(p: string, dir: string) {
    p == dir || StartsWith(p, dir + "/")
  }

  lemma JoinIsBeneath(dir: string, name: string)
    ensures AtOrBeneath(Join(dir, name), dir)
  {
    assert Join(dir, name)[..|dir + "/"|] == dir + "/";
  }

  /** `File.expand_path(p)` against the working directory cwd: an absolute
      path is kept, the empty path is cwd, anything else is resolved beneath
      cwd. */
  function ExpandPath(cwd: string, p: string): (r: string)
    ensures IsAbsolute(p) ==> r == p
    ensures !IsAbsolute(p) ==> AtOrBeneath(r, cwd)
    ensures IsAbsolute(cwd) ==> IsAbsolute(r)
  {
    if IsAbsolute(p) then p
    else if p == [] then cwd
    else
      JoinIsBeneath(cwd, p);
      Join(cwd, p)
  }

  /** `FileUtils.rmtree(dir)`: the live paths that remain once dir and
      everything beneath it are removed; a missing dir removes nothing. */
  function RemoveTree(live: set<string>, dir: string): (r: set<string>)
    ensures r <= live
    ensures forall p :: p in live ==> (p in r <==> !AtOrBeneath(p, dir))
  {
    set p | p in live && !AtOrBeneath(p, dir)
  }

  /** Removing a tree a second time removes nothing more. */
  lemma RemoveTreeTwice(live: set<string>, dir: string)
    ensures RemoveTree(RemoveTree(live, dir), dir) == RemoveTree(live, dir)
  {
  }

  /** The same removal on a map from paths to what they hold. */
  function RemoveTreeEntries<V>(entries: map<string, V>, dir: string): (r: map<string, V>)
    ensures forall p :: p in r <==> p in entries && !AtOrBeneath(p, dir)
    ensures forall p :: p in r ==> r[p] == entries[p]
  {
    map p | p in entries && !AtOrBeneath(p, dir) :: entries[p]
  }

  /** Whatever lies beneath a sub-directory of dir lies beneath dir. */
  lemma BeneathSubdirectory(p: string, dir: string, name: string)
    requires AtOrBeneath(p, Join(dir, name))
    ensures AtOrBeneath(p, dir)
  {
    var prefix := dir + "/";
    assert Join(dir, name)[..|prefix|] == prefix;
    assert p[..|prefix|] == Join(dir, name)[..|prefix|];
  }
}
