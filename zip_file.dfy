/** `BulkUpload::ZipFile`: an uploaded archive copied into a temporary
    directory, unpacked there on demand, and validated. */
module ZipFiles {
  import opened Wrappers
  import opened Text
  import opened FilePaths
  import opened ZipOutput

  type Bytes = seq<bv8>

  /** The uploaded file: the name the browser sent and where the web server
      left its contents. */
  datatype Upload = Upload(originalFilename: string, tempfile: string)

  /** What one run of `unzip -o -d destination archive` prints and the files
      and directories it writes. */
  datatype UnzipRun = UnzipRun(output: string, files: map<string, Bytes>, dirs: set<string>)

  /** Everything outside the process that the class consults:
      the configured root for temporary directories, the name the next
      `Dir.mktmpdir` picks beneath it, the working directory that relative
      paths expand against, the attachment extension allowlist, and the two
      external programs, each as a function of the archive argument on its
      command line and the bytes stored there (None when nothing is). */
  datatype Env = Env(
    rootDirectory: string,
    tempName: string,
    workingDirectory: string,
    allowlist: set<string>,
    zipinfoClean: (string, Option<Bytes>) -> bool,
    unzip: (string, Option<Bytes>, string) -> UnzipRun)

  /** The errors the three validations add on the `zip_file` attribute. */
  datatype ZipFileError = Blank | NotAZipFile | ContainsInvalidFiles {
    function Message(): string {
      match this
      case Blank => "can't be blank"
      case NotAZipFile => "not a zip file"
      case ContainsInvalidFiles => "contains invalid files"
    }
  }

  /** Each error has its own message, so a list of errors says exactly
      which messages `errors[:zip_file]` holds. */
  lemma MessagesDistinct(a: ZipFileError, b: ZipFileError)
    ensures a.Message() == b.Message() <==> a == b
  {
    if a != b {
      assert a.Message()[0] != b.Message()[0] || |a.Message()| != |b.Message()|;
    }
  }

  /** The errors left by the three validations, run in their declared
      order: presence, then `must_be_a_zip_file`, then
      `contains_only_whitelisted_file_types`. */
  function ValidationErrors(present: bool, isZip: bool, disallowed: bool): (r: seq<ZipFileError>)
    ensures |r| <= 1
    ensures r == [] <==> present && isZip && !disallowed
    ensures Blank in r <==> !present
    ensures NotAZipFile in r <==> present && !isZip
    ensures ContainsInvalidFiles in r <==> present && isZip && disallowed
  {
    (if !present then [Blank] else [])
    + (if present && !isZip then [NotAZipFile] else [])
    + (if present && isZip && disallowed then [ContainsInvalidFiles] else [])
  }

  /** `contains_disallowed_file_types?`: some path's extension, without its
      dot, is not on the allowlist (compared exactly, so case matters). */
  function HasDisallowedFileType(paths: seq<string>, allowlist: set<string>): (b: bool)
    ensures b <==> exists i :: 0 <= i < |paths| && Extension(paths[i]) !in allowlist
  {
    if paths == [] then false
    else if Extension(paths[0]) !in allowlist then true
    else
      var rest := HasDisallowedFileType(paths[1..], allowlist);
      assert forall i :: 0 < i < |paths| ==> paths[i] == paths[1..][i - 1];
      rest
  }

  /** The files on disk, by path, and the directories. */
  class FileSystem {
    var files: map<string, Bytes>
    var dirs: set<string>

    constructor(files: map<string, Bytes>, dirs: set<string>)
      ensures this.files == files && this.dirs == dirs
    {
      this.files := files;
      this.dirs := dirs;
    }
  }

  class ZipFile {
    const env: Env
    const fs: FileSystem
    /** `@zip_file`: None for `ZipFile.new(nil)`. */
    const zipFile: Option<Upload>
    /** `@temp_dir`, memoised on first use. */
    var tempDir: Option<string>
    /** `@temp_location`. */
    var tempLocation: Option<string>
    /** `@unzip_output`, memoised on first use. */
    var unzipOutput: Option<string>
    /** `@extracted_files_paths`, memoised on first use. */
    var extractedPaths: Option<seq<string>>
    /** `errors[:zip_file]`. */
    var errors: seq<ZipFileError>

    /** The directory `Dir.mktmpdir` creates. */
    function StagingDirectory(): string {
      Join(env.rootDirectory, env.tempName)
    }

    /** Where `store_temporarily` copies the upload. */
    function StagedLocation(u: Upload): string {
      Join(StagingDirectory(), u.originalFilename)
    }

    /** `File.join(temp_dir, 'extracted')`. */
    function Destination(): string {
      Join(StagingDirectory(), "extracted")
    }

    /** `temp_location` as interpolated into a command line: nil becomes
        the empty string. */
    function ArchiveArgument(): string
      reads this`tempLocation
    {
      if tempLocation.Some? then tempLocation.value else ""
    }

    /** The bytes stored at `temp_location`, if any. */
    function Archive(): Option<Bytes>
      reads this`tempLocation, fs
    {
      if tempLocation.Some? && tempLocation.value in fs.files then Some(fs.files[tempLocation.value]) else None
    }

    /** `is_a_zip?`: `zipinfo -1` wrote nothing to standard error. */
    predicate IsAZip()
      reads this`tempLocation, fs
    {
      env.zipinfoClean(ArchiveArgument(), Archive())
    }

    /** The run of unzip that `extract_contents` would start now. */
    function UnzipNow(): UnzipRun
      reads this`tempLocation, fs
    {
      env.unzip(ArchiveArgument(), Archive(), Destination())
    }

    /** The memoised values agree with what they memoise. */
    predicate Consistent()
      reads this`tempDir, this`tempLocation, this`unzipOutput, this`extractedPaths
    {
      (tempDir.Some? ==> tempDir.value == StagingDirectory())
      && (tempLocation.Some? ==> zipFile.Some? && tempDir.Some? && tempLocation.value == StagedLocation(zipFile.value))
      && (unzipOutput.Some? ==> tempDir.Some?)
      && (extractedPaths.Some? ==> unzipOutput.Some? && extractedPaths.value == ParsedPaths(env.workingDirectory, unzipOutput.value))
    }

    /** Consistent, and an upload has been stored. */
    predicate Valid()
      reads this`tempDir, this`tempLocation, this`unzipOutput, this`extractedPaths
    {
      Consistent() && (zipFile.Some? <==> tempLocation.Some?)
    }

    /** The directories once `temp_dir` has run. */
    twostate function DirsWithTempDir(): set<string>
      reads this`tempDir, fs
    {
      if old(tempDir).None? then old(fs.dirs) + {StagingDirectory()} else old(fs.dirs)
    }

    /** The effect of `extract_contents`: the temporary directory exists in
        memory, and unzip has run once, on the archive as stored before the
        call, unless its output was already memoised. */
    twostate predicate Unzipped()
      reads this`tempDir, this`tempLocation, this`unzipOutput, fs
    {
      tempDir == Some(StagingDirectory())
      && unzipOutput.Some?
      && if old(unzipOutput).Some? then
           unzipOutput == old(unzipOutput) && fs.files == old(fs.files) && fs.dirs == DirsWithTempDir()
         else
           var run := old(UnzipNow());
           unzipOutput == Some(run.output) && fs.files == old(fs.files) + run.files
           && fs.dirs == DirsWithTempDir() + run.dirs
    }

    /** The effect of `extracted_file_paths`: nothing at all once memoised,
        otherwise `extract_contents` and the parse of its output. */
    twostate predicate Extracted()
      reads this`tempDir, this`tempLocation, this`unzipOutput, this`extractedPaths, fs
    {
      if old(extractedPaths).Some? then
        extractedPaths == old(extractedPaths) && unzipOutput == old(unzipOutput) && tempDir == old(tempDir)
        && fs.files == old(fs.files) && fs.dirs == old(fs.dirs)
      else
        Unzipped() && extractedPaths == Some(ParsedPaths(env.workingDirectory, unzipOutput.value))
    }

    /** `initialize(zip_file)`: records the upload and stores it. */
    constructor(env: Env, fs: FileSystem, zipFile: Option<Upload>)
      requires zipFile.Some? ==> zipFile.value.tempfile in fs.files
      modifies fs
      ensures this.env == env && this.fs == fs && this.zipFile == zipFile
      ensures Valid()
      ensures unzipOutput == None && extractedPaths == None && errors == []
      ensures zipFile.None? ==> tempDir == None && fs.files == old(fs.files) && fs.dirs == old(fs.dirs)
      ensures zipFile.Some? ==>
        tempDir == Some(StagingDirectory()) && tempLocation == Some(StagedLocation(zipFile.value))
        && fs.dirs == old(fs.dirs) + {StagingDirectory()}
        && fs.files == old(fs.files)[StagedLocation(zipFile.value) := old(fs.files[zipFile.value.tempfile])]
    {
      this.env := env;
      this.fs := fs;
      this.zipFile := zipFile;
      tempDir := None;
      tempLocation := None;
      unzipOutput := None;
      extractedPaths := None;
      errors := [];
      new;
      StoreTemporarily();
    }

    /** `temp_dir`: creates the temporary directory on first use only. */
    method TempDir() returns (d: string)
      requires Consistent()
      modifies this`tempDir, fs`dirs
      ensures Consistent()
      ensures d == StagingDirectory() && tempDir == Some(d)
      ensures fs.dirs == DirsWithTempDir()
    {
      if tempDir.None? {
        tempDir := Some(StagingDirectory());
        fs.dirs := fs.dirs + {StagingDirectory()};
      }
      d := tempDir.value;
    }

    /** `store_temporarily`: copies the upload into the temporary directory
        under its original name; does nothing without an upload. The copy
        needs its source to exist, and a temporary directory already made
        to be still there. */
    method StoreTemporarily()
      requires Consistent()
      requires zipFile.Some? ==> zipFile.value.tempfile in fs.files
      requires zipFile.Some? && tempDir.Some? ==> StagingDirectory() in fs.dirs
      modifies this`tempDir, this`tempLocation, fs
      ensures Valid()
      ensures zipFile.None? ==>
        tempDir == old(tempDir) && tempLocation == old(tempLocation)
        && fs.files == old(fs.files) && fs.dirs == old(fs.dirs)
      ensures zipFile.Some? ==>
        tempDir == Some(StagingDirectory()) && tempLocation == Some(StagedLocation(zipFile.value))
        && fs.dirs == DirsWithTempDir()
        && fs.files == old(fs.files)[StagedLocation(zipFile.value) := old(fs.files[zipFile.value.tempfile])]
    {
      if zipFile.None? {
        return;
      }
      var dir := TempDir();
      var location := Join(dir, zipFile.value.originalFilename);
      tempLocation := Some(location);
      fs.files := fs.files[location := fs.files[zipFile.value.tempfile]];
    }

    /** `extract_contents`: unzips the stored archive into the destination
        on the first call and returns that run's output ever after. */
    method ExtractContents() returns (output: string)
      requires Consistent()
      modifies this`tempDir, this`unzipOutput, fs
      ensures Consistent()
      ensures Unzipped() && output == unzipOutput.value
    {
      var dir := TempDir();
      var destination := Join(dir, "extracted");
      if unzipOutput.None? {
        var run := env.unzip(ArchiveArgument(), Archive(), destination);
        unzipOutput := Some(run.output);
        fs.files := fs.files + run.files;
        fs.dirs := fs.dirs + run.dirs;
      }
      output := unzipOutput.value;
    }

    /** `extracted_file_paths`: the files unzip reports, parsed from its
        output once and memoised. */
    method ExtractedFilePaths() returns (paths: seq<string>)
      requires Consistent()
      modifies this`tempDir, this`unzipOutput, this`extractedPaths, fs
      ensures Consistent()
      ensures Extracted() && extractedPaths == Some(paths)
      ensures paths == ParsedPaths(env.workingDirectory, unzipOutput.value)
    {
      if extractedPaths.None? {
        var output := ExtractContents();
        extractedPaths := Some(ParsedPaths(env.workingDirectory, output));
      }
      paths := extractedPaths.value;
    }

    /** `cleanup_extracted_files`: removes the temporary directory and
        everything beneath it (creating it first if it was never made). */
    method CleanupExtractedFiles()
      requires Consistent()
      modifies this`tempDir, fs
      ensures Consistent() && tempDir == Some(StagingDirectory())
      ensures fs.files == RemoveTreeEntries(old(fs.files), StagingDirectory())
      ensures fs.dirs == RemoveTree(old(fs.dirs), StagingDirectory())
      ensures extractedPaths.Some? ==> forall i :: 0 <= i < |extractedPaths.value| ==>
        AtOrBeneath(extractedPaths.value[i], StagingDirectory()) ==> extractedPaths.value[i] !in fs.files
    {
      var dir := TempDir();
      ghost var before := fs.dirs;
      fs.files := RemoveTreeEntries(fs.files, dir);
      fs.dirs := RemoveTree(fs.dirs, dir);
      assert RemoveTree(before, dir) == RemoveTree(old(fs.dirs), dir);
    }

    /** `validates :zip_file, presence: true`. */
    method ValidatePresence()
      modifies this`errors
      ensures errors == old(errors) + (if zipFile.None? then [Blank] else [])
    {
      if zipFile.None? {
        errors := errors + [Blank];
      }
    }

    /** `must_be_a_zip_file`. */
    method MustBeAZipFile()
      modifies this`errors
      ensures errors == old(errors) + (if zipFile.Some? && !IsAZip() then [NotAZipFile] else [])
    {
      if zipFile.Some? && !env.zipinfoClean(ArchiveArgument(), Archive()) {
        errors := errors + [NotAZipFile];
      }
    }

    /** `contains_disallowed_file_types?`. */
    method ContainsDisallowedFileTypes() returns (b: bool)
      requires Consistent()
      modifies this`tempDir, this`unzipOutput, this`extractedPaths, fs
      ensures Consistent() && Extracted()
      ensures b == HasDisallowedFileType(extractedPaths.value, env.allowlist)
    {
      var paths := ExtractedFilePaths();
      b := HasDisallowedFileType(paths, env.allowlist);
    }

    /** `contains_only_whitelisted_file_types`: looks inside the archive only
        when there is an upload and zipinfo accepts it. */
    method ContainsOnlyAllowedFileTypes()
      requires Consistent()
      modifies this`tempDir, this`unzipOutput, this`extractedPaths, this`errors, fs
      ensures Consistent()
      ensures old(zipFile.Some? && IsAZip()) ==>
        Extracted()
        && errors == old(errors)
           + (if HasDisallowedFileType(extractedPaths.value, env.allowlist) then [ContainsInvalidFiles] else [])
      ensures !old(zipFile.Some? && IsAZip()) ==>
        tempDir == old(tempDir) && unzipOutput == old(unzipOutput) && extractedPaths == old(extractedPaths)
        && errors == old(errors) && fs.files == old(fs.files) && fs.dirs == old(fs.dirs)
    {
      if zipFile.Some? && env.zipinfoClean(ArchiveArgument(), Archive()) {
        var disallowed := ContainsDisallowedFileTypes();
        if disallowed {
          errors := errors + [ContainsInvalidFiles];
        }
      }
    }

    /** `valid?`: clears the errors and runs the three validations. */
    method IsValid() returns (ok: bool)
      requires Consistent()
      modifies this`tempDir, this`unzipOutput, this`extractedPaths, this`errors, fs
      ensures Consistent()
      ensures ok <==> errors == []
      ensures old(zipFile.Some? && IsAZip()) ==>
        Extracted()
        && errors == ValidationErrors(true, true, HasDisallowedFileType(extractedPaths.value, env.allowlist))
      ensures !old(zipFile.Some? && IsAZip()) ==>
        tempDir == old(tempDir) && unzipOutput == old(unzipOutput) && extractedPaths == old(extractedPaths)
        && fs.files == old(fs.files) && fs.dirs == old(fs.dirs)
        && errors == ValidationErrors(zipFile.Some?, old(IsAZip()), false)
    {
      errors := [];
      ValidatePresence();
      MustBeAZipFile();
      ContainsOnlyAllowedFileTypes();
      ok := errors == [];
    }
  }

  /** The files a listing reports lie beneath any directory that holds
      the destination they were reported under. */
  lemma ListedFilesInStaging(rs: seq<Report>, staging: string)
    requires forall i :: 0 <= i < |rs| ==> AtOrBeneath(rs[i].path, Join(staging, "extracted"))
    ensures forall i :: 0 <= i < |ListedFiles(rs)| ==> AtOrBeneath(ListedFiles(rs)[i], staging)
  {
    var files := ListedFiles(rs);
    forall i | 0 <= i < |files|
      ensures AtOrBeneath(files[i], staging)
    {
      var j :| 0 <= j < |rs| && files[i] == rs[j].path && !rs[j].Creating? && !IsResourceFork(rs[j].path);
      BeneathSubdirectory(files[i], staging, "extracted");
    }
  }

  /** When unzip reports only files beneath its destination, every path
      that `extracted_file_paths` returns lies in the temporary directory,
      so `cleanup_extracted_files` removes them all. */
  lemma ExtractedPathsInStaging(cwd: string, archive: string, rs: seq<Report>, staging: string)
    requires NoLineBreak(archive)
    requires forall i :: 0 <= i < |rs| ==> PrintablePath(rs[i].path) && AtOrBeneath(rs[i].path, Join(staging, "extracted"))
    ensures forall i :: 0 <= i < |ExtractedPaths(cwd, Listing(archive, rs))| ==>
      AtOrBeneath(ExtractedPaths(cwd, Listing(archive, rs))[i], staging)
  {
    ParseListing(cwd, archive, rs);
    ListedFilesInStaging(rs, staging);
  }

  /** A path without an underscore cannot hold a resource-fork directory. */
  lemma NoUnderscoreNoFork(p: string)
    requires '_' !in p
    ensures !IsResourceFork(p)
  {
    var t := "/__MACOSX/";
    forall k | 0 <= k <= |p| - |t|
      ensures !OccursAt(t, p, k)
    {
      assert p[k..k + |t|][1] == p[k + 1];
    }
  }

  /** A name without '/' put beneath a directory path free of
      `/__MACOSX/` (the separator after it included) is no resource fork. */
  lemma NoForkBeneath(dir: string, name: string)
    requires !IsResourceFork(dir + "/") && '/' !in name
    ensures !IsResourceFork(Join(dir, name))
  {
    var t := "/__MACOSX/";
    var q := dir + "/";
    var p := q + name;
    assert Join(dir, name) == p;
    forall k | 0 <= k <= |p| - |t|
      ensures !OccursAt(t, p, k)
    {
      if k + |t| <= |q| {
        assert p[k..k + |t|] == q[k..k + |t|];
        assert !OccursAt(t, q, k);
      } else {
        assert p[k + 9] == name[k + 9 - |q|];
        assert p[k..k + |t|][9] == p[k + 9];
      }
    }
  }

  /** A file written directly into dest, as unzip prints it. */
  lemma PrintableInDestination(dest: string, name: string)
    requires IsAbsolute(dest) && NoLineBreak(dest)
    requires NoLineBreak(name) && name != [] && !IsTrailingJunk(name[|name| - 1])
    ensures PrintablePath(Join(dest, name))
  {
    NoLineBreakConcat(dest, "/");
    NoLineBreakConcat(dest + "/", name);
  }

  /** Anything beneath a `__MACOSX` directory is a resource fork. */
  lemma ForkInDestination(dest: string, rest: string)
    ensures IsResourceFork(Join(dest, "__MACOSX/" + rest))
  {
    var f := Join(dest, "__MACOSX/" + rest);
    assert f == dest + "/__MACOSX/" + rest;
    assert f[|dest|..|dest| + 10] == "/__MACOSX/";
    assert OccursAt("/__MACOSX/", f, |dest|);
  }

  lemma ListedTwo(a: string, b: string, m: nat, n: nat)
    requires !IsResourceFork(a) && !IsResourceFork(b)
    ensures ListedFiles([Inflating(a, m), Inflating(b, n)]) == [a, b]
  {
    ListedFilesCons(Inflating(a, m), [Inflating(b, n)]);
    ListedFilesSingle(Inflating(b, n));
    assert [Inflating(a, m), Inflating(b, n)] == [Inflating(a, m)] + [Inflating(b, n)];
  }

  /** The `two-pages-and-greenpaper.zip` fixture: unzip reports the two
      files it inflates, padded with any number of blanks, and both come
      back, in order. */
  lemma TwoFilesExtracted(cwd: string, archive: string, dest: string, m: nat, n: nat)
    requires NoLineBreak(archive)
    requires IsAbsolute(dest) && NoLineBreak(dest) && !IsResourceFork(dest + "/")
    ensures ExtractedPaths(cwd, Listing(archive, [Inflating(Join(dest, "two-pages.pdf"), m), Inflating(Join(dest, "greenpaper.pdf"), n)]))
      == [Join(dest, "two-pages.pdf"), Join(dest, "greenpaper.pdf")]
  {
    var a := Join(dest, "two-pages.pdf");
    var b := Join(dest, "greenpaper.pdf");
    PrintableInDestination(dest, "two-pages.pdf");
    PrintableInDestination(dest, "greenpaper.pdf");
    NoForkBeneath(dest, "two-pages.pdf");
    NoForkBeneath(dest, "greenpaper.pdf");
    ListedTwo(a, b, m, n);
    ParseListing(cwd, archive, [Inflating(a, m), Inflating(b, n)]);
  }

  lemma ListedFileDirFork(a: string, d: string, f: string, m: nat, n: nat)
    requires !IsResourceFork(a) && IsResourceFork(f)
    ensures ListedFiles([Inflating(a, m), Creating(d), Inflating(f, n)]) == [a]
  {
    ListedFilesCons(Inflating(a, m), [Creating(d), Inflating(f, n)]);
    ListedFilesCons(Creating(d), [Inflating(f, n)]);
    ListedFilesSingle(Inflating(f, n));
    assert [Inflating(a, m), Creating(d), Inflating(f, n)] == [Inflating(a, m)] + ([Creating(d)] + [Inflating(f, n)]);
  }

  /** The `greenpaper-with-osx-resource-fork.zip` fixture: the
      `__MACOSX` directory and the fork inside it are dropped and only the
      real file comes back. */
  lemma ResourceForkIgnored(cwd: string, archive: string, dest: string, m: nat, n: nat)
    requires NoLineBreak(archive)
    requires IsAbsolute(dest) && NoLineBreak(dest) && !IsResourceFork(dest + "/")
    ensures ExtractedPaths(cwd, Listing(archive, [
        Inflating(Join(dest, "greenpaper.pdf"), m),
        Creating(Join(dest, "__MACOSX/")),
        Inflating(Join(dest, "__MACOSX/" + "._greenpaper.pdf"), n)]))
      == [Join(dest, "greenpaper.pdf")]
  {
    var a := Join(dest, "greenpaper.pdf");
    var d := Join(dest, "__MACOSX/");
    var f := Join(dest, "__MACOSX/" + "._greenpaper.pdf");
    PrintableInDestination(dest, "greenpaper.pdf");
    PrintableInDestination(dest, "__MACOSX/");
    PrintableInDestination(dest, "__MACOSX/" + "._greenpaper.pdf");
    NoForkBeneath(dest, "greenpaper.pdf");
    ForkInDestination(dest, "._greenpaper.pdf");
    ListedFileDirFork(a, d, f, m, n);
    ParseListing(cwd, archive, [Inflating(a, m), Creating(d), Inflating(f, n)]);
  }
}
