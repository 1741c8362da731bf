# Bulk upload of attachments

A Dafny model of `app/models/bulk_upload.rb` from the whitehall publishing
application. The file holds two classes.

- `BulkUpload` takes the files an editor uploads for an edition. Each file
  becomes an attachment: the edition's existing attachment with the same file
  name, or a new one. The batch is validated and then appended to the
  edition's attachments all at once, or not at all.
- `BulkUpload::ZipFile` wraps one uploaded zip archive. It copies the archive
  into a temporary directory and unpacks it there with `unzip` on first use.
  It reads the paths of the unpacked files from unzip's printed report, and
  validates three things: an upload is present, `zipinfo` accepts it, and
  every file inside has an allowed extension.

The model is split into modules:

| module | file | what it holds |
|---|---|---|
| `Wrappers`, `Seqs` | `wrappers.dfy` | `Option` (Ruby's nil) and `Filter` (`select`/`reject`) with its lemmas |
| `Text` | `text.dfy` | `strip`, `split(/[\r\n]+/)`, `join("\n")`, anchored prefix and literal substring tests |
| `FilePaths` | `file_paths.dfy` | `File.basename`, `File.extname`, `File.join`, `File.expand_path`, `FileUtils.rmtree` |
| `ZipOutput` | `zip_output.dfy` | the parser in `extracted_file_paths`, and a model of the report unzip prints, used to prove what the parser returns |
| `ZipFiles` | `zip_file.dfy` | `ZipFile` as a class. Its memoised instance variables are fields, and the file system is a shared `FileSystem` object |
| `BulkUploads` | `bulk_upload.dfy` | attachments, reconciliation against the edition, the commit, and `BulkUpload` and `Edition` as classes |

State that the Ruby code changes in place is kept in classes:

- `ZipFile`'s `@temp_dir`, `@temp_location`, `@unzip_output`,
  `@extracted_files_paths` and `errors[:zip_file]`;
- the files and directories on disk;
- `BulkUpload`'s `@attachments` and `errors[:base]`;
- the edition's attachment collection.

Every `||=` memo works like this: the first call does the work and records
the result, and later calls return the recorded result. A class invariant
(`ZipFile.Consistent`) ties the temporary directory, `temp_location` and
the extracted paths to what they memoise: the directory name, the copy of
the upload, and the parse of the recorded unzip output. Of the unzip output
itself the invariant says only that the temporary directory exists with
it; that it is the output of the run on the stored archive is the
postcondition of the call that records it (`ZipFile.ExtractContents`,
through `Unzipped`). The pure parts are functions: the parsing, matching
files to attachments, and the effect of `edition.attachments << records`.

What lies outside the process is passed in as the `Env` datatype:

- the temporary root directory;
- the name `Dir.mktmpdir` picks;
- the working directory relative paths expand against;
- the extension allowlist;
- the two external programs. `zipinfo` is a predicate on the archive
  argument and the bytes stored there. `unzip` is a function from the
  archive argument, those bytes and the destination to the text it prints
  and the files and directories it writes.

Where the code and the tests differ, the model follows the code:

- The constructor reads `params[:attachments]` as a list (lines 21-32). The
  tests pass Rails' `attachments_attributes` hash instead.
- For a file name the edition already has, `first_or_initialize` returns the
  existing attachment unchanged. The tests expect the new title to be
  applied and a fresh `AttachmentData` to be built (the source does not do
  this in `initialize`).
- `cleanup_extracted_files` calls `temp_dir`. When the temporary directory
  was never made, it is created first and then removed. A second cleanup
  removes nothing more (`RemoveTreeTwice`).

## Model

| member | source | states |
|---|---|---|
| `Text.Strip` | app/models/bulk_upload.rb:93 | the stripped line is no longer than the line, and is empty or begins with a non-blank and ends with something other than white space or NUL |
| `Text.StripInside` | app/models/bulk_upload.rb:93 | strip returns a contiguous part of its argument |
| `Text.StripPadded` | app/models/bulk_upload.rb:93 | stripping blank padding on both sides gives back exactly the text inside |
| `Text.SplitLines` | app/models/bulk_upload.rb:93 | no line holds a line break; only the first line can be empty, and only when the text begins with a break |
| `Text.SplitJoinLines` | app/models/bulk_upload.rb:93 | splitting on runs of `\r`/`\n` inverts `join("\n")` for non-empty lines without breaks |
| `Text.SplitJoinLinesTerminated` | app/models/bulk_upload.rb:93 | the final line feed of a printed report adds no line: splitting `join("\n") + "\n"` gives back the lines |
| `Text.StripNoLineBreak` | app/models/bulk_upload.rb:93 | stripping a line without breaks leaves none |
| `Text.FieldsJoinLines` | app/models/bulk_upload.rb:93 | the pieces between line-break runs of the joined text are the joined lines |
| `FilePaths.Basename` | app/models/bulk_upload.rb:26 | `File.basename` is the suffix after the last `/`, contains no `/`, and is preceded by a `/` when shorter than the path |
| `FilePaths.AfterLastOf` | app/models/bulk_upload.rb:26 | in `x + c + y` with no `c` in y, the last `c` is the one after x |
| `FilePaths.Extension` | app/models/bulk_upload.rb:135 | the extension, without its dot, holds no `.` or `/`, is a suffix of the path, and follows a dot when non-empty |
| `FilePaths.ExtensionOfFileName` | app/models/bulk_upload.rb:135 | the extension of `dir/stem.ext` is `ext`, whatever dots the directory holds |
| `FilePaths.HiddenFileHasNoExtension` | app/models/bulk_upload.rb:135 | a hidden file `dir/.name` has the empty extension, so it is allowed only if the empty string is on the allowlist |
| `FilePaths.HiddenFileExtension` | app/models/bulk_upload.rb:135 | a hidden file with a further dot, `dir/.stem.ext`, has the extension `ext`: only the leading dot is skipped |
| `FilePaths.NoDotNoExtension` | app/models/bulk_upload.rb:135 | a base name without a dot, such as `Makefile`, has the empty extension |
| `FilePaths.JoinIsBeneath` | app/models/bulk_upload.rb:87 | `File.join(dir, name)` lies beneath dir |
| `FilePaths.ExpandPath` | app/models/bulk_upload.rb:98 | an absolute path is kept, a relative one lands at or beneath the working directory, and the result is absolute when the working directory is |
| `FilePaths.RemoveTree` | app/models/bulk_upload.rb:104 | definition of what `rmtree` leaves of the directories; its meaning is stated by `RemoveTreeTwice` and `ZipFile.CleanupExtractedFiles` |
| `FilePaths.RemoveTreeEntries` | app/models/bulk_upload.rb:104 | definition of what `rmtree` leaves of the files; its meaning is stated by `ZipFile.CleanupExtractedFiles`, which proves every extracted path beneath the temporary directory gone |
| `FilePaths.RemoveTreeTwice` | app/models/bulk_upload.rb:104 | removing the same tree twice removes nothing more |
| `FilePaths.BeneathSubdirectory` | app/models/bulk_upload.rb:109 | whatever lies beneath `temp_dir/extracted` lies beneath `temp_dir` |
| `Seqs.Filter` | app/models/bulk_upload.rb:95-96 | `reject` returns no more elements than it was given, and none that it should have dropped |
| `Seqs.FilterMembers` | app/models/bulk_upload.rb:95-96 | every element kept was in the input, and every input element that passes the test is kept |
| `Seqs.FilterAppend` | app/models/bulk_upload.rb:95-96 | filtering distributes over concatenation |
| `ZipOutput.OutputLines` | app/models/bulk_upload.rb:93 | definition of `split(/[\r\n]+/).map(&:strip)`, one stripped line per split line; what its lines look like is stated by `OutputLinesClean`, and what it makes of unzip's report by `ListingLines` |
| `ZipOutput.OutputLinesClean` | app/models/bulk_upload.rb:93 | after `split(/[\r\n]+/).map(&:strip)` no line holds a line break, begins with white space, or ends with white space or NUL |
| `ZipOutput.IsLogLine` | app/models/bulk_upload.rb:95 | definition of the anchored match of `Archive:` or `creating:`; which lines it rejects is stated by `KeptLinesMembers` and `HeaderIsLogLine` |
| `ZipOutput.IsResourceFork` | app/models/bulk_upload.rb:96 | definition of the match of `/__MACOSX/` anywhere in the line; which lines it rejects is stated by `KeptLinesMembers`, `ForkInDestination` and `NoForkBeneath` |
| `ZipOutput.KeptLines` | app/models/bulk_upload.rb:95-96 | the two `reject` passes leave lines that are neither `Archive:`/`creating:` lines nor resource forks |
| `ZipOutput.KeptLinesMembers` | app/models/bulk_upload.rb:95-96 | the kept lines are exactly the input lines that are neither log lines nor resource forks |
| `ZipOutput.StripToolPrefix` | app/models/bulk_upload.rb:97 | the anchored `gsub` removes a suffix-preserving prefix only when the line starts with `inflating:` or `extracting:` and a blank, and leaves no leading blank |
| `ZipOutput.StripToolPrefixOf` | app/models/bulk_upload.rb:97 | `inflating:`/`extracting:` followed by any run of blanks comes off, leaving the path exactly |
| `ZipOutput.PathsOf` | app/models/bulk_upload.rb:97-98 | one expanded path per kept line |
| `ZipOutput.PathsOfAt` | app/models/bulk_upload.rb:97-98 | the i-th path is the i-th kept line without its tool prefix, expanded |
| `ZipOutput.LinePathsAppend` | app/models/bulk_upload.rb:95-98 | each line contributes its path independently of its neighbours |
| `ZipOutput.LinePathsSingle` | app/models/bulk_upload.rb:95-98 | a single line yields its expanded path when kept and nothing otherwise |
| `ZipOutput.ExtractedPaths` | app/models/bulk_upload.rb:91-101 | the parse yields no more paths than the output has lines; what it yields is stated by the lemmas below |
| `ZipOutput.ExtractedPathsAbsolute` | app/models/bulk_upload.rb:98 | against an absolute working directory every extracted path is absolute |
| `ZipOutput.ExtractedPathsOrigin` | app/models/bulk_upload.rb:93-98 | every extracted path comes from a kept output line, prefix removed and expanded |
| `ZipOutput.ExtractedPathsComplete` | app/models/bulk_upload.rb:93-98 | every kept output line yields an extracted path |
| `ZipOutput.ParseLinesChained` | app/models/bulk_upload.rb:93-98 | handling the raw lines one at a time equals the chained `map`/`reject`/`reject`/`map`/`map` |
| `ZipOutput.ParsedPaths` | app/models/bulk_upload.rb:91-101 | definition of the parse `ZipFile` memoises, at most one path per line of output; that it is the chained parse is stated by `ParsedPathsAreExtracted` |
| `ZipOutput.ParsedPathsAreExtracted` | app/models/bulk_upload.rb:91-101 | the line-at-a-time parse that `ZipFile` memoises equals the chained parse |
| `ZipOutput.ResourceForkAfterPrefix` | app/models/bulk_upload.rb:96 | a prefix without `/` neither hides nor creates a `/__MACOSX/` match |
| `ZipOutput.HeaderIsLogLine` | app/models/bulk_upload.rb:95 | unzip's `Archive:` header line is dropped as a log line |
| `ZipOutput.ListingLineSeq` | app/models/bulk_upload.rb:110 | definition of unzip's report: the archive header, then one line per directory or file, a file name followed by any run of padding blanks; what the parser makes of it is stated by `ParseListing` |
| `ZipOutput.ListedFiles` | app/models/bulk_upload.rb:91-101 | the reference result lists only reported files (not directories) outside resource forks |
| `ZipOutput.StripFileLine` | app/models/bulk_upload.rb:93 | for a path that is absolute, without CR or LF, and not ending in white space or NUL, an indented `inflating:`/`extracting:` report line, padded with any number of blanks, strips to the word, a blank and the path |
| `ZipOutput.FileLine` | app/models/bulk_upload.rb:93-98 | for a path that is absolute, without CR or LF, and not ending in white space or NUL, a file report line yields that path unless it is a resource fork |
| `ZipOutput.CreatingLine` | app/models/bulk_upload.rb:95 | a `creating:` report line yields nothing |
| `ZipOutput.ReportLineShape` | app/models/bulk_upload.rb:93-98 | for a path that is absolute, without CR or LF, and not ending in white space or NUL, each report line yields what the reference result lists for it |
| `ZipOutput.ParseReports` | app/models/bulk_upload.rb:93-98 | when every reported path is absolute, without CR or LF, and not ending in white space or NUL, the stripped report lines yield exactly the reference result |
| `ZipOutput.ListingSplit` | app/models/bulk_upload.rb:93 | when the archive name holds no CR or LF and every reported path is absolute, without CR or LF, and not ending in white space or NUL, splitting unzip's report, final line feed included, gives back its lines |
| `ZipOutput.ListingLines` | app/models/bulk_upload.rb:93 | when the archive name holds no CR or LF and every reported path is absolute, without CR or LF, and not ending in white space or NUL, the split and stripped report is the stripped header followed by the stripped report lines |
| `ZipOutput.ParseListing` | app/models/bulk_upload.rb:91-101 | on a report made of the archive header (an archive name without CR or LF) and `creating:`/`inflating:`/`extracting:` lines whose paths are absolute, without CR or LF, and not ending in white space or NUL, each line ended by a line feed and each file name padded by any number of blanks, `extracted_file_paths` returns exactly the files reported, in order, without the header, the directories or the resource forks |
| `ZipOutput.TrailingBlanksDropped` | app/models/bulk_upload.rb:93-98 | a file whose stored name is a path followed by white space is reported under the path without that white space, which is not the name unzip wrote |
| `ZipOutput.LineBreakSplitsName` | app/models/bulk_upload.rb:93 | the report line of a file whose stored name holds a line feed splits into two lines, the second holding the rest of the name and its padding |
| `ZipOutput.OtherLineBecomesPath` | app/models/bulk_upload.rb:93-98 | any other line unzip may print (a zipfile comment, a `linking:` line, a warning) that is neither a log line nor a resource fork is expanded into a path, as a file line would be |
| `ZipFiles.MessagesDistinct` | app/models/bulk_upload.rb:113-131 | the three errors carry three different messages ("can't be blank", "not a zip file", "contains invalid files"), so the list of errors determines the messages in `errors[:zip_file]` |
| `ZipFiles.ValidationErrors` | app/models/bulk_upload.rb:68-70 | at most one error; none exactly when the upload is present, a zip and free of disallowed types; each error exactly under its own condition |
| `ZipFiles.HasDisallowedFileType` | app/models/bulk_upload.rb:133-138 | true exactly when some path's extension is not on the allowlist |
| `ZipFiles.ZipFile.StagingDirectory` | app/models/bulk_upload.rb:82 | definition of the directory `Dir.mktmpdir` makes, the root directory joined with the name it picks; that `temp_dir` makes it once is stated by `TempDir`, and that cleanup removes it by `CleanupExtractedFiles` |
| `ZipFiles.ZipFile.Destination` | app/models/bulk_upload.rb:109 | definition of `File.join(temp_dir, 'extracted')`; that unzip writes there is stated by `ExtractContents`, and that it lies beneath `temp_dir` by `ListedFilesInStaging` |
| `ZipFiles.ZipFile.ArchiveArgument` | app/models/bulk_upload.rb:110 | definition of `temp_location` as interpolated into the unzip and zipinfo command lines, nil giving the empty string; its use is stated by `ExtractContents` and `MustBeAZipFile` |
| `ZipFiles.ZipFile.Consistent` | app/models/bulk_upload.rb:81-110 | definition of the invariant of the memoised instance variables: `@temp_dir` is the directory `Dir.mktmpdir` made, `@temp_location` the copy of the upload in it, an unzip output exists only once `@temp_dir` does, and `@extracted_files_paths` is the parse of that output; it is kept by `TempDir`, `StoreTemporarily`, `ExtractContents`, `ExtractedFilePaths` and the validations |
| `ZipFiles.ZipFile.constructor` | app/models/bulk_upload.rb:76-79 | records the upload and stores it: without one nothing changes, with one the temporary directory exists and holds a copy of the upload under its original name |
| `ZipFiles.ZipFile.TempDir` | app/models/bulk_upload.rb:81-83 | returns the temporary directory, creating it on the first call only |
| `ZipFiles.ZipFile.StoreTemporarily` | app/models/bulk_upload.rb:85-89 | does nothing without an upload; otherwise copies the upload's bytes to `temp_dir/original_filename` and sets `temp_location` |
| `ZipFiles.ZipFile.ExtractContents` | app/models/bulk_upload.rb:107-111 | runs unzip once, on the archive as stored, into `temp_dir/extracted`; later calls return the same output and change no file |
| `ZipFiles.ZipFile.ExtractedFilePaths` | app/models/bulk_upload.rb:91-101 | returns the parse of the memoised unzip output, computed and recorded on the first call only |
| `ZipFiles.ZipFile.CleanupExtractedFiles` | app/models/bulk_upload.rb:103-105 | removes the temporary directory and every file and directory beneath it, and so every extracted path beneath it |
| `ZipFiles.ZipFile.ValidatePresence` | app/models/bulk_upload.rb:68 | adds `Blank` ("can't be blank") exactly when there is no upload |
| `ZipFiles.ZipFile.MustBeAZipFile` | app/models/bulk_upload.rb:113-117 | adds `NotAZipFile` ("not a zip file") exactly when there is an upload that zipinfo rejects |
| `ZipFiles.ZipFile.ContainsDisallowedFileTypes` | app/models/bulk_upload.rb:133-138 | extracts the archive if needed and reports whether some extracted path has a disallowed extension |
| `ZipFiles.ZipFile.ContainsOnlyAllowedFileTypes` | app/models/bulk_upload.rb:127-131 | looks inside only an upload zipinfo accepts, then adds `ContainsInvalidFiles` ("contains invalid files") exactly when some file is disallowed; otherwise runs nothing and changes nothing |
| `ZipFiles.ZipFile.IsValid` | app/models/bulk_upload.rb:68-70 | clears the errors, runs the three validations in order, leaves exactly the errors `ValidationErrors` gives, and is true exactly when there are none |
| `ZipFiles.ListedFilesInStaging` | app/models/bulk_upload.rb:103-110 | files reported beneath `temp_dir/extracted` lie beneath `temp_dir` |
| `ZipFiles.ExtractedPathsInStaging` | app/models/bulk_upload.rb:91-110 | on a report made of the archive header (an archive name without CR or LF) and `creating:`/`inflating:`/`extracting:` lines for paths beneath unzip's destination that are absolute, without CR or LF, and not ending in white space or NUL, every extracted path lies in the temporary directory that cleanup removes |
| `ZipFiles.NoUnderscoreNoFork` | app/models/bulk_upload.rb:96 | a path without `_` is never taken for a resource fork |
| `ZipFiles.NoForkBeneath` | app/models/bulk_upload.rb:96 | a name without `/` put beneath a directory whose path (with the separator after it) holds no `/__MACOSX/` is never taken for a resource fork |
| `ZipFiles.ForkInDestination` | app/models/bulk_upload.rb:96 | anything under a `__MACOSX` directory of the destination is a resource fork |
| `ZipFiles.TwoFilesExtracted` | test/unit/bulk_upload_test.rb:140-146 | unzip's report for the two-PDF fixture parses to the two files, in order, whatever blanks pad the names, for any absolute destination without CR or LF whose path holds no `/__MACOSX/` (and an archive name without CR or LF) |
| `ZipFiles.ResourceForkIgnored` | test/unit/bulk_upload_test.rb:156-161 | unzip's report for the resource-fork fixture parses to the one real file, whatever blanks pad the names, for any absolute destination without CR or LF whose path holds no `/__MACOSX/` (and an archive name without CR or LF) |
| `BulkUploads.IsNew` | app/models/bulk_upload.rb:27 | definition of `new_record?`, an attachment without an id; when `initialize` builds one is stated by `ResolveNew` and `FromFilesAttachments`, and what `<<` does with one by `CommitAppendsNew` |
| `BulkUploads.FileName` | app/models/bulk_upload.rb:26 | definition of `File.basename(file)` for an entry's file, none without one; that it names each attachment is stated by `Resolve` and `FromFilesAttachments` |
| `BulkUploads.FirstWithFilename` | app/models/bulk_upload.rb:26-27 | `with_filename(name).first`: the first attachment with that name, or none exactly when no attachment has it |
| `BulkUploads.Match` | app/models/bulk_upload.rb:23-26 | an entry matches only when it brings a file, and then the attachment it matches carries the file's base name; it matches none exactly when it has no file or no attachment carries that name; how a match is used is stated by `Resolve` and `ResolveNew` |
| `BulkUploads.Build` | app/models/bulk_upload.rb:29 | definition of `Attachment.new` from an entry; when it is used is stated by `Resolve` and `ResolveNew` |
| `BulkUploads.Resolve` | app/models/bulk_upload.rb:24-30 | an entry gets the matching existing attachment unchanged or a new one, always with the entry's file name; a saved result belongs to the edition |
| `BulkUploads.Reconcile` | app/models/bulk_upload.rb:23-31 | one attachment per entry, in order, each with its entry's file name; every saved one belongs to the edition |
| `BulkUploads.CountUnmatched` | app/models/bulk_upload.rb:23-31 | at most one unmatched entry per entry |
| `BulkUploads.ReconcileCons` | app/models/bulk_upload.rb:23-31 | each entry is resolved independently of the others |
| `BulkUploads.ResolveNew` | app/models/bulk_upload.rb:25-30 | against saved attachments, an entry becomes a new record exactly when nothing matches it |
| `BulkUploads.ReconcileNewRecords` | app/models/bulk_upload.rb:23-31 | reconciling builds exactly one new record per unmatched entry |
| `BulkUploads.FileEntries` | app/models/bulk_upload.rb:14-16 | definition of the file-only entries; what they reconcile to is stated by `FromFilesAttachments` |
| `BulkUploads.FromFilesAttachments` | app/models/bulk_upload.rb:13-19 | `from_files` gives one attachment per path, in order, named by the path's base name, new exactly when the edition has no attachment of that name |
| `BulkUploads.Stamp` | app/models/bulk_upload.rb:44 | definition of the ids `<<` hands out, consecutive from the next free one; its meaning is stated by `StampPersisted` and `CommitAppendsNew` |
| `BulkUploads.StampPersisted` | app/models/bulk_upload.rb:44 | numbering inserted records consecutively from the next free id keeps every id of the collection distinct and below the new next id |
| `BulkUploads.Commit` | app/models/bulk_upload.rb:44 | `<<` returns one saved record per record given; its effect on the collection is stated by the lemmas below |
| `BulkUploads.CommitAppendsNew` | app/models/bulk_upload.rb:44 | `<<` appends exactly the unsaved records, numbered in order, and moves the next id past them |
| `BulkUploads.CommitSavesAll` | app/models/bulk_upload.rb:44 | every record comes back saved; a saved one comes back unchanged, the others change only in their id |
| `BulkUploads.CommitKeepsPersisted` | app/models/bulk_upload.rb:44 | the collection stays saved with distinct ids, and every record given ends up in it |
| `BulkUploads.CommitSaved` | app/models/bulk_upload.rb:44 | pushing records that are all saved changes nothing |
| `BulkUploads.CommitTwice` | app/models/bulk_upload.rb:44 | committing the same batch again adds nothing |
| `BulkUploads.Edition.Concat` | app/models/bulk_upload.rb:44 | `attachments << records` updates the edition as `Commit` says and keeps its attachments saved with distinct ids |
| `BulkUploads.BulkUpload.constructor` | app/models/bulk_upload.rb:21-32 | `@attachments` is the reconciliation of the `:attachments` list, or of the empty list when it is missing |
| `BulkUploads.BulkUpload.FromFiles` | app/models/bulk_upload.rb:13-19 | builds a new bulk upload whose attachments reconcile one file-only entry per path |
| `BulkUploads.BulkUpload.AttachmentsAreValid` | app/models/bulk_upload.rb:50-55 | adds the base error once when some attachment is invalid, however many are |
| `BulkUploads.BulkUpload.IsValid` | app/models/bulk_upload.rb:9 | true exactly when every attachment is valid, with the base error as the only error otherwise |
| `BulkUploads.BulkUpload.SaveAttachmentsToEdition` | app/models/bulk_upload.rb:42-48 | succeeds exactly when every attachment is valid; then the whole batch is committed, otherwise neither the batch nor the edition changes |
| `BulkUploads.SaveAddsUnmatched` | app/models/bulk_upload.rb:21-48 | a successful save grows the edition by exactly the number of unmatched entries and keeps its existing attachments in place |

## Left out

- Running `unzip` and `zipinfo` (the backticks and `Open3.popen3`), shell interpolation of the paths, and the `Whitehall.system_binaries` lookup. The two programs are functions in `Env` of the archive argument and the bytes stored there. A nil `temp_location` is the empty argument.
- `is_a_zip?` (lines 119-123) is the `Env.zipinfoClean` predicate as such. What zipinfo accepts is outside the code, so it has no contract of its own.
- `Dir.mktmpdir`: the name it picks is a parameter. That the name is fresh, and that a default root of nil means the system temporary directory, are not modelled.
- `FileUtils.cp` and `File.open` failures. The constructor requires the uploaded tempfile to exist. The copy requires a temporary directory made earlier still to exist.
- `FilePaths.ExpandPath` is modelled for paths without `.`, `..`, `~`, doubled separators or a trailing `/`, against a working directory other than `/` and without a trailing `/`: a relative path is joined to the working directory. Ruby drops a trailing `/` and does not double the root's separator; the model does neither.
- `FilePaths.Join` is modelled for a directory without a trailing `/` and a name without a leading one. Ruby's `File.join` merges such separators; the model would double them. The temporary root directory is taken not to end in `/`.
- `ZipOutput.ParseListing` covers reports made of the archive header and `creating:`, `inflating:` and `extracting:` lines. unzip can also print a zipfile comment, `linking:` lines for symbolic links, and warning or error lines. The code keeps each such line and turns it into a path beneath the working directory (`OtherLineBecomesPath`), so extracted paths need not be files that unzip wrote. ParseListing also takes each reported name to be absolute, free of CR and LF, and ending in a character `strip` keeps. unzip prints a stored name as it is. A name ending in white space or NUL comes back without those characters (`TrailingBlanksDropped` shows the white-space case). A name holding a line feed or carriage return is cut by the split into two or more lines (`LineBreakSplitsName`), and each part after the first is parsed as a line of its own. In both cases the path checked against the allowlist is not the file unzip wrote.
- `FilePaths.Basename` is modelled for paths without a trailing `/`.
- The character encoding of unzip's output. The output is taken as decoded characters; the `ArgumentError` that `split` raises on a byte sequence invalid in the default external encoding is not modelled.
- `Text.Strip` removes, at the front, space, tab, line feed, vertical tab, form feed and carriage return, and at the end those and NUL. A Ruby whose `strip` also removes a leading NUL differs on a line that begins with one.
- `ZipFiles.HasDisallowedFileType` compares extensions exactly, as the code does. The allowlist `AttachmentUploader::EXTENSION_WHITE_LIST` is a parameter, because the uploader is not part of this model.
- The message "can't be blank" is the Rails default for `presence: true`.
- The validation rules of `Attachment` and the per-attachment errors that `attachment.valid?` records. `attachment.valid?` is the `attachmentValid` predicate of the bulk upload.
- ActiveRecord persistence: a failing insert, the non-atomic way `<<` saves one record after another, and moving a saved attachment between editions. `Edition.Concat` requires the saved records it is given to be the edition's own, as `initialize` guarantees.
- The order of `with_filename(...).first`: it is the order of the edition's attachment collection.
- Assigning the entry's attributes to a matched existing attachment, and a fresh `AttachmentData` for it. The code does neither in `initialize` (`first_or_initialize` ignores its attributes when a record is found).
- `to_model`, `persisted?` and the ActiveModel naming and conversion mixins, which hold no logic.
- Concurrency and ZipFile objects that share one temporary directory.
