# Zotero bulk PDF compression, modelled in Dafny

`zoterobulkcompression.py` shrinks the PDFs in a Zotero storage directory. It works as
follows:

1. It scans every item directory under `<Zotero>/storage`.
2. It skips a directory that holds a skip marker. A skip marker is `.zbc.ignore`, or
   `.zbc.p{k}-compressed` for a power `k` between the requested power and 4.
3. In every other directory, it collects the files with a `pdf` extension (in any case)
   of at least `-max` kilobytes.
4. For each file collected, it runs Ghostscript at the chosen preset into `temp.pdf`.
5. If the output is strictly larger than the original, it throws the output away.
6. Otherwise it backs the original up under `compression_backups/<run>/<item>/<name>`
   (unless `--nobackup` is given). It then adds the saving to the running total,
   overwrites the original with the output, and writes `.zbc.p{power}-compressed` beside
   it.
7. It deletes `temp.pdf` after each file.

A dry run scans but compresses nothing.

The model has eight modules:

- `Text`: the string operations the script relies on. These are `split(sep)[-1]`,
  `lower()`, the substring test, and the decimal rendering inside an f-string.
- `Markers`: the marker names and `check_ignore_conditions`. The latter is an imperative
  method with its loop, proved equal to a declarative skip predicate.
- `Vault`: the file system as values. Item directories hold entries, and an entry is a
  file (its bytes) or a sub-directory. The module also holds the extension test, the
  path separator, writing a file into a directory, and the ways a run can end early.
- `Ghostscript`: the part of `compress` before the subprocess. That is the quality table,
  the two input checks that end the run, and the command line.
- `Scanner`: the list of candidates the scan produces, as a specification function,
  with its membership, order and skip properties.
- `Iteration`: one pass of the loop as a function of the disk before it (`Step`), with
  lemmas stating what each branch leaves behind and which invariant every pass keeps
  (`Keeps`).
- `Loop`: the whole loop as a function (`Passes`) over any pass that keeps `Keeps`.
  It has lemmas for halting, totals, backups, dry runs and markers.
- `Pipeline`: `main` itself. It has argument defaulting, and a `Session` class whose
  fields are the disk, `temp.pdf`, the backup folder and `total_reduction`. Its methods
  (`Scan`, `Commit`, `Process`, `ProcessAll`, `Run`) update those fields step by step.
  Each method is proved to produce exactly the state that the functions of `Iteration`
  and `Loop` describe.

Ghostscript itself is a parameter. `tool(argv, input bytes)` yields the bytes it writes
to `temp.pdf`, or nothing. The clock is also a parameter: `now(i)` gives the timestamp
of iteration `i`, as opaque bytes. The Ghostscript path is a parameter too.

Four behaviours of the script are easy to misread; the model follows the code in each:

- The size check (line 79) aborts only when the output is strictly larger. An output of
  equal size is committed with a saving of 0.
- A failed input check in `compress` ends the whole run, through `sys.exit(1)`. So do
  an unknown power (a `KeyError`), a missing `temp.pdf` (`getsize` raises), an empty
  original (the ratio of line 130 divides by its size, which is possible under `-max 0`),
  and a marker path that is a directory. These do not skip just one file.
- A dry run still creates the run's backup folder (lines 64-69).
- `total_reduction` grows before the marker is written. When the marker write fails,
  the run ends with the total already counting that file.

## Model

| member | source | states |
|---|---|---|
| Markers.MarkerName | zoterobulkcompression.py:151 | every compression marker name starts with the `.zbc.` tag |
| Markers.CheckIgnoreConditions | zoterobulkcompression.py:145-153 | the tag test, the ignore test and the search over `range(power, 5)` return true exactly for the ignore marker or a marker of a power from `power` to 4 |
| Markers.MarkerNamesAreTagged | zoterobulkcompression.py:146-147 | both marker kinds pass the tag test, and no compression marker is the ignore marker |
| Markers.UntaggedNameNeverSkips | zoterobulkcompression.py:146-148 | the ignore marker skips at every power; a name without `.zbc.` never skips |
| Markers.MarkerNameInjective | zoterobulkcompression.py:151 | different powers give different marker names |
| Markers.MarkerSkipsExactly | zoterobulkcompression.py:150-152 | `.zbc.p{k}-compressed` skips at power `p` if and only if `p <= k <= 4` |
| Markers.SkipIsDownwardClosed | zoterobulkcompression.py:150 | a name that skips at some power also skips at every lower power |
| Markers.OnlyIgnoreAboveMaxPower | zoterobulkcompression.py:150 | above power 4 only the ignore marker skips |
| Text.Lower | zoterobulkcompression.py:59 | `str.lower()`: the ASCII capitals mapped to small letters, the length kept; the extension tests built on it are stated by `Vault.PdfNameShape` |
| Text.HasInfix | zoterobulkcompression.py:146 | Python's `t in s` on strings: `t` occurs as a contiguous block of `s`; the tag test built on it is stated by `Markers.MarkerNamesAreTagged` and `Markers.UntaggedNameNeverSkips` |
| Text.IntToString | zoterobulkcompression.py:151 | `f'{i}'` for an `int`: a minus sign before the decimal digits of a negative number, never empty; injective by `Text.IntToStringInjective` |
| Text.LastSegment | zoterobulkcompression.py:59 | `split(sep)[-1]` is the longest `sep`-free suffix: free of `sep`, a suffix, and either the whole string or preceded by `sep` |
| Text.LastSegmentAfterSep | zoterobulkcompression.py:83 | whatever precedes the last separator, the segment after it is the result |
| Text.IntToStringInjective | zoterobulkcompression.py:151 | the f-string rendering of an `int` is injective |
| Vault.Size | zoterobulkcompression.py:59 | `st_size`: a file's byte count, or a sub-directory's `stat()` size |
| Vault.FilePath | zoterobulkcompression.py:77 | `str(pdf)`: the directory's path, `\`, then the file name |
| Vault.IsPdfName | zoterobulkcompression.py:59 | `split('.')[-1].lower() == 'pdf'`, applied to a name at line 59 and to a path at line 117; what it accepts is stated by `Vault.PdfNameShape` |
| Vault.IndexOf | zoterobulkcompression.py:92 | looking a name up in a directory: the position of an entry of that name, or none exactly when no entry has it |
| Vault.WriteFile | zoterobulkcompression.py:92-93 | `open(path, 'w')` and a write: a file of that name refilled, or a new file after the entries, or the failure on a directory of that name; stated by `Vault.WriteFileEffect` |
| Vault.PdfNameShape | zoterobulkcompression.py:59 | the extension test accepts exactly a string ending in `pdf` in any case, either whole or after its last dot |
| Vault.PdfNameHasShape | zoterobulkcompression.py:59 | a string the extension test accepts ends in `pdf` in any case, either whole or after a dot |
| Vault.ShapeIsPdfName | zoterobulkcompression.py:59 | a string ending in `pdf` in any case, either whole or after a dot, passes the extension test |
| Vault.PathTestFollowsName | zoterobulkcompression.py:117 | for a name with a dot, the path test of `compress` agrees with the scan's name test |
| Vault.DotlessNameFailsPathTest | zoterobulkcompression.py:117 | for a name without a dot, the path test of `compress` fails |
| Vault.FolderNamedBefore | zoterobulkcompression.py:89-92 | the loop never creates a directory: one found after some passes was there before them |
| Vault.WriteFileEffect | zoterobulkcompression.py:92 | `open(path, 'w')` fails only on a directory of that name; otherwise it keeps every other entry, adds at most one, and leaves a file holding the written bytes |
| Ghostscript.Quality | zoterobulkcompression.py:103-109 | the table has a preset exactly for powers 0 to 4 |
| Ghostscript.QualityIsInjective | zoterobulkcompression.py:103-109 | each power has its own preset |
| Ghostscript.CompressCommand | zoterobulkcompression.py:111-124 | the subprocess is reached if and only if the input is a regular file, has a `pdf` extension and the power has a preset |
| Ghostscript.GsArgv | zoterobulkcompression.py:123-127 | the list handed to `subprocess.call`; all nine positions are stated by `Ghostscript.CompressCommandLine` |
| Ghostscript.CompressCommandLine | zoterobulkcompression.py:123-127 | the command line is exactly the nine arguments of the script in its order: the Ghostscript path, `-sDEVICE=pdfwrite`, `-dCompatibilityLevel=1.4`, `-dPDFSETTINGS=` with the power's preset, `-dNOPAUSE`, `-dQUIET`, `-dBATCH`, `-sOutputFile=` with the output path, and the input path |
| Scanner.PassesFilters | zoterobulkcompression.py:59 | the per-file filter: a `pdf` extension in any case and `st_size / 1000 >= max`, taken as `st_size >= 1000 * max`; what it admits is stated by `Scanner.PdfsInMembership` |
| Scanner.Skipped | zoterobulkcompression.py:58 | the directory test: some entry's name is a skip marker; `Pipeline.HasMarker` computes it |
| Scanner.PdfsIn | zoterobulkcompression.py:59 | the comprehension of one directory, every element naming one of its entries; membership and order are stated by `Scanner.PdfsInMembership` and `Scanner.PdfsInOrdered` |
| Scanner.DirCandidates | zoterobulkcompression.py:58-60 | what one directory adds to `pdfs`: nothing when it is skipped, else its filtered files |
| Scanner.Candidates | zoterobulkcompression.py:57-60 | the `pdfs` list after the scan, every element naming a listed directory; stated by `Scanner.CandidatesMembership`, `Scanner.CandidatesOrdered`, `Scanner.IgnoredDirNeverScanned` and `Scanner.MarkedDirNotRescanned` |
| Scanner.PdfsInOrdered | zoterobulkcompression.py:59 | a directory's found files are in strictly increasing entry order |
| Scanner.PdfsInMembership | zoterobulkcompression.py:59 | a file of a directory is found if and only if it passes the extension and size filter |
| Scanner.CandidatesOrdered | zoterobulkcompression.py:57-60 | the scan lists directories in order, then entries in order, with no repeats |
| Scanner.CandidatesMembership | zoterobulkcompression.py:57-60 | a file is listed if and only if its directory holds no skip marker and it passes the filter |
| Scanner.IgnoredDirNeverScanned | zoterobulkcompression.py:58 | a directory with `.zbc.ignore` contributes nothing at any power |
| Scanner.MarkedDirNotRescanned | zoterobulkcompression.py:58 | a directory with `.zbc.p{k}-compressed` contributes nothing at any power `p <= k <= 4` |
| Scanner.CandidateDirHasNoMarker | zoterobulkcompression.py:58 | no scanned file's directory holds an entry named like the marker of the run's power |
| Scanner.DotlessCandidateFailsCompressCheck | zoterobulkcompression.py:59 | a listed file whose name has no dot fails the extension check of `compress` (line 117), and only such a file does |
| Iteration.MarkerText | zoterobulkcompression.py:93 | the marker's content, `Compressed at: <timestamp>.`, with the timestamp as opaque bytes |
| Iteration.TotalSaved | zoterobulkcompression.py:88 | the sum of the savings `total_reduction` accumulates, never negative; `Loop.PassesTotal` ties it to the total |
| Iteration.Command | zoterobulkcompression.py:77 | the `compress` call for one entry: its path, `temp.pdf`, whether it is a regular file, and the power |
| Iteration.AfterTool | zoterobulkcompression.py:123-129 | what `temp.pdf` holds after the subprocess: the new output, or the earlier file when Ghostscript wrote none |
| Iteration.ToolOutput | zoterobulkcompression.py:111-129 | the file `getsize` measures at line 129, or none when `compress` exits first or there is no file |
| Iteration.BackupOf | zoterobulkcompression.py:83-87 | the backup location: the last `\`-separated segment of the parent path, then the file name; stated by `Iteration.BackupFolderOfWindowsPath` and `Iteration.BackupFolderOfUnsplitPath` |
| Iteration.Settled | zoterobulkcompression.py:89-93 | a directory after the overwrite of line 89 and the marker write of line 92; stated by `Iteration.OverwriteThenWrite` |
| Iteration.CommitStep | zoterobulkcompression.py:82-93 | the disk and outcome after the backup, the total, the overwrite and the marker write; what it means is stated by `Iteration.StepCommits` |
| Iteration.Step | zoterobulkcompression.py:77-96 | one non-dry-run pass; its branches are stated by `Iteration.StepWithoutOutput`, `Iteration.StepStopsOnEmptyInput`, `Iteration.StepAbortsLarger`, `Iteration.StepEntersCommit` and `Iteration.StepCommits`, and what every pass keeps by `Iteration.StepInvariants` |
| Iteration.BackupFolderOfUnsplitPath | zoterobulkcompression.py:83 | `split('\\')[-1]` of a parent path without `\` is the whole path |
| Iteration.BackupFolderOfWindowsPath | zoterobulkcompression.py:83 | the parent path `<root>\<item>` gives the backup folder `<item>` |
| Iteration.StepWithoutOutput | zoterobulkcompression.py:77 | when `compress` exits, or no output file exists to measure, the run ends and nothing on disk changes |
| Iteration.StepStopsOnEmptyInput | zoterobulkcompression.py:122-130 | an empty original ends the run at the division of line 130, with `temp.pdf` written and nothing else changed |
| Iteration.StepAbortsLarger | zoterobulkcompression.py:79-80 | for a non-empty original, a strictly larger output changes nothing but removing `temp.pdf` (line 96) |
| Iteration.MarkerPathIsNoPdf | zoterobulkcompression.py:92 | a marker's path never passes the extension test |
| Iteration.OverwriteThenWrite | zoterobulkcompression.py:89-93 | overwriting then writing the marker loses or renames no entry and keeps the new bytes in place; the marker write fails if and only if a directory has its name |
| Iteration.StepEntersCommit | zoterobulkcompression.py:79-81 | for a non-empty original, an output no larger than it reaches the commit, for a regular `pdf` file at a valid power that is not the marker itself |
| Iteration.StepCommits | zoterobulkcompression.py:79-96 | for a non-empty original, a commit leaves the original bytes backed up, the total grown by the saving, the file holding the output, every other entry but the marker and every other directory unchanged, and the marker beside it, and removes `temp.pdf`; only a directory named like the marker stops it, leaving `temp.pdf` behind |
| Iteration.StepInvariants | zoterobulkcompression.py:72-96 | every pass keeps names unique and entries in place and changes no other directory and no other entry but the marker; a pass that neither commits nor meets a marker-named directory changes no file and no backup; except at such a directory the total grows by exactly the pass's saving; unless it ends the run it removes `temp.pdf`; `--nobackup` leaves the backups alone; a commit leaves the marker |
| Loop.Pass | zoterobulkcompression.py:72-96 | the script's pass keeps the invariant of every pass |
| Loop.Passes | zoterobulkcompression.py:71-96 | the loop keeps names unique and entries in place, and yields one outcome per file unless a pass ends the run |
| Loop.PassesKeepFiles | zoterobulkcompression.py:72-96 | every scanned file is still present at every iteration |
| Loop.PassesStayHalted | zoterobulkcompression.py:114 | after a pass ends the run, no later iteration changes anything |
| Loop.PassesStopOnlyLast | zoterobulkcompression.py:72-96 | only the last outcome can be one that ends the run |
| Loop.PassesTotal | zoterobulkcompression.py:71-88 | when no scanned directory holds a directory named like the marker, `total_reduction` grows by exactly the sum of the savings of the commits |
| Loop.PassesKeepBackups | zoterobulkcompression.py:82 | with `--nobackup` the backup folder is never written |
| Loop.PassesDryRun | zoterobulkcompression.py:76 | a dry run attempts no file and changes nothing on disk |
| Loop.PassesAttemptAll | zoterobulkcompression.py:76-96 | outside a dry run every file reached is attempted, and `temp.pdf` is gone after each pass that does not end the run |
| Loop.MarksGrow | zoterobulkcompression.py:92 | markers already written persist as directories grow, and one more marked commit keeps them all |
| Loop.PassesMarkCommitted | zoterobulkcompression.py:92 | every file committed so far has the marker of the run's power in its directory |
| Pipeline.Resolve | zoterobulkcompression.py:39-43 | only an omitted `-p` or `-max` takes its default (2, 5000); the default power maps to `/printer` |
| Pipeline.HasMarker | zoterobulkcompression.py:58 | the directory test is true if and only if some entry is a skip marker |
| Pipeline.FindPdfs | zoterobulkcompression.py:59 | the list comprehension yields the directory's files that pass the filter, in order |
| Pipeline.Session.Scan | zoterobulkcompression.py:53-60 | the scan loop yields the candidate list that `Scanner` specifies |
| Pipeline.Session.PrepareBackupRoot | zoterobulkcompression.py:64-69 | the backup folder exists afterwards if and only if it existed before or `--nobackup` was not given |
| Pipeline.Session.Commit | zoterobulkcompression.py:82-93 | the backup, total, overwrite and marker updates produce the state and outcome of `Iteration.CommitStep`, and no directory lists a name twice afterwards |
| Pipeline.Session.Process | zoterobulkcompression.py:76-96 | one iteration produces the state and outcome of `Iteration.Step`, and no directory lists a name twice afterwards |
| Pipeline.Session.Visit | zoterobulkcompression.py:72-77 | iteration `i` extends the loop's state and outcomes by one step of `Loop.Passes`, and says whether that step ended the run |
| Pipeline.Session.ProcessAll | zoterobulkcompression.py:71-96 | the loop produces the state and outcomes of `Loop.Passes` |
| Pipeline.Session.Run | zoterobulkcompression.py:39-96 | `main` scans the candidates, prepares the backup folder, zeroes the total and runs the loop; `total_reduction` ends as the sum of the savings of the commits; afterwards a scan at the same or a lower power skips every directory in which a file was committed |

## Left out

- Argument parsing (`argparse`) is left out: `Args` is the parsed result.
- `get_ghostscript_path` is left out: the executable's path is a parameter.
- The existence check on `<Zotero>/storage` is left out: the storage directory is a given
  sequence of item directories.
- Ghostscript itself is left out. The subprocess is a function from the command line
  and the input bytes to the bytes written to `temp.pdf`, if any. Its exit status, which
  the script ignores, is not modelled.
- Every `print` is left out, and so are the megabyte figures, float divisions used only
  in messages. The ratio of line 130 is not computed either; only its division by zero
  on an empty original is modelled, as the `EmptyInput` stop.
- `datetime.now()` is left out: timestamps are opaque bytes. The name of the run's
  backup folder is not modelled; the backups are one map for the run.
- Creating the backup sub-folder (line 86) is not modelled separately; the map key
  carries the folder name.
- The children of `<Zotero>/storage` are all taken to be directories. A plain file there
  would make `iterdir()` raise.
- Sub-directories inside item directories are modelled by their `stat()` size only.
  Their contents are never read.
- `str.lower()` maps only the ASCII letters, which is all the extension test can match.
- `st_size / 1000 >= max` is modelled as `st_size >= 1000 * max`. This is exact while
  sizes fit the 53-bit float mantissa.
- POSIX hosts are not modelled. The host path separator is fixed to `\`, the Windows
  separator the script was written for. On POSIX, line 83 keeps the whole parent path,
  which names the item directory itself, so the backup (lines 85-87) fails there instead
  of copying.
- Pipeline.Session.Run: file names are compared case-sensitively. NTFS looks names up
  without regard to case, so an existing `.ZBC.P2-COMPRESSED` would be reused by line 92
  and keep its case. The property that a rescan skips committed directories depends on
  the case-sensitive lookup.
- Loop.Pass: its branch for a file that is no longer present is never taken. Every
  scanned file stays present (`Loop.PassesKeepFiles`), so that branch only completes the
  function.
- Loop.PassesTotal: the total is stated only when no scanned directory holds a directory
  named like the marker, which every scan guarantees (`Pipeline.Session.Run` states the
  exact total). At such a directory the marker write fails after the total already
  counts that file's saving.
- Iteration.StepInvariants: the total is not stated for a pass stopped by a directory
  named like the marker, for the same reason.
- Concurrent changes to the file system during a run are not modelled.
