# iBroadcast uploader: a verified model of its local logic

The iBroadcast uploader is a command-line script. It walks a music directory
and collects the files whose extension the account supports. It drops the
files whose MD5 hash the remote library already holds, and it uses a local
path-to-hash cache to avoid hashing files again. It uploads what is left and
prints an `Uploaded/Skipped/Failed/Total` line.

This project models the parts of the `Uploader` class that decide what happens,
in Dafny. The network, the disk, the MD5 algorithm and the terminal become
inputs:

- the supported extensions;
- the directory tree, as a datatype of files and directories in listing order;
- the stored hash cache and the remote hash list;
- the content hash of each path, as an uninterpreted function;
- the server's reply to each upload.

The project has four modules.

- `FileTree` (`file_tree.dfy`) covers the directory tree and the path helpers:
  - `Join` follows `posixpath.join` for a name that does not start with a separator.
  - `Basename` follows `posixpath.basename`.
  - `SplitExt` follows `posixpath.splitext`.
  - `Discover` and `DiscoverEntry` give the walk's order and filter as specification functions.
  - `Wanted` is an independent, route-based description of the paths the walk should find.
- `Dedup` (`dedup.dfy`) covers the deduplication pass:
  - `Resolve` gives the hash used for a path: the cached value, or a fresh one.
  - `Step` and `CacheAfter` give the state of the cache.
  - `Kept` and `Dropped` give the files kept for upload and the files skipped.
  - `RemoveFirst` models Python's `list.remove`.
- `Report` (`report.dfy`) covers the server reply, the failure list
  (`Rejected`) and the report formula (`MakeReport`).
- `Uploading` (`uploader.dfy`) holds the class `Uploader`. It has the fields of
  the Python object and methods that update them in place:
  - `SetSupported`
  - `LoadFiles` and `LoadEntry`
  - `CheckMd5` and `CheckFile`
  - `Upload`
  - `PrepareUpload`
  - `Process`

  Each method's `ensures` states every field it may change, in terms of the
  specification functions above; `Process` states the whole state after a
  run, with and without confirmation. `RunOf` is the report of a whole run as a function of its inputs.

When an upload gets a bad status, `upload` raises `ServerError` inside a pool
worker. Nothing reads the future, so nothing is recorded, and the report
formula counts the file as uploaded (`BadStatusCountedAsUploaded`).

## Model

| member | source | states |
|---|---|---|
| FileTree.Basename | ibroadcast-uploader.py:197 | the basename holds no separator, is a suffix of the path, and is preceded by a separator when shorter than the path |
| FileTree.StripLeadingDots | ibroadcast-uploader.py:203 | the result is a suffix of the name that does not start with a dot, and everything stripped is a dot |
| FileTree.ExtIsLastDotSuffix | ibroadcast-uploader.py:203 | the extension is a suffix of the name; it is empty exactly when the name has no dot; otherwise it is a dot followed by no other dot |
| FileTree.ExtIsSuffix | ibroadcast-uploader.py:203 | the extension is a suffix of the name, never longer than it |
| FileTree.ExtEmptyWithoutDot | ibroadcast-uploader.py:203 | the extension is empty exactly when the name has no dot |
| FileTree.ExtFromLastDot | ibroadcast-uploader.py:203 | a non-empty extension is a dot followed by no other dot |
| FileTree.ExtAfterLastDot | ibroadcast-uploader.py:203 | the extension of `stem.tail` is `.tail` when the tail has no dot |
| FileTree.BasenameOfJoin | ibroadcast-uploader.py:196-197 | the basename of a directory joined with a name is that name |
| FileTree.SplitExtOfJoin | ibroadcast-uploader.py:196-203 | for a name that is not hidden, splitext of the joined path gives the name's own extension |
| FileTree.DiscoverAppend | ibroadcast-uploader.py:196-210 | walking two listings in turn appends the walk of the first, then the walk of the second, so listing order is kept |
| FileTree.DiscoverFilter | ibroadcast-uploader.py:196-205 | every appended path has a basename that is not hidden and a splitext extension in the supported list |
| FileTree.DiscoverEntryFilter | ibroadcast-uploader.py:196-210 | the same filter property for the paths found from one entry |
| FileTree.DiscoverSound | ibroadcast-uploader.py:196-210 | every appended path is the path of a route through non-hidden entries whose last name has a supported extension |
| FileTree.DiscoverEntrySound | ibroadcast-uploader.py:196-210 | the same soundness for the paths found from one entry |
| FileTree.DiscoverComplete | ibroadcast-uploader.py:196-210 | the path of every such route is appended |
| FileTree.DiscoverEntryComplete | ibroadcast-uploader.py:196-210 | the same completeness for routes that start at one entry |
| FileTree.DiscoverExactly | ibroadcast-uploader.py:196-210 | a path is appended if and only if it is the path of a wanted route |
| FileTree.MatchingDirectoryListedAndEntered | ibroadcast-uploader.py:203-210 | a directory whose name has a supported extension is appended first, then walked |
| FileTree.HiddenDirectoryIgnored | ibroadcast-uploader.py:198-200 | a hidden directory adds nothing, whatever it holds |
| FileTree.ExampleDiscovery | ibroadcast-uploader.py:196-210 | in the example directory (a.mp3, b.flac, .hidden.mp3, c.txt with .mp3 and .flac supported) exactly /music/a.mp3 and /music/b.flac are found, in that order |
| Dedup.CacheCoverageAndFrame | ibroadcast-uploader.py:289-312 | after the pass, a key is in the cache if and only if it was there before or was visited; a visited path maps to its resolved hash; an unvisited cached path keeps its prior value |
| Dedup.CacheHitOrFresh | ibroadcast-uploader.py:302-312 | with the cache in use and the path cached, the cached hash stays; with the cache bypassed or the path uncached, the entry becomes the fresh hash |
| Dedup.ResolveStable | ibroadcast-uploader.py:302-312 | resolving a path against the cache after the pass gives what resolving it against the original cache gave |
| Dedup.Partition | ibroadcast-uploader.py:289-322 | a file is kept if and only if it is listed and not skipped, and dropped if and only if it is listed and skipped; kept and dropped together hold each file as often as the list did; no file is in both |
| Dedup.KeptMembers | ibroadcast-uploader.py:314-322 | a file is kept if and only if it is listed and not skipped |
| Dedup.DroppedMembers | ibroadcast-uploader.py:314-322 | a file is dropped if and only if it is listed and skipped |
| Dedup.PartitionCounts | ibroadcast-uploader.py:314-322 | the multisets of kept and dropped files add up to the multiset of the list |
| Dedup.KeptAppend | ibroadcast-uploader.py:289-322 | keeping distributes over concatenation, so the kept files stay in original order |
| Dedup.DroppedAppend | ibroadcast-uploader.py:289-322 | skipping distributes over concatenation, so the skipped files stay in original order |
| Dedup.ForcedReupload | ibroadcast-uploader.py:314 | with reupload forced every file is kept and none is skipped |
| Dedup.AllRemote | ibroadcast-uploader.py:314-322 | when every file's hash is remote and reupload is off, every file is skipped and none is kept |
| Dedup.DedupIdempotent | ibroadcast-uploader.py:289-322 | a second pass over the kept files, with the cache the first pass left, keeps them all, skips none and leaves the cache as it was |
| Dedup.SecondPassKeeps | ibroadcast-uploader.py:302-322 | files that resolve the same under two caches and are not skipped under the first are all kept under the second |
| Dedup.SecondPassCache | ibroadcast-uploader.py:302-312 | passing again over files visited already leaves the cache unchanged |
| Dedup.Snoc | ibroadcast-uploader.py:293-322 | visiting one more file adds that file's outcome alone to the kept list, the skipped list and the cache |
| Dedup.KeptOmitsSkipped | ibroadcast-uploader.py:314-322 | a file the pass skips is never in the kept list |
| Dedup.PassTurn | ibroadcast-uploader.py:293-322 | one turn of the loop takes the pass state after `i` files to the pass state after `i + 1` files |
| Dedup.PassEnds | ibroadcast-uploader.py:289-293 | the pass starts with the stored cache, the whole list and the old skipped list; after the last file its state is the cache, kept list and skipped list of the whole list |
| Dedup.NextIsRemaining | ibroadcast-uploader.py:293-322 | the file visited next is still in the file list, so `list.remove` finds it |
| Dedup.PassStepCache | ibroadcast-uploader.py:302-312 | each turn moves the cache on by one step and resolves the file as against the original cache |
| Dedup.PassStepSkip | ibroadcast-uploader.py:314-322 | a skipped file's turn removes it from the remaining list and appends it to the skipped list |
| Dedup.PassStepKeep | ibroadcast-uploader.py:314-322 | a kept file's turn leaves both lists as they are |
| Dedup.RemoveFirstOne | ibroadcast-uploader.py:322 | list.remove shortens the list by one and takes out exactly one occurrence of the value |
| Dedup.RemoveFirstAfter | ibroadcast-uploader.py:322 | list.remove takes out the first occurrence and keeps everything around it |
| Report.RejectedSplit | ibroadcast-uploader.py:405-407 | a file is recorded as failed if and only if its reply is a false result; the recorded and the other files account for every file once |
| Report.NothingRejected | ibroadcast-uploader.py:399-407 | with no false result nothing is recorded as failed |
| Report.MakeReport | ibroadcast-uploader.py:364-366 | the skipped, failed and total counts are copied; uploaded never exceeds the total; the four counts add up when skipped and failed fit in the total; uploaded is zero otherwise |
| Uploading.RunAccounting | ibroadcast-uploader.py:350-366 | in a whole run uploaded + skipped + failed equals the total; the total is the number of discovered files; uploaded is the number of kept files whose upload was not rejected |
| Uploading.BadStatusCountedAsUploaded | ibroadcast-uploader.py:358-362 | when every kept file gets a bad status, nothing is reported failed and all kept files count as uploaded |
| Uploading.AlreadyUploadedRun | ibroadcast-uploader.py:314-366 | when every discovered file's hash is remote already, the run uploads nothing, fails nothing and skips everything |
| Uploading.ExampleRun | ibroadcast-uploader.py:350-407 | the example run, where a.mp3 is remote already and b.flac's upload is rejected, reports 0/1/1/2 |
| Uploading.ExampleDedup | ibroadcast-uploader.py:314-322 | in the example run a.mp3 is skipped and b.flac kept |
| Uploading.ExampleUpload | ibroadcast-uploader.py:405-407 | in the example run b.flac is recorded as failed |
| Uploading.NameAndExt | ibroadcast-uploader.py:196-203 | the basename of an entry's path is the entry's name; when that name is not hidden, the splitext extension is the name's extension |
| Uploading.ListingStep | ibroadcast-uploader.py:196-210 | one turn of the loop over the listing: the files the entry adds follow those of the entries before it, giving the walk of one more entry |
| Uploading.VisibleEntryAppends | ibroadcast-uploader.py:199-210 | appending a visible entry's own path when its extension matches, then the walk of its children when it is a directory, appends exactly what the walk adds for that entry |
| Uploading.Uploader.constructor | ibroadcast-uploader.py:37-63 | the flags are stored; supported is unset; the lists are empty |
| Uploading.Uploader.SetSupported | ibroadcast-uploader.py:173-179 | the supported extensions are the ones in the account info, in order; the three file lists are emptied |
| Uploading.Uploader.LoadFiles | ibroadcast-uploader.py:181-210 | with supported unset it raises ValueError and leaves the file list alone; otherwise it appends exactly the walk of the listing (the working directory when no directory is given) |
| Uploading.Uploader.LoadEntry | ibroadcast-uploader.py:196-210 | one entry appends exactly what the walk adds for it |
| Uploading.Uploader.CheckMd5 | ibroadcast-uploader.py:283-333 | the remote list is stored; the cache becomes the stored cache after the pass; the file list becomes the kept files; the skipped list gains the dropped files, in order |
| Uploading.Uploader.CheckFile | ibroadcast-uploader.py:300-322 | one file's turn moves the cache one step; a skipped file leaves the file list, which it was in, and joins the skipped list; a kept file changes neither list |
| Uploading.Uploader.Upload | ibroadcast-uploader.py:369-407 | a bad status raises ServerError and records nothing; a false result records the file as failed and raises ValueError; any other reply succeeds and records nothing |
| Uploading.Uploader.PrepareUpload | ibroadcast-uploader.py:350-367 | after the pass, every kept file is uploaded; the failed list gains the rejected kept files; the report is MakeReport of the total counted before deduplication and the final skipped and failed counts |
| Uploading.Uploader.Process | ibroadcast-uploader.py:65-85 | the supported extensions are set; without confirmation there is no report, the file list is the walk of the working directory, the skipped and failed lists are empty and the caches are untouched; with confirmation the report is the report of the whole run, the remote list is stored, the cache is the stored cache after the pass, the file list is the kept files, the skipped list the dropped files and the failed list the rejected kept files |

## Left out

- `login`, the HTTP request of `get_supported_types`, `__load_md5_ext` and the
  POST in `upload` are network calls. The supported extensions, the remote hash
  list and the per-file reply are inputs instead. `SetSupported` keeps only the
  local effect of `get_supported_types`.
- A malformed server response is not modelled. When the login or account-info
  reply has no `user`, the code's `raise ValueError(jsoned.message)`
  (ibroadcast-uploader.py:125, :168) fails on `.message` of the decoded dict and
  raises `AttributeError` instead. `process` catches only `ValueError`
  (:66-76), so neither "Login failed" nor "Unable to fetch account info" is
  printed and the run ends with that exception. Neither path is modelled.
- `__load_md5_int` and the `json.dump` of the cache are local file I/O. The
  stored cache is an input. The cache written back is the `md5Int` field after
  `CheckMd5`.
- `calcmd5`: the MD5 algorithm and the chunked file reads are the
  `contentHash` parameter, a function of the path.
- Uploading.Uploader.CheckMd5: `contentHash` never fails, but `calcmd5` opens
  the path as a file. A directory named like `x.mp3` is appended by discovery;
  when its path is not cached, or the cache is bypassed, `open` raises
  `IsADirectoryError`. Nothing catches it: the pass stops, the cache is not
  written back, no report is printed and the run ends with the uncaught
  exception. The model hashes such a path like a file, so `CheckMd5`,
  `PrepareUpload`, `Process`, `RunOf` and `RunAccounting` describe a run that
  completes where the program aborts.
  The same holds for an empty file list in the default mode, neither silent
  nor verbose: `check_md5` then iterates through `progressbar`, whose first
  step `show(0)` computes `size*j/count` with `count` 0
  (ibroadcast-uploader.py:336-342) and raises `ZeroDivisionError` before the
  first turn. Nothing catches it, so no hash is written back and no report is
  printed. The model has no silent or verbose flag and reports 0/0/0/0 for
  that run, as the program does only in its silent and verbose modes.
- `ThreadPoolExecutor` in `prepare_upload` runs the uploads concurrently.
  `PrepareUpload` runs them one after another in list order, so the order of
  the failed list under concurrency is not modelled. What a submitted upload
  raises is discarded, as in the code. The worker count is kept only as the
  range 1-6 that argparse enforces.
- `confirm` and `get_input` are interactive. Their answer is the `confirmed`
  parameter of `Process`.
- `progressbar`, every `print`, and the verbose and silent branches in
  `check_md5` are terminal output. Apart from the `ZeroDivisionError` on an
  empty file list described above, they do not change the lists, the cache
  or the report.
- argparse, `os.chdir` and `sys.tracebacklimit` are not modelled. The working
  directory is the constructor's `cwd`.
- `glob.glob` is replaced by the `listing` input:
  - its order is the listing order;
  - its own skipping of dot-files is not modelled, so the explicit hidden test alone filters them;
  - `glob.escape` is not modelled;
  - symbolic links and cycles are not modelled: the tree is finite.
- `os.path.isdir` is the entry's kind in the tree.
- Uploading.Uploader.LoadFiles: names in the listing are assumed non-empty and
  free of separators (`WellNamed`), as names handed out by a file system are.
- Before `get_supported_types`, `files` and the other lists are `None` in the
  code. The model starts them as empty lists. `load_files` raises before it
  touches them either way.
- Dedup.RemoveFirst: it requires the value to be in the list. Python's
  `list.remove` would raise; the pass only removes files that are still
  listed (`NextIsRemaining`).
- The tag and playlist fields of the upload request are not modelled, and
  neither is the file handle opened for the upload.
