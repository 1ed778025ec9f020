/** The uploader object: its lists and caches, file discovery, the
    deduplication pass, the upload step and the run that ties them together.
    Network, disk and terminal are replaced by inputs: the supported
    extensions, the directory listing, the stored cache, the remote hash
    list, the content hash of each path and the server's reply to each upload. */
module Uploading {
  import opened FileTree
  import opened Dedup
  import opened Report

  datatype Option<T> = None | Some(value: T)

  /** The exceptions the uploader raises. */
  datatype Error = ServerError(status: int) | ValueError(message: string)

  /** A call that returns normally, or raises. */
  datatype Outcome = Pass | Fail(error: Error)

  /** The report of a whole run, as a function of its inputs: discover the
      files under `cwd`, deduplicate them, upload what is left. The lists
      start empty, as the account-info step leaves them. */
  function RunOf(cwd: string, listing: seq<Entry>, supported: seq<string>, s: Settings,
                 stored: map<string, string>, reply: string -> Reply): RunReport
  {
    var found := Discover(cwd, listing, supported);
    var kept := Kept(s, stored, found);
    MakeReport(|found|, |Dropped(s, stored, found)|, |Rejected(kept, reply)|)
  }

  /** In a run the counts add up exactly: every discovered file is uploaded,
      skipped or failed, and the uploaded ones are the kept files whose upload
      did not come back with a false result. */
  lemma {:induction false} RunAccounting(cwd: string, listing: seq<Entry>, supported: seq<string>, s: Settings,
                                         stored: map<string, string>, reply: string -> Reply)
    ensures var r := RunOf(cwd, listing, supported, s, stored, reply);
      && r.uploaded + r.skipped + r.failed == r.total
      && r.total == |Discover(cwd, listing, supported)|
      && r.skipped == |Dropped(s, stored, Discover(cwd, listing, supported))|
      && r.uploaded == |NotRejected(Kept(s, stored, Discover(cwd, listing, supported)), reply)|
  {
    var found := Discover(cwd, listing, supported);
    var kept := Kept(s, stored, found);
    Partition(s, stored, found);
    RejectedSplit(kept, reply);
  }

  /** An upload that fails with a bad status raises an exception the worker
      pool drops, so it is neither recorded as failed nor kept out of the
      uploaded count: if every kept file gets a bad status, all of them are
      reported as uploaded. */
  lemma {:induction false} BadStatusCountedAsUploaded(cwd: string, listing: seq<Entry>, supported: seq<string>, s: Settings,
                                                      stored: map<string, string>, reply: string -> Reply)
    requires forall p :: p in Kept(s, stored, Discover(cwd, listing, supported)) ==> reply(p).BadStatus?
    ensures RunOf(cwd, listing, supported, s, stored, reply).failed == 0
    ensures RunOf(cwd, listing, supported, s, stored, reply).uploaded
         == |Kept(s, stored, Discover(cwd, listing, supported))|
  {
    var found := Discover(cwd, listing, supported);
    var kept := Kept(s, stored, found);
    Partition(s, stored, found);
    NothingRejected(kept, reply);
  }

  /** A run over files whose hashes are all remote already, as after a
      complete earlier upload, uploads nothing: every file is skipped. */
  lemma AlreadyUploadedRun(cwd: string, listing: seq<Entry>, supported: seq<string>, s: Settings,
                           stored: map<string, string>, reply: string -> Reply)
    requires !s.reupload
    requires forall p :: p in Discover(cwd, listing, supported) ==> Resolve(s, stored, p) in s.remote
    ensures var r := RunOf(cwd, listing, supported, s, stored, reply);
      r.uploaded == 0 && r.failed == 0 && r.skipped == r.total
  {
    AllRemote(s, stored, Discover(cwd, listing, supported));
  }

  /** The example run: a.mp3, b.flac, .hidden.mp3 and c.txt with .mp3 and
      .flac supported; a.mp3's hash is already remote and b.flac's upload is
      rejected. Discovery finds a.mp3 and b.flac; the report is 0/1/1/2. */
  lemma ExampleRun(h: string -> string, reply: string -> Reply)
    requires h("/music/a.mp3") != h("/music/b.flac")
    requires reply("/music/b.flac") == ResultFalse
    ensures Discover("/music", [File("a.mp3"), File("b.flac"), File(".hidden.mp3"), File("c.txt")],
                     [".mp3", ".flac"]) == ["/music/a.mp3", "/music/b.flac"]
    ensures RunOf("/music", [File("a.mp3"), File("b.flac"), File(".hidden.mp3"), File("c.txt")],
                  [".mp3", ".flac"], Settings(false, false, [h("/music/a.mp3")], h), map[], reply)
         == RunReport(0, 1, 1, 2)
  {
    ExampleDiscovery();
    ExampleDedup(h);
    ExampleUpload(reply);
  }

  /** In the example run, a.mp3 is skipped and b.flac kept. */
  lemma ExampleDedup(h: string -> string)
    requires h("/music/a.mp3") != h("/music/b.flac")
    ensures Kept(Settings(false, false, [h("/music/a.mp3")], h), map[], ["/music/a.mp3", "/music/b.flac"])
         == ["/music/b.flac"]
    ensures Dropped(Settings(false, false, [h("/music/a.mp3")], h), map[], ["/music/a.mp3", "/music/b.flac"])
         == ["/music/a.mp3"]
  {
    var a, b := "/music/a.mp3", "/music/b.flac";
    var s := Settings(false, false, [h(a)], h);
    assert [a, b][..1] == [a] && [a][..0] == [];
    assert Skips(s, map[], a);
    assert Step(s, map[], a) == map[a := h(a)];
    assert a != b;
    assert !Skips(s, map[a := h(a)], b);
  }

  /** In the example run, the upload of b.flac is rejected. */
  lemma ExampleUpload(reply: string -> Reply)
    requires reply("/music/b.flac") == ResultFalse
    ensures Rejected(["/music/b.flac"], reply) == ["/music/b.flac"]
  {
    assert ["/music/b.flac"][..0] == [];
  }

  /** The basename of a path the walk found, and when that is not hidden
      its splitext extension: for the path of `name` in `dir` these are the
      name itself and the suffix of the name from its last dot. */
  method NameAndExt(fullFilename: string, ghost dir: string, ghost name: string) returns (filename: string, ext: string)
    requires ValidName(name) && fullFilename == Join(dir, name)
    ensures filename == name
    ensures !Hidden(name) ==> ext == Ext(name)
  {
    BasenameOfJoin(dir, name);
    filename := Basename(fullFilename);
    ext := "";
    if !Hidden(filename) {
      SplitExtOfJoin(dir, name);
      ext := SplitExt(fullFilename);
    }
  }

  /** One turn of the loop in `load_files`: the entry just walked follows the
      files found for the entries before it. */
  lemma ListingStep(dir: string, listing: seq<Entry>, i: nat, supported: seq<string>,
                    start: seq<string>, mid: seq<string>, after: seq<string>)
    requires i < |listing|
    requires mid == start + Discover(dir, listing[..i], supported)
    requires after == mid + DiscoverEntry(dir, listing[i], supported)
    ensures after == start + Discover(dir, listing[..i + 1], supported)
  {
    DiscoverPrefixStep(dir, listing, i, supported);
    AppendAssoc(start, Discover(dir, listing[..i], supported), DiscoverEntry(dir, listing[i], supported));
  }

  /** The list after walking a visible entry: its own path when the name
      matches, then the walk of its children when it is a directory, is the
      list before with the entry's walk appended. */
  lemma VisibleEntryAppends(dir: string, e: Entry, supported: seq<string>,
                            before: seq<string>, own: seq<string>, after: seq<string>)
    requires !Hidden(e.name)
    requires own == before + (if Ext(e.name) in supported then [Join(dir, e.name)] else [])
    requires after == own + (if e.Dir? then Discover(Join(dir, e.name), e.children, supported) else [])
    ensures after == before + DiscoverEntry(dir, e, supported)
  {
    var head := own[|before|..];
    assert own == before + head;
    var inner := after[|own|..];
    assert after == own + inner;
    assert DiscoverEntry(dir, e, supported) == head + inner;
    AppendAssoc(before, head, inner);
  }

  /** Associativity of concatenation. Dafny knows it; stated as a lemma of its
      own so that the step is taken in a context free of the walk's
      definitions, where the solver finds it at once. */
  lemma AppendAssoc(a: seq<string>, b: seq<string>, c: seq<string>)
    ensures (a + b) + c == a + (b + c)
  {
  }

  class Uploader {
    /** The working directory the uploader was started in. */
    const cwd: AbsolutePath
    /** Ignore the stored hash cache and hash every file afresh. */
    const noCache: bool
    /** Upload files even when their hash is already remote. */
    const reupload: bool

    /** The supported extensions; None until the account info is fetched. */
    var supported: Option<seq<string>>
    /** The files to upload; the deduplication pass removes skipped ones. */
    var files: seq<string>
    var skippedFiles: seq<string>
    var failedFiles: seq<string>
    /** The local path-to-hash cache. */
    var md5Int: map<string, string>
    /** The hashes the remote store already holds. */
    var md5Ext: seq<string>

    constructor (cwd: AbsolutePath, noCache: bool, reupload: bool)
      ensures this.cwd == cwd && this.noCache == noCache && this.reupload == reupload
      ensures supported == None
      ensures files == [] && skippedFiles == [] && failedFiles == []
      ensures md5Int == map[] && md5Ext == []
    {
      this.cwd := cwd;
      this.noCache := noCache;
      this.reupload := reupload;
      supported := None;
      files, skippedFiles, failedFiles := [], [], [];
      md5Int, md5Ext := map[], [];
    }

    /** The local effect of fetching the account info: the supported
        extensions are set and the three file lists start empty. */
    method SetSupported(extensions: seq<string>)
      modifies this`supported, this`files, this`skippedFiles, this`failedFiles
      ensures supported == Some(extensions)
      ensures files == [] && skippedFiles == [] && failedFiles == []
    {
      var exts: seq<string> := [];
      files, skippedFiles, failedFiles := [], [], [];
      var i := 0;
      while i < |extensions|
        invariant 0 <= i <= |extensions|
        invariant exts == extensions[..i]
      {
        exts := exts + [extensions[i]];
        i := i + 1;
      }
      assert extensions[..|extensions|] == extensions;
      supported := Some(exts);
    }

    /** Walks `listing`, the contents of `directory` (the working directory
        when empty): each entry in turn is handled by LoadEntry. Without
        supported extensions it raises before touching the file list. */
    method LoadFiles(directory: string, listing: seq<Entry>) returns (r: Outcome)
      requires WellNamed(listing)
      modifies this`files
      ensures supported.None? ==> r.Fail? && r.error.ValueError? && files == old(files)
      ensures supported.Some? ==>
        r == Pass && files == old(files) + Discover(if directory == "" then cwd else directory, listing, supported.value)
      decreases listing, 1
    {
      if supported.None? {
        return Fail(ValueError("Supported not yet set - have you logged in yet?"));
      }
      var dir := if directory == "" then cwd else directory;
      ghost var sup := supported.value;
      var i := 0;
      while i < |listing|
        invariant 0 <= i <= |listing|
        invariant files == old(files) + Discover(dir, listing[..i], sup)
      {
        ghost var mid := files;
        LoadEntry(dir, listing[i]);
        ListingStep(dir, listing, i, sup, old(files), mid, files);
        i := i + 1;
      }
      assert listing[..|listing|] == listing;
      return Pass;
    }

    /** One entry of directory `dir`, found by its joined path: skipped when
        the basename is hidden; otherwise the path is appended when its
        splitext extension is supported, and it is walked when it is a
        directory. */
    method LoadEntry(dir: string, entry: Entry)
      requires supported.Some? && dir != ""
      requires ValidName(entry.name) && (entry.Dir? ==> WellNamed(entry.children))
      modifies this`files
      ensures files == old(files) + DiscoverEntry(dir, entry, supported.value)
      decreases entry, 0
    {
      var fullFilename := Join(dir, entry.name);
      var filename, ext := NameAndExt(fullFilename, dir, entry.name);
      if !Hidden(filename) {
        ghost var sup := supported.value;
        ghost var before := files;
        if ext in supported.value {
          files := files + [fullFilename];
        }
        ghost var own := files;
        if entry.Dir? {
          assert fullFilename != "";
          var _ := LoadFiles(fullFilename, entry.children);
        }
        VisibleEntryAppends(dir, entry, sup, before, own, files);
      }
    }

    /** The deduplication pass: resolves each listed file's hash from the
        stored cache or afresh (writing fresh ones back), and moves every file
        whose hash is already remote (unless reupload is forced) from the file
        list to the skipped list. */
    method CheckMd5(stored: map<string, string>, remote: seq<string>, contentHash: string -> string)
      modifies this`files, this`skippedFiles, this`md5Int, this`md5Ext
      ensures md5Ext == remote
      ensures md5Int == CacheAfter(Settings(noCache, reupload, remote, contentHash), stored, old(files))
      ensures files == Kept(Settings(noCache, reupload, remote, contentHash), stored, old(files))
      ensures skippedFiles
        == old(skippedFiles) + Dropped(Settings(noCache, reupload, remote, contentHash), stored, old(files))
    {
      var s := Settings(noCache, reupload, remote, contentHash);
      md5Int := stored;
      md5Ext := remote;
      var fileList := files;
      PassEnds(s, stored, fileList, md5Int, files, skippedFiles, skippedFiles);
      var i := 0;
      while i < |fileList|
        invariant md5Ext == remote
        invariant PassAt(s, stored, fileList, i, md5Int, files, old(skippedFiles), skippedFiles)
      {
        var filename := fileList[i];
        NextIsRemaining(s, stored, fileList, i, md5Int, files, old(skippedFiles), skippedFiles);
        ghost var cache, remaining, skipped := md5Int, files, skippedFiles;
        CheckFile(filename, contentHash);
        PassTurn(s, stored, fileList, i, cache, md5Int, remaining, files, old(skippedFiles), skipped, skippedFiles);
        i := i + 1;
      }
      PassEnds(s, stored, fileList, md5Int, files, old(skippedFiles), skippedFiles);
    }

    /** One turn of the deduplication pass, for `filename`: resolve its hash
        from the cache or afresh (writing a fresh one back), and if the hash is
        already remote and reupload is not forced, move the file from the file
        list to the skipped list. */
    method CheckFile(filename: string, contentHash: string -> string)
      requires filename in files
      modifies this`md5Int, this`files, this`skippedFiles
      ensures md5Int == Step(Settings(noCache, reupload, md5Ext, contentHash), old(md5Int), filename)
      ensures Skips(Settings(noCache, reupload, md5Ext, contentHash), old(md5Int), filename) ==>
        filename in old(files) && files == RemoveFirst(old(files), filename)
        && skippedFiles == old(skippedFiles) + [filename]
      ensures !Skips(Settings(noCache, reupload, md5Ext, contentHash), old(md5Int), filename) ==>
        files == old(files) && skippedFiles == old(skippedFiles)
    {
      var fileMd5;
      if !noCache && filename in md5Int {
        fileMd5 := md5Int[filename];
      } else {
        fileMd5 := contentHash(filename);
        md5Int := md5Int[filename := fileMd5];
      }
      if fileMd5 in md5Ext && !reupload {
        skippedFiles := skippedFiles + [filename];
        files := RemoveFirst(files, filename);
      }
    }

    /** One upload: a bad status raises a server error; a false result
        records the file as failed and raises; any other reply is success. */
    method Upload(filename: string, reply: Reply) returns (r: Outcome)
      modifies this`failedFiles
      ensures reply.BadStatus? ==> r == Fail(ServerError(reply.status)) && failedFiles == old(failedFiles)
      ensures reply == ResultFalse ==>
        r == Fail(ValueError("File upload failed.")) && failedFiles == old(failedFiles) + [filename]
      ensures reply == ResultOther ==> r == Pass && failedFiles == old(failedFiles)
    {
      if reply.BadStatus? {
        return Fail(ServerError(reply.status));
      }
      if reply == ResultFalse {
        failedFiles := failedFiles + [filename];
        return Fail(ValueError("File upload failed."));
      }
      return Pass;
    }

    /** Counts the files, runs the deduplication pass, uploads every
        remaining file (one after the other; what an upload raises is
        dropped), and reports uploaded/skipped/failed/total, where total is
        the count taken before deduplication. */
    method PrepareUpload(threads: int, stored: map<string, string>, remote: seq<string>,
                         contentHash: string -> string, reply: string -> Reply) returns (report: RunReport)
      requires 1 <= threads <= 6
      modifies this`files, this`skippedFiles, this`failedFiles, this`md5Int, this`md5Ext
      ensures md5Ext == remote
      ensures md5Int == CacheAfter(Settings(noCache, reupload, remote, contentHash), stored, old(files))
      ensures files == Kept(Settings(noCache, reupload, remote, contentHash), stored, old(files))
      ensures skippedFiles
        == old(skippedFiles) + Dropped(Settings(noCache, reupload, remote, contentHash), stored, old(files))
      ensures failedFiles == old(failedFiles) + Rejected(files, reply)
      ensures report == MakeReport(|old(files)|, |skippedFiles|, |failedFiles|)
    {
      var totalFiles := |files|;
      CheckMd5(stored, remote, contentHash);
      var notSkippedFiles := |files|;
      if notSkippedFiles > 0 {
        var i := 0;
        while i < notSkippedFiles
          invariant 0 <= i <= notSkippedFiles == |files|
          invariant files == old(Kept(Settings(noCache, reupload, remote, contentHash), stored, files))
          invariant md5Ext == remote
          invariant md5Int == CacheAfter(Settings(noCache, reupload, remote, contentHash), stored, old(files))
          invariant skippedFiles
            == old(skippedFiles) + Dropped(Settings(noCache, reupload, remote, contentHash), stored, old(files))
          invariant failedFiles == old(failedFiles) + Rejected(files[..i], reply)
        {
          assert files[..i + 1][..i] == files[..i];
          var _ := Upload(files[i], reply(files[i]));
          i := i + 1;
        }
        assert files[..notSkippedFiles] == files;
      }
      var skipped := |skippedFiles|;
      var failed := |failedFiles|;
      report := MakeReport(totalFiles, skipped, failed);
    }

    /** A whole run after login: fetch the account info (the supported
        extensions), build the file list from the working directory, and if
        the user confirms, deduplicate and upload. */
    method Process(extensions: seq<string>, listing: seq<Entry>, confirmed: bool, threads: int,
                   stored: map<string, string>, remote: seq<string>,
                   contentHash: string -> string, reply: string -> Reply) returns (report: Option<RunReport>)
      requires WellNamed(listing)
      requires 1 <= threads <= 6
      modifies this`supported, this`files, this`skippedFiles, this`failedFiles, this`md5Int, this`md5Ext
      ensures supported == Some(extensions)
      ensures !confirmed ==>
        && report == None
        && files == Discover(cwd, listing, extensions)
        && skippedFiles == [] && failedFiles == []
        && md5Int == old(md5Int) && md5Ext == old(md5Ext)
      ensures confirmed ==>
        var s := Settings(noCache, reupload, remote, contentHash);
        var found := Discover(cwd, listing, extensions);
        && report == Some(RunOf(cwd, listing, extensions, s, stored, reply))
        && md5Ext == remote
        && md5Int == CacheAfter(s, stored, found)
        && files == Kept(s, stored, found)
        && skippedFiles == Dropped(s, stored, found)
        && failedFiles == Rejected(Kept(s, stored, found), reply)
    {
      SetSupported(extensions);
      var _ := LoadFiles("", listing);
      ghost var found := Discover(cwd, listing, extensions);
      assert files == found;
      if confirmed {
        ghost var s := Settings(noCache, reupload, remote, contentHash);
        var r := PrepareUpload(threads, stored, remote, contentHash, reply);
        assert skippedFiles == Dropped(s, stored, found);
        assert failedFiles == Rejected(Kept(s, stored, found), reply);
        report := Some(r);
      } else {
        report := None;
      }
    }
  }
}
