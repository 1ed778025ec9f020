/** Deduplication against the remote hash list: how the pass resolves a
    path's hash (cache or fresh computation), how it updates the local cache,
    and which files it keeps for upload and which it skips. */
module Dedup {

  /** What the pass decides with, besides the cache: the cache-bypass flag,
      the forced-reupload flag, the remote hash list, and the content hash of
      each path (an uninterpreted function: file contents are not modelled). */
  datatype Settings = Settings(
    noCache: bool,
    reupload: bool,
    remote: seq<string>,
    contentHash: string -> string)

  /** The hash the pass uses for path `p` when the cache is `c`: the cached
      value unless the cache is bypassed or has no entry, else a fresh one. */
  function Resolve(s: Settings, c: map<string, string>, p: string): string
  {
    if !s.noCache && p in c then c[p] else s.contentHash(p)
  }

  /** The cache after the pass resolved `p`: a fresh hash is written back. */
  function Step(s: Settings, c: map<string, string>, p: string): map<string, string>
  {
    if !s.noCache && p in c then c else c[p := s.contentHash(p)]
  }

  /** The cache after the pass resolved every path of `files`, in order. */
  function CacheAfter(s: Settings, c: map<string, string>, files: seq<string>): map<string, string>
    decreases |files|
  {
    if files == [] then c
    else Step(s, CacheAfter(s, c, files[..|files| - 1]), files[|files| - 1])
  }

  /** The pass skips `p`: its hash is already remote and reupload is not forced. */
  predicate Skips(s: Settings, c: map<string, string>, p: string)
  {
    Resolve(s, c, p) in s.remote && !s.reupload
  }

  /** The files the pass keeps for upload, in their original order. */
  function Kept(s: Settings, c: map<string, string>, files: seq<string>): seq<string>
    decreases |files|
  {
    if files == [] then []
    else
      var init, last := files[..|files| - 1], files[|files| - 1];
      assert files == init + [last];
      Kept(s, c, init) + (if Skips(s, c, last) then [] else [last])
  }

  /** The files the pass skips, in their original order. */
  function Dropped(s: Settings, c: map<string, string>, files: seq<string>): seq<string>
    decreases |files|
  {
    if files == [] then []
    else
      var init, last := files[..|files| - 1], files[|files| - 1];
      assert files == init + [last];
      Dropped(s, c, init) + (if Skips(s, c, last) then [last] else [])
  }

  /** After the pass every visited path has a cache entry holding the hash it
      resolved to; an entry for a path not visited keeps its prior value; and
      no other key appears. */
  lemma {:induction false} CacheCoverageAndFrame(s: Settings, c: map<string, string>, files: seq<string>, p: string)
    ensures p in CacheAfter(s, c, files) <==> p in c || p in files
    ensures p in files ==> CacheAfter(s, c, files)[p] == Resolve(s, c, p)
    ensures p !in files && p in c ==> CacheAfter(s, c, files)[p] == c[p]
    decreases |files|
  {
    if files != [] {
      var init, last := files[..|files| - 1], files[|files| - 1];
      assert files == init + [last];
      CacheCoverageAndFrame(s, c, init, p);
      if p != last {
        CacheCoverageAndFrame(s, c, init, last);
      }
    }
  }

  /** A cache hit keeps the cached value; a bypassed or missing entry is set
      to the freshly computed hash. */
  lemma {:induction false} CacheHitOrFresh(s: Settings, c: map<string, string>, files: seq<string>, p: string)
    requires p in files
    ensures p in CacheAfter(s, c, files)
    ensures !s.noCache && p in c ==> CacheAfter(s, c, files)[p] == c[p]
    ensures s.noCache || p !in c ==> CacheAfter(s, c, files)[p] == s.contentHash(p)
  {
    CacheCoverageAndFrame(s, c, files, p);
  }

  /** The pass never changes the hash any path resolves to: resolving against
      the updated cache gives what resolving against the original cache gave. */
  lemma {:induction false} ResolveStable(s: Settings, c: map<string, string>, files: seq<string>, p: string)
    ensures Resolve(s, CacheAfter(s, c, files), p) == Resolve(s, c, p)
  {
    CacheCoverageAndFrame(s, c, files, p);
  }

  /** Kept and Dropped split the files: a file is kept exactly when it is not
      skipped and dropped exactly when it is, together they hold each file as
      often as the list did, and no file is in both. */
  lemma Partition(s: Settings, c: map<string, string>, files: seq<string>)
    ensures forall p :: p in Kept(s, c, files) <==> p in files && !Skips(s, c, p)
    ensures forall p :: p in Dropped(s, c, files) <==> p in files && Skips(s, c, p)
    ensures multiset(Kept(s, c, files)) + multiset(Dropped(s, c, files)) == multiset(files)
    ensures |Kept(s, c, files)| + |Dropped(s, c, files)| == |files|
    ensures forall p :: !(p in Kept(s, c, files) && p in Dropped(s, c, files))
  {
    KeptMembers(s, c, files);
    DroppedMembers(s, c, files);
    PartitionCounts(s, c, files);
    assert |multiset(Kept(s, c, files))| + |multiset(Dropped(s, c, files))| == |multiset(files)|;
  }

  /** A file is kept exactly when it is in the list and not skipped. */
  lemma {:induction false} KeptMembers(s: Settings, c: map<string, string>, files: seq<string>)
    ensures forall p :: p in Kept(s, c, files) <==> p in files && !Skips(s, c, p)
    decreases |files|
  {
    if files != [] {
      var init, last := files[..|files| - 1], files[|files| - 1];
      assert files == init + [last];
      Snoc(s, c, init, last);
      KeptMembers(s, c, init);
    }
  }

  /** A file is dropped exactly when it is in the list and skipped. */
  lemma {:induction false} DroppedMembers(s: Settings, c: map<string, string>, files: seq<string>)
    ensures forall p :: p in Dropped(s, c, files) <==> p in files && Skips(s, c, p)
    decreases |files|
  {
    if files != [] {
      var init, last := files[..|files| - 1], files[|files| - 1];
      assert files == init + [last];
      Snoc(s, c, init, last);
      DroppedMembers(s, c, init);
    }
  }

  /** Kept and Dropped together hold each file as often as the list does. */
  lemma {:induction false} PartitionCounts(s: Settings, c: map<string, string>, files: seq<string>)
    ensures multiset(Kept(s, c, files)) + multiset(Dropped(s, c, files)) == multiset(files)
    decreases |files|
  {
    if files != [] {
      var init, last := files[..|files| - 1], files[|files| - 1];
      assert files == init + [last];
      Snoc(s, c, init, last);
      PartitionCounts(s, c, init);
    }
  }

  /** The kept list keeps the original order: filtering a concatenation
      filters each part and concatenates the results. */
  lemma {:induction false} KeptAppend(s: Settings, c: map<string, string>, a: seq<string>, b: seq<string>)
    ensures Kept(s, c, a + b) == Kept(s, c, a) + Kept(s, c, b)
    decreases |b|
  {
    if b == [] {
      assert a + b == a;
    } else {
      var init, last := b[..|b| - 1], b[|b| - 1];
      var ab := a + b;
      assert ab[..|ab| - 1] == a + init;
      assert ab[|ab| - 1] == last;
      KeptAppend(s, c, a, init);
      if Skips(s, c, last) {
        assert Kept(s, c, ab) == Kept(s, c, a + init);
        assert Kept(s, c, b) == Kept(s, c, init);
      } else {
        assert Kept(s, c, ab) == Kept(s, c, a + init) + [last];
        assert Kept(s, c, b) == Kept(s, c, init) + [last];
      }
    }
  }

  /** The skipped list keeps the original order, in the same sense. */
  lemma {:induction false} DroppedAppend(s: Settings, c: map<string, string>, a: seq<string>, b: seq<string>)
    ensures Dropped(s, c, a + b) == Dropped(s, c, a) + Dropped(s, c, b)
    decreases |b|
  {
    if b == [] {
      assert a + b == a;
    } else {
      var init, last := b[..|b| - 1], b[|b| - 1];
      var ab := a + b;
      assert ab[..|ab| - 1] == a + init;
      DroppedAppend(s, c, a, init);
    }
  }

  /** With reupload forced nothing is skipped: the kept list is the input. */
  lemma {:induction false} ForcedReupload(s: Settings, c: map<string, string>, files: seq<string>)
    requires s.reupload
    ensures Kept(s, c, files) == files
    ensures Dropped(s, c, files) == []
    decreases |files|
  {
    if files != [] {
      var init, last := files[..|files| - 1], files[|files| - 1];
      assert files == init + [last];
      ForcedReupload(s, c, init);
    }
  }

  /** When every file's hash is already remote and reupload is not forced,
      every file is skipped. */
  lemma {:induction false} AllRemote(s: Settings, c: map<string, string>, files: seq<string>)
    requires !s.reupload
    requires forall p :: p in files ==> Resolve(s, c, p) in s.remote
    ensures Kept(s, c, files) == []
    ensures Dropped(s, c, files) == files
    decreases |files|
  {
    if files != [] {
      var init, last := files[..|files| - 1], files[|files| - 1];
      assert files == init + [last];
      AllRemote(s, c, init);
    }
  }

  /** A second pass over the kept files, with the cache the first pass left
      behind, keeps them all and writes nothing new into the cache. */
  lemma DedupIdempotent(s: Settings, c: map<string, string>, files: seq<string>)
    ensures Kept(s, CacheAfter(s, c, files), Kept(s, c, files)) == Kept(s, c, files)
    ensures Dropped(s, CacheAfter(s, c, files), Kept(s, c, files)) == []
    ensures CacheAfter(s, CacheAfter(s, c, files), Kept(s, c, files)) == CacheAfter(s, c, files)
  {
    var c' := CacheAfter(s, c, files);
    var k := Kept(s, c, files);
    Partition(s, c, files);
    forall p | p in k ensures Resolve(s, c', p) == Resolve(s, c, p) && !Skips(s, c, p) {
      ResolveStable(s, c, files, p);
    }
    SecondPassKeeps(s, c, c', k);
    SecondPassCache(s, c, files, k);
  }

  lemma {:induction false} SecondPassKeeps(s: Settings, c: map<string, string>, c': map<string, string>, k: seq<string>)
    requires forall p :: p in k ==> Resolve(s, c', p) == Resolve(s, c, p) && !Skips(s, c, p)
    ensures Kept(s, c', k) == k
    ensures Dropped(s, c', k) == []
    decreases |k|
  {
    if k != [] {
      var init, last := k[..|k| - 1], k[|k| - 1];
      assert k == init + [last];
      SecondPassKeeps(s, c, c', init);
    }
  }

  lemma {:induction false} SecondPassCache(s: Settings, c: map<string, string>, files: seq<string>, k: seq<string>)
    requires forall p :: p in k ==> p in files
    ensures CacheAfter(s, CacheAfter(s, c, files), k) == CacheAfter(s, c, files)
    decreases |k|
  {
    if k != [] {
      var c' := CacheAfter(s, c, files);
      var init, last := k[..|k| - 1], k[|k| - 1];
      assert k == init + [last];
      SecondPassCache(s, c, files, init);
      CacheCoverageAndFrame(s, c, files, last);
      assert Step(s, c', last) == c';
    }
  }

  /** Extending the visited list by one path extends the kept list, the
      skipped list and the cache by that path's outcome alone. */
  lemma Snoc(s: Settings, c: map<string, string>, xs: seq<string>, p: string)
    ensures Kept(s, c, xs + [p]) == Kept(s, c, xs) + (if Skips(s, c, p) then [] else [p])
    ensures Dropped(s, c, xs + [p]) == Dropped(s, c, xs) + (if Skips(s, c, p) then [p] else [])
    ensures CacheAfter(s, c, xs + [p]) == Step(s, CacheAfter(s, c, xs), p)
  {
    var ys := xs + [p];
    assert ys[..|ys| - 1] == xs;
    assert ys[|ys| - 1] == p;
  }

  /** A skipped path never appears in the kept list. */
  lemma {:induction false} KeptOmitsSkipped(s: Settings, c: map<string, string>, files: seq<string>, p: string)
    requires Skips(s, c, p)
    ensures p !in Kept(s, c, files)
    decreases |files|
  {
    if files != [] {
      var init, last := files[..|files| - 1], files[|files| - 1];
      assert files == init + [last];
      Snoc(s, c, init, last);
      KeptOmitsSkipped(s, c, init, p);
    }
  }

  /** The state of the pass over `files` after its first `i` turns: the
      cache, the remaining file list and the skipped list, which started as
      `before`. */
  ghost predicate PassAt(s: Settings, c: map<string, string>, files: seq<string>, i: nat,
                         cache: map<string, string>, remaining: seq<string>,
                         before: seq<string>, skipped: seq<string>)
  {
    && i <= |files|
    && cache == CacheAfter(s, c, files[..i])
    && remaining == Kept(s, c, files[..i]) + files[i..]
    && skipped == before + Dropped(s, c, files[..i])
  }

  /** One turn of the pass over `files`, at index `i`: from the state after
      `i` files and one turn's update in terms of the current cache, the
      state after `i + 1` files follows. */
  lemma PassTurn(s: Settings, c: map<string, string>, files: seq<string>, i: nat,
                 cache: map<string, string>, cache': map<string, string>,
                 remaining: seq<string>, remaining': seq<string>,
                 before: seq<string>, skipped: seq<string>, skipped': seq<string>)
    requires i < |files| && PassAt(s, c, files, i, cache, remaining, before, skipped)
    requires cache' == Step(s, cache, files[i])
    requires Skips(s, cache, files[i]) ==>
      files[i] in remaining && remaining' == RemoveFirst(remaining, files[i]) && skipped' == skipped + [files[i]]
    requires !Skips(s, cache, files[i]) ==> remaining' == remaining && skipped' == skipped
    ensures PassAt(s, c, files, i + 1, cache', remaining', before, skipped')
  {
    PassStepCache(s, c, files, i);
    if Skips(s, c, files[i]) {
      PassStepSkip(s, c, files, i, before);
    } else {
      PassStepKeep(s, c, files, i);
    }
  }

  /** The pass starts with the stored cache, the whole list and the skipped
      list as it was, and after its last turn holds the kept files. */
  lemma PassEnds(s: Settings, c: map<string, string>, files: seq<string>,
                 cache: map<string, string>, remaining: seq<string>,
                 before: seq<string>, skipped: seq<string>)
    ensures PassAt(s, c, files, 0, c, files, before, before)
    ensures PassAt(s, c, files, |files|, cache, remaining, before, skipped) ==>
      cache == CacheAfter(s, c, files) && remaining == Kept(s, c, files)
      && skipped == before + Dropped(s, c, files)
  {
    assert files[..0] == [] && files[0..] == files;
    assert files[..|files|] == files && files[|files|..] == [];
  }

  /** In the state after `i` turns, the next file is still in the remaining list. */
  lemma NextIsRemaining(s: Settings, c: map<string, string>, files: seq<string>, i: nat,
                        cache: map<string, string>, remaining: seq<string>,
                        before: seq<string>, skipped: seq<string>)
    requires i < |files| && PassAt(s, c, files, i, cache, remaining, before, skipped)
    ensures files[i] in remaining
  {
    assert remaining[|Kept(s, c, files[..i])|] == files[i];
  }

  /** One turn of the pass over `files`, at index `i`, for the cache: the
      hash resolved against the cache so far is the hash resolved against the
      original cache, and the cache moves on by one step. */
  lemma PassStepCache(s: Settings, c: map<string, string>, files: seq<string>, i: nat)
    requires i < |files|
    ensures CacheAfter(s, c, files[..i + 1]) == Step(s, CacheAfter(s, c, files[..i]), files[i])
    ensures Resolve(s, CacheAfter(s, c, files[..i]), files[i]) == Resolve(s, c, files[i])
  {
    assert files[..i + 1] == files[..i] + [files[i]];
    Snoc(s, c, files[..i], files[i]);
    ResolveStable(s, c, files[..i], files[i]);
  }

  /** One turn of the pass, for a file it skips: the file is removed from the
      remaining list and added to the skipped list. */
  lemma PassStepSkip(s: Settings, c: map<string, string>, files: seq<string>, i: nat, before: seq<string>)
    requires i < |files| && Skips(s, c, files[i])
    ensures RemoveFirst(Kept(s, c, files[..i]) + files[i..], files[i]) == Kept(s, c, files[..i + 1]) + files[i + 1..]
    ensures before + Dropped(s, c, files[..i]) + [files[i]] == before + Dropped(s, c, files[..i + 1])
  {
    var done, p, rest := files[..i], files[i], files[i + 1..];
    assert files[..i + 1] == done + [p];
    assert files[i..] == [p] + rest;
    Snoc(s, c, done, p);
    var k := Kept(s, c, done);
    KeptOmitsSkipped(s, c, done, p);
    assert k + files[i..] == k + [p] + rest;
    RemoveFirstAfter(k, p, rest);
  }

  /** One turn of the pass, for a file it keeps: the remaining list is
      unchanged and so is the skipped list. */
  lemma PassStepKeep(s: Settings, c: map<string, string>, files: seq<string>, i: nat)
    requires i < |files| && !Skips(s, c, files[i])
    ensures Kept(s, c, files[..i]) + files[i..] == Kept(s, c, files[..i + 1]) + files[i + 1..]
    ensures Dropped(s, c, files[..i + 1]) == Dropped(s, c, files[..i])
  {
    var done, p, rest := files[..i], files[i], files[i + 1..];
    assert files[..i + 1] == done + [p];
    assert files[i..] == [p] + rest;
    Snoc(s, c, done, p);
  }

  /** Python's list.remove: drop the first occurrence of `x`. */
  function RemoveFirst(xs: seq<string>, x: string): seq<string>
    requires x in xs
    decreases |xs|
  {
    if xs[0] == x then xs[1..] else [xs[0]] + RemoveFirst(xs[1..], x)
  }

  /** Removing takes out exactly one occurrence of `x` and nothing else. */
  lemma {:induction false} RemoveFirstOne(xs: seq<string>, x: string)
    requires x in xs
    ensures |RemoveFirst(xs, x)| == |xs| - 1
    ensures multiset(RemoveFirst(xs, x)) == multiset(xs) - multiset{x}
    decreases |xs|
  {
    assert xs == [xs[0]] + xs[1..];
    if xs[0] != x {
      RemoveFirstOne(xs[1..], x);
    }
  }

  /** Removing `x` from a list whose first occurrence of `x` follows prefix
      `a` takes out exactly that occurrence. */
  lemma {:induction false} RemoveFirstAfter(a: seq<string>, x: string, b: seq<string>)
    requires x !in a
    ensures RemoveFirst(a + [x] + b, x) == a + b
    decreases |a|
  {
    if a != [] {
      assert (a + [x] + b)[0] == a[0];
      assert (a + [x] + b)[1..] == a[1..] + [x] + b;
      RemoveFirstAfter(a[1..], x, b);
      assert a + b == [a[0]] + (a[1..] + b);
    }
  }
}
