/** File discovery: the directory tree the uploader walks, the path helpers it
    uses on every entry (basename, extension, join), and the order and
    filtering of the walk as a specification function. */
module FileTree {

  /** An absolute path, as the working directory always is. */
  type AbsolutePath = p: string | |p| > 0 && p[0] == '/' witness "/"

  /** One entry of a directory listing, in the order the listing returns it. */
  datatype Entry = File(name: string) | Dir(name: string, children: seq<Entry>)

  /** True for a name the walk skips: it starts with a dot. */
  predicate Hidden(name: string)
  {
    |name| > 0 && name[0] == '.'
  }

  /** A name as a file system hands it out: not empty and without the separator. */
  predicate ValidName(name: string)
  {
    name != [] && '/' !in name
  }

  /** Every name in the listing, at every depth, is a valid name. */
  predicate WellNamed(listing: seq<Entry>)
    decreases listing
  {
    forall i :: 0 <= i < |listing| ==>
      ValidName(listing[i].name) && (listing[i].Dir? ==> WellNamed(listing[i].children))
  }

  /** Joins a directory and a relative name with one separator between them,
      as posixpath.join does when the name does not start with a separator. */
  function Join(dir: string, name: string): (p: string)
    ensures dir != [] || name != [] ==> p != []
  {
    if dir == [] || dir[|dir| - 1] == '/' then dir + name else dir + "/" + name
  }

  /** The part of a path after its last separator (posixpath.basename). */
  function Basename(path: string): (b: string)
    ensures '/' !in b
    ensures |b| <= |path| && b == path[|path| - |b|..]
    ensures |b| < |path| ==> path[|path| - |b| - 1] == '/'
  {
    if path == [] then []
    else if path[|path| - 1] == '/' then []
    else Basename(path[..|path| - 1]) + [path[|path| - 1]]
  }

  /** The name without its leading dots. */
  function StripLeadingDots(s: string): (r: string)
    ensures |r| <= |s| && r == s[|s| - |r|..]
    ensures r == [] || r[0] != '.'
    ensures forall k :: 0 <= k < |s| - |r| ==> s[k] == '.'
  {
    if s != [] && s[0] == '.' then StripLeadingDots(s[1..]) else s
  }

  /** The suffix of a name from its last dot, or "" when it has no dot. */
  function Ext(s: string): string
  {
    if s == [] then []
    else if s[|s| - 1] == '.' then ['.']
    else
      var e := Ext(s[..|s| - 1]);
      if e == [] then [] else e + [s[|s| - 1]]
  }

  /** Ext gives the suffix that starts at the last dot: empty exactly when
      there is no dot, otherwise a dot followed by no further dot. */
  lemma ExtIsLastDotSuffix(s: string)
    ensures |Ext(s)| <= |s| && Ext(s) == s[|s| - |Ext(s)|..]
    ensures Ext(s) == [] <==> '.' !in s
    ensures Ext(s) != [] ==> Ext(s)[0] == '.' && '.' !in Ext(s)[1..]
  {
    ExtIsSuffix(s);
    ExtEmptyWithoutDot(s);
    ExtFromLastDot(s);
  }

  /** The extension is a suffix of the name. */
  lemma {:induction false} ExtIsSuffix(s: string)
    ensures |Ext(s)| <= |s| && Ext(s) == s[|s| - |Ext(s)|..]
    decreases |s|
  {
    if s != [] && s[|s| - 1] != '.' {
      var init, c := s[..|s| - 1], s[|s| - 1];
      ExtIsSuffix(init);
      if Ext(init) != [] {
        assert Ext(s) == Ext(init) + [c];
        assert s == init + [c];
        SuffixSnoc(init, c, |Ext(init)|);
      }
    }
  }

  /** The suffix of length `k + 1` of `init + [c]` is the suffix of length `k` of `init`, then `c`. */
  lemma SuffixSnoc(init: string, c: char, k: nat)
    requires k <= |init|
    ensures (init + [c])[|init| - k..] == init[|init| - k..] + [c]
  {
  }

  /** The extension is empty exactly when the name has no dot. */
  lemma {:induction false} ExtEmptyWithoutDot(s: string)
    ensures Ext(s) == [] <==> '.' !in s
    decreases |s|
  {
    if s != [] && s[|s| - 1] != '.' {
      var init, c := s[..|s| - 1], s[|s| - 1];
      ExtEmptyWithoutDot(init);
      assert s == init + [c];
      assert '.' in s <==> '.' in init;
    }
  }

  /** A non-empty extension is a dot followed by no further dot. */
  lemma {:induction false} ExtFromLastDot(s: string)
    ensures Ext(s) != [] ==> Ext(s)[0] == '.' && '.' !in Ext(s)[1..]
    decreases |s|
  {
    if s != [] && s[|s| - 1] != '.' {
      var init, c := s[..|s| - 1], s[|s| - 1];
      ExtFromLastDot(init);
      if Ext(init) != [] {
        var e := Ext(init);
        assert Ext(s) == e + [c];
        assert (e + [c])[0] == e[0];
        assert (e + [c])[1..] == e[1..] + [c];
      }
    }
  }

  /** The extension of a name is the part from its last dot. */
  lemma {:induction false} ExtAfterLastDot(stem: string, tail: string)
    requires '.' !in tail
    ensures Ext(stem + "." + tail) == "." + tail
    decreases |tail|
  {
    if tail != [] {
      var init := tail[..|tail| - 1];
      assert (stem + "." + tail)[..|stem + "." + tail| - 1] == stem + "." + init;
      assert tail == init + [tail[|tail| - 1]];
      ExtAfterLastDot(stem, init);
    }
  }

  /** The extension posixpath.splitext reports for a path: the suffix of the
      basename from its last dot, where dots leading the basename do not count. */
  function SplitExt(path: string): string
  {
    Ext(StripLeadingDots(Basename(path)))
  }

  /** The basename of a path whose prefix ends in a separator is what
      follows that prefix. */
  lemma {:induction false} BasenameAfterSeparator(a: string, n: string)
    requires a == [] || a[|a| - 1] == '/'
    requires '/' !in n
    ensures Basename(a + n) == n
    decreases |n|
  {
    if n == [] {
      assert a + n == a;
    } else {
      var n', c := n[..|n| - 1], n[|n| - 1];
      assert n == n' + [c];
      assert a + n == (a + n') + [c];
      assert c != '/';
      BasenameAfterSeparator(a, n');
      BasenameSnoc(a + n', c);
    }
  }

  /** A character other than the separator extends the basename. */
  lemma BasenameSnoc(path: string, c: char)
    requires c != '/'
    ensures Basename(path + [c]) == Basename(path) + [c]
  {
    assert (path + [c])[..|path + [c]| - 1] == path;
  }

  /** The basename of a joined path is the name that was joined. */
  lemma BasenameOfJoin(dir: string, name: string)
    requires '/' !in name
    ensures Basename(Join(dir, name)) == name
  {
    if dir == [] || dir[|dir| - 1] == '/' {
      BasenameAfterSeparator(dir, name);
    } else {
      assert dir + "/" + name == (dir + "/") + name;
      BasenameAfterSeparator(dir + "/", name);
    }
  }

  /** For a name that is not hidden, splitext of the joined path is the
      extension of the name itself. */
  lemma SplitExtOfJoin(dir: string, name: string)
    requires '/' !in name && !Hidden(name)
    ensures SplitExt(Join(dir, name)) == Ext(name)
  {
    BasenameOfJoin(dir, name);
  }

  /** The paths the walk appends for one listing of directory `dir`, in order:
      each entry in turn, a directory's own path (when its name matches)
      before the paths found inside it. */
  function Discover(dir: string, listing: seq<Entry>, supported: seq<string>): seq<string>
    decreases listing
  {
    if listing == [] then []
    else DiscoverEntry(dir, listing[0], supported) + Discover(dir, listing[1..], supported)
  }

  /** The paths the walk appends for one entry of directory `dir`. The
      extension test comes first and does not look at the kind of the entry. */
  function DiscoverEntry(dir: string, e: Entry, supported: seq<string>): seq<string>
    decreases e
  {
    if Hidden(e.name) then []
    else
      var path := Join(dir, e.name);
      (if Ext(e.name) in supported then [path] else [])
      + (if e.Dir? then Discover(path, e.children, supported) else [])
  }

  /** The walk of two listings one after the other appends the walk of the
      first, then the walk of the second: the walk keeps listing order. */
  lemma {:induction false} DiscoverAppend(dir: string, l1: seq<Entry>, l2: seq<Entry>, supported: seq<string>)
    ensures Discover(dir, l1 + l2, supported) == Discover(dir, l1, supported) + Discover(dir, l2, supported)
    decreases l1
  {
    if l1 == [] {
      assert l1 + l2 == l2;
    } else {
      assert (l1 + l2)[0] == l1[0];
      assert (l1 + l2)[1..] == l1[1..] + l2;
      DiscoverAppend(dir, l1[1..], l2, supported);
    }
  }

  /** Walking the first `i + 1` entries appends what walking the first `i`
      appends, then what the entry at `i` adds. */
  lemma DiscoverPrefixStep(dir: string, listing: seq<Entry>, i: nat, supported: seq<string>)
    requires i < |listing|
    ensures Discover(dir, listing[..i + 1], supported)
      == Discover(dir, listing[..i], supported) + DiscoverEntry(dir, listing[i], supported)
  {
    assert listing[..i + 1] == listing[..i] + [listing[i]];
    DiscoverAppend(dir, listing[..i], [listing[i]], supported);
    assert [listing[i]][1..] == [];
  }

  /** Every path the walk appends has a basename that is not hidden and whose
      splitext extension is a supported one. */
  lemma {:induction false} DiscoverFilter(dir: string, listing: seq<Entry>, supported: seq<string>)
    requires WellNamed(listing)
    ensures forall p :: p in Discover(dir, listing, supported) ==>
      !Hidden(Basename(p)) && SplitExt(p) in supported
    decreases listing
  {
    if listing != [] {
      assert WellNamed(listing[1..]) by {
        forall i | 0 <= i < |listing[1..]|
          ensures ValidName(listing[1..][i].name)
            && (listing[1..][i].Dir? ==> WellNamed(listing[1..][i].children))
        {
          assert listing[1..][i] == listing[i + 1];
        }
      }
      DiscoverEntryFilter(dir, listing[0], supported);
      DiscoverFilter(dir, listing[1..], supported);
    }
  }

  lemma {:induction false} DiscoverEntryFilter(dir: string, e: Entry, supported: seq<string>)
    requires ValidName(e.name) && (e.Dir? ==> WellNamed(e.children))
    ensures forall p :: p in DiscoverEntry(dir, e, supported) ==>
      !Hidden(Basename(p)) && SplitExt(p) in supported
    decreases e
  {
    if !Hidden(e.name) {
      var path := Join(dir, e.name);
      if e.Dir? {
        DiscoverFilter(path, e.children, supported);
      }
      forall p | p in DiscoverEntry(dir, e, supported)
        ensures !Hidden(Basename(p)) && SplitExt(p) in supported
      {
        if e.File? || p !in Discover(path, e.children, supported) {
          assert p == path && Ext(e.name) in supported;
          BasenameOfJoin(dir, e.name);
          SplitExtOfJoin(dir, e.name);
        }
      }
    }
  }

  /** `names` spells a route from entry `e` downwards: its first name is the
      name of `e`, and the rest is a route through the children of `e`. */
  ghost predicate EntryRoute(e: Entry, names: seq<string>)
    decreases e
  {
    && |names| > 0
    && names[0] == e.name
    && (|names| > 1 ==> e.Dir? && Route(e.children, names[1..]))
  }

  /** `names` spells a route that starts at some entry of the listing. */
  ghost predicate Route(listing: seq<Entry>, names: seq<string>)
    decreases listing
  {
    exists i :: 0 <= i < |listing| && EntryRoute(listing[i], names)
  }

  /** No name on the route is hidden: the route never enters a hidden directory. */
  predicate Visible(names: seq<string>)
  {
    forall k :: 0 <= k < |names| ==> !Hidden(names[k])
  }

  /** The path of a route below directory `dir`. */
  function JoinAll(dir: string, names: seq<string>): string
    decreases |names|
  {
    if names == [] then dir else JoinAll(Join(dir, names[0]), names[1..])
  }

  /** What the uploader is meant to find: a route through non-hidden entries
      whose last name has a supported extension. */
  ghost predicate Wanted(listing: seq<Entry>, supported: seq<string>, names: seq<string>)
  {
    |names| > 0 && Route(listing, names) && Visible(names) && Ext(names[|names| - 1]) in supported
  }

  ghost predicate EntryWanted(e: Entry, supported: seq<string>, names: seq<string>)
  {
    |names| > 0 && EntryRoute(e, names) && Visible(names) && Ext(names[|names| - 1]) in supported
  }

  lemma {:induction false} DiscoverSound(dir: string, listing: seq<Entry>, supported: seq<string>, p: string)
    requires p in Discover(dir, listing, supported)
    ensures exists names :: Wanted(listing, supported, names) && p == JoinAll(dir, names)
    decreases listing
  {
    if p in DiscoverEntry(dir, listing[0], supported) {
      DiscoverEntrySound(dir, listing[0], supported, p);
      var names :| EntryWanted(listing[0], supported, names) && p == JoinAll(dir, names);
      assert Route(listing, names);
    } else {
      DiscoverSound(dir, listing[1..], supported, p);
      var names :| Wanted(listing[1..], supported, names) && p == JoinAll(dir, names);
      var i :| 0 <= i < |listing[1..]| && EntryRoute(listing[1..][i], names);
      assert listing[1..][i] == listing[i + 1];
      assert Route(listing, names);
    }
  }

  lemma {:induction false} DiscoverEntrySound(dir: string, e: Entry, supported: seq<string>, p: string)
    requires p in DiscoverEntry(dir, e, supported)
    ensures exists names :: EntryWanted(e, supported, names) && p == JoinAll(dir, names)
    decreases e
  {
    var path := Join(dir, e.name);
    if Ext(e.name) in supported && p == path {
      RouteToEntry(dir, e, supported);
    } else {
      assert e.Dir? && p in Discover(path, e.children, supported);
      DiscoverSound(path, e.children, supported, p);
      var rest :| Wanted(e.children, supported, rest) && p == JoinAll(path, rest);
      RouteIntoEntry(dir, e, supported, rest);
    }
  }

  /** A visible entry with a supported extension is the route of its own name. */
  lemma RouteToEntry(dir: string, e: Entry, supported: seq<string>)
    requires !Hidden(e.name) && Ext(e.name) in supported
    ensures EntryWanted(e, supported, [e.name]) && JoinAll(dir, [e.name]) == Join(dir, e.name)
  {
    assert [e.name][1..] == [];
  }

  /** A route through the children of a visible directory, preceded by the
      directory's name, is a route from that directory. */
  lemma RouteIntoEntry(dir: string, e: Entry, supported: seq<string>, rest: seq<string>)
    requires e.Dir? && !Hidden(e.name) && Wanted(e.children, supported, rest)
    ensures EntryWanted(e, supported, [e.name] + rest)
    ensures JoinAll(dir, [e.name] + rest) == JoinAll(Join(dir, e.name), rest)
  {
    var names := [e.name] + rest;
    assert names[1..] == rest;
    assert names[|names| - 1] == rest[|rest| - 1];
    assert Visible(names) by {
      forall k | 0 <= k < |names| ensures !Hidden(names[k]) {
        if k > 0 {
          assert names[k] == rest[k - 1];
        }
      }
    }
  }

  lemma {:induction false} DiscoverComplete(dir: string, listing: seq<Entry>, supported: seq<string>, names: seq<string>)
    requires Wanted(listing, supported, names)
    ensures JoinAll(dir, names) in Discover(dir, listing, supported)
    decreases listing
  {
    var i :| 0 <= i < |listing| && EntryRoute(listing[i], names);
    if i == 0 {
      DiscoverEntryComplete(dir, listing[0], supported, names);
    } else {
      assert listing[1..][i - 1] == listing[i];
      assert Route(listing[1..], names);
      DiscoverComplete(dir, listing[1..], supported, names);
    }
  }

  lemma {:induction false} DiscoverEntryComplete(dir: string, e: Entry, supported: seq<string>, names: seq<string>)
    requires EntryWanted(e, supported, names)
    ensures JoinAll(dir, names) in DiscoverEntry(dir, e, supported)
    decreases e
  {
    var path := Join(dir, e.name);
    assert !Hidden(names[0]);
    if |names| == 1 {
      assert JoinAll(dir, names) == JoinAll(path, []) == path;
    } else {
      var rest := names[1..];
      assert Visible(rest) by {
        forall k | 0 <= k < |rest| ensures !Hidden(rest[k]) {
          assert rest[k] == names[k + 1];
        }
      }
      assert rest[|rest| - 1] == names[|names| - 1];
      DiscoverComplete(path, e.children, supported, rest);
    }
  }

  /** The walk appends exactly the paths of routes through non-hidden entries
      that end in a name with a supported extension. */
  lemma DiscoverExactly(dir: string, listing: seq<Entry>, supported: seq<string>, p: string)
    ensures p in Discover(dir, listing, supported) <==>
      exists names :: Wanted(listing, supported, names) && p == JoinAll(dir, names)
  {
    if p in Discover(dir, listing, supported) {
      DiscoverSound(dir, listing, supported, p);
    }
    if exists names :: Wanted(listing, supported, names) && p == JoinAll(dir, names) {
      var names :| Wanted(listing, supported, names) && p == JoinAll(dir, names);
      DiscoverComplete(dir, listing, supported, names);
    }
  }

  /** The example directory: a.mp3, b.flac, .hidden.mp3 and c.txt with .mp3
      and .flac supported. The walk finds exactly a.mp3 and b.flac. */
  lemma ExampleDiscovery()
    ensures Discover("/music", [File("a.mp3"), File("b.flac"), File(".hidden.mp3"), File("c.txt")],
                     [".mp3", ".flac"]) == ["/music/a.mp3", "/music/b.flac"]
  {
    var supported := [".mp3", ".flac"];
    var listing := [File("a.mp3"), File("b.flac"), File(".hidden.mp3"), File("c.txt")];
    ExampleSupportedFiles();
    ExampleUnsupportedFile();
    assert DiscoverEntry("/music", File(".hidden.mp3"), supported) == [];
    assert listing == [File("a.mp3")] + [File("b.flac")] + [File(".hidden.mp3")] + [File("c.txt")];
    DiscoverSingleton("/music", File("a.mp3"), supported);
    DiscoverSingleton("/music", File("b.flac"), supported);
    DiscoverSingleton("/music", File(".hidden.mp3"), supported);
    DiscoverSingleton("/music", File("c.txt"), supported);
    DiscoverAppend("/music", [File("a.mp3")] + [File("b.flac")] + [File(".hidden.mp3")], [File("c.txt")], supported);
    DiscoverAppend("/music", [File("a.mp3")] + [File("b.flac")], [File(".hidden.mp3")], supported);
    DiscoverAppend("/music", [File("a.mp3")], [File("b.flac")], supported);
  }

  /** In the example, a.mp3 and b.flac are listed: .mp3 and .flac are supported. */
  lemma ExampleSupportedFiles()
    ensures DiscoverEntry("/music", File("a.mp3"), [".mp3", ".flac"]) == ["/music/a.mp3"]
    ensures DiscoverEntry("/music", File("b.flac"), [".mp3", ".flac"]) == ["/music/b.flac"]
  {
    ExtAfterLastDot("a", "mp3");
    assert "a.mp3" == "a" + "." + "mp3";
    assert Join("/music", "a.mp3") == "/music/a.mp3";
    assert !Hidden("a.mp3") && Ext("a.mp3") == ".mp3";
    ExtAfterLastDot("b", "flac");
    assert "b.flac" == "b" + "." + "flac";
    assert Join("/music", "b.flac") == "/music/b.flac";
    assert !Hidden("b.flac") && Ext("b.flac") == ".flac";
    assert ".flac" in [".mp3", ".flac"];
  }

  /** In the example, c.txt is not listed: .txt is not supported. */
  lemma ExampleUnsupportedFile()
    ensures DiscoverEntry("/music", File("c.txt"), [".mp3", ".flac"]) == []
  {
    ExtAfterLastDot("c", "txt");
    assert "c.txt" == "c" + "." + "txt";
    assert ".txt"[1] != ".mp3"[1];
  }

  /** The walk of a listing of one entry is the walk of that entry. */
  lemma DiscoverSingleton(dir: string, e: Entry, supported: seq<string>)
    ensures Discover(dir, [e], supported) == DiscoverEntry(dir, e, supported)
  {
    assert [e][1..] == [];
  }

  /** A directory whose name matches a supported extension is appended and
      then entered: its own path comes first, the paths inside it follow. */
  lemma MatchingDirectoryListedAndEntered(dir: string, name: string, children: seq<Entry>, supported: seq<string>)
    requires !Hidden(name) && Ext(name) in supported
    ensures Discover(dir, [Dir(name, children)], supported)
      == [Join(dir, name)] + Discover(Join(dir, name), children, supported)
  {
    assert [Dir(name, children)][1..] == [];
  }

  /** Nothing inside a hidden directory is appended, whatever it holds. */
  lemma HiddenDirectoryIgnored(dir: string, name: string, children: seq<Entry>, supported: seq<string>)
    requires Hidden(name)
    ensures Discover(dir, [Dir(name, children)], supported) == []
  {
    assert [Dir(name, children)][1..] == [];
  }
}
