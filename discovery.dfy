/**
 * The pre-scan of `process_files`: every file of the `os.walk` listing whose
 * lowercased name ends in one of the ten media suffixes, joined to its root,
 * in walk order; a root containing one of the excluded substrings contributes
 * nothing (MediaMatch.py and androidmobile.py; Deepcleaner.py excludes nothing).
 */
module Discovery {
  import opened Paths

  /** One `(root, dirs, files)` triple of `os.walk`; `dirs` plays no part in the filter. */
  datatype WalkEntry = WalkEntry(root: string, files: seq<string>)

  /** `excluded_dirs` of MediaMatch.py and androidmobile.py (raw strings: one backslash each). */
  const ExcludedDirs: seq<string> := [
    "Program Files", "Windows", "AppData", "ProgramData", "C:\\Users\\Lenovo\\anaconda3",
    "C:\\Users\\Lenovo\\.vscode",
    "Intel", "DRIVER", "Program Files (x86)", "Users\\Public", "System Volume Information"
  ]

  /** Deepcleaner.py walks without an exclusion list. */
  const NoExclusions: seq<string> := []

  /** `any(excluded in root for excluded in excluded_dirs)`. */
  predicate IsExcluded(root: string, excluded: seq<string>) {
    exists j | 0 <= j < |excluded| :: Contains(root, excluded[j])
  }

  /** The paths that the files of one root contribute, in listing order. */
  function MediaPaths(root: string, files: seq<string>): seq<string> {
    if files == [] then []
    else
      var name := files[|files| - 1];
      MediaPaths(root, files[..|files| - 1]) + (if IsMediaName(name) then [Join(root, name)] else [])
  }

  /** The whole `file_paths` list built from a walk. */
  function Discovered(walk: seq<WalkEntry>, excluded: seq<string>): seq<string> {
    if walk == [] then []
    else
      var e := walk[|walk| - 1];
      Discovered(walk[..|walk| - 1], excluded)
        + (if IsExcluded(e.root, excluded) then [] else MediaPaths(e.root, e.files))
  }

  /** The two nested `for` loops that fill `file_paths`. */
  method Discover(walk: seq<WalkEntry>, excluded: seq<string>) returns (paths: seq<string>)
    ensures paths == Discovered(walk, excluded)
  {
    paths := [];
    var k := 0;
    while k < |walk|
      invariant 0 <= k <= |walk|
      invariant paths == Discovered(walk[..k], excluded)
    {
      var e := walk[k];
      DiscoveredSnoc(walk, k, excluded);
      if !IsExcluded(e.root, excluded) {
        var found := RootMediaPaths(e.root, e.files);
        paths := paths + found;
      }
      k := k + 1;
    }
    assert walk[..|walk|] == walk;
  }

  /** The inner `for file in files` loop for one root. */
  method RootMediaPaths(root: string, files: seq<string>) returns (found: seq<string>)
    ensures found == MediaPaths(root, files)
  {
    found := [];
    var j := 0;
    while j < |files|
      invariant 0 <= j <= |files|
      invariant found == MediaPaths(root, files[..j])
    {
      MediaPathsSnoc(root, files, j);
      if IsMediaName(files[j]) {
        found := found + [Join(root, files[j])];
      }
      j := j + 1;
    }
    assert files[..|files|] == files;
  }

  lemma MediaPathsSnoc(root: string, files: seq<string>, j: int)
    requires 0 <= j < |files|
    ensures MediaPaths(root, files[..j + 1])
      == MediaPaths(root, files[..j]) + (if IsMediaName(files[j]) then [Join(root, files[j])] else [])
  {
    assert files[..j + 1][..j] == files[..j];
  }

  lemma DiscoveredSnoc(walk: seq<WalkEntry>, k: int, excluded: seq<string>)
    requires 0 <= k < |walk|
    ensures Discovered(walk[..k + 1], excluded)
      == Discovered(walk[..k], excluded) + (if IsExcluded(walk[k].root, excluded) then [] else MediaPaths(walk[k].root, walk[k].files))
  {
    assert walk[..k + 1][..k] == walk[..k];
  }

  /** File `j` of root `k` is kept and becomes path `p`. */
  predicate Emits(walk: seq<WalkEntry>, excluded: seq<string>, k: int, j: int, p: string) {
    0 <= k < |walk| && 0 <= j < |walk[k].files|
    && !IsExcluded(walk[k].root, excluded)
    && IsMediaName(walk[k].files[j])
    && p == Join(walk[k].root, walk[k].files[j])
  }

  /** File `j` of `files` has a media name and joins to `p`. */
  predicate Kept(root: string, files: seq<string>, j: int, p: string) {
    0 <= j < |files| && IsMediaName(files[j]) && p == Join(root, files[j])
  }

  lemma {:induction false} MediaPathsKept(root: string, files: seq<string>, p: string)
    requires p in MediaPaths(root, files)
    ensures exists j :: Kept(root, files, j, p)
  {
    var init := files[..|files| - 1];
    var name := files[|files| - 1];
    assert MediaPaths(root, files) == MediaPaths(root, init) + (if IsMediaName(name) then [Join(root, name)] else []);
    if p in MediaPaths(root, init) {
      MediaPathsKept(root, init, p);
      var j :| Kept(root, init, j, p);
      assert files[j] == init[j];
      assert Kept(root, files, j, p);
    } else {
      assert Kept(root, files, |files| - 1, p);
    }
  }

  lemma {:induction false} KeptInMediaPaths(root: string, files: seq<string>, j: int, p: string)
    requires Kept(root, files, j, p)
    ensures p in MediaPaths(root, files)
  {
    var init := files[..|files| - 1];
    var name := files[|files| - 1];
    assert MediaPaths(root, files) == MediaPaths(root, init) + (if IsMediaName(name) then [Join(root, name)] else []);
    if j < |init| {
      assert init[j] == files[j];
      KeptInMediaPaths(root, init, j, p);
    }
  }

  lemma MediaPathsMembership(root: string, files: seq<string>, p: string)
    ensures p in MediaPaths(root, files) <==> exists j :: Kept(root, files, j, p)
  {
    if p in MediaPaths(root, files) {
      MediaPathsKept(root, files, p);
    }
    if exists j :: Kept(root, files, j, p) {
      var j :| Kept(root, files, j, p);
      KeptInMediaPaths(root, files, j, p);
    }
  }

  /** The paths the last entry of a walk contributes. */
  function LastContribution(walk: seq<WalkEntry>, excluded: seq<string>): seq<string>
    requires walk != []
  {
    var e := walk[|walk| - 1];
    if IsExcluded(e.root, excluded) then [] else MediaPaths(e.root, e.files)
  }

  lemma EmitsFromPrefix(walk: seq<WalkEntry>, excluded: seq<string>, k: int, j: int, p: string)
    requires walk != [] && Emits(walk[..|walk| - 1], excluded, k, j, p)
    ensures Emits(walk, excluded, k, j, p)
  {
    assert walk[..|walk| - 1][k] == walk[k];
  }

  lemma EmitsInPrefix(walk: seq<WalkEntry>, excluded: seq<string>, k: int, j: int, p: string)
    requires walk != [] && Emits(walk, excluded, k, j, p) && k < |walk| - 1
    ensures Emits(walk[..|walk| - 1], excluded, k, j, p)
  {
    assert walk[..|walk| - 1][k] == walk[k];
  }

  lemma LastContributionEmitted(walk: seq<WalkEntry>, excluded: seq<string>, p: string)
    requires walk != [] && p in LastContribution(walk, excluded)
    ensures exists k, j :: Emits(walk, excluded, k, j, p)
  {
    var e := walk[|walk| - 1];
    MediaPathsKept(e.root, e.files, p);
    var j :| Kept(e.root, e.files, j, p);
    assert Emits(walk, excluded, |walk| - 1, j, p);
  }

  lemma LastEmittedContributed(walk: seq<WalkEntry>, excluded: seq<string>, j: int, p: string)
    requires walk != [] && Emits(walk, excluded, |walk| - 1, j, p)
    ensures p in LastContribution(walk, excluded)
  {
    var e := walk[|walk| - 1];
    KeptInMediaPaths(e.root, e.files, j, p);
  }

  lemma {:induction false} DiscoveredEmitted(walk: seq<WalkEntry>, excluded: seq<string>, p: string)
    requires p in Discovered(walk, excluded)
    ensures exists k, j :: Emits(walk, excluded, k, j, p)
  {
    var init := walk[..|walk| - 1];
    assert Discovered(walk, excluded) == Discovered(init, excluded) + LastContribution(walk, excluded);
    if p in Discovered(init, excluded) {
      DiscoveredEmitted(init, excluded, p);
      var k, j :| Emits(init, excluded, k, j, p);
      EmitsFromPrefix(walk, excluded, k, j, p);
    } else {
      LastContributionEmitted(walk, excluded, p);
    }
  }

  lemma {:induction false} EmittedDiscovered(walk: seq<WalkEntry>, excluded: seq<string>, k: int, j: int, p: string)
    requires Emits(walk, excluded, k, j, p)
    ensures p in Discovered(walk, excluded)
  {
    var init := walk[..|walk| - 1];
    assert Discovered(walk, excluded) == Discovered(init, excluded) + LastContribution(walk, excluded);
    if k < |init| {
      EmitsInPrefix(walk, excluded, k, j, p);
      EmittedDiscovered(init, excluded, k, j, p);
    } else {
      LastEmittedContributed(walk, excluded, j, p);
    }
  }

  /** A path is discovered exactly when some file of a non-excluded root has a media name and joins to it. */
  lemma DiscoveredMembership(walk: seq<WalkEntry>, excluded: seq<string>, p: string)
    ensures p in Discovered(walk, excluded) <==> exists k, j :: Emits(walk, excluded, k, j, p)
  {
    if p in Discovered(walk, excluded) {
      DiscoveredEmitted(walk, excluded, p);
    }
    if exists k, j :: Emits(walk, excluded, k, j, p) {
      var k, j :| Emits(walk, excluded, k, j, p);
      EmittedDiscovered(walk, excluded, k, j, p);
    }
  }

  /** Walk order is kept: the paths of a later part of the walk follow those of an earlier part. */
  lemma {:induction false} DiscoveredAppend(w1: seq<WalkEntry>, w2: seq<WalkEntry>, excluded: seq<string>)
    ensures Discovered(w1 + w2, excluded) == Discovered(w1, excluded) + Discovered(w2, excluded)
  {
    if w2 != [] {
      var init := w2[..|w2| - 1];
      assert (w1 + w2)[..|w1 + w2| - 1] == w1 + init;
      assert (w1 + w2)[|w1 + w2| - 1] == w2[|w2| - 1];
      DiscoveredAppend(w1, init, excluded);
    } else {
      assert w1 + w2 == w1;
    }
  }

  /** Every discovered path is dispatched to an image or a video fingerprint, never to None. */
  lemma DiscoveredAreDispatched(walk: seq<WalkEntry>, excluded: seq<string>, p: string)
    requires p in Discovered(walk, excluded)
    ensures KindOf(p) != Unsupported
  {
    DiscoveredMembership(walk, excluded, p);
    var k, j :| Emits(walk, excluded, k, j, p);
    JoinedMediaIsDispatched(walk[k].root, walk[k].files[j]);
  }

  /** Without exclusions (Deepcleaner.py) every media-named file of the walk is kept. */
  lemma UnfilteredKeepsEveryMediaFile(walk: seq<WalkEntry>, k: int, j: int)
    requires 0 <= k < |walk| && 0 <= j < |walk[k].files|
    requires IsMediaName(walk[k].files[j])
    ensures Join(walk[k].root, walk[k].files[j]) in Discovered(walk, NoExclusions)
  {
    DiscoveredMembership(walk, NoExclusions, Join(walk[k].root, walk[k].files[j]));
    assert Emits(walk, NoExclusions, k, j, Join(walk[k].root, walk[k].files[j]));
  }
}
