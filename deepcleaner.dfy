/**
 * Deepcleaner.py: a console program that walks the whole disk without
 * exclusions, fingerprints the media files with a perceptual hash, and asks
 * on standard input, for each file whose hash was already seen, whether to
 * delete it. The lines typed by the user enter as `input`, the n-th line read
 * being `input(n)`.
 */
module DeepCleaner {
  import opened Wrappers
  import opened Paths
  import opened Discovery
  import opened Hashing
  import opened ExactIndex
  import opened Disk

  /** The deletion prompt's verdict: `delete.lower() == 'y'`. */
  predicate Confirms(answer: string) {
    Lower(answer) == "y"
  }

  /** Only a lone `y` or `Y` deletes; every other answer, the empty one included, keeps the file. */
  lemma ConfirmsExactly(answer: string)
    ensures Confirms(answer) <==> answer == "y" || answer == "Y"
  {
    if Confirms(answer) {
      assert |answer| == 1 && LowerChar(answer[0]) == Lower(answer)[0];
      assert answer == [answer[0]];
    }
  }

  /** A duplicate, the first path seen with its hash, and whether the answer confirmed its deletion. */
  datatype Duplicate = Duplicate(path: string, original: string, confirmed: bool)

  /** The loop's state: `hashes`, the disk, and the duplicates so far (their number is the number of answers read). */
  datatype Scan = Scan(hashes: map<Hash, string>, disk: Disk, duplicates: seq<Duplicate>)

  /**
   * One file of the loop: no hash, skip; a known hash, print the pair and ask,
   * and try the removal on a `y` (a failure is only reported); a new hash, store it.
   */
  function Handle<Frame>(path: string, s: Scan, h: Hasher<Frame>, answers: nat -> string): Scan {
    match FileHash(h, path)
    case None => s
    case Some(hash) =>
      if hash in s.hashes then
        var k := |s.duplicates|;
        var original := s.hashes[hash];
        var asked := s.disk.(log := s.disk.log + [Prompted(path, original)]);
        var yes := Confirms(answers(k));
        s.(disk := if yes then Remove(asked, path) else asked,
           duplicates := s.duplicates + [Duplicate(path, original, yes)])
      else s.(hashes := s.hashes[hash := path])
  }

  /** The loop over `file_paths` from state `s`; nothing breaks it. */
  function ScanFrom<Frame>(paths: seq<string>, s: Scan, h: Hasher<Frame>, answers: nat -> string): Scan
    decreases |paths|
  {
    if paths == [] then s
    else ScanFrom(paths[1..], Handle(paths[0], s, h, answers), h, answers)
  }

  function InitialScan(disk: Disk): Scan {
    Scan(map[], disk, [])
  }

  /**
   * `process_files`: discovery without exclusions, the loop, and the number
   * of distinct hashes it reports; `answers(k)` is the reply to the k-th prompt.
   */
  method ProcessFiles<Frame>(walk: seq<WalkEntry>, h: Hasher<Frame>, answers: nat -> string, disk: Disk)
    returns (unique: nat, after: Disk)
    ensures var r := ScanFrom(Discovered(walk, NoExclusions), InitialScan(disk), h, answers);
      unique == |r.hashes| && after == r.disk
  {
    var paths := Discover(walk, NoExclusions);
    var hashes: map<Hash, string> := map[];
    var duplicates: seq<Duplicate> := [];
    after := disk;
    var i := 0;
    while i < |paths|
      invariant 0 <= i <= |paths|
      invariant ScanFrom(paths, InitialScan(disk), h, answers)
        == ScanFrom(paths[i..], Scan(hashes, after, duplicates), h, answers)
    {
      ghost var before := Scan(hashes, after, duplicates);
      var path := paths[i];
      assert paths[i..][1..] == paths[i + 1..];
      i := i + 1;
      var fileHash := FileHash(h, path);
      if fileHash.None? {
        continue;
      }
      var hash := fileHash.value;
      if hash in hashes {
        var original := hashes[hash];
        after := after.(log := after.log + [Prompted(path, original)]);
        var answer := answers(|duplicates|);
        var yes := Lower(answer) == "y";
        if yes {
          after := Remove(after, path);
        }
        duplicates := duplicates + [Duplicate(path, original, yes)];
      } else {
        hashes := hashes[hash := path];
      }
      assert Scan(hashes, after, duplicates) == Handle(path, before, h, answers);
    }
    assert paths[|paths|..] == [];
    unique := |hashes|;
  }

  // ---------------------------------------------------------------- properties

  /** The dictionary the loop leaves is the one built from all the files. */
  lemma {:induction false} ScanIndexesAll<Frame>(paths: seq<string>, s: Scan, h: Hasher<Frame>, answers: nat -> string)
    ensures ScanFrom(paths, s, h, answers).hashes == IndexFrom(s.hashes, paths, h)
    decreases |paths|
  {
    if paths != [] {
      var t := Handle(paths[0], s, h, answers);
      assert t.hashes == Record(s.hashes, FileHash(h, paths[0]), paths[0]);
      ScanIndexesAll(paths[1..], t, h, answers);
    }
  }

  /**
   * The reported count is the number of distinct hashes among the files:
   * a hash is counted iff some file has it, and is mapped to the first such file.
   */
  lemma ReportedCountIsDistinctHashes<Frame>(paths: seq<string>, disk: Disk, h: Hasher<Frame>, answers: nat -> string, hash: Hash)
    ensures var r := ScanFrom(paths, InitialScan(disk), h, answers);
      && r.hashes == Index(paths, h)
      && |r.hashes| <= |paths|
      && (hash in r.hashes <==> exists j :: 0 <= j < |paths| && FileHash(h, paths[j]) == Some(hash))
      && (hash in r.hashes ==> exists j :: FirstWith(paths, h, hash, j) && r.hashes[hash] == paths[j])
  {
    ScanIndexesAll(paths, InitialScan(disk), h, answers);
    UniqueCountBound(paths, h);
    FirstSeen(paths, h, hash);
  }

  /**
   * A file whose hash was seen is a duplicate of the stored path; the
   * dictionary is unchanged; the prompt is logged; the file is removed only
   * on a confirming answer, and a failed removal is logged.
   */
  lemma KnownHashIsDuplicate<Frame>(path: string, s: Scan, h: Hasher<Frame>, answers: nat -> string)
    requires FileHash(h, path).Some? && FileHash(h, path).value in s.hashes
    ensures var r := Handle(path, s, h, answers);
      var k := |s.duplicates|;
      var original := s.hashes[FileHash(h, path).value];
      var asked := s.disk.(log := s.disk.log + [Prompted(path, original)]);
      && r.hashes == s.hashes
      && r.duplicates == s.duplicates + [Duplicate(path, original, Confirms(answers(k)))]
      && r.disk.log == asked.log + (if Confirms(answers(k)) then [RemoveOutcome(asked, path)] else [])
      && (Confirms(answers(k)) ==> (path in r.disk.files <==> path in s.disk.files && path in s.disk.locked))
      && (!Confirms(answers(k)) ==> r.disk.files == s.disk.files)
  {
  }

  /** A new hash is stored with the current path, nothing is asked, and the disk is untouched. */
  lemma NewHashStored<Frame>(path: string, s: Scan, h: Hasher<Frame>, answers: nat -> string)
    requires FileHash(h, path).Some? && FileHash(h, path).value !in s.hashes
    ensures Handle(path, s, h, answers) == s.(hashes := s.hashes[FileHash(h, path).value := path])
  {
  }

  /** A file disappears only as a duplicate whose prompt was answered `y`. */
  lemma {:induction false} RemovedOnlyOnYes<Frame>(paths: seq<string>, s: Scan, h: Hasher<Frame>, answers: nat -> string, p: string)
    ensures var r := ScanFrom(paths, s, h, answers);
      && s.duplicates <= r.duplicates
      && r.disk.locked == s.disk.locked
      && (p in s.disk.files && p !in r.disk.files ==>
            exists k :: |s.duplicates| <= k < |r.duplicates| && r.duplicates[k].path == p
              && Confirms(answers(k)) && r.duplicates[k].confirmed)
    decreases |paths|
  {
    if paths != [] {
      var t := Handle(paths[0], s, h, answers);
      var r := ScanFrom(paths, s, h, answers);
      RemovedOnlyOnYes(paths[1..], t, h, answers, p);
      if p in s.disk.files && p !in r.disk.files {
        if p !in t.disk.files {
          assert r.duplicates[|s.duplicates|] == t.duplicates[|s.duplicates|];
        } else {
          var k :| |t.duplicates| <= k < |r.duplicates| && r.duplicates[k].path == p
            && Confirms(answers(k)) && r.duplicates[k].confirmed;
        }
      }
    }
  }

  /** Every duplicate so far duplicates the path stored under its own hash. */
  predicate Anchored<Frame>(s: Scan, h: Hasher<Frame>) {
    forall k :: 0 <= k < |s.duplicates| ==>
      var hash := FileHash(h, s.duplicates[k].path);
      hash.Some? && hash.value in s.hashes && s.hashes[hash.value] == s.duplicates[k].original
  }

  /** Each duplicate is one of the path stored first under its hash, and stays so to the end of the loop. */
  lemma {:induction false} DuplicatesOfFirstSeen<Frame>(paths: seq<string>, s: Scan, h: Hasher<Frame>, answers: nat -> string)
    requires Anchored(s, h)
    ensures Anchored(ScanFrom(paths, s, h, answers), h)
    decreases |paths|
  {
    if paths != [] {
      var t := Handle(paths[0], s, h, answers);
      assert Anchored(t, h) by {
        forall k | 0 <= k < |t.duplicates|
          ensures var hk := FileHash(h, t.duplicates[k].path);
            hk.Some? && hk.value in t.hashes && t.hashes[hk.value] == t.duplicates[k].original
        {
          if k < |s.duplicates| {
            assert t.duplicates[k] == s.duplicates[k];
          }
        }
      }
      DuplicatesOfFirstSeen(paths[1..], t, h, answers);
    }
  }

  /** The loop reads the answers in order, one per duplicate, and depends on no other. */
  lemma {:induction false} OnlyAnswersReadMatter<Frame>(paths: seq<string>, s: Scan, h: Hasher<Frame>, a: nat -> string, b: nat -> string)
    requires forall k :: |s.duplicates| <= k < |s.duplicates| + |paths| ==> a(k) == b(k)
    ensures ScanFrom(paths, s, h, a) == ScanFrom(paths, s, h, b)
    decreases |paths|
  {
    if paths != [] {
      var t := Handle(paths[0], s, h, a);
      assert t == Handle(paths[0], s, h, b);
      assert |t.duplicates| <= |s.duplicates| + 1;
      OnlyAnswersReadMatter(paths[1..], t, h, a, b);
    }
  }

  // ---------------------------------------------------------------- main

  /** The permission prompt's verdict: `input(...).lower() == 'yes'`. */
  predicate ConsentToScan(answer: string) {
    Lower(answer) == "yes"
  }

  /** `yes` in any mix of cases consents; `y`, `no` and everything else do not. */
  lemma ConsentExactly(answer: string)
    ensures ConsentToScan(answer) <==>
      |answer| == 3 && answer[0] in "yY" && answer[1] in "eE" && answer[2] in "sS"
  {
    if |answer| == 3 {
      assert Lower(answer)[0] == LowerChar(answer[0]) && Lower(answer)[1] == LowerChar(answer[1])
        && Lower(answer)[2] == LowerChar(answer[2]);
      assert "yes" == ['y', 'e', 's'];
    }
  }

  /** What `main` ends with: "Operation canceled.", or the scan's count and the disk it leaves. */
  datatype Outcome = Canceled | Scanned(unique: nat, disk: Disk)

  /**
   * `main`: the first line decides; only after consent is the second question
   * asked (its answer merely selects a message), and the prompts of the scan
   * read the lines after it.
   */
  function Run<Frame>(input: nat -> string, walk: seq<WalkEntry>, h: Hasher<Frame>, disk: Disk): (o: Outcome)
    ensures o.Canceled? <==> !ConsentToScan(input(0))
  {
    if ConsentToScan(input(0)) then
      var r := ScanFrom(Discovered(walk, NoExclusions), InitialScan(disk), h, (k: nat) => input(k + 2));
      Scanned(|r.hashes|, r.disk)
    else Canceled
  }

  method Launch<Frame>(input: nat -> string, walk: seq<WalkEntry>, h: Hasher<Frame>, disk: Disk) returns (o: Outcome)
    ensures o == Run(input, walk, h, disk)
  {
    var permission := Lower(input(0));
    if permission == "yes" {
      var grantPermission := Lower(input(1));
      // either way only a message is printed
      var unique, after := ProcessFiles(walk, h, (k: nat) => input(k + 2), disk);
      o := Scanned(unique, after);
    } else {
      o := Canceled;
    }
  }

  /** The answer to the second question never changes what the program does. */
  lemma SecondAnswerIgnored<Frame>(a: nat -> string, b: nat -> string, walk: seq<WalkEntry>, h: Hasher<Frame>, disk: Disk)
    requires a(0) == b(0) && forall n :: n != 1 ==> a(n) == b(n)
    ensures Run(a, walk, h, disk) == Run(b, walk, h, disk)
  {
    if ConsentToScan(a(0)) {
      var paths := Discovered(walk, NoExclusions);
      OnlyAnswersReadMatter(paths, InitialScan(disk), h, (k: nat) => a(k + 2), (k: nat) => b(k + 2));
    }
  }
}
