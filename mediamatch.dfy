/**
 * The scan of MediaMatch.py: every discovered file, in order, is fingerprinted
 * by its deep features and classified against `features_dict`, the files kept
 * so far in insertion order. The first stored file whose similarity exceeds
 * 0.9 makes the new file its duplicate: the user may back it up, then sees the
 * deletion popup and deletes or skips it, and the duplicate is never stored.
 * A file that matches nothing is stored. The abort flag is read before each
 * file and once more at the end, after the optional purge of the backups.
 */
module MediaMatch {
  import opened Wrappers
  import opened Paths
  import opened Discovery
  import opened Features
  import opened Disk
  import opened Session

  /** `similarity > 0.9` flags a duplicate. */
  const Threshold: real := 0.9

  /** `BACKUP_DIR`. */
  const BackupDir: string := "C:\\Backup"

  predicate Similar(score: real) {
    score > Threshold
  }

  // ---------------------------------------------------------------- backups

  /** `os.path.join(BACKUP_DIR, os.path.basename(file_path))`. */
  function BackupPath(path: string): string {
    Join(BackupDir, Basename(path))
  }

  /** A file directly inside the backup directory. */
  predicate InBackupDir(p: string) {
    && |p| > |BackupDir| + 1
    && p[..|BackupDir| + 1] == BackupDir + "\\"
    && forall i :: |BackupDir| + 1 <= i < |p| ==> !IsSep(p[i])
  }

  lemma BackupPathShape(path: string)
    ensures BackupPath(path) == BackupDir + "\\" + Basename(path)
  {
  }

  /** Two files get the same backup copy exactly when their base names agree: the later copy overwrites the earlier. */
  lemma BackupPathsCollide(a: string, b: string)
    ensures BackupPath(a) == BackupPath(b) <==> Basename(a) == Basename(b)
  {
    BackupPathShape(a);
    BackupPathShape(b);
    var prefix := BackupDir + "\\";
    if BackupPath(a) == BackupPath(b) {
      assert Basename(a) == BackupPath(a)[|prefix|..];
      assert Basename(b) == BackupPath(b)[|prefix|..];
    }
  }

  /** A path that the dispatch sends to a fingerprint names a file, so its backup lies directly in the backup directory. */
  lemma MediaBackupInBackupDir(path: string)
    requires KindOf(path) != Unsupported
    ensures Basename(path) != [] && InBackupDir(BackupPath(path))
  {
    DispatchedEndsInName(path);
    BackupPathShape(path);
    InsideBackupDir(Basename(path));
  }

  /** A separator-free, non-empty name joined to the backup directory lies directly inside it. */
  lemma InsideBackupDir(base: string)
    requires base != [] && forall i :: 0 <= i < |base| ==> !IsSep(base[i])
    ensures InBackupDir(BackupDir + "\\" + base)
  {
    var b := BackupDir + "\\" + base;
    assert b[..|BackupDir| + 1] == BackupDir + "\\";
    forall j | |BackupDir| + 1 <= j < |b|
      ensures !IsSep(b[j])
    {
      assert b[j] == base[j - |BackupDir| - 1];
    }
  }

  // ---------------------------------------------------------------- the index

  /** One item of `features_dict`. */
  datatype Entry<F> = Entry(path: string, features: F)

  /**
   * The inner loop's answer: the position of the first stored file, in
   * insertion order, whose similarity to `fp` exceeds the threshold.
   */
  function FirstMatch<F>(index: seq<Entry<F>>, fp: F, sim: (F, F) -> real): (r: Option<nat>)
    ensures r.Some? ==> r.value < |index| && Similar(sim(fp, index[r.value].features))
    ensures r.Some? ==> forall j :: 0 <= j < r.value ==> !Similar(sim(fp, index[j].features))
    ensures r.None? ==> forall j :: 0 <= j < |index| ==> !Similar(sim(fp, index[j].features))
  {
    if index == [] then None
    else if Similar(sim(fp, index[0].features)) then Some(0)
    else match FirstMatch(index[1..], fp, sim)
      case None => None
      case Some(i) => Some(i + 1)
  }

  /** `for existing_file, existing_features in features_dict.items()` with its `break` on the first hit. */
  method FindDuplicate<F>(index: seq<Entry<F>>, fp: F, sim: (F, F) -> real) returns (r: Option<nat>)
    ensures r == FirstMatch(index, fp, sim)
  {
    var i := 0;
    while i < |index|
      invariant 0 <= i <= |index|
      invariant forall j :: 0 <= j < i ==> !Similar(sim(fp, index[j].features))
    {
      var similarity := sim(fp, index[i].features);
      if similarity > Threshold {
        return Some(i);
      }
      i := i + 1;
    }
    return None;
  }

  // ---------------------------------------------------------------- the comparison as written

  /**
   * `compare_features` as written: `cosine_similarity([features1], [features2])`.
   * An image's value is one vector, so two images give a 2-D input and a score.
   * A video's value is a list of vectors (or the empty list), which the extra
   * brackets make a 3-D (or zero-width) input, and `cosine_similarity` raises
   * `ValueError`, whatever the other operand is.
   */
  datatype Comparison = CompareRaises | Score(value: real)

  function CompareAsWritten<V>(a: Features<V>, b: Features<V>, cos: (V, V) -> real): (r: Comparison)
    ensures r.CompareRaises? <==> a.VideoFeatures? || b.VideoFeatures?
  {
    if a.ImageFeatures? && b.ImageFeatures? then Score(cos(a.vector, b.vector)) else CompareRaises
  }

  /** The inner loop as written: it ends at the first hit, or with the exception, which nothing in `process_files` catches. */
  datatype Search = SearchRaises | Found(at: nat) | NotFound

  function FirstMatchAsWritten<V>(index: seq<Entry<Features<V>>>, fp: Features<V>, cos: (V, V) -> real): Search {
    if index == [] then NotFound
    else match CompareAsWritten(fp, index[0].features, cos)
      case CompareRaises => SearchRaises
      case Score(v) =>
        if Similar(v) then Found(0)
        else match FirstMatchAsWritten(index[1..], fp, cos)
          case Found(i) => Found(i + 1)
          case other => other
  }

  /** The first `n` stored files are images that the image `fp` does not match. */
  predicate ImagesUnmatched<V>(index: seq<Entry<Features<V>>>, fp: Features<V>, cos: (V, V) -> real, n: int) {
    && fp.ImageFeatures? && 0 <= n <= |index|
    && forall j :: 0 <= j < n ==>
         index[j].features.ImageFeatures? && !Similar(cos(fp.vector, index[j].features.vector))
  }

  /**
   * As written, the search raises exactly when it reaches a comparison with a
   * video: the new file is a video and something is stored, or a stored video
   * comes before any match.
   */
  lemma {:induction false} VideoComparisonRaises<V>(index: seq<Entry<Features<V>>>, fp: Features<V>, cos: (V, V) -> real)
    ensures FirstMatchAsWritten(index, fp, cos) == SearchRaises <==>
      (fp.VideoFeatures? && index != []) ||
      (exists n :: ImagesUnmatched(index, fp, cos, n) && n < |index| && index[n].features.VideoFeatures?)
  {
    if index != [] && fp.ImageFeatures? {
      var rest := index[1..];
      VideoComparisonRaises(rest, fp, cos);
      if index[0].features.VideoFeatures? {
        assert ImagesUnmatched(index, fp, cos, 0);
      } else if !Similar(cos(fp.vector, index[0].features.vector)) {
        if exists n :: ImagesUnmatched(rest, fp, cos, n) && n < |rest| && rest[n].features.VideoFeatures? {
          var n :| ImagesUnmatched(rest, fp, cos, n) && n < |rest| && rest[n].features.VideoFeatures?;
          assert forall j :: 1 <= j < n + 1 ==> index[j] == rest[j - 1];
          assert ImagesUnmatched(index, fp, cos, n + 1);
        }
        if exists n :: ImagesUnmatched(index, fp, cos, n) && n < |index| && index[n].features.VideoFeatures? {
          var n :| ImagesUnmatched(index, fp, cos, n) && n < |index| && index[n].features.VideoFeatures?;
          assert n > 0;
          assert forall j :: 0 <= j < n - 1 ==> rest[j] == index[j + 1];
          assert ImagesUnmatched(rest, fp, cos, n - 1);
        }
      } else {
        forall n | ImagesUnmatched(index, fp, cos, n) && n < |index|
          ensures !index[n].features.VideoFeatures?
        {
          if n > 0 {
            assert false;
          }
        }
      }
    }
  }

  /**
   * Among images, the search as written is the intended one: with `sim` the
   * cosine score of the two vectors, it finds what `FirstMatch` finds.
   */
  lemma {:induction false} AsWrittenAgreesOnImages<V>(index: seq<Entry<Features<V>>>, fp: Features<V>,
                                                      cos: (V, V) -> real, sim: (Features<V>, Features<V>) -> real)
    requires fp.ImageFeatures?
    requires forall j :: 0 <= j < |index| ==>
      index[j].features.ImageFeatures? && sim(fp, index[j].features) == cos(fp.vector, index[j].features.vector)
    ensures FirstMatchAsWritten(index, fp, cos) ==
      match FirstMatch(index, fp, sim) case Some(i) => Found(i) case None => NotFound
  {
    if index != [] {
      assert forall j :: 0 <= j < |index| - 1 ==> index[1..][j] == index[j + 1];
      AsWrittenAgreesOnImages(index[1..], fp, cos, sim);
    }
  }

  /** The position of `path` among the keys, if it is one. */
  function KeyPosition<F>(index: seq<Entry<F>>, path: string): (r: Option<nat>)
    ensures r.Some? ==> r.value < |index| && index[r.value].path == path
    ensures r.None? ==> forall j :: 0 <= j < |index| ==> index[j].path != path
  {
    if index == [] then None
    else if index[0].path == path then Some(0)
    else match KeyPosition(index[1..], path)
      case None => None
      case Some(i) => Some(i + 1)
  }

  /**
   * `features_dict[path] = file_features`: a new key goes last; an existing
   * key keeps its place and gets the new value. Keys stay in order and
   * distinct; the dictionary grows by one exactly for a new key.
   */
  function Insert<F>(index: seq<Entry<F>>, path: string, fp: F): (r: seq<Entry<F>>)
    ensures |r| == |index| + (if exists j :: 0 <= j < |index| && index[j].path == path then 0 else 1)
    ensures forall j :: 0 <= j < |index| ==> r[j].path == index[j].path
    ensures exists j :: 0 <= j < |r| && r[j] == Entry(path, fp)
    ensures forall j :: 0 <= j < |r| ==> r[j].path == path || r[j] in index
    ensures DistinctKeys(index) ==> DistinctKeys(r)
  {
    match KeyPosition(index, path)
    case Some(i) => index[i := Entry(path, fp)]
    case None =>
      var r := index + [Entry(path, fp)];
      assert r[|index|] == Entry(path, fp);
      r
  }

  predicate DistinctKeys<F>(index: seq<Entry<F>>) {
    forall i, j :: 0 <= i < j < |index| ==> index[i].path != index[j].path
  }

  // ---------------------------------------------------------------- the scan

  /** A duplicate found by the scan, with the user's two answers. */
  datatype Duplicate = Duplicate(path: string, original: string, backup: bool, delete: bool)

  /** The scan's state: `features_dict`, the shared world, the abort reads so far, the duplicates so far, and whether the loop broke. */
  datatype Scan<V> = Scan(
    index: seq<Entry<Features<V>>>,
    world: World,
    polls: nat,
    duplicates: seq<Duplicate>,
    stopped: bool)

  /**
   * Everything outside the scan thread: the feature extractors, the
   * similarity (cosine similarity in the source), the answer to the k-th
   * backup question and the k-th deletion popup (Delete when true, Skip
   * otherwise), and whether Abort was pressed before the j-th read of the flag.
   */
  datatype Oracles<!V, !Frame> = Oracles(
    x: Extractor<V, Frame>,
    sim: (Features<V>, Features<V>) -> real,
    backup: nat -> bool,
    delete: nat -> bool,
    abortPressed: nat -> bool)

  function InitialScan<V>(w: World): Scan<V> {
    Scan([], w, 0, [], false)
  }

  /** The body of the outer loop for one file, after the abort check. */
  function Handle<V, Frame>(path: string, s: Scan<V>, o: Oracles<V, Frame>): Scan<V> {
    match FileFeatures(o.x, path)
    case None => s
    case Some(fp) =>
      match FirstMatch(s.index, fp, o.sim)
      case None => s.(index := Insert(s.index, path, fp))
      case Some(i) =>
        var k := |s.duplicates|;
        var original := s.index[i].path;
        var w1 := if o.backup(k) then s.world.(disk := Copy(s.world.disk, path, BackupPath(path))) else s.world;
        var w2 := ShowPopup(w1, path, original);
        s.(world := Resolve(w2, path, o.delete(k)),
           duplicates := s.duplicates + [Duplicate(path, original, o.backup(k), o.delete(k))])
  }

  /** The outer loop over `file_paths` from state `s`: read the abort flag, break if set, otherwise handle the file. */
  function ScanFrom<V, Frame>(paths: seq<string>, s: Scan<V>, o: Oracles<V, Frame>): Scan<V>
    decreases |paths|
  {
    if paths == [] || s.stopped then s
    else
      var s' := Polled(s, o);
      if s'.world.abort then s'.(stopped := true)
      else ScanFrom(paths[1..], Handle(paths[0], s', o), o)
  }

  /** The read of the abort flag at the top of an iteration. */
  function Polled<V, Frame>(s: Scan<V>, o: Oracles<V, Frame>): (r: Scan<V>)
    ensures r.world.abort == (s.world.abort || o.abortPressed(s.polls)) && r.polls == s.polls + 1
    ensures r.index == s.index && r.duplicates == s.duplicates && r.stopped == s.stopped
    ensures r.world.disk == s.world.disk && r.world.popup == s.world.popup
  {
    s.(world := Poll(s.world, o.abortPressed(s.polls)), polls := s.polls + 1)
  }

  /** What `result_callback` receives. */
  datatype Report = ScanAborted | Processed(unique: nat)

  /** What the purge of the backup directory may do to the disk. */
  ghost predicate Purged(before: Disk, after: Disk) {
    && after.locked == before.locked
    && after.files <= before.files
    && (forall p :: p in before.files && p !in after.files ==> InBackupDir(p))
    && ((forall p :: p in before.files && InBackupDir(p) ==> p !in before.locked) ==>
          forall p :: p in after.files ==> !InBackupDir(p))
    && before.log <= after.log
  }

  /** `backup_file(path)`: copy the file into the backup directory; a failure is only logged. */
  method BackupFile(session: ScanSession, path: string)
    modifies session
    ensures session.State() == old(session.State()).(disk := Copy(old(session.State()).disk, path, BackupPath(path)))
  {
    var d := Copy(session.State().disk, path, BackupPath(path));
    session.SetDisk(d);
  }

  /**
   * `delete_backups()`: remove the files of the backup directory, in the
   * order the directory lists them; the try block encloses the whole loop, so
   * the first removal that fails ends the purge.
   */
  method DeleteBackups(session: ScanSession)
    modifies session
    ensures Purged(old(session.State()).disk, session.State().disk)
    ensures session.abortScan == old(session.abortScan) && session.popupActive == old(session.popupActive)
  {
    ghost var before := session.State().disk;
    var listing := set p | p in session.files && InBackupDir(p);
    while listing != {}
      invariant session.locked == before.locked
      invariant session.files <= before.files
      invariant forall p :: p in listing ==> p in session.files && InBackupDir(p)
      invariant forall p :: p in before.files && p !in session.files ==> InBackupDir(p)
      invariant forall p :: p in session.files && InBackupDir(p) ==> p in listing
      invariant before.log <= session.log
      invariant session.abortScan == old(session.abortScan) && session.popupActive == old(session.popupActive)
      decreases |listing|
    {
      var p :| p in listing;
      if p in session.locked {
        session.SetDisk(session.State().disk.(log := session.log + [RemoveFailed(p)]));
        break;
      }
      session.SetDisk(Remove(session.State().disk, p));
      listing := listing - {p};
    }
  }

  /** `process_files`: discovery, the scan loop, the optional purge, and the final report. */
  method ProcessFiles<V, Frame>(session: ScanSession, walk: seq<WalkEntry>, o: Oracles<V, Frame>, purge: bool)
    returns (report: Report)
    requires !session.popupActive
    modifies session
    ensures var mid := ScanFrom(Discovered(walk, ExcludedDirs), InitialScan(old(session.State())), o);
      && (if purge then Purged(mid.world.disk, session.State().disk) else session.State().disk == mid.world.disk)
      && session.State().abort == (mid.world.abort || o.abortPressed(mid.polls))
      && !session.State().popup
      && report == if session.State().abort then ScanAborted else Processed(|mid.index|)
  {
    var paths := Discover(walk, ExcludedDirs);
    ghost var init: Scan<V> := InitialScan(session.State());
    var index: seq<Entry<Features<V>>> := [];
    var polls: nat := 0;
    var duplicates: seq<Duplicate> := [];
    ghost var stopped := false;
    var i := 0;
    while i < |paths|
      invariant 0 <= i <= |paths|
      invariant !session.popupActive && !stopped
      invariant ScanFrom(paths, init, o) == ScanFrom(paths[i..], Scan(index, session.State(), polls, duplicates, false), o)
    {
      ghost var before := Scan(index, session.State(), polls, duplicates, false);
      var aborted := session.PollAbort(o.abortPressed(polls));
      polls := polls + 1;
      if aborted {
        stopped := true;
        assert ScanFrom(paths[i..], before, o) == Scan(index, session.State(), polls, duplicates, true);
        break;
      }
      ghost var polled := Scan(index, session.State(), polls, duplicates, false);
      assert polled == Polled(before, o);
      var path := paths[i];
      var features := GetFileFeatures(o.x, path);
      if features.Some? {
        var found := FindDuplicate(index, features.value, o.sim);
        if found.Some? {
          var original := index[found.value].path;
          var k := |duplicates|;
          if o.backup(k) {
            BackupFile(session, path);
          }
          session.ShowDeletionPopup(path, original);
          // scan_event.wait(): the user answers the popup with Delete or Skip
          if o.delete(k) {
            session.DeleteAction(path);
          } else {
            session.SkipAction();
          }
          duplicates := duplicates + [Duplicate(path, original, o.backup(k), o.delete(k))];
        } else {
          index := Insert(index, path, features.value);
        }
      }
      assert Scan(index, session.State(), polls, duplicates, false) == Handle(path, polled, o);
      assert paths[i..][1..] == paths[i + 1..];
      i := i + 1;
    }
    ghost var mid := Scan(index, session.State(), polls, duplicates, stopped);
    assert ScanFrom(paths, init, o) == mid;
    // ask_delete_backups()
    if purge {
      DeleteBackups(session);
    }
    var aborted := session.PollAbort(o.abortPressed(polls));
    report := if aborted then ScanAborted else Processed(|index|);
  }

  // ---------------------------------------------------------------- one file

  /** A file without features is neither compared, prompted nor stored. */
  lemma FeaturelessFileIgnored<V, Frame>(path: string, s: Scan<V>, o: Oracles<V, Frame>)
    requires FileFeatures(o.x, path).None?
    ensures Handle(path, s, o) == s
  {
  }

  /** A file that matches no stored file is stored under its path, and nothing else changes. */
  lemma UnmatchedFileStored<V, Frame>(path: string, s: Scan<V>, o: Oracles<V, Frame>)
    requires FileFeatures(o.x, path).Some?
    requires FirstMatch(s.index, FileFeatures(o.x, path).value, o.sim).None?
    ensures Handle(path, s, o) == s.(index := Insert(s.index, path, FileFeatures(o.x, path).value))
  {
  }

  /**
   * A duplicate is never stored, whatever the answers. It is recorded against
   * the first matching stored file with the next two answers, the popup is
   * closed again, and the log gains, in this order: the backup copy if one was
   * asked for, exactly one prompt, and the removal if Delete was chosen.
   */
  lemma DuplicateNotStored<V, Frame>(path: string, s: Scan<V>, o: Oracles<V, Frame>)
    requires FileFeatures(o.x, path).Some?
    requires FirstMatch(s.index, FileFeatures(o.x, path).value, o.sim).Some?
    requires !s.world.popup
    ensures var i := FirstMatch(s.index, FileFeatures(o.x, path).value, o.sim).value;
      var k := |s.duplicates|;
      var original := s.index[i].path;
      var d := s.world.disk;
      var copied := if o.backup(k) then Copy(d, path, BackupPath(path)) else d;
      var r := Handle(path, s, o);
      && r.index == s.index
      && r.duplicates == s.duplicates + [Duplicate(path, original, o.backup(k), o.delete(k))]
      && !r.world.popup && r.world.abort == s.world.abort && r.polls == s.polls && r.stopped == s.stopped
      && r.world.disk.log == d.log
           + (if o.backup(k) then [CopyOutcome(d, path, BackupPath(path))] else [])
           + [Prompted(path, original)]
           + (if o.delete(k) then [RemoveOutcome(copied, path)] else [])
  {
  }

  /**
   * With backup and Delete both chosen, the backup copy exists before the
   * original is removed and survives the removal; the original is gone unless
   * the system refuses to remove it.
   */
  lemma BackupSurvivesDeletion<V, Frame>(path: string, s: Scan<V>, o: Oracles<V, Frame>)
    requires FileFeatures(o.x, path).Some?
    requires FirstMatch(s.index, FileFeatures(o.x, path).value, o.sim).Some?
    requires o.backup(|s.duplicates|) && o.delete(|s.duplicates|)
    requires path in s.world.disk.files && path != BackupPath(path)
    ensures var r := Handle(path, s, o);
      && BackupPath(path) in r.world.disk.files
      && (path in r.world.disk.files <==> path in s.world.disk.locked)
  {
  }

  /** The only file a step can remove is the file itself, and only as a duplicate the user chose to delete. */
  lemma StepRemovesOnlyConfirmed<V, Frame>(path: string, s: Scan<V>, o: Oracles<V, Frame>, p: string)
    requires p in s.world.disk.files && p !in Handle(path, s, o).world.disk.files
    ensures var r := Handle(path, s, o);
      && |r.duplicates| == |s.duplicates| + 1
      && r.duplicates[|s.duplicates|].path == p && r.duplicates[|s.duplicates|].delete
  {
  }

  /** A tie between stored files goes to the one stored first, not to the most similar one. */
  lemma FirstStoredWins<F>(index: seq<Entry<F>>, fp: F, sim: (F, F) -> real, i: nat, j: nat)
    requires i < j < |index|
    requires Similar(sim(fp, index[i].features)) && Similar(sim(fp, index[j].features))
    requires sim(fp, index[i].features) < sim(fp, index[j].features)
    ensures FirstMatch(index, fp, sim).Some? && FirstMatch(index, fp, sim).value <= i
  {
  }

  /**
   * What one file adds: at most one stored entry or one duplicate, never
   * both; stored files keep their places; a new duplicate carries the next
   * answers and is matched against a file already stored.
   */
  lemma HandleGrowth<V, Frame>(path: string, s: Scan<V>, o: Oracles<V, Frame>)
    ensures var r := Handle(path, s, o);
      && s.duplicates <= r.duplicates
      && |s.index| <= |r.index|
      && (forall j :: 0 <= j < |s.index| ==> r.index[j].path == s.index[j].path)
      && (|r.index| - |s.index|) + (|r.duplicates| - |s.duplicates|) <= 1
      && (|r.duplicates| > |s.duplicates| ==>
            && r.index == s.index
            && r.duplicates[|s.duplicates|].backup == o.backup(|s.duplicates|)
            && r.duplicates[|s.duplicates|].delete == o.delete(|s.duplicates|)
            && exists j :: 0 <= j < |s.index| && s.index[j].path == r.duplicates[|s.duplicates|].original)
      && (DistinctKeys(s.index) ==> DistinctKeys(r.index))
      && r.polls == s.polls && r.stopped == s.stopped && r.world.abort == s.world.abort
  {
    var r := Handle(path, s, o);
    match FileFeatures(o.x, path)
    case None =>
    case Some(fp) =>
      match FirstMatch(s.index, fp, o.sim)
      case None =>
      case Some(i) =>
        assert r.duplicates[|s.duplicates|].original == s.index[i].path;
  }

  // ---------------------------------------------------------------- the whole loop

  /** Scanning a list in two parts is scanning it whole: the state is all that carries over. */
  lemma {:induction false} ScanAppend<V, Frame>(a: seq<string>, b: seq<string>, s: Scan<V>, o: Oracles<V, Frame>)
    ensures ScanFrom(a + b, s, o) == ScanFrom(b, ScanFrom(a, s, o), o)
    decreases |a|
  {
    if a == [] {
      assert a + b == b;
    } else if !s.stopped {
      var s' := Polled(s, o);
      assert (a + b)[0] == a[0] && (a + b)[1..] == a[1..] + b;
      if !s'.world.abort {
        ScanAppend(a[1..], b, Handle(a[0], s', o), o);
      }
    }
  }

  /**
   * Abort short-circuits: once the loop has broken on the abort flag, no later
   * file is read, fingerprinted, prompted for or stored.
   */
  lemma AbortedScanIgnoresRest<V, Frame>(a: seq<string>, b: seq<string>, s: Scan<V>, o: Oracles<V, Frame>)
    requires ScanFrom(a, s, o).stopped
    ensures ScanFrom(a + b, s, o) == ScanFrom(a, s, o)
  {
    ScanAppend(a, b, s, o);
  }

  /** When the flag is found set at the top of an iteration, the loop breaks with nothing else changed. */
  lemma AbortBreaksAtOnce<V, Frame>(paths: seq<string>, s: Scan<V>, o: Oracles<V, Frame>)
    requires paths != [] && !s.stopped && (s.world.abort || o.abortPressed(s.polls))
    ensures var r := ScanFrom(paths, s, o);
      && r.stopped && r.world.abort && r.polls == s.polls + 1
      && r.index == s.index && r.duplicates == s.duplicates && r.world.disk == s.world.disk
  {
  }

  /**
   * The flag is read once per file until it is found set; a loop that ran to
   * the end over a non-empty list never found it set, and a set flag is never
   * cleared.
   */
  lemma {:induction false} AbortReads<V, Frame>(paths: seq<string>, s: Scan<V>, o: Oracles<V, Frame>)
    requires !s.stopped
    ensures var r := ScanFrom(paths, s, o);
      && (s.world.abort ==> r.world.abort)
      && (r.stopped ==> r.world.abort && r.polls <= s.polls + |paths|)
      && (!r.stopped ==> r.polls == s.polls + |paths| && (paths != [] ==> !r.world.abort))
    decreases |paths|
  {
    if paths != [] {
      var s' := Polled(s, o);
      if !s'.world.abort {
        AbortReads(paths[1..], Handle(paths[0], s', o), o);
      }
    }
  }

  /**
   * What the loop accumulates: the stored files keep their places and the
   * dictionary never shrinks; each file adds at most one stored entry or one
   * duplicate, never both; the k-th duplicate carries the k-th answers; keys
   * stay distinct.
   */
  lemma {:induction false} ScanGrowth<V, Frame>(paths: seq<string>, s: Scan<V>, o: Oracles<V, Frame>)
    ensures var r := ScanFrom(paths, s, o);
      && s.duplicates <= r.duplicates
      && |s.index| <= |r.index|
      && (forall j :: 0 <= j < |s.index| ==> r.index[j].path == s.index[j].path)
      && (|r.index| - |s.index|) + (|r.duplicates| - |s.duplicates|) <= |paths|
      && (forall k :: |s.duplicates| <= k < |r.duplicates| ==>
            r.duplicates[k].backup == o.backup(k) && r.duplicates[k].delete == o.delete(k))
      && (DistinctKeys(s.index) ==> DistinctKeys(r.index))
    decreases |paths|
  {
    if paths != [] && !s.stopped {
      var s' := Polled(s, o);
      if !s'.world.abort {
        var h := Handle(paths[0], s', o);
        HandleGrowth(paths[0], s', o);
        ScanGrowth(paths[1..], h, o);
        var r := ScanFrom(paths, s, o);
        assert r == ScanFrom(paths[1..], h, o);
        forall k | |s.duplicates| <= k < |r.duplicates|
          ensures r.duplicates[k].backup == o.backup(k) && r.duplicates[k].delete == o.delete(k)
        {
          if k < |h.duplicates| {
            assert k == |s.duplicates|;
            assert r.duplicates[k] == h.duplicates[k];
          }
        }
      }
    }
  }

  /** The paths stored in the index. */
  function Keys<F>(index: seq<Entry<F>>): (r: set<string>)
    ensures forall j :: 0 <= j < |index| ==> index[j].path in r
    ensures forall p :: p in r ==> exists j :: 0 <= j < |index| && index[j].path == p
  {
    set j | 0 <= j < |index| :: index[j].path
  }

  /** Every duplicate so far was matched against a file that is still stored. */
  predicate Anchored<V>(s: Scan<V>) {
    forall k :: 0 <= k < |s.duplicates| ==> s.duplicates[k].original in Keys(s.index)
  }

  /** Every stored file that a duplicate was matched against is still stored when the loop ends. */
  lemma {:induction false} RepresentativesKept<V, Frame>(paths: seq<string>, s: Scan<V>, o: Oracles<V, Frame>)
    requires Anchored(s)
    ensures Anchored(ScanFrom(paths, s, o))
    decreases |paths|
  {
    if paths != [] && !s.stopped {
      var s' := Polled(s, o);
      if !s'.world.abort {
        var h := Handle(paths[0], s', o);
        HandleGrowth(paths[0], s', o);
        assert Keys(s.index) <= Keys(h.index) by {
          forall p | p in Keys(s.index) ensures p in Keys(h.index) {
            var j :| 0 <= j < |s.index| && s.index[j].path == p;
            assert h.index[j].path == p;
          }
        }
        forall k | 0 <= k < |h.duplicates|
          ensures h.duplicates[k].original in Keys(h.index)
        {
          if k < |s.duplicates| {
            assert h.duplicates[k] == s.duplicates[k];
          } else {
            var j :| 0 <= j < |s.index| && s.index[j].path == h.duplicates[k].original;
          }
        }
        RepresentativesKept(paths[1..], h, o);
      }
    }
  }

  /** A file that disappears during the loop was the path of a duplicate that the user chose to delete. */
  lemma {:induction false} RemovedOnlyIfConfirmed<V, Frame>(paths: seq<string>, s: Scan<V>, o: Oracles<V, Frame>, p: string)
    requires p in s.world.disk.files && p !in ScanFrom(paths, s, o).world.disk.files
    ensures var r := ScanFrom(paths, s, o);
      exists k :: |s.duplicates| <= k < |r.duplicates| && r.duplicates[k].path == p && r.duplicates[k].delete
    decreases |paths|
  {
    var r := ScanFrom(paths, s, o);
    var s' := Polled(s, o);
    var h := Handle(paths[0], s', o);
    assert r == ScanFrom(paths[1..], h, o);
    ScanGrowth(paths[1..], h, o);
    if p !in h.world.disk.files {
      StepRemovesOnlyConfirmed(paths[0], s', o, p);
      assert r.duplicates[|s.duplicates|] == h.duplicates[|s.duplicates|];
    } else {
      RemovedOnlyIfConfirmed(paths[1..], h, o, p);
      var k :| |h.duplicates| <= k < |r.duplicates| && r.duplicates[k].path == p && r.duplicates[k].delete;
      assert |s.duplicates| <= |h.duplicates|;
    }
  }

  /** The number of prompts in a log. */
  function CountPrompts(log: seq<Event>): nat {
    if log == [] then 0 else CountPrompts(log[..|log| - 1]) + (if log[|log| - 1].Prompted? then 1 else 0)
  }

  lemma {:induction false} CountPromptsAppend(a: seq<Event>, b: seq<Event>)
    ensures CountPrompts(a + b) == CountPrompts(a) + CountPrompts(b)
    decreases |b|
  {
    if b == [] {
      assert a + b == a;
    } else {
      assert (a + b)[..|a + b| - 1] == a + b[..|b| - 1];
      CountPromptsAppend(a, b[..|b| - 1]);
    }
  }

  /**
   * The order the loop leaves in the log: every removal attempt comes right
   * after the prompt for the same file, and every backup copy attempt right
   * before it, into that file's backup path.
   */
  predicate Disciplined(log: seq<Event>) {
    RemovalsFollowPrompts(log) && CopiesPrecedePrompts(log)
  }

  predicate RemovalsFollowPrompts(log: seq<Event>) {
    forall i :: 0 <= i < |log| && (log[i].Removed? || log[i].RemoveFailed?) ==>
      0 < i && log[i - 1].Prompted? && log[i - 1].path == log[i].path
  }

  predicate CopiesPrecedePrompts(log: seq<Event>) {
    forall i :: 0 <= i < |log| && (log[i].Copied? || log[i].CopyFailed?) ==>
      i + 1 < |log| && log[i + 1].Prompted? && log[i + 1].path == log[i].source
      && (log[i].Copied? ==> log[i].target == BackupPath(log[i].source))
  }

  /** Two disciplined logs stay disciplined side by side when the second does not open with a removal. */
  lemma DisciplinedAppend(a: seq<Event>, b: seq<Event>)
    requires Disciplined(a) && Disciplined(b)
    ensures Disciplined(a + b)
  {
    var l := a + b;
    forall i | 0 <= i < |l| && (l[i].Removed? || l[i].RemoveFailed?)
      ensures 0 < i && l[i - 1].Prompted? && l[i - 1].path == l[i].path
    {
      if i < |a| {
        assert l[i] == a[i] && l[i - 1] == a[i - 1];
      } else {
        assert l[i] == b[i - |a|];
        assert l[i - 1] == b[i - |a| - 1];
      }
    }
    forall i | 0 <= i < |l| && (l[i].Copied? || l[i].CopyFailed?)
      ensures i + 1 < |l| && l[i + 1].Prompted? && l[i + 1].path == l[i].source
      ensures l[i].Copied? ==> l[i].target == BackupPath(l[i].source)
    {
      if i < |a| {
        assert l[i] == a[i] && l[i + 1] == a[i + 1];
      } else {
        assert l[i] == b[i - |a|] && l[i + 1] == b[i - |a| + 1];
      }
    }
  }

  /** The events of one duplicate, on their own, are disciplined. */
  lemma BlockDisciplined(path: string, original: string, pre: seq<Event>, post: seq<Event>)
    requires pre == [] || pre == [Copied(path, BackupPath(path))] || pre == [CopyFailed(path)]
    requires post == [] || post == [Removed(path)] || post == [RemoveFailed(path)]
    ensures Disciplined(pre + [Prompted(path, original)] + post)
  {
    var block := pre + [Prompted(path, original)] + post;
    var at := |pre|;
    assert block[at] == Prompted(path, original);
    assert forall i :: 0 <= i < at ==> block[i] == pre[i];
    assert forall i :: at < i < |block| ==> block[i] == post[i - at - 1];
  }

  /** The events of one duplicate hold one prompt. */
  lemma BlockPrompts(path: string, original: string, pre: seq<Event>, post: seq<Event>)
    requires pre == [] || pre == [Copied(path, BackupPath(path))] || pre == [CopyFailed(path)]
    requires post == [] || post == [Removed(path)] || post == [RemoveFailed(path)]
    ensures CountPrompts(pre + [Prompted(path, original)] + post) == 1
  {
    CountPromptsAppend(pre + [Prompted(path, original)], post);
    CountPromptsAppend(pre, [Prompted(path, original)]);
  }

  lemma DisciplinedBlock(log: seq<Event>, path: string, original: string, pre: seq<Event>, post: seq<Event>)
    requires Disciplined(log)
    requires pre == [] || pre == [Copied(path, BackupPath(path))] || pre == [CopyFailed(path)]
    requires post == [] || post == [Removed(path)] || post == [RemoveFailed(path)]
    ensures Disciplined(log + pre + [Prompted(path, original)] + post)
    ensures CountPrompts(log + pre + [Prompted(path, original)] + post) == CountPrompts(log) + 1
  {
    var block := pre + [Prompted(path, original)] + post;
    assert log + pre + [Prompted(path, original)] + post == log + block;
    BlockDisciplined(path, original, pre, post);
    BlockPrompts(path, original, pre, post);
    DisciplinedAppend(log, block);
    CountPromptsAppend(log, block);
  }

  /**
   * One prompt per duplicate and prompts kept in order: with no popup open at
   * the start, each duplicate opens exactly one popup, which is closed again
   * before the next file, and the log stays disciplined.
   */
  lemma {:induction false} OnePromptPerDuplicate<V, Frame>(paths: seq<string>, s: Scan<V>, o: Oracles<V, Frame>)
    requires !s.world.popup && Disciplined(s.world.disk.log)
    ensures var r := ScanFrom(paths, s, o);
      && !r.world.popup && Disciplined(r.world.disk.log)
      && CountPrompts(r.world.disk.log) == CountPrompts(s.world.disk.log) + |r.duplicates| - |s.duplicates|
      && |s.duplicates| <= |r.duplicates|
    decreases |paths|
  {
    if paths != [] && !s.stopped {
      var s' := Polled(s, o);
      if !s'.world.abort {
        var path := paths[0];
        var h := Handle(path, s', o);
        var features := FileFeatures(o.x, path);
        if features.Some? && FirstMatch(s'.index, features.value, o.sim).Some? {
          DuplicateNotStored(path, s', o);
          var k := |s'.duplicates|;
          var d := s'.world.disk;
          var copied := if o.backup(k) then Copy(d, path, BackupPath(path)) else d;
          var i := FirstMatch(s'.index, features.value, o.sim).value;
          DisciplinedBlock(d.log, path, s'.index[i].path,
            if o.backup(k) then [CopyOutcome(d, path, BackupPath(path))] else [],
            if o.delete(k) then [RemoveOutcome(copied, path)] else []);
        }
        OnePromptPerDuplicate(paths[1..], h, o);
      }
    }
  }
}
