/**
 * The scan of androidmobile.py: the files found by the walk are fingerprinted
 * with a perceptual hash, and a hash already in the `hashes` dictionary makes
 * the file a duplicate of the path stored for it, which the user may delete
 * through a popup. The abort flag is read before each file and again after
 * each file that has a hash.
 */
module AndroidMobile {
  import opened Wrappers
  import opened Discovery
  import opened Hashing
  import opened ExactIndex
  import opened Disk
  import opened Session

  /** A duplicate the scan met, the path it duplicates, and the user's answer (Delete when true). */
  datatype Duplicate = Duplicate(path: string, original: string, delete: bool)

  /** The scan's state: `hashes`, the shared world, the abort reads so far, the duplicates so far, and whether the loop broke. */
  datatype Scan = Scan(
    hashes: map<Hash, string>,
    world: World,
    polls: nat,
    duplicates: seq<Duplicate>,
    stopped: bool)

  /** The hashing library, the k-th popup's answer, and whether Abort was pressed before the j-th read of the flag. */
  datatype Oracles<!Frame> = Oracles(h: Hasher<Frame>, delete: nat -> bool, abortPressed: nat -> bool)

  function InitialScan(w: World): Scan {
    Scan(map[], w, 0, [], false)
  }

  /** One read of `abort_scan`. */
  function Polled<Frame>(s: Scan, o: Oracles<Frame>): (r: Scan)
    ensures r.world.abort == (s.world.abort || o.abortPressed(s.polls)) && r.polls == s.polls + 1
    ensures r.hashes == s.hashes && r.duplicates == s.duplicates && r.stopped == s.stopped
    ensures r.world.disk == s.world.disk && r.world.popup == s.world.popup
  {
    s.(world := Poll(s.world, o.abortPressed(s.polls)), polls := s.polls + 1)
  }

  /**
   * A file with hash `hash`: a known hash opens the popup for the path stored
   * under it and waits for Delete or Skip, leaving the dictionary alone; a
   * new hash is stored with the file's path.
   */
  function Handle<Frame>(path: string, hash: Hash, s: Scan, o: Oracles<Frame>): Scan {
    if hash in s.hashes then
      var k := |s.duplicates|;
      var original := s.hashes[hash];
      s.(world := Resolve(ShowPopup(s.world, path, original), path, o.delete(k)),
         duplicates := s.duplicates + [Duplicate(path, original, o.delete(k))])
    else s.(hashes := s.hashes[hash := path])
  }

  /**
   * The loop over `file_paths` from state `s`: break if the flag is set;
   * `continue` (skipping the second read) for a file without a hash;
   * otherwise handle the file and break if the flag is set now.
   */
  function ScanFrom<Frame>(paths: seq<string>, s: Scan, o: Oracles<Frame>): Scan
    decreases |paths|
  {
    if paths == [] || s.stopped then s
    else
      var s1 := Polled(s, o);
      if s1.world.abort then s1.(stopped := true)
      else match FileHash(o.h, paths[0])
        case None => ScanFrom(paths[1..], s1, o)
        case Some(hash) =>
          var s2 := Polled(Handle(paths[0], hash, s1, o), o);
          if s2.world.abort then s2.(stopped := true)
          else ScanFrom(paths[1..], s2, o)
  }

  /** The final `if not abort_scan:` read: the count for `result_callback`, or nothing once aborted. */
  function Result<Frame>(s: Scan, o: Oracles<Frame>): (r: Option<nat>)
    ensures r.None? <==> s.world.abort || o.abortPressed(s.polls)
    ensures r.Some? ==> r.value == |s.hashes|
  {
    if Poll(s.world, o.abortPressed(s.polls)).abort then None else Some(|s.hashes|)
  }

  /** `process_files` with the popup's answers supplied by `o`. */
  method ProcessFiles<Frame>(session: ScanSession, walk: seq<WalkEntry>, o: Oracles<Frame>)
    returns (result: Option<nat>)
    requires !session.popupActive
    modifies session
    ensures var mid := ScanFrom(Discovered(walk, ExcludedDirs), InitialScan(old(session.State())), o);
      && session.State() == Poll(mid.world, o.abortPressed(mid.polls))
      && result == Result(mid, o)
  {
    var paths := Discover(walk, ExcludedDirs);
    ghost var init := InitialScan(session.State());
    var hashes: map<Hash, string> := map[];
    var polls: nat := 0;
    var duplicates: seq<Duplicate> := [];
    ghost var stopped := false;
    var i := 0;
    while i < |paths|
      invariant 0 <= i <= |paths|
      invariant !session.popupActive && !stopped
      invariant ScanFrom(paths, init, o) == ScanFrom(paths[i..], Scan(hashes, session.State(), polls, duplicates, false), o)
    {
      ghost var before := Scan(hashes, session.State(), polls, duplicates, false);
      var aborted := session.PollAbort(o.abortPressed(polls));
      polls := polls + 1;
      ghost var polled := Scan(hashes, session.State(), polls, duplicates, false);
      assert polled == Polled(before, o);
      if aborted {
        stopped := true;
        assert ScanFrom(paths[i..], before, o) == polled.(stopped := true);
        break;
      }
      var path := paths[i];
      assert paths[i..][1..] == paths[i + 1..];
      var fileHash := FileHash(o.h, path);
      if fileHash.None? {
        i := i + 1;
        continue;
      }
      var hash := fileHash.value;
      hashes, duplicates := HandleFile(session, path, hash, hashes, polls, duplicates, o);
      ghost var handled := Scan(hashes, session.State(), polls, duplicates, false);
      assert handled == Handle(path, hash, polled, o);
      ghost var before2 := handled;
      aborted := session.PollAbort(o.abortPressed(polls));
      polls := polls + 1;
      assert Scan(hashes, session.State(), polls, duplicates, false) == Polled(before2, o);
      if aborted {
        // progress_callback("Scan aborted.")
        stopped := true;
        break;
      }
      i := i + 1;
    }
    ghost var mid := Scan(hashes, session.State(), polls, duplicates, stopped);
    assert ScanFrom(paths, init, o) == mid;
    var aborted := session.PollAbort(o.abortPressed(polls));
    result := if aborted then None else Some(|hashes|);
  }

  /** The body of the loop for a file with hash `hash`, as `Handle` describes it. */
  method HandleFile<Frame>(session: ScanSession, path: string, hash: Hash, hashes: map<Hash, string>,
                           polls: nat, duplicates: seq<Duplicate>, o: Oracles<Frame>)
    returns (hashes': map<Hash, string>, duplicates': seq<Duplicate>)
    requires !session.popupActive
    modifies session
    ensures Scan(hashes', session.State(), polls, duplicates', false)
      == Handle(path, hash, Scan(hashes, old(session.State()), polls, duplicates, false), o)
    ensures !session.popupActive
  {
    hashes', duplicates' := hashes, duplicates;
    if hash in hashes {
      var original := hashes[hash];
      var k := |duplicates|;
      session.ShowDeletionPopup(path, original);
      // scan_event.wait(): the user answers the popup with Delete or Skip
      if o.delete(k) {
        session.DeleteAction(path);
      } else {
        session.SkipAction();
      }
      duplicates' := duplicates + [Duplicate(path, original, o.delete(k))];
    } else {
      hashes' := hashes[hash := path];
    }
  }

  // ---------------------------------------------------------------- properties

  /** Scanning a list in two parts is scanning it whole. */
  lemma {:induction false} ScanAppend<Frame>(a: seq<string>, b: seq<string>, s: Scan, o: Oracles<Frame>)
    ensures ScanFrom(a + b, s, o) == ScanFrom(b, ScanFrom(a, s, o), o)
    decreases |a|
  {
    if a == [] {
      assert a + b == b;
    } else if !s.stopped {
      var s1 := Polled(s, o);
      assert (a + b)[0] == a[0] && (a + b)[1..] == a[1..] + b;
      if !s1.world.abort {
        match FileHash(o.h, a[0])
        case None => ScanAppend(a[1..], b, s1, o);
        case Some(hash) =>
          var s2 := Polled(Handle(a[0], hash, s1, o), o);
          if !s2.world.abort {
            ScanAppend(a[1..], b, s2, o);
          }
      }
    }
  }

  /** Once the loop has broken, no later file is hashed, prompted for or stored. */
  lemma AbortedScanIgnoresRest<Frame>(a: seq<string>, b: seq<string>, s: Scan, o: Oracles<Frame>)
    requires ScanFrom(a, s, o).stopped
    ensures ScanFrom(a + b, s, o) == ScanFrom(a, s, o)
  {
    ScanAppend(a, b, s, o);
  }

  /** A file without a hash is neither stored nor prompted for, and the flag is not read a second time for it. */
  lemma HashlessFileSkipped<Frame>(path: string, rest: seq<string>, s: Scan, o: Oracles<Frame>)
    requires !s.stopped && FileHash(o.h, path).None? && !(s.world.abort || o.abortPressed(s.polls))
    ensures ScanFrom([path] + rest, s, o) == ScanFrom(rest, Polled(s, o), o)
  {
    assert ([path] + rest)[1..] == rest;
  }

  /**
   * A file whose hash is already stored is a duplicate of the stored path: the
   * dictionary is unchanged, one prompt is logged, the popup is closed again,
   * and the file is removed only if Delete was chosen.
   */
  lemma KnownHashIsDuplicate<Frame>(path: string, hash: Hash, s: Scan, o: Oracles<Frame>)
    requires hash in s.hashes && !s.world.popup
    ensures var r := Handle(path, hash, s, o);
      var k := |s.duplicates|;
      && r.hashes == s.hashes
      && r.duplicates == s.duplicates + [Duplicate(path, s.hashes[hash], o.delete(k))]
      && !r.world.popup && r.world.abort == s.world.abort
      && r.world.disk.log == s.world.disk.log + [Prompted(path, s.hashes[hash])]
           + (if o.delete(k) then [RemoveOutcome(s.world.disk, path)] else [])
      && (o.delete(k) ==> r.world.disk == Remove(s.world.disk.(log := s.world.disk.log + [Prompted(path, s.hashes[hash])]), path))
      && (!o.delete(k) ==> r.world.disk.files == s.world.disk.files)
  {
  }

  /** A new hash is stored with the current path, and nothing else changes. */
  lemma NewHashStored<Frame>(path: string, hash: Hash, s: Scan, o: Oracles<Frame>)
    requires hash !in s.hashes
    ensures Handle(path, hash, s, o) == s.(hashes := s.hashes[hash := path])
  {
  }

  /**
   * What the loop computed: the dictionary is the one built from the files of a
   * prefix of the list (the files handled before the break), and from the
   * whole list when the loop did not break.
   */
  lemma {:induction false} ScanBuildsIndex<Frame>(paths: seq<string>, s: Scan, o: Oracles<Frame>)
    requires !s.stopped
    ensures var r := ScanFrom(paths, s, o);
      exists n :: 0 <= n <= |paths| && r.hashes == IndexFrom(s.hashes, paths[..n], o.h)
        && (!r.stopped ==> n == |paths|)
    decreases |paths|
  {
    var r := ScanFrom(paths, s, o);
    if paths == [] {
      assert r.hashes == IndexFrom(s.hashes, paths[..0], o.h);
    } else {
      var s1 := Polled(s, o);
      if s1.world.abort {
        assert r.hashes == IndexFrom(s.hashes, paths[..0], o.h);
      } else {
        var t;
        match FileHash(o.h, paths[0]) {
          case None =>
            t := s1;
          case Some(hash) =>
            t := Polled(Handle(paths[0], hash, s1, o), o);
        }
        assert t.hashes == Record(s.hashes, FileHash(o.h, paths[0]), paths[0]);
        if t.world.abort && FileHash(o.h, paths[0]).Some? {
          assert r == t.(stopped := true);
          assert paths[..1][1..] == [];
          assert r.hashes == IndexFrom(s.hashes, paths[..1], o.h);
        } else {
          assert r == ScanFrom(paths[1..], t, o);
          ScanBuildsIndex(paths[1..], t, o);
          var n :| 0 <= n <= |paths[1..]| && r.hashes == IndexFrom(t.hashes, paths[1..][..n], o.h)
            && (!r.stopped ==> n == |paths[1..]|);
          assert paths[..n + 1][0] == paths[0] && paths[..n + 1][1..] == paths[1..][..n];
          assert r.hashes == IndexFrom(s.hashes, paths[..n + 1], o.h);
        }
      }
    }
  }

  /** A scan that was not aborted leaves exactly the dictionary of all the files. */
  lemma CompletedScanIndexesAll<Frame>(paths: seq<string>, w: World, o: Oracles<Frame>)
    requires !ScanFrom(paths, InitialScan(w), o).stopped
    ensures ScanFrom(paths, InitialScan(w), o).hashes == Index(paths, o.h)
  {
    ScanBuildsIndex(paths, InitialScan(w), o);
    assert paths[..|paths|] == paths;
  }

  /** Every duplicate so far duplicates the path stored under its own hash. */
  predicate Anchored<Frame>(s: Scan, o: Oracles<Frame>) {
    forall k :: 0 <= k < |s.duplicates| ==>
      var hash := FileHash(o.h, s.duplicates[k].path);
      hash.Some? && hash.value in s.hashes && s.hashes[hash.value] == s.duplicates[k].original
  }

  /** Each duplicate is one of the path stored first under its hash, and stays so to the end of the loop. */
  lemma {:induction false} DuplicatesOfFirstSeen<Frame>(paths: seq<string>, s: Scan, o: Oracles<Frame>)
    requires Anchored(s, o)
    ensures Anchored(ScanFrom(paths, s, o), o)
    decreases |paths|
  {
    if paths != [] && !s.stopped {
      var s1 := Polled(s, o);
      if !s1.world.abort {
        match FileHash(o.h, paths[0])
        case None => DuplicatesOfFirstSeen(paths[1..], s1, o);
        case Some(hash) =>
          var h := Handle(paths[0], hash, s1, o);
          var s2 := Polled(h, o);
          assert Anchored(s2, o) by {
            forall k | 0 <= k < |s2.duplicates|
              ensures var hk := FileHash(o.h, s2.duplicates[k].path);
                hk.Some? && hk.value in s2.hashes && s2.hashes[hk.value] == s2.duplicates[k].original
            {
              if k < |s.duplicates| {
                assert s2.duplicates[k] == s.duplicates[k];
              }
            }
          }
          if !s2.world.abort {
            DuplicatesOfFirstSeen(paths[1..], s2, o);
          }
      }
    }
  }

  /**
   * With no popup open at the start, every popup is closed before the next
   * file, each duplicate logs exactly one prompt, and a file disappears only
   * as a duplicate whose popup was answered with Delete.
   */
  lemma {:induction false} PopupsResolved<Frame>(paths: seq<string>, s: Scan, o: Oracles<Frame>, p: string)
    requires !s.world.popup
    ensures var r := ScanFrom(paths, s, o);
      && !r.world.popup
      && s.duplicates <= r.duplicates
      && r.world.disk.locked == s.world.disk.locked
      && (p in s.world.disk.files && p !in r.world.disk.files ==>
            exists k :: |s.duplicates| <= k < |r.duplicates| && r.duplicates[k].path == p && r.duplicates[k].delete)
    decreases |paths|
  {
    if paths != [] && !s.stopped {
      var s1 := Polled(s, o);
      if !s1.world.abort {
        match FileHash(o.h, paths[0])
        case None => PopupsResolved(paths[1..], s1, o, p);
        case Some(hash) =>
          var h := Handle(paths[0], hash, s1, o);
          var s2 := Polled(h, o);
          var r := ScanFrom(paths, s, o);
          if !s2.world.abort {
            PopupsResolved(paths[1..], s2, o, p);
            assert r == ScanFrom(paths[1..], s2, o);
            if p in s.world.disk.files && p !in r.world.disk.files {
              if p !in s2.world.disk.files {
                assert r.duplicates[|s.duplicates|] == s2.duplicates[|s.duplicates|];
              } else {
                var k :| |s2.duplicates| <= k < |r.duplicates| && r.duplicates[k].path == p && r.duplicates[k].delete;
              }
            }
          } else {
            assert r == s2.(stopped := true);
            if p in s.world.disk.files && p !in r.world.disk.files {
              assert r.duplicates[|s.duplicates|].path == p;
            }
          }
      }
    }
  }

  // ---------------------------------------------------------------- the popup as written

  /**
   * How the loop ends as the source is written. `show_deletion_popup` marks a
   * popup open and then calls `window.after`, but `window` is declared global
   * in `build` and never assigned, so the call raises `NameError`, which
   * nothing catches: the scan thread ends at the first duplicate, with the
   * popup flag left set, no prompt shown and no result reported. A later scan
   * starts with the flag still set: at its first duplicate
   * `show_deletion_popup` returns at once and `scan_event.wait()` never
   * returns, because nothing is left to set the event.
   */
  datatype Ending = Finished | Crashed | Hangs

  datatype Run = Run(scan: Scan, ending: Ending)

  function ScanAsWritten<Frame>(paths: seq<string>, s: Scan, o: Oracles<Frame>): Run
    decreases |paths|
  {
    if paths == [] || s.stopped then Run(s, Finished)
    else
      var s1 := Polled(s, o);
      if s1.world.abort then Run(s1.(stopped := true), Finished)
      else match FileHash(o.h, paths[0])
        case None => ScanAsWritten(paths[1..], s1, o)
        case Some(hash) =>
          if hash in s1.hashes then
            if s1.world.popup then Run(s1, Hangs)
            else Run(s1.(world := s1.world.(popup := true)), Crashed)
          else
            var s2 := Polled(Handle(paths[0], hash, s1, o), o);
            if s2.world.abort then Run(s2.(stopped := true), Finished)
            else ScanAsWritten(paths[1..], s2, o)
  }

  /** What `result_callback` receives as written: nothing after the crash or while the scan hangs. */
  function ResultAsWritten<Frame>(run: Run, o: Oracles<Frame>): (r: Option<nat>)
    ensures run.ending != Finished ==> r.None?
    ensures run.ending == Finished ==> r == Result(run.scan, o)
  {
    if run.ending != Finished then None else Result(run.scan, o)
  }

  /** The duplicates only grow. */
  lemma {:induction false} DuplicatesGrow<Frame>(paths: seq<string>, s: Scan, o: Oracles<Frame>)
    ensures s.duplicates <= ScanFrom(paths, s, o).duplicates
    decreases |paths|
  {
    if paths != [] && !s.stopped {
      var s1 := Polled(s, o);
      if !s1.world.abort {
        match FileHash(o.h, paths[0])
        case None => DuplicatesGrow(paths[1..], s1, o);
        case Some(hash) =>
          var s2 := Polled(Handle(paths[0], hash, s1, o), o);
          if !s2.world.abort {
            DuplicatesGrow(paths[1..], s2, o);
          }
      }
    }
  }

  /**
   * The two loops agree until the first duplicate. A scan that meets no
   * duplicate runs the same as written as intended; one that meets a
   * duplicate crashes there, with the popup flag stuck, nothing removed and
   * nothing prompted, although the intended loop would have prompted.
   */
  lemma {:induction false} PopupCrashesScan<Frame>(paths: seq<string>, s: Scan, o: Oracles<Frame>)
    requires !s.world.popup
    ensures var run := ScanAsWritten(paths, s, o);
      var r := ScanFrom(paths, s, o);
      && (|r.duplicates| == |s.duplicates| ==> run == Run(r, Finished))
      && (|r.duplicates| > |s.duplicates| ==>
            && run.ending == Crashed && run.scan.world.popup && run.scan.duplicates == s.duplicates
            && run.scan.world.disk == s.world.disk
            && |r.world.disk.log| > |s.world.disk.log|)
    decreases |paths|
  {
    if paths != [] && !s.stopped {
      var s1 := Polled(s, o);
      if !s1.world.abort {
        match FileHash(o.h, paths[0])
        case None => PopupCrashesScan(paths[1..], s1, o);
        case Some(hash) =>
          var h := Handle(paths[0], hash, s1, o);
          var s2 := Polled(h, o);
          var r := ScanFrom(paths, s, o);
          PopupsResolved(paths[1..], s2, o, "");
          LogGrows(paths[1..], s2, o);
          if hash in s1.hashes {
            assert |s2.world.disk.log| > |s.world.disk.log|;
            if !s2.world.abort {
              assert r == ScanFrom(paths[1..], s2, o);
            }
          } else if !s2.world.abort {
            PopupCrashesScan(paths[1..], s2, o);
          }
      }
    }
  }

  /**
   * A scan started with the popup flag still set from a crash runs as
   * intended until its first duplicate and waits there for ever, with
   * nothing removed.
   */
  lemma {:induction false} StuckPopupHangsScan<Frame>(paths: seq<string>, s: Scan, o: Oracles<Frame>)
    requires s.world.popup
    ensures var run := ScanAsWritten(paths, s, o);
      var r := ScanFrom(paths, s, o);
      && (|r.duplicates| == |s.duplicates| ==> run == Run(r, Finished))
      && (|r.duplicates| > |s.duplicates| ==>
            && run.ending == Hangs && run.scan.world.popup && run.scan.duplicates == s.duplicates
            && run.scan.world.disk == s.world.disk)
    decreases |paths|
  {
    if paths != [] && !s.stopped {
      var s1 := Polled(s, o);
      if !s1.world.abort {
        match FileHash(o.h, paths[0])
        case None => StuckPopupHangsScan(paths[1..], s1, o);
        case Some(hash) =>
          var s2 := Polled(Handle(paths[0], hash, s1, o), o);
          DuplicatesGrow(paths[1..], s2, o);
          if hash !in s1.hashes && !s2.world.abort {
            StuckPopupHangsScan(paths[1..], s2, o);
          }
      }
    }
  }

  /** The log only grows. */
  lemma {:induction false} LogGrows<Frame>(paths: seq<string>, s: Scan, o: Oracles<Frame>)
    ensures s.world.disk.log <= ScanFrom(paths, s, o).world.disk.log
    decreases |paths|
  {
    if paths != [] && !s.stopped {
      var s1 := Polled(s, o);
      if !s1.world.abort {
        match FileHash(o.h, paths[0])
        case None => LogGrows(paths[1..], s1, o);
        case Some(hash) =>
          var s2 := Polled(Handle(paths[0], hash, s1, o), o);
          if !s2.world.abort {
            LogGrows(paths[1..], s2, o);
          }
      }
    }
  }
}
