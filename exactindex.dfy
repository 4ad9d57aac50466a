/**
 * The `hashes` dictionary of androidmobile.py and Deepcleaner.py: a map from
 * a perceptual hash to the first path seen with it. A file whose hash is
 * already a key is a duplicate of that key's path and leaves the map alone; a
 * new hash is inserted with the current path; a file without a hash is
 * skipped.
 */
module ExactIndex {
  import opened Wrappers
  import opened Hashing

  /** One file's effect on the dictionary. */
  function Record(m: map<Hash, string>, hash: Option<Hash>, path: string): (r: map<Hash, string>)
    ensures hash.None? ==> r == m
    ensures hash.Some? && hash.value in m ==> r == m
    ensures hash.Some? && hash.value !in m ==> r == m[hash.value := path]
  {
    match hash
    case None => m
    case Some(h) => if h in m then m else m[h := path]
  }

  /** The dictionary after the files `paths`, in order, starting from `m`. */
  function IndexFrom<Frame>(m: map<Hash, string>, paths: seq<string>, h: Hasher<Frame>): map<Hash, string>
    decreases |paths|
  {
    if paths == [] then m
    else IndexFrom(Record(m, FileHash(h, paths[0]), paths[0]), paths[1..], h)
  }

  /** The dictionary built from an empty start. */
  function Index<Frame>(paths: seq<string>, h: Hasher<Frame>): map<Hash, string> {
    IndexFrom(map[], paths, h)
  }

  /** Handling a list in two parts is handling it whole. */
  lemma {:induction false} IndexFromAppend<Frame>(m: map<Hash, string>, a: seq<string>, b: seq<string>, h: Hasher<Frame>)
    ensures IndexFrom(m, a + b, h) == IndexFrom(IndexFrom(m, a, h), b, h)
    decreases |a|
  {
    if a == [] {
      assert a + b == b;
    } else {
      assert (a + b)[0] == a[0] && (a + b)[1..] == a[1..] + b;
      IndexFromAppend(Record(m, FileHash(h, a[0]), a[0]), a[1..], b, h);
    }
  }

  /** The dictionary after one more file. */
  lemma IndexSnoc<Frame>(paths: seq<string>, p: string, h: Hasher<Frame>)
    ensures Index(paths + [p], h) == Record(Index(paths, h), FileHash(h, p), p)
  {
    IndexFromAppend(map[], paths, [p], h);
    assert [p][1..] == [];
  }

  /** Values are never overwritten: every entry present at the start is present, unchanged, at the end. */
  lemma {:induction false} ValuesNeverOverwritten<Frame>(m: map<Hash, string>, paths: seq<string>, h: Hasher<Frame>)
    ensures var r := IndexFrom(m, paths, h);
      forall k :: k in m ==> k in r && r[k] == m[k]
    decreases |paths|
  {
    if paths != [] {
      var m' := Record(m, FileHash(h, paths[0]), paths[0]);
      ValuesNeverOverwritten(m', paths[1..], h);
      var r := IndexFrom(m', paths[1..], h);
      assert r == IndexFrom(m, paths, h);
      forall k | k in m ensures k in r && r[k] == m[k] {
        assert k in m' && m'[k] == m[k];
      }
    }
  }

  /** The hash of the j-th file is `hash`, and no earlier file has it. */
  predicate FirstWith<Frame>(paths: seq<string>, h: Hasher<Frame>, hash: Hash, j: int) {
    && 0 <= j < |paths|
    && FileHash(h, paths[j]) == Some(hash)
    && forall i :: 0 <= i < j ==> FileHash(h, paths[i]) != Some(hash)
  }

  /**
   * The keys are exactly the hashes of the files, and each maps to the first
   * file with that hash.
   */
  lemma {:induction false} FirstSeen<Frame>(paths: seq<string>, h: Hasher<Frame>, hash: Hash)
    ensures hash in Index(paths, h) <==> exists j :: 0 <= j < |paths| && FileHash(h, paths[j]) == Some(hash)
    ensures hash in Index(paths, h) ==> exists j :: FirstWith(paths, h, hash, j) && Index(paths, h)[hash] == paths[j]
    decreases |paths|
  {
    if paths == [] {
    } else {
      var init, p := paths[..|paths| - 1], paths[|paths| - 1];
      assert paths == init + [p];
      IndexSnoc(init, p, h);
      FirstSeen(init, h, hash);
      var m := Index(init, h);
      if hash in m {
        var j :| FirstWith(init, h, hash, j) && m[hash] == init[j];
        assert FirstWith(paths, h, hash, j) by {
          forall i | 0 <= i < j ensures paths[i] == init[i] { }
        }
        assert paths[j] == init[j];
        var j' :| 0 <= j' < |init| && FileHash(h, init[j']) == Some(hash);
        assert paths[j'] == init[j'];
      } else if FileHash(h, p) == Some(hash) {
        assert FirstWith(paths, h, hash, |paths| - 1) by {
          forall i | 0 <= i < |paths| - 1 ensures FileHash(h, paths[i]) != Some(hash) {
            assert paths[i] == init[i];
          }
        }
      } else {
        forall j | 0 <= j < |paths| ensures FileHash(h, paths[j]) != Some(hash) {
          if j < |init| {
            assert paths[j] == init[j];
          }
        }
      }
    }
  }

  /** Every value is one of the files, so the map never holds more keys than there are files. */
  lemma {:induction false} UniqueCountBound<Frame>(paths: seq<string>, h: Hasher<Frame>)
    ensures |Index(paths, h)| <= |paths|
    decreases |paths|
  {
    if paths != [] {
      var init, p := paths[..|paths| - 1], paths[|paths| - 1];
      assert paths == init + [p];
      IndexSnoc(init, p, h);
      UniqueCountBound(init, h);
      var m := Index(init, h);
      var hash := FileHash(h, p);
      if hash.Some? && hash.value !in m {
        assert m[hash.value := p].Keys == m.Keys + {hash.value};
      }
    }
  }

  /** Two files with the same hash are never both keys' values: the later one is a duplicate. */
  lemma LaterSameHashIsDuplicate<Frame>(paths: seq<string>, h: Hasher<Frame>, i: nat, j: nat, hash: Hash)
    requires i < j < |paths|
    requires FileHash(h, paths[i]) == Some(hash) && FileHash(h, paths[j]) == Some(hash)
    ensures hash in Index(paths[..j], h)
  {
    assert paths[..j][i] == paths[i];
    FirstSeen(paths[..j], h, hash);
  }
}
