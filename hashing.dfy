/**
 * The perceptual-hash fingerprint of androidmobile.py and Deepcleaner.py:
 * `get_file_hash` dispatches on the suffix to the image hash or to the hash
 * of a video's first frame; `compare_files` gives the bit distance of two
 * hashes. The hashing library and the video decoder enter as the functions
 * of a `Hasher`.
 */
module Hashing {
  import opened Wrappers
  import opened Paths

  /** `imagehash.phash` with its default size yields an 8 x 8 bit matrix. */
  const HashBits: nat := 64

  /** A perceptual hash, flattened to its bits; two hashes are equal (and hash equal) when their bits are. */
  type Hash = h: seq<bool> | |h| == HashBits witness seq(64, i => false)

  /** The foreign code behind hashing, as functions of their inputs. */
  datatype Hasher<!Frame> = Hasher(
    // get_image_hash: phash of the opened image; None when it cannot be opened
    imageHash: string -> Option<Hash>,
    // video.read() on a fresh capture; None when ret is false
    firstFrame: string -> Option<Frame>,
    // phash of the grey-scale frame; None when the conversion raises
    frameHash: Frame -> Option<Hash>)

  /**
   * `get_video_hash`: the hash of the first frame, None when no frame can be
   * read. Only the first frame is read, so two videos with the same first
   * frame get the same hash.
   */
  function VideoHash<Frame>(h: Hasher<Frame>, path: string): (r: Option<Hash>)
    ensures h.firstFrame(path).None? ==> r.None?
  {
    match h.firstFrame(path)
    case None => None
    case Some(frame) => h.frameHash(frame)
  }

  /** `get_file_hash`: the image hash for an image suffix, the video hash for a video suffix, None otherwise. */
  function FileHash<Frame>(h: Hasher<Frame>, path: string): (r: Option<Hash>)
    ensures !EndsWithAny(Lower(path), MediaExtensions) ==> r == None
    ensures EndsWithAny(Lower(path), ImageExtensions) ==> r == h.imageHash(path)
    ensures EndsWithAny(Lower(path), VideoExtensions) ==> r == VideoHash(h, path)
  {
    match KindOf(path)
    case Image => h.imageHash(path)
    case Video => VideoHash(h, path)
    case Unsupported => None
  }

  /** The number of positions at which two equally long bit strings differ. */
  function DiffCount(a: seq<bool>, b: seq<bool>): nat
    requires |a| == |b|
  {
    if a == [] then 0
    else DiffCount(a[..|a| - 1], b[..|b| - 1]) + (if a[|a| - 1] != b[|b| - 1] then 1 else 0)
  }

  /** The bit distance is zero exactly for equal strings, and at most their length. */
  lemma {:induction false} DiffCountProperties(a: seq<bool>, b: seq<bool>)
    requires |a| == |b|
    ensures DiffCount(a, b) <= |a|
    ensures DiffCount(a, b) == 0 <==> a == b
    ensures DiffCount(a, b) == DiffCount(b, a)
  {
    if a != [] {
      var a', b' := a[..|a| - 1], b[..|b| - 1];
      DiffCountProperties(a', b');
      assert a == a' + [a[|a| - 1]] && b == b' + [b[|b| - 1]];
      if a' != b' {
        assert a != b;
      }
    }
  }

  /** `hash1 - hash2` of two image hashes: the number of differing bits. */
  function HashDistance(a: Hash, b: Hash): nat {
    DiffCount(a, b)
  }

  /** What `compare_files` returns: False, or the integer distance. */
  datatype Comparison = NotComparable | Distance(bits: nat)

  /**
   * `compare_files`: False when either file yields no hash, otherwise the bit
   * distance of the two hashes; distance 0 means exactly the equal hashes the
   * scan's dictionary treats as the same key.
   */
  function CompareFiles<Frame>(h: Hasher<Frame>, file1: string, file2: string): (c: Comparison)
    ensures c == NotComparable <==> FileHash(h, file1).None? || FileHash(h, file2).None?
    ensures c.Distance? ==> c.bits <= HashBits
    ensures c.Distance? ==> (c.bits == 0 <==> FileHash(h, file1) == FileHash(h, file2))
  {
    var hash1 := FileHash(h, file1);
    var hash2 := FileHash(h, file2);
    if hash1.None? || hash2.None? then NotComparable
    else
      DiffCountProperties(hash1.value, hash2.value);
      Distance(HashDistance(hash1.value, hash2.value))
  }
}
