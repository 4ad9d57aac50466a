/**
 * File-name tests shared by the three programs: Python's `str.lower()`,
 * `str.endswith(tuple)`, the substring test `sub in s`, and the Windows
 * flavour of `os.path.join` and `os.path.basename` (the programs walk `C:\`).
 */
module Paths {

  /** The image suffixes, in the order of the source's tuple. */
  const ImageExtensions: seq<string> := [".png", ".jpg", ".jpeg", ".gif", ".bmp"]
  /** The video suffixes, in the order of the source's tuple. */
  const VideoExtensions: seq<string> := [".mp4", ".avi", ".mov", ".mkv", ".flv"]
  /** The ten suffixes of the discovery filter: the image ones, then the video ones. */
  const MediaExtensions: seq<string> := ImageExtensions + VideoExtensions

  function LowerChar(c: char): char {
    if 'A' <= c <= 'Z' then (c as int + 32) as char else c
  }

  /** `s.lower()`, for ASCII letters. */
  function Lower(s: string): string {
    seq(|s|, i requires 0 <= i < |s| => LowerChar(s[i]))
  }

  /** `s.endswith(suffix)`. */
  predicate EndsWith(s: string, suffix: string) {
    |suffix| <= |s| && s[|s| - |suffix|..] == suffix
  }

  /** `s.endswith(suffixes)` for a tuple of suffixes. */
  predicate EndsWithAny(s: string, suffixes: seq<string>) {
    exists i :: 0 <= i < |suffixes| && EndsWith(s, suffixes[i])
  }

  predicate OccursAt(s: string, sub: string, i: int) {
    0 <= i <= |s| - |sub| && s[i..i + |sub|] == sub
  }

  /** `sub in s` for two strings. */
  predicate Contains(s: string, sub: string) {
    exists i | 0 <= i <= |s| :: OccursAt(s, sub, i)
  }

  /** The name test of discovery: the lowercased name ends in one of the ten suffixes. */
  predicate IsMediaName(name: string) {
    EndsWithAny(Lower(name), MediaExtensions)
  }

  /** What the extension dispatch of `get_file_features` / `get_file_hash` selects. */
  datatype Kind = Image | Video | Unsupported

  /**
   * The dispatch: the image suffixes are tested first, then the video ones,
   * both on the lowercased path. Because no name ends in both an image and a
   * video suffix, each kind is exactly "ends in one of its own suffixes".
   */
  function KindOf(path: string): (k: Kind)
    ensures k == Image <==> EndsWithAny(Lower(path), ImageExtensions)
    ensures k == Video <==> EndsWithAny(Lower(path), VideoExtensions)
    ensures k == Unsupported <==> !EndsWithAny(Lower(path), MediaExtensions)
  {
    var name := Lower(path);
    ExtensionsDisjoint(name);
    EndsWithAnyConcat(name, ImageExtensions, VideoExtensions);
    if EndsWithAny(name, ImageExtensions) then Image
    else if EndsWithAny(name, VideoExtensions) then Video
    else Unsupported
  }

  lemma LastCharOfSuffix(s: string, suffix: string)
    requires EndsWith(s, suffix) && |suffix| > 0
    ensures s[|s| - 1] == suffix[|suffix| - 1]
  {
    assert s[|s| - |suffix|..][|suffix| - 1] == s[|s| - 1];
  }

  /** No name ends in both an image and a video suffix: their last letters differ. */
  lemma ExtensionsDisjoint(s: string)
    ensures EndsWithAny(s, ImageExtensions) ==> !EndsWithAny(s, VideoExtensions)
  {
    if |s| > 0 {
      forall e | e in MediaExtensions && EndsWith(s, e)
        ensures s[|s| - 1] == e[|e| - 1]
      {
        LastCharOfSuffix(s, e);
      }
    }
  }

  lemma EndsWithAnyConcat(s: string, a: seq<string>, b: seq<string>)
    ensures EndsWithAny(s, a + b) <==> EndsWithAny(s, a) || EndsWithAny(s, b)
  {
    if EndsWithAny(s, a + b) {
      var i :| 0 <= i < |a + b| && EndsWith(s, (a + b)[i]);
      if i >= |a| {
        assert (a + b)[i] == b[i - |a|];
      }
    }
    if EndsWithAny(s, a) {
      var i :| 0 <= i < |a| && EndsWith(s, a[i]);
      assert (a + b)[i] == a[i];
    }
    if EndsWithAny(s, b) {
      var i :| 0 <= i < |b| && EndsWith(s, b[i]);
      assert (a + b)[|a| + i] == b[i];
    }
  }

  lemma LowerConcat(a: string, b: string)
    ensures Lower(a + b) == Lower(a) + Lower(b)
  {
  }

  lemma LowerIdempotent(s: string)
    ensures Lower(Lower(s)) == Lower(s)
  {
  }

  /** The dispatch does not depend on letter case. */
  lemma KindIgnoresCase(path: string)
    ensures KindOf(Lower(path)) == KindOf(path)
  {
    LowerIdempotent(path);
  }

  /** A suffix of the last component is a suffix of the whole path. */
  lemma EndsWithAppend(prefix: string, s: string, suffix: string)
    requires EndsWith(s, suffix)
    ensures EndsWith(prefix + s, suffix)
  {
    assert (prefix + s)[|prefix + s| - |suffix|..] == s[|s| - |suffix|..];
  }

  predicate IsSep(c: char) {
    c == '\\' || c == '/'
  }

  /** `os.path.join(root, name)` on Windows, for a plain file name. */
  function Join(root: string, name: string): (p: string)
    ensures EndsWith(p, name)
  {
    var prefix := if root == [] || IsSep(root[|root| - 1]) then root else root + "\\";
    EndsWithAppend(prefix, name, name);
    prefix + name
  }

  /** Every name that passes the discovery test is dispatched to a fingerprint, wherever it lies. */
  lemma JoinedMediaIsDispatched(root: string, name: string)
    requires IsMediaName(name)
    ensures KindOf(Join(root, name)) != Unsupported
  {
    var p := Join(root, name);
    var prefix := p[..|p| - |name|];
    assert p == prefix + name;
    LowerConcat(prefix, name);
    var i :| 0 <= i < |MediaExtensions| && EndsWith(Lower(name), MediaExtensions[i]);
    EndsWithAppend(Lower(prefix), Lower(name), MediaExtensions[i]);
  }

  /** Every media suffix ends in a letter or digit, never in a separator. */
  lemma ExtensionEndsInName(i: int)
    requires 0 <= i < |MediaExtensions|
    ensures |MediaExtensions[i]| > 0 && !IsSep(MediaExtensions[i][|MediaExtensions[i]| - 1])
  {
    var e := MediaExtensions[i];
    assert e == ".png" || e == ".jpg" || e == ".jpeg" || e == ".gif" || e == ".bmp"
      || e == ".mp4" || e == ".avi" || e == ".mov" || e == ".mkv" || e == ".flv";
  }

  /** A dispatched path ends in its suffix, so never in a separator. */
  lemma DispatchedEndsInName(path: string)
    requires KindOf(path) != Unsupported
    ensures |path| > 0 && !IsSep(path[|path| - 1])
  {
    var name := Lower(path);
    var i :| 0 <= i < |MediaExtensions| && EndsWith(name, MediaExtensions[i]);
    ExtensionEndsInName(i);
    LastCharOfSuffix(name, MediaExtensions[i]);
    assert name[|name| - 1] == LowerChar(path[|path| - 1]);
  }

  /** `os.path.basename(p)`: what follows the last separator. */
  function Basename(p: string): (r: string)
    ensures EndsWith(p, r)
    ensures forall i :: 0 <= i < |r| ==> !IsSep(r[i])
    ensures |r| < |p| ==> IsSep(p[|p| - |r| - 1])
  {
    if p == [] || IsSep(p[|p| - 1]) then []
    else
      var r := Basename(p[..|p| - 1]) + [p[|p| - 1]];
      assert p[|p| - |r|..] == p[..|p| - 1][|p| - |r|..] + [p[|p| - 1]];
      r
  }
}
