/**
 * Building the ordered list of video pairs from two directory listings
 * (`find_pairs_two_dirs` in gradio-example.py). The listings are inputs:
 * `os.listdir` itself is not modelled. Paths follow POSIX `os.path`.
 */
module Pairing {
  import opened Wrappers
  import opened Strings
  import opened NaturalSort

  /** `VIDEO_EXTS`; `f.lower().endswith(VIDEO_EXTS)` accepts a name ending in any of them. */
  const VideoExts: seq<string> := [".mp4", ".mov", ".mkv", ".webm", ".avi"]

  predicate IsVideoFile(name: string) {
    exists i :: 0 <= i < |VideoExts| && EndsWith(Lower(name), VideoExts[i])
  }

  /**
   * `os.path.join(dir, name)` (posixpath): an absolute name replaces the
   * directory; otherwise the name follows the directory, with one '/'
   * added between them unless the directory is empty or already ends in '/'.
   */
  function JoinPath(dir: string, name: string): (path: string)
    ensures StartsWith(name, "/") ==> path == name
    ensures !StartsWith(name, "/") ==> StartsWith(path, dir) && EndsWith(path, name)
    ensures !StartsWith(name, "/") ==>
      (|path| == |dir| + |name| + 1 <==> dir != [] && dir[|dir| - 1] != '/')
    ensures !StartsWith(name, "/") && |path| != |dir| + |name| + 1 ==> |path| == |dir| + |name|
    ensures !StartsWith(name, "/") && |path| == |dir| + |name| + 1 ==> path[|dir|] == '/'
  {
    if StartsWith(name, "/") then name
    else if dir == [] || dir[|dir| - 1] == '/' then dir + name
    else dir + "/" + name
  }

  /** `os.path.basename(path)`: the part after the last '/'. */
  function Basename(path: string): string {
    if path == [] || path[|path| - 1] == '/' then []
    else Basename(path[..|path| - 1]) + [path[|path| - 1]]
  }

  /** The basename is the longest suffix without '/'. */
  lemma {:induction false} BasenameIsLastComponent(path: string)
    ensures '/' !in Basename(path)
    ensures |Basename(path)| <= |path| && Basename(path) == path[|path| - |Basename(path)|..]
    ensures |Basename(path)| < |path| ==> path[|path| - |Basename(path)| - 1] == '/'
  {
    if path != [] && path[|path| - 1] != '/' {
      var init, c := path[..|path| - 1], path[|path| - 1];
      BasenameIsLastComponent(init);
      var b' := Basename(init);
      assert Basename(path) == b' + [c];
      assert path[|path| - |b'| - 1..] == init[|init| - |b'|..] + [c];
      if |b'| < |init| {
        assert path[|path| - |b'| - 2] == init[|init| - |b'| - 1];
      }
    }
  }

  lemma {:induction false} BasenameAfterSlash(prefix: string, name: string)
    requires prefix == [] || prefix[|prefix| - 1] == '/'
    requires '/' !in name
    ensures Basename(prefix + name) == name
    decreases |name|
  {
    if name == [] {
      assert prefix + name == prefix;
    } else {
      var init := name[..|name| - 1];
      assert (prefix + name)[..|prefix + name| - 1] == prefix + init;
      BasenameAfterSlash(prefix, init);
      assert name == init + [name[|name| - 1]];
    }
  }

  /** A listed name, which holds no '/', is the basename of its joined path. */
  lemma BasenameOfJoin(dir: string, name: string)
    requires '/' !in name
    ensures Basename(JoinPath(dir, name)) == name
  {
    if name != [] {
      assert name[0] in name && name[..1] == [name[0]];
      assert "/"[0] == '/';
    }
    assert !StartsWith(name, "/");
    if dir == [] || dir[|dir| - 1] == '/' {
      BasenameAfterSlash(dir, name);
    } else {
      BasenameAfterSlash(dir + "/", name);
    }
  }

  /** The listed names that pass the extension filter, in listing order. */
  function VideoNames(listing: seq<string>): seq<string> {
    if listing == [] then []
    else (if IsVideoFile(listing[0]) then [listing[0]] else []) + VideoNames(listing[1..])
  }

  /** The filter keeps exactly the listed names with a video extension. */
  lemma {:induction false} VideoNamesSpec(listing: seq<string>)
    ensures forall f :: f in VideoNames(listing) <==> f in listing && IsVideoFile(f)
  {
    if listing != [] {
      VideoNamesSpec(listing[1..]);
      assert listing == [listing[0]] + listing[1..];
    }
  }

  function JoinAll(dir: string, names: seq<string>): (paths: seq<string>)
    ensures |paths| == |names| && forall i :: 0 <= i < |names| ==> paths[i] == JoinPath(dir, names[i])
  {
    if names == [] then [] else [JoinPath(dir, names[0])] + JoinAll(dir, names[1..])
  }

  /** `sorted([os.path.join(dir, f) for f in listing if ...], key=natural_key)`. */
  function SortedVideos(dir: string, listing: seq<string>): seq<string> {
    SortNatural(JoinAll(dir, VideoNames(listing)))
  }

  /**
   * The sorted list holds the joined paths of exactly the listed video files
   * (as many times as they are listed), in natural order; it is empty exactly
   * when no listed name is a video file.
   */
  lemma SortedVideosSpec(dir: string, listing: seq<string>)
    ensures var v := SortedVideos(dir, listing);
      SortedNatural(v) && |v| == |VideoNames(listing)|
    ensures multiset(SortedVideos(dir, listing)) == multiset(JoinAll(dir, VideoNames(listing)))
    ensures forall p :: p in SortedVideos(dir, listing) ==>
      exists f :: f in listing && IsVideoFile(f) && p == JoinPath(dir, f)
    ensures forall f :: f in listing && IsVideoFile(f) ==> JoinPath(dir, f) in SortedVideos(dir, listing)
    ensures SortedVideos(dir, listing) == [] <==> forall f :: f in listing ==> !IsVideoFile(f)
  {
    var names := VideoNames(listing);
    VideoNamesSpec(listing);
    var paths := JoinAll(dir, names);
    var v := SortNatural(paths);
    SortNaturalSpec(paths);
    forall f | f in listing && IsVideoFile(f) ensures JoinPath(dir, f) in v {
      var i :| 0 <= i < |names| && names[i] == f;
      assert paths[i] == JoinPath(dir, f);
      assert paths[i] in multiset(paths);
    }
    forall p | p in v ensures exists f :: f in listing && IsVideoFile(f) && p == JoinPath(dir, f) {
      assert p in multiset(v);
      assert p in paths;
      var i :| 0 <= i < |paths| && paths[i] == p;
      assert names[i] in names;
    }
    if v == [] {
      assert forall f :: f in listing ==> !IsVideoFile(f);
    } else {
      assert |names| > 0;
      assert names[0] in names;
    }
  }

  /** The error shown when either folder has no video file. */
  const NoVideosMessage: string := "No videos found. Check folder paths/extensions."

  function Min(a: nat, b: nat): nat { if a < b then a else b }

  /** A pair record: its stable id and the two video paths; the display title is not modelled. */
  datatype VideoPair = VideoPair(id: string, v1: string, v2: string)

  /** `f"{i:03d}:{b1}|{b2}"`. */
  function PairId(i: nat, b1: string, b2: string): string {
    ZeroPad3(i) + ":" + b1 + "|" + b2
  }

  function MakePair(i: nat, path1: string, path2: string): VideoPair {
    VideoPair(PairId(i, Basename(path1), Basename(path2)), path1, path2)
  }

  /** Two strings split at their first ':' agree on what precedes it. */
  lemma {:induction false} SamePrefixBeforeColon(a: string, x: string, b: string, y: string)
    requires ':' !in a && ':' !in b
    requires a + ":" + x == b + ":" + y
    ensures a == b
  {
    var s := a + ":" + x;
    assert s[|a|] == ':' && s[|b|] == ':';
    assert |a| == |b|;
    assert a == s[..|a|] == b;
  }

  /** Ids are distinct across pairs, whatever the file names: the index comes first and ends at the first ':'. */
  lemma PairIdsDistinct(i: nat, j: nat, b1: string, b2: string, c1: string, c2: string)
    requires i != j
    ensures PairId(i, b1, b2) != PairId(j, c1, c2)
  {
    var pi, pj := ZeroPad3(i), ZeroPad3(j);
    assert ':' !in pi && ':' !in pj;
    if PairId(i, b1, b2) == PairId(j, c1, c2) {
      assert pi + ":" + (b1 + "|" + b2) == PairId(i, b1, b2);
      assert pj + ":" + (c1 + "|" + c2) == PairId(j, c1, c2);
      SamePrefixBeforeColon(pi, b1 + "|" + b2, pj, c1 + "|" + c2);
      ZeroPad3Injective(i, j);
    }
  }

  /** Pairs made at their own positions have distinct ids. */
  lemma MadePairIdsDistinct(pairs: seq<VideoPair>, v1s: seq<string>, v2s: seq<string>)
    requires |pairs| <= |v1s| && |pairs| <= |v2s|
    requires forall i :: 0 <= i < |pairs| ==> pairs[i] == MakePair(i, v1s[i], v2s[i])
    ensures forall i, j :: 0 <= i < j < |pairs| ==> pairs[i].id != pairs[j].id
  {
    forall i, j | 0 <= i < j < |pairs| ensures pairs[i].id != pairs[j].id {
      PairIdsDistinct(i, j, Basename(v1s[i]), Basename(v2s[i]), Basename(v1s[j]), Basename(v2s[j]));
    }
  }

  /**
   * The loop of `find_pairs_two_dirs`: pair i joins the i-th path of each
   * list, with the id built from the two basenames. Ids are distinct.
   */
  method PairUp(v1s: seq<string>, v2s: seq<string>, n: nat) returns (pairs: seq<VideoPair>)
    requires n <= |v1s| && n <= |v2s|
    ensures |pairs| == n
    ensures forall i :: 0 <= i < n ==> pairs[i] == MakePair(i, v1s[i], v2s[i])
    ensures forall i, j :: 0 <= i < j < n ==> pairs[i].id != pairs[j].id
  {
    pairs := [];
    for i := 0 to n
      invariant |pairs| == i
      invariant forall k :: 0 <= k < i ==> pairs[k] == MakePair(k, v1s[k], v2s[k])
    {
      var b1, b2 := Basename(v1s[i]), Basename(v2s[i]);
      var pairId := ZeroPad3(i) + ":" + b1 + "|" + b2;
      pairs := pairs + [VideoPair(pairId, v1s[i], v2s[i])];
    }
    MadePairIdsDistinct(pairs, v1s, v2s);
  }

  /**
   * `find_pairs_two_dirs`: both listings are filtered and naturally sorted,
   * the pairs stop at the shorter list, and there is an error exactly when
   * either list is empty.
   */
  method FindPairsTwoDirs(dir1: string, listing1: seq<string>, dir2: string, listing2: seq<string>)
    returns (r: Result<seq<VideoPair>, string>)
    ensures r.Failure? <==> Min(|SortedVideos(dir1, listing1)|, |SortedVideos(dir2, listing2)|) == 0
    ensures r.Failure? ==> r.error == NoVideosMessage
    ensures r.Success? ==> |r.value| == Min(|SortedVideos(dir1, listing1)|, |SortedVideos(dir2, listing2)|)
    ensures r.Success? ==> forall i :: 0 <= i < |r.value| ==>
      r.value[i] == MakePair(i, SortedVideos(dir1, listing1)[i], SortedVideos(dir2, listing2)[i])
    ensures r.Success? ==> forall i, j :: 0 <= i < j < |r.value| ==> r.value[i].id != r.value[j].id
  {
    var v1s := SortedVideos(dir1, listing1);
    var v2s := SortedVideos(dir2, listing2);
    var n := Min(|v1s|, |v2s|);
    if n == 0 {
      return Failure(NoVideosMessage);
    }
    var pairs := PairUp(v1s, v2s, n);
    return Success(pairs);
  }
}
