/**
 * The video filter of `ScanWorker.run` (main.py:130-141): the dropped paths are kept when they
 * are video files, and directories are walked for video files. What the file system says about a
 * path, and what walking a directory yields, are inputs.
 */
module VideoScan {
  import opened Text
  import Paths

  /** One step of `os.walk`: a directory and the names of the files directly inside it. */
  datatype WalkStep = WalkStep(root: string, files: seq<string>)

  /** What the file system says about a dropped path. */
  datatype Entry =
    | File                        // `os.path.isfile(path)`
    | Directory(walk: seq<WalkStep>)  // `os.path.isdir(path)`, with what `os.walk(path)` yields
    | Neither                     // neither: a missing path, say

  /** `video_exts` */
  const VideoExtensions: set<string> := {".mkv", ".mp4", ".avi", ".mov", ".wmv", ".flv", ".webm"}

  /** `os.path.splitext(p)[1].lower() in video_exts` */
  predicate IsVideo(p: string) {
    Lower(Paths.Ext(p)) in VideoExtensions
  }

  // ---------------------------------------------------------------------------------------------
  // The filter

  /** The video paths of `ps`, in order. */
  function KeepVideos(ps: seq<string>): seq<string>
    decreases |ps|
  {
    if |ps| == 0 then [] else KeepVideos(ps[..|ps| - 1]) + (if IsVideo(ps[|ps| - 1]) then [ps[|ps| - 1]] else [])
  }

  /** A path is kept exactly when it is listed and is a video. */
  lemma {:induction false} KeepVideosMembers(ps: seq<string>)
    ensures forall x :: x in KeepVideos(ps) <==> x in ps && IsVideo(x)
    decreases |ps|
  {
    if |ps| > 0 {
      var init := ps[..|ps| - 1];
      KeepVideosMembers(init);
      assert ps == init + [ps[|ps| - 1]];
    }
  }

  /** Filtering a concatenation filters each part, in order: the filter keeps the input order. */
  lemma {:induction false} KeepVideosAppend(ps: seq<string>, qs: seq<string>)
    ensures KeepVideos(ps + qs) == KeepVideos(ps) + KeepVideos(qs)
    decreases |qs|
  {
    if |qs| == 0 {
      assert ps + qs == ps;
    } else {
      var qi := qs[..|qs| - 1];
      assert (ps + qs)[..|ps + qs| - 1] == ps + qi;
      KeepVideosAppend(ps, qi);
    }
  }

  /** Filtering twice is filtering once. */
  lemma {:induction false} KeepVideosIdempotent(ps: seq<string>)
    ensures KeepVideos(KeepVideos(ps)) == KeepVideos(ps)
    decreases |ps|
  {
    if |ps| > 0 {
      var init := ps[..|ps| - 1];
      var last := ps[|ps| - 1];
      KeepVideosIdempotent(init);
      KeepVideosAppend(KeepVideos(init), if IsVideo(last) then [last] else []);
      if IsVideo(last) {
        assert KeepVideos([last]) == KeepVideos([]) + [last];
      }
    }
  }

  // ---------------------------------------------------------------------------------------------
  // What the scan finds, as a specification

  /** The full paths of the files of one walk step, in order. */
  function Joined(root: string, files: seq<string>): (r: seq<string>)
    ensures |r| == |files| && forall k :: 0 <= k < |files| ==> r[k] == Paths.Join(root, files[k])
    decreases |files|
  {
    if |files| == 0 then [] else Joined(root, files[..|files| - 1]) + [Paths.Join(root, files[|files| - 1])]
  }

  /** The video files of one walk step, judged by their name and reported by their full path. */
  function StepFound(root: string, files: seq<string>): seq<string>
    decreases |files|
  {
    if |files| == 0 then []
    else
      var f := files[|files| - 1];
      StepFound(root, files[..|files| - 1]) + (if IsVideo(f) then [Paths.Join(root, f)] else [])
  }

  /** The video files of a whole walk, step by step. */
  function WalkFound(walk: seq<WalkStep>): seq<string>
    decreases |walk|
  {
    if |walk| == 0 then []
    else WalkFound(walk[..|walk| - 1]) + StepFound(walk[|walk| - 1].root, walk[|walk| - 1].files)
  }

  /** What one dropped path contributes. */
  function PathFound(p: string, entry: Entry): seq<string> {
    match entry
    case File => if IsVideo(p) then [p] else []
    case Directory(walk) => WalkFound(walk)
    case Neither => []
  }

  /** `found` after the loop of main.py:133-140 over `paths`. */
  function Found(paths: seq<string>, fs: string -> Entry): seq<string>
    decreases |paths|
  {
    if |paths| == 0 then [] else Found(paths[..|paths| - 1], fs) + PathFound(paths[|paths| - 1], fs(paths[|paths| - 1]))
  }

  /** File names as `os.walk` reports them: no separator inside. */
  predicate PlainNames(files: seq<string>) {
    forall k :: 0 <= k < |files| ==> '/' !in files[k]
  }

  /**
   * Testing a file's name or its full path is the same, so a walk step yields the video paths
   * among the joined paths, in order.
   */
  lemma {:induction false} StepFoundIsFilter(root: string, files: seq<string>)
    requires PlainNames(files)
    ensures StepFound(root, files) == KeepVideos(Joined(root, files))
    decreases |files|
  {
    if |files| > 0 {
      var init := files[..|files| - 1];
      var f := files[|files| - 1];
      StepFoundIsFilter(root, init);
      var j := Joined(root, files);
      assert j[..|j| - 1] == Joined(root, init);
      JoinedExt(root, f);
    }
  }

  /** A joined path has the extension of the file name. */
  lemma JoinedExt(root: string, f: string)
    requires '/' !in f
    ensures IsVideo(Paths.Join(root, f)) <==> IsVideo(f)
  {
    var r := Paths.Join(root, f);
    assert !(|f| > 0 && f[0] == '/') by {
      if |f| > 0 {
        assert f[0] in f;
      }
    }
    var pre :| r == pre + f && (pre == [] || pre[|pre| - 1] == '/');
    Paths.ExtUnderDirectory(pre, f);
  }

  /** Every walk step lists plain file names. */
  predicate PlainWalk(walk: seq<WalkStep>) {
    forall k :: 0 <= k < |walk| ==> PlainNames(walk[k].files)
  }

  /** Every path the scan reports is a video, given plain names in the walks. */
  lemma {:induction false} FoundAreVideos(paths: seq<string>, fs: string -> Entry)
    requires forall k :: 0 <= k < |paths| && fs(paths[k]).Directory? ==> PlainWalk(fs(paths[k]).walk)
    ensures forall x :: x in Found(paths, fs) ==> IsVideo(x)
    decreases |paths|
  {
    if |paths| > 0 {
      var init := paths[..|paths| - 1];
      var p := paths[|paths| - 1];
      FoundAreVideos(init, fs);
      if fs(p).Directory? {
        WalkAreVideos(fs(p).walk);
      }
    }
  }

  lemma {:induction false} WalkAreVideos(walk: seq<WalkStep>)
    requires PlainWalk(walk)
    ensures forall x :: x in WalkFound(walk) ==> IsVideo(x)
    decreases |walk|
  {
    if |walk| > 0 {
      var last := walk[|walk| - 1];
      WalkAreVideos(walk[..|walk| - 1]);
      StepFoundIsFilter(last.root, last.files);
      KeepVideosMembers(Joined(last.root, last.files));
    }
  }

  /** Dropped files alone: the scan keeps exactly the video files, in their order. */
  lemma {:induction false} FilesOnly(paths: seq<string>, fs: string -> Entry)
    requires forall k :: 0 <= k < |paths| ==> fs(paths[k]).File?
    ensures Found(paths, fs) == KeepVideos(paths)
    decreases |paths|
  {
    if |paths| > 0 {
      FilesOnly(paths[..|paths| - 1], fs);
    }
  }

  // ---------------------------------------------------------------------------------------------
  // The scan, as the source runs it

  /** The innermost loop of main.py:138-140: the video files of one walk step, joined to the root. */
  method StepVideos(root: string, files: seq<string>) returns (inStep: seq<string>)
    ensures inStep == StepFound(root, files)
  {
    inStep := [];
    for k := 0 to |files|
      invariant inStep == StepFound(root, files[..k])
    {
      var f := files[k];
      assert files[..k + 1][..k] == files[..k];
      if IsVideo(f) {
        inStep := inStep + [Paths.Join(root, f)];
      }
    }
    assert files[..|files|] == files;
  }

  /** The walk loop of main.py:137-140: the video files of a whole walk. */
  method WalkVideos(walk: seq<WalkStep>) returns (inWalk: seq<string>)
    ensures inWalk == WalkFound(walk)
  {
    inWalk := [];
    for j := 0 to |walk|
      invariant inWalk == WalkFound(walk[..j])
    {
      assert walk[..j + 1][..j] == walk[..j];
      var inStep := StepVideos(walk[j].root, walk[j].files);
      inWalk := inWalk + inStep;
    }
    assert walk[..|walk|] == walk;
  }

  /**
   * `ScanWorker.run` with the file system as a parameter: the list it emits. What a directory
   * yields is collected first and then appended, which gives `found` the same final value as the
   * appends one by one.
   */
  method Scan(paths: seq<string>, fs: string -> Entry) returns (found: seq<string>)
    ensures found == Found(paths, fs)
  {
    found := [];
    for i := 0 to |paths|
      invariant found == Found(paths[..i], fs)
    {
      var path := paths[i];
      assert paths[..i + 1][..i] == paths[..i];
      var entry := fs(path);
      if entry.File? && IsVideo(path) {
        found := found + [path];
      } else if entry.Directory? {
        var inWalk := WalkVideos(entry.walk);
        found := found + inWalk;
      }
    }
    assert paths[..|paths|] == paths;
  }
}
