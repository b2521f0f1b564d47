/** The disk as the rename engine sees it: the set of paths that exist
    (files and directories alike), a collision-safe rename, and the tag
    wipe, which only needs the file to exist. */
module Disk {
  import opened Paths

  /** `safe_rename`: `Renamed` (it returned True), `Refused` (it returned
      False because the target exists) or `Failed` (`os.rename` raised). */
  datatype RenameResult = Renamed | Refused | Failed

  /** `os.rename` needs the target's directory: the source's own directory
      (which exists, since the source does), the working directory, the
      root, or a directory on disk. */
  predicate ParentExists(paths: set<Path>, src: Path, dst: Path)
  {
    var d := Dirname(dst);
    d == Dirname(src) || AllSlashes(d) || d in paths
  }

  /** The basenames "." and "..", which name a directory, not a file. */
  predicate DotName(b: string)
  {
    b == "." || b == ".."
  }

  /** The directory `d` exists: the working directory, the root, a
      directory on disk, or the directory of the existing source. */
  predicate DirExists(paths: set<Path>, src: Path, d: Path)
  {
    d == [] || AllSlashes(d) || d in paths || (src in paths && d == Dirname(src))
  }

  /** `os.path.exists(dst)`: the path itself is on disk, or it names a
      directory that exists: it ends in a slash (the root, a directory on
      disk, or the directory of the existing source), or its basename is
      "." or ".." inside an existing directory. The empty path does not
      exist. */
  predicate PathExists(paths: set<Path>, src: Path, dst: Path)
  {
    || dst in paths
    || (&& dst != [] && Basename(dst) == []
        && (|| AllSlashes(dst)
            || StripTrailingSlashes(dst) in paths
            || (src in paths && StripTrailingSlashes(dst) == Dirname(src))))
    || (DotName(Basename(dst)) && DirExists(paths, src, Dirname(dst)))
  }

  /** A target "." or ".." in the existing source's own directory names a
      directory that exists, so `safe_rename` refuses it. */
  lemma DotTargetRefused(paths: set<Path>, src: Path, dst: Path)
    requires src in paths && Dirname(dst) == Dirname(src) && DotName(Basename(dst))
    ensures RenameOutcome(paths, src, dst) == Refused
    ensures AfterRename(paths, src, dst) == paths
  {
  }

  /** What `safe_rename(src, dst)` does on a disk holding `paths`: it refuses
      a target that exists; `os.rename` then fails for a missing source, a
      target that ends in a slash or is empty, or a missing target
      directory. */
  function RenameOutcome(paths: set<Path>, src: Path, dst: Path): (r: RenameResult)
    ensures r == Refused <==> PathExists(paths, src, dst)
    ensures r == Renamed <==>
      !PathExists(paths, src, dst) && src in paths && Basename(dst) != [] && ParentExists(paths, src, dst)
    ensures r == Renamed ==> dst !in paths
  {
    if PathExists(paths, src, dst) then Refused
    else if src !in paths || Basename(dst) == [] || !ParentExists(paths, src, dst) then Failed
    else Renamed
  }

  /** The paths on disk after `safe_rename(src, dst)`. */
  function AfterRename(paths: set<Path>, src: Path, dst: Path): (q: set<Path>)
    ensures RenameOutcome(paths, src, dst) == Renamed ==>
      src !in q && dst in q && forall p :: p != src && p != dst ==> (p in q <==> p in paths)
    ensures RenameOutcome(paths, src, dst) != Renamed ==> q == paths
    ensures |q| == |paths|
  {
    if RenameOutcome(paths, src, dst) == Renamed then paths - {src} + {dst} else paths
  }

  /** A rename of a file within one directory is undone by the rename back,
      when the source names a file: a basename "." or ".." names the
      directory, which exists. */
  lemma RenameBack(paths: set<Path>, src: Path, dst: Path)
    requires RenameOutcome(paths, src, dst) == Renamed && Dirname(src) == Dirname(dst)
    requires Basename(src) != [] && !DotName(Basename(src))
    ensures RenameOutcome(AfterRename(paths, src, dst), dst, src) == Renamed
    ensures AfterRename(AfterRename(paths, src, dst), dst, src) == paths
  {
    var q := AfterRename(paths, src, dst);
    assert q - {dst} + {src} == paths;
  }

  /** A path onto itself is never moved: the disk either refuses or fails. */
  lemma RenameOntoItself(paths: set<Path>, p: Path)
    ensures RenameOutcome(paths, p, p) == (if PathExists(paths, p, p) then Refused else Failed)
    ensures AfterRename(paths, p, p) == paths
  {
  }

  /** The disk, with a log of the files whose tags were wiped. */
  class FileSystem {
    var paths: set<Path>
    var wiped: seq<Path>

    constructor (initial: set<Path>)
      ensures paths == initial && wiped == []
    {
      paths := initial;
      wiped := [];
    }

    /** `safe_rename`: refuse when the target exists, else rename. */
    method SafeRename(src: Path, dst: Path) returns (r: RenameResult)
      modifies this
      ensures r == RenameOutcome(old(paths), src, dst)
      ensures paths == AfterRename(old(paths), src, dst)
      ensures wiped == old(wiped)
    {
      if PathExists(paths, src, dst) {
        return Refused;
      }
      if src !in paths || Basename(dst) == [] || !ParentExists(paths, src, dst) {
        return Failed;
      }
      paths := paths - {src} + {dst};
      return Renamed;
    }

    /** `nuke_id3_tags`: wipes the tags of an existing file (a file without
        a tag header counts as wiped); fails when the file does not exist. */
    method WipeTags(p: Path) returns (ok: bool)
      modifies this
      ensures ok <==> p in old(paths)
      ensures paths == old(paths)
      ensures wiped == if ok then old(wiped) + [p] else old(wiped)
    {
      ok := p in paths;
      if ok {
        wiped := wiped + [p];
      }
    }
  }
}
