/** `RefineryAudio`: the session object whose button handlers update its
    lists and dictionaries in place. Each handler is proved to leave the
    object and the disk in the state the matching `Engine` function
    describes, so what is proved of those functions holds of the object. */
module Refinery {
  import opened Common
  import opened Paths
  import opened Titles
  import opened Naming
  import opened Disk
  import opened Engine

  class RefineryAudio {
    var files: seq<Path>
    var enabled: map<Path, bool>
    var manual: map<Path, string>
    var original: map<Path, string>
    var metadata: map<Path, Tags>
    var undoStack: seq<seq<Path>>
    const fs: FileSystem

    /** The session and the disk as one value. */
    function Model(): State
      reads this, fs
    {
      State(files, enabled, manual, original, metadata, undoStack, fs.paths, fs.wiped)
    }

    constructor (disk: FileSystem)
      ensures fs == disk
      ensures files == [] && enabled == map[] && manual == map[] && original == map[]
      ensures metadata == map[] && undoStack == []
    {
      fs := disk;
      files := [];
      enabled := map[];
      manual := map[];
      original := map[];
      metadata := map[];
      undoStack := [];
    }

    /** `add_files` with the paths chosen in the dialog. */
    method AddFiles(chosen: seq<Path>)
      modifies this
      ensures Model() == Engine.AddFiles(old(Model()), chosen)
    {
      var i := 0;
      while i < |chosen|
        invariant 0 <= i <= |chosen|
        invariant Engine.AddFiles(Model(), chosen[i..]) == Engine.AddFiles(old(Model()), chosen)
      {
        var f := chosen[i];
        assert chosen[i..][1..] == chosen[i + 1..];
        if f !in files {
          files := files + [f];
          if f !in enabled {
            enabled := enabled[f := true];
          }
        }
        i := i + 1;
      }
    }

    /** The outer loop of `add_folder` over the walk: the `.mp3` files not
        yet listed, in the order of the walk. */
    method NewFilesOf(walk: seq<WalkEntry>) returns (found: seq<Path>)
      ensures found == Found(walk, files)
    {
      found := [];
      var j := 0;
      while j < |walk|
        invariant 0 <= j <= |walk|
        invariant found + Found(walk[j..], files) == Found(walk, files)
      {
        FoundFrom(walk, j, files);
        var got := NewFilesIn(walk[j].dir, walk[j].names);
        Regroup(found, got, Found(walk[j + 1..], files));
        found := found + got;
        j := j + 1;
      }
    }

    /** The inner loop of `add_folder` over the names of one directory. */
    method NewFilesIn(dir: Path, names: seq<string>) returns (found: seq<Path>)
      ensures found == FoundIn(dir, names, files)
    {
      found := [];
      var known := files;
      var k := 0;
      assert names[0..] == names;
      while k < |names|
        invariant 0 <= k <= |names|
        invariant found + FoundIn(dir, names[k..], known) == FoundIn(dir, names, known)
      {
        FoundInFrom(dir, names, k, known);
        var p := Join(dir, names[k]);
        ghost var tail := FoundIn(dir, names[k + 1..], known);
        if IsMp3(names[k]) && p !in known {
          Regroup(found, [p], tail);
          found := found + [p];
        } else {
          Regroup(found, [], tail);
        }
        k := k + 1;
      }
      assert names[k..] == [] && found + [] == found;
    }

    /** `add_folder`, given the folder chosen (empty when cancelled) and
        what `os.walk` reports under it. */
    method AddFolder(folder: Path, walk: seq<WalkEntry>)
      modifies this
      ensures Model() == Engine.AddFolder(old(Model()), folder, walk)
    {
      if folder == [] {
        return;
      }
      var found := NewFilesOf(walk);
      files := files + found;
      var i := 0;
      while i < |found|
        invariant 0 <= i <= |found|
        invariant Model() == old(Model()).(files := old(files) + found, enabled := enabled)
        invariant EnableAll(enabled, found[i..]) == EnableAll(old(enabled), found)
      {
        assert found[i..][1..] == found[i + 1..];
        if found[i] !in enabled {
          enabled := enabled[found[i] := true];
        }
        i := i + 1;
      }
      assert found[i..] == [];
    }

    /** `clear_session`, given the answer to the confirmation dialog. */
    method ClearSession(confirmed: bool)
      modifies this
      ensures Model() == Engine.ClearSession(old(Model()), confirmed)
    {
      if confirmed {
        files := [];
        enabled := map[];
        manual := map[];
        original := map[];
        metadata := map[];
        undoStack := [];
      }
    }

    /** The loop shared by `select_all` and `deselect_all`. */
    method SetAllEnabled(v: bool)
      modifies this
      ensures Model() == SetAll(old(Model()), v)
    {
      var i := 0;
      while i < |files|
        invariant 0 <= i <= |files|
        invariant Model() == old(Model()).(enabled := enabled)
        invariant forall p :: p in enabled <==> p in old(enabled) || p in files[..i]
        invariant forall p :: p in files[..i] ==> enabled[p] == v
        invariant forall p :: p in old(enabled) && p !in files[..i] ==> enabled[p] == old(enabled)[p]
      {
        assert files[..i + 1] == files[..i] + [files[i]];
        enabled := enabled[files[i] := v];
        i := i + 1;
      }
      assert files[..i] == files;
      assert enabled == SetAll(old(Model()), v).enabled;
    }

    /** `select_all` */
    method SelectAll()
      modifies this
      ensures Model() == SetAll(old(Model()), true)
    {
      SetAllEnabled(true);
    }

    /** `deselect_all` */
    method DeselectAll()
      modifies this
      ensures Model() == SetAll(old(Model()), false)
    {
      SetAllEnabled(false);
    }

    /** A click in the enabled column of row `row`. */
    method ToggleRow(row: nat)
      requires row < |files|
      modifies this
      ensures Model() == Toggle(old(Model()), row)
    {
      var f := files[row];
      enabled := enabled[f := !Get(enabled, f, true)];
    }

    /** Moves the flag, the cached tags and the manual entry of `f` to `t`;
        a file without a manual entry gets `name`. */
    method CarryEntry(f: Path, t: Path, name: string)
      modifies this
      ensures Model() == Carry(old(Model()), f, t, name)
    {
      manual := Rekey(manual, f, t, name);
      metadata := Rekey(metadata, f, t, map[]);
      enabled := Rekey(enabled, f, t, true);
    }

    /** The rename and tag wipe of one pass of the loop of `refine`. */
    method MoveTo(f: Path, newPath: Path, newName: string, cfg: Settings) returns (fault: Option<Fault>)
      modifies this, fs
      ensures Step(Model(), fault) == MoveEntry(old(Model()), f, newPath, newName, cfg)
    {
      var current := f;
      if f != newPath {
        var r := fs.SafeRename(f, newPath);
        if r == Failed {
          return Some(RenameFailed);
        }
        if r == Renamed {
          if f !in files {
            return Some(NotListed);
          }
          files := files[IndexOf(files, f) := newPath];
          CarryEntry(f, newPath, newName);
          current := newPath;
        }
      }
      if cfg.wipeTags {
        var ok := fs.WipeTags(current);
        if !ok {
          return Some(WipeFailed);
        }
      }
      return None;
    }

    /** One pass of the loop of `refine`. */
    method RefineStep(f: Path, cfg: Settings) returns (fault: Option<Fault>)
      modifies this, fs
      ensures Step(Model(), fault) == RefineEntry(old(Model()), f, cfg)
    {
      if !Get(enabled, f, true) {
        return None;
      }
      var artist := ArtistFor(cfg.artist, metadata, f);
      var cleanTitle := SmartTitle(Basename(f));
      var newName := ComposeName(cleanTitle, artist, cfg.titleOnly);
      var newPath := Join(Dirname(f), newName);
      assert newName == BatchName(old(Model()), f, cfg);
      NewNameComposes(Basename(f), artist, cfg.titleOnly);
      assert newPath == TargetPath(f, artist, cfg.titleOnly);
      assert newPath == BatchTarget(old(Model()), f, cfg);
      original := original[f := Basename(f)];
      assert RefineEntry(old(Model()), f, cfg) == MoveEntry(Model(), f, newPath, newName, cfg);
      fault := MoveTo(f, newPath, newName, cfg);
    }

    /** `refine`: push the file list on the undo log and process a snapshot
        of it, stopping at the first exception. */
    method Refine(cfg: Settings) returns (outcome: Outcome)
      modifies this, fs
      ensures Refined(Model(), outcome) == Engine.Refine(old(Model()), cfg)
    {
      if files == [] {
        return NoFiles;
      }
      undoStack := undoStack + [files];
      var snap := files;
      ghost var start := Model();
      var i := 0;
      while i < |snap|
        invariant 0 <= i <= |snap|
        invariant snap == old(files) && start == old(Model()).(undoStack := old(undoStack) + [old(files)])
        invariant RefineFrom(Model(), snap, i, cfg) == RefineFrom(start, snap, 0, cfg)
      {
        var fault := RefineStep(snap[i], cfg);
        if fault.Some? {
          return Aborted(fault.value);
        }
        i := i + 1;
      }
      return Completed;
    }

    /** `undo` */
    method Undo() returns (done: bool)
      modifies this
      ensures (Model(), done) == Engine.Undo(old(Model()))
    {
      if undoStack == [] {
        return false;
      }
      files := undoStack[|undoStack| - 1];
      undoStack := undoStack[..|undoStack| - 1];
      return true;
    }

    /** `apply_changes` of the manual-edit popup opened on `f`. */
    method ApplyChanges(f: Path, newName: string) returns (outcome: EditOutcome)
      modifies this, fs
      ensures Edited(Model(), outcome) == ManualRename(old(Model()), f, newName)
    {
      var newPath := Join(Dirname(f), newName);
      var r := fs.SafeRename(f, newPath);
      if r == Refused {
        return Kept;
      }
      if r == Failed {
        return EditFailed(RenameFailed);
      }
      CarryEntry(f, newPath, newName);
      if f !in files {
        return EditFailed(NotListed);
      }
      files := files[IndexOf(files, f) := newPath];
      return Applied;
    }
  }

  /** Moving the head of the middle part to the first part. */
  lemma Regroup(a: seq<Path>, h: seq<Path>, t: seq<Path>)
    ensures a + (h + t) == (a + h) + t
  {
  }
}
