/** What a batch rename does to a consistent session — no path listed
    twice, every listed path on disk — of absolute paths, as the file
    dialogs give them, when no artist holds a slash: it never stops early,
    each file ends up either where it was or at its target, exactly as an
    occupancy rule predicts, each keeps its flag and tags, and the tags
    wiped are those of the enabled files, at the paths they end at. */
module BatchFacts {
  import opened Common
  import opened Paths
  import opened Naming
  import opened Disk
  import opened Engine

  /** No path listed twice and every listed path on disk. */
  predicate Consistent(st: State)
  {
    NoDup(st.files) && forall p :: p in st.files ==> p in st.disk
  }

  /** Every listed path is absolute. */
  predicate AbsolutePaths(st: State)
  {
    forall p :: p in st.files ==> p != [] && p[0] == '/'
  }

  /** No file's artist holds a slash, so every target stays in its file's
      directory. */
  predicate SlashFreeArtists(st: State, cfg: Settings)
  {
    forall f :: f in st.files ==> '/' !in ArtistFor(cfg.artist, st.metadata, f)
  }

  /** Whether `p` is on disk when the batch that started on `st0` reaches
      entry `k`, given the list `done` the batch has made of entries
      before `k`: on disk at the start and not an entry moved away since,
      or where an earlier entry now is. */
  predicate Occupied(st0: State, done: seq<Path>, k: nat, p: Path)
    requires k <= |st0.files| && k <= |done|
  {
    (p in st0.disk && p !in st0.files[..k]) || p in done[..k]
  }

  /** `t` names a file: its basename is neither empty nor "." or "..". */
  predicate NamesFile(t: Path)
  {
    Basename(t) != [] && !DotName(Basename(t))
  }

  /** Where entry `k` of the batch ends: at its target when it is enabled,
      not there already, the target names a file (a file whose clean title
      is empty, "." or ".." targets a directory, which exists) and the
      target is free at its turn; else where it was. */
  function Expected(st0: State, done: seq<Path>, k: nat, t: Path): Path
    requires k < |st0.files| && k <= |done|
  {
    var f := st0.files[k];
    if Get(st0.enabled, f, true) && t != f && NamesFile(t) && !Occupied(st0, done, k, t) then t else f
  }

  /** The batch targets of the files of `st0`, in order. */
  ghost predicate TargetsOf(st0: State, ts: seq<Path>, cfg: Settings)
  {
    |ts| == |st0.files| && forall k :: 0 <= k < |ts| ==> ts[k] == BatchTarget(st0, st0.files[k], cfg)
  }

  /** The state of the batch after `i` entries. */
  ghost predicate Inv(st0: State, st: State, i: nat, ts: seq<Path>)
  {
    && i <= |st0.files| && |st.files| == |st0.files| && |ts| == |st0.files| && NoDup(st.files)
    && (forall k :: i <= k < |st.files| ==> st.files[k] == st0.files[k])
    && (forall p :: p in st.disk <==> Occupied(st0, st.files, i, p))
    && (forall k :: 0 <= k < i ==> st.files[k] == Expected(st0, st.files, k, ts[k]))
    && (forall k :: 0 <= k < |st.files| ==>
          Get(st.enabled, st.files[k], true) == Get(st0.enabled, st0.files[k], true)
          && Get(st.metadata, st.files[k], map[]) == Get(st0.metadata, st0.files[k], map[]))
  }

  /** `p` has the same manual entry, or none, in both maps. */
  predicate SameEntry(m1: map<Path, string>, m2: map<Path, string>, p: Path)
  {
    (p in m1 <==> p in m2) && (p in m2 ==> m1[p] == m2[p])
  }

  /** The manual entry of list position `k`: unchanged where the file did
      not move; where it moved, the entry of its old path, else its new
      basename. */
  predicate ManualAt(st0: State, st: State, k: nat)
    requires k < |st.files| && k < |st0.files|
  {
    if st.files[k] == st0.files[k] then SameEntry(st.manual, st0.manual, st0.files[k])
    else st.files[k] in st.manual && st.manual[st.files[k]] == Get(st0.manual, st0.files[k], Basename(st.files[k]))
  }

  ghost predicate ManualInv(st0: State, st: State)
    requires |st.files| == |st0.files|
  {
    forall k :: 0 <= k < |st.files| ==> ManualAt(st0, st, k)
  }

  /** The wipe log of the first `k` entries: the final path of each
      enabled entry, in list order, when the box is ticked. */
  function WipeLog(files0: seq<Path>, enabled0: map<Path, bool>, done: seq<Path>, k: nat, wipe: bool): (w: seq<Path>)
    requires k <= |files0| && k <= |done|
    ensures !wipe ==> w == []
    ensures |w| <= k
  {
    if k == 0 || !wipe then []
    else
      WipeLog(files0, enabled0, done, k - 1, wipe)
        + (if Get(enabled0, files0[k - 1], true) then [done[k - 1]] else [])
  }

  /** The wipe log only looks at the first `k` entries of `done`. */
  lemma {:induction false} WipeLogPrefix(files0: seq<Path>, enabled0: map<Path, bool>, a: seq<Path>, b: seq<Path>, k: nat, wipe: bool)
    requires k <= |files0| && k <= |a| && k <= |b| && a[..k] == b[..k]
    ensures WipeLog(files0, enabled0, a, k, wipe) == WipeLog(files0, enabled0, b, k, wipe)
  {
    if k > 0 && wipe {
      assert a[..k - 1] == b[..k - 1] by {
        assert a[..k - 1] == a[..k][..k - 1];
        assert b[..k - 1] == b[..k][..k - 1];
      }
      assert a[k - 1] == a[..k][k - 1];
      assert b[k - 1] == b[..k][k - 1];
      WipeLogPrefix(files0, enabled0, a, b, k - 1, wipe);
    }
  }

  /** The wipe log after `i` entries. */
  predicate WipeInv(st0: State, st: State, i: nat, wipe: bool)
    requires i <= |st0.files| && i <= |st.files|
  {
    st.wiped == st0.wiped + WipeLog(st0.files, st0.enabled, st.files, i, wipe)
  }

  /** One entry appends its final path to the wipe log when it is enabled
      and the box is ticked. */
  lemma WipeStep(st0: State, st: State, i: nat, wipe: bool, r: State)
    requires i < |st0.files| && |st.files| == |st0.files| && |r.files| == |st.files|
    requires WipeInv(st0, st, i, wipe)
    requires r.files[..i] == st.files[..i]
    requires r.wiped == st.wiped + (if wipe && Get(st0.enabled, st0.files[i], true) then [r.files[i]] else [])
    ensures WipeInv(st0, r, i + 1, wipe)
  {
    WipeLogPrefix(st0.files, st0.enabled, r.files, st.files, i, wipe);
  }

  /** Every listed path is on disk at every step of the batch. */
  lemma ListedOnDisk(st0: State, st: State, i: nat, ts: seq<Path>)
    requires Consistent(st0) && Inv(st0, st, i, ts)
    ensures forall k :: 0 <= k < |st.files| ==> st.files[k] in st.disk
  {
    forall k | 0 <= k < |st.files|
      ensures st.files[k] in st.disk
    {
      if k < i {
        assert st.files[k] in st.files[..i];
      } else {
        assert st0.files[k] in st0.files;
        assert st0.files[k] !in st0.files[..i];
      }
    }
  }

  /** The artist of a file depends only on that file's tags. */
  lemma SameArtist(m1: map<Path, Tags>, m2: map<Path, Tags>, f: Path, override: string)
    requires Get(m1, f, map[]) == Get(m2, f, map[])
    ensures ArtistFor(override, m1, f) == ArtistFor(override, m2, f)
  {
  }

  /** Where `p` was and where it went: the state after one entry that was
      not moved. */
  lemma StepStays(st0: State, st: State, i: nat, ts: seq<Path>, r: State)
    requires Consistent(st0) && Inv(st0, st, i, ts) && i < |st0.files|
    requires r.files == st.files && r.disk == st.disk
    requires r.enabled == st.enabled && r.metadata == st.metadata && r.manual == st.manual
    requires st.files[i] == Expected(st0, st.files, i, ts[i])
    requires ManualInv(st0, st)
    ensures Inv(st0, r, i + 1, ts) && ManualInv(st0, r)
  {
    var f := st0.files[i];
    assert st.files[..i + 1] == st.files[..i] + [f];
    assert st0.files[..i + 1] == st0.files[..i] + [f];
    ListedOnDisk(st0, st, i, ts);
    assert st.files[i] in st.disk;
    forall p
      ensures p in r.disk <==> Occupied(st0, r.files, i + 1, p)
    {
      if p == f {
        assert p in r.files[..i + 1];
      }
    }
    forall k | 0 <= k < i + 1
      ensures r.files[k] == Expected(st0, r.files, k, ts[k])
    {
    }
    forall k | 0 <= k < |r.files|
      ensures ManualAt(st0, r, k)
    {
      assert ManualAt(st0, st, k);
    }
  }

  /** The state after one entry that was moved to its target `t`. */
  lemma StepMoves(st0: State, st: State, i: nat, ts: seq<Path>, r: State)
    requires Consistent(st0) && Inv(st0, st, i, ts) && i < |st0.files|
    requires ts[i] != st0.files[i] && NamesFile(ts[i]) && !Occupied(st0, st.files, i, ts[i])
    requires Get(st0.enabled, st0.files[i], true)
    requires r.files == st.files[i := ts[i]] && r.disk == st.disk - {st0.files[i]} + {ts[i]}
    requires r.enabled == Rekey(st.enabled, st0.files[i], ts[i], true)
    requires r.metadata == Rekey(st.metadata, st0.files[i], ts[i], map[])
    requires r.manual == Rekey(st.manual, st0.files[i], ts[i], Basename(ts[i]))
    requires ManualInv(st0, st)
    ensures Inv(st0, r, i + 1, ts) && ManualInv(st0, r)
  {
    var f := st0.files[i];
    var t := ts[i];
    MovedIsFresh(st0, st, i, ts);
    MovedPlaces(st0, st, i, ts, r.files, r.disk);
    MovedEntries(st0, st, i, ts, r);
  }

  /** The target of a moved entry is not listed, its source is not listed
      before it, and the list with the target in place has no duplicates. */
  lemma MovedIsFresh(st0: State, st: State, i: nat, ts: seq<Path>)
    requires Consistent(st0) && Inv(st0, st, i, ts) && i < |st0.files|
    requires ts[i] != st0.files[i] && !Occupied(st0, st.files, i, ts[i])
    ensures ts[i] !in st.files && st0.files[i] !in st.files[..i] && st0.files[i] !in st0.files[..i]
    ensures NoDup(st.files[i := ts[i]])
  {
    var f := st0.files[i];
    var t := ts[i];
    var nf := st.files[i := t];
    ListedOnDisk(st0, st, i, ts);
    assert t !in st.disk;
    assert t !in st.files by {
      forall k | 0 <= k < |st.files|
        ensures st.files[k] != t
      {
        assert st.files[k] in st.disk;
      }
    }
    assert NoDup(nf) by {
      forall a, b | 0 <= a < b < |nf|
        ensures nf[a] != nf[b]
      {
        if a != i && b != i {
          assert nf[a] == st.files[a] && nf[b] == st.files[b];
        } else if a == i {
          assert st.files[b] in st.files;
        } else {
          assert st.files[a] in st.files;
        }
      }
    }
    assert f !in st.files[..i] by {
      forall k | 0 <= k < i
        ensures st.files[k] != f
      {
        assert st.files[i] == f;
      }
    }
  }

  /** The list and the disk after a move keep the placement part of the
      invariant. */
  lemma MovedPlaces(st0: State, st: State, i: nat, ts: seq<Path>, files: seq<Path>, disk: set<Path>)
    requires Inv(st0, st, i, ts) && i < |st0.files|
    requires ts[i] != st0.files[i] && NamesFile(ts[i]) && !Occupied(st0, st.files, i, ts[i])
    requires Get(st0.enabled, st0.files[i], true)
    requires ts[i] !in st.files && st0.files[i] !in st.files[..i] && st0.files[i] !in st0.files[..i]
    requires files == st.files[i := ts[i]] && disk == st.disk - {st0.files[i]} + {ts[i]}
    ensures forall k :: i + 1 <= k < |files| ==> files[k] == st0.files[k]
    ensures forall p :: p in disk <==> Occupied(st0, files, i + 1, p)
    ensures forall k :: 0 <= k < i + 1 ==> files[k] == Expected(st0, files, k, ts[k])
  {
    var f := st0.files[i];
    var t := ts[i];
    assert files[..i] == st.files[..i];
    assert files[..i + 1] == st.files[..i] + [t];
    assert st0.files[..i + 1] == st0.files[..i] + [f];
    forall p
      ensures p in disk <==> Occupied(st0, files, i + 1, p)
    {
    }
    forall k | 0 <= k < i + 1
      ensures files[k] == Expected(st0, files, k, ts[k])
    {
      if k < i {
        assert files[..k] == st.files[..k];
      }
    }
  }

  /** The flags, tags and manual entries after a move follow the file. */
  lemma MovedEntries(st0: State, st: State, i: nat, ts: seq<Path>, r: State)
    requires i < |st0.files| == |st.files| == |ts| && NoDup(st.files) && st.files[i] == st0.files[i]
    requires forall k :: 0 <= k < |st.files| ==>
      Get(st.enabled, st.files[k], true) == Get(st0.enabled, st0.files[k], true)
      && Get(st.metadata, st.files[k], map[]) == Get(st0.metadata, st0.files[k], map[])
    requires ManualInv(st0, st)
    requires ts[i] != st0.files[i] && ts[i] !in st.files
    requires r.files == st.files[i := ts[i]]
    requires r.enabled == Rekey(st.enabled, st0.files[i], ts[i], true)
    requires r.metadata == Rekey(st.metadata, st0.files[i], ts[i], map[])
    requires r.manual == Rekey(st.manual, st0.files[i], ts[i], Basename(ts[i]))
    ensures forall k :: 0 <= k < |r.files| ==>
      Get(r.enabled, r.files[k], true) == Get(st0.enabled, st0.files[k], true)
      && Get(r.metadata, r.files[k], map[]) == Get(st0.metadata, st0.files[k], map[])
    ensures ManualInv(st0, r)
  {
    var f := st0.files[i];
    var t := ts[i];
    forall k | 0 <= k < |r.files|
      ensures Get(r.enabled, r.files[k], true) == Get(st0.enabled, st0.files[k], true)
      ensures Get(r.metadata, r.files[k], map[]) == Get(st0.metadata, st0.files[k], map[])
      ensures ManualAt(st0, r, k)
    {
      assert ManualAt(st0, st, k);
      if k != i {
        assert st.files[k] != st.files[i] && st.files[k] != ts[i] by {
          assert st.files[k] in st.files;
        }
        OtherEntry(st.enabled, st.metadata, st.manual, r.enabled, r.metadata, r.manual, st0.files[i], ts[i], Basename(ts[i]), st.files[k]);
      }
    }
  }

  /** A path other than the source and the target of a move keeps its
      flag, tags and manual entry. */
  lemma OtherEntry(e: map<Path, bool>, m: map<Path, Tags>, n: map<Path, string>,
                   e2: map<Path, bool>, m2: map<Path, Tags>, n2: map<Path, string>, f: Path, t: Path, name: string, p: Path)
    requires e2 == Rekey(e, f, t, true) && m2 == Rekey(m, f, t, map[]) && n2 == Rekey(n, f, t, name)
    requires p != f && p != t
    ensures Get(e2, p, true) == Get(e, p, true) && Get(m2, p, map[]) == Get(m, p, map[])
    ensures SameEntry(n2, n, p)
  {
  }

  /** A file that stays where it is, because it is at its target or the
      target exists: only its tags are wiped, at its own path. */
  lemma MoveKeeps(st: State, f: Path, t: Path, name: string, cfg: Settings)
    requires f in st.disk && (t == f || PathExists(st.disk, f, t))
    ensures var r := MoveEntry(st, f, t, name, cfg);
      r.fault == None && r.st.files == st.files && r.st.disk == st.disk
      && r.st.enabled == st.enabled && r.st.metadata == st.metadata && r.st.manual == st.manual
      && r.st.wiped == st.wiped + (if cfg.wipeTags then [f] else [])
  {
  }

  /** A file that moves: the list, the disk, the flags and the tags follow. */
  lemma MoveRenames(st: State, f: Path, t: Path, name: string, cfg: Settings)
    requires RenameOutcome(st.disk, f, t) == Renamed && f in st.files
    ensures var r := MoveEntry(st, f, t, name, cfg);
      && r.fault == None
      && r.st.files == st.files[IndexOf(st.files, f) := t]
      && r.st.disk == st.disk - {f} + {t}
      && r.st.enabled == Rekey(st.enabled, f, t, true)
      && r.st.metadata == Rekey(st.metadata, f, t, map[])
      && r.st.manual == Rekey(st.manual, f, t, name)
      && r.st.wiped == st.wiped + (if cfg.wipeTags then [t] else [])
  {
  }

  /** One entry keeps the invariant and raises nothing. */
  lemma EntryStep(st0: State, st: State, i: nat, ts: seq<Path>, cfg: Settings)
    requires Consistent(st0) && AbsolutePaths(st0) && SlashFreeArtists(st0, cfg) && TargetsOf(st0, ts, cfg)
    requires Inv(st0, st, i, ts) && ManualInv(st0, st) && WipeInv(st0, st, i, cfg.wipeTags) && i < |st0.files|
    ensures RefineEntry(st, st0.files[i], cfg).fault == None
    ensures Inv(st0, RefineEntry(st, st0.files[i], cfg).st, i + 1, ts)
    ensures ManualInv(st0, RefineEntry(st, st0.files[i], cfg).st)
    ensures WipeInv(st0, RefineEntry(st, st0.files[i], cfg).st, i + 1, cfg.wipeTags)
  {
    if Get(st0.enabled, st0.files[i], true) {
      EnabledStep(st0, st, i, ts, cfg);
    } else {
      DisabledStep(st0, st, i, ts, cfg);
    }
  }

  /** `EntryStep` for a disabled file: nothing changes. */
  lemma DisabledStep(st0: State, st: State, i: nat, ts: seq<Path>, cfg: Settings)
    requires Consistent(st0) && TargetsOf(st0, ts, cfg)
    requires Inv(st0, st, i, ts) && ManualInv(st0, st) && WipeInv(st0, st, i, cfg.wipeTags) && i < |st0.files|
    requires !Get(st0.enabled, st0.files[i], true)
    ensures RefineEntry(st, st0.files[i], cfg).fault == None
    ensures Inv(st0, RefineEntry(st, st0.files[i], cfg).st, i + 1, ts)
    ensures ManualInv(st0, RefineEntry(st, st0.files[i], cfg).st)
    ensures WipeInv(st0, RefineEntry(st, st0.files[i], cfg).st, i + 1, cfg.wipeTags)
  {
    DisabledKept(st0, st, i, ts);
    DisabledNoop(st, st0.files[i], cfg);
  }

  /** A pass over a disabled file returns the session as it was. */
  lemma DisabledNoop(st: State, f: Path, cfg: Settings)
    requires !Get(st.enabled, f, true)
    ensures RefineEntry(st, f, cfg) == Step(st, None)
  {
  }

  /** A disabled file that stays where it is keeps the invariants one step on. */
  lemma DisabledKept(st0: State, st: State, i: nat, ts: seq<Path>)
    requires Consistent(st0)
    requires Inv(st0, st, i, ts) && ManualInv(st0, st) && i < |st0.files|
    requires !Get(st0.enabled, st0.files[i], true)
    ensures !Get(st.enabled, st0.files[i], true)
    ensures forall wipe :: WipeInv(st0, st, i, wipe) ==> WipeInv(st0, st, i + 1, wipe)
    ensures Inv(st0, st, i + 1, ts) && ManualInv(st0, st)
  {
    assert st.files[i] == st0.files[i];
    assert st.wiped + [] == st.wiped;
    forall wipe | WipeInv(st0, st, i, wipe)
      ensures WipeInv(st0, st, i + 1, wipe)
    {
      WipeStep(st0, st, i, wipe, st);
    }
    StepStays(st0, st, i, ts, st);
  }

  /** `EntryStep` for an enabled file: it stays or moves to its target. */
  lemma EnabledStep(st0: State, st: State, i: nat, ts: seq<Path>, cfg: Settings)
    requires Consistent(st0) && AbsolutePaths(st0) && SlashFreeArtists(st0, cfg) && TargetsOf(st0, ts, cfg)
    requires Inv(st0, st, i, ts) && ManualInv(st0, st) && WipeInv(st0, st, i, cfg.wipeTags) && i < |st0.files|
    requires Get(st0.enabled, st0.files[i], true)
    ensures RefineEntry(st, st0.files[i], cfg).fault == None
    ensures Inv(st0, RefineEntry(st, st0.files[i], cfg).st, i + 1, ts)
    ensures ManualInv(st0, RefineEntry(st, st0.files[i], cfg).st)
    ensures WipeInv(st0, RefineEntry(st, st0.files[i], cfg).st, i + 1, cfg.wipeTags)
  {
    var f := st0.files[i];
    var t := ts[i];
    assert st.files[i] == f;
    var r := RefineEntry(st, f, cfg).st;
    ListedOnDisk(st0, st, i, ts);
    assert f in st0.files;
    SameTarget(st0, st, f, cfg);
    SameArtist(st.metadata, st0.metadata, f, cfg.artist);
    assert Get(st.enabled, f, true);
    EnabledEffect(st, i, t, cfg);
    if t == f || t in st.disk || !NamesFile(t) {
      WipeStep(st0, st, i, cfg.wipeTags, r);
      StepStays(st0, st, i, ts, r);
    } else {
      assert r.files[..i] == st.files[..i];
      WipeStep(st0, st, i, cfg.wipeTags, r);
      StepMoves(st0, st, i, ts, r);
    }
  }

  /** What one pass of `refine` does to the listed, on-disk, absolute,
      enabled file at position `i`, in terms of its target `t`: it raises
      nothing; a file at its target, or whose target exists or names a
      directory, stays, with only its tags wiped; any other moves to `t`,
      taking its flag, tags and manual entry along. */
  lemma EnabledEffect(st: State, i: nat, t: Path, cfg: Settings)
    requires i < |st.files| && NoDup(st.files) && Get(st.enabled, st.files[i], true)
    requires var f := st.files[i]; f in st.disk && f != [] && f[0] == '/'
    requires t == BatchTarget(st, st.files[i], cfg) && '/' !in ArtistFor(cfg.artist, st.metadata, st.files[i])
    ensures var f := st.files[i];
      var r := RefineEntry(st, f, cfg);
      && r.fault == None
      && (t == f || t in st.disk || !NamesFile(t) ==>
            && r.st.files == st.files && r.st.disk == st.disk
            && r.st.enabled == st.enabled && r.st.metadata == st.metadata && r.st.manual == st.manual
            && r.st.wiped == st.wiped + (if cfg.wipeTags then [f] else []))
      && (!(t == f || t in st.disk || !NamesFile(t)) ==>
            && r.st.files == st.files[i := t]
            && r.st.disk == st.disk - {f} + {t}
            && r.st.enabled == Rekey(st.enabled, f, t, true)
            && r.st.metadata == Rekey(st.metadata, f, t, map[])
            && r.st.manual == Rekey(st.manual, f, t, Basename(t))
            && r.st.wiped == st.wiped + (if cfg.wipeTags then [t] else []))
  {
    var f := st.files[i];
    var s1 := st.(original := st.original[f := Basename(f)]);
    var name := BatchName(st, f, cfg);
    assert RefineEntry(st, f, cfg) == MoveEntry(s1, f, t, name, cfg);
    TargetMove(s1, f, t, name, cfg);
    IndexOfNoDup(st.files, i);
  }

  /** An entry whose target is in its own directory: it stays, with only
      its tags wiped, when it is at its target, the target exists or names
      a directory; otherwise it moves there. */
  lemma TargetMove(st: State, f: Path, t: Path, name: string, cfg: Settings)
    requires f in st.disk && f in st.files && f != [] && f[0] == '/'
    requires Dirname(t) == Dirname(f) && Basename(t) == name && Canonical(t)
    ensures var r := MoveEntry(st, f, t, name, cfg);
      && r.fault == None
      && (t == f || t in st.disk || !NamesFile(t) ==>
            && r.st.files == st.files && r.st.disk == st.disk
            && r.st.enabled == st.enabled && r.st.metadata == st.metadata && r.st.manual == st.manual
            && r.st.wiped == st.wiped + (if cfg.wipeTags then [f] else []))
      && (!(t == f || t in st.disk || !NamesFile(t)) ==>
            && r.st.files == st.files[IndexOf(st.files, f) := t]
            && r.st.disk == st.disk - {f} + {t}
            && r.st.enabled == Rekey(st.enabled, f, t, true)
            && r.st.metadata == Rekey(st.metadata, f, t, map[])
            && r.st.manual == Rekey(st.manual, f, t, name)
            && r.st.wiped == st.wiped + (if cfg.wipeTags then [t] else []))
  {
    if t == f || t in st.disk {
      MoveKeeps(st, f, t, name, cfg);
    } else if Basename(t) == [] {
      EmptyNameIsDirectory(f);
      assert t == Join(Dirname(f), []);
      MoveKeeps(st, f, t, name, cfg);
    } else if DotName(Basename(t)) {
      DotTargetRefused(st.disk, f, t);
      MoveKeeps(st, f, t, name, cfg);
    } else {
      assert RenameOutcome(st.disk, f, t) == Renamed;
      MoveRenames(st, f, t, name, cfg);
    }
  }

  /** The target of a file depends only on that file's tags. */
  lemma SameTarget(st0: State, st: State, f: Path, cfg: Settings)
    requires Get(st.metadata, f, map[]) == Get(st0.metadata, f, map[])
    ensures BatchTarget(st, f, cfg) == BatchTarget(st0, f, cfg)
    ensures BatchName(st, f, cfg) == BatchName(st0, f, cfg)
  {
    SameArtist(st.metadata, st0.metadata, f, cfg.artist);
  }

  /** The rest of the batch keeps the invariant and raises nothing. */
  lemma {:induction false} Run(st0: State, st: State, i: nat, ts: seq<Path>, cfg: Settings)
    requires Consistent(st0) && AbsolutePaths(st0) && SlashFreeArtists(st0, cfg) && TargetsOf(st0, ts, cfg)
    requires Inv(st0, st, i, ts) && ManualInv(st0, st) && WipeInv(st0, st, i, cfg.wipeTags)
    ensures RefineFrom(st, st0.files, i, cfg).fault == None
    ensures Inv(st0, RefineFrom(st, st0.files, i, cfg).st, |st0.files|, ts)
    ensures ManualInv(st0, RefineFrom(st, st0.files, i, cfg).st)
    ensures WipeInv(st0, RefineFrom(st, st0.files, i, cfg).st, |st0.files|, cfg.wipeTags)
    decreases |st0.files| - i
  {
    var r := RefineFrom(st, st0.files, i, cfg).st;
    if i < |st0.files| {
      EntryStep(st0, st, i, ts, cfg);
      var s := RefineEntry(st, st0.files[i], cfg);
      Run(st0, s.st, i + 1, ts, cfg);
      assert RefineFrom(st, st0.files, i, cfg) == RefineFrom(s.st, st0.files, i + 1, cfg);
      assert r == RefineFrom(s.st, st0.files, i + 1, cfg).st;
    } else {
      assert r == st;
    }
    assert Inv(st0, r, |st0.files|, ts);
    assert ManualInv(st0, r);
    assert WipeInv(st0, r, |st0.files|, cfg.wipeTags);
  }

  /** Before the first entry. */
  lemma InvStart(st0: State, ts: seq<Path>, wipe: bool)
    requires Consistent(st0) && |ts| == |st0.files|
    ensures Inv(st0, st0, 0, ts) && ManualInv(st0, st0) && WipeInv(st0, st0, 0, wipe)
  {
    assert st0.files[..0] == [];
  }

  /** After the last entry. */
  lemma InvEnd(st0: State, r: State, ts: seq<Path>)
    requires Consistent(st0) && Inv(st0, r, |st0.files|, ts)
    ensures Consistent(r)
    ensures forall p :: p in r.disk <==> (p in st0.disk && p !in st0.files) || p in r.files
  {
    assert r.files[..|r.files|] == r.files;
    assert st0.files[..|st0.files|] == st0.files;
    ListedOnDisk(st0, r, |st0.files|, ts);
  }

  /** The targets of a session's files. */
  function Targets(st: State, cfg: Settings): (ts: seq<Path>)
    ensures |ts| == |st.files|
    ensures forall k :: 0 <= k < |ts| ==> ts[k] == BatchTarget(st, st.files[k], cfg)
  {
    seq(|st.files|, k requires 0 <= k < |st.files| => BatchTarget(st, st.files[k], cfg))
  }

  /** A batch over a consistent session completes and leaves it
      consistent. Each file ends where `Expected` says; the disk holds what
      it held before, less the listed files, plus where they now are; each
      file keeps its enabled flag and its tags; and with the box ticked the
      tags of every enabled file are wiped, in list order, at the path it
      ends at. */
  lemma RefineConsistent(st: State, cfg: Settings)
    requires Consistent(st) && AbsolutePaths(st) && SlashFreeArtists(st, cfg) && st.files != []
    ensures var r := Refine(st, cfg);
      && r.outcome == Completed
      && Consistent(r.st)
      && |r.st.files| == |st.files|
      && (forall k :: 0 <= k < |st.files| ==>
            r.st.files[k] == Expected(st, r.st.files, k, BatchTarget(st, st.files[k], cfg)))
      && (forall p :: p in r.st.disk <==> (p in st.disk && p !in st.files) || p in r.st.files)
      && (forall k :: 0 <= k < |st.files| ==>
            Get(r.st.enabled, r.st.files[k], true) == Get(st.enabled, st.files[k], true)
            && Get(r.st.metadata, r.st.files[k], map[]) == Get(st.metadata, st.files[k], map[]))
      && (forall k :: 0 <= k < |st.files| ==> ManualAt(st, r.st, k))
      && r.st.wiped == st.wiped + WipeLog(st.files, st.enabled, r.st.files, |st.files|, cfg.wipeTags)
  {
    var s := st.(undoStack := st.undoStack + [st.files]);
    var ts := Targets(st, cfg);
    assert TargetsOf(s, ts, cfg) by {
      forall k | 0 <= k < |ts|
        ensures ts[k] == BatchTarget(s, s.files[k], cfg)
      {
        SameTarget(st, s, st.files[k], cfg);
      }
    }
    InvStart(s, ts, cfg.wipeTags);
    Run(s, s, 0, ts, cfg);
    var r := RefineFrom(s, st.files, 0, cfg);
    assert Refine(st, cfg) == Refined(r.st, Completed);
    InvEnd(s, r.st, ts);
    FinalPlaces(st, s.undoStack, r.st, cfg);
    FinalManual(st, s.undoStack, r.st);
  }

  /** The manual entries, as `RefineConsistent` states them. */
  lemma FinalManual(st: State, u: seq<seq<Path>>, r: State)
    requires |r.files| == |st.files| && ManualInv(st.(undoStack := u), r)
    ensures forall k :: 0 <= k < |st.files| ==> ManualAt(st, r, k)
  {
    forall k | 0 <= k < |st.files|
      ensures ManualAt(st, r, k)
    {
      assert ManualAt(st.(undoStack := u), r, k);
    }
  }

  /** Where the files end, as `RefineConsistent` states it. */
  lemma FinalPlaces(st: State, u: seq<seq<Path>>, r: State, cfg: Settings)
    requires Inv(st.(undoStack := u), r, |st.files|, Targets(st, cfg))
    ensures forall k :: 0 <= k < |st.files| ==>
      r.files[k] == Expected(st, r.files, k, BatchTarget(st, st.files[k], cfg))
  {
    var s := st.(undoStack := u);
    var ts := Targets(st, cfg);
    forall k | 0 <= k < |st.files|
      ensures r.files[k] == Expected(st, r.files, k, BatchTarget(st, st.files[k], cfg))
    {
      var t := ts[k];
      assert r.files[k] == Expected(s, r.files, k, t);
      ExpectedIgnoresUndo(st, u, r.files, k, t);
    }
  }

  /** Where a file is expected to end does not depend on the undo history. */
  lemma ExpectedIgnoresUndo(st: State, u: seq<seq<Path>>, done: seq<Path>, k: nat, t: Path)
    requires k < |st.files| && k <= |done|
    ensures Expected(st.(undoStack := u), done, k, t) == Expected(st, done, k, t)
  {
    var s := st.(undoStack := u);
    assert s.files == st.files && s.disk == st.disk && s.enabled == st.enabled;
    assert Occupied(s, done, k, t) == Occupied(st, done, k, t);
  }

  /** A file the batch moved, which had no manual entry, is not tagged
      manual afterwards: its entry is its new basename. */
  lemma MovedRowNotManual(st: State, cfg: Settings, k: nat)
    requires Consistent(st) && AbsolutePaths(st) && SlashFreeArtists(st, cfg) && st.files != []
    requires k < |st.files| && st.files[k] !in st.manual
    requires Refine(st, cfg).st.files[k] != st.files[k]
    ensures var r := Refine(st, cfg).st;
      TagOf(r.files[k], r.manual, r.enabled) != ManualRow
  {
    RefineConsistent(st, cfg);
    assert ManualAt(st, Refine(st, cfg).st, k);
  }
}
