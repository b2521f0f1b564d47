/** The session of `RefineryAudio` as a value, and each of its operations
    as a function from the state before to the state after: adding files,
    the enabled flags, the batch rename with its undo log, the single-file
    manual rename and clearing the session. The class in `refinery.dfy`
    is proved to do exactly what these functions say. */
module Engine {
  import opened Common
  import opened Paths
  import opened Titles
  import opened Naming
  import opened Disk

  /** The window's naming mode, artist field and "nuke metadata" box. */
  datatype Settings = Settings(titleOnly: bool, artist: string, wipeTags: bool)

  /** The session's fields, with the disk and the tag-wipe log. */
  datatype State = State(
    files: seq<Path>,
    enabled: map<Path, bool>,
    manual: map<Path, string>,
    original: map<Path, string>,
    metadata: map<Path, Tags>,
    undoStack: seq<seq<Path>>,
    disk: set<Path>,
    wiped: seq<Path>)

  /** The exception that ends an operation early: `os.rename` raised, the
      path was no longer listed (`list.index` raised), or the tag wipe
      raised. */
  datatype Fault = RenameFailed | NotListed | WipeFailed

  /** A state, and the exception that stopped the operation, if one did. */
  datatype Step = Step(st: State, fault: Option<Fault>)

  /** A state and what `refine` reported. */
  datatype Outcome = NoFiles | Completed | Aborted(fault: Fault)
  datatype Refined = Refined(st: State, outcome: Outcome)

  /** What a manual rename did: renamed, kept because the target exists, or
      stopped by an exception. */
  datatype EditOutcome = Applied | Kept | EditFailed(fault: Fault)
  datatype Edited = Edited(st: State, outcome: EditOutcome)

  /** The new session: nothing listed, nothing on the undo log. */
  function Fresh(disk: set<Path>): State
  {
    State([], map[], map[], map[], map[], [], disk, [])
  }

  // ---------------------------------------------------------------------
  // Adding files

  /** One chosen file: appended unless already listed, and enabled unless
      it already has a flag. */
  function AddOne(st: State, f: Path): (r: State)
    ensures |st.files| <= |r.files| && r.files[..|st.files|] == st.files
    ensures forall p :: p in r.files <==> p in st.files || p == f
    ensures NoDup(st.files) ==> NoDup(r.files)
    ensures forall p :: p in st.enabled ==> p in r.enabled && r.enabled[p] == st.enabled[p]
    ensures f !in st.files ==> f in r.enabled && (f !in st.enabled ==> r.enabled[f])
    ensures forall p :: p in r.enabled ==> p in st.enabled || p == f
    ensures forall p :: Get(r.enabled, p, true) == Get(st.enabled, p, true)
    ensures r == st.(files := r.files, enabled := r.enabled)
  {
    if f in st.files then st
    else st.(files := st.files + [f],
             enabled := if f in st.enabled then st.enabled else st.enabled[f := true])
  }

  /** `add_files` with the files chosen in the dialog. */
  function AddFiles(st: State, chosen: seq<Path>): (r: State)
    ensures |st.files| <= |r.files| && r.files[..|st.files|] == st.files
    ensures forall p :: p in r.files <==> p in st.files || p in chosen
    ensures NoDup(st.files) ==> NoDup(r.files)
    ensures forall p :: p in st.enabled ==> p in r.enabled && r.enabled[p] == st.enabled[p]
    ensures forall p :: p in chosen && p !in st.files ==>
      p in r.enabled && (p !in st.enabled ==> r.enabled[p])
    ensures forall p :: p in r.enabled ==> p in st.enabled || p in chosen
    ensures forall p :: Get(r.enabled, p, true) == Get(st.enabled, p, true)
    ensures r == st.(files := r.files, enabled := r.enabled)
    decreases |chosen|
  {
    if chosen == [] then st
    else
      var r := AddFiles(AddOne(st, chosen[0]), chosen[1..]);
      assert forall p :: p in chosen <==> p == chosen[0] || p in chosen[1..];
      r
  }

  /** `fin` extends `known` by elements of `chosen` that `known` lacks, in
      the order of their first position in `chosen`. */
  predicate AppendsInOrder(known: seq<Path>, fin: seq<Path>, chosen: seq<Path>)
  {
    && |known| <= |fin| && fin[..|known|] == known
    && (forall k :: |known| <= k < |fin| ==> fin[k] in chosen && fin[k] !in known)
    && (forall a, b :: |known| <= a < b < |fin| ==> IndexOf(chosen, fin[a]) < IndexOf(chosen, fin[b]))
  }

  /** The appended files are the chosen files that were not listed, each
      once, in the order of their first choice. */
  lemma {:induction false} AddFilesAppends(st: State, chosen: seq<Path>)
    ensures AppendsInOrder(st.files, AddFiles(st, chosen).files, chosen)
    decreases |chosen|
  {
    if chosen == [] {
      assert AddFiles(st, chosen).files == st.files;
    } else {
      var s1 := AddOne(st, chosen[0]);
      AddFilesAppends(s1, chosen[1..]);
      AppendsStep(st.files, s1.files, AddFiles(s1, chosen[1..]).files, chosen);
    }
  }

  /** One chosen file, then the rest. */
  lemma AppendsStep(known: seq<Path>, mid: seq<Path>, fin: seq<Path>, chosen: seq<Path>)
    requires chosen != []
    requires mid == known || (chosen[0] !in known && mid == known + [chosen[0]])
    requires chosen[0] in mid
    requires AppendsInOrder(mid, fin, chosen[1..])
    ensures AppendsInOrder(known, fin, chosen)
  {
    var c := chosen[0];
    assert chosen == [c] + chosen[1..];
    assert fin[..|known|] == mid[..|known|];
    forall k | |mid| <= k < |fin|
      ensures fin[k] != c && fin[k] in chosen && IndexOf(chosen, fin[k]) == 1 + IndexOf(chosen[1..], fin[k])
    {
    }
    if mid != known {
      assert fin[|known|] == mid[|known|] == c;
    }
  }

  /** The file names `os.walk` reported for one directory. */
  datatype WalkEntry = WalkEntry(dir: Path, names: seq<string>)

  /** `name.lower().endswith(".mp3")`. */
  predicate IsMp3(name: string)
  {
    |name| >= 4 && Lower(name[|name| - 4]) == '.' && Lower(name[|name| - 3]) == 'm'
    && Lower(name[|name| - 2]) == 'p' && Lower(name[|name| - 1]) == '3'
  }

  /** `os.path.join(dir, name)` for each name, in order. */
  function JoinAll(dir: Path, names: seq<string>): (ps: seq<Path>)
    ensures |ps| == |names|
    ensures forall k :: 0 <= k < |names| ==> ps[k] == Join(dir, names[k])
  {
    if names == [] then [] else [Join(dir, names[0])] + JoinAll(dir, names[1..])
  }

  /** Every path a folder walk reports, directory by directory. */
  function Listing(walk: seq<WalkEntry>): seq<Path>
  {
    if walk == [] then [] else JoinAll(walk[0].dir, walk[0].names) + Listing(walk[1..])
  }

  /** The `.mp3` files of one directory that are not listed in `known`,
      in the order of the names. */
  function FoundIn(dir: Path, names: seq<string>, known: seq<Path>): seq<Path>
  {
    if names == [] then []
    else
      var p := Join(dir, names[0]);
      (if IsMp3(names[0]) && p !in known then [p] else []) + FoundIn(dir, names[1..], known)
  }

  /** `FoundIn` holds only unlisted `.mp3` files of the directory, and all
      of them. */
  lemma {:induction false} FoundInExact(dir: Path, names: seq<string>, known: seq<Path>)
    ensures var r := FoundIn(dir, names, known);
      && (forall p :: p in r ==> p in JoinAll(dir, names) && p !in known && IsMp3(p))
      && (forall k :: 0 <= k < |names| && IsMp3(names[k]) && Join(dir, names[k]) !in known ==>
            Join(dir, names[k]) in r)
    decreases |names|
  {
    if names != [] {
      FoundInExact(dir, names[1..], known);
      var p := Join(dir, names[0]);
      var r, rest := FoundIn(dir, names, known), FoundIn(dir, names[1..], known);
      assert JoinAll(dir, names) == [p] + JoinAll(dir, names[1..]);
      if IsMp3(names[0]) && p !in known {
        Mp3Join(dir, names[0]);
        assert r == [p] + rest;
      } else {
        assert r == rest;
      }
      forall k | 0 <= k < |names| && IsMp3(names[k]) && Join(dir, names[k]) !in known
        ensures Join(dir, names[k]) in r
      {
        if k > 0 {
          assert names[k] == names[1..][k - 1];
        }
      }
    }
  }

  /** `FoundIn` from name `k` on: name `k`, if new, then the rest. */
  lemma FoundInFrom(dir: Path, names: seq<string>, k: nat, known: seq<Path>)
    requires k < |names|
    ensures FoundIn(dir, names[k..], known) ==
      (if IsMp3(names[k]) && Join(dir, names[k]) !in known then [Join(dir, names[k])] else [])
      + FoundIn(dir, names[k + 1..], known)
  {
    assert names[k..][1..] == names[k + 1..];
  }

  /** `Found` from entry `j` on: the new files of entry `j`, then the rest. */
  lemma FoundFrom(walk: seq<WalkEntry>, j: nat, known: seq<Path>)
    requires j < |walk|
    ensures Found(walk[j..], known) == FoundIn(walk[j].dir, walk[j].names, known) + Found(walk[j + 1..], known)
  {
    assert walk[j..][1..] == walk[j + 1..];
  }

  /** A path joined from an `.mp3` name is an `.mp3` path. */
  lemma Mp3Join(dir: Path, name: string)
    requires IsMp3(name)
    ensures IsMp3(Join(dir, name))
  {
    if name[0] != '/' {
      Mp3Suffix(Join(dir, name), name);
    }
  }

  /** A string that ends with an `.mp3` name is an `.mp3` name. */
  lemma Mp3Suffix(p: string, name: string)
    requires IsMp3(name) && |name| <= |p| && p[|p| - |name|..] == name
    ensures IsMp3(p)
  {
    var tail := p[|p| - |name|..];
    assert p[|p| - 1] == tail[|name| - 1];
    assert p[|p| - 2] == tail[|name| - 2];
    assert p[|p| - 3] == tail[|name| - 3];
    assert p[|p| - 4] == tail[|name| - 4];
  }

  /** The new files of a folder walk, directory by directory. */
  function Found(walk: seq<WalkEntry>, known: seq<Path>): seq<Path>
  {
    if walk == [] then [] else FoundIn(walk[0].dir, walk[0].names, known) + Found(walk[1..], known)
  }

  /** `Found` holds only unlisted `.mp3` files of the walk, and all of
      them. */
  lemma {:induction false} FoundExact(walk: seq<WalkEntry>, known: seq<Path>)
    ensures var r := Found(walk, known);
      && (forall p :: p in r ==> p in Listing(walk) && p !in known && IsMp3(p))
      && (forall j, k ::
            (0 <= j < |walk| && 0 <= k < |walk[j].names| && IsMp3(walk[j].names[k])
             && Join(walk[j].dir, walk[j].names[k]) !in known) ==> Join(walk[j].dir, walk[j].names[k]) in r)
    decreases |walk|
  {
    if walk != [] {
      FoundInExact(walk[0].dir, walk[0].names, known);
      FoundExact(walk[1..], known);
      assert forall j :: 1 <= j < |walk| ==> walk[j] == walk[1..][j - 1];
    }
  }

  /** Every element of `xs` occurs in `ys`, and `xs` follows the order of
      their first occurrences there. */
  predicate InOrder(xs: seq<Path>, ys: seq<Path>)
  {
    && (forall k :: 0 <= k < |xs| ==> xs[k] in ys)
    && (forall a, b :: 0 <= a < b < |xs| ==> IndexOf(ys, xs[a]) < IndexOf(ys, xs[b]))
  }

  /** The first occurrence in a concatenation. */
  lemma {:induction false} IndexOfAppend(a: seq<Path>, b: seq<Path>, x: Path)
    requires x in a + b
    ensures x in a ==> IndexOf(a + b, x) == IndexOf(a, x)
    ensures x !in a ==> IndexOf(a + b, x) == |a| + IndexOf(b, x)
    decreases |a|
  {
    if a == [] {
      assert a + b == b;
    } else if a[0] != x {
      assert (a + b)[1..] == a[1..] + b;
      IndexOfAppend(a[1..], b, x);
    }
  }

  lemma NoDupSplit(a: seq<Path>, b: seq<Path>)
    requires NoDup(a + b)
    ensures NoDup(a) && NoDup(b)
    ensures forall x :: x in a ==> x !in b
  {
    forall i, j | 0 <= i < |a| && 0 <= j < |b|
      ensures a[i] != b[j]
    {
      assert (a + b)[i] == a[i] && (a + b)[|a| + j] == b[j];
    }
    forall i, j | 0 <= i < j < |b|
      ensures b[i] != b[j]
    {
      assert (a + b)[|a| + i] == b[i] && (a + b)[|a| + j] == b[j];
    }
    forall i, j | 0 <= i < j < |a|
      ensures a[i] != a[j]
    {
      assert (a + b)[i] == a[i] && (a + b)[j] == a[j];
    }
  }

  /** Orders of two disjoint lists combine. */
  lemma InOrderAppend(xa: seq<Path>, xb: seq<Path>, a: seq<Path>, b: seq<Path>)
    requires InOrder(xa, a) && InOrder(xb, b)
    requires forall x :: x in a ==> x !in b
    ensures InOrder(xa + xb, a + b)
  {
    var xs := xa + xb;
    forall k | 0 <= k < |xs|
      ensures xs[k] in a + b && (k < |xa| ==> IndexOf(a + b, xs[k]) < |a|)
      ensures k >= |xa| ==> IndexOf(a + b, xs[k]) == |a| + IndexOf(b, xs[k])
      ensures k < |xa| ==> IndexOf(a + b, xs[k]) == IndexOf(a, xs[k])
    {
      if k < |xa| {
        assert xs[k] == xa[k] && xa[k] in a;
        IndexOfAppend(a, b, xs[k]);
      } else {
        assert xs[k] == xb[k - |xa|] && xb[k - |xa|] in b;
        IndexOfAppend(a, b, xs[k]);
      }
    }
    forall i, j | 0 <= i < j < |xs|
      ensures IndexOf(a + b, xs[i]) < IndexOf(a + b, xs[j])
    {
      if j < |xa| {
        assert xs[i] == xa[i] && xs[j] == xa[j];
      } else if i >= |xa| {
        assert xs[i] == xb[i - |xa|] && xs[j] == xb[j - |xa|];
      }
    }
  }

  /** One directory's new files keep the order of its names. */
  lemma {:induction false} FoundInOrder(dir: Path, names: seq<string>, known: seq<Path>)
    requires NoDup(JoinAll(dir, names))
    ensures InOrder(FoundIn(dir, names, known), JoinAll(dir, names))
    decreases |names|
  {
    if names != [] {
      var l := JoinAll(dir, names);
      var l1 := JoinAll(dir, names[1..]);
      var p := Join(dir, names[0]);
      assert l == [p] + l1;
      NoDupSplit([p], l1);
      FoundInOrder(dir, names[1..], known);
      var f1 := FoundIn(dir, names[1..], known);
      var head: seq<Path> := if IsMp3(names[0]) && p !in known then [p] else [];
      assert FoundIn(dir, names, known) == head + f1;
      InOrderAppend(head, f1, [p], l1);
    }
  }

  /** A walk's new files keep the order of the walk. */
  lemma {:induction false} FoundOrder(walk: seq<WalkEntry>, known: seq<Path>)
    requires NoDup(Listing(walk))
    ensures InOrder(Found(walk, known), Listing(walk))
    decreases |walk|
  {
    if walk != [] {
      var a := JoinAll(walk[0].dir, walk[0].names);
      NoDupSplit(a, Listing(walk[1..]));
      FoundInOrder(walk[0].dir, walk[0].names, known);
      FoundOrder(walk[1..], known);
      InOrderAppend(FoundIn(walk[0].dir, walk[0].names, known), Found(walk[1..], known), a, Listing(walk[1..]));
    }
  }

  /** `setdefault(f, True)` for each of `fs`. */
  function EnableAll(enabled: map<Path, bool>, fs: seq<Path>): (r: map<Path, bool>)
    ensures forall p :: p in r <==> p in enabled || p in fs
    ensures forall p :: p in enabled ==> r[p] == enabled[p]
    ensures forall p :: p in fs && p !in enabled ==> r[p]
    decreases |fs|
  {
    if fs == [] then enabled
    else
      var e := if fs[0] in enabled then enabled else enabled[fs[0] := true];
      var r := EnableAll(e, fs[1..]);
      assert forall p :: p in fs <==> p == fs[0] || p in fs[1..];
      r
  }

  /** `add_folder`: nothing when the dialog was cancelled; otherwise the
      listed files stay first, followed by unlisted `.mp3` files of the
      walk, every one of them; a new file without a flag is enabled and
      every flag that exists is kept. */
  function AddFolder(st: State, folder: Path, walk: seq<WalkEntry>): (r: State)
    ensures folder == [] ==> r == st
    ensures |st.files| <= |r.files| && r.files[..|st.files|] == st.files
    ensures forall k :: |st.files| <= k < |r.files| ==>
      r.files[k] in Listing(walk) && r.files[k] !in st.files && IsMp3(r.files[k])
    ensures folder != [] ==> forall j, k ::
      (0 <= j < |walk| && 0 <= k < |walk[j].names| && IsMp3(walk[j].names[k]))
      ==> Join(walk[j].dir, walk[j].names[k]) in r.files
    ensures forall p :: Get(r.enabled, p, true) == Get(st.enabled, p, true)
    ensures forall p :: p in r.enabled <==> p in st.enabled || p in r.files[|st.files|..]
    ensures r == st.(files := r.files, enabled := r.enabled)
  {
    if folder == [] then st
    else
      var found := Found(walk, st.files);
      FoundExact(walk, st.files);
      var r := st.(files := st.files + found, enabled := EnableAll(st.enabled, found));
      assert r.files[|st.files|..] == found;
      assert forall k :: |st.files| <= k < |r.files| ==> r.files[k] == found[k - |st.files|];
      r
  }

  /** When the walk reports no path twice, as `os.walk` does not, the added
      files keep the order of the walk. */
  lemma AddFolderOrder(st: State, folder: Path, walk: seq<WalkEntry>)
    requires NoDup(Listing(walk))
    ensures AppendsInOrder(st.files, AddFolder(st, folder, walk).files, Listing(walk))
  {
    var r := AddFolder(st, folder, walk);
    if folder != [] {
      var found := Found(walk, st.files);
      FoundOrder(walk, st.files);
      assert forall k :: |st.files| <= k < |r.files| ==> r.files[k] == found[k - |st.files|];
    }
  }

  // ---------------------------------------------------------------------
  // Enabled flags

  /** `select_all` (`v` true) and `deselect_all` (`v` false): every listed
      file gets flag `v`; other flags stay. */
  function SetAll(st: State, v: bool): (r: State)
    ensures forall p :: p in r.enabled <==> p in st.enabled || p in st.files
    ensures forall p :: p in st.files ==> r.enabled[p] == v
    ensures forall p :: p in st.enabled && p !in st.files ==> r.enabled[p] == st.enabled[p]
    ensures r == st.(enabled := r.enabled)
  {
    st.(enabled := map p | p in st.enabled.Keys + (set f | f in st.files) ::
                     if p in st.files then v else st.enabled[p])
  }

  /** After `select_all` no row is tagged disabled; after `deselect_all`
      every row that is not tagged manual is tagged disabled. */
  lemma SetAllTags(st: State, v: bool, k: nat)
    requires k < |st.files|
    ensures var f := st.files[k];
      var t := TagOf(f, st.manual, SetAll(st, v).enabled);
      if v then t != DisabledRow else t == ManualRow || t == DisabledRow
  {
    assert st.files[k] in st.files;
  }

  /** The enabled-column click on row `row` (`edit_single`, column #1). */
  function Toggle(st: State, row: nat): (r: State)
    requires row < |st.files|
    ensures var f := st.files[row];
      Get(r.enabled, f, true) == !Get(st.enabled, f, true)
      && forall p :: p != f ==> (p in r.enabled <==> p in st.enabled) && Get(r.enabled, p, true) == Get(st.enabled, p, true)
    ensures r == st.(enabled := r.enabled)
  {
    var f := st.files[row];
    st.(enabled := st.enabled[f := !Get(st.enabled, f, true)])
  }

  /** Two clicks on the same row give back every flag as it read before. */
  lemma ToggleTwice(st: State, row: nat, p: Path)
    requires row < |st.files|
    ensures Get(Toggle(Toggle(st, row), row).enabled, p, true) == Get(st.enabled, p, true)
  {
  }

  // ---------------------------------------------------------------------
  // The batch rename

  /** The tag wipe of one file, when the box is ticked. */
  function Wipe(st: State, p: Path, cfg: Settings): (r: Step)
    ensures r.st == st || r.st == st.(wiped := st.wiped + [p])
    ensures r.fault.Some? <==> cfg.wipeTags && p !in st.disk
    ensures r.st.wiped == if cfg.wipeTags && p in st.disk then st.wiped + [p] else st.wiped
  {
    if !cfg.wipeTags then Step(st, None)
    else if p in st.disk then Step(st.(wiped := st.wiped + [p]), None)
    else Step(st, Some(WipeFailed))
  }

  /** Moving a file's manual entry, tags and flag from `f` to `t`, each
      popped with its default (`name`, `{}` and `True`): `t` gets what `f`
      had, `f` loses its entries, and every other path keeps its own. */
  function Carry(st: State, f: Path, t: Path, name: string): (r: State)
    ensures t in r.manual && r.manual[t] == Get(st.manual, f, name)
    ensures Get(r.metadata, t, map[]) == Get(st.metadata, f, map[])
    ensures Get(r.enabled, t, true) == Get(st.enabled, f, true)
    ensures f != t ==> f !in r.manual && f !in r.metadata && f !in r.enabled
    ensures forall p :: p != f && p != t ==>
      && Get(r.enabled, p, true) == Get(st.enabled, p, true)
      && Get(r.metadata, p, map[]) == Get(st.metadata, p, map[])
      && (p in r.manual <==> p in st.manual) && (p in st.manual ==> r.manual[p] == st.manual[p])
    ensures r == st.(manual := r.manual, metadata := r.metadata, enabled := r.enabled)
  {
    st.(manual := Rekey(st.manual, f, t, name),
        metadata := Rekey(st.metadata, f, t, map[]),
        enabled := Rekey(st.enabled, f, t, true))
  }

  /** The target name of `f` in a batch: its clean title in title-only
      mode; otherwise "artist - title" with the window's artist, or failing
      that the file's "Contributing Artist" tag, or the title alone when
      both are empty. */
  function BatchName(st: State, f: Path, cfg: Settings): (n: string)
    ensures var title := SmartTitle(Basename(f));
      && (cfg.titleOnly ==> n == title)
      && (!cfg.titleOnly && cfg.artist != "" ==> n == cfg.artist + " - " + title)
      && (!cfg.titleOnly && cfg.artist == "" && TagArtist(st.metadata, f) != "" ==>
            n == TagArtist(st.metadata, f) + " - " + title)
      && (!cfg.titleOnly && cfg.artist == "" && TagArtist(st.metadata, f) == "" ==> n == title)
  {
    var title := SmartTitle(Basename(f));
    ComposeCases(title, cfg.artist, st.metadata, f, cfg.titleOnly);
    ComposeName(title, ArtistFor(cfg.artist, st.metadata, f), cfg.titleOnly)
  }

  /** The target path of `f` in a batch: with a slash-free artist, the
      batch name in the directory of `f`, as a canonical path. */
  function BatchTarget(st: State, f: Path, cfg: Settings): (p: Path)
    ensures '/' !in ArtistFor(cfg.artist, st.metadata, f) ==>
      Basename(p) == BatchName(st, f, cfg) && Dirname(p) == Dirname(f) && Canonical(p)
  {
    var a := ArtistFor(cfg.artist, st.metadata, f);
    NewNameComposes(Basename(f), a, cfg.titleOnly);
    TargetPath(f, a, cfg.titleOnly)
  }

  /** The "Contributing Artist" tag cached for `f`, or "". */
  function TagArtist(metadata: map<Path, Tags>, f: Path): string
  {
    Get(Get(metadata, f, map[]), ContributingArtist, "")
  }

  lemma ComposeCases(title: string, override: string, metadata: map<Path, Tags>, f: Path, titleOnly: bool)
    ensures var n := ComposeName(title, ArtistFor(override, metadata, f), titleOnly);
      && (titleOnly ==> n == title)
      && (!titleOnly && override != "" ==> n == override + " - " + title)
      && (!titleOnly && override == "" && TagArtist(metadata, f) != "" ==>
            n == TagArtist(metadata, f) + " - " + title)
      && (!titleOnly && override == "" && TagArtist(metadata, f) == "" ==> n == title)
  {
  }

  /** The rename part of one pass of `refine`: `f` goes to `t` (named
      `name`) unless it is there already or `t` is taken, then the tags of
      wherever the file now is are wiped. */
  function MoveEntry(st: State, f: Path, t: Path, name: string, cfg: Settings): (r: Step)
    ensures |r.st.files| == |st.files| && |r.st.disk| == |st.disk|
    ensures r.st.undoStack == st.undoStack
    ensures st.wiped <= r.st.wiped
    ensures r.fault == Some(RenameFailed) <==> f != t && RenameOutcome(st.disk, f, t) == Failed
    ensures r.fault == Some(NotListed) <==> f != t && RenameOutcome(st.disk, f, t) == Renamed && f !in st.files
    ensures r.fault == Some(WipeFailed) <==>
      cfg.wipeTags && f !in st.disk && (f == t || RenameOutcome(st.disk, f, t) == Refused)
    ensures r.fault.None? ==>
      r.st.wiped == st.wiped + (if !cfg.wipeTags then [] else if f != t && RenameOutcome(st.disk, f, t) == Renamed then [t] else [f])
    ensures r.st.files == st.files || (f in st.files && r.st.files == st.files[IndexOf(st.files, f) := t])
    ensures r.st.original == st.original
  {
    if f == t then Wipe(st, f, cfg)
    else match RenameOutcome(st.disk, f, t)
      case Refused => Wipe(st, f, cfg)
      case Failed => Step(st, Some(RenameFailed))
      case Renamed =>
        var s := st.(disk := AfterRename(st.disk, f, t));
        if f !in st.files then Step(s, Some(NotListed))
        else Wipe(Carry(s.(files := st.files[IndexOf(st.files, f) := t]), f, t, name), t, cfg)
  }

  /** One pass of the loop of `refine` for the snapshot entry `f`: a
      disabled file is skipped; otherwise its basename is recorded as its
      original name and it is moved to its batch target. */
  function RefineEntry(st: State, f: Path, cfg: Settings): (r: Step)
    ensures |r.st.files| == |st.files| && |r.st.disk| == |st.disk|
    ensures r.st.undoStack == st.undoStack
    ensures st.wiped <= r.st.wiped
    ensures !Get(st.enabled, f, true) ==> r == Step(st, None)
    ensures r.fault == Some(NotListed) ==> f !in st.files
    ensures r.st.files == st.files
      || (f in st.files && r.st.files == st.files[IndexOf(st.files, f) := BatchTarget(st, f, cfg)])
    ensures Get(st.enabled, f, true) ==> r.st.original == st.original[f := Basename(f)]
  {
    if !Get(st.enabled, f, true) then Step(st, None)
    else MoveEntry(st.(original := st.original[f := Basename(f)]), f, BatchTarget(st, f, cfg), BatchName(st, f, cfg), cfg)
  }

  /** The loop of `refine` from snapshot position `i` on, stopping at the
      first exception. */
  function RefineFrom(st: State, snap: seq<Path>, i: nat, cfg: Settings): (r: Step)
    requires i <= |snap|
    ensures |r.st.files| == |st.files| && |r.st.disk| == |st.disk|
    ensures r.st.undoStack == st.undoStack
    ensures st.wiped <= r.st.wiped
    decreases |snap| - i
  {
    if i == |snap| then Step(st, None)
    else
      var s := RefineEntry(st, snap[i], cfg);
      if s.fault.Some? then s else RefineFrom(s.st, snap, i + 1, cfg)
  }

  /** `refine`: a warning and no change without files; otherwise the file
      list is pushed on the undo log and each file of a snapshot of it is
      processed in turn. */
  function Refine(st: State, cfg: Settings): (r: Refined)
    ensures r.outcome == NoFiles <==> st.files == []
    ensures st.files == [] ==> r.st == st
    ensures st.files != [] ==> r.st.undoStack == st.undoStack + [st.files]
    ensures |r.st.files| == |st.files| && |r.st.disk| == |st.disk|
  {
    if st.files == [] then Refined(st, NoFiles)
    else
      var s := RefineFrom(st.(undoStack := st.undoStack + [st.files]), st.files, 0, cfg);
      Refined(s.st, if s.fault.Some? then Aborted(s.fault.value) else Completed)
  }

  /** Replacing one element of a sequence swaps it in the multiset. */
  lemma MultisetUpdate<T>(s: seq<T>, k: nat, x: T)
    requires k < |s|
    ensures multiset(s[k := x]) == multiset(s) - multiset{s[k]} + multiset{x}
  {
    assert s == s[..k] + [s[k]] + s[k + 1..];
    assert s[k := x] == s[..k] + [x] + s[k + 1..];
  }

  /** While the snapshot's remaining entries are all still listed, the
      entry being processed is listed when its rename succeeds, and the
      rest stay listed. */
  lemma EntryKeepsListing(st: State, snap: seq<Path>, i: nat, cfg: Settings)
    requires i < |snap| && multiset(snap[i..]) <= multiset(st.files)
    ensures RefineEntry(st, snap[i], cfg).fault != Some(NotListed)
    ensures multiset(snap[i + 1..]) <= multiset(RefineEntry(st, snap[i], cfg).st.files)
  {
    var f := snap[i];
    assert snap[i..] == [f] + snap[i + 1..];
    var r := RefineEntry(st, f, cfg);
    ListedStays(st.files, f, snap[i + 1..], r.st.files, BatchTarget(st, f, cfg));
  }

  /** Replacing the first `f` of a list that holds `f` and `rest` keeps
      `rest` in the list. */
  lemma ListedStays(files: seq<Path>, f: Path, rest: seq<Path>, next: seq<Path>, t: Path)
    requires multiset([f] + rest) <= multiset(files)
    requires next == files || (f in files && next == files[IndexOf(files, f) := t])
    ensures f in files && multiset(rest) <= multiset(next)
  {
    assert f in multiset(files);
    if next != files {
      MultisetUpdate(files, IndexOf(files, f), t);
    }
  }

  /** Generalisation of `RefineNeverUnlisted` to the rest of the loop. */
  lemma {:induction false} RefineFromKeepsListing(st: State, snap: seq<Path>, i: nat, cfg: Settings)
    requires i <= |snap| && multiset(snap[i..]) <= multiset(st.files)
    ensures RefineFrom(st, snap, i, cfg).fault != Some(NotListed)
    decreases |snap| - i
  {
    if i < |snap| {
      EntryKeepsListing(st, snap, i, cfg);
      var s := RefineEntry(st, snap[i], cfg);
      if s.fault.None? {
        RefineFromKeepsListing(s.st, snap, i + 1, cfg);
      }
    }
  }

  /** `self.files.index(f)` in `refine` never raises: every file of the
      snapshot is still listed when its turn comes, even when the list
      holds duplicates or an earlier rename took a later file's name. */
  lemma RefineNeverUnlisted(st: State, cfg: Settings)
    ensures Refine(st, cfg).outcome != Aborted(NotListed)
  {
    if st.files != [] {
      assert st.files[0..] == st.files;
      RefineFromKeepsListing(st.(undoStack := st.undoStack + [st.files]), st.files, 0, cfg);
    }
  }

  /** Two states that differ at most in their manual entries. */
  predicate SameButManual(a: State, b: State)
  {
    a.(manual := map[]) == b.(manual := map[])
  }

  lemma MoveIgnoresManual(a: State, b: State, f: Path, t: Path, name: string, cfg: Settings)
    requires SameButManual(a, b)
    ensures SameButManual(MoveEntry(a, f, t, name, cfg).st, MoveEntry(b, f, t, name, cfg).st)
    ensures MoveEntry(a, f, t, name, cfg).fault == MoveEntry(b, f, t, name, cfg).fault
  {
    assert a.files == b.files && a.disk == b.disk;
    if f != t && RenameOutcome(a.disk, f, t) == Renamed && f in a.files {
      var q := AfterRename(a.disk, f, t);
      var fs := a.files[IndexOf(a.files, f) := t];
      var ca := Carry(a.(disk := q).(files := fs), f, t, name);
      var cb := Carry(b.(disk := q).(files := fs), f, t, name);
      assert SameButManual(ca, cb);
      WipeIgnoresManual(ca, cb, t, cfg);
    } else if f == t || RenameOutcome(a.disk, f, t) == Refused {
      WipeIgnoresManual(a, b, f, cfg);
    }
  }

  lemma WipeIgnoresManual(a: State, b: State, p: Path, cfg: Settings)
    requires SameButManual(a, b)
    ensures SameButManual(Wipe(a, p, cfg).st, Wipe(b, p, cfg).st)
    ensures Wipe(a, p, cfg).fault == Wipe(b, p, cfg).fault
  {
    assert a.disk == b.disk && a.wiped == b.wiped;
  }

  lemma EntryIgnoresManual(a: State, b: State, f: Path, cfg: Settings)
    requires SameButManual(a, b)
    ensures SameButManual(RefineEntry(a, f, cfg).st, RefineEntry(b, f, cfg).st)
    ensures RefineEntry(a, f, cfg).fault == RefineEntry(b, f, cfg).fault
  {
    assert a.enabled == b.enabled && a.metadata == b.metadata && a.original == b.original;
    if Get(a.enabled, f, true) {
      var a1 := a.(original := a.original[f := Basename(f)]);
      var b1 := b.(original := b.original[f := Basename(f)]);
      assert BatchTarget(a, f, cfg) == BatchTarget(b, f, cfg);
      assert BatchName(a, f, cfg) == BatchName(b, f, cfg);
      MoveIgnoresManual(a1, b1, f, BatchTarget(a, f, cfg), BatchName(a, f, cfg), cfg);
    }
  }

  lemma {:induction false} RefineFromIgnoresManual(a: State, b: State, snap: seq<Path>, i: nat, cfg: Settings)
    requires i <= |snap| && SameButManual(a, b)
    ensures SameButManual(RefineFrom(a, snap, i, cfg).st, RefineFrom(b, snap, i, cfg).st)
    ensures RefineFrom(a, snap, i, cfg).fault == RefineFrom(b, snap, i, cfg).fault
    decreases |snap| - i
  {
    if i < |snap| {
      EntryIgnoresManual(a, b, snap[i], cfg);
      var sa := RefineEntry(a, snap[i], cfg);
      var sb := RefineEntry(b, snap[i], cfg);
      if sa.fault.None? {
        RefineFromIgnoresManual(sa.st, sb.st, snap, i + 1, cfg);
      }
    }
  }

  /** A batch does not consult the manual entries: whatever they hold, it
      renames the same files to the same names, with the same outcome. */
  lemma RefineIgnoresManual(st: State, m: map<Path, string>, cfg: Settings)
    ensures SameButManual(Refine(st, cfg).st, Refine(st.(manual := m), cfg).st)
    ensures Refine(st, cfg).outcome == Refine(st.(manual := m), cfg).outcome
  {
    if st.files != [] {
      var a := st.(undoStack := st.undoStack + [st.files]);
      var b := st.(manual := m).(undoStack := st.undoStack + [st.files]);
      RefineFromIgnoresManual(a, b, st.files, 0, cfg);
    }
  }

  /** `undo`: the last snapshot replaces the file list; nothing else, and in
      particular nothing on disk, changes. */
  function Undo(st: State): (r: (State, bool))
    ensures r.1 <==> st.undoStack != []
    ensures !r.1 ==> r.0 == st
    ensures r.1 ==> r.0 == st.(files := st.undoStack[|st.undoStack| - 1],
                               undoStack := st.undoStack[..|st.undoStack| - 1])
  {
    if st.undoStack == [] then (st, false)
    else (st.(files := st.undoStack[|st.undoStack| - 1],
              undoStack := st.undoStack[..|st.undoStack| - 1]), true)
  }

  /** Undo after a batch gives back the file list and the undo log from
      before the batch, whether the batch completed or was stopped. */
  lemma UndoAfterRefine(st: State, cfg: Settings)
    requires st.files != []
    ensures var u := Undo(Refine(st, cfg).st);
      u.1 && u.0.files == st.files && u.0.undoStack == st.undoStack
  {
    var r := Refine(st, cfg).st;
    assert r.undoStack[..|r.undoStack| - 1] == st.undoStack;
  }

  /** Undo does not move files back: the disk after a batch and an undo is
      the disk after the batch. */
  lemma UndoKeepsDisk(st: State, cfg: Settings)
    requires st.files != []
    ensures Undo(Refine(st, cfg).st).0.disk == Refine(st, cfg).st.disk
  {
  }

  // ---------------------------------------------------------------------
  // Manual rename

  /** `apply_changes` of the manual-edit popup for the file `f` the popup
      was opened on: the flags, tags and manual entry move before the file
      list is searched, so a file no longer listed raises after them. */
  function ManualRename(st: State, f: Path, newName: string): (r: Edited)
    ensures var t := Join(Dirname(f), newName);
      (r.outcome == Kept <==> PathExists(st.disk, f, t))
      && (r.outcome == Applied <==>
          RenameOutcome(st.disk, f, t) == Renamed && f in st.files)
    ensures r.outcome == Kept || r.outcome == EditFailed(RenameFailed) ==> r.st == st
    ensures |r.st.files| == |st.files| && r.st.undoStack == st.undoStack
  {
    var t := Join(Dirname(f), newName);
    match RenameOutcome(st.disk, f, t)
    case Refused => Edited(st, Kept)
    case Failed => Edited(st, EditFailed(RenameFailed))
    case Renamed =>
      var s := Carry(st.(disk := AfterRename(st.disk, f, t)), f, t, newName);
      if f in s.files then Edited(s.(files := s.files[IndexOf(s.files, f) := t]), Applied)
      else Edited(s, EditFailed(NotListed))
  }

  /** A manual rename puts the new path where `f` was listed and moves the
      file on disk; the entry keeps its flag and tags, and keeps an earlier
      manual entry, else records the new name; the old path loses its
      entries, and every other path, the originals, the undo log and the
      wipe log stay as they were. */
  lemma ManualRenameApplied(st: State, f: Path, newName: string)
    requires ManualRename(st, f, newName).outcome == Applied
    ensures var r := ManualRename(st, f, newName).st;
      var t := Join(Dirname(f), newName);
      && r.files == st.files[IndexOf(st.files, f) := t]
      && r.disk == st.disk - {f} + {t}
      && Get(r.enabled, t, true) == Get(st.enabled, f, true)
      && Get(r.metadata, t, map[]) == Get(st.metadata, f, map[])
      && t in r.manual && r.manual[t] == Get(st.manual, f, newName)
      && (f != t ==> f !in r.manual && f !in r.metadata && f !in r.enabled)
      && (forall p :: p != f && p != t ==>
            && Get(r.enabled, p, true) == Get(st.enabled, p, true)
            && Get(r.metadata, p, map[]) == Get(st.metadata, p, map[])
            && (p in r.manual <==> p in st.manual) && (p in st.manual ==> r.manual[p] == st.manual[p]))
      && r.original == st.original && r.undoStack == st.undoStack && r.wiped == st.wiped
  {
  }

  /** Renaming a file to its own name leaves everything as it is. */
  lemma ManualRenameSameName(st: State, f: Path)
    requires f in st.disk && Canonical(f)
    ensures ManualRename(st, f, Basename(f)) == Edited(st, Kept)
  {
  }

  /** The first manual rename of a file without a manual entry does not
      tag its row manual: the recorded name is the new basename. */
  lemma ManualRenameNotTagged(st: State, f: Path, newName: string)
    requires ManualRename(st, f, newName).outcome == Applied
    requires f !in st.manual && '/' !in newName
    ensures var r := ManualRename(st, f, newName).st;
      TagOf(Join(Dirname(f), newName), r.manual, r.enabled) != ManualRow
  {
    BasenameOfJoin(Dirname(f), newName);
  }

  // ---------------------------------------------------------------------
  // Clearing the session

  /** `clear_session`: when confirmed, every list and dictionary of the
      session is emptied; the disk and the wiped tags stay as they are. */
  function ClearSession(st: State, confirmed: bool): (r: State)
    ensures !confirmed ==> r == st
    ensures confirmed ==> r == Fresh(st.disk).(wiped := st.wiped)
  {
    if confirmed then Fresh(st.disk).(wiped := st.wiped) else st
  }

  /** After a confirmed clear there is nothing to refine and nothing to
      undo. */
  lemma ClearLeavesNothing(st: State, cfg: Settings)
    ensures var c := ClearSession(st, true);
      Refine(c, cfg) == Refined(c, NoFiles) && Undo(c) == (c, false)
  {
  }
}
