# Refinery Audio — a verified model of the renaming core

Refinery Audio is a desktop tool that cleans up the file names of `.mp3`
files. It has two parts, and this project models both:

- **Title normaliser and name composer** (`titles.dfy`, `naming.dfy`):
  - `strip_junk` deletes promotional phrases ("(Official Video)", "lyrics",
    "remastered", "HQ", …). It then collapses whitespace and trims ` -_–`
    from both ends.
  - `smart_title_parse` picks the part of a file name that holds the title.
  - The window composes the new name from the title and an artist. It also
    tags each row of the file list "manual", "enabled" or "disabled".
- **Session engine** (`engine.dfy`, `refinery.dfy`, `batch_facts.dfy`):
  - The session object keeps the ordered file list, the enabled flags, the
    manual names, the cached tags and an undo log of list copies.
  - Its handlers add files, flip flags, run the batch rename, undo, rename
    one file by hand and clear the session.

The disk is a set of existing paths (`filesystem.dfy`). `safe_rename`
becomes a rename that refuses an occupied target and fails when `os.rename`
would raise. POSIX path handling (`basename`, `dirname`, `join`) is in
`paths.dfy`. Helpers for `dict.get`, `dict.pop` re-keying and `list.index`
are in `common.dfy`.

How the model is built:

- Each handler of the session class `Refinery.RefineryAudio` updates its
  fields in place, as the Python object does.
- Each handler is proved to leave the object and the disk exactly in the
  state that a function of module `Engine` computes from the state before.
- The properties of the batch rename, undo and the manual rename are lemmas
  about those functions.
- Python exceptions are modelled as a `Fault`: `os.rename` raising, a
  `list.index` that finds nothing, or the tag wipe raising. A fault stops
  the operation and keeps the partial state, as the uncaught exception does.

The regular expressions are modelled on character sequences:

- `re.I` is ASCII case folding. Python folds case across Unicode for str
  patterns; the model folds ASCII letters only.
- `\b` uses ASCII word characters. Python counts every Unicode letter and
  digit as a word character, so in "éhq" Python keeps "hq" where the model
  deletes it.
- `.` matches anything but a newline.
- `\s` is the set of characters `str.isspace` accepts.
- A `re.sub` pass deletes leftmost non-overlapping matches in one scan. The
  model therefore never claims that the result is free of junk phrases: a
  deletion can join text into a new one.

## Behaviour as written

The model follows the code. Where the code differs from how the feature is
usually described, these are the points to know:

- The parser is given the whole basename, `.mp3` included. The new name is
  the composed title, with no extension added back. For
  "Artist - Song.mp3" the title is "Song.mp3" (`Naming.ExtensionStaysInTitle`).
  For "Artist - Cool Song (Official Audio).mp3" it is "Cool Song .mp3".
- The whole-name split happens only when the name contains an ASCII `-`.
  A name whose only separator is `–` is junk-stripped whole, `–` included
  (`Titles.SmartTitle`, `Titles.EnDashNotSplit`).
- A batch never consults the manual names (`Engine.RefineIgnoresManual`).
  They only decide the row tag.
- A rename stores the file's earlier manual entry under the new path.
  The supplied name is stored only when there was no earlier entry
  (`dict.pop(f, new_name)`). So the first manual rename of a file records
  its new basename, and the row is not tagged "manual"
  (`Engine.ManualRenameNotTagged`).
- `apply_changes` moves the flag, the tags and the manual entry before it
  looks the file up in the list. When the file is no longer listed, the
  lookup raises after the rename and the re-keying (`Engine.ManualRename`).
- `undo` restores the file list only. It does not move any file back on
  disk (`Engine.UndoKeepsDisk`). Listed paths may then be missing from disk.
  A later batch with the same settings gives such a path the file's present
  path as target; that target exists, so `safe_rename` refuses and nothing
  moves. With the wipe box ticked, the wipe of the missing path then raises
  and stops the batch. Where the target of a missing path is free, the batch
  stops with the exception `os.rename` raises.
- Errors are not recovered per file. The first exception in a batch ends
  the batch, and the files before it stay renamed (`Engine.RefineFrom`).
  On a consistent session of absolute paths with slash-free artists this
  never happens (`BatchFacts.RefineConsistent`).
- A file whose clean title is empty (in title-only mode, or without an
  artist) gets the target `os.path.join(dir, "")`: its own directory, spelt
  with a trailing slash. For an absolute path that directory exists, so
  `safe_rename` refuses and the file stays (`Paths.EmptyNameIsDirectory`,
  `Disk.RenameOutcome`). For a bare relative name the target is "", which
  does not exist, so `os.rename` raises.
- A clean title "." or ".." gives a target such as "/m/." or "/m/..",
  which names an existing directory, relative paths included; so
  `safe_rename` refuses and the file stays (`Disk.DotTargetRefused`). A
  manual rename to "." or ".." is refused the same way.

## Model

| member | source | states |
|---|---|---|
| Common.Get | refinery_audio_v1.1.py:295 | `dict.get(k, default)`: the stored value when the key is present, else the default |
| Common.IndexOf | refinery_audio_v1.1.py:310 | `list.index`: a position holding the element, with no earlier occurrence |
| Common.Rekey | refinery_audio_v1.1.py:311-313 | `d[new] = d.pop(old, default)`: the new key holds the old value or the default; the old key is gone; every other key is untouched |
| Paths.Basename | refinery_audio_v1.1.py:239 | `os.path.basename`: a slash-free suffix of the path |
| Paths.BasenameAfterSlash | refinery_audio_v1.1.py:239 | the basename is the whole path or begins right after a slash, so it is everything after the last slash |
| Paths.Dirname | refinery_audio_v1.1.py:306 | `os.path.dirname`: the part of the path before its last slash, with trailing slashes removed unless only slashes remain; empty exactly when the path holds no slash |
| Paths.Join | refinery_audio_v1.1.py:307 | `os.path.join`: an absolute second part replaces the first; otherwise the result ends with the second part |
| Paths.BasenameOfJoin | refinery_audio_v1.1.py:306-307 | joining a slash-free name gives back that name as basename |
| Paths.DirnameOfJoin | refinery_audio_v1.1.py:306-307 | joining a slash-free name onto a dirname keeps that directory, and the path is canonical |
| Paths.EmptyNameIsDirectory | refinery_audio_v1.1.py:306-307 | joining the empty name onto the directory of an absolute path gives a path with an empty basename that spells that directory with a trailing slash (`join("/m", "")` is "/m/") |
| Titles.OfficialFrom | refinery_audio_v1.1.py:45 | the lazy `.*?official` of the first pattern: an occurrence of "official" at or after the start |
| Titles.OfficialFromFirst | refinery_audio_v1.1.py:45 | the occurrence found is the first one, with no newline before it; none is found exactly when no occurrence lies before the first newline |
| Titles.CloseFrom | refinery_audio_v1.1.py:45 | the lazy `.*?\)`: a `)` at or after the start |
| Titles.CloseFromFirst | refinery_audio_v1.1.py:45 | the `)` found is the first one, with no newline before it; none is found exactly when no `)` lies before the first newline |
| Titles.ParenLenIsShortest | refinery_audio_v1.1.py:45 | `\(.*?official.*?\)` at a position: the length is positive exactly when some match starts there; it is then a match, and no match ends earlier |
| Titles.MatchLenCases | refinery_audio_v1.1.py:44-47 | a phrase pattern matches exactly where it stands as a whole word, ASCII case-insensitively, with its own length; `remaster(ed)?` takes "remastered" when that is a word, else "remaster"; the parenthesised pattern takes its lazy match |
| Titles.SubFromDeletes | refinery_audio_v1.1.py:48-49 | one `re.sub(p, "", text, flags=re.I)` pass only deletes: what it keeps is drawn from the text |
| Titles.SubFromNoMatch | refinery_audio_v1.1.py:48-49 | a pass that finds no match leaves the text as it is |
| Titles.SubFromShrinks | refinery_audio_v1.1.py:48-49 | a pass that finds a match anywhere deletes at least one character |
| Titles.RemoveJunk | refinery_audio_v1.1.py:48-49 | the pattern loop keeps only characters drawn from the text, and changes nothing on a text no pattern matches |
| Titles.RemoveJunkShrinks | refinery_audio_v1.1.py:48-49 | when any pattern matches anywhere in the text, the loop deletes at least one character |
| Titles.CollapseShape | refinery_audio_v1.1.py:50 | `re.sub(r"\s+", " ", …)`: no whitespace but single spaces; every other character comes from the input; with whitespace removed, result and input are equal; the first character is kept, or becomes a space where the input begins with whitespace |
| Titles.CollapseNormal | refinery_audio_v1.1.py:50 | collapsing a text whose spacing is already normal changes nothing |
| Titles.TrimStart | refinery_audio_v1.1.py:50 | the left half of `strip(" -_–")`: a suffix of the input; every character removed is a space, `-`, `_` or `–`; the result does not start with one; an input that does not start with one is returned as is |
| Titles.TrimEnd | refinery_audio_v1.1.py:50 | the right half of `strip(" -_–")`: a prefix of the input; every character removed is an edge character; the result does not end with one; an input that does not end with one is returned as is |
| Titles.Strip | refinery_audio_v1.1.py:50 | `strip(" -_–")`: a slice of the input with neither end a space, `-`, `_` or `–`, and only such edge characters outside it; a trimmed input is returned as is |
| Titles.StripAround | refinery_audio_v1.1.py:50 | stripping edge characters from both sides of a trimmed middle gives exactly the middle |
| Titles.StripJunk | refinery_audio_v1.1.py:43-50 | the result neither starts nor ends with space, `-`, `_` or `–`; its only whitespace is single spaces; its other characters come from the input; with whitespace removed, it is the result of the pattern loop with whitespace removed and then stripped; for a text no pattern matches, it is the text with whitespace removed, stripped |
| Titles.StripJunkFixedPoint | refinery_audio_v1.1.py:43-50 | a tidy text that no pattern matches comes back unchanged |
| Titles.LastDashEnd | refinery_audio_v1.1.py:59 | the end of the last `-`/`–`: no separator follows it |
| Titles.SkipSpaces | refinery_audio_v1.1.py:59 | the `\s*` after a separator: the run of whitespace is skipped, and no more |
| Titles.LastSegment | refinery_audio_v1.1.py:58-60 | `re.split(r"\s*[–\-]\s*", s)[-1]`: what follows the last `-` or `–` and the whitespace after it; it holds no separator and does not start with whitespace; the whole text when it has no separator |
| Titles.FirstClose | refinery_audio_v1.1.py:53 | `[^)]*\)`: the first `)` from a position, with no `)` before it |
| Titles.Group | refinery_audio_v1.1.py:54 | `match.group(1)`: the text from after the `(` up to the first `)` after it, or to the end; it holds no `)` |
| Titles.DashGroupAt | refinery_audio_v1.1.py:53 | `re.search(r"\(([^)]*[\-–][^)]*)\)", name)`: the leftmost `(` whose group is closed and holds a separator; `None` exactly when no `(` opens such a group |
| Titles.NoCloseNoGroup | refinery_audio_v1.1.py:53 | a name without `)` has no group to find |
| Titles.SmartTitle | refinery_audio_v1.1.py:52-61 | the result is tidy and draws its characters from the name; from a group it has no `-`, `–` or `)`; from the whole-name split it has no `-` or `–`; with no group and no ASCII `-` it is exactly `strip_junk(name)` |
| Titles.EnDashNotSplit | refinery_audio_v1.1.py:58-61 | a tidy, junk-free name whose only separator is `–` comes back whole |
| Naming.ArtistFor | refinery_audio_v1.1.py:241 | the artist is the override when not empty, else the cached "Contributing Artist", else "" |
| Naming.ComposeName | refinery_audio_v1.1.py:242 | the title always ends the name; the name is the bare title exactly in title-only mode or with no artist; otherwise it is "artist - title" |
| Naming.TitleOnlyIgnoresArtist | refinery_audio_v1.1.py:305 | title-only mode gives the clean title whatever the artist |
| Naming.NewName | refinery_audio_v1.1.py:239-242 | the preview name ends with the clean title of the basename, is that title alone exactly in title-only mode or without an artist, and holds no slash when neither the basename nor the artist does |
| Naming.TargetPath | refinery_audio_v1.1.py:305-307 | with a slash-free artist the batch target lies in the file's directory, its basename is the preview name, and the path is canonical |
| Naming.LastDashEndAfter | refinery_audio_v1.1.py:59 | the last separator of "x-" + y is the one ending x when y has none |
| Naming.LastSegmentOfComposed | refinery_audio_v1.1.py:59-60 | the last part of "artist - title" is the title |
| Naming.ComposedTitleRecovered | refinery_audio_v1.1.py:52-61 | parsing a composed name gives back its title, for a tidy, junk-free title without separators or `)` |
| Naming.GroupTitleRecovered | refinery_audio_v1.1.py:52-56 | a name "pre(x - y)post" with no `(` in pre and no `)` in x or y parses to y, whatever follows the group, when y is tidy, junk-free and without separators |
| Naming.ArtistTitleRecovered | refinery_audio_v1.1.py:58-60 | parsing "artist - title" gives back the title under the same conditions |
| Naming.RetargetIsNoOp | refinery_audio_v1.1.py:303-308 | a second batch with the same settings gives a renamed file its current path, so it stays put |
| Naming.SongIsClean | refinery_audio_v1.1.py:43-50 | "Song.mp3" is tidy and no pattern matches in it |
| Naming.ExtensionStaysInTitle | refinery_audio_v1.1.py:304-307 | the title of "Artist - Song.mp3" is "Song.mp3"; the new name keeps the extension only through the title |
| Naming.TagOf | refinery_audio_v1.1.py:243 | "manual" exactly when a manual entry differs from the basename; otherwise "disabled" exactly when the flag reads false |
| Naming.ToggleFlipsTag | refinery_audio_v1.1.py:335 | a click swaps an enabled row and a disabled one and leaves a manual row manual |
| Naming.RenamedRowNotManual | refinery_audio_v1.1.py:243 | a row whose manual entry is its own basename is not tagged manual |
| Disk.RenameOutcome | refinery_audio_v1.1.py:63-67 | `safe_rename` refuses exactly when the target exists: the path itself, a directory spelt with a trailing slash, such as "/m/" for the directory of "/m/x.mp3", or a basename "." or ".." inside an existing directory; it renames exactly when the target is free, the source exists, the target names a file and its directory exists |
| Disk.DotTargetRefused | refinery_audio_v1.1.py:63-65 | a target whose basename is "." or "..", in the directory of the existing source, exists, so `safe_rename` refuses it and the disk is unchanged |
| Disk.AfterRename | refinery_audio_v1.1.py:63-67 | after a rename the source is gone, the target exists and nothing else changes; a refused or failed rename changes nothing |
| Disk.RenameBack | refinery_audio_v1.1.py:63-67 | a rename within one directory of a path that names a file (basename neither empty nor "." or "..") is undone by the rename back |
| Disk.RenameOntoItself | refinery_audio_v1.1.py:63-67 | a path is never renamed onto itself |
| Disk.FileSystem.SafeRename | refinery_audio_v1.1.py:63-67 | returns the outcome and leaves the disk as `RenameOutcome`/`AfterRename` say |
| Disk.FileSystem.WipeTags | refinery_audio_v1.1.py:84-90 | the wipe succeeds exactly on an existing file, is logged, and changes no path |
| Engine.AddOne | refinery_audio_v1.1.py:265-267 | a chosen file is appended unless listed; the list keeps its order and stays duplicate-free; a new file without a flag is enabled; existing flags stay |
| Engine.AddFiles | refinery_audio_v1.1.py:262-267 | listed files stay first and in order; afterwards exactly the old and the chosen files are listed; a list without duplicates stays without; existing flags stay; a new file gets a true flag unless already flagged; nothing else changes |
| Engine.AddFilesAppends | refinery_audio_v1.1.py:262-267 | the appended files are the chosen files that were not listed, each once, in the order they were first chosen |
| Engine.FoundInExact | refinery_audio_v1.1.py:252-257 | in one directory: the new paths are not already listed; every unlisted `.mp3` name is added; every added name ends in `.mp3` |
| Engine.Mp3Join | refinery_audio_v1.1.py:254-255 | a joined path ends with its `.mp3` name |
| Engine.FoundExact | refinery_audio_v1.1.py:252-257 | over the whole walk: added paths are unlisted `.mp3` files, and every unlisted `.mp3` file of the walk is added |
| Engine.EnableAll | refinery_audio_v1.1.py:258 | `setdefault(f, True)`: the new files get a flag, true unless already set; other flags stay |
| Engine.AddFolder | refinery_audio_v1.1.py:247-258 | a cancelled dialog changes nothing; otherwise the listed files stay first, followed only by unlisted `.mp3` files of the walk, and every `.mp3` file of the walk ends up listed; `setdefault(f, True)`: every flag reads as before with default true, and only the new files gain a key; nothing else changes |
| Engine.AddFolderOrder | refinery_audio_v1.1.py:251-257 | when the walk reports no path twice, the added files follow the order of the walk |
| Engine.SetAll | refinery_audio_v1.1.py:282-290 | every listed file gets the chosen flag, other flags stay, nothing else changes |
| Engine.SetAllTags | refinery_audio_v1.1.py:282-290 | after select-all no row is disabled; after deselect-all every row is manual or disabled |
| Engine.Toggle | refinery_audio_v1.1.py:333-337 | the clicked file's flag, read with default true, is negated; every other flag reads as before |
| Engine.ToggleTwice | refinery_audio_v1.1.py:333-337 | two clicks on a row restore every flag |
| Engine.Wipe | refinery_audio_v1.1.py:315-316 | with the box ticked the tags of an existing file are wiped and a missing file raises; otherwise nothing happens |
| Engine.Carry | refinery_audio_v1.1.py:311-313 | `d[t] = d.pop(f, default)` for manual names (default the new name), tags (`{}`) and flags (`True`): `t` gets what `f` had, `f` loses its entries when it differs from `t`, every other path keeps its own |
| Engine.BatchName | refinery_audio_v1.1.py:303-305 | title-only mode gives the clean title; otherwise "artist - title" with the window's artist, else with the file's "Contributing Artist" tag, else the title alone |
| Engine.BatchTarget | refinery_audio_v1.1.py:306-307 | with a slash-free artist the target lies in the file's directory, has the batch name as basename, and is canonical |
| Engine.MoveEntry | refinery_audio_v1.1.py:306-316 | the list either stays or gets the target at the entry's first position; lengths, the undo log and the original names stay; each fault happens exactly in its case; without a fault and with the box ticked, the wipe log gains the target when the file moved, else the file's own path |
| Engine.RefineEntry | refinery_audio_v1.1.py:299-316 | a disabled entry changes nothing; an enabled one records its basename as original and either stays or is replaced in place by its batch target |
| Engine.RefineFrom | refinery_audio_v1.1.py:299-316 | the loop keeps the list length, the number of paths on disk and the undo log; the wipe log only grows |
| Engine.Refine | refinery_audio_v1.1.py:293-318 | "no files" exactly when the list is empty, and then nothing changes; otherwise exactly one copy of the list is pushed on the undo log; the list length is kept |
| Engine.MultisetUpdate | refinery_audio_v1.1.py:310 | replacing one entry swaps it in the multiset of the list |
| Engine.EntryKeepsListing | refinery_audio_v1.1.py:299-314 | while the rest of the snapshot is still listed, the current entry's lookup succeeds and the rest stays listed |
| Engine.RefineFromKeepsListing | refinery_audio_v1.1.py:299-314 | the rest of the loop never fails its list lookup |
| Engine.RefineNeverUnlisted | refinery_audio_v1.1.py:310 | `self.files.index(f)` in a batch never raises, even with duplicates |
| Engine.MoveIgnoresManual | refinery_audio_v1.1.py:306-316 | the rename step does the same whatever the manual entries |
| Engine.WipeIgnoresManual | refinery_audio_v1.1.py:315-316 | the tag wipe does the same whatever the manual entries |
| Engine.EntryIgnoresManual | refinery_audio_v1.1.py:299-316 | one loop pass does the same whatever the manual entries |
| Engine.RefineFromIgnoresManual | refinery_audio_v1.1.py:299-316 | the rest of the loop does the same whatever the manual entries |
| Engine.RefineIgnoresManual | refinery_audio_v1.1.py:293-318 | a batch renames the same files to the same names with the same outcome, whatever the manual entries |
| Engine.Undo | refinery_audio_v1.1.py:321-325 | on an empty log nothing changes; otherwise the list becomes the top copy and the log shrinks by one, with nothing else changed |
| Engine.UndoAfterRefine | refinery_audio_v1.1.py:321-325 | undo after a batch restores the exact list and undo log from before the batch, even after a stopped batch |
| Engine.UndoKeepsDisk | refinery_audio_v1.1.py:321-325 | undo moves no file back on disk |
| Engine.ManualRename | refinery_audio_v1.1.py:347-357 | kept exactly when the target exists; applied exactly when the rename succeeds and the file is listed; a kept or failed rename changes nothing; the list length and undo log stay |
| Engine.ManualRenameApplied | refinery_audio_v1.1.py:347-357 | an applied rename puts the new path at the file's position and moves the file on disk; the new path gets the flag and tags and keeps an earlier manual entry, else records the new name; the old path loses its entries; every other path, the originals, the undo log and the wipe log stay |
| Engine.ManualRenameSameName | refinery_audio_v1.1.py:347-350 | applying the unchanged name is refused and changes nothing |
| Engine.ManualRenameNotTagged | refinery_audio_v1.1.py:352 | the first manual rename of a file does not tag its row manual |
| Engine.ClearSession | refinery_audio_v1.1.py:271-278 | when confirmed every list and dictionary is empty and the disk stays; otherwise nothing changes |
| Engine.ClearLeavesNothing | refinery_audio_v1.1.py:271-278 | after a confirmed clear there is nothing to batch and nothing to undo |
| BatchFacts.ListedOnDisk | refinery_audio_v1.1.py:299-314 | during a batch on a consistent session, every listed path is on disk |
| BatchFacts.SameArtist | refinery_audio_v1.1.py:303 | a file with the same cached tags gets the same artist |
| BatchFacts.StepStays | refinery_audio_v1.1.py:299-316 | an entry that is not moved keeps the batch invariant |
| BatchFacts.StepMoves | refinery_audio_v1.1.py:308-316 | an entry moved to its free target keeps the batch invariant |
| BatchFacts.MoveKeeps | refinery_audio_v1.1.py:306-316 | the rename step on an entry at its target, or with the target taken, keeps the list, disk, flags, tags and manual names; with the box ticked the wipe log gains the file's own path |
| BatchFacts.MoveRenames | refinery_audio_v1.1.py:308-316 | the rename step on a free target replaces the entry, moves the file and re-keys the maps; with the box ticked the wipe log gains the new path |
| BatchFacts.EntryStep | refinery_audio_v1.1.py:299-316 | one loop pass keeps the batch invariant and raises nothing |
| BatchFacts.SameTarget | refinery_audio_v1.1.py:303-307 | an entry's target depends only on its path and cached tags |
| BatchFacts.Run | refinery_audio_v1.1.py:299-316 | the rest of the loop completes and keeps the batch invariant |
| BatchFacts.InvStart | refinery_audio_v1.1.py:297-299 | the batch invariant holds before the loop |
| BatchFacts.InvEnd | refinery_audio_v1.1.py:299-316 | at the end of the loop the session is consistent, and the disk holds the unlisted paths it held before plus the listed ones |
| BatchFacts.RefineConsistent | refinery_audio_v1.1.py:293-318 | a batch over a consistent session of absolute paths with slash-free artists completes and stays consistent. Each entry keeps its position: it moves to its target exactly when it is enabled, not already there, the target names a file (its basename is neither empty nor "." or "..") and the target is free at its turn. The disk loses the old paths and gains the new ones. Flags and tags follow their files, a moved file's manual entry defaults to its new name, and with the box ticked the wipe log gains the final path of every enabled file, in list order |
| BatchFacts.FinalManual | refinery_audio_v1.1.py:311 | the manual entries at the end of the batch, stated on the session before it |
| BatchFacts.FinalPlaces | refinery_audio_v1.1.py:306-314 | the final places of the entries, stated on the session before the batch |
| BatchFacts.MovedRowNotManual | refinery_audio_v1.1.py:311 | a file moved by a batch, without a manual entry before, is not tagged manual afterwards |
| Refinery.RefineryAudio.constructor | refinery_audio_v1.1.py:100-105 | a new session lists nothing and has empty dictionaries and undo log |
| Refinery.RefineryAudio.AddFiles | refinery_audio_v1.1.py:262-267 | the object ends in the state `Engine.AddFiles` describes |
| Refinery.RefineryAudio.NewFilesOf | refinery_audio_v1.1.py:251-256 | the walk's loops collect exactly `Engine.Found` |
| Refinery.RefineryAudio.NewFilesIn | refinery_audio_v1.1.py:252-256 | the loop over one directory's names collects exactly `Engine.FoundIn` |
| Refinery.RefineryAudio.AddFolder | refinery_audio_v1.1.py:247-258 | the object ends in the state `Engine.AddFolder` describes |
| Refinery.RefineryAudio.ClearSession | refinery_audio_v1.1.py:271-278 | the object ends in the state `Engine.ClearSession` describes |
| Refinery.RefineryAudio.SetAllEnabled | refinery_audio_v1.1.py:282-290 | the loop over the list leaves the flags as `Engine.SetAll` says |
| Refinery.RefineryAudio.SelectAll | refinery_audio_v1.1.py:282-285 | every listed file is enabled, as `Engine.SetAll` says |
| Refinery.RefineryAudio.DeselectAll | refinery_audio_v1.1.py:287-290 | every listed file is disabled, as `Engine.SetAll` says |
| Refinery.RefineryAudio.ToggleRow | refinery_audio_v1.1.py:331-337 | the clicked row's flag is negated, as `Engine.Toggle` says |
| Refinery.RefineryAudio.CarryEntry | refinery_audio_v1.1.py:311-313 | the three re-keyings leave the object as `Engine.Carry` says |
| Refinery.RefineryAudio.MoveTo | refinery_audio_v1.1.py:306-316 | the rename and wipe of one pass leave object and disk as `Engine.MoveEntry` says |
| Refinery.RefineryAudio.RefineStep | refinery_audio_v1.1.py:299-316 | one pass of the loop leaves object and disk as `Engine.RefineEntry` says |
| Refinery.RefineryAudio.Refine | refinery_audio_v1.1.py:293-318 | the batch leaves object and disk as `Engine.Refine` says, with the same outcome |
| Refinery.RefineryAudio.Undo | refinery_audio_v1.1.py:321-325 | undo leaves the object as `Engine.Undo` says |
| Refinery.RefineryAudio.ApplyChanges | refinery_audio_v1.1.py:347-357 | the manual rename leaves object and disk as `Engine.ManualRename` says |

## Left out

- The tkinter interface: window layout, pulse animation, toolbar, colours, `change_enabled_color`, popups, message boxes and status texts. These are presentation only; a warning or info box is the `NoFiles` outcome or a `false` result.
- `refresh_tree` as a whole: only its name composition and row tag are modelled (`Naming.NewName`, `Naming.TagOf`). Redrawing the tree is presentation.
- `resource_path` and the web link: these are environment and browser calls.
- `write_id3_tags` and `edit_metadata`: tag writing goes through the mutagen library. The cached tags are an input map.
- `nuke_id3_tags` only logs the wiped path, and fails exactly when the file is missing. Other tag-library errors, and what the wipe does to the file's bytes, are not modelled.
- `export_report` has no behaviour.
- The file and folder dialogs and `os.walk` are inputs. The chosen files, the chosen folder (empty when cancelled) and the directory listing are parameters, and so is the answer to the clear-session confirmation.
- The regex engine is replaced by the character-level model above. Unicode case folding and Unicode word characters for `\b`, which Python applies to str patterns, are not modelled (ASCII only), and neither is a pattern that re-forms after a deletion.
- Paths follow POSIX `posixpath`. Windows paths, symbolic links, case-insensitive file systems and two spellings of one file are not modelled, except a directory spelt with a trailing slash or with a last part "." or "..", which `Disk.PathExists` recognises.
- `Disk.RenameOutcome` does not model `os.rename` errors other than a missing source or target directory (permissions, cross-device moves). A target that exists is always refused, because `os.path.exists` is checked first.
- Races between the existence check and the rename, and other programs changing the disk, are not modelled.
- The manual-edit popup opened on a row: the row index lookup and the entry field are inputs. The file the popup was opened on may no longer be listed when Apply is pressed, and that case is modelled (`Engine.ManualRename`).
- `BatchFacts.RefineConsistent` requires that every listed path is absolute, as the file dialogs give them, and that no artist holds a slash. With a slash, the target lies in another directory, which the model handles (`Disk.ParentExists`), but the theorem does not cover it.
- Basename: its contract states a slash-free suffix; that the suffix begins right after the last slash is stated separately by `Paths.BasenameAfterSlash`.
- SubFromDeletes: the kept characters are stated as drawn from the text as a multiset; that they keep their order is not stated.
- Collapse: `Titles.CollapseShape` states what survives collapsing, but not that each run of whitespace becomes one space at its own place.
- `Disk.ParentExists` counts any path on disk as a directory, a listed file included: the disk model does not tell files and directories apart.
