/** The name composer: which artist a file's new name uses, how the artist
    and the clean title are put together, where the renamed file goes, and
    the tag that colours a file's row. The same composition serves the
    preview column and the batch rename. */
module Naming {
  import opened Common
  import opened Paths
  import opened Titles

  /** The tag fields cached for one file. */
  type Tags = map<string, string>

  const ContributingArtist: string := "Contributing Artist"

  /** The artist of a file's new name: the artist field of the window when it
      is not empty, else the file's cached "Contributing Artist", else "". */
  function ArtistFor(override: string, metadata: map<Path, Tags>, f: Path): (a: string)
    ensures override != "" ==> a == override
    ensures override == "" && f in metadata && ContributingArtist in metadata[f] ==>
      a == metadata[f][ContributingArtist]
    ensures override == "" && !(f in metadata && ContributingArtist in metadata[f]) ==> a == ""
  {
    if override != "" then override else Get(Get(metadata, f, map[]), ContributingArtist, "")
  }

  /** Title-only mode, or artist mode with no artist, gives the title alone;
      artist mode with an artist gives "artist - title". */
  function ComposeName(title: string, artist: string, titleOnly: bool): (name: string)
    ensures |title| <= |name| && name[|name| - |title|..] == title
    ensures name == title <==> titleOnly || artist == ""
    ensures !titleOnly && artist != "" ==> name == artist + " - " + title
  {
    if titleOnly then title
    else if artist != "" then artist + " - " + title
    else title
  }

  /** The name shown in the preview column and given to the file by a batch
      rename: the clean title of the current basename (extension included),
      composed with the artist. It ends with the clean title, is the title
      alone exactly in title-only mode or without an artist, and holds no
      slash when neither the basename nor the artist does. */
  function NewName(basename: string, artist: string, titleOnly: bool): (name: string)
    ensures var t := SmartTitle(basename); |t| <= |name| && name[|name| - |t|..] == t
    ensures name == SmartTitle(basename) <==> titleOnly || artist == ""
    ensures '/' !in basename && '/' !in artist ==> '/' !in name
  {
    var t := SmartTitle(basename);
    assert '/' !in basename && '/' !in artist ==> '/' !in ComposeName(t, artist, titleOnly) by {
      if '/' !in basename && '/' !in artist {
        Avoids(t, basename, '/');
        ComposeAvoidsSlash(t, artist, titleOnly);
      }
    }
    ComposeName(t, artist, titleOnly)
  }

  /** `NewName` is the composition of the clean title with the artist. */
  lemma NewNameComposes(basename: string, artist: string, titleOnly: bool)
    ensures NewName(basename, artist, titleOnly) == ComposeName(SmartTitle(basename), artist, titleOnly)
  {
  }

  lemma ComposeAvoidsSlash(t: string, artist: string, titleOnly: bool)
    requires '/' !in t && '/' !in artist
    ensures '/' !in ComposeName(t, artist, titleOnly)
  {
    assert forall c :: c in artist + " - " + t ==> c in artist || c in " - " || c in t;
  }

  /** `os.path.join(os.path.dirname(f), new_name)`: where a batch rename
      moves `f`. With a slash-free artist the file stays in its directory,
      its new basename is the name the preview column shows, and the path is
      canonical, so splitting and joining it again gives it back. */
  function TargetPath(f: Path, artist: string, titleOnly: bool): (p: Path)
    ensures '/' !in artist ==> Basename(p) == NewName(Basename(f), artist, titleOnly)
    ensures '/' !in artist ==> Dirname(p) == Dirname(f) && Canonical(p)
  {
    var n := NewName(Basename(f), artist, titleOnly);
    if '/' in artist then Join(Dirname(f), n)
    else
      BasenameOfJoin(Dirname(f), n);
      DirnameOfJoin(Dirname(f), n);
      Join(Dirname(f), n)
  }

  /** Title-only mode discards the artist, whatever it is. */
  lemma TitleOnlyIgnoresArtist(title: string, a1: string, a2: string)
    ensures ComposeName(title, a1, true) == ComposeName(title, a2, true) == title
  {
  }

  /** The end of the last separator in `x + y` is the end of `x` when `x`
      ends in a separator and `y` holds none. */
  lemma {:induction false} LastDashEndAfter(x: string, y: string)
    requires x != [] && IsDash(x[|x| - 1]) && !HasDash(y)
    ensures LastDashEnd(x + y) == |x|
    decreases |y|
  {
    if y == [] {
      assert x + y == x;
    } else {
      var m := y[..|y| - 1];
      assert (x + y)[..|x + y| - 1] == x + m;
      assert y[|y| - 1] in y;
      assert !HasDash(m) by {
        assert forall c :: c in m ==> c in y;
      }
      LastDashEndAfter(x, m);
    }
  }

  /** The part after the separator of "artist - title" is the title, when
      the title is tidy and holds no separator. */
  lemma LastSegmentOfComposed(title: string, artist: string)
    requires Tidy(title) && !HasDash(title)
    ensures LastSegment(artist + " - " + title) == title
  {
    var name := artist + " - " + title;
    var x := artist + " -";
    var y := " " + title;
    assert name == x + y;
    assert !HasDash(y) by {
      assert forall c :: c in y ==> c == ' ' || c in title;
    }
    LastDashEndAfter(x, y);
    assert name[|x|] == ' ';
    if title != [] {
      assert name[|x| + 1] == title[0];
      assert !IsSpace(title[0]);
    }
    assert SkipSpaces(name, |x|) == |x| + 1;
    assert name[|x| + 1..] == title;
  }

  /** Parsing a composed name gives back its title, when the title is tidy,
      free of junk phrases and separators, and neither part holds a `)`. */
  lemma ComposedTitleRecovered(title: string, artist: string, titleOnly: bool)
    requires Tidy(title) && JunkFree(title) && !HasDash(title) && ')' !in title
    requires ')' !in artist
    ensures SmartTitle(ComposeName(title, artist, titleOnly)) == title
  {
    StripJunkFixedPoint(title);
    if titleOnly || artist == "" {
      NoCloseNoGroup(title, 0);
    } else {
      ArtistTitleRecovered(title, artist);
    }
  }

  lemma ArtistTitleRecovered(title: string, artist: string)
    requires Tidy(title) && JunkFree(title) && !HasDash(title) && ')' !in title
    requires ')' !in artist
    ensures SmartTitle(artist + " - " + title) == title
  {
    var name := artist + " - " + title;
    assert ')' !in name by {
      assert forall c :: c in name ==> c in artist || c in title || c in " - ";
    }
    NoCloseNoGroup(name, 0);
    assert name[|artist| + 1] == '-';
    SmartTitleBySplit(name);
    LastSegmentOfComposed(title, artist);
    StripJunkFixedPoint(title);
  }

  /** A name of the form "pre(x - y)post" is parsed by its group: when `pre`
      opens no group and neither `x` nor `y` closes one, and `y` is tidy,
      free of junk phrases and separators, the title is exactly `y`,
      whatever follows the group. */
  lemma GroupTitleRecovered(pre: string, x: string, y: string, post: string)
    requires '(' !in pre && ')' !in x && ')' !in y
    requires Tidy(y) && JunkFree(y) && !HasDash(y)
    ensures SmartTitle(pre + "(" + x + " - " + y + ")" + post) == y
  {
    var inner := x + " - " + y;
    var name := pre + "(" + x + " - " + y + ")" + post;
    assert name == pre + "(" + inner + ")" + post;
    assert ')' !in inner by {
      assert forall c :: c in inner ==> c in x || c in " - " || c in y;
    }
    GroupInName(pre, inner, post);
    assert inner[|x| + 1] == '-';
    DashGroupFirst(name, |pre|);
    LastSegmentOfComposed(y, x);
    StripJunkFixedPoint(y);
  }

  /** A parenthesised group placed after text without `(` is the group that
      opens there. */
  lemma GroupInName(pre: string, inner: string, post: string)
    requires '(' !in pre && ')' !in inner
    ensures var name := pre + "(" + inner + ")" + post;
      && |pre| < |name| && name[|pre|] == '('
      && FirstClose(name, |pre| + 1) == |pre| + 1 + |inner| < |name|
      && Group(name, |pre|) == inner
      && forall m :: 0 <= m < |pre| ==> name[m] != '('
  {
    var name := pre + "(" + inner + ")" + post;
    var k := |pre|;
    assert name[k] == '(';
    assert name[k + 1 + |inner|] == ')';
    assert forall m :: k + 1 <= m < k + 1 + |inner| ==> name[m] == inner[m - k - 1];
    assert forall m :: 0 <= m < k ==> name[m] == pre[m];
  }

  /** A second batch with the same settings leaves a renamed file where it
      is, as long as its clean title is free of junk phrases, separators and
      `)`, and the artist holds no `)` or `/`. */
  lemma RetargetIsNoOp(f: Path, artist: string, titleOnly: bool)
    requires JunkFree(SmartTitle(Basename(f)))
    requires !HasDash(SmartTitle(Basename(f))) && ')' !in SmartTitle(Basename(f))
    requires ')' !in artist && '/' !in artist
    ensures TargetPath(TargetPath(f, artist, titleOnly), artist, titleOnly) == TargetPath(f, artist, titleOnly)
  {
    var t := SmartTitle(Basename(f));
    var n := NewName(Basename(f), artist, titleOnly);
    var p := TargetPath(f, artist, titleOnly);
    assert n == ComposeName(t, artist, titleOnly);
    assert Basename(p) == n && Dirname(p) == Dirname(f);
    ComposedTitleRecovered(t, artist, titleOnly);
    assert NewName(n, artist, titleOnly) == n;
  }

  /** "Song.mp3" is tidy and no promotional pattern matches in it. */
  lemma SongIsClean()
    ensures JunkFree("Song.mp3") && Tidy("Song.mp3")
  {
    var s := "Song.mp3";
    forall p, j | p in JunkPatterns && 0 <= j < |s|
      ensures MatchLen(p, s, j) == 0
    {
      if j == 1 {
        assert IsWordChar(s[0]);
      } else {
        assert Lower(s[j]) !in "olrh";
      }
      match p
      case ParenOfficial =>
      case Phrase(w) =>
        assert w[0] in "olh";
        if j != 1 { assert Lower(s[j]) != w[0]; }
      case Remaster =>
        assert Lower(s[j]) != "remaster"[0] && Lower(s[j]) != "remastered"[0];
    }
  }

  /** The extension is part of what the parser sees and keeps: the title of
      "Artist - Song.mp3" is "Song.mp3", and the new name carries the
      extension only because the title does. */
  lemma ExtensionStaysInTitle()
    ensures SmartTitle("Artist - Song.mp3") == "Song.mp3"
    ensures NewName("Artist - Song.mp3", "Artist", false) == "Artist - Song.mp3"
    ensures NewName("Artist - Song.mp3", "", false) == "Song.mp3"
  {
    SongIsClean();
    assert "Artist - Song.mp3" == "Artist" + " - " + "Song.mp3";
    ComposedTitleRecovered("Song.mp3", "Artist", false);
  }

  /** The colour tag of a file's row: "manual" when its manual entry differs
      from its basename, else "enabled" or "disabled". */
  datatype RowTag = ManualRow | EnabledRow | DisabledRow

  function TagOf(f: Path, manual: map<Path, string>, enabled: map<Path, bool>): (t: RowTag)
    ensures t == ManualRow <==> f in manual && manual[f] != Basename(f)
    ensures t == DisabledRow <==> t != ManualRow && !Get(enabled, f, true)
  {
    if f in manual && manual[f] != Basename(f) then ManualRow
    else if Get(enabled, f, true) then EnabledRow
    else DisabledRow
  }

  /** The enabled-column toggle `enabled[f] = not enabled.get(f, True)`
      swaps an enabled row and a disabled one and leaves a manual row manual. */
  lemma ToggleFlipsTag(f: Path, manual: map<Path, string>, enabled: map<Path, bool>)
    ensures var t := TagOf(f, manual, enabled[f := !Get(enabled, f, true)]);
      match TagOf(f, manual, enabled)
      case ManualRow => t == ManualRow
      case EnabledRow => t == DisabledRow
      case DisabledRow => t == EnabledRow
  {
  }

  /** A path that a rename gave its own new name as manual entry is not
      tagged manual. */
  lemma RenamedRowNotManual(f: Path, manual: map<Path, string>, enabled: map<Path, bool>)
    requires f in manual && manual[f] == Basename(f)
    ensures TagOf(f, manual, enabled) != ManualRow
  {
  }
}
