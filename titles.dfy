/** The title normaliser: `strip_junk` deletes promotional phrases and tidies
    the spacing, `smart_title_parse` picks the part of a file name that holds
    the title.

    Python's `re` is modelled on character sequences: a substitution pass
    scans left to right, deletes each leftmost non-overlapping match and tests
    word boundaries against the text of that pass; `.` matches anything but a
    newline; `re.I` is ASCII case folding and `\b` uses ASCII word
    characters; `\s` is the set of characters Python's `str.isspace` accepts. */
module Titles {
  import opened Common

  /** `\s` in a `str` pattern. */
  predicate IsSpace(c: char)
  {
    || c == ' ' || '\t' <= c <= '\r' || '\U{1c}' <= c <= '\U{1f}'
    || c == '\U{85}' || c == '\U{a0}' || c == '\U{1680}'
    || '\U{2000}' <= c <= '\U{200a}' || c == '\U{2028}' || c == '\U{2029}'
    || c == '\U{202f}' || c == '\U{205f}' || c == '\U{3000}'
  }

  const EnDash: char := '\U{2013}'

  /** The two separators the title splitter knows, `[\-–]`. */
  predicate IsDash(c: char)
  {
    c == '-' || c == EnDash
  }

  predicate HasDash(s: string)
  {
    '-' in s || EnDash in s
  }

  /** The characters `strip(" -_–")` removes from both ends. */
  predicate IsEdge(c: char)
  {
    c == ' ' || c == '-' || c == '_' || c == EnDash
  }

  predicate IsWordChar(c: char)
  {
    'a' <= c <= 'z' || 'A' <= c <= 'Z' || '0' <= c <= '9' || c == '_'
  }

  function Lower(c: char): char
  {
    if 'A' <= c <= 'Z' then (c as int + 32) as char else c
  }

  /** The lower-case literal `w` occurs at `i`, ignoring case. */
  predicate LiteralAt(s: string, i: nat, w: string)
  {
    i + |w| <= |s| && forall k :: 0 <= k < |w| ==> Lower(s[i + k]) == w[k]
  }

  /** `\bw\b` matches at `i` (every phrase begins and ends with a word
      character, so each boundary is a non-word neighbour or an end). */
  predicate WordAt(s: string, i: nat, w: string)
  {
    && LiteralAt(s, i, w)
    && (i == 0 || !IsWordChar(s[i - 1]))
    && (i + |w| == |s| || !IsWordChar(s[i + |w|]))
  }

  /** The promotional patterns of `strip_junk`:
      `\(.*?official.*?\)`, a `\b`-delimited phrase, and `\bremaster(ed)?\b`. */
  datatype Pattern = ParenOfficial | Phrase(words: string) | Remaster

  const JunkPatterns: seq<Pattern> := [
    ParenOfficial, Phrase("official audio"), Phrase("official video"),
    Phrase("lyrics"), Remaster, Phrase("hq"), Phrase("high quality")
  ]

  /** No newline in `s[j..k]`: the stretch a `.` may cross. */
  predicate NoNewline(s: string, j: nat, k: nat)
  {
    forall m :: j <= m < k && m < |s| ==> s[m] != '\n'
  }

  /** The lazy `.*?official`: the first occurrence of "official" from `j`
      on, not searched past a newline. */
  function OfficialFrom(s: string, j: nat): (r: Option<nat>)
    requires j <= |s|
    ensures r.Some? ==> j <= r.value && LiteralAt(s, r.value, "official")
    decreases |s| - j
  {
    if j == |s| then None
    else if LiteralAt(s, j, "official") then Some(j)
    else if s[j] == '\n' then None
    else OfficialFrom(s, j + 1)
  }

  /** `OfficialFrom` finds the first "official" reachable from `j` without
      crossing a newline, and finds none only when there is none. */
  lemma {:induction false} OfficialFromFirst(s: string, j: nat)
    requires j <= |s|
    ensures var r := OfficialFrom(s, j);
      && (r.Some? ==> NoNewline(s, j, r.value) && forall k :: j <= k < r.value ==> !LiteralAt(s, k, "official"))
      && (r.None? ==> forall k :: j <= k < |s| && NoNewline(s, j, k) ==> !LiteralAt(s, k, "official"))
    decreases |s| - j
  {
    if j < |s| && !LiteralAt(s, j, "official") {
      if s[j] == '\n' {
        assert forall k :: j < k <= |s| ==> !NoNewline(s, j, k);
      } else {
        assert OfficialFrom(s, j) == OfficialFrom(s, j + 1);
        OfficialFromFirst(s, j + 1);
        NewlineFreeStep(s, j);
      }
    }
  }

  /** A stretch from `j` is free of newlines exactly when `s[j]` is not a
      newline and the stretch from `j + 1` is free of them. */
  lemma NewlineFreeStep(s: string, j: nat)
    requires j < |s| && s[j] != '\n'
    ensures forall k :: j < k ==> (NoNewline(s, j, k) <==> NoNewline(s, j + 1, k))
  {
  }

  /** The lazy `.*?\)`: the first `)` from `j` on, not searched past a newline. */
  function CloseFrom(s: string, j: nat): (r: Option<nat>)
    requires j <= |s|
    ensures r.Some? ==> j <= r.value < |s| && s[r.value] == ')'
    decreases |s| - j
  {
    if j == |s| then None
    else if s[j] == ')' then Some(j)
    else if s[j] == '\n' then None
    else CloseFrom(s, j + 1)
  }

  /** `CloseFrom` finds the first `)` reachable from `j` without crossing a
      newline, and finds none only when there is none. */
  lemma {:induction false} CloseFromFirst(s: string, j: nat)
    requires j <= |s|
    ensures var r := CloseFrom(s, j);
      && (r.Some? ==> NoNewline(s, j, r.value) && forall k :: j <= k < r.value ==> s[k] != ')')
      && (r.None? ==> forall k :: j <= k < |s| && NoNewline(s, j, k) ==> s[k] != ')')
    decreases |s| - j
  {
    if j < |s| && s[j] != ')' {
      if s[j] == '\n' {
        assert forall k :: j < k <= |s| ==> !NoNewline(s, j, k);
      } else {
        assert CloseFrom(s, j) == CloseFrom(s, j + 1);
        CloseFromFirst(s, j + 1);
        NewlineFreeStep(s, j);
      }
    }
  }

  /** `\(.*?official.*?\)` can match `s[i..k2 + 1]` with "official" at `k1`. */
  predicate ParenMatch(s: string, i: nat, k1: nat, k2: nat)
  {
    && i < k1 && k1 + 8 <= k2 < |s|
    && s[i] == '(' && LiteralAt(s, k1, "official") && s[k2] == ')'
    && NoNewline(s, i + 1, k2)
  }

  /** A stretch free of newlines, then "official", then another such
      stretch, is free of newlines as a whole. */
  lemma NoNewlineAcross(s: string, a: nat, j: nat, k: nat)
    requires a <= j && j + 8 <= k
    requires NoNewline(s, a, j) && LiteralAt(s, j, "official") && NoNewline(s, j + 8, k)
    ensures NoNewline(s, a, k)
  {
    forall m | j <= m < j + 8
      ensures s[m] != '\n'
    {
      assert Lower(s[j + (m - j)]) == "official"[m - j];
    }
  }

  /** Any way of matching the parenthesised pattern at `i` ends no earlier
      than the one the lazy searches find. */
  lemma ParenFirst(s: string, i: nat, k1: nat, k2: nat)
    requires ParenMatch(s, i, k1, k2)
    ensures OfficialFrom(s, i + 1).Some? && OfficialFrom(s, i + 1).value <= k1
    ensures CloseFrom(s, OfficialFrom(s, i + 1).value + 8).Some?
    ensures CloseFrom(s, OfficialFrom(s, i + 1).value + 8).value <= k2
  {
    OfficialFromFirst(s, i + 1);
    assert NoNewline(s, i + 1, k1);
    var v := OfficialFrom(s, i + 1).value;
    CloseFromFirst(s, v + 8);
    assert NoNewline(s, v + 8, k2);
  }

  /** The length of the match of `\(.*?official.*?\)` at `i`, 0 when there
      is none: the first `official` after the `(`, then the first `)` after
      it. */
  function ParenLen(s: string, i: nat): (n: nat)
    requires i < |s|
    ensures n <= |s| - i
  {
    if s[i] != '(' then 0
    else (
      match OfficialFrom(s, i + 1)
      case None => 0
      case Some(j) => (
        match CloseFrom(s, j + 8)
        case None => 0
        case Some(k) => k + 1 - i))
  }

  /** `ParenLen` is the lazy match: it is positive exactly when some way of
      matching the pattern at `i` exists, it is then a match, and no match
      ends earlier. */
  lemma ParenLenIsShortest(s: string, i: nat)
    requires i < |s|
    ensures var n := ParenLen(s, i);
      && (forall k1: nat, k2: nat :: ParenMatch(s, i, k1, k2) ==> 0 < n <= k2 + 1 - i)
      && (n > 0 ==> OfficialFrom(s, i + 1).Some? && ParenMatch(s, i, OfficialFrom(s, i + 1).value, i + n - 1))
  {
    forall k1: nat, k2: nat | ParenMatch(s, i, k1, k2)
      ensures OfficialFrom(s, i + 1).Some? && OfficialFrom(s, i + 1).value <= k1
      ensures CloseFrom(s, OfficialFrom(s, i + 1).value + 8).Some?
      ensures CloseFrom(s, OfficialFrom(s, i + 1).value + 8).value <= k2
    {
      ParenFirst(s, i, k1, k2);
    }
    if s[i] == '(' && OfficialFrom(s, i + 1).Some? {
      var j := OfficialFrom(s, i + 1).value;
      OfficialFromFirst(s, i + 1);
      if CloseFrom(s, j + 8).Some? {
        CloseFromFirst(s, j + 8);
        NoNewlineAcross(s, i + 1, j, CloseFrom(s, j + 8).value);
      }
    }
  }

  /** The length of the match of `p` that starts at `i`, 0 when there is none. */
  function MatchLen(p: Pattern, s: string, i: nat): (n: nat)
    requires i < |s|
    ensures n <= |s| - i
  {
    match p
    case ParenOfficial => ParenLen(s, i)
    case Phrase(w) =>
      if WordAt(s, i, w) then |w| else 0
    case Remaster =>
      if WordAt(s, i, "remastered") then 10
      else if WordAt(s, i, "remaster") then 8
      else 0
  }

  /** What each kind of pattern matches: a phrase when it stands as a whole
      word; `remaster(ed)?` in its longer form when that stands as a word,
      else in its shorter form; the parenthesised pattern as `ParenLen` says. */
  lemma MatchLenCases(p: Pattern, s: string, i: nat)
    requires i < |s|
    ensures p.ParenOfficial? ==> MatchLen(p, s, i) == ParenLen(s, i)
    ensures p.Phrase? ==> (MatchLen(p, s, i) > 0 <==> p.words != [] && WordAt(s, i, p.words))
    ensures p.Phrase? && MatchLen(p, s, i) > 0 ==> MatchLen(p, s, i) == |p.words|
    ensures p.Remaster? ==> (MatchLen(p, s, i) == 10 <==> WordAt(s, i, "remastered"))
    ensures p.Remaster? ==> (MatchLen(p, s, i) == 8 <==> WordAt(s, i, "remaster"))
    ensures p.Remaster? ==>
      (MatchLen(p, s, i) == 0 <==> !WordAt(s, i, "remastered") && !WordAt(s, i, "remaster"))
  {
    if p.Remaster? && WordAt(s, i, "remastered") {
      assert Lower(s[i + 8]) == "remastered"[8];
    }
  }

  /** The length of the match of `p` at every position of `s`. */
  function MatchLens(p: Pattern, s: string): (ms: seq<nat>)
    ensures Fits(ms, s)
    ensures forall j :: 0 <= j < |s| ==> ms[j] == MatchLen(p, s, j)
  {
    seq(|s|, j requires 0 <= j < |s| => MatchLen(p, s, j))
  }

  /** `ms` gives, for every position of `s`, a match length that stays inside `s`. */
  predicate Fits(ms: seq<nat>, s: string)
  {
    |ms| == |s| && forall j :: 0 <= j < |ms| ==> ms[j] <= |s| - j
  }

  /** The scan of `re.sub` over `s[i..]`, given the match length at every
      position: a match is deleted and the scan resumes after it; any other
      character is kept. */
  function Sub(ms: seq<nat>, s: string, i: nat): (r: string)
    requires Fits(ms, s) && i <= |s|
    ensures |r| <= |s| - i
    decreases |s| - i
  {
    if i == |s| then []
    else if ms[i] > 0 then Sub(ms, s, i + ms[i])
    else [s[i]] + Sub(ms, s, i + 1)
  }

  /** One `re.sub(p, "", s)` pass over `s[i..]`. */
  function SubFrom(p: Pattern, s: string, i: nat): (r: string)
    requires i <= |s|
    ensures |r| <= |s| - i
  {
    Sub(MatchLens(p, s), s, i)
  }

  /** Every character of `r` comes from `t`, as often at most as it occurs there. */
  predicate DrawnFrom(r: string, t: string)
  {
    multiset(r) <= multiset(t)
  }

  /** The scan only deletes: what it keeps is drawn from `s[i..]`. */
  lemma {:induction false} SubDeletes(ms: seq<nat>, s: string, i: nat)
    requires Fits(ms, s) && i <= |s|
    ensures DrawnFrom(Sub(ms, s, i), s[i..])
    decreases |s| - i
  {
    if i < |s| {
      if ms[i] > 0 {
        SubDeletes(ms, s, i + ms[i]);
        KeptFromLater(Sub(ms, s, i + ms[i]), s, i, i + ms[i]);
      } else {
        SubDeletes(ms, s, i + 1);
        KeptWithHead(Sub(ms, s, i + 1), s, i);
      }
    }
  }

  /** A pass only deletes: what it keeps is drawn from `s[i..]`. */
  lemma SubFromDeletes(p: Pattern, s: string, i: nat)
    requires i <= |s|
    ensures DrawnFrom(SubFrom(p, s, i), s[i..])
  {
    SubDeletes(MatchLens(p, s), s, i);
  }

  /** What is drawn from a suffix of `s[i..]` is drawn from `s[i..]`. */
  lemma KeptFromLater(r: string, s: string, i: nat, j: nat)
    requires i <= j <= |s| && DrawnFrom(r, s[j..])
    ensures DrawnFrom(r, s[i..])
  {
    DropSplit(s, i, j);
  }

  /** Keeping `s[i]` in front of what is drawn from `s[i + 1..]` draws from `s[i..]`. */
  lemma KeptWithHead(r: string, s: string, i: nat)
    requires i < |s| && DrawnFrom(r, s[i + 1..])
    ensures DrawnFrom([s[i]] + r, s[i..])
  {
    assert s[i..] == [s[i]] + s[i + 1..];
  }

  /** `s[i..]` is `s[i..j]` followed by `s[j..]`, in the multiset too. */
  lemma DropSplit(s: string, i: nat, j: nat)
    requires i <= j <= |s|
    ensures s[i..] == s[i..j] + s[j..]
    ensures multiset(s[i..]) == multiset(s[i..j]) + multiset(s[j..])
  {
    assert s[i..] == s[i..j] + s[j..];
  }

  /** A scan that meets no match keeps the text as it is. */
  lemma {:induction false} SubNoMatch(ms: seq<nat>, s: string, i: nat)
    requires Fits(ms, s) && i <= |s|
    requires forall j :: i <= j < |s| ==> ms[j] == 0
    ensures Sub(ms, s, i) == s[i..]
    decreases |s| - i
  {
    if i < |s| {
      SubNoMatch(ms, s, i + 1);
      assert s[i..] == [s[i]] + s[i + 1..];
    }
  }

  /** A pass that finds no match leaves the text as it is. */
  lemma SubFromNoMatch(p: Pattern, s: string, i: nat)
    requires i <= |s|
    requires forall j :: i <= j < |s| ==> MatchLen(p, s, j) == 0
    ensures SubFrom(p, s, i) == s[i..]
  {
    SubNoMatch(MatchLens(p, s), s, i);
  }

  /** A scan that meets a match at `j` deletes something. */
  lemma {:induction false} SubShrinks(ms: seq<nat>, s: string, i: nat, j: nat)
    requires Fits(ms, s) && i <= j < |s| && ms[j] > 0
    ensures |Sub(ms, s, i)| < |s| - i
    decreases |s| - i
  {
    if ms[i] == 0 {
      SubShrinks(ms, s, i + 1, j);
    }
  }

  /** A pass that finds a match somewhere deletes something. */
  lemma SubFromShrinks(p: Pattern, s: string, i: nat, j: nat)
    requires i <= j < |s| && MatchLen(p, s, j) > 0
    ensures |SubFrom(p, s, i)| < |s| - i
  {
    SubShrinks(MatchLens(p, s), s, i, j);
  }

  /** The pattern loop of `strip_junk`: one substitution pass per pattern, in order. */
  function RemoveJunk(s: string, ps: seq<Pattern>): (r: string)
    ensures multiset(r) <= multiset(s) && |r| <= |s|
    ensures (forall p, j :: p in ps && 0 <= j < |s| ==> MatchLen(p, s, j) == 0) ==> r == s
    decreases |ps|
  {
    if ps == [] then s
    else
      assert s[0..] == s;
      SubFromDeletes(ps[0], s, 0);
      if forall p, j :: p in ps && 0 <= j < |s| ==> MatchLen(p, s, j) == 0 then
        SubFromNoMatch(ps[0], s, 0);
        RemoveJunk(SubFrom(ps[0], s, 0), ps[1..])
      else
        RemoveJunk(SubFrom(ps[0], s, 0), ps[1..])
  }

  /** When any of the patterns matches anywhere, the loop deletes something:
      either an earlier pass already did, or the text reaches that pattern's
      pass unchanged. */
  lemma {:induction false} RemoveJunkShrinks(s: string, ps: seq<Pattern>, p: Pattern, j: nat)
    requires p in ps && j < |s| && MatchLen(p, s, j) > 0
    ensures |RemoveJunk(s, ps)| < |s|
    decreases |ps|
  {
    var s1 := SubFrom(ps[0], s, 0);
    if exists m :: 0 <= m < |s| && MatchLen(ps[0], s, m) > 0 {
      var m :| 0 <= m < |s| && MatchLen(ps[0], s, m) > 0;
      SubFromShrinks(ps[0], s, 0, m);
    } else {
      SubFromNoMatch(ps[0], s, 0);
      assert s1 == s[0..] == s;
      assert p != ps[0] && p in ps[1..];
      RemoveJunkShrinks(s, ps[1..], p, j);
    }
  }

  /** No pattern of `strip_junk` matches anywhere in `s`. */
  predicate JunkFree(s: string)
  {
    forall p, j :: p in JunkPatterns && 0 <= j < |s| ==> MatchLen(p, s, j) == 0
  }

  /** Positions `k` and `k + 1` both hold a space. */
  predicate DoubleSpaceAt(s: string, k: nat)
    requires k + 1 < |s|
  {
    s[k] == ' ' && s[k + 1] == ' '
  }

  /** Every whitespace character is a plain space and no two spaces touch. */
  predicate SpacesNormal(s: string)
  {
    && (forall k :: 0 <= k < |s| && IsSpace(s[k]) ==> s[k] == ' ')
    && (forall k :: 0 <= k < |s| - 1 ==> !DoubleSpaceAt(s, k))
  }

  /** Neither end is a space, `-`, `_` or `–`. */
  predicate Trimmed(s: string)
  {
    s == [] || (!IsEdge(s[0]) && !IsEdge(s[|s| - 1]))
  }

  /** The layout every result of `strip_junk` has. */
  predicate Tidy(s: string)
  {
    SpacesNormal(s) && Trimmed(s)
  }

  /** Apart from spaces, every character of `r` occurs in `s`. */
  predicate CharsFrom(r: string, s: string)
  {
    forall k :: 0 <= k < |r| ==> r[k] == ' ' || r[k] in s
  }

  /** `s` with every whitespace character removed. */
  function NonSpace(s: string): (r: string)
    ensures |r| <= |s|
  {
    if s == [] then []
    else if IsSpace(s[0]) then NonSpace(s[1..])
    else [s[0]] + NonSpace(s[1..])
  }

  /** `NonSpace` keeps only characters of `s` that are not whitespace. */
  lemma {:induction false} NonSpaceFrom(s: string)
    ensures forall k :: 0 <= k < |NonSpace(s)| ==> NonSpace(s)[k] in s && !IsSpace(NonSpace(s)[k])
    decreases |s|
  {
    if s != [] {
      NonSpaceFrom(s[1..]);
      var r, t := NonSpace(s), NonSpace(s[1..]);
      forall k | 0 <= k < |r|
        ensures r[k] in s && !IsSpace(r[k])
      {
        if IsSpace(s[0]) {
          assert r[k] == t[k] && t[k] in s[1..];
        } else if k > 0 {
          assert r[k] == t[k - 1] && t[k - 1] in s[1..];
        }
      }
    }
  }

  lemma {:induction false} NonSpaceAppend(a: string, b: string)
    ensures NonSpace(a + b) == NonSpace(a) + NonSpace(b)
    decreases |a|
  {
    if a != [] {
      assert (a + b)[1..] == a[1..] + b;
      NonSpaceAppend(a[1..], b);
    } else {
      assert a + b == b;
    }
  }

  /** Dropping whitespace does not change what `NonSpace` keeps. */
  lemma {:induction false} NonSpaceDrop(s: string)
    ensures NonSpace(DropSpaces(s)) == NonSpace(s)
    decreases |s|
  {
    if s != [] && IsSpace(s[0]) {
      NonSpaceDrop(s[1..]);
    }
  }

  /** Drops a leading run of whitespace. */
  function DropSpaces(s: string): (r: string)
    ensures |r| <= |s| && r == s[|s| - |r|..]
    ensures r == [] || !IsSpace(r[0])
    ensures s == [] || !IsSpace(s[0]) ==> r == s
  {
    if s != [] && IsSpace(s[0]) then DropSpaces(s[1..]) else s
  }

  /** Putting one character in front of normally spaced text keeps it normal
      unless it makes a second whitespace character or a double space. */
  lemma ConsNormal(c: char, rest: string)
    requires SpacesNormal(rest)
    requires IsSpace(c) ==> c == ' '
    requires c == ' ' && rest != [] ==> rest[0] != ' '
    ensures SpacesNormal([c] + rest)
  {
    var r := [c] + rest;
    forall k | 0 <= k < |r| - 1
      ensures !DoubleSpaceAt(r, k)
    {
      if k > 0 {
        assert !DoubleSpaceAt(rest, k - 1);
      }
    }
  }

  /** A slice of normally spaced text is normally spaced. */
  lemma SliceNormal(s: string, a: nat, b: nat)
    requires a <= b <= |s| && SpacesNormal(s)
    ensures SpacesNormal(s[a..b])
  {
    var r := s[a..b];
    forall k | 0 <= k < |r| - 1
      ensures !DoubleSpaceAt(r, k)
    {
      assert !DoubleSpaceAt(s, a + k);
    }
  }

  /** `re.sub(r"\s+", " ", s)`: each maximal run of whitespace becomes one space. */
  function Collapse(s: string): (r: string)
    ensures |r| <= |s|
    decreases |s|
  {
    if s == [] then []
    else if IsSpace(s[0]) then [' '] + Collapse(DropSpaces(s[1..]))
    else [s[0]] + Collapse(s[1..])
  }

  /** What collapsing leaves: no whitespace but single spaces, every other
      character from the input, the same non-whitespace characters in the
      same order, and a first character that is the input's, or a space
      where the input began with whitespace. */
  lemma {:induction false} CollapseShape(s: string)
    ensures SpacesNormal(Collapse(s))
    ensures CharsFrom(Collapse(s), s)
    ensures NonSpace(Collapse(s)) == NonSpace(s)
    ensures s != [] && !IsSpace(s[0]) ==> Collapse(s) != [] && Collapse(s)[0] == s[0]
    ensures s != [] && IsSpace(s[0]) ==> Collapse(s) != [] && Collapse(s)[0] == ' '
    decreases |s|
  {
    if s != [] {
      var c, t := if IsSpace(s[0]) then ' ' else s[0], if IsSpace(s[0]) then DropSpaces(s[1..]) else s[1..];
      var rest := Collapse(t);
      assert Collapse(s) == [c] + rest;
      CollapseShape(t);
      if IsSpace(s[0]) {
        NonSpaceDrop(s[1..]);
      }
      assert ([c] + rest)[1..] == rest;
      ConsNormal(c, rest);
      SuffixChars(s, t, rest);
      ConsChars(c, rest, s);
    }
  }

  /** Characters drawn from a suffix of `s` are characters of `s`. */
  lemma SuffixChars(s: string, t: string, r: string)
    requires |t| <= |s| && t == s[|s| - |t|..]
    requires CharsFrom(r, t)
    ensures CharsFrom(r, s)
  {
    forall k | 0 <= k < |r| && r[k] != ' '
      ensures r[k] in s
    {
      var j :| 0 <= j < |t| && t[j] == r[k];
      assert s[|s| - |t| + j] == t[j];
    }
  }

  lemma ConsChars(c: char, rest: string, s: string)
    requires CharsFrom(rest, s) && (c == ' ' || c in s)
    ensures CharsFrom([c] + rest, s)
  {
    var r := [c] + rest;
    forall k | 0 <= k < |r|
      ensures r[k] == ' ' || r[k] in s
    {
      if k > 0 {
        assert r[k] == rest[k - 1];
      }
    }
  }

  /** Text whose spacing is already normal is left as it is. */
  lemma {:induction false} CollapseNormal(s: string)
    requires SpacesNormal(s)
    ensures Collapse(s) == s
    decreases |s|
  {
    if s != [] {
      SliceNormal(s, 1, |s|);
      assert s[1..|s|] == s[1..];
      if IsSpace(s[0]) {
        assert s[0] == ' ';
        if |s| > 1 {
          assert !DoubleSpaceAt(s, 0);
          assert !IsSpace(s[1..][0]);
        }
        assert DropSpaces(s[1..]) == s[1..];
      }
      CollapseNormal(s[1..]);
    }
  }

  /** `lstrip(" -_–")` */
  function TrimStart(s: string): (r: string)
    ensures |r| <= |s| && r == s[|s| - |r|..]
    ensures forall k :: 0 <= k < |s| - |r| ==> IsEdge(s[k])
    ensures r == [] || !IsEdge(r[0])
    ensures s == [] || !IsEdge(s[0]) ==> r == s
  {
    if s != [] && IsEdge(s[0]) then
      var r := TrimStart(s[1..]);
      assert s[1..][|s| - 1 - |r|..] == s[|s| - |r|..];
      assert forall k :: 1 <= k < |s| ==> s[k] == s[1..][k - 1];
      r
    else s
  }

  /** `rstrip(" -_–")` */
  function TrimEnd(s: string): (r: string)
    ensures |r| <= |s| && r == s[..|r|]
    ensures forall k :: |r| <= k < |s| ==> IsEdge(s[k])
    ensures r == [] || !IsEdge(r[|r| - 1])
    ensures s == [] || !IsEdge(s[|s| - 1]) ==> r == s
  {
    if s != [] && IsEdge(s[|s| - 1]) then
      var r := TrimEnd(s[..|s| - 1]);
      assert s[..|s| - 1][..|r|] == s[..|r|];
      assert forall k :: 0 <= k < |s| - 1 ==> s[k] == s[..|s| - 1][k];
      r
    else s
  }

  /** `strip(" -_–")`: a slice of `s` with neither end an edge character. */
  function Strip(s: string): (r: string)
    ensures Trimmed(r)
    ensures |r| <= |s| - StripOffset(s) && r == s[StripOffset(s)..StripOffset(s) + |r|]
    ensures forall k :: 0 <= k < StripOffset(s) ==> IsEdge(s[k])
    ensures forall k :: StripOffset(s) + |r| <= k < |s| ==> IsEdge(s[k])
    ensures Trimmed(s) ==> r == s
  {
    TrimEnd(TrimStart(s))
  }

  /** Where the result of `Strip` begins in its input. */
  function StripOffset(s: string): (a: nat)
    ensures a <= |s|
  {
    |s| - |TrimStart(s)|
  }

  /** `strip_junk`: the pattern deletions, then whitespace collapsing, then
      trimming. The result is tidy, and apart from spaces every character of
      it comes from the input. */
  function StripJunk(text: string): (r: string)
    ensures Tidy(r)
    ensures CharsFrom(r, text)
    ensures NonSpace(r) == Strip(NonSpace(RemoveJunk(text, JunkPatterns)))
    ensures JunkFree(text) ==> NonSpace(r) == Strip(NonSpace(text))
  {
    var removed := RemoveJunk(text, JunkPatterns);
    var collapsed := Collapse(removed);
    CollapseShape(removed);
    var r := Strip(collapsed);
    StripHasShape(collapsed);
    StripSteps(text, removed, collapsed, StripOffset(collapsed), r);
    NonSpaceStrip(collapsed);
    r
  }

  /** Every character is a space, `-`, `_` or `–`. */
  predicate AllEdge(s: string)
  {
    forall k :: 0 <= k < |s| ==> IsEdge(s[k])
  }

  /** `Strip` removes exactly the edge characters around a trimmed middle. */
  lemma StripAround(x: string, y: string, z: string)
    requires AllEdge(x) && AllEdge(z) && Trimmed(y)
    ensures Strip(x + y + z) == y
  {
    var s := x + y + z;
    StripHasShape(s);
    assert y == s[|x|..|x| + |y|];
    forall k | 0 <= k < |x|
      ensures IsEdge(s[k])
    {
      assert s[k] == x[k];
    }
    forall k | |x| + |y| <= k < |s|
      ensures IsEdge(s[k])
    {
      assert s[k] == z[k - |x| - |y|];
    }
    assert StripShape(s, |x|, y);
    ShapeUnique(s, StripOffset(s), Strip(s), |x|, y);
  }

  /** Only one trimmed middle fits between edge characters. */
  lemma ShapeUnique(c: string, a: nat, m: string, b: nat, n: string)
    requires StripShape(c, a, m) && StripShape(c, b, n)
    ensures m == n
  {
    if m != [] {
      assert !IsEdge(c[a]) && !IsEdge(c[a + |m| - 1]) by {
        assert c[a] == m[0] && c[a + |m| - 1] == m[|m| - 1];
      }
    }
    if n != [] {
      assert !IsEdge(c[b]) && !IsEdge(c[b + |n| - 1]) by {
        assert c[b] == n[0] && c[b + |n| - 1] == n[|n| - 1];
      }
    }
    if m != [] && n != [] {
      assert a == b;
      assert |m| == |n|;
    }
  }

  /** The characters `NonSpace` keeps from edge characters are edge characters. */
  lemma NonSpaceEdges(x: string)
    requires AllEdge(x)
    ensures AllEdge(NonSpace(x))
  {
    var n := NonSpace(x);
    NonSpaceFrom(x);
    forall k | 0 <= k < |n|
      ensures IsEdge(n[k])
    {
      var j :| 0 <= j < |x| && x[j] == n[k];
    }
  }

  /** Dropping the whitespace of trimmed text whose ends are not whitespace
      leaves it trimmed. */
  lemma NonSpaceTrimmed(m: string)
    requires Trimmed(m)
    requires m != [] ==> !IsSpace(m[0]) && !IsSpace(m[|m| - 1])
    ensures Trimmed(NonSpace(m))
  {
    if m != [] {
      NonSpaceLast(m);
    }
  }

  /** A last character that is not whitespace is kept last. */
  lemma NonSpaceLast(m: string)
    requires m != [] && !IsSpace(m[|m| - 1])
    ensures NonSpace(m) != [] && NonSpace(m)[|NonSpace(m)| - 1] == m[|m| - 1]
  {
    var c := m[|m| - 1];
    assert m == m[..|m| - 1] + [c];
    NonSpaceAppend(m[..|m| - 1], [c]);
    assert [c][1..] == [];
    assert NonSpace([c]) == [c];
  }

  /** Dropping the whitespace of a trimmed middle with edge characters
      around it, then stripping, gives the middle without its whitespace. */
  lemma NonSpaceAround(x: string, m: string, z: string)
    requires AllEdge(x) && AllEdge(z) && Trimmed(m)
    requires m != [] ==> !IsSpace(m[0]) && !IsSpace(m[|m| - 1])
    ensures Strip(NonSpace(x + m + z)) == NonSpace(m)
  {
    NonSpaceAppend(x + m, z);
    NonSpaceAppend(x, m);
    NonSpaceEdges(x);
    NonSpaceEdges(z);
    NonSpaceTrimmed(m);
    StripAround(NonSpace(x), NonSpace(m), NonSpace(z));
  }

  lemma SplitThree(c: string, a: nat, b: nat)
    requires a <= b <= |c|
    ensures c == c[..a] + c[a..b] + c[b..]
  {
  }

  /** For text whose only whitespace is the plain space, stripping commutes
      with dropping the spaces. */
  lemma NonSpaceStrip(c: string)
    requires forall k :: 0 <= k < |c| && IsSpace(c[k]) ==> c[k] == ' '
    ensures NonSpace(Strip(c)) == Strip(NonSpace(c))
  {
    StripHasShape(c);
    NonSpaceMiddle(c, StripOffset(c), Strip(c));
  }

  /** `c` is edge characters, then the trimmed middle `m` from `a` on,
      then edge characters again. */
  predicate StripShape(c: string, a: nat, m: string)
  {
    && a + |m| <= |c| && m == c[a..a + |m|] && Trimmed(m)
    && (forall k :: 0 <= k < a ==> IsEdge(c[k]))
    && (forall k :: a + |m| <= k < |c| ==> IsEdge(c[k]))
  }

  /** `Strip` cuts `c` into that shape. */
  lemma StripHasShape(c: string)
    ensures StripShape(c, StripOffset(c), Strip(c))
  {
  }

  /** Text whose only whitespace is the plain space, made of edge
      characters, then a trimmed middle, then edge characters again:
      dropping the whitespace and stripping leaves the middle without its
      whitespace. */
  lemma NonSpaceMiddle(c: string, a: nat, m: string)
    requires forall k :: 0 <= k < |c| && IsSpace(c[k]) ==> c[k] == ' '
    requires StripShape(c, a, m)
    ensures Strip(NonSpace(c)) == NonSpace(m)
  {
    if m != [] {
      assert m[0] == c[a] && m[|m| - 1] == c[a + |m| - 1];
    }
    var x, z := c[..a], c[a + |m|..];
    SplitThree(c, a, a + |m|);
    assert AllEdge(x) by {
      forall k | 0 <= k < |x| ensures IsEdge(x[k]) { assert x[k] == c[k]; }
    }
    assert AllEdge(z) by {
      forall k | 0 <= k < |z| ensures IsEdge(z[k]) { assert z[k] == c[a + |m| + k]; }
    }
    NonSpaceAround(x, m, z);
  }

  /** The layout and the provenance of characters carry through collapsing
      and trimming. */
  lemma StripSteps(text: string, removed: string, collapsed: string, a: nat, r: string)
    requires multiset(removed) <= multiset(text)
    requires SpacesNormal(collapsed) && CharsFrom(collapsed, removed)
    requires StripShape(collapsed, a, r)
    ensures Tidy(r)
    ensures CharsFrom(r, text)
  {
    TidySlice(collapsed, a, r);
    SliceChars(collapsed, a, r, removed);
    WiderChars(r, removed, text);
  }

  /** The trimmed middle of normally spaced text is tidy. */
  lemma TidySlice(c: string, a: nat, m: string)
    requires SpacesNormal(c) && StripShape(c, a, m)
    ensures Tidy(m)
  {
    SliceNormal(c, a, a + |m|);
  }

  /** A slice keeps the provenance of its characters. */
  lemma SliceChars(s: string, a: nat, r: string, t: string)
    requires a + |r| <= |s| && r == s[a..a + |r|] && CharsFrom(s, t)
    ensures CharsFrom(r, t)
  {
    forall k | 0 <= k < |r|
      ensures r[k] == ' ' || r[k] in t
    {
      assert r[k] == s[a + k];
    }
  }

  /** Characters drawn from `s` are drawn from anything holding all of `s`. */
  lemma WiderChars(r: string, s: string, t: string)
    requires CharsFrom(r, s)
    requires multiset(s) <= multiset(t)
    ensures CharsFrom(r, t)
  {
    forall k | 0 <= k < |r| && r[k] != ' '
      ensures r[k] in t
    {
      assert r[k] in multiset(s);
    }
  }

  /** A text that is already tidy and holds no junk phrase is a fixed point
      of `strip_junk`. */
  lemma StripJunkFixedPoint(t: string)
    requires Tidy(t) && JunkFree(t)
    ensures StripJunk(t) == t
  {
    assert RemoveJunk(t, JunkPatterns) == t;
    CollapseNormal(t);
  }

  /** The end of the last separator: the position after the last `-` or `–`,
      0 when there is none. */
  function LastDashEnd(s: string): (e: nat)
    ensures e <= |s|
    ensures e > 0 ==> IsDash(s[e - 1])
    ensures forall k :: e <= k < |s| ==> !IsDash(s[k])
  {
    if s == [] then 0
    else if IsDash(s[|s| - 1]) then |s|
    else LastDashEnd(s[..|s| - 1])
  }

  /** The end of the run of whitespace that starts at `i`. */
  function SkipSpaces(s: string, i: nat): (j: nat)
    requires i <= |s|
    ensures i <= j <= |s|
    ensures forall k :: i <= k < j ==> IsSpace(s[k])
    ensures j < |s| ==> !IsSpace(s[j])
    decreases |s| - i
  {
    if i < |s| && IsSpace(s[i]) then SkipSpaces(s, i + 1) else i
  }

  /** `re.split(r"\s*[–\-]\s*", s)[-1]`: what follows the last separator and
      the whitespace after it, or all of `s` when it has no separator. */
  function LastSegment(s: string): (r: string)
    ensures |r| <= |s| && r == s[|s| - |r|..]
    ensures !HasDash(r)
    ensures !HasDash(s) ==> r == s
    ensures HasDash(s) ==> 0 < LastDashEnd(s) <= |s| - |r|
    ensures HasDash(s) ==> forall k :: LastDashEnd(s) <= k < |s| - |r| ==> IsSpace(s[k])
    ensures HasDash(s) ==> r == [] || !IsSpace(r[0])
  {
    var e := LastDashEnd(s);
    if e == 0 then
      assert !HasDash(s) by {
        assert forall k :: 0 <= k < |s| ==> !IsDash(s[k]);
      }
      s
    else
      var r := s[SkipSpaces(s, e)..];
      assert forall k :: 0 <= k < |r| ==> !IsDash(r[k]);
      r
  }

  /** The first `)` at or after `j` (`[^)]*` crosses newlines), or `|s|`. */
  function FirstClose(s: string, j: nat): (k: nat)
    requires j <= |s|
    ensures j <= k <= |s|
    ensures k < |s| ==> s[k] == ')'
    ensures forall m :: j <= m < k ==> s[m] != ')'
    decreases |s| - j
  {
    if j == |s| || s[j] == ')' then j else FirstClose(s, j + 1)
  }

  /** The contents of the group opened at `k`, up to the first `)`. */
  function Group(s: string, k: nat): (g: string)
    requires k < |s|
    ensures ')' !in g
    ensures k + 1 + |g| <= |s| && g == s[k + 1..k + 1 + |g|]
    ensures k + 1 + |g| == |s| || s[k + 1 + |g|] == ')'
  {
    var e := FirstClose(s, k + 1);
    var g := s[k + 1..e];
    assert forall m :: 0 <= m < |g| ==> g[m] == s[k + 1 + m];
    g
  }

  /** `\(([^)]*[\-–][^)]*)\)` matches at `m`: a `(`, then a `)` later on, with
      a separator between them. */
  predicate DashGroupOpens(s: string, m: nat)
  {
    m < |s| && s[m] == '(' && FirstClose(s, m + 1) < |s| && HasDash(Group(s, m))
  }

  /** `re.search(r"\(([^)]*[\-–][^)]*)\)", s)` from position `i`: where the
      leftmost parenthesised group that holds a separator opens. */
  function DashGroupAt(s: string, i: nat): (r: Option<nat>)
    requires i <= |s|
    ensures r.Some? ==> i <= r.value < |s| && DashGroupOpens(s, r.value)
    ensures r.Some? ==> forall m :: i <= m < r.value ==> !DashGroupOpens(s, m)
    ensures r.None? ==> forall m :: i <= m < |s| ==> !DashGroupOpens(s, m)
    decreases |s| - i
  {
    if i == |s| then None
    else if DashGroupOpens(s, i) then Some(i)
    else DashGroupAt(s, i + 1)
  }

  /** Without a `)` there is no group to find. */
  lemma {:induction false} NoCloseNoGroup(s: string, i: nat)
    requires i <= |s| && ')' !in s
    ensures DashGroupAt(s, i) == None
    decreases |s| - i
  {
    if i < |s| {
      NoCloseNoGroup(s, i + 1);
    }
  }

  /** A matching group with no `(` before it is the one the search finds. */
  lemma DashGroupFirst(s: string, k: nat)
    requires DashGroupOpens(s, k)
    requires forall m :: 0 <= m < k ==> s[m] != '('
    ensures DashGroupAt(s, 0) == Some(k)
  {
  }

  /** `smart_title_parse`: the last separated part of the first
      parenthesised group with a separator; failing that, the last separated
      part of the whole name when it contains an ASCII `-`; failing that, the
      whole name; in each case junk-stripped. */
  function SmartTitle(name: string): (r: string)
    ensures Tidy(r)
    ensures CharsFrom(r, name)
    ensures DashGroupAt(name, 0).Some? ==> !HasDash(r) && ')' !in r
    ensures DashGroupAt(name, 0).None? && '-' in name ==> !HasDash(r)
    ensures DashGroupAt(name, 0).None? && '-' !in name ==> r == StripJunk(name)
  {
    match DashGroupAt(name, 0)
    case Some(k) =>
      var inside := Group(name, k);
      StripJunkOfPart(inside, LastSegment(inside));
      GroupOfName(name, k);
      WiderChars(StripJunk(LastSegment(inside)), inside, name);
      Avoids(StripJunk(LastSegment(inside)), LastSegment(inside), '-');
      Avoids(StripJunk(LastSegment(inside)), LastSegment(inside), EnDash);
      Avoids(StripJunk(LastSegment(inside)), LastSegment(inside), ')');
      StripJunk(LastSegment(inside))
    case None =>
      if '-' in name then
        StripJunkOfPart(name, LastSegment(name));
        Avoids(StripJunk(LastSegment(name)), LastSegment(name), '-');
        Avoids(StripJunk(LastSegment(name)), LastSegment(name), EnDash);
        StripJunk(LastSegment(name))
      else
        StripJunk(name)
  }

  /** Without a group, a name holding `-` is parsed by its last separated part. */
  lemma SmartTitleBySplit(name: string)
    requires DashGroupAt(name, 0).None? && '-' in name
    ensures SmartTitle(name) == StripJunk(LastSegment(name))
  {
  }

  /** A name whose only separator is `–` is not split: when it is already
      tidy, junk-free and has no group, it comes back whole, `–` included. */
  lemma EnDashNotSplit(name: string)
    requires Tidy(name) && JunkFree(name) && '-' !in name && ')' !in name
    ensures SmartTitle(name) == name
  {
    NoCloseNoGroup(name, 0);
    StripJunkFixedPoint(name);
  }

  /** A character other than a space that `s` lacks is not among characters drawn from `s`. */
  lemma Avoids(r: string, s: string, c: char)
    requires CharsFrom(r, s) && c != ' ' && c !in s
    ensures c !in r
  {
  }

  /** Junk-stripping a slice of `src` keeps to the characters of `src`, plus spaces. */
  lemma StripJunkOfPart(src: string, part: string)
    requires |part| <= |src| && part == src[|src| - |part|..]
    ensures CharsFrom(StripJunk(part), src)
  {
    SuffixChars(src, part, StripJunk(part));
  }

  /** A group's contents are part of the name. */
  lemma GroupOfName(name: string, k: nat)
    requires k < |name|
    ensures multiset(Group(name, k)) <= multiset(name)
  {
    var e := FirstClose(name, k + 1);
    assert name == name[..k + 1] + Group(name, k) + name[e..];
  }
}
