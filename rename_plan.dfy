/** The renaming half of the media directory formatter: the plan built from the selected files,
    the confirmation step, and the renames carried out. */
module RenamePlan {
  import opened PyStr
  import opened EpisodeTag
  import Matcher

  /** One entry of the plan: a selected file and its new name, or `None` when no episode number
      was detected in it and it is skipped. */
  datatype Change = Change(original: string, target: Option<string>)

  /** The new name `{title}E{tag}{ext}` of a file, or `None` when it carries no episode tag:
      the hint, an `E`, the two digits of the tag and the file's extension, in that order. */
  function NewName(filename: string, title: string): (r: Option<string>)
    ensures r.None? <==> EpisodeNumber(filename).None?
    ensures r.Some? ==>
      var n, ext := |title|, SplitExt(filename).1;
      && |r.value| == n + 3 + |ext|
      && r.value[..n] == title && r.value[n] == 'E'
      && r.value[n + 1..n + 3] == EpisodeNumber(filename).value
      && IsDigit(r.value[n + 1]) && IsDigit(r.value[n + 2])
      && r.value[n + 3..] == ext
  {
    match EpisodeNumber(filename)
    case None => None
    case Some(tag) => Some(title + "E" + tag + SplitExt(filename).1)
  }

  /** The plan for the selected files, one entry per file in selection order. */
  function Plan(matches: seq<string>, title: string): (r: seq<Change>)
    ensures |r| == |matches|
    ensures forall i :: 0 <= i < |r| ==> r[i] == Change(matches[i], NewName(matches[i], title))
  {
    seq(|matches|, i requires 0 <= i < |matches| => Change(matches[i], NewName(matches[i], title)))
  }

  /** `changes.append([filename, new_filename])` for each selected file. */
  method BuildPlan(matches: seq<string>, title: string) returns (changes: seq<Change>)
    ensures changes == Plan(matches, title)
  {
    changes := [];
    for i := 0 to |matches|
      invariant changes == Plan(matches[..i], title)
    {
      var filename := matches[i];
      var ext := SplitExt(filename).1;
      var epNum := EpisodeNumber(filename);
      var newFilename: Option<string> := None;
      if epNum.Some? {
        newFilename := Some(title + "E" + epNum.value + ext);
      }
      assert newFilename == NewName(filename, title);
      PlanAppend(matches, i, title);
      changes := changes + [Change(filename, newFilename)];
    }
    assert matches[..|matches|] == matches;
  }

  lemma PlanAppend(matches: seq<string>, i: nat, title: string)
    requires i < |matches|
    ensures Plan(matches[..i + 1], title) == Plan(matches[..i], title) + [Change(matches[i], NewName(matches[i], title))]
  {
    assert matches[..i + 1][..i] == matches[..i];
  }

  /** The renames a plan calls for, in plan order: every entry with a new name. */
  function Renames(plan: seq<Change>): seq<(string, string)>
    decreases |plan|
  {
    if plan == [] then []
    else
      (if plan[0].target.Some? then [(plan[0].original, plan[0].target.value)] else []) +
      Renames(plan[1..])
  }

  /** The apply loop: entries without a new name are passed over with `continue`; the others
      are renamed in order. Each `os.rename` is recorded as a pair (old name, new name). */
  method ApplyPlan(plan: seq<Change>) returns (log: seq<(string, string)>)
    ensures log == Renames(plan)
  {
    log := [];
    var i := 0;
    while i < |plan|
      invariant 0 <= i <= |plan|
      invariant log + Renames(plan[i..]) == Renames(plan)
    {
      var change := plan[i];
      assert plan[i..][1..] == plan[i + 1..];
      i := i + 1;
      if change.target.None? {
        continue;
      }
      log := log + [(change.original, change.target.value)];
    }
  }

  /** The renames are exactly the tagged entries of the plan, in plan order: each rename is the
      entry at some position, and every entry with a new name gives one rename. */
  lemma {:induction false} RenamesAreTargets(plan: seq<Change>)
    ensures forall r :: r in Renames(plan) ==> Change(r.0, Some(r.1)) in plan
    ensures forall c :: c in plan && c.target.Some? ==> (c.original, c.target.value) in Renames(plan)
    decreases |plan|
  {
    if plan != [] {
      RenamesAreTargets(plan[1..]);
      assert plan == [plan[0]] + plan[1..];
    }
  }

  /** A file skipped for want of an episode number is never renamed. */
  lemma SkippedNeverRenamed(matches: seq<string>, title: string, f: string)
    requires f in matches && EpisodeNumber(f).None?
    ensures forall r :: r in Renames(Plan(matches, title)) ==> r.0 != f
  {
    var plan := Plan(matches, title);
    RenamesAreTargets(plan);
    forall r | r in Renames(plan) ensures r.0 != f {
      var k :| 0 <= k < |plan| && plan[k] == Change(r.0, Some(r.1));
      assert NewName(matches[k], title).Some?;
    }
  }

  /** Exactly the files with an episode number are renamed, each to its new name. */
  lemma RenamesOfPlan(matches: seq<string>, title: string)
    ensures forall r :: r in Renames(Plan(matches, title)) ==>
      r.0 in matches && EpisodeNumber(r.0).Some? && Some(r.1) == NewName(r.0, title)
    ensures forall f :: f in matches && EpisodeNumber(f).Some? ==>
      (f, NewName(f, title).value) in Renames(Plan(matches, title))
  {
    var plan := Plan(matches, title);
    RenamesAreTargets(plan);
    forall r | r in Renames(plan)
      ensures r.0 in matches && EpisodeNumber(r.0).Some? && Some(r.1) == NewName(r.0, title)
    {
      var k :| 0 <= k < |plan| && plan[k] == Change(r.0, Some(r.1));
    }
    forall f | f in matches && EpisodeNumber(f).Some?
      ensures (f, NewName(f, title).value) in Renames(plan)
    {
      var k :| 0 <= k < |matches| && matches[k] == f;
      assert plan[k] in plan;
    }
  }

  /** A tagged file keeps its extension, when it has one. */
  lemma NewNameKeepsExtension(filename: string, title: string)
    requires NewName(filename, title).Some? && SplitExt(filename).1 != []
    ensures SplitExt(NewName(filename, title).value).1 == SplitExt(filename).1
  {
    var tag := EpisodeNumber(filename).value;
    var stem := title + "E" + tag;
    assert stem[|stem| - 1] == tag[1];
    SplitExtJoin(stem, SplitExt(filename).1);
  }

  /** The new name contains the hint, so the whole hint selects every renamed file. */
  lemma NewNameMatchesTitle(filename: string, title: string)
    requires NewName(filename, title).Some?
    ensures Matcher.Matches(NewName(filename, title).value, title)
  {
    var name := NewName(filename, title).value;
    var rest := name[|title|..];
    assert name == title + rest;
    Matcher.PrefixMatches(title, rest);
  }

  /** Two tagged files get the same new name exactly when they have the same episode number
      and the same extension: the only way two renames can collide. */
  lemma NewNameCollision(f: string, g: string, title: string)
    requires NewName(f, title).Some? && NewName(g, title).Some?
    ensures NewName(f, title) == NewName(g, title) <==>
      EpisodeNumber(f) == EpisodeNumber(g) && SplitExt(f).1 == SplitExt(g).1
  {
    TwoDigitsCancel(title + "E", EpisodeNumber(f).value, SplitExt(f).1, EpisodeNumber(g).value, SplitExt(g).1);
  }

  lemma TwoDigitsCancel(pre: string, t1: string, e1: string, t2: string, e2: string)
    requires |t1| == 2 && |t2| == 2
    ensures pre + t1 + e1 == pre + t2 + e2 <==> t1 == t2 && e1 == e2
  {
    if pre + t1 + e1 == pre + t2 + e2 {
      var n := |pre|;
      assert (pre + t1 + e1)[n..n + 2] == t1 && (pre + t2 + e2)[n..n + 2] == t2;
      assert (pre + t1 + e1)[n + 2..] == e1 && (pre + t2 + e2)[n + 2..] == e2;
    }
  }

  /** When the hint has no digit of its own, the new name yields the same episode number as
      the old one: running the formatter again plans the same names. (A digit in the hint can
      be captured first; see `ExampleDigitHint`.) */
  lemma NewNameKeepsTag(filename: string, title: string)
    requires NewName(filename, title).Some?
    requires forall k :: 0 <= k < |title| ==> !IsDigit(title[k])
    ensures EpisodeNumber(NewName(filename, title).value) == EpisodeNumber(filename)
  {
    var tag := EpisodeNumber(filename).value;
    var ext := SplitExt(filename).1;
    assert NewName(filename, title).value == title + "E" + (tag + ext);
    TagOfHintE(title, tag, tag + ext);
  }

  /** A digit-free hint, an `E` and a text starting with two digits: the search finds those
      digits. A match may start inside the hint (at `episod` before the `E`), but then it
      captures the same digits. */
  lemma TagOfHintE(title: string, tag: string, rest: string)
    requires |tag| == 2 && IsDigit(tag[0]) && IsDigit(tag[1]) && tag <= rest
    requires forall k :: 0 <= k < |title| ==> !IsDigit(title[k])
    ensures EpisodeNumber(title + "E" + rest) == Some(tag)
  {
    var s := title + "E" + rest;
    var m := |title|;
    forall k | 0 <= k < m ensures TagAt(s, k) == None || TagAt(s, k) == Some(tag) {
      InsideHint(title, tag, rest, k);
    }
    assert s[m] == 'E' && s[m + 1..] == rest;
    DigitsOfRest(tag, rest);
    assert TagAt(s, m) == Some(tag);
    var k0 := SearchFrom(s, 0);
    assert k0 != -1 && k0 <= m;
  }

  /** A match attempt at a position of a digit-free hint captures nothing, or the digits after
      the `E`. */
  lemma InsideHint(title: string, tag: string, rest: string, k: nat)
    requires |tag| == 2 && IsDigit(tag[0]) && IsDigit(tag[1]) && tag <= rest
    requires forall j :: 0 <= j < |title| ==> !IsDigit(title[j])
    requires k < |title|
    ensures var s := title + "E" + rest; TagAt(s, k) == None || TagAt(s, k) == Some(tag)
  {
    var s := title + "E" + rest;
    var m := |title|;
    assert forall j :: 0 <= j < m ==> s[j] == title[j];
    assert s[m] == 'E' && s[m + 1..] == rest;
    DigitsOfRest(tag, rest);
    assert HintThenE(s, m);
    LetterInHint(s, m, k, 'e');
    LetterInHint(s, m, k, 'x');
    EpisodeInHint(s, m, k, tag);
    if k == 0 {
      NoDigitBlocked(s, 0, m);
      assert s[0..] == s;
    }
  }

  /** Position `m` of `s` holds the `E` after the hint `s[..m]`, which has no digit. */
  predicate HintThenE(s: string, m: nat) {
    m < |s| && s[m] == 'E' && forall j :: 0 <= j < m ==> !IsDigit(s[j])
  }

  /** `e` or `x` inside the hint is followed by blanks and then a non-digit. */
  lemma LetterInHint(s: string, m: nat, k: nat, c: char)
    requires HintThenE(s, m) && k < m
    ensures ViaLetter(s, k, c) == None
  {
    NoDigitBlocked(s, k + 1, m);
  }

  /** `episode` inside the hint either stops short of the `E`, ends in it, or cannot be read
      across it, since no other letter of `episode` is an `e` but the first and the last. */
  lemma EpisodeInHint(s: string, m: nat, k: nat, tag: string)
    requires HintThenE(s, m) && k < m && DigitsAfterSpace(s[m + 1..]) == Some(tag)
    ensures ViaEpisode(s, k) == None || ViaEpisode(s, k) == Some(tag)
  {
    if k + 7 <= m {
      NoDigitBlocked(s, k + 7, m);
    } else if k + 7 > m + 1 && k + 7 <= |s| {
      assert Lower(s[k..k + 7])[m - k] == LowerChar(s[m]) == 'e';
    }
  }

  /** Blanks from `i` on end at or before `m`, and no digit stands before the first non-blank:
      `\s*(\d{2})` finds nothing at `i`. */
  lemma NoDigitBlocked(s: string, i: nat, m: nat)
    requires i <= m < |s|
    requires forall j :: i <= j < m ==> !IsDigit(s[j])
    requires !IsSpace(s[m]) && !IsDigit(s[m])
    ensures DigitsAfterSpace(s[i..]) == None
  {
    var t := s[i..];
    var n := LeadingSpaces(t);
    assert t[n] == s[i + n];
  }

  lemma DigitsOfRest(tag: string, rest: string)
    requires |tag| == 2 && IsDigit(tag[0]) && IsDigit(tag[1]) && tag <= rest
    ensures DigitsAfterSpace(rest) == Some(tag)
  {
    assert rest[0] == tag[0] && rest[1] == tag[1] && rest[..2] == tag;
    LeadingSpacesUnique(rest, 0);
  }

  /** A digit in the hint can be captured before the tag: hint `x12` renames `Show.e05.mkv` to
      `x12E05.mkv`, whose episode number is `12`. */
  lemma ExampleDigitHint(s: string)
    requires s == "x12E05.mkv"
    ensures EpisodeNumber(s) == Some("12")
  {
    assert s[1..] == "12E05.mkv" && LeadingSpaces(s[1..]) == 0;
    assert s[1..][0..2] == "12" && DigitsAfterSpace(s[1..]) == Some("12");
    assert TagAt(s, 0) == Some("12");
  }

  /** How a run ends. `EmptyDirectory` and `NoFilesDetected` are the two failures; `Kept` is a
      plan declined at the confirmation prompt; `Renamed` carries the renames done. */
  datatype Outcome =
    | EmptyDirectory
    | NoFilesDetected
    | Kept(plan: seq<Change>)
    | Renamed(plan: seq<Change>, log: seq<(string, string)>)

  /** One run on the directory listing `files` with the hint `title`, and the exit code of
      `main`: 1 after either failure, 0 otherwise. `shouldConfirm` holds unless `-f`/`--force`
      was given, and `answer` is the line typed at the prompt. */
  method FormatDirectory(files: seq<string>, title: string, shouldConfirm: bool, answer: string)
    returns (outcome: Outcome, code: int)
    ensures outcome == EmptyDirectory <==> files == []
    ensures outcome == NoFilesDetected <==> files != [] && Matcher.MatchSet(files, title) == []
    ensures outcome.Kept? || outcome.Renamed? ==>
      outcome.plan == Plan(Matcher.MatchSet(files, title), title)
    ensures outcome.Kept? <==>
      files != [] && Matcher.MatchSet(files, title) != [] && shouldConfirm && answer != "yes" && answer != "y"
    ensures outcome.Renamed? ==> outcome.log == Renames(outcome.plan)
    ensures code == 0 || code == 1
    ensures code == 1 <==> files == [] || Matcher.MatchSet(files, title) == []
  {
    if files == [] {
      return EmptyDirectory, 1;
    }
    var matches := Matcher.FindMatches(files, title);
    if matches == [] {
      return NoFilesDetected, 1;
    }
    var changes := BuildPlan(matches, title);
    var shouldRename := true;
    if shouldConfirm {
      var choice := answer;
      if choice != "yes" && choice != "y" {
        shouldRename := false;
      }
    }
    if shouldRename {
      var log := ApplyPlan(changes);
      outcome := Renamed(changes, log);
    } else {
      outcome := Kept(changes);
    }
    code := 0;
  }
}
