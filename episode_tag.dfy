/** `get_episode_num_string`: `re.search` of `(?ix)(?:e|x|episode|^)\s*(\d{2})` in a file name,
    returning group 1 of the leftmost match. */
module EpisodeTag {
  import opened PyStr

  /** `\s*(\d{2})` anchored at the start of `s`: the two digits after the leading blanks. */
  function DigitsAfterSpace(s: string): (r: Option<string>)
    ensures r.Some? ==> |r.value| == 2 && IsDigit(r.value[0]) && IsDigit(r.value[1])
  {
    var n := LeadingSpaces(s);
    if n + 2 <= |s| && IsDigit(s[n]) && IsDigit(s[n + 1]) then Some(s[n..n + 2]) else None
  }

  /** Taking every leading blank is the only way `\s*(\d{2})` can match, since a digit is not a
      blank: backtracking `\s*` never helps. So the function finds the two digits exactly when
      some run of blanks is followed by two digits. */
  lemma DigitsAfterSpaceIsRegex(s: string)
    ensures DigitsAfterSpace(s).Some? ==> exists n :: (0 <= n && n + 2 <= |s| && AllSpace(s[..n]) &&
      IsDigit(s[n]) && IsDigit(s[n + 1]) && DigitsAfterSpace(s).value == s[n..n + 2])
    ensures DigitsAfterSpace(s).None? ==> forall n :: 0 <= n && n + 2 <= |s| && AllSpace(s[..n]) ==>
      !(IsDigit(s[n]) && IsDigit(s[n + 1]))
  {
    var n := LeadingSpaces(s);
    forall m | n < m <= |s| ensures !AllSpace(s[..m]) {
      assert s[..m][n] == s[n];
    }
  }

  /** The prefix alternatives `e | x | episode | ^`, case-insensitively: can one of them, tried
      at `p`, end at `q`? */
  predicate PrefixEndsAt(s: string, p: nat, q: nat) {
    && p <= q <= |s|
    && (|| (q == p + 1 && (LowerChar(s[p]) == 'e' || LowerChar(s[p]) == 'x'))
        || (q == p + 7 && Lower(s[p..q]) == "episode")
        || (q == p && p == 0))
  }

  /** The regex, as a relation: some alternative starting at `p` is followed by `\s*` and the two
      digits `t`. */
  ghost predicate MatchesAt(s: string, p: nat, t: string) {
    exists q: nat :: PrefixEndsAt(s, p, q) && DigitsAfterSpace(s[q..]) == Some(t)
  }

  /** The alternative `e` or `x` (the letter `c`) at `p`, followed by `\s*(\d{2})`. */
  function ViaLetter(s: string, p: nat, c: char): Option<string>
    requires p <= |s|
  {
    if p < |s| && LowerChar(s[p]) == c then DigitsAfterSpace(s[p + 1..]) else None
  }

  /** The alternative `episode` at `p`, followed by `\s*(\d{2})`. */
  function ViaEpisode(s: string, p: nat): Option<string>
    requires p <= |s|
  {
    if p + 7 <= |s| && Lower(s[p..p + 7]) == "episode" then DigitsAfterSpace(s[p + 7..]) else None
  }

  /** The alternative `^` at `p`, followed by `\s*(\d{2})`. */
  function ViaStart(s: string, p: nat): Option<string> {
    if p == 0 then DigitsAfterSpace(s) else None
  }

  /** What the regex engine captures when it starts at `p`: the alternatives in their order. */
  function TagAt(s: string, p: nat): (r: Option<string>)
    requires p <= |s|
    ensures r.Some? ==> |r.value| == 2 && IsDigit(r.value[0]) && IsDigit(r.value[1])
  {
    if ViaLetter(s, p, 'e').Some? then ViaLetter(s, p, 'e')
    else if ViaLetter(s, p, 'x').Some? then ViaLetter(s, p, 'x')
    else if ViaEpisode(s, p).Some? then ViaEpisode(s, p)
    else ViaStart(s, p)
  }

  /** Trying the alternatives in order finds a match at `p` exactly when the regex, read as a
      relation, has one there. */
  lemma TagAtIsRegex(s: string, p: nat)
    requires p <= |s|
    ensures TagAt(s, p).Some? ==> MatchesAt(s, p, TagAt(s, p).value)
    ensures TagAt(s, p).None? ==> forall t :: !MatchesAt(s, p, t)
  {
    assert p == 0 ==> s[p..] == s;
    var r := TagAt(s, p);
    if r.Some? {
      if p < |s| && (LowerChar(s[p]) == 'e' || LowerChar(s[p]) == 'x') && DigitsAfterSpace(s[p + 1..]).Some? {
        assert PrefixEndsAt(s, p, p + 1);
      } else if p + 7 <= |s| && Lower(s[p..p + 7]) == "episode" && DigitsAfterSpace(s[p + 7..]).Some? {
        assert PrefixEndsAt(s, p, p + 7);
      } else {
        assert PrefixEndsAt(s, 0, 0);
      }
    }
  }

  /** `re.search` from position `p` on: the first start position at which the regex matches,
      or -1 when there is none. */
  function SearchFrom(s: string, p: nat): (k: int)
    requires p <= |s|
    ensures k == -1 || (p <= k <= |s| && TagAt(s, k).Some?)
    ensures forall j :: p <= j <= |s| && (k == -1 || j < k) ==> TagAt(s, j).None?
    decreases |s| - p
  {
    if TagAt(s, p).Some? then p
    else if p == |s| then -1
    else SearchFrom(s, p + 1)
  }

  /** `get_episode_num_string(filename)`: group 1 of the leftmost match, or `None`. */
  function EpisodeNumber(filename: string): (r: Option<string>)
    ensures r.Some? ==> |r.value| == 2 && IsDigit(r.value[0]) && IsDigit(r.value[1])
  {
    var k := SearchFrom(filename, 0);
    if k < 0 then None else TagAt(filename, k)
  }

  /** The tag is the capture of the leftmost position where the regex matches, and there is no
      tag exactly when it matches nowhere. */
  lemma EpisodeNumberIsLeftmostMatch(filename: string)
    ensures EpisodeNumber(filename).Some? ==> exists k :: (0 <= k <= |filename| &&
      MatchesAt(filename, k, EpisodeNumber(filename).value) &&
      forall j, t :: 0 <= j < k ==> !MatchesAt(filename, j, t))
    ensures EpisodeNumber(filename).None? ==> forall k, t :: 0 <= k <= |filename| ==> !MatchesAt(filename, k, t)
  {
    var k := SearchFrom(filename, 0);
    if k >= 0 {
      TagAtIsRegex(filename, k);
      forall j, t | 0 <= j < k ensures !MatchesAt(filename, j, t) {
        TagAtIsRegex(filename, j);
      }
    } else {
      forall j, t | 0 <= j <= |filename| ensures !MatchesAt(filename, j, t) {
        TagAtIsRegex(filename, j);
      }
    }
  }

  /** A name that starts with optional blanks and two digits yields those digits (`^`). */
  lemma LeadingDigits(filename: string, n: nat)
    requires n + 2 <= |filename| && AllSpace(filename[..n])
    requires IsDigit(filename[n]) && IsDigit(filename[n + 1])
    ensures EpisodeNumber(filename) == Some(filename[n..n + 2])
  {
    var s := filename;
    LeadingSpacesUnique(s, n);
    assert LowerChar(s[0]) != 'e' && LowerChar(s[0]) != 'x' by {
      if n > 0 { assert s[..n][0] == s[0]; }
    }
    if 7 <= |s| { assert Lower(s[0..7])[0] == LowerChar(s[0]); }
    assert s[0..] == s;
    assert TagAt(s, 0) == Some(s[n..n + 2]);
  }

  /** Past the start, no match begins at a character other than `e`, `E`, `x` or `X`: the
      `episode` alternative begins with `e` as well. */
  lemma NoPrefixLetterNoTag(s: string, k: nat)
    requires 0 < k <= |s|
    requires k < |s| ==> LowerChar(s[k]) != 'e' && LowerChar(s[k]) != 'x'
    ensures TagAt(s, k).None?
  {
    if k + 7 <= |s| {
      assert Lower(s[k..k + 7])[0] == LowerChar(s[k]);
    }
  }

  /** A name without `e`, `E`, `x` or `X` yields a tag only through `^`: digits after some
      leading blanks. So `Show_01.mkv` yields none. */
  lemma {:induction false} OnlyLeadingDigitsWithoutPrefixLetter(filename: string)
    requires forall i :: 0 <= i < |filename| ==> LowerChar(filename[i]) != 'e' && LowerChar(filename[i]) != 'x'
    ensures EpisodeNumber(filename) == DigitsAfterSpace(filename)
  {
    var s := filename;
    assert s[0..] == s;
    forall k | 0 < k <= |s| ensures TagAt(s, k).None? {
      NoPrefixLetterNoTag(s, k);
    }
    if 7 <= |s| { assert Lower(s[0..7])[0] == LowerChar(s[0]); }
    assert TagAt(s, 0) == DigitsAfterSpace(s);
  }

  /** Strings with the same lower-case form have their leading blanks and digits in common. */
  lemma DigitsAfterSpaceIgnoresCase(s: string, t: string)
    requires Lower(s) == Lower(t)
    ensures DigitsAfterSpace(s) == DigitsAfterSpace(t)
  {
    var n := LeadingSpaces(s);
    forall i | 0 <= i < n ensures IsSpace(t[..n][i]) {
      SameClass(s, t, i);
      assert s[..n][i] == s[i];
    }
    if n < |s| {
      SameClass(s, t, n);
    }
    LeadingSpacesUnique(t, n);
    if n + 2 <= |s| {
      SameClass(s, t, n);
      SameClass(s, t, n + 1);
      if IsDigit(s[n]) && IsDigit(s[n + 1]) {
        assert s[n..n + 2] == t[n..n + 2];
      }
    }
  }

  /** At each position, strings with the same lower-case form agree on blanks and digits. */
  lemma SameClass(s: string, t: string, i: nat)
    requires Lower(s) == Lower(t) && i < |s|
    ensures i < |t|
    ensures IsSpace(s[i]) <==> IsSpace(t[i])
    ensures IsDigit(s[i]) <==> IsDigit(t[i])
    ensures IsDigit(s[i]) ==> s[i] == t[i]
  {
    assert Lower(s)[i] == Lower(t)[i];
    LowerCharAgrees(s[i], t[i]);
  }

  lemma LowerSlice(s: string, t: string, i: nat, j: nat)
    requires Lower(s) == Lower(t) && i <= j <= |s|
    ensures Lower(s[i..j]) == Lower(t[i..j]) && Lower(s[i..]) == Lower(t[i..])
  {
    forall k | 0 <= k < j - i ensures Lower(s[i..j])[k] == Lower(t[i..j])[k] {
      assert Lower(s)[i + k] == Lower(t)[i + k];
    }
    forall k | 0 <= k < |s| - i ensures Lower(s[i..])[k] == Lower(t[i..])[k] {
      assert Lower(s)[i + k] == Lower(t)[i + k];
    }
  }

  /** The search ignores case: `e05` and `E05` give the same tag. */
  lemma {:induction false} EpisodeNumberIgnoresCase(s: string, t: string)
    requires Lower(s) == Lower(t)
    ensures EpisodeNumber(s) == EpisodeNumber(t)
  {
    forall k | 0 <= k <= |s| ensures TagAt(s, k) == TagAt(t, k) {
      TagAtIgnoresCase(s, t, k);
    }
    SearchAgrees(s, t, 0);
  }

  lemma TagAtIgnoresCase(s: string, t: string, k: nat)
    requires Lower(s) == Lower(t) && k <= |s|
    ensures TagAt(s, k) == TagAt(t, k)
  {
    LetterIgnoresCase(s, t, k, 'e');
    LetterIgnoresCase(s, t, k, 'x');
    EpisodeIgnoresCase(s, t, k);
    DigitsAfterSpaceIgnoresCase(s, t);
  }

  lemma LetterIgnoresCase(s: string, t: string, k: nat, c: char)
    requires Lower(s) == Lower(t) && k <= |s|
    ensures ViaLetter(s, k, c) == ViaLetter(t, k, c)
  {
    if k < |s| {
      assert Lower(s)[k] == Lower(t)[k];
      LowerSlice(s, t, k + 1, k + 1);
      DigitsAfterSpaceIgnoresCase(s[k + 1..], t[k + 1..]);
    }
  }

  lemma EpisodeIgnoresCase(s: string, t: string, k: nat)
    requires Lower(s) == Lower(t) && k <= |s|
    ensures ViaEpisode(s, k) == ViaEpisode(t, k)
  {
    if k + 7 <= |s| {
      LowerSlice(s, t, k, k + 7);
      LowerSlice(s, t, k + 7, k + 7);
      DigitsAfterSpaceIgnoresCase(s[k + 7..], t[k + 7..]);
    }
  }

  lemma {:induction false} SearchAgrees(s: string, t: string, p: nat)
    requires |s| == |t| && p <= |s|
    requires forall k :: 0 <= k <= |s| ==> TagAt(s, k) == TagAt(t, k)
    ensures SearchFrom(s, p) == SearchFrom(t, p)
    decreases |s| - p
  {
    if p < |s| && TagAt(s, p).None? {
      SearchAgrees(s, t, p + 1);
    }
  }

  /** A longer run of digits gives its first two. */
  lemma ExampleLongRun(a: string)
    requires a == "E123"
    ensures EpisodeNumber(a) == Some("12")
  {
    assert a[1..] == "123" && LeadingSpaces("123") == 0 && "123"[0..2] == "12";
    assert DigitsAfterSpace("123") == Some("12");
    assert TagAt(a, 0) == Some("12");
  }

  /** The leftmost match wins: `S01` has no prefix letter, so `E02` is found before `E03`. */
  lemma ExampleLeftmost(b: string)
    requires b == "Show.S01E02E03.mkv"
    ensures EpisodeNumber(b) == Some("02")
  {
    LeftmostPrefixNone(b);
    assert b[9..] == "02E03.mkv" && LeadingSpaces(b[9..]) == 0;
    assert b[9..][0..2] == "02" && DigitsAfterSpace(b[9..]) == Some("02");
    assert LowerChar(b[8]) == 'e';
    assert TagAt(b, 8) == Some("02");
    SearchSkips(b, 0, 8);
  }

  lemma LeftmostPrefixNone(b: string)
    requires b == "Show.S01E02E03.mkv"
    ensures forall k :: 0 <= k < 8 ==> TagAt(b, k).None?
  {
    assert b[0..] == b && LeadingSpaces(b) == 0;
    assert Lower(b[0..7])[0] == LowerChar(b[0]);
    assert TagAt(b, 0).None?;
    forall k | 0 < k < 8 ensures TagAt(b, k).None? {
      NoPrefixLetterNoTag(b, k);
    }
  }

  /** An underscore is not a prefix, so these names carry no tag. */
  lemma ExampleUnderscore(s: string)
    requires s == "Show_01.mkv"
    ensures EpisodeNumber(s) == None
  {
    OnlyLeadingDigitsWithoutPrefixLetter(s);
    assert LeadingSpaces(s) == 0;
  }

  /** The same holds for a name written in camel case. */
  lemma ExampleCamelUnderscore(s: string)
    requires s == "MyCoolShow_01.mp4"
    ensures EpisodeNumber(s) == None
  {
    OnlyLeadingDigitsWithoutPrefixLetter(s);
    assert LeadingSpaces(s) == 0;
  }

  lemma {:induction false} SearchSkips(s: string, p: nat, k: nat)
    requires p <= k <= |s|
    requires forall j :: p <= j < k ==> TagAt(s, j).None?
    ensures SearchFrom(s, p) == SearchFrom(s, k)
    decreases k - p
  {
    if p < k {
      SearchSkips(s, p + 1, k);
    }
  }
}
