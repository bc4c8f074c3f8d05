/** The pieces of Python's `str` type, of `ntpath` and of its `None`/exception conventions that
    the two scripts rely on, over ASCII text. Names follow the Python built-in each one models. */
module PyStr {

  /** Python's `None` next to a value. */
  datatype Option<+T> = None | Some(value: T)

  /** A call that either returns a value or raises an exception. */
  datatype Result<+T, +E> = Success(value: T) | Failure(error: E)

  /** `str.isspace()` and the regex class `\s`, on ASCII: space, the controls `\t` to `\r`
      and the information separators `\x1c` to `\x1f`. */
  predicate IsSpace(c: char) {
    c == ' ' || ('\t' <= c <= '\r') || ('\U{1C}' <= c <= '\U{1F}')
  }

  /** The regex class `\d`, on ASCII. */
  predicate IsDigit(c: char) { '0' <= c <= '9' }

  predicate IsUpper(c: char) { 'A' <= c <= 'Z' }

  predicate IsLower(c: char) { 'a' <= c <= 'z' }

  predicate IsLetter(c: char) { IsUpper(c) || IsLower(c) }

  predicate AllSpace(s: string) {
    forall i :: 0 <= i < |s| ==> IsSpace(s[i])
  }

  /** `str.lower()` on one ASCII character. */
  function LowerChar(c: char): (d: char)
    ensures IsUpper(c) ==> IsLower(d) && d as int == c as int + 32
    ensures !IsUpper(c) ==> d == c
  {
    if IsUpper(c) then (c as int + 32) as char else c
  }

  /** Characters with the same lower-case form agree on being blanks and digits, and a digit is
      its own only such partner. */
  lemma LowerCharAgrees(c: char, d: char)
    requires LowerChar(c) == LowerChar(d)
    ensures IsSpace(c) <==> IsSpace(d)
    ensures IsDigit(c) <==> IsDigit(d)
    ensures IsDigit(c) ==> c == d
  {
  }

  /** `str.lower()`. */
  function Lower(s: string): (r: string)
    ensures |r| == |s|
    ensures forall i :: 0 <= i < |s| ==> r[i] == LowerChar(s[i])
  {
    seq(|s|, i requires 0 <= i < |s| => LowerChar(s[i]))
  }

  /** `ntpath.normcase` on one character: '/' becomes '\\', letters become lower case. */
  function NormChar(c: char): char {
    if c == '/' then '\\' else LowerChar(c)
  }

  /** `ntpath.normcase`, which `fnmatch` applies to the name and to the pattern on Windows. */
  function NormCase(s: string): (r: string)
    ensures |r| == |s|
    ensures forall i :: 0 <= i < |s| ==> r[i] == NormChar(s[i])
  {
    seq(|s|, i requires 0 <= i < |s| => NormChar(s[i]))
  }

  lemma NormCaseAppend(a: string, b: string)
    ensures NormCase(a + b) == NormCase(a) + NormCase(b)
  {
  }

  /** `needle in hay` for strings: some suffix of `hay` starts with `needle`. */
  predicate IsSubstring(needle: string, hay: string)
    decreases |hay|
  {
    needle <= hay || (hay != [] && IsSubstring(needle, hay[1..]))
  }

  predicate OccursAt(needle: string, hay: string, i: nat) {
    i + |needle| <= |hay| && hay[i..i + |needle|] == needle
  }

  /** An occurrence found by the scan sits at some offset of `hay`. */
  lemma {:induction false} SubstringOccurs(needle: string, hay: string) returns (i: nat)
    requires IsSubstring(needle, hay)
    ensures OccursAt(needle, hay, i)
    decreases |hay|
  {
    if needle <= hay {
      i := 0;
      assert hay[..|needle|] == needle;
    } else {
      var j := SubstringOccurs(needle, hay[1..]);
      assert hay[1..][j..j + |needle|] == hay[j + 1..j + 1 + |needle|];
      i := j + 1;
    }
  }

  /** An occurrence at any offset is found by the scan. */
  lemma {:induction false} OccursSubstring(needle: string, hay: string, i: nat)
    requires OccursAt(needle, hay, i)
    ensures IsSubstring(needle, hay)
    decreases i
  {
    if i == 0 {
      assert hay[..|needle|] == needle;
    } else {
      assert hay[1..][i - 1..i - 1 + |needle|] == hay[i..i + |needle|];
      OccursSubstring(needle, hay[1..], i - 1);
    }
  }

  /** The scan finds the needle exactly when it occurs at some offset. */
  lemma SubstringIsOccurrence(needle: string, hay: string)
    ensures IsSubstring(needle, hay) <==> exists i :: OccursAt(needle, hay, i)
  {
    if IsSubstring(needle, hay) {
      var i := SubstringOccurs(needle, hay);
    }
    if exists i :: OccursAt(needle, hay, i) {
      var i :| OccursAt(needle, hay, i);
      OccursSubstring(needle, hay, i);
    }
  }

  /** `str.find(c)`: the first index of `c`, or -1. */
  function Find(s: string, c: char): (r: int)
    ensures -1 <= r < |s|
    ensures r >= 0 ==> s[r] == c
    ensures forall k :: 0 <= k < |s| && (r < 0 || k < r) ==> s[k] != c
  {
    if s == [] then -1
    else if s[0] == c then 0
    else
      var k := Find(s[1..], c);
      if k < 0 then -1 else k + 1
  }

  /** `s.find(c) != -1` is `c in s`. */
  lemma FindFound(s: string, c: char)
    ensures Find(s, c) != -1 <==> c in s
  {
  }

  /** `str.rfind(c)`: the last index of `c`, or -1. */
  function RFind(s: string, c: char): (r: int)
    ensures -1 <= r < |s|
    ensures r >= 0 ==> s[r] == c
    ensures forall k :: r < k < |s| ==> s[k] != c
  {
    if s == [] then -1
    else if s[|s| - 1] == c then |s| - 1
    else
      RFind(s[..|s| - 1], c)
  }

  /** `s.split(d, maxsplit=1)`: one piece when `d` does not occur, else the text before its
      first occurrence and the text after it. */
  function SplitOnce(s: string, d: char): (r: seq<string>)
    ensures |r| == 1 || |r| == 2
    ensures |r| == 1 ==> r[0] == s && Free(s, d)
    ensures |r| == 2 ==> r[0] + [d] + r[1] == s && Free(r[0], d)
  {
    var k := Find(s, d);
    if k < 0 then [s]
    else
      CutAt(s, k);
      [s[..k], s[k + 1..]]
  }

  /** Concatenation is associative; stated once over any element type, where it is cheap to
      prove. */
  lemma ConcatAssoc<T>(x: seq<T>, y: seq<T>, z: seq<T>)
    ensures x + y + z == x + (y + z)
  {
  }

  /** `s` does not hold `c`. */
  predicate Free(s: string, c: char) {
    forall k :: 0 <= k < |s| ==> s[k] != c
  }

  /** Cutting `s` around position `k`: what comes before it, the character, what follows. */
  lemma CutAt(s: string, k: nat)
    requires k < |s|
    ensures s[..k] + [s[k]] + s[k + 1..] == s
    ensures forall j :: 0 <= j < k ==> s[..k][j] == s[j]
  {
  }

  /** The split finds a separator exactly when `s` holds one. */
  lemma SplitOnceFound(s: string, d: char)
    ensures |SplitOnce(s, d)| == 2 <==> d in s
  {
    FindFound(s, d);
  }

  /** `s.split(d)` for a one-character separator: the pieces between occurrences of `d`,
      empty pieces included, so there is always at least one. */
  function Split(s: string, d: char): (r: seq<string>)
    ensures |r| >= 1
    decreases |s|
  {
    if s == [] then [""]
    else
      var rest := Split(s[1..], d);
      if s[0] == d then [""] + rest else [[s[0]] + rest[0]] + rest[1..]
  }

  /** `d.join(pieces)`. */
  function Join(pieces: seq<string>, d: char): string
    requires |pieces| >= 1
    decreases |pieces|
  {
    if |pieces| == 1 then pieces[0] else pieces[0] + [d] + Join(pieces[1..], d)
  }

  /** No piece of a split contains the separator. */
  lemma {:induction false} SplitPiecesFree(s: string, d: char)
    ensures forall k :: 0 <= k < |Split(s, d)| ==> d !in Split(s, d)[k]
    decreases |s|
  {
    if s != [] {
      SplitPiecesFree(s[1..], d);
    }
  }

  /** Joining the pieces of a split gives the string back. */
  lemma {:induction false} JoinSplit(s: string, d: char)
    ensures Join(Split(s, d), d) == s
    decreases |s|
  {
    if s != [] {
      var rest := Split(s[1..], d);
      JoinSplit(s[1..], d);
      if s[0] == d {
        assert Split(s, d) == [""] + rest;
        assert (([""] + rest)[1..]) == rest;
      } else {
        JoinConsHead(s[0], rest, d);
        assert s == [s[0]] + s[1..];
      }
    }
  }

  /** A character put in front of the first piece is put in front of the join. */
  lemma JoinConsHead(c: char, pieces: seq<string>, d: char)
    requires |pieces| >= 1
    ensures Join([[c] + pieces[0]] + pieces[1..], d) == [c] + Join(pieces, d)
  {
    var r := [[c] + pieces[0]] + pieces[1..];
    if |pieces| > 1 {
      assert r[1..] == pieces[1..];
      var j := Join(pieces[1..], d);
      assert Join(r, d) == [c] + pieces[0] + [d] + j;
      assert Join(pieces, d) == pieces[0] + [d] + j;
    }
  }

  /** Splitting a join of separator-free pieces gives the pieces back. */
  lemma {:induction false} SplitJoin(pieces: seq<string>, d: char)
    requires |pieces| >= 1
    requires forall k :: 0 <= k < |pieces| ==> d !in pieces[k]
    ensures Split(Join(pieces, d), d) == pieces
    decreases |pieces|, |pieces[0]|
  {
    var p := pieces[0];
    if p == [] {
      if |pieces| > 1 {
        var j := Join(pieces[1..], d);
        assert Join(pieces, d) == [d] + j;
        SplitJoin(pieces[1..], d);
        assert ([d] + j)[1..] == j;
        assert pieces == [""] + pieces[1..];
      }
    } else {
      var tail := [p[1..]] + pieces[1..];
      assert tail[1..] == pieces[1..];
      assert forall k :: 0 <= k < |tail| ==> d !in tail[k] by {
        assert forall k :: 1 <= k < |tail| ==> tail[k] == pieces[k];
        assert p == [p[0]] + p[1..];
      }
      SplitJoin(tail, d);
      var s := Join(pieces, d);
      if |pieces| == 1 {
        assert s == p && Join(tail, d) == p[1..];
      } else {
        assert s == p + [d] + Join(pieces[1..], d);
        assert Join(tail, d) == p[1..] + [d] + Join(pieces[1..], d);
      }
      assert s[0] == p[0] && s[1..] == Join(tail, d);
      assert p[0] != d by { assert p[0] in p; }
      assert [p[0]] + p[1..] == p;
    }
  }

  /** Length of the run of blanks that starts `s`. */
  function LeadingSpaces(s: string): (n: nat)
    ensures n <= |s| && AllSpace(s[..n])
    ensures n < |s| ==> !IsSpace(s[n])
  {
    if s != [] && IsSpace(s[0]) then
      var k := LeadingSpaces(s[1..]);
      assert s[..k + 1] == [s[0]] + s[1..][..k];
      k + 1
    else 0
  }

  /** The leading run of blanks is the only prefix of blanks not followed by a blank. */
  lemma {:induction false} LeadingSpacesUnique(s: string, n: nat)
    requires n <= |s| && AllSpace(s[..n])
    requires n < |s| ==> !IsSpace(s[n])
    ensures LeadingSpaces(s) == n
    decreases n
  {
    if n > 0 {
      assert s[..n][0] == s[0];
      assert s[1..][..n - 1] == s[..n][1..];
      LeadingSpacesUnique(s[1..], n - 1);
    }
  }

  /** Length of the run of blanks that ends `s`. */
  function TrailingSpaces(s: string): (n: nat)
    ensures n <= |s| && AllSpace(s[|s| - n..])
    ensures n < |s| ==> !IsSpace(s[|s| - n - 1])
  {
    if s != [] && IsSpace(s[|s| - 1]) then
      var init := s[..|s| - 1];
      var k := TrailingSpaces(init);
      assert s[|s| - (k + 1)..] == init[|init| - k..] + [s[|s| - 1]];
      k + 1
    else 0
  }

  /** `str.strip()`: `s` without its leading and trailing blanks. */
  function Strip(s: string): (r: string)
    ensures |r| <= |s|
    ensures r != [] ==> !IsSpace(r[0]) && !IsSpace(r[|r| - 1])
  {
    var i := LeadingSpaces(s);
    if i == |s| then []
    else
      var t := TrailingSpaces(s);
      assert t < |s| - i;
      s[i..|s| - t]
  }

  /** What `strip` removes is blanks only: the result stands in `s` between a blank prefix and
      a blank suffix. */
  lemma StripRemovesBlanks(s: string)
    ensures var r := Strip(s);
      exists i :: 0 <= i <= |s| - |r| && s[i..i + |r|] == r && AllSpace(s[..i]) && AllSpace(s[i + |r|..])
  {
    var r := Strip(s);
    var i := LeadingSpaces(s);
    if i == |s| {
      assert s[0..0] == [] && AllSpace(s[..0]) && AllSpace(s[0..]);
    } else {
      var t := TrailingSpaces(s);
      assert s[i..i + |r|] == r;
    }
  }

  /** Length of the run of non-blanks that starts `s`. */
  function WordLength(s: string): (n: nat)
    ensures n <= |s|
    ensures forall i :: 0 <= i < n ==> !IsSpace(s[i])
    ensures n < |s| ==> IsSpace(s[n])
  {
    if s == [] || IsSpace(s[0]) then 0 else 1 + WordLength(s[1..])
  }

  /** A word of `str.split()`: non-empty and free of blanks. */
  predicate IsWord(w: string) {
    w != [] && forall i :: 0 <= i < |w| ==> !IsSpace(w[i])
  }

  /** Every element is a word. */
  predicate AllWords(ws: seq<string>) {
    forall k :: 0 <= k < |ws| ==> IsWord(ws[k])
  }

  /** `str.split()` with no separator: the maximal runs of non-blanks, left to right. */
  function Words(s: string): (r: seq<string>)
    ensures AllWords(r)
    decreases |s|
  {
    if s == [] then []
    else if IsSpace(s[0]) then Words(s[1..])
    else
      var n := WordLength(s);
      [s[..n]] + Words(s[n..])
  }

  lemma {:induction false} WordLengthOfWord(w: string, rest: string)
    requires IsWord(w)
    requires rest == [] || IsSpace(rest[0])
    ensures WordLength(w + rest) == |w|
    decreases |w|
  {
    var s := w + rest;
    assert s[0] == w[0];
    if |w| > 1 {
      var w' := w[1..];
      assert s[1..] == w' + rest;
      assert IsWord(w') by {
        forall i | 0 <= i < |w'| ensures !IsSpace(w'[i]) { assert w'[i] == w[i + 1]; }
      }
      WordLengthOfWord(w', rest);
    } else {
      assert s[1..] == rest;
    }
  }

  /** Words joined by single spaces split back into the same words. */
  lemma {:induction false} WordsJoin(ws: seq<string>)
    requires |ws| >= 1
    requires AllWords(ws)
    ensures Words(Join(ws, ' ')) == ws
    decreases |ws|
  {
    var w := ws[0];
    var s := Join(ws, ' ');
    if |ws| == 1 {
      WordsCons(w, "");
      assert s == w + "";
    } else {
      var j := Join(ws[1..], ' ');
      var sj := [' '] + j;
      assert s == w + sj;
      WordsCons(w, sj);
      BlankThenWords(' ', j);
      WordsJoin(ws[1..]);
      assert ws == [w] + ws[1..];
    }
  }

  /** A leading blank of any kind is skipped. */
  lemma BlankThenWords(c: char, s: string)
    requires IsSpace(c)
    ensures Words([c] + s) == Words(s)
  {
    assert ([c] + s)[1..] == s;
  }

  /** A word followed by a blank or by nothing is the first word. */
  lemma WordsCons(w: string, rest: string)
    requires IsWord(w)
    requires rest == [] || IsSpace(rest[0])
    ensures Words(w + rest) == [w] + Words(rest)
  {
    var s := w + rest;
    WordLengthOfWord(w, rest);
    assert s[0] == w[0];
    assert s[..|w|] == w && s[|w|..] == rest;
  }
  /** The two path separators `ntpath` accepts. */
  predicate IsSep(c: char) { c == '\\' || c == '/' }

  /** Index of the last path separator of `p`, or -1: `max(p.rfind('\\'), p.rfind('/'))`. */
  function LastSep(p: string): (r: int)
    ensures -1 <= r < |p|
    ensures r >= 0 ==> IsSep(p[r])
    ensures forall k :: r < k < |p| ==> !IsSep(p[k])
  {
    if p == [] then -1 else if IsSep(p[|p| - 1]) then |p| - 1 else LastSep(p[..|p| - 1])
  }

  /** The final path component of `p` holds a '.' that comes after some other character of
      that component. */
  ghost predicate HasExtension(p: string) {
    exists i, j :: 0 <= i < j < |p| && p[i] != '.' && p[j] == '.' &&
      forall k :: i <= k < |p| ==> !IsSep(p[k])
  }

  /** `ntpath.splitext`: the extension runs from the last '.' to the end, provided that dot
      lies in the final path component and is not one of the dots that begin it. */
  function SplitExt(p: string): (r: (string, string))
    ensures r.0 + r.1 == p
    ensures r.1 != [] ==> r.1[0] == '.' && forall k :: 1 <= k < |r.1| ==> r.1[k] != '.' && !IsSep(r.1[k])
  {
    var sep := LastSep(p);
    var dot := RFind(p, '.');
    if dot > sep && exists i :: sep < i < dot && p[i] != '.' then
      (p[..dot], p[dot..])
    else
      assert p + "" == p;
      (p, "")
  }

  /** The extension is non-empty exactly when the final component has a '.' after one of its
      other characters. */
  lemma SplitExtHasExtension(p: string)
    ensures SplitExt(p).1 != [] <==> HasExtension(p)
  {
    if SplitExt(p).1 != [] {
      ExtensionWitness(p);
    }
    if HasExtension(p) {
      var i, j :| 0 <= i < j < |p| && p[i] != '.' && p[j] == '.' &&
        forall k :: i <= k < |p| ==> !IsSep(p[k]);
      ExtensionFound(p, i, j);
    }
  }

  lemma ExtensionWitness(p: string)
    requires SplitExt(p).1 != []
    ensures HasExtension(p)
  {
    var sep := LastSep(p);
    var dot := RFind(p, '.');
    var i :| sep < i < dot && p[i] != '.';
    assert 0 <= i < dot < |p| && p[i] != '.' && p[dot] == '.';
  }

  lemma ExtensionFound(p: string, i: nat, j: nat)
    requires i < j < |p| && p[i] != '.' && p[j] == '.'
    requires forall k :: i <= k < |p| ==> !IsSep(p[k])
    ensures SplitExt(p).1 != []
  {
    var sep := LastSep(p);
    var dot := RFind(p, '.');
    assert j <= dot;
    assert sep < i;
    assert sep < i < dot && p[i] != '.';
  }

  /** A stem that does not end in a dot or a separator, followed by an extension, splits back
      into the stem and that extension. */
  lemma SplitExtJoin(stem: string, ext: string)
    requires stem != [] && stem[|stem| - 1] != '.' && !IsSep(stem[|stem| - 1])
    requires |ext| >= 1 && ext[0] == '.'
    requires forall k :: 1 <= k < |ext| ==> ext[k] != '.' && !IsSep(ext[k])
    ensures SplitExt(stem + ext) == (stem, ext)
  {
    var p := stem + ext;
    var n := |stem|;
    forall k | n < k < |p| ensures p[k] != '.' && !IsSep(p[k]) {
      assert p[k] == ext[k - n];
    }
    assert p[n] == '.' && p[n - 1] == stem[n - 1];
    var sep := LastSep(p);
    var dot := RFind(p, '.');
    assert dot == n;
    assert sep < n - 1 < dot && p[n - 1] != '.';
    assert p[..dot] == stem && p[dot..] == ext;
  }
}
