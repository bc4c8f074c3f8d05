/** `split_camel_case`: `re.findall(r'[A-Z](?:[a-z]+|[A-Z]*(?=[A-Z]|$))', text)`. */
module CamelCase {
  import opened PyStr

  /** Number of lower-case letters in the run that starts at `i`. */
  function LowerRun(s: string, i: nat): (n: nat)
    requires i <= |s|
    ensures i + n <= |s|
    ensures forall k :: i <= k < i + n ==> IsLower(s[k])
    ensures i + n < |s| ==> !IsLower(s[i + n])
    decreases |s| - i
  {
    if i < |s| && IsLower(s[i]) then 1 + LowerRun(s, i + 1) else 0
  }

  /** Number of upper-case letters in the run that starts at `i`. */
  function UpperRun(s: string, i: nat): (n: nat)
    requires i <= |s|
    ensures i + n <= |s|
    ensures forall k :: i <= k < i + n ==> IsUpper(s[k])
    ensures i + n < |s| ==> !IsUpper(s[i + n])
    decreases |s| - i
  {
    if i < |s| && IsUpper(s[i]) then 1 + UpperRun(s, i + 1) else 0
  }

  /** Length of the match of the pattern at `p`, or 0 when it does not match there. After the
      capital, `[a-z]+` is tried first and takes every lower-case letter; otherwise `[A-Z]*`
      takes every capital and gives one back unless it reached the end, since the look-ahead
      wants a capital or the end next. */
  function MatchLen(s: string, p: nat): (n: nat)
    requires p <= |s|
    ensures p + n <= |s|
    ensures n > 0 ==> IsUpper(s[p])
    ensures n == 0 && p < |s| && IsUpper(s[p]) ==> p + 1 < |s| && !IsLetter(s[p + 1])
  {
    if p == |s| || !IsUpper(s[p]) then 0
    else if LowerRun(s, p + 1) > 0 then 1 + LowerRun(s, p + 1)
    else
      var u := UpperRun(s, p + 1);
      if p + 1 + u == |s| then 1 + u
      else if u > 0 then u
      else 0
  }

  /** A match is a capitalised word that takes every lower-case letter after the capital, or a
      run of capitals that reaches the end of the text or stops one capital short of the end of
      its run: the longest run the look-ahead allows. */
  lemma MatchShape(s: string, p: nat)
    requires p <= |s|
    ensures var n := MatchLen(s, p);
      n > 0 ==>
      || (n >= 2 && (forall k :: p < k < p + n ==> IsLower(s[k])) && (p + n < |s| ==> !IsLower(s[p + n])))
      || ((forall k :: p < k < p + n ==> IsUpper(s[k])) &&
          (p + n == |s| || (IsUpper(s[p + n]) && p + n + 1 < |s| && !IsUpper(s[p + n + 1]))))
  {
  }

  /** `re.findall` scanning from `p`: where each match starts and ends. A match resumes the scan
      at its end; a failed attempt moves on by one character. */
  function SpansFrom(s: string, p: nat): (r: seq<(nat, nat)>)
    requires p <= |s|
    ensures forall i :: 0 <= i < |r| ==> p <= r[i].0 < r[i].1 <= |s|
    decreases |s| - p
  {
    if p == |s| then []
    else
      var n := MatchLen(s, p);
      if n > 0 then [(p, p + n)] + SpansFrom(s, p + n) else SpansFrom(s, p + 1)
  }

  /** Each span is the match of the pattern at its start. */
  lemma {:induction false} SpansAreMatches(s: string, p: nat)
    requires p <= |s|
    ensures forall i :: 0 <= i < |SpansFrom(s, p)| ==>
      MatchLen(s, SpansFrom(s, p)[i].0) == SpansFrom(s, p)[i].1 - SpansFrom(s, p)[i].0
    decreases |s| - p
  {
    if p < |s| {
      var n := MatchLen(s, p);
      if n > 0 {
        SpansAreMatches(s, p + n);
        var rest := SpansFrom(s, p + n);
        assert SpansFrom(s, p) == [(p, p + n)] + rest;
      } else {
        SpansAreMatches(s, p + 1);
      }
    }
  }

  /** `split_camel_case(text)`: the matched texts, left to right. */
  function SplitCamelCase(text: string): (r: seq<string>)
    ensures |r| == |SpansFrom(text, 0)|
    ensures forall i :: 0 <= i < |r| ==>
      r[i] == text[SpansFrom(text, 0)[i].0..SpansFrom(text, 0)[i].1]
  {
    var spans := SpansFrom(text, 0);
    seq(|spans|, i requires 0 <= i < |spans| => text[spans[i].0..spans[i].1])
  }

  /** Every token starts with a capital and holds only letters. It is a capitalised word with
      every lower-case letter after the capital, or a run of capitals that ends the text or is
      followed by exactly one more capital and then no capital. No token is directly followed
      by a lower-case letter. */
  lemma TokenShape(text: string, i: nat)
    requires i < |SplitCamelCase(text)|
    ensures var t := SplitCamelCase(text)[i];
      var e := SpansFrom(text, 0)[i].1;
      && |t| >= 1 && IsUpper(t[0])
      && (forall k :: 0 <= k < |t| ==> IsLetter(t[k]))
      && (|| (|t| >= 2 && forall k :: 1 <= k < |t| ==> IsLower(t[k]))
          || ((forall k :: 0 <= k < |t| ==> IsUpper(t[k])) &&
              (e == |text| || (IsUpper(text[e]) && e + 1 < |text| && !IsUpper(text[e + 1])))))
      && (e < |text| ==> !IsLower(text[e]))
  {
    var spans := SpansFrom(text, 0);
    var (a, b) := spans[i];
    var t := SplitCamelCase(text)[i];
    SpansAreMatches(text, 0);
    assert t == text[a..b];
    assert MatchLen(text, a) == b - a;
    MatchShape(text, a);
    forall k | 0 <= k < |t| ensures t[k] == text[a + k] { }
  }

  /** The tokens are disjoint stretches of the text, in text order. */
  lemma {:induction false} TokensInOrder(s: string, p: nat)
    requires p <= |s|
    ensures forall i, j :: 0 <= i < j < |SpansFrom(s, p)| ==> SpansFrom(s, p)[i].1 <= SpansFrom(s, p)[j].0
    decreases |s| - p
  {
    if p < |s| {
      var n := MatchLen(s, p);
      if n > 0 {
        TokensInOrder(s, p + n);
        var rest := SpansFrom(s, p + n);
        assert SpansFrom(s, p) == [(p, p + n)] + rest;
      } else {
        TokensInOrder(s, p + 1);
      }
    }
  }

  /** Is position `k` inside one of the matches? */
  ghost predicate Covered(spans: seq<(nat, nat)>, k: nat) {
    exists i :: 0 <= i < |spans| && spans[i].0 <= k < spans[i].1
  }

  /** Nothing is skipped without reason: a capital that ends the text or is followed by a
      letter lies inside a token. */
  lemma {:induction false} CapitalCovered(s: string, p: nat, k: nat)
    requires p <= k < |s| && IsUpper(s[k]) && (k + 1 == |s| || IsLetter(s[k + 1]))
    ensures Covered(SpansFrom(s, p), k)
    decreases |s| - p
  {
    var n := MatchLen(s, p);
    if n > 0 {
      var rest := SpansFrom(s, p + n);
      assert SpansFrom(s, p) == [(p, p + n)] + rest;
      if k >= p + n {
        CapitalCovered(s, p + n, k);
        CoveredCons((p, p + n), rest, k);
      } else {
        assert ([(p, p + n)] + rest)[0] == (p, p + n);
      }
    } else {
      if k == p {
        assert false;
      }
      CapitalCovered(s, p + 1, k);
    }
  }

  lemma CoveredCons(h: (nat, nat), rest: seq<(nat, nat)>, k: nat)
    requires Covered(rest, k)
    ensures Covered([h] + rest, k)
  {
    var i :| 0 <= i < |rest| && rest[i].0 <= k < rest[i].1;
    assert ([h] + rest)[i + 1] == rest[i];
  }

  /** Without a capital from `p` on, the scan finds nothing: so a hint without a capital
      yields no token. */
  lemma {:induction false} NoCapitalNoToken(s: string, p: nat)
    requires p <= |s|
    requires forall k :: p <= k < |s| ==> !IsUpper(s[k])
    ensures SpansFrom(s, p) == []
    decreases |s| - p
  {
    if p < |s| {
      NoCapitalNoToken(s, p + 1);
    }
  }

  /** `FOOBar` gives `[FOO, Bar]`: the capitals give back the `B` that starts the next word. */
  lemma ExampleAcronym(s: string)
    requires s == "FOOBar"
    ensures SplitCamelCase(s) == ["FOO", "Bar"]
  {
    assert UpperRun(s, 4) == 0 && UpperRun(s, 3) == 1 && UpperRun(s, 2) == 2;
    assert LowerRun(s, 1) == 0 && UpperRun(s, 1) == 3;
    assert MatchLen(s, 0) == 3;
    assert LowerRun(s, 6) == 0 && LowerRun(s, 5) == 1;
    assert LowerRun(s, 4) == 2;
    assert MatchLen(s, 3) == 3;
    assert SpansFrom(s, 6) == [];
    assert SpansFrom(s, 0) == [(0, 3), (3, 6)];
    assert s[0..3] == "FOO" && s[3..6] == "Bar";
  }

  /** `TV Show` gives `[T, Show]`: the `V` before a blank matches neither alternative. */
  lemma ExampleBlank(s: string)
    requires s == "TV Show"
    ensures SplitCamelCase(s) == ["T", "Show"]
  {
    BlankSpans(s);
    var r := SplitCamelCase(s);
    assert |r| == 2 && r[0] == s[0..1] && r[1] == s[3..7];
    assert s[0..1] == "T" && s[3..7] == "Show";
  }

  lemma BlankSpans(s: string)
    requires s == "TV Show"
    ensures SpansFrom(s, 0) == [(0, 1), (3, 7)]
  {
    assert LowerRun(s, 1) == 0 && UpperRun(s, 1) == 1;
    assert MatchLen(s, 0) == 1;
    assert LowerRun(s, 2) == 0 && UpperRun(s, 2) == 0;
    assert MatchLen(s, 1) == 0;
    assert MatchLen(s, 2) == 0;
    assert LowerRun(s, 4) == 3;
    assert MatchLen(s, 3) == 4;
    assert SpansFrom(s, 7) == [];
    assert SpansFrom(s, 3) == [(3, 7)];
    assert SpansFrom(s, 1) == SpansFrom(s, 2) == SpansFrom(s, 3);
  }
}
