/** The matching cascade of the media directory formatter: which files of a directory listing
    the hint selects. Each candidate token is turned into the pattern `*token*`; the first
    token whose pattern selects at least one file wins. */
module Matcher {
  import opened PyStr
  import CamelCase

  /** `fnmatch` of `name` against `*token*`: with Windows' `normcase` on both sides, a match
      is an occurrence of the token anywhere in the name. */
  predicate Matches(name: string, token: string) {
    IsSubstring(NormCase(token), NormCase(name))
  }

  /** A name matches exactly when the normalised token occurs at some offset of the normalised
      name. */
  lemma MatchesIsOccurrence(name: string, token: string)
    ensures Matches(name, token) <==> exists i :: OccursAt(NormCase(token), NormCase(name), i)
  {
    SubstringIsOccurrence(NormCase(token), NormCase(name));
  }

  /** `fnmatch.filter(files, f"*{token}*")`: the names that match, in listing order. */
  function Filter(files: seq<string>, token: string): (r: seq<string>)
    ensures |r| <= |files|
    ensures forall x :: x in r <==> x in files && Matches(x, token)
  {
    if files == [] then []
    else (if Matches(files[0], token) then [files[0]] else []) + Filter(files[1..], token)
  }

  /** `xs` is `ys` with some elements left out, the rest kept in order. */
  predicate IsSubsequence<T(==)>(xs: seq<T>, ys: seq<T>)
    decreases |ys|
  {
    || xs == []
    || (ys != [] && ((xs[0] == ys[0] && IsSubsequence(xs[1..], ys[1..])) || IsSubsequence(xs, ys[1..])))
  }

  /** Filtering keeps the listing's order. */
  lemma {:induction false} FilterIsSubsequence(files: seq<string>, token: string)
    ensures IsSubsequence(Filter(files, token), files)
    decreases |files|
  {
    if files != [] {
      FilterIsSubsequence(files[1..], token);
      var rest := Filter(files[1..], token);
      if Matches(files[0], token) {
        assert Filter(files, token) == [files[0]] + rest;
        assert ([files[0]] + rest)[1..] == rest;
      } else {
        assert Filter(files, token) == rest;
      }
    }
  }

  /** No name occurs twice, as in a directory listing. */
  predicate Distinct(xs: seq<string>) {
    forall i, j :: 0 <= i < j < |xs| ==> xs[i] != xs[j]
  }

  /** A listing without repeated names filters to one without repeated names. */
  lemma {:induction false} FilterDistinct(files: seq<string>, token: string)
    requires Distinct(files)
    ensures Distinct(Filter(files, token))
    decreases |files|
  {
    if files != [] {
      var tail := files[1..];
      assert Distinct(tail) by {
        forall i, j | 0 <= i < j < |tail| ensures tail[i] != tail[j] {
          assert tail[i] == files[i + 1] && tail[j] == files[j + 1];
        }
      }
      FilterDistinct(tail, token);
      assert files[0] !in tail by {
        forall j | 0 <= j < |tail| ensures tail[j] != files[0] {
          assert tail[j] == files[j + 1];
        }
      }
      var rest := Filter(tail, token);
      if Matches(files[0], token) {
        var r := [files[0]] + rest;
        assert Filter(files, token) == r;
        forall i, j | 0 <= i < j < |r| ensures r[i] != r[j] {
          assert r[j] == rest[j - 1];
          if i > 0 {
            assert r[i] == rest[i - 1];
          } else {
            assert r[j] in rest;
            assert r[j] in tail;
          }
        }
      } else {
        assert Filter(files, token) == rest;
      }
    }
  }

  /** A name that starts with the token matches it. */
  lemma PrefixMatches(token: string, rest: string)
    ensures Matches(token + rest, token)
  {
    NormCaseAppend(token, rest);
    assert NormCase(token) <= NormCase(token + rest);
  }

  /** The empty token, and so the pattern `**`, selects every file. */
  lemma {:induction false} FilterEmptyToken(files: seq<string>)
    ensures Filter(files, "") == files
    decreases |files|
  {
    if files != [] {
      assert NormCase("") <= NormCase(files[0]);
      FilterEmptyToken(files[1..]);
    }
  }

  /** The result of trying `tokens` in order: the selection of the first token that selects
      anything, or nothing. */
  function FirstHit(files: seq<string>, tokens: seq<string>): seq<string>
    decreases |tokens|
  {
    if tokens == [] then []
    else if Filter(files, tokens[0]) != [] then Filter(files, tokens[0])
    else FirstHit(files, tokens[1..])
  }

  /** Trying tokens in order selects nothing exactly when every token selects nothing; otherwise
      it selects what the first successful token selects. */
  lemma {:induction false} FirstHitIsFirstSuccess(files: seq<string>, tokens: seq<string>)
    ensures FirstHit(files, tokens) == [] <==> forall i :: 0 <= i < |tokens| ==> Filter(files, tokens[i]) == []
    ensures FirstHit(files, tokens) != [] ==> exists i :: (0 <= i < |tokens| &&
      FirstHit(files, tokens) == Filter(files, tokens[i]) &&
      forall j :: 0 <= j < i ==> Filter(files, tokens[j]) == [])
    decreases |tokens|
  {
    if tokens != [] && Filter(files, tokens[0]) == [] {
      var tail := tokens[1..];
      FirstHitIsFirstSuccess(files, tail);
      if FirstHit(files, tail) != [] {
        var i :| 0 <= i < |tail| && FirstHit(files, tail) == Filter(files, tail[i]) &&
          forall j :: 0 <= j < i ==> Filter(files, tail[j]) == [];
        assert tokens[i + 1] == tail[i];
        forall j | 0 <= j < i + 1 ensures Filter(files, tokens[j]) == [] {
          if j > 0 { assert tokens[j] == tail[j - 1]; }
        }
      } else {
        forall i | 0 <= i < |tokens| ensures Filter(files, tokens[i]) == [] {
          if i > 0 { assert tokens[i] == tail[i - 1]; }
        }
      }
    }
  }

  /** Once a prefix of the tokens selects something, the tokens after it are never tried. */
  lemma {:induction false} FirstHitPrefix(files: seq<string>, ts: seq<string>, us: seq<string>)
    requires FirstHit(files, ts) != []
    ensures FirstHit(files, ts + us) == FirstHit(files, ts)
    decreases |ts|
  {
    assert (ts + us)[0] == ts[0];
    if Filter(files, ts[0]) == [] {
      assert (ts + us)[1..] == ts[1..] + us;
      FirstHitPrefix(files, ts[1..], us);
    }
  }

  /** When a prefix selects nothing, the result is that of the tokens after it. */
  lemma {:induction false} FirstHitSkip(files: seq<string>, ts: seq<string>, us: seq<string>)
    requires FirstHit(files, ts) == []
    ensures FirstHit(files, ts + us) == FirstHit(files, us)
    decreases |ts|
  {
    if ts != [] {
      assert (ts + us)[0] == ts[0];
      assert (ts + us)[1..] == ts[1..] + us;
      FirstHitSkip(files, ts[1..], us);
    } else {
      assert ts + us == us;
    }
  }

  /** The step a `for word in ...: ... if matches: break` loop takes: the words before `xs[i]`
      selected nothing and `xs[i]` selects something, so `xs[i]` decides the result. */
  lemma FirstHitFound(files: seq<string>, xs: seq<string>, i: nat)
    requires i < |xs| && FirstHit(files, xs[..i]) == [] && Filter(files, xs[i]) != []
    ensures FirstHit(files, xs) == Filter(files, xs[i])
  {
    assert xs == xs[..i] + xs[i..];
    FirstHitSkip(files, xs[..i], xs[i..]);
    assert xs[i..][0] == xs[i];
  }

  /** The step of such a loop that finds nothing. */
  lemma FirstHitMissed(files: seq<string>, xs: seq<string>, i: nat)
    requires i < |xs| && FirstHit(files, xs[..i]) == [] && Filter(files, xs[i]) == []
    ensures FirstHit(files, xs[..i + 1]) == []
  {
    assert xs[..i + 1] == xs[..i] + [xs[i]];
    FirstHitSkip(files, xs[..i], [xs[i]]);
  }

  /** `for word in tokens: matches = fnmatch.filter(...); if matches: break`, entered with
      nothing selected: the selection of the first token that selects anything. */
  method FirstMatching(files: seq<string>, tokens: seq<string>) returns (matches: seq<string>)
    ensures matches == FirstHit(files, tokens)
  {
    matches := [];
    assert tokens[..0] == [];
    for i := 0 to |tokens|
      invariant matches == [] && FirstHit(files, tokens[..i]) == []
    {
      matches := Filter(files, tokens[i]);
      if matches != [] {
        FirstHitFound(files, tokens, i);
        break;
      }
      FirstHitMissed(files, tokens, i);
    }
    assert matches == [] ==> tokens[..|tokens|] == tokens;
  }

  /** The delimiters the third stage splits the hint by, in their order. */
  const Delimiters: seq<char> := ['.', '_', '-']

  /** The pieces of `title` split by each delimiter of `ds` in turn. */
  function SplitAll(title: string, ds: seq<char>): (r: seq<string>)
    decreases |ds|
  {
    if ds == [] then [] else SplitAll(title, ds[..|ds| - 1]) + Split(title, ds[|ds| - 1])
  }

  /** Every token the cascade may try, in the order it tries them: the whole hint, its words,
      its pieces between delimiters, its camel-case words. */
  function Candidates(title: string): (r: seq<string>)
    ensures |r| >= 1 && r[0] == title
  {
    [title] + Words(title) + SplitAll(title, Delimiters) + CamelCase.SplitCamelCase(title)
  }

  /** What the cascade selects from `files` for the hint `title`. */
  function MatchSet(files: seq<string>, title: string): seq<string> {
    FirstHit(files, Candidates(title))
  }

  /** The cascade, stage by stage: the whole hint, then every whitespace word, then every piece
      between delimiters, then every camel-case word, each stage only while nothing is selected
      and each loop stopping at the first token that selects something. */
  method FindMatches(files: seq<string>, title: string) returns (matches: seq<string>)
    ensures matches == MatchSet(files, title)
  {
    var p1 := [title];
    var p2 := p1 + Words(title);
    var p3 := p2 + SplitAll(title, Delimiters);
    assert p3 + CamelCase.SplitCamelCase(title) == Candidates(title);
    assert FirstHit(files, p1) == Filter(files, title) by {
      assert p1[1..] == [];
    }

    matches := Filter(files, title);
    if matches == [] {
      matches := FirstMatching(files, Words(title));
      FirstHitSkip(files, p1, Words(title));
    } else {
      FirstHitPrefix(files, p1, Words(title));
    }
    if matches == [] {
      matches := DelimiterStage(files, title);
      FirstHitSkip(files, p2, SplitAll(title, Delimiters));
    } else {
      FirstHitPrefix(files, p2, SplitAll(title, Delimiters));
    }
    if matches == [] {
      matches := FirstMatching(files, CamelCase.SplitCamelCase(title));
      FirstHitSkip(files, p3, CamelCase.SplitCamelCase(title));
    } else {
      FirstHitPrefix(files, p3, CamelCase.SplitCamelCase(title));
    }
  }

  /** The third stage: for each delimiter in turn, the pieces of the hint between its
      occurrences, until a piece selects something (`found`). */
  method DelimiterStage(files: seq<string>, title: string) returns (matches: seq<string>)
    ensures matches == FirstHit(files, SplitAll(title, Delimiters))
  {
    matches := [];
    var found := false;
    assert Delimiters[..0] == [];
    for j := 0 to |Delimiters|
      invariant !found && matches == [] && FirstHit(files, SplitAll(title, Delimiters[..j])) == []
    {
      var delimiter := Delimiters[j];
      var pieces := Split(title, delimiter);
      assert SplitAll(title, Delimiters[..j + 1]) == SplitAll(title, Delimiters[..j]) + pieces by {
        assert Delimiters[..j + 1][..j] == Delimiters[..j];
      }
      FirstHitSkip(files, SplitAll(title, Delimiters[..j]), pieces);
      matches := FirstMatching(files, pieces);
      if matches != [] {
        found := true;
      }
      if found {
        DelimitersRest(files, title, j, matches);
        break;
      }
    }
    assert !found ==> Delimiters[..|Delimiters|] == Delimiters;
  }

  /** Pieces found under the delimiter `Delimiters[j]` decide the third stage: the delimiters
      after it are not tried. */
  lemma DelimitersRest(files: seq<string>, title: string, j: nat, m: seq<string>)
    requires j < |Delimiters|
    requires m != [] && FirstHit(files, SplitAll(title, Delimiters[..j + 1])) == m
    ensures FirstHit(files, SplitAll(title, Delimiters)) == m
  {
    var rest := Delimiters[j + 1..];
    SplitAllAppend(title, Delimiters[..j + 1], rest);
    assert Delimiters[..j + 1] + rest == Delimiters;
    FirstHitPrefix(files, SplitAll(title, Delimiters[..j + 1]), SplitAll(title, rest));
  }

  lemma {:induction false} SplitAllAppend(title: string, a: seq<char>, b: seq<char>)
    ensures SplitAll(title, a + b) == SplitAll(title, a) + SplitAll(title, b)
    decreases |b|
  {
    if b == [] {
      assert a + b == a;
    } else {
      var b' := b[..|b| - 1];
      var last := Split(title, b[|b| - 1]);
      assert (a + b)[..|a + b| - 1] == a + b';
      assert (a + b)[|a + b| - 1] == b[|b| - 1];
      SplitAllAppend(title, a, b');
      ConcatAssoc(SplitAll(title, a), SplitAll(title, b'), last);
    }
  }

  /** When the whole hint selects something, nothing else is tried. */
  lemma WholeTitleWins(files: seq<string>, title: string)
    requires Filter(files, title) != []
    ensures MatchSet(files, title) == Filter(files, title)
  {
  }

  /** The selection is what one candidate token selects, and every token tried before it
      selected nothing; there is no selection exactly when no token selects anything. */
  lemma MatchSetIsFirstSuccess(files: seq<string>, title: string)
    ensures MatchSet(files, title) == [] <==>
      forall i :: 0 <= i < |Candidates(title)| ==> Filter(files, Candidates(title)[i]) == []
    ensures MatchSet(files, title) != [] ==> exists i :: (0 <= i < |Candidates(title)| &&
      MatchSet(files, title) == Filter(files, Candidates(title)[i]) &&
      forall j :: 0 <= j < i ==> Filter(files, Candidates(title)[j]) == [])
  {
    FirstHitIsFirstSuccess(files, Candidates(title));
  }

  /** The selection keeps the listing's order. */
  lemma MatchSetInOrder(files: seq<string>, title: string)
    ensures IsSubsequence(MatchSet(files, title), files)
  {
    var m := MatchSet(files, title);
    FirstHitIsFirstSuccess(files, Candidates(title));
    if m != [] {
      var i :| 0 <= i < |Candidates(title)| && m == Filter(files, Candidates(title)[i]);
      FilterIsSubsequence(files, Candidates(title)[i]);
    }
  }

  /** Every selected name is in the listing and matches one and the same candidate token. */
  lemma MatchSetMatchesToken(files: seq<string>, title: string)
    ensures MatchSet(files, title) != [] ==> exists i :: (0 <= i < |Candidates(title)| &&
      forall x :: x in MatchSet(files, title) ==> x in files && Matches(x, Candidates(title)[i]))
  {
    FirstHitIsFirstSuccess(files, Candidates(title));
  }

  /** A listing without repeated names gives a selection without repeated names. */
  lemma MatchSetDistinct(files: seq<string>, title: string)
    requires Distinct(files)
    ensures Distinct(MatchSet(files, title))
  {
    var m := MatchSet(files, title);
    FirstHitIsFirstSuccess(files, Candidates(title));
    if m != [] {
      var i :| 0 <= i < |Candidates(title)| && m == Filter(files, Candidates(title)[i]);
      FilterDistinct(files, Candidates(title)[i]);
    }
  }

  /** An empty hint selects every file, since `**` matches every name. */
  lemma EmptyTitleSelectsAll(files: seq<string>)
    ensures MatchSet(files, "") == files
  {
    FilterEmptyToken(files);
    if files == [] {
      FirstHitIsFirstSuccess(files, Candidates(""));
    }
  }

  /** A hint that starts with one of the delimiters splits into an empty first piece, whose
      pattern `**` selects every file: such a hint never comes out empty on a non-empty
      listing. */
  lemma LeadingDelimiterSelects(files: seq<string>, title: string, j: nat)
    requires files != [] && j < |Delimiters| && title != [] && title[0] == Delimiters[j]
    ensures MatchSet(files, title) != []
  {
    var d := Delimiters[j];
    assert Split(title, d)[0] == "";
    FilterEmptyToken(files);
    SplitAllAppend(title, Delimiters[..j], Delimiters[j..]);
    assert Delimiters[..j] + Delimiters[j..] == Delimiters;
    SplitAllHead(title, Delimiters[j..]);
    var k := |[title] + Words(title) + SplitAll(title, Delimiters[..j])|;
    assert Candidates(title)[k] == "";
    FirstHitIsFirstSuccess(files, Candidates(title));
  }

  lemma SplitAllHead(title: string, ds: seq<char>)
    requires ds != []
    ensures |SplitAll(title, ds)| >= 1 && SplitAll(title, ds)[0] == Split(title, ds[0])[0]
    decreases |ds|
  {
    if |ds| > 1 {
      SplitAllHead(title, ds[..|ds| - 1]);
    } else {
      assert SplitAll(title, ds[..0]) == [];
    }
  }
}
