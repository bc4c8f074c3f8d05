/** The configuration file of the FabricMC installer: one `key=value` pair per line, `#` lines
    being comments. `validate_config_file` reads it into a `Configuration` or rejects it. */
module FabricConfig {
  import opened PyStr

  /** The parsed file. `mods` holds every non-comment line as its key and its stripped value;
      the two versions keep the value exactly as read, line break included. */
  datatype Configuration = Configuration(
    mods: seq<(string, string)>,
    loaderVersion: Option<string>,
    minecraftVersion: Option<string>,
    useSnapshots: bool)

  /** Why a file is rejected: a non-comment line without `=` (the lookup of the value raises),
      or a file without any non-comment line. */
  datatype ConfigError = MissingSeparator | EmptyModsList

  /** `for line in file`: the text cut after every line break; only the last line may lack one. */
  function FileLines(text: string): (r: seq<string>)
    ensures r == [] <==> text == []
    ensures |r| <= |text|
    decreases |text|
  {
    if text == [] then []
    else
      var k := Find(text, '\n');
      if k < 0 then [text] else [text[..k + 1]] + FileLines(text[k + 1..])
  }

  function Concat(lines: seq<string>): string
    decreases |lines|
  {
    if lines == [] then [] else lines[0] + Concat(lines[1..])
  }

  /** The lines put back together give the text. */
  lemma {:induction false} FileLinesConcat(text: string)
    ensures Concat(FileLines(text)) == text
    decreases |text|
  {
    if text != [] {
      var k := Find(text, '\n');
      if k >= 0 {
        var head, rest := text[..k + 1], FileLines(text[k + 1..]);
        FileLinesConcat(text[k + 1..]);
        assert FileLines(text) == [head] + rest;
        assert ([head] + rest)[1..] == rest;
        assert text == head + text[k + 1..];
      } else {
        assert FileLines(text) == [text];
      }
    }
  }

  /** Every line is non-empty, a line break occurs only as the last character of a line, and
      every line but the last ends with one. */
  lemma {:induction false} FileLinesShape(text: string)
    ensures forall i :: 0 <= i < |FileLines(text)| ==> LineShape(FileLines(text)[i])
    ensures forall i :: 0 <= i < |FileLines(text)| - 1 ==> EndsLine(FileLines(text)[i])
    decreases |text|
  {
    if text != [] {
      var k := Find(text, '\n');
      if k >= 0 {
        var head := text[..k + 1];
        var rest := FileLines(text[k + 1..]);
        FileLinesShape(text[k + 1..]);
        HeadLine(text, k);
        assert FileLines(text) == [head] + rest;
        ConsShaped(head, rest);
      } else {
        assert FileLines(text) == [text];
        assert LineShape(text);
      }
    }
  }

  /** A finished line put in front of well-shaped lines keeps them well-shaped. */
  lemma ConsShaped(head: string, rest: seq<string>)
    requires LineShape(head) && EndsLine(head)
    requires forall i :: 0 <= i < |rest| ==> LineShape(rest[i])
    requires forall i :: 0 <= i < |rest| - 1 ==> EndsLine(rest[i])
    ensures forall i :: 0 <= i < |[head] + rest| ==> LineShape(([head] + rest)[i])
    ensures forall i :: 0 <= i < |[head] + rest| - 1 ==> EndsLine(([head] + rest)[i])
  {
    var all := [head] + rest;
    forall i | 1 <= i < |all| ensures all[i] == rest[i - 1] {}
  }

  /** The text up to and including the first line break is one line. */
  lemma HeadLine(text: string, k: int)
    requires k == Find(text, '\n') && k >= 0
    ensures LineShape(text[..k + 1]) && EndsLine(text[..k + 1])
  {
    var head := text[..k + 1];
    assert forall j :: 0 <= j < k ==> head[j] == text[j];
  }

  /** A non-empty line with no line break before its last character. */
  predicate LineShape(line: string) {
    line != [] && forall k :: 0 <= k < |line| - 1 ==> line[k] != '\n'
  }

  /** A line that ends with a line break. */
  predicate EndsLine(line: string) {
    line != [] && line[|line| - 1] == '\n'
  }

  /** `line.startswith("#")`. */
  predicate IsComment(line: string) {
    "#" <= line
  }

  /** The lines the loop does not skip, in file order. */
  function NonComments(lines: seq<string>): (r: seq<string>)
    ensures forall k :: 0 <= k < |r| ==> !IsComment(r[k])
    decreases |lines|
  {
    if lines == [] then []
    else
      var init := NonComments(lines[..|lines| - 1]);
      if IsComment(lines[|lines| - 1]) then init else init + [lines[|lines| - 1]]
  }

  lemma {:induction false} NonCommentsAppend(a: seq<string>, b: seq<string>)
    ensures NonComments(a + b) == NonComments(a) + NonComments(b)
    decreases |b|
  {
    if b == [] {
      assert a + b == a;
    } else {
      var b' := b[..|b| - 1];
      assert (a + b)[..|a + b| - 1] == a + b';
      assert (a + b)[|a + b| - 1] == b[|b| - 1];
      NonCommentsAppend(a, b');
      ConcatAssoc(NonComments(a), NonComments(b'), [b[|b| - 1]]);
    }
  }

  /** A line is skipped exactly when it is a comment: the non-comment lines are the lines that
      are not comments, in order. */
  lemma {:induction false} NonCommentsMembers(lines: seq<string>)
    ensures forall l :: l in NonComments(lines) <==> l in lines && !IsComment(l)
    decreases |lines|
  {
    if lines != [] {
      NonCommentsMembers(lines[..|lines| - 1]);
      assert lines == lines[..|lines| - 1] + [lines[|lines| - 1]];
    }
  }

  /** `pair[0]` of `line.split('=', maxsplit=1)`: the text before the first `=`. */
  function Key(line: string): string {
    SplitOnce(line, '=')[0]
  }

  /** `pair[1]`: the text after the first `=`, line break included. Only looked at when the
      line has a `=`. */
  function Value(line: string): string {
    var pair := SplitOnce(line, '=');
    if |pair| == 2 then pair[1] else ""
  }

  /** `line.split('=', maxsplit=1)` of each line, as key and raw value. */
  function Pairs(entries: seq<string>): (r: seq<(string, string)>)
    ensures |r| == |entries|
    ensures forall i :: 0 <= i < |r| ==> r[i] == (Key(entries[i]), Value(entries[i]))
  {
    seq(|entries|, i requires 0 <= i < |entries| => (Key(entries[i]), Value(entries[i])))
  }

  /** The `mods_list` entries: each key with its stripped value. */
  function ModsOf(pairs: seq<(string, string)>): (r: seq<(string, string)>)
    ensures |r| == |pairs|
    ensures forall i :: 0 <= i < |r| ==> r[i] == (pairs[i].0, Strip(pairs[i].1))
  {
    seq(|pairs|, i requires 0 <= i < |pairs| => (pairs[i].0, Strip(pairs[i].1)))
  }

  /** The value of the last pair with key `key`: each such line overwrites the one before. */
  function LastValue(pairs: seq<(string, string)>, key: string): Option<string>
    decreases |pairs|
  {
    if pairs == [] then None
    else if pairs[|pairs| - 1].0 == key then Some(pairs[|pairs| - 1].1)
    else LastValue(pairs[..|pairs| - 1], key)
  }

  /** Whether some `minecraft` pair names a snapshot, one with a `w` in its value; the flag is
      never cleared again. */
  predicate Snapshot(pairs: seq<(string, string)>)
    decreases |pairs|
  {
    && pairs != []
    && (|| Snapshot(pairs[..|pairs| - 1])
        || (pairs[|pairs| - 1].0 == "minecraft" && 'w' in pairs[|pairs| - 1].1))
  }

  /** What `validate_config_file` makes of the non-comment lines. */
  function ParseEntries(entries: seq<string>): Result<Configuration, ConfigError> {
    if !AllPairs(entries) then Failure(MissingSeparator)
    else if entries == [] then Failure(EmptyModsList)
    else
      var pairs := Pairs(entries);
      Success(Configuration(
        ModsOf(pairs),
        LastValue(pairs, "fabric-loader"),
        LastValue(pairs, "minecraft"),
        Snapshot(pairs)))
  }

  /** Every line splits into a key and a value. */
  predicate AllPairs(entries: seq<string>) {
    forall k :: 0 <= k < |entries| ==> |SplitOnce(entries[k], '=')| == 2
  }

  /** What `validate_config_file` makes of the lines of the file. */
  function Parse(lines: seq<string>): Result<Configuration, ConfigError> {
    ParseEntries(NonComments(lines))
  }

  /** The line loop of `validate_config_file` over the file's text. */
  method ValidateConfig(text: string) returns (r: Result<Configuration, ConfigError>)
    ensures r == Parse(FileLines(text))
  {
    var lines := FileLines(text);
    var modsList: seq<(string, string)> := [];
    var customLoaderVersion: Option<string> := None;
    var customMinecraftVersion: Option<string> := None;
    var useSnapshots := false;
    assert lines[..0] == [];
    for i := 0 to |lines|
      invariant AllPairs(NonComments(lines[..i]))
      invariant Tracks(NonComments(lines[..i]), modsList, customLoaderVersion, customMinecraftVersion, useSnapshots)
    {
      var line := lines[i];
      ghost var (mods0, loader0, mc0, snap0) := (modsList, customLoaderVersion, customMinecraftVersion, useSnapshots);
      if IsComment(line) {
        CommentStep(lines, i, modsList, customLoaderVersion, customMinecraftVersion, useSnapshots);
        continue;
      }
      var pair := SplitOnce(line, '=');
      if |pair| < 2 {
        SplitOnceFound(line, '=');
        MissingSeparatorFails(lines, i);
        return Failure(MissingSeparator);
      }
      if pair[0] == "minecraft" {
        customMinecraftVersion := Some(pair[1]);
        if Find(pair[1], 'w') != -1 {
          useSnapshots := true;
        }
      }
      if pair[0] == "fabric-loader" {
        customLoaderVersion := Some(pair[1]);
      }
      modsList := modsList + [(pair[0], Strip(pair[1]))];
      EntryStep(lines, i, mods0, loader0, mc0, snap0,
                modsList, customLoaderVersion, customMinecraftVersion, useSnapshots);
    }
    assert lines[..|lines|] == lines;
    assert |modsList| == |NonComments(lines)|;
    if modsList == [] {
      return Failure(EmptyModsList);
    }
    return Success(Configuration(modsList, customLoaderVersion, customMinecraftVersion, useSnapshots));
  }

  /** The loop's four variables hold what the lines `es` read so far call for. */
  predicate Tracks(es: seq<string>, mods: seq<(string, string)>, loader: Option<string>,
                   mc: Option<string>, snap: bool) {
    var ps := Pairs(es);
    && mods == ModsOf(ps)
    && loader == LastValue(ps, "fabric-loader")
    && mc == LastValue(ps, "minecraft")
    && snap == Snapshot(ps)
  }

  /** One line more: a comment leaves the non-comment lines as they are, any other line is
      appended to them. */
  lemma NonCommentsStep(lines: seq<string>, i: nat)
    requires i < |lines|
    ensures NonComments(lines[..i + 1]) ==
      if IsComment(lines[i]) then NonComments(lines[..i]) else NonComments(lines[..i]) + [lines[i]]
  {
    assert lines[..i + 1][..i] == lines[..i] && lines[..i + 1][i] == lines[i];
  }

  /** A comment line leaves the loop's state as it is. */
  lemma CommentStep(lines: seq<string>, i: nat,
                    mods: seq<(string, string)>, loader: Option<string>, mc: Option<string>, snap: bool)
    requires i < |lines| && IsComment(lines[i])
    requires AllPairs(NonComments(lines[..i])) && Tracks(NonComments(lines[..i]), mods, loader, mc, snap)
    ensures AllPairs(NonComments(lines[..i + 1])) && Tracks(NonComments(lines[..i + 1]), mods, loader, mc, snap)
  {
    NonCommentsStep(lines, i);
  }

  /** A line with a `=` is one more entry of the loop's state. */
  lemma EntryStep(lines: seq<string>, i: nat,
                  mods0: seq<(string, string)>, loader0: Option<string>, mc0: Option<string>, snap0: bool,
                  mods: seq<(string, string)>, loader: Option<string>, mc: Option<string>, snap: bool)
    requires i < |lines| && !IsComment(lines[i]) && |SplitOnce(lines[i], '=')| == 2
    requires AllPairs(NonComments(lines[..i])) && Tracks(NonComments(lines[..i]), mods0, loader0, mc0, snap0)
    requires var pair := SplitOnce(lines[i], '=');
      && mods == mods0 + [(pair[0], Strip(pair[1]))]
      && loader == (if pair[0] == "fabric-loader" then Some(pair[1]) else loader0)
      && mc == (if pair[0] == "minecraft" then Some(pair[1]) else mc0)
      && snap == (snap0 || (pair[0] == "minecraft" && Find(pair[1], 'w') != -1))
    ensures AllPairs(NonComments(lines[..i + 1])) && Tracks(NonComments(lines[..i + 1]), mods, loader, mc, snap)
  {
    NonCommentsStep(lines, i);
    var es := NonComments(lines[..i]);
    PairsStep(es, lines[i], mods0, loader0, mc0, snap0, mods, loader, mc, snap);
    assert (es + [lines[i]])[|es|] == lines[i];
  }

  /** The loop body's update of its four variables, for a line with a `=`. */
  lemma PairsStep(es: seq<string>, line: string,
                  mods0: seq<(string, string)>, loader0: Option<string>, mc0: Option<string>, snap0: bool,
                  mods: seq<(string, string)>, loader: Option<string>, mc: Option<string>, snap: bool)
    requires |SplitOnce(line, '=')| == 2
    requires Tracks(es, mods0, loader0, mc0, snap0)
    requires var pair := SplitOnce(line, '=');
      && mods == mods0 + [(pair[0], Strip(pair[1]))]
      && loader == (if pair[0] == "fabric-loader" then Some(pair[1]) else loader0)
      && mc == (if pair[0] == "minecraft" then Some(pair[1]) else mc0)
      && snap == (snap0 || (pair[0] == "minecraft" && Find(pair[1], 'w') != -1))
    ensures Tracks(es + [line], mods, loader, mc, snap)
  {
    var pair := SplitOnce(line, '=');
    FindFound(pair[1], 'w');
    PairsAppend(es, line);
    ModsOfAppend(Pairs(es), (pair[0], pair[1]));
    var ps := Pairs(es) + [(pair[0], pair[1])];
    assert ps[..|ps| - 1] == Pairs(es);
  }

  lemma PairsAppend(es: seq<string>, line: string)
    ensures Pairs(es + [line]) == Pairs(es) + [(Key(line), Value(line))]
  {
  }

  lemma ModsOfAppend(ps: seq<(string, string)>, p: (string, string))
    ensures ModsOf(ps + [p]) == ModsOf(ps) + [(p.0, Strip(p.1))]
  {
  }

  /** A non-comment line without `=` makes the whole file invalid. */
  lemma MissingSeparatorFails(lines: seq<string>, i: nat)
    requires i < |lines| && !IsComment(lines[i]) && '=' !in lines[i]
    ensures Parse(lines) == Failure(MissingSeparator)
  {
    SplitOnceFound(lines[i], '=');
    assert lines == lines[..i] + [lines[i]] + lines[i + 1..];
    NonCommentsAppend(lines[..i] + [lines[i]], lines[i + 1..]);
    NonCommentsAppend(lines[..i], [lines[i]]);
    assert NonComments([lines[i]]) == [lines[i]] by {
      assert [lines[i]][..0] == [];
    }
    var es := NonComments(lines);
    assert es[|NonComments(lines[..i])|] == lines[i];
  }

  /** Comment lines change nothing, wherever they stand. */
  lemma CommentIgnored(a: seq<string>, c: string, b: seq<string>)
    requires IsComment(c)
    ensures Parse(a + [c] + b) == Parse(a + b)
  {
    NonCommentsAppend(a + [c], b);
    NonCommentsAppend(a, [c]);
    NonCommentsAppend(a, b);
    assert NonComments([c]) == [] by {
      assert [c][..0] == [];
    }
  }

  /** A file is accepted exactly when it has a non-comment line and every non-comment line has
      a `=`. */
  lemma ParseAccepts(lines: seq<string>)
    ensures Parse(lines).Success? <==>
      NonComments(lines) != [] && forall l :: l in lines && !IsComment(l) ==> '=' in l
  {
    var es := NonComments(lines);
    NonCommentsMembers(lines);
    if AllPairs(es) {
      forall l | l in lines && !IsComment(l) ensures '=' in l {
        var k :| 0 <= k < |es| && es[k] == l;
        SplitOnceFound(l, '=');
      }
    }
    if forall l :: l in lines && !IsComment(l) ==> '=' in l {
      forall k | 0 <= k < |es| ensures |SplitOnce(es[k], '=')| == 2 {
        assert es[k] in es;
        SplitOnceFound(es[k], '=');
      }
    }
  }

  /** Each accepted line gives one `mods` entry, in file order, holding its key, free of `=`,
      and the stripped text after the first `=`. */
  lemma ParsedMods(lines: seq<string>, i: nat)
    requires Parse(lines).Success? && i < |Parse(lines).value.mods|
    ensures var es := NonComments(lines);
      var m := Parse(lines).value.mods[i];
      && |Parse(lines).value.mods| == |es|
      && es[i] == m.0 + "=" + Value(es[i])
      && m.1 == Strip(Value(es[i]))
      && '=' !in m.0
  {
    var es := NonComments(lines);
    var pair := SplitOnce(es[i], '=');
    assert |pair| == 2;
    assert pair[0] + ['='] + pair[1] == es[i];
  }

  /** The version of a key is the value of its last pair, and there is none exactly when no
      pair has that key. */
  lemma {:induction false} LastValueIsLast(pairs: seq<(string, string)>, key: string)
    ensures LastValue(pairs, key).None? <==> forall i :: 0 <= i < |pairs| ==> pairs[i].0 != key
    ensures LastValue(pairs, key).Some? ==> exists i :: (0 <= i < |pairs| &&
      pairs[i] == (key, LastValue(pairs, key).value) &&
      forall j :: i < j < |pairs| ==> pairs[j].0 != key)
    decreases |pairs|
  {
    if pairs != [] {
      var n := |pairs| - 1;
      var init := pairs[..n];
      if pairs[n].0 != key {
        LastValueIsLast(init, key);
        if LastValue(init, key).Some? {
          var i :| 0 <= i < |init| && init[i] == (key, LastValue(init, key).value) &&
            forall j :: i < j < |init| ==> init[j].0 != key;
          assert pairs[i] == init[i];
          forall j | i < j < |pairs| ensures pairs[j].0 != key {
            if j < n { assert pairs[j] == init[j]; }
          }
        } else {
          forall i | 0 <= i < |pairs| ensures pairs[i].0 != key {
            if i < n { assert pairs[i] == init[i]; }
          }
        }
      }
    }
  }

  /** The snapshot flag is set exactly when some `minecraft` pair has a `w` in its value, even
      when a later `minecraft` line overrides the version. */
  lemma {:induction false} SnapshotIsAnyLine(pairs: seq<(string, string)>)
    ensures Snapshot(pairs) <==> exists i :: 0 <= i < |pairs| && pairs[i].0 == "minecraft" && 'w' in pairs[i].1
    decreases |pairs|
  {
    if pairs != [] {
      var n := |pairs| - 1;
      var init := pairs[..n];
      SnapshotIsAnyLine(init);
      if exists i :: 0 <= i < |init| && init[i].0 == "minecraft" && 'w' in init[i].1 {
        var i :| 0 <= i < |init| && init[i].0 == "minecraft" && 'w' in init[i].1;
        assert pairs[i] == init[i];
      }
      if exists i :: 0 <= i < |pairs| && pairs[i].0 == "minecraft" && 'w' in pairs[i].1 {
        var i :| 0 <= i < |pairs| && pairs[i].0 == "minecraft" && 'w' in pairs[i].1;
        if i < n { assert init[i] == pairs[i]; }
      }
    }
  }

  /** A blank line is neither a comment nor a pair: a file with one is rejected. */
  lemma BlankLineRejected(a: seq<string>, b: seq<string>)
    ensures Parse(a + ["\n"] + b) == Failure(MissingSeparator)
  {
    var lines := a + ["\n"] + b;
    assert lines[|a|] == "\n";
    assert !IsComment("\n") by { assert "\n"[0] != '#'; }
    MissingSeparatorFails(lines, |a|);
  }

  /** A file of comments only is rejected for its empty mods list. */
  lemma {:induction false} OnlyCommentsRejected(lines: seq<string>)
    requires forall k :: 0 <= k < |lines| ==> IsComment(lines[k])
    ensures NonComments(lines) == []
    ensures Parse(lines) == Failure(EmptyModsList)
    decreases |lines|
  {
    if lines != [] {
      OnlyCommentsRejected(lines[..|lines| - 1]);
    }
  }

  /** A line `key=value` with no `=` in the key reads back as that key and that value. */
  lemma PairOfLine(key: string, value: string)
    requires '=' !in key
    ensures Key(key + "=" + value) == key && Value(key + "=" + value) == value
  {
    var s := key + "=" + value;
    assert s[|key|] == '=' && s[..|key|] == key;
    var k := Find(s, '=');
    assert k == |key| by {
      assert s[|key|] == '=';
      assert forall j :: 0 <= j < |key| ==> s[j] == key[j];
    }
    assert s[..k] == key && s[k + 1..] == value;
  }

  /** A file of one line with a `=` gives one entry; a version is set when the key names it. */
  lemma ParseOneLine(l: string)
    requires !IsComment(l) && |SplitOnce(l, '=')| == 2
    ensures Parse([l]) == Success(Configuration(
      [(Key(l), Strip(Value(l)))],
      if Key(l) == "fabric-loader" then Some(Value(l)) else None,
      if Key(l) == "minecraft" then Some(Value(l)) else None,
      Key(l) == "minecraft" && 'w' in Value(l)))
  {
    var one: seq<string> := [l];
    assert one[..0] == [];
    assert NonComments(one) == one;
    var ps := Pairs(one);
    assert ps == [(Key(l), Value(l))];
    assert ps[..0] == [];
    assert !Snapshot(ps[..0]);
    assert LastValue(ps[..0], "minecraft") == None && LastValue(ps[..0], "fabric-loader") == None;
    assert AllPairs(one);
    assert ModsOf(ps) == [(Key(l), Strip(Value(l)))];
    assert Snapshot(ps) == (Key(l) == "minecraft" && 'w' in Value(l));
    assert LastValue(ps, "minecraft") == if Key(l) == "minecraft" then Some(Value(l)) else None;
    assert LastValue(ps, "fabric-loader") == if Key(l) == "fabric-loader" then Some(Value(l)) else None;
    assert Parse(one) == ParseEntries(one);
  }

  /** The loader version keeps the line break of its line, while its `mods` entry is stripped. */
  lemma ExampleLoaderLine(l: string)
    requires l == "fabric-loader=0.11.6\n"
    ensures Parse([l]) == Success(Configuration(
      [("fabric-loader", "0.11.6")], Some("0.11.6\n"), None, false))
  {
    assert l == "fabric-loader" + "=" + "0.11.6\n";
    PairOfLine("fabric-loader", "0.11.6\n");
    assert !IsComment(l);
    SplitOnceFound(l, '=');
    assert l[13] == '=';
    ParseOneLine(l);
    StripExample(Value(l));
  }

  lemma StripExample(s: string)
    requires s == "0.11.6\n"
    ensures Strip(s) == "0.11.6"
  {
    LeadingSpacesUnique(s, 0);
    assert TrailingSpaces(s) == 1 by {
      assert TrailingSpaces(s) >= 1;
      assert !IsSpace(s[5]);
    }
    assert s[0..6] == "0.11.6";
  }

  /** A snapshot line sets the flag for good: a later `minecraft` line changes the version but
      not the flag. */
  lemma SnapshotSticks(v1: string, v2: string)
    requires 'w' in v1
    ensures var c := Parse(["minecraft=" + v1, "minecraft=" + v2]);
      c.Success? && c.value.useSnapshots && c.value.minecraftVersion == Some(v2)
  {
    var a, b := "minecraft=" + v1, "minecraft=" + v2;
    var lines := [a, b];
    MinecraftLine(v1);
    MinecraftLine(v2);
    assert a[0] == 'm' && b[0] == 'm';
    assert !IsComment(a) && !IsComment(b);
    assert lines[..1] == [a] && lines[..1][..0] == [];
    assert NonComments(lines[..1]) == [a];
    assert NonComments(lines) == lines;
    var ps := Pairs(lines);
    assert ps == [("minecraft", v1), ("minecraft", v2)];
    assert ps[..1] == [("minecraft", v1)] && ps[..1][..0] == [];
    assert Snapshot(ps);
  }

  /** A `minecraft` line reads back with its key and value. */
  lemma MinecraftLine(v: string)
    ensures Key("minecraft=" + v) == "minecraft" && Value("minecraft=" + v) == v
    ensures |SplitOnce("minecraft=" + v, '=')| == 2
  {
    assert "minecraft=" + v == "minecraft" + "=" + v;
    PairOfLine("minecraft", v);
  }
}
