/** The installer side of the FabricMC script: which installer release is downloaded, and the
    command line the Java installer is started with. */
module FabricInstall {
  import opened PyStr
  import FabricConfig

  /** One entry of the installer listing: where to download it, its version, whether it is a
      stable release. */
  datatype InstallerRelease = InstallerRelease(url: string, version: string, stable: bool)

  /** The url of the first stable release in listing order, or `None` when there is none. */
  function FirstStable(releases: seq<InstallerRelease>): Option<string>
    decreases |releases|
  {
    if releases == [] then None
    else if releases[0].stable then Some(releases[0].url)
    else FirstStable(releases[1..])
  }

  /** The listing loop: the first stable entry sets the url and ends the loop. */
  method SelectStableInstaller(releases: seq<InstallerRelease>) returns (url: Option<string>)
    ensures url == FirstStable(releases)
  {
    url := None;
    var i := 0;
    while i < |releases|
      invariant 0 <= i <= |releases|
      invariant FirstStable(releases) == FirstStable(releases[i..])
      invariant url == None
    {
      assert releases[i..][1..] == releases[i + 1..];
      if releases[i].stable {
        url := Some(releases[i].url);
        break;
      }
      i := i + 1;
    }
  }

  /** The selection is the url of a stable entry with no stable entry before it; none is
      selected exactly when no entry is stable. Later stable entries are ignored. */
  lemma {:induction false} FirstStableIsFirst(releases: seq<InstallerRelease>)
    ensures FirstStable(releases).None? <==> forall i :: 0 <= i < |releases| ==> !releases[i].stable
    ensures FirstStable(releases).Some? ==> exists i :: (0 <= i < |releases| &&
      releases[i].stable && releases[i].url == FirstStable(releases).value &&
      forall j :: 0 <= j < i ==> !releases[j].stable)
    decreases |releases|
  {
    if releases != [] && !releases[0].stable {
      var rest := releases[1..];
      FirstStableIsFirst(rest);
      if FirstStable(rest).Some? {
        var i :| 0 <= i < |rest| && rest[i].stable && rest[i].url == FirstStable(rest).value &&
          forall j :: 0 <= j < i ==> !rest[j].stable;
        assert releases[i + 1] == rest[i];
        forall j | 0 <= j < i + 1 ensures !releases[j].stable {
          if j > 0 { assert releases[j] == rest[j - 1]; }
        }
      } else {
        forall i | 0 <= i < |releases| ensures !releases[i].stable {
          if i > 0 { assert releases[i] == rest[i - 1]; }
        }
      }
    }
  }

  /** Python truthiness of an optional version: present and not empty. */
  predicate IsSet(v: Option<string>) {
    v.Some? && v.value != ""
  }

  /** A flag of the installer's command line. */
  datatype Flag = Snapshot | Loader(version: string) | McVersion(version: string)

  /** The flags a configuration asks for, in the order the code appends them. */
  function Flags(cfg: FabricConfig.Configuration): seq<Flag> {
    (if cfg.useSnapshots then [Snapshot] else []) +
    (if IsSet(cfg.loaderVersion) then [Loader(cfg.loaderVersion.value)] else []) +
    (if IsSet(cfg.minecraftVersion) then [McVersion(cfg.minecraftVersion.value)] else [])
  }

  /** The position of a flag in the fixed order. */
  function Rank(f: Flag): nat {
    match f
    case Snapshot => 0
    case Loader(_) => 1
    case McVersion(_) => 2
  }

  /** Each flag is present exactly when its setting is true or a non-empty version, carries
      that version, and the flags stand in the order snapshot, loader, Minecraft version. */
  lemma FlagsPresent(cfg: FabricConfig.Configuration)
    ensures Snapshot in Flags(cfg) <==> cfg.useSnapshots
    ensures forall v :: Loader(v) in Flags(cfg) <==> IsSet(cfg.loaderVersion) && v == cfg.loaderVersion.value
    ensures forall v :: McVersion(v) in Flags(cfg) <==> IsSet(cfg.minecraftVersion) && v == cfg.minecraftVersion.value
    ensures forall i, j :: 0 <= i < j < |Flags(cfg)| ==> Rank(Flags(cfg)[i]) < Rank(Flags(cfg)[j])
  {
  }

  /** The words a flag adds to the command. */
  function FlagWord(f: Flag): seq<string> {
    match f
    case Snapshot => ["-snapshot"]
    case Loader(v) => ["-loader", v]
    case McVersion(v) => ["-mcversion", v]
  }

  /** The words of a list of flags, in order. */
  function FlagWords(flags: seq<Flag>): seq<string>
    decreases |flags|
  {
    if flags == [] then [] else FlagWord(flags[0]) + FlagWords(flags[1..])
  }

  /** Reads flag words back into flags: `-loader` and `-mcversion` take the next word as their
      version. `None` for a word that is no flag or a version missing at the end. */
  function DecodeFlags(words: seq<string>): Option<seq<Flag>>
    decreases |words|
  {
    if words == [] then Some([])
    else if words[0] == "-snapshot" then
      match DecodeFlags(words[1..])
      case None => None
      case Some(rest) => Some([Snapshot] + rest)
    else if |words| >= 2 && (words[0] == "-loader" || words[0] == "-mcversion") then
      var f := if words[0] == "-loader" then Loader(words[1]) else McVersion(words[1]);
      match DecodeFlags(words[2..])
      case None => None
      case Some(rest) => Some([f] + rest)
    else None
  }

  /** The flag words say which flags were given: decoding them gives the flags back. */
  lemma {:induction false} DecodeFlagWords(flags: seq<Flag>)
    ensures DecodeFlags(FlagWords(flags)) == Some(flags)
    decreases |flags|
  {
    if flags != [] {
      var rest := FlagWords(flags[1..]);
      var ws := FlagWords(flags);
      DecodeFlagWords(flags[1..]);
      assert ws == FlagWord(flags[0]) + rest;
      assert [flags[0]] + flags[1..] == flags;
      match flags[0]
      case Snapshot =>
        assert ws[0] == "-snapshot" && ws[1..] == rest;
      case Loader(v) =>
        assert ws[0] == "-loader" && ws[1] == v && ws[2..] == rest;
      case McVersion(v) =>
        assert ws[0] == "-mcversion" && ws[1] == v && ws[2..] == rest;
    }
  }

  /** The words appended to the command, each after one blank. */
  function Spaced(ws: seq<string>): string
    decreases |ws|
  {
    if ws == [] then "" else " " + ws[0] + Spaced(ws[1..])
  }

  lemma {:induction false} SpacedAppend(a: seq<string>, b: seq<string>)
    ensures Spaced(a + b) == Spaced(a) + Spaced(b)
    decreases |a|
  {
    if a != [] {
      assert (a + b)[1..] == a[1..] + b;
      SpacedAppend(a[1..], b);
      ConcatAssoc(" " + a[0], Spaced(a[1..]), Spaced(b));
    } else {
      assert a + b == b;
    }
  }

  /** Blank-free words appended this way are what `str.split()` finds in the text again. */
  lemma {:induction false} WordsSpaced(ws: seq<string>)
    requires AllWords(ws)
    ensures Words(Spaced(ws)) == ws
    decreases |ws|
  {
    if ws != [] {
      var w := ws[0];
      var tail := Spaced(ws[1..]);
      WordsSpaced(ws[1..]);
      var s := Spaced(ws);
      ConcatAssoc(" ", w, tail);
      assert s == " " + (w + tail);
      assert s[1..] == w + tail;
      assert tail == [] || IsSpace(tail[0]);
      WordsCons(w, tail);
      assert [w] + ws[1..] == ws;
    }
  }

  /** `java -jar {jar} client -dir "{mcDir}"`, before any flag. */
  function CommandBase(jar: string, mcDir: string): string {
    "java -jar " + jar + " client -dir \"" + mcDir + "\""
  }

  /** What `cmd +=` appends for one flag. */
  function FlagText(f: Flag): string {
    match f
    case Snapshot => " -snapshot"
    case Loader(v) => " -loader " + v
    case McVersion(v) => " -mcversion " + v
  }

  /** The text of a list of flags, in order. */
  function Render(flags: seq<Flag>): string
    decreases |flags|
  {
    if flags == [] then "" else FlagText(flags[0]) + Render(flags[1..])
  }

  lemma {:induction false} RenderAppend(flags: seq<Flag>, f: Flag)
    ensures Render(flags + [f]) == Render(flags) + FlagText(f)
    decreases |flags|
  {
    if flags == [] {
      assert [f][1..] == [];
    } else {
      assert (flags + [f])[1..] == flags[1..] + [f];
      RenderAppend(flags[1..], f);
      ConcatAssoc(FlagText(flags[0]), Render(flags[1..]), FlagText(f));
    }
  }

  /** The full command: the base followed by the configuration's flags. */
  function Command(jar: string, mcDir: string, cfg: FabricConfig.Configuration): string {
    CommandBase(jar, mcDir) + Render(Flags(cfg))
  }

  /** The successive `cmd +=` of the installer step. `jar` is the downloaded installer's path
      and `mcDir` the Minecraft directory. */
  method AssembleCommand(jar: string, mcDir: string, cfg: FabricConfig.Configuration)
    returns (cmd: string)
    ensures cmd == Command(jar, mcDir, cfg)
  {
    var base := CommandBase(jar, mcDir);
    cmd := base;
    ghost var flags: seq<Flag> := [];
    if cfg.useSnapshots {
      Extend(base, flags, Snapshot, cmd, "", " -snapshot");
      cmd := cmd + " -snapshot";
      flags := flags + [Snapshot];
    }
    if cfg.loaderVersion.Some? && cfg.loaderVersion.value != "" {
      Extend(base, flags, Loader(cfg.loaderVersion.value), cmd, " -loader ", cfg.loaderVersion.value);
      cmd := cmd + " -loader " + cfg.loaderVersion.value;
      flags := flags + [Loader(cfg.loaderVersion.value)];
    }
    if cfg.minecraftVersion.Some? && cfg.minecraftVersion.value != "" {
      Extend(base, flags, McVersion(cfg.minecraftVersion.value), cmd, " -mcversion ", cfg.minecraftVersion.value);
      cmd := cmd + " -mcversion " + cfg.minecraftVersion.value;
      flags := flags + [McVersion(cfg.minecraftVersion.value)];
    }
    assert flags == Flags(cfg);
  }

  /** One `cmd += ...` keeps the command equal to the base followed by the flags so far. */
  lemma Extend(base: string, flags: seq<Flag>, f: Flag, cmd: string, a: string, b: string)
    requires cmd == base + Render(flags)
    requires FlagText(f) == a + b
    ensures cmd + a + b == base + Render(flags + [f])
  {
    RenderAppend(flags, f);
    ConcatAssoc(base + Render(flags), a, b);
    ConcatAssoc(base, Render(flags), a + b);
  }

  /** A flag's text is its words, each after one blank. */
  lemma FlagTextSpaced(f: Flag)
    ensures FlagText(f) == Spaced(FlagWord(f))
  {
    match f
    case Snapshot =>
      assert ["-snapshot"][1..] == [];
    case Loader(v) =>
      SpacedTwo("-loader", v);
      assert " -loader " == " " + "-loader" + " ";
    case McVersion(v) =>
      SpacedTwo("-mcversion", v);
      assert " -mcversion " == " " + "-mcversion" + " ";
  }

  lemma SpacedTwo(w1: string, w2: string)
    ensures Spaced([w1, w2]) == " " + w1 + " " + w2
  {
    assert [w1, w2][1..] == [w2] && [w2][1..] == [];
    assert Spaced([w2]) == " " + w2;
    assert Spaced([w1, w2]) == " " + w1 + (" " + w2);
    ConcatAssoc(" " + w1, " ", w2);
  }

  /** The flags' text is their words, each after one blank. */
  lemma {:induction false} RenderSpaced(flags: seq<Flag>)
    ensures Render(flags) == Spaced(FlagWords(flags))
    decreases |flags|
  {
    if flags != [] {
      RenderSpaced(flags[1..]);
      FlagTextSpaced(flags[0]);
      SpacedAppend(FlagWord(flags[0]), FlagWords(flags[1..]));
    }
  }

  /** Flags whose versions are free of blanks have words free of blanks. */
  lemma {:induction false} FlagWordsAreWords(flags: seq<Flag>)
    requires forall i :: 0 <= i < |flags| && !flags[i].Snapshot? ==> IsWord(flags[i].version)
    ensures AllWords(FlagWords(flags))
    decreases |flags|
  {
    if flags != [] {
      FlagWordsAreWords(flags[1..]);
      assert forall i :: 1 <= i < |flags| ==> flags[i] == flags[1..][i - 1];
      assert "-snapshot"[0] == '-' && "-loader"[0] == '-' && "-mcversion"[0] == '-';
      assert IsWord("-snapshot") && IsWord("-loader") && IsWord("-mcversion");
      var w := FlagWord(flags[0]);
      assert forall k :: 0 <= k < |w| ==> IsWord(w[k]);
    }
  }

  /** When the versions are free of blanks, `str.split()` of the text after the base gives the
      flag words, and they decode to exactly the configuration's flags. */
  lemma CommandCarriesFlags(cfg: FabricConfig.Configuration)
    requires IsSet(cfg.loaderVersion) ==> IsWord(cfg.loaderVersion.value)
    requires IsSet(cfg.minecraftVersion) ==> IsWord(cfg.minecraftVersion.value)
    ensures Words(Render(Flags(cfg))) == FlagWords(Flags(cfg))
    ensures DecodeFlags(Words(Render(Flags(cfg)))) == Some(Flags(cfg))
  {
    var flags := Flags(cfg);
    assert forall i :: 0 <= i < |flags| && !flags[i].Snapshot? ==> IsWord(flags[i].version);
    FlagWordsAreWords(flags);
    RenderSpaced(flags);
    WordsSpaced(FlagWords(flags));
    DecodeFlagWords(flags);
  }

  /** A `fabric-loader` line reads back with its key and value. */
  lemma LoaderLine(v: string)
    ensures FabricConfig.Key("fabric-loader=" + v) == "fabric-loader"
    ensures FabricConfig.Value("fabric-loader=" + v) == v
    ensures |SplitOnce("fabric-loader=" + v, '=')| == 2
    ensures !FabricConfig.IsComment("fabric-loader=" + v)
  {
    var l := "fabric-loader=" + v;
    assert l == "fabric-loader" + "=" + v;
    FabricConfig.PairOfLine("fabric-loader", v);
    assert l[0] == 'f';
  }

  /** A file holding one `fabric-loader` line sets the loader version to the value exactly as
      read, line break included, since the version is taken before the strip. */
  lemma LoaderFile(v: string)
    ensures FabricConfig.Parse(["fabric-loader=" + v]) == Success(FabricConfig.Configuration(
      [("fabric-loader", Strip(v))], Some(v), None, false))
  {
    LoaderLine(v);
    FabricConfig.ParseOneLine("fabric-loader=" + v);
  }

  /** For such a file the command gets `-loader` and that value, line break included. */
  lemma LoaderLineReachesCommand(jar: string, mcDir: string, v: string)
    requires v != ""
    ensures var c := FabricConfig.Parse(["fabric-loader=" + v]);
      c.Success? && Command(jar, mcDir, c.value) == CommandBase(jar, mcDir) + " -loader " + v
  {
    LoaderFile(v);
    var cfg := FabricConfig.Configuration([("fabric-loader", Strip(v))], Some(v), None, false);
    assert Flags(cfg) == [Loader(v)];
    assert [Loader(v)][1..] == [];
    assert Render([Loader(v)]) == " -loader " + v + "";
  }
}
