# Media directory formatter and FabricMC installer, modelled in Dafny

This project models the logic of two small Python scripts and proves properties of it.

**The media directory formatter (`md-formatter.py`)** renames the episodes of a series in a directory.
- The user types a hint, the new base name.
- The hint selects files in four stages:
  1. The whole hint.
  2. Each of its whitespace-separated words.
  3. Each piece of it between `.`, `_` or `-`.
  4. Each of its camel-case words.
- Each stage stops at the first token whose pattern `*token*` selects at least one file.
- Each selected file gets the plan entry `{hint}E{episode}{extension}`. The episode is the two digits that `get_episode_num_string` finds. If it finds none, the file is skipped.
  - A file without an extension gets none. If the hint itself contains a dot, though, the new name does have an extension: `A.b` with episode `01` gives `A.bE01`, whose extension is `.bE01`.
- Unless `-f`/`--force` is given, the plan is printed and applied only if the user answers `y` or `yes`.
- The renames are done in plan order.

**The FabricMC installer (`fabricmc-install.py`)**:
- Reads a configuration file of `key=value` lines. Lines starting with `#` are comments.
- Collects the settings:
  - the mods list;
  - a custom loader version;
  - a custom Minecraft version;
  - a snapshot flag, set by any Minecraft version containing `w`.
- Picks the first stable release from the installer listing.
- Builds the `java -jar ... client -dir "..."` command line from those settings.

**Modules:**

- `PyStr` (`pystr.dfy`): the pieces of Python the scripts rely on.
  - `str.lower` on ASCII.
  - `ntpath.normcase` as `fnmatch` applies it on Windows.
  - `str.find` and `rfind`.
  - `split` with one separator, with `maxsplit=1`, and with none (whitespace words).
  - `strip`.
  - Plus `Join`, used only to state the split round trips.
  - `ntpath.splitext`.
- `EpisodeTag` (`episode_tag.dfy`): the regex search `(?ix)(?:e|x|episode|^)\s*(\d{2})`.
  - It tries the alternatives in order at each start position.
  - Proved: this is the leftmost match of the regex read as a relation.
- `CamelCase` (`camel_case.dfy`): `re.findall` of `[A-Z](?:[a-z]+|[A-Z]*(?=[A-Z]|$))`.
  - A scan that resumes after each match and otherwise moves on by one character.
- `Matcher` (`matcher.dfy`): the selection cascade as a method with the source's loops and early `break`s.
  - Proved equal to "the selection of the first candidate token that selects anything".
- `RenamePlan` (`rename_plan.dfy`): the plan builder, the confirmation gate, the apply loop and the exit code of a run.
  - Each rename is recorded in a log in place of `os.rename`.
- `FabricConfig` (`fabric_config.dfy`): the line loop of `validate_config_file`.
  - Proved equal to a parse function over the non-comment lines.
- `FabricInstall` (`fabric_install.dfy`): the stable-installer loop and the `cmd +=` assembly.
  - The loop is proved equal to `FirstStable` of the release listing, and the assembly to `Command` of the configuration.
  - Proved: when the versions contain no blank, splitting the appended text into words and decoding them gives back exactly the configuration's flags. A version read from a line that ends in a line break keeps that break, so it lies outside this round trip.

**Behaviour of the code worth noting:**
- **Case.** On Windows, `fnmatch` lower-cases both the name and the pattern, so matching is case-insensitive.
- **`MyCoolShow_01.mp4`** has no tag, because its digits follow `_`, which is none of `e`, `x`, `episode` or the start of the name (`EpisodeTag.ExampleCamelUnderscore`).
- **The loader and Minecraft versions** keep the value exactly as read, line break included. Only the mods-list entry is stripped (`FabricConfig.ExampleLoaderLine`).
- **The snapshot flag** is never cleared by a later `minecraft` line (`FabricConfig.SnapshotSticks`).
- **A blank line** in the configuration file is neither a comment nor a pair, so the file is rejected (`FabricConfig.BlankLineRejected`).

## Model

| member | source | states |
|---|---|---|
| PyStr.LowerChar | media-directory-formatter/md-formatter.py:34 | the `i` flag folds an ASCII capital to its lower-case letter and leaves every other character alone |
| PyStr.LowerCharAgrees | media-directory-formatter/md-formatter.py:34-39 | characters that fold alike agree on being blanks and digits, and equal digits |
| PyStr.NormCase | media-directory-formatter/md-formatter.py:93 | the normalisation fnmatch applies on Windows keeps the length and maps each character on its own |
| PyStr.NormCaseAppend | media-directory-formatter/md-formatter.py:93 | normalising a concatenation normalises each part |
| PyStr.SubstringOccurs | media-directory-formatter/md-formatter.py:93 | a token found by the `*token*` scan occurs at some offset of the name |
| PyStr.OccursSubstring | media-directory-formatter/md-formatter.py:93 | an occurrence at any offset is found by the scan |
| PyStr.SubstringIsOccurrence | media-directory-formatter/md-formatter.py:93 | the scan finds the token exactly when it occurs at some offset |
| PyStr.Find | fabricmc-collection/fabricmc-install.py:48 | `find` gives the first index holding the character, or -1 when no index holds it |
| PyStr.FindFound | fabricmc-collection/fabricmc-install.py:48 | `find(c) != -1` holds exactly when `c` occurs |
| PyStr.SplitOnce | fabricmc-collection/fabricmc-install.py:45 | `split('=', maxsplit=1)` gives the whole line when there is no `=`; otherwise a `=`-free key, the `=`, and the rest, which put together give the line |
| PyStr.SplitOnceFound | fabricmc-collection/fabricmc-install.py:45 | the split gives two pieces exactly when the line holds a `=` |
| PyStr.Split | media-directory-formatter/md-formatter.py:105 | splitting by a delimiter gives at least one piece |
| PyStr.SplitPiecesFree | media-directory-formatter/md-formatter.py:105 | no piece holds the delimiter |
| PyStr.JoinSplit | media-directory-formatter/md-formatter.py:105 | the pieces joined by the delimiter give the hint back |
| PyStr.SplitJoin | media-directory-formatter/md-formatter.py:105 | delimiter-free pieces joined and split again give the pieces back |
| PyStr.LeadingSpaces | media-directory-formatter/md-formatter.py:38 | the leading run of blanks is all blanks and is not followed by a blank |
| PyStr.LeadingSpacesUnique | media-directory-formatter/md-formatter.py:38 | that run is the only blank prefix not followed by a blank |
| PyStr.Strip | fabricmc-collection/fabricmc-install.py:52 | `strip` leaves no blank at either end and never lengthens the value |
| PyStr.StripRemovesBlanks | fabricmc-collection/fabricmc-install.py:52 | the stripped value stands in the original between a blank prefix and a blank suffix |
| PyStr.Words | media-directory-formatter/md-formatter.py:97 | `split()` gives non-empty, blank-free words |
| PyStr.WordsJoin | media-directory-formatter/md-formatter.py:97 | words joined by single blanks split back into the same words |
| PyStr.WordsCons | media-directory-formatter/md-formatter.py:97 | a word followed by a blank or by nothing is the first word found |
| PyStr.SplitExt | media-directory-formatter/md-formatter.py:124 | `splitext` gives a stem and an extension that together are the name; the extension is empty or one dot followed by no further dot or separator |
| PyStr.SplitExtHasExtension | media-directory-formatter/md-formatter.py:124 | the extension is non-empty exactly when the last path component has a dot after one of its other characters |
| PyStr.SplitExtJoin | media-directory-formatter/md-formatter.py:124 | a stem not ending in a dot, followed by an extension, splits back into that stem and extension |
| EpisodeTag.DigitsAfterSpaceIsRegex | media-directory-formatter/md-formatter.py:38-39 | `\s*(\d{2})` matches exactly when some run of blanks is followed by two digits, capturing them |
| EpisodeTag.DigitsAfterSpace | media-directory-formatter/md-formatter.py:38-39 | `\s*(\d{2})` at the start of a text: skips the maximal blank run and captures two digits; a capture is always two digits |
| EpisodeTag.TagAt | media-directory-formatter/md-formatter.py:35-39 | the alternatives `e`, `x`, `episode`, `^` tried in order at one position; a capture is always two digits |
| EpisodeTag.TagAtIsRegex | media-directory-formatter/md-formatter.py:35-39 | trying `e`, `x`, `episode`, `^` in order at a position finds a capture exactly when the regex matches there |
| EpisodeTag.SearchFrom | media-directory-formatter/md-formatter.py:33-40 | the search stops at a position where the regex matches, with no match at any position before it, or reports that there is none |
| EpisodeTag.EpisodeNumber | media-directory-formatter/md-formatter.py:41-42 | the tag, when there is one, is two digits |
| EpisodeTag.EpisodeNumberIsLeftmostMatch | media-directory-formatter/md-formatter.py:32-42 | the tag is the capture at the leftmost matching position; there is no tag exactly when the regex matches nowhere |
| EpisodeTag.LeadingDigits | media-directory-formatter/md-formatter.py:36-39 | a name starting with blanks and two digits gives those digits |
| EpisodeTag.NoPrefixLetterNoTag | media-directory-formatter/md-formatter.py:36 | past the start, no match begins at a character other than `e` or `x` in either case |
| EpisodeTag.OnlyLeadingDigitsWithoutPrefixLetter | media-directory-formatter/md-formatter.py:33-42 | a name without `e` or `x` gives a tag only through `^` |
| EpisodeTag.EpisodeNumberIgnoresCase | media-directory-formatter/md-formatter.py:34 | names that differ only in case give the same tag |
| EpisodeTag.ExampleLongRun | media-directory-formatter/md-formatter.py:39 | a longer run of digits gives its first two (`E123` gives `12`) |
| EpisodeTag.ExampleLeftmost | media-directory-formatter/md-formatter.py:33-42 | `Show.S01E02E03.mkv` gives `02`: the leftmost match wins, and `S01` is no match |
| EpisodeTag.ExampleUnderscore | media-directory-formatter/md-formatter.py:36 | `Show_01.mkv` gives no tag |
| EpisodeTag.ExampleCamelUnderscore | media-directory-formatter/md-formatter.py:36 | `MyCoolShow_01.mp4` gives no tag |
| CamelCase.LowerRun | media-directory-formatter/md-formatter.py:48 | `[a-z]+` greedily takes the whole run of lower-case letters |
| CamelCase.UpperRun | media-directory-formatter/md-formatter.py:48 | `[A-Z]*` greedily takes the whole run of capitals |
| CamelCase.MatchLen | media-directory-formatter/md-formatter.py:48 | a match starts with a capital, and a capital fails to match only when followed by a non-letter |
| CamelCase.MatchShape | media-directory-formatter/md-formatter.py:48 | a match is a capital with every lower-case letter after it, or the longest run of capitals the look-ahead allows: one that reaches the end, or stops one capital short of the end of the run |
| CamelCase.SpansFrom | media-directory-formatter/md-formatter.py:48 | the scan's matches lie within the text, each non-empty |
| CamelCase.SpansAreMatches | media-directory-formatter/md-formatter.py:48 | each span found is the pattern's match at its start |
| CamelCase.SplitCamelCase | media-directory-formatter/md-formatter.py:47-48 | the tokens are the texts of the spans, left to right |
| CamelCase.TokenShape | media-directory-formatter/md-formatter.py:48 | each token is a capitalised word with every lower-case letter after it, or a run of capitals that ends the text or is followed by exactly one more capital and then no capital; no token is directly followed by a lower-case letter |
| CamelCase.TokensInOrder | media-directory-formatter/md-formatter.py:48 | the tokens are disjoint and in text order |
| CamelCase.CapitalCovered | media-directory-formatter/md-formatter.py:48 | every capital that ends the text or is followed by a letter lies inside a token |
| CamelCase.NoCapitalNoToken | media-directory-formatter/md-formatter.py:48 | a text without capitals gives no token |
| CamelCase.ExampleAcronym | media-directory-formatter/md-formatter.py:48 | `FOOBar` gives `FOO`, `Bar` |
| CamelCase.ExampleBlank | media-directory-formatter/md-formatter.py:48 | `TV Show` gives `T`, `Show` |
| Matcher.MatchesIsOccurrence | media-directory-formatter/md-formatter.py:93 | a name matches `*token*` exactly when the normalised token occurs at some offset of the normalised name; this is the meaning of Matcher.Matches |
| Matcher.Filter | media-directory-formatter/md-formatter.py:93 | the filter keeps exactly the listed names that match the token, never more names than listed |
| Matcher.FilterIsSubsequence | media-directory-formatter/md-formatter.py:93 | the filter keeps listing order |
| Matcher.FilterDistinct | media-directory-formatter/md-formatter.py:93 | a listing without repeats filters to one without repeats |
| Matcher.PrefixMatches | media-directory-formatter/md-formatter.py:93 | a name starting with the token matches it |
| Matcher.FilterEmptyToken | media-directory-formatter/md-formatter.py:93 | the pattern `**` selects every file |
| Matcher.FirstHitIsFirstSuccess | media-directory-formatter/md-formatter.py:97-100 | trying tokens in order selects nothing exactly when every token selects nothing, and otherwise what the first successful token selects |
| Matcher.FirstHitPrefix | media-directory-formatter/md-formatter.py:95 | once earlier tokens selected something, later tokens are never tried |
| Matcher.FirstHitSkip | media-directory-formatter/md-formatter.py:101 | when earlier tokens selected nothing, the result is that of the later tokens |
| Matcher.FirstMatching | media-directory-formatter/md-formatter.py:97-100 | the loop with its `break` returns the selection of the first token that selects anything |
| Matcher.Candidates | media-directory-formatter/md-formatter.py:93 | the first token tried is the whole hint |
| Matcher.DelimiterStage | media-directory-formatter/md-formatter.py:103-111 | the nested loop with `found` returns the selection of the first piece, over the delimiters in order, that selects anything |
| Matcher.DelimitersRest | media-directory-formatter/md-formatter.py:108-111 | a piece found under one delimiter ends the stage, so later delimiters are not tried |
| Matcher.SplitAllAppend | media-directory-formatter/md-formatter.py:104-105 | the pieces over two runs of delimiters are the pieces of each run |
| Matcher.FindMatches | media-directory-formatter/md-formatter.py:92-117 | the four stages, each entered only if nothing is selected yet, return the selection of the first candidate token that selects anything |
| Matcher.WholeTitleWins | media-directory-formatter/md-formatter.py:93-95 | when the whole hint selects something, nothing else is tried |
| Matcher.MatchSetIsFirstSuccess | media-directory-formatter/md-formatter.py:92-118 | the selection is what one candidate selects, all earlier candidates selected nothing, and it is empty exactly when no candidate selects anything |
| Matcher.MatchSetInOrder | media-directory-formatter/md-formatter.py:93 | the selection keeps listing order |
| Matcher.MatchSetMatchesToken | media-directory-formatter/md-formatter.py:93 | every selected name is listed and matches one and the same candidate token |
| Matcher.MatchSetDistinct | media-directory-formatter/md-formatter.py:86-88 | a directory listing without repeats gives a selection without repeats |
| Matcher.EmptyTitleSelectsAll | media-directory-formatter/md-formatter.py:93 | an empty hint selects every file |
| Matcher.LeadingDelimiterSelects | media-directory-formatter/md-formatter.py:104-107 | a hint starting with `.`, `_` or `-` has an empty first piece, so it always selects something from a non-empty listing |
| RenamePlan.NewName | media-directory-formatter/md-formatter.py:124-128 | there is no new name exactly when the file has no episode number; otherwise the name is the hint, an `E`, the two digits of the tag and the file's extension, in that order |
| RenamePlan.Plan | media-directory-formatter/md-formatter.py:121-129 | one plan entry per selected file, in selection order, holding the file and its new name |
| RenamePlan.BuildPlan | media-directory-formatter/md-formatter.py:121-129 | the loop builds exactly that plan |
| RenamePlan.PlanAppend | media-directory-formatter/md-formatter.py:129 | one loop step appends the entry for the next file |
| RenamePlan.ApplyPlan | media-directory-formatter/md-formatter.py:145-151 | the apply loop renames the entries that have a new name, in plan order, and skips the others |
| RenamePlan.RenamesAreTargets | media-directory-formatter/md-formatter.py:147-150 | each rename is a plan entry with a new name, and each such entry is renamed |
| RenamePlan.SkippedNeverRenamed | media-directory-formatter/md-formatter.py:127-128 | a file without an episode number is never renamed |
| RenamePlan.RenamesOfPlan | media-directory-formatter/md-formatter.py:121-150 | exactly the selected files with an episode number are renamed, each to its new name |
| RenamePlan.NewNameKeepsExtension | media-directory-formatter/md-formatter.py:124-126 | a renamed file that has an extension keeps it |
| RenamePlan.NewNameMatchesTitle | media-directory-formatter/md-formatter.py:126 | a new name contains the hint, so the whole hint selects every renamed file |
| RenamePlan.NewNameCollision | media-directory-formatter/md-formatter.py:126 | two files get the same new name exactly when they have the same episode number and extension |
| RenamePlan.NewNameKeepsTag | media-directory-formatter/md-formatter.py:125-126 | for a hint without digits, the new name gives the same episode number again |
| RenamePlan.TagOfHintE | media-directory-formatter/md-formatter.py:126 | for a digit-free hint followed by `E` and two digits, the search finds those two digits |
| RenamePlan.InsideHint | media-directory-formatter/md-formatter.py:126 | a match attempt starting inside a digit-free hint captures nothing, or (through `episod` and the `E`) the same two digits |
| RenamePlan.LetterInHint | media-directory-formatter/md-formatter.py:36-39 | an `e` or `x` inside a digit-free hint starts no match, since blanks and then a non-digit follow it |
| RenamePlan.EpisodeInHint | media-directory-formatter/md-formatter.py:36-39 | `episode` read from inside the hint captures nothing, or the digits after the `E` when its final `e` is that `E` |
| RenamePlan.NoDigitBlocked | media-directory-formatter/md-formatter.py:38-39 | blanks that end before a character that is neither a blank nor a digit, with no digit before it, leave `\s*(\d{2})` without a match |
| RenamePlan.ExampleDigitHint | media-directory-formatter/md-formatter.py:126 | a digit in the hint can be captured first: `x12E05.mkv` gives `12`, so the digit-free condition is needed |
| RenamePlan.FormatDirectory | media-directory-formatter/md-formatter.py:85-154 | an empty listing and an empty selection fail, and the exit code is 1 exactly then and 0 otherwise; otherwise the plan of the selection is kept exactly when confirmation is asked and the answer is neither `yes` nor `y`, and is applied otherwise |
| FabricConfig.FileLines | fabricmc-collection/fabricmc-install.py:42 | `for line in file`: the text cut after each line break; no lines exactly for an empty file, and never more lines than characters |
| FabricConfig.FileLinesConcat | fabricmc-collection/fabricmc-install.py:42 | the lines read from the file put together give the file's text |
| FabricConfig.FileLinesShape | fabricmc-collection/fabricmc-install.py:42 | each line is non-empty with no line break before its end, and every line but the last ends in a line break |
| FabricConfig.NonComments | fabricmc-collection/fabricmc-install.py:43-44 | the lines kept are free of comments |
| FabricConfig.NonCommentsAppend | fabricmc-collection/fabricmc-install.py:42-44 | the lines kept from two stretches of the file are those of each stretch, in order |
| FabricConfig.NonCommentsMembers | fabricmc-collection/fabricmc-install.py:43-44 | the lines kept are exactly the non-comment lines |
| FabricConfig.Pairs | fabricmc-collection/fabricmc-install.py:45 | each kept line gives its key and raw value |
| FabricConfig.ModsOf | fabricmc-collection/fabricmc-install.py:52-53 | each mods entry is a key with its stripped value |
| FabricConfig.ValidateConfig | fabricmc-collection/fabricmc-install.py:37-61 | the loop's result is the parse of the file's lines: the mods list, the last loader and Minecraft values and the snapshot flag, or the reason the file is rejected |
| FabricConfig.MissingSeparatorFails | fabricmc-collection/fabricmc-install.py:45-52 | a non-comment line without `=` rejects the file |
| FabricConfig.CommentIgnored | fabricmc-collection/fabricmc-install.py:43-44 | a comment line changes nothing, wherever it stands |
| FabricConfig.ParseAccepts | fabricmc-collection/fabricmc-install.py:42-58 | a file is accepted exactly when it has a non-comment line and every non-comment line holds `=` |
| FabricConfig.ParsedMods | fabricmc-collection/fabricmc-install.py:45-53 | each mods entry comes from one non-comment line in file order, with a `=`-free key and the stripped text after the first `=` |
| FabricConfig.LastValueIsLast | fabricmc-collection/fabricmc-install.py:46-51 | a version is the value of the last line with its key, and is unset exactly when no line has that key |
| FabricConfig.SnapshotIsAnyLine | fabricmc-collection/fabricmc-install.py:46-49 | the snapshot flag is set exactly when some `minecraft` value holds a `w` |
| FabricConfig.BlankLineRejected | fabricmc-collection/fabricmc-install.py:45-52 | a file with a blank line is rejected |
| FabricConfig.OnlyCommentsRejected | fabricmc-collection/fabricmc-install.py:55-56 | a file of comments only is rejected for its empty mods list |
| FabricConfig.PairOfLine | fabricmc-collection/fabricmc-install.py:45 | a line `key=value` with a `=`-free key reads back as that key and value |
| FabricConfig.ParseOneLine | fabricmc-collection/fabricmc-install.py:42-58 | a one-line file gives one mods entry and sets a version exactly when its key names it |
| FabricConfig.ExampleLoaderLine | fabricmc-collection/fabricmc-install.py:50-53 | `fabric-loader=0.11.6` with its line break gives the stripped mods entry and the unstripped loader version |
| FabricConfig.SnapshotSticks | fabricmc-collection/fabricmc-install.py:46-49 | a later `minecraft` line replaces the version but does not clear the snapshot flag |
| FabricConfig.MinecraftLine | fabricmc-collection/fabricmc-install.py:45-47 | a `minecraft=` line splits into that key and its value |
| FabricInstall.SelectStableInstaller | fabricmc-collection/fabricmc-install.py:98-103 | the loop with its `break` returns the url of the first stable release, or none |
| FabricInstall.FirstStableIsFirst | fabricmc-collection/fabricmc-install.py:98-103 | the url is that of a stable release with no stable release before it, and none is chosen exactly when no release is stable |
| FabricInstall.FlagsPresent | fabricmc-collection/fabricmc-install.py:121-126 | each flag is present exactly when its setting is true or a non-empty version, carries that version, and the flags come in the order snapshot, loader, Minecraft |
| FabricInstall.AssembleCommand | fabricmc-collection/fabricmc-install.py:120-126 | the successive `cmd +=` give the base command followed by the text of the configuration's flags |
| FabricInstall.Extend | fabricmc-collection/fabricmc-install.py:121-126 | one `cmd +=` appends one flag's text |
| FabricInstall.RenderAppend | fabricmc-collection/fabricmc-install.py:121-126 | appending a flag appends its text |
| FabricInstall.FlagTextSpaced | fabricmc-collection/fabricmc-install.py:122-126 | a flag's text is its words, each after one blank |
| FabricInstall.RenderSpaced | fabricmc-collection/fabricmc-install.py:121-126 | the flags' text is their words, each after one blank |
| FabricInstall.WordsSpaced | fabricmc-collection/fabricmc-install.py:121-126 | blank-free words appended after single blanks split back into those words |
| FabricInstall.DecodeFlagWords | fabricmc-collection/fabricmc-install.py:121-126 | decoding the flag words gives the flags back |
| FabricInstall.FlagWordsAreWords | fabricmc-collection/fabricmc-install.py:121-126 | flags whose versions are free of blanks have blank-free words |
| FabricInstall.CommandCarriesFlags | fabricmc-collection/fabricmc-install.py:120-126 | when the versions are free of blanks, the words after the base decode to exactly the configuration's flags; a version read from a line ending in a line break keeps that break and so lies outside this round trip |
| FabricInstall.LoaderLine | fabricmc-collection/fabricmc-install.py:43-45 | a `fabric-loader=` line is no comment and splits into that key and its value |
| FabricInstall.LoaderFile | fabricmc-collection/fabricmc-install.py:50-53 | a one-line loader file sets the loader version to the unstripped value |
| FabricInstall.LoaderLineReachesCommand | fabricmc-collection/fabricmc-install.py:123-124 | for that file the command gets `-loader` and the value as read, line break included |

## Left out

- The registry installer and remover (`md-formatter.py:55-80`): calls into `winreg`, which is outside the scripts.
- Console output, the prompts and the final "Press ENTER" wait. The hint and the confirmation answer are parameters of `RenamePlan.FormatDirectory`.
- The file system:
  - The listing, after `os.path.isfile` filtering, is a parameter. Names are relative to the current directory, which is not modelled.
  - `os.rename` is recorded in a log. A rename that fails or overwrites an existing file is not modelled.
- Matcher.Matches: models `*token*` with a token free of the `fnmatch` metacharacters `*`, `?` and `[`. A hint containing them is read literally.
- Case folding, `\s`, `\d` and `str.split()` cover ASCII only, not the Unicode case mapping or Unicode blanks.
- `$` in the camel-case look-ahead is read as the end of the text. A text ending in a line break is not treated specially.
- Reading the configuration file:
  - File lines are cut after each `\n`. The universal-newline translation of `\r\n` and `\r` is not modelled.
  - A file that cannot be opened is not modelled: `FabricConfig.ValidateConfig` takes the file's text.
  - The two `ConfigError` values stand for the two errors `validate_config_file` raises: the `IndexError` of a non-comment line without `=` (`MissingSeparator`) and the empty-mods exception (`EmptyModsList`). The source wraps both into `argparse.ArgumentTypeError`, and that wrapping is not modelled.
- The network:
  - The FabricMC meta request and its status check.
  - The download and size check of the installer jar, including `requests.get(None)` when no release is stable.
  - Running the command and checking its output.
  - The whole Modrinth part (`fabricmc-install.py:64-82`, `128-219`).
  - In their place, the release listing is a parameter. `stable` is a boolean rather than JSON compared with `is True`.
- The command's meaning to the shell and to the installer jar. `FabricInstall.DecodeFlags` only shows that the flags can be recovered from the words. How the shell treats the line break kept in a version is not modelled.
- Argument parsing with `argparse` and the choice of the Minecraft directory from the environment. The directory and the jar path are parameters.
