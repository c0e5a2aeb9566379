# xcode-optimise in Dafny

This project models the analysis core of xcode-optimise. That core does two things:

- **Region extraction.** It reads an Xcode `project.pbxproj` file and finds
  the project's development region and its list of known regions. Each
  region code is paired with a human-readable language name.
- **Project location.** It decides whether a directory holds an Xcode
  project (a `.xcodeproj` or `.xcworkspace` bundle), and finds the path of
  the `.xcodeproj` bundle.

The model is split into these modules:

- `Wrappers`: `Option` and `Result`.
- `Text`: the Python string operations the code relies on: `str.strip`,
  `lstrip` and `rstrip` with a character set; `split` on one character;
  `startswith` and `endswith`; and the `str.isspace` whitespace set.
  `IsStripOf` and `IsRStripOf` describe what `strip` and `rstrip` return
  without computing it (the longest runs cut, nothing else). Lemmas show
  that the functions compute exactly that, and that the description fits
  only one string.
- `FileTree`: a finite directory tree with ordered children.
  - `os.walk` is a function giving the top-down sequence of
    `(root, subdirectory names)` steps.
  - `Path.suffix` is a function on names.
  - `AnyDirBelow` is a reference definition: some directory at any depth
    has a name with one of the given endings.
- `Detection`: `is_xcode_project` and `find_xcode_project_path` of
  `src/xcode_optimise/detection.py`. Each is a method whose loops follow the
  two phases of the source: first the immediate children, then the walk.
- `LegacyMain`: the older `is_xcode_project` of `main.py`, proved to agree
  with the current one on every tree.
- `Patterns`: the two regular expressions, each written as a matcher.
  - `developmentRegion\s*=\s*([^;]+);`
  - `knownRegions\s*=\s*\((.*?)\);` with DOTALL
  - Each is specified by a ghost predicate `Matches` saying what the
    pattern accepts, and by `Preferred` saying which group a backtracking
    engine reports (greedy `\s*` before `[^;]+`, lazy `.*?`).
  - `Search` is `re.search`: the leftmost position with a match.
- `Localization`: `_get_language_name`, `get_development_region` and
  `list_localization_languages` of `src/xcode_optimise/localization.py`.

Some inputs come from outside the program and are parameters of the model:

- **The locale library.** babel's `Locale.parse` followed by
  `get_display_name("en")` is a function from a code and a separator to a
  display name, a `ValueError`/`AttributeError` (the two exceptions the
  code catches), or any other exception, which escapes.
- **The `project.pbxproj` file.** It is `Missing`, `Unreadable(cause)` or
  `Content(text)`.
- **The directory argument.** It is an `Option<Entry>`. `None` is a path
  that does not exist; a `File` entry is a path that is not a directory.

## Model

| member | source | states |
|---|---|---|
| Localization.LanguageName | src/xcode_optimise/localization.py:9-28 | A display name from the first parse (separator `-`) wins. The base code is parsed only when the first parse raises ValueError/AttributeError, and its name is used then. The result is `None` exactly when both parses raise one of those. An exception escapes exactly when the first parse raises any other exception, or the retry does, and it is that parse's own exception. |
| Localization.BaseCode | src/xcode_optimise/localization.py:24 | The base code is a prefix of the code and contains neither `-` nor `_`. The character after it, if any, is `-` or `_`. |
| Localization.Unquote | src/xcode_optimise/localization.py:63 | The result is exactly `.strip().strip("'\"")` of the group: there is a whitespace-strip of the group (the longest blank runs cut from both ends, nothing else) whose quote-strip is the result. It is also a contiguous run of the group. A non-empty result has no quote at either end; an empty one means the blank-stripped group is all quotes. |
| Localization.DevelopmentRegionCode | src/xcode_optimise/localization.py:57-65 | With no pattern match the code is empty. A non-empty code comes from the leftmost match's group and contains no `;`. It neither starts nor ends with a quote. It occurs contiguously inside the group and inside the whole text. |
| Localization.DevelopmentRegionValue | src/xcode_optimise/localization.py:57-65 | The code is pinned: with no match it is empty; with a match it is `Unquote` of the match's group, i.e. the group with its blanks and then its quotes cut from both ends. So it is empty exactly when there is no match or the blank-stripped group is all quotes (a group such as `' '` keeps its inner blank). |
| Localization.GetDevelopmentRegion | src/xcode_optimise/localization.py:31-68 | A missing file gives FileNotFoundError; an unreadable file gives OSError with its cause. Both come before any search. An empty or absent code gives `(None, "")`. Otherwise the result is `(name, code)` with the name from LanguageName, or the exception the lookup lets through. |
| Localization.StripIsInfix | src/xcode_optimise/localization.py:63 | A stripped string occurs contiguously in the original. |
| Localization.InfixKeepsOut | src/xcode_optimise/localization.py:57-63 | A character absent from the group is absent from every contiguous run inside it (why the code has no `;`). |
| Localization.RegionCode | src/xcode_optimise/localization.py:106-110 | A line gives a code only if its trimmed form is non-empty and does not start with `//`. A code is non-empty and has no quote at either end. Without a code, the trimmed line is empty, is a comment, or is all quotes. |
| Localization.RegionCodeValue | src/xcode_optimise/localization.py:106-110 | A line gives a code exactly when its trimmed form is non-empty, is not a `//` comment and holds a character other than a quote. The code is then exactly the quote-strip of the trimmed form. |
| Localization.RegionCodeInLine | src/xcode_optimise/localization.py:106-110 | A code occurs unchanged in its line. |
| Localization.TrimLineIsTrim | src/xcode_optimise/localization.py:106 | The trimmed line is exactly `line.strip().rstrip(",")`: a whitespace-strip of the line with its trailing commas then cut, and nothing else removed. |
| Localization.RegionCodeOfTrimmed | src/xcode_optimise/localization.py:106-110 | A line whose trimmed form does not start with `/` and unquotes to a non-empty code gives that code. |
| Localization.TrimEntryLine | src/xcode_optimise/localization.py:106 | A line of blanks, an entry and one trailing comma trims to the entry, when the entry starts with a non-blank and does not end in a comma. |
| Localization.UnquoteCode | src/xcode_optimise/localization.py:108 | Stripping the quotes around a code that neither starts nor ends with a quote gives the code back. |
| Localization.TrimLineIsInfix | src/xcode_optimise/localization.py:106 | `line.strip().rstrip(",")` is a contiguous run of the line. |
| Localization.RegionCodesConcat | src/xcode_optimise/localization.py:105-110 | The codes of two runs of lines are the codes of the first run followed by those of the second: no reordering, merging or dropping. |
| Localization.RegionCodesOfLine | src/xcode_optimise/localization.py:105-110 | A single line contributes its own code or nothing. |
| Localization.RegionCodesSnoc | src/xcode_optimise/localization.py:104-110 | The codes of the lines up to line i are those up to the line before, followed by line i's own code if it has one (one step of the first loop). |
| Localization.PresentConcat | src/xcode_optimise/localization.py:104-110 | Keeping the present entries of two runs gives the kept entries of the first run followed by those of the second. |
| Localization.PresentOne | src/xcode_optimise/localization.py:109-110 | One entry is kept exactly when it is present. |
| Localization.PresentFrom | src/xcode_optimise/localization.py:109-110 | Every kept value is the value of some entry: nothing is invented. |
| Localization.MappedConcat | src/xcode_optimise/localization.py:105-110 | The results for two runs of lines are the results for the first run followed by those for the second. |
| Localization.KnownRegionsBody | src/xcode_optimise/localization.py:97-103 | There is a body exactly when the knownRegions pattern matches, and it is then exactly the text of the leftmost match's group: from after `(` up to the first `);`. It holds no `);`. |
| Localization.KnownRegionCodes | src/xcode_optimise/localization.py:97-110 | No match gives no codes. Every code collected is non-empty, lies on one line, and has no quote at either end. |
| Localization.RegionCodesFromLines | src/xcode_optimise/localization.py:105-110 | Each collected code is the code of one of the lines. It is non-empty, has no newline, and has no quote at either end. |
| Localization.KnownRegionCodesFacts | src/xcode_optimise/localization.py:97-110 | Any code at all implies that the pattern matched, and each code is the code of one line of the body. |
| Localization.CollectCodes | src/xcode_optimise/localization.py:104-110 | The first loop collects exactly the codes of the body's lines, in line order. |
| Localization.NameCodes | src/xcode_optimise/localization.py:112-117 | The result is a success exactly when every lookup resolves. It then holds one `(name, code)` pair per code, in order, with no sorting or deduplication. Otherwise it is the exception of the first lookup that raises one that escapes. |
| Localization.ListLocalizationLanguages | src/xcode_optimise/localization.py:71-117 | A missing or unreadable file gives the two errors before any search. No match gives `[]`. Otherwise the result holds the pairs of the body's codes, in order, or the first escaping lookup exception. |
| Localization.BlankFieldGivesNoRegion | src/xcode_optimise/localization.py:57-65 | `developmentRegion = ;` matches with a group of one blank. That strips to nothing, so the result is `(None, "")` without a lookup. |
| Localization.EmptyFieldDoesNotMatch | src/xcode_optimise/localization.py:57 | A field `developmentRegion =;` has no value character, so the pattern does not match there, whatever text follows. |
| Localization.SecondFieldMatches | src/xcode_optimise/localization.py:57 | A field `developmentRegion = fr;` matches with the group `fr`, whatever text precedes it. |
| Localization.SearchPassesEmptyField | src/xcode_optimise/localization.py:57-58 | The search passes the empty field and reports the second. |
| Localization.EmptyFieldIsSkipped | src/xcode_optimise/localization.py:57-65 | A file whose first developmentRegion field is empty yields the code of the next field. |
| Localization.QuotedLineGivesCode | src/xcode_optimise/localization.py:105-110 | Any line of blanks, a double-quoted code and a trailing comma gives the bare code, whatever the code holds inside, as long as it neither starts nor ends with a quote. |
| Localization.SampleListMatches | src/xcode_optimise/localization.py:97-98 | In `knownRegions = (\n\t"en",\n);` the lazy group runs from after `(` to the first `);`. |
| Localization.SampleListCodes | src/xcode_optimise/localization.py:97-110 | That file gives exactly the codes `["en"]`. |
| Patterns.SkipSpace | src/xcode_optimise/localization.py:57 | The `\s*` run: everything skipped is whitespace, and the run stops at the end or at a non-blank. |
| Patterns.SkipToSemicolon | src/xcode_optimise/localization.py:57 | The `[^;]*` run: it stops at the first `;` or at the end. |
| Patterns.SkipSpaceTo | src/xcode_optimise/localization.py:57 | The blank run ends exactly at the first non-blank. |
| Patterns.SkipToSemicolonTo | src/xcode_optimise/localization.py:57 | The `[^;]*` run ends exactly at the first `;`. |
| Patterns.FindClose | src/xcode_optimise/localization.py:97 | Gives the first `);` at or after a position, or states that there is none. |
| Patterns.EqualsAfterSpaces | src/xcode_optimise/localization.py:57 | In any match of `\s*=`, the `=` is at the first non-blank position after the key. |
| Patterns.EqualsRequired | src/xcode_optimise/localization.py:57-98 | Without `=` after the key and its blanks, neither pattern matches. |
| Patterns.DevelopmentRegionBounds | src/xcode_optimise/localization.py:57 | Every developmentRegion match has its group start within the blanks after `=` and its group end at the next `;`. |
| Patterns.KnownRegionsOpen | src/xcode_optimise/localization.py:97 | Every knownRegions match has its `(` at the first non-blank after `=`. |
| Patterns.DevelopmentRegionAt | src/xcode_optimise/localization.py:57 | The matcher finds a group exactly when the pattern matches at that position. The group it reports is the one with the latest start, as greedy `\s*` and backtracking give. |
| Patterns.KnownRegionsAt | src/xcode_optimise/localization.py:97 | The matcher finds a group exactly when the pattern matches at that position. The group it reports ends at the first `);`, as the lazy `(.*?)` gives. |
| Patterns.MatchAt | src/xcode_optimise/localization.py:57-98 | The same, for either pattern. |
| Patterns.Search | src/xcode_optimise/localization.py:57-98 | `re.search`: the result is the leftmost position where the pattern matches, with the engine's group. No earlier position matches, and None means no position matches. |
| Patterns.GroupInText | src/xcode_optimise/localization.py:58-63 | The reported group lies within the text. |
| Patterns.KnownRegionsBodyHasNoClose | src/xcode_optimise/localization.py:97-103 | No `);` starts inside the knownRegions group. |
| Patterns.DevelopmentRegionGroupClean | src/xcode_optimise/localization.py:57-63 | The developmentRegion group lies in the text and holds no `;`. |
| Patterns.SearchSkips | src/xcode_optimise/localization.py:58 | The search passes a stretch where the key does not start, without effect on the result. |
| FileTree.FirstName | src/xcode_optimise/detection.py:64-65 | Gives the first name with one of the endings, if any. None exactly when no name has one. |
| FileTree.FirstWalkHit | src/xcode_optimise/detection.py:63-66 | None exactly when no walk step lists a matching name. Otherwise the result is `root/dir_name` for the first hit in walk order, scanning each step's names before the next step. |
| FileTree.StepsHitFirst | src/xcode_optimise/detection.py:63-66 | A walk hits in its first step or in the steps after it, and only there. |
| FileTree.FirstHitLater | src/xcode_optimise/detection.py:63-66 | With no hit in the first step, the first hit of the later steps is the walk's first hit. |
| FileTree.FirstHitIs | src/xcode_optimise/detection.py:63-66 | The scan returns the path of the first hit. |
| FileTree.FirstHitPath | src/xcode_optimise/detection.py:63-66 | The first hit of the walk from the top is the path returned, and it names a directory of the tree. |
| FileTree.FirstWalkHitFacts | src/xcode_optimise/detection.py:62-68 | The scan finds nothing exactly when no directory below has a matching name. A path found is a directory whose last component matches. |
| FileTree.FirstWalkHitFound | src/xcode_optimise/detection.py:63-66 | A path the scan finds is non-empty, names a directory, and ends in a matching name. |
| FileTree.FirstHitAtUnique | src/xcode_optimise/detection.py:63-66 | The first hit of a walk is unique. |
| FileTree.RFind | src/xcode_optimise/detection.py:27 | Gives the last occurrence of a character, or states that there is none (the rule behind `Path.suffix`). |
| FileTree.SuffixMeaning | src/xcode_optimise/detection.py:27 | A non-empty `Path.suffix` is a dotted extension with no further dot that ends the name and is shorter than it. The suffix is empty exactly when the name ends in a dot or has no dot after its first character. |
| FileTree.SuffixOfExtended | src/xcode_optimise/detection.py:59 | A name that ends in an extension and is longer than it has that extension as its suffix. |
| FileTree.SuffixIs | src/xcode_optimise/detection.py:27 | For a dotted extension without further dots, `Path.suffix == ext` holds exactly when the name ends with ext and is longer than it. |
| FileTree.DirNamesAreDirs | src/xcode_optimise/detection.py:31-32 | Each name a walk step lists is a child directory. |
| FileTree.Walk | src/xcode_optimise/detection.py:31 | `os.walk` yields the top directory first, with its subdirectory names. Every step lies at or below the top. |
| FileTree.WalkBelow | src/xcode_optimise/detection.py:31 | The walks of the subdirectories lie strictly below the top, one after the other. |
| FileTree.WalkSound | main.py:31-35 | Every name listed by the walk, joined to its root, is a directory of the tree. This is why the `is_dir()` at `main.py:35` always holds. |
| FileTree.WalkBelowSound | src/xcode_optimise/detection.py:31-32 | The same for the steps below the top directory. |
| FileTree.ListedInFirst | src/xcode_optimise/detection.py:63-66 | What is listed below the first subdirectory is listed below the whole directory. |
| FileTree.ListedInRest | src/xcode_optimise/detection.py:63-66 | What is listed below the later entries is listed below the whole directory. |
| FileTree.WalkListsDirs | main.py:31-35 | Every name the walk lists, joined to its step's path, is a directory of the tree. |
| FileTree.NamesHitConcat | src/xcode_optimise/detection.py:32-33 | A hit in joined name lists is a hit in one of them. |
| FileTree.StepsHitConcat | src/xcode_optimise/detection.py:31-33 | A hit in joined walks is a hit in one of them. |
| FileTree.WalkHit | src/xcode_optimise/detection.py:31-36 | Some step of the walk lists a name with one of the endings exactly when some directory at any depth has such a name. |
| FileTree.ChildDirBelow | src/xcode_optimise/detection.py:26-28 | An immediate child directory with a matching name is a directory in the subtree. |
| FileTree.DirAtBelow | src/xcode_optimise/detection.py:63-66 | A directory at a path whose last component matches is a hit in the subtree. |
| FileTree.AnyDirBelowWiden | src/xcode_optimise/detection.py:7-68 | A hit for fewer endings is a hit for more. |
| Detection.FirstBundleEntry | src/xcode_optimise/detection.py:58-59 | Gives the first child that is a directory whose suffix is one of the extensions. None means that no child is one. |
| Detection.BundleEntryBelow | src/xcode_optimise/detection.py:26-28 | A bundle found by the first phase is a hit in the subtree. |
| Detection.BundleFoundBelow | src/xcode_optimise/detection.py:26-28 | An entry that the first phase of `is_xcode_project` accepts is a hit in the subtree. |
| Detection.IsXcodeProject | src/xcode_optimise/detection.py:7-36 | A path that is missing or not a directory gives false. Otherwise the result is true exactly when some directory anywhere below, immediate children included, has a name ending in `.xcodeproj` or `.xcworkspace`. |
| Detection.ProjectPath | src/xcode_optimise/detection.py:57-68 | The result for a directory is None exactly when no directory below ends in `.xcodeproj`. A result is a directory inside the input whose last component ends in `.xcodeproj`. |
| Detection.ProjectPathDetected | src/xcode_optimise/detection.py:7-68 | When `find_xcode_project_path` finds a path, some directory below ends in `.xcodeproj` or `.xcworkspace`, which is what `is_xcode_project` checks. |
| Detection.ProjectEntryFound | src/xcode_optimise/detection.py:58-60 | An immediate directory with suffix `.xcodeproj` is a directory at its one-component path, and its name ends in `.xcodeproj`. |
| Detection.OneSuffix | src/xcode_optimise/detection.py:65 | `endswith` with a one-element tuple is `endswith` with that element. |
| Detection.FindXcodeProjectPath | src/xcode_optimise/detection.py:39-68 | A path that is missing or not a directory gives None. Otherwise the result is the first immediate child directory with suffix `.xcodeproj`, in preference to deeper matches, and failing that the first walk hit. |
| Detection.ScanEntries | src/xcode_optimise/detection.py:58-60 | The first loop returns the first immediate directory whose suffix is the extension, or nothing. |
| Detection.ScanWalk | src/xcode_optimise/detection.py:63-68 | The second loop returns the first walk hit, scanning each step's names before the next step. |
| Detection.ChildIsDir | src/xcode_optimise/detection.py:58-60 | An immediate child directory is a directory at its one-component path. |
| Detection.FindThenDetect | src/xcode_optimise/detection.py:7-68 | A path found by `find_xcode_project_path` implies that `is_xcode_project` holds. |
| Detection.ProjectSuffixIsExtension | src/xcode_optimise/detection.py:27 | Both suffixes are dotted extensions with no further dot. |
| Detection.BareBundleSkippedByFirstPhase | src/xcode_optimise/detection.py:58-59 | A child named exactly `.xcodeproj` has an empty suffix, so the first phase skips it. |
| Detection.BareBundleFoundByWalk | src/xcode_optimise/detection.py:63-66 | The walk then finds it by `endswith`. |
| LegacyMain.IsXcodeProject | main.py:6-38 | A path that is missing or not a directory gives false. Otherwise the result is true exactly when some directory at any depth has a name ending in either suffix. |
| LegacyMain.ScanImmediate | main.py:25-28 | The first loop answers true exactly when an immediate directory has either suffix. |
| LegacyMain.ScanSubdirectories | main.py:30-36 | The second loop answers true exactly when the walk lists a name ending in either suffix. |
| LegacyMain.EitherSuffix | main.py:33 | The two `endswith` tests joined with `or` are the tuple form of `endswith`. |
| LegacyMain.BothVersionsAgree | main.py:6-38 | The version in `main.py` and the one in `detection.py` give the same answer on every tree. |
| Text.Strip | src/xcode_optimise/localization.py:106-108 | The result is a contiguous run of the input. Everything outside it is stripped, and neither of its ends would be. An empty result means that every character was stripped. |
| Text.LStrip | src/xcode_optimise/localization.py:106 | The result is a suffix of the input, with only stripped characters before it. |
| Text.RStrip | src/xcode_optimise/localization.py:106 | The result is a prefix of the input, with only stripped characters after it (`rstrip(",")` drops every trailing comma). |
| Text.Split | src/xcode_optimise/localization.py:105 | `split("\n")` gives at least one piece. No piece contains the separator, and joining the pieces gives back the input. |
| Text.Before | src/xcode_optimise/localization.py:24 | Gives the prefix before the first separator. |
| Text.InfixTransitive | src/xcode_optimise/localization.py:63 | A run inside a run of the text is a run of the text. |
| Text.StripKeepsClean | src/xcode_optimise/localization.py:108 | Stripping a string whose ends are kept leaves it unchanged. |
| Text.StripSpan | src/xcode_optimise/localization.py:106-108 | Stripping keeps exactly the span between the runs of stripped characters at the two ends. |
| Text.StripOfUnique | src/xcode_optimise/localization.py:63 | Only one string is a strip of a given string, so the strip description pins a value. |
| Text.RStripOfUnique | src/xcode_optimise/localization.py:106 | Only one string is an rstrip of a given string. |
| Text.StripIsStripOf | src/xcode_optimise/localization.py:63 | `Strip` computes the strip that the description names: the longest runs of stripped characters cut from both ends. |
| Text.RStripIsRStripOf | src/xcode_optimise/localization.py:106 | `RStrip` computes the rstrip the description names. |
| Text.StripEmpty | src/xcode_optimise/localization.py:108-109 | Stripping leaves nothing exactly when every character is stripped. |
| Text.StripLeading | src/xcode_optimise/localization.py:106 | Stripping a run of stripped characters followed by a string whose ends are kept leaves that string. |
| Text.RStripTo | src/xcode_optimise/localization.py:106 | `rstrip` keeps exactly the prefix before the final run of stripped characters. |
| Text.SplitAt | src/xcode_optimise/localization.py:105 | The first piece of `split` ends at the first separator, and the rest is the split of what follows it. |
| Text.SplitWhole | src/xcode_optimise/localization.py:105 | A string without the separator splits into itself alone. |

## Left out

- `src/xcode_optimise/cli.py` and `main()` in `main.py`: argument parsing, printing and exit codes, with no analysis logic.
- The locale library itself is a parameter. The model says nothing about which codes it recognises or what names it gives. A display name of `None` from babel is not modelled: a name is always a string.
- File I/O is reduced to the three outcomes `Missing`, `Unreadable` and `Content`. A file that is not valid UTF-8 raises `UnicodeDecodeError`, which is a `ValueError` and not an `OSError`; that path is not modelled. The wording of the exception messages is not modelled either.
- The directory tree is finite and fixed while it is searched, and it has no symbolic links, cycles or permission errors. `iterdir` and `os.walk` list children in the tree's order; the real order depends on the platform.
- The tree datatype does not forbid two siblings with the same name, which a real file system does. No contract depends on this.
- Paths are component lists relative to the searched directory, not `Path` objects joined to it.
- `FileTree.Suffix` follows the `Path.suffix` rule of Python before 3.13 (the text after the last dot, if that dot is neither first nor last). Python 3.13 derives the suffix with `os.path.splitext`, which treats a leading run of dots differently. On names such as `..xcodeproj` the two rules differ.
- `Text.IsSpace` is the ASCII and Unicode whitespace set of `str.isspace`, written as a fixed list. No other Unicode properties are involved.
- `Localization.ListLocalizationLanguages` splits the two loops of the source into `Localization.CollectCodes` and `Localization.NameCodes`. The list the source builds in its second loop is returned as a whole, and an exception from a lookup ends the call there, as it does in Python.
- `Detection.IsXcodeProject`, `Detection.FindXcodeProjectPath` and `LegacyMain.IsXcodeProject` take the searched directory as one tree node, so the path string is assumed to name the same directory for `pathlib` and for `os.walk`. The empty string does not: `Path("")` is the current directory, so the existence test and the first loop look there, while `os.walk("")` yields nothing, so the second loop finds nothing. On `""` with only a nested bundle the source returns `False`/`None` where the model finds it.
- `Detection.FindXcodeProjectPath` and `LegacyMain.IsXcodeProject` likewise hand each of their two loops to a method of its own (`Detection.ScanEntries` and `Detection.ScanWalk`; `LegacyMain.ScanImmediate` and `LegacyMain.ScanSubdirectories`). A `return` inside a loop becomes the method's result.
