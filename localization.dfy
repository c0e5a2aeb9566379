/**
 * The region extractor of src/xcode_optimise/localization.py.
 *
 * The locale library (babel's Locale.parse followed by get_display_name("en"))
 * is a parameter: for a code and a separator it gives a display name, one of
 * the two exceptions the code catches (ValueError, AttributeError), or any
 * other exception, which propagates.  The project.pbxproj file is given as
 * what the reader finds: no file, a file that cannot be read, or its text.
 */
module Localization {
  import opened Wrappers
  import opened Text
  import opened Patterns

  /** The outcome of parsing a code with babel and asking for its English name. */
  datatype LocaleOutcome =
    | DisplayName(name: string)
    | CaughtError          // ValueError or AttributeError
    | OtherError(cause: string)

  /** The locale library, for a code and the separator Locale.parse is given. */
  type LocaleLookup = (string, char) -> LocaleOutcome

  /** _get_language_name's outcome: a name or None, or an exception it lets through. */
  datatype Resolution = Resolved(name: Option<string>) | Raised(cause: string)

  /** project.pbxproj as the reader finds it. */
  datatype ProjectFile = Missing | Unreadable(cause: string) | Content(text: string)

  /** FileNotFoundError, OSError from the read, or an exception from the locale library. */
  datatype ExtractError = FileNotFound | ReadFailure(cause: string) | LocaleFailure(cause: string)

  /** (language_name, language_code). */
  datatype LanguageEntry = LanguageEntry(name: Option<string>, code: string)

  /** code.split("-")[0].split("_")[0]: the longest prefix of the code holding
      neither '-' nor '_'. */
  function BaseCode(code: string): (base: string)
    ensures |base| <= |code| && base == code[..|base|]
    ensures '-' !in base && '_' !in base
    ensures |base| < |code| ==> code[|base|] == '-' || code[|base|] == '_'
  {
    var beforeHyphen := Before(code, '-');
    var base := Before(beforeHyphen, '_');
    assert |base| < |beforeHyphen| ==> code[|base|] == beforeHyphen[|base|];
    base
  }

  /** _get_language_name: parse the code with '-' as separator; only if that
      raises ValueError or AttributeError, parse its base code; None if that
      raises one of them too.  Any other exception escapes. */
  function LanguageName(code: string, locales: LocaleLookup): (r: Resolution)
    ensures locales(code, '-').DisplayName? ==> r == Resolved(Some(locales(code, '-').name))
    ensures locales(code, '-').CaughtError? && locales(BaseCode(code), '_').DisplayName? ==>
              r == Resolved(Some(locales(BaseCode(code), '_').name))
    ensures r == Resolved(None) <==>
              locales(code, '-').CaughtError? && locales(BaseCode(code), '_').CaughtError?
    ensures r.Raised? <==>
              locales(code, '-').OtherError?
              || (locales(code, '-').CaughtError? && locales(BaseCode(code), '_').OtherError?)
    ensures r.Raised? ==>
              r.cause == (if locales(code, '-').OtherError? then locales(code, '-').cause
                          else locales(BaseCode(code), '_').cause)
  {
    match locales(code, '-')
    case DisplayName(name) => Resolved(Some(name))
    case OtherError(cause) => Raised(cause)
    case CaughtError =>
      match locales(BaseCode(code), '_')
      case DisplayName(name) => Resolved(Some(name))
      case CaughtError => Resolved(None)
      case OtherError(cause) => Raised(cause)
  }

  /** group.strip().strip("'\""): blanks, then quotes, cut from both ends. */
  function Unquote(group: string): (code: string)
    ensures exists t :: IsStripOf(group, t, Whitespace) && IsStripOf(t, code, Quotes)
    ensures Infix(code, group)
    ensures code != "" ==> !IsQuote(code[0]) && !IsQuote(code[|code| - 1])
    ensures code == "" ==> forall k :: 0 <= k < |Strip(group, Whitespace)| ==> IsQuote(Strip(group, Whitespace)[k])
  {
    var trimmed := Strip(group, Whitespace);
    var code := Strip(trimmed, Quotes);
    assert Infix(code, group) by {
      StripIsInfix(group, trimmed, Whitespace);
      StripIsInfix(trimmed, code, Quotes);
      InfixTransitive(code, trimmed, group);
    }
    assert IsStripOf(group, trimmed, Whitespace) && IsStripOf(trimmed, code, Quotes) by {
      StripIsStripOf(group, Whitespace);
      StripIsStripOf(trimmed, Quotes);
    }
    assert code != "" ==> !IsQuote(code[0]) && !IsQuote(code[|code| - 1]) by {
      assert code != "" ==> !InClass(code[0], Quotes) && !InClass(code[|code| - 1], Quotes);
    }
    assert code == "" ==> forall k :: 0 <= k < |trimmed| ==> IsQuote(trimmed[k]) by {
      assert code == "" ==> forall k :: 0 <= k < |trimmed| ==> InClass(trimmed[k], Quotes);
    }
    code
  }

  /** The stripped, unquoted value of the first developmentRegion field, or ""
      when there is none. */
  function DevelopmentRegionCode(text: string): (code: string)
    ensures Search(DevelopmentRegionPattern, text, 0).None? ==> code == ""
    ensures code != "" ==> Search(DevelopmentRegionPattern, text, 0).Some?
    ensures code != "" ==> ';' !in code && !IsQuote(code[0]) && !IsQuote(code[|code| - 1])
    ensures code != "" ==>
              var g := Search(DevelopmentRegionPattern, text, 0).value.group;
              g.start <= g.end <= |text| && Infix(code, text[g.start..g.end])
    ensures Infix(code, text)
  {
    match Search(DevelopmentRegionPattern, text, 0)
    case None =>
      assert OccursAt("", text, 0);
      ""
    case Some(m) =>
      GroupInText(DevelopmentRegionPattern, text, m);
      DevelopmentRegionGroupClean(text, m.at, m.group.start, m.group.end);
      var group := text[m.group.start..m.group.end];
      var code := Unquote(group);
      InfixTransitive(code, group, text);
      InfixKeepsOut(code, group, ';');
      code
  }

  /** The code is the group of the first developmentRegion match with its
      blanks and then its quotes cut from both ends, and "" when there is no
      match. */
  lemma DevelopmentRegionValue(text: string)
    ensures match Search(DevelopmentRegionPattern, text, 0)
            case None => DevelopmentRegionCode(text) == ""
            case Some(m) =>
              && m.group.start <= m.group.end <= |text|
              && DevelopmentRegionCode(text) == Unquote(text[m.group.start..m.group.end])
              && exists t :: IsStripOf(text[m.group.start..m.group.end], t, Whitespace)
                             && IsStripOf(t, DevelopmentRegionCode(text), Quotes)
  {
    match Search(DevelopmentRegionPattern, text, 0)
    case None =>
    case Some(m) =>
      GroupInText(DevelopmentRegionPattern, text, m);
  }

  lemma StripIsInfix(s: string, r: string, drop: CharClass)
    requires r == Strip(s, drop)
    ensures Infix(r, s)
  {
    var i :| StrippedAt(s, r, i, drop);
    assert OccursAt(r, s, i);
  }

  /** A character absent from a string is absent from every run inside it. */
  lemma InfixKeepsOut(r: string, s: string, c: char)
    requires Infix(r, s) && c !in s
    ensures c !in r
  {
    var i :| OccursAt(r, s, i);
    assert forall k :: 0 <= k < |r| ==> r[k] == s[i + k];
  }

  /** get_development_region: FileNotFoundError or OSError before any search;
      (None, "") when the field is missing or empty; otherwise the code with
      its display name. */
  function GetDevelopmentRegion(file: ProjectFile, locales: LocaleLookup): (r: Result<LanguageEntry, ExtractError>)
    ensures file.Missing? ==> r == Err(FileNotFound)
    ensures file.Unreadable? ==> r == Err(ReadFailure(file.cause))
    ensures file.Content? && DevelopmentRegionCode(file.text) == "" ==> r == Ok(LanguageEntry(None, ""))
    ensures file.Content? && DevelopmentRegionCode(file.text) != "" ==>
              var code := DevelopmentRegionCode(file.text);
              match LanguageName(code, locales)
              case Resolved(name) => r == Ok(LanguageEntry(name, code))
              case Raised(cause) => r == Err(LocaleFailure(cause))
  {
    match file
    case Missing => Err(FileNotFound)
    case Unreadable(cause) => Err(ReadFailure(cause))
    case Content(text) =>
      var code := DevelopmentRegionCode(text);
      if code == "" then Ok(LanguageEntry(None, ""))
      else
        match LanguageName(code, locales)
        case Resolved(name) => Ok(LanguageEntry(name, code))
        case Raised(cause) => Err(LocaleFailure(cause))
  }

  /** A knownRegions line after line.strip().rstrip(","). */
  function TrimLine(line: string): string {
    RStrip(Strip(line, Whitespace), Commas)
  }

  /** The trimmed line is the line with its blanks cut from both ends and
      then its trailing commas cut, and nothing else removed. */
  lemma TrimLineIsTrim(line: string)
    ensures exists t :: IsStripOf(line, t, Whitespace) && IsRStripOf(t, TrimLine(line), Commas)
  {
    var stripped := Strip(line, Whitespace);
    StripIsStripOf(line, Whitespace);
    RStripIsRStripOf(stripped, Commas);
  }

  /** The trimmed line is a run of the line. */
  lemma TrimLineIsInfix(line: string)
    ensures Infix(TrimLine(line), line)
  {
    var stripped := Strip(line, Whitespace);
    StripIsInfix(line, stripped, Whitespace);
    assert OccursAt(TrimLine(line), stripped, 0);
    InfixTransitive(TrimLine(line), stripped, line);
  }

  /** The code one line of the knownRegions body contributes, if any: the
      trimmed line unless it is empty or a "//" comment, with its quotes
      stripped, unless that leaves nothing. */
  function RegionCode(line: string): (code: Option<string>)
    ensures code.Some? ==> TrimLine(line) != "" && !StartsWith(TrimLine(line), "//")
    ensures code.Some? ==> code.value != [] && !IsQuote(code.value[0]) && !IsQuote(code.value[|code.value| - 1])
    ensures code.None? ==> TrimLine(line) == [] || StartsWith(TrimLine(line), "//")
                           || forall k :: 0 <= k < |TrimLine(line)| ==> IsQuote(TrimLine(line)[k])
  {
    var trimmed := TrimLine(line);
    if trimmed != [] && !StartsWith(trimmed, "//") then
      var lang := Strip(trimmed, Quotes);
      if lang != [] then Some(lang) else None
    else None
  }

  /** A code occurs unchanged in its line. */
  lemma RegionCodeInLine(line: string)
    ensures RegionCode(line).Some? ==> Infix(RegionCode(line).value, line)
  {
    if RegionCode(line).Some? {
      var trimmed := TrimLine(line);
      TrimLineIsInfix(line);
      StripIsInfix(trimmed, RegionCode(line).value, Quotes);
      InfixTransitive(RegionCode(line).value, trimmed, line);
    }
  }

  /** A line gives a code exactly when its trimmed form is neither empty nor
      a comment and holds a character other than a quote; the code is then
      the trimmed form with its quotes cut from both ends. */
  lemma RegionCodeValue(line: string)
    ensures RegionCode(line).Some? <==>
              TrimLine(line) != [] && !StartsWith(TrimLine(line), "//")
              && exists k :: 0 <= k < |TrimLine(line)| && !IsQuote(TrimLine(line)[k])
    ensures RegionCode(line).Some? ==> IsStripOf(TrimLine(line), RegionCode(line).value, Quotes)
  {
    var trimmed := TrimLine(line);
    StripIsStripOf(trimmed, Quotes);
    StripEmpty(trimmed, Quotes);
    assert forall k :: 0 <= k < |trimmed| ==> (InClass(trimmed[k], Quotes) <==> IsQuote(trimmed[k]));
  }

  /** The values of the present entries, in order. */
  function Present<T>(opts: seq<Option<T>>): seq<T> {
    if opts == [] then []
    else (if opts[0].Some? then [opts[0].value] else []) + Present(opts[1..])
  }

  /** Filtering runs one after the other gives the filtered runs one after
      the other. */
  lemma {:induction false} PresentConcat<T>(a: seq<Option<T>>, b: seq<Option<T>>)
    ensures Present(a + b) == Present(a) + Present(b)
  {
    if a != [] {
      assert (a + b)[0] == a[0];
      assert (a + b)[1..] == a[1..] + b;
      PresentConcat(a[1..], b);
    } else {
      assert a + b == b;
    }
  }

  /** A single entry is kept exactly when it is present. */
  lemma PresentOne<T>(x: Option<T>)
    ensures Present([x]) == if x.Some? then [x.value] else []
  {
    assert [x][1..] == [];
  }

  /** Every value kept is the value of one of the entries. */
  lemma {:induction false} PresentFrom<T>(opts: seq<Option<T>>, k: int)
    requires 0 <= k < |Present(opts)|
    ensures exists i :: 0 <= i < |opts| && opts[i] == Some(Present(opts)[k])
  {
    var first := if opts[0].Some? then [opts[0].value] else [];
    assert Present(opts) == first + Present(opts[1..]);
    if k >= |first| {
      PresentFrom(opts[1..], k - |first|);
      var i :| 0 <= i < |opts[1..]| && opts[1..][i] == Some(Present(opts[1..])[k - |first|]);
      assert opts[i + 1] == Some(Present(opts)[k]);
    }
  }

  /** f applied to each element, in order. */
  function Mapped<T, U>(xs: seq<T>, f: T -> U): (r: seq<U>)
    ensures |r| == |xs| && forall i :: 0 <= i < |xs| ==> r[i] == f(xs[i])
  {
    seq(|xs|, i requires 0 <= i < |xs| => f(xs[i]))
  }

  lemma MappedConcat<T, U>(a: seq<T>, b: seq<T>, f: T -> U)
    ensures Mapped(a + b, f) == Mapped(a, f) + Mapped(b, f)
  {
    assert forall i :: 0 <= i < |a| ==> (a + b)[i] == a[i];
    assert forall i :: |a| <= i < |a| + |b| ==> (a + b)[i] == b[i - |a|];
  }

  /** What each line gives, line by line. */
  function LineResults(lines: seq<string>): seq<Option<string>> {
    Mapped(lines, RegionCode)
  }

  /** The codes of a sequence of lines, in line order. */
  function RegionCodes(lines: seq<string>): seq<string> {
    Present(LineResults(lines))
  }

  /** The codes of consecutive runs of lines are the codes of each run, one
      after the other: nothing is reordered, merged or dropped. */
  lemma RegionCodesConcat(a: seq<string>, b: seq<string>)
    ensures RegionCodes(a + b) == RegionCodes(a) + RegionCodes(b)
  {
    MappedConcat(a, b, RegionCode);
    PresentConcat(LineResults(a), LineResults(b));
  }

  /** A single line contributes its own code and nothing else. */
  lemma RegionCodesOfLine(line: string)
    ensures RegionCodes([line]) == match RegionCode(line) case Some(c) => [c] case None => []
  {
    assert LineResults([line]) == [RegionCode(line)];
    PresentOne(RegionCode(line));
  }

  /** The codes of the lines up to and including line i. */
  lemma RegionCodesSnoc(lines: seq<string>, i: int)
    requires 0 <= i < |lines|
    ensures RegionCodes(lines[..i + 1]) ==
              RegionCodes(lines[..i]) + match RegionCode(lines[i]) case Some(c) => [c] case None => []
  {
    assert lines[..i + 1] == lines[..i] + [lines[i]];
    RegionCodesConcat(lines[..i], [lines[i]]);
    RegionCodesOfLine(lines[i]);
  }

  /** The knownRegions body: the lazy group of the first match, if any. */
  function KnownRegionsBody(text: string): (body: Option<string>)
    ensures body.Some? ==> Infix(body.value, text)
    ensures body.Some? ==> forall c :: 0 <= c && c + 1 < |body.value| ==> !(body.value[c] == ')' && body.value[c + 1] == ';')
    ensures body.None? <==> Search(KnownRegionsPattern, text, 0).None?
    ensures body.Some? ==>
              var g := Search(KnownRegionsPattern, text, 0).value.group;
              g.start <= g.end <= |text| && body.value == text[g.start..g.end]
  {
    match Search(KnownRegionsPattern, text, 0)
    case None => None
    case Some(m) =>
      KnownRegionsBodyHasNoClose(text, m);
      GroupInText(KnownRegionsPattern, text, m);
      var body := text[m.group.start..m.group.end];
      forall c | 0 <= c && c + 1 < |body| ensures !(body[c] == ')' && body[c + 1] == ';') {
        assert !CloseAt(text, m.group.start + c);
      }
      assert forall c :: 0 <= c < |body| ==> body[c] == text[m.group.start + c];
      Some(body)
  }

  /** The codes list_localization_languages collects, in order: none
      without a knownRegions match, and each one non-empty, on one line and
      without a quote at either end. */
  function KnownRegionCodes(text: string): (codes: seq<string>)
    ensures Search(KnownRegionsPattern, text, 0).None? ==> codes == []
    ensures forall k :: 0 <= k < |codes| ==>
              codes[k] != [] && '\n' !in codes[k] && !IsQuote(codes[k][0]) && !IsQuote(codes[k][|codes[k]| - 1])
  {
    match KnownRegionsBody(text)
    case None => []
    case Some(body) =>
      RegionCodesShape(Split(body, '\n'));
      RegionCodes(Split(body, '\n'))
  }

  /** Each code collected from a body comes from one line of it: it is not
      empty, holds no newline, neither starts nor ends with a quote, and
      occurs unchanged in that line. */
  lemma RegionCodesFromLines(lines: seq<string>, k: int)
    requires forall i :: 0 <= i < |lines| ==> '\n' !in lines[i]
    requires 0 <= k < |RegionCodes(lines)|
    ensures exists i :: 0 <= i < |lines| && RegionCode(lines[i]) == Some(RegionCodes(lines)[k])
    ensures var c := RegionCodes(lines)[k];
            c != [] && '\n' !in c && !IsQuote(c[0]) && !IsQuote(c[|c| - 1])
  {
    var c := RegionCodes(lines)[k];
    PresentFrom(LineResults(lines), k);
    var i :| 0 <= i < |lines| && LineResults(lines)[i] == Some(c);
    assert RegionCode(lines[i]) == Some(c);
    RegionCodeInLine(lines[i]);
    InfixKeepsOut(c, lines[i], '\n');
  }

  /** RegionCodesFromLines for every code at once. */
  lemma RegionCodesShape(lines: seq<string>)
    requires forall i :: 0 <= i < |lines| ==> '\n' !in lines[i]
    ensures forall k :: 0 <= k < |RegionCodes(lines)| ==>
              var c := RegionCodes(lines)[k];
              c != [] && '\n' !in c && !IsQuote(c[0]) && !IsQuote(c[|c| - 1])
  {
    forall k | 0 <= k < |RegionCodes(lines)|
      ensures var c := RegionCodes(lines)[k];
              c != [] && '\n' !in c && !IsQuote(c[0]) && !IsQuote(c[|c| - 1])
    {
      RegionCodesFromLines(lines, k);
    }
  }

  /** What list_localization_languages emits comes from the first knownRegions
      body: any code means the pattern matched, and each code is that of one
      line of the body. */
  lemma KnownRegionCodesFacts(text: string, k: int)
    requires 0 <= k < |KnownRegionCodes(text)|
    ensures Search(KnownRegionsPattern, text, 0).Some?
    ensures exists i :: 0 <= i < |Split(KnownRegionsBody(text).value, '\n')|
                        && RegionCode(Split(KnownRegionsBody(text).value, '\n')[i]) == Some(KnownRegionCodes(text)[k])
  {
    RegionCodesFromLines(Split(KnownRegionsBody(text).value, '\n'), k);
  }

  /** k is the first code whose name lookup raises an exception that escapes. */
  predicate FirstRaised(codes: seq<string>, locales: LocaleLookup, k: int) {
    0 <= k < |codes| && LanguageName(codes[k], locales).Raised?
    && forall j :: 0 <= j < k ==> LanguageName(codes[j], locales).Resolved?
  }

  /** The first loop of list_localization_languages: each line stripped,
      trailing commas dropped, comments and empty lines skipped, quotes
      stripped, empty results skipped. */
  method CollectCodes(lines: seq<string>) returns (codes: seq<string>)
    ensures codes == RegionCodes(lines)
  {
    codes := [];
    for i := 0 to |lines|
      invariant codes == RegionCodes(lines[..i])
    {
      RegionCodesSnoc(lines, i);
      var line := TrimLine(lines[i]);
      if line != [] && !StartsWith(line, "//") {
        var lang := Strip(line, Quotes);
        if lang != [] {
          codes := codes + [lang];
        }
      }
    }
    assert lines[..|lines|] == lines;
  }

  /** The second loop: one (name, code) pair per code, in order; the first
      exception a name lookup lets through ends the loop. */
  method NameCodes(codes: seq<string>, locales: LocaleLookup) returns (r: Result<seq<LanguageEntry>, ExtractError>)
    ensures r.Ok? <==> forall k :: 0 <= k < |codes| ==> LanguageName(codes[k], locales).Resolved?
    ensures r.Ok? ==> |r.value| == |codes|
                      && forall k :: 0 <= k < |codes| ==>
                           r.value[k] == LanguageEntry(LanguageName(codes[k], locales).name, codes[k])
    ensures r.Err? ==> exists k :: FirstRaised(codes, locales, k)
                                   && r.error == LocaleFailure(LanguageName(codes[k], locales).cause)
  {
    var languages: seq<LanguageEntry> := [];
    for k := 0 to |codes|
      invariant |languages| == k
      invariant forall j :: 0 <= j < k ==> LanguageName(codes[j], locales).Resolved?
      invariant forall j :: 0 <= j < k ==>
                  languages[j] == LanguageEntry(LanguageName(codes[j], locales).name, codes[j])
    {
      match LanguageName(codes[k], locales)
      case Raised(cause) =>
        assert FirstRaised(codes, locales, k);
        return Err(LocaleFailure(cause));
      case Resolved(name) =>
        languages := languages + [LanguageEntry(name, codes[k])];
    }
    return Ok(languages);
  }

  /** list_localization_languages: FileNotFoundError or OSError before any
      search; otherwise one (name, code) pair per collected code, in order,
      unless a name lookup raises, in which case the first such exception. */
  method ListLocalizationLanguages(file: ProjectFile, locales: LocaleLookup)
    returns (r: Result<seq<LanguageEntry>, ExtractError>)
    ensures file.Missing? ==> r == Err(FileNotFound)
    ensures file.Unreadable? ==> r == Err(ReadFailure(file.cause))
    ensures file.Content? && Search(KnownRegionsPattern, file.text, 0).None? ==> r == Ok([])
    ensures file.Content? ==>
      var codes := KnownRegionCodes(file.text);
      && (r.Ok? <==> forall k :: 0 <= k < |codes| ==> LanguageName(codes[k], locales).Resolved?)
      && (r.Ok? ==> |r.value| == |codes|
                    && forall k :: 0 <= k < |codes| ==>
                         r.value[k] == LanguageEntry(LanguageName(codes[k], locales).name, codes[k]))
      && (r.Err? ==> exists k :: FirstRaised(codes, locales, k)
                                 && r.error == LocaleFailure(LanguageName(codes[k], locales).cause))
  {
    if file.Missing? {
      return Err(FileNotFound);
    }
    if file.Unreadable? {
      return Err(ReadFailure(file.cause));
    }
    var body := KnownRegionsBody(file.text);
    if body.None? {
      return Ok([]);
    }
    var codes := CollectCodes(Split(body.value, '\n'));
    r := NameCodes(codes, locales);
  }

  // Worked examples of the developmentRegion pattern.

  /** A field whose value is only blanks matches (the group is the last blank),
      but strips to nothing: the region is (None, "") and no lookup happens. */
  lemma BlankFieldGivesNoRegion(text: string, locales: LocaleLookup)
    requires text == DevelopmentRegionKey + " = ;"
    ensures GetDevelopmentRegion(Content(text), locales) == Ok(LanguageEntry(None, ""))
  {
    assert KeyAt(text, 0, DevelopmentRegionKey) by {
      assert text[0..17] == DevelopmentRegionKey;
    }
    assert text[17] == ' ' && text[18] == '=' && text[19] == ' ' && text[20] == ';';
    SkipSpaceTo(text, 17, 18);
    SkipSpaceTo(text, 19, 20);
    SkipToSemicolonTo(text, 20, 20);
    assert DevelopmentRegionAt(text, 0) == Some(Span(19, 20));
    assert text[19..20] == " ";
    assert Strip(" ", Whitespace) == "";
  }

  /** A field "=;" has no value character, so the pattern does not match
      there, whatever follows. */
  lemma EmptyFieldDoesNotMatch(text: string, rest: string)
    requires text == DevelopmentRegionKey + " =;" + rest
    ensures DevelopmentRegionAt(text, 0) == None
  {
    assert KeyAt(text, 0, DevelopmentRegionKey) by {
      assert text[0..17] == DevelopmentRegionKey;
    }
    assert text[17] == ' ' && text[18] == '=' && text[19] == ';';
    SkipSpaceTo(text, 17, 18);
    SkipSpaceTo(text, 19, 19);
    SkipToSemicolonTo(text, 19, 19);
  }

  /** A field "= fr;" matches with the group "fr", whatever precedes it. */
  lemma SecondFieldMatches(text: string, first: string)
    requires text == first + DevelopmentRegionKey + " = fr;"
    ensures DevelopmentRegionAt(text, |first|) == Some(Span(|first| + 20, |first| + 22))
  {
    var n := |first|;
    assert KeyAt(text, n, DevelopmentRegionKey) by {
      assert text[n..n + 17] == DevelopmentRegionKey;
    }
    assert text[n + 17] == ' ' && text[n + 18] == '=' && text[n + 19] == ' ';
    assert text[n + 20] == 'f' && text[n + 21] == 'r' && text[n + 22] == ';';
    SkipSpaceTo(text, n + 17, n + 18);
    SkipSpaceTo(text, n + 19, n + 20);
    SkipToSemicolonTo(text, n + 20, n + 22);
  }

  lemma NoKeyInsideEmptyField(text: string)
    requires text == DevelopmentRegionKey + " =;" + DevelopmentRegionKey + " = fr;"
    ensures forall j :: 1 <= j < 20 ==> !KeyAt(text, j, DevelopmentRegionKey)
  {
    forall j | 1 <= j < 20 ensures !KeyAt(text, j, DevelopmentRegionKey) {
      assert text[j..j + 17][0] == text[j] != 'd';
    }
  }

  /** "=;" has no value character, so the search moves on to the next field. */
  lemma SearchPassesEmptyField(text: string)
    requires text == DevelopmentRegionKey + " =;" + DevelopmentRegionKey + " = fr;"
    ensures Search(DevelopmentRegionPattern, text, 0) == Some(Match(20, Span(40, 42)))
  {
    EmptyFieldDoesNotMatch(text, DevelopmentRegionKey + " = fr;");
    assert Search(DevelopmentRegionPattern, text, 0) == Search(DevelopmentRegionPattern, text, 1);
    NoKeyInsideEmptyField(text);
    SearchSkips(DevelopmentRegionPattern, text, 1, 20);
    SecondFieldMatches(text, DevelopmentRegionKey + " =;");
  }

  lemma PlainCodeSurvivesSpaceStrip()
    ensures Strip("fr", Whitespace) == "fr"
  {
    StripKeepsClean("fr", Whitespace);
  }

  lemma PlainCodeSurvivesQuoteStrip()
    ensures Strip("fr", Quotes) == "fr"
  {
    StripKeepsClean("fr", Quotes);
  }

  /** The code read from a file whose first field is empty is that of the
      next field. */
  lemma EmptyFieldIsSkipped(text: string)
    requires text == DevelopmentRegionKey + " =;" + DevelopmentRegionKey + " = fr;"
    ensures DevelopmentRegionCode(text) == "fr"
  {
    SearchPassesEmptyField(text);
    assert text[40..42] == "fr";
    PlainCodeSurvivesSpaceStrip();
    PlainCodeSurvivesQuoteStrip();
  }

  // Worked examples of the knownRegions pattern and the line rules.

  /** Trimming a line made of blanks, an entry and one trailing comma
      leaves the entry, when the entry starts with a non-blank and does not
      end in a comma. */
  lemma TrimEntryLine(lead: string, entry: string)
    requires forall k :: 0 <= k < |lead| ==> IsSpace(lead[k])
    requires entry != [] && !IsSpace(entry[0]) && entry[|entry| - 1] != ','
    ensures TrimLine(lead + entry + ",") == entry
  {
    StripEntryLine(lead, entry);
    DropTrailingComma(entry);
  }

  /** strip() of such a line removes the blanks in front and nothing else. */
  lemma StripEntryLine(lead: string, entry: string)
    requires forall k :: 0 <= k < |lead| ==> IsSpace(lead[k])
    requires entry != [] && !IsSpace(entry[0])
    ensures Strip(lead + entry + ",", Whitespace) == entry + ","
  {
    var stripped := entry + ",";
    assert lead + entry + "," == lead + stripped;
    StripLeading(lead, stripped, Whitespace);
  }

  /** rstrip(",") of an entry followed by one comma gives the entry, when the
      entry does not itself end in a comma. */
  lemma DropTrailingComma(entry: string)
    requires entry != [] && entry[|entry| - 1] != ','
    ensures RStrip(entry + ",", Commas) == entry
  {
    var stripped := entry + ",";
    assert stripped[|entry| - 1] == entry[|entry| - 1] && stripped[|entry|] == ',';
    RStripTo(stripped, Commas, |entry|);
    assert stripped[..|entry|] == entry;
  }

  /** Stripping the quotes around a code that neither starts nor ends with a
      quote gives the code back. */
  lemma UnquoteCode(code: string)
    requires code != [] && !IsQuote(code[0]) && !IsQuote(code[|code| - 1])
    ensures Strip("\"" + code + "\"", Quotes) == code
  {
    var quoted := "\"" + code + "\"";
    assert quoted[1] == code[0] && quoted[|quoted| - 2] == code[|code| - 1];
    StripSpan(quoted, Quotes, 1, |quoted| - 1);
    assert quoted[1..|quoted| - 1] == code;
  }

  /** A body line made of blanks, a double-quoted code and a trailing comma
      gives the bare code, whatever the code holds inside, as long as it
      does not itself start or end with a quote. */
  lemma QuotedLineGivesCode(lead: string, code: string)
    requires forall k :: 0 <= k < |lead| ==> IsSpace(lead[k])
    requires code != [] && !IsQuote(code[0]) && !IsQuote(code[|code| - 1])
    ensures RegionCode(lead + ("\"" + code + "\"") + ",") == Some(code)
  {
    var quoted := "\"" + code + "\"";
    assert quoted[0] == '"' && quoted[|quoted| - 1] == '"';
    TrimEntryLine(lead, quoted);
    UnquoteCode(code);
    RegionCodeOfTrimmed(lead + quoted + ",", code);
  }

  /** A line whose trimmed form is not a comment and unquotes to a non-empty
      code gives that code. */
  lemma RegionCodeOfTrimmed(line: string, code: string)
    requires TrimLine(line) != [] && TrimLine(line)[0] != '/'
    requires code != [] && Strip(TrimLine(line), Quotes) == code
    ensures RegionCode(line) == Some(code)
  {
    var trimmed := TrimLine(line);
    assert !StartsWith(trimmed, "//") by {
      if |trimmed| >= 2 {
        assert trimmed[..2][0] == trimmed[0];
      }
    }
  }

  lemma SampleListMatches(text: string)
    requires text == "knownRegions = (\n\t\"en\",\n);"
    ensures KnownRegionsAt(text, 0) == Some(Span(16, 24))
  {
    assert text[..12] == KnownRegionsKey;
    assert KeyAt(text, 0, KnownRegionsKey);
    assert SkipSpace(text, 13) == 13;
    assert SkipSpace(text, 12) == 13;
    assert SkipSpace(text, 15) == 15;
    assert SkipSpace(text, 14) == 15;
    assert CloseAt(text, 24);
    assert FindClose(text, 24) == Some(24);
    assert FindClose(text, 23) == Some(24);
    assert FindClose(text, 22) == Some(24);
    assert FindClose(text, 21) == Some(24);
    assert FindClose(text, 20) == Some(24);
    assert FindClose(text, 19) == Some(24);
    assert FindClose(text, 18) == Some(24);
    assert FindClose(text, 17) == Some(24);
    assert FindClose(text, 16) == Some(24);
  }

  lemma SampleListBody(text: string)
    requires text == "knownRegions = (\n\t\"en\",\n);"
    ensures KnownRegionsBody(text) == Some("\n\t\"en\",\n")
  {
    SampleListMatches(text);
    assert Search(KnownRegionsPattern, text, 0) == Some(Match(0, Span(16, 24)));
    assert text[16..24] == "\n\t\"en\",\n";
  }

  lemma EntryLineSplit(rest: string)
    requires rest == "\t\"en\",\n"
    ensures Split(rest, '\n') == ["\t\"en\",", ""]
  {
    SplitAt(rest, '\n', 6);
    assert rest[..6] == "\t\"en\",";
    SplitWhole(rest[7..], '\n');
    assert rest[7..] == "";
  }

  lemma SampleListLines(body: string)
    requires body == "\n\t\"en\",\n"
    ensures Split(body, '\n') == ["", "\t\"en\",", ""]
  {
    SplitAt(body, '\n', 0);
    EntryLineSplit(body[1..]);
  }

  lemma EntryLineCode(lines: seq<string>)
    requires lines == ["\t\"en\","]
    ensures RegionCodes(lines) == ["en"]
  {
    var quoted := "\"" + "en" + "\"";
    assert quoted == "\"en\"" by {
      assert |quoted| == 4 && quoted[0] == '"' && quoted[1] == 'e' && quoted[2] == 'n' && quoted[3] == '"';
    }
    var line := "\t" + quoted + ",";
    assert line == lines[0] by {
      assert |line| == 6 && line[0] == '\t' && line[5] == ',';
      assert forall k :: 1 <= k < 5 ==> line[k] == quoted[k - 1];
    }
    QuotedLineGivesCode("\t", "en");
    RegionCodesOfLine(lines[0]);
    assert lines == [lines[0]];
  }

  lemma BlankLineNoCode(lines: seq<string>)
    requires lines == [""]
    ensures RegionCodes(lines) == []
  {
    assert RegionCode("") == None;
    RegionCodesOfLine("");
  }

  /** The empty pieces around the entry line contribute no code. */
  lemma SampleLinesCodes(lines: seq<string>)
    requires lines == ["", "\t\"en\",", ""]
    ensures RegionCodes(lines) == ["en"]
  {
    var a, b, c := lines[..1], lines[1..2], lines[2..];
    assert lines == (a + b) + c;
    BlankLineNoCode(a);
    EntryLineCode(b);
    BlankLineNoCode(c);
    RegionCodesConcat(a + b, c);
    RegionCodesConcat(a, b);
  }

  /** A one-entry knownRegions list gives exactly that entry's code: the
      empty pieces before the first and after the last newline add nothing. */
  lemma SampleListCodes(text: string)
    requires text == "knownRegions = (\n\t\"en\",\n);"
    ensures KnownRegionCodes(text) == ["en"]
  {
    SampleListBody(text);
    var body := KnownRegionsBody(text).value;
    SampleListLines(body);
    SampleLinesCodes(Split(body, '\n'));
  }
}
