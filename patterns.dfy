/**
 * The two regular expressions of src/xcode_optimise/localization.py, written
 * out by hand, and re.search over them.
 *
 *   developmentRegion\s*=\s*([^;]+);
 *   knownRegions\s*=\s*\((.*?)\);        (with re.DOTALL)
 *
 * For each pattern, `Matches` is the pattern's meaning (which match and group
 * spans the pattern admits at a position), `MatchAt` is what the backtracking
 * engine reports there, and `Search` is re.search: the leftmost position with
 * a match.
 */
module Patterns {
  import opened Wrappers
  import opened Text

  const DevelopmentRegionKey := "developmentRegion"
  const KnownRegionsKey := "knownRegions"

  datatype Pattern = DevelopmentRegionPattern | KnownRegionsPattern

  /** The bounds of the capture group: s[start..end]. */
  datatype Span = Span(start: nat, end: nat)

  /** A successful search: where the match begins, and its group. */
  datatype Match = Match(at: nat, group: Span)

  function Key(p: Pattern): string {
    match p
    case DevelopmentRegionPattern => DevelopmentRegionKey
    case KnownRegionsPattern => KnownRegionsKey
  }

  predicate KeyAt(s: string, i: int, key: string) {
    0 <= i && i + |key| <= |s| && s[i..i + |key|] == key
  }

  /** s[lo..hi] is all whitespace (`\s*` can match it). */
  predicate AllSpace(s: string, lo: int, hi: int) {
    0 <= lo <= hi <= |s| && forall m :: lo <= m < hi ==> IsSpace(s[m])
  }

  /** s[lo..hi] holds no ';' (`[^;]+` can match it when it is not empty). */
  predicate NoSemicolon(s: string, lo: int, hi: int) {
    0 <= lo <= hi <= |s| && forall m :: lo <= m < hi ==> s[m] != ';'
  }

  /** ");" begins at position c. */
  predicate CloseAt(s: string, c: int) {
    0 <= c && c + 1 < |s| && s[c] == ')' && s[c + 1] == ';'
  }

  /** `\s*=\s*` matches s[from..to], with its '=' at e. */
  predicate EqualsAt(s: string, from: int, e: int, to: int) {
    from <= e < to && AllSpace(s, from, e) && AllSpace(s, e + 1, to) && s[e] == '='
  }

  /** `\s*=\s*` matches s[from..to]. */
  ghost predicate SpacedEquals(s: string, from: int, to: int) {
    exists e :: EqualsAt(s, from, e, to)
  }

  /** The pattern matches from position i with its group spanning s[a..b]. */
  ghost predicate Matches(p: Pattern, s: string, i: int, a: int, b: int) {
    KeyAt(s, i, Key(p))
    && match p
       case DevelopmentRegionPattern =>
         // \s*=\s*  ([^;]+)  ;
         SpacedEquals(s, i + |Key(p)|, a)
         && a < b < |s| && NoSemicolon(s, a, b) && s[b] == ';'
       case KnownRegionsPattern =>
         // \s*=\s*\(  (.*?)  \);
         1 <= a <= b && CloseAt(s, b)
         && SpacedEquals(s, i + |Key(p)|, a - 1) && s[a - 1] == '('
  }

  /** Of the matches at one position, the one a backtracking engine reports:
      for the greedy `\s*` before `([^;]+)` the group that starts latest, and
      for the lazy `(.*?)` the group that ends at the first ");". */
  ghost predicate Preferred(p: Pattern, s: string, i: int, g: Span) {
    forall a, b :: Matches(p, s, i, a, b) ==>
      match p
      case DevelopmentRegionPattern => b == g.end && a <= g.start
      case KnownRegionsPattern => a == g.start && g.end <= b
  }

  /** The first index at or after k that is not whitespace (or |s|). */
  function SkipSpace(s: string, k: nat): (j: nat)
    requires k <= |s|
    ensures k <= j <= |s| && AllSpace(s, k, j) && (j == |s| || !IsSpace(s[j]))
    decreases |s| - k
  {
    if k < |s| && IsSpace(s[k]) then SkipSpace(s, k + 1) else k
  }

  /** The first ';' at or after k (or |s|). */
  function SkipToSemicolon(s: string, k: nat): (j: nat)
    requires k <= |s|
    ensures k <= j <= |s| && NoSemicolon(s, k, j) && (j == |s| || s[j] == ';')
    decreases |s| - k
  {
    if k < |s| && s[k] != ';' then SkipToSemicolon(s, k + 1) else k
  }

  /** SkipSpace stops at j when s[k..j] is blank and s[j] is not. */
  lemma SkipSpaceTo(s: string, k: nat, j: nat)
    requires k <= j <= |s| && AllSpace(s, k, j) && (j == |s| || !IsSpace(s[j]))
    ensures SkipSpace(s, k) == j
  {
  }

  /** SkipToSemicolon stops at j when s[k..j] holds no ';' and s[j] is one. */
  lemma SkipToSemicolonTo(s: string, k: nat, j: nat)
    requires k <= j < |s| && NoSemicolon(s, k, j) && s[j] == ';'
    ensures SkipToSemicolon(s, k) == j
  {
  }

  /** The first ");" at or after k, if any. */
  function FindClose(s: string, k: nat): (c: Option<nat>)
    ensures c.Some? ==> k <= c.value && CloseAt(s, c.value)
                        && forall m :: k <= m < c.value ==> !CloseAt(s, m)
    ensures c.None? ==> forall m :: k <= m ==> !CloseAt(s, m)
    decreases |s| - k
  {
    if k + 1 >= |s| then None
    else if CloseAt(s, k) then Some(k)
    else FindClose(s, k + 1)
  }

  /** `\s*=\s*` must take every whitespace character before the '=': the '='
      sits at the first non-whitespace position. */
  lemma EqualsAfterSpaces(s: string, from: nat, to: int)
    requires from <= |s|
    ensures SpacedEquals(s, from, to) ==>
              var e := SkipSpace(s, from); e < |s| && EqualsAt(s, from, e, to)
  {
    if SpacedEquals(s, from, to) {
      var e :| EqualsAt(s, from, e, to);
      var f := SkipSpace(s, from);
    }
  }

  /** With no '=' after the key and its blanks, the pattern cannot match. */
  lemma EqualsRequired(p: Pattern, s: string, i: nat)
    requires KeyAt(s, i, Key(p))
    requires var e := SkipSpace(s, i + |Key(p)|); e == |s| || s[e] != '='
    ensures forall a, b :: !Matches(p, s, i, a, b)
  {
    var from: nat := i + |Key(p)|;
    forall a, b ensures !Matches(p, s, i, a, b) {
      match p
      case DevelopmentRegionPattern => EqualsAfterSpaces(s, from, a);
      case KnownRegionsPattern => EqualsAfterSpaces(s, from, a - 1);
    }
  }

  /** Once the '=' is at e, every developmentRegion match has its group start
      within the blanks after it and its group end at the next ';'. */
  lemma DevelopmentRegionBounds(s: string, i: nat, e: nat)
    requires KeyAt(s, i, DevelopmentRegionKey)
    requires e == SkipSpace(s, i + |DevelopmentRegionKey|) && e < |s| && s[e] == '='
    ensures forall a, b :: Matches(DevelopmentRegionPattern, s, i, a, b) ==>
              var r := SkipSpace(s, e + 1); a <= r && b == SkipToSemicolon(s, r)
  {
    forall a, b | Matches(DevelopmentRegionPattern, s, i, a, b)
      ensures a <= SkipSpace(s, e + 1) && b == SkipToSemicolon(s, SkipSpace(s, e + 1))
    {
      EqualsAfterSpaces(s, i + |DevelopmentRegionKey|, a);
    }
  }

  /** Once the '=' is at e, every knownRegions match has its '(' at the first
      non-blank after it. */
  lemma KnownRegionsOpen(s: string, i: nat, e: nat)
    requires KeyAt(s, i, KnownRegionsKey)
    requires e == SkipSpace(s, i + |KnownRegionsKey|) && e < |s| && s[e] == '='
    ensures forall a, b :: Matches(KnownRegionsPattern, s, i, a, b) ==> a == SkipSpace(s, e + 1) + 1
  {
    forall a, b | Matches(KnownRegionsPattern, s, i, a, b) ensures a == SkipSpace(s, e + 1) + 1 {
      EqualsAfterSpaces(s, i + |KnownRegionsKey|, a - 1);
    }
  }

  /** What the engine reports for the developmentRegion pattern at i. */
  function DevelopmentRegionAt(s: string, i: nat): (g: Option<Span>)
    ensures g.Some? ==> Matches(DevelopmentRegionPattern, s, i, g.value.start, g.value.end)
                        && Preferred(DevelopmentRegionPattern, s, i, g.value)
    ensures g.None? ==> forall a, b :: !Matches(DevelopmentRegionPattern, s, i, a, b)
  {
    var key := DevelopmentRegionKey;
    if !KeyAt(s, i, key) then None
    else
      var e := SkipSpace(s, i + |key|);
      if e == |s| || s[e] != '=' then
        EqualsRequired(DevelopmentRegionPattern, s, i);
        None
      else
        var r := SkipSpace(s, e + 1);
        var t := SkipToSemicolon(s, r);
        DevelopmentRegionBounds(s, i, e);
        if t == |s| then None
        else if r < t then
          assert EqualsAt(s, i + |key|, e, r);
          Some(Span(r, t))
        else if e + 1 < r then
          assert EqualsAt(s, i + |key|, e, r - 1);
          assert IsSpace(s[r - 1]);
          Some(Span(r - 1, r))
        else None
  }

  /** What the engine reports for the knownRegions pattern at i. */
  function KnownRegionsAt(s: string, i: nat): (g: Option<Span>)
    ensures g.Some? ==> Matches(KnownRegionsPattern, s, i, g.value.start, g.value.end)
                        && Preferred(KnownRegionsPattern, s, i, g.value)
    ensures g.None? ==> forall a, b :: !Matches(KnownRegionsPattern, s, i, a, b)
  {
    var key := KnownRegionsKey;
    if !KeyAt(s, i, key) then None
    else
      var e := SkipSpace(s, i + |key|);
      if e == |s| || s[e] != '=' then
        EqualsRequired(KnownRegionsPattern, s, i);
        None
      else
        var r := SkipSpace(s, e + 1);
        KnownRegionsOpen(s, i, e);
        if r == |s| || s[r] != '(' then None
        else
          match FindClose(s, r + 1)
          case None => None
          case Some(c) =>
            assert EqualsAt(s, i + |key|, e, r);
            Some(Span(r + 1, c))
  }

  /** What the engine reports for pattern p at position i. */
  function MatchAt(p: Pattern, s: string, i: nat): (g: Option<Span>)
    ensures g.Some? ==> Matches(p, s, i, g.value.start, g.value.end) && Preferred(p, s, i, g.value)
    ensures g.None? ==> forall a, b :: !Matches(p, s, i, a, b)
  {
    match p
    case DevelopmentRegionPattern => DevelopmentRegionAt(s, i)
    case KnownRegionsPattern => KnownRegionsAt(s, i)
  }

  /** re.search(pattern, s) tried from position `from` on: the leftmost
      position where the pattern matches, with the group the engine reports
      there; None when it matches nowhere. */
  function Search(p: Pattern, s: string, from: nat): (m: Option<Match>)
    ensures m.Some? ==> from <= m.value.at
                        && Matches(p, s, m.value.at, m.value.group.start, m.value.group.end)
                        && Preferred(p, s, m.value.at, m.value.group)
    ensures forall j, a, b :: from <= j && (m.None? || j < m.value.at) ==> !Matches(p, s, j, a, b)
    decreases |s| + 1 - from
  {
    if from > |s| then None
    else match MatchAt(p, s, from)
      case Some(g) => Some(Match(from, g))
      case None => Search(p, s, from + 1)
  }

  /** The group of a search result is a run of the searched text. */
  lemma GroupInText(p: Pattern, s: string, m: Match)
    requires Search(p, s, 0) == Some(m)
    ensures m.group.start <= m.group.end <= |s|
    ensures OccursAt(s[m.group.start..m.group.end], s, m.group.start)
  {
  }

  /** The knownRegions group never holds ");": the lazy group stops at the first one. */
  lemma KnownRegionsBodyHasNoClose(s: string, m: Match)
    requires Search(KnownRegionsPattern, s, 0) == Some(m)
    ensures m.group.start <= m.group.end <= |s|
    ensures forall c :: m.group.start <= c && c + 1 < m.group.end ==> !CloseAt(s, c)
  {
    forall c | m.group.start <= c && c + 1 < m.group.end ensures !CloseAt(s, c) {
      assert CloseAt(s, c) ==> Matches(KnownRegionsPattern, s, m.at, m.group.start, c);
    }
  }

  /** The search scans positions one at a time: a stretch of text where the
      key does not start is passed over without effect on the result. */
  lemma {:induction false} SearchSkips(p: Pattern, s: string, from: nat, to: nat)
    requires from <= to
    requires forall j :: from <= j < to ==> !KeyAt(s, j, Key(p))
    ensures Search(p, s, from) == Search(p, s, to)
    decreases (to as int) - (from as int)
  {
    if from < to {
      assert MatchAt(p, s, from).None?;
      SearchSkips(p, s, from + 1, to);
    }
  }

  /** The developmentRegion group never holds ';'. */
  lemma DevelopmentRegionGroupClean(s: string, i: int, a: int, b: int)
    requires Matches(DevelopmentRegionPattern, s, i, a, b)
    ensures 0 <= a <= b <= |s| && ';' !in s[a..b]
  {
    assert NoSemicolon(s, a, b);
    var g := s[a..b];
    forall k | 0 <= k < |g| ensures g[k] != ';' {
      assert g[k] == s[a + k];
    }
  }
}
