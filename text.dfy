/**
 * The few Python string operations the extractors use: strip and rstrip with a
 * set of characters, startswith and endswith, split on one separator, and the
 * prefix before a separator.  Strings are sequences of characters.
 */
module Text {

  /** The characters for which Python's str.isspace() holds; `\s` in a str
      pattern and str.strip() with no argument both use this set. */
  predicate IsSpace(c: char) {
    c == ' ' || ('\t' <= c <= '\r') || ('\U{1c}' <= c <= '\U{1f}')
    || c == '\U{85}' || c == '\U{a0}' || c == '\U{1680}'
    || ('\U{2000}' <= c <= '\U{200a}') || c == '\U{2028}' || c == '\U{2029}'
    || c == '\U{202f}' || c == '\U{205f}' || c == '\U{3000}'
  }

  /** The characters of the argument "'\"" given to str.strip. */
  predicate IsQuote(c: char) {
    c == '\'' || c == '"'
  }

  predicate IsComma(c: char) {
    c == ','
  }

  /** The character sets the extractors strip: no argument (whitespace), "'\""
      and ",". */
  datatype CharClass = Whitespace | Quotes | Commas

  predicate InClass(c: char, cls: CharClass) {
    match cls
    case Whitespace => IsSpace(c)
    case Quotes => IsQuote(c)
    case Commas => IsComma(c)
  }

  predicate StartsWith(s: string, prefix: string) {
    |prefix| <= |s| && s[..|prefix|] == prefix
  }

  predicate EndsWith(s: string, suffix: string) {
    |suffix| <= |s| && s[|s| - |suffix|..] == suffix
  }

  /** str.endswith with a tuple of suffixes. */
  predicate EndsWithAny(s: string, suffixes: seq<string>) {
    exists k :: 0 <= k < |suffixes| && EndsWith(s, suffixes[k])
  }

  /** `r` occurs in `s` as a contiguous run of characters, unchanged. */
  ghost predicate Infix(r: string, s: string) {
    exists i :: OccursAt(r, s, i)
  }

  /** `r` occurs in `s` starting at offset `i`. */
  predicate OccursAt(r: string, s: string, i: int) {
    0 <= i <= |s| - |r| && s[i..i + |r|] == r
  }

  /** `r` is what remains of `s` once a run of `drop` characters has been cut
      from each end, and nothing more, starting at offset `i`. */
  ghost predicate StrippedAt(s: string, r: string, i: int, drop: CharClass) {
    OccursAt(r, s, i)
    && (forall k :: 0 <= k < i ==> InClass(s[k], drop))
    && (forall k :: i + |r| <= k < |s| ==> InClass(s[k], drop))
  }

  /** `r` is `s` with the longest run of `drop` characters cut from each end:
      what str.strip(chars) returns, stated without computing it. */
  ghost predicate IsStripOf(s: string, r: string, drop: CharClass) {
    (exists i :: StrippedAt(s, r, i, drop))
    && (r == [] || (!InClass(r[0], drop) && !InClass(r[|r| - 1], drop)))
  }

  /** `r` is `s` with the longest trailing run of `drop` characters cut:
      what str.rstrip(chars) returns. */
  ghost predicate IsRStripOf(s: string, r: string, drop: CharClass) {
    |r| <= |s| && r == s[..|r|]
    && (forall k :: |r| <= k < |s| ==> InClass(s[k], drop))
    && (r == [] || !InClass(r[|r| - 1], drop))
  }

  /** str.lstrip(chars): removes every leading character in the set. */
  function LStrip(s: string, drop: CharClass): (r: string)
    ensures |r| <= |s| && r == s[|s| - |r|..]
    ensures forall k :: 0 <= k < |s| - |r| ==> InClass(s[k], drop)
    ensures r == [] || !InClass(r[0], drop)
  {
    if s != [] && InClass(s[0], drop) then LStrip(s[1..], drop) else s
  }

  /** str.rstrip(chars): removes every trailing character in the set. */
  function RStrip(s: string, drop: CharClass): (r: string)
    ensures |r| <= |s| && r == s[..|r|]
    ensures forall k :: |r| <= k < |s| ==> InClass(s[k], drop)
    ensures r == [] || !InClass(r[|r| - 1], drop)
  {
    if s != [] && InClass(s[|s| - 1], drop) then RStrip(s[..|s| - 1], drop) else s
  }

  /** str.strip(chars): both ends. */
  function Strip(s: string, drop: CharClass): (r: string)
    ensures exists i :: StrippedAt(s, r, i, drop)
    ensures r == [] || (!InClass(r[0], drop) && !InClass(r[|r| - 1], drop))
    ensures r == [] ==> forall k :: 0 <= k < |s| ==> InClass(s[k], drop)
  {
    var l := LStrip(s, drop);
    var r := RStrip(l, drop);
    assert StrippedAt(s, r, |s| - |l|, drop) by {
      assert s[|s| - |l|..][..|r|] == s[|s| - |l|..|s| - |l| + |r|];
      forall k | |s| - |l| + |r| <= k < |s| ensures InClass(s[k], drop) {
        assert s[k] == l[k - (|s| - |l|)];
      }
    }
    r
  }

  /** Strip computes the strip IsStripOf describes. */
  lemma StripIsStripOf(s: string, drop: CharClass)
    ensures IsStripOf(s, Strip(s, drop), drop)
  {
  }

  /** Strip leaves nothing exactly when every character is dropped. */
  lemma StripEmpty(s: string, drop: CharClass)
    ensures Strip(s, drop) == [] <==> forall k :: 0 <= k < |s| ==> InClass(s[k], drop)
  {
    var r := Strip(s, drop);
    if r != [] {
      var i :| StrippedAt(s, r, i, drop);
      assert s[i] == r[0];
    }
  }

  /** RStrip computes the rstrip IsRStripOf describes. */
  lemma RStripIsRStripOf(s: string, drop: CharClass)
    ensures IsRStripOf(s, RStrip(s, drop), drop)
  {
  }

  /** Only one string is a strip of `s`, so IsStripOf pins the value. */
  lemma StripOfUnique(s: string, r1: string, r2: string, drop: CharClass)
    requires IsStripOf(s, r1, drop) && IsStripOf(s, r2, drop)
    ensures r1 == r2
  {
    var i1 :| StrippedAt(s, r1, i1, drop);
    var i2 :| StrippedAt(s, r2, i2, drop);
  }

  /** Only one string is an rstrip of `s`. */
  lemma RStripOfUnique(s: string, r1: string, r2: string, drop: CharClass)
    requires IsRStripOf(s, r1, drop) && IsRStripOf(s, r2, drop)
    ensures r1 == r2
  {
  }

  lemma {:induction false} InfixTransitive(a: string, b: string, c: string)
    requires Infix(a, b) && Infix(b, c)
    ensures Infix(a, c)
  {
    var i :| OccursAt(a, b, i);
    var j :| OccursAt(b, c, j);
    forall k | 0 <= k < |a| ensures c[j + i + k] == a[k] {
      assert a[k] == b[i + k] && b[i + k] == c[j + i + k];
    }
    assert OccursAt(a, c, j + i);
  }

  /** The text before the first `sep`, i.e. s.split(sep)[0]. */
  function Before(s: string, sep: char): (r: string)
    ensures |r| <= |s| && r == s[..|r|]
    ensures sep !in r
    ensures |r| < |s| ==> s[|r|] == sep
  {
    if s == [] || s[0] == sep then [] else [s[0]] + Before(s[1..], sep)
  }

  /** Joins parts with `sep` between consecutive ones (sep.join(parts)). */
  function Join(parts: seq<string>, sep: char): string {
    if parts == [] then []
    else if |parts| == 1 then parts[0]
    else parts[0] + [sep] + Join(parts[1..], sep)
  }

  /** str.split(sep) with an explicit one-character separator: the pieces
      between separators, an empty piece at each end where `s` starts or
      ends with one. */
  function Split(s: string, sep: char): (parts: seq<string>)
    ensures |parts| > 0
    ensures forall k :: 0 <= k < |parts| ==> sep !in parts[k]
    ensures Join(parts, sep) == s
    decreases |s|
  {
    var head := Before(s, sep);
    if |head| == |s| then [s]
    else
      var rest := Split(s[|head| + 1..], sep);
      assert s == head + [sep] + s[|head| + 1..];
      [head] + rest
  }

  /** Stripping a string whose two ends are kept leaves it unchanged. */
  lemma StripKeepsClean(s: string, drop: CharClass)
    requires s != [] && !InClass(s[0], drop) && !InClass(s[|s| - 1], drop)
    ensures Strip(s, drop) == s
  {
    assert LStrip(s, drop) == s;
    assert RStrip(s, drop) == s;
  }

  /** Strip keeps exactly s[i..j] when s[..i] and s[j..] are all dropped
      characters and s[i], s[j - 1] are kept ones. */
  lemma StripSpan(s: string, drop: CharClass, i: int, j: int)
    requires 0 <= i < j <= |s|
    requires forall k :: 0 <= k < i ==> InClass(s[k], drop)
    requires forall k :: j <= k < |s| ==> InClass(s[k], drop)
    requires !InClass(s[i], drop) && !InClass(s[j - 1], drop)
    ensures Strip(s, drop) == s[i..j]
  {
    var r := Strip(s, drop);
    var h :| StrippedAt(s, r, h, drop);
    assert h == i && |r| == j - i;
  }

  /** Stripping a run of dropped characters followed by a string whose two
      ends are kept leaves that string. */
  lemma StripLeading(lead: string, rest: string, drop: CharClass)
    requires forall k :: 0 <= k < |lead| ==> InClass(lead[k], drop)
    requires rest != [] && !InClass(rest[0], drop) && !InClass(rest[|rest| - 1], drop)
    ensures Strip(lead + rest, drop) == rest
  {
    var s := lead + rest;
    assert forall k :: 0 <= k < |lead| ==> s[k] == lead[k];
    assert s[|lead|] == rest[0] && s[|s| - 1] == rest[|rest| - 1];
    StripSpan(s, drop, |lead|, |s|);
    assert s[|lead|..|s|] == rest;
  }

  /** RStrip keeps exactly s[..j] when s[j..] is all dropped characters and
      s[j - 1] is a kept one. */
  lemma RStripTo(s: string, drop: CharClass, j: int)
    requires 0 < j <= |s|
    requires forall k :: j <= k < |s| ==> InClass(s[k], drop)
    requires !InClass(s[j - 1], drop)
    ensures RStrip(s, drop) == s[..j]
  {
  }

  /** The first piece of split(sep) ends at the first separator. */
  lemma SplitAt(s: string, sep: char, i: int)
    requires 0 <= i < |s| && s[i] == sep
    requires forall k :: 0 <= k < i ==> s[k] != sep
    ensures Split(s, sep) == [s[..i]] + Split(s[i + 1..], sep)
  {
    assert |Before(s, sep)| == i;
  }

  /** A string without the separator splits into itself alone. */
  lemma SplitWhole(s: string, sep: char)
    requires forall k :: 0 <= k < |s| ==> s[k] != sep
    ensures Split(s, sep) == [s]
  {
  }
}
