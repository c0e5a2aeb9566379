/**
 * A finite directory tree with ordered entries, the two ways the locator looks
 * at it (pathlib's Path.suffix and the top-down os.walk), and the facts about
 * them that both versions of the locator rely on.
 */
module FileTree {
  import opened Wrappers
  import opened Text

  /** A directory entry: a file, or a directory holding its entries in listing order. */
  datatype Entry = File(name: string) | Dir(name: string, children: seq<Entry>)

  /** A path below the searched directory, as its components. */
  type Path = seq<string>

  /** One triple of os.walk with the file names dropped: a directory's path
      below the top and the names of its subdirectories. */
  datatype WalkStep = WalkStep(root: Path, dirs: seq<string>)

  /** Names of the directory entries among `cs`, in listing order. */
  function DirNames(cs: seq<Entry>): seq<string> {
    if cs == [] then [] else (if cs[0].Dir? then [cs[0].name] else []) + DirNames(cs[1..])
  }

  /** Below a directory whose entries are `cs`, the path `p` names a directory
      (Path.is_dir() on the joined path). */
  predicate IsDirAt(cs: seq<Entry>, p: Path)
    decreases cs
  {
    p == []
    || (cs != []
        && ((cs[0].Dir? && cs[0].name == p[0] && IsDirAt(cs[0].children, p[1..]))
            || IsDirAt(cs[1..], p)))
  }

  /** Reference definition: some directory at any depth below `cs`, immediate
      entries included, has a name ending in one of `suffixes`. */
  predicate AnyDirBelow(cs: seq<Entry>, suffixes: seq<string>)
    decreases cs
  {
    cs != []
    && ((cs[0].Dir? && (EndsWithAny(cs[0].name, suffixes) || AnyDirBelow(cs[0].children, suffixes)))
        || AnyDirBelow(cs[1..], suffixes))
  }

  /** `p` is `root` itself or a path below it. */
  predicate Under(root: Path, p: Path) {
    |root| <= |p| && p[..|root|] == root
  }

  /** os.walk(top) in its default top-down order, for a top directory with
      entries `cs` at path `root`: the directory itself first, then the walk of
      each subdirectory in listing order.  Every step lies at or below `root`. */
  function Walk(root: Path, cs: seq<Entry>): (steps: seq<WalkStep>)
    ensures |steps| > 0 && steps[0] == WalkStep(root, DirNames(cs))
    ensures forall k :: 0 <= k < |steps| ==> Under(root, steps[k].root)
    decreases cs, 1
  {
    [WalkStep(root, DirNames(cs))] + WalkBelow(root, cs)
  }

  /** The walks of the subdirectories among `cs`, one after the other: every
      step lies strictly below `root`. */
  function WalkBelow(root: Path, cs: seq<Entry>): (steps: seq<WalkStep>)
    ensures forall k :: 0 <= k < |steps| ==> Under(root, steps[k].root) && |steps[k].root| > |root|
    decreases cs, 0
  {
    if cs == [] then []
    else
      var first := if cs[0].Dir? then Walk(root + [cs[0].name], cs[0].children) else [];
      var rest := WalkBelow(root, cs[1..]);
      assert forall k :: 0 <= k < |first| ==> Under(root, first[k].root) && |first[k].root| > |root| by {
        forall k | 0 <= k < |first| ensures Under(root, first[k].root) && |first[k].root| > |root| {
          var sub := root + [cs[0].name];
          assert Under(sub, first[k].root);
          assert first[k].root[..|root|] == sub[..|root|];
        }
      }
      first + rest
  }

  /** Some name in `names` ends in one of `suffixes`. */
  predicate NamesHit(names: seq<string>, suffixes: seq<string>) {
    exists j :: 0 <= j < |names| && EndsWithAny(names[j], suffixes)
  }

  /** Some step of a walk lists a subdirectory whose name ends in one of `suffixes`. */
  predicate StepsHit(steps: seq<WalkStep>, suffixes: seq<string>) {
    exists k :: 0 <= k < |steps| && NamesHit(steps[k].dirs, suffixes)
  }

  /** (k, j) is the first place, in walk order, where a subdirectory name ends
      in one of `suffixes`: every earlier step lists none, and in step k the
      names before j do not. */
  predicate FirstHitAt(steps: seq<WalkStep>, suffixes: seq<string>, k: int, j: int) {
    0 <= k < |steps| && 0 <= j < |steps[k].dirs|
    && EndsWithAny(steps[k].dirs[j], suffixes)
    && (forall k' :: 0 <= k' < k ==> !NamesHit(steps[k'].dirs, suffixes))
    && (forall j' :: 0 <= j' < j ==> !EndsWithAny(steps[k].dirs[j'], suffixes))
  }

  /** The position in `names` of the first name ending in one of `suffixes`. */
  function FirstName(names: seq<string>, suffixes: seq<string>): (r: Option<nat>)
    ensures r.Some? ==> r.value < |names| && EndsWithAny(names[r.value], suffixes)
                        && forall j :: 0 <= j < r.value ==> !EndsWithAny(names[j], suffixes)
    ensures r.None? <==> !NamesHit(names, suffixes)
  {
    if names == [] then None
    else if EndsWithAny(names[0], suffixes) then Some(0)
    else match FirstName(names[1..], suffixes)
      case None => (assert forall j :: 1 <= j < |names| ==> names[j] == names[1..][j - 1]; None)
      case Some(j) => Some(j + 1)
  }

  /** The path that a scan of the walk's subdirectory lists, step by step and
      each list in order, reaches first with a name ending in one of `suffixes`. */
  function FirstWalkHit(steps: seq<WalkStep>, suffixes: seq<string>): (p: Option<Path>)
    ensures p.None? <==> !StepsHit(steps, suffixes)
    ensures p.Some? ==> exists k, j :: FirstHitAt(steps, suffixes, k, j)
                                      && p.value == steps[k].root + [steps[k].dirs[j]]
  {
    if steps == [] then None
    else match FirstName(steps[0].dirs, suffixes)
      case Some(j) =>
        assert FirstHitAt(steps, suffixes, 0, j);
        Some(steps[0].root + [steps[0].dirs[j]])
      case None =>
        var rest := FirstWalkHit(steps[1..], suffixes);
        StepsHitFirst(steps, suffixes);
        if rest.Some? then
          var k, j :| FirstHitAt(steps[1..], suffixes, k, j)
                      && rest.value == steps[1..][k].root + [steps[1..][k].dirs[j]];
          FirstHitLater(steps, suffixes, k, j);
          rest
        else
          rest
  }

  /** A walk hits in its first step or in the steps after it. */
  lemma StepsHitFirst(steps: seq<WalkStep>, suffixes: seq<string>)
    requires steps != []
    ensures StepsHit(steps, suffixes) <==> NamesHit(steps[0].dirs, suffixes) || StepsHit(steps[1..], suffixes)
  {
    assert steps == [steps[0]] + steps[1..];
    StepsHitConcat([steps[0]], steps[1..], suffixes);
    assert StepsHit([steps[0]], suffixes) <==> NamesHit(steps[0].dirs, suffixes) by {
      assert [steps[0]][0] == steps[0];
    }
  }

  /** With no hit in the first step, the first hit of the later steps is the
      first hit of the walk, one step further on. */
  lemma FirstHitLater(steps: seq<WalkStep>, suffixes: seq<string>, k: int, j: int)
    requires steps != [] && !NamesHit(steps[0].dirs, suffixes)
    requires FirstHitAt(steps[1..], suffixes, k, j)
    ensures FirstHitAt(steps, suffixes, k + 1, j)
  {
    assert forall m :: 1 <= m < |steps| ==> steps[m] == steps[1..][m - 1];
  }

  /** The first hit is the path the scan returns. */
  lemma FirstHitIs(steps: seq<WalkStep>, suffixes: seq<string>, k: int, j: int)
    requires FirstHitAt(steps, suffixes, k, j)
    ensures FirstWalkHit(steps, suffixes) == Some(steps[k].root + [steps[k].dirs[j]])
  {
    var hit := FirstWalkHit(steps, suffixes);
    assert StepsHit(steps, suffixes);
    var k2, j2 :| FirstHitAt(steps, suffixes, k2, j2)
                  && hit.value == steps[k2].root + [steps[k2].dirs[j2]];
    FirstHitAtUnique(steps, suffixes, k, j, k2, j2);
  }

  lemma FirstHitAtUnique(steps: seq<WalkStep>, suffixes: seq<string>, k: int, j: int, k2: int, j2: int)
    requires FirstHitAt(steps, suffixes, k, j) && FirstHitAt(steps, suffixes, k2, j2)
    ensures k == k2 && j == j2
  {
  }

  /** The last index of character `c` in `s` (str.rfind). */
  function RFind(s: string, c: char): (r: Option<nat>)
    ensures r.Some? ==> r.value < |s| && s[r.value] == c
                        && forall k :: r.value < k < |s| ==> s[k] != c
    ensures r.None? ==> forall k :: 0 <= k < |s| ==> s[k] != c
  {
    if s == [] then None
    else if s[|s| - 1] == c then Some(|s| - 1)
    else RFind(s[..|s| - 1], c)
  }

  /** pathlib's Path.suffix of a final component: from the last dot on, when
      that dot is neither the first nor the last character; "" otherwise. */
  function Suffix(name: string): string {
    match RFind(name, '.')
    case Some(i) => if 0 < i < |name| - 1 then name[i..] else ""
    case None => ""
  }

  /** A non-empty suffix is an extension that ends the name and is shorter
      than it; the suffix is empty exactly when the name ends in a dot or has
      no dot after its first character. */
  lemma SuffixMeaning(name: string)
    ensures var ext := Suffix(name);
            && (ext != "" ==> IsExtension(ext) && EndsWith(name, ext) && |ext| < |name|)
            && (ext == "" <==> (name != [] && name[|name| - 1] == '.')
                               || forall k :: 0 < k < |name| ==> name[k] != '.')
  {
    match RFind(name, '.')
    case Some(i) =>
      if 0 < i < |name| - 1 {
        assert name[i..][0] == '.';
      }
    case None =>
  }

  /** An extension such as ".xcodeproj": one leading dot, no other. */
  predicate IsExtension(ext: string) {
    |ext| >= 2 && ext[0] == '.' && forall k :: 1 <= k < |ext| ==> ext[k] != '.'
  }

  /** A name that ends in an extension and is longer than it has that
      extension as its suffix. */
  lemma SuffixOfExtended(name: string, ext: string)
    requires IsExtension(ext) && EndsWith(name, ext) && |name| > |ext|
    ensures Suffix(name) == ext
  {
    var d := |name| - |ext|;
    assert name[d] == ext[0];
    forall k | d < k < |name| ensures name[k] != '.' {
      assert name[k] == ext[k - d];
    }
    assert RFind(name, '.') == Some(d);
  }

  /** For an extension, `Path.suffix == ext` holds exactly when the name ends in
      `ext` and is longer than it, so a bare ".xcodeproj" has an empty suffix. */
  lemma SuffixIs(name: string, ext: string)
    requires IsExtension(ext)
    ensures Suffix(name) == ext <==> EndsWith(name, ext) && |name| > |ext|
  {
    if EndsWith(name, ext) && |name| > |ext| {
      SuffixOfExtended(name, ext);
    }
    if Suffix(name) == ext {
      var i := RFind(name, '.').value;
      assert 0 < i < |name| - 1 && name[i..] == ext;
    }
  }

  /** Each name os.walk lists in the top step is a directory entry. */
  lemma {:induction false} DirNamesAreDirs(cs: seq<Entry>, j: int)
    requires 0 <= j < |DirNames(cs)|
    ensures IsDirAt(cs, [DirNames(cs)[j]])
  {
    var first := if cs[0].Dir? then [cs[0].name] else [];
    if j < |first| {
      assert IsDirAt(cs[0].children, []);
    } else {
      DirNamesAreDirs(cs[1..], j - |first|);
    }
  }

  /** A walk step at path `step.root` lists `step.dirs[j]`, and that is a
      directory lying below the walk's top `root`. */
  predicate ListedBelow(root: Path, cs: seq<Entry>, step: WalkStep, j: int) {
    0 <= j < |step.dirs| && |root| <= |step.root| && step.root[..|root|] == root
    && IsDirAt(cs, step.root[|root|..] + [step.dirs[j]])
  }

  /** Every (dirpath, dirname) pair os.walk yields names a real directory in
      the tree, which is why main.py's extra is_dir() check always holds. */
  lemma {:induction false} WalkSound(root: Path, cs: seq<Entry>, k: int, j: int)
    requires 0 <= k < |Walk(root, cs)| && 0 <= j < |Walk(root, cs)[k].dirs|
    ensures ListedBelow(root, cs, Walk(root, cs)[k], j)
    decreases cs, 1
  {
    if k == 0 {
      var step := Walk(root, cs)[0];
      assert step == WalkStep(root, DirNames(cs));
      assert step.root[|root|..] + [step.dirs[j]] == [DirNames(cs)[j]];
      DirNamesAreDirs(cs, j);
    } else {
      WalkBelowSound(root, cs, k - 1, j);
    }
  }

  lemma {:induction false} WalkBelowSound(root: Path, cs: seq<Entry>, k: int, j: int)
    requires 0 <= k < |WalkBelow(root, cs)| && 0 <= j < |WalkBelow(root, cs)[k].dirs|
    ensures ListedBelow(root, cs, WalkBelow(root, cs)[k], j)
    decreases cs, 0
  {
    var first := if cs[0].Dir? then Walk(root + [cs[0].name], cs[0].children) else [];
    assert WalkBelow(root, cs) == first + WalkBelow(root, cs[1..]);
    if k < |first| {
      WalkSound(root + [cs[0].name], cs[0].children, k, j);
      ListedInFirst(root, cs, first[k], j);
    } else {
      WalkBelowSound(root, cs[1..], k - |first|, j);
      ListedInRest(root, cs, WalkBelow(root, cs[1..])[k - |first|], j);
    }
  }

  /** What is listed below the first entry is listed below the whole directory. */
  lemma ListedInFirst(root: Path, cs: seq<Entry>, step: WalkStep, j: int)
    requires cs != [] && cs[0].Dir?
    requires ListedBelow(root + [cs[0].name], cs[0].children, step, j)
    ensures ListedBelow(root, cs, step, j)
  {
    var sub := root + [cs[0].name];
    assert step.root[..|root|] == sub[..|root|] == root;
    assert step.root[|root|..] == [cs[0].name] + step.root[|sub|..];
    var q := step.root[|root|..] + [step.dirs[j]];
    assert q[1..] == step.root[|sub|..] + [step.dirs[j]];
  }

  /** What is listed below the later entries is listed below the whole directory. */
  lemma ListedInRest(root: Path, cs: seq<Entry>, step: WalkStep, j: int)
    requires cs != [] && ListedBelow(root, cs[1..], step, j)
    ensures ListedBelow(root, cs, step, j)
  {
  }

  /** Every name the walk from the top lists, joined to its step's path, is a
      directory of the tree. */
  lemma WalkListsDirs(cs: seq<Entry>, k: int, j: int)
    requires 0 <= k < |Walk([], cs)| && 0 <= j < |Walk([], cs)[k].dirs|
    ensures IsDirAt(cs, Walk([], cs)[k].root + [Walk([], cs)[k].dirs[j]])
  {
    WalkSound([], cs, k, j);
    var step := Walk([], cs)[k];
    assert step.root[0..] == step.root;
  }

  /** The first hit of the walk from the top is the path the scan returns,
      and it names a directory of the tree. */
  lemma FirstHitPath(cs: seq<Entry>, suffixes: seq<string>, k: int, j: int)
    requires FirstHitAt(Walk([], cs), suffixes, k, j)
    ensures var step := Walk([], cs)[k];
            FirstWalkHit(Walk([], cs), suffixes) == Some(step.root + [step.dirs[j]])
            && IsDirAt(cs, step.root + [step.dirs[j]])
  {
    FirstHitIs(Walk([], cs), suffixes, k, j);
    WalkListsDirs(cs, k, j);
  }

  /** The scan's result is None exactly when no directory below has one of
      the suffixes; a path it finds is a directory of the tree whose last
      component has one. */
  lemma FirstWalkHitFacts(cs: seq<Entry>, suffixes: seq<string>)
    ensures var hit := FirstWalkHit(Walk([], cs), suffixes);
            && (hit.None? <==> !AnyDirBelow(cs, suffixes))
            && (hit.Some? ==> hit.value != [] && IsDirAt(cs, hit.value)
                              && EndsWithAny(hit.value[|hit.value| - 1], suffixes))
  {
    WalkHit([], cs, suffixes);
    if FirstWalkHit(Walk([], cs), suffixes).Some? {
      FirstWalkHitFound(cs, suffixes);
    }
  }

  lemma FirstWalkHitFound(cs: seq<Entry>, suffixes: seq<string>)
    requires FirstWalkHit(Walk([], cs), suffixes).Some?
    ensures var p := FirstWalkHit(Walk([], cs), suffixes).value;
            p != [] && IsDirAt(cs, p) && EndsWithAny(p[|p| - 1], suffixes)
  {
    var steps := Walk([], cs);
    var p := FirstWalkHit(steps, suffixes).value;
    var k, j :| FirstHitAt(steps, suffixes, k, j) && p == steps[k].root + [steps[k].dirs[j]];
    FirstHitPath(cs, suffixes, k, j);
    assert p[|p| - 1] == steps[k].dirs[j];
  }

  lemma NamesHitConcat(a: seq<string>, b: seq<string>, suffixes: seq<string>)
    ensures NamesHit(a + b, suffixes) <==> NamesHit(a, suffixes) || NamesHit(b, suffixes)
  {
    if NamesHit(a, suffixes) {
      var j :| 0 <= j < |a| && EndsWithAny(a[j], suffixes);
      assert (a + b)[j] == a[j];
    }
    if NamesHit(b, suffixes) {
      var j :| 0 <= j < |b| && EndsWithAny(b[j], suffixes);
      assert (a + b)[|a| + j] == b[j];
    }
    if NamesHit(a + b, suffixes) {
      var j :| 0 <= j < |a + b| && EndsWithAny((a + b)[j], suffixes);
      if j >= |a| { assert (a + b)[j] == b[j - |a|]; }
    }
  }

  lemma StepsHitConcat(a: seq<WalkStep>, b: seq<WalkStep>, suffixes: seq<string>)
    ensures StepsHit(a + b, suffixes) <==> StepsHit(a, suffixes) || StepsHit(b, suffixes)
  {
    if StepsHit(a, suffixes) {
      var k :| 0 <= k < |a| && NamesHit(a[k].dirs, suffixes);
      assert (a + b)[k] == a[k];
    }
    if StepsHit(b, suffixes) {
      var k :| 0 <= k < |b| && NamesHit(b[k].dirs, suffixes);
      assert (a + b)[|a| + k] == b[k];
    }
    if StepsHit(a + b, suffixes) {
      var k :| 0 <= k < |a + b| && NamesHit((a + b)[k].dirs, suffixes);
      if k >= |a| { assert (a + b)[k] == b[k - |a|]; }
    }
  }

  /** The walk finds a subdirectory name with one of the suffixes exactly when
      the tree has such a directory somewhere below the top. */
  lemma {:induction false} WalkHit(root: Path, cs: seq<Entry>, suffixes: seq<string>)
    ensures StepsHit(Walk(root, cs), suffixes) <==> AnyDirBelow(cs, suffixes)
    decreases cs
  {
    var top := [WalkStep(root, DirNames(cs))];
    StepsHitConcat(top, WalkBelow(root, cs), suffixes);
    assert StepsHit(top, suffixes) <==> NamesHit(DirNames(cs), suffixes) by {
      assert top[0].dirs == DirNames(cs);
    }
    if cs != [] {
      var c := cs[0];
      var names0 := if c.Dir? then [c.name] else [];
      var first := if c.Dir? then Walk(root + [c.name], c.children) else [];
      NamesHitConcat(names0, DirNames(cs[1..]), suffixes);
      assert NamesHit(names0, suffixes) <==> c.Dir? && EndsWithAny(c.name, suffixes) by {
        if c.Dir? { assert names0[0] == c.name; }
      }
      StepsHitConcat(first, WalkBelow(root, cs[1..]), suffixes);
      if c.Dir? {
        WalkHit(root + [c.name], c.children, suffixes);
      }
      var rest := [WalkStep(root, DirNames(cs[1..]))];
      StepsHitConcat(rest, WalkBelow(root, cs[1..]), suffixes);
      assert StepsHit(rest, suffixes) <==> NamesHit(DirNames(cs[1..]), suffixes) by {
        assert rest[0].dirs == DirNames(cs[1..]);
      }
      WalkHit(root, cs[1..], suffixes);
    } else {
      assert DirNames(cs) == [];
    }
  }

  /** An immediate directory entry with one of the suffixes is found below. */
  lemma {:induction false} ChildDirBelow(cs: seq<Entry>, i: int, suffixes: seq<string>)
    requires 0 <= i < |cs| && cs[i].Dir? && EndsWithAny(cs[i].name, suffixes)
    ensures AnyDirBelow(cs, suffixes)
  {
    if i > 0 {
      ChildDirBelow(cs[1..], i - 1, suffixes);
    }
  }

  /** A directory at path `p` whose last component ends in a suffix is found below. */
  lemma {:induction false} DirAtBelow(cs: seq<Entry>, p: Path, suffixes: seq<string>)
    requires p != [] && IsDirAt(cs, p) && EndsWithAny(p[|p| - 1], suffixes)
    ensures AnyDirBelow(cs, suffixes)
    decreases cs
  {
    if cs[0].Dir? && cs[0].name == p[0] && IsDirAt(cs[0].children, p[1..]) {
      if |p| > 1 {
        DirAtBelow(cs[0].children, p[1..], suffixes);
      }
    } else {
      DirAtBelow(cs[1..], p, suffixes);
    }
  }

  /** Looking for more suffixes finds at least as much. */
  lemma {:induction false} AnyDirBelowWiden(cs: seq<Entry>, few: seq<string>, more: seq<string>)
    requires forall k :: 0 <= k < |few| ==> few[k] in more
    requires AnyDirBelow(cs, few)
    ensures AnyDirBelow(cs, more)
    decreases cs
  {
    var c := cs[0];
    if c.Dir? && EndsWithAny(c.name, few) {
      var k :| 0 <= k < |few| && EndsWith(c.name, few[k]);
      var m :| 0 <= m < |more| && more[m] == few[k];
      assert EndsWith(c.name, more[m]);
    } else if c.Dir? && AnyDirBelow(c.children, few) {
      AnyDirBelowWiden(c.children, few, more);
    } else {
      AnyDirBelowWiden(cs[1..], few, more);
    }
  }
}
