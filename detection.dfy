/**
 * The project locator of src/xcode_optimise/detection.py: is_xcode_project and
 * find_xcode_project_path.  The directory argument is what the path names on
 * disk: nothing (None), a file, or a directory with its entries.  Both first
 * scan the directory's own entries by Path.suffix, then scan os.walk's
 * subdirectory lists by str.endswith, returning at the first hit.
 */
module Detection {
  import opened Wrappers
  import opened Text
  import opened FileTree

  const ProjectSuffix := ".xcodeproj"
  const WorkspaceSuffix := ".xcworkspace"
  const BundleSuffixes := [ProjectSuffix, WorkspaceSuffix]

  /** The path exists and is a directory. */
  predicate IsDirectory(target: Option<Entry>) {
    target.Some? && target.value.Dir?
  }

  /** An entry the first phase accepts: a directory whose Path.suffix is one of `exts`. */
  predicate IsBundleEntry(e: Entry, exts: seq<string>) {
    e.Dir? && Suffix(e.name) in exts
  }

  /** The position of the first entry, in listing order, that the first phase accepts. */
  function FirstBundleEntry(cs: seq<Entry>, exts: seq<string>): (r: Option<nat>)
    ensures r.Some? ==> r.value < |cs| && IsBundleEntry(cs[r.value], exts)
                        && forall i :: 0 <= i < r.value ==> !IsBundleEntry(cs[i], exts)
    ensures r.None? ==> forall i :: 0 <= i < |cs| ==> !IsBundleEntry(cs[i], exts)
  {
    if cs == [] then None
    else if IsBundleEntry(cs[0], exts) then Some(0)
    else match FirstBundleEntry(cs[1..], exts)
      case None => (assert forall i :: 1 <= i < |cs| ==> cs[i] == cs[1..][i - 1]; None)
      case Some(i) => Some(i + 1)
  }

  /** An entry the first phase accepts is a directory found below with the
      same suffixes by str.endswith. */
  lemma BundleEntryBelow(cs: seq<Entry>, i: int, exts: seq<string>)
    requires forall k :: 0 <= k < |exts| ==> IsExtension(exts[k])
    requires 0 <= i < |cs| && IsBundleEntry(cs[i], exts)
    ensures AnyDirBelow(cs, exts)
  {
    var k :| 0 <= k < |exts| && exts[k] == Suffix(cs[i].name);
    SuffixIs(cs[i].name, exts[k]);
    ChildDirBelow(cs, i, exts);
  }

  /** An entry the first phase of is_xcode_project accepts is found below. */
  lemma BundleFoundBelow(cs: seq<Entry>, i: int)
    requires 0 <= i < |cs| && IsBundleEntry(cs[i], BundleSuffixes)
    ensures AnyDirBelow(cs, BundleSuffixes)
  {
    assert IsExtension(BundleSuffixes[0]) && IsExtension(BundleSuffixes[1]) by {
      ProjectSuffixIsExtension();
    }
    BundleEntryBelow(cs, i, BundleSuffixes);
  }

  /** is_xcode_project: true exactly when the path is a directory with a
      directory named *.xcodeproj or *.xcworkspace somewhere below it. */
  method IsXcodeProject(target: Option<Entry>) returns (found: bool)
    ensures !IsDirectory(target) ==> !found
    ensures IsDirectory(target) ==> (found <==> AnyDirBelow(target.value.children, BundleSuffixes))
  {
    if target.None? || !target.value.Dir? {
      return false;
    }
    var cs := target.value.children;

    // Immediate entries first, by Path.suffix.
    for i := 0 to |cs| {
      if cs[i].Dir? && Suffix(cs[i].name) in BundleSuffixes {
        BundleFoundBelow(cs, i);
        return true;
      }
    }

    // Then every subdirectory list of the walk, by str.endswith.
    var steps := Walk([], cs);
    WalkHit([], cs, BundleSuffixes);
    for k := 0 to |steps|
      invariant forall k' :: 0 <= k' < k ==> !NamesHit(steps[k'].dirs, BundleSuffixes)
    {
      var dirs := steps[k].dirs;
      for j := 0 to |dirs|
        invariant forall j' :: 0 <= j' < j ==> !EndsWithAny(dirs[j'], BundleSuffixes)
      {
        if EndsWithAny(dirs[j], BundleSuffixes) {
          return true;
        }
      }
    }
    return false;
  }

  /** What find_xcode_project_path returns for a directory with entries `cs`:
      the first immediate directory entry whose Path.suffix is ".xcodeproj";
      failing that, the first subdirectory in walk order whose name ends in
      ".xcodeproj".  It is None exactly when no directory below ends in
      ".xcodeproj"; a path found is a directory below the searched one, and
      its last component ends in ".xcodeproj". */
  function ProjectPath(cs: seq<Entry>): (p: Option<Path>)
    ensures p.None? <==> !AnyDirBelow(cs, [ProjectSuffix])
    ensures p.Some? ==> p.value != [] && IsDirAt(cs, p.value) && EndsWith(p.value[|p.value| - 1], ProjectSuffix)
  {
    match FirstBundleEntry(cs, [ProjectSuffix])
    case Some(i) =>
      ProjectEntryFound(cs, i);
      Some([cs[i].name])
    case None =>
      FirstWalkHitFacts(cs, [ProjectSuffix]);
      var hit := FirstWalkHit(Walk([], cs), [ProjectSuffix]);
      if hit.Some? then
        OneSuffix(hit.value[|hit.value| - 1], ProjectSuffix);
        hit
      else
        hit
  }

  /** A project path found below a directory means that it holds an Xcode
      project in the sense of is_xcode_project. */
  lemma ProjectPathDetected(cs: seq<Entry>)
    ensures ProjectPath(cs).Some? ==> AnyDirBelow(cs, BundleSuffixes)
  {
    if ProjectPath(cs).Some? {
      AnyDirBelowWiden(cs, [ProjectSuffix], BundleSuffixes);
    }
  }

  /** endswith with a one-element tuple is endswith with that element. */
  lemma OneSuffix(name: string, suffix: string)
    ensures EndsWithAny(name, [suffix]) <==> EndsWith(name, suffix)
  {
    assert [suffix][0] == suffix;
  }

  /** A directory entry with suffix ".xcodeproj" is a directory at its
      one-component path, its name ends in ".xcodeproj", and it is found below. */
  lemma ProjectEntryFound(cs: seq<Entry>, i: int)
    requires 0 <= i < |cs| && IsBundleEntry(cs[i], [ProjectSuffix])
    ensures AnyDirBelow(cs, [ProjectSuffix])
    ensures IsDirAt(cs, [cs[i].name]) && EndsWith(cs[i].name, ProjectSuffix)
  {
    BundleEntryBelow(cs, i, [ProjectSuffix]);
    SuffixIs(cs[i].name, ProjectSuffix);
    ChildIsDir(cs, i);
  }

  /** find_xcode_project_path: None when the path is missing or not a
      directory; otherwise ProjectPath of its entries, scanning the entries
      and then the walk. */
  method FindXcodeProjectPath(target: Option<Entry>) returns (p: Option<Path>)
    ensures !IsDirectory(target) ==> p == None
    ensures IsDirectory(target) ==> p == ProjectPath(target.value.children)
  {
    if target.None? || !target.value.Dir? {
      return None;
    }
    var cs := target.value.children;
    var i := ScanEntries(cs, ProjectSuffix);
    if i.Some? {
      return Some([cs[i.value].name]);
    }
    p := ScanWalk(Walk([], cs), ProjectSuffix);
  }

  /** find_xcode_project_path's first loop: the position of the first
      immediate directory entry whose Path.suffix is `ext`. */
  method ScanEntries(cs: seq<Entry>, ext: string) returns (r: Option<nat>)
    ensures r == FirstBundleEntry(cs, [ext])
  {
    for i := 0 to |cs|
      invariant forall i' :: 0 <= i' < i ==> !IsBundleEntry(cs[i'], [ext])
    {
      if cs[i].Dir? && Suffix(cs[i].name) == ext {
        assert IsBundleEntry(cs[i], [ext]);
        return Some(i);
      }
    }
    return None;
  }

  /** find_xcode_project_path's second loop: the walk's subdirectory lists,
      step by step and each in order, until a name ends in `ext`. */
  method ScanWalk(steps: seq<WalkStep>, ext: string) returns (p: Option<Path>)
    ensures p == FirstWalkHit(steps, [ext])
  {
    for k := 0 to |steps|
      invariant forall k' :: 0 <= k' < k ==> !NamesHit(steps[k'].dirs, [ext])
    {
      var dirs := steps[k].dirs;
      for j := 0 to |dirs|
        invariant forall j' :: 0 <= j' < j ==> !EndsWithAny(dirs[j'], [ext])
      {
        OneSuffix(dirs[j], ext);
        if EndsWith(dirs[j], ext) {
          FirstHitIs(steps, [ext], k, j);
          return Some(steps[k].root + [dirs[j]]);
        }
      }
    }
    return None;
  }

  /** An immediate directory entry is a directory at the one-component path of its name. */
  lemma ChildIsDir(cs: seq<Entry>, i: int)
    requires 0 <= i < |cs| && cs[i].Dir?
    ensures IsDirAt(cs, [cs[i].name])
  {
    if i > 0 {
      ChildIsDir(cs[1..], i - 1);
    } else {
      assert IsDirAt(cs[0].children, [cs[0].name][1..]);
    }
  }

  /** Whenever find_xcode_project_path finds a bundle, is_xcode_project
      answers true for the same path. */
  method FindThenDetect(target: Option<Entry>) returns (p: Option<Path>, found: bool)
    ensures p.Some? ==> found
  {
    p := FindXcodeProjectPath(target);
    found := IsXcodeProject(target);
    if p.Some? {
      ProjectPathDetected(target.value.children);
    }
  }

  lemma ProjectSuffixIsExtension()
    ensures IsExtension(ProjectSuffix) && IsExtension(WorkspaceSuffix)
  {
  }

  /** A directory named exactly ".xcodeproj" has an empty Path.suffix, so the
      first phase passes over it ... */
  lemma BareBundleSkippedByFirstPhase(cs: seq<Entry>)
    requires cs == [Dir(ProjectSuffix, [])]
    ensures FirstBundleEntry(cs, [ProjectSuffix]).None?
  {
    ProjectSuffixIsExtension();
    SuffixIs(ProjectSuffix, ProjectSuffix);
    assert !IsBundleEntry(cs[0], [ProjectSuffix]);
  }

  /** ... but the walk's str.endswith finds it. */
  lemma BareBundleFoundByWalk(cs: seq<Entry>)
    requires cs == [Dir(ProjectSuffix, [])]
    ensures FirstWalkHit(Walk([], cs), [ProjectSuffix]) == Some([ProjectSuffix])
  {
    var steps := Walk([], cs);
    assert DirNames(cs) == [ProjectSuffix] by {
      assert DirNames(cs[1..]) == [];
    }
    assert steps[0] == WalkStep([], [ProjectSuffix]);
    assert EndsWith(ProjectSuffix, [ProjectSuffix][0]);
    assert FirstName(steps[0].dirs, [ProjectSuffix]) == Some(0);
    assert FirstWalkHit(steps, [ProjectSuffix]) == Some(steps[0].root + [steps[0].dirs[0]]);
    assert steps[0].root + [steps[0].dirs[0]] == [ProjectSuffix];
  }


}
