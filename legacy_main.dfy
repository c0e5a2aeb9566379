/**
 * The earlier is_xcode_project in main.py.  It differs from detection.py's in
 * form only: the suffix tests are written out with `or`, and a walk hit is
 * confirmed with Path.is_dir() before returning.  The walk lists only
 * directories, so that check always holds and the two versions agree.
 */
module LegacyMain {
  import opened Wrappers
  import opened Text
  import opened FileTree
  import Detection

  method IsXcodeProject(target: Option<Entry>) returns (found: bool)
    ensures !Detection.IsDirectory(target) ==> !found
    ensures Detection.IsDirectory(target) ==>
      (found <==> AnyDirBelow(target.value.children, Detection.BundleSuffixes))
  {
    if target.None? || !target.value.Dir? {
      return false;
    }
    var cs := target.value.children;
    found := ScanImmediate(cs);
    if found {
      var i := Detection.FirstBundleEntry(cs, Detection.BundleSuffixes).value;
      Detection.BundleFoundBelow(cs, i);
      return true;
    }
    found := ScanSubdirectories(cs);
    WalkHit([], cs, Detection.BundleSuffixes);
  }

  /** The first loop: an immediate entry that is a directory with either suffix. */
  method ScanImmediate(cs: seq<Entry>) returns (found: bool)
    ensures found <==> Detection.FirstBundleEntry(cs, Detection.BundleSuffixes).Some?
  {
    for i := 0 to |cs|
      invariant forall i' :: 0 <= i' < i ==> !Detection.IsBundleEntry(cs[i'], Detection.BundleSuffixes)
    {
      if cs[i].Dir? {
        if Suffix(cs[i].name) == Detection.ProjectSuffix || Suffix(cs[i].name) == Detection.WorkspaceSuffix {
          assert Detection.IsBundleEntry(cs[i], Detection.BundleSuffixes);
          return true;
        }
      }
    }
    return false;
  }

  /** The second loop: the walk's subdirectory names by str.endswith, each hit
      checked with is_dir() before returning. */
  method ScanSubdirectories(cs: seq<Entry>) returns (found: bool)
    ensures found <==> StepsHit(Walk([], cs), Detection.BundleSuffixes)
  {
    var steps := Walk([], cs);
    var sufs := Detection.BundleSuffixes;
    for k := 0 to |steps|
      invariant forall k' :: 0 <= k' < k ==> !NamesHit(steps[k'].dirs, sufs)
    {
      var dirs := steps[k].dirs;
      for j := 0 to |dirs|
        invariant forall j' :: 0 <= j' < j ==> !EndsWithAny(dirs[j'], sufs)
      {
        var name := dirs[j];
        EitherSuffix(name);
        if EndsWith(name, Detection.ProjectSuffix) || EndsWith(name, Detection.WorkspaceSuffix) {
          WalkListsDirs(cs, k, j);
          if IsDirAt(cs, steps[k].root + [name]) {
            return true;
          }
        }
      }
    }
    return false;
  }

  /** The two suffix tests written out with `or` are the tuple form of endswith. */
  lemma EitherSuffix(name: string)
    ensures EndsWithAny(name, Detection.BundleSuffixes) <==>
            EndsWith(name, Detection.ProjectSuffix) || EndsWith(name, Detection.WorkspaceSuffix)
  {
    var sufs := Detection.BundleSuffixes;
    assert sufs[0] == Detection.ProjectSuffix && sufs[1] == Detection.WorkspaceSuffix;
  }

  /** On every tree the two versions of is_xcode_project give the same answer. */
  method BothVersionsAgree(target: Option<Entry>) returns (legacy: bool, current: bool)
    ensures legacy == current
  {
    legacy := IsXcodeProject(target);
    current := Detection.IsXcodeProject(target);
  }
}
