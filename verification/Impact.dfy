// Fail-closed impact classification: changed paths to an impact (tools/otastctl/compatibility.py),
// and impact plus package evidence to acceptance (scripts/otast-maintenance.py).
module Impact {
  import opened Results
  import opened Ordering
  import PosixPath

  datatype Impact =
    | DocsOrCiOnly
    | PreservedSurface
    | NativeDependency
    | ManagedWholeFile
    | StructureSensitive
    | ModuleIdentity
    | UnknownPackage

  function Priority(i: Impact): nat {
    match i
    case DocsOrCiOnly => 10
    case PreservedSurface => 30
    case NativeDependency => 50
    case ManagedWholeFile => 60
    case StructureSensitive => 70
    case UnknownPackage => 75
    case ModuleIdentity => 80
  }

  // The six policy keys, in the order they are tried.
  const CATEGORIES: seq<Impact> := [DocsOrCiOnly, PreservedSurface, NativeDependency, ManagedWholeFile,
    StructureSensitive, ModuleIdentity]

  // Patterns by category; a category without a list has none.
  type Policy = map<Impact, seq<string>>

  // The glob match, path and pattern.
  type Glob = (string, string) -> bool

  datatype ClassifyError = NoPolicy | EmptyPathSet | UnsafeChangedPath(path: string)

  datatype PathImpact = PathImpact(path: string, impact: Impact, matched: set<Impact>)

  datatype Classification = Classification(impact: Impact, requiresReview: bool, paths: seq<PathImpact>)

  predicate UnsafePath(p: string) {
    p == "" || "/" <= p || ".." in PosixPath.Parts(p) || exists c :: c in p && (c == '\r' || c == '\n' || c == '\0')
  }

  // An unsafe path is empty, absolute, holds a line break or a zero character, or leads upwards.
  lemma UnsafeExact(p: string)
    ensures UnsafePath(p) <==>
      p == "" || p[0] == '/' || '\r' in p || '\n' in p || '\0' in p || ".." in PosixPath.Split(p)
  {
    assert "/" <= p <==> p != "" && p[0] == '/';
    assert !PosixPath.Dropped("..");
  }

  function Patterns(policy: Policy, i: Impact): seq<string> { if i in policy then policy[i] else [] }

  predicate MatchesAny(glob: Glob, path: string, patterns: seq<string>) { exists p :: p in patterns && glob(path, p) }

  function Matched(policy: Policy, glob: Glob, path: string): set<Impact> {
    set i | i in CATEGORIES && MatchesAny(glob, path, Patterns(policy, i))
  }

  function Higher(a: Impact, b: Impact): (r: Impact)
    ensures Priority(r) >= Priority(a) && Priority(r) >= Priority(b) && (r == a || r == b)
  {
    if Priority(a) >= Priority(b) then a else b
  }

  lemma PriorityInjective(a: Impact, b: Impact)
    requires Priority(a) == Priority(b)
    ensures a == b
  {}

  // The member of highest priority.
  function HighestOf(s: set<Impact>): (r: Impact)
    requires s != {}
    ensures r in s && forall i :: i in s ==> Priority(i) <= Priority(r)
  {
    if ModuleIdentity in s then ModuleIdentity
    else if UnknownPackage in s then UnknownPackage
    else if StructureSensitive in s then StructureSensitive
    else if ManagedWholeFile in s then ManagedWholeFile
    else if NativeDependency in s then NativeDependency
    else if PreservedSurface in s then PreservedSurface
    else
      assert DocsOrCiOnly in s by {
        var i :| i in s;
        assert i.DocsOrCiOnly? || i.PreservedSurface? || i.NativeDependency? || i.ManagedWholeFile?
            || i.StructureSensitive? || i.UnknownPackage? || i.ModuleIdentity?;
      }
      DocsOrCiOnly
  }

  // The impacts in ascending order of priority.
  lemma PriorityAscends()
    ensures Priority(DocsOrCiOnly) < Priority(PreservedSurface) < Priority(NativeDependency)
    ensures Priority(NativeDependency) < Priority(ManagedWholeFile) < Priority(StructureSensitive)
    ensures Priority(StructureSensitive) < Priority(UnknownPackage) < Priority(ModuleIdentity)
  {}

  // A path matches exactly the categories one of whose patterns matches it, each of the six.
  lemma MatchedExact(policy: Policy, glob: Glob, path: string, i: Impact)
    ensures i in Matched(policy, glob, path) <==>
      i != UnknownPackage && i in policy && exists p :: p in policy[i] && glob(path, p)
  {
    var c := CATEGORIES;
    assert c[0].DocsOrCiOnly? && c[1].PreservedSurface? && c[2].NativeDependency?;
    assert c[3].ManagedWholeFile? && c[4].StructureSensitive? && c[5].ModuleIdentity?;
    assert i in CATEGORIES <==> i != UnknownPackage;
  }

  function PathClass(policy: Policy, glob: Glob, path: string): PathImpact {
    var matched := Matched(policy, glob, path);
    PathImpact(path, if matched != {} then HighestOf(matched) else UnknownPackage, matched)
  }

  function Classes(policy: Policy, glob: Glob, paths: seq<string>): (r: seq<PathImpact>)
    ensures |r| == |paths| && forall i :: 0 <= i < |r| ==> r[i] == PathClass(policy, glob, paths[i])
  {
    seq(|paths|, i requires 0 <= i < |paths| => PathClass(policy, glob, paths[i]))
  }

  function Primary(classes: seq<PathImpact>): Impact
    requires classes != []
  {
    if |classes| == 1 then classes[0].impact else Higher(classes[0].impact, Primary(classes[1..]))
  }

  // sorted(set(...))
  function SortedPaths(s: seq<string>): seq<string> { SortedSet(set p | p in s) }

  function FirstUnsafe(paths: seq<string>): Option<string> {
    if paths == [] then None else if UnsafePath(paths[0]) then Some(paths[0]) else FirstUnsafe(paths[1..])
  }

  // policy is None where the record has no policy object.
  function ClassifyPaths(policy: Option<Policy>, glob: Glob,
                         changed: seq<string>): Result<Classification, ClassifyError> {
    if policy.None? then Err(NoPolicy) else
    var paths := SortedPaths(changed);
    if paths == [] then Err(EmptyPathSet)
    else if FirstUnsafe(paths).Some? then Err(UnsafeChangedPath(FirstUnsafe(paths).value))
    else
      var classes := Classes(policy.value, glob, paths);
      var primary := Primary(classes);
      Ok(Classification(primary, primary != DocsOrCiOnly, classes))
  }

  method ClassifyOne(policy: Policy, glob: Glob, path: string) returns (r: PathImpact)
    ensures r == PathClass(policy, glob, path)
  {
    hide MatchesAny;
    var matches: set<Impact> := {};
    for k := 0 to |CATEGORIES|
      invariant matches == set i | i in CATEGORIES[..k] && MatchesAny(glob, path, Patterns(policy, i))
    {
      assert CATEGORIES[..k + 1] == CATEGORIES[..k] + [CATEGORIES[k]];
      if MatchesAny(glob, path, Patterns(policy, CATEGORIES[k])) {
        matches := matches + {CATEGORIES[k]};
      }
    }
    assert CATEGORIES[..|CATEGORIES|] == CATEGORIES;
    r := PathImpact(path, if matches != {} then HighestOf(matches) else UnknownPackage, matches);
  }

  lemma {:induction false} PrimaryAppend(classes: seq<PathImpact>, c: PathImpact)
    requires classes != []
    ensures Primary(classes + [c]) == Higher(Primary(classes), c.impact)
  {
    if |classes| > 1 {
      assert (classes + [c])[1..] == classes[1..] + [c];
      PrimaryAppend(classes[1..], c);
      PriorityOrder(classes[0].impact, Primary(classes[1..]), c.impact);
    }
  }

  lemma PriorityOrder(a: Impact, b: Impact, c: Impact)
    ensures Higher(a, Higher(b, c)) == Higher(Higher(a, b), c)
  {}

  method ClassifyChangedPaths(policy: Option<Policy>, glob: Glob,
                              changed: seq<string>) returns (r: Result<Classification, ClassifyError>)
    ensures r == ClassifyPaths(policy, glob, changed)
  {
    hide PathClass, UnsafePath, SortedPaths;
    if policy.None? {
      return Err(NoPolicy);
    }
    var paths := SortedPaths(changed);
    if paths == [] {
      return Err(EmptyPathSet);
    }
    var perPath: seq<PathImpact> := [];
    var primary := DocsOrCiOnly;
    assert paths[0..] == paths;
    for i := 0 to |paths|
      invariant FirstUnsafe(paths) == FirstUnsafe(paths[i..])
      invariant perPath == Classes(policy.value, glob, paths[..i])
      invariant i > 0 ==> primary == Primary(perPath)
    {
      assert paths[i..][1..] == paths[i + 1..];
      if UnsafePath(paths[i]) {
        return Err(UnsafeChangedPath(paths[i]));
      }
      var c := ClassifyOne(policy.value, glob, paths[i]);
      if i > 0 {
        PrimaryAppend(perPath, c);
        primary := Higher(primary, c.impact);
      } else {
        primary := c.impact;
      }
      perPath := perPath + [c];
      assert paths[..i + 1] == paths[..i] + [paths[i]];
      assert perPath == Classes(policy.value, glob, paths[..i + 1]);
    }
    assert paths[..|paths|] == paths;
    return Ok(Classification(primary, primary != DocsOrCiOnly, perPath));
  }

  // ---- the impact is a maximum over the set of paths ----

  // An upper bound that some path reaches.
  predicate IsHighest(i: Impact, policy: Policy, glob: Glob, paths: seq<string>) {
    && (forall p :: p in paths ==> Priority(PathClass(policy, glob, p).impact) <= Priority(i))
    && exists p :: p in paths && PathClass(policy, glob, p).impact == i
  }

  lemma {:induction false} PrimaryIsHighest(policy: Policy, glob: Glob, paths: seq<string>)
    requires paths != []
    ensures IsHighest(Primary(Classes(policy, glob, paths)), policy, glob, paths)
  {
    hide PathClass, Classes, Priority;
    var classes := Classes(policy, glob, paths);
    if |paths| > 1 {
      assert classes[1..] == Classes(policy, glob, paths[1..]);
      PrimaryIsHighest(policy, glob, paths[1..]);
      assert paths == [paths[0]] + paths[1..];
    } else {
      assert paths[0] in paths;
    }
  }

  lemma SortedPathsMembers(s: seq<string>)
    ensures forall x :: x in SortedPaths(s) <==> x in s
    ensures SortedPaths(s) == [] <==> s == []
  {
    if SortedPaths(s) != [] { assert SortedPaths(s)[0] in s; }
    if s != [] { assert s[0] in SortedPaths(s); }
  }

  lemma {:induction false} FirstUnsafeExact(paths: seq<string>)
    ensures FirstUnsafe(paths).Some? <==> exists p :: p in paths && UnsafePath(p)
  {
    if paths != [] {
      FirstUnsafeExact(paths[1..]);
      assert paths == [paths[0]] + paths[1..];
    }
  }

  // Classification succeeds on non-empty sets of safe paths, and names the highest impact.
  lemma ClassifyExact(policy: Policy, glob: Glob, changed: seq<string>)
    ensures var r := ClassifyPaths(Some(policy), glob, changed);
            && (r.Ok? <==> changed != [] && forall p :: p in changed ==> !UnsafePath(p))
            && (r.Ok? ==> IsHighest(r.value.impact, policy, glob, changed))
  {
    hide SortedPaths, UnsafePath, PathClass, Classes, Primary, FirstUnsafe;
    var paths := SortedPaths(changed);
    SortedPathsMembers(changed);
    FirstUnsafeExact(paths);
    if paths != [] {
      PrimaryIsHighest(policy, glob, paths);
    }
  }

  lemma HighestUnique(i: Impact, j: Impact, policy: Policy, glob: Glob, a: seq<string>, b: seq<string>)
    requires IsHighest(i, policy, glob, a) && IsHighest(j, policy, glob, b) && forall p :: p in a <==> p in b
    ensures i == j
  {
    hide PathClass;
    PriorityInjective(i, j);
  }

  // Order and repetition of the changed paths decide nothing, down to the per-path report.
  lemma OnlyTheSetCounts(policy: Option<Policy>, glob: Glob, a: seq<string>, b: seq<string>)
    requires forall p :: p in a <==> p in b
    ensures ClassifyPaths(policy, glob, a) == ClassifyPaths(policy, glob, b)
  {
    assert (set p | p in a) == (set p | p in b);
    assert a == [] || a[0] in b;
    assert b == [] || b[0] in a;
  }

  // The impact of two change sets together is the higher of their impacts.
  lemma UnionIsMaximum(policy: Policy, glob: Glob, a: seq<string>, b: seq<string>)
    requires ClassifyPaths(Some(policy), glob, a).Ok? && ClassifyPaths(Some(policy), glob, b).Ok?
    ensures ClassifyPaths(Some(policy), glob, a + b).Ok?
    ensures ClassifyPaths(Some(policy), glob, a + b).value.impact
            == Higher(ClassifyPaths(Some(policy), glob, a).value.impact,
              ClassifyPaths(Some(policy), glob, b).value.impact)
  {
    hide ClassifyPaths, PathClass, UnsafePath;
    ClassifyExact(policy, glob, a);
    ClassifyExact(policy, glob, b);
    ClassifyExact(policy, glob, a + b);
    assert forall p :: p in a + b <==> p in a || p in b;
    var i, j := ClassifyPaths(Some(policy), glob, a).value.impact, ClassifyPaths(Some(policy), glob, b).value.impact;
    assert IsHighest(Higher(i, j), policy, glob, a + b);
    HighestUnique(Higher(i, j), ClassifyPaths(Some(policy), glob, a + b).value.impact, policy, glob, a + b, a + b);
  }

  // A larger policy: every pattern of the smaller one is kept.
  predicate Extends(small: Policy, large: Policy) {
    forall i, p :: i in CATEGORIES && p in Patterns(small, i) ==> p in Patterns(large, i)
  }

  lemma MatchedGrows(small: Policy, large: Policy, glob: Glob, path: string)
    requires Extends(small, large)
    ensures Matched(small, glob, path) <= Matched(large, glob, path)
  {
    forall i | i in Matched(small, glob, path) ensures i in Matched(large, glob, path) {
      var p :| p in Patterns(small, i) && glob(path, p);
      assert p in Patterns(large, i);
    }
  }

  // More patterns never lower the impact of a path that already matched one.
  lemma MorePatternsNeverLower(small: Policy, large: Policy, glob: Glob, path: string)
    requires Extends(small, large) && Matched(small, glob, path) != {}
    ensures Priority(PathClass(small, glob, path).impact) <= Priority(PathClass(large, glob, path).impact)
  {
    hide HighestOf, Priority;
    MatchedGrows(small, large, glob, path);
  }

  // Exactly when more patterns do not lower the impact: the path matched before, or it still
  // matches nothing, or it now matches the one category above an unknown package.
  lemma MorePatternsExact(small: Policy, large: Policy, glob: Glob, path: string)
    requires Extends(small, large)
    ensures Priority(PathClass(small, glob, path).impact) <= Priority(PathClass(large, glob, path).impact) <==>
      || Matched(small, glob, path) != {}
      || Matched(large, glob, path) == {}
      || ModuleIdentity in Matched(large, glob, path)
  {
    hide Matched, HighestOf;
    if Matched(small, glob, path) != {} {
      MorePatternsNeverLower(small, large, glob, path);
    } else if Matched(large, glob, path) != {} {
      OnlyCategories(large, glob, path);
    }
  }

  lemma OnlyCategories(policy: Policy, glob: Glob, path: string)
    ensures forall i :: i in Matched(policy, glob, path) ==> i in CATEGORIES
  {}

  // A path nothing matches is fail-closed, so there a new pattern can lower the impact.
  lemma FirstPatternMayLower(glob: Glob, path: string, pattern: string)
    requires glob(path, pattern)
    ensures PathClass(map[], glob, path).impact == UnknownPackage
    ensures PathClass(map[DocsOrCiOnly := [pattern]], glob, path).impact == DocsOrCiOnly
  {
    assert Matched(map[], glob, path) == {};
    assert pattern in Patterns(map[DocsOrCiOnly := [pattern]], DocsOrCiOnly);
    assert Matched(map[DocsOrCiOnly := [pattern]], glob, path) == {DocsOrCiOnly};
  }

  // ---- from classification to acceptance ----

  datatype Verdict = ValidationFailed | Classified(impact: Impact)

  const EXIT_OK := 0
  const EXIT_REVIEW := 10
  const EXIT_ERROR := 20

  // `classify_source_impact`: an incomplete comparison is unknown whatever its paths.
  function SourceImpact(policy: Option<Policy>, glob: Glob, changed: seq<string>,
                        complete: bool): Result<Impact, ClassifyError> {
    if !complete || changed == [] then Ok(UnknownPackage)
    else
      var r := ClassifyPaths(policy, glob, changed);
      if r.Err? then Err(r.error) else Ok(r.value.impact)
  }

  // `classify_review_result`; every impact of the classifier is one of the semantic impacts.
  function ReviewResult(identical: bool, impact: Impact, complete: bool, compareRc: int,
                        reportRc: int): (bool, Verdict, int) {
    if compareRc != 0 || reportRc != 0 then (false, ValidationFailed, EXIT_ERROR)
    else if !complete then (false, Classified(UnknownPackage), EXIT_REVIEW)
    else if impact == DocsOrCiOnly then
      if identical then (true, Classified(DocsOrCiOnly), EXIT_OK) else (false, Classified(UnknownPackage), EXIT_REVIEW)
    else (false, Classified(impact), EXIT_REVIEW)
  }

  // A review: the classification error ends it before any verdict.
  function Review(policy: Option<Policy>, glob: Glob, changed: seq<string>, complete: bool, identical: bool,
                  compareRc: int, reportRc: int)
    : Result<(bool, Verdict, int), ClassifyError>
  {
    var impact := SourceImpact(policy, glob, changed, complete);
    if impact.Err? then Err(impact.error) else Ok(ReviewResult(identical, impact.value, complete, compareRc, reportRc))
  }

  // What a review that is not ready reports: the impact found, where it is known and not docs.
  function ReviewedImpact(policy: Policy, glob: Glob, changed: seq<string>, complete: bool): Impact {
    var r := ClassifyPaths(Some(policy), glob, changed);
    if !complete || r.Err? || r.value.impact == DocsOrCiOnly then UnknownPackage else r.value.impact
  }

  lemma OnlyDocsExact(policy: Policy, glob: Glob, path: string)
    ensures PathClass(policy, glob, path).impact == DocsOrCiOnly <==> Matched(policy, glob, path) == {DocsOrCiOnly}
  {
    hide Matched;
  }

  // Acceptance is ready exactly when the comparison is complete and non-empty, every changed path
  // is safe and matches docs_ci and nothing else, the trees are identical and both runs passed.
  lemma AcceptanceExact(policy: Policy, glob: Glob, changed: seq<string>, complete: bool, identical: bool,
                        compareRc: int, reportRc: int)
    ensures var r := Review(Some(policy), glob, changed, complete, identical, compareRc, reportRc);
            r.Ok? && r.value.0 <==>
              && complete && changed != [] && identical && compareRc == 0 && reportRc == 0
              && forall p :: p in changed ==> !UnsafePath(p) && Matched(policy, glob, p) == {DocsOrCiOnly}
    ensures var r := Review(Some(policy), glob, changed, complete, identical, compareRc, reportRc);
            r.Ok? ==>
              && r.value.2 == (if compareRc != 0 || reportRc != 0 then 20 else if r.value.0 then 0 else 10)
              && r.value.1 == (if compareRc != 0 || reportRc != 0 then ValidationFailed
                               else if r.value.0 then Classified(DocsOrCiOnly)
                               else Classified(ReviewedImpact(policy, glob, changed, complete)))
  {
    hide ClassifyPaths, PathClass, UnsafePath, Matched;
    ClassifyExact(policy, glob, changed);
    if complete && changed != [] {
      forall p | p in changed
        ensures PathClass(policy, glob, p).impact == DocsOrCiOnly <==> Matched(policy, glob, p) == {DocsOrCiOnly}
        ensures Priority(PathClass(policy, glob, p).impact) <= Priority(DocsOrCiOnly) ==>
          PathClass(policy, glob, p).impact == DocsOrCiOnly
      {
        OnlyDocsExact(policy, glob, p);
      }
    }
  }
}
