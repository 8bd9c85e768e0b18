// `cleanup_reports` of scripts/otast-maintenance.py: which report directories survive.
module Retention {
  import opened Results
  import opened Lists
  import opened Ordering

  // A report directory: modification time, `report_classification`, the .otast-keep marker, and
  // the target its review.json names ("" where it names none or cannot be read).
  datatype Report = Report(name: string, mtime: int, success: bool, marked: bool, target: string)

  datatype CleanupError = UnknownCategory

  predicate DistinctNames(s: seq<Report>) { forall i, j :: 0 <= i < j < |s| ==> s[i].name != s[j].name }

  // ---- one group ----

  predicate NewerFirst(a: Report, b: Report) { a.mtime >= b.mtime }

  predicate IsSuccess(r: Report) { r.success }

  predicate IsFailure(r: Report) { !r.success }

  function First(s: seq<Report>, n: int): seq<Report> { if n <= 0 then [] else if n >= |s| then s else s[..n] }

  function Names(s: seq<Report>): set<string> { set r | r in s :: r.name }

  // The names held back: the newest `keep` successes, the newest failure, the current report.
  function KeepSet(ordered: seq<Report>, current: Option<string>, keep: int): set<string> {
    Names(First(Filter(ordered, IsSuccess), keep)) + Names(First(Filter(ordered, IsFailure), 1))
    + (if current.Some? then {current.value} else {})
  }

  function Doomed(keepSet: set<string>): Report -> bool {
    (r: Report) => r.name !in keepSet && !r.marked
  }

  function Newest(candidates: seq<Report>): seq<Report> { SortBy(candidates, NewerFirst) }

  // The removals of one group, newest first.
  function Removed(candidates: seq<Report>, current: Option<string>, keep: int): seq<Report> {
    var ordered := Newest(candidates);
    Filter(ordered, Doomed(KeepSet(ordered, current, keep)))
  }

  method CleanupGroup(candidates: seq<Report>, current: Option<string>, keep: int) returns (removed: seq<Report>)
    ensures removed == Removed(candidates, current, keep)
  {
    hide SortBy, KeepSet;
    var ordered := Newest(candidates);
    var keepSet := KeepSet(ordered, current, keep);
    removed := [];
    for i := 0 to |ordered|
      invariant removed == Filter(ordered[..i], Doomed(keepSet))
    {
      FilterAppend(ordered[..i], ordered[i], Doomed(keepSet));
      assert ordered[..i + 1] == ordered[..i] + [ordered[i]];
      if ordered[i].name in keepSet || ordered[i].marked {
        continue;
      }
      removed := removed + [ordered[i]];
    }
    assert ordered[..|ordered|] == ordered;
  }

  // ---- what a group keeps ----

  function Survives(candidates: seq<Report>, current: Option<string>, keep: int): Report -> bool {
    (r: Report) => !Doomed(KeepSet(Newest(candidates), current, keep))(r)
  }

  function Survivors(candidates: seq<Report>, current: Option<string>, keep: int): seq<Report> {
    Filter(candidates, Survives(candidates, current, keep))
  }

  lemma SurvivesExact(candidates: seq<Report>, current: Option<string>, keep: int, r: Report)
    ensures Survives(candidates, current, keep)(r) <==> r.marked || r.name in KeepSet(Newest(candidates), current, keep)
  {
    var keepSet := KeepSet(Newest(candidates), current, keep);
    assert Survives(candidates, current, keep)(r) == !Doomed(keepSet)(r);
  }

  // A report is held back by its rank: among the `keep` newest successes, or the newest failure.
  predicate Ranked(candidates: seq<Report>, keep: int, r: Report) {
    r in First(Filter(Newest(candidates), IsSuccess), keep) || r in First(Filter(Newest(candidates), IsFailure), 1)
  }

  lemma NewestMembers(candidates: seq<Report>)
    ensures forall r :: r in Newest(candidates) <==> r in candidates
  {
    SameMembers(Newest(candidates), candidates);
  }

  lemma NameDecides(s: seq<Report>, a: Report, b: Report)
    requires DistinctNames(s) && a in s && b in s && a.name == b.name
    ensures a == b
  {
    var i :| 0 <= i < |s| && s[i] == a;
    var j :| 0 <= j < |s| && s[j] == b;
    assert i < j || j < i || i == j;
  }

  lemma RankedIsMember(candidates: seq<Report>, keep: int, r: Report)
    requires Ranked(candidates, keep, r)
    ensures r in candidates
  {
    NewestMembers(candidates);
    hide Newest;
    var s, f := Filter(Newest(candidates), IsSuccess), Filter(Newest(candidates), IsFailure);
    if r in First(s, keep) {
      assert r in s;
    } else {
      assert r in f;
    }
  }

  // Exactly the unmarked reports that are neither ranked nor current are removed.
  lemma RemovedExact(candidates: seq<Report>, current: Option<string>, keep: int, r: Report)
    requires DistinctNames(candidates) && r in candidates
    ensures r in Removed(candidates, current, keep) <==>
              !r.marked && !Ranked(candidates, keep, r) && current != Some(r.name)
    ensures r in Survivors(candidates, current, keep) <==> r !in Removed(candidates, current, keep)
  {
    NewestMembers(candidates);
    hide Newest, First, DistinctNames;
    var ordered := Newest(candidates);
    var s, f := First(Filter(ordered, IsSuccess), keep), First(Filter(ordered, IsFailure), 1);
    if r.name in Names(s) {
      var x :| x in s && x.name == r.name;
      RankedIsMember(candidates, keep, x);
      NameDecides(candidates, x, r);
    }
    if r.name in Names(f) {
      var x :| x in f && x.name == r.name;
      RankedIsMember(candidates, keep, x);
      NameDecides(candidates, x, r);
    }
  }

  lemma NewerFirstIsTotalPreorder()
    ensures TotalPreorder(NewerFirst)
  {}

  lemma {:induction false} FilterSorted(keep: Report -> bool, s: seq<Report>)
    requires SortedBy(s, NewerFirst)
    ensures SortedBy(Filter(s, keep), NewerFirst)
  {
    if s != [] {
      TailSorted(s, NewerFirst);
      FilterSorted(keep, s[1..]);
      var rest := Filter(s[1..], keep);
      forall j | 0 <= j < |rest| ensures NewerFirst(s[0], rest[j]) {
        assert rest[j] in rest;
        HeadIsLeast(s, rest[j], NewerFirst);
      }
    }
  }

  // Ranks go by age: no removed success is newer than a ranked one, no removed failure newer
  // than the ranked one.
  lemma RanksGoByAge(candidates: seq<Report>, keep: int, ranked: Report, other: Report)
    requires other in candidates && Ranked(candidates, keep, ranked) && !Ranked(candidates, keep, other)
    requires ranked.success == other.success
    ensures ranked.mtime >= other.mtime
  {
    NewerFirstIsTotalPreorder();
    SortBySorts(candidates, NewerFirst);
    NewestMembers(candidates);
    hide Newest, First, Filter;
    var ordered := Newest(candidates);
    FilterSorted(IsSuccess, ordered);
    FilterSorted(IsFailure, ordered);
    FirstMembers(Filter(ordered, IsSuccess), keep);
    FirstMembers(Filter(ordered, IsFailure), 1);
    if ranked.success {
      LaterIsOlder(Filter(ordered, IsSuccess), keep, ranked, other);
    } else {
      LaterIsOlder(Filter(ordered, IsFailure), 1, ranked, other);
    }
  }

  lemma FirstMembers(s: seq<Report>, n: int)
    ensures |First(s, n)| <= |s| && (n > 0 ==> |First(s, n)| <= n) && (n <= 0 ==> First(s, n) == [])
    ensures forall k :: 0 <= k < |First(s, n)| ==> First(s, n)[k] == s[k]
    ensures forall x :: x in First(s, n) ==> x in s
  {}

  lemma LaterIsOlder(s: seq<Report>, n: int, a: Report, b: Report)
    requires SortedBy(s, NewerFirst) && a in First(s, n) && b in s && b !in First(s, n)
    ensures a.mtime >= b.mtime
  {
    var i :| 0 <= i < |First(s, n)| && First(s, n)[i] == a;
    var j :| 0 <= j < |s| && s[j] == b;
    FirstMembers(s, n);
    assert i < j;
    assert NewerFirst(s[i], s[j]);
  }

  // ---- how many survive ----

  lemma {:induction false} NamesCount(s: seq<Report>)
    ensures |Names(s)| <= |s|
    ensures DistinctNames(s) ==> |Names(s)| == |s|
  {
    if s != [] {
      NamesCount(s[1..]);
      assert s == [s[0]] + s[1..];
      assert Names(s) == Names(s[1..]) + {s[0].name};
      if DistinctNames(s) {
        forall i, j | 0 <= i < j < |s[1..]| ensures s[1..][i].name != s[1..][j].name {
          assert s[i + 1].name != s[j + 1].name;
        }
        forall r | r in s[1..] ensures r.name != s[0].name {
          var k :| 0 <= k < |s[1..]| && s[1..][k] == r;
          assert s[0].name != s[k + 1].name;
        }
      }
    }
  }

  lemma {:induction false} FilterDistinct(keep: Report -> bool, s: seq<Report>)
    requires DistinctNames(s)
    ensures DistinctNames(Filter(s, keep))
  {
    if s != [] {
      forall i, j | 0 <= i < j < |s[1..]| ensures s[1..][i].name != s[1..][j].name {
        assert s[i + 1].name != s[j + 1].name;
      }
      FilterDistinct(keep, s[1..]);
      var rest := Filter(s[1..], keep);
      forall r | r in rest ensures r.name != s[0].name {
        var k :| 0 <= k < |s[1..]| && s[1..][k] == r;
        assert s[0].name != s[k + 1].name;
      }
    }
  }

  predicate IsMarked(r: Report) { r.marked }

  lemma Cardinalities(x: set<string>, a: set<string>, b: set<string>, c: set<string>)
    requires x <= a + b + c
    ensures |x| <= |a| + |b| + |c|
  {
    Smaller(x, a + b + c);
    assert |a + b| <= |a| + |b|;
    assert |a + b + c| <= |a + b| + |c|;
  }

  lemma {:induction false} Smaller(x: set<string>, y: set<string>)
    requires x <= y
    ensures |x| <= |y|
  {
    assert y == x + (y - x);
    assert |y| == |x| + |y - x|;
  }

  // At most keep successes, one failure, the current report and the marked ones survive.
  lemma SurvivorBound(candidates: seq<Report>, current: Option<string>, keep: int)
    requires DistinctNames(candidates)
    ensures |Survivors(candidates, current, keep)|
            <= (if keep > 0 then keep else 0) + 2 + |Filter(candidates, IsMarked)|
  {
    hide Newest, First, Filter, DistinctNames;
    var ordered := Newest(candidates);
    var s, f := First(Filter(ordered, IsSuccess), keep), First(Filter(ordered, IsFailure), 1);
    FirstMembers(Filter(ordered, IsSuccess), keep);
    FirstMembers(Filter(ordered, IsFailure), 1);
    var survivors, marked := Survivors(candidates, current, keep), Filter(candidates, IsMarked);
    var now := if current.Some? then {current.value} else {};
    FilterDistinct(Survives(candidates, current, keep), candidates);
    NamesCount(survivors);
    NamesCount(s);
    NamesCount(f);
    NamesCount(marked);
    forall n | n in Names(survivors) ensures n in Names(s) + Names(f) + (now + Names(marked)) {
      var r :| r in survivors && r.name == n;
      SurvivesExact(candidates, current, keep, r);
      assert r.marked ==> r in marked;
    }
    Cardinalities(Names(survivors), Names(s), Names(f), now + Names(marked));
    Cardinalities(now + Names(marked), now, Names(marked), {});
  }

  // ---- a second run ----

  lemma InsertFirst(x: Report, s: seq<Report>)
    requires s == [] || NewerFirst(x, s[0])
    ensures Insert(x, s, NewerFirst) == [x] + s
  {}

  lemma InsertLater(x: Report, s: seq<Report>, y: Report)
    requires !NewerFirst(x, y)
    ensures Insert(x, [y] + s, NewerFirst) == [y] + Insert(x, s, NewerFirst)
  {
    assert ([y] + s)[1..] == s;
  }

  lemma {:induction false} FilterInsert(keep: Report -> bool, x: Report, s: seq<Report>)
    requires SortedBy(s, NewerFirst)
    ensures Filter(Insert(x, s, NewerFirst), keep) == if keep(x) then Insert(x, Filter(s, keep), NewerFirst)
      else Filter(s, keep)
  {
    hide Filter, Insert;
    var kept := Filter(s, keep);
    if s == [] || NewerFirst(x, s[0]) {
      InsertFirst(x, s);
      FilterCons(x, s, keep);
      if kept != [] {
        assert kept[0] in kept;
        HeadIsLeast(s, kept[0], NewerFirst);
      }
      InsertFirst(x, kept);
    } else {
      var y, t := s[0], s[1..];
      assert s == [y] + t;
      TailSorted(s, NewerFirst);
      FilterInsert(keep, x, t);
      InsertLater(x, t, y);
      FilterCons(y, t, keep);
      FilterCons(y, Insert(x, t, NewerFirst), keep);
      InsertLater(x, Filter(t, keep), y);
    }
  }

  // Dropping reports and sorting the rest is sorting and dropping: ties keep their order.
  lemma {:induction false} FilterNewest(keep: Report -> bool, s: seq<Report>)
    ensures Newest(Filter(s, keep)) == Filter(Newest(s), keep)
  {
    if s != [] {
      var t := s[1..];
      assert s == [s[0]] + t;
      FilterNewest(keep, t);
      NewerFirstIsTotalPreorder();
      SortBySorts(t, NewerFirst);
      FilterInsert(keep, s[0], Newest(t));
      FilterCons(s[0], t, keep);
      assert ([s[0]] + Filter(t, keep))[1..] == Filter(t, keep);
      hide Filter;
    }
  }

  lemma {:induction false} FilterCommutes(p: Report -> bool, q: Report -> bool, s: seq<Report>)
    ensures Filter(Filter(s, q), p) == Filter(Filter(s, p), q)
  {
    if s != [] {
      FilterCommutes(p, q, s[1..]);
      var a, b := Filter(s[1..], p), Filter(s[1..], q);
      assert ([s[0]] + a)[1..] == a && ([s[0]] + b)[1..] == b;
      assert [] + a == a && [] + b == b;
    }
  }

  lemma {:induction false} FirstOfFilter(keep: Report -> bool, s: seq<Report>, n: int)
    requires forall r :: r in First(s, n) ==> keep(r)
    ensures First(Filter(s, keep), n) == First(s, n)
  {
    if n > 0 && s != [] {
      hide First, Filter;
      FirstTail(s, n);
      assert s == [s[0]] + s[1..] && s[0] in First(s, n);
      FilterCons(s[0], s[1..], keep);
      var rest := Filter(s[1..], keep);
      FirstOfFilter(keep, s[1..], n - 1);
      FirstTail([s[0]] + rest, n);
      assert ([s[0]] + rest)[1..] == rest;
    }
  }

  lemma FirstTail(s: seq<Report>, n: int)
    requires n > 0 && s != []
    ensures First(s, n) == [s[0]] + First(s[1..], n - 1)
  {}

  // The reports that a run leaves rank exactly as before.
  lemma RanksAreKept(candidates: seq<Report>, current: Option<string>, keep: int)
    ensures KeepSet(Newest(Survivors(candidates, current, keep)), current, keep)
      == KeepSet(Newest(candidates), current, keep)
  {
    hide Newest, First, Filter;
    var alive := Survives(candidates, current, keep);
    var ordered := Newest(candidates);
    FilterNewest(alive, candidates);
    FilterCommutes(IsSuccess, alive, ordered);
    FilterCommutes(IsFailure, alive, ordered);
    forall r | r in First(Filter(ordered, IsSuccess), keep)
      || r in First(Filter(ordered, IsFailure), 1) ensures alive(r) {
      SurvivesExact(candidates, current, keep, r);
    }
    FirstOfFilter(alive, Filter(ordered, IsSuccess), keep);
    FirstOfFilter(alive, Filter(ordered, IsFailure), 1);
  }

  // A second run over what a first one left removes nothing.
  lemma SecondRunRemovesNothing(candidates: seq<Report>, current: Option<string>, keep: int)
    ensures Removed(Survivors(candidates, current, keep), current, keep) == []
  {
    RanksAreKept(candidates, current, keep);
    var survivors := Survivors(candidates, current, keep);
    NewestMembers(survivors);
    hide Newest, KeepSet;
    FilterNothing(Doomed(KeepSet(Newest(candidates), current, keep)), Newest(survivors));
  }

  lemma {:induction false} FilterNothing(keep: Report -> bool, s: seq<Report>)
    requires forall r :: r in s ==> !keep(r)
    ensures Filter(s, keep) == []
  {
    if s != [] {
      assert s[0] in s;
      FilterNothing(keep, s[1..]);
    }
  }

  // ---- the whole directory ----

  datatype Category = Monitor | Review | Maintenance

  // Groups are (category, target) pairs; only reviews are split by target.
  datatype Group = Group(category: Category, target: string)

  function Prefix(c: Category): string {
    match c
    case Monitor => "target-monitor-"
    case Review => "target-review-"
    case Maintenance => "maintenance-"
  }

  predicate Matches(r: Report, c: Category) { Prefix(c) <= r.name }

  function GroupName(r: Report, c: Category): string {
    if c != Review then "all" else if r.target == "" then "unknown" else r.target
  }

  function In(g: Group): Report -> bool {
    (r: Report) => Matches(r, g.category) && GroupName(r, g.category) == g.target
  }

  function Targets(dirs: seq<Report>): seq<string> {
    if dirs == [] then []
    else
      var rest := Targets(dirs[1..]);
      if Matches(dirs[0], Review) && GroupName(dirs[0], Review) !in rest then [GroupName(dirs[0], Review)] + rest
        else rest
  }

  function ReviewGroups(targets: seq<string>): seq<Group> {
    if targets == [] then [] else [Group(Review, targets[0])] + ReviewGroups(targets[1..])
  }

  // The groups of a category argument in the order `sorted` visits them.
  function Groups(dirs: seq<Report>, category: string): Option<seq<Group>> {
    var reviews := ReviewGroups(SortBy(Targets(dirs), Leq));
    if category == "all" then Some([Group(Maintenance, "all"), Group(Monitor, "all")] + reviews)
    else if category == "target-monitor" then Some([Group(Monitor, "all")])
    else if category == "target-review" then Some(reviews)
    else if category == "maintenance" then Some([Group(Maintenance, "all")])
    else None
  }

  function RemovedIn(dirs: seq<Report>, groups: seq<Group>, current: Option<string>, keep: int): seq<Report> {
    if groups == [] then []
    else Removed(Filter(dirs, In(groups[0])), current, keep) + RemovedIn(dirs, groups[1..], current, keep)
  }

  function Outside(gone: seq<Report>): Report -> bool { (r: Report) => r !in gone }

  function Left(dirs: seq<Report>, gone: seq<Report>): seq<Report> { Filter(dirs, Outside(gone)) }

  class ReportStore {
    // Directory listing; names are distinct.
    var dirs: seq<Report>

    constructor (dirs: seq<Report>)
      ensures this.dirs == dirs
    {
      this.dirs := dirs;
    }

    method RemoveAll(gone: seq<Report>)
      modifies this
      ensures dirs == Left(old(dirs), gone)
    {
      dirs := Left(dirs, gone);
    }

    // A dry run reports the same removals and leaves the listing alone.
    method CleanupReports(category: string, current: Option<string>, keep: int, dryRun: bool)
      returns (r: Result<seq<Report>, CleanupError>)
      modifies this
      ensures Groups(old(dirs), category).None? ==> r == Err(UnknownCategory) && dirs == old(dirs)
      ensures Groups(old(dirs), category).Some? ==>
                r == Ok(RemovedIn(old(dirs), Groups(old(dirs), category).value, current, keep))
                && dirs == if dryRun then old(dirs) else Left(old(dirs), r.value)
    {
      hide Groups, Removed, Filter, In, Left;
      var listed := dirs;
      var groups := Groups(listed, category);
      if groups.None? {
        return Err(UnknownCategory);
      }
      var removed: seq<Report> := [];
      LeftNothing(dirs);
      for i := 0 to |groups.value|
        invariant removed + RemovedIn(listed, groups.value[i..], current, keep)
          == RemovedIn(listed, groups.value, current, keep)
        invariant dirs == if dryRun then listed else Left(listed, removed)
      {
        assert groups.value[i..][1..] == groups.value[i + 1..] && groups.value[i..][0] == groups.value[i];
        var gone := CleanupGroup(Filter(listed, In(groups.value[i])), current, keep);
        if !dryRun {
          RemoveAll(gone);
          LeftTwice(listed, removed, gone);
        }
        removed := removed + gone;
      }
      assert removed + [] == removed;
      return Ok(removed);
    }
  }

  lemma {:induction false} LeftNothing(dirs: seq<Report>)
    ensures Left(dirs, []) == dirs
  {
    if dirs != [] {
      LeftNothing(dirs[1..]);
      assert dirs == [dirs[0]] + dirs[1..];
    }
  }

  lemma {:induction false} LeftTwice(dirs: seq<Report>, a: seq<Report>, b: seq<Report>)
    ensures Left(Left(dirs, a), b) == Left(dirs, a + b)
  {
    if dirs != [] {
      var x, t := dirs[0], dirs[1..];
      assert dirs == [x] + t;
      LeftTwice(t, a, b);
      FilterCons(x, t, Outside(a));
      FilterCons(x, Left(t, a), Outside(b));
      FilterCons(x, t, Outside(a + b));
    }
  }

  // ---- groups do not overlap ----

  lemma PrefixesDiffer(r: Report, c: Category, d: Category)
    requires Matches(r, c) && Matches(r, d)
    ensures c == d
  {
    assert Prefix(Monitor)[7] == 'm' && Prefix(Review)[7] == 'r' && Prefix(Maintenance)[0] == 'm';
    assert Prefix(Monitor)[0] == 't' && Prefix(Review)[0] == 't';
    assert r.name[0] == Prefix(c)[0] == Prefix(d)[0];
    if c != Maintenance && d != Maintenance {
      assert r.name[7] == Prefix(c)[7] == Prefix(d)[7];
    }
  }

  // A removed report was removed by its own group, and by nothing else.
  lemma {:induction false} RemovedByItsGroup(dirs: seq<Report>, groups: seq<Group>, current: Option<string>, keep: int,
                                             g: Group, r: Report)
    requires g in groups && In(g)(r)
    ensures r in RemovedIn(dirs, groups, current, keep) <==> r in Removed(Filter(dirs, In(g)), current, keep)
  {
    hide Removed, Filter, In;
    if groups[0] != g {
      assert groups == [groups[0]] + groups[1..];
      assert r !in Removed(Filter(dirs, In(groups[0])), current, keep) by {
        OnlyOneGroup(r, g, groups[0]);
        RemovedAreCandidates(Filter(dirs, In(groups[0])), current, keep, r);
      }
      RemovedByItsGroup(dirs, groups[1..], current, keep, g, r);
    } else if |groups| > 1 {
      OtherGroupsKeep(dirs, groups[1..], current, keep, g, r);
    }
  }

  lemma {:induction false} OtherGroupsKeep(dirs: seq<Report>, groups: seq<Group>, current: Option<string>, keep: int,
                                           g: Group, r: Report)
    requires In(g)(r)
    ensures r in RemovedIn(dirs, groups, current, keep) ==> r in Removed(Filter(dirs, In(g)), current, keep)
  {
    hide Removed, Filter, In;
    if groups != [] {
      OtherGroupsKeep(dirs, groups[1..], current, keep, g, r);
      if groups[0] != g {
        OnlyOneGroup(r, g, groups[0]);
        RemovedAreCandidates(Filter(dirs, In(groups[0])), current, keep, r);
      }
    }
  }

  lemma OnlyOneGroup(r: Report, g: Group, h: Group)
    requires In(g)(r) && g != h
    ensures !In(h)(r)
  {
    if In(h)(r) {
      PrefixesDiffer(r, g.category, h.category);
    }
  }

  lemma RemovedAreCandidates(candidates: seq<Report>, current: Option<string>, keep: int, r: Report)
    ensures r in Removed(candidates, current, keep) ==> r in candidates
  {
    NewestMembers(candidates);
    hide Newest, KeepSet;
  }

  // Exactly which reports a cleanup removes: those of the selected groups that are unmarked,
  // not current, and not ranked within their own group.
  lemma CleanupExact(dirs: seq<Report>, groups: seq<Group>, current: Option<string>, keep: int, g: Group, r: Report)
    requires DistinctNames(dirs) && g in groups && r in dirs && In(g)(r)
    ensures r in RemovedIn(dirs, groups, current, keep) <==>
              !r.marked && !Ranked(Filter(dirs, In(g)), keep, r) && current != Some(r.name)
  {
    hide Removed, Ranked, In, DistinctNames;
    RemovedByItsGroup(dirs, groups, current, keep, g, r);
    FilterDistinct(In(g), dirs);
    RemovedExact(Filter(dirs, In(g)), current, keep, r);
  }

  // Of every group, a cleanup leaves its survivors and no one else.
  lemma LeftInGroup(dirs: seq<Report>, groups: seq<Group>, current: Option<string>, keep: int, g: Group)
    requires DistinctNames(dirs) && g in groups
    ensures Filter(Left(dirs, RemovedIn(dirs, groups, current, keep)), In(g))
            == Survivors(Filter(dirs, In(g)), current, keep)
  {
    hide RemovedIn, In, DistinctNames, Filter, Removed;
    var gone, cands := RemovedIn(dirs, groups, current, keep), Filter(dirs, In(g));
    FilterCommutes(In(g), Outside(gone), dirs);
    FilterDistinct(In(g), dirs);
    forall r | r in cands ensures Outside(gone)(r) <==> Survives(cands, current, keep)(r) {
      RemovedByItsGroup(dirs, groups, current, keep, g, r);
      RemovedExact(cands, current, keep, r);
    }
    FilterSame(cands, Outside(gone), Survives(cands, current, keep));
  }

  // A second cleanup with the same arguments removes nothing in any group.
  lemma {:induction false} SecondCleanupRemovesNothing(dirs: seq<Report>, groups: seq<Group>, again: seq<Group>,
                                                       current: Option<string>, keep: int)
    requires DistinctNames(dirs) && forall g :: g in again ==> g in groups
    ensures RemovedIn(Left(dirs, RemovedIn(dirs, groups, current, keep)), again, current, keep) == []
  {
    hide Removed, In, DistinctNames, Left, Filter;
    if again != [] {
      var left := Left(dirs, RemovedIn(dirs, groups, current, keep));
      LeftInGroup(dirs, groups, current, keep, again[0]);
      SecondRunRemovesNothing(Filter(dirs, In(again[0])), current, keep);
      SecondCleanupRemovesNothing(dirs, groups, again[1..], current, keep);
    }
  }

  lemma {:induction false} TargetsExact(dirs: seq<Report>, t: string)
    ensures t in Targets(dirs) <==> exists r :: r in dirs && Matches(r, Review) && GroupName(r, Review) == t
  {
    if dirs != [] {
      TargetsExact(dirs[1..], t);
      assert dirs == [dirs[0]] + dirs[1..];
    }
  }

  lemma {:induction false} ReviewGroupsExact(targets: seq<string>, g: Group)
    ensures g in ReviewGroups(targets) <==> g.category == Review && g.target in targets
  {
    if targets != [] {
      ReviewGroupsExact(targets[1..], g);
      assert targets == [targets[0]] + targets[1..];
    }
  }

  // The groups found after a cleanup are among those found before it.
  lemma GroupsOnlyShrink(dirs: seq<Report>, gone: seq<Report>, category: string)
    requires Groups(dirs, category).Some?
    ensures Groups(Left(dirs, gone), category).Some?
    ensures forall g :: g in Groups(Left(dirs, gone), category).value ==> g in Groups(dirs, category).value
  {
    hide SortBy, Matches, Filter;
    var left := Left(dirs, gone);
    var before, after := SortBy(Targets(dirs), Leq), SortBy(Targets(left), Leq);
    SameMembers(before, Targets(dirs));
    SameMembers(after, Targets(left));
    forall t | t in Targets(left) ensures t in Targets(dirs) {
      TargetsExact(left, t);
      TargetsExact(dirs, t);
    }
    forall g ensures g in ReviewGroups(after) ==> g in ReviewGroups(before) {
      ReviewGroupsExact(after, g);
      ReviewGroupsExact(before, g);
    }
  }

  // ---- the groups of a category are the reports it names

  predicate Selects(category: string, c: Category) {
    || category == "all"
    || category == (match c case Monitor => "target-monitor" case Review => "target-review" case Maintenance =>
       "maintenance")
  }

  function GroupOf(r: Report, c: Category): Group { Group(c, GroupName(r, c)) }

  lemma CategoryNames(category: string, c: Category)
    ensures Selects(category, c) <==>
      || category == "all"
      || (c.Monitor? && category == "target-monitor")
      || (c.Review? && category == "target-review")
      || (c.Maintenance? && category == "maintenance")
    ensures |"all"| == 3 && |"maintenance"| == 11 && "target-monitor"[7] == 'm' && "target-review"[7] == 'r'
  {}

  // A listed report of a selected category is in a group of that category, and a group holds
  // no others.
  lemma GroupsExact(dirs: seq<Report>, category: string, r: Report, g: Group)
    requires Groups(dirs, category).Some? && r in dirs
    ensures g in Groups(dirs, category).value && In(g)(r) <==>
      Selects(category, g.category) && Matches(r, g.category) && g == GroupOf(r, g.category)
  {
    hide SortBy, Prefix, Targets, ReviewGroups, GroupName, Selects;
    CategoryNames(category, g.category);
    var targets := SortBy(Targets(dirs), Leq);
    SameMembers(targets, Targets(dirs));
    ReviewGroupsExact(targets, g);
    TargetsExact(dirs, g.target);
    if g.category != Review { assert GroupName(r, g.category) == "all" by { PlainGroupName(r, g.category); } }
  }

  lemma PlainGroupName(r: Report, c: Category)
    requires c != Review
    ensures GroupName(r, c) == "all"
  {}

  lemma {:induction false} RemovedFromGroup(dirs: seq<Report>, groups: seq<Group>, current: Option<string>, keep: int,
                                            r: Report)
    requires r in RemovedIn(dirs, groups, current, keep)
    ensures r in dirs && exists g :: g in groups && In(g)(r)
  {
    hide Removed, In;
    assert groups == [groups[0]] + groups[1..];
    if r in Removed(Filter(dirs, In(groups[0])), current, keep) {
      RemovedAreCandidates(Filter(dirs, In(groups[0])), current, keep, r);
    } else {
      RemovedFromGroup(dirs, groups[1..], current, keep, r);
    }
  }

  // The whole directory: a cleanup removes exactly the listed reports of the selected category
  // that are unmarked, not current, and not ranked in their own group; it touches no other.
  lemma WholeCleanupExact(dirs: seq<Report>, category: string, current: Option<string>, keep: int, r: Report)
    requires DistinctNames(dirs) && Groups(dirs, category).Some?
    ensures r in RemovedIn(dirs, Groups(dirs, category).value, current, keep) <==>
      && r in dirs && !r.marked && current != Some(r.name)
      && exists c :: Selects(category, c) && Matches(r, c) && !Ranked(Filter(dirs, In(GroupOf(r, c))), keep, r)
  {
    hide Groups, RemovedIn, Ranked, In, DistinctNames, Selects, Matches, GroupName;
    var groups := Groups(dirs, category).value;
    if r in RemovedIn(dirs, groups, current, keep) {
      RemovedFromGroup(dirs, groups, current, keep, r);
      var g :| g in groups && In(g)(r);
      GroupsExact(dirs, category, r, g);
      CleanupExact(dirs, groups, current, keep, g, r);
      assert Selects(category, g.category) && Matches(r, g.category);
    }
    if r in dirs {
      forall c | Selects(category, c) && Matches(r, c) && !r.marked && current != Some(r.name)
        && !Ranked(Filter(dirs, In(GroupOf(r, c))), keep, r)
        ensures r in RemovedIn(dirs, groups, current, keep) {
        GroupsExact(dirs, category, r, GroupOf(r, c));
        CleanupExact(dirs, groups, current, keep, GroupOf(r, c), r);
      }
    }
  }

  // Cleaning twice is cleaning once.
  lemma CleanupIsIdempotent(dirs: seq<Report>, category: string, current: Option<string>, keep: int)
    requires DistinctNames(dirs) && Groups(dirs, category).Some?
    ensures var gone := RemovedIn(dirs, Groups(dirs, category).value, current, keep);
            var left := Left(dirs, gone);
            Groups(left, category).Some? && RemovedIn(left, Groups(left, category).value, current, keep) == []
  {
    hide Groups, RemovedIn, Left, DistinctNames;
    var groups := Groups(dirs, category).value;
    var gone := RemovedIn(dirs, groups, current, keep);
    GroupsOnlyShrink(dirs, gone, category);
    SecondCleanupRemovesNothing(dirs, groups, Groups(Left(dirs, gone), category).value, current, keep);
  }

  // ---- how many are held back

  // The ranked successes are as many as asked for, or all there are; and of the failures one is
  // ranked if there is any.
  lemma RankedCounts(candidates: seq<Report>, keep: int)
    ensures var s, f := Filter(Newest(candidates), IsSuccess), Filter(Newest(candidates), IsFailure);
      && |First(s, keep)| == (if keep < 0 then 0 else if keep < |s| then keep else |s|)
      && |First(f, 1)| == (if f == [] then 0 else 1)
      && (forall r :: Ranked(candidates, keep, r) <==> r in First(s, keep) || r in First(f, 1))
      && (forall r :: r in s <==> r in candidates && r.success)
      && (forall r :: r in f <==> r in candidates && !r.success)
  {
    NewestMembers(candidates);
    hide Newest;
  }

  // Which reports belong together: by the start of their name, and reviews by their target too.
  lemma GroupExact(r: Report, c: Category, target: string)
    ensures In(Group(c, target))(r) <==>
      match c
      case Monitor => "target-monitor-" <= r.name && target == "all"
      case Maintenance => "maintenance-" <= r.name && target == "all"
      case Review => "target-review-" <= r.name && target == if r.target == "" then "unknown" else r.target
  {}
}
