// The root-exposure pipeline: what the doctor finds (scripts/root-exposure-doctor.py), the result
// it reports, and how that report is qualified (tools/otastctl/qualification.py).
module Exposure {
  import opened Results
  import opened Ordering
  import opened Strings

  // The five categories a finding may carry.
  const OWNED := "OTAST-owned semantic inconsistency"
  const DETECTOR := "detector/report inconsistency"
  const UNKNOWN := "unknown/needs investigation"
  const COVERAGE := "diagnostic coverage limitation"
  const OTHER_MODULE := "another reviewed module's exposure"

  const FINDING_CATEGORIES: set<string> := {OWNED, DETECTOR, UNKNOWN, COVERAGE, OTHER_MODULE}
  const UNSETTLED: set<string> := {DETECTOR, UNKNOWN, COVERAGE}

  lemma CategoriesDiffer()
    ensures OWNED !in UNSETTLED && OTHER_MODULE !in UNSETTLED && OWNED != OTHER_MODULE
    ensures UNKNOWN !in {DETECTOR, COVERAGE} && DETECTOR != COVERAGE
  {
    assert OWNED[0] == 'O' && DETECTOR[0] == 'd' && UNKNOWN[0] == 'u' && COVERAGE[0] == 'd' && OTHER_MODULE[0] == 'a';
    assert DETECTOR[1] == 'e' && COVERAGE[1] == 'i';
  }

  // One executable mapping; a missing or empty field is "".
  datatype Mapping = Malformed | Mapping(moduleId: string, path: string)

  type Known = m: Mapping | m.Mapping? witness Mapping("", "")

  // `None` where the snapshot holds something else than a list.
  datatype Process = Process(mappings: seq<Mapping>, mountTokens: Option<seq<string>>,
                             mountinfoTokens: Option<seq<string>>)

  // The rest of the evidence the doctor weighs: the SELinux mode, the status of the OTAST report,
  // and what the detector claims about mounts.
  datatype Surroundings = Surroundings(selinuxMode: Option<string>, reportStatus: string, mountClaim: string)

  datatype Evidence =
    | ModuleMapped(moduleId: string, count: nat)
    | UnattributedMapped(count: nat, examples: seq<string>)
    | InlineHookMapped
    | ZygiskLoaderMapped
    | SelinuxNotEnforcing(observed: Option<string>)
    | ReportFailed
    | ReportTimedOut
    | SuspicionUnsupported
    | ClearanceContradicted(entries: nat)
    | NothingObserved

  datatype Finding = Finding(category: string, evidence: Evidence)

  predicate IsInlineHook(path: string) { Contains(path, "inline_hook_invalidate") }

  predicate IsZygiskLoader(path: string) {
    Contains(path, "/zygisksu/")
      || (|path| >= |"/libzygisk.so"| && path[|path| - |"/libzygisk.so"|..] == "/libzygisk.so")
  }

  // ---- The evidence, read off all mappings at once

  function WellFormed(mappings: seq<Mapping>): seq<Known>
  {
    if mappings == [] then [] else (if mappings[0].Mapping? then [mappings[0]] else []) + WellFormed(mappings[1..])
  }

  function AllMappings(processes: seq<Process>): seq<Known>
  {
    if processes == [] then [] else WellFormed(processes[0].mappings) + AllMappings(processes[1..])
  }

  function ListSize(entries: Option<seq<string>>): nat { if entries.Some? then |entries.value| else 0 }

  function MountEvidence(processes: seq<Process>): nat {
    if processes == [] then 0
    else ListSize(processes[0].mountTokens) + ListSize(processes[0].mountinfoTokens) + MountEvidence(processes[1..])
  }

  function ModuleIds(all: seq<Known>): set<string>
  {
    set m | m in all && m.moduleId != "" :: m.moduleId
  }

  // How many mappings belong to a module.
  function Occurrences(all: seq<Known>, id: string): nat
  {
    if all == [] then 0 else (if all[0].moduleId == id then 1 else 0) + Occurrences(all[1..], id)
  }

  // Paths no module claims.
  function Unattributed(all: seq<Known>): seq<string>
  {
    if all == [] then []
    else (if all[0].moduleId == "" && all[0].path != "" then [all[0].path] else []) + Unattributed(all[1..])
  }

  predicate SomeInlineHook(all: seq<Known>)
  {
    exists m :: m in all && IsInlineHook(m.path)
  }

  predicate SomeZygiskLoader(all: seq<Known>)
  {
    exists m :: m in all && IsZygiskLoader(m.path)
  }

  // ---- The findings

  function ModuleFinding(id: string, count: nat): Finding {
    Finding(if id == "otast" then OWNED else OTHER_MODULE, ModuleMapped(id, count))
  }

  function ModuleFindings(all: seq<Known>): (r: seq<Finding>)
  {
    var ids := SortedSet(ModuleIds(all));
    seq(|ids|, i requires 0 <= i < |ids| => ModuleFinding(ids[i], Occurrences(all, ids[i])))
  }

  function When(condition: bool, category: string, evidence: Evidence): seq<Finding> {
    if condition then [Finding(category, evidence)] else []
  }

  function FirstTwelve(paths: seq<string>): seq<string> { if |paths| <= 12 then paths else paths[..12] }

  function MappingFindings(all: seq<Known>): seq<Finding>
  {
    ModuleFindings(all)
    + When(Unattributed(all) != [], OTHER_MODULE,
      UnattributedMapped(|Unattributed(all)|, FirstTwelve(Unattributed(all))))
    + When(SomeInlineHook(all), OTHER_MODULE, InlineHookMapped)
    + When(SomeZygiskLoader(all), OTHER_MODULE, ZygiskLoaderMapped)
  }

  predicate SelinuxSuspect(mode: Option<string>) { mode != Some("Enforcing") && mode != Some("UNAVAILABLE") }

  function SurroundingFindings(s: Surroundings, mounts: nat): seq<Finding> {
    When(SelinuxSuspect(s.selinuxMode), UNKNOWN, SelinuxNotEnforcing(s.selinuxMode))
    + (if s.reportStatus == "FAIL" then [Finding(OWNED, ReportFailed)]
       else When(s.reportStatus == "TIMEOUT", COVERAGE, ReportTimedOut))
    + (if s.mountClaim == "suspicious" && mounts == 0 then [Finding(DETECTOR, SuspicionUnsupported)]
       else When(s.mountClaim == "clear" && mounts > 0, DETECTOR, ClearanceContradicted(mounts)))
  }

  function Findings(processes: seq<Process>, s: Surroundings): seq<Finding> {
    var found := MappingFindings(AllMappings(processes)) + SurroundingFindings(s, MountEvidence(processes));
    if found == [] then [Finding(UNKNOWN, NothingObserved)] else found
  }

  // ---- The classifier itself: counters and flags filled in one pass

  datatype Tally = Tally(modules: map<string, nat>, other: seq<string>, inlineHook: bool, zygisk: bool, mounts: nat)

  // The counters after all mappings in `all`.
  ghost predicate Tallies(t: Tally, all: seq<Known>)
  {
    && t.modules.Keys == ModuleIds(all)
    && (forall id :: id in t.modules ==> t.modules[id] == Occurrences(all, id))
    && t.other == Unattributed(all)
    && t.inlineHook == SomeInlineHook(all)
    && t.zygisk == SomeZygiskLoader(all)
  }

  function Counted(t: Tally, m: Known): (r: Tally)
    ensures r.mounts == t.mounts
  {
    var t1 :=
      if m.moduleId != ""
        then t.(modules := t.modules[m.moduleId := (if m.moduleId in t.modules then t.modules[m.moduleId] else 0) + 1])
      else if m.path != "" then t.(other := t.other + [m.path])
      else t;
    t1.(inlineHook := t.inlineHook || IsInlineHook(m.path), zygisk := t.zygisk || IsZygiskLoader(m.path))
  }

  lemma {:induction false} OccurrencesAppend(all: seq<Known>, m: Known, id: string)
    ensures Occurrences(all + [m], id) == Occurrences(all, id) + if m.moduleId == id then 1 else 0
  {
    if all != [] {
      assert (all + [m])[1..] == all[1..] + [m];
      OccurrencesAppend(all[1..], m, id);
    }
  }

  lemma {:induction false} UnattributedAppend(all: seq<Known>, m: Known)
    ensures Unattributed(all + [m]) == Unattributed(all) + if m.moduleId == "" && m.path != "" then [m.path] else []
  {
    if all != [] {
      assert (all + [m])[1..] == all[1..] + [m];
      UnattributedAppend(all[1..], m);
    }
  }

  lemma {:induction false} NoOccurrence(all: seq<Known>, id: string)
    ensures Occurrences(all, id) == 0 <==> forall m :: m in all ==> m.moduleId != id
  {
    if all != [] {
      NoOccurrence(all[1..], id);
    }
  }

  lemma CountedTallies(t: Tally, all: seq<Known>, m: Known)
    requires Tallies(t, all)
    ensures Tallies(Counted(t, m), all + [m])
  {
    hide IsInlineHook, IsZygiskLoader, Occurrences, Unattributed;
    var now := Counted(t, m);
    UnattributedAppend(all, m);
    forall id ensures id in now.modules <==> id in ModuleIds(all + [m]) {}
    forall id | id in now.modules ensures now.modules[id] == Occurrences(all + [m], id) {
      OccurrencesAppend(all, m, id);
      NoOccurrence(all, id);
    }
  }

  lemma NothingTallied(all: seq<Known>)
    requires all == []
    ensures Tallies(Tally(map[], [], false, false, 0), all)
  {}

  method TallyProcess(before: Tally, process: Process, ghost seen: seq<Known>) returns (t: Tally)
    requires Tallies(before, seen)
    ensures Tallies(t, seen + WellFormed(process.mappings))
    ensures t.mounts == before.mounts + ListSize(process.mountTokens) + ListSize(process.mountinfoTokens)
  {
    hide Tallies, Counted;
    t := before;
    ghost var now: seq<Known> := seen;
    var k := 0;
    assert process.mappings[0..] == process.mappings;
    while k < |process.mappings|
      invariant 0 <= k <= |process.mappings|
      invariant Tallies(t, now)
      invariant seen + WellFormed(process.mappings) == now + WellFormed(process.mappings[k..])
      invariant t.mounts == before.mounts
    {
      var m := process.mappings[k];
      assert process.mappings[k..][1..] == process.mappings[k + 1..];
      if m.Mapping? {
        CountedTallies(t, now, m);
        t := Counted(t, m);
        now := now + [m];
      }
      k := k + 1;
    }
    assert now == seen + WellFormed(process.mappings);
    MountsAside(t, now, t.mounts + ListSize(process.mountTokens) + ListSize(process.mountinfoTokens));
    t := t.(mounts := t.mounts + ListSize(process.mountTokens) + ListSize(process.mountinfoTokens));
  }

  lemma MountsAside(t: Tally, all: seq<Known>, mounts: nat)
    requires Tallies(t, all)
    ensures Tallies(t.(mounts := mounts), all)
  {}

  method TallyMappings(processes: seq<Process>) returns (t: Tally)
    ensures Tallies(t, AllMappings(processes)) && t.mounts == MountEvidence(processes)
  {
    hide Tallies, WellFormed;
    t := Tally(map[], [], false, false, 0);
    var p := 0;
    ghost var seen: seq<Known> := [];
    NothingTallied(seen);
    assert processes[0..] == processes;
    while p < |processes|
      invariant 0 <= p <= |processes|
      invariant Tallies(t, seen)
      invariant AllMappings(processes) == seen + AllMappings(processes[p..])
      invariant MountEvidence(processes) == t.mounts + MountEvidence(processes[p..])
    {
      assert processes[p..][1..] == processes[p + 1..];
      t := TallyProcess(t, processes[p], seen);
      seen := seen + WellFormed(processes[p].mappings);
      p := p + 1;
    }
    assert seen == AllMappings(processes);
  }

  method ListModules(modules: map<string, nat>, ghost all: seq<Known>) returns (findings: seq<Finding>)
    requires modules.Keys == ModuleIds(all) && forall id :: id in modules ==> modules[id] == Occurrences(all, id)
    ensures findings == ModuleFindings(all)
  {
    hide Occurrences, ModuleFinding, ModuleIds, Leq;
    findings := [];
    var ids := SortedSet(modules.Keys);
    var i := 0;
    while i < |ids|
      invariant 0 <= i <= |ids|
      invariant |findings| == i
      invariant forall j :: 0 <= j < i ==> findings[j] == ModuleFinding(ids[j], Occurrences(all, ids[j]))
    {
      assert ids[i] in modules;
      findings := findings + [ModuleFinding(ids[i], modules[ids[i]])];
      i := i + 1;
    }
  }

  method MappedFindings(t: Tally, ghost all: seq<Known>) returns (findings: seq<Finding>)
    requires Tallies(t, all)
    ensures findings == MappingFindings(all)
  {
    hide Occurrences, Unattributed, SomeInlineHook, SomeZygiskLoader, FirstTwelve, ModuleFindings, ModuleIds;
    findings := ListModules(t.modules, all);
    if t.other != [] {
      findings := findings + [Finding(OTHER_MODULE, UnattributedMapped(|t.other|, FirstTwelve(t.other)))];
    }
    if t.inlineHook {
      findings := findings + [Finding(OTHER_MODULE, InlineHookMapped)];
    }
    if t.zygisk {
      findings := findings + [Finding(OTHER_MODULE, ZygiskLoaderMapped)];
    }
  }

  method ClassifyFindings(processes: seq<Process>, s: Surroundings) returns (findings: seq<Finding>)
    ensures findings == Findings(processes, s)
  {
    hide AllMappings, MountEvidence, Tallies, MappingFindings;
    var t := TallyMappings(processes);
    findings := MappedFindings(t, AllMappings(processes));
    ghost var mapped := findings;
    if SelinuxSuspect(s.selinuxMode) {
      findings := findings + [Finding(UNKNOWN, SelinuxNotEnforcing(s.selinuxMode))];
    }
    if s.reportStatus == "FAIL" {
      findings := findings + [Finding(OWNED, ReportFailed)];
    } else if s.reportStatus == "TIMEOUT" {
      findings := findings + [Finding(COVERAGE, ReportTimedOut)];
    }
    if s.mountClaim == "suspicious" && t.mounts == 0 {
      findings := findings + [Finding(DETECTOR, SuspicionUnsupported)];
    } else if s.mountClaim == "clear" && t.mounts > 0 {
      findings := findings + [Finding(DETECTOR, ClearanceContradicted(t.mounts))];
    }
    assert findings == mapped + SurroundingFindings(s, t.mounts);
    if findings == [] {
      findings := [Finding(UNKNOWN, NothingObserved)];
    }
  }

  // ---- The doctor's result

  datatype Report = Report(result: string, findings: seq<Finding>, fatalReason: string)

  function ResultOf(fatalReason: string, noProcess: bool, warned: bool, reportStatus: string): string {
    if fatalReason != "" || noProcess then "PARTIAL"
    else if warned || reportStatus == "TIMEOUT" || reportStatus == "FAIL" then "PASS_WITH_WARNINGS"
    else "PASS"
  }

  function Diagnosis(processes: seq<Process>, s: Surroundings, warnings: seq<string>, fatalReason: string): Report {
    Report(ResultOf(fatalReason, processes == [], warnings != [], s.reportStatus),
           if processes == [] then [] else Findings(processes, s), fatalReason)
  }

  method Diagnose(processes: seq<Process>, s: Surroundings, warnings: seq<string>,
                  fatalReason: string) returns (r: Report)
    ensures r == Diagnosis(processes, s, warnings, fatalReason)
  {
    var findings := [];
    if processes != [] {
      findings := ClassifyFindings(processes, s);
    }
    var result := "PASS";
    if fatalReason != "" || processes == [] {
      result := "PARTIAL";
    } else if warnings != [] || s.reportStatus == "TIMEOUT" || s.reportStatus == "FAIL" {
      result := "PASS_WITH_WARNINGS";
    }
    r := Report(result, findings, fatalReason);
  }

  // ---- The qualifier, on any JSON value

  datatype Verdict = Pass | PassWithAttribution | Fail | Inconclusive

  // A finding as read back: not an object, or an object whose category may not be a string.
  datatype RawFinding = NotAnObject | Raw(category: Option<string>)

  datatype RawReport =
    | NoReport
    | RawReport(readOnly: bool, fatal: bool, result: Option<string>, findings: Option<seq<RawFinding>>)

  predicate Recognised(f: RawFinding) { f.Raw? && f.category.Some? && f.category.value in FINDING_CATEGORIES }

  function Categories(findings: seq<RawFinding>): set<string> {
    set f | f in findings && Recognised(f) :: f.category.value
  }

  function VerdictOn(categories: set<string>): Verdict {
    if OWNED in categories then Fail
    else if categories * UNSETTLED != {} then Inconclusive
    else if OTHER_MODULE in categories then PassWithAttribution
    else if categories == {} then Pass
    else Inconclusive
  }

  function Qualified(report: RawReport): Verdict {
    if report.NoReport? then Inconclusive
    else if !report.readOnly then Fail
    else if report.fatal || report.result == Some("PARTIAL") then Inconclusive
    else if report.result == Some("FAIL") then Fail
    else if report.result != Some("PASS") && report.result != Some("PASS_WITH_WARNINGS") then Inconclusive
    else if report.findings.None? then Inconclusive
    else if exists f :: f in report.findings.value && !Recognised(f) then Inconclusive
    else VerdictOn(Categories(report.findings.value))
  }

  method ClassifyReport(report: RawReport) returns (v: Verdict)
    ensures v == Qualified(report)
  {
    if report.NoReport? { return Inconclusive; }
    if !report.readOnly { return Fail; }
    if report.fatal || report.result == Some("PARTIAL") { return Inconclusive; }
    if report.result == Some("FAIL") { return Fail; }
    if report.result != Some("PASS") && report.result != Some("PASS_WITH_WARNINGS") { return Inconclusive; }
    if report.findings.None? { return Inconclusive; }
    var findings := report.findings.value;
    var categories: set<string> := {};
    var i := 0;
    while i < |findings|
      invariant 0 <= i <= |findings|
      invariant forall f :: f in findings[..i] ==> Recognised(f)
      invariant categories == Categories(findings[..i])
    {
      var f := findings[i];
      if !Recognised(f) { return Inconclusive; }
      assert findings[..i + 1] == findings[..i] + [f];
      categories := categories + {f.category.value};
      i := i + 1;
    }
    assert findings[..i] == findings;
    v := VerdictOn(categories);
  }

  // ---- What the categories say about the evidence

  lemma {:induction false} AllMappingsExact(processes: seq<Process>, m: Mapping)
    ensures m in AllMappings(processes) <==> exists p :: p in processes && m in p.mappings && m.Mapping?
  {
    if processes != [] {
      AllMappingsExact(processes[1..], m);
      WellFormedExact(processes[0].mappings, m);
      assert processes == [processes[0]] + processes[1..];
    }
  }

  lemma {:induction false} WellFormedExact(mappings: seq<Mapping>, m: Mapping)
    ensures m in WellFormed(mappings) <==> m in mappings && m.Mapping?
  {
    if mappings != [] {
      WellFormedExact(mappings[1..], m);
      assert mappings == [mappings[0]] + mappings[1..];
    }
  }

  lemma {:induction false} UnattributedExact(all: seq<Known>)
    ensures Unattributed(all) != [] <==> exists m :: m in all && m.moduleId == "" && m.path != ""
  {
    if all != [] {
      UnattributedExact(all[1..]);
      assert all == [all[0]] + all[1..];
    }
  }

  ghost predicate Has(findings: seq<Finding>, category: string) {
    exists f :: f in findings && f.category == category
  }

  lemma HasEither(a: seq<Finding>, b: seq<Finding>, c: string)
    ensures Has(a + b, c) <==> Has(a, c) || Has(b, c)
  {
    forall f | f in a ensures f in a + b {}
    forall f | f in b ensures f in a + b {}
  }

  lemma HasWhen(condition: bool, category: string, evidence: Evidence, c: string)
    ensures Has(When(condition, category, evidence), c) <==> condition && c == category
  {
    if condition { assert Finding(category, evidence) in When(condition, category, evidence); }
  }

  lemma ModuleFindingsExact(all: seq<Known>, c: string)
    ensures Has(ModuleFindings(all), c) <==>
      exists id :: id in ModuleIds(all) && c == if id == "otast" then OWNED else OTHER_MODULE
  {
    hide Occurrences, ModuleIds, Leq;
    var ids := SortedSet(ModuleIds(all));
    forall id | id in ids && c == (if id == "otast" then OWNED else OTHER_MODULE) ensures Has(ModuleFindings(all), c) {
      var i :| 0 <= i < |ids| && ids[i] == id;
      assert ModuleFindings(all)[i] == ModuleFinding(id, Occurrences(all, id));
    }
    if Has(ModuleFindings(all), c) {
      var f :| f in ModuleFindings(all) && f.category == c;
      var i :| 0 <= i < |ids| && f == ModuleFinding(ids[i], Occurrences(all, ids[i]));
      assert ids[i] in ModuleIds(all);
    }
  }

  ghost predicate OtastMapped(processes: seq<Process>) {
    exists p, m :: p in processes && m in p.mappings && m.Mapping? && m.moduleId == "otast"
  }

  // A mapping that names another module, or that names no module but a path.
  ghost predicate OtherMapped(processes: seq<Process>) {
    exists p, m :: p in processes && m in p.mappings && m.Mapping?
      && m.moduleId != "otast" && (m.moduleId != "" || m.path != "")
  }

  ghost predicate LoaderMapped(processes: seq<Process>) {
    exists p, m :: p in processes && m in p.mappings && m.Mapping? && (IsInlineHook(m.path) || IsZygiskLoader(m.path))
  }

  lemma ModulesExact(processes: seq<Process>, c: string)
    ensures Has(ModuleFindings(AllMappings(processes)), c) <==>
      (c == OWNED && OtastMapped(processes))
      || (c == OTHER_MODULE && exists p, m ::
            p in processes && m in p.mappings && m.Mapping? && m.moduleId != "otast" && m.moduleId != "")
  {
    hide ModuleFindings, Has, ModuleIds;
    var all := AllMappings(processes);
    ModuleFindingsExact(all, c);
    forall id ensures id in ModuleIds(all) <==> id != "" && MapsModule(processes, id) { IdsExact(processes, id); }
    assert "otast" != "";
    forall id | id in ModuleIds(all) && id != "otast"
      ensures exists p, m ::
        p in processes && m in p.mappings && m.Mapping? && m.moduleId != "otast" && m.moduleId != "" {
      var p, m :| p in processes && m in p.mappings && m.Mapping? && m.moduleId == id;
    }
    forall p, m | p in processes && m in p.mappings && m.Mapping? && m.moduleId != "otast" && m.moduleId != ""
      ensures m.moduleId in ModuleIds(all) {
      assert MapsModule(processes, m.moduleId);
    }
    assert OtastMapped(processes) <==> MapsModule(processes, "otast");
  }

  ghost predicate MapsModule(processes: seq<Process>, id: string) {
    exists p, m :: p in processes && m in p.mappings && m.Mapping? && m.moduleId == id
  }

  lemma IdsExact(processes: seq<Process>, id: string)
    ensures id in ModuleIds(AllMappings(processes)) <==> id != "" && MapsModule(processes, id)
  {
    forall m ensures m in AllMappings(processes) <==> exists p :: p in processes && m in p.mappings && m.Mapping? {
      AllMappingsExact(processes, m);
    }
  }

  lemma LoaderExact(processes: seq<Process>)
    ensures SomeInlineHook(AllMappings(processes)) || SomeZygiskLoader(AllMappings(processes)) <==>
      LoaderMapped(processes)
    ensures LoaderMapped(processes) && !OtastMapped(processes) ==> OtherMapped(processes)
  {
    forall m ensures m in AllMappings(processes) <==> exists p :: p in processes && m in p.mappings && m.Mapping? {
      AllMappingsExact(processes, m);
    }
  }

  lemma MappedExact(processes: seq<Process>, c: string)
    ensures Has(MappingFindings(AllMappings(processes)), c) <==>
      (c == OWNED && OtastMapped(processes))
        || (c == OTHER_MODULE && (OtherMapped(processes) || LoaderMapped(processes)))
  {
    hide ModuleFindings, Unattributed, Has, FirstTwelve, SomeInlineHook, SomeZygiskLoader, When, LoaderMapped;
    var all := AllMappings(processes);
    var a := ModuleFindings(all);
    var b := When(Unattributed(all) != [], OTHER_MODULE,
      UnattributedMapped(|Unattributed(all)|, FirstTwelve(Unattributed(all))));
    var d := When(SomeInlineHook(all), OTHER_MODULE, InlineHookMapped);
    var e := When(SomeZygiskLoader(all), OTHER_MODULE, ZygiskLoaderMapped);
    HasEither(a, b, c);
    HasEither(a + b, d, c);
    HasEither(a + b + d, e, c);
    HasWhen(Unattributed(all) != [], OTHER_MODULE,
      UnattributedMapped(|Unattributed(all)|, FirstTwelve(Unattributed(all))), c);
    HasWhen(SomeInlineHook(all), OTHER_MODULE, InlineHookMapped, c);
    HasWhen(SomeZygiskLoader(all), OTHER_MODULE, ZygiskLoaderMapped, c);
    ModulesExact(processes, c);
    LoaderExact(processes);
    UnattributedMeans(processes);
  }

  lemma UnattributedMeans(processes: seq<Process>)
    ensures Unattributed(AllMappings(processes)) != [] <==>
      exists p, m :: p in processes && m in p.mappings && m.Mapping? && m.moduleId == "" && m.path != ""
  {
    UnattributedExact(AllMappings(processes));
    forall m ensures m in AllMappings(processes) <==> exists p :: p in processes && m in p.mappings && m.Mapping? {
      AllMappingsExact(processes, m);
    }
  }

  // The detector's claim about mounts contradicts the snapshots.
  predicate ClaimMismatch(s: Surroundings, mounts: nat) {
    (s.mountClaim == "suspicious" && mounts == 0) || (s.mountClaim == "clear" && mounts > 0)
  }

  lemma SurroundingsExact(s: Surroundings, mounts: nat, c: string)
    ensures Has(SurroundingFindings(s, mounts), c) <==>
      || (c == UNKNOWN && SelinuxSuspect(s.selinuxMode))
      || (c == OWNED && s.reportStatus == "FAIL")
      || (c == COVERAGE && s.reportStatus == "TIMEOUT")
      || (c == DETECTOR && ClaimMismatch(s, mounts))
  {
    hide Has, When, SelinuxSuspect;
    var a := When(SelinuxSuspect(s.selinuxMode), UNKNOWN, SelinuxNotEnforcing(s.selinuxMode));
    var b := if s.reportStatus == "FAIL" then [Finding(OWNED, ReportFailed)]
             else When(s.reportStatus == "TIMEOUT", COVERAGE, ReportTimedOut);
    var d := if s.mountClaim == "suspicious" && mounts == 0 then [Finding(DETECTOR, SuspicionUnsupported)]
             else When(s.mountClaim == "clear" && mounts > 0, DETECTOR, ClearanceContradicted(mounts));
    HasEither(a, b, c);
    HasEither(a + b, d, c);
    HasWhen(SelinuxSuspect(s.selinuxMode), UNKNOWN, SelinuxNotEnforcing(s.selinuxMode), c);
    HasWhen(s.reportStatus == "TIMEOUT", COVERAGE, ReportTimedOut, c);
    HasWhen(s.mountClaim == "clear" && mounts > 0, DETECTOR, ClearanceContradicted(mounts), c);
    HasOne(OWNED, ReportFailed, c);
    HasOne(DETECTOR, SuspicionUnsupported, c);
    assert s.mountClaim == "clear" ==> s.mountClaim[0] == 'c';
    assert s.mountClaim == "suspicious" ==> s.mountClaim[0] == 's';
    assert s.reportStatus == "FAIL" ==> s.reportStatus[0] == 'F';
    assert s.reportStatus == "TIMEOUT" ==> s.reportStatus[0] == 'T';
  }

  lemma HasOne(category: string, evidence: Evidence, c: string)
    ensures Has([Finding(category, evidence)], c) <==> c == category
  {
    assert Finding(category, evidence) in [Finding(category, evidence)];
  }

  // No evidence of any kind.
  ghost predicate Quiet(processes: seq<Process>, s: Surroundings) {
    && !OtastMapped(processes) && !OtherMapped(processes) && !LoaderMapped(processes)
    && !SelinuxSuspect(s.selinuxMode) && s.reportStatus != "FAIL" && s.reportStatus != "TIMEOUT"
    && !ClaimMismatch(s, MountEvidence(processes))
  }

  // Every category says exactly one thing about the evidence.
  lemma CategoryExact(processes: seq<Process>, s: Surroundings, c: string)
    ensures Has(Findings(processes, s), c) <==>
      || (c == OWNED && (OtastMapped(processes) || s.reportStatus == "FAIL"))
      || (c == OTHER_MODULE && (OtherMapped(processes) || LoaderMapped(processes)))
      || (c == DETECTOR && ClaimMismatch(s, MountEvidence(processes)))
      || (c == COVERAGE && s.reportStatus == "TIMEOUT")
      || (c == UNKNOWN && (SelinuxSuspect(s.selinuxMode) || Quiet(processes, s)))
  {
    hide MappingFindings, SurroundingFindings, OtastMapped, OtherMapped, LoaderMapped, SelinuxSuspect, ClaimMismatch;
    var a := MappingFindings(AllMappings(processes));
    var b := SurroundingFindings(s, MountEvidence(processes));
    HasEither(a, b, c);
    MappedExact(processes, c);
    SurroundingsExact(s, MountEvidence(processes), c);
    EmptyMeansQuiet(processes, s);
    HasOne(UNKNOWN, NothingObserved, c);
  }

  lemma EmptyMeansQuiet(processes: seq<Process>, s: Surroundings)
    ensures MappingFindings(AllMappings(processes)) + SurroundingFindings(s, MountEvidence(processes)) == [] <==>
      Quiet(processes, s)
  {
    hide MappingFindings, SurroundingFindings, OtastMapped, OtherMapped, LoaderMapped, SelinuxSuspect, ClaimMismatch;
    var a := MappingFindings(AllMappings(processes));
    var b := SurroundingFindings(s, MountEvidence(processes));
    forall c {:trigger Has(a, c)} ensures Has(a, c) <==>
      (c == OWNED && OtastMapped(processes))
        || (c == OTHER_MODULE && (OtherMapped(processes) || LoaderMapped(processes)))
    { MappedExact(processes, c); }
    forall c {:trigger Has(b, c)} ensures Has(b, c) <==>
      || (c == UNKNOWN && SelinuxSuspect(s.selinuxMode))
      || (c == OWNED && s.reportStatus == "FAIL")
      || (c == COVERAGE && s.reportStatus == "TIMEOUT")
      || (c == DETECTOR && ClaimMismatch(s, MountEvidence(processes)))
    { SurroundingsExact(s, MountEvidence(processes), c); }
    EmptyHasNothing(a);
    EmptyHasNothing(b);
    if Quiet(processes, s) {
      assert a == [] && b == [];
    } else {
      assert Has(a, OWNED) || Has(a, OTHER_MODULE) || Has(b, UNKNOWN) || Has(b, OWNED) || Has(b, COVERAGE)
        || Has(b, DETECTOR);
    }
  }

  lemma EmptyHasNothing(findings: seq<Finding>)
    ensures findings == [] <==> forall c :: !Has(findings, c)
  {
    if findings != [] {
      assert findings[0] in findings;
      assert Has(findings, findings[0].category);
    }
  }

  // ---- The composed result

  // The report as the qualifier reads it back.
  function AsRead(r: Report): RawReport {
    RawReport(true, r.fatalReason != "", Some(r.result),
              Some(seq(|r.findings|, i requires 0 <= i < |r.findings| => Raw(Some(r.findings[i].category)))))
  }

  lemma AsReadCategories(r: Report)
    requires forall f :: f in r.findings ==> f.category in FINDING_CATEGORIES
    ensures forall f :: f in AsRead(r).findings.value ==> Recognised(f)
    ensures forall c :: c in Categories(AsRead(r).findings.value) <==> Has(r.findings, c)
  {
    var raw := AsRead(r).findings.value;
    forall c | Has(r.findings, c) ensures c in Categories(raw) {
      var f :| f in r.findings && f.category == c;
      var i :| 0 <= i < |r.findings| && r.findings[i] == f;
      assert raw[i] == Raw(Some(c));
    }
    forall c | c in Categories(raw) ensures Has(r.findings, c) {
      var x :| x in raw && Recognised(x) && x.category.value == c;
      var i :| 0 <= i < |raw| && raw[i] == x;
      assert r.findings[i] in r.findings;
    }
  }

  // The classifier always says something, and only what the qualifier understands.
  lemma FindingsAreRecognised(processes: seq<Process>, s: Surroundings)
    ensures Findings(processes, s) != []
    ensures forall f :: f in Findings(processes, s) ==> f.category in FINDING_CATEGORIES
  {
    hide Findings, OtastMapped, OtherMapped, LoaderMapped, SelinuxSuspect, ClaimMismatch;
    forall f | f in Findings(processes, s) ensures f.category in FINDING_CATEGORIES {
      assert Has(Findings(processes, s), f.category);
      CategoryExact(processes, s, f.category);
    }
    assert Findings(processes, s) != [] by {
      CategoryExact(processes, s, OWNED);
      CategoryExact(processes, s, OTHER_MODULE);
      CategoryExact(processes, s, UNKNOWN);
      CategoryExact(processes, s, COVERAGE);
      CategoryExact(processes, s, DETECTOR);
      EmptyHasNothing(Findings(processes, s));
    }
  }

  lemma ResultIsAccepted(noProcess: bool, warned: bool, status: string)
    ensures var r := ResultOf("", noProcess, warned, status);
      && (r == "PARTIAL" <==> noProcess) && r != "FAIL"
      && (!noProcess ==> r == "PASS" || r == "PASS_WITH_WARNINGS")
  {
    assert "PARTIAL"[1] == 'A' && |"PARTIAL"| == 7 && |"PASS"| == 4 && |"PASS_WITH_WARNINGS"| == 18
      && "FAIL"[0] == 'F' && "PASS"[0] == 'P';
  }

  // The verdict on what the doctor reports, read off the evidence.
  lemma PipelineExact(processes: seq<Process>, s: Surroundings, warnings: seq<string>, fatalReason: string)
    ensures var v := Qualified(AsRead(Diagnosis(processes, s, warnings, fatalReason)));
      && v != Pass
      && (fatalReason != "" || processes == [] ==> v == Inconclusive)
      && (fatalReason == "" && processes != [] ==>
            && (v == Fail <==> OtastMapped(processes) || s.reportStatus == "FAIL")
            && (v == PassWithAttribution <==> AllAttributed(processes, s)))
  {
    hide Findings, OtastMapped, OtherMapped, LoaderMapped, SelinuxSuspect, ClaimMismatch, Categories, AsRead;
    hide ResultOf, FINDING_CATEGORIES;
    var r := Diagnosis(processes, s, warnings, fatalReason);
    AsReadShape(r);
    if fatalReason == "" {
      ResultIsAccepted(processes == [], warnings != [], s.reportStatus);
      if processes != [] {
        VerdictExact(processes, s, r);
      }
    }
  }

  lemma AsReadShape(r: Report)
    ensures AsRead(r).RawReport? && AsRead(r).readOnly && AsRead(r).fatal == (r.fatalReason != "")
    ensures AsRead(r).result == Some(r.result) && AsRead(r).findings.Some?
  {}

  // Something foreign is mapped, and nothing else is amiss.
  ghost predicate AllAttributed(processes: seq<Process>, s: Surroundings) {
    && OtherMapped(processes) && !OtastMapped(processes)
    && s.reportStatus != "FAIL" && s.reportStatus != "TIMEOUT"
    && !SelinuxSuspect(s.selinuxMode) && !ClaimMismatch(s, MountEvidence(processes))
  }

  lemma VerdictExact(processes: seq<Process>, s: Surroundings, r: Report)
    requires r.findings == Findings(processes, s)
    ensures var raw := AsRead(r).findings.value;
      && (forall f :: f in raw ==> Recognised(f))
      && var v := VerdictOn(Categories(raw));
         && v != Pass
         && (v == Fail <==> OtastMapped(processes) || s.reportStatus == "FAIL")
         && (v == PassWithAttribution <==> AllAttributed(processes, s))
  {
    hide Findings, OtastMapped, OtherMapped, LoaderMapped, SelinuxSuspect, ClaimMismatch, Categories, Has;
    FindingsAreRecognised(processes, s);
    AsReadCategories(r);
    CategoriesDiffer();
    LoaderExact(processes);
    CategoryExact(processes, s, OWNED);
    CategoryExact(processes, s, OTHER_MODULE);
    CategoryExact(processes, s, UNKNOWN);
    CategoryExact(processes, s, COVERAGE);
    CategoryExact(processes, s, DETECTOR);
    var c := Categories(AsRead(r).findings.value);
    assert c * UNSETTLED != {} <==> DETECTOR in c || UNKNOWN in c || COVERAGE in c by {
      if DETECTOR in c { assert DETECTOR in c * UNSETTLED; }
      if UNKNOWN in c { assert UNKNOWN in c * UNSETTLED; }
      if COVERAGE in c { assert COVERAGE in c * UNSETTLED; }
    }
  }

  // The qualifier on its own, for every value it may be given.
  lemma QualifierExact(report: RawReport)
    ensures var v := Qualified(report);
      && (v == Pass <==> Admissible(report) && report.findings.value == [])
      && (v == PassWithAttribution <==>
           Admissible(report) && report.findings.value != [] && OnlyAttributed(report.findings.value))
  {
    CategoriesDiffer();
    if Admissible(report) {
      var raw := report.findings.value;
      var c := Categories(raw);
      if raw != [] {
        assert raw[0] in raw;
        if forall f :: f in raw ==> Recognised(f) { assert raw[0].category.value in c; }
      }
      if Qualified(report) == PassWithAttribution {
        forall f | f in raw ensures f == Raw(Some(OTHER_MODULE)) {
          assert Recognised(f) && f.category.value in c;
          assert f.category.value !in c * UNSETTLED;
        }
      }
    }
  }

  // FAIL: the report writes, or says so itself, or finds OTAST at fault among findings that are
  // all understood.
  lemma FailExact(report: RawReport)
    ensures Qualified(report) == Fail <==>
      report.RawReport?
      && (!report.readOnly || (!report.fatal && report.result == Some("FAIL"))
          || (Admissible(report) && Raw(Some("OTAST-owned semantic inconsistency")) in report.findings.value
              && forall f :: f in report.findings.value ==> Understood(f)))
  {
    CategoriesDiffer();
    if Admissible(report) { OwnedExact(report.findings.value); }
    forall f ensures Recognised(f) <==> Understood(f) {}
    hide UNSETTLED, OWNED, OTHER_MODULE, FINDING_CATEGORIES, Categories, Understood;
    assert "FAIL"[0] == 'F' && "PASS"[0] == 'P' && "PASS_WITH_WARNINGS"[0] == 'P' && "PARTIAL"[0] == 'P';
  }

  predicate Understood(f: RawFinding) {
    f in {Raw(Some("OTAST-owned semantic inconsistency")), Raw(Some("detector/report inconsistency")),
          Raw(Some("unknown/needs investigation")), Raw(Some("diagnostic coverage limitation")),
          Raw(Some("another reviewed module's exposure"))}
  }

  lemma OwnedExact(findings: seq<RawFinding>)
    ensures OWNED in Categories(findings) <==> Raw(Some("OTAST-owned semantic inconsistency")) in findings
  {
    if Raw(Some(OWNED)) in findings { assert Recognised(Raw(Some(OWNED))); }
  }

  predicate OnlyAttributed(findings: seq<RawFinding>) { forall f :: f in findings ==> f == Raw(Some(OTHER_MODULE)) }

  predicate Admissible(report: RawReport) {
    && report.RawReport? && report.readOnly && !report.fatal
    && report.result in {Some("PASS"), Some("PASS_WITH_WARNINGS")} && report.findings.Some?
  }

  // ---- Every finding, by its evidence

  predicate EndsWith(s: string, part: string) { |part| <= |s| && s[|s| - |part|..] == part }

  ghost predicate Maps(processes: seq<Process>, m: Mapping) {
    m.Mapping? && exists p :: p in processes && m in p.mappings
  }

  // What a finding says is the case, under the category that goes with it.
  ghost predicate Grounded(f: Finding, processes: seq<Process>, s: Surroundings) {
    var all := AllMappings(processes);
    match f.evidence
    case ModuleMapped(id, count) =>
      && f.category == (if id == "otast" then "OTAST-owned semantic inconsistency"
                        else "another reviewed module's exposure")
      && id != "" && count > 0 && count == Occurrences(all, id)
    case UnattributedMapped(count, examples) =>
      && f.category == "another reviewed module's exposure" && count == |Unattributed(all)| > 0
      && examples <= Unattributed(all) && |examples| == (if count < 12 then count else 12)
    case InlineHookMapped =>
      && f.category == "another reviewed module's exposure"
      && exists m :: Maps(processes, m) && Contains(m.path, "inline_hook_invalidate")
    case ZygiskLoaderMapped =>
      && f.category == "another reviewed module's exposure"
      && exists m :: Maps(processes, m) && (Contains(m.path, "/zygisksu/") || EndsWith(m.path, "/libzygisk.so"))
    case SelinuxNotEnforcing(observed) =>
      && f.category == "unknown/needs investigation" && observed == s.selinuxMode
      && observed != Some("Enforcing") && observed != Some("UNAVAILABLE")
    case ReportFailed => f.category == "OTAST-owned semantic inconsistency" && s.reportStatus == "FAIL"
    case ReportTimedOut => f.category == "diagnostic coverage limitation" && s.reportStatus == "TIMEOUT"
    case SuspicionUnsupported =>
      && f.category == "detector/report inconsistency" && s.mountClaim == "suspicious" && MountEvidence(processes) == 0
    case ClearanceContradicted(entries) =>
      && f.category == "detector/report inconsistency" && s.mountClaim == "clear"
      && entries == MountEvidence(processes) > 0
    case NothingObserved => f.category == "unknown/needs investigation" && Quiet(processes, s)
  }

  lemma SuspectExact(mode: Option<string>)
    ensures SelinuxSuspect(mode) <==> mode != Some("Enforcing") && mode != Some("UNAVAILABLE")
  {}

  lemma TwelveExact(paths: seq<string>)
    ensures FirstTwelve(paths) <= paths && |FirstTwelve(paths)| == if |paths| < 12 then |paths| else 12
  {}

  lemma ModuleEvidence(all: seq<Known>, f: Finding)
    ensures f in ModuleFindings(all) <==>
      f.evidence.ModuleMapped? && var e := f.evidence;
        && f.category == (if e.moduleId == "otast" then "OTAST-owned semantic inconsistency"
                          else "another reviewed module's exposure")
        && e.moduleId != "" && e.count > 0 && e.count == Occurrences(all, e.moduleId)
  {
    hide Occurrences, Leq, Distinct, SortedBy;
    var ids := SortedSet(ModuleIds(all));
    if f.evidence.ModuleMapped? {
      var id := f.evidence.moduleId;
      NoOccurrence(all, id);
      assert id in ids <==> id != "" && Occurrences(all, id) > 0;
      if id in ids {
        var i :| 0 <= i < |ids| && ids[i] == id;
        assert ModuleFindings(all)[i] == ModuleFinding(id, Occurrences(all, id));
      }
    }
    if f in ModuleFindings(all) {
      var i :| 0 <= i < |ids| && f == ModuleFinding(ids[i], Occurrences(all, ids[i]));
      assert ids[i] in ids;
    }
  }

  lemma LoaderEvidence(processes: seq<Process>)
    ensures SomeInlineHook(AllMappings(processes)) <==>
      exists m :: Maps(processes, m) && Contains(m.path, "inline_hook_invalidate")
    ensures SomeZygiskLoader(AllMappings(processes)) <==>
      exists m :: Maps(processes, m) && (Contains(m.path, "/zygisksu/") || EndsWith(m.path, "/libzygisk.so"))
  {
    hide Contains;
    forall m ensures m in AllMappings(processes) <==> Maps(processes, m) { AllMappingsExact(processes, m); }
    forall path: string
      ensures IsZygiskLoader(path) <==> Contains(path, "/zygisksu/") || EndsWith(path, "/libzygisk.so") {}
  }

  lemma MappingEvidence(all: seq<Known>, f: Finding)
    ensures f in MappingFindings(all) <==>
      || f in ModuleFindings(all)
      || (Unattributed(all) != [] && f == Finding(OTHER_MODULE,
           UnattributedMapped(|Unattributed(all)|, FirstTwelve(Unattributed(all)))))
      || (SomeInlineHook(all) && f == Finding(OTHER_MODULE, InlineHookMapped))
      || (SomeZygiskLoader(all) && f == Finding(OTHER_MODULE, ZygiskLoaderMapped))
  {
    hide ModuleFindings, Unattributed, SomeInlineHook, SomeZygiskLoader, FirstTwelve, OTHER_MODULE;
  }

  lemma SurroundingEvidence(s: Surroundings, mounts: nat, f: Finding)
    ensures f in SurroundingFindings(s, mounts) <==>
      || (SelinuxSuspect(s.selinuxMode) && f == Finding(UNKNOWN, SelinuxNotEnforcing(s.selinuxMode)))
      || (s.reportStatus == "FAIL" && f == Finding(OWNED, ReportFailed))
      || (s.reportStatus == "TIMEOUT" && f == Finding(COVERAGE, ReportTimedOut))
      || (s.mountClaim == "suspicious" && mounts == 0 && f == Finding(DETECTOR, SuspicionUnsupported))
      || (s.mountClaim == "clear" && mounts > 0 && f == Finding(DETECTOR, ClearanceContradicted(mounts)))
  {
    hide SelinuxSuspect, OWNED, DETECTOR, UNKNOWN, COVERAGE;
    assert s.mountClaim == "clear" ==> s.mountClaim[0] == 'c';
    assert s.mountClaim == "suspicious" ==> s.mountClaim[0] == 's';
    assert s.reportStatus == "FAIL" ==> s.reportStatus[0] == 'F';
    assert s.reportStatus == "TIMEOUT" ==> s.reportStatus[0] == 'T';
  }

  lemma FindingsExact(processes: seq<Process>, s: Surroundings, f: Finding)
    ensures f in Findings(processes, s) <==>
      || f in MappingFindings(AllMappings(processes))
      || f in SurroundingFindings(s, MountEvidence(processes))
      || (Quiet(processes, s) && f == Finding("unknown/needs investigation", NothingObserved))
  {
    hide MappingFindings, SurroundingFindings, AllMappings, MountEvidence, Quiet;
    EmptyMeansQuiet(processes, s);
  }

  lemma GroundedMapping(processes: seq<Process>, s: Surroundings, f: Finding)
    ensures f in MappingFindings(AllMappings(processes)) <==>
      && (f.evidence.ModuleMapped? || f.evidence.UnattributedMapped? || f.evidence.InlineHookMapped?
          || f.evidence.ZygiskLoaderMapped?)
      && Grounded(f, processes, s)
  {
    hide ModuleFindings, Occurrences, Unattributed, SomeInlineHook, SomeZygiskLoader, Quiet, MountEvidence, Contains;
    hide AllMappings, Maps, FirstTwelve, EndsWith, MappingFindings;
    var all := AllMappings(processes);
    ModuleEvidence(all, f);
    LoaderEvidence(processes);
    TwelveExact(Unattributed(all));
    MappingEvidence(all, f);
  }

  lemma GroundedSurrounding(processes: seq<Process>, s: Surroundings, f: Finding)
    ensures f in SurroundingFindings(s, MountEvidence(processes)) <==>
      && (f.evidence.SelinuxNotEnforcing? || f.evidence.ReportFailed? || f.evidence.ReportTimedOut?
          || f.evidence.SuspicionUnsupported? || f.evidence.ClearanceContradicted?)
      && Grounded(f, processes, s)
  {
    hide Occurrences, Unattributed, Quiet, MountEvidence, Contains, AllMappings, Maps, SelinuxSuspect, EndsWith;
    hide SurroundingFindings;
    SuspectExact(s.selinuxMode);
    SurroundingEvidence(s, MountEvidence(processes), f);
  }

  lemma GroundedQuiet(processes: seq<Process>, s: Surroundings, f: Finding)
    requires f.evidence.NothingObserved?
    ensures Grounded(f, processes, s) <==> f.category == "unknown/needs investigation" && Quiet(processes, s)
  {
    hide Quiet;
  }

  // The doctor reports exactly the findings that are grounded.
  lemma EvidenceExact(processes: seq<Process>, s: Surroundings, f: Finding)
    ensures f in Findings(processes, s) <==> Grounded(f, processes, s)
  {
    hide Findings, MappingFindings, SurroundingFindings, Grounded, Quiet, AllMappings, MountEvidence;
    FindingsExact(processes, s, f);
    GroundedMapping(processes, s, f);
    GroundedSurrounding(processes, s, f);
    if f.evidence.NothingObserved? { GroundedQuiet(processes, s, f); }
  }
}
