// Safety of release identities over every sequence of prepare and publish steps.
module ReleaseRuns {
  import opened Results
  import opened Decimal
  import opened Properties
  import opened TextLines
  import opened Whitespace
  import opened ModuleMetadata
  import opened Release
  import Version

  // ---- replacing one property line ----

  lemma CarriesExact(line: string, key: string)
    requires '=' in line && '=' !in key
    ensures Carries(line, key) <==> KeyOf(line) == key
  {
    LineIsItsParts(line);
    if Carries(line, key) {
      assert line == key + "=" + line[|key| + 1..];
      PropertyLineParts(key, line[|key| + 1..]);
    }
  }

  lemma {:induction false} KeysDiffer(lines: seq<string>, fields: Fields, i: nat, j: nat)
    requires Fold(lines, fields).Ok? && i < j < |lines|
    ensures '=' in lines[i] && '=' in lines[j] && KeyOf(lines[i]) != KeyOf(lines[j])
  {
    var next := fields[KeyOf(lines[0]) := ValueOf(lines[0])];
    if i == 0 {
      FoldDistinct(lines[1..], next, j - 1);
    } else {
      KeysDiffer(lines[1..], next, i - 1, j - 1);
    }
  }

  lemma {:induction false} MatchesUnique(lines: seq<string>, key: string, i: nat, at: nat)
    requires i <= |lines| && at < |lines|
    requires forall k :: 0 <= k < |lines| ==> (Carries(lines[k], key) <==> k == at)
    ensures MatchesFrom(lines, key, i) == if i <= at then [at] else []
    decreases |lines| - i
  {
    if i < |lines| {
      MatchesUnique(lines, key, i + 1, at);
    }
  }

  lemma KeyLine(text: string, key: string) returns (at: nat)
    requires ParsedFields(text).Ok? && key in ParsedFields(text).value && '=' !in key
    ensures at < |SplitLines(text)| && '=' in SplitLines(text)[at] && KeyOf(SplitLines(text)[at]) == key
    ensures forall k :: 0 <= k < |SplitLines(text)| ==> (Carries(SplitLines(text)[k], key) <==> k == at)
  {
    hide Fold, SplitLines, Carries, KeyOf;
    var lines := SplitLines(text);
    FoldKeys(lines, map[], key);
    at :| 0 <= at < |lines| && KeyOf(lines[at]) == key;
    forall k | 0 <= k < |lines| ensures Carries(lines[k], key) <==> k == at {
      assert lines[k] in lines;
      CarriesExact(lines[k], key);
      if k < at { KeysDiffer(lines, map[], k, at); }
      if at < k { KeysDiffer(lines, map[], at, k); }
    }
  }

  // Replacing a property that is there, by a one-line value, changes that field and no other.
  lemma ReplaceChangesOneField(text: string, key: string, value: string)
    requires ParsedFields(text).Ok? && key in ParsedFields(text).value && '=' !in key
    requires value != "" && OneLine(key) && OneLine(value)
    ensures Replaced(text, key, value).Ok?
    ensures ParsedFields(Replaced(text, key, value).value) == Ok(ParsedFields(text).value[key := value])
  {
    hide Fold, SplitLines, Carries, KeyOf, Terminated, OneLine;
    var lines := SplitLines(text);
    var at := KeyLine(text, key);
    MatchesUnique(lines, key, 0, at);
    FoldReplace(lines, map[], at, value);
    var changed := lines[at := PropertyLine(key, value)];
    forall l | l in changed ensures OneLine(l) {
      OneLinePair(key, value);
      assert l == PropertyLine(key, value) || l in lines;
    }
    SplitTerminated(changed);
  }

  lemma OneLinePair(key: string, value: string)
    requires OneLine(key) && OneLine(value)
    ensures OneLine(PropertyLine(key, value))
  {
    assert !IsLineBreak('=');
  }

  // ---- a stamp succeeds and changes exactly the two identity fields ----

  lemma VersionIsOneLine(version: string)
    requires Version.Valid(version)
    ensures OneLine(version) && version != ""
  {
    Version.ValidChars(version);
  }

  lemma DecimalIsOneLine(n: nat)
    ensures OneLine(ToDecimal(n)) && ToDecimal(n) != ""
  {}

  lemma PropertyNames()
    ensures '=' !in "version" && OneLine("version") && '=' !in "versionCode" && OneLine("versionCode")
  {}

  lemma PropertyNamesDiffer()
    ensures "version" != "versionCode" && "updateJson" != "version" && "updateJson" != "versionCode"
    ensures "id" != "version" && "id" != "versionCode"
  {
    assert |"version"| == 7 && |"versionCode"| == 11 && |"updateJson"| == 10 && |"id"| == 2;
  }

  lemma StampSucceeds(text: string, version: string, code: int)
    requires Metadata(text).Ok? && Metadata(text).value["updateJson"] == UPDATE_URL
    requires Version.Valid(version) && code > 0
    ensures Stamped(text, version, code).1.None?
    ensures Metadata(Stamped(text, version, code).0)
            == Ok(Metadata(text).value["version" := version]["versionCode" := ToDecimal(code)])
  {
    hide ParsedFields, Replaced, Version.Valid, OneLine, ToDecimal, IsDigits, FromDecimal;
    var m := Metadata(text).value;
    PropertyNames();
    PropertyNamesDiffer();
    VersionIsOneLine(version);
    ReplaceChangesOneField(text, "version", version);
    var one := Replaced(text, "version", version).value;
    DecimalIsOneLine(code);
    ReplaceChangesOneField(one, "versionCode", ToDecimal(code));
    Decimal.RoundTrip(code);
  }

  // ---- the gate and one step ----

  function CodeOf(s: State): int
    requires Metadata(s.prop).Ok?
  {
    FromDecimal(Metadata(s.prop).value["versionCode"])
  }

  function VersionOf(s: State): string
    requires Metadata(s.prop).Ok?
  {
    Metadata(s.prop).value["version"]
  }

  // The version/versionCode gate of `verify_repository`.
  predicate Gate(s: State) {
    && Metadata(s.prop).Ok?
    && UpdateOk(s.update)
    && Metadata(s.prop).value["updateJson"] == UPDATE_URL
    && CodeOf(s) >= s.update.versionCode
    && (CodeOf(s) == s.update.versionCode ==> VersionOf(s) == s.update.version)
    && (CodeOf(s) > s.update.versionCode ==> Version.Newer(VersionOf(s), s.update.version))
  }

  // A request is granted when it is empty, or a valid version newer than the stable one.
  predicate Grantable(s: State, request: string)
    requires UpdateOk(s.update)
  {
    var r := Strip(request);
    r == "" || (Version.Valid(r) && Version.Newer(r, s.update.version))
  }

  lemma ResolveExact(s: State, request: string)
    requires Gate(s)
    ensures Resolve(s.update, Metadata(s.prop).value, request).Ok? <==> Grantable(s, request)
    ensures var r := Resolve(s.update, Metadata(s.prop).value, request);
            r.Ok? ==>
              && Version.Valid(r.value.version) && Version.Newer(r.value.version, s.update.version)
              && r.value.code > s.update.versionCode
              && (r.value.reused ==> r.value.version == VersionOf(s) && r.value.code == CodeOf(s))
              && (!r.value.reused ==> r.value.code == CodeOf(s) + 1)
              && (r.value.reused <==>
                   CodeOf(s) > s.update.versionCode && (Strip(request) == "" || Strip(request) == VersionOf(s)))
  {
    hide Strip, Version.Newer, Version.BumpPatch, FromDecimal, ExpectedUpdate;
    Version.BumpIsNewer(s.update.version);
    NewerIsDifferent(VersionOf(s), s.update.version);
  }

  // On any two files, whether they pass the gate or not: which requests resolve, and to what.
  lemma ResolveAnyExact(stable: UpdateJson, current: Fields, request: string)
    ensures var q, version, codeText := Strip(request), Field(current, "version"), Field(current, "versionCode");
      Resolve(stable, current, request).Ok? <==>
        && UpdateOk(stable) && Version.Valid(version) && PositiveDigits(codeText)
        && Field(current, "updateJson") == "https://raw.githubusercontent.com/cbkii/otast/main/update.json"
        && FromDecimal(codeText) >= stable.versionCode
        && (q != "" ==> Version.Valid(q) && Version.Newer(q, stable.version))
        && (q == "" && version != stable.version && FromDecimal(codeText) > stable.versionCode ==>
              Version.Newer(version, stable.version))
    ensures Resolve(stable, current, request).Ok? ==>
      var q, version, code := Strip(request), Field(current, "version"), FromDecimal(Field(current, "versionCode"));
      var r := Resolve(stable, current, request).value;
      && (r.reused <==> code > stable.versionCode && (q == version || (q == "" && version != stable.version)))
      && r.code == (if r.reused then code else code + 1)
      && r.version == (if q != "" then q else if r.reused then version else Version.BumpPatch(stable.version))
  {
    hide Strip, Version.Newer, Version.BumpPatch, FromDecimal, ExpectedUpdate, Version.IsPrerelease, PositiveDigits;
    hide Version.Valid, Field;
    if UpdateOk(stable) { Version.BumpIsNewer(stable.version); EmptyIsInvalid(); }
  }

  lemma EmptyIsInvalid()
    ensures !Version.Valid("")
  {}

  lemma NewerIsDifferent(a: string, b: string)
    requires Version.Valid(a) && Version.Valid(b)
    ensures Version.Newer(a, b) ==> a != b
  {}

  // The new text has the metadata of the old one with exactly the resolved identity put in.
  predicate Stamps(before: string, after: string, id: Identity) {
    && Metadata(before).Ok? && id.code > 0
    && Metadata(after) == Ok(Metadata(before).value["version" := id.version]["versionCode" := ToDecimal(id.code)])
  }

  lemma StampsIdentity(before: string, after: string, update: UpdateJson, id: Identity)
    requires Stamps(before, after, id)
    ensures Metadata(after).Ok?
    ensures CodeOf(State(after, update)) == id.code && VersionOf(State(after, update)) == id.version
    ensures Metadata(after).value["updateJson"] == Metadata(before).value["updateJson"]
  {
    hide Metadata, ToDecimal, FromDecimal;
    PropertyNamesDiffer();
    Decimal.RoundTrip(id.code);
  }

  // On a state that passes the gate, preparing succeeds exactly for grantable requests, fails
  // without touching anything, and changes only the two identity fields of module.prop.
  lemma PrepareExact(s: State, request: string)
    requires Gate(s)
    ensures var (after, r) := Prepared(s, request);
            && (r.Ok? <==> Grantable(s, request))
            && (r.Err? ==> after == s)
            && (r.Ok? ==> after.update == s.update && Stamps(s.prop, after.prop, r.value))
  {
    hide Resolve, Stamped, Metadata, Grantable, ToDecimal, Version.Newer, ExpectedUpdate;
    ResolveExact(s, request);
    var r := Resolve(s.update, Metadata(s.prop).value, request);
    if r.Ok? {
      StampSucceeds(s.prop, r.value.version, r.value.code);
    }
  }

  // One step of either kind.
  function Next(s: State, a: Action): State {
    match a
    case Prepare(request) => Prepared(s, request).0
    case Publish(manifest) => Published(s, manifest).0
  }

  // What is kept from one moment to a later one: the gate, the order of codes, one version for
  // each code, in module.prop, in update.json and between the two, and a stable version that
  // only ever rises with its code.
  predicate StepSafe(s: State, t: State)
    requires Gate(s)
  {
    && Gate(t)
    && CodeOf(s) <= CodeOf(t)
    && (CodeOf(s) == CodeOf(t) ==> VersionOf(s) == VersionOf(t))
    && s.update.versionCode <= t.update.versionCode
    && (s.update.versionCode == t.update.versionCode ==> s.update.version == t.update.version)
    && (s.update.versionCode < t.update.versionCode ==> Version.Newer(t.update.version, s.update.version))
    && (CodeOf(s) == t.update.versionCode ==> VersionOf(s) == t.update.version)
  }

  // The manifest of a bundle built from this state.
  function BundleOf(s: State): Manifest
    requires Metadata(s.prop).Ok?
  {
    Manifest(VersionOf(s), CodeOf(s))
  }

  lemma PrepareKeepsGate(s: State, request: string)
    requires Gate(s)
    ensures StepSafe(s, Prepared(s, request).0) && Prepared(s, request).0.update == s.update
  {
    hide Prepared, Metadata, Resolve, Grantable, Stamps, Version.Newer, Version.Valid, ExpectedUpdate, FromDecimal;
    PrepareExact(s, request);
    ResolveExact(s, request);
    PreparedIdentity(s, request);
    var (after, r) := Prepared(s, request);
    if r.Ok? {
      StampsIdentity(s.prop, after.prop, s.update, r.value);
    }
  }

  lemma PreparedIdentity(s: State, request: string)
    requires Gate(s)
    ensures Prepared(s, request).1.Ok? ==> Resolve(s.update, Metadata(s.prop).value, request) == Prepared(s, request).1
  {
    hide Metadata, Resolve, Stamped, Gate;
  }

  // A manifest is the current identity, or precedes it by code and by version.
  predicate Behind(m: Manifest, s: State)
    requires Metadata(s.prop).Ok? && Version.Valid(m.version)
  {
    && m.code <= CodeOf(s)
    && if m.code == CodeOf(s) then m.version == VersionOf(s) else Version.Newer(VersionOf(s), m.version)
  }

  // A manifest lies between the stable and the current identity, by code and by version alike.
  predicate Fits(s: State, m: Manifest)
    requires Gate(s) && Version.Valid(m.version)
  {
    && Behind(m, s)
    && s.update.versionCode <= m.code
    && if m.code == s.update.versionCode then m.version == s.update.version
       else Version.Newer(m.version, s.update.version)
  }

  // Publishing any manifest: it fails exactly when it is not publishable, and then changes
  // nothing; otherwise the gate survives exactly on one side of the current identity, and a safe
  // step is exactly one whose manifest lies between the stable and the current identity.
  lemma PublishExact(s: State, m: Manifest)
    requires Gate(s)
    ensures var (t, bad) := Published(s, m);
      && (bad.None? <==> Publishable(m)) && (bad.Some? ==> t == s) && t.prop == s.prop
      && (bad.None? <==> Version.Valid(m.version) && m.code > 0 && '-' !in m.version)
      && (bad.None? ==>
            && t.update.version == m.version && t.update.versionCode == m.code
            && t.update.zipUrl == "https://github.com/cbkii/otast/releases/download/" + m.version
                                  + "/otast-" + m.version + ".zip"
            && t.update.changelog == "https://raw.githubusercontent.com/cbkii/otast/main/CHANGELOG.md"
            && (Gate(t) <==> Behind(m, s))
            && (StepSafe(s, t) <==> Fits(s, m)))
  {
    hide Metadata, Version.Newer, ExpectedUpdate, FromDecimal, Gate, StepSafe, Fits, Behind;
    if Version.Valid(m.version) { Version.PrereleaseExact(m.version); }
    if Publishable(m) {
      ExpectedFields(m.version, m.code);
      ExpectedLinks(m.version, m.code);
      GateAfter(s, m);
      SafeAfter(s, m);
    }
  }

  lemma GateAfter(s: State, m: Manifest)
    requires Gate(s) && Publishable(m)
    ensures Gate(s.(update := ExpectedUpdate(m.version, m.code))) <==> Behind(m, s)
  {
    hide Metadata, Version.Newer, ExpectedUpdate, FromDecimal;
    ExpectedFields(m.version, m.code);
  }

  lemma SafeAfter(s: State, m: Manifest)
    requires Gate(s) && Publishable(m)
    ensures StepSafe(s, s.(update := ExpectedUpdate(m.version, m.code))) <==> Fits(s, m)
  {
    hide Metadata, Version.Newer, ExpectedUpdate, FromDecimal, UpdateOk;
    hide Gate;
    ExpectedFields(m.version, m.code);
    GateAfter(s, m);
    GateParts(s);
  }

  lemma GateParts(s: State)
    requires Gate(s)
    ensures Metadata(s.prop).Ok? && Version.Valid(VersionOf(s)) && Version.Valid(s.update.version)
  {}

  // The bundle of the current state always fits: publishing a new candidate raises the stable
  // core strictly, publishing it again changes nothing.
  lemma PublishKeepsGate(s: State)
    requires Gate(s)
    ensures Version.Valid(BundleOf(s).version) && Fits(s, BundleOf(s))
    ensures StepSafe(s, Published(s, BundleOf(s)).0)
    ensures Published(s, BundleOf(s)).1.None? <==> !Version.IsPrerelease(VersionOf(s))
    ensures var t := Published(s, BundleOf(s)).0;
            if t.update.versionCode == s.update.versionCode then t == s
            else Version.Newer(t.update.version, s.update.version)
  {
    hide Metadata, Version.Newer, ExpectedUpdate, FromDecimal, Published, Fits, StepSafe, Gate, Publishable;
    CurrentFits(s);
    PublishExact(s, BundleOf(s));
    StepSafeReflexive(s);
    CodePositive(s);
  }

  lemma CurrentFits(s: State)
    requires Gate(s)
    ensures Metadata(s.prop).Ok? && Version.Valid(BundleOf(s).version) && Fits(s, BundleOf(s))
    ensures Publishable(BundleOf(s)) <==> !Version.IsPrerelease(VersionOf(s))
    ensures Publishable(BundleOf(s)) && CodeOf(s) == s.update.versionCode ==> Published(s, BundleOf(s)).0 == s
    ensures CodeOf(s) != s.update.versionCode ==> Version.Newer(VersionOf(s), s.update.version)
    ensures CodeOf(s) == s.update.versionCode ==> !Version.IsPrerelease(VersionOf(s))
  {
    hide Metadata, Version.Newer, ExpectedUpdate, FromDecimal;
  }

  // Publishing the current bundle establishes the gate, whatever update.json said before: no run
  // needs to start there.
  lemma PublishEstablishesGate(s: State)
    requires Metadata(s.prop).Ok? && Metadata(s.prop).value["updateJson"] == UPDATE_URL
    ensures Gate(Published(s, BundleOf(s)).0) || Version.IsPrerelease(VersionOf(s))
  {
    hide Metadata, Version.Newer, ExpectedUpdate;
    ExpectedFields(VersionOf(s), CodeOf(s));
  }

  lemma ExpectedFields(version: string, code: int)
    ensures ExpectedUpdate(version, code).version == version && ExpectedUpdate(version, code).versionCode == code
  {}

  // The stable metadata that is accepted: a valid version without a hyphen, a positive code, and
  // the links that belong to them.
  lemma UpdateExact(u: UpdateJson)
    ensures UpdateOk(u) <==>
      && Version.Valid(u.version) && '-' !in u.version && u.versionCode > 0
      && u.zipUrl == "https://github.com/cbkii/otast/releases/download/" + u.version + "/otast-" + u.version + ".zip"
      && u.changelog == "https://raw.githubusercontent.com/cbkii/otast/main/CHANGELOG.md"
    ensures UPDATE_URL == "https://raw.githubusercontent.com/cbkii/otast/main/update.json"
  {
    hide Version.Valid, Version.IsPrerelease, ExpectedUpdate;
    ExpectedFields(u.version, u.versionCode);
    ExpectedLinks(u.version, u.versionCode);
    if Version.Valid(u.version) { Version.PrereleaseExact(u.version); }
  }

  lemma ExpectedLinks(version: string, code: int)
    ensures var u := ExpectedUpdate(version, code);
      && u.zipUrl == "https://github.com/cbkii/otast/releases/download/" + version + "/otast-" + version + ".zip"
      && u.changelog == "https://raw.githubusercontent.com/cbkii/otast/main/CHANGELOG.md"
  {
    assert DOWNLOAD + version + "/" + ("otast-" + version + ".zip")
      == DOWNLOAD + version + "/otast-" + version + ".zip";
  }

  // ---- runs ----

  function Run(s: State, actions: seq<Action>): (r: seq<State>)
    ensures |r| == |actions| + 1
    decreases |actions|
  {
    if actions == [] then [s] else [s] + Run(Next(s, actions[0]), actions[1..])
  }

  lemma {:induction false} RunSteps(s: State, actions: seq<Action>)
    ensures Run(s, actions)[0] == s
    ensures forall i :: 0 <= i < |actions| ==> Run(s, actions)[i + 1] == Next(Run(s, actions)[i], actions[i])
    decreases |actions|
  {
    hide Next;
    if actions != [] {
      var t, rest := Next(s, actions[0]), actions[1..];
      RunSteps(t, rest);
      var run := Run(s, actions);
      assert forall i :: 0 <= i <= |rest| ==> run[i + 1] == Run(t, rest)[i];
      forall i | 0 <= i < |actions| ensures run[i + 1] == Next(run[i], actions[i]) {
        if i > 0 {
          assert rest[i - 1] == actions[i];
          assert Run(t, rest)[i - 1 + 1] == Next(Run(t, rest)[i - 1], rest[i - 1]);
        }
      }
    }
  }

  // A bundle built at this or an earlier moment of the run.
  ghost predicate BuiltBy(run: seq<State>, k: nat, m: Manifest)
    requires k < |run|
  {
    exists h :: 0 <= h <= k && Metadata(run[h].prop).Ok? && m == BundleOf(run[h])
  }

  // Whatever the run publishes was built in it and lies between the stable and the current
  // identity of the moment; publishing the current bundle always does.
  ghost predicate Orderly(s: State, actions: seq<Action>) {
    var run := Run(s, actions);
    forall k :: 0 <= k < |actions| && actions[k].Publish? && Publishable(actions[k].manifest) ==>
      BuiltBy(run, k, actions[k].manifest) && (Gate(run[k]) ==> Fits(run[k], actions[k].manifest))
  }

  ghost predicate PublishesCurrent(s: State, a: Action) {
    a.Publish? ==> Metadata(s.prop).Ok? && a.manifest == BundleOf(s)
  }

  // Runs that publish nothing but the current bundle are orderly.
  lemma CurrentBundlesAreOrderly(s: State, actions: seq<Action>)
    requires forall k :: 0 <= k < |actions| ==> PublishesCurrent(Run(s, actions)[k], actions[k])
    ensures Orderly(s, actions)
  {
    hide Fits, Gate, Metadata, BuiltBy, PublishesCurrent, Run, Version.IsPrerelease;
    var run := Run(s, actions);
    forall k | 0 <= k < |actions| && actions[k].Publish? && Publishable(actions[k].manifest)
      ensures BuiltBy(run, k, actions[k].manifest) && (Gate(run[k]) ==> Fits(run[k], actions[k].manifest)) {
      CurrentIsOrderly(run, k, actions[k]);
    }
  }

  lemma CurrentIsOrderly(run: seq<State>, k: nat, a: Action)
    requires k < |run| && a.Publish? && PublishesCurrent(run[k], a) && Publishable(a.manifest)
    ensures BuiltBy(run, k, a.manifest)
    ensures Gate(run[k]) ==> Fits(run[k], a.manifest)
  {
    hide Fits, Gate, Metadata, Publishable, BundleOf;
    if Gate(run[k]) { PublishKeepsGate(run[k]); }
  }

  lemma StepSafeReflexive(s: State)
    requires Gate(s)
    ensures StepSafe(s, s)
  {}

  lemma StepSafeTransitive(s: State, t: State, u: State)
    requires Gate(s) && StepSafe(s, t) && Gate(t) && StepSafe(t, u)
    requires CodeOf(s) == u.update.versionCode ==> VersionOf(s) == u.update.version
    ensures StepSafe(s, u)
  {
    hide Metadata, Version.Newer, FromDecimal, ExpectedUpdate;
    if s.update.versionCode < t.update.versionCode < u.update.versionCode {
      Version.NewerTransitive(u.update.version, t.update.version, s.update.version);
    }
  }

  lemma StepGate(s: State, t: State)
    requires Gate(s) && StepSafe(s, t)
    ensures Gate(t)
  {}

  // One step of an orderly run: it is safe, and what it publishes was built earlier.
  lemma OrderlyStep(s: State, actions: seq<Action>, k: nat)
    requires Orderly(s, actions) && k < |actions| && Gate(Run(s, actions)[k])
    ensures StepSafe(Run(s, actions)[k], Run(s, actions)[k + 1])
    ensures var run := Run(s, actions);
      run[k + 1].update == run[k].update
      || exists h :: 0 <= h <= k && Metadata(run[h].prop).Ok?
           && run[k + 1].update.version == VersionOf(run[h]) && run[k + 1].update.versionCode == CodeOf(run[h])
  {
    hide StepSafe, Gate, Fits, Publishable, Published, Prepared, Run, Metadata, VersionOf, CodeOf;
    var run := Run(s, actions);
    RunSteps(s, actions);
    match actions[k] {
      case Prepare(request) =>
        PrepareKeepsGate(run[k], request);
      case Publish(m) =>
        PublishExact(run[k], m);
        StepSafeReflexive(run[k]);
    }
  }

  // Safety over runs: however prepare and publish steps are interleaved in an orderly run, every
  // state passes the gate, and between any two moments no code decreases, one code never names
  // two versions, and the stable version rises whenever the stable code does.
  lemma {:induction false} RunSafe(s: State, actions: seq<Action>, i: nat, j: nat)
    requires Gate(s) && Orderly(s, actions) && i <= j <= |actions|
    ensures Gate(Run(s, actions)[i]) && Gate(Run(s, actions)[j])
    ensures StepSafe(Run(s, actions)[i], Run(s, actions)[j])
    decreases j, if i == j then 1 else 0
  {
    hide Gate, StepSafe, Run, Orderly, Metadata, CodeOf, VersionOf;
    var run := Run(s, actions);
    RunSteps(s, actions);
    if j == 0 {
      StepSafeReflexive(run[0]);
    } else {
      var k := j - 1;
      RunSafe(s, actions, if i < j then i else k, k);
      OrderlyStep(s, actions, k);
      StepGate(run[k], run[j]);
      if i == j {
        StepSafeReflexive(run[j]);
      } else if run[j].update == run[k].update {
        SameChannel(run[i], run[k], run[j]);
        StepSafeTransitive(run[i], run[k], run[j]);
      } else {
        var h :| 0 <= h <= k && Metadata(run[h].prop).Ok?
          && run[j].update.version == VersionOf(run[h]) && run[j].update.versionCode == CodeOf(run[h]);
        RunSafe(s, actions, if i <= h then i else h, if i <= h then h else i);
        SameCodeSameVersion(run[if i <= h then i else h], run[if i <= h then h else i]);
        StepSafeTransitive(run[i], run[k], run[j]);
      }
    }
  }

  lemma SameChannel(s: State, t: State, u: State)
    requires Gate(s) && StepSafe(s, t) && u.update == t.update
    ensures CodeOf(s) == u.update.versionCode ==> VersionOf(s) == u.update.version
  {}

  lemma SameCodeSameVersion(s: State, t: State)
    requires Gate(s) && StepSafe(s, t)
    ensures Metadata(s.prop).Ok? && Metadata(t.prop).Ok?
    ensures CodeOf(s) == CodeOf(t) ==> VersionOf(s) == VersionOf(t)
  {}

  // Every state of an orderly run passes the gate.
  lemma RunKeepsGate(s: State, actions: seq<Action>, i: nat)
    requires Gate(s) && Orderly(s, actions) && i <= |actions|
    ensures Gate(Run(s, actions)[i])
  {
    hide Gate, StepSafe, Run, Orderly;
    RunSafe(s, actions, i, i);
  }

  // Between two moments the stable version is the same or strictly newer.
  lemma StableNeverFalls(s: State, actions: seq<Action>, i: nat, j: nat)
    requires Gate(s) && Orderly(s, actions) && i <= j <= |actions|
    ensures Gate(Run(s, actions)[i]) && Gate(Run(s, actions)[j])
    ensures var before, after := Run(s, actions)[i].update, Run(s, actions)[j].update;
      before.version == after.version || Version.Newer(after.version, before.version)
  {
    hide Run, Orderly, Metadata, Version.Newer, FromDecimal, ExpectedUpdate;
    RunSafe(s, actions, i, j);
  }

  // Whatever two moments of a run are compared, a code found in module.prop or in update.json
  // at one of them names the same version at the other.
  lemma OneVersionPerCode(s: State, actions: seq<Action>, i: nat, j: nat)
    requires Gate(s) && Orderly(s, actions) && i <= |actions| && j <= |actions|
    ensures Gate(Run(s, actions)[i]) && Gate(Run(s, actions)[j])
    ensures var a, b := Run(s, actions)[i], Run(s, actions)[j];
            && (CodeOf(a) == CodeOf(b) ==> VersionOf(a) == VersionOf(b))
            && (a.update.versionCode == CodeOf(b) ==> a.update.version == VersionOf(b))
            && (a.update.versionCode == b.update.versionCode ==> a.update.version == b.update.version)
  {
    hide Run, Orderly, Metadata, UpdateOk, Version.Newer, FromDecimal;
    if i <= j { RunSafe(s, actions, i, j); } else { RunSafe(s, actions, j, i); }
  }

  // A bundle built earlier in the run: the gate survives its publication exactly when it is the
  // current one by code or older by version, and the step is safe exactly when, besides, it is
  // not behind the stable channel by code or by version.
  lemma EarlierBundleExact(s: State, actions: seq<Action>, i: nat, j: nat)
    requires Gate(s) && Orderly(s, actions) && i <= j <= |actions|
    ensures Gate(Run(s, actions)[i]) && Gate(Run(s, actions)[j])
    ensures var b, m := Run(s, actions)[j], BundleOf(Run(s, actions)[i]);
      var (t, bad) := Published(b, m);
      bad.None? ==>
        && (Gate(t) <==> m.code == CodeOf(b) || Version.Newer(VersionOf(b), m.version))
        && (b.update.versionCode <= t.update.versionCode <==> b.update.versionCode <= m.code)
        && (StepSafe(b, t) <==>
              && (m.code == CodeOf(b) || Version.Newer(VersionOf(b), m.version))
              && (m.code == b.update.versionCode
                  || (m.code > b.update.versionCode && Version.Newer(m.version, b.update.version))))
  {
    hide Run, Orderly, Metadata, UpdateOk, Version.Newer, FromDecimal, StepSafe, Published, Version.Valid;
    var a, b := Run(s, actions)[i], Run(s, actions)[j];
    RunSafe(s, actions, i, j);
    SameCodeSameVersion(a, b);
    CodesAscend(a, b);
    OneVersionPerCode(s, actions, j, i);
    PublishExact(b, BundleOf(a));
    VersionsAreValid(a);
    VersionsAreValid(b);
  }

  lemma CodesAscend(s: State, t: State)
    requires Gate(s) && StepSafe(s, t)
    ensures Gate(t) && CodeOf(s) <= CodeOf(t)
  {}

  lemma VersionsAreValid(s: State)
    requires Gate(s)
    ensures Version.Valid(VersionOf(s)) && Version.Valid(s.update.version)
  {}

  // Preparing an allowed request makes it the current version, under a code no earlier one had
  // unless it was current already.
  lemma PrepareStamps(s: State, request: string)
    requires Gate(s) && Grantable(s, request) && Strip(request) == request != ""
    ensures var t := Prepared(s, request).0;
      && Gate(t) && t.update == s.update && VersionOf(t) == request
      && (VersionOf(s) != request ==> CodeOf(t) == CodeOf(s) + 1)
  {
    hide Prepared, Metadata, Resolve, Stamps, Version.Newer, UpdateOk, FromDecimal, Strip, StepSafe, Grantable;
    PrepareExact(s, request);
    PreparedIdentity(s, request);
    ResolveExact(s, request);
    ResolvedVersion(s, request);
    PrepareKeepsGate(s, request);
    StepGate(s, Prepared(s, request).0);
    StampsIdentity(s.prop, Prepared(s, request).0.prop, s.update, Prepared(s, request).1.value);
  }

  // A version that can be asked for as it stands, and is granted.
  predicate Askable(s: State, version: string) {
    && UpdateOk(s.update) && Version.Valid(version)
    && Version.Newer(version, s.update.version) && Strip(version) == version != ""
  }

  lemma AskableIsGranted(s: State, version: string)
    requires Gate(s) && Askable(s, version)
    ensures var t := Prepared(s, version).0;
      && Gate(t) && t.update == s.update && VersionOf(t) == version
      && (VersionOf(s) != version ==> CodeOf(t) == CodeOf(s) + 1)
  {
    hide Prepared, Gate, UpdateOk, Version.Newer, Version.Valid, Strip, Metadata, FromDecimal;
    PrepareStamps(s, version);
  }

  // Prepare one version, then another that is older than the first, then publish the bundle of
  // the first: the gate is broken.
  lemma OlderBundleBreaksGate(s: State, first: State, second: State, far: string, near: string)
    requires Gate(s) && Askable(s, far) && Askable(s, near)
    requires Version.Newer(far, near) && !Version.IsPrerelease(far)
    requires first == Prepared(s, far).0 && second == Prepared(first, near).0
    ensures Gate(first) && Gate(second)
    ensures !Gate(Published(second, BundleOf(first)).0)
  {
    hide Prepared, Published, Metadata, UpdateOk, FromDecimal, Strip, Gate, Version.Valid, Version.Newer;
    AskableIsGranted(s, far);
    AskableIsGranted(first, near);
    GateParts(first);
    GateParts(second);
    CodePositive(first);
    Version.NotBothNewer(far, near);
    PublishExact(second, BundleOf(first));
  }

  // Such versions exist whatever is stable: two majors up, and one.
  lemma OlderBundleExample(s: State)
    requires Gate(s)
    ensures exists far, near ::
      Askable(s, far) && Askable(s, near) && Version.Newer(far, near) && !Version.IsPrerelease(far)
  {
    hide Metadata, FromDecimal, Strip, Version.Text, Gate, UpdateOk;
    ChannelIsOk(s);
    GateParts(s);
    var v := Version.Parse(s.update.version).value;
    var far, near := Version.Text(v.major + 2, 0, 0), Version.Text(v.major + 1, 0, 0);
    Version.ParseText(v.major + 2, 0, 0);
    Version.ParseText(v.major + 1, 0, 0);
    TextIsStripped(v.major + 2);
    TextIsStripped(v.major + 1);
    assert Askable(s, far) && Askable(s, near) && Version.Newer(far, near);
  }

  lemma ChannelIsOk(s: State)
    requires Gate(s)
    ensures UpdateOk(s.update)
  {}

  lemma CodePositive(s: State)
    requires Metadata(s.prop).Ok?
    ensures CodeOf(s) > 0
  {}

  lemma TextIsStripped(major: nat)
    ensures var s := Version.Text(major, 0, 0); s != "" && Strip(s) == s
  {
    var s := Version.Text(major, 0, 0);
    assert s[0] == 'v' && s[|s| - 1] == ToDecimal(0)[0] == '0';
    StripKeeps(s);
  }

  // Preparing again with the same request names the same version and code, now as reused.
  lemma PrepareIsIdempotent(s: State, request: string)
    requires Gate(s) && Prepared(s, request).1.Ok?
    ensures var (after, id) := Prepared(s, request);
            var again := Prepared(after, request);
            && again.1.Ok? && again.1.value.version == id.value.version && again.1.value.code == id.value.code
            && again.1.value.reused
            && again.0.update == s.update && Metadata(again.0.prop) == Metadata(after.prop)
  {
    hide Prepared, Metadata, Resolve, Stamps, Version.Newer, UpdateOk, FromDecimal, Strip;
    var (after, id) := Prepared(s, request);
    PrepareExact(s, request);
    PreparedIdentity(s, request);
    ResolveExact(s, request);
    StampsIdentity(s.prop, after.prop, s.update, id.value);
    PrepareKeepsGate(s, request);
    PrepareExact(after, request);
    PreparedIdentity(after, request);
    ResolveExact(after, request);
    ResolvedVersion(s, request);
    RestampSame(s.prop, after.prop, Prepared(after, request).0.prop, id.value, Prepared(after, request).1.value);
  }

  // Which version is resolved: the one asked for; or, when nothing is asked for, the unpublished
  // current one, and otherwise the stable one with its last number raised by one. It is flagged
  // as a prerelease exactly when there is a hyphen in it.
  lemma ResolvedVersion(s: State, request: string)
    requires Gate(s)
    ensures var r := Resolve(s.update, Metadata(s.prop).value, request);
      var stable := Version.Parse(s.update.version).value;
      r.Ok? ==>
        && r.value.version == (if Strip(request) != "" then Strip(request)
                               else if CodeOf(s) > s.update.versionCode then VersionOf(s)
                               else Version.Text(stable.major, stable.minor, stable.patch + 1))
        && r.value.stableVersion == s.update.version && r.value.stableCode == s.update.versionCode
        && (r.value.prerelease <==> '-' in r.value.version)
  {
    hide Strip, Metadata, Version.Newer, FromDecimal, ExpectedUpdate, Version.IsPrerelease, Version.Text, Version.Parse;
    var r := Resolve(s.update, Metadata(s.prop).value, request);
    NewerIsDifferent(VersionOf(s), s.update.version);
    if r.Ok? {
      ResolveExact(s, request);
      Version.PrereleaseExact(r.value.version);
      FlagIsPrerelease(s, request);
    }
  }

  lemma FlagIsPrerelease(s: State, request: string)
    requires Gate(s) && Resolve(s.update, Metadata(s.prop).value, request).Ok?
    ensures var id := Resolve(s.update, Metadata(s.prop).value, request).value;
      Version.Valid(id.version) && id.prerelease == Version.IsPrerelease(id.version)
  {
    hide Strip, Metadata, Version.Newer, FromDecimal, ExpectedUpdate, Version.BumpPatch;
    Version.BumpIsNewer(s.update.version);
    ResolveExact(s, request);
  }

  lemma RestampSame(a: string, b: string, c: string, first: Identity, second: Identity)
    requires Stamps(a, b, first) && Stamps(b, c, second) && first.version == second.version && first.code == second.code
    ensures Metadata(c) == Metadata(b)
  {
    hide Metadata, ToDecimal;
    PropertyNamesDiffer();
    RestampMap(Metadata(a).value, "version", first.version, "versionCode", ToDecimal(first.code));
  }

  lemma RestampMap(m: map<string, string>, k: string, v: string, j: string, w: string)
    requires k != j
    ensures m[k := v][j := w][k := v][j := w] == m[k := v][j := w]
  {}
}
