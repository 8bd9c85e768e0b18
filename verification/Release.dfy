// Release identity of tools/otastctl/release.py: resolve, stamp and publish over the stable
// channel and the module metadata.
module Release {
  import opened Results
  import opened Decimal
  import opened Properties
  import opened TextLines
  import opened Whitespace
  import opened ModuleMetadata
  import Version

  const UPDATE_URL := "https://raw.githubusercontent.com/cbkii/otast/main/update.json"
  const CHANGELOG_URL := "https://raw.githubusercontent.com/cbkii/otast/main/CHANGELOG.md"
  const DOWNLOAD := "https://github.com/cbkii/otast/releases/download/"

  // update.json, once it is known to be an object with exactly these four typed fields.
  datatype UpdateJson = UpdateJson(version: string, versionCode: int, zipUrl: string, changelog: string)

  datatype Identity = Identity(stableVersion: string, stableCode: int, version: string, code: int,
                               prerelease: bool, reused: bool)

  datatype ReleaseError =
    | BadUpdateJson
    | BadVersionText
    | BadCurrentCode
    | WrongChannel
    | BehindStable
    | RequestNotNewer
    | UnpublishedNotNewer
    | BadCodeArgument
    | NotExactlyOne(key: string)
    | MetadataUnreadable(error: MetadataError)
    | StampNotPersisted
    | StampChangedChannel
    | PrereleaseCannotPublish

  // ---- the stable channel ----

  function ExpectedUpdate(version: string, code: int): UpdateJson {
    UpdateJson(version, code, DOWNLOAD + version + "/" + Version.ZipName(version), CHANGELOG_URL)
  }

  predicate UpdateOk(u: UpdateJson) {
    Version.Valid(u.version) && u.versionCode > 0 && !Version.IsPrerelease(u.version)
      && u == ExpectedUpdate(u.version, u.versionCode)
  }

  // ---- resolve ----

  function Max(a: int, b: int): int { if a >= b then a else b }

  function Field(fields: Fields, key: string): string { if key in fields then fields[key] else "" }

  function Resolve(stable: UpdateJson, current: Fields, request: string): Result<Identity, ReleaseError> {
    if !UpdateOk(stable) then Err(BadUpdateJson) else
    var version, codeText := Field(current, "version"), Field(current, "versionCode");
    if !Version.Valid(version) then Err(BadVersionText)
    else if !PositiveDigits(codeText) then Err(BadCurrentCode)
    else if Field(current, "updateJson") != UPDATE_URL then Err(WrongChannel)
    else
      var code := FromDecimal(codeText);
      if code < stable.versionCode then Err(BehindStable)
      else Candidate(stable, version, code, Strip(request))
  }

  function Candidate(stable: UpdateJson, version: string, code: int, requested: string): Result<Identity, ReleaseError>
    requires UpdateOk(stable) && Version.Valid(version)
  {
    var next := Max(stable.versionCode, code) + 1;
    if requested != "" then
      if !Version.Valid(requested) then Err(BadVersionText)
      else if !Version.Newer(requested, stable.version) then Err(RequestNotNewer)
      else
        var reuse := version == requested && code > stable.versionCode;
        Ok(Identity(stable.version, stable.versionCode, requested, if reuse then code else next,
                    Version.IsPrerelease(requested), reuse))
    else if version != stable.version && code > stable.versionCode then
      if !Version.Newer(version, stable.version) then Err(UnpublishedNotNewer)
      else Ok(Identity(stable.version, stable.versionCode, version, code, Version.IsPrerelease(version), true))
    else
      Version.BumpIsNewer(stable.version);
      Ok(Identity(stable.version, stable.versionCode, Version.BumpPatch(stable.version), next, false, false))
  }

  // ---- stamp ----

  predicate Carries(line: string, key: string) { key + "=" <= line }

  function MatchesFrom(lines: seq<string>, key: string, i: nat): (r: seq<nat>)
    requires i <= |lines|
    ensures forall m :: m in r ==> i <= m < |lines|
    decreases |lines| - i
  {
    if i == |lines| then []
    else (if Carries(lines[i], key) then [i] else []) + MatchesFrom(lines, key, i + 1)
  }

  function Replaced(text: string, key: string, value: string): Result<string, ReleaseError> {
    var lines := SplitLines(text);
    var matches := MatchesFrom(lines, key, 0);
    if |matches| != 1 then Err(NotExactlyOne(key))
    else
      assert matches[0] in matches;
      Ok(Terminated(lines[matches[0] := PropertyLine(key, value)]))
  }

  lemma {:induction false} MatchesAppend(lines: seq<string>, key: string, i: nat, upto: nat, found: seq<nat>)
    requires i <= upto < |lines|
    ensures found + MatchesFrom(lines, key, upto)
            == (if Carries(lines[upto], key) then found + [upto] else found) + MatchesFrom(lines, key, upto + 1)
  {}

  method ReplaceProperty(text: string, key: string, value: string) returns (r: Result<string, ReleaseError>)
    ensures r == Replaced(text, key, value)
  {
    var lines := SplitLines(text);
    var matches: seq<nat> := [];
    for index := 0 to |lines|
      invariant matches + MatchesFrom(lines, key, index) == MatchesFrom(lines, key, 0)
    {
      MatchesAppend(lines, key, 0, index, matches);
      if Carries(lines[index], key) {
        matches := matches + [index];
      }
    }
    assert matches + [] == matches;
    if |matches| != 1 {
      return Err(NotExactlyOne(key));
    }
    assert matches[0] in MatchesFrom(lines, key, 0);
    lines := lines[matches[0] := PropertyLine(key, value)];
    return Ok(Terminated(lines));
  }

  // The file is written before its new metadata is checked: the text after the call, and the
  // call's outcome.
  function Stamped(text: string, version: string, code: int): (string, Option<ReleaseError>) {
    if !Version.Valid(version) then (text, Some(BadVersionText))
    else if code <= 0 then (text, Some(BadCodeArgument))
    else
      var one := Replaced(text, "version", version);
      if one.Err? then (text, Some(one.error))
      else
        var two := Replaced(one.value, "versionCode", IntText(code));
        if two.Err? then (text, Some(two.error))
        else (two.value, StampCheck(two.value, version, code))
  }

  function StampCheck(text: string, version: string, code: int): Option<ReleaseError> {
    var m := Metadata(text);
    if m.Err? then Some(MetadataUnreadable(m.error))
    else if m.value["version"] != version || FromDecimal(m.value["versionCode"]) != code then Some(StampNotPersisted)
    else if m.value["updateJson"] != UPDATE_URL then Some(StampChangedChannel)
    else None
  }

  // ---- the repository as the release steps see it ----

  datatype State = State(prop: string, update: UpdateJson)

  // The identity a release manifest carries.
  datatype Manifest = Manifest(version: string, code: int)

  datatype Action = Prepare(request: string) | Publish(manifest: Manifest)

  // resolve-release-version followed by stamp-release with its answer.
  function Prepared(s: State, request: string): (State, Result<Identity, ReleaseError>) {
    var m := Metadata(s.prop);
    if m.Err? then (s, Err(MetadataUnreadable(m.error)))
    else
      var id := Resolve(s.update, m.value, request);
      if id.Err? then (s, id)
      else
        var (text, bad) := Stamped(s.prop, id.value.version, id.value.code);
        (s.(prop := text), if bad.Some? then Err(bad.value) else id)
  }

  // The manifests that may reach the stable channel.
  predicate Publishable(m: Manifest) { Version.Valid(m.version) && m.code > 0 && !Version.IsPrerelease(m.version) }

  // Publishing turns the identity of a manifest, whenever it was built, into the stable update
  // metadata.
  function Published(s: State, m: Manifest): (State, Option<ReleaseError>) {
    if !Version.Valid(m.version) then (s, Some(BadVersionText))
    else if m.code <= 0 then (s, Some(BadCodeArgument))
    else if Version.IsPrerelease(m.version) then (s, Some(PrereleaseCannotPublish))
    else (s.(update := ExpectedUpdate(m.version, m.code)), None)
  }

  class Repository {
    var prop: string
    var update: UpdateJson

    function Now(): State
      reads this
    {
      State(prop, update)
    }

    constructor (prop: string, update: UpdateJson)
      ensures Now() == State(prop, update)
    {
      this.prop, this.update := prop, update;
    }

    method Stamp(version: string, code: int) returns (bad: Option<ReleaseError>)
      modifies this`prop
      ensures (prop, bad) == Stamped(old(prop), version, code)
    {
      hide Replaced, StampCheck, Version.Valid, IntText;
      if !Version.Valid(version) {
        return Some(BadVersionText);
      }
      if code <= 0 {
        return Some(BadCodeArgument);
      }
      var one := ReplaceProperty(prop, "version", version);
      if one.Err? {
        return Some(one.error);
      }
      var two := ReplaceProperty(one.value, "versionCode", IntText(code));
      if two.Err? {
        return Some(two.error);
      }
      prop := two.value;
      bad := StampCheck(prop, version, code);
    }

    method Prepare(request: string) returns (r: Result<Identity, ReleaseError>)
      modifies this`prop
      ensures (Now(), r) == Prepared(old(Now()), request)
    {
      hide Resolve, Stamped, Metadata;
      var m := Metadata(prop);
      if m.Err? {
        return Err(MetadataUnreadable(m.error));
      }
      r := Resolve(update, m.value, request);
      if r.Ok? {
        var bad := Stamp(r.value.version, r.value.code);
        if bad.Some? {
          return Err(bad.value);
        }
      }
    }

    method Publish(m: Manifest) returns (bad: Option<ReleaseError>)
      modifies this`update
      ensures (Now(), bad) == Published(old(Now()), m)
    {
      if !Version.Valid(m.version) {
        return Some(BadVersionText);
      }
      if m.code <= 0 {
        return Some(BadCodeArgument);
      }
      if Version.IsPrerelease(m.version) {
        return Some(PrereleaseCannotPublish);
      }
      update := ExpectedUpdate(m.version, m.code);
      bad := None;
    }
  }
}
