// scripts/reconcile-release-state.py: private release state is either exactly bound to the
// hosted candidate, or archived whole.
module Reconcile {
  import opened Results
  import opened Bytes
  import opened Decimal
  import opened Lists
  import opened Strings
  import opened TextLines
  import opened Whitespace
  import Properties
  import Utf8
  import Version

  // ---- what is on disk ----

  datatype Node = File(bytes: seq<Byte>) | Folder | Link | Special

  // Relative paths below the state directory.
  type DirTree = map<string, Node>

  datatype StateDir = NoState | Dir(tree: DirTree) | UnsafeState

  datatype History = NoHistory | Archives(entries: map<string, DirTree>) | UnsafeHistory

  datatype Store = Store(baseSafe: bool, state: StateDir, history: History)

  datatype ReconcileError =
    | UnsafePath
    | UnsafePayload
    | UnsafeStateFile
    | StateTooLarge
    | Unreadable
    | DuplicateKey(key: string)
    | NotCanonical(key: string)
    | MalformedValue(key: string)
    | UnknownPhase
    | AssetsMalformed
    | ZipAssetCount
    | ZipDigestMissing
    | ZipDigestMalformed
    | UnsafeVersion
    | HistoryNotSecured
    | NoUniquePath
    | ArchiveFailed

  // ---- reading the local state ----

  datatype LocalState = LocalState(exists_: bool, phase: string, sourceSha: string, moduleSha: string,
                                   runtimeDigest: string,
                                   hasPayload: bool, hasAuxiliary: bool)

  const STATE_FILE := "state.env"
  const MAX_STATE_FILE := 64 * 1024

  predicate KnownPhase(p: string) {
    p in {"START", "BASELINE_REBOOT", "INSTALL_REBOOT", "APPLY_REBOOT", "EVIDENCE_REQUIRED", "RESTORE_REBOOT",
          "REAPPLY_REBOOT", "ABORT_RESTORE_REBOOT", "PROOF_READY", "PUBLISHING", "COMPLETE"}
  }

  predicate Wanted(key: string) { key in {"PHASE", "SOURCE_SHA", "MODULE_SHA256", "RUNTIME_DIGEST"} }


  predicate SimpleChar(c: char) { Version.Alphanumeric(c) || c == '.' || c == '_' || c == '+' || c == '-' }

  predicate IsSimple(s: string) { s != "" && forall c :: c in s ==> SimpleChar(c) }

  // `_decode_simple_value`; digits is 0 where no pattern is given.
  function Decoded(raw: string, key: string, digits: nat): Result<string, ReconcileError> {
    var value := Strip(raw);
    if value == "" || value == "''" || value == "\"\"" then Ok("")
    else if !IsSimple(value) then Err(NotCanonical(key))
    else if digits > 0 && !IsHexText(value, digits) then Err(MalformedValue(key))
    else Ok(value)
  }

  type Fields = map<string, string>

  // The loop over the lines of state.env.
  function Collect(lines: seq<string>, wanted: Fields): Result<Fields, ReconcileError> {
    if lines == [] then Ok(wanted)
    else if '=' !in lines[0] || !Wanted(Properties.KeyOf(lines[0])) then Collect(lines[1..], wanted)
    else if Properties.KeyOf(lines[0]) in wanted then Err(DuplicateKey(Properties.KeyOf(lines[0])))
    else Collect(lines[1..], wanted[Properties.KeyOf(lines[0]) := Properties.ValueOf(lines[0])])
  }

  method CollectFields(lines: seq<string>) returns (r: Result<Fields, ReconcileError>)
    ensures r == Collect(lines, map[])
  {
    hide Wanted, Properties.KeyOf, Properties.ValueOf;
    var wanted: Fields := map[];
    assert lines[0..] == lines;
    for i := 0 to |lines|
      invariant Collect(lines, map[]) == Collect(lines[i..], wanted)
    {
      assert lines[i..][1..] == lines[i + 1..];
      var line := lines[i];
      if '=' !in line {
        continue;
      }
      var key := Properties.KeyOf(line);
      if !Wanted(key) {
        continue;
      }
      if key in wanted {
        return Err(DuplicateKey(key));
      }
      wanted := wanted[key := Properties.ValueOf(line)];
    }
    return Ok(wanted);
  }

  function Or(fields: Fields, key: string, default: string): string { if key in fields then fields[key] else default }

  predicate HasPayload(tree: DirTree) { exists p :: p in tree && tree[p].File? }

  predicate HasAuxiliary(tree: DirTree) { exists p :: p in tree && tree[p].File? && p != STATE_FILE }

  function Bound(fields: Fields, payload: bool, auxiliary: bool): Result<LocalState, ReconcileError> {
    var phase := Decoded(Or(fields, "PHASE", "START"), "PHASE", 0);
    if phase.Err? then Err(phase.error) else
    var p := if phase.value == "" then "START" else phase.value;
    if !KnownPhase(p) then Err(UnknownPhase) else
    var source := Decoded(Or(fields, "SOURCE_SHA", ""), "SOURCE_SHA", 40);
    if source.Err? then Err(source.error) else
    var module_ := Decoded(Or(fields, "MODULE_SHA256", ""), "MODULE_SHA256", 64);
    if module_.Err? then Err(module_.error) else
    var runtime := Decoded(Or(fields, "RUNTIME_DIGEST", ""), "RUNTIME_DIGEST", 64);
    if runtime.Err? then Err(runtime.error)
    else Ok(LocalState(true, p, source.value, module_.value, runtime.value, payload, auxiliary))
  }

  function LoadTree(tree: DirTree): Result<LocalState, ReconcileError> {
    if exists p :: p in tree && (tree[p].Link? || tree[p].Special?) then Err(UnsafePayload)
    else if STATE_FILE !in tree then Ok(LocalState(true, "START", "", "", "", HasPayload(tree), HasAuxiliary(tree)))
    else if !tree[STATE_FILE].File? then Err(UnsafeStateFile)
    else if |tree[STATE_FILE].bytes| > MAX_STATE_FILE then Err(StateTooLarge)
    else
      var text := Utf8.Decode(tree[STATE_FILE].bytes);
      if text.None? then Err(Unreadable)
      else
        var fields := Collect(SplitLines(text.value), map[]);
        if fields.Err? then Err(fields.error) else Bound(fields.value, HasPayload(tree), HasAuxiliary(tree))
  }

  const NOTHING := LocalState(false, "START", "", "", "", false, false)

  function Load(state: StateDir): Result<LocalState, ReconcileError> {
    match state
    case UnsafeState => Err(UnsafePath)
    case NoState => Ok(NOTHING)
    case Dir(tree) => LoadTree(tree)
  }

  method LoadLocalState(state: StateDir) returns (r: Result<LocalState, ReconcileError>)
    ensures r == Load(state)
  {
    hide Collect, Bound, HasPayload, HasAuxiliary, Utf8.Decode, SplitLines;
    match state
    case UnsafeState => return Err(UnsafePath);
    case NoState => return Ok(NOTHING);
    case Dir(tree) =>
      if exists p :: p in tree && (tree[p].Link? || tree[p].Special?) {
        return Err(UnsafePayload);
      }
      if STATE_FILE !in tree {
        return Ok(LocalState(true, "START", "", "", "", HasPayload(tree), HasAuxiliary(tree)));
      }
      if !tree[STATE_FILE].File? {
        return Err(UnsafeStateFile);
      }
      if |tree[STATE_FILE].bytes| > MAX_STATE_FILE {
        return Err(StateTooLarge);
      }
      var text := Utf8.Decode(tree[STATE_FILE].bytes);
      if text.None? {
        return Err(Unreadable);
      }
      var fields := CollectFields(SplitLines(text.value));
      if fields.Err? {
        return Err(fields.error);
      }
      return Bound(fields.value, HasPayload(tree), HasAuxiliary(tree));
  }

  // ---- the hosted release ----

  datatype Asset = Asset(name: Option<string>, digest: Option<string>) | NotAnObject

  // assets is None where the inventory is no list.
  datatype Release = Release(target: string, assets: Option<seq<Asset>>)

  predicate Named(a: Asset, name: string) { a.Asset? && a.name == Some(name) }

  predicate Hosts(r: Release, name: string) { r.assets.Some? && exists a :: a in r.assets.value && Named(a, name) }

  const DIGEST_PREFIX := "sha256:"

  // `_hosted_zip_sha256`.
  function HostedZip(r: Release, version: string): Result<string, ReconcileError> {
    if r.assets.None? then Err(AssetsMalformed) else
    var zips := Filter(r.assets.value, (a: Asset) => Named(a, Version.ZipName(version)));
    if |zips| != 1 then Err(ZipAssetCount)
    else if !zips[0].Asset? || zips[0].digest.None? || !(DIGEST_PREFIX <= zips[0].digest.value)
      then Err(ZipDigestMissing)
    else
      var value := zips[0].digest.value[|DIGEST_PREFIX|..];
      if IsHexText(value, 64) then Ok(value) else Err(ZipDigestMalformed)
  }

  // Asset i bears this name, and no other one does.
  ghost predicate OnlyNamed(assets: seq<Asset>, name: string, i: nat) {
    && i < |assets| && assets[i].Asset? && assets[i].name == Some(name)
    && forall j :: 0 <= j < |assets| && j != i ==> !(assets[j].Asset? && assets[j].name == Some(name))
  }

  // The hosted hash is h exactly when one asset alone bears the name of the module ZIP, and its
  // digest is "sha256:" followed by h, a hash of 64 digits. In all other cases there is none.
  lemma HostedZipExact(r: Release, version: string, h: string)
    ensures HostedZip(r, version) == Ok(h) <==>
      && r.assets.Some? && IsHexText(h, 64)
      && exists i: nat :: OnlyNamed(r.assets.value, "otast-" + version + ".zip", i)
           && r.assets.value[i].digest == Some("sha256:" + h)
  {
    hide IsHexText, Filter;
    if r.assets.Some? {
      var assets, name := r.assets.value, "otast-" + version + ".zip";
      var named := (a: Asset) => Named(a, Version.ZipName(version));
      FilterOne(assets, named);
      forall i: nat ensures OnlyAt(assets, named, i) <==> OnlyNamed(assets, name, i) {}
      forall i: nat | OnlyAt(assets, named, i) ensures Filter(assets, named) == [assets[i]] {
        FilterOneAt(assets, named, i);
      }
      forall d: string ensures "sha256:" <= d ==> d == "sha256:" + d[7..] {}
      assert ("sha256:" + h)[7..] == h;
    }
  }

  // ---- the decision ----

  datatype Reason = Orphaned | SourceDiffers | ZipDiffers | StartLocked | NoZipBinding | NoSourceBinding

  function Decide(local: LocalState, release: Option<Release>, proof: string,
                  version: string): Result<Option<Reason>, ReconcileError> {
    if !local.exists_ || !local.hasPayload then Ok(None)
    else if release.None? then
      if local.phase != "START" || local.sourceSha != "" || local.moduleSha != "" || local.runtimeDigest != ""
        || local.hasAuxiliary
      then Ok(Some(Orphaned)) else Ok(None)
    else if release.value.assets.None? then Err(AssetsMalformed)
    else if Hosts(release.value, proof) then Ok(None)
    else if local.sourceSha != "" then
      if local.sourceSha != release.value.target then Ok(Some(SourceDiffers))
      else if local.moduleSha != "" then
        var hosted := HostedZip(release.value, version);
        if hosted.Err? then Err(hosted.error)
        else if local.moduleSha != hosted.value then Ok(Some(ZipDiffers))
        else if local.phase == "START" then Ok(Some(StartLocked))
        else Ok(None)
      else if local.phase != "START" || local.runtimeDigest != "" || local.hasAuxiliary then Ok(Some(NoZipBinding))
      else Ok(None)
    else if local.phase != "START" || local.moduleSha != "" || local.runtimeDigest != "" || local.hasAuxiliary
      then Ok(Some(NoSourceBinding))
    else Ok(None)
  }

  // Why a state is archived, reason by reason; the first four fields of a start are its phase and
  // its three bindings, and auxiliary files are those beside state.env.
  ghost predicate Because(l: LocalState, release: Option<Release>, version: string, why: Reason) {
    var bare := l.phase == "START" && l.runtimeDigest == "" && !l.hasAuxiliary;
    match why
    case Orphaned => release.None? && !(bare && l.sourceSha == "" && l.moduleSha == "")
    case NoSourceBinding => release.Some? && l.sourceSha == "" && !(bare && l.moduleSha == "")
    case SourceDiffers => release.Some? && l.sourceSha != "" && l.sourceSha != release.value.target
    case NoZipBinding =>
      release.Some? && l.sourceSha != "" && l.sourceSha == release.value.target && l.moduleSha == "" && !bare
    case ZipDiffers =>
      && release.Some? && l.sourceSha != "" && l.sourceSha == release.value.target && l.moduleSha != ""
      && HostedZip(release.value, version).Ok? && HostedZip(release.value, version) != Ok(l.moduleSha)
    case StartLocked =>
      && release.Some? && l.sourceSha != "" && l.sourceSha == release.value.target && l.moduleSha != ""
      && HostedZip(release.value, version) == Ok(l.moduleSha) && l.phase == "START"
  }

  // The proof is hosted.
  ghost predicate ProofHosted(release: Option<Release>, proof: string) {
    release.Some? && release.value.assets.Some?
    && exists a :: a in release.value.assets.value && a.Asset? && a.name == Some(proof)
  }

  // A reason is given exactly where there is payload, no proof is hosted and the reason holds. The
  // decision fails only where the inventory is no list, or has to name the ZIP and does not.
  lemma DecideExact(l: LocalState, release: Option<Release>, proof: string, version: string, why: Reason)
    ensures Decide(l, release, proof, version) == Ok(Some(why)) <==>
      && l.exists_ && l.hasPayload && !ProofHosted(release, proof)
      && (release.Some? ==> release.value.assets.Some?) && Because(l, release, version, why)
    ensures Decide(l, release, proof, version).Err? <==>
      && l.exists_ && l.hasPayload && release.Some? && !ProofHosted(release, proof)
      && (release.value.assets.None?
          || (l.sourceSha != "" && l.sourceSha == release.value.target && l.moduleSha != ""
              && HostedZip(release.value, version).Err?))
  {
    hide HostedZip;
  }

  // ---- archiving ----

  function Token(local: LocalState): string {
    if local.sourceSha != "" then local.sourceSha[..if |local.sourceSha| < 12 then |local.sourceSha| else 12]
    else if local.moduleSha != "" then local.moduleSha[..if |local.moduleSha| < 12 then |local.moduleSha| else 12]
    else if local.runtimeDigest != ""
      then local.runtimeDigest[..if |local.runtimeDigest| < 12 then |local.runtimeDigest| else 12]
    else "orphan"
  }

  // The first binding that is not empty names the archive, by its first twelve characters.
  lemma TokenExact(l: LocalState)
    ensures l.sourceSha != "" ==> Token(l) == FirstTwelve(l.sourceSha)
    ensures l.sourceSha == "" && l.moduleSha != "" ==> Token(l) == FirstTwelve(l.moduleSha)
    ensures l.sourceSha == l.moduleSha == "" && l.runtimeDigest != "" ==> Token(l) == FirstTwelve(l.runtimeDigest)
    ensures l.sourceSha == l.moduleSha == l.runtimeDigest == "" ==> Token(l) == "orphan"
  {}

  function FirstTwelve(s: string): (r: string)
    ensures r <= s && |r| <= 12 && (r == s || |r| == 12)
  {
    if |s| <= 12 then s else s[..12]
  }

  function Candidate(stem: string, k: nat): string { if k == 0 then stem else stem + "-" + ToDecimal(k) }

  // `^v?[0-9]+\.[0-9]+\.[0-9]+(?:[-+][A-Za-z0-9._-]+)?$`
  predicate SafeVersion(v: string) {
    var body := if v != "" && v[0] == 'v' then v[1..] else v;
    var a := Version.TakeNumber(body);
    a.Some? && a.value.1 != "" && a.value.1[0] == '.' &&
    var b := Version.TakeNumber(a.value.1[1..]);
    b.Some? && b.value.1 != "" && b.value.1[0] == '.' &&
    var c := Version.TakeNumber(b.value.1[1..]);
    c.Some? &&
    var tail := c.value.1;
    tail == "" || ((tail[0] == '-' || tail[0] == '+') && |tail| > 1
                   && forall x :: x in tail[1..] ==> Version.Alphanumeric(x) || x == '.' || x == '_' || x == '-')
  }

  // Three groups of digits behind an optional "v", and an optional suffix behind "-" or "+".
  ghost predicate SafelySpelled(v: string, lead: string, a: string, b: string, c: string, tail: string) {
    && v == lead + a + "." + b + "." + c + tail && (lead == "" || lead == "v")
    && IsDigits(a) && IsDigits(b) && IsDigits(c) && SafeTail(tail)
  }

  predicate SafeTail(tail: string) {
    tail == "" || (|tail| > 1 && tail[0] in {'-', '+'}
                   && forall x :: x in tail[1..] ==>
                        '0' <= x <= '9' || 'a' <= x <= 'z' || 'A' <= x <= 'Z' || x in {'.', '_', '-'})
  }

  // The version names an archive, so it has to be spelled like this, and is then accepted.
  lemma SafeVersionExact(v: string)
    ensures SafeVersion(v) <==> exists lead, a, b, c, tail :: SafelySpelled(v, lead, a, b, c, tail)
  {
    hide SafeVersion, SafelySpelled;
    if SafeVersion(v) { SafeIsSpelled(v); }
    forall lead, a, b, c, tail | SafelySpelled(v, lead, a, b, c, tail) ensures SafeVersion(v) {
      SpelledIsSafe(v, lead, a, b, c, tail);
    }
  }

  lemma SafeIsSpelled(v: string)
    requires SafeVersion(v)
    ensures exists lead, a, b, c, tail :: SafelySpelled(v, lead, a, b, c, tail)
  {
    hide Version.TakeNumber, IsDigits, SafeTail, SafeVersion;
    var lead := if v != "" && v[0] == 'v' then "v" else "";
    var x := v[|lead|..];
    SafeShape(v, lead, x);
    var a := Version.DottedGroup(x);
    var y := Version.TakeNumber(x).value.1[1..];
    var b := Version.DottedGroup(y);
    var z := Version.TakeNumber(y).value.1[1..];
    var c := Version.LastGroup(z);
    var tail := Version.TakeNumber(z).value.1;
    assert v == lead + x;
    assert lead + x == lead + a + "." + b + "." + c + tail;
    assert SafelySpelled(v, lead, a, b, c, tail);
  }

  predicate Dotted(s: string) {
    Version.TakeNumber(s).Some? && Version.TakeNumber(s).value.1 != "" && Version.TakeNumber(s).value.1[0] == '.'
  }

  lemma SafeShape(v: string, lead: string, x: string)
    requires SafeVersion(v) && lead == (if v != "" && v[0] == 'v' then "v" else "") && x == v[|lead|..]
    ensures Dotted(x)
    ensures var y := Version.TakeNumber(x).value.1[1..];
      && Dotted(y)
      && var z := Version.TakeNumber(y).value.1[1..];
         Version.TakeNumber(z).Some? && SafeTail(Version.TakeNumber(z).value.1)
  {
    hide Version.TakeNumber, FromDecimal;
    assert x == if v != "" && v[0] == 'v' then v[1..] else v;
    var y := Version.TakeNumber(x).value.1[1..];
    var tail := Version.TakeNumber(Version.TakeNumber(y).value.1[1..]).value.1;
    assert tail != "" ==> forall x :: x in tail[1..] ==> Version.Alphanumeric(x) || x == '.' || x == '_' || x == '-';
  }

  lemma SpelledIsSafe(v: string, lead: string, a: string, b: string, c: string, tail: string)
    requires SafelySpelled(v, lead, a, b, c, tail)
    ensures SafeVersion(v)
  {
    hide Version.TakeNumber, FromDecimal, SafeTail, SafeVersion;
    var z := c + tail;
    var y := b + ("." + z);
    var x := a + ("." + y);
    assert v == lead + x;
    assert tail == "" || !IsDigit(tail[0]) by { NoDigitInTail(tail); }
    assert !IsDigit(("." + y)[0]) && !IsDigit(("." + z)[0]);
    assert IsDigit(x[0]) by { assert x[0] == a[0] && a[0] in a; }
    Version.GroupExact(a, "." + y);
    Version.GroupExact(b, "." + z);
    Version.GroupExact(c, tail);
    SafeByParts(v, lead, x, y, z, tail, FromDecimal(a), FromDecimal(b), FromDecimal(c));
  }

  lemma NoDigitInTail(tail: string)
    requires SafeTail(tail)
    ensures tail == "" || !IsDigit(tail[0])
  {}

  lemma SafeByParts(v: string, lead: string, x: string, y: string, z: string, tail: string, i: nat, j: nat, k: nat)
    requires v == lead + x && (lead == "" || lead == "v") && x != "" && IsDigit(x[0]) && SafeTail(tail)
    requires Version.TakeNumber(x) == Some((i, "." + y)) && Version.TakeNumber(y) == Some((j, "." + z))
    requires Version.TakeNumber(z) == Some((k, tail))
    ensures SafeVersion(v)
  {
    hide Version.TakeNumber;
    assert ("." + y)[1..] == y && ("." + z)[1..] == z;
    assert (if v != "" && v[0] == 'v' then v[1..] else v) == x;
  }

  function Entries(h: History): map<string, DirTree> { if h.Archives? then h.entries else map[] }

  // The only two things a call can do to the store: nothing, or move the whole state under a
  // name no archive has; the state directory is then empty, or missing if it could not be
  // created again.
  predicate Unmoved(before: Store, after: Store) {
    after.state == before.state && Entries(after.history) == Entries(before.history)
      && after.baseSafe == before.baseSafe
  }

  predicate MovedTo(before: Store, after: Store, path: string) {
    && before.state.Dir? && after.baseSafe == before.baseSafe
    && path !in Entries(before.history)
    && Entries(after.history) == Entries(before.history)[path := before.state.tree]
    && (after.state == NoState || after.state == Dir(map[]))
  }

  ghost predicate Moved(before: Store, after: Store) { exists path :: MovedTo(before, after, path) }

  datatype Report = Nothing | Preserved | Archived(path: string, reason: Reason)

  // What one `reconcile` call may do, whatever fails in it.
  ghost predicate CallOutcome(before: Store, after: Store, version: string, release: Option<Release>, proof: string,
                              r: Result<Report, ReconcileError>) {
    var local := Load(before.state);
    if !SafeVersion(version) || !before.baseSafe || local.Err? then r.Err? && after == before
    else
      var reason := Decide(local.value, release, proof, version);
      if reason.Err? then r == Err(reason.error) && after == before
      else if reason.value.None? then r == Ok(if local.value.exists_ then Preserved else Nothing) && after == before
      else if r.Ok? then
        r.value.Archived? && r.value.reason == reason.value.value && MovedTo(before, after, r.value.path)
          && after.state == Dir(map[])
      else Unmoved(before, after) || Moved(before, after)
  }

  // The first name free among stem, stem-1 and so on up to stem-99.
  ghost predicate FirstFree(taken: map<string, DirTree>, stem: string, path: string) {
    exists k: nat :: FreeAt(taken, stem, path, k)
  }

  ghost predicate FreeAt(taken: map<string, DirTree>, stem: string, path: string, k: nat) {
    && k <= 99 && path == (if k == 0 then stem else stem + "-" + ToDecimal(k)) && path !in taken
    && forall j: nat :: j < k ==> Candidate(stem, j) in taken
  }

  class PrivateStore {
    const baseSafe: bool
    var state: StateDir
    var history: History

    function Now(): Store
      reads this
    {
      Store(baseSafe, state, history)
    }

    constructor (s: Store)
      ensures Now() == s
    {
      baseSafe, state, history := s.baseSafe, s.state, s.history;
    }

    // The suffix loop: stem, then stem-1 to stem-99.
    method FreeName(stem: string) returns (r: Option<string>)
      ensures r.Some? ==> FirstFree(Entries(history), stem, r.value)
      ensures r.None? ==> forall k :: 0 <= k <= 99 ==> Candidate(stem, k) in Entries(history)
    {
      hide ToDecimal;
      var destination := stem;
      var suffix := 0;
      while destination in Entries(history)
        invariant 0 <= suffix <= 99 && destination == Candidate(stem, suffix)
        invariant forall k :: 0 <= k < suffix ==> Candidate(stem, k) in Entries(history)
        decreases 99 - suffix
      {
        suffix := suffix + 1;
        if suffix > 99 {
          return None;
        }
        destination := Candidate(stem, suffix);
      }
      assert FreeAt(Entries(history), stem, destination, suffix);
      return Some(destination);
    }

    method ArchiveState(version: string, stamp: string, local: LocalState) returns (r: Result<string, ReconcileError>)
      modifies this
      ensures r.Ok? ==> MovedTo(old(Now()), Now(), r.value) && state == Dir(map[])
      ensures r.Ok? ==> FirstFree(Entries(old(history)), version + "-" + stamp + "-" + Token(local), r.value)
      ensures r.Err? ==> Unmoved(old(Now()), Now()) || Moved(old(Now()), Now())
    {
      hide Token, ToDecimal;
      if !baseSafe || !state.Dir? {
        return Err(UnsafePath);
      }
      if history.UnsafeHistory? {
        return Err(UnsafePath);
      }
      var created, secured := *, *;
      if history.NoHistory? {
        if !created {
          return Err(HistoryNotSecured);
        }
        history := Archives(map[]);
      }
      if !secured {
        return Err(HistoryNotSecured);
      }
      var free := FreeName(version + "-" + stamp + "-" + Token(local));
      if free.None? {
        return Err(NoUniquePath);
      }
      var renamed, recreated, restricted := *, *, *;
      if !renamed {
        return Err(ArchiveFailed);
      }
      history := Archives(history.entries[free.value := state.tree]);
      state := NoState;
      assert MovedTo(old(Now()), Now(), free.value);
      if !recreated {
        return Err(ArchiveFailed);
      }
      state := Dir(map[]);
      assert MovedTo(old(Now()), Now(), free.value);
      if !restricted {
        return Err(ArchiveFailed);
      }
      return Ok(free.value);
    }

    method Reconcile(version: string, release: Option<Release>, proof: string,
                     stamp: string) returns (r: Result<Report, ReconcileError>)
      modifies this
      ensures CallOutcome(old(Now()), Now(), version, release, proof, r)
      ensures r.Ok? && r.value.Archived? ==>
        var stem := version + "-" + stamp + "-" + Token(Load(old(state)).value);
        FirstFree(Entries(old(history)), stem, r.value.path)
    {
      hide SafeVersion, Load, Decide, Moved, MovedTo, Unmoved, Token, FirstFree;
      if !SafeVersion(version) {
        return Err(UnsafeVersion);
      }
      if !baseSafe {
        return Err(UnsafePath);
      }
      var local := LoadLocalState(state);
      if local.Err? {
        return Err(local.error);
      }
      var reason := Decide(local.value, release, proof, version);
      if reason.Err? {
        return Err(reason.error);
      }
      if reason.value.None? {
        return Ok(if local.value.exists_ then Preserved else Nothing);
      }
      var archive := ArchiveState(version, stamp, local.value);
      if archive.Err? {
        return Err(archive.error);
      }
      return Ok(Archived(archive.value, reason.value.value));
    }
  }
}
