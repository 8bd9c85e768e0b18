// The deterministic module ZIP of tools/otastctl/build.py and the digest read back from it.
module ModuleBuild {
  import opened Results
  import opened Ordering
  import opened Bytes
  import opened Utf8
  import opened Decimal
  import opened Properties
  import opened RuntimeDigest
  import opened Strings
  import ModuleMetadata
  import PosixPath
  import TextLines
  import Version

  // A regular file below module/, by its relative path.
  datatype File = File(rel: string, data: seq<Byte>)

  datatype Member = Member(filename: string, externalAttr: nat, data: seq<Byte>)

  type Zip = seq<Member>

  datatype Provenance = Provenance(compatibilitySchema: int, compatibilitySha: string,
                                   qualificationSchema: int, qualificationSha: string)

  datatype ZipError = DuplicateZipPath | NotDigestible(error: DigestError)

  datatype BuildError =
    | NoMetadata
    | BadMetadata(metadata: ModuleMetadata.MetadataError)
    | BadCommit
    | BadPayload(payload: DigestError)
    | DuplicatePaths
    | MissingRequired
    | UnsafeZipPath(path: string)
    | WrongMode(path: string)
    | Oversized(path: string)
    | BadReleaseProperties
    | ReleaseDigestMismatch
    | UnreadableZip(zip: ZipError)
    | BuiltDigestDiffers

  const EXECUTABLE := 0x1ED  // 0o755
  const PLAIN := 0x1A4  // 0o644
  const REGULAR := 0x8000  // stat.S_IFREG
  const MAX_MEMBER := 8 * 1024 * 1024

  function Entrypoints(): set<string> {
    {"action.sh", "customize.sh", "post-fs-data.sh", "service.sh", "uninstall.sh", "runtime/entry.sh"}
  }

  function Required(): set<string> {
    Entrypoints() + {"runtime/common.sh", "runtime/authority.sh", "runtime/transaction.sh", "runtime/profiles.sh",
                     "runtime/report.sh"} + {"module.prop", "skip_mount", "otast.conf"}
  }

  // ---- payload selection ----

  predicate Shipped(rel: string) { rel != "AGENTS.md" && !("var/" <= rel) }

  function ModeFor(rel: string): int { if rel in Entrypoints() then EXECUTABLE else PLAIN }

  function Selected(files: seq<File>): seq<Entry> {
    if files == [] then [] else
    var f := files[0];
    (if Shipped(f.rel) then [Entry(f.rel, f.data, ModeFor(f.rel))] else []) + Selected(files[1..])
  }

  function PayloadEntries(files: seq<File>): seq<Entry> { SortBy(Selected(files), ByName) }

  lemma {:induction false} SelectedAppend(files: seq<File>, f: File)
    ensures Selected(files + [f]) == Selected(files) + Selected([f])
  {
    if files == [] {
      assert files + [f] == [f];
    } else {
      assert (files + [f])[1..] == files[1..] + [f];
      SelectedAppend(files[1..], f);
    }
  }

  method RuntimePayloadEntries(files: seq<File>) returns (r: seq<Entry>)
    ensures r == PayloadEntries(files)
  {
    var entries: seq<Entry> := [];
    for i := 0 to |files|
      invariant entries == Selected(files[..i])
    {
      SelectedAppend(files[..i], files[i]);
      assert files[..i + 1] == files[..i] + [files[i]];
      assert [files[i]][1..] == [];
      if !Shipped(files[i].rel) {
        continue;
      }
      entries := entries + [Entry(files[i].rel, files[i].data, ModeFor(files[i].rel))];
    }
    assert files[..|files|] == files;
    return SortBy(entries, ByName);
  }

  // ---- packing and unpacking ----

  // (S_IFREG | mode) << 16; the mode bits lie below the file-type bit.
  function ExternalAttr(mode: int): (attr: nat)
    requires 0 <= mode < MODE_MASK
  {
    (REGULAR + mode) * 0x10000
  }

  function UnpackedMode(attr: nat): int { attr / 0x10000 % MODE_MASK }

  function PermissionBits(attr: nat): int { attr / 0x10000 % 0x200 }

  lemma ModeSurvivesPacking(mode: int)
    requires 0 <= mode < MODE_MASK
    ensures UnpackedMode(ExternalAttr(mode)) == mode
    ensures PermissionBits(ExternalAttr(mode)) == mode % 0x200
  {}

  predicate IsDirectory(filename: string) { filename != "" && filename[|filename| - 1] == '/' }

  predicate ModesFit(entries: seq<Entry>) { forall e :: e in entries ==> 0 <= e.mode < MODE_MASK }

  function Pack(entries: seq<Entry>): (z: Zip)
    requires ModesFit(entries)
    ensures |z| == |entries|
    ensures forall i :: 0 <= i < |z| ==>
              z[i] == Member(entries[i].name, ExternalAttr(entries[i].mode), entries[i].data)
  {
    seq(|entries|, i requires 0 <= i < |entries| =>
      assert entries[i] in entries;
      Member(entries[i].name, ExternalAttr(entries[i].mode), entries[i].data))
  }

  // Members that tie on the name are refused as duplicates below, so sorting by name alone
  // decides as sorting whole tuples does.
  method WriteZip(entries: seq<Entry>) returns (z: Zip)
    requires ModesFit(entries)
    ensures ModesFit(SortBy(entries, ByName))
    ensures z == Pack(SortBy(entries, ByName))
  {
    var ordered := SortBy(entries, ByName);
    SameMembers(ordered, entries);
    z := [];
    for i := 0 to |ordered|
      invariant |z| == i
      invariant forall k :: 0 <= k < i ==> 0 <= ordered[k].mode < MODE_MASK
      invariant forall k :: 0 <= k < i ==>
        z[k] == Member(ordered[k].name, ExternalAttr(ordered[k].mode), ordered[k].data)
    {
      assert ordered[i] in entries;
      z := z + [Member(ordered[i].name, ExternalAttr(ordered[i].mode), ordered[i].data)];
    }
  }

  function ReadMembers(z: Zip, seen: set<string>): Result<seq<Entry>, ZipError> {
    if z == [] then Ok([])
    else if IsDirectory(z[0].filename) then ReadMembers(z[1..], seen)
    else if z[0].filename in seen then Err(DuplicateZipPath)
    else
      var rest := ReadMembers(z[1..], seen + {z[0].filename});
      if rest.Err? then rest
      else Ok([Entry(z[0].filename, z[0].data, UnpackedMode(z[0].externalAttr))] + rest.value)
  }

  function ZipDigest(z: Zip): Result<seq<Byte>, ZipError> {
    var entries := ReadMembers(z, {});
    if entries.Err? then Err(entries.error)
    else
      var d := Digest(entries.value);
      if d.Err? then Err(NotDigestible(d.error)) else Ok(d.value)
  }

  function Joined(done: seq<Entry>, rest: Result<seq<Entry>, ZipError>): Result<seq<Entry>, ZipError> {
    if rest.Err? then rest else Ok(done + rest.value)
  }

  lemma JoinedStep(done: seq<Entry>, e: Entry, rest: Result<seq<Entry>, ZipError>)
    ensures Joined(done, Joined([e], rest)) == Joined(done + [e], rest)
  {
    if rest.Ok? {
      assert done + ([e] + rest.value) == done + [e] + rest.value;
    }
  }

  method RuntimeDigestFromZip(z: Zip) returns (r: Result<seq<Byte>, ZipError>)
    ensures r == ZipDigest(z)
  {
    hide Digest, IsDirectory;
    var entries: seq<Entry> := [];
    var seen: set<string> := {};
    ghost var whole := ReadMembers(z, {});
    assert z[0..] == z;
    assert whole == Joined([], whole) by { if whole.Ok? { assert [] + whole.value == whole.value; } }
    for i := 0 to |z|
      invariant whole == Joined(entries, ReadMembers(z[i..], seen))
    {
      assert z[i..][1..] == z[i + 1..];
      if IsDirectory(z[i].filename) {
        continue;
      }
      if z[i].filename in seen {
        return Err(DuplicateZipPath);
      }
      var e := Entry(z[i].filename, z[i].data, UnpackedMode(z[i].externalAttr));
      JoinedStep(entries, e, ReadMembers(z[i + 1..], seen + {z[i].filename}));
      seen := seen + {z[i].filename};
      entries := entries + [e];
    }
    assert z[|z|..] == [];
    assert entries + [] == entries;
    var d := DigestEntries(entries);
    if d.Err? {
      return Err(NotDigestible(d.error));
    }
    return Ok(d.value);
  }

  // ---- release.properties ----

  function ReleaseKeys(): seq<string> {
    ["schema_version", "version", "version_code", "commit_sha", "runtime_digest_algorithm", "runtime_digest",
     "compatibility_registry_schema", "compatibility_registry_sha256",
     "qualification_registry_schema", "qualification_registry_sha256"]
  }

  predicate CommitOk(s: string) { s == "unknown" || IsHexText(s, 40) || IsHexText(s, 64) }

  function ReleasePairs(version: string, code: string, commit: string, digest: string,
                        p: Provenance): seq<(string, string)> {
    [("schema_version", "2"), ("version", version), ("version_code", code), ("commit_sha", commit),
     ("runtime_digest_algorithm", ALGORITHM), ("runtime_digest", digest),
     ("compatibility_registry_schema", IntText(p.compatibilitySchema)),
     ("compatibility_registry_sha256", p.compatibilitySha),
     ("qualification_registry_schema", IntText(p.qualificationSchema)),
     ("qualification_registry_sha256", p.qualificationSha)]
  }

  function ReleaseText(version: string, code: string, commit: string, digest: string, p: Provenance): string {
    TextLines.Terminated(Lines(ReleasePairs(version, code, commit, digest, p)))
  }

  function ParseRelease(text: string): Option<Fields> {
    var fields := ParsedFields(text);
    if fields.Err? || fields.value.Keys != (set k | k in ReleaseKeys()) then None else Some(fields.value)
  }

  // The fields are looked up only where the key check has already passed.
  function Get(fields: Fields, key: string): string { if key in fields then fields[key] else "" }

  // Every test of `_validate_release_properties`.
  predicate ReleaseOk(r: Fields, metadata: Fields) {
    && Get(r, "schema_version") == "2"
    && Get(r, "version") == Get(metadata, "version") && Version.Valid(Get(r, "version"))
    && Get(r, "version_code") == Get(metadata, "versionCode") && PositiveDigits(Get(r, "version_code"))
    && CommitOk(Get(r, "commit_sha"))
    && Get(r, "runtime_digest_algorithm") == ALGORITHM
    && IsHexText(Get(r, "runtime_digest"), 64)
    && PositiveDigits(Get(r, "compatibility_registry_schema"))
       && PositiveDigits(Get(r, "qualification_registry_schema"))
    && IsHexText(Get(r, "compatibility_registry_sha256"), 64) && IsHexText(Get(r, "qualification_registry_sha256"), 64)
  }

  // ---- validation of a finished ZIP ----

  function Names(z: Zip): seq<string> { seq(|z|, i requires 0 <= i < |z| => z[i].filename) }

  predicate UnsafeMember(name: string) {
    || PosixPath.IsAbsolute(name)
    || ".." in PosixPath.Parts(name)
    || '\\' in name
    || PosixPath.AsPosix(name) != name
  }

  function MemberError(m: Member): Option<BuildError> {
    if UnsafeMember(m.filename) then Some(UnsafeZipPath(m.filename))
    else if PermissionBits(m.externalAttr) != ModeFor(m.filename) then Some(WrongMode(m.filename))
    else if |m.data| > MAX_MEMBER then Some(Oversized(m.filename))
    else None
  }

  function FirstMemberError(z: Zip): Option<BuildError> {
    if z == [] then None
    else if MemberError(z[0]).Some? then MemberError(z[0])
    else FirstMemberError(z[1..])
  }

  function Content(z: Zip, name: string): Option<seq<Byte>> {
    if z == [] then None else if z[0].filename == name then Some(z[0].data) else Content(z[1..], name)
  }

  // `module_metadata_from_text(archive.read("module.prop").decode())`.
  function MetadataOf(data: Option<seq<Byte>>): Result<Fields, BuildError> {
    if data.None? || Decode(data.value).None? then Err(NoMetadata)
    else
      var m := ModuleMetadata.Metadata(Decode(data.value).value);
      if m.Err? then Err(BadMetadata(m.error)) else Ok(m.value)
  }

  function ReleaseOf(data: Option<seq<Byte>>): Option<Fields> {
    if data.None? || Decode(data.value).None? then None else ParseRelease(Decode(data.value).value)
  }

  function Identity(z: Zip, hex: seq<Byte> -> string): Option<BuildError> {
    var metadata := MetadataOf(Content(z, "module.prop"));
    if metadata.Err? then Some(metadata.error) else
    var release := ReleaseOf(Content(z, PROVENANCE));
    if release.None? || !ReleaseOk(release.value, metadata.value) then Some(BadReleaseProperties) else
    var d := ZipDigest(z);
    if d.Err? then Some(UnreadableZip(d.error))
    else if hex(d.value) != Get(release.value, "runtime_digest") then Some(ReleaseDigestMismatch)
    else None
  }

  function Validate(z: Zip, hex: seq<Byte> -> string): Option<BuildError> {
    if !Distinct(Names(z)) then Some(DuplicatePaths)
    else if !(Required() <= set n | n in Names(z)) || PROVENANCE !in Names(z) then Some(MissingRequired)
    else if FirstMemberError(z).Some? then FirstMemberError(z)
    else Identity(z, hex)
  }

  method CheckMembers(z: Zip) returns (r: Option<BuildError>)
    ensures r == FirstMemberError(z)
  {
    hide MemberError;
    assert z[0..] == z;
    for i := 0 to |z|
      invariant FirstMemberError(z) == FirstMemberError(z[i..])
    {
      assert z[i..][1..] == z[i + 1..];
      if MemberError(z[i]).Some? {
        return MemberError(z[i]);
      }
    }
    return None;
  }

  // ---- the build ----

  function FileContent(files: seq<File>, rel: string): Option<seq<Byte>> {
    if files == [] then None else if files[0].rel == rel then Some(files[0].data) else FileContent(files[1..], rel)
  }

  function WithRelease(entries: seq<Entry>, text: string): seq<Entry> {
    entries + [Entry(PROVENANCE, Encode(text), PLAIN)]
  }

  lemma PayloadModesFit(files: seq<File>, text: string)
    ensures ModesFit(PayloadEntries(files))
    ensures ModesFit(SortBy(WithRelease(PayloadEntries(files), text), ByName))
  {
    SelectedModes(files);
    SameMembers(PayloadEntries(files), Selected(files));
    SameMembers(SortBy(WithRelease(PayloadEntries(files), text), ByName), WithRelease(PayloadEntries(files), text));
  }

  lemma {:induction false} SelectedModes(files: seq<File>)
    ensures forall e :: e in Selected(files) ==> e.mode == ModeFor(e.name)
  {
    if files != [] {
      SelectedModes(files[1..]);
    }
  }

  // The ZIP is written, validated and digested again before the build is allowed to end.
  function Build(files: seq<File>, commit: string, p: Provenance, hex: seq<Byte> -> string): Result<Zip, BuildError> {
    var metadata := MetadataOf(FileContent(files, "module.prop"));
    if metadata.Err? then Err(metadata.error)
    else if !CommitOk(commit) then Err(BadCommit)
    else
      var entries := PayloadEntries(files);
      var digest := Digest(entries);
      if digest.Err? then Err(BadPayload(digest.error))
      else
        var text := ReleaseText(Get(metadata.value, "version"), Get(metadata.value, "versionCode"), commit,
          hex(digest.value), p);
        PayloadModesFit(files, text);
        Finish(Pack(SortBy(WithRelease(entries, text), ByName)), digest.value, hex)
  }

  function Finish(z: Zip, digest: seq<Byte>, hex: seq<Byte> -> string): Result<Zip, BuildError> {
    var check := Validate(z, hex);
    if check.Some? then Err(check.value)
    else
      var again := ZipDigest(z);
      if again.Err? then Err(UnreadableZip(again.error))
      else if hex(again.value) != hex(digest) then Err(BuiltDigestDiffers)
      else Ok(z)
  }

  method BuildModule(files: seq<File>, commit: string, p: Provenance, hex: seq<Byte> -> string)
    returns (r: Result<Zip, BuildError>)
    ensures r == Build(files, commit, p, hex)
  {
    hide Digest, MetadataOf, ReleaseText, WithRelease, ModesFit, CommitOk, Get, Pack, PayloadEntries, SortBy;
    var metadata := MetadataOf(FileContent(files, "module.prop"));
    if metadata.Err? {
      return Err(metadata.error);
    }
    if !CommitOk(commit) {
      return Err(BadCommit);
    }
    var entries := RuntimePayloadEntries(files);
    var digest := DigestEntries(entries);
    if digest.Err? {
      return Err(BadPayload(digest.error));
    }
    var text := ReleaseText(Get(metadata.value, "version"), Get(metadata.value, "versionCode"), commit,
      hex(digest.value), p);
    ReleaseModeFits(files, text);
    PayloadModesFit(files, text);
    var z := WriteZip(WithRelease(entries, text));
    r := FinishBuild(z, digest.value, hex);
  }

  lemma ReleaseModeFits(files: seq<File>, text: string)
    ensures ModesFit(WithRelease(PayloadEntries(files), text))
  {
    PayloadModesFit(files, text);
  }

  method FinishBuild(z: Zip, digest: seq<Byte>, hex: seq<Byte> -> string) returns (r: Result<Zip, BuildError>)
    ensures r == Finish(z, digest, hex)
  {
    hide ZipDigest, Identity, Required;
    if !Distinct(Names(z)) {
      return Err(DuplicatePaths);
    }
    if !(Required() <= set n | n in Names(z)) || PROVENANCE !in Names(z) {
      return Err(MissingRequired);
    }
    var bad := CheckMembers(z);
    if bad.Some? {
      return Err(bad.value);
    }
    var identity := Identity(z, hex);
    if identity.Some? {
      return Err(identity.value);
    }
    var again := RuntimeDigestFromZip(z);
    if again.Err? {
      return Err(UnreadableZip(again.error));
    }
    if hex(again.value) != hex(digest) {
      return Err(BuiltDigestDiffers);
    }
    return Ok(z);
  }
}
