// What tools/otastctl/build.py accepts: the checks of a module ZIP, and what a tree needs to
// pack, with every name, number and mode written out.
module BuildChecks {
  import opened Results
  import opened Ordering
  import opened Bytes
  import opened Utf8
  import opened Decimal
  import opened Properties
  import opened RuntimeDigest
  import opened ModuleBuild
  import opened Strings
  import BuildAgreement
  import PosixPath
  import Version

  // ---- members ----

  predicate Executable(name: string) {
    name in {"action.sh", "customize.sh", "post-fs-data.sh", "service.sh", "uninstall.sh", "runtime/entry.sh"}
  }

  predicate Needed(name: string) {
    || Executable(name) || name == "runtime/common.sh" || name == "runtime/authority.sh"
    || name == "runtime/transaction.sh" || name == "runtime/profiles.sh" || name == "runtime/report.sh"
    || name == "module.prop" || name == "skip_mount" || name == "otast.conf"
  }

  lemma NeededExact(name: string)
    ensures Needed(name) <==> name in Required()
  {}

  // A plain relative name of its own spelling, the permissions of its name, at most 8 MiB.
  predicate MemberSound(m: Member) {
    && '\\' !in m.filename && (m.filename == "." || PosixPath.PlainComponents(m.filename))
    && m.externalAttr / 65536 % 512 == (if Executable(m.filename) then 493 else 420)
    && |m.data| <= 8388608
  }

  lemma MemberExact(m: Member)
    ensures MemberSound(m) <==> MemberError(m).None?
  {
    hide PosixPath.PlainComponents, SafeName;
    SafeNameExact(m.filename);
    UnsafeExact(m.filename);
    BuildAgreement.ModesSpelled(m.filename);
    hide UnsafeMember, ModeFor;
  }

  lemma UnsafeExact(name: string)
    ensures UnsafeMember(name) <==> !SafeName(name)
  {
    if name == "" {
      assert PosixPath.AsPosix("") == "." by { assert PosixPath.Split("") == [""]; }
    }
  }

  // ---- release.properties ----

  predicate CommitSound(s: string) {
    s == "unknown" || ((|s| == 40 || |s| == 64) && forall c :: c in s ==> '0' <= c <= '9' || 'a' <= c <= 'f')
  }

  predicate Hash(s: string) { |s| == 64 && forall c :: c in s ==> '0' <= c <= '9' || 'a' <= c <= 'f' }

  // Each field against its own rule; version and code against module.prop.
  predicate ReleaseSound(r: Fields, metadata: Fields) {
    && r.Keys == {"schema_version", "version", "version_code", "commit_sha", "runtime_digest_algorithm",
                  "runtime_digest", "compatibility_registry_schema", "compatibility_registry_sha256",
                  "qualification_registry_schema", "qualification_registry_sha256"}
    && r["schema_version"] == "2" && r["runtime_digest_algorithm"] == "otast-runtime-v1"
    && "version" in metadata && r["version"] == metadata["version"] && Version.Valid(r["version"])
    && "versionCode" in metadata && r["version_code"] == metadata["versionCode"] && Positive(r["version_code"])
    && CommitSound(r["commit_sha"]) && Hash(r["runtime_digest"])
    && Positive(r["compatibility_registry_schema"]) && Hash(r["compatibility_registry_sha256"])
    && Positive(r["qualification_registry_schema"]) && Hash(r["qualification_registry_sha256"])
  }

  predicate Positive(s: string) { (forall c :: c in s ==> '0' <= c <= '9') && exists c :: c in s && c != '0' }

  lemma {:induction false} ValueExact(s: string)
    requires forall c :: c in s ==> IsDigit(c)
    ensures FromDecimal(s) > 0 <==> exists c :: c in s && c != '0'
  {
    if s != "" {
      var init, last := s[..|s| - 1], s[|s| - 1];
      assert s == init + [last] && last in s;
      ValueExact(init);
      assert FromDecimal(s) == 10 * FromDecimal(init) + Decimal.DigitValue(last);
      assert Decimal.DigitValue(last) > 0 <==> last != '0';
      if c :| c in s && c != '0' {
        assert c in init || c == last;
      }
      if c :| c in init && c != '0' {
        assert c in s;
      }
    }
  }

  lemma PositiveExact(s: string)
    ensures Positive(s) <==> PositiveDigits(s)
  {
    hide FromDecimal;
    if IsDigits(s) || Positive(s) { ValueExact(s); }
  }

  lemma HexTextsExact(s: string)
    ensures Hash(s) <==> IsHexText(s, 64)
    ensures CommitSound(s) <==> CommitOk(s)
  {}

  lemma KeysExact(r: Fields)
    ensures (r.Keys == set k | k in ReleaseKeys()) <==>
      r.Keys == {"schema_version", "version", "version_code", "commit_sha", "runtime_digest_algorithm",
                 "runtime_digest", "compatibility_registry_schema", "compatibility_registry_sha256",
                 "qualification_registry_schema", "qualification_registry_sha256"}
  {
    assert (set k | k in ReleaseKeys())
        == {"schema_version", "version", "version_code", "commit_sha", "runtime_digest_algorithm",
            "runtime_digest", "compatibility_registry_schema", "compatibility_registry_sha256",
            "qualification_registry_schema", "qualification_registry_sha256"};
  }

  lemma ReleaseExact(r: Fields, metadata: Fields)
    ensures ReleaseSound(r, metadata) <==> (r.Keys == set k | k in ReleaseKeys()) && ReleaseOk(r, metadata)
  {
    hide Hash, CommitSound, CommitOk, IsHexText, Positive, PositiveDigits, Version.Valid, ReleaseKeys;
    KeysExact(r);
    forall s: string ensures Hash(s) <==> IsHexText(s, 64) { HexTextsExact(s); }
    forall s: string ensures CommitSound(s) <==> CommitOk(s) { HexTextsExact(s); }
    forall s: string ensures Positive(s) <==> PositiveDigits(s) { PositiveExact(s); }
    EmptyIsNoVersion();
    NothingIsNoNumber();
  }

  lemma EmptyIsNoVersion()
    ensures !Version.Valid("")
  {}

  lemma NothingIsNoNumber()
    ensures !PositiveDigits("")
  {}

  // ---- the whole ZIP ----

  ghost predicate Present(z: Zip, name: string) { exists m :: m in z && m.filename == name }

  ghost predicate IdentitySound(z: Zip, hex: seq<Byte> -> string, metadata: Fields, release: Fields) {
    && MetadataOf(Content(z, "module.prop")) == Ok(metadata)
    && Content(z, "release.properties").Some? && Decode(Content(z, "release.properties").value).Some?
    && ParsedFields(Decode(Content(z, "release.properties").value).value) == Ok(release)
    && ReleaseSound(release, metadata)
    && ZipDigest(z).Ok? && hex(ZipDigest(z).value) == release["runtime_digest"]
  }

  // A ZIP passes exactly if no name stands twice, nothing is missing, every member is sound, and
  // its release.properties is sound, fits its module.prop and names the digest of its payload.
  lemma ValidateExact(z: Zip, hex: seq<Byte> -> string)
    ensures Validate(z, hex).None? <==>
      && (forall i, j :: 0 <= i < j < |z| ==> z[i].filename != z[j].filename)
      && (forall name :: Needed(name) ==> Present(z, name)) && Present(z, "release.properties")
      && (forall m :: m in z ==> MemberSound(m))
      && exists metadata, release :: IdentitySound(z, hex, metadata, release)
  {
    hide Required, Needed, MemberSound, MemberError, IdentitySound, Identity, FirstMemberError, Names;
    NamesExact(z);
    forall name: string ensures Needed(name) <==> name in Required() { NeededExact(name); }
    forall m: Member ensures MemberSound(m) <==> MemberError(m).None? { MemberExact(m); }
    BuildAgreement.FirstErrorExact(z);
    IdentityIsSound(z, hex);
  }

  lemma NamesExact(z: Zip)
    ensures Distinct(Names(z)) <==> forall i, j :: 0 <= i < j < |z| ==> z[i].filename != z[j].filename
    ensures forall name :: name in Names(z) <==> Present(z, name)
  {
    forall name: string ensures name in Names(z) <==> Present(z, name) {
      if name in Names(z) {
        var i :| 0 <= i < |z| && Names(z)[i] == name;
        assert z[i] in z;
      }
      if m :| m in z && m.filename == name {
        var i :| 0 <= i < |z| && z[i] == m;
        assert Names(z)[i] == name;
      }
    }
    assert forall i :: 0 <= i < |z| ==> Names(z)[i] == z[i].filename;
  }

  lemma IdentityIsSound(z: Zip, hex: seq<Byte> -> string)
    ensures Identity(z, hex).None? <==> exists metadata, release :: IdentitySound(z, hex, metadata, release)
  {
    hide MetadataOf, Decode, ParsedFields, ReleaseSound, ReleaseOk, ZipDigest, ReleaseKeys, Content;
    forall r: Fields, m: Fields
      ensures ReleaseSound(r, m) <==> (r.Keys == set k | k in ReleaseKeys()) && ReleaseOk(r, m) {
      ReleaseExact(r, m);
    }
    forall r: Fields, m: Fields | ReleaseSound(r, m) ensures "runtime_digest" in r { SoundHasDigest(r, m); }
    var release := ReleaseOf(Content(z, "release.properties"));
    if Identity(z, hex).None? {
      assert IdentitySound(z, hex, MetadataOf(Content(z, "module.prop")).value, release.value);
    }
  }

  lemma SoundHasDigest(r: Fields, metadata: Fields)
    requires ReleaseSound(r, metadata)
    ensures "runtime_digest" in r
  {}

  // ---- what a tree needs to pack ----

  predicate Leaves(rel: string) { rel == "AGENTS.md" || (|rel| >= 4 && rel[..4] == ['v', 'a', 'r', '/']) }

  // AGENTS.md and what lies below var/ stay out. Of the rest, all the needed files have to be
  // there, none may be called release.properties, and none may exceed 8 MiB, nor may the written
  // release.properties; and both registry schemas have to be positive.
  lemma PackableExact(files: seq<File>, text: string, p: Provenance)
    ensures BuildAgreement.Packable(files, text, p) <==>
      && (forall name :: Needed(name) ==> exists f :: f in files && f.rel == name)
      && (forall f :: f in files && !Leaves(f.rel) ==> f.rel != "release.properties" && |f.data| <= 8388608)
      && |Encode(text)| <= 8388608 && p.compatibilitySchema > 0 && p.qualificationSchema > 0
  {
    hide Encode, Needed, Required, Shipped, ModeFor, SortBy, Selected;
    var entries := PayloadEntries(files);
    SameMembers(entries, Selected(files));
    forall e: Entry ensures e in entries <==>
      exists f :: f in files && Shipped(f.rel) && e == Entry(f.rel, f.data, ModeFor(f.rel)) {
      BuildAgreement.SelectedExact(files, e);
    }
    forall rel: string ensures Shipped(rel) <==> !Leaves(rel) { ShippedExact(rel); }
    forall name | Needed(name) ensures Shipped(name) { NeededIsShipped(name); }
    forall name: string ensures Needed(name) <==> name in Required() { NeededExact(name); }
    forall f | f in files && Shipped(f.rel) ensures Entry(f.rel, f.data, ModeFor(f.rel)) in entries {}
  }

  lemma ShippedExact(rel: string)
    ensures Shipped(rel) <==> !Leaves(rel)
  {
    assert "var/" <= rel <==> |rel| >= 4 && rel[..4] == "var/";
  }

  lemma NeededIsShipped(name: string)
    requires Needed(name)
    ensures Shipped(name)
  {
    assert name[0] != 'v' && name[0] != 'A' && "var/"[0] == 'v' && "AGENTS.md"[0] == 'A';
  }
}
