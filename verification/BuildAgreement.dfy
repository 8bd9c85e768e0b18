// The build and the digest agree: what a finished ZIP reads back is what the source tree fed.
module BuildAgreement {
  import opened Results
  import opened Ordering
  import opened Bytes
  import opened Utf8
  import opened Decimal
  import opened Properties
  import opened RuntimeDigest
  import opened Strings
  import opened ModuleBuild
  import ModuleMetadata
  import PosixPath
  import TextLines
  import Version

  // ---- reading back what was packed ----

  predicate NoDirectories(entries: seq<Entry>) { forall e :: e in entries ==> !IsDirectory(e.name) }

  predicate Unseen(entries: seq<Entry>, seen: set<string>) { forall e :: e in entries ==> e.name !in seen }

  lemma TailFacts(entries: seq<Entry>, seen: set<string>)
    requires entries != [] && ModesFit(entries) && DistinctNames(entries) && NoDirectories(entries)
      && Unseen(entries, seen)
    ensures ModesFit(entries[1..]) && DistinctNames(entries[1..]) && NoDirectories(entries[1..])
    ensures Unseen(entries[1..], seen + {entries[0].name})
    ensures Pack(entries)[1..] == Pack(entries[1..])
  {
    hide IsDirectory;
    var t := entries[1..];
    forall e | e in t ensures e in entries && e.name != entries[0].name {
      var k :| 0 <= k < |t| && t[k] == e;
      assert entries[0].name != entries[k + 1].name;
    }
    forall i, j | 0 <= i < j < |t| ensures t[i].name != t[j].name {
      assert entries[i + 1].name != entries[j + 1].name;
    }
  }

  lemma {:induction false} ReadPacked(entries: seq<Entry>, seen: set<string>)
    requires ModesFit(entries) && DistinctNames(entries) && NoDirectories(entries) && Unseen(entries, seen)
    ensures ReadMembers(Pack(entries), seen) == Ok(entries)
  {
    if entries != [] {
      var e := entries[0];
      TailFacts(entries, seen);
      ReadPacked(entries[1..], seen + {e.name});
      hide Pack, IsDirectory, DistinctNames, UnpackedMode, ExternalAttr;
      assert e in entries && !IsDirectory(e.name) && e.name !in seen;
      assert entries == [e] + entries[1..];
      ModeSurvivesPacking(e.mode);
      assert Pack(entries)[0] == Member(e.name, ExternalAttr(e.mode), e.data);
    } else {
      assert Pack(entries) == [];
    }
  }

  // ---- the payload of a sorted list with its provenance ----

  lemma {:induction false} KeptInsert(x: Entry, s: seq<Entry>)
    ensures multiset(Kept(Insert(x, s, ByName))) == multiset(Kept([x] + s))
  {
    assert ([x] + s)[1..] == s;
    if s != [] && !ByName(x, s[0]) {
      var rest := Insert(x, s[1..], ByName);
      KeptInsert(x, s[1..]);
      assert ([x] + s[1..])[1..] == s[1..];
      assert Insert(x, s, ByName)[1..] == rest;
    }
  }

  lemma {:induction false} KeptSort(s: seq<Entry>)
    ensures multiset(Kept(SortBy(s, ByName))) == multiset(Kept(s))
  {
    if s != [] {
      KeptSort(s[1..]);
      KeptInsert(s[0], SortBy(s[1..], ByName));
      var sorted := SortBy(s[1..], ByName);
      assert ([s[0]] + sorted)[1..] == sorted;
    }
  }

  lemma {:induction false} KeptConcat(a: seq<Entry>, b: seq<Entry>)
    ensures Kept(a + b) == Kept(a) + Kept(b)
  {
    if a == [] {
      assert a + b == b;
    } else {
      assert (a + b)[1..] == a[1..] + b;
      KeptConcat(a[1..], b);
    }
  }

  predicate NoProvenance(entries: seq<Entry>) { forall e :: e in entries ==> e.name != PROVENANCE }

  lemma {:induction false} KeptKeepsAll(entries: seq<Entry>)
    requires NoProvenance(entries)
    ensures |Kept(entries)| == |entries|
    ensures forall i :: 0 <= i < |entries| ==> Kept(entries)[i] == Normal(entries[i])
  {
    if entries != [] {
      assert entries == [entries[0]] + entries[1..];
      KeptKeepsAll(entries[1..]);
    }
  }

  lemma KeptWithRelease(entries: seq<Entry>, text: string)
    ensures Kept(WithRelease(entries, text)) == Kept(entries)
  {
    var r := Entry(PROVENANCE, Encode(text), PLAIN);
    KeptConcat(entries, [r]);
    assert Kept([r]) == Kept([r][1..]) == [];
  }

  // Whatever release.properties says, the sorted archive list has the digest of the source list.
  lemma SortedListSameDigest(entries: seq<Entry>, text: string)
    requires Digest(entries).Ok?
    ensures Digest(SortBy(WithRelease(entries, text), ByName)) == Digest(entries)
  {
    hide Digest, Kept, SortBy, WithRelease;
    var z := WithRelease(entries, text);
    KeptSort(z);
    KeptWithRelease(entries, text);
    DigestIgnoresOrderAndProvenance(entries, SortBy(z, ByName));
  }

  lemma SafeIsNoDirectory(name: string)
    requires SafeName(name)
    ensures !IsDirectory(name)
  {
    hide SafeName, PosixPath.Split;
    SafeNameExact(name);
    if IsDirectory(name) {
      TrailingSlashNotPlain(name);
    }
  }

  lemma {:induction false} TrailingSlashNotPlain(name: string)
    requires IsDirectory(name)
    ensures "" in PosixPath.Split(name)
  {
    var rest := PosixPath.Split(name[1..]);
    if |name| == 1 {
      assert name[1..] == [];
      assert PosixPath.Split(name) == [[]] + rest;
      assert PosixPath.Split(name)[0] == "";
    } else {
      TrailingSlashNotPlain(name[1..]);
      LastPartEmpty(name);
    }
  }

  lemma {:induction false} LastPartEmpty(name: string)
    requires IsDirectory(name)
    ensures |PosixPath.Split(name)| >= 2 && PosixPath.Split(name)[|PosixPath.Split(name)| - 1] == ""
  {
    if |name| > 1 {
      LastPartEmpty(name[1..]);
    } else {
      assert name[1..] == [];
    }
  }

  lemma SingleComponentIsSafe(s: string)
    requires PosixPath.NoSlash(s) && '\\' !in s && s != "" && s != "." && s != ".."
    ensures SafeName(s)
  {
    PosixPath.SplitOne(s);
    hide SafeName, PosixPath.Split, PosixPath.NoSlash;
    SafeNameExact(s);
  }

  lemma ProvenanceIsSafe()
    ensures SafeName(PROVENANCE) && !IsDirectory(PROVENANCE)
  {
    hide SafeName;
    SingleComponentIsSafe(PROVENANCE);
  }

  lemma ProvenanceIsExtra()
    ensures PROVENANCE !in Entrypoints() && PROVENANCE !in Required() && Shipped(PROVENANCE)
  {
    assert forall e :: e in Required() ==> |e| != |PROVENANCE|;
    assert PROVENANCE[0] == 'r';
  }

  // ---- the archive list of a build ----

  function Archived(files: seq<File>, text: string): (r: seq<Entry>)
    ensures ModesFit(r)
  {
    PayloadModesFit(files, text);
    SortBy(WithRelease(PayloadEntries(files), text), ByName)
  }

  lemma ArchivedMembers(files: seq<File>, text: string)
    ensures forall e :: e in Archived(files, text) <==>
              e in PayloadEntries(files) || e == Entry(PROVENANCE, Encode(text), PLAIN)
  {
    hide SortBy, PayloadEntries, Encode;
    SameMembers(Archived(files, text), WithRelease(PayloadEntries(files), text));
  }

  lemma AcceptedPayload(entries: seq<Entry>, e: Entry)
    requires Digest(entries).Ok? && e in entries && e.name != PROVENANCE
    ensures SafeName(e.name) && Normal(e) in Kept(entries)
  {
    hide Digest, SafeName, EntryFrameable, DistinctNames;
    AcceptedExact(entries);
    KeptIsPayload(entries, Normal(e));
  }

  lemma ArchiveHasNoDirectories(files: seq<File>, text: string)
    requires Digest(PayloadEntries(files)).Ok?
    ensures NoDirectories(Archived(files, text))
  {
    hide Digest, PayloadEntries, SafeName, IsDirectory, Archived, Kept;
    ArchivedMembers(files, text);
    ProvenanceIsSafe();
    forall e | e in Archived(files, text) ensures !IsDirectory(e.name) {
      if e.name != PROVENANCE {
        AcceptedPayload(PayloadEntries(files), e);
        SafeIsNoDirectory(e.name);
      }
    }
  }

  // A digestible ZIP written by the build reads back as the digest of the source list.
  lemma ZipDigestAgrees(files: seq<File>, text: string)
    requires Digest(PayloadEntries(files)).Ok? && DistinctNames(Archived(files, text))
    ensures ZipDigest(Pack(Archived(files, text))) == Ok(Digest(PayloadEntries(files)).value)
  {
    hide Digest, DistinctNames, PayloadEntries, Pack, ReadMembers, NoDirectories, Encode;
    ArchiveHasNoDirectories(files, text);
    ReadPacked(Archived(files, text), {});
    SortedListSameDigest(PayloadEntries(files), text);
  }

  lemma NamesOfPack(entries: seq<Entry>)
    requires ModesFit(entries)
    ensures |Names(Pack(entries))| == |entries|
    ensures forall i :: 0 <= i < |entries| ==> Names(Pack(entries))[i] == entries[i].name
    ensures Distinct(Names(Pack(entries))) <==> DistinctNames(entries)
    ensures forall n :: n in Names(Pack(entries)) <==> exists e :: e in entries && e.name == n
  {
    var names := Names(Pack(entries));
    forall n | n in names ensures exists e :: e in entries && e.name == n {
      var i :| 0 <= i < |names| && names[i] == n;
      assert entries[i] in entries;
    }
    forall e | e in entries ensures e.name in names {
      var i :| 0 <= i < |entries| && entries[i] == e;
      assert names[i] == e.name;
    }
    if Distinct(names) {
      forall i, j | 0 <= i < j < |entries| ensures entries[i].name != entries[j].name {
        assert names[i] != names[j];
      }
    }
  }

  lemma ArchiveNamesDistinct(files: seq<File>, text: string)
    requires Digest(PayloadEntries(files)).Ok?
    ensures DistinctNames(Archived(files, text)) <==> NoProvenance(PayloadEntries(files))
  {
    hide Digest, Encode, SortBy, Kept, SafeName, EntryFrameable, PayloadEntries, NoProvenance, DistinctNames;
    var entries := PayloadEntries(files);
    var z := WithRelease(entries, text);
    assert multiset(Archived(files, text)) == multiset(z);
    if DistinctNames(Archived(files, text)) {
      NamesDistinctByMultiset(Archived(files, text), z);
      NoneIsProvenance(entries, text);
    }
    if NoProvenance(entries) {
      AcceptedExact(entries);
      KeptKeepsAll(entries);
      PlainNamesDistinct(entries, text);
      NamesDistinctByMultiset(z, Archived(files, text));
    }
  }

  lemma NoneIsProvenance(entries: seq<Entry>, text: string)
    requires DistinctNames(WithRelease(entries, text))
    ensures NoProvenance(entries)
  {
    hide Encode;
    var z := WithRelease(entries, text);
    forall e | e in entries ensures e.name != PROVENANCE {
      var i :| 0 <= i < |entries| && entries[i] == e;
      assert z[i] == e && z[i].name != z[|entries|].name;
    }
  }

  lemma PlainNamesDistinct(entries: seq<Entry>, text: string)
    requires NoProvenance(entries) && DistinctNames(Kept(entries))
    ensures DistinctNames(WithRelease(entries, text))
  {
    hide Encode;
    var z, kept := WithRelease(entries, text), Kept(entries);
    KeptKeepsAll(entries);
    forall i, j | 0 <= i < j < |z| ensures z[i].name != z[j].name {
      if j < |entries| {
        assert kept[i].name != kept[j].name;
      } else {
        assert entries[i] in entries;
      }
    }
  }

  lemma {:induction false} ContentOfPack(entries: seq<Entry>, e: Entry)
    requires ModesFit(entries) && DistinctNames(entries) && e in entries
    ensures Content(Pack(entries), e.name) == Some(e.data)
  {
    var t := entries[1..];
    var k :| 0 <= k < |entries| && entries[k] == e;
    if k > 0 {
      assert entries[0].name != entries[k].name;
      assert t[k - 1] == e;
      assert DistinctNames(t) by {
        forall i, j | 0 <= i < j < |t| ensures t[i].name != t[j].name {
          assert entries[i + 1].name != entries[j + 1].name;
        }
      }
      ContentOfPack(t, e);
      assert Pack(entries)[1..] == Pack(t);
    }
  }

  lemma {:induction false} SelectedFile(files: seq<File>, rel: string)
    requires Shipped(rel)
    ensures FileContent(files, rel).Some? ==>
              Entry(rel, FileContent(files, rel).value, ModeFor(rel)) in Selected(files)
    ensures FileContent(files, rel).None? ==> forall e :: e in Selected(files) ==> e.name != rel
  {
    hide ModeFor;
    if files != [] {
      SelectedFile(files[1..], rel);
    }
  }

  // module.prop inside the ZIP is module.prop of the source tree.
  lemma ArchivedFile(files: seq<File>, text: string, rel: string)
    requires Shipped(rel) && FileContent(files, rel).Some? && DistinctNames(Archived(files, text))
    ensures Content(Pack(Archived(files, text)), rel) == FileContent(files, rel)
  {
    hide DistinctNames, Pack, Content, Selected, FileContent, ModeFor, Encode, Archived;
    SelectedFile(files, rel);
    SameMembers(PayloadEntries(files), Selected(files));
    ArchivedMembers(files, text);
    ContentOfPack(Archived(files, text), Entry(rel, FileContent(files, rel).value, ModeFor(rel)));
  }

  lemma ArchivedRelease(files: seq<File>, text: string)
    requires DistinctNames(Archived(files, text))
    ensures Content(Pack(Archived(files, text)), PROVENANCE) == Some(Encode(text))
  {
    hide DistinctNames, Pack, Content, Encode, Archived, PayloadEntries;
    ArchivedMembers(files, text);
    ContentOfPack(Archived(files, text), Entry(PROVENANCE, Encode(text), PLAIN));
  }

  // ---- release.properties survives its own text ----

  predicate PlainChar(c: char) { '!' <= c <= '~' && c != '=' }

  predicate PlainText(s: string) { forall c :: c in s ==> PlainChar(c) }

  lemma PlainTextWrites(s: string)
    requires PlainText(s)
    ensures TextLines.OneLine(s) && '=' !in s
  {}

  lemma DigitsPlain(s: string)
    requires IsDigits(s)
    ensures PlainText(s) && s != ""
  {
  }

  lemma IntPlain(n: int)
    ensures PlainText(IntText(n)) && IntText(n) != ""
  {
    DigitsPlain(ToDecimal(if n < 0 then -n else n));
  }

  lemma HexPlain(s: string, n: nat)
    requires IsHexText(s, n) && n > 0
    ensures PlainText(s) && s != ""
  {
  }

  lemma VersionPlain(s: string)
    requires Version.Valid(s)
    ensures PlainText(s) && s != ""
  {
    Version.ValidChars(s);
  }

  lemma CommitPlain(s: string)
    requires CommitOk(s)
    ensures PlainText(s) && s != ""
  {}

  lemma ShortKeysPlain()
    ensures PlainText("schema_version") && PlainText("version") && PlainText("version_code") && PlainText("commit_sha")
    ensures PlainText("runtime_digest_algorithm") && PlainText("runtime_digest")
  {}

  lemma RegistryKeysPlain()
    ensures PlainText("compatibility_registry_schema") && PlainText("compatibility_registry_sha256")
    ensures PlainText("qualification_registry_schema") && PlainText("qualification_registry_sha256")
  {}

  lemma ReleaseKeysPlain()
    ensures forall i :: 0 <= i < 10 ==> PlainText(ReleaseKeys()[i]) && ReleaseKeys()[i] != ""
  {
    hide PlainText;
    ShortKeysPlain();
    RegistryKeysPlain();
  }

  lemma ReleaseKeysDistinct()
    ensures forall i, j :: 0 <= i < j < 10 ==> ReleaseKeys()[i] != ReleaseKeys()[j]
  {
    var k := ReleaseKeys();
    assert k[0][0] == 's' && k[5][0] == 'r';
    assert k[6][0] == k[7][0] == 'c' && k[8][0] == k[9][0] == 'q';
    assert k[6][24] == k[8][24] == 'c' && k[7][24] == k[9][24] == 'h';
  }

  // What a sound build hands over: values the callers have already validated, and digests in
  // the form SHA-256 prints them.
  predicate HashesOk(p: Provenance) { IsHexText(p.compatibilitySha, 64) && IsHexText(p.qualificationSha, 64) }

  ghost predicate PrintsHex(hex: seq<Byte> -> string) { forall s :: IsHexText(hex(s), 64) }

  lemma ReleaseWritable(version: string, code: string, commit: string, digest: string, p: Provenance)
    requires Version.Valid(version) && PositiveDigits(code) && CommitOk(commit)
    requires IsHexText(digest, 64) && HashesOk(p)
    ensures Writable(ReleasePairs(version, code, commit, digest, p))
  {
    hide PlainText, Version.Valid, IsDigits, IntText, CommitOk, IsHexText, TextLines.OneLine, ReleaseKeys;
    var pairs := ReleasePairs(version, code, commit, digest, p);
    ReleaseKeysPlain();
    ReleaseKeysDistinct();
    VersionPlain(version);
    DigitsPlain(code);
    CommitPlain(commit);
    HexPlain(digest, 64);
    HexPlain(p.compatibilitySha, 64);
    HexPlain(p.qualificationSha, 64);
    IntPlain(p.compatibilitySchema);
    IntPlain(p.qualificationSchema);
    ConstantsPlain();
    PairsFollowKeys(version, code, commit, digest, p);
    forall i | 0 <= i < 10
      ensures pairs[i].0 != "" && '=' !in pairs[i].0 && pairs[i].1 != "" && TextLines.OneLine(pairs[i].0)
        && TextLines.OneLine(pairs[i].1)
    {
      assert PlainText(pairs[i].1);
      PlainTextWrites(pairs[i].0);
      PlainTextWrites(pairs[i].1);
    }
  }

  lemma ConstantsPlain()
    ensures PlainText("2") && PlainText(ALGORITHM)
  {}

  lemma PairsFollowKeys(version: string, code: string, commit: string, digest: string, p: Provenance)
    ensures |ReleaseKeys()| == |ReleasePairs(version, code, commit, digest, p)| == 10
    ensures forall i :: 0 <= i < 10 ==> ReleasePairs(version, code, commit, digest, p)[i].0 == ReleaseKeys()[i]
  {}

  lemma {:induction false} AsMapFields(pairs: seq<(string, string)>, fields: Fields)
    requires forall i, j :: 0 <= i < j < |pairs| ==> pairs[i].0 != pairs[j].0
    ensures AsMap(pairs, fields).Keys == fields.Keys + set i | 0 <= i < |pairs| :: pairs[i].0
    ensures forall i :: 0 <= i < |pairs| ==> AsMap(pairs, fields)[pairs[i].0] == pairs[i].1
    ensures forall k :: k in fields && (forall i :: 0 <= i < |pairs| ==> pairs[i].0 != k) ==>
      AsMap(pairs, fields)[k] == fields[k]
  {
    if pairs != [] {
      var t := pairs[1..];
      forall i, j | 0 <= i < j < |t| ensures t[i].0 != t[j].0 {
        assert pairs[i + 1].0 != pairs[j + 1].0;
      }
      var next := fields[pairs[0].0 := pairs[0].1];
      AsMapFields(t, next);
      var keys, tkeys := set i | 0 <= i < |pairs| :: pairs[i].0, set i | 0 <= i < |t| :: t[i].0;
      assert keys == tkeys + {pairs[0].0} by {
        assert forall i :: 0 <= i < |t| ==> t[i] == pairs[i + 1];
        forall k | k in keys ensures k in tkeys + {pairs[0].0} {
          var i :| 0 <= i < |pairs| && pairs[i].0 == k;
          assert i > 0 ==> t[i - 1].0 == k;
        }
      }
      forall i | 0 <= i < |pairs| ensures AsMap(pairs, fields)[pairs[i].0] == pairs[i].1 {
        if i > 0 {
          assert t[i - 1] == pairs[i];
        } else {
          assert forall j :: 0 <= j < |t| ==> t[j].0 == pairs[j + 1].0 != pairs[0].0;
        }
      }
    }
  }

  // What release.properties says: ten keys, and the input under each.
  function Recorded(version: string, code: string, commit: string, digest: string, p: Provenance): Fields {
    map["schema_version" := "2", "version" := version, "version_code" := code, "commit_sha" := commit,
        "runtime_digest_algorithm" := "otast-runtime-v1", "runtime_digest" := digest,
        "compatibility_registry_schema" := IntText(p.compatibilitySchema),
        "compatibility_registry_sha256" := p.compatibilitySha,
        "qualification_registry_schema" := IntText(p.qualificationSchema),
        "qualification_registry_sha256" := p.qualificationSha]
  }

  // Each field is read back under its own key, and there are no others.
  lemma ReleaseReadsBack(version: string, code: string, commit: string, digest: string, p: Provenance)
    requires Writable(ReleasePairs(version, code, commit, digest, p))
    ensures ParseRelease(ReleaseText(version, code, commit, digest, p))
      == Some(Recorded(version, code, commit, digest, p))
  {
    PairsFollowKeys(version, code, commit, digest, p);
    PairsAreRecorded(version, code, commit, digest, p);
    var pairs := ReleasePairs(version, code, commit, digest, p);
    hide ReleasePairs, ReleaseKeys, ParsedFields, AsMap, Recorded;
    WrittenParses(pairs);
    AsMapFields(pairs, map[]);
    var m, keys := AsMap(pairs, map[]), ReleaseKeys();
    assert m.Keys == (set k | k in keys) by {
      forall k | k in keys ensures k in m.Keys {
        var i :| 0 <= i < |keys| && keys[i] == k;
        assert pairs[i].0 == k;
      }
    }
    SameFields(pairs, m, Recorded(version, code, commit, digest, p));
  }

  lemma SameFields(pairs: seq<(string, string)>, a: Fields, b: Fields)
    requires a.Keys == b.Keys == set i | 0 <= i < |pairs| :: pairs[i].0
    requires forall i :: 0 <= i < |pairs| ==> a[pairs[i].0] == pairs[i].1 && b[pairs[i].0] == pairs[i].1
    ensures a == b
  {
    forall k | k in a ensures a[k] == b[k] {
      var i :| 0 <= i < |pairs| && pairs[i].0 == k;
    }
  }

  lemma PairsAreRecorded(version: string, code: string, commit: string, digest: string, p: Provenance)
    ensures var r, pairs := Recorded(version, code, commit, digest, p), ReleasePairs(version, code, commit, digest, p);
      && r.Keys == (set i | 0 <= i < |pairs| :: pairs[i].0)
      && forall i :: 0 <= i < |pairs| ==> r[pairs[i].0] == pairs[i].1
  {
    hide IntText;
    KeysDiffer();
    var r, pairs := Recorded(version, code, commit, digest, p), ReleasePairs(version, code, commit, digest, p);
    forall k | k in r ensures k in set i | 0 <= i < |pairs| :: pairs[i].0 {
      var i := if k == "schema_version" then 0 else if k == "version" then 1 else if k == "version_code" then 2
        else if k == "commit_sha" then 3 else if k == "runtime_digest_algorithm" then 4
        else if k == "runtime_digest" then 5 else if k == "compatibility_registry_schema" then 6
        else if k == "compatibility_registry_sha256" then 7 else if k == "qualification_registry_schema" then 8 else 9;
      assert pairs[i].0 == k;
    }
  }

  lemma KeysDiffer()
    ensures |"schema_version"| == 14 && |"version"| == 7 && |"version_code"| == 12 && |"commit_sha"| == 10
    ensures |"runtime_digest_algorithm"| == 24 && "runtime_digest"[0] == 'r' && |"runtime_digest"| == 14
    ensures "schema_version"[0] == 's' && |"compatibility_registry_schema"| == 29
    ensures |"compatibility_registry_sha256"| == 29 && "compatibility_registry_schema"[24] == 'c'
    ensures "compatibility_registry_sha256"[24] == 'h' && |"qualification_registry_schema"| == 29
    ensures |"qualification_registry_sha256"| == 29 && "qualification_registry_schema"[24] == 'c'
    ensures "qualification_registry_sha256"[24] == 'h' && "compatibility_registry_schema"[0] == 'c'
    ensures "compatibility_registry_sha256"[0] == 'c' && "qualification_registry_schema"[0] == 'q'
    ensures "qualification_registry_sha256"[0] == 'q'
  {}

  lemma SchemaTextOk(n: int)
    ensures PositiveDigits(IntText(n)) <==> n > 0
  {
    NegativeIsNotDigits(n);
    if n >= 0 {
      Decimal.RoundTrip(n);
    }
  }

  // The written properties pass their own validation exactly when both registry schema
  // numbers are positive.
  lemma ReleaseValidates(metadata: Fields, commit: string, digest: string, p: Provenance)
    requires Version.Valid(Get(metadata, "version")) && PositiveDigits(Get(metadata, "versionCode")) && CommitOk(commit)
    requires IsHexText(digest, 64) && HashesOk(p)
    ensures var version, code := Get(metadata, "version"), Get(metadata, "versionCode");
            var r := ParseRelease(ReleaseText(version, code, commit, digest, p));
            r == Some(Recorded(version, code, commit, digest, p)) && Get(r.value, "runtime_digest") == digest
            && (ReleaseOk(r.value, metadata) <==> p.compatibilitySchema > 0 && p.qualificationSchema > 0)
  {
    hide Version.Valid, CommitOk, IsHexText, ParseRelease, ReleaseText, Get, IsDigits, FromDecimal, IntText, Writable;
    hide Recorded;
    var version, code := Get(metadata, "version"), Get(metadata, "versionCode");
    ReleaseWritable(version, code, commit, digest, p);
    ReleaseReadsBack(version, code, commit, digest, p);
    SchemaTextOk(p.compatibilitySchema);
    SchemaTextOk(p.qualificationSchema);
    RecordedFields(version, code, commit, digest, p);
  }

  lemma RecordedFields(version: string, code: string, commit: string, digest: string, p: Provenance)
    ensures var r := Recorded(version, code, commit, digest, p);
      && Get(r, "schema_version") == "2" && Get(r, "version") == version && Get(r, "version_code") == code
      && Get(r, "commit_sha") == commit && Get(r, "runtime_digest_algorithm") == "otast-runtime-v1"
      && Get(r, "runtime_digest") == digest
      && Get(r, "compatibility_registry_schema") == IntText(p.compatibilitySchema)
      && Get(r, "compatibility_registry_sha256") == p.compatibilitySha
      && Get(r, "qualification_registry_schema") == IntText(p.qualificationSchema)
      && Get(r, "qualification_registry_sha256") == p.qualificationSha
  {
    hide IntText;
    KeysDiffer();
  }

  // ---- member checks on the archive ----

  lemma {:induction false} FirstErrorExact(z: Zip)
    ensures FirstMemberError(z).None? <==> forall m :: m in z ==> MemberError(m).None?
  {
    if z != [] {
      FirstErrorExact(z[1..]);
      assert z == [z[0]] + z[1..];
    }
  }

  lemma SafeIsNotUnsafe(name: string)
    requires SafeName(name)
    ensures !UnsafeMember(name)
  {}

  lemma PackedMemberOk(e: Entry)
    requires SafeName(e.name) && e.mode == ModeFor(e.name)
    ensures MemberError(Member(e.name, ExternalAttr(e.mode), e.data)).None? <==> |e.data| <= MAX_MEMBER
  {
    hide SafeName, UnsafeMember, Entrypoints;
    SafeIsNotUnsafe(e.name);
    ModeSurvivesPacking(e.mode);
  }

  predicate Fits(entries: seq<Entry>) { forall e :: e in entries ==> |e.data| <= MAX_MEMBER }

  lemma ArchiveMembersOk(files: seq<File>, text: string)
    requires Digest(PayloadEntries(files)).Ok? && NoProvenance(PayloadEntries(files))
    ensures FirstMemberError(Pack(Archived(files, text))).None? <==>
              Fits(PayloadEntries(files)) && |Encode(text)| <= MAX_MEMBER
  {
    hide Digest, PayloadEntries, Archived, Pack, FirstMemberError, MemberError, SafeName, ModeFor, Encode;
    var a := Archived(files, text);
    var z := Pack(a);
    FirstErrorExact(z);
    forall e | e in a
      ensures MemberError(Member(e.name, ExternalAttr(e.mode), e.data)).None? <==> |e.data| <= MAX_MEMBER
    {
      ArchivedEntryShape(files, text, e);
      PackedMemberOk(e);
    }
    assert FirstMemberError(z).None? <==> Fits(a) by {
      PackedErrors(a);
    }
    ArchivedMembers(files, text);
    assert Entry(PROVENANCE, Encode(text), PLAIN) in a;
  }

  lemma PackedErrors(a: seq<Entry>)
    requires ModesFit(a)
    requires forall e :: e in a ==>
      (MemberError(Member(e.name, ExternalAttr(e.mode), e.data)).None? <==> |e.data| <= MAX_MEMBER)
    ensures (forall m :: m in Pack(a) ==> MemberError(m).None?) <==> Fits(a)
  {
    hide MemberError, ExternalAttr;
    var z := Pack(a);
    if forall m :: m in z ==> MemberError(m).None? {
      forall e | e in a ensures |e.data| <= MAX_MEMBER {
        var i :| 0 <= i < |a| && a[i] == e;
        assert z[i] in z;
      }
    }
    if Fits(a) {
      forall m | m in z ensures MemberError(m).None? {
        var i :| 0 <= i < |z| && z[i] == m;
        assert a[i] in a;
      }
    }
  }

  lemma ArchivedEntryShape(files: seq<File>, text: string, e: Entry)
    requires Digest(PayloadEntries(files)).Ok? && NoProvenance(PayloadEntries(files)) && e in Archived(files, text)
    ensures SafeName(e.name) && e.mode == ModeFor(e.name)
  {
    hide Digest, Archived, SafeName, Entrypoints, Encode;
    ArchivedMembers(files, text);
    if e in PayloadEntries(files) {
      AcceptedPayload(PayloadEntries(files), e);
      SelectedModes(files);
      SameMembers(PayloadEntries(files), Selected(files));
    } else {
      ProvenanceIsSafe();
      ProvenanceIsExtra();
    }
  }

  lemma ArchiveNames(files: seq<File>, text: string)
    ensures var names := Names(Pack(Archived(files, text)));
            PROVENANCE in names
            && (Required() <= (set n | n in names) <==>
                 forall n :: n in Required() ==> exists e :: e in PayloadEntries(files) && e.name == n)
  {
    hide Archived, Pack, Names, PayloadEntries, Encode, Required;
    NamesOfPack(Archived(files, text));
    ArchivedMembers(files, text);
    ProvenanceIsExtra();
    assert Entry(PROVENANCE, Encode(text), PLAIN) in Archived(files, text);
    var names := Names(Pack(Archived(files, text)));
    forall n | n in Required()
      ensures n in names <==> exists e :: e in PayloadEntries(files) && e.name == n
    {
      if e :| e in Archived(files, text) && e.name == n {
        assert e in PayloadEntries(files);
      }
    }
  }

  // ---- the theorems ----

  function Text(files: seq<File>, commit: string, p: Provenance, hex: seq<Byte> -> string): string
    requires MetadataOf(FileContent(files, "module.prop")).Ok? && Digest(PayloadEntries(files)).Ok?
  {
    var metadata := MetadataOf(FileContent(files, "module.prop")).value;
    ReleaseText(Get(metadata, "version"), Get(metadata, "versionCode"), commit,
      hex(Digest(PayloadEntries(files)).value), p)
  }

  predicate Inputs(files: seq<File>, commit: string) {
    && MetadataOf(FileContent(files, "module.prop")).Ok?
    && CommitOk(commit)
    && Digest(PayloadEntries(files)).Ok?
  }

  lemma MetadataShape(data: Option<seq<Byte>>)
    requires MetadataOf(data).Ok?
    ensures Version.Valid(Get(MetadataOf(data).value, "version"))
      && PositiveDigits(Get(MetadataOf(data).value, "versionCode"))
  {
    hide Version.Valid, PositiveDigits, ModuleMetadata.Metadata, Decode;
  }

  lemma ModulePropShipped()
    ensures Shipped("module.prop")
  {
    assert "module.prop"[0] == 'm' && "AGENTS.md"[0] == 'A' && "var/"[0] == 'v';
  }

  // Identity and digest of the finished ZIP: only a non-positive registry schema can fail here.
  lemma IdentityExact(files: seq<File>, commit: string, p: Provenance, hex: seq<Byte> -> string)
    requires Inputs(files, commit) && PrintsHex(hex) && HashesOk(p)
    requires NoProvenance(PayloadEntries(files))
    ensures var z := Pack(Archived(files, Text(files, commit, p, hex)));
            Identity(z, hex) == if p.compatibilitySchema > 0 && p.qualificationSchema > 0 then None
              else Some(BadReleaseProperties)
  {
    hide Digest, PayloadEntries, Archived, Pack, Content, FileContent, ZipDigest, MetadataOf, ReleaseText, ParseRelease;
    hide ReleaseOk, Get, CommitOk, Version.Valid, PositiveDigits, IsHexText, Decode, Encode, DistinctNames;
    hide NoProvenance, Shipped;
    var text := Text(files, commit, p, hex);
    var a := Archived(files, text);
    var metadata := MetadataOf(FileContent(files, "module.prop")).value;
    ArchiveNamesDistinct(files, text);
    ModulePropShipped();
    PropPresent(FileContent(files, "module.prop"));
    ArchivedFile(files, text, "module.prop");
    ArchivedRelease(files, text);
    Utf8.RoundTrip(text);
    MetadataShape(FileContent(files, "module.prop"));
    ReleaseValidates(metadata, commit, hex(Digest(PayloadEntries(files)).value), p);
    ZipDigestAgrees(files, text);
  }

  lemma PropPresent(data: Option<seq<Byte>>)
    requires MetadataOf(data).Ok?
    ensures data.Some?
  {}

  // Everything a build still needs once its inputs are readable and digestible.
  predicate Packable(files: seq<File>, text: string, p: Provenance) {
    var entries := PayloadEntries(files);
    && NoProvenance(entries)
    && (forall n :: n in Required() ==> exists e :: e in entries && e.name == n)
    && Fits(entries) && |Encode(text)| <= MAX_MEMBER
    && p.compatibilitySchema > 0 && p.qualificationSchema > 0
  }

  predicate DigestTrouble(e: BuildError) { e.ReleaseDigestMismatch? || e.UnreadableZip? || e.BuiltDigestDiffers? }

  lemma MemberTroubleIsNotDigestTrouble(z: Zip)
    ensures FirstMemberError(z).Some? ==> !DigestTrouble(FirstMemberError(z).value)
  {
    if z != [] {
      MemberTroubleIsNotDigestTrouble(z[1..]);
    }
  }

  lemma FinishExact(files: seq<File>, commit: string, p: Provenance, hex: seq<Byte> -> string)
    requires Inputs(files, commit) && PrintsHex(hex) && HashesOk(p)
    ensures var text := Text(files, commit, p, hex);
            var z := Pack(Archived(files, text));
            var r := Finish(z, Digest(PayloadEntries(files)).value, hex);
            (r.Ok? <==> Packable(files, text, p))
            && (r.Err? ==> !DigestTrouble(r.error))
            && (r.Ok? ==> r.value == z && ZipDigest(z) == Ok(Digest(PayloadEntries(files)).value))
  {
    hide Digest, PayloadEntries, Archived, Pack, ZipDigest, Text, FirstMemberError, Names, Required, NoProvenance;
    hide Fits, Encode, Identity, MetadataOf, FileContent, CommitOk, PrintsHex, HashesOk, Distinct, DistinctNames;
    var text := Text(files, commit, p, hex);
    var a := Archived(files, text);
    ArchiveNamesDistinct(files, text);
    NamesOfPack(a);
    ArchiveNames(files, text);
    MemberTroubleIsNotDigestTrouble(Pack(a));
    if NoProvenance(PayloadEntries(files)) {
      ArchiveMembersOk(files, text);
      IdentityExact(files, commit, p, hex);
      ZipDigestAgrees(files, text);
    }
  }

  // What the ZIP of a build records: the identity in module.prop and its own inputs.
  ghost predicate Records(release: Fields, files: seq<File>, commit: string, p: Provenance, digest: string)
    requires MetadataOf(FileContent(files, "module.prop")).Ok?
  {
    var metadata := MetadataOf(FileContent(files, "module.prop")).value;
    release == Recorded(Get(metadata, "version"), Get(metadata, "versionCode"), commit, digest, p)
  }

  lemma RecordsInputs(files: seq<File>, commit: string, p: Provenance, hex: seq<Byte> -> string)
    requires Inputs(files, commit) && PrintsHex(hex) && HashesOk(p) && NoProvenance(PayloadEntries(files))
    ensures var z := Pack(Archived(files, Text(files, commit, p, hex)));
      var release := ReleaseOf(Content(z, "release.properties"));
      release.Some? && Records(release.value, files, commit, p, hex(Digest(PayloadEntries(files)).value))
  {
    hide Digest, PayloadEntries, Archived, Pack, Content, FileContent, MetadataOf, ReleaseText, ParseRelease;
    hide ReleaseOk, Get, CommitOk, Version.Valid, PositiveDigits, IsHexText, Decode, Encode, DistinctNames;
    hide NoProvenance, IntText;
    var text := Text(files, commit, p, hex);
    var metadata := MetadataOf(FileContent(files, "module.prop")).value;
    ArchiveNamesDistinct(files, text);
    ArchivedRelease(files, text);
    Utf8.RoundTrip(text);
    MetadataShape(FileContent(files, "module.prop"));
    ReleaseValidates(metadata, commit, hex(Digest(PayloadEntries(files)).value), p);
  }

  // The names of a ZIP strictly ascend, and every member carries its name's mode as a regular
  // file: 0o755 for the six entry points, 0o644 for all others.
  ghost predicate InOrder(z: Zip) {
    && (forall i, j :: 0 <= i < j < |z| ==>
          Leq(z[i].filename, z[j].filename) && z[i].filename != z[j].filename)
    && forall m :: m in z ==> HasItsMode(m)
  }

  predicate HasItsMode(m: Member) {
    && m.externalAttr / 0x10000 / 0x1000 == 8
    && m.externalAttr / 0x10000 % 0x1000
         == if m.filename in {"action.sh", "customize.sh", "post-fs-data.sh", "service.sh", "uninstall.sh",
                              "runtime/entry.sh"} then 493 else 420
  }

  lemma ArchiveInOrder(files: seq<File>, text: string)
    requires Digest(PayloadEntries(files)).Ok? && NoProvenance(PayloadEntries(files))
    ensures InOrder(Pack(Archived(files, text)))
  {
    hide Digest, Archived, PayloadEntries, NoProvenance, Leq, DistinctNames, HasItsMode, ExternalAttr;
    ArchiveNamesDistinct(files, text);
    ArchiveAscends(files, text);
    var a := Archived(files, text);
    forall i | 0 <= i < |a| ensures HasItsMode(Pack(a)[i]) {
      assert a[i] in a;
      ArchivedEntryShape(files, text, a[i]);
      EntryHasItsMode(a[i]);
    }
  }

  lemma EntryHasItsMode(e: Entry)
    requires 0 <= e.mode < MODE_MASK && e.mode == ModeFor(e.name)
    ensures HasItsMode(Member(e.name, ExternalAttr(e.mode), e.data))
  {
    ModesSpelled(e.name);
    hide ModeFor;
  }

  lemma ModesSpelled(name: string)
    ensures ModeFor(name)
      == if name in {"action.sh", "customize.sh", "post-fs-data.sh", "service.sh", "uninstall.sh",
                     "runtime/entry.sh"} then 493 else 420
  {}

  lemma ArchiveAscends(files: seq<File>, text: string)
    requires DistinctNames(Archived(files, text))
    ensures Ascending(Archived(files, text))
  {
    hide PayloadEntries, SortBy, Leq, Encode;
    var all := WithRelease(PayloadEntries(files), text);
    NamesDistinctByMultiset(Archived(files, text), all);
    SortedAscends(all);
  }

  // A build succeeds exactly when its inputs are sound and packable; then its ZIP lists the
  // payload in order, records the inputs, and digests to the source payload.  None of the digest
  // comparisons after packing can ever fail.
  lemma BuildExact(files: seq<File>, commit: string, p: Provenance, hex: seq<Byte> -> string)
    requires PrintsHex(hex) && HashesOk(p)
    ensures var r := Build(files, commit, p, hex);
            (r.Ok? <==> Inputs(files, commit) && Packable(files, Text(files, commit, p, hex), p))
            && (r.Err? ==> !DigestTrouble(r.error))
            && (r.Ok? ==>
                  var digest := Digest(PayloadEntries(files)).value;
                  var release := ReleaseOf(Content(r.value, "release.properties"));
                  && ZipDigest(r.value) == Ok(digest) && InOrder(r.value)
                  && release.Some? && Records(release.value, files, commit, p, hex(digest)))
  {
    hide Digest, PayloadEntries, ReleaseText, ZipDigest, Finish, Packable, CommitOk, FileContent, Get, Pack, SortBy;
    hide WithRelease, ModesFit, PrintsHex, HashesOk, Records, InOrder, NoProvenance;
    MetadataTrouble(FileContent(files, "module.prop"));
    if Inputs(files, commit) {
      FinishExact(files, commit, p, hex);
      if Packable(files, Text(files, commit, p, hex), p) {
        PackableHasNone(files, Text(files, commit, p, hex), p);
        RecordsInputs(files, commit, p, hex);
        ArchiveInOrder(files, Text(files, commit, p, hex));
      }
    }
  }

  lemma PackableHasNone(files: seq<File>, text: string, p: Provenance)
    requires Packable(files, text, p)
    ensures NoProvenance(PayloadEntries(files))
  {}

  lemma MetadataTrouble(data: Option<seq<Byte>>)
    ensures MetadataOf(data).Err? ==> !DigestTrouble(MetadataOf(data).error)
  {}

  // ---- the build is deterministic ----

  predicate DistinctFiles(files: seq<File>) {
    forall i, j :: 0 <= i < j < |files| ==> files[i].rel != files[j].rel
  }

  lemma {:induction false} SelectedExact(files: seq<File>, e: Entry)
    ensures e in Selected(files) <==>
              exists f :: f in files && Shipped(f.rel) && e == Entry(f.rel, f.data, ModeFor(f.rel))
  {
    hide ModeFor, Shipped;
    if files != [] {
      assert files == [files[0]] + files[1..];
      SelectedExact(files[1..], e);
    }
  }

  lemma {:induction false} SelectedDistinct(files: seq<File>)
    requires DistinctFiles(files)
    ensures DistinctNames(Selected(files))
  {
    hide ModeFor, Shipped;
    if files != [] {
      var t, s := files[1..], Selected(files[1..]);
      forall i, j | 0 <= i < j < |t| ensures t[i].rel != t[j].rel {
        assert files[i + 1].rel != files[j + 1].rel;
      }
      SelectedDistinct(t);
      forall e | e in s ensures e.name != files[0].rel {
        SelectedExact(t, e);
        var f :| f in t && e.name == f.rel;
        var k :| 0 <= k < |t| && t[k] == f;
        assert files[0].rel != files[k + 1].rel;
      }
      var all := Selected(files);
      forall i, j | 0 <= i < j < |all| ensures all[i].name != all[j].name {
        if all != s {
          assert all[j] == s[j - 1];
          assert i > 0 ==> all[i] == s[i - 1];
        }
      }
    }
  }

  lemma {:induction false} FileContentExact(files: seq<File>, f: File)
    requires DistinctFiles(files) && f in files
    ensures FileContent(files, f.rel) == Some(f.data)
  {
    var k :| 0 <= k < |files| && files[k] == f;
    if k > 0 {
      var t := files[1..];
      assert files[0].rel != files[k].rel && t[k - 1] == f;
      forall i, j | 0 <= i < j < |t| ensures t[i].rel != t[j].rel {
        assert files[i + 1].rel != files[j + 1].rel;
      }
      FileContentExact(t, f);
    }
  }

  lemma {:induction false} FileContentMember(files: seq<File>, rel: string)
    ensures FileContent(files, rel).Some? ==> File(rel, FileContent(files, rel).value) in files
  {
    if files != [] {
      FileContentMember(files[1..], rel);
    }
  }

  // Two listings of the same tree, in any order, build the same ZIP or fail the same way.
  lemma BuildIsDeterministic(a: seq<File>, b: seq<File>, commit: string, p: Provenance, hex: seq<Byte> -> string)
    requires DistinctFiles(a) && DistinctFiles(b)
    requires forall f :: f in a <==> f in b
    ensures Build(a, commit, p, hex) == Build(b, commit, p, hex)
  {
    assert FileContent(a, "module.prop") == FileContent(b, "module.prop") by {
      FileContentMember(a, "module.prop");
      FileContentMember(b, "module.prop");
      if FileContent(a, "module.prop").Some? {
        FileContentExact(b, File("module.prop", FileContent(a, "module.prop").value));
      } else if FileContent(b, "module.prop").Some? {
        FileContentExact(a, File("module.prop", FileContent(b, "module.prop").value));
      }
    }
    SamePayload(a, b);
    hide FileContent, PayloadEntries, Digest, MetadataOf, ReleaseText, Finish, Pack, SortBy, CommitOk, DistinctFiles;
  }

  lemma SamePayload(a: seq<File>, b: seq<File>)
    requires DistinctFiles(a) && DistinctFiles(b)
    requires forall f :: f in a <==> f in b
    ensures PayloadEntries(a) == PayloadEntries(b)
  {
    hide DistinctFiles, Selected, DistinctNames, SortBy;
    SelectedDistinct(a);
    SelectedDistinct(b);
    forall e ensures e in Selected(a) <==> e in Selected(b) {
      SelectedExact(a, e);
      SelectedExact(b, e);
    }
    DistinctNamesDistinct(Selected(a));
    DistinctNamesDistinct(Selected(b));
    DistinctSameSet(Selected(a), Selected(b));
    SortIgnoresOrder(Selected(a), Selected(b));
  }
}
