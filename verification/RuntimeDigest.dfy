// The runtime payload digest of tools/otastctl/runtime_digest.py.  The hash itself is an
// opaque consumer: what is modelled is the exact byte stream it is fed.
module RuntimeDigest {
  import opened Results
  import opened Ordering
  import opened Bytes
  import opened Utf8
  import PosixPath

  const PROVENANCE := "release.properties"
  const MODE_MASK := 0x1000

  // A payload member; `mode` may carry file-type bits, which the digest drops.
  datatype Entry = Entry(name: string, data: seq<Byte>, mode: int)

  datatype DigestError = UnsafePath(name: string) | DuplicatePath(name: string) | EmptyPayload | LengthOverflow

  // ---- the byte stream ----

  const ALGORITHM_LABEL: seq<Byte> := [97, 108, 103, 111, 114, 105, 116, 104, 109, 0]  // algorithm
  const PATH_LABEL: seq<Byte> := [112, 97, 116, 104, 0]  // path
  const MODE_LABEL: seq<Byte> := [109, 111, 100, 101, 0]  // mode
  const BYTES_LABEL: seq<Byte> := [98, 121, 116, 101, 115, 0]  // bytes
  const ALGORITHM := "otast-runtime-v1"
  const ALGORITHM_BYTES: seq<Byte> := [111, 116, 97, 115, 116, 45, 114, 117, 110, 116, 105, 109, 101, 45, 118, 49]
  const LENGTH_LIMIT: nat := 0x1_0000_0000_0000_0000  // what eight length bytes can hold

  lemma LengthLimitIsEightBytes()
    ensures Pow256(8) == LENGTH_LIMIT
  {
    assert Pow256(4) == 0x1_0000_0000;
  }

  predicate Frameable(value: seq<Byte>) { |value| < LENGTH_LIMIT }

  function FrameBytes(tag: seq<Byte>, value: seq<Byte>): seq<Byte> {
    tag + BigEndian(|value|, 8) + value
  }

  // `f"{mode:04o}"` for a mode below 0o10000.
  function OctalDigit(n: int): Byte { 0x30 + n % 8 }

  function ModeText(mode: int): (r: seq<Byte>)
    ensures |r| == 4
  {
    [OctalDigit(mode / 512), OctalDigit(mode / 64), OctalDigit(mode / 8), OctalDigit(mode)]
  }

  function EntryBytes(e: Entry): seq<Byte> {
    FrameBytes(PATH_LABEL, Encode(e.name))
      + (FrameBytes(MODE_LABEL, ModeText(e.mode)) + FrameBytes(BYTES_LABEL, e.data))
  }

  function EntriesBytes(es: seq<Entry>): seq<Byte> {
    if es == [] then [] else EntryBytes(es[0]) + EntriesBytes(es[1..])
  }

  function Header(): seq<Byte> { FrameBytes(ALGORITHM_LABEL, ALGORITHM_BYTES) }

  function Stream(es: seq<Entry>): seq<Byte> { Header() + EntriesBytes(es) }

  // ---- acceptance ----

  predicate SafeName(name: string) {
    && name != ""
    && !PosixPath.IsAbsolute(name)
    && ".." !in PosixPath.Parts(name)
    && '\\' !in name
    && PosixPath.AsPosix(name) == name
  }

  function Normal(e: Entry): Entry { e.(mode := e.mode % MODE_MASK) }

  // The payload the digest speaks about: provenance removed, modes masked, given order.
  function Kept(entries: seq<Entry>): (r: seq<Entry>)
    ensures forall e :: e in r ==> e.name != PROVENANCE && 0 <= e.mode < MODE_MASK
  {
    if entries == [] then []
    else (if entries[0].name == PROVENANCE then [] else [Normal(entries[0])]) + Kept(entries[1..])
  }

  predicate DistinctNames(es: seq<Entry>) {
    forall i, j :: 0 <= i < j < |es| ==> es[i].name != es[j].name
  }

  predicate ByName(a: Entry, b: Entry) { Leq(a.name, b.name) }

  // The first loop: members are checked one by one, so the first offence decides the error.
  function Scan(entries: seq<Entry>, seen: set<string>): (r: Result<seq<Entry>, DigestError>)
  {
    if entries == [] then Ok([])
    else
      var e := entries[0];
      if e.name == PROVENANCE then Scan(entries[1..], seen)
      else if !SafeName(e.name) then Err(UnsafePath(e.name))
      else if e.name in seen then Err(DuplicatePath(e.name))
      else
        var rest := Scan(entries[1..], seen + {e.name});
        if rest.Err? then rest else Ok([Normal(e)] + rest.value)
  }

  function Prefixed(done: seq<Entry>, rest: Result<seq<Entry>, DigestError>): Result<seq<Entry>, DigestError> {
    if rest.Err? then rest else Ok(done + rest.value)
  }

  predicate EntryFrameable(e: Entry) { Frameable(Encode(e.name)) && Frameable(e.data) }

  // What `digest_entries` feeds to the hash, or why it refuses.
  function Digest(entries: seq<Entry>): Result<seq<Byte>, DigestError> {
    var scan := Scan(entries, {});
    if scan.Err? then Err(scan.error)
    else if scan.value == [] then Err(EmptyPayload)
    else if exists e :: e in scan.value && !EntryFrameable(e) then Err(LengthOverflow)
    else Ok(Stream(SortBy(scan.value, ByName)))
  }

  lemma AlgorithmFrameable()
    ensures Frameable(ALGORITHM_BYTES)
  {}

  // A running hash: all it can do is take more bytes.
  class Hasher {
    var fed: seq<Byte>

    constructor ()
      ensures fed == []
    {
      fed := [];
    }

    method Update(bytes: seq<Byte>)
      modifies this
      ensures fed == old(fed) + bytes
    {
      fed := fed + bytes;
    }
  }

  // Writing a length of 2^64 or more raises after the label has been fed.
  method Frame(h: Hasher, tag: seq<Byte>, value: seq<Byte>) returns (ok: bool)
    modifies h
    ensures ok <==> Frameable(value)
    ensures h.fed == old(h.fed) + if ok then FrameBytes(tag, value) else tag
  {
    h.Update(tag);
    if |value| >= LENGTH_LIMIT {
      return false;
    }
    h.Update(BigEndian(|value|, 8));
    h.Update(value);
    return true;
  }

  lemma ModeTextFrameable(mode: int)
    ensures Frameable(ModeText(mode))
  {}

  lemma {:induction false} EntriesBytesAppend(a: seq<Entry>, e: Entry)
    ensures EntriesBytes(a + [e]) == EntriesBytes(a) + EntryBytes(e)
  {
    if a == [] {
      assert a + [e] == [e];
      assert EntriesBytes([e][1..]) == [];
    } else {
      assert (a + [e])[1..] == a[1..] + [e];
      EntriesBytesAppend(a[1..], e);
    }
  }

  lemma PrefixedStep(done: seq<Entry>, e: Entry, rest: Result<seq<Entry>, DigestError>)
    ensures Prefixed(done, Prefixed([e], rest)) == Prefixed(done + [e], rest)
  {
    if rest.Ok? {
      assert done + ([e] + rest.value) == done + [e] + rest.value;
    }
  }

  // The checking loop.
  method Normalize(entries: seq<Entry>) returns (r: Result<seq<Entry>, DigestError>)
    ensures r == Scan(entries, {})
  {
    hide SafeName;
    var normalized: seq<Entry> := [];
    var seen: set<string> := {};
    ghost var whole := Scan(entries, {});
    assert entries[0..] == entries;
    assert whole == Prefixed([], whole) by { if whole.Ok? { assert [] + whole.value == whole.value; } }
    for i := 0 to |entries|
      invariant whole == Prefixed(normalized, Scan(entries[i..], seen))
    {
      var e := entries[i];
      assert entries[i..][1..] == entries[i + 1..];
      if e.name == PROVENANCE {
        continue;
      }
      if !SafeName(e.name) {
        return Err(UnsafePath(e.name));
      }
      if e.name in seen {
        return Err(DuplicatePath(e.name));
      }
      PrefixedStep(normalized, Normal(e), Scan(entries[i + 1..], seen + {e.name}));
      seen := seen + {e.name};
      normalized := normalized + [Normal(e)];
    }
    assert entries[|entries|..] == [];
    assert normalized + [] == normalized;
    return Ok(normalized);
  }

  lemma Regroup(s: seq<Byte>, p: seq<Byte>, m: seq<Byte>, d: seq<Byte>)
    ensures s + p + m + d == s + (p + (m + d))
  {}

  method FeedEntry(digest: Hasher, e: Entry) returns (ok: bool)
    modifies digest
    ensures ok <==> EntryFrameable(e)
    ensures ok ==> digest.fed == old(digest.fed) + EntryBytes(e)
  {
    hide Encode, FrameBytes, ModeText, Frameable;
    ghost var s := digest.fed;
    ghost var p, m, d := FrameBytes(PATH_LABEL, Encode(e.name)), FrameBytes(MODE_LABEL, ModeText(e.mode)),
      FrameBytes(BYTES_LABEL, e.data);
    ok := Frame(digest, PATH_LABEL, Encode(e.name));
    if ok {
      ok := Frame(digest, MODE_LABEL, ModeText(e.mode));
      assert ok by { ModeTextFrameable(e.mode); }
      ok := Frame(digest, BYTES_LABEL, e.data);
      Regroup(s, p, m, d);
    }
  }

  // The feeding loop.
  method Feed(digest: Hasher, ordered: seq<Entry>) returns (ok: bool)
    modifies digest
    ensures ok <==> forall e :: e in ordered ==> EntryFrameable(e)
    ensures ok ==> digest.fed == old(digest.fed) + EntriesBytes(ordered)
  {
    hide EntryFrameable, EntryBytes;
    for i := 0 to |ordered|
      invariant digest.fed == old(digest.fed) + EntriesBytes(ordered[..i])
      invariant forall k :: 0 <= k < i ==> EntryFrameable(ordered[k])
    {
      ok := FeedEntry(digest, ordered[i]);
      if !ok {
        return;
      }
      EntriesBytesAppend(ordered[..i], ordered[i]);
      assert ordered[..i + 1] == ordered[..i] + [ordered[i]];
    }
    assert ordered[..|ordered|] == ordered;
    ok := true;
  }

  method DigestEntries(entries: seq<Entry>) returns (r: Result<seq<Byte>, DigestError>)
    ensures r == Digest(entries)
  {
    hide Scan, EntryFrameable, EntriesBytes, SortBy, FrameBytes, Frameable;
    var normalized := Normalize(entries);
    if normalized.Err? {
      return Err(normalized.error);
    }
    if normalized.value == [] {
      return Err(EmptyPayload);
    }
    var digest := new Hasher();
    AlgorithmFrameable();
    var _ := Frame(digest, ALGORITHM_LABEL, ALGORITHM_BYTES);
    assert digest.fed == Header();
    var ordered := SortBy(normalized.value, ByName);
    SameMembers(ordered, normalized.value);
    var ok := Feed(digest, ordered);
    if !ok {
      return Err(LengthOverflow);
    }
    return Ok(digest.fed);
  }

  // ---- acceptance, stated without the loop ----

  ghost predicate Accepted(entries: seq<Entry>) {
    var kept := Kept(entries);
    && kept != []
    && (forall e :: e in kept ==> SafeName(e.name) && EntryFrameable(e))
    && DistinctNames(kept)
  }

  ghost predicate Clean(kept: seq<Entry>, seen: set<string>) {
    && (forall e :: e in kept ==> SafeName(e.name) && e.name !in seen)
    && DistinctNames(kept)
  }

  lemma CleanCons(e: Entry, rest: seq<Entry>, seen: set<string>)
    ensures Clean([e] + rest, seen) <==> SafeName(e.name) && e.name !in seen && Clean(rest, seen + {e.name})
  {
    hide SafeName;
    var kept := [e] + rest;
    assert kept[0] == e && forall i :: 0 <= i < |rest| ==> kept[i + 1] == rest[i];
    if Clean(kept, seen) {
      assert e in kept;
      forall x | x in rest ensures x.name !in seen + {e.name} && SafeName(x.name) {
        var k :| 0 <= k < |rest| && rest[k] == x;
        assert kept[0].name != kept[k + 1].name && x in kept;
      }
      forall i, j | 0 <= i < j < |rest| ensures rest[i].name != rest[j].name {
        assert kept[i + 1].name != kept[j + 1].name;
      }
    }
    if SafeName(e.name) && e.name !in seen && Clean(rest, seen + {e.name}) {
      forall i, j | 0 <= i < j < |kept| ensures kept[i].name != kept[j].name {
        assert kept[j] == rest[j - 1] && rest[j - 1] in rest;
        if i > 0 { assert kept[i] == rest[i - 1]; }
      }
    }
  }

  lemma {:induction false} ScanExact(entries: seq<Entry>, seen: set<string>)
    ensures Scan(entries, seen).Ok? <==> Clean(Kept(entries), seen)
    ensures Scan(entries, seen).Ok? ==> Scan(entries, seen).value == Kept(entries)
  {
    if entries != [] {
      var e, rest := entries[0], Kept(entries[1..]);
      if e.name == PROVENANCE {
        assert Kept(entries) == rest;
        ScanExact(entries[1..], seen);
      } else {
        ScanExact(entries[1..], seen + {e.name});
        CleanCons(Normal(e), rest, seen);
      }
    }
  }

  // `digest_entries` accepts exactly the non-empty payloads of safe, distinct names.
  lemma AcceptedExact(entries: seq<Entry>)
    ensures Digest(entries).Ok? <==> Accepted(entries)
    ensures Accepted(entries) ==> Digest(entries) == Ok(Stream(SortBy(Kept(entries), ByName)))
  {
    hide SafeName, EntryFrameable, Stream, DistinctNames, SortBy, Kept, Scan;
    ScanExact(entries, {});
  }

  // A safe name is one without backslash whose components are plain, or the single name ".".
  lemma SafeNameExact(name: string)
    ensures SafeName(name) <==> '\\' !in name && (name == "." || PosixPath.PlainComponents(name))
  {
    if PosixPath.PlainComponents(name) {
      PosixPath.PlainIsRelative(name);
    }
    if !PosixPath.IsAbsolute(name) {
      PosixPath.CanonicalExact(name);
      assert forall p :: p in PosixPath.Parts(name) <==> p in PosixPath.Split(name) && !PosixPath.Dropped(p);
    }
    if name == "." {
      assert PosixPath.Split(name[1..]) == [[]];
      assert PosixPath.Split(name) == ["."];
      assert PosixPath.Keep(["."][1..]) == [];
    }
  }

  // ---- decoding the stream ----

  datatype Raw = Raw(path: seq<Byte>, mode: seq<Byte>, data: seq<Byte>)

  // Reads one frame: the label, an eight-byte big-endian length, that many bytes.
  function ReadFrame(tag: seq<Byte>, s: seq<Byte>): (r: Option<(seq<Byte>, seq<Byte>)>)
    ensures r.Some? ==> |r.value.1| < |s|
  {
    var k := |tag| + 8;
    if |s| < k || s[..|tag|] != tag then None
    else
      var n := FromBigEndian(s[|tag|..k]);
      if |s| < k + n then None else Some((s[k..k + n], s[k + n..]))
  }

  function ReadEntry(s: seq<Byte>): (r: Option<(Raw, seq<Byte>)>)
    ensures r.Some? ==> |r.value.1| < |s|
  {
    var p := ReadFrame(PATH_LABEL, s);
    if p.None? then None else
    var m := ReadFrame(MODE_LABEL, p.value.1);
    if m.None? then None else
    var d := ReadFrame(BYTES_LABEL, m.value.1);
    if d.None? then None else Some((Raw(p.value.0, m.value.0, d.value.0), d.value.1))
  }

  function ReadEntries(s: seq<Byte>): Option<seq<Raw>>
    decreases |s|
  {
    if s == [] then Some([])
    else
      var e := ReadEntry(s);
      if e.None? then None
      else
        var rest := ReadEntries(e.value.1);
        if rest.None? then None else Some([e.value.0] + rest.value)
  }

  function DigitValue(b: int): int { b - 0x30 }

  function ModeOf(text: seq<Byte>): int
    requires |text| == 4
  {
    DigitValue(text[0]) * 512 + DigitValue(text[1]) * 64 + DigitValue(text[2]) * 8 + DigitValue(text[3])
  }

  function Cook(raw: Raw): Option<Entry> {
    var name := Decode(raw.path);
    if name.None? || |raw.mode| != 4 then None else Some(Entry(name.value, raw.data, ModeOf(raw.mode)))
  }

  function CookAll(raws: seq<Raw>): Option<seq<Entry>> {
    if raws == [] then Some([])
    else
      var e, rest := Cook(raws[0]), CookAll(raws[1..]);
      if e.None? || rest.None? then None else Some([e.value] + rest.value)
  }

  // The whole decoder: header frame, then entries, then their fields.
  function DecodeStream(s: seq<Byte>): Option<seq<Entry>> {
    var h := ReadFrame(ALGORITHM_LABEL, s);
    if h.None? || h.value.0 != ALGORITHM_BYTES then None
    else
      var raws := ReadEntries(h.value.1);
      if raws.None? then None else CookAll(raws.value)
  }

  lemma FrameRoundTrip(tag: seq<Byte>, value: seq<Byte>, tail: seq<Byte>)
    requires Frameable(value)
    ensures ReadFrame(tag, FrameBytes(tag, value) + tail) == Some((value, tail))
  {
    var s, k := FrameBytes(tag, value) + tail, |tag| + 8;
    LengthLimitIsEightBytes();
    BigEndianRoundTrip(|value|, 8);
    assert s[..|tag|] == tag;
    assert s[|tag|..k] == BigEndian(|value|, 8);
    assert s[k..k + |value|] == value;
    assert s[k + |value|..] == tail;
  }

  lemma EntryRoundTrip(e: Entry, tail: seq<Byte>)
    requires EntryFrameable(e)
    ensures ReadEntry(EntryBytes(e) + tail) == Some((Raw(Encode(e.name), ModeText(e.mode), e.data), tail))
  {
    var p, m, d := FrameBytes(PATH_LABEL, Encode(e.name)), FrameBytes(MODE_LABEL, ModeText(e.mode)),
      FrameBytes(BYTES_LABEL, e.data);
    assert EntryBytes(e) + tail == p + (m + (d + tail));
    ModeTextFrameable(e.mode);
    FrameRoundTrip(PATH_LABEL, Encode(e.name), m + (d + tail));
    FrameRoundTrip(MODE_LABEL, ModeText(e.mode), d + tail);
    FrameRoundTrip(BYTES_LABEL, e.data, tail);
  }

  lemma ModeRoundTrip(mode: int)
    requires 0 <= mode < MODE_MASK
    ensures ModeOf(ModeText(mode)) == mode
  {
    var a, b := mode / 8, mode / 64;
    assert mode == 8 * a + mode % 8;
    assert a == 8 * b + a % 8 by { assert b == a / 8; }
    assert b == 8 * (mode / 512) + b % 8 by { assert mode / 512 == b / 8; }
    assert 0 <= mode / 512 < 8;
  }

  lemma {:induction false} EntriesRoundTrip(es: seq<Entry>)
    requires forall e :: e in es ==> EntryFrameable(e) && 0 <= e.mode < MODE_MASK
    ensures ReadEntries(EntriesBytes(es)).Some?
    ensures CookAll(ReadEntries(EntriesBytes(es)).value) == Some(es)
  {
    if es != [] {
      var e := es[0];
      EntryRoundTrip(e, EntriesBytes(es[1..]));
      EntriesRoundTrip(es[1..]);
      RoundTrip(e.name);
      ModeRoundTrip(e.mode);
      var rest := ReadEntries(EntriesBytes(es[1..])).value;
      var raw := Raw(Encode(e.name), ModeText(e.mode), e.data);
      assert ReadEntries(EntriesBytes(es)) == Some([raw] + rest);
      assert ([raw] + rest)[1..] == rest;
      assert es == [e] + es[1..];
    }
  }

  lemma StreamRoundTrip(es: seq<Entry>)
    requires forall e :: e in es ==> EntryFrameable(e) && 0 <= e.mode < MODE_MASK
    ensures DecodeStream(Stream(es)) == Some(es)
  {
    hide EntriesBytes, ReadEntries, CookAll, EntryFrameable, ReadFrame, FrameBytes, Frameable;
    AlgorithmFrameable();
    FrameRoundTrip(ALGORITHM_LABEL, ALGORITHM_BYTES, EntriesBytes(es));
    EntriesRoundTrip(es);
  }

  // The decoder inverts the stream: nothing about the normalized payload is lost in it.
  lemma DecodeInvertsDigest(entries: seq<Entry>)
    requires Digest(entries).Ok?
    ensures DecodeStream(Digest(entries).value) == Some(SortBy(Kept(entries), ByName))
  {
    hide Digest, Stream, DecodeStream, SortBy, Kept, EntryFrameable, SafeName;
    AcceptedExact(entries);
    SameMembers(SortBy(Kept(entries), ByName), Kept(entries));
    StreamRoundTrip(SortBy(Kept(entries), ByName));
  }

  // ---- the theorems ----

  // The labels and the algorithm name, as the characters they stand for.
  lemma LabelsSpelled()
    ensures Spells(ALGORITHM_LABEL, "algorithm\0") && Spells(PATH_LABEL, "path\0")
    ensures Spells(MODE_LABEL, "mode\0") && Spells(BYTES_LABEL, "bytes\0")
    ensures Spells(ALGORITHM_BYTES, "otast-runtime-v1") && PROVENANCE == "release.properties"
  {}

  predicate Spells(bytes: seq<Byte>, text: string) {
    |bytes| == |text| && forall i :: 0 <= i < |text| ==> bytes[i] == text[i] as int
  }

  // The set the digest identifies: (name, bytes, mode & 0o7777) without release.properties.
  ghost function Payload(entries: seq<Entry>): set<Entry> {
    set e | e in entries && e.name != PROVENANCE :: Normal(e)
  }

  lemma {:induction false} KeptIsPayload(entries: seq<Entry>, x: Entry)
    ensures x in Kept(entries) <==> x in Payload(entries)
  {
    if entries != [] {
      assert entries == [entries[0]] + entries[1..];
      KeptIsPayload(entries[1..], x);
    }
  }

  lemma {:induction false} KeptNamesUnique(es: seq<Entry>, x: Entry, y: Entry)
    requires DistinctNames(es)
    requires x in es && y in es
    ensures x.name == y.name ==> x == y
  {
    var i :| 0 <= i < |es| && es[i] == x;
    var j :| 0 <= j < |es| && es[j] == y;
    assert i < j || j < i || i == j;
  }

  lemma ByNameIsTotalPreorder()
    ensures TotalPreorder(ByName)
  {
    LeqIsTotalPreorder();
    forall x, y ensures ByName(x, y) || ByName(y, x) { LeqTotal(x.name, y.name); }
    forall x, y, z | ByName(x, y) && ByName(y, z) ensures ByName(x, z) { LeqTransitive(x.name, y.name, z.name); }
  }

  // Sorting forgets the order: rearranged payloads of distinct names sort to one list.
  lemma SortIgnoresOrder(a: seq<Entry>, b: seq<Entry>)
    requires multiset(a) == multiset(b)
    requires DistinctNames(a)
    ensures SortBy(a, ByName) == SortBy(b, ByName)
  {
    ByNameIsTotalPreorder();
    SortBySorts(a, ByName);
    SortBySorts(b, ByName);
    var sa := SortBy(a, ByName);
    SameMembers(sa, a);
    forall x, y | x in sa && y in sa && ByName(x, y) && ByName(y, x) ensures x == y {
      LeqAntisymmetric(x.name, y.name);
      KeptNamesUnique(a, x, y);
    }
    SortedUnique(sa, SortBy(b, ByName), ByName);
  }

  // Names strictly ascend.
  ghost predicate Ascending(es: seq<Entry>) {
    forall i, j :: 0 <= i < j < |es| ==> Leq(es[i].name, es[j].name) && es[i].name != es[j].name
  }

  lemma SortedAscends(es: seq<Entry>)
    ensures DistinctNames(es) ==> Ascending(SortBy(es, ByName))
    ensures forall i, j :: 0 <= i < j < |es| ==> Leq(SortBy(es, ByName)[i].name, SortBy(es, ByName)[j].name)
  {
    hide SortBy, Leq;
    ByNameIsTotalPreorder();
    SortBySorts(es, ByName);
    if DistinctNames(es) { NamesDistinctByMultiset(es, SortBy(es, ByName)); }
  }

  // What the hash takes, read back: every member of the payload, once, in strictly ascending
  // order of names, and nothing else.
  lemma DigestOrder(entries: seq<Entry>)
    requires Digest(entries).Ok?
    ensures DecodeStream(Digest(entries).value).Some?
    ensures var es := DecodeStream(Digest(entries).value).value;
      (forall e :: e in es <==> e in Payload(entries)) && Ascending(es)
  {
    hide Digest, DecodeStream, SortBy, Kept, Payload, Ascending, SafeName, EntryFrameable;
    AcceptedExact(entries);
    DecodeInvertsDigest(entries);
    var es := SortBy(Kept(entries), ByName);
    SameMembers(es, Kept(entries));
    SortedAscends(Kept(entries));
    forall e ensures e in es <==> e in Payload(entries) { KeptIsPayload(entries, e); }
  }

  lemma DistinctNamesDistinct(es: seq<Entry>)
    requires DistinctNames(es)
    ensures Distinct(es)
  {}

  // Unique decodability and order independence together: two accepted lists feed the hash the
  // same bytes exactly when they carry the same payload.
  lemma StreamIdentifiesPayload(a: seq<Entry>, b: seq<Entry>)
    requires Digest(a).Ok? && Digest(b).Ok?
    ensures Digest(a) == Digest(b) <==> Payload(a) == Payload(b)
  {
    hide Digest, DecodeStream, SortBy, SafeName, EntryFrameable, Kept, Stream, DistinctNames, Distinct;
    AcceptedExact(a);
    AcceptedExact(b);
    var ka, kb := Kept(a), Kept(b);
    forall x ensures (x in ka <==> x in Payload(a)) && (x in kb <==> x in Payload(b)) {
      KeptIsPayload(a, x);
      KeptIsPayload(b, x);
    }
    if Digest(a) == Digest(b) {
      DecodeInvertsDigest(a);
      DecodeInvertsDigest(b);
      SameMembers(SortBy(ka, ByName), ka);
      SameMembers(SortBy(kb, ByName), kb);
      assert Payload(a) == Payload(b);
    }
    if Payload(a) == Payload(b) {
      DistinctNamesDistinct(ka);
      DistinctNamesDistinct(kb);
      DistinctSameSet(ka, kb);
      SortIgnoresOrder(ka, kb);
    }
  }

  lemma NamesDistinctByMultiset(a: seq<Entry>, b: seq<Entry>)
    requires multiset(a) == multiset(b)
    requires DistinctNames(a)
    ensures DistinctNames(b)
  {
    SameMembers(a, b);
    DistinctNamesDistinct(a);
    forall x ensures multiset(b)[x] <= 1 { DistinctCount(a, x); }
    CountMakesDistinct(b);
    forall i, j | 0 <= i < j < |b| ensures b[i].name != b[j].name {
      assert b[i] in b && b[j] in b && b[i] != b[j];
      KeptNamesUnique(a, b[i], b[j]);
    }
  }

  // Neither acceptance nor the stream depends on the order of the members or on the content,
  // mode or number of release.properties members.
  lemma DigestIgnoresOrderAndProvenance(a: seq<Entry>, b: seq<Entry>)
    requires multiset(Kept(a)) == multiset(Kept(b))
    ensures Digest(a).Ok? <==> Digest(b).Ok?
    ensures Digest(a).Ok? ==> Digest(a) == Digest(b)
  {
    hide Digest, SortBy, SafeName, EntryFrameable, Kept, Stream, DistinctNames;
    AcceptedExact(a);
    AcceptedExact(b);
    var ka, kb := Kept(a), Kept(b);
    SameMembers(ka, kb);
    assert |ka| == |multiset(ka)| == |multiset(kb)| == |kb|;
    if Accepted(a) {
      NamesDistinctByMultiset(ka, kb);
      SortIgnoresOrder(ka, kb);
    }
    if Accepted(b) {
      NamesDistinctByMultiset(kb, ka);
    }
  }

  // Modes are cut to twelve bits and written as four octal digits.
  lemma ModeSpelled(e: Entry)
    ensures Normal(e) == Entry(e.name, e.data, e.mode % 4096)
    ensures Spells(ModeText(493), "0755") && Spells(ModeText(420), "0644") && Spells(ModeText(2541), "4755")
  {}
}
