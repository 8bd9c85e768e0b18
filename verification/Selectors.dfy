// The two release selectors: one over hosted release data (scripts/select-release-candidate.py),
// one behind the command line (tools/otastctl/release.py and the adapter in tools/otastctl/cli.py).
module Selectors {
  import opened Results
  import opened Lists
  import opened Ordering
  import Version
  import Whitespace

  // The "draft" value of a release: a boolean, a number equal to one, or anything else.
  datatype Draft = Flag(value: bool) | Number(one: bool) | OtherDraft

  // `tag` is absent unless it is a string, `assets` unless it is a list; an asset is absent
  // unless it is an object whose name is a string.
  datatype Release = Release(tag: Option<string>, draft: Draft, assets: Option<seq<Option<string>>>, target: string)

  // Decoded release data: objects, and lists of further items where pages were kept apart.
  datatype Item = NotAnObject | Object(release: Release) | Page(items: seq<Item>)

  datatype ReleaseData = NotAList | Items(items: seq<Item>)

  datatype SelectError =
    | InvalidVersion(version: string)
    | NotAnArray
    | NotObjects
    | PreparedUnproven(versions: seq<string>)
    | NoCandidate
    | MultipleEligible(versions: seq<string>)

  datatype Candidate = Candidate(version: string, prerelease: bool, proofPresent: bool, draft: bool, target: string)

  datatype Draught = Draught(version: string, prerelease: bool)

  // ---- What the two share

  function AssetNames(r: Release): set<string> {
    if r.assets.None? then {} else set a | a in r.assets.value && a.Some? :: a.value
  }

  function ProofName(version: string): string { "otast-" + version + "-device-proof.json" }

  function BaseAssets(version: string): set<string> {
    {Version.ZipName(version), Version.ZipName(version) + ".sha256", "release-manifest.json"}
  }

  predicate Tagged(r: Release) { r.tag.Some? && Version.Valid(r.tag.value) }

  predicate Complete(r: Release) { Tagged(r) && BaseAssets(r.tag.value) <= AssetNames(r) }

  predicate HasProof(r: Release) { Tagged(r) && ProofName(r.tag.value) in AssetNames(r) }

  function Tags(releases: seq<Release>): seq<string> {
    seq(|releases|, i requires 0 <= i < |releases| => if releases[i].tag.Some? then releases[i].tag.value else "None")
  }

  function SortedTags(releases: seq<Release>): seq<string> { SortBy(Tags(releases), Leq) }

  // ---- The selector over hosted release data

  function ReleasesIn(items: seq<Item>): Result<seq<Release>, SelectError> {
    if items == [] then Ok([])
    else if !items[0].Object? then Err(NotObjects)
    else
      var rest := ReleasesIn(items[1..]);
      if rest.Err? then rest else Ok([items[0].release] + rest.value)
  }

  function Concatenated(pages: seq<Item>): seq<Item>
    requires forall p :: p in pages ==> p.Page?
  {
    if pages == [] then [] else
      assert pages[0] in pages;
      pages[0].items + Concatenated(pages[1..])
  }

  function Flatten(data: ReleaseData): Result<seq<Release>, SelectError> {
    if data.NotAList? then Err(NotAnArray)
    else if data.items != [] && forall p :: p in data.items ==> p.Page? then ReleasesIn(Concatenated(data.items))
    else ReleasesIn(data.items)
  }

  // Releases considered for the request: the one asked for, or every draft.
  predicate Considered(r: Release, requested: string) {
    Tagged(r) && if requested != "" then r.tag.value == requested && !r.draft.OtherDraft? else r.draft == Flag(true)
  }

  predicate Eligible(r: Release, requested: string, requireProof: bool) {
    Considered(r, requested) && Complete(r) && (requireProof ==> HasProof(r))
  }

  predicate Unproven(r: Release, requested: string, requireProof: bool) {
    Considered(r, requested) && Complete(r) && requireProof && !HasProof(r)
  }

  function Describe(r: Release): Candidate
    requires Tagged(r)
  {
    Candidate(r.tag.value, Version.IsPrerelease(r.tag.value), HasProof(r), r.draft == Flag(true)
      || r.draft == Number(true), r.target)
  }

  function Outcome(eligible: seq<Release>, unproven: seq<Release>, requested: string): (o: Result<Release, SelectError>)
    ensures o.Ok? ==> eligible == [o.value]
  {
    if |eligible| == 1 then Ok(eligible[0])
    else if requested != "" then
      Err(if unproven != [] then PreparedUnproven([requested]) else NoCandidate)
    else if eligible != [] then Err(MultipleEligible(SortedTags(eligible)))
    else Err(if unproven != [] then PreparedUnproven(SortedTags(unproven)) else NoCandidate)
  }

  // The selection on a flattened list.
  function Selection(releases: seq<Release>, requested: string, requireProof: bool): Result<Candidate, SelectError> {
    var o := Outcome(Filter(releases, r => Eligible(r, requested, requireProof)),
                     Filter(releases, r => Unproven(r, requested, requireProof)), requested);
    if o.Err? then Err(o.error) else
      FirstKept(releases, r => Eligible(r, requested, requireProof));
      Ok(Describe(o.value))
  }

  function Selected(data: ReleaseData, requestedVersion: string, requireProof: bool): Result<Candidate, SelectError> {
    var requested := Whitespace.Strip(requestedVersion);
    if requested != "" && !Version.Valid(requested) then Err(InvalidVersion(requested)) else
    var flat := Flatten(data);
    if flat.Err? then Err(flat.error) else Selection(flat.value, requested, requireProof)
  }

  method SelectCandidate(data: ReleaseData, requestedVersion: string,
                         requireProof: bool) returns (c: Result<Candidate, SelectError>)
    ensures c == Selected(data, requestedVersion, requireProof)
  {
    hide Filter, SortedTags, Describe, Complete, HasProof, Flatten, Version.Valid, Whitespace.Strip;
    var requested := Whitespace.Strip(requestedVersion);
    if requested != "" && !Version.Valid(requested) { return Err(InvalidVersion(requested)); }
    var flat := Flatten(data);
    if flat.Err? { return Err(flat.error); }
    var releases := flat.value;
    ghost var fits := r => Eligible(r, requested, requireProof);
    ghost var lacks := r => Unproven(r, requested, requireProof);
    var eligible: seq<Release> := [];
    var unproven: seq<Release> := [];
    FilterNone(releases[..0], fits);
    FilterNone(releases[..0], lacks);
    var i := 0;
    while i < |releases|
      invariant 0 <= i <= |releases|
      invariant eligible == Filter(releases[..i], fits)
      invariant unproven == Filter(releases[..i], lacks)
    {
      var r := releases[i];
      FilterPrefix(releases, i, fits);
      FilterPrefix(releases, i, lacks);
      i := i + 1;
      if !Tagged(r) { continue; }
      if requested != "" {
        if r.tag.value != requested || r.draft.OtherDraft? { continue; }
      } else if r.draft != Flag(true) {
        continue;
      }
      if !Complete(r) { continue; }
      if requireProof && !HasProof(r) {
        unproven := unproven + [r];
        continue;
      }
      eligible := eligible + [r];
    }
    assert releases[..i] == releases;
    if requested != "" {
      if |eligible| != 1 {
        return Err(if unproven != [] then PreparedUnproven([requested]) else NoCandidate);
      }
    } else {
      if eligible == [] {
        return Err(if unproven != [] then PreparedUnproven(SortedTags(unproven)) else NoCandidate);
      }
      if |eligible| != 1 { return Err(MultipleEligible(SortedTags(eligible))); }
    }
    FirstKept(releases, fits);
    c := Ok(Describe(eligible[0]));
  }

  // ---- The selector behind the command line

  // The release asked for counts as a draft even when it is published.
  function AsDraft(r: Release, requested: string): Release {
    if requested != "" && r.tag == Some(requested) && r.draft == Flag(false) then r.(draft := Flag(true)) else r
  }

  function Normalised(releases: seq<Release>, requested: string): seq<Release> {
    seq(|releases|, i requires 0 <= i < |releases| => AsDraft(releases[i], requested))
  }

  method SelectReleaseInput(releases: seq<Release>, requested: string) returns (normalised: seq<Release>)
    ensures normalised == Normalised(releases, requested)
  {
    if requested == "" {
      assert Normalised(releases, requested) == releases;
      return releases;
    }
    normalised := [];
    var i := 0;
    while i < |releases|
      invariant 0 <= i <= |releases|
      invariant normalised == Normalised(releases, requested)[..i]
    {
      var r := releases[i];
      if r.tag == Some(requested) && r.draft == Flag(false) {
        r := r.(draft := Flag(true));
      }
      normalised := normalised + [r];
      i := i + 1;
    }
  }

  predicate ProvenDraft(r: Release) {
    r.draft == Flag(true) && Tagged(r) && BaseAssets(r.tag.value) + {ProofName(r.tag.value)} <= AssetNames(r)
  }

  predicate ProvenFor(r: Release, requested: string) {
    ProvenDraft(r) && (requested != "" ==> r.tag.value == requested)
  }

  // The eligible drafts, narrowed to the requested version where one is asked for.
  function Matches(releases: seq<Release>, requested: string): seq<Release> {
    if requested == "" then Filter(releases, ProvenDraft)
    else Filter(Filter(releases, ProvenDraft), (r: Release) => r.tag == Some(requested))
  }

  function Proven(releases: seq<Release>, requestedVersion: string): Result<Draught, SelectError> {
    var requested := Whitespace.Strip(requestedVersion);
    if requested != "" && !Version.Valid(requested) then Err(InvalidVersion(requested)) else
    var found := Matches(releases, requested);
    if |found| == 1 then
      MatchesExact(releases, requested);
      FirstKept(releases, r => ProvenFor(r, requested));
      Ok(Draught(found[0].tag.value, Version.IsPrerelease(found[0].tag.value)))
    else if requested != "" || found == [] then Err(NoCandidate)
    else Err(MultipleEligible(SortedTags(found)))
  }

  lemma MatchesExact(releases: seq<Release>, requested: string)
    ensures Matches(releases, requested) == Filter(releases, r => ProvenFor(r, requested))
  {
    hide Filter, ProvenDraft;
    if requested == "" {
      FilterSame(releases, ProvenDraft, r => ProvenFor(r, requested));
    } else {
      ProvenAreTagged();
      FilterTwice(releases, ProvenDraft, (r: Release) => r.tag == Some(requested), r => ProvenFor(r, requested));
    }
  }

  lemma ProvenAreTagged()
    ensures forall r :: ProvenDraft(r) ==> r.tag.Some?
  {}

  method SelectProvenDraft(releases: seq<Release>, requestedVersion: string) returns (d: Result<Draught, SelectError>)
    ensures d == Proven(releases, requestedVersion)
  {
    hide Filter, SortedTags, ProvenDraft;
    var eligible: seq<Release> := [];
    FilterNone(releases[..0], ProvenDraft);
    var i := 0;
    while i < |releases|
      invariant 0 <= i <= |releases|
      invariant eligible == Filter(releases[..i], ProvenDraft)
    {
      FilterPrefix(releases, i, ProvenDraft);
      if ProvenDraft(releases[i]) {
        eligible := eligible + [releases[i]];
      }
      i := i + 1;
    }
    assert releases[..i] == releases;
    var requested := Whitespace.Strip(requestedVersion);
    MatchesExact(releases, requested);
    var chosen: Release;
    if requested != "" {
      if !Version.Valid(requested) { return Err(InvalidVersion(requested)); }
      var matches := Filter(eligible, (r: Release) => r.tag == Some(requested));
      if |matches| != 1 { return Err(NoCandidate); }
      chosen := matches[0];
    } else {
      if eligible == [] { return Err(NoCandidate); }
      if |eligible| != 1 { return Err(MultipleEligible(SortedTags(eligible))); }
      chosen := eligible[0];
    }
    FirstKept(releases, r => ProvenFor(r, requested));
    ProvenIsTagged(chosen, requested);
    d := Ok(Draught(chosen.tag.value, Version.IsPrerelease(chosen.tag.value)));
  }

  lemma ProvenIsTagged(r: Release, requested: string)
    requires ProvenFor(r, requested)
    ensures Tagged(r)
  {}

  // ---- What a selection means

  // Release `i` qualifies, and no other one does.
  ghost predicate OnlyEligible(releases: seq<Release>, requested: string, requireProof: bool, i: nat) {
    && i < |releases| && Eligible(releases[i], requested, requireProof)
    && forall j :: 0 <= j < |releases| && j != i ==> !Eligible(releases[j], requested, requireProof)
  }

  predicate HasAsset(r: Release, name: string) { r.assets.Some? && Some(name) in r.assets.value }

  // A module ZIP, its checksum and the manifest are attached under their names.
  predicate HasBundle(r: Release, version: string) {
    && HasAsset(r, "otast-" + version + ".zip") && HasAsset(r, "otast-" + version + ".zip.sha256")
    && HasAsset(r, "release-manifest.json")
  }

  lemma AssetsExact(r: Release, name: string)
    ensures name in AssetNames(r) <==> HasAsset(r, name)
  {}

  lemma BundleExact(r: Release, version: string)
    ensures BaseAssets(version) <= AssetNames(r) <==> HasBundle(r, version)
    ensures ProofName(version) in AssetNames(r) <==> HasAsset(r, "otast-" + version + "-device-proof.json")
  {
    hide AssetNames, HasAsset;
    AssetsExact(r, "otast-" + version + ".zip");
    AssetsExact(r, "otast-" + version + ".zip.sha256");
    AssetsExact(r, "release-manifest.json");
    AssetsExact(r, "otast-" + version + "-device-proof.json");
    assert "otast-" + version + ".zip" + ".sha256" == "otast-" + version + ".zip.sha256";
  }

  // Which releases qualify for a request.
  lemma EligibleExact(r: Release, requested: string, requireProof: bool)
    ensures Eligible(r, requested, requireProof) <==>
      && r.tag.Some? && Version.Valid(r.tag.value)
      && (if requested == "" then r.draft == Flag(true) else r.tag.value == requested && !r.draft.OtherDraft?)
      && HasBundle(r, r.tag.value)
      && (requireProof ==> HasAsset(r, "otast-" + r.tag.value + "-device-proof.json"))
  {
    hide AssetNames, HasAsset, HasBundle, Version.Valid, BaseAssets, ProofName;
    if r.tag.Some? { BundleExact(r, r.tag.value); }
  }

  // Which drafts the command line takes for proven.
  lemma ProvenExact(r: Release, requested: string)
    ensures ProvenFor(r, requested) <==>
      && r.draft == Flag(true) && r.tag.Some? && Version.Valid(r.tag.value)
      && (requested != "" ==> r.tag.value == requested)
      && HasBundle(r, r.tag.value) && HasAsset(r, "otast-" + r.tag.value + "-device-proof.json")
  {
    hide AssetNames, HasAsset, HasBundle, Version.Valid, BaseAssets, ProofName;
    if r.tag.Some? { BundleExact(r, r.tag.value); }
  }

  // What a candidate says about the release it was made from.
  predicate Describes(c: Candidate, r: Release) {
    && r.tag == Some(c.version) && c.target == r.target
    && (c.prerelease <==> '-' in c.version)
    && (c.draft <==> r.draft == Flag(true) || r.draft == Number(true))
    && (c.proofPresent <==> HasAsset(r, "otast-" + c.version + "-device-proof.json"))
  }

  lemma DescribeExact(r: Release)
    requires Tagged(r)
    ensures Describes(Describe(r), r)
  {
    hide AssetNames, HasAsset, HasBundle, Version.Valid, BaseAssets, ProofName, Version.IsPrerelease;
    BundleExact(r, r.tag.value);
    Version.PrereleaseExact(r.tag.value);
  }

  // A selection succeeds exactly when one release qualifies, and describes that one.
  lemma SelectionExact(releases: seq<Release>, requested: string, requireProof: bool)
    ensures Selection(releases, requested, requireProof).Ok? <==>
      exists i: nat :: OnlyEligible(releases, requested, requireProof, i)
    ensures forall i: nat :: OnlyEligible(releases, requested, requireProof, i) ==>
      && Selection(releases, requested, requireProof).Ok?
      && Describes(Selection(releases, requested, requireProof).value, releases[i])
  {
    hide Eligible, Unproven, Describe, Describes, Tagged, Filter;
    var fits := r => Eligible(r, requested, requireProof);
    FilterOne(releases, fits);
    EligibleIsTagged(requested, requireProof);
    forall i: nat | OnlyEligible(releases, requested, requireProof, i)
      ensures OnlyAt(releases, fits, i) && Selection(releases, requested, requireProof) == Ok(Describe(releases[i]))
      ensures Describes(Describe(releases[i]), releases[i]) {
      FilterOneAt(releases, fits, i);
      DescribeExact(releases[i]);
    }
    forall i: nat | OnlyAt(releases, fits, i) ensures OnlyEligible(releases, requested, requireProof, i) {}
  }

  // The release would qualify, were its proof there.
  predicate LacksProof(r: Release, requested: string) {
    && Eligible(r, requested, false) && !HasAsset(r, "otast-" + r.tag.value + "-device-proof.json")
  }

  lemma LacksExact(r: Release, requested: string, requireProof: bool)
    ensures Unproven(r, requested, requireProof) <==> requireProof && LacksProof(r, requested)
  {
    hide AssetNames, HasAsset, BaseAssets, ProofName, Version.Valid;
    if r.tag.Some? { BundleExact(r, r.tag.value); }
  }

  ghost predicate SomeEligible(releases: seq<Release>, requested: string, requireProof: bool) {
    exists i :: 0 <= i < |releases| && Eligible(releases[i], requested, requireProof)
  }

  ghost predicate SomeLackProof(releases: seq<Release>, requested: string) {
    exists i :: 0 <= i < |releases| && LacksProof(releases[i], requested)
  }

  // How a selection fails. Several qualify: without a request that is said; with one, or where
  // none qualifies, a release that lacks nothing but its proof is named, if there is one.
  lemma RefusalExact(releases: seq<Release>, requested: string, requireProof: bool)
    requires Selection(releases, requested, requireProof).Err?
    ensures var error := Selection(releases, requested, requireProof).error;
      if requested == "" && SomeEligible(releases, requested, requireProof) then error.MultipleEligible?
      else if requireProof && SomeLackProof(releases, requested) then
        error.PreparedUnproven? && (requested != "" ==> error.versions == [requested])
      else error == NoCandidate
  {
    hide Eligible, Unproven, Describe, Filter, SortedTags, LacksProof;
    FilterNone(releases, r => Eligible(r, requested, requireProof));
    FilterNone(releases, r => Unproven(r, requested, requireProof));
    forall r ensures Unproven(r, requested, requireProof) <==> requireProof && LacksProof(r, requested) {
      LacksExact(r, requested, requireProof);
    }
  }

  ghost predicate SomeProven(releases: seq<Release>, requested: string) {
    exists i :: 0 <= i < |releases| && ProvenFor(releases[i], requested)
  }

  // How the command line refuses: a bad version, several proven drafts without a request, or no
  // draft it could take.
  lemma ProvenRefusalExact(releases: seq<Release>, requestedVersion: string)
    requires Proven(releases, requestedVersion).Err?
    ensures var requested, error := Whitespace.Strip(requestedVersion), Proven(releases, requestedVersion).error;
      if requested != "" && !Version.Valid(requested) then error == InvalidVersion(requested)
      else if requested == "" && SomeProven(releases, requested) then error.MultipleEligible?
      else error == NoCandidate
  {
    hide ProvenFor, Filter, SortedTags, Matches, Version.Valid, Whitespace.Strip;
    var requested := Whitespace.Strip(requestedVersion);
    MatchesExact(releases, requested);
    FilterNone(releases, r => ProvenFor(r, requested));
  }

  // The versions an error names: those of the releases in question, in ascending order.
  lemma SortedTagsExact(releases: seq<Release>)
    requires forall r :: r in releases ==> Tagged(r)
    ensures |SortedTags(releases)| == |releases|
    ensures forall i, j :: 0 <= i < j < |releases| ==> Leq(SortedTags(releases)[i], SortedTags(releases)[j])
    ensures forall v :: v in SortedTags(releases) <==> exists r :: r in releases && r.tag == Some(v)
  {
    hide Leq, Version.Valid;
    LeqIsTotalPreorder();
    SortBySorts(Tags(releases), Leq);
    SameMembers(SortedTags(releases), Tags(releases));
    forall v ensures v in Tags(releases) <==> exists r :: r in releases && r.tag == Some(v) {
      if r :| r in releases && r.tag == Some(v) {
        var i :| 0 <= i < |releases| && releases[i] == r;
        assert Tags(releases)[i] == v;
      }
      if v in Tags(releases) {
        var i :| 0 <= i < |releases| && Tags(releases)[i] == v;
        assert releases[i] in releases;
      }
    }
  }

  lemma EligibleIsTagged(requested: string, requireProof: bool)
    ensures forall r :: Eligible(r, requested, requireProof) ==> Tagged(r)
  {}

  function Objects(releases: seq<Release>): (items: seq<Item>)
    ensures |items| == |releases|
  {
    if releases == [] then [] else [Object(releases[0])] + Objects(releases[1..])
  }

  lemma {:induction false} ReleasesInObjects(releases: seq<Release>)
    ensures ReleasesIn(Objects(releases)) == Ok(releases)
  {
    if releases != [] {
      ReleasesInObjects(releases[1..]);
      assert Objects(releases)[0] == Object(releases[0]) && Objects(releases)[1..] == Objects(releases[1..]);
      assert [releases[0]] + releases[1..] == releases;
    }
  }

  // A flat array of objects is taken as it is.
  lemma FlatIsKept(releases: seq<Release>)
    ensures Flatten(Items(Objects(releases))) == Ok(releases)
  {
    hide ReleasesIn, Concatenated;
    ReleasesInObjects(releases);
    if releases != [] {
      var items := Objects(releases);
      assert items[0] in items && items[0].Object?;
    }
  }

  function PagesOf(pages: seq<seq<Release>>): (items: seq<Item>)
    ensures |items| == |pages| && forall i :: i in items ==> i.Page?
  {
    if pages == [] then [] else [Page(Objects(pages[0]))] + PagesOf(pages[1..])
  }

  function AllOf(pages: seq<seq<Release>>): seq<Release> {
    if pages == [] then [] else pages[0] + AllOf(pages[1..])
  }

  lemma {:induction false} PagesConcatenate(pages: seq<seq<Release>>)
    ensures Concatenated(PagesOf(pages)) == Objects(AllOf(pages))
  {
    if pages != [] {
      hide Objects;
      PagesConcatenate(pages[1..]);
      ObjectsConcat(pages[0], AllOf(pages[1..]));
      assert PagesOf(pages)[1..] == PagesOf(pages[1..]);
    }
  }

  // One array per page, for any number of pages, holds the same releases as the flat array.
  lemma PagesAreJoined(pages: seq<seq<Release>>)
    ensures Flatten(Items(PagesOf(pages))) == Flatten(Items(Objects(AllOf(pages)))) == Ok(AllOf(pages))
  {
    hide ReleasesIn, Objects, Concatenated, PagesOf, AllOf;
    FlatIsKept(AllOf(pages));
    ReleasesInObjects(AllOf(pages));
    PagesConcatenate(pages);
    if pages == [] { NoPages(); }
  }

  lemma NoPages()
    ensures PagesOf([]) == [] && AllOf([]) == [] && ReleasesIn([]) == Ok([])
  {}

  lemma {:induction false} ObjectsConcat(first: seq<Release>, second: seq<Release>)
    ensures Objects(first + second) == Objects(first) + Objects(second)
  {
    if first == [] {
      assert first + second == second;
    } else {
      assert (first + second)[1..] == first[1..] + second;
      ObjectsConcat(first[1..], second);
    }
  }

  // ---- The two selectors agree

  predicate Numbered(r: Release, requested: string) { r.draft.Number? && Eligible(r, requested, true) }

  // One release seen by both: eligible here means proven there, except where the draft value is
  // a number, which only the first selector takes for a boolean.
  lemma SameRelease(r: Release, requested: string)
    ensures requested == "" ==>
      AsDraft(r, requested) == r && (Eligible(r, requested, true) <==> ProvenFor(r, requested))
    ensures requested != "" ==>
      && !(ProvenFor(AsDraft(r, requested), requested) && Numbered(r, requested))
      && (Eligible(r, requested, true) <==> ProvenFor(AsDraft(r, requested), requested) || Numbered(r, requested))
  {
    hide Version.ZipName, ProofName, Version.Valid;
  }

  lemma {:induction false} CountBoth(releases: seq<Release>, requested: string)
    requires requested != ""
    ensures |Filter(releases, r => Eligible(r, requested, true))|
      == |Filter(Normalised(releases, requested), r => ProvenFor(r, requested))|
        + |Filter(releases, r => Numbered(r, requested))|
  {
    hide Eligible, ProvenFor, Numbered, AsDraft;
    if releases != [] {
      assert Normalised(releases, requested)[1..] == Normalised(releases[1..], requested);
      CountBoth(releases[1..], requested);
      SameRelease(releases[0], requested);
    }
  }

  lemma SameDrafts(releases: seq<Release>)
    ensures Normalised(releases, "") == releases
    ensures Matches(releases, "") == Filter(releases, r => Eligible(r, "", true))
  {
    hide ProvenDraft, Eligible;
    forall r ensures Eligible(r, "", true) <==> ProvenDraft(r) { SameRelease(r, ""); }
    FilterSame(releases, ProvenDraft, r => Eligible(r, "", true));
  }

  // Both selectors on one list and one request.
  ghost predicate Agree(releases: seq<Release>, requestedVersion: string) {
    var hosted := Selected(Items(Objects(releases)), requestedVersion, true);
    var local := Proven(Normalised(releases, Whitespace.Strip(requestedVersion)), requestedVersion);
    && (hosted.Ok? <==> local.Ok?)
    && (hosted.Ok? ==> local.value == Draught(hosted.value.version, hosted.value.prerelease))
  }

  // With proof required, the selectors agree exactly when no numeric draft value tips the count.
  lemma SelectorsAgree(releases: seq<Release>, requestedVersion: string)
    ensures var requested := Whitespace.Strip(requestedVersion);
      Agree(releases, requestedVersion) <==>
        (requested == "" || !Version.Valid(requested) || NumbersAside(releases, requested))
  {
    hide Selection, Matches, NumbersAside, Normalised, Version.Valid, Version.IsPrerelease, Whitespace.Strip, Flatten;
    hide Objects;
    FlatIsKept(releases);
    var requested := Whitespace.Strip(requestedVersion);
    if requested == "" {
      AgreeOnDrafts(releases);
    } else if Version.Valid(requested) {
      AgreeOnRequest(releases, requested);
    }
  }

  // With boolean draft values (or none at all) they agree on every request.
  lemma BooleanDraftsAgree(releases: seq<Release>, requestedVersion: string)
    requires forall r :: r in releases ==> !r.draft.Number?
    ensures Agree(releases, requestedVersion)
  {
    hide Agree, Eligible;
    SelectorsAgree(releases, requestedVersion);
    var requested := Whitespace.Strip(requestedVersion);
    FilterNone(releases, r => Numbered(r, requested));
  }

  // A number as draft value: the first selector finds the release, the second does not.
  lemma NumericDraftDisagrees(version: string, r: Release)
    requires Version.Valid(version) && Whitespace.Strip(version) == version != ""
    requires r.tag == Some(version) && r.draft == Number(false) && Complete(r) && HasProof(r)
    ensures !Agree([r], version)
  {
    hide Agree, Complete, HasProof, Version.Valid, Whitespace.Strip;
    SelectorsAgree([r], version);
    assert Normalised([r], version) == [r];
    assert Filter([r], x => Numbered(x, version)) == [r] by { FilterOneAt([r], x => Numbered(x, version), 0); }
    FilterNone([r], x => ProvenFor(x, version));
  }

  lemma AgreeOnDrafts(releases: seq<Release>)
    ensures var hosted := Selection(releases, "", true);
      var found := Matches(Normalised(releases, ""), "");
      && (hosted.Ok? <==> |found| == 1)
      && (hosted.Ok? ==>
            found[0].tag == Some(hosted.value.version) && Tagged(found[0])
            && hosted.value.prerelease == Version.IsPrerelease(hosted.value.version))
  {
    hide Filter, Version.Valid, Version.IsPrerelease, Matches, Unproven;
    SameDrafts(releases);
    var fits := r => Eligible(r, "", true);
    if |Filter(releases, fits)| == 1 {
      FirstKept(releases, fits);
    }
  }

  lemma AgreeOnRequest(releases: seq<Release>, requested: string)
    requires requested != "" && Version.Valid(requested)
    ensures var hosted := Selection(releases, requested, true);
      var found := Matches(Normalised(releases, requested), requested);
      && ((hosted.Ok? <==> |found| == 1) <==> NumbersAside(releases, requested))
      && (hosted.Ok? ==>
           hosted.value.version == requested && hosted.value.prerelease == Version.IsPrerelease(requested))
      && (|found| == 1 ==> found[0].tag == Some(requested))
  {
    hide Filter, Eligible, Unproven, ProvenFor, Numbered, Normalised, Version.Valid, Version.IsPrerelease, Matches;
    hide Describe;
    CountBoth(releases, requested);
    HostedVersion(releases, requested);
    MatchesExact(Normalised(releases, requested), requested);
    LocalVersion(Normalised(releases, requested), requested);
  }

  // How many releases each selector sees: with a numeric draft value the first sees one more.
  ghost predicate NumbersAside(releases: seq<Release>, requested: string) {
    var numbered := |Filter(releases, r => Numbered(r, requested))|;
    var plain := |Filter(Normalised(releases, requested), r => ProvenFor(r, requested))|;
    numbered == 0 || (plain != 1 && plain + numbered != 1)
  }

  lemma HostedVersion(releases: seq<Release>, requested: string)
    requires requested != "" && Version.Valid(requested)
    ensures var c := Selection(releases, requested, true);
      c.Ok? ==> c.value.version == requested && c.value.prerelease == Version.IsPrerelease(requested)
  {
    hide Filter, Version.Valid, Version.IsPrerelease;
    var fits := r => Eligible(r, requested, true);
    var found := Filter(releases, fits);
    if |found| == 1 {
      FirstKept(releases, fits);
    }
  }

  lemma LocalVersion(releases: seq<Release>, requested: string)
    requires requested != "" && Version.Valid(requested)
    ensures |Matches(releases, requested)| == 1 ==> Matches(releases, requested)[0].tag == Some(requested)
  {
    hide Filter, ProvenDraft;
    var found := Matches(releases, requested);
    if found != [] {
      MatchesExact(releases, requested);
      FirstKept(releases, r => ProvenFor(r, requested));
      ProvenAreTagged();
    }
  }
}
