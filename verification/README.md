# OTAST host tooling: model and proofs

OTAST's host tooling decides, fail-closed, what is released, what is trusted and what is deleted.
This project models those decisions in Dafny and proves what they promise. One module stands for
one component:

| component | modules |
|---|---|
| runtime payload digest, as the byte stream fed to SHA-256 | `RuntimeDigest` |
| deterministic build, ZIP packing, release.properties | `ModuleBuild`, `BuildAgreement`, `BuildChecks`, `ModuleMetadata` |
| in-place edit of a JSON registry (RFC 8259) | `Json`, `Rendering`, `Grammar`, `ObjectScanner`, `HeadEdit`, `EditSuccess` |
| release identity as a state machine | `Version`, `Release`, `ReleaseRuns` |
| ELF program-header parser (System V ABI, chapters 4 and 5) | `Elf` |
| archive validation | `ArchiveCheck`, `ArchiveTree` |
| stage / previous / destination swap with rollback | `TreeSwap` |
| release-state reconciliation | `Reconcile`, `StateLoading`, `ReconcileRuns` |
| report retention | `Retention` |
| registry ownership | `Registry` |
| change impact and acceptance | `Impact` |
| root-exposure findings and their qualification | `Exposure` |
| the two release selectors | `Selectors` |
| tree difference and target monitor | `TreeDiff`, `Monitor` |
| shared: sorting, selecting, paths, text, bytes, UTF-8, numbers | `Ordering`, `Lists`, `PosixPath`, `TextLines`, `Strings`, `Whitespace`, `Properties`, `Decimal`, `Bytes`, `Utf8`, `Results` |

How to read it. Code that loops is a method with invariants, proved equal to a specification
function; objects that change (the hash, the repository, the file system, the state store, the
report directory) are classes. The theorems are lemmas about the specification functions, so they
hold of the methods. Exceptions raised on purpose are `Err` values. What the code takes from
outside is a parameter: the printed SHA-256 (`hex`, `digest`), the glob match, the heads GitHub
reports, the time stamp of an archive, and, for every file-system operation, whether it fails.

Where a stronger claim is false of the code, a lemma gives the input and another one the exact
condition:

- The neighbour check of archive members misses a file that is also a parent path when another
  name extends it by a character below `/`: `a`, `a.b`, `a/c` (`ShieldedClashIsAccepted`,
  `ValidateExact`).
- A complete 32-bit ELF file of fewer than 64 bytes is reported as no ELF file
  (`ShortImageIsNotElf`, `ShortElf32IsNotElf`; `RoundTrip` covers all others).
- A first matching pattern can lower the impact of a path, because an unmatched path counts as an
  unknown package (`FirstPatternMayLower`, `MorePatternsExact`).
- A target record that is not an object ends a monitor run without any row, unless the run is over
  before it is reached (`OddRecordEndsRun`, `ReportExact`).
- Publishing a bundle that was built before an older version was prepared breaks the version gate
  (`OlderBundleBreaksGate` with `OlderBundleExample`, `PublishExact`, `EarlierBundleExact`).
- With a number instead of a boolean as draft value, one release selector finds a release and the
  other does not (`NumericDraftDisagrees`, `SelectorsAgree`).

Smaller ones: the digest accepts the member name `.` (`SafeNameExact`), archive validation turns
names of `.` components into `.` (`NormalizedName`), and neither `struct.error` handler of the ELF
parser can be reached (`NoReadOutside`).

## Model

| member | source | states |
|---|---|---|
| RuntimeDigest.Frame | tools/otastctl/runtime_digest.py:18-21 | appends label, eight-byte big-endian length and value to the hash; a value of 2^64 bytes or more fails after its label was fed |
| RuntimeDigest.Normalize | tools/otastctl/runtime_digest.py:32-52 | the checking loop computes exactly the accepted, provenance-free, mode-masked list, or the first offence |
| RuntimeDigest.FeedEntry | tools/otastctl/runtime_digest.py:57-62 | feeds exactly one entry's three frames |
| RuntimeDigest.Feed | tools/otastctl/runtime_digest.py:57-62 | feeds the frames of all entries in order, and fails exactly when one is too long to frame |
| RuntimeDigest.DigestEntries | tools/otastctl/runtime_digest.py:24-63 | both loops together feed the specified stream or refuse with the specified error |
| RuntimeDigest.AcceptedExact | tools/otastctl/runtime_digest.py:32-55 | acceptance is exactly: non-empty payload, safe distinct names, frameable lengths; the stream is then that of the sorted payload |
| RuntimeDigest.SafeNameExact | tools/otastctl/runtime_digest.py:36-46 | safe names are those without backslash and with plain components, and the name "." |
| RuntimeDigest.FrameRoundTrip | tools/otastctl/runtime_digest.py:18-21 | reading a frame back from any longer stream gives the value and the untouched rest |
| RuntimeDigest.EntriesRoundTrip | tools/otastctl/runtime_digest.py:57-62 | a decoder recovers every list of entries from its frames |
| RuntimeDigest.DecodeInvertsDigest | tools/otastctl/runtime_digest.py:24-63 | a decoder recovers the whole sorted payload from the stream of any accepted list |
| RuntimeDigest.DigestOrder | tools/otastctl/runtime_digest.py:57-63 | read back, the stream of an accepted list holds every member of the payload once, in strictly ascending lexicographic order of names, and nothing else |
| RuntimeDigest.LabelsSpelled | tools/otastctl/runtime_digest.py:58-62 | the labels are "algorithm", "path", "mode" and "bytes", each closed by a zero byte, and the algorithm is "otast-runtime-v1" |
| RuntimeDigest.ModeSpelled | tools/otastctl/runtime_digest.py:52-61 | modes are cut to twelve bits and written as four octal digits: 0755, 0644, 4755 |
| Bytes.Mirrored | tools/otastctl/runtime_digest.py:18-21 | big-endian and little-endian numbers mirror each other, the least significant byte last in one and first in the other |
| RuntimeDigest.StreamIdentifiesPayload | tools/otastctl/runtime_digest.py:24-63 | two accepted lists feed the same stream if and only if they are the same set of (name, bytes, mode and 0o7777) without release.properties |
| RuntimeDigest.DigestIgnoresOrderAndProvenance | tools/otastctl/runtime_digest.py:32-63 | acceptance and stream do not depend on the order of members or on any release.properties member |
| ModuleBuild.RuntimePayloadEntries | tools/otastctl/build.py:67-79 | collects exactly the shipped files with their modes, in name order |
| ModuleBuild.ModeSurvivesPacking | tools/otastctl/build.py:149-155 | a mode packed as (S_IFREG or mode) << 16 is unpacked unchanged, and its permission bits with it |
| ModuleBuild.WriteZip | tools/otastctl/build.py:149-155 | writes one member per entry, in name order, with packed modes |
| ModuleBuild.RuntimeDigestFromZip | tools/otastctl/runtime_digest.py:66-85 | computes the digest of the members read back, refusing duplicates and skipping directories |
| ModuleBuild.CheckMembers | tools/otastctl/build.py:177-187 | reports the first offending member, or none |
| ModuleBuild.FinishBuild | tools/otastctl/build.py:157-161 | accepts a written ZIP exactly as the specification of validation and digest comparison does |
| ModuleBuild.BuildModule | tools/otastctl/build.py:121-161 | the build returns the specified ZIP or the specified error |
| BuildAgreement.ReadPacked | tools/otastctl/runtime_digest.py:66-85 | reading back a written ZIP of distinct file names gives the entries that were packed |
| BuildAgreement.SortedListSameDigest | tools/otastctl/build.py:132-147 | adding release.properties of any content and sorting leaves the digest of the source list |
| BuildAgreement.ZipDigestAgrees | tools/otastctl/build.py:132-159 | the written ZIP digests to the stream of the source payload |
| BuildAgreement.ReleaseReadsBack | tools/otastctl/build.py:135-146 | release.properties parses back to exactly ten fields, each input under its own key |
| BuildAgreement.ReleaseValidates | tools/otastctl/build.py:100-118 | the written properties pass their own validation exactly when both registry schema numbers are positive |
| BuildAgreement.ArchiveMembersOk | tools/otastctl/build.py:177-187 | the member checks accept the written archive exactly when every file fits the size limit |
| BuildAgreement.IdentityExact | tools/otastctl/build.py:188-198 | identity and digest checks on the finished ZIP fail only for a non-positive registry schema |
| BuildAgreement.FinishExact | tools/otastctl/build.py:157-161 | after packing a build fails exactly when it is not packable, never over a digest |
| BuildAgreement.RecordsInputs | tools/otastctl/build.py:134-147 | the ZIP of a build records under each key of release.properties the module.prop identity, the commit, the digest and the two registries it was given |
| BuildAgreement.ArchiveInOrder | tools/otastctl/build.py:149-155 | the names in the ZIP strictly ascend; the six entry points carry mode 0755, all other members 0644, all as regular files |
| BuildAgreement.BuildExact | tools/otastctl/build.py:121-161 | a build succeeds exactly on sound, packable inputs; its ZIP then lists the payload in order, records the inputs key by key, and digests to the source payload; no failure is a digest mismatch |
| BuildChecks.ValidateExact | tools/otastctl/build.py:164-198 | any ZIP: it passes exactly if no name stands twice, each of the fifteen needed names is present, every member has a plain canonical path, the permissions of its name and at most 8 MiB, and release.properties holds ten sound fields that fit module.prop and name the digest of the payload |
| BuildChecks.ReleaseExact | tools/otastctl/build.py:86-118 | the tests of release.properties, field by field |
| BuildChecks.PackableExact | tools/otastctl/build.py:67-79 | what a tree needs to pack: the fourteen named files outside var/ and AGENTS.md, none of them called release.properties or above 8 MiB, and positive registry schemas |
| ModuleMetadata.MetadataExact | tools/otastctl/build.py:201-219 | module.prop is accepted exactly if seven keys are among those it has, with the ID otast, a valid version and a positive versionCode in digits |
| BuildAgreement.BuildIsDeterministic | tools/otastctl/build.py:67-79 | two listings of the same tree in any order give the same ZIP or the same error |
| Properties.ParseFields | tools/otastctl/build.py:86-97 | the line loop computes the field map or the error of the first bad line |
| Properties.WrittenParses | tools/otastctl/build.py:135-146 | text written from distinct plain keys parses to exactly those fields |
| Properties.FoldReplace | tools/otastctl/release.py:37-46 | replacing the value on a line changes that field of the parsed map and no other |
| Rendering.ValueRead | scripts/otast-maintenance.py:1006-1012 | the JSON reader takes every rendering of every value, whatever white space, escapes and number forms, to its exact end |
| Rendering.RenderedObjectIsFound | scripts/otast-maintenance.py:958-993 | started at its key, the scanner returns exactly the span of any rendering of any object, whatever text stands around it |
| Rendering.BodyMeaning | scripts/otast-maintenance.py:1006-1012 | the string reader spells what plain characters, escapes, \u units and surrogate pairs mean |
| Grammar.LoadsExact | scripts/otast-maintenance.py:1006-1012 | json.loads accepts a text if and only if it renders some value between white space, and then yields what that value means; of members with one key the last one counts |
| ObjectScanner.FindObjectForKey | scripts/otast-maintenance.py:958-993 | cursor, depth, string and escape flags compute the specified span or error |
| ObjectScanner.ScanObject | scripts/otast-maintenance.py:970-992 | from an object at any depth the scan resumes right behind it, whatever it contains |
| ObjectScanner.ScannerExact | scripts/otast-maintenance.py:958-993 | whenever the grammar reads an object behind the key, the scanner returns its span |
| ObjectScanner.SearchKeyExact | scripts/otast-maintenance.py:961-965 | the search returns what follows the colon at the first position in range where the quoted key stands before white space and a colon, and nothing exactly when there is no such position |
| HeadEdit.DocumentSame | scripts/otast-maintenance.py:1000-1007 | changing a quoted head behind a colon leaves the token tree of the whole document as it was |
| HeadEdit.EvalEdit | scripts/otast-maintenance.py:1006-1016 | where the path leads to the edited token, the new text means the old value with that one field replaced |
| HeadEdit.EditExact | scripts/otast-maintenance.py:996-1016 | the edit returns exactly when the first match inside the monitor object is the token the path denotes, or, for an unchanged head, when the field holds it; then length, all other text and all other fields are kept |
| HeadEdit.SearchHeadExact | scripts/otast-maintenance.py:1000-1002 | the search finds the head at the first position in range where the quoted field, a colon and the quoted head follow each other across white space, and nothing exactly when there is none |
| EditSuccess.ObjectIsFound | scripts/otast-maintenance.py:958-993 | where a key text stands first at the member its name denotes, the scanner returns the span of that member's object |
| EditSuccess.EditSucceeds | scripts/otast-maintenance.py:996-1016 | end to end, for every JSON text in which each searched key stands first at its member and the first match of the head lies at targets.<target>.monitor.expected_head: the edit returns, only the head changes, and the loaded result has the new head there |
| EditSuccess.SmallestIsEdited | scripts/otast-maintenance.py:996-1016 | for every plain target name and all heads, the registry of this one target becomes the registry with the new head |
| HeadEdit.EditRoundTrip | scripts/otast-maintenance.py:996-1016 | editing back, whenever that returns too, restores the original text character by character |
| Version.BumpIsNewer | tools/otastctl/release.py:65-69 | the bumped version is valid, no prerelease and strictly newer |
| Version.BumpExact | tools/otastctl/release.py:65-69 | bumping adds one to the last number and keeps the other two |
| Version.ParseSpelled | tools/otastctl/release.py:16-16 | every text of v, three groups of digits and an optional suffix behind a hyphen parses to those numbers and that suffix |
| Version.ParsedIsSpelled | tools/otastctl/release.py:16-16 | nothing else parses |
| Version.SuffixExact | tools/otastctl/release.py:16-16 | a suffix starts with a letter or digit and holds letters, digits, dots and hyphens |
| Version.ParsePrerelease | tools/otastctl/release.py:61-62 | three numbers, a hyphen and any such suffix parse to the numbers and that suffix |
| Version.PrereleaseExact | tools/otastctl/release.py:61-62 | a version is a prerelease exactly when there is a hyphen in it |
| Version.NewerExact | tools/otastctl/release.py:56-58 | the first number that differs decides which version is newer; suffixes do not count |
| Release.ReplaceProperty | tools/otastctl/release.py:151-157 | rewrites the one line carrying the key, and refuses none or several |
| Release.Repository.Stamp | tools/otastctl/release.py:192-214 | module.prop after a stamp, and its outcome, including a file written before a failed check |
| Release.Repository.Prepare | tools/otastctl/release.py:145-214 | resolve followed by stamp, on the state of both files |
| Release.Repository.Publish | tools/otastctl/release.py:484-494 | update.json takes over the identity of the manifest, whenever that was built; an invalid or prerelease one leaves it alone |
| ReleaseRuns.ReplaceChangesOneField | tools/otastctl/release.py:151-157 | replacing a present property changes that field of the parsed file and no other |
| ReleaseRuns.StampSucceeds | tools/otastctl/release.py:192-214 | on sound metadata every valid version and positive code is stamped, and only those two fields change |
| ReleaseRuns.ResolveExact | tools/otastctl/release.py:89-142 | on a state passing the gate a request resolves exactly when it is empty or newer than stable; the code is above the stable one, and reuse happens exactly for the unpublished current version |
| ReleaseRuns.ResolveAnyExact | tools/otastctl/release.py:89-142 | on any update.json and module.prop, gated or not: which requests resolve, to which version and code, and whether the current candidate is reused |
| ReleaseRuns.ResolvedVersion | tools/otastctl/release.py:113-142 | the version resolved is the one asked for; without a request the unpublished current one, and else the stable one with its last number raised by one; it is flagged a prerelease exactly when there is a hyphen in it |
| ReleaseRuns.PrepareExact | tools/otastctl/release.py:89-214 | preparing succeeds exactly for grantable requests, touches nothing when it fails, and changes only version and versionCode |
| ReleaseRuns.PrepareKeepsGate | tools/otastctl/verify.py:36-43 | preparing keeps the gate, never lowers a code and never gives a code a second version |
| ReleaseRuns.PublishExact | tools/otastctl/release.py:484-494 | any manifest: it is published exactly when its version is valid and without a hyphen and its code positive, under its own download and changelog links; the gate survives exactly when the manifest is the current identity or precedes it by code and version; the step is safe exactly when the manifest lies between the stable and the current identity |
| ReleaseRuns.UpdateExact | tools/otastctl/release.py:454-473 | published metadata is valid exactly with a valid version without a hyphen, a positive code, and the canonical download and changelog links of that version |
| ReleaseRuns.PublishKeepsGate | tools/otastctl/release.py:484-494 | the bundle of the current state always fits: publishing it keeps the gate, fails exactly for prereleases, and a new candidate raises the stable core strictly |
| ReleaseRuns.PublishEstablishesGate | tools/otastctl/release.py:484-494 | publishing the current non-prerelease bundle puts any sound module metadata behind the gate, whatever update.json said before |
| ReleaseRuns.RunKeepsGate | tools/otastctl/verify.py:36-43 | every state of an orderly run of prepare and publish steps passes the gate; orderly means that every published bundle was built in the run and lies between the stable and the current identity |
| ReleaseRuns.CurrentBundlesAreOrderly | tools/otastctl/verify.py:36-43 | a run that publishes nothing but the current bundle is orderly, whatever else it does |
| ReleaseRuns.RunSafe | tools/otastctl/verify.py:36-43 | between any two moments of an orderly run no code decreases, in module.prop or update.json, a kept code keeps its version, and a higher stable code has a newer stable version |
| ReleaseRuns.StableNeverFalls | tools/otastctl/verify.py:36-43 | between any two moments of an orderly run the stable version is the same or strictly newer |
| ReleaseRuns.OneVersionPerCode | tools/otastctl/release.py:89-142 | over a whole orderly run, across both files, one versionCode never names two versions |
| ReleaseRuns.EarlierBundleExact | tools/otastctl/release.py:484-494 | a bundle built earlier in the run: the gate survives its publication exactly when it is current by code or older by version, the stable code exactly when it is not behind it, and the step is safe exactly when, besides, its version is not behind the stable one |
| ReleaseRuns.OlderBundleBreaksGate | tools/otastctl/release.py:484-494 | preparing a version, then an older one, then publishing the bundle of the first breaks the gate |
| ReleaseRuns.OlderBundleExample | tools/otastctl/release.py:484-494 | such versions exist whatever is stable |
| ReleaseRuns.PrepareIsIdempotent | tools/otastctl/release.py:113-142 | preparing again with the same request gives the same version and code, marked as reused, and the same metadata |
| Elf.ReadAtExact | scripts/runtime-compatibility-evidence.py:221-236 | a read yields a number if and only if it stays within the prefix and the bytes there encode that number in the byte order asked for |
| Elf.ReadAlignments | scripts/runtime-compatibility-evidence.py:230-246 | the header-index loop collects the specified alignments |
| Elf.ParseLoadAlignments | scripts/runtime-compatibility-evidence.py:199-251 | the parser computes the specified verdict, and never one of the two read-failure verdicts |
| Elf.NoReadOutside | scripts/runtime-compatibility-evidence.py:213-246 | no read is out of range for any input, so both handlers are dead |
| Elf.PrefixStable | scripts/runtime-compatibility-evidence.py:199-251 | a verdict on 64 bytes or more holds of every longer prefix; a truncated table stays so below the reported length and loads from it on |
| Elf.IdentVerdict | scripts/runtime-compatibility-evidence.py:200-206 | for every input: which magic, data-encoding and class bytes lead to which refusal |
| Elf.VerdictExact | scripts/runtime-compatibility-evidence.py:209-248 | for every header with whatever follows it: the verdict and the required length, from e_phoff, e_phentsize and e_phnum where the ABI puts them |
| Elf.SortedSetExact | scripts/runtime-compatibility-evidence.py:247-251 | the reported list is ascending, without repetition, and has exactly the collected members |
| Elf.RoundTrip | scripts/runtime-compatibility-evidence.py:199-251 | a file written field by field as the ABI lays it out, of either class and byte order, any entry size and any other contents, gives back its distinct non-zero alignments of type-1 headers in ascending order |
| Elf.PageTestExact | scripts/runtime-compatibility-evidence.py:326-333 | on such files the page test says yes exactly when every stated alignment is a multiple of the page size, and abstains when none is stated |
| Elf.ShortElf32IsNotElf | scripts/runtime-compatibility-evidence.py:199-206 | the generated files below 64 bytes, all 32-bit without program headers, are reported as no ELF files |
| Elf.ShortImageIsNotElf | scripts/runtime-compatibility-evidence.py:199-206 | a 52-byte little-endian header with an empty table is such a file |
| ArchiveCheck.AdmitMembers | scripts/upstream-target-package.py:352-373 | the member loop computes the admitted pairs or the first error |
| ArchiveCheck.ValidateInfos | scripts/upstream-target-package.py:348-381 | count check, member loop and neighbour loop together compute the specified verdict |
| ArchiveCheck.AdmitExact | scripts/upstream-target-package.py:352-373 | the member loop succeeds if and only if all named members have safe names, plain types, sizes within the limit, distinct normalized names and a total within the limit; it yields exactly them, in order |
| ArchiveCheck.PairsExact | scripts/upstream-target-package.py:355-373 | a pair is kept if and only if its member is in the archive under more than slashes, with the normalized form of that name |
| ArchiveCheck.NormalizedName | scripts/upstream-target-package.py:339-345 | a normalized name joins the components of the archive's name, none of them empty, "." or "..", without backslash or NUL; a name of "." components alone becomes "." |
| ArchiveCheck.BetweenStartsWith | scripts/upstream-target-package.py:374-380 | everything ordered between a name and a path below it starts with that name and goes on with a character up to '/' |
| ArchiveCheck.NeighbourExact | scripts/upstream-target-package.py:374-380 | the next name lies below a name exactly when some path does and no name shields it |
| ArchiveCheck.ValidateExact | scripts/upstream-target-package.py:348-381 | an archive is accepted if and only if its member count is allowed, the named members are admissible together, and every file that is a parent path of another member is shielded |
| ArchiveCheck.AdmissibleExact | scripts/upstream-target-package.py:339-372 | the tests of one member and the limits, in characters, mode bits and plain numbers |
| ArchiveCheck.FileExact | scripts/upstream-target-package.py:374-381 | a member counts as a file unless a slash ends its name |
| ArchiveCheck.ValidatedMembers | scripts/upstream-target-package.py:348-381 | accepted names are distinct, lead nowhere outside the destination and are those of the archive; every size and the total are within bounds |
| ArchiveCheck.ShieldedClashIsAccepted | scripts/upstream-target-package.py:374-380 | the members `a`, `a.b` and `a/c` are accepted although the file `a` is a parent path |
| TreeSwap.FileSystem.Replace | scripts/upstream-target-package.py:1139-1145 | a rename moves a tree onto a free name as a whole or does nothing |
| TreeSwap.FileSystem.RemoveTree | scripts/upstream-target-package.py:1097-1101 | deletion passes through partial trees and may stop at one |
| TreeSwap.FileSystem.FillStage | scripts/upstream-target-package.py:1102-1138 | staging touches only the stage at every step; completed, the stage holds exactly the archive's files below the root |
| TreeSwap.FileSystem.Prepare | scripts/upstream-target-package.py:1097-1102 | clearing what an earlier call left never touches the destination |
| TreeSwap.FileSystem.Swap | scripts/upstream-target-package.py:1139-1148 | each failure of the two renames or of the final removal leaves the stated disk, with the inner rollback |
| TreeSwap.FileSystem.Recover | scripts/upstream-target-package.py:1149-1153 | a set-aside tree comes back whenever the rename succeeds, and a tree in place stays |
| TreeSwap.FileSystem.Materialize | scripts/upstream-target-package.py:1088-1154 | at every moment the whole old tree is at destination or set aside, or the whole new tree is in place, and the destination is never partial; return means the new tree, an exception the new tree only when removing the old one failed |
| TreeSwap.ContentExact | scripts/upstream-target-package.py:1106-1130 | given distinct labels, the new tree is exactly the placed files of the archive, with their bytes and modes |
| TreeSwap.ModeExact | scripts/upstream-target-package.py:406-412 | a file keeps the archive's permission bits if there are any; otherwise it is 0755 for data that starts with "#!" and names that end in ".sh", and 0644 else |
| TreeSwap.InventoryExact | scripts/upstream-target-package.py:1127-1138 | given distinct labels, the returned inventory lists every file of the new tree once, with its size and mode |
| TreeSwap.OmittedExact | scripts/upstream-target-package.py:1106-1117 | left out are exactly the members outside the root, by full path, and those left to the installer, by label |
| ArchiveTree.ValidatedLabelsDiffer | scripts/upstream-target-package.py:348-381 | no two files of an accepted archive end up under one label, whatever the module root |
| ArchiveTree.InstallOnlyExact | scripts/upstream-target-package.py:1114-1117 | a member is left to the installer exactly when its label is customize.sh, install.sh, META-INF or a path below that |
| ArchiveTree.ValidatedTreeExact | scripts/upstream-target-package.py:1093-1138 | for every accepted archive the tree and inventory written hold every placed file once, with its own bytes and mode, and nothing under customize.sh, install.sh or META-INF |
| ArchiveTree.WrittenExact | scripts/upstream-target-package.py:1104-1130 | a validated archive leaves a file under a label if and only if a member below the root, without slash at its end and not for the installer, has that label; data and mode are read off its archive entry |
| Reconcile.CollectFields | scripts/reconcile-release-state.py:116-135 | the line loop computes the field map or the first error |
| StateLoading.LoadedIsSound | scripts/reconcile-release-state.py:116-151 | whatever loads has a known phase and bindings that are empty or whole hashes; it exists exactly where there is a directory, which holds no link or special file, and its flags say what files there are |
| StateLoading.CollectExact | scripts/reconcile-release-state.py:133-145 | the line loop succeeds if and only if no wanted key stands on two lines, and then holds for each wanted key what its line says |
| StateLoading.WrittenStateLoads | scripts/reconcile-release-state.py:116-151 | a state file that holds a phase and three bindings, in any order and among any other lines and files, loads as exactly that state |
| StateLoading.LoadExact | scripts/reconcile-release-state.py:77-151 | a directory loads if and only if it holds files and folders alone and its state.env, if any, is a file of at most 65536 bytes of UTF-8 in which every field stands at most once and soundly |
| StateLoading.LoadedExact | scripts/reconcile-release-state.py:92-151 | and it loads as what those lines state, with START and empty bindings where they are silent, and with the payload flags of its files |
| Reconcile.PrivateStore.FreeName | scripts/reconcile-release-state.py:272-280 | the name found is the first free one of the stem, stem-1 and so on to stem-99; none is found only when all hundred are taken |
| Reconcile.PrivateStore.ArchiveState | scripts/reconcile-release-state.py:259-290 | the whole state moves under the first free name for its version, time stamp and token, or nothing moves; a failure after the move loses nothing |
| Reconcile.PrivateStore.Reconcile | scripts/reconcile-release-state.py:293-328 | one call keeps the store or archives the whole state, as the decision on it says, whatever fails |
| ReconcileRuns.ResumableExact | scripts/reconcile-release-state.py:204-249 | against an unproven hosted release, state with payload is kept if and only if it is a fresh START or bound to the hosted source and ZIP |
| Reconcile.HostedZipExact | scripts/reconcile-release-state.py:161-175 | the hosted hash is h exactly when one asset alone is called otast-<version>.zip and its digest is "sha256:" and the 64 digits h |
| Reconcile.DecideExact | scripts/reconcile-release-state.py:204-249 | each of the six reasons is given exactly where it holds of phase, bindings, files and hosted release; a failure means a missing inventory or ZIP |
| Reconcile.SafeVersionExact | scripts/reconcile-release-state.py:48-48 | the versions a call takes are those of three digit groups with an optional v in front and an optional suffix |
| Reconcile.TokenExact | scripts/reconcile-release-state.py:252-256 | an archive is named by the first twelve characters of the first binding that is not empty, or "orphan" |
| ReconcileRuns.PreservedExact | scripts/reconcile-release-state.py:293-317 | a call on a directory with payload, against an unproven hosted release, reports it preserved if and only if the directory loads as a fresh START or as exactly bound; nothing has changed then |
| ReconcileRuns.OrphanExact | scripts/reconcile-release-state.py:204-249 | without a hosted release exactly the untouched START, or no payload, is kept |
| ReconcileRuns.ProofIsFinal | scripts/reconcile-release-state.py:204-249 | once the proof asset is hosted the decision is to keep |
| ReconcileRuns.HostedProofKeepsStore | scripts/reconcile-release-state.py:293-328 | a call with the proof hosted leaves the store as it is |
| ReconcileRuns.CallLosesNothing | scripts/reconcile-release-state.py:259-328 | after any call the state tree is still current, or it is a new archive |
| ReconcileRuns.ArchivesArePermanent | scripts/reconcile-release-state.py:259-328 | over any run of calls and state writes an archived tree stays byte for byte under its path |
| ReconcileRuns.PathsAreNeverReused | scripts/reconcile-release-state.py:259-290 | two moves of state into the archive in one run never share a path, whether their calls returned or failed after the move |
| ReconcileRuns.ReportedPathIsTaken | scripts/reconcile-release-state.py:318-328 | a call that reports an archive has moved the whole state to the path it names |
| ReconcileRuns.SecondCallKeeps | scripts/reconcile-release-state.py:293-328 | an immediate second call with the same release changes nothing if the first one returned or moved the state; it moves the state only behind a first call that failed before moving anything |
| Retention.CleanupGroup | scripts/otast-maintenance.py:606-620 | the loop removes the specified reports of one group, newest first |
| Retention.RemovedExact | scripts/otast-maintenance.py:606-615 | removed are exactly the reports that are unmarked, not current and not ranked |
| Retention.RanksGoByAge | scripts/otast-maintenance.py:606-609 | no unranked success or failure is newer than a ranked one of its kind |
| Retention.RankedCounts | scripts/otast-maintenance.py:606-609 | ranked are the newest successes, as many as are to be kept, and the newest failure |
| Retention.SurvivorBound | scripts/otast-maintenance.py:606-615 | at most keep + 2 reports and the marked ones survive in a group |
| Retention.SecondRunRemovesNothing | scripts/otast-maintenance.py:606-620 | a second cleanup of what a first one left removes nothing |
| Retention.ReportStore.CleanupReports | scripts/otast-maintenance.py:566-623 | a dry run names the removals of a real run and leaves the directory alone; a real run leaves exactly the rest |
| Retention.CleanupExact | scripts/otast-maintenance.py:566-623 | within the groups visited, a report goes exactly when it is unmarked, not current and not ranked in its own group |
| Retention.GroupsExact | scripts/otast-maintenance.py:576-601 | the groups of a category argument hold exactly the listed reports of the categories it selects, each in one group |
| Retention.GroupExact | scripts/otast-maintenance.py:576-601 | a group goes by the start of the report name, and for reviews by their target |
| Retention.WholeCleanupExact | scripts/otast-maintenance.py:566-623 | over the whole directory, a cleanup removes exactly the listed reports of the selected category that are unmarked, not current and not ranked in their own group |
| Retention.LeftInGroup | scripts/otast-maintenance.py:566-623 | of every group exactly its survivors are left |
| Retention.CleanupIsIdempotent | scripts/otast-maintenance.py:566-623 | a second cleanup with the same arguments removes nothing, in any group |
| Registry.RequireStringList | tools/otastctl/compatibility.py:110-119 | returns the strings of a list, or refuses a non-list, an empty list where not allowed, a bad or a repeated item |
| Registry.StringListExact | tools/otastctl/compatibility.py:110-119 | a string list is accepted exactly if it is a list, has items where it must, and its items are non-empty, each once, without line breaks and zero characters |
| Registry.ClaimRecord | tools/otastctl/compatibility.py:324-377 | the inner loop claims the IDs of one record or names the first that is taken |
| Registry.ClaimFamily | tools/otastctl/compatibility.py:324-377 | the outer loop claims the IDs of a family or stops at the first error |
| Registry.ValidateOwnership | tools/otastctl/compatibility.py:324-377 | the three family loops and the mirror check compute the specified verdict |
| Registry.OwnershipExact | tools/otastctl/compatibility.py:324-377 | a registry is accepted if and only if its records are well formed, every module ID stands once over all three families, and strict_exclusions is the set of conflict IDs |
| Registry.FamilyExact | tools/otastctl/compatibility.py:324-377 | a family is there if it is a list with records in it, all well formed |
| Registry.NoIdHasTwoOwners | tools/otastctl/compatibility.py:324-377 | in an accepted registry no module ID occurs in two records of whatever families |
| Registry.OrderDecidesNothing | tools/otastctl/compatibility.py:324-377 | permuting the records of every family keeps the verdict |
| Impact.ClassifyOne | tools/otastctl/compatibility.py:458-466 | one path gets all categories it matches and the highest of them, or unknown |
| Impact.ClassifyChangedPaths | tools/otastctl/compatibility.py:449-472 | the loop computes the specified per-path report and primary impact, or the first error |
| Impact.ClassifyExact | tools/otastctl/compatibility.py:449-472 | it succeeds exactly on non-empty sets of safe paths and names an impact some path reaches and none exceeds |
| Impact.UnsafeExact | tools/otastctl/compatibility.py:458-459 | an unsafe path is empty, absolute, holds a line break or a zero character, or has a component that leads upwards |
| Impact.MatchedExact | tools/otastctl/compatibility.py:461-464 | a path matches exactly the categories, of all six, one of whose patterns matches it |
| Impact.PriorityAscends | tools/otastctl/compatibility.py:51-59 | the seven impacts in ascending order of priority |
| Impact.OnlyTheSetCounts | tools/otastctl/compatibility.py:449-472 | order and repetition of changed paths change nothing |
| Impact.UnionIsMaximum | tools/otastctl/compatibility.py:449-472 | the impact of two change sets together is the higher of the two |
| Impact.MorePatternsNeverLower | tools/otastctl/compatibility.py:445-466 | adding patterns never lowers the impact of a path that already matched |
| Impact.MorePatternsExact | tools/otastctl/compatibility.py:458-466 | adding patterns does not lower the impact if and only if the path matched before, still matches nothing, or now matches module identity |
| Impact.FirstPatternMayLower | tools/otastctl/compatibility.py:458-466 | a first pattern can lower the impact of a path nothing matched |
| Impact.AcceptanceExact | scripts/otast-maintenance.py:725-752 | acceptance is ready if and only if the comparison is complete and non-empty, every path is safe and matches docs_ci alone, the trees are identical and both runs returned 0 |
| Exposure.TallyProcess | scripts/root-exposure-doctor.py:653-670 | the inner loop counts the mappings of one process by module, by unattributed path and by flag |
| Exposure.TallyMappings | scripts/root-exposure-doctor.py:645-670 | after all processes every counter equals the number of mappings that satisfy its condition |
| Exposure.ClassifyFindings | scripts/root-exposure-doctor.py:638-765 | the findings are exactly the specified ones, module findings in ID order |
| Exposure.CategoryExact | scripts/root-exposure-doctor.py:672-765 | each category occurs if and only if its evidence does, the unknown one also when there is no evidence at all |
| Exposure.EvidenceExact | scripts/root-exposure-doctor.py:653-765 | a finding is reported if and only if what it says is the case: every kind of evidence with its category, its texts, its count and its examples |
| Exposure.FindingsAreRecognised | scripts/root-exposure-doctor.py:755-765 | there is always a finding, and every category is one the qualifier knows |
| Exposure.Diagnose | scripts/root-exposure-doctor.py:909-923 | result, findings and fatal reason of the doctor's report |
| Exposure.ClassifyReport | tools/otastctl/qualification.py:308-344 | the loop with its early exits computes the specified verdict on any JSON value |
| Exposure.QualifierExact | tools/otastctl/qualification.py:308-344 | PASS is given exactly to admissible reports without findings, PASS_WITH_ATTRIBUTION exactly to admissible reports whose findings are all another module's exposure |
| Exposure.FailExact | tools/otastctl/qualification.py:308-344 | FAIL is given exactly to reports that write, that say so themselves, or that find OTAST at fault among findings that are all understood |
| Exposure.PipelineExact | scripts/root-exposure-doctor.py:909-922 | the composed verdict is never PASS; without fatal reason it is FAIL exactly when a mapping belongs to otast or the OTAST report failed, and PASS_WITH_ATTRIBUTION exactly when something foreign is mapped and nothing else is amiss |
| Selectors.SelectCandidate | scripts/select-release-candidate.py:41-115 | the loop over hosted releases computes the specified candidate or error |
| Selectors.SelectReleaseInput | tools/otastctl/cli.py:132-141 | published releases of the requested version are presented as drafts, all else unchanged |
| Selectors.SelectProvenDraft | tools/otastctl/release.py:228-264 | the loop over drafts computes the specified selection or error |
| Selectors.SelectionExact | scripts/select-release-candidate.py:52-107 | a selection succeeds if and only if exactly one release qualifies; its version, prerelease, draft, proof and target fields are those of that release |
| Selectors.RefusalExact | scripts/select-release-candidate.py:80-104 | which refusal is given: several qualify without a request, something lacks only its proof, or nothing is there |
| Selectors.ProvenRefusalExact | tools/otastctl/release.py:228-264 | how the command line refuses: an invalid version, several proven drafts without a request, or none it could take |
| Selectors.SortedTagsExact | scripts/select-release-candidate.py:92-101 | the versions a refusal names are those of the releases in question, in ascending order |
| Selectors.EligibleExact | scripts/select-release-candidate.py:53-79 | which releases qualify: tag, draft value, the three named bundle files and, where required, the named proof |
| Selectors.ProvenExact | tools/otastctl/release.py:228-246 | which drafts the command line takes for proven, by the same names |
| Selectors.FlatIsKept | scripts/select-release-candidate.py:20-27 | a flat array of release objects is taken as it is |
| Selectors.PagesAreJoined | scripts/select-release-candidate.py:20-27 | releases in any number of pages are read as in one array |
| Selectors.SelectorsAgree | tools/otastctl/release.py:228-264 | with proof required, the selectors agree on success, version and prerelease flag for every list and request, exactly unless a numeric draft value tips the count |
| Selectors.BooleanDraftsAgree | tools/otastctl/cli.py:132-141 | without numeric draft values they agree on every list and every request |
| Selectors.NumericDraftDisagrees | scripts/select-release-candidate.py:59-65 | a requested, complete, proven release with draft 0 is found by one selector only |
| TreeDiff.CompareMaps | scripts/otast-maintenance.py:700-722 | the loop computes the four classes in path order, their count and the identity flag |
| TreeDiff.ClassesExact | scripts/otast-maintenance.py:700-722 | a path is added, removed or changed exactly when the two trees say so, and a change carries both versions |
| TreeDiff.CountsAddUp | scripts/otast-maintenance.py:700-722 | same, added, removed and changed add up to the size of the key union |
| TreeDiff.IdenticalExact | scripts/otast-maintenance.py:716-717 | the flag is set if and only if the trees are equal |
| TreeDiff.SwapMirrors | scripts/otast-maintenance.py:700-722 | comparing the other way round swaps additions and removals and turns every change over |
| TreeDiff.ReplayRebuilds | scripts/otast-maintenance.py:700-722 | the earlier tree, the difference and the added contents rebuild the later tree |
| Monitor.RunMonitor | scripts/otast-maintenance.py:431-529 | the target loop with its early end computes the specified rows, result and exit code, or ends without a report |
| Monitor.RowsExact | scripts/otast-maintenance.py:475-517 | every row up to the first fatal failure is an attempt, and every row behind it says it was not attempted |
| Monitor.AttemptExact | scripts/otast-maintenance.py:472-489 | the row of an attempt: supported exactly when the head equals the expected one, or the failure that occurred |
| Monitor.FailureExact | scripts/otast-maintenance.py:490-519 | a failed or skipped target is shown with the settings it has, and with empty ones where it has none |
| Monitor.MetadataExact | scripts/otast-maintenance.py:139-152 | which settings are well formed, and what is read from them |
| Monitor.FaultExact | scripts/otast-maintenance.py:139-152 | which fault is named, in order of the tests |
| Monitor.StopsExact | scripts/otast-maintenance.py:490-505 | a row ends the run exactly when it is a failure whose text holds rate, auth, 403 or 401, in whatever case |
| Monitor.ReportExact | scripts/otast-maintenance.py:431-517 | a run ends with a report if and only if the budget forbids it from starting, or every record that is not an object stands, in sorted order, behind a request whose failure ends the run |
| Monitor.OddRecordEndsRun | scripts/otast-maintenance.py:139-144 | a registry of one record that is not an object gives no report |
| Monitor.ReportHasEveryTarget | scripts/otast-maintenance.py:431-517 | every report has one row for each target, in ascending order, wherever the run stopped |
| Monitor.OneRowPerTarget | scripts/otast-maintenance.py:431-517 | where every record is an object, or the budget forbids the run, there is a report with one row for each target, in ascending order, whatever fails |
| Monitor.ResultExact | scripts/otast-maintenance.py:518-529 | SUPPORTED exactly when every row is supported, ERROR exactly when some row failed, with the matching exit codes |
| Monitor.SupportedExact | scripts/otast-maintenance.py:431-529 | SUPPORTED if and only if the budget allows a run and every target is well configured and stands at its expected head |
| Utf8.DecodeIsStrict | tools/otastctl/build.py:190-191 | strict decoding accepts nothing but the encoding of its answer |
| Utf8.EncodeInjective | tools/otastctl/runtime_digest.py:57-59 | two names with the same UTF-8 bytes are the same name |
| Ordering.LeqExact | tools/otastctl/runtime_digest.py:59-59 | texts are ordered by the first character that differs, and go before their continuations |
| Whitespace.StripExact | scripts/reconcile-release-state.py:78-78 | stripping takes all white space off both ends and nothing else |
| Whitespace.SpaceExact | scripts/reconcile-release-state.py:78-78 | the code points that count as white space |
| TextLines.LineBreakExact | tools/otastctl/build.py:86-97 | the code points that end a line |
| TextLines.SplitExact | tools/otastctl/build.py:86-97 | a line ends at the first break, and at "\r\n" only once; what is left without a break is the last line |
| Strings.HexExact | tools/otastctl/build.py:42-43 | the digits of a hash: lower-case hexadecimal ones |
| Decimal.DecimalExact | tools/otastctl/build.py:135-146 | how an integer is written: the digits "0" to "9", the last one last, a minus in front of a negative one |
| PosixPath.AbsoluteExact | tools/otastctl/runtime_digest.py:36-46 | a path is absolute exactly when it starts with a slash |
| PosixPath.CanonicalExact | tools/otastctl/runtime_digest.py:36-46 | a relative name is canonical exactly when no component is dropped, or it is "." |

## Left out

- Shell engine on the device (apply, restore, boot recovery, journal), device collectors, `gh`, `su`, `git` and network calls: they are not part of this model, only their answers are.
- SHA-256, ZIP/DEFLATE and `fnmatch`: the hash is the stream fed to it, the ZIP returns what was written, the glob is any predicate on a path and a pattern.
- `rmtree` and writes inside the report directory: a failing removal of a report is not modelled.
- Unicode decimal digits: `\d` and `isdigit` are taken on ASCII; so are the letters of a version.
- Grammar.LoadsExact: a JSON number stands for its text, and nesting may go to any depth, where the Python reader stops with a RecursionError.
- HeadEdit.EditExact: JSON numbers are compared by their text; the two compared documents differ only inside one string, so no number differs.
- Changelog rewriting in `stamp_release_metadata`, and the release bundle's checksum and manifest files.
- Release.Repository.Publish: of a manifest only version and code are modelled; its other fields and the two file names are checked one by one.
- TreeSwap.FileSystem.Materialize: trees hold files only; directories, and links found beside the destination (which make the first step fail), are not modelled. The old tree is taken to be at the destination, so a call after one whose rollbacks both failed is outside the statement.
- ModuleBuild.WriteZip: entries that tie on the name are ordered by name alone; they are refused as duplicates afterwards.
- Retention.CleanupIsIdempotent: reports of equal age keep the order of the directory listing, which is taken to be the same in both runs.
- Registry.OwnershipExact: the field-by-field checks of a record before and after its IDs are two flags.
- Registry provenance of a release bundle, qualification records, proof validation, platform profiles and status rendering: one branch decides each claim.
- Restoring the registry after a failed acceptance run: it does not hold on every failure path, so nothing general is claimed.
- Monitor.RunMonitor: rendering, and the cleanup behind a successful run, are not modelled.
- Exposure.ClassifyFindings: explanatory texts inside a finding are not modelled.
