// What reconciliation guarantees over any run of calls and foreign writes to the state.
module ReconcileRuns {
  import opened Results
  import opened Reconcile
  import StateLoading

  // ---- resumable means exactly bound ----

  // START with nothing beyond a source commit, and that one the hosted one.
  predicate FreshStart(l: LocalState, target: string) {
    && l.phase == "START" && l.moduleSha == "" && l.runtimeDigest == "" && !l.hasAuxiliary
    && (l.sourceSha == "" || l.sourceSha == target)
  }

  // Past START with the hosted source commit and the hosted ZIP.
  predicate ExactlyBound(l: LocalState, r: Release, version: string) {
    && l.phase != "START" && l.sourceSha != "" && l.sourceSha == r.target
    && l.moduleSha != "" && HostedZip(r, version) == Ok(l.moduleSha)
  }

  // Against a hosted release without proof, state with payload is kept exactly when it is a
  // fresh start or exactly bound.
  lemma ResumableExact(l: LocalState, r: Release, proof: string, version: string)
    requires l.exists_ && l.hasPayload && r.assets.Some? && !Hosts(r, proof)
    ensures Decide(l, Some(r), proof, version) == Ok(None) <==>
              FreshStart(l, r.target) || ExactlyBound(l, r, version)
  {
    hide HostedZip, Hosts;
  }

  // The same of a call on a directory with payload: it reports the state as preserved exactly
  // when the directory loads as a fresh start or as exactly bound; and then nothing has changed.
  lemma PreservedExact(before: Store, after: Store, version: string, release: Release, proof: string,
                       r: Result<Report, ReconcileError>)
    requires CallOutcome(before, after, version, Some(release), proof, r)
    requires before.state.Dir? && HasPayload(before.state.tree) && release.assets.Some? && !Hosts(release, proof)
    ensures r == Ok(Preserved) <==>
      && SafeVersion(version) && before.baseSafe && Load(before.state).Ok?
      && (FreshStart(Load(before.state).value, release.target)
           || ExactlyBound(Load(before.state).value, release, version))
    ensures r == Ok(Preserved) ==> after == before
  {
    hide SafeVersion, Load, Decide, Moved, MovedTo, Unmoved, Hosts, HasPayload, FreshStart, ExactlyBound;
    if Load(before.state).Ok? {
      StateLoading.LoadedIsSound(before.state);
      ResumableExact(Load(before.state).value, release, proof, version);
    }
  }

  // Once the proof asset is hosted, no state is archived.
  lemma ProofIsFinal(l: LocalState, r: Release, proof: string, version: string)
    requires Hosts(r, proof)
    ensures Decide(l, Some(r), proof, version) == Ok(None)
  {}

  // Without a hosted release only an untouched START survives.
  lemma OrphanExact(l: LocalState, proof: string, version: string)
    ensures Decide(l, None, proof, version) == Ok(None) <==>
              !l.exists_ || !l.hasPayload
              || (l.phase == "START" && l.sourceSha == "" && l.moduleSha == "" && l.runtimeDigest == ""
                   && !l.hasAuxiliary)
  {}

  // ---- runs ----

  datatype Event =
    | Call(version: string, release: Option<Release>, proof: string, result: Result<Report, ReconcileError>)
    | Write(state: StateDir)

  // Anything may write the state directory between calls; only calls touch the history.
  ghost predicate Step(before: Store, after: Store, e: Event) {
    match e
    case Call(version, release, proof, result) => CallOutcome(before, after, version, release, proof, result)
    case Write(state) => after == before.(state := state)
  }

  ghost predicate IsRun(stores: seq<Store>, events: seq<Event>) {
    && |stores| == |events| + 1
    && forall i :: 0 <= i < |events| ==> Step(stores[i], stores[i + 1], events[i])
  }

  // Every archive of the first store is in the second, unchanged.
  predicate Retains(before: Store, after: Store) {
    forall path :: path in Entries(before.history) ==>
      path in Entries(after.history) && Entries(after.history)[path] == Entries(before.history)[path]
  }

  lemma CallMovesOrNot(before: Store, after: Store, version: string, release: Option<Release>, proof: string,
                       r: Result<Report, ReconcileError>)
    requires CallOutcome(before, after, version, release, proof, r)
    ensures Unmoved(before, after) || Moved(before, after)
  {
    hide SafeVersion, Load, Decide, MovedTo;
  }

  lemma StepRetains(before: Store, after: Store, e: Event)
    requires Step(before, after, e)
    ensures Retains(before, after)
  {
    hide CallOutcome;
    if e.Call? {
      CallMovesOrNot(before, after, e.version, e.release, e.proof, e.result);
    }
  }

  // Whatever calls and writes follow, an archived state stays byte for byte where it was put.
  lemma {:induction false} ArchivesArePermanent(stores: seq<Store>, events: seq<Event>, i: nat, j: nat)
    requires IsRun(stores, events) && i <= j <= |events|
    ensures Retains(stores[i], stores[j])
    decreases j - i
  {
    hide Step;
    if i < j {
      ArchivesArePermanent(stores, events, i, j - 1);
      StepRetains(stores[j - 1], stores[j], events[j - 1]);
    }
  }

  // No call loses state: the tree is still the current state, or it is a new archive and the
  // state directory is empty or missing.
  lemma CallLosesNothing(before: Store, after: Store, version: string, release: Option<Release>, proof: string,
                         r: Result<Report, ReconcileError>)
    requires CallOutcome(before, after, version, release, proof, r) && before.state.Dir?
    ensures after.state == before.state
            || exists path :: path !in Entries(before.history) && path in Entries(after.history)
                              && Entries(after.history)[path] == before.state.tree
                              && (after.state == NoState || after.state == Dir(map[]))
    ensures after.baseSafe == before.baseSafe
  {
    hide CallOutcome;
    CallMovesOrNot(before, after, version, release, proof, r);
    if Moved(before, after) {
      var path :| MovedTo(before, after, path);
      assert path in Entries(after.history);
    }
  }

  // Two archivings of one run never share a path, whether their calls returned or failed after
  // the move.
  lemma PathsAreNeverReused(stores: seq<Store>, events: seq<Event>, i: nat, j: nat, p: string, q: string)
    requires IsRun(stores, events) && i < j < |events|
    requires MovedTo(stores[i], stores[i + 1], p) && MovedTo(stores[j], stores[j + 1], q)
    ensures p != q
  {
    hide Step, Retains;
    ArchivesArePermanent(stores, events, i + 1, j);
    RetainedPath(stores[i + 1], stores[j], p);
  }

  // A call that reports an archive moved the state there.
  lemma ReportedPathIsTaken(before: Store, after: Store, version: string, release: Option<Release>, proof: string,
                            r: Result<Report, ReconcileError>)
    requires CallOutcome(before, after, version, release, proof, r) && r.Ok? && r.value.Archived?
    ensures MovedTo(before, after, r.value.path)
  {
    hide SafeVersion, Load, Decide, MovedTo, Moved, Unmoved;
  }

  lemma RetainedPath(before: Store, after: Store, path: string)
    requires Retains(before, after) && path in Entries(before.history)
    ensures path in Entries(after.history)
  {}

  lemma EmptyStateIsKept(state: StateDir, release: Option<Release>, proof: string, version: string)
    requires state == NoState || state == Dir(map[])
    ensures Load(state).Ok? && Decide(Load(state).value, release, proof, version) == Ok(None)
  {
    var tree: DirTree := map[];
    assert !HasPayload(tree);
  }

  // Right after a call that returned, or that moved the state before failing, a second call with
  // the same release archives nothing and changes nothing.
  lemma SecondCallKeeps(s0: Store, s1: Store, s2: Store, version: string, release: Option<Release>, proof: string,
                        r1: Result<Report, ReconcileError>, r2: Result<Report, ReconcileError>)
    requires CallOutcome(s0, s1, version, release, proof, r1)
    requires CallOutcome(s1, s2, version, release, proof, r2)
    ensures r1.Ok? || Moved(s0, s1) ==> s2 == s1 && (r2.Ok? ==> !r2.value.Archived?)
    ensures Moved(s1, s2) ==> r1.Err? && Unmoved(s0, s1)
  {
    hide SafeVersion, Load, Decide, Unmoved;
    CallMovesOrNot(s0, s1, version, release, proof, r1);
    if s1.state == NoState || s1.state == Dir(map[]) {
      EmptyStateIsKept(s1.state, release, proof, version);
    }
    NotMovedToItself(s1);
  }

  lemma NotMovedToItself(s: Store)
    ensures !Moved(s, s)
  {}

  // Archiving a state in one call and the proof appearing later cannot conflict: with the proof
  // hosted a call leaves the store as it is.
  lemma HostedProofKeepsStore(before: Store, after: Store, version: string, release: Release, proof: string,
                              r: Result<Report, ReconcileError>)
    requires Hosts(release, proof) && CallOutcome(before, after, version, Some(release), proof, r)
    ensures after == before
  {
    hide SafeVersion, Load, Decide, Moved, MovedTo, Unmoved, Hosts;
    if Load(before.state).Ok? {
      ProofIsFinal(Load(before.state).value, release, proof, version);
    }
  }
}
