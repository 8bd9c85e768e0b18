// The target monitor's report: one row per target, and the overall result
// (scripts/otast-maintenance.py).
module Monitor {
  import opened Results
  import opened Ordering
  import opened Strings

  // A JSON value where a string is expected.
  datatype Value = Absent | Text(text: string) | Other(truthy: bool)

  datatype Settings = Settings(repository: Value, branch: Value, ref: Value, expectedHead: Value)

  // A target record; `monitor` is absent unless it is an object.
  datatype Record = NotAnObject | Record(monitor: Option<Settings>)

  datatype Status = Supported | ReviewRequired | MonitorFailure

  datatype Row = Row(target: string, repository: Value, ref: Value, expected: Value, observed: string, status: Status,
                     error: string)

  datatype Overall = SUPPORTED | REVIEW_REQUIRED | ERROR

  datatype Report = Report(result: Overall, rows: seq<Row>, exitCode: int)

  // What GitHub answers for a target: the head of its branch, or why there is none.
  type Heads = string -> Result<string, string>

  predicate Truthy(v: Value) { (v.Text? && v.text != "") || (v.Other? && v.truthy) }

  function Either(a: Value, b: Value): Value { if Truthy(a) then a else b }

  function Occurrences(s: string, c: char): nat {
    if s == "" then 0 else (if s[0] == c then 1 else 0) + Occurrences(s[1..], c)
  }

  datatype Metadata = Metadata(repository: string, ref: string, expected: string)

  function MonitorMetadata(target: string, monitor: Option<Settings>): (r: Result<Metadata, string>)
    ensures r.Ok? ==> IsHexText(r.value.expected, 40) && r.value.ref != ""
  {
    if monitor.None? then Err("target has no monitor object: " + target) else
    var m := monitor.value;
    var ref := Either(m.branch, Either(m.ref, Text("main")));
    if !m.repository.Text? || Occurrences(m.repository.text, '/') != 1 then
      Err("target has invalid monitor.repository: " + target)
    else if !ref.Text? || ref.text == "" || exists c :: c in ref.text && (c == '\r' || c == '\n' || c == '\0') then
      Err("target has invalid monitor branch/ref: " + target)
    else if !m.expectedHead.Text? || !IsHexText(m.expectedHead.text, 40) then
      Err("target has invalid monitor.expected_head: " + target)
    else
      Ok(Metadata(m.repository.text, ref.text, m.expectedHead.text))
  }

  function OrEmpty(v: Value): Value { if v.Absent? then Text("") else v }

  // The row of a target that could not be compared.
  function FailureRow(target: string, record: Record, error: string): Row {
    if record.Record? && record.monitor.Some? then
      var m := record.monitor.value;
      Row(target, OrEmpty(m.repository), Either(m.branch, Either(m.ref, Text(""))), OrEmpty(m.expectedHead), "",
        MonitorFailure, error)
    else
      Row(target, Text(""), Text(""), Text(""), "", MonitorFailure, error)
  }

  const SKIPPED := "not attempted after fatal GitHub authentication/rate failure"

  // No other character lowers to one of the letters looked for.
  function Lower(s: string): string {
    seq(|s|, i requires 0 <= i < |s| => if 'A' <= s[i] <= 'Z' then s[i] - 'A' + 'a' else s[i])
  }

  // An error that ends the run of requests.
  predicate Fatal(message: string) {
    var text := Lower(message);
    Contains(text, "rate") || Contains(text, "auth") || Contains(text, "403") || Contains(text, "401")
  }

  // The row of a target that was attempted.
  function AttemptRow(target: string, record: Record, heads: Heads): (row: Row)
    requires record.Record?
    ensures row.target == target
  {
    var metadata := MonitorMetadata(target, record.monitor);
    if metadata.Err? then FailureRow(target, record, metadata.error) else
    var observed := heads(target);
    if observed.Err? then FailureRow(target, record, observed.error) else
    Row(target, Text(metadata.value.repository), Text(metadata.value.ref), Text(metadata.value.expected),
        observed.value, if observed.value == metadata.value.expected then Supported else ReviewRequired, "")
  }

  predicate Stops(row: Row) { row.status == MonitorFailure && Fatal(row.error) }

  function FailureRows(ordered: seq<string>, targets: map<string, Record>, error: string): seq<Row>
    requires forall t :: t in ordered ==> t in targets
  {
    seq(|ordered|, i requires 0 <= i < |ordered| =>
      assert ordered[i] in ordered; FailureRow(ordered[i], targets[ordered[i]], error))
  }

  // `None` is the exception that escapes when an attempted record is not an object.
  function Rows(ordered: seq<string>, targets: map<string, Record>, heads: Heads): Option<seq<Row>>
    requires forall t :: t in ordered ==> t in targets
  {
    if ordered == [] then Some([]) else
    assert ordered[0] in ordered;
    if !targets[ordered[0]].Record? then None else
    var row := AttemptRow(ordered[0], targets[ordered[0]], heads);
    if Stops(row) then Some([row] + FailureRows(ordered[1..], targets, SKIPPED)) else
    var rest := Rows(ordered[1..], targets, heads);
    if rest.None? then None else Some([row] + rest.value)
  }

  predicate AnyRow(rows: seq<Row>, status: Status) { exists r :: r in rows && r.status == status }

  lemma AnyRowJoined(a: seq<Row>, b: seq<Row>, status: Status)
    ensures AnyRow(a + b, status) <==> AnyRow(a, status) || AnyRow(b, status)
  {
    forall r | r in a || r in b ensures r in a + b {}
  }

  function Summary(rows: seq<Row>): Report {
    if AnyRow(rows, MonitorFailure) then Report(ERROR, rows, 20)
    else if AnyRow(rows, ReviewRequired) then Report(REVIEW_REQUIRED, rows, 10)
    else Report(SUPPORTED, rows, 0)
  }

  function Monitored(targets: map<string, Record>, budget: Option<string>, heads: Heads): Option<Report> {
    var ordered := SortedSet(targets.Keys);
    if budget.Some? then Some(Report(ERROR, FailureRows(ordered, targets, budget.value), 20)) else
    var rows := Rows(ordered, targets, heads);
    if rows.None? then None else Some(Summary(rows.value))
  }

  // `budget` is the reason why the credentials or the rate budget do not allow a run.
  method RunMonitor(targets: map<string, Record>, budget: Option<string>, heads: Heads) returns (r: Option<Report>)
    ensures r == Monitored(targets, budget, heads)
  {
    hide Rows, AttemptRow, FailureRows, AnyRow, Distinct, SortedBy, SKIPPED, Fatal, Leq, FailureRow, MonitorMetadata;
    hide Lower;
    var ordered := SortedSet(targets.Keys);
    var rows: seq<Row> := [];
    if budget.Some? {
      rows := AppendFailures(rows, ordered, targets, budget.value);
      assert rows == FailureRows(ordered, targets, budget.value);
      return Some(Report(ERROR, rows, 20));
    }
    var hadError, hadReview := false, false;
    var i := 0;
    ghost var all := Rows(ordered, targets, heads);
    assert ordered[0..] == ordered;
    NoRows();
    while i < |ordered|
      invariant 0 <= i <= |ordered|
      invariant all == Joined(rows, Rows(ordered[i..], targets, heads))
      invariant hadError == AnyRow(rows, MonitorFailure) && hadReview == AnyRow(rows, ReviewRequired)
    {
      var target := ordered[i];
      assert target in ordered;
      RowsStep(rows, ordered, i, targets, heads);
      if !targets[target].Record? { return None; }
      var row := AttemptRow(target, targets[target], heads);
      AnyRowJoined(rows, [row], MonitorFailure);
      AnyRowJoined(rows, [row], ReviewRequired);
      OneRow(row);
      rows := rows + [row];
      i := i + 1;
      hadReview := hadReview || row.status == ReviewRequired;
      if row.status == MonitorFailure {
        hadError := true;
        if Fatal(row.error) {
          AnyRowJoined(rows, FailureRows(ordered[i..], targets, SKIPPED), MonitorFailure);
          rows := AppendFailures(rows, ordered[i..], targets, SKIPPED);
          return Some(Report(ERROR, rows, 20));
        }
      }
    }
    LastRows(ordered, targets, heads);
    r := Some(if hadError then Report(ERROR, rows, 20) else if hadReview then Report(REVIEW_REQUIRED, rows, 10)
      else Report(SUPPORTED, rows, 0));
  }

  lemma NoRows()
    ensures forall rest :: Joined([], rest) == rest
    ensures !AnyRow([], MonitorFailure) && !AnyRow([], ReviewRequired)
  {
    forall rest: Option<seq<Row>> ensures Joined([], rest) == rest {
      if rest.Some? { assert [] + rest.value == rest.value; }
    }
  }

  lemma OneRow(row: Row)
    ensures forall status :: AnyRow([row], status) <==> row.status == status
  {
    assert row in [row];
  }

  lemma LastRows(ordered: seq<string>, targets: map<string, Record>, heads: Heads)
    requires forall t :: t in ordered ==> t in targets
    ensures forall rows :: Joined(rows, Rows(ordered[|ordered|..], targets, heads)) == Some(rows)
  {
    forall rows: seq<Row> ensures rows + [] == rows {}
  }

  lemma RowsStep(rows: seq<Row>, ordered: seq<string>, i: nat, targets: map<string, Record>, heads: Heads)
    requires i < |ordered| && (forall t :: t in ordered ==> t in targets)
    ensures ordered[i] in targets
    ensures var all := Joined(rows, Rows(ordered[i..], targets, heads));
      if !targets[ordered[i]].Record? then all == None
      else
        var row := AttemptRow(ordered[i], targets[ordered[i]], heads);
        if Stops(row) then all == Some(rows + [row] + FailureRows(ordered[i + 1..], targets, SKIPPED))
        else all == Joined(rows + [row], Rows(ordered[i + 1..], targets, heads))
  {
    hide AttemptRow, Fatal, FailureRows;
    assert ordered[i] in ordered && ordered[i..][0] == ordered[i] && ordered[i..][1..] == ordered[i + 1..];
    if targets[ordered[i]].Record? {
      var row := AttemptRow(ordered[i], targets[ordered[i]], heads);
      forall rest ensures rows + ([row] + rest) == rows + [row] + rest {}
    }
  }

  function Joined(rows: seq<Row>, rest: Option<seq<Row>>): Option<seq<Row>> {
    if rest.None? then None else Some(rows + rest.value)
  }

  method AppendFailures(before: seq<Row>, ordered: seq<string>, targets: map<string, Record>,
                        error: string) returns (rows: seq<Row>)
    requires forall t :: t in ordered ==> t in targets
    ensures rows == before + FailureRows(ordered, targets, error)
  {
    rows := before;
    var i := 0;
    while i < |ordered|
      invariant 0 <= i <= |ordered|
      invariant rows == before + FailureRows(ordered, targets, error)[..i]
    {
      assert ordered[i] in ordered;
      rows := rows + [FailureRow(ordered[i], targets[ordered[i]], error)];
      i := i + 1;
    }
  }

  // ---- What a report says

  lemma {:induction false} RowsExact(ordered: seq<string>, targets: map<string, Record>, heads: Heads)
    requires (forall t :: t in ordered ==> t in targets) && Rows(ordered, targets, heads).Some?
    ensures var rows := Rows(ordered, targets, heads).value;
      && |rows| == |ordered|
      && exists stop: nat :: StopsAt(rows, ordered, targets, heads, stop)
  {
    hide AttemptRow, Fatal, FailureRow, SKIPPED;
    var rows := Rows(ordered, targets, heads).value;
    if ordered == [] {
      assert StopsAt(rows, ordered, targets, heads, 0);
    } else {
      assert ordered[0] in ordered;
      if Stops(AttemptRow(ordered[0], targets[ordered[0]], heads)) {
        assert StopsAt(rows, ordered, targets, heads, 0);
      } else {
        RowsExact(ordered[1..], targets, heads);
        var rest := Rows(ordered[1..], targets, heads).value;
        var stop: nat :| StopsAt(rest, ordered[1..], targets, heads, stop);
        StopsLater(rows, ordered, targets, heads, stop);
      }
    }
  }

  // Rows up to position `stop` are attempts and only the one at `stop` ends the run; the rest
  // are marked as not attempted.
  ghost predicate StopsAt(rows: seq<Row>, ordered: seq<string>, targets: map<string, Record>, heads: Heads, stop: nat)
    requires forall t :: t in ordered ==> t in targets
  {
    && |rows| == |ordered| && stop <= |rows|
    && (forall i :: 0 <= i < |rows| && i <= stop ==> IsAttempt(rows[i], ordered, targets, heads, i))
    && (forall i :: 0 <= i < stop ==> !Stops(rows[i]))
    && (stop < |rows| ==> Stops(rows[stop]))
    && (forall i :: stop < i < |rows| ==> rows[i] == FailureRow(ordered[i], targets[ordered[i]], SKIPPED))
  }

  ghost predicate IsAttempt(row: Row, ordered: seq<string>, targets: map<string, Record>, heads: Heads, i: nat)
    requires i < |ordered| && (forall t :: t in ordered ==> t in targets)
  {
    assert ordered[i] in ordered;
    targets[ordered[i]].Record? && row == AttemptRow(ordered[i], targets[ordered[i]], heads)
  }

  lemma StopsLater(rows: seq<Row>, ordered: seq<string>, targets: map<string, Record>, heads: Heads, stop: nat)
    requires (forall t :: t in ordered ==> t in targets) && ordered != [] && rows != []
    requires StopsAt(rows[1..], ordered[1..], targets, heads, stop)
    requires IsAttempt(rows[0], ordered, targets, heads, 0) && !Stops(rows[0])
    ensures StopsAt(rows, ordered, targets, heads, stop + 1)
  {
    hide AttemptRow, Stops, FailureRow, SKIPPED;
    forall i | 1 <= i < |rows| ensures rows[i] == rows[1..][i - 1] && ordered[i] == ordered[1..][i - 1] {}
    forall i | 1 <= i < |rows| && i <= stop + 1 ensures IsAttempt(rows[i], ordered, targets, heads, i) {
      assert IsAttempt(rows[1..][i - 1], ordered[1..], targets, heads, i - 1);
    }
  }

  lemma FailureRowsTargets(ordered: seq<string>, targets: map<string, Record>, error: string)
    requires forall t :: t in ordered ==> t in targets
    ensures forall i :: 0 <= i < |ordered| ==>
      FailureRows(ordered, targets, error)[i].target == ordered[i]
        && FailureRows(ordered, targets, error)[i].status == MonitorFailure
  {}

  lemma StoppedTargets(rows: seq<Row>, ordered: seq<string>, targets: map<string, Record>, heads: Heads, stop: nat)
    requires (forall t :: t in ordered ==> t in targets) && StopsAt(rows, ordered, targets, heads, stop)
    ensures forall i :: 0 <= i < |ordered| ==> rows[i].target == ordered[i]
  {
    hide MonitorMetadata, Stops, SKIPPED;
    forall i | 0 <= i < |ordered| ensures rows[i].target == ordered[i] {
      if i <= stop { assert IsAttempt(rows[i], ordered, targets, heads, i); }
    }
  }

  lemma RowsInOrder(targets: map<string, Record>, budget: Option<string>, heads: Heads)
    requires Monitored(targets, budget, heads).Some?
    ensures var rows, ordered := Monitored(targets, budget, heads).value.rows, SortedSet(targets.Keys);
      |rows| == |ordered| && forall i :: 0 <= i < |ordered| ==> rows[i].target == ordered[i]
  {
    hide Rows, StopsAt, Leq, FailureRows, AnyRow, Distinct, SortedBy;
    var ordered := SortedSet(targets.Keys);
    if budget.Some? {
      FailureRowsTargets(ordered, targets, budget.value);
      FailureRowsCount(ordered, targets, budget.value);
    } else {
      var rows := Rows(ordered, targets, heads).value;
      RowsExact(ordered, targets, heads);
      var stop: nat :| StopsAt(rows, ordered, targets, heads, stop);
      StoppedTargets(rows, ordered, targets, heads, stop);
    }
  }

  // ---- When a run ends with a report

  // The attempt at position `i` ends the run.
  predicate EndsAt(ordered: seq<string>, targets: map<string, Record>, heads: Heads, i: nat)
    requires i < |ordered| && (forall t :: t in ordered ==> t in targets)
  {
    assert ordered[i] in ordered;
    targets[ordered[i]].Record? && Stops(AttemptRow(ordered[i], targets[ordered[i]], heads))
  }

  ghost predicate EndsBefore(ordered: seq<string>, targets: map<string, Record>, heads: Heads, j: nat)
    requires j <= |ordered| && (forall t :: t in ordered ==> t in targets)
  {
    exists i :: 0 <= i < j && EndsAt(ordered, targets, heads, i)
  }

  predicate OddAt(ordered: seq<string>, targets: map<string, Record>, j: nat)
    requires j < |ordered| && (forall t :: t in ordered ==> t in targets)
  {
    assert ordered[j] in ordered;
    !targets[ordered[j]].Record?
  }

  lemma EndsShift(ordered: seq<string>, targets: map<string, Record>, heads: Heads, j: nat)
    requires 0 < j < |ordered| && (forall t :: t in ordered ==> t in targets)
    ensures EndsAt(ordered[1..], targets, heads, j - 1) == EndsAt(ordered, targets, heads, j)
    ensures OddAt(ordered[1..], targets, j - 1) == OddAt(ordered, targets, j)
    ensures !EndsAt(ordered, targets, heads, 0) ==>
      EndsBefore(ordered[1..], targets, heads, j - 1) == EndsBefore(ordered, targets, heads, j)
  {
    hide Stops, AttemptRow;
    assert ordered[1..][j - 1] == ordered[j];
    forall i | 0 < i < j ensures EndsAt(ordered[1..], targets, heads, i - 1) == EndsAt(ordered, targets, heads, i) {
      assert ordered[1..][i - 1] == ordered[i];
    }
    if EndsBefore(ordered, targets, heads, j) && !EndsAt(ordered, targets, heads, 0) {
      var i :| 0 <= i < j && EndsAt(ordered, targets, heads, i);
      assert EndsAt(ordered[1..], targets, heads, i - 1);
    }
    if EndsBefore(ordered[1..], targets, heads, j - 1) {
      var i :| 0 <= i < j - 1 && EndsAt(ordered[1..], targets, heads, i);
      assert EndsAt(ordered, targets, heads, i + 1);
    }
  }

  lemma {:induction false} RowsYield(ordered: seq<string>, targets: map<string, Record>, heads: Heads)
    requires forall t :: t in ordered ==> t in targets
    ensures Rows(ordered, targets, heads).Some? <==>
      forall j :: 0 <= j < |ordered| && OddAt(ordered, targets, j) ==> EndsBefore(ordered, targets, heads, j)
  {
    hide Stops, AttemptRow, FailureRows;
    if ordered != [] {
      assert ordered[0] in ordered;
      if OddAt(ordered, targets, 0) {
        assert !EndsBefore(ordered, targets, heads, 0);
      } else if EndsAt(ordered, targets, heads, 0) {
        assert forall j :: 0 < j < |ordered| ==> EndsBefore(ordered, targets, heads, j);
      } else {
        RowsYield(ordered[1..], targets, heads);
        OddShift(ordered, targets, heads);
      }
    }
  }

  lemma OddShift(ordered: seq<string>, targets: map<string, Record>, heads: Heads)
    requires ordered != [] && (forall t :: t in ordered ==> t in targets)
    requires !OddAt(ordered, targets, 0) && !EndsAt(ordered, targets, heads, 0)
    ensures (forall j :: 0 <= j < |ordered| && OddAt(ordered, targets, j) ==>
      EndsBefore(ordered, targets, heads, j)) <==>
      var rest := ordered[1..];
      forall j :: 0 <= j < |rest| && OddAt(rest, targets, j) ==> EndsBefore(rest, targets, heads, j)
  {
    hide EndsAt, OddAt, EndsBefore;
    var rest := ordered[1..];
    forall j | 0 < j < |ordered|
      ensures OddAt(rest, targets, j - 1) == OddAt(ordered, targets, j)
      ensures EndsBefore(rest, targets, heads, j - 1) == EndsBefore(ordered, targets, heads, j) {
      EndsShift(ordered, targets, heads, j);
    }
    if forall j :: 0 <= j < |ordered| && OddAt(ordered, targets, j) ==> EndsBefore(ordered, targets, heads, j) {
      forall j | 0 <= j < |rest| && OddAt(rest, targets, j) ensures EndsBefore(rest, targets, heads, j) {
        assert OddAt(rest, targets, j + 1 - 1) == OddAt(ordered, targets, j + 1);
        assert EndsBefore(rest, targets, heads, j + 1 - 1) == EndsBefore(ordered, targets, heads, j + 1);
      }
    }
  }

  // The request for `u` fails in a way that ends the run before `t` is reached.
  predicate Shields(u: string, t: string, targets: map<string, Record>, heads: Heads)
    requires u in targets
  {
    u != t && Leq(u, t) && targets[u].Record? && Stops(AttemptRow(u, targets[u], heads))
  }

  // Every record that is not an object stands behind a request that ends the run.
  ghost predicate OddOnesShielded(targets: map<string, Record>, heads: Heads) {
    forall t :: t in targets && !targets[t].Record? ==> exists u :: u in targets && Shields(u, t, targets, heads)
  }

  lemma ShieldedByPosition(targets: map<string, Record>, heads: Heads, j: nat)
    requires j < |SortedSet(targets.Keys)|
    ensures var ordered := SortedSet(targets.Keys);
      EndsBefore(ordered, targets, heads, j) <==> exists u :: u in targets && Shields(u, ordered[j], targets, heads)
  {
    hide Stops, AttemptRow, Leq;
    var ordered := SortedSet(targets.Keys);
    assert ordered[j] in ordered;
    if EndsBefore(ordered, targets, heads, j) {
      var i :| 0 <= i < j && EndsAt(ordered, targets, heads, i);
      assert ordered[i] in ordered && Shields(ordered[i], ordered[j], targets, heads);
    }
    forall u | u in targets && Shields(u, ordered[j], targets, heads) ensures EndsBefore(ordered, targets, heads, j) {
      assert u in ordered;
      var i :| 0 <= i < |ordered| && ordered[i] == u;
      if i > j { LeqAntisymmetric(u, ordered[j]); }
      assert EndsAt(ordered, targets, heads, i);
    }
  }

  // A run yields a report exactly when the budget forbids it from starting, or every record that
  // is not an object is kept from being attempted.
  lemma ReportExact(targets: map<string, Record>, budget: Option<string>, heads: Heads)
    ensures Monitored(targets, budget, heads).Some? <==> budget.Some? || OddOnesShielded(targets, heads)
  {
    hide Rows, FailureRows, Summary, Leq, Shields, EndsBefore, Distinct, SortedBy;
    var ordered := SortedSet(targets.Keys);
    RowsYield(ordered, targets, heads);
    forall j | 0 <= j < |ordered|
      ensures EndsBefore(ordered, targets, heads, j) <==>
        exists u :: u in targets && Shields(u, ordered[j], targets, heads) {
      ShieldedByPosition(targets, heads, j);
    }
    if forall j :: 0 <= j < |ordered| && OddAt(ordered, targets, j) ==> EndsBefore(ordered, targets, heads, j) {
      forall t | t in targets && !targets[t].Record? ensures exists u :: u in targets && Shields(u, t, targets, heads) {
        assert t in ordered;
        var j :| 0 <= j < |ordered| && ordered[j] == t;
        assert OddAt(ordered, targets, j);
      }
    }
  }

  // One record that is not an object, and nothing before it: the run ends without a report.
  lemma OddRecordEndsRun(heads: Heads)
    ensures Monitored(map["a" := NotAnObject], None, heads).None?
  {
    hide Stops, AttemptRow;
    var targets := map["a" := NotAnObject];
    ReportExact(targets, None, heads);
    assert "a" in targets && !targets["a"].Record?;
    assert forall u :: u in targets ==> !Shields(u, "a", targets, heads);
  }

  // ---- One row per target

  ghost predicate OneRowEach(rows: seq<Row>, targets: map<string, Record>) {
    && |rows| == |targets|
    && (forall t :: t in targets <==> exists i :: 0 <= i < |rows| && rows[i].target == t)
    && (forall i, j :: 0 <= i < j < |rows| ==> rows[i].target != rows[j].target && Leq(rows[i].target, rows[j].target))
  }

  // Every report has one row for each target, in ascending order, wherever the run stopped.
  lemma ReportHasEveryTarget(targets: map<string, Record>, budget: Option<string>, heads: Heads)
    requires budget.Some? || OddOnesShielded(targets, heads)
    ensures Monitored(targets, budget, heads).Some?
    ensures OneRowEach(Monitored(targets, budget, heads).value.rows, targets)
  {
    hide Leq, Monitored, OddOnesShielded, OneRowEach, Distinct, SortedBy;
    ReportExact(targets, budget, heads);
    RowsInOrder(targets, budget, heads);
    OrderedRows(Monitored(targets, budget, heads).value.rows, SortedSet(targets.Keys), targets);
  }

  // Where every record is an object, every run ends with a report of one row for each target,
  // whatever fails.
  lemma OneRowPerTarget(targets: map<string, Record>, budget: Option<string>, heads: Heads)
    requires budget.Some? || forall t :: t in targets ==> targets[t].Record?
    ensures Monitored(targets, budget, heads).Some?
    ensures OneRowEach(Monitored(targets, budget, heads).value.rows, targets)
  {
    hide Monitored, Shields, OneRowEach;
    ReportHasEveryTarget(targets, budget, heads);
  }

  lemma OrderedRows(rows: seq<Row>, ordered: seq<string>, targets: map<string, Record>)
    requires Distinct(ordered) && SortedBy(ordered, Leq) && |ordered| == |targets|
    requires forall t :: t in ordered <==> t in targets
    requires |rows| == |ordered| && forall i :: 0 <= i < |ordered| ==> rows[i].target == ordered[i]
    ensures OneRowEach(rows, targets)
  {
    hide Leq;
    forall t | t in targets ensures exists i :: 0 <= i < |rows| && rows[i].target == t {
      assert t in ordered;
      var i :| 0 <= i < |ordered| && ordered[i] == t;
      assert rows[i].target == t;
    }
    forall i | 0 <= i < |rows| ensures rows[i].target in targets {
      assert ordered[i] in ordered;
    }
  }

  lemma FailureRowsCount(ordered: seq<string>, targets: map<string, Record>, error: string)
    requires forall t :: t in ordered ==> t in targets
    ensures |FailureRows(ordered, targets, error)| == |ordered|
  {}

  // The target is configured well and its branch still stands where it was reviewed.
  predicate UpToDate(target: string, record: Record, heads: Heads) {
    && record.Record? && MonitorMetadata(target, record.monitor).Ok?
    && heads(target) == Ok(MonitorMetadata(target, record.monitor).value.expected)
  }

  lemma SupportedRow(target: string, record: Record, heads: Heads)
    requires record.Record?
    ensures AttemptRow(target, record, heads).status == Supported <==> UpToDate(target, record, heads)
  {
    hide MonitorMetadata;
  }

  lemma {:induction false} AllSupported(ordered: seq<string>, targets: map<string, Record>, heads: Heads)
    requires forall t :: t in ordered ==> t in targets && UpToDate(t, targets[t], heads)
    ensures Rows(ordered, targets, heads).Some?
    ensures forall r :: r in Rows(ordered, targets, heads).value ==> r.status == Supported
  {
    hide MonitorMetadata, AttemptRow, Fatal, FailureRows, UpToDate;
    if ordered != [] {
      assert ordered[0] in ordered && forall t :: t in ordered[1..] ==> t in ordered;
      IsRecord(ordered[0], targets[ordered[0]], heads);
      SupportedRow(ordered[0], targets[ordered[0]], heads);
      AllSupported(ordered[1..], targets, heads);
    }
  }

  lemma IsRecord(target: string, record: Record, heads: Heads)
    requires UpToDate(target, record, heads)
    ensures record.Record?
  {}

  lemma SupportedEverywhere(rows: seq<Row>, ordered: seq<string>, targets: map<string, Record>, heads: Heads, stop: nat)
    requires (forall t :: t in ordered ==> t in targets) && StopsAt(rows, ordered, targets, heads, stop)
    requires forall i :: 0 <= i < |rows| ==> rows[i].status == Supported
    ensures forall i :: 0 <= i < |ordered| ==> UpToDate(ordered[i], targets[ordered[i]], heads)
  {
    hide MonitorMetadata, AttemptRow, Fatal, FailureRow, UpToDate;
    forall i | 0 <= i < |ordered| ensures UpToDate(ordered[i], targets[ordered[i]], heads) {
      assert IsAttempt(rows[i], ordered, targets, heads, i);
      SupportedRow(ordered[i], targets[ordered[i]], heads);
    }
  }

  lemma SummaryExact(rows: seq<Row>)
    ensures var s := Summary(rows);
      && s.rows == rows
      && (s.result == SUPPORTED <==> forall r :: r in rows ==> r.status == Supported)
      && (s.result == ERROR <==> exists r :: r in rows && r.status == MonitorFailure)
      && s.exitCode == (match s.result case SUPPORTED => 0 case REVIEW_REQUIRED => 10 case ERROR => 20)
  {
    if forall r :: r in rows ==> r.status == Supported {
      assert !AnyRow(rows, MonitorFailure) && !AnyRow(rows, ReviewRequired);
    } else {
      var r :| r in rows && r.status != Supported;
      assert r.status == MonitorFailure || r.status == ReviewRequired;
    }
  }

  // The result is read off the rows, for every run that comes to an end.
  lemma ResultExact(targets: map<string, Record>, budget: Option<string>, heads: Heads)
    requires targets != map[] && (budget.Some? || OddOnesShielded(targets, heads))
    ensures Monitored(targets, budget, heads).Some?
    ensures var report := Monitored(targets, budget, heads).value;
      && (report.result == SUPPORTED <==> forall r :: r in report.rows ==> r.status == Supported)
      && (report.result == ERROR <==> exists r :: r in report.rows && r.status == MonitorFailure)
      && report.exitCode == (match report.result case SUPPORTED => 0 case REVIEW_REQUIRED => 10 case ERROR => 20)
  {
    hide Rows, FailureRows, Summary, Leq, OddOnesShielded, Distinct, SortedBy;
    ReportExact(targets, budget, heads);
    var ordered := SortedSet(targets.Keys);
    if budget.Some? {
      FailureRowsTargets(ordered, targets, budget.value);
      FailureRowsCount(ordered, targets, budget.value);
      var rows := FailureRows(ordered, targets, budget.value);
      NonEmptyMap(targets);
      assert rows[0] in rows && rows[0].status == MonitorFailure;
    } else {
      SummaryExact(Rows(ordered, targets, heads).value);
    }
  }

  lemma NonEmptyMap(targets: map<string, Record>)
    requires targets != map[]
    ensures |targets| > 0
  {}

  // SUPPORTED exactly when every target is up to date: a fault anywhere is never reported as
  // support, and nothing else keeps a run from it.
  lemma SupportedExact(targets: map<string, Record>, budget: Option<string>, heads: Heads)
    ensures var r := Monitored(targets, budget, heads);
      (r.Some? && r.value.result == SUPPORTED) <==>
        (budget.None? && forall t :: t in targets ==> UpToDate(t, targets[t], heads))
  {
    hide Rows, FailureRows, Summary, StopsAt, UpToDate, Leq;
    var ordered := SortedSet(targets.Keys);
    if budget.None? {
      if forall t :: t in targets ==> UpToDate(t, targets[t], heads) {
        AllSupported(ordered, targets, heads);
        SummaryExact(Rows(ordered, targets, heads).value);
      }
      if Rows(ordered, targets, heads).Some? {
        var rows := Rows(ordered, targets, heads).value;
        SummaryExact(rows);
        if Summary(rows).result == SUPPORTED {
          RowsExact(ordered, targets, heads);
          var stop: nat :| StopsAt(rows, ordered, targets, heads, stop);
          SupportedEverywhere(rows, ordered, targets, heads, stop);
          forall t | t in targets ensures UpToDate(t, targets[t], heads) {
            assert t in ordered;
          }
        }
      }
    }
  }

  // ---- what is read, and what ends a run

  // A target is well configured exactly if its repository has one slash, its branch, or else its
  // ref, or else "main", is text without line breaks, and its expected head is a commit.
  lemma MetadataExact(target: string, monitor: Option<Settings>)
    ensures MonitorMetadata(target, monitor).Ok? <==>
      && monitor.Some? && monitor.value.repository.Text? && OneSlash(monitor.value.repository.text)
      && BranchOf(monitor.value).Text? && BranchOf(monitor.value).text != ""
      && (forall c :: c in {'\r', '\n', '\0'} ==> c !in BranchOf(monitor.value).text)
      && monitor.value.expectedHead.Text? && IsHexText(monitor.value.expectedHead.text, 40)
    ensures MonitorMetadata(target, monitor).Ok? ==>
      var m := MonitorMetadata(target, monitor).value;
      && monitor.value.repository == Text(m.repository) && BranchOf(monitor.value) == Text(m.ref)
      && monitor.value.expectedHead == Text(m.expected)
  {
    hide IsHexText;
    if monitor.Some? && monitor.value.repository.Text? {
      SlashExact(monitor.value.repository.text);
    }
  }

  // The first of branch and ref that is neither missing nor empty, and "main" otherwise.
  function BranchOf(m: Settings): Value {
    if (m.branch.Text? && m.branch.text != "") || (m.branch.Other? && m.branch.truthy) then m.branch
    else if (m.ref.Text? && m.ref.text != "") || (m.ref.Other? && m.ref.truthy) then m.ref
    else Text("main")
  }

  ghost predicate OneSlash(s: string) {
    exists i :: 0 <= i < |s| && s[i] == '/' && forall j :: 0 <= j < |s| && j != i ==> s[j] != '/'
  }

  lemma {:induction false} SlashExact(s: string)
    ensures Occurrences(s, '/') == 1 <==> OneSlash(s)
    ensures Occurrences(s, '/') == 0 <==> '/' !in s
  {
    hide OneSlash;
    if s == "" { NoSlash(); }
    if s != "" {
      var t := s[1..];
      SlashExact(t);
      assert s == [s[0]] + t;
      if s[0] == '/' { SlashFirst(s); } else { SlashShift(s); }
    }
  }

  lemma NoSlash()
    ensures !OneSlash("")
  {}

  lemma SlashFirst(s: string)
    requires s != "" && s[0] == '/'
    ensures OneSlash(s) <==> '/' !in s[1..]
  {
    var t := s[1..];
    if '/' !in t {
      forall j | 1 <= j < |s| ensures s[j] != '/' { assert s[j] == t[j - 1]; }
    }
    if OneSlash(s) {
      forall j | 0 <= j < |t| ensures t[j] != '/' { assert t[j] == s[j + 1]; }
    }
  }

  lemma SlashShift(s: string)
    requires s != "" && s[0] != '/'
    ensures OneSlash(s[1..]) <==> OneSlash(s)
  {
    var t := s[1..];
    if OneSlash(t) {
      var i :| 0 <= i < |t| && t[i] == '/' && forall j :: 0 <= j < |t| && j != i ==> t[j] != '/';
      forall j | 0 <= j < |s| && j != i + 1 ensures s[j] != '/' { if j > 0 { assert s[j] == t[j - 1]; } }
      assert s[i + 1] == '/';
    }
    if OneSlash(s) {
      var i :| 0 <= i < |s| && s[i] == '/' && forall j :: 0 <= j < |s| && j != i ==> s[j] != '/';
      forall j | 0 <= j < |t| && j != i - 1 ensures t[j] != '/' { assert t[j] == s[j + 1]; }
      assert t[i - 1] == '/';
    }
  }

  // A part of a text, whatever the case of its letters A to Z.
  ghost predicate Mentions(message: string, part: string) { exists i: nat :: MentionedAt(message, part, i) }

  ghost predicate MentionedAt(message: string, part: string, i: nat) {
    i + |part| <= |message| && forall k :: 0 <= k < |part| ==> SameLetter(message[i + k], part[k])
  }

  predicate SameLetter(c: char, lower: char) { c == lower || ('A' <= c <= 'Z' && c as int + 32 == lower as int) }

  // The four words that end a run.
  lemma FatalExact(message: string)
    ensures Fatal(message) <==>
      Mentions(message, "rate") || Mentions(message, "auth") || Mentions(message, "403") || Mentions(message, "401")
  {
    hide Contains, Mentions, Lower;
    ContainsExact(message, "rate");
    ContainsExact(message, "auth");
    ContainsExact(message, "403");
    ContainsExact(message, "401");
  }

  // A row ends the run exactly when it is a failure whose text holds one of these words.
  lemma StopsExact(row: Row)
    ensures Stops(row) <==>
      row.status == MonitorFailure
      && (Mentions(row.error, "rate") || Mentions(row.error, "auth")
          || Mentions(row.error, "403") || Mentions(row.error, "401"))
  {
    hide Fatal, Mentions;
    FatalExact(row.error);
  }

  lemma ContainsExact(message: string, part: string)
    requires forall c :: c in part ==> !('A' <= c <= 'Z')
    ensures Contains(Lower(message), part) <==> Mentions(message, part)
  {
    hide MentionedAt;
    var text := Lower(message);
    forall i: nat | i <= |message| ensures part <= text[i..] <==> MentionedAt(message, part, i) {
      MentionedExact(message, part, i);
    }
    forall i: nat | MentionedAt(message, part, i) ensures i <= |message| { MentionedInside(message, part, i); }
  }

  lemma MentionedInside(message: string, part: string, i: nat)
    requires MentionedAt(message, part, i)
    ensures i <= |message|
  {}

  lemma MentionedExact(message: string, part: string, i: nat)
    requires i <= |message| && forall c :: c in part ==> !('A' <= c <= 'Z')
    ensures part <= Lower(message)[i..] <==> MentionedAt(message, part, i)
  {
    var rest := Lower(message)[i..];
    if i + |part| <= |message| {
      forall k | 0 <= k < |part| ensures rest[k] == part[k] <==> SameLetter(message[i + k], part[k]) {
        assert part[k] in part && rest[k] == Lower(message)[i + k];
      }
      assert part <= rest <==> rest[..|part|] == part;
      assert rest[..|part|] == part <==> forall k :: 0 <= k < |part| ==> rest[k] == part[k];
    }
  }

  // Which fault is named: the first one of monitor object, repository, branch and expected head.
  lemma FaultExact(target: string, monitor: Option<Settings>)
    requires MonitorMetadata(target, monitor).Err?
    ensures MonitorMetadata(target, monitor).error ==
      (if monitor.None? then "target has no monitor object: "
       else if !(monitor.value.repository.Text? && OneSlash(monitor.value.repository.text))
         then "target has invalid monitor.repository: "
       else if !(BranchOf(monitor.value).Text? && BranchOf(monitor.value).text != ""
                 && forall c :: c in {'\r', '\n', '\0'} ==> c !in BranchOf(monitor.value).text)
         then "target has invalid monitor branch/ref: "
       else "target has invalid monitor.expected_head: ") + target
  {
    hide IsHexText;
    if monitor.Some? && monitor.value.repository.Text? {
      SlashExact(monitor.value.repository.text);
    }
  }

  // A failed target is shown with the settings it has, and with empty ones where it has none.
  lemma FailureExact(target: string, record: Record, error: string)
    ensures var row := FailureRow(target, record, error);
      && row.target == target && row.error == error && row.status == MonitorFailure && row.observed == ""
      && if record.NotAnObject? || record.monitor.None? then
           row.repository == Text("") && row.ref == Text("") && row.expected == Text("")
         else
           var m := record.monitor.value;
           && Shown(row.repository, m.repository) && Shown(row.expected, m.expectedHead)
           && (row.ref == BranchOf(m) || (row.ref == Text("") && BranchOf(m) == Text("main")))
    ensures SKIPPED == "not attempted after fatal GitHub authentication/rate failure"
  {}

  predicate Shown(shown: Value, setting: Value) {
    if setting == Absent then shown == Text("") else shown == setting
  }

  // An attempt compares the head with the expected one, or names what went wrong.
  lemma AttemptExact(target: string, record: Record, heads: Heads)
    requires record.Record?
    ensures var row, m := AttemptRow(target, record, heads), MonitorMetadata(target, record.monitor);
      if m.Err? then row == FailureRow(target, record, m.error)
      else if heads(target).Err? then row == FailureRow(target, record, heads(target).error)
      else
        && row.repository == Text(m.value.repository) && row.ref == Text(m.value.ref)
        && row.expected == Text(m.value.expected) && row.observed == heads(target).value
        && row.error == "" && row.target == target && row.status != MonitorFailure
        && (row.status == Supported <==> row.expected == Text(row.observed))
  {
    hide MonitorMetadata, FailureRow;
  }
}
