// Module-ID ownership in tools/otastctl/compatibility.py: conflicts, observed dependencies and
// managed targets may not share an ID.
module Registry {
  import opened Results
  import opened Ordering

  // A JSON value where a list of strings is expected.
  datatype Item = Text(text: string) | NotText

  datatype IdList = NotAList | Ids(items: seq<Item>)

  // One record of a family: the checks before its IDs, its IDs, the checks after them.
  datatype Record = Record(headOk: bool, ids: IdList, tailOk: bool)

  // None where the value is no object; records in the order of the object.
  datatype Registry = Registry(conflicts: Option<seq<Record>>, strictExclusions: IdList,
                               dependencies: Option<seq<Record>>, targets: Option<seq<Record>>)

  datatype RegistryError =
    | MissingFamily
    | BadRecord
    | BadStringList
    | DeclaredTwice(id: string)
    | OverlapsConflict(id: string)
    | OverlapsObserved(id: string)
    | StrictMismatch

  // ---- `_require_string_list` ----

  predicate GoodText(i: Item) {
    i.Text? && i.text != "" && forall c :: c in i.text ==> c != '\r' && c != '\n' && c != '\0'
  }

  function Texts(items: seq<Item>): (r: seq<string>)
    ensures |r| == |items|
  {
    seq(|items|, i requires 0 <= i < |items| => if items[i].Text? then items[i].text else "")
  }

  function StringList(v: IdList, allowEmpty: bool): Result<seq<string>, RegistryError> {
    if v.NotAList? || (v.items == [] && !allowEmpty) then Err(BadStringList)
    else if exists i :: i in v.items && !GoodText(i) then Err(BadStringList)
    else if !Distinct(Texts(v.items)) then Err(BadStringList)
    else Ok(Texts(v.items))
  }

  method RequireStringList(v: IdList, allowEmpty: bool) returns (r: Result<seq<string>, RegistryError>)
    ensures r == StringList(v, allowEmpty)
  {
    hide GoodText;
    if v.NotAList? || (v.items == [] && !allowEmpty) {
      return Err(BadStringList);
    }
    var result: seq<string> := [];
    for i := 0 to |v.items|
      invariant |result| == i && forall k :: 0 <= k < i ==> GoodText(v.items[k]) && result[k] == Texts(v.items)[k]
    {
      if !GoodText(v.items[i]) {
        return Err(BadStringList);
      }
      assert v.items[i].Text? by { GoodIsText(v.items[i]); }
      result := result + [v.items[i].text];
    }
    assert result == Texts(v.items);
    if !Distinct(result) {
      return Err(BadStringList);
    }
    return Ok(result);
  }

  lemma GoodIsText(i: Item)
    requires GoodText(i)
    ensures i.Text?
  {}

  // ---- the three loops ----

  // IDs claimed so far: by the family being read, by conflicts, by observed dependencies.
  datatype Claims = Claims(own: set<string>, conflicts: set<string>, observed: set<string>)

  function ClaimAll(ids: seq<string>, c: Claims): Result<set<string>, RegistryError> {
    if ids == [] then Ok(c.own)
    else if ids[0] in c.own then Err(DeclaredTwice(ids[0]))
    else if ids[0] in c.conflicts then Err(OverlapsConflict(ids[0]))
    else if ids[0] in c.observed then Err(OverlapsObserved(ids[0]))
    else ClaimAll(ids[1..], c.(own := c.own + {ids[0]}))
  }

  function ClaimRecords(records: seq<Record>, allowEmpty: bool, c: Claims): Result<set<string>, RegistryError> {
    if records == [] then Ok(c.own)
    else if !records[0].headOk then Err(BadRecord)
    else
      var ids := StringList(records[0].ids, allowEmpty);
      if ids.Err? then Err(ids.error)
      else
        var own := ClaimAll(ids.value, c);
        if own.Err? then own
        else if !records[0].tailOk then Err(BadRecord)
        else ClaimRecords(records[1..], allowEmpty, c.(own := own.value))
  }

  method ClaimRecord(ids: seq<string>, c: Claims) returns (r: Result<set<string>, RegistryError>)
    ensures r == ClaimAll(ids, c)
  {
    var own := c.own;
    assert ids[0..] == ids;
    for i := 0 to |ids|
      invariant ClaimAll(ids, c) == ClaimAll(ids[i..], c.(own := own))
    {
      assert ids[i..][1..] == ids[i + 1..];
      var id := ids[i];
      if id in own {
        return Err(DeclaredTwice(id));
      }
      if id in c.conflicts {
        return Err(OverlapsConflict(id));
      }
      if id in c.observed {
        return Err(OverlapsObserved(id));
      }
      own := own + {id};
    }
    return Ok(own);
  }

  method ClaimFamily(records: seq<Record>, allowEmpty: bool, c: Claims) returns (r: Result<set<string>, RegistryError>)
    ensures r == ClaimRecords(records, allowEmpty, c)
  {
    hide StringList, ClaimAll;
    var own := c.own;
    assert records[0..] == records;
    for i := 0 to |records|
      invariant ClaimRecords(records, allowEmpty, c) == ClaimRecords(records[i..], allowEmpty, c.(own := own))
    {
      assert records[i..][1..] == records[i + 1..];
      if !records[i].headOk {
        return Err(BadRecord);
      }
      var ids := RequireStringList(records[i].ids, allowEmpty);
      if ids.Err? {
        return Err(ids.error);
      }
      var claimed := ClaimRecord(ids.value, c.(own := own));
      if claimed.Err? {
        return claimed;
      }
      if !records[i].tailOk {
        return Err(BadRecord);
      }
      own := claimed.value;
    }
    return Ok(own);
  }

  predicate Missing(f: Option<seq<Record>>) { f.None? || f.value == [] }

  // None when the registry is accepted.
  function Ownership(r: Registry): Option<RegistryError> {
    if Missing(r.conflicts) then Some(MissingFamily) else
    var conflicts := ClaimRecords(r.conflicts.value, false, Claims({}, {}, {}));
    if conflicts.Err? then Some(conflicts.error) else
    var strict := StringList(r.strictExclusions, false);
    if strict.Err? then Some(strict.error)
    else if (set s | s in strict.value) != conflicts.value then Some(StrictMismatch)
    else if Missing(r.dependencies) then Some(MissingFamily) else
    var observed := ClaimRecords(r.dependencies.value, true, Claims({}, conflicts.value, {}));
    if observed.Err? then Some(observed.error)
    else if Missing(r.targets) then Some(MissingFamily) else
    var managed := ClaimRecords(r.targets.value, false, Claims({}, conflicts.value, observed.value));
    if managed.Err? then Some(managed.error) else None
  }

  method ValidateOwnership(r: Registry) returns (e: Option<RegistryError>)
    ensures e == Ownership(r)
  {
    hide ClaimRecords, StringList;
    if Missing(r.conflicts) {
      return Some(MissingFamily);
    }
    var conflicts := ClaimFamily(r.conflicts.value, false, Claims({}, {}, {}));
    if conflicts.Err? {
      return Some(conflicts.error);
    }
    var strict := RequireStringList(r.strictExclusions, false);
    if strict.Err? {
      return Some(strict.error);
    }
    if (set s | s in strict.value) != conflicts.value {
      return Some(StrictMismatch);
    }
    if Missing(r.dependencies) {
      return Some(MissingFamily);
    }
    var observed := ClaimFamily(r.dependencies.value, true, Claims({}, conflicts.value, {}));
    if observed.Err? {
      return Some(observed.error);
    }
    if Missing(r.targets) {
      return Some(MissingFamily);
    }
    var managed := ClaimFamily(r.targets.value, false, Claims({}, conflicts.value, observed.value));
    if managed.Err? {
      return Some(managed.error);
    }
    return None;
  }

  // ---- ownership as a partition ----

  predicate RecordOk(r: Record, allowEmpty: bool) { r.headOk && r.tailOk && StringList(r.ids, allowEmpty).Ok? }

  function IdsOf(r: Record): seq<string> { if r.ids.Ids? then Texts(r.ids.items) else [] }

  function AllIds(records: seq<Record>): seq<string> {
    if records == [] then [] else IdsOf(records[0]) + AllIds(records[1..])
  }

  function AsSet(s: seq<string>): set<string> { set x | x in s }

  // The IDs can be added to the claims: new, and each once.
  predicate Claimable(ids: seq<string>, c: Claims) {
    Distinct(ids) && forall id :: id in ids ==> id !in c.own && id !in c.conflicts && id !in c.observed
  }

  lemma {:induction false} ClaimAllExact(ids: seq<string>, c: Claims)
    ensures ClaimAll(ids, c).Ok? <==> Claimable(ids, c)
    ensures ClaimAll(ids, c).Ok? ==> ClaimAll(ids, c).value == c.own + AsSet(ids)
  {
    if ids != [] {
      assert ids == [ids[0]] + ids[1..];
      DistinctHead(ids[0], ids[1..]);
      ClaimAllExact(ids[1..], c.(own := c.own + {ids[0]}));
      assert c.own + {ids[0]} + AsSet(ids[1..]) == c.own + AsSet(ids);
    } else {
      assert c.own + AsSet(ids) == c.own;
    }
  }

  lemma {:induction false} ClaimableConcat(a: seq<string>, b: seq<string>, c: Claims)
    ensures Claimable(a + b, c) <==> Claimable(a, c) && Claimable(b, c.(own := c.own + AsSet(a)))
  {
    DistinctConcat(a, b);
    hide Distinct;
  }

  lemma {:induction false} DistinctConcat(a: seq<string>, b: seq<string>)
    ensures Distinct(a + b) <==> Distinct(a) && Distinct(b) && forall x :: x in a ==> x !in b
  {
    if a == [] {
      assert a + b == b;
    } else {
      assert a == [a[0]] + a[1..] && a + b == [a[0]] + (a[1..] + b);
      DistinctHead(a[0], a[1..]);
      DistinctHead(a[0], a[1..] + b);
      DistinctConcat(a[1..], b);
    }
  }

  predicate RecordsOk(records: seq<Record>, allowEmpty: bool) { forall r :: r in records ==> RecordOk(r, allowEmpty) }

  lemma RecordsOkCons(r: Record, rest: seq<Record>, allowEmpty: bool)
    ensures RecordsOk([r] + rest, allowEmpty) <==> RecordOk(r, allowEmpty) && RecordsOk(rest, allowEmpty)
  {
    hide RecordOk;
    assert r in [r] + rest && forall x :: x in rest ==> x in [r] + rest;
  }

  lemma {:induction false} ClaimRecordsExact(records: seq<Record>, allowEmpty: bool, c: Claims)
    ensures ClaimRecords(records, allowEmpty, c).Ok? <==>
      RecordsOk(records, allowEmpty) && Claimable(AllIds(records), c)
    ensures ClaimRecords(records, allowEmpty, c).Ok? ==>
      ClaimRecords(records, allowEmpty, c).value == c.own + AsSet(AllIds(records))
  {
    if records == [] {
      assert c.own + AsSet(AllIds(records)) == c.own;
    } else {
      RecordsOkCons(records[0], records[1..], allowEmpty);
      hide Claimable, ClaimAll, AllIds, AsSet, RecordsOk, StringList, IdsOf;
      var r, rest := records[0], records[1..];
      assert records == [r] + rest;
      var next := c.(own := c.own + AsSet(IdsOf(r)));
      ClaimAllExact(IdsOf(r), c);
      ClaimRecordsExact(rest, allowEmpty, next);
      ClaimableConcat(IdsOf(r), AllIds(rest), c);
      AllIdsCons(r, rest);
      if StringList(r.ids, allowEmpty).Ok? {
        ListIsIds(r, allowEmpty);
      }
    }
  }

  lemma AllIdsCons(r: Record, rest: seq<Record>)
    ensures AllIds([r] + rest) == IdsOf(r) + AllIds(rest)
    ensures forall own: set<string> :: own + AsSet(AllIds([r] + rest)) == own + AsSet(IdsOf(r)) + AsSet(AllIds(rest))
  {
    assert ([r] + rest)[1..] == rest;
  }

  lemma ListIsIds(r: Record, allowEmpty: bool)
    requires StringList(r.ids, allowEmpty).Ok?
    ensures StringList(r.ids, allowEmpty).value == IdsOf(r)
  {}

  predicate Present(f: Option<seq<Record>>, allowEmpty: bool) { !Missing(f) && RecordsOk(f.value, allowEmpty) }

  // Nothing but well-formed records, one owner for every ID, and the mirror of the conflicts.
  predicate Partition(r: Registry) {
    && Present(r.conflicts, false) && Present(r.dependencies, true) && Present(r.targets, false)
    && StringList(r.strictExclusions, false).Ok?
    && Distinct(AllIds(r.conflicts.value) + AllIds(r.dependencies.value) + AllIds(r.targets.value))
    && AsSet(StringList(r.strictExclusions, false).value) == AsSet(AllIds(r.conflicts.value))
  }

  // The registry is accepted exactly when ownership is a partition.
  lemma OwnershipExact(r: Registry)
    ensures Ownership(r).None? <==> Partition(r)
  {
    hide ClaimRecords, StringList, Distinct, AllIds, RecordsOk;
    if !Missing(r.conflicts) && !Missing(r.dependencies) && !Missing(r.targets) {
      var a, b, c := AllIds(r.conflicts.value), AllIds(r.dependencies.value), AllIds(r.targets.value);
      ClaimRecordsExact(r.conflicts.value, false, Claims({}, {}, {}));
      ClaimRecordsExact(r.dependencies.value, true, Claims({}, AsSet(a), {}));
      ClaimRecordsExact(r.targets.value, false, Claims({}, AsSet(a), AsSet(b)));
      assert {} + AsSet(a) == AsSet(a) && {} + AsSet(b) == AsSet(b);
      DistinctConcat(a, b);
      DistinctConcat(a + b, c);
    } else if !Missing(r.conflicts) {
      ClaimRecordsExact(r.conflicts.value, false, Claims({}, {}, {}));
    }
  }

  // Records of all three families.
  function AllRecords(r: Registry): seq<Record>
    requires r.conflicts.Some? && r.dependencies.Some? && r.targets.Some?
  {
    r.conflicts.value + r.dependencies.value + r.targets.value
  }

  lemma {:induction false} AllIdsConcat(a: seq<Record>, b: seq<Record>)
    ensures AllIds(a + b) == AllIds(a) + AllIds(b)
  {
    if a == [] {
      assert a + b == b;
    } else {
      assert (a + b)[1..] == a[1..] + b;
      AllIdsConcat(a[1..], b);
    }
  }

  lemma {:induction false} DistinctOwners(records: seq<Record>, i: nat, j: nat, id: string)
    requires Distinct(AllIds(records)) && i < j < |records| && id in IdsOf(records[i])
    ensures id !in IdsOf(records[j])
  {
    var rest := records[1..];
    DistinctConcat(IdsOf(records[0]), AllIds(rest));
    if i == 0 {
      MemberIds(rest, j - 1, id);
    } else {
      DistinctOwners(rest, i - 1, j - 1, id);
    }
  }

  lemma {:induction false} MemberIds(records: seq<Record>, j: nat, id: string)
    requires j < |records|
    ensures id in IdsOf(records[j]) ==> id in AllIds(records)
  {
    if j > 0 {
      MemberIds(records[1..], j - 1, id);
    }
  }

  // In an accepted registry no module ID stands in two records, of whatever families.
  lemma NoIdHasTwoOwners(r: Registry, i: nat, j: nat, id: string)
    requires Ownership(r).None?
    ensures r.conflicts.Some? && r.dependencies.Some? && r.targets.Some?
    ensures var all := AllRecords(r);
      i < |all| && j < |all| && id in IdsOf(all[i]) && id in IdsOf(all[j]) ==> i == j
  {
    hide Ownership, StringList, RecordsOk, AllIds, IdsOf, Distinct;
    OwnershipExact(r);
    AllIdsConcat(r.conflicts.value, r.dependencies.value);
    AllIdsConcat(r.conflicts.value + r.dependencies.value, r.targets.value);
    var all := AllRecords(r);
    if i < |all| && j < |all| && id in IdsOf(all[i]) && id in IdsOf(all[j]) {
      if i < j { DistinctOwners(all, i, j, id); }
      if j < i { DistinctOwners(all, j, i, id); }
    }
  }

  lemma RemoveOne(a: seq<Record>, b: seq<Record>, k: nat)
    requires a != [] && k < |b| && a[0] == b[k] && multiset(a) == multiset(b)
    ensures multiset(a[1..]) == multiset(b[..k] + b[k + 1..])
  {
    assert a == [a[0]] + a[1..];
    assert b == b[..k] + [b[k]] + b[k + 1..];
    assert multiset(a[1..]) == multiset(a) - multiset{a[0]};
    assert multiset(b[..k] + b[k + 1..]) == multiset(b) - multiset{b[k]};
  }

  lemma {:induction false} AllIdsPermuted(a: seq<Record>, b: seq<Record>)
    requires multiset(a) == multiset(b)
    ensures multiset(AllIds(a)) == multiset(AllIds(b))
  {
    SameMembers(a, b);
    assert |a| == |multiset(a)| == |multiset(b)| == |b|;
    if a != [] {
      assert a[0] in b;
      var k :| 0 <= k < |b| && b[k] == a[0];
      var rest := b[..k] + b[k + 1..];
      assert b == b[..k] + [b[k]] + b[k + 1..];
      RemoveOne(a, b, k);
      AllIdsPermuted(a[1..], rest);
      AllIdsConcat(b[..k], b[k + 1..]);
      AllIdsConcat(b[..k] + [b[k]], b[k + 1..]);
      AllIdsConcat(b[..k], [b[k]]);
      assert AllIds([b[k]]) == IdsOf(b[k]) + AllIds([b[k]][1..]);
    }
  }

  lemma DistinctPermuted(a: seq<string>, b: seq<string>)
    requires multiset(a) == multiset(b) && Distinct(a)
    ensures Distinct(b)
  {
    forall x ensures multiset(b)[x] <= 1 { DistinctCount(a, x); }
    CountMakesDistinct(b);
  }

  // The order of the records, in every family, decides nothing.
  lemma OrderDecidesNothing(r: Registry, s: Registry)
    requires r.conflicts.Some? && s.conflicts.Some? && multiset(r.conflicts.value) == multiset(s.conflicts.value)
    requires r.dependencies.Some? && s.dependencies.Some?
      && multiset(r.dependencies.value) == multiset(s.dependencies.value)
    requires r.targets.Some? && s.targets.Some? && multiset(r.targets.value) == multiset(s.targets.value)
    requires r.strictExclusions == s.strictExclusions
    ensures Ownership(r).None? <==> Ownership(s).None?
  {
    hide Ownership;
    OwnershipExact(r);
    OwnershipExact(s);
    if Partition(r) { PartitionPermuted(r, s); }
    if Partition(s) { PartitionPermuted(s, r); }
  }

  lemma PartitionPermuted(r: Registry, s: Registry)
    requires Partition(r)
    requires s.conflicts.Some? && multiset(r.conflicts.value) == multiset(s.conflicts.value)
    requires s.dependencies.Some? && multiset(r.dependencies.value) == multiset(s.dependencies.value)
    requires s.targets.Some? && multiset(r.targets.value) == multiset(s.targets.value)
    requires r.strictExclusions == s.strictExclusions
    ensures Partition(s)
  {
    hide StringList, AllIds, RecordOk, Distinct;
    AllIdsPermuted(r.conflicts.value, s.conflicts.value);
    AllIdsPermuted(r.dependencies.value, s.dependencies.value);
    AllIdsPermuted(r.targets.value, s.targets.value);
    SameMembers(r.conflicts.value, s.conflicts.value);
    SameMembers(r.dependencies.value, s.dependencies.value);
    SameMembers(r.targets.value, s.targets.value);
    SameMembers(AllIds(r.conflicts.value), AllIds(s.conflicts.value));
    SameLength(r.conflicts.value, s.conflicts.value);
    SameLength(r.dependencies.value, s.dependencies.value);
    SameLength(r.targets.value, s.targets.value);
    DistinctPermuted(AllIds(r.conflicts.value) + AllIds(r.dependencies.value) + AllIds(r.targets.value),
                     AllIds(s.conflicts.value) + AllIds(s.dependencies.value) + AllIds(s.targets.value));
  }

  lemma SameLength(a: seq<Record>, b: seq<Record>)
    requires multiset(a) == multiset(b)
    ensures |a| == |b|
  {
    assert |multiset(a)| == |multiset(b)|;
  }

  // A string list is accepted exactly if it is a list, has items where it must, and its items are
  // non-empty strings without line breaks and zero characters, each once.
  lemma StringListExact(v: IdList, allowEmpty: bool)
    ensures StringList(v, allowEmpty).Ok? <==>
      && v.Ids? && (v.items != [] || allowEmpty)
      && (forall i :: i in v.items ==>
            i.Text? && i.text != "" && '\r' !in i.text && '\n' !in i.text && '\0' !in i.text)
      && (forall j, k :: 0 <= j < k < |v.items| ==> v.items[j] != v.items[k])
    ensures StringList(v, allowEmpty).Ok? ==>
      var texts := StringList(v, allowEmpty).value;
      |texts| == |v.items| && forall k :: 0 <= k < |texts| ==> v.items[k] == Text(texts[k])
  {
    if v.Ids? && forall i :: i in v.items ==> GoodText(i) {
      forall k | 0 <= k < |v.items| ensures v.items[k] == Text(Texts(v.items)[k]) {
        assert v.items[k] in v.items;
      }
    }
  }

  // A family is there if it is a list with records in it.
  lemma FamilyExact(family: Option<seq<Record>>, allowEmpty: bool)
    ensures Present(family, allowEmpty) <==>
      family.Some? && |family.value| > 0 && RecordsOk(family.value, allowEmpty)
  {}
}
