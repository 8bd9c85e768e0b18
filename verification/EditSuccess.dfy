// When the edit of scripts/otast-maintenance.py goes through: for every JSON text in which each
// searched key stands first at the member it is meant to find.
module EditSuccess {
  import opened Results
  import opened Json
  import opened ObjectScanner
  import opened HeadEdit
  import opened Strings
  import opened Whitespace
  import Rendering

  // ---- the member a name denotes

  // In the member list from i on, the last member of this name: where its key token starts, and
  // where its value does.
  function MemberPlace(t: string, i: nat, name: Codes): Option<(nat, nat)>
    decreases |t| - i
  {
    var one := ParseMember(t, i);
    if one.None? then None else
    var (keyEnd, value, m) := one.value;
    var later := if m < |t| && t[m] == ',' then MemberPlace(t, SkipWs(t, m + 1), name) else None;
    if later.Some? then later
    else if TokenText(t, i, keyEnd) == name && SkipWs(t, keyEnd) < |t| then Some((i, SkipWs(t, SkipWs(t, keyEnd) + 1)))
    else None
  }

  function Place(t: string, o: nat, name: Codes): Option<(nat, nat)> {
    if o < |t| && t[o] == '{' then MemberPlace(t, SkipWs(t, o + 1), name) else None
  }

  // A member with its key at k and its value at v.
  predicate MemberShape(t: string, k: nat, v: nat) {
    && k < |t| && t[k] == '"' && StringEnd(t, k + 1).Some?
    && var d := SkipWs(t, StringEnd(t, k + 1).value);
       d < |t| && t[d] == ':' && v == SkipWs(t, d + 1)
  }

  // A place leads to the value that looking the name up yields, within the member list.
  predicate Leads(t: string, i: nat, place: (nat, nat), members: Members, end: nat, name: Codes) {
    var (k, v) := place;
    && i <= k < v && MemberShape(t, k, v)
    && ParseValue(t, v).Some? && ParseValue(t, v).value.1 < end
    && Lookup(t, members, name) == Some(ParseValue(t, v).value.0)
  }

  lemma LeadsLater(t: string, i: nat, j: nat, place: (nat, nat), members: Members, rest: Members, end: nat, name: Codes)
    requires i <= j && Leads(t, j, place, rest, end, name) && members.Bind? && members.rest == rest
    ensures Leads(t, i, place, members, end, name)
  {
    hide ParseValue, MemberShape, TokenText;
  }

  lemma LeadsHere(t: string, i: nat, keyEnd: nat, value: Tree, m: nat, rest: Members, end: nat, name: Codes)
    requires ParseMember(t, i) == Some((keyEnd, value, m)) && m < end
    requires Lookup(t, rest, name).None? && TokenText(t, i, keyEnd) == name
    ensures SkipWs(t, keyEnd) < |t|
    ensures Leads(t, i, (i, SkipWs(t, SkipWs(t, keyEnd) + 1)), Bind(i, keyEnd, value, rest), end, name)
  {
    hide ParseValue, TokenText, StringEnd;
    MemberStep(t, i);
  }

  lemma {:induction false} PlaceIsLookup(t: string, i: nat, name: Codes)
    requires ParseMembers(t, i).Some? && MemberPlace(t, i, name).Some?
    ensures Leads(t, i, MemberPlace(t, i, name).value, ParseMembers(t, i).value.0, ParseMembers(t, i).value.1, name)
    decreases |t| - i
  {
    hide ParseMember, ParseMembers, TokenText, Leads, SkipWs;
    MembersEnd(t, i);
    var (keyEnd, value, m) := ParseMember(t, i).value;
    var members, end := ParseMembers(t, i).value.0, ParseMembers(t, i).value.1;
    var j := SkipWs(t, m + 1);
    if t[m] == ',' && MemberPlace(t, j, name).Some? {
      PlaceIsLookup(t, j, name);
      LeadsLater(t, i, j, MemberPlace(t, j, name).value, members, members.rest, end, name);
    } else {
      if t[m] == ',' { NoPlaceNoLookup(t, j, name); }
      LeadsHere(t, i, keyEnd, value, m, members.rest, end, name);
    }
  }

  lemma MembersEnd(t: string, i: nat)
    requires ParseMembers(t, i).Some?
    ensures ParseMember(t, i).Some?
    ensures var (keyEnd, v, m) := ParseMember(t, i).value;
      && m < |t| && (t[m] == '}' || t[m] == ',')
      && (t[m] == '}' ==> ParseMembers(t, i) == Some((Bind(i, keyEnd, v, NoMember), m + 1)))
      && (t[m] == ',' ==>
            var rest := ParseMembers(t, SkipWs(t, m + 1));
            rest.Some? && ParseMembers(t, i) == Some((Bind(i, keyEnd, v, rest.value.0), rest.value.1)))
  {
    hide ParseMember, SkipWs;
  }

  lemma {:induction false} NoPlaceNoLookup(t: string, i: nat, name: Codes)
    requires ParseMembers(t, i).Some? && MemberPlace(t, i, name).None?
    ensures Lookup(t, ParseMembers(t, i).value.0, name).None?
    decreases |t| - i
  {
    hide ParseValue, ParseMember, TokenText, StringEnd;
    MemberStep(t, i);
    MembersEnd(t, i);
    var m := ParseMember(t, i).value.2;
    if m < |t| && t[m] == ',' {
      NoPlaceNoLookup(t, SkipWs(t, m + 1), name);
    }
  }

  // ---- an object on the way to the head

  predicate ObjectAt(t: string, o: nat) { o < |t| && t[o] == '{' && ParseValue(t, o).Some? }

  function EndOf(t: string, o: nat): nat
    requires ObjectAt(t, o)
  {
    ParseValue(t, o).value.1
  }

  // In the object at o the name denotes the member with key at k and value at v; and of all
  // places from `start` on where the key text stands before a colon, k is the first.
  ghost predicate FirstAtMember(t: string, o: nat, key: string, start: nat, end: nat, k: nat, v: nat) {
    && Place(t, o, CodesOf(key)) == Some((k, v)) && StringEnd(t, k + 1) == Some(k + |key| + 2)
    && exists c: nat :: FirstKeyAt(t, key, start, end, k, c)
  }

  lemma JsonSpaceIsSpace(c: char)
    ensures IsWs(c) ==> IsSpace(c)
    ensures c == ':' || c == '{' || c == '"' ==> !IsSpace(c)
  {}

  // The white space in front of a token is skipped alike by the scanner and by the grammar.
  lemma SameSkip(t: string, i: nat, end: nat)
    requires i <= |t| && SkipWs(t, i) < end <= |t| && !IsSpace(t[SkipWs(t, i)])
    ensures SkipSpace(t, i, end) == SkipWs(t, i)
  {
    var a, b := SkipWs(t, i), SkipSpace(t, i, end);
    if b < a { JsonSpaceIsSpace(t[b]); }
  }

  // The colon the search stops at is the colon of the member.
  lemma SameColon(t: string, key: string, k: nat, v: nat, c: nat, end: nat)
    requires MemberShape(t, k, v) && StringEnd(t, k + 1) == Some(k + |key| + 2) && KeyAt(t, key, k, c, end)
    ensures SkipWs(t, k + |key| + 2) == c && v == SkipWs(t, c + 1)
  {
    var d := SkipWs(t, k + |key| + 2);
    JsonSpaceIsSpace(':');
  }

  lemma ObjectMembers(t: string, o: nat, name: Codes)
    requires ObjectAt(t, o) && Place(t, o, name).Some?
    ensures ParseValue(t, o).value.0.Obj?
    ensures Leads(t, SkipWs(t, o + 1), Place(t, o, name).value, ParseValue(t, o).value.0.members, EndOf(t, o), name)
  {
    hide ParseMembers, Leads, MemberPlace;
    var j := SkipWs(t, o + 1);
    if j < |t| && t[j] == '}' {
      NoMemberHere(t, j, name);
    } else {
      PlaceIsLookup(t, j, name);
    }
  }

  lemma NoMemberHere(t: string, j: nat, name: Codes)
    requires j < |t| && t[j] == '}'
    ensures MemberPlace(t, j, name).None?
  {}

  // The scanner finds the object its key denotes.
  lemma ObjectIsFound(t: string, o: nat, key: string, start: nat, end: nat, k: nat, v: nat)
    requires ObjectAt(t, o) && FirstAtMember(t, o, key, start, end, k, v) && v < |t| && t[v] == '{'
    requires EndOf(t, o) <= end <= |t|
    ensures ObjectAt(t, v) && EndOf(t, v) < EndOf(t, o)
    ensures FindObject(t, key, start, end) == Ok((v, EndOf(t, v)))
    ensures ParseValue(t, o).value.0.Obj?
    ensures Lookup(t, ParseValue(t, o).value.0.members, CodesOf(key)) == Some(ParseValue(t, v).value.0)
  {
    hide ParseValue, Scan, SearchKey, Place, KeyAt, Lookup, CodesOf, MemberShape;
    ObjectMembers(t, o, CodesOf(key));
    var c: nat :| FirstKeyAt(t, key, start, end, k, c);
    SearchKeyExact(t, key, start, end);
    SameColon(t, key, k, v, c, end);
    ColonBefore(t, key, k, c, end);
    JsonSpaceIsSpace('{');
    SameSkip(t, c + 1, end);
    ScannerExact(t, key, start, end);
  }

  lemma ColonBefore(t: string, key: string, k: nat, c: nat, end: nat)
    requires KeyAt(t, key, k, c, end)
    ensures c < end <= |t|
  {}

  // ---- the theorem

  lemma RootIsDocument(t: string)
    requires Document(t).Some?
    ensures SkipWs(t, 0) < |t| ==>
      ParseValue(t, SkipWs(t, 0)).Some? && Document(t).value == ParseValue(t, SkipWs(t, 0)).value.0
  {}

  lemma HeadToken(t: string, h: nat, was: string)
    requires h + HEAD_LENGTH + 2 <= |t| && t[h] == '"' && t[h + HEAD_LENGTH + 1] == '"' && IsHead(was)
    requires forall k :: 0 <= k < |was| ==> t[h + 1 + k] == was[k]
    ensures ParseValue(t, h) == Some((Str(h, h + HEAD_LENGTH + 2), h + HEAD_LENGTH + 2))
    ensures t[h + 1..h + 1 + HEAD_LENGTH] == was
  {
    forall k | h + 1 <= k < h + 1 + HEAD_LENGTH ensures IsHex(t[k]) {
      assert t[k] == was[k - h - 1] && was[k - h - 1] in was;
    }
    StringThroughHole(t, h + 1, HEAD_LENGTH, h + 1);
  }

  // The way from the root to the head, step by step: each name denotes an object whose key text
  // stands first at it, within the object before, and the first match of the head lies there too.
  ghost predicate Way(t: string, target: string, was: string, k: seq<nat>, o: seq<nat>, c: nat) {
    && |k| == 4 && |o| == 5 && Document(t).Some? && o[0] == SkipWs(t, 0)
    && (forall i :: 0 <= i < 4 ==> ObjectAt(t, o[i]))
    && FirstAtMember(t, o[0], "targets", 0, |t|, k[0], o[1])
    && FirstAtMember(t, o[1], target, o[1], EndOf(t, o[1]), k[1], o[2])
    && FirstAtMember(t, o[2], "monitor", o[2], EndOf(t, o[2]), k[2], o[3])
    && Place(t, o[3], CodesOf("expected_head")) == Some((k[3], o[4]))
    && FirstHeadAt(t, was, o[3], EndOf(t, o[3]), k[3], c, o[4])
  }

  // Each object on the way is a member of the one before, and the scanner finds it there.
  lemma WayIsFound(t: string, target: string, was: string, k: seq<nat>, o: seq<nat>, c: nat)
    requires Way(t, target, was, k, o, c)
    ensures MonitorSpan(t, target) == Ok((o[3], EndOf(t, o[3]))) && EndOf(t, o[3]) <= |t|
    ensures LeadsTo(t, o[0], "targets", o[1]) && LeadsTo(t, o[1], target, o[2]) && LeadsTo(t, o[2], "monitor", o[3])
  {
    hide FirstAtMember, FindObject, Place, FirstHeadAt, Document, ParseValue, CodesOf, Lookup;
    ObjectIsFound(t, o[0], "targets", 0, |t|, k[0], o[1]);
    ObjectIsFound(t, o[1], target, o[1], EndOf(t, o[1]), k[1], o[2]);
    ObjectIsFound(t, o[2], "monitor", o[2], EndOf(t, o[2]), k[2], o[3]);
  }

  // Looking the name up in the object at o yields the value at v.
  predicate LeadsTo(t: string, o: nat, name: string, v: nat) {
    && ParseValue(t, o).Some? && ParseValue(t, v).Some? && ParseValue(t, o).value.0.Obj?
    && Lookup(t, ParseValue(t, o).value.0.members, CodesOf(name)) == Some(ParseValue(t, v).value.0)
  }

  lemma HeadIsContained(t: string, was: string, end: nat, k: nat, o: nat, c: nat, h: nat)
    requires ObjectAt(t, o) && Place(t, o, CodesOf("expected_head")) == Some((k, h))
    requires HeadAt(t, was, k, c, h, end) && end <= |t| && IsHead(was)
    ensures LeadsTo(t, o, "expected_head", h)
    ensures ParseValue(t, h) == Some((Str(h, h + HEAD_LENGTH + 2), h + HEAD_LENGTH + 2))
    ensures h + HEAD_LENGTH + 2 <= |t| && t[h + 1..h + 1 + HEAD_LENGTH] == was
  {
    hide ParseValue, Lookup, CodesOf, MemberShape, KeyAt, Place;
    ObjectMembers(t, o, CodesOf("expected_head"));
    HeadToken(t, h, was);
  }

  lemma PathLeadsToHead(t: string, target: string, was: string, k: seq<nat>, o: seq<nat>, c: nat)
    requires Way(t, target, was, k, o, c) && IsHead(was)
    ensures At(t, Document(t).value, HeadPath(target)) == Some(Str(o[4], o[4] + HEAD_LENGTH + 2))
    ensures o[4] + HEAD_LENGTH + 2 <= |t| && t[o[4] + 1..o[4] + 1 + HEAD_LENGTH] == was
  {
    hide FindObject, Place, Document, ParseValue, CodesOf, Lookup, FirstAtMember, HeadAt, At;
    RootIsDocument(t);
    WayIsFound(t, target, was, k, o, c);
    HeadIsContained(t, was, EndOf(t, o[3]), k[3], o[3], c, o[4]);
    FourSteps(t, Document(t).value, ParseValue(t, o[1]).value.0, ParseValue(t, o[2]).value.0,
              ParseValue(t, o[3]).value.0, ParseValue(t, o[4]).value.0, target);
  }

  lemma FourSteps(t: string, a: Tree, b: Tree, c: Tree, d: Tree, e: Tree, target: string)
    requires a.Obj? && Lookup(t, a.members, CodesOf("targets")) == Some(b)
    requires b.Obj? && Lookup(t, b.members, CodesOf(target)) == Some(c)
    requires c.Obj? && Lookup(t, c.members, CodesOf("monitor")) == Some(d)
    requires d.Obj? && Lookup(t, d.members, CodesOf("expected_head")) == Some(e)
    ensures At(t, a, HeadPath(target)) == Some(e)
  {
    hide Lookup, CodesOf, At;
    var x, y, z := CodesOf(target), CodesOf("monitor"), CodesOf("expected_head");
    assert HeadPath(target) == [CodesOf("targets")] + [x, y, z] && [x, y, z] == [x] + [y, z];
    assert [y, z] == [y] + [z] && [z] == [z] + [];
    AtStep(t, a, b, CodesOf("targets"), [x, y, z]);
    AtStep(t, b, c, x, [y, z]);
    AtStep(t, c, d, y, [z]);
    AtStep(t, d, e, z, []);
    AtEnd(t, e);
  }

  lemma AtStep(t: string, tree: Tree, sub: Tree, name: Codes, rest: seq<Codes>)
    requires tree.Obj? && Lookup(t, tree.members, name) == Some(sub)
    ensures At(t, tree, [name] + rest) == At(t, sub, rest)
  {
    assert ([name] + rest)[1..] == rest;
  }

  lemma AtEnd(t: string, tree: Tree)
    ensures At(t, tree, []) == Some(tree)
  {}

  // End to end: along such a way the edit succeeds, changes the head and nothing else, and the
  // document has the new head at its path.
  lemma EditSucceeds(t: string, target: string, was: string, next: string, k: seq<nat>, o: seq<nat>, c: nat)
    requires IsHead(was) && IsHead(next) && Way(t, target, was, k, o, c)
    ensures var h := o[4] + 1;
      && h + HEAD_LENGTH <= |t|
      && UpdateExpectedHead(t, target, was, next) == Ok(t[..h] + next + t[h + HEAD_LENGTH..])
    ensures var u := UpdateExpectedHead(t, target, was, next).value;
      && Loads(u).Some? && GetPath(Loads(u).value, HeadPath(target)) == Some(VStr(CodesOf(next)))
  {
    hide UpdateExpectedHead, MonitorSpan, SearchHead, Loads, Document, At, Eval, HeadPath, CodesOf, GetPath, SetPath;
    hide FirstAtMember, Place, HeadAt, ObjectAt;
    WayIsFound(t, target, was, k, o, c);
    PathLeadsToHead(t, target, was, k, o, c);
    SearchHeadExact(t, o[3], EndOf(t, o[3]), was);
    assert DenotesHead(t, target, o[4] + 1);
    HasHeadThere(t, target, was, o[4] + 1);
    EditExact(t, target, was, next);
    GetSet(Loads(t).value, HeadPath(target), VStr(CodesOf(next)));
  }

  lemma HasHeadThere(t: string, target: string, was: string, p: nat)
    requires DenotesHead(t, target, p) && IsHead(was) && p + HEAD_LENGTH < |t| && t[p..p + HEAD_LENGTH] == was
    ensures HasHead(t, target, was)
  {
    hide Document, At, GetPath, HeadPath, CodesOf, TokenText;
    LoadsIsEval(t);
    AtEval(t, Document(t).value, HeadPath(target));
    HeadTokenText(t, p, was);
    EvalStr(t, p - 1, p + HEAD_LENGTH + 1);
  }

  lemma {:induction false} GetSet(v: Value, path: seq<Codes>, x: Value)
    requires GetPath(v, path).Some?
    ensures GetPath(SetPath(v, path, x), path) == Some(x)
    decreases |path|
  {
    if path != [] {
      GetSet(v.fields[path[0]], path[1..], x);
    }
  }

  // ---- the smallest registry

  // Characters a string token spells as themselves.
  predicate PlainName(name: string) { forall c :: c in name ==> c >= ' ' && c != '"' && c != '\\' }

  // An object with one member.
  function Wrap(name: string, inner: string): string { ['{', '"'] + (name + (['"', ':'] + (inner + ['}']))) }

  function Smallest(target: string, head: string): string {
    Wrap("targets", Wrap(target, Wrap("monitor", Monitor(head))))
  }

  // The parts of such an object, where the text holds it at o.
  lemma WrapParts(t: string, o: nat, name: string, inner: string)
    requires HasAt(t, o, Wrap(name, inner))
    ensures var v := o + |name| + 4;
      && v + |inner| < |t| && t[o] == '{' && t[o + 1] == '"' && t[v - 2] == '"' && t[v - 1] == ':'
      && (forall k :: 0 <= k < |name| ==> t[o + 2 + k] == name[k])
      && HasAt(t, v, inner) && t[v + |inner|] == '}'
  {
    var tail := ['"', ':'] + (inner + ['}']);
    Rendering.HasParts(t, o, ['{', '"'], name + tail);
    Rendering.HasParts(t, o + 2, name, tail);
    Rendering.HasParts(t, o + 2 + |name|, ['"', ':'], inner + ['}']);
    Rendering.HasParts(t, o + 4 + |name|, inner, ['}']);
    TextAt(t, o, ['{', '"']);
    TextAt(t, o + 2, name);
    TextAt(t, o + 2 + |name|, ['"', ':']);
    TextAt(t, o + 4 + |name| + |inner|, ['}']);
  }

  lemma TextAt(t: string, i: nat, a: string)
    requires HasAt(t, i, a)
    ensures i + |a| <= |t| && forall k :: 0 <= k < |a| ==> t[i + k] == a[k]
  {
    var part := t[i..i + |a|];
    assert forall k :: 0 <= k < |a| ==> part[k] == t[i + k];
  }

  lemma {:induction false} PlainToken(t: string, i: nat, e: nat)
    requires i <= e < |t| && t[e] == '"' && forall k :: i <= k < e ==> t[k] >= ' ' && t[k] != '"' && t[k] != '\\'
    ensures StringEnd(t, i) == Some(e + 1) && Decoded(t, i, e) == CodesOf(t[i..e])
    decreases e - i
  {
    if i < e {
      PlainToken(t, i + 1, e);
      assert t[i..e] == [t[i]] + t[i + 1..e];
      assert CodesOf(t[i..e]) == [t[i] as int] + CodesOf(t[i + 1..e]);
    }
  }

  // Parsing such an object: its value, its one place, and its key in front of everything.
  lemma WrapRead(t: string, o: nat, name: string, inner: string)
    requires PlainName(name) && HasAt(t, o, Wrap(name, inner))
    requires var v := o + |name| + 4;
      ParseValue(t, v).Some? && ParseValue(t, v).value.1 == v + |inner| && v < |t| && !IsWs(t[v])
    ensures ObjectAt(t, o) && EndOf(t, o) == o + |Wrap(name, inner)| && !IsWs(t[o])
    ensures Place(t, o, CodesOf(name)) == Some((o + 1, o + |name| + 4))
    ensures StringEnd(t, o + 2) == Some(o + |name| + 3)
    ensures KeyAt(t, name, o + 1, o + |name| + 3, o + |Wrap(name, inner)|)
  {
    hide ParseValue, HasAt, Place, TokenText, CodesOf, StringEnd;
    WrapParts(t, o, name, inner);
    PlainKey(t, o + 1, name);
    OneMember(t, o, o + |name| + 3, o + |name| + 4, CodesOf(name));
  }

  lemma PlainKey(t: string, k: nat, name: string)
    requires PlainName(name) && k + |name| + 2 <= |t| && t[k] == '"' && t[k + |name| + 1] == '"'
    requires forall i :: 0 <= i < |name| ==> t[k + 1 + i] == name[i]
    ensures StringEnd(t, k + 1) == Some(k + |name| + 2) && TokenText(t, k, k + |name| + 2) == CodesOf(name)
  {
    hide Decoded, StringEnd, CodesOf;
    var e := k + 1 + |name|;
    forall i | k + 1 <= i < e ensures t[i] >= ' ' && t[i] != '"' && t[i] != '\\' {
      assert t[i] == name[i - k - 1] && name[i - k - 1] in name;
    }
    PlainToken(t, k + 1, e);
    assert t[k + 1..e] == name;
  }

  lemma SkipsNothing(t: string, i: nat)
    requires i < |t| && !IsWs(t[i])
    ensures SkipWs(t, i) == i
  {}

  lemma OnePlace(t: string, i: nat, e: nat, value: Tree, z: nat, name: Codes)
    requires e + 1 < |t| && t[e] == ':' && !IsWs(t[e + 1]) && TokenText(t, i, e) == name
    requires ParseMember(t, i) == Some((e, value, z)) && z < |t| && t[z] == '}'
    ensures MemberPlace(t, i, name) == Some((i, e + 1))
  {
    hide ParseMember, TokenText;
    SkipsNothing(t, e);
    SkipsNothing(t, e + 1);
  }

  lemma OneMember(t: string, o: nat, e: nat, v: nat, name: Codes)
    requires o + 1 < e < v < |t| && t[o] == '{' && t[o + 1] == '"' && StringEnd(t, o + 2) == Some(e)
    requires t[e] == ':' && v == e + 1 && !IsWs(t[v]) && TokenText(t, o + 1, e) == name
    requires ParseValue(t, v).Some? && ParseValue(t, v).value.1 < |t| && t[ParseValue(t, v).value.1] == '}'
    ensures ParseValue(t, o).Some? && ParseValue(t, o).value.1 == ParseValue(t, v).value.1 + 1
    ensures Place(t, o, name) == Some((o + 1, v))
  {
    hide StringEnd, TokenText, ParseMember, ParseMembers, ParseValue, SkipWs, MemberPlace;
    var (value, z) := ParseValue(t, v).value;
    SkipsNothing(t, o + 1);
    SkipsNothing(t, e);
    SkipsNothing(t, v);
    SkipsNothing(t, z);
    MemberStep(t, o + 1);
    MembersStep(t, o + 1);
    OnePlace(t, o + 1, e, value, z, name);
    ObjectStep(t, o);
  }

  lemma ObjectStep(t: string, o: nat)
    requires o + 1 < |t| && t[o] == '{' && t[o + 1] == '"' && ParseMembers(t, o + 1).Some?
    ensures ParseValue(t, o)
      == Some((Obj(ParseMembers(t, o + 1).value.0), ParseMembers(t, o + 1).value.1))
  {
    hide ParseMembers;
    assert SkipWs(t, o + 1) == o + 1;
  }

  // In such an object nothing stands before the key.
  lemma WrapIsFirst(t: string, o: nat, name: string, inner: string, end: nat)
    requires PlainName(name) && HasAt(t, o, Wrap(name, inner)) && o + |Wrap(name, inner)| <= end <= |t|
    requires var v := o + |name| + 4;
      ParseValue(t, v).Some? && ParseValue(t, v).value.1 == v + |inner| && v < |t| && !IsWs(t[v])
    ensures FirstAtMember(t, o, name, o, end, o + 1, o + |name| + 4)
  {
    hide ParseValue, HasAt, Place, StringEnd, CodesOf;
    WrapParts(t, o, name, inner);
    WrapRead(t, o, name, inner);
    assert FirstKeyAt(t, name, o, end, o + 1, o + |name| + 3);
  }

  function Token(head: string): string { ['"'] + (head + ['"']) }

  function Monitor(head: string): string { Wrap("expected_head", Token(head)) }

  // The object that holds the head.
  lemma MonitorRead(t: string, o: nat, was: string)
    requires HasAt(t, o, Monitor(was)) && IsHead(was)
    ensures var h := o + 17;
      && ObjectAt(t, o) && EndOf(t, o) == o + |Monitor(was)|
      && Place(t, o, CodesOf("expected_head")) == Some((o + 1, h))
      && FirstHeadAt(t, was, o, EndOf(t, o), o + 1, o + 16, h)
  {
    hide ParseValue, HasAt, Place, StringEnd, CodesOf, PlainName, KeyAt;
    var h := o + 17;
    NamesArePlain();
    WrapSize("expected_head", Token(was));
    WrapParts(t, o, "expected_head", Token(was));
    TextAt(t, h, Token(was));
    HeadToken(t, h, was);
    WrapRead(t, o, "expected_head", Token(was));
    NotAtBrace(t, o, EndOf(t, o));
    assert HeadAt(t, was, o + 1, o + 16, h, EndOf(t, o));
  }

  lemma NotAtBrace(t: string, o: nat, end: nat)
    requires o < |t| && t[o] == '{'
    ensures forall c: nat :: !KeyAt(t, "expected_head", o, c, end)
  {}

  // An object around one that has been read.
  lemma AroundRead(t: string, o: nat, name: string, inner: string)
    requires PlainName(name) && HasAt(t, o, Wrap(name, inner))
    requires var v := o + |name| + 4; ObjectAt(t, v) && EndOf(t, v) == v + |inner|
    ensures ObjectAt(t, o) && EndOf(t, o) == o + |Wrap(name, inner)| && EndOf(t, o) <= |t|
    ensures FirstAtMember(t, o, name, o, EndOf(t, o), o + 1, o + |name| + 4)
  {
    hide ParseValue, HasAt, Place, FirstAtMember, PlainName;
    WrapSize(name, inner);
    WrapParts(t, o, name, inner);
    WrapRead(t, o, name, inner);
    WrapIsFirst(t, o, name, inner, EndOf(t, o));
  }

  lemma InnerAt(t: string, o: nat, name: string, inner: string)
    requires HasAt(t, o, Wrap(name, inner))
    ensures HasAt(t, o + |name| + 4, inner)
  {
    WrapParts(t, o, name, inner);
  }

  lemma SmallestWay(target: string, was: string)
    requires PlainName(target) && IsHead(was)
    ensures var t, o2 := Smallest(target, was), |target| + 15;
      Way(t, target, was, [1, 12, o2 + 1, o2 + 12], [0, 11, o2, o2 + 11, o2 + 28], o2 + 27)
  {
    hide HasAt, Wrap, PlainName, FirstAtMember, Place, FirstHeadAt, ParseValue, CodesOf;
    var t, w3 := Smallest(target, was), Monitor(was);
    var w2 := Wrap("monitor", w3);
    var w1 := Wrap(target, w2);
    var o2 := |target| + 15;
    NamesArePlain();
    WrapSize("targets", w1);
    WrapSize(target, w2);
    WrapSize("monitor", w3);
    WrapSize("expected_head", Token(was));
    WholeText(t);
    InnerAt(t, 0, "targets", w1);
    InnerAt(t, 11, target, w2);
    InnerAt(t, o2, "monitor", w3);
    MonitorRead(t, o2 + 11, was);
    AroundRead(t, o2, "monitor", w3);
    AroundRead(t, 11, target, w2);
    AroundRead(t, 0, "targets", w1);
    WholeDocument(t);
  }

  lemma WholeDocument(t: string)
    requires ObjectAt(t, 0) && EndOf(t, 0) == |t|
    ensures SkipWs(t, 0) == 0 && Document(t).Some?
  {
    hide ParseValue;
    SkipsNothing(t, 0);
  }

  // For every target name without quotes and escapes and every pair of heads: the registry that
  // holds just this target is edited, and becomes the registry with the new head.
  lemma SmallestIsEdited(target: string, was: string, next: string)
    requires PlainName(target) && IsHead(was) && IsHead(next)
    ensures UpdateExpectedHead(Smallest(target, was), target, was, next) == Ok(Smallest(target, next))
  {
    hide UpdateExpectedHead, Way, PlainName, Smallest, Front;
    var t, o2, h := Smallest(target, was), |target| + 15, |target| + 44;
    SmallestWay(target, was);
    EditSucceeds(t, target, was, next, [1, 12, o2 + 1, o2 + 12], [0, 11, o2, o2 + 11, o2 + 28], o2 + 27);
    SmallestSplits(target, was);
    SmallestSplits(target, next);
    assert t[..h] == Front(target) && t[h + HEAD_LENGTH..] == ['"', '}', '}', '}', '}'];
  }

  function Open(name: string): string { ['{', '"'] + name + ['"', ':'] }

  function Front(target: string): string {
    Open("targets") + (Open(target) + (Open("monitor") + (Open("expected_head") + ['"'])))
  }

  lemma WrapSplits(name: string, front: string, head: string, back: string)
    ensures Wrap(name, front + head + back) == (Open(name) + front) + head + (back + ['}'])
  {}

  // The text around the head is the same whatever the head.
  lemma SmallestSplits(target: string, head: string)
    ensures Smallest(target, head) == Front(target) + head + ['"', '}', '}', '}', '}']
    ensures |Front(target)| == |target| + 44
  {
    NamesArePlain();
    hide Wrap;
    var a, b, c := Open("expected_head") + ['"'], Open("monitor"), Open(target);
    assert Token(head) == ['"'] + head + ['"'];
    WrapSplits("expected_head", ['"'], head, ['"']);
    assert ['"'] + ['}'] == ['"', '}'] && ['"', '}'] + ['}'] == ['"', '}', '}'];
    assert ['"', '}', '}'] + ['}'] == ['"', '}', '}', '}'] && ['"', '}', '}', '}'] + ['}'] == ['"', '}', '}', '}', '}'];
    WrapSplits("monitor", a, head, ['"', '}']);
    WrapSplits(target, b + a, head, ['"', '}', '}']);
    WrapSplits("targets", c + (b + a), head, ['"', '}', '}', '}']);
  }

  lemma NamesArePlain()
    ensures PlainName("targets") && PlainName("monitor") && PlainName("expected_head")
    ensures |"targets"| == 7 && |"monitor"| == 7 && |"expected_head"| == 13
  {}

  lemma WrapSize(name: string, inner: string)
    ensures |Wrap(name, inner)| == |name| + |inner| + 5
  {}

  lemma WholeText(t: string)
    ensures HasAt(t, 0, t)
  {
    assert t[0..|t|] == t;
  }
}
