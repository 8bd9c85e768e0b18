// `update_expected_head_text` of scripts/otast-maintenance.py: one 40-character value changed in
// place, checked against the parsed documents.
module HeadEdit {
  import opened Results
  import opened Decimal
  import opened Json
  import opened ObjectScanner
  import opened Strings
  import opened Whitespace

  datatype EditError =
    | NotLocated(find: FindError)
    | TransitionNotFound
    | BadJson
    | FieldMissing
    | RegistryChanged
    | WrongResult
    | AltersMore

  const FIELD := "expected_head"
  const HEAD_LENGTH := 40

  predicate IsHead(s: string) { IsHexText(s, HEAD_LENGTH) }

  function CodesOf(s: string): Codes { seq(|s|, i requires 0 <= i < |s| => s[i] as int) }

  function GetPath(v: Value, path: seq<Codes>): Option<Value> {
    if path == [] then Some(v)
    else if v.VObj? && path[0] in v.fields then GetPath(v.fields[path[0]], path[1..])
    else None
  }

  function SetPath(v: Value, path: seq<Codes>, x: Value): Value
    requires GetPath(v, path).Some?
  {
    if path == [] then x else VObj(v.fields[path[0] := SetPath(v.fields[path[0]], path[1..], x)])
  }

  function HeadPath(target: string): seq<Codes> {
    [CodesOf("targets"), CodesOf(target), CodesOf("monitor"), CodesOf(FIELD)]
  }

  // Where the head stands in a match of "expected_head"\s*:\s*"<was>" at this position.
  function MatchHead(t: string, i: nat, end: nat, was: string): (r: Option<nat>)
    requires end <= |t|
    ensures r.Some? ==> i < r.value && r.value + |was| < end
  {
    if !QuotedAt(t, i, FIELD, end) then None
    else
      var c := SkipSpace(t, i + |FIELD| + 2, end);
      if c >= end || t[c] != ':' then None
      else
        var q := SkipSpace(t, c + 1, end);
        if QuotedAt(t, q, was, end) then Some(q + 1) else None
  }

  function SearchHead(t: string, i: nat, end: nat, was: string): (r: Option<nat>)
    requires end <= |t|
    ensures r.Some? ==> i < r.value && r.value + |was| < end
    decreases end - i
  {
    if i >= end then None
    else if MatchHead(t, i, end, was).Some? then MatchHead(t, i, end, was)
    else SearchHead(t, i + 1, end, was)
  }

  // The target's monitor object, located by three nested key searches.
  function MonitorSpan(t: string, target: string): (r: Result<(nat, nat), FindError>)
    ensures r.Ok? ==> r.value.0 < r.value.1 <= |t|
  {
    var targets := FindObject(t, "targets", 0, |t|);
    if targets.Err? then targets
    else
      var record := FindObject(t, target, targets.value.0, targets.value.1);
      if record.Err? then record else FindObject(t, "monitor", record.value.0, record.value.1)
  }

  function Replaced(t: string, p: nat, n: nat, next: string): string
    requires p + n <= |t|
  {
    t[..p] + next + t[p + n..]
  }

  // The four checks on the parsed documents, in order.
  function Check(before: Value, after: Value, path: seq<Codes>, was: string, next: string): Option<EditError> {
    if GetPath(before, path).None? then Some(FieldMissing)
    else if GetPath(before, path).value != VStr(CodesOf(was)) then Some(RegistryChanged)
    else if GetPath(after, path).None? then Some(FieldMissing)
    else if GetPath(after, path).value != VStr(CodesOf(next)) then Some(WrongResult)
    else if SetPath(before, path, VStr(CodesOf(next))) != after then Some(AltersMore)
    else None
  }

  function UpdateExpectedHead(t: string, target: string, was: string, next: string): Result<string, EditError> {
    var monitor := MonitorSpan(t, target);
    if monitor.Err? then Err(NotLocated(monitor.error))
    else
      var p := SearchHead(t, monitor.value.0, monitor.value.1, was);
      if p.None? then Err(TransitionNotFound)
      else
        var updated := Replaced(t, p.value, |was|, next);
        var before, after := Loads(t), Loads(updated);
        if before.None? || after.None? then Err(BadJson)
        else
          var check := Check(before.value, after.value, HeadPath(target), was, next);
          if check.Some? then Err(check.value) else Ok(updated)
  }

  // ---- where a head is found

  // The quoted field name at i, a colon at c and the quoted head at q, with nothing but white
  // space between them, all before `end`.
  predicate HeadAt(t: string, was: string, i: nat, c: nat, q: nat, end: nat) {
    && KeyAt(t, "expected_head", i, c, end)
    && c < q && q + |was| + 2 <= end && (forall k :: c < k < q ==> IsSpace(t[k]))
    && t[q] == '"' && (forall k :: 0 <= k < |was| ==> t[q + 1 + k] == was[k]) && t[q + |was| + 1] == '"'
  }

  // Of all positions from `start` on, i is the first at which the field stands with this head.
  ghost predicate FirstHeadAt(t: string, was: string, start: nat, end: nat, i: nat, c: nat, q: nat) {
    && start <= i && HeadAt(t, was, i, c, q, end)
    && forall j: nat, d: nat, r: nat :: start <= j < i ==> !HeadAt(t, was, j, d, r, end)
  }

  // A match is the field, then a colon, then the head in quotes.
  lemma MatchHeadExact(t: string, was: string, i: nat, c: nat, q: nat, end: nat)
    requires end <= |t|
    ensures HeadAt(t, was, i, c, q, end) ==> MatchHead(t, i, end, was) == Some(q + 1)
    ensures MatchHead(t, i, end, was) == Some(q + 1) ==> exists d: nat :: HeadAt(t, was, i, d, q, end)
  {
    QuotedExact(t, i, FIELD, end);
    if QuotedAt(t, i, FIELD, end) {
      var d := SkipSpace(t, i + |FIELD| + 2, end);
      ColonIsNoSpace();
      assert KeyAt(t, "expected_head", i, c, end) ==> c == d;
      if d < end && t[d] == ':' {
        assert KeyAt(t, "expected_head", i, d, end);
        var p := SkipSpace(t, d + 1, end);
        QuotedExact(t, p, was, end);
        assert HeadAt(t, was, i, d, q, end) ==> q == p;
        assert QuotedAt(t, p, was, end) ==> HeadAt(t, was, i, d, p, end);
      }
    }
  }

  lemma ColonIsNoSpace()
    ensures !IsSpace(':') && !IsSpace('"')
  {}

  // The search finds the head of the first such position, and nothing exactly when there is none.
  lemma {:induction false} SearchHeadExact(t: string, start: nat, end: nat, was: string)
    requires end <= |t|
    ensures forall i: nat, c: nat, q: nat ::
      FirstHeadAt(t, was, start, end, i, c, q) ==> SearchHead(t, start, end, was) == Some(q + 1)
    ensures SearchHead(t, start, end, was).Some? <==>
      exists i: nat, c: nat, q: nat :: FirstHeadAt(t, was, start, end, i, c, q)
    ensures SearchHead(t, start, end, was).None? <==>
      forall i: nat, c: nat, q: nat :: start <= i ==> !HeadAt(t, was, i, c, q, end)
    decreases end - start
  {
    hide MatchHead, HeadAt;
    if start >= end {
      NoHeadBehind(t, was, start, end);
    } else {
      forall c: nat, q: nat ensures HeadAt(t, was, start, c, q, end) ==> MatchHead(t, start, end, was) == Some(q + 1) {
        MatchHeadExact(t, was, start, c, q, end);
      }
      if MatchHead(t, start, end, was).Some? {
        var q: nat := MatchHead(t, start, end, was).value - 1;
        MatchHeadExact(t, was, start, 0, q, end);
        var c: nat :| HeadAt(t, was, start, c, q, end);
        assert FirstHeadAt(t, was, start, end, start, c, q);
      } else {
        SearchHeadExact(t, start + 1, end, was);
        forall c: nat, q: nat ensures !HeadAt(t, was, start, c, q, end) {}
        forall i: nat, c: nat, q: nat | FirstHeadAt(t, was, start, end, i, c, q)
          ensures FirstHeadAt(t, was, start + 1, end, i, c, q) {}
        if SearchHead(t, start, end, was).Some? {
          var i: nat, c: nat, q: nat :| FirstHeadAt(t, was, start + 1, end, i, c, q);
          assert FirstHeadAt(t, was, start, end, i, c, q);
        }
      }
    }
  }

  lemma NoHeadBehind(t: string, was: string, start: nat, end: nat)
    requires start >= end
    ensures forall i: nat, c: nat, q: nat :: start <= i ==> !HeadAt(t, was, i, c, q, end)
  {}

  // ---- two texts that differ in one head ----

  // t and u agree except on the n head characters at p, which stand in quotes behind the
  // colon at c.
  ghost predicate Hole(t: string, u: string, c: nat, p: nat, n: nat) {
    && |t| == |u| && c + 1 < p && p + n < |t| && n > 0
    && t[c] == ':' && (forall k :: c < k < p - 1 ==> IsSpace(t[k]))
    && t[p - 1] == '"' && t[p + n] == '"'
    && (forall k :: p <= k < p + n ==> IsHex(t[k]) && IsHex(u[k]))
    && (forall k :: 0 <= k < |t| && (k < p || k >= p + n) ==> t[k] == u[k])
  }

  predicate Outside(p: nat, n: nat, i: nat) { i < p || i > p + n }

  lemma {:induction false} WsSame(t: string, u: string, c: nat, p: nat, n: nat, i: nat)
    requires Hole(t, u, c, p, n) && Outside(p, n, i) && i <= |t|
    ensures SkipWs(u, i) == SkipWs(t, i) && Outside(p, n, SkipWs(t, i))
    ensures i < p ==> SkipWs(t, i) < p
    decreases |t| - i
  {
    if i < |t| && IsWs(t[i]) {
      WsSame(t, u, c, p, n, i + 1);
    }
  }

  lemma {:induction false} StringThroughHole(t: string, p: nat, n: nat, i: nat)
    requires p <= i <= p + n < |t| && t[p + n] == '"' && forall k :: p <= k < p + n ==> IsHex(t[k])
    ensures StringEnd(t, i) == Some(p + n + 1)
    decreases p + n - i
  {
    if i < p + n {
      StringThroughHole(t, p, n, i + 1);
    }
  }

  // A string body entered before the head's opening quote closes at that quote or earlier.
  lemma {:induction false} BodySame(t: string, u: string, c: nat, p: nat, n: nat, i: nat)
    requires Hole(t, u, c, p, n) && (i < p || i > p + n) && StringEnd(t, i).Some?
    ensures StringEnd(u, i) == StringEnd(t, i)
    ensures i < p ==> StringEnd(t, i).value <= p
    decreases |t| - i
  {
    if t[i] == '"' {
    } else if t[i] == '\\' {
      assert i != p - 2 by { assert p - 2 == c || IsSpace(t[p - 2]); }
      if t[i + 1] == 'u' {
        assert HexAt(t, i + 2);
        assert i < p ==> i + 6 < p;
        BodySame(t, u, c, p, n, i + 6);
      } else {
        BodySame(t, u, c, p, n, i + 2);
      }
    } else {
      BodySame(t, u, c, p, n, i + 1);
    }
  }

  predicate Token(p: nat, n: nat, s: nat, e: nat) {
    (s + 1 == p && e == p + n + 1) || Clear(p, n, s, e)
  }

  // A token with no part in the head.
  predicate Clear(p: nat, n: nat, s: nat, e: nat) { e <= p || s > p + n }

  lemma TokenSame(t: string, u: string, c: nat, p: nat, n: nat, q: nat)
    requires Hole(t, u, c, p, n) && Outside(p, n, q) && q < |t| && t[q] == '"' && StringEnd(t, q + 1).Some?
    ensures StringEnd(u, q + 1) == StringEnd(t, q + 1)
    ensures Token(p, n, q, StringEnd(t, q + 1).value)
  {
    if q + 1 == p {
      StringThroughHole(t, p, n, p);
      StringThroughHole(u, p, n, p);
    } else {
      BodySame(t, u, c, p, n, q + 1);
    }
  }

  lemma {:induction false} DigitsSame(t: string, u: string, c: nat, p: nat, n: nat, i: nat)
    requires Hole(t, u, c, p, n) && Outside(p, n, i) && i <= |t|
    ensures DigitsEnd(u, i) == DigitsEnd(t, i) && (i < p ==> DigitsEnd(t, i) < p)
    decreases |t| - i
  {
    if i < |t| && IsDigit(t[i]) {
      DigitsSame(t, u, c, p, n, i + 1);
    }
  }

  lemma FractionSame(t: string, u: string, c: nat, p: nat, n: nat, i: nat)
    requires Hole(t, u, c, p, n) && Outside(p, n, i) && i <= |t|
    ensures FractionEnd(u, i) == FractionEnd(t, i) && (i < p ==> FractionEnd(t, i) < p)
  {
    if i + 1 < |t| && t[i] == '.' {
      DigitsSame(t, u, c, p, n, i + 1);
    }
  }

  lemma ExponentSame(t: string, u: string, c: nat, p: nat, n: nat, i: nat)
    requires Hole(t, u, c, p, n) && Outside(p, n, i) && i <= |t|
    ensures ExponentEnd(u, i) == ExponentEnd(t, i) && (i < p ==> ExponentEnd(t, i) < p)
  {
    if i < |t| && (t[i] == 'e' || t[i] == 'E') {
      var s := if i + 1 < |t| && (t[i + 1] == '+' || t[i + 1] == '-') then i + 2 else i + 1;
      DigitsSame(t, u, c, p, n, s);
    }
  }

  lemma NumberSame(t: string, u: string, c: nat, p: nat, n: nat, i: nat)
    requires Hole(t, u, c, p, n) && Outside(p, n, i) && i < |t|
    ensures NumberEnd(u, i) == NumberEnd(t, i)
    ensures i < p && NumberEnd(t, i).Some? ==> NumberEnd(t, i).value < p
  {
    hide DigitsEnd, FractionEnd, ExponentEnd;
    var s := if t[i] == '-' then i + 1 else i;
    if s < |t| && IsDigit(t[s]) {
      DigitsSame(t, u, c, p, n, s + 1);
      var whole := if t[s] == '0' then s + 1 else DigitsEnd(t, s + 1);
      FractionSame(t, u, c, p, n, whole);
      ExponentSame(t, u, c, p, n, FractionEnd(t, whole));
    }
  }

  lemma WordSame(t: string, u: string, c: nat, p: nat, n: nat, i: nat, word: string)
    requires Hole(t, u, c, p, n) && Outside(p, n, i) && i < |t| && '"' !in word
    ensures HasAt(t, i, word) <==> HasAt(u, i, word)
    ensures i < p && HasAt(t, i, word) ==> i + |word| < p
  {
    if i + |word| <= |t| {
      var a, b := t[i..i + |word|], u[i..i + |word|];
      if i < p && i + |word| >= p {
        assert a[p - 1 - i] == b[p - 1 - i] == '"';
        assert a != word && b != word;
      } else {
        assert a == b;
      }
    }
  }

  lemma ScalarSame(t: string, u: string, c: nat, p: nat, n: nat, i: nat)
    requires Hole(t, u, c, p, n) && Outside(p, n, i) && i < |t|
    ensures ScalarEnd(u, i) == ScalarEnd(t, i)
    ensures i < p && ScalarEnd(t, i).Some? ==> ScalarEnd(t, i).value < p
  {
    hide HasAt, NumberEnd, Hole;
    WordSame(t, u, c, p, n, i, "null");
    WordSame(t, u, c, p, n, i, "true");
    WordSame(t, u, c, p, n, i, "false");
    WordSame(t, u, c, p, n, i, "NaN");
    WordSame(t, u, c, p, n, i, "Infinity");
    WordSame(t, u, c, p, n, i, "-Infinity");
    NumberSame(t, u, c, p, n, i);
  }

  // Every string of the tree is the head token or clear of it, and no key is the head token.
  predicate Clean(tree: Tree, p: nat, n: nat) {
    match tree
    case Scalar(s, e) => Clear(p, n, s, e)
    case Str(s, e) => Token(p, n, s, e)
    case Arr(items) => CleanItems(items, p, n)
    case Obj(members) => CleanMembers(members, p, n)
  }

  predicate CleanItems(items: Trees, p: nat, n: nat) {
    items.More? ==> Clean(items.head, p, n) && CleanItems(items.tail, p, n)
  }

  predicate CleanMembers(members: Members, p: nat, n: nat) {
    members.Bind? ==>
      Clear(p, n, members.keyStart, members.keyEnd) && Clean(members.value, p, n) && CleanMembers(members.rest, p, n)
  }

  // What stands behind '{' or ',' and white space is not the head's quote: that one stands
  // behind a colon.
  lemma NotHeadQuote(t: string, u: string, c: nat, p: nat, n: nat, k: nat)
    requires Hole(t, u, c, p, n) && k < |t| && (t[k] == '{' || t[k] == ',') && Outside(p, n, k)
    ensures SkipWs(t, k + 1) + 1 != p
  {}

  lemma WsAtHead(t: string, u: string, c: nat, p: nat, n: nat)
    requires Hole(t, u, c, p, n)
    ensures SkipWs(t, p) == p == SkipWs(u, p) && IsHex(t[p]) && IsHex(u[p])
  {}

  lemma SameOutside(t: string, u: string, c: nat, p: nat, n: nat)
    requires Hole(t, u, c, p, n)
    ensures |t| == |u| && 1 <= p < |t| && t[p - 1] == '"'
    ensures forall k :: 0 <= k < |t| && Outside(p, n, k) ==> t[k] == u[k]
  {}

  lemma {:induction false} ValueSame(t: string, u: string, c: nat, p: nat, n: nat, i: nat)
    requires Hole(t, u, c, p, n) && Outside(p, n, i) && ParseValue(t, i).Some?
    ensures ParseValue(u, i) == ParseValue(t, i)
    ensures Clean(ParseValue(t, i).value.0, p, n)
    ensures ParseValue(t, i).value.1 <= p || ParseValue(t, i).value.1 > p + n
    decreases |t| - i, 2
  {
    hide Hole, ParseMembers, ParseElements, StringEnd, SkipWs, ScalarEnd;
    SameOutside(t, u, c, p, n);
    if t[i] == '"' {
      TokenSame(t, u, c, p, n, i);
    } else if t[i] == '{' {
      WsSame(t, u, c, p, n, i + 1);
      NotHeadQuote(t, u, c, p, n, i);
      var j := SkipWs(t, i + 1);
      if t[j] != '}' {
        MembersSame(t, u, c, p, n, j);
      }
    } else if t[i] == '[' {
      WsSame(t, u, c, p, n, i + 1);
      var j := SkipWs(t, i + 1);
      if t[j] != ']' {
        ElementsSame(t, u, c, p, n, j);
      }
    } else {
      ScalarSame(t, u, c, p, n, i);
    }
  }

  lemma {:induction false} MemberSame(t: string, u: string, c: nat, p: nat, n: nat, i: nat)
    requires Hole(t, u, c, p, n) && Outside(p, n, i) && i + 1 != p && ParseMember(t, i).Some?
    ensures ParseMember(u, i) == ParseMember(t, i)
    ensures var (keyEnd, value, m) := ParseMember(t, i).value;
            Clear(p, n, i, keyEnd) && Clean(value, p, n) && (m < |t| && !IsHex(t[m]) ==> Outside(p, n, m))
    decreases |t| - i, 0
  {
    hide Hole, ParseValue, ParseMember, SkipWs, StringEnd, Clean;
    SameOutside(t, u, c, p, n);
    MemberStep(t, i);
    MemberStep(u, i);
    var key := StringEnd(t, i + 1).value;
    TokenSame(t, u, c, p, n, i);
    WsAtHead(t, u, c, p, n);
    WsSame(t, u, c, p, n, key);
    var d := SkipWs(t, key);
    assert t[d] == ':';
    WsSame(t, u, c, p, n, d + 1);
    ValueSame(t, u, c, p, n, SkipWs(t, d + 1));
    AfterSame(t, u, c, p, n, ParseValue(t, SkipWs(t, d + 1)).value.1);
  }

  // Behind a value the text goes on alike, or the value was a string ending right at the head.
  lemma AfterSame(t: string, u: string, c: nat, p: nat, n: nat, j: nat)
    requires Hole(t, u, c, p, n) && j <= |t| && (j <= p || j > p + n)
    ensures SkipWs(u, j) == SkipWs(t, j)
    ensures var m := SkipWs(t, j);
            |u| == |t| && 1 <= p < |t| && t[p - 1] == '"'
              && (m < |t| && !IsHex(t[m]) ==> Outside(p, n, m) && u[m] == t[m])
  {
    if j != p {
      WsSame(t, u, c, p, n, j);
    }
  }

  lemma {:induction false} MembersSame(t: string, u: string, c: nat, p: nat, n: nat, i: nat)
    requires Hole(t, u, c, p, n) && Outside(p, n, i) && i + 1 != p && ParseMembers(t, i).Some?
    ensures ParseMembers(u, i) == ParseMembers(t, i)
    ensures CleanMembers(ParseMembers(t, i).value.0, p, n)
    ensures ParseMembers(t, i).value.1 <= p || ParseMembers(t, i).value.1 > p + n
    decreases |t| - i, 1
  {
    hide Hole, ParseMember, SkipWs, Clean;
    SameOutside(t, u, c, p, n);
    MemberSame(t, u, c, p, n, i);
    var m := ParseMember(t, i).value.2;
    if t[m] == ',' {
      WsSame(t, u, c, p, n, m + 1);
      NotHeadQuote(t, u, c, p, n, m);
      MembersSame(t, u, c, p, n, SkipWs(t, m + 1));
    }
  }

  lemma {:induction false} ElementsSame(t: string, u: string, c: nat, p: nat, n: nat, i: nat)
    requires Hole(t, u, c, p, n) && Outside(p, n, i) && ParseElements(t, i).Some?
    ensures ParseElements(u, i) == ParseElements(t, i)
    ensures CleanItems(ParseElements(t, i).value.0, p, n)
    ensures ParseElements(t, i).value.1 <= p || ParseElements(t, i).value.1 > p + n
    decreases |t| - i, 3
  {
    hide Hole, ParseValue, ParseElements, SkipWs, Clean;
    ElementsStep(t, i);
    ElementsStep(u, i);
    ValueSame(t, u, c, p, n, i);
    var j := ParseValue(t, i).value.1;
    AfterSame(t, u, c, p, n, j);
    var m := SkipWs(t, j);
    if t[m] == ',' {
      WsSame(t, u, c, p, n, m + 1);
      ElementsSame(t, u, c, p, n, SkipWs(t, m + 1));
    }
  }

  // Changing a head that stands in quotes behind a colon leaves the token tree alone.
  lemma DocumentSame(t: string, u: string, c: nat, p: nat, n: nat)
    requires Hole(t, u, c, p, n) && Document(t).Some?
    ensures Document(u) == Document(t) && Clean(Document(t).value, p, n)
  {
    hide ParseValue, SkipWs, Clean;
    WsSame(t, u, c, p, n, 0);
    var i := SkipWs(t, 0);
    ValueSame(t, u, c, p, n, i);
    AfterSame(t, u, c, p, n, ParseValue(t, i).value.1);
  }

  // ---- which token a path denotes ----

  function Lookup(t: string, members: Members, key: Codes): Option<Tree> {
    match members
    case NoMember => None
    case Bind(s, e, value, rest) =>
      var later := Lookup(t, rest, key);
      if later.Some? then later else if TokenText(t, s, e) == key then Some(value) else None
  }

  // The token tree a path leads to; the last of several members of one name counts.
  function At(t: string, tree: Tree, path: seq<Codes>): Option<Tree>
    decreases |path|
  {
    if path == [] then Some(tree)
    else if tree.Obj? then
      var sub := Lookup(t, tree.members, path[0]);
      if sub.Some? then At(t, sub.value, path[1..]) else None
    else None
  }

  lemma {:induction false} LookupEval(t: string, members: Members, key: Codes)
    ensures key in EvalMembers(t, members) <==> Lookup(t, members, key).Some?
    ensures key in EvalMembers(t, members) ==> EvalMembers(t, members)[key] == Eval(t, Lookup(t, members, key).value)
  {
    if members.Bind? {
      LookupEval(t, members.rest, key);
    }
  }

  lemma {:induction false} AtEval(t: string, tree: Tree, path: seq<Codes>)
    ensures GetPath(Eval(t, tree), path).Some? <==> At(t, tree, path).Some?
    ensures At(t, tree, path).Some? ==> GetPath(Eval(t, tree), path).value == Eval(t, At(t, tree, path).value)
    decreases |path|
  {
    if path != [] && tree.Obj? {
      LookupEval(t, tree.members, path[0]);
      var sub := Lookup(t, tree.members, path[0]);
      if sub.Some? {
        AtEval(t, sub.value, path[1..]);
      }
    }
  }

  lemma CodeSame(t: string, u: string, i: nat, e: nat)
    requires |t| == |u| && i < e <= |t| && forall k :: i <= k < e ==> t[k] == u[k]
    ensures CodeAt(t, i, e) == CodeAt(u, i, e)
  {
    hide Unescaped;
    if i + 6 <= e {
      assert UnitAt(t, i + 2) == UnitAt(u, i + 2);
      assert i + 12 <= e ==> UnitAt(t, i + 8) == UnitAt(u, i + 8);
      hide UnitAt;
    }
  }

  lemma {:induction false} DecodedSame(t: string, u: string, i: nat, e: nat)
    requires |t| == |u| && e <= |t| && forall k :: i <= k < e ==> t[k] == u[k]
    ensures Decoded(t, i, e) == Decoded(u, i, e)
    decreases |t| - i
  {
    hide CodeAt;
    if i < e {
      CodeSame(t, u, i, e);
      DecodedSame(t, u, CodeAt(t, i, e).1, e);
    }
  }

  lemma TokenTextSame(t: string, u: string, c: nat, p: nat, n: nat, s: nat, e: nat)
    requires Hole(t, u, c, p, n) && Clear(p, n, s, e)
    ensures TokenText(t, s, e) == TokenText(u, s, e)
  {
    hide Hole, Decoded;
    SameOutside(t, u, c, p, n);
    if s + 2 <= e <= |t| {
      DecodedSame(t, u, s + 1, e - 1);
    }
  }

  lemma {:induction false} LookupSame(t: string, u: string, c: nat, p: nat, n: nat, members: Members, key: Codes)
    requires Hole(t, u, c, p, n) && CleanMembers(members, p, n)
    ensures Lookup(t, members, key) == Lookup(u, members, key)
    ensures Lookup(t, members, key).Some? ==> Clean(Lookup(t, members, key).value, p, n)
  {
    if members.Bind? {
      TokenTextSame(t, u, c, p, n, members.keyStart, members.keyEnd);
      LookupSame(t, u, c, p, n, members.rest, key);
    }
  }

  lemma {:induction false} AtSame(t: string, u: string, c: nat, p: nat, n: nat, tree: Tree, path: seq<Codes>)
    requires Hole(t, u, c, p, n) && Clean(tree, p, n)
    ensures At(t, tree, path) == At(u, tree, path)
    ensures At(t, tree, path).Some? ==> Clean(At(t, tree, path).value, p, n)
    decreases |path|
  {
    if path != [] && tree.Obj? {
      LookupSame(t, u, c, p, n, tree.members, path[0]);
      var sub := Lookup(t, tree.members, path[0]);
      if sub.Some? {
        AtSame(t, u, c, p, n, sub.value, path[1..]);
      }
    }
  }

  // ---- the head token occurs once ----

  function Count(tree: Tree, p: nat): nat {
    match tree
    case Scalar(_, _) => 0
    case Str(s, _) => if s + 1 == p then 1 else 0
    case Arr(items) => CountItems(items, p)
    case Obj(members) => CountMembers(members, p)
  }

  function CountItems(items: Trees, p: nat): nat {
    if items.NoTree? then 0 else Count(items.head, p) + CountItems(items.tail, p)
  }

  function CountMembers(members: Members, p: nat): nat {
    if members.NoMember? then 0 else Count(members.value, p) + CountMembers(members.rest, p)
  }

  // A count of at most one, and of none for text that starts behind the token or ends before it.
  predicate Once(count: nat, i: nat, j: nat, p: nat, n: nat) { count <= 1 && (count == 1 ==> i < p && p + n < j) }

  lemma {:induction false} ValueOnce(t: string, i: nat, p: nat, n: nat)
    requires ParseValue(t, i).Some? && Clean(ParseValue(t, i).value.0, p, n)
    ensures Once(Count(ParseValue(t, i).value.0, p), i, ParseValue(t, i).value.1, p, n)
    decreases |t| - i, 2
  {
    hide SkipWs, StringEnd, ScalarEnd;
    if t[i] == '{' && t[SkipWs(t, i + 1)] != '}' {
      MembersOnce(t, SkipWs(t, i + 1), p, n);
    } else if t[i] == '[' && t[SkipWs(t, i + 1)] != ']' {
      ElementsOnce(t, SkipWs(t, i + 1), p, n);
    }
  }

  lemma {:induction false} MemberOnce(t: string, i: nat, p: nat, n: nat)
    requires ParseMember(t, i).Some? && Clean(ParseMember(t, i).value.1, p, n)
    ensures Once(Count(ParseMember(t, i).value.1, p), i, ParseMember(t, i).value.2, p, n)
    decreases |t| - i, 0
  {
    hide SkipWs, StringEnd, Clean, Count, ParseValue;
    var key := StringEnd(t, i + 1).value;
    ValueOnce(t, SkipWs(t, SkipWs(t, key) + 1), p, n);
  }

  lemma {:induction false} MembersOnce(t: string, i: nat, p: nat, n: nat)
    requires ParseMembers(t, i).Some? && CleanMembers(ParseMembers(t, i).value.0, p, n)
    ensures Once(CountMembers(ParseMembers(t, i).value.0, p), i, ParseMembers(t, i).value.1, p, n)
    decreases |t| - i, 1
  {
    hide SkipWs, Clean, Count, ParseMember;
    MemberOnce(t, i, p, n);
    var m := ParseMember(t, i).value.2;
    if t[m] == ',' {
      MembersOnce(t, SkipWs(t, m + 1), p, n);
    }
  }

  lemma {:induction false} ElementsOnce(t: string, i: nat, p: nat, n: nat)
    requires ParseElements(t, i).Some? && CleanItems(ParseElements(t, i).value.0, p, n)
    ensures Once(CountItems(ParseElements(t, i).value.0, p), i, ParseElements(t, i).value.1, p, n)
    decreases |t| - i, 3
  {
    hide SkipWs, Clean, Count, ParseValue;
    ValueOnce(t, i, p, n);
    var m := SkipWs(t, ParseValue(t, i).value.1);
    if t[m] == ',' {
      ElementsOnce(t, SkipWs(t, m + 1), p, n);
    }
  }

  // ---- what the edit does to the value ----

  lemma {:induction false} EvalSame(t: string, u: string, c: nat, p: nat, n: nat, tree: Tree)
    requires Hole(t, u, c, p, n) && Clean(tree, p, n) && Count(tree, p) == 0
    ensures Eval(t, tree) == Eval(u, tree)
  {
    hide Hole;
    match tree
    case Scalar(s, e) => SliceSame(t, u, c, p, n, s, e);
    case Str(s, e) => TokenTextSame(t, u, c, p, n, s, e);
    case Arr(items) => EvalItemsSame(t, u, c, p, n, items);
    case Obj(members) => EvalMembersSame(t, u, c, p, n, members);
  }

  lemma SliceSame(t: string, u: string, c: nat, p: nat, n: nat, s: nat, e: nat)
    requires Hole(t, u, c, p, n) && Clear(p, n, s, e)
    ensures Slice(t, s, e) == Slice(u, s, e)
  {}

  lemma {:induction false} EvalItemsSame(t: string, u: string, c: nat, p: nat, n: nat, items: Trees)
    requires Hole(t, u, c, p, n) && CleanItems(items, p, n) && CountItems(items, p) == 0
    ensures EvalItems(t, items) == EvalItems(u, items)
  {
    hide Hole;
    if items.More? {
      EvalSame(t, u, c, p, n, items.head);
      EvalItemsSame(t, u, c, p, n, items.tail);
    }
  }

  lemma {:induction false} EvalMembersSame(t: string, u: string, c: nat, p: nat, n: nat, members: Members)
    requires Hole(t, u, c, p, n) && CleanMembers(members, p, n) && CountMembers(members, p) == 0
    ensures EvalMembers(t, members) == EvalMembers(u, members)
  {
    hide Hole;
    if members.Bind? {
      TokenTextSame(t, u, c, p, n, members.keyStart, members.keyEnd);
      EvalSame(t, u, c, p, n, members.value);
      EvalMembersSame(t, u, c, p, n, members.rest);
    }
  }

  lemma {:induction false} MembersEdit(t: string, u: string, c: nat, p: nat, n: nat, members: Members, key: Codes)
    requires Hole(t, u, c, p, n) && CleanMembers(members, p, n) && CountMembers(members, p) <= 1
    requires Lookup(t, members, key).Some? && Count(Lookup(t, members, key).value, p) == 1
    ensures EvalMembers(u, members) == EvalMembers(t, members)[key := Eval(u, Lookup(t, members, key).value)]
  {
    hide Hole, Clean, Count, Eval, TokenText, Clear;
    var rest := members.rest;
    TokenTextSame(t, u, c, p, n, members.keyStart, members.keyEnd);
    LookupEval(t, rest, key);
    if Lookup(t, rest, key).Some? {
      LookupCount(t, rest, key, p);
      EvalSame(t, u, c, p, n, members.value);
      MembersEdit(t, u, c, p, n, rest, key);
    } else {
      EvalMembersSame(t, u, c, p, n, rest);
    }
  }

  lemma {:induction false} LookupCount(t: string, members: Members, key: Codes, p: nat)
    requires Lookup(t, members, key).Some?
    ensures Count(Lookup(t, members, key).value, p) <= CountMembers(members, p)
  {
    if Lookup(t, members.rest, key).Some? {
      LookupCount(t, members.rest, key, p);
    }
  }

  lemma {:induction false} AtCount(t: string, tree: Tree, path: seq<Codes>, p: nat)
    requires At(t, tree, path).Some?
    ensures Count(At(t, tree, path).value, p) <= Count(tree, p)
    decreases |path|
  {
    if path != [] {
      LookupCount(t, tree.members, path[0], p);
      AtCount(t, Lookup(t, tree.members, path[0]).value, path[1..], p);
    }
  }

  // Where the path leads to the head token, the changed text means the old value with that
  // field, and nothing else, replaced.
  lemma {:induction false} EvalEdit(t: string, u: string, c: nat, p: nat, n: nat, tree: Tree, path: seq<Codes>)
    requires Hole(t, u, c, p, n) && Clean(tree, p, n) && Count(tree, p) <= 1
    requires At(t, tree, path) == Some(Str(p - 1, p + n + 1))
    ensures GetPath(Eval(t, tree), path).Some?
    ensures Eval(u, tree) == SetPath(Eval(t, tree), path, Eval(u, Str(p - 1, p + n + 1)))
    decreases |path|
  {
    hide Hole, Clean, Lookup, EvalMembers, CountMembers, TokenText;
    AtEval(t, tree, path);
    if path != [] {
      var members := tree.members;
      assert CleanMembers(members, p, n) && CountMembers(members, p) <= 1 by { CleanObj(tree, p, n); }
      var sub := Lookup(t, members, path[0]).value;
      LookupEval(t, members, path[0]);
      LookupSame(t, u, c, p, n, members, path[0]);
      LookupCount(t, members, path[0], p);
      AtCount(t, sub, path[1..], p);
      EvalEdit(t, u, c, p, n, sub, path[1..]);
      MembersEdit(t, u, c, p, n, members, path[0]);
    }
  }

  lemma CleanObj(tree: Tree, p: nat, n: nat)
    requires tree.Obj? && Clean(tree, p, n)
    ensures CleanMembers(tree.members, p, n) && CountMembers(tree.members, p) == Count(tree, p)
  {}

  // ---- the theorems ----

  // The regular expression only matches a head in quotes behind a colon.
  lemma {:induction false} SearchHeadContext(t: string, i: nat, end: nat, was: string) returns (c: nat)
    requires end <= |t| && SearchHead(t, i, end, was).Some?
    ensures var p := SearchHead(t, i, end, was).value;
            && c + 1 < p && t[c] == ':' && (forall k :: c < k < p - 1 ==> IsSpace(t[k]))
            && t[p - 1] == '"' && t[p..p + |was|] == was && t[p + |was|] == '"'
    decreases end - i
  {
    hide IsSpace;
    if MatchHead(t, i, end, was).Some? {
      c := SkipSpace(t, i + |FIELD| + 2, end);
    } else {
      c := SearchHeadContext(t, i + 1, end, was);
    }
  }

  // What is put in place of the old head makes the two texts differ in a hole.
  lemma EditIsHole(t: string, i: nat, end: nat, was: string, next: string) returns (c: nat)
    requires end <= |t| && SearchHead(t, i, end, was).Some? && IsHead(was) && IsHead(next)
    ensures var p := SearchHead(t, i, end, was).value;
            Hole(t, Replaced(t, p, HEAD_LENGTH, next), c, p, HEAD_LENGTH)
  {
    hide IsSpace, SearchHead;
    c := SearchHeadContext(t, i, end, was);
    var p := SearchHead(t, i, end, was).value;
    var u := Replaced(t, p, HEAD_LENGTH, next);
    forall k | p <= k < p + HEAD_LENGTH ensures IsHex(t[k]) && IsHex(u[k]) {
      assert t[k] == t[p..p + HEAD_LENGTH][k - p] && was[k - p] in was;
      assert u[k] == next[k - p] && next[k - p] in next;
    }
  }

  lemma {:induction false} PlainDecoded(t: string, i: nat, e: nat)
    requires i <= e <= |t| && forall k :: i <= k < e ==> IsHex(t[k])
    ensures Decoded(t, i, e) == CodesOf(t[i..e])
    decreases e - i
  {
    if i < e {
      PlainDecoded(t, i + 1, e);
      assert t[i..e] == [t[i]] + t[i + 1..e];
      assert CodesOf(t[i..e]) == [t[i] as int] + CodesOf(t[i + 1..e]);
    }
  }

  lemma HeadTokenText(t: string, p: nat, head: string)
    requires IsHead(head) && 1 <= p && p + HEAD_LENGTH < |t| && t[p..p + HEAD_LENGTH] == head
    ensures TokenText(t, p - 1, p + HEAD_LENGTH + 1) == CodesOf(head)
  {
    forall k | p <= k < p + HEAD_LENGTH ensures IsHex(t[k]) {
      assert t[k] == t[p..p + HEAD_LENGTH][k - p] && head[k - p] in head;
    }
    PlainDecoded(t, p, p + HEAD_LENGTH);
  }

  lemma CodesInjective(a: string, b: string)
    requires CodesOf(a) == CodesOf(b)
    ensures a == b
  {
    forall i | 0 <= i < |a| ensures a[i] == b[i] {
      assert CodesOf(a)[i] == CodesOf(b)[i];
    }
  }

  // The string token the four-step path of this target denotes.
  predicate DenotesHead(t: string, target: string, p: nat) {
    p >= 1 && Document(t).Some? && At(t, Document(t).value, HeadPath(target)) == Some(Str(p - 1, p + HEAD_LENGTH + 1))
  }

  lemma LoadsIsEval(t: string)
    ensures Loads(t).Some? <==> Document(t).Some?
    ensures Document(t).Some? ==> Loads(t) == Some(Eval(t, Document(t).value))
  {}

  // When the parsed values agree with the edit, the edited place is the token of the path.
  lemma EditMeetsPath(t: string, u: string, c: nat, p: nat, was: string, next: string, tree: Tree, path: seq<Codes>)
    requires Hole(t, u, c, p, HEAD_LENGTH) && Clean(tree, p, HEAD_LENGTH) && was != next
    requires GetPath(Eval(t, tree), path) == Some(VStr(CodesOf(was)))
    requires GetPath(Eval(u, tree), path) == Some(VStr(CodesOf(next)))
    ensures At(t, tree, path) == Some(Str(p - 1, p + HEAD_LENGTH + 1))
  {
    hide Hole, GetPath, At, TokenText, CodesOf;
    AtEval(t, tree, path);
    AtEval(u, tree, path);
    AtSame(t, u, c, p, HEAD_LENGTH, tree, path);
    var sub := At(t, tree, path).value;
    if Clear(p, HEAD_LENGTH, sub.start, sub.end) {
      TokenTextSame(t, u, c, p, HEAD_LENGTH, sub.start, sub.end);
      CodesInjective(was, next);
    }
  }

  // The same length, one head changed, and every check that follows decided.
  lemma CheckExact(t: string, u: string, c: nat, p: nat, was: string, next: string, target: string)
    requires Hole(t, u, c, p, HEAD_LENGTH) && IsHead(was) && IsHead(next) && was != next
    requires t[p..p + HEAD_LENGTH] == was && u[p..p + HEAD_LENGTH] == next
    ensures (Loads(t).Some? && Loads(u).Some?
      && Check(Loads(t).value, Loads(u).value, HeadPath(target), was, next).None?)
            <==> DenotesHead(t, target, p)
  {
    hide Hole, Document, Eval, Clean, At, GetPath, SetPath, HeadPath, CodesOf, Count, TokenText;
    LoadsIsEval(t);
    LoadsIsEval(u);
    SameOutside(t, u, c, p, HEAD_LENGTH);
    HeadInside(t, u, c, p);
    if Document(t).Some? {
      var tree, path := Document(t).value, HeadPath(target);
      DocumentSame(t, u, c, p, HEAD_LENGTH);
      if DenotesHead(t, target, p) {
        DocumentOnce(t, p, HEAD_LENGTH);
        EvalEdit(t, u, c, p, HEAD_LENGTH, tree, path);
        AtSame(t, u, c, p, HEAD_LENGTH, tree, path);
        AtEval(t, tree, path);
        AtEval(u, tree, path);
        HeadTokenText(t, p, was);
        HeadTokenText(u, p, next);
        EvalStr(t, p - 1, p + HEAD_LENGTH + 1);
        EvalStr(u, p - 1, p + HEAD_LENGTH + 1);
      } else if Check(Loads(t).value, Loads(u).value, path, was, next).None? {
        EditMeetsPath(t, u, c, p, was, next, tree, path);
      }
    }
  }

  lemma EvalStr(t: string, s: nat, e: nat)
    ensures Eval(t, Str(s, e)) == VStr(TokenText(t, s, e))
  {}

  lemma HeadInside(t: string, u: string, c: nat, p: nat)
    requires Hole(t, u, c, p, HEAD_LENGTH)
    ensures p + HEAD_LENGTH < |t|
  {}

  lemma DocumentOnce(t: string, p: nat, n: nat)
    requires Document(t).Some? && Clean(Document(t).value, p, n)
    ensures Count(Document(t).value, p) <= 1
  {
    hide ParseValue, Clean, Count;
    ValueOnce(t, SkipWs(t, 0), p, n);
  }

  // The document has the old head at its path.
  ghost predicate HasHead(t: string, target: string, was: string) {
    Loads(t).Some? && GetPath(Loads(t).value, HeadPath(target)) == Some(VStr(CodesOf(was)))
  }

  // The edit is accepted exactly when the matched text is the token of
  // targets.<target>.monitor.expected_head, or, where old and new head are the same, when that
  // field holds it; then only that token, and only that field, changes.
  lemma EditExact(t: string, target: string, was: string, next: string)
    requires IsHead(was) && IsHead(next)
    ensures var r, span := UpdateExpectedHead(t, target, was, next), MonitorSpan(t, target);
            r.Ok? <==> span.Ok? && SearchHead(t, span.value.0, span.value.1, was).Some?
                       && if was == next then HasHead(t, target, was)
                          else DenotesHead(t, target, SearchHead(t, span.value.0, span.value.1, was).value)
    ensures var r, span := UpdateExpectedHead(t, target, was, next), MonitorSpan(t, target);
            r.Ok? ==>
              var p := SearchHead(t, span.value.0, span.value.1, was).value;
              && span.value.0 < p && p + HEAD_LENGTH < span.value.1
              && |r.value| == |t| && r.value == t[..p] + next + t[p + HEAD_LENGTH..]
              && Document(r.value) == Document(t)
              && HasHead(t, target, was)
              && Loads(r.value) == Some(SetPath(Loads(t).value, HeadPath(target), VStr(CodesOf(next))))
  {
    hide UpdateExpectedHead, MonitorSpan, SearchHead, Loads, Document, DenotesHead, HasHead, GetPath, SetPath, HeadPath;
    if was == next {
      SameHeadExact(t, target, was);
    } else {
      OtherHeadExact(t, target, was, next);
    }
  }

  lemma OtherHeadExact(t: string, target: string, was: string, next: string)
    requires IsHead(was) && IsHead(next) && was != next
    ensures var r, span := UpdateExpectedHead(t, target, was, next), MonitorSpan(t, target);
            r.Ok? <==> span.Ok? && SearchHead(t, span.value.0, span.value.1, was).Some?
                       && DenotesHead(t, target, SearchHead(t, span.value.0, span.value.1, was).value)
    ensures var r, span := UpdateExpectedHead(t, target, was, next), MonitorSpan(t, target);
            r.Ok? ==>
              var p := SearchHead(t, span.value.0, span.value.1, was).value;
              && |r.value| == |t| && r.value == t[..p] + next + t[p + HEAD_LENGTH..]
              && Document(r.value) == Document(t)
              && HasHead(t, target, was)
              && Loads(r.value) == Some(SetPath(Loads(t).value, HeadPath(target), VStr(CodesOf(next))))
  {
    hide MonitorSpan, SearchHead, Loads, Document, DenotesHead, GetPath, SetPath, HeadPath, CodesOf, Hole;
    var span := MonitorSpan(t, target);
    if span.Ok? && SearchHead(t, span.value.0, span.value.1, was).Some? {
      var p := SearchHead(t, span.value.0, span.value.1, was).value;
      var u := Replaced(t, p, HEAD_LENGTH, next);
      var c := EditIsHole(t, span.value.0, span.value.1, was, next);
      var c' := SearchHeadContext(t, span.value.0, span.value.1, was);
      assert u[p..p + HEAD_LENGTH] == next;
      CheckExact(t, u, c, p, was, next, target);
      if DenotesHead(t, target, p) {
        assert Document(t).Some? by { DenotesDocument(t, target, p); }
        DocumentSame(t, u, c, p, HEAD_LENGTH);
      }
    }
  }

  // Writing the head that is already there leaves the text alone.
  lemma SameHeadExact(t: string, target: string, head: string)
    requires IsHead(head)
    ensures var r, span := UpdateExpectedHead(t, target, head, head), MonitorSpan(t, target);
            && (r.Ok? <==>
                  span.Ok? && SearchHead(t, span.value.0, span.value.1, head).Some? && HasHead(t, target, head))
            && (r.Ok? ==>
                  var p := SearchHead(t, span.value.0, span.value.1, head).value;
                  && r.value == t && t == t[..p] + head + t[p + HEAD_LENGTH..]
                  && Loads(t) == Some(SetPath(Loads(t).value, HeadPath(target), VStr(CodesOf(head)))))
  {
    hide MonitorSpan, SearchHead, Loads, HeadPath, CodesOf, GetPath, SetPath;
    var span := MonitorSpan(t, target);
    if span.Ok? && SearchHead(t, span.value.0, span.value.1, head).Some? {
      var p := SearchHead(t, span.value.0, span.value.1, head).value;
      var c := SearchHeadContext(t, span.value.0, span.value.1, head);
      assert t == t[..p] + t[p..p + |head|] + t[p + |head|..];
      if HasHead(t, target, head) {
        SetSame(Loads(t).value, HeadPath(target));
      }
    }
  }

  // Writing what a path holds already changes nothing.
  lemma {:induction false} SetSame(v: Value, path: seq<Codes>)
    requires GetPath(v, path).Some?
    ensures SetPath(v, path, GetPath(v, path).value) == v
    decreases |path|
  {
    if path != [] {
      SetSame(v.fields[path[0]], path[1..]);
      assert v.fields[path[0] := v.fields[path[0]]] == v.fields;
    }
  }

  lemma DenotesDocument(t: string, target: string, p: nat)
    requires DenotesHead(t, target, p)
    ensures Document(t).Some?
  {}

  lemma OtherHeadsRoundTrip(t: string, u: string, target: string, was: string, next: string)
    requires IsHead(was) && IsHead(next) && was != next
    requires UpdateExpectedHead(t, target, was, next) == Ok(u) && UpdateExpectedHead(u, target, next, was).Ok?
    ensures UpdateExpectedHead(u, target, next, was).value == t
  {
    hide UpdateExpectedHead, MonitorSpan, SearchHead, Loads, Document, GetPath, SetPath, HeadPath, CodesOf, At, HasHead;
    OtherHeadExact(t, target, was, next);
    OtherHeadExact(u, target, next, was);
    var s1, s2 := MonitorSpan(t, target).value, MonitorSpan(u, target).value;
    var p, q := SearchHead(t, s1.0, s1.1, was).value, SearchHead(u, s2.0, s2.1, next).value;
    var c := EditIsHole(t, s1.0, s1.1, was, next);
    SameToken(t, u, c, p, q, target);
    var c' := SearchHeadContext(t, s1.0, s1.1, was);
    assert u == t[..p] + next + t[p + HEAD_LENGTH..];
    PutBack(t, p, next, was);
  }

  // Both edits hit the one token the path denotes.
  lemma SameToken(t: string, u: string, c: nat, p: nat, q: nat, target: string)
    requires Hole(t, u, c, p, HEAD_LENGTH) && DenotesHead(t, target, p) && DenotesHead(u, target, q)
    ensures p == q
  {
    hide Document, HeadPath, At, Hole;
    DocumentSame(t, u, c, p, HEAD_LENGTH);
    AtSame(t, u, c, p, HEAD_LENGTH, Document(t).value, HeadPath(target));
  }

  lemma PutBack(t: string, p: nat, next: string, was: string)
    requires p + HEAD_LENGTH <= |t| && |next| == HEAD_LENGTH && t[p..p + HEAD_LENGTH] == was
    ensures var u := t[..p] + next + t[p + HEAD_LENGTH..];
      u[..p] + was + u[p + HEAD_LENGTH..] == t
  {
    assert t == t[..p] + t[p..p + HEAD_LENGTH] + t[p + HEAD_LENGTH..];
  }

  // Editing back, when that is accepted too, restores the original text to the byte.
  lemma EditRoundTrip(t: string, target: string, was: string, next: string)
    requires IsHead(was) && IsHead(next)
    requires UpdateExpectedHead(t, target, was, next).Ok?
    requires UpdateExpectedHead(UpdateExpectedHead(t, target, was, next).value, target, next, was).Ok?
    ensures UpdateExpectedHead(UpdateExpectedHead(t, target, was, next).value, target, next, was).value == t
  {
    hide UpdateExpectedHead, MonitorSpan, SearchHead, Loads, Document, GetPath, SetPath, HeadPath, CodesOf, At, HasHead;
    var u := UpdateExpectedHead(t, target, was, next).value;
    if was == next {
      SameHeadExact(t, target, was);
      SameHeadExact(u, target, was);
    } else {
      OtherHeadsRoundTrip(t, u, target, was, next);
    }
  }
}
