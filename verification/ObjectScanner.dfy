// `find_object_for_key` of scripts/otast-maintenance.py: a brace, string and escape scanner
// that finds the object behind a key without parsing the document.
module ObjectScanner {
  import opened Results
  import opened Decimal
  import opened Json
  import opened Whitespace

  datatype FindError = KeyNotFound | NotAnObject | Unterminated

  function SkipSpace(t: string, i: nat, end: nat): (r: nat)
    requires i <= end <= |t|
    ensures i <= r <= end
    ensures forall k :: i <= k < r ==> IsSpace(t[k])
    ensures r < end ==> !IsSpace(t[r])
    decreases end - i
  {
    if i < end && IsSpace(t[i]) then SkipSpace(t, i + 1, end) else i
  }

  predicate QuotedAt(t: string, i: nat, word: string, end: nat) {
    && i + |word| + 2 <= end <= |t|
    && t[i] == '"' && t[i + 1..i + 1 + |word|] == word && t[i + 1 + |word|] == '"'
  }

  // The end of a match of "key"\s*: at exactly this position.
  function MatchKey(t: string, key: string, i: nat, end: nat): (r: Option<nat>)
    requires end <= |t|
    ensures r.Some? ==> i < r.value <= end
  {
    if QuotedAt(t, i, key, end) then
      var c := SkipSpace(t, i + |key| + 2, end);
      if c < end && t[c] == ':' then Some(c + 1) else None
    else None
  }

  // The leftmost match from `i` on, as `re.search` reports it.
  function SearchKey(t: string, key: string, i: nat, end: nat): (r: Option<nat>)
    requires end <= |t|
    ensures r.Some? ==> r.value <= end
    decreases end - i
  {
    if i >= end then None
    else if MatchKey(t, key, i, end).Some? then MatchKey(t, key, i, end)
    else SearchKey(t, key, i + 1, end)
  }

  // Where the scan started in this state closes its object.
  function Scan(t: string, i: nat, end: nat, depth: int, inString: bool, escaped: bool): (r: Option<nat>)
    requires end <= |t|
    ensures r.Some? ==> i < r.value <= end
    decreases end - i
  {
    if i >= end then None
    else if inString then
      if escaped then Scan(t, i + 1, end, depth, true, false)
      else if t[i] == '\\' then Scan(t, i + 1, end, depth, true, true)
      else if t[i] == '"' then Scan(t, i + 1, end, depth, false, false)
      else Scan(t, i + 1, end, depth, true, false)
    else if t[i] == '"' then Scan(t, i + 1, end, depth, true, false)
    else if t[i] == '{' then Scan(t, i + 1, end, depth + 1, false, false)
    else if t[i] == '}' then if depth == 1 then Some(i + 1) else Scan(t, i + 1, end, depth - 1, false, false)
    else Scan(t, i + 1, end, depth, false, false)
  }

  function FindObject(t: string, key: string, start: nat, end: nat): (r: Result<(nat, nat), FindError>)
    requires end <= |t|
    ensures r.Ok? ==> r.value.0 < r.value.1 <= end
  {
    var m := SearchKey(t, key, start, end);
    if m.None? then Err(KeyNotFound)
    else
      var s := SkipSpace(t, m.value, end);
      if s >= end || t[s] != '{' then Err(NotAnObject)
      else
        var e := Scan(t, s, end, 0, false, false);
        if e.None? then Err(Unterminated) else Ok((s, e.value))
  }

  method FindObjectForKey(t: string, key: string, start: nat, end: nat) returns (r: Result<(nat, nat), FindError>)
    requires end <= |t|
    ensures r == FindObject(t, key, start, end)
  {
    var m := SearchKey(t, key, start, end);
    if m.None? {
      return Err(KeyNotFound);
    }
    var cursor := m.value;
    while cursor < end && IsSpace(t[cursor])
      invariant m.value <= cursor <= end
      invariant SkipSpace(t, cursor, end) == SkipSpace(t, m.value, end)
    {
      cursor := cursor + 1;
    }
    if cursor >= end || t[cursor] != '{' {
      return Err(NotAnObject);
    }
    var objectStart := cursor;
    var depth := 0;
    var inString, escaped := false, false;
    while cursor < end
      invariant objectStart <= cursor <= end
      invariant escaped ==> inString
      invariant Scan(t, cursor, end, depth, inString, escaped) == Scan(t, objectStart, end, 0, false, false)
    {
      var character := t[cursor];
      if inString {
        if escaped {
          escaped := false;
        } else if character == '\\' {
          escaped := true;
        } else if character == '"' {
          inString := false;
        }
      } else {
        if character == '"' {
          inString := true;
        } else if character == '{' {
          depth := depth + 1;
        } else if character == '}' {
          depth := depth - 1;
          if depth == 0 {
            return Ok((objectStart, cursor + 1));
          }
        }
      }
      cursor := cursor + 1;
    }
    return Err(Unterminated);
  }

  // ---- the scanner follows the grammar ----

  lemma {:induction false} ScanWs(t: string, i: nat, end: nat, depth: int)
    requires i <= |t| && SkipWs(t, i) <= end <= |t|
    ensures Scan(t, i, end, depth, false, false) == Scan(t, SkipWs(t, i), end, depth, false, false)
    decreases |t| - i
  {
    if i < |t| && IsWs(t[i]) {
      ScanWs(t, i + 1, end, depth);
    }
  }

  // Neither quote nor brace: the scanner just moves on.
  predicate Quiet(c: char) { c != '"' && c != '{' && c != '}' }

  lemma {:induction false} ScanQuiet(t: string, i: nat, j: nat, end: nat, depth: int)
    requires i <= j <= end <= |t| && forall k :: i <= k < j ==> Quiet(t[k])
    ensures Scan(t, i, end, depth, false, false) == Scan(t, j, end, depth, false, false)
    decreases j - i
  {
    if i < j {
      ScanQuiet(t, i + 1, j, end, depth);
    }
  }

  lemma {:induction false} ScanString(t: string, i: nat, end: nat, depth: int)
    requires StringEnd(t, i).Some? && StringEnd(t, i).value <= end <= |t|
    ensures Scan(t, i, end, depth, true, false) == Scan(t, StringEnd(t, i).value, end, depth, false, false)
    decreases |t| - i
  {
    if t[i] == '"' {
    } else if t[i] == '\\' {
      if t[i + 1] == 'u' {
        ScanString(t, i + 6, end, depth);
        assert Scan(t, i + 2, end, depth, true, false) == Scan(t, i + 6, end, depth, true, false) by {
          assert HexAt(t, i + 2);
          assert Scan(t, i + 4, end, depth, true, false) == Scan(t, i + 6, end, depth, true, false);
        }
      } else {
        ScanString(t, i + 2, end, depth);
      }
    } else {
      ScanString(t, i + 1, end, depth);
    }
  }

  lemma {:induction false} DigitsQuiet(t: string, i: nat)
    requires i <= |t|
    ensures forall k :: i <= k < DigitsEnd(t, i) ==> Quiet(t[k])
    decreases |t| - i
  {
    if i < |t| && IsDigit(t[i]) {
      DigitsQuiet(t, i + 1);
    }
  }

  lemma FractionQuiet(t: string, i: nat)
    requires i <= |t|
    ensures forall k :: i <= k < FractionEnd(t, i) ==> Quiet(t[k])
  {
    hide DigitsEnd;
    if i < |t| { DigitsQuiet(t, i + 1); }
  }

  lemma ExponentQuiet(t: string, i: nat)
    requires i <= |t|
    ensures forall k :: i <= k < ExponentEnd(t, i) ==> Quiet(t[k])
  {
    hide DigitsEnd;
    if i < |t| {
      var s := if i + 1 < |t| && (t[i + 1] == '+' || t[i + 1] == '-') then i + 2 else i + 1;
      DigitsQuiet(t, s);
    }
  }

  lemma NumberQuiet(t: string, i: nat)
    requires NumberEnd(t, i).Some?
    ensures forall k :: i <= k < NumberEnd(t, i).value ==> Quiet(t[k])
  {
    hide DigitsEnd, FractionEnd, ExponentEnd;
    var s := if t[i] == '-' then i + 1 else i;
    var whole := if t[s] == '0' then s + 1 else DigitsEnd(t, s + 1);
    DigitsQuiet(t, s + 1);
    FractionQuiet(t, whole);
    ExponentQuiet(t, FractionEnd(t, whole));
  }

  lemma WordQuiet(t: string, i: nat, word: string)
    requires HasAt(t, i, word) && forall c :: c in word ==> Quiet(c)
    ensures forall k :: i <= k < i + |word| ==> Quiet(t[k])
  {
    forall k | i <= k < i + |word| ensures Quiet(t[k]) {
      assert t[k] == t[i..i + |word|][k - i] && word[k - i] in word;
    }
  }

  lemma ScalarQuiet(t: string, i: nat)
    requires ScalarEnd(t, i).Some?
    ensures forall k :: i <= k < ScalarEnd(t, i).value ==> Quiet(t[k])
  {
    hide NumberEnd, HasAt;
    if HasAt(t, i, "null") { WordQuiet(t, i, "null"); }
    else if HasAt(t, i, "true") { WordQuiet(t, i, "true"); }
    else if HasAt(t, i, "false") { WordQuiet(t, i, "false"); }
    else if HasAt(t, i, "NaN") { WordQuiet(t, i, "NaN"); }
    else if HasAt(t, i, "Infinity") { WordQuiet(t, i, "Infinity"); }
    else if HasAt(t, i, "-Infinity") { WordQuiet(t, i, "-Infinity"); }
    else { NumberQuiet(t, i); }
  }

  // From the first member to the closing brace: one level is left.
  function Closed(t: string, j: nat, end: nat, depth: int): Option<nat>
    requires 1 <= j <= end <= |t|
  {
    if depth == 1 then Some(j) else Scan(t, j, end, depth - 1, false, false)
  }

  lemma StepQuote(t: string, i: nat, end: nat, depth: int)
    requires i < end <= |t| && t[i] == '"'
    ensures Scan(t, i, end, depth, false, false) == Scan(t, i + 1, end, depth, true, false)
  {}

  lemma StepQuiet(t: string, i: nat, end: nat, depth: int)
    requires i < end <= |t| && Quiet(t[i])
    ensures Scan(t, i, end, depth, false, false) == Scan(t, i + 1, end, depth, false, false)
  {}

  lemma StepOpen(t: string, i: nat, end: nat, depth: int)
    requires i < end <= |t| && t[i] == '{'
    ensures Scan(t, i, end, depth, false, false) == Scan(t, i + 1, end, depth + 1, false, false)
  {}

  lemma StepClose(t: string, i: nat, end: nat, depth: int)
    requires i < end <= |t| && t[i] == '}'
    ensures Scan(t, i, end, depth, false, false) == Closed(t, i + 1, end, depth)
  {}

  lemma {:induction false} ScanValue(t: string, i: nat, end: nat, depth: int)
    requires ParseValue(t, i).Some? && ParseValue(t, i).value.1 <= end <= |t| && depth >= 1
    ensures Scan(t, i, end, depth, false, false) == Scan(t, ParseValue(t, i).value.1, end, depth, false, false)
    decreases |t| - i, 3
  {
    if t[i] == '"' {
      ScanString(t, i + 1, end, depth);
    } else if t[i] == '{' {
      ScanObject(t, i, end, depth);
    } else if t[i] == '[' {
      var j := SkipWs(t, i + 1);
      ScanWs(t, i + 1, end, depth);
      if t[j] != ']' {
        ScanElements(t, j, end, depth);
      }
    } else {
      ScalarQuiet(t, i);
      ScanQuiet(t, i, ScalarEnd(t, i).value, end, depth);
    }
  }

  lemma {:induction false} ScanObject(t: string, i: nat, end: nat, depth: int)
    requires ParseValue(t, i).Some? && t[i] == '{' && ParseValue(t, i).value.1 <= end <= |t| && depth >= 0
    ensures Scan(t, i, end, depth, false, false) == Closed(t, ParseValue(t, i).value.1, end, depth + 1)
    decreases |t| - i, 2
  {
    hide Scan, Closed, ParseMembers;
    var j := SkipWs(t, i + 1);
    StepOpen(t, i, end, depth);
    ScanWs(t, i + 1, end, depth + 1);
    if t[j] == '}' {
      StepClose(t, j, end, depth + 1);
    } else {
      ScanMembers(t, j, end, depth + 1);
    }
  }

  lemma {:induction false} ScanMember(t: string, i: nat, end: nat, depth: int)
    requires ParseMember(t, i).Some? && ParseMember(t, i).value.2 <= end <= |t| && depth >= 1
    ensures Scan(t, i, end, depth, false, false) == Scan(t, ParseMember(t, i).value.2, end, depth, false, false)
    decreases |t| - i, 0
  {
    hide Scan, ParseValue, StringEnd, SkipWs;
    var key := StringEnd(t, i + 1).value;
    var c := SkipWs(t, key);
    var v := SkipWs(t, c + 1);
    var after := ParseValue(t, v).value.1;
    StepQuote(t, i, end, depth);
    ScanString(t, i + 1, end, depth);
    ScanWs(t, key, end, depth);
    StepQuiet(t, c, end, depth);
    ScanWs(t, c + 1, end, depth);
    ScanValue(t, v, end, depth);
    ScanWs(t, after, end, depth);
  }

  lemma {:induction false} ScanMembers(t: string, i: nat, end: nat, depth: int)
    requires ParseMembers(t, i).Some? && ParseMembers(t, i).value.1 <= end <= |t| && depth >= 1
    ensures Scan(t, i, end, depth, false, false) == Closed(t, ParseMembers(t, i).value.1, end, depth)
    decreases |t| - i, 1
  {
    hide Scan, Closed, ParseMember, SkipWs;
    var m := ParseMember(t, i).value.2;
    ScanMember(t, i, end, depth);
    if t[m] == ',' {
      StepQuiet(t, m, end, depth);
      ScanWs(t, m + 1, end, depth);
      ScanMembers(t, SkipWs(t, m + 1), end, depth);
    } else {
      StepClose(t, m, end, depth);
    }
  }

  lemma {:induction false} ScanElements(t: string, i: nat, end: nat, depth: int)
    requires ParseElements(t, i).Some? && ParseElements(t, i).value.1 <= end <= |t| && depth >= 1
    ensures Scan(t, i, end, depth, false, false) == Scan(t, ParseElements(t, i).value.1, end, depth, false, false)
    decreases |t| - i, 4
  {
    var after := ParseValue(t, i).value.1;
    var m := SkipWs(t, after);
    ScanValue(t, i, end, depth);
    ScanWs(t, after, end, depth);
    if t[m] == ',' {
      var n := SkipWs(t, m + 1);
      ScanWs(t, m + 1, end, depth);
      ScanElements(t, n, end, depth);
    }
  }

  // Exactness: whenever the text behind the key is a JSON object, the scanner returns its span,
  // whatever stands before or after it.
  lemma ScannerExact(t: string, key: string, start: nat, end: nat)
    requires end <= |t| && SearchKey(t, key, start, end).Some?
    requires var s := SkipSpace(t, SearchKey(t, key, start, end).value, end);
             s < end && t[s] == '{' && ParseValue(t, s).Some? && ParseValue(t, s).value.1 <= end
    ensures var s := SkipSpace(t, SearchKey(t, key, start, end).value, end);
            FindObject(t, key, start, end) == Ok((s, ParseValue(t, s).value.1))
  {
    hide Scan, ParseValue, SearchKey;
    ScanObject(t, SkipSpace(t, SearchKey(t, key, start, end).value, end), end, 0);
  }

  // ---- where a key is found

  // A quoted key at i, white space, and a colon at c, all before `end`.
  predicate KeyAt(t: string, key: string, i: nat, c: nat, end: nat) {
    && i + |key| + 2 <= c < end <= |t|
    && t[i] == '"' && (forall k :: 0 <= k < |key| ==> t[i + 1 + k] == key[k]) && t[i + |key| + 1] == '"'
    && (forall k :: i + |key| + 2 <= k < c ==> IsSpace(t[k])) && t[c] == ':'
  }

  // Of all positions from `start` on, i is the first at which the key stands.
  ghost predicate FirstKeyAt(t: string, key: string, start: nat, end: nat, i: nat, c: nat) {
    start <= i && KeyAt(t, key, i, c, end) && forall j: nat, d: nat :: start <= j < i ==> !KeyAt(t, key, j, d, end)
  }

  lemma MatchKeyExact(t: string, key: string, i: nat, c: nat, end: nat)
    requires end <= |t|
    ensures MatchKey(t, key, i, end) == Some(c + 1) <==> KeyAt(t, key, i, c, end)
  {
    QuotedExact(t, i, key, end);
    if QuotedAt(t, i, key, end) {
      var d := SkipSpace(t, i + |key| + 2, end);
      assert !IsSpace(':');
      assert KeyAt(t, key, i, c, end) ==> c == d;
    }
  }

  lemma QuotedExact(t: string, i: nat, word: string, end: nat)
    ensures QuotedAt(t, i, word, end) <==>
      && i + |word| + 2 <= end <= |t|
      && t[i] == '"' && (forall k :: 0 <= k < |word| ==> t[i + 1 + k] == word[k]) && t[i + 1 + |word|] == '"'
  {
    if i + |word| + 2 <= end <= |t| {
      var part := t[i + 1..i + 1 + |word|];
      assert forall k :: 0 <= k < |word| ==> part[k] == t[i + 1 + k];
    }
  }

  // The search returns what follows the colon of the first match, and nothing exactly when there
  // is no match.
  lemma {:induction false} SearchKeyExact(t: string, key: string, start: nat, end: nat)
    requires end <= |t|
    ensures forall i: nat, c: nat ::
      FirstKeyAt(t, key, start, end, i, c) ==> SearchKey(t, key, start, end) == Some(c + 1)
    ensures SearchKey(t, key, start, end).Some? <==> exists i: nat, c: nat :: FirstKeyAt(t, key, start, end, i, c)
    ensures SearchKey(t, key, start, end).None? <==> forall i: nat, c: nat :: start <= i ==> !KeyAt(t, key, i, c, end)
    decreases end - start
  {
    hide MatchKey, KeyAt;
    if start >= end {
      NoKeyBehind(t, key, start, end);
    } else {
      forall c: nat ensures MatchKey(t, key, start, end) == Some(c + 1) <==> KeyAt(t, key, start, c, end) {
        MatchKeyExact(t, key, start, c, end);
      }
      if MatchKey(t, key, start, end).Some? {
        var c: nat := MatchKey(t, key, start, end).value - 1;
        assert FirstKeyAt(t, key, start, end, start, c);
      } else {
        SearchKeyExact(t, key, start + 1, end);
        forall c: nat ensures !KeyAt(t, key, start, c, end) {}
        forall i: nat, c: nat | FirstKeyAt(t, key, start, end, i, c) ensures FirstKeyAt(t, key, start + 1, end, i, c) {}
        if SearchKey(t, key, start, end).Some? {
          var i: nat, c: nat :| FirstKeyAt(t, key, start + 1, end, i, c);
          assert FirstKeyAt(t, key, start, end, i, c);
        }
      }
    }
  }

  lemma NoKeyBehind(t: string, key: string, start: nat, end: nat)
    requires start >= end
    ensures forall i: nat, c: nat :: start <= i ==> !KeyAt(t, key, i, c, end)
  {}
}
