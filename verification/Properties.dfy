// key=value text: module.prop and release.properties.
module Properties {
  import opened Results
  import opened TextLines

  datatype PropertyError = Malformed | DuplicateOrEmpty

  type Fields = map<string, string>

  function IndexOf(s: string, c: char): (n: nat)
    ensures n <= |s|
    ensures c !in s[..n]
    ensures n < |s| ==> s[n] == c
    ensures n < |s| <==> c in s
  {
    if s == "" || s[0] == c then 0
    else
      var n := 1 + IndexOf(s[1..], c);
      assert s[..n] == [s[0]] + s[1..][..n - 1];
      assert s == [s[0]] + s[1..];
      n
  }

  function KeyOf(line: string): string
    requires '=' in line
  {
    line[..IndexOf(line, '=')]
  }

  function ValueOf(line: string): string
    requires '=' in line
  {
    line[IndexOf(line, '=') + 1..]
  }

  predicate LineOk(line: string) { '=' in line && KeyOf(line) != "" && ValueOf(line) != "" }

  // The parsing loop from one line on, with the fields read so far.
  function Fold(lines: seq<string>, fields: Fields): Result<Fields, PropertyError> {
    if lines == [] then Ok(fields)
    else if '=' !in lines[0] then Err(Malformed)
    else if KeyOf(lines[0]) in fields || KeyOf(lines[0]) == "" || ValueOf(lines[0]) == "" then Err(DuplicateOrEmpty)
    else Fold(lines[1..], fields[KeyOf(lines[0]) := ValueOf(lines[0])])
  }

  function ParsedFields(text: string): Result<Fields, PropertyError> { Fold(SplitLines(text), map[]) }

  method ParseFields(text: string) returns (r: Result<Fields, PropertyError>)
    ensures r == ParsedFields(text)
  {
    var lines := SplitLines(text);
    var values: Fields := map[];
    assert lines[0..] == lines;
    for i := 0 to |lines|
      invariant Fold(lines, map[]) == Fold(lines[i..], values)
    {
      var line := lines[i];
      assert lines[i..][1..] == lines[i + 1..];
      if '=' !in line {
        return Err(Malformed);
      }
      var key, value := KeyOf(line), ValueOf(line);
      if key in values || key == "" || value == "" {
        return Err(DuplicateOrEmpty);
      }
      values := values[key := value];
    }
    return Ok(values);
  }

  function PropertyLine(key: string, value: string): string { key + "=" + value }

  lemma {:induction false} IndexOfLeast(s: string, c: char, k: nat)
    requires k < |s| && s[k] == c
    ensures IndexOf(s, c) <= k
  {
    if k > 0 && s[0] != c {
      IndexOfLeast(s[1..], c, k - 1);
    }
  }

  lemma PropertyLineParts(key: string, value: string)
    requires '=' !in key
    ensures var l := PropertyLine(key, value); '=' in l && KeyOf(l) == key && ValueOf(l) == value
  {
    var l := PropertyLine(key, value);
    assert l[|key|] == '=' && '=' in l;
    var n := IndexOf(l, '=');
    assert forall k :: 0 <= k < |key| ==> l[k] == key[k] && key[k] in key;
    IndexOfLeast(l, '=', |key|);
    assert l[..|key|] == key && l[|key| + 1..] == value;
  }

  lemma LineIsItsParts(line: string)
    requires '=' in line
    ensures line == PropertyLine(KeyOf(line), ValueOf(line)) && '=' !in KeyOf(line)
  {}

  // Where the fold succeeds, its keys are the initial ones and those of the lines.
  lemma {:induction false} FoldKeys(lines: seq<string>, fields: Fields, key: string)
    requires Fold(lines, fields).Ok?
    ensures forall l :: l in lines ==> '=' in l
    ensures key in Fold(lines, fields).value <==>
      key in fields || exists i :: 0 <= i < |lines| && KeyOf(lines[i]) == key
  {
    if lines != [] {
      var next := fields[KeyOf(lines[0]) := ValueOf(lines[0])];
      FoldKeys(lines[1..], next, key);
      assert lines == [lines[0]] + lines[1..];
      if i :| 0 <= i < |lines[1..]| && KeyOf(lines[1..][i]) == key {
        assert KeyOf(lines[i + 1]) == key;
      }
      if i :| 0 <= i < |lines| && KeyOf(lines[i]) == key {
        assert i > 0 ==> KeyOf(lines[1..][i - 1]) == key;
      }
    }
  }

  // Keys never repeat in text that parses.
  lemma {:induction false} FoldDistinct(lines: seq<string>, fields: Fields, i: nat)
    requires Fold(lines, fields).Ok? && i < |lines|
    ensures '=' in lines[i] && KeyOf(lines[i]) !in fields
    ensures LineOk(lines[i])
  {
    if i > 0 {
      FoldDistinct(lines[1..], fields[KeyOf(lines[0]) := ValueOf(lines[0])], i - 1);
    }
  }

  // Replacing the value on the one line that carries `key` replaces that field and no other.
  lemma {:induction false} FoldReplace(lines: seq<string>, fields: Fields, i: nat, value: string)
    requires Fold(lines, fields).Ok? && i < |lines| && value != ""
    ensures '=' in lines[i]
    ensures var key := KeyOf(lines[i]);
            Fold(lines[i := PropertyLine(key, value)], fields) == Ok(Fold(lines, fields).value[key := value])
  {
    var next := fields[KeyOf(lines[0]) := ValueOf(lines[0])];
    if i == 0 {
      var key := KeyOf(lines[0]);
      LineIsItsParts(lines[0]);
      PropertyLineParts(key, value);
      assert lines[0 := PropertyLine(key, value)][1..] == lines[1..];
      FoldOverride(lines[1..], next, key, value);
      assert next[key := value] == fields[key := value];
    } else {
      FoldReplace(lines[1..], next, i - 1, value);
      var changed := lines[i := PropertyLine(KeyOf(lines[i]), value)];
      assert changed[1..] == lines[1..][i - 1 := PropertyLine(KeyOf(lines[i]), value)];
    }
  }

  lemma {:induction false} FoldOverride(lines: seq<string>, fields: Fields, key: string, value: string)
    requires Fold(lines, fields).Ok? && key in fields
    ensures Fold(lines, fields[key := value]) == Ok(Fold(lines, fields).value[key := value])
  {
    if lines != [] {
      FoldDistinct(lines, fields, 0);
      var k, v := KeyOf(lines[0]), ValueOf(lines[0]);
      FoldOverride(lines[1..], fields[k := v], key, value);
      assert fields[k := v][key := value] == fields[key := value][k := v];
    }
  }

  // Text written from distinct keys parses back to exactly those fields.
  function Lines(pairs: seq<(string, string)>): (r: seq<string>)
    ensures |r| == |pairs|
    ensures forall i :: 0 <= i < |r| ==> r[i] == PropertyLine(pairs[i].0, pairs[i].1)
  {
    if pairs == [] then [] else [PropertyLine(pairs[0].0, pairs[0].1)] + Lines(pairs[1..])
  }

  function AsMap(pairs: seq<(string, string)>, fields: Fields): Fields {
    if pairs == [] then fields else AsMap(pairs[1..], fields[pairs[0].0 := pairs[0].1])
  }

  predicate Writable(pairs: seq<(string, string)>) {
    && (forall i :: 0 <= i < |pairs| ==> pairs[i].0 != "" && '=' !in pairs[i].0 && pairs[i].1 != "")
    && (forall i :: 0 <= i < |pairs| ==> OneLine(pairs[i].0) && OneLine(pairs[i].1))
    && (forall i, j :: 0 <= i < j < |pairs| ==> pairs[i].0 != pairs[j].0)
  }

  lemma {:induction false} FoldWritten(pairs: seq<(string, string)>, fields: Fields)
    requires Writable(pairs) && forall i :: 0 <= i < |pairs| ==> pairs[i].0 !in fields
    ensures Fold(Lines(pairs), fields) == Ok(AsMap(pairs, fields))
  {
    if pairs != [] {
      var key, value := pairs[0].0, pairs[0].1;
      PropertyLineParts(key, value);
      assert Lines(pairs)[1..] == Lines(pairs[1..]);
      assert Writable(pairs[1..]) by {
        forall i, j | 0 <= i < j < |pairs[1..]| ensures pairs[1..][i].0 != pairs[1..][j].0 {
          assert pairs[i + 1].0 != pairs[j + 1].0;
        }
      }
      forall i | 0 <= i < |pairs[1..]| ensures pairs[1..][i].0 !in fields[key := value] {
        assert pairs[0].0 != pairs[i + 1].0;
      }
      FoldWritten(pairs[1..], fields[key := value]);
    }
  }

  lemma WrittenParses(pairs: seq<(string, string)>)
    requires Writable(pairs)
    ensures ParsedFields(Terminated(Lines(pairs))) == Ok(AsMap(pairs, map[]))
  {
    hide Fold, AsMap;
    forall l | l in Lines(pairs) ensures OneLine(l) {
      var i :| 0 <= i < |pairs| && l == Lines(pairs)[i];
      assert !IsLineBreak('=');
    }
    SplitTerminated(Lines(pairs));
    FoldWritten(pairs, map[]);
  }
}
