// JSON text (RFC 8259) as `json.loads` reads it: a recursive-descent parser that keeps the
// position of every token, and the value those tokens denote.
module Json {
  import opened Results
  import opened Decimal

  // A token tree: every string and scalar is known by its span in the text.
  datatype Tree = Scalar(start: nat, end: nat) | Str(start: nat, end: nat) | Arr(items: Trees) | Obj(members: Members)

  datatype Trees = NoTree | More(head: Tree, tail: Trees)

  datatype Members = NoMember | Bind(keyStart: nat, keyEnd: nat, value: Tree, rest: Members)

  predicate IsWs(c: char) { c == ' ' || c == '\t' || c == '\n' || c == '\r' }

  function SkipWs(t: string, i: nat): (r: nat)
    requires i <= |t|
    ensures i <= r <= |t|
    ensures forall k :: i <= k < r ==> IsWs(t[k])
    ensures r < |t| ==> !IsWs(t[r])
    decreases |t| - i
  {
    if i < |t| && IsWs(t[i]) then SkipWs(t, i + 1) else i
  }

  predicate IsHexDigit(c: char) { '0' <= c <= '9' || 'a' <= c <= 'f' || 'A' <= c <= 'F' }

  predicate HexAt(t: string, i: nat) {
    i + 4 <= |t| && IsHexDigit(t[i]) && IsHexDigit(t[i + 1]) && IsHexDigit(t[i + 2]) && IsHexDigit(t[i + 3])
  }

  predicate SimpleEscape(c: char) {
    c == '"' || c == '\\' || c == '/' || c == 'b' || c == 'f' || c == 'n' || c == 'r' || c == 't'
  }

  // Section 7: from a position inside a string to just after its closing quote.
  function StringEnd(t: string, i: nat): (r: Option<nat>)
    ensures r.Some? ==> i < r.value <= |t|
    decreases |t| - i
  {
    if i >= |t| then None
    else if t[i] == '"' then Some(i + 1)
    else if t[i] == '\\' then
      if i + 1 >= |t| then None
      else if t[i + 1] == 'u' then if HexAt(t, i + 2) then StringEnd(t, i + 6) else None
      else if SimpleEscape(t[i + 1]) then StringEnd(t, i + 2)
      else None
    else if t[i] < ' ' then None
    else StringEnd(t, i + 1)
  }

  predicate HasAt(t: string, i: nat, word: string) { i + |word| <= |t| && t[i..i + |word|] == word }

  function DigitsEnd(t: string, i: nat): (r: nat)
    requires i <= |t|
    ensures i <= r <= |t|
    decreases |t| - i
  {
    if i < |t| && IsDigit(t[i]) then DigitsEnd(t, i + 1) else i
  }

  function FractionEnd(t: string, i: nat): (r: nat)
    requires i <= |t|
    ensures i <= r <= |t|
  {
    if i + 1 < |t| && t[i] == '.' && IsDigit(t[i + 1]) then DigitsEnd(t, i + 1) else i
  }

  function ExponentEnd(t: string, i: nat): (r: nat)
    requires i <= |t|
    ensures i <= r <= |t|
  {
    if i < |t| && (t[i] == 'e' || t[i] == 'E') then
      var s := if i + 1 < |t| && (t[i + 1] == '+' || t[i + 1] == '-') then i + 2 else i + 1;
      if s < |t| && IsDigit(t[s]) then DigitsEnd(t, s) else i
    else i
  }

  // Section 6, read as far as it goes.
  function NumberEnd(t: string, i: nat): (r: Option<nat>)
    ensures r.Some? ==> i < r.value <= |t|
  {
    var s := if i < |t| && t[i] == '-' then i + 1 else i;
    if s >= |t| || !IsDigit(t[s]) then None
    else
      var whole := if t[s] == '0' then s + 1 else DigitsEnd(t, s + 1);
      Some(ExponentEnd(t, FractionEnd(t, whole)))
  }

  // null, true, false, numbers, and the three words the Python reader also takes.
  function ScalarEnd(t: string, i: nat): (r: Option<nat>)
    ensures r.Some? ==> i < r.value <= |t|
  {
    if HasAt(t, i, "null") || HasAt(t, i, "true") then Some(i + 4)
    else if HasAt(t, i, "false") then Some(i + 5)
    else if HasAt(t, i, "NaN") then Some(i + 3)
    else if HasAt(t, i, "Infinity") then Some(i + 8)
    else if HasAt(t, i, "-Infinity") then Some(i + 9)
    else NumberEnd(t, i)
  }

  function ParseValue(t: string, i: nat): (r: Option<(Tree, nat)>)
    ensures r.Some? ==> i < r.value.1 <= |t|
    decreases |t| - i, 2
  {
    if i >= |t| then None
    else if t[i] == '"' then
      var e := StringEnd(t, i + 1);
      if e.None? then None else Some((Str(i, e.value), e.value))
    else if t[i] == '{' then
      var j := SkipWs(t, i + 1);
      if j < |t| && t[j] == '}' then Some((Obj(NoMember), j + 1))
      else
        var ms := ParseMembers(t, j);
        if ms.None? then None else Some((Obj(ms.value.0), ms.value.1))
    else if t[i] == '[' then
      var j := SkipWs(t, i + 1);
      if j < |t| && t[j] == ']' then Some((Arr(NoTree), j + 1))
      else
        var es := ParseElements(t, j);
        if es.None? then None else Some((Arr(es.value.0), es.value.1))
    else
      var e := ScalarEnd(t, i);
      if e.None? then None else Some((Scalar(i, e.value), e.value))
  }

  // A key, a colon and a value, with the white space around them.
  function ParseMember(t: string, i: nat): (r: Option<(nat, Tree, nat)>)
    ensures r.Some? ==> i < r.value.2 <= |t|
    decreases |t| - i, 0
  {
    if i >= |t| || t[i] != '"' then None else
    var key := StringEnd(t, i + 1);
    if key.None? then None else
    var c := SkipWs(t, key.value);
    if c >= |t| || t[c] != ':' then None else
    var v := ParseValue(t, SkipWs(t, c + 1));
    if v.None? then None else Some((key.value, v.value.0, SkipWs(t, v.value.1)))
  }

  // Section 4: the members from an opening quote to just after the closing brace.
  function ParseMembers(t: string, i: nat): (r: Option<(Members, nat)>)
    ensures r.Some? ==> i < r.value.1 <= |t|
    decreases |t| - i, 1
  {
    var one := ParseMember(t, i);
    if one.None? then None else
    var (keyEnd, value, m) := one.value;
    if m >= |t| then None
    else if t[m] == '}' then Some((Bind(i, keyEnd, value, NoMember), m + 1))
    else if t[m] == ',' then
      var rest := ParseMembers(t, SkipWs(t, m + 1));
      if rest.None? then None else Some((Bind(i, keyEnd, value, rest.value.0), rest.value.1))
    else None
  }

  function ParseElements(t: string, i: nat): (r: Option<(Trees, nat)>)
    ensures r.Some? ==> i < r.value.1 <= |t|
    decreases |t| - i, 3
  {
    var v := ParseValue(t, i);
    if v.None? then None else
    var m := SkipWs(t, v.value.1);
    if m >= |t| then None
    else if t[m] == ']' then Some((More(v.value.0, NoTree), m + 1))
    else if t[m] == ',' then
      var rest := ParseElements(t, SkipWs(t, m + 1));
      if rest.None? then None else Some((More(v.value.0, rest.value.0), rest.value.1))
    else None
  }

  // One unfolding of a member, for a text that parses and for one that is to be shown to.
  lemma MemberStep(t: string, i: nat)
    ensures ParseMember(t, i).Some? ==>
      i < |t| && t[i] == '"' && StringEnd(t, i + 1).Some?
      && var d := SkipWs(t, StringEnd(t, i + 1).value);
         d < |t| && t[d] == ':' && ParseValue(t, SkipWs(t, d + 1)).Some?
    ensures i < |t| && t[i] == '"' && StringEnd(t, i + 1).Some? ==>
      var key := StringEnd(t, i + 1).value;
      var d := SkipWs(t, key);
      d < |t| && t[d] == ':' && ParseValue(t, SkipWs(t, d + 1)).Some? ==>
        var (v, j) := ParseValue(t, SkipWs(t, d + 1)).value;
        ParseMember(t, i) == Some((key, v, SkipWs(t, j)))
  {
    hide ParseValue, SkipWs, StringEnd;
  }

  // The same for the members of an object.
  lemma MembersStep(t: string, i: nat)
    ensures ParseMember(t, i).Some? ==>
      var (keyEnd, v, m) := ParseMember(t, i).value;
      && (m < |t| && t[m] == '}' ==> ParseMembers(t, i) == Some((Bind(i, keyEnd, v, NoMember), m + 1)))
      && (m < |t| && t[m] == ',' && ParseMembers(t, SkipWs(t, m + 1)).Some? ==>
            var rest := ParseMembers(t, SkipWs(t, m + 1)).value;
            ParseMembers(t, i) == Some((Bind(i, keyEnd, v, rest.0), rest.1)))
  {
    hide ParseMember, SkipWs;
  }

  // The same for a list of elements.
  lemma ElementsStep(t: string, i: nat)
    ensures ParseElements(t, i).Some? ==>
      ParseValue(t, i).Some?
      && var m := SkipWs(t, ParseValue(t, i).value.1);
         m < |t| && (t[m] == ']' || (t[m] == ',' && ParseElements(t, SkipWs(t, m + 1)).Some?))
    ensures ParseValue(t, i).Some? ==>
      var (v, j) := ParseValue(t, i).value;
      var m := SkipWs(t, j);
      && (m < |t| && t[m] == ']' ==> ParseElements(t, i) == Some((More(v, NoTree), m + 1)))
      && (m < |t| && t[m] == ',' && ParseElements(t, SkipWs(t, m + 1)).Some? ==>
            var rest := ParseElements(t, SkipWs(t, m + 1)).value;
            ParseElements(t, i) == Some((More(v, rest.0), rest.1)))
  {
    hide ParseValue, SkipWs;
  }

  // The whole text is one value between white space.
  function Document(t: string): Option<Tree> {
    var v := ParseValue(t, SkipWs(t, 0));
    if v.Some? && SkipWs(t, v.value.1) == |t| then Some(v.value.0) else None
  }

  // ---- values ----

  // Strings are code points: an escaped lone surrogate is one of them.
  type Codes = seq<int>

  datatype Value = VScalar(raw: string) | VStr(text: Codes) | VArr(items: seq<Value>) | VObj(fields: map<Codes, Value>)

  function HexValue(c: char): int {
    if '0' <= c <= '9' then c as int - '0' as int
    else if 'a' <= c <= 'f' then c as int - 'a' as int + 10
    else c as int - 'A' as int + 10
  }

  function UnitAt(t: string, i: nat): int
    requires i + 4 <= |t|
  {
    HexValue(t[i]) * 4096 + HexValue(t[i + 1]) * 256 + HexValue(t[i + 2]) * 16 + HexValue(t[i + 3])
  }

  function Unescaped(c: char): int {
    match c
    case 'b' => 8
    case 'f' => 12
    case 'n' => 10
    case 'r' => 13
    case 't' => 9
    case _ => c as int
  }

  predicate SurrogatePairAt(t: string, i: nat, e: nat) {
    && i + 12 <= e <= |t|
    && t[i + 6] == '\\' && t[i + 7] == 'u'
    && 0xD800 <= UnitAt(t, i + 2) < 0xDC00 && 0xDC00 <= UnitAt(t, i + 8) < 0xE000
  }

  // The code point spelled at i, in a token body that ends at e, and where the next one starts.
  function CodeAt(t: string, i: nat, e: nat): (r: (int, nat))
    requires i < e <= |t|
    ensures i < r.1 <= e
  {
    if t[i] == '\\' && i + 6 <= e && t[i + 1] == 'u' then
      if SurrogatePairAt(t, i, e) then
        (0x10000 + (UnitAt(t, i + 2) - 0xD800) * 0x400 + (UnitAt(t, i + 8) - 0xDC00), i + 12)
      else (UnitAt(t, i + 2), i + 6)
    else if t[i] == '\\' && i + 2 <= e then (Unescaped(t[i + 1]), i + 2)
    else (t[i] as int, i + 1)
  }

  // The body of a string token, from i up to its closing quote at e.
  function Decoded(t: string, i: nat, e: nat): Codes
    requires e <= |t|
    decreases |t| - i
  {
    if i >= e then [] else [CodeAt(t, i, e).0] + Decoded(t, CodeAt(t, i, e).1, e)
  }

  // What a string token spells; tokens of a parsed text always lie within it.
  function TokenText(t: string, start: nat, end: nat): Codes {
    if start + 2 <= end <= |t| then Decoded(t, start + 1, end - 1) else []
  }

  function Slice(t: string, start: nat, end: nat): string {
    if start <= end <= |t| then t[start..end] else ""
  }

  // A repeated key keeps its last value.
  function Eval(t: string, tree: Tree): Value {
    match tree
    case Scalar(s, e) => VScalar(Slice(t, s, e))
    case Str(s, e) => VStr(TokenText(t, s, e))
    case Arr(items) => VArr(EvalItems(t, items))
    case Obj(members) => VObj(EvalMembers(t, members))
  }

  function EvalItems(t: string, items: Trees): seq<Value> {
    match items
    case NoTree => []
    case More(head, tail) => [Eval(t, head)] + EvalItems(t, tail)
  }

  function EvalMembers(t: string, members: Members): map<Codes, Value> {
    match members
    case NoMember => map[]
    case Bind(s, e, value, rest) => map[TokenText(t, s, e) := Eval(t, value)] + EvalMembers(t, rest)
  }

  // `json.loads`.
  function Loads(t: string): Option<Value> {
    var tree := Document(t);
    if tree.None? then None else Some(Eval(t, tree.value))
  }
}
