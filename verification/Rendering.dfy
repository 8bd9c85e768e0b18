// Every way to write a JSON value: white space, escapes and number forms included (RFC 8259,
// sections 2 to 7), and the three words the Python reader takes besides. The parser reads each of
// them to its end and as what it means, whatever text follows, so the scanner finds each of them
// too.
module Rendering {
  import opened Results
  import opened Decimal
  import opened Json
  import opened ObjectScanner

  // One character of a string as written.
  datatype Unit = Plain(c: char) | Escape(c: char) | Hex(digits: string)

  datatype Exponent = NoExponent | Exponent(mark: char, sign: string, digits: string)

  datatype Value =
    | Literal(word: string)
    | Number(negative: bool, whole: string, fraction: string, exponent: Exponent)
    | Text(units: seq<Unit>)
    | EmptyArray(space: string)
    | Array(space: string, items: Items)
    | EmptyObject(space: string)
    | Object(space: string, members: Members)

  // `before` stands between a value and the comma or bracket behind it, `space` behind a comma.
  datatype Items = Last(value: Value, before: string) | Next(value: Value, before: string, space: string, rest: Items)

  datatype Members =
    | LastMember(key: seq<Unit>, colon: string, gap: string, value: Value, before: string)
    | NextMember(key: seq<Unit>, colon: string, gap: string, value: Value, before: string, space: string, rest: Members)

  function UnitText(u: Unit): string {
    match u
    case Plain(c) => [c]
    case Escape(c) => ['\\', c]
    case Hex(digits) => ['\\', 'u'] + digits
  }

  function Body(units: seq<Unit>): string {
    if units == [] then "" else UnitText(units[0]) + Body(units[1..])
  }

  function Quoted(units: seq<Unit>): string { ['"'] + (Body(units) + ['"']) }

  function ExponentText(e: Exponent): string {
    if e.NoExponent? then "" else [e.mark] + (e.sign + e.digits)
  }

  function FractionText(fraction: string): string { if fraction == "" then "" else ['.'] + fraction }

  function Written(v: Value): string {
    match v
    case Literal(word) => word
    case Number(negative, whole, fraction, exponent) =>
      (if negative then "-" else "") + (whole + (FractionText(fraction) + ExponentText(exponent)))
    case Text(units) => Quoted(units)
    case EmptyArray(space) => ['['] + (space + [']'])
    case Array(space, items) => ['['] + (space + WrittenItems(items))
    case EmptyObject(space) => ['{'] + (space + ['}'])
    case Object(space, members) => ['{'] + (space + WrittenMembers(members))
  }

  function WrittenItems(items: Items): string {
    match items
    case Last(value, before) => Written(value) + (before + [']'])
    case Next(value, before, space, rest) => Written(value) + (before + ([','] + (space + WrittenItems(rest))))
  }

  function WrittenMembers(members: Members): string {
    match members
    case LastMember(key, colon, gap, value, before) =>
      Quoted(key) + (colon + ([':'] + (gap + (Written(value) + (before + ['}'])))))
    case NextMember(key, colon, gap, value, before, space, rest) =>
      Quoted(key) + (colon + ([':'] + (gap + (Written(value) + (before + ([','] + (space + WrittenMembers(rest))))))))
  }

  // ---- Well-formed renderings

  predicate Blank(s: string) { forall c :: c in s ==> c == ' ' || c == '\t' || c == '\n' || c == '\r' }

  // One of the eight characters that may stand behind a backslash, and what that means.
  function Escaped(c: char): Option<int> {
    match c
    case '"' => Some(34)
    case '\\' => Some(92)
    case '/' => Some(47)
    case 'b' => Some(8)
    case 'f' => Some(12)
    case 'n' => Some(10)
    case 'r' => Some(13)
    case 't' => Some(9)
    case _ => None
  }

  predicate Hexadecimal(c: char) { '0' <= c <= '9' || 'A' <= c <= 'F' || 'a' <= c <= 'f' }

  predicate UnitOk(u: Unit) {
    match u
    case Plain(c) => c >= ' ' && c != '"' && c != '\\'
    case Escape(c) => Escaped(c).Some?
    case Hex(digits) => |digits| == 4 && forall c :: c in digits ==> Hexadecimal(c)
  }

  predicate UnitsOk(units: seq<Unit>) { forall u :: u in units ==> UnitOk(u) }

  predicate ExponentOk(e: Exponent) {
    e.Exponent? ==>
      && (e.mark == 'e' || e.mark == 'E') && IsDigits(e.digits)
      && (e.sign == "" || e.sign == "+" || e.sign == "-")
  }

  predicate ValueOk(v: Value) {
    match v
    case Literal(word) =>
      || word == "null" || word == "true" || word == "false"
      || word == "NaN" || word == "Infinity" || word == "-Infinity"
    case Number(negative, whole, fraction, exponent) =>
      IsDigits(whole) && (|whole| > 1 ==> whole[0] != '0') && (fraction == "" || IsDigits(fraction))
        && ExponentOk(exponent)
    case Text(units) => UnitsOk(units)
    case EmptyArray(space) => Blank(space)
    case Array(space, items) => Blank(space) && ItemsOk(items)
    case EmptyObject(space) => Blank(space)
    case Object(space, members) => Blank(space) && MembersOk(members)
  }

  predicate ItemsOk(items: Items) {
    && ValueOk(items.value) && Blank(items.before)
    && (items.Next? ==> Blank(items.space) && ItemsOk(items.rest))
  }

  predicate MembersOk(members: Members) {
    && UnitsOk(members.key) && Blank(members.colon) && Blank(members.gap) && ValueOk(members.value)
       && Blank(members.before)
    && (members.NextMember? ==> Blank(members.space) && MembersOk(members.rest))
  }

  // ---- What a rendering means

  function Nibble(c: char): int
    requires Hexadecimal(c)
  {
    if c <= '9' then c as int - 48 else if c <= 'F' then c as int - 55 else c as int - 87
  }

  function UnitValue(u: Unit): int
    requires UnitOk(u)
  {
    match u
    case Plain(c) => c as int
    case Escape(c) => Escaped(c).value
    case Hex(digits) =>
      assert forall k :: 0 <= k < 4 ==> digits[k] in digits;
      Nibble(digits[0]) * 4096 + Nibble(digits[1]) * 256 + Nibble(digits[2]) * 16 + Nibble(digits[3])
  }

  predicate High(u: Unit)
    requires UnitOk(u)
  {
    u.Hex? && 0xD800 <= UnitValue(u) <= 0xDBFF
  }

  predicate Low(u: Unit)
    requires UnitOk(u)
  {
    u.Hex? && 0xDC00 <= UnitValue(u) <= 0xDFFF
  }

  // One code point for each unit, and one for a pair of surrogates.
  function Spelt(units: seq<Unit>): Codes
    requires UnitsOk(units)
  {
    if units == [] then []
    else if |units| > 1 && High(units[0]) && Low(units[1]) then
      [0x10000 + (UnitValue(units[0]) - 0xD800) * 0x400 + (UnitValue(units[1]) - 0xDC00)] + Spelt(units[2..])
    else [UnitValue(units[0])] + Spelt(units[1..])
  }

  // Numbers and words mean themselves; of members with one key the last one counts.
  function Meaning(v: Value): Json.Value
    requires ValueOk(v)
    decreases v, 1
  {
    match v
    case Literal(word) => VScalar(word)
    case Number(_, _, _, _) => VScalar(Written(v))
    case Text(units) => VStr(Spelt(units))
    case EmptyArray(_) => VArr([])
    case Array(_, items) => VArr(ItemsMeaning(items))
    case EmptyObject(_) => VObj(map[])
    case Object(_, members) => VObj(MembersMeaning(members))
  }

  function ItemsMeaning(items: Items): seq<Json.Value>
    requires ItemsOk(items)
  {
    [Meaning(items.value)] + if items.Last? then [] else ItemsMeaning(items.rest)
  }

  function MembersMeaning(members: Members): map<Codes, Json.Value>
    requires MembersOk(members)
  {
    var first := map[Spelt(members.key) := Meaning(members.value)];
    if members.LastMember? then first else first + MembersMeaning(members.rest)
  }

  // ---- Reading a rendering back

  lemma HasParts(t: string, i: nat, a: string, b: string)
    requires HasAt(t, i, a + b)
    ensures HasAt(t, i, a) && HasAt(t, i + |a|, b)
  {
    assert t[i..i + |a| + |b|] == a + b;
    assert t[i..i + |a|] == (a + b)[..|a|] && t[i + |a|..i + |a| + |b|] == (a + b)[|a|..];
  }

  lemma HasChar(t: string, i: nat, c: char, b: string)
    requires HasAt(t, i, [c] + b)
    ensures i < |t| && t[i] == c && HasAt(t, i + 1, b)
  {
    HasParts(t, i, [c], b);
    assert t[i..i + 1][0] == c;
  }

  lemma HasLast(t: string, i: nat, c: char)
    requires HasAt(t, i, [c])
    ensures i < |t| && t[i] == c
  {
    assert t[i..i + 1][0] == c;
  }

  lemma WithinText(t: string, i: nat, a: string)
    requires HasAt(t, i, a)
    ensures i + |a| <= |t|
  {}

  lemma {:induction false} BlankSkipped(t: string, i: nat, space: string)
    requires HasAt(t, i, space) && Blank(space) && (i + |space| < |t| ==> !IsWs(t[i + |space|]))
    ensures SkipWs(t, i) == i + |space|
    decreases |space|
  {
    hide HasAt;
    WithinText(t, i, space);
    if space != "" {
      assert space == [space[0]] + space[1..];
      HasChar(t, i, space[0], space[1..]);
      assert space[0] in space && forall c :: c in space[1..] ==> c in space;
      BlankSkipped(t, i + 1, space[1..]);
    }
  }

  lemma {:induction false} DigitsRead(t: string, i: nat, digits: string)
    requires HasAt(t, i, digits) && (forall c :: c in digits ==> IsDigit(c))
    requires i + |digits| < |t| ==> !IsDigit(t[i + |digits|])
    ensures DigitsEnd(t, i) == i + |digits|
    decreases |digits|
  {
    if digits != "" {
      assert digits == [digits[0]] + digits[1..];
      HasChar(t, i, digits[0], digits[1..]);
      assert digits[0] in digits && forall c :: c in digits[1..] ==> c in digits;
      DigitsRead(t, i + 1, digits[1..]);
    }
  }

  lemma EscapedExact(c: char)
    ensures Escaped(c).Some? <==> SimpleEscape(c)
    ensures Escaped(c).Some? ==> Escaped(c) == Some(Unescaped(c)) && c != 'u'
  {}

  lemma HexadecimalExact(c: char)
    ensures Hexadecimal(c) <==> IsHexDigit(c)
    ensures Hexadecimal(c) ==> Nibble(c) == HexValue(c)
  {}

  // The parts of a unit where it stands in a text.
  lemma UnitRead(t: string, i: nat, u: Unit)
    requires UnitOk(u) && HasAt(t, i, UnitText(u))
    ensures i + |UnitText(u)| <= |t|
    ensures match u
      case Plain(c) => t[i] == c && c >= ' ' && c != '"' && c != '\\'
      case Escape(c) => t[i] == '\\' && t[i + 1] == c && SimpleEscape(c) && c != 'u' && Unescaped(c) == UnitValue(u)
      case Hex(digits) =>
        |digits| == 4 && t[i] == '\\' && t[i + 1] == 'u' && HexAt(t, i + 2) && UnitAt(t, i + 2) == UnitValue(u)
  {
    hide SimpleEscape, Unescaped, Escaped, HexValue, Nibble, IsHexDigit, Hexadecimal;
    match u {
      case Plain(c) =>
        HasLast(t, i, c);
      case Escape(c) =>
        assert ['\\', c] == ['\\'] + [c];
        HasChar(t, i, '\\', [c]);
        HasLast(t, i + 1, c);
        EscapedExact(c);
      case Hex(digits) =>
        assert ['\\', 'u'] + digits == ['\\'] + (['u'] + digits);
        HasChar(t, i, '\\', ['u'] + digits);
        HasChar(t, i + 1, 'u', digits);
        forall k | 0 <= k < 4
          ensures t[i + 2 + k] == digits[k] && Hexadecimal(digits[k])
          ensures IsHexDigit(digits[k]) && Nibble(digits[k]) == HexValue(digits[k]) {
          assert t[i + 2 + k] == t[i + 2..i + 6][k] && digits[k] in digits;
          HexadecimalExact(digits[k]);
        }
    }
  }

  lemma StringStep(t: string, i: nat, u: Unit)
    requires UnitOk(u) && HasAt(t, i, UnitText(u))
    ensures StringEnd(t, i) == StringEnd(t, i + |UnitText(u)|)
  {
    hide UnitOk, HexAt, SimpleEscape, UnitAt, Unescaped, HasAt, UnitValue;
    UnitRead(t, i, u);
  }

  lemma {:induction false} BodyRead(t: string, i: nat, units: seq<Unit>)
    requires UnitsOk(units) && HasAt(t, i, Body(units) + ['"'])
    ensures StringEnd(t, i) == Some(i + |Body(units)| + 1)
    decreases |units|
  {
    hide UnitText, UnitOk;
    if units == [] {
      assert Body(units) + ['"'] == ['"'];
      HasLast(t, i, '"');
    } else {
      var first, rest := UnitText(units[0]), Body(units[1..]);
      assert Body(units) + ['"'] == first + (rest + ['"']);
      HasParts(t, i, first, rest + ['"']);
      assert units[0] in units && forall u :: u in units[1..] ==> u in units;
      StringStep(t, i, units[0]);
      BodyRead(t, i + |first|, units[1..]);
    }
  }

  lemma QuotedRead(t: string, i: nat, units: seq<Unit>)
    requires UnitsOk(units) && HasAt(t, i, Quoted(units))
    ensures i < |t| && t[i] == '"' && StringEnd(t, i + 1) == Some(i + |Quoted(units)|)
  {
    HasChar(t, i, '"', Body(units) + ['"']);
    BodyRead(t, i + 1, units);
  }

  // What the next unit tells about a pair that starts at i.
  lemma PairRead(t: string, i: nat, e: nat, units: seq<Unit>)
    requires UnitsOk(units) && units != [] && units[0].Hex? && HasAt(t, i, Body(units)) && e == i + |Body(units)| <= |t|
    ensures SurrogatePairAt(t, i, e) <==> |units| > 1 && High(units[0]) && Low(units[1])
    ensures SurrogatePairAt(t, i, e) ==> UnitAt(t, i + 8) == UnitValue(units[1])
  {
    hide HasAt, UnitOk, UnitAt, UnitValue, SimpleEscape, HexAt;
    assert units[0] in units;
    HasParts(t, i, UnitText(units[0]), Body(units[1..]));
    UnitRead(t, i, units[0]);
    if |units| > 1 {
      assert units[1] in units && units[1..][0] == units[1];
      HasParts(t, i + 6, UnitText(units[1]), Body(units[2..])) by { assert units[1..][1..] == units[2..]; }
      UnitRead(t, i + 6, units[1]);
    }
  }

  lemma OneRead(t: string, i: nat, e: nat, u: Unit)
    requires UnitOk(u) && HasAt(t, i, UnitText(u)) && i + |UnitText(u)| <= e <= |t|
    ensures u.Hex? || !SurrogatePairAt(t, i, e) ==>
      CodeAt(t, i, e) == if SurrogatePairAt(t, i, e)
        then (0x10000 + (UnitValue(u) - 0xD800) * 0x400 + (UnitAt(t, i + 8) - 0xDC00), i + 12)
        else (UnitValue(u), i + |UnitText(u)|)
    ensures !u.Hex? ==> CodeAt(t, i, e) == (UnitValue(u), i + |UnitText(u)|)
  {
    hide HasAt, SimpleEscape, HexAt, UnitAt, Unescaped, SurrogatePairAt;
    UnitRead(t, i, u);
  }

  // The token reader spells what the units mean.
  lemma {:induction false} BodyMeaning(t: string, i: nat, e: nat, units: seq<Unit>)
    requires UnitsOk(units) && HasAt(t, i, Body(units)) && e == i + |Body(units)| <= |t|
    ensures Decoded(t, i, e) == Spelt(units)
    decreases |units|
  {
    hide HasAt, UnitOk, UnitAt, UnitValue, CodeAt, SurrogatePairAt, UnitText, High, Low;
    if units != [] {
      var u, rest := units[0], units[1..];
      assert u in units && forall x :: x in rest ==> x in units;
      HasParts(t, i, UnitText(u), Body(rest));
      OneRead(t, i, e, u);
      if u.Hex? { PairRead(t, i, e, units); }
      if |units| > 1 && High(u) && Low(units[1]) {
        HighIsHex(u, units[1]);
        assert rest[0] == units[1] && rest[1..] == units[2..] && units[1] in units;
        HasParts(t, i + 6, UnitText(units[1]), Body(units[2..]));
        BodyMeaning(t, i + 12, e, units[2..]);
      } else {
        BodyMeaning(t, i + |UnitText(u)|, e, rest);
      }
    }
  }

  lemma HighIsHex(u: Unit, v: Unit)
    requires UnitOk(u) && UnitOk(v) && High(u) && Low(v)
    ensures u.Hex? && |UnitText(u)| == 6 && |UnitText(v)| == 6
  {}

  lemma QuotedMeaning(t: string, i: nat, units: seq<Unit>)
    requires UnitsOk(units) && HasAt(t, i, Quoted(units))
    ensures TokenText(t, i, i + |Quoted(units)|) == Spelt(units)
  {
    hide HasAt, Decoded;
    WithinText(t, i, Quoted(units));
    HasParts(t, i, ['"'], Body(units) + ['"']);
    HasParts(t, i + 1, Body(units), ['"']);
    BodyMeaning(t, i + 1, i + 1 + |Body(units)|, units);
  }

  // What may stand behind a number without becoming part of it.
  predicate Delimited(t: string, e: nat) {
    e < |t| ==> IsWs(t[e]) || t[e] == ',' || t[e] == ']' || t[e] == '}'
  }

  lemma DigitsStart(t: string, i: nat, digits: string)
    requires IsDigits(digits) && HasAt(t, i, digits)
    ensures i < |t| && IsDigit(t[i])
  {
    assert digits == [digits[0]] + digits[1..] && digits[0] in digits;
    HasChar(t, i, digits[0], digits[1..]);
  }

  lemma ExponentStart(t: string, i: nat, d: nat)
    requires i < d < |t| && (t[i] == 'e' || t[i] == 'E') && IsDigit(t[d])
    requires d == i + 1 || (d == i + 2 && (t[i + 1] == '+' || t[i + 1] == '-'))
    ensures ExponentEnd(t, i) == DigitsEnd(t, d)
  {
    hide DigitsEnd;
  }

  lemma NoExponentHere(t: string, i: nat)
    requires i <= |t| && (i < |t| ==> t[i] != 'e' && t[i] != 'E')
    ensures ExponentEnd(t, i) == i
  {
    hide DigitsEnd;
  }

  lemma ExponentRead(t: string, i: nat, e: Exponent)
    requires ExponentOk(e) && HasAt(t, i, ExponentText(e)) && Delimited(t, i + |ExponentText(e)|)
    ensures ExponentEnd(t, i) == i + |ExponentText(e)|
  {
    hide HasAt, DigitsEnd, IsWs, Delimited, IsDigits, IsDigit, ExponentEnd;
    WithinText(t, i, ExponentText(e));
    EndsAtDelimiter(t, i + |ExponentText(e)|);
    if e.Exponent? {
      HasChar(t, i, e.mark, e.sign + e.digits);
      HasParts(t, i + 1, e.sign, e.digits);
      var d := i + 1 + |e.sign|;
      DigitsStart(t, d, e.digits);
      SignRead(t, i + 1, e.sign);
      DigitsChars(e.digits);
      DigitsRead(t, d, e.digits);
      ExponentStart(t, i, d);
    } else {
      NoExponentHere(t, i);
    }
  }

  lemma DigitsChars(s: string)
    requires IsDigits(s)
    ensures forall c :: c in s ==> IsDigit(c)
  {}

  lemma SignRead(t: string, i: nat, sign: string)
    requires HasAt(t, i, sign) && (sign == "" || sign == "+" || sign == "-")
    ensures sign != "" ==> i < |t| && (t[i] == '+' || t[i] == '-')
  {
    if sign != "" {
      assert sign == [sign[0]];
      HasLast(t, i, sign[0]);
    }
  }

  lemma EndsAtDelimiter(t: string, e: nat)
    requires Delimited(t, e)
    ensures e < |t| ==> !IsDigit(t[e]) && t[e] != '.' && t[e] != 'e' && t[e] != 'E'
  {}

  lemma FractionRead(t: string, i: nat, fraction: string)
    requires (fraction == "" || IsDigits(fraction)) && HasAt(t, i, FractionText(fraction))
    requires var e := i + |FractionText(fraction)|; e < |t| ==> !IsDigit(t[e]) && t[e] != '.'
    ensures FractionEnd(t, i) == i + |FractionText(fraction)|
  {
    if fraction != "" {
      HasChar(t, i, '.', fraction);
      assert fraction == [fraction[0]] + fraction[1..] && fraction[0] in fraction;
      HasChar(t, i + 1, fraction[0], fraction[1..]);
      DigitsRead(t, i + 1, fraction);
    }
  }

  // Behind the whole digits: a fraction, an exponent or the delimiter.
  lemma TailRead(t: string, i: nat, fraction: string, exponent: Exponent)
    requires (fraction == "" || IsDigits(fraction)) && ExponentOk(exponent)
    requires HasAt(t, i, FractionText(fraction) + ExponentText(exponent))
    requires Delimited(t, i + |FractionText(fraction) + ExponentText(exponent)|)
    ensures i <= |t| && ExponentEnd(t, FractionEnd(t, i)) == i + |FractionText(fraction) + ExponentText(exponent)|
    ensures i < |t| ==> !IsDigit(t[i])
  {
    hide HasAt, DigitsEnd, Delimited, ExponentEnd, FractionEnd, IsDigits;
    var f := i + |FractionText(fraction)|;
    HasParts(t, i, FractionText(fraction), ExponentText(exponent));
    WithinText(t, f, ExponentText(exponent));
    if exponent.Exponent? {
      HasChar(t, f, exponent.mark, exponent.sign + exponent.digits);
    } else {
      EndsAtDelimiter(t, f);
    }
    FractionRead(t, i, fraction);
    ExponentRead(t, f, exponent);
    if fraction != "" {
      HasChar(t, i, '.', fraction);
    }
  }

  lemma WholeRead(t: string, i: nat, whole: string)
    requires IsDigits(whole) && (|whole| > 1 ==> whole[0] != '0') && HasAt(t, i, whole)
    requires i + |whole| < |t| ==> !IsDigit(t[i + |whole|])
    ensures i < |t| && IsDigit(t[i]) && (if t[i] == '0' then i + 1 else DigitsEnd(t, i + 1)) == i + |whole|
  {
    assert whole == [whole[0]] + whole[1..] && whole[0] in whole;
    HasChar(t, i, whole[0], whole[1..]);
    if whole[0] != '0' {
      assert forall c :: c in whole[1..] ==> c in whole;
      DigitsRead(t, i + 1, whole[1..]);
    }
  }

  lemma NumberRead(t: string, i: nat, v: Value)
    requires v.Number? && ValueOk(v) && HasAt(t, i, Written(v)) && Delimited(t, i + |Written(v)|)
    ensures NumberEnd(t, i) == Some(i + |Written(v)|)
    ensures i < |t| && (t[i] == '-' || IsDigit(t[i])) && (t[i] == '-' ==> i + 1 < |t| && IsDigit(t[i + 1]))
  {
    hide HasAt, DigitsEnd, Delimited, ExponentEnd, FractionEnd, IsDigits, ExponentOk, ExponentText, FractionText;
    var tail := FractionText(v.fraction) + ExponentText(v.exponent);
    var sign := if v.negative then "-" else "";
    HasParts(t, i, sign, v.whole + tail);
    var s := i + |sign|;
    if v.negative {
      HasChar(t, i, '-', v.whole + tail);
    }
    HasParts(t, s, v.whole, tail);
    TailRead(t, s + |v.whole|, v.fraction, v.exponent);
    WholeRead(t, s, v.whole);
  }

  // No number starts like one of the words.
  lemma NotAWord(t: string, i: nat)
    requires i < |t| && (t[i] == '-' || IsDigit(t[i])) && (t[i] == '-' ==> i + 1 < |t| && IsDigit(t[i + 1]))
    ensures ScalarEnd(t, i) == NumberEnd(t, i)
  {
    WordStarts(t, i, "null");
    WordStarts(t, i, "true");
    WordStarts(t, i, "false");
    WordStarts(t, i, "NaN");
    WordStarts(t, i, "Infinity");
    WordStarts(t, i, "-Infinity");
  }

  lemma WordStarts(t: string, i: nat, word: string)
    requires |word| > 1
    ensures HasAt(t, i, word) ==> t[i] == word[0] && t[i + 1] == word[1]
  {
    if HasAt(t, i, word) {
      assert t[i..i + |word|][0] == t[i] && t[i..i + |word|][1] == t[i + 1];
    }
  }

  lemma ScalarRead(t: string, i: nat, v: Value)
    requires (v.Number? || v.Literal?) && ValueOk(v) && HasAt(t, i, Written(v)) && Delimited(t, i + |Written(v)|)
    ensures i < |t| && t[i] != '"' && t[i] != '{' && t[i] != '[' && ScalarEnd(t, i) == Some(i + |Written(v)|)
  {
    if v.Number? {
      NumberRead(t, i, v);
      NotAWord(t, i);
    } else {
      WordStarts(t, i, "null");
      WordStarts(t, i, "true");
      WordStarts(t, i, "false");
    }
  }

  // No value starts with white space or with what closes a list.
  lemma ValueStart(t: string, i: nat, v: Value)
    requires ValueOk(v) && HasAt(t, i, Written(v)) && (v.Number? || v.Literal? ==> Delimited(t, i + |Written(v)|))
    ensures i < |t| && !IsWs(t[i]) && t[i] != ']' && t[i] != '}'
  {
    match v {
      case Literal(word) => WordStarts(t, i, word);
      case Number(negative, whole, fraction, exponent) => NumberRead(t, i, v);
      case Text(units) => QuotedRead(t, i, units);
      case EmptyArray(space) => HasChar(t, i, '[', space + [']']);
      case Array(space, items) => HasChar(t, i, '[', space + WrittenItems(items));
      case EmptyObject(space) => HasChar(t, i, '{', space + ['}']);
      case Object(space, members) => HasChar(t, i, '{', space + WrittenMembers(members));
    }
  }

  // White space up to a separator: what stands before it is delimited, and skipping finds it.
  lemma GapRead(t: string, i: nat, space: string, c: char, rest: string)
    requires Blank(space) && HasAt(t, i, space + ([c] + rest)) && !IsWs(c)
    ensures SkipWs(t, i) == i + |space| < |t| && t[i + |space|] == c && HasAt(t, i + |space| + 1, rest)
    ensures c == ',' || c == ']' || c == '}' ==> Delimited(t, i)
  {
    HasParts(t, i, space, [c] + rest);
    HasChar(t, i + |space|, c, rest);
    BlankSkipped(t, i, space);
    if space != "" {
      assert space == [space[0]] + space[1..] && space[0] in space;
      HasChar(t, i, space[0], space[1..]);
    }
  }

  // White space in front of a value.
  lemma LeadRead(t: string, i: nat, space: string, v: Value, rest: string)
    requires Blank(space) && ValueOk(v) && HasAt(t, i, space + (Written(v) + rest))
    requires v.Number? || v.Literal? ==> Delimited(t, i + |space| + |Written(v)|)
    ensures SkipWs(t, i) == i + |space| && HasAt(t, i + |space|, Written(v))
      && HasAt(t, i + |space| + |Written(v)|, rest)
    ensures i + |space| < |t| && t[i + |space|] != ']' && t[i + |space|] != '}'
  {
    hide HasAt, Written, ValueOk, Delimited;
    HasParts(t, i, space, Written(v) + rest);
    HasParts(t, i + |space|, Written(v), rest);
    ValueStart(t, i + |space|, v);
    BlankSkipped(t, i, space);
  }

  // A value between white space, up to the separator behind it.
  lemma ValueBetween(t: string, i: nat, space: string, v: Value, before: string, tail: string)
    requires Blank(space) && ValueOk(v) && Blank(before)
    requires tail != "" && (tail[0] == ',' || tail[0] == ']' || tail[0] == '}')
    requires HasAt(t, i, space + (Written(v) + (before + tail)))
    ensures var s, j := i + |space|, i + |space| + |Written(v)|;
      && SkipWs(t, i) == s < |t| && t[s] != ']' && t[s] != '}'
      && HasAt(t, s, Written(v)) && Delimited(t, j)
      && SkipWs(t, j) == j + |before| < |t| && t[j + |before|] == tail[0] && HasAt(t, j + |before|, tail)
  {
    hide HasAt, Written, ValueOk, Delimited, Blank, IsWs;
    var j := i + |space| + |Written(v)|;
    assert space + (Written(v) + (before + tail)) == space + Written(v) + (before + tail);
    HasParts(t, i, space + Written(v), before + tail);
    HasParts(t, j, before, tail);
    assert tail == [tail[0]] + tail[1..];
    SeparatorIsNoSpace(tail[0]);
    GapRead(t, j, before, tail[0], tail[1..]);
    LeadRead(t, i, space, v, before + tail);
  }

  lemma SeparatorIsNoSpace(c: char)
    requires c == ',' || c == ']' || c == '}'
    ensures !IsWs(c)
  {}

  lemma ScalarMeaning(t: string, i: nat, v: Value)
    requires (v.Number? || v.Literal?) && ValueOk(v) && HasAt(t, i, Written(v))
    ensures Eval(t, Scalar(i, i + |Written(v)|)) == Meaning(v)
  {
    hide ValueOk;
  }

  // The parser reads a rendering to its end, and as what it means.
  lemma {:induction false} ValueRead(t: string, i: nat, v: Value)
    requires ValueOk(v) && HasAt(t, i, Written(v)) && (v.Number? || v.Literal? ==> Delimited(t, i + |Written(v)|))
    ensures ParseValue(t, i).Some? && ParseValue(t, i).value.1 == i + |Written(v)|
    ensures Eval(t, ParseValue(t, i).value.0) == Meaning(v)
    decreases v, 1
  {
    hide HasAt, ParseElements, ParseMembers, SkipWs, StringEnd, ScalarEnd, WrittenItems, WrittenMembers, Blank;
    hide Slice, TokenText, Spelt, EvalItems, EvalMembers, ItemsMeaning, MembersMeaning, Quoted;
    match v {
      case Literal(word) =>
        ScalarRead(t, i, v);
        ScalarMeaning(t, i, v);
      case Number(negative, whole, fraction, exponent) =>
        ScalarRead(t, i, v);
        ScalarMeaning(t, i, v);
      case Text(units) =>
        QuotedRead(t, i, units);
        QuotedMeaning(t, i, units);
      case EmptyArray(space) =>
        HasChar(t, i, '[', space + [']']);
        assert [']'] == [']'] + "";
        GapRead(t, i + 1, space, ']', "");
        NothingMeant(t);
      case Array(space, items) =>
        HasChar(t, i, '[', space + WrittenItems(items));
        ItemsRead(t, i + 1, space, items);
      case EmptyObject(space) =>
        HasChar(t, i, '{', space + ['}']);
        assert ['}'] == ['}'] + "";
        GapRead(t, i + 1, space, '}', "");
        NothingMeant(t);
      case Object(space, members) =>
        HasChar(t, i, '{', space + WrittenMembers(members));
        MembersRead(t, i + 1, space, members);
    }
  }

  lemma NothingMeant(t: string)
    ensures EvalItems(t, NoTree) == [] && EvalMembers(t, NoMember) == map[]
  {}

  // The separator behind an item, and what follows it.
  function ItemsTail(items: Items): string {
    if items.Last? then [']'] else [','] + (items.space + WrittenItems(items.rest))
  }

  lemma ItemsShape(items: Items)
    ensures WrittenItems(items) == Written(items.value) + (items.before + ItemsTail(items))
  {
    hide Written;
  }

  lemma {:induction false} ItemsRead(t: string, i: nat, space: string, items: Items)
    requires Blank(space) && ItemsOk(items) && HasAt(t, i, space + WrittenItems(items))
    ensures SkipWs(t, i) == i + |space| && i + |space| < |t| && t[i + |space|] != ']'
    ensures ParseElements(t, i + |space|).Some?
    ensures ParseElements(t, i + |space|).value.1 == i + |space + WrittenItems(items)|
    ensures EvalItems(t, ParseElements(t, i + |space|).value.0) == ItemsMeaning(items)
    decreases items, 0
  {
    hide Eval, Meaning;
    hide HasAt, ParseElements, ParseValue, SkipWs, Written, Blank, ValueOk, WrittenItems, Delimited, ItemsTail;
    var v, s := items.value, i + |space|;
    ItemsShape(items);
    ItemsTailStart(items);
    ValueBetween(t, i, space, v, items.before, ItemsTail(items));
    ValueRead(t, s, v);
    ElementsStep(t, s);
    NothingMeant(t);
    if items.Next? {
      var m := s + |Written(v)| + |items.before|;
      HasChar(t, m, ',', items.space + WrittenItems(items.rest));
      ItemsRead(t, m + 1, items.space, items.rest);
    }
  }

  lemma ItemsTailStart(items: Items)
    ensures var tail := ItemsTail(items);
      && tail != "" && tail[0] == (if items.Last? then ']' else ',')
      && (items.Last? ==> |tail| == 1)
      && (items.Next? ==> tail == [','] + (items.space + WrittenItems(items.rest)))
  {
    hide WrittenItems;
  }

  function MembersTail(members: Members): string {
    if members.LastMember? then ['}'] else [','] + (members.space + WrittenMembers(members.rest))
  }

  lemma MembersShape(members: Members)
    ensures WrittenMembers(members)
      == Quoted(members.key)
        + (members.colon + ([':'] + (members.gap + (Written(members.value) + (members.before + MembersTail(members))))))
  {
    hide Written, Quoted;
  }

  // One member, from its key to the separator behind it.
  lemma {:induction false} MemberRead(t: string, i: nat, members: Members)
    requires MembersOk(members) && HasAt(t, i, WrittenMembers(members))
    ensures ParseMember(t, i).Some? && i < |t| && t[i] == '"'
    ensures var (keyEnd, value, _) := ParseMember(t, i).value;
      TokenText(t, i, keyEnd) == Spelt(members.key) && Eval(t, value) == Meaning(members.value)
    ensures var m := ParseMember(t, i).value.2;
      && m < |t| && HasAt(t, m, MembersTail(members)) && m + |MembersTail(members)| == i + |WrittenMembers(members)|
    decreases members, 0
  {
    hide HasAt, ParseMember, ParseValue, SkipWs, StringEnd, Written, Quoted, Blank, ValueOk, WrittenMembers;
    hide Delimited, UnitsOk, MembersTail, TokenText, Eval, Spelt, Meaning;
    var v, tail := members.value, MembersTail(members);
    MembersShape(members);
    TailStart(members);
    var rest := members.gap + (Written(v) + (members.before + tail));
    KeyRead(t, i, members.key, members.colon, rest);
    KeyMeaning(t, i, members.key, members.colon + ([':'] + rest));
    var d := i + |Quoted(members.key)| + |members.colon|;
    ValueBetween(t, d + 1, members.gap, v, members.before, tail);
    ValueRead(t, d + 1 + |members.gap|, v);
    MemberStep(t, i);
  }

  lemma KeyRead(t: string, i: nat, key: seq<Unit>, colon: string, rest: string)
    requires UnitsOk(key) && Blank(colon) && HasAt(t, i, Quoted(key) + (colon + ([':'] + rest)))
    ensures i < |t| && t[i] == '"' && StringEnd(t, i + 1) == Some(i + |Quoted(key)|)
    ensures var d := i + |Quoted(key)| + |colon|;
      SkipWs(t, i + |Quoted(key)|) == d < |t| && t[d] == ':' && HasAt(t, d + 1, rest)
  {
    hide HasAt, SkipWs, StringEnd, Quoted, Blank, UnitsOk, Delimited;
    HasParts(t, i, Quoted(key), colon + ([':'] + rest));
    QuotedRead(t, i, key);
    GapRead(t, i + |Quoted(key)|, colon, ':', rest);
  }

  lemma KeyMeaning(t: string, i: nat, key: seq<Unit>, rest: string)
    requires UnitsOk(key) && HasAt(t, i, Quoted(key) + rest)
    ensures TokenText(t, i, i + |Quoted(key)|) == Spelt(key)
  {
    hide HasAt, Quoted, TokenText, Spelt, UnitsOk;
    HasParts(t, i, Quoted(key), rest);
    QuotedMeaning(t, i, key);
  }

  lemma QuoteIsNoSpace()
    ensures !IsWs('"')
  {}

  lemma TailStart(members: Members)
    ensures var tail := MembersTail(members);
      && tail != "" && tail == [tail[0]] + tail[1..] && tail[0] == (if members.LastMember? then '}' else ',')
      && (members.LastMember? ==> tail == ['}'])
      && (members.NextMember? ==> tail == [','] + (members.space + WrittenMembers(members.rest)))
  {
    hide WrittenMembers;
  }

  lemma {:induction false} MembersRead(t: string, i: nat, space: string, members: Members)
    requires Blank(space) && MembersOk(members) && HasAt(t, i, space + WrittenMembers(members))
    ensures SkipWs(t, i) == i + |space| && i + |space| < |t| && t[i + |space|] != '}'
    ensures ParseMembers(t, i + |space|).Some?
    ensures ParseMembers(t, i + |space|).value.1 == i + |space + WrittenMembers(members)|
    ensures EvalMembers(t, ParseMembers(t, i + |space|).value.0) == MembersMeaning(members)
    decreases members, 1
  {
    hide Eval, TokenText, Meaning, Spelt;
    hide HasAt, ParseMember, ParseMembers, SkipWs, Blank, ValueOk, WrittenMembers, MembersTail, UnitsOk, IsWs;
    TailStart(members);
    var s := i + |space|;
    HasParts(t, i, space, WrittenMembers(members));
    MemberRead(t, s, members);
    MembersStep(t, s);
    QuoteIsNoSpace();
    BlankSkipped(t, i, space);
    var m := ParseMember(t, s).value.2;
    NothingMeant(t);
    if members.LastMember? {
      HasLast(t, m, '}');
    } else {
      HasChar(t, m, ',', members.space + WrittenMembers(members.rest));
      MembersRead(t, m + 1, members.space, members.rest);
    }
  }

  // Whatever value is written behind the key, in whatever way, with whatever text around it: the
  // scanner returns exactly the span of its rendering.
  lemma RenderedObjectIsFound(t: string, key: string, start: nat, end: nat, v: Value)
    requires end <= |t| && SearchKey(t, key, start, end).Some?
    requires ValueOk(v) && (v.Object? || v.EmptyObject?)
    requires var s := SkipSpace(t, SearchKey(t, key, start, end).value, end);
             HasAt(t, s, Written(v)) && s + |Written(v)| <= end
    ensures var s := SkipSpace(t, SearchKey(t, key, start, end).value, end);
            FindObject(t, key, start, end) == Ok((s, s + |Written(v)|))
  {
    hide HasAt, ParseValue, SearchKey, FindObject, WrittenMembers;
    var s := SkipSpace(t, SearchKey(t, key, start, end).value, end);
    if v.Object? {
      HasChar(t, s, '{', v.space + WrittenMembers(v.members));
    } else {
      HasChar(t, s, '{', v.space + ['}']);
    }
    ValueRead(t, s, v);
    ScannerExact(t, key, start, end);
  }
}
