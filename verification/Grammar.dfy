// The JSON parser takes exactly the texts of the grammar: whatever it reads is a rendering of
// some value, so `json.loads` yields what a text means, and fails on all other texts.
module Grammar {
  import opened Results
  import opened Decimal
  import opened Json
  import opened Rendering

  lemma HasJoined(t: string, i: nat, a: string, b: string)
    requires HasAt(t, i, a) && HasAt(t, i + |a|, b)
    ensures HasAt(t, i, a + b)
  {
    assert t[i..i + |a| + |b|] == t[i..i + |a|] + t[i + |a|..i + |a| + |b|];
  }

  lemma HasOne(t: string, i: nat)
    requires i < |t|
    ensures HasAt(t, i, [t[i]])
  {}

  // One character in front of what has been read.
  lemma HasMore(t: string, i: nat, c: char, b: string)
    requires i < |t| && t[i] == c && HasAt(t, i + 1, b)
    ensures HasAt(t, i, [c] + b)
  {
    hide HasAt;
    HasOne(t, i);
    HasJoined(t, i, [c], b);
  }

  // White space as it stands.
  lemma SpaceWritten(t: string, i: nat) returns (space: string)
    requires i <= |t|
    ensures Blank(space) && HasAt(t, i, space) && SkipWs(t, i) == i + |space|
  {
    space := t[i..SkipWs(t, i)];
  }

  // ---- strings ----

  lemma UnitWritten(t: string, i: nat) returns (u: Unit)
    requires i < |t| && t[i] != '"' && StringEnd(t, i).Some?
    ensures UnitOk(u) && HasAt(t, i, UnitText(u)) && i + |UnitText(u)| <= |t|
    ensures StringEnd(t, i) == StringEnd(t, i + |UnitText(u)|)
  {
    hide Hexadecimal, IsHexDigit, SimpleEscape, Escaped;
    if t[i] == '\\' && t[i + 1] == 'u' {
      var digits := t[i + 2..i + 6];
      forall c | c in digits ensures Hexadecimal(c) {
        HexadecimalExact(c);
      }
      u := Hex(digits);
      assert t[i..i + 6] == ['\\', 'u'] + digits;
    } else if t[i] == '\\' {
      EscapedExact(t[i + 1]);
      u := Escape(t[i + 1]);
    } else {
      u := Plain(t[i]);
    }
  }

  lemma {:induction false} BodyWritten(t: string, i: nat) returns (units: seq<Unit>)
    requires i <= |t| && StringEnd(t, i).Some?
    ensures UnitsOk(units) && HasAt(t, i, Body(units) + ['"']) && StringEnd(t, i) == Some(i + |Body(units)| + 1)
    decreases |t| - i
  {
    hide HasAt, UnitOk, UnitText;
    if t[i] == '"' {
      units := [];
      HasOne(t, i);
      assert Body(units) + ['"'] == ['"'];
    } else {
      hide StringEnd;
      var u := UnitWritten(t, i);
      UnitIsNotEmpty(u);
      var rest := BodyWritten(t, i + |UnitText(u)|);
      units := [u] + rest;
      assert units[1..] == rest;
      HasJoined(t, i, UnitText(u), Body(rest) + ['"']);
      assert Body(units) + ['"'] == UnitText(u) + (Body(rest) + ['"']);
    }
  }

  lemma UnitIsNotEmpty(u: Unit)
    ensures UnitText(u) != ""
  {}

  lemma QuotedWritten(t: string, i: nat) returns (units: seq<Unit>)
    requires i < |t| && t[i] == '"' && StringEnd(t, i + 1).Some?
    ensures UnitsOk(units) && HasAt(t, i, Quoted(units)) && StringEnd(t, i + 1) == Some(i + |Quoted(units)|)
  {
    hide HasAt, StringEnd, UnitsOk, Body;
    units := BodyWritten(t, i + 1);
    HasMore(t, i, '"', Body(units) + ['"']);
  }

  // ---- numbers ----

  lemma {:induction false} DigitsWritten(t: string, i: nat)
    requires i <= |t|
    ensures forall k :: i <= k < DigitsEnd(t, i) ==> IsDigit(t[k])
    ensures i < |t| && IsDigit(t[i]) ==> DigitsEnd(t, i) > i
    decreases |t| - i
  {
    if i < |t| && IsDigit(t[i]) {
      DigitsWritten(t, i + 1);
    }
  }

  lemma DigitsFrom(t: string, i: nat) returns (digits: string)
    requires i < |t| && IsDigit(t[i])
    ensures IsDigits(digits) && HasAt(t, i, digits) && DigitsEnd(t, i) == i + |digits|
  {
    hide DigitsEnd;
    DigitsWritten(t, i);
    digits := t[i..DigitsEnd(t, i)];
  }

  lemma FractionWritten(t: string, i: nat) returns (fraction: string)
    requires i <= |t|
    ensures fraction == "" || IsDigits(fraction)
    ensures HasAt(t, i, FractionText(fraction)) && FractionEnd(t, i) == i + |FractionText(fraction)|
  {
    hide DigitsEnd, IsDigits;
    if i + 1 < |t| && t[i] == '.' && IsDigit(t[i + 1]) {
      fraction := DigitsFrom(t, i + 1);
      NotEmpty(fraction);
      HasMore(t, i, '.', fraction);
    } else {
      fraction := "";
    }
  }

  lemma NotEmpty(digits: string)
    requires IsDigits(digits)
    ensures digits != ""
  {}

  lemma ExponentWritten(t: string, i: nat) returns (e: Exponent)
    requires i <= |t|
    ensures ExponentOk(e) && HasAt(t, i, ExponentText(e)) && ExponentEnd(t, i) == i + |ExponentText(e)|
  {
    hide DigitsEnd, IsDigits;
    if ExponentEnd(t, i) != i || (i < |t| && (t[i] == 'e' || t[i] == 'E') && ExponentAt(t, i) < |t|
                                  && IsDigit(t[ExponentAt(t, i)])) {
      var s := ExponentAt(t, i);
      var digits := DigitsFrom(t, s);
      var sign := t[i + 1..s];
      e := Exponent(t[i], sign, digits);
      assert sign == "" || sign == "+" || sign == "-";
      HasJoined(t, i + 1, sign, digits);
      HasMore(t, i, t[i], sign + digits);
    } else {
      e := NoExponent;
    }
  }

  // Where the digits of an exponent start.
  function ExponentAt(t: string, i: nat): nat {
    if i + 1 < |t| && (t[i + 1] == '+' || t[i + 1] == '-') then i + 2 else i + 1
  }

  lemma WholeWritten(t: string, s: nat) returns (whole: string)
    requires s < |t| && IsDigit(t[s])
    ensures IsDigits(whole) && (|whole| > 1 ==> whole[0] != '0') && HasAt(t, s, whole)
    ensures (if t[s] == '0' then s + 1 else DigitsEnd(t, s + 1)) == s + |whole|
  {
    if t[s] == '0' {
      whole := "0";
    } else {
      whole := DigitsFrom(t, s);
      assert whole[0] == t[s..s + |whole|][0] == t[s];
    }
  }

  lemma NumberWritten(t: string, i: nat) returns (v: Rendering.Value)
    requires i <= |t| && NumberEnd(t, i).Some?
    ensures v.Number? && ValueOk(v) && HasAt(t, i, Written(v)) && NumberEnd(t, i) == Some(i + |Written(v)|)
  {
    hide HasAt, DigitsEnd, FractionEnd, ExponentEnd, FractionText, ExponentText, IsDigits, IsDigit, ExponentOk;
    var negative := t[i] == '-';
    var s := if negative then i + 1 else i;
    var whole := WholeWritten(t, s);
    WithinText(t, s, whole);
    var f := s + |whole|;
    var fraction := FractionWritten(t, f);
    var exponent := ExponentWritten(t, FractionEnd(t, f));
    v := Number(negative, whole, fraction, exponent);
    HasJoined(t, f, FractionText(fraction), ExponentText(exponent));
    HasJoined(t, s, whole, FractionText(fraction) + ExponentText(exponent));
    var rest := whole + (FractionText(fraction) + ExponentText(exponent));
    if negative {
      HasMore(t, i, '-', rest);
      assert "-" + rest == ['-'] + rest;
    } else {
      assert "" + rest == rest;
    }
  }

  lemma ScalarWritten(t: string, i: nat) returns (v: Rendering.Value)
    requires i <= |t| && ScalarEnd(t, i).Some?
    ensures v.Number? || v.Literal?
    ensures ValueOk(v) && HasAt(t, i, Written(v)) && ScalarEnd(t, i) == Some(i + |Written(v)|)
  {
    hide NumberEnd, HasAt;
    if HasAt(t, i, "null") {
      v := Literal("null");
    } else if HasAt(t, i, "true") {
      v := Literal("true");
    } else if HasAt(t, i, "false") {
      v := Literal("false");
    } else if HasAt(t, i, "NaN") {
      v := Literal("NaN");
    } else if HasAt(t, i, "Infinity") {
      v := Literal("Infinity");
    } else if HasAt(t, i, "-Infinity") {
      v := Literal("-Infinity");
    } else {
      v := NumberWritten(t, i);
    }
  }

  // ---- values ----

  lemma {:induction false} ValueWritten(t: string, i: nat) returns (v: Rendering.Value)
    requires ParseValue(t, i).Some?
    ensures ValueOk(v) && HasAt(t, i, Written(v)) && ParseValue(t, i).value.1 == i + |Written(v)|
    decreases |t| - i, 2
  {
    hide HasAt, ParseElements, ParseMembers, SkipWs, StringEnd, ScalarEnd, Quoted, UnitsOk, Blank;
    if t[i] == '"' {
      var units := QuotedWritten(t, i);
      v := Text(units);
    } else if t[i] == '{' {
      var space := SpaceWritten(t, i + 1);
      var j := i + 1 + |space|;
      WithinText(t, i + 1, space);
      if j < |t| && t[j] == '}' {
        HasOne(t, j);
        HasJoined(t, i + 1, space, ['}']);
        HasMore(t, i, '{', space + ['}']);
        v := EmptyObject(space);
      } else {
        var members := MembersWritten(t, j);
        HasJoined(t, i + 1, space, WrittenMembers(members));
        HasMore(t, i, '{', space + WrittenMembers(members));
        v := Object(space, members);
      }
    } else if t[i] == '[' {
      v := ArrayWritten(t, i);
    } else {
      v := ScalarWritten(t, i);
    }
  }

  lemma {:induction false} ArrayWritten(t: string, i: nat) returns (v: Rendering.Value)
    requires ParseValue(t, i).Some? && t[i] == '['
    ensures ValueOk(v) && HasAt(t, i, Written(v)) && ParseValue(t, i).value.1 == i + |Written(v)|
    decreases |t| - i, 1
  {
    hide HasAt, ParseElements, SkipWs, Blank;
    var space := SpaceWritten(t, i + 1);
    var j := i + 1 + |space|;
    WithinText(t, i + 1, space);
    if j < |t| && t[j] == ']' {
      HasOne(t, j);
      HasJoined(t, i + 1, space, [']']);
      HasMore(t, i, '[', space + [']']);
      v := EmptyArray(space);
    } else {
      var items := ItemsWritten(t, j);
      HasJoined(t, i + 1, space, WrittenItems(items));
      HasMore(t, i, '[', space + WrittenItems(items));
      v := Array(space, items);
    }
  }

  lemma ElementsCases(t: string, i: nat)
    requires ParseElements(t, i).Some?
    ensures ParseValue(t, i).Some? && SkipWs(t, ParseValue(t, i).value.1) < |t|
    ensures var m := SkipWs(t, ParseValue(t, i).value.1);
      || (t[m] == ']' && ParseElements(t, i).value.1 == m + 1)
      || (t[m] == ',' && ParseElements(t, SkipWs(t, m + 1)).Some?
          && ParseElements(t, i).value.1 == ParseElements(t, SkipWs(t, m + 1)).value.1)
  {
    hide ParseValue, SkipWs;
  }

  lemma {:induction false} ItemsWritten(t: string, i: nat) returns (items: Items)
    requires ParseElements(t, i).Some?
    ensures ItemsOk(items) && HasAt(t, i, WrittenItems(items))
    ensures ParseElements(t, i).value.1 == i + |WrittenItems(items)|
    decreases |t| - i, 3
  {
    hide HasAt, ParseValue, SkipWs, Blank, Written, ValueOk, ParseElements;
    ElementsCases(t, i);
    var v := ValueWritten(t, i);
    var j := i + |Written(v)|;
    var before := SpaceWritten(t, j);
    var m := j + |before|;
    if t[m] == ']' {
      HasOne(t, m);
      items := Last(v, before);
      HasBetween(t, i, v, before, [']']);
    } else {
      var space := SpaceWritten(t, m + 1);
      WithinText(t, m + 1, space);
      var rest := ItemsWritten(t, m + 1 + |space|);
      HasJoined(t, m + 1, space, WrittenItems(rest));
      HasMore(t, m, ',', space + WrittenItems(rest));
      items := Next(v, before, space, rest);
      HasBetween(t, i, v, before, [','] + (space + WrittenItems(rest)));
    }
  }

  lemma HasBetween(t: string, i: nat, v: Rendering.Value, before: string, tail: string)
    requires HasAt(t, i, Written(v)) && HasAt(t, i + |Written(v)|, before)
    requires HasAt(t, i + |Written(v)| + |before|, tail)
    ensures HasAt(t, i, Written(v) + (before + tail))
  {
    hide HasAt, Written;
    HasJoined(t, i + |Written(v)|, before, tail);
    HasJoined(t, i, Written(v), before + tail);
  }

  // A key, the colon and what stands before the value.
  datatype Key = Key(units: seq<Unit>, colon: string, gap: string)

  function KeyText(k: Key, rest: string): string { Quoted(k.units) + (k.colon + ([':'] + (k.gap + rest))) }

  function KeyEnd(k: Key): nat { |Quoted(k.units)| + |k.colon| + 1 + |k.gap| }

  lemma KeyWritten(t: string, i: nat) returns (k: Key)
    requires ParseMember(t, i).Some?
    ensures UnitsOk(k.units) && Blank(k.colon) && Blank(k.gap)
    ensures i + KeyEnd(k) <= |t| && ParseValue(t, i + KeyEnd(k)).Some?
    ensures ParseMember(t, i).value.2 == SkipWs(t, ParseValue(t, i + KeyEnd(k)).value.1)
    ensures forall rest: string :: HasAt(t, i + KeyEnd(k), rest) ==> HasAt(t, i, KeyText(k, rest))
  {
    hide HasAt, ParseValue, SkipWs, StringEnd, Quoted, UnitsOk, Blank;
    MemberStep(t, i);
    var units := QuotedWritten(t, i);
    var c := i + |Quoted(units)|;
    var colon := SpaceWritten(t, c);
    var gap := SpaceWritten(t, c + |colon| + 1);
    WithinText(t, c + |colon| + 1, gap);
    k := Key(units, colon, gap);
    forall rest: string | HasAt(t, i + KeyEnd(k), rest) ensures HasAt(t, i, KeyText(k, rest)) {
      HasJoined(t, c + |colon| + 1, gap, rest);
      HasMore(t, c + |colon|, ':', gap + rest);
      HasJoined(t, c, colon, [':'] + (gap + rest));
      HasJoined(t, i, Quoted(units), colon + ([':'] + (gap + rest)));
    }
  }

  lemma MembersCases(t: string, i: nat)
    requires ParseMembers(t, i).Some?
    ensures ParseMember(t, i).Some? && ParseMember(t, i).value.2 < |t|
    ensures var m := ParseMember(t, i).value.2;
      || (t[m] == '}' && ParseMembers(t, i).value.1 == m + 1)
      || (t[m] == ',' && ParseMembers(t, SkipWs(t, m + 1)).Some?
          && ParseMembers(t, i).value.1 == ParseMembers(t, SkipWs(t, m + 1)).value.1)
  {
    hide ParseMember, SkipWs;
  }

  lemma {:induction false} MembersWritten(t: string, i: nat) returns (members: Rendering.Members)
    requires ParseMembers(t, i).Some?
    ensures MembersOk(members) && HasAt(t, i, WrittenMembers(members))
    ensures ParseMembers(t, i).value.1 == i + |WrittenMembers(members)|
    decreases |t| - i, 1
  {
    hide HasAt, ParseValue, ParseMember, SkipWs, Quoted, Blank, Written, ValueOk, UnitsOk, ParseMembers;
    MembersCases(t, i);
    var k := KeyWritten(t, i);
    var s := i + KeyEnd(k);
    var v := ValueWritten(t, s);
    var j := s + |Written(v)|;
    var before := SpaceWritten(t, j);
    var m := j + |before|;
    if t[m] == '}' {
      HasOne(t, m);
      HasBetween(t, s, v, before, ['}']);
      members := LastMember(k.units, k.colon, k.gap, v, before);
      assert HasAt(t, i, KeyText(k, Written(v) + (before + ['}'])));
    } else {
      var tail, space, rest := TailWritten(t, m, i);
      HasBetween(t, s, v, before, tail);
      members := NextMember(k.units, k.colon, k.gap, v, before, space, rest);
      assert HasAt(t, i, KeyText(k, Written(v) + (before + tail)));
    }
  }

  // The members behind a comma at m, in the list that starts at i.
  lemma {:induction false} TailWritten(t: string, m: nat, i: nat)
    returns (tail: string, space: string, rest: Rendering.Members)
    requires i < m < |t| && t[m] == ',' && ParseMembers(t, SkipWs(t, m + 1)).Some?
    ensures Blank(space) && MembersOk(rest) && tail == [','] + (space + WrittenMembers(rest)) && HasAt(t, m, tail)
    ensures ParseMembers(t, SkipWs(t, m + 1)).value.1 == m + |tail|
    decreases |t| - i, 0
  {
    hide HasAt, ParseMembers, SkipWs, Blank, WrittenMembers, MembersOk;
    space := SpaceWritten(t, m + 1);
    WithinText(t, m + 1, space);
    rest := MembersWritten(t, m + 1 + |space|);
    HasJoined(t, m + 1, space, WrittenMembers(rest));
    HasMore(t, m, ',', space + WrittenMembers(rest));
    tail := [','] + (space + WrittenMembers(rest));
  }

  // ---- documents ----

  // The text is this value, written in this way between white space.
  ghost predicate Renders(t: string, before: string, v: Rendering.Value, after: string) {
    Blank(before) && ValueOk(v) && Blank(after) && t == before + Written(v) + after
  }

  lemma RendersIsRead(t: string, before: string, v: Rendering.Value, after: string)
    requires Renders(t, before, v, after)
    ensures Loads(t) == Some(Meaning(v))
  {
    hide ValueOk, Written, ParseValue, SkipWs, Meaning, Eval;
    var i := |before|;
    var e := i + |Written(v)|;
    assert HasAt(t, 0, before) && HasAt(t, i, Written(v)) && HasAt(t, e, after);
    assert Delimited(t, e) by { if e < |t| { assert t[e] == after[0] && after[0] in after; } }
    ValueStart(t, i, v);
    BlankSkipped(t, 0, before);
    BlankSkipped(t, e, after);
    ValueRead(t, i, v);
  }

  lemma LoadedIsRendered(t: string) returns (before: string, v: Rendering.Value, after: string)
    requires Loads(t).Some?
    ensures Renders(t, before, v, after)
  {
    hide ValueOk, Written, ParseValue, SkipWs, Eval, Blank;
    before := SpaceWritten(t, 0);
    v := ValueWritten(t, |before|);
    var e := |before| + |Written(v)|;
    after := SpaceWritten(t, e);
    assert t == t[..|before|] + t[|before|..e] + t[e..];
  }

  // `json.loads` takes a text exactly if it renders a value, and yields what that value means.
  lemma LoadsExact(t: string, x: Json.Value)
    ensures Loads(t) == Some(x) <==> exists before, v, after :: Renders(t, before, v, after) && Meaning(v) == x
  {
    hide Loads, Renders, Meaning;
    if Loads(t).Some? {
      var before, v, after := LoadedIsRendered(t);
      RendersIsRead(t, before, v, after);
    }
    forall before, v, after | Renders(t, before, v, after) ensures ValueOk(v) && Loads(t) == Some(Meaning(v)) {
      RendersOk(t, before, v, after);
      RendersIsRead(t, before, v, after);
    }
  }

  lemma RendersOk(t: string, before: string, v: Rendering.Value, after: string)
    requires Renders(t, before, v, after)
    ensures ValueOk(v)
  {}
}
