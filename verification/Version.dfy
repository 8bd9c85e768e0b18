// Release versions: the pattern v[0-9]+.[0-9]+.[0-9]+ with an optional "-suffix", its numeric
// core, and the patch bump.
module Version {
  import opened Results
  import opened Decimal

  datatype Version = Version(major: nat, minor: nat, patch: nat, pre: Option<string>)

  function DigitCount(s: string): (n: nat)
    ensures n <= |s|
    ensures forall c :: c in s[..n] ==> IsDigit(c)
    ensures n < |s| ==> !IsDigit(s[n])
  {
    if s == "" || !IsDigit(s[0]) then 0
    else
      var n := 1 + DigitCount(s[1..]);
      assert s[..n] == [s[0]] + s[1..][..n - 1];
      n
  }

  // One group of digits: its value and what follows it.
  function TakeNumber(s: string): (r: Option<(nat, string)>)
    ensures r.Some? ==> |r.value.1| < |s|
  {
    var n := DigitCount(s);
    if n == 0 then None else Some((FromDecimal(s[..n]), s[n..]))
  }

  predicate Alphanumeric(c: char) { IsDigit(c) || 'a' <= c <= 'z' || 'A' <= c <= 'Z' }

  predicate SuffixOk(s: string) {
    s != "" && Alphanumeric(s[0]) && forall c :: c in s ==> Alphanumeric(c) || c == '.' || c == '-'
  }

  function Parse(s: string): Option<Version> {
    if s == "" || s[0] != 'v' then None else
    var a := TakeNumber(s[1..]);
    if a.None? || a.value.1 == "" || a.value.1[0] != '.' then None else
    var b := TakeNumber(a.value.1[1..]);
    if b.None? || b.value.1 == "" || b.value.1[0] != '.' then None else
    var c := TakeNumber(b.value.1[1..]);
    if c.None? then None else
    var tail := c.value.1;
    if tail == "" then Some(Version(a.value.0, b.value.0, c.value.0, None))
    else if tail[0] == '-' && SuffixOk(tail[1..]) then Some(Version(a.value.0, b.value.0, c.value.0, Some(tail[1..])))
    else None
  }

  predicate Valid(s: string) { Parse(s).Some? }

  predicate IsPrerelease(s: string)
    requires Valid(s)
  {
    Parse(s).value.pre.Some?
  }

  // The module ZIP of a release.
  function ZipName(version: string): string { "otast-" + version + ".zip" }

  // Numeric cores are compared as tuples.
  predicate CoreLess(a: Version, b: Version) {
    a.major < b.major || (a.major == b.major && (a.minor < b.minor || (a.minor == b.minor && a.patch < b.patch)))
  }

  predicate Newer(s: string, than: string)
    requires Valid(s) && Valid(than)
  {
    CoreLess(Parse(than).value, Parse(s).value)
  }

  lemma NewerTransitive(a: string, b: string, c: string)
    requires Valid(a) && Valid(b) && Valid(c) && Newer(a, b) && Newer(b, c)
    ensures Newer(a, c)
  {
    hide Parse;
  }

  lemma NotBothNewer(a: string, b: string)
    requires Valid(a) && Valid(b) && Newer(a, b)
    ensures a != b && !Newer(b, a)
  {
    hide Parse;
  }

  function Text(major: nat, minor: nat, patch: nat): string {
    "v" + ToDecimal(major) + "." + ToDecimal(minor) + "." + ToDecimal(patch)
  }

  function BumpPatch(s: string): string
    requires Valid(s)
  {
    var v := Parse(s).value;
    Text(v.major, v.minor, v.patch + 1)
  }

  lemma {:induction false} DigitCountExact(d: string, tail: string)
    requires forall c :: c in d ==> IsDigit(c)
    requires tail == "" || !IsDigit(tail[0])
    ensures DigitCount(d + tail) == |d|
  {
    if d == "" {
      assert d + tail == tail;
    } else {
      assert d[0] in d && forall c :: c in d[1..] ==> c in d;
      assert (d + tail)[1..] == d[1..] + tail;
      DigitCountExact(d[1..], tail);
    }
  }

  lemma ParseText(major: nat, minor: nat, patch: nat)
    ensures Parse(Text(major, minor, patch)) == Some(Version(major, minor, patch, None))
  {
    hide Parse;
    SpelledNumbers(major, minor, patch, None);
  }

  // A suffix behind a hyphen is what makes a prerelease.
  lemma ParsePrerelease(major: nat, minor: nat, patch: nat, suffix: string)
    requires SuffixOk(suffix)
    ensures Parse(Text(major, minor, patch) + "-" + suffix) == Some(Version(major, minor, patch, Some(suffix)))
  {
    hide Parse;
    SpelledNumbers(major, minor, patch, Some(suffix));
    assert Text(major, minor, patch) + "-" + suffix == Text(major, minor, patch) + ("-" + suffix);
  }

  lemma SpelledNumbers(major: nat, minor: nat, patch: nat, suffix: Option<string>)
    requires suffix.Some? ==> SuffixOk(suffix.value)
    ensures Parse(Text(major, minor, patch) + SuffixText(suffix)) == Some(Version(major, minor, patch, suffix))
    ensures Text(major, minor, patch) + SuffixText(None) == Text(major, minor, patch)
  {
    hide Parse, ToDecimal, FromDecimal, SuffixOk;
    RoundTrip(major);
    RoundTrip(minor);
    RoundTrip(patch);
    ParseSpelled(ToDecimal(major), ToDecimal(minor), ToDecimal(patch), suffix);
  }

  // The bumped version parses, is no prerelease, and is strictly newer.
  lemma BumpIsNewer(s: string)
    requires Valid(s)
    ensures Valid(BumpPatch(s)) && !IsPrerelease(BumpPatch(s)) && Newer(BumpPatch(s), s)
  {
    hide Text, Parse;
    var v := Parse(s).value;
    ParseText(v.major, v.minor, v.patch + 1);
  }

  // A version contains neither '=' nor a line break.
  predicate VersionChar(c: char) { c == 'v' || Alphanumeric(c) || c == '.' || c == '-' }

  lemma TakeNumberPrefix(s: string)
    requires TakeNumber(s).Some?
    ensures var n := DigitCount(s);
            s == s[..n] + TakeNumber(s).value.1 && forall c :: c in s[..n] ==> VersionChar(c)
  {}

  lemma CharsOfConcat(a: string, b: string)
    requires (forall c :: c in a ==> VersionChar(c)) && (forall c :: c in b ==> VersionChar(c))
    ensures forall c :: c in a + b ==> VersionChar(c)
  {}

  lemma NumberChars(s: string)
    requires TakeNumber(s).Some? && forall c :: c in TakeNumber(s).value.1 ==> VersionChar(c)
    ensures forall c :: c in s ==> VersionChar(c)
  {
    TakeNumberPrefix(s);
    CharsOfConcat(s[..DigitCount(s)], TakeNumber(s).value.1);
  }

  lemma HeadChars(s: string)
    requires s != "" && VersionChar(s[0]) && forall c :: c in s[1..] ==> VersionChar(c)
    ensures forall c :: c in s ==> VersionChar(c)
  {
    assert s == [s[0]] + s[1..];
  }

  lemma ValidChars(s: string)
    requires Valid(s)
    ensures forall c :: c in s ==> VersionChar(c)
  {
    hide TakeNumber;
    var a := TakeNumber(s[1..]).value.1;
    var b := TakeNumber(a[1..]).value.1;
    var c := TakeNumber(b[1..]).value.1;
    if c != "" { HeadChars(c); }
    NumberChars(b[1..]);
    HeadChars(b);
    NumberChars(a[1..]);
    HeadChars(a);
    NumberChars(s[1..]);
    HeadChars(s);
  }

  // ---- what parses, and as what ----

  // A version as it is written: three groups of digits and an optional suffix.
  function Spelled(a: string, b: string, c: string, suffix: Option<string>): string {
    "v" + a + "." + b + "." + c + SuffixText(suffix)
  }

  predicate Spells(s: string, a: string, b: string, c: string, suffix: Option<string>) {
    IsDigits(a) && IsDigits(b) && IsDigits(c) && s == Spelled(a, b, c, suffix)
  }

  lemma GroupExact(d: string, tail: string)
    requires IsDigits(d) && (tail == "" || !IsDigit(tail[0]))
    ensures TakeNumber(d + tail) == Some((FromDecimal(d), tail))
  {
    DigitCountExact(d, tail);
    assert (d + tail)[..|d|] == d && (d + tail)[|d|..] == tail;
  }

  // Every such text parses: to the three numbers and the suffix it spells.
  lemma ParseSpelled(a: string, b: string, c: string, suffix: Option<string>)
    requires IsDigits(a) && IsDigits(b) && IsDigits(c) && (suffix.Some? ==> SuffixOk(suffix.value))
    ensures Parse(Spelled(a, b, c, suffix)) == Some(Version(FromDecimal(a), FromDecimal(b), FromDecimal(c), suffix))
  {
    hide TakeNumber, FromDecimal, Parse, SuffixOk;
    var tail := SuffixText(suffix);
    var z := c + tail;
    var y := b + ("." + z);
    var x := a + ("." + y);
    assert Spelled(a, b, c, suffix) == "v" + x;
    NoDigitAhead(suffix, y, z);
    GroupExact(a, "." + y);
    GroupExact(b, "." + z);
    GroupExact(c, tail);
    ParseByParts(x, y, z, FromDecimal(a), FromDecimal(b), FromDecimal(c), suffix);
  }

  lemma NoDigitAhead(suffix: Option<string>, y: string, z: string)
    ensures SuffixText(suffix) == "" || !IsDigit(SuffixText(suffix)[0])
    ensures !IsDigit(("." + y)[0]) && !IsDigit(("." + z)[0])
  {}

  lemma ParseByParts(x: string, y: string, z: string, major: nat, minor: nat, patch: nat, suffix: Option<string>)
    requires TakeNumber(x) == Some((major, "." + y)) && TakeNumber(y) == Some((minor, "." + z))
    requires TakeNumber(z) == Some((patch, SuffixText(suffix))) && (suffix.Some? ==> SuffixOk(suffix.value))
    ensures Parse("v" + x) == Some(Version(major, minor, patch, suffix))
  {
    hide TakeNumber, SuffixOk;
    assert ("v" + x)[1..] == x && ("." + y)[1..] == y && ("." + z)[1..] == z;
    if suffix.Some? { assert SuffixText(suffix)[1..] == suffix.value; }
  }

  lemma GroupTaken(s: string)
    requires TakeNumber(s).Some?
    ensures var d := s[..DigitCount(s)];
      IsDigits(d) && s == d + TakeNumber(s).value.1 && TakeNumber(s).value.0 == FromDecimal(d)
  {}

  lemma ParseShape(s: string)
    requires Valid(s)
    ensures s != "" && s[0] == 'v'
    ensures var x := s[1..];
      && TakeNumber(x).Some? && TakeNumber(x).value.1 != "" && TakeNumber(x).value.1[0] == '.'
      && var y := TakeNumber(x).value.1[1..];
         && TakeNumber(y).Some? && TakeNumber(y).value.1 != "" && TakeNumber(y).value.1[0] == '.'
         && var z := TakeNumber(y).value.1[1..];
            && TakeNumber(z).Some?
            && TakeNumber(z).value.1 == SuffixText(Parse(s).value.pre)
    ensures Parse(s).value.pre.Some? ==> SuffixOk(Parse(s).value.pre.value)
  {
    hide TakeNumber, SuffixOk;
  }

  function SuffixText(suffix: Option<string>): string { if suffix.Some? then "-" + suffix.value else "" }

  lemma Assemble(s: string, x: string, y: string, z: string, a: string, b: string, c: string, suffix: Option<string>)
    requires s == "v" + x && x == a + ("." + y) && y == b + ("." + z) && z == c + SuffixText(suffix)
    requires IsDigits(a) && IsDigits(b) && IsDigits(c)
    ensures Spells(s, a, b, c, suffix)
  {}

  lemma DottedGroup(s: string) returns (d: string)
    requires TakeNumber(s).Some? && TakeNumber(s).value.1 != "" && TakeNumber(s).value.1[0] == '.'
    ensures IsDigits(d) && s == d + ("." + TakeNumber(s).value.1[1..])
  {
    hide FromDecimal;
    GroupTaken(s);
    d := s[..DigitCount(s)];
    var tail := TakeNumber(s).value.1;
    assert tail == "." + tail[1..];
  }

  // Nothing else parses.
  lemma ParsedIsSpelled(s: string)
    requires Valid(s)
    ensures exists a, b, c :: Spells(s, a, b, c, Parse(s).value.pre)
    ensures Parse(s).value.pre.Some? ==> SuffixOk(Parse(s).value.pre.value)
  {
    hide TakeNumber, FromDecimal, SuffixOk, SuffixText, IsDigits, Parse, Spells, DigitCount;
    ParseShape(s);
    var x := s[1..];
    var a := DottedGroup(x);
    var y := TakeNumber(x).value.1[1..];
    var b := DottedGroup(y);
    var z := TakeNumber(y).value.1[1..];
    var c := LastGroup(z);
    assert s == "v" + x;
    Assemble(s, x, y, z, a, b, c, Parse(s).value.pre);
  }

  lemma LastGroup(s: string) returns (d: string)
    requires TakeNumber(s).Some?
    ensures IsDigits(d) && s == d + TakeNumber(s).value.1
  {
    GroupTaken(s);
    d := s[..DigitCount(s)];
  }

  // A version is a prerelease exactly when there is a hyphen in it.
  lemma PrereleaseExact(s: string)
    requires Valid(s)
    ensures IsPrerelease(s) <==> '-' in s
  {
    hide Parse;
    ParsedIsSpelled(s);
    var suffix := Parse(s).value.pre;
    var a, b, c :| Spells(s, a, b, c, suffix);
    if suffix.None? {
      NoHyphen(a, b, c);
    } else {
      assert s == "v" + a + "." + b + "." + c + ("-" + suffix.value) && '-' in "-" + suffix.value;
    }
  }

  lemma NoHyphen(a: string, b: string, c: string)
    requires IsDigits(a) && IsDigits(b) && IsDigits(c)
    ensures '-' !in Spelled(a, b, c, None)
  {}

  // Bumping adds one to the last number and keeps the others.
  lemma BumpExact(major: nat, minor: nat, patch: nat)
    ensures Valid(Text(major, minor, patch)) && BumpPatch(Text(major, minor, patch)) == Text(major, minor, patch + 1)
  {
    hide Text, Parse;
    ParseText(major, minor, patch);
  }

  // The first number that differs decides which version is newer; suffixes do not count.
  lemma NewerExact(s: string, t: string)
    requires Valid(s) && Valid(t)
    ensures var x, y := Parse(s).value, Parse(t).value;
      && (x.major > y.major ==> Newer(s, t))
      && (x.major == y.major && x.minor > y.minor ==> Newer(s, t))
      && (x.major == y.major && x.minor == y.minor && x.patch > y.patch ==> Newer(s, t))
      && (Newer(s, t) ==> !Newer(t, s) && x.(pre := None) != y.(pre := None))
  {
    hide Parse;
  }

  lemma SuffixExact(s: string)
    ensures SuffixOk(s) <==>
      && s != "" && s[0] != '.' && s[0] != '-'
      && forall c :: c in s ==> '0' <= c <= '9' || 'A' <= c <= 'Z' || 'a' <= c <= 'z' || c == '.' || c == '-'
  {
    if s != "" { assert s[0] in s; }
  }
}
