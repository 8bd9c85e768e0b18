// UTF-8 (RFC 3629) as `str.encode` and a strict `bytes.decode` compute it.
module Utf8 {
  import opened Results
  import opened Bytes

  function EncodeChar(c: char): (r: seq<Byte>)
    ensures 1 <= |r| <= 4
  {
    var n := c as int;
    if n < 0x80 then [n]
    else if n < 0x800 then [0xC0 + n / 64, 0x80 + n % 64]
    else if n < 0x10000 then [0xE0 + n / 4096, 0x80 + n / 64 % 64, 0x80 + n % 64]
    else [0xF0 + n / 262144, 0x80 + n / 4096 % 64, 0x80 + n / 64 % 64, 0x80 + n % 64]
  }

  function Encode(s: string): (r: seq<Byte>)
  {
    if s == [] then [] else EncodeChar(s[0]) + Encode(s[1..])
  }

  predicate Continuation(b: Byte) { 0x80 <= b < 0xC0 }

  // The number of bytes announced by a lead byte; 0 for a byte that cannot lead.
  function LeadLength(b: Byte): nat {
    if b < 0x80 then 1 else if b < 0xC2 then 0 else if b < 0xE0 then 2
    else if b < 0xF0 then 3 else if b < 0xF5 then 4 else 0
  }

  // The six payload bits of a continuation byte, and making room for six more.
  function Low(b: int): int { b - 0x80 }

  function Shift(bits: int, marker: int): int { (bits - marker) * 64 }

  function DecodeChar(b: seq<Byte>): (r: Option<char>)
    requires b != []
    ensures r.Some? ==> |b| >= LeadLength(b[0]) > 0
  {
    var k := LeadLength(b[0]);
    if k == 0 || |b| < k || exists i :: 1 <= i < k && !Continuation(b[i]) then None
    else if k == 1 then Some(b[0] as char)
    else if k == 2 then Some((Shift(b[0], 0xC0) + Low(b[1])) as char)
    else
      var n := if k == 3 then Shift(Shift(b[0], 0xE0) + Low(b[1]), 0) + Low(b[2])
               else Shift(Shift(Shift(b[0], 0xF0) + Low(b[1]), 0) + Low(b[2]), 0) + Low(b[3]);
      if (k == 3 && n >= 0x800 && !(0xD800 <= n < 0xE000)) || (k == 4 && 0x10000 <= n < 0x110000)
      then Some(n as char)
      else None
  }

  function Decode(b: seq<Byte>): (r: Option<string>) {
    if b == [] then Some([])
    else
      var c := DecodeChar(b);
      if c.None? then None
      else
        var rest := Decode(b[LeadLength(b[0])..]);
        if rest.None? then None else Some([c.value] + rest.value)
  }

  lemma CharRoundTrip(c: char, tail: seq<Byte>)
    ensures var e := EncodeChar(c);
            LeadLength((e + tail)[0]) == |e| && DecodeChar(e + tail) == Some(c)
  {
    var n := c as int;
    if n < 0x80 {
    } else if n < 0x800 {
      assert n == 64 * (n / 64) + n % 64;
    } else if n < 0x10000 {
      assert n / 64 == 64 * (n / 4096) + n / 64 % 64;
    } else {
      assert n / 4096 == 64 * (n / 262144) + n / 4096 % 64;
      assert n / 64 == 64 * (n / 4096) + n / 64 % 64;
    }
  }

  // Decoding inverts encoding, so encoding is injective.
  lemma {:induction false} RoundTrip(s: string)
    ensures Decode(Encode(s)) == Some(s)
  {
    if s != [] {
      var e, t := EncodeChar(s[0]), Encode(s[1..]);
      CharRoundTrip(s[0], t);
      assert (e + t)[|e|..] == t;
      RoundTrip(s[1..]);
      assert s == [s[0]] + s[1..];
    }
  }

  lemma SixBits(hi: int, lo: Byte)
    requires Continuation(lo)
    ensures (hi * 64 + Low(lo)) / 64 == hi && 0x80 + (hi * 64 + Low(lo)) % 64 == lo
  {}

  lemma TwelveBits(hi: int, mid: Byte, lo: Byte)
    requires Continuation(mid) && Continuation(lo)
    ensures var n := (hi * 64 + Low(mid)) * 64 + Low(lo);
            n / 4096 == hi && 0x80 + n / 64 % 64 == mid && 0x80 + n % 64 == lo
  {
    SixBits(hi, mid);
    SixBits(hi * 64 + Low(mid), lo);
  }

  lemma EighteenBits(hi: int, b1: Byte, b2: Byte, b3: Byte)
    requires Continuation(b1) && Continuation(b2) && Continuation(b3)
    ensures var n := ((hi * 64 + Low(b1)) * 64 + Low(b2)) * 64 + Low(b3);
            n / 262144 == hi && 0x80 + n / 4096 % 64 == b1 && 0x80 + n / 64 % 64 == b2 && 0x80 + n % 64 == b3
  {
    var m := (hi * 64 + Low(b1)) * 64 + Low(b2);
    TwelveBits(hi, b1, b2);
    SixBits(m, b3);
    assert (m * 64 + Low(b3)) / 4096 == m / 64;
  }

  lemma OneByte(b0: Byte)
    requires LeadLength(b0) == 1
    ensures EncodeChar(b0 as char) == [b0]
  {}

  lemma TwoBytes(b0: Byte, b1: Byte)
    requires LeadLength(b0) == 2 && Continuation(b1)
    ensures EncodeChar((Shift(b0, 0xC0) + Low(b1)) as char) == [b0, b1]
  {
    SixBits(b0 - 0xC0, b1);
  }

  lemma ThreeBytes(b0: Byte, b1: Byte, b2: Byte)
    requires LeadLength(b0) == 3 && Continuation(b1) && Continuation(b2)
    ensures var n := Shift(Shift(b0, 0xE0) + Low(b1), 0) + Low(b2);
      n >= 0x800 && !(0xD800 <= n < 0xE000) && n < 0x10000 ==> EncodeChar(n as char) == [b0, b1, b2]
  {
    TwelveBits(b0 - 0xE0, b1, b2);
  }

  lemma FourBytes(b0: Byte, b1: Byte, b2: Byte, b3: Byte)
    requires LeadLength(b0) == 4 && Continuation(b1) && Continuation(b2) && Continuation(b3)
    ensures var n := Shift(Shift(Shift(b0, 0xF0) + Low(b1), 0) + Low(b2), 0) + Low(b3);
      0x10000 <= n < 0x110000 ==> EncodeChar(n as char) == [b0, b1, b2, b3]
  {
    EighteenBits(b0 - 0xF0, b1, b2, b3);
  }

  lemma DecodedCharBytes(b: seq<Byte>)
    requires b != [] && DecodeChar(b).Some?
    ensures EncodeChar(DecodeChar(b).value) == b[..LeadLength(b[0])]
  {
    hide EncodeChar;
    var k := LeadLength(b[0]);
    assert forall i :: 1 <= i < k ==> Continuation(b[i]);
    if k == 1 {
      OneByte(b[0]);
    } else if k == 2 {
      TwoBytes(b[0], b[1]);
    } else if k == 3 {
      ThreeBytes(b[0], b[1], b[2]);
    } else {
      FourBytes(b[0], b[1], b[2], b[3]);
    }
  }

  // The decoder is strict: it accepts nothing but the encoding of its answer.
  lemma {:induction false} DecodeIsStrict(b: seq<Byte>)
    requires Decode(b).Some?
    ensures Encode(Decode(b).value) == b
  {
    hide EncodeChar, DecodeChar, LeadLength, Encode, Decode;
    if b == [] {
      EmptyDecodes();
    } else {
      DecodeStep(b);
      DecodedCharBytes(b);
      var k := LeadLength(b[0]);
      DecodeIsStrict(b[k..]);
      EncodeCons(DecodeChar(b).value, Decode(b[k..]).value);
      assert b == b[..k] + b[k..];
    }
  }

  lemma EmptyDecodes()
    ensures Decode([]) == Some([]) && Encode([]) == []
  {}

  lemma DecodeStep(b: seq<Byte>)
    requires b != [] && Decode(b).Some?
    ensures DecodeChar(b).Some? && Decode(b[LeadLength(b[0])..]).Some?
    ensures Decode(b).value == [DecodeChar(b).value] + Decode(b[LeadLength(b[0])..]).value
  {
    hide DecodeChar, LeadLength;
  }

  lemma EncodeCons(c: char, s: string)
    ensures Encode([c] + s) == EncodeChar(c) + Encode(s)
  {
    assert ([c] + s)[1..] == s;
  }

  lemma EncodeInjective(s: string, t: string)
    requires Encode(s) == Encode(t)
    ensures s == t
  {
    RoundTrip(s);
    RoundTrip(t);
  }
}
