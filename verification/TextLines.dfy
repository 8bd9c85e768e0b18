// `str.splitlines` and the "\n"-terminated text the tools write back.
module TextLines {

  predicate IsLineBreak(c: char) {
    || 0x0A as char <= c <= 0x0D as char
    || 0x1C as char <= c <= 0x1E as char
    || c == 0x85 as char || c == 0x2028 as char || c == 0x2029 as char
  }

  predicate OneLine(s: string) { forall c :: c in s ==> !IsLineBreak(c) }

  function FirstBreak(s: string): (n: nat)
    ensures n <= |s|
    ensures OneLine(s[..n])
    ensures n < |s| ==> IsLineBreak(s[n])
  {
    if s == [] || IsLineBreak(s[0]) then 0
    else
      var n := 1 + FirstBreak(s[1..]);
      assert s[..n] == [s[0]] + s[1..][..n - 1];
      n
  }

  // "\r\n" ends one line, not two.
  function SplitLines(s: string): (lines: seq<string>)
    ensures forall l :: l in lines ==> OneLine(l)
  {
    if s == [] then []
    else
      var n := FirstBreak(s);
      if n == |s| then [s]
      else
        var skip := if s[n] == '\r' && n + 1 < |s| && s[n + 1] == '\n' then 2 else 1;
        [s[..n]] + SplitLines(s[n + skip..])
  }

  function Terminated(lines: seq<string>): string {
    if lines == [] then "" else lines[0] + "\n" + Terminated(lines[1..])
  }

  lemma {:induction false} FirstBreakAfter(line: string, c: char, rest: string)
    requires OneLine(line) && IsLineBreak(c)
    ensures FirstBreak(line + [c] + rest) == |line|
  {
    var s := line + [c] + rest;
    if line == [] {
      assert s[0] == c;
    } else {
      assert line[0] in line && !IsLineBreak(s[0]);
      assert forall x :: x in line[1..] ==> x in line;
      FirstBreakAfter(line[1..], c, rest);
      assert s[1..] == line[1..] + [c] + rest;
    }
  }

  // A line ends at the first break, together with the "\n" behind a "\r"; what is left without a
  // break is a line of its own.
  lemma SplitExact(line: string, c: char, rest: string)
    requires OneLine(line)
    ensures SplitLines(line) == if line == "" then [] else [line]
    ensures IsLineBreak(c) ==>
      SplitLines(line + [c] + rest)
        == [line] + SplitLines(if c == '\r' && rest != "" && rest[0] == '\n' then rest[1..] else rest)
  {
    hide OneLine;
    NoBreak(line);
    if IsLineBreak(c) {
      var s := line + [c] + rest;
      FirstBreakAfter(line, c, rest);
      assert s[..|line|] == line && s[|line|] == c && s[|line| + 1..] == rest;
      if rest != "" { assert s[|line| + 1] == rest[0] && s[|line| + 2..] == rest[1..]; }
    }
  }

  lemma {:induction false} NoBreak(line: string)
    requires OneLine(line)
    ensures FirstBreak(line) == |line|
  {
    if line != [] {
      assert line[0] in line && forall c :: c in line[1..] ==> c in line;
      NoBreak(line[1..]);
    }
  }

  lemma SplitFirst(line: string, rest: string)
    requires OneLine(line)
    ensures SplitLines(line + "\n" + rest) == [line] + SplitLines(rest)
  {
    SplitExact(line, '\n', rest);
  }

  // Writing lines and splitting them again is the identity.
  lemma {:induction false} SplitTerminated(lines: seq<string>)
    requires forall l :: l in lines ==> OneLine(l)
    ensures SplitLines(Terminated(lines)) == lines
  {
    if lines != [] {
      hide SplitLines, OneLine;
      assert lines[0] in lines && forall l :: l in lines[1..] ==> l in lines;
      SplitFirst(lines[0], Terminated(lines[1..]));
      SplitTerminated(lines[1..]);
    }
  }

  lemma LineBreakExact(c: char)
    ensures IsLineBreak(c) <==> c as int in {10, 11, 12, 13, 28, 29, 30, 133, 8232, 8233}
  {}
}
