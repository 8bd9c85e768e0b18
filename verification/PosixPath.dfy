// The part of `pathlib.PurePosixPath` the tools lean on: splitting at '/', dropping empty and
// "." components, and writing the path back.
module PosixPath {

  function Split(s: string): (r: seq<string>)
    ensures r != []
  {
    if s == [] then [[]]
    else
      var rest := Split(s[1..]);
      if s[0] == '/' then [[]] + rest else [[s[0]] + rest[0]] + rest[1..]
  }

  function Join(parts: seq<string>): string {
    if parts == [] then [] else if |parts| == 1 then parts[0] else parts[0] + "/" + Join(parts[1..])
  }

  predicate Dropped(part: string) { part == "" || part == "." }

  function Keep(parts: seq<string>): (r: seq<string>)
    ensures |r| <= |parts|
    ensures forall p :: p in r <==> p in parts && !Dropped(p)
  {
    if parts == [] then [] else
      assert parts == [parts[0]] + parts[1..];
      (if Dropped(parts[0]) then [] else [parts[0]]) + Keep(parts[1..])
  }

  function Root(s: string): string {
    if |s| >= 2 && s[0] == '/' && s[1] == '/' && (|s| == 2 || s[2] != '/') then "//"
    else if |s| >= 1 && s[0] == '/' then "/"
    else ""
  }

  predicate IsAbsolute(s: string) { Root(s) != "" }

  // `PurePosixPath(s).parts` without the root.
  function Parts(s: string): seq<string> { Keep(Split(s)) }

  // `PurePosixPath(s).as_posix()`.
  function AsPosix(s: string): string {
    if Root(s) == "" && Parts(s) == [] then "." else Root(s) + Join(Parts(s))
  }

  // A path none of whose components is empty, "." or "..".
  predicate PlainComponents(s: string) {
    forall p :: p in Split(s) ==> p != "" && p != "." && p != ".."
  }

  lemma JoinCons(part: string, rest: seq<string>)
    requires rest != []
    ensures Join([part] + rest) == part + "/" + Join(rest)
  {
    assert ([part] + rest)[1..] == rest;
  }

  lemma JoinNothing()
    ensures Join([[]]) == []
  {}

  lemma JoinGrows(c: char, parts: seq<string>)
    requires parts != []
    ensures Join([[c] + parts[0]] + parts[1..]) == [c] + Join(parts)
  {
    if |parts| > 1 {
      JoinCons([c] + parts[0], parts[1..]);
    }
  }

  lemma {:induction false} JoinSplit(s: string)
    ensures Join(Split(s)) == s
  {
    hide Join;
    if s == [] { JoinNothing(); }
    if s != [] {
      JoinSplit(s[1..]);
      var rest := Split(s[1..]);
      assert s == [s[0]] + s[1..];
      if s[0] == '/' {
        JoinCons("", rest);
        assert Split(s) == [""] + rest && "" + "/" + Join(rest) == [s[0]] + s[1..];
      } else {
        JoinGrows(s[0], rest);
        assert Split(s) == [[s[0]] + rest[0]] + rest[1..];
      }
    }
  }

  function TotalLength(parts: seq<string>): nat {
    if parts == [] then 0 else |parts[0]| + TotalLength(parts[1..])
  }

  lemma {:induction false} JoinLength(parts: seq<string>)
    requires parts != []
    ensures |Join(parts)| == TotalLength(parts) + |parts| - 1
  {
    if |parts| > 1 {
      JoinLength(parts[1..]);
    } else {
      assert parts[1..] == [];
    }
  }

  lemma {:induction false} KeepShrinks(parts: seq<string>)
    ensures TotalLength(Keep(parts)) <= TotalLength(parts)
    ensures |Keep(parts)| == |parts| ==> Keep(parts) == parts
  {
    if parts != [] {
      KeepShrinks(parts[1..]);
      assert parts == [parts[0]] + parts[1..];
      if !Dropped(parts[0]) {
        assert Keep(parts)[1..] == Keep(parts[1..]);
      } else {
        assert Keep(parts) == Keep(parts[1..]);
      }
    }
  }

  lemma {:induction false} KeepAll(parts: seq<string>)
    requires forall p :: p in parts ==> !Dropped(p)
    ensures Keep(parts) == parts
  {
    if parts != [] {
      assert parts == [parts[0]] + parts[1..];
      KeepAll(parts[1..]);
    }
  }

  lemma PlainIsRelative(s: string)
    requires PlainComponents(s)
    ensures s != "" && Root(s) == ""
  {
    assert Split(s)[0] in Split(s);
  }

  // A name is left unchanged by the path type exactly when nothing in it is dropped; the one
  // exception is ".", which is dropped and written back.
  lemma CanonicalExact(s: string)
    requires !IsAbsolute(s)
    ensures AsPosix(s) == s <==> s == "." || forall p :: p in Split(s) ==> !Dropped(p)
  {
    var parts := Split(s);
    JoinSplit(s);
    JoinLength(parts);
    KeepShrinks(parts);
    if forall p :: p in parts ==> !Dropped(p) {
      KeepAll(parts);
    }
    if AsPosix(s) == s && Keep(parts) != [] {
      JoinLength(Keep(parts));
      assert Keep(parts) == parts;
    }
    if s == "." {
      assert Split(s[1..]) == [[]];
      assert parts == ["."];
    }
  }

  // ---- components and whole paths determine each other

  predicate NoSlash(s: string) { '/' !in s }

  lemma {:induction false} SplitOne(s: string)
    requires NoSlash(s)
    ensures Split(s) == [s]
  {
    if s != [] {
      assert s == [s[0]] + s[1..];
      SplitOne(s[1..]);
    }
  }

  lemma {:induction false} SplitFirst(a: string, rest: string)
    requires NoSlash(a)
    ensures Split(a + "/" + rest) == [a] + Split(rest)
  {
    var s := a + "/" + rest;
    if a == [] {
      assert s[0] == '/' && s[1..] == rest;
    } else {
      assert a == [a[0]] + a[1..];
      assert s[0] == a[0] && s[1..] == a[1..] + "/" + rest;
      SplitFirst(a[1..], rest);
    }
  }

  lemma {:induction false} SplitJoin(parts: seq<string>)
    requires parts != [] && forall p :: p in parts ==> NoSlash(p)
    ensures Split(Join(parts)) == parts
  {
    assert parts[0] in parts;
    if |parts| == 1 {
      SplitOne(parts[0]);
    } else {
      SplitJoin(parts[1..]);
      SplitFirst(parts[0], Join(parts[1..]));
      assert parts == [parts[0]] + parts[1..];
    }
  }

  // A component of a path holds characters of the path, and no separator.
  lemma {:induction false} ComponentChars(s: string, p: string)
    requires p in Split(s)
    ensures NoSlash(p) && forall c :: c in p ==> c in s
  {
    if s != [] {
      var rest := Split(s[1..]);
      assert s == [s[0]] + s[1..];
      if p in rest {
        ComponentChars(s[1..], p);
      } else if s[0] != '/' {
        assert p == [s[0]] + rest[0];
        ComponentChars(s[1..], rest[0]);
      }
    }
  }

  lemma {:induction false} JoinChars(parts: seq<string>, c: char)
    requires c in Join(parts) && c != '/'
    ensures exists p :: p in parts && c in p
  {
    assert parts[0] in parts;
    if |parts| > 1 && c !in parts[0] {
      assert c in Join(parts[1..]);
      JoinChars(parts[1..], c);
    }
  }

  lemma AbsoluteExact(s: string)
    ensures IsAbsolute(s) <==> s != "" && s[0] == '/'
  {}
}
