// `validate_infos` of scripts/upstream-target-package.py: which ZIP directories are accepted,
// and what exactly its look at sorted neighbours detects.
module ArchiveCheck {
  import opened Results
  import opened Ordering
  import PosixPath

  datatype Info = Info(filename: string, externalAttr: nat, fileSize: nat)

  // An accepted member with its normalized name.
  datatype Pair = Pair(info: Info, key: string)

  datatype ArchiveError =
    | BadMemberCount
    | UnsafePath(name: string)
    | DuplicateMember(key: string)
    | LinkOrSpecial(key: string)
    | MemberTooLarge(key: string)
    | TotalTooLarge
    | PrefixCollision(key: string)

  const MAX_MEMBERS := 8192
  const MAX_MEMBER_BYTES := 96 * 1024 * 1024
  const MAX_TOTAL_BYTES := 384 * 1024 * 1024

  function StripSlashes(name: string): string {
    if name != "" && name[|name| - 1] == '/' then StripSlashes(name[..|name| - 1]) else name
  }

  predicate IsDir(i: Info) { i.filename != "" && i.filename[|i.filename| - 1] == '/' }

  // `normalized_member`: a relative path without "..".
  predicate Normalizable(name: string) {
    && '\\' !in name && '\0' !in name && !("/" <= name)
    && forall p :: p in PosixPath.Parts(name) ==> p != "" && p != "." && p != ".."
  }

  // S_IFMT of the upper half: no type, a regular file or a directory.
  predicate PlainType(i: Info) {
    var kind := i.externalAttr / 0x10000 % 0x10000 / 0x1000;
    kind == 0 || kind == 8 || kind == 4
  }

  function After(done: seq<Pair>, rest: Result<seq<Pair>, ArchiveError>): Result<seq<Pair>, ArchiveError> {
    if rest.Err? then rest else Ok(done + rest.value)
  }

  // The loop over the members, from one of them on.
  function Admit(infos: seq<Info>, seen: set<string>, total: nat): Result<seq<Pair>, ArchiveError> {
    if infos == [] then Ok([])
    else
      var i := infos[0];
      var stripped := StripSlashes(i.filename);
      if stripped == "" then Admit(infos[1..], seen, total)
      else if !Normalizable(stripped) then Err(UnsafePath(stripped))
      else
        var key := PosixPath.AsPosix(stripped);
        if key in seen then Err(DuplicateMember(key))
        else if !PlainType(i) then Err(LinkOrSpecial(key))
        else if i.fileSize > MAX_MEMBER_BYTES then Err(MemberTooLarge(key))
        else if total + i.fileSize > MAX_TOTAL_BYTES then Err(TotalTooLarge)
        else After([Pair(i, key)], Admit(infos[1..], seen + {key}, total + i.fileSize))
  }

  function Keys(pairs: seq<Pair>): (r: seq<string>)
    ensures |r| == |pairs| && forall i :: 0 <= i < |r| ==> r[i] == pairs[i].key
  {
    if pairs == [] then [] else [pairs[0].key] + Keys(pairs[1..])
  }

  predicate IsFile(pairs: seq<Pair>, key: string) { exists p :: p in pairs && p.key == key && !IsDir(p.info) }

  predicate NextIsBelow(ordered: seq<string>, index: nat) {
    index + 1 < |ordered| && ordered[index] + "/" <= ordered[index + 1]
  }

  // The second loop, from one index on.
  function Collision(ordered: seq<string>, pairs: seq<Pair>, index: nat): Option<string>
    requires index <= |ordered|
    decreases |ordered| - index
  {
    if index == |ordered| then None
    else if NextIsBelow(ordered, index) && IsFile(pairs, ordered[index]) then Some(ordered[index])
    else Collision(ordered, pairs, index + 1)
  }

  // The names seen are those of the accepted members, each once.
  function Validate(infos: seq<Info>): Result<seq<Pair>, ArchiveError> {
    if infos == [] || |infos| > MAX_MEMBERS then Err(BadMemberCount)
    else
      var r := Admit(infos, {}, 0);
      if r.Err? then r
      else
        var clash := Collision(SortBy(Keys(r.value), Leq), r.value, 0);
        if clash.Some? then Err(PrefixCollision(clash.value)) else r
  }

  lemma AfterStep(done: seq<Pair>, p: Pair, rest: Result<seq<Pair>, ArchiveError>)
    ensures After(done, After([p], rest)) == After(done + [p], rest)
  {
    if rest.Ok? {
      assert done + ([p] + rest.value) == done + [p] + rest.value;
    }
  }

  lemma AfterNothing(rest: Result<seq<Pair>, ArchiveError>)
    ensures After([], rest) == rest
  {
    if rest.Ok? {
      assert [] + rest.value == rest.value;
    }
  }

  lemma AfterError(done: seq<Pair>)
    ensures forall e :: After(done, Err(e)) == Err(e)
  {}

  lemma AfterLast(done: seq<Pair>, infos: seq<Info>, seen: set<string>, total: nat)
    ensures After(done, Admit(infos[|infos|..], seen, total)) == Ok(done)
  {
    assert done + [] == done;
  }

  method AdmitMembers(infos: seq<Info>) returns (r: Result<seq<Pair>, ArchiveError>)
    ensures r == Admit(infos, {}, 0)
  {
    hide Normalizable, PlainType, StripSlashes, PosixPath.AsPosix, After;
    var seen: set<string> := {};
    var total: nat := 0;
    var result: seq<Pair> := [];
    ghost var all := Admit(infos, {}, 0);
    AfterNothing(all);
    assert infos[0..] == infos;
    for i := 0 to |infos|
      invariant all == After(result, Admit(infos[i..], seen, total))
    {
      AfterError(result);
      assert infos[i..][1..] == infos[i + 1..];
      var info := infos[i];
      var stripped := StripSlashes(info.filename);
      if stripped == "" {
        continue;
      }
      if !Normalizable(stripped) {
        return Err(UnsafePath(stripped));
      }
      var key := PosixPath.AsPosix(stripped);
      if key in seen {
        return Err(DuplicateMember(key));
      }
      if !PlainType(info) {
        return Err(LinkOrSpecial(key));
      }
      if info.fileSize > MAX_MEMBER_BYTES {
        return Err(MemberTooLarge(key));
      }
      if total + info.fileSize > MAX_TOTAL_BYTES {
        return Err(TotalTooLarge);
      }
      AfterStep(result, Pair(info, key), Admit(infos[i + 1..], seen + {key}, total + info.fileSize));
      seen := seen + {key};
      total := total + info.fileSize;
      result := result + [Pair(info, key)];
    }
    AfterLast(result, infos, seen, total);
    return Ok(result);
  }

  method ValidateInfos(infos: seq<Info>) returns (r: Result<seq<Pair>, ArchiveError>)
    ensures r == Validate(infos)
  {
    hide Admit, IsFile, NextIsBelow, SortBy;
    if infos == [] || |infos| > MAX_MEMBERS {
      return Err(BadMemberCount);
    }
    r := AdmitMembers(infos);
    if r.Err? {
      return;
    }
    var ordered := SortBy(Keys(r.value), Leq);
    for index := 0 to |ordered|
      invariant Collision(ordered, r.value, 0) == Collision(ordered, r.value, index)
    {
      if NextIsBelow(ordered, index) && IsFile(r.value, ordered[index]) {
        return Err(PrefixCollision(ordered[index]));
      }
    }
  }

  // ---- what admission gives ----

  function TotalSize(pairs: seq<Pair>): nat {
    if pairs == [] then 0 else pairs[0].info.fileSize + TotalSize(pairs[1..])
  }

  predicate Fresh(pairs: seq<Pair>, seen: set<string>) { forall p :: p in pairs ==> p.key !in seen }

  // The members that name something, each with its normalized name.
  function PairsOf(infos: seq<Info>): (r: seq<Pair>)
    ensures |r| <= |infos|
  {
    if infos == [] then []
    else
      var stripped := StripSlashes(infos[0].filename);
      (if stripped == "" then [] else [Pair(infos[0], PosixPath.AsPosix(stripped))]) + PairsOf(infos[1..])
  }

  // A single member that is admissible: a safe name, a plain type, a bounded size.
  predicate Admissible(p: Pair) {
    Normalizable(StripSlashes(p.info.filename)) && PlainType(p.info) && p.info.fileSize <= MAX_MEMBER_BYTES
  }

  // Members that are admissible together, after `seen` names and `total` bytes.
  predicate AllAdmissible(pairs: seq<Pair>, seen: set<string>, total: nat) {
    && (forall p :: p in pairs ==> Admissible(p))
    && Distinct(Keys(pairs)) && Fresh(pairs, seen)
    && total + TotalSize(pairs) <= MAX_TOTAL_BYTES
  }

  lemma AllAdmissibleCons(p: Pair, rest: seq<Pair>, seen: set<string>, total: nat)
    ensures AllAdmissible([p] + rest, seen, total) <==>
      && Admissible(p) && p.key !in seen
      && AllAdmissible(rest, seen + {p.key}, total + p.info.fileSize)
  {
    hide Admissible, Distinct;
    var pairs := [p] + rest;
    assert pairs[1..] == rest;
    forall q | q in rest ensures q in pairs {}
    assert p in pairs;
    DistinctCons(p.key, rest);
  }

  lemma NothingAdmissible(seen: set<string>, total: nat)
    requires total <= MAX_TOTAL_BYTES
    ensures AllAdmissible([], seen, total)
  {}

  // The member loop succeeds exactly when the named members are admissible together, and then
  // yields them in order with their normalized names.
  lemma {:induction false} AdmitExact(infos: seq<Info>, seen: set<string>, total: nat)
    requires total <= MAX_TOTAL_BYTES
    ensures Admit(infos, seen, total).Ok? <==> AllAdmissible(PairsOf(infos), seen, total)
    ensures Admit(infos, seen, total).Ok? ==> Admit(infos, seen, total) == Ok(PairsOf(infos))
  {
    hide Normalizable, PlainType, StripSlashes, AllAdmissible, PosixPath.AsPosix;
    if infos == [] {
      NothingAdmissible(seen, total);
    } else {
      var i, rest := infos[0], infos[1..];
      var stripped := StripSlashes(i.filename);
      if stripped == "" {
        AdmitExact(rest, seen, total);
        assert PairsOf(infos) == PairsOf(rest);
      } else {
        var p := Pair(i, PosixPath.AsPosix(stripped));
        AllAdmissibleCons(p, PairsOf(rest), seen, total);
        assert PairsOf(infos) == [p] + PairsOf(rest);
        if total + i.fileSize <= MAX_TOTAL_BYTES {
          AdmitExact(rest, seen + {p.key}, total + i.fileSize);
        } else {
          OverLimit(PairsOf(rest), seen + {p.key}, total + i.fileSize);
        }
      }
    }
  }

  lemma OverLimit(pairs: seq<Pair>, seen: set<string>, total: nat)
    requires total > MAX_TOTAL_BYTES
    ensures !AllAdmissible(pairs, seen, total)
  {}

  // Exactly the members whose name is more than slashes are kept.
  lemma {:induction false} PairsExact(infos: seq<Info>, p: Pair)
    ensures p in PairsOf(infos) <==>
      && p.info in infos && StripSlashes(p.info.filename) != ""
      && p.key == PosixPath.AsPosix(StripSlashes(p.info.filename))
  {
    hide StripSlashes, PosixPath.AsPosix;
    if infos != [] {
      PairsExact(infos[1..], p);
      assert infos == [infos[0]] + infos[1..];
    }
  }

  // A normalized name is the components of the archive's name joined again, none of which leads
  // out of the destination; a name of nothing but "." components becomes ".".
  lemma NormalizedName(name: string)
    requires Normalizable(name)
    ensures var key := PosixPath.AsPosix(name);
      && key == (if PosixPath.Parts(name) == [] then "." else PosixPath.Join(PosixPath.Parts(name)))
      && (key == "." || (PosixPath.PlainComponents(key) && PosixPath.Split(key) == PosixPath.Parts(name)))
      && '\\' !in key && '\0' !in key
  {
    hide PosixPath.Split, PosixPath.Join;
    NotAbsolute(name);
    var parts := PosixPath.Parts(name);
    if parts != [] {
      forall p | p in parts ensures PosixPath.NoSlash(p) && '\\' !in p && '\0' !in p {
        PosixPath.ComponentChars(name, p);
      }
      PosixPath.SplitJoin(parts);
      var key := PosixPath.Join(parts);
      if '\\' in key { PosixPath.JoinChars(parts, '\\'); }
      if '\0' in key { PosixPath.JoinChars(parts, '\0'); }
    }
  }

  lemma NotAbsolute(name: string)
    requires !("/" <= name)
    ensures PosixPath.Root(name) == ""
  {}

  lemma DistinctCons(key: string, rest: seq<Pair>)
    ensures Distinct([key] + Keys(rest)) <==> Distinct(Keys(rest)) && forall p :: p in rest ==> p.key != key
  {
    hide Distinct;
    DistinctHead(key, Keys(rest));
    forall p | p in rest ensures p.key in Keys(rest) {
      var k :| 0 <= k < |rest| && rest[k] == p;
      assert Keys(rest)[k] == p.key;
    }
    forall k | 0 <= k < |rest| ensures Keys(rest)[k] == rest[k].key && rest[k] in rest {}
  }

  // ---- what the neighbour check sees ----

  // Everything between f and f + "/" + x starts with f, and goes on with a character up to '/'.
  lemma {:induction false} BetweenStartsWith(f: string, x: string, below: string)
    requires f + "/" <= below && Leq(f, x) && Leq(x, below)
    ensures f <= x && (x == f || x[|f|] <= '/')
  {
    if f == "" {
      assert below[0] == '/';
    } else {
      assert below[0] == f[0];
      assert f[1..] + "/" <= below[1..] by { assert (f + "/")[1..] == f[1..] + "/"; }
      BetweenStartsWith(f[1..], x[1..], below[1..]);
      assert x == [x[0]] + x[1..] && f == [f[0]] + f[1..];
    }
  }

  lemma {:induction false} ExtensionIsLater(f: string, x: string)
    requires f <= x
    ensures Leq(f, x)
  {
    if f != "" {
      ExtensionIsLater(f[1..], x[1..]);
    }
  }

  // An extension by a character below '/' comes before every path below f.
  lemma {:induction false} ShieldComesFirst(f: string, m: string, below: string)
    requires f + "/" <= below && f <= m && |m| > |f| && m[|f|] < '/'
    ensures Leq(m, below) && m != below
  {
    if f == "" {
      assert below[0] == '/';
    } else {
      assert below[0] == f[0] == m[0];
      assert f[1..] + "/" <= below[1..] by { assert (f + "/")[1..] == f[1..] + "/"; }
      ShieldComesFirst(f[1..], m[1..], below[1..]);
      assert m == [m[0]] + m[1..] && below == [below[0]] + below[1..];
    }
  }

  predicate ParentOf(f: string, names: seq<string>) { exists m :: m in names && f + "/" <= m }

  // Some name extends f by a character that sorts before '/', such as '.' or '-'.
  predicate Shielded(f: string, names: seq<string>) {
    exists m :: m in names && f <= m && |m| > |f| && m[|f|] < '/'
  }

  predicate StrictlyOrdered(s: seq<string>) { forall i, j :: 0 <= i < j < |s| ==> Leq(s[i], s[j]) && s[i] != s[j] }

  lemma NotBefore(s: seq<string>, i: nat, j: nat)
    requires StrictlyOrdered(s) && i < |s| && j < |s| && Leq(s[i], s[j])
    ensures i <= j
  {
    if j < i {
      LeqAntisymmetric(s[i], s[j]);
    }
  }

  // The next name in order lies below f exactly when f has a path below it and no name shields it.
  lemma NeighbourExact(s: seq<string>, i: nat)
    requires StrictlyOrdered(s) && i < |s|
    ensures NextIsBelow(s, i) <==> ParentOf(s[i], s) && !Shielded(s[i], s)
  {
    hide Leq, StrictlyOrdered;
    var f := s[i];
    if NextIsBelow(s, i) {
      assert s[i + 1] in s;
      if Shielded(f, s) {
        var m :| m in s && f <= m && |m| > |f| && m[|f|] < '/';
        var k :| 0 <= k < |s| && s[k] == m;
        ExtensionIsLater(f, m);
        NotBefore(s, i, k);
        ShieldComesFirst(f, m, s[i + 1]);
        NotBefore(s, k, i + 1);
        assert false;
      }
    }
    if ParentOf(f, s) && !Shielded(f, s) {
      var m :| m in s && f + "/" <= m;
      var k :| 0 <= k < |s| && s[k] == m;
      ExtensionIsLater(f, m);
      NotBefore(s, i, k);
      OrderedFacts(s, i, k);
      var x := s[i + 1];
      BetweenStartsWith(f, x, m);
      assert x in s && x[|f|] == '/';
      assert f + "/" == x[..|f| + 1];
    }
  }

  lemma OrderedFacts(s: seq<string>, i: nat, k: nat)
    requires StrictlyOrdered(s) && i < k < |s|
    ensures Leq(s[i], s[i + 1]) && s[i] != s[i + 1] && Leq(s[i + 1], s[k])
  {
    if i + 1 == k {
      LeqReflexive(s[k]);
    }
  }

  lemma {:induction false} CollisionExact(s: seq<string>, pairs: seq<Pair>, index: nat)
    requires index <= |s|
    ensures Collision(s, pairs, index).Some? <==>
      exists i :: index <= i < |s| && NextIsBelow(s, i) && IsFile(pairs, s[i])
    decreases |s| - index
  {
    hide NextIsBelow, IsFile;
    if index < |s| && !(NextIsBelow(s, index) && IsFile(pairs, s[index])) {
      CollisionExact(s, pairs, index + 1);
    }
  }

  lemma SortedKeys(keys: seq<string>)
    requires Distinct(keys)
    ensures StrictlyOrdered(SortBy(keys, Leq))
    ensures forall k :: k in SortBy(keys, Leq) <==> k in keys
  {
    var s := SortBy(keys, Leq);
    LeqIsTotalPreorder();
    SortBySorts(keys, Leq);
    SameMembers(s, keys);
    forall x ensures multiset(s)[x] <= 1 { DistinctCount(keys, x); }
    CountMakesDistinct(s);
  }

  // A file that is also a parent path of another member.
  predicate Clash(pairs: seq<Pair>, f: string) { IsFile(pairs, f) && ParentOf(f, Keys(pairs)) }

  // The whole check, exactly: the named members are admissible together, and every file that is a
  // parent path of another member is shielded from its neighbour.
  lemma ValidateExact(infos: seq<Info>)
    ensures var pairs := PairsOf(infos);
      Validate(infos).Ok? <==>
        && 0 < |infos| <= MAX_MEMBERS && AllAdmissible(pairs, {}, 0)
        && forall f :: Clash(pairs, f) ==> Shielded(f, Keys(pairs))
    ensures Validate(infos).Ok? ==> Validate(infos) == Ok(PairsOf(infos))
  {
    hide Admit, SortBy, Collision, IsFile, TotalSize, NextIsBelow, Shielded, ParentOf, Leq, StrictlyOrdered, Distinct;
    AdmitExact(infos, {}, 0);
    if Admit(infos, {}, 0).Ok? {
      NeighbourVerdict(PairsOf(infos));
    }
  }

  // What a caller may rely on: names are distinct, stay below the destination and are those of
  // the archive, and every size is within its limit.
  lemma ValidatedMembers(infos: seq<Info>)
    requires Validate(infos).Ok?
    ensures var pairs := Validate(infos).value;
      && |pairs| <= MAX_MEMBERS && Distinct(Keys(pairs)) && TotalSize(pairs) <= MAX_TOTAL_BYTES
      && forall p :: p in pairs ==>
           && p.info in infos && PlainType(p.info) && p.info.fileSize <= MAX_MEMBER_BYTES
           && (p.key == "." || PosixPath.PlainComponents(p.key)) && '\\' !in p.key && '\0' !in p.key
           && p.key == PosixPath.AsPosix(StripSlashes(p.info.filename))
  {
    hide Validate, Normalizable, PlainType, StripSlashes, PosixPath.AsPosix, PosixPath.PlainComponents, Distinct;
    hide TotalSize;
    ValidateExact(infos);
    forall p | p in PairsOf(infos)
      ensures p.info in infos && p.key == PosixPath.AsPosix(StripSlashes(p.info.filename))
      ensures p.key == "." || PosixPath.PlainComponents(p.key)
      ensures '\\' !in p.key && '\0' !in p.key {
      PairsExact(infos, p);
      NormalizedName(StripSlashes(p.info.filename));
    }
  }

  lemma NeighbourVerdict(pairs: seq<Pair>)
    requires Distinct(Keys(pairs))
    ensures Collision(SortBy(Keys(pairs), Leq), pairs, 0).None? <==>
      forall f :: Clash(pairs, f) ==> Shielded(f, Keys(pairs))
  {
    hide SortBy, Collision, NextIsBelow, Leq, StrictlyOrdered, Distinct, IsDir;
    var keys := Keys(pairs);
    var s := SortBy(keys, Leq);
    SortedKeys(keys);
    CollisionExact(s, pairs, 0);
    forall i | 0 <= i < |s|
      ensures NextIsBelow(s, i) <==> ParentOf(s[i], keys) && !Shielded(s[i], keys)
    {
      NeighbourExact(s, i);
      SameNames(s[i], s, keys);
    }
    forall f | IsFile(pairs, f) ensures exists i :: 0 <= i < |s| && s[i] == f {
      var p :| p in pairs && p.key == f;
      var k :| 0 <= k < |pairs| && pairs[k] == p;
      assert keys[k] == f;
      assert f in s;
    }
  }

  lemma SameNames(f: string, a: seq<string>, b: seq<string>)
    requires forall k :: k in a <==> k in b
    ensures ParentOf(f, a) <==> ParentOf(f, b)
    ensures Shielded(f, a) <==> Shielded(f, b)
  {}

  // The check cannot be relied on without that condition: a file `a`, a file `a.b` between the
  // two in order, and `a/c` below `a` are accepted together.
  lemma ShieldedClashIsAccepted()
    ensures Validate(Example()).Ok? && Clash(Validate(Example()).value, "a")
  {
    hide Admit, Validate, Example, ExamplePairs, Clash, AllAdmissible, PairsOf, Keys, Shielded;
    ExampleAdmitted();
    AdmitExact(Example(), {}, 0);
    ValidateExact(Example());
    ExampleShielded();
  }

  function Example(): seq<Info> { [Info("a", 0, 0), Info("a.b", 0, 0), Info("a/c", 0, 0)] }

  function ExamplePairs(): seq<Pair> {
    [Pair(Info("a", 0, 0), "a"), Pair(Info("a.b", 0, 0), "a.b"), Pair(Info("a/c", 0, 0), "a/c")]
  }

  lemma ExampleShielded()
    ensures |Example()| == 3 && Clash(ExamplePairs(), "a")
    ensures forall f :: Clash(ExamplePairs(), f) ==> Shielded(f, Keys(ExamplePairs()))
  {
    var pairs := ExamplePairs();
    var keys := Keys(pairs);
    assert keys[0] == "a" && keys[1] == "a.b" && keys[2] == "a/c" && |keys| == 3;
    assert pairs[0] in pairs && pairs[0].key == "a" && !IsDir(pairs[0].info);
    assert keys[2] in keys && "a" + "/" <= keys[2];
    assert Shielded("a", keys) by { assert keys[1] in keys && "a" <= keys[1] && keys[1][1] < '/'; }
    forall f | Clash(pairs, f) ensures f == "a" {
      assert f == "a" || f == "a.b" || f == "a/c";
      assert !("a.b" + "/" <= "a") && !("a/c" + "/" <= "a");
    }
  }

  lemma SplitStep(c: char, rest: string)
    ensures var parts := PosixPath.Split(rest);
            PosixPath.Split([c] + rest) == if c == '/' then [[]] + parts else [[c] + parts[0]] + parts[1..]
  {
    assert ([c] + rest)[1..] == rest;
  }

  lemma ExampleSplits()
    ensures PosixPath.Split("a") == ["a"] && PosixPath.Split("a.b") == ["a.b"] && PosixPath.Split("a/c") == ["a", "c"]
  {
    assert PosixPath.Split("") == [""];
    SplitStep('a', "");
    SplitStep('b', "");
    SplitStep('c', "");
    SplitStep('.', "b");
    SplitStep('/', "c");
    SplitStep('a', ".b");
    SplitStep('a', "/c");
    hide PosixPath.Split;
    assert "a" == ['a'] + "" && "b" == ['b'] + "" && "c" == ['c'] + "";
    assert PosixPath.Split("b") == ["b"] && PosixPath.Split("c") == ["c"];
    assert ".b" == ['.'] + "b" && "/c" == ['/'] + "c";
    assert PosixPath.Split(".b") == [".b"] && PosixPath.Split("/c") == ["", "c"];
    assert "a.b" == ['a'] + ".b" && "a/c" == ['a'] + "/c";
  }

  lemma PlainName(name: string)
    requires PosixPath.PlainComponents(name) && '\\' !in name && '\0' !in name && name != "" && name[|name| - 1] != '/'
    ensures StripSlashes(name) == name && Normalizable(name) && PosixPath.AsPosix(name) == name
  {
    PosixPath.PlainIsRelative(name);
    PosixPath.CanonicalExact(name);
  }

  lemma AdmitStep(i: Info, rest: seq<Info>, seen: set<string>)
    requires i.filename != "" && i.filename !in seen && i.externalAttr == 0 && i.fileSize == 0
    requires StripSlashes(i.filename) == i.filename && Normalizable(i.filename)
      && PosixPath.AsPosix(i.filename) == i.filename
    requires Admit(rest, seen + {i.filename}, 0).Ok?
    ensures Admit([i] + rest, seen, 0) == Ok([Pair(i, i.filename)] + Admit(rest, seen + {i.filename}, 0).value)
  {
    hide PosixPath.AsPosix, StripSlashes, Normalizable;
    assert ([i] + rest)[1..] == rest;
  }

  lemma ExampleAdmitted()
    ensures Admit(Example(), {}, 0) == Ok(ExamplePairs())
  {
    ExampleNamesPlain();
    hide PosixPath.AsPosix, StripSlashes, Normalizable, Admit;
    var a, b, c := Info("a", 0, 0), Info("a.b", 0, 0), Info("a/c", 0, 0);
    assert |"a"| == 1 && "a.b"[1] == '.' && "a/c"[1] == '/';
    assert Admit([], {} + {"a"} + {"a.b"} + {"a/c"}, 0) == Ok([]) by { AdmitNothing({} + {"a"} + {"a.b"} + {"a/c"}); }
    AdmitStep(c, [], {} + {"a"} + {"a.b"});
    assert [c] + [] == [c] && [b] + [c] == [b, c];
    AdmitStep(b, [c], {} + {"a"});
    AdmitStep(a, [b, c], {});
    assert Example() == [a] + [b, c];
    assert ExamplePairs() == [Pair(a, "a")] + ([Pair(b, "a.b")] + ([Pair(c, "a/c")] + []));
  }

  lemma AdmitNothing(seen: set<string>)
    ensures Admit([], seen, 0) == Ok([])
  {}

  lemma ExampleNamesPlain()
    ensures forall n :: n == "a" || n == "a.b" || n == "a/c" ==>
              StripSlashes(n) == n && Normalizable(n) && PosixPath.AsPosix(n) == n
  {
    hide PosixPath.Split, StripSlashes, Normalizable, PosixPath.AsPosix;
    ExampleSplits();
    PlainName("a");
    PlainName("a.b");
    PlainName("a/c");
  }

  // The tests of a single member, and the limits, in plain numbers.
  lemma AdmissibleExact(p: Pair)
    ensures Admissible(p) <==>
      var name := StripSlashes(p.info.filename);
      && (name == "" || name[0] != '/') && '\\' !in name && '\0' !in name && ".." !in PosixPath.Split(name)
      && p.info.externalAttr / 65536 % 65536 / 4096 in {0, 4, 8}
      && p.info.fileSize <= 100663296
    ensures MAX_MEMBERS == 8192 && MAX_TOTAL_BYTES == 402653184
  {
    hide StripSlashes, Normalizable, PosixPath.Split;
    NormalizableExact(StripSlashes(p.info.filename));
  }

  lemma NormalizableExact(name: string)
    ensures Normalizable(name) <==>
      (name == "" || name[0] != '/') && '\\' !in name && '\0' !in name && ".." !in PosixPath.Split(name)
  {
    hide PosixPath.Split;
    assert "/" <= name <==> name != "" && name[0] == '/';
    assert !PosixPath.Dropped("..") && PosixPath.Dropped("") && PosixPath.Dropped(".");
    assert forall p :: p in PosixPath.Parts(name) <==> p in PosixPath.Split(name) && !PosixPath.Dropped(p);
  }

  // Slashes at the end of a name, and nothing else, are stripped.
  lemma {:induction false} StripExact(name: string) returns (slashes: string)
    ensures name == StripSlashes(name) + slashes && forall c :: c in slashes ==> c == '/'
    ensures StripSlashes(name) != "" ==> StripSlashes(name)[|StripSlashes(name)| - 1] != '/'
  {
    if name != "" && name[|name| - 1] == '/' {
      var front := StripExact(name[..|name| - 1]);
      slashes := front + "/";
      assert name == name[..|name| - 1] + "/";
    } else {
      slashes := "";
    }
  }

  // A name stands for a file unless a slash ends what the archive calls it.
  lemma FileExact(pairs: seq<Pair>, key: string)
    ensures IsFile(pairs, key) <==>
      exists p :: p in pairs && p.key == key
        && (p.info.filename == "" || p.info.filename[|p.info.filename| - 1] != '/')
  {}
}
