// From a validated archive to the tree that `materialize_default_tree` of
// scripts/upstream-target-package.py writes: validation is what keeps files from overwriting
// each other.
module ArchiveTree {
  import opened Results
  import opened Ordering
  import opened Bytes
  import opened ArchiveCheck
  import TreeSwap
  import PosixPath

  type Contents = Info -> seq<Byte>

  // A validated member as the staging loop sees it.
  function MemberOf(p: Pair, contents: Contents): TreeSwap.Member {
    TreeSwap.Member(p.info.filename, PosixPath.Parts(StripSlashes(p.info.filename)), IsDir(p.info), contents(p.info),
                    p.info.externalAttr / 0x10000)
  }

  function MembersOf(pairs: seq<Pair>, contents: Contents): (r: seq<TreeSwap.Member>)
    ensures |r| == |pairs| && forall i :: 0 <= i < |r| ==> r[i] == MemberOf(pairs[i], contents)
  {
    seq(|pairs|, i requires 0 <= i < |pairs| => MemberOf(pairs[i], contents))
  }

  predicate Components(path: seq<string>) { forall p :: p in path ==> PosixPath.NoSlash(p) }

  lemma PartsAreComponents(name: string)
    ensures Components(PosixPath.Parts(name))
  {
    hide PosixPath.Split;
    forall p | p in PosixPath.Parts(name) ensures PosixPath.NoSlash(p) {
      PosixPath.ComponentChars(name, p);
    }
  }

  // Members that share a label share their whole path.
  lemma SameLabelSamePath(a: TreeSwap.Member, b: TreeSwap.Member, root: seq<string>)
    requires TreeSwap.Placed(a, root) && TreeSwap.Placed(b, root)
    requires Components(a.path) && Components(b.path)
    requires TreeSwap.LabelOf(a, root) == TreeSwap.LabelOf(b, root)
    ensures a.path == b.path
  {
    hide TreeSwap.InstallOnly, PosixPath.Split, PosixPath.Join, PosixPath.NoSlash;
    var x, y := a.path[|root|..], b.path[|root|..];
    assert Components(x) by { forall p | p in x ensures p in a.path {} }
    assert Components(y) by { forall p | p in y ensures p in b.path {} }
    PosixPath.SplitJoin(x);
    PosixPath.SplitJoin(y);
    assert a.path == root + x && b.path == root + y;
  }

  // What is left to the installer, by label: two scripts and everything in META-INF.
  lemma InstallOnlyExact(relative: seq<string>)
    requires relative != [] && Components(relative)
    ensures var name := PosixPath.Join(relative);
      TreeSwap.InstallOnly(relative) <==>
        name == "customize.sh" || name == "install.sh" || name == "META-INF" || "META-INF/" <= name
  {
    hide PosixPath.Split, PosixPath.NoSlash;
    var name := PosixPath.Join(relative);
    PosixPath.SplitJoin(relative);
    MetaInfIsPlain();
    PosixPath.SplitOne("META-INF");
    JoinStart(relative);
    if "META-INF/" <= name {
      PosixPath.SplitFirst("META-INF", name[9..]);
      assert name == "META-INF" + "/" + name[9..];
    }
  }

  lemma MetaInfIsPlain()
    ensures PosixPath.NoSlash("META-INF") && |"META-INF/"| == 9
  {}

  lemma JoinStart(parts: seq<string>)
    requires parts != []
    ensures PosixPath.Join(parts) == parts[0] || parts[0] + "/" <= PosixPath.Join(parts)
  {}

  lemma SamePathSameKey(a: string, b: string)
    requires Normalizable(a) && Normalizable(b) && PosixPath.Parts(a) == PosixPath.Parts(b)
    ensures PosixPath.AsPosix(a) == PosixPath.AsPosix(b)
  {
    NotAbsolute(a);
    NotAbsolute(b);
  }

  // No two files of a validated archive end up under one label, whatever the module root.
  lemma ValidatedLabelsDiffer(infos: seq<Info>, contents: Contents, root: seq<string>)
    requires Validate(infos).Ok?
    ensures TreeSwap.DistinctLabels(MembersOf(Validate(infos).value, contents), root)
  {
    hide Validate, StripSlashes, Normalizable, PlainType, TotalSize, TreeSwap.LabelOf, TreeSwap.Placed, Components;
    hide PosixPath.Parts, PosixPath.AsPosix, PosixPath.PlainComponents;
    ValidateExact(infos);
    var pairs := Validate(infos).value;
    var members := MembersOf(pairs, contents);
    forall i, j | 0 <= i < j < |members|
      && TreeSwap.FileMember(members, root, i) && TreeSwap.FileMember(members, root, j)
      ensures TreeSwap.LabelOf(members[i], root) != TreeSwap.LabelOf(members[j], root)
    {
      var a, b := StripSlashes(pairs[i].info.filename), StripSlashes(pairs[j].info.filename);
      assert pairs[i] in pairs && pairs[j] in pairs;
      PairsExact(infos, pairs[i]);
      PairsExact(infos, pairs[j]);
      PartsAreComponents(a);
      PartsAreComponents(b);
      assert Keys(pairs)[i] != Keys(pairs)[j];
      if TreeSwap.LabelOf(members[i], root) == TreeSwap.LabelOf(members[j], root) {
        SameLabelSamePath(members[i], members[j], root);
        SamePathSameKey(a, b);
        assert false;
      }
    }
  }

  // The tree and inventory written for a validated archive list every placed file once, with its
  // own bytes and mode, and nothing that is left to the installer.
  lemma ValidatedTreeExact(infos: seq<Info>, contents: Contents, root: seq<string>)
    requires Validate(infos).Ok?
    ensures var members := MembersOf(Validate(infos).value, contents);
      var tree, inventory := TreeSwap.Content(members, root), TreeSwap.Inventory(members, root);
      && (forall i :: TreeSwap.FileMember(members, root, i) ==>
            var name := TreeSwap.LabelOf(members[i], root);
            name in tree && tree[name] == TreeSwap.FileOf(members[i]))
      && (forall l :: l in tree ==>
            exists i :: TreeSwap.FileMember(members, root, i) && TreeSwap.LabelOf(members[i], root) == l)
      && (forall l :: l in tree ==>
            l != "customize.sh" && l != "install.sh" && l != "META-INF" && !("META-INF/" <= l))
      && |inventory| == |tree|
      && (forall e :: e in inventory ==>
            e.path in tree && e == TreeSwap.Item(e.path, |tree[e.path].data|, tree[e.path].mode))
  {
    hide Validate, TreeSwap.Content, TreeSwap.Inventory, TreeSwap.LabelOf, TreeSwap.Placed, TreeSwap.DistinctLabels;
    hide PosixPath.Parts;
    ValidatedLabelsDiffer(infos, contents, root);
    var members := MembersOf(Validate(infos).value, contents);
    TreeSwap.ContentExact(members, root);
    TreeSwap.InventoryExact(members, root);
    forall i | TreeSwap.FileMember(members, root, i)
      ensures NotForInstaller(TreeSwap.LabelOf(members[i], root)) {
      PartsAreComponents(StripSlashes(Validate(infos).value[i].info.filename));
      PlacedLabel(members[i], root);
    }
  }

  predicate NotForInstaller(l: string) {
    l != "customize.sh" && l != "install.sh" && l != "META-INF" && !("META-INF/" <= l)
  }

  lemma PlacedLabel(m: TreeSwap.Member, root: seq<string>)
    requires TreeSwap.Placed(m, root) && Components(m.path)
    ensures NotForInstaller(TreeSwap.LabelOf(m, root))
  {
    hide TreeSwap.InstallOnly, PosixPath.NoSlash, PosixPath.Join;
    var relative := m.path[|root|..];
    assert Components(relative) by { forall p | p in relative ensures p in m.path {} }
    InstallOnlyExact(relative);
  }

  // The member lies below the root, at rel, and no slash ends its name.
  ghost predicate FileBelow(i: Info, root: seq<string>, rel: seq<string>) {
    && PosixPath.Parts(StripSlashes(i.filename)) == root + rel && rel != []
    && (i.filename == "" || i.filename[|i.filename| - 1] != '/')
  }

  // What becomes of a member: a file with its data and the permission bits of the upper half of
  // its attributes, or those of a script or a plain file where there are none.
  ghost predicate Becomes(i: Info, contents: Contents, f: TreeSwap.File) {
    var bits := i.externalAttr / 65536 % 512;
    var script := (|f.data| >= 2 && f.data[0] == '#' as int && f.data[1] == '!' as int)
      || (|i.filename| >= 3 && i.filename[|i.filename| - 3..] == ".sh");
    f.data == contents(i) && f.mode == if bits != 0 then bits else if script then 493 else 420
  }

  ghost predicate Writes(i: Info, contents: Contents, root: seq<string>, l: string, f: TreeSwap.File) {
    && (exists rel :: FileBelow(i, root, rel) && l == PosixPath.Join(rel)) && NotForInstaller(l)
    && Becomes(i, contents, f)
  }

  lemma BecomesExact(p: Pair, contents: Contents, f: TreeSwap.File)
    ensures Becomes(p.info, contents, f) <==> TreeSwap.FileOf(MemberOf(p, contents)) == f
  {
    hide PosixPath.Parts, StripSlashes;
    TreeSwap.ModeExact(MemberOf(p, contents));
    hide TreeSwap.ModeOf;
  }

  lemma BelowExact(p: Pair, contents: Contents, root: seq<string>, l: string)
    ensures (exists rel :: FileBelow(p.info, root, rel) && l == PosixPath.Join(rel)) && NotForInstaller(l) <==>
      TreeSwap.PlacedFile(MemberOf(p, contents), root) && TreeSwap.LabelOf(MemberOf(p, contents), root) == l
  {
    hide PosixPath.Parts, StripSlashes, PosixPath.Join, TreeSwap.InstallOnly, NotForInstaller;
    var path := PosixPath.Parts(StripSlashes(p.info.filename));
    PartsAreComponents(StripSlashes(p.info.filename));
    if root <= path {
      var rel := path[|root|..];
      assert path == root + rel;
      assert forall other :: path == root + other ==> other == rel;
      if rel != [] { RelativeLabel(path, root, rel); }
    }
  }

  lemma RelativeLabel(path: seq<string>, root: seq<string>, rel: seq<string>)
    requires Components(path) && path == root + rel && rel != []
    ensures NotForInstaller(PosixPath.Join(rel)) <==> !TreeSwap.InstallOnly(rel)
  {
    hide TreeSwap.InstallOnly, PosixPath.Join, PosixPath.NoSlash;
    assert forall c :: c in rel ==> c in path;
    InstallOnlyExact(rel);
  }

  // A validated archive leaves exactly these files.
  lemma WrittenExact(infos: seq<Info>, contents: Contents, root: seq<string>, l: string, f: TreeSwap.File)
    requires Validate(infos).Ok?
    ensures var pairs := Validate(infos).value;
      var tree := TreeSwap.Content(MembersOf(pairs, contents), root);
      (l in tree && tree[l] == f) <==>
        exists i :: 0 <= i < |pairs| && Writes(pairs[i].info, contents, root, l, f)
  {
    hide Validate, TreeSwap.Content, TreeSwap.Inventory, TreeSwap.LabelOf, TreeSwap.Placed, TreeSwap.FileOf;
    hide NotForInstaller, FileBelow, Becomes, MemberOf, PosixPath.Join;
    var pairs := Validate(infos).value;
    var members := MembersOf(pairs, contents);
    ValidatedTreeExact(infos, contents, root);
    forall i | 0 <= i < |pairs|
      ensures Writes(pairs[i].info, contents, root, l, f) <==>
        && TreeSwap.FileMember(members, root, i)
        && TreeSwap.LabelOf(members[i], root) == l && TreeSwap.FileOf(members[i]) == f {
      BecomesExact(pairs[i], contents, f);
      BelowExact(pairs[i], contents, root, l);
    }
  }
}
