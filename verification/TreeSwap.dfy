// `materialize_default_tree` of scripts/upstream-target-package.py: build a module tree beside
// its destination and swap it in, where every file-system operation may fail.
module TreeSwap {
  import opened Results
  import opened Ordering
  import opened Bytes
  import PosixPath

  // ---- what the new tree holds ----

  datatype File = File(data: seq<Byte>, mode: nat)

  type Tree = map<string, File>

  // A ZIP member, with the components of its normalized name.
  datatype Member = Member(filename: string, path: seq<string>, isDir: bool, data: seq<Byte>, rawMode: nat)

  datatype Item = Item(path: string, size: nat, mode: nat)

  // None for a member outside the module root.
  function Relative(m: Member, root: seq<string>): Option<seq<string>> {
    if root <= m.path then Some(m.path[|root|..]) else None
  }

  predicate InstallOnly(relative: seq<string>)
    requires relative != []
  {
    var name := PosixPath.Join(relative);
    name == "customize.sh" || name == "install.sh" || relative[0] == "META-INF"
  }

  // A member that becomes a file or directory of the tree.
  predicate Placed(m: Member, root: seq<string>) {
    var r := Relative(m, root);
    r.Some? && r.value != [] && !InstallOnly(r.value)
  }

  predicate PlacedFile(m: Member, root: seq<string>) { Placed(m, root) && !m.isDir }

  function LabelOf(m: Member, root: seq<string>): string
    requires Placed(m, root)
  {
    PosixPath.Join(Relative(m, root).value)
  }

  predicate EndsWith(s: string, tail: string) { |s| >= |tail| && s[|s| - |tail|..] == tail }

  // `inferred_mode`.
  function ModeOf(m: Member): nat {
    if m.rawMode % 0x200 != 0 then m.rawMode % 0x200
    else if [0x23, 0x21] <= m.data || EndsWith(m.filename, ".sh") then 0x1ED
    else 0x1A4
  }

  function FileOf(m: Member): File { File(m.data, ModeOf(m)) }

  function Content(members: seq<Member>, root: seq<string>): Tree {
    if members == [] then map[]
    else
      var m, done := members[|members| - 1], Content(members[..|members| - 1], root);
      if PlacedFile(m, root) then done[LabelOf(m, root) := FileOf(m)] else done
  }

  function Inventory(members: seq<Member>, root: seq<string>): seq<Item> {
    if members == [] then []
    else
      var m, done := members[|members| - 1], Inventory(members[..|members| - 1], root);
      if PlacedFile(m, root) then done + [Item(LabelOf(m, root), |m.data|, ModeOf(m))] else done
  }

  // Members outside the root, by full path, and install-only ones, by label.
  function Omitted(members: seq<Member>, root: seq<string>): seq<string> {
    if members == [] then []
    else
      var m, done := members[|members| - 1], Omitted(members[..|members| - 1], root);
      var r := Relative(m, root);
      if r.None? then done + [PosixPath.Join(m.path)]
      else if r.value != [] && InstallOnly(r.value) then done + [PosixPath.Join(r.value)]
      else done
  }

  // ---- the file system ----

  datatype Slot = Absent | Present(tree: Tree)

  datatype Name = Stage | Previous | Destination

  datatype Disk = Disk(stage: Slot, previous: Slot, destination: Slot)

  function At(d: Disk, n: Name): Slot {
    match n
    case Stage => d.stage
    case Previous => d.previous
    case Destination => d.destination
  }

  function Put(d: Disk, n: Name, s: Slot): Disk {
    match n
    case Stage => d.(stage := s)
    case Previous => d.(previous := s)
    case Destination => d.(destination := s)
  }

  // What deleting can leave of a tree.
  predicate Part(whole: Slot, part: Slot) {
    part == Absent
      || (whole.Present? && part.tree.Keys <= whole.tree.Keys && forall k :: k in part.tree ==>
           part.tree[k] == whole.tree[k])
  }

  // No moment may show anything else: a complete old tree is at the destination or set aside, or
  // the complete new tree is in place; the destination itself is never partial.
  predicate Safe(d: Disk, before: Slot, built: Tree) {
    && (d.destination == Absent || d.destination == before || d.destination == Present(built))
    && (d.destination == Absent && before != Absent ==> d.previous == before)
  }

  predicate AllSafe(moments: seq<Disk>, before: Slot, built: Tree) {
    forall d :: d in moments ==> Safe(d, before, built)
  }

  datatype Step = Preparing | Staging | SettingAside | Installing | RemovingPrevious

  datatype Outcome =
    | Returned(inventory: seq<Item>, omitted: seq<string>)
    | Raised(at: Step, rolledBack: bool)

  // Every operation records each state it passes through.
  class FileSystem {
    var disk: Disk
    ghost var moments: seq<Disk>

    constructor (disk: Disk)
      ensures this.disk == disk && moments == [disk]
    {
      this.disk := disk;
      moments := [disk];
    }

    // Everything recorded since `before` is safe.
    twostate predicate Kept(before: Slot, built: Tree)
      reads this
    {
      && old(moments) <= moments
      && AllSafe(moments[|old(moments)|..], before, built)
    }

    // os.replace: all or nothing, and only onto a free name.
    method Replace(src: Name, dst: Name) returns (ok: bool)
      requires src != dst
      modifies this
      ensures ok ==> At(old(disk), src) != Absent && At(old(disk), dst) == Absent
      ensures disk == if ok then Put(Put(old(disk), dst, At(old(disk), src)), src, Absent) else old(disk)
      ensures moments == old(moments) + [disk]
    {
      ok := *;
      if ok && (At(disk, src) == Absent || At(disk, dst) != Absent) {
        ok := false;
      }
      if ok {
        disk := Put(Put(disk, dst, At(disk, src)), src, Absent);
      }
      moments := moments + [disk];
    }

    // shutil.rmtree: passes through partial trees and may stop at one.
    method RemoveTree(n: Name) returns (ok: bool)
      modifies this
      ensures exists partial: Slot ::
        Part(At(old(disk), n), partial) && moments == old(moments) + [Put(old(disk), n, partial), disk]
      ensures exists s: Slot :: Part(At(old(disk), n), s) && disk == Put(old(disk), n, s)
      ensures ok ==> disk == Put(old(disk), n, Absent)
    {
      ok := *;
      assert Part(At(disk, n), At(disk, n));
      var partial: Slot :| Part(At(disk, n), partial);
      ghost var start := disk;
      disk := Put(disk, n, partial);
      ghost var first := disk;
      if ok {
        disk := Put(disk, n, Absent);
      }
      moments := moments + [first, disk];
      assert first == Put(start, n, partial);
      assert disk == Put(start, n, if ok then Absent else partial);
    }

    // One mkdir or one write with its chmod into the stage.
    method WriteStage(tree: Tree) returns (ok: bool)
      modifies this
      ensures exists s: Slot :: disk == old(disk).(stage := s)
      ensures ok ==> disk == old(disk).(stage := Present(tree))
      ensures moments == old(moments) + [disk]
    {
      ok := *;
      var partial: Slot := *;
      disk := disk.(stage := if ok then Present(tree) else partial);
      moments := moments + [disk];
    }

    // The staging loop; any step of it may raise.
    method FillStage(members: seq<Member>, root: seq<string>, ghost before: Slot, ghost built: Tree)
      returns (ok: bool, inventory: seq<Item>, omitted: seq<string>)
      requires disk.stage == Present(map[]) && Safe(disk, before, built)
      modifies this
      ensures Kept(before, built)
      ensures disk.destination == old(disk).destination && disk.previous == old(disk).previous
      ensures ok ==> disk.stage == Present(Content(members, root))
      ensures ok ==> inventory == Inventory(members, root) && omitted == Omitted(members, root)
    {
      hide PlacedFile, LabelOf, FileOf, ModeOf, InstallOnly;
      inventory, omitted := [], [];
      var tree: Tree := map[];
      for i := 0 to |members|
        invariant Kept(before, built)
        invariant disk.destination == old(disk).destination && disk.previous == old(disk).previous
        invariant tree == Content(members[..i], root) && disk.stage == Present(tree)
        invariant inventory == Inventory(members[..i], root) && omitted == Omitted(members[..i], root)
      {
        var m := members[i];
        assert members[..i + 1][..i] == members[..i] && members[..i + 1][i] == m;
        var relative := Relative(m, root);
        if relative.None? {
          assert !PlacedFile(m, root) by { OutsideNotPlaced(m, root); }
          omitted := omitted + [PosixPath.Join(m.path)];
          continue;
        }
        if relative.value == [] {
          assert !PlacedFile(m, root) by { OutsideNotPlaced(m, root); }
          continue;
        }
        if InstallOnly(relative.value) {
          assert !PlacedFile(m, root) by { OutsideNotPlaced(m, root); }
          omitted := omitted + [PosixPath.Join(relative.value)];
          continue;
        }
        PlacedWhenReached(m, root);
        if m.isDir {
          ok := WriteStage(tree);
        } else {
          tree := tree[LabelOf(m, root) := FileOf(m)];
          ok := WriteStage(tree);
        }
        if !ok {
          return;
        }
        if !m.isDir {
          inventory := inventory + [Item(LabelOf(m, root), |m.data|, ModeOf(m))];
        }
      }
      assert members[..|members|] == members;
      ok := true;
    }

    // Removes what an earlier call may have left beside the destination, and opens the stage.
    method Prepare(ghost before: Slot, ghost built: Tree) returns (ok: bool)
      requires disk.destination == before
      modifies this
      ensures Kept(before, built) && disk.destination == before
      ensures ok ==> disk.stage == Present(map[]) && disk.previous == Absent
    {
      if disk.stage != Absent {
        ok := RemoveTree(Stage);
        if !ok {
          return;
        }
      }
      if disk.previous != Absent {
        ok := RemoveTree(Previous);
        if !ok {
          return;
        }
      }
      ok := WriteStage(map[]);
    }

    // The two renames, the inner rollback, and the removal of the old tree.
    method Swap(ghost before: Slot, ghost built: Tree) returns (ok: bool, at: Step, rolledBack: bool)
      requires disk.destination == before && disk.previous == Absent && disk.stage == Present(built)
      modifies this
      ensures Kept(before, built)
      ensures ok ==> disk == Disk(Absent, Absent, Present(built))
      ensures !ok ==> at.SettingAside? || at.Installing? || at.RemovingPrevious?
      ensures !ok && at.SettingAside? ==> disk.destination == before && disk.previous == Absent && !rolledBack
      ensures !ok && at.RemovingPrevious? ==> disk.destination == Present(built)
      ensures !ok && at.Installing? ==>
                disk.stage == Present(built)
                  && (if rolledBack || before == Absent then disk.destination == before && disk.previous == Absent
                                                  else disk.destination == Absent && disk.previous == before)
    {
      at, rolledBack := SettingAside, false;
      if disk.destination != Absent {
        ok := Replace(Destination, Previous);
        if !ok {
          return;
        }
      }
      at := Installing;
      ok := Replace(Stage, Destination);
      if !ok {
        if disk.previous != Absent && disk.destination == Absent {
          rolledBack := Replace(Previous, Destination);
        }
        return;
      }
      at := RemovingPrevious;
      if disk.previous != Absent {
        ok := RemoveTree(Previous);
      }
    }

    // The handler around staging and swap: the stage goes, and a set-aside tree comes back.
    method Recover(ghost before: Slot, ghost built: Tree) returns (rolledBack: bool)
      requires Safe(disk, before, built)
      requires before == Absent && disk.destination == Absent ==> disk.previous == Absent
      modifies this
      ensures Kept(before, built)
      ensures old(disk).destination != Absent ==> !rolledBack && disk.destination == old(disk).destination
      ensures old(disk).destination == Absent && rolledBack ==> disk.destination == before && before != Absent
      ensures old(disk).destination == Absent && !rolledBack ==>
        disk.destination == Absent && disk.previous == old(disk).previous
    {
      rolledBack := false;
      var _ := RemoveTree(Stage);
      if disk.previous != Absent && disk.destination == Absent {
        rolledBack := Replace(Previous, Destination);
      }
    }

    // The whole call.  `validated` is None when the archive is refused before anything happens.
    method Materialize(validated: Option<seq<Member>>, root: seq<string>) returns (r: Outcome)
      modifies this
      ensures var before := old(disk).destination;
              var built := if validated.Some? then Content(validated.value, root) else map[];
              && Kept(before, built)
              && (r.Returned? ==>
                    && validated.Some?
                    && disk == Disk(Absent, Absent, Present(built))
                    && r.inventory == Inventory(validated.value, root)
                    && r.omitted == SortBy(Omitted(validated.value, root), Leq))
              && (r.Raised? ==>
                    match r.at
                    case RemovingPrevious => disk.destination == Present(built)
                    case Installing => if r.rolledBack || before == Absent then disk.destination == before
                                       else disk.destination == Absent && disk.previous == before
                    case _ => disk.destination == before)
    {
      hide Content, Inventory, Omitted, SortBy;
      ghost var before := disk.destination;
      ghost var built := if validated.Some? then Content(validated.value, root) else map[];
      if validated.None? {
        return Raised(Preparing, false);
      }
      var ok := Prepare(before, built);
      if !ok {
        return Raised(Preparing, false);
      }
      var inventory, omitted;
      ok, inventory, omitted := FillStage(validated.value, root, before, built);
      if !ok {
        var back := Recover(before, built);
        return Raised(Staging, back);
      }
      var at, inner;
      ok, at, inner := Swap(before, built);
      if !ok {
        var outer := Recover(before, built);
        return Raised(at, inner || outer);
      }
      return Returned(inventory, SortBy(omitted, Leq));
    }
  }

  lemma OutsideNotPlaced(m: Member, root: seq<string>)
    requires Relative(m, root).None? || Relative(m, root).value == [] || InstallOnly(Relative(m, root).value)
    ensures !Placed(m, root) && !PlacedFile(m, root)
  {}

  lemma PlacedWhenReached(m: Member, root: seq<string>)
    requires Relative(m, root).Some? && Relative(m, root).value != [] && !InstallOnly(Relative(m, root).value)
    ensures Placed(m, root) && (PlacedFile(m, root) <==> !m.isDir)
  {}

  // ---- the new tree is the archive's files, and the inventory lists it ----

  predicate FileMember(members: seq<Member>, root: seq<string>, i: int) {
    0 <= i < |members| && PlacedFile(members[i], root)
  }

  lemma FilesOfPrefix(members: seq<Member>, root: seq<string>)
    requires members != []
    ensures var n := |members| - 1;
            && (forall i :: FileMember(members[..n], root, i) ==>
                 FileMember(members, root, i) && i < n && members[..n][i] == members[i])
            && (forall i :: FileMember(members, root, i) && i < n ==> FileMember(members[..n], root, i))
            && (DistinctLabels(members, root) ==> DistinctLabels(members[..n], root))
  {
    hide Placed, LabelOf;
  }

  // No two placed files share a label, as after `validate_infos`.
  predicate DistinctLabels(members: seq<Member>, root: seq<string>) {
    forall i, j :: 0 <= i < j < |members| && FileMember(members, root, i) && FileMember(members, root, j) ==>
      LabelOf(members[i], root) != LabelOf(members[j], root)
  }

  // The mode written: the permission bits of the archive where it has any; otherwise that of a
  // script for data that starts with "#!" and names that end in ".sh", and of a plain file else.
  lemma ModeExact(m: Member)
    ensures var script := (|m.data| >= 2 && m.data[0] == '#' as int && m.data[1] == '!' as int)
        || (|m.filename| >= 3 && m.filename[|m.filename| - 3..] == ".sh");
      FileOf(m).data == m.data
      && FileOf(m).mode == if m.rawMode % 512 != 0 then m.rawMode % 512 else if script then 493 else 420
  {
    assert |m.data| >= 2 ==> m.data[..2] == [m.data[0], m.data[1]];
  }

  // The member lies at rel below the root.
  predicate Below(m: Member, root: seq<string>, rel: seq<string>) { m.path == root + rel }

  ghost predicate LeftOut(m: Member, root: seq<string>, name: string) {
    || (!(root <= m.path) && name == PosixPath.Join(m.path))
    || (exists rel :: Below(m, root, rel) && rel != [] && InstallOnly(rel) && name == PosixPath.Join(rel))
  }

  lemma LeftOutExact(m: Member, root: seq<string>, name: string)
    ensures LeftOut(m, root, name) <==>
      var r := Relative(m, root);
      if r.None? then name == PosixPath.Join(m.path)
      else r.value != [] && InstallOnly(r.value) && name == PosixPath.Join(r.value)
  {
    hide InstallOnly, PosixPath.Join;
    if root <= m.path {
      var rel := m.path[|root|..];
      assert Below(m, root, rel);
      forall other | Below(m, root, other) ensures other == rel {}
    }
  }

  // The report of what was left out names every member outside the root, and every one that is
  // left to the installer.
  lemma {:induction false} OmittedExact(members: seq<Member>, root: seq<string>, name: string)
    ensures name in Omitted(members, root) <==> exists m :: m in members && LeftOut(m, root, name)
  {
    hide LeftOut, InstallOnly, PosixPath.Join;
    if members != [] {
      var n := |members| - 1;
      assert members == members[..n] + [members[n]];
      OmittedExact(members[..n], root, name);
      LeftOutExact(members[n], root, name);
    }
  }

  lemma {:induction false} ContentExact(members: seq<Member>, root: seq<string>)
    requires DistinctLabels(members, root)
    ensures forall i :: FileMember(members, root, i) ==>
              LabelOf(members[i], root) in Content(members, root)
              && Content(members, root)[LabelOf(members[i], root)] == FileOf(members[i])
    ensures forall l :: l in Content(members, root) ==>
              exists i :: FileMember(members, root, i) && LabelOf(members[i], root) == l
  {
    hide Placed, LabelOf, FileOf;
    if members != [] {
      var n := |members| - 1;
      var done := members[..n];
      FilesOfPrefix(members, root);
      ContentExact(done, root);
      forall l | l in Content(members, root)
        ensures exists i :: FileMember(members, root, i) && LabelOf(members[i], root) == l
      {
        if l in Content(done, root) {
          var i :| FileMember(done, root, i) && LabelOf(done[i], root) == l;
          assert FileMember(members, root, i);
        } else {
          assert FileMember(members, root, n);
        }
      }
    }
  }

  // The inventory has one item for each file of the tree, with its size and mode.
  lemma {:induction false} InventoryExact(members: seq<Member>, root: seq<string>)
    requires DistinctLabels(members, root)
    ensures |Inventory(members, root)| == |Content(members, root)|
    ensures forall e :: e in Inventory(members, root) ==>
              e.path in Content(members, root)
              && e == Item(e.path, |Content(members, root)[e.path].data|, Content(members, root)[e.path].mode)
  {
    hide Placed, LabelOf, ModeOf;
    if members != [] {
      var n := |members| - 1;
      var done := members[..n];
      FilesOfPrefix(members, root);
      InventoryExact(done, root);
      if PlacedFile(members[n], root) {
        assert FileMember(members, root, n);
        ContentExact(done, root);
        assert LabelOf(members[n], root) !in Content(done, root);
      }
    }
  }
}
