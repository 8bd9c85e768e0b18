// The difference between two file trees, each a map from relative path to file facts
// (scripts/otast-maintenance.py).
module TreeDiff {
  import opened Ordering
  import opened Lists

  datatype File = File(digest: string, size: nat, mode: string)

  type Tree = map<string, File>

  datatype Change = Change(path: string, before: File, after: File)

  datatype Diff = Diff(identical: bool, same: nat, added: seq<string>, removed: seq<string>, changed: seq<Change>)

  function Paths(before: Tree, after: Tree): seq<string> { SortedSet(before.Keys + after.Keys) }

  predicate Added(before: Tree, after: Tree, path: string) { path !in before && path in after }

  predicate Removed(before: Tree, after: Tree, path: string) { path in before && path !in after }

  predicate Same(before: Tree, after: Tree, path: string) {
    path in before && path in after && before[path] == after[path]
  }

  predicate Changed(before: Tree, after: Tree, path: string) {
    path in before && path in after && before[path] != after[path]
  }

  function ChangesAt(before: Tree, after: Tree, paths: seq<string>): seq<Change>
    requires forall p :: p in paths ==> p in before && p in after
  {
    seq(|paths|, i requires 0 <= i < |paths| =>
      assert paths[i] in paths; Change(paths[i], before[paths[i]], after[paths[i]]))
  }

  function Compared(before: Tree, after: Tree, paths: seq<string>): Diff {
    var added := Filter(paths, p => Added(before, after, p));
    var removed := Filter(paths, p => Removed(before, after, p));
    var changed := Filter(paths, p => Changed(before, after, p));
    ChangedAreShared(before, after, paths);
    Diff(added == [] && removed == [] && changed == [], |Filter(paths, p => Same(before, after, p))|,
         added, removed, ChangesAt(before, after, changed))
  }

  lemma ChangedAreShared(before: Tree, after: Tree, paths: seq<string>)
    ensures forall p :: p in Filter(paths, p => Changed(before, after, p)) ==> p in before && p in after
  {
    forall p | p in Filter(paths, p => Changed(before, after, p)) ensures p in before && p in after {
    }
  }

  function Comparison(before: Tree, after: Tree): Diff {
    Compared(before, after, Paths(before, after))
  }

  lemma NothingCompared(before: Tree, after: Tree)
    ensures Compared(before, after, []) == Diff(true, 0, [], [], [])
  {}

  function Recorded(d: Diff, before: Tree, after: Tree, path: string): Diff
    requires path in before || path in after
  {
    if path !in before then d.(identical := false, added := d.added + [path])
    else if path !in after then d.(identical := false, removed := d.removed + [path])
    else if before[path] == after[path] then d.(same := d.same + 1)
    else d.(identical := false, changed := d.changed + [Change(path, before[path], after[path])])
  }

  lemma RecordedCompares(before: Tree, after: Tree, paths: seq<string>, path: string)
    requires path in before || path in after
    ensures Compared(before, after, paths + [path]) == Recorded(Compared(before, after, paths), before, after, path)
  {
    hide Filter;
    FilterAppend(paths, path, p => Added(before, after, p));
    FilterAppend(paths, path, p => Removed(before, after, p));
    FilterAppend(paths, path, p => Changed(before, after, p));
    FilterAppend(paths, path, p => Same(before, after, p));
  }

  method CompareMaps(before: Tree, after: Tree) returns (d: Diff)
    ensures d == Comparison(before, after)
  {
    hide Compared, Recorded, Filter, Leq, Distinct, SortedBy;
    var added, removed, changed, same := [], [], [], 0;
    var paths := SortedSet(before.Keys + after.Keys);
    NothingCompared(before, after);
    ghost var now := Compared(before, after, []);
    var i := 0;
    assert paths[..0] == [];
    while i < |paths|
      invariant 0 <= i <= |paths|
      invariant now == Compared(before, after, paths[..i])
      invariant added == now.added && removed == now.removed && changed == now.changed && same == now.same
    {
      var path := paths[i];
      assert path in paths;
      assert paths[..i + 1] == paths[..i] + [path];
      RecordedCompares(before, after, paths[..i], path);
      Recording(now, before, after, path);
      now := Recorded(now, before, after, path);
      if path !in before {
        added := added + [path];
      } else if path !in after {
        removed := removed + [path];
      } else if before[path] == after[path] {
        same := same + 1;
      } else {
        changed := changed + [Change(path, before[path], after[path])];
      }
      i := i + 1;
    }
    assert paths[..i] == paths;
    IdenticalMeansEmpty(before, after, paths);
    d := Diff(added == [] && removed == [] && changed == [], same, added, removed, changed);
  }

  lemma IdenticalMeansEmpty(before: Tree, after: Tree, paths: seq<string>)
    ensures var d := Compared(before, after, paths); d.identical <==>
      d.added == [] && d.removed == [] && d.changed == []
  {}

  lemma Recording(d: Diff, before: Tree, after: Tree, path: string)
    requires path in before || path in after
    ensures var r := Recorded(d, before, after, path);
      && r.added == d.added + (if path !in before then [path] else [])
      && r.removed == d.removed + (if path !in after then [path] else [])
      && r.same == d.same + (if Same(before, after, path) then 1 else 0)
      && r.changed == d.changed + if Changed(before, after, path) then [Change(path, before[path], after[path])] else []
  {}

  // ---- What a comparison says

  // Every path of either tree is in exactly one class, once.
  lemma ClassesExact(before: Tree, after: Tree, path: string)
    ensures var d := Comparison(before, after);
      && (path in d.added <==> Added(before, after, path))
      && (path in d.removed <==> Removed(before, after, path))
      && ((exists c :: c in d.changed && c.path == path) <==> Changed(before, after, path))
      && (forall c :: c in d.changed ==>
           Changed(before, after, c.path) && c == Change(c.path, before[c.path], after[c.path]))
  {
    hide Filter, Leq;
    var paths := Paths(before, after);
    ChangesExact(before, after, path);
  }

  lemma ChangesExact(before: Tree, after: Tree, path: string)
    ensures var d := Comparison(before, after);
      && ((exists c :: c in d.changed && c.path == path) <==> Changed(before, after, path))
      && (forall c :: c in d.changed ==>
           Changed(before, after, c.path) && c == Change(c.path, before[c.path], after[c.path]))
  {
    hide Filter, Leq, ChangesAt;
    var paths := Paths(before, after);
    var test := p => Changed(before, after, p);
    ChangedAreShared(before, after, paths);
    ChangesAtExact(before, after, Filter(paths, test), path);
  }

  lemma ChangesAtExact(before: Tree, after: Tree, paths: seq<string>, path: string)
    requires forall p :: p in paths ==> p in before && p in after
    ensures (exists c :: c in ChangesAt(before, after, paths) && c.path == path) <==> path in paths
    ensures forall c :: c in ChangesAt(before, after, paths) ==>
      c.path in paths && c == Change(c.path, before[c.path], after[c.path])
  {
    var changed := ChangesAt(before, after, paths);
    if path in paths {
      var i :| 0 <= i < |paths| && paths[i] == path;
      assert changed[i].path == path && changed[i] in changed;
    }
    forall c | c in changed ensures c.path in paths && c == Change(c.path, before[c.path], after[c.path]) {
      var i :| 0 <= i < |changed| && changed[i] == c;
      assert c.path == paths[i];
    }
  }

  lemma {:induction false} Tally(before: Tree, after: Tree, paths: seq<string>)
    requires forall p :: p in paths ==> p in before || p in after
    ensures var d := Compared(before, after, paths); d.same + |d.added| + |d.removed| + |d.changed| == |paths|
  {
    if paths == [] {
      NothingCompared(before, after);
    } else {
      var front, last := paths[..|paths| - 1], paths[|paths| - 1];
      assert paths == front + [last];
      assert last in paths && forall p :: p in front ==> p in paths;
      Tally(before, after, front);
      RecordedCompares(before, after, front, last);
    }
  }

  // The four counts add up to the size of the key union.
  lemma CountsAddUp(before: Tree, after: Tree)
    ensures var d := Comparison(before, after);
      d.same + |d.added| + |d.removed| + |d.changed| == |before.Keys + after.Keys|
  {
    Tally(before, after, Paths(before, after));
  }

  lemma DiffIsEmpty(before: Tree, after: Tree)
    ensures var d := Comparison(before, after); d.identical <==> d.added == [] && d.removed == [] && d.changed == []
  {
    hide Filter, Paths;
    IdenticalMeansEmpty(before, after, Paths(before, after));
  }

  lemma IdenticalExact(before: Tree, after: Tree)
    ensures Comparison(before, after).identical <==> before == after
  {
    hide Filter, Leq, Comparison;
    var d := Comparison(before, after);
    DiffIsEmpty(before, after);
    forall p ensures p in d.added <==> Added(before, after, p) { ClassesExact(before, after, p); }
    forall p ensures p in d.removed <==> Removed(before, after, p) { ClassesExact(before, after, p); }
    forall p ensures (exists c :: c in d.changed && c.path == p) <==>
      Changed(before, after, p) { ClassesExact(before, after, p); }
    forall c | c in d.changed ensures Changed(before, after, c.path) { ClassesExact(before, after, c.path); }
    assert d.added == [] || d.added[0] in d.added;
    assert d.removed == [] || d.removed[0] in d.removed;
    assert d.changed == [] || d.changed[0] in d.changed;
    if d.identical {
      assert d.added == [] && d.removed == [] && d.changed == [];
      forall p ensures (p in before <==> p in after) && (p in before ==> before[p] == after[p]) {
        assert !Added(before, after, p) && !Removed(before, after, p) && !Changed(before, after, p);
      }
    }
  }

  // Comparing the other way round swaps additions and removals and turns every change over.
  lemma SwapMirrors(before: Tree, after: Tree)
    ensures var d, e := Comparison(before, after), Comparison(after, before);
      && e.added == d.removed && e.removed == d.added && e.same == d.same && e.identical == d.identical
      && |e.changed| == |d.changed|
      && forall i :: 0 <= i < |d.changed| ==>
         e.changed[i] == Change(d.changed[i].path, d.changed[i].after, d.changed[i].before)
  {
    hide Filter, Leq, ChangesAt, Distinct, SortedBy;
    assert before.Keys + after.Keys == after.Keys + before.Keys;
    var paths := Paths(before, after);
    ChangedAreShared(before, after, paths);
    MirrorChanges(before, after, Filter(paths, p => Changed(before, after, p)));
    FilterSame(paths, p => Added(before, after, p), p => Removed(after, before, p));
    FilterSame(paths, p => Removed(before, after, p), p => Added(after, before, p));
    FilterSame(paths, p => Changed(before, after, p), p => Changed(after, before, p));
    FilterSame(paths, p => Same(before, after, p), p => Same(after, before, p));
  }

  lemma MirrorChanges(before: Tree, after: Tree, paths: seq<string>)
    requires forall p :: p in paths ==> p in before && p in after
    ensures var c, e := ChangesAt(before, after, paths), ChangesAt(after, before, paths);
      |e| == |c| && forall i :: 0 <= i < |c| ==> e[i] == Change(c[i].path, c[i].after, c[i].before)
  {}

  // Replays a difference on the earlier tree, given the contents of what was added.
  ghost function Replayed(before: Tree, d: Diff, contents: Tree): Tree
    requires forall p :: p in d.added ==> p in contents
  {
    map p | p in before.Keys + (set q | q in d.added) && p !in d.removed ::
      if p in d.added then contents[p]
      else if exists c :: c in d.changed && c.path == p then (var c :| c in d.changed && c.path == p; c.after)
      else before[p]
  }

  // A difference, and the added contents alone, rebuild the later tree.
  lemma ReplayRebuilds(before: Tree, after: Tree, contents: Tree)
    requires forall p :: p in after && p !in before ==> p in contents && contents[p] == after[p]
    ensures (forall p :: p in Comparison(before, after).added ==> p in contents)
    ensures Replayed(before, Comparison(before, after), contents) == after
  {
    hide Filter, Leq, Comparison;
    var d := Comparison(before, after);
    forall p ensures p in d.added <==> Added(before, after, p) { ClassesExact(before, after, p); }
    forall p ensures p in d.removed <==> Removed(before, after, p) { ClassesExact(before, after, p); }
    var built := Replayed(before, d, contents);
    forall p ensures (p in built <==> p in after) && (p in after ==> built[p] == after[p]) {
      ClassesExact(before, after, p);
    }
  }
}
