// What `load_local_state` of scripts/reconcile-release-state.py yields: which directories load,
// what a loaded state looks like, and that a written state file reads back.
module StateLoading {
  import opened Results
  import opened Decimal
  import opened Reconcile
  import opened Strings
  import opened TextLines
  import opened Whitespace
  import Properties
  import Utf8
  import Version

  // ---- the lines of state.env

  predicate WantedAt(lines: seq<string>, i: nat)
    requires i < |lines|
  {
    '=' in lines[i] && Wanted(Properties.KeyOf(lines[i]))
  }

  function KeyAt(lines: seq<string>, i: nat): string
    requires i < |lines| && WantedAt(lines, i)
  {
    Properties.KeyOf(lines[i])
  }

  // No wanted key stands on two lines, or on one and among the fields read before.
  ghost predicate KeysOnce(lines: seq<string>, fields: Fields) {
    && (forall i :: 0 <= i < |lines| && WantedAt(lines, i) ==> KeyAt(lines, i) !in fields)
    && (forall i, j :: 0 <= i < j < |lines| && WantedAt(lines, i) && WantedAt(lines, j) ==>
         KeyAt(lines, i) != KeyAt(lines, j))
  }

  lemma KeysOnceHead(lines: seq<string>, fields: Fields)
    requires lines != []
    ensures !WantedAt(lines, 0) ==> (KeysOnce(lines, fields) <==> KeysOnce(lines[1..], fields))
    ensures WantedAt(lines, 0) ==>
      var key := KeyAt(lines, 0);
      (KeysOnce(lines, fields) <==>
        key !in fields && KeysOnce(lines[1..], fields[key := Properties.ValueOf(lines[0])]))
  {
    hide Wanted, Properties.KeyOf, Properties.ValueOf;
    var rest := lines[1..];
    forall i | 0 < i < |lines| ensures lines[i] == rest[i - 1] && WantedAt(lines, i) == WantedAt(rest, i - 1) {}
    forall i | 0 <= i < |rest| ensures rest[i] == lines[i + 1] && WantedAt(lines, i + 1) == WantedAt(rest, i) {}
  }

  ghost predicate Carried(lines: seq<string>, key: string) {
    exists i :: 0 <= i < |lines| && WantedAt(lines, i) && KeyAt(lines, i) == key
  }

  // The fields after the lines: the ones before, and for each wanted key what its line says.
  ghost predicate ReadFrom(lines: seq<string>, fields: Fields, all: Fields) {
    && (forall key :: key in all <==> key in fields || Carried(lines, key))
    && (forall key :: key in fields ==> key in all && all[key] == fields[key])
    && (forall i :: 0 <= i < |lines| && WantedAt(lines, i) ==>
          KeyAt(lines, i) in all && all[KeyAt(lines, i)] == Properties.ValueOf(lines[i]))
  }

  lemma CarriedHead(lines: seq<string>, key: string)
    requires lines != []
    ensures Carried(lines, key) <==> (WantedAt(lines, 0) && KeyAt(lines, 0) == key) || Carried(lines[1..], key)
  {
    hide Wanted, Properties.KeyOf;
    var rest := lines[1..];
    forall i | 0 <= i < |rest| && WantedAt(rest, i) && KeyAt(rest, i) == key ensures Carried(lines, key) {
      assert lines[i + 1] == rest[i] && WantedAt(lines, i + 1);
    }
    forall i | 0 < i < |lines| && WantedAt(lines, i) && KeyAt(lines, i) == key ensures Carried(rest, key) {
      assert lines[i] == rest[i - 1] && WantedAt(rest, i - 1);
    }
  }

  lemma ReadFromHead(lines: seq<string>, fields: Fields, next: Fields, all: Fields)
    requires lines != [] && KeysOnce(lines, fields)
    requires next == if WantedAt(lines, 0) then fields[KeyAt(lines, 0) := Properties.ValueOf(lines[0])] else fields
    requires ReadFrom(lines[1..], next, all)
    ensures ReadFrom(lines, fields, all)
  {
    hide Wanted, Properties.KeyOf, Properties.ValueOf, Carried;
    var rest := lines[1..];
    forall key ensures Carried(lines, key) <==> (WantedAt(lines, 0) && KeyAt(lines, 0) == key) || Carried(rest, key) {
      CarriedHead(lines, key);
    }
    forall i | 0 <= i < |lines| && WantedAt(lines, i)
      ensures KeyAt(lines, i) in all && all[KeyAt(lines, i)] == Properties.ValueOf(lines[i]) {
      if i > 0 { assert lines[i] == rest[i - 1] && WantedAt(rest, i - 1); }
    }
  }

  // The loop succeeds exactly when no wanted key is repeated, and then reads every wanted line.
  lemma {:induction false} CollectExact(lines: seq<string>, fields: Fields)
    ensures Collect(lines, fields).Ok? <==> KeysOnce(lines, fields)
    ensures Collect(lines, fields).Ok? ==> ReadFrom(lines, fields, Collect(lines, fields).value)
  {
    hide Wanted, Properties.KeyOf, Properties.ValueOf, KeysOnce, ReadFrom;
    if lines == [] {
      NoLines(fields);
    } else {
      KeysOnceHead(lines, fields);
      var rest := lines[1..];
      var next := if WantedAt(lines, 0) then fields[KeyAt(lines, 0) := Properties.ValueOf(lines[0])] else fields;
      CollectExact(rest, next);
      if Collect(lines, fields).Ok? {
        ReadFromHead(lines, fields, next, Collect(rest, next).value);
      }
    }
  }

  lemma NoLines(fields: Fields)
    ensures KeysOnce([], fields) && ReadFrom([], fields, fields)
  {}

  // ---- what a loaded state looks like

  predicate EmptyOrHex(s: string, n: nat) { s == "" || IsHexText(s, n) }

  lemma DecodedIsSound(raw: string, key: string, digits: nat)
    requires Decoded(raw, key, digits).Ok?
    ensures var value := Decoded(raw, key, digits).value;
      value == "" || (IsSimple(value) && value == Strip(raw) && (digits > 0 ==> IsHexText(value, digits)))
  {
    hide Strip, IsSimple, IsHexText;
  }

  // Whatever loads has a known phase and bindings that are empty or whole hashes; it exists
  // exactly where there is a directory, and its payload flags say what files there are.
  lemma LoadedIsSound(state: StateDir)
    requires Load(state).Ok?
    ensures var l := Load(state).value;
      && KnownPhase(l.phase)
      && EmptyOrHex(l.sourceSha, 40) && EmptyOrHex(l.moduleSha, 64) && EmptyOrHex(l.runtimeDigest, 64)
      && (l.exists_ <==> state.Dir?)
      && (l.hasPayload <==> state.Dir? && HasPayload(state.tree))
      && (l.hasAuxiliary <==> state.Dir? && HasAuxiliary(state.tree))
      && (state.Dir? ==> forall p :: p in state.tree ==> state.tree[p].File? || state.tree[p].Folder?)
  {
    hide Collect, Utf8.Decode, SplitLines, Decoded, HasPayload, HasAuxiliary, IsHexText;
    StartIsKnown();
    if state.Dir? && STATE_FILE in state.tree {
      var fields := Collect(SplitLines(Utf8.Decode(state.tree[STATE_FILE].bytes).value), map[]).value;
      DecodedIsSound(Or(fields, "SOURCE_SHA", ""), "SOURCE_SHA", 40);
      DecodedIsSound(Or(fields, "MODULE_SHA256", ""), "MODULE_SHA256", 64);
      DecodedIsSound(Or(fields, "RUNTIME_DIGEST", ""), "RUNTIME_DIGEST", 64);
    }
  }

  lemma StartIsKnown()
    ensures KnownPhase("START")
  {}

  // ---- a written state reads back

  // How the lifecycle writes a field with `printf %q`.
  function Written(value: string): string { if value == "" then "''" else value }

  // One line of the file says `key=value`, and no other line speaks of the key.
  ghost predicate Holds(lines: seq<string>, key: string, value: string) {
    exists i :: 0 <= i < |lines| && lines[i] == Properties.PropertyLine(key, value)
      && forall j :: 0 <= j < |lines| && j != i && '=' in lines[j] ==> Properties.KeyOf(lines[j]) != key
  }

  // The file holds the four fields, in any order and among any other lines.
  ghost predicate HoldsState(lines: seq<string>, phase: string, source: string, module_: string, runtime: string) {
    && Holds(lines, "PHASE", Written(phase)) && Holds(lines, "SOURCE_SHA", Written(source))
    && Holds(lines, "MODULE_SHA256", Written(module_)) && Holds(lines, "RUNTIME_DIGEST", Written(runtime))
  }

  lemma HeldOnce(lines: seq<string>, key: string, value: string, i: nat, j: nat)
    requires Holds(lines, key, value) && i < j < |lines| && WantedAt(lines, i) && WantedAt(lines, j)
    ensures KeyAt(lines, i) != key || KeyAt(lines, j) != key
  {
    hide Wanted, Properties.KeyOf;
  }

  lemma HeldIsRead(lines: seq<string>, key: string, value: string, all: Fields)
    requires Holds(lines, key, value) && ReadFrom(lines, map[], all) && Wanted(key) && '=' !in key
    ensures key in all && all[key] == value
  {
    hide Wanted, Properties.KeyOf, Properties.ValueOf, Carried;
    var i :| 0 <= i < |lines| && lines[i] == Properties.PropertyLine(key, value);
    Properties.PropertyLineParts(key, value);
    assert WantedAt(lines, i);
  }

  lemma StateCollects(lines: seq<string>, phase: string, source: string, module_: string, runtime: string)
    requires HoldsState(lines, phase, source, module_, runtime)
    ensures Collect(lines, map[]).Ok?
    ensures var all := Collect(lines, map[]).value;
      && Or(all, "PHASE", "START") == Written(phase) && Or(all, "SOURCE_SHA", "") == Written(source)
      && Or(all, "MODULE_SHA256", "") == Written(module_) && Or(all, "RUNTIME_DIGEST", "") == Written(runtime)
  {
    hide Collect, Holds, Written, ReadFrom, Properties.KeyOf;
    CollectExact(lines, map[]);
    forall i, j | 0 <= i < j < |lines| && WantedAt(lines, i) && WantedAt(lines, j)
      ensures KeyAt(lines, i) != KeyAt(lines, j) {
      HeldOnce(lines, "PHASE", Written(phase), i, j);
      HeldOnce(lines, "SOURCE_SHA", Written(source), i, j);
      HeldOnce(lines, "MODULE_SHA256", Written(module_), i, j);
      HeldOnce(lines, "RUNTIME_DIGEST", Written(runtime), i, j);
    }
    var all := Collect(lines, map[]).value;
    WantedNames();
    HeldIsRead(lines, "PHASE", Written(phase), all);
    HeldIsRead(lines, "SOURCE_SHA", Written(source), all);
    HeldIsRead(lines, "MODULE_SHA256", Written(module_), all);
    HeldIsRead(lines, "RUNTIME_DIGEST", Written(runtime), all);
  }

  lemma WantedNames()
    ensures forall key :: key in {"PHASE", "SOURCE_SHA", "MODULE_SHA256", "RUNTIME_DIGEST"} ==> '=' !in key
  {
    assert '=' !in "PHASE" && '=' !in "SOURCE_SHA" && '=' !in "MODULE_SHA256" && '=' !in "RUNTIME_DIGEST";
  }

  lemma DecodesBack(value: string, key: string, digits: nat)
    requires value == "" || (IsSimple(value) && (digits > 0 ==> IsHexText(value, digits)))
    ensures Decoded(Written(value), key, digits) == Ok(value)
  {
    hide IsHexText;
    if value == "" {
      assert "''"[0] == '\'' && "''"[1] == '\'';
      StripKeeps("''");
    } else {
      assert value[0] in value && value[|value| - 1] in value;
      StripKeeps(value);
      assert SimpleChar(value[0]);
    }
  }

  lemma HexIsSimple(s: string, n: nat)
    requires IsHexText(s, n) && n > 0
    ensures IsSimple(s)
  {}

  lemma PhaseIsSimple(phase: string)
    requires KnownPhase(phase)
    ensures IsSimple(phase)
  {}

  // Round trip: a directory whose state.env holds a phase and three bindings, among whatever
  // other lines and files, loads as exactly that state.
  lemma WrittenStateLoads(tree: DirTree, lines: seq<string>, phase: string, source: string, module_: string,
                          runtime: string)
    requires forall p :: p in tree ==> tree[p].File? || tree[p].Folder?
    requires STATE_FILE in tree && tree[STATE_FILE] == File(Utf8.Encode(Terminated(lines)))
    requires |tree[STATE_FILE].bytes| <= MAX_STATE_FILE && (forall l :: l in lines ==> OneLine(l))
    requires KnownPhase(phase) && EmptyOrHex(source, 40) && EmptyOrHex(module_, 64) && EmptyOrHex(runtime, 64)
    requires HoldsState(lines, phase, source, module_, runtime)
    ensures Load(Dir(tree))
      == Ok(LocalState(true, phase, source, module_, runtime, HasPayload(tree), HasAuxiliary(tree)))
  {
    hide Collect, HoldsState, Utf8.Encode, Utf8.Decode, SplitLines, Terminated, Decoded, Written, OneLine;
    hide KnownPhase, IsSimple, IsHexText, HasPayload, HasAuxiliary;
    Utf8.RoundTrip(Terminated(lines));
    SplitTerminated(lines);
    StateCollects(lines, phase, source, module_, runtime);
    PhaseIsSimple(phase);
    if source != "" { HexIsSimple(source, 40); }
    if module_ != "" { HexIsSimple(module_, 64); }
    if runtime != "" { HexIsSimple(runtime, 64); }
    DecodesBack(phase, "PHASE", 0);
    DecodesBack(source, "SOURCE_SHA", 40);
    DecodesBack(module_, "MODULE_SHA256", 64);
    DecodesBack(runtime, "RUNTIME_DIGEST", 64);
  }

  // ---- exactly which directories load, and as what

  // Line i says `key=value`.
  ghost predicate SaysAt(lines: seq<string>, i: nat, key: string, value: string) {
    i < |lines| && lines[i] == key + "=" + value
  }

  predicate Field(key: string) { key in {"PHASE", "SOURCE_SHA", "MODULE_SHA256", "RUNTIME_DIGEST"} }

  // A pair of quotes alone means the empty text.
  function Stated(value: string): string {
    if Strip(value) == "''" || Strip(value) == "\"\"" then "" else Strip(value)
  }

  predicate PlainText(s: string) {
    s != "" && forall c :: c in s ==>
      '0' <= c <= '9' || 'a' <= c <= 'z' || 'A' <= c <= 'Z' || c in {'.', '_', '+', '-'}
  }

  predicate Phase(s: string) {
    s == "START" || s == "BASELINE_REBOOT" || s == "INSTALL_REBOOT" || s == "APPLY_REBOOT"
    || s == "EVIDENCE_REQUIRED" || s == "RESTORE_REBOOT" || s == "REAPPLY_REBOOT" || s == "ABORT_RESTORE_REBOOT"
    || s == "PROOF_READY" || s == "PUBLISHING" || s == "COMPLETE"
  }

  lemma PhaseExact(s: string)
    ensures Phase(s) <==> KnownPhase(s)
  {}

  // A phase, a commit of 40 digits or a hash of 64, or nothing at all.
  predicate Sound(key: string, value: string) {
    Stated(value) == "" || (if key == "PHASE" then Phase(Stated(value))
                            else IsHexText(Stated(value), if key == "SOURCE_SHA" then 40 else 64))
  }

  // Every field stands on one line at most, and soundly.
  ghost predicate LinesLoad(lines: seq<string>) {
    && (forall i, j, key, v, w :: Field(key) && i < j && SaysAt(lines, i, key, v) ==> !SaysAt(lines, j, key, w))
    && (forall i, key, v :: Field(key) && SaysAt(lines, i, key, v) ==> Sound(key, v))
  }

  ghost predicate FileLoads(n: Node) {
    && n.File? && |n.bytes| <= 65536 && Utf8.Decode(n.bytes).Some?
    && LinesLoad(SplitLines(Utf8.Decode(n.bytes).value))
  }

  lemma SaysExact(lines: seq<string>, i: nat, key: string, value: string)
    requires Field(key)
    ensures SaysAt(lines, i, key, value) <==>
      i < |lines| && WantedAt(lines, i) && KeyAt(lines, i) == key && Properties.ValueOf(lines[i]) == value
  {
    hide Properties.KeyOf, Properties.ValueOf;
    WantedNames();
    if i < |lines| {
      Properties.PropertyLineParts(key, value);
      if '=' in lines[i] { Properties.LineIsItsParts(lines[i]); }
    }
  }

  lemma FieldRead(lines: seq<string>, all: Fields, key: string)
    requires Field(key) && ReadFrom(lines, map[], all)
    ensures forall i, v :: SaysAt(lines, i, key, v) ==> key in all && all[key] == v
    ensures key in all ==> exists i :: SaysAt(lines, i, key, all[key])
  {
    hide Wanted, Properties.KeyOf, Properties.ValueOf, SaysAt;
    forall i, v | SaysAt(lines, i, key, v) ensures key in all && all[key] == v { SaysExact(lines, i, key, v); }
    if key in all {
      var i :| 0 <= i < |lines| && WantedAt(lines, i) && KeyAt(lines, i) == key;
      SaysExact(lines, i, key, all[key]);
    }
  }

  lemma OnceExact(lines: seq<string>)
    ensures KeysOnce(lines, map[]) <==>
      forall i, j, key, v, w :: Field(key) && i < j && SaysAt(lines, i, key, v) ==> !SaysAt(lines, j, key, w)
  {
    hide Properties.KeyOf, Properties.ValueOf, SaysAt;
    forall i: nat, key, v | Field(key) ensures SaysAt(lines, i, key, v) <==>
      i < |lines| && WantedAt(lines, i) && KeyAt(lines, i) == key && Properties.ValueOf(lines[i]) == v {
      SaysExact(lines, i, key, v);
    }
    if KeysOnce(lines, map[]) {
    } else {
      var i, j :| 0 <= i < j < |lines| && WantedAt(lines, i) && WantedAt(lines, j)
                  && KeyAt(lines, i) == KeyAt(lines, j);
      assert SaysAt(lines, i, KeyAt(lines, i), Properties.ValueOf(lines[i]));
      assert SaysAt(lines, j, KeyAt(lines, j), Properties.ValueOf(lines[j]));
    }
  }

  lemma DecodedExact(raw: string, key: string, digits: nat)
    ensures Decoded(raw, key, digits).Ok? <==>
      Stated(raw) == "" || (PlainText(Stated(raw)) && (digits > 0 ==> IsHexText(Stated(raw), digits)))
    ensures Decoded(raw, key, digits).Ok? ==> Decoded(raw, key, digits).value == Stated(raw)
  {
    hide Strip, IsHexText;
  }

  lemma SoundExact(key: string, raw: string)
    requires Field(key)
    ensures var digits := if key == "PHASE" then 0 else if key == "SOURCE_SHA" then 40 else 64;
      Sound(key, raw) <==> Decoded(raw, key, digits).Ok?
                           && (key == "PHASE" ==> Stated(raw) == "" || KnownPhase(Stated(raw)))
  {
    hide Stated, IsHexText, IsSimple, KnownPhase, Phase, PlainText, Decoded;
    var digits := if key == "PHASE" then 0 else if key == "SOURCE_SHA" then 40 else 64;
    DecodedExact(raw, key, digits);
    PhaseExact(Stated(raw));
    if Phase(Stated(raw)) { PhaseIsSimple(Stated(raw)); SimpleIsPlain(Stated(raw)); }
    if IsHexText(Stated(raw), digits) && digits > 0 { HexIsSimple(Stated(raw), digits); SimpleIsPlain(Stated(raw)); }
  }

  lemma SimpleIsPlain(s: string)
    ensures IsSimple(s) <==> PlainText(s)
  {}

  // What a field of the loaded state is: what its line states, or else its default.
  ghost predicate Loaded(lines: seq<string>, key: string, default: string, value: string) {
    && (forall i, v :: SaysAt(lines, i, key, v) ==> value == if Stated(v) == "" then default else Stated(v))
    && (value == default || exists i, v :: SaysAt(lines, i, key, v))
  }

  lemma LoadedField(lines: seq<string>, all: Fields, key: string, default: string)
    requires Field(key) && ReadFrom(lines, map[], all)
    requires (key == "PHASE" && default == "START") || (key != "PHASE" && default == "")
    ensures (forall i, v :: SaysAt(lines, i, key, v) ==> Sound(key, v)) <==> Sound(key, Or(all, key, default))
    ensures var raw := Or(all, key, default);
      Loaded(lines, key, default, if Stated(raw) == "" then default else Stated(raw))
  {
    hide Sound, Stated, SaysAt, ReadFrom;
    FieldRead(lines, all, key);
    DefaultsAreSound();
  }

  lemma DefaultsAreSound()
    ensures Sound("PHASE", "START") && Stated("START") == "START" && Stated("") == ""
    ensures forall key :: Sound(key, "")
  {
    StripKeeps("START");
  }

  lemma BoundExact(lines: seq<string>, all: Fields, payload: bool, auxiliary: bool)
    requires ReadFrom(lines, map[], all)
    ensures Bound(all, payload, auxiliary).Ok? <==>
      forall i, key, v :: Field(key) && SaysAt(lines, i, key, v) ==> Sound(key, v)
    ensures Bound(all, payload, auxiliary).Ok? ==>
      var l := Bound(all, payload, auxiliary).value;
      && Loaded(lines, "PHASE", "START", l.phase) && Loaded(lines, "SOURCE_SHA", "", l.sourceSha)
      && Loaded(lines, "MODULE_SHA256", "", l.moduleSha) && Loaded(lines, "RUNTIME_DIGEST", "", l.runtimeDigest)
      && l.hasPayload == payload && l.hasAuxiliary == auxiliary && l.exists_
  {
    hide Sound, Stated, SaysAt, ReadFrom, Decoded, Loaded, KnownPhase, Or;
    LoadedField(lines, all, "PHASE", "START");
    LoadedField(lines, all, "SOURCE_SHA", "");
    LoadedField(lines, all, "MODULE_SHA256", "");
    LoadedField(lines, all, "RUNTIME_DIGEST", "");
    ReadsField("PHASE", Or(all, "PHASE", "START"), 0);
    ReadsField("SOURCE_SHA", Or(all, "SOURCE_SHA", ""), 40);
    ReadsField("MODULE_SHA256", Or(all, "MODULE_SHA256", ""), 64);
    ReadsField("RUNTIME_DIGEST", Or(all, "RUNTIME_DIGEST", ""), 64);
    StartIsKnown();
  }

  lemma ReadsField(key: string, raw: string, digits: nat)
    requires Field(key) && digits == if key == "PHASE" then 0 else if key == "SOURCE_SHA" then 40 else 64
    ensures Sound(key, raw) <==> Decoded(raw, key, digits).Ok?
                                 && (key == "PHASE" ==> Stated(raw) == "" || KnownPhase(Stated(raw)))
    ensures Decoded(raw, key, digits).Ok? ==> Decoded(raw, key, digits).value == Stated(raw)
  {
    hide Sound, Stated, Decoded, KnownPhase;
    SoundExact(key, raw);
    DecodedExact(raw, key, digits);
  }

  // A directory loads exactly if it holds files and folders alone, and its state.env, if any, is
  // a file of at most 65536 bytes of UTF-8 on whose lines every field stands at most once and
  // soundly.
  lemma LoadExact(tree: DirTree)
    ensures Load(Dir(tree)).Ok? <==>
      && (forall p :: p in tree ==> tree[p].File? || tree[p].Folder?)
      && ("state.env" in tree ==> FileLoads(tree["state.env"]))
  {
    hide Collect, Utf8.Decode, SplitLines, Bound, HasPayload, HasAuxiliary, ReadFrom, KeysOnce, Field, SaysAt, Sound;
    if "state.env" in tree && tree["state.env"].File? && Utf8.Decode(tree["state.env"].bytes).Some? {
      var lines := SplitLines(Utf8.Decode(tree["state.env"].bytes).value);
      CollectExact(lines, map[]);
      OnceExact(lines);
      if Collect(lines, map[]).Ok? {
        BoundExact(lines, Collect(lines, map[]).value, HasPayload(tree), HasAuxiliary(tree));
      }
    }
  }

  // And it loads as what those lines state, with START and empty bindings where they are silent.
  // Any file at all is payload, and any file but state.env is auxiliary.
  lemma LoadedExact(tree: DirTree)
    requires Load(Dir(tree)).Ok?
    ensures var l := Load(Dir(tree)).value;
      && l.exists_
      && (l.hasPayload <==> exists p :: p in tree && tree[p].File?)
      && (l.hasAuxiliary <==> exists p :: p in tree && tree[p].File? && p != "state.env")
      && if "state.env" !in tree then
           l.phase == "START" && l.sourceSha == "" && l.moduleSha == "" && l.runtimeDigest == ""
         else
           && FileLoads(tree["state.env"])
           && var lines := SplitLines(Utf8.Decode(tree["state.env"].bytes).value);
              && Loaded(lines, "PHASE", "START", l.phase) && Loaded(lines, "SOURCE_SHA", "", l.sourceSha)
              && Loaded(lines, "MODULE_SHA256", "", l.moduleSha) && Loaded(lines, "RUNTIME_DIGEST", "", l.runtimeDigest)
  {
    hide Collect, Utf8.Decode, SplitLines, Bound, ReadFrom, KeysOnce, Field, SaysAt, Sound, LinesLoad, Loaded;
    LoadExact(tree);
    if "state.env" in tree {
      var lines := SplitLines(Utf8.Decode(tree["state.env"].bytes).value);
      CollectExact(lines, map[]);
      BoundExact(lines, Collect(lines, map[]).value, HasPayload(tree), HasAuxiliary(tree));
    }
  }
}
