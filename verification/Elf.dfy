// `parse_elf_load_alignments` of scripts/runtime-compatibility-evidence.py: the PT_LOAD
// alignments in a bounded prefix of an ELF file (System V ABI, chapters 4 and 5), for both
// classes and both byte orders.
module Elf {
  import opened Results
  import opened Bytes

  datatype Parsed =
    | NotElf
    | UnsupportedEncoding
    | UnsupportedClass
    | Truncated
    | InvalidProgramHeaders
    | TruncatedProgramHeaders(required: Option<nat>)
    | Loaded(elfClass: nat, little: bool, alignments: seq<nat>)

  const MAGIC: seq<Byte> := [0x7F, 0x45, 0x4C, 0x46]
  const PT_LOAD := 1
  const MAX_HEADERS := 4096

  // Where one class keeps the fields the parser reads.
  datatype Layout = Layout(word: nat, phoffAt: nat, entsizeAt: nat, numAt: nat, minimum: nat, alignAt: nat)

  function LayoutOf(class64: bool): Layout {
    if class64 then Layout(8, 32, 54, 56, 56, 48) else Layout(4, 28, 42, 44, 32, 28)
  }

  function Unsigned(b: seq<Byte>, big: bool): nat { if big then FromBigEndian(b) else FromLittleEndian(b) }

  // `struct.unpack_from`: None stands for the `struct.error` of a read past the end.
  function ReadAt(raw: seq<Byte>, offset: nat, width: nat, big: bool): Option<nat> {
    if offset + width <= |raw| then Some(Unsigned(raw[offset..offset + width], big)) else None
  }

  // ---- sorted(set(...)) ----

  function InsertOnce(x: nat, s: seq<nat>): seq<nat> {
    if s == [] || x < s[0] then [x] + s else if x == s[0] then s else [s[0]] + InsertOnce(x, s[1..])
  }

  function SortedSet(s: seq<nat>): seq<nat> { if s == [] then [] else InsertOnce(s[0], SortedSet(s[1..])) }

  predicate Ascending(s: seq<nat>) { forall i, j :: 0 <= i < j < |s| ==> s[i] < s[j] }

  lemma {:induction false} InsertOnceExact(x: nat, s: seq<nat>)
    requires Ascending(s)
    ensures Ascending(InsertOnce(x, s))
    ensures forall y :: y in InsertOnce(x, s) <==> y == x || y in s
  {
    if s != [] && x > s[0] {
      var rest := InsertOnce(x, s[1..]);
      InsertOnceExact(x, s[1..]);
      assert s == [s[0]] + s[1..];
      forall j | 0 <= j < |rest| ensures s[0] < rest[j] {
        assert rest[j] in rest;
        assert rest[j] == x || rest[j] in s[1..];
      }
    }
  }

  // The result lists the members of the input once each, in ascending order.
  lemma {:induction false} SortedSetExact(s: seq<nat>)
    ensures Ascending(SortedSet(s))
    ensures forall y :: y in SortedSet(s) <==> y in s
  {
    if s != [] {
      SortedSetExact(s[1..]);
      InsertOnceExact(s[0], SortedSet(s[1..]));
      assert s == [s[0]] + s[1..];
    }
  }

  // ---- the parser ----

  // The alignments of `count` entries from `offset` on; None if a read would fall outside.
  function Alignments(raw: seq<Byte>, offset: nat, entsize: nat, count: nat, lay: Layout, big: bool): Option<seq<nat>>
    decreases count
  {
    if count == 0 then Some([])
    else
      var ptype := ReadAt(raw, offset, 4, big);
      if ptype.None? then None
      else if ptype.value != PT_LOAD then Alignments(raw, offset + entsize, entsize, count - 1, lay, big)
      else
        var align := ReadAt(raw, offset + lay.alignAt, lay.word, big);
        if align.None? then None
        else
          var rest := Alignments(raw, offset + entsize, entsize, count - 1, lay, big);
          if rest.None? then None else Some((if align.value != 0 then [align.value] else []) + rest.value)
  }

  function Headers(raw: seq<Byte>, class64: bool, big: bool, phoff: nat, entsize: nat, num: nat): Parsed {
    var lay := LayoutOf(class64);
    if entsize < lay.minimum || num > MAX_HEADERS then InvalidProgramHeaders
    else if phoff + entsize * num > |raw| then TruncatedProgramHeaders(Some(phoff + entsize * num))
    else
      var a := Alignments(raw, phoff, entsize, num, lay, big);
      if a.None? then TruncatedProgramHeaders(None)
      else Loaded(if class64 then 64 else 32, !big, SortedSet(a.value))
  }

  function Parse(raw: seq<Byte>): Parsed {
    if |raw| < 64 || raw[..4] != MAGIC then NotElf
    else if raw[5] != 1 && raw[5] != 2 then UnsupportedEncoding
    else if raw[4] != 1 && raw[4] != 2 then UnsupportedClass
    else
      var class64, big := raw[4] == 2, raw[5] == 2;
      var lay := LayoutOf(class64);
      var phoff, entsize, num := ReadAt(raw, lay.phoffAt, lay.word, big), ReadAt(raw, lay.entsizeAt, 2, big),
        ReadAt(raw, lay.numAt, 2, big);
      if phoff.None? || entsize.None? || num.None? then Truncated
      else Headers(raw, class64, big, phoff.value, entsize.value, num.value)
  }

  method UnpackFrom(raw: seq<Byte>, offset: nat, width: nat, big: bool) returns (r: Option<nat>)
    ensures r == ReadAt(raw, offset, width, big)
  {
    if offset + width > |raw| {
      return None;
    }
    return Some(Unsigned(raw[offset..offset + width], big));
  }

  lemma {:induction false} AlignmentsInside(raw: seq<Byte>, offset: nat, entsize: nat, count: nat, lay: Layout,
                                            big: bool)
    requires offset + entsize * count <= |raw| && entsize >= 4 && lay.alignAt + lay.word <= entsize
    ensures Alignments(raw, offset, entsize, count, lay, big).Some?
    decreases count
  {
    if count > 0 {
      assert entsize * count == entsize + entsize * (count - 1);
      assert entsize * (count - 1) >= 0;
      AlignmentsInside(raw, offset + entsize, entsize, count - 1, lay, big);
    }
  }

  // Neither `struct.error` handler is ever reached: a prefix long enough to be read at all
  // holds every header field, and the bound on the table holds every entry field.
  lemma NoReadOutside(raw: seq<Byte>)
    ensures Parse(raw) != Truncated && Parse(raw) != TruncatedProgramHeaders(None)
  {
    hide Alignments, Unsigned, SortedSet;
    if |raw| >= 64 {
      var class64, big := raw[4] == 2, raw[5] == 2;
      var lay := LayoutOf(class64);
      var phoff, entsize, num := ReadAt(raw, lay.phoffAt, lay.word, big), ReadAt(raw, lay.entsizeAt, 2, big),
        ReadAt(raw, lay.numAt, 2, big);
      if entsize.value >= lay.minimum && phoff.value + entsize.value * num.value <= |raw| {
        AlignmentsInside(raw, phoff.value, entsize.value, num.value, lay, big);
      }
    }
  }

  // The loop over the program headers, with both early returns of its handler.
  method ReadAlignments(raw: seq<Byte>, phoff: nat, entsize: nat, num: nat, lay: Layout,
                        big: bool) returns (r: Option<seq<nat>>)
    ensures r == Alignments(raw, phoff, entsize, num, lay, big)
  {
    hide ReadAt;
    var alignments: seq<nat> := [];
    OntoNothing(Alignments(raw, phoff, entsize, num, lay, big));
    for index := 0 to num
      invariant Alignments(raw, phoff, entsize, num, lay, big)
                == Onto(alignments, Alignments(raw, phoff + index * entsize, entsize, num - index, lay, big))
    {
      var offset := phoff + index * entsize;
      assert phoff + (index + 1) * entsize == offset + entsize;
      var ptype := UnpackFrom(raw, offset, 4, big);
      if ptype.None? {
        return None;
      }
      if ptype.value != PT_LOAD {
        continue;
      }
      var align := UnpackFrom(raw, offset + lay.alignAt, lay.word, big);
      if align.None? {
        return None;
      }
      OntoStep(alignments, align.value, Alignments(raw, offset + entsize, entsize, num - index - 1, lay, big));
      if align.value != 0 {
        alignments := alignments + [align.value];
      }
    }
    assert alignments + [] == alignments;
    return Some(alignments);
  }

  function Onto(done: seq<nat>, rest: Option<seq<nat>>): Option<seq<nat>> {
    if rest.None? then None else Some(done + rest.value)
  }

  lemma OntoNothing(rest: Option<seq<nat>>)
    ensures Onto([], rest) == rest
  {
    if rest.Some? {
      assert [] + rest.value == rest.value;
    }
  }

  lemma OntoStep(done: seq<nat>, x: nat, rest: Option<seq<nat>>)
    ensures Onto(done, Onto(if x != 0 then [x] else [], rest)) == Onto(if x != 0 then done + [x] else done, rest)
  {
    if rest.Some? {
      assert done + ([x] + rest.value) == done + [x] + rest.value;
      assert [] + rest.value == rest.value;
    }
  }

  method ParseLoadAlignments(raw: seq<Byte>) returns (r: Parsed)
    ensures r == Parse(raw)
    ensures r != Truncated && r != TruncatedProgramHeaders(None)
  {
    hide Alignments, ReadAt, SortedSet;
    NoReadOutside(raw);
    if |raw| < 64 || raw[..4] != MAGIC {
      return NotElf;
    }
    var elfClass, dataEncoding := raw[4], raw[5];
    if dataEncoding != 1 && dataEncoding != 2 {
      return UnsupportedEncoding;
    }
    if elfClass != 1 && elfClass != 2 {
      return UnsupportedClass;
    }
    var big := dataEncoding == 2;
    var lay := LayoutOf(elfClass == 2);
    if elfClass == 1 && |raw| < 52 {
      return Truncated;
    }
    var phoff := UnpackFrom(raw, lay.phoffAt, lay.word, big);
    var entsize := UnpackFrom(raw, lay.entsizeAt, 2, big);
    var num := UnpackFrom(raw, lay.numAt, 2, big);
    if phoff.None? || entsize.None? || num.None? {
      return Truncated;
    }
    if entsize.value < lay.minimum || num.value > MAX_HEADERS {
      return InvalidProgramHeaders;
    }
    var required := phoff.value + entsize.value * num.value;
    if required > |raw| {
      return TruncatedProgramHeaders(Some(required));
    }
    var alignments := ReadAlignments(raw, phoff.value, entsize.value, num.value, lay, big);
    if alignments.None? {
      return TruncatedProgramHeaders(None);
    }
    return Loaded(if elfClass == 2 then 64 else 32, dataEncoding == 1, SortedSet(alignments.value));
  }

  // ---- longer prefixes ----

  lemma ReadAtLonger(raw: seq<Byte>, longer: seq<Byte>, offset: nat, width: nat, big: bool)
    requires raw <= longer && ReadAt(raw, offset, width, big).Some?
    ensures ReadAt(longer, offset, width, big) == ReadAt(raw, offset, width, big)
  {
    assert raw[offset..offset + width] == longer[offset..offset + width];
  }

  lemma {:induction false} AlignmentsLonger(raw: seq<Byte>, longer: seq<Byte>, offset: nat, entsize: nat, count: nat,
                                            lay: Layout, big: bool)
    requires raw <= longer && Alignments(raw, offset, entsize, count, lay, big).Some?
    ensures Alignments(longer, offset, entsize, count, lay, big) == Alignments(raw, offset, entsize, count, lay, big)
    decreases count
  {
    hide ReadAt;
    if count > 0 {
      ReadAtLonger(raw, longer, offset, 4, big);
      if ReadAt(raw, offset, 4, big).value == PT_LOAD {
        ReadAtLonger(raw, longer, offset + lay.alignAt, lay.word, big);
      }
      AlignmentsLonger(raw, longer, offset + entsize, entsize, count - 1, lay, big);
    }
  }

  // The header fields of a prefix of at least 64 bytes are those of every longer prefix.
  lemma FieldsLonger(raw: seq<Byte>, longer: seq<Byte>, class64: bool, big: bool)
    requires raw <= longer && |raw| >= 64
    ensures var lay := LayoutOf(class64);
            && ReadAt(raw, lay.phoffAt, lay.word, big).Some?
               && ReadAt(raw, lay.phoffAt, lay.word, big) == ReadAt(longer, lay.phoffAt, lay.word, big)
            && ReadAt(raw, lay.entsizeAt, 2, big).Some?
               && ReadAt(raw, lay.entsizeAt, 2, big) == ReadAt(longer, lay.entsizeAt, 2, big)
            && ReadAt(raw, lay.numAt, 2, big).Some?
               && ReadAt(raw, lay.numAt, 2, big) == ReadAt(longer, lay.numAt, 2, big)
  {
    var lay := LayoutOf(class64);
    ReadAtLonger(raw, longer, lay.phoffAt, lay.word, big);
    ReadAtLonger(raw, longer, lay.entsizeAt, 2, big);
    ReadAtLonger(raw, longer, lay.numAt, 2, big);
  }

  // Prefix stability.  A verdict on 64 bytes or more is final for every longer prefix, except
  // a truncated table, which stays truncated below the reported length and loads from it on.
  lemma PrefixStable(raw: seq<Byte>, longer: seq<Byte>)
    requires raw <= longer && |raw| >= 64
    ensures !Parse(raw).TruncatedProgramHeaders? ==> Parse(longer) == Parse(raw)
    ensures Parse(raw).TruncatedProgramHeaders? ==>
              && Parse(raw).required.Some?
              && (|longer| < Parse(raw).required.value ==> Parse(longer) == Parse(raw))
              && (|longer| >= Parse(raw).required.value ==> Parse(longer).Loaded?)
  {
    hide Alignments, SortedSet, ReadAt;
    NoReadOutside(raw);
    NoReadOutside(longer);
    assert raw[..4] == longer[..4];
    var class64, big := raw[4] == 2, raw[5] == 2;
    FieldsLonger(raw, longer, class64, big);
    var lay := LayoutOf(class64);
    if Parse(raw).Loaded? {
      AlignmentsLonger(raw, longer, ReadAt(raw, lay.phoffAt, lay.word, big).value,
        ReadAt(raw, lay.entsizeAt, 2, big).value,
                       ReadAt(raw, lay.numAt, 2, big).value, lay, big);
    }
  }

  // ---- files written field by field, as chapters 4 and 5 of the System V ABI lay them out ----

  // The ELF header; everything but class, data encoding and the three program-header fields is
  // of no concern to the parser.
  datatype Header = Header(class64: bool, big: bool, identRest: seq<Byte>,
                           etype: nat, machine: nat, version: nat, entry: nat, phoff: nat, shoff: nat, flags: nat,
                           ehsize: nat, phentsize: nat, phnum: nat, shentsize: nat, shnum: nat, shstrndx: nat)

  // A program header, and whatever a larger entry size adds.
  datatype Phdr = Phdr(ptype: nat, flags: nat, offset: nat, vaddr: nat, paddr: nat, filesz: nat, memsz: nat, align: nat,
                       pad: seq<Byte>)

  // A file: header, anything up to the table, the table, anything behind it.
  datatype Image = Image(header: Header, gap: seq<Byte>, table: seq<Phdr>, rest: seq<Byte>)

  function Field(n: nat, width: nat, big: bool): (r: seq<Byte>)
    ensures |r| == width
  {
    if big then BigEndian(n, width) else LittleEndian(n, width)
  }

  // Addresses and offsets take eight bytes in 64-bit files and four in 32-bit ones.
  function Word(class64: bool): nat { if class64 then 8 else 4 }

  function Ident(h: Header): seq<Byte> {
    [0x7F, 0x45, 0x4C, 0x46, if h.class64 then 2 else 1, if h.big then 2 else 1] + h.identRest
  }

  // Up to e_entry; e_phoff follows.
  function HeaderFront(h: Header): seq<Byte> {
    Ident(h) + Field(h.etype, 2, h.big) + Field(h.machine, 2, h.big) + Field(h.version, 4, h.big)
    + Field(h.entry, Word(h.class64), h.big)
  }

  // Between e_phoff and e_phentsize.
  function HeaderMiddle(h: Header): seq<Byte> {
    Field(h.shoff, Word(h.class64), h.big) + Field(h.flags, 4, h.big) + Field(h.ehsize, 2, h.big)
  }

  // Behind e_phnum.
  function HeaderBack(h: Header): seq<Byte> {
    Field(h.shentsize, 2, h.big) + Field(h.shnum, 2, h.big) + Field(h.shstrndx, 2, h.big)
  }

  function HeaderBytes(h: Header): seq<Byte> {
    HeaderFront(h) + Field(h.phoff, Word(h.class64), h.big) + HeaderMiddle(h)
    + Field(h.phentsize, 2, h.big) + Field(h.phnum, 2, h.big) + HeaderBack(h)
  }

  predicate HeaderOk(h: Header) {
    |h.identRest| == 10 && h.phoff < Pow256(Word(h.class64)) && h.phentsize < Pow256(2) && h.phnum < Pow256(2)
  }

  // p_flags stands second in 64-bit headers and last but one in 32-bit ones.
  function PhdrBytes(p: Phdr, class64: bool, big: bool): seq<Byte> {
    if class64 then
      Field(p.ptype, 4, big) + Field(p.flags, 4, big) + Field(p.offset, 8, big) + Field(p.vaddr, 8, big)
      + Field(p.paddr, 8, big) + Field(p.filesz, 8, big) + Field(p.memsz, 8, big) + Field(p.align, 8, big) + p.pad
    else
      Field(p.ptype, 4, big) + Field(p.offset, 4, big) + Field(p.vaddr, 4, big) + Field(p.paddr, 4, big)
      + Field(p.filesz, 4, big) + Field(p.memsz, 4, big) + Field(p.flags, 4, big) + Field(p.align, 4, big) + p.pad
  }

  predicate PhdrOk(p: Phdr, class64: bool, entsize: nat) {
    && p.ptype < Pow256(4) && p.align < Pow256(Word(class64))
    && |p.pad| + (if class64 then 56 else 32) == entsize
  }

  function TableBytes(table: seq<Phdr>, class64: bool, big: bool): seq<Byte> {
    if table == [] then [] else PhdrBytes(table[0], class64, big) + TableBytes(table[1..], class64, big)
  }

  function FileBytes(f: Image): seq<Byte> {
    HeaderBytes(f.header) + f.gap + TableBytes(f.table, f.header.class64, f.header.big) + f.rest
  }

  // The header says where the table is, how large its entries are, and how many.
  predicate ImageOk(f: Image) {
    var h := f.header;
    && HeaderOk(h) && h.phoff == (if h.class64 then 64 else 52) + |f.gap|
    && h.phnum == |f.table| <= 4096
    && (if h.class64 then 56 else 32) <= h.phentsize
    && forall p :: p in f.table ==> PhdrOk(p, h.class64, h.phentsize)
  }

  // The non-zero alignments the table states for its loadable segments, those of type 1.
  function LoadAligns(table: seq<Phdr>): seq<nat> {
    if table == [] then []
    else (if table[0].ptype == 1 && table[0].align != 0 then [table[0].align] else []) + LoadAligns(table[1..])
  }

  // A read yields a number exactly when it stays within the prefix and the bytes there encode
  // that number in the byte order asked for.
  lemma ReadAtExact(raw: seq<Byte>, offset: nat, width: nat, big: bool, n: nat)
    ensures ReadAt(raw, offset, width, big) == Some(n) <==>
      && offset + width <= |raw| && n < Pow256(width)
      && raw[offset..offset + width] == Field(n, width, big)
  {
    if offset + width <= |raw| {
      var b := raw[offset..offset + width];
      if big { BigEndianBytes(b); } else { LittleEndianBytes(b); }
      if n < Pow256(width) && b == Field(n, width, big) {
        if big { BigEndianRoundTrip(n, width); } else { LittleEndianRoundTrip(n, width); }
      }
    }
  }

  lemma ReadField(raw: seq<Byte>, offset: nat, n: nat, width: nat, big: bool)
    requires offset + width <= |raw| && raw[offset..offset + width] == Field(n, width, big) && n < Pow256(width)
    ensures ReadAt(raw, offset, width, big) == Some(n)
  {
    ReadAtExact(raw, offset, width, big, n);
  }

  lemma Middle(raw: seq<Byte>, a: seq<Byte>, m: seq<Byte>, b: seq<Byte>)
    requires raw == a + m + b
    ensures raw[|a|..|a| + |m|] == m
  {}

  lemma HeaderSizes(h: Header)
    requires HeaderOk(h)
    ensures |HeaderFront(h)| == (if h.class64 then 32 else 28)
    ensures |HeaderFront(h)| + Word(h.class64) + |HeaderMiddle(h)| == (if h.class64 then 54 else 42)
    ensures |HeaderBytes(h)| == (if h.class64 then 64 else 52)
  {
    hide Field, Pow256;
  }

  // The identification and the three fields the parser reads, where it reads them.
  lemma HeaderRead(h: Header, rest: seq<Byte>)
    requires HeaderOk(h)
    ensures var lay, raw := LayoutOf(h.class64), HeaderBytes(h) + rest;
            && ReadAt(raw, lay.phoffAt, lay.word, h.big) == Some(h.phoff)
            && ReadAt(raw, lay.entsizeAt, 2, h.big) == Some(h.phentsize)
            && ReadAt(raw, lay.numAt, 2, h.big) == Some(h.phnum)
  {
    hide ReadAt, Field, HeaderFront, HeaderMiddle, HeaderBack, Pow256;
    HeaderSizes(h);
    var raw := HeaderBytes(h) + rest;
    var a, b, z := HeaderFront(h), HeaderMiddle(h), HeaderBack(h) + rest;
    var p, e, m := Field(h.phoff, Word(h.class64), h.big), Field(h.phentsize, 2, h.big), Field(h.phnum, 2, h.big);
    assert raw == a + p + b + e + m + z;
    assert raw == a + p + (b + e + m + z);
    Middle(raw, a, p, b + e + m + z);
    assert raw == (a + p + b) + e + (m + z);
    Middle(raw, a + p + b, e, m + z);
    Middle(raw, a + p + b + e, m, z);
    ReadField(raw, |a|, h.phoff, Word(h.class64), h.big);
    ReadField(raw, |a + p + b|, h.phentsize, 2, h.big);
    ReadField(raw, |a + p + b + e|, h.phnum, 2, h.big);
  }

  lemma IdentRead(h: Header, rest: seq<Byte>)
    requires HeaderOk(h)
    ensures var raw := HeaderBytes(h) + rest;
            |raw| >= 52 && raw[..4] == [0x7F, 0x45, 0x4C, 0x46]
              && raw[4] == (if h.class64 then 2 else 1) && raw[5] == (if h.big then 2 else 1)
  {
    hide Field, HeaderMiddle, HeaderBack, Ident, Pow256;
    HeaderSizes(h);
    IdentBytes(h);
    var raw, id := HeaderBytes(h) + rest, Ident(h);
    assert raw[..16] == id;
    assert raw[..4] == id[..4] && raw[4] == id[4] && raw[5] == id[5];
  }

  lemma IdentBytes(h: Header)
    requires |h.identRest| == 10
    ensures |Ident(h)| == 16 && Ident(h)[..4] == [0x7F, 0x45, 0x4C, 0x46]
    ensures Ident(h)[4] == (if h.class64 then 2 else 1) && Ident(h)[5] == (if h.big then 2 else 1)
  {}

  // Every header with whatever follows it: the verdict is read off three of its fields and the
  // length of the prefix.
  lemma VerdictExact(h: Header, rest: seq<Byte>)
    requires HeaderOk(h) && |HeaderBytes(h) + rest| >= 64
    ensures var raw, required := HeaderBytes(h) + rest, h.phoff + h.phentsize * h.phnum;
      if h.phentsize < (if h.class64 then 56 else 32) || h.phnum > 4096 then Parse(raw) == InvalidProgramHeaders
      else if required > |raw| then Parse(raw) == TruncatedProgramHeaders(Some(required))
      else Parse(raw).Loaded? && Parse(raw).elfClass == (if h.class64 then 64 else 32) && Parse(raw).little == !h.big
  {
    hide HeaderBytes, ReadAt, Alignments, SortedSet;
    var raw := HeaderBytes(h) + rest;
    IdentRead(h, rest);
    HeaderRead(h, rest);
    NoReadOutside(raw);
  }

  // The two bytes of the identification that select class and byte order, for every input.
  lemma IdentVerdict(raw: seq<Byte>)
    ensures Parse(raw) == NotElf <==> |raw| < 64 || raw[..4] != [0x7F, 0x45, 0x4C, 0x46]
    ensures Parse(raw) == UnsupportedEncoding <==>
      |raw| >= 64 && raw[..4] == [0x7F, 0x45, 0x4C, 0x46] && raw[5] !in {1, 2}
    ensures Parse(raw) == UnsupportedClass <==>
      |raw| >= 64 && raw[..4] == [0x7F, 0x45, 0x4C, 0x46] && raw[5] in {1, 2} && raw[4] !in {1, 2}
  {
    hide ReadAt, Alignments, SortedSet;
  }

  lemma SubSlice(raw: seq<Byte>, offset: nat, size: nat, i: nat, j: nat)
    requires i <= j <= size && offset + size <= |raw|
    ensures raw[offset..offset + size][i..j] == raw[offset + i..offset + j]
  {
    var a, b := raw[offset..offset + size][i..j], raw[offset + i..offset + j];
    assert forall k :: 0 <= k < |b| ==> a[k] == b[k];
  }

  lemma PhdrRead(raw: seq<Byte>, offset: nat, p: Phdr, class64: bool, big: bool, entsize: nat)
    requires PhdrOk(p, class64, entsize) && offset + entsize <= |raw|
    requires raw[offset..offset + entsize] == PhdrBytes(p, class64, big)
    ensures ReadAt(raw, offset, 4, big) == Some(p.ptype)
    ensures ReadAt(raw, offset + LayoutOf(class64).alignAt, LayoutOf(class64).word, big) == Some(p.align)
  {
    hide ReadAt, Field, Pow256, PhdrBytes;
    var lay := LayoutOf(class64);
    var one := raw[offset..offset + entsize];
    PhdrParts(p, class64, big);
    SubSlice(raw, offset, entsize, 0, 4);
    SubSlice(raw, offset, entsize, lay.alignAt, lay.alignAt + lay.word);
    ReadField(raw, offset, p.ptype, 4, big);
    ReadField(raw, offset + lay.alignAt, p.align, lay.word, big);
  }

  // Where type and alignment stand in a program header.
  lemma PhdrParts(p: Phdr, class64: bool, big: bool)
    ensures var one, at := PhdrBytes(p, class64, big), if class64 then 48 else 28;
      && |one| == (if class64 then 56 else 32) + |p.pad|
      && one[0..4] == Field(p.ptype, 4, big) && one[at..at + Word(class64)] == Field(p.align, Word(class64), big)
  {
    hide Field;
    if class64 {
      var front := Field(p.ptype, 4, big) + Field(p.flags, 4, big) + Field(p.offset, 8, big) + Field(p.vaddr, 8, big)
        + Field(p.paddr, 8, big) + Field(p.filesz, 8, big) + Field(p.memsz, 8, big);
      Middle(PhdrBytes(p, class64, big), front, Field(p.align, 8, big), p.pad);
    } else {
      var front := Field(p.ptype, 4, big) + Field(p.offset, 4, big) + Field(p.vaddr, 4, big) + Field(p.paddr, 4, big)
        + Field(p.filesz, 4, big) + Field(p.memsz, 4, big) + Field(p.flags, 4, big);
      Middle(PhdrBytes(p, class64, big), front, Field(p.align, 4, big), p.pad);
    }
  }

  lemma SplitSlice(raw: seq<Byte>, offset: nat, a: seq<Byte>, b: seq<Byte>)
    requires offset + |a + b| <= |raw| && raw[offset..offset + |a + b|] == a + b
    ensures raw[offset..offset + |a|] == a
    ensures raw[offset + |a|..offset + |a| + |b|] == b
  {
    SubSlice(raw, offset, |a + b|, 0, |a|);
    SubSlice(raw, offset, |a + b|, |a|, |a| + |b|);
    assert (a + b)[0..|a|] == a && (a + b)[|a|..|a| + |b|] == b;
  }

  lemma {:induction false} TableSize(table: seq<Phdr>, class64: bool, big: bool, entsize: nat)
    requires forall p :: p in table ==> PhdrOk(p, class64, entsize)
    ensures |TableBytes(table, class64, big)| == entsize * |table|
  {
    hide PhdrOk, PhdrBytes;
    if table != [] {
      assert table[0] in table && forall q :: q in table[1..] ==> q in table;
      PhdrSize(table[0], class64, big, entsize);
      TableSize(table[1..], class64, big, entsize);
      assert entsize * |table| == entsize + entsize * (|table| - 1);
    }
  }

  lemma {:induction false} TableRead(raw: seq<Byte>, offset: nat, table: seq<Phdr>, class64: bool, big: bool,
                                     entsize: nat)
    requires forall p :: p in table ==> PhdrOk(p, class64, entsize)
    requires offset + |TableBytes(table, class64, big)| <= |raw|
    requires raw[offset..offset + |TableBytes(table, class64, big)|] == TableBytes(table, class64, big)
    ensures Alignments(raw, offset, entsize, |table|, LayoutOf(class64), big) == Some(LoadAligns(table))
    decreases |table|
  {
    hide ReadAt, PhdrOk, PhdrBytes, LayoutOf;
    if table != [] {
      var p, rest := table[0], TableBytes(table[1..], class64, big);
      assert p in table && forall q :: q in table[1..] ==> q in table;
      PhdrSize(p, class64, big, entsize);
      SplitSlice(raw, offset, PhdrBytes(p, class64, big), rest);
      PhdrRead(raw, offset, p, class64, big, entsize);
      TableRead(raw, offset + entsize, table[1..], class64, big, entsize);
      assert [] + LoadAligns(table[1..]) == LoadAligns(table[1..]);
    }
  }

  lemma PhdrSize(p: Phdr, class64: bool, big: bool, entsize: nat)
    requires PhdrOk(p, class64, entsize)
    ensures |PhdrBytes(p, class64, big)| == entsize
  {
    hide PhdrBytes, Field;
    PhdrParts(p, class64, big);
  }

  // Where the table of a file lies.
  lemma TableAt(f: Image)
    requires ImageOk(f)
    ensures var h, raw := f.header, FileBytes(f);
            var t := TableBytes(f.table, h.class64, h.big);
            h.phoff + |t| <= |raw| && raw[h.phoff..h.phoff + |t|] == t
  {
    hide HeaderBytes, TableBytes, PhdrOk, HeaderOk;
    HeaderSizes(f.header);
    Middle(FileBytes(f), HeaderBytes(f.header) + f.gap, TableBytes(f.table, f.header.class64, f.header.big), f.rest);
  }

  // Round trip: of every file of at least 64 bytes, either class, either byte order, any entry
  // size and any other contents, the parser returns the ascending distinct non-zero alignments
  // of the loadable segments.
  lemma RoundTrip(f: Image)
    requires ImageOk(f) && |FileBytes(f)| >= 64
    ensures Parse(FileBytes(f))
      == Loaded(if f.header.class64 then 64 else 32, !f.header.big, SortedSet(LoadAligns(f.table)))
  {
    hide ReadAt, HeaderBytes, TableBytes, Alignments, SortedSet, LoadAligns, HeaderOk;
    var h := f.header;
    var behind := f.gap + TableBytes(f.table, h.class64, h.big) + f.rest;
    assert FileBytes(f) == HeaderBytes(h) + behind;
    IdentRead(h, behind);
    HeaderRead(h, behind);
    TableAt(f);
    TableSize(f.table, h.class64, h.big, h.phentsize);
    TableRead(FileBytes(f), h.phoff, f.table, h.class64, h.big, h.phentsize);
  }

  // ---- the page-size test ----

  // What the caller reads out of a verdict: no list at all counts as an empty one.
  function AlignmentsOf(parsed: Parsed): seq<nat> { if parsed.Loaded? then parsed.alignments else [] }

  // `collect_module`: None is INCONCLUSIVE.
  function PageCompatible(page: int, aligns: seq<nat>): Option<bool> {
    if page > 0 && aligns != [] then Some(forall v :: v in aligns ==> v >= page && v % page == 0) else None
  }

  // On a generated file the test says yes exactly when every loadable segment that states an
  // alignment states a multiple of the page size, and abstains when none does.
  lemma PageTestExact(f: Image, page: int)
    requires ImageOk(f) && |FileBytes(f)| >= 64 && page > 0
    ensures var stated := set p | p in f.table && p.ptype == 1 && p.align != 0 :: p.align;
            PageCompatible(page, AlignmentsOf(Parse(FileBytes(f))))
            == if stated == {} then None else Some(forall v :: v in stated ==> v % page == 0)
  {
    hide Parse, FileBytes, SortedSet, ImageOk;
    RoundTrip(f);
    var stated := set p | p in f.table && p.ptype == 1 && p.align != 0 :: p.align;
    var aligns := SortedSet(LoadAligns(f.table));
    SortedSetExact(LoadAligns(f.table));
    forall v ensures v in aligns <==> v in stated { LoadAlignsExact(f.table, v); }
    assert aligns == [] <==> stated == {} by {
      if aligns != [] { assert aligns[0] in stated; }
    }
    forall v | v in stated && v % page == 0 ensures v >= page { MultipleAtLeast(v, page); }
  }

  lemma MultipleAtLeast(v: nat, page: int)
    requires v != 0 && page > 0 && v % page == 0
    ensures v >= page
  {}

  lemma {:induction false} LoadAlignsExact(table: seq<Phdr>, v: nat)
    ensures v in LoadAligns(table) <==> exists p :: p in table && p.ptype == 1 && p.align == v && v != 0
  {
    if table != [] {
      LoadAlignsExact(table[1..], v);
      assert table == [table[0]] + table[1..];
    }
  }

  // A complete 32-bit file can be too short to be looked at: 52 header bytes and no table.
  lemma ShortElf32IsNotElf(f: Image)
    requires ImageOk(f) && |FileBytes(f)| < 64
    ensures Parse(FileBytes(f)) == NotElf && !f.header.class64 && f.table == []
  {
    hide HeaderBytes, PhdrOk, PhdrBytes, HeaderOk;
    HeaderSizes(f.header);
    if f.table != [] {
      assert f.table[0] in f.table;
      PhdrSize(f.table[0], f.header.class64, f.header.big, f.header.phentsize);
    }
  }

  function Zeros(n: nat): (r: seq<Byte>)
    ensures |r| == n
  {
    seq(n, _ => 0)
  }

  // The shortest file of them: a 32-bit header of 52 bytes, little-endian, with an empty table.
  function ShortImage(): Image {
    Image(Header(false, false, Zeros(10), 2, 40, 1, 0, 52, 0, 0, 52, 32, 0, 0, 0, 0), [], [], [])
  }

  lemma ShortImageIsNotElf()
    ensures ImageOk(ShortImage()) && |FileBytes(ShortImage())| == 52
    ensures Parse(FileBytes(ShortImage())) == NotElf
  {
    hide HeaderBytes, Zeros;
    assert Pow256(1) == 256 && Pow256(2) == 65536;
    HeaderSizes(ShortImage().header);
  }
}
