/** The RCPG container: what the writer emits, and the eager and lazy parses of it. */
module Rcpg {
  import opened Powers
  import opened Columns
  import opened AtomSection
  import opened RcpgWire

  const HEADER: nat := 16
  const DIR_ENTRY: nat := 24
  const INDEX_BLOCK: nat := 1024
  const MAX_SECTIONS: nat := 1024

  /** A serialized graph. `vectors` are the six CSR arrays, outgoing then incoming. */
  datatype GraphSection = GraphSection(
    nNodes: nat, nRels: nat, vectors: seq<seq<nat>>, labelIndex: seq<BitmapEntry>, typeIndex: seq<BitmapEntry>,
    nodeColumns: seq<RcpgWire.Column>, relColumns: seq<RcpgWire.Column>, version: Option<seq<nat>>,
    atoms: seq<seq<nat>>, existence: Option<seq<nat>>, atomIndex: Option<(nat, seq<nat>)>)

  const BLANK: GraphSection := GraphSection(0, 0, [[], [], [], [], [], []], [], [], [], [], None, [], None, None)

  datatype WriteOptions = WriteOptions(nodeColumns: bool, relColumns: bool, atomIndex: bool, existence: bool)
  datatype ParseOptions = ParseOptions(nodeColumns: bool, relColumns: bool, skipAtoms: bool)

  /** Every number fits its field. */
  ghost predicate Fits(g: GraphSection) {
    && g.nNodes < U32 && g.nRels < RcpgWire.U64 && VectorsFit(g.vectors)
    && IndexFits(g.labelIndex) && IndexFits(g.typeIndex) && ColumnsFit(g.nodeColumns) && ColumnsFit(g.relColumns)
    && (g.version.Some? ==> |g.version.value| < U32) && Indexable(g.atoms, INDEX_BLOCK)
  }

  // ---- section bodies ------------------------------------------------------------------------------------

  function MetaBody(version: Option<seq<nat>>): seq<nat> {
    if version.Some? then [1] + (LeBytes(|version.value|, 4) + version.value) else [0]
  }

  function NodesBody(g: GraphSection): seq<nat> {
    LeBytes(g.nNodes, 4) + IndexBytes(g.labelIndex)
  }

  /** The vectors, then whatever follows them. */
  function VectorsThen(vs: seq<seq<nat>>, rest: seq<nat>): seq<nat> {
    if vs == [] then rest else VecBytes(WordRows(vs[0], 4)) + VectorsThen(vs[1..], rest)
  }

  function RelsBody(g: GraphSection): seq<nat> {
    LeBytes(g.nRels, 8) + VectorsThen(g.vectors, IndexBytes(g.typeIndex))
  }

  function BodyOf(id: nat, g: GraphSection): seq<nat> {
    if id == 1 then Body(g.atoms)
    else if id == 2 then MetaBody(g.version)
    else if id == 3 then NodesBody(g)
    else if id == 4 then RelsBody(g)
    else if id == 5 then ColumnsBody(g.nodeColumns)
    else if id == 6 then ColumnsBody(g.relColumns)
    else if id == 7 then IndexBody(g.atoms, INDEX_BLOCK)
    else if g.existence.Some? then g.existence.value else []
  }

  /** What decoding one section adds. */
  function Merge(acc: GraphSection, id: nat, opts: ParseOptions, g: GraphSection): GraphSection {
    if id == 1 && !opts.skipAtoms then acc.(atoms := g.atoms)
    else if id == 2 && g.version.Some? then acc.(version := g.version)
    else if id == 3 then acc.(nNodes := g.nNodes, labelIndex := g.labelIndex)
    else if id == 4 then acc.(nRels := g.nRels, vectors := g.vectors, typeIndex := g.typeIndex)
    else if id == 5 && opts.nodeColumns then acc.(nodeColumns := g.nodeColumns)
    else if id == 6 && opts.relColumns then acc.(relColumns := g.relColumns)
    else if id == 7 then acc.(atomIndex := Some((INDEX_BLOCK, BlockStarts(g.atoms, INDEX_BLOCK))))
    else if id == 8 then acc.(existence := g.existence)
    else acc
  }

  method DecodeMeta(body: seq<nat>, acc: GraphSection, ghost g: GraphSection) returns (r: Option<GraphSection>)
    ensures Fits(g) && body == MetaBody(g.version) ==>
              r == Some(if g.version.Some? then acc.(version := g.version) else acc)
  {
    if Fits(g) && body == MetaBody(g.version) { MetaReads(body, g.version); }
    if |body| < 1 { return None; }
    if body[0] != 1 { return Some(acc); }
    var n := Length(body, 1, 1);
    if n.None? { return None; }
    return Some(acc.(version := Some(body[5..5 + n.value])));
  }

  lemma MetaReads(body: seq<nat>, version: Option<seq<nat>>)
    requires body == MetaBody(version) && (version.Some? ==> |version.value| < U32)
    ensures |body| >= 1 && (body[0] == 1 <==> version.Some?)
    ensures version.Some? ==> Length(body, 1, 1) == Some(|version.value|)
    ensures version.Some? ==> |body| == 5 + |version.value| && body[5..5 + |version.value|] == version.value
  {
    if version.Some? {
      var rest := LeBytes(|version.value|, 4) + version.value;
      AtWhole(body);
      AtSplit(body, 0, [1], rest);
      LengthReads(body, 1, |version.value|, version.value, 1);
    }
  }

  method DecodeNodes(body: seq<nat>, acc: GraphSection, ghost g: GraphSection) returns (r: Option<GraphSection>)
    ensures Fits(g) && body == NodesBody(g) ==> r == Some(acc.(nNodes := g.nNodes, labelIndex := g.labelIndex))
  {
    if Fits(g) && body == NodesBody(g) {
      AtWhole(body);
      WordThen(body, 0, g.nNodes, IndexBytes(g.labelIndex));
    }
    var n := Word(body, 0, 4);
    if n.None? { return None; }
    var index := ReadIndex(body, 4, g.labelIndex);
    if index.None? { return None; }
    return Some(acc.(nNodes := n.value, labelIndex := index.value));
  }

  method DecodeRels(body: seq<nat>, acc: GraphSection, ghost g: GraphSection) returns (r: Option<GraphSection>)
    ensures Fits(g) && body == RelsBody(g) ==>
              r == Some(acc.(nRels := g.nRels, vectors := g.vectors, typeIndex := g.typeIndex))
  {
    ghost var mine := Fits(g) && body == RelsBody(g);
    ghost var tail := IndexBytes(g.typeIndex);
    if mine { CountThen(body, g.nRels, VectorsThen(g.vectors, tail)); }
    var n := Word(body, 0, 8);
    if n.None? { return None; }
    var vectors, p := ReadVectors(body, 8, g.vectors, tail);
    if vectors.None? { return None; }
    var index := ReadIndex(body, p, g.typeIndex);
    if index.None? { return None; }
    return Some(acc.(nRels := n.value, vectors := vectors.value, typeIndex := index.value));
  }

  /** The six CSR vectors in a row. */
  method ReadVectors(b: seq<nat>, start: nat, ghost vs: seq<seq<nat>>, ghost tail: seq<nat>) returns (got: Option<seq<seq<nat>>>, p: nat)
    requires start <= |b|
    ensures p <= |b|
    ensures VectorsFit(vs) && FoundAt(b, start, VectorsThen(vs, tail)) ==> got == Some(vs) && FoundAt(b, p, tail)
  {
    ghost var mine := VectorsFit(vs) && FoundAt(b, start, VectorsThen(vs, tail));
    var out: seq<seq<nat>> := [];
    p := start;
    assert mine ==> vs[0..] == vs;
    for i := 0 to 6
      invariant p <= |b| && |out| == i && (mine ==> VectorsRead(b, vs, tail, i, p, out))
    {
      var v, q := ReadVector(b, p, vs, tail, i, out);
      if v.None? { return None, start; }
      out, p := out + [v.value], q;
    }
    assert mine ==> vs[..6] == vs && vs[6..] == [];
    return Some(out), p;
  }

  method ReadVector(b: seq<nat>, p: nat, ghost vs: seq<seq<nat>>, ghost tail: seq<nat>, ghost i: nat, ghost out: seq<seq<nat>>)
    returns (got: Option<seq<nat>>, q: nat)
    requires p <= |b|
    ensures q <= |b|
    ensures VectorsFit(vs) && i < |vs| && VectorsRead(b, vs, tail, i, p, out) ==>
              got == Some(vs[i]) && VectorsRead(b, vs, tail, i + 1, q, out + [vs[i]])
  {
    ghost var v := if i < |vs| then vs[i] else [];
    if VectorsFit(vs) && i < |vs| && VectorsRead(b, vs, tail, i, p, out) { NextVector(b, vs, tail, i, p, out); }
    got, q := ReadWords(b, p, 4, v);
    assert WordsFit(v, 4) && FoundAt(b, p, VecBytes(WordRows(v, 4))) ==> got == Some(v) && q == p + |VecBytes(WordRows(v, 4))|;
  }

  ghost predicate VectorsFit(vs: seq<seq<nat>>) {
    |vs| == 6 && forall i :: 0 <= i < 6 ==> WordsFit(vs[i], 4)
  }

  ghost predicate VectorsRead(b: seq<nat>, vs: seq<seq<nat>>, tail: seq<nat>, i: nat, p: nat, out: seq<seq<nat>>) {
    i <= |vs| && out == vs[..i] && FoundAt(b, p, VectorsThen(vs[i..], tail))
  }

  lemma CountThen(body: seq<nat>, n: nat, rest: seq<nat>)
    requires body == LeBytes(n, 8) + rest && n < RcpgWire.U64
    ensures |body| >= 8 && Word(body, 0, 8) == Some(n) && FoundAt(body, 8, rest)
  {
    AtWhole(body);
    AtSplit(body, 0, LeBytes(n, 8), rest);
    WordWidths();
    WordReads(body, 0, n, 8);
  }

  lemma NextVector(b: seq<nat>, vs: seq<seq<nat>>, tail: seq<nat>, i: nat, p: nat, out: seq<seq<nat>>)
    requires i < |vs| && VectorsRead(b, vs, tail, i, p, out)
    ensures FoundAt(b, p, VecBytes(WordRows(vs[i], 4)))
    ensures VectorsRead(b, vs, tail, i + 1, p + |VecBytes(WordRows(vs[i], 4))|, out + [vs[i]])
  {
    var v, rest := VecBytes(WordRows(vs[i], 4)), VectorsThen(vs[i + 1..], tail);
    VectorsSplit(vs, tail, i);
    AtSplit(b, p, v, rest);
  }

  lemma VectorsSplit(vs: seq<seq<nat>>, tail: seq<nat>, i: nat)
    requires i < |vs|
    ensures VectorsThen(vs[i..], tail) == VecBytes(WordRows(vs[i], 4)) + VectorsThen(vs[i + 1..], tail)
  {
    assert vs[i..][1..] == vs[i + 1..];
  }

  /** `decodeSection`: one section's fields into `acc`; unknown and unwanted ones are ignored. */
  method DecodeSection(id: nat, body: seq<nat>, opts: ParseOptions, acc: GraphSection, ghost g: GraphSection)
    returns (r: Option<GraphSection>)
    ensures Fits(g) && 1 <= id <= 8 && (id == 8 ==> g.existence.Some?) && body == BodyOf(id, g) ==>
              r == Some(Merge(acc, id, opts, g))
  {
    if id == 1 && !opts.skipAtoms {
      var atoms := DecodeAtoms(body, g.atoms);
      r := if atoms.Some? then Some(acc.(atoms := atoms.value)) else None;
    } else if id == 2 {
      r := DecodeMeta(body, acc, g);
    } else if id == 3 {
      r := DecodeNodes(body, acc, g);
    } else if id == 4 {
      r := DecodeRels(body, acc, g);
    } else if id == 5 && opts.nodeColumns {
      var cols := DecodeColumns(body, g.nodeColumns);
      r := if cols.Some? then Some(acc.(nodeColumns := cols.value)) else None;
    } else if id == 6 && opts.relColumns {
      var cols := DecodeColumns(body, g.relColumns);
      r := if cols.Some? then Some(acc.(relColumns := cols.value)) else None;
    } else if id == 7 {
      var index := DecodeAtomIndex(body, g.atoms, INDEX_BLOCK);
      r := if index.Some? then Some(acc.(atomIndex := index)) else None;
    } else if id == 8 {
      r := Some(acc.(existence := Some(body)));
    } else {
      r := Some(acc);
    }
  }

  // ---- the container ----------------------------------------------------------------------------------

  /** The sections a writer emits, in file order. */
  function Ids(g: GraphSection, opts: WriteOptions): seq<nat> {
    [1, 2, 3, 4] + (if opts.nodeColumns then [5] else []) + (if opts.relColumns then [6] else [])
    + (if opts.atomIndex then [7] else []) + (if opts.existence && g.existence.Some? then [8] else [])
  }

  /** One section as the writer gathers it. */
  datatype Section = Section(id: nat, body: seq<nat>)

  function SectionsOf(g: GraphSection, opts: WriteOptions): (secs: seq<Section>)
    ensures |secs| == |Ids(g, opts)|
    ensures forall i :: 0 <= i < |secs| ==> secs[i] == Section(Ids(g, opts)[i], BodyOf(Ids(g, opts)[i], g))
  {
    var ids := Ids(g, opts);
    seq(|ids|, i requires 0 <= i < |ids| => Section(ids[i], BodyOf(ids[i], g)))
  }

  datatype DirEntry = DirEntry(id: nat, offset: nat, length: nat)

  /** Where the bodies lie when the first starts at `start`. */
  function Directory(secs: seq<Section>, start: nat): (d: seq<DirEntry>)
    ensures |d| == |secs|
  {
    if secs == [] then []
    else [DirEntry(secs[0].id, start, |secs[0].body|)] + Directory(secs[1..], start + |secs[0].body|)
  }

  function EntryBytes(e: DirEntry): seq<nat> {
    LeBytes(e.id, 4) + (LeBytes(0, 4) + (LeBytes(e.offset, 8) + LeBytes(e.length, 8)))
  }

  function EntryRow(es: seq<DirEntry>): (rows: seq<seq<nat>>)
    ensures |rows| == |es| && forall i :: 0 <= i < |es| ==> rows[i] == EntryBytes(es[i]) && |rows[i]| == DIR_ENTRY
  {
    seq(|es|, i requires 0 <= i < |es| => EntryBytes(es[i]))
  }

  function Bodies(secs: seq<Section>): seq<nat> {
    if secs == [] then [] else secs[0].body + Bodies(secs[1..])
  }

  /** Magic, version, flags, section count, reserved. */
  function HeaderBytes(count: nat): (h: seq<nat>)
    ensures |h| == HEADER
  {
    [0x52, 0x43, 0x50, 0x47] + LeBytes(1, 2) + LeBytes(0, 2) + LeBytes(count, 4) + LeBytes(0, 4)
  }

  function FirstBody(count: nat): nat {
    HEADER + Rows(count, DIR_ENTRY)
  }

  function Container(secs: seq<Section>): seq<nat> {
    HeaderBytes(|secs|) + (Flat(EntryRow(Directory(secs, FirstBody(|secs|)))) + Bodies(secs))
  }

  function FileOf(g: GraphSection, opts: WriteOptions): seq<nat> {
    Container(SectionsOf(g, opts))
  }

  /** Sections tile the file: each starts where the one before it ends, the last ends at `end`. */
  ghost predicate Tiles(d: seq<DirEntry>, start: nat, end: nat)
    decreases |d|
  {
    if d == [] then start == end else d[0].offset == start && Tiles(d[1..], start + d[0].length, end)
  }

  lemma {:induction false} DirectoryTiles(secs: seq<Section>, start: nat)
    ensures Tiles(Directory(secs, start), start, start + |Bodies(secs)|)
  {
    if secs != [] {
      var len := |secs[0].body|;
      DirectoryTiles(secs[1..], start + len);
      assert Directory(secs, start)[1..] == Directory(secs[1..], start + len);
    }
  }

  /** Every body is where its entry says. */
  lemma {:induction false} BodyAt(secs: seq<Section>, start: nat, file: seq<nat>, i: nat)
    requires FoundAt(file, start, Bodies(secs)) && i < |secs|
    ensures var e := Directory(secs, start)[i];
            e.id == secs[i].id && e.length == |secs[i].body| && FoundAt(file, e.offset, secs[i].body)
  {
    var len := |secs[0].body|;
    AtSplit(file, start, secs[0].body, Bodies(secs[1..]));
    if i > 0 {
      BodyAt(secs[1..], start + len, file, i - 1);
      assert Directory(secs, start)[i] == Directory(secs[1..], start + len)[i - 1];
    }
  }

  /** `WriteWith`: the enabled sections encoded in order, then the container around them. */
  method WriteWith(g: GraphSection, opts: WriteOptions) returns (file: seq<nat>)
    ensures file == FileOf(g, opts)
  {
    file := Emit(SectionsOf(g, opts));
  }

  /** Header, directory with running offsets, bodies. */
  method Emit(secs: seq<Section>) returns (file: seq<nat>)
    ensures file == Container(secs)
  {
    var start := FirstBody(|secs|);
    ghost var dir := Directory(secs, start);
    var rows: seq<seq<nat>>, bodies: seq<nat>, offset: nat := [], [], start;
    for i := 0 to |secs|
      invariant Emitted(secs, dir, i, rows, bodies, offset)
    {
      var s := secs[i];
      EmittedStep(secs, dir, i, rows, bodies, offset);
      rows, bodies := rows + [EntryBytes(DirEntry(s.id, offset, |s.body|))], bodies + s.body;
      offset := offset + |s.body|;
    }
    EmittedAll(secs, dir, rows, bodies, offset);
    file := HeaderBytes(|secs|) + (Flat(rows) + bodies);
  }

  /** The writer after `i` sections: directory rows, bodies and the running offset. */
  ghost predicate Emitted(secs: seq<Section>, dir: seq<DirEntry>, i: nat,
                          rows: seq<seq<nat>>, bodies: seq<nat>, offset: nat)
  {
    && i <= |secs| == |dir| && rows == EntryRow(dir[..i]) && bodies + Bodies(secs[i..]) == Bodies(secs)
    && dir[i..] == Directory(secs[i..], offset)
  }

  lemma EmittedStep(secs: seq<Section>, dir: seq<DirEntry>, i: nat, rows: seq<seq<nat>>, bodies: seq<nat>, offset: nat)
    requires Emitted(secs, dir, i, rows, bodies, offset) && i < |secs|
    ensures var s := secs[i];
            Emitted(secs, dir, i + 1, rows + [EntryBytes(DirEntry(s.id, offset, |s.body|))], bodies + s.body, offset + |s.body|)
  {
    WriteStep(secs, dir, i, offset);
    Rejoin(bodies, secs[i].body, Bodies(secs[i + 1..]));
  }

  lemma EmittedAll(secs: seq<Section>, dir: seq<DirEntry>, rows: seq<seq<nat>>, bodies: seq<nat>, offset: nat)
    requires Emitted(secs, dir, |secs|, rows, bodies, offset)
    ensures rows == EntryRow(dir) && bodies == Bodies(secs)
  {
    assert dir[..|secs|] == dir;
    assert bodies + Bodies(secs[|secs|..]) == bodies;
  }

  lemma Rejoin(a: seq<nat>, b: seq<nat>, c: seq<nat>)
    ensures a + (b + c) == (a + b) + c
  {
  }

  lemma WriteStep(secs: seq<Section>, dir: seq<DirEntry>, i: nat, offset: nat)
    requires i < |secs| == |dir| && dir[i..] == Directory(secs[i..], offset)
    ensures dir[i] == DirEntry(secs[i].id, offset, |secs[i].body|)
    ensures dir[i + 1..] == Directory(secs[i + 1..], offset + |secs[i].body|)
    ensures Bodies(secs[i..]) == secs[i].body + Bodies(secs[i + 1..])
    ensures EntryRow(dir[..i + 1]) == EntryRow(dir[..i]) + [EntryBytes(dir[i])]
  {
    assert secs[i..][1..] == secs[i + 1..] && secs[i..][0] == secs[i];
    assert dir[i..][0] == dir[i] && dir[i..][1..] == dir[i + 1..];
  }

  // ---- parsing ----------------------------------------------------------------------------------------

  ghost predicate DirFits(dir: seq<DirEntry>) {
    && |dir| <= MAX_SECTIONS
    && forall i :: 0 <= i < |dir| ==> dir[i].id < U32 && dir[i].offset < RcpgWire.U64 && dir[i].length < RcpgWire.U64
  }

  function FrontBytes(dir: seq<DirEntry>): seq<nat> {
    HeaderBytes(|dir|) + Flat(EntryRow(dir))
  }

  /** `SectionCount`: magic and version checked, then the count. */
  function SectionCount(front: seq<nat>): Option<nat> {
    if |front| < HEADER || front[..4] != [0x52, 0x43, 0x50, 0x47] || LeValue(front[4..6]) != 1 then None
    else
      var count := LeValue(front[8..12]);
      if count > MAX_SECTIONS then None else Some(count)
  }

  lemma HeaderReads(front: seq<nat>, count: nat, rest: seq<nat>)
    requires front == HeaderBytes(count) + rest && count <= MAX_SECTIONS
    ensures SectionCount(front) == Some(count)
  {
    var h := HeaderBytes(count);
    assert front[..4] == h[..4] == [0x52, 0x43, 0x50, 0x47];
    assert front[4..6] == h[4..6] == LeBytes(1, 2);
    assert front[8..12] == h[8..12] == LeBytes(count, 4);
    WordWidths();
    assert Pow256(2) == 256 * Pow256(1);
    LeRoundTrip(1, 2);
    LeRoundTrip(count, 4);
  }

  /** `ParseDirectory`. */
  method ParseDirectory(front: seq<nat>, ghost dir: seq<DirEntry>, ghost rest: seq<nat>) returns (got: Option<seq<DirEntry>>)
    ensures DirFits(dir) && front == FrontBytes(dir) + rest ==> got == Some(dir)
  {
    ghost var mine := DirFits(dir) && front == FrontBytes(dir) + rest;
    if mine { FrontReads(front, dir, rest); }
    var count := SectionCount(front);
    if count.None? { return None; }
    got := ReadDirEntries(front, count.value, dir);
  }

  /** The entries behind the header, in a row. */
  method ReadDirEntries(front: seq<nat>, count: nat, ghost dir: seq<DirEntry>) returns (got: Option<seq<DirEntry>>)
    requires HEADER <= |front|
    ensures count == |dir| && DirRead(front, dir, 0, HEADER, []) ==> got == Some(dir)
  {
    ghost var mine := count == |dir| && DirRead(front, dir, 0, HEADER, []);
    var out: seq<DirEntry>, p: nat := [], HEADER;
    for i := 0 to count
      invariant |out| == i && p <= |front| && (mine ==> DirRead(front, dir, i, p, out))
    {
      if mine { DirReadStep(front, dir, i, p, out); }
      if |front| - p < DIR_ENTRY { return None; }
      out := out + [ReadEntry(front[p..p + DIR_ENTRY])];
      p := p + DIR_ENTRY;
    }
    assert mine ==> dir[..|dir|] == dir;
    return Some(out);
  }

  ghost predicate DirRead(front: seq<nat>, dir: seq<DirEntry>, i: nat, p: nat, out: seq<DirEntry>) {
    && DirFits(dir) && FoundAt(front, HEADER, Flat(EntryRow(dir)))
    && i <= |dir| && p == HEADER + Rows(i, DIR_ENTRY) && out == dir[..i]
  }

  lemma DirReadStep(front: seq<nat>, dir: seq<DirEntry>, i: nat, p: nat, out: seq<DirEntry>)
    requires DirRead(front, dir, i, p, out) && i < |dir|
    ensures p + DIR_ENTRY <= |front|
    ensures DirRead(front, dir, i + 1, p + DIR_ENTRY, out + [ReadEntry(front[p..p + DIR_ENTRY])])
  {
    EntryReads(front, dir, i);
    DirReadNext(front, dir, i, p, out, dir[i]);
  }

  lemma DirReadNext(front: seq<nat>, dir: seq<DirEntry>, i: nat, p: nat, out: seq<DirEntry>, e: DirEntry)
    requires DirRead(front, dir, i, p, out) && i < |dir| && e == dir[i]
    ensures DirRead(front, dir, i + 1, p + DIR_ENTRY, out + [e])
  {
    assert dir[..i + 1] == dir[..i] + [dir[i]];
  }

  /** Four fields of one directory entry, the reserved word passed over. */
  function ReadEntry(row: seq<nat>): DirEntry
    requires |row| == DIR_ENTRY
  {
    DirEntry(LeValue(row[..4]), LeValue(row[8..16]), LeValue(row[16..24]))
  }

  lemma EntryRoundTrips(e: DirEntry)
    requires e.id < U32 && e.offset < RcpgWire.U64 && e.length < RcpgWire.U64
    ensures |EntryBytes(e)| == DIR_ENTRY && ReadEntry(EntryBytes(e)) == e
  {
    var row := EntryBytes(e);
    assert row[..4] == LeBytes(e.id, 4);
    assert row[8..16] == LeBytes(e.offset, 8);
    assert row[16..24] == LeBytes(e.length, 8);
    WordWidths();
    LeRoundTrip(e.id, 4);
    LeRoundTrip(e.offset, 8);
    LeRoundTrip(e.length, 8);
  }

  lemma FrontReads(front: seq<nat>, dir: seq<DirEntry>, rest: seq<nat>)
    requires DirFits(dir) && front == FrontBytes(dir) + rest
    ensures SectionCount(front) == Some(|dir|) && FoundAt(front, HEADER, Flat(EntryRow(dir)))
  {
    var flat := Flat(EntryRow(dir));
    Rejoin(HeaderBytes(|dir|), flat, rest);
    HeaderReads(front, |dir|, flat + rest);
    AtWhole(front);
    AtSplit(front, 0, HeaderBytes(|dir|), flat + rest);
    AtSplit(front, HEADER, flat, rest);
  }

  lemma EntryReads(front: seq<nat>, dir: seq<DirEntry>, i: nat)
    requires DirFits(dir) && FoundAt(front, HEADER, Flat(EntryRow(dir))) && i < |dir|
    ensures var p := HEADER + Rows(i, DIR_ENTRY);
            p + DIR_ENTRY <= |front| && ReadEntry(front[p..p + DIR_ENTRY]) == dir[i]
  {
    FlatAt(EntryRow(dir), DIR_ENTRY, i);
    Within(front, HEADER, Flat(EntryRow(dir)), Rows(i, DIR_ENTRY), DIR_ENTRY);
    var p := HEADER + Rows(i, DIR_ENTRY);
    RowRoundTrips(front[p..p + DIR_ENTRY], dir[i]);
  }

  lemma RowRoundTrips(row: seq<nat>, e: DirEntry)
    requires row == EntryBytes(e) && e.id < U32 && e.offset < RcpgWire.U64 && e.length < RcpgWire.U64
    ensures |row| == DIR_ENTRY && ReadEntry(row) == e
  {
    EntryRoundTrips(e);
  }

  /** Sections merged in order, `keep` saying which are decoded at all. */
  function MergeAll(ids: seq<nat>, acc: GraphSection, opts: ParseOptions, g: GraphSection, lazy: bool): GraphSection {
    if ids == [] then acc
    else
      var init := MergeAll(ids[..|ids| - 1], acc, opts, g, lazy);
      var id := ids[|ids| - 1];
      if lazy && !SectionWanted(id, opts) then init else Merge(init, id, opts, g)
  }

  /** `sectionWanted`: section 8 is never asked for. */
  predicate SectionWanted(id: nat, opts: ParseOptions) {
    if id == 1 then !opts.skipAtoms
    else if id == 5 then opts.nodeColumns
    else if id == 6 then opts.relColumns
    else id == 2 || id == 3 || id == 4 || id == 7
  }

  /** The graph as far as it was written and asked for. */
  function Projected(g: GraphSection, w: WriteOptions, opts: ParseOptions): GraphSection {
    GraphSection(g.nNodes, g.nRels, g.vectors, g.labelIndex, g.typeIndex,
                 if w.nodeColumns && opts.nodeColumns then g.nodeColumns else [],
                 if w.relColumns && opts.relColumns then g.relColumns else [],
                 g.version, if opts.skipAtoms then [] else g.atoms,
                 if w.existence then g.existence else None,
                 if w.atomIndex then Some((INDEX_BLOCK, BlockStarts(g.atoms, INDEX_BLOCK))) else None)
  }

  lemma MergeOne(ids: seq<nat>, id: nat, opts: ParseOptions, g: GraphSection, lazy: bool)
    ensures MergeAll(ids + [id], BLANK, opts, g, lazy)
         == var init := MergeAll(ids, BLANK, opts, g, lazy);
            if lazy && !SectionWanted(id, opts) then init else Merge(init, id, opts, g)
  {
    assert (ids + [id])[..|ids|] == ids;
  }

  lemma MergeNext(ids: seq<nat>, i: nat, opts: ParseOptions, g: GraphSection, lazy: bool)
    requires i < |ids|
    ensures MergeAll(ids[..i + 1], BLANK, opts, g, lazy)
         == var init := MergeAll(ids[..i], BLANK, opts, g, lazy);
            if lazy && !SectionWanted(ids[i], opts) then init else Merge(init, ids[i], opts, g)
  {
    assert ids[..i + 1] == ids[..i] + [ids[i]];
    MergeOne(ids[..i], ids[i], opts, g, lazy);
  }

  /** All sections merged are the projection; a lazy parse leaves the existence set out. */
  lemma MergedIsProjected(g: GraphSection, w: WriteOptions, opts: ParseOptions, lazy: bool)
    ensures MergeAll(Ids(g, w), BLANK, opts, g, lazy)
         == if lazy then Projected(g, w, opts).(existence := None) else Projected(g, w, opts)
  {
    MergeTopology(opts, g, lazy);
    MergeColumns(g, w, opts, lazy);
    MergeIndex(g, w, opts, lazy);
    var d := ColumnIds(w) + if w.atomIndex then [7] else [];
    MergeOne(d, 8, opts, g, lazy);
    var e := d + if w.existence && g.existence.Some? then [8] else [];
    assert !(w.existence && g.existence.Some?) ==> e == d;
    assert e == Ids(g, w);
  }

  lemma MergeIndex(g: GraphSection, w: WriteOptions, opts: ParseOptions, lazy: bool)
    ensures MergeAll(ColumnIds(w) + if w.atomIndex then [7] else [], BLANK, opts, g, lazy)
         == var init := MergeAll(ColumnIds(w), BLANK, opts, g, lazy);
            if w.atomIndex then Merge(init, 7, opts, g) else init
  {
    MergeOne(ColumnIds(w), 7, opts, g, lazy);
    var more: seq<nat> := if w.atomIndex then [7] else [];
    assert !w.atomIndex ==> ColumnIds(w) + more == ColumnIds(w);
  }

  function ColumnIds(w: WriteOptions): seq<nat> {
    [1, 2, 3, 4] + (if w.nodeColumns then [5] else []) + (if w.relColumns then [6] else [])
  }

  lemma MergeColumns(g: GraphSection, w: WriteOptions, opts: ParseOptions, lazy: bool)
    ensures MergeAll(ColumnIds(w), BLANK, opts, g, lazy)
         == MergeAll([1, 2, 3, 4], BLANK, opts, g, lazy).(
              nodeColumns := if w.nodeColumns && opts.nodeColumns then g.nodeColumns else [],
              relColumns := if w.relColumns && opts.relColumns then g.relColumns else [])
  {
    MergeTopology(opts, g, lazy);
    var a := [1, 2, 3, 4];
    MergeOne(a, 5, opts, g, lazy);
    var b := a + if w.nodeColumns then [5] else [];
    assert !w.nodeColumns ==> b == a;
    MergeOne(b, 6, opts, g, lazy);
    assert ColumnIds(w) == b + if w.relColumns then [6] else [];
    assert !w.relColumns ==> ColumnIds(w) == b;
  }

  lemma MergeTopology(opts: ParseOptions, g: GraphSection, lazy: bool)
    ensures MergeAll([1, 2, 3, 4], BLANK, opts, g, lazy)
         == BLANK.(nNodes := g.nNodes, nRels := g.nRels, vectors := g.vectors, labelIndex := g.labelIndex,
                   typeIndex := g.typeIndex, version := g.version, atoms := if opts.skipAtoms then [] else g.atoms)
  {
    MergeOne([], 1, opts, g, lazy);
    MergeOne([1], 2, opts, g, lazy);
    MergeOne([1, 2], 3, opts, g, lazy);
    MergeOne([1, 2, 3], 4, opts, g, lazy);
    assert [] + [1] == [1] && [1] + [2] == [1, 2] && [1, 2] + [3] == [1, 2, 3] && [1, 2, 3] + [4] == [1, 2, 3, 4];
  }

  // ---- both parses ----------------------------------------------------------------------------------------

  /** What both parses are handed: a written file, its numbers in range. */
  ghost predicate Written(file: seq<nat>, g: GraphSection, w: WriteOptions) {
    Fits(g) && file == FileOf(g, w) && |file| < RcpgWire.U64
  }

  /** The directory of a written file. */
  ghost function DirOf(g: GraphSection, w: WriteOptions): seq<DirEntry> {
    var secs := SectionsOf(g, w);
    Directory(secs, FirstBody(|secs|))
  }

  lemma FrontOf(secs: seq<Section>)
    ensures var dir := Directory(secs, FirstBody(|secs|));
            && Container(secs) == FrontBytes(dir) + Bodies(secs) && |FrontBytes(dir)| == FirstBody(|secs|)
            && FoundAt(Container(secs), FirstBody(|secs|), Bodies(secs))
  {
    var dir := Directory(secs, FirstBody(|secs|));
    Rejoin(HeaderBytes(|secs|), Flat(EntryRow(dir)), Bodies(secs));
    FlatLen(EntryRow(dir), DIR_ENTRY);
    AtWhole(Container(secs));
    AtSplit(Container(secs), 0, FrontBytes(dir), Bodies(secs));
  }

  lemma IdsAreKnown(g: GraphSection, w: WriteOptions, i: nat)
    requires i < |Ids(g, w)|
    ensures 1 <= Ids(g, w)[i] <= 8 && (Ids(g, w)[i] == 8 ==> g.existence.Some?) && |Ids(g, w)| <= 8
  {
  }

  lemma WrittenEntry(file: seq<nat>, g: GraphSection, w: WriteOptions, i: nat)
    requires Written(file, g, w) && i < |Ids(g, w)|
    ensures var id, e := Ids(g, w)[i], DirOf(g, w)[i];
            && 1 <= id <= 8 && (id == 8 ==> g.existence.Some?)
            && e.id == id && e.offset + e.length <= |file| && file[e.offset..e.offset + e.length] == BodyOf(id, g)
  {
    var secs := SectionsOf(g, w);
    FrontOf(secs);
    IdsAreKnown(g, w, i);
    BodyAt(secs, FirstBody(|secs|), file, i);
    assert secs[i] == Section(Ids(g, w)[i], BodyOf(Ids(g, w)[i], g));
  }

  lemma WrittenDirFits(file: seq<nat>, g: GraphSection, w: WriteOptions)
    requires Written(file, g, w)
    ensures DirFits(DirOf(g, w))
  {
    forall i | 0 <= i < |DirOf(g, w)|
      ensures DirOf(g, w)[i].id < U32 && DirOf(g, w)[i].offset < RcpgWire.U64 && DirOf(g, w)[i].length < RcpgWire.U64
    {
      WrittenEntry(file, g, w, i);
      IdsAreKnown(g, w, i);
    }
    IdsAreKnown(g, w, 0);
  }

  /** One entry's body, unless a lazy parse passes over it. */
  method DecodeEntry(file: seq<nat>, e: DirEntry, opts: ParseOptions, lazy: bool, acc: GraphSection, ghost g: GraphSection)
    returns (r: Option<GraphSection>)
    ensures Fits(g) && 1 <= e.id <= 8 && (e.id == 8 ==> g.existence.Some?) && e.offset + e.length <= |file|
            && file[e.offset..e.offset + e.length] == BodyOf(e.id, g) ==>
              r == Some(if lazy && !SectionWanted(e.id, opts) then acc else Merge(acc, e.id, opts, g))
  {
    if lazy && !SectionWanted(e.id, opts) { return Some(acc); }
    if e.offset + e.length > |file| { return None; }
    r := DecodeSection(e.id, file[e.offset..e.offset + e.length], opts, acc, g);
  }

  method DecodeAt(file: seq<nat>, dir: seq<DirEntry>, i: nat, opts: ParseOptions, lazy: bool, acc: GraphSection,
                  ghost g: GraphSection, ghost w: WriteOptions)
    returns (r: Option<GraphSection>)
    requires i < |dir|
    ensures Written(file, g, w) && dir == DirOf(g, w) && acc == MergeAll(Ids(g, w)[..i], BLANK, opts, g, lazy) ==>
              r == Some(MergeAll(Ids(g, w)[..i + 1], BLANK, opts, g, lazy))
  {
    if Written(file, g, w) && dir == DirOf(g, w) {
      WrittenEntry(file, g, w, i);
      MergeNext(Ids(g, w), i, opts, g, lazy);
    }
    r := DecodeEntry(file, dir[i], opts, lazy, acc, g);
  }

  /** Each entry's body in turn; a lazy parse passes over the unwanted ones unfetched. */
  method DecodeAll(file: seq<nat>, dir: seq<DirEntry>, opts: ParseOptions, lazy: bool, ghost g: GraphSection, ghost w: WriteOptions)
    returns (r: Option<GraphSection>)
    ensures Written(file, g, w) && dir == DirOf(g, w) ==> r == Some(MergeAll(Ids(g, w), BLANK, opts, g, lazy))
  {
    ghost var mine := Written(file, g, w) && dir == DirOf(g, w);
    ghost var ids := Ids(g, w);
    var acc := BLANK;
    for i := 0 to |dir|
      invariant mine ==> acc == MergeAll(ids[..i], BLANK, opts, g, lazy)
    {
      var next := DecodeAt(file, dir, i, opts, lazy, acc, g, w);
      if next.None? { return None; }
      acc := next.value;
    }
    assert mine ==> ids[..|ids|] == ids;
    return Some(acc);
  }

  /** `ParseWith`: what was written comes back, as far as it was written and asked for. */
  method ParseWith(b: seq<nat>, opts: ParseOptions, ghost g: GraphSection, ghost w: WriteOptions)
    returns (r: Option<GraphSection>)
    ensures Written(b, g, w) ==> r == Some(Projected(g, w, opts))
  {
    if Written(b, g, w) {
      WrittenDirFits(b, g, w);
      FrontOf(SectionsOf(g, w));
      MergedIsProjected(g, w, opts, false);
    }
    var dir := ParseDirectory(b, DirOf(g, w), Bodies(SectionsOf(g, w)));
    if dir.None? { return None; }
    var acc := DecodeAll(b, dir.value, opts, false, g, w);
    if acc.None? { return None; }
    var index := acc.value.atomIndex;
    if index.Some? && !opts.skipAtoms {
      var ok := ValidateAtomIndex(index.value.0, index.value.1, acc.value.atoms);
      if !ok { return None; }
    }
    return acc;
  }

  /** `ParseLazy` over the same bytes: only the front matter and the wanted sections are fetched, and
      every field but the existence set comes back as in the eager parse. */
  method ParseLazy(file: seq<nat>, opts: ParseOptions, ghost g: GraphSection, ghost w: WriteOptions)
    returns (r: Option<GraphSection>)
    ensures Written(file, g, w) ==> r == Some(Projected(g, w, opts).(existence := None))
  {
    if Written(file, g, w) {
      WrittenDirFits(file, g, w);
      FrontSlice(file, g, w);
      MergedIsProjected(g, w, opts, true);
    }
    if |file| < HEADER { return None; }
    var count := SectionCount(file[..HEADER]);
    if count.None? || FirstBody(count.value) > |file| { return None; }
    var dir := ParseDirectory(file[..FirstBody(count.value)], DirOf(g, w), []);
    if dir.None? { return None; }
    r := DecodeAll(file, dir.value, opts, true, g, w);
  }

  lemma FrontSlice(file: seq<nat>, g: GraphSection, w: WriteOptions)
    requires Written(file, g, w)
    ensures |file| >= HEADER && SectionCount(file[..HEADER]) == Some(|Ids(g, w)|)
    ensures FirstBody(|Ids(g, w)|) <= |file| && file[..FirstBody(|Ids(g, w)|)] == FrontBytes(DirOf(g, w)) + []
  {
    var secs := SectionsOf(g, w);
    FrontOf(secs);
    IdsAreKnown(g, w, 0);
    FrontPrefixes(file, secs);
    HeaderReads(file[..HEADER], |secs|, []);
  }

  lemma FrontPrefixes(file: seq<nat>, secs: seq<Section>)
    requires file == Container(secs)
    ensures var dir := Directory(secs, FirstBody(|secs|));
            && HEADER <= FirstBody(|secs|) <= |file| && file[..HEADER] == HeaderBytes(|secs|) + []
            && file[..FirstBody(|secs|)] == FrontBytes(dir) + []
  {
    var dir := Directory(secs, FirstBody(|secs|));
    var head, flat, bodies := HeaderBytes(|secs|), Flat(EntryRow(dir)), Bodies(secs);
    FrontOf(secs);
    TakeLeft(head, flat + bodies);
    TakeLeft(FrontBytes(dir), bodies);
  }

  lemma TakeLeft(a: seq<nat>, b: seq<nat>)
    ensures (a + b)[..|a|] == a + []
  {
  }

  /** The directory of every written file tiles it: bodies follow the front matter without gap or
      overlap, to the end. */
  lemma WrittenFileTiles(g: GraphSection, w: WriteOptions)
    ensures Tiles(DirOf(g, w), FirstBody(|DirOf(g, w)|), |FileOf(g, w)|)
  {
    ContainerTiles(SectionsOf(g, w));
  }

  lemma ContainerTiles(secs: seq<Section>)
    ensures Tiles(Directory(secs, FirstBody(|secs|)), FirstBody(|secs|), |Container(secs)|)
  {
    FrontOf(secs);
    DirectoryTiles(secs, FirstBody(|secs|));
  }

  /** The same written bytes through both parses: they agree exactly when no existence set was
      written. */
  method ParseBothWays(g: GraphSection, w: WriteOptions, opts: ParseOptions)
    returns (eager: Option<GraphSection>, lazy: Option<GraphSection>)
    requires Fits(g) && |FileOf(g, w)| < RcpgWire.U64
    ensures eager == lazy <==> !(w.existence && g.existence.Some?)
  {
    var file := WriteWith(g, w);
    eager := ParseWith(file, opts, g, w);
    lazy := ParseLazy(file, opts, g, w);
  }
}
