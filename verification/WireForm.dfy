/** The bytes of an RCPG file, position by position. Nothing here is said through a decoder. */
module WireForm {
  import opened Powers
  import opened Columns
  import opened AtomSection
  import opened RcpgWire
  import opened Rcpg

  // ---- numbers ---------------------------------------------------------------------------------------------

  /** Low byte first. */
  lemma {:induction false} LittleEndian(v: nat, w: nat, k: nat)
    requires k < w
    ensures LeBytes(v, w)[k] == v / Pow256(k) % 256
  {
    if k > 0 {
      LittleEndian(v / 256, w - 1, k - 1);
      Quotients(v, Pow256(k - 1));
      assert LeBytes(v, w)[k] == LeBytes(v / 256, w - 1)[k - 1];
    }
  }

  lemma {:induction false} Quotients(v: nat, p: nat)
    requires p > 0
    ensures v / 256 / p == v / (256 * p)
  {
    var s, t := v % 256, v / 256;
    var q, r := t / p, t % p;
    assert t == p * q + r;
    Regrouped(p, q, r, s);
    QuotientIs(v, 256 * p, q, 256 * r + s);
  }

  lemma {:induction false} Regrouped(p: nat, q: nat, r: nat, s: nat)
    ensures 256 * (p * q + r) + s == (256 * p) * q + (256 * r + s)
  {
  }

  lemma {:induction false} QuotientIs(x: nat, m: nat, q: nat, r: nat)
    requires m > 0 && x == m * q + r && r < m
    ensures x / m == q
  {
    var q', r' := x / m, x % m;
    assert m * (q' - q) == r - r';
    assert q' - q >= 1 ==> m * (q' - q) >= m;
    assert q - q' >= 1 ==> m * (q - q') >= m;
  }

  // ---- fields inside fields ---------------------------------------------------------------------------------

  lemma {:induction false} Nested(b: seq<nat>, p: nat, e: seq<nat>, q: nat, x: seq<nat>)
    requires FoundAt(b, p, e) && FoundAt(e, q, x)
    ensures FoundAt(b, p + q, x)
  {
    Within(b, p, e, q, |x|);
  }

  lemma {:induction false} Leads(x: seq<nat>, y: seq<nat>)
    ensures FoundAt(x + y, 0, x) && FoundAt(x + y, |x|, y)
  {
    AtWhole(x + y);
    AtSplit(x + y, 0, x, y);
  }

  function Joined(parts: seq<seq<nat>>): seq<nat> {
    if parts == [] then [] else parts[0] + Joined(parts[1..])
  }

  /** The length of the first `i` parts together. */
  function Before(parts: seq<seq<nat>>, i: nat): nat
    requires i <= |parts|
  {
    if i == 0 then 0 else |parts[0]| + Before(parts[1..], i - 1)
  }

  lemma {:induction false} PartAt(parts: seq<seq<nat>>, b: seq<nat>, p: nat, i: nat)
    requires i < |parts| && FoundAt(b, p, Joined(parts))
    ensures FoundAt(b, p + Before(parts, i), parts[i])
  {
    AtSplit(b, p, parts[0], Joined(parts[1..]));
    if i > 0 { PartAt(parts[1..], b, p + |parts[0]|, i - 1); }
  }

  /** A vector of `w`-byte rows: its count in four bytes, row `i` at 4 + w * i. */
  lemma {:induction false} VectorForm(rows: seq<seq<nat>>, w: nat, i: nat)
    requires (forall k :: 0 <= k < |rows| ==> |rows[k]| == w) && i < |rows|
    ensures FoundAt(VecBytes(rows), 4 + w * i, rows[i])
  {
    Leads(LeBytes(|rows|, 4), Flat(rows));
    FlatAt(rows, w, i);
    RowsMultiply(i, w);
    Nested(VecBytes(rows), 4, Flat(rows), Rows(i, w), rows[i]);
  }

  lemma {:induction false} VectorSize(rows: seq<seq<nat>>, w: nat)
    requires forall k :: 0 <= k < |rows| ==> |rows[k]| == w
    ensures FoundAt(VecBytes(rows), 0, LeBytes(|rows|, 4)) && |VecBytes(rows)| == 4 + w * |rows|
  {
    Leads(LeBytes(|rows|, 4), Flat(rows));
    FlatLen(rows, w);
    RowsMultiply(|rows|, w);
  }

  // ---- property columns ----------------------------------------------------------------------------------------

  /** Element `i` of a column's data, as stored. */
  ghost predicate ElementAt(b: seq<nat>, at: nat, d: ColumnData, i: nat) {
    match d
    case DenseI64(words) => i < |words| ==> FoundAt(b, at + 8 * i, LeBytes(words[i], 8))
    case DenseF64(words) => i < |words| ==> FoundAt(b, at + 8 * i, LeBytes(words[i], 8))
    case DenseBool(bits, _) => i < |bits| ==> FoundAt(b, at + i, [bits[i]])
    case DenseStr(words) => i < |words| ==> FoundAt(b, at + 4 * i, LeBytes(words[i], 4))
    case SparseI64(es) => i < |es| ==> FoundAt(b, at + 12 * i, LeBytes(es[i].0, 4)) && FoundAt(b, at + 12 * i + 4, LeBytes(es[i].1, 8))
    case SparseF64(es) => i < |es| ==> FoundAt(b, at + 12 * i, LeBytes(es[i].0, 4)) && FoundAt(b, at + 12 * i + 4, LeBytes(es[i].1, 8))
    case SparseBool(es) => i < |es| ==> FoundAt(b, at + 5 * i, LeBytes(es[i].0, 4)) && FoundAt(b, at + 5 * i + 4, LeBytes(es[i].1, 1))
    case SparseStr(es) => i < |es| ==> FoundAt(b, at + 8 * i, LeBytes(es[i].0, 4)) && FoundAt(b, at + 8 * i + 4, LeBytes(es[i].1, 4))
  }

  /** How many elements the data's length word counts, and how many bytes the data takes behind it. */
  function Extent(d: ColumnData): (nat, nat) {
    match d
    case DenseI64(words) => (|words|, 8 * |words|)
    case DenseF64(words) => (|words|, 8 * |words|)
    case DenseBool(bits, len) => (len, |bits|)
    case DenseStr(words) => (|words|, 4 * |words|)
    case SparseI64(es) => (|es|, 12 * |es|)
    case SparseF64(es) => (|es|, 12 * |es|)
    case SparseBool(es) => (|es|, 5 * |es|)
    case SparseStr(es) => (|es|, 8 * |es|)
  }

  lemma {:induction false} WordsForm(ws: seq<nat>, w: nat, i: nat)
    ensures i < |ws| ==> FoundAt(VecBytes(WordRows(ws, w)), 4 + w * i, LeBytes(ws[i], w))
    ensures FoundAt(VecBytes(WordRows(ws, w)), 0, LeBytes(|ws|, 4)) && |VecBytes(WordRows(ws, w))| == 4 + w * |ws|
  {
    VectorSize(WordRows(ws, w), w);
    if i < |ws| { VectorForm(WordRows(ws, w), w, i); }
  }

  lemma {:induction false} EntriesForm(es: seq<(nat, nat)>, vw: nat, i: nat)
    ensures var b := VecBytes(EntryRows(es, vw));
            && (i < |es| ==> FoundAt(b, 4 + (4 + vw) * i, LeBytes(es[i].0, 4)) && FoundAt(b, 4 + (4 + vw) * i + 4, LeBytes(es[i].1, vw)))
            && FoundAt(b, 0, LeBytes(|es|, 4)) && |b| == 4 + (4 + vw) * |es|
  {
    var rows := EntryRows(es, vw);
    VectorSize(rows, 4 + vw);
    if i < |es| {
      VectorForm(rows, 4 + vw, i);
      Leads(LeBytes(es[i].0, 4), LeBytes(es[i].1, vw));
      Nested(VecBytes(rows), 4 + (4 + vw) * i, rows[i], 0, LeBytes(es[i].0, 4));
      Nested(VecBytes(rows), 4 + (4 + vw) * i, rows[i], 4, LeBytes(es[i].1, vw));
    }
  }

  lemma {:induction false} DataForm(d: ColumnData, i: nat)
    requires DataFits(d)
    ensures FoundAt(DataBytes(d), 0, LeBytes(Extent(d).0, 4)) && |DataBytes(d)| == 4 + Extent(d).1
    ensures ElementAt(DataBytes(d), 4, d, i)
  {
    if d.DenseBool? {
      BitsForm(d.bits, d.len, i);
    } else if d.DenseI64? || d.DenseF64? || d.DenseStr? {
      DenseForm(d, i);
    } else {
      SparseForm(d, i);
    }
  }

  lemma {:induction false} DenseForm(d: ColumnData, i: nat)
    requires d.DenseI64? || d.DenseF64? || d.DenseStr?
    ensures FoundAt(DataBytes(d), 0, LeBytes(Extent(d).0, 4)) && |DataBytes(d)| == 4 + Extent(d).1
    ensures ElementAt(DataBytes(d), 4, d, i)
  {
    WordsForm(d.words, if d.DenseStr? then 4 else 8, i);
  }

  lemma {:induction false} SparseForm(d: ColumnData, i: nat)
    requires d.SparseI64? || d.SparseF64? || d.SparseBool? || d.SparseStr?
    ensures FoundAt(DataBytes(d), 0, LeBytes(Extent(d).0, 4)) && |DataBytes(d)| == 4 + Extent(d).1
    ensures ElementAt(DataBytes(d), 4, d, i)
  {
    if d.SparseI64? {
      SparseWords(d, i);
    } else if d.SparseF64? {
      SparseFloats(d, i);
    } else if d.SparseBool? {
      SparseFlags(d, i);
    } else {
      SparseAtoms(d, i);
    }
  }

  lemma {:induction false} SparseWords(d: ColumnData, i: nat)
    requires d.SparseI64?
    ensures FoundAt(DataBytes(d), 0, LeBytes(Extent(d).0, 4)) && |DataBytes(d)| == 4 + Extent(d).1
    ensures ElementAt(DataBytes(d), 4, d, i)
  {
    EntriesForm(d.entries, 8, i);
  }

  lemma {:induction false} SparseFloats(d: ColumnData, i: nat)
    requires d.SparseF64?
    ensures FoundAt(DataBytes(d), 0, LeBytes(Extent(d).0, 4)) && |DataBytes(d)| == 4 + Extent(d).1
    ensures ElementAt(DataBytes(d), 4, d, i)
  {
    EntriesForm(d.entries, 8, i);
  }

  lemma {:induction false} SparseFlags(d: ColumnData, i: nat)
    requires d.SparseBool?
    ensures FoundAt(DataBytes(d), 0, LeBytes(Extent(d).0, 4)) && |DataBytes(d)| == 4 + Extent(d).1
    ensures ElementAt(DataBytes(d), 4, d, i)
  {
    EntriesForm(d.entries, 1, i);
  }

  lemma {:induction false} SparseAtoms(d: ColumnData, i: nat)
    requires d.SparseStr?
    ensures FoundAt(DataBytes(d), 0, LeBytes(Extent(d).0, 4)) && |DataBytes(d)| == 4 + Extent(d).1
    ensures ElementAt(DataBytes(d), 4, d, i)
  {
    EntriesForm(d.entries, 4, i);
  }

  lemma {:induction false} BitsForm(bits: seq<nat>, len: nat, i: nat)
    requires len + 7 < U32 && |bits| == (len + 7) / 8
    ensures WrittenBits(bits, len) == bits
    ensures i < |bits| ==> FoundAt(LeBytes(len, 4) + bits, 4 + i, [bits[i]])
    ensures FoundAt(LeBytes(len, 4) + bits, 0, LeBytes(len, 4))
  {
    BitColumnsWholeIff(len);
    Leads(LeBytes(len, 4), bits);
    if i < |bits| {
      assert FoundAt(bits, i, [bits[i]]);
      Nested(LeBytes(len, 4) + bits, 4, bits, i, [bits[i]]);
    }
  }

  /** A column: its key in four bytes, its tag, its length word, then its elements. */
  lemma {:induction false} ColumnForm(c: RcpgWire.Column, i: nat)
    requires DataFits(c.data)
    ensures var b := ColumnBytes(c);
            && |b| == 9 + Extent(c.data).1 && FoundAt(b, 0, LeBytes(c.key, 4)) && FoundAt(b, 5, LeBytes(Extent(c.data).0, 4))
            && (c.data.DenseI64? ==> b[4] == 0) && (c.data.DenseF64? ==> b[4] == 1) && (c.data.DenseBool? ==> b[4] == 2)
            && (c.data.DenseStr? ==> b[4] == 3) && (c.data.SparseI64? ==> b[4] == 4) && (c.data.SparseF64? ==> b[4] == 5)
            && (c.data.SparseBool? ==> b[4] == 6) && (c.data.SparseStr? ==> b[4] == 7)
    ensures ElementAt(ColumnBytes(c), 9, c.data, i)
  {
    var b, d := ColumnBytes(c), DataBytes(c.data);
    Leads(LeBytes(c.key, 4), [Tag(c.data)] + d);
    Leads([Tag(c.data)], d);
    Nested(b, 4, [Tag(c.data)] + d, 1, d);
    DataForm(c.data, i);
    Nested(b, 5, d, 0, LeBytes(Extent(c.data).0, 4));
    ElementNested(b, d, c.data, i);
  }

  lemma {:induction false} ElementNested(b: seq<nat>, e: seq<nat>, d: ColumnData, i: nat)
    requires FoundAt(b, 5, e) && ElementAt(e, 4, d, i)
    ensures ElementAt(b, 9, d, i)
  {
    forall q: nat, x: seq<nat> | FoundAt(e, q, x) ensures FoundAt(b, 5 + q, x) { Nested(b, 5, e, q, x); }
  }

  function ColumnBlocks(cols: seq<RcpgWire.Column>): (r: seq<seq<nat>>)
    ensures |r| == |cols| && forall i :: 0 <= i < |cols| ==> r[i] == ColumnBytes(cols[i])
  {
    seq(|cols|, i requires 0 <= i < |cols| => ColumnBytes(cols[i]))
  }

  lemma {:induction false} ListingJoins(cols: seq<RcpgWire.Column>)
    ensures Listing(cols) == Joined(ColumnBlocks(cols))
  {
    if cols != [] {
      ListingJoins(cols[1..]);
      assert ColumnBlocks(cols)[1..] == ColumnBlocks(cols[1..]);
    }
  }

  /** A column section: the count, then the columns one after another. */
  lemma {:induction false} ColumnsForm(cols: seq<RcpgWire.Column>, i: nat)
    requires i < |cols|
    ensures FoundAt(ColumnsBody(cols), 0, LeBytes(|cols|, 4))
    ensures FoundAt(ColumnsBody(cols), 4 + Before(ColumnBlocks(cols), i), ColumnBytes(cols[i]))
  {
    Leads(LeBytes(|cols|, 4), Listing(cols));
    ListingJoins(cols);
    PartAt(ColumnBlocks(cols), ColumnsBody(cols), 4, i);
  }

  // ---- the other sections ----------------------------------------------------------------------------------------

  function BitmapBlocks(es: seq<BitmapEntry>): (r: seq<seq<nat>>)
    ensures |r| == |es| && forall i :: 0 <= i < |es| ==> r[i] == BitmapBytes(es[i]) && |r[i]| == 8 + |es[i].bitmap|
  {
    seq(|es|, i requires 0 <= i < |es| => BitmapBytes(es[i]))
  }

  lemma {:induction false} BitmapsJoin(es: seq<BitmapEntry>)
    ensures BitmapList(es) == Joined(BitmapBlocks(es))
  {
    if es != [] {
      BitmapsJoin(es[1..]);
      assert BitmapBlocks(es)[1..] == BitmapBlocks(es[1..]);
    }
  }

  /** A bitmap index: the count, then for each entry its atom, its bitmap's length and the bitmap. */
  lemma {:induction false} IndexForm(es: seq<BitmapEntry>, i: nat)
    requires i < |es|
    ensures FoundAt(IndexBytes(es), 0, LeBytes(|es|, 4))
    ensures BitmapAt(IndexBytes(es), 4 + Before(BitmapBlocks(es), i), es[i].atom, es[i].bitmap)
  {
    Leads(LeBytes(|es|, 4), BitmapList(es));
    BitmapsJoin(es);
    PartAt(BitmapBlocks(es), IndexBytes(es), 4, i);
    BitmapForm(IndexBytes(es), 4 + Before(BitmapBlocks(es), i), es[i].atom, es[i].bitmap);
  }

  ghost predicate BitmapAt(b: seq<nat>, at: nat, atom: nat, bitmap: seq<nat>) {
    FoundAt(b, at, LeBytes(atom, 4)) && FoundAt(b, at + 4, LeBytes(|bitmap|, 4)) && FoundAt(b, at + 8, bitmap)
  }

  lemma {:induction false} BitmapForm(b: seq<nat>, at: nat, atom: nat, bitmap: seq<nat>)
    requires FoundAt(b, at, LeBytes(atom, 4) + (LeBytes(|bitmap|, 4) + bitmap))
    ensures BitmapAt(b, at, atom, bitmap)
  {
    AtSplit(b, at, LeBytes(atom, 4), LeBytes(|bitmap|, 4) + bitmap);
    AtSplit(b, at + 4, LeBytes(|bitmap|, 4), bitmap);
  }

  /** The vectors, and what follows them. */
  function VectorBlocks(vs: seq<seq<nat>>, tail: seq<nat>): (r: seq<seq<nat>>)
    ensures |r| == |vs| + 1 && r[|vs|] == tail
    ensures forall i :: 0 <= i < |vs| ==> r[i] == VecBytes(WordRows(vs[i], 4))
  {
    seq(|vs|, i requires 0 <= i < |vs| => VecBytes(WordRows(vs[i], 4))) + [tail]
  }

  lemma {:induction false} VectorsJoin(vs: seq<seq<nat>>, tail: seq<nat>)
    ensures VectorsThen(vs, tail) == Joined(VectorBlocks(vs, tail))
  {
    if vs != [] {
      VectorsJoin(vs[1..], tail);
      assert VectorBlocks(vs, tail)[1..] == VectorBlocks(vs[1..], tail);
    } else {
      assert Joined([tail]) == tail + Joined([]);
    }
  }

  /** The relationship section: the count in eight bytes, the vectors, then the type index. */
  lemma {:induction false} RelsForm(g: GraphSection, blocks: seq<seq<nat>>, j: nat, i: nat)
    requires blocks == VectorBlocks(g.vectors, IndexBytes(g.typeIndex)) && j < |g.vectors|
    ensures RelsFound(RelsBody(g), blocks, g.nRels, j, g.vectors[j], i)
    ensures FoundAt(RelsBody(g), 8 + Before(blocks, |g.vectors|), IndexBytes(g.typeIndex))
  {
    RelsJoined(g, blocks);
    BlocksFound(RelsBody(g), blocks, j, g.vectors[j], i);
  }

  lemma {:induction false} BlocksFound(b: seq<nat>, blocks: seq<seq<nat>>, j: nat, ws: seq<nat>, i: nat)
    requires FoundAt(b, 8, Joined(blocks)) && j < |blocks| && blocks[j] == VecBytes(WordRows(ws, 4))
    ensures WordVector(b, 8 + Before(blocks, j), ws, i) && |blocks[j]| == 4 + 4 * |ws|
    ensures FoundAt(b, 8 + Before(blocks, |blocks| - 1), blocks[|blocks| - 1])
  {
    VectorFound(b, blocks, j, ws, i);
    PartAt(blocks, b, 8, |blocks| - 1);
  }

  /** The count, and vector `j` of the blocks behind it. */
  ghost predicate RelsFound(b: seq<nat>, blocks: seq<seq<nat>>, count: nat, j: nat, ws: seq<nat>, i: nat)
    requires j < |blocks|
  {
    FoundAt(b, 0, LeBytes(count, 8)) && WordVector(b, 8 + Before(blocks, j), ws, i) && |blocks[j]| == 4 + 4 * |ws|
  }

  lemma {:induction false} RelsJoined(g: GraphSection, blocks: seq<seq<nat>>)
    requires blocks == VectorBlocks(g.vectors, IndexBytes(g.typeIndex))
    ensures FoundAt(RelsBody(g), 0, LeBytes(g.nRels, 8)) && FoundAt(RelsBody(g), 8, Joined(blocks))
  {
    VectorsJoin(g.vectors, IndexBytes(g.typeIndex));
    Leads(LeBytes(g.nRels, 8), Joined(blocks));
  }

  lemma {:induction false} VectorFound(b: seq<nat>, blocks: seq<seq<nat>>, j: nat, ws: seq<nat>, i: nat)
    requires FoundAt(b, 8, Joined(blocks)) && j < |blocks| && blocks[j] == VecBytes(WordRows(ws, 4))
    ensures WordVector(b, 8 + Before(blocks, j), ws, i) && |blocks[j]| == 4 + 4 * |ws|
  {
    PartAt(blocks, b, 8, j);
    WordsFound(b, 8 + Before(blocks, j), ws, i);
  }

  /** A count, then four-byte words. */
  ghost predicate WordVector(b: seq<nat>, at: nat, ws: seq<nat>, i: nat) {
    FoundAt(b, at, LeBytes(|ws|, 4)) && (i < |ws| ==> FoundAt(b, at + 4 + 4 * i, LeBytes(ws[i], 4)))
  }

  lemma {:induction false} WordsFound(b: seq<nat>, at: nat, ws: seq<nat>, i: nat)
    requires FoundAt(b, at, VecBytes(WordRows(ws, 4)))
    ensures WordVector(b, at, ws, i) && |VecBytes(WordRows(ws, 4))| == 4 + 4 * |ws|
  {
    var v := VecBytes(WordRows(ws, 4));
    WordsForm(ws, 4, i);
    Nested(b, at, v, 0, LeBytes(|ws|, 4));
    if i < |ws| { Nested(b, at, v, 4 + 4 * i, LeBytes(ws[i], 4)); }
  }

  /** Sections 1 to 3: the atoms, the version if there is one, and the node count before the label index. */
  lemma {:induction false} FirstSections(g: GraphSection, k: nat)
    ensures FoundAt(BodyOf(1, g), 0, LeBytes(|g.atoms|, 4))
    ensures k < |g.atoms| ==> FoundAt(BodyOf(1, g), OffsetOf(g.atoms, k), LeBytes(|g.atoms[k]|, 4) + g.atoms[k])
    ensures g.version.None? ==> BodyOf(2, g) == [0]
    ensures g.version.Some? ==> BodyOf(2, g) == [1] + LeBytes(|g.version.value|, 4) + g.version.value
    ensures FoundAt(BodyOf(3, g), 0, LeBytes(g.nNodes, 4)) && FoundAt(BodyOf(3, g), 4, IndexBytes(g.labelIndex))
  {
    Leads(LeBytes(g.nNodes, 4), IndexBytes(g.labelIndex));
    Leads(LeBytes(|g.atoms|, 4), Strings(g.atoms));
    if k < |g.atoms| { AtomFound(g.atoms, k); }
  }

  /** The relationships, node columns and relationship columns are sections 4, 5 and 6; 7 starts with
      the block length of 1024, a reserved word and the block count; 8 is the existence set. */
  lemma {:induction false} LaterSections(g: GraphSection)
    ensures BodyOf(4, g) == RelsBody(g) && BodyOf(5, g) == ColumnsBody(g.nodeColumns) && BodyOf(6, g) == ColumnsBody(g.relColumns)
    ensures FoundAt(BodyOf(7, g), 0, LeBytes(1024, 4) + [0, 0, 0, 0] + LeBytes((|g.atoms| + 1023) / 1024, 4))
    ensures g.existence.Some? ==> BodyOf(8, g) == g.existence.value
  {
    var front := LeBytes(1024, 4) + LeBytes(0, 4) + LeBytes(Blocks(|g.atoms|, 1024), 4);
    Leads(front, Words(BlockStarts(g.atoms, 1024)));
    ShortWords();
  }

  lemma {:induction false} AtomFound(atoms: seq<seq<nat>>, k: nat)
    requires k < |atoms|
    ensures FoundAt(Body(atoms), OffsetOf(atoms, k), LeBytes(|atoms[k]|, 4) + atoms[k])
  {
    AtomAt(atoms, k);
  }

  // ---- the file ---------------------------------------------------------------------------------------------------

  function BodyBlocks(secs: seq<Section>): (r: seq<seq<nat>>)
    ensures |r| == |secs| && forall i :: 0 <= i < |secs| ==> r[i] == secs[i].body
  {
    seq(|secs|, i requires 0 <= i < |secs| => secs[i].body)
  }

  lemma {:induction false} DirectoryAt(secs: seq<Section>, start: nat, i: nat)
    requires i < |secs|
    ensures Directory(secs, start)[i] == DirEntry(secs[i].id, start + Before(BodyBlocks(secs), i), |secs[i].body|)
  {
    if i > 0 {
      DirectoryAt(secs[1..], start + |secs[0].body|, i - 1);
      assert BodyBlocks(secs)[1..] == BodyBlocks(secs[1..]);
    }
  }

  /** Which sections a file has: 1 to 4 always, 5, 6 and 7 as asked for, 8 if asked for and there is one. */
  lemma {:induction false} SectionsPresent(g: GraphSection, w: WriteOptions, id: nat)
    ensures id in Ids(g, w) <==>
            || 1 <= id <= 4 || (id == 5 && w.nodeColumns) || (id == 6 && w.relColumns) || (id == 7 && w.atomIndex)
            || (id == 8 && w.existence && g.existence.Some?)
    ensures forall i, j :: 0 <= i < j < |Ids(g, w)| ==> Ids(g, w)[i] < Ids(g, w)[j]
  {
  }

  /** Sixteen bytes of header: "RCPG", version 1, no flags, the section count, a reserved word. */
  lemma {:induction false} HeaderForm(g: GraphSection, w: WriteOptions)
    ensures FoundAt(FileOf(g, w), 0, [0x52, 0x43, 0x50, 0x47, 1, 0, 0, 0] + LeBytes(|Ids(g, w)|, 4) + [0, 0, 0, 0])
  {
    HeaderFound(SectionsOf(g, w));
    HeaderSpelled(|Ids(g, w)|);
  }

  lemma {:induction false} HeaderFound(secs: seq<Section>)
    ensures FoundAt(Container(secs), 0, HeaderBytes(|secs|))
  {
    Leads(HeaderBytes(|secs|), Flat(EntryRow(Directory(secs, FirstBody(|secs|)))) + Bodies(secs));
  }

  lemma {:induction false} HeaderSpelled(count: nat)
    ensures HeaderBytes(count) == [0x52, 0x43, 0x50, 0x47, 1, 0, 0, 0] + LeBytes(count, 4) + [0, 0, 0, 0]
  {
    ShortWords();
    assert [0x52, 0x43, 0x50, 0x47] + [1, 0] + [0, 0] == [0x52, 0x43, 0x50, 0x47, 1, 0, 0, 0];
  }

  lemma {:induction false} ShortWords()
    ensures LeBytes(1, 2) == [1, 0] && LeBytes(0, 2) == [0, 0] && LeBytes(0, 4) == [0, 0, 0, 0]
  {
  }

  /** Entry `i` is twenty-four bytes at 16 + 24 * i: the section's id, a reserved word, its offset and
      its length. The section's body lies at that offset, behind the bodies before it. */
  lemma {:induction false} FileForm(g: GraphSection, w: WriteOptions, i: nat)
    requires i < |Ids(g, w)|
    ensures var start, body := 16 + 24 * |Ids(g, w)| + Before(BodyBlocks(SectionsOf(g, w)), i), BodyOf(Ids(g, w)[i], g);
            && EntryFound(FileOf(g, w), 16 + 24 * i, Ids(g, w)[i], start, |body|)
            && FoundAt(FileOf(g, w), start, body)
  {
    SectionForm(SectionsOf(g, w), i);
  }

  ghost predicate EntryFound(file: seq<nat>, at: nat, id: nat, offset: nat, length: nat) {
    && FoundAt(file, at, LeBytes(id, 4)) && FoundAt(file, at + 4, [0, 0, 0, 0])
    && FoundAt(file, at + 8, LeBytes(offset, 8)) && FoundAt(file, at + 16, LeBytes(length, 8))
  }

  lemma {:induction false} SectionForm(secs: seq<Section>, i: nat)
    requires i < |secs|
    ensures var start := 16 + 24 * |secs| + Before(BodyBlocks(secs), i);
            && EntryFound(Container(secs), 16 + 24 * i, secs[i].id, start, |secs[i].body|)
            && FoundAt(Container(secs), start, secs[i].body)
  {
    RowsMultiply(|secs|, 24);
    DirectoryAt(secs, 16 + 24 * |secs|, i);
    SectionAt(secs, Container(secs), i, Directory(secs, 16 + 24 * |secs|));
  }

  lemma {:induction false} SectionAt(secs: seq<Section>, file: seq<nat>, i: nat, dir: seq<DirEntry>)
    requires i < |secs| && file == Container(secs) && dir == Directory(secs, FirstBody(|secs|))
    ensures EntryFound(file, 16 + 24 * i, dir[i].id, dir[i].offset, dir[i].length) && FoundAt(file, dir[i].offset, secs[i].body)
  {
    SectionBody(secs, file, FirstBody(|secs|), i, dir[i]);
    EntryAt(secs, dir, i);
  }

  lemma {:induction false} SectionBody(secs: seq<Section>, file: seq<nat>, first: nat, i: nat, e: DirEntry)
    requires i < |secs| && first == FirstBody(|secs|) && file == Container(secs) && e == Directory(secs, first)[i]
    ensures FoundAt(file, e.offset, secs[i].body)
  {
    FrontOf(secs);
    BodyAt(secs, first, file, i);
  }

  lemma {:induction false} EntryAt(secs: seq<Section>, dir: seq<DirEntry>, i: nat)
    requires dir == Directory(secs, FirstBody(|secs|)) && i < |secs|
    ensures EntryFound(Container(secs), 16 + 24 * i, dir[i].id, dir[i].offset, dir[i].length)
  {
    var file, rows := Container(secs), EntryRow(dir);
    Leads(HeaderBytes(|secs|), Flat(rows) + Bodies(secs));
    AtSplit(file, 16, Flat(rows), Bodies(secs));
    FlatAt(rows, 24, i);
    RowsMultiply(i, 24);
    Nested(file, 16, Flat(rows), Rows(i, 24), EntryBytes(dir[i]));
    EntryFields(file, 16 + 24 * i, dir[i].id, dir[i].offset, dir[i].length);
  }

  lemma {:induction false} EntryFields(file: seq<nat>, at: nat, id: nat, offset: nat, length: nat)
    requires FoundAt(file, at, EntryBytes(DirEntry(id, offset, length)))
    ensures EntryFound(file, at, id, offset, length)
  {
    ShortWords();
    var last := LeBytes(offset, 8) + LeBytes(length, 8);
    AtSplit(file, at, LeBytes(id, 4), LeBytes(0, 4) + last);
    AtSplit(file, at + 4, LeBytes(0, 4), last);
    AtSplit(file, at + 8, LeBytes(offset, 8), LeBytes(length, 8));
  }
}
