/** RCPG section bodies: little-endian scalars, length-prefixed vectors, bitmap indexes and property
    columns, each decoder against its encoder. Byte strings stand for bitmaps' portable form. */
module RcpgWire {
  import opened Powers
  import opened Columns
  import opened AtomSection

  const U64: nat := 0x1_0000_0000_0000_0000

  lemma WordWidths()
    ensures Pow256(1) == 256 && Pow256(4) == U32 && Pow256(8) == U64
  {
    ByteWidths();
    assert Pow256(8) == 256 * 256 * Pow256(6);
  }

  // ---- finding bytes ------------------------------------------------------------------------------------

  /** `e` is what `b` holds from `p` on. */
  ghost predicate FoundAt(b: seq<nat>, p: nat, e: seq<nat>) {
    p + |e| <= |b| && b[p..p + |e|] == e
  }

  lemma AtSplit(b: seq<nat>, p: nat, x: seq<nat>, y: seq<nat>)
    requires FoundAt(b, p, x + y)
    ensures FoundAt(b, p, x) && FoundAt(b, p + |x|, y)
  {
    var all := b[p..p + |x| + |y|];
    assert b[p..p + |x|] == all[..|x|];
    assert b[p + |x|..p + |x| + |y|] == all[|x|..];
  }

  lemma Within(b: seq<nat>, p: nat, e: seq<nat>, at: nat, w: nat)
    requires FoundAt(b, p, e) && at + w <= |e|
    ensures p + at + w <= |b| && b[p + at..p + at + w] == e[at..at + w]
  {
    assert forall k :: 0 <= k < |e| ==> b[p..p + |e|][k] == b[p + k] == e[k];
  }

  lemma AtWhole(b: seq<nat>)
    ensures FoundAt(b, 0, b)
  {
  }

  // ---- scalars --------------------------------------------------------------------------------------------

  /** A `w`-byte little-endian integer, if that many bytes are left. */
  function Word(b: seq<nat>, p: nat, w: nat): Option<nat>
    requires p <= |b|
  {
    if |b| - p < w then None else Some(LeValue(b[p..p + w]))
  }

  lemma WordReads(b: seq<nat>, p: nat, v: nat, w: nat)
    requires FoundAt(b, p, LeBytes(v, w)) && v < Pow256(w)
    ensures p <= |b| && Word(b, p, w) == Some(v)
  {
    LeRoundTrip(v, w);
    assert b[p..p + w] == LeBytes(v, w);
  }

  /** A count whose elements of at least `size` bytes could still fit. */
  function Length(b: seq<nat>, p: nat, size: nat): Option<nat>
    requires p <= |b|
  {
    var n := Word(b, p, 4);
    if n.None? || n.value * size > |b| - p - 4 then None else n
  }

  /** A count read off in front of what it counts. */
  lemma LengthReads(b: seq<nat>, p: nat, n: nat, rest: seq<nat>, size: nat)
    requires FoundAt(b, p, LeBytes(n, 4) + rest) && n < U32 && n * size <= |rest|
    ensures p <= |b| && Length(b, p, size) == Some(n) && FoundAt(b, p + 4, rest)
  {
    AtSplit(b, p, LeBytes(n, 4), rest);
    WordWidths();
    WordReads(b, p, n, 4);
  }

  /** A 32-bit word read off in front of the rest. */
  lemma WordThen(b: seq<nat>, p: nat, v: nat, rest: seq<nat>)
    requires FoundAt(b, p, LeBytes(v, 4) + rest) && v < U32
    ensures p + 4 <= |b| && Word(b, p, 4) == Some(v) && FoundAt(b, p + 4, rest)
  {
    AtSplit(b, p, LeBytes(v, 4), rest);
    WordWidths();
    WordReads(b, p, v, 4);
  }

  // ---- fixed-width vectors ------------------------------------------------------------------------------

  /** A count, then the rows end to end. */
  function VecBytes(rows: seq<seq<nat>>): seq<nat> {
    LeBytes(|rows|, 4) + Flat(rows)
  }

  ghost predicate EvenRows(rows: seq<seq<nat>>, w: nat) {
    |rows| < U32 && forall i :: 0 <= i < |rows| ==> |rows[i]| == w
  }

  /** The rows of a vector at `p`, and where it ends. */
  method ReadRows(b: seq<nat>, p: nat, w: nat, ghost rows: seq<seq<nat>>) returns (got: Option<seq<seq<nat>>>, end: nat)
    requires p <= |b|
    ensures end <= |b|
    ensures got.Some? ==> forall i :: 0 <= i < |got.value| ==> |got.value[i]| == w
    ensures EvenRows(rows, w) && FoundAt(b, p, VecBytes(rows)) ==> got == Some(rows) && end == p + |VecBytes(rows)|
  {
    ghost var mine := EvenRows(rows, w) && FoundAt(b, p, VecBytes(rows));
    if mine { VecReads(b, p, w, rows); }
    var n := Length(b, p, w);
    if n.None? { return None, p; }
    var out: seq<seq<nat>>, q := [], p + 4;
    RowsMultiply(n.value, w);
    for i := 0 to n.value
      invariant |out| == i && q == p + 4 + Rows(i, w) && (forall k :: 0 <= k < i ==> |out[k]| == w)
      invariant mine ==> out == rows[..i]
    {
      RowsAscend(i, n.value, w);
      if mine { RowReads(b, p, w, rows, i); }
      out := out + [b[q..q + w]];
      q := q + w;
    }
    assert mine ==> rows[..n.value] == rows;
    return Some(out), q;
  }

  lemma VecReads(b: seq<nat>, p: nat, w: nat, rows: seq<seq<nat>>)
    requires EvenRows(rows, w) && FoundAt(b, p, VecBytes(rows))
    ensures p <= |b| && Length(b, p, w) == Some(|rows|) && FoundAt(b, p + 4, Flat(rows))
    ensures |VecBytes(rows)| == 4 + Rows(|rows|, w)
  {
    FlatLen(rows, w);
    RowsMultiply(|rows|, w);
    LengthReads(b, p, |rows|, Flat(rows), w);
  }

  lemma RowReads(b: seq<nat>, p: nat, w: nat, rows: seq<seq<nat>>, i: nat)
    requires EvenRows(rows, w) && FoundAt(b, p, VecBytes(rows)) && i < |rows|
    ensures p + 4 + Rows(i, w) + w <= |b| && b[p + 4 + Rows(i, w)..p + 4 + Rows(i, w) + w] == rows[i]
  {
    VecReads(b, p, w, rows);
    FlatAt(rows, w, i);
    Within(b, p + 4, Flat(rows), Rows(i, w), w);
  }

  lemma {:induction false} RowsAscend(i: nat, n: nat, w: nat)
    requires i < n
    ensures Rows(i, w) + w <= Rows(n, w)
  {
    if i < n - 1 { RowsAscend(i, n - 1, w); }
  }

  // ---- words as rows ------------------------------------------------------------------------------------

  function WordRows(ws: seq<nat>, w: nat): (rows: seq<seq<nat>>)
    ensures |rows| == |ws| && forall i :: 0 <= i < |ws| ==> rows[i] == LeBytes(ws[i], w) && |rows[i]| == w
  {
    seq(|ws|, i requires 0 <= i < |ws| => LeBytes(ws[i], w))
  }

  ghost predicate WordsFit(ws: seq<nat>, w: nat) {
    |ws| < U32 && forall i :: 0 <= i < |ws| ==> ws[i] < Pow256(w)
  }

  /** `u32Vec` and the 64-bit vectors. */
  method ReadWords(b: seq<nat>, p: nat, w: nat, ghost ws: seq<nat>) returns (got: Option<seq<nat>>, end: nat)
    requires p <= |b|
    ensures end <= |b|
    ensures WordsFit(ws, w) && FoundAt(b, p, VecBytes(WordRows(ws, w))) ==>
              got == Some(ws) && end == p + |VecBytes(WordRows(ws, w))|
  {
    ghost var mine := WordsFit(ws, w) && FoundAt(b, p, VecBytes(WordRows(ws, w)));
    var rows, q := ReadRows(b, p, w, WordRows(ws, w));
    if rows.None? { return None, p; }
    var out: seq<nat> := [];
    for i := 0 to |rows.value|
      invariant |out| == i && (mine ==> out == ws[..i])
    {
      if mine { LeRoundTrip(ws[i], w); }
      out := out + [LeValue(rows.value[i])];
    }
    assert mine ==> ws[..|ws|] == ws;
    return Some(out), q;
  }

  // ---- property columns --------------------------------------------------------------------------------

  /** The eight stored column forms. Integers are two's-complement words, floats their bits. */
  datatype ColumnData =
    | DenseI64(words: seq<nat>)
    | DenseF64(words: seq<nat>)
    | DenseBool(bits: seq<nat>, len: nat)
    | DenseStr(words: seq<nat>)
    | SparseI64(entries: seq<(nat, nat)>)
    | SparseF64(entries: seq<(nat, nat)>)
    | SparseBool(entries: seq<(nat, nat)>)
    | SparseStr(entries: seq<(nat, nat)>)

  function Tag(d: ColumnData): nat {
    match d
    case DenseI64(_) => 0
    case DenseF64(_) => 1
    case DenseBool(_, _) => 2
    case DenseStr(_) => 3
    case SparseI64(_) => 4
    case SparseF64(_) => 5
    case SparseBool(_) => 6
    case SparseStr(_) => 7
  }

  /** The width of a sparse entry's value. */
  function ValueWidth(tag: nat): nat {
    if tag == 6 then 1 else if tag == 7 then 4 else 8
  }

  function EntryRows(es: seq<(nat, nat)>, vw: nat): (rows: seq<seq<nat>>)
    ensures |rows| == |es|
    ensures forall i :: 0 <= i < |es| ==> rows[i] == LeBytes(es[i].0, 4) + LeBytes(es[i].1, vw) && |rows[i]| == 4 + vw
  {
    seq(|es|, i requires 0 <= i < |es| => LeBytes(es[i].0, 4) + LeBytes(es[i].1, vw))
  }

  /** How many bytes of a bit column the writer emits: the sum is taken in 32 bits. */
  function WrittenBytes(len: nat): nat {
    (len + 7) % U32 / 8
  }

  function WrittenBits(bits: seq<nat>, len: nat): seq<nat> {
    if WrittenBytes(len) <= |bits| then bits[..WrittenBytes(len)] else bits
  }

  /** The reader takes the sum in 64 bits, so the two agree exactly while it does not wrap. */
  lemma BitColumnsWholeIff(len: nat)
    requires len < U32
    ensures WrittenBytes(len) == (len + 7) / 8 <==> len + 7 < U32
    ensures len + 7 >= U32 ==> WrittenBytes(len) == 0
  {
    if len + 7 >= U32 { assert (len + 7) % U32 == len + 7 - U32; }
  }

  function DataBytes(d: ColumnData): seq<nat> {
    match d
    case DenseI64(words) => VecBytes(WordRows(words, 8))
    case DenseF64(words) => VecBytes(WordRows(words, 8))
    case DenseBool(bits, len) => LeBytes(len, 4) + WrittenBits(bits, len)
    case DenseStr(words) => VecBytes(WordRows(words, 4))
    case SparseI64(entries) => VecBytes(EntryRows(entries, 8))
    case SparseF64(entries) => VecBytes(EntryRows(entries, 8))
    case SparseBool(entries) => VecBytes(EntryRows(entries, 1))
    case SparseStr(entries) => VecBytes(EntryRows(entries, 4))
  }

  ghost predicate EntriesFit(es: seq<(nat, nat)>, vw: nat) {
    |es| < U32 && forall i :: 0 <= i < |es| ==> es[i].0 < U32 && es[i].1 < Pow256(vw)
  }

  /** Everything in range, sparse booleans 0 or 1, and a bit column's bytes exactly its length, which
      is short enough to be written whole. */
  ghost predicate DataFits(d: ColumnData) {
    match d
    case DenseI64(words) => WordsFit(words, 8)
    case DenseF64(words) => WordsFit(words, 8)
    case DenseBool(bits, len) => len + 7 < U32 && |bits| == (len + 7) / 8
    case DenseStr(words) => WordsFit(words, 4)
    case SparseI64(entries) => EntriesFit(entries, 8)
    case SparseF64(entries) => EntriesFit(entries, 8)
    case SparseBool(entries) => EntriesFit(entries, 1) && forall i :: 0 <= i < |entries| ==> entries[i].1 <= 1
    case SparseStr(entries) => EntriesFit(entries, 4)
  }

  method ReadEntries(b: seq<nat>, p: nat, vw: nat, ghost es: seq<(nat, nat)>) returns (got: Option<seq<(nat, nat)>>, end: nat)
    requires p <= |b|
    ensures end <= |b|
    ensures EntriesFit(es, vw) && FoundAt(b, p, VecBytes(EntryRows(es, vw))) ==>
              got == Some(es) && end == p + |VecBytes(EntryRows(es, vw))|
  {
    ghost var mine := EntriesFit(es, vw) && FoundAt(b, p, VecBytes(EntryRows(es, vw)));
    var rows, q := ReadRows(b, p, 4 + vw, EntryRows(es, vw));
    if rows.None? { return None, p; }
    var out: seq<(nat, nat)> := [];
    for i := 0 to |rows.value|
      invariant |out| == i && (mine ==> out == es[..i])
    {
      var row := rows.value[i];
      if mine { EntryReads(es[i], vw, row); }
      out := out + [(LeValue(row[..4]), LeValue(row[4..]))];
    }
    assert mine ==> es[..|es|] == es;
    return Some(out), q;
  }

  lemma EntryReads(e: (nat, nat), vw: nat, row: seq<nat>)
    requires e.0 < U32 && e.1 < Pow256(vw) && row == LeBytes(e.0, 4) + LeBytes(e.1, vw)
    ensures LeValue(row[..4]) == e.0 && LeValue(row[4..]) == e.1
  {
    assert row[..4] == LeBytes(e.0, 4) && row[4..] == LeBytes(e.1, vw);
    WordWidths();
    LeRoundTrip(e.0, 4);
    LeRoundTrip(e.1, vw);
  }

  function Flags(es: seq<(nat, nat)>): (r: seq<(nat, nat)>)
    ensures |r| == |es| && forall i :: 0 <= i < |es| ==> r[i] == (es[i].0, if es[i].1 != 0 then 1 else 0)
  {
    seq(|es|, i requires 0 <= i < |es| => (es[i].0, if es[i].1 != 0 then 1 else 0))
  }

  /** `decodeColumnData`. */
  method ReadData(b: seq<nat>, p: nat, tag: nat, ghost d: ColumnData) returns (got: Option<ColumnData>, end: nat)
    requires p <= |b|
    ensures end <= |b|
    ensures DataFits(d) && tag == Tag(d) && FoundAt(b, p, DataBytes(d)) ==> got == Some(d) && end == p + |DataBytes(d)|
    ensures tag == 2 && got.Some? ==> BitsLeft(b, p)
  {
    ghost var mine := DataFits(d) && tag == Tag(d) && FoundAt(b, p, DataBytes(d));
    if tag == 2 {
      got, end := ReadBits(b, p, if mine then d.bits else [], if mine then d.len else 0);
    } else if tag <= 3 {
      var ws, q := ReadWords(b, p, if tag == 3 then 4 else 8, if mine then d.words else []);
      if ws.None? { return None, p; }
      got := Some(if tag == 0 then DenseI64(ws.value) else if tag == 1 then DenseF64(ws.value) else DenseStr(ws.value));
      end := q;
    } else if tag <= 7 {
      var es, q := ReadEntries(b, p, ValueWidth(tag), if mine then d.entries else []);
      if es.None? { return None, p; }
      if mine && tag == 6 { assert Flags(es.value) == es.value; }
      got := Some(if tag == 4 then SparseI64(es.value) else if tag == 5 then SparseF64(es.value)
                  else if tag == 6 then SparseBool(Flags(es.value)) else SparseStr(es.value));
      end := q;
    } else {
      return None, p;
    }
  }

  /** The bit count is there, and as many bytes as it calls for. */
  predicate BitsLeft(b: seq<nat>, p: nat)
    requires p <= |b|
  {
    var n := Word(b, p, 4);
    n.Some? && (n.value + 7) / 8 <= |b| - p - 4
  }

  method ReadBits(b: seq<nat>, p: nat, ghost bits: seq<nat>, ghost len: nat) returns (got: Option<ColumnData>, end: nat)
    requires p <= |b|
    ensures end <= |b|
    ensures len + 7 < U32 && |bits| == (len + 7) / 8 && FoundAt(b, p, LeBytes(len, 4) + WrittenBits(bits, len)) ==>
              got == Some(DenseBool(bits, len)) && end == p + 4 + |bits|
    ensures got.Some? ==> BitsLeft(b, p)
  {
    if len + 7 < U32 && |bits| == (len + 7) / 8 && FoundAt(b, p, LeBytes(len, 4) + WrittenBits(bits, len)) {
      BitColumnsWholeIff(len);
      assert WrittenBits(bits, len) == bits;
      WordThen(b, p, len, bits);
    }
    var n := Word(b, p, 4);
    if n.None? { return None, p; }
    var size := (n.value + 7) / 8;
    if |b| - p - 4 < size { return None, p; }
    return Some(DenseBool(b[p + 4..p + 4 + size], n.value)), p + 4 + size;
  }

  /** A bit column written and read back: it comes back exactly when its length is below 2^32 - 7.
      From there on the writer emits no bits at all and the reader refuses. */
  method ReadBackBits(bits: seq<nat>, len: nat) returns (got: Option<ColumnData>)
    requires len < U32 && |bits| == (len + 7) / 8
    ensures got == Some(DenseBool(bits, len)) <==> len < U32 - 7
    ensures len >= U32 - 7 ==> got == None
  {
    var d := DenseBool(bits, len);
    var b := DataBytes(d);
    AtWhole(b);
    BitColumnsWholeIff(len);
    WordThen(b, 0, len, WrittenBits(bits, len));
    var end;
    got, end := ReadData(b, 0, 2, d);
  }

  datatype Column = Column(key: nat, data: ColumnData)

  function ColumnBytes(c: Column): seq<nat> {
    LeBytes(c.key, 4) + ([Tag(c.data)] + DataBytes(c.data))
  }

  function Listing(cols: seq<Column>): seq<nat> {
    if cols == [] then [] else ColumnBytes(cols[0]) + Listing(cols[1..])
  }

  /** A column section's body. */
  function ColumnsBody(cols: seq<Column>): seq<nat> {
    LeBytes(|cols|, 4) + Listing(cols)
  }

  ghost predicate ColumnsFit(cols: seq<Column>) {
    |cols| < U32 && forall i :: 0 <= i < |cols| ==> cols[i].key < U32 && DataFits(cols[i].data)
  }

  lemma {:induction false} ListingLength(cols: seq<Column>)
    ensures |Listing(cols)| >= 5 * |cols|
  {
    if cols != [] { ListingLength(cols[1..]); }
  }

  lemma ColumnReads(b: seq<nat>, p: nat, c: Column)
    requires FoundAt(b, p, ColumnBytes(c)) && c.key < U32
    ensures p + 5 <= |b| && Word(b, p, 4) == Some(c.key) && b[p + 4] == Tag(c.data)
    ensures FoundAt(b, p + 5, DataBytes(c.data)) && |ColumnBytes(c)| == 5 + |DataBytes(c.data)|
  {
    WordThen(b, p, c.key, [Tag(c.data)] + DataBytes(c.data));
    TagThen(b, p + 4, Tag(c.data), DataBytes(c.data));
  }

  lemma TagThen(b: seq<nat>, p: nat, tag: nat, rest: seq<nat>)
    requires FoundAt(b, p, [tag] + rest)
    ensures p < |b| && b[p] == tag && FoundAt(b, p + 1, rest)
  {
    AtSplit(b, p, [tag], rest);
    assert b[p..p + 1][0] == b[p];
  }

  /** `decodeColumns`. */
  method DecodeColumns(body: seq<nat>, ghost cols: seq<Column>) returns (got: Option<seq<Column>>)
    ensures ColumnsFit(cols) && body == ColumnsBody(cols) ==> got == Some(cols)
  {
    if ColumnsFit(cols) && body == ColumnsBody(cols) {
      AtWhole(body);
      ListingLength(cols);
      LengthReads(body, 0, |cols|, Listing(cols), 5);
      assert cols[0..] == cols;
    }
    var count := Length(body, 0, 5);
    if count.None? { return None; }
    got := ReadColumns(body, 4, count.value, cols);
  }

  method ReadColumns(b: seq<nat>, start: nat, count: nat, ghost cols: seq<Column>) returns (got: Option<seq<Column>>)
    requires start <= |b|
    ensures ColumnsFit(cols) && count == |cols| && FoundAt(b, start, Listing(cols)) ==> got == Some(cols)
  {
    ghost var mine := ColumnsFit(cols) && count == |cols| && FoundAt(b, start, Listing(cols));
    assert mine ==> cols[0..] == cols;
    var out: seq<Column>, p: nat := [], start;
    for i := 0 to count
      invariant p <= |b| && |out| == i && (mine ==> ColumnsRead(b, cols, i, p, out))
    {
      var col, q := ReadNext(b, p, cols, i, out);
      if col.None? { return None; }
      out, p := out + [col.value], q;
    }
    assert mine ==> cols[..|cols|] == cols;
    return Some(out);
  }

  method ReadNext(b: seq<nat>, p: nat, ghost cols: seq<Column>, ghost i: nat, ghost out: seq<Column>) returns (got: Option<Column>, q: nat)
    requires p <= |b|
    ensures q <= |b|
    ensures ColumnsFit(cols) && i < |cols| && ColumnsRead(b, cols, i, p, out) ==>
              got == Some(cols[i]) && ColumnsRead(b, cols, i + 1, q, out + [cols[i]])
  {
    ghost var c := if i < |cols| then cols[i] else Column(0, DenseStr([]));
    if ColumnsFit(cols) && i < |cols| && ColumnsRead(b, cols, i, p, out) {
      NextColumn(b, cols, i, p, out);
    }
    got, q := ReadColumn(b, p, c);
    assert ColumnsFit(cols) && i < |cols| && FoundAt(b, p, ColumnBytes(c)) ==> got == Some(c) && q == p + |ColumnBytes(c)|;
  }

  /** `i` columns decoded, the rest still ahead. */
  ghost predicate ColumnsRead(b: seq<nat>, cols: seq<Column>, i: nat, p: nat, out: seq<Column>) {
    i <= |cols| && out == cols[..i] && FoundAt(b, p, Listing(cols[i..]))
  }

  lemma NextColumn(b: seq<nat>, cols: seq<Column>, i: nat, p: nat, out: seq<Column>)
    requires i < |cols| && ColumnsRead(b, cols, i, p, out)
    ensures FoundAt(b, p, ColumnBytes(cols[i]))
    ensures ColumnsRead(b, cols, i + 1, p + |ColumnBytes(cols[i])|, out + [cols[i]])
  {
    ListingSplit(cols, i);
    NextBlock(b, p, Listing(cols[i..]), ColumnBytes(cols[i]), Listing(cols[i + 1..]));
    assert cols[..i + 1] == cols[..i] + [cols[i]];
  }

  lemma NextBlock(b: seq<nat>, p: nat, all: seq<nat>, block: seq<nat>, rest: seq<nat>)
    requires FoundAt(b, p, all) && all == block + rest
    ensures FoundAt(b, p, block) && FoundAt(b, p + |block|, rest)
  {
    AtSplit(b, p, block, rest);
  }

  lemma ListingSplit(cols: seq<Column>, i: nat)
    requires i < |cols|
    ensures Listing(cols[i..]) == ColumnBytes(cols[i]) + Listing(cols[i + 1..])
  {
    assert cols[i..][1..] == cols[i + 1..];
  }

  /** One column: key, tag, data. */
  method ReadColumn(b: seq<nat>, p: nat, ghost c: Column) returns (got: Option<Column>, end: nat)
    requires p <= |b|
    ensures end <= |b|
    ensures c.key < U32 && DataFits(c.data) && FoundAt(b, p, ColumnBytes(c)) ==> got == Some(c) && end == p + |ColumnBytes(c)|
  {
    if c.key < U32 && DataFits(c.data) && FoundAt(b, p, ColumnBytes(c)) { ColumnReads(b, p, c); }
    var key := Word(b, p, 4);
    if key.None? || p + 5 > |b| { return None, p; }
    var data, q := ReadData(b, p + 5, b[p + 4], c.data);
    if data.None? { return None, p; }
    return Some(Column(key.value, data.value)), q;
  }

  // ---- bitmap indexes ----------------------------------------------------------------------------------

  /** An atom and its bitmap, serialized. */
  datatype BitmapEntry = BitmapEntry(atom: nat, bitmap: seq<nat>)

  function BitmapBytes(e: BitmapEntry): seq<nat> {
    LeBytes(e.atom, 4) + (LeBytes(|e.bitmap|, 4) + e.bitmap)
  }

  function BitmapList(es: seq<BitmapEntry>): seq<nat> {
    if es == [] then [] else BitmapBytes(es[0]) + BitmapList(es[1..])
  }

  function IndexBytes(es: seq<BitmapEntry>): seq<nat> {
    LeBytes(|es|, 4) + BitmapList(es)
  }

  ghost predicate IndexFits(es: seq<BitmapEntry>) {
    |es| < U32 && forall i :: 0 <= i < |es| ==> es[i].atom < U32 && |es[i].bitmap| < U32
  }

  lemma {:induction false} BitmapListLength(es: seq<BitmapEntry>)
    ensures |BitmapList(es)| >= 8 * |es|
  {
    if es != [] { BitmapListLength(es[1..]); }
  }

  lemma BitmapReads(b: seq<nat>, p: nat, es: seq<BitmapEntry>)
    requires es != [] && FoundAt(b, p, BitmapList(es)) && es[0].atom < U32 && |es[0].bitmap| < U32
    ensures p + 8 + |es[0].bitmap| <= |b| && Word(b, p, 4) == Some(es[0].atom)
    ensures Length(b, p + 4, 1) == Some(|es[0].bitmap|) && b[p + 8..p + 8 + |es[0].bitmap|] == es[0].bitmap
    ensures FoundAt(b, p + 8 + |es[0].bitmap|, BitmapList(es[1..]))
  {
    AtSplit(b, p, BitmapBytes(es[0]), BitmapList(es[1..]));
    EntryOfIndex(b, p, es[0]);
  }

  lemma EntryOfIndex(b: seq<nat>, p: nat, e: BitmapEntry)
    requires FoundAt(b, p, BitmapBytes(e)) && e.atom < U32 && |e.bitmap| < U32
    ensures |BitmapBytes(e)| == 8 + |e.bitmap| && p + 8 + |e.bitmap| <= |b| && Word(b, p, 4) == Some(e.atom)
    ensures Length(b, p + 4, 1) == Some(|e.bitmap|) && b[p + 8..p + 8 + |e.bitmap|] == e.bitmap
  {
    WordThen(b, p, e.atom, LeBytes(|e.bitmap|, 4) + e.bitmap);
    LengthReads(b, p + 4, |e.bitmap|, e.bitmap, 1);
  }

  lemma IndexReads(b: seq<nat>, p: nat, es: seq<BitmapEntry>)
    requires IndexFits(es) && FoundAt(b, p, IndexBytes(es))
    ensures p <= |b| && Length(b, p, 8) == Some(|es|) && FoundAt(b, p + 4, BitmapList(es))
  {
    BitmapListLength(es);
    LengthReads(b, p, |es|, BitmapList(es), 8);
  }

  /** `decodeBitmapIndex`. */
  method ReadIndex(b: seq<nat>, p: nat, ghost es: seq<BitmapEntry>) returns (got: Option<seq<BitmapEntry>>)
    requires p <= |b|
    ensures IndexFits(es) && FoundAt(b, p, IndexBytes(es)) ==> got == Some(es)
  {
    ghost var mine := IndexFits(es) && FoundAt(b, p, IndexBytes(es));
    if mine { IndexReads(b, p, es); }
    var count := Length(b, p, 8);
    if count.None? { return None; }
    var out: seq<BitmapEntry>, q: nat := [], p + 4;
    for i := 0 to count.value
      invariant q <= |b| && |out| == i
      invariant mine ==> out == es[..i] && FoundAt(b, q, BitmapList(es[i..]))
    {
      if mine { BitmapReads(b, q, es[i..]); }
      var atom := Word(b, q, 4);
      if atom.None? { return None; }
      var n := Length(b, q + 4, 1);
      if n.None? { return None; }
      assert mine ==> es[i..][1..] == es[i + 1..];
      out, q := out + [BitmapEntry(atom.value, b[q + 8..q + 8 + n.value])], q + 8 + n.value;
    }
    assert mine ==> es[..|es|] == es;
    return Some(out);
  }
}
