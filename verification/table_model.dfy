/** The chunked table as a value, the operations that change it, and what every run of them keeps
    (src/lib/storage/table.cpp, src/lib/storage/chunk.cpp, src/lib/storage/value_segment.cpp).
    The classes in `Tables` are proved to change their state exactly as these functions say. */
module TableModel {
  import opened Wrappers
  import opened Values
  import opened DictionaryEncoding

  type ChunkView = seq<SegmentView>

  /** Chunk ids are 32 bits wide. */
  type ChunkID = id: nat | id < TWO_TO_32

  datatype TableView = TableView(capacity: nat, names: seq<string>, types: seq<DataType>, chunks: seq<ChunkView>)

  // ---------------------------------------------------------------- operations
  // Each returns the new state and whether the call returned normally (false: it threw an exception).

  /** Chunk::size reads the size off column 0. */
  function ChunkSize(c: ChunkView): nat {
    if c == [] then 0 else c[0].Size()
  }

  /** Chunk::column_count is 16 bits wide. */
  function ColumnCount(c: ChunkView): nat {
    |c| % 0x1_0000
  }

  /** ValueSegment::append casts and pushes; DictionarySegment::append throws. None: an exception. */
  function SegmentAppend(lexical: Lexical, s: SegmentView, v: Value): Option<SegmentView> {
    match s
    case Compressed(_, _, _, _) => None
    case Plain(ty, values) =>
      match Cast(lexical, ty, v)
      case None => None
      case Some(w) => Some(Plain(ty, values + [w]))
  }

  /** The loop of Chunk::append from column k on: an exception leaves the columns before it appended. */
  function ChunkAppendFrom(lexical: Lexical, c: ChunkView, row: Row, k: nat): (ChunkView, bool)
    requires k <= |row| <= |c|
    decreases |row| - k
  {
    if k == |row| then (c, true)
    else
      match SegmentAppend(lexical, c[k], row[k])
      case None => (c, false)
      case Some(s) => ChunkAppendFrom(lexical, c[k := s], row, k + 1)
  }

  function ChunkAppend(lexical: Lexical, c: ChunkView, row: Row): (ChunkView, bool) {
    if |row| != ColumnCount(c) then (c, false) else ChunkAppendFrom(lexical, c, row, 0)
  }

  function EmptyChunk(types: seq<DataType>): ChunkView {
    seq(|types|, k requires 0 <= k < |types| => Plain(types[k], []))
  }

  function NewTable(capacity: nat): TableView {
    TableView(capacity, [], [], [[]])
  }

  /** The table after the "free chunk" step of Table::append: a full last chunk is followed by an empty one. */
  function WithFreeChunk(t: TableView): (r: TableView)
    requires t.chunks != []
    ensures r.chunks != []
  {
    if ChunkSize(t.chunks[|t.chunks| - 1]) == t.capacity
    then t.(chunks := t.chunks + [EmptyChunk(t.types)])
    else t
  }

  function AppendRow(lexical: Lexical, t: TableView, row: Row): (TableView, bool)
    requires t.chunks != []
  {
    var free := WithFreeChunk(t);
    var last := |free.chunks| - 1;
    var (c, ok) := ChunkAppend(lexical, free.chunks[last], row);
    (free.(chunks := free.chunks[last := c]), ok)
  }

  function RowCountFrom(chunks: seq<ChunkView>): nat {
    if chunks == [] then 0 else RowCountFrom(chunks[..|chunks| - 1]) + ChunkSize(chunks[|chunks| - 1])
  }

  function RowCount(t: TableView): nat {
    RowCountFrom(t.chunks)
  }

  function AddColumn(t: TableView, name: string, ty: DataType): (TableView, bool) {
    if RowCount(t) != 0 then (t, false)
    else (TableView(t.capacity, t.names + [name], t.types + [ty],
                    seq(|t.chunks|, i requires 0 <= i < |t.chunks| => t.chunks[i] + [Plain(ty, [])])), true)
  }

  ghost predicate Readable(c: ChunkView) {
    forall k :: 0 <= k < |c| ==> c[k].InRange()
  }

  /** The chunk compress_chunk builds: column by column the dictionary form of what the old column reads as. */
  ghost function CompressChunk(c: ChunkView): (r: ChunkView)
    requires Readable(c)
    ensures |r| == |c|
  {
    seq(|c|, k requires 0 <= k < |c| => Compress(c[k].ty, c[k].Contents()))
  }

  ghost function CompressAt(t: TableView, id: ChunkID): (TableView, bool)
    requires forall i :: 0 <= i < |t.chunks| ==> Readable(t.chunks[i])
  {
    if id < |t.chunks| then (t.(chunks := t.chunks[id := CompressChunk(t.chunks[id])]), true) else (t, false)
  }

  // ---------------------------------------------------------------- what a table holds

  ghost predicate Rectangular(c: ChunkView) {
    forall k :: 0 <= k < |c| ==> c[k].Size() == ChunkSize(c)
  }

  ghost predicate AllPlain(c: ChunkView) {
    forall k :: 0 <= k < |c| ==> c[k].Plain?
  }

  /** Chunks that successful operations reach: rectangular, typed by the schema, and if the first column
      still accepts values then so do all others. */
  ghost predicate GoodChunk(types: seq<DataType>, c: ChunkView) {
    && |c| == |types| <= UINT16_MAX
    && (forall k :: 0 <= k < |c| ==> c[k].ty == types[k] && c[k].Typed())
    && Rectangular(c)
    && (c != [] && c[0].Plain? ==> AllPlain(c))
  }

  /** Row r of a chunk, read column by column. */
  ghost function ChunkRow(c: ChunkView, r: nat): Row
    requires Readable(c) && Rectangular(c) && r < ChunkSize(c)
  {
    seq(|c|, k requires 0 <= k < |c| => c[k].At(r))
  }

  ghost function ChunkRows(c: ChunkView): (rows: seq<Row>)
    requires Readable(c) && Rectangular(c)
    ensures |rows| == ChunkSize(c)
  {
    seq(ChunkSize(c), r requires 0 <= r < ChunkSize(c) => ChunkRow(c, r))
  }

  ghost predicate AllGood(types: seq<DataType>, chunks: seq<ChunkView>) {
    forall i :: 0 <= i < |chunks| ==> GoodChunk(types, chunks[i])
  }

  ghost function RowsOf(types: seq<DataType>, chunks: seq<ChunkView>): (rows: seq<Row>)
    requires AllGood(types, chunks)
    ensures |rows| == RowCountFrom(chunks)
  {
    if chunks == [] then []
    else RowsOf(types, chunks[..|chunks| - 1]) + ChunkRows(chunks[|chunks| - 1])
  }

  /** Every chunk but the last is full, and a last chunk that follows another is not empty. */
  ghost predicate Layout(t: TableView) {
    && t.chunks != []
    && (forall i :: 0 <= i < |t.chunks| - 1 ==> ChunkSize(t.chunks[i]) == t.capacity)
    && ChunkSize(t.chunks[|t.chunks| - 1]) <= t.capacity
    && (|t.chunks| > 1 ==> ChunkSize(t.chunks[|t.chunks| - 1]) > 0)
  }

  ghost predicate Good(t: TableView) {
    && 0 < t.capacity < TWO_TO_32
    && |t.chunks| < TWO_TO_32
    && |t.names| == |t.types| <= UINT16_MAX
    && AllGood(t.types, t.chunks)
    && Layout(t)
  }

  ghost function TableRows(t: TableView): (rows: seq<Row>)
    requires Good(t)
    ensures |rows| == RowCount(t)
  {
    RowsOf(t.types, t.chunks)
  }

  // ---------------------------------------------------------------- one operation

  ghost predicate Castable(lexical: Lexical, types: seq<DataType>, row: Row) {
    && |row| == |types|
    && forall k :: 0 <= k < |row| ==> Cast(lexical, types[k], row[k]).Some?
  }

  /** The row as the columns store it. */
  ghost function CastRow(lexical: Lexical, types: seq<DataType>, row: Row): Row
    requires Castable(lexical, types, row)
  {
    seq(|row|, k requires 0 <= k < |row| => Cast(lexical, types[k], row[k]).value)
  }

  lemma {:induction false} ChunkAppendFromFills(lexical: Lexical, c: ChunkView, row: Row, k: nat)
    requires k <= |row| == |c|
    requires forall j :: k <= j < |c| ==> c[j].Plain? && Cast(lexical, c[j].ty, row[j]).Some?
    ensures var (r, ok) := ChunkAppendFrom(lexical, c, row, k);
      && ok && |r| == |c| && r[..k] == c[..k]
      && forall j :: k <= j < |c| ==> r[j] == Plain(c[j].ty, c[j].values + [Cast(lexical, c[j].ty, row[j]).value])
    decreases |row| - k
  {
    if k < |row| {
      var s := SegmentAppend(lexical, c[k], row[k]).value;
      var next := c[k := s];
      ChunkAppendFromFills(lexical, next, row, k + 1);
      var (r, _) := ChunkAppendFrom(lexical, next, row, k + 1);
      assert r[k] == r[..k + 1][k] == s;
      forall j | 0 <= j < k ensures r[..k][j] == c[..k][j] {
        assert r[j] == r[..k + 1][j] == next[..k + 1][j];
      }
    }
  }

  /** Appending a castable row to a chunk whose columns accept values adds exactly that row. */
  lemma ChunkAppendAddsRow(lexical: Lexical, types: seq<DataType>, c: ChunkView, row: Row)
    requires GoodChunk(types, c) && AllPlain(c) && c != []
    requires Castable(lexical, types, row)
    ensures var (r, ok) := ChunkAppend(lexical, c, row);
      && ok && GoodChunk(types, r) && AllPlain(r)
      && ChunkRows(r) == ChunkRows(c) + [CastRow(lexical, types, row)]
  {
    ChunkAppendFromFills(lexical, c, row, 0);
    var (r, _) := ChunkAppend(lexical, c, row);
    forall k | 0 <= k < |r| ensures r[k].ty == types[k] && r[k].Typed() && r[k].Size() == ChunkSize(c) + 1 {
      assert c[k].Typed();
      assert forall i :: 0 <= i < |c[k].values| ==> c[k].At(i) == c[k].values[i];
    }
    var rows := ChunkRows(c) + [CastRow(lexical, types, row)];
    forall i | 0 <= i < |rows| ensures ChunkRows(r)[i] == rows[i] {
      assert ChunkRow(r, i) == rows[i];
    }
  }

  /** Rows with a value for every column are accepted if and only if the columns can be counted in 16 bits. */
  lemma FullRowsFitIff(lexical: Lexical, c: ChunkView, row: Row)
    requires AllPlain(c) && |row| == |c| && forall k :: 0 <= k < |c| ==> Cast(lexical, c[k].ty, row[k]).Some?
    ensures ChunkAppend(lexical, c, row).1 <==> |c| <= UINT16_MAX
  {
    ChunkAppendFromFills(lexical, c, row, 0);
  }

  /** A row that does not cast leaves the chunk rectangular exactly when its first column is the one that fails. */
  lemma FailedAppendIsRaggedUnlessFirst(lexical: Lexical, types: seq<DataType>, c: ChunkView, row: Row)
    requires GoodChunk(types, c) && AllPlain(c) && c != [] && |row| == |c|
    requires !Castable(lexical, types, row)
    ensures var (r, ok) := ChunkAppend(lexical, c, row);
      && !ok
      && (Rectangular(r) <==> Cast(lexical, types[0], row[0]).None?)
      && (Cast(lexical, types[0], row[0]).None? ==> r == c)
  {
    var s := SegmentAppend(lexical, c[0], row[0]);
    if s.Some? {
      var j: nat :| j < |row| && Cast(lexical, types[j], row[j]).None?;
      FailureStopsShort(lexical, c[0 := s.value], row, 1, j);
      var (r, _) := ChunkAppend(lexical, c, row);
      assert r[0] == s.value;
      assert r[j] == c[j];
      assert r[j].Size() != ChunkSize(r);
    }
  }

  /** The columns before the first one that does not cast have got their value, the others are as before. */
  lemma {:induction false} FailedAppendIsPartial(lexical: Lexical, c: ChunkView, row: Row, k: nat, j: nat)
    requires k <= j < |row| <= |c|
    requires forall i :: k <= i < |row| ==> c[i].Plain?
    requires forall i :: k <= i < j ==> Cast(lexical, c[i].ty, row[i]).Some?
    requires Cast(lexical, c[j].ty, row[j]).None?
    ensures var (r, ok) := ChunkAppendFrom(lexical, c, row, k);
      && !ok && |r| == |c|
      && forall i :: 0 <= i < |c| ==>
           r[i] == if k <= i < j then Plain(c[i].ty, c[i].values + [Cast(lexical, c[i].ty, row[i]).value]) else c[i]
    decreases j - k
  {
    if k < j {
      FailedAppendIsPartial(lexical, c[k := SegmentAppend(lexical, c[k], row[k]).value], row, k + 1, j);
    }
  }

  lemma {:induction false} FailureStopsShort(lexical: Lexical, c: ChunkView, row: Row, k: nat, j: nat)
    requires k <= j < |row| == |c|
    requires forall i :: k <= i < |c| ==> c[i].Plain?
    requires Cast(lexical, c[j].ty, row[j]).None?
    ensures var (r, ok) := ChunkAppendFrom(lexical, c, row, k);
      !ok && |r| == |c| && (forall i :: 0 <= i < k ==> r[i] == c[i]) && r[j] == c[j]
    decreases j - k
  {
    var s := SegmentAppend(lexical, c[k], row[k]);
    if s.Some? {
      FailureStopsShort(lexical, c[k := s.value], row, k + 1, j);
    }
  }

  /** Compressing a chunk changes how it is stored and nothing that can be read from it. */
  lemma {:induction false} CompressChunkKeepsRows(types: seq<DataType>, c: ChunkView)
    requires GoodChunk(types, c) && ChunkSize(c) <= TWO_TO_32
    ensures GoodChunk(types, CompressChunk(c))
    ensures ChunkRows(CompressChunk(c)) == ChunkRows(c)
    ensures forall k :: 0 <= k < |c| ==> CompressChunk(c)[k].Contents() == c[k].Contents()
  {
    var r := CompressChunk(c);
    forall k | 0 <= k < |c|
      ensures r[k].InRange() && r[k].Contents() == c[k].Contents() && r[k].Size() == c[k].Size()
      ensures forall i :: 0 <= i < c[k].Size() ==> r[k].At(i) == c[k].At(i)
    {
      RoundTrip(c[k].ty, c[k].Contents());
      forall i | 0 <= i < c[k].Size() ensures r[k].At(i) == c[k].At(i) {
        assert r[k].Contents()[i] == c[k].Contents()[i];
      }
    }
    forall i | 0 <= i < ChunkSize(c) ensures ChunkRows(r)[i] == ChunkRows(c)[i] {
      assert ChunkRow(r, i) == ChunkRow(c, i);
    }
  }

  /** A dictionary segment for a column: its entries ascend, they are exactly the column's values, and it reads the
      same. */
  ghost predicate IsDictionaryForm(s: SegmentView, column: SegmentView)
    requires column.InRange()
  {
    && s.Compressed? && s.ty == column.ty && s.InRange()
    && (forall i, j :: 0 <= i < j < |s.dictionary| ==> Below(s.dictionary[i], s.dictionary[j]))
    && (forall v :: v in s.dictionary <==> v in column.Contents())
    && s.Contents() == column.Contents()
  }

  /** After compress_chunk every column of the chunk is a dictionary segment for the old column. */
  ghost predicate IsCompressedForm(r: ChunkView, c: ChunkView)
    requires Readable(c)
  {
    |r| == |c| && forall k :: 0 <= k < |c| ==> IsDictionaryForm(r[k], c[k])
  }

  lemma CompressedColumn(s: SegmentView)
    requires s.Typed() && s.Size() <= TWO_TO_32
    ensures IsDictionaryForm(Compress(s.ty, s.Contents()), s)
  {
    var base := s.Contents();
    RoundTrip(s.ty, base);
    DictionaryIsEnumeration(base);
    ShortColumnsAreFetchedWhole(base);
    forall i, j | 0 <= i < j < |DictionaryOf(base)| ensures Below(DictionaryOf(base)[i], DictionaryOf(base)[j]) {
      DictionaryIsTyped(s.ty, base);
      PayloadOrder(DictionaryOf(base)[i], DictionaryOf(base)[j]);
    }
  }

  lemma CompressedChunk(types: seq<DataType>, c: ChunkView)
    requires GoodChunk(types, c) && ChunkSize(c) <= TWO_TO_32
    ensures IsCompressedForm(CompressChunk(c), c)
  {
    forall k | 0 <= k < |c| ensures IsDictionaryForm(CompressChunk(c)[k], c[k]) {
      assert c[k].Typed() && c[k].ty == types[k];
      CompressedColumn(c[k]);
    }
  }

  /** Replacing chunks by others that read alike leaves the rows alone. */
  lemma {:induction false} SameRows(types: seq<DataType>, a: seq<ChunkView>, b: seq<ChunkView>)
    requires AllGood(types, a) && AllGood(types, b) && |a| == |b|
    requires forall i :: 0 <= i < |a| ==> ChunkRows(a[i]) == ChunkRows(b[i])
    ensures RowsOf(types, a) == RowsOf(types, b)
  {
    if a != [] {
      SameRows(types, a[..|a| - 1], b[..|b| - 1]);
    }
  }

  datatype Op =
    | AddColumnOp(name: string, ty: DataType)
    | AppendOp(row: Row)
    | CompressOp(id: ChunkID)

  /** The callers' part: rows of the right arity that cast to the column types, at least one column, no more columns
      than 16 bits and no more chunks than 32 bits can count. */
  ghost predicate Admissible(lexical: Lexical, t: TableView, op: Op) {
    match op
    case AddColumnOp(_, _) => RowCount(t) == 0 ==> |t.types| < UINT16_MAX
    case AppendOp(row) =>
      && t.types != [] && Castable(lexical, t.types, row)
      && t.chunks != [] && |WithFreeChunk(t).chunks| < TWO_TO_32
    case CompressOp(_) => true
  }

  ghost function Step(lexical: Lexical, t: TableView, op: Op): (TableView, bool)
    requires Good(t)
  {
    match op
    case AddColumnOp(name, ty) => AddColumn(t, name, ty)
    case AppendOp(row) => AppendRow(lexical, t, row)
    case CompressOp(id) => CompressAt(t, id)
  }

  /** The rows an operation contributes: a successful append contributes its row, cast to the column types. */
  ghost function Contribution(lexical: Lexical, t: TableView, op: Op): seq<Row>
    requires Good(t) && Admissible(lexical, t, op)
  {
    if op.AppendOp? && Step(lexical, t, op).1 then [CastRow(lexical, t.types, op.row)] else []
  }

  ghost function LastChunk(t: TableView): ChunkView
    requires t.chunks != []
  {
    t.chunks[|t.chunks| - 1]
  }

  lemma EmptyChunkIsGood(types: seq<DataType>)
    requires |types| <= UINT16_MAX
    ensures GoodChunk(types, EmptyChunk(types)) && AllPlain(EmptyChunk(types))
    ensures ChunkRows(EmptyChunk(types)) == []
  {
  }

  lemma FreeChunkKeepsRows(t: TableView)
    requires Good(t)
    ensures var free := WithFreeChunk(t);
      && AllGood(free.types, free.chunks) && RowsOf(free.types, free.chunks) == TableRows(t)
      && ChunkSize(LastChunk(free)) < t.capacity
  {
    EmptyChunkIsGood(t.types);
    var free := WithFreeChunk(t);
    if free != t {
      assert free.chunks[..|free.chunks| - 1] == t.chunks;
    }
  }

  lemma Concatenation<T>(a: seq<T>, b: seq<T>, c: seq<T>)
    ensures (a + b) + c == a + (b + c)
  {
  }

  /** Replacing the last chunk replaces the rows it contributes. */
  lemma ReplaceLast(types: seq<DataType>, chunks: seq<ChunkView>, c: ChunkView)
    requires AllGood(types, chunks) && GoodChunk(types, c) && chunks != []
    ensures var r := chunks[|chunks| - 1 := c];
      AllGood(types, r) && RowsOf(types, r) == RowsOf(types, chunks[..|chunks| - 1]) + ChunkRows(c)
  {
    var r := chunks[|chunks| - 1 := c];
    assert r[..|r| - 1] == chunks[..|chunks| - 1];
  }

  lemma AppendToFreeChunk(lexical: Lexical, t: TableView, row: Row)
    requires Good(t) && Admissible(lexical, t, AppendOp(row))
    requires LastChunk(WithFreeChunk(t))[0].Plain?
    ensures var (r, ok) := AppendRow(lexical, t, row);
      && ok && Good(r) && AllPlain(LastChunk(r))
      && TableRows(r) == TableRows(t) + [CastRow(lexical, t.types, row)]
  {
    FreeChunkKeepsRows(t);
    var free := WithFreeChunk(t);
    AppendToLastChunk(lexical, t.types, free.chunks, row);
    var (r, _) := AppendRow(lexical, t, row);
    GrownTableIsLaidOut(t, free, r);
  }

  lemma GrownTableIsLaidOut(t: TableView, free: TableView, r: TableView)
    requires Layout(t) && free == WithFreeChunk(t) && ChunkSize(EmptyChunk(t.types)) == 0 < t.capacity
    requires r.capacity == t.capacity && |r.chunks| == |free.chunks|
    requires r.chunks[..|r.chunks| - 1] == free.chunks[..|r.chunks| - 1]
    requires ChunkSize(LastChunk(r)) == ChunkSize(LastChunk(free)) + 1
    ensures Layout(r)
  {
    forall i | 0 <= i < |r.chunks| - 1 ensures ChunkSize(r.chunks[i]) == r.capacity {
      assert r.chunks[i] == r.chunks[..|r.chunks| - 1][i] == free.chunks[i];
    }
  }

  lemma AppendToLastChunk(lexical: Lexical, types: seq<DataType>, chunks: seq<ChunkView>, row: Row)
    requires AllGood(types, chunks) && chunks != [] && types != [] && Castable(lexical, types, row)
    requires chunks[|chunks| - 1][0].Plain?
    ensures var (c, ok) := ChunkAppend(lexical, chunks[|chunks| - 1], row); var r := chunks[|chunks| - 1 := c];
      && ok && AllGood(types, r) && AllPlain(c) && ChunkSize(c) == ChunkSize(chunks[|chunks| - 1]) + 1
      && RowsOf(types, r) == RowsOf(types, chunks) + [CastRow(lexical, types, row)]
  {
    var front, last := chunks[..|chunks| - 1], chunks[|chunks| - 1];
    ChunkAppendAddsRow(lexical, types, last, row);
    var (c, _) := ChunkAppend(lexical, last, row);
    ReplaceLast(types, chunks, c);
    Concatenation(RowsOf(types, front), ChunkRows(last), [CastRow(lexical, types, row)]);
    assert ChunkSize(c) == |ChunkRows(c)|;
  }

  /** Table::append either adds exactly the cast row, or throws and changes nothing; it throws exactly when the
      last chunk is compressed and not full. It never touches a full chunk. */
  lemma AppendStep(lexical: Lexical, t: TableView, row: Row)
    requires Good(t) && Admissible(lexical, t, AppendOp(row))
    ensures var (r, ok) := AppendRow(lexical, t, row);
      && Good(r)
      && (ok <==> ChunkSize(LastChunk(t)) == t.capacity || LastChunk(t)[0].Plain?)
      && (if ok then TableRows(r) == TableRows(t) + [CastRow(lexical, t.types, row)] && AllPlain(LastChunk(r))
          else r == t)
      && |t.chunks| <= |r.chunks|
      && (forall i :: 0 <= i < |t.chunks| && ChunkSize(t.chunks[i]) == t.capacity ==> r.chunks[i] == t.chunks[i])
  {
    var (r, ok) := AppendRow(lexical, t, row);
    if ChunkSize(LastChunk(t)) == t.capacity || LastChunk(t)[0].Plain? {
      AppendToFreeChunk(lexical, t, row);
    } else {
      assert r.chunks == t.chunks;
    }
  }

  lemma {:induction false} NoRowsMeansEmptyChunks(chunks: seq<ChunkView>)
    requires RowCountFrom(chunks) == 0
    ensures forall i :: 0 <= i < |chunks| ==> ChunkSize(chunks[i]) == 0
  {
    if chunks != [] {
      NoRowsMeansEmptyChunks(chunks[..|chunks| - 1]);
      forall i | 0 <= i < |chunks| ensures ChunkSize(chunks[i]) == 0 {
        if i < |chunks| - 1 { assert chunks[i] == chunks[..|chunks| - 1][i]; }
      }
    }
  }

  lemma {:induction false} AddColumnStep(t: TableView, name: string, ty: DataType)
    requires Good(t) && (RowCount(t) == 0 ==> |t.types| < UINT16_MAX)
    ensures var (r, ok) := AddColumn(t, name, ty);
      && Good(r) && (ok <==> TableRows(t) == []) && TableRows(r) == TableRows(t)
      && (ok ==> r.names == t.names + [name] && r.types == t.types + [ty] && |r.chunks| == |t.chunks| == 1
                 && (AllPlain(LastChunk(t)) ==> AllPlain(LastChunk(r))))
      && (!ok ==> r == t)
  {
    if RowCount(t) == 0 {
      NoRowsMeansEmptyChunks(t.chunks);
      var (r, _) := AddColumn(t, name, ty);
      assert |t.chunks| == 1;
      assert r.chunks == [t.chunks[0] + [Plain(ty, [])]];
      assert ChunkSize(r.chunks[0]) == 0;
      assert GoodChunk(r.types, r.chunks[0]);
      assert |RowsOf(r.types, r.chunks)| == RowCount(r) == 0;
    }
  }

  lemma ReplaceLikeByLike(types: seq<DataType>, chunks: seq<ChunkView>, id: nat, c: ChunkView)
    requires AllGood(types, chunks) && id < |chunks| && GoodChunk(types, c) && ChunkRows(c) == ChunkRows(chunks[id])
    ensures var r := chunks[id := c];
      && AllGood(types, r) && RowsOf(types, r) == RowsOf(types, chunks)
      && forall i :: 0 <= i < |chunks| ==> ChunkSize(r[i]) == ChunkSize(chunks[i])
  {
    var r := chunks[id := c];
    assert |ChunkRows(c)| == |ChunkRows(chunks[id])|;
    SameRows(types, chunks, r);
  }

  lemma LikeChunksKeepGood(t: TableView, chunks: seq<ChunkView>)
    requires Good(t) && |chunks| == |t.chunks| && AllGood(t.types, chunks)
    requires forall i :: 0 <= i < |chunks| ==> ChunkSize(chunks[i]) == ChunkSize(t.chunks[i])
    ensures Good(t.(chunks := chunks))
  {
  }

  lemma CompressStep(t: TableView, id: ChunkID)
    requires Good(t)
    ensures var (r, ok) := CompressAt(t, id);
      && Good(r) && (ok <==> id < |t.chunks|) && TableRows(r) == TableRows(t)
      && |r.chunks| == |t.chunks|
      && (forall i :: 0 <= i < |t.chunks| ==> ChunkSize(r.chunks[i]) == ChunkSize(t.chunks[i]))
  {
    if id < |t.chunks| {
      CompressChunkKeepsRows(t.types, t.chunks[id]);
      ReplaceLikeByLike(t.types, t.chunks, id, CompressChunk(t.chunks[id]));
      LikeChunksKeepGood(t, t.chunks[id := CompressChunk(t.chunks[id])]);
    }
  }

  /** For an existing id the chunk really is replaced by its compressed form, and no other chunk changes. */
  lemma CompressionTakesPlace(t: TableView, id: ChunkID)
    requires Good(t)
    ensures var (r, ok) := CompressAt(t, id);
      if id < |t.chunks| then
        && ok && |r.chunks| == |t.chunks| && IsCompressedForm(r.chunks[id], t.chunks[id])
        && (forall i :: 0 <= i < |t.chunks| && i != id ==> r.chunks[i] == t.chunks[i])
      else !ok && r == t
  {
    if id < |t.chunks| {
      CompressedChunk(t.types, t.chunks[id]);
    }
  }

  /** A dictionary segment in the first column of a last chunk that is not full refuses every append. */
  lemma CompressedChunkRefuses(lexical: Lexical, t: TableView, row: Row)
    requires t.chunks != [] && ChunkSize(LastChunk(t)) != t.capacity && row != []
    requires LastChunk(t) != [] && LastChunk(t)[0].Compressed?
    ensures AppendRow(lexical, t, row) == (t, false)
  {
    assert t.chunks[|t.chunks| - 1 := LastChunk(t)] == t.chunks;
  }

  /** Compressing the last chunk before it is full makes the next append throw. */
  lemma AppendAfterCompressionFails(lexical: Lexical, t: TableView, row: Row)
    requires Good(t) && Admissible(lexical, t, AppendOp(row)) && ChunkSize(LastChunk(t)) < t.capacity
    ensures CompressAt(t, |t.chunks| - 1).1
    ensures AppendRow(lexical, CompressAt(t, |t.chunks| - 1).0, row) == (CompressAt(t, |t.chunks| - 1).0, false)
  {
    var c := CompressAt(t, |t.chunks| - 1).0;
    SizeAfterCompression(t, |t.chunks| - 1);
    CompressedChunkRefuses(lexical, c, row);
  }

  lemma SizeAfterCompression(t: TableView, id: ChunkID)
    requires Good(t) && id < |t.chunks|
    ensures var r := CompressAt(t, id).0;
      && |r.chunks| == |t.chunks| && r.capacity == t.capacity
      && |r.chunks[id]| == |t.types| && ChunkSize(r.chunks[id]) == ChunkSize(t.chunks[id])
      && (t.types != [] ==> r.chunks[id][0].Compressed?)
  {
    CompressionTakesPlace(t, id);
    CompressChunkKeepsRows(t.types, t.chunks[id]);
    assert |ChunkRows(CompressChunk(t.chunks[id]))| == |ChunkRows(t.chunks[id])|;
  }

  /** One operation: the table stays good and its rows grow by exactly the operation's contribution. */
  lemma {:induction false} StepKeepsRows(lexical: Lexical, t: TableView, op: Op)
    requires Good(t) && Admissible(lexical, t, op)
    ensures Good(Step(lexical, t, op).0)
    ensures TableRows(Step(lexical, t, op).0) == TableRows(t) + Contribution(lexical, t, op)
    ensures Step(lexical, t, op).0.capacity == t.capacity
  {
    match op
    case AddColumnOp(name, ty) => AddColumnStep(t, name, ty);
    case AppendOp(row) => AppendStep(lexical, t, row);
    case CompressOp(id) => CompressStep(t, id);
  }

  // ---------------------------------------------------------------- whole runs

  ghost predicate AdmissibleRun(lexical: Lexical, t: TableView, ops: seq<Op>)
    decreases |ops|
  {
    ops == [] ||
    (Good(t) && Admissible(lexical, t, ops[0]) && AdmissibleRun(lexical, Step(lexical, t, ops[0]).0, ops[1..]))
  }

  ghost function Run(lexical: Lexical, t: TableView, ops: seq<Op>): TableView
    requires AdmissibleRun(lexical, t, ops)
    decreases |ops|
  {
    if ops == [] then t else Run(lexical, Step(lexical, t, ops[0]).0, ops[1..])
  }

  /** The rows of the appends that returned normally, in order. */
  ghost function Appended(lexical: Lexical, t: TableView, ops: seq<Op>): seq<Row>
    requires AdmissibleRun(lexical, t, ops)
    decreases |ops|
  {
    if ops == [] then []
    else Contribution(lexical, t, ops[0]) + Appended(lexical, Step(lexical, t, ops[0]).0, ops[1..])
  }

  /** Every run: the table holds its old rows followed by the successfully appended ones, whatever was
      compressed in between. */
  lemma {:induction false} RunKeepsRows(lexical: Lexical, t: TableView, ops: seq<Op>)
    requires Good(t) && AdmissibleRun(lexical, t, ops)
    ensures Good(Run(lexical, t, ops)) && Run(lexical, t, ops).capacity == t.capacity
    ensures TableRows(Run(lexical, t, ops)) == TableRows(t) + Appended(lexical, t, ops)
    decreases |ops|
  {
    if ops != [] {
      var next := Step(lexical, t, ops[0]).0;
      StepKeepsRows(lexical, t, ops[0]);
      RunKeepsRows(lexical, next, ops[1..]);
      assert Run(lexical, t, ops) == Run(lexical, next, ops[1..]);
      Concatenation(TableRows(t), Contribution(lexical, t, ops[0]), Appended(lexical, next, ops[1..]));
    }
  }

  lemma NewTableIsGood(capacity: nat)
    requires 0 < capacity < TWO_TO_32
    ensures Good(NewTable(capacity)) && TableRows(NewTable(capacity)) == []
    ensures NewTable(capacity).names == [] && NewTable(capacity).types == []
  {
    assert ChunkRows([]) == [];
  }

  // ---------------------------------------------------------------- compressing full chunks only

  /** The last chunk is full or still accepts values. */
  ghost predicate Appendable(t: TableView)
    requires t.chunks != []
  {
    ChunkSize(LastChunk(t)) == t.capacity || AllPlain(LastChunk(t))
  }

  /** Columns are added while the table is empty, and only full chunks are compressed. */
  ghost predicate Disciplined(t: TableView, op: Op) {
    match op
    case AddColumnOp(_, _) => RowCount(t) == 0
    case AppendOp(_) => true
    case CompressOp(id) => id < |t.chunks| && ChunkSize(t.chunks[id]) == t.capacity
  }

  /** Under that discipline every operation succeeds: no append ever reaches a dictionary segment. */
  lemma DisciplinedStepSucceeds(lexical: Lexical, t: TableView, op: Op)
    requires Good(t) && Appendable(t) && Admissible(lexical, t, op) && Disciplined(t, op)
    ensures Step(lexical, t, op).1
    ensures Good(Step(lexical, t, op).0) && Appendable(Step(lexical, t, op).0)
  {
    match op
    case AddColumnOp(name, ty) => AddColumnStep(t, name, ty); NoRowsMeansEmptyChunks(t.chunks);
    case AppendOp(row) => AppendStep(lexical, t, row);
    case CompressOp(id) => CompressStep(t, id);
  }

  ghost predicate DisciplinedRun(lexical: Lexical, t: TableView, ops: seq<Op>)
    requires AdmissibleRun(lexical, t, ops)
    decreases |ops|
  {
    ops == [] || (Disciplined(t, ops[0]) && DisciplinedRun(lexical, Step(lexical, t, ops[0]).0, ops[1..]))
  }

  /** All rows handed to append, cast to the column types of the moment. */
  ghost function AllRows(lexical: Lexical, t: TableView, ops: seq<Op>): seq<Row>
    requires AdmissibleRun(lexical, t, ops)
    decreases |ops|
  {
    if ops == [] then []
    else (if ops[0].AppendOp? then [CastRow(lexical, t.types, ops[0].row)] else [])
         + AllRows(lexical, Step(lexical, t, ops[0]).0, ops[1..])
  }

  lemma {:induction false} DisciplinedRunLosesNothing(lexical: Lexical, t: TableView, ops: seq<Op>)
    requires Good(t) && Appendable(t) && AdmissibleRun(lexical, t, ops) && DisciplinedRun(lexical, t, ops)
    ensures Appended(lexical, t, ops) == AllRows(lexical, t, ops)
    decreases |ops|
  {
    if ops != [] {
      DisciplinedStepSucceeds(lexical, t, ops[0]);
      DisciplinedRunLosesNothing(lexical, Step(lexical, t, ops[0]).0, ops[1..]);
    }
  }

  /** The columns a run adds, in order. */
  function ColumnsAdded(ops: seq<Op>): seq<(string, DataType)> {
    if ops == [] then []
    else (if ops[0].AddColumnOp? then [(ops[0].name, ops[0].ty)] else []) + ColumnsAdded(ops[1..])
  }

  lemma FirstColumnAdded(ops: seq<Op>)
    requires ops != []
    ensures ColumnsAdded(ops) == ColumnsAdded([ops[0]]) + ColumnsAdded(ops[1..])
  {
    assert [ops[0]][1..] == [];
  }

  function Schema(t: TableView): seq<(string, DataType)>
    requires |t.names| == |t.types|
  {
    seq(|t.names|, k requires 0 <= k < |t.names| => (t.names[k], t.types[k]))
  }

  lemma StepKeepsSchema(lexical: Lexical, t: TableView, op: Op)
    requires Good(t) && Admissible(lexical, t, op) && Disciplined(t, op)
    ensures Good(Step(lexical, t, op).0)
    ensures Schema(Step(lexical, t, op).0) == Schema(t) + ColumnsAdded([op])
  {
    StepKeepsRows(lexical, t, op);
    assert [op][1..] == [];
  }

  lemma {:induction false} RunKeepsSchema(lexical: Lexical, t: TableView, ops: seq<Op>)
    requires Good(t) && Appendable(t) && AdmissibleRun(lexical, t, ops) && DisciplinedRun(lexical, t, ops)
    ensures Good(Run(lexical, t, ops))
    ensures Schema(Run(lexical, t, ops)) == Schema(t) + ColumnsAdded(ops)
    decreases |ops|
  {
    if ops != [] {
      var next := Step(lexical, t, ops[0]).0;
      DisciplinedStepSucceeds(lexical, t, ops[0]);
      StepKeepsSchema(lexical, t, ops[0]);
      RunKeepsSchema(lexical, next, ops[1..]);
      assert Run(lexical, t, ops) == Run(lexical, next, ops[1..]);
      FirstColumnAdded(ops);
      Concatenation(Schema(t), ColumnsAdded([ops[0]]), ColumnsAdded(ops[1..]));
    }
  }

  /** Columns first, then any mix of appends and compressions of full chunks: the table holds exactly the
      rows handed to append, in order. */
  lemma CompressionIsInvisible(lexical: Lexical, capacity: nat, ops: seq<Op>)
    requires 0 < capacity < TWO_TO_32
    requires AdmissibleRun(lexical, NewTable(capacity), ops) && DisciplinedRun(lexical, NewTable(capacity), ops)
    ensures Good(Run(lexical, NewTable(capacity), ops))
    ensures TableRows(Run(lexical, NewTable(capacity), ops)) == AllRows(lexical, NewTable(capacity), ops)
    ensures Schema(Run(lexical, NewTable(capacity), ops)) == ColumnsAdded(ops)
  {
    NewTableIsGood(capacity);
    RunKeepsRows(lexical, NewTable(capacity), ops);
    DisciplinedRunLosesNothing(lexical, NewTable(capacity), ops);
    RunKeepsSchema(lexical, NewTable(capacity), ops);
    assert Schema(NewTable(capacity)) == [];
  }

  // ---------------------------------------------------------------- row placement

  lemma {:induction false} FullPrefix(types: seq<DataType>, chunks: seq<ChunkView>, m: nat)
    requires AllGood(types, chunks)
    requires forall i :: 0 <= i < |chunks| ==> ChunkSize(chunks[i]) == m
    ensures |RowsOf(types, chunks)| == |chunks| * m
  {
    if chunks != [] {
      var front := chunks[..|chunks| - 1];
      FullPrefix(types, front, m);
      OneMore(|front|, m);
    }
  }

  lemma {:induction false} RowsOfChunk(types: seq<DataType>, chunks: seq<ChunkView>, m: nat, i: nat, o: nat)
    requires AllGood(types, chunks) && i < |chunks| && o < ChunkSize(chunks[i])
    requires forall j :: 0 <= j < |chunks| - 1 ==> ChunkSize(chunks[j]) == m
    ensures i * m + o < |RowsOf(types, chunks)|
    ensures RowsOf(types, chunks)[i * m + o] == ChunkRows(chunks[i])[o]
    decreases |chunks|
  {
    var front := chunks[..|chunks| - 1];
    FullPrefix(types, front, m);
    if i < |front| {
      RowsOfChunk(types, front, m, i, o);
      assert front[i] == chunks[i];
    }
  }

  /** With n rows and capacity m there are max(1, ceil(n / m)) chunks. */
  lemma ChunkCounts(t: TableView)
    requires Good(t)
    ensures var n, m := |TableRows(t)|, t.capacity;
      RowCount(t) == n && |t.chunks| == (if n == 0 then 1 else (n + m - 1) / m)
  {
    RowTotal(t);
    if TableRows(t) != [] {
      CeilingDivision(|t.chunks| - 1, t.capacity, ChunkSize(LastChunk(t)));
    }
  }

  ghost predicate RowIsAt(t: TableView, r: nat, i: int, o: int)
    requires Good(t) && r < |TableRows(t)|
  {
    && 0 <= i < |t.chunks| && 0 <= o < ChunkSize(t.chunks[i])
    && TableRows(t)[r] == ChunkRows(t.chunks[i])[o]
  }

  /** Row r sits in chunk r / m at offset r % m. */
  lemma RowPlacement(t: TableView, r: nat)
    requires Good(t) && r < |TableRows(t)|
    ensures RowIsAt(t, r, r / t.capacity, r % t.capacity)
  {
    RowTotal(t);
    var i, o := Placement(|t.chunks| - 1, t.capacity, ChunkSize(LastChunk(t)), r);
    PlacementOfRow(t, r, i, o);
  }

  /** After any run on a new table of chunk size m: n rows make max(1, ceil(n / m)) chunks, all but the last hold
      exactly m rows, and row r is in chunk r / m at offset r % m. */
  lemma RunLayout(lexical: Lexical, m: nat, ops: seq<Op>)
    requires 0 < m < TWO_TO_32 && AdmissibleRun(lexical, NewTable(m), ops)
    ensures Good(Run(lexical, NewTable(m), ops))
    ensures var t := Run(lexical, NewTable(m), ops); var n := |TableRows(t)|;
      && |t.chunks| == (if n == 0 then 1 else (n + m - 1) / m)
      && (forall i :: 0 <= i < |t.chunks| - 1 ==> ChunkSize(t.chunks[i]) == m)
      && (forall r :: 0 <= r < n ==> RowIsAt(t, r, r / m, r % m))
  {
    NewTableIsGood(m);
    RunKeepsRows(lexical, NewTable(m), ops);
    var t := Run(lexical, NewTable(m), ops);
    ChunkCounts(t);
    forall r | 0 <= r < |TableRows(t)| ensures RowIsAt(t, r, r / m, r % m) {
      RowPlacement(t, r);
    }
  }

  lemma PlacementOfRow(t: TableView, r: nat, i: nat, o: nat)
    requires Good(t) && r == i * t.capacity + o && o < t.capacity
    requires i < |t.chunks| - 1 || (i == |t.chunks| - 1 && o < ChunkSize(LastChunk(t)))
    ensures r < |TableRows(t)| && o < ChunkSize(t.chunks[i]) && TableRows(t)[r] == ChunkRows(t.chunks[i])[o]
  {
    RowsOfChunk(t.types, t.chunks, t.capacity, i, o);
  }

  lemma RowTotal(t: TableView)
    requires Good(t)
    ensures |TableRows(t)| == (|t.chunks| - 1) * t.capacity + ChunkSize(LastChunk(t))
    ensures TableRows(t) == [] ==> |t.chunks| == 1
  {
    var k := |t.chunks| - 1;
    FullPrefix(t.types, t.chunks[..k], t.capacity);
    if k > 0 {
      AtLeastOnce(k, t.capacity);
    }
  }

  // ---------------------------------------------------------------- arithmetic

  lemma AtLeastOnce(d: int, m: nat)
    requires d >= 1
    ensures d * m >= m
  {
  }

  lemma OneMore(k: nat, m: nat)
    ensures (k + 1) * m == k * m + m
  {
  }

  lemma AtLeastAsOften(a: nat, b: nat, m: nat)
    ensures a <= b ==> a * m <= b * m
  {
  }

  lemma DivisionIsUnique(x: nat, q: nat, r: nat, m: nat)
    requires r < m && x == q * m + r
    ensures x / m == q && x % m == r
  {
    var q', r' := x / m, x % m;
    assert q' * m + r' == x;
    assert (q - q') * m == r' - r;
    if q > q' { AtLeastOnce(q - q', m); }
    if q < q' { AtLeastOnce(q' - q, m); }
  }

  lemma CeilingDivision(k: nat, m: nat, size: nat)
    requires 0 < size <= m
    ensures (k * m + size + m - 1) / m == k + 1
  {
    DivisionIsUnique(k * m + size + m - 1, k + 1, size - 1, m);
  }

  lemma Placement(k: nat, m: nat, size: nat, r: nat) returns (i: nat, o: nat)
    requires 0 < m && size <= m && r < k * m + size
    ensures i == r / m && o == r % m && r == i * m + o && o < m
    ensures i < k || (i == k && o < size)
  {
    i, o := r / m, r % m;
    assert i * m + o == r;
    AtLeastAsOften(k + 1, i, m);
    OneMore(k, m);
  }
}
