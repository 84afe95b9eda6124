/** Reading a table back as rows and comparing two tables (src/test/base_test.cpp). */
module TableComparison {
  import opened Ordering
  import opened Values
  import opened DictionaryEncoding
  import opened TableModel
  import opened Segments
  import opened Tables

  type Matrix = seq<Row>

  /** The value a default-constructed AllTypeVariant holds. */
  const DEFAULT_VALUE := Int(0)

  ghost predicate HasShape(matrix: Matrix, rows: nat, columns: nat) {
    |matrix| == rows && forall r :: 0 <= r < rows ==> |matrix[r]| == columns
  }

  // ---------------------------------------------------------------- 32-bit row numbers

  /** Addition of 32-bit unsigned integers. */
  function Add32(a: nat, b: nat): (r: nat)
    requires a < TWO_TO_32 && b < TWO_TO_32
    ensures r == if a + b < TWO_TO_32 then a + b else a + b - TWO_TO_32
  {
    (a + b) % TWO_TO_32
  }

  /** How often a 32-bit counter is incremented on its way from `from` to r. */
  function Turns(from: nat, r: nat): (n: nat)
    requires from < TWO_TO_32 && r < TWO_TO_32
    ensures n < TWO_TO_32 && Add32(from, n) == r
  {
    if from <= r then r - from else r + TWO_TO_32 - from
  }

  lemma TurnsOfSum(from: nat, n: nat)
    requires from < TWO_TO_32 && n < TWO_TO_32
    ensures Turns(from, Add32(from, n)) == n
  {
  }

  /** Rows filled before and after the first `filled` ones, seen through their 32-bit numbers. */
  lemma TurnsBetween(filled: nat, r: nat)
    requires filled <= r + TWO_TO_32 && r < filled + TWO_TO_32
    ensures Turns(filled % TWO_TO_32, r % TWO_TO_32) == if r >= filled then r - filled else r + TWO_TO_32 - filled
  {
  }

  lemma AddToRemainder(filled: nat, n: nat)
    requires n < TWO_TO_32
    ensures filled % TWO_TO_32 <= filled && Add32(filled % TWO_TO_32, n) == (filled + n) % TWO_TO_32
  {
  }

  /** The last of n rows that has the same 32-bit number as row k. */
  lemma LastAlike(n: nat, k: nat) returns (r: nat)
    requires k < n
    ensures k <= r < n <= r + TWO_TO_32 && r % TWO_TO_32 == k % TWO_TO_32
  {
    r := n - 1 - (n - 1 - k) % TWO_TO_32;
  }

  // ---------------------------------------------------------------- reading a table back

  /** Copies one column of one chunk below the rows already filled. */
  method CopyColumn(matrix: Matrix, segment: Segment, rowOffset: nat, k: nat) returns (result: Matrix)
    requires segment.View().InRange() && segment.View().Size() < TWO_TO_32 && rowOffset < TWO_TO_32
    requires rowOffset + segment.View().Size() <= |matrix| || TWO_TO_32 <= |matrix|
    requires forall r :: 0 <= r < |matrix| ==> k < |matrix[r]|
    ensures |result| == |matrix|
    ensures forall r :: 0 <= r < |matrix| ==>
              result[r] == if r < TWO_TO_32 && Turns(rowOffset, r) < segment.View().Size()
                           then matrix[r][k := segment.View().At(Turns(rowOffset, r))] else matrix[r]
  {
    result := matrix;
    for chunkOffset := 0 to segment.Size()
      invariant |result| == |matrix|
      invariant forall r :: 0 <= r < |matrix| ==>
                  result[r] == if r < TWO_TO_32 && Turns(rowOffset, r) < chunkOffset
                               then matrix[r][k := segment.View().At(Turns(rowOffset, r))] else matrix[r]
    {
      TurnsOfSum(rowOffset, chunkOffset);
      var r := Add32(rowOffset, chunkOffset);
      result := result[r := result[r][k := segment.At(chunkOffset)]];
    }
  }

  /** Copies a chunk column by column. */
  method CopyChunk(matrix: Matrix, chunk: Chunk, rowOffset: nat) returns (result: Matrix)
    requires chunk.Valid() && Readable(chunk.Cells) && Rectangular(chunk.Cells)
    requires ChunkSize(chunk.Cells) < TWO_TO_32 && rowOffset < TWO_TO_32
    requires HasShape(matrix, |matrix|, |chunk.Cells|)
    requires rowOffset + ChunkSize(chunk.Cells) <= |matrix| || TWO_TO_32 <= |matrix|
    ensures |result| == |matrix|
    ensures forall r :: 0 <= r < |matrix| ==>
              result[r] == if r < TWO_TO_32 && Turns(rowOffset, r) < ChunkSize(chunk.Cells)
                           then ChunkRow(chunk.Cells, Turns(rowOffset, r)) else matrix[r]
  {
    var size := chunk.Size();
    ghost var cells := chunk.Cells;
    result := matrix;
    for k := 0 to |chunk.columns|
      invariant HasShape(result, |matrix|, |cells|)
      invariant forall r :: 0 <= r < |matrix| && !(r < TWO_TO_32 && Turns(rowOffset, r) < size) ==>
                  result[r] == matrix[r]
      invariant forall r, j :: 0 <= r < |matrix| && r < TWO_TO_32 && Turns(rowOffset, r) < size && 0 <= j < k ==>
                  result[r][j] == cells[j].At(Turns(rowOffset, r))
    {
      assert chunk.columns[k].View() == cells[k];
      result := CopyColumn(result, chunk.columns[k], rowOffset, k);
    }
  }

  /** Row r is found under its 32-bit number. */
  ghost predicate Placed(matrix: Matrix, rows: seq<Row>, r: nat)
    requires r < |rows|
  {
    r % TWO_TO_32 < |matrix| && matrix[r % TWO_TO_32] == rows[r]
  }

  /** The matrix after the given rows have been copied into an empty one: of rows with the same 32-bit number the last
      is kept, and from row 2^32 on nothing is ever filled. */
  ghost predicate Holds(matrix: Matrix, rows: seq<Row>, emptyMatrix: Matrix) {
    && |rows| <= |matrix| == |emptyMatrix|
    && (forall r :: 0 <= r < |rows| && |rows| <= r + TWO_TO_32 ==> Placed(matrix, rows, r))
    && (forall r :: 0 <= r < |matrix| && (|rows| <= r || TWO_TO_32 <= r) ==> matrix[r] == emptyMatrix[r])
  }

  /** _table_to_matrix. Up to 2^32 rows the matrix is exactly the table's rows. Beyond, the 32-bit row offset starts
      over: later rows overwrite earlier ones and leave their own places at the default values, so the matrix is right
      if and only if all rows concerned hold nothing but default values. */
  method TableToMatrix(table: Table) returns (matrix: Matrix)
    requires table.Valid()
    ensures HasShape(matrix, |TableRows(table.View)|, |table.types|)
    ensures Holds(matrix, TableRows(table.View), EmptyMatrix(|matrix|, |table.types|))
    ensures |matrix| <= TWO_TO_32 ==> matrix == TableRows(table.View)
    ensures matrix == TableRows(table.View) <==>
              forall r :: TWO_TO_32 <= r < |matrix| ==>
                TableRows(table.View)[r] == TableRows(table.View)[r % TWO_TO_32] == DefaultRow(|table.types|)
  {
    var rowCount := table.RowCount();
    matrix := EmptyMatrix(rowCount, |table.types|);
    ghost var parts := Parts(table.types, table.View.chunks);
    ChunksShowParts(table);
    matrix := FillMatrix(table.chunks, matrix, parts, |table.types|);
    MatrixIsRightIff(matrix, TableRows(table.View), |table.types|);
  }

  /** There is a good table that _table_to_matrix reads back wrongly. */
  lemma LongTable() returns (t: TableView)
    ensures Good(t) && |TableRows(t)| == TWO_TO_32 + 1
    ensures TableRows(t)[TWO_TO_32] == [Int(1)] != DefaultRow(|t.types|)
  {
    var full := [Plain(IntType, seq(TWO_TO_32 - 1, i => Int(1)))];
    var last := [Plain(IntType, [Int(1), Int(1)])];
    t := TableView(TWO_TO_32 - 1, ["a"], [IntType], [full, last]);
    RowTotal(t);
    assert t.chunks[..1] == [full];
    PlacementOfRow(t, TWO_TO_32, 1, 1);
    assert DefaultRow(1)[0] == DEFAULT_VALUE;
  }

  function EmptyMatrix(rows: nat, columns: nat): (matrix: Matrix)
    ensures |matrix| == rows && forall r :: 0 <= r < rows ==> matrix[r] == DefaultRow(columns)
  {
    seq(rows, r => DefaultRow(columns))
  }

  lemma MatrixIsRightIff(matrix: Matrix, rows: seq<Row>, columns: nat)
    requires |matrix| == |rows| && Holds(matrix, rows, EmptyMatrix(|rows|, columns))
    ensures matrix == rows <==>
              forall r :: TWO_TO_32 <= r < |rows| ==> rows[r] == rows[r % TWO_TO_32] == DefaultRow(columns)
  {
    if matrix == rows {
      forall r | TWO_TO_32 <= r < |rows| ensures rows[r] == rows[r % TWO_TO_32] == DefaultRow(columns) {
        var last := LastAlike(|rows|, r);
        assert Placed(matrix, rows, last);
      }
    }
    if forall r :: TWO_TO_32 <= r < |rows| ==> rows[r] == rows[r % TWO_TO_32] == DefaultRow(columns) {
      forall k | 0 <= k < |rows| ensures matrix[k] == rows[k] {
        if k < TWO_TO_32 {
          var last := LastAlike(|rows|, k);
          assert Placed(matrix, rows, last);
        }
      }
    }
  }

  function DefaultRow(columns: nat): Row {
    seq(columns, k => DEFAULT_VALUE)
  }

  ghost function Concat(parts: seq<seq<Row>>): seq<Row> {
    if parts == [] then [] else Concat(parts[..|parts| - 1]) + parts[|parts| - 1]
  }

  /** The rows of each chunk. */
  ghost function Parts(types: seq<DataType>, views: seq<ChunkView>): (parts: seq<seq<Row>>)
    requires AllGood(types, views)
    ensures |parts| == |views| && forall i :: 0 <= i < |views| ==> parts[i] == ChunkRows(views[i])
  {
    seq(|views|, i requires 0 <= i < |views| => ChunkRows(views[i]))
  }

  lemma {:induction false} PartsMakeRows(types: seq<DataType>, views: seq<ChunkView>)
    requires AllGood(types, views)
    ensures Concat(Parts(types, views)) == RowsOf(types, views)
  {
    if views != [] {
      var front := views[..|views| - 1];
      PartsMakeRows(types, front);
      assert Parts(types, views)[..|front|] == Parts(types, front);
    }
  }

  lemma {:induction false} ConcatPrefix(parts: seq<seq<Row>>, i: nat)
    requires i < |parts|
    ensures Concat(parts[..i + 1]) == Concat(parts[..i]) + parts[i]
    ensures |Concat(parts[..i])| + |parts[i]| <= |Concat(parts)|
    decreases |parts|
  {
    assert parts[..i + 1][..i] == parts[..i];
    if i + 1 < |parts| {
      var front := parts[..|parts| - 1];
      ConcatPrefix(front, i);
      assert front[..i] == parts[..i];
    } else {
      assert parts[..i + 1] == parts;
    }
  }

  ghost predicate Shows(chunk: Chunk, rows: seq<Row>, columns: nat)
    reads chunk, chunk.Repr
  {
    && chunk.Valid() && |chunk.Cells| == columns
    && Readable(chunk.Cells) && Rectangular(chunk.Cells) && ChunkRows(chunk.Cells) == rows
  }

  ghost predicate AllShow(chunks: seq<Chunk>, parts: seq<seq<Row>>, columns: nat)
    reads chunks, set c, o | c in chunks && o in c.Repr :: o
  {
    && |chunks| == |parts|
    && forall i :: 0 <= i < |chunks| ==> |parts[i]| < TWO_TO_32 && Shows(chunks[i], parts[i], columns)
  }

  /** One turn of the loop over the chunks. */
  method PlaceChunk(matrix: Matrix, chunk: Chunk, rowOffset: nat, ghost filled: nat)
    returns (result: Matrix, nextOffset: nat)
    requires chunk.Valid() && Readable(chunk.Cells) && Rectangular(chunk.Cells) && ChunkSize(chunk.Cells) < TWO_TO_32
    requires HasShape(matrix, |matrix|, |chunk.Cells|)
    requires rowOffset == filled % TWO_TO_32 && filled + ChunkSize(chunk.Cells) <= |matrix|
    ensures HasShape(result, |matrix|, |chunk.Cells|)
    ensures forall r :: 0 <= r < |matrix| ==>
              result[r] == if r < TWO_TO_32 && Turns(rowOffset, r) < ChunkSize(chunk.Cells)
                           then ChunkRow(chunk.Cells, Turns(rowOffset, r)) else matrix[r]
    ensures nextOffset == (filled + ChunkSize(chunk.Cells)) % TWO_TO_32
  {
    var size := chunk.Size();
    if size == 0 {
      return matrix, rowOffset;
    }
    result := CopyChunk(matrix, chunk, rowOffset);
    nextOffset := Add32(rowOffset, size);
    AddToRemainder(filled, size);
  }

  lemma PartIsPlaced(matrix: Matrix, result: Matrix, rows: seq<Row>, part: seq<Row>, emptyMatrix: Matrix)
    requires Holds(matrix, rows, emptyMatrix) && |result| == |matrix|
    requires |part| < TWO_TO_32 && |rows| + |part| <= |matrix|
    requires forall r :: 0 <= r < |matrix| ==>
               result[r] == if r < TWO_TO_32 && Turns(|rows| % TWO_TO_32, r) < |part|
                            then part[Turns(|rows| % TWO_TO_32, r)] else matrix[r]
    ensures Holds(result, rows + part, emptyMatrix)
  {
    var all := rows + part;
    forall r | 0 <= r < |all| && |all| <= r + TWO_TO_32 ensures Placed(result, all, r) {
      TurnsBetween(|rows|, r);
      assert r < |rows| ==> Placed(matrix, rows, r);
    }
    forall r | 0 <= r < |result| && (|all| <= r || TWO_TO_32 <= r) ensures result[r] == emptyMatrix[r] {
      if r < TWO_TO_32 {
        TurnsBetween(|rows|, r);
      }
    }
  }

  /** One turn of the loop, as it changes the matrix as a whole. */
  method PlacePart(matrix: Matrix, chunk: Chunk, rowOffset: nat, ghost parts: seq<seq<Row>>, ghost i: nat,
                   ghost emptyMatrix: Matrix)
    returns (result: Matrix, nextOffset: nat)
    requires i < |parts| && |parts[i]| < TWO_TO_32 && Shows(chunk, parts[i], |chunk.Cells|)
    requires HasShape(matrix, |Concat(parts)|, |chunk.Cells|) && Holds(matrix, Concat(parts[..i]), emptyMatrix)
    requires rowOffset == |Concat(parts[..i])| % TWO_TO_32
    ensures HasShape(result, |Concat(parts)|, |chunk.Cells|) && Holds(result, Concat(parts[..i + 1]), emptyMatrix)
    ensures nextOffset == |Concat(parts[..i + 1])| % TWO_TO_32
  {
    ConcatPrefix(parts, i);
    result, nextOffset := PlaceChunk(matrix, chunk, rowOffset, |Concat(parts[..i])|);
    PartIsPlaced(matrix, result, Concat(parts[..i]), parts[i], emptyMatrix);
  }

  lemma ChunksShowParts(table: Table)
    requires table.Valid()
    ensures AllShow(table.chunks, Parts(table.types, table.View.chunks), |table.types|)
    ensures Concat(Parts(table.types, table.View.chunks)) == TableRows(table.View)
  {
    var views := table.View.chunks;
    forall i | 0 <= i < |views| ensures Shows(table.chunks[i], ChunkRows(views[i]), |table.types|) {
      assert GoodChunk(table.types, views[i]);
    }
    forall i | 0 <= i < |views| ensures ChunkSize(views[i]) < TWO_TO_32 {
      assert i == |views| - 1 || ChunkSize(views[i]) == table.capacity;
    }
    PartsMakeRows(table.types, views);
  }

  method FillMatrix(chunks: seq<Chunk>, emptyMatrix: Matrix, ghost parts: seq<seq<Row>>, ghost columns: nat)
    returns (matrix: Matrix)
    requires AllShow(chunks, parts, columns)
    requires HasShape(emptyMatrix, |Concat(parts)|, columns)
    ensures HasShape(matrix, |emptyMatrix|, columns)
    ensures Holds(matrix, Concat(parts), emptyMatrix)
  {
    matrix := emptyMatrix;
    var rowOffset := 0;
    for i := 0 to |chunks|
      invariant AllShow(chunks, parts, columns)
      invariant rowOffset == |Concat(parts[..i])| % TWO_TO_32
      invariant HasShape(matrix, |Concat(parts)|, columns) && Holds(matrix, Concat(parts[..i]), emptyMatrix)
    {
      matrix, rowOffset := PlacePart(matrix, chunks[i], rowOffset, parts, i, emptyMatrix);
    }
    assert parts[..|parts|] == parts;
  }

  // ---------------------------------------------------------------- any run, read back

  /** One operation on a table object is one step of the model. */
  method Perform(table: Table, op: Op)
    requires table.Valid() && Admissible(table.lexical, table.View, op)
    modifies table.Repr
    ensures table.Valid() && fresh(table.Repr - old(table.Repr))
    ensures table.View == Step(table.lexical, old(table.View), op).0
  {
    var ok;
    match op {
      case AddColumnOp(name, ty) => ok := table.AddColumn(name, ty);
      case AppendOp(row) => ok := table.Append(row);
      case CompressOp(id) => ok := table.CompressChunk(id);
    }
  }

  /** Any run on a new table that adds columns first and compresses only full chunks, read back with
      _table_to_matrix: the matrix is exactly the list of rows handed to append, each cast to its column types, up to
      2^32 rows and beyond as far as _table_to_matrix is right. */
  method ReadBackRun(lexical: Lexical, capacity: nat, ops: seq<Op>) returns (matrix: Matrix)
    requires 0 < capacity < TWO_TO_32
    requires AdmissibleRun(lexical, NewTable(capacity), ops) && DisciplinedRun(lexical, NewTable(capacity), ops)
    ensures var rows, table := AllRows(lexical, NewTable(capacity), ops), Run(lexical, NewTable(capacity), ops);
      && |matrix| == |rows|
      && (|rows| <= TWO_TO_32 ==> matrix == rows)
      && (matrix == rows <==>
            forall r :: TWO_TO_32 <= r < |rows| ==> rows[r] == rows[r % TWO_TO_32] == DefaultRow(|table.types|))
  {
    var table := new Table(lexical, capacity);
    for i := 0 to |ops|
      invariant table.Valid() && fresh(table.Repr)
      invariant AdmissibleRun(lexical, table.View, ops[i..])
      invariant Run(lexical, table.View, ops[i..]) == Run(lexical, NewTable(capacity), ops)
    {
      assert ops[i..][0] == ops[i] && ops[i..][1..] == ops[i + 1..];
      Perform(table, ops[i]);
    }
    CompressionIsInvisible(lexical, capacity, ops);
    matrix := TableToMatrix(table);
  }

  // ---------------------------------------------------------------- comparison

  /** EXPECT_NEAR for floating-point columns, EXPECT_EQ for all others. */
  predicate CellsAgree(ty: DataType, a: Value, b: Value) {
    match ty
    case FloatType => a.Float? && b.Float? && -0.0001 <= a.f - b.f <= 0.0001
    case DoubleType => a.Double? && b.Double? && -0.0001 <= a.d - b.d <= 0.0001
    case _ => a == b
  }

  ghost predicate MatricesAgree(types: seq<DataType>, left: Matrix, right: Matrix) {
    && |left| == |right|
    && forall r, k :: 0 <= r < |left| && 0 <= k < |left[r]| ==>
         k < |types| && k < |right[r]| && CellsAgree(types[k], left[r][k], right[r][k])
  }

  ghost predicate SameSchema(left: TableView, right: TableView) {
    left.names == right.names && left.types == right.types
  }

  method SchemasEqual(leftNames: seq<string>, leftTypes: seq<DataType>, rightNames: seq<string>,
                      rightTypes: seq<DataType>)
    returns (equal: bool)
    requires |leftNames| == |leftTypes| && |rightNames| == |rightTypes|
    ensures equal <==> leftNames == rightNames && leftTypes == rightTypes
  {
    if |leftNames| != |rightNames| {
      return false;
    }
    for k := 0 to |rightNames|
      invariant leftNames[..k] == rightNames[..k] && leftTypes[..k] == rightTypes[..k]
    {
      if leftTypes[k] != rightTypes[k] || leftNames[k] != rightNames[k] {
        return false;
      }
    }
    assert leftNames[..|leftNames|] == leftNames && rightNames[..|rightNames|] == rightNames;
    assert leftTypes[..|leftTypes|] == leftTypes && rightTypes[..|rightTypes|] == rightTypes;
    return true;
  }

  /** A 32-bit loop counter after a number of increments. */
  function Counter(increments: nat): (row: nat)
    ensures row < TWO_TO_32
  {
    if increments == 0 then 0 else Add32(Counter(increments - 1), 1)
  }

  lemma {:induction false} CounterBelow(increments: nat)
    requires increments < TWO_TO_32
    ensures Counter(increments) == increments
  {
    if increments > 0 {
      CounterBelow(increments - 1);
    }
  }

  /** A loop over n rows with that counter ends if and only if n fits in 32 bits. */
  lemma RowLoopEndsIff(n: nat)
    ensures (exists increments :: Counter(increments) >= n) <==> n < TWO_TO_32
  {
    if n < TWO_TO_32 {
      CounterBelow(n);
    }
  }

  /** The comparison loops: the number of EXPECT failures they record. */
  method CountDifferences(types: seq<DataType>, left: Matrix, right: Matrix) returns (failures: nat)
    requires |left| == |right| < TWO_TO_32
    requires HasShape(left, |left|, |types|) && HasShape(right, |right|, |types|)
    ensures failures == 0 <==> MatricesAgree(types, left, right)
  {
    failures := 0;
    var row := 0;
    while row < |left|
      invariant row <= |left|
      invariant failures == 0 <==> MatricesAgree(types, left[..row], right[..row])
    {
      var before := failures;
      for k := 0 to |left[row]|
        invariant failures == 0 <==>
          before == 0 && forall j :: 0 <= j < k ==> CellsAgree(types[j], left[row][j], right[row][j])
      {
        if !CellsAgree(types[k], left[row][k], right[row][k]) {
          failures := failures + 1;
        }
      }
      ExtendAgreement(types, left, right, row);
      row := Add32(row, 1);
    }
    assert left[..|left|] == left && right[..|right|] == right;
  }

  lemma ExtendAgreement(types: seq<DataType>, left: Matrix, right: Matrix, row: nat)
    requires |left| == |right| && row < |left|
    requires HasShape(left, |left|, |types|) && HasShape(right, |right|, |types|)
    ensures MatricesAgree(types, left[..row + 1], right[..row + 1]) <==>
      MatricesAgree(types, left[..row], right[..row])
      && forall k :: 0 <= k < |types| ==> CellsAgree(types[k], left[row][k], right[row][k])
  {
    var l, r := left[..row + 1], right[..row + 1];
    assert forall i :: 0 <= i < row ==> l[i] == left[..row][i] && r[i] == right[..row][i];
    assert l[row] == left[row] && r[row] == right[row];
  }

  /** What the comparison of two row lists accepts, in order or after sorting both. */
  ghost predicate RowsAgree(types: seq<DataType>, left: Matrix, right: Matrix, orderSensitive: bool) {
    if orderSensitive then MatricesAgree(types, left, right)
    else MatricesAgree(types, Sort(RowLess, left), Sort(RowLess, right))
  }

  /** How a comparison ends: with the returned result and the number of expectations that failed inside the loops
      (those are only recorded), or not at all. */
  datatype Comparison = Returned(success: bool, failures: nat) | NeverReturns

  /** Row counts, sorting, and the loops; `RowLoopEndsIff` is why they do not return from 2^32 rows on. */
  method CompareRows(types: seq<DataType>, left: Matrix, right: Matrix, orderSensitive: bool)
    returns (result: Comparison)
    requires HasShape(left, |left|, |types|) && HasShape(right, |right|, |types|)
    ensures result.NeverReturns? <==> |left| == |right| >= TWO_TO_32
    ensures result.Returned? ==>
              (result.success && result.failures == 0 <==> RowsAgree(types, left, right, orderSensitive))
  {
    if |left| != |right| {
      DifferentCountsDisagree(types, left, right, orderSensitive);
      return Returned(false, 0);
    }
    if |left| >= TWO_TO_32 {
      return NeverReturns;
    }
    var failures;
    if orderSensitive {
      failures := CountDifferences(types, left, right);
    } else {
      SortKeepsShape(left, |types|);
      SortKeepsShape(right, |types|);
      failures := CountDifferences(types, Sort(RowLess, left), Sort(RowLess, right));
    }
    return Returned(true, failures);
  }

  /** What two tables must have in common to compare equal. */
  ghost predicate TablesAgree(left: TableView, right: TableView, orderSensitive: bool)
    requires Good(left) && Good(right)
  {
    SameSchema(left, right) && RowsAgree(left.types, TableRows(left), TableRows(right), orderSensitive)
  }

  /** _table_equal with strict types, for tables of any size: it fails to return exactly when tables of the same
      schema have equally many rows and at least 2^32 of them, and decides agreement whenever it returns. */
  method TableEqual(left: Table, right: Table, orderSensitive: bool) returns (result: Comparison)
    requires left.Valid() && right.Valid()
    ensures result.NeverReturns? <==>
              SameSchema(left.View, right.View) && |TableRows(left.View)| == |TableRows(right.View)| >= TWO_TO_32
    ensures result.Returned? ==>
              (result.success && result.failures == 0 <==> TablesAgree(left.View, right.View, orderSensitive))
  {
    var leftMatrix := TableToMatrix(left);
    var rightMatrix := TableToMatrix(right);
    var sameSchema := SchemasEqual(left.names, left.types, right.names, right.types);
    if !sameSchema {
      return Returned(false, 0);
    }
    result := CompareRows(left.types, leftMatrix, rightMatrix, orderSensitive);
    if |leftMatrix| != |rightMatrix| {
      DifferentCountsDisagree(left.types, leftMatrix, rightMatrix, orderSensitive);
      DifferentCountsDisagree(left.types, TableRows(left.View), TableRows(right.View), orderSensitive);
    }
  }

  lemma DifferentCountsDisagree(types: seq<DataType>, left: Matrix, right: Matrix, orderSensitive: bool)
    requires |left| != |right|
    ensures !RowsAgree(types, left, right, orderSensitive)
  {
    RowOrder();
    SortElements(RowLess, left);
    SortElements(RowLess, right);
  }

  lemma {:induction false} RowsHaveShapeIn(types: seq<DataType>, chunks: seq<ChunkView>)
    requires AllGood(types, chunks)
    ensures HasShape(RowsOf(types, chunks), RowCountFrom(chunks), |types|)
  {
    if chunks != [] {
      RowsHaveShapeIn(types, chunks[..|chunks| - 1]);
      assert GoodChunk(types, chunks[|chunks| - 1]);
    }
  }

  lemma RowsHaveShape(t: TableView)
    requires Good(t)
    ensures HasShape(TableRows(t), |TableRows(t)|, |t.types|)
  {
    RowsHaveShapeIn(t.types, t.chunks);
  }

  lemma {:induction false} SortKeepsShape(matrix: Matrix, columns: nat)
    requires HasShape(matrix, |matrix|, columns)
    ensures HasShape(Sort(RowLess, matrix), |matrix|, columns)
  {
    RowOrder();
    SortElements(RowLess, matrix);
    var sorted := Sort(RowLess, matrix);
    forall r | 0 <= r < |sorted| ensures |sorted[r]| == columns {
      assert sorted[r] in matrix;
    }
  }

  ghost predicate ExactTypes(types: seq<DataType>) {
    forall k :: 0 <= k < |types| ==> types[k] != FloatType && types[k] != DoubleType
  }

  lemma ExactMatricesAgree(types: seq<DataType>, left: Matrix, right: Matrix)
    requires ExactTypes(types)
    requires HasShape(left, |left|, |types|) && HasShape(right, |right|, |types|)
    ensures MatricesAgree(types, left, right) <==> left == right
  {
    if MatricesAgree(types, left, right) {
      forall r | 0 <= r < |left| ensures left[r] == right[r] {
        assert forall k :: 0 <= k < |left[r]| ==> CellsAgree(types[k], left[r][k], right[r][k]);
      }
    }
  }

  ghost predicate TypedRow(types: seq<DataType>, row: Row) {
    |row| == |types| && forall k :: 0 <= k < |row| ==> TypeOf(row[k]) == types[k]
  }

  lemma {:induction false} RowsAreTyped(types: seq<DataType>, chunks: seq<ChunkView>)
    requires AllGood(types, chunks)
    ensures forall r :: 0 <= r < |RowsOf(types, chunks)| ==> TypedRow(types, RowsOf(types, chunks)[r])
  {
    if chunks != [] {
      var last := chunks[|chunks| - 1];
      RowsAreTyped(types, chunks[..|chunks| - 1]);
      forall r | 0 <= r < ChunkSize(last) ensures TypedRow(types, ChunkRow(last, r)) {
        assert forall k :: 0 <= k < |last| ==> last[k].Typed();
      }
    }
  }

  lemma EqualMatricesAgree(types: seq<DataType>, matrix: Matrix)
    requires forall r :: 0 <= r < |matrix| ==> TypedRow(types, matrix[r])
    ensures MatricesAgree(types, matrix, matrix)
  {
  }

  lemma SortKeepsTypes(types: seq<DataType>, matrix: Matrix)
    requires forall r :: 0 <= r < |matrix| ==> TypedRow(types, matrix[r])
    ensures |Sort(RowLess, matrix)| == |matrix|
    ensures forall r :: 0 <= r < |matrix| ==> TypedRow(types, Sort(RowLess, matrix)[r])
  {
    RowOrder();
    SortElements(RowLess, matrix);
    var sorted := Sort(RowLess, matrix);
    forall r | 0 <= r < |sorted| ensures TypedRow(types, sorted[r]) {
      assert sorted[r] in matrix;
    }
  }

  /** Two good tables with the same multiset of rows always compare equal without order, and with the same list of
      rows in order, whatever their chunk sizes and compression. Without floating-point columns they compare equal
      only then. */
  lemma UnorderedComparisonIsMultisetEquality(left: TableView, right: TableView)
    requires Good(left) && Good(right) && SameSchema(left, right)
    ensures var l, r := TableRows(left), TableRows(right);
      && (l == r ==> TablesAgree(left, right, true))
      && (multiset(l) == multiset(r) ==> TablesAgree(left, right, false))
    ensures ExactTypes(left.types) ==>
      var l, r := TableRows(left), TableRows(right);
      && (TablesAgree(left, right, true) ==> l == r)
      && (TablesAgree(left, right, false) ==> multiset(l) == multiset(r))
  {
    var l, r := TableRows(left), TableRows(right);
    RowOrder();
    SortEqualIffSameMultiset(RowLess, l, r);
    RowsAreTyped(left.types, left.chunks);
    SortKeepsTypes(left.types, l);
    EqualMatricesAgree(left.types, l);
    EqualMatricesAgree(left.types, Sort(RowLess, l));
    if ExactTypes(left.types) {
      RowsHaveShape(left);
      RowsHaveShape(right);
      SortKeepsShape(l, |left.types|);
      SortKeepsShape(r, |left.types|);
      ExactMatricesAgree(left.types, l, r);
      ExactMatricesAgree(left.types, Sort(RowLess, l), Sort(RowLess, r));
    }
  }

  /** Equal, or in a floating-point column no further apart than 0.0001. */
  ghost predicate WithinTolerance(ty: DataType, a: Value, b: Value) {
    || a == b
    || (ty == FloatType && a.Float? && b.Float? && a.f <= b.f + 0.0001 && b.f <= a.f + 0.0001)
    || (ty == DoubleType && a.Double? && b.Double? && a.d <= b.d + 0.0001 && b.d <= a.d + 0.0001)
  }

  ghost predicate RowsWithinTolerance(types: seq<DataType>, left: seq<Row>, right: seq<Row>) {
    && |left| == |right|
    && forall i, k :: 0 <= i < |left| && 0 <= k < |types| ==>
         k < |left[i]| && k < |right[i]| && WithinTolerance(types[k], left[i][k], right[i][k])
  }

  lemma MatricesAgreeExactly(types: seq<DataType>, left: Matrix, right: Matrix)
    requires forall r :: 0 <= r < |left| ==> TypedRow(types, left[r])
    requires forall r :: 0 <= r < |right| ==> TypedRow(types, right[r])
    ensures MatricesAgree(types, left, right) <==> RowsWithinTolerance(types, left, right)
  {
    forall r, k | 0 <= r < |left| && r < |right| && 0 <= k < |types|
      ensures CellsAgree(types[k], left[r][k], right[r][k]) <==> WithinTolerance(types[k], left[r][k], right[r][k])
    {
      assert TypeOf(left[r][k]) == types[k] == TypeOf(right[r][k]);
    }
  }

  /** For any column types: tables of one schema compare equal if and only if they have equally many rows and, in order
      or with both sides sorted, cell by cell the values are equal or, in floating-point columns, at most 0.0001
      apart. */
  lemma TablesAgreeExactly(left: TableView, right: TableView)
    requires Good(left) && Good(right) && SameSchema(left, right)
    ensures var l, r := TableRows(left), TableRows(right);
      && (TablesAgree(left, right, true) <==> RowsWithinTolerance(left.types, l, r))
      && (TablesAgree(left, right, false)
          <==> RowsWithinTolerance(left.types, Sort(RowLess, l), Sort(RowLess, r)))
  {
    var l, r := TableRows(left), TableRows(right);
    RowsAreTyped(left.types, left.chunks);
    RowsAreTyped(left.types, right.chunks);
    SortKeepsTypes(left.types, l);
    SortKeepsTypes(left.types, r);
    MatricesAgreeExactly(left.types, l, r);
    MatricesAgreeExactly(left.types, Sort(RowLess, l), Sort(RowLess, r));
  }

  /** One floating-point cell further apart makes the ordered comparison fail. */
  lemma FarFloatsCompareUnequal(left: TableView, right: TableView, i: nat, k: nat)
    requires Good(left) && Good(right) && SameSchema(left, right)
    requires i < |TableRows(left)| && i < |TableRows(right)| && k < |left.types|
    ensures TablesAgree(left, right, true) ==>
      && k < |TableRows(left)[i]| && k < |TableRows(right)[i]|
      && var a, b := TableRows(left)[i][k], TableRows(right)[i][k];
         && (left.types[k] == FloatType ==> a.Float? && b.Float? && -0.0001 <= a.f - b.f <= 0.0001)
         && (left.types[k] == DoubleType ==> a.Double? && b.Double? && -0.0001 <= a.d - b.d <= 0.0001)
         && (left.types[k] != FloatType && left.types[k] != DoubleType ==> a == b)
  {
    TablesAgreeExactly(left, right);
    RowsAreTyped(left.types, left.chunks);
    RowsAreTyped(left.types, right.chunks);
    if TablesAgree(left, right, true) {
      assert WithinTolerance(left.types[k], TableRows(left)[i][k], TableRows(right)[i][k]);
      assert TypedRow(left.types, TableRows(left)[i]) && TypedRow(left.types, TableRows(right)[i]);
    }
  }

  ghost function OneCell(v: Value): (t: TableView)
    ensures Good(t) && TableRows(t) == [[v]]
  {
    var t := TableView(1, ["a"], [TypeOf(v)], [[Plain(TypeOf(v), [v])]]);
    assert ChunkRow(t.chunks[0], 0) == [v];
    assert ChunkRows(t.chunks[0]) == [[v]];
    assert RowsOf(t.types, t.chunks[..0]) == [];
    t
  }

  /** With a floating-point column, tables that hold different rows can compare equal. */
  lemma CloseFloatsCompareEqual() returns (left: TableView, right: TableView)
    ensures Good(left) && Good(right) && SameSchema(left, right)
    ensures TablesAgree(left, right, true) && TablesAgree(left, right, false)
    ensures multiset(TableRows(left)) != multiset(TableRows(right))
  {
    left, right := OneCell(Float(0.0)), OneCell(Float(0.00005));
    assert [Float(0.0)] in multiset(TableRows(left));
    assert Sort(RowLess, TableRows(left)) == TableRows(left) && Sort(RowLess, TableRows(right)) == TableRows(right);
  }

  lemma FarDoublesCompareUnequal() returns (left: TableView, right: TableView)
    ensures Good(left) && Good(right) && SameSchema(left, right)
    ensures TableRows(left) == [[Double(1.0)]] && TableRows(right) == [[Double(1000.0)]]
    ensures !TablesAgree(left, right, true) && !TablesAgree(left, right, false)
  {
    left, right := OneCell(Double(1.0)), OneCell(Double(1000.0));
    TablesAgreeExactly(left, right);
    assert Sort(RowLess, TableRows(left)) == TableRows(left) && Sort(RowLess, TableRows(right)) == TableRows(right);
    assert !WithinTolerance(DoubleType, Double(1.0), Double(1000.0));
    assert left.types[0] == DoubleType;
    assert TableRows(left)[0][0] == Double(1.0) && TableRows(right)[0][0] == Double(1000.0);
  }
}
