/** Chunks and tables as objects that change in place (src/lib/storage/chunk.cpp, src/lib/storage/table.cpp).
    Every method is proved to change the abstract value exactly as `TableModel` says. */
module Tables {
  import opened Wrappers
  import opened Values
  import opened DictionaryEncoding
  import opened TableModel
  import opened Segments

  ghost predicate Separate(columns: seq<Segment>) {
    forall j, k :: 0 <= j < k < |columns| ==> columns[j].Repr() !! columns[k].Repr()
  }

  ghost predicate AllDictionaries(columns: seq<Segment>) {
    forall k :: 0 <= k < |columns| ==> columns[k].DictionarySeg?
  }

  class Chunk {
    var columns: seq<Segment>
    ghost var Cells: ChunkView  // what the columns hold
    ghost var Repr: set<object>

    ghost predicate Valid()
      reads this, Repr
    {
      && this in Repr
      && |Cells| == |columns|
      && (forall k :: 0 <= k < |columns| ==>
            columns[k].Repr() <= Repr && this !in columns[k].Repr() && columns[k].View() == Cells[k])
      && Separate(columns)
    }

    constructor ()
      ensures Valid() && Repr == {this} && columns == [] && Cells == []
    {
      columns := [];
      Cells := [];
      Repr := {this};
    }

    method AddSegment(segment: Segment)
      requires Valid() && segment.Repr() !! Repr
      modifies this
      ensures Valid() && Repr == old(Repr) + segment.Repr()
      ensures columns == old(columns) + [segment] && Cells == old(Cells) + [segment.View()]
    {
      columns := columns + [segment];
      Cells := Cells + [segment.View()];
      Repr := Repr + segment.Repr();
    }

    function Size(): (n: nat)
      requires Valid()
      reads this, Repr
      ensures n == ChunkSize(Cells)
    {
      if columns == [] then 0 else columns[0].Size()
    }

    /** Appends column by column. An exception in one column leaves the columns before it appended. */
    method Append(lexical: Lexical, row: Row) returns (ok: bool)
      requires Valid()
      modifies Repr
      ensures Valid() && Repr == old(Repr) && columns == old(columns)
      ensures (Cells, ok) == ChunkAppend(lexical, old(Cells), row)
    {
      if |row| != |columns| % 0x1_0000 {
        return false;
      }
      for k := 0 to |row|
        invariant Valid() && Repr == old(Repr) && columns == old(columns)
        invariant ChunkAppend(lexical, old(Cells), row) == ChunkAppendFrom(lexical, Cells, row, k)
      {
        var appended := AppendCell(lexical, k, row[k]);
        if !appended {
          return false;
        }
      }
      return true;
    }

    method AppendCell(lexical: Lexical, k: nat, v: Value) returns (ok: bool)
      requires Valid() && k < |columns|
      modifies Repr
      ensures Valid() && Repr == old(Repr) && columns == old(columns)
      ensures ok == SegmentAppend(lexical, old(Cells)[k], v).Some?
      ensures Cells == if ok then old(Cells)[k := SegmentAppend(lexical, old(Cells)[k], v).value] else old(Cells)
    {
      ok := columns[k].Append(lexical, v);
      assert forall j :: 0 <= j < |columns| && j != k ==> columns[j].View() == Cells[j];
      Cells := Cells[k := columns[k].View()];
    }
  }

  class Table {
    const lexical: Lexical
    const capacity: nat
    var names: seq<string>
    var types: seq<DataType>
    var chunks: seq<Chunk>
    ghost var View: TableView  // what the table holds
    ghost var Repr: set<object>

    /** Every chunk is intact, and no object belongs to two of them. */
    ghost predicate Owns()
      reads this, Repr
    {
      && this in Repr
      && (forall i :: 0 <= i < |chunks| ==>
            chunks[i] in Repr && chunks[i].Repr <= Repr && this !in chunks[i].Repr && chunks[i].Valid())
      && (forall i, j :: 0 <= i < j < |chunks| ==> chunks[i].Repr !! chunks[j].Repr)
    }

    /** View is what the fields hold. */
    ghost predicate Mirrors()
      reads this, chunks
    {
      && View.capacity == capacity && View.names == names && View.types == types
      && |View.chunks| == |chunks| && forall i :: 0 <= i < |chunks| ==> View.chunks[i] == chunks[i].Cells
    }

    ghost predicate Intact()
      reads this, Repr, chunks
    {
      Owns() && Mirrors()
    }

    ghost predicate Valid()
      reads this, Repr, chunks
    {
      Intact() && Good(View)
    }

    constructor (lexical: Lexical, capacity: nat)
      requires 0 < capacity < TWO_TO_32
      ensures Valid() && fresh(Repr) && this.lexical == lexical
      ensures View == NewTable(capacity)
    {
      this.lexical := lexical;
      this.capacity := capacity;
      names := [];
      types := [];
      var first := new Chunk();
      chunks := [first];
      Repr := {this} + first.Repr;
      View := NewTable(capacity);
      new;
      NewTableIsGood(capacity);
    }

    function ChunkCount(): nat
      reads this
    {
      |chunks|
    }

    /** Sums the chunk sizes. */
    method RowCount() returns (n: nat)
      requires Intact()
      ensures n == TableModel.RowCount(View)
    {
      ghost var views := View.chunks;
      n := 0;
      for i := 0 to |chunks|
        invariant n == RowCountFrom(views[..i])
      {
        n := n + chunks[i].Size();
        assert views[..i + 1][..i] == views[..i];
      }
      assert views[..|chunks|] == views;
    }

    /** Adds a column to every chunk; throws if the table has rows. Column ids are 16 bits wide. */
    method AddColumn(name: string, ty: DataType) returns (ok: bool)
      requires Valid() && Admissible(lexical, View, AddColumnOp(name, ty))
      modifies Repr
      ensures Valid() && fresh(Repr - old(Repr))
      ensures (View, ok) == TableModel.AddColumn(old(View), name, ty)
      ensures ok <==> old(TableRows(View)) == []
      ensures TableRows(View) == old(TableRows(View))
    {
      ghost var before := View;
      var rows := RowCount();
      if rows != 0 {
        AddColumnStep(before, name, ty);
        return false;
      }
      AddSegments(name, ty);
      AddColumnStep(before, name, ty);
      return true;
    }

    method AddSegments(name: string, ty: DataType)
      requires Intact() && TableModel.RowCount(View) == 0
      modifies Repr
      ensures Intact() && fresh(Repr - old(Repr))
      ensures View == TableModel.AddColumn(old(View), name, ty).0
    {
      ghost var views := View.chunks;
      names := names + [name];
      types := types + [ty];
      View := View.(names := names, types := types);
      for i := 0 to |chunks|
        invariant chunks == old(chunks) && names == old(names) + [name] && types == old(types) + [ty]
        invariant Intact() && fresh(Repr - old(Repr))
        invariant forall j :: 0 <= j < |chunks| ==>
                    View.chunks[j] == if j < i then views[j] + [Plain(ty, [])] else views[j]
      {
        AddSegmentTo(i, ty);
      }
      assert View.chunks == TableModel.AddColumn(old(View), name, ty).0.chunks;
    }

    method AddSegmentTo(i: nat, ty: DataType)
      requires Intact() && i < |chunks|
      modifies Repr
      ensures Intact() && fresh(Repr - old(Repr))
      ensures chunks == old(chunks) && names == old(names) && types == old(types)
      ensures View == old(View).(chunks := old(View).chunks[i := old(View).chunks[i] + [Plain(ty, [])]])
    {
      AddSegmentToChunk(i, ty);
      View := View.(chunks := View.chunks[i := chunks[i].Cells]);
    }

    method AddSegmentToChunk(i: nat, ty: DataType)
      requires Owns() && i < |chunks|
      modifies this`Repr, chunks[i]
      ensures Owns() && fresh(Repr - old(Repr))
      ensures forall j :: 0 <= j < |chunks| && j != i ==> chunks[j].Cells == old(chunks[j].Cells)
      ensures chunks[i].Cells == old(chunks[i].Cells) + [Plain(ty, [])]
    {
      var segment := new ValueSegment(ty);
      var chunk := chunks[i];
      chunk.AddSegment(ValueSeg(segment));
      Repr := Repr + {segment};
      assert forall j :: 0 <= j < |chunks| && j != i ==> chunk !in chunks[j].Repr && segment !in chunks[j].Repr;
    }

    /** Appends a row to the last chunk, after starting a new one if that is full. Chunk ids are 32 bits wide. */
    method Append(row: Row) returns (ok: bool)
      requires Valid() && Admissible(lexical, View, AppendOp(row))
      modifies Repr
      ensures Valid() && fresh(Repr - old(Repr))
      ensures (View, ok) == AppendRow(lexical, old(View), row)
      ensures ok <==> ChunkSize(LastChunk(old(View))) == capacity || LastChunk(old(View))[0].Plain?
      ensures TableRows(View) == old(TableRows(View)) + if ok then [CastRow(lexical, old(types), row)] else []
    {
      ghost var before := View;
      ok := AppendIntact(row);
      AppendStep(lexical, before, row);
    }

    method AppendIntact(row: Row) returns (ok: bool)
      requires Intact() && chunks != []
      modifies Repr
      ensures Intact() && fresh(Repr - old(Repr))
      ensures (View, ok) == AppendRow(lexical, old(View), row)
    {
      StartFreeChunk();
      ok := AppendToLast(row);
    }

    method StartFreeChunk()
      requires Intact() && chunks != []
      modifies this
      ensures Intact() && fresh(Repr - old(Repr))
      ensures chunks != [] && View == WithFreeChunk(old(View))
    {
      if chunks[|chunks| - 1].Size() == capacity {
        var chunk := NewEmptyChunk(types);
        AddChunk(chunk);
      }
    }

    method AddChunk(chunk: Chunk)
      requires Intact() && chunk.Valid() && chunk.Repr !! Repr
      modifies this
      ensures Intact() && Repr == old(Repr) + chunk.Repr
      ensures View == old(View).(chunks := old(View).chunks + [chunk.Cells])
    {
      chunks := chunks + [chunk];
      Repr := Repr + chunk.Repr;
      View := View.(chunks := View.chunks + [chunk.Cells]);
    }

    method AppendToLast(row: Row) returns (ok: bool)
      requires Intact() && chunks != []
      modifies Repr
      ensures Intact() && Repr == old(Repr) && chunks == old(chunks)
      ensures var (c, done) := ChunkAppend(lexical, old(View).chunks[|chunks| - 1], row);
        ok == done && View == old(View).(chunks := old(View).chunks[|chunks| - 1 := c])
    {
      ok := AppendToChunk(|chunks| - 1, row);
      View := View.(chunks := View.chunks[|chunks| - 1 := chunks[|chunks| - 1].Cells]);
    }

    method AppendToChunk(i: nat, row: Row) returns (ok: bool)
      requires Owns() && i < |chunks|
      modifies chunks[i].Repr
      ensures Owns() && Repr == old(Repr) && chunks == old(chunks)
      ensures forall j :: 0 <= j < |chunks| && j != i ==> chunks[j].Cells == old(chunks[j].Cells)
      ensures (chunks[i].Cells, ok) == ChunkAppend(lexical, old(chunks[i].Cells), row)
    {
      ok := chunks[i].Append(lexical, row);
    }

    /** Replaces a chunk by its dictionary-encoded form; throws out_of_range for an unknown id. */
    method CompressChunk(id: ChunkID) returns (ok: bool)
      requires Valid()
      modifies this
      ensures Valid() && fresh(Repr - old(Repr))
      ensures (View, ok) == CompressAt(old(View), id)
      ensures TableRows(View) == old(TableRows(View))
      ensures ok <==> id < |old(chunks)|
      ensures chunks == if ok then old(chunks)[id := chunks[id]] else old(chunks)
      ensures View.chunks == if ok then old(View).chunks[id := View.chunks[id]] else old(View).chunks
      ensures ok ==> IsCompressedForm(View.chunks[id], old(View).chunks[id]) && AllDictionaries(chunks[id].columns)
    {
      ghost var before := View;
      if id < |chunks| {
        assert GoodChunk(before.types, before.chunks[id]);
        CompressIntact(id);
      }
      CompressStep(before, id);
      CompressionTakesPlace(before, id);
      return id < |chunks|;
    }

    method CompressIntact(id: ChunkID)
      requires Intact() && id < |chunks| && MatchesSchema(types, chunks[id].Cells)
      modifies this
      ensures Intact() && fresh(Repr - old(Repr))
      ensures View == old(View).(chunks := old(View).chunks[id := TableModel.CompressChunk(old(View).chunks[id])])
      ensures chunks == old(chunks)[id := chunks[id]] && AllDictionaries(chunks[id].columns)
    {
      var chunk := CompressedCopy(chunks[id], types);
      ReplaceChunk(id, chunk);
    }

    method ReplaceChunk(id: nat, chunk: Chunk)
      requires Intact() && id < |chunks|
      requires chunk.Valid() && chunk.Repr !! Repr
      modifies this
      ensures Intact() && Repr == old(Repr) + chunk.Repr
      ensures View == old(View).(chunks := old(View).chunks[id := chunk.Cells])
      ensures chunks == old(chunks)[id := chunk]
    {
      chunks := chunks[id := chunk];
      Repr := Repr + chunk.Repr;
      View := View.(chunks := View.chunks[id := chunk.Cells]);
    }
  }

  method NewEmptyChunk(types: seq<DataType>) returns (chunk: Chunk)
    ensures chunk.Valid() && fresh(chunk.Repr) && chunk.Cells == EmptyChunk(types)
  {
    chunk := new Chunk();
    for k := 0 to |types|
      invariant chunk.Valid() && fresh(chunk.Repr) && chunk.Cells == EmptyChunk(types[..k])
    {
      var segment := new ValueSegment(types[k]);
      chunk.AddSegment(ValueSeg(segment));
    }
    assert types[..|types|] == types;
  }

  ghost predicate MatchesSchema(types: seq<DataType>, c: ChunkView) {
    && |c| == |types|
    && Readable(c)
    && forall k :: 0 <= k < |c| ==> c[k].Typed() && c[k].ty == types[k]
  }

  method CompressedCopy(source: Chunk, types: seq<DataType>) returns (chunk: Chunk)
    requires source.Valid() && MatchesSchema(types, source.Cells)
    ensures chunk.Valid() && fresh(chunk.Repr)
    ensures chunk.Cells == TableModel.CompressChunk(source.Cells) && AllDictionaries(chunk.columns)
  {
    var compressed, made := CompressColumns(source, types, source.Cells);
    chunk := AssembleChunk(compressed, made);
    assert |chunk.Cells| == |source.Cells|;
  }

  /** The threads of compress_chunk, run one after the other in column order; `CompressProtocol` covers the
      other interleavings. */
  method CompressColumns(source: Chunk, types: seq<DataType>, ghost cells: ChunkView)
    returns (compressed: seq<Segment>, ghost made: set<object>)
    requires source.Valid() && source.Cells == cells && MatchesSchema(types, cells)
    ensures Separate(compressed) && |compressed| == |cells|
    ensures fresh(made) && forall k :: 0 <= k < |compressed| ==> compressed[k].Repr() <= made
    ensures forall k :: 0 <= k < |compressed| ==> compressed[k].View() == TableModel.CompressChunk(cells)[k]
    ensures AllDictionaries(compressed)
  {
    made := {};
    ghost var target := TableModel.CompressChunk(cells);
    compressed := [];
    for k := 0 to |source.columns|
      invariant |compressed| == k && fresh(made) && Separate(compressed) && AllDictionaries(compressed)
      invariant forall j :: 0 <= j < k ==> compressed[j].Repr() <= made
      invariant forall j :: 0 <= j < k ==> compressed[j].View() == target[j]
    {
      assert cells[k].Typed();
      var segment := CompressSegment(types[k], source.columns[k]);
      assert segment.View() == target[k];
      compressed := compressed + [segment];
      made := made + segment.Repr();
    }
  }

  /** What one thread computes. */
  method CompressSegment(ty: DataType, source: Segment) returns (segment: Segment)
    requires source.View().Typed() && source.View().ty == ty
    ensures segment.View() == Compress(ty, source.View().Contents()) && fresh(segment.Repr())
    ensures segment.DictionarySeg?
  {
    var dictionary := new DictionarySegment(ty, source);
    segment := DictionarySeg(dictionary);
  }

  /** The joining loop: the finished segments are added to the new chunk in column order. */
  method AssembleChunk(compressed: seq<Segment>, ghost made: set<object>) returns (chunk: Chunk)
    requires Separate(compressed)
    requires forall k :: 0 <= k < |compressed| ==> compressed[k].Repr() <= made
    ensures chunk.Valid() && fresh(chunk) && chunk.Repr <= {chunk} + made
    ensures chunk.columns == compressed
    ensures |chunk.Cells| == |compressed|
    ensures forall k :: 0 <= k < |compressed| ==> chunk.Cells[k] == compressed[k].View()
  {
    chunk := new Chunk();
    for k := 0 to |compressed|
      invariant chunk.Valid() && fresh(chunk) && chunk.Repr <= {chunk} + made
      invariant chunk.columns == compressed[..k]
      invariant forall j :: k <= j < |compressed| ==> compressed[j].Repr() !! chunk.Repr
    {
      chunk.AddSegment(compressed[k]);
    }
  }
}
