/** What a dictionary-encoded column contains and what its value ids mean
    (src/lib/storage/dictionary_segment.hpp, src/lib/storage/fixed_size_attribute_vector.cpp).
    Everything here is about values; the classes in `Segments` are proved to store exactly this. */
module DictionaryEncoding {
  import opened Ordering
  import opened Values

  const UINT8_MAX: nat := 0xFF
  const UINT16_MAX: nat := 0xFFFF
  const TWO_TO_32: nat := 0x1_0000_0000

  /** The largest value of the 32-bit ValueID, reserved for "no such entry". */
  const INVALID_VALUE_ID: nat := 0xFFFF_FFFF

  /** One column of one chunk, as a value. */
  datatype SegmentView =
    | Plain(ty: DataType, values: seq<Value>)
    | Compressed(ty: DataType, dictionary: seq<Value>, width: nat, codes: seq<nat>)
  {
    function Size(): nat {
      match this
      case Plain(_, values) => |values|
      case Compressed(_, _, _, codes) => |codes|
    }

    /** Every stored code names a dictionary entry, so that vector::at never throws. */
    ghost predicate InRange() {
      Compressed? ==> forall i :: 0 <= i < |codes| ==> codes[i] < |dictionary|
    }

    /** operator[] */
    ghost function At(i: nat): Value
      requires InRange() && i < Size()
    {
      match this
      case Plain(_, values) => values[i]
      case Compressed(_, dictionary, _, codes) => dictionary[codes[i]]
    }

    /** The column as read position by position. */
    ghost function Contents(): (s: seq<Value>)
      requires InRange()
      ensures |s| == Size()
    {
      seq(Size(), i requires 0 <= i < Size() => At(i))
    }

    ghost predicate Typed() {
      && InRange()
      && forall i :: 0 <= i < Size() ==> TypeOf(At(i)) == ty
    }
  }

  // ---------------------------------------------------------------- the encoder

  /** The values the constructor copies: the position is passed to operator[] as a 32-bit ChunkOffset. */
  function Fetched(base: seq<Value>): (s: seq<Value>) {
    seq(|base|, i requires 0 <= i < |base| => base[i % TWO_TO_32])
  }

  function DictionaryOf(base: seq<Value>): seq<Value> {
    Unique(Sort(ValueLess, Fetched(base)))
  }

  /** The byte width picked from the number of distinct values. */
  function WidthFor(distinct: nat): nat {
    if distinct < UINT8_MAX then 1 else if distinct < UINT16_MAX then 2 else 4
  }

  /** The number of values an unsigned integer of this many bytes can take. */
  function Range(width: nat): nat {
    if width == 1 then 0x100 else if width == 2 then 0x1_0000 else TWO_TO_32
  }

  /** Conversion of a ValueID to the code type: the high bytes are dropped. */
  function Narrow(id: nat, width: nat): (code: nat)
    ensures code <= id && code < Range(width)
    ensures id < Range(width) ==> code == id
  {
    if width == 1 then id % 0x100 else if width == 2 then id % 0x1_0000 else id % TWO_TO_32
  }

  /** The id under which the constructor stores v: its rank, as a ValueID, narrowed to the code type. */
  function CodeFor<T(!new)>(less: (T, T) -> bool, dictionary: seq<T>, v: T): nat
    requires StrictTotalOrder(less) && StrictlySorted(less, dictionary)
  {
    Narrow(LowerBound(less, dictionary, v, 0, |dictionary|) % TWO_TO_32, WidthFor(|dictionary|))
  }

  /** The compressed form of a column that reads as `base`. */
  function Compress(ty: DataType, base: seq<Value>): SegmentView {
    DictionaryIsEnumeration(base);
    var dictionary := DictionaryOf(base);
    var fetched := Fetched(base);
    Compressed(ty, dictionary, WidthFor(|dictionary|),
               seq(|base|, i requires 0 <= i < |base| => CodeFor(ValueLess, dictionary, fetched[i])))
  }

  // ---------------------------------------------------------------- the dictionary

  /** The dictionary is the strictly ascending enumeration of the values that occur. */
  lemma DictionaryIsEnumeration(base: seq<Value>)
    ensures StrictTotalOrder(ValueLess)
    ensures StrictlySorted(ValueLess, DictionaryOf(base))
    ensures forall v :: v in DictionaryOf(base) <==> v in Fetched(base)
    ensures forall v :: v in DictionaryOf(base) <==> v in base[..if |base| < TWO_TO_32 then |base| else TWO_TO_32]
  {
    ValueOrder();
    var fetched := Fetched(base);
    SortCorrect(ValueLess, fetched);
    SortElements(ValueLess, fetched);
    UniqueElements(Sort(ValueLess, fetched));
    UniqueStrictlySorted(ValueLess, Sort(ValueLess, fetched));
    FetchedElements(base);
  }

  lemma FetchedElements(base: seq<Value>)
    ensures forall v :: v in Fetched(base) <==> v in base[..if |base| < TWO_TO_32 then |base| else TWO_TO_32]
  {
    var fetched := Fetched(base);
    var prefix := base[..if |base| < TWO_TO_32 then |base| else TWO_TO_32];
    forall v ensures v in fetched <==> v in prefix {
      if v in fetched {
        var i :| 0 <= i < |fetched| && fetched[i] == v;
        assert prefix[i % TWO_TO_32] == v;
      }
      if v in prefix {
        var i :| 0 <= i < |prefix| && prefix[i] == v;
        assert fetched[i] == v;
      }
    }
  }

  /** No column, however long, has more distinct values than there are ValueIDs. */
  lemma DictionarySize(base: seq<Value>)
    ensures |DictionaryOf(base)| <= TWO_TO_32
    ensures |DictionaryOf(base)| <= |base|
  {
    DictionaryIsEnumeration(base);
    StrictlySortedLength(ValueLess, DictionaryOf(base),
                         base[..if |base| < TWO_TO_32 then |base| else TWO_TO_32]);
  }

  /** A value that occurs is stored under its dictionary position, unchanged by the narrowing. */
  lemma CodeOfEntry<T(!new)>(less: (T, T) -> bool, dictionary: seq<T>, k: nat)
    requires StrictTotalOrder(less) && StrictlySorted(less, dictionary)
    requires k < |dictionary| <= TWO_TO_32
    ensures CodeFor(less, dictionary, dictionary[k]) == k
  {
    PositionOfEntry(less, dictionary, k);
    NarrowingKeepsIds(|dictionary|, k);
  }

  lemma NarrowingKeepsIds(distinct: nat, k: nat)
    requires k < distinct <= TWO_TO_32
    ensures Narrow(k % TWO_TO_32, WidthFor(distinct)) == k
  {
  }

  // ---------------------------------------------------------------- the order on payloads

  ghost predicate AllOfType(ty: DataType, values: seq<Value>) {
    forall k :: 0 <= k < |values| ==> TypeOf(values[k]) == ty
  }

  lemma DictionaryIsTyped(ty: DataType, base: seq<Value>)
    requires AllOfType(ty, base)
    ensures AllOfType(ty, DictionaryOf(base))
  {
    DictionaryIsEnumeration(base);
    forall k | 0 <= k < |DictionaryOf(base)| ensures TypeOf(DictionaryOf(base)[k]) == ty {
      assert DictionaryOf(base)[k] in Fetched(base);
    }
  }

  /** The dictionary of a typed column ascends: numbers by size, strings by their first difference. */
  lemma DictionaryAscends(ty: DataType, base: seq<Value>, i: nat, j: nat)
    requires AllOfType(ty, base) && i < j < |DictionaryOf(base)|
    ensures var a, b := DictionaryOf(base)[i], DictionaryOf(base)[j];
      && TypeOf(a) == TypeOf(b) == ty
      && (ty == IntType ==> a.i < b.i)
      && (ty == LongType ==> a.l < b.l)
      && (ty == FloatType ==> a.f < b.f)
      && (ty == DoubleType ==> a.d < b.d)
      && (ty == StringType ==>
            exists n: nat | n <= |a.s| && n < |b.s| :: a.s[..n] == b.s[..n] && (n == |a.s| || a.s[n] < b.s[n]))
  {
    DictionaryIsEnumeration(base);
    DictionaryIsTyped(ty, base);
    PayloadOrder(DictionaryOf(base)[i], DictionaryOf(base)[j]);
  }

  // ---------------------------------------------------------------- width and sentinel

  /** The chosen width never truncates: every stored code is the untruncated position of its value. */
  lemma NoCodeIsTruncated(ty: DataType, base: seq<Value>, i: nat)
    requires i < |base|
    ensures var c := Compress(ty, base);
      c.codes[i] < |c.dictionary| && c.dictionary[c.codes[i]] == base[i % TWO_TO_32]
  {
    var k := EntryOfRow(base, i);
    DictionaryIsEnumeration(base);
    DictionarySize(base);
    CodeOfEntry(ValueLess, DictionaryOf(base), k);
  }

  lemma EntryOfRow(base: seq<Value>, i: nat) returns (k: nat)
    requires i < |base|
    ensures k < |DictionaryOf(base)| && DictionaryOf(base)[k] == base[i % TWO_TO_32] == Fetched(base)[i]
  {
    DictionaryIsEnumeration(base);
    assert Fetched(base)[i] in Fetched(base);
    k :| 0 <= k < |DictionaryOf(base)| && DictionaryOf(base)[k] == Fetched(base)[i];
  }

  /** Down-cast to the chosen width, INVALID_VALUE_ID is the largest code value. It exceeds every stored
      code exactly when the dictionary leaves one 32-bit id unused; fewer than 2^32 rows suffice. */
  lemma {:induction false} SentinelIsFree(ty: DataType, base: seq<Value>)
    ensures var c := Compress(ty, base);
      && Narrow(INVALID_VALUE_ID, c.width) == Range(c.width) - 1
      && ((forall i :: 0 <= i < |c.codes| ==> c.codes[i] < Narrow(INVALID_VALUE_ID, c.width))
          <==> |c.dictionary| < TWO_TO_32)
    ensures |base| < TWO_TO_32 ==> |DictionaryOf(base)| < TWO_TO_32
  {
    DictionarySize(base);
    var c := Compress(ty, base);
    var n := |c.dictionary|;
    SentinelOf(n);
    forall i | 0 <= i < |c.codes| ensures c.codes[i] < n {
      NoCodeIsTruncated(ty, base, i);
    }
    if n > 0 {
      var i := EveryEntryIsUsed(ty, base, n - 1);
      assert c.codes[i] == n - 1;
    }
  }

  lemma SentinelOf(distinct: nat)
    requires distinct <= TWO_TO_32
    ensures var s := Narrow(INVALID_VALUE_ID, WidthFor(distinct));
      && s == Range(WidthFor(distinct)) - 1
      && (distinct <= s <==> distinct < TWO_TO_32)
  {
  }

  /** The width is 1, 2 or 4 bytes, and the least whose down-cast sentinel exceeds the number of entries, if any. */
  lemma WidthIsLeast(ty: DataType, base: seq<Value>)
    ensures var c := Compress(ty, base); var n := |c.dictionary|;
      && (c.width == 1 || c.width == 2 || c.width == 4)
      && (c.width < 4 ==> n < Narrow(INVALID_VALUE_ID, c.width))
      && (forall w :: (w == 1 || w == 2) && w < c.width ==> Narrow(INVALID_VALUE_ID, w) <= n)
      && (c.width == 1 <==> n < 255) && (c.width <= 2 <==> n < 65535)
    ensures Narrow(INVALID_VALUE_ID, 1) == 255 && Narrow(INVALID_VALUE_ID, 2) == 65535
    ensures Narrow(INVALID_VALUE_ID, 4) == INVALID_VALUE_ID == 4294967295
  {
    assert INVALID_VALUE_ID == 0xFF + 0x100 * 0xFF_FFFF == 0xFFFF + 0x1_0000 * 0xFFFF;
  }

  /** Every dictionary position is the code of some row. */
  lemma EveryEntryIsUsed(ty: DataType, base: seq<Value>, k: nat) returns (i: nat)
    requires k < |DictionaryOf(base)|
    ensures i < |base| && Compress(ty, base).codes[i] == k
  {
    i := RowOfEntry(base, k);
    DictionaryIsEnumeration(base);
    DictionarySize(base);
    CodeOfEntry(ValueLess, DictionaryOf(base), k);
  }

  lemma RowOfEntry(base: seq<Value>, k: nat) returns (i: nat)
    requires k < |DictionaryOf(base)|
    ensures i < |base| && Fetched(base)[i] == DictionaryOf(base)[k]
  {
    DictionaryIsEnumeration(base);
    assert DictionaryOf(base)[k] in DictionaryOf(base);
    i :| 0 <= i < |Fetched(base)| && Fetched(base)[i] == DictionaryOf(base)[k];
  }

  // ---------------------------------------------------------------- round trip

  /** Reading a compressed column gives back the values it was built from. */
  lemma RoundTrip(ty: DataType, base: seq<Value>)
    ensures Compress(ty, base).InRange()
    ensures Compress(ty, base).Contents() == Fetched(base)
    ensures |base| <= TWO_TO_32 ==> Compress(ty, base).Contents() == base
  {
    var c := Compress(ty, base);
    forall i | 0 <= i < |c.codes| ensures c.codes[i] < |c.dictionary| && c.dictionary[c.codes[i]] == Fetched(base)[i] {
      NoCodeIsTruncated(ty, base, i);
    }
    assert c.Contents() == Fetched(base);
    ShortColumnsAreFetchedWhole(base);
  }

  lemma ShortColumnsAreFetchedWhole(base: seq<Value>)
    ensures |base| <= TWO_TO_32 ==> Fetched(base) == base
  {
  }

  // ---------------------------------------------------------------- canonical form

  /** Compressed columns are canonical: two of them are identical in dictionary, width and codes exactly
      when they read alike, and compressing a compressed column changes nothing. */
  lemma CompressionIsCanonical(ty: DataType, a: seq<Value>, b: seq<Value>)
    ensures Compress(ty, a) == Compress(ty, b) <==> Fetched(a) == Fetched(b)
    ensures |a| <= TWO_TO_32 && |b| <= TWO_TO_32 ==> (Compress(ty, a) == Compress(ty, b) <==> a == b)
    ensures Compress(ty, a).InRange() && Compress(ty, Compress(ty, a).Contents()) == Compress(ty, a)
  {
    RoundTrip(ty, a);
    RoundTrip(ty, b);
    ShortColumnsAreFetchedWhole(a);
    ShortColumnsAreFetchedWhole(b);
    FetchingTwice(a);
    SameFetchedSameCode(ty, a, b);
    SameFetchedSameCode(ty, a, Fetched(a));
  }

  /** The constructor sees a column only through the values it fetches. */
  lemma SameFetchedSameCode(ty: DataType, a: seq<Value>, b: seq<Value>)
    ensures Fetched(a) == Fetched(b) ==> Compress(ty, a) == Compress(ty, b)
  {
    assert |Fetched(a)| == |a| && |Fetched(b)| == |b|;
  }

  lemma FetchingTwice(base: seq<Value>)
    ensures Fetched(Fetched(base)) == Fetched(base)
  {
  }

  /** No other strictly ascending dictionary holds the same values. */
  lemma DictionaryIsCanonical(base: seq<Value>, other: seq<Value>)
    requires StrictlySorted(ValueLess, other)
    requires forall v :: v in other <==> v in Fetched(base)
    ensures other == DictionaryOf(base)
  {
    DictionaryIsEnumeration(base);
    StrictEnumerationIsUnique(ValueLess, other, DictionaryOf(base));
  }

  // ---------------------------------------------------------------- searching by value id

  /** A position in a dictionary of n entries as a 32-bit ValueID; the end iterator is INVALID_VALUE_ID. */
  function PositionAsId(position: nat, n: nat): nat {
    if position == n then INVALID_VALUE_ID else position % TWO_TO_32
  }

  lemma PositionFitsInId(position: nat, n: nat)
    requires position <= n <= TWO_TO_32
    ensures PositionAsId(position, n) == if position == n then INVALID_VALUE_ID else position
  {
  }

  /** lower_bound(value): the first id whose value is >= the search value, else INVALID_VALUE_ID. */
  function LowerBoundId<T(!new)>(less: (T, T) -> bool, dictionary: seq<T>, v: T): nat
    requires StrictTotalOrder(less) && StrictlySorted(less, dictionary)
  {
    PositionAsId(LowerBound(less, dictionary, v, 0, |dictionary|), |dictionary|)
  }

  /** upper_bound(value): the first id whose value is > the search value, else INVALID_VALUE_ID. */
  function UpperBoundId<T(!new)>(less: (T, T) -> bool, dictionary: seq<T>, v: T): nat
    requires StrictTotalOrder(less) && StrictlySorted(less, dictionary)
  {
    PositionAsId(UpperBound(less, dictionary, v, 0, |dictionary|), |dictionary|)
  }

  /** lower_bound is the first id not below the search value, and INVALID_VALUE_ID exactly when all smaller ids are
      below. The documentation, "if all values are smaller", is met unless 2^32 values leave no id unused and the
      largest is the first that is not below. */
  lemma LowerBoundIdMeaning<T(!new)>(less: (T, T) -> bool, dictionary: seq<T>, v: T)
    requires StrictTotalOrder(less) && StrictlySorted(less, dictionary) && |dictionary| <= TWO_TO_32
    ensures var id, n := LowerBoundId(less, dictionary, v), |dictionary|;
      && (id == INVALID_VALUE_ID || id < n)
      && (id == INVALID_VALUE_ID <==> forall k :: 0 <= k < n && k < INVALID_VALUE_ID ==> less(dictionary[k], v))
      && (id != INVALID_VALUE_ID ==> !less(dictionary[id], v) && forall k :: 0 <= k < id ==> less(dictionary[k], v))
      && ((id == INVALID_VALUE_ID <==> forall k :: 0 <= k < n ==> less(dictionary[k], v))
          <==> (n < TWO_TO_32 || less(dictionary[n - 1], v) || !less(dictionary[n - 2], v)))
  {
    var r := LowerBound(less, dictionary, v, 0, |dictionary|);
    PositionFitsInId(r, |dictionary|);
    assert r < |dictionary| ==> !less(dictionary[r], v);
  }

  /** upper_bound is the first id above the search value, and INVALID_VALUE_ID exactly when no smaller id is above.
      The documentation is met unless 2^32 values leave no id unused and the largest is the only one above. */
  lemma UpperBoundIdMeaning<T(!new)>(less: (T, T) -> bool, dictionary: seq<T>, v: T)
    requires StrictTotalOrder(less) && StrictlySorted(less, dictionary) && |dictionary| <= TWO_TO_32
    ensures var id, n := UpperBoundId(less, dictionary, v), |dictionary|;
      && (id == INVALID_VALUE_ID || id < n)
      && (id == INVALID_VALUE_ID <==> forall k :: 0 <= k < n && k < INVALID_VALUE_ID ==> !less(v, dictionary[k]))
      && (id != INVALID_VALUE_ID ==> less(v, dictionary[id]) && forall k :: 0 <= k < id ==> !less(v, dictionary[k]))
      && ((id == INVALID_VALUE_ID <==> forall k :: 0 <= k < n ==> !less(v, dictionary[k]))
          <==> (n < TWO_TO_32 || !less(v, dictionary[n - 1]) || less(v, dictionary[n - 2])))
  {
    var r := UpperBound(less, dictionary, v, 0, |dictionary|);
    PositionFitsInId(r, |dictionary|);
    assert r < |dictionary| ==> less(v, dictionary[r]);
  }

  datatype ScanType =
    OpEquals | OpNotEquals | OpLessThan | OpLessThanEquals | OpGreaterThan | OpGreaterThanEquals

  /** The six scan comparisons on values. */
  predicate Matches(op: ScanType, a: Value, b: Value) {
    match op
    case OpEquals => a == b
    case OpNotEquals => a != b
    case OpLessThan => ValueLess(a, b)
    case OpLessThanEquals => !ValueLess(b, a)
    case OpGreaterThan => ValueLess(b, a)
    case OpGreaterThanEquals => !ValueLess(a, b)
  }

  /** On values of one type these are the natural comparisons. */
  lemma MatchesMeaning(a: Value, b: Value)
    requires TypeOf(a) == TypeOf(b)
    ensures Matches(OpEquals, a, b) <==> a == b
    ensures Matches(OpNotEquals, a, b) <==> a != b
    ensures Matches(OpLessThan, a, b) <==> Below(a, b)
    ensures Matches(OpLessThanEquals, a, b) <==> Below(a, b) || a == b
    ensures Matches(OpGreaterThan, a, b) <==> Below(b, a)
    ensures Matches(OpGreaterThanEquals, a, b) <==> Below(b, a) || a == b
  {
    ValueOrder();
    PayloadOrder(a, b);
    PayloadOrder(b, a);
  }

  /** The six scan comparisons on a value id and the two bounds of the search value. */
  predicate MatchesId(op: ScanType, id: nat, lower: nat, upper: nat) {
    match op
    case OpEquals => lower <= id < upper
    case OpNotEquals => id < lower || upper <= id
    case OpLessThan => id < lower
    case OpLessThanEquals => id < upper
    case OpGreaterThan => upper <= id
    case OpGreaterThanEquals => lower <= id
  }

  /** The two bounds order every id like the value it stands for, except the id that equals INVALID_VALUE_ID: it is
      never below a bound. */
  lemma BoundsDecideOrder<T(!new)>(less: (T, T) -> bool, dictionary: seq<T>, v: T, k: nat)
    requires StrictTotalOrder(less) && StrictlySorted(less, dictionary)
    requires k < |dictionary| <= TWO_TO_32
    ensures k < LowerBoundId(less, dictionary, v) <==> less(dictionary[k], v) && k != INVALID_VALUE_ID
    ensures k < UpperBoundId(less, dictionary, v) <==> !less(v, dictionary[k]) && k != INVALID_VALUE_ID
  {
    PositionDecidesOrder(less, dictionary, v, k);
    PositionFitsInId(LowerBound(less, dictionary, v, 0, |dictionary|), |dictionary|);
    PositionFitsInId(UpperBound(less, dictionary, v, 0, |dictionary|), |dictionary|);
  }

  /** Ids preserve order against any search value, present or absent: a row is below it exactly when its id is below
      lower_bound, and at most the search value exactly when its id is below upper_bound, unless the row has the id
      INVALID_VALUE_ID. */
  lemma IdsPreserveOrder(ty: DataType, base: seq<Value>, v: Value, i: nat)
    requires i < |base|
    ensures Compress(ty, base).InRange()
    ensures StrictTotalOrder(ValueLess) && StrictlySorted(ValueLess, DictionaryOf(base))
    ensures var c := Compress(ty, base); var id := c.codes[i];
      && (id < LowerBoundId(ValueLess, c.dictionary, v) <==> ValueLess(c.At(i), v) && id != INVALID_VALUE_ID)
      && (id < UpperBoundId(ValueLess, c.dictionary, v) <==> !ValueLess(v, c.At(i)) && id != INVALID_VALUE_ID)
    ensures Compress(ty, base).codes[i] == INVALID_VALUE_ID ==> |DictionaryOf(base)| == TWO_TO_32
  {
    RoundTrip(ty, base);
    DictionaryIsEnumeration(base);
    DictionarySize(base);
    BoundsDecideOrder(ValueLess, DictionaryOf(base), v, Compress(ty, base).codes[i]);
  }

  /** The comparison of row i with v comes out the same on the row's value and on its id. */
  ghost predicate DecidedById(c: SegmentView, op: ScanType, v: Value, i: nat, lower: nat, upper: nat)
    requires c.Compressed? && c.InRange() && i < |c.codes|
  {
    Matches(op, c.At(i), v) <==> MatchesId(op, c.codes[i], lower, upper)
  }

  /** What the largest value must be like when no id is left unused. */
  predicate LargestIsSafe(op: ScanType, largest: Value, v: Value) {
    match op
    case OpEquals => largest != v
    case OpNotEquals => largest != v
    case OpLessThan => !ValueLess(largest, v)
    case OpGreaterThanEquals => !ValueLess(largest, v)
    case OpLessThanEquals => ValueLess(v, largest)
    case OpGreaterThan => ValueLess(v, largest)
  }

  lemma ScanOnOneId(dictionary: seq<Value>, op: ScanType, v: Value, k: nat)
    requires StrictTotalOrder(ValueLess) && StrictlySorted(ValueLess, dictionary)
    requires k < |dictionary| <= TWO_TO_32
    ensures var lower, upper := LowerBoundId(ValueLess, dictionary, v), UpperBoundId(ValueLess, dictionary, v);
      (Matches(op, dictionary[k], v) <==> MatchesId(op, k, lower, upper))
      <==> (k != INVALID_VALUE_ID || LargestIsSafe(op, dictionary[k], v))
  {
    BoundsDecideOrder(ValueLess, dictionary, v, k);
  }

  /** Each of the six scan comparisons is decided for all rows by the row's id and the two bounds if and only if an id
      is left unused or the largest value is harmless for that comparison. */
  lemma ScansNeedOnlyIds(ty: DataType, base: seq<Value>, v: Value, op: ScanType)
    ensures Compress(ty, base).InRange()
    ensures StrictTotalOrder(ValueLess) && StrictlySorted(ValueLess, DictionaryOf(base))
    ensures var c := Compress(ty, base);
      var lower, upper := LowerBoundId(ValueLess, c.dictionary, v), UpperBoundId(ValueLess, c.dictionary, v);
      (forall i :: 0 <= i < |c.codes| ==> DecidedById(c, op, v, i, lower, upper))
      <==> (|c.dictionary| < TWO_TO_32 || LargestIsSafe(op, c.dictionary[|c.dictionary| - 1], v))
  {
    RoundTrip(ty, base);
    DictionaryIsEnumeration(base);
    DictionarySize(base);
    var c := Compress(ty, base);
    var lower, upper := LowerBoundId(ValueLess, c.dictionary, v), UpperBoundId(ValueLess, c.dictionary, v);
    forall i | 0 <= i < |c.codes|
      ensures DecidedById(c, op, v, i, lower, upper)
              <==> (c.codes[i] != INVALID_VALUE_ID || LargestIsSafe(op, c.dictionary[c.codes[i]], v))
    {
      ScanOnOneId(c.dictionary, op, v, c.codes[i]);
    }
    if |c.dictionary| == TWO_TO_32 {
      var i := EveryEntryIsUsed(ty, base, INVALID_VALUE_ID);
      assert c.codes[i] == |c.dictionary| - 1;
    }
  }

  // ---------------------------------------------------------------- the bounds on payloads

  lemma SameOrder(dictionary: seq<Value>, v: Value)
    ensures AllOfType(TypeOf(v), dictionary) ==>
      forall k :: 0 <= k < |dictionary| ==>
        && ValueLess(dictionary[k], v) == Below(dictionary[k], v)
        && ValueLess(v, dictionary[k]) == Below(v, dictionary[k])
  {
    if AllOfType(TypeOf(v), dictionary) {
      forall k | 0 <= k < |dictionary|
        ensures ValueLess(dictionary[k], v) == Below(dictionary[k], v)
        ensures ValueLess(v, dictionary[k]) == Below(v, dictionary[k])
      {
        PayloadOrder(dictionary[k], v);
        PayloadOrder(v, dictionary[k]);
      }
    }
  }

  /** The bounds of a typed column are the first entry not below v and the first above it. */
  lemma BoundsOnPayloads(dictionary: seq<Value>, v: Value)
    requires StrictTotalOrder(ValueLess) && StrictlySorted(ValueLess, dictionary) && |dictionary| <= TWO_TO_32
    requires AllOfType(TypeOf(v), dictionary)
    ensures var id, n := LowerBoundId(ValueLess, dictionary, v), |dictionary|;
      && (id == INVALID_VALUE_ID <==> forall k :: 0 <= k < n && k < INVALID_VALUE_ID ==> Below(dictionary[k], v))
      && (id != INVALID_VALUE_ID ==>
            id < n && !Below(dictionary[id], v) && forall k :: 0 <= k < id ==> Below(dictionary[k], v))
    ensures var id, n := UpperBoundId(ValueLess, dictionary, v), |dictionary|;
      && (id == INVALID_VALUE_ID <==> forall k :: 0 <= k < n && k < INVALID_VALUE_ID ==> !Below(v, dictionary[k]))
      && (id != INVALID_VALUE_ID ==>
            id < n && Below(v, dictionary[id]) && forall k :: 0 <= k < id ==> !Below(v, dictionary[k]))
  {
    LowerBoundIdMeaning(ValueLess, dictionary, v);
    UpperBoundIdMeaning(ValueLess, dictionary, v);
    SameOrder(dictionary, v);
  }

  /** In particular for a column of integers. */
  lemma IntegerBounds(base: seq<Value>, x: int32, k: nat)
    requires AllOfType(IntType, base) && k < |DictionaryOf(base)|
    ensures StrictTotalOrder(ValueLess) && StrictlySorted(ValueLess, DictionaryOf(base))
    ensures var d := DictionaryOf(base);
      && d[k].Int?
      && (k < LowerBoundId(ValueLess, d, Int(x)) <==> d[k].i < x && k != INVALID_VALUE_ID)
      && (k < UpperBoundId(ValueLess, d, Int(x)) <==> d[k].i <= x && k != INVALID_VALUE_ID)
  {
    DictionaryIsEnumeration(base);
    DictionarySize(base);
    DictionaryIsTyped(IntType, base);
    BoundsDecideOrder(ValueLess, DictionaryOf(base), Int(x), k);
  }

  /** The column 0, 2, 4, 6, 8, 10. */
  function EvenNumbers(): (base: seq<Value>)
    ensures |base| == 6 && forall k :: 0 <= k < 6 ==> base[k] == Int(2 * k)
  {
    seq(6, k requires 0 <= k < 6 => Int(2 * k))
  }

  lemma EvenDictionary()
    ensures DictionaryOf(EvenNumbers()) == EvenNumbers()
  {
    ShortColumnsAreFetchedWhole(EvenNumbers());
    DictionaryIsCanonical(EvenNumbers(), EvenNumbers());
  }

  /** Searched for 4, for 5 and for 15. */
  lemma EvenNumberBounds(x: int32)
    requires x >= 0
    ensures StrictTotalOrder(ValueLess) && StrictlySorted(ValueLess, EvenNumbers())
    ensures var lower := LowerBoundId(ValueLess, EvenNumbers(), Int(x));
      var upper := UpperBoundId(ValueLess, EvenNumbers(), Int(x));
      && (x == 4 ==> lower == 2 && upper == 3)
      && (x == 5 ==> lower == 3 && upper == 3)
      && (x == 15 ==> lower == upper == INVALID_VALUE_ID)
  {
    var base := EvenNumbers();
    EvenDictionary();
    DictionaryIsEnumeration(base);
    BoundsOnPayloads(base, Int(x));
    assert base[0].i == 0 && base[1].i == 2 && base[2].i == 4 && base[3].i == 6 && base[4].i == 8 && base[5].i == 10;
  }

  // ---------------------------------------------------------------- the limits of the ids

  /** The exact limit for each bound: when every 32-bit id is taken, INVALID_VALUE_ID is also the id of the largest
      value. lower_bound then loses "less than v" if the largest value is below v ... */
  lemma LowerBoundKeepsOrderIff(ty: DataType, base: seq<Value>, v: Value)
    ensures Compress(ty, base).InRange()
    ensures StrictTotalOrder(ValueLess) && StrictlySorted(ValueLess, DictionaryOf(base))
    ensures var c := Compress(ty, base);
      (forall i :: 0 <= i < |c.codes| ==>
         (ValueLess(c.At(i), v) <==> c.codes[i] < LowerBoundId(ValueLess, c.dictionary, v)))
      <==> (|c.dictionary| < TWO_TO_32 || !ValueLess(c.dictionary[|c.dictionary| - 1], v))
  {
    ScansNeedOnlyIds(ty, base, v, OpLessThan);
    var c := Compress(ty, base);
    var lower, upper := LowerBoundId(ValueLess, c.dictionary, v), UpperBoundId(ValueLess, c.dictionary, v);
    assert forall i :: 0 <= i < |c.codes| ==>
      (DecidedById(c, OpLessThan, v, i, lower, upper) <==> (ValueLess(c.At(i), v) <==> c.codes[i] < lower));
  }

  /** ... and upper_bound loses "at most v" if the largest value is not above v. */
  lemma UpperBoundKeepsOrderIff(ty: DataType, base: seq<Value>, v: Value)
    ensures Compress(ty, base).InRange()
    ensures StrictTotalOrder(ValueLess) && StrictlySorted(ValueLess, DictionaryOf(base))
    ensures var c := Compress(ty, base);
      (forall i :: 0 <= i < |c.codes| ==>
         (!ValueLess(v, c.At(i)) <==> c.codes[i] < UpperBoundId(ValueLess, c.dictionary, v)))
      <==> (|c.dictionary| < TWO_TO_32 || ValueLess(v, c.dictionary[|c.dictionary| - 1]))
  {
    ScansNeedOnlyIds(ty, base, v, OpLessThanEquals);
    var c := Compress(ty, base);
    var lower, upper := LowerBoundId(ValueLess, c.dictionary, v), UpperBoundId(ValueLess, c.dictionary, v);
    assert forall i :: 0 <= i < |c.codes| ==>
      (DecidedById(c, OpLessThanEquals, v, i, lower, upper) <==> (!ValueLess(v, c.At(i)) <==> c.codes[i] < upper));
  }

  /** There is a column that takes every id. */
  lemma FullDictionary() returns (base: seq<Value>)
    ensures |base| == |DictionaryOf(base)| == TWO_TO_32
    ensures DictionaryOf(base)[TWO_TO_32 - 1] == Long(TWO_TO_32 - 1)
  {
    base := seq(TWO_TO_32, i requires 0 <= i < TWO_TO_32 => Long(i));
    ShortColumnsAreFetchedWhole(base);
    DictionaryIsCanonical(base, base);
  }

  /** On that column every one of the six comparisons goes wrong for some row and some search value. */
  lemma EveryScanCanFail(ty: DataType, op: ScanType) returns (base: seq<Value>, v: Value, i: nat)
    ensures Compress(ty, base).InRange() && i < |Compress(ty, base).codes|
    ensures StrictTotalOrder(ValueLess) && StrictlySorted(ValueLess, DictionaryOf(base))
    ensures var c := Compress(ty, base);
      !DecidedById(c, op, v, i, LowerBoundId(ValueLess, c.dictionary, v), UpperBoundId(ValueLess, c.dictionary, v))
  {
    base := FullDictionary();
    v := Long(if op.OpLessThan? || op.OpGreaterThanEquals? then TWO_TO_32 else TWO_TO_32 - 1);
    ScansNeedOnlyIds(ty, base, v, op);
    var c := Compress(ty, base);
    var lower, upper := LowerBoundId(ValueLess, c.dictionary, v), UpperBoundId(ValueLess, c.dictionary, v);
    i :| 0 <= i < |c.codes| && !DecidedById(c, op, v, i, lower, upper);
  }
}
