/** The cell values of the column store and their comparison (src/lib/all_type_variant.hpp). */
module Values {
  import opened Wrappers
  import opened Ordering

  datatype DataType = IntType | LongType | FloatType | DoubleType | StringType

  type int32 = x: int | -0x8000_0000 <= x < 0x8000_0000
  type int64 = x: int | -0x8000_0000_0000_0000 <= x < 0x8000_0000_0000_0000

  /** AllTypeVariant. Floating-point payloads are reals: there is no NaN, and rounding plays no part. */
  datatype Value =
    | Int(i: int32)
    | Long(l: int64)
    | Float(f: real)
    | Double(d: real)
    | Str(s: string)

  type Row = seq<Value>

  function TypeOf(v: Value): DataType {
    match v
    case Int(_) => IntType
    case Long(_) => LongType
    case Float(_) => FloatType
    case Double(_) => DoubleType
    case Str(_) => StringType
  }

  /** boost::variant's which(). */
  function Which(v: Value): nat {
    match v
    case Int(_) => 0
    case Long(_) => 1
    case Float(_) => 2
    case Double(_) => 3
    case Str(_) => 4
  }

  predicate CharLess(a: char, b: char) {
    a < b
  }

  /** Variants compare by alternative first and by payload within one alternative. */
  predicate ValueLess(a: Value, b: Value) {
    if Which(a) != Which(b) then Which(a) < Which(b)
    else
      match a
      case Int(x) => x < b.i
      case Long(x) => x < b.l
      case Float(x) => x < b.f
      case Double(x) => x < b.d
      case Str(x) => LexLess(CharLess, x, b.s)
  }

  /** std::vector's operator<, which sorts the rows of a matrix. */
  predicate RowLess(a: Row, b: Row) {
    LexLess(ValueLess, a, b)
  }

  /** Strings by their first difference: there the first string ends or has the smaller character. */
  ghost predicate StringBelow(a: string, b: string) {
    exists n: nat | n <= |a| && n < |b| :: a[..n] == b[..n] && (n == |a| || a[n] < b[n])
  }

  /** Values of one type: numbers by size, strings by their first difference. */
  ghost predicate Below(a: Value, b: Value) {
    || (a.Int? && b.Int? && a.i < b.i)
    || (a.Long? && b.Long? && a.l < b.l)
    || (a.Float? && b.Float? && a.f < b.f)
    || (a.Double? && b.Double? && a.d < b.d)
    || (a.Str? && b.Str? && StringBelow(a.s, b.s))
  }

  lemma StringOrder(a: string, b: string)
    ensures LexLess(CharLess, a, b) <==> StringBelow(a, b)
  {
    LexLessMeaning(CharLess, a, b);
    if n: nat :| DiffersAt(CharLess, a, b, n) {
      assert a[..n] == b[..n];
    }
    if n: nat :| n <= |a| && n < |b| && a[..n] == b[..n] && (n == |a| || a[n] < b[n]) {
      forall k | 0 <= k < n ensures a[k] == b[k] {
        assert a[..n][k] == b[..n][k];
      }
      assert DiffersAt(CharLess, a, b, n);
    }
  }

  /** Within one column, the order that sorts it is the natural one. */
  lemma PayloadOrder(a: Value, b: Value)
    requires TypeOf(a) == TypeOf(b)
    ensures ValueLess(a, b) <==> Below(a, b)
  {
    if a.Str? {
      StringOrder(a.s, b.s);
    }
  }

  lemma ValueOrder()
    ensures StrictTotalOrder(ValueLess)
  {
    assert StrictTotalOrder(CharLess);
    forall x: Value ensures !ValueLess(x, x) {
      if x.Str? { LexLessIrreflexive(CharLess, x.s); }
    }
    forall x: Value, y: Value ensures ValueLess(x, y) || x == y || ValueLess(y, x) {
      if x.Str? && y.Str? { LexLessTotal(CharLess, x.s, y.s); }
    }
    forall x: Value, y: Value, z: Value | ValueLess(x, y) && ValueLess(y, z) ensures ValueLess(x, z) {
      if x.Str? && y.Str? && z.Str? { LexLessTransitive(CharLess, x.s, y.s, z.s); }
    }
  }

  lemma RowOrder()
    ensures StrictTotalOrder(RowLess)
  {
    ValueOrder();
    forall x: Row ensures !RowLess(x, x) {
      LexLessIrreflexive(ValueLess, x);
    }
    forall x: Row, y: Row ensures RowLess(x, y) || x == y || RowLess(y, x) {
      LexLessTotal(ValueLess, x, y);
    }
    forall x: Row, y: Row, z: Row | RowLess(x, y) && RowLess(y, z) ensures RowLess(x, z) {
      LexLessTransitive(ValueLess, x, y, z);
    }
  }

  /** Rows of one schema are ordered by the first column in which they differ. */
  lemma RowOrderMeaning(a: Row, b: Row)
    requires |a| == |b| && forall k :: 0 <= k < |a| ==> TypeOf(a[k]) == TypeOf(b[k])
    ensures RowLess(a, b) <==> exists n :: 0 <= n < |a| && a[..n] == b[..n] && Below(a[n], b[n])
  {
    LexLessMeaning(ValueLess, a, b);
    if n: nat :| DiffersAt(ValueLess, a, b, n) {
      PayloadOrder(a[n], b[n]);
      assert a[..n] == b[..n];
    }
    if n :| 0 <= n < |a| && a[..n] == b[..n] && Below(a[n], b[n]) {
      PayloadOrder(a[n], b[n]);
      forall k | 0 <= k < n ensures a[k] == b[k] {
        assert a[..n][k] == b[..n][k];
      }
      assert DiffersAt(ValueLess, a, b, n);
    }
  }

  /** boost::lexical_cast and numeric_cast: a parameter, which may fail. */
  type Lexical = (DataType, Value) -> Option<Value>

  /** type_cast<T>: the identity on a value of type T; otherwise a successful lexical cast to T is what counts, and a
      failing one is an exception. */
  function Cast(lexical: Lexical, ty: DataType, v: Value): (r: Option<Value>)
    ensures r.Some? ==> TypeOf(r.value) == ty
    ensures TypeOf(v) == ty ==> r == Some(v)
    ensures TypeOf(v) != ty && lexical(ty, v).Some? && TypeOf(lexical(ty, v).value) == ty ==> r == lexical(ty, v)
    ensures TypeOf(v) != ty && lexical(ty, v).None? ==> r == None
  {
    if TypeOf(v) == ty then Some(v)
    else
      match lexical(ty, v)
      case None => None
      case Some(w) => if TypeOf(w) == ty then Some(w) else None
  }
}
