/** The two segment classes and the fixed-width code vector
    (src/lib/storage/value_segment.cpp, src/lib/storage/dictionary_segment.hpp,
    src/lib/storage/fixed_size_attribute_vector.cpp). */
module Segments {
  import opened Wrappers
  import opened Ordering
  import opened Values
  import opened DictionaryEncoding
  import opened TableModel

  /** A vector of unsigned integers of `width` bytes. */
  class FixedSizeAttributeVector {
    const width: nat
    const values: array<nat>

    constructor (width: nat, size: nat)
      ensures this.width == width && values.Length == size && fresh(values)
    {
      this.width := width;
      values := new nat[size](_ => 0);
    }

    function Get(i: nat): nat
      requires i < values.Length
      reads values
    {
      values[i]
    }

    /** Stores a 32-bit id; the assignment converts it to the code type. */
    method Set(i: nat, id: nat)
      requires i < values.Length
      modifies values
      ensures values[..] == old(values[..])[i := Narrow(id, width)]
    {
      values[i] := Narrow(id, width);
    }

    function Size(): nat {
      values.Length
    }

    /** The width in bytes of the widest element, 0 for an empty vector. The loop counter is 32 bits wide. */
    method Width() returns (maxWidth: nat)
      requires values.Length < TWO_TO_32
      ensures maxWidth == if values.Length == 0 then 0 else width
    {
      maxWidth := 0;
      for i := 0 to values.Length
        invariant maxWidth == if i == 0 then 0 else width
      {
        if width > maxWidth {
          maxWidth := width;
        }
      }
    }
  }

  class ValueSegment {
    const ty: DataType
    var values: seq<Value>

    ghost function View(): SegmentView
      reads this
    {
      Plain(ty, values)
    }

    constructor (ty: DataType)
      ensures View() == Plain(ty, [])
    {
      this.ty := ty;
      values := [];
    }

    method Append(lexical: Lexical, v: Value) returns (ok: bool)
      modifies this
      ensures ok == SegmentAppend(lexical, old(View()), v).Some?
      ensures View() == if ok then SegmentAppend(lexical, old(View()), v).value else old(View())
      ensures TypeOf(v) == ty ==> ok && values == old(values) + [v]
      ensures TypeOf(v) != ty && lexical(ty, v).Some? && TypeOf(lexical(ty, v).value) == ty ==>
                ok && values == old(values) + [lexical(ty, v).value]
      ensures TypeOf(v) != ty && lexical(ty, v).None? ==> !ok && values == old(values)
    {
      match Cast(lexical, ty, v) {
        case None => ok := false;
        case Some(w) =>
          values := values + [w];
          ok := true;
      }
    }
  }

  class DictionarySegment {
    const ty: DataType
    const dictionary: seq<Value>
    const attributeVector: FixedSizeAttributeVector

    ghost function View(): SegmentView
      reads attributeVector.values
    {
      Compressed(ty, dictionary, attributeVector.width, attributeVector.values[..])
    }

    /** Builds the dictionary and the codes from whatever segment it is given. The values are already of the
        segment's type, so the casts in between are identities. */
    constructor (ty: DataType, base: Segment)
      requires base.View().Typed() && base.View().ty == ty
      ensures View() == Compress(ty, base.View().Contents())
      ensures fresh(attributeVector) && fresh(attributeVector.values)
      ensures Ordered() && AllOfType(ty, dictionary)
    {
      DictionaryIsTyped(ty, base.View().Contents());
      DictionaryIsEnumeration(base.View().Contents());
      DictionarySize(base.View().Contents());
      var distinct := CollectDictionary(base);
      var codes := EncodeValues(base, distinct);
      this.ty := ty;
      dictionary := distinct;
      attributeVector := codes;
    }

    /** Copies the values through operator[], sorts the copy and erases the duplicates. */
    static method CollectDictionary(base: Segment) returns (distinct: seq<Value>)
      requires base.View().InRange()
      ensures distinct == DictionaryOf(base.View().Contents())
    {
      distinct := [];
      for i := 0 to base.Size()
        invariant distinct == Fetched(base.View().Contents())[..i]
      {
        distinct := distinct + [base.At(i % TWO_TO_32)];
      }
      assert distinct == Fetched(base.View().Contents());
      distinct := Sort(ValueLess, distinct);
      distinct := Unique(distinct);
    }

    /** Picks the width and stores each value's binary-search position. */
    static method EncodeValues(base: Segment, distinct: seq<Value>) returns (codes: FixedSizeAttributeVector)
      requires base.View().InRange()
      requires StrictTotalOrder(ValueLess) && StrictlySorted(ValueLess, distinct)
      ensures fresh(codes) && fresh(codes.values)
      ensures codes.width == WidthFor(|distinct|) && codes.values.Length == base.View().Size()
      ensures forall i :: 0 <= i < codes.values.Length ==>
                codes.values[i] == CodeFor(ValueLess, distinct, Fetched(base.View().Contents())[i])
    {
      ghost var fetched := Fetched(base.View().Contents());
      var size := base.Size();
      if |distinct| < UINT8_MAX {
        codes := new FixedSizeAttributeVector(1, size);
      } else if |distinct| < UINT16_MAX {
        codes := new FixedSizeAttributeVector(2, size);
      } else {
        codes := new FixedSizeAttributeVector(4, size);
      }
      for i := 0 to size
        invariant forall j :: 0 <= j < i ==> codes.values[j] == CodeFor(ValueLess, distinct, fetched[j])
      {
        var id := Ordering.LowerBound(ValueLess, distinct, base.At(i % TWO_TO_32), 0, |distinct|) % TWO_TO_32;
        ghost var before := codes.values[..];
        codes.Set(i, id);
        assert codes.values[i] == codes.values[..][i];
        assert forall j :: 0 <= j < i ==> codes.values[j] == codes.values[..][j] == before[j];
      }
    }

    /** What the constructor establishes: the dictionary ascends and its positions are 32-bit ids. */
    ghost predicate Ordered() {
      StrictTotalOrder(ValueLess) && StrictlySorted(ValueLess, dictionary) && |dictionary| <= TWO_TO_32
    }

    /** The first id that refers to a value >= v, or INVALID_VALUE_ID if no smaller id does. */
    function LowerBound(v: Value): (id: nat)
      requires Ordered()
      ensures id == INVALID_VALUE_ID || id < |dictionary|
      ensures id == INVALID_VALUE_ID <==>
                forall k :: 0 <= k < |dictionary| && k < INVALID_VALUE_ID ==> ValueLess(dictionary[k], v)
      ensures id != INVALID_VALUE_ID ==>
                !ValueLess(dictionary[id], v) && forall k :: 0 <= k < id ==> ValueLess(dictionary[k], v)
      ensures AllOfType(TypeOf(v), dictionary) ==>
                && (id == INVALID_VALUE_ID <==>
                      forall k :: 0 <= k < |dictionary| && k < INVALID_VALUE_ID ==> Below(dictionary[k], v))
                && (id != INVALID_VALUE_ID ==>
                      !Below(dictionary[id], v) && forall k :: 0 <= k < id ==> Below(dictionary[k], v))
    {
      LowerBoundIdMeaning(ValueLess, dictionary, v);
      SameOrder(dictionary, v);
      LowerBoundId(ValueLess, dictionary, v)
    }

    /** The first id that refers to a value > v, or INVALID_VALUE_ID if no smaller id does. */
    function UpperBound(v: Value): (id: nat)
      requires Ordered()
      ensures id == INVALID_VALUE_ID || id < |dictionary|
      ensures id == INVALID_VALUE_ID <==>
                forall k :: 0 <= k < |dictionary| && k < INVALID_VALUE_ID ==> !ValueLess(v, dictionary[k])
      ensures id != INVALID_VALUE_ID ==>
                ValueLess(v, dictionary[id]) && forall k :: 0 <= k < id ==> !ValueLess(v, dictionary[k])
      ensures AllOfType(TypeOf(v), dictionary) ==>
                && (id == INVALID_VALUE_ID <==>
                      forall k :: 0 <= k < |dictionary| && k < INVALID_VALUE_ID ==> !Below(v, dictionary[k]))
                && (id != INVALID_VALUE_ID ==>
                      Below(v, dictionary[id]) && forall k :: 0 <= k < id ==> !Below(v, dictionary[k]))
    {
      UpperBoundIdMeaning(ValueLess, dictionary, v);
      SameOrder(dictionary, v);
      UpperBoundId(ValueLess, dictionary, v)
    }
  }

  /** BaseSegment: either kind of segment behind one interface. */
  datatype Segment = ValueSeg(valueSegment: ValueSegment) | DictionarySeg(dictionarySegment: DictionarySegment) {

    ghost function Repr(): set<object> {
      match this
      case ValueSeg(v) => {v}
      case DictionarySeg(d) => {d, d.attributeVector, d.attributeVector.values}
    }

    ghost function View(): SegmentView
      reads Repr()
    {
      match this
      case ValueSeg(v) => v.View()
      case DictionarySeg(d) => d.View()
    }

    function Size(): (n: nat)
      reads Repr()
      ensures n == View().Size()
    {
      match this
      case ValueSeg(v) => |v.values|
      case DictionarySeg(d) => d.attributeVector.Size()
    }

    function At(i: nat): (v: Value)
      requires View().InRange() && i < View().Size()
      reads Repr()
      ensures v == View().At(i)
    {
      match this
      case ValueSeg(v) => v.values[i]
      case DictionarySeg(d) => d.dictionary[d.attributeVector.Get(i)]
    }

    /** Dictionary segments are immutable: their append throws. */
    method Append(lexical: Lexical, v: Value) returns (ok: bool)
      modifies Repr()
      ensures ok == SegmentAppend(lexical, old(View()), v).Some?
      ensures View() == if ok then SegmentAppend(lexical, old(View()), v).value else old(View())
    {
      match this {
        case ValueSeg(segment) => ok := segment.Append(lexical, v);
        case DictionarySeg(_) => ok := false;
      }
    }
  }
}
