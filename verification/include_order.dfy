/** _IncludeState.CheckNextIncludeOrder of cpplint.py (lines 713-732 and 770-821). */
module IncludeOrder {
  import opened Wrappers

  datatype HeaderType = CSystem | CppSystem | LikelyMy | PossibleMy | OtherHeader

  const INITIAL_SECTION: nat := 0
  const MY_H_SECTION: nat := 1
  const C_SECTION: nat := 2
  const CPP_SECTION: nat := 3
  const OTHER_H_SECTION: nat := 4

  /** The section after a header, and whether the header is reported. */
  function Next(section: nat, header: HeaderType): (nat, bool) {
    match header
    case CSystem => if section <= C_SECTION then (C_SECTION, false) else (section, true)
    case CppSystem => if section <= CPP_SECTION then (CPP_SECTION, false) else (section, true)
    case OtherHeader => (OTHER_H_SECTION, false)
    case _ => if section <= MY_H_SECTION then (MY_H_SECTION, false) else (OTHER_H_SECTION, false)
  }

  class IncludeState {
    var section: nat
    var lastHeader: string

    constructor ()
      ensures section == INITIAL_SECTION && lastHeader == ""
    {
      section := INITIAL_SECTION;
      lastHeader := "";
    }

    method ResetSection()
      modifies this
      ensures section == INITIAL_SECTION && lastHeader == ""
    {
      section := INITIAL_SECTION;
      lastHeader := "";
    }

    /** The error names the header and the section it was found after. */
    method CheckNextIncludeOrder(header: HeaderType) returns (error: Option<(HeaderType, nat)>)
      modifies this
      ensures section == Next(old(section), header).0
      ensures error == if Next(old(section), header).1 then Some((header, old(section))) else None
      ensures lastHeader == if error.Some? || section != old(section) then "" else old(lastHeader)
    {
      var lastSection := section;
      match header {
        case CSystem =>
          if section <= C_SECTION {
            section := C_SECTION;
          } else {
            lastHeader := "";
            return Some((header, lastSection));
          }
        case CppSystem =>
          if section <= CPP_SECTION {
            section := CPP_SECTION;
          } else {
            lastHeader := "";
            return Some((header, lastSection));
          }
        case OtherHeader =>
          section := OTHER_H_SECTION;
        case _ =>
          if section <= MY_H_SECTION {
            section := MY_H_SECTION;
          } else {
            section := OTHER_H_SECTION;
          }
      }
      if lastSection != section {
        lastHeader := "";
      }
      return None;
    }
  }

  // ---------------------------------------------------------------- runs after a reset

  function SectionAfter(headers: seq<HeaderType>): nat {
    if headers == [] then INITIAL_SECTION
    else Next(SectionAfter(headers[..|headers| - 1]), headers[|headers| - 1]).0
  }

  /** Header j of the run is reported. */
  predicate Reported(headers: seq<HeaderType>, j: nat)
    requires j < |headers|
  {
    Next(SectionAfter(headers[..j]), headers[j]).1
  }

  predicate IsOwn(header: HeaderType) {
    header == LikelyMy || header == PossibleMy
  }

  /** An own header that comes after some header that is not. */
  predicate IsLateOwn(headers: seq<HeaderType>, j: nat)
    requires j < |headers|
  {
    IsOwn(headers[j]) && exists i :: 0 <= i < j && !IsOwn(headers[i])
  }

  /** Headers after which no C++ header may follow. */
  predicate ClosesCpp(headers: seq<HeaderType>, j: nat)
    requires j < |headers|
  {
    headers[j] == OtherHeader || IsLateOwn(headers, j)
  }

  /** Headers after which no C header may follow. */
  predicate ClosesC(headers: seq<HeaderType>, j: nat)
    requires j < |headers|
  {
    headers[j] == CppSystem || ClosesCpp(headers, j)
  }

  lemma LatenessIsLocal(headers: seq<HeaderType>, front: seq<HeaderType>, j: nat)
    requires front <= headers && j < |front|
    ensures IsLateOwn(front, j) == IsLateOwn(headers, j)
  {
    assert forall i :: 0 <= i <= j ==> front[i] == headers[i];
  }

  /** What the section says about the headers seen so far. */
  lemma {:induction false} SectionMeaning(headers: seq<HeaderType>)
    ensures var section := SectionAfter(headers);
      && section <= OTHER_H_SECTION
      && (section >= MY_H_SECTION <==> headers != [])
      && (section > MY_H_SECTION <==> exists i :: 0 <= i < |headers| && !IsOwn(headers[i]))
      && (section > C_SECTION <==> exists i :: 0 <= i < |headers| && ClosesC(headers, i))
      && (section > CPP_SECTION <==> exists i :: 0 <= i < |headers| && ClosesCpp(headers, i))
  {
    if headers != [] {
      var last := |headers| - 1;
      var front := headers[..last];
      SectionMeaning(front);
      forall i | 0 <= i < last
        ensures ClosesC(front, i) == ClosesC(headers, i) && ClosesCpp(front, i) == ClosesCpp(headers, i)
      {
        LatenessIsLocal(headers, front, i);
      }
      assert forall i :: 0 <= i < last ==> front[i] == headers[i];
      assert IsLateOwn(headers, last) <==> IsOwn(headers[last]) && SectionAfter(front) > MY_H_SECTION;
      ExtendExists(headers);
    }
  }

  lemma ExtendExists(headers: seq<HeaderType>)
    requires headers != []
    ensures var last := |headers| - 1; var front := headers[..last];
      && ((exists i :: 0 <= i < |headers| && !IsOwn(headers[i]))
          <==> (exists i :: 0 <= i < last && !IsOwn(front[i])) || !IsOwn(headers[last]))
      && ((exists i :: 0 <= i < |headers| && ClosesC(headers, i))
          <==> (exists i :: 0 <= i < last && ClosesC(front, i)) || ClosesC(headers, last))
      && ((exists i :: 0 <= i < |headers| && ClosesCpp(headers, i))
          <==> (exists i :: 0 <= i < last && ClosesCpp(front, i)) || ClosesCpp(headers, last))
  {
    var last := |headers| - 1;
    var front := headers[..last];
    forall i | 0 <= i < last
      ensures ClosesC(front, i) == ClosesC(headers, i) && ClosesCpp(front, i) == ClosesCpp(headers, i)
      ensures front[i] == headers[i]
    {
      LatenessIsLocal(headers, front, i);
    }
  }

  /** A header is reported exactly when it is a C header after a C++, other or late own header, or a C++ header
      after an other or late own header. */
  lemma ReportedExactly(headers: seq<HeaderType>, j: nat)
    requires j < |headers|
    ensures Reported(headers, j) <==>
      || (headers[j] == CSystem && exists i :: 0 <= i < j && ClosesC(headers, i))
      || (headers[j] == CppSystem && exists i :: 0 <= i < j && ClosesCpp(headers, i))
  {
    var front := headers[..j];
    SectionMeaning(front);
    forall i | 0 <= i < j
      ensures ClosesC(front, i) == ClosesC(headers, i) && ClosesCpp(front, i) == ClosesCpp(headers, i)
    {
      LatenessIsLocal(headers, front, i);
    }
  }

  /** The section never moves back, and a reported header leaves it where it was. */
  lemma {:induction false} SectionsNeverDecrease(headers: seq<HeaderType>, i: nat, j: nat)
    requires i <= j <= |headers|
    ensures SectionAfter(headers[..i]) <= SectionAfter(headers[..j])
    ensures i < j && Reported(headers, i) ==> SectionAfter(headers[..i + 1]) == SectionAfter(headers[..i])
    decreases j - i
  {
    if i < j {
      SectionsNeverDecrease(headers, i, j - 1);
      SectionMeaning(headers[..j - 1]);
      assert headers[..j][..j - 1] == headers[..j - 1];
      assert headers[..i + 1][..i] == headers[..i];
    }
  }
}
