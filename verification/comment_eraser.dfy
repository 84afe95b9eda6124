/** RemoveMultiLineComments of cpplint.py (lines 1311-1352): lines of C comments that span lines are overwritten
    in place. */
module CommentEraser {
  import opened Wrappers
  import opened Text

  /** What an erased line is replaced by: not blank, and neither opening nor leaving open a comment. */
  const ERASED := "/**/"

  predicate EndMarkAt(s: string, k: nat)
    requires k < |s| - 1
  {
    s[k] == '*' && s[k + 1] == '/'
  }

  // s.find('*/', from) >= 0
  predicate HasCloserFrom(s: string, from: nat) {
    exists k :: from <= k < |s| - 1 && EndMarkAt(s, k)
  }

  /** The line opens a comment and does not close it again. */
  predicate IsStart(line: string) {
    var s := Strip(line);
    |s| >= 2 && s[0] == '/' && s[1] == '*' && !HasCloserFrom(s, 2)
  }

  predicate IsEnd(line: string) {
    var s := Strip(line);
    |s| >= 2 && EndMarkAt(s, |s| - 2)
  }

  /** The first thing on the line is the start of a comment that does not end on it. */
  ghost predicate OpensComment(line: string, i: nat) {
    && i + 1 < |line| && Blank(line, 0, i) && line[i] == '/' && line[i + 1] == '*'
    && forall k :: i + 2 <= k < |line| - 1 ==> !EndMarkAt(line, k)
  }

  /** The last thing on the line is the end of a comment. */
  ghost predicate ClosesComment(line: string, j: nat) {
    j + 1 < |line| && line[j] == '*' && line[j + 1] == '/' && Blank(line, j + 2, |line|)
  }

  lemma {:induction false} EndSurvivesStripping(line: string, a: nat, b: nat)
    requires a <= b <= |line| && Blank(line, b, |line|)
    ensures HasCloserFrom(line[a..b], 2)
            <==> exists k :: a + 2 <= k < |line| - 1 && EndMarkAt(line, k)
  {
    var s := line[a..b];
    if k :| 2 <= k < |s| - 1 && EndMarkAt(s, k) {
      assert EndMarkAt(line, a + k);
    }
    if k :| a + 2 <= k < |line| - 1 && EndMarkAt(line, k) {
      assert k + 1 < b;
      assert EndMarkAt(s, k - a);
    }
  }

  /** Where the stripped line starts and ends in the line, and its first and last two characters. */
  lemma StrippedEnds(line: string) returns (a: nat, b: nat)
    ensures a <= b <= |line| && |Strip(line)| == b - a
    ensures Blank(line, 0, a) && Blank(line, b, |line|)
    ensures a < b ==> !IsSpace(line[a]) && !IsSpace(line[b - 1])
    ensures a + 2 <= b ==>
              && Strip(line)[0] == line[a] && Strip(line)[1] == line[a + 1]
              && Strip(line)[|Strip(line)| - 2] == line[b - 2] && Strip(line)[|Strip(line)| - 1] == line[b - 1]
    ensures HasCloserFrom(Strip(line), 2)
            <==> exists k :: a + 2 <= k < |line| - 1 && EndMarkAt(line, k)
  {
    a, b := StripMeaning(line);
    EndSurvivesStripping(line, a, b);
  }

  lemma {:induction false} StartIsFound(line: string)
    requires IsStart(line)
    ensures exists i: nat :: OpensComment(line, i)
  {
    var a, b := StrippedEnds(line);
    assert OpensComment(line, a);
  }

  lemma {:induction false} FoundIsStart(line: string, i: nat)
    requires OpensComment(line, i)
    ensures IsStart(line)
  {
    var a, b := StrippedEnds(line);
    assert a == i && i + 2 <= b;
  }

  lemma {:induction false} StartMeaning(line: string)
    ensures IsStart(line) <==> exists i: nat :: OpensComment(line, i)
  {
    if IsStart(line) {
      StartIsFound(line);
    }
    if i: nat :| OpensComment(line, i) {
      FoundIsStart(line, i);
    }
  }

  lemma {:induction false} EndIsFound(line: string)
    requires IsEnd(line)
    ensures exists j: nat :: ClosesComment(line, j)
  {
    var a, b := StrippedEnds(line);
    assert ClosesComment(line, b - 2);
  }

  lemma {:induction false} FoundIsEnd(line: string, j: nat)
    requires ClosesComment(line, j)
    ensures IsEnd(line)
  {
    var a, b := StrippedEnds(line);
    assert b == j + 2 && a <= j;
  }

  lemma {:induction false} EndMeaning(line: string)
    ensures IsEnd(line) <==> exists j: nat :: ClosesComment(line, j)
  {
    if IsEnd(line) {
      EndIsFound(line);
    }
    if j: nat :| ClosesComment(line, j) {
      FoundIsEnd(line, j);
    }
  }

  lemma ErasedLine()
    ensures !IsStart(ERASED) && IsEnd(ERASED)
  {
    assert Strip(ERASED) == ERASED;
    assert EndMarkAt(ERASED, 2);
  }

  /** The two tests on a line and the replacement for an erased one. What follows holds for any tests on any kind
      of line. */
  datatype Marks<!T> = Marks(start: T -> bool, end: T -> bool, erased: T)

  const COMMENTS := Marks(IsStart, IsEnd, ERASED)

  // ---------------------------------------------------------------- what is to be erased

  /** Reading line by line, is the start of line k inside a comment? */
  ghost predicate Inside<T>(m: Marks<T>, lines: seq<T>, k: nat)
    requires k <= |lines|
  {
    k > 0 && (Inside(m, lines, k - 1) || m.start(lines[k - 1])) && !m.end(lines[k - 1])
  }

  /** The line on which the comment around the start of line k began. */
  ghost function OpenedAt<T>(m: Marks<T>, lines: seq<T>, k: nat): (b: nat)
    requires k <= |lines| && Inside(m, lines, k)
    ensures b < k && m.start(lines[b])
  {
    if Inside(m, lines, k - 1) then OpenedAt(m, lines, k - 1) else k - 1
  }

  /** The lines up to and including the last one that ends a comment. */
  ghost function AfterLastEnd<T>(m: Marks<T>, lines: seq<T>): (n: nat)
    ensures n <= |lines| && (n > 0 ==> m.end(lines[n - 1]))
    ensures forall j :: n <= j < |lines| ==> !m.end(lines[j])
  {
    if lines == [] then 0
    else if m.end(lines[|lines| - 1]) then |lines|
    else AfterLastEnd(m, lines[..|lines| - 1])
  }

  /** Line k belongs to a comment, and some comment end comes on it or later. */
  ghost predicate InClosedComment<T>(m: Marks<T>, lines: seq<T>, k: nat)
    requires k < |lines|
  {
    (Inside(m, lines, k) || m.start(lines[k])) && k < AfterLastEnd(m, lines)
  }

  /** The lines of closed comments erased, all others kept. */
  ghost function Cleaned<T>(m: Marks<T>, lines: seq<T>): (r: seq<T>)
    ensures |r| == |lines|
    ensures forall k :: 0 <= k < |lines| ==> r[k] == if InClosedComment(m, lines, k) then m.erased else lines[k]
  {
    seq(|lines|, k requires 0 <= k < |lines| => if InClosedComment(m, lines, k) then m.erased else lines[k])
  }

  /** The number of the line on which a comment starts that is still open at the end of the file. */
  ghost function Unclosed<T>(m: Marks<T>, lines: seq<T>): Option<nat> {
    if Inside(m, lines, |lines|) then Some(OpenedAt(m, lines, |lines|) + 1) else None
  }

  lemma {:induction false} OutsideStays<T>(m: Marks<T>, lines: seq<T>, i: nat, k: nat)
    requires i <= k <= |lines| && !Inside(m, lines, i)
    requires forall j :: i <= j < k ==> !m.start(lines[j])
    ensures !Inside(m, lines, k)
    decreases k - i
  {
    if i < k {
      OutsideStays(m, lines, i, k - 1);
    }
  }

  lemma {:induction false} InsideStays<T>(m: Marks<T>, lines: seq<T>, b: nat, k: nat)
    requires b < k <= |lines| && (Inside(m, lines, b) || m.start(lines[b]))
    requires forall j :: b <= j < k ==> !m.end(lines[j])
    ensures Inside(m, lines, k)
    ensures OpenedAt(m, lines, k) == if Inside(m, lines, b) then OpenedAt(m, lines, b) else b
    decreases k - b
  {
    if b + 1 < k {
      InsideStays(m, lines, b, k - 1);
    }
  }

  lemma {:induction false} NothingStartsBefore<T>(m: Marks<T>, lines: seq<T>, i: nat, last: nat)
    requires i <= last <= |lines| && !Inside(m, lines, i)
    requires forall j :: i <= j < last ==> !m.start(lines[j])
    ensures forall k :: i <= k <= last ==> !Inside(m, lines, k)
    ensures forall k :: i <= k < last ==> Cleaned(m, lines)[k] == lines[k]
  {
    forall k | i <= k <= last ensures !Inside(m, lines, k) {
      OutsideStays(m, lines, i, k);
    }
  }

  /** One comment, from `begin` to `end`, with nothing before it since line i. */
  lemma {:induction false} OneComment<T>(m: Marks<T>, lines: seq<T>, begin: nat, end: nat)
    requires begin <= end < |lines|
    requires m.start(lines[begin])
    requires m.end(lines[end]) && forall j :: begin <= j < end ==> !m.end(lines[j])
    ensures forall k :: begin <= k <= end ==> Cleaned(m, lines)[k] == m.erased
    ensures !Inside(m, lines, end + 1)
  {
    assert end < AfterLastEnd(m, lines);
    forall k | begin <= k <= end ensures InClosedComment(m, lines, k) {
      if begin < k {
        InsideStays(m, lines, begin, k);
      }
    }
  }

  /** A comment that starts at `begin` and never ends. */
  lemma {:induction false} OpenComment<T>(m: Marks<T>, lines: seq<T>, begin: nat)
    requires begin < |lines| && !Inside(m, lines, begin) && m.start(lines[begin])
    requires forall j :: begin <= j < |lines| ==> !m.end(lines[j])
    ensures forall k :: begin <= k < |lines| ==> Cleaned(m, lines)[k] == lines[k]
    ensures Unclosed(m, lines) == Some(begin + 1)
  {
    assert AfterLastEnd(m, lines) <= begin;
    InsideStays(m, lines, begin, |lines|);
  }

  /** The array between two comments: cleaned up to line i, untouched from there on. */
  ghost predicate CleanedUpTo<T>(m: Marks<T>, original: seq<T>, now: seq<T>, i: nat) {
    && i <= |original| == |now|
    && forall k :: 0 <= k < |now| ==> now[k] == if k < i then Cleaned(m, original)[k] else original[k]
  }

  /** No line of lines[lo..hi] passes the test. */
  ghost predicate NoneIn<T>(test: T -> bool, lines: seq<T>, lo: nat, hi: nat)
    requires hi <= |lines|
  {
    forall j :: lo <= j < hi ==> !test(lines[j])
  }

  /** The lines from `begin` up to `end` overwritten. */
  ghost function Overwritten<T>(lines: seq<T>, begin: nat, end: nat, filler: T): (r: seq<T>)
    ensures |r| == |lines|
    ensures forall k :: 0 <= k < |lines| ==> r[k] == if begin <= k < end then filler else lines[k]
  {
    seq(|lines|, k requires 0 <= k < |lines| => if begin <= k < end then filler else lines[k])
  }

  /** One turn of the loop: the lines of the next comment are overwritten. */
  lemma {:induction false} CommentErased<T>(m: Marks<T>, original: seq<T>, before: seq<T>, now: seq<T>,
                                            i: nat, begin: nat, end: nat)
    requires CleanedUpTo(m, original, before, i) && !Inside(m, original, i)
    requires i <= begin <= end < |before|
    requires m.start(before[begin]) && NoneIn(m.start, before, i, begin)
    requires m.end(before[end]) && NoneIn(m.end, before, begin, end)
    requires now == Overwritten(before, begin, end + 1, m.erased)
    ensures CleanedUpTo(m, original, now, end + 1) && !Inside(m, original, end + 1)
  {
    NothingStartsBefore(m, original, i, begin);
    OneComment(m, original, begin, end);
  }

  /** The last turn without a further comment. */
  lemma {:induction false} NoCommentLeft<T>(m: Marks<T>, original: seq<T>, now: seq<T>, i: nat)
    requires CleanedUpTo(m, original, now, i) && !Inside(m, original, i)
    requires NoneIn(m.start, now, i, |now|)
    ensures CleanedUpTo(m, original, now, |original|) && !Inside(m, original, |original|)
  {
    NothingStartsBefore(m, original, i, |original|);
  }

  lemma StartOfFile<T>(m: Marks<T>, original: seq<T>)
    ensures CleanedUpTo(m, original, original, 0) && !Inside(m, original, 0)
  {
  }

  lemma AllCleaned<T>(m: Marks<T>, original: seq<T>, now: seq<T>)
    requires CleanedUpTo(m, original, now, |original|) && !Inside(m, original, |original|)
    ensures now == Cleaned(m, original) && Unclosed(m, original) == None
  {
  }

  /** The last turn with a comment that never ends. */
  lemma {:induction false} OpenCommentLeft<T>(m: Marks<T>, original: seq<T>, now: seq<T>, i: nat, begin: nat)
    requires CleanedUpTo(m, original, now, i) && !Inside(m, original, i)
    requires i <= begin < |now| && m.start(now[begin])
    requires NoneIn(m.start, now, i, begin) && NoneIn(m.end, now, begin, |now|)
    ensures now == Cleaned(m, original) && Unclosed(m, original) == Some(begin + 1)
  {
    NothingStartsBefore(m, original, i, begin);
    OpenComment(m, original, begin);
  }

  // ---------------------------------------------------------------- the methods

  method FindNextMultiLineCommentStart<T>(m: Marks<T>, lines: array<T>, lineix: nat) returns (k: nat)
    requires lineix <= lines.Length
    ensures lineix <= k <= lines.Length && (k < lines.Length ==> m.start(lines[..][k]))
    ensures NoneIn(m.start, lines[..], lineix, k)
  {
    k := lineix;
    while k < lines.Length
      invariant lineix <= k <= lines.Length && NoneIn(m.start, lines[..], lineix, k)
    {
      if m.start(lines[k]) {
        return;
      }
      k := k + 1;
    }
  }

  method FindNextMultiLineCommentEnd<T>(m: Marks<T>, lines: array<T>, lineix: nat) returns (k: nat)
    requires lineix <= lines.Length
    ensures lineix <= k <= lines.Length && (k < lines.Length ==> m.end(lines[..][k]))
    ensures NoneIn(m.end, lines[..], lineix, k)
  {
    k := lineix;
    while k < lines.Length
      invariant lineix <= k <= lines.Length && NoneIn(m.end, lines[..], lineix, k)
    {
      if m.end(lines[k]) {
        return;
      }
      k := k + 1;
    }
  }

  method RemoveMultiLineCommentsFromRange<T>(m: Marks<T>, lines: array<T>, begin: nat, end: nat)
    requires begin <= end <= lines.Length
    modifies lines
    ensures lines[..] == Overwritten(old(lines[..]), begin, end, m.erased)
  {
    for i := begin to end
      invariant forall k :: 0 <= k < lines.Length ==> lines[k] == if begin <= k < i then m.erased else old(lines[k])
    {
      lines[i] := m.erased;
    }
  }

  /** One turn of the loop: erases the next comment and returns the line after it, or the number of lines if there is
      no further comment; or returns the number of the line on which the next comment starts if it never ends. */
  method EraseNextComment<T>(m: Marks<T>, lines: array<T>, lineix: nat, ghost original: seq<T>)
    returns (next: nat, error: Option<nat>)
    requires lineix < lines.Length
    requires CleanedUpTo(m, original, lines[..], lineix) && !Inside(m, original, lineix)
    modifies lines
    ensures error.Some? ==> lines[..] == Cleaned(m, original) && Unclosed(m, original) == error
    ensures error.None? ==>
              && lineix < next <= |original|
              && CleanedUpTo(m, original, lines[..], next) && !Inside(m, original, next)
  {
    var begin := FindNextMultiLineCommentStart(m, lines, lineix);
    if begin >= lines.Length {
      NoCommentLeft(m, original, lines[..], lineix);
      return lines.Length, None;
    }
    var end := FindNextMultiLineCommentEnd(m, lines, begin);
    if end >= lines.Length {
      OpenCommentLeft(m, original, lines[..], lineix, begin);
      return lines.Length, Some(begin + 1);
    }
    ghost var before := lines[..];
    RemoveMultiLineCommentsFromRange(m, lines, begin, end + 1);
    CommentErased(m, original, before, lines[..], lineix, begin, end);
    return end + 1, None;
  }

  /** Returns the number of the line at which an unclosed comment starts, if there is one. */
  method RemoveMultiLineComments<T>(m: Marks<T>, lines: array<T>) returns (error: Option<nat>)
    modifies lines
    ensures lines[..] == Cleaned(m, old(lines[..]))
    ensures error == Unclosed(m, old(lines[..]))
  {
    ghost var original := lines[..];
    StartOfFile(m, original);
    var lineix := 0;
    while lineix < lines.Length
      invariant CleanedUpTo(m, original, lines[..], lineix) && !Inside(m, original, lineix)
    {
      lineix, error := EraseNextComment(m, lines, lineix, original);
      if error.Some? {
        return;
      }
    }
    AllCleaned(m, original, lines[..]);
    return None;
  }

  // ---------------------------------------------------------------- main results

  /** What is left: no comment start at all without an error; with one, none before the reported line, and no
      comment end from there on. */
  lemma {:induction false} NoStartIsLeft<T>(m: Marks<T>, lines: seq<T>)
    requires !m.start(m.erased)
    ensures var r, error := Cleaned(m, lines), Unclosed(m, lines);
      if error.None? then forall k :: 0 <= k < |r| ==> !m.start(r[k])
      else
        && 0 < error.value <= |r| && m.start(r[error.value - 1])
        && (forall k :: 0 <= k < error.value - 1 ==> !m.start(r[k]))
        && (forall k :: error.value - 1 <= k < |r| ==> r[k] == lines[k] && !m.end(r[k]))
  {
    var r, error := Cleaned(m, lines), Unclosed(m, lines);
    var last := if error.Some? then error.value - 1 else |lines|;
    if error.Some? {
      NothingClosesAfter(m, lines, |lines|);
    }
    forall k | 0 <= k < last ensures !m.start(r[k]) {
      if m.start(lines[k]) && !InClosedComment(m, lines, k) {
        InsideStays(m, lines, k, last);
      }
    }
  }

  lemma {:induction false} NothingClosesAfter<T>(m: Marks<T>, lines: seq<T>, k: nat)
    requires k <= |lines| && Inside(m, lines, k)
    ensures !Inside(m, lines, OpenedAt(m, lines, k))
    ensures forall j :: OpenedAt(m, lines, k) <= j < k ==> !m.end(lines[j])
  {
    if Inside(m, lines, k - 1) {
      NothingClosesAfter(m, lines, k - 1);
    }
  }

  lemma NothingToErase<T>(m: Marks<T>, lines: seq<T>)
    requires forall j :: 0 <= j < |lines| ==> !m.start(lines[j])
    ensures Cleaned(m, lines) == lines && Unclosed(m, lines) == None
  {
    NoCommentLeft(m, lines, lines, 0);
    AllCleaned(m, lines, lines);
  }

  lemma NothingToClose<T>(m: Marks<T>, lines: seq<T>, begin: nat)
    requires begin < |lines| && m.start(lines[begin]) && forall j :: 0 <= j < begin ==> !m.start(lines[j])
    requires forall j :: begin <= j < |lines| ==> !m.end(lines[j])
    ensures Cleaned(m, lines) == lines && Unclosed(m, lines) == Some(begin + 1)
  {
    OpenCommentLeft(m, lines, lines, 0, begin);
  }

  /** Erasing twice is erasing once and reports the same error, also when an error was reported. */
  lemma ErasingIsIdempotent<T>(m: Marks<T>, lines: seq<T>)
    requires !m.start(m.erased)
    ensures Cleaned(m, Cleaned(m, lines)) == Cleaned(m, lines)
    ensures Unclosed(m, Cleaned(m, lines)) == Unclosed(m, lines)
  {
    var r := Cleaned(m, lines);
    NoStartIsLeft(m, lines);
    match Unclosed(m, lines) {
      case None => NothingToErase(m, r);
      case Some(number) => NothingToClose(m, r, number - 1);
    }
  }

  /** The same for the tests cpplint.py uses. */
  lemma {:induction false} CommentsAreErasedOnce(lines: seq<string>)
    ensures forall k :: 0 <= k < |lines| ==>
              Cleaned(COMMENTS, lines)[k] == if InClosedComment(COMMENTS, lines, k) then "/**/" else lines[k]
    ensures Unclosed(COMMENTS, lines).None? ==> forall k :: 0 <= k < |lines| ==> !IsStart(Cleaned(COMMENTS, lines)[k])
    ensures Cleaned(COMMENTS, Cleaned(COMMENTS, lines)) == Cleaned(COMMENTS, lines)
    ensures Unclosed(COMMENTS, Cleaned(COMMENTS, lines)) == Unclosed(COMMENTS, lines)
  {
    ErasedLine();
    NoStartIsLeft(COMMENTS, lines);
    ErasingIsIdempotent(COMMENTS, lines);
    var r := Cleaned(COMMENTS, lines);
    assert Unclosed(COMMENTS, lines).None? ==> forall k :: 0 <= k < |r| ==> !COMMENTS.start(r[k]);
  }
}
