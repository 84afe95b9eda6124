/** CloseExpression and ReverseCloseExpression of cpplint.py (lines 1544-1585 and 1665-1700): finding the partner
    of a bracket across lines. */
module ExpressionScanner {
  import opened Wrappers
  import opened Brackets
  import opened LineScanners

  /** A line and position found, or the line at which the search was given up. */
  datatype Match = MatchAt(line: nat, pos: nat) | NoMatch(line: nat)

  // ---------------------------------------------------------------- forward

  /** The search from the result of one line's scan on. */
  function CloseAfter(op: Regex, lines: seq<string>, l: nat, r: LineResult): Match
    requires l < |lines|
    decreases |lines| - l
  {
    match r
    case At(pos) => MatchAt(l, pos)
    case Unclosed => NoMatch(l)
    case Open(stack) =>
      if stack == [] || l + 1 == |lines| then NoMatch(l)
      else CloseAfter(op, lines, l + 1, ScanEnd(op, lines[l + 1], 0, stack))
  }

  function Close(op: Regex, lines: seq<string>, l: nat, p: nat): Match
    requires l < |lines| && p < |lines[l]|
  {
    var line := lines[l];
    if !IsOpener(line[p]) && line[p] != '<' then NoMatch(l)
    else if line[p] == '<' && p + 1 < |line| && (line[p + 1] == '<' || line[p + 1] == '=') then NoMatch(l)
    else CloseAfter(op, lines, l, ScanEnd(op, line, p, []))
  }

  /** Returns the line, its number and the position just past the closing bracket, or the last line looked at,
      the number of lines and -1. */
  method CloseExpression(op: Regex, lines: seq<string>, l: nat, p: nat)
    returns (line: string, endLine: nat, endPos: int)
    requires l < |lines| && p < |lines[l]|
    ensures Close(op, lines, l, p).line < |lines| && line == lines[Close(op, lines, l, p).line]
    ensures (endLine, endPos) == if Close(op, lines, l, p).MatchAt?
                                 then (Close(op, lines, l, p).line, Close(op, lines, l, p).pos as int)
                                 else (|lines|, -1)
  {
    line := lines[l];
    if (!IsOpener(line[p]) && line[p] != '<')
       || (line[p] == '<' && p + 1 < |line| && (line[p + 1] == '<' || line[p + 1] == '=')) {
      return line, |lines|, -1;
    }
    var current := l;
    var stack: Option<string>;
    endPos, stack := FindEndOfExpressionInLine(op, line, p, []);
    if endPos > -1 {
      return line, current, endPos;
    }
    ghost var result := ScanEnd(op, line, p, []);
    while stack.Some? && stack.value != [] && current < |lines| - 1
      invariant current < |lines| && line == lines[current]
      invariant (-1, stack) == AsPair(result)
      invariant Close(op, lines, l, p) == CloseAfter(op, lines, current, result)
      decreases |lines| - current
    {
      current := current + 1;
      line := lines[current];
      result := ScanEnd(op, line, 0, stack.value);
      endPos, stack := FindEndOfExpressionInLine(op, line, 0, stack.value);
      if endPos > -1 {
        return line, current, endPos;
      }
    }
    return line, |lines|, -1;
  }

  // ---------------------------------------------------------------- backward

  function OpenBefore(op: Regex, lines: seq<string>, l: nat, r: LineResult): Match
    requires l < |lines|
    decreases l
  {
    match r
    case At(pos) => MatchAt(l, pos)
    case Unclosed => NoMatch(l)
    case Open(stack) =>
      if stack == [] || l == 0 then NoMatch(l)
      else OpenBefore(op, lines, l - 1, ScanStart(op, lines[l - 1], |lines[l - 1]|, stack))
  }

  function ReverseClose(op: Regex, lines: seq<string>, l: nat, p: nat): Match
    requires l < |lines| && p < |lines[l]|
  {
    if !IsCloser(lines[l][p]) && lines[l][p] != '>' then NoMatch(l)
    else OpenBefore(op, lines, l, ScanStart(op, lines[l], p + 1, []))
  }

  /** Returns the line, its number and the position of the opening bracket, or the last line looked at, 0 and -1. */
  method ReverseCloseExpression(op: Regex, lines: seq<string>, l: nat, p: nat)
    returns (line: string, startLine: nat, startPos: int)
    requires l < |lines| && p < |lines[l]|
    ensures ReverseClose(op, lines, l, p).line < |lines| && line == lines[ReverseClose(op, lines, l, p).line]
    ensures (startLine, startPos) == if ReverseClose(op, lines, l, p).MatchAt?
                                     then (ReverseClose(op, lines, l, p).line, ReverseClose(op, lines, l, p).pos as int)
                                     else (0, -1)
  {
    line := lines[l];
    if !IsCloser(line[p]) && line[p] != '>' {
      return line, 0, -1;
    }
    var current := l;
    var stack: Option<string>;
    startPos, stack := FindStartOfExpressionInLine(op, line, p, []);
    if startPos > -1 {
      return line, current, startPos;
    }
    ghost var result := ScanStart(op, line, p + 1, []);
    while stack.Some? && stack.value != [] && current > 0
      invariant current < |lines| && line == lines[current]
      invariant (-1, stack) == AsPair(result)
      invariant ReverseClose(op, lines, l, p) == OpenBefore(op, lines, current, result)
      decreases current
    {
      current := current - 1;
      line := lines[current];
      result := ScanStart(op, line, |line|, stack.value);
      startPos, stack := FindStartOfExpressionInLine(op, line, |line| - 1, stack.value);
      if startPos > -1 {
        return line, current, startPos;
      }
    }
    return line, 0, -1;
  }

  // ---------------------------------------------------------------- both are the plain matcher

  /** The search ended just past the position at which the matcher ended, or both failed. */
  ghost predicate FoundEnd(lines: seq<string>, m: Match, outcome: Outcome) {
    if m.NoMatch? then !outcome.Found?
    else m.line < |lines| && 0 < m.pos <= |lines[m.line]| && outcome == Found(Offset(lines, m.line) + m.pos - 1)
  }

  /** The search ended at the position at which the matcher ended, or both failed. */
  ghost predicate FoundStart(lines: seq<string>, m: Match, outcome: Outcome) {
    if m.NoMatch? then !outcome.Found?
    else m.line < |lines| && m.pos < |lines[m.line]| && outcome == Found(Offset(lines, m.line) + m.pos)
  }

  /** The search is the plain matcher on the flattened text. */
  lemma {:induction false} CloseAfterIsForward(op: Regex, lines: seq<string>, l: nat, c: nat, stack: string)
    requires l < |lines| && c <= |lines[l]| && OnOpener(stack)
    ensures Offset(lines, l) + c <= |Flat(lines)|
    ensures FoundEnd(lines, CloseAfter(op, lines, l, ScanEnd(op, lines[l], c, stack)),
                     Forward(Flat(lines), Offset(lines, l) + c, Bare(stack)))
    decreases |lines| - l
  {
    LineInFlat(lines, l);
    var o := Offset(lines, l);
    ScanEndIsForward(op, lines[l], c, stack);
    ForwardOnLine(Flat(lines), o, lines[l], c, Bare(stack));
    match ScanEnd(op, lines[l], c, stack)
    case At(pos) =>
    case Unclosed =>
    case Open(rest) =>
      if l + 1 < |lines| {
        CloseAfterIsForward(op, lines, l + 1, 0, rest);
      } else {
        assert lines[..l + 1] == lines;
      }
  }

  lemma {:induction false} OpenBeforeIsBackward(op: Regex, lines: seq<string>, l: nat, c: nat, stack: string)
    requires NeverAfterBracket(op) && l < |lines| && c <= |lines[l]| && OnCloser(stack)
    ensures Offset(lines, l) + c <= |Flat(lines)|
    ensures FoundStart(lines, OpenBefore(op, lines, l, ScanStart(op, lines[l], c, stack)),
                       Backward(Flat(lines), Offset(lines, l) + c, Bare(stack)))
    decreases l
  {
    LineInFlat(lines, l);
    ScanStartIsBackward(op, lines[l], c, stack);
    BackwardOnLine(Flat(lines), Offset(lines, l), lines[l], c, Bare(stack));
    match ScanStart(op, lines[l], c, stack)
    case At(pos) =>
    case Unclosed =>
    case Open(rest) =>
      if l > 0 {
        LineInFlat(lines, l - 1);
        OpenBeforeIsBackward(op, lines, l - 1, |lines[l - 1]|, rest);
      }
  }

  lemma CharInFlat(lines: seq<string>, l: nat, p: nat)
    requires l < |lines| && p < |lines[l]|
    ensures Offset(lines, l) + p < |Flat(lines)| && Flat(lines)[Offset(lines, l) + p] == lines[l][p]
  {
    LineInFlat(lines, l);
    var o := Offset(lines, l);
    assert Flat(lines)[o..o + |lines[l]|][p] == Flat(lines)[o + p];
  }

  /** The start bracket is pushed onto the empty stack. */
  lemma ForwardFirst(text: string, i: nat)
    requires i < |text| && IsOpener(text[i])
    ensures Forward(text, i, []) == Forward(text, i + 1, [text[i]])
  {
    var stack: string := [];
    assert stack + [text[i]] == [text[i]];
  }

  lemma ScanEndFirst(op: Regex, line: string, p: nat, stack: string, next: string)
    requires p < |line| && IsOpener(line[p]) && next == stack + [line[p]]
    ensures ScanEnd(op, line, p, stack) == ScanEnd(op, line, p + 1, next)
  {
  }

  lemma BareBracket(c: char)
    requires IsOpener(c) || IsCloser(c)
    ensures Bare([c]) == [c]
  {
    var stack: string := [];
    assert stack + [c] == [c];
    BarePush(stack, c);
  }

  /** From a bracket at (l, p), CloseExpression returns what the plain matcher finds in the flattened text,
      success or failure. */
  lemma CloseIsForward(op: Regex, lines: seq<string>, l: nat, p: nat)
    requires l < |lines| && p < |lines[l]| && IsOpener(lines[l][p])
    ensures Offset(lines, l) + p < |Flat(lines)| && Flat(lines)[Offset(lines, l) + p] == lines[l][p]
    ensures FoundEnd(lines, Close(op, lines, l, p), Forward(Flat(lines), Offset(lines, l) + p, []))
  {
    CharInFlat(lines, l, p);
    ForwardFirst(Flat(lines), Offset(lines, l) + p);
    ScanEndFirst(op, lines[l], p, [], [lines[l][p]]);
    BareBracket(lines[l][p]);
    CloseAfterIsForward(op, lines, l, p + 1, [lines[l][p]]);
  }

  lemma ReverseCloseIsBackward(op: Regex, lines: seq<string>, l: nat, p: nat)
    requires NeverAfterBracket(op) && l < |lines| && p < |lines[l]| && IsCloser(lines[l][p])
    ensures Offset(lines, l) + p < |Flat(lines)| && Flat(lines)[Offset(lines, l) + p] == lines[l][p]
    ensures FoundStart(lines, ReverseClose(op, lines, l, p), Backward(Flat(lines), Offset(lines, l) + p + 1, []))
  {
    CharInFlat(lines, l, p);
    var stack := [lines[l][p]];
    assert [] + stack == stack;
    BareBracket(lines[l][p]);
    OpenBeforeIsBackward(op, lines, l, p, [lines[l][p]]);
  }

  // ---------------------------------------------------------------- main results

  /** CloseExpression finds the partner of a bracket, and fails exactly when it has none. */
  lemma CloseFindsPartner(op: Regex, lines: seq<string>, l: nat, p: nat)
    requires l < |lines| && p < |lines[l]| && IsOpener(lines[l][p])
    ensures var m := Close(op, lines, l, p);
      if m.MatchAt? then
        && m.line < |lines| && 0 < m.pos <= |lines[m.line]|
        && Pair(Flat(lines), Offset(lines, l) + p, Offset(lines, m.line) + m.pos - 1)
      else NeverClosed(Flat(lines), Offset(lines, l) + p)
  {
    CloseIsForward(op, lines, l, p);
    var text, start := Flat(lines), Offset(lines, l) + p;
    forall q: nat ensures Pair(text, start, q) <==> Forward(text, start, []) == Found(q) {
      ForwardFindsPair(text, start, q);
    }
  }

  /** ReverseCloseExpression finds the partner of a closing bracket, and fails exactly when it has none. */
  lemma ReverseCloseFindsPartner(op: Regex, lines: seq<string>, l: nat, p: nat)
    requires NeverAfterBracket(op) && l < |lines| && p < |lines[l]| && IsCloser(lines[l][p])
    ensures var m := ReverseClose(op, lines, l, p);
      if m.MatchAt? then
        && m.line < |lines| && m.pos < |lines[m.line]|
        && Pair(Flat(lines), Offset(lines, m.line) + m.pos, Offset(lines, l) + p)
      else NeverOpened(Flat(lines), Offset(lines, l) + p)
  {
    ReverseCloseIsBackward(op, lines, l, p);
    var text, end := Flat(lines), Offset(lines, l) + p;
    forall q: nat ensures Pair(text, q, end) <==> Backward(text, end + 1, []) == Found(q) {
      BackwardFindsPair(text, q, end);
    }
  }

  /** The two scans are inverse to each other: closing from (l, p) ends just past (k, q) exactly when reversing
      from (k, q) ends at (l, p). */
  lemma ScansAreInverse(op: Regex, lines: seq<string>, l: nat, p: nat, k: nat, q: nat)
    requires NeverAfterBracket(op) && l < |lines| && p < |lines[l]| && IsOpener(lines[l][p])
    requires k < |lines| && q < |lines[k]| && IsCloser(lines[k][q])
    ensures Close(op, lines, l, p) == MatchAt(k, q + 1) <==> ReverseClose(op, lines, k, q) == MatchAt(l, p)
  {
    var start, end := Offset(lines, l) + p, Offset(lines, k) + q;
    CloseIsForward(op, lines, l, p);
    ReverseCloseIsBackward(op, lines, k, q);
    ForwardFindsPair(Flat(lines), start, end);
    BackwardFindsPair(Flat(lines), start, end);
    if Close(op, lines, l, p).MatchAt? && Pair(Flat(lines), start, end) {
      var m := Close(op, lines, l, p);
      PositionIsUnique(lines, m.line, m.pos - 1, k, q);
    }
    if ReverseClose(op, lines, k, q).MatchAt? && Pair(Flat(lines), start, end) {
      var m := ReverseClose(op, lines, k, q);
      PositionIsUnique(lines, m.line, m.pos, l, p);
    }
  }

  /** What either scan finds is a bracket of the other kind, so each can be undone by the other. */
  lemma CloseThenReverse(op: Regex, lines: seq<string>, l: nat, p: nat)
    requires NeverAfterBracket(op) && l < |lines| && p < |lines[l]| && IsOpener(lines[l][p])
    requires Close(op, lines, l, p).MatchAt?
    ensures var m := Close(op, lines, l, p);
      && m.line < |lines| && 0 < m.pos <= |lines[m.line]|
      && Matching(lines[l][p], lines[m.line][m.pos - 1])
      && ReverseClose(op, lines, m.line, m.pos - 1) == MatchAt(l, p)
  {
    var m := Close(op, lines, l, p);
    CloseFindsPartner(op, lines, l, p);
    CloseIsForward(op, lines, l, p);
    CharInFlat(lines, m.line, m.pos - 1);
    ScansAreInverse(op, lines, l, p, m.line, m.pos - 1);
  }

  lemma ReverseThenClose(op: Regex, lines: seq<string>, l: nat, p: nat)
    requires NeverAfterBracket(op) && l < |lines| && p < |lines[l]| && IsCloser(lines[l][p])
    requires ReverseClose(op, lines, l, p).MatchAt?
    ensures var m := ReverseClose(op, lines, l, p);
      && m.line < |lines| && m.pos < |lines[m.line]|
      && Matching(lines[m.line][m.pos], lines[l][p])
      && Close(op, lines, m.line, m.pos) == MatchAt(l, p + 1)
  {
    var m := ReverseClose(op, lines, l, p);
    ReverseCloseFindsPartner(op, lines, l, p);
    ReverseCloseIsBackward(op, lines, l, p);
    CharInFlat(lines, m.line, m.pos);
    ScansAreInverse(op, lines, m.line, m.pos, l, p);
  }
}
