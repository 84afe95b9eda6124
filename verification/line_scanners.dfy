/** The per-line bracket scanners of cpplint.py (lines 1466-1541, 1588-1662 and 4535-4551) with their heuristics
    for `<`, `>`, `<<`, `->`, `operator<` and `;`. */
module LineScanners {
  import opened Wrappers
  import opened Text
  import opened Brackets

  // ---------------------------------------------------------------- the regular expressions involved

  predicate IsWord(c: char) {
    'a' <= c <= 'z' || 'A' <= c <= 'Z' || '0' <= c <= '9' || c == '_'
  }

  /** Search(r'\boperator\s*$', s) */
  predicate EndsWithOperator(s: string) {
    var t := StripRight(s);
    |t| >= 8 && t[|t| - 8..] == "operator" && (|t| == 8 || !IsWord(t[|t| - 9]))
  }

  /** The test for a preceding `operator`, as a parameter: the forward scan works whatever it answers. */
  type Regex = string -> bool

  /** All the backward scan needs: the test never succeeds just after a bracket. */
  ghost predicate NeverAfterBracket(op: Regex) {
    forall s :: op(s) ==> s != [] && !IsOpener(Top(s)) && !IsCloser(Top(s))
  }

  /** The test cpplint.py uses is of that kind. */
  lemma {:induction false} OperatorIsNeverAfterBracket()
    ensures NeverAfterBracket(EndsWithOperator)
  {
    forall s | EndsWithOperator(s) ensures s != [] && !IsOpener(Top(s)) && !IsCloser(Top(s)) {
      OperatorEnds(s);
    }
  }

  /** The word "operator", not preceded by a word character, and only white space after it. */
  ghost predicate OperatorAt(s: string, i: nat) {
    i + 8 <= |s| && s[i..i + 8] == "operator" && Blank(s, i + 8, |s|) && (i == 0 || !IsWord(s[i - 1]))
  }

  lemma {:induction false} OperatorMeaning(s: string)
    ensures EndsWithOperator(s) <==> exists i: nat :: OperatorAt(s, i)
  {
    var t := StripRight(s);
    if EndsWithOperator(s) {
      assert s[|t| - 8..|t|] == t[|t| - 8..];
      assert OperatorAt(s, |t| - 8);
    }
    if i: nat :| OperatorAt(s, i) {
      assert s[i + 7] == s[i..i + 8][7] == 'r';
      assert |t| == i + 8;
      assert t[i..] == s[i..i + 8];
    }
  }

  lemma OperatorEnds(s: string)
    requires EndsWithOperator(s)
    ensures s != [] && (IsSpace(Top(s)) || Top(s) == 'r')
  {
    var t := StripRight(s);
    assert t[|t| - 8..][7] == Top(t);
  }

  /** Match(r'\s>=\s', line[i - 1:]) */
  predicate SpacedGreaterEqual(line: string, i: nat)
    requires 0 < i < |line|
  {
    i + 2 < |line| && IsSpace(line[i - 1]) && line[i] == '>' && line[i + 1] == '=' && IsSpace(line[i + 2])
  }

  // ---------------------------------------------------------------- results

  /** (position, None), (-1, None) and (-1, stack) */
  datatype LineResult = At(pos: nat) | Unclosed | Open(stack: string)

  function AsPair(r: LineResult): (int, Option<string>) {
    match r
    case At(pos) => (pos as int, None)
    case Unclosed => (-1, None)
    case Open(stack) => (-1, Some(stack))
  }

  /** `while stack and stack[-1] == angle: stack.pop()` */
  function DropAngles(stack: string, angle: char): (rest: string)
    ensures |rest| <= |stack| && rest == stack[..|rest|]
    ensures rest != [] ==> Top(rest) != angle
  {
    if stack != [] && Top(stack) == angle then DropAngles(Pop(stack), angle) else stack
  }

  // ---------------------------------------------------------------- forward

  /** What FindEndOfExpressionInLine returns, scanning from position i. */
  function ScanEnd(op: Regex, line: string, i: nat, stack: string): LineResult
    decreases |line| - i
  {
    if i >= |line| then Open(stack)
    else
      var c := line[i];
      if IsOpener(c) then ScanEnd(op, line, i + 1, stack + [c])
      else if c == '<' then
        if i > 0 && line[i - 1] == '<' then
          if stack != [] && Top(stack) == '<' then
            if |stack| == 1 then Unclosed else ScanEnd(op, line, i + 1, Pop(stack))
          else ScanEnd(op, line, i + 1, stack)
        else if i > 0 && op(line[..i]) then ScanEnd(op, line, i + 1, stack)
        else ScanEnd(op, line, i + 1, stack + ['<'])
      else if IsCloser(c) then
        var rest := DropAngles(stack, '<');
        if rest == [] then Unclosed
        else if Closer(Top(rest)) != c then Unclosed
        else if |rest| == 1 then At(i + 1)
        else ScanEnd(op, line, i + 1, Pop(rest))
      else if c == '>' then
        if i > 0 && (line[i - 1] == '-' || op(line[..i - 1])) then ScanEnd(op, line, i + 1, stack)
        else if stack != [] && Top(stack) == '<' then
          if |stack| == 1 then At(i + 1) else ScanEnd(op, line, i + 1, Pop(stack))
        else ScanEnd(op, line, i + 1, stack)
      else if c == ';' then
        var rest := DropAngles(stack, '<');
        if rest == [] then Unclosed else ScanEnd(op, line, i + 1, rest)
      else ScanEnd(op, line, i + 1, stack)
  }

  method FindEndOfExpressionInLine(op: Regex, line: string, startpos: nat, openStack: string)
    returns (pos: int, newStack: Option<string>)
    ensures (pos, newStack) == AsPair(ScanEnd(op, line, startpos, openStack))
  {
    var stack := openStack;
    var i := startpos;
    while i < |line|
      invariant ScanEnd(op, line, startpos, openStack) == ScanEnd(op, line, i, stack)
    {
      var c := line[i];
      if IsOpener(c) {
        stack := stack + [c];
      } else if c == '<' {
        if i > 0 && line[i - 1] == '<' {
          if stack != [] && Top(stack) == '<' {
            stack := Pop(stack);
            if stack == [] {
              return -1, None;
            }
          }
        } else if i > 0 && op(line[..i]) {
        } else {
          stack := stack + ['<'];
        }
      } else if IsCloser(c) {
        ghost var before := stack;
        while stack != [] && Top(stack) == '<'
          invariant DropAngles(stack, '<') == DropAngles(before, '<')
          decreases |stack|
        {
          stack := Pop(stack);
        }
        if stack == [] {
          return -1, None;
        }
        if Closer(Top(stack)) == c {
          stack := Pop(stack);
          if stack == [] {
            return i + 1, None;
          }
        } else {
          return -1, None;
        }
      } else if c == '>' {
        if i > 0 && (line[i - 1] == '-' || op(line[..i - 1])) {
        } else if stack != [] {
          if Top(stack) == '<' {
            stack := Pop(stack);
            if stack == [] {
              return i + 1, None;
            }
          }
        }
      } else if c == ';' {
        ghost var before := stack;
        while stack != [] && Top(stack) == '<'
          invariant DropAngles(stack, '<') == DropAngles(before, '<')
          decreases |stack|
        {
          stack := Pop(stack);
        }
        if stack == [] {
          return -1, None;
        }
      }
      i := i + 1;
    }
    return -1, Some(stack);
  }

  // ---------------------------------------------------------------- backward

  /** What FindStartOfExpressionInLine returns, scanning from position j - 1 down. */
  function ScanStart(op: Regex, line: string, j: nat, stack: string): LineResult
    requires j <= |line|
    decreases j
  {
    if j == 0 then Open(stack)
    else
      var i := j - 1;
      var c := line[i];
      if IsCloser(c) then ScanStart(op, line, i, stack + [c])
      else if c == '>' then
        if i > 0 && (line[i - 1] == '-' || SpacedGreaterEqual(line, i) || op(line[..i]))
        then ScanStart(op, line, i - 1, stack)
        else ScanStart(op, line, i, stack + ['>'])
      else if c == '<' then
        if i > 0 && line[i - 1] == '<' then ScanStart(op, line, i - 1, stack)
        else if stack != [] && Top(stack) == '>' then
          if |stack| == 1 then At(i) else ScanStart(op, line, i, Pop(stack))
        else ScanStart(op, line, i, stack)
      else if IsOpener(c) then
        var rest := DropAngles(stack, '>');
        if rest == [] then Unclosed
        else if Closer(c) != Top(rest) then Unclosed
        else if |rest| == 1 then At(i)
        else ScanStart(op, line, i, Pop(rest))
      else if c == ';' then
        var rest := DropAngles(stack, '>');
        if rest == [] then Unclosed else ScanStart(op, line, i, rest)
      else ScanStart(op, line, i, stack)
  }

  /** endpos is -1 for an empty line. */
  method FindStartOfExpressionInLine(op: Regex, line: string, endpos: int, closeStack: string)
    returns (pos: int, newStack: Option<string>)
    requires -1 <= endpos < |line|
    ensures (pos, newStack) == AsPair(ScanStart(op, line, endpos + 1, closeStack))
  {
    var stack := closeStack;
    var i := endpos;
    while i >= 0
      invariant -1 <= i < |line|
      invariant ScanStart(op, line, endpos + 1, closeStack) == ScanStart(op, line, i + 1, stack)
    {
      var c := line[i];
      if IsCloser(c) {
        stack := stack + [c];
      } else if c == '>' {
        if i > 0 && (line[i - 1] == '-' || SpacedGreaterEqual(line, i) || op(line[..i])) {
          i := i - 1;
        } else {
          stack := stack + ['>'];
        }
      } else if c == '<' {
        if i > 0 && line[i - 1] == '<' {
          i := i - 1;
        } else {
          if stack != [] && Top(stack) == '>' {
            stack := Pop(stack);
            if stack == [] {
              return i, None;
            }
          }
        }
      } else if IsOpener(c) {
        ghost var before := stack;
        while stack != [] && Top(stack) == '>'
          invariant DropAngles(stack, '>') == DropAngles(before, '>')
          decreases |stack|
        {
          stack := Pop(stack);
        }
        if stack == [] {
          return -1, None;
        }
        if Closer(c) == Top(stack) {
          stack := Pop(stack);
          if stack == [] {
            return i, None;
          }
        } else {
          return -1, None;
        }
      } else if c == ';' {
        ghost var before := stack;
        while stack != [] && Top(stack) == '>'
          invariant DropAngles(stack, '>') == DropAngles(before, '>')
          decreases |stack|
        {
          stack := Pop(stack);
        }
        if stack == [] {
          return -1, None;
        }
      }
      i := i - 1;
    }
    return -1, Some(stack);
  }

  // ---------------------------------------------------------------- the heuristics do not matter

  /** The stack without the tentative `<` and `>`. */
  function Bare(stack: string): string {
    if stack == [] then []
    else if Top(stack) == '<' || Top(stack) == '>' then Bare(Pop(stack))
    else Bare(Pop(stack)) + [Top(stack)]
  }

  lemma BarePush(stack: string, c: char)
    ensures Bare(stack + [c]) == if c == '<' || c == '>' then Bare(stack) else Bare(stack) + [c]
  {
    assert Pop(stack + [c]) == stack;
  }

  /** The scan started at a bracket: that bracket stays at the bottom of the stack. */
  ghost predicate OnOpener(stack: string) {
    stack != [] && IsOpener(stack[0]) && forall k :: 0 <= k < |stack| ==> IsOpener(stack[k]) || stack[k] == '<'
  }

  ghost predicate OnCloser(stack: string) {
    stack != [] && IsCloser(stack[0]) && forall k :: 0 <= k < |stack| ==> IsCloser(stack[k]) || stack[k] == '>'
  }

  lemma {:induction false} BareIsNotEmpty(stack: string)
    requires stack != [] && stack[0] != '<' && stack[0] != '>'
    ensures Bare(stack) != [] && |Bare(stack)| <= |stack|
    decreases |stack|
  {
    if |stack| > 1 {
      BareIsNotEmpty(Pop(stack));
    }
  }

  lemma {:induction false} DropAnglesKeepsBrackets(stack: string, angle: char)
    requires stack != [] && stack[0] != '<' && stack[0] != '>' && (angle == '<' || angle == '>')
    ensures var rest := DropAngles(stack, angle);
      rest != [] && rest[0] == stack[0] && Bare(rest) == Bare(stack)
    decreases |stack|
  {
    if Top(stack) == angle {
      DropAnglesKeepsBrackets(Pop(stack), angle);
    }
  }

  lemma {:induction false} BarePop(rest: string)
    requires rest != [] && rest[0] != '<' && rest[0] != '>' && Top(rest) != '<' && Top(rest) != '>'
    ensures Bare(rest) != [] && Top(Bare(rest)) == Top(rest) && Pop(Bare(rest)) == Bare(Pop(rest))
    ensures |Bare(rest)| == 1 <==> |rest| == 1
  {
    if |rest| > 1 {
      BareIsNotEmpty(Pop(rest));
    }
  }

  /** What the line scanner reports is what the plain matcher reports, angle brackets aside. */
  ghost predicate ForwardReports(m: LineResult, plain: Outcome, length: nat) {
    match m
    case At(pos) => 0 < pos <= length && plain == Found(pos - 1)
    case Unclosed => plain == Mismatch
    case Open(rest) => OnOpener(rest) && plain == Pending(Bare(rest))
  }

  /** The scan agrees with the plain matcher, which knows nothing of `<` and `>`. */
  ghost predicate AgreesForward(op: Regex, line: string, i: nat, stack: string)
    requires i <= |line|
  {
    ForwardReports(ScanEnd(op, line, i, stack), Forward(line, i, Bare(stack)), |line|)
  }

  /** Pushing, popping above the bottom and dropping angles keep the bottom bracket. */
  lemma {:induction false} StaysOnOpener(stack: string, c: char)
    requires OnOpener(stack)
    ensures IsOpener(c) || c == '<' ==> OnOpener(stack + [c])
    ensures |stack| > 1 ==> OnOpener(Pop(stack))
    ensures OnOpener(DropAngles(stack, '<')) && IsOpener(Top(DropAngles(stack, '<')))
    ensures Bare(DropAngles(stack, '<')) == Bare(stack)
  {
    DropAnglesKeepsBrackets(stack, '<');
  }

  /** Forward: from a bracket, the scanner returns what the plain matcher returns. */
  lemma {:induction false} ScanEndIsForward(op: Regex, line: string, i: nat, stack: string)
    requires i <= |line| && OnOpener(stack)
    ensures AgreesForward(op, line, i, stack)
    decreases |line| - i, 1
  {
    if i < |line| {
      var c := line[i];
      if IsOpener(c) {
        ScanEndAtOpener(op, line, i, stack);
      } else if c == '<' {
        ScanEndAtLess(op, line, i, stack);
      } else if c == '>' {
        ScanEndAtGreater(op, line, i, stack);
      } else if IsCloser(c) {
        ScanEndAtCloser(op, line, i, stack);
      } else if c == ';' {
        StaysOnOpener(stack, c);
        ScanEndIsForward(op, line, i + 1, DropAngles(stack, '<'));
      } else {
        ScanEndIsForward(op, line, i + 1, stack);
      }
    }
  }

  lemma {:induction false} ScanEndAtOpener(op: Regex, line: string, i: nat, stack: string)
    requires i < |line| && OnOpener(stack) && IsOpener(line[i])
    ensures AgreesForward(op, line, i, stack)
    decreases |line| - i, 0
  {
    StaysOnOpener(stack, line[i]);
    BarePush(stack, line[i]);
    ScanEndIsForward(op, line, i + 1, stack + [line[i]]);
  }

  lemma {:induction false} ScanEndAtCloser(op: Regex, line: string, i: nat, stack: string)
    requires i < |line| && OnOpener(stack) && IsCloser(line[i])
    ensures AgreesForward(op, line, i, stack)
    decreases |line| - i, 0
  {
    var rest := DropAngles(stack, '<');
    StaysOnOpener(stack, line[i]);
    BarePop(rest);
    if Closer(Top(rest)) == line[i] && |rest| > 1 {
      StaysOnOpener(rest, line[i]);
      ScanEndIsForward(op, line, i + 1, Pop(rest));
    }
  }

  lemma {:induction false} ScanEndAtLess(op: Regex, line: string, i: nat, stack: string)
    requires i < |line| && OnOpener(stack) && line[i] == '<'
    ensures AgreesForward(op, line, i, stack)
    decreases |line| - i, 0
  {
    StaysOnOpener(stack, '<');
    BarePush(stack, '<');
    if i > 0 && line[i - 1] == '<' {
      ScanEndIsForward(op, line, i + 1, if Top(stack) == '<' then Pop(stack) else stack);
    } else {
      ScanEndIsForward(op, line, i + 1, stack);
      ScanEndIsForward(op, line, i + 1, stack + ['<']);
    }
  }

  lemma {:induction false} ScanEndAtGreater(op: Regex, line: string, i: nat, stack: string)
    requires i < |line| && OnOpener(stack) && line[i] == '>'
    ensures AgreesForward(op, line, i, stack)
    decreases |line| - i, 0
  {
    StaysOnOpener(stack, '<');
    ScanEndIsForward(op, line, i + 1, stack);
    if Top(stack) == '<' {
      ScanEndIsForward(op, line, i + 1, Pop(stack));
    }
  }

  /** A character skipped together with a `>` or `<` is never a bracket. */
  lemma SkippedIsNoBracket(op: Regex, line: string, i: nat)
    requires NeverAfterBracket(op) && 0 < i < |line|
    requires line[i - 1] == '-' || line[i - 1] == '<' || SpacedGreaterEqual(line, i) || op(line[..i])
    ensures !IsOpener(line[i - 1]) && !IsCloser(line[i - 1])
  {
    assert Top(line[..i]) == line[i - 1];
  }

  ghost predicate BackwardReports(m: LineResult, plain: Outcome, length: nat) {
    match m
    case At(pos) => pos < length && plain == Found(pos)
    case Unclosed => plain == Mismatch
    case Open(rest) => OnCloser(rest) && plain == Pending(Bare(rest))
  }

  ghost predicate AgreesBackward(op: Regex, line: string, j: nat, stack: string)
    requires j <= |line|
  {
    BackwardReports(ScanStart(op, line, j, stack), Backward(line, j, Bare(stack)), |line|)
  }

  lemma {:induction false} StaysOnCloser(stack: string, c: char)
    requires OnCloser(stack)
    ensures IsCloser(c) || c == '>' ==> OnCloser(stack + [c])
    ensures |stack| > 1 ==> OnCloser(Pop(stack))
    ensures OnCloser(DropAngles(stack, '>')) && IsCloser(Top(DropAngles(stack, '>')))
    ensures Bare(DropAngles(stack, '>')) == Bare(stack)
  {
    DropAnglesKeepsBrackets(stack, '>');
  }

  /** Backward: the mirror image. */
  lemma {:induction false} ScanStartIsBackward(op: Regex, line: string, j: nat, stack: string)
    requires NeverAfterBracket(op) && j <= |line| && OnCloser(stack)
    ensures AgreesBackward(op, line, j, stack)
    decreases j, 1
  {
    if j > 0 {
      var c := line[j - 1];
      if IsCloser(c) {
        ScanStartAtCloser(op, line, j, stack);
      } else if c == '>' {
        ScanStartAtGreater(op, line, j, stack);
      } else if c == '<' {
        ScanStartAtLess(op, line, j, stack);
      } else if IsOpener(c) {
        ScanStartAtOpener(op, line, j, stack);
      } else if c == ';' {
        StaysOnCloser(stack, c);
        ScanStartIsBackward(op, line, j - 1, DropAngles(stack, '>'));
      } else {
        ScanStartIsBackward(op, line, j - 1, stack);
      }
    }
  }

  lemma {:induction false} ScanStartAtCloser(op: Regex, line: string, j: nat, stack: string)
    requires NeverAfterBracket(op) && 0 < j <= |line| && OnCloser(stack) && IsCloser(line[j - 1])
    ensures AgreesBackward(op, line, j, stack)
    decreases j, 0
  {
    StaysOnCloser(stack, line[j - 1]);
    BarePush(stack, line[j - 1]);
    ScanStartIsBackward(op, line, j - 1, stack + [line[j - 1]]);
  }

  lemma {:induction false} ScanStartAtOpener(op: Regex, line: string, j: nat, stack: string)
    requires NeverAfterBracket(op) && 0 < j <= |line| && OnCloser(stack) && IsOpener(line[j - 1])
    ensures AgreesBackward(op, line, j, stack)
    decreases j, 0
  {
    var rest := DropAngles(stack, '>');
    StaysOnCloser(stack, line[j - 1]);
    BarePop(rest);
    if Closer(line[j - 1]) == Top(rest) && |rest| > 1 {
      StaysOnCloser(rest, line[j - 1]);
      ScanStartIsBackward(op, line, j - 1, Pop(rest));
    }
  }

  lemma {:induction false} ScanStartAtGreater(op: Regex, line: string, j: nat, stack: string)
    requires NeverAfterBracket(op) && 0 < j <= |line| && OnCloser(stack) && line[j - 1] == '>'
    ensures AgreesBackward(op, line, j, stack)
    decreases j, 0
  {
    var i := j - 1;
    if i > 0 && (line[i - 1] == '-' || SpacedGreaterEqual(line, i) || op(line[..i])) {
      SkippedIsNoBracket(op, line, i);
      ScanStartIsBackward(op, line, i - 1, stack);
    } else {
      StaysOnCloser(stack, '>');
      BarePush(stack, '>');
      ScanStartIsBackward(op, line, i, stack + ['>']);
    }
  }

  lemma {:induction false} ScanStartAtLess(op: Regex, line: string, j: nat, stack: string)
    requires NeverAfterBracket(op) && 0 < j <= |line| && OnCloser(stack) && line[j - 1] == '<'
    ensures AgreesBackward(op, line, j, stack)
    decreases j, 0
  {
    var i := j - 1;
    if i > 0 && line[i - 1] == '<' {
      SkippedIsNoBracket(op, line, i);
      ScanStartIsBackward(op, line, i - 1, stack);
    } else if Top(stack) == '>' {
      StaysOnCloser(stack, '>');
      ScanStartIsBackward(op, line, i, Pop(stack));
    } else {
      ScanStartIsBackward(op, line, i, stack);
    }
  }

  // ---------------------------------------------------------------- text inside brackets

  /** The closing brackets still expected, innermost last. */
  function Closers(open: string): (r: string)
    ensures |r| == |open|
    ensures forall k :: 0 <= k < |open| ==> r[k] == Closer(open[k])
  {
    seq(|open|, k requires 0 <= k < |open| => Closer(open[k]))
  }

  /** _GetTextInside after its pattern has matched up to `start`, just past an opening bracket: the text before
      the partner of that bracket, or None. */
  method GetTextInside(text: string, start: nat) returns (inside: Option<string>)
    requires 0 < start <= |text| && IsOpener(text[start - 1])
    ensures inside.Some? <==> Forward(text, start - 1, []).Found?
    ensures inside.Some? ==> start <= Forward(text, start - 1, []).pos < |text|
    ensures inside.Some? ==> inside.value == text[start..Forward(text, start - 1, []).pos]
  {
    var punctuation := [Closer(text[start - 1])];
    ghost var open := [text[start - 1]];
    assert [] + open == open;
    var position := start;
    while punctuation != [] && position < |text|
      invariant start <= position <= |text|
      invariant punctuation == Closers(open) && forall k :: 0 <= k < |open| ==> IsOpener(open[k])
      invariant open != [] ==> Forward(text, start - 1, []) == Forward(text, position, open)
      invariant open == [] ==> start < position && Forward(text, start - 1, []) == Found(position - 1)
      decreases |text| - position
    {
      var c := text[position];
      if c == Top(punctuation) {
        punctuation := Pop(punctuation);
        open := Pop(open);
      } else if IsCloser(c) {
        return None;
      } else if IsOpener(c) {
        punctuation := punctuation + [Closer(c)];
        open := open + [c];
      }
      position := position + 1;
    }
    if punctuation != [] {
      return None;
    }
    return Some(text[start..position - 1]);
  }

  /** From any opening bracket of a text, the line scanner succeeds exactly when the bracket has a partner, and its
      position is just past it. */
  lemma LineScanFindsPartner(op: Regex, text: string, p: nat)
    requires p < |text| && IsOpener(text[p])
    ensures var m := ScanEnd(op, text, p, []);
      if m.At? then p + 1 < m.pos <= |text| && Forward(text, p, []) == Found(m.pos - 1) && Pair(text, p, m.pos - 1)
      else !Forward(text, p, []).Found? && NeverClosed(text, p)
  {
    var stack := [text[p]];
    assert [] + stack == stack;
    assert Bare(stack) == stack by { BarePush([], text[p]); }
    ScanEndIsForward(op, text, p + 1, stack);
    forall q: nat ensures Pair(text, p, q) <==> Forward(text, p, []) == Found(q) {
      ForwardFindsPair(text, p, q);
    }
  }

  /** On any text and opening bracket, the text scanner and the line scanner fail together or succeed together, and
      then the extracted text ends just before the closing bracket that the line scanner reports. */
  method TextScanAgreesWithLineScan(op: Regex, text: string, p: nat) returns (pos: int, inside: Option<string>)
    requires p < |text| && IsOpener(text[p])
    ensures pos == AsPair(ScanEnd(op, text, p, [])).0
    ensures inside.Some? <==> pos > -1
    ensures pos > -1 ==> p + 1 < pos <= |text| && inside.value == text[p + 1..pos - 1] && Pair(text, p, pos - 1)
    ensures pos == -1 ==> NeverClosed(text, p)
  {
    LineScanFindsPartner(op, text, p);
    var newStack;
    pos, newStack := FindEndOfExpressionInLine(op, text, p, []);
    inside := GetTextInside(text, p + 1);
  }
}
