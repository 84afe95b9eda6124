/** Properly nested `( [ {` in a text, and the two plain stack matchers that find a bracket's partner.
    This is the reference against which the scanners of cpplint.py are proved. */
module Brackets {

  predicate IsOpener(c: char) {
    c == '(' || c == '[' || c == '{'
  }

  predicate IsCloser(c: char) {
    c == ')' || c == ']' || c == '}'
  }

  function Closer(c: char): char {
    match c
    case '(' => ')'
    case '[' => ']'
    case '{' => '}'
    case _ => c
  }

  /** The three kinds of brackets. */
  ghost predicate Matching(open: char, close: char) {
    (open == '(' && close == ')') || (open == '[' && close == ']') || (open == '{' && close == '}')
  }

  /** text[i..j] is properly nested: nothing, or another character and nested text, or a bracket pair around
      nested text followed by nested text. */
  ghost predicate Nested(text: string, i: nat, j: nat)
    requires i <= j <= |text|
    decreases j - i
  {
    || i == j
    || (text[i] != '(' && text[i] != ')' && text[i] != '[' && text[i] != ']' && text[i] != '{' && text[i] != '}'
        && Nested(text, i + 1, j))
    || ((text[i] == '(' || text[i] == '[' || text[i] == '{')
        && exists k :: i < k < j && Matching(text[i], text[k]) && Nested(text, i + 1, k) && Nested(text, k + 1, j))
  }

  /** The bracket at p is closed by the one at q. */
  ghost predicate Pair(text: string, p: nat, q: nat) {
    && p < q < |text|
    && ((text[p] == '(' && text[q] == ')') || (text[p] == '[' && text[q] == ']') || (text[p] == '{' && text[q] == '}'))
    && Nested(text, p + 1, q)
  }

  ghost predicate NeverClosed(text: string, p: nat) {
    forall q :: !Pair(text, p, q)
  }

  ghost predicate NeverOpened(text: string, q: nat) {
    forall p :: !Pair(text, p, q)
  }

  lemma PairIsNested(text: string, p: nat, q: nat)
    requires p < q < |text| && Matching(text[p], text[q]) && Nested(text, p + 1, q)
    ensures Nested(text, p, q + 1)
  {
    assert Nested(text, q + 1, q + 1);
  }

  lemma {:induction false} NestedConcat(text: string, i: nat, j: nat, k: nat)
    requires i <= j <= k <= |text| && Nested(text, i, j) && Nested(text, j, k)
    ensures Nested(text, i, k)
    decreases j - i
  {
    if i < j {
      if IsOpener(text[i]) {
        var m :| i < m < j && Matching(text[i], text[m]) && Nested(text, i + 1, m) && Nested(text, m + 1, j);
        NestedConcat(text, m + 1, j, k);
      } else {
        NestedConcat(text, i + 1, j, k);
      }
    }
  }

  datatype Outcome = Found(pos: nat) | Mismatch | Pending(stack: string)

  function Pop(stack: string): string
    requires stack != []
  {
    stack[..|stack| - 1]
  }

  function Top(stack: string): char
    requires stack != []
  {
    stack[|stack| - 1]
  }

  // ---------------------------------------------------------------- left to right

  /** The plain matcher: reads text[i..] and reports where the stack of open brackets first becomes empty. */
  function Forward(text: string, i: nat, stack: string): Outcome
    requires i <= |text|
    decreases |text| - i
  {
    if i == |text| then Pending(stack)
    else if IsOpener(text[i]) then Forward(text, i + 1, stack + [text[i]])
    else if IsCloser(text[i]) then
      if stack == [] || Closer(Top(stack)) != text[i] then Mismatch
      else if |stack| == 1 then Found(i)
      else Forward(text, i + 1, Pop(stack))
    else Forward(text, i + 1, stack)
  }

  lemma {:induction false} ForwardSkipsNested(text: string, i: nat, j: nat, stack: string)
    requires i <= j <= |text| && Nested(text, i, j) && stack != []
    ensures Forward(text, i, stack) == Forward(text, j, stack)
    decreases j - i
  {
    if i < j {
      if IsOpener(text[i]) {
        var k :| i < k < j && Matching(text[i], text[k]) && Nested(text, i + 1, k) && Nested(text, k + 1, j);
        var inner := stack + [text[i]];
        ForwardSkipsNested(text, i + 1, k, inner);
        assert Pop(inner) == stack;
        ForwardSkipsNested(text, k + 1, j, stack);
      } else {
        ForwardSkipsNested(text, i + 1, j, stack);
      }
    }
  }

  /** text[i..j] closes the brackets of the stack one after the other, with nested text in between. */
  ghost predicate Unwinds(text: string, i: nat, j: nat, stack: string)
    requires i <= j <= |text|
    decreases |stack|
  {
    if stack == [] then i == j
    else exists k :: i <= k < j && text[k] == Closer(Top(stack)) && Nested(text, i, k)
           && Unwinds(text, k + 1, j, Pop(stack))
  }

  lemma {:induction false} FoundUnwinds(text: string, i: nat, stack: string, q: nat)
    requires i <= |text| && stack != [] && Forward(text, i, stack) == Found(q)
    ensures i <= q < |text| && Unwinds(text, i, q + 1, stack)
    decreases |text| - i
  {
    var c := text[i];
    if IsOpener(c) {
      var inner := stack + [c];
      FoundUnwinds(text, i + 1, inner, q);
      assert Pop(inner) == stack;
      var k :| i + 1 <= k < q + 1 && text[k] == Closer(c) && Nested(text, i + 1, k)
               && Unwinds(text, k + 1, q + 1, stack);
      var m :| k + 1 <= m < q + 1 && text[m] == Closer(Top(stack)) && Nested(text, k + 1, m)
               && Unwinds(text, m + 1, q + 1, Pop(stack));
      assert Nested(text, i, m);
    } else if IsCloser(c) {
      if |stack| > 1 {
        FoundUnwinds(text, i + 1, Pop(stack), q);
      }
      assert Nested(text, i, i) && Unwinds(text, i + 1, q + 1, Pop(stack));
    } else {
      FoundUnwinds(text, i + 1, stack, q);
      var m :| i + 1 <= m < q + 1 && text[m] == Closer(Top(stack)) && Nested(text, i + 1, m)
               && Unwinds(text, m + 1, q + 1, Pop(stack));
      assert Nested(text, i, m);
    }
  }

  /** The forward matcher finds exactly the partner. */
  lemma ForwardFindsPair(text: string, p: nat, q: nat)
    requires p < |text| && IsOpener(text[p])
    ensures Forward(text, p, []) == Found(q) <==> Pair(text, p, q)
  {
    var stack := [text[p]];
    assert [] + stack == stack;
    if Forward(text, p, []) == Found(q) {
      FoundUnwinds(text, p + 1, stack, q);
      var k :| p + 1 <= k < q + 1 && text[k] == Closer(text[p]) && Nested(text, p + 1, k)
               && Unwinds(text, k + 1, q + 1, Pop(stack));
      assert k == q;
    }
    if Pair(text, p, q) {
      ForwardSkipsNested(text, p + 1, q, stack);
    }
  }

  // ---------------------------------------------------------------- right to left

  /** The mirror image: reads text[..j] from its end. */
  function Backward(text: string, j: nat, stack: string): Outcome
    requires j <= |text|
    decreases j
  {
    if j == 0 then Pending(stack)
    else
      var c := text[j - 1];
      if IsCloser(c) then Backward(text, j - 1, stack + [c])
      else if IsOpener(c) then
        if stack == [] || Closer(c) != Top(stack) then Mismatch
        else if |stack| == 1 then Found(j - 1)
        else Backward(text, j - 1, Pop(stack))
      else Backward(text, j - 1, stack)
  }

  lemma {:induction false} BackwardSkipsNested(text: string, i: nat, j: nat, stack: string)
    requires i <= j <= |text| && Nested(text, i, j) && stack != []
    ensures Backward(text, j, stack) == Backward(text, i, stack)
    decreases j - i
  {
    if i < j {
      if IsOpener(text[i]) {
        var k :| i < k < j && Matching(text[i], text[k]) && Nested(text, i + 1, k) && Nested(text, k + 1, j);
        var inner := stack + [text[k]];
        BackwardSkipsNested(text, k + 1, j, stack);
        BackwardSkipsNested(text, i + 1, k, inner);
        assert Pop(inner) == stack;
      } else {
        BackwardSkipsNested(text, i + 1, j, stack);
      }
    }
  }

  ghost predicate UnwindsBack(text: string, i: nat, j: nat, stack: string)
    requires i <= j <= |text|
    decreases |stack|
  {
    if stack == [] then i == j
    else exists k :: i <= k < j && IsOpener(text[k]) && Closer(text[k]) == Top(stack) && Nested(text, k + 1, j)
                     && UnwindsBack(text, i, k, Pop(stack))
  }

  lemma UnwindsFrom(text: string, p: nat, m: nat, j: nat, stack: string)
    requires p <= m < j <= |text| && stack != [] && IsOpener(text[m]) && Closer(text[m]) == Top(stack)
    requires Nested(text, m + 1, j) && UnwindsBack(text, p, m, Pop(stack))
    ensures UnwindsBack(text, p, j, stack)
  {
  }

  /** Unwinding a closing bracket on top of the stack leads to its partner, and on through the stack. */
  lemma UnwindsPastPair(text: string, p: nat, j: nat, stack: string)
    requires p < j <= |text| && stack != [] && IsCloser(text[j - 1])
    requires UnwindsBack(text, p, j - 1, stack + [text[j - 1]])
    ensures UnwindsBack(text, p, j, stack)
  {
    var c := text[j - 1];
    assert Pop(stack + [c]) == stack;
    var k :| p <= k < j - 1 && IsOpener(text[k]) && Closer(text[k]) == c && Nested(text, k + 1, j - 1)
             && UnwindsBack(text, p, k, stack);
    var m :| p <= m < k && IsOpener(text[m]) && Closer(text[m]) == Top(stack) && Nested(text, m + 1, k)
             && UnwindsBack(text, p, m, Pop(stack));
    PairIsNested(text, k, j - 1);
    NestedConcat(text, m + 1, k, j);
    UnwindsFrom(text, p, m, j, stack);
  }

  lemma {:induction false} FoundUnwindsBack(text: string, j: nat, stack: string, p: nat)
    requires j <= |text| && stack != [] && Backward(text, j, stack) == Found(p)
    ensures p < j && UnwindsBack(text, p, j, stack)
    decreases j
  {
    var c := text[j - 1];
    if IsCloser(c) {
      var inner := stack + [c];
      FoundUnwindsBack(text, j - 1, inner, p);
      assert Pop(inner) == stack;
      UnwindsPastPair(text, p, j, stack);
    } else if IsOpener(c) {
      if |stack| > 1 {
        FoundUnwindsBack(text, j - 1, Pop(stack), p);
      }
      assert Nested(text, j, j) && UnwindsBack(text, p, j - 1, Pop(stack));
    } else {
      FoundUnwindsBack(text, j - 1, stack, p);
      var m :| p <= m < j - 1 && IsOpener(text[m]) && Closer(text[m]) == Top(stack) && Nested(text, m + 1, j - 1)
               && UnwindsBack(text, p, m, Pop(stack));
      assert Nested(text, j - 1, j);
      NestedConcat(text, m + 1, j - 1, j);
    }
  }

  /** The backward matcher finds exactly the partner. */
  lemma BackwardFindsPair(text: string, p: nat, q: nat)
    requires q < |text| && IsCloser(text[q])
    ensures Backward(text, q + 1, []) == Found(p) <==> Pair(text, p, q)
  {
    var stack := [text[q]];
    assert [] + stack == stack;
    if Backward(text, q + 1, []) == Found(p) {
      FoundUnwindsBack(text, q, stack, p);
      var k :| p <= k < q && IsOpener(text[k]) && Closer(text[k]) == text[q] && Nested(text, k + 1, q)
               && UnwindsBack(text, p, k, Pop(stack));
      assert k == p;
    }
    if Pair(text, p, q) {
      BackwardSkipsNested(text, p + 1, q, stack);
    }
  }

  // ---------------------------------------------------------------- lines

  /** The lines of a file, one after the other. */
  function Flat(lines: seq<string>): string {
    if lines == [] then [] else Flat(lines[..|lines| - 1]) + lines[|lines| - 1]
  }

  /** Where line l starts in the flattened text. */
  function Offset(lines: seq<string>, l: nat): nat
    requires l <= |lines|
  {
    |Flat(lines[..l])|
  }

  lemma {:induction false} LineInFlat(lines: seq<string>, l: nat)
    requires l < |lines|
    ensures Offset(lines, l + 1) == Offset(lines, l) + |lines[l]| <= |Flat(lines)|
    ensures Flat(lines)[Offset(lines, l)..Offset(lines, l + 1)] == lines[l]
    decreases |lines|
  {
    var front := lines[..|lines| - 1];
    assert lines[..l + 1][..l] == lines[..l];
    if l < |front| {
      LineInFlat(front, l);
      assert front[..l] == lines[..l] && front[..l + 1] == lines[..l + 1];
    } else {
      assert lines[..l] == front && lines[..l + 1] == lines;
    }
  }

  lemma {:induction false} OffsetsGrow(lines: seq<string>, a: nat, b: nat)
    requires a <= b <= |lines|
    ensures Offset(lines, a) <= Offset(lines, b)
    decreases b - a
  {
    if a < b {
      OffsetsGrow(lines, a, b - 1);
      LineInFlat(lines, b - 1);
    }
  }

  /** A position of the flattened text belongs to one line only. */
  lemma PositionIsUnique(lines: seq<string>, l: nat, c: nat, l': nat, c': nat)
    requires l < |lines| && c < |lines[l]| && l' < |lines| && c' < |lines[l']|
    requires Offset(lines, l) + c == Offset(lines, l') + c'
    ensures l == l' && c == c'
  {
    LineInFlat(lines, l);
    LineInFlat(lines, l');
    if l < l' {
      OffsetsGrow(lines, l + 1, l');
    } else if l' < l {
      OffsetsGrow(lines, l' + 1, l);
    }
  }

  /** Running the forward matcher on one line is running it on the flattened text for the length of that line. */
  lemma {:induction false} ForwardOnLine(text: string, o: nat, line: string, c: nat, stack: string)
    requires o + |line| <= |text| && text[o..o + |line|] == line && c <= |line|
    ensures Forward(text, o + c, stack)
         == match Forward(line, c, stack)
            case Found(q) => Found(o + q)
            case Mismatch => Mismatch
            case Pending(rest) => Forward(text, o + |line|, rest)
    decreases |line| - c
  {
    if c < |line| {
      assert text[o + c] == text[o..o + |line|][c] == line[c];
      if IsOpener(line[c]) {
        ForwardOnLine(text, o, line, c + 1, stack + [line[c]]);
      } else if IsCloser(line[c]) {
        if |stack| > 1 {
          ForwardOnLine(text, o, line, c + 1, Pop(stack));
        }
      } else {
        ForwardOnLine(text, o, line, c + 1, stack);
      }
    }
  }

  lemma {:induction false} BackwardOnLine(text: string, o: nat, line: string, c: nat, stack: string)
    requires o + |line| <= |text| && text[o..o + |line|] == line && c <= |line|
    ensures Backward(text, o + c, stack)
         == match Backward(line, c, stack)
            case Found(q) => Found(o + q)
            case Mismatch => Mismatch
            case Pending(rest) => Backward(text, o, rest)
    decreases c
  {
    if c > 0 {
      assert text[o + c - 1] == text[o..o + |line|][c - 1] == line[c - 1];
      if IsCloser(line[c - 1]) {
        BackwardOnLine(text, o, line, c - 1, stack + [line[c - 1]]);
      } else if IsOpener(line[c - 1]) {
        if |stack| > 1 {
          BackwardOnLine(text, o, line, c - 1, Pop(stack));
        }
      } else {
        BackwardOnLine(text, o, line, c - 1, stack);
      }
    }
  }
}
