/** The brace-nesting machine of cpplint.py (NestingState, lines 2284-2622) on values: each line arrives already
    classified, and `Update` says what it does to the stack of open blocks and to the preprocessor stack. */
module NestingModel {
  import opened Wrappers

  datatype Kind =
    | PlainBlock
    | ExternC
    | Namespace(name: string)
    | Class(className: string, isStruct: bool, indent: int, lastLine: int)

  datatype Asm = NoAsm | InsideAsm | EndAsm | BlockAsm

  datatype BlockView = BlockView(kind: Kind, startingLine: nat, seenOpenBrace: bool, openParentheses: int,
                                 inlineAsm: Asm, access: string, isDerived: bool)

  datatype Directive = NoDirective | If | Else | Endif

  datatype BraceForm = PlainBrace | ExternBrace | AsmBrace

  datatype Token = OpenBrace(form: BraceForm) | Semicolon | CloseParen | CloseBrace

  /** What the regular expressions of Update find on a line. `classHead` is absent when the class turns out to be
      a template argument. */
  datatype Line = Line(number: nat, directive: Directive, depthChange: int, matchesAsm: bool,
                       namespaces: seq<(string, bool)>, classHead: Option<Kind>, bareColon: bool,
                       access: Option<string>, tokens: seq<Token>)

  type Stack = seq<BlockView>

  // ---------------------------------------------------------------- one line, without preprocessor directives

  function NewBlock(kind: Kind, line: nat, seenOpenBrace: bool): BlockView {
    BlockView(kind, line, seenOpenBrace, 0, NoAsm,
              if kind.Class? then (if kind.isStruct then "public" else "private") else "", false)
  }

  function Top(stack: Stack): BlockView
    requires stack != []
  {
    stack[|stack| - 1]
  }

  function WithTop(stack: Stack, b: BlockView): Stack
    requires stack != []
  {
    stack[|stack| - 1 := b]
  }

  predicate SeenOpenBrace(stack: Stack) {
    stack == [] || Top(stack).seenOpenBrace
  }

  /** Counting parentheses and tracking inline assembly in the innermost block. */
  function CountedParentheses(b: BlockView, line: Line): BlockView {
    var open := b.openParentheses + line.depthChange;
    var asm :=
      if b.inlineAsm == NoAsm || b.inlineAsm == EndAsm then
        if line.depthChange != 0 && open == 1 && line.matchesAsm then InsideAsm else NoAsm
      else if b.inlineAsm == InsideAsm && open == 0 then EndAsm
      else b.inlineAsm;
    b.(openParentheses := open, inlineAsm := asm)
  }

  function AfterParentheses(stack: Stack, line: Line): Stack {
    if stack == [] then stack else WithTop(stack, CountedParentheses(Top(stack), line))
  }

  function AfterNamespaces(stack: Stack, line: Line, k: nat): Stack
    requires k <= |line.namespaces|
    decreases |line.namespaces| - k
  {
    if k == |line.namespaces| then stack
    else
      var (name, hasBrace) := line.namespaces[k];
      AfterNamespaces(stack + [NewBlock(Namespace(name), line.number, hasBrace)], line, k + 1)
  }

  function AfterClass(stack: Stack, line: Line): Stack {
    if line.classHead.Some? && (stack == [] || Top(stack).openParentheses == 0)
    then stack + [NewBlock(line.classHead.value, line.number, false)]
    else stack
  }

  /** CheckBegin: a bare colon before the opening brace of a class marks it as derived. */
  function AfterCheckBegin(stack: Stack, line: Line): Stack {
    if !SeenOpenBrace(stack) && Top(stack).kind.Class? && line.bareColon
    then WithTop(stack, Top(stack).(isDerived := true))
    else stack
  }

  function AfterAccess(stack: Stack, line: Line): Stack {
    if stack != [] && Top(stack).kind.Class? && line.access.Some?
    then WithTop(stack, Top(stack).(access := line.access.value))
    else stack
  }

  function AfterToken(stack: Stack, number: nat, token: Token): Stack {
    match token
    case OpenBrace(form) =>
      if !SeenOpenBrace(stack) then WithTop(stack, Top(stack).(seenOpenBrace := true))
      else if form == ExternBrace then stack + [NewBlock(ExternC, number, true)]
      else stack + [NewBlock(PlainBlock, number, true).(inlineAsm := if form == AsmBrace then BlockAsm else NoAsm)]
    case CloseBrace => if stack != [] then stack[..|stack| - 1] else stack
    case _ => if !SeenOpenBrace(stack) then stack[..|stack| - 1] else stack
  }

  function AfterTokens(stack: Stack, line: Line, k: nat): Stack
    requires k <= |line.tokens|
    decreases |line.tokens| - k
  {
    if k == |line.tokens| then stack else AfterTokens(AfterToken(stack, line.number, line.tokens[k]), line, k + 1)
  }

  function AfterHeads(stack: Stack, line: Line): Stack {
    AfterAccess(AfterCheckBegin(AfterClass(AfterNamespaces(AfterParentheses(stack, line), line, 0), line), line), line)
  }

  function AfterLine(stack: Stack, line: Line): Stack {
    AfterTokens(AfterHeads(stack, line), line, 0)
  }

  /** A file without preprocessor directives. */
  function PlainRun(stack: Stack, lines: seq<Line>): Stack
    decreases |lines|
  {
    if lines == [] then stack else PlainRun(AfterLine(stack, lines[0]), lines[1..])
  }

  // ---------------------------------------------------------------- braces

  function NextDepth(n: nat, token: Token): nat {
    match token
    case OpenBrace(_) => n + 1
    case CloseBrace => if n > 0 then n - 1 else 0
    case _ => n
  }

  /** The brace depth after the tokens from k on, starting at depth n. */
  function DepthFrom(n: nat, tokens: seq<Token>, k: nat): nat
    requires k <= |tokens|
    decreases |tokens| - k
  {
    if k == |tokens| then n else DepthFrom(NextDepth(n, tokens[k]), tokens, k + 1)
  }

  /** The smallest depth reached on the way. */
  function LowestFrom(n: nat, tokens: seq<Token>, k: nat): (low: nat)
    requires k <= |tokens|
    ensures low <= n && low <= DepthFrom(n, tokens, k)
    decreases |tokens| - k
  {
    if k == |tokens| then n
    else
      var low := LowestFrom(NextDepth(n, tokens[k]), tokens, k + 1);
      if low < n then low else n
  }

  ghost predicate AllOpened(stack: Stack) {
    forall i :: 0 <= i < |stack| ==> stack[i].seenOpenBrace
  }

  /** A block opened by the tokens of this line. */
  ghost predicate OpenedOn(b: BlockView, number: nat) {
    b.startingLine == number && (b.kind == PlainBlock || b.kind == ExternC)
  }

  lemma TokenFollowsBraces(stack: Stack, number: nat, token: Token)
    requires AllOpened(stack)
    ensures var next := AfterToken(stack, number, token);
      && AllOpened(next) && |next| == NextDepth(|stack|, token)
      && (forall i :: 0 <= i < |stack| && i < |next| ==> next[i] == stack[i])
      && forall i :: |stack| <= i < |next| ==> OpenedOn(next[i], number)
  {
  }

  lemma KeptBlocks(stack: Stack, next: Stack, r: Stack, low: nat, lowest: nat, number: nat)
    requires low <= |next| && low <= |r| && lowest == if low < |stack| then low else |stack|
    requires r[..low] == next[..low]
    requires forall i :: 0 <= i < |stack| && i < |next| ==> next[i] == stack[i]
    requires forall i :: |stack| <= i < |next| ==> OpenedOn(next[i], number)
    requires forall i :: low <= i < |r| ==> OpenedOn(r[i], number)
    ensures r[..lowest] == stack[..lowest]
    ensures forall i :: lowest <= i < |r| ==> OpenedOn(r[i], number)
  {
    forall i | 0 <= i < low ensures r[i] == next[i] {
      assert r[i] == r[..low][i] == next[..low][i];
    }
  }

  /** With no head waiting for its brace, the stack follows the braces: its height is the brace depth, the blocks
      below the smallest depth are untouched, and those above it were opened on this line. */
  lemma {:induction false} StackFollowsBraces(stack: Stack, line: Line, k: nat)
    requires k <= |line.tokens| && AllOpened(stack)
    ensures var r, low := AfterTokens(stack, line, k), LowestFrom(|stack|, line.tokens, k);
      && AllOpened(r)
      && |r| == DepthFrom(|stack|, line.tokens, k)
      && r[..low] == stack[..low]
      && forall i :: low <= i < |r| ==> OpenedOn(r[i], line.number)
    decreases |line.tokens| - k
  {
    if k < |line.tokens| {
      var next := AfterToken(stack, line.number, line.tokens[k]);
      TokenFollowsBraces(stack, line.number, line.tokens[k]);
      StackFollowsBraces(next, line, k + 1);
      var r, low := AfterTokens(next, line, k + 1), LowestFrom(|next|, line.tokens, k + 1);
      var lowest := LowestFrom(|stack|, line.tokens, k);
      assert lowest == if low < |stack| then low else |stack|;
      KeptBlocks(stack, next, r, low, lowest, line.number);
    }
  }

  /** Braces that close what they open leave the stack as it was. */
  lemma NestedBracesRestoreStack(stack: Stack, line: Line, k: nat)
    requires k <= |line.tokens| && AllOpened(stack)
    requires LowestFrom(|stack|, line.tokens, k) == |stack| == DepthFrom(|stack|, line.tokens, k)
    ensures AfterTokens(stack, line, k) == stack
  {
    StackFollowsBraces(stack, line, k);
  }

  /** A class or namespace head disappears again: at once when a `;` or `)` shows it to be no definition, and with
      the brace that closes its body. */
  lemma {:induction false} HeadLeavesNoTrace(stack: Stack, head: BlockView, line: Line)
    requires AllOpened(stack) && !head.seenOpenBrace && line.tokens != []
    requires if line.tokens[0].OpenBrace?
             then LowestFrom(|stack| + 1, line.tokens, 1) == |stack| == DepthFrom(|stack| + 1, line.tokens, 1)
             else |line.tokens| == 1 && !line.tokens[0].CloseBrace?
    ensures AfterTokens(stack + [head], line, 0) == stack
  {
    var pending := stack + [head];
    var next := AfterToken(pending, line.number, line.tokens[0]);
    if line.tokens[0].OpenBrace? {
      StackFollowsBraces(next, line, 1);
      assert next[..|stack|] == stack;
    } else {
      assert next == stack;
    }
  }

  // ---------------------------------------------------------------- what a line does to the innermost block

  /** A line without heads, braces, semicolons or closing parentheses that count as tokens. */
  predicate NoHeadsNoTokens(line: Line) {
    line.namespaces == [] && line.classHead.None? && line.tokens == []
  }

  predicate AllWithoutHeads(lines: seq<Line>) {
    forall i :: 0 <= i < |lines| ==> NoHeadsNoTokens(lines[i])
  }

  /** The parentheses that the lines open and do not close. */
  function Balance(lines: seq<Line>): int {
    if lines == [] then 0 else Balance(lines[..|lines| - 1]) + lines[|lines| - 1].depthChange
  }

  /** The last access keyword on the lines, or the given one. */
  function LastAccess(access: string, lines: seq<Line>): string {
    if lines == [] then access
    else if lines[|lines| - 1].access.Some? then lines[|lines| - 1].access.value
    else LastAccess(access, lines[..|lines| - 1])
  }

  lemma {:induction false} PlainRunOneMore(stack: Stack, lines: seq<Line>, line: Line)
    ensures PlainRun(stack, lines + [line]) == AfterLine(PlainRun(stack, lines), line)
    decreases |lines|
  {
    if lines == [] {
      assert (lines + [line])[1..] == [];
    } else {
      assert (lines + [line])[1..] == lines[1..] + [line];
      PlainRunOneMore(AfterLine(stack, lines[0]), lines[1..], line);
    }
  }

  /** Over any number of such lines only the innermost block changes: its count of open parentheses grows by their
      balance; a class takes the last access keyword, and is marked as derived by a bare colon before its brace. */
  lemma {:induction false} InnermostBlockFollows(stack: Stack, lines: seq<Line>)
    requires stack != [] && AllWithoutHeads(lines)
    ensures var r, b := PlainRun(stack, lines), Top(stack);
      && |r| == |stack| && r[..|stack| - 1] == stack[..|stack| - 1]
      && Top(r).kind == b.kind && Top(r).startingLine == b.startingLine && Top(r).seenOpenBrace == b.seenOpenBrace
      && Top(r).openParentheses == b.openParentheses + Balance(lines)
      && Top(r).access == (if b.kind.Class? then LastAccess(b.access, lines) else b.access)
      && Top(r).isDerived == (b.isDerived || (b.kind.Class? && !b.seenOpenBrace
                                              && exists i :: 0 <= i < |lines| && lines[i].bareColon))
    decreases |lines|
  {
    if lines != [] {
      var front, line := lines[..|lines| - 1], lines[|lines| - 1];
      assert lines == front + [line];
      PlainRunOneMore(stack, front, line);
      InnermostBlockFollows(stack, front);
      var before := PlainRun(stack, front);
      OneLineWithoutHeads(before, line);
      var after := AfterLine(before, line);
      assert after[..|stack| - 1] == before[..|stack| - 1];
      assert (exists i :: 0 <= i < |lines| && lines[i].bareColon)
        <==> (exists i :: 0 <= i < |front| && front[i].bareColon) || line.bareColon;
    }
  }

  lemma OneLineWithoutHeads(stack: Stack, line: Line)
    requires stack != [] && NoHeadsNoTokens(line)
    ensures var r, b := AfterLine(stack, line), Top(stack);
      && |r| == |stack| && r[..|stack| - 1] == stack[..|stack| - 1]
      && Top(r) == b.(openParentheses := b.openParentheses + line.depthChange,
                      inlineAsm := Top(r).inlineAsm,
                      access := if b.kind.Class? && line.access.Some? then line.access.value else b.access,
                      isDerived := b.isDerived || (b.kind.Class? && !b.seenOpenBrace && line.bareColon))
  {
  }

  /** Inline assembly starts on a line that matches its keyword and leaves exactly one parenthesis open; it is over
      one line after the line on which the count is back at 0. */
  lemma AsmStartsAndEnds(stack: Stack, line: Line)
    requires stack != [] && NoHeadsNoTokens(line)
    ensures AfterLine(stack, line) != []
    ensures var before, after := Top(stack), Top(AfterLine(stack, line));
      && (after.inlineAsm == InsideAsm <==>
            || (before.inlineAsm == InsideAsm && after.openParentheses != 0)
            || ((before.inlineAsm == NoAsm || before.inlineAsm == EndAsm)
                && line.matchesAsm && line.depthChange != 0 && after.openParentheses == 1))
      && (after.inlineAsm == EndAsm <==> before.inlineAsm == InsideAsm && after.openParentheses == 0)
      && (after.inlineAsm == BlockAsm <==> before.inlineAsm == BlockAsm)
  {
  }

  /** While the parentheses of an assembly statement stay open it lasts, whatever the lines contain. */
  lemma {:induction false} AsmLastsToClosingParenthesis(stack: Stack, lines: seq<Line>)
    requires stack != [] && AllWithoutHeads(lines) && lines != [] && Top(stack).inlineAsm == InsideAsm
    requires forall k :: 0 < k < |lines| ==> Top(stack).openParentheses + Balance(lines[..k]) != 0
    ensures var r := PlainRun(stack, lines);
      && r != []
      && Top(r).inlineAsm == if Top(stack).openParentheses + Balance(lines) == 0 then EndAsm else InsideAsm
    decreases |lines|
  {
    var front, line := lines[..|lines| - 1], lines[|lines| - 1];
    assert lines == front + [line];
    PlainRunOneMore(stack, front, line);
    InnermostBlockFollows(stack, front);
    InnermostBlockFollows(stack, lines);
    if front != [] {
      forall k | 0 < k < |front| ensures Top(stack).openParentheses + Balance(front[..k]) != 0 {
        assert front[..k] == lines[..k];
      }
      AsmLastsToClosingParenthesis(stack, front);
      assert lines[..|front|] == front;
    }
    AsmStartsAndEnds(PlainRun(stack, front), line);
  }

  /** One block for each namespace head of the line, complete if its brace is there. */
  ghost function NamespaceBlocks(line: Line): (blocks: Stack)
    ensures |blocks| == |line.namespaces|
    ensures forall i :: 0 <= i < |blocks| ==>
              var (name, hasBrace) := line.namespaces[i];
              blocks[i] == BlockView(Namespace(name), line.number, hasBrace, 0, NoAsm, "", false)
  {
    seq(|line.namespaces|, i requires 0 <= i < |line.namespaces| =>
      BlockView(Namespace(line.namespaces[i].0), line.number, line.namespaces[i].1, 0, NoAsm, "", false))
  }

  lemma {:induction false} NamespacesArePushed(stack: Stack, line: Line, k: nat)
    requires k <= |line.namespaces|
    ensures AfterNamespaces(stack, line, k) == stack + NamespaceBlocks(line)[k..]
    decreases |line.namespaces| - k
  {
    if k < |line.namespaces| {
      var (name, hasBrace) := line.namespaces[k];
      var block := NewBlock(Namespace(name), line.number, hasBrace);
      NamespacesArePushed(stack + [block], line, k + 1);
      assert block == NamespaceBlocks(line)[k];
      assert stack + [block] + NamespaceBlocks(line)[k + 1..] == stack + NamespaceBlocks(line)[k..];
    }
  }

  /** The innermost block with the parentheses of the line counted. */
  ghost predicate OnlyTopCounted(stack: Stack, counted: Stack, line: Line) {
    && |counted| == |stack|
    && (stack != [] ==>
          && counted[..|stack| - 1] == stack[..|stack| - 1]
          && Top(counted) == Top(stack).(openParentheses := Top(stack).openParentheses + line.depthChange,
                                         inlineAsm := Top(counted).inlineAsm))
  }

  /** The heads on a line become blocks, namespaces in order and then the class. A class head counts unless the block it
      would be in has open parentheses; a struct starts out public and a class private, unless the line has an access
      keyword. */
  lemma HeadsBecomeBlocks(stack: Stack, line: Line) returns (counted: Stack)
    requires line.tokens == [] && (line.classHead.Some? ==> line.classHead.value.Class?)
    requires line.namespaces != [] || line.classHead.Some?
    requires line.namespaces == [] ==> stack == [] || Top(stack).openParentheses + line.depthChange == 0
    ensures OnlyTopCounted(stack, counted, line)
    ensures AfterLine(stack, line) == counted + NamespaceBlocks(line)
      + if line.classHead.None? then []
        else [BlockView(line.classHead.value, line.number, false, 0, NoAsm,
                        if line.access.Some? then line.access.value
                        else if line.classHead.value.isStruct then "public" else "private", line.bareColon)]
  {
    counted := AfterParentheses(stack, line);
    var named := counted + NamespaceBlocks(line);
    NamespacesArePushed(counted, line, 0);
    assert AfterNamespaces(counted, line, 0) == named;
    assert line.namespaces != [] ==> Top(named) == NamespaceBlocks(line)[|line.namespaces| - 1];
    assert line.namespaces == [] ==> named == counted;
    assert AfterLine(stack, line) == AfterAccess(AfterCheckBegin(AfterClass(named, line), line), line);
  }

  /** A class head inside open parentheses is an argument and opens no block. */
  lemma NoClassInParentheses(stack: Stack, line: Line)
    requires line.tokens == [] && line.namespaces == [] && stack != []
    requires Top(stack).openParentheses + line.depthChange != 0
    ensures AfterLine(stack, line) == AfterLine(stack, line.(classHead := None))
  {
  }

  /** The tokens of a line are consumed after everything else it holds. */
  lemma TokensComeLast(stack: Stack, line: Line)
    ensures AfterLine(stack, line) == AfterTokens(AfterLine(stack, line.(tokens := [])), line, 0)
  {
    HeadsIgnoreTokens(stack, line, line.(tokens := []));
  }

  lemma HeadsIgnoreTokens(stack: Stack, a: Line, b: Line)
    requires b == a.(tokens := [])
    ensures AfterHeads(stack, a) == AfterHeads(stack, b)
  {
    assert AfterParentheses(stack, a) == AfterParentheses(stack, b);
    SameNamespaces(AfterParentheses(stack, a), a, b, 0);
  }

  lemma {:induction false} SameNamespaces(stack: Stack, a: Line, b: Line, k: nat)
    requires a.namespaces == b.namespaces && a.number == b.number && k <= |a.namespaces|
    ensures AfterNamespaces(stack, a, k) == AfterNamespaces(stack, b, k)
    decreases |a.namespaces| - k
  {
    if k < |a.namespaces| {
      var (name, hasBrace) := a.namespaces[k];
      SameNamespaces(stack + [NewBlock(Namespace(name), a.number, hasBrace)], a, b, k + 1);
    }
  }

  /** A closing brace ends the innermost block, complete or not; a semicolon or closing parenthesis only a head. */
  lemma TokenEndsBlock(stack: Stack, line: Line)
    requires |line.tokens| == 1 && !line.tokens[0].OpenBrace?
    ensures AfterTokens(stack, line, 0)
         == if stack != [] && (line.tokens[0].CloseBrace? || !Top(stack).seenOpenBrace)
            then stack[..|stack| - 1] else stack
  {
    assert AfterTokens(stack, line, 0) == AfterToken(stack, line.number, line.tokens[0]);
  }

  /** An opening brace completes the innermost head, or opens a block of the kind its form says. */
  lemma BraceOpensBlock(stack: Stack, line: Line, form: BraceForm)
    requires line.tokens == [OpenBrace(form)]
    ensures var r := AfterTokens(stack, line, 0);
      if stack != [] && !Top(stack).seenOpenBrace then
        |r| == |stack| && r[..|stack| - 1] == stack[..|stack| - 1] && Top(r) == Top(stack).(seenOpenBrace := true)
      else
        r == stack + [match form
                      case ExternBrace => BlockView(ExternC, line.number, true, 0, NoAsm, "", false)
                      case AsmBrace => BlockView(PlainBlock, line.number, true, 0, BlockAsm, "", false)
                      case PlainBrace => BlockView(PlainBlock, line.number, true, 0, NoAsm, "", false)]
  {
    assert AfterTokens(stack, line, 0) == AfterToken(stack, line.number, OpenBrace(form));
  }

  // ---------------------------------------------------------------- preprocessor directives

  datatype PpView = PpView(beforeIf: Stack, beforeElse: Stack, seenElse: bool)

  datatype NestingView = NestingView(stack: Stack, pp: seq<PpView>)

  function AfterDirective(v: NestingView, d: Directive): NestingView {
    match d
    case NoDirective => v
    case If => v.(pp := v.pp + [PpView(v.stack, [], false)])
    case Else =>
      if v.pp == [] then v
      else
        var top := v.pp[|v.pp| - 1];
        var marked := if top.seenElse then top else PpView(top.beforeIf, v.stack, true);
        NestingView(top.beforeIf, v.pp[|v.pp| - 1 := marked])
    case Endif =>
      if v.pp == [] then v
      else
        var top := v.pp[|v.pp| - 1];
        NestingView(if top.seenElse then top.beforeElse else v.stack, v.pp[..|v.pp| - 1])
  }

  function Update(v: NestingView, line: Line): NestingView {
    var w := AfterDirective(v, line.directive);
    w.(stack := AfterLine(w.stack, line))
  }

  function Run(v: NestingView, lines: seq<Line>): NestingView
    decreases |lines|
  {
    if lines == [] then v else Run(Update(v, lines[0]), lines[1..])
  }

  // ---------------------------------------------------------------- which lines count

  /** For every open #if: has its first branch ended? A line counts when no such flag is set after its directive. */
  function NextFlags(flags: seq<bool>, d: Directive): seq<bool> {
    match d
    case NoDirective => flags
    case If => flags + [false]
    case Else => if flags == [] then flags else flags[|flags| - 1 := true]
    case Endif => if flags == [] then flags else flags[..|flags| - 1]
  }

  function RunFlags(flags: seq<bool>, lines: seq<Line>): seq<bool>
    decreases |lines|
  {
    if lines == [] then flags else RunFlags(NextFlags(flags, lines[0].directive), lines[1..])
  }

  /** The lines outside every #else and #elif branch. */
  function Survivors(flags: seq<bool>, lines: seq<Line>): seq<Line>
    decreases |lines|
  {
    if lines == [] then []
    else
      var next := NextFlags(flags, lines[0].directive);
      (if true in next then [] else [lines[0]]) + Survivors(next, lines[1..])
  }

  function Flags(pp: seq<PpView>): (flags: seq<bool>)
    ensures |flags| == |pp|
    ensures forall k :: 0 <= k < |pp| ==> flags[k] == pp[k].seenElse
  {
    seq(|pp|, k requires 0 <= k < |pp| => pp[k].seenElse)
  }

  /** The stack that counts: the live one, or inside a discarded branch the one saved at the outermost #else. */
  function Effective(v: NestingView): Stack
    decreases |v.pp|
  {
    if v.pp == [] then v.stack
    else
      var top := v.pp[|v.pp| - 1];
      Effective(NestingView(if top.seenElse then top.beforeElse else v.stack, v.pp[..|v.pp| - 1]))
  }

  lemma {:induction false} EffectiveWhenLive(v: NestingView)
    requires true !in Flags(v.pp)
    ensures Effective(v) == v.stack
    decreases |v.pp|
  {
    if v.pp != [] {
      assert !Flags(v.pp)[|v.pp| - 1];
      var front := v.pp[..|v.pp| - 1];
      assert Flags(front) == Flags(v.pp)[..|front|];
      EffectiveWhenLive(NestingView(v.stack, front));
    }
  }

  /** In a discarded branch the live stack does not count. */
  lemma {:induction false} EffectiveWhenDead(v: NestingView, other: Stack)
    requires true in Flags(v.pp)
    ensures Effective(v) == Effective(NestingView(other, v.pp))
    decreases |v.pp|
  {
    var last := |v.pp| - 1;
    var front := v.pp[..last];
    if !v.pp[last].seenElse {
      var k :| 0 <= k < |v.pp| && Flags(v.pp)[k];
      assert Flags(front)[k];
      EffectiveWhenDead(NestingView(v.stack, front), other);
    }
  }

  /** A directive never changes the stack that counts. */
  lemma {:induction false} DirectiveKeepsEffective(v: NestingView, d: Directive)
    ensures Flags(AfterDirective(v, d).pp) == NextFlags(Flags(v.pp), d)
    ensures Effective(AfterDirective(v, d)) == Effective(v)
  {
    var w := AfterDirective(v, d);
    match d
    case NoDirective =>
    case If =>
      assert w.pp[..|w.pp| - 1] == v.pp;
    case Else =>
      if v.pp != [] {
        assert w.pp[..|w.pp| - 1] == v.pp[..|v.pp| - 1];
      }
    case Endif =>
  }

  lemma UpdateIsPlainOrNothing(v: NestingView, line: Line)
    ensures Flags(Update(v, line).pp) == NextFlags(Flags(v.pp), line.directive)
    ensures Effective(Update(v, line))
         == if true in Flags(Update(v, line).pp) then Effective(v) else AfterLine(Effective(v), line)
  {
    var w := AfterDirective(v, line.directive);
    DirectiveKeepsEffective(v, line.directive);
    if true in Flags(w.pp) {
      EffectiveWhenDead(w, AfterLine(w.stack, line));
    } else {
      EffectiveWhenLive(w);
      EffectiveWhenLive(Update(v, line));
    }
  }

  /** Which lines count depends on the directives alone. */
  lemma {:induction false} FlagsFollowDirectives(v: NestingView, lines: seq<Line>)
    ensures Flags(Run(v, lines).pp) == RunFlags(Flags(v.pp), lines)
    decreases |lines|
  {
    if lines != [] {
      DirectiveKeepsEffective(v, lines[0].directive);
      FlagsFollowDirectives(Update(v, lines[0]), lines[1..]);
    }
  }

  // ---------------------------------------------------------------- main results

  /** Non-interference, for every sequence of lines, well nested or not: the stack that counts is the stack of the
      file with all discarded branches deleted. */
  lemma {:induction false} DiscardedBranchesDoNotCount(v: NestingView, lines: seq<Line>)
    ensures Effective(Run(v, lines)) == PlainRun(Effective(v), Survivors(Flags(v.pp), lines))
    decreases |lines|
  {
    if lines != [] {
      var w := Update(v, lines[0]);
      UpdateIsPlainOrNothing(v, lines[0]);
      DiscardedBranchesDoNotCount(w, lines[1..]);
      var survivors := Survivors(Flags(v.pp), lines);
      if true !in Flags(w.pp) {
        assert survivors[1..] == Survivors(Flags(w.pp), lines[1..]);
      } else {
        assert survivors == Survivors(Flags(w.pp), lines[1..]);
      }
    }
  }

  /** Directives are well nested: every #else and #endif has its #if among the lines, and every #if its #endif. */
  predicate WellNested(lines: seq<Line>, depth: nat)
    decreases |lines|
  {
    if lines == [] then depth == 0
    else
      match lines[0].directive
      case NoDirective => WellNested(lines[1..], depth)
      case If => WellNested(lines[1..], depth + 1)
      case Else => depth > 0 && WellNested(lines[1..], depth)
      case Endif => depth > 0 && WellNested(lines[1..], depth - 1)
  }

  lemma {:induction false} PreprocessorStackReturns(v: NestingView, lines: seq<Line>, depth: nat)
    requires WellNested(lines, depth) && depth <= |v.pp|
    ensures Run(v, lines).pp == v.pp[..|v.pp| - depth]
    decreases |lines|
  {
    if lines != [] {
      var w := Update(v, lines[0]);
      var next := match lines[0].directive case If => depth + 1 case Endif => depth - 1 case _ => depth;
      assert w.pp[..|w.pp| - next] == v.pp[..|v.pp| - depth];
      PreprocessorStackReturns(w, lines[1..], next);
    }
  }

  /** Well-nested directives: the preprocessor stack returns to its start, and outside any discarded branch the
      whole stack, block fields included, is that of the surviving lines alone. */
  lemma {:induction false} WellNestedRun(v: NestingView, lines: seq<Line>)
    requires WellNested(lines, 0) && true !in Flags(v.pp)
    ensures Run(v, lines) == NestingView(PlainRun(v.stack, Survivors(Flags(v.pp), lines)), v.pp)
  {
    PreprocessorStackReturns(v, lines, 0);
    DiscardedBranchesDoNotCount(v, lines);
    EffectiveWhenLive(v);
    EffectiveWhenLive(Run(v, lines));
  }

  /** What a discarded branch contains cannot be observed: files with the same surviving lines end alike. */
  lemma {:induction false} DiscardedTextIsInvisible(v: NestingView, a: seq<Line>, b: seq<Line>)
    requires WellNested(a, 0) && WellNested(b, 0) && true !in Flags(v.pp)
    requires Survivors(Flags(v.pp), a) == Survivors(Flags(v.pp), b)
    ensures Run(v, a) == Run(v, b)
  {
    WellNestedRun(v, a);
    WellNestedRun(v, b);
  }

  // ---------------------------------------------------------------- the live stack inside a discarded branch

  lemma {:induction false} RunConcat(v: NestingView, a: seq<Line>, b: seq<Line>)
    ensures Run(v, a + b) == Run(Run(v, a), b)
    decreases |a|
  {
    if a == [] {
      assert a + b == b;
    } else {
      assert (a + b)[1..] == a[1..] + b;
      RunConcat(Update(v, a[0]), a[1..], b);
    }
  }

  /** Lines that leave everything outside them alone: every #else and #endif among them belongs to an #if among them,
      or to one of the `depth` innermost ones open before. */
  predicate StaysWithin(lines: seq<Line>, depth: nat)
    decreases |lines|
  {
    if lines == [] then true
    else
      match lines[0].directive
      case NoDirective => StaysWithin(lines[1..], depth)
      case If => StaysWithin(lines[1..], depth + 1)
      case Else => depth > 0 && StaysWithin(lines[1..], depth)
      case Endif => depth > 0 && StaysWithin(lines[1..], depth - 1)
  }

  /** The lines between an #if and a later #else, #elif or #endif of its own; #elifs of that #if may be among them. */
  predicate WithinIf(lines: seq<Line>, depth: nat)
    decreases |lines|
  {
    if lines == [] then depth == 0
    else
      match lines[0].directive
      case NoDirective => WithinIf(lines[1..], depth)
      case If => WithinIf(lines[1..], depth + 1)
      case Else => WithinIf(lines[1..], depth)
      case Endif => depth > 0 && WithinIf(lines[1..], depth - 1)
  }

  lemma DirectiveStaysWithin(stack: Stack, outer: seq<PpView>, inner: seq<PpView>, d: Directive)
    requires (d.Else? || d.Endif?) ==> inner != []
    ensures var r := AfterDirective(NestingView(stack, inner), d);
      && AfterDirective(NestingView(stack, outer + inner), d) == NestingView(r.stack, outer + r.pp)
      && |r.pp| == match d case If => |inner| + 1 case Endif => |inner| - 1 case _ => |inner|
  {
    var all := outer + inner;
    if inner != [] {
      assert all[|all| - 1] == inner[|inner| - 1];
    }
    match d
    case NoDirective =>
    case If =>
      assert all + [PpView(stack, [], false)] == outer + (inner + [PpView(stack, [], false)]);
    case Else =>
      var top := inner[|inner| - 1];
      var marked := if top.seenElse then top else PpView(top.beforeIf, stack, true);
      assert all[|all| - 1 := marked] == outer + inner[|inner| - 1 := marked];
    case Endif =>
      assert all[..|all| - 1] == outer + inner[..|inner| - 1];
  }

  /** Such lines do to the stacks what they would do if nothing were open outside them. */
  lemma {:induction false} OutsideDoesNotMatter(stack: Stack, outer: seq<PpView>, inner: seq<PpView>, lines: seq<Line>)
    requires StaysWithin(lines, |inner|)
    ensures var r := Run(NestingView(stack, inner), lines);
      Run(NestingView(stack, outer + inner), lines) == NestingView(r.stack, outer + r.pp)
    decreases |lines|
  {
    if lines != [] {
      var v := NestingView(stack, inner);
      var next := Update(v, lines[0]);
      DirectiveStaysWithin(stack, outer, inner, lines[0].directive);
      OutsideDoesNotMatter(next.stack, outer, next.pp, lines[1..]);
    }
  }

  /** Between an #if and its #endif, what was saved at the #if stays saved. */
  lemma {:induction false} SavedAtIfStays(v: NestingView, lines: seq<Line>, n: nat, depth: nat)
    requires WithinIf(lines, depth) && |v.pp| == n + 1 + depth
    ensures var r := Run(v, lines);
      |r.pp| == n + 1 && r.pp[..n] == v.pp[..n] && r.pp[n].beforeIf == v.pp[n].beforeIf
    decreases |lines|
  {
    if lines != [] {
      var next := Update(v, lines[0]);
      var deeper := match lines[0].directive case If => depth + 1 case Endif => depth - 1 case _ => depth;
      assert next.pp[..n] == v.pp[..n] && next.pp[n].beforeIf == v.pp[n].beforeIf;
      SavedAtIfStays(next, lines[1..], n, deeper);
    }
  }

  /** The state just after an #else or #elif: what was open before its #if is open again. */
  lemma ElseRestores(v: NestingView, i: Line, body: seq<Line>, e: Line)
    requires i.directive.If? && WithinIf(body, 0) && e.directive.Else?
    ensures var r := Run(v, [i] + body + [e]);
      r.stack == AfterLine(v.stack, e) && |r.pp| == |v.pp| + 1 && r.pp[..|v.pp|] == v.pp
  {
    var inIf := Update(v, i);
    assert inIf.pp[|v.pp|] == PpView(v.stack, [], false) && inIf.pp[..|v.pp|] == v.pp;
    RunOne(v, i);
    RunConcat(v, [i], body);
    RunConcat(v, [i] + body, [e]);
    SavedAtIfStays(inIf, body, |v.pp|, 0);
    RunOne(Run(inIf, body), e);
  }

  lemma RunOne(v: NestingView, line: Line)
    ensures Run(v, [line]) == Update(v, line)
  {
    assert [line][1..] == [];
  }

  /** Anywhere in a file, the live stack inside an #else or #elif branch is the stack from before its #if, run through
      the lines of that branch alone: its earlier branches, whatever they contain, are forgotten. `rest` is the branch
      so far, which may contain whole or unfinished #ifs of its own as long as it is not in a discarded branch of
      those. */
  lemma BranchStartsFromIf(v: NestingView, i: Line, body: seq<Line>, e: Line, rest: seq<Line>)
    requires i.directive.If? && WithinIf(body, 0) && e.directive.Else?
    requires StaysWithin(rest, 0) && true !in RunFlags([], rest)
    ensures Run(v, [i] + body + [e] + rest).stack == PlainRun(v.stack, [e] + Survivors([], rest))
  {
    var start := Run(v, [i] + body + [e]);
    var alone := NestingView(start.stack, []);
    ElseRestores(v, i, body, e);
    RunConcat(v, [i] + body + [e], rest);
    assert start.pp + [] == start.pp;
    OutsideDoesNotMatter(start.stack, start.pp, [], rest);
    DiscardedBranchesDoNotCount(alone, rest);
    FlagsFollowDirectives(alone, rest);
    assert Flags([]) == [];
    EffectiveWhenLive(alone);
    EffectiveWhenLive(Run(alone, rest));
    assert ([e] + Survivors([], rest))[1..] == Survivors([], rest);
  }
}
