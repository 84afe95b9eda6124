/** NestingState of cpplint.py with its blocks as mutable objects (lines 2083-2157, 2270-2457, 2460-2622).
    The deep copies at preprocessor directives are what keeps live and saved stacks apart. */
module NestingObjects {
  import opened Wrappers
  import opened NestingModel

  class Block {
    const kind: Kind
    const startingLine: nat
    var seenOpenBrace: bool
    var openParentheses: int
    var inlineAsm: Asm
    var access: string
    var isDerived: bool

    ghost function View(): BlockView
      reads this
    {
      BlockView(kind, startingLine, seenOpenBrace, openParentheses, inlineAsm, access, isDerived)
    }

    constructor (kind: Kind, line: nat, seenOpenBrace: bool)
      ensures View() == NewBlock(kind, line, seenOpenBrace)
    {
      this.kind := kind;
      startingLine := line;
      this.seenOpenBrace := seenOpenBrace;
      openParentheses := 0;
      inlineAsm := NoAsm;
      access := if kind.Class? then (if kind.isStruct then "public" else "private") else "";
      isDerived := false;
    }

    constructor Copy(source: Block)
      ensures View() == source.View()
    {
      kind := source.kind;
      startingLine := source.startingLine;
      seenOpenBrace := source.seenOpenBrace;
      openParentheses := source.openParentheses;
      inlineAsm := source.inlineAsm;
      access := source.access;
      isDerived := source.isDerived;
    }

    /** Counts the parentheses of a line and follows inline assembly. */
    method Count(line: Line)
      modifies this
      ensures View() == CountedParentheses(old(View()), line)
    {
      openParentheses := openParentheses + line.depthChange;
      if inlineAsm == NoAsm || inlineAsm == EndAsm {
        if line.depthChange != 0 && openParentheses == 1 && line.matchesAsm {
          inlineAsm := InsideAsm;
        } else {
          inlineAsm := NoAsm;
        }
      } else if inlineAsm == InsideAsm && openParentheses == 0 {
        inlineAsm := EndAsm;
      }
    }
  }

  /** The blocks are pairwise distinct objects from `owned` that hold the given values. */
  ghost predicate Shows(blocks: seq<Block>, views: Stack, owned: set<Block>)
    reads owned
  {
    && |blocks| == |views|
    && (forall i :: 0 <= i < |blocks| ==> blocks[i] in owned && blocks[i].View() == views[i])
    && (forall i, j :: 0 <= i < j < |blocks| ==> blocks[i] != blocks[j])
  }

  /** copy.deepcopy of a stack: new objects with the same fields. */
  method DeepCopy(blocks: seq<Block>, ghost views: Stack, ghost owned: set<Block>)
    returns (copy: seq<Block>, ghost made: set<Block>)
    requires Shows(blocks, views, owned)
    ensures Shows(copy, views, made) && fresh(made)
  {
    copy := [];
    made := {};
    for i := 0 to |blocks|
      invariant Shows(copy, views[..i], made) && fresh(made)
      invariant Shows(blocks, views, owned)
    {
      var block := new Block.Copy(blocks[i]);
      copy := copy + [block];
      made := made + {block};
    }
  }

  class PreprocessorInfo {
    var stackBeforeIf: seq<Block>
    var stackBeforeElse: seq<Block>
    var seenElse: bool
    ghost var Owned: set<Block>  // the blocks of both saved stacks

    constructor (stackBeforeIf: seq<Block>, ghost owned: set<Block>)
      ensures this.stackBeforeIf == stackBeforeIf && stackBeforeElse == [] && !seenElse && Owned == owned
    {
      this.stackBeforeIf := stackBeforeIf;
      stackBeforeElse := [];
      seenElse := false;
      Owned := owned;
    }

    /** Remembers the stack before the first #else. */
    method RememberElse(copy: seq<Block>, ghost views: Stack, ghost made: set<Block>, ghost view: PpView)
      requires Keeps(view) && Shows(copy, views, made) && made !! Owned
      modifies this
      ensures Keeps(PpView(view.beforeIf, views, true)) && Owned == old(Owned) + made
    {
      seenElse := true;
      stackBeforeElse := copy;
      Owned := Owned + made;
    }

    /** The two saved stacks hold these values and have no block in common. */
    ghost predicate Keeps(view: PpView)
      reads this, Owned
    {
      && seenElse == view.seenElse
      && Shows(stackBeforeIf, view.beforeIf, Owned)
      && Shows(stackBeforeElse, view.beforeElse, Owned)
      && (forall i, j :: 0 <= i < |stackBeforeIf| && 0 <= j < |stackBeforeElse| ==>
            stackBeforeIf[i] != stackBeforeElse[j])
    }
  }

  /** Any #else: the first one saves the stack, every one goes back to the stack before the #if. */
  lemma ElseInTwoSteps(v: NestingView, w: NestingView)
    requires v.pp != []
    requires var top := v.pp[|v.pp| - 1];
      w == if top.seenElse then v else NestingView(v.stack, v.pp[|v.pp| - 1 := PpView(top.beforeIf, v.stack, true)])
    ensures w.pp != [] && AfterDirective(v, Else) == w.(stack := w.pp[|w.pp| - 1].beforeIf)
  {
  }

  class NestingState {
    var stack: seq<Block>
    var previousStackTop: Block?
    var ppStack: seq<PreprocessorInfo>
    ghost var View: NestingView  // the fields of all blocks, live and saved
    ghost var Live: set<Block>   // the blocks of the live stack
    ghost var Repr: set<object>

    /** No block is shared between the live stack and a saved one, or between the stacks saved at different #ifs;
        `Keeps` says the same of the two stacks saved at one #if. */
    ghost predicate NothingShared()
      reads this, ppStack
    {
      && (forall i, j :: 0 <= i < j < |ppStack| ==> ppStack[i] != ppStack[j])
      && (forall k :: 0 <= k < |ppStack| ==> ppStack[k].Owned !! Live)
      && (forall i, j :: 0 <= i < j < |ppStack| ==> ppStack[i].Owned !! ppStack[j].Owned)
    }

    ghost predicate Valid()
      reads this, Repr
    {
      && this in Repr && Live <= Repr
      && (forall k :: 0 <= k < |ppStack| ==> ppStack[k] in Repr && ppStack[k].Owned <= Repr)
      && NothingShared()
      && Shows(stack, View.stack, Live)
      && |ppStack| == |View.pp|
      && (forall k :: 0 <= k < |ppStack| ==> ppStack[k].Keeps(View.pp[k]))
    }

    constructor ()
      ensures Valid() && fresh(Repr) && View == NestingView([], [])
    {
      stack := [];
      previousStackTop := null;
      ppStack := [];
      View := NestingView([], []);
      Live := {};
      Repr := {this};
    }

    // -------------------------------------------------------------- directives

    method UpdatePreprocessor(directive: Directive)
      requires Valid()
      modifies Repr
      ensures Valid() && fresh(Repr - old(Repr))
      ensures View == AfterDirective(old(View), directive)
      ensures previousStackTop == old(previousStackTop)
    {
      match directive {
        case NoDirective =>
        case If => EnterIf();
        case Else =>
          if ppStack != [] {
            EnterElse();
          }
        case Endif =>
          if ppStack != [] {
            LeaveIf();
          }
      }
    }

    method EnterIf()
      requires Valid()
      modifies this
      ensures Valid() && fresh(Repr - old(Repr))
      ensures View == AfterDirective(old(View), If)
      ensures previousStackTop == old(previousStackTop)
    {
      var copy, made := DeepCopy(stack, View.stack, Live);
      var info := new PreprocessorInfo(copy, made);
      PushInfo(info, PpView(View.stack, [], false));
    }

    method PushInfo(info: PreprocessorInfo, ghost view: PpView)
      requires Valid() && info !in Repr && info.Keeps(view) && info.Owned !! Repr
      modifies this`ppStack, this`View, this`Repr
      ensures Valid() && Repr == old(Repr) + info.Owned + {info}
      ensures View == old(View).(pp := old(View).pp + [view])
    {
      ppStack := ppStack + [info];
      View := View.(pp := View.pp + [view]);
      Repr := Repr + info.Owned + {info};
    }

    method EnterElse()
      requires Valid() && ppStack != []
      modifies this, ppStack
      ensures Valid() && fresh(Repr - old(Repr))
      ensures View == AfterDirective(old(View), Else)
      ensures previousStackTop == old(previousStackTop)
    {
      ghost var before := View;
      if !ppStack[|ppStack| - 1].seenElse {
        SaveBeforeElse();
      }
      ElseInTwoSteps(before, View);
      RestoreBeforeIf();
    }

    /** The first #else: remember the whole stack up to this point. */
    method SaveBeforeElse()
      requires Valid() && ppStack != []
      modifies this, ppStack
      ensures Valid() && fresh(Repr - old(Repr))
      ensures stack == old(stack) && ppStack == old(ppStack) && previousStackTop == old(previousStackTop)
      ensures var last := |ppStack| - 1;
        View == NestingView(old(View).stack,
                            old(View).pp[last := PpView(old(View).pp[last].beforeIf, old(View).stack, true)])
    {
      var copy, made := DeepCopy(stack, View.stack, Live);
      RememberAtTop(copy, made);
    }

    method RememberAtTop(copy: seq<Block>, ghost made: set<Block>)
      requires Valid() && ppStack != [] && Shows(copy, View.stack, made) && made !! Repr
      modifies this`View, this`Repr, ppStack[|ppStack| - 1]
      ensures Valid() && Repr == old(Repr) + made
      ensures var last := |ppStack| - 1;
        View == NestingView(old(View).stack,
                            old(View).pp[last := PpView(old(View).pp[last].beforeIf, old(View).stack, true)])
    {
      var last := |ppStack| - 1;
      var top := ppStack[last];
      top.RememberElse(copy, View.stack, made, View.pp[last]);
      assert forall k :: 0 <= k < last ==> ppStack[k].Keeps(View.pp[k]);
      View := View.(pp := View.pp[last := PpView(View.pp[last].beforeIf, View.stack, true)]);
      Repr := Repr + made;
    }

    /** Any #else: go back to how the stack was before the #if. */
    method RestoreBeforeIf()
      requires Valid() && ppStack != []
      modifies this
      ensures Valid() && fresh(Repr - old(Repr))
      ensures View == old(View).(stack := old(View).pp[|old(View).pp| - 1].beforeIf)
      ensures previousStackTop == old(previousStackTop)
    {
      var top := ppStack[|ppStack| - 1];
      var copy, made := DeepCopy(top.stackBeforeIf, View.pp[|View.pp| - 1].beforeIf, top.Owned);
      Adopt(copy, made, View.pp[|View.pp| - 1].beforeIf);
    }

    /** The live stack is replaced by blocks that no saved stack holds. */
    method Adopt(copy: seq<Block>, ghost made: set<Block>, ghost views: Stack)
      requires Valid() && Shows(copy, views, made)
      requires forall k :: 0 <= k < |ppStack| ==> ppStack[k].Owned !! made
      modifies this`stack, this`Live, this`View, this`Repr
      ensures Valid() && Repr == old(Repr) + made && View == old(View).(stack := views)
    {
      stack := copy;
      Live := made;
      View := View.(stack := views);
      Repr := Repr + made;
    }

    method LeaveIf()
      requires Valid() && ppStack != []
      modifies this
      ensures Valid() && Repr == old(Repr)
      ensures View == AfterDirective(old(View), Endif)
      ensures previousStackTop == old(previousStackTop)
    {
      var top := ppStack[|ppStack| - 1];
      ghost var view := View.pp[|View.pp| - 1];
      PopInfo();
      if top.seenElse {
        Adopt(top.stackBeforeElse, top.Owned, view.beforeElse);
      }
    }

    method PopInfo()
      requires Valid() && ppStack != []
      modifies this`ppStack, this`View
      ensures Valid() && ppStack == old(ppStack)[..|old(ppStack)| - 1]
      ensures View == old(View).(pp := old(View).pp[..|old(View).pp| - 1])
    {
      ppStack := ppStack[..|ppStack| - 1];
      View := View.(pp := View.pp[..|View.pp| - 1]);
    }

    // -------------------------------------------------------------- one line

    method Update(line: Line)
      requires Valid()
      modifies Repr
      ensures Valid() && fresh(Repr - old(Repr))
      ensures View == NestingModel.Update(old(View), line)
      ensures previousStackTop == if old(stack) == [] then null else old(stack)[|old(stack)| - 1]
    {
      previousStackTop := if stack == [] then null else stack[|stack| - 1];
      UpdatePreprocessor(line.directive);
      UpdateStack(line);
    }

    /** Everything Update does after the preprocessor directive. */
    method UpdateStack(line: Line)
      requires Valid()
      modifies Repr
      ensures Valid() && fresh(Repr - old(Repr))
      ensures View == old(View).(stack := AfterLine(old(View).stack, line))
      ensures previousStackTop == old(previousStackTop)
    {
      ReadHeads(line);
      CheckClass(line);
      ConsumeTokens(line);
    }

    method ReadHeads(line: Line)
      requires Valid()
      modifies Repr
      ensures Valid() && fresh(Repr - old(Repr))
      ensures View == old(View).(
                        stack := AfterClass(AfterNamespaces(AfterParentheses(old(View).stack, line), line, 0), line))
      ensures previousStackTop == old(previousStackTop)
    {
      CountParentheses(line);
      PushNamespaces(line);
      PushClass(line);
    }

    method CheckClass(line: Line)
      requires Valid()
      modifies Repr
      ensures Valid() && Repr == old(Repr)
      ensures View == old(View).(stack := AfterAccess(AfterCheckBegin(old(View).stack, line), line))
      ensures previousStackTop == old(previousStackTop)
    {
      CheckBegin(line);
      UpdateAccess(line);
    }

    method CountParentheses(line: Line)
      requires Valid()
      modifies Live
      modifies this`View
      ensures Valid() && View == old(View).(stack := AfterParentheses(old(View).stack, line))
    {
      if stack != [] {
        var innerBlock := stack[|stack| - 1];
        innerBlock.Count(line);
        View := View.(stack := WithTop(View.stack, innerBlock.View()));
      }
    }

    method PushBlock(block: Block)
      requires Valid() && block !in Repr
      modifies this`stack, this`View, this`Live, this`Repr
      ensures Valid() && Repr == old(Repr) + {block}
      ensures View == old(View).(stack := old(View).stack + [block.View()])
    {
      stack := stack + [block];
      View := View.(stack := View.stack + [block.View()]);
      Live := Live + {block};
      Repr := Repr + {block};
    }

    method PopBlock()
      requires Valid() && stack != []
      modifies this`stack, this`View
      ensures Valid() && View == old(View).(stack := old(View).stack[..|old(View).stack| - 1])
    {
      stack := stack[..|stack| - 1];
      View := View.(stack := View.stack[..|View.stack| - 1]);
    }

    method PushNamespaces(line: Line)
      requires Valid()
      modifies this`stack, this`View, this`Live, this`Repr
      ensures Valid() && fresh(Repr - old(Repr))
      ensures View == old(View).(stack := AfterNamespaces(old(View).stack, line, 0))
    {
      for k := 0 to |line.namespaces|
        invariant Valid() && fresh(Repr - old(Repr)) && View.pp == old(View).pp
        invariant AfterNamespaces(View.stack, line, k) == AfterNamespaces(old(View).stack, line, 0)
      {
        var (name, hasBrace) := line.namespaces[k];
        PushNamespace(name, line.number, hasBrace);
      }
    }

    method PushNamespace(name: string, number: nat, hasBrace: bool)
      requires Valid()
      modifies this`stack, this`View, this`Live, this`Repr
      ensures Valid() && fresh(Repr - old(Repr))
      ensures View == old(View).(stack := old(View).stack + [NewBlock(Namespace(name), number, hasBrace)])
    {
      var block := new Block(Namespace(name), number, false);
      if hasBrace {
        block.seenOpenBrace := true;
      }
      PushBlock(block);
    }

    method PushClass(line: Line)
      requires Valid()
      modifies this`stack, this`View, this`Live, this`Repr
      ensures Valid() && fresh(Repr - old(Repr))
      ensures View == old(View).(stack := AfterClass(old(View).stack, line))
    {
      if line.classHead.Some? && (stack == [] || stack[|stack| - 1].openParentheses == 0) {
        var block := new Block(line.classHead.value, line.number, false);
        PushBlock(block);
      }
    }

    method CheckBegin(line: Line)
      requires Valid()
      modifies Live
      modifies this`View
      ensures Valid() && View == old(View).(stack := AfterCheckBegin(old(View).stack, line))
    {
      if stack != [] {
        var top := stack[|stack| - 1];
        if !top.seenOpenBrace && top.kind.Class? && line.bareColon {
          top.isDerived := true;
          View := View.(stack := WithTop(View.stack, top.View()));
        }
      }
    }

    method UpdateAccess(line: Line)
      requires Valid()
      modifies Live
      modifies this`View
      ensures Valid() && View == old(View).(stack := AfterAccess(old(View).stack, line))
    {
      if stack != [] && stack[|stack| - 1].kind.Class? {
        var classInfo := stack[|stack| - 1];
        if line.access.Some? {
          classInfo.access := line.access.value;
          View := View.(stack := WithTop(View.stack, classInfo.View()));
        }
      }
    }

    method ConsumeTokens(line: Line)
      requires Valid()
      modifies Repr
      ensures Valid() && fresh(Repr - old(Repr))
      ensures View == old(View).(stack := AfterTokens(old(View).stack, line, 0))
      ensures previousStackTop == old(previousStackTop)
    {
      for k := 0 to |line.tokens|
        invariant Valid() && fresh(Repr - old(Repr)) && View.pp == old(View).pp
        invariant previousStackTop == old(previousStackTop)
        invariant AfterTokens(View.stack, line, k) == AfterTokens(old(View).stack, line, 0)
      {
        ConsumeToken(line.number, line.tokens[k]);
      }
    }

    method ConsumeToken(number: nat, token: Token)
      requires Valid()
      modifies Repr
      ensures Valid() && fresh(Repr - old(Repr))
      ensures View == old(View).(stack := AfterToken(old(View).stack, number, token))
      ensures previousStackTop == old(previousStackTop)
    {
      var seenOpenBrace := stack == [] || stack[|stack| - 1].seenOpenBrace;
      match token {
        case OpenBrace(form) =>
          if !seenOpenBrace {
            MarkOpenBrace();
          } else if form == ExternBrace {
            PushNewBlock(ExternC, number, NoAsm);
          } else {
            PushNewBlock(PlainBlock, number, if form == AsmBrace then BlockAsm else NoAsm);
          }
        case CloseBrace =>
          if stack != [] {
            PopBlock();
          }
        case _ =>
          if !seenOpenBrace {
            PopBlock();
          }
      }
    }

    method PushNewBlock(kind: Kind, number: nat, asm: Asm)
      requires Valid()
      modifies this`stack, this`View, this`Live, this`Repr
      ensures Valid() && fresh(Repr - old(Repr))
      ensures View == old(View).(stack := old(View).stack + [NewBlock(kind, number, true).(inlineAsm := asm)])
    {
      var block := new Block(kind, number, true);
      block.inlineAsm := asm;
      PushBlock(block);
    }

    method MarkOpenBrace()
      requires Valid() && stack != []
      modifies Live
      modifies this`View
      ensures Valid()
      ensures View == old(View).(stack := WithTop(old(View).stack, Top(old(View).stack).(seenOpenBrace := true)))
    {
      var top := stack[|stack| - 1];
      top.seenOpenBrace := true;
      View := View.(stack := WithTop(View.stack, top.View()));
    }
  }
}
