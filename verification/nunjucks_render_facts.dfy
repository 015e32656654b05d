/**
 * What the Nunjucks back-end guarantees: rendering distributes over node lists and the first
 * failing node decides the error; unsupported loop statements are rejected; unless and case
 * lower to if-chains; and an expression's filters split cleanly into the infix part and the
 * pipeline part, whatever their interleaving.
 */
module NunjucksRenderFacts {
  import opened Wrappers
  import opened Js
  import opened IrConstants
  import opened Ir
  import opened NunjucksRender

  // ---------------------------------------------------------------- node lists

  /** Rendering a concatenation is the concatenation of the renderings; the first node list
      that fails decides the error. */
  lemma {:induction false} RenderNodesAppend(a: seq<IrNode>, b: seq<IrNode>, mode: Mode)
    ensures RenderNodes(a, mode).Ok? && RenderNodes(b, mode).Ok? ==>
      RenderNodes(a + b, mode) == Ok(RenderNodes(a, mode).value + RenderNodes(b, mode).value)
    ensures RenderNodes(a, mode).Err? ==> RenderNodes(a + b, mode) == RenderNodes(a, mode)
    ensures RenderNodes(a, mode).Ok? && RenderNodes(b, mode).Err? ==> RenderNodes(a + b, mode) == RenderNodes(b, mode)
  {
    if a == [] {
      assert a + b == b;
      if RenderNodes(b, mode).Ok? {
        assert "" + RenderNodes(b, mode).value == RenderNodes(b, mode).value;
      }
    } else {
      var h := RenderNode(a[0], mode);
      RenderNodesAppend(a[1..], b, mode);
      var t := RenderNodes(a[1..], mode);
      var tb := RenderNodes(a[1..] + b, mode);
      ConsSplit(a, b, mode);
      ComposeSteps(h, t, tb, RenderNodes(b, mode));
    }
  }

  /** The cons step of an append lemma over a list walk, over the results alone. */
  lemma ComposeSteps<T, E>(h: Result<seq<T>, E>, t: Result<seq<T>, E>,
                           tb: Result<seq<T>, E>, rb: Result<seq<T>, E>)
    requires t.Ok? && rb.Ok? ==> tb == Ok(t.value + rb.value)
    requires t.Err? ==> tb == t
    requires t.Ok? && rb.Err? ==> tb == rb
    ensures var ra := (var x :- h; var y :- t; Ok(x + y));
            var rab := (var x :- h; var y :- tb; Ok(x + y));
            && (ra.Ok? && rb.Ok? ==> rab == Ok(ra.value + rb.value))
            && (ra.Err? ==> rab == ra)
            && (ra.Ok? && rb.Err? ==> rab == rb)
  {
    if h.Ok? && t.Ok? && rb.Ok? {
      assert h.value + (t.value + rb.value) == (h.value + t.value) + rb.value;
    }
  }

  /** One unfolding of `RenderNodes` on both `a` and `a + b`. */
  lemma ConsSplit(a: seq<IrNode>, b: seq<IrNode>, mode: Mode)
    requires a != []
    ensures RenderNodes(a, mode) == (var h :- RenderNode(a[0], mode); var t :- RenderNodes(a[1..], mode); Ok(h + t))
    ensures RenderNodes(a + b, mode) == (var h :- RenderNode(a[0], mode); var t :- RenderNodes(a[1..] + b, mode); Ok(h + t))
  {
    var ab := a + b;
    assert ab[0] == a[0];
    assert ab[1..] == a[1..] + b;
  }

  /** A `break` or `continue` anywhere in a template that renders up to it makes the whole
      rendering throw, naming the statement. */
  lemma UnsupportedStatementsFail(a: seq<IrNode>, name: string, tagArgs: string, cs: seq<IrNode>,
                                  tl: bool, tr: bool, b: seq<IrNode>, mode: Mode)
    requires name == "break" || name == "continue"
    requires RenderNodes(a, mode).Ok?
    ensures Render(a + [Tag(name, tagArgs, cs, tl, tr)] + b, mode) == Err(Thrown(UnsupportedStatement(name)))
  {
    FailsAfter(a, Tag(name, tagArgs, cs, tl, tr), b, mode);
  }

  /** A failing node after a prefix that renders decides the whole rendering. */
  lemma FailsAfter(a: seq<IrNode>, t: IrNode, b: seq<IrNode>, mode: Mode)
    requires RenderNodes(a, mode).Ok? && RenderNode(t, mode).Err?
    ensures Render(a + [t] + b, mode) == RenderNode(t, mode)
  {
    FailingHead(t, b, mode);
    assert a + [t] + b == a + ([t] + b);
    RenderNodesAppend(a, [t] + b, mode);
    RenderIsNodes(a + [t] + b, mode);
  }

  /** `Render` is the rendering of the node list. */
  lemma RenderIsNodes(ir: seq<IrNode>, mode: Mode)
    ensures Render(ir, mode) == RenderNodes(ir, mode)
  {
  }

  lemma FailingHead(t: IrNode, b: seq<IrNode>, mode: Mode)
    requires RenderNode(t, mode).Err?
    ensures RenderNodes([t] + b, mode) == RenderNode(t, mode)
  {
    assert ([t] + b)[0] == t;
  }

  // ---------------------------------------------------------------- conditionals

  /** An unless prints as `if not` over its first branch; later branches are never printed. */
  lemma UnlessUsesFirstBranchOnly(bs: seq<Branch>, tl: bool, tr: bool, mode: Mode)
    requires bs != []
    ensures RenderNode(Conditional(UnlessVariant, bs, tl, tr), mode)
         == RenderNode(Conditional(UnlessVariant, bs[..1], tl, tr), mode)
    ensures RenderCondition(bs[0].condition, mode).Ok? && RenderNodes(bs[0].children, mode).Ok? ==>
      RenderNode(Conditional(UnlessVariant, bs, tl, tr), mode)
      == Ok(Stmt(tl, tr, "if not " + RenderCondition(bs[0].condition, mode).value)
            + RenderNodes(bs[0].children, mode).value + Stmt(tl, tr, "endif"))
  {
    assert bs[..1][0] == bs[0];
  }

  /** A conditional without branches has no subject to print and fails, except an if. */
  lemma EmptyConditionals(tl: bool, tr: bool, mode: Mode)
    ensures RenderNode(Conditional(UnlessVariant, [], tl, tr), mode).Err?
    ensures RenderNode(Conditional(CaseVariant, [], tl, tr), mode).Err?
    ensures RenderNode(Conditional(IfVariant, [], tl, tr), mode) == Ok(Stmt(tl, tr, "endif"))
  {
    assert RenderIfBranches([], 0, tl, tr, mode) == Ok("");
    assert "" + Stmt(tl, tr, "endif") == Stmt(tl, tr, "endif");
  }

  /** A plain access chain renders as itself. */
  lemma RenderPlain(e: Expr, mode: Mode)
    requires e.filters == []
    ensures RenderExpr(e, mode) == Ok(RenderPostfix(e.postfix))
  {
    assert RenderPostfix(e.postfix) + "" == RenderPostfix(e.postfix);
  }

  /** The equality test `subject == c` as an IR expression. */
  function EqExpr(subject: Expr, c: Expr): Expr {
    Expr(subject.postfix, [Generic(Name(CompareEq), Args([c]))])
  }

  lemma RenderEqExpr(subject: Expr, c: Expr, mode: Mode)
    requires subject.filters == [] && c.filters == []
    ensures RenderExpr(EqExpr(subject, c), mode)
         == Ok(RenderPostfix(subject.postfix) + " == " + RenderPostfix(c.postfix))
  {
    var g := Generic(Name(CompareEq), Args([c]));
    var S, C := RenderPostfix(subject.postfix), RenderPostfix(c.postfix);
    var acc := Acc(S, "", None);
    EqFilterStep(S, c, mode);
    assert [g][1..] == [];
    assert RenderFilters([g], acc, mode) == Ok(Acc(S + " == " + C, "", Some(3)));
    assert (S + " == " + C) + "" == S + " == " + C;
    assert EqExpr(subject, c).filters == [g];
  }

  lemma EqFilterStep(S: string, c: Expr, mode: Mode)
    requires c.filters == []
    ensures RenderFilter(Generic(Name(CompareEq), Args([c])), Acc(S, "", None), mode)
         == Ok(Acc(S + " == " + RenderPostfix(c.postfix), "", Some(3)))
  {
    var g := Generic(Name(CompareEq), Args([c]));
    var C := RenderPostfix(c.postfix);
    RenderPlain(c, mode);
    assert [c][1..] == [];
    assert [C] + [] == [C];
    assert RenderAll([c], mode) == Ok([C]);
    assert RenderFilterArgs(g, mode) == Ok([C]);
    EqInlineStep(S, c, C, mode);
  }

  lemma EqInlineStep(S: string, c: Expr, C: string, mode: Mode)
    requires c.filters == []
    ensures InlineStep(Generic(Name(CompareEq), Args([c])), [C], S, None, mode) == (S + " == " + C, Some(3))
    ensures IsInline(Generic(Name(CompareEq), Args([c])))
  {
    var g := Generic(Name(CompareEq), Args([c]));
    assert FilterName(g) == "__COMPARE_EQ__";
    assert FromName("__COMPARE_EQ__") == Some(CompareEq);
    assert OperatorOf(FilterName(g)) == Some(CompareEq);
    assert ArgList(g) == [c];
    assert LastOperator(c.filters) == None;
    assert !NeedsGroup(c, 3);
    assert Grouped([c], [C], 3) == [C];
    assert Join([C], ", ") == C;
    assert S + " " + "==" + " " + C == S + " == " + C;
  }


  /** A when branch as the corresponding if branch: its value compared with the subject. */
  function EqBranch(subject: Expr, b: Branch): Branch {
    match b.condition
    case Some(c) => Branch(Some(EqExpr(subject, c)), b.children)
    case None => b
  }

  function EqBranches(subject: Expr, ws: seq<Branch>): (r: seq<Branch>)
    ensures |r| == |ws| && forall i :: 0 <= i < |ws| ==> r[i] == EqBranch(subject, ws[i])
  {
    if ws == [] then [] else [EqBranch(subject, ws[0])] + EqBranches(subject, ws[1..])
  }

  /** A case whose subject and when values are plain access chains prints exactly like the if
      chain that compares the subject with each when value in turn. */
  lemma CaseIsIfChain(subject: Expr, sb: seq<IrNode>, ws: seq<Branch>, tl: bool, tr: bool, mode: Mode)
    requires subject.filters == []
    requires ws != [] && ws[0].condition.Some?
    requires forall i :: 0 <= i < |ws| && ws[i].condition.Some? ==> ws[i].condition.value.filters == []
    ensures RenderNode(Conditional(CaseVariant, [Branch(Some(subject), sb)] + ws, tl, tr), mode)
         == RenderNode(Conditional(IfVariant, EqBranches(subject, ws), tl, tr), mode)
  {
    var bs := [Branch(Some(subject), sb)] + ws;
    RenderPlain(subject, mode);
    WhensAreIfBranches(subject, bs, EqBranches(subject, ws), 1, tl, tr, mode);
  }

  lemma {:induction false} WhensAreIfBranches(subject: Expr, bs: seq<Branch>, es: seq<Branch>, i: nat, tl: bool, tr: bool, mode: Mode)
    requires subject.filters == []
    requires 1 <= i <= |bs| && |es| == |bs| - 1
    requires forall k :: 1 <= k < |bs| ==> es[k - 1] == EqBranch(subject, bs[k])
    requires |bs| > 1 ==> bs[1].condition.Some?
    requires forall k :: 1 <= k < |bs| && bs[k].condition.Some? ==> bs[k].condition.value.filters == []
    ensures RenderWhens(bs, i, RenderPostfix(subject.postfix), tl, tr, mode) == RenderIfBranches(es, i - 1, tl, tr, mode)
    decreases |bs| - i
  {
    if i < |bs| {
      var s := RenderPostfix(subject.postfix);
      WhensAreIfBranches(subject, bs, es, i + 1, tl, tr, mode);
      WhenIsIfBranch(subject, bs[i], i == 1, tl, tr, mode);
      assert es[i - 1] == EqBranch(subject, bs[i]);
      WhensStep(bs, es, i, s, tl, tr, mode);
    }
  }

  /** One step of both loops: equal heads and equal tails give equal texts. */
  lemma WhensStep(bs: seq<Branch>, es: seq<Branch>, i: nat, s: string, tl: bool, tr: bool, mode: Mode)
    requires 1 <= i < |bs| && |es| == |bs| - 1
    requires RenderWhen(bs[i], i == 1, s, tl, tr, mode) == RenderIfBranch(es[i - 1], i - 1 == 0, tl, tr, mode)
    requires RenderWhens(bs, i + 1, s, tl, tr, mode) == RenderIfBranches(es, i, tl, tr, mode)
    ensures RenderWhens(bs, i, s, tl, tr, mode) == RenderIfBranches(es, i - 1, tl, tr, mode)
  {
  }

  lemma WhenIsIfBranch(subject: Expr, b: Branch, first: bool, tl: bool, tr: bool, mode: Mode)
    requires subject.filters == []
    requires first ==> b.condition.Some?
    requires b.condition.Some? ==> b.condition.value.filters == []
    ensures RenderWhen(b, first, RenderPostfix(subject.postfix), tl, tr, mode)
         == RenderIfBranch(EqBranch(subject, b), first, tl, tr, mode)
  {
    if b.condition.Some? {
      WhenValueIsIfCondition(subject, b.condition.value, b.children, first, tl, tr, mode);
    }
  }

  lemma WhenValueIsIfCondition(subject: Expr, c: Expr, children: seq<IrNode>, first: bool, tl: bool, tr: bool, mode: Mode)
    requires subject.filters == [] && c.filters == []
    ensures RenderWhen(Branch(Some(c), children), first, RenderPostfix(subject.postfix), tl, tr, mode)
         == RenderIfBranch(Branch(Some(EqExpr(subject, c)), children), first, tl, tr, mode)
  {
    var s := RenderPostfix(subject.postfix);
    RenderEqExpr(subject, c, mode);
    WhenText(c, children, first, s, tl, tr, mode);
    IfBranchText(EqExpr(subject, c), children, first, s + " == " + RenderPostfix(c.postfix), tl, tr, mode);
  }

  /** A `when` with a plain value opens with the subject compared to the value's text. */
  lemma WhenText(c: Expr, children: seq<IrNode>, first: bool, s: string, tl: bool, tr: bool, mode: Mode)
    requires c.filters == []
    ensures RenderWhen(Branch(Some(c), children), first, s, tl, tr, mode)
         == (var bd :- RenderNodes(children, mode);
             Ok(Stmt(tl, tr, (if first then "if " else "elif ") + (s + " == " + RenderPostfix(c.postfix))) + bd))
  {
    var cs := RenderPostfix(c.postfix);
    assert RenderExpr(c, mode) == Ok(cs);
    KeywordText(first, s, cs);
  }

  lemma KeywordText(first: bool, s: string, cs: string)
    ensures (if first then "if" else "elif") + " " + s + " == " + cs == (if first then "if " else "elif ") + (s + " == " + cs)
  {
  }

  /** An if branch with a condition opens with `if` or `elif` and the condition's text. */
  lemma IfBranchText(e: Expr, children: seq<IrNode>, first: bool, x: string, tl: bool, tr: bool, mode: Mode)
    requires RenderExpr(e, mode) == Ok(x)
    ensures RenderIfBranch(Branch(Some(e), children), first, tl, tr, mode)
         == (var bd :- RenderNodes(children, mode); Ok(Stmt(tl, tr, (if first then "if " else "elif ") + x) + bd))
  {
    assert (if first then "if " else "elif ") + x == (if first then "if " + x else "elif " + x);
  }

  // ---------------------------------------------------------------- loops and assignments

  /** An empty else list prints like an absent one: no `else` tag. */
  lemma EmptyElseIsNoElse(a: LoopArgs, cs: seq<IrNode>, tl: bool, tr: bool, mode: Mode)
    ensures RenderNode(Loop(a, cs, Nodes([]), tl, tr), mode) == RenderNode(Loop(a, cs, NoNodes, tl, tr), mode)
  {
  }

  /** A block assignment prints its body between `set` and `endset`; without a body it fails. */
  lemma BlockAssignment(target: string, cs: seq<IrNode>, tl: bool, tr: bool, mode: Mode)
    ensures RenderNodes(cs, mode).Ok? ==>
      RenderNode(Assignment(target, None, Nodes(cs), tl, tr), mode) == Ok(Stmt(tl, tr, "set " + target) + RenderNodes(cs, mode).value + Stmt(tl, tr, "endset"))
    ensures RenderNode(Assignment(target, None, NoNodes, tl, tr), mode).Err?
  {
  }

  // ---------------------------------------------------------------- filter folding

  /** The two readings of an operator step differ only when an argument has an operator of its
      own: otherwise nothing needs grouping and both print the arguments as they are. */
  lemma InlineStepModes(f: Filter, rendered: seq<string>, x: string, last: Option<nat>)
    requires |rendered| == |ArgList(f)|
    requires forall i :: 0 <= i < |ArgList(f)| ==> LastOperator(ArgList(f)[i].filters).None?
    ensures InlineStep(f, rendered, x, last, AsWritten) == InlineStep(f, rendered, x, last, Corrected)
  {
    if OperatorOf(FilterName(f)).Some? {
      var p := Precedence(OperatorOf(FilterName(f)).value);
      assert forall i :: 0 <= i < |ArgList(f)| ==> !NeedsGroup(ArgList(f)[i], p);
      assert Grouped(ArgList(f), rendered, p) == rendered;
    }
  }

  /** The inline filters of a list, in order. */
  function InlineFilters(fs: seq<Filter>): (r: seq<Filter>)
    ensures forall i :: 0 <= i < |r| ==> IsInline(r[i])
  {
    if fs == [] then [] else (if IsInline(fs[0]) then [fs[0]] else []) + InlineFilters(fs[1..])
  }

  /** The pipeline filters of a list, in order. */
  function PipeFilters(fs: seq<Filter>): (r: seq<Filter>)
    ensures forall i :: 0 <= i < |r| ==> !IsInline(r[i])
  {
    if fs == [] then [] else (if IsInline(fs[0]) then [] else [fs[0]]) + PipeFilters(fs[1..])
  }

  function WithFilterStr(r: Result<Acc, JsError>, y: string): Result<Acc, JsError> {
    if r.Ok? then Ok(r.value.(filterStr := y)) else r
  }

  function WithInfix(r: Result<Acc, JsError>, x: string, l: Option<nat>): Result<Acc, JsError> {
    if r.Ok? then Ok(r.value.(expression := x, last := l)) else r
  }

  lemma UnfoldFilters(f: Filter, rest: seq<Filter>, acc: Acc, mode: Mode)
    ensures RenderFilters([f] + rest, acc, mode)
         == (var a :- RenderFilter(f, acc, mode); RenderFilters(rest, a, mode))
  {
    assert ([f] + rest)[0] == f;
    assert ([f] + rest)[1..] == rest;
  }

  /** Inline filters never touch the pipeline text, and do not depend on it. */
  lemma {:induction false} InlineFrame(fs: seq<Filter>, acc: Acc, y: string, mode: Mode)
    requires forall i :: 0 <= i < |fs| ==> IsInline(fs[i])
    ensures RenderFilters(fs, acc, mode).Ok? ==> RenderFilters(fs, acc, mode).value.filterStr == acc.filterStr
    ensures RenderFilters(fs, acc.(filterStr := y), mode) == WithFilterStr(RenderFilters(fs, acc, mode), y)
  {
    if fs != [] {
      var r := RenderFilter(fs[0], acc, mode);
      if r.Ok? {
        assert RenderFilter(fs[0], acc.(filterStr := y), mode) == Ok(r.value.(filterStr := y));
        InlineFrame(fs[1..], r.value, y, mode);
        assert r.value.(filterStr := y) == r.value.(filterStr := y);
      }
    }
  }

  /** Pipeline filters never touch the infix text or the last precedence, and do not depend on them. */
  lemma {:induction false} PipeFrame(fs: seq<Filter>, acc: Acc, x: string, l: Option<nat>, mode: Mode)
    requires forall i :: 0 <= i < |fs| ==> !IsInline(fs[i])
    ensures RenderFilters(fs, acc, mode).Ok? ==>
      RenderFilters(fs, acc, mode).value.expression == acc.expression
      && RenderFilters(fs, acc, mode).value.last == acc.last
    ensures RenderFilters(fs, acc.(expression := x, last := l), mode) == WithInfix(RenderFilters(fs, acc, mode), x, l)
  {
    if fs != [] {
      var r := RenderFilter(fs[0], acc, mode);
      if r.Ok? {
        assert RenderFilter(fs[0], acc.(expression := x, last := l), mode) == Ok(r.value.(expression := x, last := l));
        PipeFrame(fs[1..], r.value, x, l, mode);
      }
    }
  }

  /** However operators and ordinary filters are interleaved, the operators build the infix
      text in their own order and the ordinary filters are appended after it as a pipeline,
      in theirs: the fold succeeds exactly when both halves do and combines their results. */
  lemma {:induction false} FoldSeparates(fs: seq<Filter>, acc: Acc, mode: Mode)
    ensures RenderFilters(fs, acc, mode).Ok? <==>
      RenderFilters(InlineFilters(fs), acc, mode).Ok? && RenderFilters(PipeFilters(fs), acc, mode).Ok?
    ensures RenderFilters(fs, acc, mode).Ok? ==>
      RenderFilters(fs, acc, mode).value
      == Acc(RenderFilters(InlineFilters(fs), acc, mode).value.expression,
             RenderFilters(PipeFilters(fs), acc, mode).value.filterStr,
             RenderFilters(InlineFilters(fs), acc, mode).value.last)
  {
    if fs != [] {
      var f, rest := fs[0], fs[1..];
      assert fs == [f] + rest;
      var r := RenderFilter(f, acc, mode);
      if IsInline(f) {
        assert InlineFilters(fs) == [f] + InlineFilters(rest);
        assert PipeFilters(fs) == PipeFilters(rest);
        UnfoldFilters(f, InlineFilters(rest), acc, mode);
        if r.Ok? {
          var a1 := r.value;
          assert a1.filterStr == acc.filterStr;
          FoldSeparates(rest, a1, mode);
          PipeFrame(PipeFilters(rest), a1, acc.expression, acc.last, mode);
          assert a1.(expression := acc.expression, last := acc.last) == acc;
        }
      } else {
        assert InlineFilters(fs) == InlineFilters(rest);
        assert PipeFilters(fs) == [f] + PipeFilters(rest);
        UnfoldFilters(f, PipeFilters(rest), acc, mode);
        if r.Ok? {
          var a1 := r.value;
          assert a1.expression == acc.expression && a1.last == acc.last;
          FoldSeparates(rest, a1, mode);
          InlineFrame(InlineFilters(rest), a1, acc.filterStr, mode);
          assert a1.(filterStr := acc.filterStr) == acc;
        }
      }
    }
  }

  /** One operator step: the infix text so far is grouped exactly when the previous operator
      binds looser than this one (never before the first operator); the right operand is grouped
      only by the corrected renderer, and only when it binds no tighter. */
  lemma OperatorStep(acc: Acc, op: Canonical, arg: Expr, argText: string, mode: Mode)
    requires OperatorSymbol(op).Some?
    requires RenderExpr(arg, mode) == Ok(argText)
    ensures RenderFilter(Generic(Name(op), Args([arg])), acc, mode)
         == Ok(Acc((if acc.last.Some? && acc.last.value < Precedence(op) then Paren(acc.expression) else acc.expression)
                   + " " + OperatorSymbol(op).value + " "
                   + (if mode.Corrected? && NeedsGroup(arg, Precedence(op)) then Paren(argText) else argText),
                   acc.filterStr, Some(Precedence(op))))
  {
    var g := Generic(Name(op), Args([arg]));
    var p := Precedence(op);
    assert [arg][1..] == [];
    assert [argText] + [] == [argText];
    assert RenderAll([arg], mode) == Ok([argText]);
    assert RenderFilterArgs(g, mode) == Ok([argText]);
    OperatorOfName(op);
    assert IsInline(g);
    var rs := if mode.Corrected? && NeedsGroup(arg, p) then Paren(argText) else argText;
    assert mode.Corrected? ==> Grouped([arg], [argText], p) == [rs];
    assert Join([argText], ", ") == argText && Join([rs], ", ") == rs;
  }

  /** Appending a filter folds it into the result of the rest. */
  lemma {:induction false} RenderFiltersSnoc(fs: seq<Filter>, f: Filter, acc: Acc, mode: Mode)
    ensures RenderFilters(fs + [f], acc, mode)
         == (var a :- RenderFilters(fs, acc, mode); RenderFilter(f, a, mode))
  {
    if fs == [] {
      assert [] + [f] == [f];
      UnfoldFilters(f, [], acc, mode);
    } else {
      assert fs + [f] == [fs[0]] + (fs[1..] + [f]);
      UnfoldFilters(fs[0], fs[1..] + [f], acc, mode);
      var r := RenderFilter(fs[0], acc, mode);
      if r.Ok? {
        RenderFiltersSnoc(fs[1..], f, r.value, mode);
      }
    }
  }
}
