/**
 * Four places where the Nunjucks front-end, as written, loses template content, each shown on
 * a concrete input, and the corrected reading with the property that reading restores.
 */
module NunjucksParseFindings {
  import opened Wrappers
  import opened Js
  import opened IrConstants
  import opened Ir
  import opened NunjucksAst
  import opened NunjucksScan
  import opened NunjucksRender
  import opened NunjucksRenderFacts
  import opened NunjucksParse
  import opened NunjucksParseFacts
  import opened OperatorPrinting

  // ---------------------------------------------------------------- the comment mark in text

  /** As written, template text that spells a placeholder is taken for the comment it names. */
  lemma PlaceholderTextAsWritten(k: nat, col: Option<nat>, t: string, ctx: Context)
    requires k < |ctx.comments|
    ensures ConvertNode(OutputOf([TemplateData(PlaceholderName(k), col)]), t, ctx, AsWritten)
         == Ok([Comment(Str(ctx.comments[k]))])
  {
    PlaceholderContentAsWritten(k, ctx.comments);
    var n := OutputOf([TemplateData(PlaceholderName(k), col)]);
    OutputOfComment(n, Str(ctx.comments[k]), t, ctx, AsWritten);
  }

  /** As written, the text `__COMMENT_` alone becomes an empty comment, printed `{# undefined #}`. */
  lemma BareMarkAsWritten(col: Option<nat>, t: string, ctx: Context)
    ensures ConvertNode(OutputOf([TemplateData(COMMENT_MARK, col)]), t, ctx, AsWritten) == Ok([Comment(Undefined)])
    ensures RenderNode(Comment(Undefined), AsWritten) == Ok("{# undefined #}")
  {
    BareMarkContent(ctx.comments);
    var n := OutputOf([TemplateData(COMMENT_MARK, col)]);
    OutputOfComment(n, Undefined, t, ctx, AsWritten);
    UndefinedCommentPrinted(AsWritten);
  }

  /** The mark alone has nothing after it, which `parseInt` reads as NaN. */
  lemma BareMarkContent(comments: seq<string>)
    ensures Includes(COMMENT_MARK, COMMENT_MARK)
    ensures CommentContentAsWritten(COMMENT_MARK, comments) == Undefined
  {
    var m := COMMENT_MARK;
    assert OccursAt(m, m, 0);
    IndexOfFirst(m, m, 0, 0);
    assert m[|m|..] == "";
    assert SecondPiece(m, m) == "";
    assert ParseInt("") == None;
  }

  /** As written, the mark followed by a hexadecimal number selects the comment of that number,
      since `parseInt` reads `0x1` as one. */
  lemma HexMarkContent(comments: seq<string>)
    requires |comments| >= 2
    ensures Includes(COMMENT_MARK + "0x1__", COMMENT_MARK)
    ensures CommentContentAsWritten(COMMENT_MARK + "0x1__", comments) == Str(comments[1])
  {
    HexMarkPiece();
    HexOne();
  }

  lemma HexOne()
    ensures ParseInt("0x1__") == Some(1)
  {
    HexValueOne();
    ParseIntOfHex('x', "1", "__");
    assert ['0', 'x'] + "1" + "__" == "0x1__";
  }

  lemma HexValueOne()
    ensures AllHexDigits("1") && HexValue("1") == 1
  {
    assert "1"[..0] == "";
    assert HexDigitValue('1') == 1;
  }

  lemma HexMarkPiece()
    ensures Includes(COMMENT_MARK + "0x1__", COMMENT_MARK)
    ensures SecondPiece(COMMENT_MARK + "0x1__", COMMENT_MARK) == "0x1__"
  {
    var m := COMMENT_MARK;
    var s := m + "0x1__";
    assert s[..|m|] == m;
    IndexOfFirst(s, m, 0, 0);
    assert s[|m|..] == "0x1__";
  }

  lemma UndefinedCommentPrinted(mode: Mode)
    ensures RenderNode(Comment(Undefined), mode) == Ok("{# undefined #}")
  {
    assert "{# " + "undefined" + " #}" == "{# undefined #}";
  }

  /** Corrected, template text is text, whatever it spells (unless it is a raw block's). */
  lemma TextStaysText(child: NjNode, t: string, ctx: Context)
    requires child.typename == "TemplateData"
    requires !(child.value.Str? && child.colno.Some? && RawPreceded(t, child.colno.value))
    ensures ConvertNode(OutputOf([child]), t, ctx, Corrected) == Ok([Text(child.value)])
  {
    assert CommentFor(child, ctx.comments, Corrected).None?;
  }

  /** Corrected, the text of the first input above stays text. */
  lemma PlaceholderTextCorrected(k: nat, t: string, ctx: Context)
    ensures ConvertNode(OutputOf([TemplateData(PlaceholderName(k), None)]), t, ctx, Corrected)
         == Ok([Text(Str(PlaceholderName(k)))])
  {
    TextStaysText(TemplateData(PlaceholderName(k), None), t, ctx);
  }

  // ---------------------------------------------------------------- the base of a filter

  /** The parser's tree of `(a + b) | upper`: a filter attaches to the primary before it, so
      the sum reaches the filter only inside a `Group`. */
  function FilteredSum(a: string, b: string): NjNode {
    FilterCall("upper", Group([Binary("Add", Symbol(a, None), Symbol(b, None))]), [])
  }

  /** As written, `(a + b) | upper` loses the sum: only the filter is left. */
  lemma FilteredSumAsWritten(a: string, b: string, t: string)
    ensures ConvertExprNode(FilteredSum(a, b), t, AsWritten) == Ok(Expr([], [Generic(Name(Uppercase), NoArgs)]))
  {
    var base := Group([Binary("Add", Symbol(a, None), Symbol(b, None))]);
    var f := Generic(Name(Uppercase), NoArgs);
    FilterStep(FilteredSum(a, b), base, "upper", t, AsWritten);
    assert ParseFilterChain(base, t, AsWritten) == Ok(Expr([], []));
    assert MakeFilter("upper", [base], [], t, AsWritten) == Ok(f);
    assert [] + [f] == [f];
  }

  /** How a filter application without arguments unfolds. */
  lemma FilterStep(n: NjNode, base: NjNode, name: string, t: string, mode: Mode)
    requires n == FilterCall(name, base, [])
    ensures ParseFilterChain(n, t, mode)
         == (var inner :- if mode.Corrected? && base.typename != "Filter" then ConvertExprNode(base, t, mode)
                          else ParseFilterChain(base, t, mode);
             var f :- MakeFilter(name, [base], [], t, mode);
             Ok(Expr(inner.postfix, inner.filters + [f])))
    ensures ConvertExprNode(n, t, mode) == ParseFilterChain(n, t, mode)
  {
    assert [base] + [] == [base];
    assert n.args.value.children.items == [base];
    assert ConvertExprs([base], 1, t, mode) == Ok([]);
    assert TemplateString(n.name.value.value) == name;
  }

  /** Corrected, a filter applies to the whole expression it follows: the filtered value's
      conversion, with the filter appended. */
  lemma FilterOfExpression(name: string, base: NjNode, t: string)
    requires base.typename != "Filter" && !HasFactory(name)
    ensures ConvertExprNode(FilterCall(name, base, []), t, Corrected)
         == (var e :- ConvertExprNode(base, t, Corrected);
             Ok(Expr(e.postfix, e.filters + [Generic(FilterToIr(name), NoArgs)])))
  {
    var n := FilterCall(name, base, []);
    FilterStep(n, base, name, t, Corrected);
    assert MakeFilter(name, [base], [], t, Corrected) == Ok(Generic(FilterToIr(name), NoArgs));
  }

  /** Corrected, `(a + b) | upper` keeps the sum, followed by the filter. */
  lemma FilteredSumCorrected(a: string, b: string, t: string)
    ensures ConvertExprNode(FilteredSum(a, b), t, Corrected)
         == Ok(Expr([Str(a)], [Generic(Name(Add), Args([Expr([Str(b)], [])])), Generic(Name(Uppercase), NoArgs)]))
  {
    var sum := Binary("Add", Symbol(a, None), Symbol(b, None));
    var base := Group([sum]);
    FilterOfExpression("upper", base, t);
    assert ConvertExprNode(Symbol(a, None), t, Corrected) == Ok(Expr([Str(a)], []));
    assert ConvertExprNode(Symbol(b, None), t, Corrected) == Ok(Expr([Str(b)], []));
    assert BinaryFilterName("Add") == Some(Name(Add));
    var g := Generic(Name(Add), Args([Expr([Str(b)], [])]));
    assert [] + [g] == [g];
    assert ConvertExprNode(sum, t, Corrected) == Ok(Expr([Str(a)], [g]));
    assert ConvertExprNode(base, t, Corrected) == ConvertExprNode(sum, t, Corrected);
    assert [g] + [Generic(Name(Uppercase), NoArgs)] == [g, Generic(Name(Uppercase), NoArgs)];
  }

  /** Where the code as written worked, on a variable or a literal, the correction changes nothing. */
  lemma SimpleBaseUnchanged(name: string, base: NjNode, t: string)
    requires base.typename == "Symbol" || base.typename == "Literal"
    ensures ConvertExprNode(FilterCall(name, base, []), t, Corrected)
         == ConvertExprNode(FilterCall(name, base, []), t, AsWritten)
  {
    var n := FilterCall(name, base, []);
    FilterStep(n, base, name, t, Corrected);
    FilterStep(n, base, name, t, AsWritten);
    assert BinaryFilterName(base.typename).None?;
    assert ConvertExprNode(base, t, Corrected) == ParseFilterChain(base, t, AsWritten);
    assert MakeFilter(name, [base], [], t, Corrected) == MakeFilter(name, [base], [], t, AsWritten);
  }

  // ---------------------------------------------------------------- parenthesised operands

  /** `(price + tax) * quantity`. */
  function PriceTree(price: string, tax: string, quantity: string): (r: Tree)
    ensures Parsable(r)
  {
    assert Parsable(Leaf(price)) && Parsable(Leaf(tax)) && Parsable(Leaf(quantity));
    assert Parsable(Bin(Add, Leaf(price), Leaf(tax)));
    Bin(Multiply, Bin(Add, Leaf(price), Leaf(tax)), Leaf(quantity))
  }

  /** As written, the parenthesised sum of `(price + tax) * quantity` has no text: the
      expression prints as ` * quantity`. */
  lemma GroupedOperandLostAsWritten(price: string, tax: string, quantity: string, src: string)
    ensures var e := Expr([], [Generic(Name(Multiply), Args([Expr([Str(quantity)], [])]))]);
            && ConvertExprNode(SourceAst(PriceTree(price, tax, quantity)), src, AsWritten) == Ok(e)
            && RenderExpr(e, AsWritten) == Ok(" * " + HeadText(Str(quantity)))
  {
    var t := PriceTree(price, tax, quantity);
    var sum := Bin(Add, Leaf(price), Leaf(tax));
    var q := Expr([Str(quantity)], []);
    assert LeftGrouped(t) && !RightGrouped(t);
    var la := Group([SourceAst(sum)]);
    assert SourceAst(t) == OperatorNode(Multiply, la, Symbol(quantity, None));
    assert ConvertExprNode(la, src, AsWritten) == Ok(EMPTY_EXPRESSION);
    OperatorConverted(Multiply, la, Symbol(quantity, None), EMPTY_EXPRESSION, q, src, AsWritten);
    assert [] + [Generic(Name(Multiply), Args([q]))] == [Generic(Name(Multiply), Args([q]))];
    LoneOperandPrinted(quantity);
  }

  /** An operator applied to an empty chain prints only the operator and its operand. */
  lemma LoneOperandPrinted(quantity: string)
    ensures RenderExpr(Expr([], [Generic(Name(Multiply), Args([Expr([Str(quantity)], [])]))]), AsWritten)
         == Ok(" * " + HeadText(Str(quantity)))
  {
    var q := Expr([Str(quantity)], []);
    var g := Generic(Name(Multiply), Args([q]));
    var start := Acc("", "", None);
    assert RenderPostfix([Str(quantity)]) == HeadText(Str(quantity)) by {
      assert [Str(quantity)][1..] == [];
    }
    OperatorStep(start, Multiply, q, HeadText(Str(quantity)), AsWritten);
    UnfoldFilters(g, [], start, AsWritten);
    assert [g] + [] == [g];
    assert "" + " " + "*" + " " + HeadText(Str(quantity)) + "" == " * " + HeadText(Str(quantity));
  }

  /** Corrected, the sum is kept and prints back inside its parentheses. */
  lemma GroupedOperandKeptCorrected(price: string, tax: string, quantity: string, src: string)
    ensures ConvertExprNode(SourceAst(PriceTree(price, tax, quantity)), src, Corrected)
         == Ok(Lower(PriceTree(price, tax, quantity)))
    ensures RenderExpr(Lower(PriceTree(price, tax, quantity)), Corrected)
         == Ok("(" + HeadText(Str(price)) + " + " + HeadText(Str(tax)) + ") * " + HeadText(Str(quantity)))
  {
    ConvertSource(PriceTree(price, tax, quantity), src);
    LeftOperandGroupingKept(price, tax, quantity, Corrected);
  }

  // ---------------------------------------------------------------- negation in expressions

  /** A negation `-x`. */
  function NegNode(x: NjNode): NjNode {
    Blank("Neg").(target := Some(x))
  }

  /** `{% set name = value %}`. */
  function SetNode(name: string, value: NjNode): NjNode {
    Blank("Set").(targets := List([Symbol(name, None)]), valueNode := Some(value))
  }

  /** As written, a negation anywhere in expression position is the empty expression. */
  lemma NegDroppedAsWritten(g: NjNode, t: string)
    requires g.typename == "Neg"
    ensures ConvertExprNode(g, t, AsWritten) == Ok(EMPTY_EXPRESSION)
  {
  }

  lemma SetTarget(name: string)
    ensures TargetNames([Symbol(name, None)]) == name
  {
    var parts := seq(1, i requires 0 <= i < 1 => JoinString([Symbol(name, None)][i].value));
    assert parts == [name];
  }

  /** A set with a value converts the value, whatever it is. */
  lemma SetValueConverted(name: string, value: NjNode, t: string, ctx: Context, mode: Mode)
    requires ConvertExprNode(value, t, mode).Ok?
    ensures var trims := ExtractWhitespaceControl(t, Some(0));
            ConvertNode(SetNode(name, value), t, ctx, mode)
            == Ok([Assignment(name, Some(ConvertExprNode(value, t, mode).value), NoNodes, trims.trimLeft, trims.trimRight)])
  {
    SetTarget(name);
    var n := SetNode(name, value);
    assert StatementCol(n) == Some(0);
    assert ConvertNode(n, t, ctx, mode) == ConvertStatement(n, t, ctx, mode);
    assert ConvertStatement(n, t, ctx, mode) == ConvertSet(n, t, ctx, mode);
  }

  lemma AssignmentPrinted(name: string, e: Expr, v: string, tl: bool, tr: bool, mode: Mode)
    requires RenderExpr(e, mode) == Ok(v)
    ensures RenderNode(Assignment(name, Some(e), NoNodes, tl, tr), mode) == Ok(Stmt(tl, tr, "set " + name + " = " + v))
  {
  }

  /** As written, `{% set x = -1 %}` assigns nothing and prints as `{% set x =  %}`. */
  lemma SetNegationAsWritten(name: string, x: NjNode, t: string, ctx: Context)
    ensures var trims := ExtractWhitespaceControl(t, Some(0));
            var ir := Assignment(name, Some(EMPTY_EXPRESSION), NoNodes, trims.trimLeft, trims.trimRight);
            && ConvertNode(SetNode(name, NegNode(x)), t, ctx, AsWritten) == Ok([ir])
            && RenderNode(ir, AsWritten) == Ok(Stmt(trims.trimLeft, trims.trimRight, "set " + name + " = "))
  {
    var trims := ExtractWhitespaceControl(t, Some(0));
    NegDroppedAsWritten(NegNode(x), t);
    SetValueConverted(name, NegNode(x), t, ctx, AsWritten);
    RenderPlain(EMPTY_EXPRESSION, AsWritten);
    AssignmentPrinted(name, EMPTY_EXPRESSION, "", trims.trimLeft, trims.trimRight, AsWritten);
    assert "set " + name + " = " + "" == "set " + name + " = ";
  }

  /** Corrected, a negation in expression position converts as it does as an output's only
      child: the same expression, or the same error. */
  lemma NegAgreesWithOutput(g: NjNode, t: string, ctx: Context)
    requires g.typename == "Neg"
    ensures ConvertExprNode(g, t, Corrected)
         == (var o :- ConvertOutputChild(g, t, ctx, Corrected); Ok(o.expression))
  {
  }

  /** Corrected, `{% set x = -v %}` keeps the negated value and prints it back. */
  lemma SetNegationCorrected(name: string, x: NjNode, t: string, ctx: Context)
    ensures var trims := ExtractWhitespaceControl(t, Some(0));
            var v := "-" + TemplateString(x.value);
            var ir := Assignment(name, Some(Expr([Str(v)], [])), NoNodes, trims.trimLeft, trims.trimRight);
            && ConvertNode(SetNode(name, NegNode(x)), t, ctx, Corrected) == Ok([ir])
            && RenderNode(ir, Corrected) == Ok(Stmt(trims.trimLeft, trims.trimRight, "set " + name + " = " + v))
  {
    var trims := ExtractWhitespaceControl(t, Some(0));
    var v := "-" + TemplateString(x.value);
    NegSetConverted(name, x, t, ctx);
    NegTextPrinted(v, Corrected);
    AssignmentPrinted(name, Expr([Str(v)], []), v, trims.trimLeft, trims.trimRight, Corrected);
  }

  lemma NegSetConverted(name: string, x: NjNode, t: string, ctx: Context)
    ensures var trims := ExtractWhitespaceControl(t, Some(0));
            var v := "-" + TemplateString(x.value);
            ConvertNode(SetNode(name, NegNode(x)), t, ctx, Corrected)
            == Ok([Assignment(name, Some(Expr([Str(v)], [])), NoNodes, trims.trimLeft, trims.trimRight)])
  {
    var v := "-" + TemplateString(x.value);
    assert ConvertExprNode(NegNode(x), t, Corrected) == Ok(Expr([Str(v)], []));
    SetValueConverted(name, NegNode(x), t, ctx, Corrected);
  }

  /** A negated value prints as its text. */
  lemma NegTextPrinted(v: string, mode: Mode)
    requires v != "" && v[0] == '-'
    ensures RenderExpr(Expr([Str(v)], []), mode) == Ok(v)
  {
    RenderPlain(Expr([Str(v)], []), mode);
    assert LOOP_VAR[0] == '_';
    assert HeadText(Str(v)) == v;
    assert RenderPostfix([Str(v)]) == v by {
      assert [Str(v)][1..] == [];
    }
  }
}
