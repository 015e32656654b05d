/**
 * What the Nunjucks front-end guarantees, mostly by pairing it with the back-end: the tree walk
 * distributes over node lists; operators come out as the pseudo-filter chain the renderer prints
 * back as infix text; comment placeholders become the comments they replaced; whitespace control
 * and quoted literals are read back from the text the back-end prints; `loop` is canonicalised
 * only inside a loop body; and an `if not` becomes an `unless` that prints the same.
 * The second half holds both halves of the front-end findings.
 */
module NunjucksParseFacts {
  import opened Wrappers
  import opened Js
  import opened IrConstants
  import opened Ir
  import opened NunjucksAst
  import opened NunjucksScan
  import opened NunjucksRender
  import opened NunjucksRenderFacts
  import opened NunjucksParse
  import opened OperatorPrinting

  // ---------------------------------------------------------------- node lists

  /** Converting a concatenation is the concatenation of the conversions; the first node list
      that fails decides the error. */
  lemma {:induction false} ConvertNodesAppend(a: seq<NjNode>, b: seq<NjNode>, t: string, ctx: Context, mode: Mode)
    ensures ConvertNodes(a, t, ctx, mode).Ok? && ConvertNodes(b, t, ctx, mode).Ok? ==>
      ConvertNodes(a + b, t, ctx, mode) == Ok(ConvertNodes(a, t, ctx, mode).value + ConvertNodes(b, t, ctx, mode).value)
    ensures ConvertNodes(a, t, ctx, mode).Err? ==> ConvertNodes(a + b, t, ctx, mode) == ConvertNodes(a, t, ctx, mode)
    ensures ConvertNodes(a, t, ctx, mode).Ok? && ConvertNodes(b, t, ctx, mode).Err? ==>
      ConvertNodes(a + b, t, ctx, mode) == ConvertNodes(b, t, ctx, mode)
  {
    if a == [] {
      assert a + b == b;
      if ConvertNodes(b, t, ctx, mode).Ok? {
        assert [] + ConvertNodes(b, t, ctx, mode).value == ConvertNodes(b, t, ctx, mode).value;
      }
    } else {
      ConvertNodesAppend(a[1..], b, t, ctx, mode);
      ConvertConsSplit(a, b, t, ctx, mode);
      ComposeSteps(ConvertNode(a[0], t, ctx, mode), ConvertNodes(a[1..], t, ctx, mode),
                   ConvertNodes(a[1..] + b, t, ctx, mode), ConvertNodes(b, t, ctx, mode));
    }
  }

  /** One unfolding of `ConvertNodes` on both `a` and `a + b`. */
  lemma ConvertConsSplit(a: seq<NjNode>, b: seq<NjNode>, t: string, ctx: Context, mode: Mode)
    requires a != []
    ensures ConvertNodes(a, t, ctx, mode)
         == (var h :- ConvertNode(a[0], t, ctx, mode); var r :- ConvertNodes(a[1..], t, ctx, mode); Ok(h + r))
    ensures ConvertNodes(a + b, t, ctx, mode)
         == (var h :- ConvertNode(a[0], t, ctx, mode); var r :- ConvertNodes(a[1..] + b, t, ctx, mode); Ok(h + r))
  {
    var ab := a + b;
    assert ab[0] == a[0];
    assert ab[1..] == a[1..] + b;
  }

  // ---------------------------------------------------------------- operators

  /** The binary node type the parser uses for an arithmetic or logical operator. */
  function BinaryTypename(op: Canonical): string {
    match op
    case Add => "Add"
    case Subtract => "Sub"
    case Multiply => "Mul"
    case Divide => "Div"
    case Modulo => "Mod"
    case LogicalAnd => "And"
    case LogicalOr => "Or"
    case _ => ""
  }

  /** The operators the parser builds as binary or comparison nodes: every infix operator but `in`. */
  predicate ParsedOperator(op: Canonical) {
    OperatorSymbol(op).Some? && !op.Contains?
  }

  /** The parser node of `l op r`: a comparison keeps its token, any other operator is a binary node. */
  function OperatorNode(op: Canonical, l: NjNode, r: NjNode): NjNode
    requires ParsedOperator(op)
  {
    if IsComparison(op) then Blank("Compare").(expr := Some(l), ops := [CompareOperand(OperatorSymbol(op).value, Some(r))])
    else Binary(BinaryTypename(op), l, r)
  }

  predicate Parsable(t: Tree) {
    match t
    case Leaf(_) => true
    case Bin(op, l, r) => ParsedOperator(op) && Parsable(l) && Parsable(r)
  }

  /** The operator nodes of an expression tree over variables, with no `Group` node: the
      parser's tree of a text without parentheses, and an operator tree as such otherwise.
      `SourceAst` below is the tree of the parenthesised reference text. */
  function TreeAst(t: Tree): NjNode
    requires Parsable(t)
  {
    match t
    case Leaf(n) => Symbol(n, None)
    case Bin(op, l, r) => OperatorNode(op, TreeAst(l), TreeAst(r))
  }

  /** The node types and tokens the front-end maps to each operator's pseudo-filter. */
  lemma OperatorNames(op: Canonical)
    requires ParsedOperator(op)
    ensures IsComparison(op) ==> BinaryFilterName("Compare").None? && CompareFilterName(OperatorSymbol(op).value) == Name(op)
    ensures !IsComparison(op) ==> BinaryFilterName(BinaryTypename(op)) == Some(Name(op))
    ensures BinaryTypename(op) != "Filter" && BinaryTypename(op) != "Compare"
  {
  }

  lemma {:induction false} ParsableWellFormed(t: Tree)
    requires Parsable(t)
    ensures WellFormed(t)
  {
    if t.Bin? {
      ParsableWellFormed(t.left);
      ParsableWellFormed(t.right);
    }
  }

  /** The front-end lowers the parser's operator nodes exactly as the lowering of the tree does:
      left operand first, each operator a pseudo-filter whose argument is its right operand. */
  lemma {:induction false} ConvertTree(t: Tree, src: string, mode: Mode)
    requires Parsable(t)
    ensures ConvertExprNode(TreeAst(t), src, mode) == Ok(Lower(t))
  {
    match t
    case Leaf(n) =>
      assert BinaryFilterName("Symbol").None?;
    case Bin(op, l, r) =>
      ConvertTree(l, src, mode);
      ConvertTree(r, src, mode);
      OperatorNames(op);
      var lo, ro := Lower(l), Lower(r);
      assert Lower(t) == Expr(lo.postfix, lo.filters + [Generic(Name(op), Args([ro]))]);
  }

  /** Parsing then printing an operator expression with the corrected back-end gives the
      reference infix text: for the operator nodes alone whichever reading of the front-end is
      used, and for the parser's tree of the reference text itself, parentheses included, with
      the corrected front-end. */
  lemma ParsedOperatorsPrintAsInfix(t: Tree, src: string, mode: Mode)
    requires Parsable(t)
    ensures WellFormed(t) && ConvertExprNode(TreeAst(t), src, mode).Ok?
         && RenderExpr(ConvertExprNode(TreeAst(t), src, mode).value, Corrected) == Ok(Infix(t))
    ensures ConvertExprNode(SourceAst(t), src, Corrected).Ok?
         && RenderExpr(ConvertExprNode(SourceAst(t), src, Corrected).value, Corrected) == Ok(Infix(t))
  {
    ParsableWellFormed(t);
    ConvertTree(t, src, mode);
    ConvertSource(t, src);
    RenderLowered(t, Corrected);
  }

  /** The program as written gives the reference infix text for a left-deep tree, one whose
      right operands are all variables, and so for the text itself when that text has no
      parentheses. `RightOperandGroupingLost` shows a tree the back-end gets wrong, and
      `GroupedOperandLostAsWritten` a parenthesised text the front-end gets wrong. */
  lemma ParsedLeftDeepPrintsAsInfix(t: Tree, src: string)
    requires Parsable(t) && LeftDeep(t)
    ensures WellFormed(t) && ConvertExprNode(TreeAst(t), src, AsWritten).Ok?
         && RenderExpr(ConvertExprNode(TreeAst(t), src, AsWritten).value, AsWritten) == Ok(Infix(t))
    ensures Unparenthesised(t) ==> SourceAst(t) == TreeAst(t)
  {
    ParsableWellFormed(t);
    ConvertTree(t, src, AsWritten);
    RenderLowered(t, AsWritten);
    if Unparenthesised(t) {
      UnparenthesisedSource(t);
    }
  }

  // ---------------------------------------------------------------- parenthesised source

  /** The reference text puts the left operand of `t` in parentheses. */
  predicate LeftGrouped(t: Tree) {
    t.Bin? && t.left.Bin? && Precedence(t.left.op) < Precedence(t.op)
  }

  /** The reference text puts the right operand of `t` in parentheses. */
  predicate RightGrouped(t: Tree) {
    t.Bin? && t.right.Bin? && Precedence(t.right.op) <= Precedence(t.op)
  }

  /** The parser's tree of the reference infix text of `t`: an operand the text puts in
      parentheses is a `Group` holding that operand's tree. (A comparison whose left operand is
      an unparenthesised comparison is one chained `Compare` node in the parser; here it is
      nested, as in `TreeAst`.) */
  function SourceAst(t: Tree): NjNode
    requires Parsable(t)
  {
    match t
    case Leaf(n) => Symbol(n, None)
    case Bin(op, l, r) =>
      OperatorNode(op, if LeftGrouped(t) then Group([SourceAst(l)]) else SourceAst(l),
                       if RightGrouped(t) then Group([SourceAst(r)]) else SourceAst(r))
  }

  /** The reference text has no parentheses. */
  predicate Unparenthesised(t: Tree) {
    match t
    case Leaf(_) => true
    case Bin(_, l, r) => !LeftGrouped(t) && !RightGrouped(t) && Unparenthesised(l) && Unparenthesised(r)
  }

  lemma {:induction false} UnparenthesisedSource(t: Tree)
    requires Parsable(t) && Unparenthesised(t)
    ensures SourceAst(t) == TreeAst(t)
  {
    if t.Bin? {
      UnparenthesisedSource(t.left);
      UnparenthesisedSource(t.right);
    }
  }

  /** An operator node converts to its left operand's conversion followed by the operator's
      pseudo-filter, whose argument is the right operand's conversion. */
  lemma OperatorConverted(op: Canonical, la: NjNode, ra: NjNode, lo: Expr, ro: Expr, src: string, mode: Mode)
    requires ParsedOperator(op)
    requires ConvertExprNode(la, src, mode) == Ok(lo) && ConvertExprNode(ra, src, mode) == Ok(ro)
    ensures ConvertExprNode(OperatorNode(op, la, ra), src, mode)
         == Ok(Expr(lo.postfix, lo.filters + [Generic(Name(op), Args([ro]))]))
  {
    OperatorNames(op);
  }

  /** Corrected, the front-end reads a parenthesised operand as the operand itself, so the
      parser's tree of the reference text lowers exactly as the tree does. */
  lemma {:induction false} ConvertSource(t: Tree, src: string)
    requires Parsable(t)
    ensures ConvertExprNode(SourceAst(t), src, Corrected) == Ok(Lower(t))
  {
    match t
    case Leaf(n) =>
    case Bin(op, l, r) =>
      ConvertSource(l, src);
      ConvertSource(r, src);
      var la := if LeftGrouped(t) then Group([SourceAst(l)]) else SourceAst(l);
      var ra := if RightGrouped(t) then Group([SourceAst(r)]) else SourceAst(r);
      GroupConverted(LeftGrouped(t), SourceAst(l), Lower(l), src);
      GroupConverted(RightGrouped(t), SourceAst(r), Lower(r), src);
      OperatorConverted(op, la, ra, Lower(l), Lower(r), src, Corrected);
  }

  /** Corrected, wrapping an operand in a group leaves its conversion unchanged. */
  lemma GroupConverted(grouped: bool, a: NjNode, e: Expr, src: string)
    requires ConvertExprNode(a, src, Corrected) == Ok(e)
    ensures ConvertExprNode(if grouped then Group([a]) else a, src, Corrected) == Ok(e)
  {
    if grouped {
      assert Group([a]).children.items == [a];
    }
  }

  // ---------------------------------------------------------------- comment placeholders

  /** A placeholder name holds the mark once, at its start, followed by its number. */
  lemma MarkInPlaceholder(k: nat)
    ensures Includes(PlaceholderName(k), COMMENT_MARK)
    ensures SecondPiece(PlaceholderName(k), COMMENT_MARK) == NatToString(k) + "__"
  {
    var s := PlaceholderName(k);
    var m := COMMENT_MARK;
    assert OccursAt(s, m, 0) by { assert s[..|m|] == m; }
    IncludesIff(s, m);
    var i := IndexOf(s, m, 0).value;
    assert i == 0;
    var rest := s[|m|..];
    assert rest == NatToString(k) + "__";
    assert forall p :: 0 <= p < |rest| ==> IsDigit(rest[p]) || rest[p] == '_';
    forall p: nat ensures !OccursAt(rest, m, p) {
      if p + |m| <= |rest| {
        assert rest[p..p + |m|][2] == rest[p + 2];
        assert m[2] == 'C';
      }
    }
  }

  /** As written, the number after the mark of a placeholder name selects its comment. */
  lemma PlaceholderContentAsWritten(k: nat, comments: seq<string>)
    requires k < |comments|
    ensures Includes(PlaceholderName(k), COMMENT_MARK)
    ensures CommentContentAsWritten(PlaceholderName(k), comments) == Str(comments[k])
  {
    MarkInPlaceholder(k);
    ParseIntOfNatToString(k, "__");
  }

  /** The output the placeholder of a recorded comment parses to becomes that comment, in
      either reading. */
  lemma PlaceholderIsComment(k: nat, col: Option<nat>, t: string, ctx: Context, mode: Mode)
    requires k < |ctx.comments|
    ensures ConvertNode(OutputOf([Symbol(PlaceholderName(k), col)]), t, ctx, mode)
         == Ok([Comment(Str(ctx.comments[k]))])
  {
    var n := OutputOf([Symbol(PlaceholderName(k), col)]);
    PlaceholderCommentFor(k, col, ctx.comments, mode);
    OutputOfComment(n, Str(ctx.comments[k]), t, ctx, mode);
  }

  lemma PlaceholderCommentFor(k: nat, col: Option<nat>, comments: seq<string>, mode: Mode)
    requires k < |comments|
    ensures CommentFor(Symbol(PlaceholderName(k), col), comments, mode) == Some(Str(comments[k]))
  {
    var child := Symbol(PlaceholderName(k), col);
    assert child.value == Str(PlaceholderName(k)) && child.typename == "Symbol";
    if mode.AsWritten? {
      PlaceholderContentAsWritten(k, comments);
    } else {
      PlaceholderIndexOfName(k);
    }
  }

  /** An output whose first child stands for a comment becomes that comment, whatever follows. */
  lemma OutputOfComment(n: NjNode, c: Prim, t: string, ctx: Context, mode: Mode)
    requires n.typename == "Output" && n.children.List? && |n.children.items| > 0
    requires CommentFor(n.children.items[0], ctx.comments, mode) == Some(c)
    ensures ConvertNode(n, t, ctx, mode) == Ok([Comment(c)])
  {
  }

  /** A comment survives the whole front-end: preprocessing records its trimmed body first and
      leaves its placeholder in its place; the placeholder's output becomes the comment; and the
      back-end prints it as it was written. */
  lemma CommentThroughFrontEnd(a: string, c: string, b: string, col: Option<nat>, mode: Mode)
    requires NoOccurrence(a, "{#") && NoOccurrence(c, "#}")
    requires Trimmed(c)
    ensures var pre := Preprocess(a + "{# " + c + " #}" + b);
            && |pre.text| >= |a| + |Placeholder(0)| && pre.text[..|a| + |Placeholder(0)|] == a + Placeholder(0)
            && |pre.comments| >= 1 && pre.comments[0] == c
            && ConvertNode(OutputOf([Symbol(PlaceholderName(0), col)]), pre.text, Context(false, pre.comments), mode)
               == Ok([Comment(Str(c))])
            && RenderNode(Comment(Str(c)), mode) == Ok("{# " + c + " #}")
  {
    FirstCommentPreprocessed(a, c, b);
    FirstCommentConverted(a + "{# " + c + " #}" + b, c, col, mode);
    CommentPrinted(c, mode);
  }

  lemma FirstCommentConverted(src: string, c: string, col: Option<nat>, mode: Mode)
    requires |Preprocess(src).comments| >= 1 && Preprocess(src).comments[0] == c
    ensures var pre := Preprocess(src);
            ConvertNode(OutputOf([Symbol(PlaceholderName(0), col)]), pre.text, Context(false, pre.comments), mode)
            == Ok([Comment(Str(c))])
  {
    var pre := Preprocess(src);
    PlaceholderIsComment(0, col, pre.text, Context(false, pre.comments), mode);
  }

  lemma CommentPrinted(c: string, mode: Mode)
    ensures RenderNode(Comment(Str(c)), mode) == Ok("{# " + c + " #}")
  {
  }

  lemma FirstCommentPreprocessed(a: string, c: string, b: string)
    requires NoOccurrence(a, "{#") && NoOccurrence(c, "#}")
    requires Trimmed(c)
    ensures var pre := Preprocess(a + "{# " + c + " #}" + b);
            && |pre.text| >= |a| + |Placeholder(0)| && pre.text[..|a| + |Placeholder(0)|] == a + Placeholder(0)
            && |pre.comments| >= 1 && pre.comments[0] == c
  {
    var t := a + "{# " + c + " #}" + b;
    CommentRoundTrip(a, c, b, 0);
    PreprocessFirst(t);
    PrefixOfConcat(a + Placeholder(0), StripComments(b, 1).text);
  }

  /** Preprocessing keeps the replaced text and trims the first body. */
  lemma PreprocessFirst(t: string)
    requires |StripComments(t, 0).bodies| >= 1
    ensures Preprocess(t).text == StripComments(t, 0).text
    ensures |Preprocess(t).comments| >= 1
    ensures Preprocess(t).comments[0] == Trim(StripComments(t, 0).bodies[0])
  {
  }

  lemma PrefixOfConcat(x: string, y: string)
    ensures |x + y| >= |x| && (x + y)[..|x|] == x
  {
  }

  // ---------------------------------------------------------------- keyword arguments

  /** A keyword given last wins; one for another key leaves the lookup unchanged. */
  lemma LookupLastWins(pairs: seq<(string, Expr)>, key: string, other: string, v: Expr)
    requires other != key
    ensures Lookup(pairs + [(key, v)], key) == Some(v)
    ensures Lookup(pairs + [(other, v)], key) == Lookup(pairs, key)
  {
    assert (pairs + [(other, v)])[..|pairs|] == pairs;
  }

  // ---------------------------------------------------------------- outputs read back

  /** A Symbol is not a placeholder unless its name holds the comment mark. */
  lemma NotAPlaceholder(v: string)
    requires !Includes(v, COMMENT_MARK)
    ensures PlaceholderIndex(v).None?
  {
    forall k: nat ensures v != PlaceholderName(k) {
      MarkInPlaceholder(k);
    }
  }

  /** A variable output printed by the back-end is read back by the front-end with its
      whitespace control, when the external parser reports the variable at a column at most ten
      characters past the opening braces; and the back-end prints that IR node as the same text. */
  lemma VariableOutputRoundTrip(pre: string, v: string, tl: bool, tr: bool, post: string,
                                col: nat, ctx: Context, mode: Mode)
    requires v != "" && v != LOOP_VAR && NoCloseBrace(v) && !Includes(v, COMMENT_MARK)
    requires SearchStart(col) <= |pre|
    requires forall p :: SearchStart(col) <= p < |pre| ==> !OpensAt(pre, p)
    requires pre == "" || pre[|pre| - 1] != '{'
    ensures ConvertNode(OutputOf([Symbol(v, Some(col))]), pre + Delimited(false, tl, tr, v) + post, ctx, mode)
         == Ok([Output(Expr([Str(v)], []), tl, tr)])
    ensures RenderNodes([Output(Expr([Str(v)], []), tl, tr)], mode) == Ok(Delimited(false, tl, tr, v))
  {
    var src := pre + Delimited(false, tl, tr, v) + post;
    TrimsRoundTrip(pre, false, tl, tr, v, post, col);
    NotAPlaceholder(v);
    var child := Symbol(v, Some(col));
    assert CommentFor(child, ctx.comments, mode).None?;
    assert ConvertOutputChild(child, src, ctx, mode) == Ok(Output(Expr([Str(v)], []), tl, tr));
    PrintVariable(v, tl, tr, mode);
  }

  lemma PrintVariable(v: string, tl: bool, tr: bool, mode: Mode)
    requires v != "" && v != LOOP_VAR
    ensures RenderNodes([Output(Expr([Str(v)], []), tl, tr)], mode) == Ok(Delimited(false, tl, tr, v))
  {
    RenderPlain(Expr([Str(v)], []), mode);
    assert RenderPostfix([Str(v)]) == v by {
      assert [Str(v)][1..] == [];
    }
    var o := Output(Expr([Str(v)], []), tl, tr);
    assert RenderNodes([o], mode) == Ok(RenderNode(o, mode).value + "") by {
      assert [o][1..] == [];
    }
    assert RenderNode(o, mode).value + "" == RenderNode(o, mode).value;
  }

  /** A string literal in an output keeps the quotes and escapes it was written with, whatever
      value the external parser decoded; and it prints back verbatim. */
  lemma LiteralOutputKeepsQuotes(pre: string, q: char, s: string, post: string, x: string,
                                 ctx: Context, mode: Mode)
    requires IsQuote(q) && !Includes(x, COMMENT_MARK)
    ensures var src := pre + Quoted(q, s) + post;
            var trims := ExtractWhitespaceControl(src, Some(|pre|));
            ConvertNode(OutputOf([Literal(Str(x), Some(|pre|))]), src, ctx, mode)
            == Ok([Output(Expr([Str(Quoted(q, s))], []), trims.trimLeft, trims.trimRight)])
    ensures RenderExpr(Expr([Str(Quoted(q, s))], []), mode) == Ok(Quoted(q, s))
  {
    LiteralConverted(pre, q, s, post, x, ctx, mode);
    LiteralPrinted(Quoted(q, s), mode);
  }

  lemma LiteralConverted(pre: string, q: char, s: string, post: string, x: string,
                         ctx: Context, mode: Mode)
    requires IsQuote(q) && !Includes(x, COMMENT_MARK)
    ensures var src := pre + Quoted(q, s) + post;
            var trims := ExtractWhitespaceControl(src, Some(|pre|));
            ConvertNode(OutputOf([Literal(Str(x), Some(|pre|))]), src, ctx, mode)
            == Ok([Output(Expr([Str(Quoted(q, s))], []), trims.trimLeft, trims.trimRight)])
  {
    var src := pre + Quoted(q, s) + post;
    StringLiteralRoundTrip(pre, q, s, post);
    var child := Literal(Str(x), Some(|pre|));
    assert src != "";
    assert LiteralPart(child, src) == Str(Quoted(q, s));
    assert CommentFor(child, ctx.comments, mode).None?;
    var trims := ExtractWhitespaceControl(src, Some(|pre|));
    var o := Output(Expr([Str(Quoted(q, s))], []), trims.trimLeft, trims.trimRight);
    assert ConvertOutputChild(child, src, ctx, mode) == Ok(o);
    OutputOfOnlyChild(child, src, ctx, mode, o);
  }

  /** An output whose only child is not a comment, nor raw text, is that child's conversion. */
  lemma OutputOfOnlyChild(child: NjNode, t: string, ctx: Context, mode: Mode, o: IrNode)
    requires IsOutputChildType(child.typename) && child.typename != "TemplateData"
    requires CommentFor(child, ctx.comments, mode).None?
    requires ConvertOutputChild(child, t, ctx, mode) == Ok(o)
    ensures ConvertNode(OutputOf([child]), t, ctx, mode) == Ok([o])
  {
  }

  lemma LiteralPrinted(w: string, mode: Mode)
    requires w != "" && IsQuote(w[0])
    ensures RenderExpr(Expr([Str(w)], []), mode) == Ok(w)
  {
    RenderPlain(Expr([Str(w)], []), mode);
    assert LOOP_VAR[0] == '_';
    assert RenderPostfix([Str(w)]) == w by {
      assert [Str(w)][1..] == [];
    }
  }

  /** An include of a literal path. */
  function IncludeNode(path: string, col: Option<nat>): NjNode {
    Blank("Include").(template := Some(Literal(Str(path), None)), ignoreMissing := Bool(false), colno := col)
  }

  /** An include keeps its path, quoted, and prints back as an include of the same path. */
  lemma IncludeRoundTrip(path: string, col: Option<nat>, t: string, ctx: Context, mode: Mode)
    requires path != ""
    ensures var trims := ExtractWhitespaceControl(t, col);
            var ir := Include(Expr([Str("'" + path + "'")], []), trims.trimLeft, trims.trimRight);
            && ConvertNode(IncludeNode(path, col), t, ctx, mode) == Ok([ir])
            && RenderNode(ir, mode) == Ok(Stmt(trims.trimLeft, trims.trimRight, "include '" + path + "'"))
  {
    var trims := ExtractWhitespaceControl(t, col);
    IncludeConverted(path, col, t, ctx, mode);
    IncludePrinted(path, trims.trimLeft, trims.trimRight, mode);
  }

  lemma IncludeConverted(path: string, col: Option<nat>, t: string, ctx: Context, mode: Mode)
    requires path != ""
    ensures var trims := ExtractWhitespaceControl(t, col);
            ConvertNode(IncludeNode(path, col), t, ctx, mode)
            == Ok([Include(Expr([Str("'" + path + "'")], []), trims.trimLeft, trims.trimRight)])
  {
    var n := IncludeNode(path, col);
    assert n.template.value.value == Str(path);
    assert ConvertNode(n, t, ctx, mode) == ConvertStatement(n, t, ctx, mode);
  }

  lemma IncludePrinted(path: string, tl: bool, tr: bool, mode: Mode)
    ensures RenderNode(Include(Expr([Str("'" + path + "'")], []), tl, tr), mode) == Ok(Stmt(tl, tr, "include '" + path + "'"))
  {
    var w := "'" + path + "'";
    QuotedPostfix(path);
    assert RenderExpr(Expr([Str(w)], []), mode) == Ok(w);
    assert RenderInclude(Expr([Str(w)], []), tl, tr, mode) == Ok(Stmt(tl, tr, "include " + w));
    assert "include " + w == "include '" + path + "'";
  }

  /** A quoted literal head prints as itself. */
  lemma QuotedPostfix(path: string)
    ensures RenderPostfix([Str("'" + path + "'")]) == "'" + path + "'"
  {
    var w := "'" + path + "'";
    assert w[0] == '\'' && LOOP_VAR[0] == '_';
    assert HeadText(Str(w)) == w;
    assert [Str(w)][1..] == [];
  }

  // ---------------------------------------------------------------- loops

  /** `loop.revindex` is canonicalised inside a loop body and left alone outside one; either way
      the back-end prints `loop.revindex` again. */
  lemma LoopRevindexOutput(col: Option<nat>, t: string, ctx: Context, mode: Mode)
    ensures var n := OutputOf([LookupVal(Symbol("loop", None), Literal(Str("revindex"), None), col)]);
            var trims := ExtractWhitespaceControl(t, col);
            var p := if ctx.inLoop then [Str(LOOP_VAR), Str(LOOP_REVINDEX)] else [Str("loop"), Str("revindex")];
            && ConvertNode(n, t, ctx, mode) == Ok([Output(Expr(p, []), trims.trimLeft, trims.trimRight)])
            && RenderExpr(Expr(p, []), mode) == Ok("loop.revindex")
  {
    var child := LookupVal(Symbol("loop", None), Literal(Str("revindex"), None), col);
    var raw := [Str("loop"), Str("revindex")];
    assert BuildPostfix(child.target, t, mode) == Ok([Str("loop")]);
    assert child.val.value.value == Str("revindex");
    assert [Str("loop")] + [Str("revindex")] == raw;
    assert BuildPostfix(Some(child), t, mode) == Ok(raw);
    assert raw[2..] == [];
    var p := if ctx.inLoop then [Str(LOOP_VAR), Str(LOOP_REVINDEX)] else raw;
    assert CanonicalLoop(raw, ctx.inLoop) == p;
    if ctx.inLoop {
      CanonicalRevindexPrints(mode);
    } else {
      PlainRevindexPrints(mode);
    }
  }

  lemma CanonicalRevindexPrints(mode: Mode)
    ensures RenderExpr(Expr([Str(LOOP_VAR), Str(LOOP_REVINDEX)], []), mode) == Ok("loop.revindex")
  {
    RenderPlain(Expr([Str(LOOP_VAR), Str(LOOP_REVINDEX)], []), mode);
    RevindexOnlyOnLoop(Str(LOOP_VAR));
    assert HeadText(Str(LOOP_VAR)) == "loop";
    assert "loop" + ".revindex" == "loop.revindex";
  }

  lemma PlainRevindexPrints(mode: Mode)
    ensures RenderExpr(Expr([Str("loop"), Str("revindex")], []), mode) == Ok("loop.revindex")
  {
    var raw := [Str("loop"), Str("revindex")];
    RenderPlain(Expr(raw, []), mode);
    assert raw[1..] == [Str("revindex")];
    assert [Str("revindex")][1..] == [];
    assert TailText(Str("loop"), raw[1..]) == PartText(Str("loop"), Str("revindex"));
    assert RenderPostfix(raw) == HeadText(Str("loop")) + PartText(Str("loop"), Str("revindex"));
    assert |"loop"| != |LOOP_VAR|;
    assert HeadText(Str("loop")) == "loop";
    assert PartText(Str("loop"), Str("revindex")) == ".revindex";
    assert "loop" + ".revindex" == "loop.revindex";
  }

  /** A loop's else part, when it has a child list. */
  predicate HasElseItems(n: NjNode) {
    n.else_.Some? && n.else_.value.children.List?
  }

  /** A loop's body and its else children are both converted inside the loop, and its
      collection as an expression; without an else child list the loop has no else part. */
  lemma ForBodyInLoop(n: NjNode, cs: seq<NjNode>, t: string, ctx: Context, mode: Mode)
    requires n.typename == "For" && n.name.Some?
    requires n.body == Some(NunjucksAst.NodeList(cs))
    requires ConvertExpr(n.arr, t, mode).Ok?
    requires ConvertNodes(cs, t, ctx.(inLoop := true), mode).Ok?
    requires HasElseItems(n) ==> ConvertNodes(n.else_.value.children.items, t, ctx.(inLoop := true), mode).Ok?
    ensures var trims := ExtractWhitespaceControl(t, StatementCol(n));
            var inner := ctx.(inLoop := true);
            ConvertNode(n, t, ctx, mode)
            == Ok([Loop(LoopArgs(n.name.value.value, ConvertExpr(n.arr, t, mode).value),
                        ConvertNodes(cs, t, inner, mode).value,
                        if HasElseItems(n) then Nodes(ConvertNodes(n.else_.value.children.items, t, inner, mode).value)
                        else NoNodes,
                        trims.trimLeft, trims.trimRight)])
  {
    assert ConvertNode(n, t, ctx, mode) == ConvertStatement(n, t, ctx, mode);
    assert ConvertStatement(n, t, ctx, mode) == ConvertFor(n, t, ctx, mode);
    assert n.body.value.children == List(cs);
  }

  // ---------------------------------------------------------------- if chains

  /** The child nodes of a chain node's body; none when the body has no child list. */
  function BodyItems(n: NjNode): seq<NjNode> {
    if n.body.Some? then ItemsOr(n.body.value.children) else []
  }

  /** A chain node converts: it has a body, and its condition and its body's children convert. */
  predicate BranchConverts(n: NjNode, t: string, ctx: Context, mode: Mode)
    requires n.cond.Some?
  {
    n.body.Some? && ConvertExprNode(n.cond.value, t, mode).Ok? && ConvertNodes(BodyItems(n), t, ctx, mode).Ok?
  }

  /** The else node's children convert, when the chain has one. */
  predicate ElseConverts(cur: NjNode, t: string, ctx: Context, mode: Mode)
    requires cur.cond.Some?
  {
    ChainElse(cur).Some? ==> ConvertNodes(ItemsOr(ChainElse(cur).value.children), t, ctx, mode).Ok?
  }

  /** One unfolding of the chain: the head branch, then the rest of the chain or the else part. */
  lemma IfChainUnfold(cur: NjNode, t: string, ctx: Context, mode: Mode)
    requires cur.cond.Some?
    ensures !BranchConverts(cur, t, ctx, mode) ==> IfChain(cur, t, ctx, mode).Err?
    ensures BranchConverts(cur, t, ctx, mode) ==>
      var b := Branch(Some(ConvertExprNode(cur.cond.value, t, mode).value), ConvertNodes(BodyItems(cur), t, ctx, mode).value);
      IfChain(cur, t, ctx, mode)
      == if cur.else_.None? then Ok([b])
         else if cur.else_.value.cond.Some? then (var rest :- IfChain(cur.else_.value, t, ctx, mode); Ok([b] + rest))
         else (var es :- ConvertNodes(ItemsOr(cur.else_.value.children), t, ctx, mode); Ok([b, Branch(None, es)]))
  {
    assert BodyItems(cur) == [] ==> ConvertNodes(BodyItems(cur), t, ctx, mode) == Ok([]);
    if cur.else_.Some? {
      assert ItemsOr(cur.else_.value.children) == [] ==> ConvertNodes([], t, ctx, mode) == Ok([]);
    }
  }

  /** Every chain node of `ns` converts. */
  predicate AllBranchesConvert(ns: seq<NjNode>, t: string, ctx: Context, mode: Mode)
    requires forall i :: 0 <= i < |ns| ==> ns[i].cond.Some?
  {
    forall i :: 0 <= i < |ns| ==> BranchConverts(ns[i], t, ctx, mode)
  }

  lemma AllBranchesCons(cur: NjNode, ns: seq<NjNode>, t: string, ctx: Context, mode: Mode)
    requires cur.cond.Some? && forall i :: 0 <= i < |ns| ==> ns[i].cond.Some?
    ensures forall i :: 0 <= i < |[cur] + ns| ==> ([cur] + ns)[i].cond.Some?
    ensures AllBranchesConvert([cur] + ns, t, ctx, mode)
        <==> BranchConverts(cur, t, ctx, mode) && AllBranchesConvert(ns, t, ctx, mode)
  {
    var xs := [cur] + ns;
    assert forall i :: 1 <= i < |xs| ==> xs[i] == ns[i - 1];
    if AllBranchesConvert(xs, t, ctx, mode) {
      assert BranchConverts(xs[0], t, ctx, mode);
      forall i | 0 <= i < |ns| ensures BranchConverts(ns[i], t, ctx, mode) {
        assert xs[i + 1] == ns[i];
      }
    }
    if BranchConverts(cur, t, ctx, mode) && AllBranchesConvert(ns, t, ctx, mode) {
      forall i | 0 <= i < |xs| ensures BranchConverts(xs[i], t, ctx, mode) {
        if i > 0 {
          assert xs[i] == ns[i - 1];
        }
      }
    }
  }

  /** An if/elif/else chain converts exactly when each of its nodes and its else part do. */
  lemma {:induction false} IfChainConverts(cur: NjNode, t: string, ctx: Context, mode: Mode)
    requires cur.cond.Some?
    ensures IfChain(cur, t, ctx, mode).Ok?
        <==> AllBranchesConvert(ChainNodes(cur), t, ctx, mode) && ElseConverts(cur, t, ctx, mode)
    decreases cur
  {
    IfChainUnfold(cur, t, ctx, mode);
    if cur.else_.Some? && cur.else_.value.cond.Some? {
      var nx := cur.else_.value;
      IfChainConverts(nx, t, ctx, mode);
      assert ChainNodes(cur) == [cur] + ChainNodes(nx);
      assert ChainElse(cur) == ChainElse(nx);
      AllBranchesCons(cur, ChainNodes(nx), t, ctx, mode);
    } else {
      assert ChainNodes(cur) == [cur];
      assert ChainElse(cur) == (if cur.else_.Some? then Some(cur.else_.value) else None);
    }
  }

  /** A branch holds a chain node's converted condition and converted body. */
  predicate BranchMatches(n: NjNode, b: Branch, t: string, ctx: Context, mode: Mode)
    requires n.cond.Some?
  {
    && b.condition.Some?
    && ConvertExprNode(n.cond.value, t, mode) == Ok(b.condition.value)
    && ConvertNodes(BodyItems(n), t, ctx, mode) == Ok(b.children)
  }

  /** Each chain node of `ns` is matched by the branch at its index in `bs`. */
  predicate AllBranchesMatch(ns: seq<NjNode>, bs: seq<Branch>, t: string, ctx: Context, mode: Mode)
    requires forall i :: 0 <= i < |ns| ==> ns[i].cond.Some?
  {
    |bs| >= |ns| && forall i :: 0 <= i < |ns| ==> BranchMatches(ns[i], bs[i], t, ctx, mode)
  }

  lemma AllBranchesMatchCons(cur: NjNode, b: Branch, ns: seq<NjNode>, bs: seq<Branch>, t: string, ctx: Context, mode: Mode)
    requires cur.cond.Some? && forall i :: 0 <= i < |ns| ==> ns[i].cond.Some?
    requires BranchMatches(cur, b, t, ctx, mode) && AllBranchesMatch(ns, bs, t, ctx, mode)
    ensures forall i :: 0 <= i < |[cur] + ns| ==> ([cur] + ns)[i].cond.Some?
    ensures AllBranchesMatch([cur] + ns, [b] + bs, t, ctx, mode)
  {
    var xs, ys := [cur] + ns, [b] + bs;
    forall i | 0 <= i < |xs| ensures xs[i].cond.Some? && BranchMatches(xs[i], ys[i], t, ctx, mode) {
      if i > 0 {
        assert xs[i] == ns[i - 1] && ys[i] == bs[i - 1];
      }
    }
  }

  /** Branch i of a converted chain holds the i-th chain node's converted condition and body;
      a final else branch holds the else node's converted children. */
  lemma {:induction false} IfChainBranches(cur: NjNode, t: string, ctx: Context, mode: Mode)
    requires cur.cond.Some?
    requires IfChain(cur, t, ctx, mode).Ok?
    ensures AllBranchesMatch(ChainNodes(cur), IfChain(cur, t, ctx, mode).value, t, ctx, mode)
    ensures var r := IfChain(cur, t, ctx, mode).value;
            ChainElse(cur).Some? ==> ConvertNodes(ItemsOr(ChainElse(cur).value.children), t, ctx, mode) == Ok(r[|r| - 1].children)
    decreases cur
  {
    var r := IfChain(cur, t, ctx, mode).value;
    IfChainUnfold(cur, t, ctx, mode);
    assert BranchConverts(cur, t, ctx, mode);
    var b := Branch(Some(ConvertExprNode(cur.cond.value, t, mode).value), ConvertNodes(BodyItems(cur), t, ctx, mode).value);
    assert BranchMatches(cur, b, t, ctx, mode);
    if cur.else_.Some? && cur.else_.value.cond.Some? {
      var nx := cur.else_.value;
      var rest := IfChain(nx, t, ctx, mode);
      assert rest.Ok? && r == [b] + rest.value;
      IfChainBranches(nx, t, ctx, mode);
      assert ChainNodes(cur) == [cur] + ChainNodes(nx);
      assert ChainElse(cur) == ChainElse(nx);
      AllBranchesMatchCons(cur, b, ChainNodes(nx), rest.value, t, ctx, mode);
    } else {
      assert ChainNodes(cur) == [cur];
      assert r[0] == b;
      assert ChainElse(cur) == (if cur.else_.Some? then Some(cur.else_.value) else None);
    }
  }

  /** `{% if a %}x{% elif b %}y{% else %}z{% endif %}`: three branches, the last without a
      condition. */
  lemma IfElifElse(a: NjNode, b: NjNode, x: seq<NjNode>, y: seq<NjNode>, z: seq<NjNode>,
                   t: string, ctx: Context, mode: Mode)
    requires ConvertExprNode(a, t, mode).Ok? && ConvertExprNode(b, t, mode).Ok?
    requires ConvertNodes(x, t, ctx, mode).Ok? && ConvertNodes(y, t, ctx, mode).Ok? && ConvertNodes(z, t, ctx, mode).Ok?
    ensures IfChain(WithElse(IfNode(a, x), WithElse(IfNode(b, y), NunjucksAst.NodeList(z))), t, ctx, mode)
         == Ok([Branch(Some(ConvertExprNode(a, t, mode).value), ConvertNodes(x, t, ctx, mode).value),
                Branch(Some(ConvertExprNode(b, t, mode).value), ConvertNodes(y, t, ctx, mode).value),
                Branch(None, ConvertNodes(z, t, ctx, mode).value)])
  {
    var inner := WithElse(IfNode(b, y), NunjucksAst.NodeList(z));
    var outer := WithElse(IfNode(a, x), inner);
    assert BodyItems(inner) == y && BodyItems(outer) == x;
    assert inner.else_.value.cond.None? && ItemsOr(inner.else_.value.children) == z;
    assert outer.else_ == Some(inner) && inner.cond.Some?;
    var ra := Branch(Some(ConvertExprNode(a, t, mode).value), ConvertNodes(x, t, ctx, mode).value);
    var rb := Branch(Some(ConvertExprNode(b, t, mode).value), ConvertNodes(y, t, ctx, mode).value);
    var rz := Branch(None, ConvertNodes(z, t, ctx, mode).value);
    IfChainUnfold(inner, t, ctx, mode);
    assert BranchConverts(inner, t, ctx, mode);
    assert IfChain(inner, t, ctx, mode) == Ok([rb, rz]);
    IfChainUnfold(outer, t, ctx, mode);
    assert BranchConverts(outer, t, ctx, mode);
    assert IfChain(outer, t, ctx, mode) == Ok([ra] + [rb, rz]);
    assert [ra] + [rb, rz] == [ra, rb, rz];
  }

  // ---------------------------------------------------------------- unless

  const NOT_FILTER: Filter := Generic(Name(LogicalNot), Args([]))

  function NotNode(x: NjNode): NjNode {
    Blank("Not").(target := Some(x))
  }

  /** An if with no elif or else. */
  function IfNode(cond: NjNode, cs: seq<NjNode>): NjNode {
    Blank("If").(cond := Some(cond), body := Some(NunjucksAst.NodeList(cs)))
  }

  /** The node `n` continued by `e`: an `elif` node, or the `else` part. */
  function WithElse(n: NjNode, e: NjNode): NjNode {
    n.(else_ := Some(e))
  }

  lemma {:induction false} WithoutTrailingNot(fs: seq<Filter>)
    requires !HasNot(fs)
    ensures WithoutNot(fs + [NOT_FILTER]) == fs
  {
    if fs == [] {
      assert [] + [NOT_FILTER] == [NOT_FILTER];
      assert [NOT_FILTER][1..] == [];
    } else {
      assert (fs + [NOT_FILTER])[0] == fs[0];
      assert (fs + [NOT_FILTER])[1..] == fs[1..] + [NOT_FILTER];
      assert !HasNot(fs[1..]) by {
        forall i | 0 <= i < |fs[1..]| ensures !IsNot(fs[1..][i]) {
          assert fs[1..][i] == fs[i + 1];
        }
      }
      WithoutTrailingNot(fs[1..]);
      assert !IsNot(fs[0]);
      assert [fs[0]] + fs[1..] == fs;
    }
  }

  /** `{% if not x %}...{% endif %}`, whose condition has no other `not`, becomes an unless over
      `x`. */
  lemma NotConditionIsUnless(x: NjNode, cs: seq<NjNode>, t: string, ctx: Context, mode: Mode)
    requires ConvertExprNode(x, t, mode).Ok? && !HasNot(ConvertExprNode(x, t, mode).value.filters)
    requires ConvertNodes(cs, t, ctx, mode).Ok?
    ensures var trims := ExtractWhitespaceControl(t, Some(0));
            ConvertNode(IfNode(NotNode(x), cs), t, ctx, mode)
            == Ok([Conditional(UnlessVariant, [Branch(Some(ConvertExprNode(x, t, mode).value), ConvertNodes(cs, t, ctx, mode).value)],
                               trims.trimLeft, trims.trimRight)])
  {
    var e := ConvertExprNode(x, t, mode).value;
    var body := ConvertNodes(cs, t, ctx, mode).value;
    var n := IfNode(NotNode(x), cs);
    IfNotChain(x, cs, t, ctx, mode);
    NotDetected(e, body);
    assert ConvertIf(n, t, ctx, mode) == Ok([Conditional(UnlessVariant, [Branch(Some(e), body)],
      ExtractWhitespaceControl(t, Some(0)).trimLeft, ExtractWhitespaceControl(t, Some(0)).trimRight)]);
    assert ConvertNode(n, t, ctx, mode) == ConvertStatement(n, t, ctx, mode);
  }

  /** The branch chain of `{% if not x %}` is one branch whose condition is `x`'s chain with a
      trailing `not`. */
  lemma IfNotChain(x: NjNode, cs: seq<NjNode>, t: string, ctx: Context, mode: Mode)
    requires ConvertExprNode(x, t, mode).Ok? && ConvertNodes(cs, t, ctx, mode).Ok?
    ensures var e := ConvertExprNode(x, t, mode).value;
            IfChain(IfNode(NotNode(x), cs), t, ctx, mode)
            == Ok([Branch(Some(Expr(e.postfix, e.filters + [NOT_FILTER])), ConvertNodes(cs, t, ctx, mode).value)])
  {
    var e := ConvertExprNode(x, t, mode).value;
    var n := IfNode(NotNode(x), cs);
    assert ConvertExprNode(NotNode(x), t, mode) == Ok(Expr(e.postfix, e.filters + [NOT_FILTER]));
    assert n.body.value.children == List(cs);
  }

  /** A single branch whose condition ends in the one `not` is detected as an unless over the
      condition without it. */
  lemma NotDetected(e: Expr, body: seq<IrNode>)
    requires !HasNot(e.filters)
    ensures DetectUnless([Branch(Some(Expr(e.postfix, e.filters + [NOT_FILTER])), body)])
         == (UnlessVariant, [Branch(Some(e), body)])
  {
    var c := Expr(e.postfix, e.filters + [NOT_FILTER]);
    WithoutTrailingNot(e.filters);
    assert IsNot(c.filters[|e.filters|]);
    assert HasNot(c.filters);
  }

  /** The `not` step of the fold prefixes the infix text. */
  lemma NotStep(acc: Acc, mode: Mode)
    ensures RenderFilter(NOT_FILTER, acc, mode) == Ok(Acc("not " + acc.expression, acc.filterStr, acc.last))
  {
    FromNameOfName(LogicalNot);
    assert OperatorOf(Name(LogicalNot)).None?;
    assert RenderFilterArgs(NOT_FILTER, mode) == Ok([]);
  }

  /** An unless prints as the if it was recognised from: removing the trailing `not` and printing
      `if not` gives the same text, when the condition has no named-argument sort to parenthesise. */
  lemma UnlessPrintsAsIfNot(p: seq<Part>, fs: seq<Filter>, cs: seq<IrNode>, tl: bool, tr: bool, mode: Mode)
    requires !HasNamedParams(fs)
    ensures RenderNode(Conditional(UnlessVariant, [Branch(Some(Expr(p, fs)), cs)], tl, tr), mode)
         == RenderNode(Conditional(IfVariant, [Branch(Some(Expr(p, fs + [NOT_FILTER])), cs)], tl, tr), mode)
  {
    NotConditionText(p, fs, mode);
    UnlessText(Expr(p, fs), cs, tl, tr, mode);
    IfText(Expr(p, fs + [NOT_FILTER]), cs, tl, tr, mode);
    NotPrefixed(RenderExpr(Expr(p, fs), mode), RenderNodes(cs, mode), tl, tr);
  }

  /** Printing `if` over a condition prefixed with `not ` is printing `if not` over it. */
  lemma NotPrefixed(r: Result<string, JsError>, body: Result<string, JsError>, tl: bool, tr: bool)
    ensures (var x :- (var y :- r; Ok("not " + y)); var b :- body; Ok(Stmt(tl, tr, "if " + x) + b + Stmt(tl, tr, "endif")))
         == (var x :- r; var b :- body; Ok(Stmt(tl, tr, "if not " + x) + b + Stmt(tl, tr, "endif")))
  {
    if r.Ok? {
      assert "if " + ("not " + r.value) == "if not " + r.value;
    }
  }

  /** An unless with one branch prints `if not`, its condition, its body and `endif`. */
  lemma UnlessText(c: Expr, cs: seq<IrNode>, tl: bool, tr: bool, mode: Mode)
    ensures RenderNode(Conditional(UnlessVariant, [Branch(Some(c), cs)], tl, tr), mode)
         == (var x :- RenderExpr(c, mode); var body :- RenderNodes(cs, mode);
             Ok(Stmt(tl, tr, "if not " + x) + body + Stmt(tl, tr, "endif")))
  {
  }

  /** An if with one branch prints `if`, its condition, its body and `endif`. */
  lemma IfText(c: Expr, cs: seq<IrNode>, tl: bool, tr: bool, mode: Mode)
    ensures RenderNode(Conditional(IfVariant, [Branch(Some(c), cs)], tl, tr), mode)
         == (var x :- RenderExpr(c, mode); var body :- RenderNodes(cs, mode);
             Ok(Stmt(tl, tr, "if " + x) + body + Stmt(tl, tr, "endif")))
  {
    var b := Branch(Some(c), cs);
    assert RenderIfBranches([b], 1, tl, tr, mode) == Ok("");
    var r := RenderExpr(c, mode);
    var body := RenderNodes(cs, mode);
    if r.Ok? && body.Ok? {
      var h := Stmt(tl, tr, "if " + r.value) + body.value;
      assert RenderIfBranch(b, true, tl, tr, mode) == Ok(h);
      assert RenderIfBranches([b], 0, tl, tr, mode) == Ok(h + "");
      assert h + "" == h;
    } else if r.Err? {
      assert RenderIfBranches([b], 0, tl, tr, mode) == Err(r.error);
    } else {
      assert RenderIfBranches([b], 0, tl, tr, mode) == Err(body.error);
    }
  }

  /** A trailing `not` prints as `not ` before the rest of the condition. */
  lemma NotConditionText(p: seq<Part>, fs: seq<Filter>, mode: Mode)
    requires !HasNamedParams(fs)
    ensures RenderExpr(Expr(p, fs + [NOT_FILTER]), mode)
         == (var x :- RenderExpr(Expr(p, fs), mode); Ok("not " + x))
  {
    var start := Acc(RenderPostfix(p), "", None);
    NotKeepsNamedParams(fs);
    UnnamedExpr(p, fs, mode);
    UnnamedExpr(p, fs + [NOT_FILTER], mode);
    NotSnoc(fs, start, mode);
    NotAccText(RenderFilters(fs, start, mode));
  }

  /** Without named parameters the chain's text is not parenthesised. */
  lemma UnnamedExpr(p: seq<Part>, fs: seq<Filter>, mode: Mode)
    requires !HasNamedParams(fs)
    ensures RenderExpr(Expr(p, fs), mode)
         == (var a :- RenderFilters(fs, Acc(RenderPostfix(p), "", None), mode); Ok(a.expression + a.filterStr))
  {
  }

  /** A trailing `not` in the chain prefixes the folded expression with `not `. */
  lemma NotSnoc(fs: seq<Filter>, start: Acc, mode: Mode)
    ensures RenderFilters(fs + [NOT_FILTER], start, mode)
         == (var a :- RenderFilters(fs, start, mode); Ok(Acc("not " + a.expression, a.filterStr, a.last)))
  {
    RenderFiltersSnoc(fs, NOT_FILTER, start, mode);
    var r := RenderFilters(fs, start, mode);
    if r.Ok? {
      NotStep(r.value, mode);
    }
  }

  lemma NotAccText(r: Result<Acc, JsError>)
    ensures (var a :- (var b :- r; Ok(Acc("not " + b.expression, b.filterStr, b.last))); Ok(a.expression + a.filterStr))
         == (var x :- (var a :- r; Ok(a.expression + a.filterStr)); Ok("not " + x))
  {
    if r.Ok? {
      var a := r.value;
      assert "not " + a.expression + a.filterStr == "not " + (a.expression + a.filterStr);
    }
  }

  lemma NotKeepsNamedParams(fs: seq<Filter>)
    requires !HasNamedParams(fs)
    ensures !HasNamedParams(fs + [NOT_FILTER])
  {
    forall i | 0 <= i < |fs + [NOT_FILTER]| ensures !((fs + [NOT_FILTER])[i].Sort? && (fs + [NOT_FILTER])[i].attribute.Some?) {
      if i < |fs| {
        assert (fs + [NOT_FILTER])[i] == fs[i];
      }
    }
  }
}
