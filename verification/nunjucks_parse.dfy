/**
 * The Nunjucks front-end: from the external parser's tree to IR nodes. Comments were replaced
 * by numbered placeholders before parsing; the tree walk turns the placeholders back into
 * comment nodes, classifies each `Output` by its only child, recovers whitespace control and
 * quoted literals from the template text, lowers binary, comparison, logical and `not` nodes
 * into a pseudo-filter chain, and recognises `unless` as an `if` whose condition was negated.
 * The `Mode` flag selects between the code as written and the corrected reading of four
 * places (see README, Findings).
 */
module NunjucksParse {
  import opened Wrappers
  import opened Js
  import opened IrConstants
  import opened Ir
  import opened NunjucksAst
  import opened NunjucksScan
  import opened NunjucksRender

  /** What the tree walk carries down: whether a loop body is being converted, and the
      comment bodies removed before parsing. */
  datatype Context = Context(inLoop: bool, comments: seq<string>)

  const EMPTY_EXPRESSION: Expr := Expr([], [])

  // ---------------------------------------------------------------- tables

  /** Nunjucks filter names with a canonical IR name; the others pass through. */
  function FilterToIr(name: string): (r: string)
    ensures name == "upper" ==> r == Name(Uppercase)
    ensures name == "lower" ==> r == Name(Lowercase)
    ensures name == "trim" ==> r == Name(TrimSpace)
    ensures name != "upper" && name != "lower" && name != "trim" ==> r == name
  {
    if name == "upper" then Name(Uppercase)
    else if name == "lower" then Name(Lowercase)
    else if name == "trim" then Name(TrimSpace)
    else name
  }

  /** The filters whose arguments are turned into one of the special filter shapes. */
  predicate HasFactory(name: string) {
    name == "truncate" || name == "replace" || name == "selectattr" || name == "sort"
  }

  /** The pseudo-filter a binary node becomes; `Xor` has no canonical name. */
  function BinaryFilterName(typename: string): Option<string> {
    if typename == "Add" then Some(Name(Add))
    else if typename == "Sub" then Some(Name(Subtract))
    else if typename == "Mul" then Some(Name(Multiply))
    else if typename == "Div" then Some(Name(Divide))
    else if typename == "Mod" then Some(Name(Modulo))
    else if typename == "And" then Some(Name(LogicalAnd))
    else if typename == "Or" then Some(Name(LogicalOr))
    else if typename == "Xor" then Some("xor")
    else None
  }

  /** The pseudo-filter of a comparison token; an unlisted token is used as the name itself. */
  function CompareFilterName(opType: string): string {
    if opType == "==" then Name(CompareEq)
    else if opType == "!=" then Name(CompareNe)
    else if opType == ">" then Name(CompareGt)
    else if opType == ">=" then Name(CompareGte)
    else if opType == "<" then Name(CompareLt)
    else if opType == "<=" then Name(CompareLte)
    else opType
  }

  // ---------------------------------------------------------------- access chains

  /** A literal as a postfix part: a string literal is re-read from the template with its
      quotes when the template is non-empty and the column is known. */
  function LiteralPart(n: NjNode, t: string): (r: Part)
    ensures !n.value.Str? ==> r == n.value
    ensures n.value.Str? && t != "" && n.colno.Some? && StringLiteralAt(t, n.colno.value).Some?
            ==> r == Str(StringLiteralAt(t, n.colno.value).value)
    ensures n.value.Str? && t != "" && n.colno.Some? && StringLiteralAt(t, n.colno.value).None? ==> r == n.value
    ensures n.value.Str? && (t == "" || n.colno.None?) ==> r == n.value
  {
    if n.value.Str? && t != "" && n.colno.Some? then
      match StringLiteralAt(t, n.colno.value)
      case Some(x) => Str(x)
      case None => n.value
    else n.value
  }

  /** The access chain of a simple expression: a variable, a literal, or a property access on
      one of them; any other node has none. Corrected, a negation keeps its operand's text. */
  function BuildPostfix(e: Option<NjNode>, t: string, mode: Mode): (r: Result<seq<Part>, JsError>)
    ensures e.None? ==> r == Ok([])
    ensures e.Some? && (e.value.typename == "Symbol" || e.value.typename == "Literal") ==> r.Ok? && |r.value| == 1
    ensures e.Some? && e.value.typename == "Neg" && mode.AsWritten? ==> r == Ok([])
    ensures r.Ok? && e.Some? && e.value.typename == "LookupVal" ==> |r.value| >= 1
    decreases e
  {
    match e
    case None => Ok([])
    case Some(n) =>
      if n.typename == "Symbol" then Ok([n.value])
      else if n.typename == "LookupVal" then
        var base :- BuildPostfix(n.target, t, mode);
        if n.val.None? then Err(TypeError("value")) else Ok(base + [n.val.value.value])
      else if n.typename == "Literal" then Ok([LiteralPart(n, t)])
      else if n.typename == "Neg" && mode.Corrected? then NegPostfix(n)
      else Ok([])
  }

  /** A negation printed as `-` before its operand's value, as the output path does. */
  function NegPostfix(n: NjNode): Result<seq<Part>, JsError> {
    if n.target.None? then Err(TypeError("value"))
    else Ok([Str("-" + TemplateString(n.target.value.value))])
  }

  // ---------------------------------------------------------------- expressions

  /** A missing expression node gives the empty expression. */
  function ConvertExpr(e: Option<NjNode>, t: string, mode: Mode): Result<Expr, JsError>
    decreases e, 2
  {
    match e
    case None => Ok(EMPTY_EXPRESSION)
    case Some(n) => ConvertExprNode(n, t, mode)
  }

  /** Operators become pseudo-filters appended to the left operand's filters; the right operand
      is the filter's one argument. A comparison reads only its first operator. As written a
      parenthesised expression, like any other node, falls to the access-chain case and has no
      text; corrected it converts as the expression inside the parentheses. */
  function ConvertExprNode(n: NjNode, t: string, mode: Mode): (r: Result<Expr, JsError>)
    ensures r.Ok? && BinaryFilterName(n.typename).Some? ==>
      |r.value.filters| > 0 && FilterName(r.value.filters[|r.value.filters| - 1]) == BinaryFilterName(n.typename).value
    ensures r.Ok? && n.typename == "Not" ==>
      |r.value.filters| > 0 && FilterName(r.value.filters[|r.value.filters| - 1]) == Name(LogicalNot)
    ensures n.typename == "Compare" && |n.ops| == 0 ==> r.Err?
    ensures n.typename == "Symbol" ==> r == Ok(Expr([n.value], []))
    ensures n.typename == "Group" && mode.AsWritten? ==> r == Ok(EMPTY_EXPRESSION)
    ensures n.typename == "Group" && mode.Corrected? && n.children.List? && |n.children.items| == 1
            ==> r == ConvertExprNode(n.children.items[0], t, mode)
    decreases n, 1
  {
    if n.typename == "Filter" then ParseFilterChain(n, t, mode)
    else if BinaryFilterName(n.typename).Some? then
      var l :- ConvertExpr(n.left, t, mode);
      var r :- ConvertExpr(n.right, t, mode);
      Ok(Expr(l.postfix, l.filters + [Generic(BinaryFilterName(n.typename).value, Args([r]))]))
    else if n.typename == "Compare" then
      var l :- ConvertExpr(n.expr, t, mode);
      if |n.ops| == 0 then Err(TypeError("expr"))
      else
        var r :- ConvertExpr(n.ops[0].expr, t, mode);
        Ok(Expr(l.postfix, l.filters + [Generic(CompareFilterName(n.ops[0].opType), Args([r]))]))
    else if n.typename == "Not" then
      var x :- ConvertExpr(n.target, t, mode);
      Ok(Expr(x.postfix, x.filters + [Generic(Name(LogicalNot), Args([]))]))
    else if n.typename == "Group" && mode.Corrected? && n.children.List? && |n.children.items| == 1 then
      ConvertExprNode(n.children.items[0], t, mode)
    else
      var p :- BuildPostfix(Some(n), t, mode);
      Ok(Expr(p, []))
  }

  /**
   * A filter application. Its first argument is the filtered value, unwound first so filters
   * come out innermost first; the rest are the filter's arguments. As written the filtered
   * value must itself be a filter or a simple expression (anything else loses its text);
   * corrected it may be any expression.
   */
  function ParseFilterChain(n: NjNode, t: string, mode: Mode): (r: Result<Expr, JsError>)
    ensures r.Ok? && n.typename == "Filter" ==> |r.value.filters| > 0
    ensures n.typename == "Filter" && n.args.None? ==> r.Err?
    ensures n.typename != "Filter" ==> r.Ok? ==> r.value.filters == []
    decreases n, 0
  {
    if n.typename != "Filter" then
      var p :- BuildPostfix(Some(n), t, mode);
      Ok(Expr(p, []))
    else if n.args.None? then Err(TypeError("children"))
    else if n.args.value.children.NoList? then Err(TypeError("0"))
    else
      var items := n.args.value.children.items;
      if |items| == 0 then Err(TypeError("typename"))
      else
        var b := items[0];
        var inner :- if mode.Corrected? && b.typename != "Filter" then ConvertExprNode(b, t, mode)
                     else ParseFilterChain(b, t, mode);
        if n.name.None? then Err(TypeError("value"))
        else
          var filterName := TemplateString(n.name.value.value);
          var args :- ConvertExprs(items, 1, t, mode);
          var f :- MakeFilter(filterName, items, args, t, mode);
          Ok(Expr(inner.postfix, inner.filters + [f]))
  }

  /** The expressions of `xs[i..]`, in order. */
  function ConvertExprs(xs: seq<NjNode>, i: nat, t: string, mode: Mode): (r: Result<seq<Expr>, JsError>)
    ensures r.Ok? ==> |r.value| == if i < |xs| then |xs| - i else 0
    decreases xs, if i < |xs| then |xs| - i else 0
  {
    if i >= |xs| then Ok([])
    else
      var h :- ConvertExprNode(xs[i], t, mode);
      var rest :- ConvertExprs(xs, i + 1, t, mode);
      Ok([h] + rest)
  }

  /** The filter an application builds, given the raw argument nodes (`items[0]` is the filtered
      value) and the converted positional arguments. */
  function MakeFilter(filterName: string, items: seq<NjNode>, args: seq<Expr>, t: string, mode: Mode)
    : (r: Result<Filter, JsError>)
    requires |items| >= 1
    ensures !HasFactory(filterName) ==> r.Ok? && r.value.Generic?
    ensures r.Ok? ==> FilterName(r.value)
                      == if !HasFactory(filterName) then FilterToIr(filterName)
                         else if filterName == "selectattr" then "where" else filterName
    decreases items, 0
  {
    if !HasFactory(filterName) then
      Ok(Generic(FilterToIr(filterName), if |args| > 0 then Args(args) else NoArgs))
    else if |items| > 1 && items[1].children.List? && |items[1].children.items| > 0
            && items[1].children.items[0].key.Some? then
      var pairs :- NamedArgs(items[1].children.items, 0, t, mode);
      if filterName == "sort" then Ok(Sort(Lookup(pairs, "attribute"), false))
      else if filterName == "selectattr" then
        Ok(Where(Or(Lookup(pairs, "attribute"), At(args, 0)), Or(Lookup(pairs, "value"), At(args, 1))))
      else Ok(Positional(filterName, args))
    else Ok(Positional(filterName, args))
  }

  /** The keyword arguments `key=value` of `xs[i..]`, in order. */
  function NamedArgs(xs: seq<NjNode>, i: nat, t: string, mode: Mode): Result<seq<(string, Expr)>, JsError>
    decreases xs, if i < |xs| then |xs| - i else 0
  {
    if i >= |xs| then Ok([])
    else if xs[i].key.None? then Err(TypeError("value"))
    else
      var v :- ConvertExpr(xs[i].valueNode, t, mode);
      var rest :- NamedArgs(xs, i + 1, t, mode);
      Ok([(TemplateString(xs[i].key.value.value), v)] + rest)
  }

  /** The value last given for a key: later keyword arguments overwrite earlier ones. */
  function Lookup(pairs: seq<(string, Expr)>, key: string): (r: Option<Expr>)
    ensures r.Some? <==> exists i :: 0 <= i < |pairs| && pairs[i].0 == key
  {
    if pairs == [] then None
    else if pairs[|pairs| - 1].0 == key then Some(pairs[|pairs| - 1].1)
    else
      var r := Lookup(pairs[..|pairs| - 1], key);
      assert forall i :: 0 <= i < |pairs| - 1 ==> pairs[..|pairs| - 1][i] == pairs[i];
      r
  }

  function At(args: seq<Expr>, i: nat): Option<Expr> {
    if i < |args| then Some(args[i]) else None
  }

  function Or(a: Option<Expr>, b: Option<Expr>): Option<Expr> {
    if a.Some? then a else b
  }

  /** A literal `true` at the head of an argument. */
  predicate IsTrueHead(e: Expr) {
    |e.postfix| > 0 && e.postfix[0] == Bool(true)
  }

  /** The special filter built from positional arguments. */
  function Positional(filterName: string, args: seq<Expr>): (r: Filter)
    requires HasFactory(filterName)
    ensures FilterName(r) == (if filterName == "selectattr" then "where" else filterName)
    ensures r.Truncate? ==> r.length == At(args, 0) && r.end == At(args, 2)
                            && (r.killWords <==> |args| > 1 && IsTrueHead(args[1]))
    ensures r.Replace? ==> r.pattern == At(args, 0) && r.replacement == At(args, 1) && r.flags == At(args, 2)
    ensures r.Where? ==> r.attribute == At(args, 0) && r.value == At(args, 1)
    ensures r.Sort? ==> r.attribute == At(args, 0) && (r.reverse <==> |args| > 1 && IsTrueHead(args[1]))
  {
    if filterName == "truncate" then
      Truncate(At(args, 0), At(args, 2), |args| > 1 && IsTrueHead(args[1]))
    else if filterName == "replace" then Replace(At(args, 0), At(args, 1), At(args, 2))
    else if filterName == "selectattr" then Where(At(args, 0), At(args, 1))
    else Sort(At(args, 0), |args| > 1 && IsTrueHead(args[1]))
  }

  // ---------------------------------------------------------------- comment placeholders

  /** The text after the first occurrence of `sep`, up to the next one: `s.split(sep)[1]`. */
  function SecondPiece(s: string, sep: string): string
    requires |sep| > 0 && Includes(s, sep)
  {
    var i := IndexOf(s, sep, 0).value;
    var rest := s[i + |sep|..];
    match IndexOf(rest, sep, 0)
    case None => rest
    case Some(j) => rest[..j]
  }

  /** As written: whatever `parseInt` reads after the mark selects a comment, if in range. */
  function CommentContentAsWritten(s: string, comments: seq<string>): (r: Prim)
    requires Includes(s, COMMENT_MARK)
    ensures r == Undefined || (r.Str? && r.s in comments)
  {
    match ParseInt(SecondPiece(s, COMMENT_MARK))
    case Some(i) => if 0 <= i < |comments| then Str(comments[i]) else Undefined
    case None => Undefined
  }

  /** The comment number a placeholder name spells, exactly. */
  function PlaceholderIndex(s: string): (r: Option<nat>)
    ensures r.Some? ==> s == PlaceholderName(r.value)
  {
    if |s| >= |COMMENT_MARK| + 3 && s[..|COMMENT_MARK|] == COMMENT_MARK && s[|s| - 2..] == "__" then
      var d := s[|COMMENT_MARK|..|s| - 2];
      if AllDigits(d) && NatToString(DigitsValue(d)) == d then
        assert s == COMMENT_MARK + d + "__";
        Some(DigitsValue(d))
      else None
    else None
  }

  lemma PlaceholderIndexOfName(k: nat)
    ensures PlaceholderIndex(PlaceholderName(k)) == Some(k)
  {
    var s := PlaceholderName(k);
    var d := NatToString(k);
    assert s[..|COMMENT_MARK|] == COMMENT_MARK;
    assert s[|s| - 2..] == "__";
    assert s[|COMMENT_MARK|..|s| - 2] == d;
    DigitsValueOfNatToString(k);
  }

  /** Whether an output's first child stands for a removed comment, and which comment text it
      becomes. As written, any string value containing the mark does; corrected, only a
      variable spelling a placeholder for a recorded comment does. */
  function CommentFor(child: NjNode, comments: seq<string>, mode: Mode): (r: Option<Prim>)
    ensures mode.AsWritten? ==> (r.Some? <==> child.value.Str? && Includes(child.value.s, COMMENT_MARK))
    ensures mode.Corrected? && r.Some? ==>
      child.typename == "Symbol" && child.value.Str? && PlaceholderIndex(child.value.s).Some?
      && PlaceholderIndex(child.value.s).value < |comments|
      && r.value == Str(comments[PlaceholderIndex(child.value.s).value])
  {
    match child.value
    case Str(s) =>
      if mode.AsWritten? then
        if Includes(s, COMMENT_MARK) then Some(CommentContentAsWritten(s, comments)) else None
      else
        (match PlaceholderIndex(s)
         case Some(k) => if child.typename == "Symbol" && k < |comments| then Some(Str(comments[k])) else None
         case None => None)
    case _ => None
  }

  // ---------------------------------------------------------------- outputs

  /** The template up to ten characters past the column mentions a raw block opener. */
  predicate RawPreceded(t: string, col: nat) {
    var before := Slice(t, 0, col + 10);
    Includes(before, "{% raw %}") || Includes(before, "{%raw%}")
  }

  /** `loop` at the head of a chain inside a loop body becomes the sentinel, and a following
      `revindex` its canonical name. */
  function CanonicalLoop(p: seq<Part>, inLoop: bool): (r: seq<Part>)
    ensures |r| == |p|
    ensures !inLoop ==> r == p
  {
    if inLoop && |p| > 0 && p[0] == Str("loop") then
      [Str(LOOP_VAR)] + (if |p| > 1 && p[1] == Str("revindex") then [Str(LOOP_REVINDEX)] + p[2..] else p[1..])
    else p
  }

  predicate IsOutputChildType(typename: string) {
    || typename == "TemplateData" || typename == "Symbol" || typename == "LookupVal"
    || typename == "Literal" || typename == "Neg" || typename == "Filter"
  }

  /** An output node made from the output's only child, classified by the child's type. */
  function ConvertOutputChild(child: NjNode, t: string, ctx: Context, mode: Mode): Result<IrNode, JsError>
    requires IsOutputChildType(child.typename)
  {
    var trims := ExtractWhitespaceControl(t, child.colno);
    if child.typename == "TemplateData" then Ok(Text(child.value))
    else if child.typename == "Symbol" then
      Ok(Output(Expr([child.value], []), trims.trimLeft, trims.trimRight))
    else if child.typename == "LookupVal" then
      var p :- BuildPostfix(Some(child), t, mode);
      Ok(Output(Expr(CanonicalLoop(p, ctx.inLoop), []), trims.trimLeft, trims.trimRight))
    else if child.typename == "Literal" then
      Ok(Output(Expr([LiteralPart(child, t)], []), trims.trimLeft, trims.trimRight))
    else if child.typename == "Neg" then
      var p :- NegPostfix(child);
      Ok(Output(Expr(p, []), trims.trimLeft, trims.trimRight))
    else
      var e :- ParseFilterChain(child, t, mode);
      Ok(Output(e, trims.trimLeft, trims.trimRight))
  }

  // ---------------------------------------------------------------- nodes

  /** The column a statement's whitespace control is looked for at: an absent one counts as 0. */
  function StatementCol(n: NjNode): Option<nat> {
    Some(n.colno.GetOr(0))
  }

  function ItemsOr(l: NjList): seq<NjNode> {
    match l
    case NoList => []
    case List(items) => items
  }

  /** The whole front-end, given the tree the external parser builds from the preprocessed
      text of `template`. */
  function Parse(template: string, root: NjNode, mode: Mode): (r: Result<seq<IrNode>, JsError>)
    ensures ItemsOr(root.children) == [] ==> r == Ok([])
  {
    var pre := Preprocess(template);
    ConvertNodes(ItemsOr(root.children), pre.text, Context(false, pre.comments), mode)
  }

  /** The nodes' conversions, concatenated. */
  function ConvertNodes(ns: seq<NjNode>, t: string, ctx: Context, mode: Mode): Result<seq<IrNode>, JsError>
    decreases ns, 5
  {
    if ns == [] then Ok([])
    else
      var h :- ConvertNode(ns[0], t, ctx, mode);
      var rest :- ConvertNodes(ns[1..], t, ctx, mode);
      Ok(h + rest)
  }

  /**
   * One node. An output is checked, in order: for a comment placeholder, for raw text, and for
   * an only child of a type it handles directly; anything else falls through to the checks
   * every node goes through.
   */
  function ConvertNode(n: NjNode, t: string, ctx: Context, mode: Mode): (r: Result<seq<IrNode>, JsError>)
    ensures n.typename == "Output" && ItemsOr(n.children) == [] ==> r.Err?
    ensures n.typename == "Output" && ItemsOr(n.children) != []
            && CommentFor(ItemsOr(n.children)[0], ctx.comments, mode).Some?
            ==> r == Ok([Comment(CommentFor(ItemsOr(n.children)[0], ctx.comments, mode).value)])
    decreases n, 4
  {
    if n.typename != "Output" then ConvertStatement(n, t, ctx, mode)
    else if n.children.NoList? then Err(TypeError("0"))
    else if |n.children.items| == 0 then Err(TypeError("value"))
    else
      var first := n.children.items[0];
      match CommentFor(first, ctx.comments, mode)
      case Some(content) => Ok([Comment(content)])
      case None =>
        if |n.children.items| == 1 then
          if first.typename == "TemplateData" && first.value.Str? && first.colno.Some?
             && RawPreceded(t, first.colno.value) then
            Ok([Raw(first.value, false, false)])
          else if IsOutputChildType(first.typename) then
            var o :- ConvertOutputChild(first, t, ctx, mode);
            Ok([o])
          else ConvertStatement(n, t, ctx, mode)
        else ConvertStatement(n, t, ctx, mode)
  }

  /** What the include check looks for, once set, for and if-like nodes are ruled out. */
  predicate IsIncludeNode(n: NjNode) {
    n.template.Some? && Truthy(n.template.value.value) && !n.ignoreMissing.Undefined?
  }

  predicate IsExpressionType(typename: string) {
    || typename == "Filter" || typename == "Symbol" || typename == "Literal" || typename == "Add"
    || typename == "Sub" || typename == "Mul" || typename == "Div" || typename == "Mod"
  }

  /** The checks every node goes through: set, for, if-like, include, container, bare
      expression; anything else is dropped. */
  function ConvertStatement(n: NjNode, t: string, ctx: Context, mode: Mode): (r: Result<seq<IrNode>, JsError>)
    ensures n.typename != "Set" && n.typename != "For" && !(n.cond.Some? && n.body.Some?) && IsIncludeNode(n)
            ==> r.Ok? && |r.value| == 1 && r.value[0].Include?
    ensures (&& n.typename != "Set" && n.typename != "For" && !(n.cond.Some? && n.body.Some?)
             && !IsIncludeNode(n) && n.children.NoList? && !IsExpressionType(n.typename))
            ==> r == Ok([])
    decreases n, 3
  {
    if n.typename == "Set" then ConvertSet(n, t, ctx, mode)
    else if n.typename == "For" then ConvertFor(n, t, ctx, mode)
    else if n.cond.Some? && n.body.Some? then ConvertIf(n, t, ctx, mode)
    else if IsIncludeNode(n) then
      var trims := ExtractWhitespaceControl(t, n.colno);
      var path := Str("'" + TemplateString(n.template.value.value) + "'");
      Ok([Include(Expr([path], []), trims.trimLeft, trims.trimRight)])
    else if n.children.List? then ConvertNodes(n.children.items, t, ctx, mode)
    else if IsExpressionType(n.typename) then
      var trims := ExtractWhitespaceControl(t, StatementCol(n));
      var e :- ConvertExprNode(n, t, mode);
      Ok([Output(e, trims.trimLeft, trims.trimRight)])
    else Ok([])
  }

  /** The names assigned to, joined by `, `. */
  function TargetNames(ts: seq<NjNode>): string {
    Join(seq(|ts|, i requires 0 <= i < |ts| => JoinString(ts[i].value)), ", ")
  }

  /** `{% set x = e %}`, `{% set x %}...{% endset %}`, or a set with neither. */
  function ConvertSet(n: NjNode, t: string, ctx: Context, mode: Mode): Result<seq<IrNode>, JsError>
    requires n.typename == "Set"
    decreases n, 2
  {
    if n.targets.NoList? then Err(TypeError("map"))
    else
      var target := TargetNames(n.targets.items);
      var trims := ExtractWhitespaceControl(t, StatementCol(n));
      if n.valueNode.Some? then
        var e :- ConvertExprNode(n.valueNode.value, t, mode);
        Ok([Assignment(target, Some(e), NoNodes, trims.trimLeft, trims.trimRight)])
      else if n.body.Some? && n.body.value.body.Some? && n.body.value.body.value.children.List? then
        var cs :- ConvertNodes(n.body.value.body.value.children.items, t, ctx, mode);
        Ok([Assignment(target, None, Nodes(cs), trims.trimLeft, trims.trimRight)])
      else Ok([Assignment(target, None, NoNodes, false, false)])
  }

  /** A for loop; its body and else children are converted inside the loop. */
  function ConvertFor(n: NjNode, t: string, ctx: Context, mode: Mode): Result<seq<IrNode>, JsError>
    requires n.typename == "For"
    decreases n, 2
  {
    if n.name.None? then Err(TypeError("value"))
    else
      var coll :- ConvertExpr(n.arr, t, mode);
      var inner := ctx.(inLoop := true);
      var cs :- if n.body.Some? && n.body.value.children.List? then
                  ConvertNodes(n.body.value.children.items, t, inner, mode)
                else Ok([]);
      var es :- if n.else_.Some? && n.else_.value.children.List? then
                  var es :- ConvertNodes(n.else_.value.children.items, t, inner, mode); Ok(Nodes(es))
                else Ok(NoNodes);
      var trims := ExtractWhitespaceControl(t, StatementCol(n));
      Ok([Loop(LoopArgs(n.name.value.value, coll), cs, es, trims.trimLeft, trims.trimRight)])
  }

  /** An if/elif/else chain, then the `unless` recognition. */
  function ConvertIf(n: NjNode, t: string, ctx: Context, mode: Mode): Result<seq<IrNode>, JsError>
    requires n.cond.Some? && n.body.Some?
    decreases n, 2
  {
    var bs :- IfChain(n, t, ctx, mode);
    var (variant, branches) := DetectUnless(bs);
    var trims := ExtractWhitespaceControl(t, StatementCol(n));
    Ok([Conditional(variant, branches, trims.trimLeft, trims.trimRight)])
  }

  /** The nodes of an if/elif chain that carry a condition, from `cur` on, following `else_`. */
  function ChainNodes(cur: NjNode): (r: seq<NjNode>)
    requires cur.cond.Some?
    ensures |r| >= 1 && r[0] == cur
    ensures forall i :: 0 <= i < |r| ==> r[i].cond.Some?
    decreases cur
  {
    match cur.else_
    case None => [cur]
    case Some(next) => if next.cond.Some? then [cur] + ChainNodes(next) else [cur]
  }

  /** The node that ends the chain without a condition: its else part, if it has one. */
  function ChainElse(cur: NjNode): (r: Option<NjNode>)
    requires cur.cond.Some?
    ensures r.Some? ==> r.value.cond.None?
    decreases cur
  {
    match cur.else_
    case None => None
    case Some(next) => if next.cond.Some? then ChainElse(next) else Some(next)
  }

  /** One branch per node of the chain that has a condition, following `else_`; a final
      `else_` without a condition is the else branch, the only one without a condition. */
  function IfChain(cur: NjNode, t: string, ctx: Context, mode: Mode): (r: Result<seq<Branch>, JsError>)
    requires cur.cond.Some?
    ensures r.Ok? ==> |r.value| >= 1 && r.value[0].condition.Some?
    ensures r.Ok? ==> forall i :: 0 < i < |r.value| - 1 ==> r.value[i].condition.Some?
    ensures r.Ok? ==> |r.value| == |ChainNodes(cur)| + (if ChainElse(cur).Some? then 1 else 0)
    ensures r.Ok? ==> forall i :: 0 <= i < |ChainNodes(cur)| ==> r.value[i].condition.Some?
    ensures r.Ok? ==> (r.value[|r.value| - 1].condition.None? <==> ChainElse(cur).Some?)
    decreases cur, 1
  {
    var c :- ConvertExprNode(cur.cond.value, t, mode);
    if cur.body.None? then Err(TypeError("children"))
    else
      var cs :- if cur.body.value.children.List? then
                  ConvertNodes(cur.body.value.children.items, t, ctx, mode)
                else Ok([]);
      var b := Branch(Some(c), cs);
      match cur.else_
      case None => Ok([b])
      case Some(next) =>
        if next.cond.Some? then
          var rest :- IfChain(next, t, ctx, mode);
          Ok([b] + rest)
        else
          var es :- if next.children.List? then ConvertNodes(next.children.items, t, ctx, mode)
                    else Ok([]);
          Ok([b, Branch(None, es)])
  }

  predicate IsNot(f: Filter) {
    FilterName(f) == Name(LogicalNot)
  }

  predicate HasNot(fs: seq<Filter>) {
    exists i :: 0 <= i < |fs| && IsNot(fs[i])
  }

  /** The filters other than `not`, in order. */
  function WithoutNot(fs: seq<Filter>): (r: seq<Filter>)
    ensures forall i :: 0 <= i < |r| ==> !IsNot(r[i]) && r[i] in fs
    ensures forall i :: 0 <= i < |fs| && !IsNot(fs[i]) ==> fs[i] in r
    ensures !HasNot(fs) ==> r == fs
  {
    if fs == [] then []
    else
      var rest := WithoutNot(fs[1..]);
      assert forall i :: 1 <= i < |fs| ==> fs[i] == fs[1..][i - 1];
      if IsNot(fs[0]) then rest else [fs[0]] + rest
  }

  /**
   * A chain is an `unless` when its first condition holds a `not` and it has only that branch,
   * or that branch and an empty else (which is dropped); the `not`s are then removed from the
   * first condition.
   */
  function DetectUnless(bs: seq<Branch>): (Variant, seq<Branch>)
    requires |bs| >= 1 && bs[0].condition.Some?
  {
    var c := bs[0].condition.value;
    var stripped := Branch(Some(Expr(c.postfix, WithoutNot(c.filters))), bs[0].children);
    if HasNot(c.filters) && |bs| == 1 then (UnlessVariant, [stripped])
    else if HasNot(c.filters) && |bs| == 2 && bs[1].condition.None? && bs[1].children == [] then
      (UnlessVariant, [stripped])
    else (IfVariant, bs)
  }
}
