/**
 * The Nunjucks back-end: prints IR nodes as Nunjucks template text. An expression prints as its
 * access chain, then its operator pseudo-filters folded into infix text left to right, then its
 * ordinary filters as a ` | name(args)` pipeline. Rendering can fail the way the JavaScript
 * does: an explicit throw, or a TypeError when a required field is absent.
 */
module NunjucksRender {
  import opened Wrappers
  import opened Js
  import opened IrConstants
  import opened Ir

  /** Whether an operator's right-hand argument is printed as the source does (never grouped)
      or grouped when its own top operator binds no tighter (see README, Findings). */
  datatype Mode = AsWritten | Corrected

  // ---------------------------------------------------------------- tables

  /** The Nunjucks spelling of a canonical filter name; other names print unchanged. */
  function NunjucksFilterName(name: string): string {
    if name == Name(Uppercase) then "upper"
    else if name == Name(Lowercase) then "lower"
    else if name == Name(TrimSpace) then "trim"
    else name
  }

  /** The infix spelling of each operator pseudo-filter. */
  function OperatorSymbol(c: Canonical): Option<string> {
    match c
    case Add => Some("+")
    case Subtract => Some("-")
    case Multiply => Some("*")
    case Divide => Some("/")
    case Modulo => Some("%")
    case CompareEq => Some("==")
    case CompareNe => Some("!=")
    case CompareGt => Some(">")
    case CompareGte => Some(">=")
    case CompareLt => Some("<")
    case CompareLte => Some("<=")
    case LogicalAnd => Some("and")
    case LogicalOr => Some("or")
    case Contains => Some("in")
    case _ => None
  }

  /** Binding strength of the operators (higher binds tighter). */
  function Precedence(c: Canonical): nat {
    match c
    case LogicalOr => 1
    case LogicalAnd => 2
    case CompareEq => 3
    case CompareNe => 3
    case CompareGt => 3
    case CompareGte => 3
    case CompareLt => 3
    case CompareLte => 3
    case Contains => 3
    case Add => 4
    case Subtract => 4
    case Multiply => 5
    case Divide => 5
    case Modulo => 5
    case _ => 0
  }

  /** The operator a filter name denotes, if it denotes one. */
  function OperatorOf(name: string): (r: Option<Canonical>)
    ensures r.Some? ==> Name(r.value) == name && OperatorSymbol(r.value).Some?
    ensures r.None? ==> forall c: Canonical :: Name(c) == name ==> OperatorSymbol(c).None?
  {
    match FromName(name)
    case Some(c) => if OperatorSymbol(c).Some? then Some(c) else None
    case None => None
  }

  /** An operator's own name denotes it. */
  lemma OperatorOfName(c: Canonical)
    requires OperatorSymbol(c).Some?
    ensures OperatorOf(Name(c)) == Some(c)
  {
    FromNameOfName(c);
  }

  lemma OperatorsArePrecedenced(c: Canonical)
    ensures OperatorSymbol(c).Some? <==> Precedence(c) > 0
    ensures OperatorSymbol(c).Some? ==> Precedence(c) <= 5
  {
  }

  // ---------------------------------------------------------------- access chains

  /** How the root of an access chain prints. */
  function HeadText(p: Part): string {
    if p == Null then "null"
    else if p == Str("") then "''"
    else if p == Str(LOOP_VAR) then "loop"
    else JoinString(p)
  }

  /** How a later element of an access chain prints, given the chain's root. */
  function PartText(head: Part, p: Part): string {
    if p.Num? then "[" + IntToString(p.n) + "]"
    else if head == Str(LOOP_VAR) && p == Str(LOOP_REVINDEX) then ".revindex"
    else "." + TemplateString(p)
  }

  function TailText(head: Part, rest: seq<Part>): string {
    if rest == [] then "" else PartText(head, rest[0]) + TailText(head, rest[1..])
  }

  function RenderPostfix(p: seq<Part>): string {
    if p == [] then "" else HeadText(p[0]) + TailText(p[0], p[1..])
  }

  /** Extending an access chain appends the new element's text. */
  lemma {:induction false} RenderPostfixSnoc(p: seq<Part>, x: Part)
    requires p != []
    ensures RenderPostfix(p + [x]) == RenderPostfix(p) + PartText(p[0], x)
  {
    assert (p + [x])[1..] == p[1..] + [x];
    TailTextSnoc(p[0], p[1..], x);
  }

  lemma {:induction false} TailTextSnoc(head: Part, rest: seq<Part>, x: Part)
    ensures TailText(head, rest + [x]) == TailText(head, rest) + PartText(head, x)
  {
    if rest == [] {
      assert [x][1..] == [];
    } else {
      assert (rest + [x])[1..] == rest[1..] + [x];
      TailTextSnoc(head, rest[1..], x);
    }
  }

  /** The canonical reverse-index property prints as `revindex` only on the loop sentinel. */
  lemma RevindexOnlyOnLoop(head: Part)
    ensures RenderPostfix([head, Str(LOOP_REVINDEX)])
         == HeadText(head) + (if head == Str(LOOP_VAR) then ".revindex" else "." + LOOP_REVINDEX)
  {
    var x := Str(LOOP_REVINDEX);
    assert [head, x][1..] == [x];
    assert [x][1..] == [];
    assert TailText(head, [x]) == PartText(head, x);
    assert RenderPostfix([head, x]) == HeadText(head) + PartText(head, x);
  }

  // ---------------------------------------------------------------- expressions

  /** The fold state over the filter list: the infix text so far, the pipeline text so far,
      and the precedence of the operator applied last (none before the first). */
  datatype Acc = Acc(expression: string, filterStr: string, last: Option<nat>)

  function Paren(s: string): string {
    "(" + s + ")"
  }

  /** Whether the filter is printed into the infix text rather than into the pipeline:
      an operator, logical negation, or another comparison- or logic-prefixed name. */
  predicate IsInline(f: Filter) {
    var n := FilterName(f);
    OperatorOf(n).Some? || n == Name(LogicalNot) || StartsWith(n, "__COMPARE_") || StartsWith(n, "__LOGICAL_")
  }

  /** The last operator among the filters: the top operator of the infix text they build. */
  function LastOperator(fs: seq<Filter>): Option<Canonical> {
    if fs == [] then None
    else match OperatorOf(FilterName(fs[|fs| - 1]))
      case Some(c) => Some(c)
      case None => LastOperator(fs[..|fs| - 1])
  }

  lemma LastOperatorSnoc(fs: seq<Filter>, f: Filter)
    ensures LastOperator(fs + [f])
         == if OperatorOf(FilterName(f)).Some? then OperatorOf(FilterName(f)) else LastOperator(fs)
  {
    assert (fs + [f])[|fs + [f]| - 1] == f;
    assert (fs + [f])[..|fs + [f]| - 1] == fs;
  }

  /** Whether an operator argument must be grouped to keep its meaning as a right operand
      of an operator of precedence `p`. */
  predicate NeedsGroup(arg: Expr, p: nat) {
    match LastOperator(arg.filters)
    case Some(q) => Precedence(q) <= p
    case None => false
  }

  /** The rendered arguments of an operator of precedence `p`, each in parentheses exactly when
      it needs grouping. */
  function Grouped(args: seq<Expr>, rendered: seq<string>, p: nat): (r: seq<string>)
    requires |args| == |rendered|
    ensures |r| == |rendered|
    ensures forall i :: 0 <= i < |r| ==> r[i] == if NeedsGroup(args[i], p) then Paren(rendered[i]) else rendered[i]
    ensures (forall i :: 0 <= i < |args| ==> !NeedsGroup(args[i], p)) ==> r == rendered
  {
    if args == [] then []
    else
      var head := if NeedsGroup(args[0], p) then Paren(rendered[0]) else rendered[0];
      var t := Grouped(args[1..], rendered[1..], p);
      GroupedCons(args, rendered, p, head, t);
      [head] + t
  }

  /** Grouping the head in front of the grouped tail groups every index. */
  lemma GroupedCons(args: seq<Expr>, rendered: seq<string>, p: nat, head: string, t: seq<string>)
    requires |args| == |rendered| > 0 && |t| == |rendered| - 1
    requires head == if NeedsGroup(args[0], p) then Paren(rendered[0]) else rendered[0]
    requires forall i :: 0 <= i < |t| ==> t[i] == if NeedsGroup(args[1..][i], p) then Paren(rendered[1..][i]) else rendered[1..][i]
    ensures forall i :: 0 <= i < |t| + 1 ==> ([head] + t)[i] == if NeedsGroup(args[i], p) then Paren(rendered[i]) else rendered[i]
  {
    forall i | 1 <= i < |t| + 1
      ensures ([head] + t)[i] == if NeedsGroup(args[i], p) then Paren(rendered[i]) else rendered[i]
    {
      assert args[1..][i - 1] == args[i] && rendered[1..][i - 1] == rendered[i];
    }
  }

  /** Whether a where filter's value is the literal `true`, which Nunjucks' selectattr implies. */
  predicate IsTrueLiteral(e: Expr) {
    |e.postfix| > 0 && (e.postfix[0] == Bool(true) || e.postfix[0] == Str("true"))
  }

  /** Whether a filter chain uses a named-parameter filter (a sort by attribute). */
  predicate HasNamedParams(fs: seq<Filter>) {
    exists i :: 0 <= i < |fs| && fs[i].Sort? && fs[i].attribute.Some?
  }

  /** An expression: its access chain, its operators folded into infix text, its pipeline, and
      parentheses around the whole when several filters include a named parameter. */
  function RenderExpr(e: Expr, mode: Mode): (r: Result<string, JsError>)
    ensures e.filters == [] ==> r == Ok(RenderPostfix(e.postfix))
    decreases e, 0
  {
    var acc :- RenderFilters(e.filters, Acc(RenderPostfix(e.postfix), "", None), mode);
    var result := acc.expression + acc.filterStr;
    assert e.filters == [] ==> result == RenderPostfix(e.postfix) + "" == RenderPostfix(e.postfix);
    Ok(if |e.filters| > 1 && HasNamedParams(e.filters) then Paren(result) else result)
  }

  /** A required expression field: reading it when absent is a TypeError. */
  function RenderRequired(o: Option<Expr>, mode: Mode): Result<string, JsError>
    decreases o, 0
  {
    match o
    case Some(e) => RenderExpr(e, mode)
    case None => Err(TypeError("postfix"))
  }

  function RenderAll(es: seq<Expr>, mode: Mode): (r: Result<seq<string>, JsError>)
    ensures r.Ok? ==> |r.value| == |es|
    decreases es, 0
  {
    if es == [] then Ok([])
    else
      var h :- RenderExpr(es[0], mode);
      var t :- RenderAll(es[1..], mode);
      Ok([h] + t)
  }

  function RenderFilters(fs: seq<Filter>, acc: Acc, mode: Mode): Result<Acc, JsError>
    decreases fs, 0
  {
    if fs == [] then Ok(acc)
    else
      var a :- RenderFilter(fs[0], acc, mode);
      RenderFilters(fs[1..], a, mode)
  }

  function RenderFilterArgs(f: Filter, mode: Mode): (r: Result<seq<string>, JsError>)
    ensures r.Ok? ==> |r.value| == |ArgList(f)|
    decreases f, 0
  {
    if f.Generic? && f.args.Args? then RenderAll(f.args.items, mode) else Ok([])
  }

  /** One filter step: an inline filter changes only the infix text and the last precedence, a
      pipeline filter only the pipe text. */
  function RenderFilter(f: Filter, acc: Acc, mode: Mode): (r: Result<Acc, JsError>)
    ensures r.Ok? && IsInline(f) ==> r.value.filterStr == acc.filterStr
    ensures r.Ok? && !IsInline(f) ==> r.value.expression == acc.expression && r.value.last == acc.last
    ensures r.Ok? && !IsInline(f) ==> |r.value.filterStr| > |acc.filterStr|
    decreases f, 2
  {
    var rendered :- RenderFilterArgs(f, mode);
    if IsInline(f) then
      var (e, l) := InlineStep(f, rendered, acc.expression, acc.last, mode);
      Ok(Acc(e, acc.filterStr, l))
    else
      var t :- PipeText(f, Join(rendered, ", "), mode);
      Ok(Acc(acc.expression, acc.filterStr + " | " + t, acc.last))
  }

  /** The infix text and last precedence after applying an inline filter. */
  function InlineStep(f: Filter, rendered: seq<string>, x: string, last: Option<nat>, mode: Mode)
    : (r: (string, Option<nat>))
    requires |rendered| == |ArgList(f)|
    ensures OperatorOf(FilterName(f)).Some? ==> r.1 == Some(Precedence(OperatorOf(FilterName(f)).value))
    ensures OperatorOf(FilterName(f)).None? ==> r.1 == last
  {
    match OperatorOf(FilterName(f))
    case Some(c) =>
      var p := Precedence(c);
      var lhs := if last.Some? && last.value < p then Paren(x) else x;
      var rhs := if mode.AsWritten? then Join(rendered, ", ") else Join(Grouped(ArgList(f), rendered, p), ", ");
      (lhs + " " + OperatorSymbol(c).value + " " + rhs, Some(p))
    case None =>
      if FilterName(f) == Name(LogicalNot) then ("not " + x, last)
      else (Paren(x + " undefined " + Join(rendered, ", ")), last)
  }

  /** The pipeline text of an ordinary or special filter, without the leading ` | `. */
  function PipeText(f: Filter, filterArgs: string, mode: Mode): Result<string, JsError>
    decreases f, 1
  {
    var nj := NunjucksFilterName(FilterName(f));
    if IsSpecialName(FilterName(f)) then RenderSpecial(f, nj, mode)
    else Ok(if |filterArgs| > 0 then nj + "(" + filterArgs + ")" else nj)
  }

  function RenderSpecial(f: Filter, nj: string, mode: Mode): Result<string, JsError>
    decreases f, 0
  {
    match f
    case Truncate(length, end, killWords) =>
      var l :- RenderRequired(length, mode);
      var e :- if end.Some? then RenderExpr(end.value, mode) else Ok("'...'");
      Ok(nj + "(" + l + ", " + (if killWords then "true" else "false") + ", " + e + ")")
    case Replace(pattern, replacement, flags) =>
      var o :- RenderRequired(pattern, mode);
      var n :- RenderRequired(replacement, mode);
      var a :- if flags.Some? then (var fl :- RenderExpr(flags.value, mode); Ok(o + ", " + n + ", " + fl))
               else Ok(o + ", " + n);
      Ok(nj + "(" + a + ")")
    case Where(attribute, value) =>
      var a :- RenderRequired(attribute, mode);
      if value.Some? && !IsTrueLiteral(value.value) then
        var v :- RenderExpr(value.value, mode);
        Ok("selectattr(" + a + ", " + v + ")")
      else Ok("selectattr(" + a + ")")
    case Sort(attribute, reverse) =>
      var named :- if attribute.Some? then (var a :- RenderExpr(attribute.value, mode); Ok(["attribute=" + a]))
                   else Ok([]);
      var parts := if reverse then named + ["reverse=true"] else named;
      Ok(if |parts| > 0 then nj + "(" + Join(parts, ", ") + ")" else nj)
    case Generic(name, _) =>
      // a special name on the generic shape: the fields its printer reads are absent
      if name == "sort" then Ok(nj) else Err(TypeError("postfix"))
  }

  /** A branch condition: an else branch's missing condition prints as nothing. */
  function RenderCondition(c: Option<Expr>, mode: Mode): Result<string, JsError> {
    match c
    case Some(e) => RenderExpr(e, mode)
    case None => Ok("")
  }

  // ---------------------------------------------------------------- nodes

  function OutputOpen(trim: bool): string { if trim then "{{-" else "{{" }
  function OutputClose(trim: bool): string { if trim then "-}}" else "}}" }
  function TagOpen(trim: bool): string { if trim then "{%-" else "{%" }
  function TagClose(trim: bool): string { if trim then "-%}" else "%}" }

  /** A statement tag `{% body %}` with the given whitespace control. */
  function Stmt(trimLeft: bool, trimRight: bool, body: string): string {
    TagOpen(trimLeft) + " " + body + " " + TagClose(trimRight)
  }

  function UnsupportedStatement(name: string): string {
    "Nunjucks does not support '" + name
      + "' statements. Consider restructuring your loop logic with conditional statements instead."
  }

  /** The whole back-end: the concatenation of the nodes' texts. */
  function Render(ir: seq<IrNode>, mode: Mode): (r: Result<string, JsError>)
    ensures ir == [] ==> r == Ok("")
    ensures |ir| == 1 ==> r == RenderNode(ir[0], mode)
  {
    if |ir| == 1 then
      assert ir[1..] == [];
      assert RenderNodes(ir[1..], mode) == Ok("");
      assert RenderNode(ir[0], mode).Ok? ==> RenderNode(ir[0], mode).value + "" == RenderNode(ir[0], mode).value;
      RenderNodes(ir, mode)
    else RenderNodes(ir, mode)
  }

  function RenderNodes(ns: seq<IrNode>, mode: Mode): Result<string, JsError>
    decreases ns, 2
  {
    if ns == [] then Ok("")
    else
      var h :- RenderNode(ns[0], mode);
      var t :- RenderNodes(ns[1..], mode);
      Ok(h + t)
  }

  /** One node. A text node's content is handed back as is, so what appears is how the
      enclosing `join("")` prints it. */
  function RenderNode(n: IrNode, mode: Mode): (r: Result<string, JsError>)
    ensures n.Tag? && (n.name == "break" || n.name == "continue") ==> r == Err(Thrown(UnsupportedStatement(n.name)))
    ensures n.Text? || n.Comment? || n.Raw? ==> r.Ok?
    decreases n, 1
  {
    match n
    case Text(content) => Ok(JoinString(content))
    case Output(e, tl, tr) => RenderOutput(e, tl, tr, mode)
    case Conditional(_, _, _, _) => RenderConditional(n, mode)
    case Loop(_, _, _, _, _) => RenderLoop(n, mode)
    case Comment(content) => Ok("{# " + TemplateString(content) + " #}")
    case Assignment(_, _, _, _, _) => RenderAssignment(n, mode)
    case Raw(content, tl, tr) => Ok(Stmt(tl, tr, "raw") + TemplateString(content) + Stmt(tl, tr, "endraw"))
    case Include(template, tl, tr) => RenderInclude(template, tl, tr, mode)
    case Tag(_, _, _, _, _) => RenderTag(n, mode)
  }

  function RenderOutput(e: Expr, tl: bool, tr: bool, mode: Mode): Result<string, JsError> {
    var s :- RenderExpr(e, mode);
    Ok(OutputOpen(tl) + " " + s + " " + OutputClose(tr))
  }

  function RenderInclude(template: Expr, tl: bool, tr: bool, mode: Mode): Result<string, JsError> {
    var s :- RenderExpr(template, mode);
    Ok(Stmt(tl, tr, "include " + s))
  }

  /** An if prints its branches in order; an unless becomes `if not` over its first branch; a
      case becomes an if chain comparing the subject (its first branch) with each when value. */
  function RenderConditional(n: IrNode, mode: Mode): Result<string, JsError>
    requires n.Conditional?
    decreases n, 0
  {
    var bs, tl, tr := n.branches, n.trimLeft, n.trimRight;
    match n.variant
    case UnlessVariant =>
      if bs == [] then Err(TypeError("condition"))
      else
        var c :- RenderCondition(bs[0].condition, mode);
        var body :- RenderNodes(bs[0].children, mode);
        Ok(Stmt(tl, tr, "if not " + c) + body + Stmt(tl, tr, "endif"))
    case CaseVariant =>
      if bs == [] then Err(TypeError("condition"))
      else
        var subject :- RenderCondition(bs[0].condition, mode);
        var whens :- RenderWhens(bs, 1, subject, tl, tr, mode);
        Ok(whens + Stmt(tl, tr, "endif"))
    case IfVariant =>
      var s :- RenderIfBranches(bs, 0, tl, tr, mode);
      Ok(s + Stmt(tl, tr, "endif"))
  }

  /** The loop tag, the body, an else part only for a non-empty else list, and `endfor`. */
  function RenderLoop(n: IrNode, mode: Mode): Result<string, JsError>
    requires n.Loop?
    decreases n, 0
  {
    var tl, tr := n.trimLeft, n.trimRight;
    var children :- RenderNodes(n.children, mode);
    var elseClause :- if n.elseChildren.Nodes? && |n.elseChildren.items| > 0 then
                        (var e :- RenderNodes(n.elseChildren.items, mode); Ok(Stmt(tl, tr, "else") + e))
                      else Ok("");
    var coll :- RenderExpr(n.args.collection, mode);
    Ok(Stmt(tl, tr, "for " + TemplateString(n.args.variable) + " in " + coll) + children + elseClause + Stmt(tl, tr, "endfor"))
  }

  /** Inline `set x = e`, or block `set x` ... `endset` when there is no value. */
  function RenderAssignment(n: IrNode, mode: Mode): Result<string, JsError>
    requires n.Assignment?
    decreases n, 0
  {
    var tl, tr := n.trimLeft, n.trimRight;
    match n.value
    case None =>
      if n.body.NoNodes? then Err(TypeError("map"))
      else
        var c :- RenderNodes(n.body.items, mode);
        Ok(Stmt(tl, tr, "set " + n.target) + c + Stmt(tl, tr, "endset"))
    case Some(e) =>
      var s :- RenderExpr(e, mode);
      Ok(Stmt(tl, tr, "set " + n.target + " = " + s))
  }

  /** A generic tag with its body and end tag; `include` is self-closing, and `break` and
      `continue` have no Nunjucks form. */
  function RenderTag(n: IrNode, mode: Mode): Result<string, JsError>
    requires n.Tag?
    decreases n, 0
  {
    var tl, tr := n.trimLeft, n.trimRight;
    var argsText := if n.tagArgs != "" then " " + n.tagArgs else "";
    if n.name == "break" || n.name == "continue" then Err(Thrown(UnsupportedStatement(n.name)))
    else
      var opening := Stmt(tl, tr, n.name + argsText);
      if n.name == "include" then Ok(opening)
      else
        var c :- RenderNodes(n.children, mode);
        Ok(opening + c + Stmt(tl, tr, "end" + n.name))
  }

  /** The when/else branches of a case, from index `i` on; the first when opens with `if`. */
  function RenderWhens(bs: seq<Branch>, i: nat, subject: string, tl: bool, tr: bool, mode: Mode): Result<string, JsError>
    decreases bs, |bs| - i
  {
    if i >= |bs| then Ok("")
    else
      var h :- RenderWhen(bs[i], i == 1, subject, tl, tr, mode);
      var t :- RenderWhens(bs, i + 1, subject, tl, tr, mode);
      Ok(h + t)
  }

  function RenderWhen(b: Branch, first: bool, subject: string, tl: bool, tr: bool, mode: Mode): Result<string, JsError>
    decreases b
  {
    match b.condition
    case Some(c) =>
      var cs :- RenderExpr(c, mode);
      var body :- RenderNodes(b.children, mode);
      Ok(Stmt(tl, tr, (if first then "if" else "elif") + " " + subject + " == " + cs) + body)
    case None =>
      var body :- RenderNodes(b.children, mode);
      Ok(Stmt(tl, tr, "else") + body)
  }

  /** The branches of an if, from index `i` on. */
  function RenderIfBranches(bs: seq<Branch>, i: nat, tl: bool, tr: bool, mode: Mode): Result<string, JsError>
    decreases bs, |bs| - i
  {
    if i >= |bs| then Ok("")
    else
      var h :- RenderIfBranch(bs[i], i == 0, tl, tr, mode);
      var t :- RenderIfBranches(bs, i + 1, tl, tr, mode);
      Ok(h + t)
  }

  function RenderIfBranch(b: Branch, first: bool, tl: bool, tr: bool, mode: Mode): Result<string, JsError>
    decreases b
  {
    var opening :-
      if first then (var c :- RenderCondition(b.condition, mode); Ok(Stmt(tl, tr, "if " + c)))
      else if b.condition.Some? then (var c :- RenderCondition(b.condition, mode); Ok(Stmt(tl, tr, "elif " + c)))
      else Ok(Stmt(tl, tr, "else"));
    var body :- RenderNodes(b.children, mode);
    Ok(opening + body)
  }
}
