/**
 * The Liquid back-end: prints Liquid-shaped nodes as Liquid template text. An output prints its
 * access chain and its filters as ` | name: arg, arg`; a conditional prints as an if/elsif/else,
 * unless or case/when block; a loop as a for block; a tag as its opening, its children and an
 * end tag unless it is one of the self-closing ones. Nodes of the shared IR's assignment, raw
 * and include types have no printer here and fail.
 */
module LiquidRender {
  import opened Wrappers
  import opened Js
  import Ir
  import opened LiquidIr

  // ---------------------------------------------------------------- delimiters

  function OutputOpen(trim: bool): string { if trim then "{{-" else "{{" }
  function OutputClose(trim: bool): string { if trim then "-}}" else "}}" }
  function TagOpen(trim: bool): string { if trim then "{%-" else "{%" }
  function TagClose(trim: bool): string { if trim then "-%}" else "%}" }

  /** A statement tag `{% body %}` with the given whitespace control. */
  function Stmt(trimLeft: bool, trimRight: bool, body: string): string {
    TagOpen(trimLeft) + " " + body + " " + TagClose(trimRight)
  }

  // ---------------------------------------------------------------- outputs

  /** How a later element of an access path prints: an index in brackets, anything else as a
      property. */
  function PathPart(p: Prim): string {
    if p.Num? then "[" + IntToString(p.n) + "]" else "." + TemplateString(p)
  }

  function PathTail(ps: seq<Prim>): string {
    if ps == [] then "" else PathPart(ps[0]) + PathTail(ps[1..])
  }

  /** An access path: its root as it is, then each later element. */
  function AccessPath(ps: seq<Prim>): string {
    if ps == [] then "" else JoinString(ps[0]) + PathTail(ps[1..])
  }

  /** One filter: `name`, or `name: a1, a2` when it has arguments. */
  function FilterText(f: Filter): string {
    if f.args.Some? && |f.args.value| > 0 then f.name + ": " + Join(f.args.value, ", ") else f.name
  }

  function FilterTexts(fs: seq<Filter>): (r: seq<string>)
    ensures |r| == |fs| && forall i :: 0 <= i < |fs| ==> r[i] == FilterText(fs[i])
  {
    seq(|fs|, i requires 0 <= i < |fs| => FilterText(fs[i]))
  }

  /** The filter pipeline after the access path: nothing without filters. */
  function FilterPipe(fs: seq<Filter>): string {
    if |fs| > 0 then " | " + Join(FilterTexts(fs), " | ") else ""
  }

  /** A condition as a template literal prints it: a missing one prints as `null`. */
  function ConditionText(c: Option<string>): string {
    if c.Some? then c.value else "null"
  }

  /** Whether a branch's condition is truthy: present and non-empty. */
  predicate HasCondition(b: Branch) {
    b.condition.Some? && b.condition.value != ""
  }

  // ---------------------------------------------------------------- nodes

  function UnsupportedType(n: Node): string {
    "Unsupported IR node type: " + TypeName(n)
  }

  /** The tags that are printed without children or end tag. */
  predicate SelfClosing(name: string) {
    name == "assign" || name == "include" || name == "break" || name == "continue"
  }

  /** The whole back-end: the concatenation of the nodes' texts. */
  function Render(ir: seq<Node>): (r: Result<string, JsError>)
    ensures ir == [] ==> r == Ok("")
    ensures |ir| == 1 ==> r == RenderNode(ir[0])
  {
    if |ir| == 1 then
      assert ir[1..] == [];
      assert RenderNodes(ir[1..]) == Ok("");
      assert RenderNode(ir[0]).Ok? ==> RenderNode(ir[0]).value + "" == RenderNode(ir[0]).value;
      RenderNodes(ir)
    else RenderNodes(ir)
  }

  function RenderNodes(ns: seq<Node>): Result<string, JsError>
    decreases ns, 2
  {
    if ns == [] then Ok("")
    else
      var h :- RenderNode(ns[0]);
      var t :- RenderNodes(ns[1..]);
      Ok(h + t)
  }

  function RenderNode(n: Node): (r: Result<string, JsError>)
    ensures n.Foreign? ==> r == Err(Thrown(UnsupportedType(n)))
    ensures n.Text? || n.Output? || n.Comment? ==> r.Ok?
    decreases n, 1
  {
    match n
    case Text(content) => Ok(content)
    case Output(p, fs, tl, tr) => Ok(OutputOpen(tl) + " " + AccessPath(p) + FilterPipe(fs) + " " + OutputClose(tr))
    case Conditional(_, _, _, _) => RenderConditional(n)
    case Loop(_, _, _, _, _) => RenderLoop(n)
    case Comment(content) => Ok("{% comment %}" + content + "{% endcomment %}")
    case Tag(_, _, _, _, _) => RenderTag(n)
    case Foreign(_) => Err(Thrown(UnsupportedType(n)))
  }

  /** A case prints its subject, its when/else branches and `endcase`, never the subject
      branch's children; an unless prints its first branch only; an if prints every branch. */
  function RenderConditional(n: Node): Result<string, JsError>
    requires n.Conditional?
    decreases n, 0
  {
    var bs, tl, tr := n.branches, n.trimLeft, n.trimRight;
    match n.variant
    case CaseVariant =>
      if bs == [] then Err(TypeError("condition"))
      else
        var whens :- RenderWhens(bs, 1, tl, tr);
        Ok(Stmt(tl, tr, "case " + ConditionText(bs[0].condition)) + whens + Stmt(tl, tr, "endcase"))
    case UnlessVariant =>
      if bs == [] then Err(TypeError("condition"))
      else
        var body :- RenderNodes(bs[0].children);
        Ok(Stmt(tl, tr, "unless " + ConditionText(bs[0].condition)) + body + Stmt(tl, tr, "endunless"))
    case IfVariant =>
      var s :- RenderIfBranches(bs, 0, tl, tr);
      Ok(s + Stmt(tl, tr, "endif"))
  }

  /** The when/else branches of a case, from index `i` on. */
  function RenderWhens(bs: seq<Branch>, i: nat, tl: bool, tr: bool): Result<string, JsError>
    decreases bs, |bs| - i
  {
    if i >= |bs| then Ok("")
    else
      var h :- RenderWhen(bs[i], tl, tr);
      var t :- RenderWhens(bs, i + 1, tl, tr);
      Ok(h + t)
  }

  function RenderWhen(b: Branch, tl: bool, tr: bool): Result<string, JsError>
    decreases b
  {
    var body :- RenderNodes(b.children);
    Ok(Stmt(tl, tr, if HasCondition(b) then "when " + b.condition.value else "else") + body)
  }

  /** The branches of an if, from index `i` on. */
  function RenderIfBranches(bs: seq<Branch>, i: nat, tl: bool, tr: bool): Result<string, JsError>
    decreases bs, |bs| - i
  {
    if i >= |bs| then Ok("")
    else
      var h :- RenderIfBranch(bs[i], i == 0, tl, tr);
      var t :- RenderIfBranches(bs, i + 1, tl, tr);
      Ok(h + t)
  }

  /** The opening of an if branch: `if` for the first, `elsif` for a later one with a
      condition, `else` otherwise. */
  function IfOpening(b: Branch, first: bool): string {
    if first then "if " + ConditionText(b.condition)
    else if HasCondition(b) then "elsif " + b.condition.value
    else "else"
  }

  function RenderIfBranch(b: Branch, first: bool, tl: bool, tr: bool): Result<string, JsError>
    decreases b
  {
    var body :- RenderNodes(b.children);
    Ok(Stmt(tl, tr, IfOpening(b, first)) + body)
  }

  /** The loop tag with its raw arguments, the body, an else part only for a non-empty else
      list, and `endfor`. */
  function RenderLoop(n: Node): Result<string, JsError>
    requires n.Loop?
    decreases n, 0
  {
    var tl, tr := n.trimLeft, n.trimRight;
    var children :- RenderNodes(n.children);
    var elseClause :- if n.elseChildren.Nodes? && |n.elseChildren.items| > 0 then
                        (var e :- RenderNodes(n.elseChildren.items); Ok(Stmt(tl, tr, "else") + e))
                      else Ok("");
    Ok(Stmt(tl, tr, "for " + n.args) + children + elseClause + Stmt(tl, tr, "endfor"))
  }

  /** A tag's opening with its raw arguments; then, unless self-closing, its children and its
      end tag. */
  function RenderTag(n: Node): Result<string, JsError>
    requires n.Tag?
    decreases n, 0
  {
    var tl, tr := n.trimLeft, n.trimRight;
    var opening := Stmt(tl, tr, n.name + (if n.args != "" then " " + n.args else ""));
    if SelfClosing(n.name) then Ok(opening)
    else
      var c :- RenderNodes(n.children);
      Ok(opening + c + Stmt(tl, tr, "end" + n.name))
  }
}
