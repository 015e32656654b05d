/**
 * The Liquid front-end: from the external parser's templates to the Liquid node shape. Every
 * template becomes exactly one node. Text and outputs are copied; string literals and filter
 * arguments are sliced verbatim from the input; a tag with branches becomes a conditional, a
 * block tag a capture or a loop, and a comment or raw block is recovered from the input text.
 * Any other tag passes through without children; any other token kind is an error.
 */
module LiquidParse {
  import opened Wrappers
  import opened Js
  import Ir
  import opened LiquidTemplate
  import L = LiquidIr

  const COMMENT_OPEN: string := "{% comment %}"
  const COMMENT_CLOSE: string := "{% endcomment %}"

  // ---------------------------------------------------------------- source slices

  /** The text of a range, with `slice`'s reading of absent bounds: the start, or the end, of
      the input. */
  function SpanText(input: string, s: Span): (r: string)
    ensures s.begin.Some? && s.end.Some? && s.begin.value <= s.end.value <= |input| ==>
      r == input[s.begin.value..s.end.value]
    ensures s.begin.None? && s.end.None? ==> r == input
    ensures |r| <= |input|
  {
    Slice(input, s.begin.GetOr(0), s.end.GetOr(|input|))
  }

  function SpanTexts(input: string, spans: seq<Span>): (r: seq<string>)
    ensures |r| == |spans| && forall i :: 0 <= i < |spans| ==> r[i] == SpanText(input, spans[i])
  {
    seq(|spans|, i requires 0 <= i < |spans| => SpanText(input, spans[i]))
  }

  /** A filter keeps its name; its arguments, when present, are the source text of each. */
  function ConvertFilter(input: string, f: FilterCall): L.Filter {
    L.Filter(f.name, if f.args.Some? then Some(SpanTexts(input, f.args.value)) else None)
  }

  function ConvertFilters(input: string, fs: seq<FilterCall>): (r: seq<L.Filter>)
    ensures |r| == |fs| && forall i :: 0 <= i < |fs| ==> r[i] == ConvertFilter(input, fs[i])
  {
    seq(|fs|, i requires 0 <= i < |fs| => ConvertFilter(input, fs[i]))
  }

  // ---------------------------------------------------------------- access chains

  /** What one operand adds to an output's access chain: the contents of its properties, its
      keyword literal, or its other literal, a string literal as written in the input. */
  function OperandParts(input: string, p: Operand): seq<Prim> {
    if p.props.Some? then p.props.value
    else if !p.literal.Undefined? then [p.literal]
    else if !p.content.Undefined? then
      if p.quoted then [Str(Slice(input, p.begin, p.end))] else [p.content]
    else []
  }

  /** The access chain of an output: the operands' parts, concatenated in order. */
  function Postfix(input: string, ops: seq<Operand>): seq<Prim> {
    if ops == [] then [] else OperandParts(input, ops[0]) + Postfix(input, ops[1..])
  }

  /** How `Array.prototype.join` prints each element. */
  function JoinStrings(ps: seq<Prim>): (r: seq<string>)
    ensures |r| == |ps| && forall i :: 0 <= i < |ps| ==> r[i] == JoinString(ps[i])
  {
    seq(|ps|, i requires 0 <= i < |ps| => JoinString(ps[i]))
  }

  /** The property contents of every operand, in order; an operand that is not a property path
      has no properties to map over. */
  function ConditionParts(ops: seq<Operand>): Result<seq<string>, JsError> {
    if ops == [] then Ok([])
    else if ops[0].props.None? then Err(TypeError("map"))
    else
      var rest :- ConditionParts(ops[1..]);
      Ok(JoinStrings(ops[0].props.value) + rest)
  }

  /** A condition as a dotted path, or none when the value or its postfix is missing. */
  function ExtractCondition(v: Option<Value>): (r: Result<Option<string>, JsError>)
    ensures r.Ok? ==> (r.value.Some? <==> v.Some? && v.value.initial.Some?)
    ensures v.Some? && v.value.initial.Some? && v.value.initial.value == [] ==> r == Ok(Some(""))
  {
    if v.None? || v.value.initial.None? then Ok(None)
    else
      var parts :- ConditionParts(v.value.initial.value);
      Ok(Some(Join(parts, ".")))
  }

  // ---------------------------------------------------------------- tags

  /** The variant a conditional tag's name selects. */
  function VariantOf(name: string): (r: Ir.Variant)
    ensures r.CaseVariant? <==> name == "case"
    ensures r.UnlessVariant? <==> name == "unless"
    ensures r.IfVariant? <==> name != "case" && name != "unless"
  {
    if name == "case" then Ir.CaseVariant else if name == "unless" then Ir.UnlessVariant else Ir.IfVariant
  }

  /** The condition of a `when`: its values single-quoted and separated by commas. */
  function WhenCondition(values: seq<Prim>): string {
    Join(seq(|values|, i requires 0 <= i < |values| => "'" + TemplateString(values[i]) + "'"), ", ")
  }

  /** A comment's text: from the end of the opening tag at `begin` to the next closing tag, or
      nothing when there is none after it. */
  function CommentContent(input: string, begin: nat): (r: string)
    ensures r != "" ==> var start := begin + |COMMENT_OPEN|;
                        start + |r| <= |input| && r == input[start..start + |r|]
                        && OccursAt(input, COMMENT_CLOSE, start + |r|)
                        && forall k :: start <= k < start + |r| ==> !OccursAt(input, COMMENT_CLOSE, k)
  {
    var start := begin + |COMMENT_OPEN|;
    match IndexOf(input, COMMENT_CLOSE, start)
    case Some(e) => if e > start then input[start..e] else ""
    case None => ""
  }

  /** The text of a raw block: its tokens' source text, concatenated. */
  function RawContent(input: string, tokens: Option<seq<Span>>): string {
    if tokens.Some? then Concat(SpanTexts(input, tokens.value)) else ""
  }

  // ---------------------------------------------------------------- templates

  /** How a template's node relates to it: the kind of node its token kind and tag fields
      select, carrying the token's raw arguments and whitespace control where the node has them. */
  predicate Corresponds(t: Template, n: L.Node) {
    var tl, tr := t.token.trimLeft, t.token.trimRight;
    match t.token.kind
    case HtmlKind => n == L.Text(t.str)
    case OutputKind => n.Output? && n.trimLeft == tl && n.trimRight == tr
    case TagKind =>
      if t.branches.Branches? then
        n.Conditional? && n.variant == VariantOf(t.name) && n.trimLeft == tl && n.trimRight == tr
      else if t.templates.Templates? then
        if t.name == "capture" then
          n.Tag? && n.name == "capture" && n.args == t.token.args && n.trimLeft == tl && n.trimRight == tr
        else n.Loop? && n.args == t.token.args && n.trimLeft == tl && n.trimRight == tr
      else if t.name == "comment" then n.Comment?
      else if t.name == "raw" then
        n.Tag? && n.name == "raw" && n.args == t.token.args && |n.children| <= 1
        && n.trimLeft == tl && n.trimRight == tr
      else n == L.Tag(t.name, t.token.args, [], tl, tr)
    case OtherKind(_) => false
  }

  /** The whole front-end, given the templates the external parser builds from the text. */
  function Parse(ts: seq<Template>): (r: Result<seq<L.Node>, JsError>)
    ensures r.Ok? ==> |r.value| == |ts|
    ensures ts == [] ==> r == Ok([])
  {
    ConvertAll(ts)
  }

  /** The templates' nodes, one for each, in order; the first failure is the result. */
  function ConvertAll(ts: seq<Template>): (r: Result<seq<L.Node>, JsError>)
    ensures r.Ok? ==> |r.value| == |ts|
    decreases ts, 0
  {
    if ts == [] then Ok([])
    else
      var h :- ConvertTemplate(ts[0]);
      var rest :- ConvertAll(ts[1..]);
      Ok(h + rest)
  }

  /** An absent list converts like an empty one. */
  function ConvertList(l: TemplateList): (r: Result<seq<L.Node>, JsError>)
    ensures l.NoTemplates? ==> r == Ok([])
    ensures r.Ok? && l.Templates? ==> |r.value| == |l.items|
    decreases l, 1
  {
    match l
    case NoTemplates => Ok([])
    case Templates(items) => ConvertAll(items)
  }

  /** A branch's body. */
  function ConvertBody(b: Branch): Result<seq<L.Node>, JsError>
    decreases b, 2
  {
    ConvertList(b.templates)
  }

  /** One template, as exactly one node; a token of a kind the front-end does not handle is an
      error naming the kind, and text and childless tags always convert. */
  function ConvertTemplate(t: Template): (r: Result<seq<L.Node>, JsError>)
    ensures r.Ok? ==> |r.value| == 1 && Corresponds(t, r.value[0])
    ensures t.token.kind.OtherKind? ==>
      r == Err(Thrown("Unsupported token kind: " + IntToString(t.token.kind.code)))
    ensures t.token.kind.HtmlKind? ==> r.Ok?
    ensures t.token.kind.TagKind? && t.branches.NoBranches? && t.templates.NoTemplates? ==> r.Ok?
    decreases t, 2
  {
    var tok := t.token;
    match tok.kind
    case HtmlKind => Ok([L.Text(t.str)])
    case OutputKind =>
      if t.value.None? then Err(TypeError("filters"))
      else if t.value.value.initial.None? then Err(TypeError("postfix"))
      else
        Ok([L.Output(Postfix(tok.input, t.value.value.initial.value), ConvertFilters(tok.input, t.value.value.filters),
                     tok.trimLeft, tok.trimRight)])
    case TagKind =>
      if t.branches.Branches? then ConvertConditional(t)
      else if t.templates.Templates? then ConvertBlock(t)
      else if t.name == "comment" then Ok([L.Comment(CommentContent(tok.input, tok.begin))])
      else if t.name == "raw" then
        var content := RawContent(tok.input, t.tokens);
        Ok([L.Tag("raw", tok.args, if content != "" then [L.Text(content)] else [], tok.trimLeft, tok.trimRight)])
      else Ok([L.Tag(t.name, tok.args, [], tok.trimLeft, tok.trimRight)])
    case OtherKind(code) => Err(Thrown("Unsupported token kind: " + IntToString(code)))
  }

  /** A block tag: a capture keeps its body as a tag's children; any other block is a loop
      whose else body is kept only when non-empty. */
  function ConvertBlock(t: Template): (r: Result<seq<L.Node>, JsError>)
    requires t.templates.Templates?
    ensures r.Ok? ==> |r.value| == 1
    ensures r.Ok? && r.value[0].Loop? ==> (r.value[0].elseChildren.Nodes? <==> t.elseTemplates.Templates? && |t.elseTemplates.items| > 0)
    ensures r.Ok? ==> (r.value[0].Tag? <==> t.name == "capture") && (r.value[0].Loop? <==> t.name != "capture")
    ensures r.Ok? ==> if t.name == "capture" then r.value[0].Tag? && r.value[0].args == t.token.args
                      else r.value[0].Loop? && r.value[0].args == t.token.args
    decreases t, 1
  {
    var tok := t.token;
    var cs :- ConvertAll(t.templates.items);
    if t.name == "capture" then Ok([L.Tag("capture", tok.args, cs, tok.trimLeft, tok.trimRight)])
    else
      var es :- if t.elseTemplates.Templates? && |t.elseTemplates.items| > 0 then
                  (var es :- ConvertAll(t.elseTemplates.items); Ok(L.Nodes(es)))
                else Ok(L.NoNodes);
      Ok([L.Loop(tok.args, cs, es, tok.trimLeft, tok.trimRight)])
  }

  /** A conditional tag: its branches (for a case, the subject first), then an else branch
      without a condition exactly when the else body is non-empty. */
  function ConvertConditional(t: Template): (r: Result<seq<L.Node>, JsError>)
    requires t.branches.Branches?
    ensures r.Ok? ==> |r.value| == 1 && r.value[0].Conditional? && r.value[0].variant == VariantOf(t.name)
    ensures r.Ok? ==> r.value[0].trimLeft == t.token.trimLeft && r.value[0].trimRight == t.token.trimRight
    ensures r.Ok? ==>
      var hasElse := t.elseTemplates.Templates? && |t.elseTemplates.items| > 0;
      var bs := r.value[0].branches;
      && |bs| == (if t.name == "case" then 1 else 0) + |t.branches.items| + (if hasElse then 1 else 0)
      && (hasElse ==> bs[|bs| - 1].condition.None?)
      && (t.name == "case" ==> bs[0].children == [])
      && (t.name != "case" && |t.branches.items| > 0 ==> bs[0].condition == Some(t.token.args))
    decreases t, 1
  {
    var bs :- if t.name == "case" then ConvertCase(t) else ConvertIfBranches(t.branches.items, t.token.args, true);
    var all :- if t.elseTemplates.Templates? && |t.elseTemplates.items| > 0 then
                 (var es :- ConvertAll(t.elseTemplates.items); Ok(bs + [L.Branch(None, es)]))
               else Ok(bs);
    Ok([L.Conditional(VariantOf(t.name), all, t.token.trimLeft, t.token.trimRight)])
  }

  /** The branches of an if or unless: the first takes the tag's raw arguments as its
      condition, the others their own condition value. */
  function ConvertIfBranches(bs: seq<Branch>, args: string, first: bool): (r: Result<seq<L.Branch>, JsError>)
    ensures r.Ok? ==> |r.value| == |bs|
    ensures r.Ok? && first && |bs| > 0 ==> r.value[0].condition == Some(args)
    decreases bs, 0
  {
    if bs == [] then Ok([])
    else
      var c :- if first then Ok(Some(args)) else ExtractCondition(bs[0].value);
      var cs :- ConvertBody(bs[0]);
      var rest :- ConvertIfBranches(bs[1..], args, false);
      Ok([L.Branch(c, cs)] + rest)
  }

  /** A case: the subject as a branch without children, then one branch per `when`. */
  function ConvertCase(t: Template): (r: Result<seq<L.Branch>, JsError>)
    requires t.branches.Branches?
    ensures r.Ok? ==> |r.value| == 1 + |t.branches.items| && r.value[0].children == []
    decreases t, 0
  {
    var subject :- ExtractCondition(t.value);
    var whens :- ConvertWhens(t.branches.items);
    Ok([L.Branch(subject, [])] + whens)
  }

  /** The when branches of a case; a branch without values has no condition. */
  function ConvertWhens(bs: seq<Branch>): (r: Result<seq<L.Branch>, JsError>)
    ensures r.Ok? ==> |r.value| == |bs|
    ensures r.Ok? ==> forall i :: 0 <= i < |bs| ==>
      r.value[i].condition == if bs[i].values.Some? then Some(WhenCondition(bs[i].values.value)) else None
    decreases bs, 0
  {
    if bs == [] then Ok([])
    else
      var c := if bs[0].values.Some? then Some(WhenCondition(bs[0].values.value)) else None;
      var cs :- ConvertBody(bs[0]);
      var rest :- ConvertWhens(bs[1..]);
      Ok([L.Branch(c, cs)] + rest)
  }
}
