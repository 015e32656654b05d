/**
 * The tree the external Nunjucks parser hands to the front-end, reduced to the fields the
 * front-end reads. The parser's node classes share one shape here: a type name plus optional
 * fields, because the front-end tests fields by presence (`node.cond && node.body`, `node.template`)
 * as often as by type name.
 */
module NunjucksAst {
  import opened Wrappers
  import opened Js

  /** A child array that may be absent. */
  datatype NjList = NoList | List(items: seq<NjNode>)

  /** One operator of a comparison chain: its token (`==`, `<`, ...) and its right operand. */
  datatype CompareOperand = CompareOperand(opType: string, expr: Option<NjNode>)

  /**
   * A parser node. `value` is the primitive of a Symbol, Literal or TemplateData; `valueNode`
   * is the node-valued `value` field of a Set or a keyword-argument Pair. `colno` is used by the
   * front-end as an offset into the whole template text.
   */
  datatype NjNode = NjNode(
    typename: string,
    value: Prim,
    colno: Option<nat>,
    children: NjList,
    target: Option<NjNode>,
    val: Option<NjNode>,
    left: Option<NjNode>,
    right: Option<NjNode>,
    expr: Option<NjNode>,
    ops: seq<CompareOperand>,
    args: Option<NjNode>,
    name: Option<NjNode>,
    key: Option<NjNode>,
    valueNode: Option<NjNode>,
    cond: Option<NjNode>,
    body: Option<NjNode>,
    else_: Option<NjNode>,
    arr: Option<NjNode>,
    targets: NjList,
    template: Option<NjNode>,
    ignoreMissing: Prim)

  /** A node of the given type with every other field absent. */
  function Blank(typename: string): (r: NjNode)
    ensures r.typename == typename && r.value == Undefined && r.colno.None?
    ensures r.children.NoList? && r.cond.None? && r.template.None?
  {
    NjNode(typename, Undefined, None, NoList, None, None, None, None, None, [], None, None,
           None, None, None, None, None, None, NoList, None, Undefined)
  }

  /** A Symbol (a variable reference) read at a column. */
  function Symbol(name: string, col: Option<nat>): NjNode {
    Blank("Symbol").(value := Str(name), colno := col)
  }

  /** A Literal read at a column. */
  function Literal(v: Prim, col: Option<nat>): NjNode {
    Blank("Literal").(value := v, colno := col)
  }

  /** A property or index access `target.val`. */
  function LookupVal(target: NjNode, val: NjNode, col: Option<nat>): NjNode {
    Blank("LookupVal").(target := Some(target), val := Some(val), colno := col)
  }

  /** A NodeList: the container of child statements and of filter arguments. */
  function NodeList(items: seq<NjNode>): NjNode {
    Blank("NodeList").(children := List(items))
  }

  /** An Output node: `{{ ... }}` or a run of template text. */
  function OutputOf(items: seq<NjNode>): NjNode {
    Blank("Output").(children := List(items))
  }

  /** Template text at a column. */
  function TemplateData(text: string, col: Option<nat>): NjNode {
    Blank("TemplateData").(value := Str(text), colno := col)
  }

  /** A binary node (`Add`, `Sub`, `And`, ...). */
  function Binary(typename: string, l: NjNode, r: NjNode): NjNode {
    Blank(typename).(left := Some(l), right := Some(r))
  }

  /** A parenthesised expression `( ... )`: one child, or a tuple's several. */
  function Group(items: seq<NjNode>): NjNode {
    Blank("Group").(children := List(items))
  }

  /** A filter application `base | name(args)`: the base is the first argument. */
  function FilterCall(name: string, base: NjNode, args: seq<NjNode>): NjNode {
    Blank("Filter").(name := Some(Symbol(name, None)), args := Some(NodeList([base] + args)))
  }
}
