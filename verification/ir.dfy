/**
 * The intermediate representation every front-end produces and every back-end consumes: a
 * template is a sequence of nodes of nine kinds; expressions are a postfix access chain plus an
 * ordered list of filters, where infix operators are pseudo-filters applied left to right.
 */
module Ir {
  import opened Wrappers
  import opened Js

  /** One element of a postfix access chain: a variable or property name, an array index, or
      a literal already spelled in template syntax. */
  type Part = Prim

  /** `postfix` is the access chain (the first part is the root), `filters` apply in order. */
  datatype Expr = Expr(postfix: seq<Part>, filters: seq<Filter>)

  /** A filter's positional argument list, which may be absent altogether. */
  datatype Args = NoArgs | Args(items: seq<Expr>)

  /**
   * A filter. `Generic` is the ordinary shape (name plus optional positional arguments), also used
   * for operator pseudo-filters; the other four are the special filters whose arguments are
   * normalised across engines. The fields the declared types call required but a front-end may
   * leave undefined are `Option`s here. `pattern` and `replacement` are the replace filter's
   * `old` and `new` fields.
   */
  datatype Filter =
    | Generic(name: string, args: Args)
    | Truncate(length: Option<Expr>, end: Option<Expr>, killWords: bool)
    | Replace(pattern: Option<Expr>, replacement: Option<Expr>, flags: Option<Expr>)
    | Where(attribute: Option<Expr>, value: Option<Expr>)
    | Sort(attribute: Option<Expr>, reverse: bool)

  /** The `name` field every filter carries. */
  function FilterName(f: Filter): string {
    match f
    case Generic(name, _) => name
    case Truncate(_, _, _) => "truncate"
    case Replace(_, _, _) => "replace"
    case Where(_, _) => "where"
    case Sort(_, _) => "sort"
  }

  predicate IsSpecialName(name: string) {
    name == "truncate" || name == "replace" || name == "where" || name == "sort"
  }

  /** The positional arguments of a filter; special filters carry none. */
  function ArgList(f: Filter): seq<Expr> {
    if f.Generic? && f.args.Args? then f.args.items else []
  }

  datatype Variant = IfVariant | UnlessVariant | CaseVariant

  /** A branch of a conditional; a missing condition marks the else branch (and, for a case,
      the first branch carries the subject instead). */
  datatype Branch = Branch(condition: Option<Expr>, children: seq<IrNode>)

  /** The loop variable is whatever value the front-end found there (a name, as a rule). */
  datatype LoopArgs = LoopArgs(variable: Prim, collection: Expr)

  /** A child list that may be absent altogether (an optional `IrNode[]` field). */
  datatype NodeList = NoNodes | Nodes(items: seq<IrNode>)

  /** Text, comment and raw contents are strings as declared, except that the Nunjucks
      front-end copies them from values it does not always check, so they are primitives here. */
  datatype IrNode =
    | Text(content: Prim)
    | Output(expression: Expr, trimLeft: bool, trimRight: bool)
    | Conditional(variant: Variant, branches: seq<Branch>, trimLeft: bool, trimRight: bool)
    | Loop(args: LoopArgs, children: seq<IrNode>, elseChildren: NodeList, trimLeft: bool, trimRight: bool)
    | Tag(name: string, tagArgs: string, children: seq<IrNode>, trimLeft: bool, trimRight: bool)
    | Comment(content: Prim)
    | Assignment(target: string, value: Option<Expr>, body: NodeList, trimLeft: bool, trimRight: bool)
    | Raw(content: Prim, trimLeft: bool, trimRight: bool)
    | Include(template: Expr, trimLeft: bool, trimRight: bool)

  /** The nine `type` tags, in declaration order. */
  const NODE_TYPES: seq<string> :=
    ["text", "output", "conditional", "loop", "tag", "comment", "assignment", "raw", "include"]

  /** The `type` tag of a node. */
  function TypeName(n: IrNode): (r: string)
    ensures r in NODE_TYPES
  {
    match n
    case Text(_) => "text"
    case Output(_, _, _) => "output"
    case Conditional(_, _, _, _) => "conditional"
    case Loop(_, _, _, _, _) => "loop"
    case Tag(_, _, _, _, _) => "tag"
    case Comment(_) => "comment"
    case Assignment(_, _, _, _, _) => "assignment"
    case Raw(_, _, _) => "raw"
    case Include(_, _, _) => "include"
  }

  /** The union is closed and discriminated: the tag determines the kind of node. */
  lemma TypeNameDiscriminates(a: IrNode, b: IrNode)
    ensures TypeName(a) == TypeName(b) <==>
      (&& a.Text? == b.Text? && a.Output? == b.Output?
       && a.Conditional? == b.Conditional? && a.Loop? == b.Loop? && a.Tag? == b.Tag?
       && a.Comment? == b.Comment? && a.Assignment? == b.Assignment? && a.Raw? == b.Raw?
       && a.Include? == b.Include?)
  {
  }
}
