/**
 * The node shape the Liquid front-end produces and the Liquid back-end consumes. It predates
 * the shared IR: an output carries its access chain and filters directly, filter arguments are
 * raw source strings, conditions are strings, and a loop's arguments are one raw string.
 */
module LiquidIr {
  import opened Wrappers
  import opened Js
  import Ir

  /** A filter: its name and, unless absent, its arguments as written. */
  datatype Filter = Filter(name: string, args: Option<seq<string>>)

  /** A branch; an absent condition is the else branch (or a case whose subject was missing). */
  datatype Branch = Branch(condition: Option<string>, children: seq<Node>)

  /** A child list that may be absent altogether. */
  datatype NodeList = NoNodes | Nodes(items: seq<Node>)

  /** The node types of the shared IR that have no form in this shape. */
  datatype ForeignType = AssignmentType | RawType | IncludeType

  datatype Node =
    | Text(content: string)
    | Output(postfix: seq<Prim>, filters: seq<Filter>, trimLeft: bool, trimRight: bool)
    | Conditional(variant: Ir.Variant, branches: seq<Branch>, trimLeft: bool, trimRight: bool)
    | Loop(args: string, children: seq<Node>, elseChildren: NodeList, trimLeft: bool, trimRight: bool)
    | Comment(content: string)
    | Tag(name: string, args: string, children: seq<Node>, trimLeft: bool, trimRight: bool)
    | Foreign(foreignType: ForeignType)

  /** The `type` tag of a node. */
  function TypeName(n: Node): (r: string)
    ensures r in Ir.NODE_TYPES
  {
    match n
    case Text(_) => "text"
    case Output(_, _, _, _) => "output"
    case Conditional(_, _, _, _) => "conditional"
    case Loop(_, _, _, _, _) => "loop"
    case Comment(_) => "comment"
    case Tag(_, _, _, _, _) => "tag"
    case Foreign(t) =>
      match t
      case AssignmentType => "assignment"
      case RawType => "raw"
      case IncludeType => "include"
  }
}
