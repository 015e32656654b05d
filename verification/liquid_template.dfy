/**
 * The tree the external Liquid parser hands to the front-end, reduced to the fields the
 * front-end reads. A `Template` is one parsed node: its token (kind, the whole input text, the
 * start offset, the raw argument string and the whitespace-control flags) plus the fields some
 * kinds of tag carry. Optional arrays are dedicated list types rather than `Option`s so that the
 * tree walk can recurse into them.
 */
module LiquidTemplate {
  import opened Wrappers
  import opened Js

  /** A token's classification. Any kind other than the three the front-end handles keeps the
      number its error message prints. */
  datatype Kind = HtmlKind | OutputKind | TagKind | OtherKind(code: int)

  datatype Token = Token(kind: Kind, input: string, begin: nat, args: string, trimLeft: bool, trimRight: bool)

  /** A source range `[begin, end)` of the input. A keyword argument has no range of its own:
      its bounds are absent. */
  datatype Span = Span(begin: Option<nat>, end: Option<nat>)

  /**
   * One operand of an expression's postfix stream: a property path (the contents of its
   * properties), a keyword literal such as `nil` or `blank` (`literal`), or another literal
   * (`content`, with `quoted` telling a string literal, whose range is `begin`..`end`).
   * `Undefined` stands for an absent field.
   */
  datatype Operand = Operand(props: Option<seq<Prim>>, literal: Prim, content: Prim, quoted: bool, begin: nat, end: nat)

  /** A filter application: its name and the ranges of its arguments. */
  datatype FilterCall = FilterCall(name: string, args: Option<seq<Span>>)

  /** A parsed value: the postfix stream of its initial expression (absent when the initial
      expression or its postfix is missing) and the filters applied to it. */
  datatype Value = Value(initial: Option<seq<Operand>>, filters: seq<FilterCall>)

  datatype TemplateList = NoTemplates | Templates(items: seq<Template>)

  /** A branch of an if, unless or case tag: the `when` values of a case, the branch's body, and
      the branch's condition value. */
  datatype Branch = Branch(values: Option<seq<Prim>>, templates: TemplateList, value: Option<Value>)

  datatype BranchList = NoBranches | Branches(items: seq<Branch>)

  /**
   * A parsed node. `str` is an HTML node's text; `value` an output's expression or a case's
   * subject; `branches` the branches of a conditional tag; `templates` the body of a block tag;
   * `elseTemplates` its else body; `tokens` the tokens inside a raw block.
   */
  datatype Template = Template(
    token: Token,
    str: string,
    value: Option<Value>,
    name: string,
    branches: BranchList,
    elseTemplates: TemplateList,
    templates: TemplateList,
    tokens: Option<seq<Span>>)

  /** A tag node with no body, branches or value. */
  function PlainTag(token: Token, name: string): Template {
    Template(token, "", None, name, NoBranches, NoTemplates, NoTemplates, None)
  }
}
