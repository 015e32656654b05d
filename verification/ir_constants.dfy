/**
 * The language-neutral identifiers shared by both front-ends and both back-ends: the loop
 * sentinel, the canonical loop-property name, and the closed enumeration of canonical
 * pseudo-filter names (IR_FILTERS). Only the loop sentinel and the reverse-index name have
 * their spellings fixed by the source; the spellings of the filter names are chosen here and
 * only their distinctness and their `__COMPARE_` / `__LOGICAL_` prefixes matter.
 */
module IrConstants {
  import opened Wrappers
  import opened Js

  /** IR_LOOP_VAR: what a loop's magic variable becomes inside a loop body. */
  const LOOP_VAR: string := "__LOOP_VAR__"

  /** IR_LOOP_REVINDEX: the canonical name of the reverse-index loop property. */
  const LOOP_REVINDEX: string := "__REVINDEX__"

  /** The canonical pseudo-filters: built-in filters and infix operators alike. */
  datatype Canonical =
    | Uppercase | Lowercase | TrimSpace
    | Add | Subtract | Multiply | Divide | Modulo
    | CompareEq | CompareNe | CompareGt | CompareGte | CompareLt | CompareLte
    | LogicalAnd | LogicalOr | LogicalNot
    | Contains

  function Name(c: Canonical): string {
    match c
    case Uppercase => "__UPPERCASE__"
    case Lowercase => "__LOWERCASE__"
    case TrimSpace => "__TRIM__"
    case Add => "__ADD__"
    case Subtract => "__SUBTRACT__"
    case Multiply => "__MULTIPLY__"
    case Divide => "__DIVIDE__"
    case Modulo => "__MODULO__"
    case CompareEq => "__COMPARE_EQ__"
    case CompareNe => "__COMPARE_NE__"
    case CompareGt => "__COMPARE_GT__"
    case CompareGte => "__COMPARE_GTE__"
    case CompareLt => "__COMPARE_LT__"
    case CompareLte => "__COMPARE_LTE__"
    case LogicalAnd => "__LOGICAL_AND__"
    case LogicalOr => "__LOGICAL_OR__"
    case LogicalNot => "__LOGICAL_NOT__"
    case Contains => "__CONTAINS__"
  }

  predicate IsComparison(c: Canonical) {
    c.CompareEq? || c.CompareNe? || c.CompareGt? || c.CompareGte? || c.CompareLt? || c.CompareLte?
  }

  predicate IsLogical(c: Canonical) {
    c.LogicalAnd? || c.LogicalOr? || c.LogicalNot?
  }

  /** Comparison and logical names are recognisable by their prefix alone. */
  lemma NamePrefixes(c: Canonical)
    ensures StartsWith(Name(c), "__COMPARE_") <==> IsComparison(c)
    ensures StartsWith(Name(c), "__LOGICAL_") <==> IsLogical(c)
  {
    match c
    case Uppercase => Mismatch(Name(c), "__COMPARE_", 2); Mismatch(Name(c), "__LOGICAL_", 2);
    case Lowercase => Mismatch(Name(c), "__COMPARE_", 2); Mismatch(Name(c), "__LOGICAL_", 4);
    case TrimSpace => Mismatch(Name(c), "__COMPARE_", 2); Mismatch(Name(c), "__LOGICAL_", 2);
    case Add => Mismatch(Name(c), "__COMPARE_", 2); Mismatch(Name(c), "__LOGICAL_", 2);
    case Subtract => Mismatch(Name(c), "__COMPARE_", 2); Mismatch(Name(c), "__LOGICAL_", 2);
    case Multiply => Mismatch(Name(c), "__COMPARE_", 2); Mismatch(Name(c), "__LOGICAL_", 2);
    case Divide => Mismatch(Name(c), "__COMPARE_", 2); Mismatch(Name(c), "__LOGICAL_", 2);
    case Modulo => Mismatch(Name(c), "__COMPARE_", 2); Mismatch(Name(c), "__LOGICAL_", 2);
    case CompareEq => assert Name(c)[..10] == "__COMPARE_"; Mismatch(Name(c), "__LOGICAL_", 2);
    case CompareNe => assert Name(c)[..10] == "__COMPARE_"; Mismatch(Name(c), "__LOGICAL_", 2);
    case CompareGt => assert Name(c)[..10] == "__COMPARE_"; Mismatch(Name(c), "__LOGICAL_", 2);
    case CompareGte => assert Name(c)[..10] == "__COMPARE_"; Mismatch(Name(c), "__LOGICAL_", 2);
    case CompareLt => assert Name(c)[..10] == "__COMPARE_"; Mismatch(Name(c), "__LOGICAL_", 2);
    case CompareLte => assert Name(c)[..10] == "__COMPARE_"; Mismatch(Name(c), "__LOGICAL_", 2);
    case LogicalAnd => Mismatch(Name(c), "__COMPARE_", 2); assert Name(c)[..10] == "__LOGICAL_";
    case LogicalOr => Mismatch(Name(c), "__COMPARE_", 2); assert Name(c)[..10] == "__LOGICAL_";
    case LogicalNot => Mismatch(Name(c), "__COMPARE_", 2); assert Name(c)[..10] == "__LOGICAL_";
    case Contains => Mismatch(Name(c), "__COMPARE_", 4); Mismatch(Name(c), "__LOGICAL_", 2);
  }

  lemma Mismatch(s: string, p: string, k: nat)
    requires k < |p| && (k >= |s| || s[k] != p[k])
    ensures !StartsWith(s, p)
  {
    if |p| <= |s| {
      assert s[..|p|][k] == s[k];
    }
  }

  /** Distinct canonical filters have distinct names. */
  lemma NameInjective(c: Canonical, d: Canonical)
    requires Name(c) == Name(d)
    ensures c == d
  {
  }

  lemma FromNameOfName(c: Canonical)
    ensures FromName(Name(c)) == Some(c)
  {
    match c
    case Uppercase =>
    case Lowercase =>
    case TrimSpace =>
    case Add =>
    case Subtract =>
    case Multiply =>
    case Divide =>
    case Modulo =>
    case CompareEq =>
    case CompareNe =>
    case CompareGt =>
    case CompareGte =>
    case CompareLt =>
    case CompareLte =>
    case LogicalAnd =>
    case LogicalOr =>
    case LogicalNot =>
    case Contains =>
  }

  /** The canonical filter a name spells, if any. */
  function FromName(s: string): (r: Option<Canonical>)
    ensures r.Some? ==> Name(r.value) == s
    ensures r.None? ==> forall c: Canonical :: Name(c) != s
  {
    if s == "__UPPERCASE__" then Some(Uppercase)
    else if s == "__LOWERCASE__" then Some(Lowercase)
    else if s == "__TRIM__" then Some(TrimSpace)
    else if s == "__ADD__" then Some(Add)
    else if s == "__SUBTRACT__" then Some(Subtract)
    else if s == "__MULTIPLY__" then Some(Multiply)
    else if s == "__DIVIDE__" then Some(Divide)
    else if s == "__MODULO__" then Some(Modulo)
    else if s == "__COMPARE_EQ__" then Some(CompareEq)
    else if s == "__COMPARE_NE__" then Some(CompareNe)
    else if s == "__COMPARE_GT__" then Some(CompareGt)
    else if s == "__COMPARE_GTE__" then Some(CompareGte)
    else if s == "__COMPARE_LT__" then Some(CompareLt)
    else if s == "__COMPARE_LTE__" then Some(CompareLte)
    else if s == "__LOGICAL_AND__" then Some(LogicalAnd)
    else if s == "__LOGICAL_OR__" then Some(LogicalOr)
    else if s == "__LOGICAL_NOT__" then Some(LogicalNot)
    else if s == "__CONTAINS__" then Some(Contains)
    else None
  }
}
