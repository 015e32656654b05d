/**
 * How operator pseudo-filters print as infix text. A binary expression tree is lowered to the
 * IR the way the Nunjucks front-end lowers binary operators (left operand first, the operator
 * as a filter whose one argument is the right operand), and the renderer's output is compared
 * with the reference printer that inserts exactly the parentheses that left-associative
 * operators with the renderer's precedence table need.
 */
module OperatorPrinting {
  import opened Wrappers
  import opened Js
  import opened IrConstants
  import opened Ir
  import opened NunjucksRender
  import opened NunjucksRenderFacts

  /** A binary expression over variables. */
  datatype Tree = Leaf(name: string) | Bin(op: Canonical, left: Tree, right: Tree)

  /** Every operator of the tree is one the renderer prints infix. */
  predicate WellFormed(t: Tree) {
    match t
    case Leaf(_) => true
    case Bin(op, l, r) => OperatorSymbol(op).Some? && WellFormed(l) && WellFormed(r)
  }

  /** Every right operand is a variable: the shape of a plain left-to-right chain. */
  predicate LeftDeep(t: Tree) {
    match t
    case Leaf(_) => true
    case Bin(_, l, r) => r.Leaf? && LeftDeep(l)
  }

  function Lower(t: Tree): Expr {
    match t
    case Leaf(n) => Expr([Str(n)], [])
    case Bin(op, l, r) =>
      var lo := Lower(l);
      Expr(lo.postfix, lo.filters + [Generic(Name(op), Args([Lower(r)]))])
  }

  /** The reference printer: a left operand is grouped when it binds looser than its parent,
      a right operand when it binds no tighter. */
  function Infix(t: Tree): string
    requires WellFormed(t)
  {
    match t
    case Leaf(n) => HeadText(Str(n))
    case Bin(op, l, r) =>
      var p := Precedence(op);
      var ls := if l.Bin? && Precedence(l.op) < p then Paren(Infix(l)) else Infix(l);
      var rs := if r.Bin? && Precedence(r.op) <= p then Paren(Infix(r)) else Infix(r);
      ls + " " + OperatorSymbol(op).value + " " + rs
  }

  function Top(t: Tree): Option<nat> {
    if t.Bin? then Some(Precedence(t.op)) else None
  }

  lemma {:induction false} LowerShape(t: Tree)
    requires WellFormed(t)
    ensures LastOperator(Lower(t).filters) == (if t.Bin? then Some(t.op) else None)
    ensures !HasNamedParams(Lower(t).filters)
    ensures |Lower(t).postfix| == 1
  {
    match t
    case Leaf(_) =>
    case Bin(op, l, r) =>
      LowerShape(l);
      var fs := Lower(l).filters;
      var g := Generic(Name(op), Args([Lower(r)]));
      OperatorOfName(op);
      LastOperatorSnoc(fs, g);
      assert forall i :: 0 <= i < |fs| ==> (fs + [g])[i] == fs[i];
      assert (fs + [g])[|fs|] == g;
  }

  /** Folding the filters of a lowered tree builds the reference text, and leaves the tree's
      top operator as the last precedence. Either mode, when every right operand is a variable. */
  lemma {:induction false} FoldLowered(t: Tree, mode: Mode)
    requires WellFormed(t)
    requires mode.Corrected? || LeftDeep(t)
    ensures RenderFilters(Lower(t).filters, Acc(RenderPostfix(Lower(t).postfix), "", None), mode)
         == Ok(Acc(Infix(t), "", Top(t)))
    decreases t, 0
  {
    match t
    case Leaf(n) =>
      assert [Str(n)][1..] == [];
      assert RenderPostfix([Str(n)]) == HeadText(Str(n)) + "";
      assert HeadText(Str(n)) + "" == HeadText(Str(n));
    case Bin(op, l, r) =>
      var lo := Lower(l);
      var g := Generic(Name(op), Args([Lower(r)]));
      var start := Acc(RenderPostfix(lo.postfix), "", None);
      FoldLowered(l, mode);
      RenderFiltersSnoc(lo.filters, g, start, mode);
      RenderLowered(r, mode);
      LowerShape(r);
      OperatorStep(Acc(Infix(l), "", Top(l)), op, Lower(r), Infix(r), mode);
  }

  /** The renderer prints a lowered tree exactly as the reference printer does. */
  lemma RenderLowered(t: Tree, mode: Mode)
    requires WellFormed(t)
    requires mode.Corrected? || LeftDeep(t)
    ensures RenderExpr(Lower(t), mode) == Ok(Infix(t))
    decreases t, 1
  {
    FoldLowered(t, mode);
    LowerShape(t);
    assert Infix(t) + "" == Infix(t);
  }

  // ---------------------------------------------------------------- the right-operand finding

  /** As written, the renderer drops the grouping of a right operand: `a * (b + c)` prints as
      `a * b + c`, which is also how the different tree `(a * b) + c` prints. */
  lemma RightOperandGroupingLost(a: string, b: string, c: string)
    ensures var grouped := Bin(Multiply, Leaf(a), Bin(Add, Leaf(b), Leaf(c)));
            var leftFirst := Bin(Add, Bin(Multiply, Leaf(a), Leaf(b)), Leaf(c));
            var (x, y, z) := (HeadText(Str(a)), HeadText(Str(b)), HeadText(Str(c)));
            && RenderExpr(Lower(grouped), AsWritten) == Ok(x + " * " + y + " + " + z)
            && RenderExpr(Lower(leftFirst), AsWritten) == Ok(x + " * " + y + " + " + z)
            && grouped != leftFirst
            && RenderExpr(Lower(grouped), Corrected) == Ok(x + " * (" + y + " + " + z + ")")
  {
    AsWrittenGrouped(a, b, c);
    AsWrittenLeftFirst(a, b, c);
    CorrectedGrouped(a, b, c);
  }

  lemma AsWrittenGrouped(a: string, b: string, c: string)
    ensures RenderExpr(Lower(Bin(Multiply, Leaf(a), Bin(Add, Leaf(b), Leaf(c)))), AsWritten)
         == Ok(HeadText(Str(a)) + " * " + HeadText(Str(b)) + " + " + HeadText(Str(c)))
  {
    var grouped := Bin(Multiply, Leaf(a), Bin(Add, Leaf(b), Leaf(c)));
    var x, y, z := HeadText(Str(a)), HeadText(Str(b)), HeadText(Str(c));
    GroupedFold(a, b, c);
    assert |Lower(grouped).filters| == 1;
    assert x + " * " + (y + " + " + z) + "" == x + " * " + y + " + " + z;
  }

  /** As written, folding the one operator filter of `a * (b + c)` pastes the right operand's
      text in without parentheses. */
  lemma GroupedFold(a: string, b: string, c: string)
    ensures var e := Lower(Bin(Multiply, Leaf(a), Bin(Add, Leaf(b), Leaf(c))));
      RenderFilters(e.filters, Acc(RenderPostfix(e.postfix), "", None), AsWritten)
      == Ok(Acc(HeadText(Str(a)) + " * " + (HeadText(Str(b)) + " + " + HeadText(Str(c))), "", Some(5)))
  {
    var bc := Bin(Add, Leaf(b), Leaf(c));
    var grouped := Bin(Multiply, Leaf(a), bc);
    var x, y, z := HeadText(Str(a)), HeadText(Str(b)), HeadText(Str(c));
    SumInfix(b, c);
    assert LeftDeep(bc);
    RenderLowered(bc, AsWritten);
    var start := Acc(RenderPostfix(Lower(grouped).postfix), "", None);
    var g := Generic(Name(Multiply), Args([Lower(bc)]));
    assert Lower(grouped).filters == [g];
    FoldLowered(Leaf(a), AsWritten);
    assert start == Acc(x, "", None);
    OperatorStep(start, Multiply, Lower(bc), y + " + " + z, AsWritten);
    UnfoldFilters(g, [], start, AsWritten);
    assert [g] + [] == [g];
    assert x + " " + "*" + " " + (y + " + " + z) == x + " * " + (y + " + " + z);
  }

  lemma AsWrittenLeftFirst(a: string, b: string, c: string)
    ensures RenderExpr(Lower(Bin(Add, Bin(Multiply, Leaf(a), Leaf(b)), Leaf(c))), AsWritten)
         == Ok(HeadText(Str(a)) + " * " + HeadText(Str(b)) + " + " + HeadText(Str(c)))
  {
    var t := Bin(Add, Bin(Multiply, Leaf(a), Leaf(b)), Leaf(c));
    LeftFirstInfix(a, b, c);
    assert LeftDeep(t);
    RenderLowered(t, AsWritten);
  }

  lemma LeftFirstInfix(a: string, b: string, c: string)
    ensures WellFormed(Bin(Add, Bin(Multiply, Leaf(a), Leaf(b)), Leaf(c)))
    ensures Infix(Bin(Add, Bin(Multiply, Leaf(a), Leaf(b)), Leaf(c)))
         == HeadText(Str(a)) + " * " + HeadText(Str(b)) + " + " + HeadText(Str(c))
  {
    var x, y, z := HeadText(Str(a)), HeadText(Str(b)), HeadText(Str(c));
    ProductInfix(a, b);
    assert WellFormed(Leaf(c));
    assert (x + " * " + y) + " " + "+" + " " + z == x + " * " + y + " + " + z;
  }

  /** A product of two variables prints bare. */
  lemma ProductInfix(a: string, b: string)
    ensures WellFormed(Bin(Multiply, Leaf(a), Leaf(b)))
    ensures Infix(Bin(Multiply, Leaf(a), Leaf(b))) == HeadText(Str(a)) + " * " + HeadText(Str(b))
  {
    assert WellFormed(Leaf(a)) && WellFormed(Leaf(b));
    var x, y := HeadText(Str(a)), HeadText(Str(b));
    assert x + " " + "*" + " " + y == x + " * " + y;
  }

  lemma CorrectedGrouped(a: string, b: string, c: string)
    ensures RenderExpr(Lower(Bin(Multiply, Leaf(a), Bin(Add, Leaf(b), Leaf(c)))), Corrected)
         == Ok(HeadText(Str(a)) + " * (" + HeadText(Str(b)) + " + " + HeadText(Str(c)) + ")")
  {
    var t := Bin(Multiply, Leaf(a), Bin(Add, Leaf(b), Leaf(c)));
    RightGroupedInfix(a, b, c);
    RenderLowered(t, Corrected);
  }

  lemma RightGroupedInfix(a: string, b: string, c: string)
    ensures WellFormed(Bin(Multiply, Leaf(a), Bin(Add, Leaf(b), Leaf(c))))
    ensures Infix(Bin(Multiply, Leaf(a), Bin(Add, Leaf(b), Leaf(c))))
         == HeadText(Str(a)) + " * (" + HeadText(Str(b)) + " + " + HeadText(Str(c)) + ")"
  {
    var x, y, z := HeadText(Str(a)), HeadText(Str(b)), HeadText(Str(c));
    SumInfix(b, c);
    assert WellFormed(Leaf(a));
    RightText(x, y, z);
  }

  lemma RightText(x: string, y: string, z: string)
    ensures x + " " + "*" + " " + Paren(y + " + " + z) == x + " * (" + y + " + " + z + ")"
  {
    Regroup(x, " ", "*", " ", "(", y + " + " + z, ")");
    assert " " + "*" + " " + "(" == " * (";
    assert x + " * (" + (y + " + " + z) + ")" == x + " * (" + y + " + " + z + ")";
  }

  /** A sum of two variables prints bare. */
  lemma SumInfix(a: string, b: string)
    ensures WellFormed(Bin(Add, Leaf(a), Leaf(b)))
    ensures Infix(Bin(Add, Leaf(a), Leaf(b))) == HeadText(Str(a)) + " + " + HeadText(Str(b))
  {
    assert WellFormed(Leaf(a)) && WellFormed(Leaf(b));
    var x, y := HeadText(Str(a)), HeadText(Str(b));
    assert x + " " + "+" + " " + y == x + " + " + y;
  }

  lemma Regroup(x: string, a: string, b: string, c: string, d: string, w: string, e: string)
    ensures x + a + b + c + (d + w + e) == x + (a + b + c + d) + w + e
  {
  }

  /** `(price + tax) * quantity` keeps its grouping in either mode. */
  lemma LeftOperandGroupingKept(price: string, tax: string, quantity: string, mode: Mode)
    ensures RenderExpr(Lower(Bin(Multiply, Bin(Add, Leaf(price), Leaf(tax)), Leaf(quantity))), mode)
         == Ok("(" + HeadText(Str(price)) + " + " + HeadText(Str(tax)) + ") * " + HeadText(Str(quantity)))
  {
    var t := Bin(Multiply, Bin(Add, Leaf(price), Leaf(tax)), Leaf(quantity));
    LeftGroupedInfix(price, tax, quantity);
    assert LeftDeep(t);
    RenderLowered(t, mode);
  }

  lemma LeftGroupedInfix(price: string, tax: string, quantity: string)
    ensures WellFormed(Bin(Multiply, Bin(Add, Leaf(price), Leaf(tax)), Leaf(quantity)))
    ensures Infix(Bin(Multiply, Bin(Add, Leaf(price), Leaf(tax)), Leaf(quantity)))
         == "(" + HeadText(Str(price)) + " + " + HeadText(Str(tax)) + ") * " + HeadText(Str(quantity))
  {
    var x, y, z := HeadText(Str(price)), HeadText(Str(tax)), HeadText(Str(quantity));
    SumInfix(price, tax);
    assert WellFormed(Leaf(quantity));
    LeftText(x, y, z);
  }

  lemma LeftText(x: string, y: string, z: string)
    ensures Paren(x + " + " + y) + " " + "*" + " " + z == "(" + x + " + " + y + ") * " + z
  {
    RegroupLeft("(", x + " + " + y, ")", " ", "*", " ", z);
    assert ")" + " " + "*" + " " == ") * ";
    assert "(" + (x + " + " + y) + ") * " + z == "(" + x + " + " + y + ") * " + z;
  }

  lemma RegroupLeft(d: string, w: string, e: string, a: string, b: string, c: string, z: string)
    ensures (d + w + e) + a + b + c + z == d + w + (e + a + b + c) + z
  {
  }
}
