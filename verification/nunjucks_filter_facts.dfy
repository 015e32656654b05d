/**
 * The filter conventions of the Nunjucks side: how the back-end prints the four special
 * filters and when it parenthesises a whole chain, and how the front-end reads the flags of
 * those filters, unwinds a chain of filters, reads a comparison and recognises raw text.
 */
module NunjucksFilterFacts {
  import opened Wrappers
  import opened Js
  import opened IrConstants
  import opened Ir
  import opened NunjucksAst
  import opened NunjucksScan
  import opened NunjucksRender
  import opened NunjucksParse
  import NunjucksRenderFacts
  import NunjucksParseFindings

  // ---------------------------------------------------------------- printing

  /** A name that does not start with `_` is no canonical pseudo-filter and is piped. */
  lemma PlainNameIsPiped(f: Filter)
    requires |FilterName(f)| > 0 && FilterName(f)[0] != '_'
    ensures !IsInline(f)
  {
    var n := FilterName(f);
    assert Name(LogicalNot)[0] == '_';
    assert !StartsWith(n, "__COMPARE_") && !StartsWith(n, "__LOGICAL_");
  }

  /** Such a name is printed as it is. */
  lemma PlainNamePrinted(n: string)
    requires |n| > 0 && n[0] != '_'
    ensures NunjucksFilterName(n) == n
  {
    assert Name(Uppercase)[0] == '_' && Name(Lowercase)[0] == '_' && Name(TrimSpace)[0] == '_';
  }

  /** An expression with one piped filter prints as its chain, then ` | ` and the filter. */
  lemma OnePiped(p: seq<Part>, f: Filter, text: string, mode: Mode)
    requires !IsInline(f)
    requires RenderFilterArgs(f, mode).Ok? && PipeText(f, Join(RenderFilterArgs(f, mode).value, ", "), mode) == Ok(text)
    ensures RenderExpr(Expr(p, [f]), mode) == Ok(RenderPostfix(p) + " | " + text)
  {
    var acc := Acc(RenderPostfix(p), "", None);
    PipeStep(f, acc, text, mode);
    assert "" + " | " + text == " | " + text;
    assert [f][1..] == [];
    assert RenderFilters([f], acc, mode) == Ok(Acc(RenderPostfix(p), " | " + text, None));
    assert RenderPostfix(p) + (" | " + text) == RenderPostfix(p) + " | " + text;
  }

  /** A pipeline filter's step appends ` | ` and its text to the pipe text. */
  lemma PipeStep(f: Filter, acc: Acc, text: string, mode: Mode)
    requires !IsInline(f)
    requires RenderFilterArgs(f, mode).Ok? && PipeText(f, Join(RenderFilterArgs(f, mode).value, ", "), mode) == Ok(text)
    ensures RenderFilter(f, acc, mode) == Ok(Acc(acc.expression, acc.filterStr + " | " + text, acc.last))
  {
  }

  /** A special filter carries no positional arguments, so its pipeline text is read from its
      fields alone. */
  lemma SpecialPiped(p: seq<Part>, f: Filter, text: string, mode: Mode)
    requires !f.Generic?
    requires PipeText(f, "", mode) == Ok(text)
    ensures RenderExpr(Expr(p, [f]), mode) == Ok(RenderPostfix(p) + " | " + text)
  {
    PlainNameIsPiped(f);
    assert RenderFilterArgs(f, mode) == Ok([]);
    assert Join([], ", ") == "";
    OnePiped(p, f, text, mode);
  }

  /** truncate always prints three arguments: the length, the word flag and the ending,
      which defaults to `'...'`. */
  lemma TruncatePrintsThreeArguments(len: Expr, lt: string, end: Option<Expr>, et: string, killWords: bool, mode: Mode)
    requires RenderExpr(len, mode) == Ok(lt)
    requires end.Some? ==> RenderExpr(end.value, mode) == Ok(et)
    ensures PipeText(Truncate(Some(len), end, killWords), "", mode)
         == Ok("truncate(" + lt + ", " + (if killWords then "true" else "false") + ", "
               + (if end.Some? then et else "'...'") + ")")
  {
    PlainNamePrinted("truncate");
    assert RenderRequired(Some(len), mode) == Ok(lt);
    var kw := if killWords then "true" else "false";
    var e := if end.Some? then et else "'...'";
    assert PipeText(Truncate(Some(len), end, killWords), "", mode) == Ok("truncate" + "(" + lt + ", " + kw + ", " + e + ")");
    assert "truncate" + "(" == "truncate(";
  }

  /** A truncate without a length cannot be printed. */
  lemma TruncateNeedsLength(end: Option<Expr>, killWords: bool, mode: Mode)
    ensures PipeText(Truncate(None, end, killWords), "", mode).Err?
  {
    assert IsSpecialName("truncate");
    assert RenderRequired(None, mode).Err?;
  }

  /** replace prints the pattern and the replacement, and the flags only when given. */
  lemma ReplaceArguments(pat: Expr, pt: string, rep: Expr, rt: string, flags: Option<Expr>, ft: string, mode: Mode)
    requires RenderExpr(pat, mode) == Ok(pt) && RenderExpr(rep, mode) == Ok(rt)
    requires flags.Some? ==> RenderExpr(flags.value, mode) == Ok(ft)
    ensures PipeText(Replace(Some(pat), Some(rep), flags), "", mode)
         == Ok("replace(" + pt + ", " + rt + (if flags.Some? then ", " + ft else "") + ")")
  {
    var f := Replace(Some(pat), Some(rep), flags);
    PlainNamePrinted("replace");
    assert IsSpecialName(FilterName(f));
    assert PipeText(f, "", mode) == RenderSpecial(f, "replace", mode);
    ReplaceSpecial(pat, pt, rep, rt, flags, ft, mode);
    ReplaceText(pt, rt, flags.Some?, ft);
  }

  lemma ReplaceSpecial(pat: Expr, pt: string, rep: Expr, rt: string, flags: Option<Expr>, ft: string, mode: Mode)
    requires RenderExpr(pat, mode) == Ok(pt) && RenderExpr(rep, mode) == Ok(rt)
    requires flags.Some? ==> RenderExpr(flags.value, mode) == Ok(ft)
    ensures RenderSpecial(Replace(Some(pat), Some(rep), flags), "replace", mode)
         == Ok("replace" + "(" + (if flags.Some? then pt + ", " + rt + ", " + ft else pt + ", " + rt) + ")")
  {
    assert RenderRequired(Some(pat), mode) == Ok(pt);
    assert RenderRequired(Some(rep), mode) == Ok(rt);
  }

  lemma ReplaceText(pt: string, rt: string, flagged: bool, ft: string)
    ensures "replace" + "(" + (if flagged then pt + ", " + rt + ", " + ft else pt + ", " + rt) + ")"
         == "replace(" + pt + ", " + rt + (if flagged then ", " + ft else "") + ")"
  {
    assert "replace" + "(" == "replace(";
    if flagged {
      assert pt + ", " + rt + ", " + ft == pt + ", " + rt + (", " + ft);
    } else {
      assert pt + ", " + rt == pt + ", " + rt + "";
    }
  }

  function TrueLiteral(): Expr { Expr([Bool(true)], []) }
  function TrueString(): Expr { Expr([Str("true")], []) }

  /** A where filter with no value, or with the value `true` or `"true"`, prints as a truthiness
      test on the attribute alone. */
  lemma WhereTrueIsImplied(a: Expr, at: string, mode: Mode)
    requires RenderExpr(a, mode) == Ok(at)
    ensures PipeText(Where(Some(a), None), "", mode) == Ok("selectattr(" + at + ")")
    ensures PipeText(Where(Some(a), Some(TrueLiteral())), "", mode) == Ok("selectattr(" + at + ")")
    ensures PipeText(Where(Some(a), Some(TrueString())), "", mode) == Ok("selectattr(" + at + ")")
  {
    assert IsSpecialName("where");
    assert RenderRequired(Some(a), mode) == Ok(at);
    assert IsTrueLiteral(TrueLiteral()) && IsTrueLiteral(TrueString());
  }

  /** Any other value is printed as the second argument. */
  lemma WhereValuePrinted(a: Expr, at: string, v: Expr, vt: string, mode: Mode)
    requires RenderExpr(a, mode) == Ok(at) && RenderExpr(v, mode) == Ok(vt)
    requires !IsTrueLiteral(v)
    ensures PipeText(Where(Some(a), Some(v)), "", mode) == Ok("selectattr(" + at + ", " + vt + ")")
  {
    assert IsSpecialName("where");
    assert RenderRequired(Some(a), mode) == Ok(at);
  }

  /** sort prints bare without attribute and reverse flag, and otherwise with named arguments,
      the attribute first. */
  lemma SortNamedArguments(a: Expr, at: string, mode: Mode)
    requires RenderExpr(a, mode) == Ok(at)
    ensures PipeText(Sort(None, false), "", mode) == Ok("sort")
    ensures PipeText(Sort(None, true), "", mode) == Ok("sort(reverse=true)")
    ensures PipeText(Sort(Some(a), false), "", mode) == Ok("sort(attribute=" + at + ")")
    ensures PipeText(Sort(Some(a), true), "", mode) == Ok("sort(attribute=" + at + ", reverse=true)")
  {
    SortWithout(mode);
    SortWith(a, at, mode);
  }

  lemma SortWithout(mode: Mode)
    ensures PipeText(Sort(None, false), "", mode) == Ok("sort")
    ensures PipeText(Sort(None, true), "", mode) == Ok("sort(reverse=true)")
  {
    PlainNamePrinted("sort");
    assert IsSpecialName("sort");
    SortPrintsParts(None, true, ["reverse=true"], mode);
    SortReversedText();
  }

  lemma SortReversedText()
    ensures "sort" + "(" + Join(["reverse=true"], ", ") + ")" == "sort(reverse=true)"
  {
    assert Join(["reverse=true"], ", ") == "reverse=true";
  }

  lemma SortWith(a: Expr, at: string, mode: Mode)
    requires RenderExpr(a, mode) == Ok(at)
    ensures PipeText(Sort(Some(a), false), "", mode) == Ok("sort(attribute=" + at + ")")
    ensures PipeText(Sort(Some(a), true), "", mode) == Ok("sort(attribute=" + at + ", reverse=true)")
  {
    SortByAttribute(a, at, mode);
    SortByAttributeReversed(a, at, mode);
  }

  lemma SortByAttribute(a: Expr, at: string, mode: Mode)
    requires RenderExpr(a, mode) == Ok(at)
    ensures PipeText(Sort(Some(a), false), "", mode) == Ok("sort(attribute=" + at + ")")
  {
    SortPrintsParts(Some(a), false, ["attribute=" + at], mode);
    SortAttributeText(at);
  }

  lemma SortByAttributeReversed(a: Expr, at: string, mode: Mode)
    requires RenderExpr(a, mode) == Ok(at)
    ensures PipeText(Sort(Some(a), true), "", mode) == Ok("sort(attribute=" + at + ", reverse=true)")
  {
    SortPrintsParts(Some(a), true, ["attribute=" + at, "reverse=true"], mode);
    SortAttributeReversedText(at);
  }

  /** A sort prints its named arguments, joined, inside parentheses after its name. */
  lemma SortPrintsParts(attribute: Option<Expr>, reverse: bool, parts: seq<string>, mode: Mode)
    requires attribute.Some? ==> RenderExpr(attribute.value, mode).Ok?
    requires parts == (if attribute.Some? then ["attribute=" + RenderExpr(attribute.value, mode).value] else [])
                      + (if reverse then ["reverse=true"] else [])
    requires parts != []
    ensures PipeText(Sort(attribute, reverse), "", mode) == Ok("sort" + "(" + Join(parts, ", ") + ")")
  {
    PlainNamePrinted("sort");
    assert IsSpecialName("sort");
  }

  lemma SortAttributeText(at: string)
    ensures "sort" + "(" + Join(["attribute=" + at], ", ") + ")" == "sort(attribute=" + at + ")"
  {
    assert Join(["attribute=" + at], ", ") == "attribute=" + at;
  }

  lemma SortAttributeReversedText(at: string)
    ensures "sort" + "(" + Join(["attribute=" + at, "reverse=true"], ", ") + ")" == "sort(attribute=" + at + ", reverse=true)"
  {
    assert Join(["attribute=" + at, "reverse=true"], ", ") == "attribute=" + at + ", " + "reverse=true";
  }

  /** A sort by attribute followed by another filter parenthesises the whole expression; a
      sort without attribute, or a sort by attribute alone, does not. */
  lemma SortByAttributeGroupsChain(p: seq<Part>, a: Expr, at: string, g: string, mode: Mode)
    requires RenderExpr(a, mode) == Ok(at)
    requires |g| > 0 && g[0] != '_' && !IsSpecialName(g)
    ensures RenderExpr(Expr(p, [Sort(Some(a), false), Generic(g, NoArgs)]), mode)
         == Ok("(" + RenderPostfix(p) + " | " + SortText(Some(at), false) + " | " + g + ")")
    ensures RenderExpr(Expr(p, [Sort(None, true), Generic(g, NoArgs)]), mode)
         == Ok(RenderPostfix(p) + " | " + SortText(None, true) + " | " + g)
    ensures RenderExpr(Expr(p, [Sort(Some(a), false)]), mode)
         == Ok(RenderPostfix(p) + " | " + SortText(Some(at), false))
  {
    SortWith(a, at, mode);
    SpecialPiped(p, Sort(Some(a), false), SortText(Some(at), false), mode);
    SortAttributeThenPlain(p, a, at, g, mode);
    SortReverseThenPlain(p, g, mode);
  }

  /** How a sort prints, given its attribute's text. */
  function SortText(attribute: Option<string>, reverse: bool): string {
    if attribute.Some? then
      if reverse then "sort(attribute=" + attribute.value + ", reverse=true)" else "sort(attribute=" + attribute.value + ")"
    else if reverse then "sort(reverse=true)" else "sort"
  }

  /** The whole expression from the fold over its filters. */
  lemma ExprOfFold(p: seq<Part>, fs: seq<Filter>, a: Acc, mode: Mode)
    requires RenderFilters(fs, Acc(RenderPostfix(p), "", None), mode) == Ok(a)
    ensures RenderExpr(Expr(p, fs), mode)
         == Ok(if |fs| > 1 && HasNamedParams(fs) then Paren(a.expression + a.filterStr) else a.expression + a.filterStr)
  {
  }

  lemma SortAttributeThenPlain(p: seq<Part>, a: Expr, at: string, g: string, mode: Mode)
    requires RenderExpr(a, mode) == Ok(at)
    requires |g| > 0 && g[0] != '_' && !IsSpecialName(g)
    ensures RenderExpr(Expr(p, [Sort(Some(a), false), Generic(g, NoArgs)]), mode)
         == Ok("(" + RenderPostfix(p) + " | " + SortText(Some(at), false) + " | " + g + ")")
  {
    var s1, gf := Sort(Some(a), false), Generic(g, NoArgs);
    var head, t1 := RenderPostfix(p), SortText(Some(at), false);
    SortWith(a, at, mode);
    SortThenPlain(p, s1, t1, g, mode);
    assert PipeText(s1, "", mode) == Ok(t1);
    assert RenderFilters([s1, gf], Acc(head, "", None), mode) == Ok(Acc(head, " | " + t1 + " | " + g, None));
    assert HasNamedParams([s1, gf]) by { assert [s1, gf][0] == s1; }
    ExprOfFold(p, [s1, gf], Acc(head, " | " + t1 + " | " + g, None), mode);
    assert RenderExpr(Expr(p, [s1, gf]), mode) == Ok(Paren(head + (" | " + t1 + " | " + g)));
    ParenOfConcat(head, " | ", t1, " | ", g);
  }

  lemma ParenOfConcat(a: string, b: string, c: string, d: string, e: string)
    ensures Paren(a + (b + c + d + e)) == "(" + a + b + c + d + e + ")"
  {
  }

  lemma SortReverseThenPlain(p: seq<Part>, g: string, mode: Mode)
    requires |g| > 0 && g[0] != '_' && !IsSpecialName(g)
    ensures RenderExpr(Expr(p, [Sort(None, true), Generic(g, NoArgs)]), mode)
         == Ok(RenderPostfix(p) + " | " + SortText(None, true) + " | " + g)
  {
    var s2, gf := Sort(None, true), Generic(g, NoArgs);
    var head, t2 := RenderPostfix(p), SortText(None, true);
    SortWithout(mode);
    SortThenPlain(p, s2, t2, g, mode);
    NoNamedParams(s2, gf);
    ExprOfFold(p, [s2, gf], Acc(head, " | " + t2 + " | " + g, None), mode);
    AssocTail(head, " | ", t2, " | ", g);
  }

  lemma NoNamedParams(f: Filter, h: Filter)
    requires !(f.Sort? && f.attribute.Some?) && !(h.Sort? && h.attribute.Some?)
    ensures !HasNamedParams([f, h])
  {
  }

  lemma AssocTail(a: string, b: string, c: string, d: string, e: string)
    ensures a + (b + c + d + e) == a + b + c + d + e
  {
  }

  /** The fold over a sort followed by a plain filter without arguments. */
  lemma SortThenPlain(p: seq<Part>, f: Filter, text: string, g: string, mode: Mode)
    requires f.Sort? && PipeText(f, "", mode) == Ok(text)
    requires |g| > 0 && g[0] != '_' && !IsSpecialName(g)
    ensures RenderFilters([f, Generic(g, NoArgs)], Acc(RenderPostfix(p), "", None), mode)
         == Ok(Acc(RenderPostfix(p), " | " + text + " | " + g, None))
  {
    var head := RenderPostfix(p);
    var gf := Generic(g, NoArgs);
    var acc := Acc(head, "", None);
    PlainNameIsPiped(f);
    PlainNameIsPiped(gf);
    PlainNamePrinted(g);
    assert RenderFilterArgs(f, mode) == Ok([]) && RenderFilterArgs(gf, mode) == Ok([]);
    assert Join([], ", ") == "";
    assert "" + " | " + text == " | " + text;
    assert RenderFilter(f, acc, mode) == Ok(Acc(head, " | " + text, None));
    assert PipeText(gf, "", mode) == Ok(g);
    assert RenderFilter(gf, Acc(head, " | " + text, None), mode) == Ok(Acc(head, " | " + text + " | " + g, None));
    assert [f, gf][1..] == [gf] && [gf][1..] == [];
    assert RenderFilters([gf], Acc(head, " | " + text, None), mode) == Ok(Acc(head, " | " + text + " | " + g, None));
  }

  // ---------------------------------------------------------------- reading flags

  /** The positional word flag of truncate and reverse flag of sort are set only by a literal
      `true`, not by the string `"true"`. */
  lemma PositionalFlagsNeedLiteralTrue(first: Expr, rest: seq<Expr>)
    ensures Positional("truncate", [first, TrueLiteral()] + rest).killWords
    ensures !Positional("truncate", [first, TrueString()] + rest).killWords
    ensures !Positional("truncate", [first]).killWords
    ensures Positional("sort", [first, TrueLiteral()] + rest).reverse
    ensures !Positional("sort", [first, TrueString()] + rest).reverse
    ensures !Positional("sort", [first]).reverse
  {
    assert ([first, TrueLiteral()] + rest)[1] == TrueLiteral();
    assert ([first, TrueString()] + rest)[1] == TrueString();
  }

  /** Whether the first filter argument is a keyword-argument list. */
  predicate KeywordCall(items: seq<NjNode>) {
    |items| > 1 && items[1].children.List? && |items[1].children.items| > 0
    && items[1].children.items[0].key.Some?
  }

  /** Called with keyword arguments, sort is never reversed, and its attribute is the last
      `attribute=` given. */
  lemma KeywordSortNeverReverses(items: seq<NjNode>, args: seq<Expr>, t: string, mode: Mode)
    requires |items| >= 1 && KeywordCall(items)
    ensures var r := MakeFilter("sort", items, args, t, mode);
            r.Ok? ==>
              && r.value.Sort? && !r.value.reverse
              && r.value.attribute == Lookup(NamedArgs(items[1].children.items, 0, t, mode).value, "attribute")
  {
  }

  /** Called with keyword arguments, selectattr prefers the keywords over the positional
      arguments. */
  lemma KeywordWhere(items: seq<NjNode>, args: seq<Expr>, t: string, mode: Mode)
    requires |items| >= 1 && KeywordCall(items)
    ensures var r := MakeFilter("selectattr", items, args, t, mode);
            r.Ok? ==>
              var pairs := NamedArgs(items[1].children.items, 0, t, mode).value;
              && r.value.Where?
              && (Lookup(pairs, "attribute").Some? ==> r.value.attribute == Lookup(pairs, "attribute"))
              && (Lookup(pairs, "attribute").None? ==> r.value.attribute == (if |args| > 0 then Some(args[0]) else None))
              && (Lookup(pairs, "value").Some? ==> r.value.value == Lookup(pairs, "value"))
  {
  }

  // ---------------------------------------------------------------- filter chains

  /** `x | f | g` unwinds innermost first: the filters come out as `f` then `g`, renamed to
      their canonical names where they have one. */
  lemma ChainInnermostFirst(x: string, f: string, g: string, t: string, mode: Mode)
    requires !HasFactory(f) && !HasFactory(g)
    ensures ConvertExprNode(FilterCall(g, FilterCall(f, Symbol(x, None), []), []), t, mode)
         == Ok(Expr([Str(x)], [Generic(FilterToIr(f), NoArgs), Generic(FilterToIr(g), NoArgs)]))
  {
    var sym := Symbol(x, None);
    var inner := FilterCall(f, sym, []);
    var outer := FilterCall(g, inner, []);
    var ff, gf := Generic(FilterToIr(f), NoArgs), Generic(FilterToIr(g), NoArgs);
    assert ConvertExprNode(sym, t, mode) == Ok(Expr([Str(x)], []));
    assert ParseFilterChain(sym, t, mode) == Ok(Expr([Str(x)], []));
    assert MakeFilter(f, [sym], [], t, mode) == Ok(ff);
    NunjucksParseFindings.FilterStep(inner, sym, f, t, mode);
    assert ParseFilterChain(inner, t, mode) == Ok(Expr([Str(x)], [] + [ff]));
    assert MakeFilter(g, [inner], [], t, mode) == Ok(gf);
    NunjucksParseFindings.FilterStep(outer, inner, g, t, mode);
    assert ([] + [ff]) + [gf] == [ff, gf];
  }

  // ---------------------------------------------------------------- comparisons

  /** A comparison chain is read from its first operator only: later operators change
      nothing. */
  lemma CompareReadsFirstOperator(n: NjNode, extra: seq<CompareOperand>, t: string, mode: Mode)
    requires n.typename == "Compare" && |n.ops| >= 1
    ensures ConvertExprNode(n.(ops := n.ops[..1] + extra), t, mode) == ConvertExprNode(n.(ops := n.ops[..1]), t, mode)
  {
    assert (n.ops[..1] + extra)[0] == n.ops[..1][0];
  }

  // ---------------------------------------------------------------- unless

  /** An `if not` with no else, or with an empty else, is an unless without the `not`s; with
      any other else it stays an if. */
  lemma UnlessDropsEmptyElse(c: Expr, cs: seq<IrNode>, es: seq<IrNode>)
    requires HasNot(c.filters)
    ensures DetectUnless([Branch(Some(c), cs)])
         == (UnlessVariant, [Branch(Some(Expr(c.postfix, WithoutNot(c.filters))), cs)])
    ensures DetectUnless([Branch(Some(c), cs), Branch(None, [])])
         == (UnlessVariant, [Branch(Some(Expr(c.postfix, WithoutNot(c.filters))), cs)])
    ensures es != [] ==>
      DetectUnless([Branch(Some(c), cs), Branch(None, es)]) == (IfVariant, [Branch(Some(c), cs), Branch(None, es)])
  {
  }

  /** The condition of a recognised unless holds no `not`. */
  lemma UnlessConditionIsPositive(bs: seq<Branch>)
    requires |bs| >= 1 && bs[0].condition.Some?
    ensures DetectUnless(bs).0 == UnlessVariant ==>
      |DetectUnless(bs).1| == 1 && DetectUnless(bs).1[0].condition.Some?
      && !HasNot(DetectUnless(bs).1[0].condition.value.filters)
    ensures DetectUnless(bs).0 == IfVariant ==> DetectUnless(bs).1 == bs
  {
    var r := WithoutNot(bs[0].condition.value.filters);
    assert !HasNot(r) by {
      forall i | 0 <= i < |r| ensures !IsNot(r[i]) { }
    }
  }

  // ---------------------------------------------------------------- raw text

  /** Template text whose template, up to ten characters past it, holds a raw opener becomes
      raw content without whitespace control. */
  lemma RawText(s: string, col: nat, t: string, ctx: Context, mode: Mode)
    requires RawPreceded(t, col)
    requires !Includes(s, COMMENT_MARK)
    ensures ConvertNode(OutputOf([TemplateData(s, Some(col))]), t, ctx, mode) == Ok([Raw(Str(s), false, false)])
  {
  }

  /** The raw opener just before the text is seen, in either spelling. */
  lemma RawOpenerSeen(pre: string, s: string)
    ensures RawPreceded(pre + "{% raw %}" + s, |pre| + 9)
    ensures RawPreceded(pre + "{%raw%}" + s, |pre| + 7)
  {
    var t1 := pre + "{% raw %}" + s;
    var t2 := pre + "{%raw%}" + s;
    var b1 := Slice(t1, 0, |pre| + 19);
    var b2 := Slice(t2, 0, |pre| + 17);
    assert b1[|pre|..|pre| + 9] == "{% raw %}";
    assert b2[|pre|..|pre| + 7] == "{%raw%}";
    assert OccursAt(b1, "{% raw %}", |pre|);
    assert OccursAt(b2, "{%raw%}", |pre|);
    IncludesIff(b1, "{% raw %}");
    IncludesIff(b2, "{%raw%}");
  }

  /** Text with no raw opener before it, and no comment mark, stays text. */
  lemma PlainTextStaysText(s: string, col: nat, t: string, ctx: Context, mode: Mode)
    requires !RawPreceded(t, col)
    requires !Includes(s, COMMENT_MARK)
    ensures ConvertNode(OutputOf([TemplateData(s, Some(col))]), t, ctx, mode) == Ok([Text(Str(s))])
  {
  }
}
