/**
 * The Liquid front-end against the Liquid back-end: converting distributes over template lists,
 * and for each kind of construct the text the back-end prints from the front-end's node is the
 * text the construct was written as, when it was written in the back-end's spacing: plain
 * text, comments, outputs with filter arguments and string literals (sliced verbatim from the
 * input), if/elsif chains, case/when, loops with and without else, raw blocks and tags without
 * a body. A condition the front-end extracts from a property path is the text the back-end
 * prints for that path.
 */
module LiquidParseFacts {
  import opened Wrappers
  import opened Js
  import Ir
  import opened LiquidTemplate
  import opened LiquidParse
  import L = LiquidIr
  import R = LiquidRender
  import RF = LiquidRenderFacts

  // ---------------------------------------------------------------- template builders

  /** A text template. */
  function Html(s: string): Template {
    Template(Token(HtmlKind, s, 0, "", false, false), s, None, "", NoBranches, NoTemplates, NoTemplates, None)
  }

  /** The property values of a path of names. */
  function Props(names: seq<string>): seq<Prim> {
    seq(|names|, i requires 0 <= i < |names| => Str(names[i]))
  }

  /** A value that is one property path, without filters. */
  function PathValue(names: seq<string>): Value {
    Value(Some([Operand(Some(Props(names)), Undefined, Undefined, false, 0, 0)]), [])
  }

  // ---------------------------------------------------------------- template lists

  /** Converting a concatenation is the concatenation of the conversions; the first list that
      fails decides the error. */
  lemma {:induction false} ConvertAllAppend(a: seq<Template>, b: seq<Template>)
    ensures ConvertAll(a).Ok? && ConvertAll(b).Ok? ==> ConvertAll(a + b) == Ok(ConvertAll(a).value + ConvertAll(b).value)
    ensures ConvertAll(a).Err? ==> ConvertAll(a + b) == ConvertAll(a)
    ensures ConvertAll(a).Ok? && ConvertAll(b).Err? ==> ConvertAll(a + b) == ConvertAll(b)
  {
    if a == [] {
      assert a + b == b;
      assert ConvertAll(a) == Ok([]);
      if ConvertAll(b).Ok? {
        assert [] + ConvertAll(b).value == ConvertAll(b).value;
      }
    } else {
      var ab := a + b;
      assert ab[0] == a[0];
      assert ab[1..] == a[1..] + b;
      ConvertAllAppend(a[1..], b);
      var h, t, tb := ConvertTemplate(a[0]), ConvertAll(a[1..]), ConvertAll(a[1..] + b);
      if h.Err? {
        assert ConvertAll(a) == Err(h.error);
        assert ConvertAll(ab) == Err(h.error);
      } else if t.Err? {
        assert ConvertAll(a) == Err(t.error);
        assert tb == t;
        assert ConvertAll(ab) == Err(t.error);
      } else if ConvertAll(b).Err? {
        assert tb == ConvertAll(b);
        assert ConvertAll(ab) == ConvertAll(b);
      } else {
        var x, y := t.value, ConvertAll(b).value;
        assert ConvertAll(a) == Ok(h.value + x);
        assert tb == Ok(x + y);
        assert ConvertAll(ab) == Ok(h.value + (x + y));
        assert h.value + (x + y) == (h.value + x) + y;
      }
    }
  }

  /** Each template's node is of the kind its token and tag fields select. */
  lemma {:induction false} ConvertAllCorresponds(ts: seq<Template>)
    requires ConvertAll(ts).Ok?
    ensures forall i :: 0 <= i < |ts| ==> Corresponds(ts[i], ConvertAll(ts).value[i])
  {
    if ts != [] {
      var h := ConvertTemplate(ts[0]).value;
      ConvertAllCorresponds(ts[1..]);
      var rest := ConvertAll(ts[1..]).value;
      assert ConvertAll(ts).value == h + rest;
      forall i | 0 <= i < |ts| ensures Corresponds(ts[i], ConvertAll(ts).value[i]) {
        if i > 0 {
          assert ts[i] == ts[1..][i - 1];
        }
      }
    }
  }

  /** One template's list converts to its node. */
  lemma ParseOne(t: Template)
    ensures ConvertTemplate(t).Ok? ==> Parse([t]) == ConvertTemplate(t)
    ensures ConvertTemplate(t).Err? ==> Parse([t]) == ConvertTemplate(t)
  {
    assert [t][1..] == [];
    assert ConvertAll([]) == Ok([]);
    if ConvertTemplate(t).Ok? {
      assert ConvertTemplate(t).value + [] == ConvertTemplate(t).value;
    }
  }

  /** One node's list prints as the node. */
  lemma RenderOne(n: L.Node)
    ensures R.Render([n]) == R.RenderNode(n)
  {
    assert [n][1..] == [];
    assert R.RenderNodes([]) == Ok("");
    if R.RenderNode(n).Ok? {
      assert R.RenderNode(n).value + "" == R.RenderNode(n).value;
    }
  }

  /** Plain text comes back unchanged: a list of text templates prints as their texts,
      concatenated. */
  lemma {:induction false} TextRoundTrip(strs: seq<string>)
    ensures var ts := seq(|strs|, i requires 0 <= i < |strs| => Html(strs[i]));
      Parse(ts).Ok? && R.Render(Parse(ts).value) == Ok(Concat(strs))
  {
    var ts := seq(|strs|, i requires 0 <= i < |strs| => Html(strs[i]));
    if strs == [] {
      assert ts == [];
      assert R.Render([]) == Ok("");
    } else {
      var s0, rest := strs[0], strs[1..];
      var tr := seq(|rest|, i requires 0 <= i < |rest| => Html(rest[i]));
      assert ts == [Html(s0)] + tr;
      TextRoundTrip(rest);
      assert ConvertTemplate(Html(s0)) == Ok([L.Text(s0)]);
      ParseOne(Html(s0));
      ConvertAllAppend([Html(s0)], tr);
      var ns := ConvertAll(tr).value;
      assert Parse(ts) == Ok([L.Text(s0)] + ns);
      RenderOne(L.Text(s0));
      RF.RenderNodesAppend([L.Text(s0)], ns);
      assert R.Render(Parse(ts).value) == Ok(s0 + Concat(rest));
      assert strs == [s0] + rest;
      ConcatAppend([s0], rest);
      assert Concat([s0]) == s0;
    }
  }

  // ---------------------------------------------------------------- comments

  /** A search from the start of a text finds the closing pattern right after it when the text
      does not contain the pattern, not even running into the pattern. */
  lemma ClosingFound(front: string, c: string, close: string, post: string)
    requires |close| > 0 && forall k :: 0 <= k < |c| ==> !OccursAt(c + close, close, k)
    ensures IndexOf(front + c + close + post, close, |front|) == Some(|front| + |c|)
  {
    var input := front + c + close + post;
    var s := |front|;
    SliceOfMiddle(front + c, close, post, 0, |close|);
    assert close[0..|close|] == close;
    assert OccursAt(input, close, s + |c|);
    forall k | s <= k < s + |c| ensures !OccursAt(input, close, k) {
      SliceOfMiddle(front, c + close, post, k - s, |close|);
      assert !OccursAt(c + close, close, k - s);
    }
    IndexOfFirst(input, close, s, s + |c|);
  }

  /** A comment comes back as written: its text is recovered from the input between the opening
      and closing tags, and printed between them again. */
  lemma CommentRoundTrip(pre: string, c: string, post: string, tl: bool, tr: bool)
    requires forall k :: 0 <= k < |c| ==> !OccursAt(c + COMMENT_CLOSE, COMMENT_CLOSE, k)
    ensures var input := pre + COMMENT_OPEN + c + COMMENT_CLOSE + post;
      var t := PlainTag(Token(TagKind, input, |pre|, "", tl, tr), "comment");
      && Parse([t]) == Ok([L.Comment(c)])
      && R.Render(Parse([t]).value) == Ok(COMMENT_OPEN + c + COMMENT_CLOSE)
  {
    var input := pre + COMMENT_OPEN + c + COMMENT_CLOSE + post;
    CommentTextFound(pre, c, post);
    var t := PlainTag(Token(TagKind, input, |pre|, "", tl, tr), "comment");
    assert ConvertTemplate(t) == Ok([L.Comment(c)]);
    ParseOne(t);
    RenderOne(L.Comment(c));
  }

  /** The text between a comment's tags is recovered from the input. */
  lemma CommentTextFound(pre: string, c: string, post: string)
    requires forall k :: 0 <= k < |c| ==> !OccursAt(c + COMMENT_CLOSE, COMMENT_CLOSE, k)
    ensures CommentContent(pre + COMMENT_OPEN + c + COMMENT_CLOSE + post, |pre|) == c
  {
    var input := pre + COMMENT_OPEN + c + COMMENT_CLOSE + post;
    var front := pre + COMMENT_OPEN;
    ClosingFound(front, c, COMMENT_CLOSE, post);
    assert input == front + c + (COMMENT_CLOSE + post);
    SliceOfMiddle(front, c, COMMENT_CLOSE + post, 0, |c|);
    assert c[0..|c|] == c;
  }

  /** A comment with no closing tag after it has no text. */
  lemma UnclosedCommentIsEmpty(input: string, begin: nat)
    requires IndexOf(input, COMMENT_CLOSE, begin + |COMMENT_OPEN|).None?
    ensures CommentContent(input, begin) == ""
  {
  }

  // ---------------------------------------------------------------- outputs

  /** An output template. */
  function OutputTemplate(input: string, begin: nat, v: Value, tl: bool, tr: bool): Template {
    Template(Token(OutputKind, input, begin, "", tl, tr), "", Some(v), "", NoBranches, NoTemplates, NoTemplates, None)
  }

  /** A span over the middle of an input reads back the middle. */
  lemma ArgSpan(front: string, arg: string, back: string)
    ensures SpanTexts(front + arg + back, [Span(Some(|front|), Some(|front| + |arg|))]) == [arg]
  {
    SliceOfMiddle(front, arg, back, 0, |arg|);
    assert arg[0..|arg|] == arg;
  }

  /** An output converts to its access chain and its filters, keeping its whitespace control. */
  lemma ConvertOutput(input: string, begin: nat, ops: seq<Operand>, fcs: seq<FilterCall>, tl: bool, tr: bool)
    ensures Parse([OutputTemplate(input, begin, Value(Some(ops), fcs), tl, tr)])
         == Ok([L.Output(Postfix(input, ops), ConvertFilters(input, fcs), tl, tr)])
  {
    ParseOne(OutputTemplate(input, begin, Value(Some(ops), fcs), tl, tr));
  }

  lemma RenderOutput(ps: seq<Prim>, fs: seq<L.Filter>, tl: bool, tr: bool)
    ensures R.Render([L.Output(ps, fs, tl, tr)])
         == Ok(R.OutputOpen(tl) + " " + R.AccessPath(ps) + R.FilterPipe(fs) + " " + R.OutputClose(tr))
  {
    RenderOne(L.Output(ps, fs, tl, tr));
  }

  /** A one-operand property path is the property. */
  lemma SingleProperty(input: string, name: string)
    ensures Postfix(input, [Operand(Some([Str(name)]), Undefined, Undefined, false, 0, 0)]) == [Str(name)]
    ensures R.AccessPath([Str(name)]) == name
  {
    var op := Operand(Some([Str(name)]), Undefined, Undefined, false, 0, 0);
    assert [op][1..] == [];
    assert Postfix(input, [op]) == [Str(name)] + [];
    assert R.AccessPath([Str(name)]) == name + "";
  }

  /** A single filter with a single argument prints as ` | name: arg`. */
  lemma SingleFilter(fname: string, arg: string)
    ensures R.FilterPipe([L.Filter(fname, Some([arg]))]) == " | " + fname + ": " + arg
  {
    var f := L.Filter(fname, Some([arg]));
    assert Join([arg], ", ") == arg;
    assert R.FilterTexts([f]) == [fname + ": " + arg];
  }

  /** The text of a property output with one single-argument filter, up to the argument. */
  function FilteredHead(tl: bool, name: string, fname: string): string {
    R.OutputOpen(tl) + " " + name + " | " + fname + ": "
  }

  lemma FilteredOutputText(tl: bool, tr: bool, name: string, fname: string, arg: string)
    ensures R.OutputOpen(tl) + " " + name + (" | " + fname + ": " + arg) + " " + R.OutputClose(tr)
         == FilteredHead(tl, name, fname) + arg + " " + R.OutputClose(tr)
  {
  }

  /** A property output with a filter comes back as written: the argument is the source text of
      its range, and the path, the filter and the whitespace control print as they were read. */
  lemma OutputRoundTrip(pre: string, name: string, fname: string, arg: string, post: string, tl: bool, tr: bool)
    ensures
      var head := FilteredHead(tl, name, fname);
      var src := head + arg + " " + R.OutputClose(tr);
      var input := pre + src + post;
      var b := |pre| + |head|;
      var v := Value(Some([Operand(Some([Str(name)]), Undefined, Undefined, false, 0, 0)]),
                     [FilterCall(fname, Some([Span(Some(b), Some(b + |arg|))]))]);
      var t := OutputTemplate(input, |pre|, v, tl, tr);
      && Parse([t]) == Ok([L.Output([Str(name)], [L.Filter(fname, Some([arg]))], tl, tr)])
      && R.Render(Parse([t]).value) == Ok(src)
  {
    var head := FilteredHead(tl, name, fname);
    var src := head + arg + " " + R.OutputClose(tr);
    var input := pre + src + post;
    var b := |pre| + |head|;
    assert input == (pre + head) + arg + (" " + R.OutputClose(tr) + post);
    var span := Span(Some(b), Some(b + |arg|));
    ArgSpan(pre + head, arg, " " + R.OutputClose(tr) + post);
    var fc := FilterCall(fname, Some([span]));
    var f := L.Filter(fname, Some([arg]));
    assert ConvertFilters(input, [fc]) == [f];
    var op := Operand(Some([Str(name)]), Undefined, Undefined, false, 0, 0);
    SingleProperty(input, name);
    ConvertOutput(input, |pre|, [op], [fc], tl, tr);
    RenderOutput([Str(name)], [f], tl, tr);
    SingleFilter(fname, arg);
    FilteredOutputText(tl, tr, name, fname, arg);
  }

  /** A quoted operand contributes the source text of its range. */
  lemma QuotedOperand(input: string, decoded: string, b: nat, e: nat)
    ensures Postfix(input, [Operand(None, Undefined, Str(decoded), true, b, e)]) == [Str(Slice(input, b, e))]
  {
    var op := Operand(None, Undefined, Str(decoded), true, b, e);
    assert [op][1..] == [];
    assert Postfix(input, [op]) == [Str(Slice(input, b, e))] + [];
  }

  /** An output of a single string prints it between the delimiters. */
  lemma BareOutputText(lit: string, tl: bool, tr: bool)
    ensures R.Render([L.Output([Str(lit)], [], tl, tr)]) == Ok(R.OutputOpen(tl) + " " + lit + " " + R.OutputClose(tr))
  {
    RenderOutput([Str(lit)], [], tl, tr);
    SingleProperty("", lit);
    assert R.FilterPipe([]) == "";
    assert R.OutputOpen(tl) + " " + lit + "" + " " + R.OutputClose(tr) == R.OutputOpen(tl) + " " + lit + " " + R.OutputClose(tr);
  }

  /** The text of an output up to its expression. */
  function OutputHead(tl: bool): string {
    R.OutputOpen(tl) + " "
  }

  /** A string literal prints as written in the input, quotes and escapes included, whatever
      content the external parser decoded it to. */
  lemma QuotedLiteralRoundTrip(pre: string, lit: string, decoded: string, post: string, tl: bool, tr: bool)
    ensures
      var head := OutputHead(tl);
      var src := head + lit + " " + R.OutputClose(tr);
      var input := pre + src + post;
      var b := |pre| + |head|;
      var op := Operand(None, Undefined, Str(decoded), true, b, b + |lit|);
      var t := OutputTemplate(input, |pre|, Value(Some([op]), []), tl, tr);
      && Parse([t]) == Ok([L.Output([Str(lit)], [], tl, tr)])
      && R.Render(Parse([t]).value) == Ok(src)
  {
    var head := OutputHead(tl);
    QuotedLiteralParsed(pre, lit, decoded, post, tl, tr);
    BareOutputText(lit, tl, tr);
    assert R.OutputOpen(tl) + " " + lit + " " + R.OutputClose(tr) == head + lit + " " + R.OutputClose(tr);
  }

  /** The front-end half: the literal operand becomes a one-part path holding its source text. */
  lemma QuotedLiteralParsed(pre: string, lit: string, decoded: string, post: string, tl: bool, tr: bool)
    ensures
      var head := OutputHead(tl);
      var input := pre + (head + lit + " " + R.OutputClose(tr)) + post;
      var b := |pre| + |head|;
      var op := Operand(None, Undefined, Str(decoded), true, b, b + |lit|);
      Parse([OutputTemplate(input, |pre|, Value(Some([op]), []), tl, tr)]) == Ok([L.Output([Str(lit)], [], tl, tr)])
  {
    var head := OutputHead(tl);
    var input := pre + (head + lit + " " + R.OutputClose(tr)) + post;
    var b := |pre| + |head|;
    assert input == (pre + head) + lit + (" " + R.OutputClose(tr) + post);
    SliceOfMiddle(pre + head, lit, " " + R.OutputClose(tr) + post, 0, |lit|);
    assert lit[0..|lit|] == lit;
    QuotedOperand(input, decoded, b, b + |lit|);
    assert ConvertFilters(input, []) == [];
    ConvertOutput(input, |pre|, [Operand(None, Undefined, Str(decoded), true, b, b + |lit|)], [], tl, tr);
  }

  /** A condition the front-end extracts from a property path is the text the back-end prints
      for the same path as an output: the names joined by dots. */
  lemma ConditionIsAccessPath(names: seq<string>)
    ensures ExtractCondition(Some(PathValue(names))) == Ok(Some(R.AccessPath(Props(names))))
    ensures R.AccessPath(Props(names)) == Join(names, ".")
  {
    assert JoinStrings(Props(names)) == names;
    var op := PathValue(names).initial.value[0];
    assert [op][1..] == [];
    assert ConditionParts([op]) == Ok(names + []);
    assert names + [] == names;
    RF.PropertyPathIsDotted(names);
    assert Props(names) == seq(|names|, i requires 0 <= i < |names| => Str(names[i]));
  }

  /** A condition cannot be extracted from an operand that is not a property path. */
  lemma LiteralConditionFails(lit: Prim, others: seq<Operand>)
    ensures ExtractCondition(Some(Value(Some([Operand(None, lit, Undefined, false, 0, 0)] + others), [])))
         == Err(TypeError("map"))
  {
    assert ([Operand(None, lit, Undefined, false, 0, 0)] + others)[0].props.None?;
  }

  // ---------------------------------------------------------------- conditionals

  /** A one-element text list converts and prints as the text. */
  lemma SingleText(s: string)
    ensures ConvertAll([Html(s)]) == Ok([L.Text(s)])
    ensures R.RenderNodes([L.Text(s)]) == Ok(s)
  {
    assert ConvertTemplate(Html(s)) == Ok([L.Text(s)]);
    ParseOne(Html(s));
    RenderOne(L.Text(s));
  }

  /** An if/elsif written in the back-end's spacing comes back as written: the first branch's
      condition is the tag's raw arguments, the second's the path of its value. */
  lemma IfElsifRoundTrip(args: string, path: seq<string>, x: string, y: string, tl: bool, tr: bool)
    requires Join(path, ".") != ""
    ensures
      var b0 := LiquidTemplate.Branch(None, Templates([Html(x)]), None);
      var b1 := LiquidTemplate.Branch(None, Templates([Html(y)]), Some(PathValue(path)));
      var t := Template(Token(TagKind, "", 0, args, tl, tr), "", None, "if", Branches([b0, b1]),
                        NoTemplates, NoTemplates, None);
      && Parse([t]).Ok?
      && R.Render(Parse([t]).value)
         == Ok(R.Stmt(tl, tr, "if " + args) + x + R.Stmt(tl, tr, "elsif " + Join(path, ".")) + y + R.Stmt(tl, tr, "endif"))
  {
    var b0 := LiquidTemplate.Branch(None, Templates([Html(x)]), None);
    var b1 := LiquidTemplate.Branch(None, Templates([Html(y)]), Some(PathValue(path)));
    var t := Template(Token(TagKind, "", 0, args, tl, tr), "", None, "if", Branches([b0, b1]),
                      NoTemplates, NoTemplates, None);
    var p := Join(path, ".");
    ConditionIsAccessPath(path);
    SingleText(x);
    SingleText(y);
    assert ConvertBody(b0) == Ok([L.Text(x)]);
    assert ConvertBody(b1) == Ok([L.Text(y)]);
    var l0, l1 := L.Branch(Some(args), [L.Text(x)]), L.Branch(Some(p), [L.Text(y)]);
    assert [b1][1..] == [];
    assert ConvertIfBranches([b1], args, false) == Ok([l1] + []);
    assert [l1] + [] == [l1];
    assert [b0, b1][1..] == [b1];
    assert ConvertIfBranches([b0, b1], args, true) == Ok([l0] + [l1]);
    assert [l0] + [l1] == [l0, l1];
    var n := L.Conditional(Ir.IfVariant, [l0, l1], tl, tr);
    assert ConvertConditional(t) == Ok([n]);
    assert ConvertTemplate(t) == Ok([n]);
    ParseOne(t);
    RF.IfKeywords(p, Some(args), [L.Text(x)], [L.Text(y)], tl, tr);
    RenderOne(n);
  }

  /** A case with one `when` comes back as written: the subject is the path of the tag's value,
      the `when` value is printed single-quoted, and the subject branch prints no children. */
  lemma CaseRoundTrip(path: seq<string>, v: string, body: string, tl: bool, tr: bool)
    ensures
      var w := LiquidTemplate.Branch(Some([Str(v)]), Templates([Html(body)]), None);
      var t := Template(Token(TagKind, "", 0, "", tl, tr), "", Some(PathValue(path)), "case", Branches([w]),
                        NoTemplates, NoTemplates, None);
      && Parse([t]).Ok?
      && R.Render(Parse([t]).value)
         == Ok(R.Stmt(tl, tr, "case " + Join(path, ".")) + R.Stmt(tl, tr, "when '" + v + "'") + body + R.Stmt(tl, tr, "endcase"))
  {
    var w := LiquidTemplate.Branch(Some([Str(v)]), Templates([Html(body)]), None);
    var t := Template(Token(TagKind, "", 0, "", tl, tr), "", Some(PathValue(path)), "case", Branches([w]),
                      NoTemplates, NoTemplates, None);
    var p := Join(path, ".");
    var wc := "'" + v + "'";
    var n := L.Conditional(Ir.CaseVariant, [L.Branch(Some(p), []), L.Branch(Some(wc), [L.Text(body)])], tl, tr);
    CaseConverts(path, v, body, tl, tr);
    ParseOne(t);
    assert [L.Text(body)][1..] == [];
    assert R.RenderNodes([L.Text(body)]) == Ok(body + "");
    assert body + "" == body;
    RF.CaseKeywords(Some(p), [], wc, [L.Text(body)], tl, tr);
    RenderOne(n);
    assert "when " + wc == "when '" + v + "'";
  }

  /** A case with one `when` converts to a case conditional of a subject branch and a `when`
      branch. */
  lemma CaseConverts(path: seq<string>, v: string, body: string, tl: bool, tr: bool)
    ensures
      var w := LiquidTemplate.Branch(Some([Str(v)]), Templates([Html(body)]), None);
      var t := Template(Token(TagKind, "", 0, "", tl, tr), "", Some(PathValue(path)), "case", Branches([w]),
                        NoTemplates, NoTemplates, None);
      ConvertTemplate(t)
        == Ok([L.Conditional(Ir.CaseVariant, [L.Branch(Some(Join(path, ".")), []),
                                              L.Branch(Some("'" + v + "'"), [L.Text(body)])], tl, tr)])
  {
    var w := LiquidTemplate.Branch(Some([Str(v)]), Templates([Html(body)]), None);
    var t := Template(Token(TagKind, "", 0, "", tl, tr), "", Some(PathValue(path)), "case", Branches([w]),
                      NoTemplates, NoTemplates, None);
    var p := Join(path, ".");
    ConditionIsAccessPath(path);
    var wc := "'" + v + "'";
    assert WhenCondition([Str(v)]) == wc by {
      assert seq(1, i requires 0 <= i < 1 => "'" + TemplateString([Str(v)][i]) + "'") == [wc];
    }
    SingleText(body);
    assert ConvertBody(w) == Ok([L.Text(body)]);
    var lw := L.Branch(Some(wc), [L.Text(body)]);
    assert [w][1..] == [];
    assert ConvertWhens([w]) == Ok([lw] + []);
    assert [lw] + [] == [lw];
    var ls := L.Branch(Some(p), []);
    assert ConvertCase(t) == Ok([ls] + [lw]);
    assert [ls] + [lw] == [ls, lw];
    assert ConvertConditional(t) == Ok([L.Conditional(Ir.CaseVariant, [ls, lw], tl, tr)]);
  }

  // ---------------------------------------------------------------- blocks and tags

  /** A loop comes back as written, with its else part exactly when the else body is
      non-empty. */
  lemma LoopRoundTrip(args: string, x: string, elseBody: seq<string>, tl: bool, tr: bool)
    ensures
      var es := seq(|elseBody|, i requires 0 <= i < |elseBody| => Html(elseBody[i]));
      var t := Template(Token(TagKind, "", 0, args, tl, tr), "", None, "for", NoBranches,
                        Templates(es), Templates([Html(x)]), None);
      && Parse([t]).Ok?
      && R.Render(Parse([t]).value)
         == Ok(R.Stmt(tl, tr, "for " + args) + x
               + (if elseBody != [] then R.Stmt(tl, tr, "else") + Concat(elseBody) else "")
               + R.Stmt(tl, tr, "endfor"))
  {
    var es := seq(|elseBody|, i requires 0 <= i < |elseBody| => Html(elseBody[i]));
    var t := Template(Token(TagKind, "", 0, args, tl, tr), "", None, "for", NoBranches,
                      Templates(es), Templates([Html(x)]), None);
    SingleText(x);
    TextRoundTrip(elseBody);
    var ens := ConvertAll(es).value;
    assert R.RenderNodes(ens) == Ok(Concat(elseBody));
    var el := if elseBody != [] then L.Nodes(ens) else L.NoNodes;
    var n := L.Loop(args, [L.Text(x)], el, tl, tr);
    assert ConvertBlock(t) == Ok([n]);
    assert ConvertTemplate(t) == Ok([n]);
    ParseOne(t);
    var elseText := if elseBody != [] then R.Stmt(tl, tr, "else") + Concat(elseBody) else "";
    assert R.RenderLoop(n) == Ok(R.Stmt(tl, tr, "for " + args) + x + elseText + R.Stmt(tl, tr, "endfor"));
    RenderOne(n);
  }

  /** A raw block comes back as written: its text is the source of its inner tokens. */
  lemma RawRoundTrip(pre: string, body: string, post: string, tl: bool, tr: bool)
    ensures
      var input := pre + body + post;
      var t := Template(Token(TagKind, input, 0, "", tl, tr), "", None, "raw", NoBranches, NoTemplates, NoTemplates,
                        Some([Span(Some(|pre|), Some(|pre| + |body|))]));
      && Parse([t]).Ok?
      && R.Render(Parse([t]).value) == Ok(R.Stmt(tl, tr, "raw") + body + R.Stmt(tl, tr, "endraw"))
  {
    var input := pre + body + post;
    var spans := [Span(Some(|pre|), Some(|pre| + |body|))];
    var t := Template(Token(TagKind, input, 0, "", tl, tr), "", None, "raw", NoBranches, NoTemplates, NoTemplates,
                      Some(spans));
    SliceOfMiddle(pre, body, post, 0, |body|);
    assert body[0..|body|] == body;
    assert SpanTexts(input, spans) == [body];
    assert RawContent(input, Some(spans)) == body;
    var cs := if body != "" then [L.Text(body)] else [];
    var n := L.Tag("raw", "", cs, tl, tr);
    assert ConvertTemplate(t) == Ok([n]);
    ParseOne(t);
    SingleText(body);
    assert R.RenderNodes(cs) == Ok(body);
    assert "raw" + "" == "raw";
    assert "end" + "raw" == "endraw";
    RF.BlockTagEnclosesChildren("raw", "", cs, tl, tr);
    assert R.RenderNode(n) == Ok(R.Stmt(tl, tr, "raw") + body + R.Stmt(tl, tr, "endraw"));
    RenderOne(n);
  }

  /** A self-closing tag such as `assign` comes back as written; any other tag without a body
      is printed with an immediately following end tag. */
  lemma PlainTagRoundTrip(name: string, args: string, tl: bool, tr: bool)
    requires name != "comment" && name != "raw"
    ensures var t := PlainTag(Token(TagKind, "", 0, args, tl, tr), name);
      var open := R.Stmt(tl, tr, name + (if args != "" then " " + args else ""));
      && Parse([t]) == Ok([L.Tag(name, args, [], tl, tr)])
      && R.Render(Parse([t]).value)
         == Ok(if name in ["assign", "include", "break", "continue"] then open else open + R.Stmt(tl, tr, "end" + name))
  {
    var t := PlainTag(Token(TagKind, "", 0, args, tl, tr), name);
    var n := L.Tag(name, args, [], tl, tr);
    assert ConvertTemplate(t) == Ok([n]);
    ParseOne(t);
    RenderOne(n);
    var open := R.Stmt(tl, tr, name + (if args != "" then " " + args else ""));
    if name in ["assign", "include", "break", "continue"] {
      RF.SelfClosingDropsChildren(name, args, [], tl, tr);
    } else {
      RF.BlockTagEnclosesChildren(name, args, [], tl, tr);
      assert open + "" + R.Stmt(tl, tr, "end" + name) == open + R.Stmt(tl, tr, "end" + name);
    }
  }

  /** A token kind the front-end does not handle, anywhere after templates that convert, makes
      the whole conversion throw, naming the kind. */
  lemma UnsupportedKindFails(a: seq<Template>, t: Template, b: seq<Template>)
    requires ConvertAll(a).Ok? && t.token.kind.OtherKind?
    ensures Parse(a + [t] + b) == Err(Thrown("Unsupported token kind: " + IntToString(t.token.kind.code)))
  {
    assert a + [t] + b == a + ([t] + b);
    assert ([t] + b)[0] == t;
    ConvertAllAppend(a, [t] + b);
  }
}
