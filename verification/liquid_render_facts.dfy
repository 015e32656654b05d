/**
 * What the Liquid back-end guarantees: rendering distributes over node lists; access paths and
 * filter pipelines grow one element at a time; an unless prints its first branch only and a
 * case never prints its subject branch's children; an empty condition prints as `else`; an
 * empty else list is no else; self-closing tags drop their children; the shared IR's other node
 * types fail; and the whitespace-control dashes an output is printed with are the ones the
 * Nunjucks scanner reads back.
 */
module LiquidRenderFacts {
  import opened Wrappers
  import opened Js
  import Ir
  import opened LiquidIr
  import opened LiquidRender
  import NunjucksScan

  // ---------------------------------------------------------------- node lists

  /** Rendering a concatenation is the concatenation of the renderings; the first node list
      that fails decides the error. */
  lemma {:induction false} RenderNodesAppend(a: seq<Node>, b: seq<Node>)
    ensures RenderNodes(a).Ok? && RenderNodes(b).Ok? ==>
      RenderNodes(a + b) == Ok(RenderNodes(a).value + RenderNodes(b).value)
    ensures RenderNodes(a).Err? ==> RenderNodes(a + b) == RenderNodes(a)
    ensures RenderNodes(a).Ok? && RenderNodes(b).Err? ==> RenderNodes(a + b) == RenderNodes(b)
  {
    if a == [] {
      assert a + b == b;
      if RenderNodes(b).Ok? {
        assert "" + RenderNodes(b).value == RenderNodes(b).value;
      }
    } else {
      var h := RenderNode(a[0]);
      var ab := a + b;
      assert ab[0] == a[0];
      assert ab[1..] == a[1..] + b;
      RenderNodesAppend(a[1..], b);
      var t := RenderNodes(a[1..]);
      if h.Ok? && t.Ok? && RenderNodes(b).Ok? {
        var x, y := t.value, RenderNodes(b).value;
        assert RenderNodes(ab) == Ok(h.value + (x + y));
        assert h.value + (x + y) == (h.value + x) + y;
      }
    }
  }

  /** A node of the shared IR's assignment, raw or include type anywhere after a prefix that
      renders makes the whole rendering throw, naming the type. */
  lemma ForeignNodesFail(a: seq<Node>, t: ForeignType, b: seq<Node>)
    requires RenderNodes(a).Ok?
    ensures Render(a + [Foreign(t)] + b)
         == Err(Thrown("Unsupported IR node type: "
                       + (match t case AssignmentType => "assignment" case RawType => "raw" case IncludeType => "include")))
  {
    var n := Foreign(t);
    assert ([n] + b)[0] == n;
    assert a + [n] + b == a + ([n] + b);
    RenderNodesAppend(a, [n] + b);
  }

  // ---------------------------------------------------------------- outputs

  lemma {:induction false} PathTailSnoc(ps: seq<Prim>, p: Prim)
    ensures PathTail(ps + [p]) == PathTail(ps) + PathPart(p)
  {
    if ps == [] {
      assert PathTail([p]) == PathPart(p) + PathTail([]);
    } else {
      assert (ps + [p])[1..] == ps[1..] + [p];
      PathTailSnoc(ps[1..], p);
      assert PathPart(ps[0]) + (PathTail(ps[1..]) + PathPart(p)) == (PathPart(ps[0]) + PathTail(ps[1..])) + PathPart(p);
    }
  }

  /** Extending an access path by an index appends `[n]`; by anything else, `.` and its text. */
  lemma AccessPathSnoc(ps: seq<Prim>, p: Prim)
    requires ps != []
    ensures AccessPath(ps + [p]) == AccessPath(ps) + (if p.Num? then "[" + IntToString(p.n) + "]" else "." + TemplateString(p))
  {
    assert (ps + [p])[0] == ps[0];
    assert (ps + [p])[1..] == ps[1..] + [p];
    PathTailSnoc(ps[1..], p);
  }

  /** A path of property names prints as the names joined by dots. */
  lemma {:induction false} PropertyPathIsDotted(names: seq<string>)
    ensures AccessPath(seq(|names|, i requires 0 <= i < |names| => Str(names[i]))) == Join(names, ".")
  {
    if names != [] {
      var ps := seq(|names|, i requires 0 <= i < |names| => Str(names[i]));
      var init := names[..|names| - 1];
      var last := names[|names| - 1];
      assert names == init + [last];
      var pinit := seq(|init|, i requires 0 <= i < |init| => Str(init[i]));
      assert ps == pinit + [Str(last)];
      JoinSnoc(init, last, ".");
      if init == [] {
        assert ps == [Str(last)];
        assert AccessPath(ps) == last + PathTail([]);
      } else {
        PropertyPathIsDotted(init);
        AccessPathSnoc(pinit, Str(last));
      }
    }
  }

  /** Adding a filter at the end adds ` | ` and the filter's text. */
  lemma FilterPipeSnoc(fs: seq<Filter>, f: Filter)
    ensures FilterPipe(fs + [f]) == FilterPipe(fs) + " | " + FilterText(f)
  {
    var ts, t := FilterTexts(fs), FilterText(f);
    FilterTextsSnoc(fs, f);
    JoinSnoc(ts, t, " | ");
    if fs == [] {
      assert ts == [];
      assert FilterPipe(fs + [f]) == " | " + t;
    } else {
      var j := Join(ts, " | ");
      assert FilterPipe(fs + [f]) == " | " + (j + " | " + t);
      assert " | " + (j + " | " + t) == " | " + j + " | " + t;
    }
  }

  lemma FilterTextsSnoc(fs: seq<Filter>, f: Filter)
    ensures FilterTexts(fs + [f]) == FilterTexts(fs) + [FilterText(f)]
  {
    var l, r := FilterTexts(fs + [f]), FilterTexts(fs) + [FilterText(f)];
    forall i | 0 <= i < |l| ensures l[i] == r[i] {
      if i < |fs| {
        assert (fs + [f])[i] == fs[i];
      }
    }
  }

  /** A filter prints its arguments after a colon, separated by commas; with an absent or empty
      argument list it prints its name alone. */
  lemma FilterArguments(name: string, args: seq<string>)
    ensures FilterText(Filter(name, None)) == name
    ensures FilterText(Filter(name, Some([]))) == name
    ensures args != [] ==> FilterText(Filter(name, Some(args))) == name + ": " + Join(args, ", ")
  {
  }

  /** The Nunjucks scanner reads back the whitespace control of a printed Liquid output, when
      its path and filters contain no `}`. */
  lemma OutputTrimsReadBack(pre: string, p: seq<Prim>, fs: seq<Filter>, tl: bool, tr: bool, post: string, col: nat)
    requires NunjucksScan.NoCloseBrace(AccessPath(p) + FilterPipe(fs))
    requires NunjucksScan.SearchStart(col) <= |pre|
    requires forall k :: NunjucksScan.SearchStart(col) <= k < |pre| ==> !NunjucksScan.OpensAt(pre, k)
    requires pre == "" || pre[|pre| - 1] != '{'
    ensures RenderNode(Output(p, fs, tl, tr)).Ok?
    ensures NunjucksScan.ExtractWhitespaceControl(pre + RenderNode(Output(p, fs, tl, tr)).value + post, Some(col))
         == NunjucksScan.Trims(tl, tr)
  {
    OutputIsDelimited(p, fs, tl, tr);
    NunjucksScan.TrimsRoundTrip(pre, false, tl, tr, AccessPath(p) + FilterPipe(fs), post, col);
  }

  /** An output prints as its path and filters between the output delimiters. */
  lemma OutputIsDelimited(p: seq<Prim>, fs: seq<Filter>, tl: bool, tr: bool)
    ensures RenderNode(Output(p, fs, tl, tr))
         == Ok(NunjucksScan.Delimited(false, tl, tr, AccessPath(p) + FilterPipe(fs)))
  {
    var o, a, f, c := OutputOpen(tl), AccessPath(p), FilterPipe(fs), OutputClose(tr);
    assert o + " " + a + f + " " + c == o + " " + (a + f) + " " + c;
  }

  // ---------------------------------------------------------------- conditionals

  /** An unless prints its first branch only: further branches change nothing. */
  lemma UnlessUsesFirstBranchOnly(b: Branch, rest: seq<Branch>, tl: bool, tr: bool)
    ensures RenderNode(Conditional(Ir.UnlessVariant, [b] + rest, tl, tr))
         == RenderNode(Conditional(Ir.UnlessVariant, [b], tl, tr))
  {
    assert ([b] + rest)[0] == b;
  }

  lemma {:induction false} RenderWhensFrom(bs: seq<Branch>, cs: seq<Branch>, i: nat, tl: bool, tr: bool)
    requires |bs| == |cs| && forall j :: i <= j < |bs| ==> bs[j] == cs[j]
    ensures RenderWhens(bs, i, tl, tr) == RenderWhens(cs, i, tl, tr)
    decreases |bs| - i
  {
    if i < |bs| {
      RenderWhensFrom(bs, cs, i + 1, tl, tr);
    }
  }

  /** A case never prints the children of its subject branch. */
  lemma CaseIgnoresSubjectChildren(c: Option<string>, xs: seq<Node>, rest: seq<Branch>, tl: bool, tr: bool)
    ensures RenderNode(Conditional(Ir.CaseVariant, [Branch(c, xs)] + rest, tl, tr))
         == RenderNode(Conditional(Ir.CaseVariant, [Branch(c, [])] + rest, tl, tr))
  {
    var bs, cs := [Branch(c, xs)] + rest, [Branch(c, [])] + rest;
    RenderWhensFrom(bs, cs, 1, tl, tr);
  }

  /** A case or unless without branches has no condition to print and fails. */
  lemma ConditionalsNeedABranch(tl: bool, tr: bool)
    ensures RenderNode(Conditional(Ir.CaseVariant, [], tl, tr)).Err?
    ensures RenderNode(Conditional(Ir.UnlessVariant, [], tl, tr)).Err?
    ensures RenderNode(Conditional(Ir.IfVariant, [], tl, tr)) == Ok(Stmt(tl, tr, "endif"))
  {
    assert RenderIfBranches([], 0, tl, tr) == Ok("");
    assert "" + Stmt(tl, tr, "endif") == Stmt(tl, tr, "endif");
  }

  /** A later if branch whose condition is empty or absent prints as `else`, a non-empty one as
      `elsif`; the first branch always prints as `if`, an absent condition as `null`. */
  lemma IfKeywords(c: string, d: Option<string>, x: seq<Node>, y: seq<Node>, tl: bool, tr: bool)
    requires RenderNodes(x).Ok? && RenderNodes(y).Ok?
    ensures RenderNode(Conditional(Ir.IfVariant, [Branch(d, x), Branch(Some(c), y)], tl, tr))
         == Ok(Stmt(tl, tr, "if " + (if d.Some? then d.value else "null")) + RenderNodes(x).value
               + Stmt(tl, tr, if c != "" then "elsif " + c else "else") + RenderNodes(y).value
               + Stmt(tl, tr, "endif"))
  {
    var bs := [Branch(d, x), Branch(Some(c), y)];
    var h0 := Stmt(tl, tr, IfOpening(bs[0], true)) + RenderNodes(x).value;
    var h1 := Stmt(tl, tr, IfOpening(bs[1], false)) + RenderNodes(y).value;
    assert RenderIfBranch(bs[0], true, tl, tr) == Ok(h0);
    assert RenderIfBranch(bs[1], false, tl, tr) == Ok(h1);
    TwoIfBranches(bs, h0, h1, tl, tr);
    assert RenderConditional(Conditional(Ir.IfVariant, bs, tl, tr)) == Ok(h0 + h1 + Stmt(tl, tr, "endif"));
    assert h0 + h1 == h0 + Stmt(tl, tr, IfOpening(bs[1], false)) + RenderNodes(y).value;
  }

  /** Two if branches print one after the other. */
  lemma TwoIfBranches(bs: seq<Branch>, h0: string, h1: string, tl: bool, tr: bool)
    requires |bs| == 2
    requires RenderIfBranch(bs[0], true, tl, tr) == Ok(h0) && RenderIfBranch(bs[1], false, tl, tr) == Ok(h1)
    ensures RenderIfBranches(bs, 0, tl, tr) == Ok(h0 + h1)
  {
    assert RenderIfBranches(bs, 2, tl, tr) == Ok("");
    assert RenderIfBranches(bs, 1, tl, tr) == Ok(h1 + "");
    assert h1 + "" == h1;
  }

  /** A case with one later branch prints the subject, then `when` and the branch's condition
      when it is non-empty and `else` otherwise, then `endcase`. */
  lemma CaseKeywords(c: Option<string>, xs: seq<Node>, w: string, y: seq<Node>, tl: bool, tr: bool)
    requires RenderNodes(y).Ok?
    ensures RenderNode(Conditional(Ir.CaseVariant, [Branch(c, xs), Branch(Some(w), y)], tl, tr))
         == Ok(Stmt(tl, tr, "case " + (if c.Some? then c.value else "null"))
               + Stmt(tl, tr, if w != "" then "when " + w else "else") + RenderNodes(y).value
               + Stmt(tl, tr, "endcase"))
  {
    var bs := [Branch(c, xs), Branch(Some(w), y)];
    var hw := Stmt(tl, tr, if w != "" then "when " + w else "else");
    var yv := RenderNodes(y).value;
    var h := hw + yv;
    assert RenderWhen(bs[1], tl, tr) == Ok(h);
    assert RenderWhens(bs, 2, tl, tr) == Ok("");
    assert RenderWhens(bs, 1, tl, tr) == Ok(h + "");
    assert h + "" == h;
    var open := Stmt(tl, tr, "case " + ConditionText(c));
    var close := Stmt(tl, tr, "endcase");
    assert RenderConditional(Conditional(Ir.CaseVariant, bs, tl, tr)) == Ok(open + h + close);
    assert open + (hw + yv) + close == open + hw + yv + close;
  }

  // ---------------------------------------------------------------- loops and tags

  /** An empty else list prints no else part, exactly as an absent one. */
  lemma EmptyElseIsNoElse(a: string, cs: seq<Node>, tl: bool, tr: bool)
    ensures RenderNode(Loop(a, cs, Nodes([]), tl, tr)) == RenderNode(Loop(a, cs, NoNodes, tl, tr))
  {
  }

  /** A self-closing tag prints its opening only, whatever children it has. */
  lemma SelfClosingDropsChildren(name: string, a: string, cs: seq<Node>, tl: bool, tr: bool)
    requires name in ["assign", "include", "break", "continue"]
    ensures RenderNode(Tag(name, a, cs, tl, tr)) == Ok(Stmt(tl, tr, name + (if a != "" then " " + a else "")))
  {
  }

  /** Any other tag prints its children between its opening and `end` followed by its name. */
  lemma BlockTagEnclosesChildren(name: string, a: string, cs: seq<Node>, tl: bool, tr: bool)
    requires name !in ["assign", "include", "break", "continue"]
    requires RenderNodes(cs).Ok?
    ensures RenderNode(Tag(name, a, cs, tl, tr))
         == Ok(Stmt(tl, tr, name + (if a != "" then " " + a else "")) + RenderNodes(cs).value + Stmt(tl, tr, "end" + name))
  {
  }
}
