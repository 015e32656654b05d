/**
 * The text-level work of the Nunjucks front-end, done on the template string itself rather than
 * on the parser's tree: comments are replaced by numbered output placeholders before parsing,
 * whitespace-control dashes are recovered by scanning for the delimiters around a column, and
 * a string literal is re-read from the template to keep its original quotes and escapes.
 * Each scanner is paired with the back-end text it is meant to read back.
 */
module NunjucksScan {
  import opened Wrappers
  import opened Js
  import opened NunjucksRender

  // ---------------------------------------------------------------- comment placeholders

  const COMMENT_MARK: string := "__COMMENT_"

  /** The variable name standing for the k-th comment. */
  function PlaceholderName(k: nat): string {
    COMMENT_MARK + NatToString(k) + "__"
  }

  /** The output tag that replaces the k-th comment. */
  function Placeholder(k: nat): string {
    "{{ " + PlaceholderName(k) + " }}"
  }

  /** The template with its comments replaced, and the trimmed comment bodies in order. */
  datatype Preprocessed = Preprocessed(text: string, comments: seq<string>)

  /** What the replacement itself produces: the text with placeholders, and the comment bodies
      as they were written. */
  datatype Stripped = Stripped(text: string, bodies: seq<string>)

  /**
   * The global, dot-all, lazy comment replacement: the leftmost `{#`, then the first `#}` after
   * it, is one comment; numbering starts at `k`. A `{#` with no `#}` after it ends the scan,
   * since no later `{#` can have one either.
   */
  function StripComments(t: string, k: nat): (r: Stripped)
    ensures !Includes(t, "{#") ==> r == Stripped(t, [])
    decreases |t|, 1
  {
    match IndexOf(t, "{#", 0)
    case None => Stripped(t, [])
    case Some(i) =>
      match IndexOf(t, "#}", i + 2)
      case None => Stripped(t, [])
      case Some(j) => Splice(t, k, i, j)
  }

  /** The comment at `i..j` becomes placeholder `k`, and the scan goes on after it. */
  function Splice(t: string, k: nat, i: nat, j: nat): Stripped
    requires i + 2 <= j && j + 2 <= |t|
    decreases |t|, 0
  {
    var rest := StripComments(t[j + 2..], k + 1);
    Stripped(t[..i] + Placeholder(k) + rest.text, [t[i + 2..j]] + rest.bodies)
  }

  function TrimAll(bodies: seq<string>): (r: seq<string>)
    ensures |r| == |bodies|
    ensures forall i :: 0 <= i < |r| ==> Trimmed(r[i]) && r[i] == Trim(bodies[i])
  {
    seq(|bodies|, i requires 0 <= i < |bodies| => Trim(bodies[i]))
  }

  /** Each comment is trimmed as it is recorded. */
  function Preprocess(t: string): (r: Preprocessed)
    ensures !Includes(t, "{#") ==> r == Preprocessed(t, [])
    ensures forall i :: 0 <= i < |r.comments| ==> Trimmed(r.comments[i])
  {
    var s := StripComments(t, 0);
    Preprocessed(s.text, TrimAll(s.bodies))
  }

  predicate NoOccurrence(s: string, p: string) {
    forall k: nat | k < |s| :: !OccursAt(s, p, k)
  }

  /** One comment, with no comment opener before it and no closer inside it, becomes the
      placeholder numbered `k`, and its body is recorded first. */
  lemma StripOneComment(a: string, body: string, b: string, k: nat)
    requires NoOccurrence(a, "{#") && NoOccurrence(body, "#}")
    ensures StripComments(a + "{#" + body + "#}" + b, k)
         == Stripped(a + Placeholder(k) + StripComments(b, k + 1).text,
                     [body] + StripComments(b, k + 1).bodies)
  {
    var t := a + "{#" + body + "#}" + b;
    var i, j := |a|, |a| + 2 + |body|;
    FirstOpener(a, body, b);
    FirstCloser(a, body, b);
    assert t[..i] == a;
    assert t[i + 2..j] == body;
    assert t[j + 2..] == b;
    StripFound(t, k, i, j);
  }

  /** A comment found at `i..j` is replaced by the next placeholder. */
  lemma StripFound(t: string, k: nat, i: nat, j: nat)
    requires IndexOf(t, "{#", 0) == Some(i) && IndexOf(t, "#}", i + 2) == Some(j)
    ensures i + 2 <= j && j + 2 <= |t|
    ensures StripComments(t, k) == Splice(t, k, i, j)
  {
  }

  lemma FirstOpener(a: string, body: string, b: string)
    requires NoOccurrence(a, "{#")
    ensures IndexOf(a + "{#" + body + "#}" + b, "{#", 0) == Some(|a|)
  {
    var t := a + "{#" + body + "#}" + b;
    var openTail := "{#" + body + "#}" + b;
    assert t == a + "{#" + (body + "#}" + b);
    SliceOfMiddle(a, "{#", body + "#}" + b, 0, 2);
    assert t == "" + a + openTail;
    forall p: nat | p < |a| ensures !OccursAt(t, "{#", p) {
      NotInPart("", a, openTail, "{#", p);
    }
    IndexOfFirst(t, "{#", 0, |a|);
  }

  lemma FirstCloser(a: string, body: string, b: string)
    requires NoOccurrence(body, "#}")
    ensures IndexOf(a + "{#" + body + "#}" + b, "#}", |a| + 2) == Some(|a| + 2 + |body|)
  {
    var t := a + "{#" + body + "#}" + b;
    var pre, closeTail := a + "{#", "#}" + b;
    assert t == (a + "{#" + body) + "#}" + b;
    SliceOfMiddle(a + "{#" + body, "#}", b, 0, 2);
    assert t == pre + body + closeTail;
    forall p: nat | |pre| <= p < |pre| + |body| ensures !OccursAt(t, "#}", p) {
      NotInPart(pre, body, closeTail, "#}", p - |pre|);
    }
    IndexOfFirst(t, "#}", |a| + 2, |a| + 2 + |body|);
  }

  /** A two-character pattern absent from a part does not start inside it, when the next part
      does not continue the pattern. */
  lemma NotInPart(pre: string, s: string, u: string, pat: string, q: nat)
    requires |pat| == 2 && NoOccurrence(s, pat) && |u| >= 1 && u[0] != pat[1] && q < |s|
    ensures !OccursAt(pre + s + u, pat, |pre| + q)
  {
    if q + 2 <= |s| {
      SliceOfMiddle(pre, s, u, q, 2);
      assert !OccursAt(s, pat, q);
    } else {
      assert (pre + s + u)[|pre| + q + 1] == u[0];
    }
  }

  /** A comment the back-end prints, `{# c #}`, comes back as its content after preprocessing,
      when the content carries no outer whitespace and no comment closer. */
  lemma CommentRoundTrip(a: string, c: string, b: string, k: nat)
    requires NoOccurrence(a, "{#") && NoOccurrence(c, "#}")
    requires Trimmed(c)
    ensures var r := StripComments(a + "{# " + c + " #}" + b, k);
            && r.text == a + Placeholder(k) + StripComments(b, k + 1).text
            && |r.bodies| >= 1 && Trim(r.bodies[0]) == c
            && r.bodies[1..] == StripComments(b, k + 1).bodies
  {
    var body := " " + c + " ";
    assert a + "{# " + c + " #}" + b == a + "{#" + body + "#}" + b;
    forall q: nat | q < |body| ensures !OccursAt(body, "#}", q) {
      if 1 <= q && q + 2 <= 1 + |c| {
        assert c[q - 1..q + 1] == body[q..q + 2];
        assert !OccursAt(c, "#}", q - 1);
      } else if q == 0 {
        assert body[0] == ' ';
      } else {
        assert q + 1 >= |body| || body[q + 1] == ' ';
      }
    }
    StripOneComment(a, body, b, k);
    TrimPadded(c);
  }

  /** Trimming a string padded by one space on each side gives back the trimmed string. */
  lemma TrimPadded(c: string)
    requires Trimmed(c)
    ensures Trim(" " + c + " ") == c
  {
    var padded := c + " ";
    assert " " + c + " " == " " + padded;
    DropLeadingSpace(padded);
    if c == "" {
      BlankTrimsAway();
    } else {
      PaddedKeepsStart(c);
      DropTrailingSpace(c);
      KeepEnd(c);
    }
  }

  lemma PaddedKeepsStart(c: string)
    requires c != "" && !IsSpace(c[0])
    ensures TrimStart(c + " ") == c + " "
  {
    assert (c + " ")[0] == c[0];
    KeepStart(c + " ");
  }

  lemma BlankTrimsAway()
    ensures TrimStart(" ") == ""
  {
    assert " "[1..] == "";
  }

  lemma DropLeadingSpace(s: string)
    ensures TrimStart(" " + s) == TrimStart(s)
  {
    assert (" " + s)[1..] == s;
  }

  lemma DropTrailingSpace(s: string)
    ensures TrimEnd(s + " ") == TrimEnd(s)
  {
    assert (s + " ")[..|s|] == s;
  }

  lemma KeepStart(s: string)
    requires s != "" && !IsSpace(s[0])
    ensures TrimStart(s) == s
  {
  }

  lemma KeepEnd(s: string)
    requires s != "" && !IsSpace(s[|s| - 1])
    ensures TrimEnd(s) == s
  {
  }

  // ---------------------------------------------------------------- whitespace control

  datatype Trims = Trims(trimLeft: bool, trimRight: bool)

  /** `{{` or `{%` starts at `i`. */
  predicate OpensAt(t: string, i: nat) {
    i + 1 < |t| && t[i] == '{' && (t[i + 1] == '{' || t[i + 1] == '%')
  }

  /** `}}` or `%}` starts at `i`. */
  predicate ClosesAt(t: string, i: nat) {
    i + 1 < |t| && (t[i] == '}' || t[i] == '%') && t[i + 1] == '}'
  }

  /** The first opening delimiter at or after `i`. */
  function FindOpen(t: string, i: nat): (r: Option<nat>)
    ensures r.Some? ==> i <= r.value && OpensAt(t, r.value)
    ensures r.Some? ==> forall p :: i <= p < r.value ==> !OpensAt(t, p)
    ensures r.None? ==> forall p: nat :: i <= p ==> !OpensAt(t, p)
    decreases |t| - i
  {
    if i + 1 >= |t| then None
    else if OpensAt(t, i) then Some(i)
    else FindOpen(t, i + 1)
  }

  /** The first closing delimiter at or after `i`. */
  function FindClose(t: string, i: nat): (r: Option<nat>)
    ensures r.Some? ==> i <= r.value && ClosesAt(t, r.value)
    ensures r.Some? ==> forall p :: i <= p < r.value ==> !ClosesAt(t, p)
    ensures r.None? ==> forall p: nat :: i <= p ==> !ClosesAt(t, p)
    decreases |t| - i
  {
    if i + 1 >= |t| then None
    else if ClosesAt(t, i) then Some(i)
    else FindClose(t, i + 1)
  }

  /** The search stops at the first closer. */
  lemma {:induction false} FindCloseFirst(t: string, i: nat, e: nat)
    requires i <= e && ClosesAt(t, e) && forall p :: i <= p < e ==> !ClosesAt(t, p)
    ensures FindClose(t, i) == Some(e)
    decreases e - i
  {
    if i < e {
      FindCloseFirst(t, i + 1, e);
    }
  }

  /** Where the backwards-looking search begins: ten characters before the column. */
  function SearchStart(col: nat): nat {
    if col >= 10 then col - 10 else 0
  }

  /**
   * The dashes of the tag around a column. An absent column makes the search start NaN, so
   * nothing is found. The tag runs from the first opener at or after the search start to the
   * end of the first closer after that opener; either missing gives no trims.
   */
  function ExtractWhitespaceControl(t: string, col: Option<nat>): (r: Trims)
    ensures col.None? ==> r == Trims(false, false)
  {
    if col.None? then Trims(false, false)
    else
      match FindOpen(t, SearchStart(col.value))
      case None => Trims(false, false)
      case Some(i) =>
        match FindClose(t, i + 2)
        case None => Trims(false, false)
        case Some(j) => TagTrims(Slice(t, i, j + 2))
  }

  /** The flags of one tag: whether it starts with `{{-` or `{%-`, and whether it ends with
      `-}}` or `-%}`, compared character by character. */
  function TagTrims(tag: string): Trims {
    Trims(|tag| >= 3 && tag[0] == '{' && (tag[1] == '{' || tag[1] == '%') && tag[2] == '-',
          |tag| >= 3 && tag[|tag| - 3] == '-' && (tag[|tag| - 2] == '}' || tag[|tag| - 2] == '%')
          && tag[|tag| - 1] == '}')
  }

  /** The character comparisons are the `startsWith`/`endsWith` tests on the delimiters. */
  lemma TagTrimsAreAffixTests(tag: string)
    ensures TagTrims(tag).trimLeft <==> StartsWith(tag, "{{-") || StartsWith(tag, "{%-")
    ensures TagTrims(tag).trimRight <==> EndsWith(tag, "-}}") || EndsWith(tag, "-%}")
  {
    if |tag| >= 3 {
      assert tag[..3] == [tag[0], tag[1], tag[2]];
      assert tag[|tag| - 3..] == [tag[|tag| - 3], tag[|tag| - 2], tag[|tag| - 1]];
    }
  }

  /** The flags are read off the characters just inside the delimiters of the tag found. */
  lemma {:induction false} WhitespaceControlReadsDashes(t: string, col: nat)
    ensures FindOpen(t, SearchStart(col)).None? ==> ExtractWhitespaceControl(t, Some(col)) == Trims(false, false)
    ensures FindOpen(t, SearchStart(col)).Some? ==>
      (var i := FindOpen(t, SearchStart(col)).value;
       var j := FindClose(t, i + 2);
       ExtractWhitespaceControl(t, Some(col))
         == if j.None? then Trims(false, false) else Trims(t[i + 2] == '-', t[j.value - 1] == '-'))
  {
    var i := FindOpen(t, SearchStart(col));
    if i.Some? {
      DashesFound(t, col, i.value);
    }
  }

  lemma DashesFound(t: string, col: nat, i: nat)
    requires FindOpen(t, SearchStart(col)) == Some(i)
    ensures var j := FindClose(t, i + 2);
      ExtractWhitespaceControl(t, Some(col))
      == if j.None? then Trims(false, false) else Trims(t[i + 2] == '-', t[j.value - 1] == '-')
  {
    var j := FindClose(t, i + 2);
    ExtractFound(t, col, i);
    if j.Some? {
      TagAt(t, i, j.value);
    }
  }

  lemma ExtractFound(t: string, col: nat, i: nat)
    requires FindOpen(t, SearchStart(col)) == Some(i)
    ensures var j := FindClose(t, i + 2);
      ExtractWhitespaceControl(t, Some(col))
      == if j.None? then Trims(false, false) else TagTrims(Slice(t, i, j.value + 2))
  {
  }

  /** The tag between an opener at `i` and a closer at `j`. */
  lemma TagAt(t: string, i: nat, j: nat)
    requires OpensAt(t, i) && ClosesAt(t, j) && i + 2 <= j
    ensures TagTrims(Slice(t, i, j + 2)) == Trims(t[i + 2] == '-', t[j - 1] == '-')
  {
    var tag := Slice(t, i, j + 2);
    assert tag == t[i..j + 2];
    assert tag[0] == t[i] && tag[1] == t[i + 1] && tag[2] == t[i + 2];
    assert tag[|tag| - 1] == t[j + 1] && tag[|tag| - 2] == t[j] && tag[|tag| - 3] == t[j - 1];
  }

  /** A delimited tag as the back-end prints it: `{{`/`{%`, an optional dash, the body between
      single spaces, an optional dash, `}}`/`%}`. */
  function Delimited(statement: bool, trimLeft: bool, trimRight: bool, body: string): string {
    if statement then TagOpen(trimLeft) + " " + body + " " + TagClose(trimRight)
    else OutputOpen(trimLeft) + " " + body + " " + OutputClose(trimRight)
  }

  predicate NoCloseBrace(s: string) {
    forall k :: 0 <= k < |s| ==> s[k] != '}'
  }

  /**
   * The scanner reads back the trims the back-end printed: for an output or a statement whose
   * body contains no `}`, found from a column at most ten characters past its start, with no
   * other opener between the search start and the tag.
   */
  lemma TrimsRoundTrip(pre: string, statement: bool, trimLeft: bool, trimRight: bool,
                       body: string, post: string, col: nat)
    requires NoCloseBrace(body)
    requires SearchStart(col) <= |pre|
    requires forall p :: SearchStart(col) <= p < |pre| ==> !OpensAt(pre, p)
    requires pre == "" || pre[|pre| - 1] != '{'
    ensures ExtractWhitespaceControl(pre + Delimited(statement, trimLeft, trimRight, body) + post, Some(col))
         == Trims(trimLeft, trimRight)
  {
    DelimitedShape(statement, trimLeft, trimRight, body);
    ShapedTagRead(pre, Delimited(statement, trimLeft, trimRight, body), post, col);
  }

  /** The same, for any tag text of the printed shape. */
  lemma ShapedTagRead(pre: string, d: string, post: string, col: nat)
    requires |d| >= 6 && d[0] == '{' && (d[1] == '{' || d[1] == '%')
    requires (d[2] == '-' || d[2] == ' ') && (d[|d| - 3] == '-' || d[|d| - 3] == ' ')
    requires (d[|d| - 2] == '%' || d[|d| - 2] == '}') && d[|d| - 1] == '}'
    requires forall k :: 3 <= k < |d| - 2 ==> d[k] != '}'
    requires SearchStart(col) <= |pre|
    requires forall p :: SearchStart(col) <= p < |pre| ==> !OpensAt(pre, p)
    requires pre == "" || pre[|pre| - 1] != '{'
    ensures ExtractWhitespaceControl(pre + d + post, Some(col)) == Trims(d[2] == '-', d[|d| - 3] == '-')
  {
    var t := pre + d + post;
    var o, c := |pre|, |pre| + |d| - 2;
    OpenFound(pre, d, post, col);
    CloseFound(pre, d, post);
    assert t[o + 2] == d[2] && t[c - 1] == d[|d| - 3];
    WhitespaceControlReadsDashes(t, col);
  }

  /** The search from just inside the opener stops at the tag's closer. */
  lemma CloseFound(pre: string, d: string, post: string)
    requires |d| >= 6 && (d[|d| - 3] == '-' || d[|d| - 3] == ' ')
    requires (d[|d| - 2] == '%' || d[|d| - 2] == '}') && d[|d| - 1] == '}'
    requires forall k :: 3 <= k < |d| - 2 ==> d[k] != '}'
    ensures FindClose(pre + d + post, |pre| + 2) == Some(|pre| + |d| - 2)
  {
    var t := pre + d + post;
    var o, c := |pre|, |pre| + |d| - 2;
    assert t[c] == d[|d| - 2] && t[c + 1] == d[|d| - 1];
    assert ClosesAt(t, c);
    forall p | o + 2 <= p < c ensures !ClosesAt(t, p) {
      if p + 1 < c {
        assert t[p + 1] == d[p + 1 - o];
      } else {
        assert t[p] == d[|d| - 3];
      }
    }
    FindCloseFirst(t, o + 2, c);
  }

  /** The search from the column stops at the tag's opener. */
  lemma OpenFound(pre: string, d: string, post: string, col: nat)
    requires |d| >= 2 && d[0] == '{' && (d[1] == '{' || d[1] == '%')
    requires SearchStart(col) <= |pre|
    requires forall p :: SearchStart(col) <= p < |pre| ==> !OpensAt(pre, p)
    requires pre == "" || pre[|pre| - 1] != '{'
    ensures FindOpen(pre + d + post, SearchStart(col)) == Some(|pre|)
  {
    var t := pre + d + post;
    forall p | SearchStart(col) <= p < |pre| ensures !OpensAt(t, p) {
      assert t[p] == pre[p];
      if p + 1 < |pre| {
        assert t[p + 1] == pre[p + 1];
        assert !OpensAt(pre, p);
      } else {
        assert p == |pre| - 1;
      }
    }
    assert t[|pre|] == d[0] && t[|pre| + 1] == d[1];
    assert OpensAt(t, |pre|);
  }

  /** The characters the scanner looks at in a printed tag. */
  lemma DelimitedShape(statement: bool, trimLeft: bool, trimRight: bool, body: string)
    requires NoCloseBrace(body)
    ensures var d := Delimited(statement, trimLeft, trimRight, body);
      && |d| >= 6 && d[0] == '{' && d[1] == (if statement then '%' else '{')
      && d[2] == (if trimLeft then '-' else ' ')
      && d[|d| - 3] == (if trimRight then '-' else ' ')
      && d[|d| - 2] == (if statement then '%' else '}') && d[|d| - 1] == '}'
      && forall k :: 3 <= k < |d| - 2 ==> d[k] != '}'
  {
    var open := if statement then TagOpen(trimLeft) else OutputOpen(trimLeft);
    var close := if statement then TagClose(trimRight) else OutputClose(trimRight);
    var d := open + " " + body + " " + close;
    assert Delimited(statement, trimLeft, trimRight, body) == d;
    assert |open| == (if trimLeft then 3 else 2) && |close| == (if trimRight then 3 else 2);
    PaddedBody(open, body, close);
    assert d[0] == open[0] && d[1] == open[1] && d[2] == (if trimLeft then open[2] else ' ');
    assert d[|d| - 1] == close[|close| - 1] && d[|d| - 2] == close[|close| - 2];
    assert d[|d| - 3] == (if trimRight then close[0] else ' ');
  }

  /** Between the delimiters there is no `}` when the body has none. */
  lemma PaddedBody(open: string, body: string, close: string)
    requires NoCloseBrace(body)
    ensures var d := open + " " + body + " " + close;
      forall k :: |open| <= k < |d| - |close| ==> d[k] != '}'
  {
    var d := open + " " + body + " " + close;
    forall k | |open| <= k < |d| - |close| ensures d[k] != '}' {
      if k == |open| || k == |d| - |close| - 1 {
        assert d[k] == ' ';
      } else {
        assert d[k] == body[k - |open| - 1];
      }
    }
  }

  // ---------------------------------------------------------------- string literals

  predicate IsQuote(c: char) {
    c == '\'' || c == '"'
  }

  /** Where a literal opened by quote `q`, read from `i`, ends: just past the first matching
      quote not skipped by a backslash, or the end of the text. */
  function ScanEnd(t: string, q: char, i: nat): (r: nat)
    requires i <= |t|
    ensures i <= r <= |t|
    decreases |t| - i
  {
    if i == |t| then |t|
    else if t[i] == q then i + 1
    else if t[i] == '\\' then (if i + 1 < |t| then ScanEnd(t, q, i + 2) else |t|)
    else ScanEnd(t, q, i + 1)
  }

  /** The literal starting at `colno` as written in the template, quotes included. */
  function StringLiteralAt(t: string, colno: nat): (r: Option<string>)
    ensures r.Some? <==> colno < |t| && IsQuote(t[colno])
    ensures r.Some? ==> |r.value| >= 1 && r.value[0] == t[colno]
    ensures r.Some? ==> colno + |r.value| <= |t| && r.value == t[colno..colno + |r.value|]
  {
    if colno < |t| && IsQuote(t[colno]) then Some(t[colno..ScanEnd(t, t[colno], colno + 1)])
    else None
  }

  /** The character loop of the source, which builds the literal one character at a time. */
  method ExtractStringLiteral(t: string, colno: nat) returns (r: Option<string>)
    ensures r == StringLiteralAt(t, colno)
  {
    if colno >= |t| {
      return None;
    }
    var quote := t[colno];
    if quote != '\'' && quote != '"' {
      return None;
    }
    var i := colno + 1;
    var result := [quote];
    while i < |t|
      invariant colno + 1 <= i <= |t| + 1
      invariant result == t[colno..if i <= |t| then i else |t|]
      invariant i <= |t| ==> ScanEnd(t, quote, colno + 1) == ScanEnd(t, quote, i)
      invariant i > |t| ==> ScanEnd(t, quote, colno + 1) == |t|
      decreases |t| + 1 - i
    {
      var c := t[i];
      result := result + [c];
      assert result == t[colno..i + 1];
      if c == quote {
        return Some(result);
      } else if c == '\\' {
        i := i + 1;
        if i < |t| {
          result := result + [t[i]];
          assert result == t[colno..i + 1];
        }
      }
      i := i + 1;
    }
    return Some(result);
  }

  /** How a string is spelled between quotes `q`: the quote and the backslash are escaped. */
  function Escape(q: char, s: string): string {
    if s == "" then ""
    else (if s[0] == q || s[0] == '\\' then ['\\', s[0]] else [s[0]]) + Escape(q, s[1..])
  }

  function Quoted(q: char, s: string): string {
    [q] + Escape(q, s) + [q]
  }

  lemma {:induction false} ScanEscaped(t: string, q: char, s: string, i: nat)
    requires IsQuote(q)
    requires i + |Escape(q, s)| < |t|
    requires t[i..i + |Escape(q, s)| + 1] == Escape(q, s) + [q]
    ensures ScanEnd(t, q, i) == i + |Escape(q, s)| + 1
    decreases |s|
  {
    var e := Escape(q, s);
    if s == "" {
      assert t[i] == q;
    } else {
      var head: string := if s[0] == q || s[0] == '\\' then ['\\', s[0]] else [s[0]];
      var e' := Escape(q, s[1..]);
      assert e == head + e';
      assert t[i..i + |head|] == head by {
        assert t[i..i + |head|] == t[i..i + |e| + 1][..|head|];
      }
      assert t[i + |head|..i + |head| + |e'| + 1] == e' + [q] by {
        assert t[i + |head|..i + |head| + |e'| + 1] == t[i..i + |e| + 1][|head|..];
      }
      assert t[i] == head[0];
      if s[0] == q || s[0] == '\\' {
        assert t[i] == '\\';
        ScanEscaped(t, q, s[1..], i + 2);
      } else {
        assert t[i] != q && t[i] != '\\';
        ScanEscaped(t, q, s[1..], i + 1);
      }
    }
  }

  /** Reading back a literal spelled by `Quoted` yields exactly that spelling, whatever
      follows it. */
  lemma StringLiteralRoundTrip(pre: string, q: char, s: string, post: string)
    requires IsQuote(q)
    ensures StringLiteralAt(pre + Quoted(q, s) + post, |pre|) == Some(Quoted(q, s))
  {
    var t := pre + Quoted(q, s) + post;
    var e := Escape(q, s);
    assert t[|pre|] == q;
    assert t[|pre| + 1..|pre| + 1 + |e| + 1] == e + [q];
    ScanEscaped(t, q, s, |pre| + 1);
    assert t[|pre|..|pre| + |e| + 2] == Quoted(q, s);
  }

  /** A literal with no closing quote runs to the end of the template. */
  lemma UnterminatedLiteral(pre: string, q: char, s: string)
    requires IsQuote(q)
    requires forall k :: 0 <= k < |s| ==> s[k] != q && s[k] != '\\'
    ensures StringLiteralAt(pre + [q] + s, |pre|) == Some([q] + s)
  {
    var t := pre + [q] + s;
    forall k | |pre| + 1 <= k < |t| ensures t[k] != q && t[k] != '\\' {
      assert t[k] == s[k - |pre| - 1];
    }
    UnterminatedScan(t, q, |pre| + 1);
    assert t[|pre|] == q;
    assert t[|pre|..|t|] == [q] + s;
    assert t[|pre|..] == [q] + s;
  }

  lemma {:induction false} UnterminatedScan(t: string, q: char, i: nat)
    requires i <= |t|
    requires forall k :: i <= k < |t| ==> t[k] != q && t[k] != '\\'
    ensures ScanEnd(t, q, i) == |t|
    decreases |t| - i
  {
    if i < |t| {
      UnterminatedScan(t, q, i + 1);
    }
  }
}
