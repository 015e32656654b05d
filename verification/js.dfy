/**
 * The few pieces of JavaScript semantics the translator relies on: what can be thrown,
 * primitive values and how they are printed, and the String/Array built-ins used on
 * template text (`indexOf`, `slice`, `join`, `trim`, `parseInt`). Strings are sequences
 * of characters; UTF-16 code units are not modelled.
 */
module Js {
  import opened Wrappers

  /** What a failing call delivers: an explicit `throw new Error(message)`, or the runtime
      TypeError raised when `property` is read from `undefined`. */
  datatype JsError =
    | Thrown(message: string)
    | TypeError(property: string)

  /** A JavaScript primitive. `Undefined` also stands for a field that is absent. */
  datatype Prim =
    | Str(s: string)
    | Num(n: int)
    | Bool(b: bool)
    | Null
    | Undefined

  /** JavaScript truthiness of a primitive. */
  predicate Truthy(v: Prim) {
    match v
    case Str(s) => s != ""
    case Num(n) => n != 0
    case Bool(b) => b
    case Null => false
    case Undefined => false
  }

  /** How a template literal `${v}` prints a primitive. */
  function TemplateString(v: Prim): string {
    match v
    case Str(s) => s
    case Num(n) => IntToString(n)
    case Bool(b) => if b then "true" else "false"
    case Null => "null"
    case Undefined => "undefined"
  }

  /** How `Array.prototype.join` prints an element: `null` and `undefined` print as nothing. */
  function JoinString(v: Prim): (r: string)
    ensures v.Null? || v.Undefined? ==> r == ""
    ensures !(v.Null? || v.Undefined?) ==> r == TemplateString(v)
  {
    if v.Null? || v.Undefined? then "" else TemplateString(v)
  }

  // ---------------------------------------------------------------- substrings

  predicate OccursAt(s: string, p: string, i: nat) {
    i + |p| <= |s| && s[i..i + |p|] == p
  }

  /** `s.indexOf(p, from)` for a non-empty pattern: the first occurrence at or after `from`. */
  function IndexOf(s: string, p: string, from: nat): (r: Option<nat>)
    requires |p| > 0
    ensures r.Some? ==> from <= r.value && OccursAt(s, p, r.value)
    ensures r.Some? ==> forall k :: from <= k < r.value ==> !OccursAt(s, p, k)
    ensures r.None? ==> forall k :: from <= k ==> !OccursAt(s, p, k)
    decreases |s| - from
  {
    if from + |p| > |s| then None
    else if s[from..from + |p|] == p then Some(from)
    else IndexOf(s, p, from + 1)
  }

  /** The search from `from` stops at the first occurrence. */
  lemma {:induction false} IndexOfFirst(s: string, p: string, from: nat, e: nat)
    requires |p| > 0 && from <= e && OccursAt(s, p, e)
    requires forall k :: from <= k < e ==> !OccursAt(s, p, k)
    ensures IndexOf(s, p, from) == Some(e)
    decreases e - from
  {
    if from < e {
      assert !OccursAt(s, p, from);
      IndexOfFirst(s, p, from + 1, e);
    }
  }

  /** `s.includes(p)` for a non-empty pattern. */
  predicate Includes(s: string, p: string)
    requires |p| > 0
  {
    IndexOf(s, p, 0).Some?
  }

  lemma IncludesIff(s: string, p: string)
    requires |p| > 0
    ensures Includes(s, p) <==> exists k: nat :: OccursAt(s, p, k)
  {
  }

  predicate StartsWith(s: string, p: string) {
    |p| <= |s| && s[..|p|] == p
  }

  predicate EndsWith(s: string, p: string) {
    |p| <= |s| && s[|s| - |p|..] == p
  }

  function Min(a: nat, b: nat): nat {
    if a <= b then a else b
  }

  /** `s.slice(b, e)` for non-negative bounds: both are clamped to the length. */
  function Slice(s: string, b: nat, e: nat): (r: string)
    ensures b <= e <= |s| ==> r == s[b..e]
    ensures e <= b ==> r == ""
    ensures |r| <= |s|
  {
    var b' := Min(b, |s|);
    var e' := Min(e, |s|);
    if b' < e' then s[b'..e'] else ""
  }

  /** `parts.join(sep)`. */
  function Join(parts: seq<string>, sep: string): string {
    if |parts| == 0 then ""
    else if |parts| == 1 then parts[0]
    else parts[0] + sep + Join(parts[1..], sep)
  }

  /** `parts.join("")`. */
  function Concat(parts: seq<string>): string {
    Join(parts, "")
  }

  lemma {:induction false} JoinSnoc(parts: seq<string>, x: string, sep: string)
    ensures Join(parts + [x], sep) == if parts == [] then x else Join(parts, sep) + sep + x
  {
    if |parts| <= 1 {
    } else {
      assert (parts + [x])[1..] == parts[1..] + [x];
      JoinSnoc(parts[1..], x, sep);
    }
  }

  lemma {:induction false} ConcatAppend(a: seq<string>, b: seq<string>)
    ensures Concat(a + b) == Concat(a) + Concat(b)
  {
    if a == [] {
      assert a + b == b;
    } else if |a| == 1 {
      if b != [] {
        assert (a + b)[1..] == b;
      }
    } else {
      assert (a + b)[1..] == a[1..] + b;
      ConcatAppend(a[1..], b);
    }
  }

  /** A range inside the middle part of a concatenation is that range of the middle part. */
  lemma SliceOfMiddle(p: string, m: string, q: string, k: nat, n: nat)
    requires k + n <= |m|
    ensures (p + m + q)[|p| + k..|p| + k + n] == m[k..k + n]
  {
    var s := p + m + q;
    forall j | |p| + k <= j < |p| + k + n ensures s[j] == m[j - |p|] {
    }
  }

  /** `s.split(sep)` for a one-character separator: the pieces between separators, at least
      one. */
  function Split(s: string, sep: char): (r: seq<string>)
    ensures |r| >= 1
    decreases |s|
  {
    if s == [] then [""]
    else if s[0] == sep then [""] + Split(s[1..], sep)
    else
      var rest := Split(s[1..], sep);
      [[s[0]] + rest[0]] + rest[1..]
  }

  predicate Free(s: string, c: char) {
    c !in s
  }

  /** A piece without the separator, then the separator: the piece is split off first. */
  lemma {:induction false} SplitFirst(x: string, sep: char, y: string)
    requires Free(x, sep)
    ensures Split(x + [sep] + y, sep) == [x] + Split(y, sep)
    ensures Split(x, sep) == [x]
    decreases |x|
  {
    if x == [] {
      assert x + [sep] + y == [sep] + y;
      assert ([sep] + y)[1..] == y;
    } else {
      assert (x + [sep] + y)[0] == x[0];
      assert (x + [sep] + y)[1..] == x[1..] + [sep] + y;
      SplitFirst(x[1..], sep, y);
      assert [x[0]] + x[1..] == x;
    }
  }

  /** Splitting undoes joining with the separator, when no part contains it. */
  lemma {:induction false} SplitJoin(parts: seq<string>, sep: char)
    requires |parts| >= 1
    requires forall i :: 0 <= i < |parts| ==> Free(parts[i], sep)
    ensures Split(Join(parts, [sep]), sep) == parts
  {
    if |parts| == 1 {
      SplitFirst(parts[0], sep, "");
    } else {
      SplitJoin(parts[1..], sep);
      SplitFirst(parts[0], sep, Join(parts[1..], [sep]));
      assert [parts[0]] + parts[1..] == parts;
    }
  }

  // ---------------------------------------------------------------- whitespace

  /** The characters `String.prototype.trim` and `parseInt` skip: WhiteSpace and LineTerminator. */
  predicate IsSpace(c: char) {
    || c == '\t' || c == '\n' || c == '\U{000B}' || c == '\U{000C}' || c == '\r' || c == ' '
    || c == '\U{00A0}' || c == '\U{1680}' || ('\U{2000}' <= c <= '\U{200A}')
    || c == '\U{2028}' || c == '\U{2029}' || c == '\U{202F}' || c == '\U{205F}'
    || c == '\U{3000}' || c == '\U{FEFF}'
  }

  /** `s.trimStart()`: the suffix left after dropping leading whitespace. */
  function TrimStart(s: string): (r: string)
    ensures |r| <= |s| && r == s[|s| - |r|..]
    ensures r == "" || !IsSpace(r[0])
  {
    if s != "" && IsSpace(s[0]) then TrimStart(s[1..]) else s
  }

  /** What `trimStart` drops is whitespace. */
  lemma {:induction false} TrimStartDropsSpace(s: string)
    ensures forall k :: 0 <= k < |s| - |TrimStart(s)| ==> IsSpace(s[k])
  {
    if s != "" && IsSpace(s[0]) {
      TrimStartDropsSpace(s[1..]);
      assert forall k :: 1 <= k < |s| - |TrimStart(s)| ==> s[k] == s[1..][k - 1];
    }
  }

  /** `s.trimEnd()`: the prefix left after dropping trailing whitespace. */
  function TrimEnd(s: string): (r: string)
    ensures |r| <= |s| && r == s[..|r|]
    ensures r == "" || !IsSpace(r[|r| - 1])
  {
    if s != "" && IsSpace(s[|s| - 1]) then TrimEnd(s[..|s| - 1]) else s
  }

  /** What `trimEnd` drops is whitespace. */
  lemma {:induction false} TrimEndDropsSpace(s: string)
    ensures forall k :: |TrimEnd(s)| <= k < |s| ==> IsSpace(s[k])
  {
    if s != "" && IsSpace(s[|s| - 1]) {
      TrimEndDropsSpace(s[..|s| - 1]);
    }
  }

  /** `r` is the slice of `s` at `i`, and every character of `s` before or after it is whitespace. */
  predicate StripsSpace(s: string, i: nat, r: string) {
    && i + |r| <= |s| && r == s[i..i + |r|]
    && (forall k :: 0 <= k < i ==> IsSpace(s[k]))
    && (forall k :: i + |r| <= k < |s| ==> IsSpace(s[k]))
  }

  /** `s.trim()`: a slice of `s` with only whitespace around it, and none at its own ends. */
  function Trim(s: string): (r: string)
    ensures Trimmed(r)
    ensures exists i: nat :: StripsSpace(s, i, r)
  {
    var r := TrimEnd(TrimStart(s));
    TrimStrips(s);
    assert StripsSpace(s, |s| - |TrimStart(s)|, r);
    r
  }

  /** The strip `trim` keeps starts where the leading whitespace ends. */
  lemma TrimStrips(s: string)
    ensures StripsSpace(s, |s| - |TrimStart(s)|, TrimEnd(TrimStart(s)))
  {
    var u := TrimStart(s);
    TrimStartDropsSpace(s);
    TrimEndDropsSpace(u);
    PrefixOfSuffix(s, u, TrimEnd(u));
  }

  /** A prefix `r` of a suffix `u` of `s`, with whitespace before `u` and after `r` in `u`, is a
      strip of `s`. */
  lemma PrefixOfSuffix(s: string, u: string, r: string)
    requires |u| <= |s| && u == s[|s| - |u|..] && |r| <= |u| && r == u[..|r|]
    requires forall k :: 0 <= k < |s| - |u| ==> IsSpace(s[k])
    requires forall k :: |r| <= k < |u| ==> IsSpace(u[k])
    ensures StripsSpace(s, |s| - |u|, r)
  {
    var i := |s| - |u|;
    forall k | i + |r| <= k < |s| ensures IsSpace(s[k]) {
      assert s[k] == u[k - i];
    }
    assert r == s[i..i + |r|];
  }

  /** The trimmed strip of a string is unique: any non-empty slice with only whitespace around
      it and none at its own ends is what `trim` returns. */
  lemma TrimIsTheStrip(s: string, i: nat, r: string)
    requires r != "" && Trimmed(r) && StripsSpace(s, i, r)
    ensures Trim(s) == r
  {
    var t := Trim(s);
    var j: nat :| StripsSpace(s, j, t);
    StripUnique(s, i, r, j, t);
  }

  /** Two trimmed strips of one string, the first non-empty, are the same strip. */
  lemma StripUnique(s: string, i: nat, r: string, j: nat, t: string)
    requires r != "" && Trimmed(r) && StripsSpace(s, i, r)
    requires Trimmed(t) && StripsSpace(s, j, t)
    ensures t == r
  {
    assert s[i] == r[0] && !IsSpace(s[i]);
    assert s[i + |r| - 1] == r[|r| - 1] && !IsSpace(s[i + |r| - 1]);
    assert t != "" by {
      assert t == "" ==> i < j || i >= j + |t|;
    }
    assert s[j] == t[0] && !IsSpace(s[j]);
    assert s[j + |t| - 1] == t[|t| - 1] && !IsSpace(s[j + |t| - 1]);
    assert j == i;
  }

  /** A string with no whitespace at either end. */
  predicate Trimmed(s: string) {
    s == "" || (!IsSpace(s[0]) && !IsSpace(s[|s| - 1]))
  }

  /** `trim` gives a trimmed string. */
  lemma TrimIsTrimmed(s: string)
    ensures Trimmed(Trim(s))
  {
    var u := TrimStart(s);
    var r := TrimEnd(u);
    if r != "" {
      assert r[0] == u[0];
    }
  }

  /** The trimmed strings are exactly those `trim` leaves alone. */
  lemma TrimmedIsFixed(s: string)
    ensures Trimmed(s) <==> Trim(s) == s
  {
    if s != "" {
      var u := TrimStart(s);
      if Trimmed(s) {
        assert u == s;
        assert TrimEnd(s) == s;
      }
      if Trim(s) == s {
        assert |TrimEnd(u)| <= |u| <= |s|;
        assert u == s;
      }
    }
  }

  // ---------------------------------------------------------------- numbers

  predicate IsDigit(c: char) {
    '0' <= c <= '9'
  }

  predicate AllDigits(s: string) {
    forall k :: 0 <= k < |s| ==> IsDigit(s[k])
  }

  function DigitChar(d: nat): char
    requires d < 10
  {
    ['0', '1', '2', '3', '4', '5', '6', '7', '8', '9'][d]
  }

  function DigitValue(c: char): nat
    requires IsDigit(c)
  {
    (c as int - '0' as int) as nat
  }

  /** Decimal spelling of a natural number, without leading zeros. */
  function NatToString(n: nat): (r: string)
    ensures |r| >= 1 && AllDigits(r)
    ensures r[0] == '0' ==> n == 0
  {
    if n < 10 then [DigitChar(n)] else NatToString(n / 10) + [DigitChar(n % 10)]
  }

  /** `String(n)` for an integer. */
  function IntToString(n: int): string {
    if n < 0 then "-" + NatToString(-n) else NatToString(n)
  }

  /** The number a run of decimal digits denotes. */
  function DigitsValue(s: string): nat
    requires AllDigits(s)
  {
    if s == "" then 0 else DigitsValue(s[..|s| - 1]) * 10 + DigitValue(s[|s| - 1])
  }

  lemma {:induction false} DigitsValueOfNatToString(n: nat)
    ensures DigitsValue(NatToString(n)) == n
  {
    var r := NatToString(n);
    if n >= 10 {
      assert r[..|r| - 1] == NatToString(n / 10);
      DigitsValueOfNatToString(n / 10);
    }
  }

  lemma NatToStringInjective(m: nat, n: nat)
    requires NatToString(m) == NatToString(n)
    ensures m == n
  {
    DigitsValueOfNatToString(m);
    DigitsValueOfNatToString(n);
  }

  /** The longest prefix of `s` made of decimal digits. */
  function LeadingDigits(s: string): (r: string)
    ensures |r| <= |s| && r == s[..|r|] && AllDigits(r)
    ensures |r| == |s| || !IsDigit(s[|r|])
  {
    if s != "" && IsDigit(s[0]) then [s[0]] + LeadingDigits(s[1..]) else ""
  }

  /** The hexadecimal digits, in either case. */
  predicate IsHexDigit(c: char) {
    IsDigit(c) || 'a' <= c <= 'f' || 'A' <= c <= 'F'
  }

  predicate AllHexDigits(s: string) {
    forall k :: 0 <= k < |s| ==> IsHexDigit(s[k])
  }

  function HexDigitValue(c: char): (r: nat)
    requires IsHexDigit(c)
    ensures r < 16
  {
    if IsDigit(c) then DigitValue(c)
    else if 'a' <= c <= 'f' then (c as int - 'a' as int + 10) as nat
    else (c as int - 'A' as int + 10) as nat
  }

  /** The number a run of hexadecimal digits denotes. */
  function HexValue(s: string): nat
    requires AllHexDigits(s)
  {
    if s == "" then 0 else HexValue(s[..|s| - 1]) * 16 + HexDigitValue(s[|s| - 1])
  }

  /** The longest prefix of `s` made of hexadecimal digits. */
  function LeadingHexDigits(s: string): (r: string)
    ensures |r| <= |s| && r == s[..|r|] && AllHexDigits(r)
    ensures |r| == |s| || !IsHexDigit(s[|r|])
  {
    if s != "" && IsHexDigit(s[0]) then [s[0]] + LeadingHexDigits(s[1..]) else ""
  }

  /** Text that `parseInt` without a radix reads in base sixteen: `0x` or `0X` first. */
  predicate HexPrefixed(u: string) {
    |u| >= 2 && u[0] == '0' && (u[1] == 'x' || u[1] == 'X')
  }

  /** `parseInt(s)` without a radix: `None` is NaN. Leading whitespace and one sign are accepted;
      after the sign a `0x` or `0X` prefix selects base sixteen, otherwise the base is ten; and
      parsing stops at the first character that is not a digit of the base. */
  function ParseInt(s: string): Option<int> {
    var t := TrimStart(s);
    var negative := |t| > 0 && t[0] == '-';
    var u := if |t| > 0 && (t[0] == '-' || t[0] == '+') then t[1..] else t;
    var hex := HexPrefixed(u);
    var d := if hex then LeadingHexDigits(u[2..]) else LeadingDigits(u);
    if d == "" then None
    else
      var m := if hex then HexValue(d) else DigitsValue(d);
      Some(if negative then -m else m)
  }

  /** `parseInt` reads back the spelling of a natural number, whatever non-digit text follows,
      unless the number is zero and the text goes on with the letter that makes it a prefix. */
  lemma ParseIntOfNatToString(n: nat, rest: string)
    requires rest == "" || !IsDigit(rest[0])
    requires n != 0 || rest == "" || (rest[0] != 'x' && rest[0] != 'X')
    ensures ParseInt(NatToString(n) + rest) == Some(n)
  {
    var d := NatToString(n);
    assert (d + rest)[0] == d[0];
    if |d| >= 2 {
      assert (d + rest)[1] == d[1];
    } else if rest != "" {
      assert (d + rest)[1] == rest[0];
    }
    LeadingDigitsOfDigitsThen(d, rest);
    DigitsValueOfNatToString(n);
    ParseIntOfLeadingDigits(d + rest);
  }

  /** `parseInt` reads the digits after a `0x` prefix in base sixteen, whatever text that is not
      a hexadecimal digit follows them. */
  lemma ParseIntOfHex(x: char, h: string, rest: string)
    requires x == 'x' || x == 'X'
    requires h != "" && AllHexDigits(h)
    requires rest == "" || !IsHexDigit(rest[0])
    ensures ParseInt(['0', x] + h + rest) == Some(HexValue(h))
  {
    var s := ['0', x] + h + rest;
    var u := h + rest;
    assert s == ['0', x] + u;
    HexPrefixedText(x, u);
    ParseIntOfHexPrefixed(s);
    LeadingHexDigitsOfDigitsThen(h, rest);
  }

  /** Unsigned text with a `0x` prefix is read in base sixteen. */
  lemma ParseIntOfHexPrefixed(s: string)
    requires TrimStart(s) == s && HexPrefixed(s)
    ensures ParseInt(s) == (var d := LeadingHexDigits(s[2..]); if d == "" then None else Some(HexValue(d)))
  {
  }

  lemma HexPrefixedText(x: char, u: string)
    requires x == 'x' || x == 'X'
    ensures var s := ['0', x] + u;
            TrimStart(s) == s && HexPrefixed(s) && s[2..] == u && s[0] != '-' && s[0] != '+'
  {
    var s := ['0', x] + u;
    TrimStartKeeps(s);
  }

  /** A bare prefix has no digits to read. */
  lemma ParseIntOfBarePrefix(x: char, rest: string)
    requires x == 'x' || x == 'X'
    requires rest == "" || !IsHexDigit(rest[0])
    ensures ParseInt(['0', x] + rest) == None
  {
    var s := ['0', x] + rest;
    TrimStartKeeps(s);
    assert s[0] == '0' && s[1] == x;
    assert s[2..] == rest;
  }

  lemma {:induction false} LeadingHexDigitsOfDigitsThen(h: string, rest: string)
    requires AllHexDigits(h)
    requires rest == "" || !IsHexDigit(rest[0])
    ensures LeadingHexDigits(h + rest) == h
  {
    if h != "" {
      assert (h + rest)[0] == h[0];
      assert (h + rest)[1..] == h[1..] + rest;
      LeadingHexDigitsOfDigitsThen(h[1..], rest);
    } else {
      assert h + rest == rest;
    }
  }

  /** Text starting with a digit, and not with a `0x` prefix, parses as the value of its leading
      digits. */
  lemma ParseIntOfLeadingDigits(s: string)
    requires s != "" && IsDigit(s[0]) && !HexPrefixed(s)
    ensures LeadingDigits(s) != ""
    ensures ParseInt(s) == Some(DigitsValue(LeadingDigits(s)))
  {
    TrimStartKeeps(s);
    assert s[0] != '-' && s[0] != '+';
    var d := LeadingDigits(s);
    assert d == [s[0]] + LeadingDigits(s[1..]);
    assert ParseInt(s) == (if d == "" then None else Some(DigitsValue(d) as int));
  }

  lemma TrimStartKeeps(s: string)
    requires s == "" || !IsSpace(s[0])
    ensures TrimStart(s) == s
  {
  }

  lemma {:induction false} LeadingDigitsOfDigitsThen(d: string, rest: string)
    requires AllDigits(d)
    requires rest == "" || !IsDigit(rest[0])
    ensures LeadingDigits(d + rest) == d
  {
    if d != "" {
      assert (d + rest)[1..] == d[1..] + rest;
      LeadingDigitsOfDigitsThen(d[1..], rest);
    } else {
      assert d + rest == rest;
    }
  }
}
