/**
 * The public entry point: it checks the call's arguments, collecting one message per bad
 * argument and throwing them all at once, one per line, and otherwise returns the input behind
 * a header naming the two languages.
 */
module Translator {
  import opened Wrappers
  import opened Js

  /** The call's argument object; `None` is a null or absent object, and an absent property is
      `Undefined`. */
  datatype Args = Args(from: Prim, to: Prim, input: Prim)

  /** The supported languages, in the order the messages list them. */
  const SUPPORTED_LANGUAGES: seq<string> := ["nunjucks", "ejs", "handlebars", "liquid", "mustache", "pug"]

  /** The message for an argument that is missing or not a string, with a hint of what is
      expected. */
  function Expected(name: string, hint: string): string {
    "Invalid argument \"" + name + "\": expected string (" + hint + ")"
  }

  const FROM_MISSING: string := Expected("from", "e.g. \"nunjucks\"")
  const TO_MISSING: string := Expected("to", "e.g. \"mustache\"")
  /** The same message reports a missing input and an input that is not a string. */
  const INPUT_INVALID: string := Expected("input", "the template content")

  predicate Supported(v: Prim) {
    v.Str? && v.s in SUPPORTED_LANGUAGES
  }

  function Unsupported(name: string, v: Prim): string {
    "Invalid argument \"" + name + "\": unsupported language \"" + TemplateString(v)
      + "\". Supported: " + Join(SUPPORTED_LANGUAGES, ", ")
  }

  function Property(args: Option<Args>, name: string): Prim
    requires name in {"from", "to", "input"}
  {
    if args.None? then Undefined
    else if name == "from" then args.value.from
    else if name == "to" then args.value.to
    else args.value.input
  }

  /** What the messages amount to, argument by argument: both languages supported, and the
      input a non-empty string. */
  predicate Valid(args: Option<Args>) {
    args.Some? && Supported(args.value.from) && Supported(args.value.to)
    && args.value.input.Str? && args.value.input.s != ""
  }

  /**
   * The messages, in the order they are collected: the missing (falsy) arguments first, then a
   * language that is given but not supported, then an input that is given but not a string.
   * An argument contributes at most one message.
   */
  function Errors(args: Option<Args>): (r: seq<string>)
    ensures |r| <= 3
    ensures r == [] <==> Valid(args)
  {
    var from, to, input := Property(args, "from"), Property(args, "to"), Property(args, "input");
    (if !Truthy(from) then [FROM_MISSING] else [])
    + (if !Truthy(to) then [TO_MISSING] else [])
    + (if !Truthy(input) then [INPUT_INVALID] else [])
    + (if Truthy(from) && !Supported(from) then [Unsupported("from", from)] else [])
    + (if Truthy(to) && !Supported(to) then [Unsupported("to", to)] else [])
    + (if Truthy(input) && !input.Str? then [INPUT_INVALID] else [])
  }

  /** Validation throws every message, joined by newlines, or hands the arguments on. */
  function ValidateArgs(args: Option<Args>): (r: Result<Args, JsError>)
    ensures r.Ok? <==> Valid(args)
    ensures r.Ok? ==> Some(r.value) == args
    ensures r.Err? ==> r.error == Thrown(Join(Errors(args), "\n"))
  {
    var errs := Errors(args);
    if |errs| > 0 then Err(Thrown(Join(errs, "\n"))) else Ok(args.value)
  }

  function Header(from: string, to: string): string {
    "<!-- Translated from " + from + " to " + to + " -->\n"
  }

  /** A translation is the header naming the two languages, then the input unchanged. */
  function Translate(args: Option<Args>): (r: Result<string, JsError>)
    ensures r.Ok? <==> Valid(args)
    ensures r.Ok? ==>
      var a := args.value;
      && StartsWith(r.value, Header(a.from.s, a.to.s))
      && r.value[|Header(a.from.s, a.to.s)|..] == a.input.s
  {
    var a :- ValidateArgs(args);
    Ok(Header(TemplateString(a.from), TemplateString(a.to)) + TemplateString(a.input))
  }
}
