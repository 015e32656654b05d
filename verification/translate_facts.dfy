/**
 * What argument checking guarantees: a missing argument object reports all three arguments;
 * each bad argument is reported exactly once; the thrown message splits back into the messages
 * line by line unless a language name itself holds a newline; and an empty input counts as a
 * missing one.
 */
module TranslateFacts {
  import opened Wrappers
  import opened Js
  import opened Translator

  /** Whether an argument is bad, as a count. */
  function Bad(ok: bool): nat {
    if ok then 0 else 1
  }

  /** Without an argument object every argument is reported, in order. */
  lemma NoArgumentsReportsAll()
    ensures Errors(None) == [FROM_MISSING, TO_MISSING, INPUT_INVALID]
    ensures Translate(None) == Err(Thrown(FROM_MISSING + "\n" + TO_MISSING + "\n" + INPUT_INVALID))
  {
    var errs := [FROM_MISSING, TO_MISSING, INPUT_INVALID];
    assert !Truthy(Property(None, "from")) && !Truthy(Property(None, "to")) && !Truthy(Property(None, "input"));
    assert Errors(None) == [FROM_MISSING] + [TO_MISSING] + [INPUT_INVALID] + [] + [] + [];
    assert Errors(None) == errs;
    assert errs[1..] == [TO_MISSING, INPUT_INVALID];
    assert errs[1..][1..] == [INPUT_INVALID];
    assert Join(errs[1..][1..], "\n") == INPUT_INVALID;
    assert Join(errs[1..], "\n") == TO_MISSING + "\n" + INPUT_INVALID;
    assert Join(errs, "\n") == FROM_MISSING + "\n" + (TO_MISSING + "\n" + INPUT_INVALID);
    assert ValidateArgs(None) == Err(Thrown(Join(errs, "\n")));
    assert Translate(None) == Err(Thrown(Join(errs, "\n")));
    assert FROM_MISSING + "\n" + (TO_MISSING + "\n" + INPUT_INVALID) == FROM_MISSING + "\n" + TO_MISSING + "\n" + INPUT_INVALID;
  }

  /** Each bad argument contributes exactly one message. */
  lemma OneMessagePerBadArgument(a: Args)
    ensures |Errors(Some(a))| == Bad(Supported(a.from)) + Bad(Supported(a.to)) + Bad(a.input.Str? && a.input.s != "")
  {
  }

  /** The message list read off the error: its lines, when the language names hold no
      newline. */
  lemma MessageLinesAreErrors(args: Option<Args>)
    requires !Valid(args)
    requires args.Some? ==> Free(TemplateString(args.value.from), '\n') && Free(TemplateString(args.value.to), '\n')
    ensures Translate(args).Err?
    ensures Split(Translate(args).error.message, '\n') == Errors(args)
  {
    var errs := Errors(args);
    FreeMessages(args);
    SplitJoin(errs, '\n');
  }

  lemma {:induction false} FreeJoin(parts: seq<string>, sep: string, c: char)
    requires Free(sep, c) && forall i :: 0 <= i < |parts| ==> Free(parts[i], c)
    ensures Free(Join(parts, sep), c)
  {
    if |parts| > 1 {
      FreeJoin(parts[1..], sep, c);
    }
  }

  lemma FreeSupportedList()
    ensures Free(Join(SUPPORTED_LANGUAGES, ", "), '\n')
  {
    FreeJoin(SUPPORTED_LANGUAGES, ", ", '\n');
  }

  lemma FreeUnsupported(name: string, v: Prim)
    requires Free(name, '\n') && Free(TemplateString(v), '\n')
    ensures Free(Unsupported(name, v), '\n')
  {
    FreeSupportedList();
  }

  lemma FreeExpected(name: string, hint: string)
    requires Free(name, '\n') && Free(hint, '\n')
    ensures Free(Expected(name, hint), '\n')
  {
  }

  lemma FreeConstants()
    ensures Free(FROM_MISSING, '\n') && Free(TO_MISSING, '\n') && Free(INPUT_INVALID, '\n')
  {
    FreeExpected("from", "e.g. \"nunjucks\"");
    FreeExpected("to", "e.g. \"mustache\"");
    FreeExpected("input", "the template content");
  }

  /** No message holds a newline when the language names hold none. */
  lemma FreeMessages(args: Option<Args>)
    requires args.Some? ==> Free(TemplateString(args.value.from), '\n') && Free(TemplateString(args.value.to), '\n')
    ensures forall i :: 0 <= i < |Errors(args)| ==> Free(Errors(args)[i], '\n')
  {
    FreeConstants();
    if args.Some? {
      FreeUnsupported("from", args.value.from);
      FreeUnsupported("to", args.value.to);
    }
  }

  /** An unsupported source language is named in the message, followed by the supported
      list. */
  lemma UnsupportedSourceMessage(name: string, to: string, input: string)
    requires name !in SUPPORTED_LANGUAGES && name != ""
    requires to in SUPPORTED_LANGUAGES && input != ""
    ensures Translate(Some(Args(Str(name), Str(to), Str(input))))
         == Err(Thrown("Invalid argument \"from\": unsupported language \"" + name
                       + "\". Supported: " + Join(SUPPORTED_LANGUAGES, ", ")))
  {
    var a := Args(Str(name), Str(to), Str(input));
    var m := Unsupported("from", Str(name));
    OnlySourceUnsupported(name, to, input);
    assert Join([m], "\n") == m;
    UnsupportedSourceText(name);
  }

  lemma OnlySourceUnsupported(name: string, to: string, input: string)
    requires name !in SUPPORTED_LANGUAGES && name != ""
    requires to in SUPPORTED_LANGUAGES && input != ""
    ensures Errors(Some(Args(Str(name), Str(to), Str(input)))) == [Unsupported("from", Str(name))]
  {
  }

  lemma UnsupportedSourceText(name: string)
    ensures Unsupported("from", Str(name))
         == "Invalid argument \"from\": unsupported language \"" + name + "\". Supported: "
            + Join(SUPPORTED_LANGUAGES, ", ")
  {
    SourceHead();
  }

  lemma SourceHead()
    ensures "Invalid argument \"" + "from" + "\": unsupported language \""
         == "Invalid argument \"from\": unsupported language \""
  {
  }

  /** An empty template is reported as a missing input. */
  lemma EmptyInputIsMissing(from: string, to: string)
    requires from in SUPPORTED_LANGUAGES && to in SUPPORTED_LANGUAGES
    ensures Translate(Some(Args(Str(from), Str(to), Str("")))) == Err(Thrown(INPUT_INVALID))
  {
    assert Errors(Some(Args(Str(from), Str(to), Str("")))) == [INPUT_INVALID];
  }

  /** An input that is present but not a string is reported with the missing-input message. */
  lemma NonStringInput(from: string, to: string, n: int)
    requires from in SUPPORTED_LANGUAGES && to in SUPPORTED_LANGUAGES && n != 0
    ensures Translate(Some(Args(Str(from), Str(to), Num(n)))) == Err(Thrown(INPUT_INVALID))
  {
    assert Errors(Some(Args(Str(from), Str(to), Num(n)))) == [INPUT_INVALID];
  }

  /** A valid call returns the input behind a header naming both languages. */
  lemma TranslationText(from: string, to: string, input: string)
    requires from in SUPPORTED_LANGUAGES && to in SUPPORTED_LANGUAGES && input != ""
    ensures Translate(Some(Args(Str(from), Str(to), Str(input))))
         == Ok("<!-- Translated from " + from + " to " + to + " -->\n" + input)
  {
  }
}
