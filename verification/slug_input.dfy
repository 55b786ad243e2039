/**
 * The slug input of the admin edit form: the locale suffix, the guards that
 * decide when a slug is generated from the source field, and the handlers that
 * change the input's state. The two remote endpoints (check-slug and generate)
 * are parameters; what the handlers send to them is recorded in `checks` and
 * `requests`, and the values handed to the form's `onChange` in `emitted`.
 */
module SlugInput {
  import opened Wrappers
  import opened Text
  import opened SlugUtil

  // ---------------------------------------------------------------- ensureLocaleInSlug

  /** ensureLocaleInSlug: with i18n on and a locale set, append `-locale` unless the
      slug already ends with it. */
  function EnsureLocaleInSlug(slug: string, i18n: bool, locale: string): (r: string)
    ensures !i18n || locale == "" ==> r == slug
    ensures i18n && locale != "" ==> EndsWith(r, "-" + locale)
    ensures r == slug || r == slug + "-" + locale
    ensures r[..|slug|] == slug
  {
    if i18n && locale != "" && !EndsWith(slug, "-" + locale) then
      var r := slug + "-" + locale;
      assert r[|r| - |"-" + locale|..] == "-" + locale;
      r
    else slug
  }

  /** Applying ensureLocaleInSlug to its own result changes nothing. */
  lemma EnsureLocaleIdempotent(slug: string, i18n: bool, locale: string)
    ensures EnsureLocaleInSlug(EnsureLocaleInSlug(slug, i18n, locale), i18n, locale)
              == EnsureLocaleInSlug(slug, i18n, locale)
  {
  }

  // ---------------------------------------------------------------- the source field

  /** The value of the source field in the form: absent, a string, or some other
      value, given by its truthiness and by how a template string renders it. */
  datatype SourceValue = Absent | Str(s: string) | NonText(shown: string, truthy: bool)

  predicate IsTruthy(v: SourceValue) {
    match v
    case Absent => false
    case Str(s) => s != ""
    case NonText(_, truthy) => truthy
  }

  /** `${sourceValue}`. */
  function Shown(v: SourceValue): string {
    match v
    case Absent => "undefined"
    case Str(s) => s
    case NonText(shown, _) => shown
  }

  /** The source-field watcher's condition for scheduling a generation: not manually
      edited, a non-blank string, different from the initial value, and (trimmed)
      different from the last source a slug was generated from. */
  predicate ShouldAutoGenerate(manuallyEdited: bool, v: SourceValue, initial: SourceValue, last: string)
    ensures ShouldAutoGenerate(manuallyEdited, v, initial, last) ==>
              !manuallyEdited && v.Str? && !IsBlank(v.s) && v != initial
  {
    && !manuallyEdited
    && IsTruthy(v) && v.Str? && Trim(v.s) != ""
    && v != initial
    && Trim(v.s) != last
  }

  /** The three early returns of performSlugGeneration: generation goes ahead only
      for a non-blank string, and, when not manual, only if its trimmed form differs
      from the last source a slug was generated from. */
  predicate PassesGenerationGuards(v: SourceValue, isManual: bool, last: string)
    ensures PassesGenerationGuards(v, isManual, last) <==>
              v.Str? && !IsBlank(v.s) && (isManual || Trim(v.s) != last)
  {
    IsTruthy(v) && v.Str? && (TrimEmpty(v.s); Trim(v.s) != "") && (isManual || Trim(v.s) != last)
  }

  /** The message a manual generation shows when the guards stop it. */
  function GuardMessage(v: SourceValue, sourceField: string): (r: string)
    ensures r != ""
  {
    if !IsTruthy(v) then "No content in \"" + sourceField + "\" field to generate slug from"
    else "Source field \"" + sourceField + "\" must be a non-empty string"
  }

  /** A scheduled generation is not stopped by performSlugGeneration's own guards,
      and nothing is scheduled while the slug is marked as manually edited. */
  lemma AutoGenerationPassesGuards(manuallyEdited: bool, v: SourceValue, initial: SourceValue, last: string)
    ensures ShouldAutoGenerate(manuallyEdited, v, initial, last) ==> PassesGenerationGuards(v, false, last)
    ensures manuallyEdited ==> !ShouldAutoGenerate(manuallyEdited, v, initial, last)
  {
  }

  /** A blank source never gets past the guards, manual or not. */
  lemma BlankSourceNeverGenerates(s: string, isManual: bool, last: string)
    requires IsBlank(s)
    ensures !PassesGenerationGuards(Str(s), isManual, last)
  {
    TrimEmpty(s);
  }

  // ---------------------------------------------------------------- the remote endpoints

  /** What `/check-slug` answers: a result accepting the slug, a result rejecting it
      with an optional message, or no usable result (a network error or a reply
      without `result`). */
  datatype CheckReply = Accepted | Rejected(message: Option<string>) | CheckError

  /** What `/generate` answers: a reply carrying `data.data.slug`, or an exception. */
  datatype GenerateReply = Responded(slug: string) | RequestFailed

  /** The body posted to `/generate`. */
  datatype GenerateRequest = GenerateRequest(text: string, mode: string, targetLang: string)

  type CheckService = string -> CheckReply
  type GenerateService = GenerateRequest -> GenerateReply

  /** The field's attribute and page context the handlers read. */
  datatype FieldContext = FieldContext(
    sourceFieldOption: Option<string>,
    modeOption: Option<string>,
    targetLangOption: Option<string>,
    required: bool,
    i18n: bool,
    locale: string)

  /** `attribute?.options?.sourceField || 'title'`. */
  function SourceField(ctx: FieldContext): (r: string)
    ensures r != ""
    ensures r == "title" || ctx.sourceFieldOption == Some(r)
    ensures ctx.sourceFieldOption.Some? && ctx.sourceFieldOption.value != "" ==> r == ctx.sourceFieldOption.value
  {
    if ctx.sourceFieldOption.Some? && ctx.sourceFieldOption.value != "" then ctx.sourceFieldOption.value else "title"
  }

  /** The `/generate` body for a text: mode and target language from the field's
      options, defaulting to 'translation' and 'en'. */
  function RequestFor(ctx: FieldContext, text: string): (r: GenerateRequest)
    ensures r.text == text && r.mode != "" && r.targetLang != ""
  {
    GenerateRequest(
      text,
      if ctx.modeOption.Some? && ctx.modeOption.value != "" then ctx.modeOption.value else "translation",
      if ctx.targetLangOption.Some? && ctx.targetLangOption.value != "" then ctx.targetLangOption.value else "en")
  }

  /** A number in decimal, as a template string renders it. */
  function Decimal(n: nat): (r: string)
    ensures r != [] && forall c :: c in r ==> IsDigit(c)
  {
    var d := [(n % 10 + '0' as int) as char];
    if n < 10 then d else Decimal(n / 10) + d
  }

  const EmptySlugMessage: string := "Slug cannot be empty"
  const RejectedMessage: string := "Slug is not valid"
  const CheckFailedMessage: string := "An error occurred while validating the slug."
  const FallbackMessage: string := "Failed to generate slug from service. Falling back to local generation."

  // ---------------------------------------------------------------- what the handlers leave behind

  /** What the input shows about its slug: the error message, the valid mark
      (`null` until a check has run) and whether regeneration is offered. */
  datatype Feedback = Feedback(error: Option<string>, isValid: Option<bool>, reGenerate: bool)

  /** validateSlug's effect on the feedback, given the reply to the check. */
  function AfterCheck(reply: CheckReply, before: Feedback): (r: Feedback)
    ensures r.error.None? <==> reply.Accepted?
    ensures reply.Accepted? ==> r.isValid == Some(true) && !r.reGenerate
    ensures reply.Rejected? ==> r.isValid == Some(false) && r.reGenerate && r.error.value != ""
    ensures reply.Rejected? && reply.message.Some? && reply.message.value != "" ==> r.error == reply.message
    ensures reply.CheckError? ==> r.isValid == before.isValid && r.reGenerate == before.reGenerate
  {
    match reply
    case Accepted => Feedback(None, Some(true), false)
    case Rejected(message) =>
      Feedback(Some(if message.Some? && message.value != "" then message.value else RejectedMessage), Some(false), true)
    case CheckError => before.(error := Some(CheckFailedMessage))
  }

  /** The input's state apart from the manual-edit mark: the value shown, the
      feedback, the last source a slug was generated from, and the traces of what
      was handed to the form and sent to the two endpoints. */
  datatype View = View(
    inputSlug: string,
    feedback: Feedback,
    lastSourceValue: string,
    emitted: seq<string>,
    checks: seq<string>,
    requests: seq<GenerateRequest>)

  /** Using `slug`: with its locale suffix it is shown, handed to the form and
      checked, and the check's reply sets the feedback. */
  function AfterUse(st: View, slug: string, ctx: FieldContext, check: CheckService): (r: View)
    ensures StartsWith(r.inputSlug, slug)
    ensures r.emitted == st.emitted + [r.inputSlug] && r.checks == st.checks + [r.inputSlug]
    ensures r.feedback == AfterCheck(check(r.inputSlug), st.feedback)
    ensures r.lastSourceValue == st.lastSourceValue && r.requests == st.requests
  {
    var final := EnsureLocaleInSlug(slug, ctx.i18n, ctx.locale);
    st.(inputSlug := final, emitted := st.emitted + [final], checks := st.checks + [final],
        feedback := AfterCheck(check(final), st.feedback))
  }

  /** What a generation that got past the guards leaves behind, `text` being the
      trimmed source and `source` the source as it was. */
  function AfterGeneration(st: View, text: string, source: string, isManual: bool, ctx: FieldContext,
                           generate: GenerateService, check: CheckService): (r: View)
    // exactly one request, for the trimmed source
    ensures r.requests == st.requests + [RequestFor(ctx, text)]
    ensures var reply := generate(RequestFor(ctx, text));
      var returned := reply.Responded? && reply.slug != "";
      // a returned slug is what the input shows, and its source becomes the last source
      && (returned ==> StartsWith(r.inputSlug, reply.slug) && r.lastSourceValue == text)
      // otherwise the last source stays
      && (!returned ==> r.lastSourceValue == st.lastSourceValue)
      // a manual run always hands one slug to the form and checks it
      && (isManual || returned ==> r.emitted == st.emitted + [r.inputSlug] && r.checks == st.checks + [r.inputSlug])
      // without a slug from the server, a manual run shows the local slugify of the source
      && (isManual && !returned ==> StartsWith(r.inputSlug, Slugify(source)))
      // and an automatic run changes nothing but the request trace
      && (!isManual && !returned ==> r == st.(requests := r.requests))
  {
    var request := RequestFor(ctx, text);
    var sent := st.(requests := st.requests + [request]);
    var reply := generate(request);
    if reply.Responded? && reply.slug != "" then
      AfterUse(sent, reply.slug, ctx, check).(lastSourceValue := text)
    else if isManual then
      AfterUse(sent.(feedback := sent.feedback.(error := Some(FallbackMessage))), Slugify(source), ctx, check)
    else sent
  }

  // ---------------------------------------------------------------- the input's state

  class SlugInputState {
    var inputSlug: string
    var error: Option<string>
    /** `null` until a check has run, then the outcome of the last check. */
    var isValid: Option<bool>
    var reGenerate: bool
    var isManuallyEdited: bool
    var lastSourceValue: string
    /** The values passed to the form's `onChange`, oldest first. */
    var emitted: seq<string>
    /** The slugs sent to `/check-slug`, oldest first. */
    var checks: seq<string>
    /** The bodies sent to `/generate`, oldest first. */
    var requests: seq<GenerateRequest>

    constructor(value: string)
      ensures inputSlug == value && error.None? && isValid.None? && !reGenerate
      ensures !isManuallyEdited && lastSourceValue == ""
      ensures emitted == [] && checks == [] && requests == []
    {
      inputSlug := value;
      error := None;
      isValid := None;
      reGenerate := false;
      isManuallyEdited := false;
      lastSourceValue := "";
      emitted := [];
      checks := [];
      requests := [];
    }

    function CurrentFeedback(): Feedback
      reads this
    {
      Feedback(error, isValid, reGenerate)
    }

    function Current(): View
      reads this
    {
      View(inputSlug, CurrentFeedback(), lastSourceValue, emitted, checks, requests)
    }

    /** validateSlug: ask the server whether `slug` may be used and record the answer. */
    method ValidateSlug(slug: string, check: CheckService) returns (ok: bool)
      modifies this
      ensures checks == old(checks) + [slug]
      ensures ok <==> check(slug).Accepted?
      ensures CurrentFeedback() == AfterCheck(check(slug), old(CurrentFeedback()))
      ensures inputSlug == old(inputSlug) && isManuallyEdited == old(isManuallyEdited)
      ensures lastSourceValue == old(lastSourceValue) && emitted == old(emitted) && requests == old(requests)
    {
      checks := checks + [slug];
      match check(slug)
      case Rejected(message) =>
        error := Some(if message.Some? && message.value != "" then message.value else RejectedMessage);
        isValid := Some(false);
        reGenerate := true;
        ok := false;
      case Accepted =>
        error := None;
        isValid := Some(true);
        reGenerate := false;
        ok := true;
      case CheckError =>
        error := Some(CheckFailedMessage);
        ok := false;
    }

    /** handleInputChange: the user typed `newValue`. A blank value in a required
        field is rejected locally without asking the server; otherwise the value,
        with its locale suffix, is checked and handed to the form if accepted. */
    method HandleInputChange(newValue: string, ctx: FieldContext, check: CheckService)
      modifies this
      ensures isManuallyEdited
      ensures lastSourceValue == old(lastSourceValue) && requests == old(requests)
      ensures IsBlank(newValue) && ctx.required ==>
                && inputSlug == "" && isValid == Some(false) && error == Some(EmptySlugMessage)
                && emitted == old(emitted) + [""] && checks == old(checks) && reGenerate == old(reGenerate)
      ensures !(IsBlank(newValue) && ctx.required) ==>
                var full := EnsureLocaleInSlug(newValue, ctx.i18n, ctx.locale);
                && inputSlug == newValue
                && checks == old(checks) + [full]
                && emitted == old(emitted) + (if check(full).Accepted? then [full] else [])
                && CurrentFeedback() == AfterCheck(check(full), Feedback(old(error), None, old(reGenerate)))
    {
      inputSlug := newValue;
      isValid := None;
      isManuallyEdited := true;
      TrimEmpty(newValue);
      if Trim(newValue) == "" && ctx.required {
        error := Some(EmptySlugMessage);
        isValid := Some(false);
        inputSlug := "";
        emitted := emitted + [""];
        return;
      }
      CheckTypedSlug(newValue, ctx, check);
    }

    /** The part of handleInputChange after the empty check: check the typed value
        with its locale suffix and hand it to the form if it is accepted. */
    method CheckTypedSlug(newValue: string, ctx: FieldContext, check: CheckService)
      modifies this
      ensures var full := EnsureLocaleInSlug(newValue, ctx.i18n, ctx.locale);
        && checks == old(checks) + [full]
        && emitted == old(emitted) + (if check(full).Accepted? then [full] else [])
        && CurrentFeedback() == AfterCheck(check(full), old(CurrentFeedback()))
      ensures inputSlug == old(inputSlug) && isManuallyEdited == old(isManuallyEdited)
      ensures lastSourceValue == old(lastSourceValue) && requests == old(requests)
    {
      var fullSlug := EnsureLocaleInSlug(newValue, ctx.i18n, ctx.locale);
      var isValidSlug := ValidateSlug(fullSlug, check);
      if isValidSlug {
        emitted := emitted + [fullSlug];
      }
    }

    /** Show `slug` (with its locale suffix), hand it to the form and check it. */
    method UseSlug(slug: string, ctx: FieldContext, check: CheckService)
      modifies this
      ensures Current() == AfterUse(old(Current()), slug, ctx, check)
      ensures isManuallyEdited == old(isManuallyEdited)
    {
      var finalSlug := EnsureLocaleInSlug(slug, ctx.i18n, ctx.locale);
      inputSlug := finalSlug;
      emitted := emitted + [finalSlug];
      var _ := ValidateSlug(finalSlug, check);
    }

    /** performSlugGeneration: after the guards, ask the server for a slug of the
        trimmed source. A returned slug is used and becomes the new last source; a
        failure falls back to the local slugify, for a manual generation only. */
    method PerformSlugGeneration(v: SourceValue, isManual: bool, ctx: FieldContext,
                                 generate: GenerateService, check: CheckService)
      modifies this
      ensures isManuallyEdited == old(isManuallyEdited)
      ensures !PassesGenerationGuards(v, isManual, old(lastSourceValue)) && !isManual ==> unchanged(this)
      ensures !PassesGenerationGuards(v, isManual, old(lastSourceValue)) && isManual ==>
                Current() == old(Current()).(feedback := old(CurrentFeedback()).(error := Some(GuardMessage(v, SourceField(ctx)))))
      ensures PassesGenerationGuards(v, isManual, old(lastSourceValue)) ==>
                Current() == AfterGeneration(old(Current()), Trim(v.s), v.s, isManual, ctx, generate, check)
    {
      if !IsTruthy(v) || !v.Str? || Trim(v.s) == "" {
        if isManual {
          error := Some(GuardMessage(v, SourceField(ctx)));
        }
        return;
      }
      if !isManual && lastSourceValue == Trim(v.s) {
        return;
      }
      RequestSlug(Trim(v.s), v.s, isManual, ctx, generate, check);
    }

    /** The part of performSlugGeneration after the guards: `text` is the trimmed
        source, `source` the source as it was. */
    method RequestSlug(text: string, source: string, isManual: bool, ctx: FieldContext,
                       generate: GenerateService, check: CheckService)
      modifies this
      ensures isManuallyEdited == old(isManuallyEdited)
      ensures Current() == AfterGeneration(old(Current()), text, source, isManual, ctx, generate, check)
    {
      var request := RequestFor(ctx, text);
      requests := requests + [request];
      var reply := generate(request);
      if reply.Responded? && reply.slug != "" {
        UseSlug(reply.slug, ctx, check);
        lastSourceValue := text;
      } else if isManual {
        FallBack(Slugify(source), ctx, check);
      }
    }

    /** The `catch` branch of a manual performSlugGeneration: report the fallback and
        use `local`, the local slugify of the source. */
    method FallBack(local: string, ctx: FieldContext, check: CheckService)
      modifies this
      ensures Current() == AfterUse(old(Current()).(feedback := old(CurrentFeedback()).(error := Some(FallbackMessage))), local, ctx, check)
      ensures isManuallyEdited == old(isManuallyEdited)
    {
      error := Some(FallbackMessage);
      UseSlug(local, ctx, check);
    }

    /** The source-field watcher, with the debounce delay left out: generate when
        ShouldAutoGenerate holds, otherwise do nothing. */
    method AutoGenerate(v: SourceValue, initial: SourceValue, ctx: FieldContext,
                        generate: GenerateService, check: CheckService)
      modifies this
      ensures !ShouldAutoGenerate(old(isManuallyEdited), v, initial, old(lastSourceValue)) ==> unchanged(this)
      ensures ShouldAutoGenerate(old(isManuallyEdited), v, initial, old(lastSourceValue)) ==>
                Current() == AfterGeneration(old(Current()), Trim(v.s), v.s, false, ctx, generate, check)
      ensures isManuallyEdited == old(isManuallyEdited)
    {
      if isManuallyEdited {
        return;
      }
      if IsTruthy(v) && v.Str? && Trim(v.s) != "" && v != initial && Trim(v.s) != lastSourceValue {
        PerformSlugGeneration(v, false, ctx, generate, check);
      }
    }

    /** handleManualGenerate: clear the manual-edit mark and generate, for any truthy
        source value. */
    method HandleManualGenerate(v: SourceValue, ctx: FieldContext, generate: GenerateService, check: CheckService)
      modifies this
      ensures !IsTruthy(v) ==> unchanged(this)
      ensures IsTruthy(v) ==> !isManuallyEdited
      ensures IsTruthy(v) && !PassesGenerationGuards(v, true, old(lastSourceValue)) ==>
                Current() == old(Current()).(feedback := old(CurrentFeedback()).(error := Some(GuardMessage(v, SourceField(ctx)))))
      ensures PassesGenerationGuards(v, true, old(lastSourceValue)) ==>
                Current() == AfterGeneration(old(Current()), Trim(v.s), v.s, true, ctx, generate, check)
    {
      if IsTruthy(v) {
        isManuallyEdited := false;
        PerformSlugGeneration(v, true, ctx, generate, check);
      }
    }

    /** handleReGenerate: ask for a slug of the source with a random suffix; the two
        random numbers are parameters. An empty answer slugifies the suffixed text
        locally; a failed request slugifies the source with the second number.
        Regeneration is no longer offered afterwards, whatever the check said. */
    method HandleReGenerate(v: SourceValue, counter: nat, retryCounter: nat, ctx: FieldContext,
                            generate: GenerateService, check: CheckService)
      requires counter < 1000 && retryCounter < 1000
      modifies this
      ensures !IsTruthy(v) ==> unchanged(this)
      ensures IsTruthy(v) ==>
                var text := Shown(v) + "-" + Decimal(counter);
                var reply := generate(RequestFor(ctx, text));
                var slug := if reply.Responded? && reply.slug != "" then reply.slug
                            else if reply.Responded? then Slugify(text)
                            else Slugify(Shown(v) + "-" + Decimal(retryCounter));
                var used := AfterUse(old(Current()).(requests := old(requests) + [RequestFor(ctx, text)]), slug, ctx, check);
                && !isManuallyEdited
                && Current() == used.(feedback := used.feedback.(reGenerate := false))
    {
      if IsTruthy(v) {
        isManuallyEdited := false;
        var textWithSuffix := Shown(v) + "-" + Decimal(counter);
        var request := RequestFor(ctx, textWithSuffix);
        requests := requests + [request];
        var reply := generate(request);
        match reply {
          case Responded(slug) =>
            if slug != "" {
              UseSlug(slug, ctx, check);
            } else {
              UseSlug(Slugify(textWithSuffix), ctx, check);
            }
          case RequestFailed =>
            UseSlug(Slugify(Shown(v) + "-" + Decimal(retryCounter)), ctx, check);
        }
        reGenerate := false;
      }
    }
  }
}
