/**
 * The slug service: `formatSlug`, the list of usable remote translators, the
 * first-success loop over them, the pinyin fallback, `generateSlug` and
 * `testTranslator`. Each remote `translate` call is the caller-supplied
 * `Service`; the pinyin library is the caller-supplied `PinyinLibrary`.
 */
module SlugService {
  import opened Wrappers
  import opened Text
  import opened Translators
  import opened Settings
  import opened Pinyin

  // ---------------------------------------------------------------- formatSlug

  /** `formatSlug`: lower-case, trim, drop everything outside `[\w\s-]`, turn each
      run of `[\s_-]` into one `-`, drop leading and trailing hyphens. */
  function FormatSlug(text: string): (r: string)
    ensures IsSlugOver(r, LowerDigitHyphen)
  {
    var trimmed := Trim(Lower(text));
    var kept := Keep(trimmed, WordSpaceHyphen);
    var collapsed := CollapseRuns(kept, SpaceUnderscoreHyphen, false);
    StripNoDoubleHyphen(collapsed, Hyphen);
    Strip(collapsed, Hyphen)
  }

  /** Every character a slug over `[a-z0-9-]` may hold passes each stage of formatSlug. */
  lemma SlugCharsPassFormatStages(c: char)
    requires In(LowerDigitHyphen, c)
    ensures !IsUpper(c) && !IsSpace(c) && In(WordSpaceHyphen, c)
    ensures c == '-' || !In(SpaceUnderscoreHyphen, c)
  {
  }

  /** formatSlug leaves a string unchanged exactly when it is already a slug over
      `[a-z0-9-]`. */
  lemma FormatSlugFixpoint(s: string)
    ensures FormatSlug(s) == s <==> IsSlugOver(s, LowerDigitHyphen)
  {
    if IsSlugOver(s, LowerDigitHyphen) {
      forall c | c in s
        ensures !IsUpper(c) && !IsSpace(c) && In(WordSpaceHyphen, c)
        ensures c == '-' || !In(SpaceUnderscoreHyphen, c)
      {
        SlugCharsPassFormatStages(c);
      }
      LowerIdentity(s);
      assert s != [] ==> s[0] in s && s[|s| - 1] in s;
      StripIdentity(s, Space);
      assert Trim(Lower(s)) == s;
      KeepIdentity(s, WordSpaceHyphen);
      CollapseRunsIdentity(s, SpaceUnderscoreHyphen, false);
      StripIdentity(s, Hyphen);
    }
  }

  lemma FormatSlugIdempotent(s: string)
    ensures FormatSlug(FormatSlug(s)) == FormatSlug(s)
  {
    FormatSlugFixpoint(FormatSlug(s));
  }

  /** formatSlug as the composition of its stages. */
  lemma FormatSlugStages(s: string)
    ensures FormatSlug(s) == Strip(CollapseRuns(Keep(Trim(Lower(s)), WordSpaceHyphen), SpaceUnderscoreHyphen, false), Hyphen)
  {
  }

  /** The stages of formatSlug after trimming keep every letter and digit. */
  lemma KeepAlnumThroughFormatStages(trimmed: string)
    ensures var collapsed := CollapseRuns(Keep(trimmed, WordSpaceHyphen), SpaceUnderscoreHyphen, false);
      Keep(Strip(collapsed, Hyphen), Alnum) == Keep(trimmed, Alnum)
  {
    var kept := Keep(trimmed, WordSpaceHyphen);
    var collapsed := CollapseRuns(kept, SpaceUnderscoreHyphen, false);
    SpaceNotWord();
    KeepStrip(collapsed, Hyphen, Alnum);
    KeepCollapseRuns(kept, SpaceUnderscoreHyphen, false, Alnum);
    KeepKeep(trimmed, WordSpaceHyphen, Alnum);
  }

  lemma FormatSlugKeepsTrimmedAlnum(s: string)
    ensures Keep(FormatSlug(s), Alnum) == Keep(Trim(Lower(s)), Alnum)
  {
    FormatSlugStages(s);
    KeepAlnumThroughFormatStages(Trim(Lower(s)));
  }

  lemma TrimKeepsAlnum(s: string)
    ensures Keep(Trim(s), Alnum) == Keep(s, Alnum)
  {
    SpaceNotWord();
    KeepStrip(s, Space, Alnum);
  }

  /** Only separators and symbols are lost: the letters and digits of the result
      are, in order, those of the lower-cased input. */
  lemma FormatSlugKeepsAlnum(s: string)
    ensures Keep(FormatSlug(s), Alnum) == Keep(Lower(s), Alnum)
  {
    FormatSlugKeepsTrimmedAlnum(s);
    TrimKeepsAlnum(Lower(s));
  }

  /** The result is empty exactly when the input has no ASCII letter or digit, so
      an all-symbol input such as "!!!" gives "". Underscores count as separators. */
  lemma FormatSlugEmpty(s: string)
    ensures FormatSlug(s) == "" <==> Keep(Lower(s), Alnum) == ""
  {
    FormatSlugKeepsAlnum(s);
    if Keep(FormatSlug(s), Alnum) == "" {
      SlugWithoutKeptCharsIsEmpty(FormatSlug(s), LowerDigitHyphen, Alnum);
    }
  }

  /** formatSlug as a list of words: lower-case the text, delete every character
      outside `[\w\s-]`, cut what is left into words at each run of `[\s_-]`, and
      join the words with single hyphens. So formatSlug("Hello World!") is
      "hello-world" and formatSlug("a!b") is "ab". */
  lemma FormatSlugWords(s: string)
    ensures FormatSlug(s)
              == JoinHyphen(Words(Keep(Lower(s), WordSpaceHyphen), SpaceUnderscoreHyphen))
  {
    FormatSlugStages(s);
    CollapseStripIsJoin(Keep(Trim(Lower(s)), WordSpaceHyphen), SpaceUnderscoreHyphen, false);
    WordsKeepTrim(Lower(s), WordSpaceHyphen, SpaceUnderscoreHyphen);
  }

  /** A capital letter, a space and a small letter, such as "A b", give two
      one-letter words: "a-b". */
  lemma FormatSlugOfTwoLetters(u: char, sp: char, v: char)
    requires IsUpper(u) && IsSpace(sp) && IsLower(v)
    ensures FormatSlug([u, sp, v]) == [LowerChar(u), '-', v]
  {
    TwoLetterWords(u, sp, v, SpaceUnderscoreHyphen);
    FormatSlugWords([u, sp, v]);
  }

  /** Capital letters make no difference. */
  lemma FormatSlugIgnoresCase(s: string)
    ensures FormatSlug(Lower(s)) == FormatSlug(s)
  {
    LowerIdentity(Lower(s));
  }

  /** Each run of separators `[\s_-]` between two slugs becomes exactly one hyphen;
      for instance formatSlug("hello_ world") == "hello-world". */
  lemma FormatSlugJoin(a: string, sep: string, b: string)
    requires a != [] && b != [] && IsSlugOver(a, LowerDigitHyphen) && IsSlugOver(b, LowerDigitHyphen)
    requires sep != [] && AllIn(sep, SpaceUnderscoreHyphen)
    ensures FormatSlug(a + sep + b) == a + "-" + b
  {
    var s := a + sep + b;
    assert forall c :: c in s ==> c in a || c in sep || c in b;
    SpaceNotWord();
    LowerIdentity(s);
    assert a[0] in a && b[|b| - 1] in b && s[0] == a[0] && s[|s| - 1] == b[|b| - 1];
    StripIdentity(s, Space);
    KeepIdentity(s, WordSpaceHyphen);
    assert a[|a| - 1] in a;
    SlugKeepsItsRuns(a, b);
    CollapseRunsOfRun(sep, SpaceUnderscoreHyphen, false);
    CollapseRunsAppend(a, sep + b, SpaceUnderscoreHyphen, false);
    CollapseRunsAppend(sep, b, SpaceUnderscoreHyphen, false);
    AppendAssoc(a, sep, b);
    AppendAssoc(a, "-", b);
    JoinIsSlug(a, b, LowerDigitHyphen);
    StripIdentity(a + "-" + b, Hyphen);
  }

  /** Collapsing `[\s_-]` runs changes no slug over `[a-z0-9-]`, at the start of the
      text or after a run. */
  lemma SlugKeepsItsRuns(a: string, b: string)
    requires a != [] && b != [] && IsSlugOver(a, LowerDigitHyphen) && IsSlugOver(b, LowerDigitHyphen)
    ensures CollapseRuns(a, SpaceUnderscoreHyphen, false) == a
    ensures CollapseRuns(b, SpaceUnderscoreHyphen, true) == b
    ensures !RunAfter(a, SpaceUnderscoreHyphen, false)
  {
    forall c | In(LowerDigitHyphen, c)
      ensures c == '-' || !In(SpaceUnderscoreHyphen, c)
    {
      SlugCharsPassFormatStages(c);
    }
    CollapseRunsIdentity(a, SpaceUnderscoreHyphen, false);
    CollapseRunsIdentity(b, SpaceUnderscoreHyphen, true);
    assert a[|a| - 1] in a;
  }

  /** The pinyin slug is already in formatSlug's form. */
  lemma FormatSlugOfPinyinSlug(items: seq<string>)
    ensures FormatSlug(PinyinSlug(items)) == PinyinSlug(items)
  {
    FormatSlugFixpoint(PinyinSlug(items));
  }

  // ---------------------------------------------------------------- getEnabledTranslators

  /** The test getEnabledTranslators applies to one provider: configured, enabled,
      and holding the fields the provider requires (EligibleIsValidateCredentials
      relates this to validateCredentials). */
  predicate Eligible(p: Provider, tr: map<Provider, Credentials>)
    ensures Eligible(p, tr) ==> p in tr && tr[p].enabled
    ensures p == Google ==> (Eligible(p, tr) <==> p in tr && tr[p].enabled)
  {
    p in tr && tr[p].enabled && ValidateConfig(Vendor(p), tr[p])
  }

  /** The test of getEnabledTranslators, as written with validateCredentials. */
  lemma EligibleIsValidateCredentials(p: Provider, tr: map<Provider, Credentials>)
    ensures Eligible(p, tr) <==>
              p in tr && tr[p].enabled && (p == Google || ValidateCredentials(GetName(Vendor(p)), tr[p]))
  {
    if p in tr && tr[p].enabled {
      NameParsesBack(Vendor(p));
      ValidateCredentialsAgreesWithValidateConfig(GetName(Vendor(p)), tr[p]);
    }
  }

  /** The translator one provider contributes: one built from its credentials when
      it is eligible, none otherwise. */
  function Pick(p: Provider, tr: map<Provider, Credentials>): seq<Translator> {
    if Eligible(p, tr) then [Translator(p, tr[p])] else []
  }

  /** The translators built for the eligible providers among the first `n` of
      ProviderOrder, in that order. */
  function EnabledAmong(n: nat, tr: map<Provider, Credentials>): seq<Translator>
    requires n <= |ProviderOrder|
  {
    if n == 0 then [] else EnabledAmong(n - 1, tr) + Pick(ProviderOrder[n - 1], tr)
  }

  /** What getEnabledTranslators returns. */
  function EnabledTranslators(tr: map<Provider, Credentials>): (r: seq<Translator>)
    ensures forall i :: 0 <= i < |r| ==> Eligible(r[i].provider, tr) && r[i].config == tr[r[i].provider]
  {
    var r := EnabledAmong(|ProviderOrder|, tr);
    assert forall i :: 0 <= i < |r| ==> Eligible(r[i].provider, tr) && r[i].config == tr[r[i].provider] by {
      forall i | 0 <= i < |r|
        ensures Eligible(r[i].provider, tr) && r[i].config == tr[r[i].provider]
      {
        EnabledAmongElement(|ProviderOrder|, tr, i);
      }
    }
    r
  }

  function ProvidersOf(ts: seq<Translator>): seq<Provider> {
    seq(|ts|, i requires 0 <= i < |ts| => ts[i].provider)
  }

  /** getEnabledTranslators: one `if` per provider, in ProviderOrder, each pushing
      a translator built from that provider's credentials. */
  method GetEnabledTranslators(settings: PluginSettings) returns (translators: seq<Translator>)
    ensures translators == EnabledTranslators(settings.translators)
  {
    var tr := settings.translators;
    translators := [];
    EligibleIsValidateCredentials(Baidu, tr);
    if Baidu in tr && tr[Baidu].enabled && ValidateCredentials("baidu", tr[Baidu]) {
      translators := translators + [Translator(Baidu, tr[Baidu])];
    }
    assert translators == EnabledAmong(1, tr);
    EligibleIsValidateCredentials(Tencent, tr);
    if Tencent in tr && tr[Tencent].enabled && ValidateCredentials("tencent", tr[Tencent]) {
      translators := translators + [Translator(Tencent, tr[Tencent])];
    }
    assert translators == EnabledAmong(2, tr);
    EligibleIsValidateCredentials(Alibaba, tr);
    if Alibaba in tr && tr[Alibaba].enabled && ValidateCredentials("alibaba", tr[Alibaba]) {
      translators := translators + [Translator(Alibaba, tr[Alibaba])];
    }
    assert translators == EnabledAmong(3, tr);
    EligibleIsValidateCredentials(DeepL, tr);
    if DeepL in tr && tr[DeepL].enabled && ValidateCredentials("deepl", tr[DeepL]) {
      translators := translators + [Translator(DeepL, tr[DeepL])];
    }
    assert translators == EnabledAmong(4, tr);
    EligibleIsValidateCredentials(Volcano, tr);
    if Volcano in tr && tr[Volcano].enabled && ValidateCredentials("volcano", tr[Volcano]) {
      translators := translators + [Translator(Volcano, tr[Volcano])];
    }
    assert translators == EnabledAmong(5, tr);
    EligibleIsValidateCredentials(Google, tr);
    if Google in tr && tr[Google].enabled {
      translators := translators + [Translator(Google, tr[Google])];
    }
  }

  /** Each translator among the first `n` providers is an eligible one of them,
      built from its own credentials. */
  lemma {:induction false} EnabledAmongElement(n: nat, tr: map<Provider, Credentials>, i: nat)
    requires n <= |ProviderOrder| && i < |EnabledAmong(n, tr)|
    ensures var t := EnabledAmong(n, tr)[i];
      Rank(t.provider) < n && Eligible(t.provider, tr) && t.config == tr[t.provider]
  {
    var c := EnabledAmong(n - 1, tr);
    var p := ProviderOrder[n - 1];
    assert EnabledAmong(n, tr) == c + Pick(p, tr);
    if i < |c| {
      EnabledAmongElement(n - 1, tr, i);
      assert EnabledAmong(n, tr)[i] == c[i];
    } else {
      assert Pick(p, tr) != [] && Eligible(p, tr);
      assert EnabledAmong(n, tr)[i] == Translator(p, tr[p]);
    }
  }

  /** Every eligible provider among the first `n` has its translator. */
  lemma {:induction false} EnabledAmongComplete(n: nat, tr: map<Provider, Credentials>, q: Provider)
    requires n <= |ProviderOrder| && Rank(q) < n && Eligible(q, tr)
    ensures exists i :: 0 <= i < |EnabledAmong(n, tr)| && EnabledAmong(n, tr)[i].provider == q
  {
    var c := EnabledAmong(n - 1, tr);
    var p := ProviderOrder[n - 1];
    var r := EnabledAmong(n, tr);
    assert r == c + Pick(p, tr);
    if Rank(q) < n - 1 {
      EnabledAmongComplete(n - 1, tr, q);
      var i :| 0 <= i < |c| && c[i].provider == q;
      assert r[i] == c[i];
    } else {
      assert r[|c|] == Translator(q, tr[q]);
    }
  }

  /** The translators among the first `n` providers come in increasing rank. */
  lemma {:induction false} EnabledAmongOrdered(n: nat, tr: map<Provider, Credentials>, i: nat, j: nat)
    requires n <= |ProviderOrder| && i < j < |EnabledAmong(n, tr)|
    ensures Rank(EnabledAmong(n, tr)[i].provider) < Rank(EnabledAmong(n, tr)[j].provider)
  {
    var c := EnabledAmong(n - 1, tr);
    var p := ProviderOrder[n - 1];
    var r := EnabledAmong(n, tr);
    assert r == c + Pick(p, tr);
    assert r[i] == c[i];
    if j < |c| {
      EnabledAmongOrdered(n - 1, tr, i, j);
      assert r[j] == c[j];
    } else {
      EnabledAmongElement(n - 1, tr, i);
      assert Pick(p, tr) != [];
      assert r[j] == Translator(p, tr[p]);
    }
  }

  /** A provider has a translator in getEnabledTranslators' list iff it is eligible
      (EligibleIsValidateCredentials: configured and accepted by validateCredentials,
      or for google configured and enabled). */
  lemma EnabledTranslatorsMembers(tr: map<Provider, Credentials>, p: Provider)
    ensures p in ProvidersOf(EnabledTranslators(tr)) <==> Eligible(p, tr)
  {
    var r := EnabledTranslators(tr);
    if Eligible(p, tr) {
      EnabledAmongComplete(|ProviderOrder|, tr, p);
      var i :| 0 <= i < |r| && r[i].provider == p;
      assert ProvidersOf(r)[i] == p;
    }
    if p in ProvidersOf(r) {
      var i :| 0 <= i < |r| && ProvidersOf(r)[i] == p;
      EnabledAmongElement(|ProviderOrder|, tr, i);
    }
  }

  /** getEnabledTranslators' list is a duplicate-free subsequence of ProviderOrder,
      and each translator carries its own provider's credentials. */
  lemma EnabledTranslatorsOrdered(tr: map<Provider, Credentials>)
    ensures var r := EnabledTranslators(tr);
      && (forall i :: 0 <= i < |r| ==> r[i].provider in tr && r[i].config == tr[r[i].provider])
      && (forall i, j :: 0 <= i < j < |r| ==> Rank(r[i].provider) < Rank(r[j].provider))
      && (forall i, j :: 0 <= i < j < |r| ==> r[i].provider != r[j].provider)
  {
    var r := EnabledTranslators(tr);
    forall i | 0 <= i < |r|
      ensures r[i].provider in tr && r[i].config == tr[r[i].provider]
    {
      EnabledAmongElement(|ProviderOrder|, tr, i);
    }
    forall i, j | 0 <= i < j < |r|
      ensures Rank(r[i].provider) < Rank(r[j].provider)
    {
      EnabledAmongOrdered(|ProviderOrder|, tr, i, j);
    }
  }

  // ---------------------------------------------------------------- generateTranslationSlug

  /** `translator.translate(text, 'auto', targetLang)`. */
  function Attempt(translate: Service, t: Translator, text: string, targetLang: string): Outcome {
    translate(t, text, "auto", targetLang)
  }

  /** `result.success && result.text`: the call returned a successful, non-empty text. */
  predicate Wins(o: Outcome) {
    o.Returned? && o.result.success && o.result.text != ""
  }

  /** The index of the first translator whose call wins, if any. */
  function FirstWin(ts: seq<Translator>, text: string, targetLang: string, translate: Service): (r: Option<nat>)
    ensures r.Some? ==> r.value < |ts| && Wins(Attempt(translate, ts[r.value], text, targetLang))
    ensures r.Some? ==> forall j :: 0 <= j < r.value ==> !Wins(Attempt(translate, ts[j], text, targetLang))
    ensures r.None? ==> forall j :: 0 <= j < |ts| ==> !Wins(Attempt(translate, ts[j], text, targetLang))
  {
    if ts == [] then None
    else if Wins(Attempt(translate, ts[0], text, targetLang)) then Some(0)
    else
      match FirstWin(ts[1..], text, targetLang, translate)
      case Some(k) => Some(k + 1)
      case None => None
  }

  /** The translation slug: formatSlug of the first winning text, or "" when no
      translator wins. */
  function TranslationSlug(ts: seq<Translator>, text: string, targetLang: string, translate: Service): (r: string)
    ensures IsSlugOver(r, LowerDigitHyphen)
  {
    match FirstWin(ts, text, targetLang, translate)
    case Some(k) => FormatSlug(Attempt(translate, ts[k], text, targetLang).result.text)
    case None => ""
  }

  /** The translators the loop calls: all of them up to and including the first
      winner, or all of them when none wins. */
  function TranslationCalls(ts: seq<Translator>, text: string, targetLang: string, translate: Service): (r: seq<Translator>)
    ensures |r| <= |ts| && r == ts[..|r|]
    ensures forall j :: 0 <= j < |r| - 1 ==> !Wins(Attempt(translate, ts[j], text, targetLang))
    ensures |r| < |ts| ==> r != [] && Wins(Attempt(translate, ts[|r| - 1], text, targetLang))
  {
    match FirstWin(ts, text, targetLang, translate)
    case Some(k) => ts[..k + 1]
    case None => ts
  }

  /** FirstWin finds the first winner: when translator `k` wins and none before it
      does, FirstWin is `k`. */
  lemma FirstWinIs(ts: seq<Translator>, text: string, targetLang: string, translate: Service, k: nat)
    requires k < |ts| && Wins(Attempt(translate, ts[k], text, targetLang))
    requires forall j :: 0 <= j < k ==> !Wins(Attempt(translate, ts[j], text, targetLang))
    ensures FirstWin(ts, text, targetLang, translate) == Some(k)
  {
    var w := FirstWin(ts, text, targetLang, translate);
  }

  /** The first-success rule in terms of the calls themselves: when translator `k`
      wins and none before it does, its text decides the slug and nothing after it
      is called. */
  lemma TranslationSlugWinner(ts: seq<Translator>, text: string, targetLang: string, translate: Service, k: nat)
    requires k < |ts| && Wins(Attempt(translate, ts[k], text, targetLang))
    requires forall j :: 0 <= j < k ==> !Wins(Attempt(translate, ts[j], text, targetLang))
    ensures TranslationSlug(ts, text, targetLang, translate)
              == FormatSlug(Attempt(translate, ts[k], text, targetLang).result.text)
    ensures TranslationCalls(ts, text, targetLang, translate) == ts[..k + 1]
  {
    FirstWinIs(ts, text, targetLang, translate, k);
  }

  /** When no translator wins (in particular when there are none), every one is
      called and the translation slug is "". */
  lemma TranslationSlugNoWinner(ts: seq<Translator>, text: string, targetLang: string, translate: Service)
    requires forall j :: 0 <= j < |ts| ==> !Wins(Attempt(translate, ts[j], text, targetLang))
    ensures TranslationSlug(ts, text, targetLang, translate) == ""
    ensures TranslationCalls(ts, text, targetLang, translate) == ts
  {
    var w := FirstWin(ts, text, targetLang, translate);
  }

  lemma PrefixExtend<T>(s: seq<T>, i: nat)
    requires i < |s|
    ensures s[..i + 1] == s[..i] + [s[i]]
  {
  }

  /** generateTranslationSlug: tries the enabled translators in order; a failed or
      throwing call moves on to the next one. `calls` records the translators called. */
  method GenerateTranslationSlug(text: string, targetLang: string, settings: PluginSettings, translate: Service)
    returns (slug: string, ghost calls: seq<Translator>)
    ensures var ts := EnabledTranslators(settings.translators);
      slug == TranslationSlug(ts, text, targetLang, translate)
      && calls == TranslationCalls(ts, text, targetLang, translate)
  {
    var enabled := GetEnabledTranslators(settings);
    calls := [];
    for i := 0 to |enabled|
      invariant calls == enabled[..i]
      invariant forall j :: 0 <= j < i ==> !Wins(Attempt(translate, enabled[j], text, targetLang))
    {
      var outcome := translate(enabled[i], text, "auto", targetLang);
      calls := calls + [enabled[i]];
      if outcome.Returned? && outcome.result.success && outcome.result.text != "" {
        TranslationSlugWinner(enabled, text, targetLang, translate, i);
        PrefixExtend(enabled, i);
        slug := FormatSlug(outcome.result.text);
        return;
      }
    }
    TranslationSlugNoWinner(enabled, text, targetLang, translate);
    assert enabled[..|enabled|] == enabled;
    slug := "";
  }

  // ---------------------------------------------------------------- generatePinyinSlug, generateSlug

  /** generatePinyinSlug: the pinyin translator's text when it succeeds, else "". */
  function GeneratePinyinSlug(text: string, library: PinyinLibrary): (r: string)
    ensures library(text).Syllables? ==> r == PinyinSlug(library(text).items)
    ensures library(text).LibError? ==> r == ""
    ensures IsSlugOver(r, LowerDigitHyphen)
  {
    var result := Pinyin.Translate(text, library);
    if result.success then result.text else ""
  }

  /** The optional `{ mode, targetLang }` argument of generateSlug. */
  datatype SlugOptions = SlugOptions(mode: Option<Mode>, targetLang: Option<string>)

  /** `options?.mode || settings.mode`. */
  function EffectiveMode(options: SlugOptions, settings: PluginSettings): (r: Mode)
    ensures options.mode.Some? ==> r == options.mode.value
    ensures options.mode.None? ==> r == settings.mode
  {
    options.mode.GetOr(settings.mode)
  }

  /** `options?.targetLang || settings.defaultTargetLanguage`: an empty string counts
      as absent. */
  function EffectiveTargetLang(options: SlugOptions, settings: PluginSettings): (r: string)
    ensures Truthy(options.targetLang) ==> r == options.targetLang.value
    ensures !Truthy(options.targetLang) ==> r == settings.defaultTargetLanguage
  {
    if Truthy(options.targetLang) then options.targetLang.value else settings.defaultTargetLanguage
  }

  /** generateSlug, over the settings the store holds. In pinyin mode no translator
      is called; in translation mode an empty translation slug falls back to pinyin
      only when autoSwitchOnFailure is set, and is "" otherwise. */
  method GenerateSlug(store: SettingsStore, text: string, options: SlugOptions,
                      translate: Service, library: PinyinLibrary)
    returns (slug: string, ghost calls: seq<Translator>)
    ensures var settings := Overlay(store.Stored());
      var lang := EffectiveTargetLang(options, settings);
      var ts := EnabledTranslators(settings.translators);
      var translated := TranslationSlug(ts, text, lang, translate);
      && (EffectiveMode(options, settings) == PinyinMode ==>
            slug == GeneratePinyinSlug(text, library) && calls == [])
      && (EffectiveMode(options, settings) == TranslationMode ==>
            && calls == TranslationCalls(ts, text, lang, translate)
            && (translated != "" ==> slug == translated)
            && (translated == "" && settings.autoSwitchOnFailure ==> slug == GeneratePinyinSlug(text, library))
            && (translated == "" && !settings.autoSwitchOnFailure ==> slug == ""))
    ensures IsSlugOver(slug, LowerDigitHyphen)
  {
    var settings := store.GetSettings();
    var mode := options.mode.GetOr(settings.mode);
    var targetLang := if options.targetLang.Some? && options.targetLang.value != "" then options.targetLang.value
                      else settings.defaultTargetLanguage;
    if mode == PinyinMode {
      calls := [];
      slug := GeneratePinyinSlug(text, library);
      return;
    }
    slug, calls := GenerateTranslationSlug(text, targetLang, settings, translate);
    if slug == "" && settings.autoSwitchOnFailure {
      slug := GeneratePinyinSlug(text, library);
    }
  }

  // ---------------------------------------------------------------- testTranslator

  datatype TestResult = TestResult(success: bool, message: string)

  /** testTranslator: build the named translator, check its config, translate
      "Hello" from en to zh, and report. */
  function TestTranslator(name: string, config: Credentials, translate: Service): (r: TestResult)
    ensures ParseProvider(name).None? ==> r == TestResult(false, "Unknown translator")
    ensures ParseProvider(name).Some? && !ValidateConfig(Vendor(ParseProvider(name).value), config) ==>
              r == TestResult(false, "Invalid configuration")
    ensures r.success <==>
              && ParseProvider(name).Some?
              && ValidateConfig(Vendor(ParseProvider(name).value), config)
              && var o := translate(Translator(ParseProvider(name).value, config), "Hello", "en", "zh");
                 o.Returned? && o.result.success
    ensures r.success ==> r.message == "Test successful"
    ensures ParseProvider(name).Some? && ValidateConfig(Vendor(ParseProvider(name).value), config) ==>
              var o := translate(Translator(ParseProvider(name).value, config), "Hello", "en", "zh");
              && (o.Returned? && !o.result.success ==>
                    r.message == if Truthy(o.result.error) then o.result.error.value else "Translation failed")
              && (o.Threw? ==> r.message == if o.message != "" then o.message else "Test failed")
    ensures r.message != ""
  {
    match ParseProvider(name)
    case None => TestResult(false, "Unknown translator")
    case Some(p) =>
      if !ValidateConfig(Vendor(p), config) then TestResult(false, "Invalid configuration")
      else
        match translate(Translator(p, config), "Hello", "en", "zh")
        case Returned(result) =>
          if result.success then TestResult(true, "Test successful")
          else TestResult(false, if Truthy(result.error) then result.error.value else "Translation failed")
        case Threw(message) =>
          TestResult(false, if message != "" then message else "Test failed")
  }

  /** An unknown name or an invalid configuration is reported without calling the
      translator: the outcome is the same whatever the remote service does. */
  lemma TestTranslatorNoCallWhenInvalid(name: string, config: Credentials, s1: Service, s2: Service)
    requires ParseProvider(name).None? || !ValidateConfig(Vendor(ParseProvider(name).value), config)
    ensures TestTranslator(name, config, s1) == TestTranslator(name, config, s2)
    ensures !TestTranslator(name, config, s1).success
  {
  }
}
