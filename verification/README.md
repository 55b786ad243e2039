# enhanced-slug, modelled in Dafny

enhanced-slug is a Strapi plugin that fills a slug field from a source field.
On the server, `generateSlug` either romanises the text with a pinyin library
or asks the configured remote translators, one after another, for an English
(or other target-language) rendering, and normalises the first usable answer
with `formatSlug`. When every translator fails it falls back to pinyin if the
settings allow it. The settings record lives in the plugin store; the service
overlays defaults on it, merges updates into it, and checks each provider's
credentials. On the admin side, the slug input watches the source field,
asks the server for a slug, appends the locale suffix, checks the slug with
the server, and falls back to a local `slugify`. The settings page edits the
settings record through four small handlers, and two helpers build
translation keys.

The model has one module per source file, plus two shared ones:

- `Wrappers` holds `Option`.
- `Text` holds the string stages the regular expressions perform. These are
  ASCII lower-casing, JavaScript whitespace, keeping a character class,
  collapsing runs of a class to one `-`, and stripping a class from both ends.
  It also holds `join('-')` and `Words`, the words a separator class cuts a
  text into. Both slug pipelines are proved equal to joining such words with
  single hyphens (`SlugService.FormatSlugWords`, `SlugUtil.SlugifyWords`).
- `Translators` holds the translator classes as the orchestration code sees
  them: names, required credential fields, `validateConfig`, and the
  `TranslationResult` of a call.
- `Settings` covers `server/src/services/settings.ts`. The plugin store is
  the class `SettingsStore`.
- `Pinyin` covers `server/src/services/translators/pinyin.ts`.
- `SlugService` covers `server/src/services/slug.ts`.
  - `getEnabledTranslators` is a method proved equal to `EnabledTranslators`.
  - `generateTranslationSlug` is a loop proved equal to `TranslationSlug`,
    with a ghost trace of the translators it called.
  - `generateSlug` is a method over the `SettingsStore`.
- `SlugUtil` covers `server/src/utils/slug.ts`.
- `SettingsPage` covers `admin/src/pages/Settings/index.tsx`. The page's state
  cell is the class `SettingsPageState`. Each handler is proved to apply the
  updater function that specifies it.
- `SlugInput` covers `admin/src/components/SlugInput/index.tsx`. The
  component's state is the class `SlugInputState`. Traces record what it sends
  to the two endpoints and to the form.
- `GetTranslation` covers `admin/src/utils/getTranslation.ts`.

Three kinds of external call are parameters of the operations that make them:

- a remote translator call is a function `Service` from the translator and
  its arguments to a result or an exception;
- the pinyin library is a function from the text to a syllable array or an
  exception;
- the admin endpoints `/check-slug` and `/generate` are functions from what
  is posted to a reply.

## Model

| member | source | states |
|---|---|---|
| Text.LowerChar | server/src/services/slug.ts:100 | `toLowerCase` on one character: the result is never an ASCII capital, capitals become their small letter, and every other character is unchanged |
| Text.Lower | server/src/services/slug.ts:100 | lower-casing keeps the length and leaves no ASCII capital |
| Text.Keep | server/src/services/slug.ts:102 | `replace(/[^cls]/g, '')`: the result is no longer than the input and holds only characters of the input that are in the class |
| Text.CollapseRuns | server/src/services/slug.ts:103 | `replace(/[cls]+/g, '-')`: every character is `-` or an input character outside the class; when `-` is in the class, no two hyphens are adjacent |
| Text.CollapseRunsAppend | server/src/services/slug.ts:103 | the global replace works left to right: a concatenation collapses to the collapsed first part followed by the second part collapsed in the run state the first part left behind |
| Text.CollapseRunsOfRun | server/src/services/slug.ts:103 | a whole run of the class becomes exactly one `-`, or nothing when it continues a run already replaced |
| Text.Strip | server/src/services/slug.ts:104 | `replace(/^[cls]+\|[cls]+$/g, '')`: the result neither starts nor ends with a class character, and it holds only input characters |
| Text.Trim | server/src/services/slug.ts:101 | `trim()` leaves no whitespace at either end, keeps only input characters, and leaves a string without edge whitespace unchanged |
| Text.TrimEmpty | server/src/utils/slug.ts:11 | `trim()` gives the empty string exactly when the input is all whitespace |
| Text.StripEdgeHyphen | server/src/services/translators/pinyin.ts:27 | `replace(/^-\|-$/g, '')` drops only input characters |
| Text.JoinHyphen | server/src/services/translators/pinyin.ts:23 | `join('-')` starts with the first element |
| Text.JoinHyphenLast | server/src/services/translators/pinyin.ts:23 | `join('-')` ends with the last element |
| Text.JoinHyphenAppend | server/src/services/translators/pinyin.ts:23 | `join('-')` puts exactly one hyphen before each further element |
| Text.JoinHyphenCons | server/src/services/translators/pinyin.ts:23 | `join('-')` of a list headed by `w` is `w` alone or `w`, one hyphen and the rest joined |
| Text.JoinHyphenEmpty | server/src/services/translators/pinyin.ts:23 | joining non-empty strings gives `""` exactly for the empty list |
| Text.Words | server/src/services/slug.ts:103 | the words a separator class cuts a text into: each is non-empty and holds no separator |
| Text.WordsOfWord | server/src/services/slug.ts:103 | a text without separators is one word, or none when empty |
| Text.WordsSplit | server/src/services/slug.ts:103 | a separator ends the word before it and starts none of its own, so `"a b"` has the words `"a"` and `"b"` |
| Text.WordsAppendSep | server/src/services/slug.ts:103 | a separator at the end adds no word |
| Text.CollapseStripIsJoin | server/src/services/slug.ts:103-104 | turning each separator run into one `-` and then removing edge hyphens is the same as joining the words with single hyphens, from any run state |
| Text.WordsKeepTrim | server/src/services/slug.ts:101-102 | trimming the ends before filtering removes no word, since the whitespace it removes only separates |
| Text.StripEdgeHyphenAfterCollapse | server/src/services/translators/pinyin.ts:26-27 | after hyphen runs are collapsed, dropping one hyphen at each end leaves no edge hyphen and no double hyphen |
| Translators.Rank | server/src/services/slug.ts:66-93 | each provider has a position in the fixed order baidu, tencent, alibaba, deepl, volcano, google |
| Translators.GetName | server/src/services/translators/baidu.ts:8-10 | each translator class reports a non-empty name, and `'pinyin'` is the name of the pinyin translator only |
| Translators.ParseProvider | server/src/services/slug.ts:111-131 | the `switch` on a translator name recognises exactly the names the translator classes report |
| Translators.NameParsesBack | server/src/services/translators/pinyin.ts:5-7 | a vendor's `getName()` parses back to that vendor; `'pinyin'` is not a vendor name |
| Translators.ValidateConfig | server/src/services/translators/baidu.ts:12-14 | a translator that needs no fields (google, pinyin) always accepts its config; an accepted config has every required field present and non-empty |
| Translators.ValidateConfigSpec | server/src/services/translators/baidu.ts:12-14 | `validateConfig()` holds exactly when every field the translator requires is present and non-empty (baidu, alibaba, volcano: appId and appKey; tencent: secretId and secretKey; deepl: apiKey; google and pinyin: none) |
| Settings.Overlay | server/src/services/settings.ts:50-60 | with nothing stored the record is the defaults; otherwise each stored top-level property overrides its default, translators and fieldMappings default to empty |
| Settings.OverlayAsPartial | server/src/services/settings.ts:52-60 | reading back a stored complete record gives that record |
| Settings.Merge | server/src/services/settings.ts:80-87 | every top-level property of the patch overrides the current one; translators are merged per provider, patched providers taking the patch's config and the others keeping theirs |
| Settings.MergeIdempotent | server/src/services/settings.ts:80-87 | merging the same patch twice gives the same record as once |
| Settings.UpdateTwiceIsOnce | server/src/services/settings.ts:78-90 | running updateSettings twice with one patch stores what one run stores |
| Settings.ValidateCredentials | server/src/services/settings.ts:92-93 | a credential that is not enabled is never valid, and an unknown name is never valid |
| Settings.ValidateCredentialsSpec | server/src/services/settings.ts:92-111 | valid exactly when enabled, the name is a known provider, and that provider's required fields are all present and non-empty |
| Settings.ValidateCredentialsAgreesWithValidateConfig | server/src/services/settings.ts:95-110 | for an enabled credential, validateCredentials agrees with the named translator class's `validateConfig` |
| Settings.SettingsStore.constructor | server/src/services/settings.ts:44-48 | the store starts with the given contents |
| Settings.SettingsStore.GetSettings | server/src/services/settings.ts:43-61 | returns the defaults overlaid with what is stored under `settings`; the defaults when nothing is stored |
| Settings.SettingsStore.SetSettings | server/src/services/settings.ts:63-76 | stores the value under `settings`, leaving other keys alone, and returns it |
| Settings.SettingsStore.UpdateSettings | server/src/services/settings.ts:78-90 | returns and stores the merge of the patch over the current settings; reading the settings back afterwards gives the returned record |
| Pinyin.CleanOne | server/src/services/translators/pinyin.ts:21-22 | one syllable contributes at most one entry, non-empty and without edge whitespace |
| Pinyin.CleanSyllables | server/src/services/translators/pinyin.ts:21-22 | trimming and dropping empty syllables keeps at most as many syllables, each non-empty and without edge whitespace |
| Pinyin.CleanSyllablesAppend | server/src/services/translators/pinyin.ts:21-22 | the cleaning works syllable by syllable: cleaning a concatenation concatenates the cleaned parts |
| Pinyin.Joined | server/src/services/translators/pinyin.ts:20-23 | the joined syllables neither start nor end with whitespace, since every syllable is trimmed |
| Pinyin.BlankSyllableIgnored | server/src/services/translators/pinyin.ts:21-23 | an empty or whitespace-only syllable anywhere changes nothing in the slug |
| Pinyin.NonBlankSyllableJoined | server/src/services/translators/pinyin.ts:21-23 | a non-blank syllable appears trimmed after the earlier ones, separated by one hyphen |
| Pinyin.PinyinSlug | server/src/services/translators/pinyin.ts:20-27 | the post-processed text uses only `[a-z0-9-]`, has no two adjacent hyphens and does not start or end with `-` |
| Pinyin.GetPinyinName | server/src/services/translators/pinyin.ts:5-7 | returns `'pinyin'`, which is not one of the remote provider names |
| Pinyin.Translate | server/src/services/translators/pinyin.ts:13-40 | success exactly when the library returns; then the text is the post-processed syllables and there is no error; when it throws, the text is empty and the error is the exception's message |
| SlugService.FormatSlug | server/src/services/slug.ts:98-105 | the result uses only `[a-z0-9-]`, has no two adjacent hyphens and never starts or ends with `-` |
| SlugService.FormatSlugFixpoint | server/src/services/slug.ts:98-105 | formatSlug leaves a string unchanged exactly when it is already such a slug |
| SlugService.FormatSlugIdempotent | server/src/services/slug.ts:98-105 | formatSlug applied twice equals formatSlug applied once |
| SlugService.TrimKeepsAlnum | server/src/services/slug.ts:101 | trimming loses no letter or digit |
| SlugService.FormatSlugKeepsAlnum | server/src/services/slug.ts:98-105 | the letters and digits of the result are, in order, those of the lower-cased input |
| SlugService.FormatSlugEmpty | server/src/services/slug.ts:98-105 | the result is empty exactly when the input has no ASCII letter or digit (so `"!!!"` gives `""`) |
| SlugService.FormatSlugWords | server/src/services/slug.ts:98-105 | formatSlug on every input: lower-case, delete the characters outside `[\w\s-]`, cut into words at each run of `[\s_-]`, join the words with single hyphens |
| SlugService.FormatSlugOfTwoLetters | server/src/services/slug.ts:98-105 | a capital, a space and a small letter give the lower-cased letters joined by `-` (`"A b"` gives `"a-b"`) |
| SlugService.FormatSlugIgnoresCase | server/src/services/slug.ts:100 | lower-casing the input first changes nothing |
| SlugService.FormatSlugJoin | server/src/services/slug.ts:102-104 | for two non-empty pieces that are already slugs over `[a-z0-9-]`, a run of spaces, underscores and hyphens between them becomes exactly one `-` (so `"a_b"` gives `"a-b"`) |
| SlugService.FormatSlugOfPinyinSlug | server/src/services/slug.ts:98-105 | the pinyin slug is already in formatSlug's form |
| SlugService.EligibleIsValidateCredentials | server/src/services/slug.ts:66-93 | a provider passes getEnabledTranslators' test exactly when it is configured, enabled and accepted by validateCredentials, or for google configured and enabled |
| SlugService.Eligible | server/src/services/slug.ts:66-93 | an eligible provider is configured and enabled; google is eligible exactly when it is configured and enabled |
| SlugService.GetEnabledTranslators | server/src/services/slug.ts:62-96 | the six tests and pushes build exactly `EnabledTranslators`, the translators of the eligible providers in the fixed order |
| SlugService.EnabledTranslators | server/src/services/slug.ts:62-96 | every listed translator belongs to an eligible provider and carries that provider's credentials |
| SlugService.EnabledAmongElement | server/src/services/slug.ts:62-95 | every pushed translator belongs to an eligible provider and carries that provider's credentials |
| SlugService.EnabledAmongComplete | server/src/services/slug.ts:62-95 | every eligible provider's translator is pushed |
| SlugService.EnabledAmongOrdered | server/src/services/slug.ts:62-95 | translators are pushed in strictly increasing position of the fixed order |
| SlugService.EnabledTranslatorsMembers | server/src/services/slug.ts:62-95 | a provider is in the list if and only if it is eligible |
| SlugService.EnabledTranslatorsOrdered | server/src/services/slug.ts:62-95 | the list is a duplicate-free subsequence of baidu, tencent, alibaba, deepl, volcano, google, each with its own credentials |
| SlugService.FirstWin | server/src/services/slug.ts:41-46 | the index found is of a call that returned success with non-empty text, and no earlier call did; when none is found, no call did |
| SlugService.TranslationSlug | server/src/services/slug.ts:41-53 | the translation slug is always in formatSlug's form |
| SlugService.TranslationCalls | server/src/services/slug.ts:41-51 | the translators called are a prefix of the list; none but possibly the last of them wins, and when the loop stops early the last one called won |
| SlugService.FirstWinIs | server/src/services/slug.ts:41-46 | the first winning translator is the one the loop stops at |
| SlugService.TranslationSlugWinner | server/src/services/slug.ts:41-46 | when translator k is the first to win, the slug is formatSlug of its text and no translator after k is called |
| SlugService.TranslationSlugNoWinner | server/src/services/slug.ts:47-53 | when no translator wins (failures, exceptions or an empty list), all are called and the slug is `""` |
| SlugService.GenerateTranslationSlug | server/src/services/slug.ts:38-54 | the loop returns `TranslationSlug` of the enabled translators and calls exactly `TranslationCalls` of them, in order |
| SlugService.GeneratePinyinSlug | server/src/services/slug.ts:56-60 | the pinyin slug of the syllables when the library returns, `""` when it throws |
| SlugService.EffectiveMode | server/src/services/slug.ts:19 | the mode option overrides the settings' mode when given; otherwise the settings' mode applies |
| SlugService.EffectiveTargetLang | server/src/services/slug.ts:20 | a non-empty target language option overrides the settings' default, and an empty one does not |
| SlugService.GenerateSlug | server/src/services/slug.ts:15-36 | in pinyin mode the pinyin slug with no translator called; in translation mode a non-empty translation slug is returned, an empty one falls back to pinyin exactly when autoSwitchOnFailure is set and gives `""` otherwise; the result is always a formatSlug-form slug |
| SlugService.TestTranslator | server/src/services/slug.ts:107-148 | an unknown name gives `{false, 'Unknown translator'}`, an invalid config `{false, 'Invalid configuration'}`; otherwise success exactly when translate succeeds, with `'Test successful'`, else `result.error` or `'Translation failed'`, and an exception's message or `'Test failed'` |
| SlugService.TestTranslatorNoCallWhenInvalid | server/src/services/slug.ts:130-136 | for an unknown name or an invalid config the outcome does not depend on the remote service, so translate is not called |
| SlugUtil.Slugify | server/src/utils/slug.ts:7-16 | the result uses only `[a-z0-9_-]`, has no two adjacent hyphens and never starts or ends with `-` |
| SlugUtil.SlugifyFixpoint | server/src/utils/slug.ts:7-16 | slugify leaves a string unchanged exactly when it is already such a slug |
| SlugUtil.SlugifyIdempotent | server/src/utils/slug.ts:7-16 | slugify applied twice equals slugify applied once |
| SlugUtil.SlugifyKeepsWordChars | server/src/utils/slug.ts:7-16 | the word characters of the result are, in order, those of the lower-cased input |
| SlugUtil.SlugifyEmpty | server/src/utils/slug.ts:7-16 | the result is empty exactly when the input has no word character |
| SlugUtil.SlugifyJoin | server/src/utils/slug.ts:11-14 | for two non-empty pieces that are already slugs over `[a-z0-9_-]`, a whitespace run between them becomes exactly one `-` (so `"a b"` gives `"a-b"`) |
| SlugUtil.SlugifyWords | server/src/utils/slug.ts:7-16 | slugify on every input: lower-case, delete the characters outside `[\w\s-]`, cut into words at each run of `[\s-]`, join the words with single hyphens |
| SlugUtil.HyphenWordsAfterSpaces | server/src/utils/slug.ts:12-13 | turning whitespace runs into `-` before deleting symbols leaves the same words as deleting symbols first and cutting at whitespace and hyphens |
| SlugUtil.SlugifyOfTwoLetters | server/src/utils/slug.ts:7-16 | a capital, a space and a small letter give the lower-cased letters joined by `-` (`"A b"` gives `"a-b"`) |
| SlugUtil.SlugifyIgnoresCase | server/src/utils/slug.ts:10 | lower-casing the input first changes nothing |
| SettingsPage.SetField | admin/src/pages/Settings/index.tsx:133 | `{ ...m, [field]: value }` sets the named field and keeps the other two |
| SettingsPage.WithTranslator | admin/src/pages/Settings/index.tsx:109-112 | the named provider gets the new config; other providers and all other settings are unchanged |
| SettingsPage.WithMappingAdded | admin/src/pages/Settings/index.tsx:116-119 | exactly one empty mapping is appended at the end, earlier entries and other settings unchanged |
| SettingsPage.SpliceStart | admin/src/pages/Settings/index.tsx:125 | splice's start position: an in-range index as is, a negative one counted from the end and clamped at 0, a large one clamped to the length |
| SettingsPage.SpliceOne | admin/src/pages/Settings/index.tsx:124-125 | `splice(index, 1)` on a copy removes the element at the start position, if any |
| SettingsPage.WithMappingRemoved | admin/src/pages/Settings/index.tsx:123-127 | for an in-range index exactly that entry is removed, the others keep their order, and the list is one shorter; an index past the end changes nothing |
| SettingsPage.WithMappingChanged | admin/src/pages/Settings/index.tsx:131-135 | only the named field of the entry at the index changes; its other fields, the other entries, the length and the other settings are unchanged |
| SettingsPage.AddThenRemove | admin/src/pages/Settings/index.tsx:115-128 | adding a mapping and removing the one at the old length restores the original settings |
| SettingsPage.RemoveLast | admin/src/pages/Settings/index.tsx:122-128 | index -1 removes the last mapping |
| SettingsPage.ChangeToSameValue | admin/src/pages/Settings/index.tsx:130-136 | setting a field to its current value changes nothing |
| SettingsPage.SettingsPageState.constructor | admin/src/pages/Settings/index.tsx:58-64 | the page starts from the same record as the server's defaults |
| SettingsPage.SettingsPageState.HandleTranslatorUpdate | admin/src/pages/Settings/index.tsx:105-113 | the new state is `WithTranslator` of the previous one |
| SettingsPage.SettingsPageState.HandleFieldMappingAdd | admin/src/pages/Settings/index.tsx:115-120 | the new state is `WithMappingAdded` of the previous one |
| SettingsPage.SettingsPageState.HandleFieldMappingRemove | admin/src/pages/Settings/index.tsx:122-128 | the new state is `WithMappingRemoved` of the previous one |
| SettingsPage.SettingsPageState.HandleFieldMappingChange | admin/src/pages/Settings/index.tsx:130-136 | the new state is `WithMappingChanged` of the previous one |
| SlugInput.EnsureLocaleInSlug | admin/src/components/SlugInput/index.tsx:137-142 | unchanged when i18n is off or the locale is empty; otherwise the result ends with `-locale`; the result is the slug or the slug plus `-locale`, so the slug is always a prefix |
| SlugInput.EnsureLocaleIdempotent | admin/src/components/SlugInput/index.tsx:137-142 | applying ensureLocaleInSlug to its own result changes nothing |
| SlugInput.ShouldAutoGenerate | admin/src/components/SlugInput/index.tsx:322-337 | generation is scheduled only when the slug is not marked manually edited, the source is a non-blank string, and it differs from the initial value |
| SlugInput.PassesGenerationGuards | admin/src/components/SlugInput/index.tsx:232-249 | performSlugGeneration goes on exactly when the source is a non-blank string and, for an automatic run, its trimmed form differs from the last source |
| SlugInput.GuardMessage | admin/src/components/SlugInput/index.tsx:232-243 | a manual generation stopped by a guard always reports a non-empty message |
| SlugInput.AutoGenerationPassesGuards | admin/src/components/SlugInput/index.tsx:322-336 | nothing is scheduled while the manual-edit flag is set; a scheduled generation passes performSlugGeneration's guards |
| SlugInput.BlankSourceNeverGenerates | admin/src/components/SlugInput/index.tsx:239-243 | a whitespace-only source never reaches the server, manual or not |
| SlugInput.RequestFor | admin/src/components/SlugInput/index.tsx:260-264 | the generate request carries the text, and a mode and target language that are never empty (`'translation'` and `'en'` by default) |
| SlugInput.SourceField | admin/src/components/SlugInput/index.tsx:112 | the source field name is never empty: the configured one when set, `'title'` otherwise |
| SlugInput.AfterCheck | admin/src/components/SlugInput/index.tsx:176-201 | an error is shown exactly when the check does not accept; accepted means valid and no regeneration; rejected means invalid, regeneration offered and the server's message or a default; a failed check keeps the valid mark and the regeneration offer |
| SlugInput.AfterUse | admin/src/components/SlugInput/index.tsx:268-274 | the slug, with its locale suffix, is what the input shows, is handed to the form and is checked; the check decides the feedback; nothing is sent to `/generate` and the last source stays |
| SlugInput.AfterGeneration | admin/src/components/SlugInput/index.tsx:251-298 | exactly one request for the trimmed source; a returned slug is shown and its source becomes the last source, which changes in no other case; a manual run always hands one slug to the form, the local slugify of the source when none came back; an automatic run with no slug changes nothing else |
| SlugInput.Decimal | admin/src/components/SlugInput/index.tsx:348 | a number renders as a non-empty string of digits |
| SlugInput.SlugInputState.constructor | admin/src/components/SlugInput/index.tsx:101-110 | the input starts with the field's value, no error, no check result, and nothing generated or sent |
| SlugInput.SlugInputState.ValidateSlug | admin/src/components/SlugInput/index.tsx:162-203 | one check is sent; the result is true exactly when the check accepts; the feedback becomes `AfterCheck` of the reply; nothing else changes |
| SlugInput.SlugInputState.HandleInputChange | admin/src/components/SlugInput/index.tsx:205-226 | the input is marked as manually edited; a blank value in a required field sets the value to `''`, marks it invalid and sends no check; otherwise the value with its locale suffix is checked, handed to the form only if accepted, and the feedback is `AfterCheck` of the reply over a cleared valid mark |
| SlugInput.SlugInputState.CheckTypedSlug | admin/src/components/SlugInput/index.tsx:219-225 | the typed value with its locale suffix is checked once and handed to the form exactly when the check accepts it; the feedback is `AfterCheck` of the reply |
| SlugInput.SlugInputState.UseSlug | admin/src/components/SlugInput/index.tsx:268-274 | the new state is `AfterUse` of the old one |
| SlugInput.SlugInputState.PerformSlugGeneration | admin/src/components/SlugInput/index.tsx:229-298 | when the guards stop an automatic run nothing changes, and a manual run changes only the error, to the guard message; otherwise the new state is `AfterGeneration` of the old one |
| SlugInput.SlugInputState.RequestSlug | admin/src/components/SlugInput/index.tsx:251-298 | the new state is `AfterGeneration` of the old one |
| SlugInput.SlugInputState.FallBack | admin/src/components/SlugInput/index.tsx:282-291 | the fallback error is set and then the local slug is used: the new state is `AfterUse` of the old one with that error |
| SlugInput.SlugInputState.AutoGenerate | admin/src/components/SlugInput/index.tsx:309-338 | when the trigger condition holds the new state is `AfterGeneration` of the old one for an automatic run; otherwise nothing changes |
| SlugInput.SlugInputState.HandleManualGenerate | admin/src/components/SlugInput/index.tsx:385-391 | a falsy source changes nothing; a truthy one clears the manual-edit mark, and either the guard message is set with nothing else changed or the new state is `AfterGeneration` of the old one for a manual run |
| SlugInput.SlugInputState.HandleReGenerate | admin/src/components/SlugInput/index.tsx:340-383 | a falsy source changes nothing; otherwise one request with the suffixed source is sent, and the answer, or the local slugify of the suffixed text, or after a failure of the source with the second suffix, is used as `AfterUse` does; the manual-edit mark is cleared and regeneration is no longer offered |
| GetTranslation.Qualified | admin/src/utils/getTranslation.ts:3 | `${p}.${k}` is the prefix, a dot and the key |
| GetTranslation.QualifiedInjective | admin/src/utils/getTranslation.ts:14 | qualifying with one prefix never merges two keys |
| GetTranslation.GetTranslation | admin/src/utils/getTranslation.ts:3 | the key is the plugin id, a dot and the id |
| GetTranslation.GetTranslationInjective | admin/src/utils/getTranslation.ts:3 | distinct ids give distinct keys |
| GetTranslation.AddPrefix | admin/src/utils/getTranslation.ts:9-16 | every key k of the object yields key `prefix.k` with the same value, and every key of the result is of that form |
| GetTranslation.AddPrefixKeys | admin/src/utils/getTranslation.ts:13-15 | a key is in the result exactly when it is the prefix, a dot and a key of the object |
| GetTranslation.AddPrefixRemove | admin/src/utils/getTranslation.ts:13-15 | removing one entry from the object removes exactly its prefixed entry from the result |
| GetTranslation.AddPrefixSize | admin/src/utils/getTranslation.ts:13-15 | the result has as many entries as the object |
| GetTranslation.AddPrefixEmpty | admin/src/utils/getTranslation.ts:13-15 | the result is empty exactly when the object is |

## Left out

- The vendor `translate` bodies (signed HTTP and SDK calls to Baidu, Tencent, Alibaba, DeepL, Volcano and Google) are outside the model. A call is the abstract `Service` parameter, returning a `TranslationResult` or throwing.
- The pinyin-pro library is a parameter: a function from the text to a syllable array or an exception.
- Lower-casing is ASCII only. Full Unicode `toLowerCase` (for example of accented or Turkish letters) is not modelled. `\s` is the JavaScript whitespace and line-terminator set, listed in `Text.IsSpace`.
- `admin/src/pluginId` is not part of this model. `PLUGIN_ID` is taken to be `enhanced-slug`, the name under which the server services look the plugin up.
- Logging, `async`/`await` scheduling and the React render cycle are not modelled. Each handler runs to completion, and its state updates take effect in order.
- The `isLoading`, `isAutoGenerating` and `isSaving` flags are not modelled. They only drive spinners.
- SlugInput.SlugInputState.HandleInputChange: does not model the `setTimeout` that clears the valid mark 3000 ms after a successful check.
- SlugInput.SlugInputState.AutoGenerate: the 1500 ms debounce is not modelled. A scheduled generation runs at once, and a later change does not cancel an earlier one.
- The slug input's effects are not modelled: the one that reports a missing source field (lines 144-153) and the one that reads the locale from the URL. The locale is part of `FieldContext`.
- SlugInput.SlugInputState.HandleReGenerate: the two random suffixes are parameters (any number below 1000).
- SlugInput.SlugInputState.ValidateSlug: the check request's fixed parts (entry id, field key, content type, locale) are not modelled; only the slug varies. The server side of `/check-slug` is not modelled.
- SettingsPage.WithMappingChanged: requires an index below the list's length, because the page only calls it for a rendered row. Writing past the end of the copy is not modelled.
- The settings page's `fetchSettings` and `handleSave` are network round trips and are not modelled. Rendering and tab switching are not modelled either.
- Controllers, routes, `register` and `bootstrap` only marshal requests and register permissions, so they are not modelled. When every translator fails and fallback is off, the slug controller sends `""` as a normal response. `GenerateSlug` returns exactly that.
- The code has no usage ledger, quota, priority ordering or load balancing. The settings and translator controllers call `getAllUsageStats` and `resetUsageStats`, which the settings service does not define. The priority and limit inputs of the translator configuration form are display-only.
- `server/src/utils/slug-converter.ts` is commented out, so it is not modelled. Neither are the legacy `server/src/core` engines, `service.ts` or `controller.ts`, which depend on a missing `convertToSlug`.
- Settings.Overlay, Settings.Merge: `PluginSettings` and `PartialSettings` have the declared properties only. Extra top-level properties and explicit `null` values, which the object spreads would carry through, are not modelled. Nor are a credential's `priority` and `monthlyCharLimit`, which no service reads.
- Settings.SettingsStore: the store holds the settings record only. The environment and store name that scope it are fixed in the source, so they are not modelled.
