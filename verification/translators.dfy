/**
 * The translator classes seen from the orchestration code: their names, the
 * credential fields each one needs, `validateConfig`, and the result of
 * `translate`. The vendor `translate` bodies (signed HTTP calls) are not
 * modelled: a call is an abstract `Service` supplied by the caller.
 */
module Translators {
  import opened Wrappers

  /** The six remote providers a settings record can configure. */
  datatype Provider = Baidu | Tencent | Alibaba | DeepL | Volcano | Google

  /** The order in which getEnabledTranslators considers the providers. */
  const ProviderOrder: seq<Provider> := [Baidu, Tencent, Alibaba, DeepL, Volcano, Google]

  /** Position of a provider in ProviderOrder. */
  function Rank(p: Provider): (r: nat)
    ensures r < |ProviderOrder| && ProviderOrder[r] == p
  {
    match p
    case Baidu => 0
    case Tencent => 1
    case Alibaba => 2
    case DeepL => 3
    case Volcano => 4
    case Google => 5
  }

  /** A translator class: one per remote provider, plus the local pinyin one. */
  datatype TranslatorKind = Vendor(provider: Provider) | Pinyin

  /** `getName()` of each translator class. */
  function GetName(k: TranslatorKind): (r: string)
    ensures r != []
    ensures r == "pinyin" <==> k == Pinyin
  {
    match k
    case Vendor(Baidu) => "baidu"
    case Vendor(Tencent) => "tencent"
    case Vendor(Alibaba) => "alibaba"
    case Vendor(DeepL) => "deepl"
    case Vendor(Volcano) => "volcano"
    case Vendor(Google) => "google"
    case Pinyin => "pinyin"
  }

  /** The `switch (translatorName)` shared by testTranslator and validateCredentials:
      a provider name, or None for the `default:` branch. */
  function ParseProvider(name: string): (r: Option<Provider>)
    ensures r.Some? ==> GetName(Vendor(r.value)) == name
  {
    if name == "baidu" then Some(Baidu)
    else if name == "tencent" then Some(Tencent)
    else if name == "alibaba" then Some(Alibaba)
    else if name == "deepl" then Some(DeepL)
    else if name == "volcano" then Some(Volcano)
    else if name == "google" then Some(Google)
    else None
  }

  /** A translator's name identifies it: a vendor's name parses back to that vendor,
      and the pinyin translator's name is not a vendor name. */
  lemma NameParsesBack(k: TranslatorKind)
    ensures ParseProvider(GetName(k)) == if k.Vendor? then Some(k.provider) else None
  {
  }

  /** The credential bag (TranslatorCredentials); absent properties are None. */
  datatype Credentials = Credentials(
    enabled: bool,
    appId: Option<string>,
    appKey: Option<string>,
    secretId: Option<string>,
    secretKey: Option<string>,
    apiKey: Option<string>,
    region: Option<string>,
    projectId: Option<string>)

  datatype CredentialField = AppId | AppKey | SecretId | SecretKey | ApiKey | Region | ProjectId

  function FieldOf(c: Credentials, f: CredentialField): Option<string> {
    match f
    case AppId => c.appId
    case AppKey => c.appKey
    case SecretId => c.secretId
    case SecretKey => c.secretKey
    case ApiKey => c.apiKey
    case Region => c.region
    case ProjectId => c.projectId
  }

  /** JavaScript truthiness of an optional string: present and not empty. */
  predicate Truthy(o: Option<string>) {
    o.Some? && o.value != ""
  }

  /** The fields a translator needs before it can be called. */
  function RequiredFields(k: TranslatorKind): set<CredentialField> {
    match k
    case Vendor(Baidu) => {AppId, AppKey}
    case Vendor(Tencent) => {SecretId, SecretKey}
    case Vendor(Alibaba) => {AppId, AppKey}
    case Vendor(DeepL) => {ApiKey}
    case Vendor(Volcano) => {AppId, AppKey}
    case Vendor(Google) => {}
    case Pinyin => {}
  }

  /** `validateConfig()` of each translator class, over the config it was built with.
      It does not look at `enabled`. */
  function ValidateConfig(k: TranslatorKind, config: Credentials): (r: bool)
    ensures RequiredFields(k) == {} ==> r
    ensures r ==> forall f :: f in RequiredFields(k) ==> Truthy(FieldOf(config, f))
  {
    match k
    case Vendor(Baidu) => Truthy(config.appId) && Truthy(config.appKey)
    case Vendor(Tencent) => Truthy(config.secretId) && Truthy(config.secretKey)
    case Vendor(Alibaba) => Truthy(config.appId) && Truthy(config.appKey)
    case Vendor(DeepL) => Truthy(config.apiKey)
    case Vendor(Volcano) => Truthy(config.appId) && Truthy(config.appKey)
    case Vendor(Google) => true
    case Pinyin => true
  }

  /** A config is valid exactly when every field the translator requires is present
      and non-empty. */
  lemma ValidateConfigSpec(k: TranslatorKind, config: Credentials)
    ensures ValidateConfig(k, config) <==> forall f :: f in RequiredFields(k) ==> Truthy(FieldOf(config, f))
  {
    assert FieldOf(config, AppId) == config.appId && FieldOf(config, AppKey) == config.appKey;
    assert FieldOf(config, SecretId) == config.secretId && FieldOf(config, SecretKey) == config.secretKey;
    assert FieldOf(config, ApiKey) == config.apiKey;
  }

  /** What `translate` resolves to (TranslationResult). */
  datatype TranslationResult = TranslationResult(text: string, success: bool, error: Option<string>)

  /** One `translate` call: it resolves to a result, or it throws. */
  datatype Outcome = Returned(result: TranslationResult) | Threw(message: string)

  /** A constructed remote translator: its class and the config it was built with. */
  datatype Translator = Translator(provider: Provider, config: Credentials)

  /** The remote side of `translator.translate(text, from, to)`. */
  type Service = (Translator, string, string, string) -> Outcome
}
