/**
 * The settings service: the plugin settings record, its defaults, the plugin
 * store it is kept in, the read/merge/write operations on it, and the
 * per-provider credential check.
 */
module Settings {
  import opened Wrappers
  import opened Translators

  datatype Mode = TranslationMode | PinyinMode

  datatype FieldMapping = FieldMapping(contentType: string, sourceField: string, targetField: string)

  /** A complete settings record, as getSettings returns it. */
  datatype PluginSettings = PluginSettings(
    mode: Mode,
    translators: map<Provider, Credentials>,
    defaultTargetLanguage: string,
    autoSwitchOnFailure: bool,
    fieldMappings: seq<FieldMapping>)

  /** A record in which any top-level property may be absent: what the store holds
      and what updateSettings receives. */
  datatype PartialSettings = PartialSettings(
    mode: Option<Mode>,
    translators: Option<map<Provider, Credentials>>,
    defaultTargetLanguage: Option<string>,
    autoSwitchOnFailure: Option<bool>,
    fieldMappings: Option<seq<FieldMapping>>)

  const DefaultSettings: PluginSettings := PluginSettings(TranslationMode, map[], "en", true, [])

  /** The store key the whole record is kept under. */
  const SettingsKey: string := "settings"

  /** The record getSettings builds from what the store holds under SettingsKey:
      the defaults, overridden by every stored top-level property. */
  function Overlay(stored: Option<PartialSettings>): (r: PluginSettings)
    ensures stored.None? ==> r == DefaultSettings
    ensures stored.Some? ==>
      && r.mode == stored.value.mode.GetOr(DefaultSettings.mode)
      && r.translators == stored.value.translators.GetOr(map[])
      && r.defaultTargetLanguage == stored.value.defaultTargetLanguage.GetOr(DefaultSettings.defaultTargetLanguage)
      && r.autoSwitchOnFailure == stored.value.autoSwitchOnFailure.GetOr(DefaultSettings.autoSwitchOnFailure)
      && r.fieldMappings == stored.value.fieldMappings.GetOr([])
  {
    match stored
    case None => DefaultSettings
    case Some(p) =>
      PluginSettings(
        p.mode.GetOr(DefaultSettings.mode),
        DefaultSettings.translators + p.translators.GetOr(map[]),
        p.defaultTargetLanguage.GetOr(DefaultSettings.defaultTargetLanguage),
        p.autoSwitchOnFailure.GetOr(DefaultSettings.autoSwitchOnFailure),
        p.fieldMappings.GetOr([]))
  }

  /** A complete record viewed as a stored value: every property present. */
  function AsPartial(s: PluginSettings): PartialSettings {
    PartialSettings(Some(s.mode), Some(s.translators), Some(s.defaultTargetLanguage),
                    Some(s.autoSwitchOnFailure), Some(s.fieldMappings))
  }

  /** Reading back a complete record that was stored gives that record. */
  lemma OverlayAsPartial(s: PluginSettings)
    ensures Overlay(Some(AsPartial(s))) == s
  {
  }

  /** The record updateSettings writes: a shallow merge of `patch` over `current`,
      except that the translators map is merged provider by provider. */
  function Merge(current: PluginSettings, patch: PartialSettings): (r: PluginSettings)
    ensures forall p :: p in current.translators && (patch.translators.None? || p !in patch.translators.value) ==>
      p in r.translators && r.translators[p] == current.translators[p]
    ensures patch.translators.Some? ==> forall p :: p in patch.translators.value ==>
      p in r.translators && r.translators[p] == patch.translators.value[p]
    ensures r.translators.Keys == current.translators.Keys + patch.translators.GetOr(map[]).Keys
    ensures r.mode == patch.mode.GetOr(current.mode)
    ensures r.defaultTargetLanguage == patch.defaultTargetLanguage.GetOr(current.defaultTargetLanguage)
    ensures r.autoSwitchOnFailure == patch.autoSwitchOnFailure.GetOr(current.autoSwitchOnFailure)
    ensures r.fieldMappings == patch.fieldMappings.GetOr(current.fieldMappings)
  {
    PluginSettings(
      patch.mode.GetOr(current.mode),
      current.translators + patch.translators.GetOr(map[]),
      patch.defaultTargetLanguage.GetOr(current.defaultTargetLanguage),
      patch.autoSwitchOnFailure.GetOr(current.autoSwitchOnFailure),
      patch.fieldMappings.GetOr(current.fieldMappings))
  }

  /** Applying the same patch a second time changes nothing. */
  lemma MergeIdempotent(current: PluginSettings, patch: PartialSettings)
    ensures Merge(Merge(current, patch), patch) == Merge(current, patch)
  {
    var once := Merge(current, patch);
    var twice := Merge(once, patch);
    assert twice.translators == once.translators;
  }

  /** updateSettings run twice with the same patch stores the same record as once:
      the second run reads back what the first one stored. */
  lemma UpdateTwiceIsOnce(stored: Option<PartialSettings>, patch: PartialSettings)
    ensures var once := Merge(Overlay(stored), patch);
            Merge(Overlay(Some(AsPartial(once))), patch) == once
  {
    var once := Merge(Overlay(stored), patch);
    OverlayAsPartial(once);
    MergeIdempotent(Overlay(stored), patch);
  }

  /** validateCredentials: a disabled credential is never valid; otherwise the
      provider's required fields must all be non-empty; an unknown name is invalid. */
  function ValidateCredentials(translator: string, credentials: Credentials): (r: bool)
    ensures r ==> credentials.enabled && ParseProvider(translator).Some?
  {
    if !credentials.enabled then false
    else match ParseProvider(translator)
      case Some(Baidu) => Truthy(credentials.appId) && Truthy(credentials.appKey)
      case Some(Tencent) => Truthy(credentials.secretId) && Truthy(credentials.secretKey)
      case Some(Alibaba) => Truthy(credentials.appId) && Truthy(credentials.appKey)
      case Some(DeepL) => Truthy(credentials.apiKey)
      case Some(Volcano) => Truthy(credentials.appId) && Truthy(credentials.appKey)
      case Some(Google) => true
      case None => false
  }

  /** The credential check in full: valid iff enabled, a known provider name, and
      every field that provider requires present and non-empty. */
  lemma ValidateCredentialsSpec(translator: string, credentials: Credentials)
    ensures ValidateCredentials(translator, credentials) <==>
              credentials.enabled && ParseProvider(translator).Some?
              && forall f :: f in RequiredFields(Vendor(ParseProvider(translator).value)) ==>
                               Truthy(FieldOf(credentials, f))
  {
    assert FieldOf(credentials, AppId) == credentials.appId && FieldOf(credentials, AppKey) == credentials.appKey;
    assert FieldOf(credentials, SecretId) == credentials.secretId && FieldOf(credentials, SecretKey) == credentials.secretKey;
    assert FieldOf(credentials, ApiKey) == credentials.apiKey;
  }

  /** For an enabled credential, validateCredentials agrees with the named
      translator class's own validateConfig. */
  lemma ValidateCredentialsAgreesWithValidateConfig(translator: string, credentials: Credentials)
    requires credentials.enabled && ParseProvider(translator).Some?
    ensures ValidateCredentials(translator, credentials)
              == ValidateConfig(Vendor(ParseProvider(translator).value), credentials)
  {
  }

  /** The plugin store of the settings service: a key-value cell in which the
      whole settings record lives under SettingsKey. */
  class SettingsStore {
    var store: map<string, PartialSettings>

    function Stored(): Option<PartialSettings>
      reads this
    {
      if SettingsKey in store then Some(store[SettingsKey]) else None
    }

    constructor(initial: map<string, PartialSettings>)
      ensures store == initial
    {
      store := initial;
    }

    /** getSettings. */
    method GetSettings() returns (settings: PluginSettings)
      ensures settings == Overlay(Stored())
      ensures Stored().None? ==> settings == DefaultSettings
    {
      var stored := if SettingsKey in store then Some(store[SettingsKey]) else None;
      settings := Overlay(stored);
    }

    /** setSettings: stores the given value as it is and returns it. */
    method SetSettings(value: PartialSettings) returns (r: PartialSettings)
      modifies this
      ensures store == old(store)[SettingsKey := value]
      ensures Stored() == Some(value)
      ensures r == value
    {
      store := store[SettingsKey := value];
      r := value;
    }

    /** updateSettings: read, merge the patch, write back the complete record. */
    method UpdateSettings(patch: PartialSettings) returns (r: PluginSettings)
      modifies this
      ensures r == Merge(Overlay(old(Stored())), patch)
      ensures store == old(store)[SettingsKey := AsPartial(r)]
      ensures Overlay(Stored()) == r
    {
      var current := GetSettings();
      var updated := Merge(current, patch);
      var _ := SetSettings(AsPartial(updated));
      OverlayAsPartial(updated);
      r := updated;
    }
  }
}
