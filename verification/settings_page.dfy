/**
 * The admin settings page: its initial state and the four handlers that update
 * it. Each handler passes a functional updater to `setSettings`; the updater is
 * modelled as a function from the previous settings to the next ones, and the
 * page's state cell as a class whose handlers apply it.
 */
module SettingsPage {
  import opened Translators
  import opened Settings

  /** `keyof FieldMapping`. */
  datatype MappingField = ContentType | SourceField | TargetField

  function FieldValue(m: FieldMapping, f: MappingField): string {
    match f
    case ContentType => m.contentType
    case SourceField => m.sourceField
    case TargetField => m.targetField
  }

  /** The row handleFieldMappingAdd appends. */
  const EmptyMapping: FieldMapping := FieldMapping("", "", "")

  /** `{ ...m, [field]: value }`. */
  function SetField(m: FieldMapping, f: MappingField, value: string): (r: FieldMapping)
    ensures FieldValue(r, f) == value
    ensures forall g :: g != f ==> FieldValue(r, g) == FieldValue(m, g)
  {
    match f
    case ContentType => m.(contentType := value)
    case SourceField => m.(sourceField := value)
    case TargetField => m.(targetField := value)
  }

  /** `a` and `b` agree on mode, target language and autoSwitchOnFailure. */
  predicate SameOtherFields(a: PluginSettings, b: PluginSettings) {
    a.mode == b.mode && a.defaultTargetLanguage == b.defaultTargetLanguage
    && a.autoSwitchOnFailure == b.autoSwitchOnFailure
  }

  /** The updater of handleTranslatorUpdate: `{ ...prev, translators: { ...prev.translators, [p]: config } }`. */
  function WithTranslator(prev: PluginSettings, p: Provider, config: Credentials): (r: PluginSettings)
    ensures p in r.translators && r.translators[p] == config
    ensures forall q :: q != p ==> (q in r.translators <==> q in prev.translators)
    ensures forall q :: q != p && q in prev.translators ==> r.translators[q] == prev.translators[q]
    ensures SameOtherFields(r, prev) && r.fieldMappings == prev.fieldMappings
  {
    prev.(translators := prev.translators[p := config])
  }

  /** The updater of handleFieldMappingAdd. */
  function WithMappingAdded(prev: PluginSettings): (r: PluginSettings)
    ensures |r.fieldMappings| == |prev.fieldMappings| + 1
    ensures r.fieldMappings[..|prev.fieldMappings|] == prev.fieldMappings
    ensures r.fieldMappings[|prev.fieldMappings|] == EmptyMapping
    ensures SameOtherFields(r, prev) && r.translators == prev.translators
  {
    prev.(fieldMappings := prev.fieldMappings + [EmptyMapping])
  }

  /** The position `Array.prototype.splice(index, ...)` starts at: a negative index
      counts from the end (clamped to 0), a large one is clamped to the length. */
  function SpliceStart(len: nat, index: int): (r: nat)
    ensures r <= len
    ensures 0 <= index <= len ==> r == index
    ensures index < 0 && len + index >= 0 ==> r == len + index
    ensures len + index < 0 ==> r == 0
    ensures index > len ==> r == len
  {
    if index < 0 then (if len + index < 0 then 0 else len + index)
    else if index > len then len
    else index
  }

  /** `copy.splice(index, 1)` on a copy of `s`: removes the element at the start
      position, if there is one. */
  function SpliceOne<T>(s: seq<T>, index: int): (r: seq<T>)
    ensures var k := SpliceStart(|s|, index);
      k < |s| ==> r == s[..k] + s[k + 1..]
    ensures SpliceStart(|s|, index) == |s| ==> r == s
  {
    var k := SpliceStart(|s|, index);
    if k < |s| then s[..k] + s[k + 1..] else s
  }

  /** The updater of handleFieldMappingRemove. */
  function WithMappingRemoved(prev: PluginSettings, index: int): (r: PluginSettings)
    ensures 0 <= index < |prev.fieldMappings| ==>
              && |r.fieldMappings| == |prev.fieldMappings| - 1
              && r.fieldMappings[..index] == prev.fieldMappings[..index]
              && r.fieldMappings[index..] == prev.fieldMappings[index + 1..]
    ensures index >= |prev.fieldMappings| ==> r.fieldMappings == prev.fieldMappings
    ensures SameOtherFields(r, prev) && r.translators == prev.translators
  {
    prev.(fieldMappings := SpliceOne(prev.fieldMappings, index))
  }

  /** The updater of handleFieldMappingChange, for an index the page shows. */
  function WithMappingChanged(prev: PluginSettings, index: nat, f: MappingField, value: string): (r: PluginSettings)
    requires index < |prev.fieldMappings|
    ensures |r.fieldMappings| == |prev.fieldMappings|
    ensures FieldValue(r.fieldMappings[index], f) == value
    ensures forall g :: g != f ==> FieldValue(r.fieldMappings[index], g) == FieldValue(prev.fieldMappings[index], g)
    ensures forall j :: 0 <= j < |r.fieldMappings| && j != index ==> r.fieldMappings[j] == prev.fieldMappings[j]
    ensures SameOtherFields(r, prev) && r.translators == prev.translators
  {
    var copy := prev.fieldMappings;
    prev.(fieldMappings := copy[index := SetField(copy[index], f, value)])
  }

  /** Adding a row and then removing the row at the old length gives back the
      original settings. */
  lemma AddThenRemove(s: PluginSettings)
    ensures WithMappingRemoved(WithMappingAdded(s), |s.fieldMappings|) == s
  {
    var added := WithMappingAdded(s).fieldMappings;
    assert added[..|s.fieldMappings|] == s.fieldMappings;
    assert added[|s.fieldMappings| + 1..] == [];
  }

  /** A negative index counts from the end: -1 removes the last row. */
  lemma RemoveLast(s: PluginSettings)
    requires s.fieldMappings != []
    ensures WithMappingRemoved(s, -1).fieldMappings == s.fieldMappings[..|s.fieldMappings| - 1]
  {
    var n := |s.fieldMappings|;
    assert s.fieldMappings[n..] == [];
    assert s.fieldMappings[..n - 1] + [] == s.fieldMappings[..n - 1];
  }

  /** Setting a field to the value it already has changes nothing. */
  lemma ChangeToSameValue(s: PluginSettings, index: nat, f: MappingField)
    requires index < |s.fieldMappings|
    ensures WithMappingChanged(s, index, f, FieldValue(s.fieldMappings[index], f)) == s
  {
    var m := s.fieldMappings[index];
    assert SetField(m, f, FieldValue(m, f)) == m;
    assert s.fieldMappings[index := m] == s.fieldMappings;
  }

  /** The page's `settings` state cell. */
  class SettingsPageState {
    var settings: PluginSettings

    /** `useState<Settings>({...})`: the page starts from the server's defaults. */
    constructor()
      ensures settings == DefaultSettings
    {
      settings := PluginSettings(TranslationMode, map[], "en", true, []);
    }

    method HandleTranslatorUpdate(p: Provider, config: Credentials)
      modifies this
      ensures settings == WithTranslator(old(settings), p, config)
    {
      settings := settings.(translators := settings.translators[p := config]);
    }

    method HandleFieldMappingAdd()
      modifies this
      ensures settings == WithMappingAdded(old(settings))
    {
      settings := settings.(fieldMappings := settings.fieldMappings + [FieldMapping("", "", "")]);
    }

    method HandleFieldMappingRemove(index: int)
      modifies this
      ensures settings == WithMappingRemoved(old(settings), index)
    {
      var newMappings := settings.fieldMappings;
      newMappings := SpliceOne(newMappings, index);
      settings := settings.(fieldMappings := newMappings);
    }

    method HandleFieldMappingChange(index: nat, f: MappingField, value: string)
      requires index < |settings.fieldMappings|
      modifies this
      ensures settings == WithMappingChanged(old(settings), index, f, value)
    {
      var newMappings := settings.fieldMappings;
      newMappings := newMappings[index := SetField(newMappings[index], f, value)];
      settings := settings.(fieldMappings := newMappings);
    }
  }
}
