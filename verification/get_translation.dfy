/**
 * The admin translation-key helpers: `getTranslation` qualifies a message id
 * with the plugin id, and `addPrefix` qualifies every key of a message object
 * with a prefix. An object is modelled as a map from its own string keys to
 * its values.
 */
module GetTranslation {

  /** The plugin's id, `enhanced-slug`, under which the server registers the plugin. */
  const PluginId: string := "enhanced-slug"

  /** The template `${p}.${k}`. */
  function Qualified(p: string, k: string): (r: string)
    ensures |r| == |p| + 1 + |k|
    ensures r[..|p|] == p && r[|p|] == '.' && r[|p| + 1..] == k
  {
    p + "." + k
  }

  /** Qualifying with the same prefix never merges two keys. */
  lemma QualifiedInjective(p: string, a: string, b: string)
    requires Qualified(p, a) == Qualified(p, b)
    ensures a == b
  {
    assert a == Qualified(p, a)[|p| + 1..];
  }

  /** getTranslation. */
  function GetTranslation(id: string): (r: string)
    ensures r == Qualified(PluginId, id)
    ensures r[..|PluginId| + 1] == "enhanced-slug."
  {
    Qualified(PluginId, id)
  }

  /** Distinct ids give distinct translation keys. */
  lemma GetTranslationInjective(a: string, b: string)
    requires GetTranslation(a) == GetTranslation(b)
    ensures a == b
  {
    QualifiedInjective(PluginId, a, b);
  }

  /** addPrefix: `Object.fromEntries(Object.entries(obj).map(([k, v]) => [`${prefix}.${k}`, v]))`. */
  function AddPrefix<V>(obj: map<string, V>, prefix: string): (r: map<string, V>)
    ensures forall k :: k in obj ==> Qualified(prefix, k) in r && r[Qualified(prefix, k)] == obj[k]
    ensures forall key :: key in r ==> exists k :: k in obj && key == Qualified(prefix, k)
  {
    map k | k in obj :: Qualified(prefix, k) := obj[k]
  }

  /** A key of the result is exactly the prefix, a dot, and a key of the object. */
  lemma AddPrefixKeys<V>(obj: map<string, V>, prefix: string, key: string)
    ensures key in AddPrefix(obj, prefix) <==>
              |key| > |prefix| && key[..|prefix| + 1] == prefix + "." && key[|prefix| + 1..] in obj
  {
    if key in AddPrefix(obj, prefix) {
      var k :| k in obj && key == Qualified(prefix, k);
    }
    if |key| > |prefix| && key[..|prefix| + 1] == prefix + "." {
      assert key == Qualified(prefix, key[|prefix| + 1..]);
    }
  }

  /** Removing one key from the object removes exactly its qualified key from the result. */
  lemma AddPrefixRemove<V>(obj: map<string, V>, prefix: string, k: string)
    requires k in obj
    ensures AddPrefix(obj, prefix) == AddPrefix(obj - {k}, prefix)[Qualified(prefix, k) := obj[k]]
    ensures Qualified(prefix, k) !in AddPrefix(obj - {k}, prefix)
  {
    var rest := AddPrefix(obj - {k}, prefix);
    forall key | key in AddPrefix(obj, prefix)
      ensures key in rest[Qualified(prefix, k) := obj[k]]
    {
      var j :| j in obj && key == Qualified(prefix, j);
    }
  }

  /** No two entries collide, so the result has as many entries as the object. */
  lemma {:induction false} AddPrefixSize<V>(obj: map<string, V>, prefix: string)
    ensures |AddPrefix(obj, prefix)| == |obj|
    decreases |obj|
  {
    if obj != map[] {
      var k :| k in obj;
      AddPrefixRemove(obj, prefix, k);
      AddPrefixSize(obj - {k}, prefix);
    }
  }

  lemma AddPrefixEmpty<V>(obj: map<string, V>, prefix: string)
    ensures AddPrefix(obj, prefix) == map[] <==> obj == map[]
  {
    AddPrefixSize(obj, prefix);
  }
}
