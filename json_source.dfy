/**
 * JSONSource (lib/JSONSource.js): one locale fragment of one module, holding
 * its key, its JSON value and the serialisation of that value, all fixed at
 * construction. JSON.stringify is a foreign call, so every operation that
 * serialises takes it as the parameter `stringify`. The hash object a source
 * feeds is external too and is modelled as the log of strings it was given.
 */
module JSONSources {
  import opened JsValues

  /** An external hash object: only the sequence of `update` calls is observable. */
  class Hash {
    var log: seq<string>

    constructor ()
      ensures log == []
    {
      log := [];
    }

    /** `hash.update(s)`. */
    method Update(s: string)
      modifies this
      ensures log == old(log) + [s]
    {
      log := log + [s];
    }
  }

  /**
   * The fields `_key`, `_json` and `_value` of a JSONSource; `key()`, `json()`
   * and `source()` return them. A datatype: nothing assigns them after
   * construction.
   */
  datatype JSONSource = JSONSource(key: string, json: JsonValue, source: string) {

    /** `source` is what `stringify` makes of `json`. */
    predicate SerialisedBy(stringify: JsonValue -> string) {
      source == stringify(json)
    }

    /** Source.prototype.size: the length of the serialisation. */
    function Size(): nat {
      |source|
    }

    /** `updateHash(hash)`: one update, with the serialisation. */
    method UpdateHash(hash: Hash)
      modifies hash
      ensures hash.log == old(hash.log) + [source]
    {
      hash.Update(source);
    }
  }

  /** `new JSONSource(value, key)`: stringifies once, keeps the value and the key. */
  function NewJSONSource(value: JsonValue, key: string, stringify: JsonValue -> string): (s: JSONSource)
    ensures s.key == key && s.json == value
    ensures s.SerialisedBy(stringify)
  {
    JSONSource(key, value, stringify(value))
  }
}
