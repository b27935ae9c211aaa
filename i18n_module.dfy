/**
 * The chunk copies the plugin works on and its i18n modules
 * (lib/i18nModule.js). A module lists the chunks it belongs to and each chunk
 * lists its modules; the two lists are kept in step by `_manageChunks`, which
 * updates both sides. Chunk and Module refer to each other, so both live here.
 */
module I18nModule {
  import opened Wrappers
  import opened Seqs
  import opened JsValues
  import opened JSONSources
  import opened JSONConcatSources
  import opened Host

  /**
   * A copy of an original chunk (webpack's Chunk class as index.js uses it):
   * the original's name, entry-point status and identity, its position among
   * the copies, its child and parent copies, and the i18n modules it holds.
   */
  class Chunk {
    const name: string
    const originalChunk: HostChunk
    const initial: bool
    var index: nat
    var chunks: seq<Chunk>
    var parents: seq<Chunk>
    var modules: seq<Module>

    /**
     * `new Chunk(original.name)` followed by setting `originalChunk` and
     * `entrypoints` from the original; the position is not set yet.
     */
    constructor (original: HostChunk)
      ensures name == original.name && originalChunk == original && initial == original.initial
      ensures index == 0 && chunks == [] && parents == [] && modules == []
    {
      name := original.name;
      originalChunk := original;
      initial := original.initial;
      index := 0;
      chunks := [];
      parents := [];
      modules := [];
    }

    /** `addChunk(c)`: add a child unless already there. */
    method AddChunk(c: Chunk) returns (added: bool)
      modifies this`chunks
      ensures added == (c !in old(chunks))
      ensures chunks == AddIfAbsent(old(chunks), c)
    {
      added := c !in chunks;
      chunks := AddIfAbsent(chunks, c);
    }

    /** `addParent(c)`: add a parent unless already there. */
    method AddParent(c: Chunk) returns (added: bool)
      modifies this`parents
      ensures added == (c !in old(parents))
      ensures parents == AddIfAbsent(old(parents), c)
    {
      added := c !in parents;
      parents := AddIfAbsent(parents, c);
    }

    /** `addModule(m)`: add a module unless already there. */
    method AddModule(m: Module) returns (added: bool)
      modifies this`modules
      ensures added == (m !in old(modules))
      ensures modules == AddIfAbsent(old(modules), m)
    {
      added := m !in modules;
      modules := AddIfAbsent(modules, m);
    }

    /**
     * `removeModule(m)`: drop m from this chunk and, when it was there, drop
     * this chunk from m's own list as well. It keeps chunk and module
     * membership in step.
     */
    method RemoveModule(m: Module, ghost U: set<Chunk>, ghost mods: set<Module>) returns (removed: bool)
      modifies this`modules, m`chunks
      ensures removed == (m in old(modules))
      ensures modules == Remove(old(modules), m)
      ensures m.chunks == if removed then Remove(old(m.chunks), this) else old(m.chunks)
      ensures old(Consistent(U, mods)) && this in U && m in mods ==> Consistent(U, mods)
    {
      if Consistent(U, mods) && this in U && m in mods {
        RemoveMembers(modules, m);
        RemoveMembers(m.chunks, this);
      }
      removed := m in modules;
      modules := Remove(modules, m);
      if removed {
        m.chunks := Remove(m.chunks, this);
      }
    }
  }

  /** The two operations `_manageChunks` dispatches on. */
  datatype Action = AddAction | RemoveAction

  /**
   * An i18n module: its identifier, key and JSON are fixed at construction;
   * the original module it stands for can be replaced; `chunks` lists the
   * chunk copies it belongs to.
   */
  class Module {
    const identifier: string
    const key: string
    const json: Dict<JsonValue>
    var originalModule: HostModule
    var chunks: seq<Chunk>

    /** `new Module(identifier, info, originalModule)`: belongs to no chunk yet. */
    constructor (identifier: string, info: Info, originalModule: HostModule)
      ensures this.identifier == identifier && key == info.key && json == info.json
      ensures this.originalModule == originalModule && chunks == []
    {
      this.identifier := identifier;
      key := info.key;
      json := info.json;
      this.originalModule := originalModule;
      chunks := [];
    }

    /** `identifier()`. */
    function Identifier(): (id: string)
      ensures id == identifier
    {
      identifier
    }

    /** `key()`. */
    function Key(): (k: string)
      ensures k == key
    {
      key
    }

    /** `getOriginalModule()`. */
    function GetOriginalModule(): (om: HostModule)
      reads this
      ensures om == originalModule
    {
      originalModule
    }

    /** `setOriginalModule(om)`: a later `getOriginalModule()` returns om. */
    method SetOriginalModule(om: HostModule)
      modifies this`originalModule
      ensures GetOriginalModule() == om
    {
      originalModule := om;
    }

    /**
     * `_manageChunks(action, chunk)`. Adding a chunk the module is not in
     * records it on both sides; removing a chunk the module is in drops it
     * on both sides. Anything else changes nothing. The result says whether
     * something changed.
     */
    method ManageChunks(action: Action, chunk: Chunk) returns (result: bool)
      modifies this`chunks, chunk`modules
      ensures result == if action.AddAction? then chunk !in old(chunks) else chunk in old(chunks)
      ensures !result ==> chunks == old(chunks) && chunk.modules == old(chunk.modules)
      ensures result && action.AddAction? ==>
                chunks == old(chunks) + [chunk] && chunk.modules == AddIfAbsent(old(chunk.modules), this)
      ensures result && action.RemoveAction? ==>
                chunk.modules == Remove(old(chunk.modules), this) &&
                (NoDup(old(chunks)) ==> chunks == Remove(old(chunks), chunk))
    {
      var idx := IndexOf(chunks, chunk);
      result := false;
      match action
      case AddAction =>
        if idx < 0 {
          chunks := chunks + [chunk];
          var _ := chunk.AddModule(this);
          result := true;
        }
      case RemoveAction =>
        if idx >= 0 {
          chunks := chunks[..idx] + chunks[idx + 1..];
          ghost var once := chunks;
          var removedHere := chunk.RemoveModule(this, {}, {});
          if removedHere && NoDup(old(chunks)) {
            RemoveMembers(old(chunks), chunk);
            assert chunk !in once;
          }
          result := true;
        }
    }

    /**
     * `addToChunk(chunk)`: join the chunk; true exactly when the module was
     * not in it. Calling it twice in a row changes nothing the second time,
     * and it keeps chunk and module membership in step.
     */
    method AddToChunk(chunk: Chunk, ghost U: set<Chunk>, ghost mods: set<Module>) returns (added: bool)
      modifies this`chunks, chunk`modules
      ensures added == (chunk !in old(chunks))
      ensures chunks == AddIfAbsent(old(chunks), chunk)
      ensures chunk.modules == if added then AddIfAbsent(old(chunk.modules), this) else old(chunk.modules)
      ensures old(Consistent(U, mods)) && this in mods && chunk in U ==> Consistent(U, mods)
    {
      added := ManageChunks(AddAction, chunk);
    }

    /**
     * `removeFromChunk(chunk)`: leave the chunk; true exactly when the module
     * was in it. It keeps chunk and module membership in step.
     */
    method RemoveFromChunk(chunk: Chunk, ghost U: set<Chunk>, ghost mods: set<Module>) returns (removed: bool)
      modifies this`chunks, chunk`modules
      ensures removed == (chunk in old(chunks))
      ensures !removed ==> chunks == old(chunks) && chunk.modules == old(chunk.modules)
      ensures removed ==> chunk.modules == Remove(old(chunk.modules), this)
      ensures NoDup(old(chunks)) ==> chunks == Remove(old(chunks), chunk)
      ensures old(Consistent(U, mods)) && this in mods && chunk in U ==> Consistent(U, mods)
    {
      if old(Consistent(U, mods)) && this in mods && chunk in U {
        RemoveMembers(chunks, chunk);
        RemoveMembers(chunk.modules, this);
      }
      removed := ManageChunks(RemoveAction, chunk);
    }

    /**
     * `extractLocales(locales, shared_key)`: for each own property of the
     * module's JSON other than the shared key, in order, append one
     * JSONSource of that property's value under the module's key to the
     * bucket of that locale, creating the bucket when missing. When the
     * shared data is truthy, the call to `addDefault` that follows the first
     * append throws, since buckets have no such method.
     */
    method ExtractLocales(locales: Dict<JSONConcatSource>, sharedKey: Option<string>, stringify: JsonValue -> string)
      returns (out: Dict<JSONConcatSource>, r: Outcome<Error>)
      requires json.Valid() && locales.Valid() && Separate(locales)
      modifies locales.vals.Values
      ensures out.Valid() && Separate(out)
      ensures Keeps(locales, out)
      ensures forall l :: l in out.vals && l !in locales.vals ==> fresh(out.vals[l])
      ensures (View(out), r) == Extract(old(View(locales)), key, json, sharedKey, stringify)
    {
      ghost var start := View(locales);
      out := locales;
      r := Pass;
      var i := 0;
      while i < |json.keys| && r.Pass?
        invariant 0 <= i <= |json.keys|
        invariant out.Valid() && Separate(out)
        invariant Keeps(locales, out)
        invariant forall l :: l in out.vals && l !in locales.vals ==> fresh(out.vals[l])
        invariant OnTrack(start, key, json, sharedKey, stringify, View(out), r, i)
      {
        out, r := ExtractLocale(out, i, sharedKey, stringify, start);
        i := i + 1;
      }
    }

    /** One iteration of extractLocales' loop: the i-th own property of the JSON. */
    method ExtractLocale(locales: Dict<JSONConcatSource>, i: nat, sharedKey: Option<string>, stringify: JsonValue -> string,
                         ghost start: Dict<seq<Item>>)
      returns (out: Dict<JSONConcatSource>, r: Outcome<Error>)
      requires json.Valid() && i < |json.keys| && locales.Valid() && Separate(locales)
      requires OnTrack(start, key, json, sharedKey, stringify, View(locales), Pass, i)
      modifies locales.vals.Values
      ensures out.Valid() && Separate(out)
      ensures Keeps(locales, out)
      ensures forall l :: l in out.vals && l !in locales.vals ==> fresh(out.vals[l])
      ensures r.Pass? ==> ExtractFrom(old(View(locales)), key, json, sharedKey, stringify, i) ==
                          ExtractFrom(View(out), key, json, sharedKey, stringify, i + 1)
      ensures r.Fail? ==> ExtractFrom(old(View(locales)), key, json, sharedKey, stringify, i) == (View(out), r)
      ensures OnTrack(start, key, json, sharedKey, stringify, View(out), r, i + 1)
    {
      var locale := json.keys[i];
      out := locales;
      r := Pass;
      if Eligible(locale, sharedKey) {
        if SharedTruthy(json, sharedKey) {
          ExtractFromThrow(View(locales), key, json, sharedKey, stringify, i);
        } else {
          ExtractFromNext(View(locales), key, json, sharedKey, stringify, i);
        }
        out := AddToBucket(out, locale, LocaleItem(json, locale, key, stringify));
        if SharedTruthy(json, sharedKey) {
          r := Fail(NotAFunction("addDefault"));
        }
      } else {
        ExtractFromSkip(View(locales), key, json, sharedKey, stringify, i);
      }
    }
  }

  /**
   * Chunk and module membership agree: every chunk in U and every module in
   * mods lists the other side without repeats, lists only members of U and
   * mods, and a module is in a chunk exactly when the chunk is in the module.
   */
  ghost predicate Consistent(U: set<Chunk>, mods: set<Module>)
    reads U, mods
  {
    && (forall c :: c in U ==> NoDup(c.modules) && Elems(c.modules) <= mods)
    && (forall m :: m in mods ==> NoDup(m.chunks) && Elems(m.chunks) <= U)
    && (forall c, m :: c in U && m in mods ==> (m in c.modules <==> c in m.chunks))
  }

  /** Every locale of a still has its bucket object in b. */
  ghost predicate Keeps(a: Dict<JSONConcatSource>, b: Dict<JSONConcatSource>) {
    forall l :: l in a.vals ==> l in b.vals && b.vals[l] == a.vals[l]
  }

  /** Different locales hold different bucket objects. */
  ghost predicate Separate(d: Dict<JSONConcatSource>) {
    forall k1, k2 :: k1 in d.vals && k2 in d.vals && k1 != k2 ==> d.vals[k1] != d.vals[k2]
  }

  /** The locale buckets as values: each locale's children. */
  ghost function View(d: Dict<JSONConcatSource>): Dict<seq<Item>>
    reads d.vals.Values
  {
    Dict(d.keys, map l | l in d.vals :: d.vals[l].children)
  }

  /** `shared_key && json[shared_key]` is truthy. */
  predicate SharedTruthy(json: Dict<JsonValue>, sharedKey: Option<string>) {
    sharedKey.Some? && sharedKey.value != "" && sharedKey.value in json.vals && Truthy(json.vals[sharedKey.value])
  }

  /** `locale !== shared_key`. */
  predicate Eligible(locale: string, sharedKey: Option<string>) {
    sharedKey != Some(locale)
  }

  /** Creating the locale's bucket when missing, then appending item to it. */
  function AddTo(view: Dict<seq<Item>>, locale: string, item: Item): (v: Dict<seq<Item>>)
    ensures locale in v.vals && v.vals[locale] == (if locale in view.vals then view.vals[locale] else []) + [item]
    ensures forall l :: l != locale ==> (l in v.vals <==> l in view.vals)
    ensures forall l :: l != locale && l in view.vals ==> v.vals[l] == view.vals[l]
  {
    view.Put(locale, (if locale in view.vals then view.vals[locale] else []) + [item])
  }

  /** `locales[locale] = new JSONConcatSource()` for a locale without a bucket. */
  method NewBucket(locales: Dict<JSONConcatSource>, locale: string) returns (out: Dict<JSONConcatSource>)
    requires locales.Valid() && Separate(locales) && locale !in locales.vals
    ensures out.Valid() && Separate(out)
    ensures locale in out.vals && fresh(out.vals[locale])
    ensures out.vals == locales.vals[locale := out.vals[locale]]
    ensures View(out) == View(locales).Put(locale, [])
  {
    var bucket := new JSONConcatSource([]);
    out := locales.Put(locale, bucket);
  }

  /** `locales[locale].add(item)`: no other locale's bucket changes. */
  method AppendToBucket(locales: Dict<JSONConcatSource>, locale: string, item: Item)
    requires Separate(locales) && locale in locales.vals
    modifies locales.vals[locale]
    ensures View(locales) == old(View(locales)).Put(locale, old(View(locales)).vals[locale] + [item])
  {
    var bucket := locales.vals[locale];
    bucket.Add(item);
    assert forall l :: l in locales.vals && l != locale ==> locales.vals[l] != bucket;
  }

  /** Adding to a locale without a bucket: an empty bucket, then the item appended to it. */
  lemma AddToAbsent(view: Dict<seq<Item>>, locale: string, item: Item)
    requires locale !in view.vals
    ensures view.Put(locale, []).Put(locale, view.Put(locale, []).vals[locale] + [item]) == AddTo(view, locale, item)
  {
    assert [] + [item] == [item];
  }

  /**
   * `if (!locales[locale]) locales[locale] = new JSONConcatSource();` followed
   * by `locales[locale].add(item)`.
   */
  method AddToBucket(locales: Dict<JSONConcatSource>, locale: string, item: Item) returns (out: Dict<JSONConcatSource>)
    requires locales.Valid() && Separate(locales)
    modifies locales.vals.Values
    ensures out.Valid() && Separate(out)
    ensures forall l :: l in locales.vals ==> l in out.vals && out.vals[l] == locales.vals[l]
    ensures forall l :: l in out.vals && l !in locales.vals ==> fresh(out.vals[l])
    ensures View(out) == AddTo(old(View(locales)), locale, item)
  {
    ghost var before := View(locales);
    if locale !in locales.vals {
      out := NewBucket(locales, locale);
      ghost var created := View(out);
      AppendToBucket(out, locale, item);
      AddToAbsent(before, locale, item);
    } else {
      out := locales;
      AppendToBucket(out, locale, item);
    }
  }

  /** The item extractLocales appends for one locale of one module. */
  function LocaleItem(json: Dict<JsonValue>, locale: string, key: string, stringify: JsonValue -> string): Item
    requires locale in json.vals
  {
    SourceItem(NewJSONSource(json.vals[locale], key, stringify))
  }

  /** extractLocales on the buckets as values, from the i-th own property of json on. */
  function ExtractFrom(view: Dict<seq<Item>>, key: string, json: Dict<JsonValue>, sharedKey: Option<string>,
                       stringify: JsonValue -> string, i: nat): (Dict<seq<Item>>, Outcome<Error>)
    requires json.Valid() && i <= |json.keys|
    decreases |json.keys| - i
  {
    if i == |json.keys| then (view, Pass)
    else
      var locale := json.keys[i];
      assert locale in json.vals;
      if !Eligible(locale, sharedKey) then ExtractFrom(view, key, json, sharedKey, stringify, i + 1)
      else
        var v := AddTo(view, locale, LocaleItem(json, locale, key, stringify));
        if SharedTruthy(json, sharedKey) then (v, Fail(NotAFunction("addDefault")))
        else ExtractFrom(v, key, json, sharedKey, stringify, i + 1)
  }

  /** A property that is the shared key is skipped. */
  lemma ExtractFromSkip(view: Dict<seq<Item>>, key: string, json: Dict<JsonValue>, sharedKey: Option<string>,
                        stringify: JsonValue -> string, i: nat)
    requires json.Valid() && i < |json.keys| && !Eligible(json.keys[i], sharedKey)
    ensures ExtractFrom(view, key, json, sharedKey, stringify, i) == ExtractFrom(view, key, json, sharedKey, stringify, i + 1)
  {
  }

  /** With truthy shared data, the first eligible property is added and then addDefault throws. */
  lemma ExtractFromThrow(view: Dict<seq<Item>>, key: string, json: Dict<JsonValue>, sharedKey: Option<string>,
                         stringify: JsonValue -> string, i: nat)
    requires json.Valid() && i < |json.keys| && Eligible(json.keys[i], sharedKey) && SharedTruthy(json, sharedKey)
    ensures json.keys[i] in json.vals
    ensures ExtractFrom(view, key, json, sharedKey, stringify, i) ==
              (AddTo(view, json.keys[i], LocaleItem(json, json.keys[i], key, stringify)), Fail(NotAFunction("addDefault")))
  {
    assert json.keys[i] in Elems(json.keys);
  }

  /** Otherwise an eligible property is added and the loop goes on. */
  lemma ExtractFromNext(view: Dict<seq<Item>>, key: string, json: Dict<JsonValue>, sharedKey: Option<string>,
                        stringify: JsonValue -> string, i: nat)
    requires json.Valid() && i < |json.keys| && Eligible(json.keys[i], sharedKey) && !SharedTruthy(json, sharedKey)
    ensures json.keys[i] in json.vals
    ensures ExtractFrom(view, key, json, sharedKey, stringify, i) ==
              ExtractFrom(AddTo(view, json.keys[i], LocaleItem(json, json.keys[i], key, stringify)), key, json, sharedKey, stringify, i + 1)
  {
    assert json.keys[i] in Elems(json.keys);
  }

  /** extractLocales on the buckets as values. */
  function Extract(view: Dict<seq<Item>>, key: string, json: Dict<JsonValue>, sharedKey: Option<string>,
                   stringify: JsonValue -> string): (Dict<seq<Item>>, Outcome<Error>)
    requires json.Valid()
  {
    ExtractFrom(view, key, json, sharedKey, stringify, 0)
  }

  /**
   * After the first i properties, the run of extractLocales from start is
   * at v: still going when r is Pass, finished with v and r otherwise.
   */
  predicate OnTrack(start: Dict<seq<Item>>, key: string, json: Dict<JsonValue>, sharedKey: Option<string>,
                    stringify: JsonValue -> string, v: Dict<seq<Item>>, r: Outcome<Error>, i: nat)
    requires json.Valid() && i <= |json.keys|
  {
    if r.Pass? then Extract(start, key, json, sharedKey, stringify) == ExtractFrom(v, key, json, sharedKey, stringify, i)
    else Extract(start, key, json, sharedKey, stringify) == (v, r)
  }

  /**
   * extractLocales throws exactly when the shared data is truthy and some
   * remaining property is a locale other than the shared key, and then with
   * the TypeError of `addDefault`.
   */
  lemma {:induction false} ExtractFromFails(view: Dict<seq<Item>>, key: string, json: Dict<JsonValue>,
                                            sharedKey: Option<string>, stringify: JsonValue -> string, i: nat)
    requires json.Valid() && i <= |json.keys|
    ensures ExtractFrom(view, key, json, sharedKey, stringify, i).1.Fail? <==>
              SharedTruthy(json, sharedKey) && exists j :: i <= j < |json.keys| && Eligible(json.keys[j], sharedKey)
    ensures ExtractFrom(view, key, json, sharedKey, stringify, i).1.Fail? ==>
              ExtractFrom(view, key, json, sharedKey, stringify, i).1.error == NotAFunction("addDefault")
    decreases |json.keys| - i
  {
    if i < |json.keys| {
      var locale := json.keys[i];
      if Eligible(locale, sharedKey) {
        if SharedTruthy(json, sharedKey) {
          ExtractFromThrow(view, key, json, sharedKey, stringify, i);
        } else {
          ExtractFromNext(view, key, json, sharedKey, stringify, i);
          ExtractFromFails(AddTo(view, locale, LocaleItem(json, locale, key, stringify)), key, json, sharedKey, stringify, i + 1);
        }
      } else {
        ExtractFromSkip(view, key, json, sharedKey, stringify, i);
        ExtractFromFails(view, key, json, sharedKey, stringify, i + 1);
      }
    }
  }

  /**
   * The bucket of a locale that is the shared key, or that is not among the
   * remaining properties, is left as it was: not created, not extended.
   */
  lemma {:induction false} ExtractFromUntouched(view: Dict<seq<Item>>, key: string, json: Dict<JsonValue>,
                                                sharedKey: Option<string>, stringify: JsonValue -> string, i: nat, l: string)
    requires json.Valid() && i <= |json.keys|
    requires !Eligible(l, sharedKey) || l !in json.keys[i..]
    ensures l in ExtractFrom(view, key, json, sharedKey, stringify, i).0.vals <==> l in view.vals
    ensures l in view.vals ==> ExtractFrom(view, key, json, sharedKey, stringify, i).0.vals[l] == view.vals[l]
    decreases |json.keys| - i
  {
    if i < |json.keys| {
      var locale := json.keys[i];
      assert json.keys[i..] == [locale] + json.keys[i + 1..];
      assert !Eligible(l, sharedKey) || l !in json.keys[i + 1..];
      if !Eligible(locale, sharedKey) {
        ExtractFromSkip(view, key, json, sharedKey, stringify, i);
        ExtractFromUntouched(view, key, json, sharedKey, stringify, i + 1, l);
      } else {
        assert l != locale;
        var v := AddTo(view, locale, LocaleItem(json, locale, key, stringify));
        if SharedTruthy(json, sharedKey) {
          ExtractFromThrow(view, key, json, sharedKey, stringify, i);
        } else {
          ExtractFromNext(view, key, json, sharedKey, stringify, i);
          ExtractFromUntouched(v, key, json, sharedKey, stringify, i + 1, l);
        }
      }
    }
  }

  /**
   * When extractLocales completes, every remaining property that is a
   * locale other than the shared key has a bucket holding what it held
   * before (nothing, if it was missing) plus exactly one new JSONSource: that
   * locale's value under the module's key.
   */
  lemma {:induction false} ExtractFromAppendsOne(view: Dict<seq<Item>>, key: string, json: Dict<JsonValue>,
                                                 sharedKey: Option<string>, stringify: JsonValue -> string, i: nat, l: string)
    requires json.Valid() && i <= |json.keys|
    requires ExtractFrom(view, key, json, sharedKey, stringify, i).1.Pass?
    requires Eligible(l, sharedKey) && l in json.keys[i..]
    ensures l in json.vals && l in ExtractFrom(view, key, json, sharedKey, stringify, i).0.vals
    ensures ExtractFrom(view, key, json, sharedKey, stringify, i).0.vals[l] ==
              (if l in view.vals then view.vals[l] else []) + [LocaleItem(json, l, key, stringify)]
    decreases |json.keys| - i
  {
    var locale := json.keys[i];
    assert json.keys[i..] == [locale] + json.keys[i + 1..];
    if !Eligible(locale, sharedKey) {
      ExtractFromSkip(view, key, json, sharedKey, stringify, i);
      ExtractFromAppendsOne(view, key, json, sharedKey, stringify, i + 1, l);
    } else if SharedTruthy(json, sharedKey) {
      ExtractFromThrow(view, key, json, sharedKey, stringify, i);
      assert false;
    } else {
      ExtractFromNext(view, key, json, sharedKey, stringify, i);
      if l == locale {
        AppendsOneHere(view, key, json, sharedKey, stringify, i);
      } else {
        var v := AddTo(view, locale, LocaleItem(json, locale, key, stringify));
        ExtractFromAppendsOne(v, key, json, sharedKey, stringify, i + 1, l);
      }
    }
  }

  /** The i-th property, a locale extracted without throwing, gets its one item, and no later property touches it. */
  lemma AppendsOneHere(view: Dict<seq<Item>>, key: string, json: Dict<JsonValue>,
                       sharedKey: Option<string>, stringify: JsonValue -> string, i: nat)
    requires json.Valid() && i < |json.keys| && Eligible(json.keys[i], sharedKey) && !SharedTruthy(json, sharedKey)
    ensures json.keys[i] in json.vals && json.keys[i] in ExtractFrom(view, key, json, sharedKey, stringify, i).0.vals
    ensures ExtractFrom(view, key, json, sharedKey, stringify, i).0.vals[json.keys[i]] ==
              (if json.keys[i] in view.vals then view.vals[json.keys[i]] else []) + [LocaleItem(json, json.keys[i], key, stringify)]
  {
    var l := json.keys[i];
    ExtractFromNext(view, key, json, sharedKey, stringify, i);
    var v := AddTo(view, l, LocaleItem(json, l, key, stringify));
    assert l !in json.keys[i + 1..] by {
      forall j | i + 1 <= j < |json.keys| ensures json.keys[j] != l {
        assert json.keys[i] != json.keys[j];
      }
    }
    ExtractFromUntouched(v, key, json, sharedKey, stringify, i + 1, l);
  }
}
