/**
 * The registry of i18n modules (lib/i18nDictionary.js): one Module per
 * identifier, whichever chunk copies it is found in, and the emission of one
 * asset per (chunk, locale) once the chunk graph has been consolidated.
 */
module I18nDictionary {
  import opened Wrappers
  import opened Seqs
  import opened JsValues
  import opened JSONConcatSources
  import opened Host
  import opened I18nModule

  /** The module-by-module fold extractLocales performs for one chunk, on bucket values. */
  function FoldExtract(view: Dict<seq<Item>>, ms: seq<Module>, sharedKey: Option<string>,
                       stringify: JsonValue -> string): (Dict<seq<Item>>, Outcome<Error>)
    requires forall m :: m in ms ==> m.json.Valid()
    decreases |ms|
  {
    if |ms| == 0 then (view, Pass)
    else
      var step := Extract(view, ms[0].key, ms[0].json, sharedKey, stringify);
      if step.1.Fail? then step else FoldExtract(step.0, ms[1..], sharedKey, stringify)
  }

  /** extractLocales on m throws: the shared data is truthy and m has a locale besides the shared key. */
  predicate Throws(m: Module, sharedKey: Option<string>)
  {
    SharedTruthy(m.json, sharedKey) && exists j :: 0 <= j < |m.json.keys| && Eligible(m.json.keys[j], sharedKey)
  }

  /** The fold fails exactly when one of the modules throws. */
  lemma {:induction false} FoldExtractFails(view: Dict<seq<Item>>, ms: seq<Module>, sharedKey: Option<string>,
                                            stringify: JsonValue -> string)
    requires forall m :: m in ms ==> m.json.Valid()
    ensures FoldExtract(view, ms, sharedKey, stringify).1.Fail? <==>
              exists k :: 0 <= k < |ms| && Throws(ms[k], sharedKey)
    decreases |ms|
  {
    if |ms| > 0 {
      var step := Extract(view, ms[0].key, ms[0].json, sharedKey, stringify);
      ExtractFromFails(view, ms[0].key, ms[0].json, sharedKey, stringify, 0);
      if step.1.Pass? {
        FoldExtractFails(step.0, ms[1..], sharedKey, stringify);
        assert forall k :: 1 <= k < |ms| ==> ms[k] == ms[1..][k - 1];
      }
    }
  }

  /**
   * What the modules of ms contribute to the bucket of locale l, in order:
   * one JSONSource per module whose JSON has l, l not being the shared key.
   */
  function Contributions(ms: seq<Module>, l: string, sharedKey: Option<string>, stringify: JsonValue -> string): seq<Item>
    decreases |ms|
  {
    if |ms| == 0 then []
    else
      Contribution(ms[0], l, sharedKey, stringify) + Contributions(ms[1..], l, sharedKey, stringify)
  }

  /** What one module contributes to the bucket of locale l. */
  function Contribution(m: Module, l: string, sharedKey: Option<string>, stringify: JsonValue -> string): seq<Item>
  {
    if l in m.json.vals && Eligible(l, sharedKey) then [LocaleItem(m.json, l, m.key, stringify)] else []
  }

  /** extractLocales of one module, when it does not throw, on the bucket of one locale. */
  lemma ExtractBucket(view: Dict<seq<Item>>, m: Module, sharedKey: Option<string>, stringify: JsonValue -> string, l: string)
    requires m.json.Valid() && Extract(view, m.key, m.json, sharedKey, stringify).1.Pass?
    ensures l in Extract(view, m.key, m.json, sharedKey, stringify).0.vals <==>
              l in view.vals || |Contribution(m, l, sharedKey, stringify)| > 0
    ensures l in Extract(view, m.key, m.json, sharedKey, stringify).0.vals ==>
              Extract(view, m.key, m.json, sharedKey, stringify).0.vals[l] ==
                (if l in view.vals then view.vals[l] else []) + Contribution(m, l, sharedKey, stringify)
  {
    assert m.json.keys[0..] == m.json.keys;
    assert l in m.json.keys <==> l in m.json.vals;
    if l in m.json.vals && Eligible(l, sharedKey) {
      ExtractFromAppendsOne(view, m.key, m.json, sharedKey, stringify, 0, l);
    } else {
      ExtractFromUntouched(view, m.key, m.json, sharedKey, stringify, 0, l);
    }
  }

  /**
   * When no module throws, the bucket of each locale ends up holding what it
   * held plus exactly the contributions of the modules, in module order; a
   * bucket exists afterwards exactly when it existed before or some module
   * contributes to it.
   */
  lemma {:induction false} FoldExtractBucket(view: Dict<seq<Item>>, ms: seq<Module>, sharedKey: Option<string>,
                                             stringify: JsonValue -> string, l: string)
    requires forall m :: m in ms ==> m.json.Valid()
    requires FoldExtract(view, ms, sharedKey, stringify).1.Pass?
    ensures l in FoldExtract(view, ms, sharedKey, stringify).0.vals <==>
              l in view.vals || |Contributions(ms, l, sharedKey, stringify)| > 0
    ensures l in FoldExtract(view, ms, sharedKey, stringify).0.vals ==>
              FoldExtract(view, ms, sharedKey, stringify).0.vals[l] ==
                (if l in view.vals then view.vals[l] else []) + Contributions(ms, l, sharedKey, stringify)
    decreases |ms|
  {
    if |ms| > 0 {
      var step := Extract(view, ms[0].key, ms[0].json, sharedKey, stringify);
      assert step.1.Pass? && FoldExtract(view, ms, sharedKey, stringify) == FoldExtract(step.0, ms[1..], sharedKey, stringify);
      assert Contributions(ms, l, sharedKey, stringify)
          == Contribution(ms[0], l, sharedKey, stringify) + Contributions(ms[1..], l, sharedKey, stringify);
      ExtractBucket(view, ms[0], sharedKey, stringify, l);
      FoldExtractBucket(step.0, ms[1..], sharedKey, stringify, l);
      BucketThen(view, step.0, FoldExtract(view, ms, sharedKey, stringify).0, l,
                 Contribution(ms[0], l, sharedKey, stringify), Contributions(ms[1..], l, sharedKey, stringify));
    }
  }

  /** The bucket of l in view: empty when there is none. */
  function Prior(view: Dict<seq<Item>>, l: string): seq<Item>
  {
    if l in view.vals then view.vals[l] else []
  }

  /** Extending the bucket of l by head and then by rest extends it by head + rest. */
  lemma BucketThen(v0: Dict<seq<Item>>, v1: Dict<seq<Item>>, v2: Dict<seq<Item>>, l: string,
                   head: seq<Item>, rest: seq<Item>)
    requires l in v1.vals <==> l in v0.vals || |head| > 0
    requires l in v1.vals ==> v1.vals[l] == Prior(v0, l) + head
    requires l in v2.vals <==> l in v1.vals || |rest| > 0
    requires l in v2.vals ==> v2.vals[l] == Prior(v1, l) + rest
    ensures l in v2.vals <==> l in v0.vals || |head + rest| > 0
    ensures l in v2.vals ==> v2.vals[l] == Prior(v0, l) + (head + rest)
  {
    assert (Prior(v0, l) + head) + rest == Prior(v0, l) + (head + rest);
  }

  /** The asset name of one locale of one chunk: the chunk's path with its first `[locale]` replaced. */
  function FileName(getPath: (string, HostChunk) -> string, pattern: string, original: HostChunk, locale: string): string
  {
    ReplaceFirst(getPath(pattern, original), "[locale]", locale)
  }

  /** The asset names of the given locales of one chunk, in order. */
  function FileNames(getPath: (string, HostChunk) -> string, pattern: string, original: HostChunk,
                     locales: seq<string>): (names: seq<string>)
    ensures |names| == |locales|
    ensures forall i :: 0 <= i < |locales| ==> names[i] == FileName(getPath, pattern, original, locales[i])
  {
    seq(|locales|, i requires 0 <= i < |locales| => FileName(getPath, pattern, original, locales[i]))
  }

  /**
   * When the chunk's path has a `[locale]`, different locales get different
   * asset names.
   */
  lemma FileNameInjective(getPath: (string, HostChunk) -> string, pattern: string, original: HostChunk, l1: string, l2: string)
    requires FindFirst(getPath(pattern, original), "[locale]").Some?
    requires FileName(getPath, pattern, original, l1) == FileName(getPath, pattern, original, l2)
    ensures l1 == l2
  {
    var p := getPath(pattern, original);
    var i := FindFirst(p, "[locale]").value;
    var a := p[..i] + l1 + p[i + 8..];
    var b := p[..i] + l2 + p[i + 8..];
    assert |l1| == |l2| by {
      assert |a| == |b|;
    }
    assert l1 == a[i..i + |l1|];
    assert l2 == b[i..i + |l2|];
  }

  /**
   * When the chunk's path has no `[locale]`, every locale gets the same asset
   * name, the path itself, so each locale's asset replaces the previous one.
   */
  lemma FileNameWithoutPlaceholder(getPath: (string, HostChunk) -> string, pattern: string, original: HostChunk, l: string)
    requires FindFirst(getPath(pattern, original), "[locale]").None?
    ensures FileName(getPath, pattern, original, l) == getPath(pattern, original)
  {
  }

  /** `d[names[i]] = vals[i]` for each i in order. */
  function PutAll<V>(d: Dict<V>, names: seq<string>, vals: seq<V>): Dict<V>
    requires |names| == |vals|
    decreases |names|
  {
    if |names| == 0 then d
    else PutAll(d, names[..|names| - 1], vals[..|vals| - 1]).Put(names[|names| - 1], vals[|vals| - 1])
  }

  /** One more assignment after the first i. */
  lemma PutAllNext<V>(d: Dict<V>, names: seq<string>, vals: seq<V>, i: nat)
    requires i < |names| == |vals|
    ensures PutAll(d, names[..i + 1], vals[..i + 1]) == PutAll(d, names[..i], vals[..i]).Put(names[i], vals[i])
  {
    assert names[..i + 1][..i] == names[..i] && vals[..i + 1][..i] == vals[..i];
  }

  /**
   * After a sequence of assignments, a name holds the value of its last
   * assignment, and a name never assigned keeps its old value.
   */
  lemma {:induction false} PutAllLastWins<V>(d: Dict<V>, names: seq<string>, vals: seq<V>, i: nat)
    requires |names| == |vals| && i < |names|
    requires forall j :: i < j < |names| ==> names[j] != names[i]
    ensures names[i] in PutAll(d, names, vals).vals && PutAll(d, names, vals).vals[names[i]] == vals[i]
    decreases |names|
  {
    var n := |names| - 1;
    var prev := PutAll(d, names[..n], vals[..n]);
    assert PutAll(d, names, vals).vals == prev.vals[names[n] := vals[n]];
    if i < n {
      assert names[n] != names[i];
      assert names[..n][i] == names[i] && vals[..n][i] == vals[i];
      assert forall j :: i < j < n ==> names[..n][j] == names[j];
      PutAllLastWins(d, names[..n], vals[..n], i);
    }
  }

  /** A name never assigned keeps its old value. */
  lemma {:induction false} PutAllElsewhere<V>(d: Dict<V>, names: seq<string>, vals: seq<V>, k: string)
    requires |names| == |vals| && k !in names
    ensures (k in PutAll(d, names, vals).vals <==> k in d.vals)
    ensures k in d.vals ==> PutAll(d, names, vals).vals[k] == d.vals[k]
    decreases |names|
  {
    if |names| > 0 {
      var n := |names| - 1;
      PutAllElsewhere(d, names[..n], vals[..n], k);
    }
  }

  /** The values of an object, in key order (`_.each` order). */
  function InOrder<V>(d: Dict<V>): (vs: seq<V>)
    requires d.Valid()
    ensures |vs| == |d.keys|
  {
    seq(|d.keys|, i requires 0 <= i < |d.keys| && d.Valid() => d.vals[d.keys[i]])
  }

  /** The children of each bucket, in order. */
  ghost function ChildrenOf(bs: seq<JSONConcatSource>): (cs: seq<seq<Item>>)
    reads set b | b in bs
    ensures |cs| == |bs|
  {
    seq(|bs|, i requires 0 <= i < |bs| reads set b | b in bs => bs[i].children)
  }

  /** Assignments in two batches are the assignments of both, in order. */
  lemma {:induction false} PutAllAppend<V>(d: Dict<V>, a: seq<string>, x: seq<V>, b: seq<string>, y: seq<V>)
    requires |a| == |x| && |b| == |y|
    ensures PutAll(d, a + b, x + y) == PutAll(PutAll(d, a, x), b, y)
    decreases |b|
  {
    if |b| == 0 {
      assert a + b == a && x + y == x;
    } else {
      var n := |b| - 1;
      assert (a + b)[..|a + b| - 1] == a + b[..n];
      assert (x + y)[..|x + y| - 1] == x + y[..n];
      PutAllAppend(d, a, x, b[..n], y[..n]);
    }
  }

  /** Viewing assets after assigning buckets is assigning the buckets' children to the view. */
  lemma {:induction false} ViewPutAll(d: Dict<JSONConcatSource>, names: seq<string>, bs: seq<JSONConcatSource>)
    requires |names| == |bs|
    ensures View(PutAll(d, names, bs)) == PutAll(View(d), names, ChildrenOf(bs))
    decreases |names|
  {
    if |names| > 0 {
      var n := |names| - 1;
      ViewPutAll(d, names[..n], bs[..n]);
      assert ChildrenOf(bs)[..n] == ChildrenOf(bs[..n]);
    }
  }

  /** The children of a locale object's buckets, in key order, are its view's contents. */
  lemma ViewInOrder(locales: Dict<JSONConcatSource>)
    requires locales.Valid()
    ensures ChildrenOf(InOrder(locales)) == Contents(View(locales))
  {
  }

  /** A non-throwing extractLocales keeps the locale object well formed. */
  lemma {:induction false} ExtractFromValid(view: Dict<seq<Item>>, key: string, json: Dict<JsonValue>,
                                            sharedKey: Option<string>, stringify: JsonValue -> string, i: nat)
    requires json.Valid() && i <= |json.keys| && view.Valid()
    ensures ExtractFrom(view, key, json, sharedKey, stringify, i).0.Valid()
    decreases |json.keys| - i
  {
    if i < |json.keys| {
      var locale := json.keys[i];
      if Eligible(locale, sharedKey) {
        var v := AddTo(view, locale, LocaleItem(json, locale, key, stringify));
        assert v.Valid();
        if SharedTruthy(json, sharedKey) {
          ExtractFromThrow(view, key, json, sharedKey, stringify, i);
        } else {
          ExtractFromNext(view, key, json, sharedKey, stringify, i);
          ExtractFromValid(v, key, json, sharedKey, stringify, i + 1);
        }
      } else {
        ExtractFromSkip(view, key, json, sharedKey, stringify, i);
        ExtractFromValid(view, key, json, sharedKey, stringify, i + 1);
      }
    }
  }

  /** The fold keeps the locale object well formed. */
  lemma {:induction false} FoldExtractValid(view: Dict<seq<Item>>, ms: seq<Module>, sharedKey: Option<string>,
                                            stringify: JsonValue -> string)
    requires forall m :: m in ms ==> m.json.Valid()
    requires view.Valid()
    ensures FoldExtract(view, ms, sharedKey, stringify).0.Valid()
    decreases |ms|
  {
    if |ms| > 0 {
      ExtractFromValid(view, ms[0].key, ms[0].json, sharedKey, stringify, 0);
      var step := Extract(view, ms[0].key, ms[0].json, sharedKey, stringify);
      if step.1.Pass? {
        FoldExtractValid(step.0, ms[1..], sharedKey, stringify);
      }
    }
  }

  /** The original chunks of the chunk copies cs. */
  ghost function OriginalsOf(cs: seq<Chunk>): set<HostChunk> {
    set c | c in cs :: c.originalChunk
  }

  /** A chunk copy as buildAndAddAssets reads it: its original chunk and its modules. */
  datatype ChunkView = ChunkView(original: HostChunk, modules: seq<Module>)

  /** The chunk copies cs as buildAndAddAssets reads them, in order. */
  ghost function Snapshot(cs: seq<Chunk>): (vs: seq<ChunkView>)
    reads set c | c in cs
    ensures |vs| == |cs|
    ensures forall k :: 0 <= k < |cs| ==> vs[k] == ChunkView(cs[k].originalChunk, cs[k].modules)
  {
    seq(|cs|, k requires 0 <= k < |cs| reads set c | c in cs => ChunkView(cs[k].originalChunk, cs[k].modules))
  }

  /** Every module of every chunk holds a parsed JSON object. */
  ghost predicate Parsed(vs: seq<ChunkView>) {
    forall v, m :: v in vs && m in v.modules ==> m.json.Valid()
  }

  /** The contents of each bucket of a locale object as values, in key order. */
  function Contents(v: Dict<seq<Item>>): (items: seq<seq<Item>>)
    ensures |items| == |v.keys|
  {
    seq(|v.keys|, i requires 0 <= i < |v.keys| => if v.keys[i] in v.vals then v.vals[v.keys[i]] else [])
  }

  /**
   * The asset assignments of a run of buildAndAddAssets, in order: each
   * file name, the original chunk whose files it is pushed onto, and the
   * bucket contents assigned to it; and how the run ended.
   */
  datatype Emitted = Emitted(names: seq<string>, owners: seq<HostChunk>, items: seq<seq<Item>>, outcome: Outcome<Error>)

  /** `n` copies of o. */
  function Repeat(o: HostChunk, n: nat): (os: seq<HostChunk>)
    ensures |os| == n && forall i :: 0 <= i < n ==> os[i] == o
  {
    seq(n, i => o)
  }

  /** The names whose owner is o, in order: what is pushed onto o's files. */
  function NamesOf(names: seq<string>, owners: seq<HostChunk>, o: HostChunk): seq<string>
    requires |names| == |owners|
    decreases |names|
  {
    if |names| == 0 then []
    else
      var n := |names| - 1;
      NamesOf(names[..n], owners[..n], o) + (if owners[n] == o then [names[n]] else [])
  }

  /** Names added by owner x all go to x's files, in order. */
  lemma {:induction false} NamesOfAppendOwn(names: seq<string>, owners: seq<HostChunk>, more: seq<string>, x: HostChunk)
    requires |names| == |owners|
    ensures NamesOf(names + more, owners + Repeat(x, |more|), x) == NamesOf(names, owners, x) + more
    decreases |more|
  {
    if |more| == 0 {
      assert names + more == names && owners + Repeat(x, |more|) == owners;
    } else {
      var n := |more| - 1;
      NamesOfAppendOwn(names, owners, more[..n], x);
      assert (names + more)[..|names| + n] == names + more[..n];
      assert (owners + Repeat(x, |more|))[..|names| + n] == owners + Repeat(x, n);
      assert more[..n] + [more[n]] == more;
    }
  }

  /** Names added by owner x go to no other original chunk's files. */
  lemma {:induction false} NamesOfAppendOther(names: seq<string>, owners: seq<HostChunk>, more: seq<string>, x: HostChunk, o: HostChunk)
    requires |names| == |owners| && o != x
    ensures NamesOf(names + more, owners + Repeat(x, |more|), o) == NamesOf(names, owners, o)
    decreases |more|
  {
    if |more| == 0 {
      assert names + more == names && owners + Repeat(x, |more|) == owners;
    } else {
      var n := |more| - 1;
      NamesOfAppendOther(names, owners, more[..n], x, o);
      assert (names + more)[..|names| + n] == names + more[..n];
      assert (owners + Repeat(x, |more|))[..|names| + n] == owners + Repeat(x, n);
    }
  }

  /**
   * The assets buildAndAddAssets assigns when it visits the chunks vs in
   * order: for each chunk, one (file name, bucket contents) per locale, until
   * the first chunk whose extraction throws, which assigns nothing and ends
   * the run with its error.
   */
  ghost function Emission(vs: seq<ChunkView>, getPath: (string, HostChunk) -> string, pattern: string,
                          sharedKey: Option<string>, stringify: JsonValue -> string): (e: Emitted)
    requires Parsed(vs)
    ensures |e.names| == |e.owners| == |e.items|
    decreases |vs|
  {
    if |vs| == 0 then Emitted([], [], [], Pass)
    else
      var n := |vs| - 1;
      var prev := Emission(vs[..n], getPath, pattern, sharedKey, stringify);
      if prev.outcome.Fail? then prev
      else
        var (v, r) := FoldExtract(EmptyDict(), vs[n].modules, sharedKey, stringify);
        if r.Fail? then Emitted(prev.names, prev.owners, prev.items, r)
        else
          Emitted(prev.names + FileNames(getPath, pattern, vs[n].original, v.keys),
                  prev.owners + Repeat(vs[n].original, |v.keys|),
                  prev.items + Contents(v), Pass)
  }

  /** Each original chunk o in os holds its files at the start, then the names of the run owned by o. */
  ghost predicate FilesAre(os: set<HostChunk>, files0: map<HostChunk, seq<string>>, e: Emitted)
    requires |e.names| == |e.owners|
    reads os
  {
    forall o :: o in os ==> o in files0 && o.files == files0[o] + NamesOf(e.names, e.owners, o)
  }

  /**
   * Pushing `names` onto the files of x, and changing no other files, moves
   * the files of original chunk o one run step on.
   */
  lemma FilesStep(o: HostChunk, start: seq<string>, prevNames: seq<string>, prevOwners: seq<HostChunk>, x: HostChunk,
                  names: seq<string>, before: seq<string>, after: seq<string>)
    requires |prevNames| == |prevOwners|
    requires before == start + NamesOf(prevNames, prevOwners, o)
    requires o == x ==> after == before + names
    requires o != x ==> after == before
    ensures after == start + NamesOf(prevNames + names, prevOwners + Repeat(x, |names|), o)
  {
    if o == x {
      NamesOfAppendOwn(prevNames, prevOwners, names, x);
      var earlier := NamesOf(prevNames, prevOwners, o);
      assert (start + earlier) + names == start + (earlier + names);
    } else {
      NamesOfAppendOther(prevNames, prevOwners, names, x, o);
    }
  }

  /** One more chunk whose extraction throws: the run ends with its error and assigns nothing more. */
  lemma EmissionStepFail(vs: seq<ChunkView>, k: nat, getPath: (string, HostChunk) -> string, pattern: string,
                         sharedKey: Option<string>, stringify: JsonValue -> string)
    requires Parsed(vs) && k < |vs|
    requires Emission(vs[..k], getPath, pattern, sharedKey, stringify).outcome.Pass?
    requires FoldExtract(EmptyDict(), vs[k].modules, sharedKey, stringify).1.Fail?
    ensures Emission(vs[..k + 1], getPath, pattern, sharedKey, stringify) ==
              Emission(vs[..k], getPath, pattern, sharedKey, stringify).(outcome := FoldExtract(EmptyDict(), vs[k].modules, sharedKey, stringify).1)
  {
    assert vs[..k + 1][..k] == vs[..k];
  }

  /** One more chunk whose extraction succeeds: one assignment per locale, owned by its original chunk. */
  lemma EmissionStepPass(vs: seq<ChunkView>, k: nat, getPath: (string, HostChunk) -> string, pattern: string,
                         sharedKey: Option<string>, stringify: JsonValue -> string)
    requires Parsed(vs) && k < |vs|
    requires Emission(vs[..k], getPath, pattern, sharedKey, stringify).outcome.Pass?
    requires FoldExtract(EmptyDict(), vs[k].modules, sharedKey, stringify).1.Pass?
    ensures Emission(vs[..k + 1], getPath, pattern, sharedKey, stringify) ==
              Emitted(Emission(vs[..k], getPath, pattern, sharedKey, stringify).names +
                        FileNames(getPath, pattern, vs[k].original, FoldExtract(EmptyDict(), vs[k].modules, sharedKey, stringify).0.keys),
                      Emission(vs[..k], getPath, pattern, sharedKey, stringify).owners +
                        Repeat(vs[k].original, |FoldExtract(EmptyDict(), vs[k].modules, sharedKey, stringify).0.keys|),
                      Emission(vs[..k], getPath, pattern, sharedKey, stringify).items +
                        Contents(FoldExtract(EmptyDict(), vs[k].modules, sharedKey, stringify).0),
                      Pass)
  {
    assert vs[..k + 1][..k] == vs[..k];
  }

  /** Once the run has thrown, later chunks change nothing. */
  lemma {:induction false} EmissionFailPersists(vs: seq<ChunkView>, k: nat, getPath: (string, HostChunk) -> string,
                                                pattern: string, sharedKey: Option<string>, stringify: JsonValue -> string)
    requires Parsed(vs) && k <= |vs|
    requires Emission(vs[..k], getPath, pattern, sharedKey, stringify).outcome.Fail?
    ensures Emission(vs, getPath, pattern, sharedKey, stringify) == Emission(vs[..k], getPath, pattern, sharedKey, stringify)
    decreases |vs| - k
  {
    if k < |vs| {
      assert vs[..k + 1][..k] == vs[..k];
      EmissionFailPersists(vs, k + 1, getPath, pattern, sharedKey, stringify);
    } else {
      assert vs[..k] == vs;
    }
  }

  /**
   * The buckets of one chunk, when no module throws: one per locale that
   * some module contributes to, holding exactly those contributions in
   * module order.
   */
  lemma ChunkBuckets(ms: seq<Module>, sharedKey: Option<string>, stringify: JsonValue -> string)
    requires forall m :: m in ms ==> m.json.Valid()
    requires FoldExtract(EmptyDict(), ms, sharedKey, stringify).1.Pass?
    ensures FoldExtract(EmptyDict(), ms, sharedKey, stringify).0.Valid()
    ensures forall j :: 0 <= j < |FoldExtract(EmptyDict(), ms, sharedKey, stringify).0.keys| ==>
              var l := FoldExtract(EmptyDict(), ms, sharedKey, stringify).0.keys[j];
              && Contents(FoldExtract(EmptyDict(), ms, sharedKey, stringify).0)[j] == Contributions(ms, l, sharedKey, stringify)
              && Contributions(ms, l, sharedKey, stringify) != []
    ensures forall l :: Contributions(ms, l, sharedKey, stringify) != [] ==>
              l in FoldExtract(EmptyDict(), ms, sharedKey, stringify).0.keys
  {
    var v := FoldExtract(EmptyDict(), ms, sharedKey, stringify).0;
    FoldExtractValid(EmptyDict(), ms, sharedKey, stringify);
    forall l ensures (l in v.vals <==> Contributions(ms, l, sharedKey, stringify) != [])
                     && (l in v.vals ==> v.vals[l] == Contributions(ms, l, sharedKey, stringify)) {
      FoldExtractBucket(EmptyDict(), ms, sharedKey, stringify, l);
      assert [] + Contributions(ms, l, sharedKey, stringify) == Contributions(ms, l, sharedKey, stringify);
    }
    forall j | 0 <= j < |v.keys|
      ensures Contents(v)[j] == Contributions(ms, v.keys[j], sharedKey, stringify)
      ensures Contributions(ms, v.keys[j], sharedKey, stringify) != []
    {
      assert v.keys[j] in Elems(v.keys);
    }
    forall l | Contributions(ms, l, sharedKey, stringify) != [] ensures l in v.keys {
      assert l in Elems(v.keys);
    }
  }

  /**
   * The run throws exactly when some module of some chunk throws (its
   * shared data is truthy and it has a locale besides the shared key).
   */
  lemma {:induction false} EmissionFails(vs: seq<ChunkView>, getPath: (string, HostChunk) -> string, pattern: string,
                                         sharedKey: Option<string>, stringify: JsonValue -> string)
    requires Parsed(vs)
    ensures Emission(vs, getPath, pattern, sharedKey, stringify).outcome.Fail? <==>
              exists k, j :: 0 <= k < |vs| && 0 <= j < |vs[k].modules| && Throws(vs[k].modules[j], sharedKey)
    decreases |vs|
  {
    if |vs| > 0 {
      var n := |vs| - 1;
      EmissionFails(vs[..n], getPath, pattern, sharedKey, stringify);
      assert vs[n] in vs;
      FoldExtractFails(EmptyDict(), vs[n].modules, sharedKey, stringify);
      EmissionFailsStep(vs, getPath, pattern, sharedKey, stringify);
      ThrowsSplit(vs, vs[..n], vs[n].modules, sharedKey);
    }
  }

  /** The run over vs throws when the run over all but the last chunk does, or the last chunk's extraction does. */
  lemma EmissionFailsStep(vs: seq<ChunkView>, getPath: (string, HostChunk) -> string, pattern: string,
                          sharedKey: Option<string>, stringify: JsonValue -> string)
    requires Parsed(vs) && |vs| > 0
    ensures Parsed(vs[..|vs| - 1]) && forall m :: m in vs[|vs| - 1].modules ==> m.json.Valid()
    ensures Emission(vs, getPath, pattern, sharedKey, stringify).outcome.Fail? <==>
              || Emission(vs[..|vs| - 1], getPath, pattern, sharedKey, stringify).outcome.Fail?
              || FoldExtract(EmptyDict(), vs[|vs| - 1].modules, sharedKey, stringify).1.Fail?
  {
    assert vs[|vs| - 1] in vs;
  }

  /** A module of vs throws when one of init, all but the last chunk, does, or one of the last chunk's modules ms does. */
  lemma ThrowsSplit(vs: seq<ChunkView>, init: seq<ChunkView>, ms: seq<Module>, sharedKey: Option<string>)
    requires |vs| > 0 && init == vs[..|vs| - 1] && ms == vs[|vs| - 1].modules
    ensures (exists k, j :: 0 <= k < |vs| && 0 <= j < |vs[k].modules| && Throws(vs[k].modules[j], sharedKey)) <==>
              || (exists k, j :: 0 <= k < |init| && 0 <= j < |init[k].modules| && Throws(init[k].modules[j], sharedKey))
              || (exists j :: 0 <= j < |ms| && Throws(ms[j], sharedKey))
  {
    var n := |vs| - 1;
    if exists k, j :: 0 <= k < |vs| && 0 <= j < |vs[k].modules| && Throws(vs[k].modules[j], sharedKey) {
      var k, j :| 0 <= k < |vs| && 0 <= j < |vs[k].modules| && Throws(vs[k].modules[j], sharedKey);
      if k < n {
        assert init[k] == vs[k];
      }
    }
    if exists k, j :: 0 <= k < |init| && 0 <= j < |init[k].modules| && Throws(init[k].modules[j], sharedKey) {
      var k, j :| 0 <= k < |init| && 0 <= j < |init[k].modules| && Throws(init[k].modules[j], sharedKey);
      assert init[k] == vs[k];
    }
  }

  /** The last step of a run that does not throw, spelt out. */
  lemma EmissionLast(vs: seq<ChunkView>, getPath: (string, HostChunk) -> string, pattern: string,
                     sharedKey: Option<string>, stringify: JsonValue -> string)
    requires Parsed(vs) && |vs| > 0 && Emission(vs, getPath, pattern, sharedKey, stringify).outcome.Pass?
    ensures Parsed(vs[..|vs| - 1]) && forall m :: m in vs[|vs| - 1].modules ==> m.json.Valid()
    ensures Emission(vs[..|vs| - 1], getPath, pattern, sharedKey, stringify).outcome.Pass?
    ensures FoldExtract(EmptyDict(), vs[|vs| - 1].modules, sharedKey, stringify).1.Pass?
    ensures var prev := Emission(vs[..|vs| - 1], getPath, pattern, sharedKey, stringify);
            var v := FoldExtract(EmptyDict(), vs[|vs| - 1].modules, sharedKey, stringify).0;
            Emission(vs, getPath, pattern, sharedKey, stringify) ==
              Emitted(prev.names + FileNames(getPath, pattern, vs[|vs| - 1].original, v.keys),
                      prev.owners + Repeat(vs[|vs| - 1].original, |v.keys|),
                      prev.items + Contents(v), Pass)
  {
    assert vs[|vs| - 1] in vs;
  }

  /**
   * The asset `name`, owned by `owner` and holding `items`, is what chunk k
   * of vs emits for locale l: the chunk's path with l put in, and exactly
   * the contributions of the chunk's modules to l.
   */
  ghost predicate EmittedFor(vs: seq<ChunkView>, k: int, l: string, owner: HostChunk, name: string, items: seq<Item>,
                             getPath: (string, HostChunk) -> string, pattern: string,
                             sharedKey: Option<string>, stringify: JsonValue -> string)
  {
    && 0 <= k < |vs|
    && owner == vs[k].original
    && name == FileName(getPath, pattern, vs[k].original, l)
    && items == Contributions(vs[k].modules, l, sharedKey, stringify)
  }

  /** Every assignment of e is, for some chunk and locale, that chunk's bucket for the locale, and is never empty. */
  ghost predicate AssignmentsSound(vs: seq<ChunkView>, e: Emitted, getPath: (string, HostChunk) -> string, pattern: string,
                                   sharedKey: Option<string>, stringify: JsonValue -> string)
    requires |e.names| == |e.owners| == |e.items|
  {
    forall i :: 0 <= i < |e.names| ==>
      && e.items[i] != []
      && exists k, l :: EmittedFor(vs, k, l, e.owners[i], e.names[i], e.items[i], getPath, pattern, sharedKey, stringify)
  }

  /** Every chunk's nonempty bucket for every locale is among the assignments of e. */
  ghost predicate AssignmentsComplete(vs: seq<ChunkView>, e: Emitted, getPath: (string, HostChunk) -> string, pattern: string,
                                      sharedKey: Option<string>, stringify: JsonValue -> string)
    requires |e.names| == |e.owners| == |e.items|
  {
    forall k, l :: 0 <= k < |vs| && Contributions(vs[k].modules, l, sharedKey, stringify) != [] ==>
      exists i :: 0 <= i < |e.names| && EmittedFor(vs, k, l, e.owners[i], e.names[i], e.items[i], getPath, pattern, sharedKey, stringify)
  }

  /** The j-th assignment a chunk adds to a run is the chunk's bucket for its j-th locale. */
  lemma EmittedForNew(vs: seq<ChunkView>, prev: Emitted, v: Dict<seq<Item>>, e: Emitted, j: int,
                      getPath: (string, HostChunk) -> string, pattern: string,
                      sharedKey: Option<string>, stringify: JsonValue -> string)
    requires |vs| > 0 && |prev.names| == |prev.owners| == |prev.items| && 0 <= j < |v.keys|
    requires e.names == prev.names + FileNames(getPath, pattern, vs[|vs| - 1].original, v.keys)
    requires e.owners == prev.owners + Repeat(vs[|vs| - 1].original, |v.keys|)
    requires e.items == prev.items + Contents(v)
    requires Contents(v)[j] == Contributions(vs[|vs| - 1].modules, v.keys[j], sharedKey, stringify)
    ensures |prev.names| + j < |e.names| == |e.owners| == |e.items|
    ensures EmittedFor(vs, |vs| - 1, v.keys[j], e.owners[|prev.names| + j], e.names[|prev.names| + j],
                       e.items[|prev.names| + j], getPath, pattern, sharedKey, stringify)
  {
    var p := |prev.names|;
    var names := FileNames(getPath, pattern, vs[|vs| - 1].original, v.keys);
    assert e.names[p + j] == names[j];
  }

  /** One more chunk keeps every assignment a bucket of some chunk. */
  lemma SoundStep(vs: seq<ChunkView>, prev: Emitted, v: Dict<seq<Item>>, e: Emitted,
                  getPath: (string, HostChunk) -> string, pattern: string,
                  sharedKey: Option<string>, stringify: JsonValue -> string)
    requires |vs| > 0 && |prev.names| == |prev.owners| == |prev.items|
    requires AssignmentsSound(vs[..|vs| - 1], prev, getPath, pattern, sharedKey, stringify)
    requires e.names == prev.names + FileNames(getPath, pattern, vs[|vs| - 1].original, v.keys)
    requires e.owners == prev.owners + Repeat(vs[|vs| - 1].original, |v.keys|)
    requires e.items == prev.items + Contents(v)
    requires forall j :: 0 <= j < |v.keys| ==>
               Contents(v)[j] == Contributions(vs[|vs| - 1].modules, v.keys[j], sharedKey, stringify) && Contents(v)[j] != []
    ensures |e.names| == |e.owners| == |e.items|
    ensures AssignmentsSound(vs, e, getPath, pattern, sharedKey, stringify)
  {
    var init := vs[..|vs| - 1];
    var p := |prev.names|;
    forall i | 0 <= i < |e.names|
      ensures e.items[i] != []
      ensures exists k, l :: EmittedFor(vs, k, l, e.owners[i], e.names[i], e.items[i], getPath, pattern, sharedKey, stringify)
    {
      if i < p {
        assert e.names[i] == prev.names[i] && e.owners[i] == prev.owners[i] && e.items[i] == prev.items[i];
        SoundOld(vs, prev, i, getPath, pattern, sharedKey, stringify);
      } else {
        EmittedForNew(vs, prev, v, e, i - p, getPath, pattern, sharedKey, stringify);
      }
    }
  }

  /** An assignment made before the last chunk of vs is still sound for vs. */
  lemma SoundOld(vs: seq<ChunkView>, prev: Emitted, i: int, getPath: (string, HostChunk) -> string, pattern: string,
                 sharedKey: Option<string>, stringify: JsonValue -> string)
    requires |vs| > 0 && |prev.names| == |prev.owners| == |prev.items| && 0 <= i < |prev.names|
    requires AssignmentsSound(vs[..|vs| - 1], prev, getPath, pattern, sharedKey, stringify)
    ensures prev.items[i] != []
    ensures exists k, l :: EmittedFor(vs, k, l, prev.owners[i], prev.names[i], prev.items[i], getPath, pattern, sharedKey, stringify)
  {
    var init := vs[..|vs| - 1];
    var k, l :| EmittedFor(init, k, l, prev.owners[i], prev.names[i], prev.items[i], getPath, pattern, sharedKey, stringify);
    assert init[k] == vs[k];
    assert EmittedFor(vs, k, l, prev.owners[i], prev.names[i], prev.items[i], getPath, pattern, sharedKey, stringify);
  }

  /** One more chunk keeps every nonempty bucket of every chunk among the assignments. */
  lemma CompleteStep(vs: seq<ChunkView>, prev: Emitted, v: Dict<seq<Item>>, e: Emitted,
                     getPath: (string, HostChunk) -> string, pattern: string,
                     sharedKey: Option<string>, stringify: JsonValue -> string)
    requires |vs| > 0 && |prev.names| == |prev.owners| == |prev.items|
    requires AssignmentsComplete(vs[..|vs| - 1], prev, getPath, pattern, sharedKey, stringify)
    requires e.names == prev.names + FileNames(getPath, pattern, vs[|vs| - 1].original, v.keys)
    requires e.owners == prev.owners + Repeat(vs[|vs| - 1].original, |v.keys|)
    requires e.items == prev.items + Contents(v)
    requires forall j :: 0 <= j < |v.keys| ==>
               Contents(v)[j] == Contributions(vs[|vs| - 1].modules, v.keys[j], sharedKey, stringify)
    requires forall l :: Contributions(vs[|vs| - 1].modules, l, sharedKey, stringify) != [] ==> l in v.keys
    ensures |e.names| == |e.owners| == |e.items|
    ensures AssignmentsComplete(vs, e, getPath, pattern, sharedKey, stringify)
  {
    var n := |vs| - 1;
    var init := vs[..n];
    forall k, l | 0 <= k < |vs| && Contributions(vs[k].modules, l, sharedKey, stringify) != []
      ensures exists i :: 0 <= i < |e.names| && EmittedFor(vs, k, l, e.owners[i], e.names[i], e.items[i], getPath, pattern, sharedKey, stringify)
    {
      if k < n {
        assert init[k] == vs[k];
        var i :| 0 <= i < |prev.names| && EmittedFor(init, k, l, prev.owners[i], prev.names[i], prev.items[i], getPath, pattern, sharedKey, stringify);
        assert e.names[i] == prev.names[i] && e.owners[i] == prev.owners[i] && e.items[i] == prev.items[i];
        assert EmittedFor(vs, k, l, e.owners[i], e.names[i], e.items[i], getPath, pattern, sharedKey, stringify);
      } else {
        assert k == n && l in v.keys;
        var j :| 0 <= j < |v.keys| && v.keys[j] == l;
        EmittedForNew(vs, prev, v, e, j, getPath, pattern, sharedKey, stringify);
      }
    }
  }

  /**
   * In a run that does not throw, each assignment is, for some chunk and
   * some locale its modules contribute to, the chunk's path with the locale
   * put in, owned by the chunk's original chunk, holding exactly those
   * contributions.
   */
  lemma {:induction false} EmissionAssetsSound(vs: seq<ChunkView>, getPath: (string, HostChunk) -> string, pattern: string,
                                               sharedKey: Option<string>, stringify: JsonValue -> string)
    requires Parsed(vs) && Emission(vs, getPath, pattern, sharedKey, stringify).outcome.Pass?
    ensures AssignmentsSound(vs, Emission(vs, getPath, pattern, sharedKey, stringify), getPath, pattern, sharedKey, stringify)
    decreases |vs|
  {
    if |vs| > 0 {
      var n := |vs| - 1;
      EmissionLast(vs, getPath, pattern, sharedKey, stringify);
      EmissionAssetsSound(vs[..n], getPath, pattern, sharedKey, stringify);
      ChunkBuckets(vs[n].modules, sharedKey, stringify);
      SoundStep(vs, Emission(vs[..n], getPath, pattern, sharedKey, stringify),
                FoldExtract(EmptyDict(), vs[n].modules, sharedKey, stringify).0,
                Emission(vs, getPath, pattern, sharedKey, stringify), getPath, pattern, sharedKey, stringify);
    }
  }

  /**
   * In a run that does not throw, every chunk gets an assignment for every
   * locale its modules contribute to.
   */
  lemma {:induction false} EmissionAssetsComplete(vs: seq<ChunkView>, getPath: (string, HostChunk) -> string, pattern: string,
                                                  sharedKey: Option<string>, stringify: JsonValue -> string)
    requires Parsed(vs) && Emission(vs, getPath, pattern, sharedKey, stringify).outcome.Pass?
    ensures AssignmentsComplete(vs, Emission(vs, getPath, pattern, sharedKey, stringify), getPath, pattern, sharedKey, stringify)
    decreases |vs|
  {
    if |vs| > 0 {
      var n := |vs| - 1;
      EmissionLast(vs, getPath, pattern, sharedKey, stringify);
      EmissionAssetsComplete(vs[..n], getPath, pattern, sharedKey, stringify);
      ChunkBuckets(vs[n].modules, sharedKey, stringify);
      CompleteStep(vs, Emission(vs[..n], getPath, pattern, sharedKey, stringify),
                   FoldExtract(EmptyDict(), vs[n].modules, sharedKey, stringify).0,
                   Emission(vs, getPath, pattern, sharedKey, stringify), getPath, pattern, sharedKey, stringify);
    }
  }

  /** The registry: `modulesByIdentifier`, `file_name_pattern` and `shared_text_key`. */
  class Dictionary {
    var modulesByIdentifier: Dict<Module>
    const fileNamePattern: string
    const sharedTextKey: Option<string>

    /** `new Dictionary(file_name_pattern, shared_text_key)`: no modules yet. */
    constructor (fileNamePattern: string, sharedTextKey: Option<string>)
      ensures modulesByIdentifier == EmptyDict()
      ensures this.fileNamePattern == fileNamePattern && this.sharedTextKey == sharedTextKey
    {
      modulesByIdentifier := EmptyDict();
      this.fileNamePattern := fileNamePattern;
      this.sharedTextKey := sharedTextKey;
    }

    /** The registered modules. */
    ghost function Modules(): set<Module>
      reads this
    {
      modulesByIdentifier.vals.Values
    }

    /** The module stored under id, as a set: empty when there is none. */
    ghost function At(id: string): set<Module>
      reads this
    {
      if id in modulesByIdentifier.vals then {modulesByIdentifier.vals[id]} else {}
    }

    /** Each module is stored under its own identifier, and its JSON is a parsed object. */
    ghost predicate Valid()
      reads this
    {
      && modulesByIdentifier.Valid()
      && forall id :: id in modulesByIdentifier.vals ==>
           modulesByIdentifier.vals[id].identifier == id && modulesByIdentifier.vals[id].json.Valid()
    }

    /** The registered modules in the order the object enumerates them. */
    ghost function ModuleSeq(): (ms: seq<Module>)
      requires Valid()
      reads this
      ensures |ms| == |modulesByIdentifier.keys|
      ensures forall k :: 0 <= k < |ms| ==> ms[k] == modulesByIdentifier.vals[modulesByIdentifier.keys[k]]
    {
      var d := modulesByIdentifier;
      assert forall k :: 0 <= k < |d.keys| ==> d.keys[k] in Elems(d.keys);
      seq(|d.keys|, k requires 0 <= k < |d.keys| && d.Valid() => d.vals[d.keys[k]])
    }

    /**
     * The first half of `addModule`: the module stored under identifier,
     * created from info and stored when there is none; an existing module
     * keeps its key and JSON and switches its original module only to one
     * with a strictly smaller `index2`.
     */
    method Entry(identifier: string, info: Info, originalModule: HostModule, ghost U: set<Chunk>) returns (m: Module)
      requires Valid() && info.json.Valid() && Consistent(U, Modules())
      modifies this`modulesByIdentifier, At(identifier)`originalModule
      ensures Valid() && Consistent(U, Modules())
      ensures identifier in modulesByIdentifier.vals && m == modulesByIdentifier.vals[identifier]
      ensures identifier !in old(modulesByIdentifier.vals) ==>
                && fresh(m)
                && modulesByIdentifier == old(modulesByIdentifier).Put(identifier, m)
                && m.identifier == identifier && m.key == info.key && m.json == info.json
                && m.originalModule == originalModule && m.chunks == []
      ensures identifier in old(modulesByIdentifier.vals) ==>
                && modulesByIdentifier == old(modulesByIdentifier)
                && m.originalModule ==
                     (if originalModule.index2 < old(m.originalModule).index2 then originalModule else old(m.originalModule))
    {
      if identifier !in modulesByIdentifier.vals {
        m := new Module(identifier, info, originalModule);
        PutNewValue(modulesByIdentifier, identifier, m);
        modulesByIdentifier := modulesByIdentifier.Put(identifier, m);
      } else {
        m := modulesByIdentifier.vals[identifier];
        if originalModule.index2 < m.GetOriginalModule().index2 {
          m.SetOriginalModule(originalModule);
        }
      }
    }

    /** Storing v under a key that is absent adds v to the stored values, and nothing else. */
    static lemma PutNewValue(d: Dict<Module>, k: string, v: Module)
      requires k !in d.vals
      ensures d.Put(k, v).vals.Values == d.vals.Values + {v}
    {
      var e := d.Put(k, v);
      forall x | x in e.vals.Values ensures x in d.vals.Values + {v} {
        var id :| id in e.vals && e.vals[id] == x;
        if id != k {
          assert x == d.vals[id];
        }
      }
      forall x | x in d.vals.Values ensures x in e.vals.Values {
        var id :| id in d.vals && d.vals[id] == x;
        assert e.vals[id] == x;
      }
      assert e.vals[k] == v;
    }

    /**
     * `addModule(identifier, info, originalModule, chunkCopy)`: the module of
     * `Entry`, which then joins chunkCopy, at most once, and is returned.
     */
    method AddModule(identifier: string, info: Info, originalModule: HostModule, chunkCopy: Chunk, ghost U: set<Chunk>)
      returns (m: Module)
      requires Valid() && info.json.Valid()
      requires Consistent(U, Modules()) && chunkCopy in U
      modifies this`modulesByIdentifier, At(identifier), chunkCopy`modules
      ensures Valid() && Consistent(U, Modules())
      ensures identifier in modulesByIdentifier.vals && m == modulesByIdentifier.vals[identifier]
      ensures identifier !in old(modulesByIdentifier.vals) ==>
                && fresh(m)
                && modulesByIdentifier == old(modulesByIdentifier).Put(identifier, m)
                && m.identifier == identifier && m.key == info.key && m.json == info.json
                && m.originalModule == originalModule && m.chunks == [chunkCopy]
      ensures identifier in old(modulesByIdentifier.vals) ==>
                && modulesByIdentifier == old(modulesByIdentifier)
                && m.originalModule ==
                     (if originalModule.index2 < old(m.originalModule).index2 then originalModule else old(m.originalModule))
                && m.chunks == AddIfAbsent(old(m.chunks), chunkCopy)
      ensures forall id :: id in old(modulesByIdentifier.vals) && id != identifier ==>
                modulesByIdentifier.vals[id] == old(modulesByIdentifier.vals[id])
                && modulesByIdentifier.vals[id].originalModule == old(modulesByIdentifier.vals[id].originalModule)
                && modulesByIdentifier.vals[id].chunks == old(modulesByIdentifier.vals[id].chunks)
      ensures chunkCopy.modules == AddIfAbsent(old(chunkCopy.modules), m)
    {
      m := Entry(identifier, info, originalModule, U);
      assert m in Modules();
      assert chunkCopy in m.chunks <==> m in chunkCopy.modules;
      var added := m.AddToChunk(chunkCopy, U, Modules());
    }

    /**
     * `all_chunks`: the chunks of every module, modules in enumeration order
     * and each module's chunks in order, each chunk kept at its first
     * occurrence.
     */
    method AllChunks() returns (all: seq<Chunk>)
      requires Valid()
      ensures all == ChunksOf(ModuleSeq())
      ensures Snapshot(all) == old(Snapshot(ChunksOf(ModuleSeq()))) && OriginalsOf(all) == old(Originals())
      ensures NoDup(all)
      ensures forall c :: c in all <==> exists id :: id in modulesByIdentifier.vals && c in modulesByIdentifier.vals[id].chunks
    {
      ghost var ms := ModuleSeq();
      all := [];
      var i := 0;
      while i < |modulesByIdentifier.keys|
        invariant 0 <= i <= |modulesByIdentifier.keys|
        invariant all == ChunksOf(ms[..i])
      {
        var m := modulesByIdentifier.vals[modulesByIdentifier.keys[i]];
        var j := 0;
        while j < |m.chunks|
          invariant 0 <= j <= |m.chunks|
          invariant all == AddAll(ChunksOf(ms[..i]), m.chunks[..j])
        {
          assert m.chunks[..j + 1][..j] == m.chunks[..j];
          if IndexOf(all, m.chunks[j]) < 0 {
            all := all + [m.chunks[j]];
          }
          j := j + 1;
        }
        assert m.chunks[..j] == m.chunks;
        assert ms[..i + 1][..i] == ms[..i];
        i := i + 1;
      }
      assert ms[..i] == ms;
      ChunksOfMembers(ms);
      forall c | c in all ensures exists id :: id in modulesByIdentifier.vals && c in modulesByIdentifier.vals[id].chunks {
        var k :| 0 <= k < |ms| && c in ms[k].chunks;
        assert modulesByIdentifier.keys[k] in modulesByIdentifier.vals;
      }
      forall c, id | id in modulesByIdentifier.vals && c in modulesByIdentifier.vals[id].chunks ensures c in all {
        assert id in Elems(modulesByIdentifier.keys);
        var k :| 0 <= k < |modulesByIdentifier.keys| && modulesByIdentifier.keys[k] == id;
        assert c in ms[k].chunks;
      }
    }

    /** The original chunks behind the chunk copies the registered modules are in. */
    ghost function Originals(): set<HostChunk>
      requires Valid()
      reads this, modulesByIdentifier.vals.Values
    {
      var ms := ModuleSeq();
      assert forall k :: 0 <= k < |ms| ==> ms[k] in modulesByIdentifier.vals.Values;
      OriginalsOf(ChunksOf(ms))
    }

    /** The chunks of registered modules list registered modules only, whose JSON is parsed. */
    lemma AllChunksParsed(U: set<Chunk>)
      requires Valid() && Consistent(U, Modules())
      ensures Parsed(Snapshot(ChunksOf(ModuleSeq())))
    {
      var ms := ModuleSeq();
      var all := ChunksOf(ms);
      var vs := Snapshot(all);
      ChunksOfMembers(ms);
      forall v, m | v in vs && m in v.modules ensures m.json.Valid() {
        var j :| 0 <= j < |vs| && vs[j] == v;
        var c := all[j];
        assert c in all;
        var k :| 0 <= k < |ms| && c in ms[k].chunks;
        assert modulesByIdentifier.keys[k] in modulesByIdentifier.vals;
        assert ms[k] in Modules();
        assert c in U;
        assert m in Modules();
      }
    }

    /**
     * `buildAndAddAssets(compilation, callback)`: for each chunk of all_chunks
     * in order, the chunk's locale buckets are built and each is added as an
     * asset and to the original chunk's files. A throwing extractLocales ends
     * the run: the chunks before it have been emitted, and the callback is
     * not reached.
     */
    method BuildAndAddAssets(compilation: Compilation, stringify: JsonValue -> string, ghost U: set<Chunk>)
      returns (r: Outcome<Error>)
      requires Valid() && Consistent(U, Modules())
      modifies compilation`assets, Originals()`files
      ensures Parsed(old(Snapshot(ChunksOf(ModuleSeq()))))
      ensures r == Emission(old(Snapshot(ChunksOf(ModuleSeq()))), compilation.getPath, fileNamePattern, sharedTextKey, stringify).outcome
      ensures View(compilation.assets) ==
                PutAll(old(View(compilation.assets)),
                       Emission(old(Snapshot(ChunksOf(ModuleSeq()))), compilation.getPath, fileNamePattern, sharedTextKey, stringify).names,
                       Emission(old(Snapshot(ChunksOf(ModuleSeq()))), compilation.getPath, fileNamePattern, sharedTextKey, stringify).items)
      ensures forall o :: old(allocated(o)) && o in old(Originals()) ==>
                o.files == old(o.files) +
                  NamesOf(Emission(old(Snapshot(ChunksOf(ModuleSeq()))), compilation.getPath, fileNamePattern, sharedTextKey, stringify).names,
                          Emission(old(Snapshot(ChunksOf(ModuleSeq()))), compilation.getPath, fileNamePattern, sharedTextKey, stringify).owners, o)
    {
      ghost var vs := Snapshot(ChunksOf(ModuleSeq()));
      AllChunksParsed(U);
      var all := AllChunks();
      r := EmitAll(compilation, all, stringify, vs);
    }

    /** The `_.each(all_chunks, ...)` loop of buildAndAddAssets. */
    method EmitAll(compilation: Compilation, all: seq<Chunk>, stringify: JsonValue -> string, ghost vs: seq<ChunkView>)
      returns (r: Outcome<Error>)
      requires vs == Snapshot(all) && Parsed(vs)
      modifies compilation`assets, OriginalsOf(all)`files
      ensures r == Emission(vs, compilation.getPath, fileNamePattern, sharedTextKey, stringify).outcome
      ensures View(compilation.assets) ==
                PutAll(old(View(compilation.assets)),
                       Emission(vs, compilation.getPath, fileNamePattern, sharedTextKey, stringify).names,
                       Emission(vs, compilation.getPath, fileNamePattern, sharedTextKey, stringify).items)
      ensures forall o :: old(allocated(o)) && o in OriginalsOf(all) ==>
                o.files == old(o.files) +
                  NamesOf(Emission(vs, compilation.getPath, fileNamePattern, sharedTextKey, stringify).names,
                          Emission(vs, compilation.getPath, fileNamePattern, sharedTextKey, stringify).owners, o)
    {
      ghost var origs := OriginalsOf(all);
      ghost var files0 := map o | o in origs :: o.files;
      r := EmitRun(compilation, all, stringify, vs, origs, files0, View(compilation.assets));
    }

    /** The loop of EmitAll, against the snapshot vs taken before it. */
    method EmitRun(compilation: Compilation, all: seq<Chunk>, stringify: JsonValue -> string,
                   ghost vs: seq<ChunkView>, ghost origs: set<HostChunk>, ghost files0: map<HostChunk, seq<string>>,
                   ghost assets0: Dict<seq<Item>>)
      returns (r: Outcome<Error>)
      requires |all| == |vs| && Parsed(vs) && origs == OriginalsOf(all)
      requires forall i :: 0 <= i < |all| ==> vs[i] == ChunkView(all[i].originalChunk, all[i].modules)
      requires View(compilation.assets) == assets0
      requires forall o :: o in origs ==> o in files0 && o.files == files0[o]
      modifies compilation`assets, origs`files
      ensures r == Emission(vs, compilation.getPath, fileNamePattern, sharedTextKey, stringify).outcome
      ensures View(compilation.assets) ==
                PutAll(assets0, Emission(vs, compilation.getPath, fileNamePattern, sharedTextKey, stringify).names,
                       Emission(vs, compilation.getPath, fileNamePattern, sharedTextKey, stringify).items)
      ensures FilesAre(origs, files0, Emission(vs, compilation.getPath, fileNamePattern, sharedTextKey, stringify))
    {
      assert vs[..0] == [];
      var i := 0;
      while i < |all|
        invariant 0 <= i <= |all|
        invariant Emission(vs[..i], compilation.getPath, fileNamePattern, sharedTextKey, stringify).outcome.Pass?
        invariant View(compilation.assets) ==
                    PutAll(assets0, Emission(vs[..i], compilation.getPath, fileNamePattern, sharedTextKey, stringify).names,
                           Emission(vs[..i], compilation.getPath, fileNamePattern, sharedTextKey, stringify).items)
        invariant FilesAre(origs, files0, Emission(vs[..i], compilation.getPath, fileNamePattern, sharedTextKey, stringify))
      {
        assert all[i].originalChunk in origs;
        var res := EmitNext(compilation, all, i, stringify, vs, origs, files0, assets0);
        if res.Fail? {
          EmissionFailPersists(vs, i + 1, compilation.getPath, fileNamePattern, sharedTextKey, stringify);
          return res;
        }
        i := i + 1;
      }
      assert vs[..i] == vs;
      r := Pass;
    }

    /** One iteration of the `_.each(all_chunks, ...)` loop: the run extended by chunk all[i]. */
    method EmitNext(compilation: Compilation, all: seq<Chunk>, i: nat, stringify: JsonValue -> string,
                    ghost vs: seq<ChunkView>, ghost origs: set<HostChunk>, ghost files0: map<HostChunk, seq<string>>,
                    ghost assets0: Dict<seq<Item>>)
      returns (res: Outcome<Error>)
      requires i < |all| == |vs| && Parsed(vs) && vs[i] == ChunkView(all[i].originalChunk, all[i].modules)
      requires all[i].originalChunk in origs
      requires Emission(vs[..i], compilation.getPath, fileNamePattern, sharedTextKey, stringify).outcome.Pass?
      requires View(compilation.assets) ==
                 PutAll(assets0, Emission(vs[..i], compilation.getPath, fileNamePattern, sharedTextKey, stringify).names,
                        Emission(vs[..i], compilation.getPath, fileNamePattern, sharedTextKey, stringify).items)
      requires FilesAre(origs, files0, Emission(vs[..i], compilation.getPath, fileNamePattern, sharedTextKey, stringify))
      modifies compilation`assets, all[i].originalChunk`files
      ensures res == Emission(vs[..i + 1], compilation.getPath, fileNamePattern, sharedTextKey, stringify).outcome
      ensures View(compilation.assets) ==
                PutAll(assets0, Emission(vs[..i + 1], compilation.getPath, fileNamePattern, sharedTextKey, stringify).names,
                       Emission(vs[..i + 1], compilation.getPath, fileNamePattern, sharedTextKey, stringify).items)
      ensures FilesAre(origs, files0, Emission(vs[..i + 1], compilation.getPath, fileNamePattern, sharedTextKey, stringify))
    {
      var chunk := all[i];
      assert vs[i] in vs;
      ghost var prev := Emission(vs[..i], compilation.getPath, fileNamePattern, sharedTextKey, stringify);
      res := EmitChunk(compilation, chunk, stringify);
      if res.Fail? {
        EmissionStepFail(vs, i, compilation.getPath, fileNamePattern, sharedTextKey, stringify);
        ghost var next := Emission(vs[..i + 1], compilation.getPath, fileNamePattern, sharedTextKey, stringify);
        assert next.names == prev.names && next.owners == prev.owners && next.items == prev.items;
        assert forall o :: o in origs ==> o.files == old(o.files);
      } else {
        EmissionStepPass(vs, i, compilation.getPath, fileNamePattern, sharedTextKey, stringify);
        ghost var next := Emission(vs[..i + 1], compilation.getPath, fileNamePattern, sharedTextKey, stringify);
        ghost var v := FoldExtract(EmptyDict(), chunk.modules, sharedTextKey, stringify).0;
        ghost var names := FileNames(compilation.getPath, fileNamePattern, chunk.originalChunk, v.keys);
        PutAllAppend(assets0, prev.names, prev.items, names, Contents(v));
        assert next.names == prev.names + names && next.owners == prev.owners + Repeat(chunk.originalChunk, |v.keys|);
        forall o | o in origs ensures o in files0 && o.files == files0[o] + NamesOf(next.names, next.owners, o) {
          FilesStep(o, files0[o], prev.names, prev.owners, chunk.originalChunk, names, old(o.files), o.files);
        }
      }
    }

    /**
     * One chunk of the run: its locale buckets are built and, unless that
     * throws, each is added as an asset and to the original chunk's files.
     */
    method EmitChunk(compilation: Compilation, chunk: Chunk, stringify: JsonValue -> string) returns (r: Outcome<Error>)
      requires forall m :: m in chunk.modules ==> m.json.Valid()
      modifies compilation`assets, chunk.originalChunk`files
      ensures r == FoldExtract(EmptyDict(), chunk.modules, sharedTextKey, stringify).1
      ensures r.Fail? ==> compilation.assets == old(compilation.assets) && chunk.originalChunk.files == old(chunk.originalChunk.files)
      ensures r.Pass? ==>
                View(compilation.assets) ==
                  PutAll(old(View(compilation.assets)),
                         FileNames(compilation.getPath, fileNamePattern, chunk.originalChunk,
                                   FoldExtract(EmptyDict(), chunk.modules, sharedTextKey, stringify).0.keys),
                         Contents(FoldExtract(EmptyDict(), chunk.modules, sharedTextKey, stringify).0))
      ensures r.Pass? ==>
                chunk.originalChunk.files ==
                  old(chunk.originalChunk.files) +
                  FileNames(compilation.getPath, fileNamePattern, chunk.originalChunk,
                            FoldExtract(EmptyDict(), chunk.modules, sharedTextKey, stringify).0.keys)
    {
      ghost var before := View(compilation.assets);
      var locales;
      locales, r := BuildLocales(chunk, stringify);
      assert View(compilation.assets) == before;
      if r.Pass? {
        ghost var assets1 := compilation.assets;
        ghost var names := FileNames(compilation.getPath, fileNamePattern, chunk.originalChunk, locales.keys);
        ghost var contents := Contents(View(locales));
        EmitLocales(compilation, chunk.originalChunk, locales);
        assert View(assets1) == before;
        ViewPutAll(assets1, names, InOrder(locales));
        ViewInOrder(locales);
        assert ChildrenOf(InOrder(locales)) == contents;
      }
    }

    /**
     * The locale buckets of one chunk: extractLocales folded over the
     * chunk's modules, from an empty object. Every bucket is new.
     */
    method BuildLocales(chunk: Chunk, stringify: JsonValue -> string) returns (locales: Dict<JSONConcatSource>, r: Outcome<Error>)
      requires forall m :: m in chunk.modules ==> m.json.Valid()
      ensures locales.Valid() && Separate(locales)
      ensures forall l :: l in locales.vals ==> fresh(locales.vals[l])
      ensures (View(locales), r) == FoldExtract(EmptyDict(), chunk.modules, sharedTextKey, stringify)
    {
      var ms := chunk.modules;
      locales := EmptyDict();
      var i := 0;
      while i < |ms|
        invariant 0 <= i <= |ms|
        invariant locales.Valid() && Separate(locales)
        invariant forall l :: l in locales.vals ==> fresh(locales.vals[l])
        invariant FoldExtract(EmptyDict(), ms, sharedTextKey, stringify) == FoldExtract(View(locales), ms[i..], sharedTextKey, stringify)
      {
        assert ms[i..][1..] == ms[i + 1..];
        locales, r := ms[i].ExtractLocales(locales, sharedTextKey, stringify);
        if r.Fail? {
          return;
        }
        i := i + 1;
      }
      r := Pass;
    }

    /**
     * Emitting one chunk's buckets: for each locale in order, the asset
     * named after the original chunk's path and the locale is set to that
     * locale's bucket and its name is appended to the original chunk's files.
     */
    method EmitLocales(compilation: Compilation, original: HostChunk, locales: Dict<JSONConcatSource>)
      requires locales.Valid()
      modifies compilation`assets, original`files
      ensures compilation.assets ==
                PutAll(old(compilation.assets), FileNames(compilation.getPath, fileNamePattern, original, locales.keys), InOrder(locales))
      ensures original.files == old(original.files) + FileNames(compilation.getPath, fileNamePattern, original, locales.keys)
    {
      ghost var names := FileNames(compilation.getPath, fileNamePattern, original, locales.keys);
      ghost var bs := InOrder(locales);
      ghost var assets0 := compilation.assets;
      ghost var files0 := original.files;
      var i := 0;
      while i < |locales.keys|
        invariant 0 <= i <= |locales.keys|
        invariant compilation.assets == PutAll(assets0, names[..i], bs[..i])
        invariant original.files == files0 + names[..i]
      {
        EmitLocaleAt(compilation, original, locales, i, names, bs, assets0, files0);
        i := i + 1;
      }
      assert names[..i] == names && bs[..i] == bs;
    }

    /** One iteration of the emission loop: the i-th locale's asset, after the first i. */
    method EmitLocaleAt(compilation: Compilation, original: HostChunk, locales: Dict<JSONConcatSource>, i: nat,
                        ghost names: seq<string>, ghost bs: seq<JSONConcatSource>,
                        ghost assets0: Dict<JSONConcatSource>, ghost files0: seq<string>)
      requires locales.Valid() && i < |locales.keys|
      requires names == FileNames(compilation.getPath, fileNamePattern, original, locales.keys) && bs == InOrder(locales)
      requires compilation.assets == PutAll(assets0, names[..i], bs[..i])
      requires original.files == files0 + names[..i]
      modifies compilation`assets, original`files
      ensures compilation.assets == PutAll(assets0, names[..i + 1], bs[..i + 1])
      ensures original.files == files0 + names[..i + 1]
    {
      var locale := locales.keys[i];
      PutAllNext(assets0, names, bs, i);
      assert names[i] == FileName(compilation.getPath, fileNamePattern, original, locale);
      assert locale in Elems(locales.keys) && bs[i] == locales.vals[locale];
      assert files0 + names[..i + 1] == (files0 + names[..i]) + [names[i]];
      EmitLocale(compilation, original, locale, locales.vals[locale]);
    }

    /**
     * The body of the emission loop for one locale: `getPath(...).replace('[locale]', locale)`
     * names the asset, which is set to the bucket and pushed onto the original chunk's files.
     */
    method EmitLocale(compilation: Compilation, original: HostChunk, locale: string, bucket: JSONConcatSource)
      modifies compilation`assets, original`files
      ensures compilation.assets == old(compilation.assets).Put(FileName(compilation.getPath, fileNamePattern, original, locale), bucket)
      ensures original.files == old(original.files) + [FileName(compilation.getPath, fileNamePattern, original, locale)]
    {
      var file := ReplaceFirst(compilation.getPath(fileNamePattern, original), "[locale]", locale);
      compilation.assets := compilation.assets.Put(file, bucket);
      original.files := original.files + [file];
    }
  }

  /** The chunks of the modules of ms, each at its first occurrence. */
  ghost function ChunksOf(ms: seq<Module>): seq<Chunk>
    reads set m | m in ms
    decreases |ms|
  {
    if |ms| == 0 then [] else AddAll(ChunksOf(ms[..|ms| - 1]), ms[|ms| - 1].chunks)
  }

  /** ChunksOf lists each chunk of each module, and nothing else, once. */
  lemma {:induction false} ChunksOfMembers(ms: seq<Module>)
    ensures NoDup(ChunksOf(ms))
    ensures forall c :: c in ChunksOf(ms) <==> exists k :: 0 <= k < |ms| && c in ms[k].chunks
    decreases |ms|
  {
    if |ms| > 0 {
      var n := |ms| - 1;
      var init := ms[..n];
      var prev := ChunksOf(init);
      ChunksOfMembers(init);
      AddAllMembers(prev, ms[n].chunks);
      assert ChunksOf(ms) == AddAll(prev, ms[n].chunks);
      forall c ensures c in ChunksOf(ms) <==> exists k :: 0 <= k < |ms| && c in ms[k].chunks {
        if c in prev {
          var k :| 0 <= k < |init| && c in init[k].chunks;
          assert init[k] == ms[k];
        }
        if exists k :: 0 <= k < |ms| && c in ms[k].chunks {
          var k :| 0 <= k < |ms| && c in ms[k].chunks;
          if k < n {
            assert init[k] == ms[k];
          }
        }
      }
    }
  }
}
