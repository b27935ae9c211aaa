# i18n-webpack-plugin consolidation engine, in Dafny

This project models the part of the i18n webpack plugin that runs after the
loader has attached a JSON fragment (`key` plus a per-locale `json` object) to
each i18n module. It covers five pieces:

- **Registry (`Dictionary`).** Keeps one i18n `Module` per module identifier.
  The original webpack module with the lowest `index2` is the canonical one.
  The comparison is strict, so among equal `index2` the first one registered
  stays (lib/i18nDictionary.js:25).
- **Chunk copies.** `copyChunks` makes a parallel list of chunk copies whose
  child and parent links match the originals position by position.
- **Merge and strip (`postProcessChunks`).** Every *root* chunk, meaning an
  entry chunk or one with no parents, gets the modules of every non-root chunk
  it reaches through non-root chunks. This is a depth-first search with one
  `checkedChunks` list per root. Every non-root copy is then emptied.
- **Locale extraction (`extractLocales`).** Each module's JSON is split into
  one `JSONConcatSource` bucket per locale.
- **Emission (`buildAndAddAssets`).** Each (chunk, locale) bucket becomes an
  asset. Its name is the chunk's path with the first `[locale]` replaced. The
  name is also appended to the original chunk's `files`.

The model is imperative where the JavaScript is:

- The chunk copies (`I18nModule.Chunk`), the i18n modules
  (`I18nModule.Module`), the registry (`I18nDictionary.Dictionary`) and the
  bucket (`JSONConcatSources.JSONConcatSource`) are classes. Their methods
  update fields in place.
- Loops are `while` loops carrying invariants.
- The depth-first merge is a recursive method. It is proved against a
  value-level graph (`ChunkGraph.Graph`, nodes being the positions of the
  copies).
- Each loop is proved against a pure specification function:
  - `I18nModule.Extract` for `extractLocales`;
  - `I18nDictionary.FoldExtract` for a chunk's bucket fold;
  - `I18nDictionary.Emission` for a whole `buildAndAddAssets` run;
  - `JSONConcatSources.Combined` for `source()`.

  The properties are then proved about those functions.

Some things are kept abstract, each as a parameter:

- `JSON.stringify` is a `JsonValue -> string` parameter.
- `compilation.getPath` is a function field of `Host.Compilation`.
- A hash is a class that only logs its updates in order.

The webpack classes the plugin reads are small classes in `Host`, holding only
the fields the core uses:

- `HostChunk`: the original chunks, with `chunks`, `parents`, `modules`,
  `files` and an entry flag;
- `HostModule`: `identifier`, `index2`, and the loader's content;
- `Compilation`: `assets` and `getPath`.

Some behaviours one might expect of the plugin are absent from its code, and
the model follows the code in these three:

- **No locale filtering.** No code reads a locale allow-list, so every locale
  in a module's JSON gets a bucket.
- **No defaults and no deep merge.** A bucket's `source()` maps each child's
  key to that child's JSON, so the last child with a key wins outright. No
  per-key defaults are applied.
- **Shared key.** The shared key is not a working default overlay. The code
  calls `addDefault` (lib/i18nModule.js:59), which `JSONConcatSource` does
  not define. Whenever the shared data is truthy and the module has
  another locale, the model raises the resulting `TypeError` as
  `Fail(NotAFunction("addDefault"))`.
Two calls in the merge and strip steps name methods the i18n `Module` does
not have, so the code as written throws a `TypeError` there. In these two the
model does not follow the code. It follows the evident intent instead, and
"## Left out" records the throw it leaves out:

- **Merge link.** index.js:173 calls `module.addChunk`, which the i18n
  `Module` does not define (lib/i18nModule.js has neither `addChunk` nor a
  prototype that supplies one). As written, the merge therefore throws a
  `TypeError` as soon as a root reaches a non-root copy holding a module. It
  is modelled as the evidently intended `addToChunk`: the link is added on
  both sides, at most once.
- **Strip.** index.js:148 calls webpack's `Chunk.removeModule`, which in
  turn calls `module.removeChunk`. The i18n `Module` does not define
  `removeChunk`. As written, the strip therefore throws a `TypeError` at the
  first module of the first non-root copy that holds one. The model follows
  the evident intent: the module leaves the copy and the copy leaves the
  module's chunk list, as `removeFromChunk` does (lib/i18nModule.js:35-37).

## Model

| member | source | states |
|---|---|---|
| Plugin.CopyChunks | index.js:196-218 | One fresh copy per original, in order. Copy i has index i, original i's name, entry status and identity, and no modules. Its children and parents are the copies at the positions of original i's children and parents, each added once. |
| Plugin.NewCopies | index.js:198-203 | The `map` step: a fresh, unlinked copy of each original, in order, with name, `originalChunk` and entry status taken from it. |
| Plugin.LinkCopy | index.js:206-215 | One iteration of the link loop: copy i gets index i, then the copies of original i's children, then those of its parents. |
| Plugin.LinkChildren | index.js:209-211 | `addChunk` of each child's copy: the copies are appended in order, each unless already present. |
| Plugin.LinkParents | index.js:212-214 | `addParent` of each parent's copy: the copies are appended in order, each unless already present. |
| Plugin.CopiesMirrorOriginals | index.js:187-218 | Given distinct originals, copy i's children and parents sit at the same positions as original i's, so the copy graph is the original graph. Copy i is a root exactly when original i is an entry chunk or has no parents. |
| Plugin.CopiesOfSamePositions | index.js:209-214 | For distinct originals and duplicate-free lists, the copies at the positions of a list are distinct, so adding each once keeps them all, at the same positions. |
| Plugin.CopiesOfDistinct | index.js:209-214 | Distinct originals have distinct copies. |
| Plugin.IsInitialOrHasNoParents | index.js:187-189 | The root test: a chunk is a root when it is an entry chunk or has no parents. `CopiesMirrorOriginals` proves a copy passes it exactly when its original does. |
| Plugin.PostProcessChunks | index.js:134-157 | Every root copy ends with its old modules followed by those of exactly the non-root copies it reaches through non-root copies, each once, in search order. Every non-root copy ends with no modules. Each module's chunk list is its old list extended, in position order, by every root copy that ends holding it (each added once), with every non-root copy then filtered out. Chunk/module membership stays two-sided. |
| Plugin.MergeAll | index.js:139-142 | Step 1: each root copy has searched exactly the positions it reaches and gained their modules in that order; every other copy is unchanged. Each module's chunk list becomes its old list followed, in position order, by each root copy that ends holding it, each added unless already there. |
| Plugin.HoldingMembers | index.js:139-142 | A copy is among those a module's chunk list gains in step 1 exactly when it is a root, among the positions so far, whose module list holds the module. |
| Plugin.MergeNext | index.js:139-142 | One iteration of step 1 keeps the merged-prefix invariant: copies already visited are merged, later ones still hold their modules, and no other copy changes. When the copy is a root, each module it now holds gains it in its chunk list unless already there; every other chunk list is unchanged. |
| Plugin.MergeAt | index.js:140-141 | The copy at position i is merged when it is a root and left unchanged otherwise. A module the merged root holds gains it in its chunk list unless already there; every other module's chunk list is unchanged. |
| Plugin.MergeNonInitialChunks | index.js:162-168 | Called on a root with a fresh `checkedChunks`: the checked chunks are distinct and are exactly the non-root chunks the root reaches. The root gains their modules in checking order. Each module the root then holds has the root added once at the end of its chunk list, unless already there; every other chunk list is unchanged. |
| Plugin.MergeRootChild | index.js:165-167 | The i-th child of the root is skipped when it is a root; otherwise it is searched and ends up checked. Chunk lists stay tied to what they were before the search began: a module the root holds has the root once at the end of its old list, unless it was already there, and every other module's list is unchanged. |
| Plugin.MergeInto | index.js:169-179 | The recursive call: an already-checked chunk changes nothing. Otherwise the chunk is pushed, its modules join the root and its non-root children are searched. The checked list only grows, stays a valid search state, and contains the chunk. The root gains exactly the modules of the newly checked chunks. Chunk lists stay tied to what they were before the search began: a module the root holds has the root once at the end of its old list, unless it was already there, and every other module's list is unchanged. |
| Plugin.VisitChunk | index.js:169-174 | Checking a new chunk appends it to `checkedChunks`, keeps it on the search stack, and adds its modules to the root. Chunk lists stay tied to what they were before the search began: a module the root holds has the root once at the end of its old list, unless it was already there, and every other module's list is unchanged. |
| Plugin.MergeModules | index.js:171-174 | The root's modules become its old modules followed by the chunk's, each added once. Each module of the chunk has the root added to its chunk list unless already there; every other chunk list is unchanged. Membership stays two-sided. |
| Plugin.Link | index.js:172-173 | The module joins the root and the root joins the module, each at most once. |
| Plugin.MergeChildren | index.js:175-179 | After the children loop, every non-root child of the chunk is checked, and the root holds what the checked chunks gathered. Chunk lists stay tied to what they were before the search began: a module the root holds has the root once at the end of its old list, unless it was already there, and every other module's list is unchanged. |
| Plugin.MergeChild | index.js:176-177 | The i-th child is skipped when it is a root, otherwise searched. Afterwards the first i+1 non-root children are checked. Chunk lists stay tied to what they were before the search began: a module the root holds has the root once at the end of its old list, unless it was already there, and every other module's list is unchanged. |
| Plugin.MergedRootMembers | index.js:162-180 | Whatever order the search took, a merged root holds a module exactly when it held it before or a chunk it reaches through non-root chunks holds it. |
| Plugin.RootChildFacts | index.js:165-167 | A child of a root is a copy. It is a graph root exactly when it is a root chunk, and the root reaches it when it is not. |
| Plugin.ChildFacts | index.js:175-177 | The same for a child of a chunk the root reaches: the root reaches that child too when it is not a root. |
| Plugin.PositionsMember | index.js:169 | In a duplicate-free list, `checkedChunks.indexOf(chunk) < 0` agrees with the chunk's position being absent from the checked positions. |
| Plugin.StripAll | index.js:145-151 | Step 2: non-root copies end with no modules and root copies keep theirs. Each module's chunk list is its old list with every non-root copy filtered out, order kept. Membership stays two-sided. |
| Plugin.StripChunk | index.js:147-149 | Removing each module of a copy leaves it empty. Each module's chunk list is its old list with that copy's entry removed and the rest in order. |
| Plugin.StripNext | index.js:146-150 | One iteration of step 2 keeps its progress: the copies so far are emptied unless roots, later ones unchanged, and chunk lists are filtered by the non-root copies so far. |
| Plugin.StripModule | index.js:147-148 | One removal: the module leaves the copy and the copy leaves that module's chunk list; the copy's remaining modules keep their order. |
| Seqs.WithoutMembers | index.js:145-151 | Filtering a chunk list keeps exactly the chunks outside the filter set, and keeps a duplicate-free list duplicate-free. |
| Seqs.RemoveWithout | index.js:147-149 | On a duplicate-free list, removing one chunk after filtering by a set is filtering by the set plus that chunk. |
| Plugin.ProcessChunk | index.js:109-129 | For each module with loader content, in order: the dictionary's identifiers are the old ones followed by the new ones in first-registration order, and every old entry object is kept. Each entry's original module is exactly what `Canonical` keeps over the chunk's modules: the first module with the lowest `index2` under that identifier, a later one replacing it only on a strictly smaller `index2`. Each entry's chunk list gains the chunk's copy once at its end exactly when its identifier was registered; every other entry is unchanged. The copy gains each registered entry once. An entry created by this call holds the key and the JSON of the loader content of the first module with its identifier (`FirstContent`), so the dictionary emits what the loader produced. |
| Plugin.ProcessModule | index.js:114-124 | One iteration: a module without content changes nothing; one with content is registered. Either way the key order, the kept entries, the copy's modules, and every entry's original module and chunk list advance by exactly one module, and so does the key and JSON of every entry created so far (`NewTexts`). |
| Plugin.Register | index.js:119-121 | `addModule` for a module with content. A new identifier gets an entry whose original module is this module, whose chunk list is exactly the copy, and whose key and JSON are the module's loader content (`new Module(identifier, info, …)`). A known one keeps its entry, takes this module as original exactly when its `index2` is strictly smaller, and joins the copy unless already there. No other entry's original module or chunk list changes, and the copy gains the entry once. |
| Plugin.CanonicalFirstLowest | lib/i18nDictionary.js:21-27 | The original module kept for an identifier has `index2` no higher than the start's and than every module registered under it. It is the start unless some registered module is strictly lower than the start and than every earlier registrant, so among equal `index2` the first registration wins. There is none only when there was none and nothing was registered. |
| Plugin.CanonicalsStep | lib/i18nDictionary.js:21-29 | Registering one more module with content moves every entry one step: a new identifier gets the module as original and the copy as its only chunk; a known one switches on a strictly smaller `index2` and joins the copy unless there; other entries are unchanged. |
| Plugin.FirstContentFirst | index.js:119-121 | `FirstContent` is the loader content of the first module with the identifier: it is absent exactly when no module with content has the identifier, and otherwise it belongs to such a module with none before it. |
| Plugin.NewTextsStep | lib/i18nDictionary.js:20-23 | Registering a module with content: a new identifier's entry holds that module's key and JSON, which is then its first content; a known identifier's entry and its text stay. |
| Plugin.RegisteredMembers | index.js:119 | An identifier is registered exactly when some module of the chunk has content and that identifier. |
| Plugin.ProgressStep | index.js:114-124 | Registering one more identifier, new or already stored, advances the key order, the kept entries and the copy's module list together. |
| Plugin.PutAddsKey | index.js:120 | Storing under a key appends it to the object's key order unless it is already there. |
| ChunkGraph.FinishedSearchIsReachableSet | index.js:162-180 | When the search from a root has an empty stack and every non-root child of the root is visited, the visited nodes are exactly those the root reaches through non-root nodes. |
| ChunkGraph.ClosedSetHoldsReachable | index.js:175-179 | A set holding the non-root children of the root and of each of its members holds everything the root reaches. |
| ChunkGraph.SearchPush | index.js:169-170 | Pushing a new reachable non-root node keeps the search state. |
| ChunkGraph.SearchPop | index.js:175-179 | Once all of a node's non-root children are visited, it can leave the stack. |
| I18nModule.Chunk.constructor | index.js:199-201 | A new copy carries the original's name, entry status and identity, and has no links or modules. |
| I18nModule.Chunk.AddChunk | index.js:210 | Adds a child unless present; reports whether it was added. |
| I18nModule.Chunk.AddParent | index.js:213 | Adds a parent unless present; reports whether it was added. |
| I18nModule.Chunk.AddModule | lib/i18nModule.js:82 | Adds a module unless present; reports whether it was added. |
| I18nModule.Chunk.RemoveModule | index.js:148 | Removes the module if present, and the chunk from the module's list, keeping membership two-sided. |
| I18nModule.Module.constructor | lib/i18nModule.js:13-19 | Stores the identifier, original module, `info.key` and `info.json`, with no chunks. |
| I18nModule.Module.ManageChunks | lib/i18nModule.js:74-96 | Returns true exactly when an add finds the chunk absent or a remove finds it present. On false nothing changes. An add appends the chunk once and adds the module to the chunk. A remove drops the module from the chunk and the chunk's single entry. |
| I18nModule.Module.AddToChunk | lib/i18nModule.js:26-28 | Add-if-absent on both sides. Returns whether the chunk was new; a repeated call changes nothing. |
| I18nModule.Module.RemoveFromChunk | lib/i18nModule.js:35-37 | Remove-if-present on both sides. Returns whether the chunk was present; when absent, nothing changes. |
| I18nModule.Module.Identifier | lib/i18nModule.js:101-103 | Returns the identifier given at construction. |
| I18nModule.Module.Key | lib/i18nModule.js:105-107 | Returns the key given at construction. |
| I18nModule.Module.GetOriginalModule | lib/i18nModule.js:113-115 | Returns the current original module. |
| I18nModule.Module.SetOriginalModule | lib/i18nModule.js:117-119 | Afterwards `getOriginalModule` returns the module set. |
| I18nModule.Module.ExtractLocales | lib/i18nModule.js:43-65 | Existing buckets keep their identity, and new ones are fresh. The bucket contents and outcome are those of `Extract`. |
| I18nModule.Module.ExtractLocale | lib/i18nModule.js:47-61 | One locale of the loop: it advances `ExtractFrom` by one key, or throws where `ExtractFrom` does. |
| I18nModule.AddToBucket | lib/i18nModule.js:50-55 | A missing bucket is created empty, then one item is appended to the locale's bucket and no other bucket changes. |
| I18nModule.NewBucket | lib/i18nModule.js:50-52 | A fresh empty bucket is stored under an absent locale. |
| I18nModule.AppendToBucket | lib/i18nModule.js:55 | The locale's bucket gains one item at its end. |
| I18nModule.ExtractFromFails | lib/i18nModule.js:45-60 | Extraction throws exactly when the shared key is set, its data is truthy, and the JSON has some other locale. The error is the missing `addDefault`. |
| I18nModule.ExtractFromUntouched | lib/i18nModule.js:48 | The shared-key locale and locales absent from the JSON are neither created nor changed. |
| I18nModule.ExtractFromAppendsOne | lib/i18nModule.js:47-56 | In an extraction that does not throw, each other own locale of the JSON ends with its earlier bucket (or none) plus exactly one `JSONSource(json[locale], key)`. |
| I18nModule.AppendsOneHere | lib/i18nModule.js:48-56 | The locale at the current key, when it is not the shared key and shared data is not truthy, ends with its bucket before that key plus exactly one `JSONSource(json[locale], key)`, whatever keys follow. |
| I18nModule.ExtractFromSkip | lib/i18nModule.js:48 | The shared key is skipped. |
| I18nModule.ExtractFromThrow | lib/i18nModule.js:55-59 | With truthy shared data, the first eligible locale gets its item and then throws. |
| I18nModule.ExtractFromNext | lib/i18nModule.js:50-56 | Without shared data, an eligible locale gets its item and the loop goes on. |
| I18nDictionary.Dictionary.constructor | lib/i18nDictionary.js:10-14 | An empty registry with the given file name pattern and shared text key. |
| I18nDictionary.Dictionary.AddModule | lib/i18nDictionary.js:19-31 | A new identifier stores a fresh module built from `info` and the original module, in the given chunk. A known identifier keeps its module, key and JSON, and switches the original module exactly when the incoming `index2` is strictly smaller. The chunk is joined at most once on both sides, and the stored module is returned. |
| I18nDictionary.Dictionary.Entry | lib/i18nDictionary.js:20-28 | The lookup-or-create half of `addModule`, with the same tie-break. |
| I18nDictionary.Dictionary.PutNewValue | lib/i18nDictionary.js:22 | Storing under an absent identifier adds exactly that module to the registry. |
| I18nDictionary.Dictionary.AllChunks | lib/i18nDictionary.js:42-49 | `all_chunks` is duplicate-free and holds exactly the chunks of the registered modules, in first-seen order. |
| I18nDictionary.ChunksOfMembers | lib/i18nDictionary.js:42-49 | The first-seen union of the modules' chunk lists is duplicate-free and has exactly their members. |
| I18nDictionary.Dictionary.AllChunksParsed | lib/i18nDictionary.js:42-58 | Every module of every chunk in `all_chunks` is registered, so its JSON is a parsed object. |
| I18nDictionary.Dictionary.BuildAndAddAssets | lib/i18nDictionary.js:37-74 | The outcome, the assets and the original chunks' files are those of `Emission` over the chunks as they were on entry. |
| I18nDictionary.Dictionary.EmitAll | lib/i18nDictionary.js:52-71 | The loop over `all_chunks` performs `Emission`: its outcome, its asset assignments in order, and each original chunk's new files. |
| I18nDictionary.Dictionary.EmitRun | lib/i18nDictionary.js:52-71 | The same, against a snapshot of the chunks and the old files. |
| I18nDictionary.Dictionary.EmitNext | lib/i18nDictionary.js:52-70 | One more chunk extends the run by one step of `Emission`. |
| I18nDictionary.Dictionary.EmitChunk | lib/i18nDictionary.js:53-70 | A chunk whose fold throws changes no asset and no file. Otherwise one asset per bucket is assigned, in key order, and the names are appended to the original chunk's files. |
| I18nDictionary.Dictionary.BuildLocales | lib/i18nDictionary.js:56-58 | The buckets are fresh and distinct, and their contents and outcome are `FoldExtract` from an empty object. |
| I18nDictionary.Dictionary.EmitLocales | lib/i18nDictionary.js:61-70 | Each bucket, in key order, is assigned under its file name, and the names are appended to the original chunk's files in the same order. |
| I18nDictionary.Dictionary.EmitLocaleAt | lib/i18nDictionary.js:61-70 | One iteration of that loop, after the first i locales. |
| I18nDictionary.Dictionary.EmitLocale | lib/i18nDictionary.js:63-69 | The file is named by `getPath` with `[locale]` replaced. The asset under that name becomes the bucket, and the name is appended to the original chunk's files. |
| I18nDictionary.FoldExtractFails | lib/i18nDictionary.js:56-58 | A chunk's bucket fold throws exactly when one of its modules throws. |
| I18nDictionary.FoldExtractBucket | lib/i18nDictionary.js:56-58 | When the fold does not throw, each locale's bucket is what it held plus exactly the modules' contributions, in module order. A bucket exists exactly when it existed or something contributed. |
| I18nDictionary.ExtractBucket | lib/i18nModule.js:47-62 | The same for a single module's `extractLocales`. |
| I18nDictionary.ChunkBuckets | lib/i18nDictionary.js:56-61 | From an empty object, there is one bucket per locale some module contributes to, and never an empty one. Each holds exactly those contributions. |
| I18nDictionary.FoldExtractValid | lib/i18nDictionary.js:56-58 | The fold keeps the locale object well formed. |
| I18nDictionary.ExtractFromValid | lib/i18nModule.js:47-62 | One module's extraction keeps the locale object well formed. |
| I18nDictionary.EmissionFails | lib/i18nDictionary.js:52-71 | A run throws exactly when some module of some chunk throws. |
| I18nDictionary.EmissionFailPersists | lib/i18nDictionary.js:52-71 | Once a chunk throws, later chunks assign nothing. |
| I18nDictionary.EmissionStepFail | lib/i18nDictionary.js:56-58 | A chunk whose fold throws ends the run with that error and assigns nothing. |
| I18nDictionary.EmissionStepPass | lib/i18nDictionary.js:56-70 | A chunk whose fold passes appends its file names, its owner and its bucket contents to the run. |
| I18nDictionary.EmissionAssetsSound | lib/i18nDictionary.js:52-71 | In a run that does not throw, each asset is, for some chunk and locale, the chunk's path with the locale put in. It is pushed onto that chunk's original chunk and holds exactly the contributions of the chunk's modules to the locale, which are never empty. |
| I18nDictionary.EmissionAssetsComplete | lib/i18nDictionary.js:52-71 | In a run that does not throw, every chunk gets an asset for every locale its modules contribute to. |
| I18nDictionary.FileNameInjective | lib/i18nDictionary.js:63-65 | When the chunk's path contains `[locale]`, distinct locales get distinct asset names. |
| I18nDictionary.FileNameWithoutPlaceholder | lib/i18nDictionary.js:63-65 | When the path has no `[locale]`, every locale gets the path itself, so later locales overwrite earlier ones. |
| I18nDictionary.PutAllLastWins | lib/i18nDictionary.js:68 | After a sequence of asset assignments, a name holds the value of its last assignment. |
| I18nDictionary.PutAllElsewhere | lib/i18nDictionary.js:68 | A name never assigned keeps its old asset. |
| I18nDictionary.PutAllAppend | lib/i18nDictionary.js:68 | Assigning in two batches is assigning both, in order. |
| I18nDictionary.ViewPutAll | lib/i18nDictionary.js:68 | Assigning buckets as assets, seen by contents, is assigning their children. |
| JsValues.ReplaceFirst | lib/i18nDictionary.js:65 | `replace('[locale]', locale)`: with no occurrence the string is unchanged. Otherwise the first occurrence, and only it, is replaced. |
| JsValues.FindFirst | lib/i18nDictionary.js:65 | The position of the first occurrence of the pattern, or none when it never occurs. |
| JSONConcatSources.JSONConcatSource.constructor | lib/JSONConcatSource.js:10-13 | The children are the arguments, in order. |
| JSONConcatSources.JSONConcatSource.Add | lib/JSONConcatSource.js:18-20 | Appends exactly one child at the end. The size grows by that child's size. |
| JSONConcatSources.JSONConcatSource.Source | lib/JSONConcatSource.js:22-30 | Returns `JSON.stringify` of the object `Combined` builds from the children (each child's key mapped to its JSON, the last child with a key winning), or the error a string child raises. |
| JSONConcatSources.CombinedFails | lib/JSONConcatSource.js:25-27 | `source()` succeeds exactly when every child is a JSON source. A string child fails with its missing `key` method. |
| JSONConcatSources.CombinedKeys | lib/JSONConcatSource.js:23-29 | The combined object has exactly one entry per distinct child key, in first-seen order. |
| JSONConcatSources.CombinedLastWins | lib/JSONConcatSource.js:25-27 | A key holds the JSON of the last child with that key, replaced wholesale, with no merge. |
| JSONConcatSources.CombinedLast | lib/JSONConcatSource.js:25-27 | The last child overwrites its key in what the earlier children combined to. |
| JSONConcatSources.CombinedDistinctKeys | lib/JSONConcatSource.js:25-27 | With distinct keys, the object's keys are the children's keys in order, and each holds its own child's JSON. |
| JSONConcatSources.DistinctKeyWins | lib/JSONConcatSource.js:25-27 | With distinct keys, each child appears under its own key with its own JSON. |
| JSONConcatSources.CombinedErrPersists | lib/JSONConcatSource.js:25-27 | Once a child throws, later children change nothing. |
| JSONConcatSources.TotalSizeAppend | lib/JSONConcatSource.js:32-38 | `size()` of a concatenation is the sum of the sizes of the parts, with string children counting their length. |
| JSONConcatSources.JSONConcatSource.Size | lib/JSONConcatSource.js:32-38 | `size()` is `TotalSize` of the children, the sum from 0 in which a string child counts its length and a source child its own `size()`. `TotalSizeAppend` proves it additive, and `Add` grows it by exactly one child's size. |
| JSONConcatSources.JSONConcatSource.UpdateHash | lib/JSONConcatSource.js:40-44 | Every child, in order, updates the hash once with its serialisation. It passes exactly when every child is a source; at the first string child it fails, with the missing `updateHash`, after the children before it. |
| JSONConcatSources.LeadingSources | lib/JSONConcatSource.js:41-43 | The children before the first string child are all sources. |
| JSONSources.NewJSONSource | lib/JSONSource.js:16-21 | Keeps the key and the value, and stores the serialisation of the value, computed once. |
| JSONSources.JSONSource.UpdateHash | lib/JSONSource.js:38-40 | Exactly one hash update, with the string `source()` returns. |
| JSONSources.Hash.Update | lib/JSONSource.js:39 | A hash update appends the string to the hash's log. |

## Left out

- Plugin lifecycle: `apply`, the compiler and compilation hooks, `setUpNamespace`, constructor options and the loader are outside this model. Asynchrony and the `err` callbacks are modelled as plain sequential calls.
- `compilation.applyPlugins("optimize-extracted-chunks", ...)` (index.js:154) calls into webpack and is left out.
- `JSON.stringify`, `compilation.getPath` and webpack's hash are abstract. They are a function parameter, a function field and an append-only log.
- `Module.source` (a webpack `RawSource` of the JSON) and `rewriteChunkInReasons` (empty) are not modelled.
- `Source.prototype.size` of webpack-sources is taken as the length of the serialisation in characters, not bytes.
- JavaScript objects are modelled as a key order plus a map. Keys inherited from the prototype are not modelled. Neither is the ordering rule that puts integer-like keys first.
- `String.prototype.replace` with `$` patterns in the locale is not modelled: the locale is inserted literally.
- The self-link check of webpack's `Chunk.addChunk` and `addParent` is not modelled.
- `chunk.mapModules()` is taken to be the chunk's module list in order.
- Plugin.Link: models the evident intent of index.js:172-173, linking the module and the root on both sides. The `TypeError` that the missing `module.addChunk` raises in the code as written is not modelled.
- I18nModule.Chunk.RemoveModule: models the evident intent, dropping the chunk from the module's list too. The `TypeError` that the missing `module.removeChunk` raises in the code as written is not modelled.
- Plugin.CopyChunks: requires every child and parent of an original to be among the originals. Otherwise `indexOf` gives -1 and the copy list is indexed at -1, which the model does not follow.
- Plugin.PostProcessChunks: the search orders are returned as ghost values. The module lists are stated up to that order, which `Searched` pins down only as a duplicate-free enumeration of the reachable chunks.
- Plugin.MergeInto: `checkedChunks` is passed in and returned as a value, not shared by reference.
- I18nModule.Module.ExtractLocales: returns the locale object as a new value holding the same bucket objects, rather than the same JavaScript object.
- I18nModule.Module.ExtractLocales: the call to the missing `addDefault` is modelled as a returned error. In JavaScript it is a thrown `TypeError` that aborts the build.
- I18nDictionary.Dictionary.BuildAndAddAssets: the callback is not modelled. A throwing extraction is reported as the returned outcome, and the assets and files of earlier chunks stay assigned.
- Plugin.ProcessChunk: stated for one chunk. The `async.forEach` over all chunks, with its error propagation, is not modelled.
