/**
 * The plugin's chunk work (index.js): copying the compilation's chunks into
 * chunk copies wired like the originals, registering each chunk's i18n
 * modules with the dictionary, and the post-processing that merges every
 * non-root chunk's modules into each root chunk that reaches it and then
 * empties the non-root chunks.
 *
 * Chunks are compared by position in the list of copies: the copy graph as a
 * value (`GraphOf`) has positions for nodes, and the merge is proved against
 * the depth-first search state of ChunkGraph.
 */
module Plugin {
  import opened Wrappers
  import opened Seqs
  import opened JsValues
  import opened ChunkGraph
  import opened Host
  import opened I18nModule
  import opened I18nDictionary

  /** `isInitialOrHasNoParents(chunk)`: the chunks the merge collects into. */
  predicate IsInitialOrHasNoParents(c: Chunk)
    reads c`parents
  {
    c.initial || |c.parents| == 0
  }

  /** Each element's position in `all`, by `indexOf`. */
  function Positions<T(==)>(all: seq<T>, xs: seq<T>): (ps: seq<int>)
    ensures |ps| == |xs| && forall j :: 0 <= j < |xs| ==> ps[j] == IndexOf(all, xs[j])
  {
    seq(|xs|, j requires 0 <= j < |xs| => IndexOf(all, xs[j]))
  }

  /**
   * In a duplicate-free list, an element of the list is among xs exactly when
   * its position is among the positions of xs.
   */
  lemma PositionsMember<T>(all: seq<T>, xs: seq<T>, x: T)
    requires NoDup(all) && x in all && Elems(xs) <= Elems(all)
    ensures x in xs <==> IndexOf(all, x) in Positions(all, xs)
  {
    if IndexOf(all, x) in Positions(all, xs) {
      var j :| 0 <= j < |xs| && Positions(all, xs)[j] == IndexOf(all, x);
      assert xs[j] in Elems(all);
    }
  }

  /** The copy graph as a value: each copy's children by position, and the positions of root copies. */
  ghost function GraphOf(copies: seq<Chunk>): Graph<int>
    reads Elems(copies)`chunks, Elems(copies)`parents
  {
    Graph(map i | 0 <= i < |copies| :: Positions(copies, copies[i].chunks),
          set i | 0 <= i < |copies| && IsInitialOrHasNoParents(copies[i]))
  }

  /** The copies are distinct and every child of a copy is a copy. */
  ghost predicate Wired(copies: seq<Chunk>)
    reads Elems(copies)`chunks
  {
    && NoDup(copies)
    && forall c, d :: c in copies && d in c.chunks ==> d in copies
  }

  // ---------------------------------------------------------------------
  // copyChunks
  // ---------------------------------------------------------------------

  /** For each original, the copy at that original's position (`chunkCopyList[originalChunkList.indexOf(o)]`). */
  function CopiesOf(copies: seq<Chunk>, originals: seq<HostChunk>, os: seq<HostChunk>): (cs: seq<Chunk>)
    requires |copies| == |originals| && Elems(os) <= Elems(originals)
    ensures |cs| == |os|
    ensures forall j :: 0 <= j < |os| ==> os[j] in originals && cs[j] == copies[IndexOf(originals, os[j])]
  {
    assert forall j :: 0 <= j < |os| ==> os[j] in Elems(os);
    seq(|os|, j requires 0 <= j < |os| && Elems(os) <= Elems(originals) =>
                assert os[j] in Elems(originals); copies[IndexOf(originals, os[j])])
  }

  /** Every child and parent of an original is itself among the originals. */
  ghost predicate ClosedList(originals: seq<HostChunk>)
    reads Elems(originals)`chunks, Elems(originals)`parents
  {
    forall o :: o in originals ==> Elems(o.chunks) <= Elems(originals) && Elems(o.parents) <= Elems(originals)
  }

  /**
   * `copyChunks(originalChunkList)`: one fresh copy per original, in order,
   * carrying the original's name, entry-point status and identity and its
   * own position as index; copy i's children and parents are the copies at
   * the positions of original i's children and parents, each added once.
   */
  method CopyChunks(originals: seq<HostChunk>) returns (copies: seq<Chunk>)
    requires ClosedList(originals)
    ensures |copies| == |originals| && NoDup(copies)
    ensures forall i :: 0 <= i < |copies| ==> fresh(copies[i])
    ensures forall i :: 0 <= i < |copies| ==>
              && copies[i].index == i
              && copies[i].name == originals[i].name
              && copies[i].originalChunk == originals[i]
              && copies[i].initial == originals[i].initial
              && copies[i].modules == []
    ensures forall i :: 0 <= i < |copies| ==>
              && copies[i].chunks == AddAll([], CopiesOf(copies, originals, originals[i].chunks))
              && copies[i].parents == AddAll([], CopiesOf(copies, originals, originals[i].parents))
  {
    copies := NewCopies(originals);
    var i := 0;
    while i < |originals|
      invariant 0 <= i <= |originals| && |copies| == |originals| && NoDup(copies)
      invariant forall k :: 0 <= k < |copies| ==> fresh(copies[k])
      invariant Unlinked(copies, originals)
      invariant LinkedBefore(copies, originals, i)
    {
      LinkNext(originals, copies, i, copies[i]);
      i := i + 1;
    }
  }

  /** Copy k carries original k's name, identity and entry status, and holds no modules. */
  ghost predicate Unlinked(copies: seq<Chunk>, originals: seq<HostChunk>)
    reads Elems(copies)`modules
  {
    && |copies| == |originals|
    && forall k :: 0 <= k < |copies| ==>
         && copies[k].name == originals[k].name
         && copies[k].originalChunk == originals[k]
         && copies[k].initial == originals[k].initial
         && copies[k].modules == []
  }

  /** The copies before position i are linked, and the others have no children or parents yet. */
  ghost predicate LinkedBefore(copies: seq<Chunk>, originals: seq<HostChunk>, i: int)
    requires ClosedList(originals) && |copies| == |originals|
    reads Elems(copies)`index, Elems(copies)`chunks, Elems(copies)`parents, Elems(originals)`chunks, Elems(originals)`parents
  {
    && (forall k :: 0 <= k < i && k < |copies| ==>
          && copies[k].index == k
          && copies[k].chunks == AddAll([], CopiesOf(copies, originals, originals[k].chunks))
          && copies[k].parents == AddAll([], CopiesOf(copies, originals, originals[k].parents)))
    && (forall k :: i <= k < |copies| && 0 <= k ==> copies[k].chunks == [] && copies[k].parents == [])
  }

  /** One iteration of copyChunks' second loop, on the linking state. */
  method LinkNext(originals: seq<HostChunk>, copies: seq<Chunk>, i: int, copy: Chunk)
    requires ClosedList(originals) && 0 <= i < |copies| == |originals| && NoDup(copies) && copy == copies[i]
    requires LinkedBefore(copies, originals, i)
    modifies copy`index, copy`chunks, copy`parents
    ensures LinkedBefore(copies, originals, i + 1)
  {
    assert originals[i] in originals;
    LinkCopy(originals, copies, i, copy);
    forall k | 0 <= k < |copies| && k != i ensures copies[k] != copy {
      assert copies[k] != copies[i];
    }
  }

  /** copyChunks' first loop: a fresh, unlinked copy of each original, in order. */
  method NewCopies(originals: seq<HostChunk>) returns (copies: seq<Chunk>)
    ensures |copies| == |originals| && NoDup(copies)
    ensures forall i :: 0 <= i < |copies| ==> fresh(copies[i])
    ensures forall i :: 0 <= i < |copies| ==>
              && copies[i].name == originals[i].name
              && copies[i].originalChunk == originals[i]
              && copies[i].initial == originals[i].initial
              && copies[i].modules == [] && copies[i].chunks == [] && copies[i].parents == []
  {
    copies := [];
    var i := 0;
    while i < |originals|
      invariant 0 <= i <= |originals| && |copies| == i && NoDup(copies)
      invariant forall k :: 0 <= k < i ==> fresh(copies[k])
      invariant forall k :: 0 <= k < i ==>
                  && copies[k].name == originals[k].name
                  && copies[k].originalChunk == originals[k]
                  && copies[k].initial == originals[k].initial
                  && copies[k].modules == [] && copies[k].chunks == [] && copies[k].parents == []
    {
      var copy := new Chunk(originals[i]);
      copies := copies + [copy];
      i := i + 1;
    }
  }

  /**
   * With distinct originals and duplicate-free lists, the copies at the
   * positions of os are distinct, so adding each once keeps them all, and
   * each sits at the same position among the copies as its original among
   * the originals.
   */
  lemma CopiesOfSamePositions(copies: seq<Chunk>, originals: seq<HostChunk>, os: seq<HostChunk>)
    requires |copies| == |originals| && NoDup(copies) && NoDup(originals)
    requires Elems(os) <= Elems(originals) && NoDup(os)
    ensures AddAll([], CopiesOf(copies, originals, os)) == CopiesOf(copies, originals, os)
    ensures Positions(copies, CopiesOf(copies, originals, os)) == Positions(originals, os)
  {
    var cs := CopiesOf(copies, originals, os);
    forall j | 0 <= j < |os| ensures IndexOf(copies, cs[j]) == IndexOf(originals, os[j]) {
      IndexOfDistinct(copies, IndexOf(originals, os[j]));
    }
    CopiesOfDistinct(copies, originals, os);
    assert [] + cs == cs;
    AddAllDistinct([], cs);
  }

  /** Distinct originals have distinct copies. */
  lemma CopiesOfDistinct(copies: seq<Chunk>, originals: seq<HostChunk>, os: seq<HostChunk>)
    requires |copies| == |originals| && NoDup(copies) && NoDup(originals)
    requires Elems(os) <= Elems(originals) && NoDup(os)
    ensures NoDup(CopiesOf(copies, originals, os))
  {
    var cs := CopiesOf(copies, originals, os);
    forall j, k | 0 <= j < k < |cs| ensures cs[j] != cs[k] {
      assert IndexOf(originals, os[j]) != IndexOf(originals, os[k]);
    }
  }

  /**
   * The copies have the shape of the originals: by position, copy i's
   * children and parents are original i's children and parents, so the copy
   * graph is the original graph; and copy i is a root exactly when original
   * i is an entry chunk or has no parents.
   */
  lemma CopiesMirrorOriginals(originals: seq<HostChunk>, copies: seq<Chunk>)
    requires ClosedList(originals) && NoDup(originals)
    requires forall o :: o in originals ==> NoDup(o.chunks) && NoDup(o.parents)
    requires |copies| == |originals| && NoDup(copies)
    requires forall i :: 0 <= i < |copies| ==>
               && copies[i].initial == originals[i].initial
               && copies[i].chunks == AddAll([], CopiesOf(copies, originals, originals[i].chunks))
               && copies[i].parents == AddAll([], CopiesOf(copies, originals, originals[i].parents))
    ensures forall i :: 0 <= i < |copies| ==>
              && Positions(copies, copies[i].chunks) == Positions(originals, originals[i].chunks)
              && Positions(copies, copies[i].parents) == Positions(originals, originals[i].parents)
              && (IsInitialOrHasNoParents(copies[i]) <==> originals[i].initial || |originals[i].parents| == 0)
    ensures forall i :: 0 <= i < |originals| ==>
              i in GraphOf(copies).succ && GraphOf(copies).succ[i] == Positions(originals, originals[i].chunks)
  {
    forall i | 0 <= i < |copies|
      ensures Positions(copies, copies[i].chunks) == Positions(originals, originals[i].chunks)
      ensures Positions(copies, copies[i].parents) == Positions(originals, originals[i].parents)
      ensures IsInitialOrHasNoParents(copies[i]) <==> originals[i].initial || |originals[i].parents| == 0
    {
      assert originals[i] in originals;
      CopiesOfSamePositions(copies, originals, originals[i].chunks);
      CopiesOfSamePositions(copies, originals, originals[i].parents);
    }
  }

  /** One iteration of copyChunks' second loop: set copy i's index, then its children, then its parents. */
  method LinkCopy(originals: seq<HostChunk>, copies: seq<Chunk>, i: int, copy: Chunk)
    requires |copies| == |originals| && 0 <= i < |copies| && copy == copies[i]
    requires Elems(originals[i].chunks) <= Elems(originals) && Elems(originals[i].parents) <= Elems(originals)
    requires copy.chunks == [] && copy.parents == []
    modifies copy`index, copy`chunks, copy`parents
    ensures copy.index == i
    ensures copy.chunks == AddAll([], CopiesOf(copies, originals, originals[i].chunks))
    ensures copy.parents == AddAll([], CopiesOf(copies, originals, originals[i].parents))
  {
    copy.index := i;
    LinkChildren(originals, copies, originals[i].chunks, copy);
    LinkParents(originals, copies, originals[i].parents, copy);
  }

  /** `original.chunks.forEach(c => copy.addChunk(chunkCopyList[originalChunkList.indexOf(c)]))`. */
  method LinkChildren(originals: seq<HostChunk>, copies: seq<Chunk>, children: seq<HostChunk>, copy: Chunk)
    requires |copies| == |originals| && Elems(children) <= Elems(originals)
    modifies copy`chunks
    ensures copy.chunks == AddAll(old(copy.chunks), CopiesOf(copies, originals, children))
  {
    ghost var kids := CopiesOf(copies, originals, children);
    var j := 0;
    while j < |children|
      invariant 0 <= j <= |children|
      invariant copy.chunks == AddAll(old(copy.chunks), kids[..j])
    {
      var _ := copy.AddChunk(copies[IndexOf(originals, children[j])]);
      assert kids[..j + 1] == kids[..j] + [kids[j]];
      AddAllSnoc(old(copy.chunks), kids[..j], kids[j]);
      j := j + 1;
    }
    assert kids[..j] == kids;
  }

  /** `original.parents.forEach(p => copy.addParent(chunkCopyList[originalChunkList.indexOf(p)]))`. */
  method LinkParents(originals: seq<HostChunk>, copies: seq<Chunk>, parents: seq<HostChunk>, copy: Chunk)
    requires |copies| == |originals| && Elems(parents) <= Elems(originals)
    modifies copy`parents
    ensures copy.parents == AddAll(old(copy.parents), CopiesOf(copies, originals, parents))
  {
    ghost var pars := CopiesOf(copies, originals, parents);
    var j := 0;
    while j < |parents|
      invariant 0 <= j <= |parents|
      invariant copy.parents == AddAll(old(copy.parents), pars[..j])
    {
      var _ := copy.AddParent(copies[IndexOf(originals, parents[j])]);
      assert pars[..j + 1] == pars[..j] + [pars[j]];
      AddAllSnoc(old(copy.parents), pars[..j], pars[j]);
      j := j + 1;
    }
    assert pars[..j] == pars;
  }

  // ---------------------------------------------------------------------
  // mergeNonInitialChunks
  // ---------------------------------------------------------------------

  /**
   * The module lists at positions ps, one after another: what a search that
   * checks the chunks at ps, in that order, pulls into its root.
   */
  function Gathered(lists: seq<seq<Module>>, ps: seq<int>): seq<Module>
    decreases |ps|
  {
    if |ps| == 0 then []
    else Gathered(lists, ps[..|ps| - 1]) + (if 0 <= ps[|ps| - 1] < |lists| then lists[ps[|ps| - 1]] else [])
  }

  lemma {:induction false} GatheredAppend(lists: seq<seq<Module>>, a: seq<int>, b: seq<int>)
    ensures Gathered(lists, a + b) == Gathered(lists, a) + Gathered(lists, b)
    decreases |b|
  {
    if |b| == 0 {
      assert a + b == a;
    } else {
      var init := b[..|b| - 1];
      var tail := if 0 <= b[|b| - 1] < |lists| then lists[b[|b| - 1]] else [];
      assert (a + b)[..|a + b| - 1] == a + init;
      assert (a + b)[|a + b| - 1] == b[|b| - 1];
      GatheredAppend(lists, a, init);
      assert Gathered(lists, b) == Gathered(lists, init) + tail;
      assert Gathered(lists, a + b) == Gathered(lists, a + init) + tail;
    }
  }

  /**
   * Every non-root copy still holds the modules recorded for its position:
   * the merge only ever adds to root chunks, so a snapshot taken before it
   * describes every chunk it reads.
   */
  ghost predicate Unmerged(copies: seq<Chunk>, lists: seq<seq<Module>>)
    reads Elems(copies)`modules, Elems(copies)`parents
  {
    && |lists| == |copies|
    && forall k :: 0 <= k < |copies| && !IsInitialOrHasNoParents(copies[k]) ==> copies[k].modules == lists[k]
  }

  /**
   * The body of the forEach at index.js:171-174: `intoChunk.addModule(module)`
   * and then the module's side of the link. index.js:173 calls
   * `module.addChunk(intoChunk)`, which the i18n Module does not define; its
   * evident intent, joining the chunk at most once, is Module.addToChunk.
   * Either way the link is added on both sides at most once.
   */
  method Link(into: Chunk, m: Module, ghost U: set<Chunk>, ghost mods: set<Module>)
    requires into in U && m in mods && Consistent(U, mods)
    modifies into`modules, m`chunks
    ensures into.modules == AddIfAbsent(old(into.modules), m)
    ensures m.chunks == AddIfAbsent(old(m.chunks), into)
    ensures Consistent(U, mods)
  {
    var added := into.AddModule(m);
    if added {
      assert into !in m.chunks;
      var _ := m.AddToChunk(into, U, mods);
      assert m.chunks == old(m.chunks) + [into];
      assert NoDup(into.modules) && NoDup(m.chunks);
    } else {
      var _ := m.AddToChunk(into, U, mods);
    }
  }

  /**
   * Each module's chunk list against back, what it was before merging into
   * began: a module into now holds has into added once at the end, unless it
   * was already there; any other module's list is as it was.
   */
  ghost predicate BackLinked(into: Chunk, mods: set<Module>, back: map<Module, seq<Chunk>>)
    reads into`modules, mods`chunks
  {
    forall m :: m in mods ==> m in back && m.chunks == if m in into.modules then AddIfAbsent(back[m], into) else back[m]
  }

  /**
   * `chunk.modules.slice().forEach(...)`: every module of chunk joins into,
   * in order, and into joins the chunk list of each of them.
   */
  method MergeModules(chunk: Chunk, into: Chunk, ghost U: set<Chunk>, ghost mods: set<Module>,
                      ghost back: map<Module, seq<Chunk>>)
    requires chunk in U && into in U && chunk != into && Consistent(U, mods) && BackLinked(into, mods, back)
    modifies into`modules, mods`chunks
    ensures into.modules == AddAll(old(into.modules), chunk.modules)
    ensures forall m :: m in mods ==> m.chunks == if m in chunk.modules then AddIfAbsent(old(m.chunks), into) else old(m.chunks)
    ensures Consistent(U, mods) && BackLinked(into, mods, back)
  {
    var ms := chunk.modules;
    ghost var start := map m | m in mods :: m.chunks;
    ghost var intoStart := into.modules;
    var i := 0;
    while i < |ms|
      invariant 0 <= i <= |ms| && chunk.modules == ms
      invariant Consistent(U, mods) && JoinProgress(into, ms, i, mods, back, start, intoStart)
    {
      assert ms[i] in Elems(chunk.modules) && Elems(chunk.modules) <= mods;
      JoinNext(into, ms, i, U, mods, back, start, intoStart);
      i := i + 1;
    }
    assert ms[..i] == ms;
  }

  /** MergeModules after the first i modules of ms: each has joined into, and into each of their chunk lists. */
  ghost predicate JoinProgress(into: Chunk, ms: seq<Module>, i: int, mods: set<Module>,
                               back: map<Module, seq<Chunk>>, start: map<Module, seq<Chunk>>, intoStart: seq<Module>)
    reads into`modules, mods`chunks
  {
    && 0 <= i <= |ms|
    && into.modules == AddAll(intoStart, ms[..i])
    && (forall m :: m in mods ==> m in start && m.chunks == if m in ms[..i] then AddIfAbsent(start[m], into) else start[m])
    && BackLinked(into, mods, back)
  }

  /** One iteration of MergeModules: the i-th module and into are linked. */
  method JoinNext(into: Chunk, ms: seq<Module>, i: int, ghost U: set<Chunk>, ghost mods: set<Module>,
                  ghost back: map<Module, seq<Chunk>>, ghost start: map<Module, seq<Chunk>>, ghost intoStart: seq<Module>)
    requires into in U && 0 <= i < |ms| && ms[i] in mods
    requires Consistent(U, mods) && JoinProgress(into, ms, i, mods, back, start, intoStart)
    modifies into`modules, mods`chunks
    ensures Consistent(U, mods) && JoinProgress(into, ms, i + 1, mods, back, start, intoStart)
  {
    var x := ms[i];
    ghost var pre := map m | m in mods :: m.chunks;
    ghost var preInto := into.modules;
    Link(into, x, U, mods);
    forall m | m in mods ensures m.chunks == if m == x then AddIfAbsent(pre[m], into) else pre[m] {
      if m != x {
        assert m.chunks == old(m.chunks);
      }
    }
    JoinStep(into, ms, i, mods, back, start, intoStart, pre, preInto);
  }

  /** JoinNext's reasoning after the link, on the chunk lists and into's modules just before it. */
  lemma JoinStep(into: Chunk, ms: seq<Module>, i: int, mods: set<Module>, back: map<Module, seq<Chunk>>,
                 start: map<Module, seq<Chunk>>, intoStart: seq<Module>, pre: map<Module, seq<Chunk>>, preInto: seq<Module>)
    requires 0 <= i < |ms| && ms[i] in mods
    requires preInto == AddAll(intoStart, ms[..i])
    requires forall m :: m in mods ==>
               && m in pre && m in start && m in back
               && pre[m] == (if m in ms[..i] then AddIfAbsent(start[m], into) else start[m])
               && pre[m] == (if m in preInto then AddIfAbsent(back[m], into) else back[m])
    requires into.modules == AddIfAbsent(preInto, ms[i])
    requires forall m :: m in mods ==> m.chunks == if m == ms[i] then AddIfAbsent(pre[m], into) else pre[m]
    ensures JoinProgress(into, ms, i + 1, mods, back, start, intoStart)
  {
    var x := ms[i];
    assert ms[..i + 1] == ms[..i] + [x];
    AddAllSnoc(intoStart, ms[..i], x);
    forall m | m in mods
      ensures m.chunks == if m in ms[..i + 1] then AddIfAbsent(start[m], into) else start[m]
      ensures m.chunks == if m in into.modules then AddIfAbsent(back[m], into) else back[m]
    {
      if m != x {
        assert m in ms[..i + 1] <==> m in ms[..i];
        assert m in into.modules <==> m in preInto;
      }
    }
  }

  /** Positions of a prefix are among the positions of the whole. */
  lemma PositionsPrefix<T>(all: seq<T>, a: seq<T>, b: seq<T>)
    requires a <= b
    ensures Elems(Positions(all, a)) <= Elems(Positions(all, b))
  {
    forall k | k in Elems(Positions(all, a)) ensures k in Elems(Positions(all, b)) {
      var j :| 0 <= j < |a| && Positions(all, a)[j] == k;
      assert Positions(all, b)[j] == k;
    }
  }

  /** The positions of a prefix are the prefix of the positions. */
  lemma PositionsOfPrefix<T>(all: seq<T>, a: seq<T>, b: seq<T>)
    requires a <= b
    ensures Positions(all, a) == Positions(all, b)[..|a|]
  {
  }

  /** Gathering the newly checked chunks in two rounds is gathering them in one. */
  lemma GatheredInTwo(start: seq<Module>, lists: seq<seq<Module>>, ps: seq<int>, x: int, y: int)
    requires 0 <= x <= y <= |ps|
    ensures AddAll(AddAll(start, Gathered(lists, ps[..y][x..])), Gathered(lists, ps[y..]))
         == AddAll(start, Gathered(lists, ps[x..]))
  {
    assert ps[x..] == ps[..y][x..] + ps[y..];
    GatheredAppend(lists, ps[..y][x..], ps[y..]);
    AddAllConcat(start, Gathered(lists, ps[..y][x..]), Gathered(lists, ps[y..]));
  }

  /** The non-root nodes among the first n children of node p are all in s. */
  ghost predicate FirstChildrenIn(g: Graph<int>, p: int, n: int, s: set<int>)
    requires p in g.succ && n <= |g.succ[p]|
  {
    forall k :: 0 <= k < n && g.succ[p][k] !in g.roots ==> g.succ[p][k] in s
  }

  /** The children loop's step: the earlier children stay found, and child n is found. */
  lemma NextChildIn(g: Graph<int>, p: int, n: int, a: set<int>, b: set<int>)
    requires p in g.succ && 0 <= n < |g.succ[p]| && a <= b
    requires FirstChildrenIn(g, p, n, a)
    requires g.succ[p][n] !in g.roots ==> g.succ[p][n] in b
    ensures FirstChildrenIn(g, p, n + 1, b)
  {
  }

  /** After the children loop every non-root child is found. */
  lemma AllChildrenIn(g: Graph<int>, p: int, s: set<int>)
    requires p in g.succ && FirstChildrenIn(g, p, |g.succ[p]|, s)
    ensures ChildrenIn(g, p, s)
  {
    forall k | k in g.succ[p] && k !in g.roots ensures k in s {
      var j :| 0 <= j < |g.succ[p]| && g.succ[p][j] == k;
    }
  }

  /**
   * What the graph says about the i-th child of a copy: it is a copy, its
   * position is the i-th successor, it is a root node exactly when it is a
   * root chunk, and a root that reaches the copy reaches it too when it is
   * not a root.
   */
  lemma ChildFacts(copies: seq<Chunk>, g: Graph<int>, chunk: Chunk, i: int, r: int)
    requires Wired(copies) && g == GraphOf(copies) && chunk in copies && 0 <= i < |chunk.chunks|
    requires Reaches(g, r, IndexOf(copies, chunk))
    ensures IndexOf(copies, chunk) in g.succ && i < |g.succ[IndexOf(copies, chunk)]|
    ensures chunk.chunks[i] in copies && g.succ[IndexOf(copies, chunk)][i] == IndexOf(copies, chunk.chunks[i])
    ensures IndexOf(copies, chunk.chunks[i]) in g.roots <==> IsInitialOrHasNoParents(chunk.chunks[i])
    ensures !IsInitialOrHasNoParents(chunk.chunks[i]) ==> Reaches(g, r, IndexOf(copies, chunk.chunks[i]))
  {
    var p := IndexOf(copies, chunk);
    var c := chunk.chunks[i];
    assert c in copies;
    var q := IndexOf(copies, c);
    assert copies[q] == c;
    if !IsInitialOrHasNoParents(c) {
      ReachesStep(g, r, p, q);
    }
  }

  /** Checking one more position leaves fewer positions unchecked. */
  lemma Shrinks(keys: set<int>, a: seq<int>, b: seq<int>, p: int)
    requires p in keys && p !in a && p in b && Elems(a) <= Elems(b)
    ensures keys - Elems(b) < keys - Elems(a)
  {
    assert p in keys - Elems(a) && p !in keys - Elems(b);
  }

  /**
   * `mergeNonInitialChunks(chunk, intoChunk, checkedChunks)` with an
   * `intoChunk`: unless chunk was already checked, push it onto
   * checkedChunks, pull its modules into intoChunk, then recurse into each
   * child that is not a root, in order. checkedChunks is shared by the whole
   * search from one root; here it is passed in and handed back.
   *
   * Against the search from the root into: the chunks checked are distinct
   * non-root chunks the root reaches, every checked chunk not on the stack
   * has all its non-root children checked, chunk ends up checked, and into
   * gains exactly the modules of the newly checked chunks, in checking order.
   */
  method MergeInto(chunk: Chunk, into: Chunk, checked: seq<Chunk>, ghost copies: seq<Chunk>, ghost g: Graph<int>,
                   ghost lists: seq<seq<Module>>, ghost mods: set<Module>, ghost back: map<Module, seq<Chunk>>, ghost stack: set<int>)
    returns (checkedOut: seq<Chunk>)
    requires Wired(copies) && g == GraphOf(copies) && Unmerged(copies, lists) && Consistent(Elems(copies), mods)
    requires BackLinked(into, mods, back)
    requires chunk in copies && into in copies && IsInitialOrHasNoParents(into) && !IsInitialOrHasNoParents(chunk)
    requires NoDup(checked) && Elems(checked) <= Elems(copies)
    requires SearchState(g, IndexOf(copies, into), Positions(copies, checked), stack)
    requires Reaches(g, IndexOf(copies, into), IndexOf(copies, chunk))
    modifies into`modules, mods`chunks
    ensures checked <= checkedOut && IndexOf(copies, chunk) in Positions(copies, checkedOut)
    ensures chunk in checked ==>
              checkedOut == checked && into.modules == old(into.modules)
              && forall m :: m in mods ==> m.chunks == old(m.chunks)
    ensures NoDup(checkedOut) && Elems(checkedOut) <= Elems(copies)
    ensures SearchState(g, IndexOf(copies, into), Positions(copies, checkedOut), stack)
    ensures into.modules == AddAll(old(into.modules), Gathered(lists, Positions(copies, checkedOut)[|checked|..]))
    ensures Unmerged(copies, lists) && Consistent(Elems(copies), mods) && BackLinked(into, mods, back)
    decreases g.succ.Keys - Elems(Positions(copies, checked)), 3
  {
    checkedOut := checked;
    PositionsMember(copies, checked, chunk);
    if IndexOf(checked, chunk) >= 0 {
      assert Positions(copies, checkedOut)[|checked|..] == [];
      return;
    }
    checkedOut := VisitChunk(chunk, into, checked, copies, g, lists, mods, back, stack);
    checkedOut := MergeChildren(chunk, into, checked, checkedOut, copies, g, lists, mods, back, stack, old(into.modules));
    SearchPop(g, IndexOf(copies, into), Positions(copies, checkedOut), stack, IndexOf(copies, chunk));
  }

  /**
   * `checkedChunks.push(chunk)` and the module loop of index.js:171-174: an
   * unchecked chunk the root reaches is checked, stays on the search stack
   * while its children are searched, and its modules join the root.
   */
  method VisitChunk(chunk: Chunk, into: Chunk, checked: seq<Chunk>, ghost copies: seq<Chunk>, ghost g: Graph<int>,
                    ghost lists: seq<seq<Module>>, ghost mods: set<Module>, ghost back: map<Module, seq<Chunk>>, ghost stack: set<int>)
    returns (checkedOut: seq<Chunk>)
    requires Wired(copies) && g == GraphOf(copies) && Unmerged(copies, lists) && Consistent(Elems(copies), mods)
    requires BackLinked(into, mods, back)
    requires chunk in copies && into in copies && IsInitialOrHasNoParents(into) && !IsInitialOrHasNoParents(chunk)
    requires NoDup(checked) && Elems(checked) <= Elems(copies) && chunk !in checked
    requires IndexOf(copies, chunk) !in Positions(copies, checked)
    requires SearchState(g, IndexOf(copies, into), Positions(copies, checked), stack)
    requires Reaches(g, IndexOf(copies, into), IndexOf(copies, chunk))
    modifies into`modules, mods`chunks
    ensures checkedOut == checked + [chunk]
    ensures NoDup(checkedOut) && Elems(checkedOut) <= Elems(copies)
    ensures SearchState(g, IndexOf(copies, into), Positions(copies, checkedOut), stack + {IndexOf(copies, chunk)})
    ensures into.modules == AddAll(old(into.modules), Gathered(lists, Positions(copies, checkedOut)[|checked|..]))
    ensures Unmerged(copies, lists) && Consistent(Elems(copies), mods) && BackLinked(into, mods, back)
  {
    checkedOut := checked + [chunk];
    PushFacts(copies, g, lists, checked, chunk, IndexOf(copies, into), stack);
    MergeModules(chunk, into, Elems(copies), mods, back);
  }

  /** What checking one more chunk does to the search state and to what the search has gathered. */
  lemma PushFacts(copies: seq<Chunk>, g: Graph<int>, lists: seq<seq<Module>>, checked: seq<Chunk>, chunk: Chunk,
                  r: int, stack: set<int>)
    requires g == GraphOf(copies) && Unmerged(copies, lists)
    requires chunk in copies && !IsInitialOrHasNoParents(chunk)
    requires IndexOf(copies, chunk) !in Positions(copies, checked)
    requires SearchState(g, r, Positions(copies, checked), stack) && Reaches(g, r, IndexOf(copies, chunk))
    ensures SearchState(g, r, Positions(copies, checked + [chunk]), stack + {IndexOf(copies, chunk)})
    ensures Gathered(lists, Positions(copies, checked + [chunk])[|checked|..]) == chunk.modules
  {
    var p := IndexOf(copies, chunk);
    assert Positions(copies, checked + [chunk]) == Positions(copies, checked) + [p];
    SearchPush(g, r, Positions(copies, checked), stack, p);
    assert Positions(copies, checked + [chunk])[|checked|..] == [p];
    assert [p][..0] == [];
  }

  /**
   * The children loop of MergeInto (`chunk.chunks.forEach(...)` at
   * index.js:175-179): each child in order, its non-root children searched.
   * Afterwards every non-root child of chunk is checked.
   */
  method MergeChildren(chunk: Chunk, into: Chunk, checked: seq<Chunk>, checkedNow: seq<Chunk>,
                       ghost copies: seq<Chunk>, ghost g: Graph<int>, ghost lists: seq<seq<Module>>,
                       ghost mods: set<Module>, ghost back: map<Module, seq<Chunk>>, ghost stack: set<int>, ghost start: seq<Module>)
    returns (checkedOut: seq<Chunk>)
    requires Wired(copies) && g == GraphOf(copies) && Unmerged(copies, lists) && Consistent(Elems(copies), mods)
    requires BackLinked(into, mods, back)
    requires chunk in copies && into in copies && IsInitialOrHasNoParents(into)
    requires IndexOf(copies, chunk) !in Positions(copies, checked) && checked + [chunk] <= checkedNow
    requires NoDup(checkedNow) && Elems(checkedNow) <= Elems(copies)
    requires SearchState(g, IndexOf(copies, into), Positions(copies, checkedNow), stack + {IndexOf(copies, chunk)})
    requires Reaches(g, IndexOf(copies, into), IndexOf(copies, chunk))
    requires into.modules == AddAll(start, Gathered(lists, Positions(copies, checkedNow)[|checked|..]))
    modifies into`modules, mods`chunks
    ensures checkedNow <= checkedOut
    ensures NoDup(checkedOut) && Elems(checkedOut) <= Elems(copies)
    ensures SearchState(g, IndexOf(copies, into), Positions(copies, checkedOut), stack + {IndexOf(copies, chunk)})
    ensures ChildrenIn(g, IndexOf(copies, chunk), Elems(Positions(copies, checkedOut)))
    ensures into.modules == AddAll(start, Gathered(lists, Positions(copies, checkedOut)[|checked|..]))
    ensures Unmerged(copies, lists) && Consistent(Elems(copies), mods) && BackLinked(into, mods, back)
    decreases g.succ.Keys - Elems(Positions(copies, checked)), 2
  {
    ghost var r := IndexOf(copies, into);
    ghost var p := IndexOf(copies, chunk);
    assert p in g.succ && |g.succ[p]| == |chunk.chunks|;
    checkedOut := checkedNow;
    var i := 0;
    while i < |chunk.chunks|
      invariant 0 <= i <= |chunk.chunks|
      invariant ChildrenProgress(chunk, i, into, checked, checkedNow, checkedOut, copies, g, lists, mods, back, stack, start)
    {
      checkedOut := ChildStep(chunk, i, into, checked, checkedNow, checkedOut, copies, g, lists, mods, back, stack, start);
      i := i + 1;
    }
    AllChildrenIn(g, p, Elems(Positions(copies, checkedOut)));
  }

  /** The children loop of MergeInto after the first i children, with checkedOut the checked list so far. */
  ghost predicate ChildrenProgress(chunk: Chunk, i: int, into: Chunk, checked: seq<Chunk>, checkedNow: seq<Chunk>,
                                   checkedOut: seq<Chunk>, copies: seq<Chunk>, g: Graph<int>, lists: seq<seq<Module>>,
                                   mods: set<Module>, back: map<Module, seq<Chunk>>, stack: set<int>, start: seq<Module>)
    reads Elems(copies), mods, into
  {
    && checked <= checkedNow <= checkedOut
    && NoDup(checkedOut) && Elems(checkedOut) <= Elems(copies)
    && SearchState(g, IndexOf(copies, into), Positions(copies, checkedOut), stack + {IndexOf(copies, chunk)})
    && IndexOf(copies, chunk) in g.succ && 0 <= i <= |g.succ[IndexOf(copies, chunk)]|
    && FirstChildrenIn(g, IndexOf(copies, chunk), i, Elems(Positions(copies, checkedOut)))
    && into.modules == AddAll(start, Gathered(lists, Positions(copies, checkedOut)[|checked|..]))
    && Unmerged(copies, lists) && Consistent(Elems(copies), mods) && BackLinked(into, mods, back)
  }

  /** One turn of the children loop of MergeInto, on its progress predicate. */
  method ChildStep(chunk: Chunk, i: int, into: Chunk, checked: seq<Chunk>, ghost checkedNow: seq<Chunk>,
                   checkedSoFar: seq<Chunk>, ghost copies: seq<Chunk>, ghost g: Graph<int>, ghost lists: seq<seq<Module>>,
                   ghost mods: set<Module>, ghost back: map<Module, seq<Chunk>>, ghost stack: set<int>, ghost start: seq<Module>)
    returns (checkedOut: seq<Chunk>)
    requires Wired(copies) && g == GraphOf(copies)
    requires chunk in copies && into in copies && IsInitialOrHasNoParents(into) && 0 <= i < |chunk.chunks|
    requires IndexOf(copies, chunk) !in Positions(copies, checked) && checked + [chunk] <= checkedNow
    requires Reaches(g, IndexOf(copies, into), IndexOf(copies, chunk))
    requires IndexOf(copies, chunk) in g.succ && |g.succ[IndexOf(copies, chunk)]| == |chunk.chunks|
    requires ChildrenProgress(chunk, i, into, checked, checkedNow, checkedSoFar, copies, g, lists, mods, back, stack, start)
    modifies into`modules, mods`chunks
    ensures ChildrenProgress(chunk, i + 1, into, checked, checkedNow, checkedOut, copies, g, lists, mods, back, stack, start)
    decreases g.succ.Keys - Elems(Positions(copies, checked)), 1
  {
    checkedOut := MergeChild(chunk, i, into, checked, checkedSoFar, copies, g, lists, mods, back, stack, start);
  }

  /**
   * One iteration of the children loop of MergeInto: the i-th child of
   * chunk, skipped when it is a root, searched otherwise.
   */
  method MergeChild(chunk: Chunk, i: int, into: Chunk, checked: seq<Chunk>, checkedNow: seq<Chunk>,
                    ghost copies: seq<Chunk>, ghost g: Graph<int>, ghost lists: seq<seq<Module>>,
                    ghost mods: set<Module>, ghost back: map<Module, seq<Chunk>>, ghost stack: set<int>, ghost start: seq<Module>)
    returns (checkedOut: seq<Chunk>)
    requires Wired(copies) && g == GraphOf(copies) && Unmerged(copies, lists) && Consistent(Elems(copies), mods)
    requires BackLinked(into, mods, back)
    requires chunk in copies && into in copies && IsInitialOrHasNoParents(into) && 0 <= i < |chunk.chunks|
    requires IndexOf(copies, chunk) !in Positions(copies, checked) && checked + [chunk] <= checkedNow
    requires NoDup(checkedNow) && Elems(checkedNow) <= Elems(copies)
    requires SearchState(g, IndexOf(copies, into), Positions(copies, checkedNow), stack + {IndexOf(copies, chunk)})
    requires Reaches(g, IndexOf(copies, into), IndexOf(copies, chunk))
    requires into.modules == AddAll(start, Gathered(lists, Positions(copies, checkedNow)[|checked|..]))
    requires IndexOf(copies, chunk) in g.succ && |g.succ[IndexOf(copies, chunk)]| == |chunk.chunks|
    requires FirstChildrenIn(g, IndexOf(copies, chunk), i, Elems(Positions(copies, checkedNow)))
    modifies into`modules, mods`chunks
    ensures checkedNow <= checkedOut
    ensures IsInitialOrHasNoParents(chunk.chunks[i]) ==> checkedOut == checkedNow
    ensures NoDup(checkedOut) && Elems(checkedOut) <= Elems(copies)
    ensures SearchState(g, IndexOf(copies, into), Positions(copies, checkedOut), stack + {IndexOf(copies, chunk)})
    ensures FirstChildrenIn(g, IndexOf(copies, chunk), i + 1, Elems(Positions(copies, checkedOut)))
    ensures into.modules == AddAll(start, Gathered(lists, Positions(copies, checkedOut)[|checked|..]))
    ensures Unmerged(copies, lists) && Consistent(Elems(copies), mods) && BackLinked(into, mods, back)
    decreases g.succ.Keys - Elems(Positions(copies, checked)), 0
  {
    ghost var r := IndexOf(copies, into);
    ghost var p := IndexOf(copies, chunk);
    ChildFacts(copies, g, chunk, i, r);
    checkedOut := checkedNow;
    var c := chunk.chunks[i];
    if IsInitialOrHasNoParents(c) {
      NextChildIn(g, p, i, Elems(Positions(copies, checkedNow)), Elems(Positions(copies, checkedNow)));
      return;
    }
    assert checked <= checked + [chunk];
    PositionsPrefix(copies, checked, checkedNow);
    Shrinks(g.succ.Keys, Positions(copies, checked), Positions(copies, checkedNow), p);
    checkedOut := MergeInto(c, into, checkedNow, copies, g, lists, mods, back, stack + {p});
    PositionsOfPrefix(copies, checkedNow, checkedOut);
    GatheredInTwo(start, lists, Positions(copies, checkedOut), |checked|, |checkedNow|);
    PositionsPrefix(copies, checkedNow, checkedOut);
    NextChildIn(g, p, i, Elems(Positions(copies, checkedNow)), Elems(Positions(copies, checkedOut)));
  }

  /**
   * `mergeNonInitialChunks(chunk)` without an `intoChunk`, called on a root
   * chunk: a fresh checkedChunks list, then a search from each child that is
   * not a root, in order. The chunks checked are exactly the non-root chunks
   * the root reaches through non-root chunks, each once, and the root gains
   * their modules in checking order.
   */
  method MergeNonInitialChunks(root: Chunk, ghost copies: seq<Chunk>, ghost g: Graph<int>,
                               ghost lists: seq<seq<Module>>, ghost mods: set<Module>)
    returns (checked: seq<Chunk>)
    requires Wired(copies) && g == GraphOf(copies) && Unmerged(copies, lists) && Consistent(Elems(copies), mods)
    requires root in copies && IsInitialOrHasNoParents(root)
    modifies root`modules, mods`chunks
    ensures NoDup(checked) && Elems(checked) <= Elems(copies)
    ensures Searched(g, IndexOf(copies, root), Positions(copies, checked))
    ensures root.modules == AddAll(old(root.modules), Gathered(lists, Positions(copies, checked)))
    ensures forall m :: m in mods ==> m.chunks == if m in root.modules then AddIfAbsent(old(m.chunks), root) else old(m.chunks)
    ensures Unmerged(copies, lists) && Consistent(Elems(copies), mods)
  {
    ghost var r := IndexOf(copies, root);
    assert r in g.succ && |g.succ[r]| == |root.chunks|;
    ghost var back := map m | m in mods :: m.chunks;
    checked := [];
    var i := 0;
    while i < |root.chunks|
      invariant 0 <= i <= |root.chunks|
      invariant NoDup(checked) && Elems(checked) <= Elems(copies)
      invariant SearchState(g, r, Positions(copies, checked), {})
      invariant FirstChildrenIn(g, r, i, Elems(Positions(copies, checked)))
      invariant root.modules == AddAll(old(root.modules), Gathered(lists, Positions(copies, checked)))
      invariant Unmerged(copies, lists) && Consistent(Elems(copies), mods) && BackLinked(root, mods, back)
    {
      ghost var before := checked;
      checked := MergeRootChild(root, i, checked, copies, g, lists, mods, back, old(root.modules));
      PositionsPrefix(copies, before, checked);
      NextChildIn(g, r, i, Elems(Positions(copies, before)), Elems(Positions(copies, checked)));
      i := i + 1;
    }
    AllChildrenIn(g, r, Elems(Positions(copies, checked)));
    FinishedSearchIsReachableSet(g, r, Positions(copies, checked));
  }

  /** The visited positions are distinct and are exactly the nodes r reaches. */
  ghost predicate Searched(g: Graph<int>, r: int, visited: seq<int>) {
    NoDup(visited) && forall d :: d in visited <==> Reaches(g, r, d)
  }

  /** One iteration of the top-level children loop: the i-th child of root, searched unless it is a root. */
  method MergeRootChild(root: Chunk, i: int, checkedNow: seq<Chunk>, ghost copies: seq<Chunk>, ghost g: Graph<int>,
                        ghost lists: seq<seq<Module>>, ghost mods: set<Module>, ghost back: map<Module, seq<Chunk>>,
                        ghost start: seq<Module>)
    returns (checkedOut: seq<Chunk>)
    requires Wired(copies) && g == GraphOf(copies) && Unmerged(copies, lists) && Consistent(Elems(copies), mods)
    requires BackLinked(root, mods, back)
    requires root in copies && IsInitialOrHasNoParents(root) && 0 <= i < |root.chunks|
    requires NoDup(checkedNow) && Elems(checkedNow) <= Elems(copies)
    requires SearchState(g, IndexOf(copies, root), Positions(copies, checkedNow), {})
    requires root.modules == AddAll(start, Gathered(lists, Positions(copies, checkedNow)))
    modifies root`modules, mods`chunks
    ensures IndexOf(copies, root) in g.succ && i < |g.succ[IndexOf(copies, root)]|
    ensures checkedNow <= checkedOut
    ensures IsInitialOrHasNoParents(root.chunks[i]) ==> checkedOut == checkedNow
    ensures NoDup(checkedOut) && Elems(checkedOut) <= Elems(copies)
    ensures SearchState(g, IndexOf(copies, root), Positions(copies, checkedOut), {})
    ensures g.succ[IndexOf(copies, root)][i] !in g.roots ==> g.succ[IndexOf(copies, root)][i] in Positions(copies, checkedOut)
    ensures root.modules == AddAll(start, Gathered(lists, Positions(copies, checkedOut)))
    ensures Unmerged(copies, lists) && Consistent(Elems(copies), mods) && BackLinked(root, mods, back)
  {
    ghost var r := IndexOf(copies, root);
    RootChildFacts(copies, g, root, i);
    checkedOut := checkedNow;
    var c := root.chunks[i];
    if IsInitialOrHasNoParents(c) {
      return;
    }
    checkedOut := MergeInto(c, root, checkedNow, copies, g, lists, mods, back, {});
    ghost var ps := Positions(copies, checkedOut);
    PositionsOfPrefix(copies, checkedNow, checkedOut);
    assert ps[..|checkedNow|][0..] == Positions(copies, checkedNow) && ps[0..] == ps;
    GatheredInTwo(start, lists, ps, 0, |checkedNow|);
  }

  /** What the graph says about the i-th child of a root copy: the first step of a search from it. */
  lemma RootChildFacts(copies: seq<Chunk>, g: Graph<int>, root: Chunk, i: int)
    requires Wired(copies) && g == GraphOf(copies) && root in copies && 0 <= i < |root.chunks|
    ensures IndexOf(copies, root) in g.succ && i < |g.succ[IndexOf(copies, root)]|
    ensures root.chunks[i] in copies && g.succ[IndexOf(copies, root)][i] == IndexOf(copies, root.chunks[i])
    ensures IndexOf(copies, root.chunks[i]) in g.roots <==> IsInitialOrHasNoParents(root.chunks[i])
    ensures !IsInitialOrHasNoParents(root.chunks[i]) ==> Reaches(g, IndexOf(copies, root), IndexOf(copies, root.chunks[i]))
  {
    var p := IndexOf(copies, root);
    var c := root.chunks[i];
    assert c in copies;
    var q := IndexOf(copies, c);
    assert copies[q] == c;
    if !IsInitialOrHasNoParents(c) {
      ReachesChild(g, p, q);
    }
  }

  // ---------------------------------------------------------------------
  // postProcessChunks
  // ---------------------------------------------------------------------

  /** Each copy's module list, by position. */
  ghost function ModuleLists(cs: seq<Chunk>): (lists: seq<seq<Module>>)
    reads Elems(cs)`modules
    ensures |lists| == |cs| && forall k :: 0 <= k < |cs| ==> lists[k] == cs[k].modules
    decreases |cs|
  {
    if |cs| == 0 then [] else ModuleLists(cs[..|cs| - 1]) + [cs[|cs| - 1].modules]
  }

  /** A module is gathered from positions ps exactly when it is in the list at one of them. */
  lemma {:induction false} GatheredMembers(lists: seq<seq<Module>>, ps: seq<int>, m: Module)
    ensures m in Gathered(lists, ps) <==> exists j :: 0 <= j < |ps| && 0 <= ps[j] < |lists| && m in lists[ps[j]]
    decreases |ps|
  {
    if |ps| > 0 {
      var init := ps[..|ps| - 1];
      GatheredMembers(lists, init, m);
      if m in Gathered(lists, init) {
        var j :| 0 <= j < |init| && 0 <= init[j] < |lists| && m in lists[init[j]];
        assert ps[j] == init[j];
      }
      if exists j :: 0 <= j < |ps| && 0 <= ps[j] < |lists| && m in lists[ps[j]] {
        var j :| 0 <= j < |ps| && 0 <= ps[j] < |lists| && m in lists[ps[j]];
        if j < |init| {
          assert init[j] == ps[j];
        }
      }
    }
  }

  /**
   * The outcome of step 1 for the copy at position k: a root has searched
   * exactly the positions it reaches and gained their modules in that order;
   * any other copy is left as it was.
   */
  ghost predicate MergedAt(modules: seq<Module>, before: seq<Module>, root: bool, g: Graph<int>, k: int,
                           lists: seq<seq<Module>>, order: seq<int>)
  {
    if root then Searched(g, k, order) && modules == AddAll(before, Gathered(lists, order))
    else order == [] && modules == before
  }

  /**
   * Whatever order the search took, a merged root holds exactly its own
   * modules and those of the chunks it reaches through non-root chunks.
   */
  lemma MergedRootMembers(modules: seq<Module>, before: seq<Module>, g: Graph<int>, k: int,
                          lists: seq<seq<Module>>, order: seq<int>, m: Module)
    requires MergedAt(modules, before, true, g, k, lists, order)
    ensures m in modules <==> m in before || exists d :: Reaches(g, k, d) && 0 <= d < |lists| && m in lists[d]
  {
    AddAllMembers(before, Gathered(lists, order));
    GatheredMembers(lists, order, m);
    if exists d :: Reaches(g, k, d) && 0 <= d < |lists| && m in lists[d] {
      var d :| Reaches(g, k, d) && 0 <= d < |lists| && m in lists[d];
      assert d in order;
      var j :| 0 <= j < |order| && order[j] == d;
      assert 0 <= order[j] < |lists| && m in lists[order[j]];
    }
  }

  /**
   * Step 1 of `postProcessChunks`: `mergeNonInitialChunks` on every root
   * copy, in list order. The orders searched are returned as a ghost result.
   */
  method MergeAll(copies: seq<Chunk>, ghost mods: set<Module>) returns (ghost orders: seq<seq<int>>)
    requires Wired(copies) && Consistent(Elems(copies), mods)
    modifies Elems(copies)`modules, mods`chunks
    ensures |orders| == |copies|
    ensures AllMerged(GraphOf(copies), old(ModuleLists(copies)), ModuleLists(copies), orders)
    ensures forall m :: m in mods ==>
              m.chunks == AddAll(old(m.chunks), Holding(copies, GraphOf(copies).roots, ModuleLists(copies), m, |copies|))
    ensures GraphOf(copies) == old(GraphOf(copies))
    ensures Consistent(Elems(copies), mods)
  {
    ghost var lists := ModuleLists(copies);
    ghost var g := GraphOf(copies);
    ghost var back := map m | m in mods :: m.chunks;
    orders := [];
    var i := 0;
    while i < |copies|
      invariant 0 <= i <= |copies| && |orders| == i
      invariant MergeProgress(copies, g, lists, mods, back, orders)
    {
      orders := MergeStep(copies, i, g, lists, mods, back, orders);
      i := i + 1;
    }
    MergeFinished(copies, g, lists, mods, back, orders);
  }

  /** Step 1 after the first |orders| copies: lists merged so far, chunk lists extended by the roots so far. */
  ghost predicate MergeProgress(copies: seq<Chunk>, g: Graph<int>, lists: seq<seq<Module>>, mods: set<Module>,
                                back: map<Module, seq<Chunk>>, orders: seq<seq<int>>)
    reads Elems(copies), mods
  {
    && g == GraphOf(copies)
    && Unmerged(copies, lists) && Consistent(Elems(copies), mods)
    && MergedPrefix(copies, g, lists, orders)
    && HoldingSoFar(copies, g.roots, mods, back, |orders|)
  }

  /** Each module's chunk list is back's followed by the root copies among the first n whose list holds it. */
  ghost predicate HoldingSoFar(copies: seq<Chunk>, roots: set<int>, mods: set<Module>, back: map<Module, seq<Chunk>>,
                               n: int)
    reads Elems(copies)`modules, mods`chunks
  {
    && 0 <= n <= |copies|
    && forall m :: m in mods ==> m in back && m.chunks == AddAll(back[m], Holding(copies, roots, ModuleLists(copies), m, n))
  }

  /** The loop body of step 1 with the bookkeeping of what the chunk lists have gained. */
  method MergeStep(copies: seq<Chunk>, i: int, ghost g: Graph<int>, ghost lists: seq<seq<Module>>, ghost mods: set<Module>,
                   ghost back: map<Module, seq<Chunk>>, ghost orders: seq<seq<int>>)
    returns (ghost orders': seq<seq<int>>)
    requires Wired(copies) && i == |orders| < |copies|
    requires MergeProgress(copies, g, lists, mods, back, orders)
    modifies Elems(copies)`modules, mods`chunks
    ensures |orders'| == |orders| + 1
    ensures MergeProgress(copies, g, lists, mods, back, orders')
  {
    ghost var before := ModuleLists(copies);
    orders' := MergeNext(copies, i, g, lists, mods, orders);
    ghost var after := ModuleLists(copies);
    assert i in g.roots <==> IsInitialOrHasNoParents(copies[i]);
    forall m | m in mods ensures m.chunks == AddAll(back[m], Holding(copies, g.roots, after, m, i + 1)) {
      assert old(m.chunks) == AddAll(back[m], Holding(copies, g.roots, before, m, i));
      HoldingStable(copies, g.roots, before, after, m, i);
      var held := Holding(copies, g.roots, before, m, i);
      if i in g.roots && m in after[i] {
        assert Holding(copies, g.roots, after, m, i + 1) == held + [copies[i]];
        AddAllSnoc(back[m], held, copies[i]);
      } else {
        assert Holding(copies, g.roots, after, m, i + 1) == held + [] == held;
      }
    }
  }

  /** Once every copy has been through step 1, the progress predicate gives the postcondition of mergeAll. */
  lemma MergeFinished(copies: seq<Chunk>, g: Graph<int>, lists: seq<seq<Module>>, mods: set<Module>,
                      back: map<Module, seq<Chunk>>, orders: seq<seq<int>>)
    requires MergeProgress(copies, g, lists, mods, back, orders) && |orders| == |copies|
    ensures AllMerged(g, lists, ModuleLists(copies), orders)
  {
    var merged := ModuleLists(copies);
    forall k | 0 <= k < |copies| ensures MergedAt(merged[k], lists[k], k in g.roots, g, k, lists, orders[k]) {
      assert k in g.roots <==> IsInitialOrHasNoParents(copies[k]);
    }
  }

  /**
   * The root copies among the first n whose module list (in lists, by
   * position) holds m, in position order: what step 1 adds to m's chunk list.
   */
  function Holding(copies: seq<Chunk>, roots: set<int>, lists: seq<seq<Module>>, m: Module, n: int): seq<Chunk>
    requires 0 <= n <= |copies| && n <= |lists|
    decreases n
  {
    if n == 0 then []
    else Holding(copies, roots, lists, m, n - 1) + (if n - 1 in roots && m in lists[n - 1] then [copies[n - 1]] else [])
  }

  /** A chunk is in Holding exactly when it is a root copy among the first n whose list holds m. */
  lemma {:induction false} HoldingMembers(copies: seq<Chunk>, roots: set<int>, lists: seq<seq<Module>>, m: Module, n: int,
                                          c: Chunk)
    requires 0 <= n <= |copies| && n <= |lists|
    ensures c in Holding(copies, roots, lists, m, n) <==> exists k :: 0 <= k < n && k in roots && m in lists[k] && copies[k] == c
    decreases n
  {
    if n > 0 {
      HoldingMembers(copies, roots, lists, m, n - 1, c);
    }
  }

  /** Holding looks only at the lists of root positions. */
  lemma {:induction false} HoldingStable(copies: seq<Chunk>, roots: set<int>, a: seq<seq<Module>>, b: seq<seq<Module>>,
                                         m: Module, n: int)
    requires 0 <= n <= |copies| && n <= |a| && n <= |b|
    requires forall k :: 0 <= k < n && k in roots ==> a[k] == b[k]
    ensures Holding(copies, roots, a, m, n) == Holding(copies, roots, b, m, n)
    decreases n
  {
    if n > 0 {
      HoldingStable(copies, roots, a, b, m, n - 1);
    }
  }

  /** Step 1 on the module lists by position: every copy is merged as MergedAt says. */
  ghost predicate AllMerged(g: Graph<int>, before: seq<seq<Module>>, after: seq<seq<Module>>, orders: seq<seq<int>>) {
    && |after| == |before| == |orders|
    && forall k :: 0 <= k < |before| ==> MergedAt(after[k], before[k], k in g.roots, g, k, before, orders[k])
  }

  /**
   * Step 1 after the first |orders| copies: those are merged as MergedAt
   * says, and the others still hold their modules.
   */
  ghost predicate MergedPrefix(copies: seq<Chunk>, g: Graph<int>, lists: seq<seq<Module>>, orders: seq<seq<int>>)
    reads Elems(copies)`modules, Elems(copies)`parents
  {
    && |orders| <= |copies| == |lists|
    && (forall k :: |orders| <= k < |copies| ==> copies[k].modules == lists[k])
    && (forall k :: 0 <= k < |orders| ==>
          MergedAt(copies[k].modules, lists[k], IsInitialOrHasNoParents(copies[k]), g, k, lists, orders[k]))
  }

  /** The loop body of step 1: the next copy, merged into when it is a root. */
  method MergeNext(copies: seq<Chunk>, i: int, ghost g: Graph<int>, ghost lists: seq<seq<Module>>, ghost mods: set<Module>,
                   ghost orders: seq<seq<int>>)
    returns (ghost orders': seq<seq<int>>)
    requires Wired(copies) && g == GraphOf(copies) && Unmerged(copies, lists) && Consistent(Elems(copies), mods)
    requires MergedPrefix(copies, g, lists, orders) && i == |orders| < |copies|
    modifies Elems(copies)`modules, mods`chunks
    ensures |orders'| == |orders| + 1
    ensures MergedPrefix(copies, g, lists, orders')
    ensures forall k :: 0 <= k < |copies| && k != i ==> copies[k].modules == old(copies[k].modules)
    ensures forall m :: m in mods ==>
              m.chunks == if IsInitialOrHasNoParents(copies[i]) && m in copies[i].modules
                          then AddIfAbsent(old(m.chunks), copies[i]) else old(m.chunks)
    ensures Unmerged(copies, lists) && Consistent(Elems(copies), mods)
  {
    var order := MergeAt(copies[i], i, copies, g, lists, mods);
    orders' := orders + [order];
    forall k | 0 <= k < |copies| && k != i ensures copies[k] != copies[i] {
      IndexOfDistinct(copies, k);
      IndexOfDistinct(copies, i);
    }
  }

  /** One iteration of step 1: the copy at position i, merged into when it is a root. */
  method MergeAt(chunk: Chunk, i: int, ghost copies: seq<Chunk>, ghost g: Graph<int>, ghost lists: seq<seq<Module>>,
                 ghost mods: set<Module>)
    returns (ghost order: seq<int>)
    requires Wired(copies) && g == GraphOf(copies) && Unmerged(copies, lists) && Consistent(Elems(copies), mods)
    requires 0 <= i < |copies| && chunk == copies[i] && chunk.modules == lists[i]
    modifies chunk`modules, mods`chunks
    ensures MergedAt(chunk.modules, lists[i], IsInitialOrHasNoParents(chunk), g, i, lists, order)
    ensures forall m :: m in mods ==>
              m.chunks == if IsInitialOrHasNoParents(chunk) && m in chunk.modules then AddIfAbsent(old(m.chunks), chunk) else old(m.chunks)
    ensures Unmerged(copies, lists) && Consistent(Elems(copies), mods)
  {
    order := [];
    if IsInitialOrHasNoParents(chunk) {
      IndexOfDistinct(copies, i);
      var checked := MergeNonInitialChunks(chunk, copies, g, lists, mods);
      order := Positions(copies, checked);
    }
  }

  /**
   * `extractedChunk.modules.slice().forEach(m => extractedChunk.removeModule(m))`:
   * the chunk ends with no modules, and none of its modules lists it any more.
   */
  method StripChunk(chunk: Chunk, ghost U: set<Chunk>, ghost mods: set<Module>)
    requires chunk in U && Consistent(U, mods)
    modifies chunk`modules, mods`chunks
    ensures chunk.modules == []
    ensures forall m :: m in mods ==> m.chunks == Remove(old(m.chunks), chunk)
    ensures Consistent(U, mods)
  {
    ghost var back := map m | m in mods :: m.chunks;
    var ms := chunk.modules;
    var i := 0;
    while i < |ms|
      invariant 0 <= i <= |ms| && chunk.modules == ms[i..] && NoDup(ms)
      invariant Consistent(U, mods) && Unlisted(chunk, mods, back, ms[..i])
    {
      StripModule(chunk, ms, i, U, mods, back);
      i := i + 1;
    }
    assert ms[..i] == ms;
    forall m | m in mods ensures m.chunks == Remove(old(m.chunks), chunk) {
      assert m !in ms ==> chunk !in back[m];
    }
  }

  /** The modules of done have left chunk: their chunk lists are back's without chunk, the others are back's. */
  ghost predicate Unlisted(chunk: Chunk, mods: set<Module>, back: map<Module, seq<Chunk>>, done: seq<Module>)
    reads mods`chunks
  {
    forall m :: m in mods ==> m in back && m.chunks == if m in done then Remove(back[m], chunk) else back[m]
  }

  /** One iteration of StripChunk: the i-th of the chunk's modules leaves it. */
  method StripModule(chunk: Chunk, ms: seq<Module>, i: int, ghost U: set<Chunk>, ghost mods: set<Module>,
                     ghost back: map<Module, seq<Chunk>>)
    requires chunk in U && Consistent(U, mods) && 0 <= i < |ms| && NoDup(ms) && chunk.modules == ms[i..]
    requires Unlisted(chunk, mods, back, ms[..i])
    modifies chunk`modules, mods`chunks
    ensures chunk.modules == ms[i + 1..] && Consistent(U, mods)
    ensures Unlisted(chunk, mods, back, ms[..i + 1])
  {
    assert ms[i..][0] == ms[i] && ms[i..][1..] == ms[i + 1..];
    assert ms[i] in mods && ms[i] !in ms[..i];
    assert ms[..i + 1] == ms[..i] + [ms[i]];
    RemoveHead(ms[i..]);
    var _ := chunk.RemoveModule(ms[i], U, mods);
  }

  /** Step 2 of `postProcessChunks`: every copy that is not a root is stripped. */
  method StripAll(copies: seq<Chunk>, ghost mods: set<Module>)
    requires NoDup(copies) && Consistent(Elems(copies), mods)
    modifies Elems(copies)`modules, mods`chunks
    ensures forall k :: 0 <= k < |copies| ==>
              copies[k].modules == if IsInitialOrHasNoParents(copies[k]) then old(copies[k].modules) else []
    ensures Stripped(GraphOf(copies), old(ModuleLists(copies)), ModuleLists(copies))
    ensures forall m :: m in mods ==> m.chunks == Without(old(m.chunks), NonRoots(copies, GraphOf(copies).roots, |copies|))
    ensures GraphOf(copies) == old(GraphOf(copies))
    ensures Consistent(Elems(copies), mods)
  {
    ghost var before := ModuleLists(copies);
    ghost var g := GraphOf(copies);
    ghost var back := map m | m in mods :: m.chunks;
    forall m | m in mods ensures Without(back[m], {}) == back[m] {
      WithoutNone(back[m], {});
    }
    for i := 0 to |copies|
      invariant StripProgress(copies, g.roots, before, mods, back, i)
    {
      assert i in g.roots <==> IsInitialOrHasNoParents(copies[i]);
      StripNext(copies, i, g.roots, before, mods, back);
    }
    assert GraphOf(copies) == g;
    StripFinished(copies, before, mods, back);
  }

  /** Once every copy has been through step 2, the progress predicate is the postcondition of stripAll. */
  lemma StripFinished(copies: seq<Chunk>, before: seq<seq<Module>>, mods: set<Module>, back: map<Module, seq<Chunk>>)
    requires StripProgress(copies, GraphOf(copies).roots, before, mods, back, |copies|)
    ensures forall k :: 0 <= k < |copies| ==>
              copies[k].modules == if IsInitialOrHasNoParents(copies[k]) then before[k] else []
    ensures Stripped(GraphOf(copies), before, ModuleLists(copies))
    ensures forall m :: m in mods ==> m.chunks == Without(back[m], NonRoots(copies, GraphOf(copies).roots, |copies|))
    ensures Consistent(Elems(copies), mods)
  {
    var g := GraphOf(copies);
    var after := ModuleLists(copies);
    forall k | 0 <= k < |copies| ensures after[k] == if k in g.roots then before[k] else [] {
      assert k in g.roots <==> IsInitialOrHasNoParents(copies[k]);
    }
  }

  /** The first n copies are stripped unless they are roots; the others still hold their lists in before. */
  ghost predicate StrippedUpTo(copies: seq<Chunk>, before: seq<seq<Module>>, n: int)
    reads Elems(copies)`modules, Elems(copies)`parents
  {
    && |before| == |copies| && 0 <= n <= |copies|
    && (forall k :: 0 <= k < n ==> copies[k].modules == if IsInitialOrHasNoParents(copies[k]) then before[k] else [])
    && (forall k :: n <= k < |copies| ==> copies[k].modules == before[k])
  }

  /** Step 2 after the first n copies: membership in step, lists stripped so far, chunk lists filtered so far. */
  ghost predicate StripProgress(copies: seq<Chunk>, roots: set<int>, before: seq<seq<Module>>, mods: set<Module>,
                                back: map<Module, seq<Chunk>>, n: int)
    reads Elems(copies), mods
  {
    && Consistent(Elems(copies), mods)
    && StrippedUpTo(copies, before, n)
    && Filtered(mods, back, NonRoots(copies, roots, n))
  }

  /** Each module's chunk list is back's, duplicate-free, without the chunks of gone. */
  ghost predicate Filtered(mods: set<Module>, back: map<Module, seq<Chunk>>, gone: set<Chunk>)
    reads mods`chunks
  {
    forall m :: m in mods ==> m in back && NoDup(back[m]) && m.chunks == Without(back[m], gone)
  }

  /** The loop body of step 2: the copy at position i, stripped unless it is a root. */
  method StripNext(copies: seq<Chunk>, i: int, ghost roots: set<int>, ghost before: seq<seq<Module>>,
                   ghost mods: set<Module>, ghost back: map<Module, seq<Chunk>>)
    requires NoDup(copies) && 0 <= i < |copies|
    requires i in roots <==> IsInitialOrHasNoParents(copies[i])
    requires StripProgress(copies, roots, before, mods, back, i)
    modifies Elems(copies)`modules, mods`chunks
    ensures StripProgress(copies, roots, before, mods, back, i + 1)
  {
    if IsInitialOrHasNoParents(copies[i]) {
      assert NonRoots(copies, roots, i + 1) == NonRoots(copies, roots, i);
    } else {
      assert NonRoots(copies, roots, i + 1) == NonRoots(copies, roots, i) + {copies[i]};
      StripChunk(copies[i], Elems(copies), mods);
      forall m | m in mods ensures m.chunks == Without(back[m], NonRoots(copies, roots, i + 1)) {
        RemoveWithout(back[m], NonRoots(copies, roots, i), copies[i]);
      }
    }
    forall k | 0 <= k < |copies| && k != i ensures copies[k] != copies[i] {
      IndexOfDistinct(copies, k);
      IndexOfDistinct(copies, i);
    }
  }

  /** The non-root copies among the first n: the chunks step 2 strips. */
  function NonRoots(copies: seq<Chunk>, roots: set<int>, n: int): set<Chunk>
    requires 0 <= n <= |copies|
    decreases n
  {
    if n == 0 then {} else NonRoots(copies, roots, n - 1) + (if n - 1 in roots then {} else {copies[n - 1]})
  }

  /** Step 2 on the module lists by position: roots keep theirs and every other copy is emptied. */
  ghost predicate Stripped(g: Graph<int>, before: seq<seq<Module>>, after: seq<seq<Module>>) {
    && |after| == |before|
    && forall k :: 0 <= k < |before| ==> after[k] == if k in g.roots then before[k] else []
  }

  /**
   * postProcessChunks on the module lists by position: a root has searched
   * exactly the positions it reaches through non-root positions and gained
   * their modules after its own, in search order; every other copy is empty.
   */
  ghost predicate PostProcessed(g: Graph<int>, before: seq<seq<Module>>, after: seq<seq<Module>>, orders: seq<seq<int>>) {
    && |after| == |before| == |orders|
    && forall k :: 0 <= k < |before| ==>
         if k in g.roots then Searched(g, k, orders[k]) && after[k] == AddAll(before[k], Gathered(before, orders[k]))
         else after[k] == []
  }

  /** Merging and then stripping is postProcessChunks. */
  lemma PostProcessedFrom(g: Graph<int>, lists: seq<seq<Module>>, merged: seq<seq<Module>>, final: seq<seq<Module>>,
                          orders: seq<seq<int>>)
    requires AllMerged(g, lists, merged, orders) && Stripped(g, merged, final)
    ensures PostProcessed(g, lists, final, orders)
  {
  }

  /**
   * `postProcessChunks`: every root copy gains, after its own modules, the
   * modules of exactly the non-root copies it reaches through non-root
   * copies (in search order, each added once); then every non-root copy is
   * emptied. Chunk and module membership stay in step throughout.
   */
  method PostProcessChunks(copies: seq<Chunk>, ghost mods: set<Module>) returns (ghost orders: seq<seq<int>>)
    requires Wired(copies) && Consistent(Elems(copies), mods)
    modifies Elems(copies)`modules, mods`chunks
    ensures PostProcessed(GraphOf(copies), old(ModuleLists(copies)), ModuleLists(copies), orders)
    ensures forall m :: m in mods ==>
              m.chunks == Without(AddAll(old(m.chunks), Holding(copies, GraphOf(copies).roots, ModuleLists(copies), m, |copies|)),
                                  NonRoots(copies, GraphOf(copies).roots, |copies|))
    ensures Consistent(Elems(copies), mods)
  {
    ghost var g := GraphOf(copies);
    ghost var lists := ModuleLists(copies);
    orders := MergeAll(copies, mods);
    ghost var merged := ModuleLists(copies);
    StripAll(copies, mods);
    ghost var final := ModuleLists(copies);
    PostProcessedFrom(g, lists, merged, final, orders);
    forall m | m in mods
      ensures m.chunks == Without(AddAll(old(m.chunks), Holding(copies, g.roots, final, m, |copies|)), NonRoots(copies, g.roots, |copies|))
    {
      HoldingStable(copies, g.roots, merged, final, m, |copies|);
    }
  }

  // ---------------------------------------------------------------------
  // processChunk
  // ---------------------------------------------------------------------

  /** The identifiers of the modules the loader gave content to, in order. */
  function Registered(ms: seq<HostModule>): seq<string>
    decreases |ms|
  {
    if |ms| == 0 then []
    else
      var last := ms[|ms| - 1];
      Registered(ms[..|ms| - 1]) + (if last.content.Some? then [last.identifier] else [])
  }

  /** A registered identifier is that of a module with content, and each such module's is registered. */
  lemma {:induction false} RegisteredMembers(ms: seq<HostModule>, id: string)
    ensures id in Registered(ms) <==> exists j :: 0 <= j < |ms| && ms[j].content.Some? && ms[j].identifier == id
    decreases |ms|
  {
    if |ms| > 0 {
      var init := ms[..|ms| - 1];
      RegisteredMembers(init, id);
      if id in Registered(init) {
        var j :| 0 <= j < |init| && init[j].content.Some? && init[j].identifier == id;
        assert ms[j] == init[j];
      }
      if exists j :: 0 <= j < |ms| && ms[j].content.Some? && ms[j].identifier == id {
        var j :| 0 <= j < |ms| && ms[j].content.Some? && ms[j].identifier == id;
        if j < |init| {
          assert init[j] == ms[j];
        }
      }
    }
  }

  /** The entries stored under ids, in order. */
  function ModulesAt(vals: map<string, Module>, ids: seq<string>): (r: seq<Module>)
    requires forall id :: id in ids ==> id in vals
    ensures |r| == |ids| && forall j :: 0 <= j < |ids| ==> r[j] == vals[ids[j]]
    decreases |ids|
  {
    if |ids| == 0 then [] else ModulesAt(vals, ids[..|ids| - 1]) + [vals[ids[|ids| - 1]]]
  }

  /** In an object that only gains entries, the entries stored under known ids stay the same. */
  lemma ModulesAtStable(a: map<string, Module>, b: map<string, Module>, ids: seq<string>)
    requires forall id :: id in ids ==> id in a
    requires forall id :: id in a ==> id in b && b[id] == a[id]
    ensures ModulesAt(a, ids) == ModulesAt(b, ids)
  {
  }

  /** Storing under a key adds it to the enumeration order unless it is already there. */
  lemma PutAddsKey(d: Dict<Module>, k: string, v: Module)
    requires d.Valid()
    ensures d.Put(k, v).keys == AddIfAbsent(d.keys, k)
  {
  }

  /**
   * How far processChunk's module loop has come, on values: the identifiers
   * reg registered so far extend the original keys in first-registration
   * order, original entries are kept, and the chunk copy has gained the
   * entries of reg.
   */
  ghost predicate Progress(keys0: seq<string>, vals0: map<string, Module>, copy0: seq<Module>, reg: seq<string>,
                           d: Dict<Module>, copyModules: seq<Module>)
  {
    && d.keys == AddAll(keys0, reg)
    && (forall id :: id in vals0 ==> id in d.vals && d.vals[id] == vals0[id])
    && (forall id :: id in reg ==> id in d.vals)
    && copyModules == AddAll(copy0, ModulesAt(d.vals, reg))
  }

  /** Registering one more identifier, whether new or already stored, advances the loop state. */
  lemma ProgressStep(keys0: seq<string>, vals0: map<string, Module>, copy0: seq<Module>, reg: seq<string>,
                     d: Dict<Module>, copyModules: seq<Module>, id: string, m: Module, d': Dict<Module>)
    requires Progress(keys0, vals0, copy0, reg, d, copyModules) && d.Valid()
    requires if id in d.vals then d' == d && d.vals[id] == m else d' == d.Put(id, m)
    ensures Progress(keys0, vals0, copy0, reg + [id], d', AddIfAbsent(copyModules, m))
  {
    PutAddsKey(d, id, m);
    AddAllSnoc(keys0, reg, id);
    ModulesAtStable(d.vals, d'.vals, reg);
    assert ModulesAt(d'.vals, reg + [id]) == ModulesAt(d'.vals, reg) + [m];
    AddAllSnoc(copy0, ModulesAt(d'.vals, reg), m);
  }

  /** hm is a module the loader gave content to, with identifier id. */
  predicate Named(hm: HostModule, id: string) {
    hm.content.Some? && hm.identifier == id
  }

  /**
   * The original module `addModule` keeps for id after registering hm,
   * starting from cur: hm when there is none yet, or when hm's `index2` is
   * strictly smaller; cur otherwise.
   */
  function Keep(cur: Option<HostModule>, hm: HostModule, id: string): Option<HostModule> {
    if !Named(hm, id) then cur
    else if cur.None? || hm.index2 < cur.value.index2 then Some(hm)
    else cur
  }

  /** The original module kept for id once the modules of ms are registered in order, starting from cur. */
  function Canonical(ms: seq<HostModule>, id: string, cur: Option<HostModule>): Option<HostModule>
    decreases |ms|
  {
    if |ms| == 0 then cur else Keep(Canonical(ms[..|ms| - 1], id, cur), ms[|ms| - 1], id)
  }

  /**
   * The kept original module is the first registered module with the lowest
   * `index2`, unless the starting one is at least as low: it is no higher
   * than any module registered under id, it is the start or some registered
   * module, a replacement is strictly lower than the start and than every
   * earlier registrant, and there is none only when there was none to begin
   * with and nothing was registered.
   */
  lemma {:induction false} CanonicalFirstLowest(ms: seq<HostModule>, id: string, cur: Option<HostModule>)
    ensures Canonical(ms, id, cur).None? <==> cur.None? && forall j :: 0 <= j < |ms| ==> !Named(ms[j], id)
    ensures Canonical(ms, id, cur).Some? ==>
              && (cur.Some? ==> Canonical(ms, id, cur).value.index2 <= cur.value.index2)
              && forall j :: 0 <= j < |ms| && Named(ms[j], id) ==> Canonical(ms, id, cur).value.index2 <= ms[j].index2
    ensures Canonical(ms, id, cur) != cur ==>
              exists j :: 0 <= j < |ms| && Named(ms[j], id) && Canonical(ms, id, cur) == Some(ms[j])
                && (cur.Some? ==> ms[j].index2 < cur.value.index2)
                && forall k :: 0 <= k < j && Named(ms[k], id) ==> ms[j].index2 < ms[k].index2
    decreases |ms|
  {
    if |ms| > 0 {
      var init := ms[..|ms| - 1];
      var last := ms[|ms| - 1];
      var r0 := Canonical(init, id, cur);
      CanonicalFirstLowest(init, id, cur);
      assert forall j :: 0 <= j < |init| ==> ms[j] == init[j];
      if Named(last, id) && (r0.None? || last.index2 < r0.value.index2) {
        assert Canonical(ms, id, cur) == Some(last);
        forall k | 0 <= k < |init| && Named(ms[k], id) ensures last.index2 < ms[k].index2 {
          assert Named(init[k], id);
        }
      } else if r0 != cur {
        var j :| 0 <= j < |init| && Named(init[j], id) && r0 == Some(init[j])
                 && (cur.Some? ==> init[j].index2 < cur.value.index2)
                 && forall k :: 0 <= k < j && Named(init[k], id) ==> init[j].index2 < init[k].index2;
        assert Named(ms[j], id) && Canonical(ms, id, cur) == Some(ms[j]);
      }
    }
  }

  /** The original module stored for id before processChunk, if id had an entry. */
  function OriginalAt(orig0: map<string, HostModule>, id: string): Option<HostModule> {
    if id in orig0 then Some(orig0[id]) else None
  }

  /** The chunk list of id's entry before processChunk; an entry created later starts with none. */
  function ChunksAt(chunks0: map<string, seq<Chunk>>, id: string): seq<Chunk> {
    if id in chunks0 then chunks0[id] else []
  }

  /** Each entry's original module, by identifier. */
  ghost function EntryOriginals(d: Dict<Module>): map<string, HostModule>
    reads d.vals.Values
  {
    map id | id in d.vals :: d.vals[id].originalModule
  }

  /** Each entry's chunk list, by identifier. */
  ghost function EntryChunks(d: Dict<Module>): map<string, seq<Chunk>>
    reads d.vals.Values
  {
    map id | id in d.vals :: d.vals[id].chunks
  }

  /**
   * The entry for id once the modules ms are registered, given the original
   * module of each entry (origs) and its chunk list (lists), and the same
   * before (orig0, chunks0): its original module is the one `Canonical` keeps,
   * it has none exactly when `Canonical` keeps none, and it has joined copy,
   * after its earlier chunks, exactly when id was registered.
   */
  ghost predicate EntryAt(ms: seq<HostModule>, id: string, origs: map<string, HostModule>, lists: map<string, seq<Chunk>>,
                          orig0: map<string, HostModule>, chunks0: map<string, seq<Chunk>>, copy: Chunk)
  {
    if id in origs then
      && Canonical(ms, id, OriginalAt(orig0, id)) == Some(origs[id])
      && id in lists
      && lists[id] == if id in Registered(ms) then AddIfAbsent(ChunksAt(chunks0, id), copy) else ChunksAt(chunks0, id)
    else Canonical(ms, id, OriginalAt(orig0, id)).None?
  }

  /** Every entry is as EntryAt says once the modules ms are registered. */
  ghost predicate Canonicals(ms: seq<HostModule>, origs: map<string, HostModule>, lists: map<string, seq<Chunk>>,
                             orig0: map<string, HostModule>, chunks0: map<string, seq<Chunk>>, copy: Chunk)
  {
    origs.Keys == lists.Keys && forall id :: EntryAt(ms, id, origs, lists, orig0, chunks0, copy)
  }

  /** Before any module is registered, the entries are as they were. */
  lemma CanonicalsStart(origs: map<string, HostModule>, lists: map<string, seq<Chunk>>, copy: Chunk)
    requires origs.Keys == lists.Keys
    ensures Canonicals([], origs, lists, origs, lists, copy)
  {
  }

  /** A module without content registers nothing. */
  lemma CanonicalsSkip(ms: seq<HostModule>, hm: HostModule, origs: map<string, HostModule>, lists: map<string, seq<Chunk>>,
                       orig0: map<string, HostModule>, chunks0: map<string, seq<Chunk>>, copy: Chunk)
    requires hm.content.None? && Canonicals(ms, origs, lists, orig0, chunks0, copy)
    ensures Canonicals(ms + [hm], origs, lists, orig0, chunks0, copy)
  {
    RegisteredSnoc(ms, hm);
    forall id ensures EntryAt(ms + [hm], id, origs, lists, orig0, chunks0, copy) {
      CanonicalSnoc(ms, hm, id, OriginalAt(orig0, id));
      assert EntryAt(ms, id, origs, lists, orig0, chunks0, copy);
    }
  }

  /** Registering one more module extends the identifiers by its own when it has content. */
  lemma RegisteredSnoc(ms: seq<HostModule>, hm: HostModule)
    ensures Registered(ms + [hm]) == Registered(ms) + (if hm.content.Some? then [hm.identifier] else [])
  {
    assert (ms + [hm])[..|ms|] == ms;
  }

  /** Registering one more module applies `Keep` once more. */
  lemma CanonicalSnoc(ms: seq<HostModule>, hm: HostModule, id: string, cur: Option<HostModule>)
    ensures Canonical(ms + [hm], id, cur) == Keep(Canonical(ms, id, cur), hm, id)
  {
    assert (ms + [hm])[..|ms|] == ms;
  }

  /**
   * Registering a module with content: a new identifier gets the module as
   * its original and copy as its only chunk; a known one switches to the
   * module on a strictly smaller `index2` and joins copy unless there.
   */
  lemma CanonicalsStep(ms: seq<HostModule>, hm: HostModule, origs: map<string, HostModule>, lists: map<string, seq<Chunk>>,
                       origs': map<string, HostModule>, lists': map<string, seq<Chunk>>,
                       orig0: map<string, HostModule>, chunks0: map<string, seq<Chunk>>, copy: Chunk)
    requires hm.content.Some? && Canonicals(ms, origs, lists, orig0, chunks0, copy) && chunks0.Keys <= origs.Keys
    requires hm.identifier in origs ==>
               && origs' == origs[hm.identifier := if hm.index2 < origs[hm.identifier].index2 then hm else origs[hm.identifier]]
               && lists' == lists[hm.identifier := AddIfAbsent(lists[hm.identifier], copy)]
    requires hm.identifier !in origs ==> origs' == origs[hm.identifier := hm] && lists' == lists[hm.identifier := [copy]]
    ensures Canonicals(ms + [hm], origs', lists', orig0, chunks0, copy)
  {
    RegisteredSnoc(ms, hm);
    forall id ensures EntryAt(ms + [hm], id, origs', lists', orig0, chunks0, copy) {
      CanonicalSnoc(ms, hm, id, OriginalAt(orig0, id));
      if id == hm.identifier {
        assert EntryAt(ms, id, origs, lists, orig0, chunks0, copy);
        if id !in origs {
          assert id !in chunks0;
        }
      } else {
        assert EntryAt(ms, id, origs, lists, orig0, chunks0, copy);
      }
    }
  }

  /** The loader content of the first module of ms named id, if there is one. */
  function FirstContent(ms: seq<HostModule>, id: string): Option<Info>
    decreases |ms|
  {
    if |ms| == 0 then None
    else
      var r := FirstContent(ms[..|ms| - 1], id);
      if r.Some? then r else if Named(ms[|ms| - 1], id) then ms[|ms| - 1].content else None
  }

  /**
   * FirstContent is the content of the first module named id: there is none
   * exactly when no module is named id, and otherwise it is the content of a
   * module named id with no module named id before it.
   */
  lemma {:induction false} FirstContentFirst(ms: seq<HostModule>, id: string)
    ensures FirstContent(ms, id).None? <==> forall j :: 0 <= j < |ms| ==> !Named(ms[j], id)
    ensures FirstContent(ms, id).Some? ==>
              exists j :: 0 <= j < |ms| && Named(ms[j], id) && FirstContent(ms, id) == ms[j].content
                && forall k :: 0 <= k < j ==> !Named(ms[k], id)
    decreases |ms|
  {
    if |ms| > 0 {
      var init := ms[..|ms| - 1];
      FirstContentFirst(init, id);
      assert forall j :: 0 <= j < |init| ==> ms[j] == init[j];
      if FirstContent(init, id).Some? {
        var j :| 0 <= j < |init| && Named(init[j], id) && FirstContent(init, id) == init[j].content
                 && forall k :: 0 <= k < j ==> !Named(init[k], id);
        assert Named(ms[j], id);
      } else if Named(ms[|ms| - 1], id) {
        assert forall k :: 0 <= k < |ms| - 1 ==> !Named(ms[k], id);
      }
    }
  }

  /** Registering one more module: the first content for id is kept, or else it is that module's. */
  lemma FirstContentSnoc(ms: seq<HostModule>, hm: HostModule, id: string)
    ensures FirstContent(ms + [hm], id) ==
              if FirstContent(ms, id).Some? then FirstContent(ms, id) else if Named(hm, id) then hm.content else None
  {
    assert (ms + [hm])[..|ms|] == ms;
  }

  /**
   * The text of the entries once the modules ms are registered, given the
   * entries vals0 before: an entry created meanwhile holds the key and the
   * JSON of the first module of ms with its identifier, and an identifier
   * without an entry is that of no module of ms.
   */
  ghost predicate NewTexts(ms: seq<HostModule>, vals: map<string, Module>, vals0: map<string, Module>) {
    forall id ::
      if id in vals then id !in vals0 ==> FirstContent(ms, id) == Some(Info(vals[id].key, vals[id].json))
      else FirstContent(ms, id).None?
  }

  /** A module without content adds no text. */
  lemma NewTextsSkip(ms: seq<HostModule>, hm: HostModule, vals: map<string, Module>, vals0: map<string, Module>)
    requires hm.content.None? && NewTexts(ms, vals, vals0)
    ensures NewTexts(ms + [hm], vals, vals0)
  {
    forall id ensures FirstContent(ms + [hm], id) == FirstContent(ms, id) {
      FirstContentSnoc(ms, hm, id);
    }
  }

  /**
   * Registering a module with content: a new identifier's entry holds the
   * module's key and JSON; a known identifier's entry stays.
   */
  lemma NewTextsStep(ms: seq<HostModule>, hm: HostModule, vals: map<string, Module>, vals': map<string, Module>,
                     vals0: map<string, Module>, m: Module)
    requires hm.content.Some? && NewTexts(ms, vals, vals0)
    requires hm.identifier in vals ==> vals' == vals
    requires hm.identifier !in vals ==> vals' == vals[hm.identifier := m] && hm.content.value == Info(m.key, m.json)
    ensures NewTexts(ms + [hm], vals', vals0)
  {
    forall id ensures if id in vals' then id !in vals0 ==> FirstContent(ms + [hm], id) == Some(Info(vals'[id].key, vals'[id].json))
                      else FirstContent(ms + [hm], id).None? {
      FirstContentSnoc(ms, hm, id);
    }
  }

  /**
   * `processChunk(originalChunkList, chunkCopyList, dictionary, chunk)`: for
   * each module of chunk, in order, that the loader gave content to,
   * `dictionary.addModule(identifier, content, module, chunkCopy)`, where
   * chunkCopy is the copy at chunk's position. Afterwards the dictionary's
   * identifiers are the old ones followed by the new registered ones in first
   * registration order, old entries are kept, and chunkCopy has gained the
   * entry of each registered module once. Each entry's original module is
   * the one `Canonical` keeps over the chunk's modules, and each entry's
   * chunk list gained chunkCopy exactly when its identifier was registered.
   */
  method ProcessChunk(originals: seq<HostChunk>, copies: seq<Chunk>, dictionary: Dictionary, chunk: HostChunk,
                      ghost U: set<Chunk>)
    requires chunk in originals && |copies| == |originals| && Elems(copies) <= U
    requires dictionary.Valid() && Consistent(U, dictionary.Modules())
    requires forall m :: m in chunk.modules && m.content.Some? ==> m.content.value.json.Valid()
    modifies dictionary`modulesByIdentifier, dictionary.Modules(), {copies[IndexOf(originals, chunk)]}`modules
    ensures dictionary.Valid() && Consistent(U, dictionary.Modules())
    ensures dictionary.modulesByIdentifier.keys == AddAll(old(dictionary.modulesByIdentifier.keys), Registered(chunk.modules))
    ensures forall id :: id in old(dictionary.modulesByIdentifier.vals) ==>
              id in dictionary.modulesByIdentifier.vals &&
              dictionary.modulesByIdentifier.vals[id] == old(dictionary.modulesByIdentifier.vals[id])
    ensures forall id :: id in Registered(chunk.modules) ==> id in dictionary.modulesByIdentifier.vals
    ensures copies[IndexOf(originals, chunk)].modules ==
              AddAll(old(copies[IndexOf(originals, chunk)].modules),
                     ModulesAt(dictionary.modulesByIdentifier.vals, Registered(chunk.modules)))
    ensures Canonicals(chunk.modules, EntryOriginals(dictionary.modulesByIdentifier), EntryChunks(dictionary.modulesByIdentifier),
                       old(EntryOriginals(dictionary.modulesByIdentifier)), old(EntryChunks(dictionary.modulesByIdentifier)),
                       copies[IndexOf(originals, chunk)])
    ensures NewTexts(chunk.modules, dictionary.modulesByIdentifier.vals, old(dictionary.modulesByIdentifier.vals))
  {
    var chunkCopy := copies[IndexOf(originals, chunk)];
    ghost var vals0 := dictionary.modulesByIdentifier.vals;
    ghost var orig0 := EntryOriginals(dictionary.modulesByIdentifier);
    ghost var chunks0 := EntryChunks(dictionary.modulesByIdentifier);
    ghost var copy0 := chunkCopy.modules;
    CanonicalsStart(orig0, chunks0, chunkCopy);
    var ms := chunk.modules;
    var i := 0;
    while i < |ms|
      invariant 0 <= i <= |ms| && ms == chunk.modules
      invariant dictionary.Valid() && Consistent(U, dictionary.Modules())
      invariant forall m :: m in dictionary.Modules() ==> m in old(dictionary.Modules()) || fresh(m)
      invariant Progress(old(dictionary.modulesByIdentifier.keys), vals0, copy0, Registered(ms[..i]),
                         dictionary.modulesByIdentifier, chunkCopy.modules)
      invariant Canonicals(ms[..i], EntryOriginals(dictionary.modulesByIdentifier), EntryChunks(dictionary.modulesByIdentifier),
                           orig0, chunks0, chunkCopy)
      invariant NewTexts(ms[..i], dictionary.modulesByIdentifier.vals, vals0)
    {
      ProcessModule(dictionary, chunkCopy, ms, i, vals0, copy0, old(dictionary.modulesByIdentifier.keys), orig0, chunks0, U);
      i := i + 1;
    }
    assert ms[..i] == ms;
  }

  /** One iteration of processChunk's module loop. */
  method ProcessModule(dictionary: Dictionary, chunkCopy: Chunk, ms: seq<HostModule>, i: int,
                       ghost vals0: map<string, Module>, ghost copy0: seq<Module>, ghost keys0: seq<string>,
                       ghost orig0: map<string, HostModule>, ghost chunks0: map<string, seq<Chunk>>, ghost U: set<Chunk>)
    requires 0 <= i < |ms| && chunkCopy in U
    requires ms[i].content.Some? ==> ms[i].content.value.json.Valid()
    requires dictionary.Valid() && Consistent(U, dictionary.Modules())
    requires Progress(keys0, vals0, copy0, Registered(ms[..i]), dictionary.modulesByIdentifier, chunkCopy.modules)
    requires chunks0.Keys == vals0.Keys
    requires Canonicals(ms[..i], EntryOriginals(dictionary.modulesByIdentifier), EntryChunks(dictionary.modulesByIdentifier),
                        orig0, chunks0, chunkCopy)
    requires NewTexts(ms[..i], dictionary.modulesByIdentifier.vals, vals0)
    modifies dictionary`modulesByIdentifier, dictionary.Modules(), chunkCopy`modules
    ensures dictionary.Valid() && Consistent(U, dictionary.Modules())
    ensures forall m :: m in dictionary.Modules() ==> m in old(dictionary.Modules()) || fresh(m)
    ensures Progress(keys0, vals0, copy0, Registered(ms[..i + 1]), dictionary.modulesByIdentifier, chunkCopy.modules)
    ensures Canonicals(ms[..i + 1], EntryOriginals(dictionary.modulesByIdentifier), EntryChunks(dictionary.modulesByIdentifier),
                       orig0, chunks0, chunkCopy)
    ensures NewTexts(ms[..i + 1], dictionary.modulesByIdentifier.vals, vals0)
  {
    var hm := ms[i];
    assert ms[..i + 1] == ms[..i] + [hm];
    RegisteredSnoc(ms[..i], hm);
    if hm.content.Some? {
      ghost var before := dictionary.modulesByIdentifier;
      ghost var cm := chunkCopy.modules;
      ghost var origs := EntryOriginals(before);
      ghost var lists := EntryChunks(before);
      var m := Register(dictionary, chunkCopy, ms, i, U);
      ProgressStep(keys0, vals0, copy0, Registered(ms[..i]), before, cm, hm.identifier, m, dictionary.modulesByIdentifier);
      CanonicalsStep(ms[..i], hm, origs, lists, EntryOriginals(dictionary.modulesByIdentifier),
                     EntryChunks(dictionary.modulesByIdentifier), orig0, chunks0, chunkCopy);
      NewTextsStep(ms[..i], hm, before.vals, dictionary.modulesByIdentifier.vals, vals0, m);
    } else {
      assert Registered(ms[..i + 1]) == Registered(ms[..i]);
      CanonicalsSkip(ms[..i], hm, EntryOriginals(dictionary.modulesByIdentifier), EntryChunks(dictionary.modulesByIdentifier),
                     orig0, chunks0, chunkCopy);
      NewTextsSkip(ms[..i], hm, dictionary.modulesByIdentifier.vals, vals0);
    }
  }

  /** The original modules after one entry is stored or updated, the others keeping theirs. */
  lemma OriginalsPut(d: Dict<Module>, origs: map<string, HostModule>, x: string, v: HostModule)
    requires d.vals.Keys == origs.Keys + {x} && d.vals[x].originalModule == v
    requires forall id :: id in origs && id != x ==> d.vals[id].originalModule == origs[id]
    ensures EntryOriginals(d) == origs[x := v]
  {
  }

  /** The chunk lists after one entry is stored or updated, the others keeping theirs. */
  lemma ChunksPut(d: Dict<Module>, lists: map<string, seq<Chunk>>, x: string, v: seq<Chunk>)
    requires d.vals.Keys == lists.Keys + {x} && d.vals[x].chunks == v
    requires forall id :: id in lists && id != x ==> d.vals[id].chunks == lists[id]
    ensures EntryChunks(d) == lists[x := v]
  {
  }

  /**
   * `dictionary.addModule(module.identifier(), meta.content, module, chunkCopy)`
   * for the i-th module, which has content. A new identifier gets a new entry
   * whose original module is this module and which belongs to chunkCopy only.
   * A known identifier keeps its entry, whose original module becomes this
   * module exactly when this module's `index2` is strictly smaller, and which
   * joins chunkCopy unless already there. No other entry changes.
   */
  method Register(dictionary: Dictionary, chunkCopy: Chunk, ms: seq<HostModule>, i: int, ghost U: set<Chunk>)
    returns (m: Module)
    requires 0 <= i < |ms| && ms[i].content.Some? && ms[i].content.value.json.Valid() && chunkCopy in U
    requires dictionary.Valid() && Consistent(U, dictionary.Modules())
    modifies dictionary`modulesByIdentifier, dictionary.At(ms[i].identifier), chunkCopy`modules
    ensures dictionary.Valid() && Consistent(U, dictionary.Modules())
    ensures forall x :: x in dictionary.Modules() ==> x in old(dictionary.Modules()) || fresh(x)
    ensures if ms[i].identifier in old(dictionary.modulesByIdentifier.vals)
            then dictionary.modulesByIdentifier == old(dictionary.modulesByIdentifier)
                 && old(dictionary.modulesByIdentifier.vals[ms[i].identifier]) == m
            else dictionary.modulesByIdentifier == old(dictionary.modulesByIdentifier).Put(ms[i].identifier, m)
    ensures ms[i].identifier in old(dictionary.modulesByIdentifier.vals) ==>
              && m.originalModule == (if ms[i].index2 < old(m.originalModule).index2 then ms[i] else old(m.originalModule))
              && m.chunks == AddIfAbsent(old(m.chunks), chunkCopy)
    ensures ms[i].identifier !in old(dictionary.modulesByIdentifier.vals) ==>
              m.originalModule == ms[i] && m.chunks == [chunkCopy]
              && m.key == ms[i].content.value.key && m.json == ms[i].content.value.json
    ensures EntryOriginals(dictionary.modulesByIdentifier) ==
              old(EntryOriginals(dictionary.modulesByIdentifier))[ms[i].identifier := m.originalModule]
    ensures EntryChunks(dictionary.modulesByIdentifier) ==
              old(EntryChunks(dictionary.modulesByIdentifier))[ms[i].identifier := m.chunks]
    ensures chunkCopy.modules == AddIfAbsent(old(chunkCopy.modules), m)
  {
    var hm := ms[i];
    var x := hm.identifier;
    ghost var d0 := dictionary.modulesByIdentifier;
    ghost var origs := EntryOriginals(d0);
    ghost var lists := EntryChunks(d0);
    m := dictionary.AddModule(x, hm.content.value, hm, chunkCopy, U);
    ghost var d1 := dictionary.modulesByIdentifier;
    assert d1.vals == d0.vals[x := m];
    forall id | id in origs && id != x
      ensures d1.vals[id].originalModule == origs[id] && d1.vals[id].chunks == lists[id]
    {
      assert origs[id] == old(d0.vals[id].originalModule) && lists[id] == old(d0.vals[id].chunks);
    }
    OriginalsPut(d1, origs, x, m.originalModule);
    ChunksPut(d1, lists, x, m.chunks);
  }
}
