/**
 * JSONConcatSource (lib/JSONConcatSource.js): the bucket of one locale. It
 * collects children in order; `source()` maps each child's key to that
 * child's JSON, the last child with a key replacing earlier ones outright;
 * `size()` adds up the children's sizes; `updateHash` forwards the hash to
 * every child in order.
 */
module JSONConcatSources {
  import opened Wrappers
  import opened Seqs
  import opened JsValues
  import opened JSONSources

  /** A child. The plugin only adds JSONSources; `size()` also accepts strings. */
  datatype Item = StringItem(text: string) | SourceItem(src: JSONSource)

  /** A string counts its length, a source its own size. */
  function ItemSize(item: Item): nat {
    match item
    case StringItem(t) => |t|
    case SourceItem(s) => s.Size()
  }

  /** `items.map(size).reduce((sum, s) => sum + s, 0)`, summed left to right. */
  function TotalSize(items: seq<Item>): nat
    decreases |items|
  {
    if |items| == 0 then 0 else TotalSize(items[..|items| - 1]) + ItemSize(items[|items| - 1])
  }

  /** The size of a concatenation is the sum of the sizes of its parts. */
  lemma {:induction false} TotalSizeAppend(a: seq<Item>, b: seq<Item>)
    ensures TotalSize(a + b) == TotalSize(a) + TotalSize(b)
    decreases |b|
  {
    if |b| == 0 {
      assert a + b == a;
    } else {
      var init := b[..|b| - 1];
      assert (a + b)[..|a + b| - 1] == a + init;
      TotalSizeAppend(a, init);
    }
  }

  predicate AllSources(items: seq<Item>) {
    forall i :: 0 <= i < |items| ==> items[i].SourceItem?
  }

  /** The children's keys, in order. */
  function Keys(items: seq<Item>): (ks: seq<string>)
    requires AllSources(items)
    ensures |ks| == |items|
  {
    seq(|items|, i requires 0 <= i < |items| => items[i].src.key)
  }

  /** The children's serialisations, in order. */
  function Serialisations(items: seq<Item>): (ss: seq<string>)
    requires AllSources(items)
    ensures |ss| == |items|
  {
    seq(|items|, i requires 0 <= i < |items| => items[i].src.source)
  }

  /**
   * The object `source()` fills before stringifying it: `combined[key()] = json()`
   * for each child in order. A string child has no `key` method.
   */
  function Combined(items: seq<Item>): Result<Dict<JsonValue>, Error>
    decreases |items|
  {
    if |items| == 0 then Ok(EmptyDict())
    else
      match Combined(items[..|items| - 1])
      case Err(e) => Err(e)
      case Ok(d) =>
        match items[|items| - 1]
        case StringItem(_) => Err(NotAFunction("key"))
        case SourceItem(s) => Ok(d.Put(s.key, s.json))
  }

  /** Once a prefix has failed, so has every extension of it, with the same error. */
  lemma {:induction false} CombinedErrPersists(items: seq<Item>, k: nat)
    requires k <= |items| && Combined(items[..k]).Err?
    ensures Combined(items) == Combined(items[..k])
    decreases |items| - k
  {
    if k < |items| {
      assert items[..k + 1][..k] == items[..k];
      CombinedErrPersists(items, k + 1);
    } else {
      assert items[..k] == items;
    }
  }

  /** source() fails exactly when some child is a string, with the TypeError of `key`. */
  lemma {:induction false} CombinedFails(items: seq<Item>)
    ensures Combined(items).Ok? <==> AllSources(items)
    ensures Combined(items).Err? ==> Combined(items).error == NotAFunction("key")
    decreases |items|
  {
    if |items| > 0 {
      var init := items[..|items| - 1];
      CombinedFails(init);
      assert AllSources(items) <==> AllSources(init) && items[|items| - 1].SourceItem?;
    }
  }

  /**
   * On all-source children, source()'s object has one property per distinct
   * key, in order of first appearance.
   */
  lemma {:induction false} CombinedKeys(items: seq<Item>)
    requires AllSources(items)
    ensures Combined(items).Ok?
    ensures Combined(items).value.Valid()
    ensures Combined(items).value.keys == AddAll([], Keys(items))
    decreases |items|
  {
    if |items| > 0 {
      var n := |items| - 1;
      var init := items[..n];
      CombinedKeys(init);
      assert Keys(items)[..n] == Keys(init);
      var d := Combined(init).value;
      assert d.Valid() && (items[n].src.key in d.vals <==> items[n].src.key in d.keys);
    }
  }

  /**
   * A child that no later child shares its key with supplies that key's
   * value in source()'s object, wholesale: earlier children with the same
   * key are replaced, not merged.
   */
  lemma {:induction false} CombinedLastWins(items: seq<Item>, i: nat)
    requires AllSources(items) && i < |items|
    requires forall j :: i < j < |items| ==> items[j].src.key != items[i].src.key
    ensures Combined(items).Ok?
    ensures items[i].src.key in Combined(items).value.vals
    ensures Combined(items).value.vals[items[i].src.key] == items[i].src.json
    decreases |items|
  {
    var n := |items| - 1;
    var init := items[..n];
    CombinedLast(items);
    if i < n {
      assert forall j :: i < j < |init| ==> init[j] == items[j];
      assert init[i] == items[i];
      CombinedLastWins(init, i);
    }
  }

  /** The last child's JSON is put over what the others combine to. */
  lemma CombinedLast(items: seq<Item>)
    requires AllSources(items) && |items| > 0
    ensures AllSources(items[..|items| - 1]) && items[|items| - 1].SourceItem?
    ensures Combined(items[..|items| - 1]).Ok?
    ensures Combined(items) ==
              Ok(Combined(items[..|items| - 1]).value.Put(items[|items| - 1].src.key, items[|items| - 1].src.json))
  {
    var init := items[..|items| - 1];
    assert AllSources(init) by {
      assert forall j :: 0 <= j < |init| ==> init[j] == items[j];
    }
    CombinedKeys(init);
  }

  /** Children with pairwise distinct keys each appear under their own key, in order. */
  lemma CombinedDistinctKeys(items: seq<Item>)
    requires AllSources(items) && NoDup(Keys(items))
    ensures Combined(items).Ok?
    ensures Combined(items).value.keys == Keys(items)
    ensures forall i :: 0 <= i < |items| ==>
              items[i].src.key in Combined(items).value.vals &&
              Combined(items).value.vals[items[i].src.key] == items[i].src.json
  {
    CombinedKeys(items);
    AddAllDistinct([], Keys(items));
    assert [] + Keys(items) == Keys(items);
    forall i | 0 <= i < |items|
      ensures items[i].src.key in Combined(items).value.vals
      ensures Combined(items).value.vals[items[i].src.key] == items[i].src.json
    {
      DistinctKeyWins(items, i);
    }
  }

  /** With pairwise distinct keys, no later child shares child i's key, so child i's value stands. */
  lemma DistinctKeyWins(items: seq<Item>, i: int)
    requires AllSources(items) && NoDup(Keys(items)) && 0 <= i < |items|
    ensures Combined(items).Ok?
    ensures items[i].src.key in Combined(items).value.vals
    ensures Combined(items).value.vals[items[i].src.key] == items[i].src.json
  {
    forall j | i < j < |items| ensures items[j].src.key != items[i].src.key {
      assert Keys(items)[i] == items[i].src.key && Keys(items)[j] == items[j].src.key;
    }
    CombinedLastWins(items, i);
  }

  /** How many children, from the front, are sources: updateHash stops at the first string. */
  function LeadingSources(items: seq<Item>): (n: nat)
    ensures n <= |items| && AllSources(items[..n])
    ensures n < |items| ==> items[n].StringItem?
    decreases |items|
  {
    if |items| == 0 || items[0].StringItem? then 0
    else
      var m := LeadingSources(items[1..]);
      assert items[..m + 1] == [items[0]] + items[1..][..m];
      m + 1
  }

  class JSONConcatSource {
    var children: seq<Item>

    /** `new JSONConcatSource(...items)`: the arguments, in order. */
    constructor (items: seq<Item>)
      ensures children == items
    {
      children := items;
    }

    /** `add(item)`: one more child at the end. */
    method Add(item: Item)
      modifies this
      ensures children == old(children) + [item]
      ensures TotalSize(children) == TotalSize(old(children)) + ItemSize(item)
    {
      TotalSizeAppend(children, [item]);
      children := children + [item];
    }

    /**
     * `source()`: `JSON.stringify` of the object that maps each child's key
     * to its JSON, or the error a string child raises.
     */
    method Source(stringify: JsonValue -> string) returns (r: Result<string, Error>)
      ensures Combined(children).Err? ==> r == Err(Combined(children).error)
      ensures Combined(children).Ok? ==>
                Combined(children).value.Valid() && r == Ok(stringify(ObjectOf(Combined(children).value)))
    {
      var combined := EmptyDict();
      var i := 0;
      while i < |children|
        invariant 0 <= i <= |children|
        invariant Combined(children[..i]) == Ok(combined) && combined.Valid()
      {
        assert children[..i + 1][..i] == children[..i];
        match children[i]
        case StringItem(_) =>
          CombinedErrPersists(children, i + 1);
          return Err(NotAFunction("key"));
        case SourceItem(s) =>
          combined := combined.Put(s.key, s.json);
        i := i + 1;
      }
      assert children[..i] == children;
      r := Ok(stringify(ObjectOf(combined)));
    }

    /** `size()`. */
    function Size(): nat
      reads this
    {
      TotalSize(children)
    }

    /**
     * `updateHash(hash)`: each child in order updates the hash once with its
     * serialisation; a string child has no `updateHash`, which throws after
     * the children before it have been fed.
     */
    method UpdateHash(hash: Hash) returns (r: Outcome<Error>)
      modifies hash
      ensures r.Pass? <==> AllSources(children)
      ensures r.Fail? ==> r.error == NotAFunction("updateHash")
      ensures hash.log == old(hash.log) + Serialisations(children[..LeadingSources(children)])
    {
      var i := 0;
      while i < |children|
        invariant 0 <= i <= |children|
        invariant AllSources(children[..i])
        invariant hash.log == old(hash.log) + Serialisations(children[..i])
      {
        assert children[..i + 1][..i] == children[..i];
        match children[i]
        case StringItem(_) =>
          assert LeadingSources(children) == i;
          return Fail(NotAFunction("updateHash"));
        case SourceItem(s) =>
          s.UpdateHash(hash);
        assert Serialisations(children[..i + 1]) == Serialisations(children[..i]) + [s.source];
        i := i + 1;
      }
      assert children[..i] == children;
      r := Pass;
    }
  }
}
