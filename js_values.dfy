/**
 * The JavaScript values the plugin handles: JSON data produced by the content
 * loader, plain objects used as string-keyed dictionaries, the TypeError
 * thrown by calling a method a receiver lacks, and String.prototype.replace
 * with a string pattern.
 */
module JsValues {
  import opened Wrappers
  import opened Seqs

  /** A value produced by JSON.parse. JSON has no NaN or infinities, so a number is a real. */
  datatype JsonValue =
    | Null
    | Bool(b: bool)
    | Num(n: real)
    | Str(s: string)
    | Arr(items: seq<JsonValue>)
    | Obj(members: seq<(string, JsonValue)>)

  /** ToBoolean on a JSON value: false, 0, -0 and "" are falsy, as is null. */
  predicate Truthy(v: JsonValue) {
    match v
    case Null => false
    case Bool(b) => b
    case Num(n) => n != 0.0
    case Str(s) => s != ""
    case Arr(_) => true
    case Obj(_) => true
  }

  /** The TypeError `x.<callee> is not a function`. */
  datatype Error = NotAFunction(callee: string)

  /**
   * A plain object used as a dictionary: its own property names in insertion
   * order and the value under each. Assigning to an existing property keeps
   * its position; a new property goes last.
   */
  datatype Dict<V> = Dict(keys: seq<string>, vals: map<string, V>) {

    predicate Valid() {
      NoDup(keys) && Elems(keys) == vals.Keys
    }

    /** `o[k] = v`. */
    function Put(k: string, v: V): (d: Dict<V>)
      ensures Valid() ==> d.Valid()
      ensures d.vals == vals[k := v]
      ensures keys <= d.keys && |d.keys| <= |keys| + 1
      ensures Valid() && k in vals ==> d.keys == keys
    {
      Dict(if k in vals then keys else keys + [k], vals[k := v])
    }
  }

  /** `{}`. */
  function EmptyDict<V>(): (d: Dict<V>)
    ensures d.Valid() && d.keys == [] && d.vals == map[]
  {
    Dict([], map[])
  }

  /** An object as a JSON value: its properties in enumeration order, each with its value. */
  function ObjectOf(d: Dict<JsonValue>): (o: JsonValue)
    requires d.Valid()
    ensures o.Obj? && |o.members| == |d.keys|
    ensures forall j :: 0 <= j < |d.keys| ==> o.members[j] == (d.keys[j], d.vals[d.keys[j]])
  {
    Obj(seq(|d.keys|, j requires 0 <= j < |d.keys| => (d.keys[j], d.vals[d.keys[j]])))
  }

  /** Does pat occur in s starting at position i? */
  predicate OccursAt(s: string, pat: string, i: nat) {
    i + |pat| <= |s| && s[i..i + |pat|] == pat
  }

  /** The first position at or after `from` where pat occurs in s. */
  function FindFrom(s: string, pat: string, from: nat): (r: Option<nat>)
    requires from <= |s|
    ensures r.Some? ==> from <= r.value && OccursAt(s, pat, r.value)
    ensures r.Some? ==> forall j :: from <= j < r.value ==> !OccursAt(s, pat, j)
    ensures r.None? ==> forall j :: from <= j <= |s| ==> !OccursAt(s, pat, j)
    decreases |s| - from
  {
    if OccursAt(s, pat, from) then Some(from)
    else if from == |s| then None
    else FindFrom(s, pat, from + 1)
  }

  /** String.prototype.indexOf with a string argument, or None for -1. */
  function FindFirst(s: string, pat: string): (r: Option<nat>)
    ensures r.Some? ==> OccursAt(s, pat, r.value) && forall j :: 0 <= j < r.value ==> !OccursAt(s, pat, j)
    ensures r.None? ==> forall j :: 0 <= j <= |s| ==> !OccursAt(s, pat, j)
  {
    FindFrom(s, pat, 0)
  }

  /**
   * `s.replace(pat, rep)` with a string pattern: only the first occurrence is
   * replaced, and a string without the pattern is returned as it is.
   */
  function ReplaceFirst(s: string, pat: string, rep: string): (r: string)
    ensures (forall j :: 0 <= j <= |s| ==> !OccursAt(s, pat, j)) ==> r == s
    ensures forall i: nat ::
              OccursAt(s, pat, i) && (forall j :: 0 <= j < i ==> !OccursAt(s, pat, j)) ==>
                r == s[..i] + rep + s[i + |pat|..]
  {
    match FindFirst(s, pat)
    case None => s
    case Some(i) => s[..i] + rep + s[i + |pat|..]
  }
}
