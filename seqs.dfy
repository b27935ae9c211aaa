/**
 * JavaScript array operations the plugin relies on, as functions on sequences:
 * `indexOf`, an `indexOf`-guarded `push` (add-if-absent) and an
 * `indexOf`-guarded `splice(i, 1)` (remove-if-present).
 */
module Seqs {

  /** No element occurs twice. */
  predicate NoDup<T(==)>(s: seq<T>) {
    forall i, j :: 0 <= i < j < |s| ==> s[i] != s[j]
  }

  function Elems<T>(s: seq<T>): set<T> {
    set x | x in s
  }

  /** Array.prototype.indexOf: the first position holding x, or -1. */
  function IndexOf<T(==)>(s: seq<T>, x: T): (i: int)
    ensures -1 <= i < |s|
    ensures i == -1 <==> x !in s
    ensures 0 <= i ==> s[i] == x && x !in s[..i]
  {
    if |s| == 0 then -1
    else if s[0] == x then 0
    else
      var j := IndexOf(s[1..], x);
      if j == -1 then -1
      else
        assert s[..j + 1] == [s[0]] + s[1..][..j];
        j + 1
  }

  /** `if (s.indexOf(x) < 0) s.push(x)`. */
  function AddIfAbsent<T(==)>(s: seq<T>, x: T): (r: seq<T>)
    ensures s <= r && x in r
    ensures forall y :: y in r ==> y in s || y == x
    ensures NoDup(s) ==> NoDup(r)
  {
    if x in s then s else s + [x]
  }

  /** Add-if-absent of every element of xs, left to right. */
  function AddAll<T(==)>(s: seq<T>, xs: seq<T>): seq<T>
    decreases |xs|
  {
    if |xs| == 0 then s else AddIfAbsent(AddAll(s, xs[..|xs| - 1]), xs[|xs| - 1])
  }

  /** AddAll keeps what was there, in place, and gains exactly the elements of xs. */
  lemma {:induction false} AddAllMembers<T>(s: seq<T>, xs: seq<T>)
    ensures s <= AddAll(s, xs)
    ensures forall y :: y in AddAll(s, xs) <==> y in s || y in xs
    ensures NoDup(s) ==> NoDup(AddAll(s, xs))
    decreases |xs|
  {
    if |xs| > 0 {
      var init := xs[..|xs| - 1];
      AddAllMembers(s, init);
      assert xs == init + [xs[|xs| - 1]];
    }
  }

  /** Adding the elements of xs and then x is adding the elements of xs + [x]. */
  lemma AddAllSnoc<T>(s: seq<T>, xs: seq<T>, x: T)
    ensures AddAll(s, xs + [x]) == AddIfAbsent(AddAll(s, xs), x)
  {
    assert (xs + [x])[..|xs|] == xs;
  }

  /** Adding the elements of xs and then those of ys is adding those of xs + ys. */
  lemma {:induction false} AddAllConcat<T>(s: seq<T>, xs: seq<T>, ys: seq<T>)
    ensures AddAll(AddAll(s, xs), ys) == AddAll(s, xs + ys)
    decreases |ys|
  {
    if |ys| == 0 {
      assert xs + ys == xs;
    } else {
      var init := ys[..|ys| - 1];
      var last := ys[|ys| - 1];
      AddAllConcat(s, xs, init);
      assert xs + ys == (xs + init) + [last];
      AddAllSnoc(s, xs + init, last);
    }
  }

  /** In a duplicate-free sequence, indexOf finds each element at its own position. */
  lemma IndexOfDistinct<T>(s: seq<T>, i: int)
    requires NoDup(s) && 0 <= i < |s|
    ensures IndexOf(s, s[i]) == i
  {
    var j := IndexOf(s, s[i]);
    assert s[j] == s[i];
  }

  /** When nothing is repeated, adding each absent element is plain concatenation. */
  lemma {:induction false} AddAllDistinct<T>(s: seq<T>, xs: seq<T>)
    requires NoDup(s + xs)
    ensures AddAll(s, xs) == s + xs
    decreases |xs|
  {
    if |xs| > 0 {
      var init := xs[..|xs| - 1];
      var last := xs[|xs| - 1];
      assert s + xs == (s + init) + [last];
      assert NoDup(s + init) by {
        forall i, j | 0 <= i < j < |s + init| ensures (s + init)[i] != (s + init)[j] {
          assert (s + init)[i] == (s + xs)[i] && (s + init)[j] == (s + xs)[j];
        }
      }
      AddAllDistinct(s, init);
      assert last !in s + init by {
        forall k | 0 <= k < |s + init| ensures (s + init)[k] != last {
          assert (s + init)[k] == (s + xs)[k] && last == (s + xs)[|s + xs| - 1];
        }
      }
    }
  }

  /** `var i = s.indexOf(x); if (i >= 0) s.splice(i, 1)`: drop the first x. */
  function Remove<T(==)>(s: seq<T>, x: T): (r: seq<T>)
    ensures x in s ==> |r| == |s| - 1
    ensures x !in s ==> r == s
  {
    var i := IndexOf(s, x);
    if i < 0 then s else s[..i] + s[i + 1..]
  }

  /** On a duplicate-free sequence, Remove drops x entirely and keeps everything else. */
  lemma RemoveMembers<T>(s: seq<T>, x: T)
    requires NoDup(s)
    ensures NoDup(Remove(s, x)) && x !in Remove(s, x)
    ensures forall y :: y != x ==> (y in Remove(s, x) <==> y in s)
  {
    var i := IndexOf(s, x);
    if 0 <= i {
      var r := s[..i] + s[i + 1..];
      assert forall k :: 0 <= k < |r| ==> r[k] == (if k < i then s[k] else s[k + 1]);
      forall y | y != x ensures y in r <==> y in s {
        if y in s {
          var k :| 0 <= k < |s| && s[k] == y;
          assert k != i;
          assert r[if k < i then k else k - 1] == y;
        }
      }
    }
  }

  /** Removing the first element of a sequence that starts with it leaves its tail. */
  lemma RemoveHead<T>(s: seq<T>)
    requires |s| > 0
    ensures Remove(s, s[0]) == s[1..]
  {
    assert IndexOf(s, s[0]) == 0;
  }

  /** The elements of s that are not in d, in order. */
  function Without<T(==)>(s: seq<T>, d: set<T>): seq<T>
    decreases |s|
  {
    if |s| == 0 then [] else Without(s[..|s| - 1], d) + (if s[|s| - 1] in d then [] else [s[|s| - 1]])
  }

  /** Without keeps exactly the elements outside d, and keeps them distinct. */
  lemma {:induction false} WithoutMembers<T>(s: seq<T>, d: set<T>)
    ensures forall y :: y in Without(s, d) <==> y in s && y !in d
    ensures NoDup(s) ==> NoDup(Without(s, d))
    decreases |s|
  {
    if |s| > 0 {
      var init := s[..|s| - 1];
      var last := s[|s| - 1];
      WithoutMembers(init, d);
      assert s == init + [last];
      if NoDup(s) {
        assert NoDup(init) && last !in init;
      }
    }
  }

  /** Filtering a concatenation filters each part. */
  lemma {:induction false} WithoutConcat<T>(a: seq<T>, b: seq<T>, d: set<T>)
    ensures Without(a + b, d) == Without(a, d) + Without(b, d)
    decreases |b|
  {
    if |b| == 0 {
      assert a + b == a;
    } else {
      var init := b[..|b| - 1];
      var last := b[|b| - 1];
      assert b == init + [last];
      assert (a + b)[..|a + b| - 1] == a + init && (a + b)[|a + b| - 1] == last;
      WithoutConcat(a, init, d);
    }
  }

  /** Filtering out what does not occur changes nothing. */
  lemma {:induction false} WithoutNone<T>(s: seq<T>, d: set<T>)
    requires forall y :: y in s ==> y !in d
    ensures Without(s, d) == s
    decreases |s|
  {
    if |s| > 0 {
      WithoutNone(s[..|s| - 1], d);
    }
  }

  /** Filtering twice is filtering once by both sets. */
  lemma {:induction false} WithoutTwice<T>(s: seq<T>, a: set<T>, b: set<T>)
    ensures Without(Without(s, a), b) == Without(s, a + b)
    decreases |s|
  {
    if |s| > 0 {
      var init := s[..|s| - 1];
      var last := s[|s| - 1];
      WithoutTwice(init, a, b);
      WithoutConcat(Without(init, a), if last in a then [] else [last], b);
    }
  }

  /** A first element in d is filtered out. */
  lemma WithoutHead<T>(x: T, post: seq<T>, d: set<T>)
    requires x in d
    ensures Without([x] + post, d) == Without(post, d)
  {
    WithoutConcat([x], post, d);
    assert [x][..0] == [];
  }

  /** Filtering x out of a sequence holding it once, between pre and post, leaves pre + post. */
  lemma WithoutOne<T>(pre: seq<T>, x: T, post: seq<T>)
    requires x !in pre && x !in post
    ensures Without(pre + ([x] + post), {x}) == pre + post
  {
    WithoutConcat(pre, [x] + post, {x});
    WithoutHead(x, post, {x});
    WithoutNone(pre, {x});
    WithoutNone(post, {x});
  }

  /** On a duplicate-free sequence, Remove is filtering x out. */
  lemma RemoveIsWithout<T>(w: seq<T>, x: T)
    requires NoDup(w)
    ensures Remove(w, x) == Without(w, {x})
  {
    var i := IndexOf(w, x);
    if i < 0 {
      WithoutNone(w, {x});
    } else {
      var pre, post := w[..i], w[i + 1..];
      assert w == pre + ([x] + post);
      NotAfter(w, i);
      WithoutOne(pre, x, post);
    }
  }

  /** In a duplicate-free sequence, nothing after position i equals the element at i. */
  lemma NotAfter<T>(w: seq<T>, i: int)
    requires NoDup(w) && 0 <= i < |w|
    ensures w[i] !in w[i + 1..]
  {
    var post := w[i + 1..];
    forall k | 0 <= k < |post| ensures post[k] != w[i] {
      assert post[k] == w[i + 1 + k];
    }
  }

  /**
   * On a duplicate-free sequence, removing x from what survives the filter d
   * is filtering by d and x together.
   */
  lemma RemoveWithout<T>(s: seq<T>, d: set<T>, x: T)
    requires NoDup(s)
    ensures Remove(Without(s, d), x) == Without(s, d + {x})
  {
    WithoutTwice(s, d, {x});
    WithoutMembers(s, d);
    RemoveIsWithout(Without(s, d), x);
  }
}
