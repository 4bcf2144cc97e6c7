/**
  Composition of two collections, DeltaCollection.__add__
  (nlstruct/core/text.py:73-84): `a + b` describes running the rewrite of `a`
  and then the rewrite of `b` as one rewrite of the original text.
 */
module Composition {
  import opened Deltas

  /** The (begin, end) order of `np.lexsort((ends, begins))`. */
  predicate KeyLe(x: Delta, y: Delta)
  {
    x.begin < y.begin || (x.begin == y.begin && x.end <= y.end)
  }

  predicate SameKey(x: Delta, begin: int, end: int)
  {
    x.begin == begin && x.end == end
  }

  predicate KeySorted(s: seq<Delta>)
  {
    forall i, j :: 0 <= i < j < |s| ==> KeyLe(s[i], s[j])
  }

  /** The rows of `s` whose key is (begin, end), in their order in `s`. */
  function KeyFilter(s: seq<Delta>, begin: int, end: int): seq<Delta>
  {
    if |s| == 0 then []
    else (if SameKey(s[0], begin, end) then [s[0]] else []) + KeyFilter(s[1..], begin, end)
  }

  lemma {:induction false} KeyFilterAppend(a: seq<Delta>, b: seq<Delta>, begin: int, end: int)
    ensures KeyFilter(a + b, begin, end) == KeyFilter(a, begin, end) + KeyFilter(b, begin, end)
  {
    if |a| == 0 {
      assert a + b == b;
    } else {
      var h := if SameKey(a[0], begin, end) then [a[0]] else [];
      assert (a + b)[0] == a[0];
      assert (a + b)[1..] == a[1..] + b;
      KeyFilterAppend(a[1..], b, begin, end);
      assert KeyFilter(a + b, begin, end) == h + KeyFilter(a[1..] + b, begin, end);
      assert KeyFilter(a, begin, end) == h + KeyFilter(a[1..], begin, end);
    }
  }

  /** Places `x` before the first row whose key is not below its own, so that
      `x` precedes the rows with an equal key. */
  function Insert(x: Delta, s: seq<Delta>): (r: seq<Delta>)
    requires KeySorted(s)
    ensures KeySorted(r)
    ensures multiset(r) == multiset(s) + multiset{x}
    ensures |r| == |s| + 1
  {
    if |s| == 0 || KeyLe(x, s[0]) then
      [x] + s
    else
      var tail := Insert(x, s[1..]);
      assert s == [s[0]] + s[1..];
      InsertHeadBelow(s[0], x, s[1..], tail);
      [s[0]] + tail
  }

  lemma InsertHeadBelow(h: Delta, x: Delta, rest: seq<Delta>, tail: seq<Delta>)
    requires KeyLe(h, x)
    requires KeySorted([h] + rest)
    requires KeySorted(tail)
    requires multiset(tail) == multiset(rest) + multiset{x}
    ensures KeySorted([h] + tail)
  {
    var s := [h] + rest;
    assert s[0] == h;
    forall k | 0 <= k < |tail|
      ensures KeyLe(h, tail[k])
    {
      assert tail[k] in multiset(tail);
      if tail[k] != x {
        assert tail[k] in multiset(rest);
        var j :| 0 <= j < |rest| && rest[j] == tail[k];
        assert s[j + 1] == rest[j];
      }
    }
    var r := [h] + tail;
    forall i, j | 0 <= i < j < |r|
      ensures KeyLe(r[i], r[j])
    {
      if i > 0 {
        assert r[i] == tail[i - 1] && r[j] == tail[j - 1];
      } else {
        assert r[j] == tail[j - 1];
      }
    }
  }

  lemma {:induction false} InsertTotal(x: Delta, s: seq<Delta>)
    requires KeySorted(s)
    ensures TotalDelta(Insert(x, s)) == x.delta + TotalDelta(s)
  {
    if |s| > 0 && !KeyLe(x, s[0]) {
      InsertTotal(x, s[1..]);
    }
  }

  /** Filtered to one key, an insertion adds `x` in front of the rows of that
      key, or nothing. */
  lemma {:induction false} InsertFilter(x: Delta, s: seq<Delta>, begin: int, end: int)
    requires KeySorted(s)
    ensures KeyFilter(Insert(x, s), begin, end) ==
      (if SameKey(x, begin, end) then [x] else []) + KeyFilter(s, begin, end)
  {
    var hx := if SameKey(x, begin, end) then [x] else [];
    if |s| == 0 || KeyLe(x, s[0]) {
      assert ([x] + s)[1..] == s;
    } else {
      var tail := Insert(x, s[1..]);
      var hs := if SameKey(s[0], begin, end) then [s[0]] else [];
      assert ([s[0]] + tail)[0] == s[0];
      assert ([s[0]] + tail)[1..] == tail;
      InsertFilter(x, s[1..], begin, end);
      assert KeyFilter(Insert(x, s), begin, end) == hs + (hx + KeyFilter(s[1..], begin, end));
      assert KeyFilter(s, begin, end) == hs + KeyFilter(s[1..], begin, end);
      // `x` sorts after `s[0]`, so the two keys differ and at most one is kept.
      assert hs == [] || hx == [];
    }
  }

  /** Stable sort by (begin, end): rows with equal keys keep their order. */
  function SortByKey(s: seq<Delta>): (r: seq<Delta>)
    ensures KeySorted(r)
    ensures multiset(r) == multiset(s)
    ensures |r| == |s|
    ensures TotalDelta(r) == TotalDelta(s)
    ensures forall begin, end :: (KeyFilter(r, begin, end) == KeyFilter(s, begin, end))
  {
    if |s| == 0 then []
    else
      assert s == [s[0]] + s[1..];
      var sorted := SortByKey(s[1..]);
      InsertTotal(s[0], sorted);
      SortFilterStep(s, sorted);
      Insert(s[0], sorted)
  }

  lemma SortFilterStep(s: seq<Delta>, sorted: seq<Delta>)
    requires |s| > 0 && KeySorted(sorted)
    requires forall begin, end :: (KeyFilter(sorted, begin, end) == KeyFilter(s[1..], begin, end))
    ensures forall begin, end :: (KeyFilter(Insert(s[0], sorted), begin, end) == KeyFilter(s, begin, end))
  {
    forall begin, end
      ensures KeyFilter(Insert(s[0], sorted), begin, end) == KeyFilter(s, begin, end)
    {
      InsertFilter(s[0], sorted, begin, end);
    }
  }

  /** `b`'s intervals expressed in the coordinates of the text before `a`:
      begins unapplied with Left, ends with Right, deltas kept. */
  function Reexpress(a: seq<Delta>, b: seq<Delta>): seq<Delta>
  {
    seq(|b|, k requires 0 <= k < |b| =>
      Delta(Unapply(a, b[k].begin, Left), Unapply(a, b[k].end, Right), b[k].delta))
  }

  /** `a + b`: run `a`, then `b`. */
  function Compose(a: seq<Delta>, b: seq<Delta>): (r: seq<Delta>)
    ensures |r| == |a| + |b|
  {
    if |a| == 0 then b
    else if |b| == 0 then a
    else SortByKey(Reexpress(a, b) + a)
  }

  /** Composing with an empty collection returns the other operand itself. */
  lemma ComposeEmpty(a: seq<Delta>)
    ensures Compose([], a) == a
    ensures Compose(a, []) == a
  {
  }

  /** The bookkeeping of `a + b` for two non-empty collections: it holds the
      rows of `a` unchanged and `b`'s rows re-expressed before `a`, sorted by
      (begin, end), with `b`'s rows first among equal keys, and the total
      change of length is the sum of both. */
  lemma ComposeShape(a: seq<Delta>, b: seq<Delta>)
    requires |a| > 0 && |b| > 0
    ensures var c := Compose(a, b);
      && |c| == |a| + |b|
      && multiset(c) == multiset(Reexpress(a, b)) + multiset(a)
      && KeySorted(c)
      && TotalDelta(c) == TotalDelta(a) + TotalDelta(b)
      && forall begin, end :: (KeyFilter(c, begin, end) ==
           KeyFilter(Reexpress(a, b), begin, end) + KeyFilter(a, begin, end))
  {
    var e := Reexpress(a, b);
    TotalDeltaAppend(e, a);
    assert TotalDelta(e) == TotalDelta(b) by {
      ReexpressTotal(a, b);
    }
    forall begin, end
      ensures KeyFilter(e + a, begin, end) == KeyFilter(e, begin, end) + KeyFilter(a, begin, end)
    {
      KeyFilterAppend(e, a, begin, end);
    }
  }

  lemma {:induction false} ReexpressTotal(a: seq<Delta>, b: seq<Delta>)
    ensures TotalDelta(Reexpress(a, b)) == TotalDelta(b)
  {
    if |b| > 0 {
      assert Reexpress(a, b)[1..] == Reexpress(a, b[1..]);
      ReexpressTotal(a, b[1..]);
    }
  }

  /** The composed collection, total delta included, is always the total
      change of length of the two rewrites, empty operands included. */
  lemma ComposeTotal(a: seq<Delta>, b: seq<Delta>)
    ensures TotalDelta(Compose(a, b)) == TotalDelta(a) + TotalDelta(b)
  {
    if |a| > 0 && |b| > 0 {
      ComposeShape(a, b);
    }
  }
}
