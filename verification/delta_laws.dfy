/**
  Laws of DeltaCollection.apply / unapply (nlstruct/core/text.py:42-71):
  identity, the snap rule, monotonicity of the forward map, and the
  conditional round trip together with the deletion that breaks it.
 */
module DeltaLaws {
  import opened Wrappers
  import opened Deltas

  /** The collection a rewrite of disjoint, ordered, non-empty replacements
      produces. */
  predicate WellFormed(ds: seq<Delta>)
  {
    Proper(ds) && Ascending(ds) && NonEmptyReplacements(ds)
  }

  /** An empty collection is the identity in both directions. */
  lemma EmptyIsIdentity(p: int, side: Side)
    ensures Apply([], p, side) == p
    ensures Unapply([], p, side) == p
  {
    assert Boundaries([]) == [];
  }

  /** Away from every edited region the side does not matter: the position is
      shifted by the deltas of the intervals ending at or before it. */
  lemma ApplyOutside(ds: seq<Delta>, p: int)
    requires Outside(ds, p)
    ensures Apply(ds, p, Left) == Apply(ds, p, Right) == p + ShiftBefore(ds, p)
  {
  }

  /** In an ordered collection, the shift at `p` is the total delta of the
      intervals before the first one that does not end at or before `p`. */
  lemma ShiftBeforeAscending(ds: seq<Delta>, p: int, i: nat)
    requires Proper(ds) && Ascending(ds)
    requires i <= |ds|
    requires forall j :: 0 <= j < i ==> ds[j].end <= p
    requires i < |ds| ==> p < ds[i].end
    ensures ShiftBefore(ds, p) == TotalDelta(ds[..i])
  {
    forall j | i <= j < |ds|
      ensures p < ds[j].end
    {
      if i < j {
        assert ds[i].end <= ds[j].begin <= ds[j].end;
      }
    }
    ShiftBeforePrefix(ds, p, i);
  }

  /** The snap rule: a position strictly inside interval `i` of an ordered
      collection goes to that interval's new start (Left) or new end (Right). */
  lemma ApplySnap(ds: seq<Delta>, p: int, i: nat)
    requires Proper(ds) && Ascending(ds)
    requires i < |ds| && Inside(ds[i], p)
    ensures Apply(ds, p, Left) == ds[i].begin + TotalDelta(ds[..i])
    ensures Apply(ds, p, Right) == ds[i].end + TotalDelta(ds[..i + 1])
  {
    forall j | 0 <= j < |ds| && j != i
      ensures !Inside(ds[j], p)
    {
    }
    ShiftBeforeAscending(ds, p, i);
    TotalDeltaSnoc(ds, i);
  }

  /** With several intervals containing `p` (possible only in a malformed
      collection), the lowest-index one decides. */
  lemma ApplySnapLowestIndex(ds: seq<Delta>, p: int, i: nat)
    requires i < |ds| && Inside(ds[i], p)
    requires forall k :: 0 <= k < i ==> !Inside(ds[k], p)
    ensures Apply(ds, p, Left) == ds[i].begin + ShiftBefore(ds, p)
    ensures Apply(ds, p, Right) == ds[i].end + ds[i].delta + ShiftBefore(ds, p)
  {
  }

  /** The example of a three-letter word replaced by one letter. */
  lemma SnapExample()
    ensures Apply([Delta(0, 3, -2)], 1, Left) == 0
    ensures Apply([Delta(0, 3, -2)], 1, Right) == 1
  {
    assert FirstContaining([Delta(0, 3, -2)], 1) == Some(0);
  }

  // ---------------------------------------------------------------------------
  // Monotonicity of the forward map
  // ---------------------------------------------------------------------------

  /** Over intervals that all start at or after `x`, the deltas ending by `y`
      never remove more than the `y - x` characters in between. */
  lemma {:induction false} Gap(ds: seq<Delta>, x: int, y: int)
    requires Proper(ds) && Ascending(ds) && NonNegativeReplacements(ds)
    requires forall k :: 0 <= k < |ds| ==> x <= ds[k].begin
    requires x <= y
    ensures ShiftBefore(ds, y) + (y - x) >= 0
    ensures NonEmptyReplacements(ds) && x < y ==> ShiftBefore(ds, y) + (y - x) > 0
  {
    if |ds| > 0 {
      var rest := ds[1..];
      assert forall k :: 0 <= k < |rest| ==> rest[k] == ds[k + 1];
      if ds[0].end <= y {
        Gap(rest, ds[0].end, y);
      } else {
        Gap(rest, y, y);
      }
    }
  }

  /** Forward image of a position that is not strictly inside an edit. */
  function Image(ds: seq<Delta>, x: int): int
  {
    x + ShiftBefore(ds, x)
  }

  /** `x + ShiftBefore(ds, x)` grows with `x` from any position that no edit
      strictly contains; strictly so when replacements are non-empty. */
  lemma {:induction false} Monotone(ds: seq<Delta>, x: int, y: int)
    requires Proper(ds) && Ascending(ds) && NonNegativeReplacements(ds)
    requires Outside(ds, x) && x <= y
    ensures Image(ds, x) <= Image(ds, y)
    ensures NonEmptyReplacements(ds) && x < y ==> Image(ds, x) < Image(ds, y)
  {
    if |ds| > 0 {
      var rest := ds[1..];
      assert forall k :: 0 <= k < |rest| ==> rest[k] == ds[k + 1];
      if ds[0].end <= x {
        Monotone(rest, x, y);
      } else {
        assert !Inside(ds[0], x);
        forall k | 0 <= k < |ds|
          ensures x <= ds[k].begin && x < ds[k].end
        {
          if k > 0 {
            assert ds[0].end <= ds[k].begin;
          }
        }
        ShiftBeforeNone(ds, x);
        Gap(ds, x, y);
      }
    }
  }

  /** Interval boundaries of an ordered collection lie inside no interval. */
  lemma BoundariesOutside(ds: seq<Delta>, k: nat)
    requires Proper(ds) && Ascending(ds) && k < |ds|
    ensures Outside(ds, ds[k].begin) && Outside(ds, ds[k].end)
  {
    forall j | 0 <= j < |ds|
      ensures !Inside(ds[j], ds[k].begin) && !Inside(ds[j], ds[k].end)
    {
      if j < k {
        assert ds[j].end <= ds[k].begin;
      } else if k < j {
        assert ds[k].end <= ds[j].begin;
      }
    }
  }

  // ---------------------------------------------------------------------------
  // Round trip
  // ---------------------------------------------------------------------------

  /** Mapped into the rewritten text, a position no edit contains still lies
      inside no mapped interval, and the same intervals end before it. */
  lemma MappedOutside(ds: seq<Delta>, p: int)
    requires WellFormed(ds) && Outside(ds, p)
    ensures Outside(Boundaries(ds), Image(ds, p))
    ensures ShiftBefore(Boundaries(ds), Image(ds, p)) == ShiftBefore(ds, p)
  {
    var q := Image(ds, p);
    var m := Boundaries(ds);
    forall k | 0 <= k < |ds|
      ensures (m[k].end <= q <==> ds[k].end <= p) && !Inside(m[k], q)
    {
      BoundariesOutside(ds, k);
      assert m[k].begin == Image(ds, ds[k].begin);
      assert m[k].end == Image(ds, ds[k].end);
      if ds[k].end <= p {
        Monotone(ds, ds[k].end, p);
      } else {
        Monotone(ds, p, ds[k].end);
      }
      if p <= ds[k].begin {
        Monotone(ds, p, ds[k].begin);
      }
    }
    ShiftBeforeAgree(m, q, ds, p);
  }

  /** unapply undoes apply for every position that no edit strictly contains,
      on an ordered collection whose replacements are all non-empty. */
  lemma RoundTrip(ds: seq<Delta>, p: int, side: Side)
    requires WellFormed(ds) && Outside(ds, p)
    ensures Unapply(ds, Apply(ds, p, side), side) == p
  {
    assert Apply(ds, p, side) == Image(ds, p);
    MappedOutside(ds, p);
  }

  /** Apply and unapply do not depend on the listing order of a collection
      whose intervals are side by side, away from every edited region. */
  lemma ReverseInvariant(ds: seq<Delta>, p: int, side: Side)
    requires Proper(ds) && Ascending(ds) && Outside(ds, p)
    ensures Outside(Reverse(ds), p)
    ensures Apply(Reverse(ds), p, side) == Apply(ds, p, side)
    ensures Boundaries(Reverse(ds)) == Reverse(Boundaries(ds))
  {
    OutsideReverse(ds, p);
    ApplyReverseOutside(ds, p, side);
    BoundariesReverse(ds);
  }

  lemma BoundariesReverse(ds: seq<Delta>)
    requires Proper(ds) && Ascending(ds)
    ensures Boundaries(Reverse(ds)) == Reverse(Boundaries(ds))
  {
    var m := Boundaries(ds);
    var mr := Boundaries(Reverse(ds));
    var rm := Reverse(m);
    assert |mr| == |rm| == |ds|;
    forall k | 0 <= k < |ds|
      ensures mr[k] == rm[k]
    {
      ReverseBoundaryAt(ds, k);
      assert rm[k] == m[|ds| - 1 - k];
    }
  }

  /** Away from every edited region, apply ignores the listing order. */
  lemma ApplyReverseOutside(ds: seq<Delta>, p: int, side: Side)
    requires Outside(ds, p)
    ensures Apply(Reverse(ds), p, side) == Apply(ds, p, side)
  {
    OutsideReverse(ds, p);
    assert FirstContaining(Reverse(ds), p).None?;
    ShiftBeforeReverse(ds, p);
  }

  /** The `k`-th mapped interval of the reversed listing is the mirrored one
      of the original listing. */
  lemma ReverseBoundaryAt(ds: seq<Delta>, k: nat)
    requires Proper(ds) && Ascending(ds) && k < |ds|
    ensures Boundaries(Reverse(ds))[k] == Boundaries(ds)[|ds| - 1 - k]
  {
    var j := |ds| - 1 - k;
    BoundariesOutside(ds, j);
    assert Reverse(ds)[k] == ds[j];
    ApplyReverseOutside(ds, ds[j].begin, Left);
    ApplyReverseOutside(ds, ds[j].end, Right);
  }

  lemma OutsideReverse(ds: seq<Delta>, p: int)
    requires Outside(ds, p)
    ensures Outside(Reverse(ds), p)
  {
    var r := Reverse(ds);
    forall k | 0 <= k < |r|
      ensures !Inside(r[k], p)
    {
      assert r[k] == ds[|ds| - 1 - k];
    }
  }

  /** Listing a right-to-left collection backwards gives a well-formed one. */
  lemma ReverseDescending(ds: seq<Delta>)
    requires Proper(ds) && Descending(ds) && NonEmptyReplacements(ds)
    ensures WellFormed(Reverse(ds))
    ensures Reverse(Reverse(ds)) == ds
  {
    var n := |ds|;
    var a := Reverse(ds);
    forall i, j | 0 <= i < j < n
      ensures a[i].end <= a[j].begin
    {
      assert a[i] == ds[n - 1 - i] && a[j] == ds[n - 1 - j];
    }
    forall k | 0 <= k < n
      ensures a[k].begin <= a[k].end && a[k].end - a[k].begin + a[k].delta > 0
    {
      assert a[k] == ds[n - 1 - k];
    }
    assert Reverse(a) == ds;
  }

  /** The mapped-outside property for a collection listed right to left. */
  lemma MappedOutsideDescending(ds: seq<Delta>, p: int)
    requires Proper(ds) && Descending(ds) && NonEmptyReplacements(ds) && Outside(ds, p)
    ensures Outside(Boundaries(ds), Image(ds, p))
    ensures ShiftBefore(Boundaries(ds), Image(ds, p)) == ShiftBefore(ds, p)
  {
    var a := Reverse(ds);
    var q := Image(ds, p);
    ImageReverse(ds, p);
    ReverseDescending(ds);
    OutsideReverse(ds, p);
    MappedOutside(a, p);
    var m := Boundaries(a);
    var mds := Boundaries(ds);
    BoundariesOfReversed(ds, a, m);
    MappedReversed(mds, m, q, ShiftBefore(ds, p));
  }

  /** The image of a position does not depend on the order of the intervals. */
  lemma ImageReverse(ds: seq<Delta>, p: int)
    ensures Image(Reverse(ds), p) == Image(ds, p)
  {
    ShiftBeforeReverse(ds, p);
  }

  /** Lying outside, and the shift, do not depend on the order the intervals
      are listed in. */
  lemma MappedReversed(r: seq<Delta>, m: seq<Delta>, q: int, shift: int)
    requires r == Reverse(m) && Outside(m, q) && ShiftBefore(m, q) == shift
    ensures Outside(r, q) && ShiftBefore(r, q) == shift
  {
    OutsideReverse(m, q);
    ShiftBeforeReverse(m, q);
  }

  /** The mapped intervals of a right-to-left collection are those of its
      reversal, listed backwards. */
  lemma BoundariesOfReversed(ds: seq<Delta>, a: seq<Delta>, m: seq<Delta>)
    requires Proper(ds) && Descending(ds) && NonEmptyReplacements(ds)
    requires a == Reverse(ds) && m == Boundaries(a)
    ensures Boundaries(ds) == Reverse(m)
  {
    ReverseDescending(ds);
    BoundariesReverse(a);
  }

  /** The round trip for a collection listed right to left, as
      regex_sub_with_spans records it. */
  lemma RoundTripDescending(ds: seq<Delta>, p: int, side: Side)
    requires Proper(ds) && Descending(ds) && NonEmptyReplacements(ds) && Outside(ds, p)
    ensures Unapply(ds, Apply(ds, p, side), side) == p
  {
    assert Apply(ds, p, side) == Image(ds, p);
    MappedOutsideDescending(ds, p);
    assert FirstContaining(Boundaries(ds), Image(ds, p)).None?;
  }

  /** The collections a rewrite records: proper intervals with non-empty
      replacements, listed left to right or right to left. */
  predicate OrderedEdits(ds: seq<Delta>)
  {
    Proper(ds) && (Ascending(ds) || Descending(ds)) && NonEmptyReplacements(ds)
  }

  /** Ordered intervals, in either direction, are disjoint. */
  lemma OrderedDisjoint(ds: seq<Delta>)
    requires Ascending(ds) || Descending(ds)
    ensures Disjoint(ds)
  {
    forall i, j | 0 <= i < |ds| && 0 <= j < |ds| && i != j
      ensures ds[i].end <= ds[j].begin || ds[j].end <= ds[i].begin
    {
      if i < j {
        assert Ascending(ds) ==> ds[i].end <= ds[j].begin;
      } else {
        assert Ascending(ds) ==> ds[j].end <= ds[i].begin;
      }
    }
  }

  /** The mapped-outside property in either order. */
  lemma MappedOutsideOrdered(ds: seq<Delta>, p: int)
    requires OrderedEdits(ds) && Outside(ds, p)
    ensures Outside(Boundaries(ds), Image(ds, p))
    ensures ShiftBefore(Boundaries(ds), Image(ds, p)) == ShiftBefore(ds, p)
  {
    if Ascending(ds) {
      MappedOutside(ds, p);
    } else {
      MappedOutsideDescending(ds, p);
    }
  }

  /** A deletion breaks the round trip: erasing [1, 2) maps 1 to 1, and 1
      maps back to 2. */
  lemma DeletionBreaksRoundTrip()
    ensures Apply([Delta(1, 2, -1)], 1, Left) == 1
    ensures Unapply([Delta(1, 2, -1)], 1, Left) == 2
  {
    var ds := [Delta(1, 2, -1)];
    assert FirstContaining(ds, 1).None?;
    assert FirstContaining(ds, 2).None?;
    assert Boundaries(ds) == [Delta(1, 1, -1)];
    assert FirstContaining([Delta(1, 1, -1)], 1).None?;
  }
}
