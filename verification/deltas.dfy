/**
  The interval-delta collection of nlstruct/core/text.py (class DeltaCollection).

  A collection records one rewrite of a text as intervals [begin, end) of the
  ORIGINAL text, each with the signed change in length its replacement causes.
  The numpy class keeps three parallel integer arrays; here one record per
  interval keeps them the same length by construction.
 */
module Deltas {
  import opened Wrappers

  /** One edited region [begin, end) of the original text; its replacement is
      `end - begin + delta` characters long. */
  datatype Delta = Delta(begin: int, end: int, delta: int)

  /** Which edge of an edited region a position strictly inside it snaps to. */
  datatype Side = Left | Right

  /** A rewritten text together with the collection describing the rewrite. */
  datatype Rewrite = Rewrite(text: string, deltas: seq<Delta>)

  /** Errors the original raises while building a collection. */
  datatype DeltaError = EmptyAbsolute

  // ---------------------------------------------------------------------------
  // Sums over a collection
  // ---------------------------------------------------------------------------

  /** Sum of the deltas of every interval ending at or before `p`
      (the `positions >= ends` mask of `apply`). */
  function ShiftBefore(ds: seq<Delta>, p: int): int
  {
    if |ds| == 0 then 0
    else (if ds[0].end <= p then ds[0].delta else 0) + ShiftBefore(ds[1..], p)
  }

  /** Sum of all deltas: the change in length of the whole text. */
  function TotalDelta(ds: seq<Delta>): int
  {
    if |ds| == 0 then 0 else ds[0].delta + TotalDelta(ds[1..])
  }

  lemma {:induction false} TotalDeltaAppend(a: seq<Delta>, b: seq<Delta>)
    ensures TotalDelta(a + b) == TotalDelta(a) + TotalDelta(b)
  {
    if |a| > 0 {
      assert (a + b)[1..] == a[1..] + b;
      TotalDeltaAppend(a[1..], b);
    } else {
      assert a + b == b;
    }
  }

  lemma {:induction false} ShiftBeforeAppend(a: seq<Delta>, b: seq<Delta>, p: int)
    ensures ShiftBefore(a + b, p) == ShiftBefore(a, p) + ShiftBefore(b, p)
  {
    if |a| > 0 {
      assert (a + b)[1..] == a[1..] + b;
      ShiftBeforeAppend(a[1..], b, p);
    } else {
      assert a + b == b;
    }
  }

  /** When every interval ends at or before `p`, the shift is the total delta. */
  lemma {:induction false} ShiftBeforeAll(ds: seq<Delta>, p: int)
    requires forall k :: 0 <= k < |ds| ==> ds[k].end <= p
    ensures ShiftBefore(ds, p) == TotalDelta(ds)
  {
    if |ds| > 0 {
      ShiftBeforeAll(ds[1..], p);
    }
  }

  /** When every interval ends after `p`, nothing shifts `p`. */
  lemma {:induction false} ShiftBeforeNone(ds: seq<Delta>, p: int)
    requires forall k :: 0 <= k < |ds| ==> p < ds[k].end
    ensures ShiftBefore(ds, p) == 0
  {
    if |ds| > 0 {
      ShiftBeforeNone(ds[1..], p);
    }
  }

  /** When exactly the first `k` intervals end at or before `p`, the shift is
      the total delta of those `k`. */
  lemma ShiftBeforePrefix(ds: seq<Delta>, p: int, k: nat)
    requires k <= |ds|
    requires forall j :: 0 <= j < k ==> ds[j].end <= p
    requires forall j :: k <= j < |ds| ==> p < ds[j].end
    ensures ShiftBefore(ds, p) == TotalDelta(ds[..k])
  {
    assert ds == ds[..k] + ds[k..];
    ShiftBeforeAppend(ds[..k], ds[k..], p);
    ShiftBeforeAll(ds[..k], p);
    ShiftBeforeNone(ds[k..], p);
  }

  /** Two collections whose intervals agree one by one on their deltas and on
      whether they end before their respective positions shift those
      positions by the same amount. */
  lemma {:induction false} ShiftBeforeAgree(a: seq<Delta>, x: int, b: seq<Delta>, y: int)
    requires |a| == |b|
    requires forall k :: 0 <= k < |a| ==> a[k].delta == b[k].delta
    requires forall k :: 0 <= k < |a| ==> (a[k].end <= x <==> b[k].end <= y)
    ensures ShiftBefore(a, x) == ShiftBefore(b, y)
  {
    if |a| > 0 {
      ShiftBeforeAgree(a[1..], x, b[1..], y);
    }
  }

  // ---------------------------------------------------------------------------
  // Reversal (regex_sub_with_spans records its intervals right to left)
  // ---------------------------------------------------------------------------

  function Reverse<T>(s: seq<T>): (r: seq<T>)
    ensures |r| == |s|
    ensures forall k :: 0 <= k < |s| ==> r[k] == s[|s| - 1 - k]
  {
    seq(|s|, k requires 0 <= k < |s| => s[|s| - 1 - k])
  }

  lemma {:induction false} ShiftBeforeReverse(ds: seq<Delta>, p: int)
    ensures ShiftBefore(Reverse(ds), p) == ShiftBefore(ds, p)
  {
    if |ds| > 0 {
      assert Reverse(ds) == Reverse(ds[1..]) + [ds[0]];
      ShiftBeforeAppend(Reverse(ds[1..]), [ds[0]], p);
      ShiftBeforeReverse(ds[1..], p);
    }
  }

  lemma {:induction false} TotalDeltaReverse(ds: seq<Delta>)
    ensures TotalDelta(Reverse(ds)) == TotalDelta(ds)
  {
    if |ds| > 0 {
      assert Reverse(ds) == Reverse(ds[1..]) + [ds[0]];
      TotalDeltaAppend(Reverse(ds[1..]), [ds[0]]);
      TotalDeltaReverse(ds[1..]);
    }
  }

  // ---------------------------------------------------------------------------
  // Containment and the snap rule
  // ---------------------------------------------------------------------------

  /** `p` lies strictly inside the edited region (the `between` mask). */
  predicate Inside(d: Delta, p: int)
  {
    d.begin < p < d.end
  }

  /** No interval of `ds` strictly contains `p`. */
  predicate Outside(ds: seq<Delta>, p: int)
  {
    forall k :: 0 <= k < |ds| ==> !Inside(ds[k], p)
  }

  /** The interval `between.argmax` selects: the lowest-index one strictly
      containing `p`, if any. */
  function FirstContaining(ds: seq<Delta>, p: int): (r: Option<nat>)
    ensures r.None? <==> Outside(ds, p)
    ensures r.Some? ==> r.value < |ds| && Inside(ds[r.value], p)
    ensures r.Some? ==> forall k :: 0 <= k < r.value ==> !Inside(ds[k], p)
  {
    if |ds| == 0 then None
    else if Inside(ds[0], p) then Some(0)
    else match FirstContaining(ds[1..], p)
      case None => None
      case Some(i) => Some(i + 1)
  }

  /** DeltaCollection.apply: maps a position of the original text to the
      rewritten text. */
  function Apply(ds: seq<Delta>, p: int, side: Side): (r: int)
    ensures |ds| == 0 ==> r == p
  {
    var shift := ShiftBefore(ds, p);
    match FirstContaining(ds, p)
    case None => p + shift
    case Some(i) =>
      if side == Left then ds[i].begin + shift
      else ds[i].end + ds[i].delta + shift
  }

  /** Each interval re-expressed in rewritten coordinates: begin mapped with
      Left, end mapped with Right, delta kept (the first two lines of
      `unapply`). */
  function Boundaries(ds: seq<Delta>): seq<Delta>
  {
    seq(|ds|, k requires 0 <= k < |ds| =>
      Delta(Apply(ds, ds[k].begin, Left), Apply(ds, ds[k].end, Right), ds[k].delta))
  }

  /** DeltaCollection.unapply: maps a position of the rewritten text back to
      the original text. */
  function Unapply(ds: seq<Delta>, q: int, side: Side): (r: int)
    ensures |ds| == 0 ==> r == q
  {
    var m := Boundaries(ds);
    var shift := -ShiftBefore(m, q);
    match FirstContaining(m, q)
    case None => q + shift
    case Some(i) =>
      if side == Left then m[i].begin + shift
      else m[i].end - m[i].delta + shift
  }

  // ---------------------------------------------------------------------------
  // Shape of a well-formed collection
  // ---------------------------------------------------------------------------

  /** Every interval has begin <= end. */
  predicate Proper(ds: seq<Delta>)
  {
    forall k :: 0 <= k < |ds| ==> ds[k].begin <= ds[k].end
  }

  /** Intervals are sorted left to right and do not overlap. */
  predicate Ascending(ds: seq<Delta>)
  {
    forall i, j :: 0 <= i < j < |ds| ==> ds[i].end <= ds[j].begin
  }

  /** Intervals are sorted right to left and do not overlap. */
  predicate Descending(ds: seq<Delta>)
  {
    forall i, j :: 0 <= i < j < |ds| ==> ds[j].end <= ds[i].begin
  }

  /** Any two intervals are side by side, in whatever order they are listed. */
  predicate Disjoint(ds: seq<Delta>)
  {
    forall i, j :: 0 <= i < |ds| && 0 <= j < |ds| && i != j ==>
      ds[i].end <= ds[j].begin || ds[j].end <= ds[i].begin
  }

  /** Every replacement text has a length (possibly zero). */
  predicate NonNegativeReplacements(ds: seq<Delta>)
  {
    forall k :: 0 <= k < |ds| ==> ds[k].end - ds[k].begin + ds[k].delta >= 0
  }

  /** Every replacement text is non-empty. */
  predicate NonEmptyReplacements(ds: seq<Delta>)
  {
    forall k :: 0 <= k < |ds| ==> ds[k].end - ds[k].begin + ds[k].delta > 0
  }

  // ---------------------------------------------------------------------------
  // from_absolute
  // ---------------------------------------------------------------------------

  /** Running totals of the deltas: the representation `from_absolute` reads. */
  function ToAbsolute(ds: seq<Delta>): seq<Delta>
  {
    seq(|ds|, k requires 0 <= k < |ds| => Delta(ds[k].begin, ds[k].end, TotalDelta(ds[..k + 1])))
  }

  /** DeltaCollection.from_absolute: the first delta is kept, each later one
      loses the running total of its predecessor. numpy raises IndexError on
      an empty array (line 33). */
  function FromAbsolute(absolute: seq<Delta>): (r: Result<seq<Delta>, DeltaError>)
    ensures r.Failure? <==> |absolute| == 0
    ensures r.Success? ==> |r.value| == |absolute|
  {
    if |absolute| == 0 then Failure(EmptyAbsolute)
    else Success(seq(|absolute|, k requires 0 <= k < |absolute| =>
      Delta(absolute[k].begin, absolute[k].end,
            absolute[k].delta - (if k == 0 then 0 else absolute[k - 1].delta))))
  }

  lemma TotalDeltaSnoc(ds: seq<Delta>, k: nat)
    requires k < |ds|
    ensures TotalDelta(ds[..k + 1]) == TotalDelta(ds[..k]) + ds[k].delta
  {
    assert ds[..k + 1] == ds[..k] + [ds[k]];
    TotalDeltaAppend(ds[..k], [ds[k]]);
  }

  /** Prefix sums of the converted deltas reproduce the running totals. */
  lemma {:induction false} FromAbsolutePrefixSums(absolute: seq<Delta>)
    requires |absolute| > 0
    ensures FromAbsolute(absolute).Success?
    ensures var r := FromAbsolute(absolute).value;
      |r| == |absolute| &&
      (forall k :: 0 <= k < |r| ==> r[k].begin == absolute[k].begin && r[k].end == absolute[k].end) &&
      (forall k :: 0 <= k < |r| ==> TotalDelta(r[..k + 1]) == absolute[k].delta)
  {
    var r := FromAbsolute(absolute).value;
    forall k | 0 <= k < |r|
      ensures TotalDelta(r[..k + 1]) == absolute[k].delta
    {
      PrefixSumAt(absolute, r, k);
    }
  }

  lemma {:induction false} PrefixSumAt(absolute: seq<Delta>, r: seq<Delta>, k: nat)
    requires |absolute| > 0 && r == FromAbsolute(absolute).value
    requires k < |r|
    ensures TotalDelta(r[..k + 1]) == absolute[k].delta
    decreases k
  {
    TotalDeltaSnoc(r, k);
    if k == 0 {
      assert r[..0] == [];
    } else {
      PrefixSumAt(absolute, r, k - 1);
    }
  }

  /** from_absolute undoes the running totals, so the two representations
      interconvert. */
  lemma FromAbsoluteInvertsToAbsolute(ds: seq<Delta>)
    requires |ds| > 0
    ensures FromAbsolute(ToAbsolute(ds)) == Success(ds)
  {
    var a := ToAbsolute(ds);
    var r := FromAbsolute(a).value;
    assert |r| == |ds|;
    forall k | 0 <= k < |ds|
      ensures r[k] == ds[k]
    {
      TotalDeltaSnoc(ds, k);
      assert a[k] == Delta(ds[k].begin, ds[k].end, TotalDelta(ds[..k + 1]));
      if k == 0 {
        assert ds[..0] == [];
        assert r[k].delta == a[k].delta;
      } else {
        assert a[k - 1].delta == TotalDelta(ds[..k]);
        assert r[k].delta == a[k].delta - a[k - 1].delta;
      }
    }
    assert r == ds;
  }

  lemma ToAbsoluteInvertsFromAbsolute(absolute: seq<Delta>)
    requires |absolute| > 0
    ensures ToAbsolute(FromAbsolute(absolute).value) == absolute
  {
    FromAbsolutePrefixSums(absolute);
  }
}
