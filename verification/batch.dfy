/**
  The per-span arithmetic of the batch transformers apply_deltas and
  reverse_deltas (nlstruct/core/text.py:189-275). Each span coordinate is
  paired with every delta row of its group; the rows' shifts are summed and
  the snap offset ("between_magnet") of a single row is added, the row a
  stable sort followed by a group reduction keeps: the first row by begin for
  a Left coordinate, the last row by end for a Right one.

  As written, that row is chosen among ALL the group's rows, so the snap is
  lost whenever the coordinate lies inside some other row. The corrected
  reduction chooses among the rows that contain the coordinate and agrees
  with the scalar Apply / Unapply.
 */
module Batch {
  import opened Wrappers
  import opened Deltas
  import DeltaLaws

  /** Which group reduction is modelled. */
  datatype Reduction = AsWritten | Corrected

  /** The rows a reduction chooses its snap row among. */
  datatype Among = AllRows | RowsContaining(p: int)

  function AmongFor(red: Reduction, p: int): Among
  {
    match red
    case AsWritten => AllRows
    case Corrected => RowsContaining(p)
  }

  predicate Admits(among: Among, d: Delta)
  {
    match among
    case AllRows => true
    case RowsContaining(p) => Inside(d, p)
  }

  /** The first admitted row of a stable sort by begin: the lowest begin,
      the earliest row among equal begins. */
  function FirstByBegin(rows: seq<Delta>, among: Among): (r: Option<nat>)
    ensures r.None? <==> forall j :: 0 <= j < |rows| ==> !Admits(among, rows[j])
    ensures r.Some? ==> r.value < |rows| && Admits(among, rows[r.value])
    ensures r.Some? ==> forall j :: 0 <= j < |rows| && Admits(among, rows[j]) ==>
      rows[r.value].begin <= rows[j].begin
    ensures r.Some? ==> forall j :: 0 <= j < r.value && Admits(among, rows[j]) ==>
      rows[r.value].begin < rows[j].begin
  {
    if |rows| == 0 then None
    else
      var rest := FirstByBegin(rows[1..], among);
      assert forall j :: 1 <= j < |rows| ==> rows[j] == rows[1..][j - 1];
      if rest.None? then
        if Admits(among, rows[0]) then Some(0) else None
      else if Admits(among, rows[0]) && rows[0].begin <= rows[rest.value + 1].begin then
        Some(0)
      else
        Some(rest.value + 1)
  }

  /** The last admitted row of a stable sort by end: the highest end, the
      latest row among equal ends. */
  function LastByEnd(rows: seq<Delta>, among: Among): (r: Option<nat>)
    ensures r.None? <==> forall j :: 0 <= j < |rows| ==> !Admits(among, rows[j])
    ensures r.Some? ==> r.value < |rows| && Admits(among, rows[r.value])
    ensures r.Some? ==> forall j :: 0 <= j < |rows| && Admits(among, rows[j]) ==>
      rows[j].end <= rows[r.value].end
    ensures r.Some? ==> forall j :: r.value < j < |rows| && Admits(among, rows[j]) ==>
      rows[j].end < rows[r.value].end
  {
    if |rows| == 0 then None
    else
      var n := |rows|;
      var rest := LastByEnd(rows[..n - 1], among);
      assert forall j :: 0 <= j < n - 1 ==> rows[j] == rows[..n - 1][j];
      if rest.None? then
        if Admits(among, rows[n - 1]) then Some(n - 1) else None
      else if Admits(among, rows[n - 1]) && rows[rest.value].end <= rows[n - 1].end then
        Some(n - 1)
      else
        rest
  }

  /** The row whose snap offset the reduction keeps for a coordinate of the
      given side ("first" for left, "last" for right). */
  function Pick(rows: seq<Delta>, side: Side, among: Among): (r: Option<nat>)
    ensures r.None? <==> forall j :: 0 <= j < |rows| ==> !Admits(among, rows[j])
    ensures r.Some? ==> r.value < |rows| && Admits(among, rows[r.value])
  {
    match side
    case Left => FirstByBegin(rows, among)
    case Right => LastByEnd(rows, among)
  }

  /** between_magnet of apply_deltas: the distance from the coordinate to
      the edge it snaps to, zero unless the row strictly contains it. */
  function ForwardMagnet(d: Delta, p: int, side: Side): int
  {
    if !Inside(d, p) then 0
    else if side == Left then d.begin - p
    else d.end + d.delta - p
  }

  /** between_magnet of reverse_deltas, over a row in rewritten coordinates. */
  function ReverseMagnet(d: Delta, p: int, side: Side): int
  {
    if !Inside(d, p) then 0
    else if side == Left then d.begin - p
    else d.end - d.delta - p
  }

  // ---------------------------------------------------------------------------
  // apply_deltas, one coordinate
  // ---------------------------------------------------------------------------

  /** apply_deltas for one coordinate against its group's rows. A coordinate
      whose group has no rows has no match in the inner join and keeps its
      value. */
  function ApplyDeltasWith(red: Reduction, rows: seq<Delta>, p: int, side: Side): (r: int)
    ensures |rows| == 0 ==> r == p
    ensures Outside(rows, p) ==> r == p + ShiftBefore(rows, p)
  {
    var magnet :=
      match Pick(rows, side, AmongFor(red, p))
      case None => 0
      case Some(i) => ForwardMagnet(rows[i], p, side);
    p + ShiftBefore(rows, p) + magnet
  }

  /** In a disjoint collection, no other row contains a position a row
      contains. */
  lemma ContainingUnique(rows: seq<Delta>, p: int, i: nat)
    requires Disjoint(rows) && i < |rows| && Inside(rows[i], p)
    ensures forall j :: 0 <= j < |rows| && j != i ==> !Inside(rows[j], p)
  {
    forall j | 0 <= j < |rows| && j != i
      ensures !Inside(rows[j], p)
    {
      assert rows[i].end <= rows[j].begin || rows[j].end <= rows[i].begin;
    }
  }

  /** With the snap row chosen among the containing rows, the batch
      transformer computes the scalar DeltaCollection.apply on every
      disjoint collection. */
  lemma ApplyDeltasMatchesApply(rows: seq<Delta>, p: int, side: Side)
    requires Disjoint(rows)
    ensures ApplyDeltasWith(Corrected, rows, p, side) == Apply(rows, p, side)
  {
    match FirstContaining(rows, p)
    case None =>
    case Some(i) =>
      ContainingUnique(rows, p, i);
  }

  /** The row the as-written reduction keeps contains the coordinate. */
  predicate PickedContains(rows: seq<Delta>, p: int, side: Side)
  {
    match Pick(rows, side, AllRows)
    case None => false
    case Some(i) => Inside(rows[i], p)
  }

  /** As written, the batch transformer agrees with apply when no row
      contains the coordinate, or when the row it keeps is the one that
      does. */
  lemma AsWrittenAgrees(rows: seq<Delta>, p: int, side: Side)
    requires Disjoint(rows)
    requires Outside(rows, p) || PickedContains(rows, p, side)
    ensures ApplyDeltasWith(AsWritten, rows, p, side) == Apply(rows, p, side)
  {
    if !Outside(rows, p) {
      ContainingUnique(rows, p, FirstContaining(rows, p).value);
    }
  }

  /** Otherwise the snap is dropped: the coordinate is only shifted, and a
      Left coordinate ends up past the start of its replacement. */
  lemma AsWrittenDropsSnap(rows: seq<Delta>, p: int, side: Side)
    requires Disjoint(rows)
    requires !Outside(rows, p) && !PickedContains(rows, p, side)
    ensures ApplyDeltasWith(AsWritten, rows, p, side) == p + ShiftBefore(rows, p)
    ensures side == Left ==> ApplyDeltasWith(AsWritten, rows, p, side) > Apply(rows, p, side)
  {
    var i := FirstContaining(rows, p).value;
    assert Inside(rows[i], p);
  }

  /** "foo bar foo" rewritten to "X bar X". Position 9 (Left) lies in the
      second "foo" and the scalar apply snaps it to 6; the as-written batch
      keeps the first row by begin, [0, 3), which does not contain 9, and
      gives 9 - 2 = 7. Position 2 (Right) lies in the first "foo" and the
      scalar apply maps it to 1; the as-written batch keeps the last row by
      end, [8, 11), which does not contain 2, and 2 stays 2. */
  lemma AsWrittenCounterexample()
    ensures var rows := [Delta(0, 3, -2), Delta(8, 11, -2)];
      && Apply(rows, 9, Left) == 6
      && ApplyDeltasWith(AsWritten, rows, 9, Left) == 7
      && ApplyDeltasWith(Corrected, rows, 9, Left) == 6
    ensures var rows := [Delta(0, 3, -2), Delta(8, 11, -2)];
      && Apply(rows, 2, Right) == 1
      && ApplyDeltasWith(AsWritten, rows, 2, Right) == 2
      && ApplyDeltasWith(Corrected, rows, 2, Right) == 1
  {
    LeftCounterexample();
    RightCounterexample();
  }

  lemma LeftCounterexample()
    ensures var rows := [Delta(0, 3, -2), Delta(8, 11, -2)];
      && Apply(rows, 9, Left) == 6
      && ApplyDeltasWith(AsWritten, rows, 9, Left) == 7
      && ApplyDeltasWith(Corrected, rows, 9, Left) == 6
  {
    var rows := [Delta(0, 3, -2), Delta(8, 11, -2)];
    assert FirstContaining(rows, 9) == Some(1);
    assert Pick(rows, Left, AllRows) == Some(0);
    assert Pick(rows, Left, RowsContaining(9)) == Some(1);
  }

  lemma RightCounterexample()
    ensures var rows := [Delta(0, 3, -2), Delta(8, 11, -2)];
      && Apply(rows, 2, Right) == 1
      && ApplyDeltasWith(AsWritten, rows, 2, Right) == 2
      && ApplyDeltasWith(Corrected, rows, 2, Right) == 1
  {
    var rows := [Delta(0, 3, -2), Delta(8, 11, -2)];
    assert FirstContaining(rows, 2) == Some(0);
    assert Pick(rows, Right, AllRows) == Some(1);
    assert Pick(rows, Right, RowsContaining(2)) == Some(0);
  }

  // ---------------------------------------------------------------------------
  // reverse_deltas, one coordinate
  // ---------------------------------------------------------------------------

  /** reverse_deltas first maps the group's own rows forward through the
      batch transformer, begin with Left and end with Right. */
  function MapOwnBoundaries(red: Reduction, rows: seq<Delta>): (m: seq<Delta>)
    ensures |m| == |rows|
    ensures forall k :: 0 <= k < |m| ==> m[k].delta == rows[k].delta
  {
    seq(|rows|, k requires 0 <= k < |rows| =>
      Delta(ApplyDeltasWith(red, rows, rows[k].begin, Left),
            ApplyDeltasWith(red, rows, rows[k].end, Right), rows[k].delta))
  }

  /** The reverse shift and snap of one coordinate over rows already in
      rewritten coordinates. */
  function ReverseOver(m: seq<Delta>, q: int, side: Side, among: Among): int
  {
    var magnet :=
      match Pick(m, side, among)
      case None => 0
      case Some(i) => ReverseMagnet(m[i], q, side);
    q - ShiftBefore(m, q) + magnet
  }

  /** reverse_deltas for one coordinate of the rewritten text. A coordinate
      whose group has no rows keeps its value. */
  function ReverseDeltasWith(red: Reduction, rows: seq<Delta>, q: int, side: Side): (r: int)
    ensures |rows| == 0 ==> r == q
    ensures Outside(MapOwnBoundaries(red, rows), q) ==> r == q - ShiftBefore(MapOwnBoundaries(red, rows), q)
  {
    ReverseOver(MapOwnBoundaries(red, rows), q, side, AmongFor(red, q))
  }

  /** On disjoint rows the corrected boundary mapping is DeltaCollection's
      own. */
  lemma MapOwnBoundariesMatches(rows: seq<Delta>)
    requires Disjoint(rows)
    ensures MapOwnBoundaries(Corrected, rows) == Boundaries(rows)
  {
    var m := MapOwnBoundaries(Corrected, rows);
    forall k | 0 <= k < |rows|
      ensures m[k] == Boundaries(rows)[k]
    {
      ApplyDeltasMatchesApply(rows, rows[k].begin, Left);
      ApplyDeltasMatchesApply(rows, rows[k].end, Right);
    }
  }

  /** A row's own begin and end lie inside no row of a disjoint group. */
  lemma OwnBoundariesOutside(rows: seq<Delta>, k: nat)
    requires Proper(rows) && Disjoint(rows) && k < |rows|
    ensures Outside(rows, rows[k].begin) && Outside(rows, rows[k].end)
  {
    forall j | 0 <= j < |rows| && j != k
      ensures !Inside(rows[j], rows[k].begin) && !Inside(rows[j], rows[k].end)
    {
      assert rows[j].end <= rows[k].begin || rows[k].end <= rows[j].begin;
    }
  }

  /** Whichever reduction is used, a disjoint group's own rows map to
      DeltaCollection's mapped intervals: each begin through Left and each
      end through Right, as no row contains another row's boundary. */
  lemma MapOwnBoundariesProper(red: Reduction, rows: seq<Delta>)
    requires Proper(rows) && Disjoint(rows)
    ensures MapOwnBoundaries(red, rows) == Boundaries(rows)
  {
    var m := MapOwnBoundaries(red, rows);
    var b := Boundaries(rows);
    forall k | 0 <= k < |rows|
      ensures m[k] == b[k]
    {
      MapOwnBoundaryAt(red, rows, k);
    }
  }

  lemma MapOwnBoundaryAt(red: Reduction, rows: seq<Delta>, k: nat)
    requires Proper(rows) && Disjoint(rows) && k < |rows|
    ensures MapOwnBoundaries(red, rows)[k] == Boundaries(rows)[k]
  {
    var d := rows[k];
    OwnBoundariesOutside(rows, k);
    var b := ApplyDeltasWith(red, rows, d.begin, Left);
    var e := ApplyDeltasWith(red, rows, d.end, Right);
    DeltaLaws.ApplyOutside(rows, d.begin);
    DeltaLaws.ApplyOutside(rows, d.end);
    assert b == Apply(rows, d.begin, Left);
    assert e == Apply(rows, d.end, Right);
    assert MapOwnBoundaries(red, rows)[k] == Delta(b, e, d.delta);
    assert Boundaries(rows)[k] == Delta(Apply(rows, d.begin, Left), Apply(rows, d.end, Right), d.delta);
  }

  /** An ordered collection whose replacements have a length stays disjoint
      once mapped into rewritten coordinates. */
  lemma BoundariesDisjoint(rows: seq<Delta>)
    requires Proper(rows) && Ascending(rows) && NonNegativeReplacements(rows)
    ensures Disjoint(rows)
    ensures Disjoint(Boundaries(rows))
  {
    var m := Boundaries(rows);
    forall i, j | 0 <= i < j < |rows|
      ensures m[i].end <= m[j].begin
    {
      DeltaLaws.BoundariesOutside(rows, i);
      DeltaLaws.BoundariesOutside(rows, j);
      DeltaLaws.Monotone(rows, rows[i].end, rows[j].begin);
    }
  }

  /** With the corrected reduction, reverse_deltas computes the scalar
      DeltaCollection.unapply whenever the rows and their mapped images
      are disjoint. */
  lemma ReverseDeltasMatchesUnapply(rows: seq<Delta>, q: int, side: Side)
    requires Disjoint(rows) && Disjoint(Boundaries(rows))
    ensures ReverseDeltasWith(Corrected, rows, q, side) == Unapply(rows, q, side)
  {
    MapOwnBoundariesMatches(rows);
    var m := Boundaries(rows);
    assert ReverseDeltasWith(Corrected, rows, q, side) == ReverseOver(m, q, side, RowsContaining(q));
    ReverseOverContaining(m, q, side);
  }

  /** Over disjoint rows, the corrected reverse snap is the containing row's. */
  lemma ReverseOverContaining(m: seq<Delta>, q: int, side: Side)
    requires Disjoint(m)
    ensures ReverseOver(m, q, side, RowsContaining(q)) ==
      q - ShiftBefore(m, q) +
      match FirstContaining(m, q)
      case None => 0
      case Some(i) => if side == Left then m[i].begin - q else m[i].end - m[i].delta - q
  {
    match FirstContaining(m, q)
    case None =>
    case Some(i) =>
      ContainingUnique(m, q, i);
      assert Pick(m, side, RowsContaining(q)) == Some(i);
  }

  /** Two three-letter words each shortened by one letter: [0, 3) and
      [8, 11) map to [0, 2) and [7, 9). Position 8 of the rewritten text lies
      in the second; unapply snaps it back to 8, while the as-written reverse
      keeps the first row by begin, which does not contain it, and gives 9. */
  lemma ReverseCounterexample()
    ensures var rows := [Delta(0, 3, -1), Delta(8, 11, -1)];
      && Boundaries(rows) == [Delta(0, 2, -1), Delta(7, 9, -1)]
      && Unapply(rows, 8, Left) == 8
      && ReverseDeltasWith(AsWritten, rows, 8, Left) == 9
      && ReverseDeltasWith(Corrected, rows, 8, Left) == 8
  {
    var rows := [Delta(0, 3, -1), Delta(8, 11, -1)];
    var m := [Delta(0, 2, -1), Delta(7, 9, -1)];
    ReverseCounterexampleBoundaries();
    ReverseOverExample();
    assert Unapply(rows, 8, Left) == 8;
    assert ReverseDeltasWith(AsWritten, rows, 8, Left) == ReverseOver(m, 8, Left, AllRows);
    assert ReverseDeltasWith(Corrected, rows, 8, Left) == ReverseOver(m, 8, Left, RowsContaining(8));
  }

  lemma ReverseOverExample()
    ensures var m := [Delta(0, 2, -1), Delta(7, 9, -1)];
      && ShiftBefore(m, 8) == -1
      && FirstContaining(m, 8) == Some(1)
      && ReverseOver(m, 8, Left, AllRows) == 9
      && ReverseOver(m, 8, Left, RowsContaining(8)) == 8
  {
    var m := [Delta(0, 2, -1), Delta(7, 9, -1)];
    assert Pick(m, Left, AllRows) == Some(0);
    assert Pick(m, Left, RowsContaining(8)) == Some(1);
  }

  lemma ReverseCounterexampleBoundaries()
    ensures var rows := [Delta(0, 3, -1), Delta(8, 11, -1)];
      && Boundaries(rows) == [Delta(0, 2, -1), Delta(7, 9, -1)]
      && MapOwnBoundaries(AsWritten, rows) == [Delta(0, 2, -1), Delta(7, 9, -1)]
      && MapOwnBoundaries(Corrected, rows) == [Delta(0, 2, -1), Delta(7, 9, -1)]
  {
    var rows := [Delta(0, 3, -1), Delta(8, 11, -1)];
    CounterexampleRowsBoundaries();
    CounterexampleRowsShape();
    MapOwnBoundariesProper(AsWritten, rows);
    MapOwnBoundariesProper(Corrected, rows);
  }

  lemma CounterexampleRowsBoundaries()
    ensures Boundaries([Delta(0, 3, -1), Delta(8, 11, -1)]) == [Delta(0, 2, -1), Delta(7, 9, -1)]
  {
    var rows := [Delta(0, 3, -1), Delta(8, 11, -1)];
    var m := [Delta(0, 2, -1), Delta(7, 9, -1)];
    DeltaLaws.BoundariesOutside(rows, 0);
    DeltaLaws.BoundariesOutside(rows, 1);
    assert ShiftBefore(rows, 0) == 0 && ShiftBefore(rows, 3) == -1;
    assert ShiftBefore(rows, 8) == -1 && ShiftBefore(rows, 11) == -2;
    var b := Boundaries(rows);
    assert b[0] == m[0] && b[1] == m[1];
  }

  lemma CounterexampleRowsShape()
    ensures Proper([Delta(0, 3, -1), Delta(8, 11, -1)])
    ensures Disjoint([Delta(0, 3, -1), Delta(8, 11, -1)])
  {
    var rows := [Delta(0, 3, -1), Delta(8, 11, -1)];
    assert Ascending(rows);
    DeltaLaws.OrderedDisjoint(rows);
  }

  // ---------------------------------------------------------------------------
  // Tables of spans and of delta rows
  // ---------------------------------------------------------------------------

  /** A row of the span table: its group key, the begin column (mapped
      Left), the end column (mapped Right) and every other column. */
  datatype Span<K, P> = Span(group: K, begin: int, end: int, payload: P)

  /** A row of the deltas table. */
  datatype DeltaRow<K> = DeltaRow(group: K, delta: Delta)

  /** The delta rows of one group, in table order. */
  function RowsOf<K(==)>(table: seq<DeltaRow<K>>, g: K): (r: seq<Delta>)
    ensures |r| <= |table|
    ensures (forall i :: 0 <= i < |table| ==> table[i].group != g) ==> r == []
  {
    if |table| == 0 then []
    else (if table[0].group == g then [table[0].delta] else []) + RowsOf(table[1..], g)
  }

  /** apply_deltas over a table of spans. */
  function ApplyDeltasTable<K(==), P>(red: Reduction, spans: seq<Span<K, P>>, table: seq<DeltaRow<K>>)
    : (r: seq<Span<K, P>>)
    ensures |r| == |spans|
    ensures forall i :: 0 <= i < |r| ==>
      r[i].group == spans[i].group && r[i].payload == spans[i].payload
    ensures forall i :: 0 <= i < |r| && RowsOf(table, spans[i].group) == [] ==> r[i] == spans[i]
  {
    seq(|spans|, i requires 0 <= i < |spans| =>
      var rows := RowsOf(table, spans[i].group);
      spans[i].(begin := ApplyDeltasWith(red, rows, spans[i].begin, Left),
                end := ApplyDeltasWith(red, rows, spans[i].end, Right)))
  }

  /** reverse_deltas over a table of spans. */
  function ReverseDeltasTable<K(==), P>(red: Reduction, spans: seq<Span<K, P>>, table: seq<DeltaRow<K>>)
    : (r: seq<Span<K, P>>)
    ensures |r| == |spans|
    ensures forall i :: 0 <= i < |r| ==>
      r[i].group == spans[i].group && r[i].payload == spans[i].payload
    ensures forall i :: 0 <= i < |r| && RowsOf(table, spans[i].group) == [] ==> r[i] == spans[i]
  {
    seq(|spans|, i requires 0 <= i < |spans| =>
      var rows := RowsOf(table, spans[i].group);
      spans[i].(begin := ReverseDeltasWith(red, rows, spans[i].begin, Left),
                end := ReverseDeltasWith(red, rows, spans[i].end, Right)))
  }

  /** The span [8, 11) of "foo bar foo", with both rewrites of "foo" to "X"
      in its group, becomes [6, 7): the span of the second "X" in "X bar X".
      Both reductions give it, as neither end lies inside a row. */
  lemma TableExample()
    ensures var spans := [Span(1, 8, 11, ())];
      var table := [DeltaRow(1, Delta(0, 3, -2)), DeltaRow(1, Delta(8, 11, -2))];
      && ApplyDeltasTable(AsWritten, spans, table) == [Span(1, 6, 7, ())]
      && ApplyDeltasTable(Corrected, spans, table) == [Span(1, 6, 7, ())]
  {
    var table := [DeltaRow(1, Delta(0, 3, -2)), DeltaRow(1, Delta(8, 11, -2))];
    var rows := [Delta(0, 3, -2), Delta(8, 11, -2)];
    assert table[1..][1..] == [];
    assert RowsOf(table, 1) == rows;
    assert Outside(rows, 8) && Outside(rows, 11);
    assert ShiftBefore(rows, 8) == -2 && ShiftBefore(rows, 11) == -4;
  }

  /** reverse_deltas undoes apply_deltas, with either reduction, on every
      coordinate that lies in no edit of a group recorded in either order. */
  lemma SpanRoundTrip(red: Reduction, rows: seq<Delta>, p: int, side: Side)
    requires DeltaLaws.OrderedEdits(rows) && Outside(rows, p)
    ensures ReverseDeltasWith(red, rows, ApplyDeltasWith(red, rows, p, side), side) == p
  {
    var q := ApplyDeltasWith(red, rows, p, side);
    assert q == DeltaLaws.Image(rows, p);
    DeltaLaws.OrderedDisjoint(rows);
    MapOwnBoundariesProper(red, rows);
    DeltaLaws.MappedOutsideOrdered(rows, p);
  }

  /** Every span whose group's rows are the record of a rewrite (proper,
      non-empty replacements, listed left to right or right to left), and
      whose ends lie in no edited region, comes back unchanged from
      apply_deltas followed by reverse_deltas, with either reduction. */
  lemma TableRoundTrip<K, P>(red: Reduction, spans: seq<Span<K, P>>, table: seq<DeltaRow<K>>)
    requires forall i :: 0 <= i < |spans| ==>
      var rows := RowsOf(table, spans[i].group);
      DeltaLaws.OrderedEdits(rows) && Outside(rows, spans[i].begin) && Outside(rows, spans[i].end)
    ensures ReverseDeltasTable(red, ApplyDeltasTable(red, spans, table), table) == spans
  {
    var fwd := ApplyDeltasTable(red, spans, table);
    var back := ReverseDeltasTable(red, fwd, table);
    forall i | 0 <= i < |spans|
      ensures back[i] == spans[i]
    {
      var rows := RowsOf(table, spans[i].group);
      SpanRoundTrip(red, rows, spans[i].begin, Left);
      SpanRoundTrip(red, rows, spans[i].end, Right);
    }
  }

  /** The table "foo bar foo" to "X bar X" records, right to left: the span
      [4, 7) of "bar" becomes [2, 5) and comes back as [4, 7), with the
      reduction as written. */
  lemma DescendingTableExample()
    ensures var spans := [Span(1, 4, 7, ())];
      var table := [DeltaRow(1, Delta(8, 11, -2)), DeltaRow(1, Delta(0, 3, -2))];
      && ApplyDeltasTable(AsWritten, spans, table) == [Span(1, 2, 5, ())]
      && ReverseDeltasTable(AsWritten, ApplyDeltasTable(AsWritten, spans, table), table) == spans
  {
    var spans := [Span(1, 4, 7, ())];
    var table := [DeltaRow(1, Delta(8, 11, -2)), DeltaRow(1, Delta(0, 3, -2))];
    var rows := [Delta(8, 11, -2), Delta(0, 3, -2)];
    assert table[1..][1..] == [];
    assert RowsOf(table, 1) == rows;
    assert Outside(rows, 4) && Outside(rows, 7);
    assert ShiftBefore(rows, 4) == -2 && ShiftBefore(rows, 7) == -2;
    TableRoundTrip(AsWritten, spans, table);
  }
}
