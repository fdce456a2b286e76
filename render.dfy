/** `build_generic_tables` (timetable_combiner.py:110-230): for every key of an index,
    a grid of 5 fixed 90-minute slots by 7 days. A day column keeps a counter of the
    slots still covered by a block placed above (`rowspan_tracker`); an uncovered
    slot shows the Friday prayer break, a dash, or the blocks starting exactly at the
    slot's start with `rowspan = (end - slot_start) // 90`. A covered slot emits no
    `<td>` at all; the model keeps it in the grid as `Covered` so that every row has
    one entry per day. */
module Render {
  import opened Patterns
  import opened Clock
  import opened Indexing
  import opened DaySchedule
  import opened Merge

  const DayNames: seq<string> := ["Monday", "Tuesday", "Wednesday", "Thursday", "Friday", "Saturday", "Sunday"]
  const FixedTimes: seq<string> := ["09:00", "10:30", "12:00", "13:30", "15:00"]
  const SlotSize: int := 90

  /** `slot_starts[s]`: the slots start every 90 minutes from 09:00. */
  function SlotStart(s: nat): (m: int)
    requires s < |FixedTimes|
    ensures m == 540 + SlotSize * s
  {
    assert IsClock(FixedTimes[s]);
    TimeToMin(FixedTimes[s])
  }

  datatype GridCell =
    | Covered
    | Dash
    | Break
    | Blocks(rowspan: int, groups: seq<CellGroup>)

  /** `[b['content'] for b in starting_blocks]`. */
  function Contents(ps: seq<Parsed>): seq<string> {
    seq(|ps|, i requires 0 <= i < |ps| => ps[i].content)
  }

  /** Lines 149-211: the cell of an uncovered slot `s` on day `d`. */
  function SlotCell(ps: seq<Parsed>, d: nat, s: nat): GridCell
    requires d < |DayNames| && s < |FixedTimes|
  {
    StartingCell(StartingAt(ps, SlotStart(s)), d, s)
  }

  /** Lines 152-211: the cell shown for the blocks `starting` at slot `s` on day `d`. */
  function StartingCell(starting: seq<Parsed>, d: nat, s: nat): GridCell
    requires d < |DayNames| && s < |FixedTimes|
  {
    if starting == [] && DayNames[d] == "Friday" && FixedTimes[s] == "13:30" then Break
    else if starting == [] then Dash
    else Blocks((starting[0].end - SlotStart(s)) / SlotSize, Compose(Contents(starting)))
  }

  lemma FridayAt1330(d: nat, s: nat)
    requires d < |DayNames| && s < |FixedTimes|
    ensures DayNames[d] == "Friday" && FixedTimes[s] == "13:30" <==> d == 4 && s == 3
  {
    if DayNames[d] == "Friday" {
      assert DayNames[d][0] == 'F';
    }
    if FixedTimes[s] == "13:30" {
      assert FixedTimes[s][1] == '3' && FixedTimes[s][0] == '1';
    }
  }

  /** What an uncovered slot shows: the break exactly on Friday at 13:30 with nothing
      starting, a dash on every other slot with nothing starting, and otherwise the
      starting blocks, with the rowspan the whole number of 90-minute slots in the
      first one's time from the slot start (rounded down, so a block shorter than a
      slot gets rowspan 0), and one group member for each starting block. */
  lemma SlotCellCases(ps: seq<Parsed>, d: nat, s: nat)
    requires d < |DayNames| && s < |FixedTimes|
    ensures var c := SlotCell(ps, d, s);
      var starting := StartingAt(ps, SlotStart(s));
      !c.Covered? &&
      (c.Break? <==> starting == [] && d == 4 && s == 3) &&
      (c.Dash? <==> starting == [] && !(d == 4 && s == 3)) &&
      (c.Blocks? <==> starting != []) &&
      (c.Blocks? ==>
        SlotSize * c.rowspan <= starting[0].end - SlotStart(s) < SlotSize * (c.rowspan + 1) &&
        TotalSize(c.groups) == |starting|)
  {
    FridayAt1330(d, s);
    var starting := StartingAt(ps, SlotStart(s));
    if starting != [] {
      ComposeConserves(Contents(starting));
    }
  }

  /** Sorting a day's blocks does not change any cell: the blocks starting at a slot
      keep their relative order under the stable sort. */
  lemma SortKeepsSlotCell(ps: seq<Parsed>, d: nat, s: nat)
    requires d < |DayNames| && s < |FixedTimes|
    ensures SlotCell(SortByStart(ps), d, s) == SlotCell(ps, d, s)
  {
    SortByStartProps(ps);
    assert StartingAt(SortByStart(ps), SlotStart(s)) == StartingAt(ps, SlotStart(s));
  }

  /** One day at one slot (lines 145-147 and 213-214): a positive counter hides the
      slot and counts down; otherwise the candidate cell is shown and a rowspan above
      1 sets the counter to rowspan - 1. */
  function CellStep(t: int, c: GridCell): (GridCell, int) {
    if t > 0 then (Covered, t - 1)
    else (c, if c.Blocks? && c.rowspan > 1 then c.rowspan - 1 else t)
  }

  /** A day column from the candidate cells of its slots, with the final counter. */
  function Column(cands: seq<GridCell>): (r: (seq<GridCell>, int))
    decreases |cands|
    ensures |r.0| == |cands|
  {
    if cands == [] then ([], 0)
    else
      var (cs, t) := Column(cands[..|cands| - 1]);
      var (x, t') := CellStep(t, cands[|cands| - 1]);
      (cs + [x], t')
  }

  /** Slot `s` of a column lies under the rowspan of a block shown in an earlier slot. */
  predicate CoveredBy(cs: seq<GridCell>, s: nat)
    requires s <= |cs|
  {
    exists i | 0 <= i < s :: cs[i].Blocks? && s < i + cs[i].rowspan
  }

  lemma CoveredByPrefix(cs: seq<GridCell>, x: GridCell, s: nat)
    requires s <= |cs|
    ensures CoveredBy(cs + [x], s) == CoveredBy(cs, s)
  {
    if CoveredBy(cs + [x], s) {
      var i :| 0 <= i < s && (cs + [x])[i].Blocks? && s < i + (cs + [x])[i].rowspan;
      assert cs[i] == (cs + [x])[i];
    }
    if CoveredBy(cs, s) {
      var i :| 0 <= i < s && cs[i].Blocks? && s < i + cs[i].rowspan;
      assert cs[i] == (cs + [x])[i];
    }
  }

  /** The counter after a column prefix: positive exactly when the next slot is
      covered, and then equal to how far the covering block still reaches. */
  predicate CounterOk(cs: seq<GridCell>, t: int) {
    t >= 0 &&
    (t > 0 <==> CoveredBy(cs, |cs|)) &&
    forall i | 0 <= i < |cs| && cs[i].Blocks? && |cs| < i + cs[i].rowspan :: t == i + cs[i].rowspan - |cs|
  }

  predicate ColumnOk(cands: seq<GridCell>, cs: seq<GridCell>)
    requires |cs| == |cands|
  {
    forall s | 0 <= s < |cs| ::
      (cs[s].Covered? <==> CoveredBy(cs, s)) && (!cs[s].Covered? ==> cs[s] == cands[s])
  }

  lemma ColumnCovered(cs: seq<GridCell>, t: int)
    requires CounterOk(cs, t) && t > 0
    ensures CounterOk(cs + [Covered], t - 1)
  {
    var n := |cs|;
    var cs' := cs + [Covered];
    var i :| 0 <= i < n && cs[i].Blocks? && n < i + cs[i].rowspan;
    assert t == i + cs[i].rowspan - n;
    if t - 1 > 0 {
      assert cs'[i] == cs[i];
    }
    if CoveredBy(cs', n + 1) {
      var j :| 0 <= j < n + 1 && cs'[j].Blocks? && n + 1 < j + cs'[j].rowspan;
      assert j < n && cs'[j] == cs[j];
    }
    forall j | 0 <= j < n + 1 && cs'[j].Blocks? && n + 1 < j + cs'[j].rowspan
      ensures t - 1 == j + cs'[j].rowspan - (n + 1)
    {
      assert j < n && cs'[j] == cs[j];
    }
  }

  lemma ColumnShown(cs: seq<GridCell>, t: int, c: GridCell)
    requires CounterOk(cs, t) && t <= 0 && !c.Covered?
    ensures CounterOk(cs + [c], CellStep(t, c).1)
  {
    var n := |cs|;
    var cs' := cs + [c];
    var t' := CellStep(t, c).1;
    assert !CoveredBy(cs, n);
    forall j | 0 <= j < n + 1 && cs'[j].Blocks? && n + 1 < j + cs'[j].rowspan
      ensures j == n
    {
    }
    if t' > 0 {
      assert cs'[n] == c;
    }
  }

  /** Coverage: a slot is hidden exactly when the rowspan of a block shown in an
      earlier slot of the same day reaches over it, and a slot that is not hidden
      shows its own candidate cell. A block with rowspan 1, 0 or below hides nothing;
      the counter never goes negative. */
  lemma {:induction false} ColumnCoverage(cands: seq<GridCell>)
    requires forall k | 0 <= k < |cands| :: !cands[k].Covered?
    ensures CounterOk(Column(cands).0, Column(cands).1)
    ensures ColumnOk(cands, Column(cands).0)
    decreases |cands|
  {
    if cands != [] {
      var n := |cands| - 1;
      var init := cands[..n];
      ColumnCoverage(init);
      var (cs, t) := Column(init);
      var c := cands[n];
      var (x, t') := CellStep(t, c);
      var cs' := cs + [x];
      assert Column(cands) == (cs', t');
      if t > 0 {
        ColumnCovered(cs, t);
      } else {
        ColumnShown(cs, t, c);
      }
      forall s | 0 <= s < n + 1
        ensures (cs'[s].Covered? <==> CoveredBy(cs', s)) && (!cs'[s].Covered? ==> cs'[s] == cands[s])
      {
        CoveredByPrefix(cs, x, s);
        if s < n {
          assert cs'[s] == cs[s] && init[s] == cands[s];
        }
      }
    }
  }

  lemma {:induction false} ColumnPrefix(cands: seq<GridCell>, k: nat)
    requires k <= |cands|
    ensures Column(cands[..k]).0 == Column(cands).0[..k]
    decreases |cands|
  {
    if k < |cands| {
      var n := |cands| - 1;
      assert cands[..n][..k] == cands[..k];
      ColumnPrefix(cands[..n], k);
      assert Column(cands).0[..n] == Column(cands[..n]).0;
    } else {
      assert cands[..k] == cands;
    }
  }

  /** `day_blocks.get(day, [])`. */
  function DayEntries(m: map<string, seq<Entry>>, day: string): seq<Entry> {
    if day in m then m[day] else []
  }

  /** `processed_day_blocks[days[d]]`. */
  function Prepared(m: map<string, seq<Entry>>, d: nat): seq<Parsed>
    requires d < |DayNames|
  {
    SortByStart(ParseAll(DayEntries(m, DayNames[d])))
  }

  function Candidates(ps: seq<Parsed>, d: nat): (r: seq<GridCell>)
    requires d < |DayNames|
    ensures |r| == |FixedTimes|
  {
    seq(|FixedTimes|, s requires 0 <= s < |FixedTimes| => SlotCell(ps, d, s))
  }

  /** Day `d`'s column after the first `k` slots, with its counter. */
  function ColumnAt(m: map<string, seq<Entry>>, d: nat, k: nat): (r: (seq<GridCell>, int))
    requires d < |DayNames| && k <= |FixedTimes|
    ensures |r.0| == k
  {
    Column(Candidates(Prepared(m, d), d)[..k])
  }

  /** The rendered grid of one key: `Grid(m)[s][d]` is slot `s` of day `d`. */
  function Grid(m: map<string, seq<Entry>>): seq<seq<GridCell>> {
    seq(|FixedTimes|, s requires 0 <= s < |FixedTimes| =>
      seq(|DayNames|, d requires 0 <= d < |DayNames| => ColumnAt(m, d, |FixedTimes|).0[s]))
  }

  /** The grid's cells: a slot is hidden exactly when the rowspan of a block shown
      above it on the same day reaches over it; any other slot shows the cell of the
      blocks of that day starting at that slot, as `SlotCell` describes them, in the
      order the index listed them (the sort by start changes nothing). */
  lemma GridCells(m: map<string, seq<Entry>>, s: nat, d: nat)
    requires s < |FixedTimes| && d < |DayNames|
    ensures var g := Grid(m);
      |g| == |FixedTimes| && |g[s]| == |DayNames| &&
      (g[s][d].Covered? <==> exists i | 0 <= i < s :: g[i][d].Blocks? && s < i + g[i][d].rowspan) &&
      (!g[s][d].Covered? ==> g[s][d] == SlotCell(ParseAll(DayEntries(m, DayNames[d])), d, s))
  {
    var g := Grid(m);
    var cands := Candidates(Prepared(m, d), d);
    assert cands[..|FixedTimes|] == cands;
    var cs := Column(cands).0;
    forall k | 0 <= k < |cands| ensures !cands[k].Covered? {
      SlotCellCases(Prepared(m, d), d, k);
    }
    ColumnCoverage(cands);
    assert forall i | 0 <= i < |FixedTimes| :: g[i][d] == cs[i];
    assert CoveredBy(cs, s) <==> exists i | 0 <= i < s :: g[i][d].Blocks? && s < i + g[i][d].rowspan;
    SortKeepsSlotCell(ParseAll(DayEntries(m, DayNames[d])), d, s);
  }

  /** One rendered table: the label and key of its caption and its grid. */
  datatype RenderedTable = RenderedTable(viewLabel: string, key: string, rows: seq<seq<GridCell>>)

  /** `build_generic_tables(data_blocks, label)`: one table per key. */
  function Tables(data: Index, viewLabel: string): (r: map<string, RenderedTable>)
    ensures r.Keys == data.Keys
  {
    map k | k in data :: RenderedTable(viewLabel, k, Grid(data[k]))
  }

  lemma ColumnAtStep(m: map<string, seq<Entry>>, d: nat, k: nat)
    requires d < |DayNames| && k < |FixedTimes|
    ensures var (cs, t) := ColumnAt(m, d, k);
      var (x, t') := CellStep(t, SlotCell(Prepared(m, d), d, k));
      ColumnAt(m, d, k + 1) == (cs + [x], t')
  {
    var cands := Candidates(Prepared(m, d), d);
    assert cands[..k + 1][..k] == cands[..k];
  }

  /** Lines 143-214 for one slot: the loop over the days, on the array of counters. */
  method RenderRow(tracker: array<int>, prepared: seq<seq<Parsed>>, s: nat) returns (row: seq<GridCell>)
    requires tracker.Length == |DayNames| && |prepared| == |DayNames| && s < |FixedTimes|
    modifies tracker
    ensures |row| == |DayNames|
    ensures forall d | 0 <= d < |DayNames| ::
      (row[d], tracker[d]) == CellStep(old(tracker[d]), SlotCell(prepared[d], d, s))
  {
    row := [];
    for d := 0 to |DayNames|
      invariant |row| == d
      invariant forall e | 0 <= e < d ::
        (row[e], tracker[e]) == CellStep(old(tracker[e]), SlotCell(prepared[e], e, s))
      invariant forall e | d <= e < |DayNames| :: tracker[e] == old(tracker[e])
    {
      var cell, t := RenderCell(tracker[d], prepared[d], d, s);
      tracker[d] := t;
      row := row + [cell];
    }
  }

  /** Lines 145-214 for one day at one slot, given that day's counter. */
  method RenderCell(t: int, ps: seq<Parsed>, d: nat, s: nat) returns (cell: GridCell, t': int)
    requires d < |DayNames| && s < |FixedTimes|
    ensures (cell, t') == CellStep(t, SlotCell(ps, d, s))
  {
    if t > 0 {
      return Covered, t - 1;
    }
    var starting := StartingAt(ps, SlotStart(s));
    t' := t;
    if starting == [] && DayNames[d] == "Friday" && FixedTimes[s] == "13:30" {
      cell := Break;
    } else if starting == [] {
      cell := Dash;
    } else {
      var rowspan := (starting[0].end - SlotStart(s)) / SlotSize;
      var groups := ComposeCell(Contents(starting));
      cell := Blocks(rowspan, groups);
      if rowspan > 1 {
        t' := rowspan - 1;
      }
    }
  }

  /** Lines 124-136: the seven prepared days. */
  method PrepareWeek(m: map<string, seq<Entry>>) returns (prepared: seq<seq<Parsed>>)
    ensures |prepared| == |DayNames|
    ensures forall d | 0 <= d < |DayNames| :: prepared[d] == Prepared(m, d)
  {
    prepared := [];
    for d := 0 to |DayNames|
      invariant |prepared| == d
      invariant forall e | 0 <= e < d :: prepared[e] == Prepared(m, e)
    {
      var ps := PrepareDay(DayEntries(m, DayNames[d]));
      prepared := prepared + [ps];
    }
  }

  /** The first `s` rows of the grid, as the columns after `s` slots give them. */
  predicate RowsSoFar(m: map<string, seq<Entry>>, rows: seq<seq<GridCell>>, s: nat)
    requires s <= |FixedTimes|
  {
    |rows| == s &&
    (forall i | 0 <= i < s :: |rows[i]| == |DayNames|) &&
    forall i, d | 0 <= i < s && 0 <= d < |DayNames| :: rows[i][d] == ColumnAt(m, d, s).0[i]
  }

  lemma RowsStep(m: map<string, seq<Entry>>, rows: seq<seq<GridCell>>, row: seq<GridCell>, s: nat)
    requires s < |FixedTimes| && RowsSoFar(m, rows, s) && |row| == |DayNames|
    requires forall d | 0 <= d < |DayNames| :: row[d] == CellStep(ColumnAt(m, d, s).1, SlotCell(Prepared(m, d), d, s)).0
    ensures RowsSoFar(m, rows + [row], s + 1)
  {
    forall d | 0 <= d < |DayNames| {
      ColumnAtStep(m, d, s);
    }
    forall i, d | 0 <= i <= s && 0 <= d < |DayNames|
      ensures (rows + [row])[i][d] == ColumnAt(m, d, s + 1).0[i]
    {
      if i < s {
        assert (rows + [row])[i] == rows[i];
      }
    }
  }

  /** One pass of the slot loop: the next row of the grid, with the counters moved on. */
  method NextRow(m: map<string, seq<Entry>>, prepared: seq<seq<Parsed>>, tracker: array<int>,
                 ghost rows: seq<seq<GridCell>>, s: nat) returns (row: seq<GridCell>)
    requires s < |FixedTimes| && RowsSoFar(m, rows, s)
    requires tracker.Length == |prepared| == |DayNames|
    requires forall d | 0 <= d < |DayNames| :: prepared[d] == Prepared(m, d)
    requires forall d | 0 <= d < |DayNames| :: tracker[d] == ColumnAt(m, d, s).1
    modifies tracker
    ensures RowsSoFar(m, rows + [row], s + 1)
    ensures forall d | 0 <= d < |DayNames| :: tracker[d] == ColumnAt(m, d, s + 1).1
  {
    ghost var before := tracker[..];
    row := RenderRow(tracker, prepared, s);
    RowAdvance(m, prepared, rows, row, s, before, tracker[..]);
  }

  /** One pass of the slot loop moves the rows and the counters on by one slot. */
  lemma RowAdvance(m: map<string, seq<Entry>>, prepared: seq<seq<Parsed>>, rows: seq<seq<GridCell>>,
                   row: seq<GridCell>, s: nat, before: seq<int>, after: seq<int>)
    requires s < |FixedTimes| && RowsSoFar(m, rows, s)
    requires |prepared| == |row| == |before| == |after| == |DayNames|
    requires forall d | 0 <= d < |DayNames| :: prepared[d] == Prepared(m, d)
    requires forall d | 0 <= d < |DayNames| :: before[d] == ColumnAt(m, d, s).1
    requires forall d | 0 <= d < |DayNames| ::
      (row[d], after[d]) == CellStep(before[d], SlotCell(prepared[d], d, s))
    ensures RowsSoFar(m, rows + [row], s + 1)
    ensures forall d | 0 <= d < |DayNames| :: after[d] == ColumnAt(m, d, s + 1).1
  {
    forall d | 0 <= d < |DayNames| ensures after[d] == ColumnAt(m, d, s + 1).1 {
      ColumnAtStep(m, d, s);
    }
    RowsStep(m, rows, row, s);
  }

  lemma RowsDone(m: map<string, seq<Entry>>, rows: seq<seq<GridCell>>)
    requires RowsSoFar(m, rows, |FixedTimes|)
    ensures rows == Grid(m)
  {
    forall i | 0 <= i < |FixedTimes| ensures rows[i] == Grid(m)[i] {
    }
  }

  /** Lines 124-216 for one key: prepare the seven days, then the slot rows. */
  method RenderGrid(m: map<string, seq<Entry>>) returns (rows: seq<seq<GridCell>>)
    ensures rows == Grid(m)
  {
    var prepared := PrepareWeek(m);
    var tracker := new int[|DayNames|](_ => 0);
    rows := [];
    for s := 0 to |FixedTimes|
      invariant RowsSoFar(m, rows, s)
      invariant forall d | 0 <= d < |DayNames| :: tracker[d] == ColumnAt(m, d, s).1
    {
      var row := NextRow(m, prepared, tracker, rows, s);
      rows := rows + [row];
    }
    RowsDone(m, rows);
  }

  /** Lines 118-230: one table per key; the order keys are visited in does not
      change the resulting dictionary. */
  method BuildTables(data: Index, viewLabel: string) returns (tables: map<string, RenderedTable>)
    ensures tables == Tables(data, viewLabel)
  {
    tables := map[];
    var rest := data.Keys;
    while rest != {}
      invariant rest <= data.Keys
      invariant tables.Keys == data.Keys - rest
      invariant forall k | k in tables :: tables[k] == RenderedTable(viewLabel, k, Grid(data[k]))
      decreases |rest|
    {
      var k :| k in rest;
      var rows := RenderGrid(data[k]);
      tables := tables[k := RenderedTable(viewLabel, k, rows)];
      rest := rest - {k};
    }
  }
}
