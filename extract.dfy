/** The rowspan-aware walk of `extract_tables` (timetable_combiner.py:17-107).
    A parsed timetable is its day-header labels and its body rows; each body row is
    a sequence of cells. The walk keeps one counter per header column of the rows
    still covered by a cell from an earlier row (`rowspan_tracker`) and a column
    cursor (`col_idx`). It is specified by the functions `Skip`, `Step`, `WalkCells`
    and `WalkRows` over explicit state, and carried out by `ExtractTable` on an
    array, as the source does. */
module Extract {
  import opened Wrappers
  import opened Text
  import opened Patterns
  import opened CellParser
  import opened Indexing

  /** One `<td>`: whether its class list holds `lightgreen`, its non-empty trimmed
      text lines, and its `rowspan` attribute (1 when absent). */
  datatype Cell = Cell(green: bool, lines: seq<string>, rowspan: int)

  /** A block accepted by the walk, with the day its column resolves to. */
  datatype Emitted = Emitted(block: Block, day: string)

  /** The walk's state inside a row: the tracker, the cursor, the blocks so far. */
  datatype Walk = Walk(tracker: seq<int>, col: nat, out: seq<Emitted>)

  /** `day_headers[col_idx] if col_idx < len(day_headers) else "Unknown"`. */
  function DayAt(headers: seq<string>, col: nat): string {
    if col < |headers| then headers[col] else "Unknown"
  }

  function Zeros(n: nat): (z: seq<int>)
    ensures |z| == n && forall c | 0 <= c < n :: z[c] == 0
  {
    seq(n, _ => 0)
  }

  predicate NonNegative(t: seq<int>) {
    forall c | 0 <= c < |t| :: t[c] >= 0
  }

  /** Lines 53-55: every consecutive column from the cursor whose counter is positive
      is decremented once and passed over; nothing else changes. */
  function Skip(t: seq<int>, col: nat): (r: (seq<int>, nat))
    decreases |t| - col
    ensures |r.0| == |t| && col <= r.1
    ensures r.1 >= |t| || r.0[r.1] <= 0
    ensures forall c | col <= c < r.1 :: c < |t| && t[c] > 0
    ensures forall c | 0 <= c < |t| :: r.0[c] == (if col <= c < r.1 then t[c] - 1 else t[c])
  {
    if col < |t| && t[col] > 0 then
      var t' := t[col := t[col] - 1];
      var r := Skip(t', col + 1);
      assert forall c | col + 1 <= c < r.1 && c < |t| :: t'[c] == t[c];
      r
    else (t, col)
  }

  /** One iteration of the cell loop (lines 53-105): the skip loop, then the cell. */
  function Step(w: Walk, cell: Cell, headers: seq<string>, cls: string): Walk {
    var (t, c) := Skip(w.tracker, w.col);
    Place(t, c, w.out, cell, ParseGreen(cell, cls), headers)
  }

  /** Lines 57-92 run only for `lightgreen` cells; `None` for the others. */
  function ParseGreen(cell: Cell, cls: string): Option<Block> {
    if cell.green then ParseCell(cell.lines, cls) else None
  }

  /** Lines 94-105 for the cell met at column `c`, given what the parser made of it.
      A rejected `lightgreen` cell leaves through a `continue` before line 101, so its
      rowspan is never recorded. */
  function Place(t: seq<int>, c: nat, out: seq<Emitted>, cell: Cell, parsed: Option<Block>, headers: seq<string>): Walk {
    if cell.green && parsed.None? then
      Walk(t, c + 1, out)
    else
      var out' := if cell.green then out + [Emitted(parsed.value, DayAt(headers, c))] else out;
      var t2 := if cell.rowspan > 1 && c < |t| then t[c := cell.rowspan - 1] else t;
      Walk(t2, c + 1, out')
  }

  /** The cells of one row, left to right. */
  function WalkCells(w: Walk, cells: seq<Cell>, headers: seq<string>, cls: string): Walk
    decreases |cells|
  {
    if cells == [] then w
    else Step(WalkCells(w, cells[..|cells| - 1], headers, cls), cells[|cells| - 1], headers, cls)
  }

  /** The body rows, top to bottom; the cursor restarts at 0 on every row and the
      tracker carries over. */
  function WalkRows(t: seq<int>, out: seq<Emitted>, rows: seq<seq<Cell>>, headers: seq<string>, cls: string): (seq<int>, seq<Emitted>)
    decreases |rows|
  {
    if rows == [] then (t, out)
    else
      var (t1, o1) := WalkRows(t, out, rows[..|rows| - 1], headers, cls);
      var w := WalkCells(Walk(t1, 0, o1), rows[|rows| - 1], headers, cls);
      (w.tracker, w.out)
  }

  /** The blocks one table contributes, in the order the walk finds them. */
  function Extracted(headers: seq<string>, rows: seq<seq<Cell>>, cls: string): seq<Emitted> {
    WalkRows(Zeros(|headers|), [], rows, headers, cls).1
  }

  /** What one cell does to the walk: the cursor ends exactly one past the column the
      skip loop stopped at, whatever the cell; only an accepted cell adds a block, on
      the day of that column; the tracker is the skipped one except that a cell that
      is not a rejected `lightgreen` one, with rowspan above 1 and a column inside the
      tracker, sets that column's counter to rowspan - 1. */
  lemma StepSpec(w: Walk, cell: Cell, headers: seq<string>, cls: string)
    ensures var (t, c) := Skip(w.tracker, w.col);
      var r := Step(w, cell, headers, cls);
      var accepted := cell.green && ParseCell(cell.lines, cls).Some?;
      var records := !(cell.green && ParseCell(cell.lines, cls).None?) && cell.rowspan > 1 && c < |t|;
      r.col == c + 1 &&
      r.out == (if accepted then w.out + [Emitted(ParseCell(cell.lines, cls).value, DayAt(headers, c))] else w.out) &&
      |r.tracker| == |w.tracker| &&
      (forall k | 0 <= k < |t| && k != c :: r.tracker[k] == t[k]) &&
      (c < |t| ==> r.tracker[c] == (if records then cell.rowspan - 1 else t[c]))
  {
  }

  /** Tracker entries never go negative, through a cell ... */
  lemma StepNonNegative(w: Walk, cell: Cell, headers: seq<string>, cls: string)
    requires NonNegative(w.tracker)
    ensures NonNegative(Step(w, cell, headers, cls).tracker)
  {
    var (t, c) := Skip(w.tracker, w.col);
    assert NonNegative(t);
  }

  /** ... through a row ... */
  lemma {:induction false} WalkCellsNonNegative(w: Walk, cells: seq<Cell>, headers: seq<string>, cls: string)
    requires NonNegative(w.tracker)
    ensures NonNegative(WalkCells(w, cells, headers, cls).tracker)
    ensures |WalkCells(w, cells, headers, cls).tracker| == |w.tracker|
    decreases |cells|
  {
    if cells != [] {
      var mid := WalkCells(w, cells[..|cells| - 1], headers, cls);
      WalkCellsNonNegative(w, cells[..|cells| - 1], headers, cls);
      StepNonNegative(mid, cells[|cells| - 1], headers, cls);
    }
  }

  /** ... and through a whole table, whose tracker keeps one counter per header. */
  lemma {:induction false} WalkRowsNonNegative(t: seq<int>, out: seq<Emitted>, rows: seq<seq<Cell>>, headers: seq<string>, cls: string)
    requires NonNegative(t)
    ensures NonNegative(WalkRows(t, out, rows, headers, cls).0)
    ensures |WalkRows(t, out, rows, headers, cls).0| == |t|
    decreases |rows|
  {
    if rows != [] {
      var (t1, o1) := WalkRows(t, out, rows[..|rows| - 1], headers, cls);
      WalkRowsNonNegative(t, out, rows[..|rows| - 1], headers, cls);
      WalkCellsNonNegative(Walk(t1, 0, o1), rows[|rows| - 1], headers, cls);
    }
  }

  /** Every block the walk emits is a parse of one of the table's `lightgreen` cells,
      satisfies the block invariants, and carries a header label or "Unknown" as its day. */
  predicate GoodEmitted(e: Emitted, headers: seq<string>, cls: string, rows: seq<seq<Cell>>) {
    (exists r, k | 0 <= r < |rows| && 0 <= k < |rows[r]| ::
       rows[r][k].green && ParseCell(rows[r][k].lines, cls) == Some(e.block)) &&
    |e.block.teachers| >= 1 &&
    (e.day in headers || e.day == "Unknown")
  }

  predicate AllGood(es: seq<Emitted>, headers: seq<string>, cls: string, rows: seq<seq<Cell>>) {
    forall i | 0 <= i < |es| :: GoodEmitted(es[i], headers, cls, rows)
  }

  /** One cell of row `r`, column `k`, keeps every emitted block good. */
  lemma StepEmits(w: Walk, cell: Cell, headers: seq<string>, cls: string, rows: seq<seq<Cell>>, r: nat, k: nat)
    requires r < |rows| && k < |rows[r]| && rows[r][k] == cell
    requires AllGood(w.out, headers, cls, rows)
    ensures AllGood(Step(w, cell, headers, cls).out, headers, cls, rows)
  {
    var (t, c) := Skip(w.tracker, w.col);
    var out := Step(w, cell, headers, cls).out;
    if cell.green && ParseCell(cell.lines, cls).Some? {
      var e := Emitted(ParseCell(cell.lines, cls).value, DayAt(headers, c));
      assert out == w.out + [e];
      assert GoodEmitted(e, headers, cls, rows);
      forall i | 0 <= i < |out| ensures GoodEmitted(out[i], headers, cls, rows) {
        if i < |w.out| {
          assert out[i] == w.out[i];
        }
      }
    } else {
      assert out == w.out;
    }
  }

  lemma {:induction false} WalkCellsEmits(w: Walk, cells: seq<Cell>, headers: seq<string>, cls: string, rows: seq<seq<Cell>>, r: nat)
    requires r < |rows| && cells <= rows[r]
    requires AllGood(w.out, headers, cls, rows)
    ensures AllGood(WalkCells(w, cells, headers, cls).out, headers, cls, rows)
    decreases |cells|
  {
    if cells != [] {
      var k := |cells| - 1;
      var mid := WalkCells(w, cells[..k], headers, cls);
      WalkCellsEmits(w, cells[..k], headers, cls, rows, r);
      StepEmits(mid, cells[k], headers, cls, rows, r, k);
    }
  }

  lemma {:induction false} WalkRowsEmits(t: seq<int>, out: seq<Emitted>, rows: seq<seq<Cell>>, headers: seq<string>, cls: string, all: seq<seq<Cell>>)
    requires rows <= all
    requires AllGood(out, headers, cls, all)
    ensures AllGood(WalkRows(t, out, rows, headers, cls).1, headers, cls, all)
    decreases |rows|
  {
    if rows != [] {
      var p := WalkRows(t, out, rows[..|rows| - 1], headers, cls);
      WalkRowsEmits(t, out, rows[..|rows| - 1], headers, cls, all);
      assert rows[|rows| - 1] == all[|rows| - 1];
      WalkCellsEmits(Walk(p.0, 0, p.1), rows[|rows| - 1], headers, cls, all, |rows| - 1);
    }
  }

  lemma ExtractedGood(headers: seq<string>, rows: seq<seq<Cell>>, cls: string)
    ensures AllGood(Extracted(headers, rows, cls), headers, cls, rows)
  {
    WalkRowsEmits(Zeros(|headers|), [], rows, headers, cls, rows);
  }

  /** Registering a sequence of emitted blocks, in order. */
  function RegisterAll(s: IndexSet, es: seq<Emitted>): IndexSet
    decreases |es|
  {
    if es == [] then s
    else RegisterBlock(RegisterAll(s, es[..|es| - 1]), es[|es| - 1].block, es[|es| - 1].day)
  }

  /** The skip loop of lines 53-55 on the array tracker. */
  method SkipCovered(tracker: array<int>, col: nat) returns (next: nat)
    modifies tracker
    ensures (tracker[..], next) == Skip(old(tracker[..]), col)
  {
    next := col;
    while next < tracker.Length && tracker[next] > 0
      invariant Skip(tracker[..], next) == Skip(old(tracker[..]), col)
      decreases tracker.Length - next
    {
      tracker[next] := tracker[next] - 1;
      next := next + 1;
    }
  }

  lemma {:induction false} RegisterAllTimed(s: IndexSet, es: seq<Emitted>)
    requires TimedSet(s)
    requires forall i | 0 <= i < |es| :: TimeRange(es[i].block.time)
    ensures TimedSet(RegisterAll(s, es))
    decreases |es|
  {
    if es != [] {
      RegisterAllTimed(s, es[..|es| - 1]);
      RegisterBlockTimed(RegisterAll(s, es[..|es| - 1]), es[|es| - 1].block, es[|es| - 1].day);
    }
  }

  /** Every entry that the pages put into any of the three indexes carries a time
      range, so the renderer's own time-range filter never drops one of them. */
  lemma {:induction false} IndexAllTimed(docs: seq<Document>)
    ensures TimedSet(IndexAll(docs))
    decreases |docs|
  {
    if docs != [] {
      var d := docs[|docs| - 1];
      IndexAllTimed(docs[..|docs| - 1]);
      if d.table.Some? {
        var t := d.table.value;
        var cls := ClassName(d.heading, d.filename);
        var es := Extracted(t.headers, t.rows, cls);
        ExtractedGood(t.headers, t.rows, cls);
        forall i | 0 <= i < |es| ensures TimeRange(es[i].block.time) {
          assert GoodEmitted(es[i], t.headers, cls, t.rows);
        }
        RegisterAllTimed(IndexAll(docs[..|docs| - 1]), es);
      }
    }
  }

  /** One pass of the cell loop's body (lines 53-105) on the array tracker: the skip
      loop, the parser for a `lightgreen` cell, then the updates. */
  method StepCell(ix: Indexes, tracker: array<int>, col: nat, cell: Cell, headers: seq<string>, cls: string,
                  ghost s0: IndexSet, ghost out: seq<Emitted>)
    returns (next: nat, ghost out': seq<Emitted>)
    requires ix.State() == RegisterAll(s0, out)
    modifies ix, tracker
    ensures Walk(tracker[..], next, out') == Step(Walk(old(tracker[..]), col, out), cell, headers, cls)
    ensures ix.State() == RegisterAll(s0, out')
  {
    next := SkipCovered(tracker, col);
    var parsed: Option<Block> := None;
    if cell.green {
      parsed := ParseCellLines(cell.lines, cls);
    }
    next, out' := PlaceCell(ix, tracker, next, cell, parsed, headers, s0, out);
  }

  /** Lines 94-105 on the array tracker: the index updates and the rowspan record. */
  method PlaceCell(ix: Indexes, tracker: array<int>, c: nat, cell: Cell, parsed: Option<Block>, headers: seq<string>,
                   ghost s0: IndexSet, ghost out: seq<Emitted>)
    returns (next: nat, ghost out': seq<Emitted>)
    requires ix.State() == RegisterAll(s0, out)
    modifies ix, tracker
    ensures Walk(tracker[..], next, out') == Place(old(tracker[..]), c, out, cell, parsed, headers)
    ensures ix.State() == RegisterAll(s0, out')
  {
    out' := out;
    next := c + 1;
    if cell.green && parsed.None? {
      return;
    }
    var day := DayAt(headers, c);
    if cell.green {
      out' := RecordBlock(ix, parsed.value, day, s0, out);
    }
    RecordRowspan(tracker, c, cell.rowspan);
  }

  /** Lines 94-99 for an accepted block: the indexes gain it, and so does the walk's
      list of emitted blocks. */
  method RecordBlock(ix: Indexes, b: Block, day: string, ghost s0: IndexSet, ghost out: seq<Emitted>)
    returns (ghost out': seq<Emitted>)
    requires ix.State() == RegisterAll(s0, out)
    modifies ix
    ensures out' == out + [Emitted(b, day)]
    ensures ix.State() == RegisterAll(s0, out')
  {
    ix.Register(b, day);
    out' := out + [Emitted(b, day)];
    assert out'[..|out|] == out;
  }

  /** Lines 101-105: a rowspan above 1 is recorded for the column, when the column has
      a header. */
  method RecordRowspan(tracker: array<int>, c: nat, rowspan: int)
    modifies tracker
    ensures tracker[..] == if rowspan > 1 && c < tracker.Length then old(tracker[..])[c := rowspan - 1] else old(tracker[..])
  {
    if rowspan > 1 && c < tracker.Length {
      tracker[c] := rowspan - 1;
    }
  }

  /** The loop over one row's cells; the cursor starts at column 0. */
  method WalkRow(ix: Indexes, tracker: array<int>, cells: seq<Cell>, headers: seq<string>, cls: string,
                 ghost s0: IndexSet, ghost out: seq<Emitted>)
    returns (ghost out': seq<Emitted>)
    requires ix.State() == RegisterAll(s0, out)
    modifies ix, tracker
    ensures var w := WalkCells(Walk(old(tracker[..]), 0, out), cells, headers, cls);
      tracker[..] == w.tracker && out' == w.out
    ensures ix.State() == RegisterAll(s0, out')
  {
    var col: nat := 0;
    out' := out;
    ghost var w0 := Walk(tracker[..], 0, out);
    for k := 0 to |cells|
      invariant Walk(tracker[..], col, out') == WalkCells(w0, cells[..k], headers, cls)
      invariant ix.State() == RegisterAll(s0, out')
    {
      assert cells[..k + 1][..k] == cells[..k];
      col, out' := StepCell(ix, tracker, col, cells[k], headers, cls, s0, out');
    }
    assert cells[..|cells|] == cells;
  }

  /** Lines 43-105 for one table: a tracker with one zero per header, then the rows. */
  method ExtractTable(ix: Indexes, cls: string, headers: seq<string>, rows: seq<seq<Cell>>)
    modifies ix
    ensures ix.State() == RegisterAll(old(ix.State()), Extracted(headers, rows, cls))
  {
    var tracker := new int[|headers|](_ => 0);
    ghost var s0 := ix.State();
    ghost var out: seq<Emitted> := [];
    assert tracker[..] == Zeros(|headers|);
    for r := 0 to |rows|
      invariant (tracker[..], out) == WalkRows(Zeros(|headers|), [], rows[..r], headers, cls)
      invariant ix.State() == RegisterAll(s0, out)
    {
      assert rows[..r + 1][..r] == rows[..r];
      out := WalkRow(ix, tracker, rows[r], headers, cls, s0, out);
    }
    assert rows[..|rows|] == rows;
  }

  /** `heading.get_text().split("Class:")[-1].strip() if heading else filename`. */
  function ClassName(heading: Option<string>, filename: string): string {
    if heading.None? then filename else Strip(AfterLast(heading.value, "Class:"))
  }

  /** The class name is the file name when there is no heading; otherwise it is the
      text after the heading's last "Class:" marker with only whitespace cut off on
      either side, it neither starts nor ends with whitespace, and it holds no marker. */
  lemma ClassNameSpec(heading: Option<string>, filename: string)
    ensures heading.None? ==> ClassName(heading, filename) == filename
    ensures heading.Some? ==>
      var name := ClassName(heading, filename);
      (exists i: nat, j: nat :: TrimmedAt(AfterLast(heading.value, "Class:"), name, i, j)) &&
      (name == [] || (!IsSpace(name[0]) && !IsSpace(name[|name| - 1])))
    ensures heading.Some? ==> !Contains(ClassName(heading, filename), "Class:")
  {
    if heading.Some? {
      var after := AfterLast(heading.value, "Class:");
      AfterLastSpec(heading.value, "Class:");
      var left := StripLeft(after);
      if Contains(left, "Class:") {
        ContainsSuffix(after, "Class:", |after| - |left|);
      }
      var name := StripRight(left);
      if Contains(name, "Class:") {
        ContainsPrefix(left, "Class:", |name|);
      }
    }
  }

  /** A parsed `<table class="time_table">`: its markup (kept verbatim), the labels of
      its second row's `<th>` cells, and its body rows from the third row on. */
  datatype Table = Table(markup: string, headers: seq<string>, rows: seq<seq<Cell>>)

  /** One cached HTML page: its file name, the text of its "Class:" heading if there
      is one, and its timetable if there is one. */
  datatype Document = Document(filename: string, heading: Option<string>, table: Option<Table>)

  /** `class_tables` after the given pages: a later page with the same class name wins. */
  function ClassTables(docs: seq<Document>): map<string, string>
    decreases |docs|
  {
    if docs == [] then map[]
    else
      var d := docs[|docs| - 1];
      var m := ClassTables(docs[..|docs| - 1]);
      if d.table.None? then m else m[ClassName(d.heading, d.filename) := d.table.value.markup]
  }

  /** The three indexes after the given pages. */
  function IndexAll(docs: seq<Document>): IndexSet
    decreases |docs|
  {
    if docs == [] then IndexSet(map[], map[], map[])
    else
      var d := docs[|docs| - 1];
      var s := IndexAll(docs[..|docs| - 1]);
      if d.table.None? then s
      else RegisterAll(s, Extracted(d.table.value.headers, d.table.value.rows, ClassName(d.heading, d.filename)))
  }

  /** Lines 19-41 and 107: the loop over the cached pages; a page without a timetable
      contributes nothing. */
  method ExtractAll(docs: seq<Document>) returns (classTables: map<string, string>, ix: Indexes)
    ensures fresh(ix)
    ensures classTables == ClassTables(docs)
    ensures ix.State() == IndexAll(docs)
  {
    classTables := map[];
    ix := new Indexes();
    for i := 0 to |docs|
      invariant classTables == ClassTables(docs[..i])
      invariant ix.State() == IndexAll(docs[..i])
    {
      assert docs[..i + 1][..i] == docs[..i];
      var d := docs[i];
      var name := ClassName(d.heading, d.filename);
      if d.table.None? {
        continue;
      }
      var table := d.table.value;
      classTables := classTables[name := table.markup];
      ExtractTable(ix, name, table.headers, table.rows);
    }
    assert docs[..|docs|] == docs;
  }
}
