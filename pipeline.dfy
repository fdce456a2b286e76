/** How extraction and rendering fit together, and the behaviour of the combiner on
    a few small inputs: a cell parsed and placed on the grid, a two-letter course
    code, a block shorter than a slot, a block running past the last slot, an empty
    week, and the two ways the column walk treats covered columns. */
module Pipeline {
  import opened Wrappers
  import opened Text
  import opened Patterns
  import opened Clock
  import opened CellParser
  import opened Indexing
  import opened Extract
  import opened DaySchedule
  import opened Grouping
  import opened Merge
  import opened Render

  /** Every entry listed under `key` on `day` carries a time range, so the renderer's
      filter keeps all of them and parses each in place. */
  ghost predicate AllParsed(ix: Index, key: string, day: string) {
    var es := DayEntries(if key in ix then ix[key] else map[], day);
    (forall i | 0 <= i < |es| :: TimeRange(es[i].time)) &&
    |ParseAll(es)| == |es| && forall i | 0 <= i < |es| :: ParseAll(es)[i] == ParseEntry(es[i])
  }

  lemma TimedAllParsed(ix: Index, key: string, day: string)
    requires Timed(ix)
    ensures AllParsed(ix, key, day)
  {
    var es := DayEntries(if key in ix then ix[key] else map[], day);
    assert es == Lookup(ix, key, day);
    ParseAllKeepsTimed(es);
  }

  /** The renderer parses every entry that extraction stored, under every key and day
      of each of the three indexes: its time-range filter skips none of them. */
  lemma RendererKeepsExtracted(docs: seq<Document>, key: string, day: string)
    ensures var s := IndexAll(docs);
      AllParsed(s.teacher, key, day) && AllParsed(s.course, key, day) && AllParsed(s.room, key, day)
  {
    IndexAllTimed(docs);
    var s := IndexAll(docs);
    TimedAllParsed(s.teacher, key, day);
    TimedAllParsed(s.course, key, day);
    TimedAllParsed(s.room, key, day);
  }

  /** A line without a full stop names no teacher: every title ends in one. */
  lemma NoDotNoTeacher(line: string)
    requires '.' !in line
    ensures !IsTeacherLine(line)
  {
    forall t, i: nat | t in TeacherTitles && i <= |line| ensures !OccursAt(line, t, i) {
      if i + |t| <= |line| {
        assert line[i + |t| - 1] in line;
      }
    }
  }

  /** A two-letter department code is not a course code: `[A-Z]{3,5}` needs three. */
  lemma TwoLetterCodeRejected(cls: string)
    ensures ParseCell(["CS-101-Intro to CS", "Dr. A. Khan", "Room 204", "09:00 - 10:30"], cls) == None
  {
    var s := "CS-101-Intro to CS";
    assert !IsUpper(s[2]);
  }

  const SampleLines: seq<string> := ["CSC-101-Intro to CS", "Dr. A. Khan", "Room 204", "09:00 - 10:30"]

  /** The sample block that the cell parser is expected to return. */
  function SampleBlock(cls: string): Block {
    var l := SampleLines;
    Block(l[0], l[1..2], l[2], l[3], Content(l[0], l[1..2], l[2], l[3], cls))
  }

  lemma SampleCourseLine()
    ensures CourseCode(SampleLines[0])
  {
    assert CourseCodeAt(SampleLines[0], 3, 3);
  }

  lemma SampleTeacherLine()
    ensures IsTeacherLine(SampleLines[1])
  {
    var line := SampleLines[1];
    assert line[..3] == "Dr.";
    assert OccursAt(line, "Dr.", 0);
    ContainsWitness(line, "Dr.", 0);
    assert "Dr." in TeacherTitles;
  }

  lemma SampleNoNewline()
    ensures forall k | 0 <= k < |SampleLines| :: '\n' !in SampleLines[k]
  {
    forall k | 0 <= k < |SampleLines| ensures '\n' !in SampleLines[k] {
      if k == 0 {
      } else if k == 1 {
      } else if k == 2 {
      } else {
      }
    }
  }

  lemma SampleTimeLine()
    ensures TimeRange(SampleLines[3])
  {
    assert TimeRangeAt(SampleLines[3], 1, 1);
  }

  /** A three-letter code is accepted: one teacher, the room, the time range, and the
      canonical content. */
  lemma SampleParses(cls: string)
    ensures ParseCell(SampleLines, cls) == Some(SampleBlock(cls))
  {
    var lines := SampleLines;
    assert TeacherEnd(lines, 1) == 2 by {
      SampleTeacherLine();
      NoDotNoTeacher(lines[2]);
      TeacherEndUnique(lines, 2);
    }
    SampleCourseLine();
    SampleTimeLine();
  }

  /** On a Monday column the sample cell yields its block on "Monday". */
  lemma SampleOnMonday(cls: string)
    ensures Extracted(["Monday"], [[Cell(true, SampleLines, 1)]], cls) ==
      [Emitted(SampleBlock(cls), "Monday")]
  {
    SampleParses(cls);
    var h := ["Monday"];
    var row := [Cell(true, SampleLines, 1)];
    var rows: seq<seq<Cell>> := [row];
    var w0 := Walk(Zeros(1), 0, []);
    assert rows[..0] == [];
    assert WalkRows(Zeros(1), [], rows[..0], h, cls) == (Zeros(1), []);
    assert row[..0] == [];
    assert WalkCells(w0, row[..0], h, cls) == w0;
    assert WalkCells(w0, row, h, cls) == Step(w0, row[0], h, cls);
    assert Skip(Zeros(1), 0) == (Zeros(1), 0);
    assert DayAt(h, 0) == "Monday";
    assert Step(w0, row[0], h, cls).out == [Emitted(SampleBlock(cls), "Monday")];
  }

  /** An entry written "HH:MM - HH:MM" is parsed into its two clock times. */
  lemma ParseOne(t1: string, t2: string, c: string)
    requires IsClock(t1) && IsClock(t2)
    ensures ParseAll([Entry(t1 + " - " + t2, c)]) == [Parsed(TimeToMin(t1), TimeToMin(t2), c)]
  {
    SingleSpaced(t1, t2, c);
    ParseAllOne(Entry(t1 + " - " + t2, c));
  }

  lemma SingleSpaced(t1: string, t2: string, c: string)
    requires IsClock(t1) && IsClock(t2)
    ensures TimeRange(t1 + " - " + t2)
    ensures ParseEntry(Entry(t1 + " - " + t2, c)) == Parsed(TimeToMin(t1), TimeToMin(t2), c)
  {
    assert t1 + Spaces(1) + "-" + Spaces(1) + t2 == t1 + " - " + t2 by {
      assert Spaces(1) == " ";
    }
    ParseEntryReadsBack(t1, t2, 1, 1, c);
  }

  lemma ParseAllOne(e: Entry)
    requires TimeRange(e.time)
    ensures ParseAll([e]) == [ParseEntry(e)]
  {
    assert [e][..0] == [];
  }

  lemma ClockSamples()
    ensures IsClock("09:00") && TimeToMin("09:00") == 540
    ensures IsClock("10:30") && TimeToMin("10:30") == 630
    ensures IsClock("15:00") && TimeToMin("15:00") == 900
    ensures IsClock("18:00") && TimeToMin("18:00") == 1080
  {
  }

  /** A slot where a single entry starts shows that entry alone under its title. */
  lemma OneEntrySlot(p: Parsed, d: nat, s: nat)
    requires d < |DayNames| && s < |FixedTimes| && p.start == SlotStart(s)
    ensures SlotCell([p], d, s) == Blocks((p.end - p.start) / SlotSize, [Single(Title(p.content), p.content)])
  {
    assert StartingAt([p], p.start) == [p] by {
      assert [p][..0] == [];
    }
    assert Contents([p]) == [p.content];
    ComposeOne(p.content);
  }

  /** The sample block, the only entry of a view on Monday, renders at 09:00 on
      Monday as a single block under its course title with rowspan (630 - 540) / 90 = 1. */
  lemma SampleRendered(m: map<string, seq<Entry>>, cls: string)
    requires '\n' !in cls
    requires "Monday" in m && m["Monday"] == [Entry("09:00 - 10:30", SampleBlock(cls).content)]
    ensures var g := Grid(m);
      |g| == 5 && |g[0]| == 7 && g[0][0] == Blocks(1, [Single(SampleLines[0], SampleBlock(cls).content)])
  {
    var c := SampleBlock(cls).content;
    MondayParsed(m, c);
    SampleTitle(cls);
    MondayFirstSlot(m, c);
  }

  lemma MondayParsed(m: map<string, seq<Entry>>, c: string)
    requires "Monday" in m && m["Monday"] == [Entry("09:00 - 10:30", c)]
    ensures ParseAll(DayEntries(m, DayNames[0])) == [Parsed(540, 630, c)]
  {
    ClockSamples();
    ParseOne("09:00", "10:30", c);
    assert "09:00" + " - " + "10:30" == "09:00 - 10:30";
    assert DayEntries(m, DayNames[0]) == [Entry("09:00 - 10:30", c)];
  }

  lemma SampleTitle(cls: string)
    requires '\n' !in cls
    ensures Title(SampleBlock(cls).content) == SampleLines[0]
  {
    SampleParses(cls);
    SampleNoNewline();
    BlockMergePair(SampleLines, cls);
  }

  /** A 90-minute block alone on Monday at 09:00 shows in the first slot with rowspan 1. */
  lemma MondayFirstSlot(m: map<string, seq<Entry>>, c: string)
    requires ParseAll(DayEntries(m, DayNames[0])) == [Parsed(540, 630, c)]
    ensures var g := Grid(m);
      |g| == 5 && |g[0]| == 7 && g[0][0] == Blocks(1, [Single(Title(c), c)])
  {
    var p := Parsed(540, 630, c);
    assert SlotCell([p], 0, 0) == Blocks(1, [Single(Title(c), c)]) by {
      OneEntrySlot(p, 0, 0);
    }
    GridCells(m, 0, 0);
  }

  /** A block shorter than one slot gets rowspan 0 (so it covers nothing below it). */
  lemma ShortBlockRowspanZero(c: string)
    ensures SlotCell([Parsed(540, 600, c)], 0, 0).Blocks?
    ensures SlotCell([Parsed(540, 600, c)], 0, 0).rowspan == 0
  {
    OneEntrySlot(Parsed(540, 600, c), 0, 0);
  }

  /** With nothing scheduled, every slot shows a dash except Friday at 13:30, which
      shows the prayer break. */
  lemma {:induction false} EmptyWeek(s: nat, d: nat)
    requires s < |FixedTimes| && d < |DayNames|
    ensures Grid(map[])[s][d] == if d == 4 && s == 3 then Break else Dash
    decreases s
  {
    GridCells(map[], s, d);
    forall i | 0 <= i < s ensures !Grid(map[])[i][d].Blocks? {
      EmptyWeek(i, d);
    }
    assert DayEntries(map[], DayNames[d]) == [];
    SlotCellCases([], d, s);
  }

  /** A three-hour block at 15:00, the last slot, gets rowspan 2 although only one
      slot row is left: the rowspans of a column need not add up to the five rows. */
  lemma LastSlotOverhang(m: map<string, seq<Entry>>, c: string)
    requires "Sunday" in m && m["Sunday"] == [Entry("15:00 - 18:00", c)]
    ensures var g := Grid(m);
      |g| == 5 && |g[4]| == 7 && g[4][6].Blocks? && g[4][6].rowspan == 2
  {
    SundayParsed(m, c);
    SundayOverhang(m, c);
  }

  lemma SundayOverhang(m: map<string, seq<Entry>>, c: string)
    requires ParseAll(DayEntries(m, DayNames[6])) == [Parsed(900, 1080, c)]
    ensures var g := Grid(m);
      |g| == 5 && |g[4]| == 7 && g[4][6].Blocks? && g[4][6].rowspan == 2
  {
    var p := Parsed(900, 1080, c);
    assert SlotCell([p], 6, 4) == Blocks(2, [Single(Title(c), c)]) by {
      OneEntrySlot(p, 6, 4);
    }
    SundayLastSlot(m, p);
  }

  lemma SundayParsed(m: map<string, seq<Entry>>, c: string)
    requires "Sunday" in m && m["Sunday"] == [Entry("15:00 - 18:00", c)]
    ensures ParseAll(DayEntries(m, DayNames[6])) == [Parsed(900, 1080, c)]
  {
    ClockSamples();
    ParseOne("15:00", "18:00", c);
    assert "15:00" + " - " + "18:00" == "15:00 - 18:00";
    assert DayEntries(m, DayNames[6]) == [Entry("15:00 - 18:00", c)];
  }

  /** When Sunday's only block starts at 15:00, the last slot of Sunday shows it. */
  lemma SundayLastSlot(m: map<string, seq<Entry>>, p: Parsed)
    requires p.start == 900
    requires ParseAll(DayEntries(m, DayNames[6])) == [p]
    ensures |Grid(m)| == 5 && |Grid(m)[4]| == 7 && Grid(m)[4][6] == SlotCell([p], 6, 4)
  {
    forall i | 0 <= i < 4 ensures !Grid(m)[i][6].Blocks? {
      NothingStartsBefore(m, p, i);
    }
    GridCells(m, 4, 6);
  }

  /** Above the slot where the day's only block starts, no slot shows a block. */
  lemma NothingStartsBefore(m: map<string, seq<Entry>>, p: Parsed, i: nat)
    requires i < 4 && p.start == 900
    requires ParseAll(DayEntries(m, DayNames[6])) == [p]
    ensures !Grid(m)[i][6].Blocks?
  {
    GridCells(m, i, 6);
    assert [p][..0] == [];
    assert StartingAt([p], SlotStart(i)) == [];
    SlotCellCases([p], 6, i);
  }

  /** A `lightgreen` cell that is rejected leaves its rowspan unrecorded, while any
      other cell with the same rowspan records it. */
  lemma RejectedCellRecordsNoRowspan(headers: seq<string>, cls: string)
    ensures Step(Walk([0, 0], 0, []), Cell(true, [], 3), headers, cls) == Walk([0, 0], 1, [])
    ensures Step(Walk([0, 0], 0, []), Cell(false, [], 3), headers, cls) == Walk([2, 0], 1, [])
  {
    assert Skip([0, 0], 0) == ([0, 0], 0);
  }

  /** A column covered after the last cell of a row is not counted down in that row:
      the counter is only decremented when a later cell of the row walks past it.
      Here the second column is covered for one row by a rowspan-2 cell, the next row
      has one cell, and the counter is still 1 afterwards, so a third row would skip
      that column once more. */
  lemma TrailingCoverLingers(headers: seq<string>, cls: string)
    ensures var rows := [[Cell(false, [], 1), Cell(false, [], 2)], [Cell(false, [], 1)]];
      WalkRows([0, 0], [], rows, headers, cls).0 == [0, 1]
  {
    var r0 := [Cell(false, [], 1), Cell(false, [], 2)];
    var r1 := [Cell(false, [], 1)];
    var rows := [r0, r1];
    assert rows[..1] == [r0] && rows[..1][..0] == [];
    assert r0[..1] == [Cell(false, [], 1)] && r0[..1][..0] == [];
    assert r1[..0] == [];
    assert Skip([0, 0], 0) == ([0, 0], 0);
    assert Skip([0, 0], 1) == ([0, 0], 1);
    assert WalkCells(Walk([0, 0], 0, []), r0, headers, cls) == Walk([0, 1], 2, []);
    assert Skip([0, 1], 0) == ([0, 1], 0);
  }
}
