# Timetable combiner: the extraction, re-indexing and rendering core in Dafny

This project models the core of `timetable_combiner.py`, the tool that merges
scraped class timetables into cross-cutting views: by teacher, by course and by
room. The model has four parts.

- **Extraction** (`extract_tables`) walks each class timetable row by row, keeping
  one counter per day column of the rows still covered by a `rowspan` from above.
  It parses every `lightgreen` cell into a block (course code line, teacher lines,
  room, time range) and files the block's canonical content under each teacher,
  the course and the room, per day.
- **Day preparation** parses an index's entries for one day into start and end
  minutes, drops entries without a time range, and sorts the rest stably by start.
- **Rendering** (`build_generic_tables`) lays every key out on a grid of five
  90-minute slots by seven days. A second counter per day hides slots covered by a
  block above. An uncovered slot shows the Friday prayer break, a dash, or the
  blocks that start exactly there, with rowspan `(end - slot_start) // 90`.
- **Merging** groups the blocks that start in one slot by their title line. A
  group of one is shown as it is. A larger group is combined by the key (subject,
  teachers, room, time), collecting the class labels, and is badged with the
  group size.

Modules, in dependency order:

| file | module | what it holds |
|---|---|---|
| `wrappers.dfy` | `Wrappers` | the `Option` type used for a cell that is skipped and for an absent heading or table |
| `text.dfy` | `Text` | `str.strip`, `str.split` on one character, `str.join`, substring search, `split(m)[-1]` |
| `patterns.dfy` | `Patterns` | the course-code and time-range regular expressions as predicates over their match positions, and the teacher-title test |
| `clock.dfy` | `Clock` | `time_to_min` |
| `cell_parser.dfy` | `CellParser` | the cell parser, as a function and as the source's loop |
| `grouping.dfy` | `Grouping` | an insertion-ordered dictionary of lists (`defaultdict(list)`, `setdefault(...).append`) |
| `indexing.dfy` | `Indexing` | the three indexes, as a class whose fields are updated in place |
| `extract.dfy` | `Extract` | the rowspan-aware walk: a specification over explicit state, plus the array-based method |
| `schedule.dfy` | `DaySchedule` | per-day parsing and the stable sort by start minute, as an in-place insertion sort on an array |
| `merge.dfy` | `Merge` | the merge of the blocks starting in one slot |
| `render.dfy` | `Render` | the fixed grid, its per-day counters, and one table per key |
| `pipeline.dfy` | `Pipeline` | how extraction feeds rendering, and the combiner's behaviour on small concrete inputs |

Where the source works by mutation, the model keeps that form and proves it
against a specification function:

- the index dictionaries are fields of the class `Indexing.Indexes`;
- the rowspan trackers are `array<int>`;
- the per-day sort is an in-place insertion sort on an array.

## Model

| member | source | states |
|---|---|---|
| `Clock.TimeToMin` | timetable_combiner.py:11-14 | `h * 60 + m` of an `HH:MM` text: at most 99*60+99, and for minutes below 60 the quotient and remainder by 60 give back the hours and minutes |
| `Clock.TimeToMinInjective` | timetable_combiner.py:11-14 | two clock texts with minutes below 60 that convert to the same minute count are the same text |
| `Text.AfterLastSpec` | timetable_combiner.py:34 | `split(m)[-1]` is a suffix of the text that holds no `m`; it is the whole text exactly when the text holds no `m`, and otherwise it is immediately preceded by an occurrence of `m` |
| `Text.StripLeft` | timetable_combiner.py:34 | the result is a suffix of the input, everything cut off before it is whitespace, and it does not start with whitespace |
| `Text.StripRight` | timetable_combiner.py:34 | the result is a prefix of the input, everything cut off after it is whitespace, and it does not end with whitespace |
| `Text.StripLeftAt` | timetable_combiner.py:34 | when the text is whitespace up to a non-space character (or its end), left stripping cuts off exactly that whitespace |
| `Text.StripRightAt` | timetable_combiner.py:34 | when the text is whitespace back to a non-space character (or its start), right stripping cuts off exactly that whitespace |
| `Text.Strip` | timetable_combiner.py:180 | the stripped text is an infix of the input with only whitespace cut off on either side, and it neither starts nor ends with whitespace |
| `Text.StripUnique` | timetable_combiner.py:180 | any infix with only whitespace around it that is empty or neither starts nor ends with whitespace is the stripped text, so `strip` keeps the longest such infix |
| `Text.StripAllSpace` | timetable_combiner.py:180 | a text of whitespace only strips to the empty text |
| `Text.StripNoop` | timetable_combiner.py:180 | stripping a text that neither starts nor ends with whitespace changes nothing |
| `Text.Split` | timetable_combiner.py:169 | `split(c)` gives at least one piece and no piece holds the separator; `Text.JoinSplit` shows the pieces join back to the text |
| `Text.JoinSplit` | timetable_combiner.py:169 | joining the pieces of `split(c)` with `c` gives back the text, so splitting loses nothing |
| `Text.SplitNoSeparator` | timetable_combiner.py:169 | a text without the separator splits into itself alone |
| `Text.SplitJoin` | timetable_combiner.py:91-92 | joining pieces that hold no separator with that separator and splitting again gives back the pieces |
| `Text.JoinAppend` | timetable_combiner.py:91 | joining two non-empty lists is joining each and putting the separator between them |
| `Extract.ClassNameSpec` | timetable_combiner.py:33-34 | without a heading the class name is the file name; with one it is the text after the last `Class:` with only whitespace cut off on either side, it neither starts nor ends with whitespace, and it holds no `Class:` |
| `Patterns.CourseCodeUnique` | timetable_combiner.py:65 | the course-code pattern `[A-Z]{3,5}-\d{3,4}-[A-Za-z0-9 ]` can match a line in at most one way |
| `Patterns.CourseCodeStartsUpper` | timetable_combiner.py:65 | a matching line has at least nine characters and starts with a capital letter |
| `Patterns.SpaceRun` | timetable_combiner.py:84 | `\s*` read greedily: the run stays inside the text, is all whitespace, and stops at a non-space or at the end |
| `Patterns.TimeRangeGreedy` | timetable_combiner.py:84 | in a time range that matches, the gaps around the dash are exactly the greedy whitespace runs |
| `Patterns.TimeRangeByGaps` | timetable_combiner.py:84 | `\d{2}:\d{2}\s*-\s*\d{2}:\d{2}` matches exactly when it matches with the greedy gaps, so matching is decidable by one computation |
| `CellParser.TeacherEnd` | timetable_combiner.py:70-74 | the teacher loop stops at the first line, from the given one on, that carries no title; every line it passed over carries one |
| `CellParser.TeacherEndUnique` | timetable_combiner.py:70-74 | any stopping point with that property is the one the loop finds |
| `CellParser.ParseCell` | timetable_combiner.py:57-92 | an accepted cell has a course-code line, at least one teacher line, every teacher line carries a title, and its time line matches the time-range pattern |
| `CellParser.ParseCellAccepts` | timetable_combiner.py:60-86 | a cell is accepted exactly when it has at least four lines, its first line is a course code, its second line carries a title, and the line after the room is present and is a time range |
| `CellParser.ParseCellFields` | timetable_combiner.py:64-92 | an accepted block is read in place from the lines: course = line 0, teachers = lines 1..n, room = line n+1 (never a teacher line), time = line n+2; the content joins them and `[class]` with newlines |
| `CellParser.ContentSplits` | timetable_combiner.py:91-92 | when no line and not the class name holds a newline, splitting the content on newlines gives back course, teachers, room, time and `[class]` |
| `CellParser.CollectTeachers` | timetable_combiner.py:70-74 | the loop collects lines 1..next, each with a title, and stops at the end or at a line without one |
| `CellParser.ParseCellLines` | timetable_combiner.py:57-92 | the parser written with the source's loop and early exits returns exactly `ParseCell` |
| `Grouping.GroupByProps` | timetable_combiner.py:167-170 | a dictionary of lists built by appending keeps its keys in first-seen order, without duplicates, and each key lists exactly the values appended under it, in order and never empty |
| `Grouping.GroupByLookup` | timetable_combiner.py:190 | every key that was appended to is present and lists exactly its values |
| `Grouping.GroupBySnoc` | timetable_combiner.py:170 | appending one more pair is one `setdefault(k, []).append(v)` step on the dictionary |
| `Grouping.GroupByTotal` | timetable_combiner.py:167-170 | the list lengths add up to the number of appended pairs |
| `Grouping.FirstSeenProps` | timetable_combiner.py:173 | the first-seen order of keys has each key once and no other |
| `Indexing.Add` | timetable_combiner.py:95-99 | one append adds the entry at the end of the list of that key and day and changes no other list; the key set grows by that key |
| `Indexing.AddWellFormed` | timetable_combiner.py:20-22 | appending keeps the dictionaries free of empty days and keys, as a `defaultdict` only creates them on append |
| `Indexing.AddAllLookup` | timetable_combiner.py:94-95 | appending under each teacher adds, on that day, one copy of the entry per occurrence of a teacher, and nothing anywhere else |
| `Indexing.RegisterBlockLookup` | timetable_combiner.py:94-99 | after a block is filed, each teacher finds its entry once per occurrence, and the course and the room find it exactly once; every other list is unchanged |
| `Indexing.CountSingle` | timetable_combiner.py:94-95 | a teacher listed once in a block is filed once |
| `Indexing.RegisterBlockTimed` | timetable_combiner.py:94-99 | filing a block whose time matches the pattern keeps every stored time matching it |
| `Indexing.Indexes.constructor` | timetable_combiner.py:20-22 | the three indexes start empty |
| `Indexing.Indexes.Register` | timetable_combiner.py:94-99 | the new state of the three dictionaries is the old state with the block filed under each teacher, the course and the room, in that order |
| `Extract.Skip` | timetable_combiner.py:53-55 | the skip loop passes exactly the run of columns with a positive counter from the cursor, decrements each by one, stops at a non-positive counter or the end, and changes nothing else |
| `Extract.StepSpec` | timetable_combiner.py:52-105 | one cell: the cursor ends one past the column where skipping stopped; only an accepted `lightgreen` cell emits its block, on that column's day; the counter of that column becomes rowspan - 1 only for a cell that is not a rejected `lightgreen` one, has rowspan above 1 and stands inside the tracker |
| `Extract.WalkRowsNonNegative` | timetable_combiner.py:46-105 | the counters never go negative and the tracker keeps one counter per header |
| `Extract.ExtractedGood` | timetable_combiner.py:43-105 | every emitted block is what the parser made of some `lightgreen` cell of the table, has a teacher, and is on a header day or `Unknown` |
| `Extract.IndexAllTimed` | timetable_combiner.py:17-107 | every entry stored in the three indexes carries a time matching the time-range pattern |
| `Extract.SkipCovered` | timetable_combiner.py:53-55 | the loop on the array tracker does what `Skip` describes |
| `Extract.RecordRowspan` | timetable_combiner.py:101-103 | the array tracker gets rowspan - 1 at the column when the rowspan is above 1 and the column is in range, and is unchanged otherwise |
| `Extract.RecordBlock` | timetable_combiner.py:94-99 | filing an accepted block extends the emitted list by it, and the indexes by its registration |
| `Extract.PlaceCell` | timetable_combiner.py:57-105 | the cell's effect on the array tracker, the cursor and the indexes is what `Place` describes |
| `Extract.StepCell` | timetable_combiner.py:52-105 | one iteration of the cell loop on the array tracker and the indexes is what `Step` describes |
| `Extract.WalkRow` | timetable_combiner.py:48-105 | one row of the walk on the array tracker and the indexes is what `WalkCells` describes |
| `Extract.ExtractTable` | timetable_combiner.py:43-105 | after one table, the indexes hold the old state with every block of the functional walk filed in order |
| `Extract.ExtractAll` | timetable_combiner.py:19-41 | the class tables and the three indexes after all pages are what `ClassTables` and `IndexAll` describe; pages without a timetable contribute nothing |
| `DaySchedule.EndText` | timetable_combiner.py:131 | the end time of a matched range is a clock text `HH:MM` |
| `DaySchedule.ParseEntryReadsBack` | timetable_combiner.py:128-134 | for any two clock texts joined by a dash, with any spaces on either side, the entry matches and parses back to exactly those two minute counts |
| `DaySchedule.ParseAllKeepsTimed` | timetable_combiner.py:128-134 | when every entry matches, none is skipped and each is parsed in place |
| `DaySchedule.ParseAllSkipsUntimed` | timetable_combiner.py:129-130 | an entry whose time text does not match adds nothing |
| `DaySchedule.SortByStartProps` | timetable_combiner.py:135 | the sort orders by start minute, is a permutation, and is stable: the entries starting at any one minute keep their relative order |
| `DaySchedule.InsertByStartStable` | timetable_combiner.py:135 | one insertion step appends the new entry after the equal-start entries already there |
| `DaySchedule.InsertByStartSorted` | timetable_combiner.py:135 | one insertion step keeps a sorted list sorted |
| `DaySchedule.InsertByStartPerm` | timetable_combiner.py:135 | one insertion step adds exactly the new entry to the multiset |
| `DaySchedule.InsertAt` | timetable_combiner.py:135 | inserting `a[i]` into the sorted prefix in place gives the insertion step's result, and the rest of the array is untouched |
| `DaySchedule.SortInPlace` | timetable_combiner.py:135 | the in-place sort leaves the array as the stable sort of its old contents |
| `DaySchedule.ParseDay` | timetable_combiner.py:127-134 | the parse loop returns the parsed entries, skipping those without a time range |
| `DaySchedule.PrepareDay` | timetable_combiner.py:126-136 | a day's entries come out parsed, filtered and stably sorted |
| `Merge.ComposeGroups` | timetable_combiner.py:166-208 | the groups are the distinct titles in first-seen order; a group is shown alone exactly when one content has its title; a larger group carries the number of its contents as badge, and its keys are the distinct composite keys of its contents in first-seen order, each listing the class labels under it in order |
| `Merge.ComposeConserves` | timetable_combiner.py:166-208 | the group sizes add up to the number of starting blocks, short contents included through the badge |
| `Merge.BlockMergePair` | timetable_combiner.py:169-189 | a parsed block's content has the course as its title and splits into the key (course, teachers joined by ", ", room, time) and its `[class]` label |
| `Merge.MergeTwoSections` | timetable_combiner.py:165-208 | the same cell parsed for two classes merges into one badged group of 2 with a single key listing both class labels |
| `Merge.ShortContentsDropped` | timetable_combiner.py:180-182 | two copies of a content with fewer than five lines make a badged group of 2 with no entries |
| `Merge.NoPairs` | timetable_combiner.py:180-182 | contents that are all too short give no composite keys |
| `Merge.ComposeOne` | timetable_combiner.py:174-176 | a lone content is shown as it is, under its title |
| `Merge.MergeByTitle` | timetable_combiner.py:166-170 | the title loop builds exactly the insertion-ordered dictionary of the contents grouped under their first lines |
| `Merge.ComposeCell` | timetable_combiner.py:166-208 | the merge loops on the dictionary give exactly `Compose` |
| `Merge.CombineGroup` | timetable_combiner.py:178-190 | the `combined` loop gives the dictionary of the composite keys with their class labels, short contents skipped |
| `Render.SlotStart` | timetable_combiner.py:114-115 | the slots start every 90 minutes from 540 (09:00) |
| `Render.FridayAt1330` | timetable_combiner.py:153 | the break test holds exactly for day 4 and slot 3 |
| `Render.SlotCellCases` | timetable_combiner.py:149-211 | an uncovered slot shows the break exactly when nothing starts there on Friday at 13:30, a dash exactly when nothing starts there otherwise, and otherwise the starting blocks, whose rowspan is the whole number of 90-minute slots from the slot start to the first block's end, rounded down, and whose group sizes add up to the number of starting blocks |
| `Render.SortKeepsSlotCell` | timetable_combiner.py:135-150 | sorting a day's blocks does not change any slot's cell |
| `Render.ColumnCoverage` | timetable_combiner.py:144-214 | in a column built from uncovered candidate cells, a slot is hidden exactly when the rowspan of a block shown above reaches over it, every other slot shows its candidate, and the final counter is non-negative, positive exactly when the last block's rowspan reaches past the column, and equal to the rows it still covers |
| `Render.GridCells` | timetable_combiner.py:139-216 | in the grid, a slot is hidden exactly when a block shown above it on that day reaches over it with its rowspan; any other slot shows what the day's blocks starting there make, in the order the index listed them |
| `Render.Tables` | timetable_combiner.py:118-230 | one table per key of the index, no more and no fewer |
| `Render.RenderCell` | timetable_combiner.py:145-214 | one day at one slot, with that day's counter, gives the cell and the new counter `CellStep` describes |
| `Render.RenderRow` | timetable_combiner.py:143-216 | the day loop on the array tracker gives each day's cell and counter as `CellStep` describes |
| `Render.PrepareWeek` | timetable_combiner.py:124-136 | the seven prepared days are the parsed, stably sorted entries of each day |
| `Render.NextRow` | timetable_combiner.py:141-216 | one slot iteration extends the rows by the grid's next row and moves the counters on by one slot |
| `Render.RenderGrid` | timetable_combiner.py:124-216 | the rendering loops produce exactly the grid `Grid` describes |
| `Render.BuildTables` | timetable_combiner.py:112-230 | one table per key, each with its label, key and grid |
| `Pipeline.RendererKeepsExtracted` | timetable_combiner.py:94-134 | for every key and day of each index built by extraction, the renderer's time filter keeps every entry and parses each in place |
| `Pipeline.TwoLetterCodeRejected` | timetable_combiner.py:65-68 | the cell `CS-101-Intro to CS / Dr. A. Khan / Room 204 / 09:00 - 10:30` is rejected: `[A-Z]{3,5}` needs three letters |
| `Pipeline.NoDotNoTeacher` | timetable_combiner.py:72 | a line without a full stop is not a teacher line |
| `Pipeline.SampleParses` | timetable_combiner.py:57-92 | the same cell with the code `CSC-101` is accepted with one teacher, the room and the time range |
| `Pipeline.SampleOnMonday` | timetable_combiner.py:43-105 | on a Monday column, that cell yields its block on `Monday` |
| `Pipeline.ParseOne` | timetable_combiner.py:128-134 | an entry `HH:MM - HH:MM` parses into its two minute counts |
| `Pipeline.ClockSamples` | timetable_combiner.py:11-14 | 09:00, 10:30, 15:00 and 18:00 are 540, 630, 900 and 1080 minutes |
| `Pipeline.OneEntrySlot` | timetable_combiner.py:149-176 | a slot where a single entry starts shows it alone under its title, with rowspan its length in slots, rounded down |
| `Pipeline.SampleRendered` | timetable_combiner.py:110-230 | the sample block, alone on Monday, renders at 09:00 Monday as one block under its course line with rowspan (630 - 540) // 90 = 1 |
| `Pipeline.ShortBlockRowspanZero` | timetable_combiner.py:162-163 | a 60-minute block gets rowspan 0 |
| `Pipeline.EmptyWeek` | timetable_combiner.py:152-159 | with nothing scheduled every slot shows a dash, except Friday at 13:30, which shows the prayer break |
| `Pipeline.LastSlotOverhang` | timetable_combiner.py:162-214 | a three-hour block at 15:00 gets rowspan 2 although only one slot row is left |
| `Pipeline.RejectedCellRecordsNoRowspan` | timetable_combiner.py:57-105 | a rejected `lightgreen` cell of rowspan 3 leaves the tracker unchanged; a plain cell of rowspan 3 records 2 |
| `Pipeline.TrailingCoverLingers` | timetable_combiner.py:52-55 | a column covered after a row's last cell is not counted down in that row |

## Behaviour of the code worth knowing

- A two-letter department code such as `CS-101-Intro to CS` is not a course code.
  The pattern `[A-Z]{3,5}` needs at least three capitals, so such a cell is
  dropped (`Pipeline.TwoLetterCodeRejected`). The same cell with `CSC-101` is
  accepted (`Pipeline.SampleParses`).
- The rowspans of a day column need not add up to the five slot rows:
  - a block shorter than 90 minutes gets rowspan 0 (`Pipeline.ShortBlockRowspanZero`);
  - a long block in the last slot reaches past the table (`Pipeline.LastSlotOverhang`).
- A `lightgreen` cell that the parser rejects leaves through a `continue` before
  its rowspan is read. Its column is therefore not marked as covered in the rows
  below (`Pipeline.RejectedCellRecordsNoRowspan`).
- The extraction walk only counts a column down when a later cell of the same
  row walks past it. A column still covered to the right of a row's last cell
  keeps its counter into the next row (`Pipeline.TrailingCoverLingers`).
- The renderer takes the rowspan from the first starting block only.

## Left out

- `coursescraper.py` (the fetcher) is not part of this model.
- File system and HTML parsing are inputs:
  - `os.listdir`, the `.html` file-name filter and file reading are not modelled: the
    pages come in as a sequence of `Extract.Document`;
  - BeautifulSoup is not modelled: each page arrives as its heading text, header
    labels and body cells. Each cell is its `lightgreen` flag, its non-empty trimmed
    text lines and its integer rowspan.
- `build_html` and `main` are not modelled, nor is the exact HTML markup of the
  tables and cells. A rendered cell is the list of its groups; the
  `<br/>`/`<hr>`/badge text is not modelled.
- A `rowspan` attribute that is not an integer makes `int()` raise; the model takes
  the rowspan as an integer.
- A timetable with fewer than two `<tr>` rows makes `find_all("tr")[1]` raise; the
  model takes the header labels as given.
- `DaySchedule.ParseEntry`: a time text with extra text after the matched
  `HH:MM - HH:MM` (or a second dash) makes `re.split` and `time_to_min` raise or
  misread in the source. The model reads the two matched clock times and ignores
  the rest.
- `Text.IsSpace`: whitespace for `\s` and `str.strip` is the ASCII part of the
  set: space, tab, newline, carriage return, vertical tab, form feed and the
  separators 0x1C-0x1F. The non-ASCII whitespace that Python also strips
  (0x85, 0xA0, the Unicode space separators and so on) is not modelled, nor are
  digits beyond `0`-`9` for `\d`.
- `start_str` is stored by the renderer but never read, so it is not modelled.
- The indexes and the tables are Dafny maps, so the iteration order of the
  dictionaries over keys is not modelled. Order within a key's day lists, and
  group and key order inside a slot cell, are modelled.
- `Render.RenderGrid` returns the grid of one key. The caption and day header row
  are not modelled beyond the label and key kept in `Render.RenderedTable`.
