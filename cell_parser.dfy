/** Parsing one `lightgreen` timetable cell into a schedule block
    (timetable_combiner.py:57-92). The cell arrives as its non-empty, trimmed text
    lines; the parser either rejects it or returns the course, the teachers, the
    room, the time range and the canonical `content` text. */
module CellParser {
  import opened Text
  import opened Patterns
  import opened Wrappers

  /** A parsed cell. `content` is the canonical re-serialisation that every index
      stores and the renderer groups on. The day is attached by the caller. */
  datatype Block = Block(
    course: string,
    teachers: seq<string>,
    room: string,
    time: string,
    content: string)

  const UnknownRoom: string := "Unknown Room"
  const UnknownTime: string := "Unknown"

  /** The end of the run of teacher lines that starts at index `i`. */
  function TeacherEnd(lines: seq<string>, i: nat): (j: nat)
    requires i <= |lines|
    decreases |lines| - i
    ensures i <= j <= |lines|
    ensures forall k | i <= k < j :: IsTeacherLine(lines[k])
    ensures j == |lines| || !IsTeacherLine(lines[j])
  {
    if i < |lines| && IsTeacherLine(lines[i]) then TeacherEnd(lines, i + 1) else i
  }

  /** `f"{course}\n" + "\n".join(teachers) + f"\n{room}\n{time}"` followed by `\n[class]`. */
  function Content(course: string, teachers: seq<string>, room: string, time: string, cls: string): string {
    course + "\n" + Join(teachers, "\n") + "\n" + room + "\n" + time + "\n[" + cls + "]"
  }

  /** The cell parser. `None` is every `col_idx += 1; continue` exit of the source. */
  function ParseCell(lines: seq<string>, cls: string): (r: Option<Block>)
    ensures r.Some? ==>
      CourseCode(r.value.course) && |r.value.teachers| >= 1 && TimeRange(r.value.time) &&
      forall k | 0 <= k < |r.value.teachers| :: IsTeacherLine(r.value.teachers[k])
  {
    if |lines| < 4 then None
    else if !CourseCode(lines[0]) then None
    else
      var i := TeacherEnd(lines, 1);
      if i == 1 then None
      else
        var room := if i < |lines| then lines[i] else UnknownRoom;
        var time := if i + 1 < |lines| then lines[i + 1] else UnknownTime;
        if !TimeRange(time) then None
        else Some(Block(lines[0], lines[1..i], room, time, Content(lines[0], lines[1..i], room, time, cls)))
  }

  /** A cell yields a block exactly when it has at least four lines, its first line
      is a course code, a teacher line follows, and the line after the room is a
      time range. */
  lemma ParseCellAccepts(lines: seq<string>, cls: string)
    ensures ParseCell(lines, cls).Some? <==>
      |lines| >= 4 && CourseCode(lines[0]) && IsTeacherLine(lines[1]) &&
      TeacherEnd(lines, 1) + 1 < |lines| && TimeRange(lines[TeacherEnd(lines, 1) + 1])
  {
    if |lines| >= 4 && CourseCode(lines[0]) && IsTeacherLine(lines[1]) {
      var i := TeacherEnd(lines, 1);
      if i + 1 >= |lines| {
        assert !TimeRangeAt(UnknownTime, TimeGaps(UnknownTime).0, TimeGaps(UnknownTime).1);
        TimeRangeByGaps(UnknownTime);
      }
    }
  }

  /** Where the fields of an accepted block come from: the teachers are exactly the
      maximal run of teacher lines from index 1, the room is the next line (so the
      "Unknown Room" default never reaches an accepted block), the time the one after,
      and `content` is those lines joined by newlines with `[class]` appended. */
  lemma ParseCellFields(lines: seq<string>, cls: string)
    requires ParseCell(lines, cls).Some?
    ensures var b := ParseCell(lines, cls).value;
      var n := |b.teachers|;
      b.course == lines[0] &&
      n + 2 < |lines| &&
      b.teachers == lines[1..n + 1] &&
      !IsTeacherLine(lines[n + 1]) &&
      b.room == lines[n + 1] &&
      b.time == lines[n + 2] &&
      b.content == Join([b.course] + b.teachers + [b.room, b.time, "[" + cls + "]"], "\n")
  {
    ParseCellAccepts(lines, cls);
    var b := ParseCell(lines, cls).value;
    ContentJoin(b.course, b.teachers, b.room, b.time, cls);
  }

  /** `Content` is the newline join of its fields and the bracketed class name. */
  lemma ContentJoin(course: string, teachers: seq<string>, room: string, time: string, cls: string)
    requires teachers != []
    ensures Content(course, teachers, room, time, cls) ==
      Join([course] + teachers + [room, time, "[" + cls + "]"], "\n")
  {
    var tag := "[" + cls + "]";
    var tail := [room, time, tag];
    var nl := "\n";
    assert Join(tail, nl) == room + nl + (time + nl + tag) by {
      JoinCons(time, [tag], nl);
      assert [time] + [tag] == [time, tag];
      JoinCons(room, [time, tag], nl);
      assert [room] + [time, tag] == tail;
    }
    assert Join([course] + teachers + tail, nl) == course + nl + (Join(teachers, nl) + nl + Join(tail, nl)) by {
      JoinAppend(teachers, tail, nl);
      JoinCons(course, teachers + tail, nl);
      assert [course] + teachers + tail == [course] + (teachers + tail);
    }
    assert Content(course, teachers, room, time, cls) ==
      course + nl + (Join(teachers, nl) + nl + (room + nl + (time + nl + tag))) by {
      assert "\n[" + cls + "]" == nl + tag;
    }
  }

  /** The renderer splits `content` on newlines; for cells whose lines (and class
      name) hold no newline, that split gives back exactly the parsed fields. */
  lemma ContentSplits(lines: seq<string>, cls: string)
    requires ParseCell(lines, cls).Some?
    requires forall k | 0 <= k < |lines| :: '\n' !in lines[k]
    requires '\n' !in cls
    ensures var b := ParseCell(lines, cls).value;
      Split(b.content, '\n') == [b.course] + b.teachers + [b.room, b.time, "[" + cls + "]"]
  {
    ParseCellFields(lines, cls);
    var b := ParseCell(lines, cls).value;
    var parts := [b.course] + b.teachers + [b.room, b.time, "[" + cls + "]"];
    var n := |b.teachers|;
    forall k | 0 <= k < |parts| ensures '\n' !in parts[k] {
      if k == 0 {
      } else if k <= n {
        assert parts[k] == lines[k];
      } else if k == n + 1 {
      } else if k == n + 2 {
      } else {
        assert parts[k] == "[" + cls + "]";
      }
    }
    SplitJoin(parts, '\n');
  }

  /** The teacher scan of lines 70-74, as the source writes it: a while loop over
      the lines that follow the course line. */
  method CollectTeachers(lines: seq<string>) returns (teachers: seq<string>, next: nat)
    requires |lines| >= 1
    ensures 1 <= next <= |lines| && teachers == lines[1..next]
    ensures forall k | 1 <= k < next :: IsTeacherLine(lines[k])
    ensures next == |lines| || !IsTeacherLine(lines[next])
  {
    next := 1;
    teachers := [];
    while next < |lines| && IsTeacherLine(lines[next])
      invariant 1 <= next <= |lines|
      invariant teachers == lines[1..next]
      invariant forall k | 1 <= k < next :: IsTeacherLine(lines[k])
    {
      teachers := teachers + [lines[next]];
      next := next + 1;
    }
  }

  lemma TeacherEndUnique(lines: seq<string>, next: nat)
    requires 1 <= next <= |lines|
    requires forall k | 1 <= k < next :: IsTeacherLine(lines[k])
    requires next == |lines| || !IsTeacherLine(lines[next])
    ensures TeacherEnd(lines, 1) == next
  {
  }

  /** Lines 57-92 step by step; the result is the cell parser's. */
  method ParseCellLines(lines: seq<string>, cls: string) returns (r: Option<Block>)
    ensures r == ParseCell(lines, cls)
  {
    if |lines| < 4 {
      return None;
    }
    var course := lines[0];
    if !CourseCode(course) {
      return None;
    }
    var teachers, i := CollectTeachers(lines);
    TeacherEndUnique(lines, i);
    if teachers == [] {
      return None;
    }
    var room := if i < |lines| then lines[i] else UnknownRoom;
    i := i + 1;
    var time := if i < |lines| then lines[i] else UnknownTime;
    if !TimeRange(time) {
      return None;
    }
    r := Some(Block(course, teachers, room, time, Content(course, teachers, room, time, cls)));
  }
}
