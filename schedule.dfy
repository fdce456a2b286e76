/** The per-day preparation of `build_generic_tables` (timetable_combiner.py:123-136):
    the entries an index holds for one day are parsed into start and end minutes,
    entries whose time text is not a time range are skipped, and the rest are
    sorted by start minute with Python's stable `list.sort`. */
module DaySchedule {
  import opened Patterns
  import opened Clock
  import opened Indexing

  /** One parsed entry: start and end in minutes since midnight, and its content. */
  datatype Parsed = Parsed(start: int, end: int, content: string)

  /** The end time of a matched time range: the five characters after the gaps. */
  function EndText(s: string): (t: string)
    requires TimeRange(s)
    ensures IsClock(t)
  {
    TimeRangeByGaps(s);
    var (a, b) := TimeGaps(s);
    s[6 + a + b..11 + a + b]
  }

  /** `start_str, end_str = re.split(r"\s*-\s*", time_range)` and `time_to_min` of each. */
  function ParseEntry(e: Entry): Parsed
    requires TimeRange(e.time)
  {
    TimeRangeByGaps(e.time);
    Parsed(TimeToMin(e.time[..5]), TimeToMin(EndText(e.time)), e.content)
  }

  function Spaces(n: nat): (r: string)
    ensures |r| == n && forall k | 0 <= k < n :: r[k] == ' '
  {
    seq(n, _ => ' ')
  }

  /** Reading back a written time range: for any two clock times joined by a dash with
      any number of spaces on either side, the entry parses to exactly those two times. */
  lemma ParseEntryReadsBack(t1: string, t2: string, a: nat, b: nat, c: string)
    requires IsClock(t1) && IsClock(t2)
    ensures var s := t1 + Spaces(a) + "-" + Spaces(b) + t2;
      TimeRange(s) && ParseEntry(Entry(s, c)) == Parsed(TimeToMin(t1), TimeToMin(t2), c)
  {
    var s := t1 + Spaces(a) + "-" + Spaces(b) + t2;
    assert TimeRangeAt(s, a, b);
    TimeRangeGreedy(s, a, b);
    assert s[..5] == t1;
    assert s[6 + a + b..11 + a + b] == t2;
  }

  /** Lines 128-134: entries whose time text does not match are skipped. */
  function ParseAll(es: seq<Entry>): seq<Parsed>
    decreases |es|
  {
    if es == [] then []
    else
      var e := es[|es| - 1];
      ParseAll(es[..|es| - 1]) + (if TimeRange(e.time) then [ParseEntry(e)] else [])
  }

  /** When every entry carries a time range, nothing is skipped and the entries keep
      their order. */
  lemma {:induction false} ParseAllKeepsTimed(es: seq<Entry>)
    requires forall i | 0 <= i < |es| :: TimeRange(es[i].time)
    ensures |ParseAll(es)| == |es|
    ensures forall i | 0 <= i < |es| :: ParseAll(es)[i] == ParseEntry(es[i])
  {
    if es != [] {
      var init, e := es[..|es| - 1], es[|es| - 1];
      ParseAllKeepsTimed(init);
      var r := ParseAll(es);
      assert r == ParseAll(init) + [ParseEntry(e)];
      forall i | 0 <= i < |es| ensures r[i] == ParseEntry(es[i]) {
        if i < |init| {
          assert es[i] == init[i];
        }
      }
    }
  }

  /** Entries without a time range are dropped and contribute nothing. */
  lemma {:induction false} ParseAllSkipsUntimed(es: seq<Entry>, e: Entry)
    requires !TimeRange(e.time)
    ensures ParseAll(es + [e]) == ParseAll(es)
  {
    assert (es + [e])[..|es|] == es;
  }

  /** The entries starting at minute `m`, in order: `[b for b in blocks if b['start_min'] == m]`. */
  function StartingAt(ps: seq<Parsed>, m: int): seq<Parsed>
    decreases |ps|
  {
    if ps == [] then []
    else StartingAt(ps[..|ps| - 1], m) + (if ps[|ps| - 1].start == m then [ps[|ps| - 1]] else [])
  }

  predicate SortedByStart(ps: seq<Parsed>) {
    forall i, j | 0 <= i < j < |ps| :: ps[i].start <= ps[j].start
  }

  /** Insertion of `x` into a sorted list behind every element that does not start
      later than it: the step of a stable sort. */
  function InsertByStart(s: seq<Parsed>, x: Parsed): seq<Parsed>
    decreases |s|
  {
    if s == [] || s[|s| - 1].start <= x.start then s + [x]
    else InsertByStart(s[..|s| - 1], x) + [s[|s| - 1]]
  }

  /** `parsed_blocks.sort(key=lambda x: x['start_min'])`, which is stable. */
  function SortByStart(ps: seq<Parsed>): seq<Parsed>
    decreases |ps|
  {
    if ps == [] then [] else InsertByStart(SortByStart(ps[..|ps| - 1]), ps[|ps| - 1])
  }

  lemma {:induction false} InsertByStartPerm(s: seq<Parsed>, x: Parsed)
    ensures multiset(InsertByStart(s, x)) == multiset(s) + multiset{x}
    decreases |s|
  {
    if !(s == [] || s[|s| - 1].start <= x.start) {
      var init, z := s[..|s| - 1], s[|s| - 1];
      InsertByStartPerm(init, x);
      assert s == init + [z];
    }
  }

  lemma {:induction false} InsertByStartSorted(s: seq<Parsed>, x: Parsed)
    requires SortedByStart(s)
    ensures SortedByStart(InsertByStart(s, x))
    decreases |s|
  {
    if !(s == [] || s[|s| - 1].start <= x.start) {
      var init, z := s[..|s| - 1], s[|s| - 1];
      InsertByStartSorted(init, x);
      InsertByStartPerm(init, x);
      var r := InsertByStart(init, x);
      assert s == init + [z];
      forall k | 0 <= k < |r| ensures r[k].start <= z.start {
        assert r[k] in multiset(r);
        assert r[k] == x || r[k] in multiset(init);
      }
    }
  }

  lemma {:induction false} InsertByStartStable(s: seq<Parsed>, x: Parsed, m: int)
    ensures StartingAt(InsertByStart(s, x), m) == StartingAt(s, m) + (if x.start == m then [x] else [])
    decreases |s|
  {
    if s == [] || s[|s| - 1].start <= x.start {
      assert (s + [x])[..|s|] == s;
    } else {
      var init, z := s[..|s| - 1], s[|s| - 1];
      InsertByStartStable(init, x, m);
      var r := InsertByStart(init, x);
      assert InsertByStart(s, x) == r + [z];
      assert (r + [z])[..|r|] == r;
      assert StartingAt(s, m) == StartingAt(init, m) + (if z.start == m then [z] else []);
    }
  }

  /** The sort's result is ordered by start minute, is a permutation of its input,
      and is stable: for every start minute, the entries that start then keep their
      relative order. */
  lemma {:induction false} SortByStartProps(ps: seq<Parsed>)
    ensures SortedByStart(SortByStart(ps))
    ensures multiset(SortByStart(ps)) == multiset(ps)
    ensures forall m :: StartingAt(SortByStart(ps), m) == StartingAt(ps, m)
    decreases |ps|
  {
    if ps != [] {
      var init := ps[..|ps| - 1];
      SortByStartProps(init);
      InsertByStartSorted(SortByStart(init), ps[|ps| - 1]);
      InsertByStartPerm(SortByStart(init), ps[|ps| - 1]);
      forall m ensures StartingAt(SortByStart(ps), m) == StartingAt(ps, m) {
        InsertByStartStable(SortByStart(init), ps[|ps| - 1], m);
      }
      assert ps == init + [ps[|ps| - 1]];
    }
  }

  lemma InsertByStartBack(s: seq<Parsed>, x: Parsed, j: nat)
    requires 0 < j <= |s| && s[j - 1].start > x.start
    ensures InsertByStart(s[..j], x) + s[j..] == InsertByStart(s[..j - 1], x) + s[j - 1..]
  {
    assert s[..j][..j - 1] == s[..j - 1];
    assert [s[j - 1]] + s[j..] == s[j - 1..];
  }

  lemma ShiftRight(s: seq<Parsed>, j: nat, c: Parsed, tail: seq<Parsed>)
    requires 0 < j <= |s|
    ensures (s[..j] + [c] + s[j..] + tail)[j := s[j - 1]] == s[..j - 1] + [s[j - 1]] + s[j - 1..] + tail
  {
    var l := (s[..j] + [c] + s[j..] + tail)[j := s[j - 1]];
    var r := s[..j - 1] + [s[j - 1]] + s[j - 1..] + tail;
    assert |l| == |r|;
    forall k | 0 <= k < |l| ensures l[k] == r[k] {
      if k < j - 1 {
      } else if k == j - 1 || k == j {
      } else if k <= |s| {
        assert l[k] == s[k - 1];
      } else {
        assert l[k] == tail[k - |s| - 1];
      }
    }
  }

  lemma InsertFinish(s: seq<Parsed>, x: Parsed, j: nat, c: Parsed, tail: seq<Parsed>, arr: seq<Parsed>)
    requires j <= |s| && (j == 0 || s[j - 1].start <= x.start)
    requires InsertByStart(s, x) == InsertByStart(s[..j], x) + s[j..]
    requires arr == (s[..j] + [c] + s[j..] + tail)[j := x]
    ensures arr[..|s| + 1] == InsertByStart(s, x) && arr[|s| + 1..] == tail
  {
    assert InsertByStart(s[..j], x) == s[..j] + [x];
    assert arr == s[..j] + [x] + s[j..] + tail;
  }

  /** One insertion step on the array: the element at `i` moves left past every
      element of the sorted prefix that starts later than it. */
  method InsertAt(a: array<Parsed>, i: nat)
    requires i < a.Length
    modifies a
    ensures a[..i + 1] == InsertByStart(old(a[..i]), old(a[i]))
    ensures a[i + 1..] == old(a[i + 1..])
  {
    ghost var sorted := a[..i];
    ghost var tail := a[i + 1..];
    var x := a[i];
    var j := i;
    ghost var cur := x;
    assert sorted[..j] == sorted && sorted[j..] == [];
    assert a[..] == sorted[..j] + [cur] + sorted[j..] + tail;
    while j > 0 && a[j - 1].start > x.start
      invariant 0 <= j <= i
      invariant a[..] == sorted[..j] + [cur] + sorted[j..] + tail
      invariant InsertByStart(sorted, x) == InsertByStart(sorted[..j], x) + sorted[j..]
    {
      InsertByStartBack(sorted, x, j);
      ShiftRight(sorted, j, cur, tail);
      a[j] := a[j - 1];
      j := j - 1;
      cur := sorted[j];
    }
    a[j] := x;
    InsertFinish(sorted, x, j, cur, tail, a[..]);
  }

  /** `parsed_blocks.sort(...)` in place, as an insertion sort on an array. */
  method SortInPlace(a: array<Parsed>)
    modifies a
    ensures a[..] == SortByStart(old(a[..]))
  {
    ghost var s0 := a[..];
    for i := 0 to a.Length
      invariant a[..i] == SortByStart(s0[..i])
      invariant a[i..] == s0[i..]
    {
      assert s0[..i + 1][..i] == s0[..i];
      assert a[i] == s0[i];
      InsertAt(a, i);
    }
    assert a[..] == a[..a.Length];
    assert s0 == s0[..a.Length];
  }

  /** Lines 127-134: the parsing loop, skipping entries that are not time ranges. */
  method ParseDay(entries: seq<Entry>) returns (parsed: seq<Parsed>)
    ensures parsed == ParseAll(entries)
  {
    parsed := [];
    for i := 0 to |entries|
      invariant parsed == ParseAll(entries[..i])
    {
      assert entries[..i + 1][..i] == entries[..i];
      var e := entries[i];
      TimeRangeByGaps(e.time);
      if !TimeRangeAt(e.time, TimeGaps(e.time).0, TimeGaps(e.time).1) {
        continue;
      }
      parsed := parsed + [ParseEntry(e)];
    }
    assert entries[..|entries|] == entries;
  }

  /** Lines 126-136 for one day: parse, then sort in place. */
  method PrepareDay(entries: seq<Entry>) returns (ps: seq<Parsed>)
    ensures ps == SortByStart(ParseAll(entries))
  {
    var parsed := ParseDay(entries);
    var a := new Parsed[|parsed|](k requires 0 <= k < |parsed| => parsed[k]);
    assert a[..] == parsed;
    SortInPlace(a);
    ps := a[..];
  }
}
