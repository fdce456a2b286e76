/** The three block indexes that `extract_tables` fills (timetable_combiner.py:20-22,
    94-99): teacher, course and room, each mapping key -> day -> list of
    (time_range, content) in insertion order. */
module Indexing {
  import opened Patterns
  import opened CellParser

  datatype Entry = Entry(time: string, content: string)

  /** A `defaultdict(lambda: defaultdict(list))`: a key or a day exists only once
      something has been appended under it. */
  type Index = map<string, map<string, seq<Entry>>>

  /** `ix[key][day]`, reading an absent key or day as the empty list. */
  function Lookup(ix: Index, key: string, day: string): seq<Entry> {
    if key in ix && day in ix[key] then ix[key][day] else []
  }

  /** No key without a day and no day with an empty list: what appending alone builds. */
  predicate WellFormed(ix: Index) {
    forall k | k in ix :: ix[k] != map[] && forall d | d in ix[k] :: ix[k][d] != []
  }

  /** `ix[key][day].append(e)`. */
  function Add(ix: Index, key: string, day: string, e: Entry): (r: Index)
    ensures r.Keys == ix.Keys + {key}
    ensures forall k, d :: Lookup(r, k, d) == Lookup(ix, k, d) + (if k == key && d == day then [e] else [])
  {
    var days := if key in ix then ix[key] else map[];
    ix[key := days[day := Lookup(ix, key, day) + [e]]]
  }

  lemma AddWellFormed(ix: Index, key: string, day: string, e: Entry)
    requires WellFormed(ix)
    ensures WellFormed(Add(ix, key, day, e))
  {
  }

  /** `for key in keys: ix[key][day].append(e)`. */
  function AddAll(ix: Index, keys: seq<string>, day: string, e: Entry): Index
    decreases |keys|
  {
    if keys == [] then ix
    else Add(AddAll(ix, keys[..|keys| - 1], day, e), keys[|keys| - 1], day, e)
  }

  function Count(keys: seq<string>, k: string): nat
    decreases |keys|
  {
    if keys == [] then 0
    else Count(keys[..|keys| - 1], k) + (if keys[|keys| - 1] == k then 1 else 0)
  }

  function Repeat(e: Entry, n: nat): seq<Entry> {
    if n == 0 then [] else Repeat(e, n - 1) + [e]
  }

  /** Appending under every key of `keys` adds exactly one copy of `e` under a key for
      each time that key occurs in `keys`, on that day, and nothing anywhere else. */
  lemma {:induction false} AddAllLookup(ix: Index, keys: seq<string>, day: string, e: Entry, k: string, d: string)
    ensures Lookup(AddAll(ix, keys, day, e), k, d) ==
      Lookup(ix, k, d) + (if d == day then Repeat(e, Count(keys, k)) else [])
  {
    if keys != [] {
      var init := keys[..|keys| - 1];
      var last := keys[|keys| - 1];
      var mid := AddAll(ix, init, day, e);
      AddAllLookup(ix, init, day, e, k, d);
      assert Lookup(Add(mid, last, day, e), k, d) == Lookup(mid, k, d) + (if k == last && d == day then [e] else []);
      if d == day && k == last {
        assert Count(keys, k) == Count(init, k) + 1;
        assert Repeat(e, Count(keys, k)) == Repeat(e, Count(init, k)) + [e];
      } else {
        assert d == day ==> Count(keys, k) == Count(init, k);
      }
    }
  }

  lemma {:induction false} AddAllWellFormed(ix: Index, keys: seq<string>, day: string, e: Entry)
    requires WellFormed(ix)
    ensures WellFormed(AddAll(ix, keys, day, e))
  {
    if keys != [] {
      AddAllWellFormed(ix, keys[..|keys| - 1], day, e);
      AddWellFormed(AddAll(ix, keys[..|keys| - 1], day, e), keys[|keys| - 1], day, e);
    }
  }

  /** The three indexes together. */
  datatype IndexSet = IndexSet(teacher: Index, course: Index, room: Index)

  /** Lines 94-99: one entry per teacher key, one under the course key, one under the room key. */
  function RegisterBlock(s: IndexSet, b: Block, day: string): IndexSet {
    var e := Entry(b.time, b.content);
    IndexSet(AddAll(s.teacher, b.teachers, day, e), Add(s.course, b.course, day, e), Add(s.room, b.room, day, e))
  }

  /** Re-indexing completeness: after registering a block, looking up a teacher key
      finds its entry once per occurrence of that teacher among the block's teachers,
      the course key and the room key find it exactly once, and every entry carries
      the block's own time range and content. */
  lemma RegisterBlockLookup(s: IndexSet, b: Block, day: string, k: string, d: string)
    ensures var r := RegisterBlock(s, b, day);
      var e := Entry(b.time, b.content);
      Lookup(r.teacher, k, d) == Lookup(s.teacher, k, d) + (if d == day then Repeat(e, Count(b.teachers, k)) else []) &&
      Lookup(r.course, k, d) == Lookup(s.course, k, d) + (if k == b.course && d == day then [e] else []) &&
      Lookup(r.room, k, d) == Lookup(s.room, k, d) + (if k == b.room && d == day then [e] else [])
  {
    AddAllLookup(s.teacher, b.teachers, day, Entry(b.time, b.content), k, d);
  }

  /** A teacher named once on a block is found exactly once under that teacher. */
  lemma {:induction false} CountSingle(keys: seq<string>, k: string, i: nat)
    requires i < |keys| && keys[i] == k
    requires forall j | 0 <= j < |keys| && j != i :: keys[j] != k
    ensures Count(keys, k) == 1
  {
    var init := keys[..|keys| - 1];
    if i < |keys| - 1 {
      CountSingle(init, k, i);
    } else {
      CountNone(init, k);
    }
  }

  lemma {:induction false} CountNone(keys: seq<string>, k: string)
    requires k !in keys
    ensures Count(keys, k) == 0
  {
    if keys != [] {
      CountNone(keys[..|keys| - 1], k);
    }
  }

  /** Every entry of the index carries a time range. */
  ghost predicate Timed(ix: Index) {
    forall k, d, i | 0 <= i < |Lookup(ix, k, d)| :: TimeRange(Lookup(ix, k, d)[i].time)
  }

  ghost predicate TimedSet(s: IndexSet) {
    Timed(s.teacher) && Timed(s.course) && Timed(s.room)
  }

  lemma AddTimed(ix: Index, key: string, day: string, e: Entry)
    requires Timed(ix) && TimeRange(e.time)
    ensures Timed(Add(ix, key, day, e))
  {
    var r := Add(ix, key, day, e);
    forall k, d
      ensures forall i | 0 <= i < |Lookup(r, k, d)| :: TimeRange(Lookup(r, k, d)[i].time)
    {
      AddTimedAt(ix, key, day, e, k, d);
    }
  }

  /** One key and day of `AddTimed`: the list there gains at most `e`. */
  lemma AddTimedAt(ix: Index, key: string, day: string, e: Entry, k: string, d: string)
    requires forall i | 0 <= i < |Lookup(ix, k, d)| :: TimeRange(Lookup(ix, k, d)[i].time)
    requires TimeRange(e.time)
    ensures var ys := Lookup(Add(ix, key, day, e), k, d);
      forall i | 0 <= i < |ys| :: TimeRange(ys[i].time)
  {
    var xs := Lookup(ix, k, d);
    var ys := Lookup(Add(ix, key, day, e), k, d);
    assert ys == xs + (if k == key && d == day then [e] else []);
    forall i | 0 <= i < |ys| ensures TimeRange(ys[i].time) {
      if i < |xs| {
        assert ys[i] == xs[i];
      }
    }
  }

  lemma {:induction false} AddAllTimed(ix: Index, keys: seq<string>, day: string, e: Entry)
    requires Timed(ix) && TimeRange(e.time)
    ensures Timed(AddAll(ix, keys, day, e))
    decreases |keys|
  {
    if keys != [] {
      AddAllTimed(ix, keys[..|keys| - 1], day, e);
      AddTimed(AddAll(ix, keys[..|keys| - 1], day, e), keys[|keys| - 1], day, e);
    }
  }

  /** Registering a block with a time range keeps every entry of every index timed. */
  lemma RegisterBlockTimed(s: IndexSet, b: Block, day: string)
    requires TimedSet(s) && TimeRange(b.time)
    ensures TimedSet(RegisterBlock(s, b, day))
  {
    var e := Entry(b.time, b.content);
    AddAllTimed(s.teacher, b.teachers, day, e);
    AddTimed(s.course, b.course, day, e);
    AddTimed(s.room, b.room, day, e);
  }

  /** The three indexes as fields that `extract_tables` appends to in place. */
  class Indexes {
    var teacher: Index
    var course: Index
    var room: Index

    function State(): IndexSet
      reads this
    {
      IndexSet(teacher, course, room)
    }

    constructor ()
      ensures State() == IndexSet(map[], map[], map[])
    {
      teacher, course, room := map[], map[], map[];
    }

    /** Lines 94-99 as written: a loop over the teachers, then the course and the room. */
    method Register(b: Block, day: string)
      modifies this
      ensures State() == RegisterBlock(old(State()), b, day)
    {
      var e := Entry(b.time, b.content);
      var t := teacher;
      for i := 0 to |b.teachers|
        invariant t == AddAll(teacher, b.teachers[..i], day, e)
      {
        assert b.teachers[..i + 1][..i] == b.teachers[..i];
        t := Add(t, b.teachers[i], day, e);
      }
      assert b.teachers[..|b.teachers|] == b.teachers;
      teacher := t;
      course := Add(course, b.course, day, e);
      room := Add(room, b.room, day, e);
    }
  }
}
