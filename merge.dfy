/** The merge of the blocks that start in one slot of one day
    (timetable_combiner.py:165-208). Contents are grouped by their first line (the
    title); a group of one is shown as it is; a larger group is combined by the
    composite key (subject, teacher lines joined by ", ", room, time), collecting the
    last line (the `[class]` label) of every member under its key, and carries a
    badge with the size of the whole group. The HTML text is not modelled: a cell is
    the list of its groups. */
module Merge {
  import opened Wrappers
  import opened Text
  import opened Patterns
  import opened Grouping
  import opened CellParser

  datatype MergeKey = MergeKey(subject: string, names: string, room: string, time: string)

  /** One entry of `merged.items()`: shown alone, or combined with its badge count. */
  datatype CellGroup =
    | Single(title: string, content: string)
    | Merged(title: string, entries: seq<(MergeKey, seq<string>)>, badge: nat)

  /** `content.split("\n")[0]`. */
  function Title(c: string): string {
    Split(c, '\n')[0]
  }

  /** Lines 180-190 for one content: `None` when it has fewer than five lines. */
  function MergePair(c: string): Option<(MergeKey, string)> {
    var parts := Split(Strip(c), '\n');
    var n := |parts|;
    if n < 5 then None
    else Some((MergeKey(parts[0], Join(parts[1..n - 3], ", "), parts[n - 3], parts[n - 2]), parts[n - 1]))
  }

  /** The `(key_tuple, class_part)` pairs of a group, short contents skipped. */
  function MergePairs(cs: seq<string>): seq<(MergeKey, string)>
    decreases |cs|
  {
    if cs == [] then []
    else
      var p := MergePair(cs[|cs| - 1]);
      MergePairs(cs[..|cs| - 1]) + (if p.Some? then [p.value] else [])
  }

  /** The `(title, content)` pairs fed to `merged[title].append(content)`. */
  function Titled(cs: seq<string>): seq<(string, string)> {
    seq(|cs|, i requires 0 <= i < |cs| => (Title(cs[i]), cs[i]))
  }

  function GroupCell(title: string, members: seq<string>): CellGroup {
    if |members| == 1 then Single(title, members[0])
    else Merged(title, GroupBy(MergePairs(members)), |members|)
  }

  /** The groups of one slot cell, in the order `merged.items()` yields them. */
  function Compose(cs: seq<string>): seq<CellGroup> {
    var m := GroupBy(Titled(cs));
    seq(|m|, i requires 0 <= i < |m| => GroupCell(m[i].0, m[i].1))
  }

  /** How many contents a group stands for: 1, or its badge. */
  function Size(g: CellGroup): nat {
    if g.Single? then 1 else g.badge
  }

  function TotalSize(gs: seq<CellGroup>): nat
    decreases |gs|
  {
    if gs == [] then 0 else TotalSize(gs[..|gs| - 1]) + Size(gs[|gs| - 1])
  }

  function Titles(gs: seq<CellGroup>): seq<string> {
    seq(|gs|, i requires 0 <= i < |gs| => gs[i].title)
  }

  lemma TitledKeys(cs: seq<string>)
    ensures Keys(Titled(cs)) == seq(|cs|, i requires 0 <= i < |cs| => Title(cs[i]))
  {
  }

  /** The groups are the distinct titles in first-seen order; each group stands for
      every content with its title, in order: shown alone exactly when there is one
      such content, otherwise badged with their number and combined by composite
      key, each key listing the class labels of its contents in order. */
  lemma ComposeGroups(cs: seq<string>)
    ensures var gs := Compose(cs);
      Titles(gs) == FirstSeen(Keys(Titled(cs))) &&
      Distinct(Titles(gs)) &&
      forall i | 0 <= i < |gs| ::
        var members := Select(Titled(cs), gs[i].title);
        members != [] &&
        (gs[i].Single? <==> |members| == 1) &&
        (gs[i].Single? ==> gs[i].content == members[0]) &&
        (gs[i].Merged? ==>
           (gs[i].badge == |members| &&
            Keys(gs[i].entries) == FirstSeen(Keys(MergePairs(members))) &&
            Distinct(Keys(gs[i].entries)) &&
            forall j | 0 <= j < |gs[i].entries| ::
              gs[i].entries[j].1 == Select(MergePairs(members), gs[i].entries[j].0)))
  {
    var m := GroupBy(Titled(cs));
    var gs := Compose(cs);
    GroupByProps(Titled(cs));
    assert Titles(gs) == Keys(m);
    forall i | 0 <= i < |gs| && gs[i].Merged?
      ensures var members := Select(Titled(cs), gs[i].title);
        Keys(gs[i].entries) == FirstSeen(Keys(MergePairs(members))) &&
        Distinct(Keys(gs[i].entries)) &&
        forall j | 0 <= j < |gs[i].entries| ::
          gs[i].entries[j].1 == Select(MergePairs(members), gs[i].entries[j].0)
    {
      GroupByProps(MergePairs(m[i].1));
    }
  }

  lemma {:induction false} TotalSizeMatches(m: seq<(string, seq<string>)>, gs: seq<CellGroup>)
    requires |gs| == |m|
    requires forall i | 0 <= i < |m| :: gs[i] == GroupCell(m[i].0, m[i].1)
    ensures TotalSize(gs) == Total(m)
    decreases |m|
  {
    if m != [] {
      TotalSizeMatches(m[..|m| - 1], gs[..|gs| - 1]);
    }
  }

  /** No content is lost by the merge: the group sizes add up to the number of
      contents that start in the slot, short contents counted in their badge. */
  lemma ComposeConserves(cs: seq<string>)
    ensures TotalSize(Compose(cs)) == |cs|
  {
    TotalSizeMatches(GroupBy(Titled(cs)), Compose(cs));
    GroupByTotal(Titled(cs));
  }

  /** A block's content, as the cell parser writes it, has the course as its title and
      is combined under the key (course, teachers joined by ", ", room, time) with its
      `[class]` line. */
  lemma BlockMergePair(lines: seq<string>, cls: string)
    requires ParseCell(lines, cls).Some?
    requires forall k | 0 <= k < |lines| :: '\n' !in lines[k]
    requires '\n' !in cls
    ensures var b := ParseCell(lines, cls).value;
      Title(b.content) == b.course &&
      MergePair(b.content) == Some((MergeKey(b.course, Join(b.teachers, ", "), b.room, b.time), "[" + cls + "]"))
  {
    var b := ParseCell(lines, cls).value;
    ContentSplits(lines, cls);
    CourseCodeStartsUpper(b.course);
    var c := b.content;
    assert c == Content(b.course, b.teachers, b.room, b.time, cls);
    assert c[0] == b.course[0];
    assert c[|c| - 1] == ']';
    StripNoop(c);
    var parts := [b.course] + b.teachers + [b.room, b.time, "[" + cls + "]"];
    var n := |parts|;
    assert parts[1..n - 3] == b.teachers;
  }

  /** Two values under one key make one group holding both, in order. */
  lemma PairGroup<K, V>(k: K, v1: V, v2: V)
    ensures GroupBy([(k, v1), (k, v2)]) == [(k, [v1, v2])]
  {
    var ps := [(k, v1), (k, v2)];
    assert ps[..1] == [(k, v1)] && ps[..1][..0] == [];
    assert GroupBy(ps[..1]) == [(k, [v1])];
    assert Keys([(k, [v1])]) == [k];
    assert IndexOf([k], k) == 0;
    assert [v1] + [v2] == [v1, v2];
  }

  /** A content alone in its cell is shown as it is, under its title. */
  lemma ComposeOne(c: string)
    ensures Compose([c]) == [Single(Title(c), c)]
  {
    assert Titled([c]) == [] + [(Title(c), c)];
    GroupBySnoc([], Title(c), c);
  }

  /** Two sections of a class taught together (the same cell lines, two class names)
      merge into one combined group with one key, both class labels and a badge of 2. */
  lemma MergeTwoSections(lines: seq<string>, c1: string, c2: string)
    requires ParseCell(lines, c1).Some?
    requires forall k | 0 <= k < |lines| :: '\n' !in lines[k]
    requires '\n' !in c1 && '\n' !in c2
    ensures ParseCell(lines, c2).Some?
    ensures var b1 := ParseCell(lines, c1).value;
      var b2 := ParseCell(lines, c2).value;
      Compose([b1.content, b2.content]) ==
        [Merged(b1.course, [(MergeKey(b1.course, Join(b1.teachers, ", "), b1.room, b1.time), ["[" + c1 + "]", "[" + c2 + "]"])], 2)]
  {
    ParseCellClassOnly(lines, c1, c2);
    var b1 := ParseCell(lines, c1).value;
    var b2 := ParseCell(lines, c2).value;
    BlockMergePair(lines, c1);
    BlockMergePair(lines, c2);
    var key := MergeKey(b1.course, Join(b1.teachers, ", "), b1.room, b1.time);
    var tag1, tag2 := "[" + c1 + "]", "[" + c2 + "]";
    var cs := [b1.content, b2.content];
    TwoTitled(cs, b1.course);
    ComposeOneGroup(cs, b1.course);
    TwoPairs(b1.content, b2.content, (key, tag1), (key, tag2));
    PairGroup(key, tag1, tag2);
    assert GroupCell(b1.course, cs) == Merged(b1.course, [(key, [tag1, tag2])], 2);
  }

  /** The class name only reaches the content of a parsed cell. */
  lemma ParseCellClassOnly(lines: seq<string>, c1: string, c2: string)
    requires ParseCell(lines, c1).Some?
    ensures ParseCell(lines, c2).Some?
    ensures var b1 := ParseCell(lines, c1).value;
      var b2 := ParseCell(lines, c2).value;
      b2.course == b1.course && b2.teachers == b1.teachers && b2.room == b1.room && b2.time == b1.time
  {
  }

  /** Two contents under one title make one group. */
  lemma TwoTitled(cs: seq<string>, t: string)
    requires |cs| == 2 && Title(cs[0]) == t && Title(cs[1]) == t
    ensures GroupBy(Titled(cs)) == [(t, cs)]
  {
    assert Titled(cs) == [(t, cs[0]), (t, cs[1])];
    PairGroup(t, cs[0], cs[1]);
    assert cs == [cs[0], cs[1]];
  }

  /** Two contents that both split into pairs give those two pairs, in order. */
  lemma TwoPairs(c: string, d: string, p1: (MergeKey, string), p2: (MergeKey, string))
    requires MergePair(c) == Some(p1) && MergePair(d) == Some(p2)
    ensures MergePairs([c, d]) == [p1, p2]
  {
    OnePair(c, p1);
    assert [c, d][..1] == [c];
  }

  lemma OnePair(c: string, p: (MergeKey, string))
    requires MergePair(c) == Some(p)
    ensures MergePairs([c]) == [p]
  {
  }

  /** Contents none of which split into a key give no pairs. */
  lemma {:induction false} NoPairs(cs: seq<string>)
    requires forall i | 0 <= i < |cs| :: MergePair(cs[i]) == None
    ensures MergePairs(cs) == []
    decreases |cs|
  {
    if cs != [] {
      assert MergePair(cs[|cs| - 1]) == None;
      NoPairs(cs[..|cs| - 1]);
    }
  }

  /** Contents that all share one title make a single group. */
  lemma ComposeOneGroup(cs: seq<string>, t: string)
    requires GroupBy(Titled(cs)) == [(t, cs)]
    ensures Compose(cs) == [GroupCell(t, cs)]
  {
  }

  /** Contents too short to split into a key keep their place in the badge but add no
      entry: two copies of a content of fewer than five lines give an empty combined
      group counted 2. */
  lemma ShortContentsDropped(cs: seq<string>)
    requires |cs| == 2 && cs[0] == cs[1]
    requires |Split(Strip(cs[0]), '\n')| < 5
    ensures Compose(cs) == [Merged(Title(cs[0]), [], 2)]
  {
    ShortPairsEmpty(cs);
    TwoTitled(cs, Title(cs[0]));
    ComposeOneGroup(cs, Title(cs[0]));
    assert GroupCell(Title(cs[0]), cs) == Merged(Title(cs[0]), [], 2);
  }

  lemma ShortPairsEmpty(cs: seq<string>)
    requires |cs| == 2 && cs[0] == cs[1]
    requires |Split(Strip(cs[0]), '\n')| < 5
    ensures MergePairs(cs) == []
  {
    var c := cs[0];
    assert MergePair(c) == None;
    forall i | 0 <= i < |cs| ensures MergePair(cs[i]) == None {
      assert cs[i] == c;
    }
    NoPairs(cs);
  }

  /** Lines 166-208 as loops: the title dictionary, then each group in turn, combining
      the larger ones with `setdefault(...).append(...)`. */
  /** Lines 166-169: the contents of one cell grouped under their first lines. */
  method MergeByTitle(cs: seq<string>) returns (merged: seq<(string, seq<string>)>)
    ensures merged == GroupBy(Titled(cs))
  {
    merged := [];
    for i := 0 to |cs|
      invariant merged == GroupBy(Titled(cs)[..i])
    {
      assert Titled(cs)[..i + 1] == Titled(cs)[..i] + [(Title(cs[i]), cs[i])];
      GroupBySnoc(Titled(cs)[..i], Title(cs[i]), cs[i]);
      merged := Insert(merged, Title(cs[i]), cs[i]);
    }
    assert Titled(cs)[..|cs|] == Titled(cs);
  }

  method ComposeCell(cs: seq<string>) returns (groups: seq<CellGroup>)
    ensures groups == Compose(cs)
  {
    var merged := MergeByTitle(cs);
    groups := [];
    for g := 0 to |merged|
      invariant |groups| == g
      invariant forall k | 0 <= k < g :: groups[k] == GroupCell(merged[k].0, merged[k].1)
    {
      var (title, all) := merged[g];
      if |all| == 1 {
        groups := groups + [Single(title, all[0])];
      } else {
        var combined := CombineGroup(all);
        groups := groups + [Merged(title, combined, |all|)];
      }
    }
  }

  lemma MergePairsStep(all: seq<string>, j: nat)
    requires j < |all|
    ensures var p := MergePair(all[j]);
      MergePairs(all[..j + 1]) == MergePairs(all[..j]) + (if p.Some? then [p.value] else [])
  {
    assert all[..j + 1][..j] == all[..j];
  }

  lemma MergePairParts(c: string, parts: seq<string>)
    requires parts == Split(Strip(c), '\n')
    ensures var n := |parts|;
      MergePair(c) == if n < 5 then None
        else Some((MergeKey(parts[0], Join(parts[1..n - 3], ", "), parts[n - 3], parts[n - 2]), parts[n - 1]))
  {
  }

  /** Lines 178-190: the `combined` dictionary of one group. */
  method CombineGroup(all: seq<string>) returns (combined: seq<(MergeKey, seq<string>)>)
    ensures combined == GroupBy(MergePairs(all))
  {
    combined := [];
    for j := 0 to |all|
      invariant combined == GroupBy(MergePairs(all[..j]))
    {
      MergePairsStep(all, j);
      var parts := Split(Strip(all[j]), '\n');
      MergePairParts(all[j], parts);
      var n := |parts|;
      if n < 5 {
        assert MergePairs(all[..j + 1]) == MergePairs(all[..j]);
        continue;
      }
      var key := MergeKey(parts[0], Join(parts[1..n - 3], ", "), parts[n - 3], parts[n - 2]);
      assert MergePairs(all[..j + 1]) == MergePairs(all[..j]) + [(key, parts[n - 1])];
      GroupBySnoc(MergePairs(all[..j]), key, parts[n - 1]);
      combined := Insert(combined, key, parts[n - 1]);
    }
    assert all[..|all|] == all;
  }
}
