/** Python's "dictionary of lists filled in a loop" (`defaultdict(list)[k].append(v)`,
    `d.setdefault(k, []).append(v)`), whose iteration order is the order in which
    the keys were first inserted. A dictionary is a sequence of (key, values)
    entries; `GroupBy` is the whole loop. */
module Grouping {

  /** The keys of a sequence of pairs, in order. */
  function Keys<K, W>(ps: seq<(K, W)>): seq<K> {
    seq(|ps|, i requires 0 <= i < |ps| => ps[i].0)
  }

  predicate Distinct<K(==)>(ks: seq<K>) {
    forall i, j | 0 <= i < j < |ks| :: ks[i] != ks[j]
  }

  function IndexOf<K(==)>(ks: seq<K>, k: K): (i: nat)
    requires k in ks
    ensures i < |ks| && ks[i] == k
  {
    if ks[0] == k then 0 else 1 + IndexOf(ks[1..], k)
  }

  /** `d.setdefault(k, []).append(v)`: an existing key keeps its place and gains `v`
      at the end of its list; a new key goes last. */
  function Insert<K(==), V>(gs: seq<(K, seq<V>)>, k: K, v: V): seq<(K, seq<V>)> {
    var ks := Keys(gs);
    if k in ks then
      var i := IndexOf(ks, k);
      gs[i := (k, gs[i].1 + [v])]
    else
      gs + [(k, [v])]
  }

  /** The dictionary built by inserting every pair of `ps` in order. */
  function GroupBy<K(==), V>(ps: seq<(K, V)>): seq<(K, seq<V>)>
    decreases |ps|
  {
    if ps == [] then []
    else Insert(GroupBy(ps[..|ps| - 1]), ps[|ps| - 1].0, ps[|ps| - 1].1)
  }

  /** Reference definitions: the values paired with `k`, in order ... */
  function Select<K(==), V>(ps: seq<(K, V)>, k: K): seq<V>
    decreases |ps|
  {
    if ps == [] then []
    else Select(ps[..|ps| - 1], k) + (if ps[|ps| - 1].0 == k then [ps[|ps| - 1].1] else [])
  }

  /** ... and the keys with duplicates removed, each at its first occurrence. */
  function FirstSeen<K(==)>(ks: seq<K>): seq<K>
    decreases |ks|
  {
    if ks == [] then []
    else
      var f := FirstSeen(ks[..|ks| - 1]);
      if ks[|ks| - 1] in f then f else f + [ks[|ks| - 1]]
  }

  lemma {:induction false} FirstSeenProps<K>(ks: seq<K>)
    ensures forall x :: x in FirstSeen(ks) <==> x in ks
    ensures Distinct(FirstSeen(ks))
  {
    if ks != [] {
      var init := ks[..|ks| - 1];
      FirstSeenProps(init);
      assert ks == init + [ks[|ks| - 1]];
    }
  }

  lemma {:induction false} SelectEmpty<K, V>(ps: seq<(K, V)>, k: K)
    ensures Select(ps, k) == [] <==> k !in Keys(ps)
  {
    if ps != [] {
      var init := ps[..|ps| - 1];
      SelectEmpty(init, k);
      assert Keys(ps) == Keys(init) + [ps[|ps| - 1].0];
    }
  }

  /** The dictionary has one entry per distinct key of `ps`, in first-seen order,
      and the list under each key is every value paired with it, in input order. */
  lemma {:induction false} GroupByProps<K, V>(ps: seq<(K, V)>)
    ensures Keys(GroupBy(ps)) == FirstSeen(Keys(ps))
    ensures Distinct(Keys(GroupBy(ps)))
    ensures forall i | 0 <= i < |GroupBy(ps)| ::
      GroupBy(ps)[i].1 == Select(ps, GroupBy(ps)[i].0) && GroupBy(ps)[i].1 != []
  {
    if ps != [] {
      var init := ps[..|ps| - 1];
      var (k, v) := ps[|ps| - 1];
      GroupByProps(init);
      FirstSeenProps(Keys(init));
      assert Keys(ps) == Keys(init) + [k];
      var g := GroupBy(init);
      var ks := Keys(g);
      var r := GroupBy(ps);
      assert r == Insert(g, k, v);
      if k in ks {
        var i := IndexOf(ks, k);
        assert Keys(r) == ks;
        forall j | 0 <= j < |r| ensures r[j].1 == Select(ps, r[j].0) && r[j].1 != [] {
          if j != i {
            assert ks[j] != ks[i] by {
              if j < i { assert ks[j] != ks[i]; } else { assert ks[i] != ks[j]; }
            }
            assert r[j] == g[j] && g[j].0 != k;
          }
        }
      } else {
        assert Keys(r) == ks + [k];
        SelectEmpty(init, k);
        forall j | 0 <= j < |r| ensures r[j].1 == Select(ps, r[j].0) && r[j].1 != [] {
          if j < |g| {
            assert r[j] == g[j] && g[j].0 != k;
          }
        }
      }
    }
  }

  /** Looking a key up in the dictionary gives every value paired with it. */
  lemma GroupByLookup<K, V>(ps: seq<(K, V)>, k: K)
    requires k in Keys(ps)
    ensures k in Keys(GroupBy(ps))
    ensures GroupBy(ps)[IndexOf(Keys(GroupBy(ps)), k)].1 == Select(ps, k)
  {
    GroupByProps(ps);
    FirstSeenProps(Keys(ps));
  }

  /** Inserting one more pair is one more `setdefault(...).append(...)`. */
  lemma GroupBySnoc<K, V>(ps: seq<(K, V)>, k: K, v: V)
    ensures GroupBy(ps + [(k, v)]) == Insert(GroupBy(ps), k, v)
  {
    assert (ps + [(k, v)])[..|ps|] == ps;
  }

  /** The number of values held by all the lists together. */
  function Total<K, V>(gs: seq<(K, seq<V>)>): nat
    decreases |gs|
  {
    if gs == [] then 0 else Total(gs[..|gs| - 1]) + |gs[|gs| - 1].1|
  }

  lemma {:induction false} TotalUpdate<K, V>(gs: seq<(K, seq<V>)>, i: nat, v: V)
    requires i < |gs|
    ensures Total(gs[i := (gs[i].0, gs[i].1 + [v])]) == Total(gs) + 1
    decreases |gs|
  {
    var gs' := gs[i := (gs[i].0, gs[i].1 + [v])];
    var n := |gs| - 1;
    if i < n {
      TotalUpdate(gs[..n], i, v);
      assert gs'[..n] == gs[..n][i := (gs[i].0, gs[i].1 + [v])];
    } else {
      assert gs'[..n] == gs[..n];
    }
  }

  /** No value is lost or duplicated: the lists together hold one value per pair. */
  lemma {:induction false} GroupByTotal<K, V>(ps: seq<(K, V)>)
    ensures Total(GroupBy(ps)) == |ps|
    decreases |ps|
  {
    if ps != [] {
      var init := ps[..|ps| - 1];
      var (k, v) := ps[|ps| - 1];
      GroupByTotal(init);
      var g := GroupBy(init);
      if k in Keys(g) {
        TotalUpdate(g, IndexOf(Keys(g), k), v);
      } else {
        assert (g + [(k, [v])])[..|g|] == g;
      }
    }
  }
}
