/** String helpers the combiner relies on: substring search, `str.strip()`,
    `str.split("\n")` and `sep.join(...)`, on strings modelled as `seq<char>`. */
module Text {

  /** The ASCII characters `str.strip()` and the pattern class `\s` treat as whitespace:
      space, tab, line feed, carriage return, vertical tab, form feed and the four
      information separators 0x1C-0x1F. */
  predicate IsSpace(c: char) {
    c == ' ' || c == '\t' || c == '\n' || c == '\r' || c == '\U{0B}' || c == '\U{0C}' ||
    c == '\U{1C}' || c == '\U{1D}' || c == '\U{1E}' || c == '\U{1F}'
  }

  /** `p` occurs in `s` starting at position `i`. */
  predicate OccursAt(s: string, p: string, i: nat) {
    i + |p| <= |s| && s[i..i + |p|] == p
  }

  /** Python's `p in s` for strings. */
  predicate Contains(s: string, p: string) {
    exists i: nat | i <= |s| :: OccursAt(s, p, i)
  }

  lemma ContainsWitness(s: string, p: string, i: nat)
    requires OccursAt(s, p, i)
    ensures Contains(s, p)
  {
  }

  /** An occurrence in a suffix of `s` is an occurrence in `s`. */
  lemma {:induction false} ContainsSuffix(s: string, p: string, k: nat)
    requires k <= |s| && Contains(s[k..], p)
    ensures Contains(s, p)
  {
    var i: nat :| i <= |s[k..]| && OccursAt(s[k..], p, i);
    assert s[k..][i..i + |p|] == s[k + i..k + i + |p|];
    ContainsWitness(s, p, k + i);
  }

  /** An occurrence in a prefix of `s` is an occurrence in `s`. */
  lemma ContainsPrefix(s: string, p: string, k: nat)
    requires k <= |s| && Contains(s[..k], p)
    ensures Contains(s, p)
  {
    var i: nat :| i <= |s[..k]| && OccursAt(s[..k], p, i);
    assert s[..k][i..i + |p|] == s[i..i + |p|];
    ContainsWitness(s, p, i);
  }

  /** An occurrence past the first character is an occurrence in the tail. */
  lemma ContainsTail(s: string, p: string, i: nat)
    requires 1 <= i && OccursAt(s, p, i)
    ensures Contains(s[1..], p)
  {
    assert s[1..][i - 1..i - 1 + |p|] == s[i..i + |p|];
    ContainsWitness(s[1..], p, i - 1);
  }

  /** `r` is a suffix of `s`. */
  predicate SuffixOf(r: string, s: string) {
    |r| <= |s| && r == s[|s| - |r|..]
  }

  /** `r` is a prefix of `s`. */
  predicate PrefixOf(r: string, s: string) {
    |r| <= |s| && r == s[..|r|]
  }

  /** `s.split(m)[-1]`: the text after the last occurrence of `m` found by a
      left-to-right scan, or all of `s` when `m` does not occur. */
  function AfterLast(s: string, m: string): (r: string)
    requires m != []
    decreases |s|
    ensures SuffixOf(r, s)
  {
    if |s| < |m| then s
    else if s[..|m|] == m then
      var r := AfterLast(s[|m|..], m);
      SuffixOfDrop(s, |m|, r);
      r
    else
      var r := AfterLast(s[1..], m);
      SuffixOfDrop(s, 1, r);
      if |r| == |s| - 1 then s else r
  }

  /** A suffix of `s[k..]` is a suffix of `s`. */
  lemma SuffixOfDrop(s: string, k: nat, r: string)
    requires k <= |s| && SuffixOf(r, s[k..])
    ensures SuffixOf(r, s)
  {
    assert s[k..][|s| - k - |r|..] == s[|s| - |r|..];
  }

  lemma OccursShift(s: string, p: string, k: nat, j: nat)
    requires k <= |s| && OccursAt(s[k..], p, j)
    ensures OccursAt(s, p, k + j)
  {
    assert s[k..][j..j + |p|] == s[k + j..k + j + |p|];
  }

  /** What `AfterLast` promises of its result `r`: it is all of `s` exactly when `m`
      does not occur in `s`; otherwise it directly follows an occurrence of `m`;
      either way it holds no `m`. */
  predicate AfterLastOk(s: string, m: string, r: string) {
    |r| <= |s| &&
    !Contains(r, m) &&
    (r == s <==> !Contains(s, m)) &&
    (r != s ==> |m| <= |s| - |r| && OccursAt(s, m, |s| - |r| - |m|))
  }

  /** When `s` starts with `m`, what holds of the text after that `m` holds of `s`. */
  lemma AfterLastAtMarker(s: string, m: string, r: string)
    requires m != [] && |s| >= |m| && s[..|m|] == m
    requires AfterLastOk(s[|m|..], m, r)
    ensures AfterLastOk(s, m, r)
  {
    var t := s[|m|..];
    assert |r| < |s|;
    assert Contains(s, m) by {
      assert OccursAt(s, m, 0);
      ContainsWitness(s, m, 0);
    }
    assert OccursAt(s, m, |s| - |r| - |m|) by {
      if r == t {
        assert |s| - |r| - |m| == 0;
        assert OccursAt(s, m, 0);
      } else {
        OccursShift(s, m, |m|, |t| - |r| - |m|);
        assert |m| + (|t| - |r| - |m|) == |s| - |r| - |m|;
      }
    }
  }

  /** When `s` does not start with `m`, what holds of `s[1..]` carries over to `s`,
      with `s` itself in place of an unchanged tail. */
  lemma AfterLastPastChar(s: string, m: string, r: string)
    requires m != [] && |s| >= |m| && s[..|m|] != m
    requires AfterLastOk(s[1..], m, r)
    ensures AfterLastOk(s, m, if r == s[1..] then s else r)
  {
    var t := s[1..];
    if r == t {
      if Contains(s, m) {
        var i: nat :| i <= |s| && OccursAt(s, m, i);
        if i == 0 {
          assert false;
        } else {
          ContainsTail(s, m, i);
        }
      }
    } else {
      assert |t| == |s| - 1 && |r| <= |t| < |s|;
      OccursShift(s, m, 1, |t| - |r| - |m|);
      assert 1 + (|t| - |r| - |m|) == |s| - |r| - |m|;
      ContainsWitness(s, m, |t| - |r| - |m| + 1);
    }
  }

  lemma {:induction false} AfterLastSpec(s: string, m: string)
    requires m != []
    decreases |s|
    ensures AfterLastOk(s, m, AfterLast(s, m))
  {
    if |s| < |m| {
      assert !Contains(s, m);
    } else if s[..|m|] == m {
      AfterLastSpec(s[|m|..], m);
      AfterLastAtMarker(s, m, AfterLast(s[|m|..], m));
    } else {
      AfterLastSpec(s[1..], m);
      AfterLastPastChar(s, m, AfterLast(s[1..], m));
    }
  }

  /** Every character of `s` is whitespace (true of the empty string). */
  predicate AllSpace(s: string) {
    forall k | 0 <= k < |s| :: IsSpace(s[k])
  }

  /** `s.lstrip()`: `s` without its leading whitespace. */
  function StripLeft(s: string): (r: string)
    ensures SuffixOf(r, s)
    ensures AllSpace(s[..|s| - |r|])
    ensures r == [] || !IsSpace(r[0])
  {
    if s != [] && IsSpace(s[0]) then
      var r := StripLeft(s[1..]);
      assert s[..|s| - |r|] == [s[0]] + s[1..][..|s| - 1 - |r|];
      r
    else s
  }

  /** `s.rstrip()`: `s` without its trailing whitespace. */
  function StripRight(s: string): (r: string)
    ensures PrefixOf(r, s)
    ensures AllSpace(s[|r|..])
    ensures r == [] || !IsSpace(r[|r| - 1])
  {
    if s != [] && IsSpace(s[|s| - 1]) then
      var r := StripRight(s[..|s| - 1]);
      assert s[|r|..] == s[..|s| - 1][|r|..] + [s[|s| - 1]];
      r
    else s
  }

  /** `r` is `s[i..j]` with only whitespace cut off on either side. */
  predicate TrimmedAt(s: string, r: string, i: nat, j: nat) {
    i <= j <= |s| && r == s[i..j] && AllSpace(s[..i]) && AllSpace(s[j..])
  }

  /** `s.strip()`: the infix of `s` left once whitespace is cut off on both sides;
      it neither starts nor ends with whitespace. */
  function Strip(s: string): (r: string)
    ensures exists i: nat, j: nat :: TrimmedAt(s, r, i, j)
    ensures r == [] || (!IsSpace(r[0]) && !IsSpace(r[|r| - 1]))
  {
    var left := StripLeft(s);
    var r := StripRight(left);
    var i := |s| - |left|;
    assert TrimmedAt(s, r, i, i + |r|) by {
      assert r == s[i..i + |r|];
      assert s[i + |r|..] == left[|r|..];
    }
    r
  }

  /** Leading whitespace up to a non-space character (or the end) is exactly what
      `StripLeft` removes. */
  lemma {:induction false} StripLeftAt(s: string, i: nat)
    requires i <= |s| && AllSpace(s[..i])
    requires i == |s| || !IsSpace(s[i])
    ensures StripLeft(s) == s[i..]
  {
    if i > 0 {
      assert s[..i][0] == s[0];
      assert s[1..][..i - 1] == s[..i][1..];
      StripLeftAt(s[1..], i - 1);
      assert s[1..][i - 1..] == s[i..];
    }
  }

  /** Trailing whitespace back to a non-space character (or the start) is exactly
      what `StripRight` removes. */
  lemma {:induction false} StripRightAt(s: string, j: nat)
    requires j <= |s| && AllSpace(s[j..])
    requires j == 0 || !IsSpace(s[j - 1])
    ensures StripRight(s) == s[..j]
  {
    if j < |s| {
      assert s[j..][|s| - 1 - j] == s[|s| - 1];
      assert s[..|s| - 1][j..] == s[j..][..|s| - 1 - j];
      StripRightAt(s[..|s| - 1], j);
      assert s[..|s| - 1][..j] == s[..j];
    }
  }

  /** A string of whitespace only strips to the empty string. */
  lemma StripAllSpace(s: string)
    requires AllSpace(s)
    ensures Strip(s) == []
  {
    assert s[..|s|] == s;
    StripLeftAt(s, |s|);
  }

  /** A non-empty infix with non-space ends and whitespace around it is what `Strip` keeps. */
  lemma StripInfix(s: string, i: nat, j: nat)
    requires i < j <= |s|
    requires AllSpace(s[..i]) && AllSpace(s[j..])
    requires !IsSpace(s[i]) && !IsSpace(s[j - 1])
    ensures Strip(s) == s[i..j]
  {
    assert StripLeft(s) == s[i..] by {
      StripLeftAt(s, i);
    }
    StripRightInfix(s, i, j);
  }

  /** Cutting trailing whitespace off `s[i..]` ends at the last non-space character. */
  lemma StripRightInfix(s: string, i: nat, j: nat)
    requires i < j <= |s| && AllSpace(s[j..]) && !IsSpace(s[j - 1])
    ensures StripRight(s[i..]) == s[i..j]
  {
    var t := s[i..];
    assert t[j - i..] == s[j..];
    StripRightAt(t, j - i);
    assert t[..j - i] == s[i..j];
  }

  /** `Strip` is the only whitespace-trimmed infix that is empty or has non-space ends:
      any such `r` equals `Strip(s)`. */
  lemma StripUnique(s: string, r: string, i: nat, j: nat)
    requires TrimmedAt(s, r, i, j)
    requires r == [] || (!IsSpace(r[0]) && !IsSpace(r[|r| - 1]))
    ensures Strip(s) == r
  {
    if i == j {
      StripAllSpace(s) by {
        forall k | 0 <= k < |s| ensures IsSpace(s[k]) {
          if k < i { assert s[k] == s[..i][k]; } else { assert s[k] == s[j..][k - j]; }
        }
      }
    } else {
      StripInfix(s, i, j) by {
        assert s[i] == r[0] && s[j - 1] == r[|r| - 1];
      }
    }
  }

  /** Stripping a string that neither starts nor ends with whitespace leaves it as it is. */
  lemma StripNoop(s: string)
    requires s != [] && !IsSpace(s[0]) && !IsSpace(s[|s| - 1])
    ensures Strip(s) == s
  {
    StripInfix(s, 0, |s|);
    assert s[0..|s|] == s;
  }

  /** `s.split(c)` for a single separator character: never empty, no piece holds `c`,
      and joining the pieces back with `c` gives `s` (`JoinSplit`). */
  function Split(s: string, c: char): (r: seq<string>)
    ensures |r| >= 1
    ensures forall k | 0 <= k < |r| :: c !in r[k]
  {
    if s == [] then [""]
    else
      var rest := Split(s[1..], c);
      if s[0] == c then [""] + rest else [[s[0]] + rest[0]] + rest[1..]
  }

  /** `sep.join(ls)`. */
  function Join(ls: seq<string>, sep: string): string {
    if ls == [] then ""
    else if |ls| == 1 then ls[0]
    else ls[0] + sep + Join(ls[1..], sep)
  }

  lemma {:induction false} SplitNoSeparator(s: string, c: char)
    requires c !in s
    ensures Split(s, c) == [s]
  {
    if s != [] {
      SplitNoSeparator(s[1..], c);
      assert [s[0]] + s[1..] == s;
    }
  }

  lemma {:induction false} SplitAfterPiece(a: string, c: char, b: string)
    requires c !in a
    ensures Split(a + [c] + b, c) == [a] + Split(b, c)
  {
    if a == [] {
      assert a + [c] + b == [c] + b;
      assert ([c] + b)[1..] == b;
    } else {
      assert (a + [c] + b)[1..] == a[1..] + [c] + b;
      SplitAfterPiece(a[1..], c, b);
      assert [a[0]] + a[1..] == a;
    }
  }

  /** Splitting on `c` undoes joining with `c`, as long as no piece contains `c`. */
  lemma {:induction false} SplitJoin(ls: seq<string>, c: char)
    requires |ls| >= 1
    requires forall k | 0 <= k < |ls| :: c !in ls[k]
    ensures Split(Join(ls, [c]), c) == ls
  {
    if |ls| == 1 {
      SplitNoSeparator(ls[0], c);
    } else {
      SplitJoin(ls[1..], c);
      SplitAfterPiece(ls[0], c, Join(ls[1..], [c]));
      assert [ls[0]] + ls[1..] == ls;
    }
  }

  /** Joining a non-empty list peels off its first element. */
  lemma JoinCons(x: string, ls: seq<string>, sep: string)
    requires ls != []
    ensures Join([x] + ls, sep) == x + sep + Join(ls, sep)
  {
    assert ([x] + ls)[1..] == ls;
  }

  /** Joining the pieces of `s.split(c)` with `c` gives back `s`. */
  lemma {:induction false} JoinSplit(s: string, c: char)
    ensures Join(Split(s, c), [c]) == s
  {
    if s != [] {
      var rest := Split(s[1..], c);
      JoinSplit(s[1..], c);
      if s[0] == c {
        JoinCons("", rest, [c]);
      } else {
        JoinGlue([s[0]], rest, [c]);
      }
      assert [s[0]] + s[1..] == s;
    }
  }

  /** Gluing `x` to the front of the first piece puts it in front of the joined text. */
  lemma JoinGlue(x: string, ls: seq<string>, sep: string)
    requires ls != []
    ensures Join([x + ls[0]] + ls[1..], sep) == x + Join(ls, sep)
  {
    if |ls| > 1 {
      JoinCons(x + ls[0], ls[1..], sep);
      JoinCons(ls[0], ls[1..], sep);
      assert [ls[0]] + ls[1..] == ls;
    }
  }

  /** Joining `xs + ys` puts one separator between the two joined halves. */
  lemma {:induction false} JoinAppend(xs: seq<string>, ys: seq<string>, sep: string)
    requires xs != [] && ys != []
    ensures Join(xs + ys, sep) == Join(xs, sep) + sep + Join(ys, sep)
  {
    if |xs| == 1 {
      JoinCons(xs[0], ys, sep);
      assert [xs[0]] + ys == xs + ys;
    } else {
      assert (xs + ys)[1..] == xs[1..] + ys;
      JoinAppend(xs[1..], ys, sep);
    }
  }
}
