/** The two fixed regular expressions of the combiner, matched with `re.match`
    (anchored at the start, any suffix allowed), and the teacher-title test.
    Each regular expression is stated as "there is a way to split the string that
    the pattern accepts"; the split turns out to be unique. */
module Patterns {
  import opened Text

  predicate IsDigit(c: char) { '0' <= c <= '9' }

  predicate IsUpper(c: char) { 'A' <= c <= 'Z' }

  /** The class `[A-Za-z0-9 ]`. */
  predicate IsLabelChar(c: char) {
    IsUpper(c) || ('a' <= c <= 'z') || IsDigit(c) || c == ' '
  }

  /** `[A-Z]{u}-\d{d}-[A-Za-z0-9 ]` matches a prefix of `s`. */
  predicate CourseCodeAt(s: string, u: nat, d: nat) {
    u + d + 3 <= |s| &&
    (forall k | 0 <= k < u :: IsUpper(s[k])) &&
    s[u] == '-' &&
    (forall k | u + 1 <= k < u + 1 + d :: IsDigit(s[k])) &&
    s[u + 1 + d] == '-' &&
    IsLabelChar(s[u + d + 2])
  }

  /** `re.match(r"^[A-Z]{3,5}-\d{3,4}-[A-Za-z0-9 ]+", s)` succeeds. */
  predicate CourseCode(s: string) {
    exists u: nat, d: nat | 3 <= u <= 5 && 3 <= d <= 4 :: CourseCodeAt(s, u, d)
  }

  /** The course-code pattern matches in at most one way. */
  lemma CourseCodeUnique(s: string, u1: nat, d1: nat, u2: nat, d2: nat)
    requires CourseCodeAt(s, u1, d1) && CourseCodeAt(s, u2, d2)
    ensures u1 == u2 && d1 == d2
  {
  }

  /** A course code starts with an upper-case letter (so it has no leading whitespace). */
  lemma CourseCodeStartsUpper(s: string)
    requires CourseCode(s)
    ensures |s| >= 9 && IsUpper(s[0]) && !IsSpace(s[0])
  {
    var u: nat, d: nat :| 3 <= u <= 5 && 3 <= d <= 4 && CourseCodeAt(s, u, d);
    assert IsUpper(s[0]);
  }

  /** Number of whitespace characters in a row from position `i`. */
  function SpaceRun(s: string, i: nat): (n: nat)
    requires i <= |s|
    decreases |s| - i
    ensures i + n <= |s|
    ensures forall k | i <= k < i + n :: IsSpace(s[k])
    ensures i + n == |s| || !IsSpace(s[i + n])
  {
    if i < |s| && IsSpace(s[i]) then 1 + SpaceRun(s, i + 1) else 0
  }

  /** `\d{2}:\d{2}\s{a}-\s{b}\d{2}:\d{2}` matches a prefix of `s`. */
  predicate TimeRangeAt(s: string, a: nat, b: nat) {
    11 + a + b <= |s| &&
    IsDigit(s[0]) && IsDigit(s[1]) && s[2] == ':' && IsDigit(s[3]) && IsDigit(s[4]) &&
    (forall k | 5 <= k < 5 + a :: IsSpace(s[k])) &&
    s[5 + a] == '-' &&
    (forall k | 6 + a <= k < 6 + a + b :: IsSpace(s[k])) &&
    IsDigit(s[6 + a + b]) && IsDigit(s[7 + a + b]) && s[8 + a + b] == ':' &&
    IsDigit(s[9 + a + b]) && IsDigit(s[10 + a + b])
  }

  /** `re.match(r"\d{2}:\d{2}\s*-\s*\d{2}:\d{2}", s)` succeeds. */
  predicate TimeRange(s: string) {
    exists a: nat, b: nat | a <= |s| && b <= |s| :: TimeRangeAt(s, a, b)
  }

  /** The whitespace gaps around the dash, read greedily. */
  function TimeGaps(s: string): (nat, nat) {
    if |s| < 5 then (0, 0)
    else
      var a := SpaceRun(s, 5);
      if 6 + a > |s| then (a, 0) else (a, SpaceRun(s, 6 + a))
  }

  lemma {:induction false} SpaceRunExact(s: string, i: nat, n: nat)
    requires i + n < |s|
    requires forall k | i <= k < i + n :: IsSpace(s[k])
    requires !IsSpace(s[i + n])
    ensures SpaceRun(s, i) == n
    decreases n
  {
    if n > 0 {
      SpaceRunExact(s, i + 1, n - 1);
    }
  }

  /** Any way the time pattern matches is the greedy one, so a match is unique
      and `TimeRange` can be decided by reading the gaps greedily. */
  lemma TimeRangeGreedy(s: string, a: nat, b: nat)
    requires TimeRangeAt(s, a, b)
    ensures TimeGaps(s) == (a, b)
  {
    SpaceRunExact(s, 5, a);
    SpaceRunExact(s, 6 + a, b);
  }

  lemma TimeRangeByGaps(s: string)
    ensures TimeRange(s) <==> TimeRangeAt(s, TimeGaps(s).0, TimeGaps(s).1)
  {
    if TimeRange(s) {
      var a: nat, b: nat :| a <= |s| && b <= |s| && TimeRangeAt(s, a, b);
      TimeRangeGreedy(s, a, b);
    }
  }

  const TeacherTitles: seq<string> := ["Engr.", "Dr.", "Ms.", "Mr."]

  /** `any(prefix in line for prefix in ["Engr.", "Dr.", "Ms.", "Mr."])`: a substring
      test, not a prefix test. */
  predicate IsTeacherLine(line: string) {
    exists t | t in TeacherTitles :: Contains(line, t)
  }
}
