/** `time_to_min`: "HH:MM" to minutes since midnight (timetable_combiner.py:11-14). */
module Clock {
  import opened Patterns

  /** Two digits, a colon, two digits: the shape the combiner passes to `time_to_min`. */
  predicate IsClock(t: string) {
    |t| == 5 && IsDigit(t[0]) && IsDigit(t[1]) && t[2] == ':' && IsDigit(t[3]) && IsDigit(t[4])
  }

  function DigitValue(c: char): (v: nat)
    requires IsDigit(c)
    ensures v <= 9
  {
    c as int - '0' as int
  }

  function Hours(t: string): (h: nat)
    requires IsClock(t)
    ensures h <= 99
  {
    10 * DigitValue(t[0]) + DigitValue(t[1])
  }

  function MinutesPart(t: string): (m: nat)
    requires IsClock(t)
    ensures m <= 99
  {
    10 * DigitValue(t[3]) + DigitValue(t[4])
  }

  /** `h * 60 + m`. For a time whose minute part is a real minute (below 60), the
      hours and minutes can be read back from the result. */
  function TimeToMin(t: string): (r: nat)
    requires IsClock(t)
    ensures r <= 99 * 60 + 99
    ensures MinutesPart(t) < 60 ==> r / 60 == Hours(t) && r % 60 == MinutesPart(t)
  {
    Hours(t) * 60 + MinutesPart(t)
  }

  lemma DigitValueInjective(c: char, d: char)
    requires IsDigit(c) && IsDigit(d) && DigitValue(c) == DigitValue(d)
    ensures c == d
  {
  }

  /** Two well-formed clock times with the same minute count are the same string. */
  lemma TimeToMinInjective(t1: string, t2: string)
    requires IsClock(t1) && IsClock(t2)
    requires MinutesPart(t1) < 60 && MinutesPart(t2) < 60
    requires TimeToMin(t1) == TimeToMin(t2)
    ensures t1 == t2
  {
    assert Hours(t1) == Hours(t2) && MinutesPart(t1) == MinutesPart(t2);
    DigitValueInjective(t1[0], t2[0]);
    DigitValueInjective(t1[1], t2[1]);
    DigitValueInjective(t1[3], t2[3]);
    DigitValueInjective(t1[4], t2[4]);
    assert t1 == [t1[0], t1[1], t1[2], t1[3], t1[4]];
    assert t2 == [t2[0], t2[1], t2[2], t2[3], t2[4]];
  }
}
