/**
 * The text `current_date()` returns. The clock itself is outside the
 * model: an `Instant` is the wall-clock reading it formats. The function
 * returns `"%Y-%m-%d %H:%M:%S"` normally and `"%Y-%m-%d"` from its
 * fallback branch.
 */
module Clock {
  import opened Strings

  datatype Instant = Instant(year: nat, month: nat, day: nat, hour: nat, minute: nat, second: nat)

  predicate ValidInstant(t: Instant) {
    && 1 <= t.year <= 9999 && 1 <= t.month <= 12 && 1 <= t.day <= 31
    && t.hour < 24 && t.minute < 60 && t.second < 60
  }

  /** Two readings on the same calendar day. */
  predicate SameDay(t: Instant, u: Instant) {
    t.year == u.year && t.month == u.month && t.day == u.day
  }

  function Pow10(w: nat): (p: nat)
    ensures p >= 1
  {
    if w == 0 then 1 else 10 * Pow10(w - 1)
  }

  /** `%0<w>d`: the last `w` decimal digits of `n`, zero-filled on the left. */
  function Padded(n: nat, w: nat): (s: string)
    ensures |s| == w
    ensures forall i :: 0 <= i < |s| ==> IsDigit(s[i])
    ensures n < Pow10(w) ==> DigitsValue(s) == n
  {
    if w == 0 then []
    else
      var s := Padded(n / 10, w - 1) + [('0' as int + n % 10) as char];
      assert s[..|s| - 1] == Padded(n / 10, w - 1);
      s
  }

  /** Equal zero-filled spellings of numbers in range are spellings of one number. */
  lemma PaddedInjective(a: nat, b: nat, w: nat)
    requires a < Pow10(w) && b < Pow10(w)
    ensures Padded(a, w) == Padded(b, w) <==> a == b
  {
  }

  /** `"%Y-%m-%d"`, the fallback's format. */
  function DayKey(t: Instant): (s: string)
    ensures |s| == 10
    ensures s[..4] == Padded(t.year, 4) && s[5..7] == Padded(t.month, 2) && s[8..10] == Padded(t.day, 2)
  {
    Padded(t.year, 4) + "-" + Padded(t.month, 2) + "-" + Padded(t.day, 2)
  }

  /** `"%H:%M:%S"`. */
  function TimeOfDay(t: Instant): (s: string)
    ensures |s| == 8
    ensures s[..2] == Padded(t.hour, 2) && s[3..5] == Padded(t.minute, 2) && s[6..] == Padded(t.second, 2)
  {
    Padded(t.hour, 2) + ":" + Padded(t.minute, 2) + ":" + Padded(t.second, 2)
  }

  /** `"%Y-%m-%d %H:%M:%S"`, the normal format. */
  function Stamp(t: Instant): (s: string)
    ensures |s| == 19
    ensures s[..10] == DayKey(t)
    ensures s[11..13] == Padded(t.hour, 2) && s[14..16] == Padded(t.minute, 2) && s[17..] == Padded(t.second, 2)
  {
    var d, c := DayKey(t), TimeOfDay(t);
    var s := d + " " + c;
    assert s[11..13] == c[..2] && s[14..16] == c[3..5] && s[17..] == c[6..];
    s
  }

  /** The day key names the calendar day: equal keys exactly for readings on the same day. */
  lemma DayKeyNamesDay(t: Instant, u: Instant)
    requires ValidInstant(t) && ValidInstant(u)
    ensures DayKey(t) == DayKey(u) <==> SameDay(t, u)
  {
    var k, m := DayKey(t), DayKey(u);
    if k == m {
      PaddedInjective(t.year, u.year, 4);
      PaddedInjective(t.month, u.month, 2);
      PaddedInjective(t.day, u.day, 2);
    }
  }

  /** The full stamp names the second: equal stamps exactly for equal readings. */
  lemma StampNamesSecond(t: Instant, u: Instant)
    requires ValidInstant(t) && ValidInstant(u)
    ensures Stamp(t) == Stamp(u) <==> t == u
  {
    var k, m := Stamp(t), Stamp(u);
    if k == m {
      DayKeyNamesDay(t, u);
      PaddedInjective(t.hour, u.hour, 2);
      PaddedInjective(t.minute, u.minute, 2);
      PaddedInjective(t.second, u.second, 2);
    }
  }
}
