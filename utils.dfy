/**
 * The duration formatter of lib/utils.ts: a number of seconds shown as
 * whole hours and minutes.
 */
module Utils {
  import opened Text

  /** JavaScript's `a % b` for a positive divisor: the remainder takes the sign of the dividend. */
  function TruncRem(a: int, b: nat): (r: int)
    requires b > 0
    ensures -(b as int) < r < b
    ensures a >= 0 ==> r == a % b
    ensures a < 0 ==> r <= 0
  {
    if a >= 0 then a % b else -((-a) % b)
  }

  /** `${n}` for any integer: a minus sign before the digits of a negative one. */
  function ShowInt(n: int): (r: string)
    ensures n >= 0 ==> r == Show(n)
    ensures n < 0 ==> r == "-" + Show(-n)
  {
    if n < 0 then "-" + Show(-n) else Show(n)
  }

  /**
   * `formatTime`: `Math.floor(seconds / 3600)` hours (for a positive divisor
   * Dafny's `/` rounds down too) and `Math.floor((seconds % 3600) / 60)`
   * minutes; the hours are shown only when there is at least one.
   */
  function FormatTime(seconds: int): (r: string)
    ensures |r| >= 2 && r[|r| - 1] == 'm'
  {
    var hours := seconds / 3600;
    var minutes := TruncRem(seconds, 3600) / 60;
    if hours > 0 then ShowInt(hours) + "h " + ShowInt(minutes) + "m" else ShowInt(minutes) + "m"
  }

  /**
   * For a non-negative duration the minutes are 0 to 59 and, with the
   * hours, account for all of it but the seconds of the last minute.
   */
  lemma ClockParts(seconds: int)
    requires seconds >= 0
    ensures var h, m := seconds / 3600, TruncRem(seconds, 3600) / 60;
      && 0 <= m <= 59
      && h * 3600 + m * 60 <= seconds < h * 3600 + m * 60 + 60
  {
    var h, r := seconds / 3600, seconds % 3600;
    assert seconds == h * 3600 + r;
    var m := r / 60;
    assert r == m * 60 + r % 60;
  }

  /** An hour or more is shown as hours and minutes; less as minutes alone; both in plain digits. */
  lemma FormatTimeForms(seconds: int)
    requires seconds >= 0
    ensures seconds >= 3600 ==>
      FormatTime(seconds) == Show(seconds / 3600) + "h " + Show(seconds % 3600 / 60) + "m"
    ensures seconds < 3600 ==> FormatTime(seconds) == Show(seconds / 60) + "m"
  {
    ClockParts(seconds);
  }

  /** A negative duration is shown as minutes alone, from `-60m` to `0m`. */
  lemma FormatTimeNegative(seconds: int)
    requires seconds < 0
    ensures var m := TruncRem(seconds, 3600) / 60;
      && -60 <= m <= 0
      && FormatTime(seconds) == ShowInt(m) + "m"
  {
  }

  /** Digits, then a separator that is not a digit: where the separator stands is fixed, so both parts are. */
  lemma DigitsBeforeSeparator(u: string, x: string, v: string, y: string, c: char)
    requires AllDigits(u) && AllDigits(v) && !IsDigit(c)
    requires u + [c] + x == v + [c] + y
    ensures u == v && x == y
  {
    var l, r := u + [c] + x, v + [c] + y;
    assert l[|u|] == c && r[|v|] == c;
    assert forall k :: 0 <= k < |u| ==> l[k] == u[k];
    assert forall k :: 0 <= k < |v| ==> r[k] == v[k];
    assert |u| == |v|;
    assert u == l[..|u|] && v == r[..|v|];
    assert x == l[|u| + 1..] && y == r[|v| + 1..];
  }

  /** A text with a separator after its leading digits and more after it is not digits and one final character. */
  lemma DigitsNeverMeet(u: string, x: string, c: char, v: string, d: char)
    requires AllDigits(u) && AllDigits(v) && c != d && !IsDigit(c) && x != []
    ensures u + [c] + x != v + [d]
  {
    var l, r := u + [c] + x, v + [d];
    if |l| == |r| {
      assert |u| < |v|;
      assert l[|u|] == c && r[|u|] == v[|u|];
    }
  }

  /** Two renderings in hours-and-minutes form agree only for the same hours and minutes. */
  lemma SameHoursForm(h: nat, m: nat, h': nat, m': nat)
    requires Show(h) + "h " + Show(m) + "m" == Show(h') + "h " + Show(m') + "m"
    ensures h == h' && m == m'
  {
    var x, x' := [' '] + Show(m) + ['m'], [' '] + Show(m') + ['m'];
    HoursSplit(Show(h), Show(m));
    HoursSplit(Show(h'), Show(m'));
    DigitsBeforeSeparator(Show(h), x, Show(h'), x', 'h');
    ParseShow(h);
    ParseShow(h');
    Inner(' ', Show(m), 'm');
    Inner(' ', Show(m'), 'm');
    ParseShow(m);
    ParseShow(m');
  }

  /** The hours form read as digits, the separator and the rest. */
  lemma HoursSplit(a: string, b: string)
    ensures a + "h " + b + "m" == a + ['h'] + ([' '] + b + ['m'])
  {
  }

  /** What lies between a first and a last element. */
  lemma Inner<T>(a: T, s: seq<T>, b: T)
    ensures ([a] + s + [b])[1..|s| + 1] == s
  {
  }

  /** Two renderings in minutes form agree only for the same minutes. */
  lemma SameMinutesForm(m: nat, m': nat)
    requires Show(m) + "m" == Show(m') + "m"
    ensures m == m'
  {
    var l, r := Show(m) + "m", Show(m') + "m";
    assert Show(m) == l[..|l| - 1] && Show(m') == r[..|r| - 1];
    ParseShow(m);
    ParseShow(m');
  }

  /** No rendering in hours-and-minutes form is also one in minutes form. */
  lemma FormsDiffer(h: nat, m: nat, n: nat)
    ensures Show(h) + "h " + Show(m) + "m" != Show(n) + "m"
  {
    var x := " " + Show(m) + "m";
    assert Show(h) + "h " + Show(m) + "m" == Show(h) + ['h'] + x;
    DigitsNeverMeet(Show(h), x, 'h', Show(n), 'm');
  }

  /** The whole minutes of a non-negative duration are its hours and the minutes shown after them. */
  lemma WholeMinutes(s: int)
    requires s >= 0
    ensures s / 60 == (s / 3600) * 60 + s % 3600 / 60
    ensures s < 3600 ==> s / 3600 == 0 && s % 3600 / 60 == s / 60
  {
    var h, r := s / 3600, s % 3600;
    assert s == h * 3600 + r;
    assert s == (h * 60 + r / 60) * 60 + r % 60;
  }

  /** Two non-negative durations are shown alike exactly when they have the same whole minutes. */
  lemma FormatTimeSameMinutes(s: int, t: int)
    requires s >= 0 && t >= 0
    ensures FormatTime(s) == FormatTime(t) <==> s / 60 == t / 60
  {
    FormatTimeForms(s);
    FormatTimeForms(t);
    WholeMinutes(s);
    WholeMinutes(t);
    var hs, ms, ht, mt := s / 3600, s % 3600 / 60, t / 3600, t % 3600 / 60;
    if s >= 3600 && t >= 3600 {
      if FormatTime(s) == FormatTime(t) {
        SameHoursForm(hs, ms, ht, mt);
      }
    } else if s < 3600 && t < 3600 {
      if FormatTime(s) == FormatTime(t) {
        SameMinutesForm(s / 60, t / 60);
      }
    } else if s >= 3600 {
      FormsDiffer(hs, ms, t / 60);
    } else {
      FormsDiffer(ht, mt, s / 60);
    }
  }
}
