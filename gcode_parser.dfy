/**
 * Header-comment extraction and the insertion point of the plate-swap
 * block (lib/gcode-parser.ts). Each regular expression of the source is a
 * small scanner `...At(s, i)` that tries the pattern at index `i`;
 * `FirstMatch` (module Text) supplies the leftmost-match rule of
 * `String.prototype.match`.
 */
module GcodeParser {
  import opened Wrappers
  import opened Text
  import opened Numbers

  /** Print statistics read from the header comments; every field is 0 when its comment is absent. */
  datatype Metadata = Metadata(
    printTimeSeconds: nat,
    filamentWeightGrams: real,
    filamentLengthMm: real,
    layerCount: nat,
    maxZHeight: real)

  /** The line after which the plate-swap block goes. */
  const Marker: string := "; EXECUTABLE_BLOCK_END"

  /** `\s*` at `k`: the index of the first non-space at or after `k`. */
  function SkipWs(s: string, k: nat): (r: nat)
    requires k <= |s|
    ensures k <= r <= |s|
  {
    SpanEnd(s, k, Space)
  }

  /** The capture `([\d.]+)`, or `(\d+)` when `digitsOnly`, at `c`: the longest run, at least one character. */
  function CaptureAt(s: string, c: nat, digitsOnly: bool): (r: Option<string>)
    requires c <= |s|
    ensures r.Some? ==> r.value != [] && AllNumChars(r.value) && (digitsOnly ==> AllDigits(r.value))
  {
    var cls := if digitsOnly then Digit else DigitOrDot;
    var e := SpanEnd(s, c, cls);
    SpanEndSpec(s, c, cls);
    if e > c then Some(s[c..e]) else None
  }

  /**
   * `;\s*HEADING\s*:\s*([\d.]+)` tried at `i`, case-insensitively, yielding the
   * captured text. `spaceBeforeColon` chooses whether `\s*` stands between
   * the heading and the colon; `digitsOnly` narrows the capture to `(\d+)`.
   */
  function FieldAt(s: string, i: nat, heading: string, spaceBeforeColon: bool, digitsOnly: bool): (r: Option<string>)
    ensures r.Some? ==> r.value != [] && AllNumChars(r.value) && (digitsOnly ==> AllDigits(r.value))
    ensures r.Some? ==> i < |s| && s[i] == ';'
  {
    if i < |s| && s[i] == ';' then
      var a := SkipWs(s, i + 1);
      if StartsWithCI(s, a, heading) then
        var b := if spaceBeforeColon then SkipWs(s, a + |heading|) else a + |heading|;
        if b < |s| && s[b] == ':' then CaptureAt(s, SkipWs(s, b + 1), digitsOnly) else None
      else None
    else None
  }

  /** The headings of the four numeric header lines, as the patterns spell them. */
  const WeightHeading: string := "total filament weight [g]"
  const LengthHeading: string := "total filament length [mm]"
  const LayerHeading: string := "total layer number"
  const MaxZHeading: string := "max_z_height"

  /** `;\s*total filament weight \[g\]\s*:\s*([\d.]+)`, read with `parseFloat`. */
  function WeightAt(s: string, i: nat): (r: Option<real>)
    ensures r.Some? ==> i < |s| && s[i] == ';'
    ensures r.Some? ==> r.value >= 0.0
  {
    match FieldAt(s, i, WeightHeading, true, false)
    case Some(t) => Some(DecimalValue(t))
    case None => None
  }

  /** `;\s*total filament length \[mm\]\s*:\s*([\d.]+)`, read with `parseFloat`. */
  function LengthAt(s: string, i: nat): (r: Option<real>)
    ensures r.Some? ==> i < |s| && s[i] == ';'
    ensures r.Some? ==> r.value >= 0.0
  {
    match FieldAt(s, i, LengthHeading, true, false)
    case Some(t) => Some(DecimalValue(t))
    case None => None
  }

  /** `;\s*total layer number:\s*(\d+)`, read with `parseInt`. */
  function LayerAt(s: string, i: nat): (r: Option<nat>)
    ensures r.Some? ==> i < |s| && s[i] == ';'
  {
    match FieldAt(s, i, LayerHeading, false, true)
    case Some(t) => Some(ParseNat(t))
    case None => None
  }

  /** `;\s*max_z_height:\s*([\d.]+)`, read with `parseFloat`. */
  function MaxZAt(s: string, i: nat): (r: Option<real>)
    ensures r.Some? ==> i < |s| && s[i] == ';'
    ensures r.Some? ==> r.value >= 0.0
  {
    match FieldAt(s, i, MaxZHeading, false, false)
    case Some(t) => Some(DecimalValue(t))
    case None => None
  }

  /** `\d+` at `k`: its value and the index after it. */
  function NumberAt(s: string, k: nat): (r: Option<(nat, nat)>)
    requires k <= |s|
    ensures r.Some? ==> k < r.value.1 <= |s|
  {
    var e := SpanEnd(s, k, Digit);
    SpanEndSpec(s, k, Digit);
    if e > k then Some((DigitsValue(s, k, e), e)) else None
  }

  /** `(\d+)m\s*(\d+)s` at `k`: minutes times 60 plus seconds. */
  function MinutesSecondsAt(s: string, k: nat): Option<nat>
    requires k <= |s|
  {
    match NumberAt(s, k)
    case None => None
    case Some((minutes, e)) =>
      if e < |s| && Upper(s[e]) == 'M' then
        match NumberAt(s, SkipWs(s, e + 1))
        case None => None
        case Some((seconds, e2)) =>
          if e2 < |s| && Upper(s[e2]) == 'S' then Some(minutes * 60 + seconds) else None
      else None
  }

  /** The two alternatives of the time pattern's label. */
  const TotalTimeLabel: string := "total estimated time"
  const ModelTimeLabel: string := "model printing time"

  /** `(?:total estimated time|model printing time)` at `a`: the index after the label. */
  function TimeLabelEnd(s: string, a: nat): Option<nat> {
    if StartsWithCI(s, a, TotalTimeLabel) then Some(a + |TotalTimeLabel|)
    else if StartsWithCI(s, a, ModelTimeLabel) then Some(a + |ModelTimeLabel|)
    else None
  }

  /**
   * `(?:(\d+)h\s*)?(\d+)m\s*(\d+)s` at `c`: hours·3600 + minutes·60 +
   * seconds. As in the regular expression, when the hours group matches but
   * the rest does not, the match is retried without it.
   */
  function DurationAt(s: string, c: nat): Option<nat>
    requires c <= |s|
  {
    match NumberAt(s, c)
    case None => None
    case Some((hours, e)) =>
      if e < |s| && Upper(s[e]) == 'H' then
        match MinutesSecondsAt(s, SkipWs(s, e + 1))
        case Some(ms) => Some(hours * 3600 + ms)
        case None => MinutesSecondsAt(s, c)
      else MinutesSecondsAt(s, c)
  }

  /**
   * `;\s*(?:total estimated time|model printing time):\s*` followed by a
   * duration, tried at `i`, case-insensitively.
   */
  function TimeAt(s: string, i: nat): (r: Option<nat>)
    ensures r.Some? ==> i < |s| && s[i] == ';'
  {
    if i < |s| && s[i] == ';' then
      match TimeLabelEnd(s, SkipWs(s, i + 1))
      case None => None
      case Some(b) =>
        if b < |s| && s[b] == ':' then DurationAt(s, SkipWs(s, b + 1)) else None
    else None
  }

  /** `SkipWs` stops at the first non-space. */
  lemma SkipWsIs(s: string, k: nat, r: nat)
    requires k <= r <= |s|
    requires forall j :: k <= j < r ==> IsWs(s[j])
    requires r < |s| ==> !IsWs(s[r])
    ensures SkipWs(s, k) == r
  {
    SpanEndIs(s, k, Space, r);
  }

  /** A single space before a non-space is what `\s*` consumes. */
  lemma SkipOneSpace(s: string, k: nat)
    requires k < |s| && s[k] == ' '
    requires k + 1 < |s| ==> !IsWs(s[k + 1])
    ensures SkipWs(s, k) == k + 1
  {
    SkipWsIs(s, k, k + 1);
  }

  /** A run of digits followed by a non-digit reads back as its value. */
  lemma NumberAtDigits(s: string, k: nat, w: string)
    requires w != [] && AllDigits(w)
    requires OccursAt(s, w, k) && k + |w| < |s| && !IsDigit(s[k + |w|])
    ensures NumberAt(s, k) == Some((ParseNat(w), k + |w|))
  {
    DigitsValueOf(s, k, w);
    SpanEndIs(s, k, Digit, k + |w|);
  }

  /** The rendering of `n`, followed by a non-digit, reads back as `n`. */
  lemma NumberAtShow(s: string, k: nat, n: nat)
    requires OccursAt(s, Show(n), k) && k + |Show(n)| < |s| && !IsDigit(s[k + |Show(n)|])
    ensures NumberAt(s, k) == Some((n, k + |Show(n)|))
  {
    NumberAtDigits(s, k, Show(n));
    ParseShow(n);
  }

  /** An occurrence of `a + b` is an occurrence of `a` followed by one of `b`. */
  lemma Split(s: string, a: string, b: string, k: nat)
    requires OccursAt(s, a + b, k)
    ensures OccursAt(s, a, k) && OccursAt(s, b, k + |a|)
  {
    forall j | 0 <= j < |a| ensures s[k + j] == a[j] {
      assert (a + b)[j] == a[j];
    }
    forall j | 0 <= j < |b| ensures s[k + |a| + j] == b[j] {
      assert (a + b)[|a| + j] == b[j];
    }
  }

  lemma CharAt(s: string, c: char, k: nat)
    requires OccursAt(s, [c], k)
    ensures k < |s| && s[k] == c
  {
    assert s[k + 0] == [c][0];
  }

  /** An exact occurrence is also a case-insensitive one. */
  lemma OccursCI(s: string, lit: string, k: nat)
    requires OccursAt(s, lit, k)
    ensures StartsWithCI(s, k, lit)
  {
    forall j | 0 <= j < |lit| ensures s[k + j] == lit[j] {
      assert s[k + j] == lit[j];
    }
  }

  /** A digit string starts with a non-space, so no `\s*` runs into it. */
  lemma NoSpaceBeforeDigits(s: string, w: string, k: nat)
    requires w != [] && AllDigits(w) && OccursAt(s, w, k)
    ensures k < |s| && !IsWs(s[k])
  {
    assert s[k + 0] == w[0];
  }

  /** A rendering of a number starts with a digit, so no `\s*` runs into it. */
  lemma NoSpaceBeforeNumber(s: string, n: nat, k: nat)
    requires OccursAt(s, Show(n), k)
    ensures k < |s| && !IsWs(s[k])
  {
    NoSpaceBeforeDigits(s, Show(n), k);
  }

  /** `MinutesSecondsAt` from the pieces of its match. */
  lemma MinutesSecondsAtIs(s: string, k: nat, minutes: nat, e: nat, seconds: nat, e2: nat)
    requires k <= |s| && NumberAt(s, k) == Some((minutes, e))
    requires e + 1 < |s| && s[e] == 'm' && SkipWs(s, e + 1) == e + 2
    requires NumberAt(s, e + 2) == Some((seconds, e2)) && e2 < |s| && s[e2] == 's'
    ensures MinutesSecondsAt(s, k) == Some(minutes * 60 + seconds)
  {
    assert Upper(s[e]) == 'M' && Upper(s[e2]) == 'S';
  }

  /** The ` {s}s` after the minutes unit at `e`, scanned. */
  lemma SecondsPart(s: string, e: nat, sec: nat)
    requires e + 1 < |s| && s[e + 1] == ' '
    requires OccursAt(s, Show(sec), e + 2)
    requires var e2 := e + 2 + |Show(sec)|; e2 < |s| && s[e2] == 's'
    ensures SkipWs(s, e + 1) == e + 2
    ensures NumberAt(s, e + 2) == Some((sec, e + 2 + |Show(sec)|))
  {
    NoSpaceBeforeNumber(s, sec, e + 2);
    SkipOneSpace(s, e + 1);
    NumberAtShow(s, e + 2, sec);
  }

  /** `{m}m {s}s` at index `k` of `s`, written out piece by piece. */
  predicate MinutesSecondsTextAt(s: string, k: nat, m: nat, sec: nat) {
    var e := k + |Show(m)|;
    && OccursAt(s, Show(m), k)
    && e + 1 < |s| && s[e] == 'm' && s[e + 1] == ' '
    && OccursAt(s, Show(sec), e + 2)
    && e + 2 + |Show(sec)| < |s| && s[e + 2 + |Show(sec)|] == 's'
  }

  /** `{m}m {s}s`, written out digit by digit, reads back as `m * 60 + s`. */
  lemma MinutesSecondsRoundTrip(s: string, k: nat, m: nat, sec: nat)
    requires MinutesSecondsTextAt(s, k, m, sec)
    ensures MinutesSecondsAt(s, k) == Some(m * 60 + sec)
  {
    var e := k + |Show(m)|;
    NumberAtShow(s, k, m);
    SecondsPart(s, e, sec);
    MinutesSecondsAtIs(s, k, m, e, sec, e + 2 + |Show(sec)|);
  }

  /** `{h}h ` at `c`, written out digit by digit and followed by a minutes-and-seconds part, scanned as `TimeAt` does. */
  lemma HoursAt(s: string, c: nat, h: nat, ms: nat)
    requires OccursAt(s, Show(h), c)
    requires var e := c + |Show(h)|; e + 1 < |s| && s[e] == 'h' && s[e + 1] == ' '
    requires MinutesSecondsAt(s, c + |Show(h)| + 2) == Some(ms)
    ensures c < |s| && !IsWs(s[c])
    ensures NumberAt(s, c) == Some((h, c + |Show(h)|))
    ensures c + |Show(h)| + 1 < |s| && Upper(s[c + |Show(h)|]) == 'H'
    ensures MinutesSecondsAt(s, SkipWs(s, c + |Show(h)| + 1)) == Some(ms)
  {
    var e := c + |Show(h)|;
    NoSpaceBeforeNumber(s, h, c);
    NumberAtShow(s, c, h);
    assert !IsWs(s[e + 2]);
    SkipOneSpace(s, e + 1);
  }

  /** `DurationAt` from the pieces of a match that uses the hours group. */
  lemma DurationAtIs(s: string, c: nat, hours: nat, e: nat, ms: nat)
    requires c <= |s| && NumberAt(s, c) == Some((hours, e))
    requires e < |s| && Upper(s[e]) == 'H' && MinutesSecondsAt(s, SkipWs(s, e + 1)) == Some(ms)
    ensures DurationAt(s, c) == Some(hours * 3600 + ms)
  {
  }

  /** The two labels the time pattern accepts. */
  predicate IsTimeLabel(title: string) {
    title == TotalTimeLabel || title == ModelTimeLabel
  }

  /** The fixed start `; TITLE: ` of a time header line at `p`, scanned. */
  lemma TimeHeadingAt(s: string, p: nat, title: string)
    requires IsTimeLabel(title)
    requires OccursAt(s, ";" + " " + title + ":" + " ", p)
    ensures var b := p + 2 + |title|; b + 1 < |s| && s[p] == ';' && s[b] == ':' && s[b + 1] == ' '
    ensures SkipWs(s, p + 1) == p + 2 && TimeLabelEnd(s, p + 2) == Some(p + 2 + |title|)
  {
    Split(s, ";" + " " + title + ":", " ", p);
    Split(s, ";" + " " + title, ":", p);
    Split(s, ";" + " ", title, p);
    Split(s, ";", " ", p);
    CharAt(s, ';', p);
    CharAt(s, ' ', p + 1);
    CharAt(s, ':', p + 2 + |title|);
    CharAt(s, ' ', p + 3 + |title|);
    OccursCI(s, title, p + 2);
    assert s[p + 2 + 0] == title[0];
    SkipWsIs(s, p + 1, p + 2);
    if title == ModelTimeLabel {
      assert Upper(s[p + 2]) != Upper(TotalTimeLabel[0]);
    }
  }

  /** `TimeAt` at `p` from the heading and the duration after it. */
  lemma TimeAtIs(s: string, p: nat, b: nat, d: nat)
    requires p < |s| && s[p] == ';' && TimeLabelEnd(s, SkipWs(s, p + 1)) == Some(b)
    requires b < |s| && s[b] == ':' && DurationAt(s, SkipWs(s, b + 1)) == Some(d)
    ensures TimeAt(s, p) == Some(d)
  {
  }

  /** `{h}h {m}m {s}s` at index `c` of `s`, written out piece by piece. */
  predicate HoursMinutesSecondsAt(s: string, c: nat, h: nat, m: nat, sec: nat) {
    var e := c + |Show(h)|;
    && OccursAt(s, Show(h), c)
    && e + 1 < |s| && s[e] == 'h' && s[e + 1] == ' '
    && MinutesSecondsTextAt(s, e + 2, m, sec)
  }

  /** The header line `; TITLE: {h}h {m}m {s}s` at index `p` of `s`, for either label. */
  predicate TimeLineAt(s: string, p: nat, title: string, h: nat, m: nat, sec: nat) {
    && IsTimeLabel(title)
    && OccursAt(s, ";" + " " + title + ":" + " ", p)
    && HoursMinutesSecondsAt(s, p + |title| + 4, h, m, sec)
  }

  /** The scanner's view of `{h}h {m}m {s}s`. */
  lemma HoursMinutesSecondsPieces(s: string, c: nat, h: nat, m: nat, sec: nat)
    requires HoursMinutesSecondsAt(s, c, h, m, sec)
    ensures c < |s| && !IsWs(s[c])
    ensures NumberAt(s, c) == Some((h, c + |Show(h)|))
    ensures var e := c + |Show(h)|; e < |s| && Upper(s[e]) == 'H'
    ensures MinutesSecondsAt(s, SkipWs(s, c + |Show(h)| + 1)) == Some(m * 60 + sec)
  {
    MinutesSecondsRoundTrip(s, c + |Show(h)| + 2, m, sec);
    HoursAt(s, c, h, m * 60 + sec);
  }

  /** The scanner's view of a time header line. */
  lemma TimeLinePieces(s: string, p: nat, title: string, h: nat, m: nat, sec: nat)
    requires TimeLineAt(s, p, title, h, m, sec)
    ensures var b := p + 2 + |title|; b < |s| && s[p] == ';' && TimeLabelEnd(s, SkipWs(s, p + 1)) == Some(b) && s[b] == ':'
    ensures var c := p + 4 + |title|; SkipWs(s, c - 1) == c && NumberAt(s, c) == Some((h, c + |Show(h)|))
    ensures var e := p + 4 + |title| + |Show(h)|; e < |s| && Upper(s[e]) == 'H'
    ensures MinutesSecondsAt(s, SkipWs(s, p + 4 + |title| + |Show(h)| + 1)) == Some(m * 60 + sec)
  {
    TimeHeadingAt(s, p, title);
    HoursMinutesSecondsPieces(s, p + 4 + |title|, h, m, sec);
    SkipOneSpace(s, p + 3 + |title|);
  }

  /** A time header line at `p`, with the hours group, yields `h * 3600 + m * 60 + sec` there. */
  lemma TimeLineRoundTrip(s: string, p: nat, title: string, h: nat, m: nat, sec: nat)
    requires TimeLineAt(s, p, title, h, m, sec)
    ensures TimeAt(s, p) == Some(h * 3600 + (m * 60 + sec))
  {
    var c := p + 4 + |title|;
    TimeLinePieces(s, p, title, h, m, sec);
    DurationAtIs(s, c, h, c + |Show(h)|, m * 60 + sec);
    TimeAtIs(s, p, p + 2 + |title|, h * 3600 + (m * 60 + sec));
  }

  /** `DurationAt` from the pieces of a match without the hours group. */
  lemma DurationAtNoHoursIs(s: string, c: nat, minutes: nat, e: nat, ms: nat)
    requires c <= |s| && NumberAt(s, c) == Some((minutes, e)) && e < |s| && s[e] == 'm'
    requires MinutesSecondsAt(s, c) == Some(ms)
    ensures DurationAt(s, c) == Some(ms)
  {
    assert Upper(s[e]) == 'M';
  }

  /** The header line `; TITLE: {m}m {s}s` at index `p` of `s`, without the hours group. */
  predicate TimeLineNoHoursAt(s: string, p: nat, title: string, m: nat, sec: nat) {
    && IsTimeLabel(title)
    && OccursAt(s, ";" + " " + title + ":" + " ", p)
    && MinutesSecondsTextAt(s, p + |title| + 4, m, sec)
  }

  /** A time header line at `p` without the hours group yields `m * 60 + sec` there: the hours count defaults to 0. */
  lemma TimeLineNoHoursRoundTrip(s: string, p: nat, title: string, m: nat, sec: nat)
    requires TimeLineNoHoursAt(s, p, title, m, sec)
    ensures TimeAt(s, p) == Some(m * 60 + sec)
  {
    var c := p + 4 + |title|;
    TimeHeadingAt(s, p, title);
    NoSpaceBeforeNumber(s, m, c);
    SkipOneSpace(s, c - 1);
    MinutesSecondsRoundTrip(s, c, m, sec);
    NumberAtShow(s, c, m);
    DurationAtNoHoursIs(s, c, m, c + |Show(m)|, m * 60 + sec);
    TimeAtIs(s, p, p + 2 + |title|, m * 60 + sec);
  }

  /**
   * A print whose first time header line, under either title, stands at `p`
   * reports that duration: no earlier index matches the time pattern.
   */
  lemma HeaderTimeIsReported(gcode: string, p: nat, title: string, h: nat, m: nat, sec: nat)
    requires TimeLineAt(gcode, p, title, h, m, sec)
    requires forall j: nat :: j < p ==> TimeAt(gcode, j).None?
    ensures ValueOr(FirstMatch(gcode, TimeAt, 0), 0) == h * 3600 + m * 60 + sec
  {
    TimeLineRoundTrip(gcode, p, title, h, m, sec);
    FirstMatchAt(gcode, TimeAt, p, h * 3600 + (m * 60 + sec));
  }

  /** The same for a first time header line without the hours group. */
  lemma HeaderTimeNoHoursIsReported(gcode: string, p: nat, title: string, m: nat, sec: nat)
    requires TimeLineNoHoursAt(gcode, p, title, m, sec)
    requires forall j: nat :: j < p ==> TimeAt(gcode, j).None?
    ensures ValueOr(FirstMatch(gcode, TimeAt, 0), 0) == m * 60 + sec
  {
    TimeLineNoHoursRoundTrip(gcode, p, title, m, sec);
    FirstMatchAt(gcode, TimeAt, p, m * 60 + sec);
  }

  /** The pieces of a header line `; HEADING` + `sep` + ` ` + `w` at index `p`. */
  lemma FieldLinePieces(s: string, p: nat, heading: string, sep: string, w: string)
    requires OccursAt(s, ";" + " " + heading + sep + " " + w, p)
    ensures p + 1 < |s| && s[p] == ';' && s[p + 1] == ' '
    ensures OccursAt(s, heading, p + 2) && OccursAt(s, sep, p + 2 + |heading|)
    ensures p + 2 + |heading| + |sep| < |s| && s[p + 2 + |heading| + |sep|] == ' '
    ensures OccursAt(s, w, p + 3 + |heading| + |sep|)
  {
    Split(s, ";" + " " + heading + sep + " ", w, p);
    Split(s, ";" + " " + heading + sep, " ", p);
    Split(s, ";" + " " + heading, sep, p);
    Split(s, ";" + " ", heading, p);
    Split(s, ";", " ", p);
    CharAt(s, ';', p);
    CharAt(s, ' ', p + 1);
    CharAt(s, ' ', p + 2 + |heading| + |sep|);
  }

  /** Where the scanner's `\s*` before the colon stops, for the separators `:` and ` :`. */
  lemma ColonAt(s: string, q: nat, sep: string, spaceBeforeColon: bool)
    requires sep == ":" || (sep == " :" && spaceBeforeColon)
    requires OccursAt(s, sep, q)
    ensures var b := q + |sep| - 1; b < |s| && s[b] == ':'
    ensures (if spaceBeforeColon then SkipWs(s, q) else q) == q + |sep| - 1
  {
    if sep == ":" {
      CharAt(s, ':', q);
      if spaceBeforeColon {
        SkipWsIs(s, q, q);
      }
    } else {
      assert s[q + 0] == sep[0] && s[q + 1] == sep[1];
      SkipOneSpace(s, q);
    }
  }

  /** A capture `w` of class `cls` at `c`, not followed by a character of the class, is what `CaptureAt` takes. */
  lemma CaptureIs(s: string, c: nat, digitsOnly: bool, w: string)
    requires var cls := if digitsOnly then Digit else DigitOrDot; w != [] && forall k :: 0 <= k < |w| ==> InClass(cls, w[k])
    requires OccursAt(s, w, c)
    requires var cls := if digitsOnly then Digit else DigitOrDot; c + |w| < |s| ==> !InClass(cls, s[c + |w|])
    ensures CaptureAt(s, c, digitsOnly) == Some(w)
  {
    var cls := if digitsOnly then Digit else DigitOrDot;
    forall j | c <= j < c + |w| ensures InClass(cls, s[j]) {
      assert s[c + (j - c)] == w[j - c];
    }
    SpanEndIs(s, c, cls, c + |w|);
    assert s[c..c + |w|] == w;
  }

  /**
   * A header line `; HEADING: w` (or `; HEADING : w` where the pattern allows
   * a space before the colon) at `p`, whose value `w` is a maximal run of the
   * capture's class, yields `w` there.
   */
  lemma FieldLineRoundTrip(s: string, p: nat, heading: string, sep: string, spaceBeforeColon: bool, digitsOnly: bool, w: string)
    requires heading != [] && !IsWs(heading[0])
    requires sep == ":" || (sep == " :" && spaceBeforeColon)
    requires var cls := if digitsOnly then Digit else DigitOrDot; w != [] && forall k :: 0 <= k < |w| ==> InClass(cls, w[k])
    requires OccursAt(s, ";" + " " + heading + sep + " " + w, p)
    requires var cls := if digitsOnly then Digit else DigitOrDot; var e := p + 3 + |heading| + |sep| + |w|;
      e < |s| ==> !InClass(cls, s[e])
    ensures FieldAt(s, p, heading, spaceBeforeColon, digitsOnly) == Some(w)
  {
    var c := p + 3 + |heading| + |sep|;
    FieldLinePieces(s, p, heading, sep, w);
    assert s[p + 2 + 0] == heading[0];
    SkipWsIs(s, p + 1, p + 2);
    OccursCI(s, heading, p + 2);
    ColonAt(s, p + 2 + |heading|, sep, spaceBeforeColon);
    assert !IsWs(s[c]) by {
      assert s[c + 0] == w[0];
    }
    SkipOneSpace(s, c - 1);
    CaptureIs(s, c, digitsOnly, w);
  }

  /** The header line `; total layer number: {n}` at index `p` of `s`, not followed by a digit. */
  predicate LayerLineAt(s: string, p: nat, n: nat) {
    && OccursAt(s, ";" + " " + LayerHeading + ":" + " " + Show(n), p)
    && (p + 4 + |LayerHeading| + |Show(n)| < |s| ==> !IsDigit(s[p + 4 + |LayerHeading| + |Show(n)|]))
  }

  /** A layer header line at `p` yields `n` there. */
  lemma LayerLineRoundTrip(s: string, p: nat, n: nat)
    requires LayerLineAt(s, p, n)
    ensures LayerAt(s, p) == Some(n)
  {
    FieldLineRoundTrip(s, p, LayerHeading, ":", false, true, Show(n));
    ParseShow(n);
  }

  /** A print whose first layer header line stands at `p` reports that layer count. */
  lemma HeaderLayersAreReported(gcode: string, p: nat, n: nat)
    requires LayerLineAt(gcode, p, n)
    requires forall j: nat :: j < p ==> LayerAt(gcode, j).None?
    ensures ValueOr(FirstMatch(gcode, LayerAt, 0), 0) == n
  {
    LayerLineRoundTrip(gcode, p, n);
    FirstMatchAt(gcode, LayerAt, p, n);
  }

  /** The index just after a header value `w` that follows `; HEADING` + `sep` + ` ` at `p`. */
  function ValueEnd(p: nat, heading: string, sep: string, w: string): nat {
    p + 3 + |heading| + |sep| + |w|
  }

  /** `; total filament weight [g] : {x.toFixed(2)}` at `p`, for `x >= 0`, not followed by a digit or dot. */
  predicate WeightLineAt(s: string, p: nat, x: real) {
    && x >= 0.0
    && OccursAt(s, ";" + " " + WeightHeading + " :" + " " + Fixed2(x), p)
    && (ValueEnd(p, WeightHeading, " :", Fixed2(x)) < |s| ==> !IsNumChar(s[ValueEnd(p, WeightHeading, " :", Fixed2(x))]))
  }

  /** A weight header line at `p` yields the weight rounded to hundredths. */
  lemma WeightLineRoundTrip(s: string, p: nat, x: real)
    requires WeightLineAt(s, p, x)
    ensures WeightAt(s, p) == Some(Rounded2(x))
  {
    FieldLineRoundTrip(s, p, WeightHeading, " :", true, false, Fixed2(x));
    Fixed2RoundTrip(x);
  }

  /** A print whose first weight header line stands at `p` reports that weight. */
  lemma HeaderWeightIsReported(gcode: string, p: nat, x: real)
    requires WeightLineAt(gcode, p, x)
    requires forall j: nat :: j < p ==> WeightAt(gcode, j).None?
    ensures ValueOr(FirstMatch(gcode, WeightAt, 0), 0.0) == Rounded2(x)
  {
    WeightLineRoundTrip(gcode, p, x);
    FirstMatchAt(gcode, WeightAt, p, Rounded2(x));
  }

  /** `; total filament length [mm] : {x.toFixed(2)}` at `p`, for `x >= 0`, not followed by a digit or dot. */
  predicate LengthLineAt(s: string, p: nat, x: real) {
    && x >= 0.0
    && OccursAt(s, ";" + " " + LengthHeading + " :" + " " + Fixed2(x), p)
    && (ValueEnd(p, LengthHeading, " :", Fixed2(x)) < |s| ==> !IsNumChar(s[ValueEnd(p, LengthHeading, " :", Fixed2(x))]))
  }

  /** A length header line at `p` yields the length rounded to hundredths. */
  lemma LengthLineRoundTrip(s: string, p: nat, x: real)
    requires LengthLineAt(s, p, x)
    ensures LengthAt(s, p) == Some(Rounded2(x))
  {
    FieldLineRoundTrip(s, p, LengthHeading, " :", true, false, Fixed2(x));
    Fixed2RoundTrip(x);
  }

  /** A print whose first length header line stands at `p` reports that length. */
  lemma HeaderLengthIsReported(gcode: string, p: nat, x: real)
    requires LengthLineAt(gcode, p, x)
    requires forall j: nat :: j < p ==> LengthAt(gcode, j).None?
    ensures ValueOr(FirstMatch(gcode, LengthAt, 0), 0.0) == Rounded2(x)
  {
    LengthLineRoundTrip(gcode, p, x);
    FirstMatchAt(gcode, LengthAt, p, Rounded2(x));
  }

  /** `; max_z_height: {x.toFixed(2)}` at `p`, for `x >= 0`, not followed by a digit or dot. */
  predicate MaxZLineAt(s: string, p: nat, x: real) {
    && x >= 0.0
    && OccursAt(s, ";" + " " + MaxZHeading + ":" + " " + Fixed2(x), p)
    && (ValueEnd(p, MaxZHeading, ":", Fixed2(x)) < |s| ==> !IsNumChar(s[ValueEnd(p, MaxZHeading, ":", Fixed2(x))]))
  }

  /** A height header line at `p` yields the height rounded to hundredths. */
  lemma MaxZLineRoundTrip(s: string, p: nat, x: real)
    requires MaxZLineAt(s, p, x)
    ensures MaxZAt(s, p) == Some(Rounded2(x))
  {
    FieldLineRoundTrip(s, p, MaxZHeading, ":", false, false, Fixed2(x));
    Fixed2RoundTrip(x);
  }

  /** A print whose first height header line stands at `p` reports that height. */
  lemma HeaderMaxZIsReported(gcode: string, p: nat, x: real)
    requires MaxZLineAt(gcode, p, x)
    requires forall j: nat :: j < p ==> MaxZAt(gcode, j).None?
    ensures ValueOr(FirstMatch(gcode, MaxZAt, 0), 0.0) == Rounded2(x)
  {
    MaxZLineRoundTrip(gcode, p, x);
    FirstMatchAt(gcode, MaxZAt, p, Rounded2(x));
  }


  /** No header pattern matches anywhere in a text without a `;`. */
  lemma NoCommentNoMatch(gcode: string)
    requires ';' !in gcode
    ensures FirstMatch(gcode, TimeAt, 0).None?
    ensures FirstMatch(gcode, WeightAt, 0).None?
    ensures FirstMatch(gcode, LengthAt, 0).None?
    ensures FirstMatch(gcode, LayerAt, 0).None?
    ensures FirstMatch(gcode, MaxZAt, 0).None?
  {
    forall j: nat | j < |gcode| ensures gcode[j] != ';' {
      assert gcode[j] in gcode;
    }
  }

  /**
   * Builds the record from the header comments, field by field: each field
   * is the value of the first comment that matches its pattern, else 0.
   */
  method ParseGcodeMetadata(gcode: string) returns (md: Metadata)
    ensures md.printTimeSeconds == ValueOr(FirstMatch(gcode, TimeAt, 0), 0)
    ensures md.filamentWeightGrams == ValueOr(FirstMatch(gcode, WeightAt, 0), 0.0)
    ensures md.filamentLengthMm == ValueOr(FirstMatch(gcode, LengthAt, 0), 0.0)
    ensures md.layerCount == ValueOr(FirstMatch(gcode, LayerAt, 0), 0)
    ensures md.maxZHeight == ValueOr(FirstMatch(gcode, MaxZAt, 0), 0.0)
    ensures ';' !in gcode ==> md == Metadata(0, 0.0, 0.0, 0, 0.0)
  {
    md := Metadata(0, 0.0, 0.0, 0, 0.0);

    var timeMatch := FirstMatch(gcode, TimeAt, 0);
    if timeMatch.Some? {
      md := md.(printTimeSeconds := timeMatch.value.1);
    }
    var weightMatch := FirstMatch(gcode, WeightAt, 0);
    if weightMatch.Some? {
      md := md.(filamentWeightGrams := weightMatch.value.1);
    }
    var lengthMatch := FirstMatch(gcode, LengthAt, 0);
    if lengthMatch.Some? {
      md := md.(filamentLengthMm := lengthMatch.value.1);
    }
    var layerMatch := FirstMatch(gcode, LayerAt, 0);
    if layerMatch.Some? {
      md := md.(layerCount := layerMatch.value.1);
    }
    var zHeightMatch := FirstMatch(gcode, MaxZAt, 0);
    if zHeightMatch.Some? {
      md := md.(maxZHeight := zHeightMatch.value.1);
    }

    if ';' !in gcode {
      NoCommentNoMatch(gcode);
    }
  }

  /** A line feed occurs exactly where the character is `'\n'`. */
  lemma LineFeedOccurrences(s: string)
    ensures forall k :: OccursAt(s, "\n", k) <==> 0 <= k < |s| && s[k] == '\n'
  {
    forall k | 0 <= k < |s| ensures s[k..k + 1] == "\n" <==> s[k] == '\n' {
      assert s[k..k + 1] == [s[k]];
    }
  }

  /** The marker line holds no line feed of its own. */
  lemma MarkerHasNoLineFeed(s: string, m: nat)
    requires OccursAt(s, Marker, m)
    ensures forall k :: m <= k < m + |Marker| ==> s[k] != '\n'
  {
    forall k | m <= k < m + |Marker| ensures s[k] != '\n' {
      assert s[k] == Marker[k - m];
    }
  }

  /**
   * `gcode.indexOf(Marker)` then the index just past the first line feed at
   * or after it, or the text length when none follows; `None` where the
   * source throws.
   */
  function FindInsertionPoint(gcode: string): (r: Option<nat>)
    ensures r.None? <==> !Contains(gcode, Marker)
    ensures r.Some? ==>
      var m := IndexOf(gcode, Marker, 0).value;
      && m + |Marker| <= r.value <= |gcode|
      && (forall k :: m <= k < r.value - 1 ==> gcode[k] != '\n')
      && (r.value == |gcode| || gcode[r.value - 1] == '\n')
      && (gcode[r.value - 1] != '\n' ==> forall k :: m <= k < |gcode| ==> gcode[k] != '\n')
  {
    match IndexOf(gcode, Marker, 0)
    case None => None
    case Some(m) =>
      LineFeedOccurrences(gcode);
      MarkerHasNoLineFeed(gcode, m);
      match IndexOf(gcode, "\n", m)
      case Some(nl) => Some(nl + 1)
      case None => Some(|gcode|)
  }
}
