/**
 * The job-combination pipeline (lib/processor.ts): injecting the plate-swap
 * block after the executable block of each job, concatenating the jobs
 * copy by copy, the copy-weighted totals, and writing the combined job
 * back into the archive of the first job.
 */
module Processor {
  import opened Wrappers
  import opened Text
  import opened Numbers
  import opened GcodeParser
  import opened SliceInfo

  /** Why a pipeline step gives up (the messages of the source's `throw`s). */
  datatype ProcessError = NoJobs | MarkerNotFound | NoGcode

  /** The G-code that a plate-swap block starts with. */
  const Fingerprint: string := "G0 X-10"

  /** A tail after the marker up to this length is not taken for a plate-swap block. */
  const MinBlockLength: nat := 100

  // ---------------------------------------------------------------------
  // Swap-sequence injection

  /** The text after the first marker, trimmed; `None` when there is no marker. */
  function AfterMarker(gcode: string): (r: Option<string>)
    ensures r.None? <==> !Contains(gcode, Marker)
  {
    match IndexOf(gcode, Marker, 0)
    case None => None
    case Some(m) => Some(Trim(gcode[m + |Marker|..]))
  }

  /** `hasSwapSequence`: a long tail after the first marker that holds the fingerprint. */
  predicate HasSwapSequence(gcode: string)
    ensures HasSwapSequence(gcode) ==> Contains(gcode, Marker) && Contains(gcode, Fingerprint)
    ensures HasSwapSequence(gcode) ==> |gcode| > |Marker| + MinBlockLength
  {
    match AfterMarker(gcode)
    case None => false
    case Some(after) =>
      var e := IndexOf(gcode, Marker, 0).value + |Marker|;
      if |after| > MinBlockLength && Contains(after, Fingerprint) then
        ContainsInTrimmed(gcode[e..], Fingerprint);
        ContainsInSuffix(gcode, e, Fingerprint);
        true
      else false
  }

  /**
   * Where the block goes: the point `findInsertionPoint` computes, moved
   * past one more line feed when one stands there.
   */
  function SwapPoint(gcode: string): (r: Option<nat>)
    ensures r.None? <==> !Contains(gcode, Marker)
    ensures r.Some? ==> r.value <= |gcode|
  {
    match FindInsertionPoint(gcode)
    case None => None
    case Some(p) => Some(if p < |gcode| && gcode[p] == '\n' then p + 1 else p)
  }

  /**
   * `ensureSwapSequence` as a value: a text that already has a block is only
   * given its blank-line ending; otherwise the text is cut at the swap point
   * and the trimmed block follows; without a marker it fails.
   */
  function Injected(gcode: string, swapSequence: string): (r: Result<string, ProcessError>)
    ensures r.Ok? ==> Contains(gcode, Marker)
    ensures r.Ok? ==>
      var e := IndexOf(gcode, Marker, 0).value + |Marker|;
      e <= |r.value| && r.value[..e] == gcode[..e]
  {
    if HasSwapSequence(gcode) then
      MarkerKeptByTrimEnd(gcode);
      Ok(TrimEnd(gcode) + "\n\n")
    else match SwapPoint(gcode)
      case None => Err(MarkerNotFound)
      case Some(p) =>
        var e := IndexOf(gcode, Marker, 0).value + |Marker|;
        CutAndAppend(gcode, p, e, TrimEnd(swapSequence), "\n\n");
        assert (gcode[..p] + TrimEnd(swapSequence) + "\n\n")[..e] == gcode[..p][..e];
        Ok(gcode[..p] + TrimEnd(swapSequence) + "\n\n")
  }

  /** Trimming the end of a text never reaches into its first marker. */
  lemma MarkerKeptByTrimEnd(gcode: string)
    requires Contains(gcode, Marker)
    ensures var e := IndexOf(gcode, Marker, 0).value + |Marker|;
      e <= |TrimEnd(gcode)| && (TrimEnd(gcode) + "\n\n")[..e] == gcode[..e]
  {
    var t := TrimEnd(gcode);
    var e := IndexOf(gcode, Marker, 0).value + |Marker|;
    MarkerEndsSolid();
    assert gcode[e - 1] == Marker[|Marker| - 1];
    assert e <= |t|;
    assert (t + "\n\n")[..e] == t[..e];
  }

  /**
   * `ensureSwapSequence`, step by step: the marker, the line feed after it,
   * and one optional blank line decide where the block goes.
   */
  method EnsureSwapSequence(gcode: string, swapSequence: string) returns (r: Result<string, ProcessError>)
    ensures r == Injected(gcode, swapSequence)
  {
    if HasSwapSequence(gcode) {
      return Ok(TrimEnd(gcode) + "\n\n");
    }
    var markerIndex := IndexOf(gcode, Marker, 0);
    if markerIndex.None? {
      return Err(MarkerNotFound);
    }
    var insertPoint: nat;
    var lineEnd := IndexOf(gcode, "\n", markerIndex.value);
    if lineEnd.None? {
      insertPoint := |gcode|;
    } else {
      insertPoint := lineEnd.value + 1;
    }
    if insertPoint < |gcode| && gcode[insertPoint] == '\n' {
      insertPoint := insertPoint + 1;
    }
    return Ok(gcode[..insertPoint] + TrimEnd(swapSequence) + "\n\n");
  }

  /** Injection fails exactly when the marker is missing. */
  lemma InjectedFailsWithoutMarker(gcode: string, swapSequence: string)
    ensures Injected(gcode, swapSequence).Err? <==> !Contains(gcode, Marker)
    ensures Injected(gcode, swapSequence).Err? ==> Injected(gcode, swapSequence).error == MarkerNotFound
  {
  }

  /** Every injected text ends with a blank line, so the next job starts on a line of its own. */
  lemma InjectedEndsWithBlankLine(gcode: string, swapSequence: string)
    requires Injected(gcode, swapSequence).Ok?
    ensures var r := Injected(gcode, swapSequence).value;
      |r| >= 2 && r[|r| - 2..] == "\n\n"
  {
  }

  /**
   * When no block is present, the text up to the swap point is kept, the
   * block follows, and nothing after the swap point survives; the swap
   * point is the end of the marker's line or one line feed further.
   */
  lemma InjectedCutsAtSwapPoint(gcode: string, swapSequence: string)
    requires !HasSwapSequence(gcode) && Contains(gcode, Marker)
    ensures var p := SwapPoint(gcode).value;
      var q := FindInsertionPoint(gcode).value;
      && Injected(gcode, swapSequence) == Ok(gcode[..p] + TrimEnd(swapSequence) + "\n\n")
      && (p == q || p == q + 1)
      && (p == q + 1 <==> q < |gcode| && gcode[q] == '\n')
      && IndexOf(gcode, Marker, 0).value + |Marker| <= p
  {
  }

  /** The marker ends in a non-space. */
  lemma MarkerEndsSolid()
    ensures |Marker| > 0 && !IsWs(Marker[|Marker| - 1])
  {
  }

  /** A text and any text that keeps its first `p` characters have the same first marker, if it ends within them. */
  lemma SameMarker(g: string, r: string, p: nat)
    requires p <= |g| && p <= |r| && g[..p] == r[..p]
    requires Contains(g, Marker) && IndexOf(g, Marker, 0).value + |Marker| <= p
    ensures IndexOf(r, Marker, 0) == IndexOf(g, Marker, 0)
  {
    IndexOfSharedPrefix(g, r, Marker, p);
  }

  /** Replacing trailing whitespace does not change what follows the marker, once trimmed. */
  lemma AfterMarkerTrailingWs(gcode: string, w: string)
    requires Contains(gcode, Marker) && AllWs(w)
    ensures AfterMarker(TrimEnd(gcode) + w) == AfterMarker(gcode)
  {
    var t := TrimEnd(gcode);
    var r := t + w;
    var m := IndexOf(gcode, Marker, 0).value;
    var e := m + |Marker|;
    MarkerEndsSolid();
    assert gcode[e - 1] == Marker[|Marker| - 1];
    assert e <= |t|;
    assert gcode[..|t|] == r[..|t|];
    SameMarker(gcode, r, |t|);
    assert gcode[e..] == t[e..] + gcode[|t|..];
    assert r[e..] == t[e..] + w;
    assert AllWs(gcode[|t|..]);
    TrimAppendWs(t[e..], gcode[|t|..]);
    TrimAppendWs(t[e..], w);
  }

  /** So it does not change whether a block is recognised. */
  lemma HasSwapSequenceTrailingWs(gcode: string, w: string)
    requires Contains(gcode, Marker) && AllWs(w)
    ensures HasSwapSequence(TrimEnd(gcode) + w) == HasSwapSequence(gcode)
  {
    AfterMarkerTrailingWs(gcode, w);
  }

  /** Cutting `g` at `p` and appending `u` and `v` keeps `g`'s first `p` elements and, from `e` on, its elements up to `p`. */
  lemma CutAndAppend<T>(g: seq<T>, p: nat, e: nat, u: seq<T>, v: seq<T>)
    requires e <= p <= |g|
    ensures (g[..p] + u + v)[..p] == g[..p]
    ensures (g[..p] + u + v)[e..] == g[e..p] + u + v
  {
  }

  /**
   * A block whose trimmed text is long enough and holds the fingerprint is
   * recognised once it has been injected.
   */
  lemma InjectedBlockRecognised(gcode: string, swapSequence: string)
    requires Contains(gcode, Marker)
    requires |Trim(swapSequence)| > MinBlockLength && Contains(Trim(swapSequence), Fingerprint)
    ensures HasSwapSequence(Injected(gcode, swapSequence).value)
  {
    if !HasSwapSequence(gcode) {
      var p := SwapPoint(gcode).value;
      var r := gcode[..p] + TrimEnd(swapSequence) + "\n\n";
      var m := IndexOf(gcode, Marker, 0).value;
      var e := m + |Marker|;
      CutAndAppend(gcode, p, e, TrimEnd(swapSequence), "\n\n");
      SameMarker(gcode, r, p);
      TrimKeepsTrimmedTail(gcode[e..p], swapSequence, "\n\n");
      var lead := TrimStart(gcode[e..p] + TrimEnd(swapSequence)[..|TrimEnd(swapSequence)| - |Trim(swapSequence)|]);
      assert Trim(r[e..]) == lead + Trim(swapSequence);
      ContainsInfix(lead, Trim(swapSequence), [], Fingerprint);
      assert lead + Trim(swapSequence) + [] == lead + Trim(swapSequence);
    } else {
      HasSwapSequenceTrailingWs(gcode, "\n\n");
    }
  }

  /**
   * Injecting again changes nothing once a block is recognised, provided the
   * first injection left a non-space before the final blank line (always so
   * when the block was already present, or when the block is not blank).
   */
  lemma InjectionIdempotent(gcode: string, swapSequence: string, again: string)
    requires Injected(gcode, swapSequence).Ok?
    requires HasSwapSequence(gcode) || (TrimEnd(swapSequence) != [] && HasSwapSequence(Injected(gcode, swapSequence).value))
    ensures Injected(Injected(gcode, swapSequence).value, again) == Injected(gcode, swapSequence)
  {
    var r := Injected(gcode, swapSequence).value;
    if HasSwapSequence(gcode) {
      HasSwapSequenceTrailingWs(gcode, "\n\n");
      TrimEndAppendWs(TrimEnd(gcode), "\n\n");
      TrimEndTwice(gcode);
    } else {
      var p := SwapPoint(gcode).value;
      var x := gcode[..p] + TrimEnd(swapSequence);
      assert x[|x| - 1] == TrimEnd(swapSequence)[|TrimEnd(swapSequence)| - 1];
      TrimEndIs(x, |x|);
      TrimEndAppendWs(x, "\n\n");
    }
  }

  // ---------------------------------------------------------------------
  // Jobs, combination and the copy-weighted totals

  /**
   * A job as `parse3MF` builds it: its name, G-code, header metadata,
   * plate descriptor, number of copies and the archive it came from.
   */
  datatype PrintJob = PrintJob(
    name: string,
    gcode: string,
    metadata: Metadata,
    sliceInfoXml: string,
    copies: int,
    archive: Archive)

  /** `n` copies of `s` one after the other; none when `n` is not positive. */
  function Repeat(s: string, n: int): (r: string)
    decreases if n < 0 then 0 else n
  {
    if n <= 0 then [] else Repeat(s, n - 1) + s
  }

  /** `n` copies are `n` times as long as one. */
  lemma {:induction false} RepeatLength(s: string, n: int)
    decreases if n < 0 then 0 else n
    ensures |Repeat(s, n)| == (if n <= 0 then 0 else n * |s|)
  {
    if n > 0 {
      RepeatLength(s, n - 1);
    }
  }

  /** One more copy at the end. */
  lemma AppendRepeat(before: string, s: string, n: nat)
    ensures before + Repeat(s, n) + s == before + Repeat(s, n + 1)
  {
    assert Repeat(s, n + 1) == Repeat(s, n) + s;
  }

  /**
   * Job after job, the text `inject` makes of each job's G-code, repeated
   * `copies` times; the first job that `inject` rejects makes it fail.
   */
  function CombinedBy(jobs: seq<PrintJob>, inject: string -> Result<string, ProcessError>): (r: Result<string, ProcessError>)
    decreases |jobs|
    ensures r.Ok? <==> forall i :: 0 <= i < |jobs| ==> inject(jobs[i].gcode).Ok?
    ensures r.Err? ==>
      exists i :: 0 <= i < |jobs| && inject(jobs[i].gcode) == Err(r.error) && forall j :: 0 <= j < i ==> inject(jobs[j].gcode).Ok?
  {
    if jobs == [] then Ok([])
    else
      var init := jobs[..|jobs| - 1];
      assert forall k :: 0 <= k < |init| ==> init[k] == jobs[k];
      match CombinedBy(init, inject)
      case Err(e) => Err(e)
      case Ok(c) =>
        var last := jobs[|jobs| - 1];
        match inject(last.gcode)
        case Err(e) => Err(e)
        case Ok(g) => Ok(c + Repeat(g, last.copies))
  }

  /** `ensureSwapSequence` with a fixed block, as the step `combineGcode` applies to each job. */
  function InjectWith(swapSequence: string): string -> Result<string, ProcessError> {
    g => Injected(g, swapSequence)
  }

  /** `combineGcode` as a value. */
  function Combined(jobs: seq<PrintJob>, swapSequence: string): (r: Result<string, ProcessError>)
    ensures r.Err? ==> r.error == MarkerNotFound
    ensures r.Err? ==>
      exists i :: 0 <= i < |jobs| && !Contains(jobs[i].gcode, Marker) && forall j :: 0 <= j < i ==> Contains(jobs[j].gcode, Marker)
  {
    CombinedBy(jobs, InjectWith(swapSequence))
  }

  /** The inner loop of `combineGcode`: `text` appended once per copy. */
  method AppendCopies(combined: string, text: string, copies: int) returns (r: string)
    ensures r == combined + Repeat(text, copies)
  {
    r := combined;
    var copy := 0;
    while copy < copies
      invariant 0 <= copy && (copy <= copies || copy == 0)
      invariant r == combined + Repeat(text, copy)
    {
      AppendRepeat(combined, text, copy);
      r := r + text;
      copy := copy + 1;
    }
  }

  /** `combineGcode`: two nested loops appending each job's injected text once per copy. */
  method CombineGcode(jobs: seq<PrintJob>, swapSequence: string) returns (r: Result<string, ProcessError>)
    ensures r == Combined(jobs, swapSequence)
  {
    ghost var inject := InjectWith(swapSequence);
    var combined := [];
    var i := 0;
    while i < |jobs|
      invariant 0 <= i <= |jobs|
      invariant CombinedBy(jobs[..i], inject) == Ok(combined)
    {
      var job := jobs[i];
      var gcodeWithSwap := EnsureSwapSequence(job.gcode, swapSequence);
      CombinedByNext(jobs, i, inject, gcodeWithSwap);
      if gcodeWithSwap.Err? {
        CombinedByStopsAtFailure(jobs, inject, i + 1);
        return Err(gcodeWithSwap.error);
      }
      combined := AppendCopies(combined, gcodeWithSwap.value, job.copies);
      i := i + 1;
    }
    assert jobs[..|jobs|] == jobs;
    return Ok(combined);
  }

  /** The combination of the first `i + 1` jobs extends that of the first `i` by the copies of job `i`. */
  lemma CombinedByNext(jobs: seq<PrintJob>, i: nat, inject: string -> Result<string, ProcessError>, g: Result<string, ProcessError>)
    requires i < |jobs| && CombinedBy(jobs[..i], inject).Ok? && inject(jobs[i].gcode) == g
    ensures g.Err? ==> CombinedBy(jobs[..i + 1], inject) == Err(g.error)
    ensures g.Ok? ==> CombinedBy(jobs[..i + 1], inject) == Ok(CombinedBy(jobs[..i], inject).value + Repeat(g.value, jobs[i].copies))
  {
    assert jobs[..i + 1][..i] == jobs[..i];
  }

  /** A failure among the first `n` jobs is the failure of all of them. */
  lemma {:induction false} CombinedByStopsAtFailure(jobs: seq<PrintJob>, inject: string -> Result<string, ProcessError>, n: nat)
    requires n <= |jobs| && CombinedBy(jobs[..n], inject).Err?
    decreases |jobs| - n
    ensures CombinedBy(jobs, inject) == CombinedBy(jobs[..n], inject)
  {
    if n < |jobs| {
      assert jobs[..n + 1][..n] == jobs[..n];
      CombinedByStopsAtFailure(jobs, inject, n + 1);
    } else {
      assert jobs[..n] == jobs;
    }
  }

  /** Combination succeeds exactly when every job has a marker; otherwise the marker is what is missing. */
  lemma CombinedOkIff(jobs: seq<PrintJob>, swapSequence: string)
    ensures Combined(jobs, swapSequence).Ok? <==> forall i :: 0 <= i < |jobs| ==> Contains(jobs[i].gcode, Marker)
    ensures Combined(jobs, swapSequence).Err? ==> Combined(jobs, swapSequence).error == MarkerNotFound
  {
    var inject := InjectWith(swapSequence);
    forall i | 0 <= i < |jobs| ensures inject(jobs[i].gcode).Ok? <==> Contains(jobs[i].gcode, Marker) {
      InjectedFailsWithoutMarker(jobs[i].gcode, swapSequence);
    }
    CombinedByFailsWith(jobs, inject, MarkerNotFound);
  }

  /** When every rejection carries one error, so does a failed combination. */
  lemma {:induction false} CombinedByFailsWith(jobs: seq<PrintJob>, inject: string -> Result<string, ProcessError>, e: ProcessError)
    requires forall g :: inject(g).Err? ==> inject(g).error == e
    decreases |jobs|
    ensures CombinedBy(jobs, inject).Err? ==> CombinedBy(jobs, inject).error == e
  {
    if jobs != [] {
      CombinedByFailsWith(jobs[..|jobs| - 1], inject, e);
    }
  }

  /**
   * Combining two lists of jobs is combining each and concatenating: all
   * copies of an earlier job come before any copy of a later one.
   */
  lemma {:induction false} CombinedByAppend(a: seq<PrintJob>, b: seq<PrintJob>, inject: string -> Result<string, ProcessError>)
    requires CombinedBy(a, inject).Ok? && CombinedBy(b, inject).Ok?
    decreases |b|
    ensures CombinedBy(a + b, inject) == Ok(CombinedBy(a, inject).value + CombinedBy(b, inject).value)
  {
    if b == [] {
      assert a + b == a;
      assert CombinedBy(a, inject).value + [] == CombinedBy(a, inject).value;
    } else {
      var init, last := b[..|b| - 1], b[|b| - 1];
      CombinedByLast(b, inject);
      CombinedByAppend(a, init, inject);
      assert b == init + [last];
      CombinedByAppendOne(a, init, last, inject);
    }
  }

  /** The step of `CombinedByAppend`: one more job on the right of both sides. */
  lemma CombinedByAppendOne(a: seq<PrintJob>, init: seq<PrintJob>, last: PrintJob, inject: string -> Result<string, ProcessError>)
    requires CombinedBy(a, inject).Ok? && CombinedBy(init, inject).Ok? && inject(last.gcode).Ok?
    requires CombinedBy(a + init, inject) == Ok(CombinedBy(a, inject).value + CombinedBy(init, inject).value)
    ensures CombinedBy(a + (init + [last]), inject)
      == Ok(CombinedBy(a, inject).value + CombinedBy(init + [last], inject).value)
  {
    CombinedBySnoc(a + init, last, inject);
    CombinedBySnoc(init, last, inject);
    AppendAssociates(a, init, [last]);
    AppendAssociates(CombinedBy(a, inject).value, CombinedBy(init, inject).value, Repeat(inject(last.gcode).value, last.copies));
  }

  /** Concatenation is associative. */
  lemma AppendAssociates<T>(x: seq<T>, y: seq<T>, z: seq<T>)
    ensures x + (y + z) == x + y + z
  {
  }

  /** An accepted combination ends with the copies of its last job, which was accepted too. */
  lemma CombinedByLast(jobs: seq<PrintJob>, inject: string -> Result<string, ProcessError>)
    requires jobs != [] && CombinedBy(jobs, inject).Ok?
    ensures CombinedBy(jobs[..|jobs| - 1], inject).Ok? && inject(jobs[|jobs| - 1].gcode).Ok?
    ensures CombinedBy(jobs, inject).value
      == CombinedBy(jobs[..|jobs| - 1], inject).value + Repeat(inject(jobs[|jobs| - 1].gcode).value, jobs[|jobs| - 1].copies)
  {
  }

  /** Accepting one more job appends its copies. */
  lemma CombinedBySnoc(jobs: seq<PrintJob>, job: PrintJob, inject: string -> Result<string, ProcessError>)
    requires CombinedBy(jobs, inject).Ok? && inject(job.gcode).Ok?
    ensures CombinedBy(jobs + [job], inject) == Ok(CombinedBy(jobs, inject).value + Repeat(inject(job.gcode).value, job.copies))
  {
    assert (jobs + [job])[..|jobs|] == jobs;
  }

  /**
   * Where job `i` sits in the combined text: after the copies of the jobs
   * before it, and followed by the copies of the jobs after it.
   */
  lemma CombinedAroundJob(jobs: seq<PrintJob>, inject: string -> Result<string, ProcessError>, i: nat)
    requires i < |jobs| && CombinedBy(jobs, inject).Ok?
    ensures inject(jobs[i].gcode).Ok?
    ensures CombinedBy(jobs[..i], inject).Ok? && CombinedBy(jobs[i + 1..], inject).Ok?
    ensures CombinedBy(jobs, inject).value ==
      CombinedBy(jobs[..i], inject).value
      + Repeat(inject(jobs[i].gcode).value, jobs[i].copies)
      + CombinedBy(jobs[i + 1..], inject).value
  {
    var front, back := jobs[..i], jobs[i + 1..];
    CombinedBySnoc([], jobs[i], inject);
    assert [] + [jobs[i]] == [jobs[i]];
    AppendEmpty(Repeat(inject(jobs[i].gcode).value, jobs[i].copies));
    CombinedByAppend(front, [jobs[i]], inject);
    CombinedByAppend(front + [jobs[i]], back, inject);
    SplitAround(jobs, i);
  }

  /** A sequence is its part before `i`, element `i` and its part after `i`. */
  lemma SplitAround<T>(xs: seq<T>, i: nat)
    requires i < |xs|
    ensures xs[..i] + [xs[i]] + xs[i + 1..] == xs
  {
  }

  lemma AppendEmpty<T>(x: seq<T>)
    ensures [] + x == x
  {
  }

  /** The copy-weighted sum of the lengths of the accepted texts. */
  function WeightedLength(jobs: seq<PrintJob>, inject: string -> Result<string, ProcessError>): int
    decreases |jobs|
  {
    if jobs == [] then 0
    else
      var last := jobs[|jobs| - 1];
      var n := match inject(last.gcode) case Ok(g) => |g| case Err(_) => 0;
      WeightedLength(jobs[..|jobs| - 1], inject) + (if last.copies <= 0 then 0 else last.copies * n)
  }

  /** The combined text is as long as the copy-weighted sum of the injected texts. */
  lemma {:induction false} CombinedLength(jobs: seq<PrintJob>, inject: string -> Result<string, ProcessError>)
    requires CombinedBy(jobs, inject).Ok?
    decreases |jobs|
    ensures |CombinedBy(jobs, inject).value| == WeightedLength(jobs, inject)
  {
    if jobs != [] {
      var last := jobs[|jobs| - 1];
      CombinedLength(jobs[..|jobs| - 1], inject);
      RepeatLength(inject(last.gcode).value, last.copies);
    }
  }

  /** `xs.reduce((sum, x) => sum + f(x), 0)`. */
  function SumBy<T>(xs: seq<T>, f: T -> int): int
    decreases |xs|
  {
    if xs == [] then 0 else SumBy(xs[..|xs| - 1], f) + f(xs[|xs| - 1])
  }

  /** The same sum over floating-point terms. */
  function RealSumBy<T>(xs: seq<T>, f: T -> real): real
    decreases |xs|
  {
    if xs == [] then 0.0 else RealSumBy(xs[..|xs| - 1], f) + f(xs[|xs| - 1])
  }

  /** A sum over one more element adds that element's term. */
  lemma RealSumBySnoc<T>(xs: seq<T>, i: nat, f: T -> real)
    requires i < |xs|
    ensures RealSumBy(xs[..i + 1], f) == RealSumBy(xs[..i], f) + f(xs[i])
  {
    assert xs[..i + 1][..i] == xs[..i];
  }

  /** Sums over two lists add up. */
  lemma {:induction false} SumByAppend<T>(a: seq<T>, b: seq<T>, f: T -> int)
    decreases |b|
    ensures SumBy(a + b, f) == SumBy(a, f) + SumBy(b, f)
  {
    if b == [] {
      assert a + b == a;
    } else {
      var init := b[..|b| - 1];
      assert (a + b)[..|a + b| - 1] == a + init;
      assert (a + b)[|a + b| - 1] == b[|b| - 1];
      SumByAppend(a, init, f);
    }
  }

  /** The same for sums of floating-point terms. */
  lemma {:induction false} RealSumByAppend<T>(a: seq<T>, b: seq<T>, f: T -> real)
    decreases |b|
    ensures RealSumBy(a + b, f) == RealSumBy(a, f) + RealSumBy(b, f)
  {
    if b == [] {
      assert a + b == a;
    } else {
      var init := b[..|b| - 1];
      assert (a + b)[..|a + b| - 1] == a + init;
      assert (a + b)[|a + b| - 1] == b[|b| - 1];
      RealSumByAppend(a, init, f);
    }
  }

  /** A sum is linear in each term: replacing element `i` moves it by the difference of the terms. */
  lemma SumByUpdate<T>(xs: seq<T>, i: nat, y: T, f: T -> int)
    requires i < |xs|
    ensures SumBy(xs[i := y], f) == SumBy(xs, f) + (f(y) - f(xs[i]))
  {
    var front, back := xs[..i], xs[i + 1..];
    assert xs == front + [xs[i]] + back;
    assert xs[i := y] == front + [y] + back;
    assert [xs[i]][..0] == [] && [y][..0] == [];
    SumByAppend(front, [xs[i]], f);
    SumByAppend(front + [xs[i]], back, f);
    SumByAppend(front, [y], f);
    SumByAppend(front + [y], back, f);
  }

  /** The same for sums of floating-point terms. */
  lemma RealSumByUpdate<T>(xs: seq<T>, i: nat, y: T, f: T -> real)
    requires i < |xs|
    ensures RealSumBy(xs[i := y], f) == RealSumBy(xs, f) + (f(y) - f(xs[i]))
  {
    var front, back := xs[..i], xs[i + 1..];
    assert xs == front + [xs[i]] + back;
    assert xs[i := y] == front + [y] + back;
    assert [xs[i]][..0] == [] && [y][..0] == [];
    RealSumByAppend(front, [xs[i]], f);
    RealSumByAppend(front + [xs[i]], back, f);
    RealSumByAppend(front, [y], f);
    RealSumByAppend(front + [y], back, f);
  }

  /** The print time of one job's copies. */
  function JobTime(job: PrintJob): int {
    job.metadata.printTimeSeconds * job.copies
  }

  /** One plate swap per copy. */
  function JobSwaps(job: PrintJob): int {
    job.copies
  }

  /** A per-plate figure times the number of copies. */
  function PerCopy(x: real, copies: int): real {
    x * copies as real
  }

  /** The grams of filament one plate takes, as the descriptor states them. */
  function Grams(sliceInfoXml: string): real {
    ParseSliceInfo(sliceInfoXml).usedG
  }

  /** The metres of filament one plate takes, as the descriptor states them. */
  function Metres(sliceInfoXml: string): real {
    ParseSliceInfo(sliceInfoXml).usedM
  }

  /** A job's share of a filament total: the per-plate figure of its descriptor times its copies. */
  function Scaled(perPlate: string -> real): PrintJob -> real {
    (job: PrintJob) => PerCopy(perPlate(job.sliceInfoXml), job.copies)
  }

  /** Giving job `i` `c` copies moves a filament total by its per-plate figure times the difference. */
  lemma ScaledUpdate(jobs: seq<PrintJob>, i: nat, c: int, perPlate: string -> real)
    requires i < |jobs|
    ensures RealSumBy(jobs[i := jobs[i].(copies := c)], Scaled(perPlate))
      == RealSumBy(jobs, Scaled(perPlate)) + perPlate(jobs[i].sliceInfoXml) * (c - jobs[i].copies) as real
  {
    RealSumByUpdate(jobs, i, jobs[i].(copies := c), Scaled(perPlate));
  }

  /** Every job has at least one copy. */
  predicate AllCopied(jobs: seq<PrintJob>) {
    forall i :: 0 <= i < |jobs| ==> jobs[i].copies >= 1
  }

  /** `calculateTotalTime`. */
  function TotalTime(jobs: seq<PrintJob>): (r: int)
    ensures (forall i :: 0 <= i < |jobs| ==> jobs[i].copies >= 0) ==> r >= 0
  {
    SumByNonNegative(jobs, JobTime);
    SumBy(jobs, JobTime)
  }

  /** `calculatePlateSwaps`. */
  function PlateSwaps(jobs: seq<PrintJob>): (r: int)
    ensures AllCopied(jobs) ==> r >= |jobs|
    ensures (forall i :: 0 <= i < |jobs| ==> jobs[i].copies == 1) ==> r == |jobs|
  {
    SumByAtLeastLength(jobs, JobSwaps);
    SumByOnes(jobs, JobSwaps);
    SumBy(jobs, JobSwaps)
  }

  /** The filament totals `calculateTotalFilament` accumulates. */
  function Filament(jobs: seq<PrintJob>): (r: Usage)
    ensures (forall i :: 0 <= i < |jobs| ==> jobs[i].copies >= 0) ==> r.usedG >= 0.0 && r.usedM >= 0.0
  {
    ScaledNonNegative(jobs);
    RealSumByNonNegative(jobs, Scaled(Grams));
    RealSumByNonNegative(jobs, Scaled(Metres));
    Usage(RealSumBy(jobs, Scaled(Grams)), RealSumBy(jobs, Scaled(Metres)))
  }

  /** With no negative copy count, no job uses a negative amount of filament. */
  lemma ScaledNonNegative(jobs: seq<PrintJob>)
    ensures (forall i :: 0 <= i < |jobs| ==> jobs[i].copies >= 0) ==>
      forall i :: 0 <= i < |jobs| ==> Scaled(Grams)(jobs[i]) >= 0.0 && Scaled(Metres)(jobs[i]) >= 0.0
  {
    forall i | 0 <= i < |jobs| && jobs[i].copies >= 0
      ensures Scaled(Grams)(jobs[i]) >= 0.0 && Scaled(Metres)(jobs[i]) >= 0.0
    {
      PerCopyNonNegative(Grams(jobs[i].sliceInfoXml), jobs[i].copies);
      PerCopyNonNegative(Metres(jobs[i].sliceInfoXml), jobs[i].copies);
    }
  }

  lemma PerCopyNonNegative(x: real, copies: int)
    requires x >= 0.0 && copies >= 0
    ensures PerCopy(x, copies) >= 0.0
  {
  }

  /** A sum of terms that are never negative is never negative. */
  lemma {:induction false} SumByNonNegative<T>(xs: seq<T>, f: T -> int)
    decreases |xs|
    ensures (forall i :: 0 <= i < |xs| ==> f(xs[i]) >= 0) ==> SumBy(xs, f) >= 0
  {
    if xs != [] {
      SumByNonNegative(xs[..|xs| - 1], f);
    }
  }

  /** A sum of terms that are all at least 1 is at least the number of terms. */
  lemma {:induction false} SumByAtLeastLength<T>(xs: seq<T>, f: T -> int)
    decreases |xs|
    ensures (forall i :: 0 <= i < |xs| ==> f(xs[i]) >= 1) ==> SumBy(xs, f) >= |xs|
  {
    if xs != [] {
      SumByAtLeastLength(xs[..|xs| - 1], f);
    }
  }

  /** A sum of ones counts its terms. */
  lemma {:induction false} SumByOnes<T>(xs: seq<T>, f: T -> int)
    decreases |xs|
    ensures (forall i :: 0 <= i < |xs| ==> f(xs[i]) == 1) ==> SumBy(xs, f) == |xs|
  {
    if xs != [] {
      SumByOnes(xs[..|xs| - 1], f);
    }
  }

  /** The same for sums of floating-point terms. */
  lemma {:induction false} RealSumByNonNegative<T>(xs: seq<T>, f: T -> real)
    decreases |xs|
    ensures (forall i :: 0 <= i < |xs| ==> f(xs[i]) >= 0.0) ==> RealSumBy(xs, f) >= 0.0
  {
    if xs != [] {
      RealSumByNonNegative(xs[..|xs| - 1], f);
    }
  }

  /** `calculateTotalFilament`: the loop that accumulates grams and metres. */
  method CalculateTotalFilament(jobs: seq<PrintJob>) returns (totalGrams: real, totalMeters: real)
    ensures Usage(totalGrams, totalMeters) == Filament(jobs)
  {
    totalGrams, totalMeters := 0.0, 0.0;
    var i := 0;
    while i < |jobs|
      invariant 0 <= i <= |jobs|
      invariant totalGrams == RealSumBy(jobs[..i], Scaled(Grams))
      invariant totalMeters == RealSumBy(jobs[..i], Scaled(Metres))
    {
      var sliceInfo := ParseSliceInfo(jobs[i].sliceInfoXml);
      var grams, meters := PerCopy(sliceInfo.usedG, jobs[i].copies), PerCopy(sliceInfo.usedM, jobs[i].copies);
      RealSumBySnoc(jobs, i, Scaled(Grams));
      RealSumBySnoc(jobs, i, Scaled(Metres));
      totalGrams := totalGrams + grams;
      totalMeters := totalMeters + meters;
      i := i + 1;
    }
    assert jobs[..|jobs|] == jobs;
  }

  /** The totals of two lists of jobs add up. */
  lemma TotalsAppend(a: seq<PrintJob>, b: seq<PrintJob>)
    ensures TotalTime(a + b) == TotalTime(a) + TotalTime(b)
    ensures PlateSwaps(a + b) == PlateSwaps(a) + PlateSwaps(b)
    ensures Filament(a + b).usedG == Filament(a).usedG + Filament(b).usedG
    ensures Filament(a + b).usedM == Filament(a).usedM + Filament(b).usedM
  {
    SumByAppend(a, b, JobTime);
    SumByAppend(a, b, JobSwaps);
    RealSumByAppend(a, b, Scaled(Grams));
    RealSumByAppend(a, b, Scaled(Metres));
  }

  /**
   * The time and swap totals are linear in the copies of any one job: giving
   * job `i` `c` copies instead moves them by that job's share of the difference.
   */
  lemma TotalsLinearInCopies(jobs: seq<PrintJob>, i: nat, c: int)
    requires i < |jobs|
    ensures TotalTime(jobs[i := jobs[i].(copies := c)])
      == TotalTime(jobs) + jobs[i].metadata.printTimeSeconds * (c - jobs[i].copies)
    ensures PlateSwaps(jobs[i := jobs[i].(copies := c)]) == PlateSwaps(jobs) + (c - jobs[i].copies)
  {
    var job' := jobs[i].(copies := c);
    SumByUpdate(jobs, i, job', JobTime);
    SumByUpdate(jobs, i, job', JobSwaps);
    var t := jobs[i].metadata.printTimeSeconds;
    assert t * c - t * jobs[i].copies == t * (c - jobs[i].copies);
  }

  // ---------------------------------------------------------------------
  // The archive

  /**
   * A 3MF archive as the entries it holds: the content of each entry by name,
   * and the names in the order in which the archive lists them.
   */
  class Archive {
    var entries: map<string, string>
    var names: seq<string>

    /** Every entry is listed exactly once. */
    ghost predicate Valid()
      reads this
    {
      && (forall n :: n in entries <==> n in names)
      && (forall i, j :: 0 <= i < j < |names| ==> names[i] != names[j])
    }

    constructor Empty()
      ensures Valid() && entries == map[] && names == []
    {
      entries := map[];
      names := [];
    }

    /** `zip.file(name, content)`: overwrite an entry in place, or add it at the end of the listing. */
    method Put(name: string, content: string)
      requires Valid()
      modifies this
      ensures Valid()
      ensures entries == old(entries)[name := content]
      ensures names == if name in old(entries) then old(names) else old(names) + [name]
    {
      if name !in entries {
        names := names + [name];
      }
      entries := entries[name := content];
    }
  }

  /** The index of the first path that names an entry. */
  function FirstPresent(entries: map<string, string>, paths: seq<string>): (r: Option<nat>)
    ensures r.Some? ==> r.value < |paths| && paths[r.value] in entries
    ensures r.Some? ==> forall j :: 0 <= j < r.value ==> paths[j] !in entries
    ensures r.None? ==> forall j :: 0 <= j < |paths| ==> paths[j] !in entries
  {
    if paths == [] then None
    else if paths[0] in entries then Some(0)
    else match FirstPresent(entries, paths[1..])
      case None => None
      case Some(k) => Some(k + 1)
  }

  /** `names.find(f => f.toLowerCase() === lowerPath)`: the first name whose lower case is `lowerPath`. */
  function FindLowered(names: seq<string>, lowerPath: string): (r: Option<nat>)
    ensures r.Some? ==> r.value < |names| && ToLower(names[r.value]) == lowerPath
    ensures r.Some? ==> forall j :: 0 <= j < r.value ==> ToLower(names[j]) != lowerPath
    ensures r.None? ==> forall j :: 0 <= j < |names| ==> ToLower(names[j]) != lowerPath
  {
    if names == [] then None
    else if ToLower(names[0]) == lowerPath then Some(0)
    else match FindLowered(names[1..], lowerPath)
      case None => None
      case Some(k) => Some(k + 1)
  }

  /** The first path, in order, that some name matches case-insensitively, with the first such name. */
  function FirstFolded(names: seq<string>, paths: seq<string>): (r: Option<(nat, nat)>)
    ensures r.Some? ==> r.value.0 < |paths| && FindLowered(names, ToLower(paths[r.value.0])) == Some(r.value.1)
    ensures r.Some? ==> forall j :: 0 <= j < r.value.0 ==> FindLowered(names, ToLower(paths[j])).None?
    ensures r.None? ==> forall j :: 0 <= j < |paths| ==> FindLowered(names, ToLower(paths[j])).None?
  {
    if paths == [] then None
    else match FindLowered(names, ToLower(paths[0]))
      case Some(k) => Some((0, k))
      case None =>
        match FirstFolded(names, paths[1..])
        case None => None
        case Some((i, k)) => Some((i + 1, k))
  }

  /** What `findFile` returns, as the name of the entry found. */
  function Lookup(entries: map<string, string>, names: seq<string>, paths: seq<string>): (r: Option<string>)
    ensures r.Some? ==> exists i :: 0 <= i < |paths| && ToLower(paths[i]) == ToLower(r.value)
    ensures (exists i :: 0 <= i < |paths| && paths[i] in entries) ==> r.Some? && r.value in entries && r.value in paths
    ensures r.Some? && FirstPresent(entries, paths).None? ==> r.value in names
  {
    match FirstPresent(entries, paths)
    case Some(i) => Some(paths[i])
    case None =>
      match FirstFolded(names, paths)
      case Some((_, k)) => Some(names[k])
      case None => None
  }

  /**
   * `findFile`: the paths tried exactly, in order; failing that, tried in
   * order against every listed name case-insensitively.
   */
  method FindFile(zip: Archive, paths: seq<string>) returns (r: Option<string>)
    ensures r == Lookup(zip.entries, zip.names, paths)
  {
    var i := 0;
    while i < |paths|
      invariant 0 <= i <= |paths|
      invariant forall j :: 0 <= j < i ==> paths[j] !in zip.entries
    {
      if paths[i] in zip.entries {
        return Some(paths[i]);
      }
      i := i + 1;
    }
    var allFiles := zip.names;
    i := 0;
    while i < |paths|
      invariant 0 <= i <= |paths|
      invariant forall j :: 0 <= j < i ==> FindLowered(allFiles, ToLower(paths[j])).None?
    {
      var lowerPath := ToLower(paths[i]);
      var found := FindLowered(allFiles, lowerPath);
      if found.Some? {
        return Some(allFiles[found.value]);
      }
      i := i + 1;
    }
    return None;
  }

  /**
   * The entry found: the first path that names an entry exactly; otherwise
   * an entry whose name matches the first path that matches any,
   * case-insensitively; otherwise none, and then no path matches any entry
   * even case-insensitively.
   */
  lemma LookupFinds(entries: map<string, string>, names: seq<string>, paths: seq<string>)
    requires forall n :: n in entries <==> n in names
    ensures var r := Lookup(entries, names, paths);
      && (r.Some? ==> r.value in entries && exists i :: 0 <= i < |paths| && ToLower(paths[i]) == ToLower(r.value))
      && ((exists i :: 0 <= i < |paths| && paths[i] in entries) ==> r.Some? && r.value in paths)
      && (r.None? <==> forall i, n :: 0 <= i < |paths| && n in entries ==> ToLower(n) != ToLower(paths[i]))
  {
    var r := Lookup(entries, names, paths);
    if FirstPresent(entries, paths).None? {
      if FirstFolded(names, paths).None? {
        forall i, n | 0 <= i < |paths| && n in entries ensures ToLower(n) != ToLower(paths[i]) {
          var k :| 0 <= k < |names| && names[k] == n;
          assert FindLowered(names, ToLower(paths[i])).None?;
        }
      } else {
        var (i, k) := FirstFolded(names, paths).value;
        assert names[k] in names;
      }
    }
  }

  // ---------------------------------------------------------------------
  // Writing the combined job

  /** The archive entries that `create3MF` writes. */
  const GcodeEntry: string := "Metadata/plate_1.gcode"
  const DigestEntry: string := "Metadata/plate_1.gcode.md5"
  const SliceInfoEntry: string := "Metadata/slice_info.config"

  /** The listing after `written` has been put in order: each name not yet listed is appended. */
  function Listed(names: seq<string>, written: seq<string>): (r: seq<string>)
    decreases |written|
    ensures |names| <= |r| && r[..|names|] == names
    ensures forall n :: n in r <==> n in names || n in written
  {
    if written == [] then names
    else Listed(if written[0] in names then names else names + [written[0]], written[1..])
  }

  /** The entries after the combined G-code, its digest and the descriptor have been written. */
  function Overwritten(entries: map<string, string>, gcode: string, digest: string, sliceInfo: string): (r: map<string, string>)
    ensures r.Keys == entries.Keys + {GcodeEntry, DigestEntry, SliceInfoEntry}
  {
    entries[GcodeEntry := gcode][DigestEntry := digest][SliceInfoEntry := sliceInfo]
  }

  /** Exactly the three entries change: they hold the new texts, and every other entry is as it was. */
  lemma OverwriteTouchesThree(entries: map<string, string>, gcode: string, digest: string, sliceInfo: string)
    ensures var e := Overwritten(entries, gcode, digest, sliceInfo);
      && e.Keys == entries.Keys + {GcodeEntry, DigestEntry, SliceInfoEntry}
      && e[GcodeEntry] == gcode && e[DigestEntry] == digest && e[SliceInfoEntry] == sliceInfo
      && forall n :: n in entries && n != GcodeEntry && n != DigestEntry && n != SliceInfoEntry ==> e[n] == entries[n]
  {
    assert GcodeEntry != DigestEntry && GcodeEntry != SliceInfoEntry && DigestEntry != SliceInfoEntry by {
      assert GcodeEntry[|GcodeEntry| - 1] != DigestEntry[|DigestEntry| - 1];
      assert |GcodeEntry| != |SliceInfoEntry|;
      assert DigestEntry[9] != SliceInfoEntry[9];
    }
  }

  /**
   * `create3MF`: writes the combined G-code, its digest and the descriptor
   * with the filament totals of all jobs into the base job's own archive,
   * which is updated in place. `digest` stands for the MD5 hash.
   */
  method Create3MF(baseJob: PrintJob, combinedGcode: string, jobs: seq<PrintJob>, digest: string -> string)
    requires baseJob.archive.Valid()
    modifies baseJob.archive
    ensures baseJob.archive.Valid()
    ensures baseJob.archive.entries == Overwritten(old(baseJob.archive.entries), combinedGcode, digest(combinedGcode),
      UpdateSliceInfo(baseJob.sliceInfoXml, Filament(jobs).usedG, Filament(jobs).usedM))
    ensures baseJob.archive.names == Listed(old(baseJob.archive.names), [GcodeEntry, DigestEntry, SliceInfoEntry])
  {
    var zip := baseJob.archive;
    var totalGrams, totalMeters := CalculateTotalFilament(jobs);
    var updatedSliceInfo := UpdateSliceInfo(baseJob.sliceInfoXml, totalGrams, totalMeters);
    var gcodeHash := digest(combinedGcode);
    ghost var listed0 := zip.names;
    zip.Put(GcodeEntry, combinedGcode);
    ghost var listed1 := zip.names;
    zip.Put(DigestEntry, gcodeHash);
    ghost var listed2 := zip.names;
    zip.Put(SliceInfoEntry, updatedSliceInfo);
    ListedThree(listed0, listed1, listed2, zip.names, GcodeEntry, DigestEntry, SliceInfoEntry);
  }

  /** Three puts in a row list what `Listed` lists. */
  lemma ListedThree(n0: seq<string>, n1: seq<string>, n2: seq<string>, n3: seq<string>, a: string, b: string, c: string)
    requires n1 == if a in n0 then n0 else n0 + [a]
    requires n2 == if b in n1 then n1 else n1 + [b]
    requires n3 == if c in n2 then n2 else n2 + [c]
    ensures n3 == Listed(n0, [a, b, c])
  {
    assert [a, b, c][1..] == [b, c] && [b, c][1..] == [c] && [c][1..] == [];
    assert Listed(n2, [c]) == Listed(n3, []) == n3;
    assert Listed(n1, [b, c]) == Listed(n2, [c]);
    assert Listed(n0, [a, b, c]) == Listed(n1, [b, c]);
  }

  /**
   * `processJobs`: no jobs is an error; otherwise the jobs are combined and
   * written into the first job's archive, whose entries are returned.
   */
  method ProcessJobs(jobs: seq<PrintJob>, swapSequence: string, digest: string -> string)
    returns (r: Result<map<string, string>, ProcessError>)
    requires jobs != [] ==> jobs[0].archive.Valid()
    modifies if jobs == [] then {} else {jobs[0].archive}
    ensures jobs == [] ==> r == Err(NoJobs)
    ensures jobs != [] && Combined(jobs, swapSequence).Err? ==>
      r == Err(MarkerNotFound) && unchanged(jobs[0].archive)
    ensures jobs != [] && Combined(jobs, swapSequence).Ok? ==>
      var combined := Combined(jobs, swapSequence).value;
      && jobs[0].archive.Valid()
      && r == Ok(jobs[0].archive.entries)
      && jobs[0].archive.entries == Overwritten(old(jobs[0].archive.entries), combined, digest(combined),
           UpdateSliceInfo(jobs[0].sliceInfoXml, Filament(jobs).usedG, Filament(jobs).usedM))
      && jobs[0].archive.names == Listed(old(jobs[0].archive.names), [GcodeEntry, DigestEntry, SliceInfoEntry])
  {
    if jobs == [] {
      return Err(NoJobs);
    }
    var combinedGcode := CombineGcode(jobs, swapSequence);
    if combinedGcode.Err? {
      CombinedOkIff(jobs, swapSequence);
      return Err(combinedGcode.error);
    }
    Create3MF(jobs[0], combinedGcode.value, jobs, digest);
    return Ok(jobs[0].archive.entries);
  }

  // ---------------------------------------------------------------------
  // Reading a job

  /** The places the plate's G-code and descriptor are looked for. */
  const GcodePaths: seq<string> := ["Metadata/plate_1.gcode", "metadata/plate_1.gcode", "Metadata/Plate_1.gcode"]
  const SliceInfoPaths: seq<string> := ["Metadata/slice_info.config", "metadata/slice_info.config"]

  /** `name.replace(/\.3mf$/i, "")`: the file name without a final `.3mf` in any case. */
  function JobName(fileName: string): (r: string)
    ensures r == fileName || (|fileName| >= 4 && r + fileName[|fileName| - 4..] == fileName && ToLower(fileName[|fileName| - 4..]) == ".3mf")
    ensures r != fileName <==> |fileName| >= 4 && ToLower(fileName[|fileName| - 4..]) == ".3mf"
  {
    if |fileName| >= 4 && ToLower(fileName[|fileName| - 4..]) == ".3mf" then fileName[..|fileName| - 4] else fileName
  }

  /** The header fields are those `ParseGcodeMetadata` reads. */
  predicate ReadFromHeader(md: Metadata, gcode: string) {
    && md.printTimeSeconds == ValueOr(FirstMatch(gcode, TimeAt, 0), 0)
    && md.filamentWeightGrams == ValueOr(FirstMatch(gcode, WeightAt, 0), 0.0)
    && md.filamentLengthMm == ValueOr(FirstMatch(gcode, LengthAt, 0), 0.0)
    && md.layerCount == ValueOr(FirstMatch(gcode, LayerAt, 0), 0)
    && md.maxZHeight == ValueOr(FirstMatch(gcode, MaxZAt, 0), 0.0)
  }

  /**
   * `parse3MF` once the archive is open: the G-code entry is required, the
   * descriptor defaults to the empty text, and a new job has one copy.
   */
  method Parse3MF(fileName: string, zip: Archive) returns (r: Result<PrintJob, ProcessError>)
    ensures Lookup(zip.entries, zip.names, GcodePaths).None? ==> r == Err(NoGcode)
    ensures Lookup(zip.entries, zip.names, GcodePaths).Some? ==>
      var gcodeName := Lookup(zip.entries, zip.names, GcodePaths).value;
      var infoName := Lookup(zip.entries, zip.names, SliceInfoPaths);
      && r.Ok?
      && r.value.name == JobName(fileName)
      && r.value.gcode == (if gcodeName in zip.entries then zip.entries[gcodeName] else [])
      && ReadFromHeader(r.value.metadata, r.value.gcode)
      && r.value.sliceInfoXml == (if infoName.Some? && infoName.value in zip.entries then zip.entries[infoName.value] else [])
      && r.value.copies == 1
      && r.value.archive == zip
  {
    var gcodeFile := FindFile(zip, GcodePaths);
    if gcodeFile.None? {
      return Err(NoGcode);
    }
    var gcode := if gcodeFile.value in zip.entries then zip.entries[gcodeFile.value] else [];
    var sliceInfoFile := FindFile(zip, SliceInfoPaths);
    var sliceInfoXml := if sliceInfoFile.Some? && sliceInfoFile.value in zip.entries then zip.entries[sliceInfoFile.value] else [];
    var metadata := ParseGcodeMetadata(gcode);
    var name := JobName(fileName);
    return Ok(PrintJob(name, gcode, metadata, sliceInfoXml, 1, zip));
  }
}
