/** The Web Worker's message handler: a bounded bisection over encoder
    quality that keeps the candidate closest to a byte target, reports
    progress after every encode and ends with one terminal message. */
module CompressWorker {
  import opened Compression

  /** Starting interval of the quality search. */
  const LOW_START: real := 0.05
  const HIGH_START: real := 1.0
  /** How far past the midpoint a bound moves after each verdict. */
  const STEP: real := 0.02
  /** The loop's cap on encode attempts. */
  const MAX_TRIES: nat := 12
  /** The number of encodes the search actually makes when none throws. */
  const ATTEMPTS: nat := 5

  /** The worker's incoming `e.data`. */
  datatype Request = Request(file: File, targetMB: real, index: int)

  /** The messages the worker posts back. */
  datatype Message =
    | Progress(index: int, progress: real)
    | Done(index: int, file: File)
    | Failure(index: int, error: string)

  /** `bestDiff`, which starts out as `Infinity`. */
  datatype Distance = Infinity | Finite(value: real)

  /** The options of one bisection probe at quality `q`. */
  function ProbeOptions(targetMB: real, q: real): Options {
    Options(targetMB * 1.1, None, true, q)
  }

  /** `Math.abs(size - targetBytes)`. */
  function Diff(size: nat, targetBytes: real): (d: real)
    ensures d >= 0.0
    ensures d == 0.0 <==> size as real == targetBytes
    ensures size as real == targetBytes + d || size as real == targetBytes - d
  {
    if size as real >= targetBytes then size as real - targetBytes else targetBytes - size as real
  }

  /** `diff < bestDiff`, where every finite diff is below `Infinity`. */
  predicate Closer(diff: real, best: Distance) {
    best.Infinity? || diff < best.value
  }

  function CallDiff(encode: Encoder, c: Call, targetBytes: real): real
    requires Outcome(encode, c).Encoded?
  {
    Diff(Candidate(encode, c).Size(), targetBytes)
  }

  /** `Math.min(100, (tries / 12) * 100)`. */
  function ProgressPercent(tries: nat): (p: real)
    ensures 0.0 <= p <= 100.0
    ensures tries > 0 ==> p > 0.0
    ensures tries >= MAX_TRIES ==> p == 100.0
  {
    var raw := tries as real / MAX_TRIES as real * 100.0;
    if raw <= 100.0 then raw else 100.0
  }

  /** Within the cap, every progress value is above the one before it. */
  lemma ProgressStrictlyIncreasing(i: nat, j: nat)
    requires i < j <= MAX_TRIES
    ensures ProgressPercent(i) < ProgressPercent(j)
  {
  }

  /** `high - low` after `tries` completed steps. Both branches of the update
      put the bound that moves at the midpoint plus or minus STEP, so the width
      does not depend on the verdicts. */
  function Width(tries: nat): real {
    if tries == 0 then HIGH_START - LOW_START else Width(tries - 1) / 2.0 - STEP
  }

  function Pow2(k: nat): (p: real)
    ensures p >= 1.0
  {
    if k == 0 then 1.0 else 2.0 * Pow2(k - 1)
  }

  /** The width halves towards the fixed point -2 * STEP: after k steps it is
      0.99 / 2^k - 0.04. */
  lemma {:induction false} WidthClosedForm(k: nat)
    ensures Width(k) == 0.99 / Pow2(k) - 0.04
  {
    if k > 0 {
      WidthClosedForm(k - 1);
      var p := Pow2(k - 1);
      assert Pow2(k) == 2.0 * p;
      calc {
        Width(k);
      ==
        (0.99 / p - 0.04) / 2.0 - STEP;
      == { assert (0.99 / p) / 2.0 == 0.99 / (2.0 * p); }
        0.99 / (2.0 * p) - 0.04;
      }
    }
  }

  /** While the loop still runs, the interval loses at least STEP per step. */
  lemma WidthShrinks(k: nat)
    requires Width(k) >= 0.0
    ensures Width(k + 1) <= Width(k) - STEP
  {
  }

  /** The interval is non-empty exactly for the first five steps, so
      `low <= high` alone ends the loop after five encodes. */
  lemma {:induction false} WidthNonnegativeIff(k: nat)
    ensures Width(k) >= 0.0 <==> k < ATTEMPTS
  {
    assert Width(1) == 0.455;
    assert Width(2) == 0.2075;
    assert Width(3) == 0.08375;
    assert Width(4) == 0.021875;
    assert Width(5) == -0.0090625;
    if k > ATTEMPTS {
      WidthNonnegativeIff(k - 1);
    }
  }

  /** Call j is the first of `calls` whose candidate is closest to the target. */
  predicate FirstClosest(encode: Encoder, calls: seq<Call>, targetBytes: real, j: nat)
    requires AllEncoded(encode, calls)
  {
    && j < |calls|
    && (forall i :: 0 <= i < |calls| ==>
          CallDiff(encode, calls[j], targetBytes) <= CallDiff(encode, calls[i], targetBytes))
    && (forall i :: 0 <= i < j ==>
          CallDiff(encode, calls[i], targetBytes) > CallDiff(encode, calls[j], targetBytes))
  }

  /** The handler's `best`/`bestDiff` pair, with the ghost index `bestAt` of
      the call that produced `best`: `Infinity` before the first candidate,
      afterwards the first closest candidate and its distance. */
  predicate Tracks(encode: Encoder, calls: seq<Call>, targetBytes: real,
                   bestAt: nat, best: File, bestDiff: Distance)
    requires AllEncoded(encode, calls)
  {
    if calls == [] then bestDiff == Infinity
    else
      && FirstClosest(encode, calls, targetBytes, bestAt)
      && best == Candidate(encode, calls[bestAt])
      && bestDiff == Finite(CallDiff(encode, calls[bestAt], targetBytes))
  }

  /** `best` after one more candidate: the newcomer replaces the holder only
      when strictly closer (or first, against `Infinity`), so on a tie the
      earlier candidate stays. */
  lemma BestStep(encode: Encoder, calls: seq<Call>, targetBytes: real, c: Call,
                 bestAt: nat, best: File, bestDiff: Distance,
                 bestAt': nat, best': File, bestDiff': Distance)
    requires AllEncoded(encode, calls) && Outcome(encode, c).Encoded?
    requires Tracks(encode, calls, targetBytes, bestAt, best, bestDiff)
    requires if Closer(CallDiff(encode, c, targetBytes), bestDiff)
             then && bestAt' == |calls| && best' == Candidate(encode, c)
                  && bestDiff' == Finite(CallDiff(encode, c, targetBytes))
             else bestAt' == bestAt && best' == best && bestDiff' == bestDiff
    ensures AllEncoded(encode, calls + [c])
    ensures Tracks(encode, calls + [c], targetBytes, bestAt', best', bestDiff')
  {
  }

  /** A later probe lies on the side an earlier verdict pointed to: below an
      oversized result, above one that fit, by at least STEP. */
  predicate Respects(encode: Encoder, earlier: Call, later: Call, targetBytes: real)
    requires Outcome(encode, earlier).Encoded?
  {
    if Exceeds(Candidate(encode, earlier), targetBytes)
    then Quality(later) <= Quality(earlier) - STEP
    else Quality(later) >= Quality(earlier) + STEP
  }

  /** Every probe but the last returned a file, and every probe obeys the
      verdicts of all probes before it. */
  predicate Bisects(encode: Encoder, calls: seq<Call>, targetBytes: real) {
    && (forall i :: 0 <= i < |calls| - 1 ==> Outcome(encode, calls[i]).Encoded?)
    && (forall i, j :: 0 <= i < j < |calls| ==>
          Outcome(encode, calls[i]).Encoded? && Respects(encode, calls[i], calls[j], targetBytes))
  }

  /** The current interval `[low, high]` lies on the side every verdict so far
      pointed to. */
  predicate Confines(encode: Encoder, calls: seq<Call>, targetBytes: real, low: real, high: real) {
    forall i :: 0 <= i < |calls| ==>
      && Outcome(encode, calls[i]).Encoded?
      && if Exceeds(Candidate(encode, calls[i]), targetBytes)
         then high <= Quality(calls[i]) - STEP
         else low >= Quality(calls[i]) + STEP
  }

  /** A probe inside the current interval keeps the bisection order. */
  lemma ProbeStep(encode: Encoder, calls: seq<Call>, targetBytes: real, low: real, high: real, c: Call)
    requires Bisects(encode, calls, targetBytes)
    requires Confines(encode, calls, targetBytes, low, high)
    requires low <= Quality(c) <= high
    ensures Bisects(encode, calls + [c], targetBytes)
  {
  }

  /** Narrowing the interval after an encoded probe keeps it confined. */
  lemma NarrowStep(encode: Encoder, calls: seq<Call>, targetBytes: real,
                   low: real, high: real, c: Call, low': real, high': real)
    requires Confines(encode, calls, targetBytes, low, high)
    requires Outcome(encode, c).Encoded?
    requires low <= low' && high' <= high
    requires if Exceeds(Candidate(encode, c), targetBytes)
             then high' == Quality(c) - STEP
             else low' == Quality(c) + STEP
    ensures Confines(encode, calls + [c], targetBytes, low', high')
  {
  }

  /** A quality interval `[low, high]`. */
  datatype Bounds = Bounds(low: real, high: real)

  /** `[low, high]` after the verdicts of `calls`, starting from
      `[0.05, 1.0]`: an oversized result moves `high` to `q - 0.02`, any
      other moves `low` to `q + 0.02`. */
  function Interval(encode: Encoder, calls: seq<Call>, targetBytes: real): Bounds
    requires AllEncoded(encode, calls)
    decreases |calls|
  {
    if calls == [] then Bounds(LOW_START, HIGH_START)
    else
      var before := calls[..|calls| - 1];
      assert AllEncoded(encode, before);
      var b := Interval(encode, before, targetBytes);
      var c := calls[|calls| - 1];
      if Exceeds(Candidate(encode, c), targetBytes) then Bounds(b.low, Quality(c) - STEP)
      else Bounds(Quality(c) + STEP, b.high)
  }

  function Midpoint(b: Bounds): real {
    (b.low + b.high) / 2.0
  }

  /** One more verdict updates the interval as the loop body does. */
  lemma IntervalStep(encode: Encoder, calls: seq<Call>, targetBytes: real, c: Call)
    requires AllEncoded(encode, calls) && Outcome(encode, c).Encoded?
    ensures AllEncoded(encode, calls + [c])
    ensures Interval(encode, calls + [c], targetBytes)
            == if Exceeds(Candidate(encode, c), targetBytes)
               then Bounds(Interval(encode, calls, targetBytes).low, Quality(c) - STEP)
               else Bounds(Quality(c) + STEP, Interval(encode, calls, targetBytes).high)
  {
    assert (calls + [c])[..|calls|] == calls;
  }

  /** Every probe was made at the midpoint of the interval left by the
      probes before it: the last one, and recursively the earlier ones. A
      thrown last call still has its quality constrained. */
  predicate ProbesMidpoints(encode: Encoder, calls: seq<Call>, targetBytes: real)
    decreases |calls|
  {
    calls == [] ||
      var before := calls[..|calls| - 1];
      && AllEncoded(encode, before)
      && ProbesMidpoints(encode, before, targetBytes)
      && Quality(calls[|calls| - 1]) == Midpoint(Interval(encode, before, targetBytes))
  }

  /** A probe at the midpoint of the current interval keeps every probe a
      midpoint. */
  lemma MidpointsStep(encode: Encoder, calls: seq<Call>, targetBytes: real, c: Call)
    requires AllEncoded(encode, calls) && ProbesMidpoints(encode, calls, targetBytes)
    requires Quality(c) == Midpoint(Interval(encode, calls, targetBytes))
    ensures ProbesMidpoints(encode, calls + [c], targetBytes)
  {
    assert (calls + [c])[..|calls|] == calls;
  }

  /** The k-th probe, for every k, is the midpoint of the interval the first
      k verdicts left. */
  lemma {:induction false} ProbeIsMidpoint(encode: Encoder, calls: seq<Call>, targetBytes: real, k: nat)
    requires ProbesMidpoints(encode, calls, targetBytes) && k < |calls|
    ensures AllEncoded(encode, calls[..k])
    ensures Quality(calls[k]) == Midpoint(Interval(encode, calls[..k], targetBytes))
  {
    var n := |calls| - 1;
    if k < n {
      var before := calls[..n];
      ProbeIsMidpoint(encode, before, targetBytes, k);
      assert before[..k] == calls[..k];
    }
  }

  /** The first probe is always at quality 0.525, the middle of [0.05, 1.0]. */
  lemma FirstProbe(encode: Encoder, calls: seq<Call>, targetBytes: real)
    requires ProbesMidpoints(encode, calls, targetBytes) && calls != []
    ensures Quality(calls[0]) == 0.525
  {
    ProbeIsMidpoint(encode, calls, targetBytes, 0);
    assert calls[..0] == [];
  }

  /** When every probe is a midpoint, the interval's width after n verdicts is
      Width(n), whichever way each verdict went. */
  lemma {:induction false} IntervalWidth(encode: Encoder, calls: seq<Call>, targetBytes: real)
    requires AllEncoded(encode, calls) && ProbesMidpoints(encode, calls, targetBytes)
    ensures Interval(encode, calls, targetBytes).high - Interval(encode, calls, targetBytes).low
            == Width(|calls|)
  {
    if calls != [] {
      var n := |calls| - 1;
      var before := calls[..n];
      IntervalWidth(encode, before, targetBytes);
      IntervalStep(encode, before, targetBytes, calls[n]);
      assert calls == before + [calls[n]];
    }
  }

  /** Probing at midpoints keeps the interval on the side every verdict
      pointed to, and orders the probes as a bisection, while the interval is
      non-empty, that is, for the first five probes. */
  lemma {:induction false} MidpointsConfine(encode: Encoder, calls: seq<Call>, targetBytes: real)
    requires AllEncoded(encode, calls) && ProbesMidpoints(encode, calls, targetBytes)
    requires |calls| <= ATTEMPTS
    ensures Bisects(encode, calls, targetBytes)
    ensures Confines(encode, calls, targetBytes,
                     Interval(encode, calls, targetBytes).low, Interval(encode, calls, targetBytes).high)
  {
    if calls != [] {
      var n := |calls| - 1;
      var before, c := calls[..n], calls[n];
      var b := Interval(encode, before, targetBytes);
      MidpointsConfine(encode, before, targetBytes);
      IntervalWidth(encode, before, targetBytes);
      WidthNonnegativeIff(n);
      ProbeStep(encode, before, targetBytes, b.low, b.high, c);
      IntervalStep(encode, before, targetBytes, c);
      assert calls == before + [c];
      NarrowStep(encode, before, targetBytes, b.low, b.high, c,
                 Interval(encode, calls, targetBytes).low, Interval(encode, calls, targetBytes).high);
    }
  }

  /** At most five midpoint probes are in bisection order, also when the
      last of them threw. */
  lemma MidpointsBisect(encode: Encoder, calls: seq<Call>, targetBytes: real)
    requires ProbesMidpoints(encode, calls, targetBytes) && |calls| <= ATTEMPTS
    ensures Bisects(encode, calls, targetBytes)
  {
    if calls != [] {
      var n := |calls| - 1;
      var before, c := calls[..n], calls[n];
      var b := Interval(encode, before, targetBytes);
      MidpointsConfine(encode, before, targetBytes);
      IntervalWidth(encode, before, targetBytes);
      WidthNonnegativeIff(n);
      ProbeStep(encode, before, targetBytes, b.low, b.high, c);
      assert calls == before + [c];
    }
  }

  /** Every call re-encodes `file` with the worker's options, at a quality
      within the starting interval. */
  predicate ProbesOriginal(calls: seq<Call>, file: File, targetMB: real) {
    forall i :: 0 <= i < |calls| ==>
      && calls[i] == Call(file, ProbeOptions(targetMB, Quality(calls[i])))
      && LOW_START <= Quality(calls[i]) <= HIGH_START
  }

  lemma ProbesOriginalStep(calls: seq<Call>, file: File, targetMB: real, q: real)
    requires ProbesOriginal(calls, file, targetMB)
    requires LOW_START <= q <= HIGH_START
    ensures ProbesOriginal(calls + [Call(file, ProbeOptions(targetMB, q))], file, targetMB)
  {
  }

  /** What the search loop keeps true of its calls and of `[low, high]`. */
  predicate Searching(encode: Encoder, file: File, targetMB: real, calls: seq<Call>,
                      low: real, high: real)
  {
    var targetBytes := targetMB * BYTES_PER_MB;
    && LOW_START <= low && high <= HIGH_START
    && ProbesOriginal(calls, file, targetMB)
    && AllEncoded(encode, calls)
    && Bounds(low, high) == Interval(encode, calls, targetBytes)
    && ProbesMidpoints(encode, calls, targetBytes)
  }

  /** One probe at the midpoint of a non-empty interval: whatever the encoder
      does, the calls stay on the original file and at midpoints. */
  lemma SearchProbe(encode: Encoder, file: File, targetMB: real, calls: seq<Call>,
                    low: real, high: real, q: real, c: Call)
    requires Searching(encode, file, targetMB, calls, low, high) && low <= high
    requires q == (low + high) / 2.0 && c == Call(file, ProbeOptions(targetMB, q))
    ensures ProbesOriginal(calls + [c], file, targetMB)
    ensures ProbesMidpoints(encode, calls + [c], targetMB * BYTES_PER_MB)
  {
    var targetBytes := targetMB * BYTES_PER_MB;
    ProbesOriginalStep(calls, file, targetMB, q);
    MidpointsStep(encode, calls, targetBytes, c);
  }

  /** Narrowing after a probe that returned a file keeps the search
      invariant. */
  lemma SearchNarrow(encode: Encoder, file: File, targetMB: real, calls: seq<Call>,
                     low: real, high: real, q: real, c: Call, low': real, high': real)
    requires Searching(encode, file, targetMB, calls, low, high) && low <= high
    requires q == (low + high) / 2.0 && c == Call(file, ProbeOptions(targetMB, q))
    requires Outcome(encode, c).Encoded?
    requires if Exceeds(Candidate(encode, c), targetMB * BYTES_PER_MB)
             then low' == low && high' == q - STEP
             else low' == q + STEP && high' == high
    ensures Searching(encode, file, targetMB, calls + [c], low', high')
  {
    var targetBytes := targetMB * BYTES_PER_MB;
    SearchProbe(encode, file, targetMB, calls, low, high, q, c);
    IntervalStep(encode, calls, targetBytes, c);
  }

  /** The progress messages posted after encodes 1..n, in order: the i-th
      carries the percentage for i + 1 attempts. */
  function ProgressReports(index: int, n: nat): (r: seq<Message>)
    ensures |r| == n
    ensures forall i :: 0 <= i < n ==> r[i] == Progress(index, ProgressPercent(i + 1))
  {
    if n == 0 then [] else ProgressReports(index, n - 1) + [Progress(index, ProgressPercent(n))]
  }

  /** Within the cap, the reported progress values strictly increase. */
  lemma ReportedProgressIncreases(index: int, n: nat)
    requires n <= MAX_TRIES
    ensures forall i, j :: 0 <= i < j < n ==>
              ProgressReports(index, n)[i].progress < ProgressReports(index, n)[j].progress
  {
    forall i, j | 0 <= i < j < n
      ensures ProgressReports(index, n)[i].progress < ProgressReports(index, n)[j].progress
    {
      ProgressStrictlyIncreasing(i + 1, j + 1);
    }
  }

  /** One pass of the handler's loop body: encode the original file at the
      midpoint of `[low, high]`; when that returns a file, keep it if it is
      strictly closer to the target than `best`, and move the bound its
      verdict points to. `call` is the encoder call made. */
  method Probe(encode: Encoder, file: File, targetMB: real, low: real, high: real,
               best: File, bestDiff: Distance, ghost calls: seq<Call>, ghost chosen: nat)
    returns (outcome: EncodeOutcome, low': real, high': real, best': File, bestDiff': Distance,
             ghost call: Call, ghost chosen': nat)
    requires Searching(encode, file, targetMB, calls, low, high) && low <= high
    requires Tracks(encode, calls, targetMB * BYTES_PER_MB, chosen, best, bestDiff)
    ensures call == Call(file, ProbeOptions(targetMB, (low + high) / 2.0))
    ensures outcome == Outcome(encode, call)
    ensures ProbesOriginal(calls + [call], file, targetMB)
    ensures ProbesMidpoints(encode, calls + [call], targetMB * BYTES_PER_MB)
    ensures outcome.Encoded? ==>
              && Searching(encode, file, targetMB, calls + [call], low', high')
              && Tracks(encode, calls + [call], targetMB * BYTES_PER_MB, chosen', best', bestDiff')
  {
    var targetBytes := targetMB * BYTES_PER_MB;
    var q := (low + high) / 2.0;
    var options := ProbeOptions(targetMB, q);
    call := Call(file, options);
    SearchProbe(encode, file, targetMB, calls, low, high, q, call);
    outcome := encode(file, options);
    low', high', best', bestDiff', chosen' := low, high, best, bestDiff, chosen;
    if outcome.Threw? {
      return;
    }
    var compressed := outcome.file;
    assert Candidate(encode, call) == compressed;
    var diff := Diff(compressed.Size(), targetBytes);
    assert diff == CallDiff(encode, call, targetBytes);
    if Closer(diff, bestDiff) {
      best', bestDiff' := compressed, Finite(diff);
      chosen' := |calls|;
    }
    if compressed.Size() as real > targetBytes {
      high' := q - STEP;
    } else {
      low' := q + STEP;
    }
    BestStep(encode, calls, targetBytes, call, chosen, best, bestDiff, chosen', best', bestDiff');
    SearchNarrow(encode, file, targetMB, calls, low, high, q, call, low', high');
  }

  /** `self.onmessage`: `messages` are the posted messages in order and
      `calls` the encoder calls in order. */
  method HandleMessage(request: Request, encode: Encoder)
    returns (messages: seq<Message>, ghost calls: seq<Call>, ghost chosen: nat)
    // The first probe always happens; a search never makes more than five.
    ensures 1 <= |calls| <= ATTEMPTS < MAX_TRIES
    // Every probe re-encodes the original file, at a quality in [0.05, 1.0].
    ensures ProbesOriginal(calls, request.file, request.targetMB)
    // Each probe is the midpoint of the interval the earlier verdicts leave,
    // starting from [0.05, 1.0].
    ensures ProbesMidpoints(encode, calls, request.targetMB * BYTES_PER_MB)
    // One progress message per finished encode, then one terminal message.
    ensures Outcome(encode, calls[|calls| - 1]).Threw? ==>
              messages == ProgressReports(request.index, |calls| - 1)
                          + [Failure(request.index, Outcome(encode, calls[|calls| - 1]).message)]
    ensures Outcome(encode, calls[|calls| - 1]).Encoded? ==>
              && |calls| == ATTEMPTS
              && AllEncoded(encode, calls)
              && FirstClosest(encode, calls, request.targetMB * BYTES_PER_MB, chosen)
              && messages == ProgressReports(request.index, |calls|)
                             + [Done(request.index, Candidate(encode, calls[chosen]))]
  {
    var file, targetMB, index := request.file, request.targetMB, request.index;
    var targetBytes := targetMB * BYTES_PER_MB;
    var low, high, best, bestDiff, tries := LOW_START, HIGH_START, file, Infinity, 0;
    messages, calls := [], [];
    chosen := 0;
    var failure: Option<string> := None;

    while low <= high && tries < MAX_TRIES
      invariant tries == |calls| <= ATTEMPTS
      invariant Searching(encode, file, targetMB, calls, low, high)
      invariant messages == ProgressReports(index, tries)
      invariant Tracks(encode, calls, targetBytes, chosen, best, bestDiff)
      invariant failure.None?
      decreases MAX_TRIES - tries
    {
      IntervalWidth(encode, calls, targetBytes);
      WidthNonnegativeIff(tries);
      var outcome;
      ghost var call;
      outcome, low, high, best, bestDiff, call, chosen
        := Probe(encode, file, targetMB, low, high, best, bestDiff, calls, chosen);
      calls := calls + [call];
      if outcome.Threw? {
        // the exception leaves the loop for the catch block
        failure := Some(outcome.message);
        break;
      }
      tries := tries + 1;
      messages := messages + [Progress(index, ProgressPercent(tries))];
    }
    if failure.Some? {
      messages := messages + [Failure(index, failure.value)];
    } else {
      IntervalWidth(encode, calls, targetBytes);
      WidthNonnegativeIff(tries);
      messages := messages + [Done(index, best)];
    }
  }
}
