/** The `App` component's resize handler: starting at full quality it
    re-encodes the uploaded image, lowering quality by a fixed step, until the
    result fits the byte target or quality reaches the floor. */
module AppComponent {
  import opened Compression

  /** Quality of the first encode, and the amount it drops per encode. */
  const QUALITY_START: real := 1.0
  const QUALITY_STEP: real := 0.05
  /** The loop runs only while quality is strictly above this floor. */
  const QUALITY_FLOOR: real := 0.05
  /** `maxWidthOrHeight` in every call. */
  const MAX_DIMENSION: nat := 4000
  /** The most encodes one resize can make, in exact arithmetic. */
  const MAX_ENCODES: nat := 19

  /** The target-size input field: empty, or a number of megabytes. */
  datatype TargetField = Blank | Entered(mb: real)

  /** The options of a resize encode at `quality`. */
  function ResizeOptions(targetMB: real, quality: real): Options {
    Options(targetMB, Some(MAX_DIMENSION), true, quality)
  }

  /** The value of `quality` after k decrements: the quality of the k-th
      encode, counting from 0. */
  function QualityAt(k: nat): (q: real)
    ensures q <= QUALITY_START
    ensures q > QUALITY_FLOOR <==> k < MAX_ENCODES
  {
    QUALITY_START - QUALITY_STEP * k as real
  }

  /** The qualities handed to the encoder strictly decrease. */
  lemma QualityStrictlyDecreasing(i: nat, j: nat)
    requires i < j
    ensures QualityAt(j) < QualityAt(i)
  {
  }

  /** A step of the handler that is visible outside it: a `setLoading` call
      or an encoder call. */
  datatype Event = SetLoading(on: bool) | Encode(call: Call)

  /** One `Encode` event per call, in order. */
  function EncodeEvents(calls: seq<Call>): (es: seq<Event>)
    ensures |es| == |calls|
    ensures forall k :: 0 <= k < |calls| ==> es[k] == Encode(calls[k])
  {
    if calls == [] then [] else EncodeEvents(calls[..|calls| - 1]) + [Encode(calls[|calls| - 1])]
  }

  /** The file the search ends with: the original when no encode was needed,
      otherwise what the last encode produced or threw. */
  function LastResult(encode: Encoder, original: File, calls: seq<Call>): EncodeOutcome {
    if calls == [] then Encoded(original) else Outcome(encode, calls[|calls| - 1])
  }

  /** What the step-down search promises about the encoder calls it makes
      for `original` and a target of `targetMB` megabytes. */
  predicate StepsDown(encode: Encoder, original: File, targetMB: real, calls: seq<Call>) {
    var targetBytes := targetMB * BYTES_PER_MB;
    // The k-th call re-encodes the original at quality 1.0 - 0.05 k.
    && |calls| <= MAX_ENCODES
    && (forall k :: 0 <= k < |calls| ==>
          calls[k] == Call(original, ResizeOptions(targetMB, QualityAt(k))))
    // Every call but the last produced a file still over target.
    && (forall k :: 0 <= k < |calls| - 1 ==>
          Outcome(encode, calls[k]).Encoded? && Exceeds(Candidate(encode, calls[k]), targetBytes))
    // An original that already fits is kept without any encode.
    && (calls == [] <==> !Exceeds(original, targetBytes))
    // A file the search ends with fits, unless the quality floor was reached.
    && (LastResult(encode, original, calls).Encoded? ==>
          !Exceeds(LastResult(encode, original, calls).file, targetBytes) || |calls| == MAX_ENCODES)
  }

  /** The body of `handleResize`'s `try` block: re-encode the original at
      falling quality while the current file is over target and quality is
      above the floor. `result` is the last file, or the message an encode
      threw; `calls` are the encoder calls in order. */
  method StepDown(encode: Encoder, original: File, targetMB: real)
    returns (result: EncodeOutcome, ghost calls: seq<Call>)
    ensures StepsDown(encode, original, targetMB, calls)
    ensures result == LastResult(encode, original, calls)
  {
    var targetSizeBytes := targetMB * BYTES_PER_MB;
    var quality := QUALITY_START;
    var compressedFile := original;
    calls := [];

    while compressedFile.Size() as real > targetSizeBytes && quality > QUALITY_FLOOR
      invariant quality == QualityAt(|calls|) && |calls| <= MAX_ENCODES
      invariant forall k :: 0 <= k < |calls| ==>
                  calls[k] == Call(original, ResizeOptions(targetMB, QualityAt(k)))
      invariant AllEncoded(encode, calls)
      invariant forall k :: 0 <= k < |calls| - 1 ==>
                  Exceeds(Candidate(encode, calls[k]), targetSizeBytes)
      invariant calls != [] ==> Exceeds(original, targetSizeBytes)
      invariant LastResult(encode, original, calls) == Encoded(compressedFile)
      decreases MAX_ENCODES - |calls|
    {
      var options := ResizeOptions(targetMB, quality);
      calls := calls + [Call(original, options)];
      match encode(original, options) {
        case Threw(message) =>
          // the exception leaves the loop for the catch block
          return Threw(message), calls;
        case Encoded(f) =>
          compressedFile := f;
      }
      quality := quality - QUALITY_STEP;
    }
    assert calls == [] ==> quality == QualityAt(0) > QUALITY_FLOOR;
    result := Encoded(compressedFile);
  }

  /** The component's state: the React state variables, plus a ghost trace of
      the `setLoading` and encoder calls, in the order they happen. */
  class App {
    var originalImage: Option<File>
    var compressedImage: Option<File>
    var targetSizeMB: TargetField
    var loading: bool
    ghost var trace: seq<Event>

    constructor ()
      ensures originalImage == None && compressedImage == None
      ensures targetSizeMB == Blank && !loading && trace == []
    {
      originalImage, compressedImage := None, None;
      targetSizeMB, loading := Blank, false;
      trace := [];
    }

    /** `handleResize`; `calls` are the encoder calls it makes, in order. */
    method HandleResize(encode: Encoder) returns (ghost calls: seq<Call>)
      modifies this
      ensures originalImage == old(originalImage) && targetSizeMB == old(targetSizeMB)
      // Without an image or a target nothing happens at all.
      ensures (old(originalImage).None? || old(targetSizeMB).Blank?) ==>
                && calls == []
                && compressedImage == old(compressedImage)
                && loading == old(loading) && trace == old(trace)
      ensures (old(originalImage).Some? && old(targetSizeMB).Entered?) ==>
                var original, mb := old(originalImage).value, old(targetSizeMB).mb;
                // loading is switched on before the first encode and off after
                // the last one, whether or not an encode threw.
                && trace == old(trace) + [SetLoading(true)] + EncodeEvents(calls) + [SetLoading(false)]
                && !loading
                && StepsDown(encode, original, mb, calls)
                // The last file is stored, not the closest one; a throw leaves
                // the previous result in place.
                && compressedImage == match LastResult(encode, original, calls)
                                      case Encoded(f) => Some(f)
                                      case Threw(_) => old(compressedImage)
    {
      if originalImage.None? || targetSizeMB.Blank? {
        calls := [];
        return;
      }
      loading := true;
      trace := trace + [SetLoading(true)];
      var result;
      result, calls := StepDown(encode, originalImage.value, targetSizeMB.mb);
      trace := trace + EncodeEvents(calls);
      if result.Encoded? {
        compressedImage := Some(result.file);
      }
      // finally
      loading := false;
      trace := trace + [SetLoading(false)];
    }
  }
}
