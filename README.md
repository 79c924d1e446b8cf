# Image-Resizer: the two quality-search loops

Image-Resizer shrinks an image to a target size in megabytes, in the browser.
It does so by calling the `browser-image-compression` encoder over and over
with different `initialQuality` settings. This project models the two loops
that choose those settings, and proves what they promise, against an encoder
that is left abstract:

- **The worker's bounded bisection** (`src/compressWorker.js`). A request
  carries a file, a target in MB and an item index. The handler keeps a
  quality interval `[low, high]`, starting at `[0.05, 1.0]`. Each step
  encodes the original file at the interval's midpoint and keeps the
  candidate closest to the target; a tie keeps the earlier candidate. It
  then moves `high` to `q - 0.02` (result over target) or `low` to `q + 0.02`
  (result at or under target) and posts a progress message. The loop runs
  while `low <= high` and fewer than 12 attempts were made. A `Done` message
  with the best candidate follows, or a `Failure` message if an encode threw.
- **The component's step-down search** (`handleResize` in `src/App.jsx`).
  Without an image or a target it does nothing. Otherwise it sets `loading`,
  converts the target to bytes (`MB * 1024 * 1024`) and starts from the
  original file at quality 1.0. While the current file is over target and
  quality is above 0.05, it re-encodes the original and lowers quality by
  0.05. It stores the last file produced. It clears `loading` in every case;
  on a throw it stores nothing.

Modules:

- `Compression` (compression.dfy): files, encoder options, the encoder as a
  function `(File, Options) -> EncodeOutcome` (a new file or a thrown
  message), and `Call`, one recorded encoder call.
- `CompressWorker` (compress_worker.dfy): the worker's handler as a method
  with a loop, whose body is the method `Probe`. It returns the posted
  messages in order, plus, as ghost values, the list of encoder calls it made
  and the index of the call whose file it reports. `Interval` folds the
  verdicts of a list of calls into the quality interval they leave, starting
  from `[0.05, 1.0]`; the handler probes the midpoint of that interval every
  time, and the bisection order of the probes is proved from that.
- `AppComponent` (app.dfy): `StepDown` is the body of the handler's `try`
  block, a method with the step-down loop. Class `App` holds the component's
  state variables as fields. `HandleResize` changes them in place and returns
  a ghost list of its encoder calls. `trace` is a ghost record of the
  `setLoading` calls and the encoder calls, in the order they happen.

Qualities are exact `real`s. In exact arithmetic the bisection interval's
width after `k` steps does not depend on the verdicts: it is `Width(k)`,
which equals `0.99 / 2^k - 0.04`. The widths are 0.95, 0.455, 0.2075,
0.08375 and 0.021875, and then -0.0090625. So a search where no encode
throws makes exactly five encodes: `low <= high` ends the loop, and the
`tries < 12` cap never takes effect. As a result, the last progress value
posted is `5 / 12 * 100` (about 41.7), and the worker never reports 100
before its `Done` message. The step-down search makes at most 19 encodes,
at qualities 1.0, 0.95, ..., 0.10.

The handler has no early stop and no preference for candidates at or under
the target. The closest candidate wins whether it is over or under, and no
progress event reaches 100.

## Model

| member | source | states |
|---|---|---|
| `CompressWorker.HandleMessage` | src/compressWorker.js:3-24 | At least one and at most five encodes, all fewer than the cap of 12. Every call re-encodes the request's original file, with `maxSizeMB = targetMB * 1.1`, at a quality in [0.05, 1.0]. Each probe is the midpoint of the interval the verdicts before it leave, starting from [0.05, 1.0], and only the last call may have thrown. The messages are the progress messages for encodes 1..n, carrying `min(100, tries/12*100)`, then exactly one terminal message. If the last encode threw, n is one less than the number of calls and the terminal message is `Failure(index, message)`. Otherwise exactly five encodes were made, n is five, and the terminal message is `Done(index, f)`, where `f` is the first candidate whose distance to `targetMB * 1048576` is minimal, never the untouched input. |
| `CompressWorker.Probe` | src/compressWorker.js:10-15 | One pass of the loop body, from a non-empty interval that is the fold of the earlier verdicts. The call is on the original file at the interval's midpoint, and the encoder's outcome is returned. If it returned a file, the interval becomes the fold of the verdicts including this one, and `best` is again the first closest candidate with `bestDiff` its distance. |
| `CompressWorker.BestStep` | src/compressWorker.js:13-14 | One best-tracking update keeps `best` as the first candidate at minimal distance, with `bestDiff` its distance. A strictly closer newcomer (or the first one, against `Infinity`) takes over; on a tie or a farther one the holder stays. |
| `CompressWorker.IntervalStep` | src/compressWorker.js:15 | One more verdict moves `high` to `q - 0.02` after an oversized result and `low` to `q + 0.02` otherwise, leaving the other bound alone. |
| `CompressWorker.MidpointsStep` | src/compressWorker.js:10 | A probe at the midpoint of the current interval keeps every probe a midpoint. |
| `CompressWorker.ProbeIsMidpoint` | src/compressWorker.js:7-15 | For every k, the k-th probe is the midpoint of the interval the first k verdicts left, and those k calls all returned a file. |
| `CompressWorker.FirstProbe` | src/compressWorker.js:7-10 | The first probe is always at quality 0.525. |
| `CompressWorker.IntervalWidth` | src/compressWorker.js:7-15 | When every probe is a midpoint, the interval's width after n verdicts is `Width(n)`, whichever way each verdict went. |
| `CompressWorker.MidpointsConfine` | src/compressWorker.js:9-15 | Up to five midpoint probes that all returned a file leave the interval on the side every verdict pointed to, and are in bisection order. |
| `CompressWorker.MidpointsBisect` | src/compressWorker.js:9-15 | Up to five midpoint probes, the last of which may have thrown, are in bisection order: each lies at least 0.02 below every earlier oversized result and at least 0.02 above every earlier fitting one. |
| `CompressWorker.ProbeStep` | src/compressWorker.js:9-10 | A probe taken inside an interval that respects every earlier verdict keeps the bisection order for the whole call list. |
| `CompressWorker.NarrowStep` | src/compressWorker.js:15 | Moving `high` to `q - 0.02` after an oversized result, or `low` to `q + 0.02` after a fitting one, keeps the interval on the side every verdict so far points to. |
| `CompressWorker.ProbesOriginalStep` | src/compressWorker.js:10-12 | Appending a call on the original file at a quality in [0.05, 1.0] keeps the whole call list that way. |
| `CompressWorker.SearchProbe` | src/compressWorker.js:10-12 | A midpoint probe from a non-empty interval inside [0.05, 1.0] keeps every call on the original file, in range, and at a midpoint, whatever the encoder returns. |
| `CompressWorker.SearchNarrow` | src/compressWorker.js:10-15 | After a probe that returned a file, the narrowed bounds are the fold of all verdicts so far and stay inside [0.05, 1.0]. |
| `CompressWorker.Diff` | src/compressWorker.js:13 | The distance is non-negative, zero exactly when the size equals the target, and equal to the size's offset from the target in one direction or the other. |
| `CompressWorker.ProgressPercent` | src/compressWorker.js:17 | A progress value lies in [0, 100], is positive after the first encode, and is exactly 100 from the 12th attempt on. |
| `CompressWorker.ProgressStrictlyIncreasing` | src/compressWorker.js:16-17 | Up to the cap, a later attempt count reports a strictly larger progress value. |
| `CompressWorker.ProgressReports` | src/compressWorker.js:16-17 | The progress messages for encodes 1..n are n messages, the i-th carrying the request's index and the percentage for i + 1 attempts. |
| `CompressWorker.ReportedProgressIncreases` | src/compressWorker.js:16-17 | Within the cap, the progress messages carry strictly increasing values. |
| `CompressWorker.WidthClosedForm` | src/compressWorker.js:7-15 | After k steps the interval width `high - low` is `0.99 / 2^k - 0.04`. |
| `CompressWorker.WidthShrinks` | src/compressWorker.js:10-15 | While the interval is non-empty, one step shrinks it by at least 0.02. |
| `CompressWorker.WidthNonnegativeIff` | src/compressWorker.js:7-15 | The interval is non-empty exactly for the first five steps, so the loop ends after five encodes even without the attempt cap. |
| `AppComponent.QualityAt` | src/App.jsx:24-35 | The quality of the k-th encode is at most 1.0, and it is above the 0.05 floor exactly when k < 19. |
| `AppComponent.QualityStrictlyDecreasing` | src/App.jsx:27-35 | Later encodes use strictly lower qualities. |
| `AppComponent.EncodeEvents` | src/App.jsx:33 | One encoder-call event per call, in the calls' order. |
| `AppComponent.StepDown` | src/App.jsx:23-35 | The target is `mb * 1048576` bytes. The k-th call re-encodes the original at quality `1.0 - 0.05 k`, with `maxSizeMB = mb` and `maxWidthOrHeight = 4000`, for at most 19 calls. Every call but the last produced a file still over target. There are no calls exactly when the original already fits. The result is the original when no call was made, and otherwise what the last call produced or threw. A file it ends with fits unless all 19 encodes were made. |
| `AppComponent.App.constructor` | src/App.jsx:6-9 | The state starts with no image, no result, an empty target and `loading` off. |
| `AppComponent.App.HandleResize` | src/App.jsx:19-44 | Without an image or a target: no encode and no state change. Otherwise the trace grows by `setLoading(true)`, then one event per encoder call in order, then `setLoading(false)`, and `loading` ends off. The calls are those of `StepDown` on the original image and the entered target. The last file is stored, not the closest one; a throw leaves the stored result unchanged. The image and the target are unchanged. |

## Left out

- The encoder's internals (codec, resampling, and how it uses `maxSizeMB`, `maxWidthOrHeight` and `useWebWorker`). The encoder is an arbitrary deterministic function from file and options to a file or a thrown message.
- IEEE-754 rounding of qualities, of `targetMB * 1024 * 1024` and of `tries / 12 * 100`. All arithmetic is exact. The counts come out the same as in doubles: there, 1.0 minus 0.05 nineteen times is 0.049999999999999684, so the step-down loop also stops after 19 encodes, and the bisection widths stay at least 0.009 away from 0, so the bisection also makes exactly five probes.
- `AppComponent.App.HandleResize`: `maxSizeMB` receives the number `mb`, whereas the source passes the state value `targetSizeMB` itself, a string.
- The Web Worker transport (`self.onmessage`, `postMessage`) and `await`. The handler is a method that returns its posted messages in order; there is no concurrency.
- A malformed request (`e.data` without the expected fields) and a non-numeric `targetMB` (NaN). The request is a record with a real-valued target.
- A non-numeric target string in the component. `Number("abc")` is NaN, which makes every size comparison false. The field is modelled as empty or a real number of megabytes; a number input yields the empty string for text that is not a number.
- React rendering: state setters are modelled as immediate field writes, and the re-renders between them are not modelled. `handleImageUpload`, `handleDownload`, the JSX, and `src/About.jsx` are not part of this model: they are UI and browser I/O.
- `console.error(err)` in the component's catch block, which is logging only.
