# E-ink frame display path, modelled in Dafny

This project models the display-update path of an e-ink picture frame. The
frame receives images over MQTT and shows them on an IT8951-driven
electrophoretic panel. The model covers:

- **Rotation resolver** (`Rotation`, used by `Screen` and `App`). It maps a
  rotation angle to the effective (width, height). Python's float `/` and
  `%` are modelled over exact reals. The test is proved to mean "the angle
  is an odd multiple of 90".
- **Brightness corrector** (`Brightness`). It works on a 256-bucket luminance
  histogram: pixel count, weighted sum and mean luminance (division by zero
  included), the three-band factor policy, and the decision
  `enhance_brightness` takes.
- **Python `str.replace`** (`PyStr`), for the MQTT topic placeholder. It
  scans left to right without overlaps, and an empty pattern is handled the
  way Python handles it. It is related to `split`/`join` and to an
  independent "leftmost split" characterisation.
- **Panel driver** (`Device`). A fake panel records every call in a trace
  and raises on the calls it is configured to fail. `Issued` gives the
  calls a fixed sequence actually makes when the first raising call ends it.
- **Screen driver** (`Screen.EInkScreen`): its constructor defaults, the
  start-up step of `run`, `display_image_on_epd` (prepare, clear, display,
  sleep, close) and `display_image`, which catches everything.
- **Web service display path** (`App`): `set_rotate`,
  `replace_device_id_placeholder`, `partial_update` (white fill, full GC16
  refresh, then partial DU refresh, all exceptions swallowed) and
  `display_image_on_epd` with its "Display not initialized" guard. The
  module-level `display`, the placeholder and the device id are explicit
  parameters.

Behaviour a reader might not expect:

- An image with no pixels makes `enhance_brightness` divide by zero
  (`ZeroDivisionError`). It is not returned unchanged.
- An angle that is not a multiple of 90 (45, 135) leaves the dimensions
  unchanged. It is not reported as a configuration error.
- When prepare, clear or display raises, sleep and close are **not**
  called. There is no cleanup on the failure path
  (`Screen.FaultBeforeSleepSkipsCleanup`).
- `display_image` does not run the brightness correction: the call is
  commented out at `src/e_ink_screen.py:58`.
- `enhance_brightness` applies the configured factor, not the adjusted one
  (see Findings).

## Model

| member | source | states |
|---|---|---|
| `Rotation.SetRotate` | src/e_ink_screen.py:108-114 | width and height are swapped exactly when the angle is an odd multiple of 90; otherwise the pair is returned as given; the result is always a rearrangement of the two inputs |
| `Rotation.SwapTestIffOddMultiple` | src/e_ink_screen.py:110 | the float test `(rotate / 90) % 2 == 1` holds exactly when rotate is an odd multiple of 90, negative angles included |
| `Rotation.SetRotateInvolutive` | src/e_ink_screen.py:109-114 | resolving twice with the same angle gives back the original pair |
| `Rotation.SetRotateCompose` | src/e_ink_screen.py:109-114 | for multiples of 90, resolving by a and then by b equals resolving by a + b (90 then 270 is the identity) |
| `Rotation.SampleAngles` | src/e_ink_screen.py:110-113 | 90, 270, -90 and 450 swap; 0, 180, 45 and 135 do not |
| `App.SetRotate` | app.py:39-42 | the service's copy swaps for angles 90 and 270 modulo 360, keeps 0 and 180, and agrees with the screen driver's resolver on every angle |
| `Brightness.PixelsZeroIff` | src/e_ink_screen.py:73 | the pixel count is zero exactly when every bucket is zero |
| `Brightness.WeightedBound` | src/e_ink_screen.py:74 | the weighted sum is at most the top bucket index times the pixel count |
| `Brightness.SingleBucketSums` | src/e_ink_screen.py:73-74 | a histogram with all pixels in bucket k counts h[k] pixels and has weighted sum k·h[k] |
| `Brightness.ZeroWeighted` | src/e_ink_screen.py:74 | an all-zero histogram has weighted sum zero |
| `Brightness.Mean` | src/e_ink_screen.py:71-74 | the mean is a division-by-zero error exactly when the histogram is all zero; otherwise it lies between 0 and the top bucket index, so at most 255 for 256 buckets |
| `Brightness.SingleBucketMean` | src/e_ink_screen.py:71-74 | when all pixels are in bucket k, the mean is k |
| `Brightness.AdjustBrightnessFactor` | src/e_ink_screen.py:87-93 | factor + 0.2 up to 100, the factor itself strictly between 100 and 105, factor - 0.2 from 105; the result always stays within 0.2 of the factor |
| `Brightness.AdjustAntitone` | src/e_ink_screen.py:87-93 | a brighter image never gets a larger adjusted factor |
| `Brightness.AdjustExamples` | src/e_ink_screen.py:87-93 | 110 with 1.0 gives 0.8; 102 with 0.8 gives 0.8; 0 with 1.0 gives 1.2 |
| `Brightness.EnhanceBrightness` | src/e_ink_screen.py:69-85 | an empty image raises division by zero; the image is unchanged exactly when the mean is at least the threshold; otherwise it is enhanced with the configured factor while the adjusted factor is only logged |
| `Brightness.ThresholdIsStrict` | src/e_ink_screen.py:79 | a mean equal to the threshold leaves the image unchanged |
| `Brightness.AppliedMatchesLoggedOnlyWhenNeutral` | src/e_ink_screen.py:80-83 | the factor applied equals the factor logged only when the mean is strictly between 100 and 105 |
| `Brightness.LowThresholdOnlyDarkBand` | src/e_ink_screen.py:79-81 | with a threshold of at most 100 (the default is 0.5), every enhanced image falls in the darkest band and logs factor + 0.2 |
| `Brightness.AllBlackAsWritten` | src/e_ink_screen.py:79-83 | an all-black image under the defaults is enhanced with 1.0 while 1.2 is logged |
| `Brightness.EnhanceBrightnessIntended` | src/e_ink_screen.py:69-85 | the corrected version: same decision, and the enhancement uses the adjusted factor |
| `Brightness.AllBlackIntended` | src/e_ink_screen.py:79-83 | with the correction, an all-black image under the defaults is enhanced with 1.2 |
| `Brightness.IntendedDiffersOnlyInFactor` | src/e_ink_screen.py:79-85 | the two versions agree on errors and on whether to enhance, and differ only in the factor applied |
| `PyStr.InsertEverywhere` | app.py:37 | with an empty pattern the result is len(s) + (len(s) + 1)·len(rep) characters long |
| `PyStr.InsertEverywhereContents` | app.py:37 | with an empty pattern the result holds a copy of the replacement at each of the len(s) + 1 slots, and character i of s right after the copy in front of it |
| `PyStr.InsertEverywhereIsJoin` | app.py:37 | with an empty pattern, replace equals the replacement joined over `[""] + list(s) + [""]` |
| `PyStr.ScanCopiesPrefix` | app.py:37 | text in which no occurrence starts is copied unchanged, in order |
| `PyStr.ReplaceAbsent` | app.py:37 | a string in which the pattern does not occur is returned unchanged |
| `PyStr.ReplaceJoinsLeftmostSplit` | app.py:37 | for any cutting at the occurrences a left-to-right scan finds, the result is the pieces in order with the replacement between them |
| `PyStr.SplitJoin` | app.py:37 | joining the split pieces with the pattern gives back the string |
| `PyStr.SplitIsLeftmost` | app.py:37 | split cuts the string exactly at the non-overlapping, left-to-right occurrences of the pattern |
| `PyStr.ReplaceIsJoinOfSplit` | app.py:37 | for a non-empty pattern, replace equals the replacement joined over the split pieces |
| `PyStr.ReplaceBySelf` | app.py:37 | replacing a pattern, empty or not, by itself changes nothing |
| `PyStr.InsertNothing` | app.py:37 | inserting the empty string everywhere changes nothing |
| `App.ReplaceDeviceIdPlaceholder` | app.py:36-37 | a topic without the placeholder is unchanged; otherwise the text between placeholders is kept in order with the device id in each gap; an empty placeholder puts the device id before every character and at the end, with the topic's characters in order between the copies; a device id equal to the placeholder changes nothing |
| `Device.Panel.constructor` | src/e_ink_screen.py:35 | a freshly loaded driver has the given dimensions and faults and has made no call |
| `Device.Panel.Invoke` | src/e_ink_screen.py:98-105 | each device call is appended to the trace and raises exactly when it is one of the faulty calls |
| `Device.Issued` | app.py:111-122 | the calls made form a prefix of the sequence: all of them when none raises, otherwise up to and including the first faulty call, with no faulty call before it |
| `Device.IssuedAllIff` | app.py:111-122 | the whole sequence is issued exactly when no call before the last raises |
| `Screen.SequenceOutcome` | src/e_ink_screen.py:95-106 | the sequence returns normally exactly when no call raises; otherwise it raises the fault of the first faulty call: that call is faulty and every call before it completes |
| `Screen.IssuedDisplayCalls` | src/e_ink_screen.py:98-105 | the first faulty call among prepare, clear, display, sleep and close ends the calls the panel receives |
| `Screen.EInkScreen.constructor` | src/e_ink_screen.py:12-28 | no driver, no images, an empty config, and the given dimensions and brightness settings; defaults 1600, 1200, 1.0, 0.5 |
| `Screen.EInkScreen.Run` | src/e_ink_screen.py:35-40 | the driver is attached and given the configured dimensions; resolving them with rotation 0 leaves width and height as configured |
| `Screen.EInkScreen.DisplayImageOnEpd` | src/e_ink_screen.py:95-106 | the image is kept as the displayed copy; with no driver it raises without any panel call; otherwise the panel receives prepare, clear, display(copy), sleep, close up to the first raising call, and the method raises that call's fault |
| `Screen.EInkScreen.DisplayImage` | src/e_ink_screen.py:55-62 | nothing propagates: the same panel calls are made, the panel's dimensions are kept, and the fault the display path raises (no driver, or the first faulty call) is logged instead of raised |
| `Screen.FaultBeforeSleepSkipsCleanup` | src/e_ink_screen.py:98-105 | if prepare, clear or display raises, neither sleep nor close is called |
| `Screen.HealthyPanelRunsFullLifecycle` | src/e_ink_screen.py:98-105 | a panel without faults receives prepare, clear, display of the given image, sleep and close, each once and in that order |
| `App.IssuedPartialUpdateCalls` | app.py:113-120 | the first faulty call among fill, text, full refresh, text and partial refresh ends the calls the display receives |
| `App.PartialUpdate` | app.py:106-122 | with no display it only logs; otherwise the display receives the fill, text, full, text, partial sequence up to the first raising call, the dimensions are unchanged, and nothing is raised |
| `App.DisplayImageOnEpd` | app.py:96-104 | with no display it raises HTTP 500 "Display not initialized" and makes no call; otherwise it runs the partial update, returns normally and ignores its image |
| `App.FullRefreshPrecedesPartial` | app.py:113-120 | whatever fails, the first call fills (0, 0, width, height) with 0xFF; the full refresh precedes the partial one; each happens at most once; a partial refresh implies a full one |

## Left out

- MQTT client setup, `on_connect`, `on_message`, the heartbeat (`publish_periodically`, `start_background_tasks`), `get_status_payload` and `get_ip`. These are network I/O, sockets, the hostname and the wall clock.
- FastAPI `lifespan`, `/some-endpoint`, `/config` and `uvicorn.run`. These are web-framework plumbing. `src/config_loader.py` is not part of this model.
- `_place_text`: font loading and text measurement are library internals. Each call is one `PlaceText` event with its text and x offset.
- PIL's grayscale conversion, histogram, `ImageEnhance.Brightness` and `Image.copy`. They are abstracted into a histogram input, a `Decision` value and an equal image value.
- `app2.py`: a standalone GPIO utility with no logic.
- Loading the driver in `run` and its `exit()` paths: a foreign driver factory and process termination. `Run` is given an already loaded driver.
- The use of `replace_device_id_placeholder` before its definition (app.py:28-29). This is module initialisation order, not behaviour of the function.
- `threading.Lock` and `async` scheduling: concurrency is not modelled.
- App.PartialUpdate: the three `print` progress messages (app.py:112, 114, 118) are console output only and are not modelled. The logged error is modelled.
- Screen.EInkScreen.DisplayImage: the five-second `time.sleep` after a successful display is not modelled. It is timing, not a device call.
- App.DisplayImageOnEpd: its `except` branch is unreachable, because `partial_update` catches every exception after its None check.
- Rotation.SetRotate: it uses exact real division. Float rounding for angles beyond 2^53 is not modelled.
- Brightness.Mean: the division and the ±0.2 factor arithmetic use exact reals, not IEEE doubles.
- The configuration dictionary passed to the driver factory and `image_base` are kept as fields that nothing reads.

## Findings

| source | as written | input that shows it | evidently intended | confidence | as-written member | corrected member |
|---|---|---|---|---|---|---|
| src/e_ink_screen.py:80-83 | computes and logs the adjusted factor, then enhances with `self.brightness_factor` | an all-black image, threshold 0.5, factor 1.0: enhanced with 1.0, so the brightness does not change, while "Increase brightness by 1.2" is logged | enhance with the adjusted factor, 1.2 here | medium (the log line and the unused variable point to it), not executed | `Brightness.AllBlackAsWritten` | `Brightness.AllBlackIntended` |
