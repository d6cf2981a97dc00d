# gifscrubber core in Dafny

This is a verified model of the part of the gifscrubber browser extension that turns a decoded GIF into full-canvas frames and plays them under user control. The model covers:

- **Decoding helpers** (`Gif`, `gif.dfy`):
  - the GIF header check;
  - the hex preview of the first bytes, used in error messages;
  - the loop count taken from the application extension;
  - the canvas size;
  - normalisation of frame delays from centiseconds to milliseconds.
- **Frame compositor** (`Compositor`, `compositor.dfy`).
  - `composeFrames` keeps one RGBA work buffer, an `array` of bytes updated in place.
  - For each frame it snapshots the buffer, normalises the patch and draws it over the frame's box.
  - It then emits a copy of the buffer and applies the frame's disposal method: 2 clears the box, 3 restores the snapshot, anything else keeps the buffer. These are the disposal methods of section 23 of the GIF89a specification.
  - A pure reference definition `Composed` specifies the loop, and lemmas about `Composed` state what each emitted bitmap holds.
- **`decodeGif`** (`Decode`, `decode.dfy`): the empty-input error and the order of the steps above.
- **Playback engine** (`Player`, `player.dfy`). The class `GifPlayer` holds the player state and the timing fields. Its methods `play`, `pause`, `tick`, `advanceFrame`, `step`, `seek` and the control handlers update that state in place.
  - Each method is proved against pure reference functions:
    - `EffectiveDelay` gives the delay of a frame;
    - `NextPosition` gives one frame advance under the loop mode and the file's loop count;
    - `Run` is a sequence of advances;
    - `CatchUp` is the catch-up that one animation-frame tick performs.
  - Lemmas about these functions state the source's promises: the loop count gives exactly N passes, catch-up does not drift, and each advance uses up exactly one frame's delay.
- **Performance policy** (`Policy`, `policy.dfy`): the strict threshold classifier that turns on reduced mode.
- **Message templating** (`I18n`, `i18n.dfy`):
  - a key lookup that falls back to the key itself;
  - `{name}` substitution. The regular expression `/\{(\w+)\}/g` becomes a left-to-right scanner.

Modelling choices:

- **Bytes.** Bytes are `int`s in `0..255`, the subtype `Gif.uint8`. A bitmap is a row-major RGBA sequence of them.
- **Canvas calls.** `putImageData` and `clearRect` are region writes. Like the canvas, they only touch pixels inside both the box and the canvas.
- **Host timer.** The timer becomes the flag `tickQueued`, which is the source's `rafId !== null`. The host delivers a callback by calling `Tick(ts)`.
- **Drawing.** Drawing to the visible canvas is recorded as `displayedFrame`.
- **Numbers.** Playback rate and timestamps are `real`. A non-finite number is `None`.
- **Configuration.** The thresholds of the performance policy are configuration values that are not visible to this model, so they are a parameter. The message table is a parameter too.

## Model

| member | source | states |
|---|---|---|
| Gif.StartsWithGifSignature | src/page/gif.ts:15-28 | true exactly when there are at least six bytes and the first six are "GIF87a" or "GIF89a" |
| Gif.SignatureIgnoresTail | src/page/gif.ts:15-28 | bytes after the sixth never change the verdict |
| Gif.HexByte | src/page/gif.ts:32 | a byte becomes exactly two lowercase hex digits, high digit first, padded with "0" |
| Gif.FirstBytesHex | src/page/gif.ts:30-34 | with k = min(count, length): 3k-1 characters (none when k = 0), token i at offset 3i is byte i in hex, and single spaces separate the tokens |
| Gif.FirstBytesHexRoundTrip | src/page/gif.ts:30-34 | reading the preview back gives exactly the first min(count, length) bytes |
| Gif.FindIterations | src/page/gif.ts:40 | `None` exactly when no extension declares a numeric count; otherwise the count of the first extension that declares one |
| Gif.ExtractSourceLoopCount | src/page/gif.ts:36-45 | 1 pass when no count is declared; forever when the first declared count is 0; otherwise that count |
| Gif.DeriveCanvasSize | src/page/gif.ts:47-58 | width and height are at least 1; every frame's right and bottom edges fit; each dimension is 1 or some frame's extent, so the canvas is the smallest that fits |
| Gif.BoxesFitCanvas | src/page/gif.ts:47-58 | a frame with a non-negative corner and positive size lies wholly inside the derived canvas |
| Gif.NormalizeDelay | src/page/gif.ts:118-126 | result in [20, 1000]; a non-finite or non-positive delay gives 100; 2..100 cs gives ten times as many ms; above 100 cs gives 1000; 1 cs gives 20 |
| Gif.NormalizeFrameDelays | src/page/gif.ts:117-127 | one delay per frame, in order, each the normalised delay of its frame and in [20, 1000] |
| Gif.ThreeFrameDelays | src/page/gif.ts:117-127 | raw delays of 10, 5 and 50 centiseconds become 100, 50 and 500 ms |
| Compositor.NormalizePatch | src/page/gif.ts:82-89 | a fresh buffer of exactly w*h*4 bytes: the first min(expected, length) bytes of the patch, then zeros |
| Compositor.PutImageDataInPlace | src/page/gif.ts:93-95 | the buffer afterwards is the region write of the patch over the box; bytes outside the box are kept |
| Compositor.ClearRectInPlace | src/page/gif.ts:107 | the bytes of the box become 0 and the others are kept |
| Compositor.RestoreInPlace | src/page/gif.ts:110 | the buffer becomes the snapshot |
| Compositor.ComposeOne | src/page/gif.ts:73-111 | one loop iteration: the emitted bitmap is the frame drawn over the old buffer; the new buffer is the disposal of that drawing (2 clears the box, 3 restores the snapshot, otherwise keeps it) |
| Compositor.ComposeFrames | src/page/gif.ts:60-115 | fails exactly when some frame has width or height <= 0, naming the first such frame's index and its width and height; otherwise returns the bitmaps of the reference composition `Composed` |
| Compositor.ComposedShape | src/page/gif.ts:72-103 | one output per frame, and every output and the work buffer are full-canvas (W*H*4 bytes) |
| Compositor.ComposedPrefix | src/page/gif.ts:103 | composing more frames never changes a bitmap already emitted |
| Compositor.ComposedStep | src/page/gif.ts:75-111 | output i is frame i drawn on the buffer before it; the next buffer is the disposal of frame i |
| Compositor.PreDrawInitial | src/page/gif.ts:69 | the first frame is drawn onto a fully transparent canvas |
| Compositor.OutputPixel | src/page/gif.ts:82-95 | inside frame i's box, output i holds the patch byte (0 past the end of a short patch); outside, it holds the buffer from before the draw |
| Compositor.DisposalKeeps | src/page/gif.ts:105-111 | a disposal other than 2 and 3 lets the next frame start from exactly the emitted bitmap |
| Compositor.DisposalClears | src/page/gif.ts:105-107 | disposal 2 zeroes exactly the frame's box and keeps every other byte |
| Compositor.DisposalRestores | src/page/gif.ts:74-75 | disposal 3 gives back the buffer from before the frame was drawn |
| Compositor.NoBleedOutsideNextBox | src/page/gif.ts:95-111 | with no disposal, frame i+1 keeps frame i's pixels outside its own box |
| Decode.DecodeGif | src/page/gif.ts:129-148 | fails with `NoFrames` exactly when nothing was decoded; otherwise fails exactly when a frame has invalid dimensions, naming the first such frame with its width and height; on success the canvas is the smallest that holds every box, and at least 1x1 (each dimension is 1 or some frame's extent); there is one full-canvas bitmap and one normalised delay per frame; the bitmaps are the reference composition; and the loop count is the extracted one |
| Policy.ApplyPerformancePolicy | src/page/policy.ts:5-27 | reduced mode exactly when frames > limit, or width*height > limit, or frames*width*height*4 > limit; the warning is absent exactly when reduced mode is off, and otherwise is the translated `warning.largeGifReducedMode` |
| Policy.ThresholdsAreStrict | src/page/policy.ts:11-14 | values equal to the thresholds do not trigger reduced mode, and one more frame or pixel does |
| Policy.ReducedModeMonotone | src/page/policy.ts:10-14 | for non-negative inputs, growing the frame count, width or height never turns reduced mode off |
| I18n.T | src/page/i18n.ts:5-11 | a missing key gives the key itself; with no vars the template is returned unchanged; a template without placeholders is unchanged even with vars |
| I18n.Display | src/page/i18n.ts:10 | a string var is itself; a number is its canonical decimal form: no leading zero, reading back as the number, with a leading "-" when negative |
| I18n.PlaceholderAt | src/page/i18n.ts:10 | a match is "{", one or more word characters, then "}" |
| I18n.KnownPlaceholderReplaced | src/page/i18n.ts:10 | `{name}` with name in vars becomes the string form of its value, and scanning resumes after the "}" |
| I18n.UnknownPlaceholderKept | src/page/i18n.ts:10 | `{name}` with name absent from vars stays the literal `{name}` |
| I18n.UnknownPlaceholdersKept | src/page/i18n.ts:10 | a template whose placeholders all name absent vars comes back unchanged |
| I18n.NoPlaceholdersUnchanged | src/page/i18n.ts:10 | a template with no `{word}` placeholder comes back unchanged |
| I18n.SubstitutePlainPrefix | src/page/i18n.ts:10 | text without "{" is copied through and does not affect the substitution of what follows |
| I18n.ParseNatToString | src/page/i18n.ts:10 | the decimal form of a number reads back as that number |
| Player.ParseLoopMode | src/page/player.ts:62-66 | accepts exactly "source", "infinite" and "none", and rejects every other value |
| Player.EffectiveDelay | src/page/player.ts:207-215 | the delay of a frame is never below 5 ms |
| Player.ReducedModeFloor | src/page/player.ts:209-214 | in reduced mode at a rate of at most 1 the delay is at least 40 ms |
| Player.ReducedFloorPrecedesRate | src/page/player.ts:209-213 | the 40 ms floor is applied before the rate: a 20 ms frame in reduced mode lasts 20 ms at rate 2 and 40 ms at rate 1 |
| Player.DoubleRateHalvesDelay | src/page/player.ts:212-213 | above the 5 ms floor, doubling the rate halves the delay |
| Player.FasterRateShorterDelay | src/page/player.ts:212-214 | a higher rate never lengthens a frame |
| Player.NextPosition | src/page/player.ts:217-246 | an advance keeps the index in range; a stop happens only at the last frame and keeps the position; a move not to the next index is a wrap to frame 0 of the next pass |
| Player.NextPositionCases | src/page/player.ts:217-246 | next index while not at the end; loop mode "none" stops; "infinite" mode or count wraps with pass + 1; a finite count wraps only while the pass is below the count |
| Player.RunAppend | src/page/player.ts:193-200 | j + k advances are j advances followed by k more, unless the first j stopped |
| Player.RunToLastFrame | src/page/player.ts:218-222 | within a pass the frames follow one another to the last frame |
| Player.SourcePasses | src/page/player.ts:229-246 | in source mode with count N, n*T - 1 advances from the first frame of pass 1 reach the last frame of pass n, for every n <= N |
| Player.LoopCountExactPasses | src/page/player.ts:237-246 | count N: N*T - 1 advances reach the last frame of pass N, and the next advance stops there |
| Player.NoLoopStopsAtEnd | src/page/player.ts:225-227 | loop mode "none" stops at the last frame and keeps the index |
| Player.InfiniteNeverStops | src/page/player.ts:229-235 | with infinite mode or an infinite count, no number of advances ever stops |
| Player.ThreeFramesTwoPasses | src/page/player.ts:237-246 | three frames with count 2: five advances reach frame 2 of pass 2, and the sixth stops |
| Player.CatchUp | src/page/player.ts:191-200 | while playing, the time left over is less than the current frame's delay; non-negative owed time stays non-negative; the index stays in range |
| Player.CatchUpAccounting | src/page/player.ts:193-199 | catch-up follows the same path as that many advances; every advance uses up exactly the delay of the frame it leaves, and a stop uses up the last frame's delay |
| Player.CatchUpSplit | src/page/player.ts:188-200 | splitting elapsed time over two ticks reaches the same frame, pass and leftover time as one tick with the sum: no drift |
| Player.GifPlayer.constructor | src/page/player.ts:16-43 | frame 0, paused, rate 1, source loop mode, pass 1, no tick queued, no partial progress |
| Player.GifPlayer.Mount | src/page/player.ts:45-52 | draws the current frame, then starts playing unless there is a single frame, restarting from frame 0 of pass 1 when at the end; rate, loop mode, slider flag and owed time are kept |
| Player.GifPlayer.RenderCurrentFrame | src/page/player.ts:266-269 | the displayed frame becomes the current frame, and nothing else changes |
| Player.GifPlayer.ClampFrameIndex | src/page/player.ts:262-264 | result in range; an index in range is kept; below 0 gives 0; past the end gives the last index |
| Player.GifPlayer.GetEffectiveDelayMs | src/page/player.ts:207-215 | at least 5 ms, and equal to the reference `EffectiveDelay` under the current settings |
| Player.GifPlayer.QueueTick | src/page/player.ts:170-175 | a tick is queued when playing, and nothing changes otherwise |
| Player.GifPlayer.Play | src/page/player.ts:142-157 | nothing for a single frame; at or past the last frame, restarts at frame 0 of pass 1 and draws it; then playing, tick queued, no last timestamp |
| Player.GifPlayer.Pause | src/page/player.ts:159-168 | not playing, no tick queued, no last timestamp, no partial progress; position, settings and display unchanged |
| Player.GifPlayer.TogglePlayback | src/page/player.ts:138-140 | when playing, it is `Pause`: timing reset, with position and display kept; otherwise it is `Play`: nothing for a single frame, and otherwise playing with a fresh clock, restarting at frame 0 of pass 1 (drawn) when at the last frame; rate, loop mode and slider flag are kept |
| Player.GifPlayer.AdvanceFrame | src/page/player.ts:217-246 | result and new position are those of the reference `NextPosition`; a successful advance draws the new frame and a stop draws nothing |
| Player.GifPlayer.Tick | src/page/player.ts:177-205 | ignored when paused; the first tick after a gap only records the timestamp; otherwise the new position, playing flag and leftover time are those of `CatchUp` on the owed time, a stop leaves the player paused with no tick queued, and a tick is queued again while playing |
| Player.GifPlayer.Step | src/page/player.ts:248-253 | paused with the timing fields reset, and at the clamped index current + delta, which is drawn; it never wraps |
| Player.GifPlayer.Seek | src/page/player.ts:255-260 | paused with the timing fields reset, and at the clamped target, which is drawn |
| Player.GifPlayer.OnLoopSelectChange | src/page/player.ts:62-69 | an unknown mode value leaves the loop mode unchanged; a known value is adopted |
| Player.GifPlayer.OnSpeedSelectChange | src/page/player.ts:71-78 | a non-finite or non-positive rate is ignored; any other value is adopted |
| Player.GifPlayer.OnSliderInput | src/page/player.ts:80-90 | in reduced mode it moves the index and marks the drag pending, without drawing, pausing or touching the clock; otherwise it seeks (paused, timing reset, target drawn); the pass, rate and loop mode are kept |
| Player.GifPlayer.OnSliderChange | src/page/player.ts:92-98 | nothing unless a drag is pending; then it clears the flag and seeks to the slider value (paused, timing reset, value drawn), keeping the pass, rate and loop mode |

Every method of `GifPlayer` also preserves `Valid()`:

- the index is in range;
- the rate is positive;
- the pass number is at least 1;
- a tick is queued exactly while playing;
- a player with a single frame never plays;
- a paused player has no last timestamp and no partial progress.

The methods also keep `ShowsCurrentFrame()`: the visible canvas shows the current frame, except while a reduced-mode slider drag defers the redraw.

## Left out

- `fetchGifBytes` (src/page/gif.ts:6-13) is a network fetch. It is not part of this model.
- `parseGIF` and `decompressFrames` are the external GIF decoder, and their source is not visible. Their results are the inputs of `Decode.DecodeGif`: a `ParsedGif` with the application extensions, and a sequence of `GifFrame`s.
- The only exception paths modelled are the invalid-dimension error and the empty-input error. The error raised when the canvas cannot provide a 2D context (src/page/gif.ts:64-67, src/page/player.ts:24-27) and the wrapping of an exception from `putImageData` (src/page/gif.ts:96-101) are host failures and are not modelled.
- Pixel values are exact. The browser's premultiplied-alpha rounding in `getImageData`/`putImageData` is not modelled.
- `syncUi`, `bindKeyboard`, `isEditableTarget` and the DOM modules (src/page/ui.ts, src/page/dom.ts, src/page/main.ts, src/page/errors.ts, src/content.ts, src/page.ts) write widget text, attach listeners, or detect pages from `window`/`document`. The commands that keyboard keys produce (`step(±1)`, `step(±SHIFT_JUMP)`, toggle) are covered by `Step` and `TogglePlayback`. The value of `SHIFT_JUMP` comes from a constants module that is not part of this model.
- `requestAnimationFrame` and `cancelAnimationFrame` are the host timer. They are abstracted as the flag `tickQueued`, and ticks arrive as calls to `Tick`. No concurrency is modelled: a tick runs to completion.
- JavaScript floating point: rate and timestamps are exact `real`s, and delays are integers with no rounding model. `Number.isFinite` becomes an `Option`.
- Player.GifPlayer.OnSliderInput: requires an index in range. A range input from 0 to the last index (src/page/ui.ts:139-143) only produces such values. `OnSliderChange` has the same requirement.
- Player.GifPlayer.constructor: requires at least one frame. `decodeGif` never yields zero frames; with none, `mount` would pass an undefined frame to `putImageData`.
- `PlayerState` is inlined. Its fields are fields of `GifPlayer`, and the fields the source never reassigns are `const`.
- I18n.T: the message table is a Dafny map. In JavaScript, a key inherited from `Object.prototype` would also be found, and this is not modelled. Numbers in `vars` are integers; fractional numbers are not modelled.
- Gif.FirstBytesHex: `count` is a natural number. A negative count, which `slice` would count from the end, is not modelled; the source only uses the default of 16.
- The constants `LARGE_FRAME_COUNT`, `LARGE_PIXELS` and `LARGE_ESTIMATED_BYTES` and the message table `en.json` are not visible. The thresholds are the `Thresholds` parameter and the table is the `messages` parameter.
- Player.ReducedModeFloor: the 40 ms reduced-mode floor is applied to the stored delay before dividing by the rate (src/page/player.ts:209-214). Above rate 1 a frame in reduced mode can therefore last less than 40 ms. `Player.ReducedModeFloor` proves the floor for rates of at most 1, and `Player.ReducedFloorPrecedesRate` exhibits 20 ms at rate 2.
- `composeFrames` on no frames returns no bitmaps; only `decodeGif` rejects an empty frame list (src/page/gif.ts:132-134), with `Decode.NoFrames`.
