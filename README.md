# vidium screencast recorder — a Dafny model of its frame loop

vidium opens a page in Chromium, asks the browser for a JPEG screencast and
writes the frames into an H.264 MP4 file. This project models the part of
`main` that turns screencast frame events into video:

- **Frame loop.** For each frame event, in delivery order, the loop:
  1. decodes the base64 payload;
  2. decodes the JPEG to RGB;
  3. views the image as a (channel, row, column) array and permutes it to
     (row, column, channel);
  4. reads the frame's timestamp and advances the presentation clock;
  5. encodes the frame at the clock's position;
  6. acknowledges the event with its session id.

  When the event stream ends, it finishes the encoder.
- **Presentation clock.** The first frame is at position zero. Each later
  frame advances the position by the time elapsed since the previous frame's
  timestamp. A timestamp earlier than the previous one makes the `Duration`
  subtraction panic.
- **Pixel layout.** `into_ndarray3` gives shape (3, height, width).
  `permuted_axes([1, 2, 0])` gives (height, width, 3), with element
  `[r][c][k]` taken from `[k][r][c]`.
- **Default output path.** Without `--output`, the URL's host becomes a path
  with the extension set to `mp4`, the way `PathBuf::set_extension` does it.

The Dafny modules:

- `PresentationClock` (clock.dfy) holds the clock and its run over a sequence
  of timestamps.
- `PixelLayout` (layout.dfy) holds the channel-major view and the axis
  permutation.
- `OutputPath` (output_path.dfy) holds the file-name, file-stem, extension
  and set-extension logic of Rust paths for a one-component path, and the
  destination choice.
- `Screencast` (pipeline.dfy) holds the loop:
  - `Record` is the loop as a method, with `prev_duration` and `position` as
    locals.
  - `HandleFrame` is its body for one event.
  - Both are proved equal to the functions `StepOf` and `From`, which the
    lemmas are about.
- `Wrappers` (wrappers.dfy) holds `Option` and `Result`.

The code outside the model is given to the loop as an `Env` value of total
functions:

- the base64 decoder;
- the JPEG decoder;
- whether the encoder accepts the k-th frame;
- whether the k-th acknowledgement goes through;
- whether `finish` succeeds.

`Record` returns the calls it made, in order (`Encode(frame, position)`,
`Ack(session)`, `Finish`), and how the loop ended (an `Exit`). An `Exit`
records:

- how many frames were encoded and acknowledged;
- the ending, which is one of:
  - a normal finish;
  - a panic, for a failed `unwrap`/`expect` or a clock underflow;
  - the early return of `?` when an acknowledgement fails.

A timestamp below its predecessor is neither clamped nor reported: the
`Duration` subtraction at main.rs:124 panics. The model follows the code:
`Tick` fails with `Underflow`, and the loop ends in
`Panicked(ClockUnderflow)`. Equal timestamps are not an error.

The explicit `encoder.finish()` call (main.rs:146) comes after the loop, so
it is skipped whenever the loop does not run to the end of the stream: on
every panic (base64, JPEG, missing timestamp, clock underflow, refused
encode) and on the early `?` return of a failed acknowledgement
(main.rs:143). `FinishOnce` proves that `Finish` is called exactly when the
stream ended.

## Model

| member | source | states |
|---|---|---|
| PresentationClock.Tick | packages/vidium/src/main.rs:123-128 | The step fails exactly when there is a previous timestamp and the new one is smaller. On success the previous timestamp becomes the new one. The first frame leaves the position unchanged. A later frame advances it by exactly `ts - prev`. |
| PresentationClock.Run | packages/vidium/src/main.rs:94-128 | Over a sequence of frames, yields one position per frame, or the index of a frame that exists. |
| PresentationClock.RunFrom | packages/vidium/src/main.rs:123-128 | Starting after a frame stamped p, the run succeeds iff p followed by the timestamps is non-decreasing. Position j is the start position plus `ts[j] - p`. It fails at the first frame whose timestamp is below its predecessor's. |
| PresentationClock.RunFromStart | packages/vidium/src/main.rs:94-128 | From `prev_duration = None` and position zero: the run succeeds iff the timestamps never decrease, and frame j is then at `ts[j] - ts[0]`. On failure at i: `i > 0`, `ts[i] < ts[i-1]`, and the frames before i are in order. |
| PresentationClock.RunCons | packages/vidium/src/main.rs:123-128 | The run fails at the first frame when its tick fails, and otherwise one frame past where the rest of the run fails. When both succeed, the first frame's position comes first, then the rest's. |
| PresentationClock.PositionsMonotone | packages/vidium/src/main.rs:123-128 | On a successful run, the first position is zero and positions never decrease. Two frames with the same timestamp get the same position. |
| PresentationClock.EvenStream | packages/vidium/src/main.rs:94-128 | Frames stamped 0, 41.7 ms and 83.3 ms are placed at exactly those offsets. |
| PresentationClock.OutOfOrderStream | packages/vidium/src/main.rs:123-125 | Frames stamped 0, 33 ms and 20 ms fail at the third frame. |
| PresentationClock.SingleFrame | packages/vidium/src/main.rs:94-95 | A single frame is placed at position zero, whatever its timestamp. |
| PixelLayout.ChannelMajor | packages/vidium/src/main.rs:112 | `into_ndarray3` of an RGB image is a well-shaped (3, height, width) array. |
| PixelLayout.PermuteAxes | packages/vidium/src/main.rs:113 | `permuted_axes([1, 2, 0])` turns shape (d0, d1, d2) into (d1, d2, d0). It keeps the element count, and `out[r][c][k] == in[k][r][c]`. |
| PixelLayout.RestoreAxes | packages/vidium/src/main.rs:113 | The inverse permutation, `[2, 0, 1]`, turns shape (d0, d1, d2) into (d2, d0, d1). |
| PixelLayout.RestoreAfterPermute | packages/vidium/src/main.rs:113 | The permutation loses nothing: undoing it gives back the channel-major array. |
| PixelLayout.FramePixel | packages/vidium/src/main.rs:106-113 | The encoded frame's element `[y][x][c]` is byte `(y * width + x) * 3 + c` of the decoded RGB image, which is always in bounds. |
| PixelLayout.FrameOfImage | packages/vidium/src/main.rs:106-113 | The encoded frame is well shaped, with shape (height, width, 3), and holds exactly as many elements as the image has bytes. |
| PixelLayout.PixelIndexInBounds | packages/vidium/src/main.rs:107 | Every (row, column, channel) of an RGB8 image addresses a byte of its buffer. |
| OutputPath.LastDot | packages/vidium/src/main.rs:85 | The index found holds a '.', and no '.' follows it. None means the name has no '.'. |
| OutputPath.FileName | packages/vidium/src/main.rs:84-85 | A one-component path has no file name exactly when it is "", "." or "..". Otherwise the file name is the whole path. |
| OutputPath.FileStem | packages/vidium/src/main.rs:85 | There is a stem exactly when there is a file name. It is a non-empty prefix of the path: the text before the last '.', or the whole name when it has no '.' or its only last '.' is the leading one. |
| OutputPath.Extension | packages/vidium/src/main.rs:85 | An extension exists exactly for a path with a file name whose last '.' is not its first character. It is the text after that last '.', and it has no '.'. |
| OutputPath.SetExtension | packages/vidium/src/main.rs:85 | A path without a file name is left unchanged. |
| OutputPath.SetExtensionReplaces | packages/vidium/src/main.rs:84-86 | For a non-empty extension without '.': the result is the stem, a '.', then the extension. Its stem is the old stem and its extension is the new one. |
| OutputPath.LastDotAfter | packages/vidium/src/main.rs:85 | The last dot of `stem + "." + ext`, for a dot-free ext, is the one added. |
| OutputPath.SetExtensionIdempotent | packages/vidium/src/main.rs:85 | Setting the same extension a second time changes nothing. |
| OutputPath.Destination | packages/vidium/src/main.rs:81-88 | `--output` wins when it is given. Otherwise a missing host is an error (the `unwrap` panics). A host with a file name gives a path with the host's stem and the extension `mp4`. |
| OutputPath.DottedHostDestination | packages/vidium/src/main.rs:81-88 | Host `example.com` gives `example.mp4`: the host's last dot is read as an extension and replaced. |
| OutputPath.MultiDotHostDestination | packages/vidium/src/main.rs:81-88 | Host `www.example.com` gives `www.example.mp4`: only the text after the last dot is replaced. |
| OutputPath.PlainHostDestination | packages/vidium/src/main.rs:81-88 | Host `localhost` gives `localhost.mp4`, and a URL without a host gives no destination. |
| Screencast.Timestamps | packages/vidium/src/main.rs:119-121 | Has one timestamp per event, in order. |
| Screencast.DecodeFrame | packages/vidium/src/main.rs:99-113 | Fails with `Base64Invalid` exactly when base64 fails, and with `JpegInvalid` when the JPEG fails; no other failure occurs. Succeeds iff both decoders succeed. On success the frame has shape (height, width, 3) and as many elements as the image has bytes. |
| Screencast.DecodedPixel | packages/vidium/src/main.rs:99-113 | A decoded frame's element `[y][x][c]` is byte `(y * width + x) * 3 + c` of the decoded JPEG's RGB buffer. |
| Screencast.StepOf | packages/vidium/src/main.rs:98-143 | Goes on only when decoding succeeded, the timestamp is present and the clock ticked. A stop is never a finish. A stop makes no call, or only the encode, or the encode then the acknowledgement of this event's session. The encode carries the decoded frame at the clock's new position. |
| Screencast.StepFault | packages/vidium/src/main.rs:119-143 | A step that goes on had its encode and its acknowledgement accepted, so a refused encode or a failed acknowledgement always stops the loop. Each kind of stop has its own cause: a missing timestamp after a successful decode, an underflowing tick, a refused encode of the frame just handed over, or a refused acknowledgement of this event's session that was tried only after the encoder accepted the frame. |
| Screencast.From | packages/vidium/src/main.rs:97-146 | The number of completed frames lies between k and k plus the remaining events. It reaches that maximum exactly when the stream ended and `finish` was called. |
| Screencast.FromStops | packages/vidium/src/main.rs:97-143 | A stopping step ends the loop with its calls and its ending. |
| Screencast.FromGoesOn | packages/vidium/src/main.rs:97-144 | A completed step emits the encode and the acknowledgement, then continues with the new clock at the next event. |
| Screencast.HandleFrame | packages/vidium/src/main.rs:98-143 | The imperative loop body, from `prev_duration` and `position`, returns exactly the step `StepOf` describes. |
| Screencast.Record | packages/vidium/src/main.rs:94-146 | The loop, with its two mutable locals, makes exactly the calls and reaches exactly the exit of the specification `Expected`. |
| Screencast.FromCounts | packages/vidium/src/main.rs:97-146 | Acknowledgements never outnumber encodes, and at most one encode goes unacknowledged. The trace length is encodes plus acknowledgements plus one if finished. A finished stream has every event encoded and acknowledged. |
| Screencast.FromEncodeAt | packages/vidium/src/main.rs:112-133 | The call at index 2j encodes the decoded, permuted image of event j, and that event carried a timestamp. |
| Screencast.FromAckAt | packages/vidium/src/main.rs:137-143 | The call at index 2j+1 acknowledges event j's session id. |
| Screencast.FromFinish | packages/vidium/src/main.rs:146 | `finish` appears iff the stream ended, and then only once, as the last call. |
| Screencast.FromPositionAt | packages/vidium/src/main.rs:119-133 | Frame j is encoded at the position the clock run over events 0..j reaches. |
| Screencast.FromUnderflow | packages/vidium/src/main.rs:123-125 | A clock panic stops the loop at an event that has a timestamp, and the clock run over the events up to it fails exactly there. |
| Screencast.FromDecodeStop | packages/vidium/src/main.rs:99-121 | A base64, JPEG or missing-timestamp panic stops the loop at the event whose stage failed. |
| Screencast.FromRefusal | packages/vidium/src/main.rs:131-143 | A refused encode or a failed acknowledgement stops the loop at the event whose frame or session was refused. A failed acknowledgement comes after the encoder accepted that event's frame. |
| Screencast.FromFinishOutcome | packages/vidium/src/main.rs:146 | Once the stream ended, the run ends in `Finished` exactly when `finish` succeeds, and in a `FinishRejected` panic otherwise. |
| Screencast.FromAccepted | packages/vidium/src/main.rs:131-143 | Every frame completed from the k-th event on was accepted by the encoder at the position it was encoded at, and its acknowledgement went through. |
| Screencast.FirstPosition | packages/vidium/src/main.rs:119-133 | The first frame encoded from the k-th event on is at the position the clock reaches on that event's timestamp. |
| Screencast.FromShift | packages/vidium/src/main.rs:97-144 | A frame j > 0 from the k-th event on exists only when the first event's step went on, and it is frame j - 1 of the loop resumed at the next event with the new clock. |
| Screencast.RunAfterFirst | packages/vidium/src/main.rs:119-128 | Once the first event's tick succeeds, the clock's position at event j is the position the resumed clock reaches at event j - 1 of the rest. |
| Screencast.TimestampsCons | packages/vidium/src/main.rs:119-121 | The timestamps of the first n events are the first event's followed by those of the next n-1. |
| Screencast.FramesInOrder | packages/vidium/src/main.rs:97-144 | In a whole run, event j's frame is encoded as call 2j and acknowledged as call 2j+1: one encode then one acknowledgement per event, in delivery order. |
| Screencast.EncodedPixel | packages/vidium/src/main.rs:99-133 | In a whole run, the frame of encode call 2j has, at `[y][x][c]`, byte `(y * width + x) * 3 + c` of event j's decoded image. |
| Screencast.CompletedFramesAccepted | packages/vidium/src/main.rs:97-144 | In a whole run, every completed frame j was encoded as call 2j with the encoder accepting it, and event j's acknowledgement went through. |
| Screencast.FinishOnce | packages/vidium/src/main.rs:97-146 | `finish` is called iff the stream ended, iff every event completed. It then comes once, last, after 2n calls that encode and acknowledge all n events. The run then ends in `Finished` exactly when `finish` succeeds; a failing `finish` panics. |
| Screencast.PositionsFollowTimestamps | packages/vidium/src/main.rs:94-133 | Frame j is encoded at its timestamp minus the first frame's, so the first frame is at zero. |
| Screencast.EncodedTimestampsInOrder | packages/vidium/src/main.rs:119-133 | The timestamps of the frames that reached the encoder never decrease. |
| Screencast.PositionsNeverDecrease | packages/vidium/src/main.rs:123-133 | For any two encoded frames i <= j, both are encode calls in the trace and frame i's position is at most frame j's. |
| Screencast.UnderflowStopsTheLoop | packages/vidium/src/main.rs:123-146 | Non-decreasing timestamps never panic the clock. A clock panic happens at an event n > 0 whose timestamp is below event n-1's, after exactly n frames were encoded and acknowledged, and without `finish`. |
| Screencast.StopsAtTheFaultyFrame | packages/vidium/src/main.rs:99-146 | A run that does not reach `finish` stops at an existing event, and it is that event's own stage that failed. A failed acknowledgement follows an accepted encode of that event's frame. |
| Screencast.CooperativeGoesOn | packages/vidium/src/main.rs:97-144 | When every external call succeeds, an event the clock accepts is encoded at the new position and acknowledged. |
| Screencast.ThreeFrameStream | packages/vidium/src/main.rs:94-146 | Three frames at 0, 41.7 ms and 83.3 ms give encode/ack pairs at those offsets, then `finish`. |
| Screencast.OutOfOrderFrame | packages/vidium/src/main.rs:94-146 | Frames at 0, 33 ms and 20 ms: two encode/ack pairs, then a clock panic, and no `finish`. |

## Left out

- **Command-line parsing** (`Args`, `Encode`, lines 11-41). The model takes
  `--output` and the URL's host as parameters of `Destination`.
- **Browser and page.** Launching the browser, the handler task, creating and
  navigating the page, starting the screencast, subscribing to frame events,
  closing the browser and joining the handler (lines 43-79 and 148-150) are
  all left out. The event stream is a finite sequence of events.
- **Decoders.** Base64 decoding and JPEG decoding with RGB conversion are
  not modelled. They appear only through their outcomes in `Env`: a byte
  buffer or failure, an RGB image or failure.
- **Encoder.** `video_rs` (initialisation, encoder creation with 1600x1200
  settings, the H.264 encoding itself and writing the file) is outside the
  model. Whether `encode`, the acknowledgement and `finish` succeed are
  parameters. A failure of `video_rs::init` or `Encoder::new` before the
  loop is not modelled.
- **Timestamp conversion.** The frame timestamp's conversion from
  floating-point seconds to whole nanoseconds (the `as u64` cast at line 120)
  is not modelled. Events carry whole nanoseconds or no timestamp.
- PresentationClock.Tick: treats `position.aligned_with(&delta).add()` as
  exact addition of nanoseconds. The time-base alignment and rounding of
  `video_rs::Time` are not modelled.
- **Encoder on drop.** The `?` return and a panic that unwinds drop the
  local `encoder`; what `video_rs::Encoder` does to the file then is not
  part of this model. `Finish` in a trace means only the explicit call at
  main.rs:146, not whether the MP4 ends up finalized.
- **Logging and timing.** Tracing, timing measurements and the `println!` of
  the frame's dimensions have no effect on the calls or the exit and are
  left out.
- **External outcomes as functions.** The answers of the encoder and the
  transport are pure functions of the frame index and the call's arguments.
  Any dependence on earlier calls is not captured.
- OutputPath.SetExtension: follows Unix path rules for a host, which is a
  one-component path without '/'. An `--output` path is never given a new
  extension by the code, so `Destination` passes it through unparsed.
