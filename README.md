# Camera frame hand-off of itsamecube, in Dafny

This project models the core of `src/appsink.rs`. A GStreamer pipeline (`v4l2src ! jpegdec ! appsink`) is asked for 176x144 frames in the caps format "RGB". The appsink's `new-sample` callback converts each decoded frame into the engine's RGBX layout and writes it into a shared `[u8; 176 * 144 * 4]` buffer (`ImageRaw`). `main_loop` watches the pipeline's bus until it sees end-of-stream or an error.

Modules:

- `Wrappers` (wrappers.dfy): `Option` and `Result`.
- `Frame` (frame.dfy): the frame constants, the `byte` type, and `ZipCopy`. `ZipCopy` is the strided copy written the way the source's `chunks_exact_mut(4).zip(chunks_exact(3))` walks it. Lemmas then describe its result byte by byte.
- `AppSink` (appsink.dfy): the sample with one case per failure point, the error chain as a pure function, and the effect of one callback (`OnNewSample`). `FrameStore` is a class whose constant `array` is the frame buffer. Its `NewSample` method runs the copy loop in place and is proved to produce `OnNewSample`.
- `Bus` (bus.dfy): bus messages, the `ErrorMessage` record, a fold `Dispatch` over the messages, a `Pipeline` object holding its state, and a `MainLoop` method with the early `break`/`return` loop. `MainLoop` is proved to produce `RunMainLoop`.

Two behaviours of the callback are worth stating outright:

- The callback accepts an empty payload, and a payload whose length is not a multiple of 3 (src/appsink.rs:163, 174-177). `as_slice_of::<u8>` rejects neither. The zip copies whole triples and ignores any remainder. So `Mapped([])` returns `Ok` and leaves the buffer unchanged, and a trailing partial triple is ignored.
- A failed `pull_sample` returns `Eos` and posts nothing (src/appsink.rs:132). The three later failures each post a `ResourceError::Failed` message on the bus through `element_error!`, then return `Error` (src/appsink.rs:133-171). The model records both the returned flow and the posted message.

## Model

| member | source | states |
|---|---|---|
| Frame.FrameLenValue | src/appsink.rs:47 | the buffer length 176*144*4 is 101376, a whole number of 4-byte pixels (25344) |
| Frame.Pixels | src/appsink.rs:174 | the number of pixels the zip pairs is the largest n with 4n bytes of destination and 3n bytes of source available |
| Frame.ZipCopy | src/appsink.rs:174-177 | the chunked copy never changes the length of the destination |
| Frame.ZipCopyAt | src/appsink.rs:174-177 | after the copy, byte j is source byte 3*(j/4)+j%4 when its pixel is among the written ones and its channel is one of the first three; otherwise it is the old byte |
| Frame.ZipCopyIsPointwise | src/appsink.rs:174-177 | a buffer that agrees byte by byte with that description is the result of the chunked copy |
| Frame.CopyWritesColour | src/appsink.rs:176 | for every written pixel i and channel k < 3, dest[4i+k] = src[3i+k] |
| Frame.CopyKeepsPadding | src/appsink.rs:176 | the fourth byte of every pixel is never written |
| Frame.CopyKeepsSurplus | src/appsink.rs:174 | bytes of pixels beyond min(|dest|/4, |src|/3) are left as they were |
| Frame.CopyChangesOnlyColour | src/appsink.rs:174-177 | a byte that changes is a colour byte of a written pixel and now holds its source byte |
| Frame.CopyIgnoresTrailing | src/appsink.rs:174 | the trailing |src| % 3 source bytes have no effect |
| Frame.CopyEmpty | src/appsink.rs:174-177 | an empty source leaves the buffer unchanged |
| Frame.CopyIdempotent | src/appsink.rs:174-177 | copying the same source twice gives the same buffer as copying it once |
| Frame.CopyLastWins | src/appsink.rs:174-177 | a source reaching at least as many pixels as an earlier one completely hides it, so the buffer holds only the latest frame |
| Frame.FullFrameFillsBuffer | src/appsink.rs:117-123 | a frame of the negotiated 176x144 RGB size reaches every pixel of the buffer |
| Frame.WhiteFrameOnZeroBuffer | src/appsink.rs:173-177 | an all-0xFF full frame copied onto a zero buffer makes every pixel [0xFF, 0xFF, 0xFF, 0x00] |
| AppSink.SampleBytes | src/appsink.rs:132-171 | the error chain yields the payload exactly for a mapped sample; any failure returns a non-Ok flow, and the flow is Eos exactly when nothing is posted on the bus |
| AppSink.OnNewSample | src/appsink.rs:130-182 | one callback keeps the buffer length; it returns Ok exactly for a mapped sample and Eos exactly for a failed pull; it posts an error exactly when it returns Error; it leaves the frame unchanged on every failure |
| AppSink.DeliveryWritesPixels | src/appsink.rs:173-181 | a successful callback returns Ok and writes the colour bytes of every pixel it reaches |
| AppSink.DeliveryKeepsPadding | src/appsink.rs:130-182 | no callback, successful or not, changes a padding byte |
| AppSink.EmptyPayloadAccepted | src/appsink.rs:163-181 | an empty payload returns Ok, posts nothing and leaves the buffer unchanged |
| AppSink.DeliveryIdempotent | src/appsink.rs:130-182 | delivering the same sample twice leaves the same buffer, flow and posted message as delivering it once |
| AppSink.FrameStore.constructor | src/appsink.rs:79 | the shared buffer starts as a fresh array of 101376 bytes, all zero |
| AppSink.FrameStore.NewSample | src/appsink.rs:130-182 | the in-place copy loop yields exactly the flow, posted message and buffer that OnNewSample specifies; the array keeps its length |
| AppSink.WhiteFrameScenario | src/appsink.rs:79 | a fresh store that receives one all-0xFF frame shows [0xFF, 0xFF, 0xFF, 0x00] as its first pixel |
| Bus.Dispatch | src/appsink.rs:196-216 | reading the bus runs to its end (Exhausted) exactly when no message is an Eos or an Error; which stop it reports otherwise is stated by DispatchAtFirstStop |
| Bus.FirstStop | src/appsink.rs:196-215 | the index of the first Eos or Error message: every earlier message is some other message |
| Bus.DispatchAtFirstStop | src/appsink.rs:196-216 | the loop stops at the first Eos or Error and reports exactly that message; with neither, it runs to the end of the bus |
| Bus.DispatchIgnoresOther | src/appsink.rs:214 | inserting a message other than Eos or Error anywhere does not change the outcome |
| Bus.DispatchIgnoresRest | src/appsink.rs:200-213 | after the first Eos or Error, no later message is examined |
| Bus.Pipeline.constructor | src/appsink.rs:98 | a new pipeline is in the Null state |
| Bus.Pipeline.SetState | src/appsink.rs:190 | a state change either reaches its target and returns Ok, or fails with a StateChangeError naming that target; in the model a failed change leaves the state as it was |
| Bus.RunMainLoop | src/appsink.rs:189-221 | main_loop's final state and result: Ok exactly when both state changes succeed and no Error comes before the first Eos, and then the state is Null; a received error leaves Null and carries the Error that stopped the loop; a failed state change returns a StateChangeError naming a refused target (the state left behind then is the model's choice, see "Left out") |
| Bus.MainLoop | src/appsink.rs:189-221 | the loop, with its break and early returns, yields exactly the final state and result that RunMainLoop specifies |
| Bus.MainLoopEndsInNull | src/appsink.rs:202-218 | when state changes succeed, the loop always leaves the pipeline in Null |
| Bus.MainLoopResult | src/appsink.rs:196-220 | when state changes succeed, the result is Ok exactly when no Error comes before the first Eos; otherwise it is an ErrorMessage carrying that Error's source path (or "None" when it has no source), its error text, its debug detail and the error itself |
| Bus.MainLoopIgnoresRest | src/appsink.rs:196-216 | messages queued after the first Eos or Error do not affect the final state or the result |

## Left out

- Pipeline construction (`gst::init`, element factories, `add_many`, `link`, `dynamic_cast`, `set_caps`, src/appsink.rs:95-123; `set_callbacks`, src/appsink.rs:127-184) is foreign code. It enters the model only as the constants 176, 144 and 3 bytes per "RGB" pixel, and as the abstract `Sample`.
- `AppSinkImage::new` (src/appsink.rs:78-92) is modelled only through the zeroed buffer. Its `unwrap`/`expect` on pipeline creation, on `set_state(Playing)` and on `bus()` are panics of foreign calls.
- `main_loop`'s `pipeline.bus().expect(..)` (src/appsink.rs:192-194) is left out. A pipeline always has a bus, so this panic cannot occur, and `MainLoop` reads the bus's messages directly.
- `MissingElement` and the `Display` text of `ErrorMessage` (src/appsink.rs:34-45) are left out. That text uses Rust's `Debug` escaping of an `Option<String>`, which has no counterpart here.
- The `Arc<RwLock<..>>` sharing between the pipeline thread and the engine thread (src/appsink.rs:54, 173) is concurrency. The write lock is modelled as the exclusive access of a method that `modifies` the array. Lock poisoning (`.unwrap()` on `write()`) is not modelled.
- The asset loader (src/appsink.rs:60-75) ignores its input bytes and only calls `AppSinkImage::new`, so there is no format to model.
- src/main.rs is not part of this model. It holds engine glue: scene setup, materials, the floating-point cube rotation, the disabled `monitor_bus`, and the consumer's `copy_image`, which only copies the buffer out when both assets are loaded.
- `Bus.Pipeline.SetState`: whether a real state change succeeds is decided by the foreign elements. The model takes it as the fixed set `refused` of target states that fail. It does not model asynchronous state changes.
- `Bus.Pipeline.SetState`: a refused change is modelled as leaving the state exactly as it was. A real `set_state` passes through the intermediate states (Null, Ready, Paused, Playing) and can fail part-way, leaving the pipeline in Ready or Paused. This applies to both the `set_state(Null)` calls at src/appsink.rs:202 and 218. So the state that `Bus.RunMainLoop` and `Bus.MainLoop` report after a failed change (the start state or Playing) holds only in the model. Their results (the StateChangeError and its target) do not depend on this choice.
- `Bus.MainLoop`: `bus.iter_timed(ClockTime::NONE)` blocks until a message arrives and only ends when the bus is flushing. The model takes the messages the bus delivers as a finite sequence that the loop reads in order.
- The `as_slice_of::<u8>` failure case (`NotBytes`) is kept because the code has the branch. For a `u8` view it cannot actually fail.
