# Full-duplex audio pipeline core, modelled in Dafny

The Android engine reads stereo audio at 48 kHz from the microphone. It
queues the audio in a lock-free ring buffer, decimates each channel by 3 to
16 kHz and mixes the two channels to mono. It then feeds the mono signal in
96-sample hops through a short-time spectral processor (STFT analysis,
identity edit, overlap-add synthesis), interpolates the result back to
48 kHz, duplicates it to both channels and queues it on an output ring that
the playback callback drains.

This project models that core as pure functions over immutable data:

- `ring.dfy`, module `Ring`: the fixed-capacity FIFO of frames.
  - Capacity rounding to a power of two.
  - Clamped writes and reads that copy in at most two spans.
  - Monotonic cursors.
  - The abstract queue `Contents`.
- `ring.dfy`, module `RingTrace`: arbitrary sequences of writes and reads, with the FIFO law over a whole trace.
- `resampler.dfy`, module `Resampler`: decimation and interpolation by 3, and the mode and continuity state.
- `stft.dfy`, module `Stft`: the bookkeeping of the spectral processor.
  - The hop accumulator and the 384-sample history.
  - The 512-sample frame layout.
  - The circular overlap-add and normalisation rings of 2^15 cells.
  - The pop path with normalisation and clearing.
  - The pushed/popped/hops counters.
- `engine.dfy`, module `Engine`: the glue.
  - Stereo (de)interleaving and the mono mix.
  - Overflow accounting on ring writes.
  - One pass of the STFT hop loop.
  - The playback pull `pullTo`.

Samples are exact reals. Frames are sequences of reals, one per channel.
Cursors and counters are unbounded naturals.

Interpolation emits whole triples only, so it produces
`3 × min(inputFrames, capacity / 3)` samples (`Resampler.Up3`,
`Resampler.Process`). That is fewer than `min(3 × inputFrames, capacity)`
when the capacity is not a multiple of 3. Decimation reports
`min(groups, outMaxFrames)`, which is negative for a negative capacity,
while it writes nothing; `Process` keeps that count.

The ring buffer is modelled as an immutable datatype with pure `Write` and
`Read` functions rather than as a class with mutable fields. Each operation
then returns its new state, and its contract states the new queue contents
directly in terms of the old ones. The model is sequential, so a mutable
class would add only frame conditions (`modifies`, `old`) and no further
behaviour.

## Model

| member | source | states |
|---|---|---|
| Ring.NextPow2 | src/main/cpp/RingBuffer.h:88-93 | the rounded capacity is a power of two, at least the request and at least 2, and the least such (it is 2 or its half is below the request) |
| Ring.NextPow2Examples | src/main/cpp/RingBuffer.h:88-93 | 100 rounds to 128, 1 to 2, and 128 stays 128 |
| Ring.NextPow2AsWritten | src/main/cpp/RingBuffer.h:88-93 | the decrement, bit smear, increment and floor at 2 on 32-bit values always give a result in [2, 2^31); for requests up to 2^30 the result has a single bit set, is at least the request, and is 2 or has its half below the request |
| Ring.NextPow2Unique | src/main/cpp/RingBuffer.h:88-93 | any power of two that is at least 2, at least the request, and is 2 or has its half below the request is the rounded capacity: the rounding is the least such power |
| Ring.NextPow2AsWrittenAgrees | src/main/cpp/RingBuffer.h:88-93 | for every request from 1 to 2^30 the 32-bit code as written gives exactly the rounded capacity of `NextPow2` |
| Ring.NextPow2AsWrittenExamples | src/main/cpp/RingBuffer.h:88-93 | for 100 and 1 the code as written agrees with NextPow2, and the engine's 9600-frame ring gets 16384 frames |
| Ring.NextPow2AsWrittenOverflows | src/main/cpp/RingBuffer.h:88-93 | a request of 2^30 + 1 frames gets capacity 2 instead of 2^31 |
| Ring.Unset | src/main/cpp/RingBuffer.h:95-101 | a never-initialised ring (one channel, capacity 0, cursors 0) satisfies the occupancy invariant and is empty |
| Ring.Init | src/main/cpp/RingBuffer.h:17-26 | succeeds exactly when both sizes are positive; a refusal leaves the ring unchanged; success gives the rounded capacity, both cursors 0, an empty queue, nothing to read and the whole capacity (at least the request) to write |
| Ring.Occupancy | src/main/cpp/RingBuffer.h:31-41 | both availability snapshots lie in [0, capacity], they add up to the capacity, and the readable count is the queue length |
| Ring.WrapIsMod | src/main/cpp/RingBuffer.h:49 | the slot of a cursor is the cursor's remainder by the capacity |
| Ring.CopySpan | src/main/cpp/RingBuffer.h:52-53 | one span copy replaces exactly the slots `at .. at + n` with the source, in order, and keeps every other slot |
| Ring.StoreSpans | src/main/cpp/RingBuffer.h:49-58 | the up-to-two-span store puts frame `t` at the slot `t` after the write slot, across the wrap, and keeps every slot further ahead than the frames written |
| Ring.LoadSpans | src/main/cpp/RingBuffer.h:71-80 | the up-to-two-span load returns, as frame `t`, the slot `t` after the read slot, across the wrap |
| Ring.Write | src/main/cpp/RingBuffer.h:44-63 | writes `max(0, min(frames, availableToWrite))` frames, advances only the write cursor by that count, keeps the invariant, and appends exactly the first that-many source frames to the queue |
| Ring.Read | src/main/cpp/RingBuffer.h:65-85 | reads `max(0, min(frames, availableToRead))` frames, advances only the read cursor, returns the oldest queued frames in order and leaves the rest queued |
| RingTrace.RunIsFifo | src/main/cpp/RingBuffer.h:44-85 | for any sequence of writes and reads: the initial queue followed by every accepted frame equals every delivered frame followed by the final queue, and the invariant and capacity are kept |
| Resampler.New | src/main/cpp/Resampler3x.h:10 | a new resampler has the requested mode and an empty continuity slot |
| Resampler.Reset | src/main/cpp/Resampler3x.h:13 | reset keeps the mode and clears the continuity slot |
| Resampler.SetMode | src/main/cpp/Resampler3x.h:12 | a mode switch gives a freshly constructed resampler in the new mode |
| Resampler.Down3 | src/main/cpp/Resampler3x.h:29-39 | produces `max(0, min(n / 3, outMax))` samples; output `g` is the mean of inputs 3g, 3g+1 and 3g+2, and up to two trailing inputs are dropped |
| Resampler.Up3 | src/main/cpp/Resampler3x.h:41-56 | produces `3 × min(n, budget / 3)` samples; triple `i` is input `i` and the points 1/3 and 2/3 of the way to its successor, and the last input is its own successor |
| Resampler.Process | src/main/cpp/Resampler3x.h:18-22 | dispatches on the mode. Decimation reports `min(n / 3, outMax)`, emits that many samples when positive and keeps the state. Interpolation reports a multiple of 3 no larger than `outMax` or `3n`, leaves the state alone for empty input, and otherwise stores the last input in the continuity slot |
| Resampler.UpBudget | src/main/cpp/Resampler3x.h:43-48 | capping the budget at `3n` does not change the interpolated output |
| Resampler.ResetIsUnobservable | src/main/cpp/Resampler3x.h:57-59 | the continuity slot is never read: after a reset every call produces the same count and samples |
| Resampler.Down3Constant | src/main/cpp/Resampler3x.h:32-37 | a constant signal decimates to the same constant |
| Resampler.Up3Constant | src/main/cpp/Resampler3x.h:48-55 | a constant signal interpolates to the same constant |
| Resampler.DownAfterUp | src/main/cpp/Resampler3x.h:29-61 | interpolating a block and decimating it again gives, for each sample, two thirds of it plus one third of its successor |
| Resampler.Examples | src/main/cpp/Resampler3x.h:48-55 | [9] interpolates to [9, 9, 9] and [0, 3] to [0, 1, 2, 3, 3, 3]; nine or ten fives decimate to three fives |
| Stft.ConstantsConsistent | src/main/cpp/StftProcessor.h:27-29 | 480 = 384 + 96 and 512 = 32 + 480; the frame length 512 and the ring capacity are powers of two, and the ring has room for eight available hops plus the 416 cells by which the last frame reaches past its hop |
| Stft.Init | src/main/cpp/StftProcessor.cpp:11-34 | the constructed processor satisfies the full invariant, with zero counters, both offsets 0, nothing available and an empty accumulator |
| Stft.AnalysisFrame | src/main/cpp/StftProcessor.cpp:58-65 | the frame has 512 samples: 32 zeros, then the 384 history samples, then the 96 hop samples |
| Stft.SynthesisBlock | src/main/cpp/StftProcessor.cpp:67-85 | with an identity spectral edit, synthesis sample `i` is frame sample `i` times the squared window value |
| Stft.EnergyNonNegative | src/main/cpp/StftProcessor.cpp:151 | the energy a window position adds is never negative |
| Stft.OlaAdd | src/main/cpp/StftProcessor.cpp:147-154 | cell `w + i` (mod 2^15) gains block sample `i` and its normalisation cell gains `win[i]^2` for i < 512; no other cell changes; the write offset advances by 96 |
| Stft.OlaAddKeepsEnergy | src/main/cpp/StftProcessor.cpp:147-152 | overlap-add keeps every normalisation cell non-negative |
| Stft.HopKeepsRingValid | src/main/cpp/StftProcessor.cpp:86-90 | after an overlap-add with 96 more samples available and one more hop, the ring invariant still holds |
| Stft.ProcessOneHop | src/main/cpp/StftProcessor.cpp:58-91 | one hop adds the synthesis block of the frame built from the pre-update history into the 512 cells from the write offset, leaves every other cell alone, adds 96 to the available count and 1 to the hop count, and keeps the ring invariant |
| Stft.CompleteHop | src/main/cpp/StftProcessor.cpp:46-54 | a completed hop is processed first and then the history becomes the old history without its oldest 96 samples, followed by the hop |
| Stft.SplitHops | src/main/cpp/StftProcessor.cpp:38-49 | topping up the accumulator splits the accumulator plus the new samples into full hops and a leftover shorter than a hop, which together are exactly the stream, in order |
| Stft.ApplyHops | src/main/cpp/StftProcessor.cpp:46-54 | completing a run of hops adds one hop and 96 available samples each, and leaves as history the last 384 samples of the old history followed by the hops; a run of one hop leaves the overlap-add and energy rings exactly as processing that hop does |
| Stft.ApplyHopsAppend | src/main/cpp/StftProcessor.cpp:38-54 | completing two runs of hops one after the other ends in the same state as completing their concatenation |
| Stft.ApplyHopsIgnoresAccumulator | src/main/cpp/StftProcessor.cpp:46-49 | a non-empty run of hops ends with an empty accumulator whatever it held before, and keeps the pushed counter |
| Stft.HopsAreChunks | src/main/cpp/StftProcessor.cpp:38-45 | a run of whole hops followed by anything is cut at multiples of 96 back into the same hops |
| Stft.SplitIsChunks | src/main/cpp/StftProcessor.cpp:38-49 | the accumulator loop's hops are the first `(fill + n) / 96` whole 96-sample pieces of accumulator plus input, and what it keeps is the tail after them |
| Stft.ChunksAppend | src/main/cpp/StftProcessor.cpp:38-49 | cutting a stream into hops, then cutting its tail with more samples appended, gives the hops and the tail of the longer stream |
| Stft.Push | src/main/cpp/StftProcessor.cpp:36-56 | pushing `n` samples adds `n` to the pushed counter and `(fill + n) / 96` to the hop counter, leaves `(fill + n) % 96` samples in the accumulator, and leaves history plus accumulator as the stream's tail after the completed hops |
| Stft.PushIsChunked | src/main/cpp/StftProcessor.cpp:36-56 | the accumulator loop ends in the state of the reference push, which completes the whole 96-sample pieces of accumulator plus input in order and keeps the tail |
| Stft.ChunkedPushTwice | src/main/cpp/StftProcessor.cpp:36-56 | pushing in two pieces by the reference push ends in the same state, overlap-add and energy rings included, as pushing the whole stream at once |
| Stft.PushOneHop | src/main/cpp/StftProcessor.cpp:36-91 | a push that completes exactly one hop leaves the overlap-add and energy rings as processing that hop, the first 96 samples of accumulator plus input, does |
| Stft.Normalised | src/main/cpp/StftProcessor.cpp:97-98 | at or below the energy threshold the output is 0 |
| Stft.NormalisedInverts | src/main/cpp/StftProcessor.cpp:97-98 | above the threshold the output times the energy is the overlap-added value |
| Stft.Pop | src/main/cpp/StftProcessor.cpp:93-108 | returns `min(maxFrames, avail)` samples, none before the first hop; sample `i` is the normalised cell `i` after the read offset; the cells read are cleared and the others kept; the read offset advances by the count, avail falls and popped rises by it |
| Stft.PopKeepsRingValid | src/main/cpp/StftProcessor.cpp:95-105 | clearing the cells read and advancing the read offset keeps the ring invariant |
| Stft.CounterOrder | src/main/cpp/StftProcessor.cpp:89 | available samples are `96 × hops − popped`, so popped ≤ 96 × hops ≤ pushed |
| Stft.CountersNeverDecrease | src/main/cpp/StftProcessor.h:21-23 | neither a push nor a pop lowers the pushed, popped or hops counter |
| Stft.HopCadence | src/main/cpp/StftProcessor.cpp:36-108 | with an empty accumulator and nothing available, pushing one hop and popping 96 yields exactly 96 samples, rolls the history by that hop and returns to the same state of the accumulator and the available count; sample `i` is the normalised cell `i` after the read offset, which holds its old value plus synthesis sample `i` of the new hop, with energy its old energy plus the window's at `i` |
| Stft.CadenceState | src/main/cpp/StftProcessor.cpp:36-108 | the counting half of the cadence: the pop returns 96 samples, the accumulator is empty again with nothing available, one more hop is counted and the history rolls by the hop |
| Stft.PushedCells | src/main/cpp/StftProcessor.cpp:36-91 | in that cadence the new hop's 512-sample synthesis block lands at the read offset: cell `i` after it gains block sample `i` and its energy cell gains the window's energy at `i` |
| Engine.Deinterleave | src/main/cpp/FullDuplexEngine.cpp:11-18 | left sample `i` is interleaved sample `2i` and right sample `i` is sample `2i + 1` |
| Engine.Interleave | src/main/cpp/FullDuplexEngine.cpp:19-26 | interleaved sample `2i` is left sample `i` and sample `2i + 1` is right sample `i`, for `2 × frames` samples |
| Engine.InterleaveDeinterleave | src/main/cpp/FullDuplexEngine.cpp:11-26 | interleaving a deinterleaved buffer restores its first `2 × frames` samples |
| Engine.DeinterleaveInterleave | src/main/cpp/FullDuplexEngine.cpp:11-26 | deinterleaving interleaved channels restores both channels' first `frames` samples |
| Engine.MonoMix | src/main/cpp/FullDuplexEngine.cpp:158-163 | the mix has as many samples as the shorter channel, and sample `i` is `(L[i] + R[i]) / 2` |
| Engine.MonoMixOfCopies | src/main/cpp/FullDuplexEngine.cpp:158-163 | mixing a channel with a copy of itself returns the channel |
| Engine.MixCommutesWithDown3 | src/main/cpp/FullDuplexEngine.cpp:155-163 | mixing the two decimated channels equals decimating the full-rate mix |
| Engine.WriteCounting | src/main/cpp/FullDuplexEngine.cpp:143-144 | the ring takes `min(n, availableToWrite)` frames, in order; the overflow counter grows by exactly the shortfall and by 0 when there is none, so taken plus counted is `n` |
| Engine.Drain | src/main/cpp/FullDuplexEngine.cpp:229-234 | the read loop returns the oldest `max(0, min(numFrames, availableToRead))` queued frames in order and leaves the rest queued |
| Engine.PullTo | src/main/cpp/FullDuplexEngine.cpp:228-249 | always reports `numFrames`; the first `min(numFrames, availableToRead)` frames are the oldest queued frames in order, the rest are zero frames, the ring keeps what was not read, and underflows grow by exactly the shortfall unless warming |
| Engine.PushPop | src/main/cpp/FullDuplexEngine.cpp:176-179 | pushing a hop and popping up to 96 samples keeps the processor's invariant, counts the 96 pushed samples and returns at most 96 |
| Engine.QueueDuplicated | src/main/cpp/FullDuplexEngine.cpp:185-194 | the ring takes `min(n, availableToWrite)` of the `n` duplicated frames; queued frame `i` is `[x[i], x[i]]`, the rest of the queue is unchanged, and the overflow counter gains the frames not taken |
| Engine.HopPass | src/main/cpp/FullDuplexEngine.cpp:171-196 | on the stereo output ring, one pass of the hop loop keeps the processor's and the output ring's invariants, counts the 96 pushed samples, never lowers the overflow counter and only appends to the output queue |
| Engine.HopPassInCadence | src/main/cpp/FullDuplexEngine.cpp:171-196 | in the engine's cadence the pop returns all 96 samples. The output ring gains the first `min(|up|, availableToWrite)` interpolated samples, each as the frame `[x, x]`, and the overflow counter gains the rest |

## Left out

- Threads and atomics: the ring's acquire/release orderings, `mRunning`, the I/O thread and its join are concurrency. The ring is modelled single-threaded.
- Device streams: start/stop, the blocking read with timeout, priming the output ring with silence, `setpriority` and the engine header are foreign calls and I/O.
- The I/O thread's outer loop (lines 130-157 and 198 of FullDuplexEngine.cpp) is not modelled as a whole. It reads a burst, moves bursts while both rings allow, decimates and mixes. Its pieces are modelled: `WriteCounting` for each ring write, `Deinterleave`, `Resampler.Process`, `MonoMix` and `HopPass`.
- `HopPass` takes the 96-sample hop as a parameter. It does not model the read from the mono ring that supplies it, which is a `Ring.Read` of 96 frames.
- The clock: the warm-up test of `pullTo` is the boolean parameter `warming`. The periodic statistics log is observational and is left out.
- The FFT and the Hann window. The forward and inverse transforms are modelled by their exact round trip, `Stft.FftRoundTrip`, the identity. The window is an arbitrary sequence of 512 reals passed to `Stft.Init`. Overlap-add reconstruction quality is not stated because it depends on the window's values and on float rounding.
- Floating point: all samples are reals. The `(1.0f/3.0f)` and `0.5f` multiplies are exact, and `kEps` is the real 10^-8.
- Ring.Write: ring frames are sequences of reals, one per channel. The interleaved float layout `frame × channels + channel` of the storage is not modelled, so the frame width is not tied to `channels`.
- Ring.Write: requires the source to hold at least `frames` frames, as the source's `memcpy` does.
- Ring.Init: fills the storage with zero frames. The source's `resize` keeps earlier samples in place on a second `init`; no read can observe them because the ring starts empty.
- Ring.WrapIsMod: states the slot as the remainder by the capacity. The equality of that remainder with `cursor & (capacity − 1)` for a power-of-two capacity is not proved. The same holds for `Stft.At`, which models the OLA offsets masked with `kOLA_CAP - 1` as the remainder by 2^15.
- Ring.Occupancy: the 64-bit cursors and the 32-bit casts of their difference are unbounded naturals. Wrap-around after 2^64 frames is not modelled.
- Stft.Push: the OLA ring's capacity is never checked in the source. `Push` therefore requires that the available samples plus one frame fit in the 2^15 cells, rather than modelling the overwrite that would follow.
- Stft.Push: takes a sequence, so a negative sample count cannot be passed. The source would add it to `mPushed` as a wrapped unsigned value.
- Stft.Push: the push loop is modelled as splitting the stream into hops (`SplitHops`) and then completing the hops in order (`ApplyHops`). This is the same sequence of hops as the interleaved loop.
- Stft.Push: the law that two pushes equal one push of the joined samples is proved for the reference push (`ChunkedPushTwice`), and `PushIsChunked` equates `Push` with that reference. It is not stated directly as `Push(Push(s, x), y) == Push(s, x + y)`.
- Resampler.New: the mode is a required parameter. The constructor's default argument, decimation (Resampler3x.h:10), is not modelled as a separate overload.
- Resampler.Process: the input count is the length of the input sequence, so a negative `inFrames` cannot be passed. For such a count the source's loops run zero times and it returns 0 (interpolation) or `min(inFrames / 3, outMaxFrames)` with the division truncated toward zero (decimation).
- Resampler.Process: the product `inFrames * 3` (Resampler3x.h:43) is an unbounded integer in the model. Its 32-bit overflow above 715 827 882 input frames is not modelled. That overflow is undefined behaviour. On a wrapping target the budget is the wrapped product, negative for 715 827 883 to 1 431 655 765 frames. `processUp3` then returns 0 while still storing the last input. The model instead reports `3 × min(n, outMax / 3)` for every `n`.
- Stft.Pop: `maxFrames` is a natural. For a negative `maxFrames` the source moves the read offset backwards and wraps the unsigned `mAvail`. That case is not modelled.
- Stft.Pop and Stft.Push: the 64-bit counters are unbounded naturals.
- Engine.HopPass: requires the output ring to have two channels. The ring takes the output device's channel count (FullDuplexEngine.cpp:29-37), and the device is opened outside the files modelled here. The duplicate-and-interleave step of lines 185-194 is correct only for two channels: with one channel it would queue every sample twice.
- Engine.HopPassInCadence: requires the stereo output ring as well. It also assumes the mono resampler is in interpolation mode. The mode of `mUpMono` is set outside the files modelled here.
- Resampler: the continuity slot is modelled as it is written. It is never consulted, so `ResetIsUnobservable` shows that no output depends on it.

## Findings

| source | as written | input that shows it | evidently intended | confidence | as-written member | corrected member |
|---|---|---|---|---|---|---|
| src/main/cpp/RingBuffer.h:88-93 | `nextPow2` increments the smeared 32-bit value; above 2^30 this wraps to the most negative `int32_t`, and the floor `v < 2 ? 2 : v` turns it into 2 | `init(0x40000001, ch)` gets a ring of capacity 2 | the next power of two, at least 2 (or a refusal for requests beyond 2^30) | low: the wrap is signed overflow, undefined behaviour in C++, and no caller asks for that much; not executed | Ring.NextPow2AsWritten, Ring.NextPow2AsWrittenOverflows | Ring.NextPow2 (used by Ring.Init) |
