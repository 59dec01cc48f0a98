# kodec2 in Dafny

kodec2 is an Android wrapper around the Codec 2 speech codec. It has two layers:

- a native JNI layer (`codec2_jni.c`). It keeps a process-wide table of seven codec instances, one per bitrate mode. It creates and destroys them, reports frame sizes and encodes or decodes one frame per call.
- a Kotlin object (`Codec2.kt`). It maps the `Bitrate` enum to a mode through its ordinal, reports a mode's frame sizing, and cuts whole buffers into frames for the native layer.

The model follows that structure, one module per concern:

| module | file | models |
|---|---|---|
| `Wrappers` | `wrappers.dfy` | `Option` |
| `Engine` | `engine.dfy` | the Codec 2 library as the JNI layer sees it: `codec2_create`, `codec2_destroy`, the frame parameters, `codec2_encode`, `codec2_decode` |
| `Codec2Jni` | `codec2_jni.dfy` | `codec2_jni.c`: the instance table and every function in it except the logging ones |
| `Framing` | `framing.dfy` | cutting a buffer into fixed-size frames and joining frames back, as sequence functions with their lemmas |
| `ByteStreams` | `byte_streams.dfy` | the parts of `java.io.ByteArrayInputStream` / `ByteArrayOutputStream` that the Kotlin loops call |
| `Kodec2` | `kodec2.dfy` | `Codec2.kt`: `Bitrate`, `FrameSize`, `init`, `release`, `getFrameSize`, `encode`, `decode` |

How each layer is modelled:

- **The engine is opaque.** Its DSP work is not modelled. A live instance keeps the mode it was created for, that mode's parameters, and a transcript of frame calls. Each call records what was read and what was written. Ghost counters of creations and destructions per mode let the model state the instance lifecycle.
- **The table is imperative.** `Registry` holds `codecInstances: array<Option<Handle>>` of length 7, updated in place. Its methods are tied to pure transition functions on a `RegistryState` value: `CodecInitialized`, `CodecDestroyed`, `Initialized`, `Released`, `FramesRecorded`. The lifecycle properties are lemmas about those functions.
- **The Kotlin loops are imperative.** They are `while` loops over a stream position, a reused temporary buffer and an output stream. Their invariants (`Handled`, `Framed`) state two facts:
  - the calls made so far were handed the consecutive frames of the input, in order;
  - what has been written is the join of what those calls returned.

  `Encode` and `Decode` then promise three things, stated on the calls they return as a ghost result:
  - the calls the instance sees are exactly the complete frames of the input, each writing one output frame;
  - the result is their outputs joined in order;
  - the result's length is the number of complete frames times the output frame size.

Two requirements are explicit preconditions:

- **The mode must be in range.** The native table is indexed by the raw mode with no bounds check. So every native operation requires `0 <= mode < 7`, and the source's `assert`s (slot live, input length right) are preconditions too.
- **`BPS_700B` is out of range.** The Kotlin enum has eight values, so `BPS_700B`'s ordinal 7 is one past the end of the table. `OrdinalFitsTable` states this. The Kotlin methods therefore require an ordinal below 7.

The native encode checks `len / 2 == samples_per_frame`, so one trailing odd byte is accepted and not read. `Registry.EncodeFrame` models exactly that.

`encode`/`decode` compute `samples.size % decodedByteCount` (resp. `encodedByteCount`) before the loop. A zero divisor would throw there, so `Encode` requires a positive samples-per-frame and `Decode` a positive bits-per-frame. These are the same conditions that make the loops terminate.

## Model

| member | source | states |
|---|---|---|
| Engine.Created | lib/src/main/cpp/codec2_jni.c:72 | the state and result of `codec2_create`: a new instance of the mode, with its parameters and an empty transcript, under the next handle, and the mode's create count raised. NULL and no change when the mode is unknown or allocation fails |
| Engine.Destroyed | lib/src/main/cpp/codec2_jni.c:84 | the state after `codec2_destroy`: the instance removed from the live set and its mode's destroy count raised |
| Engine.Recorded | lib/src/main/cpp/codec2_jni.c:132 | the state after frame calls on one instance: those calls appended to its transcript |
| Engine.CodecEngine.SamplesPerFrame | lib/src/main/cpp/codec2_jni.c:18 | `codec2_samples_per_frame` of a live instance: its mode's samples per frame |
| Engine.CodecEngine.BitsPerFrame | lib/src/main/cpp/codec2_jni.c:23 | `codec2_bits_per_frame` of a live instance: its mode's bits per frame |
| Engine.CodecEngine.Create | lib/src/main/cpp/codec2_jni.c:72-73 | `codec2_create`: a fresh handle whose instance has the mode's parameters and an empty transcript, when the mode is known and allocation succeeds; otherwise NULL and no change |
| Engine.CodecEngine.Destroy | lib/src/main/cpp/codec2_jni.c:84 | `codec2_destroy`: the instance is gone and its mode's destroy count rises by one |
| Engine.CodecEngine.Encode | lib/src/main/cpp/codec2_jni.c:132 | `codec2_encode` reads one frame of samples, fills the output buffer, and the instance records that call, nothing else changing |
| Engine.CodecEngine.Decode | lib/src/main/cpp/codec2_jni.c:150 | `codec2_decode` reads one packed frame, fills the sample buffer, and records the call |
| Codec2Jni.CodecDestroyed | lib/src/main/cpp/codec2_jni.c:81-86 | `destroy_codec` on the table's value: no change on an empty slot, otherwise the instance destroyed and the slot cleared. Its properties are `ReleasedEffect` |
| Codec2Jni.CodecInitialized | lib/src/main/cpp/codec2_jni.c:71-79 | `init_codec`: the slot takes what `codec2_create` returned, NULL included, and the result is whether it was non-NULL. Its properties are `CodecInitializedEffect` |
| Codec2Jni.Initialized | lib/src/main/cpp/codec2_jni.c:88-95 | `codec2Initialize`: `destroy_codec` when the slot is live, then `init_codec`. Its properties are `InitializedEffect` and `InitializedLeavesOthers` |
| Codec2Jni.Released | lib/src/main/cpp/codec2_jni.c:97-104 | `codec2Release`: `destroy_codec`. Its properties are `ReleasedEffect` and `ReleaseIdempotent` |
| Codec2Jni.FramesRecorded | lib/src/main/cpp/codec2_jni.c:120-154 | the table after the mode's instance handled some frame calls. Its properties are `FramesRecordedEffect`, `FramesRecordedNothing` and `FramesRecordedCompose` |
| Codec2Jni.BytesForBits | lib/src/main/cpp/codec2_jni.c:26-29 | `(nbits + 7) / 8` is a byte count that holds the bits with fewer than 8 bits to spare |
| Codec2Jni.BytesForBitsIsCeiling | lib/src/main/cpp/codec2_jni.c:26-29 | that count is unique, so it is exactly the ceiling of `nbits / 8` |
| Codec2Jni.BytesForBitsExamples | lib/src/main/cpp/codec2_jni.c:26-29 | 64 bits pack into 8 bytes, 28 into 4, 0 into 0 |
| Codec2Jni.InitialStateValid | lib/src/main/cpp/codec2_jni.c:14 | the zero-initialised table has every slot NULL and meets the registry invariant |
| Codec2Jni.ReleasedEffect | lib/src/main/cpp/codec2_jni.c:81-86 | release keeps the invariant and leaves the slot empty. On an empty slot nothing changes. On a live slot that instance is destroyed exactly once. Creation counts, other modes' destroy counts, other slots and every other live instance with its transcript are untouched |
| Codec2Jni.ReleaseIdempotent | lib/src/main/cpp/codec2_jni.c:97-104 | two releases in a row equal one |
| Codec2Jni.CodecInitializedEffect | lib/src/main/cpp/codec2_jni.c:71-79 | on an empty slot `init_codec` succeeds iff the engine created an instance, iff the slot is then occupied. The new instance is fresh and of this mode. On failure nothing changes. Other slots, other modes' counters and every existing instance with its transcript are unchanged |
| Codec2Jni.InitializedEffect | lib/src/main/cpp/codec2_jni.c:88-95 | `codec2Initialize` keeps the invariant and returns true iff the engine created an instance. A previous instance of the mode is destroyed whatever the outcome. The slot ends up empty on failure and holding the fresh instance on success. Other slots are unchanged |
| Codec2Jni.InitializedLeavesOthers | lib/src/main/cpp/codec2_jni.c:88-95 | after `codec2Initialize` on one mode, every other mode's create and destroy counts, and its live instance with its transcript, are as they were |
| Codec2Jni.FramesRecordedEffect | lib/src/main/cpp/codec2_jni.c:120-154 | frame calls keep the invariant and append only to the mode's transcript. Slots, the live set and every other instance are unchanged |
| Codec2Jni.FramesRecordedNothing | lib/src/main/java/com/beartooth/kodec2/Codec2.kt:64 | zero frame calls change nothing (a loop that never runs) |
| Codec2Jni.FramesRecordedCompose | lib/src/main/java/com/beartooth/kodec2/Codec2.kt:64-68 | frame calls made in two batches, one after the other, give the same state as the batches made together |
| Codec2Jni.Step | lib/src/main/cpp/codec2_jni.c:88-104 | one initialize or release keeps the registry invariant |
| Codec2Jni.Run | lib/src/main/cpp/codec2_jni.c:88-104 | any sequence of them keeps it |
| Codec2Jni.NeverLeaks | lib/src/main/cpp/codec2_jni.c:71-95 | from process start, after any sequence of initializes and releases, per mode creations minus destructions is 0 or 1. It is 1 exactly when the slot is occupied |
| Codec2Jni.Registry.constructor | lib/src/main/cpp/codec2_jni.c:14 | the table starts with seven NULL slots over a fresh engine |
| Codec2Jni.Registry.SamplesPerFrame | lib/src/main/cpp/codec2_jni.c:16-19 | needs a live slot in range, and is the mode's samples per frame |
| Codec2Jni.Registry.BitsPerFrame | lib/src/main/cpp/codec2_jni.c:21-24 | needs a live slot in range, and is the mode's bits per frame |
| Codec2Jni.Registry.BytesPerEncFrame | lib/src/main/cpp/codec2_jni.c:26-29 | the mode's bits per frame rounded up to whole bytes |
| Codec2Jni.Registry.InitCodec | lib/src/main/cpp/codec2_jni.c:71-79 | the slot takes whatever create returned, as `CodecInitialized` |
| Codec2Jni.Registry.DestroyCodec | lib/src/main/cpp/codec2_jni.c:81-86 | returns early on NULL, otherwise destroys and clears the slot, as `CodecDestroyed` |
| Codec2Jni.Registry.Initialize | lib/src/main/cpp/codec2_jni.c:88-95 | destroys a live instance first, then `init_codec`, as `Initialized` |
| Codec2Jni.Registry.Release | lib/src/main/cpp/codec2_jni.c:97-104 | `destroy_codec`, as `Released` |
| Codec2Jni.Registry.GetFrameLengthBytes | lib/src/main/cpp/codec2_jni.c:106-111 | the ceiling of the mode's bits per frame over 8 |
| Codec2Jni.Registry.GetFrameLengthSamples | lib/src/main/cpp/codec2_jni.c:113-118 | the mode's samples per frame |
| Codec2Jni.Registry.EncodeFrame | lib/src/main/cpp/codec2_jni.c:120-136 | needs `len / 2 == samples_per_frame`. Returns a fresh buffer of exactly `bytes_per_enc_frame` bytes. The instance recorded the first `2 * samples_per_frame` bytes read and the bytes returned. The invariant is kept |
| Codec2Jni.Registry.DecodeFrame | lib/src/main/cpp/codec2_jni.c:138-154 | needs `len == bytes_per_enc_frame`. Returns a fresh buffer of exactly `2 * samples_per_frame` bytes, and the instance recorded the call |
| Framing.ChunksCount | lib/src/main/java/com/beartooth/kodec2/Codec2.kt:64-68 | the number of frames cut is `len / f` |
| Framing.ChunkAt | lib/src/main/java/com/beartooth/kodec2/Codec2.kt:64-67 | frame `k` is the input slice `[k * f, (k + 1) * f)` |
| Framing.ChunksHaveSize | lib/src/main/java/com/beartooth/kodec2/Codec2.kt:62-65 | every frame handed on is exactly `f` long |
| Framing.FlattenChunks | lib/src/main/java/com/beartooth/kodec2/Codec2.kt:64-68 | joining the frames gives the input up to its last complete frame |
| Framing.ChunksIgnoreTail | lib/src/main/java/com/beartooth/kodec2/Codec2.kt:54 | a trailing partial frame plays no part in what is cut |
| Framing.FlattenAppend | lib/src/main/java/com/beartooth/kodec2/Codec2.kt:67 | joining two runs of frames is joining each and concatenating |
| Framing.FlattenSnoc | lib/src/main/java/com/beartooth/kodec2/Codec2.kt:67 | appending one more frame's bytes extends the join by exactly those bytes |
| Framing.ChunkAdvance | lib/src/main/java/com/beartooth/kodec2/Codec2.kt:64-65 | reading `f` more bytes at `pos` cuts the next frame, and the rest of the input still yields the remaining frames |
| Framing.FlattenUniform | lib/src/main/java/com/beartooth/kodec2/Codec2.kt:67 | the join of `k` frames of `n` bytes is `k * n` bytes |
| Framing.ChunksOfFlatten | lib/src/main/java/com/beartooth/kodec2/Codec2.kt:92-95 | cutting a join of `e`-byte frames into `e`-byte frames gives back those frames |
| ByteStreams.ByteArrayInputStream.constructor | lib/src/main/java/com/beartooth/kodec2/Codec2.kt:60 | a stream over the buffer, at position 0 |
| ByteStreams.ByteArrayInputStream.Available | lib/src/main/java/com/beartooth/kodec2/Codec2.kt:64 | position plus available is the buffer's length |
| ByteStreams.ByteArrayInputStream.Read | lib/src/main/java/com/beartooth/kodec2/Codec2.kt:65 | Java `read(b, off, len)`: -1 at the end and nothing changes. Otherwise `min(len, available)` bytes are copied into `b[off..]` with the rest of `b` kept, and the position advances by that count |
| ByteStreams.ByteArrayOutputStream.constructor | lib/src/main/java/com/beartooth/kodec2/Codec2.kt:61 | an empty output stream |
| ByteStreams.ByteArrayOutputStream.Write | lib/src/main/java/com/beartooth/kodec2/Codec2.kt:67 | appends `b[off..off + len]` |
| ByteStreams.ByteArrayOutputStream.ToByteArray | lib/src/main/java/com/beartooth/kodec2/Codec2.kt:71 | everything written, in order |
| Kodec2.Bitrate.Ordinal | lib/src/main/java/com/beartooth/kodec2/Codec2.kt:118-127 | Kotlin's `ordinal`: the position of the value in declaration order. Its properties are `OrdinalIsPosition` and `OrdinalFitsTable` |
| Kodec2.OrdinalIsPosition | lib/src/main/java/com/beartooth/kodec2/Codec2.kt:118-127 | the ordinal is the declaration position: eight distinct values `0..7` |
| Kodec2.OrdinalFitsTable | lib/src/main/java/com/beartooth/kodec2/Codec2.kt:118-127 | every bitrate except `BPS_700B` indexes one of the 7 native slots, and `BPS_700B`'s ordinal is 7, one past the end |
| Kodec2.Init | lib/src/main/java/com/beartooth/kodec2/Codec2.kt:35 | `codec2Initialize(bitrate.ordinal)`, with its state and result as `Initialized` |
| Kodec2.Release | lib/src/main/java/com/beartooth/kodec2/Codec2.kt:40 | `codec2Release(bitrate.ordinal)`, as `Released` |
| Kodec2.GetFrameSize | lib/src/main/java/com/beartooth/kodec2/Codec2.kt:45-49 | the mode's samples per frame, the ceiling of its bits over 8, and `decodedByteCount == samples * INPUT_SAMPLE_BYTES == 2 * samples` |
| Kodec2.HandledStart | lib/src/main/java/com/beartooth/kodec2/Codec2.kt:64 | before the first turn the instance has handled no calls |
| Kodec2.HandledStep | lib/src/main/java/com/beartooth/kodec2/Codec2.kt:66 | one more recorded call extends the handled calls by it |
| Kodec2.FramedStart | lib/src/main/java/com/beartooth/kodec2/Codec2.kt:60-62 | at position 0 with nothing written, the framing invariant holds |
| Kodec2.FramedStep | lib/src/main/java/com/beartooth/kodec2/Codec2.kt:64-67 | a call handed the frame at `pos` whose output is appended keeps the framing invariant at `pos + f` |
| Kodec2.FinishFraming | lib/src/main/java/com/beartooth/kodec2/Codec2.kt:64-71 | once fewer than `f` bytes remain, the transcript is the old one followed by exactly the calls made. Those calls were handed every complete frame. The output is `(len / f) * n` bytes long |
| Kodec2.EncodedFramesSplitBack | lib/src/main/java/com/beartooth/kodec2/Codec2.kt:84-96 | the join of calls that each wrote `e` bytes, which `Encode` promises of its calls, is an exact multiple of `e` and is cut back into exactly those outputs |
| Kodec2.RoundTripFrames | lib/src/main/java/com/beartooth/kodec2/Codec2.kt:56-105 | given what `Encode` and `Decode` promise of their calls, the decode calls are handed exactly the encode calls' outputs, in order. There is one of each per complete frame of the samples, and the speech is as long as those frames |
| Kodec2.RoundTrip | lib/src/main/java/com/beartooth/kodec2/Codec2.kt:56-105 | `decode(bitrate, encode(bitrate, samples))`: the transcript gains the encode calls and then the decode calls. The encode calls are handed the complete frames of the samples, and the decode calls exactly the frames the encoder wrote, in order. The speech is the decoded frames joined, as long as the complete frames of the samples |
| Kodec2.ReadFrame | lib/src/main/java/com/beartooth/kodec2/Codec2.kt:65 | with a whole frame available, `tempBuffer` becomes the next `f` input bytes and the position advances by `f` |
| Kodec2.EncodeStep | lib/src/main/java/com/beartooth/kodec2/Codec2.kt:65-66 | reads a frame and encodes it. The native length check is met, and the instance recorded that frame and the returned bytes |
| Kodec2.EncodeTurn | lib/src/main/java/com/beartooth/kodec2/Codec2.kt:65-67 | one loop turn: the position advances by the decoded frame size and the output grows by exactly the encoded frame |
| Kodec2.EncodeFrames | lib/src/main/java/com/beartooth/kodec2/Codec2.kt:64-68 | the `encode` loop keeps the framing invariant and stops with less than a frame available |
| Kodec2.Encode | lib/src/main/java/com/beartooth/kodec2/Codec2.kt:56-77 | the transcript gains exactly the calls `calls`, nothing else in the registry changing. They are one encode per complete frame of `samples`, in order, each handed exactly that frame and writing `bytes_per_enc_frame` bytes. The result is their outputs joined in order, of length `(len / decodedByteCount) * encodedByteCount` |
| Kodec2.DecodeStep | lib/src/main/java/com/beartooth/kodec2/Codec2.kt:93-94 | reads an encoded frame and decodes it. The native length check is met, and the instance recorded the call |
| Kodec2.DecodeTurn | lib/src/main/java/com/beartooth/kodec2/Codec2.kt:93-95 | one loop turn: the position advances by the encoded frame size and the output grows by exactly the decoded frame |
| Kodec2.DecodeFrames | lib/src/main/java/com/beartooth/kodec2/Codec2.kt:92-96 | the `decode` loop keeps the framing invariant and stops with less than a frame available |
| Kodec2.Decode | lib/src/main/java/com/beartooth/kodec2/Codec2.kt:84-105 | the transcript gains exactly the calls `calls`, nothing else in the registry changing. They are one decode per complete encoded frame of `frames`, in order, each handed exactly that frame and writing `2 * samples_per_frame` bytes. The result is the decoded samples joined in order, of length `(len / encodedByteCount) * decodedByteCount` |

## Left out

- The Codec 2 DSP engine: what `codec2_encode` and `codec2_decode` compute is not modelled. Only the buffer lengths and a per-instance transcript are. The library's source is not part of this model.
- The numeric values of the `CODEC2_MODE_*` constants: the header is not part of this model. The engine's set of known modes and their frame parameters are a constructor argument.
- The outcome of `codec2_create`'s allocation: a `malloc` that may fail is the parameter `allocOk`.
- JNI marshalling (`GetByteArrayElements`, `ReleaseByteArrayElements`, `NewByteArray`, `GetArrayLength`): buffers are `seq<bv8>` and arrays.
- Logging and timing: `__android_log_print`, `print_codec_info`, `describe_codec_mode` (log strings only), `Log.*` and `measureTimeMillis`. The partial-frame check is computed and only logged.
- Library loading (`System.loadLibrary`) and the stream `close()` calls inside `runCatching`: neither affects the result.
- `Encode` and `Decode` return the calls made as a ghost result besides the bytes the Kotlin functions return, so that a caller can name them.
- The java.io streams are modelled only as far as the calls the Kotlin code makes.
- Concurrency: the source has no synchronisation, and calls are modelled as sequential.
- C `int` and Kotlin `Int` overflow: sizes are unbounded integers. `(nbits + 7) / 8` and `samples * 2` could overflow only for frame sizes far beyond any Codec 2 mode.
- Calls with a mode outside `0..6` (including `BPS_700B`): the source indexes past the table there, which is undefined behaviour. Every operation requires the mode in range instead.
- Kodec2.Encode and Kodec2.Decode: a zero samples-per-frame (resp. a zero encoded frame size) makes the Kotlin `%` throw before the loop. The exception is not modelled, and a positive frame size is required instead.
