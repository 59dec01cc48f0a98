/**
 * The Kotlin API of kodec2 (Codec2.kt): the `Bitrate` enum whose ordinal is
 * passed to the native layer as the mode, the frame sizing query, and
 * `encode`/`decode`, which cut a byte buffer into whole frames, hand each to
 * the native per-frame call and join the results in order.
 *
 * The `Codec2` object has no state of its own: every method here takes the
 * native table it calls into.
 */
module Kodec2 {
  import opened Engine
  import opened Framing
  import opened ByteStreams
  import opened Codec2Jni

  /** `Codec2.Bitrate`, in declaration order. */
  datatype Bitrate = BPS_3200 | BPS_2400 | BPS_1600 | BPS_1400 | BPS_1300 | BPS_1200 | BPS_700 | BPS_700B {

    /** Kotlin's `ordinal`: the position in declaration order, which is what the native layer gets as the mode. */
    function Ordinal(): nat {
      match this
      case BPS_3200 => 0
      case BPS_2400 => 1
      case BPS_1600 => 2
      case BPS_1400 => 3
      case BPS_1300 => 4
      case BPS_1200 => 5
      case BPS_700 => 6
      case BPS_700B => 7
    }
  }

  /** `Bitrate.values()`. */
  const Entries: seq<Bitrate> := [BPS_3200, BPS_2400, BPS_1600, BPS_1400, BPS_1300, BPS_1200, BPS_700, BPS_700B]

  /** The ordinals are the positions in `Entries`: eight distinct values `0..7`. */
  lemma OrdinalIsPosition(b: Bitrate)
    ensures |Entries| == 8 && b.Ordinal() < |Entries| && Entries[b.Ordinal()] == b
    ensures forall i | 0 <= i < |Entries| :: Entries[i].Ordinal() == i
  {
  }

  /**
   * The native table has seven slots but the enum has eight values: every
   * bitrate but `BPS_700B` indexes a slot, and `BPS_700B`'s ordinal 7 is one
   * past the end.
   */
  lemma OrdinalFitsTable(b: Bitrate)
    ensures b.Ordinal() < SLOT_COUNT <==> b != BPS_700B
    ensures BPS_700B.Ordinal() == SLOT_COUNT
  {
  }

  /** The width of a PCM sample, in bits. */
  const INPUT_SAMPLE_BITS: int := 16
  /** The bytes one PCM sample occupies in a buffer. */
  const INPUT_SAMPLE_BYTES: int := INPUT_SAMPLE_BITS / 8

  /** `Codec2.FrameSize`. */
  datatype FrameSize = FrameSize(samples: int, encodedByteCount: int, decodedByteCount: int)

  /** The native layer accepts the mode of `bitrate` and holds a live instance for it. */
  ghost predicate Ready(jni: Registry, bitrate: Bitrate)
    reads jni, jni.engine, jni.codecInstances
  {
    jni.Valid() && bitrate.Ordinal() < SLOT_COUNT && jni.codecInstances[bitrate.Ordinal()].Some?
  }

  /** `init(bitrate)`: `codec2Initialize(bitrate.ordinal)`. */
  method Init(jni: Registry, bitrate: Bitrate, allocOk: bool) returns (ok: bool)
    requires jni.Valid() && bitrate.Ordinal() < SLOT_COUNT
    modifies jni.engine, jni.codecInstances
    ensures jni.Valid()
    ensures (jni.State(), ok) == Initialized(old(jni.State()), bitrate.Ordinal(), allocOk)
  {
    ok := jni.Initialize(bitrate.Ordinal(), allocOk);
  }

  /** `release(bitrate)`: `codec2Release(bitrate.ordinal)`. */
  method Release(jni: Registry, bitrate: Bitrate)
    requires jni.Valid() && bitrate.Ordinal() < SLOT_COUNT
    modifies jni.engine, jni.codecInstances
    ensures jni.Valid()
    ensures jni.State() == Released(old(jni.State()), bitrate.Ordinal())
  {
    jni.Release(bitrate.Ordinal());
  }

  /**
   * `getFrameSize(bitrate)`: the samples per frame, the encoded frame's bytes
   * (the bits rounded up to whole bytes) and the decoded frame's bytes (two per
   * 16-bit sample).
   */
  method GetFrameSize(jni: Registry, bitrate: Bitrate) returns (fs: FrameSize)
    requires Ready(jni, bitrate)
    ensures var p := jni.engine.modes[bitrate.Ordinal()];
      bitrate.Ordinal() in jni.engine.modes
      && fs.samples == p.samplesPerFrame
      && 8 * fs.encodedByteCount >= p.bitsPerFrame && 8 * fs.encodedByteCount < p.bitsPerFrame + 8
      && fs.decodedByteCount == fs.samples * INPUT_SAMPLE_BYTES
      && fs.decodedByteCount == 2 * p.samplesPerFrame
  {
    var bytes := jni.GetFrameLengthBytes(bitrate.Ordinal());
    var samples := jni.GetFrameLengthSamples(bitrate.Ordinal());
    fs := FrameSize(samples, bytes, samples * INPUT_SAMPLE_BYTES);
  }

  /** Starting from `s0`, the instance of `mode` has handled `calls`, and nothing else happened: the registry is `st`. */
  ghost predicate Handled(mode: nat, s0: RegistryState, st: RegistryState, calls: seq<Call>) {
    Inv(s0) && mode < SLOT_COUNT && s0.slots[mode].Some? && st == FramesRecorded(s0, mode, calls)
  }

  /**
   * A framing loop part-way through `input`: the calls made so far were given
   * the frames of `f` bytes cut before `pos`, in order, each was of one kind
   * and wrote `n` bytes, and `written` is what they wrote, in order.
   */
  predicate Framed(input: seq<bv8>, pos: nat, written: seq<bv8>, f: nat, calls: seq<Call>, encoded: bool, n: nat) {
    f > 0 && pos <= |input|
    && Inputs(calls) + Chunks(input[pos..], f) == Chunks(input, f)
    && Uniform(calls, encoded, n)
    && written == Flatten(Outputs(calls))
  }

  /** Before the first call nothing has happened. */
  lemma HandledStart(mode: nat, s0: RegistryState)
    requires Inv(s0) && mode < SLOT_COUNT && s0.slots[mode].Some?
    ensures Handled(mode, s0, s0, [])
  {
    FramesRecordedNothing(s0, mode);
  }

  /** One more call handled. */
  lemma HandledStep(mode: nat, s0: RegistryState, st: RegistryState, st': RegistryState, calls: seq<Call>, c: Call)
    requires Handled(mode, s0, st, calls) && Inv(st) && st.slots[mode].Some?
    requires st' == FramesRecorded(st, mode, [c])
    ensures Handled(mode, s0, st', calls + [c])
  {
    FramesRecordedCompose(s0, mode, calls, [c]);
  }

  /** Before the first turn nothing is read and nothing written. */
  lemma FramedStart(input: seq<bv8>, f: nat, encoded: bool, n: nat)
    requires f > 0
    ensures Framed(input, 0, [], f, [], encoded, n)
  {
    assert input[0..] == input;
    assert Inputs([]) == [] && Outputs([]) == [];
  }

  /** One turn of a framing loop: the frame cut at `pos` is handed on, and what it wrote is appended. */
  lemma FramedStep(input: seq<bv8>, pos: nat, written: seq<bv8>, f: nat, calls: seq<Call>, c: Call, encoded: bool, n: nat)
    returns (pos': nat, written': seq<bv8>, calls': seq<Call>)
    requires Framed(input, pos, written, f, calls, encoded, n) && pos + f <= |input|
    requires c.input == input[pos..pos + f] && c.Encoded? == encoded && |c.output| == n
    ensures pos' == pos + f && written' == written + c.output && calls' == calls + [c]
    ensures Framed(input, pos', written', f, calls', encoded, n)
  {
    pos', written', calls' := pos + f, written + c.output, calls + [c];
    ChunkAdvance(input, pos, f, Inputs(calls));
    CallsSnoc(calls, c);
    FlattenSnoc(Outputs(calls), c.output);
  }

  /**
   * When a framing loop stops, fewer than `f` bytes are left: the calls were
   * given every complete frame of the input, they are exactly what the
   * instance's transcript gained, and they wrote `n` bytes each.
   */
  lemma FinishFraming(mode: nat, s0: RegistryState, st: RegistryState, input: seq<bv8>, pos: nat,
                      written: seq<bv8>, f: nat, calls: seq<Call>, encoded: bool, n: nat)
    requires Handled(mode, s0, st, calls) && Framed(input, pos, written, f, calls, encoded, n)
    requires |input| - pos < f
    ensures Inv(st) && st.slots[mode].Some?
    ensures HistoryOf(st, mode) == HistoryOf(s0, mode) + calls
    ensures Inputs(calls) == Chunks(input, f)
    ensures |written| == (|input| / f) * n
  {
    FramesRecordedEffect(s0, mode, calls);
    assert Inputs(calls) + [] == Inputs(calls);
    ChunksCount(input, f);
    FlattenUniform(Outputs(calls), n);
  }

  /**
   * What `encode` returns, handed to `decode` with the same frame size, is cut
   * back into exactly the frames the encoder wrote, one per decode call, in
   * order, with no partial frame left over.
   */
  lemma EncodedFramesSplitBack(calls: seq<Call>, e: nat)
    requires e > 0 && Uniform(calls, true, e)
    ensures Chunks(Flatten(Outputs(calls)), e) == Outputs(calls)
    ensures |Flatten(Outputs(calls))| % e == 0
  {
    ChunksOfFlatten(Outputs(calls), e);
    FlattenUniform(Outputs(calls), e);
    DivUnique(|calls| * e, e, |calls|, 0);
  }

  /** `d` and `e` are the decoded and encoded frame sizes of `mode`, as the engine's table gives them. */
  ghost predicate Sized(jni: Registry, mode: nat, d: nat, e: nat)
    reads jni
  {
    mode in jni.engine.modes
    && d == 2 * jni.engine.modes[mode].samplesPerFrame
    && e == BytesForBits(jni.engine.modes[mode].bitsPerFrame)
  }

  /** `read(tempBuffer, 0, tempBuffer.size)` with a whole buffer's worth available: the buffer is the next bytes. */
  method ReadFrame(input: ByteArrayInputStream, tempBuffer: array<bv8>, f: nat, ghost pos: nat) returns (ghost chunk: seq<bv8>)
    requires input.Valid() && tempBuffer.Length == f && input.Available() >= f && pos == input.pos
    modifies input, tempBuffer
    ensures input.Valid() && input.pos == pos + f && pos + f <= |input.buf|
    ensures chunk == tempBuffer[..] == input.buf[pos..pos + f]
  {
    var _ := input.Read(tempBuffer, 0, tempBuffer.Length);
    chunk := tempBuffer[..];
  }

  /**
   * Read a frame of samples and encode it: `frame` is what the native layer
   * returned and `c` the call the instance recorded.
   */
  method EncodeStep(jni: Registry, mode: nat, input: ByteArrayInputStream,
                    tempBuffer: array<bv8>, d: nat, e: nat,
                    ghost st: RegistryState, ghost pos: nat)
    returns (frame: array<bv8>, ghost c: Call)
    requires jni.Valid() && mode < SLOT_COUNT && jni.codecInstances[mode].Some?
    requires input !in jni.Repr() && tempBuffer !in jni.Repr()
    requires Sized(jni, mode, d, e)
    requires input.Valid() && tempBuffer.Length == d && input.Available() >= d
    requires st == jni.State() && pos == input.pos
    modifies jni.engine, input, tempBuffer
    ensures jni.Valid() && jni.codecInstances[mode].Some?
    ensures jni.State() == FramesRecorded(st, mode, [c])
    ensures input.Valid() && input.pos == pos + d && pos + d <= |input.buf|
    ensures c.Encoded? && c.input == input.buf[pos..pos + d] && |c.output| == e
    ensures fresh(frame) && frame[..] == c.output
  {
    ghost var chunk := ReadFrame(input, tempBuffer, d, pos);
    assert chunk[..d] == chunk;
    frame := jni.EncodeFrame(mode, tempBuffer[..]);
    c := Encoded(chunk, frame[..]);
  }

  /**
   * Read an encoded frame and decode it: `dec` is what the native layer
   * returned and `c` the call the instance recorded.
   */
  method DecodeStep(jni: Registry, mode: nat, input: ByteArrayInputStream,
                    tempBuffer: array<bv8>, d: nat, e: nat,
                    ghost st: RegistryState, ghost pos: nat)
    returns (dec: array<bv8>, ghost c: Call)
    requires jni.Valid() && mode < SLOT_COUNT && jni.codecInstances[mode].Some?
    requires input !in jni.Repr() && tempBuffer !in jni.Repr()
    requires Sized(jni, mode, d, e)
    requires input.Valid() && tempBuffer.Length == e && input.Available() >= e
    requires st == jni.State() && pos == input.pos
    modifies jni.engine, input, tempBuffer
    ensures jni.Valid() && jni.codecInstances[mode].Some?
    ensures jni.State() == FramesRecorded(st, mode, [c])
    ensures input.Valid() && input.pos == pos + e && pos + e <= |input.buf|
    ensures c.Decoded? && c.input == input.buf[pos..pos + e] && |c.output| == d
    ensures fresh(dec) && dec[..] == c.output
  {
    ghost var chunk := ReadFrame(input, tempBuffer, e, pos);
    dec := jni.DecodeFrame(mode, tempBuffer[..]);
    c := Decoded(chunk, dec[..]);
  }

  /** An object allocated since the old state is not one the table is made of. */
  twostate lemma FreshOutside(jni: Registry, new o: object)
    requires fresh(o)
    ensures o !in jni.Repr()
  {
  }

  /** One turn of the `encode` loop: EncodeStep, then the write to `output`. */
  method EncodeTurn(jni: Registry, mode: nat, input: ByteArrayInputStream, output: ByteArrayOutputStream,
                    tempBuffer: array<bv8>, d: nat, e: nat,
                    ghost st: RegistryState, ghost pos: nat, ghost written: seq<bv8>)
    returns (ghost c: Call)
    requires jni.Valid() && mode < SLOT_COUNT && jni.codecInstances[mode].Some?
    requires input !in jni.Repr() && output !in jni.Repr() && tempBuffer !in jni.Repr()
    requires Sized(jni, mode, d, e)
    requires input.Valid() && tempBuffer.Length == d && input.Available() >= d
    requires st == jni.State() && pos == input.pos && written == output.buf
    modifies jni.engine, input, output, tempBuffer
    ensures jni.Valid() && jni.codecInstances[mode].Some?
    ensures jni.State() == FramesRecorded(st, mode, [c])
    ensures input.Valid() && input.pos == pos + d && pos + d <= |input.buf|
    ensures c.Encoded? && c.input == input.buf[pos..pos + d] && |c.output| == e
    ensures output.buf == written + c.output
  {
    var frame, c0 := EncodeStep(jni, mode, input, tempBuffer, d, e, st, pos);
    assert frame[0..frame.Length] == c0.output;
    output.Write(frame, 0, frame.Length);
    c := c0;
  }

  /** The `encode` loop: one EncodeTurn while a whole frame of input remains. */
  method EncodeFrames(jni: Registry, mode: nat, input: ByteArrayInputStream, output: ByteArrayOutputStream,
                      tempBuffer: array<bv8>, d: nat, e: nat, ghost s0: RegistryState)
    returns (ghost calls: seq<Call>)
    requires jni.Valid() && mode < SLOT_COUNT && jni.codecInstances[mode].Some?
    requires input !in jni.Repr() && output !in jni.Repr() && tempBuffer !in jni.Repr()
    requires Sized(jni, mode, d, e) && d > 0
    requires input.Valid() && tempBuffer.Length == d
    requires Handled(mode, s0, jni.State(), []) && Framed(input.buf, input.pos, output.buf, d, [], true, e)
    modifies jni.engine, input, output, tempBuffer
    ensures jni.Valid() && jni.codecInstances[mode].Some?
    ensures input.Valid() && input.Available() < d
    ensures Handled(mode, s0, jni.State(), calls) && Framed(input.buf, input.pos, output.buf, d, calls, true, e)
  {
    calls := [];
    ghost var st, pos, written := jni.State(), input.pos, output.buf;
    while input.Available() >= d
      invariant input !in jni.Repr() && output !in jni.Repr() && tempBuffer !in jni.Repr()
      invariant jni.Valid() && jni.codecInstances[mode].Some?
      invariant Sized(jni, mode, d, e)
      invariant input.Valid() && tempBuffer.Length == d
      invariant st == jni.State() && pos == input.pos && written == output.buf
      invariant Handled(mode, s0, st, calls) && Framed(input.buf, pos, written, d, calls, true, e)
      decreases input.Available()
    {
      ghost var c := EncodeTurn(jni, mode, input, output, tempBuffer, d, e, st, pos, written);
      HandledStep(mode, s0, st, jni.State(), calls, c);
      pos, written, calls := FramedStep(input.buf, pos, written, d, calls, c, true, e);
      st := jni.State();
    }
  }

  /**
   * `encode(bitrate, samples)`. The calls the instance sees are one per
   * complete frame of `samples`, in order, each given exactly that frame and
   * each writing one encoded frame; the result is their outputs joined in order. A trailing partial frame is only
   * warned about, and ignored. The loop ends only because a frame has at
   * least one sample.
   */
  method Encode(jni: Registry, bitrate: Bitrate, samples: seq<bv8>) returns (frames: seq<bv8>, ghost calls: seq<Call>)
    requires Ready(jni, bitrate)
    requires jni.SamplesPerFrame(bitrate.Ordinal()) > 0
    modifies jni.engine
    ensures Ready(jni, bitrate)
    ensures jni.History(bitrate.Ordinal()) == old(jni.History(bitrate.Ordinal())) + calls
    ensures jni.State() == FramesRecorded(old(jni.State()), bitrate.Ordinal(), calls)
    ensures var mode := bitrate.Ordinal();
      Uniform(calls, true, jni.BytesPerEncFrame(mode))
      && Inputs(calls) == Chunks(samples, 2 * jni.SamplesPerFrame(mode))
      && frames == Flatten(Outputs(calls))
    ensures |frames| == (|samples| / (2 * jni.SamplesPerFrame(bitrate.Ordinal()))) * jni.BytesPerEncFrame(bitrate.Ordinal())
  {
    var mode := bitrate.Ordinal();
    var frameSize := GetFrameSize(jni, bitrate);
    var d, e := frameSize.decodedByteCount, frameSize.encodedByteCount;
    assert e == jni.BytesPerEncFrame(mode) by {
      BytesForBitsIsCeiling(jni.BitsPerFrame(mode), e);
    }
    var partialFrames := |samples| % d != 0;  // only logged as a warning
    var sampleStream := new ByteArrayInputStream(samples);
    var encodeStream := new ByteArrayOutputStream();
    var tempBuffer := new bv8[d];
    ghost var s0 := jni.State();
    HandledStart(mode, s0);
    FramedStart(samples, d, true, e);
    FreshOutside(jni, sampleStream);
    FreshOutside(jni, encodeStream);
    FreshOutside(jni, tempBuffer);
    calls := EncodeFrames(jni, mode, sampleStream, encodeStream, tempBuffer, d, e, s0);
    frames := encodeStream.ToByteArray();
    FinishFraming(mode, s0, jni.State(), samples, sampleStream.pos, frames, d, calls, true, e);
  }

  /** One turn of the `decode` loop: DecodeStep, then the write to `output`. */
  method DecodeTurn(jni: Registry, mode: nat, input: ByteArrayInputStream, output: ByteArrayOutputStream,
                    tempBuffer: array<bv8>, d: nat, e: nat,
                    ghost st: RegistryState, ghost pos: nat, ghost written: seq<bv8>)
    returns (ghost c: Call)
    requires jni.Valid() && mode < SLOT_COUNT && jni.codecInstances[mode].Some?
    requires input !in jni.Repr() && output !in jni.Repr() && tempBuffer !in jni.Repr()
    requires Sized(jni, mode, d, e)
    requires input.Valid() && tempBuffer.Length == e && input.Available() >= e
    requires st == jni.State() && pos == input.pos && written == output.buf
    modifies jni.engine, input, output, tempBuffer
    ensures jni.Valid() && jni.codecInstances[mode].Some?
    ensures jni.State() == FramesRecorded(st, mode, [c])
    ensures input.Valid() && input.pos == pos + e && pos + e <= |input.buf|
    ensures c.Decoded? && c.input == input.buf[pos..pos + e] && |c.output| == d
    ensures output.buf == written + c.output
  {
    var dec, c0 := DecodeStep(jni, mode, input, tempBuffer, d, e, st, pos);
    assert dec[0..dec.Length] == c0.output;
    output.Write(dec, 0, dec.Length);
    c := c0;
  }

  /** The `decode` loop: one DecodeTurn while a whole frame of input remains. */
  method DecodeFrames(jni: Registry, mode: nat, input: ByteArrayInputStream, output: ByteArrayOutputStream,
                      tempBuffer: array<bv8>, d: nat, e: nat, ghost s0: RegistryState)
    returns (ghost calls: seq<Call>)
    requires jni.Valid() && mode < SLOT_COUNT && jni.codecInstances[mode].Some?
    requires input !in jni.Repr() && output !in jni.Repr() && tempBuffer !in jni.Repr()
    requires Sized(jni, mode, d, e) && e > 0
    requires input.Valid() && tempBuffer.Length == e
    requires Handled(mode, s0, jni.State(), []) && Framed(input.buf, input.pos, output.buf, e, [], false, d)
    modifies jni.engine, input, output, tempBuffer
    ensures jni.Valid() && jni.codecInstances[mode].Some?
    ensures input.Valid() && input.Available() < e
    ensures Handled(mode, s0, jni.State(), calls) && Framed(input.buf, input.pos, output.buf, e, calls, false, d)
  {
    calls := [];
    ghost var st, pos, written := jni.State(), input.pos, output.buf;
    while input.Available() >= e
      invariant input !in jni.Repr() && output !in jni.Repr() && tempBuffer !in jni.Repr()
      invariant jni.Valid() && jni.codecInstances[mode].Some?
      invariant Sized(jni, mode, d, e)
      invariant input.Valid() && tempBuffer.Length == e
      invariant st == jni.State() && pos == input.pos && written == output.buf
      invariant Handled(mode, s0, st, calls) && Framed(input.buf, pos, written, e, calls, false, d)
      decreases input.Available()
    {
      ghost var c := DecodeTurn(jni, mode, input, output, tempBuffer, d, e, st, pos, written);
      HandledStep(mode, s0, st, jni.State(), calls, c);
      pos, written, calls := FramedStep(input.buf, pos, written, e, calls, c, false, d);
      st := jni.State();
    }
  }

  /**
   * `decode(bitrate, frames)`. The calls the instance sees are one per
   * complete encoded frame of `frames`, in order, each given exactly that
   * frame and each writing one frame of samples; the result is the decoded
   * samples joined in order. A trailing
   * partial frame is only warned about, and ignored. The loop ends only
   * because an encoded frame has at least one bit.
   */
  method Decode(jni: Registry, bitrate: Bitrate, frames: seq<bv8>) returns (samples: seq<bv8>, ghost calls: seq<Call>)
    requires Ready(jni, bitrate)
    requires jni.BitsPerFrame(bitrate.Ordinal()) > 0
    modifies jni.engine
    ensures Ready(jni, bitrate)
    ensures jni.History(bitrate.Ordinal()) == old(jni.History(bitrate.Ordinal())) + calls
    ensures jni.State() == FramesRecorded(old(jni.State()), bitrate.Ordinal(), calls)
    ensures var mode := bitrate.Ordinal();
      Uniform(calls, false, 2 * jni.SamplesPerFrame(mode))
      && Inputs(calls) == Chunks(frames, jni.BytesPerEncFrame(mode))
      && samples == Flatten(Outputs(calls))
    ensures |samples| == (|frames| / jni.BytesPerEncFrame(bitrate.Ordinal())) * (2 * jni.SamplesPerFrame(bitrate.Ordinal()))
  {
    var mode := bitrate.Ordinal();
    var frameSize := GetFrameSize(jni, bitrate);
    var d, e := frameSize.decodedByteCount, frameSize.encodedByteCount;
    assert e == jni.BytesPerEncFrame(mode) by {
      BytesForBitsIsCeiling(jni.BitsPerFrame(mode), e);
    }
    var partialFrames := |frames| % e != 0;  // only logged as a warning
    var encodeStream := new ByteArrayInputStream(frames);
    var sampleStream := new ByteArrayOutputStream();
    var tempBuffer := new bv8[e];
    ghost var s0 := jni.State();
    HandledStart(mode, s0);
    FramedStart(frames, e, false, d);
    FreshOutside(jni, encodeStream);
    FreshOutside(jni, sampleStream);
    FreshOutside(jni, tempBuffer);
    calls := DecodeFrames(jni, mode, encodeStream, sampleStream, tempBuffer, d, e, s0);
    samples := sampleStream.ToByteArray();
    FinishFraming(mode, s0, jni.State(), frames, encodeStream.pos, samples, e, calls, false, d);
  }

  /**
   * Encoding then decoding, stated on the calls: whatever the encode calls
   * wrote, `e` bytes each, is what the decode calls are handed, one frame
   * each and in order, and the speech that comes back is as long as the
   * complete `d`-byte frames of the samples.
   */
  lemma RoundTripFrames(samples: seq<bv8>, frames: seq<bv8>, speech: seq<bv8>,
                        encoded: seq<Call>, decoded: seq<Call>, d: nat, e: nat)
    requires d > 0 && e > 0
    requires Inputs(encoded) == Chunks(samples, d) && Uniform(encoded, true, e)
    requires frames == Flatten(Outputs(encoded))
    requires Inputs(decoded) == Chunks(frames, e) && Uniform(decoded, false, d)
    requires speech == Flatten(Outputs(decoded))
    ensures Inputs(decoded) == Outputs(encoded)
    ensures |decoded| == |encoded| == |samples| / d
    ensures |speech| == (|samples| / d) * d
  {
    EncodedFramesSplitBack(encoded, e);
    ChunksCount(samples, d);
    FlattenUniform(Outputs(decoded), d);
  }

  /**
   * `decode(bitrate, encode(bitrate, samples))`: the decoder is handed, one
   * call each and in order, exactly the frames the encoder wrote, and the
   * speech that comes back is as long as the complete frames of `samples`.
   */
  method RoundTrip(jni: Registry, bitrate: Bitrate, samples: seq<bv8>)
    returns (speech: seq<bv8>, ghost encoded: seq<Call>, ghost decoded: seq<Call>)
    requires Ready(jni, bitrate)
    requires jni.SamplesPerFrame(bitrate.Ordinal()) > 0 && jni.BitsPerFrame(bitrate.Ordinal()) > 0
    modifies jni.engine
    ensures Ready(jni, bitrate)
    ensures jni.History(bitrate.Ordinal()) == old(jni.History(bitrate.Ordinal())) + encoded + decoded
    ensures Inputs(encoded) == Chunks(samples, 2 * jni.SamplesPerFrame(bitrate.Ordinal()))
    ensures Inputs(decoded) == Outputs(encoded)
    ensures speech == Flatten(Outputs(decoded))
    ensures |speech| == (|samples| / (2 * jni.SamplesPerFrame(bitrate.Ordinal()))) * (2 * jni.SamplesPerFrame(bitrate.Ordinal()))
  {
    var mode := bitrate.Ordinal();
    ghost var d, e := 2 * jni.SamplesPerFrame(mode), jni.BytesPerEncFrame(mode);
    ghost var h0 := jni.History(mode);
    var frames;
    frames, encoded := Encode(jni, bitrate, samples);
    assert d == 2 * jni.SamplesPerFrame(mode) && e == jni.BytesPerEncFrame(mode);
    ghost var h1 := jni.History(mode);
    speech, decoded := Decode(jni, bitrate, frames);
    assert d == 2 * jni.SamplesPerFrame(mode) && e == jni.BytesPerEncFrame(mode);
    RoundTripFrames(samples, frames, speech, encoded, decoded, d, e);
    assert h0 + encoded + decoded == h1 + decoded;
  }
}
