/**
 * The Codec 2 engine as the JNI layer sees it: an opaque library that creates
 * an instance per mode, destroys it, reports its frame parameters and encodes
 * or decodes one frame at a time.
 *
 * What the engine computes is not modelled. An instance only keeps a transcript
 * of the frames it was fed and the frames it produced, which is the part of its
 * evolving state that the framing layers above can observe. The counters
 * `creates` and `destroys` (per mode) are instrumentation, so that the
 * lifecycle of the instances can be stated.
 */
module Engine {
  import opened Wrappers

  /** The two codec-intrinsic parameters of a mode. */
  datatype FrameParams = FrameParams(samplesPerFrame: nat, bitsPerFrame: nat)

  /** An opaque `struct CODEC2 *`; the engine hands out a distinct one per creation. */
  datatype Handle = Handle(id: nat)

  /** One call of `codec2_encode` or `codec2_decode`: what the instance read and what it wrote. */
  datatype Call =
    | Encoded(input: seq<bv8>, output: seq<bv8>)
    | Decoded(input: seq<bv8>, output: seq<bv8>)

  /** What each call read, in order. */
  function Inputs(calls: seq<Call>): (r: seq<seq<bv8>>)
    ensures |r| == |calls| && forall i | 0 <= i < |calls| :: r[i] == calls[i].input
  {
    seq(|calls|, i requires 0 <= i < |calls| => calls[i].input)
  }

  /** What each call wrote, in order. */
  function Outputs(calls: seq<Call>): (r: seq<seq<bv8>>)
    ensures |r| == |calls| && forall i | 0 <= i < |calls| :: r[i] == calls[i].output
  {
    seq(|calls|, i requires 0 <= i < |calls| => calls[i].output)
  }

  lemma CallsSnoc(calls: seq<Call>, c: Call)
    ensures Inputs(calls + [c]) == Inputs(calls) + [c.input]
    ensures Outputs(calls + [c]) == Outputs(calls) + [c.output]
  {
    assert Inputs(calls + [c]) == Inputs(calls) + [c.input];
    assert Outputs(calls + [c]) == Outputs(calls) + [c.output];
  }

  /** Every call is of one kind (encode or decode) and wrote `n` bytes. */
  predicate Uniform(calls: seq<Call>, encoded: bool, n: nat) {
    forall i | 0 <= i < |calls| :: calls[i].Encoded? == encoded && |calls[i].output| == n
  }

  /** A live instance: the mode it was created for, that mode's parameters, and its transcript. */
  datatype Instance = Instance(mode: int, params: FrameParams, history: seq<Call>)

  datatype EngineState = EngineState(
    modes: map<int, FrameParams>,  // the modes the engine can create, with their parameters
    live: map<nat, Instance>,      // instances created and not yet destroyed, by handle id
    nextId: nat,                   // the id the next creation hands out
    creates: map<int, nat>,        // successful creations so far, per mode
    destroys: map<int, nat>)       // destructions so far, per mode

  /** The value of a counter map, absent keys counting zero. */
  function Count(m: map<int, nat>, k: int): nat {
    if k in m then m[k] else 0
  }

  /** `m` with the counter of `k` incremented. */
  function Bump(m: map<int, nat>, k: int): (r: map<int, nat>)
    ensures Count(r, k) == Count(m, k) + 1
    ensures forall j :: j != k ==> Count(r, j) == Count(m, j)
  {
    m[k := Count(m, k) + 1]
  }

  /** Every live instance carries an id below `nextId`, so the next handle is never a live one. */
  predicate EngineValid(e: EngineState) {
    forall id | id in e.live :: id < e.nextId
  }

  /**
   * `codec2_create(mode)`: a new instance when the engine knows the mode and the
   * allocation succeeds (`allocOk`), otherwise NULL and no change.
   */
  function Created(e: EngineState, mode: int, allocOk: bool): (EngineState, Option<Handle>) {
    if mode in e.modes && allocOk then
      (e.(live := e.live[e.nextId := Instance(mode, e.modes[mode], [])],
          nextId := e.nextId + 1,
          creates := Bump(e.creates, mode)),
       Some(Handle(e.nextId)))
    else
      (e, None)
  }

  /** `codec2_destroy(h)`: the instance is gone and its mode's destroy counter moves. */
  function Destroyed(e: EngineState, h: Handle): EngineState
    requires h.id in e.live
  {
    e.(live := e.live - {h.id}, destroys := Bump(e.destroys, e.live[h.id].mode))
  }

  /** The instance `h` after the frame calls `calls`, in order. */
  function Recorded(e: EngineState, h: Handle, calls: seq<Call>): EngineState
    requires h.id in e.live
  {
    e.(live := e.live[h.id := e.live[h.id].(history := e.live[h.id].history + calls)])
  }

  /** The engine, with the state above held in fields. */
  class CodecEngine {
    const modes: map<int, FrameParams>
    var live: map<nat, Instance>
    var nextId: nat
    ghost var creates: map<int, nat>
    ghost var destroys: map<int, nat>

    ghost function State(): EngineState
      reads this
    {
      EngineState(modes, live, nextId, creates, destroys)
    }

    constructor (modes: map<int, FrameParams>)
      ensures State() == EngineState(modes, map[], 0, map[], map[])
    {
      this.modes := modes;
      live, nextId := map[], 0;
      creates, destroys := map[], map[];
    }

    method Create(mode: int, allocOk: bool) returns (h: Option<Handle>)
      modifies this
      ensures (State(), h) == Created(old(State()), mode, allocOk)
    {
      if mode in modes && allocOk {
        h := Some(Handle(nextId));
        live := live[nextId := Instance(mode, modes[mode], [])];
        nextId := nextId + 1;
        creates := Bump(creates, mode);
      } else {
        h := None;
      }
    }

    method Destroy(h: Handle)
      requires h.id in live
      modifies this
      ensures State() == Destroyed(old(State()), h)
    {
      destroys := Bump(destroys, live[h.id].mode);
      live := live - {h.id};
    }

    /** `codec2_samples_per_frame`. */
    function SamplesPerFrame(h: Handle): nat
      reads this
      requires h.id in live
    {
      live[h.id].params.samplesPerFrame
    }

    /** `codec2_bits_per_frame`. */
    function BitsPerFrame(h: Handle): nat
      reads this
      requires h.id in live
    {
      live[h.id].params.bitsPerFrame
    }

    /**
     * `codec2_encode(h, bits, speech)`: reads one frame of 16-bit samples from
     * `speech` and writes the packed frame into `bits`, which must hold at least
     * the frame's bits. The bytes written are the engine's business.
     */
    method Encode(h: Handle, bits: array<bv8>, speech: seq<bv8>)
      requires h.id in live
      requires 8 * bits.Length >= BitsPerFrame(h)
      requires |speech| >= 2 * SamplesPerFrame(h)
      modifies this, bits
      ensures State() == Recorded(old(State()), h, [Encoded(speech[..2 * old(SamplesPerFrame(h))], bits[..])])
    {
      var inst := live[h.id];
      var frame := speech[..2 * inst.params.samplesPerFrame];
      live := live[h.id := inst.(history := inst.history + [Encoded(frame, bits[..])])];
    }

    /**
     * `codec2_decode(h, speech, bits)`: reads one packed frame from `bits` and
     * writes one frame of 16-bit samples into `speech`.
     */
    method Decode(h: Handle, speech: array<bv8>, bits: seq<bv8>)
      requires h.id in live
      requires speech.Length >= 2 * SamplesPerFrame(h)
      requires 8 * |bits| >= BitsPerFrame(h)
      modifies this, speech
      ensures State() == Recorded(old(State()), h, [Decoded(bits, speech[..])])
    {
      var inst := live[h.id];
      live := live[h.id := inst.(history := inst.history + [Decoded(bits, speech[..])])];
    }
  }
}
