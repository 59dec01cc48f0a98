/**
 * The native side of kodec2 (codec2_jni.c): a process-wide table of seven
 * optional codec instances, one slot per mode, and the operations that create,
 * destroy, query and drive them.
 *
 * The table is indexed by the raw mode number with no bounds check, so every
 * operation here requires `0 <= mode < SLOT_COUNT`; outside that range the
 * source reads or writes past the end of `codec_instances`. The source's
 * `assert`s (slot live, input length right) are `requires` clauses too.
 *
 * First the registry as a value (`RegistryState`) with one function per
 * operation and the lemmas about the lifecycle; then the class `Registry`,
 * whose methods update the array in place and are tied to those functions.
 */
module Codec2Jni {
  import opened Wrappers
  import opened Engine

  /** The size of `codec_instances`. */
  const SLOT_COUNT: nat := 7

  /** The table's slots and the engine's state. */
  datatype RegistryState = RegistryState(slots: seq<Option<Handle>>, engine: EngineState)

  /**
   * The registry's invariant: every slot that holds a handle holds a live
   * instance of its own mode; every live instance is held in its mode's slot
   * (the registry owns all of them, and no two slots share one); instances
   * carry their mode's parameters; and per mode, creations equal destructions
   * plus one when the slot is occupied.
   */
  predicate Inv(s: RegistryState) {
    |s.slots| == SLOT_COUNT && EngineValid(s.engine)
    && (forall m | 0 <= m < SLOT_COUNT && s.slots[m].Some? ::
          s.slots[m].value.id in s.engine.live && s.engine.live[s.slots[m].value.id].mode == m)
    && (forall id | id in s.engine.live ::
          0 <= s.engine.live[id].mode < SLOT_COUNT && s.slots[s.engine.live[id].mode] == Some(Handle(id)))
    && (forall id | id in s.engine.live ::
          s.engine.live[id].mode in s.engine.modes
          && s.engine.live[id].params == s.engine.modes[s.engine.live[id].mode])
    && (forall m | 0 <= m < SLOT_COUNT ::
          Count(s.engine.creates, m) == Count(s.engine.destroys, m) + (if s.slots[m].Some? then 1 else 0))
  }

  /** At process start every slot is NULL and the engine has made nothing. */
  function InitialState(modes: map<int, FrameParams>): RegistryState {
    RegistryState(seq(SLOT_COUNT, _ => None), EngineState(modes, map[], 0, map[], map[]))
  }

  /** `destroy_codec(mode)`: nothing on an empty slot; otherwise destroy the instance and clear the slot. */
  function CodecDestroyed(s: RegistryState, mode: int): RegistryState
    requires Inv(s) && 0 <= mode < SLOT_COUNT
  {
    match s.slots[mode]
    case None => s
    case Some(h) => RegistryState(s.slots[mode := None], Destroyed(s.engine, h))
  }

  /**
   * `init_codec(mode)`: store whatever `codec2_create` returns (NULL included)
   * and report whether it was non-NULL.
   */
  function CodecInitialized(s: RegistryState, mode: int, allocOk: bool): (RegistryState, bool)
    requires |s.slots| == SLOT_COUNT && 0 <= mode < SLOT_COUNT
  {
    var (e, h) := Created(s.engine, mode, allocOk);
    (RegistryState(s.slots[mode := h], e), h.Some?)
  }

  /** `codec2Initialize(mode)`: destroy a live instance of the mode, then `init_codec`. */
  function Initialized(s: RegistryState, mode: int, allocOk: bool): (RegistryState, bool)
    requires Inv(s) && 0 <= mode < SLOT_COUNT
  {
    CodecInitialized(if s.slots[mode].Some? then CodecDestroyed(s, mode) else s, mode, allocOk)
  }

  /** `codec2Release(mode)`: `destroy_codec(mode)`. */
  function Released(s: RegistryState, mode: int): RegistryState
    requires Inv(s) && 0 <= mode < SLOT_COUNT
  {
    CodecDestroyed(s, mode)
  }

  /** The slot of `mode` holds a live instance. */
  predicate HasLive(s: RegistryState, mode: int) {
    0 <= mode < |s.slots| && s.slots[mode].Some? && s.slots[mode].value.id in s.engine.live
  }

  /** The registry after the instance of `mode` has handled the frame calls `calls`. */
  function FramesRecorded(s: RegistryState, mode: int, calls: seq<Call>): RegistryState
    requires HasLive(s, mode)
  {
    s.(engine := Recorded(s.engine, s.slots[mode].value, calls))
  }

  /** The transcript of the live instance of `mode`. */
  function HistoryOf(s: RegistryState, mode: int): seq<Call>
    requires HasLive(s, mode)
  {
    s.engine.live[s.slots[mode].value.id].history
  }

  /** `bytes_per_enc_frame`'s `(nbits + 7) / 8`: the fewest whole bytes that hold `nbits` bits. */
  function BytesForBits(nbits: nat): (n: nat)
    ensures 8 * n >= nbits && 8 * n < nbits + 8
  {
    (nbits + 7) / 8
  }

  /** Frames of 64, 28 and 0 bits pack into 8, 4 and 0 bytes. */
  lemma BytesForBitsExamples()
    ensures BytesForBits(64) == 8 && BytesForBits(28) == 4 && BytesForBits(0) == 0
  {
  }

  /** The smallest byte count that holds the bits is unique, so `BytesForBits` is exactly the ceiling. */
  lemma BytesForBitsIsCeiling(nbits: nat, n: nat)
    requires 8 * n >= nbits && 8 * n < nbits + 8
    ensures n == BytesForBits(nbits)
  {
  }

  lemma InitialStateValid(modes: map<int, FrameParams>)
    ensures Inv(InitialState(modes))
    ensures forall m | 0 <= m < SLOT_COUNT :: InitialState(modes).slots[m] == None
  {
  }

  /**
   * Release on a live slot destroys its instance exactly once and empties the
   * slot; on an empty slot it changes nothing; other slots are untouched.
   */
  lemma {:induction false} ReleasedEffect(s: RegistryState, mode: int)
    requires Inv(s) && 0 <= mode < SLOT_COUNT
    ensures var t := Released(s, mode);
      Inv(t)
      && t.slots[mode] == None
      && (s.slots[mode] == None ==> t == s)
      && (s.slots[mode].Some? ==>
            s.slots[mode].value.id !in t.engine.live
            && Count(t.engine.destroys, mode) == Count(s.engine.destroys, mode) + 1)
      && t.engine.creates == s.engine.creates
      && (forall m | 0 <= m < SLOT_COUNT && m != mode :: t.slots[m] == s.slots[m])
      && (forall m | m != mode :: Count(t.engine.destroys, m) == Count(s.engine.destroys, m))
      && (forall id | id in t.engine.live :: id in s.engine.live && t.engine.live[id] == s.engine.live[id])
      && (forall id | id in s.engine.live && s.engine.live[id].mode != mode :: id in t.engine.live)
  {
    if s.slots[mode].Some? {
      var h := s.slots[mode].value;
      var t := Released(s, mode);
      assert t.slots == s.slots[mode := None];
      assert t.engine.live == s.engine.live - {h.id};
      forall id | id in t.engine.live
        ensures 0 <= t.engine.live[id].mode < SLOT_COUNT && t.slots[t.engine.live[id].mode] == Some(Handle(id))
      {
        assert id != h.id;
        assert t.engine.live[id] == s.engine.live[id];
        assert s.slots[s.engine.live[id].mode] == Some(Handle(id));
        assert s.engine.live[id].mode != mode;
      }
    }
  }

  /** Two releases in a row are one release. */
  lemma ReleaseIdempotent(s: RegistryState, mode: int)
    requires Inv(s) && 0 <= mode < SLOT_COUNT
    ensures Inv(Released(s, mode))
    ensures Released(Released(s, mode), mode) == Released(s, mode)
  {
    ReleasedEffect(s, mode);
    ReleasedEffect(Released(s, mode), mode);
  }

  /**
   * `init_codec` on an empty slot: success exactly when the engine created an
   * instance, which is then fresh, of this mode, and held in the slot; on
   * failure nothing changes. The invariant is kept and no other slot moves.
   */
  lemma {:induction false} CodecInitializedEffect(u: RegistryState, mode: int, allocOk: bool)
    requires Inv(u) && 0 <= mode < SLOT_COUNT && u.slots[mode] == None
    ensures var (t, ok) := CodecInitialized(u, mode, allocOk);
      Inv(t)
      && (ok <==> mode in u.engine.modes && allocOk)
      && (ok <==> t.slots[mode].Some?)
      && (ok ==> t.slots[mode].value.id !in u.engine.live
                 && t.engine.live[t.slots[mode].value.id] == Instance(mode, u.engine.modes[mode], []))
      && (!ok ==> t == u)
      && Count(t.engine.creates, mode) == Count(u.engine.creates, mode) + (if ok then 1 else 0)
      && (forall m | m != mode :: Count(t.engine.creates, m) == Count(u.engine.creates, m))
      && t.engine.destroys == u.engine.destroys
      && (forall id | id in u.engine.live :: id in t.engine.live && t.engine.live[id] == u.engine.live[id])
      && (forall m | 0 <= m < SLOT_COUNT && m != mode :: t.slots[m] == u.slots[m])
  {
    var (t, ok) := CodecInitialized(u, mode, allocOk);
    if ok {
      var id := u.engine.nextId;
      assert t.slots == u.slots[mode := Some(Handle(id))];
      assert t.engine.live == u.engine.live[id := Instance(mode, u.engine.modes[mode], [])];
      assert id !in u.engine.live;
      forall i | i in t.engine.live
        ensures 0 <= t.engine.live[i].mode < SLOT_COUNT && t.slots[t.engine.live[i].mode] == Some(Handle(i))
      {
        if i != id {
          assert t.engine.live[i] == u.engine.live[i];
          assert u.engine.live[i].mode != mode;
        }
      }
    } else {
      assert t.slots == u.slots;
    }
  }

  /**
   * Initialize reports success exactly when the engine created an instance, and
   * then the slot holds that new instance; on failure the slot is empty. A
   * previously live instance of the mode is destroyed whatever the outcome, and
   * no other slot changes.
   */
  lemma InitializedEffect(s: RegistryState, mode: int, allocOk: bool)
    requires Inv(s) && 0 <= mode < SLOT_COUNT
    ensures var (t, ok) := Initialized(s, mode, allocOk);
      Inv(t)
      && (ok <==> mode in s.engine.modes && allocOk)
      && (ok <==> t.slots[mode].Some?)
      && (ok ==> t.slots[mode].value.id !in s.engine.live
                 && t.engine.live[t.slots[mode].value.id] == Instance(mode, s.engine.modes[mode], []))
      && (s.slots[mode].Some? ==> s.slots[mode].value.id !in t.engine.live)
      && Count(t.engine.creates, mode) == Count(s.engine.creates, mode) + (if ok then 1 else 0)
      && Count(t.engine.destroys, mode) == Count(s.engine.destroys, mode) + (if s.slots[mode].Some? then 1 else 0)
      && (forall m | 0 <= m < SLOT_COUNT && m != mode :: t.slots[m] == s.slots[m])
  {
    var u := if s.slots[mode].Some? then CodecDestroyed(s, mode) else s;
    ReleasedEffect(s, mode);
    assert u == Released(s, mode);
    CodecInitializedEffect(u, mode, allocOk);
    var (t, ok) := CodecInitialized(u, mode, allocOk);
    if s.slots[mode].Some? {
      var h := s.slots[mode].value;
      assert h.id !in u.engine.live;
      if ok {
        assert h.id != t.slots[mode].value.id by {
          assert h.id < u.engine.nextId;
        }
      }
    }
  }

  /**
   * Initialize on `mode` leaves every other mode alone: its counters, and its
   * live instance with its transcript, are as they were.
   */
  lemma InitializedLeavesOthers(s: RegistryState, mode: int, allocOk: bool)
    requires Inv(s) && 0 <= mode < SLOT_COUNT
    ensures var (t, ok) := Initialized(s, mode, allocOk);
      (forall m | m != mode ::
         Count(t.engine.creates, m) == Count(s.engine.creates, m)
         && Count(t.engine.destroys, m) == Count(s.engine.destroys, m))
      && (forall id | id in s.engine.live && s.engine.live[id].mode != mode ::
            id in t.engine.live && t.engine.live[id] == s.engine.live[id])
  {
    ReleasedEffect(s, mode);
    var u := if s.slots[mode].Some? then CodecDestroyed(s, mode) else s;
    assert u == Released(s, mode);
    CodecInitializedEffect(u, mode, allocOk);
  }

  /** Frame calls change only the transcript of the mode's instance, and keep the invariant. */
  lemma FramesRecordedEffect(s: RegistryState, mode: int, calls: seq<Call>)
    requires Inv(s) && 0 <= mode < SLOT_COUNT && s.slots[mode].Some?
    ensures var t := FramesRecorded(s, mode, calls);
      Inv(t)
      && t.slots == s.slots
      && t.engine.live.Keys == s.engine.live.Keys
      && HistoryOf(t, mode) == HistoryOf(s, mode) + calls
      && (forall id | id in s.engine.live && id != s.slots[mode].value.id :: t.engine.live[id] == s.engine.live[id])
  {
  }

  /** No frame calls, no change. */
  lemma FramesRecordedNothing(s: RegistryState, mode: int)
    requires HasLive(s, mode)
    ensures FramesRecorded(s, mode, []) == s
  {
    var id := s.slots[mode].value.id;
    assert s.engine.live[id].history + [] == s.engine.live[id].history;
    assert s.engine.live[id := s.engine.live[id]] == s.engine.live;
  }

  /** Frame calls made one batch after another are the batches made together. */
  lemma FramesRecordedCompose(s: RegistryState, mode: int, a: seq<Call>, b: seq<Call>)
    requires HasLive(s, mode)
    ensures HasLive(FramesRecorded(s, mode, a), mode)
    ensures FramesRecorded(FramesRecorded(s, mode, a), mode, b) == FramesRecorded(s, mode, a + b)
  {
    var t := FramesRecorded(s, mode, a);
    var id := s.slots[mode].value.id;
    var inst := s.engine.live[id];
    assert t.slots == s.slots && t.engine.live[id] == inst.(history := inst.history + a);
    assert inst.history + a + b == inst.history + (a + b);
    var later := t.engine.live[id := inst.(history := inst.history + (a + b))];
    assert later == s.engine.live[id := inst.(history := inst.history + (a + b))];
    assert FramesRecorded(t, mode, b).engine.live == later;
  }

  /** The operations that write the table. */
  datatype LifecycleOp = InitializeOp(mode: int, allocOk: bool) | ReleaseOp(mode: int)

  predicate InRange(ops: seq<LifecycleOp>) {
    forall i | 0 <= i < |ops| :: 0 <= ops[i].mode < SLOT_COUNT
  }

  /** The registry after one lifecycle operation. */
  function Step(s: RegistryState, op: LifecycleOp): (t: RegistryState)
    requires Inv(s) && 0 <= op.mode < SLOT_COUNT
    ensures Inv(t)
  {
    match op
    case InitializeOp(m, allocOk) =>
      InitializedEffect(s, m, allocOk);
      Initialized(s, m, allocOk).0
    case ReleaseOp(m) =>
      ReleasedEffect(s, m);
      Released(s, m)
  }

  /** The registry after the operations `ops`, in order. */
  function Run(s: RegistryState, ops: seq<LifecycleOp>): (t: RegistryState)
    requires Inv(s) && InRange(ops)
    ensures Inv(t)
    decreases |ops|
  {
    if ops == [] then s
    else
      assert InRange(ops[1..]) by {
        forall i | 0 <= i < |ops[1..]| ensures 0 <= ops[1..][i].mode < SLOT_COUNT {
          assert ops[1..][i] == ops[i + 1];
        }
      }
      Run(Step(s, ops[0]), ops[1..])
  }

  /**
   * From process start, after any sequence of initializations and releases,
   * each mode has had at most one more creation than destructions: no
   * instance is ever leaked, and the surplus is one exactly when the slot is
   * occupied.
   */
  lemma NeverLeaks(modes: map<int, FrameParams>, ops: seq<LifecycleOp>, m: int)
    requires InRange(ops) && 0 <= m < SLOT_COUNT
    ensures Inv(InitialState(modes))
    ensures var t := Run(InitialState(modes), ops);
      Count(t.engine.destroys, m) <= Count(t.engine.creates, m) <= Count(t.engine.destroys, m) + 1
      && (Count(t.engine.creates, m) == Count(t.engine.destroys, m) + 1 <==> t.slots[m].Some?)
  {
    InitialStateValid(modes);
  }

  /**
   * The table itself: `codec_instances` and the engine it calls. Every slot is
   * `None` (NULL) or the handle of a live instance of its mode.
   */
  class Registry {
    const engine: CodecEngine
    const codecInstances: array<Option<Handle>>

    ghost function State(): RegistryState
      reads this, engine, codecInstances
    {
      RegistryState(codecInstances[..], engine.State())
    }

    /** The objects the table is made of. */
    ghost function Repr(): set<object>
      reads this
    {
      {this, engine, codecInstances}
    }

    ghost predicate Valid()
      reads this, engine, codecInstances
    {
      codecInstances.Length == SLOT_COUNT && Inv(State())
    }

    /** The table at process start, over an engine that knows the modes `modes`. */
    constructor (modes: map<int, FrameParams>)
      ensures Valid() && State() == InitialState(modes)
      ensures fresh(engine) && fresh(codecInstances)
    {
      engine := new CodecEngine(modes);
      codecInstances := new Option<Handle>[SLOT_COUNT](_ => None);
      new;
      assert codecInstances[..] == seq(SLOT_COUNT, _ => None);
      InitialStateValid(modes);
    }

    /** `samples_per_frame(mode)`: the engine's samples per frame for the mode, whichever instance holds it. */
    function SamplesPerFrame(mode: int): (n: nat)
      reads this, engine, codecInstances
      requires Valid() && 0 <= mode < SLOT_COUNT && codecInstances[mode].Some?
      ensures mode in engine.modes && n == engine.modes[mode].samplesPerFrame
    {
      assert State().slots[mode] == codecInstances[mode];
      engine.SamplesPerFrame(codecInstances[mode].value)
    }

    /** `bits_per_frame(mode)`: the engine's bits per frame for the mode. */
    function BitsPerFrame(mode: int): (n: nat)
      reads this, engine, codecInstances
      requires Valid() && 0 <= mode < SLOT_COUNT && codecInstances[mode].Some?
      ensures mode in engine.modes && n == engine.modes[mode].bitsPerFrame
    {
      assert State().slots[mode] == codecInstances[mode];
      engine.BitsPerFrame(codecInstances[mode].value)
    }

    /** `bytes_per_enc_frame(mode)`: the mode's bits per frame rounded up to whole bytes. */
    function BytesPerEncFrame(mode: int): (n: nat)
      reads this, engine, codecInstances
      requires Valid() && 0 <= mode < SLOT_COUNT && codecInstances[mode].Some?
      ensures mode in engine.modes && n == BytesForBits(engine.modes[mode].bitsPerFrame)
      ensures 8 * n >= engine.modes[mode].bitsPerFrame && 8 * n < engine.modes[mode].bitsPerFrame + 8
    {
      BytesForBits(BitsPerFrame(mode))
    }

    /** The transcript of the live instance of `mode`. */
    ghost function History(mode: int): seq<Call>
      reads this, engine, codecInstances
      requires Valid() && 0 <= mode < SLOT_COUNT && codecInstances[mode].Some?
    {
      assert State().slots[mode] == codecInstances[mode];
      HistoryOf(State(), mode)
    }

    /** `init_codec(mode)`; its only caller has emptied the slot first. */
    method InitCodec(mode: int, allocOk: bool) returns (ok: bool)
      requires Valid() && 0 <= mode < SLOT_COUNT && codecInstances[mode].None?
      modifies engine, codecInstances
      ensures Valid()
      ensures (State(), ok) == CodecInitialized(old(State()), mode, allocOk)
    {
      ghost var s := State();
      var h := engine.Create(mode, allocOk);
      codecInstances[mode] := h;
      assert State().slots == s.slots[mode := h];
      CodecInitializedEffect(s, mode, allocOk);
      if h.None? {
        return false;
      }
      return true;
    }

    /** `destroy_codec(mode)`. */
    method DestroyCodec(mode: int)
      requires Valid() && 0 <= mode < SLOT_COUNT
      modifies engine, codecInstances
      ensures Valid()
      ensures State() == CodecDestroyed(old(State()), mode)
    {
      ghost var s := State();
      assert s.slots[mode] == codecInstances[mode];
      ReleasedEffect(s, mode);
      if codecInstances[mode].None? {
        return;
      }
      engine.Destroy(codecInstances[mode].value);
      codecInstances[mode] := None;
      assert State().slots == s.slots[mode := None];
    }

    /** `codec2Initialize(mode)`: false when the engine could not create an instance. */
    method Initialize(mode: int, allocOk: bool) returns (ok: bool)
      requires Valid() && 0 <= mode < SLOT_COUNT
      modifies engine, codecInstances
      ensures Valid()
      ensures (State(), ok) == Initialized(old(State()), mode, allocOk)
    {
      ghost var s := State();
      assert s.slots[mode] == codecInstances[mode];
      if codecInstances[mode].Some? {
        DestroyCodec(mode);
      }
      ok := InitCodec(mode, allocOk);
    }

    /** `codec2Release(mode)`. */
    method Release(mode: int)
      requires Valid() && 0 <= mode < SLOT_COUNT
      modifies engine, codecInstances
      ensures Valid()
      ensures State() == Released(old(State()), mode)
    {
      DestroyCodec(mode);
    }

    /** `codec2GetFrameLengthBytes(mode)`: the byte length of every encoded frame of the mode. */
    method GetFrameLengthBytes(mode: int) returns (n: int)
      requires Valid() && 0 <= mode < SLOT_COUNT && codecInstances[mode].Some?
      ensures mode in engine.modes
      ensures 8 * n >= engine.modes[mode].bitsPerFrame && 8 * n < engine.modes[mode].bitsPerFrame + 8
    {
      n := BytesPerEncFrame(mode);
    }

    /** `codec2GetFrameLengthSamples(mode)`: the number of 16-bit samples in a frame of the mode. */
    method GetFrameLengthSamples(mode: int) returns (n: int)
      requires Valid() && 0 <= mode < SLOT_COUNT && codecInstances[mode].Some?
      ensures mode in engine.modes && n == engine.modes[mode].samplesPerFrame
    {
      n := SamplesPerFrame(mode);
    }

    /**
     * `codec2EncodeFrame(mode, samples)`: the length check is `len / 2 ==
     * samples_per_frame`, so one extra odd byte passes and is not read. The
     * result is a fresh buffer of exactly `bytes_per_enc_frame(mode)` bytes, and
     * the instance has recorded the frame it read and the bytes it wrote.
     */
    method EncodeFrame(mode: int, samples: seq<bv8>) returns (bits: array<bv8>)
      requires Valid() && 0 <= mode < SLOT_COUNT && codecInstances[mode].Some?
      requires |samples| / 2 == SamplesPerFrame(mode)
      modifies engine
      ensures Valid() && fresh(bits)
      ensures bits.Length == BytesForBits(engine.modes[mode].bitsPerFrame)
      ensures State() == FramesRecorded(old(State()), mode,
                [Encoded(samples[..2 * engine.modes[mode].samplesPerFrame], bits[..])])
    {
      ghost var s := State();
      assert s.slots[mode] == codecInstances[mode];
      var nbytes := BytesPerEncFrame(mode);
      bits := new bv8[nbytes];
      engine.Encode(codecInstances[mode].value, bits, samples);
      FramesRecordedEffect(s, mode, [Encoded(samples[..2 * SamplesPerFrame(mode)], bits[..])]);
    }

    /**
     * `codec2DecodeFrame(mode, bits)`: the input must be exactly
     * `bytes_per_enc_frame(mode)` bytes; the result is a fresh buffer of
     * `2 * samples_per_frame(mode)` bytes, and the instance has recorded the
     * frame it read and the samples it wrote.
     */
    method DecodeFrame(mode: int, bits: seq<bv8>) returns (speech: array<bv8>)
      requires Valid() && 0 <= mode < SLOT_COUNT && codecInstances[mode].Some?
      requires |bits| == BytesPerEncFrame(mode)
      modifies engine
      ensures Valid() && fresh(speech)
      ensures speech.Length == 2 * engine.modes[mode].samplesPerFrame
      ensures State() == FramesRecorded(old(State()), mode, [Decoded(bits, speech[..])])
    {
      ghost var s := State();
      assert s.slots[mode] == codecInstances[mode];
      var nsamps := SamplesPerFrame(mode);
      speech := new bv8[nsamps * 2];
      engine.Decode(codecInstances[mode].value, speech, bits);
      FramesRecordedEffect(s, mode, [Decoded(bits, speech[..])]);
    }
  }
}
