/** The audio mixer of a conference (confbridge_mix.rs): bounded queues of decoded samples,
    one frame of each per tick into the mixing core, and one encoded frame back per leg. */
module Mixer {
  import opened Common
  import opened G711
  import opened Softmix

  const SAMPLES_PER_TICK: nat := 160
  const MAX_QUEUE_SAMPLES: nat := 1600

  datatype Codec = Ulaw | Alaw

  function FromCodecId(id: nat): Option<Codec> {
    if id == 0 then Some(Ulaw) else if id == 8 then Some(Alaw) else None
  }

  function CodecId(codec: Codec): nat { if codec.Ulaw? then 0 else 8 }

  function Decode(codec: Codec, b: Byte): Sample {
    if codec.Ulaw? then MulawToLinear(b) else AlawToLinear(b)
  }

  function Encode(codec: Codec, x: Sample): Byte {
    if codec.Ulaw? then LinearToMulawFast(x) else AlawCode(x)
  }

  datatype Part = Part(queue: seq<Sample>, codec: Option<Codec>, muted: bool, deaf: bool)

  type Parts = map<Name, Part>

  /** A snapshot of the conference: for each channel, whether it is muted and deaf. */
  type Flags = map<Name, (bool, bool)>

  /** A voice frame: RTP payload type and G.711 bytes. */
  datatype Frame = Frame(codecId: nat, payload: seq<Byte>)

  // ----- Specification -----

  function Last<T>(s: seq<T>, n: nat): seq<T> {
    if |s| <= n then s else s[|s| - n..]
  }

  function DecodeAll(codec: Codec, payload: seq<Byte>): (samples: seq<Sample>)
    ensures |samples| == |payload| && forall i :: 0 <= i < |payload| ==> samples[i] == Decode(codec, payload[i])
  {
    seq(|payload|, i requires 0 <= i < |payload| => Decode(codec, payload[i]))
  }

  /** `ingest`: the newest samples are kept, and the codec is taken from the first frame that
      can be mixed if it was not negotiated. */
  function Ingested(part: Part, codecId: nat, payload: seq<Byte>): Part {
    match FromCodecId(codecId)
    case None => part
    case Some(codec) =>
      part.(queue := Last(part.queue + DecodeAll(codec, payload), MAX_QUEUE_SAMPLES),
            codec := if part.codec.None? then Some(codec) else part.codec)
  }

  /** The flags refreshed from a snapshot, and the legs missing from it gone. */
  function Synced(parts: Parts, flags: Option<Flags>): Parts {
    match flags
    case None => parts
    case Some(f) => map n | n in parts && n in f :: parts[n].(muted := f[n].0, deaf := f[n].1)
  }

  predicate Talks(part: Part) { !part.muted && |part.queue| >= SAMPLES_PER_TICK }

  /** What a tick leaves in the queue of a leg. */
  function Drained(part: Part): Part {
    if part.muted then part.(queue := [])
    else if Talks(part) then part.(queue := part.queue[SAMPLES_PER_TICK..])
    else part
  }

  const IDLE: ChannelData := ChannelData(Silence(SAMPLES_PER_TICK), false)

  /** What a leg contributes to a tick. */
  function Loaded(part: Part): ChannelData {
    if Talks(part) then ChannelData(part.queue[..SAMPLES_PER_TICK], true) else IDLE
  }

  function Idle(parts: Parts): Buffers { map n | n in parts :: IDLE }

  function LoadedAll(parts: Parts): Buffers { map n | n in parts :: Loaded(parts[n]) }

  function DrainedAll(parts: Parts): Parts { map n | n in parts :: Drained(parts[n]) }

  /** The sample a leg hears. */
  ghost function Heard(parts: Parts, n: Name, i: nat): Sample
    requires n in parts
  {
    if parts[n].deaf then 0 else Clamp(Wrap(SumOfOthers(LoadedAll(parts), n, i)))
  }

  /** The frame a tick writes to a leg: what it hears, in its own codec. */
  ghost predicate IsFrameFor(parts: Parts, n: Name, frame: Frame) {
    && n in parts && parts[n].codec.Some?
    && frame.codecId == CodecId(parts[n].codec.value)
    && |frame.payload| == SAMPLES_PER_TICK
    && forall i :: 0 <= i < SAMPLES_PER_TICK ==> frame.payload[i] == Encode(parts[n].codec.value, Heard(parts, n, i))
  }

  function WithCodec(parts: Parts): set<Name> { set n | n in parts && parts[n].codec.Some? }

  // ----- Implementation -----

  method EncodeSample(codec: Codec, x: Sample) returns (b: Byte)
    ensures b == Encode(codec, x)
  {
    if codec.Ulaw? {
      b := LinearToMulawFast(x);
    } else {
      b := LinearToAlawFast(x);
    }
  }

  /** Decodes a payload into a queue and drops the oldest samples on overflow. */
  method Enqueue(before: seq<Sample>, codec: Codec, payload: seq<Byte>) returns (queue: seq<Sample>)
    ensures queue == Last(before + DecodeAll(codec, payload), MAX_QUEUE_SAMPLES)
  {
    hide Decode;
    ghost var samples := DecodeAll(codec, payload);
    queue := before;
    for i := 0 to |payload|
      invariant queue == before + samples[..i]
    {
      queue := queue + [Decode(codec, payload[i])];
    }
    assert samples[..|payload|] == samples;
    ghost var all := queue;
    while |queue| > MAX_QUEUE_SAMPLES
      invariant |queue| <= |all| && queue == all[|all| - |queue|..]
      invariant |queue| >= MAX_QUEUE_SAMPLES || queue == all
    {
      queue := queue[1..];
    }
  }

  /** Pops one frame from the front of a queue into a buffer. */
  method TakeFrame(queue: seq<Sample>, buf: seq<Sample>) returns (rest: seq<Sample>, filled: seq<Sample>)
    requires |queue| >= SAMPLES_PER_TICK == |buf|
    ensures rest == queue[SAMPLES_PER_TICK..] && filled == queue[..SAMPLES_PER_TICK]
  {
    rest, filled := queue, buf;
    for i := 0 to SAMPLES_PER_TICK
      invariant rest == queue[i..] && |filled| == SAMPLES_PER_TICK && filled[..i] == queue[..i]
    {
      filled := filled[i := rest[0]];
      rest := rest[1..];
    }
    assert filled == filled[..SAMPLES_PER_TICK];
  }

  class ConferenceMixer {
    const softmix: SoftmixData
    var parts: Parts
    var running: bool

    /** Between ticks every leg has an empty contribution buffer, and nobody else has one. */
    ghost predicate Valid()
      reads this, softmix
    {
      && softmix.numSamples == SAMPLES_PER_TICK
      && softmix.channelBuffers == Idle(parts)
      && softmix.outputFrames.Keys <= parts.Keys
    }

    constructor ()
      ensures Valid() && fresh(softmix) && parts == map[] && running
    {
      softmix := new SoftmixData(SAMPLES_PER_TICK);
      parts := map[];
      running := true;
    }

    method Remove(name: Name)
      requires Valid()
      modifies this`parts, softmix
      ensures Valid() && parts == old(parts) - {name}
    {
      parts := parts - {name};
      softmix.channelBuffers := softmix.channelBuffers - {name};
      softmix.outputFrames := softmix.outputFrames - {name};
    }

    /** A leg joins; joining again under the same name starts it afresh. */
    method AddParticipant(name: Name, negotiated: Option<nat>)
      requires Valid()
      modifies this`parts, softmix
      ensures Valid()
      ensures parts == old(parts)[name := Part([], if negotiated.Some? then FromCodecId(negotiated.value) else None,
                                               false, false)]
    {
      var codec := if negotiated.Some? then FromCodecId(negotiated.value) else None;
      Remove(name);
      softmix.channelBuffers := softmix.channelBuffers[name := ChannelData(Silence(SAMPLES_PER_TICK), false)];
      parts := parts[name := Part([], codec, false, false)];
    }

    method SetParticipantFlags(name: Name, muted: bool, deaf: bool)
      requires Valid()
      modifies this`parts
      ensures Valid()
      ensures parts == if name in old(parts) then old(parts)[name := old(parts)[name].(muted := muted, deaf := deaf)]
                       else old(parts)
    {
      if name in parts {
        parts := parts[name := parts[name].(muted := muted, deaf := deaf)];
      }
    }

    /** Everything goes, and every leg's buffers with it. */
    method Shutdown()
      requires Valid()
      modifies this, softmix
      ensures Valid() && !running && parts == map[] && softmix.outputFrames == map[]
    {
      running := false;
      var names := parts.Keys;
      while names != {}
        invariant Valid() && names == parts.Keys && !running
        decreases |names|
      {
        var name :| name in names;
        Remove(name);
        names := names - {name};
      }
    }

    method Ingest(name: Name, codecId: nat, payload: seq<Byte>)
      requires Valid()
      modifies this`parts
      ensures Valid()
      ensures parts == if name in old(parts) then old(parts)[name := Ingested(old(parts)[name], codecId, payload)]
                       else old(parts)
    {
      hide Encode, Decode, DecodeAll;
      if name !in parts {
        return;
      }
      var part := parts[name];
      var maybe := FromCodecId(codecId);
      if maybe.None? {
        return;
      }
      var frameCodec := maybe.value;
      var codec := if part.codec.None? then Some(frameCodec) else part.codec;
      var queue := Enqueue(part.queue, frameCodec, payload);
      parts := parts[name := part.(queue := queue, codec := codec)];
    }

    /** Drops the legs a snapshot does not have. */
    method DropStale(flags: Flags)
      requires Valid()
      modifies this`parts, softmix
      ensures Valid() && parts == map n | n in old(parts) && n in flags :: old(parts)[n]
    {
      var stale := set n | n in parts && n !in flags;
      ghost var before, all := parts, stale;
      while stale != {}
        invariant Valid() && stale <= all && parts == before - (all - stale)
        decreases |stale|
      {
        hide Valid;
        var name :| name in stale;
        Remove(name);
        assert before - (all - stale) - {name} == before - (all - (stale - {name}));
        stale := stale - {name};
      }
      assert all - stale == all;
    }

    /** Refreshes the flags of the legs a snapshot has. */
    method Refresh(flags: Flags)
      requires Valid() && parts.Keys <= flags.Keys
      modifies this`parts
      ensures Valid() && parts == Synced(old(parts), Some(flags))
    {
      ghost var before := parts;
      var todo := flags.Keys;
      while todo != {}
        invariant Valid() && parts.Keys == before.Keys && todo <= flags.Keys
        invariant forall n :: n in parts ==>
                    parts[n] == if n in todo then before[n] else before[n].(muted := flags[n].0, deaf := flags[n].1)
        decreases |todo|
      {
        hide Idle;
        var name :| name in todo;
        SetParticipantFlags(name, flags[name].0, flags[name].1);
        todo := todo - {name};
      }
    }

    method Sync(flags: Flags)
      requires Valid()
      modifies this`parts, softmix
      ensures Valid() && parts == Synced(old(parts), Some(flags))
    {
      DropStale(flags);
      Refresh(flags);
    }

    method LoadOne(name: Name)
      requires name in parts && name in softmix.channelBuffers && softmix.channelBuffers[name] == IDLE
      modifies this`parts, softmix`channelBuffers
      ensures parts == old(parts)[name := Drained(old(parts)[name])]
      ensures softmix.channelBuffers == old(softmix.channelBuffers)[name := Loaded(old(parts)[name])]
    {
      var part, data := parts[name], softmix.channelBuffers[name];
      if part.muted {
        parts := parts[name := part.(queue := [])];
      } else if |part.queue| >= SAMPLES_PER_TICK {
        var rest, filled := TakeFrame(part.queue, data.buf);
        parts := parts[name := part.(queue := rest)];
        softmix.channelBuffers := softmix.channelBuffers[name := ChannelData(filled, true)];
      }
    }

    /** One frame of contribution from every leg that talks. */
    method Load()
      requires Valid()
      modifies this`parts, softmix`channelBuffers
      ensures parts == DrainedAll(old(parts)) && softmix.channelBuffers == LoadedAll(old(parts))
    {
      hide Drained, Loaded;
      var todo := parts.Keys;
      ghost var before := parts;
      LoadStarts(before);
      while todo != {}
        invariant todo <= before.Keys
        invariant parts == PartlyDrained(before, todo) && softmix.channelBuffers == PartlyLoaded(before, todo)
        decreases |todo|
      {
        hide Valid;
        var name :| name in todo;
        LoadGoesOn(before, todo, name);
        hide PartlyDrained, PartlyLoaded;
        LoadOne(name);
        todo := todo - {name};
      }
    }

    /** The payload of one leg's frame. */
    method EncodeLeg(codec: Codec, samples: seq<Sample>) returns (payload: seq<Byte>)
      ensures |payload| == |samples| && forall i :: 0 <= i < |samples| ==> payload[i] == Encode(codec, samples[i])
    {
      hide Encode;
      payload := [];
      for i := 0 to |samples|
        invariant |payload| == i && forall j :: 0 <= j < i ==> payload[j] == Encode(codec, samples[j])
      {
        var b := EncodeSample(codec, samples[i]);
        payload := payload + [b];
      }
    }

    /** One frame for one leg, from the mixed samples. */
    method FrameOf(name: Name, codec: Codec, ghost mixed: Parts) returns (frame: Frame)
      requires name in parts && parts[name].codec == Some(codec)
      requires name in mixed && parts[name].codec == mixed[name].codec && parts[name].deaf == mixed[name].deaf
      requires name in softmix.outputFrames
      requires IsMixFor(LoadedAll(mixed), SAMPLES_PER_TICK, name, softmix.outputFrames[name])
      ensures IsFrameFor(mixed, name, frame)
    {
      hide Encode, LoadedAll, SumOfOthers, Clamp, Wrap;
      var samples := if !parts[name].deaf && name in softmix.outputFrames then softmix.outputFrames[name]
                     else Silence(SAMPLES_PER_TICK);
      var payload := EncodeLeg(codec, samples);
      frame := Frame(CodecId(codec), payload);
    }

    /** One frame for every leg whose codec is known. */
    method EncodeFrames(ghost mixed: Parts) returns (frames: map<Name, Frame>)
      requires parts == DrainedAll(mixed)
      requires mixed != map[] ==> softmix.outputFrames.Keys == mixed.Keys
      requires mixed != map[] ==>
                 forall n :: n in softmix.outputFrames ==>
                   IsMixFor(LoadedAll(mixed), SAMPLES_PER_TICK, n, softmix.outputFrames[n])
      ensures frames.Keys == WithCodec(mixed)
      ensures forall n :: n in frames ==> IsFrameFor(mixed, n, frames[n])
    {
      DrainedKeeps(mixed);
      hide IsFrameFor, IsMixFor, DrainedAll, LoadedAll, WithCodec;
      frames := map[];
      var todo := parts.Keys;
      CodecKnown(mixed);
      while todo != {}
        invariant todo <= mixed.Keys && frames.Keys == WithCodec(mixed) - todo
        invariant forall n :: n in frames ==> IsFrameFor(mixed, n, frames[n])
        decreases |todo|
      {
        var name :| name in todo;
        if parts[name].codec.Some? {
          var frame := FrameOf(name, parts[name].codec.value, mixed);
          frames := frames[name := frame];
        }
        todo := todo - {name};
      }
    }

    /** One tick of the mixer. What is mixed are the legs after the snapshot is applied; each
        gets its frame if its codec is known. */
    method MixTick(flags: Option<Flags>) returns (frames: map<Name, Frame>)
      requires Valid()
      modifies this`parts, softmix
      ensures Valid() && parts == DrainedAll(Synced(old(parts), flags))
      ensures frames.Keys == WithCodec(Synced(old(parts), flags))
      ensures forall n :: n in frames ==> IsFrameFor(Synced(old(parts), flags), n, frames[n])
    {
      hide IsFrameFor, IsMixFor, Drained, Loaded, WithCodec;
      if flags.Some? {
        Sync(flags.value);
      }
      ghost var mixed := parts;
      assert mixed == Synced(old(parts), flags);
      Load();
      assert mixed == map[] <==> softmix.channelBuffers == map[] by {
        assert softmix.channelBuffers.Keys == mixed.Keys;
      }
      softmix.Mix();
      ClearedIsIdle(mixed);
      frames := EncodeFrames(mixed);
    }
  }

  /** The legs and the buffers while some legs are still to be loaded. */
  ghost function PartlyDrained(parts: Parts, todo: set<Name>): Parts {
    map n | n in parts :: if n in todo then parts[n] else Drained(parts[n])
  }

  ghost function PartlyLoaded(parts: Parts, todo: set<Name>): Buffers {
    map n | n in parts :: if n in todo then IDLE else Loaded(parts[n])
  }

  lemma LoadStarts(parts: Parts)
    ensures PartlyDrained(parts, parts.Keys) == parts && PartlyLoaded(parts, parts.Keys) == Idle(parts)
    ensures PartlyDrained(parts, {}) == DrainedAll(parts) && PartlyLoaded(parts, {}) == LoadedAll(parts)
  {
    hide Drained, Loaded;
  }

  lemma LoadGoesOn(parts: Parts, todo: set<Name>, n: Name)
    requires n in todo && n in parts
    ensures n in PartlyDrained(parts, todo) && PartlyDrained(parts, todo)[n] == parts[n]
    ensures n in PartlyLoaded(parts, todo) && PartlyLoaded(parts, todo)[n] == IDLE
    ensures PartlyDrained(parts, todo)[n := Drained(parts[n])] == PartlyDrained(parts, todo - {n})
    ensures PartlyLoaded(parts, todo)[n := Loaded(parts[n])] == PartlyLoaded(parts, todo - {n})
  {
    hide Drained, Loaded;
  }

  lemma ClearedIsIdle(parts: Parts)
    ensures (map n | n in LoadedAll(parts) :: Cleared(LoadedAll(parts)[n])) == Idle(DrainedAll(parts))
  {
    forall n | n in parts
      ensures Cleared(Loaded(parts[n])) == IDLE
    {
      assert |Loaded(parts[n]).buf| == SAMPLES_PER_TICK;
    }
  }

  lemma CodecKnown(parts: Parts)
    ensures WithCodec(parts) - parts.Keys == {}
    ensures forall n :: n in WithCodec(parts) <==> n in parts && parts[n].codec.Some?
  {
  }

  lemma DrainedKeeps(parts: Parts)
    ensures DrainedAll(parts).Keys == parts.Keys
    ensures forall n :: n in parts ==>
              DrainedAll(parts)[n].codec == parts[n].codec && DrainedAll(parts)[n].deaf == parts[n].deaf
  {
  }
}
