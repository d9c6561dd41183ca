/** What legs hear of each other in one tick of the mixer, what becomes of every sample over
    any run of it, and what a conference that waits for a marked user sounds like. */
module MixerRuns {
  import opened Common
  import opened G711
  import opened Softmix
  import opened Mixer
  import Conference
  import ConferenceRuns

  // ----- One tick -----

  /** Two sets of legs that sound the same to leg `n`. */
  ghost predicate SameForLeg(a: Parts, b: Parts, n: Name) {
    && n in a && n in b && a[n].codec == b[n].codec && a[n].deaf == b[n].deaf
    && forall i: nat :: SumOfOthers(LoadedAll(a), n, i) == SumOfOthers(LoadedAll(b), n, i)
  }

  lemma SameFrames(a: Parts, b: Parts, n: Name, frame: Frame)
    requires SameForLeg(a, b, n)
    ensures IsFrameFor(a, n, frame) <==> IsFrameFor(b, n, frame)
  {
    hide Encode, SumOfOthers, LoadedAll, Wrap, Clamp;
    forall i: nat
      ensures Heard(a, n, i) == Heard(b, n, i)
    {
    }
  }

  /** Nothing a leg says, and whether it is muted, changes its own frame: no echo. */
  lemma {:induction false} OwnVoiceUnheard(parts: Parts, n: Name, queue: seq<Sample>, muted: bool, frame: Frame)
    requires n in parts
    ensures IsFrameFor(parts, n, frame) <==>
            IsFrameFor(parts[n := parts[n].(queue := queue, muted := muted)], n, frame)
  {
    var other := parts[n := parts[n].(queue := queue, muted := muted)];
    forall i: nat
      ensures SumOfOthers(LoadedAll(parts), n, i) == SumOfOthers(LoadedAll(other), n, i)
    {
      assert LoadedAll(parts).Keys == LoadedAll(other).Keys;
      SumDepends(LoadedAll(parts), LoadedAll(other), LoadedAll(parts).Keys - {n}, i);
    }
    SameFrames(parts, other, n, frame);
  }

  /** A leg that is muted, or has less than a frame queued, sounds to every other leg as if
      it were not there. */
  lemma {:induction false} QuietUnheard(parts: Parts, m: Name, n: Name, frame: Frame)
    requires m in parts && n in parts && m != n && !Talks(parts[m])
    ensures IsFrameFor(parts, n, frame) <==> IsFrameFor(parts - {m}, n, frame)
  {
    var others := parts - {m};
    forall i: nat
      ensures SumOfOthers(LoadedAll(parts), n, i) == SumOfOthers(LoadedAll(others), n, i)
    {
      var loaded, rest := LoadedAll(parts), LoadedAll(others);
      SumSplit(loaded, loaded.Keys - {n}, m, i);
      assert loaded.Keys - {n} - {m} == rest.Keys - {n};
      SumDepends(loaded, rest, rest.Keys - {n}, i);
    }
    SameFrames(parts, others, n, frame);
  }

  /** A deaf leg gets silence, whatever anybody says. */
  lemma {:induction false} DeafHearsSilence(parts: Parts, n: Name, frame: Frame)
    requires IsFrameFor(parts, n, frame) && parts[n].deaf
    ensures frame == Frame(CodecId(parts[n].codec.value), frame.payload) && |frame.payload| == SAMPLES_PER_TICK
    ensures forall i :: 0 <= i < SAMPLES_PER_TICK ==> frame.payload[i] == SilentByte(parts[n].codec.value)
  {
    SilenceIsEncoded(parts[n].codec.value);
    hide Encode;
  }

  /** What silence is in each codec: 0xFF in mu-law, 0xD5 in A-law. */
  function SilentByte(codec: Codec): Byte { if codec == Ulaw then 0xFF else 0xD5 }

  lemma {:induction false} SilenceIsEncoded(codec: Codec)
    ensures Encode(codec, 0) == SilentByte(codec)
  {
    MulawSilence();
    AlawSilence();
    hide LinearToMulawFast, AlawCode;
  }

  /** Whether a leg is deaf is its own affair. */
  lemma {:induction false} DeafnessIsPrivate(parts: Parts, m: Name, deaf: bool, n: Name, frame: Frame)
    requires m in parts && n in parts && m != n
    ensures IsFrameFor(parts, n, frame) <==> IsFrameFor(parts[m := parts[m].(deaf := deaf)], n, frame)
  {
    var other := parts[m := parts[m].(deaf := deaf)];
    forall i: nat
      ensures SumOfOthers(LoadedAll(parts), n, i) == SumOfOthers(LoadedAll(other), n, i)
    {
      assert LoadedAll(parts) == LoadedAll(other);
    }
    SameFrames(parts, other, n, frame);
  }

  /** A leg that has left the conference, whichever way, has no part in the next tick. */
  lemma {:induction false} GoneUnheard(parts: Parts, m: Name, flags: Flags)
    requires m !in flags
    ensures Synced(parts, Some(flags)) == Synced(parts - {m}, Some(flags)) && m !in Synced(parts, Some(flags))
  {
  }

  /** Only legs that are neither muted in the snapshot nor short of samples are heard. */
  lemma {:induction false} OnlyTalkersHeard(parts: Parts, n: Name, i: nat)
    requires n in parts && (forall m :: m in parts && m != n ==> !Talks(parts[m]))
    ensures SumOfOthers(LoadedAll(parts), n, i) == 0
  {
    NothingSums(LoadedAll(parts), LoadedAll(parts).Keys - {n}, i);
  }

  lemma {:induction false} NothingSums(buffers: Buffers, names: set<Name>, i: nat)
    requires names <= buffers.Keys && forall n :: n in names ==> Contribution(buffers[n], i) == 0
    ensures Sum(buffers, names, i) == 0
    decreases |names|
  {
    if names != {} {
      var n :| n in names;
      SumSplit(buffers, names, n, i);
      NothingSums(buffers, names - {n}, i);
    }
  }

  /** What a leg hears is exactly the sum of the others when, and only when, that sum is a
      16-bit sample, however the 32-bit total came about; and up to 65537 legs it is always
      that sum, clamped. */
  lemma {:induction false} HeardExactly(parts: Parts, n: Name, i: nat)
    requires n in parts && !parts[n].deaf
    ensures Heard(parts, n, i) == SumOfOthers(LoadedAll(parts), n, i) <==>
            -32768 <= SumOfOthers(LoadedAll(parts), n, i) <= 32767
    ensures |parts| <= 65537 ==> Heard(parts, n, i) == Clamp(SumOfOthers(LoadedAll(parts), n, i))
  {
    if |parts| <= 65537 {
      var loaded := LoadedAll(parts);
      assert loaded.Keys == parts.Keys && |parts| == |parts.Keys|;
      NoWrap(loaded, loaded.Keys - {n}, i);
    }
  }

  /** The byte the codec gives back for a byte. */
  function Canonical(codec: Codec, b: Byte): Byte {
    if codec.Ulaw? && b == 127 then 255 else b
  }

  lemma {:induction false} CodecRoundTrip(codec: Codec, b: Byte)
    ensures Encode(codec, Decode(codec, b)) == Canonical(codec, b)
  {
    if codec.Ulaw? {
      MulawRoundTrip(b);
    } else {
      AlawRoundTrip(b);
    }
  }

  /** A conference of two with one codec is transparent: a full frame that one leg sends,
      with nothing queued before it, reaches the other byte for byte, but for mu-law's
      second zero. */
  lemma {:induction false} TwoPartyIsTransparent(parts: Parts, a: Name, b: Name, codec: Codec, payload: seq<Byte>,
                                                 frame: Frame)
    requires a != b && parts.Keys == {a, b} && |payload| == SAMPLES_PER_TICK
    requires parts[a].codec == Some(codec) && !parts[a].deaf && !parts[b].muted && parts[b].queue == []
    requires IsFrameFor(parts[b := Ingested(parts[b], CodecId(codec), payload)], a, frame)
    ensures frame.codecId == CodecId(codec) && |frame.payload| == |payload|
    ensures forall i :: 0 <= i < |payload| ==> frame.payload[i] == Canonical(codec, payload[i])
  {
    hide Encode, Decode, Wrap, Clamp, Sum;
    var after := parts[b := Ingested(parts[b], CodecId(codec), payload)];
    var samples := DecodeAll(codec, payload);
    assert [] + samples == samples && samples[..SAMPLES_PER_TICK] == samples;
    assert after[b].queue == samples && Talks(after[b]);
    forall i | 0 <= i < |payload|
      ensures frame.payload[i] == Canonical(codec, payload[i])
    {
      var loaded := LoadedAll(after);
      assert loaded.Keys - {a} == {b};
      OneVoice(loaded, b, i);
      assert Contribution(loaded[b], i) == Decode(codec, payload[i]);
      CodecRoundTrip(codec, payload[i]);
    }
  }

  lemma {:induction false} OneVoice(buffers: Buffers, b: Name, i: nat)
    requires b in buffers
    ensures Clamp(Wrap(Sum(buffers, {b}, i))) == Contribution(buffers[b], i)
  {
    SumSplit(buffers, {b}, b, i);
    assert {b} - {b} == {};
  }

  // ----- What a conference snapshot does to the legs -----

  predicate Hushed(m: Conference.Member) { m.muted || m.waiting }

  predicate Speaking(m: Conference.Member) { !m.muted && !m.waiting }

  predicate Deaf(m: Conference.Member) { m.deaf }

  predicate Hearing(m: Conference.Member) { !m.deaf }

  /** Every member with a leg's name, if any, has a property. */
  ghost predicate AllNamed(c: Conference.Conf, n: Name, p: Conference.Member -> bool) {
    forall k :: k in c.members && c.members[k].name == n ==> p(c.members[k])
  }

  ghost predicate SomeNamed(c: Conference.Conf, n: Name) {
    exists k :: k in c.members && c.members[k].name == n
  }

  /** A leg stays, with its queue and its codec, exactly if some member has its name, and takes
      that member's flags: it is muted if the member is muted or waiting, and deaf if the
      member is. */
  lemma {:induction false} SnapshotDecides(c: Conference.Conf, flags: Flags, parts: Parts, n: Name)
    requires Conference.FlagsOf(c, flags)
    ensures n in Synced(parts, Some(flags)) <==> n in parts && SomeNamed(c, n)
    ensures n in Synced(parts, Some(flags)) ==>
              var part := Synced(parts, Some(flags))[n];
              && part.queue == parts[n].queue && part.codec == parts[n].codec
              && (AllNamed(c, n, Hushed) ==> part.muted)
              && (AllNamed(c, n, Speaking) ==> !part.muted)
              && (AllNamed(c, n, Deaf) ==> part.deaf) && (AllNamed(c, n, Hearing) ==> !part.deaf)
  {
    if n in Synced(parts, Some(flags)) {
      var k :| k in c.members && c.members[k].name == n
        && flags[n] == (c.members[k].muted || c.members[k].waiting, c.members[k].deaf);
    }
  }

  /** A member who is deaf in the snapshot gets silence. */
  lemma {:induction false} DeafMemberHearsSilence(c: Conference.Conf, flags: Flags, parts: Parts, n: Name, frame: Frame)
    requires Conference.FlagsOf(c, flags) && AllNamed(c, n, Deaf)
    requires IsFrameFor(Synced(parts, Some(flags)), n, frame)
    ensures forall i :: 0 <= i < SAMPLES_PER_TICK ==> frame.payload[i] == SilentByte(parts[n].codec.value)
  {
    SnapshotDecides(c, flags, parts, n);
    DeafHearsSilence(Synced(parts, Some(flags)), n, frame);
  }

  /** A member who is muted or waiting in the snapshot is heard by nobody; one who is neither
      is heard exactly if a frame is queued. */
  lemma {:induction false} MutedMemberUnheard(c: Conference.Conf, flags: Flags, parts: Parts, m: Name, n: Name,
                                              frame: Frame)
    requires Conference.FlagsOf(c, flags) && m != n
    requires m in Synced(parts, Some(flags)) && n in Synced(parts, Some(flags))
    ensures var synced := Synced(parts, Some(flags));
            && (AllNamed(c, m, Hushed) ==>
                  (IsFrameFor(synced, n, frame) <==> IsFrameFor(synced - {m}, n, frame)))
            && (AllNamed(c, m, Speaking) ==>
                  (Talks(synced[m]) <==> |parts[m].queue| >= 160))
  {
    SnapshotDecides(c, flags, parts, m);
    hide IsFrameFor;
    if AllNamed(c, m, Hushed) {
      QuietUnheard(Synced(parts, Some(flags)), m, n, frame);
    }
  }

  // ----- Codecs -----

  /** Payload types 0 and 8 are the two mixable ones (section 6 of RFC 3551), each with its own
      tables. */
  lemma CodecsOfPayloadTypes(id: nat, codec: Codec, b: Byte, x: Sample)
    ensures FromCodecId(id) == Some(codec) <==> CodecId(codec) == id
    ensures FromCodecId(id).Some? <==> id == 0 || id == 8
    ensures CodecId(codec) == 0 ==> Decode(codec, b) == MulawToLinear(b) && Encode(codec, x) == LinearToMulaw(x)
    ensures CodecId(codec) == 8 ==> Decode(codec, b) == AlawToLinear(b) && Encode(codec, x) == AlawCode(x)
  {
    MulawEncodersAgree(x);
    hide MulawToLinear, AlawToLinear, LinearToMulaw, LinearToMulawFast, AlawCode;
  }

  /** Over any run, a leg's codec once known stays the same for as long as the leg does, and an
      unknown one is that of the next frame from the leg that can be mixed. */
  lemma {:induction false} CodecIsLatched(events: seq<Event>, event: Event, n: Name)
    requires n in Run(events) && n in Run(events + [event]) && !(event.Join? && event.name == n)
    ensures var before, after := Run(events)[n].codec, Run(events + [event])[n].codec;
            if before.Some? then after == before
            else if event.Speak? && event.name == n && (event.codecId == 0 || event.codecId == 8) then
              after.Some? && CodecId(after.value) == event.codecId
            else after == None
  {
    Unfolded(events, event, n);
    hide Run, Decode;
  }

  // ----- Runs of the mixer -----

  datatype Event =
    | Join(name: Name, negotiated: Option<nat>)
    | Quit(name: Name)
    | Speak(name: Name, codecId: nat, payload: seq<Byte>)
    | SetFlags(name: Name, muted: bool, deaf: bool)
    | Tick(flags: Option<Flags>)

  /** The legs after an event, as the mixer's methods leave them. */
  function Step(parts: Parts, event: Event): Parts {
    match event
    case Join(name, negotiated) =>
      parts[name := Part([], if negotiated.Some? then FromCodecId(negotiated.value) else None, false, false)]
    case Quit(name) => parts - {name}
    case Speak(name, codecId, payload) =>
      if name in parts then parts[name := Ingested(parts[name], codecId, payload)] else parts
    case SetFlags(name, muted, deaf) =>
      if name in parts then parts[name := parts[name].(muted := muted, deaf := deaf)] else parts
    case Tick(flags) => DrainedAll(Synced(parts, flags))
  }

  function Run(events: seq<Event>): Parts {
    if events == [] then map[] else Step(Run(events[..|events| - 1]), events[|events| - 1])
  }

  /** What is still queued for a name, whether or not it has a leg. */
  function QueueOf(parts: Parts, n: Name): seq<Sample> {
    if n in parts then parts[n].queue else []
  }

  /** What can become of a sample: mixed into a tick, dropped by overflow, thrown away while
      muted, or gone with its leg. */
  datatype Fate = Mixed | Overflowed | Silenced | Removed

  /** The books on one name: all samples ever queued under it, the fate of those that have
      left the queue, in the same order, and where each mixed frame began. */
  datatype Ledger = Ledger(said: seq<Sample>, fates: seq<Fate>, starts: seq<nat>)

  const OPENED: Ledger := Ledger([], [], [])

  /** What a frame of voice adds to what a leg has said. */
  function Decoded(codecId: nat, payload: seq<Byte>): seq<Sample> {
    match FromCodecId(codecId)
    case None => []
    case Some(codec) => DecodeAll(codec, payload)
  }

  function Excess(length: nat): nat { if length > MAX_QUEUE_SAMPLES then length - MAX_QUEUE_SAMPLES else 0 }

  function Times(n: nat, fate: Fate): (fates: seq<Fate>)
    ensures |fates| == n && forall i :: 0 <= i < n ==> fates[i] == fate
  {
    seq(n, _ => fate)
  }

  function Settle(ledger: Ledger, n: nat, fate: Fate): Ledger {
    ledger.(fates := ledger.fates + Times(n, fate))
  }

  /** One event entered in the books of `n`, given the legs before it. Joining again under a
      name, leaving, and a tick whose snapshot lacks the name all take the queue away. */
  function Entered(ledger: Ledger, parts: Parts, event: Event, n: Name): Ledger {
    var queue := QueueOf(parts, n);
    match event
    case Join(name, _) => if name == n then Settle(ledger, |queue|, Removed) else ledger
    case Quit(name) => if name == n then Settle(ledger, |queue|, Removed) else ledger
    case Speak(name, codecId, payload) =>
      if name != n || n !in parts then ledger
      else
        var samples := Decoded(codecId, payload);
        Settle(ledger.(said := ledger.said + samples), Excess(|queue| + |samples|), Overflowed)
    case SetFlags(_, _, _) => ledger
    case Tick(flags) =>
      var synced := Synced(parts, flags);
      if n !in synced then Settle(ledger, |queue|, Removed)
      else if synced[n].muted then Settle(ledger, |queue|, Silenced)
      else if Talks(synced[n]) then
        Settle(ledger.(starts := ledger.starts + [|ledger.fates|]), SAMPLES_PER_TICK, Mixed)
      else ledger
  }

  function Books(events: seq<Event>, n: Name): Ledger {
    if events == [] then OPENED
    else
      var before := events[..|events| - 1];
      Entered(Books(before, n), Run(before), events[|events| - 1], n)
  }

  /** The mixed frames follow each other, and all their samples have been mixed. */
  ghost predicate InOrder(starts: seq<nat>, fates: seq<Fate>) {
    && (forall i, j :: 0 <= i < j < |starts| ==> starts[i] + SAMPLES_PER_TICK <= starts[j])
    && (forall i :: 0 <= i < |starts| ==> starts[i] + SAMPLES_PER_TICK <= |fates|)
    && (forall i, at :: 0 <= i < |starts| && starts[i] <= at < starts[i] + SAMPLES_PER_TICK && at < |fates| ==>
          fates[at] == Mixed)
  }

  /** The books balance: the queue is bounded and is what is left of what was said, every
      sample before it has its fate, and the mixed ones are whole frames in order. */
  ghost predicate Balanced(ledger: Ledger, queue: seq<Sample>) {
    && |queue| <= MAX_QUEUE_SAMPLES
    && |ledger.fates| <= |ledger.said| && queue == ledger.said[|ledger.fates|..]
    && InOrder(ledger.starts, ledger.fates)
    && multiset(ledger.fates)[Mixed] == SAMPLES_PER_TICK * |ledger.starts|
  }

  lemma {:induction false} TimesCount(n: nat, fate: Fate, other: Fate)
    ensures multiset(Times(n, fate))[other] == if other == fate then n else 0
  {
    if n > 0 {
      TimesCount(n - 1, fate, other);
      assert Times(n, fate) == Times(n - 1, fate) + [fate];
    }
  }

  lemma {:induction false} SettleCount(ledger: Ledger, n: nat, fate: Fate, other: Fate)
    ensures multiset(Settle(ledger, n, fate).fates)[other] ==
            multiset(ledger.fates)[other] + if other == fate then n else 0
  {
    TimesCount(n, fate, other);
  }

  /** Anything but mixing settles the oldest samples without touching the frames. */
  lemma {:induction false} SettleBalances(ledger: Ledger, queue: seq<Sample>, n: nat, fate: Fate)
    requires |ledger.fates| <= |ledger.said| && queue == ledger.said[|ledger.fates|..]
    requires InOrder(ledger.starts, ledger.fates)
    requires multiset(ledger.fates)[Mixed] == SAMPLES_PER_TICK * |ledger.starts|
    requires n <= |queue| <= n + MAX_QUEUE_SAMPLES && fate != Mixed
    ensures Balanced(Settle(ledger, n, fate), queue[n..])
  {
    SettleCount(ledger, n, fate, Mixed);
    assert ledger.said[|ledger.fates| + n..] == queue[n..];
  }

  lemma {:induction false} SpeakBalances(ledger: Ledger, queue: seq<Sample>, samples: seq<Sample>)
    requires Balanced(ledger, queue)
    ensures Balanced(Settle(ledger.(said := ledger.said + samples), Excess(|queue| + |samples|), Overflowed),
                     Last(queue + samples, MAX_QUEUE_SAMPLES))
  {
    var spoken := ledger.(said := ledger.said + samples);
    assert queue + samples == spoken.said[|ledger.fates|..];
    SettleBalances(spoken, queue + samples, Excess(|queue| + |samples|), Overflowed);
  }

  lemma {:induction false} GoneBalances(ledger: Ledger, queue: seq<Sample>, fate: Fate)
    requires Balanced(ledger, queue) && fate != Mixed
    ensures Balanced(Settle(ledger, |queue|, fate), [])
  {
    SettleBalances(ledger, queue, |queue|, fate);
    assert queue[|queue|..] == [];
  }

  lemma {:induction false} FrameBalances(ledger: Ledger, queue: seq<Sample>)
    requires Balanced(ledger, queue) && |queue| >= SAMPLES_PER_TICK
    ensures Balanced(Settle(ledger.(starts := ledger.starts + [|ledger.fates|]), SAMPLES_PER_TICK, Mixed),
                     queue[SAMPLES_PER_TICK..])
  {
    SettleCount(ledger, SAMPLES_PER_TICK, Mixed, Mixed);
    assert ledger.said[|ledger.fates| + SAMPLES_PER_TICK..] == queue[SAMPLES_PER_TICK..];
  }

  lemma NothingSaid(ledger: Ledger, queue: seq<Sample>)
    requires Balanced(ledger, queue)
    ensures Settle(ledger.(said := ledger.said + []), Excess(|queue|), Overflowed) == ledger
  {
    assert ledger.said + [] == ledger.said && ledger.fates + Times(0, Overflowed) == ledger.fates;
  }

  lemma {:induction false} StepBalances(ledger: Ledger, parts: Parts, event: Event, n: Name)
    requires Balanced(ledger, QueueOf(parts, n))
    ensures Balanced(Entered(ledger, parts, event, n), QueueOf(Step(parts, event), n))
  {
    hide Balanced, Decode, Settle, Excess;
    if event.Speak? {
      SpeakStepBalances(ledger, parts, event.name, event.codecId, event.payload, n);
    } else if event.Tick? {
      TickStepBalances(ledger, parts, event.flags, n);
    } else {
      GoneBalances(ledger, QueueOf(parts, n), Removed);
    }
  }

  lemma {:induction false} SpeakStepBalances(ledger: Ledger, parts: Parts, name: Name, codecId: nat,
                                             payload: seq<Byte>, n: Name)
    requires Balanced(ledger, QueueOf(parts, n))
    ensures var event := Speak(name, codecId, payload);
            Balanced(Entered(ledger, parts, event, n), QueueOf(Step(parts, event), n))
  {
    hide Balanced, Decode, DecodeAll, Settle, Excess;
    var queue := QueueOf(parts, n);
    if name == n && n in parts {
      SpeakBalances(ledger, queue, Decoded(codecId, payload));
      NothingSaid(ledger, queue);
    }
  }

  lemma {:induction false} TickStepBalances(ledger: Ledger, parts: Parts, flags: Option<Flags>, n: Name)
    requires Balanced(ledger, QueueOf(parts, n))
    ensures Balanced(Entered(ledger, parts, Tick(flags), n), QueueOf(Step(parts, Tick(flags)), n))
  {
    hide Balanced, Settle;
    var queue := QueueOf(parts, n);
    GoneBalances(ledger, queue, Removed);
    GoneBalances(ledger, queue, Silenced);
    if n in Synced(parts, flags) && Talks(Synced(parts, flags)[n]) {
      FrameBalances(ledger, queue);
    }
  }

  /** In every run, at every moment, the books of every name balance, through leaving, being
      dropped and joining again. */
  lemma {:induction false} RunBalances(events: seq<Event>, n: Name)
    ensures Balanced(Books(events, n), QueueOf(Run(events), n))
  {
    if events != [] {
      hide Balanced, Step, Entered;
      var before := events[..|events| - 1];
      RunBalances(before, n);
      StepBalances(Books(before, n), Run(before), events[|events| - 1], n);
    }
  }

  lemma {:induction false} FatesCount(fates: seq<Fate>)
    ensures var count := multiset(fates);
            |fates| == count[Mixed] + count[Overflowed] + count[Silenced] + count[Removed]
  {
    if fates != [] {
      FatesCount(fates[1..]);
      assert fates == [fates[0]] + fates[1..];
      assert multiset(fates) == multiset{fates[0]} + multiset(fates[1..]);
      match fates[0]
      case Mixed =>
      case Overflowed =>
      case Silenced =>
      case Removed =>
    }
  }

  /** Conservation: all samples ever queued under a name are those mixed, in whole frames,
      those dropped by overflow, those thrown away muted, those gone with a leg, and those
      still queued. */
  lemma {:induction false} SamplesAreConserved(events: seq<Event>, n: Name)
    ensures var ledger := Books(events, n);
            var count := multiset(ledger.fates);
            && |ledger.said| == SAMPLES_PER_TICK * |ledger.starts| + count[Overflowed] + count[Silenced]
                                + count[Removed] + |QueueOf(Run(events), n)|
            && count[Mixed] == SAMPLES_PER_TICK * |ledger.starts|
  {
    RunBalances(events, n);
    FatesCount(Books(events, n).fates);
  }

  /** Fates are final, and what was said stays said: books only grow. */
  lemma {:induction false} BooksGrow(events: seq<Event>, more: seq<Event>, n: Name)
    ensures var before, after := Books(events, n), Books(events + more, n);
            before.said <= after.said && before.fates <= after.fates && before.starts <= after.starts
  {
    if more == [] {
      assert events + more == events;
    } else {
      hide Books, Run, Entered;
      var shorter, last := more[..|more| - 1], more[|more| - 1];
      BooksGrow(events, shorter, n);
      EnteredGrows(Books(events + shorter, n), Run(events + shorter), last, n);
      Unfolded(events + shorter, last, n);
      assert events + more == events + shorter + [last];
    }
  }

  lemma EnteredGrows(ledger: Ledger, parts: Parts, event: Event, n: Name)
    ensures var after := Entered(ledger, parts, event, n);
            ledger.said <= after.said && ledger.fates <= after.fates && ledger.starts <= after.starts
  {
    hide Decode;
  }

  lemma Unfolded(events: seq<Event>, event: Event, n: Name)
    ensures Books(events + [event], n) == Entered(Books(events, n), Run(events), event, n)
    ensures Run(events + [event]) == Step(Run(events), event)
  {
    assert (events + [event])[..|events|] == events;
    hide Entered, Step;
  }

  /** What a leg contributes to a tick is the frame of what it said that the books name, and
      never one they named before. */
  lemma {:induction false} ContributesInOrder(events: seq<Event>, flags: Option<Flags>, n: Name)
    requires n in Synced(Run(events), flags) && Talks(Synced(Run(events), flags)[n])
    ensures var before, after := Books(events, n), Books(events + [Tick(flags)], n);
            && after.said == before.said && after.starts == before.starts + [|before.fates|]
            && |before.fates| + SAMPLES_PER_TICK <= |before.said|
            && Loaded(Synced(Run(events), flags)[n]).buf ==
               before.said[|before.fates|..|before.fates| + SAMPLES_PER_TICK]
            && InOrder(after.starts, after.fates)
  {
    RunBalances(events, n);
    RunBalances(events + [Tick(flags)], n);
    Unfolded(events, Tick(flags), n);
    hide Books, Run, InOrder, Step;
  }

  // ----- Latency -----

  /** A tick that takes something from a leg's queue if there is anything to take. */
  ghost predicate Drains(parts: Parts, event: Event, n: Name) {
    event.Tick? && n in Synced(parts, event.flags) &&
    var part := Synced(parts, event.flags)[n];
    part.muted || Talks(part)
  }

  ghost function DrainCount(events: seq<Event>, more: seq<Event>, n: Name): nat {
    if more == [] then 0
    else
      var shorter := more[..|more| - 1];
      DrainCount(events, shorter, n) + (if Drains(Run(events + shorter), more[|more| - 1], n) then 1 else 0)
  }

  /** A draining tick settles a frame more, or everything said. */
  lemma {:induction false} DrainSettles(events: seq<Event>, event: Event, n: Name)
    requires Drains(Run(events), event, n)
    ensures var before, after := Books(events, n), Books(events + [event], n);
            |after.fates| >= |before.fates| + SAMPLES_PER_TICK || |after.fates| == |before.said|
  {
    RunBalances(events, n);
    Unfolded(events, event, n);
    hide Books, Run;
  }

  lemma {:induction false} DrainsSettle(events: seq<Event>, more: seq<Event>, n: Name)
    ensures var before, after := Books(events, n), Books(events + more, n);
            || |after.fates| >= |before.fates| + SAMPLES_PER_TICK * DrainCount(events, more, n)
            || |after.fates| >= |before.said|
  {
    if more == [] {
      assert events + more == events;
    } else {
      hide Run, Books, Drains;
      var shorter, last := more[..|more| - 1], more[|more| - 1];
      DrainsSettle(events, shorter, n);
      BooksGrow(events, shorter, n);
      BooksGrow(events + shorter, [last], n);
      assert events + more == events + shorter + [last];
      if Drains(Run(events + shorter), last, n) {
        DrainSettles(events + shorter, last, n);
      }
    }
  }

  /** No sample waits longer than ten ticks that take anything from its leg: after those, and
      whatever else happens, its fate is settled. */
  lemma {:induction false} SampleLeavesInTenTicks(events: seq<Event>, more: seq<Event>, n: Name, j: nat)
    requires DrainCount(events, more, n) >= 10 && j < |Books(events, n).said|
    ensures j < |Books(events + more, n).fates|
  {
    hide Run, Books, Drains, InOrder;
    DrainsSettle(events, more, n);
    RunBalances(events, n);
    assert SAMPLES_PER_TICK * DrainCount(events, more, n) >= MAX_QUEUE_SAMPLES;
  }

  // ----- Waiting for a marked user -----

  /** In every interleaving of a conference where marked users go only through
      `leave_conference`, a tick that takes its snapshot while `wait_for_marked` is set and no
      marked user is counted writes nothing but silence, whatever the legs said before, and
      leaves no sample queued. */
  lemma {:induction false} SilenceWhileWaiting(
    settings: Conference.Settings, limit: nat, run: seq<ConferenceRuns.Sys>, steps: seq<ConferenceRuns.Step>, k: nat,
    flags: Flags, parts: Parts, n: Name, frame: Frame)
    requires ConferenceRuns.IsRun(settings, limit, run, steps) && k < |run|
    requires forall i :: 0 <= i < |steps| ==> ConferenceRuns.SparesMarked(run[i], steps[i])
    requires run[k].conf.settings.waitForMarked && run[k].conf.markedCount == 0
    requires Conference.FlagsOf(run[k].conf, flags)
    requires IsFrameFor(Synced(parts, Some(flags)), n, frame)
    ensures forall i :: 0 <= i < |frame.payload| ==>
              frame.payload[i] == Encode(Synced(parts, Some(flags))[n].codec.value, 0)
    ensures forall m :: m in Synced(parts, Some(flags)) ==> Drained(Synced(parts, Some(flags))[m]).queue == []
  {
    hide Encode, SumOfOthers, Conference.Enter, ConferenceRuns.Take, ConferenceRuns.Enabled;
    ConferenceRuns.RunKeepsWaiting(settings, limit, run, steps, k);
    assert forall m :: m in flags ==> flags[m].0;
    var mixed := Synced(parts, Some(flags));
    forall i: nat
      ensures Heard(mixed, n, i) == 0
    {
      OnlyTalkersHeard(mixed, n, i);
    }
  }
}
