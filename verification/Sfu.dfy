/** Payload types for SFU re-INVITEs (confbridge.rs, `build_sfu_sdp`): a participant keeps
    its own media lines and gets one video line per stream of the others. */
module Sfu {
  import opened Common

  /** An RTP payload type, as the `u8` the source keeps it in. */
  type Pt = Byte

  const FIRST_DYNAMIC: Pt := 99
  const LAST_DYNAMIC: Pt := 127
  const STATIC_LIMIT: Pt := 96
  const VIDEO_PORT := 4050

  datatype Stream = Stream(payloadType: Pt, codec: string, rate: nat)

  datatype Direction = SendRecv | SendOnly | RecvOnly | Inactive

  datatype Media = Media(kind: string, port: nat, formats: seq<Pt>,
                         rtpmap: Option<(Pt, string, nat)>, direction: Direction)

  // ----- The allocator -----

  /** The inner loop: pass over used types, but never past 127. */
  function SkipUsed(used: set<Pt>, next: Pt): (p: Pt)
    ensures next <= p && (next <= LAST_DYNAMIC ==> p <= LAST_DYNAMIC)
    decreases 256 - next
  {
    if next in used && next < LAST_DYNAMIC then SkipUsed(used, next + 1) else next
  }

  function Elements(s: seq<Pt>): set<Pt> {
    set x | x in s
  }

  /** One stream's turn: its own type if static and unused, else the next dynamic one.
      The dynamic counter is a `u8`. */
  function Give(own: set<Pt>, given: seq<Pt>, next: Pt, pt: Pt): (r: (seq<Pt>, Pt))
    ensures |r.0| == |given| + 1 && r.0[..|given|] == given
  {
    var used := own + Elements(given);
    if pt < STATIC_LIMIT && pt !in used then (given + [pt], next)
    else
      var p := SkipUsed(used, next);
      (given + [p], (p + 1) % 256)
  }

  /** The types given to the first streams, and the next dynamic type to try. */
  function Allocate(own: set<Pt>, wanted: seq<Pt>): (r: (seq<Pt>, Pt))
    ensures |r.0| == |wanted|
  {
    if wanted == [] then ([], FIRST_DYNAMIC)
    else
      var n := |wanted| - 1;
      var (given, next) := Allocate(own, wanted[..n]);
      Give(own, given, next, wanted[n])
  }

  /** Line by line, what the re-INVITE offers for another participant's stream. */
  function VideoLine(stream: Stream, departed: bool, pt: Pt): Media {
    Media("video", if departed then 0 else VIDEO_PORT, [pt],
          Some((pt, stream.codec, stream.rate)), if departed then Inactive else SendRecv)
  }

  /** A media line that offers a stream, or withdraws a departed one (section 8.2 of RFC 3264):
      port 0 exactly if departed, and one format, whose rtpmap is the stream's. */
  ghost predicate Offers(line: Media, stream: Stream, departed: bool) {
    && line.kind == "video"
    && (line.port == 0 <==> departed) && (!departed ==> line.port == 4050)
    && line.direction == (if departed then Inactive else SendRecv)
    && |line.formats| == 1 && line.rtpmap == Some((line.formats[0], stream.codec, stream.rate))
  }

  lemma VideoLineOffers(stream: Stream, departed: bool, pt: Pt)
    ensures Offers(VideoLine(stream, departed, pt), stream, departed)
  {
  }

  function OwnTypes(own: seq<Media>): set<Pt> {
    if own == [] then {} else OwnTypes(own[..|own| - 1]) + Elements(own[|own| - 1].formats)
  }

  function Wanted(others: seq<(Stream, bool)>): (w: seq<Pt>)
    ensures |w| == |others| && forall i :: 0 <= i < |w| ==> w[i] == others[i].0.payloadType
  {
    seq(|others|, i requires 0 <= i < |others| => others[i].0.payloadType)
  }

  method CollectOwnTypes(own: seq<Media>) returns (used: set<Pt>)
    ensures used == OwnTypes(own)
  {
    used := {};
    for m := 0 to |own|
      invariant used == OwnTypes(own[..m])
    {
      assert own[..m + 1][..m] == own[..m];
      for f := 0 to |own[m].formats|
        invariant used == OwnTypes(own[..m]) + Elements(own[m].formats[..f])
      {
        used := used + {own[m].formats[f]};
        assert own[m].formats[..f + 1] == own[m].formats[..f] + [own[m].formats[f]];
      }
      assert own[m].formats[..|own[m].formats|] == own[m].formats;
    }
    assert own[..|own|] == own;
  }

  method PassUsed(used: set<Pt>, start: Pt) returns (next: Pt)
    ensures next == SkipUsed(used, start)
  {
    next := start;
    while next in used && next < LAST_DYNAMIC
      invariant SkipUsed(used, next) == SkipUsed(used, start)
      decreases 256 - next
    {
      next := next + 1;
    }
  }

  lemma ElementsAppend(s: seq<Pt>, x: Pt)
    ensures Elements(s + [x]) == Elements(s) + {x}
  {
  }

  lemma NothingAllocated(own: set<Pt>)
    ensures Allocate(own, []) == ([], FIRST_DYNAMIC) && own + Elements([]) == own
  {
  }

  lemma AllocateNext(own: set<Pt>, wanted: seq<Pt>, i: nat)
    requires i < |wanted|
    ensures var (given, next) := Allocate(own, wanted[..i]);
            Allocate(own, wanted[..i + 1]) == Give(own, given, next, wanted[i])
  {
    assert wanted[..i + 1][..i] == wanted[..i];
  }

  method BuildSfuSdp(own: seq<Media>, others: seq<(Stream, bool)>) returns (media: seq<Media>)
    ensures |media| == |own| + |others| && media[..|own|] == own
    ensures forall i :: 0 <= i < |others| ==>
              media[|own| + i] == VideoLine(others[i].0, others[i].1, Allocate(OwnTypes(own), Wanted(others)).0[i])
    ensures forall i :: 0 <= i < |others| ==> Offers(media[|own| + i], others[i].0, others[i].1)
  {
    hide OwnTypes, SkipUsed, Allocate, VideoLine, Elements;
    var used := CollectOwnTypes(own);
    var lines: seq<Media> := [];
    var next: Pt := FIRST_DYNAMIC;
    ghost var types, wanted := OwnTypes(own), Wanted(others);
    ghost var given: seq<Pt> := [];
    NothingAllocated(types);
    for i := 0 to |others|
      invariant (given, next) == Allocate(types, wanted[..i])
      invariant used == types + Elements(given)
      invariant |lines| == i
      invariant forall j :: 0 <= j < i ==> lines[j] == VideoLine(others[j].0, others[j].1, given[j])
    {
      var (stream, departed) := others[i];
      AllocateNext(types, wanted, i);
      var pt;
      if stream.payloadType < STATIC_LIMIT && stream.payloadType !in used {
        pt := stream.payloadType;
      } else {
        pt := PassUsed(used, next);
        next := (pt as int + 1) % 256;
      }
      ElementsAppend(given, pt);
      used := used + {pt};
      given := given + [pt];
      lines := lines + [VideoLine(stream, departed, pt)];
    }
    assert wanted[..|others|] == wanted;
    media := own + lines;
    forall i | 0 <= i < |others|
      ensures Offers(media[|own| + i], others[i].0, others[i].1)
    {
      VideoLineOffers(others[i].0, others[i].1, given[i]);
    }
  }

  // ----- What the allocation guarantees, and exactly when -----

  /** Every given type is a 7-bit RTP payload type, new to the participant and used once. */
  ghost predicate Sound(own: set<Pt>, given: seq<Pt>) {
    && (forall i :: 0 <= i < |given| ==> given[i] <= LAST_DYNAMIC && given[i] !in own)
    && (forall i, j :: 0 <= i < j < |given| ==> given[i] != given[j])
  }

  /** Stream `i` cannot keep its own type: it is dynamic, the participant's own, or an
      earlier stream's. */
  predicate NeedsDynamic(own: set<Pt>, wanted: seq<Pt>, i: nat)
    requires i < |wanted|
  {
    wanted[i] >= STATIC_LIMIT || wanted[i] in own || wanted[i] in wanted[..i]
  }

  function DynamicStreams(own: set<Pt>, wanted: seq<Pt>): nat {
    if wanted == [] then 0
    else
      var n := |wanted| - 1;
      DynamicStreams(own, wanted[..n]) + (if NeedsDynamic(own, wanted, n) then 1 else 0)
  }

  /** The participant's own types in the dynamic range. */
  ghost function OwnDynamic(own: set<Pt>): nat {
    |set x | x in own && FIRST_DYNAMIC <= x <= LAST_DYNAMIC|
  }

  const POOL := LAST_DYNAMIC - FIRST_DYNAMIC + 1

  /** Types from `n` to 127 that the participant does not use. */
  function Free(own: set<Pt>, n: nat): nat
    decreases 128 - n
  {
    if n > LAST_DYNAMIC then 0 else (if n in own then 0 else 1) + Free(own, n + 1)
  }

  lemma {:induction false} FreeCounts(own: set<Pt>, n: nat)
    requires n <= 128
    ensures Free(own, n) + |set x | x in own && n <= x <= LAST_DYNAMIC| == 128 - n
    decreases 128 - n
  {
    var here := set x | x in own && n <= x <= LAST_DYNAMIC;
    if n == 128 {
      assert here == {};
    } else {
      var above := set x | x in own && n + 1 <= x <= LAST_DYNAMIC;
      FreeCounts(own, n + 1);
      if n in own {
        var p: Pt := n;
        assert here == above + {p};
      } else {
        assert here == above;
      }
    }
  }

  /** Skipping used types finds the least free one, if there is any. */
  lemma {:induction false} SkipFindsFree(own: set<Pt>, used: set<Pt>, next: Pt)
    requires next <= 128
    requires forall x: Pt :: next <= x <= LAST_DYNAMIC ==> (x in used <==> x in own)
    ensures var p := SkipUsed(used, next);
            if Free(own, next) > 0 then
              p <= LAST_DYNAMIC && p !in used && Free(own, p + 1) == Free(own, next) - 1
            else
              p == 128 || (p == LAST_DYNAMIC && p in own)
    decreases 128 - next
  {
    if next < LAST_DYNAMIC && next in used {
      SkipFindsFree(own, used, next + 1);
    } else if next == LAST_DYNAMIC {
      assert Free(own, next + 1) == 0;
    }
  }

  /** Where the allocator stands while the pool lasts. */
  ghost predicate Standing(own: set<Pt>, wanted: seq<Pt>, given: seq<Pt>, next: Pt) {
    && Sound(own, given)
    && FIRST_DYNAMIC <= next <= 128
    && Free(own, next) + DynamicStreams(own, wanted) + OwnDynamic(own) == POOL
    && (forall x :: x in given ==> x < next && (x < STATIC_LIMIT ==> x in wanted))
    && (forall x :: x in wanted && x < STATIC_LIMIT ==> x in own || x in given)
  }

  lemma {:induction false} PoolLasts(own: set<Pt>, wanted: seq<Pt>)
    requires DynamicStreams(own, wanted) + OwnDynamic(own) <= POOL
    ensures Standing(own, wanted, Allocate(own, wanted).0, Allocate(own, wanted).1)
  {
    if wanted == [] {
      FreeCounts(own, FIRST_DYNAMIC);
    } else {
      hide Standing, Give, DynamicStreams;
      var n := |wanted| - 1;
      FewerDynamic(own, wanted);
      PoolLasts(own, wanted[..n]);
      var (given, next) := Allocate(own, wanted[..n]);
      StandingStep(own, wanted, given, next);
    }
  }

  lemma FewerDynamic(own: set<Pt>, wanted: seq<Pt>)
    requires wanted != []
    ensures DynamicStreams(own, wanted[..|wanted| - 1]) <= DynamicStreams(own, wanted)
  {
  }

  lemma {:induction false} StandingStep(own: set<Pt>, wanted: seq<Pt>, given: seq<Pt>, next: Pt)
    requires wanted != [] && Standing(own, wanted[..|wanted| - 1], given, next)
    requires DynamicStreams(own, wanted) + OwnDynamic(own) <= POOL
    ensures var (given', next') := Give(own, given, next, wanted[|wanted| - 1]);
            Standing(own, wanted, given', next')
  {
    NeedsDynamicIsUsed(own, wanted, given);
    RoomLeft(own, wanted, given, next);
    hide Standing, NeedsDynamic, SkipUsed, Elements, DynamicStreams, Free;
    if NeedsDynamic(own, wanted, |wanted| - 1) {
      GiveDynamic(own, wanted, given, next);
    } else {
      GiveStatic(own, wanted, given, next);
    }
  }

  lemma RoomLeft(own: set<Pt>, wanted: seq<Pt>, given: seq<Pt>, next: Pt)
    requires wanted != [] && Standing(own, wanted[..|wanted| - 1], given, next)
    requires DynamicStreams(own, wanted) + OwnDynamic(own) <= POOL
    ensures NeedsDynamic(own, wanted, |wanted| - 1) ==> Free(own, next) > 0
  {
    hide Sound, Free;
  }

  lemma NeedsDynamicIsUsed(own: set<Pt>, wanted: seq<Pt>, given: seq<Pt>)
    requires wanted != []
    requires forall x :: x in given && x < STATIC_LIMIT ==> x in wanted[..|wanted| - 1]
    requires forall x :: x in wanted[..|wanted| - 1] && x < STATIC_LIMIT ==> x in own || x in given
    ensures NeedsDynamic(own, wanted, |wanted| - 1) <==>
            !(wanted[|wanted| - 1] < STATIC_LIMIT && wanted[|wanted| - 1] !in own + Elements(given))
  {
  }

  lemma {:induction false} GiveStatic(own: set<Pt>, wanted: seq<Pt>, given: seq<Pt>, next: Pt)
    requires wanted != [] && Standing(own, wanted[..|wanted| - 1], given, next)
    requires !NeedsDynamic(own, wanted, |wanted| - 1)
    ensures Standing(own, wanted, given + [wanted[|wanted| - 1]], next)
  {
    var pt := wanted[|wanted| - 1];
    assert forall x :: x in wanted <==> x in wanted[..|wanted| - 1] || x == pt;
    assert pt !in given;
  }

  lemma {:induction false} GiveDynamic(own: set<Pt>, wanted: seq<Pt>, given: seq<Pt>, next: Pt)
    requires wanted != [] && Standing(own, wanted[..|wanted| - 1], given, next)
    requires NeedsDynamic(own, wanted, |wanted| - 1) && Free(own, next) > 0
    ensures var p := SkipUsed(own + Elements(given), next);
            p < 255 && Standing(own, wanted, given + [p], p + 1)
  {
    var used := own + Elements(given);
    var p := SkipUsed(used, next);
    SkipFindsFree(own, used, next);
    assert forall x :: x in wanted <==> x in wanted[..|wanted| - 1] || x == wanted[|wanted| - 1];
    assert wanted[|wanted| - 1] < STATIC_LIMIT ==> wanted[|wanted| - 1] in own || wanted[|wanted| - 1] in given;
    assert p !in given;
  }

  /** The allocation is sound exactly when the streams that need a dynamic type, together
      with the participant's own dynamic types, fit the pool of 29; and then its `u8`
      counter has not wrapped. */
  lemma {:induction false} SoundExactly(own: set<Pt>, wanted: seq<Pt>)
    ensures Sound(own, Allocate(own, wanted).0) <==> DynamicStreams(own, wanted) + OwnDynamic(own) <= POOL
    ensures DynamicStreams(own, wanted) + OwnDynamic(own) <= POOL ==>
              FIRST_DYNAMIC <= Allocate(own, wanted).1 <= 128
  {
    if DynamicStreams(own, wanted) + OwnDynamic(own) <= POOL {
      PoolLasts(own, wanted);
    } else {
      PoolRunsOut(own, wanted);
    }
  }

  lemma {:induction false} PoolRunsOut(own: set<Pt>, wanted: seq<Pt>)
    requires DynamicStreams(own, wanted) + OwnDynamic(own) > POOL
    ensures !Sound(own, Allocate(own, wanted).0)
  {
    if wanted == [] {
      FreeCounts(own, FIRST_DYNAMIC);
      assert false;
    } else {
      var n := |wanted| - 1;
      var before := wanted[..n];
      var (given, next) := Allocate(own, before);
      var all := Allocate(own, wanted).0;
      assert all[..n] == given;
      if DynamicStreams(own, before) + OwnDynamic(own) > POOL {
        PoolRunsOut(own, before);
        assert forall i :: 0 <= i < n ==> all[i] == given[i];
      } else {
        PoolLasts(own, before);
        NeedsDynamicIsUsed(own, wanted, given);
        SkipFindsFree(own, own + Elements(given), next);
        assert all[n] == SkipUsed(own + Elements(given), next);
      }
    }
  }

  // ----- What each stream is given -----

  /** The participant's own types are the formats of its media lines. */
  lemma {:induction false} OwnTypesAreFormats(own: seq<Media>, pt: Pt)
    ensures pt in OwnTypes(own) <==> exists m :: 0 <= m < |own| && pt in own[m].formats
  {
    if own != [] {
      var n := |own| - 1;
      OwnTypesAreFormats(own[..n], pt);
      assert forall m :: 0 <= m < n ==> own[..n][m] == own[m];
    }
  }

  /** While the pool lasts, a stream keeps its type exactly if it does not need another, and
      otherwise gets a dynamic one. */
  lemma {:induction false} TypesKeptExactly(own: set<Pt>, wanted: seq<Pt>, i: nat)
    requires DynamicStreams(own, wanted) + OwnDynamic(own) <= POOL && i < |wanted|
    ensures var given := Allocate(own, wanted).0;
            if NeedsDynamic(own, wanted, i) then FIRST_DYNAMIC <= given[i] <= LAST_DYNAMIC else given[i] == wanted[i]
  {
    var n := |wanted| - 1;
    FewerDynamic(own, wanted);
    PoolLasts(own, wanted[..n]);
    PoolLasts(own, wanted);
    var (given, next) := Allocate(own, wanted[..n]);
    if i < n {
      TypesKeptExactly(own, wanted[..n], i);
      assert wanted[..n][..i] == wanted[..i];
    } else {
      NeedsDynamicIsUsed(own, wanted, given);
      assert wanted[..i] == wanted[..n];
    }
  }
}
