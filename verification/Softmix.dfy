/** The mixing core (bridge/softmix.rs): the sum of all channels, minus each channel's own
    contribution, clamped. Sums wrap around at 32 bits. */
module Softmix {
  import opened G711

  type Name = nat

  /** A channel's contribution to the current interval. */
  datatype ChannelData = ChannelData(buf: seq<Sample>, haveAudio: bool)

  type Buffers = map<Name, ChannelData>

  function Contribution(data: ChannelData, i: nat): Sample {
    if data.haveAudio && i < |data.buf| then data.buf[i] else 0
  }

  function Clamp(x: int): Sample {
    if x < -32768 then -32768 else if x > 32767 then 32767 else x
  }

  /** Clamping gives the nearest sample, and a sample itself. */
  lemma ClampIsNearest(x: int, y: Sample)
    ensures Abs(x - Clamp(x)) <= Abs(x - y) && (-32768 <= x <= 32767 ==> Clamp(x) == x)
  {
  }

  /** 32-bit wrap-around. */
  function Wrap(x: int): int {
    (x + 0x8000_0000) % 0x1_0000_0000 - 0x8000_0000
  }

  function Silence(n: nat): (s: seq<Sample>)
    ensures |s| == n && forall i :: 0 <= i < n ==> s[i] == 0
  {
    seq(n, _ => 0)
  }

  function Cleared(data: ChannelData): ChannelData { ChannelData(Silence(|data.buf|), false) }

  // ----- What is mixed -----

  /** The sum of the contributions of some channels to one sample, in any order. */
  ghost function Sum(buffers: Buffers, names: set<Name>, i: nat): int
    requires names <= buffers.Keys
    decreases |names|
  {
    if names == {} then 0
    else
      var n :| n in names;
      Contribution(buffers[n], i) + Sum(buffers, names - {n}, i)
  }

  /** Any channel can be added last, so the order of summation does not matter. */
  lemma {:induction false} SumSplit(buffers: Buffers, names: set<Name>, n: Name, i: nat)
    requires names <= buffers.Keys && n in names
    ensures Sum(buffers, names, i) == Contribution(buffers[n], i) + Sum(buffers, names - {n}, i)
    decreases |names|
  {
    var first :| first in names &&
                 Sum(buffers, names, i) == Contribution(buffers[first], i) + Sum(buffers, names - {first}, i);
    if first != n {
      SumSplit(buffers, names - {first}, n, i);
      SumSplit(buffers, names - {n}, first, i);
      assert names - {first} - {n} == names - {n} - {first};
    }
  }

  /** Sums depend only on what each channel contributes. */
  lemma {:induction false} SumDepends(a: Buffers, b: Buffers, names: set<Name>, i: nat)
    requires names <= a.Keys && names <= b.Keys
    requires forall n :: n in names ==> Contribution(a[n], i) == Contribution(b[n], i)
    ensures Sum(a, names, i) == Sum(b, names, i)
    decreases |names|
  {
    if names != {} {
      var n :| n in names;
      SumSplit(a, names, n, i);
      SumSplit(b, names, n, i);
      SumDepends(a, b, names - {n}, i);
    }
  }

  /** What everybody but one channel contributes. */
  ghost function SumOfOthers(buffers: Buffers, n: Name, i: nat): int {
    Sum(buffers, buffers.Keys - {n}, i)
  }

  lemma {:induction false} SumBound(buffers: Buffers, names: set<Name>, i: nat)
    requires names <= buffers.Keys
    ensures -32768 * |names| <= Sum(buffers, names, i) <= 32767 * |names|
    decreases |names|
  {
    if names != {} {
      var n :| n in names;
      SumSplit(buffers, names, n, i);
      SumBound(buffers, names - {n}, i);
    }
  }

  /** With at most 65536 channels no sum wraps around, whichever of them it covers. */
  lemma {:induction false} NoWrap(buffers: Buffers, names: set<Name>, i: nat)
    requires names <= buffers.Keys && |names| <= 65536
    ensures Wrap(Sum(buffers, names, i)) == Sum(buffers, names, i)
  {
    SumBound(buffers, names, i);
  }

  /** With 65537 it can: that many channels at the lowest level sum to a positive number. */
  lemma {:induction false} WrapHappens(buffers: Buffers)
    requires |buffers.Keys| == 65537
    requires forall n :: n in buffers ==> Contribution(buffers[n], 0) == -32768
    ensures Wrap(Sum(buffers, buffers.Keys, 0)) > 0
  {
    SumOfLowest(buffers, buffers.Keys);
  }

  lemma {:induction false} SumOfLowest(buffers: Buffers, names: set<Name>)
    requires names <= buffers.Keys
    requires forall n :: n in buffers ==> Contribution(buffers[n], 0) == -32768
    ensures Sum(buffers, names, 0) == -32768 * |names|
    decreases |names|
  {
    if names != {} {
      var n :| n in names;
      SumSplit(buffers, names, n, 0);
      SumOfLowest(buffers, names - {n});
    }
  }

  lemma WrapAdd(x: int, y: int)
    ensures Wrap(Wrap(x) + y) == Wrap(x + y)
    ensures Wrap(Wrap(x) - y) == Wrap(x - y)
  {
  }

  /** The mixed samples for one channel: the clamped sum of everybody else. */
  ghost predicate IsMixFor(buffers: Buffers, count: nat, n: Name, output: seq<Sample>) {
    && |output| == count
    && forall i :: 0 <= i < count ==> output[i] == Clamp(Wrap(SumOfOthers(buffers, n, i)))
  }

  class SoftmixData {
    const numSamples: nat
    var channelBuffers: Buffers
    var outputFrames: map<Name, seq<Sample>>

    constructor (numSamples: nat)
      ensures this.numSamples == numSamples && channelBuffers == map[] && outputFrames == map[]
    {
      this.numSamples := numSamples;
      channelBuffers := map[];
      outputFrames := map[];
    }

    /** One channel's samples added to the total. */
    method AddContribution(total: array<int>, n: Name)
      requires n in channelBuffers
      modifies total
      ensures forall i :: 0 <= i < total.Length ==>
                total[i] == if channelBuffers[n].haveAudio
                            then Wrap(old(total[i]) + Contribution(channelBuffers[n], i))
                            else old(total[i])
    {
      var data := channelBuffers[n];
      if data.haveAudio {
        for i := 0 to total.Length
          invariant forall j :: 0 <= j < i ==> total[j] == Wrap(old(total[j]) + Contribution(data, j))
          invariant forall j :: i <= j < total.Length ==> total[j] == old(total[j])
        {
          total[i] := Wrap(total[i] + Contribution(data, i));
        }
      }
    }

    method TotalMix() returns (total: array<int>)
      ensures fresh(total) && total.Length == numSamples
      ensures forall i :: 0 <= i < numSamples ==> total[i] == Wrap(Sum(channelBuffers, channelBuffers.Keys, i))
    {
      hide Wrap, Sum, Contribution;
      total := new int[numSamples](_ => 0);
      var todo := channelBuffers.Keys;
      ghost var done: set<Name> := {};
      NothingYet();
      while todo != {}
        invariant done + todo == channelBuffers.Keys && done * todo == {}
        invariant forall i :: 0 <= i < numSamples ==> total[i] == Wrap(Sum(channelBuffers, done, i))
        decreases |todo|
      {
        var n :| n in todo;
        ghost var before := total[..];
        AddContribution(total, n);
        todo := todo - {n};
        ghost var more := done + {n};
        forall i | 0 <= i < numSamples
          ensures total[i] == Wrap(Sum(channelBuffers, more, i))
        {
          OneMore(channelBuffers, done, n, i);
          assert before[i] == Wrap(Sum(channelBuffers, done, i));
        }
        done := more;
      }
      assert done == channelBuffers.Keys;
    }

    /** The total minus the channel's own contribution. */
    method MinusOwn(total: array<int>, n: Name) returns (output: seq<Sample>)
      requires n in channelBuffers && total.Length == numSamples
      requires forall i :: 0 <= i < numSamples ==> total[i] == Wrap(Sum(channelBuffers, channelBuffers.Keys, i))
      ensures IsMixFor(channelBuffers, numSamples, n, output)
    {
      hide Wrap, Sum, Contribution, Clamp;
      output := [];
      for i := 0 to numSamples
        invariant |output| == i
        invariant forall j :: 0 <= j < i ==> output[j] == Clamp(Wrap(SumOfOthers(channelBuffers, n, j)))
      {
        var mixed := Wrap(total[i] - Contribution(channelBuffers[n], i));
        TotalMinusOwn(channelBuffers, n, i);
        output := output + [Clamp(mixed)];
      }
    }

    /** One mixing iteration. Every channel gets the clamped sum of the others, and the
        contributions are cleared; without channels nothing happens. */
    method Mix()
      modifies this
      ensures channelBuffers == map n | n in old(channelBuffers) :: Cleared(old(channelBuffers)[n])
      ensures old(channelBuffers) == map[] ==> outputFrames == old(outputFrames)
      ensures old(channelBuffers) != map[] ==> outputFrames.Keys == old(channelBuffers).Keys
      ensures old(channelBuffers) != map[] ==>
                forall n :: n in outputFrames ==> IsMixFor(old(channelBuffers), numSamples, n, outputFrames[n])
    {
      hide IsMixFor, Sum, Wrap;
      if channelBuffers == map[] {
        return;
      }
      var total := TotalMix();
      outputFrames := map[];
      var todo := channelBuffers.Keys;
      while todo != {}
        invariant channelBuffers == old(channelBuffers) && todo <= channelBuffers.Keys
        invariant outputFrames.Keys == channelBuffers.Keys - todo
        invariant forall n :: n in outputFrames ==> IsMixFor(channelBuffers, numSamples, n, outputFrames[n])
        modifies this`outputFrames
        decreases |todo|
      {
        var n :| n in todo;
        var output := MinusOwn(total, n);
        outputFrames := outputFrames[n := output];
        todo := todo - {n};
      }
      channelBuffers := map n | n in channelBuffers :: Cleared(channelBuffers[n]);
    }
  }

  lemma NothingYet()
    ensures forall buffers: Buffers, i: nat :: Wrap(Sum(buffers, {}, i)) == 0
  {
  }

  lemma {:induction false} OneMore(buffers: Buffers, done: set<Name>, n: Name, i: nat)
    requires done <= buffers.Keys && n in buffers && n !in done
    ensures Wrap(Wrap(Sum(buffers, done, i)) + Contribution(buffers[n], i)) == Wrap(Sum(buffers, done + {n}, i))
    ensures !buffers[n].haveAudio ==> Sum(buffers, done + {n}, i) == Sum(buffers, done, i)
  {
    SumSplit(buffers, done + {n}, n, i);
    assert done + {n} - {n} == done;
    WrapAdd(Sum(buffers, done, i), Contribution(buffers[n], i));
  }

  /** The fast form: subtracting a channel's own samples from the wrapped total gives the
      wrapped sum of the others. */
  lemma {:induction false} TotalMinusOwn(buffers: Buffers, n: Name, i: nat)
    requires n in buffers
    ensures Wrap(Wrap(Sum(buffers, buffers.Keys, i)) - Contribution(buffers[n], i)) ==
            Wrap(SumOfOthers(buffers, n, i))
  {
    SumSplit(buffers, buffers.Keys, n, i);
    WrapAdd(Sum(buffers, buffers.Keys, i), Contribution(buffers[n], i));
  }
}
