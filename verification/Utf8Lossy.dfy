/** Lossy UTF-8 decoding, as `String::from_utf8_lossy` performs it on each line read
    from an AMI client (server.rs): well-formed sequences are kept and each maximal
    ill-formed prefix becomes one U+FFFD, three bytes long. */
module Utf8Lossy {
  import opened Common
  import opened Framing

  const LF: Byte := 10
  const CR: Byte := 13
  const BLANK_LINE: seq<Byte> := [CR, LF, CR, LF]
  const REPLACEMENT: seq<Byte> := [0xEF, 0xBF, 0xBD]

  predicate Continues(s: seq<Byte>, i: nat) {
    i < |s| && 0x80 <= s[i] <= 0xBF
  }

  /** Second bytes that a three- or four-byte lead allows. */
  predicate SecondContinues(s: seq<Byte>)
    requires s != []
  {
    && Continues(s, 1)
    && (s[0] == 0xE0 ==> 0xA0 <= s[1])
    && (s[0] == 0xED ==> s[1] <= 0x9F)
    && (s[0] == 0xF0 ==> 0x90 <= s[1])
    && (s[0] == 0xF4 ==> s[1] <= 0x8F)
  }

  /** How many bytes the next decoding step takes, and whether they are well formed. */
  function Step(s: seq<Byte>): (r: (nat, bool))
    requires s != []
    ensures 1 <= r.0 <= |s|
    ensures s[0] < 0x80 ==> r == (1, true)
    ensures s[0] >= 0x80 ==> forall i :: 0 <= i < r.0 ==> s[i] >= 0x80
  {
    if s[0] < 0x80 then (1, true)
    else if 0xC2 <= s[0] <= 0xDF then
      if Continues(s, 1) then (2, true) else (1, false)
    else if 0xE0 <= s[0] <= 0xEF then
      if !SecondContinues(s) then (1, false)
      else if !Continues(s, 2) then (2, false)
      else (3, true)
    else if 0xF0 <= s[0] <= 0xF4 then
      if !SecondContinues(s) then (1, false)
      else if !Continues(s, 2) then (2, false)
      else if !Continues(s, 3) then (3, false)
      else (4, true)
    else (1, false)
  }

  function StepOutput(s: seq<Byte>): (out: seq<Byte>)
    requires s != []
    ensures 1 <= |out| <= 3 * Step(s).0
    ensures s[0] < 0x80 ==> out == [s[0]]
    ensures s[0] >= 0x80 ==> forall i :: 0 <= i < |out| ==> out[i] >= 0x80
  {
    if Step(s).1 then s[..Step(s).0] else REPLACEMENT
  }

  function Lossy(s: seq<Byte>): seq<Byte> {
    if s == [] then [] else StepOutput(s) + Lossy(s[Step(s).0..])
  }

  /** Lossy decoding grows its input at most threefold. */
  lemma {:induction false} LossyGrowth(s: seq<Byte>)
    ensures |Lossy(s)| <= 3 * |s|
  {
    if s != [] {
      LossyGrowth(s[Step(s).0..]);
    }
  }

  lemma StepLocal(a: seq<Byte>, b: seq<Byte>)
    requires a != [] && a[|a| - 1] < 0x80
    ensures Step(a + b) == Step(a) && StepOutput(a + b) == StepOutput(a)
  {
    assert |a| > 1 ==> (a + b)[1] == a[1];
    assert |a| > 2 ==> (a + b)[2] == a[2];
    assert |a| > 3 ==> (a + b)[3] == a[3];
    assert (a + b)[..Step(a).0] == a[..Step(a).0];
  }

  lemma DropFirst(a: seq<Byte>, b: seq<Byte>, n: nat)
    requires n <= |a|
    ensures (a + b)[n..] == a[n..] + b
  {
  }

  lemma LossyUnfolds(s: seq<Byte>)
    ensures Lossy(s) == if s == [] then [] else StepOutput(s) + Lossy(s[Step(s).0..])
  {
  }

  /** Decoding may be cut after any ASCII byte: a line feed in particular. */
  lemma {:induction false} LossyCut(a: seq<Byte>, b: seq<Byte>)
    requires a == [] || a[|a| - 1] < 0x80
    ensures Lossy(a + b) == Lossy(a) + Lossy(b)
    decreases |a|
  {
    hide Step, StepOutput, Lossy;
    LossyUnfolds(a);
    LossyUnfolds(a + b);
    if a == [] {
      assert a + b == b;
    } else {
      StepLocal(a, b);
      var n := Step(a).0;
      DropFirst(a, b, n);
      LossyCut(a[n..], b);
      Associates(StepOutput(a), Lossy(a[n..]), Lossy(b));
    }
  }

  lemma {:induction false} LossyEmpty(s: seq<Byte>)
    ensures Lossy(s) == [] <==> s == []
  {
  }

  /** A chunk with a line feed only at its end decodes to one. */
  lemma {:induction false} LossyLineChunk(c: seq<Byte>)
    requires LineChunk(c, LF)
    ensures LineChunk(Lossy(c), LF)
  {
    if c != [] {
      var n := Step(c).0;
      var out, more := StepOutput(c), Lossy(c[n..]);
      LossyLineChunk(c[n..]);
      LossyEmpty(c[n..]);
      forall i | 0 <= i < |out + more| - 1
        ensures (out + more)[i] != LF
      {
        if i >= |out| {
          assert (out + more)[i] == more[i - |out|];
        } else if c[0] < 0x80 {
          assert i == 0 && c[n..] != [];
        }
      }
    }
  }

  lemma {:induction false} LossyHead(s: seq<Byte>)
    requires s != []
    ensures s[0] < 0x80 ==> Lossy(s) == [s[0]] + Lossy(s[1..])
    ensures s[0] >= 0x80 ==> Lossy(s) != [] && Lossy(s)[0] >= 0x80
  {
    hide Step, StepOutput;
    assert Lossy(s) == StepOutput(s) + Lossy(s[Step(s).0..]);
  }

  predicate StartsWith(s: seq<Byte>, w: seq<Byte>) {
    |w| <= |s| && s[..|w|] == w
  }

  lemma StartsWithCons(x: Byte, s: seq<Byte>, w: seq<Byte>)
    requires w != []
    ensures StartsWith([x] + s, w) <==> w[0] == x && StartsWith(s, w[1..])
  {
    if |w| <= |s| + 1 {
      assert ([x] + s)[..|w|] == [x] + s[..|w| - 1];
      assert w == [w[0]] + w[1..];
    }
  }

  /** An ASCII word is a prefix of the decoding exactly when it is one of the input. */
  lemma {:induction false} LossyPrefix(s: seq<Byte>, w: seq<Byte>)
    requires forall i :: 0 <= i < |w| ==> w[i] < 0x80
    ensures StartsWith(Lossy(s), w) <==> StartsWith(s, w)
    decreases |w|
  {
    hide Lossy;
    if w != [] {
      LossyEmpty(s);
      if s != [] {
        LossyHead(s);
        if s[0] < 0x80 {
          LossyPrefix(s[1..], w[1..]);
          assert s == [s[0]] + s[1..];
          StartsWithCons(s[0], s[1..], w);
          StartsWithCons(s[0], Lossy(s[1..]), w);
        } else {
          assert |w| <= |s| ==> s[..|w|][0] == s[0];
          assert |w| <= |Lossy(s)| ==> Lossy(s)[..|w|][0] == Lossy(s)[0];
        }
      }
    }
  }

  function Shift(n: nat, r: Option<nat>): Option<nat> {
    match r
    case None => None
    case Some(end) => Some(n + end)
  }

  lemma {:induction false} ReadMessageCons(x: Byte, s: seq<Byte>)
    ensures ReadMessage([x] + s, BLANK_LINE) ==
            if StartsWith([x] + s, BLANK_LINE) then Some(4) else Shift(1, ReadMessage(s, BLANK_LINE))
  {
    assert ([x] + s)[1..] == s;
  }

  /** Bytes that cannot start a terminator only shift the search. */
  lemma {:induction false} SkipPrefix(p: seq<Byte>, s: seq<Byte>)
    requires forall i :: 0 <= i < |p| ==> p[i] != CR
    ensures ReadMessage(p + s, BLANK_LINE) == Shift(|p|, ReadMessage(s, BLANK_LINE))
    decreases |p|
  {
    hide ReadMessage;
    if p == [] {
      assert p + s == s;
    } else {
      SkipPrefix(p[1..], s);
      var t := p[1..] + s;
      assert p + s == [p[0]] + t;
      ReadMessageCons(p[0], t);
      assert |t| >= 3 ==> ([p[0]] + t)[..4][0] == p[0];
    }
  }

  /** One decoding step moves the search in the input and in the decoding alike. */
  lemma {:induction false} SearchStep(s: seq<Byte>)
    requires s != [] && !StartsWith(s, BLANK_LINE)
    ensures ReadMessage(s, BLANK_LINE) == Shift(Step(s).0, ReadMessage(s[Step(s).0..], BLANK_LINE))
    ensures ReadMessage(Lossy(s), BLANK_LINE) ==
            Shift(|StepOutput(s)|, ReadMessage(Lossy(s[Step(s).0..]), BLANK_LINE))
  {
    hide ReadMessage, Step, StepOutput;
    var n, out, more := Step(s).0, StepOutput(s), Lossy(s[Step(s).0..]);
    assert s == s[..n] + s[n..] && Lossy(s) == out + more;
    if s[0] < 0x80 {
      LossyPrefix(s, BLANK_LINE);
      assert s[..n] == [s[0]];
      ReadMessageCons(s[0], s[n..]);
      ReadMessageCons(s[0], more);
    } else {
      SkipPrefix(s[..n], s[n..]);
      SkipPrefix(out, more);
    }
  }

  lemma {:induction false} SearchEnds(s: seq<Byte>)
    ensures StartsWith(s, BLANK_LINE) ==> ReadMessage(s, BLANK_LINE) == Some(4)
    ensures s == [] ==> ReadMessage(s, BLANK_LINE) == None
  {
  }

  /** The first terminator of the decoded text is the decoded first terminator. */
  lemma {:induction false} LossyReadMessage(s: seq<Byte>)
    ensures match ReadMessage(s, BLANK_LINE)
            case None => ReadMessage(Lossy(s), BLANK_LINE) == None
            case Some(end) => ReadMessage(Lossy(s), BLANK_LINE) == Some(|Lossy(s[..end])|)
    decreases |s|
  {
    hide Step, StepOutput, Lossy, ReadMessage;
    SearchEnds(s);
    if StartsWith(s, BLANK_LINE) {
      LossyPrefix(s, BLANK_LINE);
      SearchEnds(Lossy(s));
      LossyBlankLine();
    } else if s == [] {
      LossyEmpty(s);
    } else {
      SearchStep(s);
      LossyReadMessage(s[Step(s).0..]);
      if ReadMessage(s, BLANK_LINE).Some? {
        EndsInLineFeed(s);
        LossySplitLength(s, ReadMessage(s, BLANK_LINE).value);
      }
    }
  }

  lemma LossyBlankLine()
    ensures |Lossy(BLANK_LINE)| == 4
  {
    hide Lossy;
    LossyHead(BLANK_LINE);
    LossyHead(BLANK_LINE[1..]);
    LossyHead(BLANK_LINE[2..]);
    LossyHead(BLANK_LINE[3..]);
    assert BLANK_LINE[1..][1..] == BLANK_LINE[2..];
    assert BLANK_LINE[2..][1..] == BLANK_LINE[3..];
    assert BLANK_LINE[3..][1..] == [];
    LossyEmpty([]);
  }

  lemma EndsInLineFeed(s: seq<Byte>)
    requires ReadMessage(s, BLANK_LINE).Some?
    ensures 4 <= ReadMessage(s, BLANK_LINE).value <= |s|
    ensures s[ReadMessage(s, BLANK_LINE).value - 1] == LF
  {
    var end := ReadMessage(s, BLANK_LINE).value;
    ReadMessageIsFirst(s, BLANK_LINE, 0);
    assert s[end - 4..end][3] == s[end - 1];
  }

  lemma {:induction false} LossySplitLength(s: seq<Byte>, end: nat)
    requires s != [] && Step(s).0 <= end <= |s|
    requires s[end - 1] < 0x80
    ensures |Lossy(s[..end])| == |StepOutput(s)| + |Lossy(s[Step(s).0..][..end - Step(s).0])|
  {
    hide Step, StepOutput;
    var n := Step(s).0;
    assert s == s[..end] + s[end..];
    StepLocal(s[..end], s[end..]);
    assert s[..end][n..] == s[n..][..end - n];
  }

  function MapLossy(ss: seq<seq<Byte>>): (r: seq<seq<Byte>>)
    ensures |r| == |ss|
    ensures forall i :: 0 <= i < |ss| ==> r[i] == Lossy(ss[i])
  {
    seq(|ss|, i requires 0 <= i < |ss| => Lossy(ss[i]))
  }

  /** Framing the decoded stream is decoding the framed stream. */
  lemma {:induction false} LossyFrames(s: seq<Byte>)
    ensures Frames(Lossy(s), BLANK_LINE) == MapLossy(Frames(s, BLANK_LINE))
    ensures Rest(Lossy(s), BLANK_LINE) == Lossy(Rest(s, BLANK_LINE))
    decreases |s|
  {
    hide Lossy, ReadMessage;
    LossyReadMessage(s);
    var r := ReadMessage(s, BLANK_LINE);
    if r.Some? {
      var head, tail := s[..r.value], s[r.value..];
      LossyFrames(tail);
      EndsInLineFeed(s);
      LossyCut(head, tail);
      assert s == head + tail;
      assert Lossy(s)[..|Lossy(head)|] == Lossy(head);
      assert Lossy(s)[|Lossy(head)|..] == Lossy(tail);
      assert Frames(s, BLANK_LINE) == [head] + Frames(tail, BLANK_LINE);
      assert MapLossy([head] + Frames(tail, BLANK_LINE)) == [Lossy(head)] + MapLossy(Frames(tail, BLANK_LINE));
    }
  }
}
