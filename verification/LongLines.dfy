/** Lines longer than the cap (server.rs, after authentication): they are read in pieces, and
    each piece is decoded alone. When that is decoding the stream, and what survives when a
    character is cut. */
module LongLines {
  import opened Common
  import opened Framing
  import opened Utf8Lossy
  import opened Connection

  // ----- Cuts -----

  /** Position `n` is between two steps of the decoder. */
  predicate Boundary(s: seq<Byte>, n: nat)
    decreases |s|
  {
    n == 0 || (s != [] && Step(s).0 <= n && Boundary(s[Step(s).0..], n - Step(s).0))
  }

  /** A step that ends before the cut is the same with and without what follows. */
  lemma {:induction false} StepBeforeCut(a: seq<Byte>, b: seq<Byte>)
    requires a != [] && Step(a + b).0 <= |a|
    ensures Step(a) == Step(a + b) && StepOutput(a) == StepOutput(a + b)
  {
    assert |a| > 1 ==> (a + b)[1] == a[1];
    assert |a| > 2 ==> (a + b)[2] == a[2];
    assert |a| > 3 ==> (a + b)[3] == a[3];
    assert (a + b)[..Step(a + b).0] == a[..Step(a + b).0];
  }

  /** A step across the cut leaves one broken piece before it and stray bytes after it. */
  lemma {:induction false} StepAcrossCut(a: seq<Byte>, b: seq<Byte>)
    requires a != [] && Step(a + b).0 > |a|
    ensures Step(a) == (|a|, false) && |StepOutput(a)| == 3 && |StepOutput(a + b)| <= 4
    ensures Step(a + b).0 <= |a| + |b|
    ensures forall i :: 0 <= i < Step(a + b).0 - |a| ==> Continues(b, i)
  {
    assert |a| > 1 ==> (a + b)[1] == a[1];
    assert |a| > 2 ==> (a + b)[2] == a[2];
    forall i | 0 <= i < Step(a + b).0 - |a|
      ensures Continues(b, i)
    {
      assert (a + b)[|a| + i] == b[i];
    }
  }

  lemma {:induction false} StrayBytes(b: seq<Byte>, m: nat)
    requires m <= |b| && forall i :: 0 <= i < m ==> Continues(b, i)
    ensures |Lossy(b)| == 3 * m + |Lossy(b[m..])|
    decreases m
  {
    if m == 0 {
      assert b[0..] == b;
    } else {
      assert Continues(b, 0) && Step(b) == (1, false);
      forall i | 0 <= i < m - 1
        ensures Continues(b[1..], i)
      {
        assert Continues(b, i + 1);
      }
      StrayBytes(b[1..], m - 1);
      assert b[1..][m - 1..] == b[m..];
    }
  }

  lemma BoundaryUnfolds(s: seq<Byte>, n: nat)
    requires s != [] && n > 0
    ensures Boundary(s, n) <==> Step(s).0 <= n && Boundary(s[Step(s).0..], n - Step(s).0)
  {
    hide Step;
  }

  lemma {:induction false} AcrossIsLonger(a: seq<Byte>, b: seq<Byte>)
    requires a != [] && Step(a + b).0 > |a|
    ensures |Lossy(a)| + |Lossy(b)| > |Lossy(a + b)|
  {
    hide Step, StepOutput, Lossy;
    var m := Step(a + b).0 - |a|;
    StepAcrossCut(a, b);
    StrayBytes(b, m);
    LossyUnfolds(a);
    LossyUnfolds(a + b);
    assert (a + b)[|a| + m..] == b[m..];
    assert a[|a|..] == [];
    LossyEmpty([]);
  }

  /** Decoding in two pieces is decoding the whole at a boundary, and longer anywhere else. */
  lemma {:induction false} CutExactly(a: seq<Byte>, b: seq<Byte>)
    ensures Boundary(a + b, |a|) ==> Lossy(a) + Lossy(b) == Lossy(a + b)
    ensures !Boundary(a + b, |a|) ==> |Lossy(a)| + |Lossy(b)| > |Lossy(a + b)|
    decreases |a|
  {
    hide Step, StepOutput, Lossy, Boundary;
    if a == [] {
      assert a + b == b;
      LossyEmpty(a);
      BoundaryAtStart(b);
    } else {
      BoundaryUnfolds(a + b, |a|);
      var n := Step(a + b).0;
      if n <= |a| {
        StepBeforeCut(a, b);
        LossyUnfolds(a);
        LossyUnfolds(a + b);
        DropFirst(a, b, n);
        CutExactly(a[n..], b);
        Associates(StepOutput(a), Lossy(a[n..]), Lossy(b));
      } else {
        AcrossIsLonger(a, b);
      }
    }
  }

  lemma BoundaryAtStart(s: seq<Byte>)
    ensures Boundary(s, 0)
  {
  }

  /** No piece the loop reads ends inside a step of the decoder. */
  predicate CleanCuts(s: seq<Byte>)
    decreases |s|
  {
    s == [] ||
    var n := LineLength(s, MAX_LINE_BYTES);
    Boundary(s, n) && CleanCuts(s[n..])
  }

  lemma {:induction false} DecodedGrows(s: seq<Byte>)
    ensures if CleanCuts(s) then Decoded(s) == Lossy(s) else |Decoded(s)| > |Lossy(s)|
    decreases |s|
  {
    hide Lossy, Boundary;
    if s == [] {
      LossyEmpty(s);
    } else {
      var n := LineLength(s, MAX_LINE_BYTES);
      assert s == s[..n] + s[n..];
      CutExactly(s[..n], s[n..]);
      DecodedGrows(s[n..]);
    }
  }

  /** The text the loop sees is the decoded stream exactly when no piece is cut inside a
      character; in particular when the lines fit the cap. */
  lemma {:induction false} DecodedExactly(s: seq<Byte>)
    ensures Decoded(s) == Lossy(s) <==> CleanCuts(s)
    ensures LinesFit(s) ==> CleanCuts(s)
  {
    DecodedGrows(s);
    if LinesFit(s) {
      DecodedIsLossy(s);
    }
  }

  /** And then, and only then, the messages are the decoded messages of the raw stream. */
  lemma {:induction false} FramesExactly(s: seq<Byte>)
    ensures (&& Frames(Decoded(s), BLANK_LINE) == MapLossy(Frames(s, BLANK_LINE))
             && Rest(Decoded(s), BLANK_LINE) == Lossy(Rest(s, BLANK_LINE)))
            <==> CleanCuts(s)
  {
    DecodedExactly(s);
    LossyFrames(s);
    hide Decoded, Lossy, Frames, Rest, CleanCuts, Flatten, MapLossy;
    FramesPartition(Decoded(s), BLANK_LINE);
    FramesPartition(Lossy(s), BLANK_LINE);
  }

  lemma {:induction false} AsciiBoundary(line: seq<Byte>, more: seq<Byte>, n: nat)
    requires forall i :: 0 <= i < |line| ==> line[i] < 0x80
    ensures Boundary(line + more, |line| + n) <==> Boundary(more, n)
  {
    if line == [] {
      assert line + more == more;
    } else {
      AsciiBoundary(line[1..], more, n);
      assert (line + more)[1..] == line[1..] + more;
      assert (line + more)[0] == line[0];
    }
  }

  lemma {:induction false} NoLineEnd(line: seq<Byte>, more: seq<Byte>, limit: nat)
    requires |line| == limit && forall i :: 0 <= i < |line| ==> line[i] != LF
    ensures LineLength(line + more, limit) == limit
  {
    if line != [] {
      NoLineEnd(line[1..], more, limit - 1);
      assert (line + more)[1..] == line[1..] + more;
      assert (line + more)[0] == line[0];
    }
  }

  /** A two-byte character across the cap is destroyed. */
  lemma {:induction false} CharacterIsCut(line: seq<Byte>)
    requires |line| == MAX_LINE_BYTES - 1 && forall i :: 0 <= i < |line| ==> line[i] < 0x80 && line[i] != LF
    ensures Decoded(line + [0xC3, 0xA9]) != Lossy(line + [0xC3, 0xA9])
  {
    var s := line + [0xC3, 0xA9];
    assert s == (line + [0xC3]) + [0xA9];
    NoLineEnd(line + [0xC3], [0xA9], MAX_LINE_BYTES);
    AsciiBoundary(line, [0xC3, 0xA9], 1);
    assert !CleanCuts(s);
    hide LineLength, Boundary, CleanCuts;
    DecodedExactly(s);
  }

  // ----- What survives every cut -----

  /** Stands for any run of bytes that are not ASCII. */
  const MARK: Byte := 0x80

  /** The ASCII bytes of a stream, with one mark for each run of others. */
  function Skeleton(s: seq<Byte>): seq<Byte> {
    if s == [] then []
    else if s[0] < 0x80 then [s[0]] + Skeleton(s[1..])
    else if |s| > 1 && s[1] >= 0x80 then Skeleton(s[1..])
    else [MARK] + Skeleton(s[1..])
  }

  /** Skeletons next to each other, with runs that meet made one. */
  function Joined(x: seq<Byte>, y: seq<Byte>): seq<Byte> {
    if x != [] && y != [] && x[|x| - 1] == MARK && y[0] == MARK then x[..|x| - 1] + y else x + y
  }

  lemma {:induction false} SkeletonHead(s: seq<Byte>)
    requires s != []
    ensures Skeleton(s) != [] && Skeleton(s)[0] == (if s[0] < 0x80 then s[0] else MARK)
  {
    if s[0] >= 0x80 && |s| > 1 && s[1] >= 0x80 {
      SkeletonHead(s[1..]);
    }
  }

  lemma JoinedCons(x: Byte, a: seq<Byte>, b: seq<Byte>)
    requires a != [] || x != MARK
    ensures Joined([x] + a, b) == [x] + Joined(a, b)
  {
    if a != [] && b != [] && a[|a| - 1] == MARK && b[0] == MARK {
      assert ([x] + a)[..|a|] == [x] + a[..|a| - 1];
      Associates([x], a[..|a| - 1], b);
    } else {
      Associates([x], a, b);
    }
  }

  lemma {:induction false} SkeletonConcat(a: seq<Byte>, b: seq<Byte>)
    ensures Skeleton(a + b) == Joined(Skeleton(a), Skeleton(b))
  {
    if a == [] {
      assert a + b == b;
    } else {
      var rest := a[1..];
      SkeletonConcat(rest, b);
      assert (a + b)[1..] == rest + b && (a + b)[0] == a[0];
      if rest != [] {
        assert (a + b)[1] == a[1];
        SkeletonHead(rest);
        JoinedCons(if a[0] < 0x80 then a[0] else MARK, Skeleton(rest), Skeleton(b));
      } else if a[0] < 0x80 {
        JoinedCons(a[0], [], Skeleton(b));
      } else if b != [] {
        assert rest + b == b;
        SkeletonHead(b);
      }
    }
  }

  lemma {:induction false} SkeletonOfRun(s: seq<Byte>)
    requires s != [] && forall i :: 0 <= i < |s| ==> s[i] >= 0x80
    ensures Skeleton(s) == [MARK]
  {
    if |s| > 1 {
      SkeletonOfRun(s[1..]);
    }
  }

  /** Decoding keeps the skeleton. */
  lemma {:induction false} LossyKeepsSkeleton(s: seq<Byte>)
    ensures Skeleton(Lossy(s)) == Skeleton(s)
  {
    if s != [] {
      var n, out := Step(s).0, StepOutput(s);
      hide Step, StepOutput, Lossy, Joined, Skeleton;
      LossyKeepsSkeleton(s[n..]);
      LossyUnfolds(s);
      Halves(s, n);
      SkeletonConcat(s[..n], s[n..]);
      SkeletonConcat(out, Lossy(s[n..]));
      if s[0] < 0x80 {
        assert s[..n] == out;
      } else {
        SkeletonOfRun(s[..n]);
        SkeletonOfRun(out);
      }
    }
  }

  /** And so does the loop, wherever it cuts. */
  lemma {:induction false} DecodedKeepsSkeleton(s: seq<Byte>)
    ensures Skeleton(Decoded(s)) == Skeleton(s)
    decreases |s|
  {
    if s != [] {
      var n := LineLength(s, MAX_LINE_BYTES);
      assert Decoded(s) == Lossy(s[..n]) + Decoded(s[n..]);
      hide Lossy, Skeleton, Joined, Decoded, LineLength;
      DecodedKeepsSkeleton(s[n..]);
      LossyKeepsSkeleton(s[..n]);
      Halves(s, n);
      SkeletonConcat(s[..n], s[n..]);
      SkeletonConcat(Lossy(s[..n]), Decoded(s[n..]));
    }
  }

  /** An ASCII word starts the skeleton exactly when it starts the stream. */
  lemma {:induction false} SkeletonPrefix(s: seq<Byte>, w: seq<Byte>)
    requires forall i :: 0 <= i < |w| ==> w[i] < 0x80
    ensures StartsWith(Skeleton(s), w) <==> StartsWith(s, w)
    decreases |w|
  {
    if w != [] && s != [] {
      SkeletonHead(s);
      if s[0] < 0x80 {
        SkeletonPrefix(s[1..], w[1..]);
        assert s == [s[0]] + s[1..];
        StartsWithCons(s[0], s[1..], w);
        StartsWithCons(s[0], Skeleton(s[1..]), w);
      } else {
        assert |w| <= |s| ==> s[..|w|][0] == s[0];
        assert |w| <= |Skeleton(s)| ==> Skeleton(s)[..|w|][0] == Skeleton(s)[0];
      }
    }
  }

  lemma SkeletonUnfolds(s: seq<Byte>)
    ensures Skeleton(s) ==
            if s == [] then []
            else if s[0] < 0x80 then [s[0]] + Skeleton(s[1..])
            else if |s| > 1 && s[1] >= 0x80 then Skeleton(s[1..])
            else [MARK] + Skeleton(s[1..])
  {
  }

  /** One byte moves the search in the stream, and in the skeleton if it shows there. */
  lemma {:induction false} SkeletonSearchStep(s: seq<Byte>)
    requires s != [] && !StartsWith(s, BLANK_LINE)
    ensures |Skeleton(s)| >= |Skeleton(s[1..])|
    ensures ReadMessage(s, BLANK_LINE) == Shift(1, ReadMessage(s[1..], BLANK_LINE))
    ensures ReadMessage(Skeleton(s), BLANK_LINE) ==
            Shift(|Skeleton(s)| - |Skeleton(s[1..])|, ReadMessage(Skeleton(s[1..]), BLANK_LINE))
  {
    SkeletonPrefix(s, BLANK_LINE);
    SkeletonUnfolds(s);
    hide ReadMessage, Skeleton, StartsWith;
    assert s == [s[0]] + s[1..];
    ReadMessageCons(s[0], s[1..]);
    if s[0] < 0x80 {
      ReadMessageCons(s[0], Skeleton(s[1..]));
    } else {
      SkipPrefix([MARK], Skeleton(s[1..]));
    }
  }

  lemma SkeletonOfFirst(s: seq<Byte>, end: nat)
    requires s != [] && 1 <= end <= |s[1..]|
    ensures |Skeleton(s[..end + 1])| - |Skeleton(s[1..][..end])| == |Skeleton(s)| - |Skeleton(s[1..])|
  {
    SkeletonUnfolds(s);
    SkeletonUnfolds(s[..end + 1]);
    hide Skeleton;
    assert s[..end + 1][0] == s[0] && s[..end + 1][1..] == s[1..][..end];
    assert s[..end + 1][1] == s[1];
  }

  /** The first blank line of the skeleton is where it is in the stream. */
  lemma {:induction false} SkeletonReadMessage(s: seq<Byte>)
    ensures match ReadMessage(s, BLANK_LINE)
            case None => ReadMessage(Skeleton(s), BLANK_LINE) == None
            case Some(end) => ReadMessage(Skeleton(s), BLANK_LINE) == Some(|Skeleton(s[..end])|)
  {
    hide ReadMessage, Skeleton;
    SearchEnds(s);
    if StartsWith(s, BLANK_LINE) {
      SkeletonPrefix(s, BLANK_LINE);
      SearchEnds(Skeleton(s));
      SkeletonOfBlankLine();
    } else if s == [] {
      SkeletonUnfolds(s);
    } else {
      hide StartsWith;
      SkeletonSearchStep(s);
      SkeletonReadMessage(s[1..]);
      var r := ReadMessage(s[1..], BLANK_LINE);
      if r.Some? {
        SkeletonOfFirst(s, r.value);
      }
    }
  }

  lemma SkeletonOfBlankLine()
    ensures |Skeleton(BLANK_LINE)| == 4
  {
    AsciiIsItsSkeleton(BLANK_LINE);
  }

  function MapSkeleton(ss: seq<seq<Byte>>): (r: seq<seq<Byte>>)
    ensures |r| == |ss| && forall i :: 0 <= i < |ss| ==> r[i] == Skeleton(ss[i])
  {
    seq(|ss|, i requires 0 <= i < |ss| => Skeleton(ss[i]))
  }

  lemma {:induction false} SkeletonEnd(s: seq<Byte>)
    requires s != []
    ensures Skeleton(s) != [] && Skeleton(s)[|Skeleton(s)| - 1] == (if s[|s| - 1] < 0x80 then s[|s| - 1] else MARK)
  {
    if |s| > 1 {
      SkeletonEnd(s[1..]);
    }
  }

  lemma {:induction false} SkeletonFrames(s: seq<Byte>)
    ensures Frames(Skeleton(s), BLANK_LINE) == MapSkeleton(Frames(s, BLANK_LINE))
    ensures Rest(Skeleton(s), BLANK_LINE) == Skeleton(Rest(s, BLANK_LINE))
    decreases |s|
  {
    SkeletonReadMessage(s);
    FramesUnfold(s, BLANK_LINE);
    FramesUnfold(Skeleton(s), BLANK_LINE);
    hide Skeleton, ReadMessage, Frames, Rest;
    var r := ReadMessage(s, BLANK_LINE);
    if r.Some? {
      var head, tail := s[..r.value], s[r.value..];
      SkeletonFrames(tail);
      EndsInLineFeed(s);
      SkeletonEnd(head);
      assert head[|head| - 1] == LF;
      Halves(s, r.value);
      SkeletonConcat(head, tail);
      Prefixed(Skeleton(head), Skeleton(tail));
      MapSkeletonCons(head, Frames(tail, BLANK_LINE));
    } else {
      assert MapSkeleton([]) == [];
    }
  }

  lemma Prefixed(x: seq<Byte>, y: seq<Byte>)
    ensures (x + y)[..|x|] == x && (x + y)[|x|..] == y
  {
  }

  lemma MapSkeletonCons(head: seq<Byte>, tail: seq<seq<Byte>>)
    ensures MapSkeleton([head] + tail) == [Skeleton(head)] + MapSkeleton(tail)
  {
    hide Skeleton;
  }

  lemma {:induction false} AsciiIsItsSkeleton(s: seq<Byte>)
    ensures MARK !in Skeleton(s) ==> Skeleton(s) == s
    ensures (forall i :: 0 <= i < |s| ==> s[i] < 0x80) ==> MARK !in Skeleton(s)
  {
    if s != [] {
      AsciiIsItsSkeleton(s[1..]);
      SkeletonHead(s);
      if s[0] < 0x80 {
        assert s == [s[0]] + s[1..];
      }
    }
  }

  predicate Ascii(s: seq<Byte>) { forall i :: 0 <= i < |s| ==> s[i] < 0x80 }

  /** Whatever is cut: the loop finds as many messages as the raw stream has, with the same
      ASCII bytes in the same places, and a message of ASCII only arrives as it was sent. */
  lemma {:induction false} CutsKeepMessages(s: seq<Byte>)
    ensures var seen, sent := Frames(Decoded(s), BLANK_LINE), Frames(s, BLANK_LINE);
            && |seen| == |sent|
            && (forall i :: 0 <= i < |sent| ==>
                  Skeleton(seen[i]) == Skeleton(sent[i]) && (Ascii(sent[i]) ==> seen[i] == sent[i]))
    ensures Skeleton(Rest(Decoded(s), BLANK_LINE)) == Skeleton(Rest(s, BLANK_LINE))
  {
    DecodedKeepsSkeleton(s);
    SkeletonFrames(s);
    SkeletonFrames(Decoded(s));
    hide Skeleton, Frames, Rest, Decoded;
    var seen, sent := Frames(Decoded(s), BLANK_LINE), Frames(s, BLANK_LINE);
    assert |MapSkeleton(seen)| == |MapSkeleton(sent)|;
    forall i | 0 <= i < |sent|
      ensures Skeleton(seen[i]) == Skeleton(sent[i]) && (Ascii(sent[i]) ==> seen[i] == sent[i])
    {
      assert MapSkeleton(seen)[i] == MapSkeleton(sent)[i];
      AsciiIsItsSkeleton(sent[i]);
      AsciiIsItsSkeleton(seen[i]);
    }
  }

  /** A stream of ASCII only is seen as it is, whatever the length of its lines. */
  lemma {:induction false} AsciiStreamIsKept(s: seq<Byte>)
    requires Ascii(s)
    ensures Decoded(s) == s
  {
    DecodedKeepsSkeleton(s);
    AsciiIsItsSkeleton(s);
    AsciiIsItsSkeleton(Decoded(s));
  }
}
