/** The read loop of one AMI connection (server.rs, `handle_connection`): bounded line
    reads, the un-dispatched message buffer, and its caps before authentication. */
module Connection {
  import opened Common
  import opened Framing
  import opened Utf8Lossy

  const MAX_MESSAGE_BYTES: nat := 64 * 1024
  const MAX_LINE_BYTES: nat := 8 * 1024

  /** Bytes taken by one `read_until(b'\n')` under a `Take` limit. */
  function LineLength(s: seq<Byte>, limit: nat): (n: nat)
    ensures n <= |s| && n <= limit
    ensures LineChunk(s[..n], LF)
    ensures n < |s| && n < limit ==> 0 < n && s[n - 1] == LF
    ensures s != [] && 0 < limit ==> 0 < n
  {
    if s == [] || limit == 0 then 0
    else if s[0] == LF then 1
    else
      var n := LineLength(s[1..], limit - 1);
      assert s[1..][..n] == s[..n + 1][1..];
      assert forall i :: 0 <= i < n ==> s[1..][..n][i] == s[..n + 1][i + 1];
      n + 1
  }

  /** The text the loop sees: every line read is decoded on its own. */
  function Decoded(s: seq<Byte>): seq<Byte>
    decreases |s|
  {
    if s == [] then []
    else
      var n := LineLength(s, MAX_LINE_BYTES);
      Lossy(s[..n]) + Decoded(s[n..])
  }

  /** A full line cap of bytes without a line feed, starting at `k`. */
  ghost predicate LongRunAt(s: seq<Byte>, k: nat) {
    k + MAX_LINE_BYTES <= |s| && forall i :: k <= i < k + MAX_LINE_BYTES ==> s[i] != LF
  }

  /** No line runs past the line cap. */
  ghost predicate LinesFit(s: seq<Byte>) {
    forall k: nat :: LongRunAt(s, k) ==> k + MAX_LINE_BYTES == |s|
  }

  /** Decoding line by line is decoding the stream, as long as its lines fit. */
  lemma {:induction false} DecodedIsLossy(s: seq<Byte>)
    requires LinesFit(s)
    ensures Decoded(s) == Lossy(s)
    decreases |s|
  {
    hide Lossy;
    if s == [] {
      LossyEmpty(s);
    } else {
      var n := LineLength(s, MAX_LINE_BYTES);
      assert s == s[..n] + s[n..];
      if n < |s| {
        LineEndsInLineFeed(s);
        LossyCut(s[..n], s[n..]);
        forall k: nat | LongRunAt(s[n..], k)
          ensures k + MAX_LINE_BYTES == |s[n..]|
        {
          assert forall i :: n + k <= i < n + k + MAX_LINE_BYTES ==> s[i] == s[n..][i - n];
          assert LongRunAt(s, n + k);
        }
        DecodedIsLossy(s[n..]);
      } else {
        assert s[..n] == s && s[n..] == [];
      }
    }
  }

  lemma {:induction false} LineEndsInLineFeed(s: seq<Byte>)
    requires LinesFit(s) && LineLength(s, MAX_LINE_BYTES) < |s|
    ensures 0 < LineLength(s, MAX_LINE_BYTES) && s[LineLength(s, MAX_LINE_BYTES) - 1] == LF
  {
    var n := LineLength(s, MAX_LINE_BYTES);
    if n == MAX_LINE_BYTES && s[n - 1] != LF {
      assert forall i :: 0 <= i < n - 1 ==> s[i] == s[..n][i];
      assert LongRunAt(s, 0);
    }
  }

  /** The i-th text of a stream: its i-th message, or what is left after the last. */
  function Text(s: seq<Byte>, i: nat): seq<Byte>
    requires i <= |Frames(s, BLANK_LINE)|
  {
    if i < |Frames(s, BLANK_LINE)| then Frames(s, BLANK_LINE)[i] else Rest(s, BLANK_LINE)
  }

  /** How many reads it takes to see a stream. */
  function Pieces(s: seq<Byte>): nat
    decreases |s|
  {
    if s == [] then 0 else Pieces(s[LineLength(s, MAX_LINE_BYTES)..]) + 1
  }

  /** No read stops at the cap. */
  predicate PiecesShort(s: seq<Byte>)
    decreases |s|
  {
    s == [] ||
    var n := LineLength(s, MAX_LINE_BYTES);
    (n < MAX_LINE_BYTES || s[n - 1] == LF) && PiecesShort(s[n..])
  }

  lemma NoPieces()
    ensures Pieces([]) == 0 && PiecesShort([])
  {
  }

  lemma OnePiece(s: seq<Byte>)
    requires s != []
    ensures var n := LineLength(s, MAX_LINE_BYTES);
            && Pieces(s) == Pieces(s[n..]) + 1
            && (PiecesShort(s) <==> (n < MAX_LINE_BYTES || s[n - 1] == LF) && PiecesShort(s[n..]))
  {
    hide LineLength;
  }

  /** Reads that stop short of the cap leave no line that reaches it. */
  lemma {:induction false} ShortPiecesExactly(s: seq<Byte>)
    ensures PiecesShort(s) <==> forall k: nat :: !LongRunAt(s, k)
    decreases |s|
  {
    if s != [] {
      var n := LineLength(s, MAX_LINE_BYTES);
      ShortPiecesExactly(s[n..]);
      if n == MAX_LINE_BYTES && s[n - 1] != LF {
        assert forall i :: 0 <= i < n ==> s[..n][i] == s[i];
        assert LongRunAt(s, 0);
      } else {
        forall k: nat
          ensures LongRunAt(s, k) <==> k >= n && LongRunAt(s[n..], k - n)
        {
          if k < n && k + MAX_LINE_BYTES <= |s| {
            assert s[n - 1] == LF;
          } else if k >= n && k + MAX_LINE_BYTES <= |s| {
            assert forall i :: n <= i < |s| ==> s[i] == s[n..][i - n];
          }
        }
        hide LongRunAt;
        assert (forall k: nat :: !LongRunAt(s, k)) <==> forall k: nat :: !LongRunAt(s[n..], k) by {
          assert forall k: nat :: LongRunAt(s[n..], k) ==> LongRunAt(s, k + n);
        }
      }
    }
  }

  datatype Read = Ready | DeadlinePassed | Failed

  /** What the loop cannot see ahead: how each read ends, whether the session is
      authenticated once `k` messages are done with, and whether handling the `k`-th
      message ended the connection (Logoff, failed send, deadline while sending). */
  datatype Peer = Peer(read: nat -> Read, authenticated: nat -> bool, ends: nat -> bool)

  ghost predicate NeverAuthenticated(peer: Peer) {
    forall k: nat :: !peer.authenticated(k)
  }

  /** None of the first reads failed, or passed the deadline of a session that never
      authenticates. */
  ghost predicate ReadsWentWell(peer: Peer, turns: nat) {
    forall t: nat :: t < turns ==>
      !peer.read(t).Failed? && (NeverAuthenticated(peer) ==> !peer.read(t).DeadlinePassed?)
  }

  /** Every message completed before authentication fits the cap. */
  ghost predicate FitUntilAuthenticated(peer: Peer, messages: seq<seq<Byte>>) {
    forall i: nat :: i < |messages| && !peer.authenticated(i) ==> |messages[i]| <= MAX_MESSAGE_BYTES
  }

  lemma NothingYet(peer: Peer)
    ensures ReadsWentWell(peer, 0) && FitUntilAuthenticated(peer, [])
  {
  }

  lemma OneReadMore(peer: Peer, done: nat, turns: nat)
    requires ReadsWentWell(peer, turns) && !peer.read(turns).Failed?
    requires peer.authenticated(done) || !peer.read(turns).DeadlinePassed?
    ensures ReadsWentWell(peer, turns + 1) && (peer.authenticated(done) ==> !NeverAuthenticated(peer))
  {
  }

  lemma OneMessageMore(peer: Peer, messages: seq<seq<Byte>>, message: seq<Byte>)
    requires FitUntilAuthenticated(peer, messages)
    requires !peer.authenticated(|messages|) ==> |message| <= MAX_MESSAGE_BYTES
    ensures FitUntilAuthenticated(peer, messages + [message])
  {
  }

  datatype Outcome = Closed | LineTooLong | MessageTooLong | TimedOut | ReadFailed | Ended

  /** One more line: either it completes a message, which is then exactly the buffer,
      or the buffer keeps growing; in both cases the texts still to come are the same. */
  lemma {:induction false} BufferStep(buffer: seq<Byte>, raw: seq<Byte>)
    requires raw != [] && ReadMessage(buffer, BLANK_LINE) == None
    ensures var n := LineLength(raw, MAX_LINE_BYTES);
            var next := buffer + Lossy(raw[..n]);
            var all := buffer + Decoded(raw);
            && all == next + Decoded(raw[n..])
            && (ReadMessage(next, BLANK_LINE).Some? ==>
                  && ReadMessage(next, BLANK_LINE) == Some(|next|)
                  && Frames(all, BLANK_LINE) == [next] + Frames(Decoded(raw[n..]), BLANK_LINE)
                  && Rest(all, BLANK_LINE) == Rest(Decoded(raw[n..]), BLANK_LINE))
  {
    hide Lossy, ReadMessage;
    var n := LineLength(raw, MAX_LINE_BYTES);
    var next := buffer + Lossy(raw[..n]);
    assert buffer + Decoded(raw) == next + Decoded(raw[n..]);
    LossyLineChunk(raw[..n]);
    TerminatorEndsBuffer(buffer, Lossy(raw[..n]), BLANK_LINE);
    if ReadMessage(next, BLANK_LINE).Some? {
      FramesCons(next, Decoded(raw[n..]), BLANK_LINE);
    }
  }

  /** What starts a stream is no longer than the stream's first text. */
  lemma {:induction false} FirstTextCovers(head: seq<Byte>, more: seq<Byte>)
    requires ReadMessage(head, BLANK_LINE) == None || ReadMessage(head, BLANK_LINE) == Some(|head|)
    ensures |head| <= |Text(head + more, 0)|
  {
    hide ReadMessage;
    if ReadMessage(head, BLANK_LINE).Some? {
      FramesCons(head, more, BLANK_LINE);
    } else {
      var s := head + more;
      var r := ReadMessage(s, BLANK_LINE);
      if r.Some? && r.value < |head| {
        ReadMessageIsFirst(s, BLANK_LINE, 0);
        assert s[r.value - 4..r.value] == head[r.value - 4..r.value];
        ReadMessageIsFirst(head, BLANK_LINE, r.value - 4);
      }
    }
  }

  /** The connection loop. `peak` is the largest un-dispatched buffer it ever held
      while unauthenticated. */
  method Serve(stream: seq<Byte>, peer: Peer)
      returns (messages: seq<seq<Byte>>, outcome: Outcome, peak: nat, turns: nat)
    // Messages are handed on exactly as one-shot framing of the decoded stream gives them.
    ensures messages <= Frames(Decoded(stream), BLANK_LINE)
    ensures outcome.Closed? ==> messages == Frames(Decoded(stream), BLANK_LINE)
    // The caps bound the buffer, and only fire on a line or a message that is too long.
    ensures peak <= MAX_MESSAGE_BYTES + 3 * MAX_LINE_BYTES
    ensures outcome.LineTooLong? || outcome.MessageTooLong? || outcome.TimedOut? ==>
              !peer.authenticated(|messages|)
    ensures outcome.LineTooLong? ==>
              exists k: nat :: LongRunAt(stream, k)
    ensures outcome.MessageTooLong? ==> |Text(Decoded(stream), |messages|)| > MAX_MESSAGE_BYTES
    ensures outcome.Ended? ==> messages != [] && peer.ends(|messages|)
    ensures forall k: nat :: 0 < k < |messages| ==> !peer.ends(k)
    // The deadline and a failed read end it at once; `turns` reads went well before.
    ensures outcome.TimedOut? ==> peer.read(turns).DeadlinePassed?
    ensures outcome.ReadFailed? ==> peer.read(turns).Failed?
    ensures ReadsWentWell(peer, turns)
    ensures outcome.Closed? ==> turns == Pieces(stream) + 1
    // And the caps do fire before authentication: nothing too long gets through.
    ensures FitUntilAuthenticated(peer, messages)
    ensures outcome.Closed? && NeverAuthenticated(peer) ==>
              PiecesShort(stream) && |Rest(Decoded(stream), BLANK_LINE)| <= MAX_MESSAGE_BYTES
  {
    hide Lossy, ReadMessage, Frames, Rest, Decoded, LineLength, Text, LongRunAt, Pieces, PiecesShort;
    hide ReadsWentWell, FitUntilAuthenticated, NeverAuthenticated;
    NothingYet(peer);
    messages, peak := [], 0;
    var raw, buffer := stream, [];
    turns := 0;
    ghost var at: nat := 0;
    ghost var texts := Frames(Decoded(stream), BLANK_LINE);
    assert [] + Decoded(stream) == Decoded(stream);
    SearchEnds([]);
    while true
      invariant at <= |stream| && raw == stream[at..]
      invariant ReadMessage(buffer, BLANK_LINE) == None
      invariant messages + Frames(buffer + Decoded(raw), BLANK_LINE) == texts
      invariant Rest(buffer + Decoded(raw), BLANK_LINE) == Rest(Decoded(stream), BLANK_LINE)
      invariant !peer.authenticated(|messages|) ==> |buffer| <= MAX_MESSAGE_BYTES
      invariant peak <= MAX_MESSAGE_BYTES + 3 * MAX_LINE_BYTES
      invariant forall k: nat :: 0 < k <= |messages| ==> !peer.ends(k)
      invariant ReadsWentWell(peer, turns) && FitUntilAuthenticated(peer, messages)
      invariant turns + Pieces(raw) == Pieces(stream)
      invariant NeverAuthenticated(peer) && PiecesShort(raw) ==> PiecesShort(stream)
      decreases |raw|
    {
      var authenticated := peer.authenticated(|messages|);
      if !authenticated && peer.read(turns).DeadlinePassed? {
        outcome := TimedOut;
        return;
      }
      if peer.read(turns).Failed? {
        outcome := ReadFailed;
        return;
      }
      OneReadMore(peer, |messages|, turns);
      turns := turns + 1;
      if raw == [] {
        outcome := Closed;
        NoFrames(buffer);
        NoPieces();
        return;
      }
      var n := LineLength(raw, MAX_LINE_BYTES);
      var line := raw[..n];
      if !authenticated && n == MAX_LINE_BYTES && line[n - 1] != LF {
        outcome := LineTooLong;
        LongLine(stream, at);
        return;
      }
      BufferStep(buffer, raw);
      LossyGrowth(line);
      OnePiece(raw);
      ghost var all := buffer + Decoded(raw);
      buffer := buffer + Lossy(line);
      if !authenticated {
        peak := if |buffer| > peak then |buffer| else peak;
      }
      if !authenticated && |buffer| > MAX_MESSAGE_BYTES {
        outcome := MessageTooLong;
        FirstTextCovers(buffer, Decoded(raw[n..]));
        TextAfter(messages, all, Decoded(stream));
        return;
      }
      raw, at := raw[n..], at + n;
      if ReadMessage(buffer, BLANK_LINE).Some? {
        OneMessageMore(peer, messages, buffer);
        messages := messages + [buffer];
        if peer.ends(|messages|) {
          outcome := Ended;
          return;
        }
        buffer := [];
        assert [] + Decoded(raw) == Decoded(raw);
        SearchEnds([]);
      }
    }
  }

  lemma {:induction false} NoFrames(buffer: seq<Byte>)
    requires ReadMessage(buffer, BLANK_LINE) == None
    ensures Frames(buffer + Decoded([]), BLANK_LINE) == [] && Rest(buffer + Decoded([]), BLANK_LINE) == buffer
  {
    assert buffer + Decoded([]) == buffer;
  }

  lemma {:induction false} LongLine(stream: seq<Byte>, at: nat)
    requires at <= |stream|
    requires LineLength(stream[at..], MAX_LINE_BYTES) == MAX_LINE_BYTES
    requires stream[at + MAX_LINE_BYTES - 1] != LF
    ensures LongRunAt(stream, at)
  {
    var line := stream[at..][..MAX_LINE_BYTES];
    assert forall i :: at <= i < at + MAX_LINE_BYTES ==> stream[i] == line[i - at];
  }

  lemma {:induction false} TextAfter(done: seq<seq<Byte>>, s: seq<Byte>, whole: seq<Byte>)
    requires done + Frames(s, BLANK_LINE) == Frames(whole, BLANK_LINE)
    requires Rest(s, BLANK_LINE) == Rest(whole, BLANK_LINE)
    ensures Text(whole, |done|) == Text(s, 0)
  {
  }
}
