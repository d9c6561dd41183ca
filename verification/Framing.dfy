/** The blank-line framing of the AMI stream (protocol.rs, `read_message`), and the
    fact that makes line-fed framing exact: fed with chunks that carry a line feed
    only at their end, a buffer never holds anything after its first terminator. */
module Framing {
  import opened Common

  ghost predicate OccursAt<T>(s: seq<T>, term: seq<T>, k: nat) {
    k + |term| <= |s| && s[k..k + |term|] == term
  }

  /** `read_message`: the end of the first terminator, if there is one. */
  function ReadMessage<T(==)>(s: seq<T>, term: seq<T>): (r: Option<nat>)
    ensures r.Some? ==> |term| <= r.value <= |s|
  {
    if |term| <= |s| && s[..|term|] == term then
      Some(|term|)
    else if s == [] then
      None
    else
      match ReadMessage(s[1..], term)
      case None => None
      case Some(end) => Some(end + 1)
  }

  lemma OccursLater<T>(s: seq<T>, term: seq<T>, k: nat)
    requires s != []
    ensures OccursAt(s, term, 0) <==> |term| <= |s| && s[..|term|] == term
    ensures OccursAt(s[1..], term, k) <==> OccursAt(s, term, k + 1)
  {
    if k + 1 + |term| <= |s| {
      assert s[1..][k..k + |term|] == s[k + 1..k + 1 + |term|];
    }
    if |term| <= |s| {
      assert s[0..|term|] == s[..|term|];
    }
  }

  lemma OccursNow<T>(s: seq<T>, term: seq<T>)
    requires |term| <= |s| && s[..|term|] == term
    ensures OccursAt(s, term, 0)
  {
    assert s[0..|term|] == s[..|term|];
  }

  lemma NeverOccurs<T>(s: seq<T>, term: seq<T>, k: nat)
    requires s == [] && term != []
    ensures !OccursAt(s, term, k)
  {
  }

  lemma ReadMessageUnfolds<T>(s: seq<T>, term: seq<T>)
    ensures ReadMessage(s, term) ==
            if |term| <= |s| && s[..|term|] == term then Some(|term|)
            else if s == [] then None
            else match ReadMessage(s[1..], term)
                 case None => None
                 case Some(end) => Some(end + 1)
  {
  }

  /** `ReadMessage` finds the first occurrence: there is one at its result, and none
      starts earlier. */
  lemma {:induction false} ReadMessageIsFirst<T>(s: seq<T>, term: seq<T>, k: nat)
    ensures var r := ReadMessage(s, term);
            && (r.Some? ==> OccursAt(s, term, r.value - |term|))
            && (OccursAt(s, term, k) ==> r.Some? && r.value <= k + |term|)
  {
    ReadMessageUnfolds(s, term);
    hide ReadMessage, OccursAt;
    if |term| <= |s| && s[..|term|] == term {
      OccursNow(s, term);
    } else if s == [] {
      NeverOccurs(s, term, k);
    } else {
      ReadMessageIsFirst(s[1..], term, if k == 0 then 0 else k - 1);
      OccursLater(s, term, if k == 0 then 0 else k - 1);
      var r := ReadMessage(s[1..], term);
      if r.Some? {
        OccursLater(s, term, r.value - |term|);
      }
    }
  }

  /** All complete messages of a stream, by reading one message after another. */
  function Frames<T(==)>(s: seq<T>, term: seq<T>): seq<seq<T>>
    requires term != []
    decreases |s|
  {
    match ReadMessage(s, term)
    case None => []
    case Some(end) => [s[..end]] + Frames(s[end..], term)
  }

  /** What is left of a stream after its last complete message. */
  function Rest<T(==)>(s: seq<T>, term: seq<T>): seq<T>
    requires term != []
    decreases |s|
  {
    match ReadMessage(s, term)
    case None => s
    case Some(end) => Rest(s[end..], term)
  }

  /** A chunk as the line reader delivers it: `last` only as its final element. */
  ghost predicate LineChunk<T>(c: seq<T>, last: T) {
    forall i :: 0 <= i < |c| - 1 ==> c[i] != last
  }

  /** After one more chunk the first terminator, if any, ends exactly at the buffer's
      end, so clearing the whole buffer loses nothing. */
  lemma {:induction false} TerminatorEndsBuffer<T>(buffer: seq<T>, chunk: seq<T>, term: seq<T>)
    requires term != [] && ReadMessage(buffer, term) == None
    requires LineChunk(chunk, term[|term| - 1])
    ensures ReadMessage(buffer + chunk, term).Some? ==>
              ReadMessage(buffer + chunk, term) == Some(|buffer| + |chunk|)
  {
    hide ReadMessage;
    var s := buffer + chunk;
    var r := ReadMessage(s, term);
    if r.Some? {
      var k := r.value - |term|;
      ReadMessageIsFirst(s, term, k);
      assert s[k..k + |term|][|term| - 1] == s[r.value - 1] == term[|term| - 1];
      if r.value <= |buffer| {
        assert buffer[k..k + |term|] == s[k..k + |term|];
        ReadMessageIsFirst(buffer, term, k);
      } else {
        assert s[r.value - 1] == chunk[r.value - 1 - |buffer|];
      }
    }
  }

  /** A first terminator stays first when the stream grows. */
  lemma {:induction false} ReadMessageExtends<T>(s: seq<T>, more: seq<T>, term: seq<T>)
    requires ReadMessage(s, term).Some?
    ensures ReadMessage(s + more, term) == ReadMessage(s, term)
  {
    if |term| <= |s| && s[..|term|] == term {
      assert (s + more)[..|term|] == s[..|term|];
    } else {
      ReadMessageIsFirst(s, term, 0);
      if |term| <= |s| {
        assert (s + more)[..|term|] == s[..|term|];
      }
      assert (s + more)[1..] == s[1..] + more;
      ReadMessageExtends(s[1..], more, term);
    }
  }

  /** A complete message at the head of a stream is its first frame. */
  lemma {:induction false} FramesCons<T>(message: seq<T>, more: seq<T>, term: seq<T>)
    requires term != [] && ReadMessage(message, term) == Some(|message|)
    ensures Frames(message + more, term) == [message] + Frames(more, term)
    ensures Rest(message + more, term) == Rest(more, term)
  {
    ReadMessageExtends(message, more, term);
    assert (message + more)[..|message|] == message;
    assert (message + more)[|message|..] == more;
  }

  lemma FramesUnfold<T>(s: seq<T>, term: seq<T>)
    requires term != []
    ensures match ReadMessage(s, term)
            case None => Frames(s, term) == [] && Rest(s, term) == s
            case Some(end) => Frames(s, term) == [s[..end]] + Frames(s[end..], term)
                              && Rest(s, term) == Rest(s[end..], term)
  {
    hide ReadMessage;
  }

  /** Frames and rest together are the stream. */
  lemma {:induction false} FramesPartition<T>(s: seq<T>, term: seq<T>)
    requires term != []
    ensures Flatten(Frames(s, term)) + Rest(s, term) == s
    ensures ReadMessage(Rest(s, term), term) == None
    decreases |s|
  {
    FramesUnfold(s, term);
    hide ReadMessage, Flatten, Frames, Rest;
    var r := ReadMessage(s, term);
    if r.Some? {
      var end := r.value;
      var frames, rest := Frames(s[end..], term), Rest(s[end..], term);
      FramesPartition(s[end..], term);
      FlattenCons(s[..end], frames);
      Associates(s[..end], Flatten(frames), rest);
      Halves(s, end);
    } else {
      FlattenNone(s);
    }
  }

  lemma Associates<T>(a: seq<T>, b: seq<T>, c: seq<T>)
    ensures (a + b) + c == a + (b + c)
  {
  }

  lemma Halves<T>(s: seq<T>, n: nat)
    requires n <= |s|
    ensures s[..n] + s[n..] == s
  {
  }

  lemma FlattenNone<T>(s: seq<T>)
    ensures Flatten([]) + s == s
  {
  }

  lemma FlattenCons<T>(head: seq<T>, tail: seq<seq<T>>)
    ensures Flatten([head] + tail) == head + Flatten(tail)
  {
    assert ([head] + tail)[1..] == tail;
  }

  function Flatten<T>(ss: seq<seq<T>>): seq<T> {
    if ss == [] then [] else ss[0] + Flatten(ss[1..])
  }

  /** A list of single messages, sent back to back, is framed as that list. */
  lemma {:induction false} FramesOfMessages<T>(messages: seq<seq<T>>, term: seq<T>)
    requires term != []
    requires forall i :: 0 <= i < |messages| ==> ReadMessage(messages[i], term) == Some(|messages[i]|)
    ensures Frames(Flatten(messages), term) == messages
    ensures Rest(Flatten(messages), term) == []
  {
    if messages == [] {
    } else {
      FramesOfMessages(messages[1..], term);
      FramesCons(messages[0], Flatten(messages[1..]), term);
    }
  }
}
