/** Actions on the wire: what a client prints and encodes as UTF-8 is what the read loop of
    the server hands to the parser (protocol.rs and server.rs together). */
module Wire {
  import opened Common
  import opened Framing
  import opened Utf8Lossy
  import opened AmiProtocol
  import opened Connection
  import opened LongLines

  // ----- UTF-8 -----

  function Utf8(c: char): (bytes: seq<Byte>)
    ensures 1 <= |bytes| <= 4
  {
    var n := c as int;
    if n < 0x80 then [n]
    else if n < 0x800 then [0xC0 + n / 64, 0x80 + n % 64]
    else if n < 0x10000 then [0xE0 + n / 4096, 0x80 + n / 64 % 64, 0x80 + n % 64]
    else [0xF0 + n / 262144, 0x80 + n / 4096 % 64, 0x80 + n / 64 % 64, 0x80 + n % 64]
  }

  function Utf8All(s: string): seq<Byte> {
    if s == [] then [] else Utf8(s[0]) + Utf8All(s[1..])
  }

  lemma AsciiOrNot(c: char)
    ensures (c as int) < 0x80 ==> Utf8(c) == [c as int]
    ensures (c as int) >= 0x80 ==> forall i :: 0 <= i < |Utf8(c)| ==> Utf8(c)[i] >= 0x80
  {
  }

  /** An encoded character is one well-formed step of the decoder. */
  lemma {:induction false} StepTakesChar(c: char, more: seq<Byte>)
    ensures Step(Utf8(c) + more) == (|Utf8(c)|, true)
  {
    var s := Utf8(c) + more;
    assert forall i :: 0 <= i < |Utf8(c)| ==> s[i] == Utf8(c)[i];
  }

  /** The code point some bytes encode. */
  function Code(bytes: seq<int>): int {
    if |bytes| == 1 then bytes[0]
    else if |bytes| == 2 then (bytes[0] - 0xC0) * 64 + (bytes[1] - 0x80)
    else if |bytes| == 3 then (bytes[0] - 0xE0) * 4096 + (bytes[1] - 0x80) * 64 + (bytes[2] - 0x80)
    else if |bytes| == 4 then
      (bytes[0] - 0xF0) * 262144 + (bytes[1] - 0x80) * 4096 + (bytes[2] - 0x80) * 64 + (bytes[3] - 0x80)
    else 0
  }

  lemma {:induction false} CodeOfUtf8(c: char)
    ensures Code(Utf8(c)) == c as int
  {
    var n := c as int;
    assert n / 4096 == n / 64 / 64 && n / 262144 == n / 4096 / 64;
  }

  lemma {:induction false} Utf8Injective(a: char, b: char)
    requires Utf8(a) == Utf8(b)
    ensures a == b
  {
    CodeOfUtf8(a);
    CodeOfUtf8(b);
    hide Utf8, Code;
  }

  lemma TwoBytes(x: Byte, y: Byte) returns (c: char)
    requires 0xC2 <= x <= 0xDF && 0x80 <= y <= 0xBF
    ensures Utf8(c) == [x, y]
  {
    var code := (x as int - 0xC0) * 64 + (y as int - 0x80);
    c := code as char;
    assert code / 64 == x - 0xC0 && code % 64 == y - 0x80;
  }

  lemma ThreeBytes(x: Byte, y: Byte, z: Byte) returns (c: char)
    requires 0xE0 <= x <= 0xEF && 0x80 <= y <= 0xBF && 0x80 <= z <= 0xBF
    requires (x == 0xE0 ==> 0xA0 <= y) && (x == 0xED ==> y <= 0x9F)
    ensures Utf8(c) == [x, y, z]
  {
    var code := (x as int - 0xE0) * 4096 + (y as int - 0x80) * 64 + (z as int - 0x80);
    c := code as char;
    assert code / 4096 == x - 0xE0 && code / 64 % 64 == y - 0x80 && code % 64 == z - 0x80;
  }

  lemma FourBytes(x: Byte, y: Byte, z: Byte, w: Byte) returns (c: char)
    requires 0xF0 <= x <= 0xF4 && 0x80 <= y <= 0xBF && 0x80 <= z <= 0xBF && 0x80 <= w <= 0xBF
    requires (x == 0xF0 ==> 0x90 <= y) && (x == 0xF4 ==> y <= 0x8F)
    ensures Utf8(c) == [x, y, z, w]
  {
    var high := (x as int - 0xF0) * 64 + (y as int - 0x80);
    var mid := high * 64 + (z as int - 0x80);
    var code := mid * 64 + (w as int - 0x80);
    c := code as char;
    SixBits(high, x as int - 0xF0, y as int - 0x80);
    SixBits(mid, high, z as int - 0x80);
    SixBits(code, mid, w as int - 0x80);
    assert code / 4096 == high && code / 262144 == x - 0xF0;
  }

  lemma SixBits(n: nat, high: nat, low: nat)
    requires n == high * 64 + low && low < 64
    ensures n / 64 == high && n % 64 == low && n / 4096 == high / 64 && n / 262144 == high / 64 / 64
  {
  }

  /** Bytes of a well-formed step encode a character: no surrogate and no overlong form. */
  lemma {:induction false} CharOfBytes(s: seq<Byte>) returns (c: char)
    requires s != [] && Step(s).1
    ensures s[..Step(s).0] == Utf8(c)
  {
    var n := Step(s).0;
    if n == 1 {
      c := s[0] as char;
      AsciiOrNot(c);
    } else if n == 2 {
      c := TwoBytes(s[0], s[1]);
    } else if n == 3 {
      c := ThreeBytes(s[0], s[1], s[2]);
    } else {
      c := FourBytes(s[0], s[1], s[2], s[3]);
    }
    hide Utf8;
  }

  /** A step is well formed if and only if the encoding of some character comes next. */
  lemma {:induction false} WellFormedExactly(s: seq<Byte>)
    requires s != []
    ensures Step(s).1 <==> exists c :: Utf8(c) <= s
  {
    hide Utf8;
    if Step(s).1 {
      var c := CharOfBytes(s);
      assert Utf8(c) <= s;
    }
    forall c | Utf8(c) <= s
      ensures Step(s).1
    {
      assert s == Utf8(c) + s[|Utf8(c)|..];
      StepTakesChar(c, s[|Utf8(c)|..]);
    }
  }

  /** An ill-formed step takes as much as could still have become a character: what it takes
      beyond one byte starts an encoding, and nothing longer does. */
  lemma {:induction false} IllFormedIsMaximal(s: seq<Byte>, m: nat, c: char)
    requires s != [] && !Step(s).1 && Step(s).0 < m <= |s|
    ensures !(s[..m] <= Utf8(c))
  {
    if s[..m] <= Utf8(c) {
      assert forall i :: 0 <= i < m ==> s[i] == Utf8(c)[i];
    }
  }

  lemma {:induction false} IllFormedStarts(s: seq<Byte>) returns (c: char)
    requires s != [] && !Step(s).1 && Step(s).0 > 1
    ensures s[..Step(s).0] <= Utf8(c)
  {
    var n := Step(s).0;
    var full := if n == 2 && s[0] < 0xF0 then s[..2] + [0x80]
                else if n == 2 then s[..2] + [0x80, 0x80] else s[..3] + [0x80];
    assert full[0] == s[0] && full[1] == s[1] && (n == 3 ==> full[2] == s[2]);
    c := CharOfBytes(full);
    assert s[..n] == full[..n];
  }

  /** Lossy decoding keeps well-formed UTF-8 as it is. */
  lemma {:induction false} LossyKeepsUtf8(s: string)
    ensures Lossy(Utf8All(s)) == Utf8All(s)
  {
    if s != [] {
      var head, more := Utf8(s[0]), Utf8All(s[1..]);
      StepTakesChar(s[0], more);
      LossyKeepsUtf8(s[1..]);
      LossyUnfolds(head + more);
      hide Step, Lossy, Utf8;
      assert (head + more)[..|head|] == head && (head + more)[|head|..] == more;
    }
  }

  /** Different texts have different bytes. */
  lemma {:induction false} Utf8AllInjective(a: string, b: string)
    requires Utf8All(a) == Utf8All(b)
    ensures a == b
  {
    if a != [] && b != [] {
      var x, y := Utf8(a[0]), Utf8(b[0]);
      StepTakesChar(a[0], Utf8All(a[1..]));
      StepTakesChar(b[0], Utf8All(b[1..]));
      hide Step, Utf8;
      assert (x + Utf8All(a[1..]))[..|x|] == x && (y + Utf8All(b[1..]))[..|y|] == y;
      assert (x + Utf8All(a[1..]))[|x|..] == Utf8All(a[1..]) && (y + Utf8All(b[1..]))[|y|..] == Utf8All(b[1..]);
      Utf8Injective(a[0], b[0]);
      Utf8AllInjective(a[1..], b[1..]);
      assert a == [a[0]] + a[1..] && b == [b[0]] + b[1..];
    }
  }

  lemma {:induction false} Utf8AllConcat(a: string, b: string)
    ensures Utf8All(a + b) == Utf8All(a) + Utf8All(b)
  {
    if a == [] {
      assert a + b == b;
    } else {
      Utf8AllConcat(a[1..], b);
      hide Utf8;
      assert (a + b)[1..] == a[1..] + b;
      Associates(Utf8(a[0]), Utf8All(a[1..]), Utf8All(b));
    }
  }

  // ----- Framing bytes and framing text -----

  /** An ASCII word starts the bytes exactly when it starts the text. */
  lemma {:induction false} Utf8Prefix(s: string, w: string)
    requires forall i :: 0 <= i < |w| ==> (w[i] as int) < 0x80
    ensures StartsWith(Utf8All(s), Utf8All(w)) <==> w <= s
    decreases |w|
  {
    if w != [] && s != [] {
      AsciiOrNot(s[0]);
      AsciiOrNot(w[0]);
      Utf8Prefix(s[1..], w[1..]);
      var more, rest := Utf8All(s[1..]), Utf8All(w[1..]);
      hide Utf8, Utf8All;
      assert w <= s <==> w[0] == s[0] && w[1..] <= s[1..] by {
        PrefixCons(s, w);
      }
      Utf8AllCons(s);
      Utf8AllCons(w);
      if (s[0] as int) < 0x80 {
        StartsWithCons(s[0] as int, more, [w[0] as int] + rest);
        assert ([w[0] as int] + rest)[1..] == rest;
      } else {
        assert Utf8All(s)[0] != (w[0] as int);
        assert |Utf8All(w)| <= |Utf8All(s)| ==> Utf8All(s)[..|Utf8All(w)|][0] == Utf8All(s)[0];
      }
    } else if w != [] {
      assert Utf8All(s) == [];
    }
  }

  lemma PrefixCons(s: string, w: string)
    requires s != [] && w != []
    ensures w <= s <==> w[0] == s[0] && w[1..] <= s[1..]
  {
    if w[0] == s[0] && w[1..] <= s[1..] {
      assert w == [w[0]] + w[1..] && s == [s[0]] + s[1..];
    }
  }

  lemma Utf8AllCons(s: string)
    requires s != []
    ensures Utf8All(s) == Utf8(s[0]) + Utf8All(s[1..])
  {
  }

  lemma BlankIsBlankLine()
    ensures Utf8All(BLANK) == BLANK_LINE
    ensures forall i :: 0 <= i < |BLANK| ==> (BLANK[i] as int) < 0x80
  {
    assert BLANK[1..] == "\n\r\n" && BLANK[1..][1..] == "\r\n" && BLANK[1..][1..][1..] == "\n";
    assert BLANK[1..][1..][1..][1..] == "";
  }

  lemma TextSearch(s: string)
    requires s != []
    ensures ReadMessage(s, BLANK) == if BLANK <= s then Some(4) else Shift(1, ReadMessage(s[1..], BLANK))
  {
    assert BLANK <= s <==> |BLANK| <= |s| && s[..|BLANK|] == BLANK;
  }

  lemma {:induction false} ByteSearch(c: char, more: seq<Byte>)
    requires !StartsWith(Utf8(c) + more, BLANK_LINE)
    ensures ReadMessage(Utf8(c) + more, BLANK_LINE) == Shift(|Utf8(c)|, ReadMessage(more, BLANK_LINE))
  {
    AsciiOrNot(c);
    hide Utf8, ReadMessage;
    if (c as int) < 0x80 {
      ReadMessageCons(c as int, more);
    } else {
      SkipPrefix(Utf8(c), more);
    }
  }

  /** The first blank line of the bytes is the encoded first blank line of the text. */
  lemma {:induction false} Utf8ReadMessage(s: string)
    ensures match ReadMessage(s, BLANK)
            case None => ReadMessage(Utf8All(s), BLANK_LINE) == None
            case Some(end) => ReadMessage(Utf8All(s), BLANK_LINE) == Some(|Utf8All(s[..end])|)
  {
    BlankIsBlankLine();
    Utf8Prefix(s, BLANK);
    SearchEnds(Utf8All(s));
    if s == [] {
    } else {
      TextSearch(s);
      Utf8AllCons(s);
      hide Utf8, Utf8All, ReadMessage, StartsWith;
      if BLANK <= s {
        assert s[..4] == BLANK;
      } else {
        ByteSearch(s[0], Utf8All(s[1..]));
        Utf8ReadMessage(s[1..]);
        var r := ReadMessage(s[1..], BLANK);
        if r.Some? {
          var end := r.value;
          assert s[..end + 1][0] == s[0] && s[..end + 1][1..] == s[1..][..end];
          Utf8AllCons(s[..end + 1]);
        }
      }
    }
  }

  function MapUtf8(texts: seq<string>): (r: seq<seq<Byte>>)
    ensures |r| == |texts| && forall i :: 0 <= i < |texts| ==> r[i] == Utf8All(texts[i])
  {
    seq(|texts|, i requires 0 <= i < |texts| => Utf8All(texts[i]))
  }

  lemma {:induction false} FlattenUtf8(texts: seq<string>)
    ensures Utf8All(Flatten(texts)) == Flatten(MapUtf8(texts))
  {
    if texts != [] {
      FlattenUtf8(texts[1..]);
      Utf8AllConcat(texts[0], Flatten(texts[1..]));
      assert MapUtf8(texts) == [Utf8All(texts[0])] + MapUtf8(texts[1..]);
      FlattenCons(Utf8All(texts[0]), MapUtf8(texts[1..]));
    }
  }

  // ----- From client to parser -----

  /** Texts that are the printed forms of sendable actions. */
  ghost predicate Printed(actions: seq<Action>, orders: seq<seq<string>>, texts: seq<string>) {
    && |actions| == |orders| == |texts|
    && forall i :: 0 <= i < |actions| ==>
         Sendable(actions[i]) && IsOrder(orders[i], actions[i].headers) && texts[i] == Print(actions[i], orders[i])
  }

  /** The encoded stream consists of exactly the encoded texts. */
  lemma {:induction false} SentFrames(actions: seq<Action>, orders: seq<seq<string>>, texts: seq<string>)
    requires Printed(actions, orders, texts)
    ensures Frames(Utf8All(Flatten(texts)), BLANK_LINE) == MapUtf8(texts)
    ensures Rest(Utf8All(Flatten(texts)), BLANK_LINE) == []
  {
    hide Sendable, IsOrder, Print, Utf8All, Frames, Rest, Flatten;
    FlattenUtf8(texts);
    forall i | 0 <= i < |texts|
      ensures ReadMessage(MapUtf8(texts)[i], BLANK_LINE) == Some(|MapUtf8(texts)[i]|)
    {
      hide ReadMessage;
      PrintIsOneMessage(actions[i], orders[i]);
      Utf8ReadMessage(texts[i]);
      assert texts[i][..|texts[i]|] == texts[i];
    }
    FramesOfMessages(MapUtf8(texts), BLANK_LINE);
  }

  lemma {:induction false} LossyKeepsTexts(texts: seq<string>)
    ensures MapLossy(MapUtf8(texts)) == MapUtf8(texts)
  {
    forall i | 0 <= i < |texts|
      ensures Lossy(Utf8All(texts[i])) == Utf8All(texts[i])
    {
      LossyKeepsUtf8(texts[i]);
    }
    hide Lossy, Utf8All;
  }

  lemma NothingLeft(s: seq<Byte>)
    requires Skeleton(s) == Skeleton([])
    ensures s == []
  {
    if s != [] {
      SkeletonHead(s);
    }
  }

  /** The server frames the stream into as many messages as were sent, and nothing is left
      over. All of them arrive as sent exactly when no character is cut at the line cap; one
      of ASCII only always does; and any other keeps its ASCII bytes in place. */
  lemma {:induction false} ActionsArrive(actions: seq<Action>, orders: seq<seq<string>>, texts: seq<string>)
    requires Printed(actions, orders, texts)
    ensures var stream := Utf8All(Flatten(texts));
            var seen := Frames(Decoded(stream), BLANK_LINE);
            && |seen| == |texts| && Rest(Decoded(stream), BLANK_LINE) == []
            && (seen == MapUtf8(texts) <==> CleanCuts(stream))
            && (forall i :: 0 <= i < |texts| ==> Skeleton(seen[i]) == Skeleton(MapUtf8(texts)[i]))
            && (forall i :: 0 <= i < |texts| && Ascii(MapUtf8(texts)[i]) ==> seen[i] == MapUtf8(texts)[i])
  {
    var stream := Utf8All(Flatten(texts));
    SentFrames(actions, orders, texts);
    CutsKeepMessages(stream);
    FramesExactly(stream);
    LossyKeepsTexts(texts);
    LossyEmpty([]);
    NothingLeft(Rest(Decoded(stream), BLANK_LINE));
    hide Printed, Utf8All, Frames, Rest, Decoded, Lossy, Skeleton, CleanCuts, Flatten, Ascii;
  }

  /** Whatever text has the bytes of a sent message parses to the action that was sent. */
  lemma {:induction false} MessageParses(actions: seq<Action>, orders: seq<seq<string>>, texts: seq<string>, i: nat,
                                         t: string)
    requires Printed(actions, orders, texts) && i < |texts| && Utf8All(t) == Utf8All(texts[i])
    ensures Finish(ParseLines(t, NOTHING)) == Some(Received(actions[i]))
  {
    Utf8AllInjective(t, texts[i]);
    RoundTrip(actions[i], orders[i]);
  }

  /** The read loop of the server fed with such a stream: the actions are handed on in order,
      all of them if the client closes. One arrives as it was sent if it is ASCII or no
      character of the stream is cut, and then parses to what was sent. A client whose lines
      and messages fit the caps is never sent away. */
  method ServeActions(ghost actions: seq<Action>, ghost orders: seq<seq<string>>, ghost texts: seq<string>,
                      stream: seq<Byte>, peer: Peer)
      returns (messages: seq<seq<Byte>>, outcome: Outcome)
    requires Printed(actions, orders, texts) && stream == Utf8All(Flatten(texts))
    ensures |messages| <= |texts| && (outcome.Closed? ==> |messages| == |texts|)
    ensures forall i :: 0 <= i < |messages| && (CleanCuts(stream) || Ascii(MapUtf8(texts)[i])) ==>
              messages[i] == MapUtf8(texts)[i]
    ensures forall i, t :: 0 <= i < |messages| && messages[i] == MapUtf8(texts)[i] == Utf8All(t) ==>
              Finish(ParseLines(t, NOTHING)) == Some(Received(actions[i]))
    ensures LinesFit(stream) ==> !outcome.LineTooLong?
    ensures CleanCuts(stream) && (forall i :: 0 <= i < |texts| ==> |MapUtf8(texts)[i]| <= MAX_MESSAGE_BYTES) ==>
              !outcome.MessageTooLong?
  {
    hide Printed, Utf8All, Frames, Rest, Decoded, Flatten, LinesFit, LongRunAt, Finish, ParseLines, Received;
    hide CleanCuts, Ascii;
    var peak, turns;
    messages, outcome, peak, turns := Serve(stream, peer);
    SizeOfArrived(actions, orders, texts);
    NoLongLine(actions, orders, texts);
    Delivered(actions, orders, texts, messages);
  }

  /** As many messages as actions, none longer than sent if no character is cut. */
  lemma {:induction false} SizeOfArrived(actions: seq<Action>, orders: seq<seq<string>>, texts: seq<string>)
    requires Printed(actions, orders, texts)
    ensures var stream := Utf8All(Flatten(texts));
            && |Frames(Decoded(stream), BLANK_LINE)| == |texts|
            && (CleanCuts(stream) && (forall i :: 0 <= i < |texts| ==> |MapUtf8(texts)[i]| <= MAX_MESSAGE_BYTES) ==>
                  forall i :: 0 <= i <= |texts| ==> |Text(Decoded(stream), i)| <= MAX_MESSAGE_BYTES)
  {
    ActionsArrive(actions, orders, texts);
    hide Printed, Utf8All, Frames, Rest, Decoded, Flatten, CleanCuts, Skeleton, Ascii;
  }

  lemma {:induction false} Delivered(actions: seq<Action>, orders: seq<seq<string>>, texts: seq<string>,
                                     messages: seq<seq<Byte>>)
    requires Printed(actions, orders, texts)
    requires messages <= Frames(Decoded(Utf8All(Flatten(texts))), BLANK_LINE)
    ensures |messages| <= |texts|
    ensures forall i :: 0 <= i < |messages| && (CleanCuts(Utf8All(Flatten(texts))) || Ascii(MapUtf8(texts)[i])) ==>
              messages[i] == MapUtf8(texts)[i]
    ensures forall i, t :: 0 <= i < |messages| && messages[i] == MapUtf8(texts)[i] == Utf8All(t) ==>
              Finish(ParseLines(t, NOTHING)) == Some(Received(actions[i]))
  {
    ActionsArrive(actions, orders, texts);
    var seen := Frames(Decoded(Utf8All(Flatten(texts))), BLANK_LINE);
    hide Frames, Rest, Decoded, Flatten, Utf8All, CleanCuts, Skeleton, Ascii;
    hide Finish, ParseLines, Received, Sendable, IsOrder, Print;
    assert forall i :: 0 <= i < |messages| ==> messages[i] == seen[i];
    forall i, t | 0 <= i < |messages| && messages[i] == MapUtf8(texts)[i] == Utf8All(t)
      ensures Finish(ParseLines(t, NOTHING)) == Some(Received(actions[i]))
    {
      MessageParses(actions, orders, texts, i, t);
    }
  }

  /** A stream of printed actions ends in a line feed, so if its lines fit the cap none runs
      to it. */
  lemma {:induction false} NoLongLine(actions: seq<Action>, orders: seq<seq<string>>, texts: seq<string>)
    requires Printed(actions, orders, texts)
    ensures LinesFit(Utf8All(Flatten(texts))) ==> forall k: nat :: !LongRunAt(Utf8All(Flatten(texts)), k)
  {
    var stream := Utf8All(Flatten(texts));
    SentFrames(actions, orders, texts);
    hide Printed, Utf8All, Flatten;
    if stream != [] {
      WholeFramesEnd(stream);
    }
  }

  lemma {:induction false} WholeFramesEnd(s: seq<Byte>)
    requires s != [] && Rest(s, BLANK_LINE) == []
    ensures s[|s| - 1] == LF
    decreases |s|
  {
    FramesUnfold(s, BLANK_LINE);
    hide Rest, Frames, ReadMessage;
    var end := ReadMessage(s, BLANK_LINE).value;
    if end == |s| {
      EndsInLineFeed(s);
    } else {
      WholeFramesEnd(s[end..]);
    }
  }
}
