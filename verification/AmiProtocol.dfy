/** AMI actions on the wire (protocol.rs): `AmiAction::{set_header, parse, serialize}`.
    Headers live in an unordered map, so printing is stated for every iteration order. */
module AmiProtocol {
  import opened Common
  import opened Framing

  const CRLF := "\r\n"
  const BLANK := "\r\n\r\n"
  const ACTION := "Action"
  const ACTION_ID := "ActionID"

  datatype Action = Action(name: string, actionId: Option<string>, headers: map<string, string>)

  // ----- Character and string helpers of the standard library -----

  function AsciiLower(c: char): char {
    if 'A' <= c <= 'Z' then (c as int + 32) as char else c
  }

  /** `eq_ignore_ascii_case` */
  predicate SameIgnoringCase(a: string, b: string) {
    |a| == |b| && forall i :: 0 <= i < |a| ==> AsciiLower(a[i]) == AsciiLower(b[i])
  }

  /** The Unicode White_Space property, which `trim` goes by. */
  predicate IsWhite(c: char) {
    var n := c as int;
    || 9 <= n <= 13 || n == 0x20 || n == 0x85 || n == 0xA0 || n == 0x1680
    || 0x2000 <= n <= 0x200A || n == 0x2028 || n == 0x2029 || n == 0x202F
    || n == 0x205F || n == 0x3000
  }

  function TrimStart(s: string): string {
    if s != [] && IsWhite(s[0]) then TrimStart(s[1..]) else s
  }

  function TrimEnd(s: string): string {
    if s != [] && IsWhite(s[|s| - 1]) then TrimEnd(s[..|s| - 1]) else s
  }

  function Trim(s: string): string { TrimEnd(TrimStart(s)) }

  /** `trim_end_matches('\r')` */
  function TrimReturns(s: string): string {
    if s != [] && s[|s| - 1] == '\r' then TrimReturns(s[..|s| - 1]) else s
  }

  function Find(s: string, c: char): (r: Option<nat>)
    ensures r.Some? ==> r.value < |s| && s[r.value] == c && c !in s[..r.value]
    ensures r.None? ==> c !in s
  {
    if s == [] then None
    else if s[0] == c then Some(0)
    else
      match Find(s[1..], c)
      case None => None
      case Some(i) => assert s[..i + 1] == [s[0]] + s[1..][..i]; Some(i + 1)
  }

  /** The first line of a text, without its line feed, and what follows it. */
  function CutLine(s: string): (r: (string, string))
    requires s != []
    ensures |r.1| < |s|
  {
    match Find(s, '\n')
    case None => (s, [])
    case Some(i) => (s[..i], s[i + 1..])
  }

  // ----- Building -----

  function New(name: string): Action { Action(name, None, map[]) }

  /** `set_header` */
  function SetHeader(a: Action, key: string, value: string): Action {
    Action(a.name,
           if SameIgnoringCase(key, ACTION_ID) then Some(value) else a.actionId,
           a.headers[key := value])
  }

  /** An action made with `new` and any number of `set_header` calls. */
  function Build(name: string, fields: seq<(string, string)>): Action {
    if fields == [] then New(name)
    else
      var n := |fields| - 1;
      SetHeader(Build(name, fields[..n]), fields[n].0, fields[n].1)
  }

  // ----- Printing -----

  function HeaderLine(key: string, value: string): string {
    key + ": " + value + CRLF
  }

  function HeaderLines(headers: map<string, string>, order: seq<string>): string
    requires forall k :: k in order ==> k in headers
  {
    if order == [] then ""
    else
      (if SameIgnoringCase(order[0], ACTION) then "" else HeaderLine(order[0], headers[order[0]]))
      + HeaderLines(headers, order[1..])
  }

  /** An iteration order of the header map. */
  ghost predicate IsOrder(order: seq<string>, headers: map<string, string>) {
    && (forall k :: k in order <==> k in headers)
    && (forall i, j :: 0 <= i < j < |order| ==> order[i] != order[j])
  }

  function Print(a: Action, order: seq<string>): string
    requires forall k :: k in order ==> k in a.headers
  {
    HeaderLine(ACTION, a.name) + HeaderLines(a.headers, order) + CRLF
  }

  /** `serialize`: visits the header map in whatever order it happens to have. */
  method Serialize(a: Action) returns (buf: string)
    ensures exists order :: IsOrder(order, a.headers) && buf == Print(a, order)
  {
    hide HeaderLines, SameIgnoringCase;
    buf := "Action: " + a.name + "\r\n";
    HeaderLinesCons(a.headers, []);
    assert buf == HeaderLine(ACTION, a.name) + "";
    var todo := a.headers.Keys;
    ghost var order: seq<string> := [];
    while todo != {}
      invariant todo <= a.headers.Keys
      invariant forall k :: k in order <==> k in a.headers.Keys - todo
      invariant forall i, j :: 0 <= i < j < |order| ==> order[i] != order[j]
      invariant buf == HeaderLine(ACTION, a.name) + HeaderLines(a.headers, order)
    {
      var key :| key in todo;
      HeaderLinesAppend(a.headers, order, key);
      assert key !in order;
      todo := todo - {key};
      order := order + [key];
      if !SameIgnoringCase(key, "Action") {
        buf := buf + (key + ": " + a.headers[key] + "\r\n");
      }
    }
    buf := buf + "\r\n";
    assert IsOrder(order, a.headers);
  }

  lemma HeaderLinesCons(headers: map<string, string>, order: seq<string>)
    requires forall k :: k in order ==> k in headers
    ensures order == [] ==> HeaderLines(headers, order) == ""
    ensures order != [] ==>
              HeaderLines(headers, order) ==
              (if SameIgnoringCase(order[0], ACTION) then "" else HeaderLine(order[0], headers[order[0]]))
              + HeaderLines(headers, order[1..])
  {
    hide SameIgnoringCase, HeaderLine;
  }

  lemma {:induction false} HeaderLinesAppend(headers: map<string, string>, order: seq<string>, key: string)
    requires forall k :: k in order ==> k in headers
    requires key in headers
    ensures forall k :: k in order + [key] ==> k in headers
    ensures HeaderLines(headers, order + [key]) ==
            HeaderLines(headers, order) +
            if SameIgnoringCase(key, ACTION) then "" else HeaderLine(key, headers[key])
  {
    hide HeaderLines, HeaderLine, SameIgnoringCase;
    HeaderLinesCons(headers, order);
    HeaderLinesCons(headers, order + [key]);
    if order == [] {
      assert (order + [key])[1..] == [];
      HeaderLinesCons(headers, []);
    } else {
      HeaderLinesAppend(headers, order[1..], key);
      assert (order + [key])[1..] == order[1..] + [key];
    }
  }

  // ----- Parsing -----

  datatype Parsed = Parsed(name: Option<string>, actionId: Option<string>, headers: map<string, string>)

  const NOTHING := Parsed(None, None, map[])

  /** What one line adds. */
  function AddLine(p: Parsed, line: string): Parsed {
    match Find(line, ':')
    case None => p
    case Some(i) =>
      var key, value := Trim(line[..i]), Trim(line[i + 1..]);
      Parsed(if SameIgnoringCase(key, ACTION) then Some(value) else p.name,
             if SameIgnoringCase(key, ACTION_ID) then Some(value) else p.actionId,
             p.headers[key := value])
  }

  function ParseLines(s: string, p: Parsed): Parsed
    decreases |s|
  {
    if s == [] then p
    else
      var line := TrimReturns(CutLine(s).0);
      if line == "" then p else ParseLines(CutLine(s).1, AddLine(p, line))
  }

  function Finish(p: Parsed): Option<Action> {
    match p.name
    case None => None
    case Some(name) => Some(Action(name, p.actionId, p.headers))
  }

  /** `parse` */
  method Parse(input: string) returns (r: Option<Action>)
    ensures r == Finish(ParseLines(input, NOTHING))
  {
    var name: Option<string>, actionId: Option<string>, headers := None, None, map[];
    var rest := input;
    while rest != []
      invariant ParseLines(rest, Parsed(name, actionId, headers)) == ParseLines(input, NOTHING)
      decreases |rest|
    {
      var (cut, more) := CutLine(rest);
      var line := TrimReturns(cut);
      if line == "" {
        break;
      }
      rest := more;
      match Find(line, ':')
      case None =>
      case Some(i) =>
        var key, value := Trim(line[..i]), Trim(line[i + 1..]);
        if SameIgnoringCase(key, "Action") {
          name := Some(value);
        }
        if SameIgnoringCase(key, "ActionID") {
          actionId := Some(value);
        }
        headers := headers[key := value];
    }
    match name
    case None => return None;
    case Some(n) => return Some(Action(n, actionId, headers));
  }

  // ----- What a received text means -----

  ghost predicate AllWhite(s: string) { forall i :: 0 <= i < |s| ==> IsWhite(s[i]) }

  /** No white space at either end. */
  predicate Tight(s: string) { s == [] || (!IsWhite(s[0]) && !IsWhite(s[|s| - 1])) }

  lemma {:induction false} TrimStartStrips(pre: string, s: string)
    requires AllWhite(pre) && (s == [] || !IsWhite(s[0]))
    ensures TrimStart(pre + s) == s
  {
    if pre == [] {
      assert pre + s == s;
    } else {
      TrimStartStrips(pre[1..], s);
      assert (pre + s)[1..] == pre[1..] + s;
    }
  }

  lemma {:induction false} TrimEndStrips(s: string, post: string)
    requires AllWhite(post) && (s == [] || !IsWhite(s[|s| - 1]))
    ensures TrimEnd(s + post) == s
  {
    if post == [] {
      assert s + post == s;
    } else {
      var n := |post| - 1;
      TrimEndStrips(s, post[..n]);
      assert (s + post)[..|s + post| - 1] == s + post[..n];
    }
  }

  /** Trimming takes exactly the white space around a text. */
  lemma {:induction false} TrimStrips(pre: string, s: string, post: string)
    requires AllWhite(pre) && AllWhite(post) && Tight(s)
    ensures Trim(pre + s + post) == s
  {
    hide TrimStart, TrimEnd;
    assert pre + s + post == pre + (s + post);
    if s != [] {
      TrimStartStrips(pre, s + post);
      TrimEndStrips(s, post);
    } else {
      assert pre + s + post == (pre + post) + [];
      assert AllWhite(pre + post);
      TrimStartStrips(pre + post, []);
      TrimEndStrips([], []);
      assert [] + [] == s;
    }
  }

  /** A header line may be padded around its key and its value; a line without a colon says
      nothing. */
  lemma {:induction false} PaddedLine(p: Parsed, pads: (string, string, string, string), key: string, value: string)
    requires AllWhite(pads.0) && AllWhite(pads.1) && AllWhite(pads.2) && AllWhite(pads.3)
    requires Tight(key) && Tight(value) && ':' !in key
    ensures AddLine(p, pads.0 + key + pads.1 + ":" + (pads.2 + value + pads.3)) ==
            Parsed(if SameIgnoringCase(key, ACTION) then Some(value) else p.name,
                   if SameIgnoringCase(key, ACTION_ID) then Some(value) else p.actionId, p.headers[key := value])
    ensures ':' !in value ==> AddLine(p, pads.0 + value) == p
  {
    var left, right := pads.0 + key + pads.1, pads.2 + value + pads.3;
    var line := left + ":" + right;
    TrimStrips(pads.0, key, pads.1);
    TrimStrips(pads.2, value, pads.3);
    hide Trim, SameIgnoringCase;
    assert ':' !in left;
    assert line[|left|] == ':' && line[..|left|] == left && line[|left| + 1..] == right;
    FindFirst(left, ':', right);
    assert left + [':'] + right == line;
  }

  /** The lines `parse` looks at: up to the first empty one, without their line ends. */
  function LinesOf(s: string): seq<string>
    decreases |s|
  {
    if s == [] then []
    else
      var line := TrimReturns(CutLine(s).0);
      if line == "" then [] else [line] + LinesOf(CutLine(s).1)
  }

  function AddLines(p: Parsed, lines: seq<string>): Parsed
    decreases |lines|
  {
    if lines == [] then p else AddLines(AddLine(p, lines[0]), lines[1..])
  }

  lemma {:induction false} ParseIsFold(s: string, p: Parsed)
    ensures ParseLines(s, p) == AddLines(p, LinesOf(s))
    decreases |s|
  {
    if s != [] {
      hide AddLine, TrimReturns, CutLine;
      var line := TrimReturns(CutLine(s).0);
      if line != "" {
        ParseIsFold(CutLine(s).1, AddLine(p, line));
        assert ([line] + LinesOf(CutLine(s).1))[1..] == LinesOf(CutLine(s).1);
      }
    }
  }

  lemma {:induction false} TrimReturnsStrips(line: string, ends: string)
    requires (line == [] || line[|line| - 1] != '\r') && forall i :: 0 <= i < |ends| ==> ends[i] == '\r'
    ensures TrimReturns(line + ends) == line
  {
    if ends == [] {
      assert line + ends == line;
    } else {
      var n := |ends| - 1;
      TrimReturnsStrips(line, ends[..n]);
      assert (line + ends)[..|line + ends| - 1] == line + ends[..n];
    }
  }

  /** Lines end with a line feed and any number of carriage returns before it, or with the text;
      the first empty one ends the headers. */
  lemma {:induction false} LinesAre(line: string, ends: string, more: string)
    requires '\n' !in line && (line == [] || line[|line| - 1] != '\r')
    requires forall i :: 0 <= i < |ends| ==> ends[i] == '\r'
    ensures LinesOf(line + ends + "\n" + more) == if line == "" then [] else [line] + LinesOf(more)
    ensures LinesOf(line + ends) == if line == "" then [] else [line]
  {
    var cut := line + ends;
    TrimReturnsStrips(line, ends);
    hide TrimReturns;
    assert '\n' !in cut;
    FindFirst(cut, '\n', more);
    var s := cut + ['\n'] + more;
    assert cut + "\n" + more == s;
    assert s[..|cut|] == cut && s[|cut| + 1..] == more;
    assert CutLine(s) == (cut, more);
    if cut != [] {
      assert CutLine(cut) == (cut, []);
      assert LinesOf([]) == [];
    }
  }

  /** The white space of Unicode, code point by code point. */
  lemma WhiteSpace(c: char)
    ensures IsWhite(c) <==>
            c as int in {0x09, 0x0A, 0x0B, 0x0C, 0x0D, 0x20, 0x85, 0xA0, 0x1680, 0x2000, 0x2001, 0x2002, 0x2003, 0x2004,
                         0x2005, 0x2006, 0x2007, 0x2008, 0x2009, 0x200A, 0x2028, 0x2029, 0x202F, 0x205F, 0x3000}
  {
  }

  /** What a line gives the action as its name, if it does. */
  function NameIn(line: string): Option<string> {
    match Find(line, ':')
    case None => None
    case Some(i) => if SameIgnoringCase(Trim(line[..i]), "action") then Some(Trim(line[i + 1..])) else None
  }

  /** Line `i` is the last that names the action. */
  ghost predicate NamesLast(lines: seq<string>, i: nat) {
    i < |lines| && NameIn(lines[i]).Some? && forall j :: i < j < |lines| ==> NameIn(lines[j]).None?
  }

  lemma LineNames(p: Parsed, line: string)
    ensures AddLine(p, line).name == if NameIn(line).Some? then NameIn(line) else p.name
  {
    hide Trim, Find;
    if Find(line, ':').Some? {
      CaseOfAction(Trim(line[..Find(line, ':').value]));
      hide SameIgnoringCase;
    }
  }

  lemma CaseOfAction(key: string)
    ensures SameIgnoringCase(key, ACTION) <==> SameIgnoringCase(key, "action")
  {
    assert |ACTION| == |"action"| && forall i :: 0 <= i < 6 ==> AsciiLower(ACTION[i]) == AsciiLower("action"[i]);
  }

  lemma {:induction false} NameOfLines(p: Parsed, lines: seq<string>)
    ensures AddLines(p, lines).name.Some? <==> p.name.Some? || exists i :: 0 <= i < |lines| && NameIn(lines[i]).Some?
    ensures forall i: nat :: NamesLast(lines, i) ==> AddLines(p, lines).name == NameIn(lines[i])
    ensures (forall i :: 0 <= i < |lines| ==> NameIn(lines[i]).None?) ==> AddLines(p, lines).name == p.name
    decreases |lines|
  {
    if lines != [] {
      var q, rest := AddLine(p, lines[0]), lines[1..];
      NameOfLines(q, rest);
      LineNames(p, lines[0]);
      hide NameIn, AddLine;
      forall i: nat | NamesLast(lines, i)
        ensures AddLines(p, lines).name == NameIn(lines[i])
      {
        if i > 0 {
          assert NamesLast(rest, i - 1);
        }
      }
    }
  }

  /** A text parses if and only if one of its header lines names an action, and the last that
      does gives the name. */
  lemma {:induction false} ParsesExactly(input: string)
    ensures Finish(ParseLines(input, NOTHING)).Some? <==>
            exists i :: 0 <= i < |LinesOf(input)| && NameIn(LinesOf(input)[i]).Some?
    ensures forall i: nat :: NamesLast(LinesOf(input), i) ==>
              Finish(ParseLines(input, NOTHING)).Some?
              && Some(Finish(ParseLines(input, NOTHING)).value.name) == NameIn(LinesOf(input)[i])
  {
    ParseIsFold(input, NOTHING);
    NameOfLines(NOTHING, LinesOf(input));
    hide NameIn, ParseLines, AddLines, LinesOf;
  }

  // ----- Round trip -----

  /** A field that survives a header line: on one line, and already trimmed. */
  ghost predicate Clean(s: string) {
    && '\r' !in s && '\n' !in s
    && (s != [] ==> !IsWhite(s[0]) && !IsWhite(s[|s| - 1]))
  }

  ghost predicate CleanKey(s: string) { Clean(s) && ':' !in s }

  /** Fields a client may pass to `set_header`: clean, and one spelling of ActionID. */
  ghost predicate CleanFields(fields: seq<(string, string)>) {
    && (forall i :: 0 <= i < |fields| ==> CleanKey(fields[i].0) && Clean(fields[i].1))
    && (forall i, j :: 0 <= i < |fields| && 0 <= j < |fields|
          && SameIgnoringCase(fields[i].0, ACTION_ID) && SameIgnoringCase(fields[j].0, ACTION_ID)
          ==> fields[i].0 == fields[j].0)
  }

  /** The action id is the value stored under the only spelling of ActionID. */
  ghost predicate IdAgrees(id: Option<string>, headers: map<string, string>) {
    && (id.None? ==> forall k :: k in headers ==> !SpellsId(k))
    && (id.Some? ==> forall k :: k in headers && SpellsId(k) ==> headers[k] == id.value)
    && (id.Some? ==> exists k :: k in headers && SpellsId(k))
  }

  ghost predicate CleanAction(a: Action) {
    && Clean(a.name)
    && (forall k :: k in a.headers ==> CleanKey(k) && Clean(a.headers[k]))
  }

  ghost predicate Sendable(a: Action) {
    CleanAction(a) && IdAgrees(a.actionId, a.headers)
  }

  /** Actions built from clean fields can be sent. */
  lemma {:induction false} BuildIsSendable(name: string, fields: seq<(string, string)>)
    requires Clean(name) && CleanFields(fields)
    ensures Sendable(Build(name, fields))
    ensures Build(name, fields).name == name
    ensures forall k :: k in Build(name, fields).headers ==> exists i :: 0 <= i < |fields| && fields[i].0 == k
  {
    if fields != [] {
      var n := |fields| - 1;
      BuildIsSendable(name, fields[..n]);
      var a, key, value := Build(name, fields[..n]), fields[n].0, fields[n].1;
      assert CleanKey(key) && Clean(value);
      forall k | k in a.headers
        ensures exists i :: 0 <= i < |fields| && fields[i].0 == k
        ensures SameIgnoringCase(k, ACTION_ID) && SameIgnoringCase(key, ACTION_ID) ==> k == key
      {
        var i :| 0 <= i < n && fields[..n][i].0 == k;
        assert fields[i].0 == k;
      }
      BuildStep(a, key, value);
    }
  }

  lemma BuildStep(a: Action, key: string, value: string)
    requires Sendable(a) && CleanKey(key) && Clean(value)
    requires forall k :: k in a.headers && SameIgnoringCase(k, ACTION_ID) && SameIgnoringCase(key, ACTION_ID) ==>
               k == key
    ensures Sendable(SetHeader(a, key, value))
  {
    var b := SetHeader(a, key, value);
    assert key in b.headers;
    if !SameIgnoringCase(key, ACTION_ID) && b.actionId.Some? {
      var k :| k in a.headers && SpellsId(k);
      assert k in b.headers;
    }
  }

  /** What a receiver gets back: the action line is one of the headers, and no other
      spelling of Action is. */
  function Received(a: Action): Action {
    Action(a.name, a.actionId,
           (map k | k in a.headers && !SameIgnoringCase(k, ACTION) :: a.headers[k])[ACTION := a.name])
  }

  lemma {:induction false} TrimSpace(v: string)
    requires Clean(v)
    ensures Trim(v) == v && Trim(" " + v) == v
  {
    assert (" " + v)[1..] == v;
  }

  lemma TrimReturnsClean(s: string)
    requires '\r' !in s
    ensures TrimReturns(s) == s && TrimReturns(s + "\r") == s
  {
    assert (s + "\r")[..|s|] == s;
    assert s != [] ==> s[|s| - 1] in s;
  }

  lemma {:induction false} FindFirst(a: string, c: char, b: string)
    requires c !in a
    ensures Find(a + [c] + b, c) == Some(|a|)
  {
    if a == [] {
      assert a + [c] + b == [c] + b;
    } else {
      assert (a + [c] + b)[1..] == a[1..] + [c] + b;
      FindFirst(a[1..], c, b);
    }
  }

  /** Reading one header line back. */
  lemma {:induction false} ParseHeaderLine(key: string, value: string, rest: string, p: Parsed)
    requires CleanKey(key) && Clean(value)
    ensures ParseLines(HeaderLine(key, value) + rest, p) ==
            ParseLines(rest, Parsed(
              if SameIgnoringCase(key, ACTION) then Some(value) else p.name,
              if SameIgnoringCase(key, ACTION_ID) then Some(value) else p.actionId,
              p.headers[key := value]))
  {
    hide Find, TrimReturns, Trim, SameIgnoringCase;
    var line := key + ": " + value;
    var s := HeaderLine(key, value) + rest;
    assert s == (line + "\r") + ['\n'] + rest;
    assert '\n' !in line + "\r";
    FindFirst(line + "\r", '\n', rest);
    assert s[..|line| + 1] == line + "\r";
    assert s[|line| + 2..] == rest;
    assert CutLine(s) == (line + "\r", rest);
    assert '\r' !in line;
    TrimReturnsClean(line);
    assert line == key + [':'] + (" " + value);
    FindFirst(key, ':', " " + value);
    assert line[..|key|] == key && line[|key| + 1..] == " " + value;
    TrimSpace(key);
    TrimSpace(value);
    assert line[|key|] == ':' && line != "";
  }

  lemma {:induction false} ParseBlankLine(p: Parsed)
    ensures ParseLines(CRLF, p) == p
  {
    assert CRLF == "\r" + ['\n'] + "";
    FindFirst("\r", '\n', "");
    TrimReturnsClean("");
    assert "" + "\r" == "\r";
    assert CRLF[..1] == "\r" && CRLF[2..] == "";
  }

  /** Reading the header lines back in any order rebuilds the map they came from. */
  lemma {:induction false} ParseHeaderLines(headers: map<string, string>, order: seq<string>, p: Parsed)
    requires forall k :: k in order ==> k in headers && CleanKey(k) && Clean(headers[k])
    ensures ParseLines(HeaderLines(headers, order) + CRLF, p) == AddHeaders(headers, order, p)
    decreases |order|
  {
    if order == [] {
      ParseBlankLine(p);
      assert HeaderLines(headers, order) + CRLF == CRLF;
    } else {
      var key, more := order[0], HeaderLines(headers, order[1..]);
      if SameIgnoringCase(key, ACTION) {
        assert HeaderLines(headers, order) == more;
        ParseHeaderLines(headers, order[1..], p);
      } else {
        assert HeaderLines(headers, order) + CRLF == HeaderLine(key, headers[key]) + (more + CRLF);
        ParseHeaderLine(key, headers[key], more + CRLF, p);
        ParseHeaderLines(headers, order[1..], AddHeader(headers, key, p));
      }
    }
  }

  ghost function AddHeader(headers: map<string, string>, key: string, p: Parsed): Parsed
    requires key in headers
  {
    if SameIgnoringCase(key, ACTION) then p
    else Parsed(p.name,
                if SameIgnoringCase(key, ACTION_ID) then Some(headers[key]) else p.actionId,
                p.headers[key := headers[key]])
  }

  ghost function AddHeaders(headers: map<string, string>, order: seq<string>, p: Parsed): Parsed
    requires forall k :: k in order ==> k in headers
  {
    if order == [] then p else AddHeaders(headers, order[1..], AddHeader(headers, order[0], p))
  }

  /** The headers read back do not depend on their order. */
  lemma {:induction false} AddHeadersMap(headers: map<string, string>, order: seq<string>, p: Parsed)
    requires forall k :: k in order ==> k in headers
    ensures AddHeaders(headers, order, p).name == p.name
    ensures AddHeaders(headers, order, p).headers == p.headers + Kept(headers, order)
    decreases |order|
  {
    hide SameIgnoringCase, AddHeader, Kept;
    if order == [] {
      NothingKept(headers, p);
    } else {
      AddHeadersMap(headers, order[1..], AddHeader(headers, order[0], p));
      KeptCons(headers, order, p);
    }
  }

  lemma NothingKept(headers: map<string, string>, p: Parsed)
    ensures p.headers + Kept(headers, []) == p.headers
  {
  }

  lemma KeptCons(headers: map<string, string>, order: seq<string>, p: Parsed)
    requires order != [] && forall k :: k in order ==> k in headers
    ensures AddHeader(headers, order[0], p).name == p.name
    ensures p.headers + Kept(headers, order) == AddHeader(headers, order[0], p).headers + Kept(headers, order[1..])
  {
    hide SameIgnoringCase;
    assert forall k :: k in order <==> k == order[0] || k in order[1..];
  }

  ghost predicate SpellsId(key: string) {
    SameIgnoringCase(key, ACTION_ID)
  }

  /** Nor does the action id, when all spellings of ActionID carry the same value. */
  lemma {:induction false} AddHeadersId(headers: map<string, string>, order: seq<string>, p: Parsed, id: string)
    requires forall k :: k in order ==> k in headers
    requires forall k :: k in order && SpellsId(k) ==> headers[k] == id
    ensures AddHeaders(headers, order, p).actionId ==
            if exists k :: k in order && SpellsId(k) then Some(id) else p.actionId
    decreases |order|
  {
    if order != [] {
      ActionIsNotActionId(order[0]);
      hide SameIgnoringCase;
      var key, rest := order[0], order[1..];
      assert forall k :: k in order <==> k == key || k in rest;
      AddHeadersId(headers, rest, AddHeader(headers, key, p), id);
      assert SpellsId(key) <==> SameIgnoringCase(key, ACTION_ID);
    }
  }

  lemma ActionIsNotActionId(key: string)
    ensures SameIgnoringCase(key, ACTION) ==> !SameIgnoringCase(key, ACTION_ID)
  {
  }

  /** Headers printed as lines of their own. */
  ghost function Kept(headers: map<string, string>, order: seq<string>): map<string, string>
    requires forall k :: k in order ==> k in headers
  {
    map k | k in order && !SameIgnoringCase(k, ACTION) :: headers[k]
  }

  lemma ActionIsCleanKey()
    ensures CleanKey(ACTION) && SameIgnoringCase(ACTION, ACTION) && !SameIgnoringCase(ACTION, ACTION_ID)
  {
  }

  /** What is left of a printed action once its action line is read. */
  ghost function AfterActionLine(a: Action): Parsed {
    Parsed(Some(a.name), None, map[ACTION := a.name])
  }

  lemma {:induction false} ReadBack(a: Action, order: seq<string>)
    requires CleanAction(a) && IsOrder(order, a.headers)
    ensures ParseLines(Print(a, order), NOTHING) == AddHeaders(a.headers, order, AfterActionLine(a))
  {
    ActionIsCleanKey();
    hide SameIgnoringCase, ParseLines, HeaderLines, HeaderLine, AddHeaders, CleanKey, Clean, IdAgrees;
    var body := HeaderLines(a.headers, order) + CRLF;
    assert Print(a, order) == HeaderLine(ACTION, a.name) + body;
    ParseHeaderLine(ACTION, a.name, body, NOTHING);
    assert NOTHING.headers[ACTION := a.name] == map[ACTION := a.name];
    ParseHeaderLines(a.headers, order, AfterActionLine(a));
  }

  /** Round trip: whatever order the header map is visited in, parsing the printed form
      gives back the same name, the same action id, and the same headers with the action
      line among them. */
  lemma {:induction false} RoundTrip(a: Action, order: seq<string>)
    requires Sendable(a) && IsOrder(order, a.headers)
    ensures Finish(ParseLines(Print(a, order), NOTHING)) == Some(Received(a))
  {
    ActionIsCleanKey();
    hide SameIgnoringCase, ParseLines, Print, AddHeaders, CleanKey, Clean, SpellsId;
    var p := AfterActionLine(a);
    ReadBack(a, order);
    AddHeadersMap(a.headers, order, p);
    assert p.headers + Kept(a.headers, order) == Received(a).headers;
    AddHeadersId(a.headers, order, p, if a.actionId.Some? then a.actionId.value else "");
  }

  /** The action id survives every header order exactly when it agrees with the headers:
      with two spellings of ActionID that differ in value, some order loses it. */
  lemma {:induction false} IdSurvivesExactly(a: Action)
    requires CleanAction(a)
    ensures (forall order :: IsOrder(order, a.headers) ==>
               ParseLines(Print(a, order), NOTHING).actionId == a.actionId)
            <==> IdAgrees(a.actionId, a.headers)
  {
    hide ParseLines, Print, AddHeaders, CleanAction, SpellsId;
    if IdAgrees(a.actionId, a.headers) {
      forall order | IsOrder(order, a.headers)
        ensures ParseLines(Print(a, order), NOTHING).actionId == a.actionId
      {
        ReadBack(a, order);
        AddHeadersId(a.headers, order, AfterActionLine(a), if a.actionId.Some? then a.actionId.value else "");
      }
    } else {
      if k :| k in a.headers && SpellsId(k) && a.actionId != Some(a.headers[k]) {
        var others := SomeOrder(a.headers.Keys - {k});
        var order := others + [k];
        OrderEndingIn(a.headers, others, k);
        ReadBack(a, order);
        AddHeadersLast(a.headers, others, k, AfterActionLine(a));
      } else {
        var order := SomeOrder(a.headers.Keys);
        assert IsOrder(order, a.headers);
        ReadBack(a, order);
        assert a.actionId.Some? && forall k :: k in a.headers ==> !SpellsId(k);
        AddHeadersId(a.headers, order, AfterActionLine(a), "");
      }
    }
  }

  lemma OrderEndingIn(headers: map<string, string>, others: seq<string>, k: string)
    requires k in headers
    requires forall x :: x in others <==> x in headers.Keys - {k}
    requires forall i, j :: 0 <= i < j < |others| ==> others[i] != others[j]
    ensures IsOrder(others + [k], headers)
  {
    assert k !in others;
  }

  /** Some way of visiting a finite set. */
  lemma {:induction false} SomeOrder(keys: set<string>) returns (order: seq<string>)
    ensures forall k :: k in order <==> k in keys
    ensures forall i, j :: 0 <= i < j < |order| ==> order[i] != order[j]
  {
    if keys == {} {
      order := [];
    } else {
      var k :| k in keys;
      var rest := SomeOrder(keys - {k});
      order := rest + [k];
      assert k !in rest;
    }
  }

  lemma {:induction false} AddHeadersLast(headers: map<string, string>, others: seq<string>, key: string, p: Parsed)
    requires forall k :: k in others ==> k in headers
    requires key in headers && SpellsId(key)
    ensures forall k :: k in others + [key] ==> k in headers
    ensures AddHeaders(headers, others + [key], p).actionId == Some(headers[key])
    decreases |others|
  {
    if others == [] {
      ActionIsNotActionId(key);
      hide SameIgnoringCase;
      assert others + [key] == [key];
      assert AddHeaders(headers, [key][1..], AddHeader(headers, key, p)) == AddHeader(headers, key, p);
    } else {
      hide SameIgnoringCase;
      assert (others + [key])[1..] == others[1..] + [key];
      AddHeadersLast(headers, others[1..], key, AddHeader(headers, others[0], p));
    }
  }

  /** The same, for actions as clients make them. */
  lemma {:induction false} BuiltRoundTrip(name: string, fields: seq<(string, string)>, order: seq<string>)
    requires Clean(name) && CleanFields(fields)
    requires IsOrder(order, Build(name, fields).headers)
    ensures Finish(ParseLines(Print(Build(name, fields), order), NOTHING)) == Some(Received(Build(name, fields)))
  {
    BuildIsSendable(name, fields);
    RoundTrip(Build(name, fields), order);
  }

  // ----- Printed actions on a stream -----

  /** A header line keeps a buffer without terminator that way. */
  lemma {:induction false} HeaderLineKeepsOpen(buffer: string, key: string, value: string)
    requires ReadMessage(buffer, BLANK) == None
    requires Clean(key) && Clean(value)
    ensures ReadMessage(buffer + HeaderLine(key, value), BLANK) == None
  {
    var chunk := HeaderLine(key, value);
    HeaderLineIsChunk(buffer, key, value);
    hide ReadMessage, HeaderLine, Clean;
    TerminatorEndsBuffer(buffer, chunk, BLANK);
    ReadMessageIsFirst(buffer + chunk, BLANK, 0);
  }

  /** A header line has one line feed, at its end, and no blank line there. */
  lemma {:induction false} HeaderLineIsChunk(buffer: string, key: string, value: string)
    requires Clean(key) && Clean(value)
    ensures var chunk := HeaderLine(key, value);
            LineChunk(chunk, '\n') && |chunk| >= 4 && !OccursAt(buffer + chunk, BLANK, |buffer + chunk| - 4)
  {
    var line := key + ": " + value;
    var chunk := HeaderLine(key, value);
    assert chunk == line + CRLF;
    forall i | 0 <= i < |chunk| - 1
      ensures chunk[i] != '\n'
    {
      assert i < |line| ==> chunk[i] == line[i] && line[i] in line;
    }
    var s := buffer + chunk;
    assert s[|s| - 4..|s|][1] == s[|s| - 3] == chunk[|chunk| - 3];
  }

  lemma {:induction false} HeaderLinesKeepOpen(buffer: string, headers: map<string, string>, order: seq<string>)
    requires ReadMessage(buffer, BLANK) == None
    requires forall k :: k in order ==> k in headers && Clean(k) && Clean(headers[k])
    ensures ReadMessage(buffer + HeaderLines(headers, order), BLANK) == None
    decreases |order|
  {
    hide HeaderLines, HeaderLine, SameIgnoringCase, ReadMessage, Clean;
    HeaderLinesCons(headers, order);
    if order == [] {
      assert buffer + "" == buffer;
    } else if SameIgnoringCase(order[0], ACTION) {
      assert "" + HeaderLines(headers, order[1..]) == HeaderLines(headers, order[1..]);
      HeaderLinesKeepOpen(buffer, headers, order[1..]);
    } else {
      var line := HeaderLine(order[0], headers[order[0]]);
      HeaderLineKeepsOpen(buffer, order[0], headers[order[0]]);
      HeaderLinesKeepOpen(buffer + line, headers, order[1..]);
      assert buffer + HeaderLines(headers, order) == buffer + line + HeaderLines(headers, order[1..]);
    }
  }

  ghost predicate EndsInCrlf(s: string) {
    |s| >= 2 && s[|s| - 2] == '\r' && s[|s| - 1] == '\n'
  }

  lemma LineEnds(buffer: string, key: string, value: string)
    ensures EndsInCrlf(buffer + HeaderLine(key, value))
  {
  }

  lemma {:induction false} HeaderLinesEnd(buffer: string, headers: map<string, string>, order: seq<string>)
    requires EndsInCrlf(buffer)
    requires forall k :: k in order ==> k in headers
    ensures EndsInCrlf(buffer + HeaderLines(headers, order))
    decreases |order|
  {
    hide HeaderLines, HeaderLine, SameIgnoringCase, EndsInCrlf;
    HeaderLinesCons(headers, order);
    if order == [] {
      assert buffer + "" == buffer;
    } else if SameIgnoringCase(order[0], ACTION) {
      assert "" + HeaderLines(headers, order[1..]) == HeaderLines(headers, order[1..]);
      HeaderLinesEnd(buffer, headers, order[1..]);
    } else {
      var line := HeaderLine(order[0], headers[order[0]]);
      LineEnds(buffer, order[0], headers[order[0]]);
      HeaderLinesEnd(buffer + line, headers, order[1..]);
      assert buffer + HeaderLines(headers, order) == buffer + line + HeaderLines(headers, order[1..]);
    }
  }

  lemma HeaderLineEnd(key: string, value: string)
    ensures EndsInCrlf(HeaderLine(key, value))
  {
  }

  lemma EmptyIsOpen()
    ensures ReadMessage("", BLANK) == None
  {
  }

  /** A printed action is exactly one message. */
  lemma {:induction false} PrintIsOneMessage(a: Action, order: seq<string>)
    requires Sendable(a) && IsOrder(order, a.headers)
    ensures ReadMessage(Print(a, order), BLANK) == Some(|Print(a, order)|)
  {
    ActionIsCleanKey();
    hide HeaderLines, HeaderLine, ReadMessage, Clean, IdAgrees;
    var head := HeaderLine(ACTION, a.name);
    var open := head + HeaderLines(a.headers, order);
    assert "" + head == head;
    EmptyIsOpen();
    HeaderLineKeepsOpen("", ACTION, a.name);
    HeaderLinesKeepOpen(head, a.headers, order);
    HeaderLineEnd(ACTION, a.name);
    HeaderLinesEnd(head, a.headers, order);
    BlankLineCloses(open);
  }

  lemma {:induction false} BlankLineCloses(open: string)
    requires ReadMessage(open, BLANK) == None && EndsInCrlf(open)
    ensures ReadMessage(open + CRLF, BLANK) == Some(|open| + 2)
  {
    hide ReadMessage;
    var s := open + CRLF;
    TerminatorEndsBuffer(open, CRLF, BLANK);
    assert s[|s| - 4..|s|] == BLANK;
    ReadMessageIsFirst(s, BLANK, |s| - 4);
  }

  /** Any number of actions printed back to back, each in any header order, is framed
      and parsed back as exactly those actions. */
  lemma {:induction false} StreamRoundTrip(actions: seq<Action>, orders: seq<seq<string>>, texts: seq<string>)
    requires |actions| == |orders| == |texts|
    requires forall i :: 0 <= i < |actions| ==>
               && Sendable(actions[i]) && IsOrder(orders[i], actions[i].headers)
               && texts[i] == Print(actions[i], orders[i])
    ensures Frames(Flatten(texts), BLANK) == texts
    ensures Rest(Flatten(texts), BLANK) == ""
    ensures forall i :: 0 <= i < |texts| ==> Finish(ParseLines(texts[i], NOTHING)) == Some(Received(actions[i]))
  {
    forall i | 0 <= i < |texts|
      ensures ReadMessage(texts[i], BLANK) == Some(|texts[i]|)
      ensures Finish(ParseLines(texts[i], NOTHING)) == Some(Received(actions[i]))
    {
      PrintIsOneMessage(actions[i], orders[i]);
      RoundTrip(actions[i], orders[i]);
    }
    FramesOfMessages(texts, BLANK);
  }
}
