/** The Dial() option scanner (dial.rs, `DialOptions::parse`): letters with optional
    parenthesised arguments, nested to any depth. */
module DialOptions {
  import opened Common
  import Framing

  datatype Opt = Opt(letter: char, arg: Option<string>)

  /** What an open argument takes from the input: its text, what follows, and whether its
      closing parenthesis was found. */
  datatype Taken = Taken(arg: string, rest: string, closed: bool)

  /** The depth-counting loop, from `depth` open parentheses. */
  function ScanArg(s: string, depth: nat): (t: Taken)
    requires depth > 0
    ensures |t.rest| <= |s| && (t.closed ==> |t.rest| < |s|)
  {
    if s == [] then Taken("", "", false)
    else if s[0] == ')' && depth == 1 then Taken("", s[1..], true)
    else
      var d := if s[0] == '(' then depth + 1 else if s[0] == ')' then depth - 1 else depth;
      var t := ScanArg(s[1..], d);
      Taken([s[0]] + t.arg, t.rest, t.closed)
  }

  predicate HasArg(s: string) {
    |s| > 1 && s[1] == '('
  }

  /** The options in a string, in order. */
  function Scan(s: string): (opts: seq<Opt>)
    ensures s != [] ==> opts != [] && opts[0].letter == s[0]
    decreases |s|
  {
    if s == [] then []
    else if HasArg(s) then
      var t := ScanArg(s[2..], 1);
      [Opt(s[0], Some(t.arg))] + Scan(t.rest)
    else
      [Opt(s[0], None)] + Scan(s[1..])
  }

  /** Every argument in the string is closed. */
  predicate Complete(s: string)
    decreases |s|
  {
    if s == [] then true
    else if HasArg(s) then
      var t := ScanArg(s[2..], 1);
      t.closed && Complete(t.rest)
    else
      Complete(s[1..])
  }

  lemma {:induction false} ScanStep(s: string)
    requires s != []
    ensures HasArg(s) ==>
              var t := ScanArg(s[2..], 1);
              && Scan(s) == [Opt(s[0], Some(t.arg))] + Scan(t.rest)
              && (Complete(s) <==> t.closed && Complete(t.rest))
    ensures !HasArg(s) ==>
              && Scan(s) == [Opt(s[0], None)] + Scan(s[1..])
              && (Complete(s) <==> Complete(s[1..]))
  {
    hide ScanArg;
  }

  function Fold<T>(apply: (T, Opt) -> T, init: T, opts: seq<Opt>): T {
    if opts == [] then init else Fold(apply, apply(init, opts[0]), opts[1..])
  }

  /** The inner loop of `parse`: collects an argument after its opening parenthesis. */
  method TakeArg(s: string) returns (text: string, rest: string)
    ensures text == ScanArg(s, 1).arg && rest == ScanArg(s, 1).rest
  {
    var depth := 1;
    text, rest := "", s;
    while rest != []
      invariant depth > 0
      invariant var t := ScanArg(rest, depth);
                ScanArg(s, 1) == Taken(text + t.arg, t.rest, t.closed)
      decreases |rest|
    {
      var c := rest[0];
      ghost var more := ScanArg(rest, depth).arg;
      rest := rest[1..];
      if c == '(' {
        depth := depth + 1;
      } else if c == ')' {
        depth := depth - 1;
        if depth == 0 {
          break;
        }
      }
      assert more == [c] + more[1..];
      assert text + more == (text + [c]) + more[1..];
      text := text + [c];
    }
  }

  // ----- What each letter does -----

  /** What a letter can do: switch something on, keep its argument, keep a dialplan location, a
      call limit or a duration, keep its argument or an empty one, or keep a non-empty
      argument and switch a default on otherwise. */
  datatype Kind = Switch | Text | Location | Limit | Seconds | TextOrEmpty | TextOrSwitch | Unknown

  function KindOf(letter: char): Kind {
    match letter
    case 'b' => Location case 'B' => Location case 'G' => Location case 'U' => Location
    case 'D' => Text case 'A' => Text case 'Q' => Text case 's' => Text case 'u' => Text
    case 'L' => Limit
    case 'S' => Seconds
    case 'n' => TextOrEmpty case 'O' => TextOrEmpty case 'P' => TextOrEmpty
    case 'F' => TextOrSwitch case 'f' => TextOrSwitch case 'm' => TextOrSwitch
    case 'o' => TextOrSwitch case 'r' => TextOrSwitch
    case _ => if letter in SWITCHES then Switch else Unknown
  }

  const SWITCHES: string := "gcCdhHiIkKwWxXaeEjNpRtTz"

  /** Which texts the parsers of call limits and of durations take. */
  datatype Readers = Readers(limit: string -> bool, seconds: string -> bool)

  /** The options: the letters whose switch is on, and the text behind each letter whose field
      holds a value. */
  datatype Options = Options(switches: set<char>, texts: map<char, string>)

  const DEFAULT: Options := Options({}, map[])

  /** Whether an option switches its letter on. */
  predicate SwitchesOn(o: Opt) {
    match KindOf(o.letter)
    case Switch => true
    case TextOrSwitch => o.arg.None? || o.arg.value == ""
    case _ => false
  }

  /** What an option assigns to its letter's field, if it assigns anything. */
  function Assigns(readers: Readers, o: Opt): Option<Option<string>> {
    match KindOf(o.letter)
    case Text => Some(o.arg)
    case Location => Some(if o.arg.Some? && o.arg.value != "" then o.arg else None)
    case Limit => Some(if o.arg.Some? && readers.limit(o.arg.value) then o.arg else None)
    case Seconds => if o.arg.Some? && readers.seconds(o.arg.value) then Some(o.arg) else None
    case TextOrEmpty => Some(Some(if o.arg.Some? then o.arg.value else ""))
    case TextOrSwitch => if o.arg.Some? && o.arg.value != "" then Some(o.arg) else None
    case _ => None
  }

  function Update(readers: Readers, options: Options, o: Opt): Options {
    Options(if SwitchesOn(o) then options.switches + {o.letter} else options.switches,
            match Assigns(readers, o)
            case None => options.texts
            case Some(None) => options.texts - {o.letter}
            case Some(Some(text)) => options.texts[o.letter := text])
  }

  function UpdateBy(readers: Readers): (Options, Opt) -> Options {
    (options, o) => Update(readers, options, o)
  }

  /** The options a list of them stands for. */
  function Meaning(readers: Readers, opts: seq<Opt>): Options { Fold(UpdateBy(readers), DEFAULT, opts) }

  /** `parse`: one pass over the characters. */
  method Parse(opts: string, readers: Readers) returns (result: Options)
    ensures result == Meaning(readers, Scan(opts))
  {
    hide ScanArg, Update;
    result := DEFAULT;
    var rest := opts;
    while rest != []
      invariant Fold(UpdateBy(readers), result, Scan(rest)) == Meaning(readers, Scan(opts))
      decreases |rest|
    {
      var letter := rest[0];
      var arg: Option<string> := None;
      if |rest| > 1 && rest[1] == '(' {
        var text, more := TakeArg(rest[2..]);
        assert Scan(rest) == [Opt(letter, Some(text))] + Scan(more);
        arg, rest := Some(text), more;
      } else {
        assert Scan(rest) == [Opt(letter, None)] + Scan(rest[1..]);
        rest := rest[1..];
      }
      assert ([Opt(letter, arg)] + Scan(rest))[1..] == Scan(rest);
      result := Update(readers, result, Opt(letter, arg));
    }
  }

  // ----- Printing -----

  function ShowOne(o: Opt): string {
    [o.letter] + match o.arg case None => "" case Some(a) => "(" + a + ")"
  }

  function Show(opts: seq<Opt>): string {
    if opts == [] then "" else ShowOne(opts[0]) + Show(opts[1..])
  }

  /** Depth after a text, started at `d`; none if it closes more than is open. */
  function Walk(s: string, d: nat): Option<nat> {
    if s == [] then Some(d)
    else if s[0] == '(' then Walk(s[1..], d + 1)
    else if s[0] == ')' then (if d == 0 then None else Walk(s[1..], d - 1))
    else Walk(s[1..], d)
  }

  predicate Balanced(s: string) {
    Walk(s, 0) == Some(0)
  }

  /** Arguments are balanced, and no option named '(' follows one without an argument. */
  ghost predicate Printable(opts: seq<Opt>) {
    && (forall i :: 0 <= i < |opts| && opts[i].arg.Some? ==> Balanced(opts[i].arg.value))
    && (forall i :: 0 < i < |opts| && opts[i].letter == '(' ==> opts[i - 1].arg.Some?)
  }

  // ----- Round trip -----

  lemma WalkUnfolds(s: string, d: nat)
    ensures Walk(s, d) ==
            if s == [] then Some(d)
            else if s[0] == ')' && d == 0 then None
            else Walk(s[1..], if s[0] == '(' then d + 1 else if s[0] == ')' then d - 1 else d)
  {
  }

  lemma ScanArgUnfolds(s: string, depth: nat)
    requires depth > 0
    ensures ScanArg(s, depth) ==
            if s == [] then Taken("", "", false)
            else if s[0] == ')' && depth == 1 then Taken("", s[1..], true)
            else
              var t := ScanArg(s[1..], if s[0] == '(' then depth + 1 else if s[0] == ')' then depth - 1 else depth);
              Taken([s[0]] + t.arg, t.rest, t.closed)
  {
  }

  lemma ScanArgOneMore(c: char, s: string, depth: nat)
    requires depth > 0 && !(c == ')' && depth == 1)
    ensures ScanArg([c] + s, depth) ==
            var t := ScanArg(s, if c == '(' then depth + 1 else if c == ')' then depth - 1 else depth);
            Taken([c] + t.arg, t.rest, t.closed)
  {
    ScanArgUnfolds([c] + s, depth);
    hide ScanArg;
    assert ([c] + s)[1..] == s;
  }

  lemma HeadThenTail(a: string, b: string)
    requires a != []
    ensures [a[0]] + (a[1..] + b) == a + b
  {
  }

  lemma {:induction false} ScanArgWalks(a: string, more: string, d: nat)
    requires Walk(a, d).Some?
    ensures var t := ScanArg(more, Walk(a, d).value + 1);
            ScanArg(a + more, d + 1) == Taken(a + t.arg, t.rest, t.closed)
  {
    WalkUnfolds(a, d);
    hide Walk, ScanArg;
    if a == [] {
      assert a + more == more;
      assert a + ScanArg(more, d + 1).arg == ScanArg(more, d + 1).arg;
    } else {
      var e := if a[0] == '(' then d + 1 else if a[0] == ')' then d - 1 else d;
      ScanArgWalks(a[1..], more, e);
      ScanArgOneMore(a[0], a[1..] + more, d + 1);
      assert a + more == [a[0]] + (a[1..] + more);
      HeadThenTail(a, ScanArg(more, Walk(a[1..], e).value + 1).arg);
    }
  }

  lemma {:induction false} ScanArgBalanced(a: string, rest: string)
    requires Balanced(a)
    ensures ScanArg(a + ")" + rest, 1) == Taken(a, rest, true)
  {
    ScanArgWalks(a, ")" + rest, 0);
    assert (")" + rest)[1..] == rest;
    assert a + ")" + rest == a + (")" + rest);
    assert a + "" == a;
  }

  /** Scanning an option printed in front of a string that cannot be taken for its argument. */
  lemma {:induction false} ScanShown(o: Opt, rest: string)
    requires o.arg.Some? ==> Balanced(o.arg.value)
    requires o.arg.None? && rest != [] ==> rest[0] != '('
    ensures Scan(ShowOne(o) + rest) == [o] + Scan(rest)
  {
    var s := ShowOne(o) + rest;
    match o.arg
    case None =>
      assert s == [o.letter] + rest;
      assert s[1..] == rest;
    case Some(a) =>
      assert s[2..] == a + ")" + rest;
      ScanArgBalanced(a, rest);
  }

  lemma ShowHead(opts: seq<Opt>)
    requires opts != []
    ensures Show(opts) != [] && Show(opts)[0] == opts[0].letter
  {
  }

  lemma {:induction false} PrintableRoundTrip(opts: seq<Opt>)
    requires Printable(opts)
    ensures Scan(Show(opts)) == opts
  {
    if opts != [] {
      PrintableRoundTrip(opts[1..]);
      if opts[1..] != [] {
        ShowHead(opts[1..]);
        assert opts[1..][0] == opts[1];
      }
      ScanShown(opts[0], Show(opts[1..]));
    }
  }

  /** What an argument scan consumes: its text is walkable, and the text with its closing
      parenthesis, if any, is the part of the input it took. */
  lemma {:induction false} ScanArgTakes(s: string, depth: nat)
    requires depth > 0
    ensures var t := ScanArg(s, depth);
            && Walk(t.arg, depth - 1).Some?
            && (t.closed ==> Walk(t.arg, depth - 1) == Some(0) && s == t.arg + ")" + t.rest)
            && (!t.closed ==> s == t.arg && t.rest == "")
  {
    ScanArgUnfolds(s, depth);
    var t := ScanArg(s, depth);
    WalkUnfolds(t.arg, depth - 1);
    hide ScanArg, Walk;
    if s != [] && !(s[0] == ')' && depth == 1) {
      var d := if s[0] == '(' then depth + 1 else if s[0] == ')' then depth - 1 else depth;
      ScanArgTakes(s[1..], d);
      var u := ScanArg(s[1..], d);
      assert t.arg[1..] == u.arg;
      assert s == [s[0]] + s[1..];
    } else if s != [] {
      assert s == "" + ")" + s[1..];
    }
  }

  /** Printing what was scanned gives the string back, with the parenthesis that a last
      open argument lacks. */
  lemma {:induction false} ShowScan(s: string)
    ensures Show(Scan(s)) == if Complete(s) then s else s + ")"
    decreases |s|
  {
    hide ScanArg, Walk, Show, Scan, Complete, ShowOne;
    if s == [] {
      EmptyString();
    } else {
      ScanStep(s);
      if HasArg(s) {
        var t := ScanArg(s[2..], 1);
        ScanArgTakes(s[2..], 1);
        ShowScan(t.rest);
        ShowCons(Opt(s[0], Some(t.arg)), Scan(t.rest));
        ShowTaken(s);
        if !t.closed {
          EmptyString();
        }
      } else {
        ShowScan(s[1..]);
        ShowCons(Opt(s[0], None), Scan(s[1..]));
        ShowLetter(s);
      }
    }
  }

  lemma EmptyString()
    ensures Scan("") == [] && Show([]) == "" && Complete("")
  {
  }

  lemma {:induction false} ShowTaken(s: string)
    requires HasArg(s)
    ensures var t := ScanArg(s[2..], 1);
            var shown := ShowOne(Opt(s[0], Some(t.arg)));
            && (t.closed ==> shown + t.rest == s && shown + (t.rest + ")") == s + ")")
            && (!t.closed ==> t.rest == "" && shown + "" == s + ")")
  {
    hide ScanArg;
    ScanArgTakes(s[2..], 1);
    assert s == [s[0]] + "(" + s[2..];
  }

  lemma ShowLetter(s: string)
    requires s != []
    ensures ShowOne(Opt(s[0], None)) + s[1..] == s
    ensures ShowOne(Opt(s[0], None)) + (s[1..] + ")") == s + ")"
  {
  }

  /** Scanning a complete string yields a printable list. */
  lemma {:induction false} ScanIsPrintable(s: string)
    requires Complete(s)
    ensures Printable(Scan(s))
    decreases |s|
  {
    if s != [] {
      hide ScanArg, Walk;
      if HasArg(s) {
        ScanArgTakes(s[2..], 1);
        ScanIsPrintable(ScanArg(s[2..], 1).rest);
      } else {
        ScanIsPrintable(s[1..]);
      }
    }
  }

  lemma ShowCons(o: Opt, opts: seq<Opt>)
    ensures Show([o] + opts) == ShowOne(o) + Show(opts)
  {
    assert ([o] + opts)[1..] == opts;
  }

  /** A list of options survives printing and scanning exactly when it is printable. */
  lemma {:induction false} RoundTripExactly(opts: seq<Opt>)
    ensures Scan(Show(opts)) == opts <==> Printable(opts)
  {
    if Printable(opts) {
      PrintableRoundTrip(opts);
    } else if Scan(Show(opts)) == opts {
      ShowScan(Show(opts));
      ScanIsPrintable(Show(opts));
    }
  }

  // ----- Concatenation -----

  lemma {:induction false} ScanArgClosedExtends(s: string, more: string, depth: nat)
    requires depth > 0 && ScanArg(s, depth).closed
    ensures var t := ScanArg(s, depth);
            ScanArg(s + more, depth) == Taken(t.arg, t.rest + more, true)
  {
    assert s != [];
    assert (s + more)[0] == s[0] && (s + more)[1..] == s[1..] + more;
    if !(s[0] == ')' && depth == 1) {
      var d := if s[0] == '(' then depth + 1 else if s[0] == ')' then depth - 1 else depth;
      ScanArgClosedExtends(s[1..], more, d);
    }
  }

  /** `b` does not continue the last option of `a`. */
  ghost predicate Separate(a: string, b: string) {
    a == [] || b == [] || b[0] != '(' || Scan(a)[|Scan(a)| - 1].arg.Some?
  }

  /** Scanning distributes over complete strings. */
  lemma {:induction false} ScanConcat(a: string, b: string)
    requires Complete(a) && Separate(a, b)
    ensures Scan(a + b) == Scan(a) + Scan(b)
    decreases |a|
  {
    hide ScanArg, Scan, Complete;
    if a == [] {
      assert a + b == b;
      EmptyString();
    } else {
      ScanStep(a);
      ScanStep(a + b);
      HasArgConcat(a, b);
      if HasArg(a) {
        var t := ScanArg(a[2..], 1);
        assert (a + b)[2..] == a[2..] + b;
        ScanArgClosedExtends(a[2..], b, 1);
        SeparateTail(a, b, Opt(a[0], Some(t.arg)), t.rest);
        ScanConcat(t.rest, b);
        assert [Opt(a[0], Some(t.arg))] + (Scan(t.rest) + Scan(b)) == Scan(a) + Scan(b);
      } else {
        assert (a + b)[1..] == a[1..] + b;
        SeparateTail(a, b, Opt(a[0], None), a[1..]);
        ScanConcat(a[1..], b);
        assert [Opt(a[0], None)] + (Scan(a[1..]) + Scan(b)) == Scan(a) + Scan(b);
      }
    }
  }

  lemma {:induction false} HasArgConcat(a: string, b: string)
    requires a != [] && Separate(a, b)
    ensures HasArg(a + b) <==> HasArg(a)
  {
    ScanStep(a);
    if |a| == 1 {
      EmptyString();
      assert Scan(a) == [Opt(a[0], None)];
    }
  }

  lemma {:induction false} SeparateTail(a: string, b: string, o: Opt, tail: string)
    requires a != [] && Separate(a, b) && Scan(a) == [o] + Scan(tail)
    ensures Separate(tail, b)
  {
    hide Scan;
    if tail != [] {
      assert Scan(a)[|Scan(a)| - 1] == Scan(tail)[|Scan(tail)| - 1];
    }
  }

  lemma {:induction false} FoldConcat<T>(apply: (T, Opt) -> T, init: T, xs: seq<Opt>, ys: seq<Opt>)
    ensures Fold(apply, init, xs + ys) == Fold(apply, Fold(apply, init, xs), ys)
  {
    if xs == [] {
      assert xs + ys == ys;
    } else {
      assert (xs + ys)[1..] == xs[1..] + ys;
      FoldConcat(apply, apply(init, xs[0]), xs[1..], ys);
    }
  }

  /** Parsing a complete option string followed by another continues from its result. */
  lemma {:induction false} ParseConcat(readers: Readers, a: string, b: string)
    requires Complete(a) && Separate(a, b)
    ensures Meaning(readers, Scan(a + b)) == Fold(UpdateBy(readers), Meaning(readers, Scan(a)), Scan(b))
  {
    ScanConcat(a, b);
    FoldConcat(UpdateBy(readers), DEFAULT, Scan(a), Scan(b));
  }

  /** The letters of each kind. */
  lemma KindTable(c: char)
    ensures KindOf(c) == Location <==> c == 'b' || c == 'B' || c == 'G' || c == 'U'
    ensures KindOf(c) == Text <==> c == 'D' || c == 'A' || c == 'Q' || c == 's' || c == 'u'
    ensures KindOf(c) == TextOrEmpty <==> c == 'n' || c == 'O' || c == 'P'
    ensures KindOf(c) == TextOrSwitch <==> c == 'F' || c == 'f' || c == 'm' || c == 'o' || c == 'r'
    ensures KindOf(c) == Limit <==> c == 'L'
    ensures KindOf(c) == Seconds <==> c == 'S'
    ensures KindOf(c) == Switch <==>
            || c == 'g' || c == 'c' || c == 'C' || c == 'd' || c == 'h' || c == 'H' || c == 'i' || c == 'I' || c == 'k'
            || c == 'K' || c == 'w' || c == 'W' || c == 'x' || c == 'X' || c == 'a' || c == 'e' || c == 'E' || c == 'j'
            || c == 'N' || c == 'p' || c == 'R' || c == 't' || c == 'T' || c == 'z'
  {
    assert SWITCHES == ['g', 'c', 'C', 'd', 'h', 'H', 'i', 'I', 'k', 'K', 'w', 'W', 'x', 'X', 'a', 'e', 'E', 'j',
                        'N', 'p', 'R', 't', 'T', 'z'];
  }

  /** When an option switches something on, and what it assigns, in terms of its argument. */
  lemma OptionMeans(readers: Readers, o: Opt)
    ensures var given := o.arg.Some? && o.arg.value != "";
            match KindOf(o.letter)
            case Switch => SwitchesOn(o) && Assigns(readers, o) == None
            case TextOrSwitch => SwitchesOn(o) == !given && Assigns(readers, o) == if given then Some(o.arg) else None
            case Text => !SwitchesOn(o) && Assigns(readers, o) == Some(o.arg)
            case Location => !SwitchesOn(o) && Assigns(readers, o) == Some(if given then o.arg else None)
            case TextOrEmpty => !SwitchesOn(o) && Assigns(readers, o) == Some(if given then o.arg else Some(""))
            case Limit => !SwitchesOn(o) && Assigns(readers, o) ==
                          Some(if o.arg.Some? && readers.limit(o.arg.value) then o.arg else None)
            case Seconds => !SwitchesOn(o) && Assigns(readers, o) ==
                            if o.arg.Some? && readers.seconds(o.arg.value) then Some(o.arg) else None
            case Unknown => !SwitchesOn(o) && Assigns(readers, o) == None
  {
    hide KindOf;
  }

  // ----- What a list of options means -----

  /** An option that assigns to letter `c`. */
  predicate AssignsTo(readers: Readers, o: Opt, c: char) { o.letter == c && Assigns(readers, o).Some? }

  ghost predicate SwitchedOn(opts: seq<Opt>, c: char) {
    exists i :: 0 <= i < |opts| && opts[i].letter == c && SwitchesOn(opts[i])
  }

  /** Option `i` is the last that assigns to letter `c`. */
  ghost predicate LastToAssign(readers: Readers, opts: seq<Opt>, i: nat, c: char) {
    && i < |opts| && AssignsTo(readers, opts[i], c)
    && forall j :: i < j < |opts| ==> !AssignsTo(readers, opts[j], c)
  }

  function TextOf(options: Options, c: char): Option<string> {
    if c in options.texts then Some(options.texts[c]) else None
  }

  lemma {:induction false} MeaningSnoc(readers: Readers, opts: seq<Opt>)
    requires opts != []
    ensures Meaning(readers, opts) ==
            Update(readers, Meaning(readers, opts[..|opts| - 1]), opts[|opts| - 1])
  {
    var n := |opts| - 1;
    assert opts == opts[..n] + [opts[n]];
    FoldConcat(UpdateBy(readers), DEFAULT, opts[..n], [opts[n]]);
    assert [opts[n]][1..] == [];
  }

  /** A switch is on exactly if some option switches it on, wherever it stands. */
  lemma {:induction false} SwitchIsOnExactly(readers: Readers, opts: seq<Opt>, c: char)
    ensures c in Meaning(readers, opts).switches <==> SwitchedOn(opts, c)
  {
    if opts != [] {
      var n := |opts| - 1;
      SwitchIsOnExactly(readers, opts[..n], c);
      MeaningSnoc(readers, opts);
      hide Meaning, SwitchesOn, Assigns;
      assert forall i :: 0 <= i < n ==> opts[..n][i] == opts[i];
    }
  }

  /** A field holds what the last option that assigns to it assigned. */
  lemma {:induction false} LastAssignmentHolds(readers: Readers, opts: seq<Opt>, i: nat, c: char)
    requires LastToAssign(readers, opts, i, c)
    ensures TextOf(Meaning(readers, opts), c) == Assigns(readers, opts[i]).value
  {
    var n := |opts| - 1;
    MeaningSnoc(readers, opts);
    hide Meaning, SwitchesOn, Assigns;
    if i < n {
      assert !AssignsTo(readers, opts[n], c);
      LastAssignmentHolds(readers, opts[..n], i, c);
    }
  }

  /** And nothing if none does. */
  lemma {:induction false} UnassignedIsEmpty(readers: Readers, opts: seq<Opt>, c: char)
    requires forall i :: 0 <= i < |opts| ==> !AssignsTo(readers, opts[i], c)
    ensures TextOf(Meaning(readers, opts), c) == None
  {
    if opts != [] {
      var n := |opts| - 1;
      assert !AssignsTo(readers, opts[n], c);
      UnassignedIsEmpty(readers, opts[..n], c);
      MeaningSnoc(readers, opts);
      hide Meaning, SwitchesOn, Assigns;
    }
  }

  /** The options with one letter, in order. */
  function Only(opts: seq<Opt>, c: char): seq<Opt> {
    if opts == [] then []
    else (if opts[0].letter == c then [opts[0]] else []) + Only(opts[1..], c)
  }

  /** Two states agree on one letter. */
  ghost predicate Agree(a: Options, b: Options, c: char) {
    (c in a.switches <==> c in b.switches) && TextOf(a, c) == TextOf(b, c)
  }

  /** An option changes nothing but its own letter, and that only by what it was. */
  lemma UpdateIsLocal(readers: Readers, a: Options, b: Options, o: Opt, c: char)
    requires Agree(a, b, c)
    ensures Agree(Update(readers, a, o), Update(readers, b, o), c)
    ensures o.letter != c ==> Agree(Update(readers, a, o), b, c)
  {
    hide SwitchesOn, Assigns;
  }

  lemma {:induction false} LetterAlone(readers: Readers, a: Options, b: Options, opts: seq<Opt>, c: char)
    requires Agree(a, b, c)
    ensures Agree(Fold(UpdateBy(readers), a, opts), Fold(UpdateBy(readers), b, Only(opts, c)), c)
    decreases |opts|
  {
    if opts != [] {
      UpdateIsLocal(readers, a, b, opts[0], c);
      hide Update, Agree;
      if opts[0].letter == c {
        LetterAlone(readers, Update(readers, a, opts[0]), Update(readers, b, opts[0]), opts[1..], c);
        assert ([opts[0]] + Only(opts[1..], c))[1..] == Only(opts[1..], c);
      } else {
        LetterAlone(readers, Update(readers, a, opts[0]), b, opts[1..], c);
        assert [] + Only(opts[1..], c) == Only(opts[1..], c);
      }
    }
  }

  /** Letters do not interfere: lists that agree letter by letter mean the same, however the
      letters are interleaved. */
  lemma {:induction false} LettersAreIndependent(readers: Readers, xs: seq<Opt>, ys: seq<Opt>)
    requires forall c :: Only(xs, c) == Only(ys, c)
    ensures Meaning(readers, xs) == Meaning(readers, ys)
  {
    var x, y := Meaning(readers, xs), Meaning(readers, ys);
    forall c: char
      ensures Agree(x, y, c)
    {
      LetterAlone(readers, DEFAULT, DEFAULT, xs, c);
      LetterAlone(readers, DEFAULT, DEFAULT, ys, c);
      hide Fold, Only;
    }
    AgreeEverywhere(x, y);
  }

  lemma AgreeEverywhere(x: Options, y: Options)
    requires forall c :: Agree(x, y, c)
    ensures x == y
  {
    assert x.switches == y.switches by {
      forall c
        ensures c in x.switches <==> c in y.switches
      {
        assert Agree(x, y, c);
      }
    }
    forall c
      ensures TextOf(x, c) == TextOf(y, c)
    {
      assert Agree(x, y, c);
    }
    assert x.texts == y.texts by {
      assert forall c :: c in x.texts <==> TextOf(x, c).Some?;
      assert forall c :: c in y.texts <==> TextOf(y, c).Some?;
      assert forall c :: c in x.texts ==> TextOf(x, c).value == x.texts[c];
    }
  }

  lemma {:induction false} OnlyConcat(xs: seq<Opt>, ys: seq<Opt>, c: char)
    ensures Only(xs + ys, c) == Only(xs, c) + Only(ys, c)
  {
    if xs == [] {
      assert xs + ys == ys;
    } else {
      OnlyUnfolds(xs, c);
      OnlyUnfolds(xs + ys, c);
      hide Only;
      OnlyConcat(xs[1..], ys, c);
      TailOfConcat(xs, ys);
      var head := if xs[0].letter == c then [xs[0]] else [];
      Framing.Associates(head, Only(xs[1..], c), Only(ys, c));
    }
  }

  lemma TailOfConcat(xs: seq<Opt>, ys: seq<Opt>)
    requires xs != []
    ensures (xs + ys)[1..] == xs[1..] + ys && (xs + ys)[0] == xs[0]
  {
  }

  lemma OnlyUnfolds(opts: seq<Opt>, c: char)
    requires opts != []
    ensures Only(opts, c) == (if opts[0].letter == c then [opts[0]] else []) + Only(opts[1..], c)
  {
  }

  lemma {:induction false} OnlyAbsent(xs: seq<Opt>, c: char)
    requires forall i :: 0 <= i < |xs| ==> xs[i].letter != c
    ensures Only(xs, c) == []
  {
    if xs != [] {
      OnlyAbsent(xs[1..], c);
    }
  }

  /** Option strings without a common letter can be swapped. */
  lemma {:induction false} StringsCommute(readers: Readers, a: string, b: string)
    requires Complete(a) && Complete(b) && Separate(a, b) && Separate(b, a)
    requires forall i, j :: 0 <= i < |Scan(a)| && 0 <= j < |Scan(b)| ==> Scan(a)[i].letter != Scan(b)[j].letter
    ensures Meaning(readers, Scan(a + b)) == Meaning(readers, Scan(b + a))
  {
    ScanConcat(a, b);
    ScanConcat(b, a);
    var xs, ys := Scan(a), Scan(b);
    hide Scan, Complete, Separate, Meaning, Only;
    SwapSameLetters(xs, ys);
    LettersAreIndependent(readers, xs + ys, ys + xs);
  }

  lemma {:induction false} SwapSameLetters(xs: seq<Opt>, ys: seq<Opt>)
    requires forall i, j :: 0 <= i < |xs| && 0 <= j < |ys| ==> xs[i].letter != ys[j].letter
    ensures forall c :: Only(xs + ys, c) == Only(ys + xs, c)
  {
    hide Only;
    forall c: char
      ensures Only(xs + ys, c) == Only(ys + xs, c)
    {
      OnlyConcat(xs, ys, c);
      OnlyConcat(ys, xs, c);
      if i :| 0 <= i < |xs| && xs[i].letter == c {
        OnlyAbsent(ys, c);
      } else {
        OnlyAbsent(xs, c);
      }
    }
  }
}
