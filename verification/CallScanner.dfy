/**
 The hand-written scanner that splits a call's arguments at depth zero.

 The loop is proved against a recursive scan; the scan is then compared with printing:
 argument lists are trees of plain characters, quoted literals and bracketed groups, and
 the question is when scanning the printed call gives the printed arguments back.
 */
module CallScanner {
  import opened Basics
  import opened Strings

  predicate IsQuote(c: char) {
    c == '"' || c == '\'' || c == '`'
  }

  predicate IsOpen(c: char) {
    c == '(' || c == '[' || c == '{'
  }

  predicate IsClose(c: char) {
    c == ')' || c == ']' || c == '}'
  }

  /** The text `p` stands at position `i`. */
  predicate At(src: string, i: nat, p: string) {
    i + |p| <= |src| && src[i..i + |p|] == p
  }

  lemma {:induction false} AtExactly(src: string, i: nat, p: string)
    ensures At(src, i, p) <==> i + |p| <= |src| && forall k :: 0 <= k < |p| ==> src[i + k] == p[k]
    ensures At(src, i, p) ==> src[i..i + |p|] == p
  {
    if i + |p| <= |src| {
      var text := src[i..i + |p|];
      assert forall k :: 0 <= k < |p| ==> text[k] == src[i + k];
    }
  }

  /** The arguments kept: stripped, and none that is blank. */
  function Kept(pieces: seq<string>): seq<string> {
    if pieces == [] then []
    else
      var last := Strip(pieces[|pieces| - 1]);
      Kept(pieces[..|pieces| - 1]) + if last == "" then [] else [last]
  }

  // ── The scan ───────────────────────────────────────────────────────────

  datatype State = State(i: nat, depth: int, quote: Option<char>, pieces: seq<string>, start: nat)

  datatype Turn = Continue(next: State) | Stop(pieces: seq<string>)

  /** One turn of the loop. */
  function Next(src: string, s: State): (t: Turn)
    requires s.i < |src| && s.start <= s.i + 1
    ensures t.Continue? ==> t.next.i > s.i && t.next.start <= t.next.i
  {
    var ch := src[s.i];
    if s.quote.Some? then
      if ch == '\\' then Continue(s.(i := s.i + 2))
      else if ch == s.quote.value then Continue(s.(i := s.i + 1, quote := None))
      else if s.quote.value == '`' && At(src, s.i, "${") then Continue(s.(i := s.i + 2, depth := s.depth + 1))
      else Continue(s.(i := s.i + 1))
    else if IsQuote(ch) then Continue(s.(i := s.i + 1, quote := Some(ch)))
    else if IsOpen(ch) then Continue(s.(i := s.i + 1, depth := s.depth + 1))
    else if IsClose(ch) then
      if s.depth - 1 == 0 && ch == ')' then Stop(s.pieces + [Slice(src, s.start, s.i)])
      else Continue(s.(i := s.i + 1, depth := s.depth - 1))
    else if ch == ',' && s.depth == 1 then
      Continue(s.(i := s.i + 1, pieces := s.pieces + [Slice(src, s.start, s.i)], start := s.i + 1))
    else Continue(s.(i := s.i + 1))
  }

  /** `src[a:b]`, empty when the bounds cross. */
  function Slice(src: string, a: nat, b: nat): string
    requires b <= |src|
  {
    if a <= b then src[a..b] else ""
  }

  function Scan(src: string, s: State): Option<seq<string>>
    requires s.start <= s.i + 1
    decreases |src| - s.i
  {
    if s.i >= |src| then None
    else
      match Next(src, s)
      case Stop(pieces) => Some(Kept(pieces))
      case Continue(next) => Scan(src, next)
  }

  lemma {:induction false} Unfold(src: string, s: State)
    requires s.i < |src| && s.start <= s.i + 1
    ensures Next(src, s).Stop? ==> Scan(src, s) == Some(Kept(Next(src, s).pieces))
    ensures Next(src, s).Continue? ==> Scan(src, s) == Scan(src, Next(src, s).next)
  {
  }

  function Opening(openParen: nat): State {
    State(openParen, 0, None, [], openParen + 1)
  }

  method Arguments(src: string, openParen: nat) returns (r: Option<seq<string>>)
    ensures r == Scan(src, Opening(openParen))
  {
    var depth: int := 0;
    var quote: Option<char> := None;
    var args: seq<string> := [];
    var start: nat := openParen + 1;
    var i: nat := openParen;
    ghost var state := Opening(openParen);
    while i < |src|
      invariant start <= i + 1
      invariant state == State(i, depth, quote, args, start)
      invariant Scan(src, state) == Scan(src, Opening(openParen))
      decreases |src| - i
    {
      hide Scan, At, Opening, Kept, Slice, IsQuote, IsOpen, IsClose;
      Unfold(src, state);
      ghost var turn := Next(src, state);
      state := if turn.Continue? then turn.next else state;
      var ch := src[i];
      if quote.Some? {
        if ch == '\\' {
          i := i + 2;
          continue;
        }
        if ch == quote.value {
          quote := None;
        } else if quote.value == '`' && At(src, i, "${") {
          depth := depth + 1;
          i := i + 2;
          continue;
        }
      } else if IsQuote(ch) {
        quote := Some(ch);
      } else if IsOpen(ch) {
        depth := depth + 1;
      } else if IsClose(ch) {
        depth := depth - 1;
        if depth == 0 && ch == ')' {
          args := args + [Slice(src, start, i)];
          return Some(Kept(args));
        }
      } else if ch == ',' && depth == 1 {
        args := args + [Slice(src, start, i)];
        start := i + 1;
      }
      i := i + 1;
    }
    return None;
  }

  // ── Printing ───────────────────────────────────────────────────────────

  /** A character of a quoted literal: itself, escaped, or the `${` that opens a template hole. */
  datatype QuotedChar = Lit(c: char) | Escaped(c: char) | HoleOpen

  /** Source text: plain characters, quoted literals and bracketed groups. */
  datatype Text =
    | End
    | Plain(c: char, rest: Text)
    | Quoted(quote: char, body: seq<QuotedChar>, rest: Text)
    | Group(open: char, inner: Text, close: char, rest: Text)

  function PrintBody(body: seq<QuotedChar>): string {
    if body == [] then ""
    else
      (match body[0]
       case Lit(c) => [c]
       case Escaped(c) => ['\\', c]
       case HoleOpen => "${") + PrintBody(body[1..])
  }

  function Print(t: Text): string {
    match t
    case End => ""
    case Plain(c, rest) => [c] + Print(rest)
    case Quoted(quote, body, rest) => [quote] + (PrintBody(body) + ([quote] + Print(rest)))
    case Group(open, inner, close, rest) => [open] + (Print(inner) + ([close] + Print(rest)))
  }

  /** A literal's body: no bare quote or backslash, holes only in templates, and there every
      `${` is a hole. */
  ghost predicate GoodBody(quote: char, body: seq<QuotedChar>) {
    body == [] || (GoodBody(quote, body[1..]) &&
      match body[0]
      case Lit(c) => c != '\\' && c != quote && !(quote == '`' && c == '$' && |body| > 1 && body[1] == Lit('{'))
      case Escaped(_) => true
      case HoleOpen => quote == '`')
  }

  /** What the printed language quotes and brackets with. */
  const QUOTES: set<char> := {'"', '\'', '`'}
  const OPENERS: set<char> := {'(', '[', '{'}
  const CLOSERS: set<char> := {')', ']', '}'}

  /** Brackets balance and literals close. */
  ghost predicate Good(t: Text) {
    match t
    case End => true
    case Plain(c, rest) => c !in QUOTES && c !in OPENERS && c !in CLOSERS && Good(rest)
    case Quoted(quote, body, rest) => quote in QUOTES && GoodBody(quote, body) && Good(rest)
    case Group(open, inner, close, rest) => open in OPENERS && close in CLOSERS && Good(inner) && Good(rest)
  }

  ghost predicate NoTopComma(t: Text) {
    match t
    case End => true
    case Plain(c, rest) => c != ',' && NoTopComma(rest)
    case Quoted(_, _, rest) => NoTopComma(rest)
    case Group(_, _, _, rest) => NoTopComma(rest)
  }

  ghost function HolesIn(body: seq<QuotedChar>): nat {
    if body == [] then 0 else HolesIn(body[1..]) + if body[0].HoleOpen? then 1 else 0
  }

  /** How many template holes a text opens. */
  ghost function Holes(t: Text): nat {
    match t
    case End => 0
    case Plain(_, rest) => Holes(rest)
    case Quoted(_, body, rest) => HolesIn(body) + Holes(rest)
    case Group(_, inner, _, rest) => Holes(inner) + Holes(rest)
  }

  ghost predicate IsArgument(t: Text) {
    Good(t) && NoTopComma(t)
  }

  // ── What scanning a printed text does ──────────────────────────────────

  lemma {:induction false} AtSplit(src: string, i: nat, p: string, q: string)
    requires At(src, i, p + q)
    ensures At(src, i, p) && At(src, i + |p|, q)
  {
    var whole := src[i..i + |p + q|];
    assert whole[..|p|] == p && whole[|p|..] == q;
    assert src[i..i + |p|] == whole[..|p|];
    assert src[i + |p|..i + |p| + |q|] == whole[|p|..];
  }

  lemma {:induction false} AtHead(src: string, i: nat, c: char, q: string)
    requires At(src, i, [c] + q)
    ensures i < |src| && src[i] == c && At(src, i + 1, q)
  {
    AtSplit(src, i, [c], q);
    assert src[i..i + 1][0] == c;
  }

  /** One turn, outside a literal, on a character that does not end the call. */
  lemma {:induction false} TurnOutside(src: string, s: State)
    requires s.i < |src| && s.start <= s.i && s.quote == None
    requires IsClose(src[s.i]) ==> s.depth >= 2
    requires src[s.i] == ',' ==> s.depth != 1
    ensures var ch := src[s.i];
            Scan(src, s) == Scan(src, if IsQuote(ch) then s.(i := s.i + 1, quote := Some(ch))
                                      else if IsOpen(ch) then s.(i := s.i + 1, depth := s.depth + 1)
                                      else if IsClose(ch) then s.(i := s.i + 1, depth := s.depth - 1)
                                      else s.(i := s.i + 1))
  {
  }

  /** One turn inside a literal. */
  lemma {:induction false} TurnInside(src: string, s: State)
    requires s.i < |src| && s.start <= s.i && s.quote.Some?
    ensures var ch := src[s.i];
            Scan(src, s) == Scan(src, if ch == '\\' then s.(i := s.i + 2)
                                      else if ch == s.quote.value then s.(i := s.i + 1, quote := None)
                                      else if s.quote.value == '`' && At(src, s.i, "${") then
                                        s.(i := s.i + 2, depth := s.depth + 1)
                                      else s.(i := s.i + 1))
  {
  }

  lemma {:induction false} AppendRest(a: string, b: string, c: string)
    ensures (a + b) + c == a + (b + c)
  {
  }

  /** Inside a literal the scan only moves on, deeper by one for every hole. */
  lemma {:induction false} ScanBody(src: string, s: State, body: seq<QuotedChar>, tail: string)
    requires s.start <= s.i && s.quote.Some? && GoodBody(s.quote.value, body)
    requires IsQuote(s.quote.value) && At(src, s.i, PrintBody(body) + ([s.quote.value] + tail))
    ensures Scan(src, s)
            == Scan(src, s.(i := s.i + |PrintBody(body)| + 1, depth := s.depth + HolesIn(body), quote := None))
    decreases |body|
  {
    hide Scan, At;
    var quote := s.quote.value;
    var after := [quote] + tail;
    if body == [] {
      assert PrintBody(body) + after == after;
      AtHead(src, s.i, quote, tail);
      TurnInside(src, s);
    } else {
      var more := PrintBody(body[1..]) + after;
      match body[0] {
        case Lit(c) =>
          AppendRest([c], PrintBody(body[1..]), after);
          ScanLit(src, s, c, body[1..], tail);
          ScanBody(src, s.(i := s.i + 1), body[1..], tail);
        case Escaped(c) =>
          AppendRest(['\\', c], PrintBody(body[1..]), after);
          assert ['\\', c] + more == ['\\'] + ([c] + more);
          AtHead(src, s.i, '\\', [c] + more);
          AtHead(src, s.i + 1, c, more);
          TurnInside(src, s);
          ScanBody(src, s.(i := s.i + 2), body[1..], tail);
        case HoleOpen =>
          AppendRest("${", PrintBody(body[1..]), after);
          AtSplit(src, s.i, "${", more);
          AtExactly(src, s.i, "${");
          TurnInside(src, s);
          ScanBody(src, s.(i := s.i + 2, depth := s.depth + 1), body[1..], tail);
      }
    }
  }

  lemma {:induction false} ScanLit(src: string, s: State, c: char, rest: seq<QuotedChar>, tail: string)
    requires s.start <= s.i && s.quote.Some? && GoodBody(s.quote.value, [Lit(c)] + rest)
    requires IsQuote(s.quote.value) && At(src, s.i, [c] + (PrintBody(rest) + ([s.quote.value] + tail)))
    ensures Scan(src, s) == Scan(src, s.(i := s.i + 1)) && At(src, s.i + 1, PrintBody(rest) + ([s.quote.value] + tail))
  {
    hide Scan;
    assert ([Lit(c)] + rest)[1..] == rest;
    AtHead(src, s.i, c, PrintBody(rest) + ([s.quote.value] + tail));
    TurnInside(src, s);
    if s.quote.value == '`' && c == '$' {
      NoHoleAhead(src, s.i + 1, rest, '`', tail);
      AtExactly(src, s.i, "${");
    }
  }

  lemma {:induction false} NoHoleAhead(src: string, i: nat, body: seq<QuotedChar>, quote: char, tail: string)
    requires At(src, i, PrintBody(body) + ([quote] + tail)) && IsQuote(quote)
    requires body != [] ==> body[0] != Lit('{')
    ensures i < |src| && src[i] != '{'
  {
    var p := PrintBody(body) + ([quote] + tail);
    assert src[i..i + |p|][0] == p[0];
  }

  /** Outside literals a good text leaves the pieces alone and the depth up by its holes; at
      depth one it must have no comma of its own. */
  lemma {:induction false} ScanText(src: string, s: State, t: Text, tail: string)
    requires s.start <= s.i && s.quote == None && s.depth >= 1 && Good(t) && (s.depth == 1 ==> NoTopComma(t))
    requires At(src, s.i, Print(t) + tail)
    ensures Scan(src, s) == Scan(src, s.(i := s.i + |Print(t)|, depth := s.depth + Holes(t)))
    decreases t, 1
  {
    hide Scan, At;
    match t
    case End =>
    case Plain(c, rest) =>
      AppendRest([c], Print(rest), tail);
      AtHead(src, s.i, c, Print(rest) + tail);
      TurnOutside(src, s);
      ScanText(src, s.(i := s.i + 1), rest, tail);
    case Quoted(_, _, _) => ScanQuoted(src, s, t, tail);
    case Group(_, _, _, _) => ScanGroup(src, s, t, tail);
  }

  lemma {:induction false} ScanQuoted(src: string, s: State, t: Text, tail: string)
    requires s.start <= s.i && s.quote == None && s.depth >= 1 && Good(t) && (s.depth == 1 ==> NoTopComma(t))
    requires t.Quoted? && At(src, s.i, Print(t) + tail)
    ensures Scan(src, s) == Scan(src, s.(i := s.i + |Print(t)|, depth := s.depth + Holes(t)))
    decreases t, 0
  {
    hide Scan, At, IsQuote, GoodBody, PrintBody, HolesIn;
    var Quoted(quote, body, rest) := t;
    AtBetween(src, s.i, quote, PrintBody(body), quote, Print(rest), tail);
    QuotesAreNotBrackets(quote);
    TurnOutside(src, s);
    ScanBody(src, s.(i := s.i + 1, quote := Some(quote)), body, Print(rest) + tail);
    ScanText(src, s.(i := s.i + |PrintBody(body)| + 2, depth := s.depth + HolesIn(body)), rest, tail);
  }

  lemma {:induction false} QuotesAreNotBrackets(c: char)
    ensures IsQuote(c) <==> c in QUOTES
    ensures IsOpen(c) <==> c in OPENERS
    ensures IsClose(c) <==> c in CLOSERS
    ensures IsQuote(c) ==> !IsOpen(c) && !IsClose(c) && c != ','
    ensures IsOpen(c) ==> !IsClose(c) && c != ','
    ensures IsClose(c) ==> c != ','
  {
  }

  lemma {:induction false} ScanGroup(src: string, s: State, t: Text, tail: string)
    requires s.start <= s.i && s.quote == None && s.depth >= 1 && Good(t) && (s.depth == 1 ==> NoTopComma(t))
    requires t.Group? && At(src, s.i, Print(t) + tail)
    ensures Scan(src, s) == Scan(src, s.(i := s.i + |Print(t)|, depth := s.depth + Holes(t)))
    decreases t, 0
  {
    hide Scan, At, IsQuote, IsOpen, IsClose;
    var Group(open, inner, close, rest) := t;
    AtBetween(src, s.i, open, Print(inner), close, Print(rest), tail);
    QuotesAreNotBrackets(open);
    QuotesAreNotBrackets(close);
    TurnOutside(src, s);
    ScanText(src, s.(i := s.i + 1, depth := s.depth + 1), inner, [close] + (Print(rest) + tail));
    TurnOutside(src, s.(i := s.i + 1 + |Print(inner)|, depth := s.depth + 1 + Holes(inner)));
    ScanText(src, s.(i := s.i + |Print(inner)| + 2, depth := s.depth + Holes(inner)), rest, tail);
  }

  lemma {:induction false} AtBetween(src: string, i: nat, open: char, inner: string, close: char, rest: string,
                                     tail: string)
    requires At(src, i, [open] + (inner + ([close] + rest)) + tail)
    ensures i < |src| && src[i] == open
    ensures At(src, i + 1, inner + ([close] + (rest + tail)))
    ensures i + 1 + |inner| < |src| && src[i + 1 + |inner|] == close
    ensures At(src, i + |inner| + 2, rest + tail)
  {
    hide At;
    PrintBetween(open, inner, close, rest, tail);
    AtHead(src, i, open, inner + ([close] + (rest + tail)));
    AtSplit(src, i + 1, inner, [close] + (rest + tail));
    AtHead(src, i + 1 + |inner|, close, rest + tail);
  }

  lemma {:induction false} PrintBetween(open: char, inner: string, close: char, rest: string, tail: string)
    ensures [open] + (inner + ([close] + rest)) + tail == [open] + (inner + ([close] + (rest + tail)))
  {
  }

  // ── Whole calls ────────────────────────────────────────────────────────

  function PrintAll(args: seq<Text>): seq<string> {
    if args == [] then [] else [Print(args[0])] + PrintAll(args[1..])
  }

  /** Printed arguments joined with commas. */
  function Joined(pieces: seq<string>): string {
    if pieces == [] then ""
    else if |pieces| == 1 then pieces[0]
    else pieces[0] + ("," + Joined(pieces[1..]))
  }

  ghost predicate AreArguments(args: seq<Text>) {
    forall i :: 0 <= i < |args| ==> IsArgument(args[i])
  }

  ghost predicate NoHoles(args: seq<Text>) {
    forall i :: 0 <= i < |args| ==> Holes(args[i]) == 0
  }

  lemma {:induction false} KeptAppend(a: seq<string>, b: seq<string>)
    ensures Kept(a + b) == Kept(a) + Kept(b)
  {
    if b == [] {
      assert a + b == a;
    } else {
      assert (a + b)[..|a + b| - 1] == a + b[..|b| - 1];
      KeptAppend(a, b[..|b| - 1]);
    }
  }

  /** The comma or the closing bracket after an argument, at the depth the call opened. */
  lemma {:induction false} EndOfArgument(src: string, s: State)
    requires s.i < |src| && s.start <= s.i && s.quote == None && s.depth == 1
    ensures src[s.i] == ',' ==>
              Scan(src, s) == Scan(src, s.(i := s.i + 1, pieces := s.pieces + [src[s.start..s.i]], start := s.i + 1))
    ensures src[s.i] == ')' ==> Scan(src, s) == Some(Kept(s.pieces + [src[s.start..s.i]]))
  {
  }

  /** An argument without holes at the start of a piece, and the character that ends it. */
  lemma {:induction false} OneArgument(src: string, s: State, arg: Text, c: char, more: string)
    requires IsArgument(arg) && Holes(arg) == 0 && s.start == s.i && s.quote == None && s.depth == 1
    requires (c == ',' || c == ')') && At(src, s.i, Print(arg) + ([c] + more))
    ensures var here := s.i + |Print(arg)|;
            && At(src, here + 1, more)
            && Scan(src, s) == if c == ')' then Some(Kept(s.pieces + [Print(arg)]))
                               else Scan(src, s.(i := here + 1, pieces := s.pieces + [Print(arg)], start := here + 1))
  {
    hide Scan, At, Kept, Print, Good, NoTopComma, Holes;
    var here := s.i + |Print(arg)|;
    ScanText(src, s, arg, [c] + more);
    AtSplit(src, s.i, Print(arg), [c] + more);
    AtHead(src, here, c, more);
    AtExactly(src, s.i, Print(arg));
    EndOfArgument(src, s.(i := here));
  }

  /** From the start of an argument list without holes, the scan ends at the list's own closing
      bracket with every argument split off. */
  lemma {:induction false} ScanArguments(src: string, s: State, args: seq<Text>, tail: string)
    requires args != [] && AreArguments(args) && NoHoles(args)
    requires s.start == s.i && s.quote == None && s.depth == 1
    requires At(src, s.i, Joined(PrintAll(args)) + (")" + tail))
    ensures Scan(src, s) == Some(Kept(s.pieces + PrintAll(args)))
    decreases |args|
  {
    hide Scan, At, Kept, Print, IsArgument, Holes, Joined, PrintAll;
    var piece := Print(args[0]);
    JoinedStep(args, tail);
    if |args| == 1 {
      OneArgument(src, s, args[0], ')', tail);
    } else {
      OneArgument(src, s, args[0], ',', Joined(PrintAll(args[1..])) + (")" + tail));
      assert AreArguments(args[1..]) && NoHoles(args[1..]);
      var here := s.i + |piece|;
      ScanArguments(src, s.(i := here + 1, pieces := s.pieces + [piece], start := here + 1), args[1..], tail);
      assert s.pieces + ([piece] + PrintAll(args[1..])) == s.pieces + [piece] + PrintAll(args[1..]);
    }
  }

  /** The printed list, one argument in. */
  lemma {:induction false} JoinedStep(args: seq<Text>, tail: string)
    requires args != []
    ensures PrintAll(args) == [Print(args[0])] + PrintAll(args[1..])
    ensures if |args| == 1 then
              PrintAll(args) == [Print(args[0])]
                && Joined(PrintAll(args)) + (")" + tail) == Print(args[0]) + ([')'] + tail)
            else
              Joined(PrintAll(args)) + (")" + tail)
              == Print(args[0]) + ([','] + (Joined(PrintAll(args[1..])) + (")" + tail)))
  {
    hide Print;
    if |args| > 1 {
      var more := Joined(PrintAll(args[1..]));
      assert PrintAll(args)[1..] == PrintAll(args[1..]);
      AppendRest(Print(args[0]), "," + more, ")" + tail);
      AppendRest(",", more, ")" + tail);
    }
  }

  /** With the depth raised, an argument list and its closing bracket change nothing but the depth. */
  lemma {:induction false} ScanPastArguments(src: string, s: State, args: seq<Text>, tail: string) returns (depth: int)
    requires AreArguments(args) && s.start <= s.i && s.quote == None && s.depth >= 2
    requires At(src, s.i, CommaEach(PrintAll(args)) + (")" + tail))
    ensures Scan(src, s) == Scan(src, s.(i := s.i + |CommaEach(PrintAll(args))| + 1, depth := depth))
    decreases |args|
  {
    hide Scan, At, Print, Good, NoTopComma, Holes;
    if args == [] {
      assert CommaEach(PrintAll(args)) + (")" + tail) == ")" + tail;
      AtHead(src, s.i, ')', tail);
      TurnOutside(src, s);
      depth := s.depth - 1;
    } else {
      var piece, rest := Print(args[0]), CommaEach(PrintAll(args[1..]));
      AppendRest("," + piece, rest, ")" + tail);
      AppendRest(",", piece, rest + (")" + tail));
      AtHead(src, s.i, ',', piece + (rest + (")" + tail)));
      TurnOutside(src, s);
      ScanText(src, s.(i := s.i + 1), args[0], rest + (")" + tail));
      AtSplit(src, s.i + 1, piece, rest + (")" + tail));
      assert AreArguments(args[1..]);
      depth := ScanPastArguments(src, s.(i := s.i + 1 + |piece|, depth := s.depth + Holes(args[0])), args[1..], tail);
    }
  }

  /** Printed arguments, each after a comma. */
  function CommaEach(pieces: seq<string>): string {
    if pieces == [] then "" else ("," + pieces[0]) + CommaEach(pieces[1..])
  }

  lemma {:induction false} JoinedIsCommaEach(pieces: seq<string>)
    requires pieces != []
    ensures Joined(pieces) == pieces[0] + CommaEach(pieces[1..])
    decreases |pieces|
  {
    if |pieces| == 1 {
      assert CommaEach(pieces[1..]) == "";
    } else {
      JoinedIsCommaEach(pieces[1..]);
    }
  }

  /** Whatever the text, a scan that ends keeps the pieces it had and then a piece running from
      the open start to some later bracket, and perhaps more. */
  lemma {:induction false} ScanKeepsPieces(src: string, s: State) returns (e: nat, more: seq<string>)
    requires s.start <= s.i && Scan(src, s).Some?
    ensures s.i <= e < |src|
    ensures Scan(src, s).value == Kept(s.pieces + [src[s.start..e]] + more)
    decreases |src| - s.i
  {
    hide Kept, At, Scan;
    ScanGoesOn(src, s);
    Unfold(src, s);
    match Next(src, s) {
      case Stop(pieces) =>
        e, more := s.i, [];
        assert s.pieces + [src[s.start..e]] + more == pieces;
      case Continue(next) =>
        e, more := ScanKeepsPieces(src, next);
        if next.start != s.start {
          var first := [src[next.start..e]];
          assert s.pieces + [src[s.start..s.i]] + (first + more) == next.pieces + first + more;
          e, more := s.i, first + more;
        }
    }
  }

  lemma {:induction false} ScanGoesOn(src: string, s: State)
    requires s.start <= s.i && Scan(src, s).Some?
    ensures s.i < |src|
  {
  }

  // ── Stripping ──────────────────────────────────────────────────────────

  lemma {:induction false} StripLeftExtends(s: string, t: string)
    requires !Blank(s)
    ensures StripLeft(s + t) == StripLeft(s) + t && !Blank(StripLeft(s))
  {
    if IsSpace(s[0]) {
      assert (s + t)[1..] == s[1..] + t;
      assert s == [s[0]] + s[1..];
      StripLeftExtends(s[1..], t);
    }
  }

  lemma {:induction false} StripRightShorter(s: string)
    ensures |StripRight(s)| <= |s|
    ensures !Blank(s) ==> StripRight(s) != ""
  {
    if s != "" && IsSpace(s[|s| - 1]) {
      StripRightShorter(s[..|s| - 1]);
    }
  }

  /** A character that is not a space survives on the right. */
  lemma {:induction false} StripRightKeeps(s: string, c: char, t: string)
    requires !IsSpace(c)
    ensures |StripRight(s + [c] + t)| >= |s| + 1
  {
    var whole := s + [c] + t;
    if t == "" {
      assert whole == s + [c];
    } else if IsSpace(whole[|whole| - 1]) {
      assert whole[..|whole| - 1] == s + [c] + t[..|t| - 1];
      StripRightKeeps(s, c, t[..|t| - 1]);
    }
  }

  /** A piece that runs on past its own text strips to something longer. */
  lemma {:induction false} StripsLonger(s: string, c: char, t: string)
    requires !Blank(s) && !IsSpace(c)
    ensures |Strip(s + [c] + t)| > |Strip(s)| > 0
  {
    assert s + [c] + t == s + ([c] + t);
    StripLeftExtends(s, [c] + t);
    assert StripLeft(s) + ([c] + t) == StripLeft(s) + [c] + t;
    StripRightKeeps(StripLeft(s), c, t);
    StripRightShorter(StripLeft(s));
  }

  /** A text with a hole has a backtick in it. */
  lemma {:induction false} HolesAreNotBlank(t: Text)
    requires Good(t) && Holes(t) > 0
    ensures !Blank(Print(t))
  {
    match t
    case Plain(c, rest) =>
      HolesAreNotBlank(rest);
      NotBlankInside([c], Print(rest), "");
    case Quoted(quote, body, rest) =>
      assert Print(t)[0] in Print(t);
    case Group(open, inner, close, rest) =>
      assert Print(t)[0] in Print(t);
  }

  lemma {:induction false} NotBlankInside(a: string, b: string, c: string)
    requires !Blank(b)
    ensures !Blank(a + b + c) && !Blank(a + b)
  {
    var x :| x in b && !IsSpace(x);
    assert x in a + b && x in a + b + c;
  }

  // ── Does scanning undo printing? ───────────────────────────────────────

  /** A printed call: the bracket, the arguments joined with commas, the bracket. */
  function PrintCall(args: seq<Text>): string {
    "(" + (Joined(PrintAll(args)) + ")")
  }

  /** Stepping through the call's own opening bracket. */
  lemma {:induction false} EnterCall(src: string, openParen: nat)
    requires openParen < |src| && src[openParen] == '('
    ensures Scan(src, Opening(openParen)) == Scan(src, State(openParen + 1, 1, None, [], openParen + 1))
  {
    hide Scan;
    Unfold(src, Opening(openParen));
  }

  /** Without template holes the scan returns exactly the stripped arguments that are not blank. */
  lemma {:induction false} UndoesPrintingWithoutHoles(src: string, openParen: nat, args: seq<Text>, tail: string)
    requires AreArguments(args) && NoHoles(args)
    requires At(src, openParen, PrintCall(args) + tail)
    ensures Scan(src, Opening(openParen)) == Some(Kept(PrintAll(args)))
  {
    hide Scan, At;
    var inside := Joined(PrintAll(args)) + (")" + tail);
    AppendRest("(", Joined(PrintAll(args)) + ")", tail);
    AppendRest(Joined(PrintAll(args)), ")", tail);
    AtHead(src, openParen, '(', inside);
    EnterCall(src, openParen);
    var s := State(openParen + 1, 1, None, [], openParen + 1);
    if args == [] {
      EmptyCall(src, s, tail);
    } else {
      ScanArguments(src, s, args, tail);
      assert [] + PrintAll(args) == PrintAll(args);
    }
  }

  lemma {:induction false} EmptyCall(src: string, s: State, tail: string)
    requires s.start == s.i && s.quote == None && s.depth == 1 && s.pieces == []
    requires At(src, s.i, "" + (")" + tail))
    ensures Scan(src, s) == Some([])
  {
    hide Scan, At;
    assert "" + (")" + tail) == ")" + tail;
    AtHead(src, s.i, ')', tail);
    EndOfArgument(src, s);
    assert [] + [""] == [""] && [""][..0] == [] && Strip("") == "";
    assert Kept([""]) == Kept([]) + [];
  }

  /** The first argument with a hole swallows the separator after it, so what the scan makes of
      it strips to something longer. */
  lemma {:induction false} HoleSwallows(src: string, s: State, arg: Text, rest: seq<Text>, tail: string)
    requires IsArgument(arg) && Holes(arg) > 0 && AreArguments(rest)
    requires s.start == s.i && s.quote == None && s.depth == 1
    requires At(src, s.i, Print(arg) + (CommaEach(PrintAll(rest)) + (")" + tail)))
    ensures Scan(src, s).Some? ==>
              exists got, more :: Scan(src, s).value == Kept(s.pieces) + [got] + more && |got| > |Strip(Print(arg))| > 0
  {
    hide Scan, At, Kept, Print, Strip, Good, NoTopComma, Holes, CommaEach, PrintAll;
    var after := CommaEach(PrintAll(rest)) + (")" + tail);
    ScanText(src, s, arg, after);
    AtSplit(src, s.i, Print(arg), after);
    AtExactly(src, s.i, Print(arg));
    var here := s.i + |Print(arg)|;
    var depth := ScanPastArguments(src, s.(i := here, depth := 1 + Holes(arg)), rest, tail);
    var past := s.(i := here + |CommaEach(PrintAll(rest))| + 1, depth := depth);
    if Scan(src, s).Some? {
      var e, more := ScanKeepsPieces(src, past);
      var got := src[s.start..e];
      SeparatorIsNoSpace(src, here, rest, tail);
      HolesAreNotBlank(arg);
      assert got == Print(arg) + [src[here]] + src[here + 1..e];
      StripsLonger(Print(arg), src[here], src[here + 1..e]);
      KeptAppend(s.pieces + [got], more);
      KeptAppend(s.pieces, [got]);
      KeptOne(got);
      assert Scan(src, s).value == Kept(s.pieces) + [Strip(got)] + Kept(more);
    }
  }

  lemma {:induction false} KeptOne(piece: string)
    requires Strip(piece) != ""
    ensures Kept([piece]) == [Strip(piece)]
  {
    assert Kept([piece][..0]) == [];
  }

  lemma {:induction false} SeparatorIsNoSpace(src: string, i: nat, rest: seq<Text>, tail: string)
    requires At(src, i, CommaEach(PrintAll(rest)) + (")" + tail))
    ensures i < |src| && !IsSpace(src[i])
  {
    var p := CommaEach(PrintAll(rest)) + (")" + tail);
    assert p[0] == ',' || p[0] == ')';
    assert src[i..i + |p|][0] == p[0];
  }

  /** From the start of an argument list with a hole somewhere, the scan never returns the list. */
  lemma {:induction false} ScanMissesHoles(src: string, s: State, args: seq<Text>, tail: string)
    requires AreArguments(args) && !NoHoles(args)
    requires s.start == s.i && s.quote == None && s.depth == 1
    requires At(src, s.i, Joined(PrintAll(args)) + (")" + tail))
    ensures Scan(src, s) != Some(Kept(s.pieces + PrintAll(args)))
    decreases |args|
  {
    hide Scan, At, Kept, Print, IsArgument, Holes, Strip, PrintAll, Joined;
    var piece := Print(args[0]);
    JoinedStep(args, tail);
    if Holes(args[0]) > 0 {
      JoinedIsCommaEach(PrintAll(args));
      assert PrintAll(args)[1..] == PrintAll(args[1..]);
      AppendRest(piece, CommaEach(PrintAll(args[1..])), ")" + tail);
      assert AreArguments(args[1..]);
      HoleSwallows(src, s, args[0], args[1..], tail);
      if Scan(src, s).Some? {
        var got, more :| Scan(src, s).value == Kept(s.pieces) + [got] + more && |got| > |Strip(piece)| > 0;
        KeptAppend(s.pieces, PrintAll(args));
        KeptAppend([piece], PrintAll(args[1..]));
        KeptOne(piece);
        var k := |Kept(s.pieces)|;
        assert Scan(src, s).value[k] == got;
        assert Kept(s.pieces + PrintAll(args)) == Kept(s.pieces) + ([Strip(piece)] + Kept(PrintAll(args[1..])));
        assert Kept(s.pieces + PrintAll(args))[k] == Strip(piece);
      }
    } else {
      var k :| 0 <= k < |args| && Holes(args[k]) > 0;
      assert args[1..][k - 1] == args[k];
      OneArgument(src, s, args[0], ',', Joined(PrintAll(args[1..])) + (")" + tail));
      assert AreArguments(args[1..]);
      var here := s.i + |piece|;
      ScanMissesHoles(src, s.(i := here + 1, pieces := s.pieces + [piece], start := here + 1), args[1..], tail);
      assert s.pieces + ([piece] + PrintAll(args[1..])) == s.pieces + [piece] + PrintAll(args[1..]);
    }
  }

  /** Scanning a printed call, whatever follows it, gives the printed arguments back exactly when
      no argument has a template hole. */
  lemma {:induction false} UndoesPrintingExactlyWithoutHoles(src: string, openParen: nat, args: seq<Text>, tail: string)
    requires AreArguments(args)
    requires At(src, openParen, PrintCall(args) + tail)
    ensures Scan(src, Opening(openParen)) == Some(Kept(PrintAll(args))) <==> NoHoles(args)
  {
    hide Scan, At;
    if NoHoles(args) {
      UndoesPrintingWithoutHoles(src, openParen, args, tail);
    } else {
      AppendRest("(", Joined(PrintAll(args)) + ")", tail);
      AppendRest(Joined(PrintAll(args)), ")", tail);
      AtHead(src, openParen, '(', Joined(PrintAll(args)) + (")" + tail));
      EnterCall(src, openParen);
      ScanMissesHoles(src, State(openParen + 1, 1, None, [], openParen + 1), args, tail);
      assert [] + PrintAll(args) == PrintAll(args);
    }
  }
}
