/**
 The two-pass repair of almost-JSON text.

 Pass 2 is the string state machine; it is compared with two readers of JSON text that
 differ only in whether a string may hold raw newlines, returns and tabs. Pass 1 drops
 trailing commas, and does not look whether it is inside a string.
 */
module JsonRepair {
  import opened Basics
  import opened Strings

  // ── Pass 2: escape control characters inside strings ───────────────────

  datatype Mode = Mode(inString: bool, escapeNext: bool)

  predicate IsBare(c: char) {
    c == '\n' || c == '\r' || c == '\t'
  }

  function EscapeOf(c: char): string
    requires IsBare(c)
  {
    if c == '\n' then "\\n" else if c == '\r' then "\\r" else "\\t"
  }

  /** One turn of the machine: the mode it moves to and what it writes. */
  function Turn(m: Mode, c: char): (Mode, string) {
    if m.escapeNext then (m.(escapeNext := false), [c])
    else if c == '\\' && m.inString then (m.(escapeNext := true), [c])
    else if c == '"' then (m.(inString := !m.inString), [c])
    else if m.inString && IsBare(c) then (m, EscapeOf(c))
    else (m, [c])
  }

  function Escaped(m: Mode, s: string): string
    decreases |s|
  {
    if s == "" then "" else Turn(m, s[0]).1 + Escaped(Turn(m, s[0]).0, s[1..])
  }

  const OUTSIDE := Mode(false, false)

  method EscapePass(s: string) returns (result: string)
    ensures result == Escaped(OUTSIDE, s)
  {
    hide Escaped;
    result := "";
    var inString, escapeNext := false, false;
    for i := 0 to |s|
      invariant result + Escaped(Mode(inString, escapeNext), s[i..]) == Escaped(OUTSIDE, s)
    {
      var ch := s[i];
      EscapedStep(Mode(inString, escapeNext), s[i..]);
      assert s[i..][1..] == s[i + 1..];
      if escapeNext {
        result := result + [ch];
        escapeNext := false;
      } else if ch == '\\' && inString {
        result := result + [ch];
        escapeNext := true;
      } else if ch == '"' {
        inString := !inString;
        result := result + [ch];
      } else if inString && IsBare(ch) {
        result := result + EscapeOf(ch);
      } else {
        result := result + [ch];
      }
    }
    EscapedEmpty(Mode(inString, escapeNext));
  }

  // ── Two readers ────────────────────────────────────────────────────────

  /** What a reader makes of a text: characters outside strings, and string contents as code
      units. */
  datatype Piece = Outside(c: char) | Text(contents: seq<int>)

  function HexDigit(c: char): int {
    if '0' <= c <= '9' then (c - '0') as int
    else if 'a' <= c <= 'f' then 10 + (c - 'a') as int
    else if 'A' <= c <= 'F' then 10 + (c - 'A') as int
    else -1
  }

  /** The text starts with `n` hex digits. */
  predicate HexRun(n: nat, s: string)
    ensures HexRun(n, s) ==> |s| >= n
  {
    n == 0 || (s != "" && HexDigit(s[0]) >= 0 && HexRun(n - 1, s[1..]))
  }

  function HexValue(s: string): int {
    if s == "" then 0 else 16 * HexValue(s[..|s| - 1]) + HexDigit(s[|s| - 1])
  }

  /** The value of one escape, and how many characters follow the backslash. */
  function ReadEscape(s: string): Option<(int, nat)> {
    if s == "" then None
    else
      match s[0]
      case '"' => Some((34, 1))
      case '\\' => Some((92, 1))
      case '/' => Some((47, 1))
      case 'b' => Some((8, 1))
      case 'f' => Some((12, 1))
      case 'n' => Some((10, 1))
      case 'r' => Some((13, 1))
      case 't' => Some((9, 1))
      case 'u' => if HexRun(4, s[1..]) then Some((HexValue(s[1..5]), 5)) else None
      case _ => None
  }

  /** A string body up to its closing quote (section 7 of RFC 8259): its contents and what
      follows the quote. The lenient reader also takes raw newlines, returns and tabs. */
  function ReadBody(lenient: bool, s: string): (r: Option<(seq<int>, string)>)
    ensures r.Some? ==> |r.value.1| < |s|
    decreases |s|
  {
    if s == "" then None
    else if s[0] == '"' then Some(([], s[1..]))
    else if s[0] == '\\' then
      var escape := ReadEscape(s[1..]);
      if escape.None? || 1 + escape.value.1 > |s| then None
      else
        var body := ReadBody(lenient, s[1 + escape.value.1..]);
        if body.None? then None else Some(([escape.value.0] + body.value.0, body.value.1))
    else if s[0] < ' ' && !(lenient && s[0] in {'\n', '\r', '\t'}) then None
    else
      var body := ReadBody(lenient, s[1..]);
      if body.None? then None else Some(([s[0] as int] + body.value.0, body.value.1))
  }

  function Read(lenient: bool, s: string): Option<seq<Piece>>
    decreases |s|
  {
    if s == "" then Some([])
    else if s[0] == '"' then
      var body := ReadBody(lenient, s[1..]);
      if body.None? then None
      else
        var rest := Read(lenient, body.value.1);
        if rest.None? then None else Some([Text(body.value.0)] + rest.value)
    else
      var rest := Read(lenient, s[1..]);
      if rest.None? then None else Some([Outside(s[0])] + rest.value)
  }

  /** The hexadecimal digits, in both cases. */
  const SMALL_DIGITS := "0123456789abcdef"
  const LARGE_DIGITS := "0123456789ABCDEF"

  lemma {:induction false} HexDigitExactly(c: char)
    ensures forall k :: 0 <= k < 16 ==> HexDigit(SMALL_DIGITS[k]) == k == HexDigit(LARGE_DIGITS[k])
    ensures HexDigit(c) >= 0 ==> HexDigit(c) < 16 && c in {SMALL_DIGITS[HexDigit(c)], LARGE_DIGITS[HexDigit(c)]}
  {
  }

  /** The escapes of section 7 of RFC 8259: two characters, or `u` and four hexadecimal digits; there
      are no others. */
  lemma {:induction false} EscapesRead(c: char, d: string, rest: string)
    requires |d| == 4
    ensures c in {'"', '\\', '/'} ==> ReadEscape([c] + rest) == Some((c as int, 1))
    ensures c == 'n' ==> ReadEscape([c] + rest) == Some(('\n' as int, 1))
    ensures c == 'r' ==> ReadEscape([c] + rest) == Some(('\r' as int, 1))
    ensures c == 't' ==> ReadEscape([c] + rest) == Some(('\t' as int, 1))
    ensures c == 'b' ==> ReadEscape([c] + rest) == Some(('\U{8}' as int, 1))
    ensures c == 'f' ==> ReadEscape([c] + rest) == Some(('\U{c}' as int, 1))
    ensures c !in {'"', '\\', '/', 'n', 'r', 't', 'b', 'f', 'u'} ==> ReadEscape([c] + rest) == None
    ensures (forall i :: 0 <= i < 4 ==> HexDigit(d[i]) >= 0) ==>
              ReadEscape(['u'] + (d + rest))
              == Some((4096 * HexDigit(d[0]) + 256 * HexDigit(d[1]) + 16 * HexDigit(d[2]) + HexDigit(d[3]), 5))
    ensures (exists i :: 0 <= i < 4 && HexDigit(d[i]) < 0) ==> ReadEscape(['u'] + (d + rest)) == None
  {
    hide HexDigit, HexRun, HexValue;
    assert ([c] + rest)[0] == c;
    FourDigits(d, rest);
    var whole := ['u'] + (d + rest);
    assert whole[1..] == d + rest && whole[1..5] == d && whole[0] == 'u';
  }

  lemma {:induction false} FourDigits(d: string, rest: string)
    requires |d| == 4
    ensures HexRun(4, d + rest) <==> forall i :: 0 <= i < 4 ==> HexDigit(d[i]) >= 0
    ensures HexValue(d) == 4096 * HexDigit(d[0]) + 256 * HexDigit(d[1]) + 16 * HexDigit(d[2]) + HexDigit(d[3])
  {
    hide HexDigit, HexRun, HexValue;
    var (a, b, c, e) := (d[0], d[1], d[2], d[3]);
    assert d + rest == [a] + ([b] + ([c] + ([e] + rest)));
    HexRunStep(4, a, [b] + ([c] + ([e] + rest)));
    HexRunStep(3, b, [c] + ([e] + rest));
    HexRunStep(2, c, [e] + rest);
    HexRunStep(1, e, rest);
    HexRunNone(rest);
    HexValueStep("", a);
    HexValueStep([a], b);
    HexValueStep([a, b], c);
    HexValueStep([a, b, c], e);
    assert d == [a, b, c] + [e] && [a, b, c] == [a, b] + [c] && [a, b] == [a] + [b] && [a] == "" + [a];
  }

  lemma {:induction false} HexValueStep(s: string, c: char)
    ensures HexValue(s + [c]) == 16 * HexValue(s) + HexDigit(c) && HexValue("") == 0
  {
    assert (s + [c])[..|s|] == s;
  }

  /** A bare quote ends the string; a backslash and the escape after it stand for one character; any
      other character from the space on stands for itself; and below the space none is taken
      strictly, and leniently only the newline, the return and the tab. */
  lemma {:induction false} BodyReads(lenient: bool, c: char, escape: string, s: string)
    ensures ReadBody(lenient, ['"'] + s) == Some(([], s))
    ensures escape != "" && ReadEscape(escape + s).Some? && ReadEscape(escape + s).value.1 == |escape| ==>
              var rest := ReadBody(lenient, s);
              ReadBody(lenient, ['\\'] + (escape + s))
              == if rest.Some? then Some(([ReadEscape(escape + s).value.0] + rest.value.0, rest.value.1)) else None
    ensures c != '"' && c != '\\' ==>
              var taken := c as int >= 32 || (lenient && c in {'\n', '\r', '\t'});
              var rest := ReadBody(lenient, s);
              ReadBody(lenient, [c] + s)
              == if taken && rest.Some? then Some(([c as int] + rest.value.0, rest.value.1)) else None
  {
    hide ReadEscape;
    assert (['"'] + s)[1..] == s && ([c] + s)[1..] == s;
    var whole := ['\\'] + (escape + s);
    assert whole[1..] == escape + s && whole[1 + |escape|..] == s;
  }

  // ── Pass 2 preserves meaning ───────────────────────────────────────────

  const INSIDE := Mode(true, false)
  const AFTER_BACKSLASH := Mode(true, true)

  lemma {:induction false} EscapedStep(m: Mode, s: string)
    requires s != ""
    ensures Escaped(m, s) == Turn(m, s[0]).1 + Escaped(Turn(m, s[0]).0, s[1..])
  {
  }

  /** An escaped pair inside a string passes through. */
  lemma {:induction false} EscapedPair(s: string)
    requires |s| > 1 && s[0] == '\\'
    ensures Escaped(INSIDE, s) == ['\\', s[1]] + Escaped(INSIDE, s[2..])
  {
    hide Escaped;
    EscapedStep(INSIDE, s);
    EscapedStep(AFTER_BACKSLASH, s[1..]);
    assert s[1..][1..] == s[2..];
  }

  lemma {:induction false} EscapedEmpty(m: Mode)
    ensures Escaped(m, "") == "" && Escaped(INSIDE, "\\") == "\\"
    ensures "\\"[1..] == "" && ReadEscape("").None?
  {
    assert "\\"[1..] == "";
  }

  /** Pass 2 neither makes nor breaks a run of hex digits. */
  lemma {:induction false} HexRunKept(n: nat, s: string)
    ensures HexRun(n, s) <==> HexRun(n, Escaped(INSIDE, s))
    ensures HexRun(n, s) ==> Escaped(INSIDE, s) == s[..n] + Escaped(INSIDE, s[n..])
  {
    hide Escaped, HexDigit, Turn, HexRun;
    if n == 0 {
      assert s[0..] == s && s[..0] == "";
      HexRunNone(s);
      HexRunNone(Escaped(INSIDE, s));
    } else if s == "" {
      EscapedEmpty(INSIDE);
    } else {
      var c, e := s[0], Escaped(INSIDE, s[1..]);
      assert s == [c] + s[1..];
      EscapedStep(INSIDE, s);
      HexIsPlain(c);
      HexRunStep(n, c, s[1..]);
      if HexDigit(c) >= 0 {
        HexRunKept(n - 1, s[1..]);
        HexRunStep(n, c, e);
        if HexRun(n, s) {
          assert s[1..][n - 1..] == s[n..] && s[..n] == [c] + s[1..][..n - 1];
        }
      } else {
        var (next, d) := Turn(INSIDE, c);
        var rest := Escaped(next, s[1..]);
        assert d + rest == [d[0]] + (d[1..] + rest);
        HexRunStep(n, d[0], d[1..] + rest);
      }
    }
  }

  lemma {:induction false} HexRunNone(s: string)
    ensures HexRun(0, s)
  {
  }

  lemma {:induction false} HexRunStep(n: nat, c: char, rest: string)
    requires n > 0
    ensures HexRun(n, [c] + rest) <==> HexDigit(c) >= 0 && HexRun(n - 1, rest)
  {
    assert ([c] + rest)[1..] == rest;
  }

  lemma {:induction false} HexIsPlain(c: char)
    ensures HexDigit(c) >= 0 ==> Turn(INSIDE, c) == (INSIDE, [c]) && c != ','
    ensures HexDigit(c) < 0 ==> Turn(INSIDE, c).1 != "" && HexDigit(Turn(INSIDE, c).1[0]) < 0
  {
  }

  /** An escape means the same before and after pass 2, and pass 2 resumes right behind it. */
  lemma {:induction false} EscapeKept(s: string)
    requires |s| > 1 && s[0] == '\\'
    ensures ReadEscape(Escaped(INSIDE, s)[1..]) == ReadEscape(s[1..])
    ensures ReadEscape(s[1..]).Some? ==>
              var n := 1 + ReadEscape(s[1..]).value.1;
              2 <= n <= |s| && n <= |Escaped(INSIDE, s)| && Escaped(INSIDE, s)[n..] == Escaped(INSIDE, s[n..])
  {
    hide Escaped, ReadEscape, HexRun;
    EscapedPair(s);
    var c, t, rest := s[1], s[2..], Escaped(INSIDE, s[2..]);
    var e := ['\\', c] + rest;
    assert e[1..] == [c] + rest && e[2..] == rest && s[1..] == [c] + t;
    HexRunKept(4, t);
    if HexRun(4, t) {
      assert t[4..] == s[6..] && rest[..4] == t[..4] && rest[4..] == Escaped(INSIDE, s[6..]);
      assert e[6..] == rest[4..];
    }
    SameEscape(c, t, rest);
  }

  /** An escape reads no further than its own characters. */
  lemma {:induction false} SameEscape(c: char, t: string, rest: string)
    requires HexRun(4, t) <==> HexRun(4, rest)
    requires HexRun(4, t) ==> rest[..4] == t[..4]
    ensures ReadEscape([c] + rest) == ReadEscape([c] + t)
    ensures ReadEscape([c] + t).Some? ==>
              ReadEscape([c] + t).value.1 == if c == 'u' then 5 else 1
    ensures c == 'u' && ReadEscape([c] + t).Some? ==> HexRun(4, t)
  {
    hide HexRun, HexValue;
    assert ([c] + t)[1..] == t && ([c] + rest)[1..] == rest;
    if HexRun(4, t) {
      assert ([c] + t)[1..5] == t[..4] && ([c] + rest)[1..5] == rest[..4];
    }
  }

  /** A string read leniently before pass 2 is read strictly after it, with the same contents. */
  lemma {:induction false} BodyKept(s: string)
    ensures var before, after := ReadBody(true, s), ReadBody(false, Escaped(INSIDE, s));
            if before.None? then after.None?
            else after == Some((before.value.0, Escaped(OUTSIDE, before.value.1)))
    decreases |s|
  {
    hide Escaped, ReadEscape;
    if s == "" {
      EscapedEmpty(INSIDE);
    } else if s[0] == '\\' {
      BodyKeptAtEscape(s);
    } else if s[0] == '"' {
      EscapedStep(INSIDE, s);
      assert Escaped(INSIDE, s)[1..] == Escaped(OUTSIDE, s[1..]);
    } else if IsBare(s[0]) {
      BodyKept(s[1..]);
      BareIsSpelledOut(s);
    } else {
      EscapedStep(INSIDE, s);
      assert Escaped(INSIDE, s)[1..] == Escaped(INSIDE, s[1..]);
      BodyKept(s[1..]);
    }
  }

  lemma {:induction false} BodyKeptAtEscape(s: string)
    requires s != "" && s[0] == '\\'
    ensures var before, after := ReadBody(true, s), ReadBody(false, Escaped(INSIDE, s));
            if before.None? then after.None?
            else after == Some((before.value.0, Escaped(OUTSIDE, before.value.1)))
    decreases |s|, 0
  {
    hide Escaped, ReadEscape;
    if |s| == 1 {
      assert s == "\\";
      EscapedEmpty(INSIDE);
    } else {
      EscapeKept(s);
      EscapedPair(s);
      var escape := ReadEscape(s[1..]);
      if escape.Some? {
        BodyKept(s[1 + escape.value.1..]);
      }
    }
  }

  /** A bare control character becomes an escape that the strict reader reads back. */
  lemma {:induction false} BareIsSpelledOut(s: string)
    requires s != "" && IsBare(s[0])
    ensures var before, after := ReadBody(false, Escaped(INSIDE, s[1..])), ReadBody(false, Escaped(INSIDE, s));
            if before.None? then after.None? else after == Some(([s[0] as int] + before.value.0, before.value.1))
  {
    hide Escaped;
    EscapedStep(INSIDE, s);
    var e, rest := Escaped(INSIDE, s), Escaped(INSIDE, s[1..]);
    assert e == EscapeOf(s[0]) + rest;
    assert e[0] == '\\' && e[1..][0] == EscapeOf(s[0])[1] && e[2..] == rest;
  }

  /** Pass 2 preserves meaning, on every text: what the strict reader makes of its output is what
      the lenient reader makes of its input, contents of strings and everything outside them, and
      it is refused exactly when the input is. */
  lemma {:induction false} PassTwoPreservesMeaning(s: string)
    ensures Read(false, Escaped(OUTSIDE, s)) == Read(true, s)
    decreases |s|
  {
    hide Escaped, ReadBody;
    if s == "" {
      EscapedEmpty(OUTSIDE);
    } else {
      EscapedStep(OUTSIDE, s);
      if s[0] == '"' {
        var e := Escaped(OUTSIDE, s);
        assert e[1..] == Escaped(INSIDE, s[1..]);
        BodyKept(s[1..]);
        var body := ReadBody(true, s[1..]);
        if body.Some? {
          PassTwoPreservesMeaning(body.value.1);
        }
      } else {
        assert Escaped(OUTSIDE, s)[1..] == Escaped(OUTSIDE, s[1..]);
        PassTwoPreservesMeaning(s[1..]);
      }
    }
  }

  /** Running pass 2 again changes nothing, on every text and from every mode. */
  lemma {:induction false} PassTwoIsIdempotent(m: Mode, s: string)
    ensures Escaped(m, Escaped(m, s)) == Escaped(m, s)
    decreases |s|
  {
    hide Escaped;
    if s == "" {
      EscapedEmpty(m);
    } else {
      EscapedStep(m, s);
      var (next, written) := Turn(m, s[0]);
      var rest := Escaped(next, s[1..]);
      PassTwoIsIdempotent(next, s[1..]);
      var e := written + rest;
      EscapedStep(m, e);
      if |written| == 1 {
        assert e[1..] == rest;
      } else {
        assert e[1..] == [written[1]] + rest && e[0] == '\\';
        EscapedStep(m.(escapeNext := true), e[1..]);
        assert e[1..][1..] == rest;
        assert ['\\'] + ([written[1]] + rest) == e;
      }
    }
  }

  /** Text the strict reader already accepts comes through pass 2 unchanged. */
  lemma {:induction false} StrictTextIsUntouched(s: string)
    requires Read(false, s).Some?
    ensures Escaped(OUTSIDE, s) == s
    decreases |s|
  {
    hide Escaped;
    if s == "" {
      EscapedEmpty(OUTSIDE);
    } else {
      EscapedStep(OUTSIDE, s);
      assert s == [s[0]] + s[1..];
      if s[0] == '"' {
        var rest := StrictBodyIsUntouched(s[1..]);
        StrictTextIsUntouched(rest);
      } else {
        StrictTextIsUntouched(s[1..]);
      }
    }
  }

  lemma {:induction false} StrictBodyIsUntouched(s: string) returns (rest: string)
    requires ReadBody(false, s).Some?
    ensures rest == ReadBody(false, s).value.1
    ensures Escaped(OUTSIDE, rest) == rest ==> Escaped(INSIDE, s) == s
    decreases |s|
  {
    hide Escaped;
    assert s == [s[0]] + s[1..];
    if s[0] == '\\' {
      var n := 1 + ReadEscape(s[1..]).value.1;
      rest := StrictBodyIsUntouched(s[n..]);
      EscapedPair(s);
      assert s == ['\\', s[1]] + s[2..];
      if s[1] == 'u' {
        assert s[1..][1..] == s[2..];
        HexRunKept(4, s[2..]);
        assert s[2..][4..] == s[6..] && s[2..] == s[2..][..4] + s[6..];
      }
    } else if s[0] == '"' {
      EscapedStep(INSIDE, s);
      rest := s[1..];
    } else {
      EscapedStep(INSIDE, s);
      rest := StrictBodyIsUntouched(s[1..]);
    }
  }

  // ── Pass 1: drop trailing commas, wherever they are ────────────────────

  function Spaces(s: string): (n: nat)
    ensures n <= |s|
  {
    if s != "" && IsSpace(s[0]) then 1 + Spaces(s[1..]) else 0
  }

  /** After any spaces comes a closing bracket: a comma just before this text is dropped. */
  predicate CloserAhead(s: string) {
    Spaces(s) < |s| && (s[Spaces(s)] == '}' || s[Spaces(s)] == ']')
  }

  /** The substitution of `,\s*([}\]])` by its bracket. */
  function DropCommas(s: string): string
    decreases |s|
  {
    if s == "" then ""
    else if s[0] == ',' && CloserAhead(s[1..]) then DropCommas(s[1 + Spaces(s[1..])..])
    else [s[0]] + DropCommas(s[1..])
  }

  function RepairJson(s: string): string {
    Escaped(OUTSIDE, DropCommas(s))
  }

  /** In the raw text of a string body: a comma that pass 1 drops. */
  predicate CommaInBody(s: string)
    decreases |s|
  {
    if s == "" || s[0] == '"' then false
    else if s[0] == '\\' then
      var escape := ReadEscape(s[1..]);
      escape.Some? && 1 + escape.value.1 <= |s| && CommaInBody(s[1 + escape.value.1..])
    else (s[0] == ',' && CloserAhead(s[1..])) || CommaInBody(s[1..])
  }

  /** Some string of the text contains a comma that pass 1 drops. */
  predicate CommaInString(s: string)
    decreases |s|
  {
    if s == "" then false
    else if s[0] == '"' then
      CommaInBody(s[1..])
      || (ReadBody(true, s[1..]).Some? && CommaInString(ReadBody(true, s[1..]).value.1))
    else CommaInString(s[1..])
  }

  function Texts(ps: seq<Piece>): seq<seq<int>> {
    if ps == [] then []
    else (if ps[0].Text? then [ps[0].contents] else []) + Texts(ps[1..])
  }

  /** How much string contents there is in all. */
  ghost function Volume(texts: seq<seq<int>>): nat {
    if texts == [] then 0 else |texts[0]| + Volume(texts[1..])
  }

  /** The lenient reader takes spaces inside a string one by one. */
  lemma {:induction false} BodySkipsSpaces(s: string)
    requires ReadBody(true, s).Some?
    ensures ReadBody(true, s[Spaces(s)..]).Some?
    ensures ReadBody(true, s[Spaces(s)..]).value.1 == ReadBody(true, s).value.1
    ensures |ReadBody(true, s[Spaces(s)..]).value.0| <= |ReadBody(true, s).value.0|
  {
    if s != "" && IsSpace(s[0]) {
      BodySkipsSpaces(s[1..]);
      assert s[1..][Spaces(s[1..])..] == s[Spaces(s)..];
    } else {
      assert s[0..] == s;
    }
  }

  lemma {:induction false} DropCommasStep(s: string)
    requires s != ""
    ensures !(s[0] == ',' && CloserAhead(s[1..])) ==>
              DropCommas(s) == [s[0]] + DropCommas(s[1..]) && DropCommas(s)[1..] == DropCommas(s[1..])
    ensures s[0] == ',' && CloserAhead(s[1..]) ==>
              1 + Spaces(s[1..]) <= |s| && DropCommas(s) == DropCommas(s[1 + Spaces(s[1..])..])
  {
  }

  lemma {:induction false} HexRunUndropped(n: nat, s: string)
    requires HexRun(n, s)
    ensures DropCommas(s) == s[..n] + DropCommas(s[n..]) && HexRun(n, DropCommas(s))
  {
    hide DropCommas, HexDigit, HexRun;
    if n == 0 {
      assert s[0..] == s;
      HexRunNone(DropCommas(s));
    } else {
      HexIsPlain(s[0]);
      DropCommasStep(s);
      assert s == [s[0]] + s[1..];
      HexRunStep(n, s[0], s[1..]);
      HexRunUndropped(n - 1, s[1..]);
      HexRunStep(n, s[0], DropCommas(s[1..]));
      assert s[1..][n - 1..] == s[n..] && s[..n] == [s[0]] + s[1..][..n - 1];
    }
  }

  /** Pass 1 does not touch a valid escape. */
  lemma {:induction false} EscapeUndropped(s: string)
    requires |s| > 1 && s[0] == '\\' && ReadEscape(s[1..]).Some?
    ensures var n := 1 + ReadEscape(s[1..]).value.1;
            && 2 <= n <= |s| && |DropCommas(s)| >= n && DropCommas(s)[0] == '\\'
            && ReadEscape(DropCommas(s)[1..]) == ReadEscape(s[1..])
            && DropCommas(s)[n..] == DropCommas(s[n..])
  {
    hide DropCommas, ReadEscape;
    EscapeIsNoComma(s[1..]);
    DropCommasStep(s);
    DropCommasStep(s[1..]);
    var c, t := s[1], s[2..];
    assert s[1..] == [c] + t && s[1..][1..] == t;
    EscapeTailUndropped(c, t);
    var n := ReadEscape([c] + t).value.1;
    assert DropCommas(s) == ['\\'] + DropCommas(s[1..]) && DropCommas(s[1..]) == [c] + DropCommas(t);
    assert DropCommas(s)[1..] == DropCommas(s[1..]);
    assert t[n - 1..] == s[1 + n..] && DropCommas(s)[1 + n..] == DropCommas(s[1..])[n..];
  }

  lemma {:induction false} EscapeTailUndropped(c: char, t: string)
    requires ReadEscape([c] + t).Some?
    ensures var n := ReadEscape([c] + t).value.1;
            && 1 <= n <= 1 + |t| && |DropCommas(t)| >= n - 1
            && ReadEscape([c] + DropCommas(t)) == ReadEscape([c] + t)
            && ([c] + DropCommas(t))[n..] == DropCommas(t[n - 1..])
  {
    hide DropCommas, ReadEscape, HexRun;
    var rest := DropCommas(t);
    if c == 'u' {
      EscapeIsHex(t);
      HexRunUndropped(4, t);
      assert rest[..4] == t[..4] && rest[4..] == DropCommas(t[4..]);
      SameEscape(c, t, rest);
      assert ([c] + rest)[5..] == rest[4..];
    } else {
      PlainEscape(c, t, rest);
      assert ([c] + rest)[1..] == rest && t[0..] == t;
    }
  }

  lemma {:induction false} EscapeIsNoComma(s: string)
    requires ReadEscape(s).Some?
    ensures s[0] != ','
  {
  }

  lemma {:induction false} EscapeIsHex(t: string)
    requires ReadEscape(['u'] + t).Some?
    ensures HexRun(4, t) && ReadEscape(['u'] + t).value.1 == 5
  {
    assert (['u'] + t)[1..] == t;
  }

  lemma {:induction false} PlainEscape(c: char, t: string, rest: string)
    requires c != 'u' && ReadEscape([c] + t).Some?
    ensures ReadEscape([c] + rest) == ReadEscape([c] + t) && ReadEscape([c] + t).value.1 == 1
  {
  }

  /** What pass 1 does to a string body: the same contents unless it drops a comma there, and
      then less. */
  lemma {:induction false} BodyAfterPassOne(s: string)
    requires ReadBody(true, s).Some?
    ensures var before, after := ReadBody(true, s).value, ReadBody(true, DropCommas(s));
            && after.Some? && after.value.1 == DropCommas(before.1)
            && (if CommaInBody(s) then |after.value.0| < |before.0| else after.value.0 == before.0)
    decreases |s|
  {
    hide DropCommas, ReadEscape, CloserAhead;
    if s[0] == '\\' {
      EscapeUndropped(s);
      BodyAfterPassOne(s[1 + ReadEscape(s[1..]).value.1..]);
    } else {
      DropCommasStep(s);
      if s[0] == ',' && CloserAhead(s[1..]) {
        BodySkipsSpaces(s[1..]);
        var next := s[1 + Spaces(s[1..])..];
        assert s[1..][Spaces(s[1..])..] == next;
        BodyAfterPassOne(next);
      } else if s[0] != '"' {
        BodyAfterPassOne(s[1..]);
      }
    }
  }

  lemma {:induction false} ReadSkipsSpaces(s: string)
    requires Read(true, s).Some?
    ensures Read(true, s[Spaces(s)..]).Some?
    ensures Texts(Read(true, s[Spaces(s)..]).value) == Texts(Read(true, s).value)
    ensures CommaInString(s[Spaces(s)..]) == CommaInString(s)
  {
    if s != "" && IsSpace(s[0]) {
      ReadSkipsSpaces(s[1..]);
      assert s[1..][Spaces(s[1..])..] == s[Spaces(s)..];
      PieceStep(Outside(s[0]), Read(true, s[1..]).value);
    } else {
      assert s[0..] == s;
    }
  }

  lemma {:induction false} PieceStep(p: Piece, ps: seq<Piece>)
    ensures Texts([p] + ps) == (if p.Text? then [p.contents] + Texts(ps) else Texts(ps))
    ensures Shape([p] + ps) == [if p.Text? then Text([]) else p] + Shape(ps)
  {
    assert ([p] + ps)[1..] == ps;
  }

  lemma {:induction false} VolumeStep(t: seq<int>, texts: seq<seq<int>>)
    ensures Volume([t] + texts) == |t| + Volume(texts)
  {
    assert ([t] + texts)[1..] == texts;
  }

  /** What pass 1 does to a whole text: the same strings unless it drops a comma inside one, and
      then less in all. */
  lemma {:induction false} ReadAfterPassOne(s: string)
    requires Read(true, s).Some?
    ensures var before, after := Read(true, s), Read(true, DropCommas(s));
            && after.Some?
            && (if CommaInString(s) then Volume(Texts(after.value)) < Volume(Texts(before.value))
                else Texts(after.value) == Texts(before.value))
    decreases |s|
  {
    hide DropCommas, ReadBody, CloserAhead, Texts, Volume, CommaInBody;
    if s != "" {
      DropCommasStep(s);
      if s[0] == '"' {
        BodyAfterPassOne(s[1..]);
        var (contents, rest) := ReadBody(true, s[1..]).value;
        ReadAfterPassOne(rest);
        var contents' := ReadBody(true, DropCommas(s[1..])).value.0;
        PieceStep(Text(contents), Read(true, rest).value);
        PieceStep(Text(contents'), Read(true, DropCommas(rest)).value);
        VolumeStep(contents, Texts(Read(true, rest).value));
        VolumeStep(contents', Texts(Read(true, DropCommas(rest)).value));
      } else if s[0] == ',' && CloserAhead(s[1..]) {
        var next := s[1 + Spaces(s[1..])..];
        ReadSkipsSpaces(s[1..]);
        assert s[1..][Spaces(s[1..])..] == next;
        PieceStep(Outside(','), Read(true, s[1..]).value);
        ReadAfterPassOne(next);
      } else {
        ReadAfterPassOne(s[1..]);
        PieceStep(Outside(s[0]), Read(true, s[1..]).value);
        PieceStep(Outside(s[0]), Read(true, DropCommas(s[1..])).value);
      }
    } else {
      NothingAtAll();
    }
  }

  lemma {:induction false} NothingAtAll()
    ensures DropCommas("") == "" && Read(true, "") == Some([])
    ensures Shape([]) == [] && Kept([]) == [] && !HasTrailing([]) && !DoubleComma([])
  {
  }

  /** The whole repair keeps every string of a leniently readable text exactly when none of them
      contains a comma followed by a closing bracket. */
  lemma {:induction false} RepairKeepsStringsExactly(s: string)
    requires Read(true, s).Some?
    ensures Read(false, RepairJson(s)).Some?
    ensures Texts(Read(false, RepairJson(s)).value) == Texts(Read(true, s).value) <==> !CommaInString(s)
  {
    hide Read, DropCommas, CommaInString, Texts;
    ReadAfterPassOne(s);
    PassTwoPreservesMeaning(DropCommas(s));
  }

  // ── What pass 1 is for: the commas outside strings ─────────────────────

  /** A reading with the strings emptied: only the text outside them, and where they stood. */
  ghost function Shape(ps: seq<Piece>): seq<Piece> {
    if ps == [] then [] else [if ps[0].Text? then Text([]) else ps[0]] + Shape(ps[1..])
  }

  ghost predicate IsGap(p: Piece) {
    p.Outside? && IsSpace(p.c)
  }

  /** After any spaces comes a closing bracket. */
  ghost predicate Closes(ps: seq<Piece>) {
    ps != [] && (ps[0] == Outside('}') || ps[0] == Outside(']') || (IsGap(ps[0]) && Closes(ps[1..])))
  }

  /** This is a comma standing, but for spaces, directly before a closing bracket. */
  ghost predicate Trailing(ps: seq<Piece>, j: nat) {
    j < |ps| && ps[j] == Outside(',') && Closes(ps[j + 1..])
  }

  /** This is such a comma, or one of the spaces after it. */
  ghost predicate Dropped(ps: seq<Piece>, i: nat) {
    exists j :: 0 <= j <= i < |ps| && Trailing(ps, j) && forall l :: j < l <= i ==> IsGap(ps[l])
  }

  /** What is not dropped, from a place on. */
  ghost function KeptFrom(ps: seq<Piece>, from: nat): seq<Piece>
    requires from <= |ps|
    decreases |ps| - from
  {
    if from == |ps| then [] else (if Dropped(ps, from) then [] else [ps[from]]) + KeptFrom(ps, from + 1)
  }

  ghost function Kept(ps: seq<Piece>): seq<Piece> {
    KeptFrom(ps, 0)
  }

  ghost function AfterGaps(ps: seq<Piece>): (rest: seq<Piece>)
    ensures |rest| <= |ps|
  {
    if ps != [] && IsGap(ps[0]) then AfterGaps(ps[1..]) else ps
  }

  lemma {:induction false} GapsThenRest(ps: seq<Piece>)
    ensures var rest := AfterGaps(ps);
            && rest == ps[|ps| - |rest|..]
            && (forall l :: 0 <= l < |ps| - |rest| ==> IsGap(ps[l]))
            && (Closes(ps) ==> rest != [] && !IsGap(rest[0]))
  {
    if ps != [] && IsGap(ps[0]) {
      GapsThenRest(ps[1..]);
      var n := |ps| - |AfterGaps(ps)|;
      assert ps[1..][n - 1..] == ps[n..];
      assert forall l :: 0 < l < n ==> ps[l] == ps[1..][l - 1];
    }
  }

  /** Nothing that starts before a place is dropped at it or after. */
  ghost predicate CleanCut(ps: seq<Piece>, n: nat)
    requires n <= |ps|
  {
    n == |ps| || !IsGap(ps[n]) || forall j :: 0 <= j < n ==> !Trailing(ps, j)
  }

  lemma {:induction false} DroppedAfterCut(ps: seq<Piece>, n: nat, i: nat)
    requires n <= |ps| && CleanCut(ps, n) && i < |ps| - n
    ensures Dropped(ps, n + i) <==> Dropped(ps[n..], i)
  {
    var rest := ps[n..];
    if Dropped(rest, i) {
      var j :| 0 <= j <= i < |rest| && Trailing(rest, j) && forall l :: j < l <= i ==> IsGap(rest[l]);
      assert ps[n + j + 1..] == rest[j + 1..];
      assert Trailing(ps, n + j);
      assert forall l :: n + j < l <= n + i ==> ps[l] == rest[l - n];
    }
    if Dropped(ps, n + i) {
      var j :| 0 <= j <= n + i < |ps| && Trailing(ps, j) && forall l :: j < l <= n + i ==> IsGap(ps[l]);
      assert j >= n;
      assert ps[j + 1..] == rest[j - n + 1..];
      assert Trailing(rest, j - n);
    }
  }

  lemma {:induction false} KeptAfterCut(ps: seq<Piece>, n: nat, i: nat)
    requires n <= |ps| && CleanCut(ps, n) && i <= |ps| - n
    ensures KeptFrom(ps, n + i) == KeptFrom(ps[n..], i)
    decreases |ps| - i
  {
    hide Dropped, CleanCut;
    var rest := ps[n..];
    if i < |rest| {
      DroppedAfterCut(ps, n, i);
      KeptAfterCut(ps, n, i + 1);
      assert rest[i] == ps[n + i];
    }
  }

  lemma {:induction false} NoneKept(ps: seq<Piece>, from: nat, upTo: nat)
    requires from <= upTo <= |ps| && forall i :: from <= i < upTo ==> Dropped(ps, i)
    ensures KeptFrom(ps, from) == KeptFrom(ps, upTo)
    decreases upTo - from
  {
    hide Dropped;
    if from < upTo {
      NoneKept(ps, from + 1, upTo);
    }
  }

  /** The text kept, read from the left. */
  lemma {:induction false} KeptStep(ps: seq<Piece>)
    requires ps != []
    ensures Kept(ps) == if ps[0] == Outside(',') && Closes(ps[1..]) then Kept(AfterGaps(ps[1..]))
                        else [ps[0]] + Kept(ps[1..])
  {
    hide Closes, AfterGaps, Dropped, Trailing, IsGap;
    if Trailing(ps, 0) {
      assert Closes(ps[1..]) by {
        FirstTrails(ps);
      }
      var n := DroppedRun(ps);
      NoneKept(ps, 0, n);
      KeptAfterCut(ps, n, 0);
    } else {
      FirstTrails(ps);
      assert !Trailing(ps, 0);
      KeptAfterCut(ps, 1, 0);
    }
    FirstTrails(ps);
  }

  lemma {:induction false} FirstTrails(ps: seq<Piece>)
    requires ps != []
    ensures Trailing(ps, 0) <==> ps[0] == Outside(',') && Closes(ps[1..])
    ensures Dropped(ps, 0) <==> Trailing(ps, 0)
    ensures !Trailing(ps, 0) ==> CleanCut(ps, 1)
  {
    hide Closes;
  }

  /** A trailing comma at the start goes, and the spaces after it. */
  lemma {:induction false} DroppedRun(ps: seq<Piece>) returns (n: nat)
    requires Trailing(ps, 0)
    ensures 0 < n <= |ps| && ps[n..] == AfterGaps(ps[1..]) && CleanCut(ps, n)
    ensures forall i :: 0 <= i < n ==> Dropped(ps, i)
  {
    hide Closes, AfterGaps, IsGap;
    var rest := AfterGaps(ps[1..]);
    GapsThenRest(ps[1..]);
    n := |ps| - |rest|;
    assert ps[n..] == ps[1..][n - 1..] == rest && ps[n] == rest[0];
    assert forall l :: 0 < l < n ==> ps[l] == ps[1..][l - 1];
    forall i | 0 <= i < n ensures Dropped(ps, i) {
      assert Trailing(ps, 0);
    }
  }

  /** The reader and the pattern see the same closing bracket ahead. */
  lemma {:induction false} ClosesIsCloserAhead(s: string)
    requires Read(true, s).Some?
    ensures Closes(Shape(Read(true, s).value)) <==> CloserAhead(s)
    ensures Read(true, s[Spaces(s)..]).Some?
    ensures AfterGaps(Shape(Read(true, s).value)) == Shape(Read(true, s[Spaces(s)..]).value)
  {
    hide Read, Shape, IsSpace;
    if s == "" {
      NothingAtAll();
    } else if s[0] == '"' {
      QuoteRead(s);
      assert s[0..] == s;
    } else {
      ReadStep(s);
      var ps := Shape(Read(true, s[1..]).value);
      PieceStep(Outside(s[0]), Read(true, s[1..]).value);
      assert ([Outside(s[0])] + ps)[1..] == ps;
      if IsSpace(s[0]) {
        ClosesIsCloserAhead(s[1..]);
        assert s[1..][Spaces(s[1..])..] == s[Spaces(s)..];
      } else {
        assert s[0..] == s;
      }
    }
  }

  lemma {:induction false} QuoteRead(s: string)
    requires s != "" && s[0] == '"' && Read(true, s).Some?
    ensures var ps := Shape(Read(true, s).value); ps != [] && ps[0].Text?
    ensures !IsSpace(s[0])
  {
  }

  lemma {:induction false} ReadStep(s: string)
    requires s != "" && s[0] != '"' && Read(true, s).Some?
    ensures Read(true, s[1..]).Some?
    ensures Read(true, s).value == [Outside(s[0])] + Read(true, s[1..]).value
    ensures IsSpace(s[0]) ==> s[0] !in {'}', ']'}
  {
  }

  /** Outside strings pass 1 drops the trailing commas and their spaces, and nothing else. */
  lemma {:induction false} ShapeAfterPassOne(s: string)
    requires Read(true, s).Some?
    ensures var after := Read(true, DropCommas(s));
            after.Some? && Shape(after.value) == Kept(Shape(Read(true, s).value))
    decreases |s|
  {
    hide DropCommas, ReadBody, CloserAhead, Shape, Kept, Closes, AfterGaps;
    if s == "" {
      NothingAtAll();
    } else {
      DropCommasStep(s);
      if s[0] == '"' {
        BodyAfterPassOne(s[1..]);
        var (contents, rest) := ReadBody(true, s[1..]).value;
        var contents' := ReadBody(true, DropCommas(s[1..])).value.0;
        ShapeAfterPassOne(rest);
        HeadKept(Text(contents), Read(true, rest).value);
        PieceStep(Text(contents'), Read(true, DropCommas(rest)).value);
      } else {
        ClosesIsCloserAhead(s[1..]);
        HeadKept(Outside(s[0]), Read(true, s[1..]).value);
        if s[0] == ',' && CloserAhead(s[1..]) {
          var next := s[1 + Spaces(s[1..])..];
          assert s[1..][Spaces(s[1..])..] == next;
          ShapeAfterPassOne(next);
        } else {
          ShapeAfterPassOne(s[1..]);
          PieceStep(Outside(s[0]), Read(true, DropCommas(s[1..])).value);
        }
      }
    }
  }

  lemma {:induction false} HeadKept(p: Piece, ps: seq<Piece>)
    ensures Kept(Shape([p] + ps))
            == if p == Outside(',') && Closes(Shape(ps)) then Kept(AfterGaps(Shape(ps)))
               else [if p.Text? then Text([]) else p] + Kept(Shape(ps))
  {
    hide Kept, AfterGaps, Closes;
    PieceStep(p, ps);
    var whole := Shape([p] + ps);
    assert whole[1..] == Shape(ps);
    KeptStep(whole);
  }

  /** What the repair does outside strings, to every leniently readable text: the strict reader
      takes the result, and what it finds outside strings is what was there before, less exactly
      each comma that stands directly before '}' or ']' and the spaces between. */
  lemma {:induction false} RepairDropsTrailingCommas(s: string)
    requires Read(true, s).Some?
    ensures Read(false, RepairJson(s)).Some?
    ensures Shape(Read(false, RepairJson(s)).value) == Kept(Shape(Read(true, s).value))
  {
    hide Read, DropCommas, Shape, Kept;
    ShapeAfterPassOne(s);
    PassTwoPreservesMeaning(DropCommas(s));
  }

  /** With no comma dropped inside a string, that is the whole difference. */
  lemma {:induction false} RepairIsExact(s: string)
    requires Read(true, s).Some? && !CommaInString(s)
    ensures Read(false, RepairJson(s)) == Some(Kept(Read(true, s).value))
  {
    hide Read, DropCommas, Kept, CommaInString, RepairJson;
    RepairDropsTrailingCommas(s);
    RepairKeepsStringsExactly(s);
    var before, after := Read(true, s).value, Read(false, RepairJson(s)).value;
    KeptShape(before);
    KeptTexts(before);
    SameReading(after, Kept(before));
  }

  /** A reading is its shape and its strings. */
  lemma {:induction false} SameReading(ps: seq<Piece>, qs: seq<Piece>)
    requires Shape(ps) == Shape(qs) && Texts(ps) == Texts(qs)
    ensures ps == qs
  {
    if ps != [] && qs != [] {
      assert ps == [ps[0]] + ps[1..] && qs == [qs[0]] + qs[1..];
      assert Shape(ps)[0] == Shape(qs)[0] && Shape(ps)[1..] == Shape(ps[1..]) && Shape(qs)[1..] == Shape(qs[1..]);
      PieceStep(ps[0], ps[1..]);
      PieceStep(qs[0], qs[1..]);
      assert ps[0].Text? ==> Texts(ps)[0] == ps[0].contents && Texts(ps)[1..] == Texts(ps[1..]);
      assert qs[0].Text? ==> Texts(qs)[0] == qs[0].contents && Texts(qs)[1..] == Texts(qs[1..]);
      SameReading(ps[1..], qs[1..]);
    }
  }

  lemma {:induction false} ShapeGaps(ps: seq<Piece>)
    ensures Closes(Shape(ps)) <==> Closes(ps)
    ensures AfterGaps(Shape(ps)) == Shape(AfterGaps(ps))
    ensures Texts(AfterGaps(ps)) == Texts(ps)
  {
    hide IsSpace, Shape, Texts;
    if ps == [] {
      NothingAtAll();
    } else {
      var head := if ps[0].Text? then Text([]) else ps[0];
      assert ps == [ps[0]] + ps[1..];
      PieceStep(ps[0], ps[1..]);
      assert ([head] + Shape(ps[1..]))[1..] == Shape(ps[1..]);
      if IsGap(ps[0]) {
        ShapeGaps(ps[1..]);
      }
    }
  }

  lemma {:induction false} KeptShape(ps: seq<Piece>)
    ensures Kept(Shape(ps)) == Shape(Kept(ps))
    decreases |ps|
  {
    hide Kept, Closes, AfterGaps;
    if ps == [] {
      NothingAtAll();
    } else {
      assert ps == [ps[0]] + ps[1..];
      HeadKept(ps[0], ps[1..]);
      KeptStep(ps);
      ShapeGaps(ps[1..]);
      KeptShape(AfterGaps(ps[1..]));
      KeptShape(ps[1..]);
      PieceStep(ps[0], Kept(ps[1..]));
    }
  }

  lemma {:induction false} KeptTexts(ps: seq<Piece>)
    ensures Texts(Kept(ps)) == Texts(ps)
    decreases |ps|
  {
    hide Kept, Closes, AfterGaps;
    if ps == [] {
      NothingAtAll();
    } else {
      KeptStep(ps);
      ShapeGaps(ps[1..]);
      KeptTexts(AfterGaps(ps[1..]));
      KeptTexts(ps[1..]);
      PieceStep(ps[0], Kept(ps[1..]));
    }
  }

  /** After any spaces comes a trailing comma. */
  ghost predicate CommaAhead(ps: seq<Piece>) {
    ps != [] && ((ps[0] == Outside(',') && Closes(ps[1..])) || (IsGap(ps[0]) && CommaAhead(ps[1..])))
  }

  /** A comma standing, but for spaces, directly before a trailing comma. */
  ghost predicate DoubleComma(ps: seq<Piece>) {
    exists j :: 0 <= j < |ps| && ps[j] == Outside(',') && CommaAhead(ps[j + 1..])
  }

  ghost predicate HasTrailing(ps: seq<Piece>) {
    exists j :: 0 <= j < |ps| && Trailing(ps, j)
  }

  lemma {:induction false} TrailingStep(p: Piece, ps: seq<Piece>)
    ensures HasTrailing([p] + ps) <==> (p == Outside(',') && Closes(ps)) || HasTrailing(ps)
  {
    hide Closes;
    var whole := [p] + ps;
    assert whole[0 + 1..] == ps;
    if HasTrailing(ps) {
      var j :| 0 <= j < |ps| && Trailing(ps, j);
      assert whole[j + 1 + 1..] == ps[j + 1..];
      assert Trailing(whole, j + 1);
    }
    if HasTrailing(whole) {
      var j :| 0 <= j < |whole| && Trailing(whole, j);
      if j > 0 {
        assert whole[j + 1..] == ps[j - 1 + 1..];
        assert Trailing(ps, j - 1);
      }
    }
    if p == Outside(',') && Closes(ps) {
      assert Trailing(whole, 0);
    }
  }

  lemma {:induction false} DoubleStep(ps: seq<Piece>)
    requires ps != []
    ensures DoubleComma(ps) <==> (ps[0] == Outside(',') && CommaAhead(ps[1..])) || DoubleComma(ps[1..])
  {
    hide CommaAhead;
    var rest := ps[1..];
    if DoubleComma(rest) {
      var j :| 0 <= j < |rest| && rest[j] == Outside(',') && CommaAhead(rest[j + 1..]);
      assert ps[j + 1 + 1..] == rest[j + 1..] && ps[j + 1] == rest[j];
    }
    if DoubleComma(ps) {
      var j :| 0 <= j < |ps| && ps[j] == Outside(',') && CommaAhead(ps[j + 1..]);
      if j > 0 {
        assert ps[j + 1..] == rest[j - 1 + 1..] && rest[j - 1] == ps[j];
      }
    }
  }

  lemma {:induction false} DoubleAfterGaps(ps: seq<Piece>)
    ensures DoubleComma(AfterGaps(ps)) <==> DoubleComma(ps)
    ensures Closes(ps) ==> Closes(AfterGaps(ps)) && !CommaAhead(ps)
  {
    hide DoubleComma;
    if ps != [] && IsGap(ps[0]) {
      DoubleStep(ps);
      DoubleAfterGaps(ps[1..]);
    }
  }

  /** What stands ahead of a place once the trailing commas are gone. */
  lemma {:induction false} KeptCloses(ps: seq<Piece>)
    ensures Closes(Kept(ps)) <==> Closes(ps) || CommaAhead(ps)
    decreases |ps|
  {
    hide Kept;
    if ps == [] {
      NothingAtAll();
    } else {
      KeptStep(ps);
      if ps[0] == Outside(',') && Closes(ps[1..]) {
        DoubleAfterGaps(ps[1..]);
        KeptCloses(AfterGaps(ps[1..]));
      } else {
        KeptCloses(ps[1..]);
        assert Kept(ps)[1..] == Kept(ps[1..]);
      }
    }
  }

  /** One pass is not always enough: a trailing comma is left exactly where two commas stood
      before one closing bracket, with nothing but spaces about them. */
  lemma {:induction false} TrailingCommaLeftExactly(ps: seq<Piece>)
    ensures HasTrailing(Kept(ps)) <==> DoubleComma(ps)
    decreases |ps|
  {
    hide Kept, Closes, CommaAhead, HasTrailing, DoubleComma, AfterGaps;
    if ps == [] {
      NothingAtAll();
    } else {
      KeptStep(ps);
      DoubleStep(ps);
      if ps[0] == Outside(',') && Closes(ps[1..]) {
        DoubleAfterGaps(ps[1..]);
        TrailingCommaLeftExactly(AfterGaps(ps[1..]));
      } else {
        TrailingStep(ps[0], Kept(ps[1..]));
        KeptCloses(ps[1..]);
        TrailingCommaLeftExactly(ps[1..]);
      }
    }
  }

  /** So the repaired text still has a trailing comma outside strings exactly when the text had two
      commas in a row before a closing bracket, as in `[1,,]`. */
  lemma {:induction false} RepairLeavesCommaExactly(s: string)
    requires Read(true, s).Some?
    ensures Read(false, RepairJson(s)).Some?
    ensures HasTrailing(Shape(Read(false, RepairJson(s)).value)) <==> DoubleComma(Shape(Read(true, s).value))
  {
    hide Read, RepairJson, Shape, Kept, HasTrailing, DoubleComma;
    RepairDropsTrailingCommas(s);
    TrailingCommaLeftExactly(Shape(Read(true, s).value));
  }

  /** A string that ends ",]" loses its comma. */
  lemma {:induction false} CommaInsideAStringIsDropped()
    ensures RepairJson("\"a,]\"") == "\"a]\""
  {
    hide Escaped;
    var s := "\"a,]\"";
    assert s[1..] == "a,]\"" && s[2..] == ",]\"" && s[3..] == "]\"" && s[4..] == "\"" && s[5..] == "";
    assert DropCommas(s[4..]) == "\"" by { assert s[4..][1..] == ""; }
    assert DropCommas(s[3..]) == "]\"" by { assert s[3..][1..] == s[4..]; }
    assert DropCommas(s[2..]) == "]\"" by {
      assert s[2..][1..] == s[3..] && Spaces(s[3..]) == 0 && s[2..][1..] == s[2..][1 + 0..];
    }
    assert DropCommas(s[1..]) == "a]\"" by { assert s[1..][1..] == s[2..]; }
    assert DropCommas(s) == "\"a]\"";
    var t := "\"a]\"";
    assert t[1..] == "a]\"" && t[1..][1..] == "]\"" && t[1..][1..][1..] == "\"" && t[1..][1..][1..][1..] == "";
    EscapedStep(OUTSIDE, t);
    EscapedStep(INSIDE, t[1..]);
    EscapedStep(INSIDE, t[1..][1..]);
    EscapedStep(INSIDE, t[1..][1..][1..]);
    EscapedEmpty(OUTSIDE);
  }

  /** Two commas before one closing bracket: the repair leaves one of them. */
  lemma {:induction false} SecondCommaStays()
    ensures RepairJson("[1,,]") == "[1,]"
  {
    hide Escaped;
    var s := "[1,,]";
    assert s[1..] == "1,,]" && s[2..] == ",,]" && s[3..] == ",]" && s[4..] == "]" && s[5..] == "";
    assert DropCommas(s[4..]) == "]" by { assert s[4..][1..] == ""; }
    assert DropCommas(s[3..]) == "]" by {
      assert s[3..][1..] == s[4..] && Spaces(s[4..]) == 0 && s[3..][1..] == s[3..][1 + 0..];
    }
    assert DropCommas(s[2..]) == ",]" by { assert s[2..][1..] == s[3..] && Spaces(s[3..]) == 0; }
    assert DropCommas(s[1..]) == "1,]" by { assert s[1..][1..] == s[2..]; }
    assert DropCommas(s) == "[1,]";
    StaysOutside("[1,]");
  }

  /** Text without quotes comes through pass 2 unchanged. */
  lemma {:induction false} StaysOutside(s: string)
    requires '"' !in s
    ensures Escaped(OUTSIDE, s) == s
  {
    hide Escaped;
    if s == "" {
      EscapedEmpty(OUTSIDE);
    } else {
      EscapedStep(OUTSIDE, s);
      StaysOutside(s[1..]);
      assert s == [s[0]] + s[1..];
    }
  }
}
