/**
 The reader of an object literal's top-level keys.

 The loop is proved against a recursive reading of the text, and the reading against
 printing: an object's entries are texts as in `CallScanner`, each one's name is what
 stands before its first colon, and the question is when reading the printed object
 gives the names back.
 */
module KeyScanner {
  import opened Basics
  import opened CallScanner
  import opened Strings

  datatype Keys = Unreadable | Keys(names: seq<string>)

  predicate IsNameStart(c: char) {
    'A' <= c <= 'Z' || 'a' <= c <= 'z' || c == '_'
  }

  predicate IsIdentifier(name: string) {
    name != "" && IsNameStart(name[0]) && forall c <- name :: IsNameStart(c) || '0' <= c <= '9'
  }

  /** A name is letters, digits and underscores, and does not start with a digit. */
  lemma {:induction false} IdentifierExactly(name: string)
    ensures IsIdentifier(name) <==>
              && |name| > 0
              && (forall i :: 0 <= i < |name| ==>
                    name[i] == '_' || 48 <= name[i] as int <= 57 || 65 <= name[i] as int <= 90
                    || 97 <= name[i] as int <= 122)
              && !(48 <= name[0] as int <= 57)
  {
    assert IsIdentifier(name) ==> forall i :: 0 <= i < |name| ==> name[i] in name;
  }

  function BeforeColon(s: string): string {
    if s == "" || s[0] == ':' then "" else [s[0]] + BeforeColon(s[1..])
  }

  /** The name an entry is taken to have: its text before the first colon, stripped. */
  function Name(piece: string): string {
    Strip(BeforeColon(piece))
  }

  // ── Reading ────────────────────────────────────────────────────────────

  datatype Reading = Reading(depth: int, quote: Option<char>, piece: string, keys: seq<string>)

  /** One character; `None` when an entry has no readable name. Escapes are not looked at. */
  function Step(ch: char, s: Reading): Option<Reading> {
    if s.quote.Some? then
      Some(s.(piece := s.piece + [ch], quote := if ch == s.quote.value then None else s.quote))
    else if IsQuote(ch) then Some(s.(quote := Some(ch), piece := s.piece + [ch]))
    else
      var depth := if IsOpen(ch) then s.depth + 1 else if IsClose(ch) then s.depth - 1 else s.depth;
      if ch == ',' && depth == 0 then
        var name := Name(s.piece);
        if name == "" then Some(s.(piece := ""))
        else if !IsIdentifier(name) then None
        else Some(s.(piece := "", keys := s.keys + [name]))
      else Some(s.(depth := depth, piece := s.piece + [ch]))
  }

  function Read(text: string, s: Reading): Keys {
    if text == "" then Keys(s.keys)
    else
      var next := Step(text[0], s);
      if next.None? then Unreadable else Read(text[1..], next.value)
  }

  const START := Reading(0, None, "", [])

  /** What stands between the braces, stripped; `None` without braces. */
  function BodyOf(argument: string): Option<string> {
    var text := Strip(argument);
    if text != "" && text[0] == '{' && text[|text| - 1] == '}' then Some(Strip(text[1..|text| - 1])) else None
  }

  function KeysIn(argument: string): Keys {
    var body := BodyOf(argument);
    if body.None? then Unreadable
    else if body.value == "" then Keys([])
    else Read(body.value + ",", START)
  }

  method KeysOf(argument: string) returns (r: Keys)
    ensures r == KeysIn(argument)
  {
    var text := Strip(argument);
    if !(text != "" && text[0] == '{' && text[|text| - 1] == '}') {
      return Unreadable;
    }
    var body := Strip(text[1..|text| - 1]);
    if body == "" {
      return Keys([]);
    }
    var line := body + ",";
    var keys: seq<string>, depth: int, quote: Option<char>, piece := [], 0, None, "";
    ghost var s := START;
    for i := 0 to |line|
      invariant s == Reading(depth, quote, piece, keys)
      invariant Read(line[i..], s) == Read(line, START)
    {
      hide Read, IsQuote, IsOpen, IsClose, IsIdentifier, Name;
      var ch := line[i];
      assert line[i..] == [ch] + line[i + 1..];
      ReadOne(ch, line[i + 1..], s);
      s := if Step(ch, s).Some? then Step(ch, s).value else s;
      if quote.Some? {
        piece := piece + [ch];
        if ch == quote.value {
          quote := None;
        }
        continue;
      }
      if IsQuote(ch) {
        quote := Some(ch);
        piece := piece + [ch];
        continue;
      }
      if IsOpen(ch) {
        depth := depth + 1;
      } else if IsClose(ch) {
        depth := depth - 1;
      }
      if ch == ',' && depth == 0 {
        var name := Name(piece);
        piece := "";
        if name == "" {
          continue;
        }
        if !IsIdentifier(name) {
          return Unreadable;
        }
        keys := keys + [name];
        continue;
      }
      piece := piece + [ch];
    }
    return Keys(keys);
  }

  lemma {:induction false} ReadOne(ch: char, rest: string, s: Reading)
    ensures Read([ch] + rest, s) == if Step(ch, s).None? then Unreadable else Read(rest, Step(ch, s).value)
  {
    assert ([ch] + rest)[1..] == rest;
  }

  // ── Stripping ──────────────────────────────────────────────────────────

  lemma {:induction false} StripLeftSkips(w: string, q: string)
    requires Blank(w)
    ensures StripLeft(w + q) == StripLeft(q)
  {
    if w == "" {
      assert w + q == q;
    } else {
      assert (w + q)[1..] == w[1..] + q;
      StripLeftSkips(w[1..], q);
    }
  }

  lemma {:induction false} StripRightSkips(q: string, v: string)
    requires Blank(v)
    ensures StripRight(q + v) == StripRight(q)
  {
    if v == "" {
      assert q + v == q;
    } else {
      assert (q + v)[..|q + v| - 1] == q + v[..|v| - 1];
      StripRightSkips(q, v[..|v| - 1]);
    }
  }

  /** Blank text around a text does not survive stripping. */
  lemma {:induction false} StripSkips(w: string, q: string, v: string)
    requires Blank(w) && Blank(v)
    ensures Strip(w + q + v) == Strip(q)
  {
    assert w + q + v == w + (q + v);
    StripLeftSkips(w, q + v);
    if Blank(q) {
      StripLeftSkips(q, v);
      StripLeftSkips(v, "");
      StripLeftSkips(q, "");
      assert v + "" == v && q + "" == q;
    } else {
      StripLeftExtends(q, v);
      StripRightSkips(StripLeft(q), v);
    }
  }

  /** Stripping takes blank text off both ends and nothing else. */
  lemma {:induction false} StripSplits(s: string) returns (w: string, v: string)
    ensures Blank(w) && Blank(v) && s == w + Strip(s) + v
  {
    w := LeftSplits(s);
    v := RightSplits(StripLeft(s));
    assert w + (Strip(s) + v) == w + Strip(s) + v;
  }

  lemma {:induction false} LeftSplits(s: string) returns (w: string)
    ensures Blank(w) && s == w + StripLeft(s)
  {
    w := "";
    if s != "" && IsSpace(s[0]) {
      var more := LeftSplits(s[1..]);
      w := [s[0]] + more;
    }
  }

  lemma {:induction false} RightSplits(s: string) returns (v: string)
    ensures Blank(v) && s == StripRight(s) + v
  {
    v := "";
    if s != "" && IsSpace(s[|s| - 1]) {
      var more := RightSplits(s[..|s| - 1]);
      v := more + [s[|s| - 1]];
    }
  }

  lemma {:induction false} BeforeColonOf(u: string, v: string)
    ensures ':' !in u ==> BeforeColon(u + v) == u + BeforeColon(v)
    ensures ':' in u ==> BeforeColon(u + v) == BeforeColon(u)
  {
    if u == "" {
      assert u + v == v;
    } else {
      assert (u + v)[1..] == u[1..] + v && u == [u[0]] + u[1..];
      BeforeColonOf(u[1..], v);
    }
  }

  /** Blank text around a piece does not change its name. */
  lemma {:induction false} NameSkips(w: string, piece: string, v: string)
    requires Blank(w) && Blank(v)
    ensures Name(w + piece + v) == Name(piece)
  {
    hide BeforeColon, Strip;
    BeforeColonOf(w, piece + v);
    assert w + piece + v == w + (piece + v);
    BeforeColonOf(piece, v);
    var q := BeforeColon(piece);
    if ':' in piece {
      StripSkips(w, q, "");
      assert w + q + "" == w + q;
    } else {
      BeforeColonOf(piece, "");
      BeforeColonOf(v, "");
      assert piece + "" == piece && v + "" == v;
      NothingBeforeEnd();
      StripSkips(w, piece, v);
      assert w + piece + v == w + (piece + v) && piece + BeforeColon("") == piece;
    }
  }

  lemma {:induction false} NothingBeforeEnd()
    ensures BeforeColon("") == "" && Blank("")
  {
  }

  // ── The spaces around a body make no difference ────────────────────────

  /** Two readings that differ by blank text in front of the open piece read on alike. */
  lemma {:induction false} BlankLeadIsNothing(text: string, s: Reading, w: string)
    requires Blank(w)
    ensures Read(text, s) == Read(text, s.(piece := w + s.piece))
  {
    hide Name, IsIdentifier, IsQuote, IsOpen, IsClose;
    if text != "" {
      var ch := text[0];
      NameSkips(w, s.piece, "");
      assert w + s.piece + "" == w + s.piece && (w + s.piece) + [ch] == w + (s.piece + [ch]);
      var next := Step(ch, s);
      if next.Some? {
        BlankLeadIsNothing(text[1..], next.value, w);
        BlankLeadIsNothing(text[1..], next.value, "");
        assert "" + next.value.piece == next.value.piece;
      }
    }
  }

  predicate Quiet(c: char) {
    !IsQuote(c) && !IsOpen(c) && !IsClose(c) && c != ','
  }

  lemma {:induction false} BlankIsQuiet(w: string)
    requires Blank(w)
    ensures forall c <- w :: Quiet(c)
  {
  }

  /** Outside literals, plain characters only lengthen the open piece. */
  lemma {:induction false} ReadQuiet(u: string, rest: string, s: Reading)
    requires (forall c <- u :: Quiet(c)) && s.quote == None
    ensures Read(u + rest, s) == Read(rest, s.(piece := s.piece + u))
  {
    if u == "" {
      assert u + rest == rest && s.piece + u == s.piece;
    } else {
      hide Read, IsQuote, IsOpen, IsClose;
      assert u[0] in u;
      assert u + rest == [u[0]] + (u[1..] + rest) && s.piece + u == s.piece + [u[0]] + u[1..];
      ReadOne(u[0], u[1..] + rest, s);
      ReadQuiet(u[1..], rest, s.(piece := s.piece + [u[0]]));
    }
  }

  /** Blank text before the last comma reads like none. */
  lemma {:induction false} BlankEndIsNothing(text: string, v: string, s: Reading)
    requires Blank(v) && (s.quote.Some? ==> IsQuote(s.quote.value))
    ensures Read(text + v + ",", s) == Read(text + ",", s)
  {
    hide Read, Name, IsIdentifier, IsQuote, IsOpen, IsClose, Blank;
    if text == "" {
      assert text + v + "," == v + "," && text + "," == ",";
      BlankThenComma(v, s);
    } else {
      assert text + v + "," == [text[0]] + (text[1..] + v + ",") && text + "," == [text[0]] + (text[1..] + ",");
      ReadOne(text[0], text[1..] + v + ",", s);
      ReadOne(text[0], text[1..] + ",", s);
      if Step(text[0], s).Some? {
        BlankEndIsNothing(text[1..], v, Step(text[0], s).value);
      }
    }
  }

  lemma {:induction false} BlankThenComma(v: string, s: Reading)
    requires Blank(v) && (s.quote.Some? ==> IsQuote(s.quote.value))
    ensures Read(v + ",", s) == Read(",", s)
  {
    hide Read, Name, IsIdentifier;
    ReadNothing(s);
    ReadNothing(s.(piece := s.piece + v));
    if s.quote.Some? {
      ReadQuoted(v, ",", s);
    } else {
      ReadQuiet(v, ",", s);
      NameSkips("", s.piece, v);
      assert "" + s.piece + v == s.piece + v;
    }
  }

  lemma {:induction false} ReadNothing(s: Reading)
    ensures Read("", s) == Keys(s.keys) && Walk("", s) == Some(s)
    ensures Read(",", s) == if Step(',', s).None? then Unreadable else Keys(Step(',', s).value.keys)
  {
  }

  /** Inside a literal everything but its quote is taken as it comes. */
  lemma {:induction false} ReadQuoted(u: string, rest: string, s: Reading)
    requires s.quote.Some? && s.quote.value !in u
    ensures Read(u + rest, s) == Read(rest, s.(piece := s.piece + u))
  {
    if u == "" {
      assert u + rest == rest && s.piece + u == s.piece;
    } else {
      hide Read;
      assert u + rest == [u[0]] + (u[1..] + rest) && s.piece + u == s.piece + [u[0]] + u[1..];
      ReadOne(u[0], u[1..] + rest, s);
      ReadQuoted(u[1..], rest, s.(piece := s.piece + [u[0]]));
    }
  }

  /** Whatever a body is, stripping it first reads the same keys. */
  lemma {:induction false} StrippingChangesNothing(body: string)
    ensures Read(Strip(body) + ",", START) == Read(body + ",", START)
  {
    hide Read, Strip, Blank;
    var w, v := StripSplits(body);
    var core := Strip(body);
    assert body + "," == w + (core + v + ",");
    BlankIsQuiet(w);
    ReadQuiet(w, core + v + ",", START);
    assert "" + w == w + "";
    BlankLeadIsNothing(core + v + ",", START, w);
    BlankEndIsNothing(core, v, START);
  }

  /** Reading the text between the braces needs no care for the spaces around or inside them. */
  lemma {:induction false} ReadsTheInside(before: string, inside: string, after: string)
    requires Blank(before) && Blank(after)
    ensures KeysIn(before + ("{" + inside + "}") + after) == Read(inside + ",", START)
  {
    hide Read;
    var core := "{" + inside + "}";
    StripSkips(before, core, after);
    assert core[0] == '{' && core[|core| - 1] == '}' && core[1..|core| - 1] == inside;
    assert StripLeft(core) == core && StripRight(core) == core;
    StrippingChangesNothing(inside);
    if Strip(inside) == "" {
      assert "" + "," == [','] + "";
      ReadOne(',', "", START);
      NothingBeforeEnd();
      assert Name("") == "";
      ReadNothing(START);
    }
  }

  // ── Entries the scanner reads to their end ─────────────────────────────

  /** Where the scanner's own count of brackets and quotes stands after `u`; `None` if it meets a
      comma outside all of them. */
  function Look(u: string, depth: int, quote: Option<char>): Option<(int, Option<char>)> {
    if u == "" then Some((depth, quote))
    else if quote.Some? then Look(u[1..], depth, if u[0] == quote.value then None else quote)
    else if IsQuote(u[0]) then Look(u[1..], depth, Some(u[0]))
    else
      var deeper := if IsOpen(u[0]) then depth + 1 else if IsClose(u[0]) then depth - 1 else depth;
      if u[0] == ',' && deeper == 0 then None else Look(u[1..], deeper, None)
  }

  /** The scanner, reading `u` its own way, ends where it began and meets no top-level comma. */
  predicate Closes(u: string) {
    Look(u, 0, None) == Some((0, None))
  }

  lemma {:induction false} LookSplit(u: string, v: string, depth: int, quote: Option<char>)
    ensures var half := Look(u, depth, quote);
            Look(u + v, depth, quote) == if half.None? then None else Look(v, half.value.0, half.value.1)
    decreases |u|
  {
    if u == "" {
      assert u + v == v;
    } else {
      hide IsQuote, IsOpen, IsClose;
      assert (u + v)[0] == u[0] && (u + v)[1..] == u[1..] + v;
      var ch := u[0];
      var deeper := if IsOpen(ch) then depth + 1 else if IsClose(ch) then depth - 1 else depth;
      if quote.Some? {
        LookSplit(u[1..], v, depth, if ch == quote.value then None else quote);
      } else {
        LookSplit(u[1..], v, depth, Some(ch));
        LookSplit(u[1..], v, deeper, None);
      }
    }
  }

  /** A text read without a top-level comma goes into the open piece whole. */
  lemma {:induction false} ReadRun(u: string, rest: string, s: Reading)
    requires Look(u, s.depth, s.quote).Some?
    ensures var (depth, quote) := Look(u, s.depth, s.quote).value;
            Read(u + rest, s) == Read(rest, s.(depth := depth, quote := quote, piece := s.piece + u))
  {
    if u == "" {
      assert u + rest == rest && s.piece + u == s.piece;
    } else {
      hide Read, Name, IsIdentifier, IsQuote, IsOpen, IsClose;
      assert u + rest == [u[0]] + (u[1..] + rest) && s.piece + u == s.piece + [u[0]] + u[1..];
      ReadOne(u[0], u[1..] + rest, s);
      QuotesAreNotBrackets(u[0]);
      ReadRun(u[1..], rest, Step(u[0], s).value);
    }
  }

  /** Printed entries, each with a comma after it. */
  function Lines(entries: seq<string>): string {
    if entries == [] then "" else entries[0] + ([','] + Lines(entries[1..]))
  }

  ghost predicate Named(entry: string) {
    Name(entry) == "" || IsIdentifier(Name(entry))
  }

  /** The names of the entries in order, leaving out the nameless ones. */
  function NamesOf(entries: seq<string>): seq<string> {
    if entries == [] then []
    else (if Name(entries[0]) == "" then [] else [Name(entries[0])]) + NamesOf(entries[1..])
  }

  lemma {:induction false} EntryRead(entry: string, rest: string, s: Reading)
    requires Closes(entry) && s.quote == None && s.depth == 0 && s.piece == ""
    ensures var name := Name(entry);
            Read(entry + ([','] + rest), s) ==
              if name == "" then Read(rest, s)
              else if IsIdentifier(name) then Read(rest, s.(keys := s.keys + [name]))
              else Unreadable
  {
    hide Read, Name, IsIdentifier, Look;
    ReadRun(entry, [','] + rest, s);
    assert "" + entry == entry;
    ReadOne(',', rest, s.(piece := entry));
  }

  lemma {:induction false} ReadEntries(entries: seq<string>, s: Reading)
    requires forall e <- entries :: Closes(e)
    requires s.quote == None && s.depth == 0 && s.piece == ""
    ensures Read(Lines(entries), s) ==
              if forall e <- entries :: Named(e) then Keys(s.keys + NamesOf(entries)) else Unreadable
    decreases |entries|
  {
    hide Read, Name, IsIdentifier, Closes;
    if entries == [] {
      ReadNothing(s);
    } else {
      var name, rest := Name(entries[0]), entries[1..];
      assert entries == [entries[0]] + rest && entries[0] in entries;
      assert (forall e <- entries :: Named(e)) <==> Named(entries[0]) && forall e <- rest :: Named(e);
      EntryRead(entries[0], Lines(rest), s);
      if name == "" {
        ReadEntries(rest, s);
      } else if IsIdentifier(name) {
        ReadEntries(rest, s.(keys := s.keys + [name]));
        assert s.keys + [name] + NamesOf(rest) == s.keys + ([name] + NamesOf(rest));
      }
    }
  }

  lemma {:induction false} JoinedIsLines(entries: seq<string>)
    requires entries != []
    ensures Joined(entries) + "," == Lines(entries)
    decreases |entries|
  {
    if |entries| > 1 {
      JoinedIsLines(entries[1..]);
      AppendRest(entries[0], "," + Joined(entries[1..]), ",");
      AppendRest(",", Joined(entries[1..]), ",");
    } else {
      assert Lines(entries[1..]) == "" && [','] + "" == ",";
    }
  }

  /** An object's keys are its entries' names in order, and it is unreadable exactly when some
      entry's name is there and is no identifier: a spread, a computed or quoted key, a method. */
  lemma {:induction false} KeysAreTheNames(before: string, entries: seq<string>, after: string)
    requires Blank(before) && Blank(after) && entries != []
    requires forall e <- entries :: Closes(e)
    ensures KeysIn(before + ("{" + Joined(entries) + "}") + after) ==
              if forall e <- entries :: Named(e) then Keys(NamesOf(entries)) else Unreadable
  {
    hide Read, KeysIn, Closes, Named, NamesOf, Joined, Lines;
    ReadsTheInside(before, Joined(entries), after);
    JoinedIsLines(entries);
    ReadEntries(entries, START);
    assert [] + NamesOf(entries) == NamesOf(entries);
  }

  // ── Which texts close ──────────────────────────────────────────────────

  /** No literal has its own quote inside it, escaped or not. */
  ghost predicate QuotesOnlyClose(t: Text) {
    match t
    case End => true
    case Plain(_, rest) => QuotesOnlyClose(rest)
    case Quoted(quote, body, rest) => quote !in PrintBody(body) && QuotesOnlyClose(rest)
    case Group(_, inner, _, rest) => QuotesOnlyClose(inner) && QuotesOnlyClose(rest)
  }

  lemma {:induction false} LookQuoted(u: string, depth: int, quote: char)
    requires quote !in u
    ensures Look(u, depth, Some(quote)) == Some((depth, Some(quote)))
    decreases |u|
  {
    if u != "" {
      assert u[0] in u;
      LookQuoted(u[1..], depth, quote);
    }
  }

  lemma {:induction false} LookQuiet(u: string, depth: int)
    requires forall c <- u :: Quiet(c)
    ensures Look(u, depth, None) == Some((depth, None))
    decreases |u|
  {
    if u != "" {
      assert u[0] in u;
      LookQuiet(u[1..], depth);
    }
  }

  lemma {:induction false} LookOne(c: char, v: string, depth: int, quote: Option<char>)
    ensures Look([c] + v, depth, quote) ==
              if quote.Some? then Look(v, depth, if c == quote.value then None else quote)
              else if IsQuote(c) then Look(v, depth, Some(c))
              else
                var deeper := if IsOpen(c) then depth + 1 else if IsClose(c) then depth - 1 else depth;
                if c == ',' && deeper == 0 then None else Look(v, deeper, None)
  {
    assert ([c] + v)[1..] == v;
  }

  /** A balanced text whose literals hold no quote of their own closes, and outside all brackets
      it must have no comma. */
  lemma {:induction false} LookText(t: Text, depth: nat)
    requires Good(t) && QuotesOnlyClose(t) && (depth == 0 ==> NoTopComma(t))
    ensures Look(Print(t), depth, None) == Some((depth, None))
    decreases t
  {
    hide Look, PrintBody, GoodBody;
    match t
    case End => LookQuiet("", depth);
    case Plain(c, more) =>
      LookOne(c, Print(more), depth, None);
      LookText(more, depth);
    case Quoted(quote, body, more) =>
      var inner := PrintBody(body);
      LookOne(quote, inner + ([quote] + Print(more)), depth, None);
      LookQuoted(inner, depth, quote);
      LookSplit(inner, [quote] + Print(more), depth, Some(quote));
      LookOne(quote, Print(more), depth, Some(quote));
      LookText(more, depth);
    case Group(open, inner, close, more) =>
      QuotesAreNotBrackets(open);
      QuotesAreNotBrackets(close);
      LookOne(open, Print(inner) + ([close] + Print(more)), depth, None);
      LookText(inner, depth + 1);
      LookSplit(Print(inner), [close] + Print(more), depth + 1, None);
      LookOne(close, Print(more), depth + 1, None);
      LookText(more, depth);
  }

  lemma {:induction false} PrintedTextCloses(t: Text)
    requires IsArgument(t) && QuotesOnlyClose(t)
    ensures Closes(Print(t))
  {
    LookText(t, 0);
  }

  /** Escaped quotes do no harm in pairs, when what stands between them looks like nothing. */
  lemma {:induction false} PairedEscapesClose(u: string, v: string, w: string)
    requires '"' !in u && '"' !in w && forall c <- v :: Quiet(c)
    ensures Closes(['"'] + (u + ("\\" + (['"'] + (v + ("\\" + (['"'] + (w + ['"']))))))))
  {
    hide Look;
    var end := w + ['"'];
    var middle := v + ("\\" + (['"'] + end));
    assert u + ("\\" + (['"'] + middle)) == (u + "\\") + (['"'] + middle);
    assert middle == (v + "\\") + (['"'] + end) && ['"'] + "" == ['"'];
    LookOne('"', (u + "\\") + (['"'] + middle), 0, None);
    LookQuoted(u + "\\", 0, '"');
    LookSplit(u + "\\", ['"'] + middle, 0, Some('"'));
    LookOne('"', middle, 0, Some('"'));
    LookQuiet(v + "\\", 0);
    LookSplit(v + "\\", ['"'] + end, 0, None);
    LookOne('"', end, 0, None);
    LookQuoted(w, 0, '"');
    LookSplit(w, ['"'], 0, Some('"'));
    LookOne('"', "", 0, Some('"'));
    LookQuiet("", 0);
  }

  // ── Properties ─────────────────────────────────────────────────────────

  /** A property of an object literal, with the blank text around its name. */
  datatype Property =
    | Shorthand(before: string, name: string, after: string)
    | Pair(before: string, name: string, after: string, value: string)

  ghost predicate HasName(p: Property) {
    Blank(p.before) && IsIdentifier(p.name) && Blank(p.after)
  }

  function Written(p: Property): string {
    p.before + p.name + p.after + if p.Pair? then [':'] + p.value else ""
  }

  /** Where the scanner stands after `u`; `None` if it gives up. */
  function Walk(u: string, s: Reading): Option<Reading> {
    if u == "" then Some(s)
    else
      var next := Step(u[0], s);
      if next.None? then None else Walk(u[1..], next.value)
  }

  /** The scanner, having read the value and the comma after it, has exactly this key and is back
      where a next entry begins. */
  predicate ReadsRight(p: Property) {
    p.Pair? ==>
      Walk(p.value + ",", START.(piece := p.before + p.name + p.after + ":")) == Some(START.(keys := [p.name]))
  }

  ghost predicate GoodProperty(p: Property) {
    HasName(p) && ReadsRight(p)
  }

  lemma {:induction false} WalkOne(c: char, rest: string, s: Reading)
    ensures Walk([c] + rest, s) == if Step(c, s).None? then None else Walk(rest, Step(c, s).value)
  {
    assert ([c] + rest)[1..] == rest;
  }

  lemma {:induction false} WalkSplit(u: string, v: string, s: Reading)
    ensures Walk(u + v, s) == if Walk(u, s).None? then None else Walk(v, Walk(u, s).value)
    decreases |u|
  {
    if u == "" {
      assert u + v == v;
    } else {
      hide Step;
      assert (u + v)[0] == u[0] && (u + v)[1..] == u[1..] + v;
      if Step(u[0], s).Some? {
        WalkSplit(u[1..], v, Step(u[0], s).value);
      }
    }
  }

  lemma {:induction false} ReadWalks(u: string, rest: string, s: Reading)
    ensures Read(u + rest, s) == if Walk(u, s).None? then Unreadable else Read(rest, Walk(u, s).value)
    decreases |u|
  {
    if u == "" {
      assert u + rest == rest;
    } else {
      hide Step;
      assert (u + rest)[0] == u[0] && (u + rest)[1..] == u[1..] + rest;
      if Step(u[0], s).Some? {
        ReadWalks(u[1..], rest, Step(u[0], s).value);
      }
    }
  }

  /** Keys already read only stand in front of those still to come. */
  lemma {:induction false} WalkKeepsKeys(u: string, s: Reading, keys: seq<string>)
    ensures var plain, more := Walk(u, s), Walk(u, s.(keys := keys + s.keys));
            more == if plain.None? then None else Some(plain.value.(keys := keys + plain.value.keys))
    decreases |u|
  {
    if u != "" {
      hide IsQuote, IsOpen, IsClose, IsIdentifier, Name;
      var next := Step(u[0], s);
      assert keys + (s.keys + [Name(s.piece)]) == keys + s.keys + [Name(s.piece)];
      if next.Some? {
        WalkKeepsKeys(u[1..], next.value, keys);
      }
    }
  }

  /** A run without a top-level comma ends where the scanner's own count says. */
  lemma {:induction false} WalkRun(u: string, s: Reading)
    requires Look(u, s.depth, s.quote).Some?
    ensures var (depth, quote) := Look(u, s.depth, s.quote).value;
            Walk(u, s) == Some(s.(depth := depth, quote := quote, piece := s.piece + u))
    decreases |u|
  {
    if u == "" {
      assert s.piece + u == s.piece;
    } else {
      hide Name, IsIdentifier, IsQuote, IsOpen, IsClose;
      assert s.piece + u == s.piece + [u[0]] + u[1..];
      QuotesAreNotBrackets(u[0]);
      WalkRun(u[1..], Step(u[0], s).value);
    }
  }

  /** The name of an entry is settled by what stands before its colon. */
  lemma {:induction false} NameOfPair(p: Property, rest: string)
    requires HasName(p)
    ensures Name(p.before + p.name + p.after + ":" + rest) == p.name && Name(p.before + p.name + p.after) == p.name
  {
    hide Strip;
    var text := p.before + p.name + p.after;
    BeforeColonOf(text, [':'] + rest);
    BeforeColonOf(text, "");
    assert text + ":" + rest == text + ([':'] + rest) && text + "" == text;
    StripSkips(p.before, p.name, p.after);
    IdentifierStays(p.name);
  }

  /** A value that closes reads right. */
  lemma {:induction false} ClosedValuesReadRight(p: Property)
    requires HasName(p) && (p.Pair? ==> Closes(p.value))
    ensures ReadsRight(p)
  {
    if p.Pair? {
      hide Walk, Look, Name, IsIdentifier;
      var lead := p.before + p.name + p.after + ":";
      var s := START.(piece := lead);
      WalkSplit(p.value, ",", s);
      WalkRun(p.value, s);
      NameOfPair(p, p.value);
      PropertyHasName(p);
      assert "," == [','] + "";
      WalkOne(',', "", s.(piece := lead + p.value));
      ReadNothing(START.(keys := [p.name]));
      assert [] + [p.name] == [p.name];
    }
  }

  /** A good property and its comma add its key to whatever keys there are. */
  lemma {:induction false} WalkProperty(p: Property, keys: seq<string>)
    requires GoodProperty(p)
    ensures Walk(Written(p) + ",", START.(keys := keys)) == Some(START.(keys := keys + [p.name]))
  {
    hide Walk, Look, Name, IsIdentifier;
    WalkKeepsKeys(Written(p) + ",", START, keys);
    assert keys + [] == keys;
    WalkLead(p);
    if p.Shorthand? {
      var text := p.before + p.name + p.after;
      assert Written(p) == text && "," == [','] + "" && "" + text == text;
      WalkSplit(text, ",", START);
      NameOfPair(p, "");
      PropertyHasName(p);
      WalkOne(',', "", START.(piece := text));
      ReadNothing(START.(keys := [p.name]));
      assert [] + [p.name] == [p.name];
    } else {
      AppendRest(p.before + p.name + p.after, [':'] + p.value, ",");
      AppendRest(p.before + p.name + p.after, ":", p.value + ",");
      AppendRest(":", p.value, ",");
      WalkSplit(p.before + p.name + p.after + ":", p.value + ",", START);
    }
  }

  /** Up to its colon a property is plain characters. */
  lemma {:induction false} WalkLead(p: Property)
    requires HasName(p)
    ensures var text := p.before + p.name + p.after;
            && Walk(text, START) == Some(START.(piece := text))
            && Walk(text + ":", START) == Some(START.(piece := text + ":"))
  {
    hide Walk, Look, HasName, Quiet;
    var text := p.before + p.name + p.after;
    PropertyHasName(p);
    LookQuiet(text, 0);
    LookQuiet(text + ":", 0);
    WalkRun(text, START);
    WalkRun(text + ":", START);
    assert "" + text == text && "" + (text + ":") == text + ":";
  }

  lemma {:induction false} IdentifierStays(name: string)
    requires IsIdentifier(name)
    ensures Strip(name) == name
  {
    assert name[0] in name && name[|name| - 1] in name;
  }

  function WrittenAll(ps: seq<Property>): seq<string> {
    if ps == [] then [] else [Written(ps[0])] + WrittenAll(ps[1..])
  }

  function NamesIn(ps: seq<Property>): seq<string> {
    if ps == [] then [] else [ps[0].name] + NamesIn(ps[1..])
  }

  /** An object literal: braces, properties with commas between them, and perhaps one more comma. */
  function PrintObject(before: string, ps: seq<Property>, trailing: Option<string>, after: string): string {
    var entries := WrittenAll(ps) + if trailing.Some? then [trailing.value] else [];
    before + ("{" + Joined(entries) + "}") + after
  }

  lemma {:induction false} PropertyHasName(p: Property)
    requires HasName(p)
    ensures IsIdentifier(p.name) && p.name != ""
    ensures var lead := p.before + p.name + p.after;
            (forall c <- lead :: Quiet(c)) && forall c <- lead + ":" :: Quiet(c)
  {
    BlankIsQuiet(p.before);
    BlankIsQuiet(p.after);
  }

  /** Reading good properties, and after them text without a key. */
  lemma {:induction false} ReadProperties(ps: seq<Property>, more: seq<string>, keys: seq<string>)
    requires (forall p <- ps :: GoodProperty(p)) && (forall e <- more :: Blank(e))
    ensures Read(Lines(WrittenAll(ps) + more), START.(keys := keys)) == Keys(keys + NamesIn(ps))
    decreases |ps|
  {
    hide Read, Walk, Written, GoodProperty, Blank;
    if ps == [] {
      assert WrittenAll(ps) + more == more && keys + NamesIn(ps) == keys;
      ReadBlanks(more, keys);
    } else {
      var entries := WrittenAll(ps[1..]) + more;
      assert WrittenAll(ps) + more == [Written(ps[0])] + entries;
      assert ([Written(ps[0])] + entries)[1..] == entries;
      AppendRest(Written(ps[0]), ",", Lines(entries));
      WalkProperty(ps[0], keys);
      ReadWalks(Written(ps[0]) + ",", Lines(entries), START.(keys := keys));
      ReadProperties(ps[1..], more, keys + [ps[0].name]);
      assert keys + [ps[0].name] + NamesIn(ps[1..]) == keys + ([ps[0].name] + NamesIn(ps[1..]));
    }
  }

  lemma {:induction false} ReadBlanks(entries: seq<string>, keys: seq<string>)
    requires forall e <- entries :: Blank(e)
    ensures Read(Lines(entries), START.(keys := keys)) == Keys(keys)
    decreases |entries|
  {
    hide Read, Blank, Closes, Name, IsIdentifier;
    if entries == [] {
      ReadNothing(START.(keys := keys));
    } else {
      assert entries[0] in entries;
      BlankEntry(entries[0]);
      EntryRead(entries[0], Lines(entries[1..]), START.(keys := keys));
      ReadBlanks(entries[1..], keys);
    }
  }

  /** Reading a printed object gives exactly its keys in order: shorthand or with any value that
      reads right, with or without a trailing comma. */
  lemma {:induction false} KeysUndoPrinting(before: string, ps: seq<Property>, trailing: Option<string>, after: string)
    requires Blank(before) && Blank(after) && (trailing.Some? ==> Blank(trailing.value))
    requires forall p <- ps :: GoodProperty(p)
    ensures KeysIn(PrintObject(before, ps, trailing, after)) == Keys(NamesIn(ps))
  {
    hide KeysIn, Read, Closes, Written, GoodProperty, Joined, WrittenAll, Lines, Blank;
    var more := if trailing.Some? then [trailing.value] else [];
    var last := if more == [] && ps == [] then [""] else more;
    NothingBeforeEnd();
    JoinedNothing(ps);
    assert ps == [] ==> WrittenAll(ps) + more == more && WrittenAll(ps) + last == last;
    assert Joined(WrittenAll(ps) + more) == Joined(WrittenAll(ps) + last);
    ReadsTheInside(before, Joined(WrittenAll(ps) + last), after);
    JoinedIsLines(WrittenAll(ps) + last);
    ReadProperties(ps, last, []);
    assert [] + NamesIn(ps) == NamesIn(ps);
  }

  lemma {:induction false} JoinedNothing(ps: seq<Property>)
    ensures (WrittenAll(ps) == [] <==> ps == []) && Joined([]) == Joined([""])
  {
    assert ps != [] ==> |WrittenAll(ps)| > 0;
    assert Joined([]) == "" && Joined([""]) == [""][0];
  }

  lemma {:induction false} BlankEntry(s: string)
    requires Blank(s)
    ensures Closes(s) && Name(s) == ""
  {
    LookQuiet(s, 0);
    BeforeColonOf(s, "");
    assert s + "" == s;
    StripSkips(s, "", "");
    assert s + "" + "" == s;
  }

  // ── Exactly which values read right ────────────────────────────────────

  /** Whatever good properties stand around it, the object reads as its keys in order. */
  ghost predicate RightInEveryObject(p: Property) {
    forall ps: seq<Property>, qs: seq<Property> :: (forall q <- ps + qs :: GoodProperty(q)) ==>
      KeysIn(PrintObject("", ps + [p] + qs, None, "")) == Keys(NamesIn(ps + [p] + qs))
  }

  const NEXT: Property := Shorthand("", "b", "")

  /** A property is read right in every object exactly when the scanner, having read its value
      and the comma after it, has its key and is back where an entry begins. */
  lemma {:induction false} ReadsRightExactly(p: Property)
    requires HasName(p)
    ensures RightInEveryObject(p) <==> ReadsRight(p)
  {
    hide KeysIn, PrintObject, NamesIn, Written, Walk, Blank;
    NothingBeforeEnd();
    if ReadsRight(p) {
      forall ps: seq<Property>, qs: seq<Property> | forall q <- ps + qs :: GoodProperty(q)
        ensures KeysIn(PrintObject("", ps + [p] + qs, None, "")) == Keys(NamesIn(ps + [p] + qs))
      {
        forall q | q in ps + [p] + qs ensures GoodProperty(q) {
          assert q in ps + qs || q == p;
        }
        KeysUndoPrinting("", ps + [p] + qs, None, "");
      }
    } else if RightInEveryObject(p) {
      NextIsGood();
      var ps, alone, two: seq<Property> := [], [], [NEXT];
      assert ps + alone == [] && ps + two == [NEXT];
      assert KeysIn(PrintObject("", ps + [p] + alone, None, "")) == Keys(NamesIn(ps + [p] + alone));
      assert KeysIn(PrintObject("", ps + [p] + two, None, "")) == Keys(NamesIn(ps + [p] + two));
      assert ps + [p] + alone == [p] && ps + [p] + two == [p, NEXT];
      RightAloneAndFollowed(p);
    }
  }

  lemma {:induction false} NextIsGood()
    ensures GoodProperty(NEXT)
  {
  }

  lemma {:induction false} ReadOfOne(p: Property)
    ensures KeysIn(PrintObject("", [p], None, "")) == Read(Written(p) + ",", START)
  {
    hide KeysIn, Read, Written;
    assert WrittenAll([p]) == [Written(p)] + WrittenAll([p][1..]) == [Written(p)];
    assert WrittenAll([p]) + [] == [Written(p)] && Joined([Written(p)]) == Written(p);
    ReadsTheInside("", Written(p), "");
  }

  lemma {:induction false} ReadOfTwo(p: Property)
    ensures KeysIn(PrintObject("", [p, NEXT], None, "")) == Read(Written(p) + "," + "b,", START)
  {
    hide KeysIn, Read;
    assert [p, NEXT][1..] == [NEXT] && [NEXT][1..] == [];
    assert Written(NEXT) == "b" && WrittenAll([NEXT]) == [Written(NEXT)] + WrittenAll([NEXT][1..]) == ["b"];
    assert WrittenAll([p, NEXT]) == [Written(p)] + WrittenAll([NEXT]) == [Written(p), "b"];
    var entries := [Written(p), "b"];
    assert WrittenAll([p, NEXT]) + [] == entries && entries[1..] == ["b"] && Joined(["b"]) == "b";
    assert Joined(entries) == Written(p) + ("," + "b");
    ReadsTheInside("", Joined(entries), "");
    assert Joined(entries) + "," == Written(p) + "," + "b,";
  }

  /** Right by itself and right before one more key is enough. */
  lemma {:induction false} RightAloneAndFollowed(p: Property)
    requires HasName(p)
    requires KeysIn(PrintObject("", [p], None, "")) == Keys(NamesIn([p]))
    requires KeysIn(PrintObject("", [p, NEXT], None, "")) == Keys(NamesIn([p, NEXT]))
    ensures ReadsRight(p)
  {
    hide KeysIn, PrintObject, Read, Walk, Name, IsIdentifier, Written;
    ReadOfOne(p);
    ReadOfTwo(p);
    assert [p, NEXT][1..] == [NEXT] && [NEXT][1..] == [] && [p][1..] == [];
    assert NamesIn([p]) == [p.name] + NamesIn([]) == [p.name] && NamesIn([NEXT]) == ["b"] + NamesIn([]) == ["b"];
    assert NamesIn([p, NEXT]) == [p.name] + NamesIn([NEXT]) == [p.name, "b"];
    var u := Written(p) + ",";
    assert u + "" == u;
    ReadWalks(u, "", START);
    ReadWalks(u, "b,", START);
    var t := Walk(u, START).value;
    ReadNothing(t);
    WalkEndsInComma(Written(p), START);
    ReadNextKey(t, p.name);
    if p.Pair? {
      UnfoldPair(p);
    }
  }

  lemma {:induction false} UnfoldPair(p: Property)
    requires HasName(p) && p.Pair?
    ensures Walk(Written(p) + ",", START)
            == Walk(p.value + ",", START.(piece := p.before + p.name + p.after + ":"))
  {
    hide Walk;
    WalkLead(p);
    AppendRest(p.before + p.name + p.after, [':'] + p.value, ",");
    AppendRest(p.before + p.name + p.after, ":", p.value + ",");
    AppendRest(":", p.value, ",");
    WalkSplit(p.before + p.name + p.after + ":", p.value + ",", START);
  }

  /** One more key is read as such only outside brackets and literals. */
  lemma {:induction false} ReadNextKey(t: Reading, name: string)
    requires t.keys == [name] && Read("b,", t) == Keys([name, "b"]) && (t.quote.Some? ==> IsQuote(t.quote.value))
    ensures t.depth == 0 && t.quote == None
  {
    hide Name, IsIdentifier, Read;
    assert "b," == ['b'] + ([','] + "");
    ReadOne('b', [','] + "", t);
    var s := Step('b', t).value;
    ReadOne(',', "", s);
    if Step(',', s).Some? {
      ReadNothing(Step(',', s).value);
      assert |Step(',', s).value.keys| == 2;
    }
  }

  /** A comma read outside brackets and literals leaves an empty piece. */
  lemma {:induction false} WalkEndsInComma(u: string, s: Reading)
    requires s.quote.Some? ==> IsQuote(s.quote.value)
    ensures var t := Walk(u + ",", s);
            && (t.Some? && t.value.quote.Some? ==> IsQuote(t.value.quote.value))
            && (t.Some? && t.value.depth == 0 && t.value.quote == None ==> t.value.piece == "")
    decreases |u|
  {
    hide Name, IsIdentifier;
    if u == "" {
      assert u + "," == [','] + "";
      WalkOne(',', "", s);
    } else {
      assert u + "," == [u[0]] + (u[1..] + ",");
      WalkOne(u[0], u[1..] + ",", s);
      if Step(u[0], s).Some? {
        WalkEndsInComma(u[1..], Step(u[0], s).value);
      }
    }
  }

  /** Two escaped quotes with a comma and a colon between them do not close, and still read
      right in every object: what is left over has no name. */
  lemma {:induction false} ColonBetweenEscapes()
    ensures var p := Pair("", "k", "", "\"\\\",:\\\"\"");
            ReadsRight(p) && RightInEveryObject(p) && !Closes(p.value)
  {
    hide Walk, Look;
    var p := Pair("", "k", "", "\"\\\",:\\\"\"");
    assert p.value == "\"\\\"" + ",:\\\"\"" && p.value + "," == "\"\\\"" + (",:\\\"\"" + ",");
    assert "" + "k" + "" + ":" == "k:";
    var s := FirstLiteral(",:\\\"\"" + ",");
    var rest := ":\\\"\",";
    assert ",:\\\"\"" + "," == [','] + rest;
    CommaAfterKey(rest);
    var t := START.(keys := ["k"]);
    assert rest == [':', '\\', '"', '"', ','];
    Walk5(':', '\\', '"', '"', ',', t);
    assert ReadsRight(p);
    assert ",:\\\"\"" == [','] + ":\\\"\"";
    LookFirstLiteral(",:\\\"\"");
    LookOne(',', ":\\\"\"", 0, None);
    ReadsRightExactly(p);
  }

  /** With an open bracket for the colon the object reads right only while nothing follows. */
  lemma {:induction false} BracketBetweenEscapes()
    ensures var p := Pair("", "k", "", "\"\\\",(\\\"\"");
            KeysIn(PrintObject("", [p], None, "")) == Keys(["k"]) && !RightInEveryObject(p)
  {
    hide Walk, KeysIn, PrintObject, Read;
    var p := Pair("", "k", "", "\"\\\",(\\\"\"");
    assert p.value + "," == "\"\\\"" + (",(\\\"\"" + ",");
    assert "" + "k" + "" + ":" == "k:";
    var s := FirstLiteral(",(\\\"\"" + ",");
    var rest := "(\\\"\",";
    assert ",(\\\"\"" + "," == [','] + rest;
    CommaAfterKey(rest);
    Walk5('(', '\\', '"', '"', ',', START.(keys := ["k"]));
    ReadsRightExactly(p);
    ReadOfOne(p);
    UnfoldPair(p);
    var u := Written(p) + ",";
    assert u + "" == u;
    ReadWalks(u, "", START);
    ReadNothing(Walk(u, START).value);
  }

  /** The literal up to its escaped quote. */
  lemma {:induction false} FirstLiteral(rest: string) returns (s: Reading)
    ensures s == START.(piece := "k:\"\\\"")
    ensures Walk("\"\\\"" + rest, START.(piece := "k:")) == Walk(rest, s)
  {
    hide Walk;
    assert "\"\\\"" + rest == ['"'] + (['\\'] + (['"'] + rest));
    WalkOne('"', ['\\'] + (['"'] + rest), START.(piece := "k:"));
    WalkOne('\\', ['"'] + rest, START.(piece := "k:\"", quote := Some('"')));
    WalkOne('"', rest, START.(piece := "k:\"\\", quote := Some('"')));
    s := START.(piece := "k:\"\\\"");
    assert "k:" + ['"'] == "k:\"" && "k:\"" + ['\\'] == "k:\"\\" && "k:\"\\" + ['"'] == s.piece;
  }

  lemma {:induction false} LookFirstLiteral(rest: string)
    ensures Look("\"\\\"" + rest, 0, None) == Look(rest, 0, None)
  {
    hide Look;
    assert "\"\\\"" + rest == ['"'] + (['\\'] + (['"'] + rest));
    LookOne('"', ['\\'] + (['"'] + rest), 0, None);
    LookOne('\\', ['"'] + rest, 0, Some('"'));
    LookOne('"', rest, 0, Some('"'));
  }

  lemma {:induction false} CommaAfterKey(rest: string)
    ensures Walk([','] + rest, START.(piece := "k:\"\\\"")) == Walk(rest, START.(keys := ["k"]))
  {
    hide Walk, Name;
    var p := Shorthand("", "k", "");
    NameOfPair(p, "\"\\\"");
    assert "" + "k" + "" + ":" + "\"\\\"" == "k:\"\\\"";
    WalkOne(',', rest, START.(piece := "k:\"\\\""));
    assert [] + ["k"] == ["k"];
  }

  /** Five characters: one outside literals, a backslash, an empty literal and a comma. */
  lemma {:induction false} Walk5(first: char, slash: char, q: char, q': char, comma: char, s: Reading)
    requires s.depth == 0 && s.quote == None && s.piece == ""
    requires (first == ':' || first == '(') && slash == '\\' && q == q' == '"' && comma == ','
    ensures Walk([first, slash, q, q', comma], s)
            == if first == ':' then Some(s) else Some(s.(depth := 1, piece := "(\\\"\","))
  {
    hide Walk;
    assert [first, slash, q, q', comma] == [first] + ([slash] + ([q] + ([q'] + ([comma] + ""))));
    var r := s.(piece := [first], depth := if first == '(' then 1 else 0);
    WalkOne(first, [slash] + ([q] + ([q'] + ([comma] + ""))), s);
    WalkOne(slash, [q] + ([q'] + ([comma] + "")), r);
    WalkOne(q, [q'] + ([comma] + ""), r.(piece := [first, slash]));
    WalkOne(q', [comma] + "", r.(piece := [first, slash, q], quote := Some(q)));
    WalkOne(comma, "", r.(piece := [first, slash, q, q']));
    assert "" + [first] == [first];
    assert [first] + [slash] == [first, slash] && [first, slash] + [q] == [first, slash, q];
    assert [first, slash, q] + [q'] == [first, slash, q, q'];
    assert [first, slash, q, q'] + [comma] == [first, slash, q, q', comma];
    assert [':'] + [slash, q, q'] == [':', slash, q, q'];
    NothingBeforeColon([slash, q, q']);
    ReadNothing(s);
    var end := s.(depth := 1, piece := [first, slash, q, q', comma]);
    ReadNothing(end);
    assert first == '(' ==> end.piece == "(\\\"\",";
  }

  lemma {:induction false} NothingBeforeColon(rest: string)
    ensures Name([':'] + rest) == ""
  {
    assert BeforeColon([':'] + rest) == "";
  }

  /** An escaped quote ends the literal here: everything after it is read inside out, and an
      object with readable keys comes back as one with none. */
  lemma {:induction false} EscapedQuoteLosesKeys(rest: string)
    requires '\"' !in rest
    ensures KeysIn("{a: " + "\"\\\"\"" + ", " + rest + "}") == Keys([])
  {
    hide Read, KeysIn;
    var literal, tail := "\"\\\"\"", ", " + rest;
    var inside := "a: " + (literal + tail);
    SpelledOut(literal, rest);
    ReadsTheInside("", inside, "");
    AppendRest("a: ", literal + tail, ",");
    AppendRest(literal, tail, ",");
    ReadQuiet("a: ", literal + (tail + ","), START);
    EscapedQuoteSwallows(tail + ",", START.(piece := "" + "a: "));
  }

  lemma {:induction false} SpelledOut(literal: string, rest: string)
    ensures "" + ("{" + ("a: " + (literal + (", " + rest))) + "}") + "" == "{a: " + literal + ", " + rest + "}"
  {
  }

  lemma {:induction false} EscapedQuoteSwallows(tail: string, s: Reading)
    requires '"' !in tail && s.quote == None
    ensures Read("\"\\\"\"" + tail, s) == Keys(s.keys)
  {
    hide Read;
    assert "\"\\\"\"" + tail == ['"'] + ("\\" + (['"'] + (['"'] + tail))) && tail + "" == tail;
    ReadOne('"', "\\" + (['"'] + (['"'] + tail)), s);
    var t := s.(quote := Some('"'), piece := s.piece + ['"']);
    ReadQuoted("\\", ['"'] + (['"'] + tail), t);
    t := t.(piece := t.piece + "\\");
    ReadOne('"', ['"'] + tail, t);
    t := t.(quote := None, piece := t.piece + ['"']);
    ReadOne('"', tail, t);
    t := t.(quote := Some('"'), piece := t.piece + ['"']);
    ReadQuoted(tail, "", t);
    ReadNothing(t.(piece := t.piece + tail));
  }
}
