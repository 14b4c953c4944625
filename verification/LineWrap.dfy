/**
 The greedy word wrap of the sidebar: name and tagline, word by word.

 The loop is proved to use as few lines as any wrap can.
 */
module LineWrap {
  import opened Strings

  /** A word, as `split()` yields it. */
  predicate IsWord(w: string) {
    w != "" && forall c <- w :: !IsSpace(c)
  }

  /** Words on one line, separated by single spaces. */
  function LineOf(group: seq<string>): string {
    if group == [] then ""
    else if |group| == 1 then group[0]
    else LineOf(group[..|group| - 1]) + " " + group[|group| - 1]
  }

  function LinesOf(groups: seq<seq<string>>): seq<string> {
    if groups == [] then [] else LinesOf(groups[..|groups| - 1]) + [LineOf(groups[|groups| - 1])]
  }

  function Flatten(groups: seq<seq<string>>): seq<string> {
    if groups == [] then [] else Flatten(groups[..|groups| - 1]) + groups[|groups| - 1]
  }

  /** A way to set the words in lines: in order, none empty, and every line of two or more words
      within the limit. */
  ghost predicate IsWrap(words: seq<string>, groups: seq<seq<string>>, limit: int) {
    && Flatten(groups) == words
    && forall i :: 0 <= i < |groups| ==> groups[i] != [] && (|groups[i]| >= 2 ==> |LineOf(groups[i])| <= limit)
  }

  /** No wrap of these words has fewer lines, and none with as few has a shorter last line. */
  ghost predicate Leads(words: seq<string>, groups: seq<seq<string>>, limit: int) {
    forall other :: IsWrap(words, other, limit) ==>
      |groups| <= |other| &&
      (|groups| == |other| && groups != [] ==> |groups[|groups| - 1]| <= |other[|other| - 1]|)
  }

  lemma {:induction false} LineLength(group: seq<string>, w: string)
    requires group != []
    ensures LineOf(group + [w]) == LineOf(group) + " " + w
  {
    assert (group + [w])[..|group|] == group;
  }

  /** More words before the same last words make a longer line. */
  lemma {:induction false} LongerSuffixLongerLine(long: seq<string>, short: seq<string>)
    requires |short| <= |long| && short == long[|long| - |short|..]
    ensures |LineOf(short)| <= |LineOf(long)|
  {
    if |short| > 1 {
      assert short[..|short| - 1] == long[..|long| - 1][|long| - |short|..];
      LongerSuffixLongerLine(long[..|long| - 1], short[..|short| - 1]);
    } else if |short| == 1 && |long| > 1 {
      assert short[0] == long[|long| - 1];
    }
  }

  lemma {:induction false} FlattenAppend(groups: seq<seq<string>>, group: seq<string>)
    ensures Flatten(groups + [group]) == Flatten(groups) + group
    ensures LinesOf(groups + [group]) == LinesOf(groups) + [LineOf(group)]
  {
    assert (groups + [group])[..|groups|] == groups;
  }

  /** A wrap with one more word, without it: the last line is dropped or loses its last word. */
  lemma {:induction false} WithoutLastWord(words: seq<string>, w: string, other: seq<seq<string>>, limit: int)
    returns (shorter: seq<seq<string>>)
    requires IsWrap(words + [w], other, limit)
    ensures other != [] && IsWrap(words, shorter, limit)
    ensures var last := other[|other| - 1];
            if |last| == 1 then last == [w] && |shorter| == |other| - 1
            else |shorter| == |other| && last == shorter[|shorter| - 1] + [w]
  {
    hide LineOf;
    assert |words + [w]| > 0;
    assert other != [];
    var front, last := other[..|other| - 1], other[|other| - 1];
    assert last != [];
    SplitLast(Flatten(front), last, words, w);
    var less := last[..|last| - 1];
    if |last| == 1 {
      shorter := front;
      assert Flatten(front) + [] == Flatten(front);
    } else {
      shorter := front + [less];
      assert last == less + [w];
      FlattenAppend(front, less);
      LineLength(less, w);
    }
  }

  lemma {:induction false} SplitLast<T>(a: seq<T>, b: seq<T>, words: seq<T>, w: T)
    requires a + b == words + [w] && b != []
    ensures b[|b| - 1] == w && a + b[..|b| - 1] == words
  {
    assert (a + b)[|a + b| - 1] == b[|b| - 1];
    assert (words + [w])[..|words|] == words;
    assert (a + b)[..|a + b| - 1] == a + b[..|b| - 1];
  }

  /** Two last lines of wraps of the same words: the shorter is the end of the longer. */
  lemma {:induction false} LastLinesNest(words: seq<string>, a: seq<seq<string>>, b: seq<seq<string>>, limit: int)
    requires IsWrap(words, a, limit) && IsWrap(words, b, limit) && a != [] && b != []
    requires |a[|a| - 1]| <= |b[|b| - 1]|
    ensures var short, long := a[|a| - 1], b[|b| - 1]; short == long[|long| - |short|..]
  {
    var short, long := a[|a| - 1], b[|b| - 1];
    assert words == Flatten(a[..|a| - 1]) + short && words == Flatten(b[..|b| - 1]) + long;
    assert short == words[|words| - |short|..] && long == words[|words| - |long|..];
    assert words[|words| - |short|..] == words[|words| - |long|..][|long| - |short|..];
  }

  /** The greedy wrap, one word on. */
  function Next(done: seq<seq<string>>, current: seq<string>, w: string, limit: int): seq<seq<string>> {
    if |LineOf(current + [w])| > limit then done + [current] + [[w]] else done + [current + [w]]
  }

  ghost predicate GoodLine(group: seq<string>, limit: int) {
    group != [] && (|group| >= 2 ==> |LineOf(group)| <= limit)
  }

  /** A wrap, seen from its last line. */
  lemma {:induction false} WrapAppend(words: seq<string>, done: seq<seq<string>>, group: seq<string>, limit: int)
    ensures IsWrap(words, done + [group], limit) <==>
              IsWrap(Flatten(done), done, limit) && GoodLine(group, limit) && Flatten(done) + group == words
  {
    hide LineOf, Flatten;
    var groups := done + [group];
    FlattenAppend(done, group);
    assert forall i :: 0 <= i < |done| ==> groups[i] == done[i];
    assert groups[|done|] == group;
  }

  lemma {:induction false} NextIsWrap(words: seq<string>, done: seq<seq<string>>, current: seq<string>, w: string,
                                      limit: int)
    requires current != [] && IsWrap(words, done + [current], limit)
    ensures IsWrap(words + [w], Next(done, current, w, limit), limit)
  {
    hide IsWrap, LineOf, Flatten;
    WrapAppend(words, done, current, limit);
    if |LineOf(current + [w])| > limit {
      FlattenAppend(done, current);
      WrapAppend(words + [w], done + [current], [w], limit);
    } else {
      assert Flatten(done) + (current + [w]) == Flatten(done) + current + [w];
      WrapAppend(words + [w], done, current + [w], limit);
    }
  }

  /** Against any other wrap with the new word, the greedy one still leads. */
  lemma {:induction false} StillLeads(words: seq<string>, done: seq<seq<string>>, current: seq<string>, w: string,
                                      limit: int, other: seq<seq<string>>)
    requires current != [] && IsWrap(words, done + [current], limit) && Leads(words, done + [current], limit)
    requires IsWrap(words + [w], other, limit)
    ensures var next := Next(done, current, w, limit);
            |next| <= |other| && (|next| == |other| ==> |next[|next| - 1]| <= |other[|other| - 1]|)
  {
    hide LineOf, Flatten, IsWrap;
    var groups := done + [current];
    var shorter := WithoutLastWord(words, w, other, limit);
    var last := other[|other| - 1];
    if |last| > 1 && |LineOf(current + [w])| > limit && |other| == |groups| {
      LastLinesNest(words, groups, shorter, limit);
      assert current + [w] == last[|last| - |current + [w]|..];
      LongerSuffixLongerLine(last, current + [w]);
      LineFits(words + [w], other, limit, |other| - 1);
    }
  }

  lemma {:induction false} LineFits(words: seq<string>, groups: seq<seq<string>>, limit: int, i: nat)
    requires IsWrap(words, groups, limit) && i < |groups| && |groups[i]| >= 2
    ensures |LineOf(groups[i])| <= limit
  {
  }

  /** The next word goes on the last line if it fits, and a new line otherwise; either way the
      greedy wrap still leads. */
  lemma {:induction false} StaysAhead(words: seq<string>, done: seq<seq<string>>, current: seq<string>, w: string,
                                      limit: int)
    requires current != [] && IsWrap(words, done + [current], limit) && Leads(words, done + [current], limit)
    ensures IsWrap(words + [w], Next(done, current, w, limit), limit)
    ensures Leads(words + [w], Next(done, current, w, limit), limit)
  {
    hide IsWrap, Next;
    NextIsWrap(words, done, current, w, limit);
    forall other | IsWrap(words + [w], other, limit)
      ensures |Next(done, current, w, limit)| <= |other|
      ensures var next := Next(done, current, w, limit);
              |next| == |other| && next != [] ==> |next[|next| - 1]| <= |other[|other| - 1]|
    {
      StillLeads(words, done, current, w, limit, other);
    }
  }

  /** Stripping only ever removes the space in front of a first word. */
  lemma {:induction false} StripJoin(line: string, w: string)
    requires IsWord(w) && (line != "" ==> !IsSpace(line[0]))
    ensures Strip(line + " " + w) == if line == "" then w else line + " " + w
  {
    var t := line + " " + w;
    assert w[|w| - 1] in w && w[0] in w;
    if line == "" {
      assert t == [' '] + w && t[1..] == w;
      assert StripLeft(t) == StripLeft(w) == w;
    } else {
      assert t[0] == line[0] && StripLeft(t) == t;
    }
    assert t[|t| - 1] == w[|w| - 1];
  }

  lemma {:induction false} LineStartsWithWord(group: seq<string>)
    requires group != [] && forall w <- group :: IsWord(w)
    ensures LineOf(group) != "" && !IsSpace(LineOf(group)[0])
  {
    if |group| == 1 {
      assert group[0] in group && group[0][0] in group[0];
    } else {
      assert forall w <- group[..|group| - 1] :: w in group;
      LineStartsWithWord(group[..|group| - 1]);
    }
  }

  /** The loop: the lines it sets rejoin to the words, every line of two or more words fits, and
      no other such setting uses fewer lines. */
  method Wrap(words: seq<string>, limit: int) returns (lines: seq<string>, ghost groups: seq<seq<string>>)
    requires forall w <- words :: IsWord(w)
    ensures lines == LinesOf(groups) && IsWrap(words, groups, limit)
    ensures forall other :: IsWrap(words, other, limit) ==> |lines| <= |other|
    ensures LineOf(lines) == LineOf(words)
  {
    hide Strip, IsWrap, Leads, LineOf, LinesOf, Flatten, IsWord;
    NoWords(limit);
    lines := [];
    var line := "";
    ghost var done: seq<seq<string>> := [];
    ghost var current: seq<string> := [];
    for n := 0 to |words|
      invariant lines == LinesOf(done) && line == LineOf(current)
      invariant current == [] <==> n == 0
      invariant n == 0 ==> done == []
      invariant current != [] ==>
                  IsWrap(words[..n], done + [current], limit) && Leads(words[..n], done + [current], limit)
      invariant forall w <- current :: IsWord(w)
    {
      var part := words[n];
      assert part in words;
      assert words[..n + 1] == words[..n] + [part];
      if current != [] {
        LineStartsWithWord(current);
        LineLength(current, part);
        StaysAhead(words[..n], done, current, part, limit);
      } else {
        FirstWord(part, limit);
        assert words[..n] + [part] == [part] && done + [[part]] == [[part]] && current + [part] == [part];
      }
      LineOfOne(part);
      StripJoin(line, part);
      var test := Strip(line + " " + part);
      if |test| > limit && line != "" {
        lines := lines + [line];
        line := part;
        FlattenAppend(done, current);
        done, current := done + [current], [part];
      } else {
        line := test;
        current := current + [part];
      }
    }
    assert words[..|words|] == words;
    groups := done;
    if current != [] {
      LineStartsWithWord(current);
      FlattenAppend(done, current);
      groups := done + [current];
    }
    if line != "" {
      lines := lines + [line];
    }
    CountLines(groups);
    NoBetter(words, groups, limit);
    Rejoin(words, groups, limit);
  }

  lemma {:induction false} Rejoin(words: seq<string>, groups: seq<seq<string>>, limit: int)
    requires IsWrap(words, groups, limit)
    ensures LineOf(LinesOf(groups)) == LineOf(words)
  {
    LinesRejoin(groups);
  }

  lemma {:induction false} NoBetter(words: seq<string>, groups: seq<seq<string>>, limit: int)
    requires Leads(words, groups, limit)
    ensures forall other :: IsWrap(words, other, limit) ==> |groups| <= |other|
  {
  }

  lemma {:induction false} FirstWord(w: string, limit: int)
    ensures IsWrap([w], [[w]], limit) && Leads([w], [[w]], limit)
  {
    FlattenAppend([], [w]);
    assert [] + [[w]] == [[w]];
    assert Flatten([]) == [];
  }

  lemma {:induction false} LineOfOne(w: string)
    ensures LineOf([w]) == w
  {
  }

  lemma {:induction false} NoWords(limit: int)
    ensures LineOf([]) == "" && LinesOf([]) == [] && IsWrap([], [], limit) && Leads([], [], limit)
  {
  }

  lemma {:induction false} CountLines(groups: seq<seq<string>>)
    ensures |LinesOf(groups)| == |groups|
  {
    if groups != [] {
      CountLines(groups[..|groups| - 1]);
    }
  }

  lemma {:induction false} LineOfConcat(a: seq<string>, b: seq<string>)
    requires a != [] && b != []
    ensures LineOf(a + b) == LineOf(a) + " " + LineOf(b)
  {
    var last := b[|b| - 1];
    if |b| == 1 {
      assert a + b == a + [last];
      LineLength(a, last);
    } else {
      var front := b[..|b| - 1];
      assert (a + b)[..|a + b| - 1] == a + front;
      LineOfConcat(a, front);
      assert LineOf(a) + " " + LineOf(front) + " " + last == LineOf(a) + " " + (LineOf(front) + " " + last);
    }
  }

  /** The lines, joined with spaces again, are the words joined with spaces. */
  lemma {:induction false} LinesRejoin(groups: seq<seq<string>>)
    requires forall i :: 0 <= i < |groups| ==> groups[i] != []
    ensures LineOf(LinesOf(groups)) == LineOf(Flatten(groups))
    ensures groups != [] ==> Flatten(groups) != [] && LinesOf(groups) != []
  {
    if groups != [] {
      var front, last := groups[..|groups| - 1], groups[|groups| - 1];
      LinesRejoin(front);
      if front == [] {
        assert Flatten(front) + last == last && LinesOf(front) + [LineOf(last)] == [LineOf(last)];
        LineOfOne(LineOf(last));
      } else {
        LineOfConcat(Flatten(front), last);
        LineLength(LinesOf(front), LineOf(last));
      }
    }
  }
}
