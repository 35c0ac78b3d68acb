/** Which paragraphs come back when their justification is undone, with the wrapper as
    it is. */
module Justifying {
  import opened Columns
  import opened WordWrap
  import opened EditorState
  import opened EditorLaws
  import opened FlowedText
  import opened Wrapping
  import T = LineBreakTable
  import LB = LineBreaks
  import E = Editor

  // --- No line is broken before a space ---------------------------------------------------

  // Classes after which no line has to end.
  ghost predicate NoBreaks(cs: seq<LB.Class>) {
    forall i :: 0 <= i < |cs| ==> !cs[i].BreaksAfter()
  }

  // A space is never where a line may start.
  ghost predicate KeepsSpaces(cs: seq<LB.Class>, vs: seq<LB.Verdict>)
    requires |vs| <= |cs|
  {
    forall i :: 0 <= i < |vs| && cs[i].SP? ==> vs[i].Prohibited?
  }

  lemma {:induction false} LastNoBreak(cs: seq<LB.Class>)
    requires NoBreaks(cs)
    ensures !T.Last(cs).BreaksAfter()
  {
    if cs != [] {
      LastNoBreak(cs[..|cs| - 1]);
    }
  }

  lemma NoBreakBeforeSpace(cs: seq<LB.Class>)
    requires LB.Start !in cs && NoBreaks(cs)
    ensures |LB.Feed(cs).1| <= |cs| && KeepsSpaces(cs, LB.Feed(cs).1)
  {
    hide LB.Feed, T.Last, T.LastSolid, T.Numbers;
    T.VerdictsAreText(cs);
    forall i | 0 <= i < |LB.Feed(cs).1| && cs[i].SP? ensures LB.Feed(cs).1[i].Prohibited? {
      LastNoBreak(cs[..i]);
    }
  }

  // --- How the wrapped lines begin ----------------------------------------------------------

  predicate Opens(s: seq<char>) {
    s != [] && s[0] != '>' && s[0] != ' ' && s[0] != '\t'
  }

  ghost predicate AllOpen(w: Wrapper) {
    (forall i :: 0 <= i < |w.out| ==> Opens(w.out[i])) && (w.line == [] || Opens(w.line)) &&
    (w.segment == [] || Opens(w.segment))
  }

  lemma AddSegmentOpens(w: Wrapper, f: Font, towidth: nat)
    requires AllOpen(w)
    ensures var a := w.AddSegment(f, towidth);
      AllOpen(a) && a.segment == w.segment && (w.segment != [] ==> a.line != [])
  {}

  lemma AcceptOpens(w: Wrapper, f: Font, towidth: nat, starts: set<nat>, v: LB.Verdict, ch: char)
    requires AllOpen(w) && (w.cnt > 0 ==> w.segment != []) && (w.cnt == 0 ==> v.Prohibited?)
    requires ch != '>' && ch != '\t' && ch != '\r' && ch != '\n'
    requires ch == ' ' ==> w.cnt > 0 && v.Prohibited? && w.cnt !in starts
    ensures var a := w.Accept(f, towidth, starts, v, ch);
      AllOpen(a) && a.segment != [] && a.cnt == w.cnt + 1
  {
    hide Wrapper.AddSegment;
    AddSegmentOpens(w, f, towidth);
    if w.segment != [] {
      AddSegmentOpens(w.(segment := w.segment + [' ']), f, towidth);
    }
  }

  /** Text without quote marks, tabs and characters that end a line. */
  ghost predicate Tame(l: Locale, text: seq<char>) {
    forall i :: 0 <= i < |text| ==>
      text[i] != '>' && text[i] != '\t' && text[i] != '\r' && text[i] != '\n' && !l.Class(text[i]).BreaksAfter()
  }

  // No line to be wrapped again starts with a space.
  ghost predicate StartsOpen(text: seq<char>, starts: set<nat>) {
    (forall k :: k in starts ==> k < |text| && text[k] != ' ') && (text != [] ==> text[0] != ' ')
  }

  lemma {:induction false} CollectOpens(l: Locale, towidth: nat, starts: set<nat>, text: seq<char>, vs: seq<LB.Verdict>,
                                        n: nat)
    requires Tame(l, text) && StartsOpen(text, starts) && n <= |vs| <= |text| && (vs != [] ==> vs[0].Prohibited?)
    requires KeepsSpaces(l.Classes(text), vs)
    ensures var w := Collect(l, towidth, starts, text, vs, n);
      AllOpen(w) && w.cnt == n && (n > 0 ==> w.segment != [])
  {
    hide Wrapper.Accept;
    if n > 0 {
      CollectOpens(l, towidth, starts, text, vs, n - 1);
      if text[n - 1] == ' ' {
        assert l.Classes(text)[n - 1].SP?;
      }
      AcceptOpens(Collect(l, towidth, starts, text, vs, n - 1), l.font, towidth, starts, vs[n - 1], text[n - 1]);
    }
  }

  lemma EofOpens(w: Wrapper, f: Font, towidth: nat)
    requires AllOpen(w) && w.segment != []
    ensures var pieces := w.Eof(f, towidth).out;
      pieces != [] && forall i :: 0 <= i < |pieces| ==> Opens(pieces[i])
  {
    hide Wrapper.AddSegment;
    AddSegmentOpens(w, f, towidth);
  }

  lemma WrapOpens(l: Locale, text: seq<char>, starts: set<nat>, towidth: nat)
    requires text != [] && Tame(l, text) && StartsOpen(text, starts)
    ensures var pieces := Wrap(l, text, starts, towidth);
      pieces != [] && forall i :: 0 <= i < |pieces| ==> Opens(pieces[i])
  {
    var vs := Verdicts(l, text);
    VerdictsReported(l, text);
    NoBreakBeforeSpace(l.Classes(text));
    CollectOpens(l, towidth, starts, text, vs, |vs|);
    EofOpens(Collect(l, towidth, starts, text, vs, |vs|), l.font, towidth);
  }

  lemma {:induction false} TrimKeepsFirst(s: seq<char>)
    requires s != [] && s[0] != ' '
    ensures TrimEnd(s) != []
  {
    if s[|s| - 1] == ' ' {
      TrimKeepsFirst(s[..|s| - 1]);
    }
  }

  lemma {:induction false} UnjustifiedOpens(l: Locale, lines: seq<Line>)
    requires forall i :: 0 <= i < |lines| ==> (lines[i].text == [] || Justifiable(lines[i])) && Tame(l, lines[i].text)
    ensures var (text, starts) := E.Unjustified(lines);
      Tame(l, text) && StartsOpen(text, starts) && (lines != [] && Justifiable(lines[0]) ==> text != [])
  {
    if lines != [] {
      var n := |lines| - 1;
      UnjustifiedOpens(l, lines[..n]);
      if Justifiable(lines[n]) {
        TrimKeepsFirst(lines[n].text);
      }
    }
  }

  /** A condition on the text: a paragraph with an empty line after it, or at the end of the
      document, and with no quote mark, no tab and no character that ends a line, comes back
      when its justification is undone. */
  lemma JustifyComesBack(l: Locale, s: State)
    requires s.Valid() && !s.lastKey.Justify? && Justifiable(s.Here())
    requires var start, end := BlockStart(s.text, s.row), BlockEnd(s.text, s.row);
      (end < |s.text| ==> s.text[end].text == []) && forall i :: start <= i < end ==> Tame(l, s.text[i].text)
    ensures var e := E.EnvOf(l); PressJustify(e, PressJustify(e, s)).text == s.text
  {
    hide PressJustify, Rewrapped, E.EnvOf, Justifiable, Tame;
    var e := E.EnvOf(l);
    var start, end := BlockStart(s.text, s.row), BlockEnd(s.text, s.row);
    JustifyTwice(e, s);
    BlockIsJustifiable(s.text, s.row);
    RewrappedOpens(l, s.text, start, end);
  }

  lemma BlockIsJustifiable(text: seq<Line>, row: nat)
    requires row < |text| && Justifiable(text[row])
    ensures var start, end := BlockStart(text, row), BlockEnd(text, row);
      start <= row < end && forall i :: start <= i < end ==> Justifiable(text[i])
  {
    BlockStartMeans(text, row);
    BlockEndMeans(text, row);
    BlockEndFrom(text, row, row + 1);
  }

  lemma {:induction false} BlockEndMeans(text: seq<Line>, k: nat)
    requires k <= |text|
    ensures forall i :: k <= i < BlockEnd(text, k) ==> Justifiable(text[i])
    decreases |text| - k
  {
    if k < |text| && Justifiable(text[k]) {
      BlockEndMeans(text, k + 1);
    }
  }

  lemma RewrappedOpens(l: Locale, text: seq<Line>, start: nat, end: nat)
    requires start < end <= |text| && (end < |text| ==> text[end].text == [])
    requires forall i :: start <= i < end ==> Justifiable(text[i]) && Tame(l, text[i].text)
    ensures var lines := Rewrapped(E.EnvOf(l), text, start, end);
      forall i :: 0 <= i < |lines| ==> Justifiable(lines[i])
  {
    hide Wrap, E.Unjustified;
    var block := text[start..if end < |text| then end + 1 else end];
    UnjustifiedOpens(l, block);
    var (t, starts) := E.Unjustified(block);
    WrapOpens(l, t, starts, LINEW);
  }

  // --- What justifying writes ------------------------------------------------------------------

  /** The trimmed texts of the lines, one after the other, with a space between two of them unless
      a line may end there anyway. */
  function JoinedBy(vs: seq<LB.Verdict>, lines: seq<Line>): seq<char> {
    if lines == [] then []
    else
      var n := |lines| - 1;
      var before, line := E.Unjustified(lines[..n]).0, TrimEnd(lines[n].text);
      JoinedBy(vs, lines[..n]) + (if line != [] && 0 < |before| < |vs| && vs[|before|].Prohibited? then " " else "") + line
  }

  // A part of the text in which only the first character can start a line.
  lemma {:induction false} SpacedRun(text: seq<char>, vs: seq<LB.Verdict>, starts: set<nat>, a: nat, b: nat)
    requires a < b <= |text| && b <= |vs| && forall k :: a < k < b ==> k !in starts
    ensures Spaced(text, vs, starts, b).text == Spaced(text, vs, starts, a).text +
      (if 0 < a && a in starts && vs[a].Prohibited? then " " else "") + text[a..b]
    decreases b - a
  {
    if b == a + 1 {
      assert text[a..b] == [text[a]];
    } else {
      SpacedRun(text, vs, starts, a, b - 1);
      assert text[a..b] == text[a..b - 1] + [text[b - 1]];
    }
  }

  lemma {:induction false} UnjustifiedStarts(lines: seq<Line>)
    ensures forall k :: k in E.Unjustified(lines).1 ==> k < |E.Unjustified(lines).0|
  {
    if lines != [] {
      UnjustifiedStarts(lines[..|lines| - 1]);
    }
  }

  lemma {:induction false} SpacedLines(text: seq<char>, vs: seq<LB.Verdict>, starts: set<nat>, lines: seq<Line>)
    requires |vs| == |text| && E.Unjustified(lines).0 <= text
    requires var (t, s) := E.Unjustified(lines); forall k :: 0 <= k < |t| ==> (k in starts <==> k in s)
    ensures Spaced(text, vs, starts, |E.Unjustified(lines).0|).text == JoinedBy(vs, lines)
  {
    hide Spaced, TrimEnd, E.Unjustified;
    if lines == [] {
      SpacedNothing(text, vs, starts);
    } else {
      var n := |lines| - 1;
      var (t, s) := E.Unjustified(lines[..n]);
      var line := TrimEnd(lines[n].text);
      UnjustifiedStarts(lines[..n]);
      assert lines == lines[..n] + [lines[n]];
      UnjustifiedPush(lines[..n], lines[n]);
      PrefixParts(text, t, line);
      SpacedLines(text, vs, starts, lines[..n]);
      if line != [] {
        SpacedRun(text, vs, starts, |t|, |t| + |line|);
      }
    }
  }

  lemma SpacedNothing(text: seq<char>, vs: seq<LB.Verdict>, starts: set<nat>)
    ensures Spaced(text, vs, starts, 0).text == [] && E.Unjustified([]).0 == []
  {}

  lemma PrefixParts(text: seq<char>, a: seq<char>, b: seq<char>)
    requires a + b <= text
    ensures a <= text && |a + b| == |a| + |b| <= |text| && text[|a|..|a| + |b|] == b
  {
    assert (a + b)[|a|..] == b && text[..|a + b|] == a + b;
    assert text[|a|..|a| + |b|] == text[..|a + b|][|a|..];
    assert (a + b)[..|a|] == a && text[..|a|] == text[..|a + b|][..|a|];
  }

  // The texts of some lines, put together.
  function Together(lines: seq<Line>): seq<char> {
    if lines == [] then [] else Together(lines[..|lines| - 1]) + lines[|lines| - 1].text
  }

  lemma {:induction false} TogetherPieces(lines: seq<Line>, pieces: seq<seq<char>>)
    requires |lines| == |pieces| && forall i :: 0 <= i < |lines| ==> lines[i].text == pieces[i]
    ensures Together(lines) == Flatten(pieces)
  {
    if lines != [] {
      TogetherPieces(lines[..|lines| - 1], pieces[..|pieces| - 1]);
    }
  }

  // The lines that are wrapped together: the block and the line after it.
  function WrappedBlock(text: seq<Line>, start: nat, end: nat): seq<Line>
    requires start <= end <= |text|
  {
    text[start..if end < |text| then end + 1 else end]
  }

  lemma RewrappedTexts(l: Locale, text: seq<Line>, start: nat, end: nat)
    requires start <= end <= |text|
    ensures var (t, starts) := E.Unjustified(WrappedBlock(text, start, end));
      Together(Rewrapped(E.EnvOf(l), text, start, end)) == Flatten(Wrap(l, t, starts, LINEW))
  {
    hide Wrap, E.Unjustified;
    var (t, starts) := E.Unjustified(WrappedBlock(text, start, end));
    var pieces, lines := Wrap(l, t, starts, LINEW), Rewrapped(E.EnvOf(l), text, start, end);
    if pieces == [] {
      assert lines == [Line([], false)] && lines[..0] == [];
    } else {
      TogetherPieces(lines, pieces);
    }
  }

  /** What justifying puts in place of a paragraph: the trimmed texts of its lines, and of the line
      after it, with a space between two of them unless a line may end there anyway, without line
      breaks; all of it, unless it ends in a held tail. */
  lemma JustifiedText(l: Locale, s: State)
    requires s.Valid() && !s.lastKey.Justify? && Justifiable(s.Here())
    ensures var start, end := BlockStart(s.text, s.row), BlockEnd(s.text, s.row);
      var block, lines := WrappedBlock(s.text, start, end), Rewrapped(E.EnvOf(l), s.text, start, end);
      var (t, starts) := E.Unjustified(block);
      PressJustify(E.EnvOf(l), s).text == s.text[..start] + lines + s.text[end..] &&
      Together(lines) == TakenAll(Rejoined(l, t, starts).text) &&
      (!LB.EndsOpened(l.Classes(t)) ==>
        |Verdicts(l, t)| == |t| && Rejoined(l, t, starts).text == JoinedBy(Verdicts(l, t), block))
  {
    hide PressJustify, Rewrapped, Wrap, E.Unjustified, Verdicts, TakenAll, E.EnvOf, JoinedBy, Spaced;
    var start, end := BlockStart(s.text, s.row), BlockEnd(s.text, s.row);
    var block := WrappedBlock(s.text, start, end);
    var (t, starts) := E.Unjustified(block);
    AfterJustify(E.EnvOf(l), s);
    RewrappedTexts(l, s.text, start, end);
    WrapSpaced(l, t, starts, LINEW);
    if !LB.EndsOpened(l.Classes(t)) {
      SpacedLines(t, Verdicts(l, t), starts, block);
    }
  }

  /** The lines that justifying puts in place of a paragraph all flow into the next, but for the
      last; and, if there are no line breaks, their texts are cut well. */
  lemma JustifiedLines(l: Locale, text: seq<Line>, start: nat, end: nat)
    requires start < end <= |text| && Justifiable(text[start])
    ensures var (t, starts) := E.Unjustified(WrappedBlock(text, start, end));
      var m, pieces := Rejoined(l, t, starts), Wrap(l, t, starts, LINEW);
      var lines := Rewrapped(E.EnvOf(l), text, start, end);
      (forall i :: 0 <= i < |lines| ==> (lines[i].flowed <==> i < |lines| - 1)) &&
      (Plain(m.text) && m.text != [] ==>
        |lines| == |pieces| && (forall i :: 0 <= i < |lines| ==> lines[i].text == pieces[i]) &&
        WellCut(l.font, LINEW, m.text, m.verdicts, pieces))
  {
    hide Wrap, E.Unjustified, Rejoined, WellCut, TakenAll;
    var (t, starts) := E.Unjustified(WrappedBlock(text, start, end));
    var m := Rejoined(l, t, starts);
    WrapSpaced(l, t, starts, LINEW);
    if Plain(m.text) {
      PlainIsTaken(m.text);
    }
  }

  // --- A paragraph of words ---------------------------------------------------------------------

  // The texts with a space between them.
  function SpaceJoined(lines: seq<Line>): seq<char> {
    if lines == [] then []
    else if |lines| == 1 then TrimEnd(lines[0].text)
    else SpaceJoined(lines[..|lines| - 1]) + " " + TrimEnd(lines[|lines| - 1].text)
  }

  lemma {:induction false} WordsJoined(l: Locale, text: seq<char>, lines: seq<Line>)
    requires WordText(l, text) && E.Unjustified(lines).0 <= text
    requires forall i :: 0 <= i < |lines| ==> TrimEnd(lines[i].text) != []
    ensures JoinedBy(Verdicts(l, text), lines) == SpaceJoined(lines)
    ensures var t := E.Unjustified(lines).0; (lines == [] <==> t == []) && (t != [] ==> t[|t| - 1] != ' ')
  {
    hide Verdicts, TrimEnd;
    if lines != [] {
      var n := |lines| - 1;
      var before, line := E.Unjustified(lines[..n]).0, TrimEnd(lines[n].text);
      assert lines == lines[..n] + [lines[n]];
      UnjustifiedPush(lines[..n], lines[n]);
      WordsJoined(l, text, lines[..n]);
      WordTextVerdicts(l, text);
      TrimEndsOpen(lines[n].text);
      if n > 0 {
        assert text[|before| - 1] == before[|before| - 1];
      } else {
        assert [] + line == line;
      }
    }
  }

  lemma {:induction false} TrimEndsOpen(s: seq<char>)
    ensures var t := TrimEnd(s); t != [] ==> t[|t| - 1] != ' '
  {}

  /** A paragraph of words at the end of the document becomes the same words with single spaces
      between those of different lines, cut well. */
  lemma WordsJustified(l: Locale, s: State)
    requires s.Valid() && !s.lastKey.Justify? && Justifiable(s.Here()) && BlockEnd(s.text, s.row) == |s.text|
    requires forall i :: BlockStart(s.text, s.row) <= i < |s.text| ==>
      WordText(l, s.text[i].text) && Plain(s.text[i].text)
    ensures var start := BlockStart(s.text, s.row);
      var lines := Rewrapped(E.EnvOf(l), s.text, start, |s.text|);
      PressJustify(E.EnvOf(l), s).text == s.text[..start] + lines && Together(lines) == SpaceJoined(s.text[start..])
  {
    hide PressJustify, Rewrapped, Wrap, E.Unjustified, Verdicts, E.EnvOf, JoinedBy, SpaceJoined, WordText, Plain, Spaced, TakenAll, Rejoined;
    var start := BlockStart(s.text, s.row);
    var block := s.text[start..];
    var (t, starts) := E.Unjustified(block);
    assert WrappedBlock(s.text, start, |s.text|) == block;
    JustifiedText(l, s);
    BlockIsJustifiable(s.text, s.row);
    forall i | 0 <= i < |block|
      ensures TrimEnd(block[i].text) != [] && WordText(l, block[i].text) && Plain(block[i].text)
    {
      assert block[i] == s.text[start + i];
      TrimKeepsFirst(block[i].text);
    }
    UnjustifiedWords(l, block);
    WordsNotOpened(l, t);
    WordsJoined(l, t, block);
    JoinedPlain(l, t, block);
    PlainIsTaken(Rejoined(l, t, starts).text);
  }

  lemma {:induction false} UnjustifiedWords(l: Locale, lines: seq<Line>)
    requires forall i :: 0 <= i < |lines| ==> WordText(l, lines[i].text) && Plain(lines[i].text)
    ensures WordText(l, E.Unjustified(lines).0) && Plain(E.Unjustified(lines).0)
  {
    if lines != [] {
      UnjustifiedWords(l, lines[..|lines| - 1]);
    }
  }

  lemma WordsNotOpened(l: Locale, text: seq<char>)
    requires WordText(l, text)
    ensures !LB.EndsOpened(l.Classes(text))
  {
    if text != [] {
      assert l.Classes(text)[|text| - 1] == l.Class(text[|text| - 1]);
    }
  }

  lemma {:induction false} JoinedPlain(l: Locale, text: seq<char>, lines: seq<Line>)
    requires forall i :: 0 <= i < |lines| ==> Plain(lines[i].text)
    ensures Plain(JoinedBy(Verdicts(l, text), lines))
  {
    hide Verdicts, E.Unjustified;
    if lines != [] {
      JoinedPlain(l, text, lines[..|lines| - 1]);
    }
  }

  // --- A paragraph that does not come back ----------------------------------------------------

  lemma {:induction false} FeedLetters(n: nat)
    requires n > 0
    ensures LB.Feed(seq(n, _ => LB.AL)) == (LB.Engine(LB.AL, LB.AL, LB.Default), seq(n, _ => LB.Prohibited))
  {
    var cs, vs := seq(n, _ => LB.AL), seq(n, _ => LB.Prohibited);
    assert cs[..n - 1] == seq(n - 1, _ => LB.AL);
    assert vs == seq(n - 1, _ => LB.Prohibited) + [LB.Prohibited];
    if n == 1 {
      assert LB.Feed(cs[..0]) == (LB.Initial, []);
    } else {
      FeedLetters(n - 1);
    }
  }

  lemma {:induction false} CollectLetters(l: Locale, starts: set<nat>, text: seq<char>, vs: seq<LB.Verdict>, n: nat)
    requires n <= |text| && n <= |vs| && text[..n] == Letters(n)
    requires forall i :: 0 <= i < n ==> vs[i].Prohibited? && (0 < i ==> i !in starts)
    ensures Collect(l, LINEW, starts, text, vs, n) == Wrapper(Letters(n), n, [], 0, [])
  {
    if n > 0 {
      assert text[..n - 1] == text[..n][..n - 1] == Letters(n - 1);
      CollectLetters(l, starts, text, vs, n - 1);
      assert text[n - 1] == text[..n][n - 1] == 'a';
      assert Letters(n) == Letters(n - 1) + ['a'];
    }
  }

  // The wrapper closes the line with the space supplied, since the quote mark has no room.
  lemma LastLetter(l: Locale, letters: seq<char>)
    requires EndCol(l.font, letters, 0) == LINEW && Ordinary(l.font, '>')
    ensures var w := Wrapper(letters, LINEW, [], 0, []);
      w.Accept(l.font, LINEW, {0, LINEW}, LB.Prohibited, '>').Eof(l.font, LINEW).out == [letters + " ", ">"]
  {
    hide EndCol;
    var f, line := l.font, letters + " ";
    var col := EndCol(f, line, 0);
    EndColConcat(f, letters, " ", 0);
    QuoteWidth(f, col);
    assert [] + line == line && [] + ['>'] == ">" && [] + ">" == ">";
    var a := Wrapper(line, LINEW, [], 0, []).AddSegment(f, LINEW);
    assert a == Wrapper(line, LINEW, line, col, []);
    var w := Wrapper(letters, LINEW, [], 0, []).Accept(f, LINEW, {0, LINEW}, LB.Prohibited, '>');
    assert w == Wrapper(">", LINEW + 1, line, col, []);
    assert w.AddSegment(f, LINEW) == Wrapper(">", LINEW + 1, ">", 1, [line]) by {
      QuoteWidth(f, 0);
    }
  }

  lemma QuoteWidth(f: Font, col: nat)
    requires Ordinary(f, '>')
    ensures EndCol(f, ">", col) == col + 1
  {
    assert ">"[1..] == [];
  }

  predicate LettersAndQuote(l: Locale) {
    l.Class('a').AL? && l.Class('>').AL? && Ordinary(l.font, 'a') && Ordinary(l.font, '>')
  }

  lemma QuoteVerdicts(l: Locale)
    requires LettersAndQuote(l)
    ensures Verdicts(l, Letters(LINEW) + ">") == seq(LINEW + 1, _ => LB.Prohibited)
  {
    hide LB.Feed;
    assert l.Classes(Letters(LINEW) + ">") == seq(LINEW + 1, _ => LB.AL);
    FeedLetters(LINEW + 1);
  }

  lemma WrapsQuote(l: Locale)
    requires LettersAndQuote(l)
    ensures Wrap(l, Letters(LINEW) + ">", {0, LINEW}, LINEW) == [Letters(LINEW) + " ", ">"]
  {
    hide Verdicts, Letters, Wrapper.Accept, Wrapper.Eof;
    var text, starts := Letters(LINEW) + ">", {0 as nat, LINEW};
    var vs := Verdicts(l, text);
    QuoteVerdicts(l);
    assert text[..LINEW] == Letters(LINEW);
    CollectLetters(l, starts, text, vs, LINEW);
    LettersWidth(l.font, LINEW, 0);
    LastLetter(l, Letters(LINEW));
    var w := Collect(l, LINEW, starts, text, vs, LINEW);
    assert vs[LINEW] == LB.Prohibited && text[LINEW] == '>';
    assert Collect(l, LINEW, starts, text, vs, LINEW + 1) == w.Accept(l.font, LINEW, starts, LB.Prohibited, '>');
  }

  lemma UnjustifiedPush(lines: seq<Line>, line: Line)
    ensures var (text, starts) := E.Unjustified(lines);
      var last := TrimEnd(line.text);
      E.Unjustified(lines + [line]) == (text + last, if last == [] then starts else starts + {|text|})
  {
    assert (lines + [line])[..|lines|] == lines;
  }

  lemma TwoUnjustified(a: Line, b: Line)
    requires TrimEnd(a.text) == a.text != [] && TrimEnd(b.text) == b.text != []
    ensures E.Unjustified([a, b]) == (a.text + b.text, {0, |a.text|})
  {
    hide TrimEnd;
    UnjustifiedPush([], a);
    UnjustifiedPush([a], b);
    assert [] + [a] == [a] && [a] + [b] == [a, b] && [] + a.text == a.text;
    var none: set<nat> := {};
    assert E.Unjustified([]) == ([], none);
    assert E.Unjustified([a]).0 == a.text;
    assert E.Unjustified([a]).1 == none + {0} == {0};
    assert {0} + {|a.text|} == {0, |a.text|};
  }

  lemma QuoteRewrapped(l: Locale)
    requires LettersAndQuote(l)
    ensures Rewrapped(E.EnvOf(l), [Line(Letters(LINEW), false), Line(">", false)], 0, 1) ==
      [Line(Letters(LINEW) + " ", true), Line(">", false)]
  {
    hide Wrap, Letters, E.Unjustified;
    var lines := [Line(Letters(LINEW), false), Line(">", false)];
    TwoUnjustified(lines[0], lines[1]);
    WrapsQuote(l);
    assert lines[0..2] == lines;
  }

  /** A paragraph for which it fails: letters from margin to margin and a quote below them. The
      quote is wrapped with the letters and starts a line. */
  lemma JustifyTakesQuote(l: Locale)
    requires LettersAndQuote(l)
    ensures var e, quote := E.EnvOf(l), Line(">", false);
      var s := State([Line(Letters(LINEW), false), quote], 0, 0, false, 0, 0, [], NoKey);
      PressJustify(e, s).text == [Line(Letters(LINEW) + " ", true), quote, quote] &&
      PressJustify(e, PressJustify(e, s)).text != s.text
  {
    hide PressJustify, Rewrapped, Letters, E.EnvOf;
    var e, quote := E.EnvOf(l), Line(">", false);
    var s := State([Line(Letters(LINEW), false), quote], 0, 0, false, 0, 0, [], NoKey);
    assert Letters(LINEW)[0] == 'a';
    assert BlockEnd(s.text, 1) == 1 && BlockStart(s.text, 0) == 0;
    assert BlockEnd(s.text, 0) == 1;
    QuoteRewrapped(l);
    AfterJustify(e, s);
    var lines := [Line(Letters(LINEW) + " ", true), quote];
    assert !Justifiable(lines[1]);
    assert Splice(s.text, 0, 1, lines) == [lines[0], quote, quote];
    JustifyTwice(e, s);
  }
}
