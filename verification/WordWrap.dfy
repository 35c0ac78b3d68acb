/** unicodewordwrap: collect a stream of characters into segments between line
    break opportunities, and the segments into lines of a given width. */
module WordWrap {
  import opened Columns
  import LB = LineBreaks

  datatype Locale = Locale(font: Font, lineClass: char -> LB.Class)
  {
    // The space and the line breaks have classes of their own; characters missing from
    // the table are alphabetic.
    function Class(ch: char): LB.Class {
      if ch == ' ' then LB.SP else if ch == '\r' then LB.CR else if ch == '\n' then LB.LF
      else if lineClass(ch).Start? then LB.AL else lineClass(ch)
    }

    function Classes(text: seq<char>): seq<LB.Class> {
      seq(|text|, i requires 0 <= i < |text| => Class(text[i]))
    }
  }

  // wordwrap_collector and the buffer of unicodewordwrapper
  datatype Wrapper = Wrapper(segment: seq<char>, cnt: nat, line: seq<char>, col: nat, out: seq<seq<char>>)
  {
    function BreakLine(): Wrapper { this.(out := out + [line], line := [], col := 0) }

    function AddSegment(f: Font, towidth: nat): Wrapper {
      if segment == [] then this else
        var width := EndCol(f, segment, col) - col;
        var w := if width + col > towidth && line != [] then BreakLine() else this;
        w.(line := w.line + segment, col := w.col + width)
    }

    // One character with the verdict on breaking before it. `rewrap` says where
    // the lines being rewrapped started; a space is supplied there if needed.
    function Accept(f: Font, towidth: nat, rewrap: set<nat>, v: LB.Verdict, ch: char): Wrapper {
      var spaced := v.Prohibited? && cnt > 0 && cnt in rewrap;
      var w := if spaced then this.(segment := segment + [' ']) else this;
      var v' := if spaced then LB.Allowed else v;
      var added := if v'.Prohibited? then w else
        var a := w.AddSegment(f, towidth);
        (if v'.Mandatory? then a.BreakLine() else a).(segment := []);
      added.(cnt := cnt + 1,
             segment := if ch == '\r' || ch == '\n' then added.segment else added.segment + [ch])
    }

    function Eof(f: Font, towidth: nat): Wrapper {
      var w := AddSegment(f, towidth);
      if w.line != [] then w.BreakLine() else w
    }
  }

  function Collect(l: Locale, towidth: nat, rewrap: set<nat>, text: seq<char>, vs: seq<LB.Verdict>,
                   n: nat): Wrapper
    requires n <= |vs| && n <= |text|
  {
    if n == 0 then Wrapper([], 0, [], 0, [])
    else Collect(l, towidth, rewrap, text, vs, n - 1).Accept(l.font, towidth, rewrap, vs[n - 1], text[n - 1])
  }

  function Verdicts(l: Locale, text: seq<char>): seq<LB.Verdict> { LB.Feed(l.Classes(text)).1 }

  // The wrapper is closed without finishing the line-breaking engine, so what the
  // engine still holds never reaches it.
  function Wrap(l: Locale, text: seq<char>, rewrap: set<nat>, towidth: nat): seq<seq<char>> {
    var vs := Verdicts(l, text);
    LB.FeedReports(l.Classes(text));
    Collect(l, towidth, rewrap, text, vs, |vs|).Eof(l.font, towidth).out
  }

  function Flatten(pieces: seq<seq<char>>): seq<char> {
    if pieces == [] then [] else Flatten(pieces[..|pieces| - 1]) + pieces[|pieces| - 1]
  }

  predicate Plain(text: seq<char>) { '\r' !in text && '\n' !in text }

  // A character of the text, and a text, without the line breaks that are dropped.
  function Taken(ch: char): seq<char> { if ch == '\r' || ch == '\n' then [] else [ch] }

  function TakenAll(text: seq<char>): seq<char> {
    if text == [] then [] else TakenAll(text[..|text| - 1]) + Taken(text[|text| - 1])
  }

  // How many characters at the end of the text are lost.
  function Held(l: Locale, text: seq<char>): nat {
    var cs := l.Classes(text);
    if LB.EndsOpened(cs) then LB.TrailingMarks(cs) + 1 else 0
  }

  ghost predicate NonEmptyPieces(pieces: seq<seq<char>>) {
    forall i :: 0 <= i < |pieces| ==> pieces[i] != []
  }

  ghost predicate Holds(w: Wrapper, text: seq<char>) {
    Flatten(w.out) + w.line + w.segment == text && NonEmptyPieces(w.out)
  }

  lemma FlattenPush(pieces: seq<seq<char>>, p: seq<char>)
    ensures Flatten(pieces + [p]) == Flatten(pieces) + p
  {
    assert (pieces + [p])[..|pieces|] == pieces;
  }

  lemma AddSegmentHolds(w: Wrapper, f: Font, towidth: nat, text: seq<char>)
    requires Holds(w, text)
    ensures var a := w.AddSegment(f, towidth);
      Holds(a.(segment := []), text) && (w.segment != [] ==> a.line != [])
  {
    hide Flatten;
    FlattenPush(w.out, w.line);
    assert Flatten(w.out) + (w.line + w.segment) == text;
    assert Flatten(w.out) + w.line + [] + w.segment == text;
  }

  lemma BreakLineHolds(w: Wrapper, text: seq<char>)
    requires Holds(w, text) && w.line != [] && w.segment == []
    ensures Holds(w.BreakLine(), text)
  {
    FlattenPush(w.out, w.line);
    assert Flatten(w.out) + w.line + [] + [] == text;
  }

  lemma AcceptHolds(w: Wrapper, f: Font, towidth: nat, v: LB.Verdict, ch: char, text: seq<char>)
    requires Holds(w, text) && ch != '\r' && ch != '\n'
    requires v.Prohibited? || w.segment != []
    ensures Holds(w.Accept(f, towidth, {}, v, ch), text + [ch])
    ensures w.Accept(f, towidth, {}, v, ch).segment != []
  {
    hide Flatten, NonEmptyPieces, Wrapper.AddSegment;
    AddSegmentHolds(w, f, towidth, text);
    var a := w.AddSegment(f, towidth).(segment := []);
    if v.Mandatory? {
      BreakLineHolds(a, text);
    }
  }

  lemma {:induction false} CollectHolds(l: Locale, towidth: nat, text: seq<char>, vs: seq<LB.Verdict>, n: nat)
    requires Plain(text) && n <= |vs| && n <= |text|
    requires n > 0 ==> vs[0].Prohibited?
    ensures var w := Collect(l, towidth, {}, text, vs, n);
      Holds(w, text[..n]) && (n > 0 ==> w.segment != [])
  {
    if n > 0 {
      CollectHolds(l, towidth, text, vs, n - 1);
      assert text[..n] == text[..n - 1] + [text[n - 1]];
      assert text[n - 1] in text;
      AcceptHolds(Collect(l, towidth, {}, text, vs, n - 1), l.font, towidth, vs[n - 1], text[n - 1],
                  text[..n - 1]);
    }
  }

  // The same for any text, without asking whether pieces are empty.

  ghost predicate Keeps(w: Wrapper, text: seq<char>) { Flatten(w.out) + w.line + w.segment == text }

  lemma AddSegmentKeeps(w: Wrapper, f: Font, towidth: nat, text: seq<char>)
    requires Keeps(w, text)
    ensures Keeps(w.AddSegment(f, towidth).(segment := []), text)
  {
    hide Flatten;
    FlattenPush(w.out, w.line);
    assert Flatten(w.out) + (w.line + w.segment) == text;
    assert Flatten(w.out) + w.line + [] + w.segment == text;
  }

  lemma BreakLineKeeps(w: Wrapper, text: seq<char>)
    requires Keeps(w, text) && w.segment == []
    ensures Keeps(w.BreakLine(), text)
  {
    FlattenPush(w.out, w.line);
    assert Flatten(w.out) + w.line + [] + [] == text;
  }

  lemma AcceptKeeps(w: Wrapper, f: Font, towidth: nat, v: LB.Verdict, ch: char, text: seq<char>)
    requires Keeps(w, text)
    ensures Keeps(w.Accept(f, towidth, {}, v, ch), text + Taken(ch))
  {
    hide Wrapper.AddSegment;
    AddSegmentKeeps(w, f, towidth, text);
    var a := w.AddSegment(f, towidth).(segment := []);
    BreakLineKeeps(a, text);
    assert Taken(ch) == [] ==> text + Taken(ch) == text;
  }

  lemma {:induction false} CollectKeeps(l: Locale, towidth: nat, text: seq<char>, vs: seq<LB.Verdict>, n: nat)
    requires n <= |vs| && n <= |text|
    ensures Keeps(Collect(l, towidth, {}, text, vs, n), TakenAll(text[..n]))
  {
    hide Wrapper.Accept;
    if n > 0 {
      CollectKeeps(l, towidth, text, vs, n - 1);
      assert text[..n][..n - 1] == text[..n - 1];
      AcceptKeeps(Collect(l, towidth, {}, text, vs, n - 1), l.font, towidth, vs[n - 1], text[n - 1],
                  TakenAll(text[..n - 1]));
    }
  }

  lemma EofKeeps(w: Wrapper, f: Font, towidth: nat, text: seq<char>)
    requires Keeps(w, text)
    ensures Flatten(w.Eof(f, towidth).out) == text
  {
    hide Wrapper.AddSegment;
    AddSegmentKeeps(w, f, towidth, text);
    BreakLineKeeps(w.AddSegment(f, towidth).(segment := []), text);
  }

  lemma {:induction false} PlainIsTaken(text: seq<char>)
    requires Plain(text)
    ensures TakenAll(text) == text
  {
    if text != [] {
      var n := |text| - 1;
      assert text[n] in text && text == text[..n] + [text[n]];
      PlainIsTaken(text[..n]);
    }
  }

  lemma {:induction false} TakenConcat(a: seq<char>, b: seq<char>)
    ensures TakenAll(a + b) == TakenAll(a) + TakenAll(b)
  {
    if b == [] {
      assert a + b == a;
    } else {
      var n := |b| - 1;
      assert (a + b)[..|a + b| - 1] == a + b[..n] && (a + b)[|a + b| - 1] == b[n];
      TakenConcat(a, b[..n]);
    }
  }

  lemma {:induction false} TakenIsPlain(text: seq<char>)
    ensures Plain(TakenAll(text))
  {
    if text != [] {
      TakenIsPlain(text[..|text| - 1]);
    }
  }

  lemma {:induction false} TakenLength(text: seq<char>)
    ensures |TakenAll(text)| <= |text| && (|TakenAll(text)| == |text| ==> Plain(text))
  {
    if text != [] {
      TakenLength(text[..|text| - 1]);
      assert text == text[..|text| - 1] + [text[|text| - 1]];
    }
  }

  lemma TakenShorter(text: seq<char>, held: nat)
    requires held <= |text| && !Plain(text)
    ensures |TakenAll(text[..|text| - held])| < |text|
  {
    TakenLength(text[..|text| - held]);
    assert text[..|text|] == text;
  }

  // A held tail has no line breaks.
  lemma HeldIsTaken(l: Locale, text: seq<char>)
    ensures Held(l, text) <= |text|
    ensures var tail := text[|text| - Held(l, text)..]; TakenAll(tail) == tail
  {
    var cs := l.Classes(text);
    VerdictsReported(l, text);
    if LB.EndsOpened(cs) {
      LB.HeldClasses(cs);
      forall i | |text| - Held(l, text) <= i < |text| ensures text[i] != '\r' && text[i] != '\n' {
        assert cs[i] == l.Class(text[i]);
      }
    }
    PlainIsTaken(text[|text| - Held(l, text)..]);
  }

  lemma EofHolds(w: Wrapper, f: Font, towidth: nat, text: seq<char>)
    requires Holds(w, text) && (text != [] ==> w.segment != [])
    ensures var pieces := w.Eof(f, towidth).out;
      Flatten(pieces) == text && NonEmptyPieces(pieces) && (pieces == [] <==> text == [])
  {
    hide Flatten, Wrapper.AddSegment;
    AddSegmentHolds(w, f, towidth, text);
    var a := w.AddSegment(f, towidth).(segment := []);
    if a.line != [] {
      BreakLineHolds(a, text);
    } else {
      FlattenNothing(a.out);
    }
  }

  lemma FlattenNothing(pieces: seq<seq<char>>)
    requires NonEmptyPieces(pieces)
    ensures Flatten(pieces) == [] <==> pieces == []
  {}

  lemma VerdictsReported(l: Locale, text: seq<char>)
    ensures Held(l, text) <= |text| && |Verdicts(l, text)| == |text| - Held(l, text)
    ensures text != [] ==> Verdicts(l, text) != [] && Verdicts(l, text)[0].Prohibited?
  {
    LB.FeedReports(l.Classes(text));
    if text != [] {
      LB.FirstVerdict(l.Classes(text));
    }
  }

  /** Put together, the pieces are the text, but for its line breaks and the tail held by
      the line-breaking engine. The pieces of a text without line breaks are never empty. */
  lemma WrapConserves(l: Locale, text: seq<char>, towidth: nat)
    ensures Held(l, text) <= |text|
    ensures Flatten(Wrap(l, text, {}, towidth)) == TakenAll(text[..|text| - Held(l, text)])
    ensures var pieces := Wrap(l, text, {}, towidth);
      Plain(text) ==>
        Flatten(pieces) == text[..|text| - Held(l, text)] && NonEmptyPieces(pieces) && (pieces == [] <==> text == [])
  {
    hide Flatten, Held, Plain, Verdicts, LB.Feed, Wrapper.Eof, TakenAll, NonEmptyPieces;
    VerdictsReported(l, text);
    var vs := Verdicts(l, text);
    var w := Collect(l, towidth, {}, text, vs, |vs|);
    CollectKeeps(l, towidth, text, vs, |vs|);
    EofKeeps(w, l.font, towidth, TakenAll(text[..|vs|]));
    if Plain(text) {
      WrapHolds(l, text, towidth);
    }
  }

  lemma WrapHolds(l: Locale, text: seq<char>, towidth: nat)
    requires Plain(text)
    ensures Held(l, text) <= |text|
    ensures var pieces := Wrap(l, text, {}, towidth);
      Flatten(pieces) == text[..|text| - Held(l, text)] && NonEmptyPieces(pieces) && (pieces == [] <==> text == [])
  {
    hide Flatten, Held, Plain, Verdicts, LB.Feed, Wrapper.Eof;
    var vs := Verdicts(l, text);
    VerdictsReported(l, text);
    CollectHolds(l, towidth, text, vs, |vs|);
    EofHolds(Collect(l, towidth, {}, text, vs, |vs|), l.font, towidth, text[..|vs|]);
  }

  /** Wrapping keeps all of the text but its line breaks exactly when the text does not end
      in a symbol followed by an opening punctuation, as in "up 5%(". */
  lemma WrapKeepsAll(l: Locale, text: seq<char>, towidth: nat)
    ensures Flatten(Wrap(l, text, {}, towidth)) == TakenAll(text) <==> !LB.EndsOpened(l.Classes(text))
  {
    hide Wrap, TakenAll;
    WrapConserves(l, text, towidth);
    HeldIsTaken(l, text);
    var n := |text| - Held(l, text);
    TakenConcat(text[..n], text[n..]);
    assert text == text[..n] + text[n..];
  }

  /** A concrete loss: given the classes of the Unicode table for the two
      characters, wrapping "%(" yields "%". */
  lemma WrapLosesOpening(l: Locale, towidth: nat)
    requires l.lineClass('%') == LB.PO && l.lineClass('(') == LB.OP
    ensures Flatten(Wrap(l, "%(", {}, towidth)) == "%"
  {
    hide Wrap, TakenAll, LB.Feed;
    var cs := l.Classes("%(");
    assert cs == [LB.PO, LB.OP];
    assert cs[..1] == [LB.PO] && LB.LastBase([LB.PO]) == LB.PO;
    assert Held(l, "%(") == 1 && Plain("%(");
    WrapConserves(l, "%(", towidth);
    assert "%("[..1] == "%";
  }
}
