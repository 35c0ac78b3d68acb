/** What the word wrapper promises about the lines it makes: they end where a break is allowed, they
    fit, and no more would have fitted. */
module Wrapping {
  import opened Columns
  import opened WordWrap
  import LB = LineBreaks

  // --- The verdicts on words -----------------------------------------------------------------

  ghost predicate Words(cs: seq<LB.Class>) { forall i :: 0 <= i < |cs| ==> cs[i].AL? || cs[i].SP? }

  // A line may be broken between a space and the letter after it, and nowhere else.
  function WordVerdict(cs: seq<LB.Class>, i: nat): LB.Verdict
    requires i < |cs|
  {
    if i > 0 && !cs[i].SP? && cs[i - 1].SP? then LB.Allowed else LB.Prohibited
  }

  ghost predicate WordState(e: LB.Engine, cs: seq<LB.Class>) {
    e.handler.Default? && (e.prevNoSpace.Start? || e.prevNoSpace.AL?) &&
    e.prev == (if cs == [] then LB.Start else cs[|cs| - 1]) && (e.prev.SP? || e.prevNoSpace == e.prev)
  }

  lemma WordStep(e: LB.Engine, cs: seq<LB.Class>, cls: LB.Class)
    requires WordState(e, cs) && Words(cs) && (cls.AL? || cls.SP?)
    ensures var (e', v) := LB.Next(e, cls);
      WordState(e', cs + [cls]) && v == [WordVerdict(cs + [cls], |cs|)]
  {}

  /** For a text of letters and spaces, the engine allows a break at exactly the places between a
      space and the letter after it, and no break is mandatory. */
  lemma {:induction false} WordVerdicts(cs: seq<LB.Class>)
    requires Words(cs)
    ensures var (e, v) := LB.Feed(cs);
      WordState(e, cs) && |v| == |cs| && forall i :: 0 <= i < |cs| ==> v[i] == WordVerdict(cs, i)
  {
    hide LB.Next, WordState;
    if cs == [] {
      NoWords();
    } else {
      var init, last := cs[..|cs| - 1], cs[|cs| - 1];
      WordVerdicts(init);
      WordStep(LB.Feed(init).0, init, last);
      assert init + [last] == cs;
    }
  }

  lemma NoWords()
    ensures LB.Feed([]).1 == [] && WordState(LB.Feed([]).0, [])
  {}

  // --- Where a text is cut ---------------------------------------------------------------------

  // The next place after k where a line may end.
  function NextBreak(vs: seq<LB.Verdict>, k: nat): (b: nat)
    requires k < |vs|
    ensures k < b <= |vs|
    decreases |vs| - k
  {
    if k + 1 == |vs| || !vs[k + 1].Prohibited? then k + 1 else NextBreak(vs, k + 1)
  }

  // No line may end inside text[a..b].
  ghost predicate Unbroken(vs: seq<LB.Verdict>, a: nat, b: nat) {
    b <= |vs| && forall k :: a < k < b ==> vs[k].Prohibited?
  }

  ghost predicate NoTabs(text: seq<char>) { '\t' !in text }

  /** How wide the wrapper takes text[a..b] to be, for a line that starts at a: what comes before
      the first place where the line may end was measured from column `from`, where the line before
      left off, and the rest from where that puts it. */
  function LineCol(f: Font, text: seq<char>, vs: seq<LB.Verdict>, from: nat, a: nat, b: nat): nat
    requires a <= b <= |vs| <= |text|
  {
    if a == b then 0
    else
      var s := if NextBreak(vs, a) < b then NextBreak(vs, a) else b;
      EndCol(f, text[s..b], EndCol(f, text[a..s], from) - from)
  }

  /** A line text[a..b]. No line has to end inside it, and it fits into the width, if it can be
      made any shorter. */
  ghost predicate LineFits(f: Font, towidth: nat, text: seq<char>, vs: seq<LB.Verdict>, from: nat, a: nat, b: nat)
    requires b <= |vs| <= |text|
  {
    a <= b && (forall k :: a < k < b ==> !vs[k].Mandatory?) &&
    (LineCol(f, text, vs, from, a, b) <= towidth || Unbroken(vs, a, b))
  }

  /** A line text[a..b] with more text after it. A line may end there, and unless it has to, what
      follows up to the next place where a line may end would not have fitted. */
  ghost predicate LineFull(f: Font, towidth: nat, text: seq<char>, vs: seq<LB.Verdict>, from: nat, a: nat, b: nat)
    requires b < |vs| <= |text|
  {
    a < b && !vs[b].Prohibited? && (vs[b].Mandatory? || LineCol(f, text, vs, from, a, NextBreak(vs, b)) > towidth)
  }

  ghost predicate WholeLine(f: Font, towidth: nat, text: seq<char>, vs: seq<LB.Verdict>, from: nat, a: nat, b: nat)
    requires |vs| <= |text|
  {
    b < |vs| && LineFits(f, towidth, text, vs, from, a, b) && LineFull(f, towidth, text, vs, from, a, b)
  }

  // Where line i starts.
  function CutAt(pieces: seq<seq<char>>, i: nat): nat
    requires i <= |pieces|
  {
    |Flatten(pieces[..i])|
  }

  // Where the line before line i left off.
  function From(f: Font, text: seq<char>, vs: seq<LB.Verdict>, pieces: seq<seq<char>>, i: nat): nat
    requires i <= |pieces| && |vs| <= |text|
  {
    if i == 0 then 0
    else
      var a, b := CutAt(pieces, i - 1), CutAt(pieces, i);
      if b < |vs| && vs[b].Mandatory? then 0
      else if a <= b <= |vs| then LineCol(f, text, vs, From(f, text, vs, pieces, i - 1), a, b)
      else 0
  }

  ghost predicate LinesFull(f: Font, towidth: nat, text: seq<char>, vs: seq<LB.Verdict>, out: seq<seq<char>>)
    requires |vs| <= |text|
  {
    forall i :: 0 <= i < |out| ==>
      WholeLine(f, towidth, text, vs, From(f, text, vs, out, i), CutAt(out, i), CutAt(out, i + 1))
  }

  // What the wrapper holds after n characters: whole lines, a line and a segment.
  ghost predicate Holding(f: Font, towidth: nat, text: seq<char>, vs: seq<LB.Verdict>, n: nat, w: Wrapper)
    requires n <= |vs| <= |text|
  {
    var a := |Flatten(w.out)|;
    var b := a + |w.line|;
    b + |w.segment| == n && (n > 0 ==> w.segment != []) && w.segment == text[b..n] && Unbroken(vs, b, n) &&
    (w.line != [] ==> b < |vs| && vs[b].Allowed?) &&
    (w.line == [] ==> From(f, text, vs, w.out, |w.out|) == 0) && HoldsLine(f, towidth, text, vs, b, w)
  }

  // The lines so far, and the one being filled, which ends before b.
  ghost predicate HoldsLine(f: Font, towidth: nat, text: seq<char>, vs: seq<LB.Verdict>, b: nat, w: Wrapper)
    requires b <= |vs| <= |text|
  {
    var a, from := |Flatten(w.out)|, From(f, text, vs, w.out, |w.out|);
    b == a + |w.line| && w.line == text[a..b] && w.col == LineCol(f, text, vs, from, a, b) &&
    LineFits(f, towidth, text, vs, from, a, b) && LinesFull(f, towidth, text, vs, w.out)
  }

  lemma {:induction false} IsNextBreak(vs: seq<LB.Verdict>, b: nat, n: nat)
    requires b < n <= |vs| && Unbroken(vs, b, n) && (n < |vs| ==> !vs[n].Prohibited?)
    ensures NextBreak(vs, b) == n
    decreases n - b
  {
    if b + 1 < n {
      assert vs[b + 1].Prohibited?;
      IsNextBreak(vs, b + 1, n);
    }
  }

  // One more line leaves those before it where they are.
  lemma {:induction false} FromPush(f: Font, text: seq<char>, vs: seq<LB.Verdict>, p: seq<seq<char>>, q: seq<seq<char>>, i: nat)
    requires i <= |p| && i <= |q| && p[..i] == q[..i] && |vs| <= |text|
    ensures From(f, text, vs, p, i) == From(f, text, vs, q, i) && CutAt(p, i) == CutAt(q, i)
  {
    hide LineCol, Flatten;
    if i > 0 {
      assert p[..i - 1] == p[..i][..i - 1] && q[..i - 1] == q[..i][..i - 1];
      FromPush(f, text, vs, p, q, i - 1);
    }
  }

  lemma CutPush(out: seq<seq<char>>, line: seq<char>, i: nat)
    requires i <= |out|
    ensures CutAt(out + [line], i) == CutAt(out, i)
    ensures CutAt(out + [line], |out| + 1) == |Flatten(out)| + |line| && CutAt(out, |out|) == |Flatten(out)|
  {
    assert (out + [line])[..i] == out[..i];
    assert (out + [line])[..|out| + 1] == out + [line] && out[..|out|] == out;
    FlattenPush(out, line);
  }

  // A line is finished.
  lemma LinePushed(f: Font, towidth: nat, text: seq<char>, vs: seq<LB.Verdict>, out: seq<seq<char>>, line: seq<char>)
    requires |vs| <= |text| && LinesFull(f, towidth, text, vs, out)
    requires WholeLine(f, towidth, text, vs, From(f, text, vs, out, |out|), |Flatten(out)|, |Flatten(out)| + |line|)
    ensures LinesFull(f, towidth, text, vs, out + [line])
    ensures var from, a, b := From(f, text, vs, out, |out|), |Flatten(out)|, |Flatten(out)| + |line|;
      From(f, text, vs, out + [line], |out| + 1) == if vs[b].Mandatory? then 0 else LineCol(f, text, vs, from, a, b)
  {
    hide CutAt, Flatten, LineCol, LineFull, LinesFull, Unbroken;
    var all := out + [line];
    assert LinesFull(f, towidth, text, vs, all) by { LinesPushed(f, towidth, text, vs, out, line); }
    CutPush(out, line, |out|);
    assert all[..|out|] == out && out[..|out|] == out;
    FromPush(f, text, vs, all, out, |out|);
  }

  lemma LinesPushed(f: Font, towidth: nat, text: seq<char>, vs: seq<LB.Verdict>, out: seq<seq<char>>, line: seq<char>)
    requires |vs| <= |text| && LinesFull(f, towidth, text, vs, out)
    requires WholeLine(f, towidth, text, vs, From(f, text, vs, out, |out|), |Flatten(out)|, |Flatten(out)| + |line|)
    ensures LinesFull(f, towidth, text, vs, out + [line])
  {
    hide WholeLine, CutAt, Flatten, From;
    var all := out + [line];
    forall i | 0 <= i < |all|
      ensures WholeLine(f, towidth, text, vs, From(f, text, vs, all, i), CutAt(all, i), CutAt(all, i + 1))
    {
      CutPush(out, line, i);
      assert all[..i] == out[..i];
      FromPush(f, text, vs, all, out, i);
      if i < |out| {
        CutPush(out, line, i + 1);
        assert WholeLine(f, towidth, text, vs, From(f, text, vs, out, i), CutAt(out, i), CutAt(out, i + 1));
      }
    }
  }

  // A segment at the end of a line, and one that is a line.
  lemma {:induction false} BreaksBy(vs: seq<LB.Verdict>, a: nat, b: nat)
    requires a < b < |vs| && !vs[b].Prohibited?
    ensures NextBreak(vs, a) <= b
    decreases b - a
  {
    if a + 1 < b && vs[a + 1].Prohibited? {
      BreaksBy(vs, a + 1, b);
    }
  }

  lemma LineColGrows(f: Font, text: seq<char>, vs: seq<LB.Verdict>, from: nat, a: nat, b: nat, n: nat)
    requires a < b <= n <= |vs| <= |text| && b < |vs| && !vs[b].Prohibited?
    ensures LineCol(f, text, vs, from, a, n) == EndCol(f, text[b..n], LineCol(f, text, vs, from, a, b))
  {
    BreaksBy(vs, a, b);
    var s := NextBreak(vs, a);
    assert text[s..n] == text[s..b] + text[b..n];
    EndColConcat(f, text[s..b], text[b..n], EndCol(f, text[a..s], from) - from);
    assert s == b ==> text[s..b] == [];
  }

  lemma {:induction false} NoBreakYet(vs: seq<LB.Verdict>, a: nat, b: nat)
    requires a < b <= |vs| && Unbroken(vs, a, b)
    ensures NextBreak(vs, a) >= b
    decreases b - a
  {
    if a + 1 < b {
      NoBreakYet(vs, a + 1, b);
    }
  }

  lemma LineColFirst(f: Font, text: seq<char>, vs: seq<LB.Verdict>, from: nat, a: nat, n: nat)
    requires a < n <= |vs| <= |text| && Unbroken(vs, a, n)
    ensures LineCol(f, text, vs, from, a, n) == EndCol(f, text[a..n], from) - from
  {
    NoBreakYet(vs, a, n);
    assert text[n..n] == [];
  }

  // The segment goes on the line: it fits, or the line was empty.
  lemma SegmentStays(f: Font, towidth: nat, text: seq<char>, vs: seq<LB.Verdict>, n: nat, w: Wrapper)
    requires 0 < n <= |vs| <= |text| && Holding(f, towidth, text, vs, n, w)
    requires EndCol(f, w.segment, w.col) <= towidth || w.line == []
    ensures HoldsLine(f, towidth, text, vs, n, w.(line := w.line + w.segment, col := EndCol(f, w.segment, w.col)))
  {
    hide LinesFull, Flatten, From, LineCol;
    var a, b, from := |Flatten(w.out)|, |Flatten(w.out)| + |w.line|, From(f, text, vs, w.out, |w.out|);
    assert w.line + w.segment == text[a..n];
    if w.line == [] {
      assert w.col == 0 by { EmptyLineCol(f, text, vs, from, a); }
      LineColFirst(f, text, vs, 0, a, n);
    } else {
      LineColGrows(f, text, vs, from, a, b, n);
    }
  }

  lemma EmptyLineCol(f: Font, text: seq<char>, vs: seq<LB.Verdict>, from: nat, a: nat)
    requires a <= |vs| <= |text|
    ensures LineCol(f, text, vs, from, a, a) == 0
  {}

  // The line is finished, and the segment starts the next one.
  lemma SegmentBreaks(f: Font, towidth: nat, text: seq<char>, vs: seq<LB.Verdict>, n: nat, w: Wrapper)
    requires 0 < n <= |vs| <= |text| && Holding(f, towidth, text, vs, n, w)
    requires n < |vs| ==> !vs[n].Prohibited?
    requires EndCol(f, w.segment, w.col) > towidth && w.line != []
    ensures HoldsLine(f, towidth, text, vs, n,
      w.(out := w.out + [w.line], line := w.segment, col := EndCol(f, w.segment, w.col) - w.col))
  {
    hide LinesFull, Flatten, From, LineCol;
    var a, b, from := |Flatten(w.out)|, |Flatten(w.out)| + |w.line|, From(f, text, vs, w.out, |w.out|);
    IsNextBreak(vs, b, n);
    LineColGrows(f, text, vs, from, a, b, n);
    assert LineFull(f, towidth, text, vs, from, a, b);
    LinePushed(f, towidth, text, vs, w.out, w.line);
    FlattenPush(w.out, w.line);
    LineColFirst(f, text, vs, w.col, b, n);
  }

  // The segment is added at a place where a line may end, or at the end of the text.
  lemma SegmentAdded(f: Font, towidth: nat, text: seq<char>, vs: seq<LB.Verdict>, n: nat, w: Wrapper)
    requires 0 < n <= |vs| <= |text| && Holding(f, towidth, text, vs, n, w)
    requires n < |vs| ==> !vs[n].Prohibited?
    ensures var a := w.AddSegment(f, towidth);
      a.line != [] && HoldsLine(f, towidth, text, vs, n, a)
  {
    hide HoldsLine, Unbroken, Flatten, From;
    assert w.segment != [] && [] + w.segment == w.segment;
    if EndCol(f, w.segment, w.col) > towidth && w.line != [] {
      SegmentBreaks(f, towidth, text, vs, n, w);
    } else {
      SegmentStays(f, towidth, text, vs, n, w);
    }
  }

  lemma LineBroken(f: Font, towidth: nat, text: seq<char>, vs: seq<LB.Verdict>, n: nat, w: Wrapper)
    requires n < |vs| <= |text| && HoldsLine(f, towidth, text, vs, n, w) && w.line != [] && vs[n].Mandatory?
    ensures HoldsLine(f, towidth, text, vs, n, w.BreakLine())
    ensures From(f, text, vs, w.BreakLine().out, |w.BreakLine().out|) == 0
  {
    hide LinesFull, CutAt, Flatten, From, LineCol;
    var a, from := |Flatten(w.out)|, From(f, text, vs, w.out, |w.out|);
    assert LineFull(f, towidth, text, vs, from, a, n);
    LinePushed(f, towidth, text, vs, w.out, w.line);
    FlattenPush(w.out, w.line);
    EmptyLineCol(f, text, vs, 0, n);
  }

  // The first character of a segment, and the next ones.
  lemma SegmentStarts(f: Font, towidth: nat, text: seq<char>, vs: seq<LB.Verdict>, n: nat, w: Wrapper)
    requires n < |vs| <= |text| && HoldsLine(f, towidth, text, vs, n, w)
    requires if w.line != [] then vs[n].Allowed? else From(f, text, vs, w.out, |w.out|) == 0
    ensures forall cnt :: Holding(f, towidth, text, vs, n + 1, w.(cnt := cnt, segment := [text[n]]))
  {
    hide LineFits, LinesFull, Flatten, From, LineCol;
    assert text[n..n + 1] == [text[n]];
  }

  lemma SegmentGrows(f: Font, towidth: nat, text: seq<char>, vs: seq<LB.Verdict>, n: nat, w: Wrapper)
    requires n < |vs| <= |text| && Holding(f, towidth, text, vs, n, w) && vs[n].Prohibited?
    ensures forall cnt :: Holding(f, towidth, text, vs, n + 1, w.(cnt := cnt, segment := w.segment + [text[n]]))
  {
    hide LineFits, LinesFull, Flatten, From, LineCol;
    var b := |Flatten(w.out)| + |w.line|;
    assert text[b..n + 1] == text[b..n] + [text[n]];
  }

  lemma AcceptHolding(f: Font, towidth: nat, text: seq<char>, vs: seq<LB.Verdict>, n: nat, w: Wrapper)
    requires n < |vs| <= |text| && Plain(text) && Holding(f, towidth, text, vs, n, w)
    requires n == 0 ==> vs[0].Prohibited?
    ensures Holding(f, towidth, text, vs, n + 1, w.Accept(f, towidth, {}, vs[n], text[n]))
  {
    hide Holding, HoldsLine, Wrapper.AddSegment, From;
    assert text[n] in text;
    if vs[n].Prohibited? {
      SegmentGrows(f, towidth, text, vs, n, w);
    } else {
      SegmentAdded(f, towidth, text, vs, n, w);
      var a := w.AddSegment(f, towidth);
      if vs[n].Mandatory? {
        LineBroken(f, towidth, text, vs, n, a);
        SegmentStarts(f, towidth, text, vs, n, a.BreakLine());
      } else {
        SegmentStarts(f, towidth, text, vs, n, a);
      }
      assert [] + [text[n]] == [text[n]];
    }
  }

  lemma {:induction false} CollectHolding(l: Locale, towidth: nat, text: seq<char>, vs: seq<LB.Verdict>, n: nat)
    requires n <= |vs| <= |text| && Plain(text) && (vs != [] ==> vs[0].Prohibited?)
    ensures Holding(l.font, towidth, text, vs, n, Collect(l, towidth, {}, text, vs, n))
  {
    hide Holding, Wrapper.Accept;
    if n == 0 {
      NothingHeld(l.font, towidth, text, vs);
    } else {
      CollectHolding(l, towidth, text, vs, n - 1);
      AcceptHolding(l.font, towidth, text, vs, n - 1, Collect(l, towidth, {}, text, vs, n - 1));
    }
  }

  lemma NothingHeld(f: Font, towidth: nat, text: seq<char>, vs: seq<LB.Verdict>)
    requires |vs| <= |text|
    ensures Holding(f, towidth, text, vs, 0, Wrapper([], 0, [], 0, []))
  {}

  /** The lines of a text: cut where a line may end, and where it must; each fits into the width,
      unless it cannot be made shorter; and each but the last was filled as far as it could be. */
  ghost predicate WellCut(f: Font, towidth: nat, text: seq<char>, vs: seq<LB.Verdict>, pieces: seq<seq<char>>)
    requires |vs| <= |text|
  {
    Flatten(pieces) == text[..|vs|] &&
    (pieces != [] ==> LinesFull(f, towidth, text, vs, pieces[..|pieces| - 1])) &&
    (pieces != [] ==>
      LineFits(f, towidth, text, vs, From(f, text, vs, pieces, |pieces| - 1), CutAt(pieces, |pieces| - 1), |vs|))
  }

  lemma EofWellCut(f: Font, towidth: nat, text: seq<char>, vs: seq<LB.Verdict>, w: Wrapper)
    requires 0 < |vs| <= |text| && Holding(f, towidth, text, vs, |vs|, w)
    requires Flatten(w.Eof(f, towidth).out) == text[..|vs|]
    ensures WellCut(f, towidth, text, vs, w.Eof(f, towidth).out)
  {
    hide Holding, Wrapper.AddSegment, LineFits, LinesFull, Flatten, From;
    SegmentAdded(f, towidth, text, vs, |vs|, w);
    var a := w.AddSegment(f, towidth);
    assert w.Eof(f, towidth).out == a.out + [a.line];
    assert (a.out + [a.line])[..|a.out|] == a.out && a.out[..|a.out|] == a.out;
    FromPush(f, text, vs, a.out + [a.line], a.out, |a.out|);
  }

  // What the wrapper makes of a text and the verdicts on it.
  function Cut(l: Locale, text: seq<char>, vs: seq<LB.Verdict>, towidth: nat): seq<seq<char>>
    requires |vs| <= |text|
  {
    Collect(l, towidth, {}, text, vs, |vs|).Eof(l.font, towidth).out
  }

  lemma CutConserves(l: Locale, text: seq<char>, vs: seq<LB.Verdict>, towidth: nat)
    requires |vs| <= |text| && (vs != [] ==> vs[0].Prohibited?)
    ensures Flatten(Cut(l, text, vs, towidth)) == TakenAll(text[..|vs|])
  {
    hide Collect, Flatten, TakenAll, Wrapper.Eof;
    CollectKeeps(l, towidth, text, vs, |vs|);
    EofKeeps(Collect(l, towidth, {}, text, vs, |vs|), l.font, towidth, TakenAll(text[..|vs|]));
  }

  lemma CutWell(l: Locale, text: seq<char>, vs: seq<LB.Verdict>, towidth: nat)
    requires |vs| <= |text| && (vs != [] ==> vs[0].Prohibited?) && Plain(text)
    ensures WellCut(l.font, towidth, text, vs, Cut(l, text, vs, towidth))
  {
    hide Holding, Flatten, WellCut, TakenAll;
    CutConserves(l, text, vs, towidth);
    PlainPrefix(text, |vs|);
    PlainIsTaken(text[..|vs|]);
    CollectHolding(l, towidth, text, vs, |vs|);
    if vs == [] {
      NothingCut(l.font, towidth, text);
    } else {
      EofWellCut(l.font, towidth, text, vs, Collect(l, towidth, {}, text, vs, |vs|));
    }
  }

  lemma PlainPrefix(text: seq<char>, n: nat)
    requires n <= |text| && Plain(text)
    ensures Plain(text[..n])
  {}

  lemma NothingCut(f: Font, towidth: nat, text: seq<char>)
    ensures WellCut(f, towidth, text, [], [])
  {}

  /** The wrapper cuts every text without line breaks well. */
  lemma WrapWell(l: Locale, text: seq<char>, towidth: nat)
    requires Plain(text)
    ensures |Verdicts(l, text)| <= |text| && WellCut(l.font, towidth, text, Verdicts(l, text), Wrap(l, text, {}, towidth))
  {
    hide Verdicts, Collect, WellCut;
    VerdictsReported(l, text);
    CutWell(l, text, Verdicts(l, text), towidth);
  }

  // --- There is no other way -------------------------------------------------------------------

  // Two lines that start at the same place, one of them before more text.
  lemma NoLongerLine(f: Font, towidth: nat, text: seq<char>, vs: seq<LB.Verdict>, from: nat, a: nat, b: nat, c: nat)
    requires c <= |vs| <= |text| && WholeLine(f, towidth, text, vs, from, a, b) && LineFits(f, towidth, text, vs, from, a, c)
    requires c < |vs| ==> !vs[c].Prohibited?
    ensures c <= b
  {
    if b < c {
      var n := NextBreak(vs, b);
      NextIsNext(vs, b, c);
      LineColGrows(f, text, vs, from, a, b, n);
      LineColGrows(f, text, vs, from, a, b, c);
      assert text[b..c] == text[b..n] + text[n..c];
      EndColConcat(f, text[b..n], text[n..c], LineCol(f, text, vs, from, a, b));
    }
  }

  lemma {:induction false} NextIsNext(vs: seq<LB.Verdict>, b: nat, c: nat)
    requires b < c <= |vs| && (c < |vs| ==> !vs[c].Prohibited?)
    ensures NextBreak(vs, b) <= c
    decreases c - b
  {
    if b + 1 < c && !(b + 1 < |vs| && !vs[b + 1].Prohibited?) {
      NextIsNext(vs, b + 1, c);
    }
  }

  lemma {:induction false} CutsText(pieces: seq<seq<char>>, text: seq<char>, n: nat, i: nat)
    requires n <= |text| && Flatten(pieces) == text[..n] && i < |pieces|
    ensures CutAt(pieces, i) <= CutAt(pieces, i + 1) <= n && pieces[i] == text[CutAt(pieces, i)..CutAt(pieces, i + 1)]
  {
    var last := |pieces| - 1;
    if i == last {
      assert pieces[..i + 1] == pieces;
      assert text[..n] == Flatten(pieces[..i]) + pieces[i];
    } else {
      var m := |Flatten(pieces[..last])|;
      assert Flatten(pieces) == Flatten(pieces[..last]) + pieces[last];
      assert text[..m] == text[..n][..m];
      CutsText(pieces[..last], text, m, i);
      assert pieces[..last][..i] == pieces[..i] && pieces[..last][..i + 1] == pieces[..i + 1];
    }
  }

  // A line of a well-cut text, and whether it is the last.
  lemma LineOf(f: Font, towidth: nat, text: seq<char>, vs: seq<LB.Verdict>, pieces: seq<seq<char>>, i: nat)
    requires |vs| <= |text| && WellCut(f, towidth, text, vs, pieces) && i < |pieces|
    ensures var a, b, from := CutAt(pieces, i), CutAt(pieces, i + 1), From(f, text, vs, pieces, i);
      a <= b <= |vs| && pieces[i] == text[a..b] && LineFits(f, towidth, text, vs, from, a, b) &&
      if i < |pieces| - 1 then WholeLine(f, towidth, text, vs, from, a, b) else b == |vs|
  {
    hide LineFits, LineFull, Flatten, From;
    var m := |pieces| - 1;
    CutsText(pieces, text, |vs|, i);
    assert pieces[..m + 1] == pieces;
    if i < m {
      assert pieces[..m][..i] == pieces[..i] && pieces[..m][..i + 1] == pieces[..i + 1];
      FromPush(f, text, vs, pieces[..m], pieces, i);
      assert WholeLine(f, towidth, text, vs, From(f, text, vs, pieces[..m], i), CutAt(pieces[..m], i), CutAt(pieces[..m], i + 1));
    }
  }

  lemma {:induction false} SameCuts(f: Font, towidth: nat, text: seq<char>, vs: seq<LB.Verdict>,
                                    p: seq<seq<char>>, q: seq<seq<char>>, i: nat)
    requires |vs| <= |text| && WellCut(f, towidth, text, vs, p) && WellCut(f, towidth, text, vs, q)
    requires i <= |p| && i <= |q|
    ensures CutAt(p, i) == CutAt(q, i) && p[..i] == q[..i]
  {
    hide WellCut, WholeLine, LineFits, CutAt, From;
    if i == 0 {
      NoCuts(p);
      NoCuts(q);
    } else {
      SameCuts(f, towidth, text, vs, p, q, i - 1);
      LineOf(f, towidth, text, vs, p, i - 1);
      LineOf(f, towidth, text, vs, q, i - 1);
      FromPush(f, text, vs, p, q, i - 1);
      SameLine(f, towidth, text, vs, From(f, text, vs, p, i - 1), CutAt(p, i - 1), CutAt(p, i), CutAt(q, i));
      assert p[..i] == p[..i - 1] + [p[i - 1]] && q[..i] == q[..i - 1] + [q[i - 1]];
    }
  }

  lemma NoCuts(pieces: seq<seq<char>>)
    ensures CutAt(pieces, 0) == 0
  {}

  // The line ends at the same place in both.
  lemma SameLine(f: Font, towidth: nat, text: seq<char>, vs: seq<LB.Verdict>, from: nat, a: nat, b: nat, c: nat)
    requires a <= b <= |vs| <= |text| && c <= |vs|
    requires LineFits(f, towidth, text, vs, from, a, b) && LineFits(f, towidth, text, vs, from, a, c)
    requires WholeLine(f, towidth, text, vs, from, a, b) || b == |vs|
    requires WholeLine(f, towidth, text, vs, from, a, c) || c == |vs|
    ensures b == c
  {
    if b < |vs| {
      NoLongerLine(f, towidth, text, vs, from, a, b, c);
    }
    if c < |vs| {
      NoLongerLine(f, towidth, text, vs, from, a, c, b);
    }
  }

  /** There is only one way to cut a text well. */
  lemma OneWellCut(f: Font, towidth: nat, text: seq<char>, vs: seq<LB.Verdict>, p: seq<seq<char>>, q: seq<seq<char>>)
    requires 0 < |vs| <= |text| && WellCut(f, towidth, text, vs, p) && WellCut(f, towidth, text, vs, q)
    ensures p == q
  {
    hide WellCut, WholeLine, LineFits, CutAt;
    WellCutLengths(f, towidth, text, vs, p, q);
    WellCutLengths(f, towidth, text, vs, q, p);
    SameCuts(f, towidth, text, vs, p, q, |p|);
    assert p[..|p|] == p && q[..|q|] == q;
  }

  lemma WellCutLengths(f: Font, towidth: nat, text: seq<char>, vs: seq<LB.Verdict>, p: seq<seq<char>>, q: seq<seq<char>>)
    requires 0 < |vs| <= |text| && WellCut(f, towidth, text, vs, p) && WellCut(f, towidth, text, vs, q)
    ensures |q| <= |p|
  {
    hide LineFits, LinesFull, CutAt;
    assert text[..|vs|] != [] && p != [];
    LineOf(f, towidth, text, vs, p, |p| - 1);
    if |p| < |q| {
      SameCuts(f, towidth, text, vs, p, q, |p|);
      LineOf(f, towidth, text, vs, q, |p| - 1);
    }
  }

  // --- Tabs --------------------------------------------------------------------------------------

  lemma {:induction false} FromMultiple(f: Font, s: seq<char>, from: nat, col: nat)
    requires from % 8 == 0
    ensures EndCol(f, s, from + col) == from + EndCol(f, s, col)
  {
    if s != [] {
      assert (from + col) % 8 == col % 8;
      FromMultiple(f, s[1..], from, col + f.CharWidth(s[0], col));
    }
  }

  lemma EndColFirst(f: Font, s: seq<char>, col: nat)
    requires s != []
    ensures EndCol(f, s, col) == EndCol(f, s[1..], col + f.CharWidth(s[0], col))
  {}

  // A tab ends at a multiple of eight wherever it starts, so what follows it is as wide.
  lemma TabMoves(f: Font, s: seq<char>, from: nat, col: nat)
    requires from % 8 != 0 && s != [] && s[0] == '\t'
    ensures EndCol(f, s, from + col) != from + EndCol(f, s, col)
  {
    hide EndCol;
    var w, w' := f.CharWidth('\t', col), f.CharWidth('\t', from + col);
    EndColFirst(f, s, col);
    EndColFirst(f, s, from + col);
    TabEnds(f, col);
    TabEnds(f, from + col);
    FromMultiple(f, s[1..], col + w, 0);
    FromMultiple(f, s[1..], from + col + w', 0);
    assert from + col + w' != from + (col + w);
  }

  lemma TabEnds(f: Font, col: nat)
    ensures (col + f.CharWidth('\t', col)) % 8 == 0
  {}

  /** A text is as wide from column `from` as it is from the margin exactly if there is no tab in it,
      or `from` is a multiple of eight. */
  lemma {:induction false} TabsMove(f: Font, s: seq<char>, from: nat, col: nat)
    ensures EndCol(f, s, from + col) == from + EndCol(f, s, col) <==> from % 8 == 0 || NoTabs(s)
  {
    hide EndCol;
    if from % 8 == 0 {
      FromMultiple(f, s, from, col);
    } else if s == [] {
      EmptyWidth(f, from, col);
    } else if s[0] == '\t' {
      TabMoves(f, s, from, col);
    } else {
      var w := f.CharWidth(s[0], col);
      EndColFirst(f, s, col);
      EndColFirst(f, s, from + col);
      TabsMove(f, s[1..], from, col + w);
      assert NoTabs(s) <==> NoTabs(s[1..]);
    }
  }

  lemma EmptyWidth(f: Font, from: nat, col: nat)
    ensures EndCol(f, [], from + col) == from + EndCol(f, [], col)
  {}

  /** So a line is taken to be as wide as it is if what comes before the first place where it may
      end has no tab, or the line before left off at a multiple of eight. */
  lemma FromMargin(f: Font, text: seq<char>, vs: seq<LB.Verdict>, from: nat, a: nat, b: nat)
    requires a <= b <= |vs| <= |text|
    requires a < b && from % 8 != 0 ==> NoTabs(text[a..if NextBreak(vs, a) < b then NextBreak(vs, a) else b])
    ensures LineCol(f, text, vs, from, a, b) == EndCol(f, text[a..b], 0)
  {
    if a < b {
      var s := if NextBreak(vs, a) < b then NextBreak(vs, a) else b;
      TabsMove(f, text[a..s], from, 0);
      assert text[a..b] == text[a..s] + text[s..b];
      EndColConcat(f, text[a..s], text[s..b], 0);
    } else {
      assert text[a..b] == [];
    }
  }

  /** Without tabs every line fits into the width, or cannot be made shorter; and with what follows,
      up to the next place where a line may end, it would not fit. */
  lemma LinesFit(l: Locale, text: seq<char>, towidth: nat, i: nat)
    requires Plain(text) && NoTabs(text) && i < |Wrap(l, text, {}, towidth)|
    ensures var f, vs, pieces := l.font, Verdicts(l, text), Wrap(l, text, {}, towidth);
      var a, b := CutAt(pieces, i), CutAt(pieces, i + 1);
      a <= b <= |vs| <= |text| && pieces[i] == text[a..b] && (EndCol(f, pieces[i], 0) <= towidth || Unbroken(vs, a, b)) &&
      (i < |pieces| - 1 ==>
        b < |vs| && !vs[b].Prohibited? && (vs[b].Mandatory? || EndCol(f, text[a..NextBreak(vs, b)], 0) > towidth))
  {
    hide Wrap, Verdicts, WellCut, CutAt, From, LineCol;
    var f, vs, pieces := l.font, Verdicts(l, text), Wrap(l, text, {}, towidth);
    WrapWell(l, text, towidth);
    LineOf(f, towidth, text, vs, pieces, i);
    var a, b := CutAt(pieces, i), CutAt(pieces, i + 1);
    FromMargin(f, text, vs, From(f, text, vs, pieces, i), a, b);
    if i < |pieces| - 1 {
      FromMargin(f, text, vs, From(f, text, vs, pieces, i), a, NextBreak(vs, b));
    }
  }

  /** A text that fits, and has no place where a line must end, stays one line. */
  lemma FitsStays(l: Locale, text: seq<char>, towidth: nat)
    requires Plain(text) && text != [] && EndCol(l.font, text, 0) <= towidth
    requires forall k :: 0 <= k < |Verdicts(l, text)| ==> !Verdicts(l, text)[k].Mandatory?
    ensures |Verdicts(l, text)| <= |text| && Wrap(l, text, {}, towidth) == [text[..|Verdicts(l, text)|]]
  {
    hide Wrap, Verdicts;
    var vs := Verdicts(l, text);
    VerdictsReported(l, text);
    WrapWell(l, text, towidth);
    OneLine(l.font, towidth, text, vs);
    OneWellCut(l.font, towidth, text, vs, Wrap(l, text, {}, towidth), [text[..|vs|]]);
  }

  lemma OneLine(f: Font, towidth: nat, text: seq<char>, vs: seq<LB.Verdict>)
    requires |vs| <= |text| && EndCol(f, text, 0) <= towidth && forall k :: 0 <= k < |vs| ==> !vs[k].Mandatory?
    ensures WellCut(f, towidth, text, vs, [text[..|vs|]])
  {
    var s := text[..|vs|];
    assert text == s + text[|vs|..] && text[0..|vs|] == s;
    EndColConcat(f, s, text[|vs|..], 0);
    assert [s][..0] == [] && Flatten([s]) == s;
    FromMargin(f, text, vs, 0, 0, |vs|);
  }

  // --- Words -------------------------------------------------------------------------------------

  ghost predicate WordText(l: Locale, text: seq<char>) {
    forall i :: 0 <= i < |text| ==> text[i] == ' ' || l.Class(text[i]).AL?
  }

  // A word, but the first, starts at i.
  predicate StartsWord(text: seq<char>, i: nat)
    requires i < |text|
  {
    i > 0 && text[i] != ' ' && text[i - 1] == ' '
  }

  /** A text of letters and spaces is wrapped whole, between words: no line but the first starts
      inside a word or with a space, every line fits, as the wrapper counts it, unless it is a single
      word with the spaces after it, and with the next word it would not fit. */
  lemma WordsWrap(l: Locale, text: seq<char>, towidth: nat)
    requires WordText(l, text) && Plain(text)
    ensures |Verdicts(l, text)| == |text| && WellCut(l.font, towidth, text, Verdicts(l, text), Wrap(l, text, {}, towidth))
    ensures forall i :: 0 <= i < |text| ==> Verdicts(l, text)[i] == if StartsWord(text, i) then LB.Allowed else LB.Prohibited
  {
    hide Wrap, WellCut;
    WrapWell(l, text, towidth);
    WordTextVerdicts(l, text);
  }

  lemma WordTextVerdicts(l: Locale, text: seq<char>)
    requires WordText(l, text)
    ensures |Verdicts(l, text)| == |text|
    ensures forall i :: 0 <= i < |text| ==> Verdicts(l, text)[i] == if StartsWord(text, i) then LB.Allowed else LB.Prohibited
  {
    hide LB.Feed, WordState;
    var cs := l.Classes(text);
    forall i | 0 <= i < |text| ensures (cs[i].SP? <==> text[i] == ' ') && (cs[i].AL? || cs[i].SP?) {
      assert cs[i] == l.Class(text[i]);
    }
    WordVerdicts(cs);
  }

  // --- Wrapping lines again ------------------------------------------------------------------------

  datatype Marked = Marked(text: seq<char>, verdicts: seq<LB.Verdict>)

  /** The first n characters of lines that are wrapped again, each of which starts at one of
      `starts`: where no line may end at the start of one, a space is put in before it, and then a
      line may end. */
  function Spaced(text: seq<char>, vs: seq<LB.Verdict>, starts: set<nat>, n: nat): (m: Marked)
    requires n <= |vs| && n <= |text|
    ensures |m.text| == |m.verdicts|
  {
    if n == 0 then Marked([], [])
    else
      var m, ch, v := Spaced(text, vs, starts, n - 1), text[n - 1], vs[n - 1];
      if v.Prohibited? && n - 1 > 0 && n - 1 in starts then Marked(m.text + [' ', ch], m.verdicts + [LB.Prohibited, LB.Allowed])
      else Marked(m.text + [ch], m.verdicts + [v])
  }

  lemma {:induction false} CollectPrefix(l: Locale, towidth: nat, text: seq<char>, vs: seq<LB.Verdict>, more: seq<char>,
                                         us: seq<LB.Verdict>, n: nat)
    requires n <= |text| && n <= |vs|
    ensures Collect(l, towidth, {}, text + more, vs + us, n) == Collect(l, towidth, {}, text, vs, n)
  {
    hide Wrapper.Accept;
    if n > 0 {
      CollectPrefix(l, towidth, text, vs, more, us, n - 1);
    }
  }

  // Taking in one more character, or a space and one more.
  lemma CollectOne(l: Locale, towidth: nat, m: Marked, ch: char, v: LB.Verdict)
    requires |m.text| == |m.verdicts|
    ensures var k := |m.text|;
      Collect(l, towidth, {}, m.text + [ch], m.verdicts + [v], k + 1) ==
        Collect(l, towidth, {}, m.text, m.verdicts, k).Accept(l.font, towidth, {}, v, ch)
  {
    hide Wrapper.Accept;
    CollectPrefix(l, towidth, m.text, m.verdicts, [ch], [v], |m.text|);
  }

  lemma AcceptSame(w: Wrapper, f: Font, towidth: nat, starts: set<nat>, v: LB.Verdict, ch: char, k: nat)
    requires !(v.Prohibited? && w.cnt > 0 && w.cnt in starts)
    ensures w.(cnt := k).Accept(f, towidth, {}, v, ch) == w.Accept(f, towidth, starts, v, ch).(cnt := k + 1)
  {}

  lemma AcceptSpaced(w: Wrapper, f: Font, towidth: nat, starts: set<nat>, ch: char, k: nat)
    requires w.cnt > 0 && w.cnt in starts
    ensures w.(cnt := k).Accept(f, towidth, {}, LB.Prohibited, ' ').Accept(f, towidth, {}, LB.Allowed, ch) ==
      w.Accept(f, towidth, starts, LB.Prohibited, ch).(cnt := k + 2)
  {}

  lemma {:induction false} CollectSpaced(l: Locale, towidth: nat, starts: set<nat>, text: seq<char>, vs: seq<LB.Verdict>, n: nat)
    requires n <= |vs| && n <= |text|
    ensures var m, w := Spaced(text, vs, starts, n), Collect(l, towidth, starts, text, vs, n);
      w.cnt == n && Collect(l, towidth, {}, m.text, m.verdicts, |m.text|) == w.(cnt := |m.text|)
  {
    hide Wrapper.Accept;
    if n > 0 {
      var m, w := Spaced(text, vs, starts, n - 1), Collect(l, towidth, starts, text, vs, n - 1);
      var ch, v, k := text[n - 1], vs[n - 1], |m.text|;
      CollectSpaced(l, towidth, starts, text, vs, n - 1);
      CountsOne(w, l.font, towidth, starts, v, ch);
      if v.Prohibited? && n - 1 > 0 && n - 1 in starts {
        var m' := Marked(m.text + [' '], m.verdicts + [LB.Prohibited]);
        CollectOne(l, towidth, m, ' ', LB.Prohibited);
        CollectOne(l, towidth, m', ch, LB.Allowed);
        AcceptSpaced(w, l.font, towidth, starts, ch, k);
        assert m'.text + [ch] == m.text + [' ', ch] && m'.verdicts + [LB.Allowed] == m.verdicts + [LB.Prohibited, LB.Allowed];
      } else {
        CollectOne(l, towidth, m, ch, v);
        AcceptSame(w, l.font, towidth, starts, v, ch, k);
      }
    }
  }

  lemma CountsOne(w: Wrapper, f: Font, towidth: nat, starts: set<nat>, v: LB.Verdict, ch: char)
    ensures w.Accept(f, towidth, starts, v, ch).cnt == w.cnt + 1
  {}

  lemma EofSame(w: Wrapper, f: Font, towidth: nat, k: nat)
    ensures w.(cnt := k).Eof(f, towidth).out == w.Eof(f, towidth).out
  {}

  // The text that the lines make up, as the wrapper sees it.
  function Rejoined(l: Locale, text: seq<char>, starts: set<nat>): (m: Marked)
    ensures |m.text| == |m.verdicts|
  {
    var vs := Verdicts(l, text);
    Spaced(text, vs, starts, if |vs| <= |text| then |vs| else 0)
  }

  /** Wrapping lines again is wrapping the text that they make up, with a space between two of them
      wherever there was no place to end a line. */
  lemma WrapSpaced(l: Locale, text: seq<char>, starts: set<nat>, towidth: nat)
    ensures |Verdicts(l, text)| == |text| - Held(l, text)
    ensures var m := Rejoined(l, text, starts);
      Wrap(l, text, starts, towidth) == Cut(l, m.text, m.verdicts, towidth) &&
      Flatten(Wrap(l, text, starts, towidth)) == TakenAll(m.text) &&
      (Plain(m.text) ==> WellCut(l.font, towidth, m.text, m.verdicts, Wrap(l, text, starts, towidth)))
  {
    hide Collect, Spaced, Verdicts, WellCut, TakenAll, Flatten, Wrapper.Eof, Held;
    var vs, m := Verdicts(l, text), Rejoined(l, text, starts);
    VerdictsReported(l, text);
    CollectSpaced(l, towidth, starts, text, vs, |vs|);
    EofSame(Collect(l, towidth, starts, text, vs, |vs|), l.font, towidth, |m.text|);
    SpacedFirst(text, vs, starts, |vs|);
    CutConserves(l, m.text, m.verdicts, towidth);
    assert m.text[..|m.text|] == m.text;
    if Plain(m.text) {
      CutWell(l, m.text, m.verdicts, towidth);
    }
  }

  lemma {:induction false} SpacedFirst(text: seq<char>, vs: seq<LB.Verdict>, starts: set<nat>, n: nat)
    requires n <= |vs| && n <= |text| && (vs != [] ==> vs[0].Prohibited?)
    ensures var m := Spaced(text, vs, starts, n);
      (m.verdicts == [] <==> n == 0) && (m.verdicts != [] ==> m.verdicts[0].Prohibited?)
  {
    if n > 0 {
      SpacedFirst(text, vs, starts, n - 1);
    }
  }

  // --- A line that does not fit ------------------------------------------------------------------

  lemma TabSteps()
    ensures LB.Next(LB.Engine(LB.SP, LB.AL, LB.Default), LB.BA) == (LB.Engine(LB.BA, LB.BA, LB.Default), [LB.Allowed])
    ensures LB.Next(LB.Engine(LB.BA, LB.BA, LB.Default), LB.AL) == (LB.Engine(LB.AL, LB.AL, LB.Default), [LB.Allowed])
    ensures LB.Next(LB.Initial, LB.AL) == (LB.Engine(LB.AL, LB.AL, LB.Default), [LB.Prohibited])
    ensures LB.Next(LB.Engine(LB.AL, LB.AL, LB.Default), LB.SP) == (LB.Engine(LB.SP, LB.AL, LB.Default), [LB.Prohibited])
  {}

  lemma TabVerdicts()
    ensures LB.Feed([LB.AL, LB.SP, LB.BA, LB.AL]).1 == [LB.Prohibited, LB.Prohibited, LB.Allowed, LB.Allowed]
  {
    hide LB.Next, LB.Feed;
    var none: seq<LB.Class>, one: seq<LB.Class>, two: seq<LB.Class> := [], [LB.AL], [LB.AL, LB.SP];
    TabSteps();
    FeedNothing();
    LB.FeedPush(none, LB.AL);
    LB.FeedPush(one, LB.SP);
    LB.FeedPush(two, LB.BA);
    LB.FeedPush(two + [LB.BA], LB.AL);
    assert none + [LB.AL] == one && one + [LB.SP] == two && two + [LB.BA] + [LB.AL] == [LB.AL, LB.SP, LB.BA, LB.AL];
    var p: seq<LB.Verdict> := [LB.Prohibited];
    assert [] + p == p && p + p == [LB.Prohibited, LB.Prohibited];
    assert LB.Feed(one) == (LB.Engine(LB.AL, LB.AL, LB.Default), p);
    assert LB.Feed(two) == (LB.Engine(LB.SP, LB.AL, LB.Default), [LB.Prohibited, LB.Prohibited]);
  }

  lemma FeedNothing()
    ensures LB.Feed([]) == (LB.Initial, [])
  {}

  lemma TabWidths(f: Font)
    requires Ordinary(f, 'a') && Ordinary(f, 'b') && f.wcwidth(' ') == 1
    ensures EndCol(f, "a ", 0) == 2 && EndCol(f, "\t", 2) == 8 && EndCol(f, "b", 6) == 7 && EndCol(f, "\tb", 0) == 9
  {
    assert "a "[1..] == " " && " "[1..] == [] && "\t"[1..] == [] && "b"[1..] == [] && "\tb"[1..] == "b";
    assert EndCol(f, " ", 1) == 2 && EndCol(f, "b", 8) == 9;
  }

  /** Tabs are counted from the column where the line before left off, so a line that a tab starts
      can get too wide, although it could be made shorter. */
  lemma TabTooWide(l: Locale)
    requires l.Class('a').AL? && l.Class('b').AL? && l.Class('\t').BA?
    requires Ordinary(l.font, 'a') && Ordinary(l.font, 'b') && l.font.wcwidth(' ') == 1
    ensures Wrap(l, "a \tb", {}, 7) == ["a ", "\tb"] && EndCol(l.font, "\tb", 0) == 9
    ensures |Verdicts(l, "a \tb")| == 4 && Verdicts(l, "a \tb")[3].Allowed?
  {
    hide LB.Feed, EndCol;
    var text, f := "a \tb", l.font;
    TabVerdicts();
    TabWidths(f);
    assert l.Classes(text) == [LB.AL, LB.SP, LB.BA, LB.AL];
    TabCollected(l, Verdicts(l, text));
  }

  lemma TabCollected(l: Locale, vs: seq<LB.Verdict>)
    requires vs == [LB.Prohibited, LB.Prohibited, LB.Allowed, LB.Allowed]
    requires EndCol(l.font, "a ", 0) == 2 && EndCol(l.font, "\t", 2) == 8 && EndCol(l.font, "b", 6) == 7
    ensures Cut(l, "a \tb", vs, 7) == ["a ", "\tb"]
  {
    hide EndCol, Wrapper.Accept, Wrapper.Eof;
    var text: seq<char> := "a \tb";
    var f := l.font;
    AcceptInside(Wrapper([], 0, [], 0, []), f, 7, 'a');
    AcceptInside(Wrapper("a", 1, [], 0, []), f, 7, ' ');
    TabAccepted(f);
    TabBreaks(f);
    TabLast(f);
    assert [] + ['a'] == "a" && "a" + [' '] == "a ";
    assert Collect(l, 7, {}, text, vs, 1) == Wrapper("a", 1, [], 0, []);
    assert Collect(l, 7, {}, text, vs, 2) == Wrapper("a ", 2, [], 0, []);
    assert Collect(l, 7, {}, text, vs, 3) == Wrapper("\t", 3, "a ", 2, []);
  }

  lemma AcceptInside(w: Wrapper, f: Font, towidth: nat, ch: char)
    requires ch != '\r' && ch != '\n'
    ensures w.Accept(f, towidth, {}, LB.Prohibited, ch) == w.(cnt := w.cnt + 1, segment := w.segment + [ch])
  {}

  lemma TabAccepted(f: Font)
    requires EndCol(f, "a ", 0) == 2
    ensures Wrapper("a ", 2, [], 0, []).Accept(f, 7, {}, LB.Allowed, '\t') == Wrapper("\t", 3, "a ", 2, [])
  {
    hide EndCol;
    assert [] + "a " == "a " && [] + ['\t'] == "\t";
  }

  lemma TabBreaks(f: Font)
    requires EndCol(f, "\t", 2) == 8
    ensures Wrapper("\t", 3, "a ", 2, []).Accept(f, 7, {}, LB.Allowed, 'b') == Wrapper("b", 4, "\t", 6, ["a "])
  {
    hide EndCol;
    assert [] + "\t" == "\t" && [] + ['b'] == "b" && [] + ["a "] == ["a "];
  }

  lemma TabLast(f: Font)
    requires EndCol(f, "b", 6) == 7
    ensures Wrapper("b", 4, "\t", 6, ["a "]).Eof(f, 7).out == ["a ", "\tb"]
  {
    hide EndCol;
    assert "\t" + "b" == "\tb" && ["a "] + ["\tb"] == ["a ", "\tb"];
  }
}
